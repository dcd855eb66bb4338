/**
 * Entity model of the BOM kernel: component ids, components, BOM items and
 * headers, cost breakdowns and the result records of the calculators, plus
 * the error taxonomy shared by every crate.
 *
 * Decimal quantities and costs are exact `real`s; dates are `int`s.
 */
module Models {

  /** Component identity: exact, case-sensitive string equality. */
  type ComponentId = string

  datatype Option<+T> = None | Some(value: T)
  {
    function GetOr(default: T): T
    {
      match this
      case Some(v) => v
      case None => default
    }
  }

  datatype ComponentType = FinishedProduct | SemiFinished | RawMaterial | Packaging | Service

  datatype ProcurementType = Make | Buy | Both

  datatype Component = Component(
    id: ComponentId,
    description: string,
    componentType: ComponentType,
    uom: string,
    standardCost: Option<real>,
    leadTimeDays: Option<nat>,
    procurementType: ProcurementType,
    organization: string,
    version: nat)

  /** A parent/child relationship with its quantity per parent unit. */
  datatype BomItem = BomItem(
    parentId: ComponentId,
    childId: ComponentId,
    quantity: real,
    scrapFactor: real,
    sequence: nat,
    isPhantom: bool,
    effectiveFrom: Option<int>,
    effectiveTo: Option<int>,
    alternativeGroup: Option<string>,
    version: nat)

  datatype BomUsage = Production | Engineering | Costing | Maintenance | Sales

  datatype BomStatus = Draft | Released | Frozen | Obsolete

  datatype BomHeader = BomHeader(
    id: string,
    componentId: ComponentId,
    usage: BomUsage,
    status: BomStatus,
    baseQuantity: real,
    alternative: Option<string>,
    effectiveFrom: Option<int>,
    effectiveTo: Option<int>,
    organization: string,
    version: nat)

  datatype CostBreakdown = CostBreakdown(
    componentId: ComponentId,
    materialCost: real,
    laborCost: real,
    overheadCost: real,
    subcontractCost: real,
    totalCost: real)

  datatype ExplosionItem = ExplosionItem(
    componentId: ComponentId,
    totalQuantity: real,
    level: nat,
    paths: seq<seq<ComponentId>>,
    isPhantom: bool)

  datatype ExplosionResult = ExplosionResult(
    rootComponent: ComponentId,
    items: seq<ExplosionItem>,
    uniqueComponentCount: nat,
    maxDepth: nat)

  datatype WhereUsedItem = WhereUsedItem(
    parentId: ComponentId,
    quantity: real,
    level: nat,
    paths: seq<seq<ComponentId>>)

  datatype WhereUsedResult = WhereUsedResult(
    component: ComponentId,
    usedIn: seq<WhereUsedItem>)

  /** The error kinds the kernel reports. */
  datatype BomError =
    | CircularDependency(message: string)
    | ComponentNotFound(id: string)
    | BomNotFound(id: string)
    | InvalidQuantity(message: string)
    | CalculationError(message: string)

  datatype Result<+T> = Ok(value: T) | Err(error: BomError)

  /** True when `date` lies in the closed window [from, to]; a missing bound is open. */
  predicate WithinWindow(from: Option<int>, to: Option<int>, date: int)
  {
    (from.None? || from.value <= date) && (to.None? || date <= to.value)
  }

  /** Quantity including the scrap allowance: quantity * (1 + scrap). */
  function EffectiveQuantity(item: BomItem): (r: real)
    ensures r == item.quantity + item.quantity * item.scrapFactor
    ensures item.scrapFactor == 0.0 ==> r == item.quantity
    ensures item.quantity == 0.0 ==> r == 0.0
  {
    item.quantity * (1.0 + item.scrapFactor)
  }

  /** The worked example: 100 units with 5% scrap need 105. */
  lemma EffectiveQuantityWithFivePercentScrap(item: BomItem)
    requires item.quantity == 100.0 && item.scrapFactor == 0.05
    ensures EffectiveQuantity(item) == 105.0
  {
  }

  /** Both effectivity bounds are inclusive; a missing bound does not restrict. */
  function IsEffectiveAt(item: BomItem, date: int): (b: bool)
    ensures b <==> WithinWindow(item.effectiveFrom, item.effectiveTo, date)
    ensures item.effectiveFrom == Some(date) ==> (b <==> item.effectiveTo.None? || date <= item.effectiveTo.value)
    ensures item.effectiveTo == Some(date) ==> (b <==> item.effectiveFrom.None? || item.effectiveFrom.value <= date)
    ensures item.effectiveFrom.None? && item.effectiveTo.None? ==> b
  {
    var afterStart := match item.effectiveFrom case None => true case Some(from) => date >= from;
    var beforeEnd := match item.effectiveTo case None => true case Some(to) => date <= to;
    afterStart && beforeEnd
  }

  /** Sum of the four cost parts of a breakdown. */
  function Sum(cb: CostBreakdown): (r: real)
    ensures cb.laborCost == 0.0 && cb.overheadCost == 0.0 && cb.subcontractCost == 0.0 ==> r == cb.materialCost
  {
    cb.materialCost + cb.laborCost + cb.overheadCost + cb.subcontractCost
  }
}
