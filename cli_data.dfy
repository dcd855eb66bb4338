/**
 * The command-line tool's data layer: the string-typed transfer records a
 * BOM file is read into, the simple CSV loader (parent, child, quantity and
 * an optional cost per record) and the conversion of the transfer records
 * into the kernel's components and BOM items.
 *
 * The CSV reader itself is not modelled: `LoadCsv` takes the records
 * already split into fields. Decimal parsing is a parameter, `parse`, that
 * yields `None` for text that is not a decimal number.
 */
module CliData {
  import opened Models
  import opened Seqs

  datatype ComponentData = ComponentData(
    id: string,
    description: string,
    componentType: string,
    standardCost: Option<string>,
    uom: string,
    procurementType: string,
    organization: string)

  /** A BOM line as text; `sequence` is the source's 32-bit signed integer. */
  datatype BomItemData = BomItemData(
    parentId: string,
    childId: string,
    quantity: string,
    scrapFactor: string,
    sequence: int)

  datatype BomData = BomData(components: seq<ComponentData>, bomItems: seq<BomItemData>)

  // ---------------------------------------------------------------------
  // load_csv

  /** A record with at least the three fields parent, child and quantity. */
  predicate IsRow(r: seq<string>)
  {
    |r| >= 3
  }

  /** The row names `id` as parent or as child. */
  predicate Mentions(r: seq<string>, id: string)
  {
    IsRow(r) && (r[0] == id || r[1] == id)
  }

  /** Record `i` is the first row that names `id`. */
  predicate FirstMention(records: seq<seq<string>>, id: string, i: nat)
  {
    i < |records| && Mentions(records[i], id) && forall j :: 0 <= j < i ==> !Mentions(records[j], id)
  }

  /** The optional fourth field. */
  function CostField(r: seq<string>): Option<string>
  {
    if |r| > 3 then Some(r[3]) else None
  }

  /**
   * The component data a row introduces for `id`: a parent is a finished
   * product made in house, a child a raw material bought in; both take the
   * row's cost field.
   */
  function Introduced(r: seq<string>, id: string): (c: ComponentData)
    requires Mentions(r, id)
    ensures c.id == id && c.description == id && c.standardCost == CostField(r)
    ensures c.uom == "EA" && c.organization == "DEFAULT"
    ensures r[0] == id ==> c.componentType == "FinishedProduct" && c.procurementType == "Make"
    ensures r[0] != id ==> c.componentType == "RawMaterial" && c.procurementType == "Buy"
  {
    if r[0] == id then ComponentData(id, id, "FinishedProduct", CostField(r), "EA", "Make", "DEFAULT")
    else ComponentData(id, id, "RawMaterial", CostField(r), "EA", "Buy", "DEFAULT")
  }

  /** The BOM line a row yields: no scrap, sequence 10. */
  function RowItem(r: seq<string>): BomItemData
    requires IsRow(r)
  {
    BomItemData(r[0], r[1], r[2], "0", 10)
  }

  /** The component map's contents once the first `i` records are read. */
  ghost predicate MapAfter(records: seq<seq<string>>, i: nat, m: map<string, ComponentData>)
    requires i <= |records|
  {
    && (forall id :: id in m <==> exists j :: 0 <= j < i && Mentions(records[j], id))
    && (forall id :: id in m ==> exists j: nat :: j < i && FirstMention(records, id, j) && m[id] == Introduced(records[j], id))
  }

  /** Reading record `i` adds the ids it names first, and leaves every other entry as it was. */
  lemma MapStep(records: seq<seq<string>>, i: nat, m: map<string, ComponentData>, m2: map<string, ComponentData>)
    requires i < |records| && MapAfter(records, i, m)
    requires forall id :: id in m2 <==> id in m || Mentions(records[i], id)
    requires forall id :: id in m ==> m2[id] == m[id]
    requires forall id :: id in m2 && id !in m ==> m2[id] == Introduced(records[i], id)
    ensures MapAfter(records, i + 1, m2)
  {
    forall id | id in m2 && id !in m
      ensures exists j: nat :: j < i + 1 && FirstMention(records, id, j) && m2[id] == Introduced(records[i], id)
    {
      assert FirstMention(records, id, i);
    }
    forall id | id in m2 ensures exists j :: 0 <= j < i + 1 && Mentions(records[j], id) {
      if id !in m {
        assert Mentions(records[i], id);
      }
    }
  }

  /** The records with at least three fields, in record order. */
  function Rows(records: seq<seq<string>>): (rows: seq<seq<string>>)
    ensures forall x :: x in rows <==> x in records && IsRow(x)
    ensures forall k :: 0 <= k < |rows| ==> IsRow(rows[k])
  {
    if records == [] then []
    else
      var init := records[..|records| - 1];
      var last := records[|records| - 1];
      assert records == init + [last];
      Rows(init) + (if IsRow(last) then [last] else [])
  }

  /** The rows among the first `i` records, as BOM lines. */
  ghost predicate ItemsAfter(records: seq<seq<string>>, i: nat, items: seq<BomItemData>)
    requires i <= |records|
  {
    var rows := Rows(records[..i]);
    |items| == |rows| && forall k :: 0 <= k < |rows| ==> items[k] == RowItem(rows[k])
  }

  lemma ItemsStep(records: seq<seq<string>>, i: nat, items: seq<BomItemData>)
    requires i < |records| && ItemsAfter(records, i, items)
    ensures IsRow(records[i]) ==> ItemsAfter(records, i + 1, items + [RowItem(records[i])])
    ensures !IsRow(records[i]) ==> ItemsAfter(records, i + 1, items)
  {
    assert records[..i + 1][..i] == records[..i];
  }

  /**
   * The two `entry(..).or_insert_with(..)` calls for a row: the parent,
   * then the child, each added only when absent.
   */
  method AddComponents(m: map<string, ComponentData>, r: seq<string>) returns (m2: map<string, ComponentData>)
    requires IsRow(r)
    ensures forall id :: id in m2 <==> id in m || Mentions(r, id)
    ensures forall id :: id in m ==> m2[id] == m[id]
    ensures forall id :: id in m2 && id !in m ==> m2[id] == Introduced(r, id)
  {
    var parent, child := r[0], r[1];
    var cost := if |r| > 3 then Some(r[3]) else None;
    m2 := m;
    if parent !in m2 {
      m2 := m2[parent := ComponentData(parent, parent, "FinishedProduct", cost, "EA", "Make", "DEFAULT")];
    }
    if child !in m2 {
      m2 := m2[child := ComponentData(child, child, "RawMaterial", cost, "EA", "Buy", "DEFAULT")];
    }
  }

  /** The map's values, in whatever order the hash map yields them; each value carries its key as id. */
  method ValuesOf(m: map<string, ComponentData>) returns (cs: seq<ComponentData>)
    requires forall id :: id in m ==> m[id].id == id
    ensures forall k :: 0 <= k < |cs| ==> cs[k].id in m && m[cs[k].id] == cs[k]
    ensures forall id :: id in m ==> exists k :: 0 <= k < |cs| && cs[k].id == id
    ensures forall k, l :: 0 <= k < l < |cs| ==> cs[k].id != cs[l].id
  {
    cs := [];
    var rest := m.Keys;
    while rest != {}
      invariant rest <= m.Keys
      invariant forall k :: 0 <= k < |cs| ==> cs[k].id in m && m[cs[k].id] == cs[k] && cs[k].id !in rest
      invariant forall id :: id in m && id !in rest ==> exists k :: 0 <= k < |cs| && cs[k].id == id
      invariant forall k, l :: 0 <= k < l < |cs| ==> cs[k].id != cs[l].id
      decreases rest
    {
      var id :| id in rest;
      ghost var before := cs;
      cs := cs + [m[id]];
      assert forall k :: 0 <= k < |before| ==> cs[k] == before[k];
      assert cs[|cs| - 1].id == id;
      rest := rest - {id};
    }
  }

  /** The loop over the records: the component map and the BOM lines once every record is read. */
  method ReadRecords(records: seq<seq<string>>) returns (componentsMap: map<string, ComponentData>, bomItems: seq<BomItemData>)
    ensures forall id :: id in componentsMap ==>
              exists j: nat :: FirstMention(records, id, j) && componentsMap[id] == Introduced(records[j], id)
    ensures forall id, j :: 0 <= j < |records| && Mentions(records[j], id) ==> id in componentsMap
    ensures |bomItems| == |Rows(records)| && forall k :: 0 <= k < |bomItems| ==> bomItems[k] == RowItem(Rows(records)[k])
  {
    componentsMap := map[];
    bomItems := [];
    for i := 0 to |records|
      invariant MapAfter(records, i, componentsMap)
      invariant ItemsAfter(records, i, bomItems)
    {
      var r := records[i];
      ItemsStep(records, i, bomItems);
      if |r| >= 3 {
        var m2 := AddComponents(componentsMap, r);
        MapStep(records, i, componentsMap, m2);
        componentsMap := m2;
        bomItems := bomItems + [BomItemData(r[0], r[1], r[2], "0", 10)];
      } else {
        MapStep(records, i, componentsMap, componentsMap);
      }
    }
    assert records[..|records|] == records;
  }

  /**
   * `load_csv` over already-split records: rows with fewer than three
   * fields are skipped; every row yields one BOM line, in row order; a
   * component's data comes from the first row that names it and is never
   * changed by a later one.
   */
  method LoadCsv(records: seq<seq<string>>) returns (data: BomData)
    ensures var rows := Rows(records);
            && |data.bomItems| == |rows|
            && forall k :: 0 <= k < |rows| ==>
                 && data.bomItems[k].parentId == rows[k][0] && data.bomItems[k].childId == rows[k][1]
                 && data.bomItems[k].quantity == rows[k][2]
                 && data.bomItems[k].scrapFactor == "0" && data.bomItems[k].sequence == 10
    ensures forall k :: 0 <= k < |data.components| ==>
              exists j: nat :: FirstMention(records, data.components[k].id, j)
                               && data.components[k] == Introduced(records[j], data.components[k].id)
    ensures forall id, j :: 0 <= j < |records| && Mentions(records[j], id) ==>
              exists k :: 0 <= k < |data.components| && data.components[k].id == id
    ensures forall k, l :: 0 <= k < l < |data.components| ==> data.components[k].id != data.components[l].id
  {
    var componentsMap, bomItems := ReadRecords(records);
    forall id | id in componentsMap ensures componentsMap[id].id == id {
      var j: nat :| FirstMention(records, id, j) && componentsMap[id] == Introduced(records[j], id);
    }
    var components := ValuesOf(componentsMap);
    data := BomData(components, bomItems);
    forall k | 0 <= k < |components|
      ensures exists j: nat :: FirstMention(records, components[k].id, j) && components[k] == Introduced(records[j], components[k].id)
    {
      var id := components[k].id;
      var j: nat :| FirstMention(records, id, j) && componentsMap[id] == Introduced(records[j], id);
    }
    forall id, j | 0 <= j < |records| && Mentions(records[j], id)
      ensures exists k :: 0 <= k < |components| && components[k].id == id
    {
      assert id in componentsMap;
    }
  }

  // ---------------------------------------------------------------------
  // BomData::to_core

  /** The component type a string names; anything unrecognised is a raw material. */
  function ComponentTypeOf(s: string): (t: ComponentType)
    ensures t == FinishedProduct <==> s == "FinishedProduct"
    ensures t == SemiFinished <==> s == "SemiFinished"
    ensures t != FinishedProduct && t != SemiFinished ==> t == RawMaterial
  {
    match s
    case "FinishedProduct" => FinishedProduct
    case "SemiFinished" => SemiFinished
    case "RawMaterial" => RawMaterial
    case _ => RawMaterial
  }

  /** The procurement type a string names; anything unrecognised is bought. */
  function ProcurementOf(s: string): (p: ProcurementType)
    ensures p == Make <==> s == "Make"
    ensures p != Make ==> p == Buy
  {
    match s
    case "Make" => Make
    case "Buy" => Buy
    case _ => Buy
  }

  /** `i32 as u32`: a negative sequence number wraps around to 2^32 plus itself. */
  function AsU32(s: int): (u: nat)
    ensures 0 <= s < 0x1_0000_0000 ==> u == s
    ensures -0x8000_0000 <= s < 0 ==> u == s + 0x1_0000_0000
  {
    s % 0x1_0000_0000
  }

  function ComponentToCore(c: ComponentData, parse: string -> Option<real>): Component
  {
    Component(
      c.id, c.description, ComponentTypeOf(c.componentType), c.uom,
      if c.standardCost.Some? then parse(c.standardCost.value) else None,
      Some(7), ProcurementOf(c.procurementType), c.organization, 0)
  }

  /** The transfer record converted: ids and text copied, the cost parsed if it can be, seven days' lead time. */
  ghost predicate ComponentConverted(c: ComponentData, r: Component, parse: string -> Option<real>)
  {
    && r.id == c.id && r.description == c.description && r.uom == c.uom && r.organization == c.organization
    && r.componentType == ComponentTypeOf(c.componentType)
    && r.procurementType == ProcurementOf(c.procurementType)
    && (c.standardCost.None? ==> r.standardCost.None?)
    && (c.standardCost.Some? ==> r.standardCost == parse(c.standardCost.value))
    && r.leadTimeDays == Some(7) && r.version == 0
  }

  function ItemToCore(it: BomItemData, parse: string -> Option<real>): Result<BomItem>
  {
    match parse(it.quantity)
    case None => Err(InvalidQuantity(it.quantity))
    case Some(q) =>
      Ok(BomItem(it.parentId, it.childId, q, parse(it.scrapFactor).GetOr(0.0), AsU32(it.sequence),
                 false, None, None, None, 0))
  }

  /** The line converted: the quantity parsed, an unparsable scrap factor read as zero, no phantom, no window. */
  ghost predicate ItemConverted(it: BomItemData, b: BomItem, parse: string -> Option<real>)
  {
    && b.parentId == it.parentId && b.childId == it.childId
    && parse(it.quantity) == Some(b.quantity)
    && (parse(it.scrapFactor).None? ==> b.scrapFactor == 0.0)
    && (parse(it.scrapFactor).Some? ==> b.scrapFactor == parse(it.scrapFactor).value)
    && b.sequence == AsU32(it.sequence)
    && !b.isPhantom && b.effectiveFrom.None? && b.effectiveTo.None? && b.alternativeGroup.None?
    && b.version == 0
  }

  /** The quantities of the first `n` lines all parse. */
  ghost predicate QuantitiesParse(items: seq<BomItemData>, n: nat, parse: string -> Option<real>)
    requires n <= |items|
  {
    forall k :: 0 <= k < n ==> parse(items[k].quantity).Some?
  }

  /**
   * Collecting the converted lines: all of them, in order, when every
   * quantity parses; otherwise the error of the first line whose quantity
   * does not.
   */
  function ItemsToCore(items: seq<BomItemData>, parse: string -> Option<real>): (r: Result<seq<BomItem>>)
    ensures r.Ok? <==> QuantitiesParse(items, |items|, parse)
    ensures r.Ok? ==> |r.value| == |items| && forall k :: 0 <= k < |items| ==> ItemConverted(items[k], r.value[k], parse)
    ensures r.Err? ==> exists k :: 0 <= k < |items| && QuantitiesParse(items, k, parse) && parse(items[k].quantity).None?
                                   && r.error == InvalidQuantity(items[k].quantity)
  {
    if items == [] then Ok([])
    else
      assert forall k :: 1 <= k < |items| ==> items[1..][k - 1] == items[k];
      match ItemToCore(items[0], parse)
      case Err(e) =>
        assert QuantitiesParse(items, 0, parse);
        Err(e)
      case Ok(b) =>
        match ItemsToCore(items[1..], parse)
        case Err(e) =>
          assert exists k :: 1 <= k < |items| && QuantitiesParse(items, k, parse) && parse(items[k].quantity).None?
                             && e == InvalidQuantity(items[k].quantity) by {
            var k :| 0 <= k < |items| - 1 && QuantitiesParse(items[1..], k, parse) && parse(items[1..][k].quantity).None?
                     && e == InvalidQuantity(items[1..][k].quantity);
            assert QuantitiesParse(items, k + 1, parse);
          }
          Err(e)
        case Ok(bs) =>
          Ok([b] + bs)
  }

  /**
   * `BomData::to_core`: every component converts; the lines convert unless
   * some quantity does not parse, in which case the whole conversion fails.
   */
  function ToCore(data: BomData, parse: string -> Option<real>): (r: Result<(seq<Component>, seq<BomItem>)>)
    ensures r.Ok? <==> QuantitiesParse(data.bomItems, |data.bomItems|, parse)
    ensures r.Ok? ==> |r.value.0| == |data.components|
                      && forall k :: 0 <= k < |data.components| ==> ComponentConverted(data.components[k], r.value.0[k], parse)
    ensures r.Ok? ==> |r.value.1| == |data.bomItems|
                      && forall k :: 0 <= k < |data.bomItems| ==> ItemConverted(data.bomItems[k], r.value.1[k], parse)
    ensures r.Err? ==> exists k :: 0 <= k < |data.bomItems| && QuantitiesParse(data.bomItems, k, parse)
                                   && parse(data.bomItems[k].quantity).None?
                                   && r.error == InvalidQuantity(data.bomItems[k].quantity)
  {
    var components := seq(|data.components|, k requires 0 <= k < |data.components| => ComponentToCore(data.components[k], parse));
    match ItemsToCore(data.bomItems, parse)
    case Err(e) => Err(e)
    case Ok(items) => Ok((components, items))
  }

  /**
   * Lines loaded from CSV carry scrap "0" and sequence 10: once converted
   * (with a parser that reads "0" as zero) they have no scrap allowance, so
   * their effective quantity is the parsed quantity.
   */
  lemma {:induction false} LoadedLinesHaveNoScrap(items: seq<BomItemData>, parse: string -> Option<real>)
    requires parse("0") == Some(0.0)
    requires forall k :: 0 <= k < |items| ==> items[k].scrapFactor == "0" && items[k].sequence == 10
    requires ItemsToCore(items, parse).Ok?
    ensures var bs := ItemsToCore(items, parse).value;
            forall k :: 0 <= k < |bs| ==> bs[k].sequence == 10 && EffectiveQuantity(bs[k]) == bs[k].quantity
  {
    var bs := ItemsToCore(items, parse).value;
    forall k | 0 <= k < |bs| ensures bs[k].sequence == 10 && EffectiveQuantity(bs[k]) == bs[k].quantity {
      assert ItemConverted(items[k], bs[k], parse);
    }
  }
}
