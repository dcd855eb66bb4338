/**
 * The cost roll-up of `CostCalculator`: every node costs its own standard
 * cost plus, over its outgoing edges, the child's cost times the edge's
 * effective quantity. The calculator fills a cost map level by level,
 * leaves first, so a parent is computed only once its children are.
 *
 * Breakdowns carry material cost only: labor, overhead and subcontract stay
 * zero and the total equals the material cost.
 */
module Costing {
  import opened Models
  import opened ArenaModel
  import opened Arenas
  import opened Traversals
  import opened Repository
  import opened Seqs

  /** One entry of a cost-driver analysis. */
  datatype CostDriver = CostDriver(componentId: ComponentId, cost: real, percentage: real)

  // ---------------------------------------------------------------------
  // The fetched component data

  /** The ids of all arena nodes, in node order. */
  function NodeIds(d: ArenaData): (ids: seq<ComponentId>)
    ensures |ids| == |d.nodes| && forall i :: 0 <= i < |d.nodes| ==> ids[i] == d.nodes[i].componentId
  {
    seq(|d.nodes|, i requires 0 <= i < |d.nodes| => d.nodes[i].componentId)
  }

  /** `component_data`: each fetched component under its own id, a later one replacing an earlier. */
  function ComponentData(cs: seq<Component>): (m: map<ComponentId, Component>)
    ensures m.Keys == set i | 0 <= i < |cs| :: cs[i].id
    ensures forall cid :: cid in m ==> m[cid] in cs && m[cid].id == cid
  {
    if cs == [] then map[]
    else
      var init := cs[..|cs| - 1];
      var last := cs[|cs| - 1];
      assert forall i :: 0 <= i < |init| ==> init[i] == cs[i];
      ComponentData(init)[last.id := last]
  }

  /** Every arena node's id is stored in the repository. */
  ghost predicate AllStored(d: ArenaData, components: map<ComponentId, Component>)
  {
    forall v :: 0 <= v < |d.nodes| ==> d.nodes[v].componentId in components
  }

  /** The data the calculator works from once every node's component was fetched. */
  function Fetched(d: ArenaData, components: map<ComponentId, Component>): map<ComponentId, Component>
    requires AllStored(d, components)
  {
    ComponentData(seq(|d.nodes|, i requires 0 <= i < |d.nodes| => components[d.nodes[i].componentId]))
  }

  /** The repository's map stores each component under its own id. */
  ghost predicate KeyedById(components: map<ComponentId, Component>)
  {
    forall cid :: cid in components ==> components[cid].id == cid
  }

  /** With components stored under their ids, the fetched data is the repository's own record of every node. */
  lemma FetchedIsStored(d: ArenaData, components: map<ComponentId, Component>)
    requires AllStored(d, components) && KeyedById(components)
    ensures forall v :: 0 <= v < |d.nodes| ==>
              d.nodes[v].componentId in Fetched(d, components)
              && Fetched(d, components)[d.nodes[v].componentId] == components[d.nodes[v].componentId]
  {
    var cs := seq(|d.nodes|, i requires 0 <= i < |d.nodes| => components[d.nodes[i].componentId]);
    var m := Fetched(d, components);
    forall v | 0 <= v < |d.nodes|
      ensures d.nodes[v].componentId in m && m[d.nodes[v].componentId] == components[d.nodes[v].componentId]
    {
      var cid := d.nodes[v].componentId;
      assert cs[v].id == cid;
      var i :| 0 <= i < |cs| && cs[i] == m[cid];
      assert d.nodes[i].componentId == cid;
    }
  }

  // ---------------------------------------------------------------------
  // The cost recurrence

  /** A node's own cost: its standard cost, 0 when it has none or its component was not fetched. */
  function OwnCost(data: map<ComponentId, Component>, cid: ComponentId): real
  {
    if cid in data then data[cid].standardCost.GetOr(0.0) else 0.0
  }

  /** The breakdown the calculator records: all of the cost is material cost. */
  function MaterialBreakdown(cid: ComponentId, cost: real): (b: CostBreakdown)
    ensures b.componentId == cid && b.totalCost == cost && Sum(b) == b.totalCost
    ensures b.materialCost == b.totalCost && b.laborCost == 0.0 && b.overheadCost == 0.0 && b.subcontractCost == 0.0
  {
    CostBreakdown(cid, cost, 0.0, 0.0, 0.0, cost)
  }

  /** The unit cost of node `v`: own cost plus every costed child's cost times the edge's effective quantity. */
  ghost function NodeCost(d: ArenaData, data: map<ComponentId, Component>, v: nat): real
    requires WellFormed(d) && Acyclic(d) && v < |d.nodes|
    decreases |Desc(d, v)|, 1
  {
    assert OutgoingOk(d, v);
    OwnCost(data, d.nodes[v].componentId) + ChildCost(d, data, v, d.nodes[v].outgoing)
  }

  /** The children's share of `v`'s cost over the edges `out` leaving `v`. */
  ghost function ChildCost(d: ArenaData, data: map<ComponentId, Component>, v: nat, out: seq<nat>): real
    requires WellFormed(d) && Acyclic(d) && v < |d.nodes|
    requires forall k :: 0 <= k < |out| ==> out[k] < |d.edges| && d.edges[out[k]].source == v
    decreases |Desc(d, v)|, 0, |out|
  {
    if out == [] then 0.0
    else
      var e := out[0];
      var c := d.edges[e].target;
      (if d.nodes[c].componentId in data then
         DescShrinks(d, e);
         NodeCost(d, data, c) * d.edges[e].effectiveQuantity
       else 0.0)
      + ChildCost(d, data, v, out[1..])
  }

  /** With non-negative standard costs and effective quantities, every cost is non-negative. */
  lemma {:induction false} NodeCostNonNegative(d: ArenaData, data: map<ComponentId, Component>, v: nat)
    requires WellFormed(d) && Acyclic(d) && v < |d.nodes|
    requires forall cid :: cid in data && data[cid].standardCost.Some? ==> data[cid].standardCost.value >= 0.0
    requires forall e :: 0 <= e < |d.edges| ==> d.edges[e].effectiveQuantity >= 0.0
    ensures NodeCost(d, data, v) >= 0.0
    decreases |Desc(d, v)|, 1
  {
    assert OutgoingOk(d, v);
    ChildCostNonNegative(d, data, v, d.nodes[v].outgoing);
  }

  lemma {:induction false} ChildCostNonNegative(d: ArenaData, data: map<ComponentId, Component>, v: nat, out: seq<nat>)
    requires WellFormed(d) && Acyclic(d) && v < |d.nodes|
    requires forall k :: 0 <= k < |out| ==> out[k] < |d.edges| && d.edges[out[k]].source == v
    requires forall cid :: cid in data && data[cid].standardCost.Some? ==> data[cid].standardCost.value >= 0.0
    requires forall e :: 0 <= e < |d.edges| ==> d.edges[e].effectiveQuantity >= 0.0
    ensures ChildCost(d, data, v, out) >= 0.0
    decreases |Desc(d, v)|, 0, |out|
  {
    if out != [] {
      var e := out[0];
      var c := d.edges[e].target;
      if d.nodes[c].componentId in data {
        DescShrinks(d, e);
        NodeCostNonNegative(d, data, c);
      }
      ChildCostNonNegative(d, data, v, out[1..]);
    }
  }

  // ---------------------------------------------------------------------
  // Filling the cost map level by level

  /** `children_cost`: the children's recorded totals times the edges' effective quantities; unrecorded ones count 0. */
  function ChildrenCost(d: ArenaData, costMap: map<ComponentId, CostBreakdown>, out: seq<nat>): real
    requires forall k :: 0 <= k < |out| ==> out[k] < |d.edges| && d.edges[out[k]].target < |d.nodes|
  {
    if out == [] then 0.0
    else
      var e := out[0];
      var cid := d.nodes[d.edges[e].target].componentId;
      (if cid in costMap then costMap[cid].totalCost * d.edges[e].effectiveQuantity else 0.0)
      + ChildrenCost(d, costMap, out[1..])
  }

  /** The cost map once every level below `g` is done: the costed nodes of those levels, each with its cost. */
  ghost predicate CostsBelow(d: ArenaData, index: map<ComponentId, nat>, data: map<ComponentId, Component>,
                             roots: seq<nat>, g: nat, costMap: map<ComponentId, CostBreakdown>)
    requires WellFormed(d) && Acyclic(d) && IndexConsistent(d.nodes, index)
  {
    && (forall v: nat :: v < |d.nodes| && InClosure(d, roots, v) && Height(d, v) < g ==>
          (d.nodes[v].componentId in costMap <==> d.nodes[v].componentId in data))
    && (forall cid :: cid in costMap ==>
          && cid in index && InClosure(d, roots, index[cid]) && Height(d, index[cid]) < g
          && costMap[cid] == MaterialBreakdown(cid, NodeCost(d, data, index[cid])))
  }

  /** Once the lower levels are recorded, a node of level `g` sums exactly the children's share of its cost. */
  lemma {:induction false} ChildrenCostAgrees(d: ArenaData, index: map<ComponentId, nat>, data: map<ComponentId, Component>,
                                              roots: seq<nat>, g: nat, costMap: map<ComponentId, CostBreakdown>,
                                              v: nat, out: seq<nat>)
    requires WellFormed(d) && Acyclic(d) && IndexConsistent(d.nodes, index)
    requires CostsBelow(d, index, data, roots, g, costMap)
    requires v < |d.nodes| && InClosure(d, roots, v) && Height(d, v) == g
    requires forall k :: 0 <= k < |out| ==> out[k] < |d.edges| && d.edges[out[k]].source == v
    ensures ChildrenCost(d, costMap, out) == ChildCost(d, data, v, out)
  {
    if out != [] {
      var e := out[0];
      var c := d.edges[e].target;
      EdgeReaches(d, e);
      ChildInClosure(d, roots, v, c);
      HeightDecreasesAlongEdge(d, e);
      var cid := d.nodes[c].componentId;
      assert cid in costMap <==> cid in data;
      if cid in costMap {
        assert index[cid] == c;
      }
      ChildrenCostAgrees(d, index, data, roots, g, costMap, v, out[1..]);
    }
  }

  /** The costs computed for the first `k` nodes of level `g`. */
  ghost predicate LevelCosts(d: ArenaData, index: map<ComponentId, nat>, data: map<ComponentId, Component>,
                             roots: seq<nat>, g: nat, group: seq<nat>, k: nat, lc: map<ComponentId, CostBreakdown>)
    requires WellFormed(d) && Acyclic(d) && IndexConsistent(d.nodes, index) && k <= |group|
    requires forall j :: 0 <= j < |group| ==> group[j] < |d.nodes|
  {
    && (forall j :: 0 <= j < k ==> (d.nodes[group[j]].componentId in lc <==> d.nodes[group[j]].componentId in data))
    && (forall cid :: cid in lc ==>
          && cid in data && cid in index && InClosure(d, roots, index[cid]) && Height(d, index[cid]) == g
          && lc[cid] == MaterialBreakdown(cid, NodeCost(d, data, index[cid])))
  }

  /**
   * `level_grouping` of `roots` in an acyclic arena: bucket `g` holds
   * exactly the nodes of the closure whose height is `g`.
   */
  ghost predicate LevelsOf(d: ArenaData, roots: seq<nat>, levels: seq<seq<nat>>)
    requires WellFormed(d) && Acyclic(d)
  {
    && (forall g, j :: 0 <= g < |levels| && 0 <= j < |levels[g]| ==>
          levels[g][j] < |d.nodes| && InClosure(d, roots, levels[g][j]) && Height(d, levels[g][j]) == g)
    && (forall v: nat :: v < |d.nodes| && InClosure(d, roots, v) ==> Height(d, v) < |levels| && v in levels[Height(d, v)])
  }

  lemma LevelsOfGrouping(d: ArenaData, roots: seq<nat>, levels: seq<seq<nat>>)
    requires WellFormed(d) && Acyclic(d)
    requires forall g :: 0 <= g < |levels| ==> forall v :: v in levels[g] ==> v < |d.nodes| && InClosure(d, roots, v)
    requires forall g :: 0 <= g < |levels| ==> forall v :: v in levels[g] ==> v < |d.nodes| && Height(d, v) == g
    requires forall v: nat :: v < |d.nodes| && InClosure(d, roots, v) ==> Height(d, v) < |levels| && v in levels[Height(d, v)]
    ensures LevelsOf(d, roots, levels)
  {
    forall g, j | 0 <= g < |levels| && 0 <= j < |levels[g]|
      ensures levels[g][j] < |d.nodes| && InClosure(d, roots, levels[g][j]) && Height(d, levels[g][j]) == g
    {
      assert levels[g][j] in levels[g];
    }
  }

  /** The cost `own + children` of node `v` is its unit cost once the lower levels are recorded. */
  lemma NodeCostFromMap(d: ArenaData, index: map<ComponentId, nat>, data: map<ComponentId, Component>,
                        roots: seq<nat>, g: nat, costMap: map<ComponentId, CostBreakdown>, v: nat)
    requires WellFormed(d) && Acyclic(d) && IndexConsistent(d.nodes, index)
    requires CostsBelow(d, index, data, roots, g, costMap)
    requires v < |d.nodes| && InClosure(d, roots, v) && Height(d, v) == g
    ensures OutgoingOk(d, v)
    ensures OwnCost(data, d.nodes[v].componentId) + ChildrenCost(d, costMap, d.nodes[v].outgoing) == NodeCost(d, data, v)
  {
    assert OutgoingOk(d, v);
    ChildrenCostAgrees(d, index, data, roots, g, costMap, v, d.nodes[v].outgoing);
  }

  /** Recording the `k`-th member of the level, when its component was fetched. */
  lemma LevelCostStep(d: ArenaData, index: map<ComponentId, nat>, data: map<ComponentId, Component>,
                      roots: seq<nat>, g: nat, group: seq<nat>, k: nat, lc: map<ComponentId, CostBreakdown>)
    requires WellFormed(d) && Acyclic(d) && IndexConsistent(d.nodes, index) && k < |group|
    requires forall j :: 0 <= j < |group| ==> group[j] < |d.nodes| && InClosure(d, roots, group[j]) && Height(d, group[j]) == g
    requires LevelCosts(d, index, data, roots, g, group, k, lc)
    ensures var cid := d.nodes[group[k]].componentId;
            LevelCosts(d, index, data, roots, g, group, k + 1,
                       if cid in data then lc[cid := MaterialBreakdown(cid, NodeCost(d, data, group[k]))] else lc)
  {
    var v := group[k];
    var cid := d.nodes[v].componentId;
    assert index[cid] == v;
    var lc2 := if cid in data then lc[cid := MaterialBreakdown(cid, NodeCost(d, data, v))] else lc;
    forall j | 0 <= j < k + 1
      ensures d.nodes[group[j]].componentId in lc2 <==> d.nodes[group[j]].componentId in data
    {
      var x := d.nodes[group[j]].componentId;
      if x != cid {
        assert j < k;
        assert x in lc <==> x in data;
        assert x in lc2 <==> x in lc;
      }
    }
    forall c | c in lc2
      ensures && c in data && c in index && InClosure(d, roots, index[c]) && Height(d, index[c]) == g
              && lc2[c] == MaterialBreakdown(c, NodeCost(d, data, index[c]))
    {
      if c != cid || cid !in data {
        assert c in lc;
      }
    }
  }

  /** One level's parallel map: the cost of every member whose component was fetched, read against the map so far. */
  method CostLevel(d: ArenaData, index: map<ComponentId, nat>, data: map<ComponentId, Component>,
                   roots: seq<nat>, g: nat, group: seq<nat>, costMap: map<ComponentId, CostBreakdown>)
    returns (lc: map<ComponentId, CostBreakdown>)
    requires WellFormed(d) && Acyclic(d) && IndexConsistent(d.nodes, index)
    requires CostsBelow(d, index, data, roots, g, costMap)
    requires forall j :: 0 <= j < |group| ==> group[j] < |d.nodes| && InClosure(d, roots, group[j]) && Height(d, group[j]) == g
    ensures LevelCosts(d, index, data, roots, g, group, |group|, lc)
  {
    lc := map[];
    for k := 0 to |group|
      invariant LevelCosts(d, index, data, roots, g, group, k, lc)
    {
      var v := group[k];
      var cid := d.nodes[v].componentId;
      LevelCostStep(d, index, data, roots, g, group, k, lc);
      if cid in data {
        NodeCostFromMap(d, index, data, roots, g, costMap, v);
        var own := data[cid].standardCost.GetOr(0.0);
        var children := ChildrenCost(d, costMap, d.nodes[v].outgoing);
        lc := lc[cid := MaterialBreakdown(cid, own + children)];
      }
    }
  }

  /** `cost_map.extend(level_costs)` completes level `g`. */
  lemma MergeLevel(d: ArenaData, index: map<ComponentId, nat>, data: map<ComponentId, Component>,
                   roots: seq<nat>, g: nat, group: seq<nat>, costMap: map<ComponentId, CostBreakdown>,
                   lc: map<ComponentId, CostBreakdown>)
    requires WellFormed(d) && Acyclic(d) && IndexConsistent(d.nodes, index)
    requires CostsBelow(d, index, data, roots, g, costMap)
    requires forall j :: 0 <= j < |group| ==> group[j] < |d.nodes|
    requires forall v: nat :: v < |d.nodes| && InClosure(d, roots, v) && Height(d, v) == g ==> v in group
    requires LevelCosts(d, index, data, roots, g, group, |group|, lc)
    ensures CostsBelow(d, index, data, roots, g + 1, costMap + lc)
  {
    var m := costMap + lc;
    forall v: nat | v < |d.nodes| && InClosure(d, roots, v) && Height(d, v) < g + 1
      ensures d.nodes[v].componentId in m <==> d.nodes[v].componentId in data
    {
      var cid := d.nodes[v].componentId;
      assert index[cid] == v;
      if Height(d, v) == g {
        var j :| 0 <= j < |group| && group[j] == v;
      }
    }
  }

  /** After the last level the map holds every costed node of the closure. */
  lemma AllLevelsCosted(d: ArenaData, index: map<ComponentId, nat>, data: map<ComponentId, Component>,
                        roots: seq<nat>, levels: seq<seq<nat>>, costMap: map<ComponentId, CostBreakdown>)
    requires WellFormed(d) && Acyclic(d) && IndexConsistent(d.nodes, index)
    requires LevelsOf(d, roots, levels) && CostsBelow(d, index, data, roots, |levels|, costMap)
    ensures forall v: nat :: v < |d.nodes| && InClosure(d, roots, v) ==>
              (d.nodes[v].componentId in costMap <==> d.nodes[v].componentId in data)
  {
  }

  /**
   * `calculate_all_costs`: fetches every arena node's component, failing
   * with the first missing id, then records, for every node in the closure
   * of `roots` whose component was fetched, its unit cost.
   */
  method CalculateAllCosts(d: ArenaData, index: map<ComponentId, nat>, components: map<ComponentId, Component>,
                           roots: seq<nat>)
    returns (r: Result<map<ComponentId, CostBreakdown>>)
    requires WellFormed(d) && Acyclic(d) && IndexConsistent(d.nodes, index)
    ensures r.Ok? <==> AllStored(d, components)
    ensures r.Err? ==> exists v :: 0 <= v < |d.nodes| && d.nodes[v].componentId !in components
                                  && r.error == ComponentNotFound(d.nodes[v].componentId)
    ensures r.Ok? ==> forall v: nat :: v < |d.nodes| && InClosure(d, roots, v) ==>
              (d.nodes[v].componentId in r.value <==> d.nodes[v].componentId in Fetched(d, components))
    ensures r.Ok? ==> forall cid :: cid in r.value ==>
              && cid in index && InClosure(d, roots, index[cid])
              && r.value[cid] == MaterialBreakdown(cid, NodeCost(d, Fetched(d, components), index[cid]))
  {
    var ids := NodeIds(d);
    var fetched := LookupAll(components, ids);
    if fetched.Err? {
      return Err(fetched.error);
    }
    assert fetched.value == seq(|d.nodes|, i requires 0 <= i < |d.nodes| => components[d.nodes[i].componentId]);
    var data := ComponentData(fetched.value);
    var levels := LevelGrouping(d, roots);
    LevelsOfGrouping(d, roots, levels);
    var costMap: map<ComponentId, CostBreakdown> := map[];
    for g := 0 to |levels|
      invariant CostsBelow(d, index, data, roots, g, costMap)
    {
      var levelCosts := CostLevel(d, index, data, roots, g, levels[g], costMap);
      MergeLevel(d, index, data, roots, g, levels[g], costMap, levelCosts);
      costMap := costMap + levelCosts;
    }
    AllLevelsCosted(d, index, data, roots, levels, costMap);
    r := Ok(costMap);
  }

  // ---------------------------------------------------------------------
  // Single costs, roll-up and drivers

  /** No node holds a cached material cost: nothing in the arena ever writes one. */
  ghost predicate NoCachedCosts(d: ArenaData)
  {
    forall v :: 0 <= v < |d.nodes| ==> d.nodes[v].cache.totalMaterialCost.None?
  }

  /**
   * `calculate_cost`: a clean node with a cached material cost answers from
   * the cache; otherwise the node's cost is recomputed from its own closure,
   * failing when its component was not fetched.
   */
  method CalculateCost(d: ArenaData, index: map<ComponentId, nat>, components: map<ComponentId, Component>,
                       id: ComponentId)
    returns (r: Result<CostBreakdown>)
    requires WellFormed(d) && Acyclic(d) && IndexConsistent(d.nodes, index)
    ensures id !in index ==> r == Err(ComponentNotFound(id))
    ensures id in index && !d.nodes[index[id]].dirty && d.nodes[index[id]].cache.totalMaterialCost.Some? ==>
              r == Ok(MaterialBreakdown(id, d.nodes[index[id]].cache.totalMaterialCost.value))
    ensures id in index && NoCachedCosts(d) && !AllStored(d, components) ==>
              r.Err? && r.error.ComponentNotFound?
    ensures id in index && NoCachedCosts(d) && AllStored(d, components) ==>
              if id in Fetched(d, components) then r == Ok(MaterialBreakdown(id, NodeCost(d, Fetched(d, components), index[id])))
              else r == Err(CalculationError("Cost not found"))
  {
    if id !in index {
      return Err(ComponentNotFound(id));
    }
    var node := index[id];
    if !d.nodes[node].dirty && d.nodes[node].cache.totalMaterialCost.Some? {
      var cached := d.nodes[node].cache.totalMaterialCost.value;
      return Ok(MaterialBreakdown(id, cached));
    }
    var costs := CalculateAllCosts(d, index, components, [node]);
    if costs.Err? {
      return Err(costs.error);
    }
    assert InClosure(d, [node], node);
    if id in costs.value {
      r := Ok(costs.value[id]);
    } else {
      r := Err(CalculationError("Cost not found"));
    }
  }

  /**
   * `calculate_rollup`: the cost of `q` units is the unit cost times `q`,
   * with every outcome of `calculate_cost` passed through: the cached cost of
   * a clean node, and each of its errors unchanged.
   */
  method CalculateRollup(d: ArenaData, index: map<ComponentId, nat>, components: map<ComponentId, Component>,
                         id: ComponentId, q: real)
    returns (r: Result<real>)
    requires WellFormed(d) && Acyclic(d) && IndexConsistent(d.nodes, index)
    ensures id !in index ==> r == Err(ComponentNotFound(id))
    ensures id in index && !d.nodes[index[id]].dirty && d.nodes[index[id]].cache.totalMaterialCost.Some? ==>
              r.Ok? && r.value == d.nodes[index[id]].cache.totalMaterialCost.value * q
    ensures id in index && NoCachedCosts(d) && !AllStored(d, components) ==>
              r.Err? && r.error.ComponentNotFound?
    ensures id in index && NoCachedCosts(d) && AllStored(d, components) ==>
              if id in Fetched(d, components) then r.Ok? && r.value == NodeCost(d, Fetched(d, components), index[id]) * q
              else r == Err(CalculationError("Cost not found"))
  {
    var cost := CalculateCost(d, index, components, id);
    if cost.Err? {
      assert id in index && NoCachedCosts(d) ==> d.nodes[index[id]].cache.totalMaterialCost.None?;
      return Err(cost.error);
    }
    r := Ok(cost.value.totalCost * q);
    if id in index {
      var node := d.nodes[index[id]];
      if !node.dirty && node.cache.totalMaterialCost.Some? {
        ScaledCost(cost.value.totalCost, node.cache.totalMaterialCost.value, q);
      } else if NoCachedCosts(d) && AllStored(d, components) && id in Fetched(d, components) {
        ScaledCost(cost.value.totalCost, NodeCost(d, Fetched(d, components), index[id]), q);
      }
    }
  }

  /** Equal unit costs give equal costs for `q` units. */
  lemma ScaledCost(unit: real, expected: real, q: real)
    requires unit == expected
    ensures unit * q == expected * q
  {
  }

  /** A driver's share of the root's cost, in percent; 0 when the root costs nothing or less. */
  function Percentage(cost: real, total: real): (p: real)
    ensures total > 0.0 ==> p * total == cost * 100.0
    ensures total <= 0.0 ==> p == 0.0
  {
    if total > 0.0 then (cost / total) * 100.0 else 0.0
  }

  /** The driver for the recorded breakdown of `cid`. */
  function DriverOf(cid: ComponentId, breakdown: CostBreakdown, total: real): CostDriver
  {
    CostDriver(cid, breakdown.totalCost, Percentage(breakdown.totalCost, total))
  }

  /** Every driver so far is an entry of the cost map other than the root's, with distinct ids. */
  ghost predicate DriversFrom(costMap: map<ComponentId, CostBreakdown>, root: ComponentId, total: real,
                              drivers: seq<CostDriver>)
  {
    && (forall k :: 0 <= k < |drivers| ==>
          && drivers[k].componentId in costMap && drivers[k].componentId != root
          && drivers[k] == DriverOf(drivers[k].componentId, costMap[drivers[k].componentId], total))
    && (forall i, j :: 0 <= i < j < |drivers| ==> drivers[i].componentId != drivers[j].componentId)
  }

  /** Every entry of `done` other than the root's has a driver. */
  ghost predicate DriversCover(drivers: seq<CostDriver>, done: set<ComponentId>, root: ComponentId)
  {
    forall cid :: cid in done && cid != root ==> exists k :: 0 <= k < |drivers| && drivers[k].componentId == cid
  }

  lemma AppendDriver(costMap: map<ComponentId, CostBreakdown>, root: ComponentId, total: real,
                     drivers: seq<CostDriver>, done: set<ComponentId>, cid: ComponentId)
    requires DriversFrom(costMap, root, total, drivers) && DriversCover(drivers, done, root)
    requires forall k :: 0 <= k < |drivers| ==> drivers[k].componentId != cid
    requires cid in costMap && cid != root
    ensures DriversFrom(costMap, root, total, drivers + [DriverOf(cid, costMap[cid], total)])
    ensures DriversCover(drivers + [DriverOf(cid, costMap[cid], total)], done + {cid}, root)
  {
    var s := drivers + [DriverOf(cid, costMap[cid], total)];
    assert s[|drivers|].componentId == cid;
    forall c | c in done + {cid} && c != root ensures exists k :: 0 <= k < |s| && s[k].componentId == c {
      if c != cid {
        var k :| 0 <= k < |drivers| && drivers[k].componentId == c;
        assert s[k] == drivers[k];
      }
    }
  }

  lemma TakeKey(all: set<ComponentId>, rest: set<ComponentId>, cid: ComponentId)
    requires rest <= all && cid in rest
    ensures all - (rest - {cid}) == (all - rest) + {cid}
    ensures |rest - {cid}| < |rest|
  {
  }

  /** The drivers of every cost-map entry except the root's, in the map's iteration order. */
  method CollectDrivers(costMap: map<ComponentId, CostBreakdown>, root: ComponentId, total: real)
    returns (drivers: seq<CostDriver>)
    ensures DriversFrom(costMap, root, total, drivers)
    ensures DriversCover(drivers, costMap.Keys, root)
  {
    drivers := [];
    var rest := costMap.Keys;
    while rest != {}
      invariant rest <= costMap.Keys
      invariant DriversFrom(costMap, root, total, drivers) && DriversCover(drivers, costMap.Keys - rest, root)
      invariant forall k :: 0 <= k < |drivers| ==> drivers[k].componentId !in rest
      decreases |rest|
    {
      var cid :| cid in rest;
      if cid != root {
        AppendDriver(costMap, root, total, drivers, costMap.Keys - rest, cid);
        drivers := drivers + [DriverOf(cid, costMap[cid], total)];
      }
      TakeKey(costMap.Keys, rest, cid);
      rest := rest - {cid};
    }
    assert costMap.Keys - rest == costMap.Keys;
  }

  /** `sort_by(|a, b| b.cost.cmp(&a.cost))`: non-increasing cost, each driver kept once. */
  method SortDrivers(costMap: map<ComponentId, CostBreakdown>, root: ComponentId, total: real,
                     drivers: seq<CostDriver>, ghost keys: set<ComponentId>)
    returns (sorted: seq<CostDriver>)
    requires DriversFrom(costMap, root, total, drivers) && DriversCover(drivers, keys, root)
    ensures DriversFrom(costMap, root, total, sorted) && DriversCover(sorted, keys, root)
    ensures forall i, j :: 0 <= i < j < |sorted| ==> sorted[i].cost >= sorted[j].cost
  {
    sorted := SortByKey(drivers, (dr: CostDriver) => -dr.cost);
    forall k | 0 <= k < |sorted| ensures sorted[k] in drivers {
      assert sorted[k] in multiset(sorted);
    }
    forall cid | cid in keys && cid != root ensures exists k :: 0 <= k < |sorted| && sorted[k].componentId == cid {
      var k :| 0 <= k < |drivers| && drivers[k].componentId == cid;
      assert drivers[k] in multiset(drivers);
      var j :| 0 <= j < |sorted| && sorted[j] == drivers[k];
    }
    assert Distinct(drivers);
    forall i, j | 0 <= i < j < |sorted| ensures sorted[i].componentId != sorted[j].componentId {
      var a :| 0 <= a < |drivers| && drivers[a] == sorted[i];
      var b :| 0 <= b < |drivers| && drivers[b] == sorted[j];
    }
  }

  /**
   * `analyze_cost_drivers`: every node below the root whose cost is
   * recorded, once, with its unit cost and its share of the root's cost,
   * ranked by non-increasing unit cost.
   */
  method AnalyzeCostDrivers(d: ArenaData, index: map<ComponentId, nat>, components: map<ComponentId, Component>,
                            id: ComponentId)
    returns (r: Result<seq<CostDriver>>)
    requires WellFormed(d) && Acyclic(d) && IndexConsistent(d.nodes, index)
    ensures id !in index ==> r == Err(ComponentNotFound(id))
    ensures id in index ==> (r.Ok? <==> AllStored(d, components))
    ensures r.Ok? ==> id in index && AllStored(d, components)
    ensures r.Ok? ==>
              var data := Fetched(d, components);
              var total := if id in data then NodeCost(d, data, index[id]) else 0.0;
              && (forall k :: 0 <= k < |r.value| ==>
                    var cid := r.value[k].componentId;
                    && cid != id && cid in index && Reaches(d, index[id], index[cid]) && cid in data
                    && r.value[k].cost == NodeCost(d, data, index[cid])
                    && r.value[k].percentage == Percentage(r.value[k].cost, total))
              && (forall v: nat :: v < |d.nodes| && v != index[id] && Reaches(d, index[id], v) && d.nodes[v].componentId in data ==>
                    exists k :: 0 <= k < |r.value| && r.value[k].componentId == d.nodes[v].componentId)
              && (forall i, j :: 0 <= i < j < |r.value| ==> r.value[i].componentId != r.value[j].componentId)
              && (forall i, j :: 0 <= i < j < |r.value| ==> r.value[i].cost >= r.value[j].cost)
  {
    if id !in index {
      return Err(ComponentNotFound(id));
    }
    var node := index[id];
    var costs := CalculateAllCosts(d, index, components, [node]);
    if costs.Err? {
      return Err(costs.error);
    }
    var costMap := costs.value;
    ghost var data := Fetched(d, components);
    assert InClosure(d, [node], node);
    var total := if id in costMap then costMap[id].totalCost else 0.0;
    var drivers := CollectDrivers(costMap, id, total);
    var sorted := SortDrivers(costMap, id, total, drivers, costMap.Keys);
    forall k | 0 <= k < |sorted| ensures Reaches(d, node, index[sorted[k].componentId]) {
      ClosureOfRoot(d, node, index[sorted[k].componentId]);
    }
    forall v: nat | v < |d.nodes| && v != node && Reaches(d, node, v) && d.nodes[v].componentId in data
      ensures d.nodes[v].componentId in costMap.Keys && d.nodes[v].componentId != id
    {
      ClosureOfRoot(d, node, v);
    }
    r := Ok(sorted);
  }

  // ---------------------------------------------------------------------
  // The worked example: A (100) -> B (50, x2) -> D (10, x3), A -> C (30, x1)

  ghost predicate IsCostExample(d: ArenaData, data: map<ComponentId, Component>)
  {
    && WellFormed(d) && |d.nodes| == 4 && |d.edges| == 3
    && d.edges[0].source == 0 && d.edges[0].target == 1 && d.edges[0].effectiveQuantity == 2.0
    && d.edges[1].source == 0 && d.edges[1].target == 2 && d.edges[1].effectiveQuantity == 1.0
    && d.edges[2].source == 1 && d.edges[2].target == 3 && d.edges[2].effectiveQuantity == 3.0
    && d.nodes[0].outgoing == [0, 1] && d.nodes[1].outgoing == [2]
    && d.nodes[2].outgoing == [] && d.nodes[3].outgoing == []
    && (forall v :: 0 <= v < 4 ==> d.nodes[v].componentId in data)
    && OwnCost(data, d.nodes[0].componentId) == 100.0 && OwnCost(data, d.nodes[1].componentId) == 50.0
    && OwnCost(data, d.nodes[2].componentId) == 30.0 && OwnCost(data, d.nodes[3].componentId) == 10.0
  }

  /** B costs 50 + 10 * 3 = 80 and A costs 100 + 80 * 2 + 30 * 1 = 290. */
  lemma CostExample(d: ArenaData, data: map<ComponentId, Component>)
    requires IsCostExample(d, data)
    ensures Acyclic(d)
    ensures NodeCost(d, data, 3) == 10.0 && NodeCost(d, data, 2) == 30.0
    ensures NodeCost(d, data, 1) == 80.0 && NodeCost(d, data, 0) == 290.0
  {
    IndexOrderedIsAcyclic(d);
    assert NodeCost(d, data, 3) == 10.0;
    assert NodeCost(d, data, 2) == 30.0;
    assert ChildCost(d, data, 1, [2]) == 30.0 by {
      assert [2][1..] == [];
    }
    assert NodeCost(d, data, 1) == 80.0;
    assert ChildCost(d, data, 0, [1]) == 30.0 by {
      assert [1][1..] == [];
    }
    assert ChildCost(d, data, 0, [0, 1]) == 190.0 by {
      assert [0, 1][1..] == [1];
    }
  }
}
