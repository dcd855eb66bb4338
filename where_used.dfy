/**
 * The where-used analyzer: the reverse queries over the arena. Given a
 * component it lists the assemblies that use it directly (with every path
 * from a root down to each of them), the roots that contain it and every
 * assembly a change to it affects; given a list of assemblies it lists the
 * components two or more of them contain.
 */
module WhereUsed {
  import opened Models
  import opened ArenaModel
  import opened Arenas
  import opened Cycles
  import opened Traversals
  import opened Seqs

  /** What changing one component touches. */
  datatype ImpactAnalysis = ImpactAnalysis(
    changedComponent: ComponentId,
    affectedComponents: seq<ComponentId>,
    affectedRootAssemblies: seq<ComponentId>)

  /** A component found below more than one of the given assemblies. */
  datatype SharedComponent = SharedComponent(
    componentId: ComponentId,
    usedInAssemblies: seq<ComponentId>,
    usedInCount: nat)

  // ---------------------------------------------------------------------
  // Simple paths and plain paths

  /** A simple path that starts at a stored node visits stored nodes only. */
  lemma SimplePathIsPath(d: ArenaData, p: seq<nat>, s: nat, t: nat)
    requires WellFormed(d) && IsSimplePath(d, p, s, t) && s < |d.nodes|
    ensures IsPathFromTo(d, p, s, t)
  {
    forall i | 0 <= i < |p| ensures p[i] < |d.nodes| {
      if i > 0 {
        IsEdgeInRange(d, p[i - 1], p[i]);
      }
    }
  }

  /** Cutting out the loop between two visits of one node leaves a path with the same ends. */
  lemma CutLoop(d: ArenaData, p: seq<nat>, s: nat, t: nat, i: nat, j: nat)
    requires IsPathFromTo(d, p, s, t) && i < j < |p| && p[i] == p[j]
    ensures IsPathFromTo(d, p[..i] + p[j..], s, t)
  {
    var q := p[..i] + p[j..];
    assert forall k :: 0 <= k < i ==> q[k] == p[k];
    assert forall k :: i <= k < |q| ==> q[k] == p[k - i + j];
    forall k | 0 <= k < |q| - 1 ensures IsEdge(d, q[k], q[k + 1]) {
      if k < i - 1 {
        assert IsEdge(d, p[k], p[k + 1]);
      } else if k == i - 1 {
        assert IsEdge(d, p[i - 1], p[i]);
      } else {
        assert IsEdge(d, p[k - i + j], p[k - i + j + 1]);
      }
    }
  }

  /** Whatever is reachable is reachable along a path without repeated nodes. */
  lemma {:induction false} ShortenPath(d: ArenaData, p: seq<nat>, s: nat, t: nat)
    requires IsPathFromTo(d, p, s, t)
    ensures exists q :: IsSimplePath(d, q, s, t)
    decreases |p|
  {
    if NoDuplicates(p) {
      assert IsSimplePath(d, p, s, t);
    } else {
      var i, j :| 0 <= i < j < |p| && p[i] == p[j];
      CutLoop(d, p, s, t, i, j);
      ShortenPath(d, p[..i] + p[j..], s, t);
    }
  }

  /** From a stored node, `find_all_paths` finds a path exactly when the target is reachable. */
  lemma ReachesIffSimplePath(d: ArenaData, s: nat, t: nat)
    requires WellFormed(d) && s < |d.nodes|
    ensures Reaches(d, s, t) <==> exists p :: IsSimplePath(d, p, s, t)
  {
    if Reaches(d, s, t) {
      var p :| IsPathFromTo(d, p, s, t);
      ShortenPath(d, p, s, t);
    }
    if exists p :: IsSimplePath(d, p, s, t) {
      var p :| IsSimplePath(d, p, s, t);
      SimplePathIsPath(d, p, s, t);
    }
  }

  /** The stretch of a path between two of its positions connects them. */
  lemma SubPathReaches(d: ArenaData, p: seq<nat>, i: nat, j: nat)
    requires IsPath(d, p) && i <= j < |p|
    ensures Reaches(d, p[i], p[j])
  {
    var q := p[i..j + 1];
    assert forall k :: 0 <= k < |q| ==> q[k] == p[i + k];
    assert IsPathFromTo(d, q, p[i], p[j]);
  }

  /** In an acyclic graph no path visits a node twice. */
  lemma DagPathIsSimple(d: ArenaData, p: seq<nat>, s: nat, t: nat)
    requires Acyclic(d) && IsPathFromTo(d, p, s, t)
    ensures IsSimplePath(d, p, s, t)
  {
    forall i, j | 0 <= i < j < |p| ensures p[i] != p[j] {
      assert IsEdge(d, p[i], p[i + 1]);
      var e :| 0 <= e < |d.edges| && d.edges[e].source == p[i] && d.edges[e].target == p[i + 1];
      SubPathReaches(d, p, i + 1, j);
    }
  }

  /** In an acyclic graph the paths `find_all_paths` lists from a stored node are all its paths. */
  lemma SimplePathsInDag(d: ArenaData, s: nat, t: nat)
    requires WellFormed(d) && Acyclic(d) && s < |d.nodes|
    ensures forall p :: IsSimplePath(d, p, s, t) <==> IsPathFromTo(d, p, s, t)
  {
    forall p ensures IsSimplePath(d, p, s, t) <==> IsPathFromTo(d, p, s, t) {
      if IsSimplePath(d, p, s, t) {
        SimplePathIsPath(d, p, s, t);
      }
      if IsPathFromTo(d, p, s, t) {
        DagPathIsSimple(d, p, s, t);
      }
    }
  }

  // ---------------------------------------------------------------------
  // analyze

  /** Every simple path from one of `roots` to `t`, gathered root by root. */
  method PathsFromRoots(d: ArenaData, roots: seq<nat>, t: nat) returns (all: seq<seq<nat>>)
    requires WellFormed(d)
    ensures forall p :: p in all <==> exists j :: 0 <= j < |roots| && IsSimplePath(d, p, roots[j], t)
  {
    all := [];
    for j := 0 to |roots|
      invariant forall p :: p in all <==> exists i :: 0 <= i < j && IsSimplePath(d, p, roots[i], t)
    {
      var paths := FindAllPaths(d, roots[j], t);
      all := all + paths;
    }
  }

  /** The length of the longest path, 1 when there is none. */
  function LongestPath(ps: seq<seq<ComponentId>>): (r: nat)
    ensures ps == [] ==> r == 1
    ensures forall k :: 0 <= k < |ps| ==> |ps[k]| <= r
    ensures ps != [] ==> exists k :: 0 <= k < |ps| && |ps[k]| == r
  {
    if ps == [] then 1
    else if |ps| == 1 then |ps[0]|
    else
      var m := LongestPath(ps[1..]);
      assert forall k :: 1 <= k < |ps| ==> ps[k] == ps[1..][k - 1];
      if |ps[0]| >= m then |ps[0]| else m
  }

  /**
   * The entry for incoming edge `e` of node `n`: the parent's id, the edge's
   * effective quantity, every root-to-parent path as ids, and the longest of
   * those paths' lengths as level.
   */
  ghost predicate UsedInEdge(d: ArenaData, roots: seq<nat>, n: nat, e: nat, it: WhereUsedItem)
  {
    && e < |d.edges| && d.edges[e].target == n && d.edges[e].source < |d.nodes|
    && it.parentId == d.nodes[d.edges[e].source].componentId
    && it.quantity == EffectiveQuantity(d.edges[e].bomItem)
    && (forall cp :: cp in it.paths <==>
          cp != [] && exists j, p :: 0 <= j < |roots| && IsSimplePath(d, p, roots[j], d.edges[e].source) && cp == IdPath(d, p))
    && (forall cp :: cp in it.paths ==> |cp| <= it.level)
    && (it.paths == [] ==> it.level == 1)
    && (it.paths != [] ==> exists cp :: cp in it.paths && |cp| == it.level)
  }

  method UsedInItem(d: ArenaData, roots: seq<nat>, n: nat, e: nat) returns (it: WhereUsedItem)
    requires WellFormed(d) && e < |d.edges| && d.edges[e].target == n
    ensures UsedInEdge(d, roots, n, e, it)
  {
    var parent := d.edges[e].source;
    assert EdgeLinked(d, e);
    var all := PathsFromRoots(d, roots, parent);
    var paths := IdPaths(d, all);
    var level := LongestPath(paths);
    it := WhereUsedItem(d.nodes[parent].componentId, d.edges[e].effectiveQuantity, level, paths);
  }

  /**
   * `analyze`: one entry per incoming edge of the component, in the order
   * of its incoming list.
   */
  method Analyze(d: ArenaData, index: map<ComponentId, nat>, roots: seq<nat>, id: ComponentId)
    returns (r: Result<WhereUsedResult>)
    requires WellFormed(d) && IndexConsistent(d.nodes, index)
    ensures r.Err? <==> id !in index
    ensures r.Err? ==> r.error == ComponentNotFound(id)
    ensures r.Ok? ==> r.value.component == id && |r.value.usedIn| == |d.nodes[index[id]].incoming|
    ensures r.Ok? ==> forall k :: 0 <= k < |r.value.usedIn| ==>
              UsedInEdge(d, roots, index[id], d.nodes[index[id]].incoming[k], r.value.usedIn[k])
  {
    if id !in index {
      return Err(ComponentNotFound(id));
    }
    var node := index[id];
    var incoming := d.nodes[node].incoming;
    assert IncomingOk(d, node);
    var usedIn: seq<WhereUsedItem> := [];
    for k := 0 to |incoming|
      invariant |usedIn| == k
      invariant forall i :: 0 <= i < k ==> UsedInEdge(d, roots, node, incoming[i], usedIn[i])
    {
      var it := UsedInItem(d, roots, node, incoming[k]);
      usedIn := usedIn + [it];
    }
    r := Ok(WhereUsedResult(id, usedIn));
  }

  /** Every parent of the component has an entry in `analyze`'s result. */
  lemma AnalyzeCoversParents(d: ArenaData, roots: seq<nat>, n: nat, usedIn: seq<WhereUsedItem>, p: nat)
    requires WellFormed(d) && n < |d.nodes| && IsEdge(d, p, n)
    requires |usedIn| == |d.nodes[n].incoming|
    requires forall k :: 0 <= k < |usedIn| ==> UsedInEdge(d, roots, n, d.nodes[n].incoming[k], usedIn[k])
    ensures exists k :: 0 <= k < |usedIn| && usedIn[k].parentId == d.nodes[p].componentId
  {
    var e :| 0 <= e < |d.edges| && d.edges[e].source == p && d.edges[e].target == n;
    assert EdgeLinked(d, e);
    var k :| 0 <= k < |d.nodes[n].incoming| && d.nodes[n].incoming[k] == e;
    assert UsedInEdge(d, roots, n, e, usedIn[k]);
  }

  // ---------------------------------------------------------------------
  // find_root_assemblies

  /** `find_root_assemblies`: the ids of the roots from which the component is reachable. */
  method FindRootAssemblies(d: ArenaData, index: map<ComponentId, nat>, roots: seq<nat>, id: ComponentId)
    returns (r: Result<seq<ComponentId>>)
    requires WellFormed(d) && IndexConsistent(d.nodes, index)
    ensures r.Err? <==> id !in index
    ensures r.Err? ==> r.error == ComponentNotFound(id)
    ensures r.Ok? ==> Distinct(r.value)
    ensures r.Ok? ==> forall cid :: cid in r.value <==>
              exists j :: 0 <= j < |roots| && roots[j] < |d.nodes| && d.nodes[roots[j]].componentId == cid
                          && Reaches(d, roots[j], index[id])
  {
    if id !in index {
      return Err(ComponentNotFound(id));
    }
    var node := index[id];
    var found: set<ComponentId> := {};
    for j := 0 to |roots|
      invariant forall cid :: cid in found <==>
                  exists i :: 0 <= i < j && roots[i] < |d.nodes| && d.nodes[roots[i]].componentId == cid
                              && Reaches(d, roots[i], node)
    {
      var paths := FindAllPaths(d, roots[j], node);
      if paths != [] && roots[j] < |d.nodes| {
        assert paths[0] in paths;
        SimplePathIsPath(d, paths[0], roots[j], node);
        found := found + {d.nodes[roots[j]].componentId};
      } else if roots[j] < |d.nodes| {
        ReachesIffSimplePath(d, roots[j], node);
      }
    }
    var ids := SetToSeq(found);
    r := Ok(ids);
  }

  // ---------------------------------------------------------------------
  // analyze_change_impact

  /** `a` is the parent of some node that reaches `n`: it uses `n`, directly or through others. */
  ghost predicate UsesTransitively(d: ArenaData, a: nat, n: nat)
  {
    exists e :: 0 <= e < |d.edges| && d.edges[e].source == a && Reaches(d, d.edges[e].target, n)
  }

  /** `a` is the parent of some node of `s`. */
  ghost predicate ParentOfSome(d: ArenaData, a: nat, s: set<nat>)
  {
    exists e :: 0 <= e < |d.edges| && d.edges[e].source == a && d.edges[e].target in s
  }

  /** In an acyclic graph the assemblies a change affects are the strict ancestors. */
  lemma UsesTransitivelyInDag(d: ArenaData, a: nat, n: nat)
    requires WellFormed(d) && Acyclic(d)
    ensures UsesTransitively(d, a, n) <==> Reaches(d, a, n) && a != n
  {
    if UsesTransitively(d, a, n) {
      var e :| 0 <= e < |d.edges| && d.edges[e].source == a && Reaches(d, d.edges[e].target, n);
      EdgeReaches(d, e);
      ReachesPrepend(d, a, d.edges[e].target, n);
      assert !Reaches(d, d.edges[e].target, d.edges[e].source);
    }
    if Reaches(d, a, n) && a != n {
      var e := ReachesFirstEdge(d, a, n);
    }
  }

  /**
   * The upward walk's bookkeeping: visited and queued nodes reach the
   * changed node, which is itself visited or queued; every parent of a
   * visited node is visited or queued; and `affected` holds the ids of the
   * parents of visited nodes.
   */
  ghost predicate UpWalk(d: ArenaData, index: map<ComponentId, nat>, node: nat, visited: set<nat>,
                         queue: seq<nat>, affected: set<ComponentId>)
  {
    && (forall v :: v in visited ==> v < |d.nodes| && Reaches(d, v, node))
    && (forall k :: 0 <= k < |queue| ==> queue[k] < |d.nodes| && Reaches(d, queue[k], node))
    && (node in visited || node in queue)
    && (forall e :: 0 <= e < |d.edges| && d.edges[e].target in visited ==>
          d.edges[e].source in visited || d.edges[e].source in queue)
    && (forall cid :: cid in affected <==> cid in index && ParentOfSome(d, index[cid], visited))
  }

  /** The inner loop: record and queue every parent of `current`. */
  method PushParents(d: ArenaData, index: map<ComponentId, nat>, current: nat,
                     affected: set<ComponentId>, queue: seq<nat>)
    returns (affected2: set<ComponentId>, queue2: seq<nat>)
    requires WellFormed(d) && IndexConsistent(d.nodes, index) && current < |d.nodes|
    ensures queue2 == queue + Parents(d, current)
    ensures forall cid :: cid in affected2 <==> cid in affected || (cid in index && IsEdge(d, index[cid], current))
  {
    var ps := Parents(d, current);
    forall i | 0 <= i < |ps| ensures ps[i] < |d.nodes| {
      assert ps[i] in ps;
      IsEdgeInRange(d, ps[i], current);
    }
    affected2, queue2 := affected, queue;
    for k := 0 to |ps|
      invariant queue2 == queue + ps[..k]
      invariant forall cid :: cid in affected2 <==>
                  cid in affected || exists i :: 0 <= i < k && d.nodes[ps[i]].componentId == cid
    {
      if ps[k] < |d.nodes| {
        affected2 := affected2 + {d.nodes[ps[k]].componentId};
        assert ps[..k + 1] == ps[..k] + [ps[k]];
        queue2 := queue2 + [ps[k]];
      }
    }
    assert ps[..|ps|] == ps;
    ParentIdsAreParents(d, index, current, ps);
  }

  /** The ids read off `parents(current)` are exactly the ids of `current`'s parents. */
  lemma ParentIdsAreParents(d: ArenaData, index: map<ComponentId, nat>, current: nat, ps: seq<nat>)
    requires WellFormed(d) && IndexConsistent(d.nodes, index) && current < |d.nodes| && ps == Parents(d, current)
    requires forall i :: 0 <= i < |ps| ==> ps[i] < |d.nodes|
    ensures forall cid :: (exists i :: 0 <= i < |ps| && d.nodes[ps[i]].componentId == cid) <==>
                          (cid in index && IsEdge(d, index[cid], current))
  {
    forall cid ensures (exists i :: 0 <= i < |ps| && d.nodes[ps[i]].componentId == cid) <==>
                       (cid in index && IsEdge(d, index[cid], current))
    {
      if exists i :: 0 <= i < |ps| && d.nodes[ps[i]].componentId == cid {
        var i :| 0 <= i < |ps| && d.nodes[ps[i]].componentId == cid;
        assert ps[i] in ps;
      }
      if cid in index && IsEdge(d, index[cid], current) {
        assert index[cid] in ps;
        var i :| 0 <= i < |ps| && ps[i] == index[cid];
      }
    }
  }

  /** The reachability half of a visiting step. */
  lemma UpStepReach(d: ArenaData, node: nat, rest: seq<nat>, current: nat)
    requires WellFormed(d) && current < |d.nodes| && Reaches(d, current, node)
    requires forall k :: 0 <= k < |rest| ==> rest[k] < |d.nodes| && Reaches(d, rest[k], node)
    ensures var q := rest + Parents(d, current);
            forall k :: 0 <= k < |q| ==> q[k] < |d.nodes| && Reaches(d, q[k], node)
  {
    var q := rest + Parents(d, current);
    forall k | 0 <= k < |q| ensures q[k] < |d.nodes| && Reaches(d, q[k], node) {
      if k >= |rest| {
        assert q[k] in Parents(d, current);
        IsEdgeInRange(d, q[k], current);
        ReachesPrepend(d, q[k], current, node);
      }
    }
  }

  /** The bookkeeping half of a visiting step. */
  lemma UpStepRecord(d: ArenaData, index: map<ComponentId, nat>, visited: set<nat>, current: nat,
                     affected: set<ComponentId>, affected2: set<ComponentId>)
    requires WellFormed(d) && current < |d.nodes|
    requires forall cid :: cid in affected <==> cid in index && ParentOfSome(d, index[cid], visited)
    requires forall cid :: cid in affected2 <==> cid in affected || (cid in index && IsEdge(d, index[cid], current))
    ensures forall cid :: cid in affected2 <==> cid in index && ParentOfSome(d, index[cid], visited + {current})
  {
    forall cid ensures cid in affected2 <==> cid in index && ParentOfSome(d, index[cid], visited + {current}) {
      if cid in affected {
        var e :| 0 <= e < |d.edges| && d.edges[e].source == index[cid] && d.edges[e].target in visited;
        assert d.edges[e].target in visited + {current};
      }
      if cid in index && IsEdge(d, index[cid], current) {
        var e :| 0 <= e < |d.edges| && d.edges[e].source == index[cid] && d.edges[e].target == current;
        assert d.edges[e].target in visited + {current};
      }
      if cid in index && ParentOfSome(d, index[cid], visited + {current}) {
        var e :| 0 <= e < |d.edges| && d.edges[e].source == index[cid] && d.edges[e].target in visited + {current};
        if d.edges[e].target != current {
          assert ParentOfSome(d, index[cid], visited);
        }
      }
    }
  }

  /** Visiting a popped, unvisited node and queueing its parents keeps the bookkeeping. */
  lemma UpStep(d: ArenaData, index: map<ComponentId, nat>, node: nat, visited: set<nat>, rest: seq<nat>,
               current: nat, affected: set<ComponentId>, affected2: set<ComponentId>)
    requires WellFormed(d) && UpWalk(d, index, node, visited, rest + [current], affected) && current !in visited
    requires forall cid :: cid in affected2 <==> cid in affected || (cid in index && IsEdge(d, index[cid], current))
    ensures UpWalk(d, index, node, visited + {current}, rest + Parents(d, current), affected2)
    ensures current in NodeRange(d)
  {
    var pending := rest + [current];
    assert pending[|rest|] == current;
    assert forall k :: 0 <= k < |rest| ==> rest[k] == pending[k];
    UpStepReach(d, node, rest, current);
    UpStepRecord(d, index, visited, current, affected, affected2);
    var q := rest + Parents(d, current);
    if node !in visited && node != current {
      assert node in rest;
    }
    forall e | 0 <= e < |d.edges| && d.edges[e].target in visited + {current}
      ensures d.edges[e].source in visited + {current} || d.edges[e].source in q
    {
      var s := d.edges[e].source;
      if d.edges[e].target == current {
        assert IsEdge(d, s, current);
        assert s in Parents(d, current);
      } else if s !in visited && s != current {
        assert s in pending;
        assert s in rest;
      }
    }
  }

  /** Popping an already visited node keeps the bookkeeping. */
  lemma UpSkip(d: ArenaData, index: map<ComponentId, nat>, node: nat, visited: set<nat>, rest: seq<nat>,
               current: nat, affected: set<ComponentId>)
    requires UpWalk(d, index, node, visited, rest + [current], affected) && current in visited
    ensures UpWalk(d, index, node, visited, rest, affected)
  {
    var pending := rest + [current];
    assert forall k :: 0 <= k < |rest| ==> rest[k] == pending[k];
    forall v | v in pending && v != current ensures v in rest {
    }
  }

  /**
   * The walk up from the changed node: the ids of every assembly that uses
   * it, directly or through others.
   */
  method AffectedAssemblies(d: ArenaData, index: map<ComponentId, nat>, node: nat)
    returns (affected: set<ComponentId>)
    requires WellFormed(d) && IndexConsistent(d.nodes, index) && node < |d.nodes|
    ensures forall cid :: cid in affected <==> cid in index && UsesTransitively(d, index[cid], node)
  {
    var queue: seq<nat> := [node];
    var visited: set<nat> := {};
    affected := {};
    ReachesRefl(d, node);
    while queue != []
      invariant UpWalk(d, index, node, visited, queue, affected)
      decreases NodeRange(d) - visited, |queue|
    {
      var current := queue[|queue| - 1];
      ghost var pending := queue;
      queue := queue[..|queue| - 1];
      assert pending == queue + [current];
      if current !in visited {
        var affected2, queue2 := PushParents(d, index, current, affected, queue);
        UpStep(d, index, node, visited, queue, current, affected, affected2);
        visited := visited + {current};
        affected, queue := affected2, queue2;
      } else {
        UpSkip(d, index, node, visited, queue, current, affected);
      }
    }
    assert ClosedUnderParents(d, visited);
    forall cid | cid in index ensures ParentOfSome(d, index[cid], visited) <==> UsesTransitively(d, index[cid], node) {
      if ParentOfSome(d, index[cid], visited) {
        var e :| 0 <= e < |d.edges| && d.edges[e].source == index[cid] && d.edges[e].target in visited;
      }
      if UsesTransitively(d, index[cid], node) {
        var e :| 0 <= e < |d.edges| && d.edges[e].source == index[cid] && Reaches(d, d.edges[e].target, node);
        ClosedHoldsAncestors(d, visited, d.edges[e].target, node);
      }
    }
  }

  /**
   * `analyze_change_impact`: every assembly that uses the component, and
   * those of them that are roots.
   */
  method AnalyzeChangeImpact(d: ArenaData, index: map<ComponentId, nat>, roots: seq<nat>, id: ComponentId)
    returns (r: Result<ImpactAnalysis>)
    requires WellFormed(d) && IndexConsistent(d.nodes, index)
    ensures r.Err? <==> id !in index
    ensures r.Err? ==> r.error == ComponentNotFound(id)
    ensures r.Ok? ==> r.value.changedComponent == id
    ensures r.Ok? ==> Distinct(r.value.affectedComponents) && Distinct(r.value.affectedRootAssemblies)
    ensures r.Ok? ==> forall cid :: cid in r.value.affectedComponents <==>
              cid in index && UsesTransitively(d, index[cid], index[id])
    ensures r.Ok? ==> forall cid :: cid in r.value.affectedRootAssemblies <==>
              exists j :: 0 <= j < |roots| && roots[j] < |d.nodes| && d.nodes[roots[j]].componentId == cid
                          && UsesTransitively(d, roots[j], index[id])
  {
    if id !in index {
      return Err(ComponentNotFound(id));
    }
    var node := index[id];
    var affected := AffectedAssemblies(d, index, node);
    var affectedRoots: set<ComponentId> := {};
    for j := 0 to |roots|
      invariant forall cid :: cid in affectedRoots <==>
                  exists i :: 0 <= i < j && roots[i] < |d.nodes| && d.nodes[roots[i]].componentId == cid
                              && UsesTransitively(d, roots[i], node)
    {
      if roots[j] < |d.nodes| && d.nodes[roots[j]].componentId in affected {
        affectedRoots := affectedRoots + {d.nodes[roots[j]].componentId};
      }
    }
    var components := SetToSeq(affected);
    var rootIds := SetToSeq(affectedRoots);
    r := Ok(ImpactAnalysis(id, components, rootIds));
  }

  /**
   * A -> B, A -> C, B -> D: changing D affects B and A but not C.
   */
  lemma ChangeImpactExample(d: ArenaData)
    requires |d.nodes| == 4 && |d.edges| == 3
    requires d.edges[0].source == 0 && d.edges[0].target == 1
    requires d.edges[1].source == 0 && d.edges[1].target == 2
    requires d.edges[2].source == 1 && d.edges[2].target == 3
    ensures UsesTransitively(d, 1, 3) && UsesTransitively(d, 0, 3) && !UsesTransitively(d, 2, 3)
  {
    assert IsPathFromTo(d, [3], 3, 3);
    assert IsEdge(d, 1, 3);
    assert IsPathFromTo(d, [1, 3], 1, 3);
  }

  // ---------------------------------------------------------------------
  // find_shared_components

  /** Assembly `a` holds component `c` strictly below itself. */
  ghost predicate Holds(d: ArenaData, index: map<ComponentId, nat>, a: ComponentId, c: ComponentId)
  {
    a in index && c in index && index[c] != index[a] && Reaches(d, index[a], index[c])
  }

  /**
   * The downward walk's bookkeeping: visited and stacked nodes are reached
   * from the assembly, which is itself visited or stacked; every child of a
   * visited node is visited or stacked; `ds` holds the ids of the visited
   * nodes other than the assembly.
   */
  ghost predicate DownWalk(d: ArenaData, index: map<ComponentId, nat>, a: nat, visited: set<nat>,
                           stack: seq<nat>, ds: set<ComponentId>)
  {
    && (forall v :: v in visited ==> v < |d.nodes| && Reaches(d, a, v))
    && (forall k :: 0 <= k < |stack| ==> stack[k] < |d.nodes| && Reaches(d, a, stack[k]))
    && (a in visited || a in stack)
    && (forall e :: 0 <= e < |d.edges| && d.edges[e].source in visited ==>
          d.edges[e].target in visited || d.edges[e].target in stack)
    && (forall cid :: cid in ds <==> cid in index && index[cid] in visited && index[cid] != a)
  }

  /** Visiting a popped, unvisited node and stacking its children keeps the bookkeeping. */
  lemma DownStep(d: ArenaData, index: map<ComponentId, nat>, a: nat, visited: set<nat>, rest: seq<nat>,
                 current: nat, ds: set<ComponentId>, ds2: set<ComponentId>)
    requires WellFormed(d) && IndexConsistent(d.nodes, index) && current < |d.nodes|
    requires DownWalk(d, index, a, visited, rest + [current], ds) && current !in visited
    requires forall cid :: cid in ds2 <==> cid in ds || (current != a && cid == d.nodes[current].componentId)
    ensures DownWalk(d, index, a, visited + {current}, rest + Children(d, current), ds2)
    ensures current in NodeRange(d)
  {
    var pending := rest + [current];
    assert pending[|rest|] == current;
    assert forall k :: 0 <= k < |rest| ==> rest[k] == pending[k];
    var s := rest + Children(d, current);
    forall k | 0 <= k < |s| ensures s[k] < |d.nodes| && Reaches(d, a, s[k]) {
      if k >= |rest| {
        assert s[k] in Children(d, current);
        IsEdgeInRange(d, current, s[k]);
        ReachesAppend(d, a, current, s[k]);
      }
    }
    if a !in visited && a != current {
      assert a in rest;
    }
    forall e | 0 <= e < |d.edges| && d.edges[e].source in visited + {current}
      ensures d.edges[e].target in visited + {current} || d.edges[e].target in s
    {
      var t := d.edges[e].target;
      if d.edges[e].source == current {
        assert IsEdge(d, current, t);
        assert t in Children(d, current);
      } else if t !in visited && t != current {
        assert t in pending;
        assert t in rest;
      }
    }
  }

  /** Popping an already visited node keeps the bookkeeping. */
  lemma DownSkip(d: ArenaData, index: map<ComponentId, nat>, a: nat, visited: set<nat>, rest: seq<nat>,
                 current: nat, ds: set<ComponentId>)
    requires DownWalk(d, index, a, visited, rest + [current], ds) && current in visited
    ensures DownWalk(d, index, a, visited, rest, ds)
  {
    var pending := rest + [current];
    assert forall k :: 0 <= k < |rest| ==> rest[k] == pending[k];
    forall v | v in pending && v != current ensures v in rest {
    }
  }

  /** The per-assembly walk down: the ids of every node strictly below the assembly. */
  method DescendantIds(d: ArenaData, index: map<ComponentId, nat>, a: nat) returns (ds: set<ComponentId>)
    requires WellFormed(d) && IndexConsistent(d.nodes, index) && a < |d.nodes|
    ensures forall cid :: cid in ds <==> cid in index && index[cid] != a && Reaches(d, a, index[cid])
  {
    var stack: seq<nat> := [a];
    var visited: set<nat> := {};
    ds := {};
    ReachesRefl(d, a);
    while stack != []
      invariant DownWalk(d, index, a, visited, stack, ds)
      decreases NodeRange(d) - visited, |stack|
    {
      var current := stack[|stack| - 1];
      ghost var pending := stack;
      stack := stack[..|stack| - 1];
      assert pending == stack + [current];
      if current !in visited {
        var ds2 := ds;
        if current < |d.nodes| {
          if current != a {
            ds2 := ds2 + {d.nodes[current].componentId};
          }
        }
        DownStep(d, index, a, visited, stack, current, ds, ds2);
        visited := visited + {current};
        ds := ds2;
        stack := stack + Children(d, current);
      } else {
        DownSkip(d, index, a, visited, stack, current, ds);
      }
    }
    assert ClosedUnderChildren(d, visited);
    forall cid | cid in index && index[cid] != a && Reaches(d, a, index[cid]) ensures cid in ds {
      ClosedHoldsReachable(d, visited, a, index[cid]);
    }
  }

  /** The positions below `n` whose assembly holds `c`, ascending. */
  ghost function Holders(d: ArenaData, index: map<ComponentId, nat>, known: seq<ComponentId>,
                         c: ComponentId, n: nat): (r: seq<nat>)
    requires n <= |known|
    ensures forall i: nat :: i in r <==> i < n && Holds(d, index, known[i], c)
    ensures forall k :: 0 <= k < |r| ==> r[k] < n
    ensures forall k, l :: 0 <= k < l < |r| ==> r[k] < r[l]
  {
    if n == 0 then []
    else Holders(d, index, known, c, n - 1) + (if Holds(d, index, known[n - 1], c) then [n - 1] else [])
  }

  /** The usage count map: each held component maps to the positions of its holders. */
  ghost predicate UsageUpTo(d: ArenaData, index: map<ComponentId, nat>, known: seq<ComponentId>,
                            usage: map<ComponentId, seq<nat>>, c: ComponentId, n: nat)
    requires n <= |known|
  {
    && (c in usage <==> Holders(d, index, known, c, n) != [])
    && (c in usage ==> usage[c] == Holders(d, index, known, c, n))
  }

  /** The inner loop: append position `i` to the entry of every component of `s`, creating missing entries. */
  method Tally(usage: map<ComponentId, seq<nat>>, s: set<ComponentId>, i: nat)
    returns (usage2: map<ComponentId, seq<nat>>)
    ensures forall c :: c in s ==> c in usage2 && usage2[c] == (if c in usage then usage[c] else []) + [i]
    ensures forall c :: c !in s ==> (c in usage2 <==> c in usage) && (c in usage ==> usage2[c] == usage[c])
  {
    usage2 := usage;
    var rest := s;
    while rest != {}
      invariant rest <= s
      invariant forall c :: c in s && c !in rest ==> c in usage2 && usage2[c] == (if c in usage then usage[c] else []) + [i]
      invariant forall c :: !(c in s && c !in rest) ==> (c in usage2 <==> c in usage) && (c in usage ==> usage2[c] == usage[c])
      decreases rest
    {
      var c :| c in rest;
      usage2 := usage2[c := (if c in usage2 then usage2[c] else []) + [i]];
      rest := rest - {c};
    }
  }

  /** Tallying the holders at position `i` extends the usage map from `i` positions to `i + 1`. */
  lemma UsageNext(d: ArenaData, index: map<ComponentId, nat>, known: seq<ComponentId>, s: set<ComponentId>, i: nat,
                  usage: map<ComponentId, seq<nat>>, usage2: map<ComponentId, seq<nat>>, n: nat)
    requires i < |known| && n == i + 1 && forall c :: c in s <==> Holds(d, index, known[i], c)
    requires forall c :: UsageUpTo(d, index, known, usage, c, i)
    requires forall c :: c in s ==> c in usage2 && usage2[c] == (if c in usage then usage[c] else []) + [i]
    requires forall c :: c !in s ==> (c in usage2 <==> c in usage) && (c in usage ==> usage2[c] == usage[c])
    ensures forall c :: UsageUpTo(d, index, known, usage2, c, n)
  {
    forall c ensures UsageUpTo(d, index, known, usage2, c, n) {
      assert UsageUpTo(d, index, known, usage, c, i);
    }
  }

  /**
   * The usage map of `find_shared_components`: for every component, the
   * positions (in the list of found assemblies) of the assemblies holding it.
   */
  method Usage(d: ArenaData, index: map<ComponentId, nat>, known: seq<ComponentId>, sets: seq<set<ComponentId>>)
    returns (usage: map<ComponentId, seq<nat>>)
    requires |sets| == |known|
    requires forall i, c :: 0 <= i < |sets| ==> (c in sets[i] <==> Holds(d, index, known[i], c))
    ensures forall c :: UsageUpTo(d, index, known, usage, c, |known|)
  {
    usage := map[];
    for i := 0 to |sets|
      invariant forall c :: UsageUpTo(d, index, known, usage, c, i)
    {
      var usage2 := Tally(usage, sets[i], i);
      UsageNext(d, index, known, sets[i], i, usage, usage2, i + 1);
      usage := usage2;
    }
  }

  /**
   * The first two stages of `find_shared_components`: the assembly ids the
   * graph knows, in order, and the usage map over them.
   */
  method SharedUsage(d: ArenaData, index: map<ComponentId, nat>, assemblyIds: seq<ComponentId>)
    returns (known: seq<ComponentId>, usage: map<ComponentId, seq<nat>>)
    requires WellFormed(d) && IndexConsistent(d.nodes, index)
    ensures known == Filter(assemblyIds, x => x in index)
    ensures forall c :: UsageUpTo(d, index, known, usage, c, |known|)
  {
    known := Filter(assemblyIds, x => x in index);
    var sets: seq<set<ComponentId>> := [];
    for i := 0 to |known|
      invariant |sets| == i
      invariant forall k, c :: 0 <= k < i ==> (c in sets[k] <==> Holds(d, index, known[k], c))
    {
      assert known[i] in known;
      var ds := DescendantIds(d, index, index[known[i]]);
      sets := sets + [ds];
    }
    usage := Usage(d, index, known, sets);
  }

  /** The ids at the given positions. */
  function Pick(names: seq<ComponentId>, ps: seq<nat>): (r: seq<ComponentId>)
    requires forall k :: 0 <= k < |ps| ==> ps[k] < |names|
    ensures |r| == |ps| && forall k :: 0 <= k < |ps| ==> r[k] == names[ps[k]]
  {
    seq(|ps|, k requires 0 <= k < |ps| => names[ps[k]])
  }

  /** The last stage: one entry for each component with more than one holder, named from `names`. */
  method CollectShared(usage: map<ComponentId, seq<nat>>, names: seq<ComponentId>) returns (shared: seq<SharedComponent>)
    requires forall c, k :: c in usage && 0 <= k < |usage[c]| ==> usage[c][k] < |names|
    ensures forall k :: 0 <= k < |shared| ==>
              && shared[k].componentId in usage
              && |usage[shared[k].componentId]| > 1
              && shared[k].usedInAssemblies == Pick(names, usage[shared[k].componentId])
              && shared[k].usedInCount == |usage[shared[k].componentId]|
    ensures forall c :: c in usage && |usage[c]| > 1 ==> exists k :: 0 <= k < |shared| && shared[k].componentId == c
    ensures forall k, l :: 0 <= k < l < |shared| ==> shared[k].componentId != shared[l].componentId
  {
    shared := [];
    var rest := usage.Keys;
    while rest != {}
      invariant rest <= usage.Keys
      invariant forall k :: 0 <= k < |shared| ==>
                  && shared[k].componentId in usage && shared[k].componentId !in rest
                  && |usage[shared[k].componentId]| > 1
                  && shared[k].usedInAssemblies == Pick(names, usage[shared[k].componentId])
                  && shared[k].usedInCount == |usage[shared[k].componentId]|
      invariant forall c :: c in usage && c !in rest && |usage[c]| > 1 ==>
                  exists k :: 0 <= k < |shared| && shared[k].componentId == c
      invariant forall k, l :: 0 <= k < l < |shared| ==> shared[k].componentId != shared[l].componentId
      decreases rest
    {
      var c :| c in rest;
      if |usage[c]| > 1 {
        var usedIn := Pick(names, usage[c]);
        ghost var before := shared;
        shared := shared + [SharedComponent(c, usedIn, |usedIn|)];
        assert forall k :: 0 <= k < |before| ==> shared[k] == before[k];
        assert shared[|before|].componentId == c;
      }
      rest := rest - {c};
    }
  }

  /**
   * A shared-component entry over the found assemblies `known`, naming its
   * holders from `names` at the holders' positions.
   */
  ghost predicate SharedEntry(d: ArenaData, index: map<ComponentId, nat>, known: seq<ComponentId>,
                              names: seq<ComponentId>, s: SharedComponent)
  {
    var h := Holders(d, index, known, s.componentId, |known|);
    && |h| > 1
    && (forall k :: 0 <= k < |h| ==> h[k] < |names|)
    && s.usedInAssemblies == Pick(names, h)
    && s.usedInCount == |h|
  }

  /**
   * `find_shared_components` as written: the holders' positions count among
   * the found assemblies but are looked up in the full argument list, so an
   * unknown id earlier in the list shifts every name after it.
   */
  method FindSharedComponentsAsWritten(d: ArenaData, index: map<ComponentId, nat>, assemblyIds: seq<ComponentId>)
    returns (r: Result<seq<SharedComponent>>)
    requires WellFormed(d) && IndexConsistent(d.nodes, index)
    ensures r.Ok?
    ensures var known := Filter(assemblyIds, x => x in index);
            forall k :: 0 <= k < |r.value| ==> SharedEntry(d, index, known, assemblyIds, r.value[k])
    ensures var known := Filter(assemblyIds, x => x in index);
            forall c :: |Holders(d, index, known, c, |known|)| > 1 ==>
              exists k :: 0 <= k < |r.value| && r.value[k].componentId == c
  {
    var known, usage := SharedUsage(d, index, assemblyIds);
    if known == [] {
      return Ok([]);
    }
    forall c, k | c in usage && 0 <= k < |usage[c]| ensures usage[c][k] < |assemblyIds| {
      assert UsageUpTo(d, index, known, usage, c, |known|);
    }
    var shared := CollectShared(usage, assemblyIds);
    forall k | 0 <= k < |shared| ensures SharedEntry(d, index, known, assemblyIds, shared[k]) {
      assert UsageUpTo(d, index, known, usage, shared[k].componentId, |known|);
    }
    forall c | |Holders(d, index, known, c, |known|)| > 1 ensures exists k :: 0 <= k < |shared| && shared[k].componentId == c {
      assert UsageUpTo(d, index, known, usage, c, |known|);
    }
    r := Ok(shared);
  }

  /**
   * `find_shared_components` with the holders named from the found
   * assemblies: one entry per component that two or more of the given
   * assemblies hold strictly below themselves, no component twice.
   */
  method FindSharedComponents(d: ArenaData, index: map<ComponentId, nat>, assemblyIds: seq<ComponentId>)
    returns (r: Result<seq<SharedComponent>>)
    requires WellFormed(d) && IndexConsistent(d.nodes, index)
    ensures r.Ok?
    ensures var known := Filter(assemblyIds, x => x in index);
            forall k :: 0 <= k < |r.value| ==> SharedEntry(d, index, known, known, r.value[k])
    ensures var known := Filter(assemblyIds, x => x in index);
            forall c :: |Holders(d, index, known, c, |known|)| > 1 ==>
              exists k :: 0 <= k < |r.value| && r.value[k].componentId == c
    ensures forall k, l :: 0 <= k < l < |r.value| ==> r.value[k].componentId != r.value[l].componentId
  {
    var known, usage := SharedUsage(d, index, assemblyIds);
    if known == [] {
      return Ok([]);
    }
    forall c, k | c in usage && 0 <= k < |usage[c]| ensures usage[c][k] < |known| {
      assert UsageUpTo(d, index, known, usage, c, |known|);
    }
    var shared := CollectShared(usage, known);
    forall k | 0 <= k < |shared| ensures SharedEntry(d, index, known, known, shared[k]) {
      assert UsageUpTo(d, index, known, usage, shared[k].componentId, |known|);
    }
    forall c | |Holders(d, index, known, c, |known|)| > 1 ensures exists k :: 0 <= k < |shared| && shared[k].componentId == c {
      assert UsageUpTo(d, index, known, usage, c, |known|);
    }
    r := Ok(shared);
  }

  /**
   * Each corrected entry names at least two assemblies from the argument
   * list, each of which holds the component strictly below itself.
   */
  lemma SharedEntryNamesHolders(d: ArenaData, index: map<ComponentId, nat>, assemblyIds: seq<ComponentId>, s: SharedComponent)
    requires SharedEntry(d, index, Filter(assemblyIds, x => x in index), Filter(assemblyIds, x => x in index), s)
    ensures s.usedInCount == |s.usedInAssemblies| >= 2
    ensures forall a :: a in s.usedInAssemblies ==> a in assemblyIds && Holds(d, index, a, s.componentId)
  {
    var known := Filter(assemblyIds, x => x in index);
    var h := Holders(d, index, known, s.componentId, |known|);
    forall a | a in s.usedInAssemblies ensures a in assemblyIds && Holds(d, index, a, s.componentId) {
      var k :| 0 <= k < |s.usedInAssemblies| && s.usedInAssemblies[k] == a;
      assert h[k] in h;
      assert known[h[k]] in known;
    }
  }

  /** When every given id is known, the two namings agree. */
  lemma NamingAgreesWhenAllKnown(d: ArenaData, index: map<ComponentId, nat>, assemblyIds: seq<ComponentId>, s: SharedComponent)
    requires forall x :: x in assemblyIds ==> x in index
    ensures var known := Filter(assemblyIds, x => x in index);
            SharedEntry(d, index, known, assemblyIds, s) <==> SharedEntry(d, index, known, known, s)
  {
  }

  /** The found assemblies of the example below. */
  lemma ShiftedKnown(index: map<ComponentId, nat>)
    requires index == map["A" := 0, "B" := 1, "C" := 2]
    ensures Filter(["X", "A", "B"], x => x in index) == ["A", "B"]
  {
    var ids := ["X", "A", "B"];
    assert ids[1..] == ["A", "B"];
    assert ["A", "B"][1..] == ["B"];
    assert ["B"][1..] == [];
  }

  /** The holders of C in the example below. */
  lemma ShiftedHolders(d: ArenaData, index: map<ComponentId, nat>)
    requires |d.nodes| == 3 && |d.edges| == 2
    requires d.edges[0].source == 0 && d.edges[0].target == 2
    requires d.edges[1].source == 1 && d.edges[1].target == 2
    requires index == map["A" := 0, "B" := 1, "C" := 2]
    ensures Holders(d, index, ["A", "B"], "C", 2) == [0, 1]
  {
    assert IsEdge(d, 0, 2) && IsEdge(d, 1, 2);
    assert IsPathFromTo(d, [0, 2], 0, 2);
    assert IsPathFromTo(d, [1, 2], 1, 2);
    assert Holds(d, index, "A", "C");
    assert Holds(d, index, "B", "C");
    assert Holders(d, index, ["A", "B"], "C", 1) == [0];
  }

  /**
   * Assemblies X (unknown), A, B with A -> C and B -> C: C's holders are
   * positions 0 and 1 among the found assemblies [A, B], and as written they
   * are named X and A; X is not even in the graph.
   */
  lemma SharedNamesShifted(d: ArenaData, index: map<ComponentId, nat>)
    requires |d.nodes| == 3 && |d.edges| == 2
    requires d.edges[0].source == 0 && d.edges[0].target == 2
    requires d.edges[1].source == 1 && d.edges[1].target == 2
    requires index == map["A" := 0, "B" := 1, "C" := 2]
    ensures Filter(["X", "A", "B"], x => x in index) == ["A", "B"] && "X" !in index
    ensures forall s: SharedComponent :: s.componentId == "C" && SharedEntry(d, index, ["A", "B"], ["X", "A", "B"], s) ==>
              s.usedInAssemblies == ["X", "A"]
  {
    ShiftedKnown(index);
    ShiftedHolders(d, index);
    assert Pick(["X", "A", "B"], [0, 1]) == ["X", "A"];
  }

  /** On the same graph the corrected naming gives A and B, the assemblies that hold C. */
  lemma SharedNamesIntended(d: ArenaData, index: map<ComponentId, nat>)
    requires |d.nodes| == 3 && |d.edges| == 2
    requires d.edges[0].source == 0 && d.edges[0].target == 2
    requires d.edges[1].source == 1 && d.edges[1].target == 2
    requires index == map["A" := 0, "B" := 1, "C" := 2]
    ensures forall s: SharedComponent :: s.componentId == "C" && SharedEntry(d, index, ["A", "B"], ["A", "B"], s) ==>
              s.usedInAssemblies == ["A", "B"]
  {
    ShiftedHolders(d, index);
    assert Pick(["A", "B"], [0, 1]) == ["A", "B"];
  }
}
