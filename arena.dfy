/**
 * The arena: nodes and edges kept in two vectors, a component-id index, and
 * free lists. Nodes carry a dirty flag and a version counter for incremental
 * recomputation; marking a node dirty also marks its ancestors.
 */
module Arenas {
  import opened Models
  import opened ArenaModel

  /** Ids and adjacency lists agree: only caches, flags and versions may differ. */
  ghost predicate SameShape(a: seq<Node>, b: seq<Node>)
  {
    && |a| == |b|
    && forall i :: 0 <= i < |a| ==>
         && a[i].componentId == b[i].componentId
         && a[i].incoming == b[i].incoming
         && a[i].outgoing == b[i].outgoing
  }

  /** A node freshly marked dirty: the flag set and the version bumped. */
  function Touch(nd: Node): Node
  {
    nd.(dirty := true, version := nd.version + 1)
  }

  /** Indices of the nodes whose dirty flag is clear. */
  function CleanSet(nodes: seq<Node>): set<nat>
  {
    set i | 0 <= i < |nodes| && !nodes[i].dirty
  }

  /** Every node is either untouched or was clean and has been touched once. */
  ghost predicate OnlyTouched(before: seq<Node>, after: seq<Node>)
  {
    && |after| == |before|
    && forall i :: 0 <= i < |after| ==>
         after[i] == before[i] || (!before[i].dirty && after[i] == Touch(before[i]))
  }

  lemma OnlyTouchedShape(before: seq<Node>, after: seq<Node>)
    requires OnlyTouched(before, after)
    ensures SameShape(after, before)
    ensures CleanSet(after) <= CleanSet(before)
  {
  }

  /**
   * The node flags after `mark_dirty_recursive(n)`: nothing changes when `n`
   * is out of range or already dirty; otherwise `n` is touched and the walk
   * continues with the source of each of its incoming edges, in list order.
   */
  function MarkDirtyFrom(nodes: seq<Node>, edges: seq<Edge>, n: nat): (r: seq<Node>)
    ensures OnlyTouched(nodes, r)
    ensures n < |nodes| ==> r[n].dirty
    decreases |CleanSet(nodes)|, 0, 0
  {
    if n >= |nodes| || nodes[n].dirty then nodes
    else
      var marked := nodes[n := Touch(nodes[n])];
      assert CleanSet(marked) == CleanSet(nodes) - {n};
      ProperSubsetSmaller(CleanSet(marked), CleanSet(nodes));
      MarkParents(marked, edges, nodes[n].incoming)
  }

  /** Marks from the source of each listed edge in turn; indices past the edge vector are skipped. */
  function MarkParents(nodes: seq<Node>, edges: seq<Edge>, es: seq<nat>): (r: seq<Node>)
    ensures OnlyTouched(nodes, r)
    decreases |CleanSet(nodes)|, 1, |es|
  {
    if es == [] then nodes
    else
      var next := if es[0] < |edges| then MarkDirtyFrom(nodes, edges, edges[es[0]].source) else nodes;
      OnlyTouchedShape(nodes, next);
      SubsetNotLarger(CleanSet(next), CleanSet(nodes));
      MarkParents(next, edges, es[1..])
  }

  lemma SameShapeWellFormed(a: seq<Node>, b: seq<Node>, edges: seq<Edge>)
    requires SameShape(a, b) && WellFormed(ArenaData(a, edges))
    ensures WellFormed(ArenaData(b, edges))
  {
    var da, db := ArenaData(a, edges), ArenaData(b, edges);
    forall n | 0 <= n < |b| ensures OutgoingOk(db, n) && IncomingOk(db, n) {
      assert OutgoingOk(da, n) && IncomingOk(da, n);
    }
    forall e | 0 <= e < |edges| ensures EdgeLinked(db, e) {
      assert EdgeLinked(da, e);
    }
  }

  /** The parent of every dirty node is dirty. */
  ghost predicate DirtyClosedUpward(nodes: seq<Node>, edges: seq<Edge>)
  {
    forall e :: 0 <= e < |edges| && edges[e].source < |nodes| && edges[e].target < |nodes| && nodes[edges[e].target].dirty
      ==> nodes[edges[e].source].dirty
  }

  /** Marking touches no node that does not reach `n`. */
  lemma {:induction false} MarkDirtyFromOnlyAncestors(g: ArenaData, nodes: seq<Node>, n: nat)
    requires WellFormed(g) && SameShape(nodes, g.nodes)
    ensures forall i :: 0 <= i < |nodes| && !Reaches(g, i, n) ==> MarkDirtyFrom(nodes, g.edges, n)[i] == nodes[i]
    decreases |CleanSet(nodes)|, 0, 0
  {
    if n < |nodes| && !nodes[n].dirty {
      var marked := nodes[n := Touch(nodes[n])];
      assert CleanSet(marked) == CleanSet(nodes) - {n};
      ProperSubsetSmaller(CleanSet(marked), CleanSet(nodes));
      assert IncomingOk(g, n);
      MarkParentsOnlyAncestors(g, marked, nodes[n].incoming, n);
      ReachesRefl(g, n);
    }
  }

  lemma {:induction false} MarkParentsOnlyAncestors(g: ArenaData, nodes: seq<Node>, es: seq<nat>, n: nat)
    requires WellFormed(g) && SameShape(nodes, g.nodes) && n < |nodes|
    requires forall k :: 0 <= k < |es| ==> es[k] < |g.edges| && g.edges[es[k]].target == n
    ensures forall i :: 0 <= i < |nodes| && !Reaches(g, i, n) ==> MarkParents(nodes, g.edges, es)[i] == nodes[i]
    decreases |CleanSet(nodes)|, 1, |es|
  {
    if es != [] {
      var src := g.edges[es[0]].source;
      var next := MarkDirtyFrom(nodes, g.edges, src);
      OnlyTouchedShape(nodes, next);
      SubsetNotLarger(CleanSet(next), CleanSet(nodes));
      MarkDirtyFromOnlyAncestors(g, nodes, src);
      MarkParentsOnlyAncestors(g, next, es[1..], n);
      EdgeReaches(g, es[0]);
      forall i | 0 <= i < |nodes| && !Reaches(g, i, n) ensures !Reaches(g, i, src) {
        if Reaches(g, i, src) {
          ReachesAppend(g, i, src, n);
        }
      }
    }
  }

  /** Every edge whose target was touched going from `before` to `after` has a dirty source in `after`. */
  ghost predicate TouchedHaveDirtyParents(before: seq<Node>, after: seq<Node>, edges: seq<Edge>)
  {
    forall e ::
      (0 <= e < |edges| && edges[e].source < |after| && edges[e].target < |after| && edges[e].target < |before|
       && after[edges[e].target] != before[edges[e].target]) ==> after[edges[e].source].dirty
  }

  /** A dirty flag, once set, survives any later marking. */
  lemma DirtyStays(before: seq<Node>, after: seq<Node>, i: nat)
    requires OnlyTouched(before, after) && i < |before| && before[i].dirty
    ensures after[i] == before[i] && after[i].dirty
  {
  }

  /** Every node that marking touches ends with all its parents dirty. */
  lemma {:induction false} MarkDirtyFromParentsDirty(g: ArenaData, nodes: seq<Node>, n: nat)
    requires WellFormed(g) && SameShape(nodes, g.nodes)
    ensures TouchedHaveDirtyParents(nodes, MarkDirtyFrom(nodes, g.edges, n), g.edges)
    decreases |CleanSet(nodes)|, 0, 0
  {
    if n < |nodes| && !nodes[n].dirty {
      var marked := nodes[n := Touch(nodes[n])];
      assert CleanSet(marked) == CleanSet(nodes) - {n};
      ProperSubsetSmaller(CleanSet(marked), CleanSet(nodes));
      assert IncomingOk(g, n);
      var es := nodes[n].incoming;
      MarkParentsParentsDirty(g, marked, es);
      var r := MarkDirtyFrom(nodes, g.edges, n);
      assert r == MarkParents(marked, g.edges, es);
      forall e | 0 <= e < |g.edges| && r[g.edges[e].target] != nodes[g.edges[e].target]
        ensures r[g.edges[e].source].dirty
      {
        if g.edges[e].target == n {
          assert EdgeLinked(g, e);
          var k :| 0 <= k < |es| && es[k] == e;
        } else {
          assert marked[g.edges[e].target] == nodes[g.edges[e].target];
        }
      }
    }
  }

  lemma {:induction false} MarkParentsParentsDirty(g: ArenaData, nodes: seq<Node>, es: seq<nat>)
    requires WellFormed(g) && SameShape(nodes, g.nodes)
    requires forall k :: 0 <= k < |es| ==> es[k] < |g.edges|
    ensures var r := MarkParents(nodes, g.edges, es);
      && (forall k :: 0 <= k < |es| ==> r[g.edges[es[k]].source].dirty)
      && TouchedHaveDirtyParents(nodes, r, g.edges)
    decreases |CleanSet(nodes)|, 1, |es|
  {
    if es != [] {
      var src := g.edges[es[0]].source;
      var next := MarkDirtyFrom(nodes, g.edges, src);
      OnlyTouchedShape(nodes, next);
      SubsetNotLarger(CleanSet(next), CleanSet(nodes));
      MarkDirtyFromParentsDirty(g, nodes, src);
      MarkParentsParentsDirty(g, next, es[1..]);
      var r := MarkParents(nodes, g.edges, es);
      assert r == MarkParents(next, g.edges, es[1..]);
      forall k | 0 <= k < |es| ensures r[g.edges[es[k]].source].dirty {
        if k == 0 {
          DirtyStays(next, r, src);
        } else {
          assert es[k] == es[1..][k - 1];
        }
      }
      forall e | 0 <= e < |g.edges| && r[g.edges[e].target] != nodes[g.edges[e].target]
        ensures r[g.edges[e].source].dirty
      {
        var t, s := g.edges[e].target, g.edges[e].source;
        if next[t] != nodes[t] {
          DirtyStays(next, r, s);
        }
      }
    }
  }

  /**
   * When parents of dirty nodes are already dirty, marking keeps it so, and
   * afterwards every ancestor of `n` is dirty.
   */
  lemma MarkDirtyFromClosesUpward(g: ArenaData, n: nat)
    requires WellFormed(g) && n < |g.nodes| && DirtyClosedUpward(g.nodes, g.edges)
    ensures var r := MarkDirtyFrom(g.nodes, g.edges, n);
      && DirtyClosedUpward(r, g.edges)
      && forall i :: 0 <= i < |r| && Reaches(g, i, n) ==> r[i].dirty
  {
    var r := MarkDirtyFrom(g.nodes, g.edges, n);
    MarkDirtyFromParentsDirty(g, g.nodes, n);
    forall e | 0 <= e < |g.edges| && r[g.edges[e].target].dirty ensures r[g.edges[e].source].dirty {
      if g.nodes[g.edges[e].target].dirty {
        DirtyStays(g.nodes, r, g.edges[e].source);
      }
    }
    var dirty := set i | 0 <= i < |r| && r[i].dirty;
    assert ClosedUnderParents(g, dirty);
    forall i | 0 <= i < |r| && Reaches(g, i, n) ensures r[i].dirty {
      ClosedHoldsAncestors(g, dirty, i, n);
    }
  }

  /** From an all-clean arena, marking `n` dirties exactly the nodes that reach `n`. */
  lemma MarkDirtyFromCleanMarksAncestors(g: ArenaData, n: nat)
    requires WellFormed(g) && n < |g.nodes|
    requires forall i :: 0 <= i < |g.nodes| ==> !g.nodes[i].dirty
    ensures var r := MarkDirtyFrom(g.nodes, g.edges, n);
      forall i :: 0 <= i < |r| ==> (r[i].dirty <==> Reaches(g, i, n))
  {
    MarkDirtyFromClosesUpward(g, n);
    MarkDirtyFromOnlyAncestors(g, g.nodes, n);
  }

  /** Marking a node that is already dirty changes nothing. */
  lemma MarkDirtyFromDirtyIsNoOp(nodes: seq<Node>, edges: seq<Edge>, n: nat)
    requires n < |nodes| && nodes[n].dirty
    ensures MarkDirtyFrom(nodes, edges, n) == nodes
  {
  }

  /** The node list after `add_edge` has recorded edge `e` on both endpoints. */
  function LinkEdge(nodes: seq<Node>, p: nat, c: nat, e: nat): (r: seq<Node>)
    requires p < |nodes| && c < |nodes|
    ensures |r| == |nodes|
    ensures r[p].outgoing == nodes[p].outgoing + [e]
    ensures r[c].incoming == nodes[c].incoming + [e]
    ensures forall i :: 0 <= i < |nodes| && i != p ==> r[i].outgoing == nodes[i].outgoing
    ensures forall i :: 0 <= i < |nodes| && i != c ==> r[i].incoming == nodes[i].incoming
    ensures forall i :: 0 <= i < |nodes| ==>
      r[i] == nodes[i].(incoming := r[i].incoming, outgoing := r[i].outgoing)
  {
    var n1 := nodes[p := nodes[p].(outgoing := nodes[p].outgoing + [e])];
    n1[c := n1[c].(incoming := n1[c].incoming + [e])]
  }

  /** Appending edge `p -> c` and linking it on both endpoints keeps the arena well-formed. */
  lemma LinkEdgeWellFormed(d: ArenaData, p: nat, c: nat, item: BomItem)
    requires WellFormed(d) && p < |d.nodes| && c < |d.nodes|
    ensures WellFormed(ArenaData(LinkEdge(d.nodes, p, c, |d.edges|), d.edges + [Edge(p, c, item, EffectiveQuantity(item))]))
  {
    var e := |d.edges|;
    var d2 := ArenaData(LinkEdge(d.nodes, p, c, e), d.edges + [Edge(p, c, item, EffectiveQuantity(item))]);
    forall n | 0 <= n < |d2.nodes| ensures OutgoingOk(d2, n) && IncomingOk(d2, n) {
      LinkEdgeListsOk(d, d2, p, c, n);
    }
    forall k | 0 <= k < |d2.edges| ensures EdgeLinked(d2, k) {
      if k < e {
        assert d2.edges[k] == d.edges[k];
        assert EdgeLinked(d, k);
      } else {
        assert d2.nodes[p].outgoing[|d2.nodes[p].outgoing| - 1] == k;
        assert d2.nodes[c].incoming[|d2.nodes[c].incoming| - 1] == k;
      }
    }
  }

  lemma LinkEdgeListsOk(d: ArenaData, d2: ArenaData, p: nat, c: nat, n: nat)
    requires WellFormed(d) && p < |d.nodes| && c < |d.nodes| && n < |d.nodes|
    requires d2.nodes == LinkEdge(d.nodes, p, c, |d.edges|)
    requires |d2.edges| == |d.edges| + 1 && d2.edges[..|d.edges|] == d.edges
    requires d2.edges[|d.edges|].source == p && d2.edges[|d.edges|].target == c
    ensures OutgoingOk(d2, n) && IncomingOk(d2, n)
  {
    assert OutgoingOk(d, n) && IncomingOk(d, n);
    assert forall k :: 0 <= k < |d.edges| ==> d2.edges[k] == d.edges[k];
  }

  /** The index maps each stored id to its node and every node's id back to it. */
  ghost predicate IndexConsistent(nodes: seq<Node>, index: map<ComponentId, nat>)
  {
    && (forall id :: id in index ==> index[id] < |nodes| && nodes[index[id]].componentId == id)
    && (forall n :: 0 <= n < |nodes| ==> nodes[n].componentId in index && index[nodes[n].componentId] == n)
  }

  /** Every entry of the stack is a node reachable from `source`. */
  ghost predicate AllReached(d: ArenaData, source: nat, stack: seq<nat>)
  {
    forall k :: 0 <= k < |stack| ==> stack[k] < |d.nodes| && Reaches(d, source, stack[k])
  }

  /** Every visited node is reachable from `source` and is not `target`. */
  ghost predicate VisitedReached(d: ArenaData, source: nat, target: nat, visited: seq<bool>)
  {
    forall v: nat :: v < |visited| && visited[v] ==> Reaches(d, source, v) && v != target
  }

  /**
   * The search frontier: each edge leaving a visited node other than
   * `except` leads to a visited node or to one still on the stack.
   */
  ghost predicate Frontier(d: ArenaData, visited: seq<bool>, stack: seq<nat>, except: nat)
  {
    forall e ::
      (0 <= e < |d.edges| && d.edges[e].source < |visited| && d.edges[e].target < |visited|
       && visited[d.edges[e].source] && d.edges[e].source != except) ==>
      visited[d.edges[e].target] || d.edges[e].target in stack
  }

  function CountUnvisited(visited: seq<bool>): nat
  {
    if visited == [] then 0 else (if visited[0] then 0 else 1) + CountUnvisited(visited[1..])
  }

  lemma {:induction false} CountUnvisitedDrops(visited: seq<bool>, i: nat)
    requires i < |visited| && !visited[i]
    ensures CountUnvisited(visited[i := true]) < CountUnvisited(visited)
  {
    if i > 0 {
      assert visited[i := true][1..] == visited[1..][i - 1 := true];
      CountUnvisitedDrops(visited[1..], i - 1);
    } else {
      assert visited[i := true][1..] == visited[1..];
    }
  }

  lemma FrontierPopVisited(d: ArenaData, visited: seq<bool>, stack: seq<nat>, current: nat)
    requires Frontier(d, visited, stack + [current], |d.nodes|) && current < |visited| && visited[current]
    requires |visited| == |d.nodes|
    ensures Frontier(d, visited, stack, |d.nodes|)
  {
    forall e | 0 <= e < |d.edges| && d.edges[e].source < |visited| && d.edges[e].target < |visited|
      && visited[d.edges[e].source] && d.edges[e].source != |d.nodes|
      ensures visited[d.edges[e].target] || d.edges[e].target in stack
    {
      if !visited[d.edges[e].target] {
        assert d.edges[e].target in stack + [current];
      }
    }
  }

  lemma FrontierPopVisit(d: ArenaData, visited: seq<bool>, stack: seq<nat>, current: nat)
    requires Frontier(d, visited, stack + [current], |d.nodes|) && current < |visited|
    requires |visited| == |d.nodes|
    ensures Frontier(d, visited[current := true], stack, current)
  {
    var v2 := visited[current := true];
    forall e | 0 <= e < |d.edges| && d.edges[e].source < |v2| && d.edges[e].target < |v2|
      && v2[d.edges[e].source] && d.edges[e].source != current
      ensures v2[d.edges[e].target] || d.edges[e].target in stack
    {
      if !v2[d.edges[e].target] {
        assert d.edges[e].target in stack + [current];
      }
    }
  }

  lemma FrontierAddChildren(d: ArenaData, visited: seq<bool>, stack: seq<nat>, current: nat, kids: seq<nat>)
    requires WellFormed(d) && |visited| == |d.nodes| && current < |d.nodes|
    requires Frontier(d, visited, stack, current)
    requires forall c :: c in kids <==> IsEdge(d, current, c)
    requires forall c :: c in UnvisitedOf(kids, visited) ==> c in stack
    ensures Frontier(d, visited, stack, |d.nodes|)
  {
    UnvisitedOfMembers(kids, visited);
    forall e | 0 <= e < |d.edges| && d.edges[e].source < |visited| && d.edges[e].target < |visited|
      && visited[d.edges[e].source] && d.edges[e].source == current
      ensures visited[d.edges[e].target] || d.edges[e].target in stack
    {
      assert IsEdge(d, current, d.edges[e].target);
      if !visited[d.edges[e].target] {
        assert d.edges[e].target in UnvisitedOf(kids, visited);
      }
    }
  }

  /** The entries of `kids` whose visited flag is clear, in order. */
  function UnvisitedOf(kids: seq<nat>, visited: seq<bool>): seq<nat>
  {
    if kids == [] then []
    else (if kids[0] >= |visited| || visited[kids[0]] then [] else [kids[0]]) + UnvisitedOf(kids[1..], visited)
  }

  lemma UnvisitedOfMembers(kids: seq<nat>, visited: seq<bool>)
    ensures forall c :: c in UnvisitedOf(kids, visited) <==> c in kids && c < |visited| && !visited[c]
  {
  }

  /** One step of `PushUnvisited`: the head of `kids[j..]` moves onto the stack if unvisited. */
  lemma UnvisitedOfStep(r: seq<nat>, kids: seq<nat>, j: nat, visited: seq<bool>)
    requires j < |kids| && kids[j] < |visited|
    ensures r + UnvisitedOf(kids[j..], visited)
         == (r + if visited[kids[j]] then [] else [kids[j]]) + UnvisitedOf(kids[j + 1..], visited)
  {
    var step := if visited[kids[j]] then [] else [kids[j]];
    var tail := UnvisitedOf(kids[j + 1..], visited);
    assert UnvisitedOf(kids[j..], visited) == step + tail by {
      assert kids[j..][0] == kids[j] && kids[j..][1..] == kids[j + 1..];
    }
    assert r + (step + tail) == (r + step) + tail;
  }

  /** Pushes every unvisited child onto the stack, in iteration order. */
  method PushUnvisited(stack: seq<nat>, kids: seq<nat>, visited: seq<bool>) returns (r: seq<nat>)
    requires forall c :: c in kids ==> c < |visited|
    ensures r == stack + UnvisitedOf(kids, visited)
  {
    r := stack;
    var j := 0;
    while j < |kids|
      invariant 0 <= j <= |kids|
      invariant r + UnvisitedOf(kids[j..], visited) == stack + UnvisitedOf(kids, visited)
    {
      assert kids[j] in kids;
      UnvisitedOfStep(r, kids, j, visited);
      r := r + if visited[kids[j]] then [] else [kids[j]];
      j := j + 1;
    }
    assert kids[j..] == [];
  }

  lemma FrontierGrows(d: ArenaData, visited: seq<bool>, stack: seq<nat>, stack2: seq<nat>, except: nat)
    requires Frontier(d, visited, stack, except) && stack <= stack2
    ensures Frontier(d, visited, stack2, except)
  {
    forall x | x in stack ensures x in stack2 {
      var k :| 0 <= k < |stack| && stack[k] == x;
      assert stack2[k] == x;
    }
  }

  /** With an empty stack, the visited nodes hold everything `source` reaches. */
  lemma ReachedAllVisited(d: ArenaData, visited: seq<bool>, source: nat, target: nat)
    requires WellFormed(d) && |visited| == |d.nodes| && source < |d.nodes| && visited[source]
    requires Frontier(d, visited, [], |d.nodes|)
    requires Reaches(d, source, target)
    ensures target < |visited| && visited[target]
  {
    ReachesInRange(d, source, target);
    var reached := set v | 0 <= v < |visited| && visited[v];
    assert ClosedUnderChildren(d, reached);
    ClosedHoldsReachable(d, reached, source, target);
  }

  /** Pushing the unvisited children of a reached node keeps the search invariants. */
  lemma PushKeepsSearchInvariants(d: ArenaData, source: nat, visited: seq<bool>, before: seq<nat>,
                                  current: nat, kids: seq<nat>, stack: seq<nat>)
    requires WellFormed(d) && |visited| == |d.nodes| && current < |d.nodes|
    requires Reaches(d, source, current)
    requires AllReached(d, source, before) && Frontier(d, visited, before, current)
    requires forall c :: c in kids <==> IsEdge(d, current, c)
    requires stack == before + UnvisitedOf(kids, visited)
    ensures AllReached(d, source, stack) && Frontier(d, visited, stack, |d.nodes|)
  {
    UnvisitedOfMembers(kids, visited);
    forall k | 0 <= k < |stack| ensures stack[k] < |d.nodes| && Reaches(d, source, stack[k]) {
      if k >= |before| {
        var c := stack[k];
        assert c in UnvisitedOf(kids, visited);
        IsEdgeInRange(d, current, c);
        ReachesAppend(d, source, current, c);
      }
    }
    FrontierGrows(d, visited, before, stack, current);
    FrontierAddChildren(d, visited, stack, current, kids);
  }

  /** Marks the popped node `current` visited and pushes its unvisited children. */
  method VisitNode(d: ArenaData, source: nat, visited: seq<bool>, stack: seq<nat>, current: nat)
    returns (visited2: seq<bool>, stack2: seq<nat>)
    requires WellFormed(d) && |visited| == |d.nodes| && current < |d.nodes|
    requires Reaches(d, source, current) && AllReached(d, source, stack)
    requires Frontier(d, visited, stack + [current], |d.nodes|)
    ensures visited2 == visited[current := true] && stack <= stack2
    ensures AllReached(d, source, stack2) && Frontier(d, visited2, stack2, |d.nodes|)
  {
    FrontierPopVisit(d, visited, stack, current);
    visited2 := visited[current := true];
    var kids := Children(d, current);
    forall c | c in kids ensures c < |d.nodes| {
      IsEdgeInRange(d, current, c);
    }
    stack2 := PushUnvisited(stack, kids, visited2);
    PushKeepsSearchInvariants(d, source, visited2, stack, current, kids, stack2);
  }

  /**
   * `has_path`: depth-first search from `source` with a visited vector and an
   * explicit stack; answers whether `target` is reachable.
   */
  method SearchPath(d: ArenaData, source: nat, target: nat) returns (found: bool)
    requires WellFormed(d) && source < |d.nodes|
    ensures found <==> Reaches(d, source, target)
  {
    var visited := seq(|d.nodes|, _ => false);
    var stack: seq<nat> := [source];
    ReachesRefl(d, source);
    while stack != []
      invariant |visited| == |d.nodes|
      invariant AllReached(d, source, stack)
      invariant VisitedReached(d, source, target, visited)
      invariant source in stack || visited[source]
      invariant Frontier(d, visited, stack, |d.nodes|)
      decreases CountUnvisited(visited), |stack|
    {
      var current := stack[|stack| - 1];
      stack := stack[..|stack| - 1];
      if current == target {
        return true;
      }
      if visited[current] {
        FrontierPopVisited(d, visited, stack, current);
        continue;
      }
      CountUnvisitedDrops(visited, current);
      visited, stack := VisitNode(d, source, visited, stack, current);
    }
    if Reaches(d, source, target) {
      ReachedAllVisited(d, visited, source, target);
      assert false;
    }
    found := false;
  }

  /**
   * The recursion of `mark_dirty_recursive` over the node vector: touch `n`
   * unless it is dirty or out of range, then recurse into the source of each
   * incoming edge in list order.
   */
  method MarkDirtyNodes(nodes: seq<Node>, edges: seq<Edge>, n: nat) returns (r: seq<Node>)
    ensures r == MarkDirtyFrom(nodes, edges, n)
    decreases |CleanSet(nodes)|
  {
    if n >= |nodes| || nodes[n].dirty {
      return nodes;
    }
    r := nodes[n := Touch(nodes[n])];
    assert CleanSet(r) == CleanSet(nodes) - {n};
    ProperSubsetSmaller(CleanSet(r), CleanSet(nodes));
    var incoming := r[n].incoming;
    var i := 0;
    while i < |incoming|
      invariant 0 <= i <= |incoming|
      invariant |CleanSet(r)| < |CleanSet(nodes)|
      invariant MarkParents(r, edges, incoming[i..]) == MarkDirtyFrom(nodes, edges, n)
    {
      assert incoming[i..][0] == incoming[i] && incoming[i..][1..] == incoming[i + 1..];
      if incoming[i] < |edges| {
        ghost var before := r;
        r := MarkDirtyNodes(r, edges, edges[incoming[i]].source);
        SubsetNotLarger(CleanSet(r), CleanSet(before));
      }
      i := i + 1;
    }
    assert incoming[i..] == [];
  }

  class Arena {
    var nodes: seq<Node>
    var edges: seq<Edge>
    var componentIndex: map<ComponentId, nat>
    var freeNodes: seq<nat>
    var freeEdges: seq<nat>

    /**
     * The adjacency lists agree with the edge vector, the index is a
     * bijection between ids and node slots, and the free lists are empty
     * (nothing in the kernel ever frees a slot).
     */
    ghost predicate Valid()
      reads this
    {
      && WellFormed(Data())
      && IndexConsistent(nodes, componentIndex)
      && |componentIndex| == |nodes|
      && freeNodes == []
      && freeEdges == []
    }

    function Data(): ArenaData
      reads this
    {
      ArenaData(nodes, edges)
    }

    constructor ()
      ensures Valid()
      ensures nodes == [] && edges == [] && componentIndex == map[]
    {
      nodes := [];
      edges := [];
      componentIndex := map[];
      freeNodes := [];
      freeEdges := [];
    }

    /** Returns the existing slot for `id`, or appends a fresh dirty node for it. */
    method AddNode(id: ComponentId) returns (idx: nat)
      requires Valid()
      modifies this
      ensures Valid()
      ensures idx < |nodes| && nodes[idx].componentId == id
      ensures edges == old(edges)
      ensures id in old(componentIndex) ==>
        idx == old(componentIndex)[id] && nodes == old(nodes) && componentIndex == old(componentIndex)
      ensures id !in old(componentIndex) ==>
        && idx == |old(nodes)|
        && nodes == old(nodes) + [Node(id, [], [], DefaultCache, true, 0)]
        && componentIndex == old(componentIndex)[id := idx]
    {
      if id in componentIndex {
        idx := componentIndex[id];
        return;
      }
      ghost var d0 := Data();
      assert WellFormed(d0);
      idx := |nodes|;
      nodes := nodes + [Node(id, [], [], DefaultCache, true, 0)];
      componentIndex := componentIndex[id := idx];
      assert OutgoingOk(Data(), idx) && IncomingOk(Data(), idx);
      forall n | 0 <= n < idx ensures OutgoingOk(Data(), n) && IncomingOk(Data(), n) {
        assert OutgoingOk(d0, n) && IncomingOk(d0, n);
      }
      forall k | 0 <= k < |edges| ensures EdgeLinked(Data(), k) {
        assert EdgeLinked(d0, k);
      }
    }

    /** The slot of `id`, if it has one. */
    function FindNode(id: ComponentId): (r: Option<nat>)
      requires Valid()
      reads this
      ensures r.Some? <==> exists n :: 0 <= n < |nodes| && nodes[n].componentId == id
      ensures r.Some? ==> r.value < |nodes| && nodes[r.value].componentId == id
    {
      if id in componentIndex then Some(componentIndex[id]) else None
    }

    /** Live nodes: every slot, since none is ever freed; one per distinct id. */
    function NodeCount(): (r: nat)
      requires Valid()
      reads this
      ensures r == |componentIndex|
    {
      |nodes| - |freeNodes|
    }

    /** Live edges: every slot of the edge vector. */
    function EdgeCount(): (r: nat)
      requires Valid()
      reads this
      ensures r == |edges|
    {
      |edges| - |freeEdges|
    }

    /**
     * Appends an edge `parent -> child` with the item's effective quantity,
     * records it on both endpoints and marks the parent dirty recursively.
     */
    method AddEdge(parent: nat, child: nat, item: BomItem) returns (e: nat)
      requires Valid() && parent < |nodes| && child < |nodes|
      modifies this
      ensures Valid()
      ensures e == |old(edges)|
      ensures edges == old(edges) + [Edge(parent, child, item, EffectiveQuantity(item))]
      ensures nodes == MarkDirtyFrom(LinkEdge(old(nodes), parent, child, e), edges, parent)
      ensures componentIndex == old(componentIndex)
      ensures forall a, b :: IsEdge(Data(), a, b) <==> IsEdge(old(Data()), a, b) || (a == parent && b == child)
      ensures |nodes| == |old(nodes)|
      ensures forall i :: 0 <= i < |nodes| ==> nodes[i].componentId == old(nodes)[i].componentId
      ensures forall i :: 0 <= i < |nodes| && old(nodes)[i].dirty ==> nodes[i].dirty
    {
      var eq := EffectiveQuantity(item);
      e := |edges|;
      ghost var d0 := Data();
      assert WellFormed(d0) && IndexConsistent(d0.nodes, componentIndex);
      edges := edges + [Edge(parent, child, item, eq)];
      nodes := LinkEdge(nodes, parent, child, e);
      LinkEdgeWellFormed(d0, parent, child, item);
      assert IndexConsistent(nodes, componentIndex);
      MarkDirtyRecursive(parent);
      AppendEdgeIsEdge(d0, Data());
    }

    /**
     * Marks `n` dirty and bumps its version, then recurses into the sources
     * of its incoming edges; stops at nodes that are already dirty and does
     * nothing for an index outside the arena.
     */
    method MarkDirtyRecursive(n: nat)
      requires Valid()
      modifies this
      ensures Valid()
      ensures nodes == MarkDirtyFrom(old(nodes), edges, n)
      ensures edges == old(edges) && componentIndex == old(componentIndex)
    {
      ghost var start := nodes;
      assert WellFormed(ArenaData(start, edges)) && IndexConsistent(start, componentIndex);
      nodes := MarkDirtyNodes(nodes, edges, n);
      OnlyTouchedShape(start, nodes);
      SameShapeValid(start);
    }

    /** Any node list of the same shape keeps the arena valid. */
    lemma SameShapeValid(other: seq<Node>)
      requires SameShape(nodes, other) && WellFormed(ArenaData(other, edges)) && IndexConsistent(other, componentIndex)
      requires |componentIndex| == |nodes| && freeNodes == [] && freeEdges == []
      ensures Valid()
    {
      SameShapeWellFormed(other, nodes, edges);
    }

    /** Clears every node's dirty flag; versions are kept. */
    method ClearDirtyFlags()
      requires Valid()
      modifies this
      ensures Valid()
      ensures |nodes| == |old(nodes)|
      ensures forall i :: 0 <= i < |nodes| ==> nodes[i] == old(nodes)[i].(dirty := false)
      ensures edges == old(edges) && componentIndex == old(componentIndex)
    {
      ghost var start := nodes;
      assert WellFormed(ArenaData(start, edges)) && IndexConsistent(start, componentIndex);
      var i := 0;
      while i < |nodes|
        invariant 0 <= i <= |nodes| == |start|
        invariant forall k :: 0 <= k < i ==> nodes[k] == start[k].(dirty := false)
        invariant forall k :: i <= k < |nodes| ==> nodes[k] == start[k]
        invariant edges == old(edges) && componentIndex == old(componentIndex)
        invariant freeNodes == [] && freeEdges == []
      {
        nodes := nodes[i := nodes[i].(dirty := false)];
        i := i + 1;
      }
      assert SameShape(start, nodes);
      SameShapeValid(start);
    }

    /**
     * Whether `target` is reachable from `source` (a node always reaches
     * itself); the search reads the two vectors and changes nothing.
     */
    method HasPath(source: nat, target: nat) returns (found: bool)
      requires Valid() && source < |nodes|
      ensures found <==> Reaches(Data(), source, target)
    {
      found := SearchPath(Data(), source, target);
    }
  }
}
