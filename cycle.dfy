/**
 * The cycle detector: a depth-first search that keeps a `visited` set and a
 * recursion stack, reports a back edge as a cycle, and the checks built on
 * it (`would_create_cycle`, `describe_cycle`, `validate_graph`).
 *
 * The proofs keep two ghost facts about the search. The recursion stack is
 * the current DFS path, so a back edge closes a cycle. Every finished node
 * (visited, off the stack) carries a rank, and each edge leaving a finished
 * node enters a finished node of smaller rank; when every node is finished
 * without a back edge, the ranks show the arena is acyclic.
 */
module Cycles {
  import opened Models
  import opened ArenaModel
  import opened Arenas
  import opened Strings

  /** The indices below `n`. */
  function IndicesBelow(n: nat): (r: set<nat>)
    ensures forall i: nat :: i in r <==> i < n
  {
    if n == 0 then {} else IndicesBelow(n - 1) + {n - 1}
  }

  /** The valid node indices. */
  function NodeRange(d: ArenaData): set<nat>
  {
    IndicesBelow(|d.nodes|)
  }

  /** Each edge leaving a finished node enters a finished node of smaller rank. */
  ghost predicate Ranked(d: ArenaData, finished: set<nat>, rank: map<nat, nat>, next: nat)
  {
    && (forall u :: u in finished ==> u in rank && rank[u] < next)
    && (forall e :: 0 <= e < |d.edges| && d.edges[e].source in finished ==>
          d.edges[e].target in finished && rank[d.edges[e].target] < rank[d.edges[e].source])
  }

  /** The recursion stack holds exactly the nodes of the current DFS path. */
  ghost predicate StackIsPath(d: ArenaData, path: seq<nat>, onStack: set<nat>)
  {
    && (forall i :: 0 <= i < |path| ==> path[i] < |d.nodes|)
    && (forall i :: 0 <= i < |path| - 1 ==> IsEdge(d, path[i], path[i + 1]))
    && (forall x :: x in onStack <==> x in path)
  }

  /** A reported cycle: a path whose last node has an edge back to its first. */
  ghost predicate IsReportedCycle(d: ArenaData, c: seq<nat>)
  {
    IsPath(d, c) && IsEdge(d, c[|c| - 1], c[0])
  }

  /** Closing a reported cycle with its first node gives a directed cycle. */
  lemma ReportedCycleIsCycle(d: ArenaData, c: seq<nat>)
    requires WellFormed(d) && IsReportedCycle(d, c)
    ensures IsCycle(d, c + [c[0]])
    ensures HasDirectedCycle(d)
  {
    var cc := c + [c[0]];
    assert forall i :: 0 <= i < |c| ==> cc[i] == c[i];
    IsEdgeInRange(d, c[|c| - 1], c[0]);
    assert IsCycle(d, cc);
  }

  /** A back edge to `path[k]` from the end of the DFS path: `path[k..]` is a reported cycle. */
  lemma BackEdgeCycle(d: ArenaData, path: seq<nat>, onStack: set<nat>, k: nat)
    requires WellFormed(d) && StackIsPath(d, path, onStack) && k < |path|
    requires IsEdge(d, path[|path| - 1], path[k])
    ensures IsReportedCycle(d, path[k..])
    ensures HasDirectedCycle(d)
  {
    var c := path[k..];
    assert forall i :: 0 <= i < |c| ==> c[i] == path[k + i];
    assert IsReportedCycle(d, c);
    ReportedCycleIsCycle(d, c);
  }

  /** When every node is finished and ranked, no path climbs back: the arena is acyclic. */
  lemma {:induction false} RankedIsAcyclic(d: ArenaData, finished: set<nat>, rank: map<nat, nat>, next: nat)
    requires WellFormed(d) && NodeRange(d) <= finished && Ranked(d, finished, rank, next)
    ensures Acyclic(d)
    ensures !HasDirectedCycle(d)
  {
    forall e | 0 <= e < |d.edges| ensures !Reaches(d, d.edges[e].target, d.edges[e].source) {
      assert d.edges[e].source in NodeRange(d);
      if Reaches(d, d.edges[e].target, d.edges[e].source) {
        var p :| IsPathFromTo(d, p, d.edges[e].target, d.edges[e].source);
        var i := 0;
        while i < |p| - 1
          invariant 0 <= i < |p| && p[i] in finished && rank[p[i]] <= rank[p[0]]
        {
          assert IsEdge(d, p[i], p[i + 1]);
          var f :| 0 <= f < |d.edges| && d.edges[f].source == p[i] && d.edges[f].target == p[i + 1];
          i := i + 1;
        }
        assert false;
      }
    }
    AcyclicIffNoCycle(d);
  }

  /**
   * `dfs_cycle`: visits `node`, pushes it on the recursion stack, and
   * explores its children in order; true as soon as some child is on the
   * stack (a back edge). On false, `node` is finished and the stack is as
   * before.
   */
  method DfsCycle(d: ArenaData, node: nat, visited: set<nat>, onStack: set<nat>,
                  ghost path: seq<nat>, ghost rank: map<nat, nat>, ghost next: nat)
    returns (found: bool, visited2: set<nat>, onStack2: set<nat>, ghost rank2: map<nat, nat>, ghost next2: nat)
    requires WellFormed(d) && node < |d.nodes| && node !in visited
    requires visited <= NodeRange(d) && onStack <= visited
    requires StackIsPath(d, path, onStack)
    requires path != [] ==> IsEdge(d, path[|path| - 1], node)
    requires Ranked(d, visited - onStack, rank, next)
    ensures found ==> HasDirectedCycle(d)
    ensures !found ==>
      && visited + {node} <= visited2 <= NodeRange(d)
      && onStack2 == onStack
      && Ranked(d, visited2 - onStack2, rank2, next2)
    decreases NodeRange(d) - visited, 1
  {
    ghost var path2 := path + [node];
    assert forall i :: 0 <= i < |path| ==> path2[i] == path[i];
    assert StackIsPath(d, path2, onStack + {node});
    assert (visited + {node}) - (onStack + {node}) == visited - onStack;
    assert (NodeRange(d) - (visited + {node})) + {node} == NodeRange(d) - visited;
    var kids := Children(d, node);
    found, visited2, onStack2, rank2, next2 := ExploreChildren(d, node, kids, visited + {node}, onStack + {node}, path2, rank, next);
    if found {
      return;
    }
    FinishNode(d, visited2, onStack, node, kids, rank2, next2);
    onStack2 := onStack2 - {node};
    rank2 := rank2[node := next2];
    next2 := next2 + 1;
  }

  /**
   * The loop of `dfs_cycle` over the children of `node`, which is on top of
   * the recursion stack: recurses into unvisited children and stops at the
   * first child on the stack. On false, every child is finished.
   */
  method ExploreChildren(d: ArenaData, node: nat, kids: seq<nat>, visited: set<nat>, onStack: set<nat>,
                         ghost path: seq<nat>, ghost rank: map<nat, nat>, ghost next: nat)
    returns (found: bool, visited2: set<nat>, onStack2: set<nat>, ghost rank2: map<nat, nat>, ghost next2: nat)
    requires WellFormed(d) && node < |d.nodes| && kids == Children(d, node)
    requires node in onStack && visited <= NodeRange(d) && onStack <= visited
    requires StackIsPath(d, path, onStack) && path != [] && path[|path| - 1] == node
    requires Ranked(d, visited - onStack, rank, next)
    ensures found ==> HasDirectedCycle(d)
    ensures !found ==>
      && visited <= visited2 <= NodeRange(d)
      && onStack2 == onStack
      && Ranked(d, visited2 - onStack2, rank2, next2)
      && forall k :: 0 <= k < |kids| ==> kids[k] in visited2 && kids[k] !in onStack2
    decreases (NodeRange(d) - visited) + {node}, 0
  {
    visited2, onStack2, rank2, next2 := visited, onStack, rank, next;
    var j := 0;
    while j < |kids|
      invariant 0 <= j <= |kids|
      invariant visited <= visited2 <= NodeRange(d)
      invariant onStack2 == onStack
      invariant Ranked(d, visited2 - onStack2, rank2, next2)
      invariant forall k :: 0 <= k < j ==> kids[k] in visited2 && kids[k] !in onStack2
    {
      var child := kids[j];
      assert IsEdge(d, node, child);
      IsEdgeInRange(d, node, child);
      ghost var seen := visited2;
      if child !in visited2 {
        assert NodeRange(d) - visited2 < (NodeRange(d) - visited) + {node};
        found, visited2, onStack2, rank2, next2 := DfsCycle(d, child, visited2, onStack2, path, rank2, next2);
        if found {
          return;
        }
      } else if child in onStack2 {
        ghost var k :| 0 <= k < |path| && path[k] == child;
        BackEdgeCycle(d, path, onStack2, k);
        return true, visited2, onStack2, rank2, next2;
      }
      assert seen <= visited2 && child in visited2 && child !in onStack2;
      j := j + 1;
    }
    found := false;
  }

  /** Finishing `node` after all its children are finished keeps the ranking. */
  lemma FinishNode(d: ArenaData, visited: set<nat>, onStack: set<nat>, node: nat, kids: seq<nat>,
                   rank: map<nat, nat>, next: nat)
    requires WellFormed(d) && node < |d.nodes| && node in visited && node !in onStack
    requires kids == Children(d, node)
    requires Ranked(d, visited - (onStack + {node}), rank, next)
    requires forall k :: 0 <= k < |kids| ==> kids[k] in visited && kids[k] !in onStack + {node}
    ensures Ranked(d, visited - onStack, rank[node := next], next + 1)
  {
    var before := visited - (onStack + {node});
    assert visited - onStack == before + {node};
    forall e | 0 <= e < |d.edges| && d.edges[e].source == node
      ensures d.edges[e].target in before
    {
      assert IsEdge(d, node, d.edges[e].target);
      assert d.edges[e].target in kids;
    }
  }

  /** `has_cycle`: a DFS from every unvisited node in index order; true iff the arena has a directed cycle. */
  method HasCycle(d: ArenaData) returns (found: bool)
    requires WellFormed(d)
    ensures found <==> HasDirectedCycle(d)
  {
    var visited: set<nat> := {};
    ghost var rank: map<nat, nat> := map[];
    ghost var next := 0;
    var idx := 0;
    while idx < |d.nodes|
      invariant idx <= |d.nodes|
      invariant visited <= NodeRange(d)
      invariant forall k: nat :: k < idx ==> k in visited
      invariant Ranked(d, visited, rank, next)
    {
      if idx !in visited {
        assert visited - {} == visited;
        var onStack;
        found, visited, onStack, rank, next := DfsCycle(d, idx, visited, {}, [], rank, next);
        if found {
          return;
        }
        assert visited - onStack == visited;
      }
      idx := idx + 1;
    }
    RankedIsAcyclic(d, visited, rank, next);
    found := false;
  }

  /** Index of the first occurrence of `x` in `s` (Rust's `position`). */
  function IndexOf(s: seq<nat>, x: nat): (r: nat)
    requires x in s
    ensures r < |s| && s[r] == x && forall i :: 0 <= i < r ==> s[i] != x
  {
    if s[0] == x then 0 else 1 + IndexOf(s[1..], x)
  }

  ghost predicate AllReported(d: ArenaData, cycles: seq<seq<nat>>)
  {
    forall k :: 0 <= k < |cycles| ==> IsReportedCycle(d, cycles[k])
  }

  lemma ReportedAppend(d: ArenaData, cycles: seq<seq<nat>>, c: seq<nat>)
    requires AllReported(d, cycles) && IsReportedCycle(d, c)
    ensures AllReported(d, cycles + [c])
  {
    assert forall k :: 0 <= k < |cycles| ==> (cycles + [c])[k] == cycles[k];
  }

  /**
   * `dfs_find_cycles`: the same search without stopping; each back edge to a
   * stack node `c` records the path from the first occurrence of `c`. While
   * nothing has been recorded the ranking of finished nodes is kept.
   */
  method DfsFindCycles(d: ArenaData, node: nat, visited: set<nat>, onStack: set<nat>, path: seq<nat>,
                       cycles: seq<seq<nat>>, ghost rank: map<nat, nat>, ghost next: nat)
    returns (visited2: set<nat>, onStack2: set<nat>, path2: seq<nat>, cycles2: seq<seq<nat>>,
             ghost rank2: map<nat, nat>, ghost next2: nat)
    requires WellFormed(d) && node < |d.nodes| && node !in visited
    requires visited <= NodeRange(d) && onStack <= visited
    requires StackIsPath(d, path, onStack)
    requires path != [] ==> IsEdge(d, path[|path| - 1], node)
    requires AllReported(d, cycles)
    requires cycles == [] ==> Ranked(d, visited - onStack, rank, next)
    ensures visited + {node} <= visited2 <= NodeRange(d)
    ensures onStack2 == onStack && path2 == path
    ensures AllReported(d, cycles2) && |cycles| <= |cycles2| && cycles2[..|cycles|] == cycles
    ensures cycles2 == [] ==> Ranked(d, visited2 - onStack2, rank2, next2)
    decreases NodeRange(d) - visited, 1
  {
    var pushed := path + [node];
    assert forall i :: 0 <= i < |path| ==> pushed[i] == path[i];
    assert StackIsPath(d, pushed, onStack + {node});
    assert (visited + {node}) - (onStack + {node}) == visited - onStack;
    assert (NodeRange(d) - (visited + {node})) + {node} == NodeRange(d) - visited;
    var kids := Children(d, node);
    visited2, onStack2, path2, cycles2, rank2, next2 :=
      FindChildCycles(d, node, kids, visited + {node}, onStack + {node}, pushed, cycles, rank, next);
    if cycles2 == [] {
      FinishNode(d, visited2, onStack, node, kids, rank2, next2);
    }
    path2 := path2[..|path2| - 1];
    assert path2 == path;
    onStack2 := onStack2 - {node};
    rank2 := rank2[node := next2];
    next2 := next2 + 1;
  }

  /**
   * The loop of `dfs_find_cycles` over the children of `node`, which ends
   * the current path: recurses into unvisited children and records the
   * path's suffix from each child found on the stack. With nothing recorded,
   * every child is finished.
   */
  method FindChildCycles(d: ArenaData, node: nat, kids: seq<nat>, visited: set<nat>, onStack: set<nat>,
                         path: seq<nat>, cycles: seq<seq<nat>>, ghost rank: map<nat, nat>, ghost next: nat)
    returns (visited2: set<nat>, onStack2: set<nat>, path2: seq<nat>, cycles2: seq<seq<nat>>,
             ghost rank2: map<nat, nat>, ghost next2: nat)
    requires WellFormed(d) && node < |d.nodes| && kids == Children(d, node)
    requires node in onStack && visited <= NodeRange(d) && onStack <= visited
    requires StackIsPath(d, path, onStack) && path != [] && path[|path| - 1] == node
    requires AllReported(d, cycles)
    requires cycles == [] ==> Ranked(d, visited - onStack, rank, next)
    ensures visited <= visited2 <= NodeRange(d)
    ensures onStack2 == onStack && path2 == path
    ensures AllReported(d, cycles2) && |cycles| <= |cycles2| && cycles2[..|cycles|] == cycles
    ensures cycles2 == [] ==> Ranked(d, visited2 - onStack2, rank2, next2)
    ensures cycles2 == [] ==> forall k :: 0 <= k < |kids| ==> kids[k] in visited2 && kids[k] !in onStack2
    decreases (NodeRange(d) - visited) + {node}, 0
  {
    visited2, onStack2, path2, cycles2, rank2, next2 := visited, onStack, path, cycles, rank, next;
    var j := 0;
    while j < |kids|
      invariant 0 <= j <= |kids|
      invariant visited <= visited2 <= NodeRange(d)
      invariant onStack2 == onStack && path2 == path
      invariant AllReported(d, cycles2) && |cycles| <= |cycles2| && cycles2[..|cycles|] == cycles
      invariant cycles2 == [] ==> Ranked(d, visited2 - onStack2, rank2, next2)
      invariant cycles2 == [] ==> forall k :: 0 <= k < j ==> kids[k] in visited2 && kids[k] !in onStack2
    {
      var child := kids[j];
      assert IsEdge(d, node, child);
      IsEdgeInRange(d, node, child);
      ghost var seen, found := visited2, cycles2;
      if child !in visited2 {
        assert NodeRange(d) - visited2 < (NodeRange(d) - visited) + {node};
        visited2, onStack2, path2, cycles2, rank2, next2 :=
          DfsFindCycles(d, child, visited2, onStack2, path2, cycles2, rank2, next2);
      } else if child in onStack2 {
        var start := IndexOf(path2, child);
        BackEdgeCycle(d, path2, onStack2, start);
        ReportedAppend(d, cycles2, path2[start..]);
        cycles2 := cycles2 + [path2[start..]];
      }
      assert seen <= visited2;
      assert cycles2[..|cycles|] == found[..|cycles|];
      j := j + 1;
    }
  }

  /**
   * `find_cycles`: runs the recording search from every unvisited node in
   * index order. Every result is a path closed by an edge back to its first
   * node, and the result is empty exactly when the arena is acyclic.
   */
  method FindCycles(d: ArenaData) returns (cycles: seq<seq<nat>>)
    requires WellFormed(d)
    ensures forall k :: 0 <= k < |cycles| ==> IsReportedCycle(d, cycles[k])
    ensures cycles != [] <==> HasDirectedCycle(d)
  {
    var visited: set<nat> := {};
    var onStack: set<nat> := {};
    var path: seq<nat> := [];
    cycles := [];
    ghost var rank: map<nat, nat> := map[];
    ghost var next := 0;
    var idx := 0;
    while idx < |d.nodes|
      invariant idx <= |d.nodes|
      invariant visited <= NodeRange(d) && onStack == {} && path == []
      invariant forall k: nat :: k < idx ==> k in visited
      invariant AllReported(d, cycles)
      invariant cycles == [] ==> Ranked(d, visited, rank, next)
    {
      if idx !in visited {
        assert visited - {} == visited;
        visited, onStack, path, cycles, rank, next := DfsFindCycles(d, idx, visited, onStack, path, cycles, rank, next);
        assert visited - onStack == visited;
      }
      idx := idx + 1;
    }
    if cycles == [] {
      RankedIsAcyclic(d, visited, rank, next);
    } else {
      ReportedCycleIsCycle(d, cycles[0]);
    }
  }

  /**
   * `would_create_cycle(from, to)`: whether `to` already reaches `from`, so
   * that an edge `from -> to` would close a cycle.
   */
  method WouldCreateCycle(d: ArenaData, from: nat, to: nat) returns (r: bool)
    requires WellFormed(d) && to < |d.nodes|
    ensures r <==> Reaches(d, to, from)
  {
    r := SearchPath(d, to, from);
  }

  /**
   * The meaning of `would_create_cycle` on an acyclic arena: appending the
   * edge `from -> to` keeps it acyclic exactly when the answer is false.
   */
  lemma WouldCreateCycleMeaning(d: ArenaData, d2: ArenaData, from: nat, to: nat, item: BomItem)
    requires WellFormed(d) && Acyclic(d) && from < |d.nodes| && to < |d.nodes|
    requires d2.nodes == d.nodes && d2.edges == d.edges + [Edge(from, to, item, EffectiveQuantity(item))]
    ensures Acyclic(d2) <==> !Reaches(d, to, from)
  {
    var e := |d.edges|;
    assert d2.edges[e].source == from && d2.edges[e].target == to;
    if Reaches(d, to, from) {
      var p :| IsPathFromTo(d, p, to, from);
      forall i | 0 <= i < |p| - 1 ensures IsEdge(d2, p[i], p[i + 1]) {
        assert IsEdge(d, p[i], p[i + 1]);
        var f :| 0 <= f < |d.edges| && d.edges[f].source == p[i] && d.edges[f].target == p[i + 1];
        assert d2.edges[f] == d.edges[f];
      }
      assert IsPathFromTo(d2, p, to, from);
    } else {
      AddEdgeKeepsAcyclic(d, d2);
    }
  }

  /** `describe_cycle`: the component ids of the listed nodes, dropping indices outside the arena. */
  function DescribeCycle(d: ArenaData, cycle: seq<nat>): (r: seq<ComponentId>)
    ensures |r| <= |cycle|
    ensures (forall k :: 0 <= k < |cycle| ==> cycle[k] < |d.nodes|) ==>
              |r| == |cycle| && forall k :: 0 <= k < |cycle| ==> r[k] == d.nodes[cycle[k]].componentId
    ensures forall id :: id in r ==> exists k :: 0 <= k < |cycle| && cycle[k] < |d.nodes| && d.nodes[cycle[k]].componentId == id
  {
    if cycle == [] then []
    else
      var rest := DescribeCycle(d, cycle[1..]);
      assert forall k :: 1 <= k < |cycle| ==> cycle[k] == cycle[1..][k - 1];
      if cycle[0] < |d.nodes| then [d.nodes[cycle[0]].componentId] + rest else rest
  }

  /** The message listing the cycles found, each as its ids joined by " -> ". */
  function CycleReport(d: ArenaData, cycles: seq<seq<nat>>): string
  {
    var described := seq(|cycles|, k requires 0 <= k < |cycles| => Join(DescribeCycle(d, cycles[k]), " -> "));
    "Found " + NatToString(|cycles|) + " cycle(s): " + Join(described, "; ")
  }

  /**
   * `validate_graph`: Ok when the arena is acyclic; otherwise a
   * `CircularDependency` whose message lists the cycles `find_cycles` reports.
   */
  method ValidateGraph(d: ArenaData) returns (r: Result<()>)
    requires WellFormed(d)
    ensures r.Ok? <==> !HasDirectedCycle(d)
    ensures r.Err? ==> exists cycles: seq<seq<nat>> ::
      && cycles != []
      && (forall k :: 0 <= k < |cycles| ==> IsReportedCycle(d, cycles[k]))
      && r.error == CircularDependency(CycleReport(d, cycles))
  {
    var cyclic := HasCycle(d);
    if cyclic {
      var cycles := FindCycles(d);
      return Err(CircularDependency(CycleReport(d, cycles)));
    }
    return Ok(());
  }
}
