/**
 * Traversals of the arena: Kahn's topological sort restricted to the nodes
 * reachable from a set of roots, the grouping of those nodes into height
 * levels, the enumeration of all simple paths between two nodes by
 * backtracking, and the depth-first / breadth-first / topological iterator.
 *
 * Hash-set and hash-map iteration orders are unspecified; the model picks an
 * arbitrary element (`:|`) wherever the program iterates over one, so every
 * stated property holds whatever order the hashing produces.
 */
module Traversals {
  import opened Models
  import opened ArenaModel
  import opened Arenas
  import opened Cycles
  import opened Seqs

  // ---------------------------------------------------------------------
  // Reachable set

  /** The roots and every node reachable from one of them (out-of-range roots included). */
  ghost predicate InClosure(d: ArenaData, roots: seq<nat>, v: nat)
  {
    v in roots || ReachableFrom(d, roots, v)
  }

  /** `stack` followed by the kids that are not in `seen`, in order. */
  method PushUnseen(stack: seq<nat>, kids: seq<nat>, seen: set<nat>) returns (r: seq<nat>)
    ensures r == stack + Filter(kids, x => x !in seen)
    ensures forall x :: x in r <==> x in stack || (x in kids && x !in seen)
  {
    ghost var keep := x => x !in seen;
    r := stack;
    var k := 0;
    while k < |kids|
      invariant 0 <= k <= |kids|
      invariant r == stack + Filter(kids[..k], keep)
    {
      var x := kids[k];
      assert kids[..k + 1] == kids[..k] + [x];
      FilterAppend(kids[..k], [x], keep);
      assert Filter([x], keep) == if x !in seen then [x] else [];
      if x !in seen {
        r := r + [x];
      }
      k := k + 1;
    }
    assert kids[..k] == kids;
  }

  /** Pushing the children of a node in the closure keeps everything pushed in the closure. */
  lemma ChildInClosure(d: ArenaData, roots: seq<nat>, node: nat, child: nat)
    requires WellFormed(d) && InClosure(d, roots, node) && IsEdge(d, node, child)
    ensures ReachableFrom(d, roots, child)
  {
    IsEdgeInRange(d, node, child);
    if node in roots {
      ReachesRefl(d, node);
      ReachesAppend(d, node, node, child);
    } else {
      var r :| r in roots && Reaches(d, r, node);
      ReachesAppend(d, r, node, child);
    }
  }

  /**
   * The first phase of `topological_sort`: a depth-first search from the
   * roots collecting every node it meets, roots included.
   */
  method ReachableSet(d: ArenaData, roots: seq<nat>) returns (reachable: set<nat>)
    requires WellFormed(d)
    ensures forall v :: v in reachable <==> InClosure(d, roots, v)
  {
    ghost var universe := (set x | x in roots) + NodeRange(d);
    reachable := {};
    var stack := roots;
    while stack != []
      invariant Collecting(d, roots, reachable, stack)
      invariant reachable <= universe
      decreases universe - reachable, |stack|
    {
      var node := stack[|stack| - 1];
      ghost var pending := stack;
      assert pending == stack[..|stack| - 1] + [node];
      stack := stack[..|stack| - 1];
      if node !in reachable {
        var kids := Children(d, node);
        var s2 := PushUnseen(stack, kids, reachable + {node});
        CollectStep(d, roots, reachable, pending, node, stack, s2);
        reachable := reachable + {node};
        stack := s2;
      }
    }
    forall v | InClosure(d, roots, v) ensures v in reachable {
      if v !in roots {
        var r :| r in roots && Reaches(d, r, v);
        ClosedHoldsReachable(d, reachable, r, v);
      }
    }
  }

  /**
   * The search's bookkeeping: everything collected or pending is in the
   * closure, and every root and every child of a collected node is
   * collected or pending.
   */
  ghost predicate Collecting(d: ArenaData, roots: seq<nat>, reachable: set<nat>, stack: seq<nat>)
  {
    && (forall v :: v in reachable || v in stack ==> InClosure(d, roots, v))
    && (forall v :: v in roots ==> v in reachable || v in stack)
    && (forall e :: 0 <= e < |d.edges| && d.edges[e].source in reachable ==>
          d.edges[e].target in reachable || d.edges[e].target in stack)
  }

  /** Collecting a popped node and pushing its uncollected children keeps the bookkeeping. */
  lemma CollectStep(d: ArenaData, roots: seq<nat>, reachable: set<nat>, pending: seq<nat>, node: nat,
                    rest: seq<nat>, pending2: seq<nat>)
    requires WellFormed(d) && Collecting(d, roots, reachable, pending)
    requires pending == rest + [node] && node !in reachable
    requires forall v :: v in pending2 <==> v in rest || (v in Children(d, node) && v !in reachable + {node})
    ensures Collecting(d, roots, reachable + {node}, pending2)
    ensures node in (set x | x in roots) + NodeRange(d)
  {
    if node !in roots {
      var r := ReachableRoot(d, roots, node);
      ReachesInRange(d, r, node);
    }
    forall c | c in Children(d, node) ensures InClosure(d, roots, c) {
      ChildInClosure(d, roots, node, c);
    }
    forall e | 0 <= e < |d.edges| && d.edges[e].source == node
      ensures d.edges[e].target in Children(d, node)
    {
      assert IsEdge(d, node, d.edges[e].target);
    }
  }

  /** A root from which `v` is reachable. */
  lemma ReachableRoot(d: ArenaData, roots: seq<nat>, v: nat) returns (r: nat)
    requires ReachableFrom(d, roots, v)
    ensures r in roots && Reaches(d, r, v)
  {
    r :| r in roots && Reaches(d, r, v);
  }

  // ---------------------------------------------------------------------
  // Kahn's algorithm

  /** Edges into `c` from a reachable node that are not yet retired. */
  ghost function Pending(d: ArenaData, reachable: set<nat>, retired: set<nat>, c: nat): set<nat>
  {
    set e | 0 <= e < |d.edges| && d.edges[e].target == c && d.edges[e].source in reachable && e !in retired
  }

  /** Edges leaving a node of `done`. */
  ghost function OutOf(d: ArenaData, done: set<nat>): set<nat>
  {
    set e | 0 <= e < |d.edges| && d.edges[e].source in done
  }

  /** The reachable nodes that are stored in the arena: the keys of the in-degree map. */
  ghost function StoredOf(d: ArenaData, reachable: set<nat>): set<nat>
  {
    set v | v in reachable && v < |d.nodes|
  }

  /** Parents come before children: every edge between listed nodes points forwards. */
  ghost predicate TopDown(d: ArenaData, s: seq<nat>)
  {
    forall i, j :: 0 <= i < |s| && 0 <= j < |s| && IsEdge(d, s[i], s[j]) ==> i < j
  }

  /** Children come before parents: every edge between listed nodes points backwards. */
  ghost predicate BottomUp(d: ArenaData, s: seq<nat>)
  {
    forall i, j :: 0 <= i < |s| && 0 <= j < |s| && IsEdge(d, s[j], s[i]) ==> i < j
  }

  /**
   * The bookkeeping of Kahn's algorithm: each stored reachable node's degree
   * counts its pending edges; emitted nodes have degree 0; the queue holds,
   * once each, exactly the unemitted nodes of degree 0.
   */
  ghost predicate KahnInv(d: ArenaData, reachable: set<nat>, indeg: map<nat, nat>, queue: seq<nat>,
                          done: set<nat>, retired: set<nat>)
  {
    && indeg.Keys == StoredOf(d, reachable)
    && (forall c :: c in indeg ==> indeg[c] == |Pending(d, reachable, retired, c)|)
    && (forall c :: c in done ==> c in indeg && indeg[c] == 0)
    && (forall k :: 0 <= k < |queue| ==> queue[k] in indeg && queue[k] !in done && indeg[queue[k]] == 0)
    && NoDuplicates(queue)
    && (forall c :: c in indeg && c !in done && indeg[c] == 0 ==> c in queue)
  }

  /**
   * The number of incoming edges of `n` whose source is reachable (the
   * filtered `count` over `incoming`).
   */
  method ReachableInDegree(d: ArenaData, reachable: set<nat>, n: nat) returns (deg: nat)
    requires WellFormed(d) && n < |d.nodes|
    ensures deg == |Pending(d, reachable, {}, n)|
  {
    var inc := d.nodes[n].incoming;
    assert IncomingOk(d, n);
    ghost var counted: set<nat> := {};
    deg := 0;
    var k := 0;
    while k < |inc|
      invariant 0 <= k <= |inc|
      invariant counted == set e | e in inc[..k] && d.edges[e].source in reachable
      invariant deg == |counted|
    {
      var e := inc[k];
      assert inc[..k + 1] == inc[..k] + [e];
      assert e !in inc[..k];
      if d.edges[e].source in reachable {
        counted := counted + {e};
        deg := deg + 1;
      }
      k := k + 1;
    }
    assert inc[..k] == inc;
    forall e | e in Pending(d, reachable, {}, n) ensures e in counted {
      assert EdgeLinked(d, e);
    }
    forall e | e in counted ensures e in Pending(d, reachable, {}, n) {
      var j :| 0 <= j < |inc| && inc[j] == e;
    }
    assert counted == Pending(d, reachable, {}, n);
  }

  /**
   * The in-degree pass of `topological_sort`: over the reachable set in an
   * arbitrary order, records each stored node's reachable in-degree and
   * queues the nodes of degree 0.
   */
  method InitialDegrees(d: ArenaData, reachable: set<nat>) returns (indeg: map<nat, nat>, queue: seq<nat>)
    requires WellFormed(d)
    ensures KahnInv(d, reachable, indeg, queue, {}, {})
  {
    indeg := map[];
    queue := [];
    var rest := reachable;
    while rest != {}
      invariant rest <= reachable
      invariant indeg.Keys == StoredOf(d, reachable - rest)
      invariant forall c :: c in indeg ==> indeg[c] == |Pending(d, reachable, {}, c)|
      invariant forall k :: 0 <= k < |queue| ==> queue[k] in indeg && indeg[queue[k]] == 0
      invariant NoDuplicates(queue)
      invariant forall c :: c in indeg && indeg[c] == 0 ==> c in queue
    {
      var n :| n in rest;
      rest := rest - {n};
      if n < |d.nodes| {
        var deg := ReachableInDegree(d, reachable, n);
        indeg := indeg[n := deg];
        if deg == 0 {
          queue := queue + [n];
        }
      }
    }
    assert reachable - rest == reachable;
  }

  /**
   * The inner loop of Kahn's algorithm for the node `n` just emitted: each
   * outgoing edge to a stored reachable child retires one pending edge of
   * that child, and a child whose degree reaches 0 joins the queue.
   */
  method ReleaseChildren(d: ArenaData, reachable: set<nat>, n: nat, indeg: map<nat, nat>, queue: seq<nat>,
                         ghost done: set<nat>)
    returns (indeg2: map<nat, nat>, queue2: seq<nat>)
    requires WellFormed(d) && n < |d.nodes| && n in reachable && n in done
    requires KahnInv(d, reachable, indeg, queue, done, OutOf(d, done - {n}))
    ensures KahnInv(d, reachable, indeg2, queue2, done, OutOf(d, done))
    ensures forall x :: x in queue ==> x in queue2
  {
    var kids := Children(d, n);
    ghost var out := d.nodes[n].outgoing;
    assert OutgoingOk(d, n);
    assert kids == Targets(d.edges, out);
    ghost var retired := OutOf(d, done - {n});
    indeg2, queue2 := indeg, queue;
    var k := 0;
    while k < |kids|
      invariant 0 <= k <= |kids| == |out|
      invariant retired == OutOf(d, done - {n}) + Elems(out[..k])
      invariant KahnInv(d, reachable, indeg2, queue2, done, retired)
      invariant queue <= queue2
    {
      var child := kids[k];
      ghost var e := out[k];
      RetiredStep(OutOf(d, done - {n}), out, k);
      OutEdgeFresh(d, done, n, out, k, retired);
      indeg2, queue2 := ReleaseEdge(d, reachable, indeg2, queue2, done, retired, e, child);
      retired := retired + {e};
      k := k + 1;
    }
    assert out[..k] == out;
    OutOfStep(d, done, n, out);
  }

  /**
   * Retires one edge `e` out of an emitted node: a stored reachable `child`
   * loses one unit of in-degree and joins the queue when it reaches 0.
   */
  method ReleaseEdge(d: ArenaData, reachable: set<nat>, indeg: map<nat, nat>, queue: seq<nat>,
                     ghost done: set<nat>, ghost retired: set<nat>, ghost e: nat, child: nat)
    returns (indeg2: map<nat, nat>, queue2: seq<nat>)
    requires KahnInv(d, reachable, indeg, queue, done, retired)
    requires e < |d.edges| && d.edges[e].source in reachable && e !in retired && d.edges[e].target == child
    ensures KahnInv(d, reachable, indeg2, queue2, done, retired + {e})
    ensures queue <= queue2
  {
    indeg2, queue2 := indeg, queue;
    if child in reachable && child in indeg {
      DecrementKeeps(d, reachable, indeg, queue, done, retired, e);
      indeg2 := indeg[child := indeg[child] - 1];
      if indeg2[child] == 0 {
        queue2 := queue + [child];
      }
    } else {
      SkipKeeps(d, reachable, indeg, queue, done, retired, e);
    }
  }

  /**
   * Retiring the edge `e` of an emitted node into a stored reachable child:
   * the child's degree is positive, and decrementing it (queueing the child
   * when it reaches 0) keeps the bookkeeping.
   */
  lemma DecrementKeeps(d: ArenaData, reachable: set<nat>, indeg: map<nat, nat>, queue: seq<nat>,
                       done: set<nat>, retired: set<nat>, e: nat)
    requires KahnInv(d, reachable, indeg, queue, done, retired)
    requires e < |d.edges| && d.edges[e].source in reachable && e !in retired && d.edges[e].target in indeg
    ensures indeg[d.edges[e].target] > 0
    ensures
      var c := d.edges[e].target;
      var indeg2 := indeg[c := indeg[c] - 1];
      KahnInv(d, reachable, indeg2, if indeg2[c] == 0 then queue + [c] else queue, done, retired + {e})
  {
    var c := d.edges[e].target;
    RetireOne(d, reachable, retired, e);
    assert |Pending(d, reachable, retired, c)| > 0;
    var indeg2 := indeg[c := indeg[c] - 1];
    var queue2 := if indeg2[c] == 0 then queue + [c] else queue;
    assert c !in done;
    assert forall k :: 0 <= k < |queue| ==> queue[k] != c;
    forall x | x in indeg2 ensures indeg2[x] == |Pending(d, reachable, retired + {e}, x)| {
      if x != c {
        assert Pending(d, reachable, retired + {e}, x) == Pending(d, reachable, retired, x);
      }
    }
    forall k | 0 <= k < |queue2| ensures queue2[k] in indeg2 && queue2[k] !in done && indeg2[queue2[k]] == 0 {
      if k < |queue| {
        assert queue2[k] == queue[k];
      }
    }
    forall x | x in indeg2 && x !in done && indeg2[x] == 0 ensures x in queue2 {
      if x != c {
        assert x in queue;
      }
    }
  }

  /** Retiring a pending edge drops exactly that edge from its target's pending set. */
  lemma RetireOne(d: ArenaData, reachable: set<nat>, retired: set<nat>, e: nat)
    requires e < |d.edges| && d.edges[e].source in reachable && e !in retired
    ensures Pending(d, reachable, retired + {e}, d.edges[e].target) == Pending(d, reachable, retired, d.edges[e].target) - {e}
    ensures e in Pending(d, reachable, retired, d.edges[e].target)
    ensures forall c :: c != d.edges[e].target ==> Pending(d, reachable, retired + {e}, c) == Pending(d, reachable, retired, c)
  {
  }

  /** Retiring an edge whose target has no degree entry keeps the bookkeeping unchanged. */
  lemma SkipKeeps(d: ArenaData, reachable: set<nat>, indeg: map<nat, nat>, queue: seq<nat>,
                  done: set<nat>, retired: set<nat>, e: nat)
    requires KahnInv(d, reachable, indeg, queue, done, retired)
    requires e < |d.edges| && !(d.edges[e].target in reachable && d.edges[e].target in indeg)
    ensures KahnInv(d, reachable, indeg, queue, done, retired + {e})
  {
    forall c | c in indeg ensures Pending(d, reachable, retired + {e}, c) == Pending(d, reachable, retired, c) {
    }
  }

  /** The `k`-th outgoing edge of `n` leaves `n` and has not been retired yet. */
  lemma OutEdgeFresh(d: ArenaData, done: set<nat>, n: nat, out: seq<nat>, k: nat, retired: set<nat>)
    requires WellFormed(d) && n < |d.nodes| && out == d.nodes[n].outgoing && k < |out|
    requires retired == OutOf(d, done - {n}) + Elems(out[..k])
    ensures out[k] < |d.edges| && d.edges[out[k]].source == n && out[k] !in retired
  {
    assert OutgoingOk(d, n);
  }

  /** Retiring the `k`-th outgoing edge extends the retired prefix by one. */
  lemma RetiredStep(base: set<nat>, out: seq<nat>, k: nat)
    requires k < |out|
    ensures base + Elems(out[..k + 1]) == (base + Elems(out[..k])) + {out[k]}
  {
    assert out[..k + 1] == out[..k] + [out[k]];
  }

  /** The set of the entries of `s`. */
  function Elems(s: seq<nat>): (r: set<nat>)
    ensures forall x :: x in r <==> x in s
  {
    set x | x in s
  }

  /** All outgoing edges of `n` retired: the retired set is the out-edges of `done`. */
  lemma OutOfStep(d: ArenaData, done: set<nat>, n: nat, out: seq<nat>)
    requires WellFormed(d) && n < |d.nodes| && n in done && out == d.nodes[n].outgoing
    ensures OutOf(d, done - {n}) + Elems(out) == OutOf(d, done)
  {
    assert OutgoingOk(d, n);
    forall e | e in OutOf(d, done) && d.edges[e].source == n ensures e in out {
      assert EdgeLinked(d, e);
    }
  }

  /** Taking the head of the queue as the next emitted node keeps the bookkeeping. */
  lemma PopKeeps(d: ArenaData, reachable: set<nat>, indeg: map<nat, nat>, queue: seq<nat>,
                 done: set<nat>, retired: set<nat>)
    requires KahnInv(d, reachable, indeg, queue, done, retired) && queue != []
    ensures KahnInv(d, reachable, indeg, queue[1..], done + {queue[0]}, retired)
  {
    forall k | 0 <= k < |queue[1..]| ensures queue[1..][k] != queue[0] {
      assert queue[1..][k] == queue[k + 1];
    }
  }

  /**
   * A node of degree 0 that is not yet emitted has no edge to itself or to
   * an emitted node: every reachable edge into those nodes is retired, and
   * retired edges leave emitted nodes.
   */
  lemma NoEdgeBack(d: ArenaData, reachable: set<nat>, indeg: map<nat, nat>, queue: seq<nat>,
                   done: set<nat>, q: nat, c: nat)
    requires KahnInv(d, reachable, indeg, queue, done, OutOf(d, done))
    requires q in indeg && q !in done && (c in done || (c == q && indeg[q] == 0))
    ensures !IsEdge(d, q, c)
  {
    assert Pending(d, reachable, OutOf(d, done), c) == {};
    forall e | 0 <= e < |d.edges| && d.edges[e].target == c && d.edges[e].source in reachable
      ensures d.edges[e].source in done
    {
      assert e !in Pending(d, reachable, OutOf(d, done), c);
    }
  }

  /**
   * In an acyclic arena every nonempty set of nodes holds a node with no
   * parent inside the set (found by climbing to parents, which have fewer
   * ancestors).
   */
  lemma SourceInSet(d: ArenaData, s: set<nat>, c0: nat) returns (c: nat)
    requires WellFormed(d) && Acyclic(d) && c0 in s
    ensures c in s && forall e :: 0 <= e < |d.edges| && d.edges[e].target == c ==> d.edges[e].source !in s
    decreases |Anc(d, c0)|
  {
    if e :| 0 <= e < |d.edges| && d.edges[e].target == c0 && d.edges[e].source in s {
      AncShrinks(d, e);
      c := SourceInSet(d, s, d.edges[e].source);
    } else {
      c := c0;
    }
  }

  /**
   * Kahn's algorithm stalls (empty queue) only once every stored reachable
   * node is emitted, provided the arena is acyclic.
   */
  lemma KahnComplete(d: ArenaData, reachable: set<nat>, indeg: map<nat, nat>, done: set<nat>)
    requires WellFormed(d) && Acyclic(d)
    requires KahnInv(d, reachable, indeg, [], done, OutOf(d, done))
    ensures StoredOf(d, reachable) <= done
  {
    var rest := StoredOf(d, reachable) - done;
    forall v | v in StoredOf(d, reachable) ensures v in done {
      if v !in done {
        var c := SourceInSet(d, rest, v);
        assert false;
      }
    }
  }

  /**
   * The main loop of Kahn's algorithm: repeatedly emit the head of the
   * queue and release its children. The emitted sequence lists parents
   * before children, and in an acyclic arena it covers every stored
   * reachable node.
   */
  method KahnLoop(d: ArenaData, reachable: set<nat>, indeg0: map<nat, nat>, queue0: seq<nat>)
    returns (result: seq<nat>)
    requires WellFormed(d) && KahnInv(d, reachable, indeg0, queue0, {}, {})
    ensures NoDuplicates(result) && TopDown(d, result)
    ensures forall v :: v in result ==> v in StoredOf(d, reachable)
    ensures Acyclic(d) ==> forall v :: v in StoredOf(d, reachable) ==> v in result
  {
    var indeg, queue := indeg0, queue0;
    ghost var done: set<nat> := {};
    assert OutOf(d, {}) == {};
    result := [];
    while queue != []
      invariant KahnInv(d, reachable, indeg, queue, done, OutOf(d, done))
      invariant forall v :: v in result <==> v in done
      invariant NoDuplicates(result) && TopDown(d, result)
      decreases |StoredOf(d, reachable) - done|
    {
      var q := queue[0];
      forall i | 0 <= i < |result| ensures !IsEdge(d, q, result[i]) {
        NoEdgeBack(d, reachable, indeg, queue, done, q, result[i]);
      }
      NoEdgeBack(d, reachable, indeg, queue, done, q, q);
      AppendKeepsOrder(d, result, q);
      PopKeeps(d, reachable, indeg, queue, done, OutOf(d, done));
      ProperSubsetSmaller(StoredOf(d, reachable) - (done + {q}), StoredOf(d, reachable) - done);
      queue := queue[1..];
      result := result + [q];
      done := done + {q};
      assert done - {q} == done - {q};
      indeg, queue := ReleaseChildren(d, reachable, q, indeg, queue, done);
    }
    if Acyclic(d) {
      KahnComplete(d, reachable, indeg, done);
    }
  }

  /** Emitting a new node with no edge back into the emitted prefix keeps it ordered. */
  lemma AppendKeepsOrder(d: ArenaData, result: seq<nat>, q: nat)
    requires NoDuplicates(result) && TopDown(d, result) && q !in result
    requires !IsEdge(d, q, q) && forall i :: 0 <= i < |result| ==> !IsEdge(d, q, result[i])
    ensures NoDuplicates(result + [q]) && TopDown(d, result + [q])
  {
    var r := result + [q];
    assert forall j :: 0 <= j < |result| ==> r[j] == result[j];
    assert r[|result|] == q;
  }

  /** `s` back to front (Rust's in-place `reverse`). */
  function Reversed(s: seq<nat>): (r: seq<nat>)
    ensures |r| == |s| && forall i :: 0 <= i < |s| ==> r[i] == s[|s| - 1 - i]
  {
    if s == [] then [] else Reversed(s[1..]) + [s[0]]
  }

  /**
   * `topological_sort`: the nodes reachable from `roots` (stored ones only),
   * each once, children before parents. In an acyclic arena every reachable
   * node is listed.
   */
  method TopologicalSort(d: ArenaData, roots: seq<nat>) returns (order: seq<nat>)
    requires WellFormed(d)
    ensures NoDuplicates(order) && BottomUp(d, order)
    ensures forall v :: v in order ==> v < |d.nodes| && InClosure(d, roots, v)
    ensures Acyclic(d) ==> forall v: nat :: v < |d.nodes| && InClosure(d, roots, v) ==> v in order
  {
    var reachable := ReachableSet(d, roots);
    var indeg, queue := InitialDegrees(d, reachable);
    var topDown := KahnLoop(d, reachable, indeg, queue);
    order := Reversed(topDown);
    forall v | v in order ensures v in topDown {
      var i :| 0 <= i < |order| && order[i] == v;
    }
    forall v | v in topDown ensures v in order {
      var i :| 0 <= i < |topDown| && topDown[i] == v;
      assert order[|topDown| - 1 - i] == v;
    }
  }

  // ---------------------------------------------------------------------
  // Level grouping

  /** The largest recorded level among `kids` (the `filter_map(...).max()` of `level_grouping`). */
  function MaxKnownLevel(kids: seq<nat>, levels: map<nat, nat>): (r: Option<nat>)
    ensures r.None? <==> forall k :: 0 <= k < |kids| ==> kids[k] !in levels
    ensures r.Some? ==> forall k :: 0 <= k < |kids| && kids[k] in levels ==> levels[kids[k]] <= r.value
    ensures r.Some? ==> exists k :: 0 <= k < |kids| && kids[k] in levels && levels[kids[k]] == r.value
  {
    if kids == [] then None
    else
      var rest := MaxKnownLevel(kids[1..], levels);
      assert forall k :: 1 <= k < |kids| ==> kids[k] == kids[1..][k - 1];
      if kids[0] !in levels then rest
      else if rest.None? then Some(levels[kids[0]])
      else Some(Max(levels[kids[0]], rest.value))
  }

  /** One level above the highest known child, 0 when no child is known. */
  function LevelAbove(m: Option<nat>): nat
  {
    if m.None? then 0 else m.value + 1
  }

  /**
   * When every child's recorded level is its height, the level computed for
   * `n` is the height of `n`.
   */
  lemma {:induction false} KnownLevelIsHeight(d: ArenaData, n: nat, es: seq<nat>, levels: map<nat, nat>)
    requires WellFormed(d) && Acyclic(d) && n < |d.nodes|
    requires forall k :: 0 <= k < |es| ==> es[k] < |d.edges| && d.edges[es[k]].source == n
    requires forall k :: 0 <= k < |es| ==>
               d.edges[es[k]].target in levels && levels[d.edges[es[k]].target] == Height(d, d.edges[es[k]].target)
    ensures LevelAbove(MaxKnownLevel(Targets(d.edges, es), levels)) == HeightOver(d, n, es)
    decreases |es|
  {
    if es != [] {
      KnownLevelIsHeight(d, n, es[1..], levels);
      assert Targets(d.edges, es) == [d.edges[es[0]].target] + Targets(d.edges, es[1..]);
      assert Targets(d.edges, es)[1..] == Targets(d.edges, es[1..]);
    }
  }

  /**
   * The first pass of `level_grouping`: over the bottom-up order, each node's
   * level is one above its highest already-levelled child. In an acyclic
   * arena that is the node's height.
   */
  method AssignLevels(d: ArenaData, topo: seq<nat>) returns (levels: map<nat, nat>, maxLevel: nat)
    requires WellFormed(d) && NoDuplicates(topo) && BottomUp(d, topo)
    requires forall v :: v in topo ==> v < |d.nodes|
    requires Acyclic(d) ==> forall k, c :: 0 <= k < |topo| && IsEdge(d, topo[k], c) ==> c in topo
    ensures forall v :: v in levels <==> v in topo
    ensures forall v :: v in levels ==> levels[v] <= maxLevel
    ensures topo != [] ==> exists v :: v in levels && levels[v] == maxLevel
    ensures topo == [] ==> maxLevel == 0
    ensures Acyclic(d) ==> forall v :: v in levels ==> v < |d.nodes| && levels[v] == Height(d, v)
  {
    levels, maxLevel := map[], 0;
    var i := 0;
    while i < |topo|
      invariant 0 <= i <= |topo|
      invariant forall v :: v in levels <==> v in topo[..i]
      invariant TopLevel(levels, maxLevel) && (i == 0 ==> maxLevel == 0) && (i > 0 ==> levels != map[])
      invariant Acyclic(d) ==> LevelsAreHeights(d, levels)
    {
      var node := topo[i];
      var level := LevelAbove(MaxKnownLevel(Children(d, node), levels));
      LevelStep(d, topo, i, levels, maxLevel, level);
      levels := levels[node := level];
      maxLevel := Max(maxLevel, level);
      i := i + 1;
    }
    assert topo[..i] == topo;
  }

  /** One step of `AssignLevels` keeps its invariant. */
  lemma LevelStep(d: ArenaData, topo: seq<nat>, i: nat, levels: map<nat, nat>, m: nat, level: nat)
    requires WellFormed(d) && NoDuplicates(topo) && BottomUp(d, topo) && i < |topo|
    requires forall v :: v in topo ==> v < |d.nodes|
    requires Acyclic(d) ==> forall k, c :: 0 <= k < |topo| && IsEdge(d, topo[k], c) ==> c in topo
    requires forall v :: v in levels <==> v in topo[..i]
    requires TopLevel(levels, m) && (i == 0 ==> m == 0)
    requires Acyclic(d) ==> LevelsAreHeights(d, levels)
    requires level == LevelAbove(MaxKnownLevel(Children(d, topo[i]), levels))
    ensures forall v :: v in topo[..i + 1] <==> v in levels || v == topo[i]
    ensures TopLevel(levels[topo[i] := level], Max(m, level))
    ensures Acyclic(d) ==> LevelsAreHeights(d, levels[topo[i] := level])
  {
    var node := topo[i];
    assert node in topo;
    if Acyclic(d) {
      NextLevelIsHeight(d, topo, i, levels);
      RecordHeight(d, levels, node, level);
    }
    assert topo[..i + 1] == topo[..i] + [node];
    assert node !in topo[..i];
    if i > 0 {
      assert topo[0] in topo[..i];
    }
    RecordLevel(levels, m, node, level);
  }

  /** `m` is the greatest level recorded (0 when none is). */
  ghost predicate TopLevel(levels: map<nat, nat>, m: nat)
  {
    && (forall v :: v in levels ==> levels[v] <= m)
    && (levels != map[] ==> exists v :: v in levels && levels[v] == m)
  }

  /** Every recorded level is the node's height. */
  ghost predicate LevelsAreHeights(d: ArenaData, levels: map<nat, nat>)
    requires WellFormed(d) && Acyclic(d)
  {
    forall v :: v in levels ==> v < |d.nodes| && levels[v] == Height(d, v)
  }

  /** Recording a node's height keeps every recorded level a height. */
  lemma RecordHeight(d: ArenaData, levels: map<nat, nat>, node: nat, level: nat)
    requires WellFormed(d) && Acyclic(d) && LevelsAreHeights(d, levels)
    requires node < |d.nodes| && level == Height(d, node)
    ensures LevelsAreHeights(d, levels[node := level])
  {
  }

  /** Recording one more level keeps the running maximum. */
  lemma RecordLevel(levels: map<nat, nat>, m: nat, node: nat, level: nat)
    requires TopLevel(levels, m) && (levels == map[] ==> m == 0) && node !in levels
    ensures TopLevel(levels[node := level], Max(m, level))
  {
    var l2 := levels[node := level];
    if level < m {
      var v :| v in levels && levels[v] == m;
      assert v != node;
      assert v in l2 && l2[v] == m;
    } else {
      assert node in l2 && l2[node] == Max(m, level);
    }
  }

  /** In bottom-up order, the level computed for the `i`-th node is its height. */
  lemma NextLevelIsHeight(d: ArenaData, topo: seq<nat>, i: nat, levels: map<nat, nat>)
    requires WellFormed(d) && Acyclic(d) && NoDuplicates(topo) && BottomUp(d, topo) && i < |topo|
    requires topo[i] < |d.nodes|
    requires forall k, c :: 0 <= k < |topo| && IsEdge(d, topo[k], c) ==> c in topo
    requires forall v :: v in levels <==> v in topo[..i]
    requires LevelsAreHeights(d, levels)
    ensures LevelAbove(MaxKnownLevel(Children(d, topo[i]), levels)) == Height(d, topo[i])
  {
    var n := topo[i];
    ChildrenLevelled(d, topo, i, levels);
    assert OutgoingOk(d, n);
    KnownLevelIsHeight(d, n, d.nodes[n].outgoing, levels);
  }

  /** In bottom-up order, the children of the `i`-th node are all levelled before it. */
  lemma ChildrenLevelled(d: ArenaData, topo: seq<nat>, i: nat, levels: map<nat, nat>)
    requires WellFormed(d) && Acyclic(d) && NoDuplicates(topo) && BottomUp(d, topo) && i < |topo|
    requires topo[i] < |d.nodes|
    requires forall k, c :: 0 <= k < |topo| && IsEdge(d, topo[k], c) ==> c in topo
    requires forall v :: v in levels <==> v in topo[..i]
    requires forall v :: v in levels ==> v < |d.nodes| && levels[v] == Height(d, v)
    ensures forall k :: 0 <= k < |d.nodes[topo[i]].outgoing| ==>
              var e := d.nodes[topo[i]].outgoing[k];
              e < |d.edges| && d.edges[e].target in levels && levels[d.edges[e].target] == Height(d, d.edges[e].target)
  {
    var n := topo[i];
    assert OutgoingOk(d, n);
    forall k | 0 <= k < |d.nodes[n].outgoing|
      ensures d.edges[d.nodes[n].outgoing[k]].target in levels
    {
      var c := d.edges[d.nodes[n].outgoing[k]].target;
      assert IsEdge(d, topo[i], c);
      assert c in topo;
      var j :| 0 <= j < |topo| && topo[j] == c;
      assert topo[..i][j] == c;
    }
  }

  /**
   * The second pass of `level_grouping`: one bucket per level `0..=maxLevel`,
   * each node pushed into the bucket of its level, in an arbitrary order.
   */
  method GroupByLevel(levels: map<nat, nat>, maxLevel: nat) returns (groups: seq<seq<nat>>)
    requires forall v :: v in levels ==> levels[v] <= maxLevel
    ensures |groups| == maxLevel + 1
    ensures forall g :: 0 <= g < |groups| ==> forall v :: v in groups[g] ==> v in levels && levels[v] == g
    ensures forall v :: v in levels ==> v in groups[levels[v]]
    ensures forall g :: 0 <= g < |groups| ==> NoDuplicates(groups[g])
  {
    groups := seq(maxLevel + 1, _ => []);
    var rest := levels.Keys;
    while rest != {}
      invariant rest <= levels.Keys && |groups| == maxLevel + 1
      invariant forall g :: 0 <= g < |groups| ==> forall v :: v in groups[g] ==> v in levels && v !in rest && levels[v] == g
      invariant forall v :: v in levels && v !in rest ==> v in groups[levels[v]]
      invariant forall g :: 0 <= g < |groups| ==> NoDuplicates(groups[g])
    {
      var n :| n in rest;
      rest := rest - {n};
      var g := levels[n];
      groups := groups[g := groups[g] + [n]];
    }
  }

  /** The root reaches a node exactly when the node is in the closure of `[root]`. */
  lemma ClosureOfRoot(d: ArenaData, root: nat, v: nat)
    requires root < |d.nodes|
    ensures InClosure(d, [root], v) <==> Reaches(d, root, v)
  {
    ReachesRefl(d, root);
    if ReachableFrom(d, [root], v) {
      var r :| r in [root] && Reaches(d, r, v);
    }
    if Reaches(d, root, v) {
      assert root in [root];
    }
  }

  /**
   * `level_grouping`: the reachable nodes bucketed by level, leaves at 0.
   * In an acyclic arena each reachable node sits in exactly the bucket of
   * its height, and the last bucket is the greatest height present.
   */
  method LevelGrouping(d: ArenaData, roots: seq<nat>) returns (groups: seq<seq<nat>>)
    requires WellFormed(d)
    ensures |groups| >= 1 && forall g :: 0 <= g < |groups| ==> NoDuplicates(groups[g])
    ensures forall g :: 0 <= g < |groups| ==> forall v :: v in groups[g] ==> v < |d.nodes| && InClosure(d, roots, v)
    ensures forall g, h :: 0 <= g < h < |groups| ==> forall v :: v in groups[g] ==> v !in groups[h]
    ensures Acyclic(d) ==> forall g :: 0 <= g < |groups| ==> forall v :: v in groups[g] ==> v < |d.nodes| && Height(d, v) == g
    ensures Acyclic(d) ==> forall v: nat :: v < |d.nodes| && InClosure(d, roots, v) ==>
              Height(d, v) < |groups| && v in groups[Height(d, v)]
    ensures |groups| > 1 ==> groups[|groups| - 1] != []
  {
    var topo := TopologicalSort(d, roots);
    if Acyclic(d) {
      forall k, c | 0 <= k < |topo| && IsEdge(d, topo[k], c) ensures c in topo {
        IsEdgeInRange(d, topo[k], c);
        ChildInClosure(d, roots, topo[k], c);
      }
    }
    var levels, maxLevel := AssignLevels(d, topo);
    groups := GroupByLevel(levels, maxLevel);
  }

  // ---------------------------------------------------------------------
  // All paths between two nodes

  /**
   * `q` runs along edges to `t` without repeating a node and without
   * touching `visited`. A single node counts as a path even when it is not
   * stored, as `find_all_paths(x, x)` returns `[[x]]` for any `x`.
   */
  ghost predicate AvoidingPath(d: ArenaData, visited: set<nat>, q: seq<nat>, t: nat)
  {
    && |q| >= 1 && q[|q| - 1] == t
    && NoDuplicates(q)
    && (forall i :: 0 <= i < |q| ==> q[i] !in visited)
    && (forall i :: 0 <= i < |q| - 1 ==> IsEdge(d, q[i], q[i + 1]))
  }

  /** A simple path from `s` to `t`. */
  ghost predicate IsSimplePath(d: ArenaData, p: seq<nat>, s: nat, t: nat)
  {
    AvoidingPath(d, {}, p, t) && p[0] == s
  }

  /** `p` is `prefix` followed by an avoiding path from `current` to `t`. */
  ghost predicate Extends(d: ArenaData, prefix: seq<nat>, visited: set<nat>, current: nat, t: nat, p: seq<nat>)
  {
    && |prefix| < |p| && p[..|prefix|] == prefix && p[|prefix|] == current
    && AvoidingPath(d, visited, p[|prefix|..], t)
  }

  /** `p` extends `prefix` through one of the first `k` kids not in `visited`. */
  ghost predicate ViaKid(d: ArenaData, prefix: seq<nat>, visited: set<nat>, kids: seq<nat>, k: nat, t: nat, p: seq<nat>)
    requires k <= |kids|
  {
    exists j :: 0 <= j < k && kids[j] !in visited && Extends(d, prefix, visited, kids[j], t, p)
  }

  /** At the target the only extension is the target itself. */
  lemma ExtendsAtTarget(d: ArenaData, prefix: seq<nat>, visited: set<nat>, t: nat, p: seq<nat>)
    requires t !in visited
    ensures Extends(d, prefix, visited, t, t, p) <==> p == prefix + [t]
  {
    if Extends(d, prefix, visited, t, t, p) {
      var q := p[|prefix|..];
      assert q[0] == q[|q| - 1];
      assert |q| == 1;
      assert p == p[..|prefix|] + q;
    }
    if p == prefix + [t] {
      assert p[|prefix|..] == [t];
    }
  }

  /**
   * Away from the target, an extension through `current` is exactly an
   * extension of `prefix + [current]` through a child of `current` that is
   * not yet visited.
   */
  lemma ExtendsThroughKid(d: ArenaData, prefix: seq<nat>, visited: set<nat>, current: nat, t: nat, p: seq<nat>)
    requires WellFormed(d) && current !in visited && current != t
    ensures Extends(d, prefix, visited, current, t, p) <==>
            ViaKid(d, prefix + [current], visited + {current}, Children(d, current), |Children(d, current)|, t, p)
  {
    if Extends(d, prefix, visited, current, t, p) {
      ExtensionEntersKid(d, prefix, visited, current, t, p);
    }
    if ViaKid(d, prefix + [current], visited + {current}, Children(d, current), |Children(d, current)|, t, p) {
      KidGivesExtension(d, prefix, visited, current, t, p);
    }
  }

  lemma ExtensionEntersKid(d: ArenaData, prefix: seq<nat>, visited: set<nat>, current: nat, t: nat, p: seq<nat>)
    requires WellFormed(d) && current !in visited && current != t
    requires Extends(d, prefix, visited, current, t, p)
    ensures ViaKid(d, prefix + [current], visited + {current}, Children(d, current), |Children(d, current)|, t, p)
  {
    var kids := Children(d, current);
    var n := |prefix|;
    var q := p[n..];
    assert |q| >= 2 by {
      assert q[0] == current;
    }
    assert IsEdge(d, q[0], q[1]);
    IsEdgeInRange(d, q[0], q[1]);
    var j :| 0 <= j < |kids| && kids[j] == q[1];
    assert p[..n + 1] == prefix + [current] by {
      assert p[..n + 1] == p[..n] + [p[n]];
    }
    var r := p[n + 1..];
    assert r == q[1..];
    assert forall i :: 0 <= i < |r| ==> r[i] == q[i + 1];
    assert AvoidingPath(d, visited + {current}, r, t);
    assert Extends(d, prefix + [current], visited + {current}, kids[j], t, p);
  }

  lemma KidGivesExtension(d: ArenaData, prefix: seq<nat>, visited: set<nat>, current: nat, t: nat, p: seq<nat>)
    requires WellFormed(d) && current !in visited && current != t
    requires ViaKid(d, prefix + [current], visited + {current}, Children(d, current), |Children(d, current)|, t, p)
    ensures Extends(d, prefix, visited, current, t, p)
  {
    var kids := Children(d, current);
    var n := |prefix|;
    var j :| 0 <= j < |kids| && kids[j] !in visited + {current} &&
             Extends(d, prefix + [current], visited + {current}, kids[j], t, p);
    var r := p[n + 1..];
    IsEdgeInRange(d, current, kids[j]);
    ConsAvoiding(d, visited, current, r, t);
    assert p[n..] == [current] + r;
    assert p[..n] == (p[..n + 1])[..n];
  }

  /** An edge into the start of a path avoiding `visited + {current}` prefixes it with `current`. */
  lemma ConsAvoiding(d: ArenaData, visited: set<nat>, current: nat, r: seq<nat>, t: nat)
    requires current !in visited && AvoidingPath(d, visited + {current}, r, t) && IsEdge(d, current, r[0])
    ensures AvoidingPath(d, visited, [current] + r, t)
  {
    var q := [current] + r;
    assert forall i :: 0 <= i < |r| ==> q[i + 1] == r[i];
    assert forall i :: 1 <= i < |q| ==> q[i] == r[i - 1] && q[i] != current;
  }

  /**
   * `dfs_paths`: extend `path` by `current`, record it if `current` is the
   * target, otherwise recurse into every unvisited child; then undo the
   * extension. The vectors passed by `&mut` come back with `path` and
   * `visited` restored and `paths` extended by exactly the avoiding paths
   * from `current` to `target`, each prefixed by `path`.
   */
  method DfsPaths(d: ArenaData, current: nat, target: nat, path: seq<nat>, visited: set<nat>, paths: seq<seq<nat>>)
    returns (path2: seq<nat>, visited2: set<nat>, paths2: seq<seq<nat>>)
    requires WellFormed(d) && current !in visited
    ensures path2 == path && visited2 == visited
    ensures |paths| <= |paths2| && paths2[..|paths|] == paths
    ensures forall p :: p in paths2[|paths|..] <==> Extends(d, path, visited, current, target, p)
    decreases NodeRange(d) - visited
  {
    path2 := path + [current];
    visited2 := visited + {current};
    paths2 := paths;
    if current == target {
      paths2 := paths2 + [path2];
      forall p ensures p in paths2[|paths|..] <==> Extends(d, path, visited, current, target, p) {
        ExtendsAtTarget(d, path, visited, target, p);
        assert paths2[|paths|..] == [path2];
      }
    } else {
      var kids := Children(d, current);
      var k := 0;
      while k < |kids|
        invariant 0 <= k <= |kids|
        invariant path2 == path + [current] && visited2 == visited + {current}
        invariant |paths| <= |paths2| && paths2[..|paths|] == paths
        invariant forall p :: p in paths2[|paths|..] <==> ViaKid(d, path2, visited2, kids, k, target, p)
      {
        if kids[k] !in visited2 {
          IsEdgeInRange(d, current, kids[k]);
          ghost var before := paths2;
          path2, visited2, paths2 := DfsPaths(d, kids[k], target, path2, visited2, paths2);
          AppendedPaths(d, path2, visited2, kids, k, target, paths, before, paths2);
        } else {
          forall p ensures ViaKid(d, path2, visited2, kids, k + 1, target, p) <==> ViaKid(d, path2, visited2, kids, k, target, p) {
          }
        }
        k := k + 1;
      }
      forall p ensures p in paths2[|paths|..] <==> Extends(d, path, visited, current, target, p) {
        ExtendsThroughKid(d, path, visited, current, target, p);
      }
    }
    path2 := path2[..|path2| - 1];
    visited2 := visited2 - {current};
  }

  /** Bookkeeping for one recursive call of `DfsPaths` inside its loop over the kids. */
  lemma AppendedPaths(d: ArenaData, prefix: seq<nat>, visited: set<nat>, kids: seq<nat>, k: nat, t: nat,
                      paths: seq<seq<nat>>, before: seq<seq<nat>>, after: seq<seq<nat>>)
    requires k < |kids| && kids[k] !in visited
    requires |paths| <= |before| && before[..|paths|] == paths
    requires forall p :: p in before[|paths|..] <==> ViaKid(d, prefix, visited, kids, k, t, p)
    requires |before| <= |after| && after[..|before|] == before
    requires forall p :: p in after[|before|..] <==> Extends(d, prefix, visited, kids[k], t, p)
    ensures |paths| <= |after| && after[..|paths|] == paths
    ensures forall p :: p in after[|paths|..] <==> ViaKid(d, prefix, visited, kids, k + 1, t, p)
  {
    assert after[|paths|..] == before[|paths|..] + after[|before|..];
    forall p ensures ViaKid(d, prefix, visited, kids, k + 1, t, p) <==>
                     ViaKid(d, prefix, visited, kids, k, t, p) || Extends(d, prefix, visited, kids[k], t, p)
    {
      if ViaKid(d, prefix, visited, kids, k + 1, t, p) {
        var j :| 0 <= j < k + 1 && kids[j] !in visited && Extends(d, prefix, visited, kids[j], t, p);
      }
    }
  }

  /** `find_all_paths`: every simple path from `source` to `target`, and nothing else. */
  method FindAllPaths(d: ArenaData, source: nat, target: nat) returns (paths: seq<seq<nat>>)
    requires WellFormed(d)
    ensures forall p :: p in paths <==> IsSimplePath(d, p, source, target)
  {
    var path, visited;
    path, visited, paths := DfsPaths(d, source, target, [], {}, []);
    forall p ensures Extends(d, [], {}, source, target, p) <==> IsSimplePath(d, p, source, target) {
      assert p[0..] == p;
    }
  }

  // ---------------------------------------------------------------------
  // The diamond A -> B -> D, A -> C -> D (A, B, C, D = 0, 1, 2, 3)

  ghost predicate IsDiamond(d: ArenaData)
  {
    && WellFormed(d) && |d.nodes| == 4 && |d.edges| == 4
    && d.edges[0].source == 0 && d.edges[0].target == 1
    && d.edges[1].source == 0 && d.edges[1].target == 2
    && d.edges[2].source == 1 && d.edges[2].target == 3
    && d.edges[3].source == 2 && d.edges[3].target == 3
  }

  lemma DiamondEdges(d: ArenaData)
    requires IsDiamond(d)
    ensures forall a, b :: IsEdge(d, a, b) <==> (a == 0 && (b == 1 || b == 2)) || ((a == 1 || a == 2) && b == 3)
  {
    assert IsEdge(d, 0, 1) && IsEdge(d, 0, 2) by {
      assert d.edges[0].source == 0 && d.edges[1].source == 0;
    }
    assert IsEdge(d, 1, 3) && IsEdge(d, 2, 3) by {
      assert d.edges[2].source == 1 && d.edges[3].source == 2;
    }
  }

  /** Exactly two simple paths lead from A to D: through B and through C. */
  lemma DiamondPaths(d: ArenaData)
    requires IsDiamond(d)
    ensures forall p :: IsSimplePath(d, p, 0, 3) <==> p == [0, 1, 3] || p == [0, 2, 3]
  {
    DiamondEdges(d);
    forall p | IsSimplePath(d, p, 0, 3) ensures p == [0, 1, 3] || p == [0, 2, 3] {
      assert |p| >= 2 by {
        assert p[0] == 0;
      }
      assert IsEdge(d, p[0], p[1]);
      assert |p| >= 3 by {
        assert p[1] != 3;
      }
      assert IsEdge(d, p[1], p[2]);
      assert |p| == 3 by {
        assert p[2] == 3 == p[|p| - 1];
      }
    }
    assert IsSimplePath(d, [0, 1, 3], 0, 3);
    assert IsSimplePath(d, [0, 2, 3], 0, 3);
  }

  /** The diamond is acyclic, with D at height 0, B and C at 1 and A at 2. */
  lemma DiamondHeights(d: ArenaData)
    requires IsDiamond(d)
    ensures Acyclic(d)
    ensures Height(d, 3) == 0 && Height(d, 1) == 1 && Height(d, 2) == 1 && Height(d, 0) == 2
  {
    IndexOrderedIsAcyclic(d);
    if Height(d, 3) > 0 {
      var e := HeightAttained(d, 3);
      assert false;
    }
    HeightDecreasesAlongEdge(d, 2);
    var e1 := HeightAttained(d, 1);
    HeightDecreasesAlongEdge(d, 3);
    var e2 := HeightAttained(d, 2);
    HeightDecreasesAlongEdge(d, 0);
    HeightDecreasesAlongEdge(d, 1);
    var e0 := HeightAttained(d, 0);
  }

  // ---------------------------------------------------------------------
  // The traversal iterator

  datatype TraversalOrder = DepthFirst | BreadthFirst | TopologicalBottomUp | TopologicalTopDown

  /**
   * Every root and every child of a visited node is visited or still
   * pending: once nothing is pending, the whole closure has been visited.
   */
  ghost predicate Scheduled(d: ArenaData, roots: seq<nat>, visited: set<nat>, pending: seq<nat>)
  {
    && (forall r :: r in roots ==> r in visited || r in pending)
    && (forall v, c :: v in visited && IsEdge(d, v, c) ==> c in visited || c in pending)
  }

  /** With nothing pending, a frontier-closed visited set holds every node of the closure. */
  lemma {:induction false} ScheduledExhausted(d: ArenaData, roots: seq<nat>, visited: set<nat>)
    requires WellFormed(d) && Scheduled(d, roots, visited, [])
    ensures forall v :: InClosure(d, roots, v) ==> v in visited
  {
    forall v | InClosure(d, roots, v) ensures v in visited {
      if v !in roots {
        var r :| r in roots && Reaches(d, r, v);
        var p :| IsPathFromTo(d, p, r, v);
        var i := 0;
        while i < |p| - 1
          invariant 0 <= i < |p| && p[i] in visited
        {
          assert IsEdge(d, p[i], p[i + 1]);
          i := i + 1;
        }
      }
    }
  }

  /** Popping the top of a stack drops the first element of its reversal. */
  lemma {:induction false} ReversedPop(s: seq<nat>)
    requires s != []
    ensures Reversed(s) == [s[|s| - 1]] + Reversed(s[..|s| - 1])
  {
    var a := Reversed(s);
    var b := Reversed(s[..|s| - 1]);
    var r := [s[|s| - 1]] + b;
    assert forall i :: 0 <= i < |b| ==> b[i] == s[|s| - 2 - i];
    assert forall i :: 1 <= i < |r| ==> r[i] == b[i - 1];
    assert forall i :: 0 <= i < |a| ==> a[i] == r[i];
  }

  /** The reversal of a duplicate-free order lists the edges the other way round. */
  lemma ReversedFlipsOrder(d: ArenaData, s: seq<nat>)
    requires BottomUp(d, s) && NoDuplicates(s)
    ensures TopDown(d, Reversed(s)) && NoDuplicates(Reversed(s))
    ensures forall v :: v in Reversed(s) <==> v in s
  {
    var r := Reversed(s);
    forall i, j | 0 <= i < |r| && 0 <= j < |r| && IsEdge(d, r[i], r[j]) ensures i < j {
      assert r[i] == s[|s| - 1 - i] && r[j] == s[|s| - 1 - j];
    }
    ReversedMembers(s);
  }

  /** Reversal keeps the elements. */
  lemma ReversedMembers(s: seq<nat>)
    ensures forall v :: v in Reversed(s) <==> v in s
  {
    var r := Reversed(s);
    forall v | v in s ensures v in r {
      var i :| 0 <= i < |s| && s[i] == v;
      assert r[|s| - 1 - i] == v;
    }
  }

  /**
   * The iterator's bookkeeping as values: the visited set is the set of
   * emitted nodes, each emitted once and in the closure; the pending nodes
   * lie in the closure; a depth- or breadth-first walk keeps every child of
   * a visited node visited or pending; a topological walk has emitted a
   * prefix of its plan and holds the rest on the stack, next one on top.
   */
  ghost predicate WalkState(d: ArenaData, roots: seq<nat>, order: TraversalOrder, plan: seq<nat>,
                            visited: set<nat>, stack: seq<nat>, queue: seq<nat>, emitted: seq<nat>)
  {
    && WellFormed(d)
    && (forall v :: v in visited <==> v in emitted) && NoDuplicates(emitted)
    && (forall i :: 0 <= i < |emitted| ==> InClosure(d, roots, emitted[i]))
    && (forall v :: v in stack ==> InClosure(d, roots, v))
    && (forall v :: v in queue ==> InClosure(d, roots, v))
    && (order.DepthFirst? ==> queue == [] && Scheduled(d, roots, visited, stack))
    && (order.BreadthFirst? ==> stack == [] && Scheduled(d, roots, visited, queue))
    && (order.TopologicalBottomUp? || order.TopologicalTopDown? ==>
          queue == [] && NoDuplicates(plan) && emitted + Reversed(stack) == plan)
  }

  /** In a topological walk the top of the stack is the next node of the plan, not yet visited. */
  lemma PlanTop(d: ArenaData, roots: seq<nat>, order: TraversalOrder, plan: seq<nat>,
                visited: set<nat>, stack: seq<nat>, emitted: seq<nat>)
    requires WalkState(d, roots, order, plan, visited, stack, [], emitted)
    requires order.TopologicalBottomUp? || order.TopologicalTopDown?
    ensures stack == [] <==> |emitted| == |plan|
    ensures stack != [] ==> |emitted| < |plan| && stack[|stack| - 1] == plan[|emitted|] && stack[|stack| - 1] !in visited
  {
    if stack != [] {
      ReversedPop(stack);
      var node := stack[|stack| - 1];
      var k := |emitted|;
      assert plan[k] == node;
      forall i | 0 <= i < k ensures emitted[i] != node {
        assert plan[i] == emitted[i];
      }
    }
  }

  /** Popping an already visited node keeps the bookkeeping. */
  lemma SkipVisited(d: ArenaData, roots: seq<nat>, order: TraversalOrder, plan: seq<nat>,
                    visited: set<nat>, stack: seq<nat>, queue: seq<nat>, emitted: seq<nat>, node: nat)
    requires !(order.TopologicalBottomUp? || order.TopologicalTopDown?)
    requires node in visited
    requires WalkState(d, roots, order, plan, visited, stack + [node], queue, emitted) ||
             WalkState(d, roots, order, plan, visited, stack, [node] + queue, emitted)
    ensures order.DepthFirst? && WalkState(d, roots, order, plan, visited, stack + [node], queue, emitted) ==>
              WalkState(d, roots, order, plan, visited, stack, queue, emitted)
    ensures order.BreadthFirst? && WalkState(d, roots, order, plan, visited, stack, [node] + queue, emitted) ==>
              WalkState(d, roots, order, plan, visited, stack, queue, emitted)
  {
  }

  /**
   * Emitting an unvisited pending node and scheduling its unvisited
   * children (`kids` filtered) keeps the bookkeeping of a depth- or
   * breadth-first walk.
   */
  lemma EmitWalk(d: ArenaData, roots: seq<nat>, order: TraversalOrder, plan: seq<nat>,
                 visited: set<nat>, pending: seq<nat>, emitted: seq<nat>, node: nat, rest: seq<nat>, pending2: seq<nat>)
    requires WellFormed(d) && (order.DepthFirst? || order.BreadthFirst?)
    requires order.DepthFirst? ==> WalkState(d, roots, order, plan, visited, pending, [], emitted)
    requires order.BreadthFirst? ==> WalkState(d, roots, order, plan, visited, [], pending, emitted)
    requires node in pending && node !in visited && forall v :: v in pending ==> v in rest || v == node
    requires forall v :: v in rest ==> v in pending
    requires forall v :: v in pending2 <==> v in rest || (IsEdge(d, node, v) && v !in visited + {node})
    ensures InClosure(d, roots, node)
    ensures order.DepthFirst? ==> WalkState(d, roots, order, plan, visited + {node}, pending2, [], emitted + [node])
    ensures order.BreadthFirst? ==> WalkState(d, roots, order, plan, visited + {node}, [], pending2, emitted + [node])
  {
    forall c | IsEdge(d, node, c) ensures InClosure(d, roots, c) {
      ChildInClosure(d, roots, node, c);
    }
    var e2 := emitted + [node];
    assert forall i :: 0 <= i < |emitted| ==> e2[i] == emitted[i];
  }

  /** Emitting the top of a topological walk's stack keeps the bookkeeping. */
  lemma EmitPlanned(d: ArenaData, roots: seq<nat>, order: TraversalOrder, plan: seq<nat>,
                    visited: set<nat>, stack: seq<nat>, emitted: seq<nat>)
    requires WalkState(d, roots, order, plan, visited, stack, [], emitted) && stack != []
    requires order.TopologicalBottomUp? || order.TopologicalTopDown?
    ensures InClosure(d, roots, stack[|stack| - 1])
    ensures WalkState(d, roots, order, plan, visited + {stack[|stack| - 1]}, stack[..|stack| - 1], [],
                      emitted + [stack[|stack| - 1]])
  {
    var node := stack[|stack| - 1];
    PlanTop(d, roots, order, plan, visited, stack, emitted);
    ReversedPop(stack);
    assert emitted + Reversed(stack) == (emitted + [node]) + Reversed(stack[..|stack| - 1]);
    var e2 := emitted + [node];
    assert forall i :: 0 <= i < |emitted| ==> e2[i] == emitted[i];
  }

  /** A fresh walk: nothing visited and every root pending, the first root on top of a depth-first stack. */
  lemma StartWalk(d: ArenaData, roots: seq<nat>, order: TraversalOrder)
    requires WellFormed(d) && (order.DepthFirst? || order.BreadthFirst?)
    ensures order.DepthFirst? ==> WalkState(d, roots, order, [], {}, Reversed(roots), [], [])
    ensures order.BreadthFirst? ==> WalkState(d, roots, order, [], {}, [], roots, [])
  {
    ReversedMembers(roots);
  }

  /** A fresh topological walk: nothing visited and the whole plan on the stack, its first node on top. */
  lemma StartPlanned(d: ArenaData, roots: seq<nat>, order: TraversalOrder, plan: seq<nat>, stack: seq<nat>)
    requires WellFormed(d) && (order.TopologicalBottomUp? || order.TopologicalTopDown?)
    requires NoDuplicates(plan) && Reversed(stack) == plan
    requires forall v :: v in plan ==> InClosure(d, roots, v)
    ensures WalkState(d, roots, order, plan, {}, stack, [], [])
  {
    ReversedMembers(stack);
  }

  /**
   * The pending nodes of a fresh iterator: the roots (reversed onto a
   * depth-first stack so that the first root comes out first), or for the
   * topological orders the precomputed order, read from the top of the stack.
   */
  method Schedule(d: ArenaData, roots: seq<nat>, order: TraversalOrder)
    returns (stack: seq<nat>, queue: seq<nat>, ghost plan: seq<nat>)
    requires WellFormed(d)
    ensures WalkState(d, roots, order, plan, {}, stack, queue, [])
    ensures order.DepthFirst? ==> stack == Reversed(roots) && queue == []
    ensures order.BreadthFirst? ==> queue == roots && stack == []
    ensures order.TopologicalBottomUp? ==> BottomUp(d, plan)
    ensures order.TopologicalTopDown? ==> TopDown(d, plan)
    ensures order.TopologicalBottomUp? || order.TopologicalTopDown? ==>
              (forall v :: v in plan ==> v < |d.nodes| && InClosure(d, roots, v))
              && (Acyclic(d) ==> forall v: nat :: v < |d.nodes| && InClosure(d, roots, v) ==> v in plan)
  {
    match order {
      case DepthFirst =>
        StartWalk(d, roots, order);
        stack, queue, plan := Reversed(roots), [], [];
      case BreadthFirst =>
        StartWalk(d, roots, order);
        stack, queue, plan := [], roots, [];
      case TopologicalBottomUp =>
        var topo := TopologicalSort(d, roots);
        ReversedFlipsOrder(d, topo);
        ReversedTwice(topo);
        StartPlanned(d, roots, order, topo, Reversed(topo));
        stack, queue, plan := Reversed(topo), [], topo;
      case TopologicalTopDown =>
        var topo := TopologicalSort(d, roots);
        ReversedFlipsOrder(d, topo);
        StartPlanned(d, roots, order, Reversed(topo), topo);
        stack, queue, plan := topo, [], Reversed(topo);
    }
  }

  /**
   * A stack with the visited nodes popped off its top: the remaining
   * stack is a prefix whose top is unvisited, and everything popped was
   * visited.
   */
  function DropVisitedTop(s: seq<nat>, visited: set<nat>): (r: seq<nat>)
    ensures |r| <= |s| && r == s[..|r|]
    ensures r != [] ==> r[|r| - 1] !in visited
    ensures forall i :: |r| <= i < |s| ==> s[i] in visited
    decreases |s|
  {
    if s == [] || s[|s| - 1] !in visited then s else DropVisitedTop(s[..|s| - 1], visited)
  }

  /**
   * A queue with the visited nodes dequeued from its front: the remaining
   * queue is a suffix whose front is unvisited, and everything dequeued was
   * visited.
   */
  function DropVisitedFront(q: seq<nat>, visited: set<nat>): (r: seq<nat>)
    ensures |r| <= |q| && r == q[|q| - |r|..]
    ensures r != [] ==> r[0] !in visited
    ensures forall i :: 0 <= i < |q| - |r| ==> q[i] in visited
    decreases |q|
  {
    if q == [] || q[0] !in visited then q else DropVisitedFront(q[1..], visited)
  }

  /**
   * One call of `next` on a stack: the visited nodes are popped off the top,
   * the node then on top (if any) is returned, and for a depth-first walk
   * its children not yet visited are pushed in order.
   */
  ghost predicate StackStep(d: ArenaData, push: bool, s0: seq<nat>, seen0: set<nat>, r: Option<nat>, s1: seq<nat>)
  {
    var s := DropVisitedTop(s0, seen0);
    && (r.None? <==> s == [])
    && (r.Some? ==> r.value == s[|s| - 1])
    && (r.Some? && push ==> var seen := seen0 + {r.value};
          s1 == s[..|s| - 1] + Filter(Children(d, r.value), x => x !in seen))
    && (r.Some? && !push ==> s1 == s[..|s| - 1])
  }

  /**
   * One call of `next` on a queue: the visited nodes are dequeued from the
   * front, the node then at the front (if any) is returned, and its children
   * not yet visited are enqueued in order.
   */
  ghost predicate QueueStep(d: ArenaData, q0: seq<nat>, seen0: set<nat>, r: Option<nat>, q1: seq<nat>)
  {
    var q := DropVisitedFront(q0, seen0);
    && (r.None? <==> q == [])
    && (r.Some? ==> var seen := seen0 + {r.value};
          r.value == q[0] && q1 == q[1..] + Filter(Children(d, r.value), x => x !in seen))
  }

  lemma StackStepFound(d: ArenaData, push: bool, s0: seq<nat>, seen0: set<nat>, stack: seq<nat>, node: nat, s1: seq<nat>)
    requires DropVisitedTop(stack + [node], seen0) == DropVisitedTop(s0, seen0) && node !in seen0
    requires push ==> s1 == stack + Filter(Children(d, node), x => x !in seen0 + {node})
    requires !push ==> s1 == stack
    ensures StackStep(d, push, s0, seen0, Some(node), s1)
  {
    assert (stack + [node])[..|stack|] == stack;
  }

  lemma QueueStepFound(d: ArenaData, q0: seq<nat>, seen0: set<nat>, queue: seq<nat>, node: nat, q1: seq<nat>)
    requires DropVisitedFront([node] + queue, seen0) == DropVisitedFront(q0, seen0) && node !in seen0
    requires q1 == queue + Filter(Children(d, node), x => x !in seen0 + {node})
    ensures QueueStep(d, q0, seen0, Some(node), q1)
  {
    assert ([node] + queue)[1..] == queue;
  }

  /** Emitting the front of a breadth-first queue and enqueueing its unvisited children keeps the bookkeeping. */
  lemma QueueEmit(d: ArenaData, roots: seq<nat>, plan: seq<nat>, visited: set<nat>, emitted: seq<nat>,
                  pending: seq<nat>, node: nat, rest: seq<nat>, q2: seq<nat>)
    requires WalkState(d, roots, BreadthFirst, plan, visited, [], pending, emitted)
    requires pending != [] && node == pending[0] && rest == pending[1..] && node !in visited
    requires q2 == rest + Filter(Children(d, node), x => x !in visited + {node})
    ensures InClosure(d, roots, node)
    ensures WalkState(d, roots, BreadthFirst, plan, visited + {node}, [], q2, emitted + [node])
  {
    assert pending == [node] + rest;
    EmitWalk(d, roots, BreadthFirst, plan, visited, pending, emitted, node, rest, q2);
  }

  /** Emitting the top of a depth-first stack: the bookkeeping is kept and the step is the one `StackStep` states. */
  lemma StackEmit(d: ArenaData, roots: seq<nat>, plan: seq<nat>, visited: set<nat>, emitted: seq<nat>,
                  s0: seq<nat>, node: nat, rest: seq<nat>, s2: seq<nat>)
    requires WalkState(d, roots, DepthFirst, plan, visited, rest + [node], [], emitted) && node !in visited
    requires DropVisitedTop(rest + [node], visited) == DropVisitedTop(s0, visited)
    requires s2 == rest + Filter(Children(d, node), x => x !in visited + {node})
    ensures InClosure(d, roots, node)
    ensures WalkState(d, roots, DepthFirst, plan, visited + {node}, s2, [], emitted + [node])
    ensures StackStep(d, true, s0, visited, Some(node), s2)
  {
    EmitWalk(d, roots, DepthFirst, plan, visited, rest + [node], emitted, node, rest, s2);
    StackStepFound(d, true, s0, visited, rest, node, s2);
  }

  /**
   * The iterator over the nodes reachable from `roots`: depth-first and
   * breadth-first walks that skip visited nodes and schedule the unvisited
   * children of each emitted node, or a precomputed topological order
   * replayed from a stack.
   */
  class Traversal {
    const d: ArenaData
    const roots: seq<nat>
    const order: TraversalOrder
    /** For the topological orders: the sequence the iterator will emit. */
    ghost const plan: seq<nat>
    var visited: set<nat>
    /** Pending nodes for depth-first and topological orders; the top is the last element. */
    var stack: seq<nat>
    /** Pending nodes for breadth-first order; the front is the first element. */
    var queue: seq<nat>
    /** The nodes returned so far. */
    ghost var emitted: seq<nat>

    ghost predicate Valid()
      reads this
    {
      WalkState(d, roots, order, plan, visited, stack, queue, emitted)
    }

    /**
     * `Traversal::new`: the roots are scheduled so that the first root comes
     * out first; the topological orders precompute the order (leaves first,
     * or roots first by reading it backwards).
     */
    constructor (d: ArenaData, roots: seq<nat>, order: TraversalOrder)
      requires WellFormed(d)
      ensures Valid() && this.d == d && this.roots == roots && this.order == order
      ensures visited == {} && emitted == []
      ensures order.DepthFirst? ==> stack == Reversed(roots) && queue == []
      ensures order.BreadthFirst? ==> queue == roots && stack == []
      ensures order.TopologicalBottomUp? ==> BottomUp(d, plan)
      ensures order.TopologicalTopDown? ==> TopDown(d, plan)
      ensures order.TopologicalBottomUp? || order.TopologicalTopDown? ==>
                (forall v :: v in plan ==> v < |d.nodes| && InClosure(d, roots, v))
                && (Acyclic(d) ==> forall v: nat :: v < |d.nodes| && InClosure(d, roots, v) ==> v in plan)
    {
      this.d := d;
      this.roots := roots;
      this.order := order;
      visited := {};
      emitted := [];
      var pendingStack, pendingQueue, ghostPlan := Schedule(d, roots, order);
      stack := pendingStack;
      queue := pendingQueue;
      plan := ghostPlan;
    }

    /**
     * `Iterator::next`: pops pending nodes until an unvisited one turns up,
     * marks it visited, schedules its unvisited children (depth-first and
     * breadth-first only) and returns it; `None` once nothing is pending.
     */
    method Next() returns (r: Option<nat>)
      requires Valid()
      modifies this
      ensures Valid()
      ensures r.Some? ==> r.value !in old(visited) && visited == old(visited) + {r.value}
      ensures r.Some? ==> emitted == old(emitted) + [r.value] && InClosure(d, roots, r.value)
      ensures r.None? ==> visited == old(visited) && emitted == old(emitted) && stack == [] && queue == []
      ensures (order.TopologicalBottomUp? || order.TopologicalTopDown?) ==>
                (r.None? <==> |old(emitted)| == |plan|) && (r.Some? ==> r.value == plan[|old(emitted)|])
      ensures r.None? && (order.DepthFirst? || order.BreadthFirst?) ==> forall v :: InClosure(d, roots, v) ==> v in visited
      ensures !order.BreadthFirst? ==> StackStep(d, order.DepthFirst?, old(stack), old(visited), r, stack) && queue == old(queue)
      ensures order.BreadthFirst? ==> QueueStep(d, old(queue), old(visited), r, queue) && stack == old(stack)
    {
      if order.BreadthFirst? {
        r := NextFromQueue();
      } else {
        r := NextFromStack();
      }
    }

    /** The `pop_front` loop of a breadth-first `next`: dequeues the nodes already visited. */
    method PopVisitedFront()
      requires Valid() && order.BreadthFirst?
      modifies this
      ensures Valid() && visited == old(visited) && emitted == old(emitted) && stack == old(stack)
      ensures queue == DropVisitedFront(old(queue), old(visited))
    {
      while queue != [] && queue[0] in visited
        invariant Valid() && visited == old(visited) && emitted == old(emitted) && stack == old(stack)
        invariant DropVisitedFront(queue, visited) == DropVisitedFront(old(queue), old(visited))
        decreases |queue|
      {
        var node := queue[0];
        assert queue == [node] + queue[1..];
        queue := queue[1..];
        SkipVisited(d, roots, order, plan, visited, stack, queue, emitted, node);
      }
    }

    /** The `pop` loop of a depth-first `next`: pops the nodes already visited. */
    method PopVisitedTop()
      requires Valid() && order.DepthFirst?
      modifies this
      ensures Valid() && visited == old(visited) && emitted == old(emitted) && queue == old(queue)
      ensures stack == DropVisitedTop(old(stack), old(visited))
    {
      while stack != [] && stack[|stack| - 1] in visited
        invariant Valid() && visited == old(visited) && emitted == old(emitted) && queue == old(queue)
        invariant DropVisitedTop(stack, visited) == DropVisitedTop(old(stack), old(visited))
        decreases |stack|
      {
        var node := stack[|stack| - 1];
        assert stack == stack[..|stack| - 1] + [node];
        stack := stack[..|stack| - 1];
        SkipVisited(d, roots, order, plan, visited, stack, queue, emitted, node);
      }
    }

    method NextFromQueue() returns (r: Option<nat>)
      requires Valid() && order.BreadthFirst?
      modifies this
      ensures Valid()
      ensures r.Some? ==> r.value !in old(visited) && visited == old(visited) + {r.value}
      ensures r.Some? ==> emitted == old(emitted) + [r.value] && InClosure(d, roots, r.value)
      ensures r.None? ==> visited == old(visited) && emitted == old(emitted) && stack == [] && queue == []
      ensures r.None? ==> forall v :: InClosure(d, roots, v) ==> v in visited
      ensures QueueStep(d, old(queue), old(visited), r, queue)
      ensures stack == old(stack)
    {
      PopVisitedFront();
      if queue == [] {
        ScheduledExhausted(d, roots, visited);
        return None;
      }
      var node := queue[0];
      EmitFront();
      return Some(node);
    }

    /**
     * A stack-driven `next`. A topological walk never finds a visited node on
     * top of its stack (its plan has no duplicates), so only a depth-first
     * walk pops visited nodes first.
     */
    method NextFromStack() returns (r: Option<nat>)
      requires Valid() && !order.BreadthFirst?
      modifies this
      ensures Valid()
      ensures r.Some? ==> r.value !in old(visited) && visited == old(visited) + {r.value}
      ensures r.Some? ==> emitted == old(emitted) + [r.value] && InClosure(d, roots, r.value)
      ensures r.None? ==> visited == old(visited) && emitted == old(emitted) && stack == [] && queue == []
      ensures (order.TopologicalBottomUp? || order.TopologicalTopDown?) ==>
                (r.None? <==> |old(emitted)| == |plan|) && (r.Some? ==> r.value == plan[|old(emitted)|])
      ensures r.None? && order.DepthFirst? ==> forall v :: InClosure(d, roots, v) ==> v in visited
      ensures StackStep(d, order.DepthFirst?, old(stack), old(visited), r, stack)
      ensures queue == old(queue)
    {
      if order.DepthFirst? {
        PopVisitedTop();
      } else {
        PlanTop(d, roots, order, plan, visited, stack, emitted);
      }
      if stack == [] {
        if order.DepthFirst? {
          ScheduledExhausted(d, roots, visited);
        }
        return None;
      }
      var node := stack[|stack| - 1];
      if order.DepthFirst? {
        EmitTop();
      } else {
        EmitPlannedTop();
      }
      return Some(node);
    }

    /** The topological emit: pops the next node of the plan and marks it visited. */
    method EmitPlannedTop()
      requires Valid() && (order.TopologicalBottomUp? || order.TopologicalTopDown?) && stack != []
      modifies this
      ensures Valid()
      ensures var node := old(stack)[|old(stack)| - 1];
        && visited == old(visited) + {node} && node !in old(visited)
        && emitted == old(emitted) + [node]
        && StackStep(d, false, old(stack), old(visited), Some(node), stack)
      ensures queue == old(queue)
    {
      var node := stack[|stack| - 1];
      ghost var pending := stack;
      PlanTop(d, roots, order, plan, visited, stack, emitted);
      EmitPlanned(d, roots, order, plan, visited, stack, emitted);
      stack := stack[..|stack| - 1];
      assert stack + [node] == pending;
      StackStepFound(d, false, pending, visited, stack, node, stack);
      visited := visited + {node};
      emitted := emitted + [node];
    }

    /**
     * The depth-first emit: pops the unvisited node on top of the stack,
     * marks it visited and pushes its children not yet visited.
     */
    method EmitTop()
      requires Valid() && order.DepthFirst? && stack != [] && stack[|stack| - 1] !in visited
      modifies this
      ensures Valid()
      ensures var node := old(stack)[|old(stack)| - 1];
        && visited == old(visited) + {node}
        && emitted == old(emitted) + [node]
        && StackStep(d, true, old(stack), old(visited), Some(node), stack)
      ensures queue == old(queue)
    {
      var node := stack[|stack| - 1];
      ghost var pending := stack;
      stack := stack[..|stack| - 1];
      assert stack + [node] == pending;
      var kids := Children(d, node);
      var s2 := PushUnseen(stack, kids, visited + {node});
      StackEmit(d, roots, plan, visited, emitted, pending, node, stack, s2);
      stack := s2;
      visited := visited + {node};
      emitted := emitted + [node];
    }

    /**
     * The breadth-first emit: dequeues the unvisited node at the front of the
     * queue, marks it visited and enqueues its children not yet visited.
     */
    method EmitFront()
      requires Valid() && order.BreadthFirst? && queue != [] && queue[0] !in visited
      modifies this
      ensures Valid()
      ensures var node := old(queue)[0];
        && visited == old(visited) + {node}
        && emitted == old(emitted) + [node]
        && QueueStep(d, old(queue), old(visited), Some(node), queue)
      ensures stack == old(stack)
    {
      var node := queue[0];
      ghost var pending := queue;
      queue := queue[1..];
      assert [node] + queue == pending;
      var kids := Children(d, node);
      var q2 := PushUnseen(queue, kids, visited + {node});
      QueueEmit(d, roots, plan, visited, emitted, pending, node, queue, q2);
      assert QueueStep(d, pending, visited, Some(node), q2) by {
        QueueStepFound(d, pending, visited, queue, node, q2);
      }
      queue := q2;
      visited := visited + {node};
      emitted := emitted + [node];
    }
  }

  lemma ReversedTwice(s: seq<nat>)
    ensures Reversed(Reversed(s)) == s
  {
  }
}
