/**
 * Value view of the arena: the node and edge records, the well-formedness
 * that ties the adjacency lists to the edge vector, and the graph notions
 * (edge, path, reachability, acyclicity, height) that every algorithm of the
 * kernel is specified against.
 *
 * The edge relation is read off the edge vector alone; `WellFormed` says the
 * per-node `incoming`/`outgoing` lists index exactly those edges.
 */
module ArenaModel {
  import opened Models

  datatype NodeCache = NodeCache(totalMaterialCost: Option<real>, explosionQuantity: Option<real>, level: Option<nat>)

  const DefaultCache: NodeCache := NodeCache(None, None, None)

  datatype Node = Node(
    componentId: ComponentId,
    incoming: seq<nat>,
    outgoing: seq<nat>,
    cache: NodeCache,
    dirty: bool,
    version: nat)

  datatype Edge = Edge(source: nat, target: nat, bomItem: BomItem, effectiveQuantity: real)

  /** The contents of the arena's node and edge vectors. */
  datatype ArenaData = ArenaData(nodes: seq<Node>, edges: seq<Edge>)

  function Max(a: nat, b: nat): nat { if a < b then b else a }

  predicate NoDuplicates(s: seq<nat>)
  {
    forall i, j :: 0 <= i < j < |s| ==> s[i] != s[j]
  }

  ghost predicate OutgoingOk(d: ArenaData, n: nat)
    requires n < |d.nodes|
  {
    && NoDuplicates(d.nodes[n].outgoing)
    && forall k :: 0 <= k < |d.nodes[n].outgoing| ==>
         d.nodes[n].outgoing[k] < |d.edges| && d.edges[d.nodes[n].outgoing[k]].source == n
  }

  ghost predicate IncomingOk(d: ArenaData, n: nat)
    requires n < |d.nodes|
  {
    && NoDuplicates(d.nodes[n].incoming)
    && forall k :: 0 <= k < |d.nodes[n].incoming| ==>
         d.nodes[n].incoming[k] < |d.edges| && d.edges[d.nodes[n].incoming[k]].target == n
  }

  /** Edge `e` is listed by both of its endpoints and carries its item's effective quantity. */
  ghost predicate EdgeLinked(d: ArenaData, e: nat)
    requires e < |d.edges|
  {
    && d.edges[e].source < |d.nodes| && d.edges[e].target < |d.nodes|
    && e in d.nodes[d.edges[e].source].outgoing
    && e in d.nodes[d.edges[e].target].incoming
    && d.edges[e].effectiveQuantity == EffectiveQuantity(d.edges[e].bomItem)
  }

  ghost predicate EdgesInRange(d: ArenaData)
  {
    forall e :: 0 <= e < |d.edges| ==> d.edges[e].source < |d.nodes| && d.edges[e].target < |d.nodes|
  }

  /**
   * Every edge joins two stored nodes, carries the effective quantity of its
   * item, and is listed once in its source's `outgoing` and its target's
   * `incoming`; those lists hold nothing else.
   */
  ghost predicate WellFormed(d: ArenaData)
  {
    && EdgesInRange(d)
    && (forall e :: 0 <= e < |d.edges| ==> EdgeLinked(d, e))
    && (forall n :: 0 <= n < |d.nodes| ==> OutgoingOk(d, n) && IncomingOk(d, n))
  }

  /** There is an edge from `p` to `c`. */
  ghost predicate IsEdge(d: ArenaData, p: nat, c: nat)
  {
    exists e :: 0 <= e < |d.edges| && d.edges[e].source == p && d.edges[e].target == c
  }

  /** A non-empty sequence of stored nodes whose consecutive pairs are edges. */
  ghost predicate IsPath(d: ArenaData, p: seq<nat>)
  {
    && |p| >= 1
    && (forall i :: 0 <= i < |p| ==> p[i] < |d.nodes|)
    && (forall i :: 0 <= i < |p| - 1 ==> IsEdge(d, p[i], p[i + 1]))
  }

  ghost predicate IsPathFromTo(d: ArenaData, p: seq<nat>, s: nat, t: nat)
  {
    IsPath(d, p) && p[0] == s && p[|p| - 1] == t
  }

  /** `t` is reachable from `s` along outgoing edges (in zero or more steps). */
  ghost predicate Reaches(d: ArenaData, s: nat, t: nat)
  {
    exists p :: IsPathFromTo(d, p, s, t)
  }

  /** No edge closes a cycle: the target of an edge never reaches its source. */
  ghost predicate Acyclic(d: ArenaData)
  {
    forall e :: 0 <= e < |d.edges| ==> !Reaches(d, d.edges[e].target, d.edges[e].source)
  }

  /** A path of at least one edge that returns to its start. */
  ghost predicate IsCycle(d: ArenaData, p: seq<nat>)
  {
    IsPath(d, p) && |p| >= 2 && p[0] == p[|p| - 1]
  }

  ghost predicate HasDirectedCycle(d: ArenaData)
  {
    exists p :: IsCycle(d, p)
  }

  /** Nodes reachable from `n`, `n` included. */
  ghost function Desc(d: ArenaData, n: nat): set<nat>
  {
    set i | 0 <= i < |d.nodes| && Reaches(d, n, i)
  }

  /** Nodes that reach `n`, `n` included. */
  ghost function Anc(d: ArenaData, n: nat): set<nat>
  {
    set i | 0 <= i < |d.nodes| && Reaches(d, i, n)
  }

  /** Nodes reachable from at least one of `roots`. */
  ghost predicate ReachableFrom(d: ArenaData, roots: seq<nat>, v: nat)
  {
    exists r :: r in roots && Reaches(d, r, v)
  }

  /** A set closed under following edges forwards. */
  ghost predicate ClosedUnderChildren(d: ArenaData, s: set<nat>)
  {
    forall e :: 0 <= e < |d.edges| && d.edges[e].source in s ==> d.edges[e].target in s
  }

  /** A set closed under following edges backwards. */
  ghost predicate ClosedUnderParents(d: ArenaData, s: set<nat>)
  {
    forall e :: 0 <= e < |d.edges| && d.edges[e].target in s ==> d.edges[e].source in s
  }

  /** The targets of the listed edges, dropping indices outside the edge vector. */
  function Targets(edges: seq<Edge>, es: seq<nat>): (r: seq<nat>)
    ensures (forall k :: 0 <= k < |es| ==> es[k] < |edges|) ==>
              |r| == |es| && forall k :: 0 <= k < |es| ==> r[k] == edges[es[k]].target
  {
    if es == [] then []
    else (if es[0] < |edges| then [edges[es[0]].target] else []) + Targets(edges, es[1..])
  }

  /** The sources of the listed edges, dropping indices outside the edge vector. */
  function Sources(edges: seq<Edge>, es: seq<nat>): (r: seq<nat>)
    ensures (forall k :: 0 <= k < |es| ==> es[k] < |edges|) ==>
              |r| == |es| && forall k :: 0 <= k < |es| ==> r[k] == edges[es[k]].source
  {
    if es == [] then []
    else (if es[0] < |edges| then [edges[es[0]].source] else []) + Sources(edges, es[1..])
  }

  /** The arena's `children` iterator: one entry per outgoing edge. */
  function Children(d: ArenaData, n: nat): (r: seq<nat>)
    ensures WellFormed(d) && n < |d.nodes| ==> |r| == |d.nodes[n].outgoing|
    ensures WellFormed(d) && n < |d.nodes| ==> forall c :: c in r <==> IsEdge(d, n, c)
    ensures n >= |d.nodes| ==> r == []
  {
    if n < |d.nodes| then
      var r := Targets(d.edges, d.nodes[n].outgoing);
      assert WellFormed(d) ==> OutgoingOk(d, n);
      assert WellFormed(d) ==> forall c :: c in r <==> IsEdge(d, n, c) by {
        if WellFormed(d) {
          forall c ensures c in r <==> IsEdge(d, n, c) {
            if c in r {
              var k :| 0 <= k < |r| && r[k] == c;
              assert d.edges[d.nodes[n].outgoing[k]].source == n;
            }
            if IsEdge(d, n, c) {
              var e :| 0 <= e < |d.edges| && d.edges[e].source == n && d.edges[e].target == c;
              assert EdgeLinked(d, e);
              var k :| 0 <= k < |d.nodes[n].outgoing| && d.nodes[n].outgoing[k] == e;
              assert r[k] == c;
            }
          }
        }
      }
      r
    else []
  }

  /** The arena's `parents` iterator: one entry per incoming edge. */
  function Parents(d: ArenaData, n: nat): (r: seq<nat>)
    ensures WellFormed(d) && n < |d.nodes| ==> |r| == |d.nodes[n].incoming|
    ensures WellFormed(d) && n < |d.nodes| ==> forall p :: p in r <==> IsEdge(d, p, n)
    ensures n >= |d.nodes| ==> r == []
  {
    if n < |d.nodes| then
      var r := Sources(d.edges, d.nodes[n].incoming);
      assert WellFormed(d) ==> IncomingOk(d, n);
      assert WellFormed(d) ==> forall p :: p in r <==> IsEdge(d, p, n) by {
        if WellFormed(d) {
          forall p ensures p in r <==> IsEdge(d, p, n) {
            if p in r {
              var k :| 0 <= k < |r| && r[k] == p;
              assert d.edges[d.nodes[n].incoming[k]].target == n;
            }
            if IsEdge(d, p, n) {
              var e :| 0 <= e < |d.edges| && d.edges[e].source == p && d.edges[e].target == n;
              assert EdgeLinked(d, e);
              var k :| 0 <= k < |d.nodes[n].incoming| && d.nodes[n].incoming[k] == e;
              assert r[k] == p;
            }
          }
        }
      }
      r
    else []
  }

  // ---------------------------------------------------------------------
  // Reachability lemmas

  lemma ReachesRefl(d: ArenaData, s: nat)
    requires s < |d.nodes|
    ensures Reaches(d, s, s)
  {
    assert IsPathFromTo(d, [s], s, s);
  }

  lemma EdgeReaches(d: ArenaData, e: nat)
    requires WellFormed(d) && e < |d.edges|
    ensures IsEdge(d, d.edges[e].source, d.edges[e].target)
    ensures Reaches(d, d.edges[e].source, d.edges[e].target)
  {
    var p := [d.edges[e].source, d.edges[e].target];
    assert IsEdge(d, p[0], p[1]);
    assert IsPathFromTo(d, p, p[0], p[1]);
  }

  lemma IsEdgeInRange(d: ArenaData, p: nat, c: nat)
    requires WellFormed(d) && IsEdge(d, p, c)
    ensures p < |d.nodes| && c < |d.nodes|
  {
  }

  /** Extending a path by one edge at its end. */
  lemma ReachesAppend(d: ArenaData, s: nat, u: nat, v: nat)
    requires WellFormed(d) && Reaches(d, s, u) && IsEdge(d, u, v)
    ensures Reaches(d, s, v)
  {
    var p :| IsPathFromTo(d, p, s, u);
    var q := p + [v];
    assert forall i :: 0 <= i < |q| - 1 ==> q[i] == p[i];
    assert IsPathFromTo(d, q, s, v);
  }

  /** Extending a path by one edge at its start. */
  lemma ReachesPrepend(d: ArenaData, s: nat, u: nat, t: nat)
    requires WellFormed(d) && IsEdge(d, s, u) && Reaches(d, u, t)
    ensures Reaches(d, s, t)
  {
    var p :| IsPathFromTo(d, p, u, t);
    var q := [s] + p;
    assert forall i :: 1 <= i < |q| ==> q[i] == p[i - 1];
    assert IsPathFromTo(d, q, s, t);
  }

  lemma ReachesTrans(d: ArenaData, a: nat, b: nat, c: nat)
    requires Reaches(d, a, b) && Reaches(d, b, c)
    ensures Reaches(d, a, c)
  {
    var p :| IsPathFromTo(d, p, a, b);
    var q :| IsPathFromTo(d, q, b, c);
    var r := p + q[1..];
    assert forall i :: 0 <= i < |p| ==> r[i] == p[i];
    assert forall i :: |p| <= i < |r| ==> r[i] == q[i - |p| + 1];
    assert IsPathFromTo(d, r, a, c);
  }

  lemma ReachesInRange(d: ArenaData, s: nat, t: nat)
    requires Reaches(d, s, t)
    ensures s < |d.nodes| && t < |d.nodes|
  {
    var p :| IsPathFromTo(d, p, s, t);
  }

  /** A node reached from a different node is entered through some edge. */
  lemma ReachesLastEdge(d: ArenaData, a: nat, b: nat) returns (e: nat)
    requires WellFormed(d) && Reaches(d, a, b) && a != b
    ensures e < |d.edges| && d.edges[e].target == b && Reaches(d, a, d.edges[e].source)
  {
    var p :| IsPathFromTo(d, p, a, b);
    var u := p[|p| - 2];
    assert IsEdge(d, u, b);
    e :| 0 <= e < |d.edges| && d.edges[e].source == u && d.edges[e].target == b;
    assert IsPathFromTo(d, p[..|p| - 1], a, u);
  }

  /** A node that reaches a different node leaves through some edge. */
  lemma ReachesFirstEdge(d: ArenaData, a: nat, b: nat) returns (e: nat)
    requires WellFormed(d) && Reaches(d, a, b) && a != b
    ensures e < |d.edges| && d.edges[e].source == a && Reaches(d, d.edges[e].target, b)
  {
    var p :| IsPathFromTo(d, p, a, b);
    assert IsEdge(d, a, p[1]);
    e :| 0 <= e < |d.edges| && d.edges[e].source == a && d.edges[e].target == p[1];
    assert IsPathFromTo(d, p[1..], p[1], b);
  }

  /** A set closed under children that holds `s` holds everything `s` reaches. */
  lemma {:induction false} ClosedHoldsReachable(d: ArenaData, s: set<nat>, a: nat, b: nat)
    requires ClosedUnderChildren(d, s) && a in s && Reaches(d, a, b)
    ensures b in s
  {
    var p :| IsPathFromTo(d, p, a, b);
    var i := 0;
    while i < |p| - 1
      invariant 0 <= i < |p| && p[i] in s
    {
      assert IsEdge(d, p[i], p[i + 1]);
      i := i + 1;
    }
  }

  /** A set closed under parents that holds `b` holds everything reaching `b`. */
  lemma {:induction false} ClosedHoldsAncestors(d: ArenaData, s: set<nat>, a: nat, b: nat)
    requires ClosedUnderParents(d, s) && b in s && Reaches(d, a, b)
    ensures a in s
  {
    var p :| IsPathFromTo(d, p, a, b);
    var i := |p| - 1;
    while i > 0
      invariant 0 <= i < |p| && p[i] in s
    {
      assert IsEdge(d, p[i - 1], p[i]);
      i := i - 1;
    }
  }

  // ---------------------------------------------------------------------
  // Acyclicity

  /** Acyclicity is the absence of a closed path of at least one edge. */
  lemma AcyclicIffNoCycle(d: ArenaData)
    requires WellFormed(d)
    ensures Acyclic(d) <==> !HasDirectedCycle(d)
  {
    if !Acyclic(d) {
      var e :| 0 <= e < |d.edges| && Reaches(d, d.edges[e].target, d.edges[e].source);
      var p :| IsPathFromTo(d, p, d.edges[e].target, d.edges[e].source);
      var c := [d.edges[e].source] + p;
      assert IsEdge(d, c[0], c[1]);
      assert forall i :: 1 <= i < |c| ==> c[i] == p[i - 1];
      assert IsCycle(d, c);
    }
    if HasDirectedCycle(d) {
      var c :| IsCycle(d, c);
      assert IsEdge(d, c[0], c[1]);
      var e :| 0 <= e < |d.edges| && d.edges[e].source == c[0] && d.edges[e].target == c[1];
      assert IsPathFromTo(d, c[1..], c[1], c[0]);
    }
  }

  lemma ProperSubsetSmaller(a: set<nat>, b: set<nat>)
    requires a < b
    ensures |a| < |b|
  {
    assert b - a != {};
    var x :| x in b - a;
    assert a <= b - {x};
    SubsetNotLarger(a, b - {x});
  }

  lemma {:induction false} SubsetNotLarger(a: set<nat>, b: set<nat>)
    requires a <= b
    ensures |a| <= |b|
    decreases |a|
  {
    if a != {} {
      var x :| x in a;
      SubsetNotLarger(a - {x}, b - {x});
    }
  }

  /** Along an edge of an acyclic arena the descendant set strictly shrinks. */
  lemma DescShrinks(d: ArenaData, e: nat)
    requires WellFormed(d) && Acyclic(d) && e < |d.edges|
    ensures Desc(d, d.edges[e].target) < Desc(d, d.edges[e].source)
    ensures |Desc(d, d.edges[e].target)| < |Desc(d, d.edges[e].source)|
  {
    var p, c := d.edges[e].source, d.edges[e].target;
    EdgeReaches(d, e);
    forall i | i in Desc(d, c) ensures i in Desc(d, p) {
      ReachesPrepend(d, p, c, i);
    }
    ReachesRefl(d, p);
    assert p in Desc(d, p);
    assert p !in Desc(d, c);
    ProperSubsetSmaller(Desc(d, c), Desc(d, p));
  }

  /** Along an edge of an acyclic arena the ancestor set strictly grows. */
  lemma AncShrinks(d: ArenaData, e: nat)
    requires WellFormed(d) && Acyclic(d) && e < |d.edges|
    ensures Anc(d, d.edges[e].source) < Anc(d, d.edges[e].target)
    ensures |Anc(d, d.edges[e].source)| < |Anc(d, d.edges[e].target)|
  {
    var p, c := d.edges[e].source, d.edges[e].target;
    EdgeReaches(d, e);
    forall i | i in Anc(d, p) ensures i in Anc(d, c) {
      ReachesAppend(d, i, p, c);
    }
    ReachesRefl(d, c);
    assert c in Anc(d, c);
    assert c !in Anc(d, p);
    ProperSubsetSmaller(Anc(d, p), Anc(d, c));
  }

  /** In an acyclic arena no edge leaves a node towards itself or back up. */
  lemma AcyclicEdgeNotBack(d: ArenaData, e: nat)
    requires WellFormed(d) && Acyclic(d) && e < |d.edges|
    ensures d.edges[e].source != d.edges[e].target
  {
    if d.edges[e].source == d.edges[e].target {
      ReachesRefl(d, d.edges[e].source);
    }
  }

  /**
   * When every edge goes from a lower to a higher index the arena is acyclic:
   * reachability never decreases the index.
   */
  lemma {:induction false} IndexOrderedIsAcyclic(d: ArenaData)
    requires WellFormed(d)
    requires forall e :: 0 <= e < |d.edges| ==> d.edges[e].source < d.edges[e].target
    ensures Acyclic(d)
  {
    forall e | 0 <= e < |d.edges| ensures !Reaches(d, d.edges[e].target, d.edges[e].source) {
      if Reaches(d, d.edges[e].target, d.edges[e].source) {
        var p :| IsPathFromTo(d, p, d.edges[e].target, d.edges[e].source);
        var i := 0;
        while i < |p| - 1
          invariant 0 <= i < |p| && p[0] <= p[i]
        {
          assert IsEdge(d, p[i], p[i + 1]);
          i := i + 1;
        }
        assert false;
      }
    }
  }

  // ---------------------------------------------------------------------
  // Height: 0 for a childless node, otherwise one more than its highest child.

  ghost function Height(d: ArenaData, n: nat): nat
    requires WellFormed(d) && Acyclic(d) && n < |d.nodes|
    decreases |Desc(d, n)|, 1, 0
  {
    assert OutgoingOk(d, n);
    HeightOver(d, n, d.nodes[n].outgoing)
  }

  /** The largest `1 + Height(child)` over the listed outgoing edges of `n`, 0 if none. */
  ghost function HeightOver(d: ArenaData, n: nat, es: seq<nat>): nat
    requires WellFormed(d) && Acyclic(d) && n < |d.nodes|
    requires forall k :: 0 <= k < |es| ==> es[k] < |d.edges| && d.edges[es[k]].source == n
    decreases |Desc(d, n)|, 0, |es|
  {
    if es == [] then 0
    else
      DescShrinks(d, es[0]);
      Max(1 + Height(d, d.edges[es[0]].target), HeightOver(d, n, es[1..]))
  }

  lemma {:induction false} HeightOverBound(d: ArenaData, n: nat, es: seq<nat>, k: nat)
    requires WellFormed(d) && Acyclic(d) && n < |d.nodes|
    requires forall j :: 0 <= j < |es| ==> es[j] < |d.edges| && d.edges[es[j]].source == n
    requires k < |es|
    ensures HeightOver(d, n, es) >= 1 + Height(d, d.edges[es[k]].target)
    decreases k
  {
    if k > 0 {
      HeightOverBound(d, n, es[1..], k - 1);
    }
  }

  /** Across every edge the height strictly decreases. */
  lemma HeightDecreasesAlongEdge(d: ArenaData, e: nat)
    requires WellFormed(d) && Acyclic(d) && e < |d.edges|
    ensures Height(d, d.edges[e].source) > Height(d, d.edges[e].target)
  {
    var n := d.edges[e].source;
    assert OutgoingOk(d, n) && EdgeLinked(d, e);
    var k :| 0 <= k < |d.nodes[n].outgoing| && d.nodes[n].outgoing[k] == e;
    HeightOverBound(d, n, d.nodes[n].outgoing, k);
  }

  lemma {:induction false} HeightOverAttained(d: ArenaData, n: nat, es: seq<nat>) returns (k: nat)
    requires WellFormed(d) && Acyclic(d) && n < |d.nodes|
    requires forall j :: 0 <= j < |es| ==> es[j] < |d.edges| && d.edges[es[j]].source == n
    requires es != []
    ensures k < |es| && HeightOver(d, n, es) == 1 + Height(d, d.edges[es[k]].target)
    decreases |es|
  {
    if es[1..] == [] || HeightOver(d, n, es) == 1 + Height(d, d.edges[es[0]].target) {
      k := 0;
    } else {
      var k' := HeightOverAttained(d, n, es[1..]);
      k := k' + 1;
    }
  }

  /** A node of positive height has a child exactly one level below it. */
  lemma HeightAttained(d: ArenaData, n: nat) returns (e: nat)
    requires WellFormed(d) && Acyclic(d) && n < |d.nodes| && Height(d, n) > 0
    ensures e < |d.edges| && d.edges[e].source == n && Height(d, n) == 1 + Height(d, d.edges[e].target)
  {
    assert OutgoingOk(d, n);
    var k := HeightOverAttained(d, n, d.nodes[n].outgoing);
    e := d.nodes[n].outgoing[k];
  }

  // ---------------------------------------------------------------------
  // How reachability reacts to changes of the arena

  /** Reachability depends only on the node count and the edge vector. */
  lemma SameEdgesSameReach(d1: ArenaData, d2: ArenaData)
    requires |d1.nodes| == |d2.nodes| && d1.edges == d2.edges
    ensures forall s, t :: Reaches(d1, s, t) <==> Reaches(d2, s, t)
    ensures Acyclic(d1) <==> Acyclic(d2)
  {
    forall p ensures IsPath(d1, p) <==> IsPath(d2, p) {
    }
    forall s, t ensures Reaches(d1, s, t) <==> Reaches(d2, s, t) {
      if Reaches(d1, s, t) {
        var p :| IsPathFromTo(d1, p, s, t);
        assert IsPathFromTo(d2, p, s, t);
      }
      if Reaches(d2, s, t) {
        var p :| IsPathFromTo(d2, p, s, t);
        assert IsPathFromTo(d1, p, s, t);
      }
    }
  }

  /**
   * Appending isolated nodes changes no reachability between the old nodes,
   * and a new node reaches only itself.
   */
  lemma GrowNodesReach(d1: ArenaData, d2: ArenaData, s: nat, t: nat)
    requires EdgesInRange(d1) && |d1.nodes| <= |d2.nodes| && d1.edges == d2.edges
    ensures Reaches(d1, s, t) ==> Reaches(d2, s, t)
    ensures Reaches(d2, s, t) ==> Reaches(d1, s, t) || (s == t && s >= |d1.nodes|)
  {
    if Reaches(d1, s, t) {
      var p :| IsPathFromTo(d1, p, s, t);
      assert IsPathFromTo(d2, p, s, t);
    }
    if Reaches(d2, s, t) && !(s == t && s >= |d1.nodes|) {
      var p :| IsPathFromTo(d2, p, s, t);
      if |p| == 1 {
        assert IsPathFromTo(d1, p, s, t);
      } else {
        forall i | 0 <= i < |p| ensures p[i] < |d1.nodes| {
          if i < |p| - 1 {
            assert IsEdge(d2, p[i], p[i + 1]);
          } else {
            assert IsEdge(d2, p[i - 1], p[i]);
          }
        }
        assert IsPathFromTo(d1, p, s, t);
      }
    }
  }

  /** Appending isolated nodes keeps an arena acyclic. */
  lemma GrowNodesAcyclic(d1: ArenaData, d2: ArenaData)
    requires EdgesInRange(d1) && |d1.nodes| <= |d2.nodes| && d1.edges == d2.edges && Acyclic(d1)
    ensures Acyclic(d2)
  {
    forall e | 0 <= e < |d2.edges| ensures !Reaches(d2, d2.edges[e].target, d2.edges[e].source) {
      GrowNodesReach(d1, d2, d2.edges[e].target, d2.edges[e].source);
    }
  }

  /** The one step of a path that is not an old edge is the appended edge. */
  lemma NewStep(d: ArenaData, d2: ArenaData, x: nat, y: nat)
    requires |d2.edges| == |d.edges| + 1 && d2.edges[..|d.edges|] == d.edges
    requires IsEdge(d2, x, y) && !IsEdge(d, x, y)
    ensures x == d2.edges[|d.edges|].source && y == d2.edges[|d.edges|].target
  {
    var e :| 0 <= e < |d2.edges| && d2.edges[e].source == x && d2.edges[e].target == y;
    if e < |d.edges| {
      assert false;
    }
  }

  /** Appending an edge adds exactly its endpoint pair to the edge relation. */
  lemma AppendEdgeIsEdge(d: ArenaData, d2: ArenaData)
    requires |d2.edges| == |d.edges| + 1 && d2.edges[..|d.edges|] == d.edges
    ensures forall a, b :: IsEdge(d2, a, b) <==>
      IsEdge(d, a, b) || (a == d2.edges[|d.edges|].source && b == d2.edges[|d.edges|].target)
  {
    forall a, b ensures IsEdge(d2, a, b) <==>
      IsEdge(d, a, b) || (a == d2.edges[|d.edges|].source && b == d2.edges[|d.edges|].target)
    {
      if IsEdge(d2, a, b) && !IsEdge(d, a, b) {
        NewStep(d, d2, a, b);
      }
      if IsEdge(d, a, b) {
        var k :| 0 <= k < |d.edges| && d.edges[k].source == a && d.edges[k].target == b;
        assert d2.edges[k] == d.edges[k];
      }
    }
  }

  /**
   * After appending edge `p -> c`, `a` reaches `b` exactly when it did
   * before, or when `a` reached `p` and `c` reached `b`.
   */
  lemma AddEdgeReach(d: ArenaData, d2: ArenaData, a: nat, b: nat)
    requires |d2.nodes| == |d.nodes| && |d2.edges| == |d.edges| + 1 && d2.edges[..|d.edges|] == d.edges
    ensures var p, c := d2.edges[|d.edges|].source, d2.edges[|d.edges|].target;
      Reaches(d2, a, b) <==> Reaches(d, a, b) || (Reaches(d, a, p) && Reaches(d, c, b))
  {
    var p, c := d2.edges[|d.edges|].source, d2.edges[|d.edges|].target;
    if Reaches(d2, a, b) {
      SplitNewPath(d, d2, a, b);
    }
    if Reaches(d, a, b) {
      OldPathKept(d, d2, a, b);
    }
    if Reaches(d, a, p) && Reaches(d, c, b) {
      OldPathKept(d, d2, a, p);
      OldPathKept(d, d2, c, b);
      ReachesInRange(d, a, p);
      ReachesInRange(d, c, b);
      assert IsEdge(d2, p, c);
      assert IsPathFromTo(d2, [p, c], p, c);
      ReachesTrans(d2, a, p, c);
      ReachesTrans(d2, a, c, b);
    }
  }

  /** A path of the smaller arena is a path of the arena with one more edge. */
  lemma OldPathKept(d: ArenaData, d2: ArenaData, a: nat, b: nat)
    requires |d2.nodes| == |d.nodes| && |d2.edges| == |d.edges| + 1 && d2.edges[..|d.edges|] == d.edges
    requires Reaches(d, a, b)
    ensures Reaches(d2, a, b)
  {
    var q :| IsPathFromTo(d, q, a, b);
    forall i | 0 <= i < |q| - 1 ensures IsEdge(d2, q[i], q[i + 1]) {
      assert IsEdge(d, q[i], q[i + 1]);
      var k :| 0 <= k < |d.edges| && d.edges[k].source == q[i] && d.edges[k].target == q[i + 1];
      assert d2.edges[k] == d.edges[k];
    }
    assert IsPathFromTo(d2, q, a, b);
  }

  /**
   * After appending edge `p -> c`, a path either avoids it or splits into a
   * path to `p` and a path from `c`.
   */
  lemma {:induction false} SplitNewPath(d: ArenaData, d2: ArenaData, a: nat, b: nat)
    requires |d2.nodes| == |d.nodes| && |d2.edges| == |d.edges| + 1 && d2.edges[..|d.edges|] == d.edges
    requires Reaches(d2, a, b)
    ensures var p, c := d2.edges[|d.edges|].source, d2.edges[|d.edges|].target;
      Reaches(d, a, b) || (Reaches(d, a, p) && Reaches(d, c, b))
  {
    var p, c := d2.edges[|d.edges|].source, d2.edges[|d.edges|].target;
    var q :| IsPathFromTo(d2, q, a, b);
    var i := 0;
    while i < |q| - 1 && IsEdge(d, q[i], q[i + 1])
      invariant 0 <= i <= |q| - 1
      invariant IsPathFromTo(d, q[..i + 1], a, q[i])
    {
      assert q[..i + 2][..i + 1] == q[..i + 1];
      i := i + 1;
    }
    if i == |q| - 1 {
      assert q[..i + 1] == q;
      return;
    }
    assert IsEdge(d2, q[i], q[i + 1]);
    NewStep(d, d2, q[i], q[i + 1]);
    var j := |q| - 1;
    while j > i + 1 && IsEdge(d, q[j - 1], q[j])
      invariant i + 1 <= j <= |q| - 1
      invariant IsPathFromTo(d, q[j..], q[j], b)
    {
      assert q[j - 1..][1..] == q[j..];
      j := j - 1;
    }
    if j > i + 1 {
      assert IsEdge(d2, q[j - 1], q[j]);
      NewStep(d, d2, q[j - 1], q[j]);
    }
    assert q[j] == c;
  }

  /** Appending an edge `p -> c` where `c` does not reach `p` keeps the arena acyclic. */
  lemma AddEdgeKeepsAcyclic(d: ArenaData, d2: ArenaData)
    requires |d2.nodes| == |d.nodes| && |d2.edges| == |d.edges| + 1 && d2.edges[..|d.edges|] == d.edges
    requires WellFormed(d) && Acyclic(d)
    requires d2.edges[|d.edges|].source < |d.nodes| && d2.edges[|d.edges|].target < |d.nodes|
    requires !Reaches(d, d2.edges[|d.edges|].target, d2.edges[|d.edges|].source)
    ensures Acyclic(d2)
  {
    var p, c := d2.edges[|d.edges|].source, d2.edges[|d.edges|].target;
    forall e | 0 <= e < |d2.edges| ensures !Reaches(d2, d2.edges[e].target, d2.edges[e].source) {
      var s, t := d2.edges[e].source, d2.edges[e].target;
      if Reaches(d2, t, s) {
        AddEdgeReach(d, d2, t, s);
        if e < |d.edges| {
          assert d2.edges[e] == d.edges[e];
          if Reaches(d, t, p) && Reaches(d, c, s) {
            EdgeReaches(d, e);
            ReachesTrans(d, c, s, t);
            ReachesTrans(d, c, t, p);
          }
        }
      }
    }
  }

  // ---------------------------------------------------------------------
  // Reporting paths by component id

  /** The ids of the path's nodes, dropping indices that name no node. */
  function IdPath(d: ArenaData, p: seq<nat>): (r: seq<ComponentId>)
    ensures (forall i :: 0 <= i < |p| ==> p[i] < |d.nodes|) ==>
              |r| == |p| && forall i :: 0 <= i < |p| ==> r[i] == d.nodes[p[i]].componentId
  {
    if p == [] then []
    else (if p[0] < |d.nodes| then [d.nodes[p[0]].componentId] else []) + IdPath(d, p[1..])
  }

  /** Each path converted to ids; a path left empty by the conversion is dropped. */
  function IdPaths(d: ArenaData, ps: seq<seq<nat>>): (r: seq<seq<ComponentId>>)
    ensures forall cp :: cp in r <==> cp != [] && exists p :: p in ps && cp == IdPath(d, p)
    ensures (forall p :: p in ps ==> IdPath(d, p) != []) ==>
              |r| == |ps| && forall k :: 0 <= k < |ps| ==> r[k] == IdPath(d, ps[k])
  {
    if ps == [] then []
    else
      var head := IdPath(d, ps[0]);
      var tail := IdPaths(d, ps[1..]);
      var r := (if head == [] then [] else [head]) + tail;
      assert forall cp :: cp in r <==> (head != [] && cp == head) || cp in tail;
      assert forall p :: p in ps <==> p == ps[0] || p in ps[1..];
      assert forall k :: 1 <= k < |ps| ==> ps[1..][k - 1] == ps[k];
      r
  }
}
