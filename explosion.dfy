/**
 * The material explosion of `ExplosionCalculator`: the demand of a root
 * pushed down the arena level by level, top first, each node's demand
 * reaching its children multiplied by the edges' effective quantities.
 *
 * The specification is the demand recurrence: the root needs the ordered
 * quantity, and every other node needs, summed over the edges that enter it
 * from a node the root reaches, that parent's demand times the edge's
 * effective quantity.
 */
module Explosions {
  import opened Models
  import opened ArenaModel
  import opened Arenas
  import opened Traversals
  import opened Seqs

  // ---------------------------------------------------------------------
  // The demand recurrence

  /** The edges an explosion of `root` follows: those whose parent the root reaches. */
  ghost function ReachEdges(d: ArenaData, root: nat): set<nat>
  {
    set e | 0 <= e < |d.edges| && Reaches(d, root, d.edges[e].source)
  }

  /**
   * What an order of `q` units of `root` requires of node `v`: `q` for the
   * root itself plus, over every followed edge entering `v`, the parent's
   * demand times the edge's effective quantity.
   */
  ghost function Demand(d: ArenaData, root: nat, q: real, v: nat): real
    requires WellFormed(d) && Acyclic(d)
    decreases |Anc(d, v)|, 1
  {
    (if v == root then q else 0.0) + EdgeSum(d, root, q, v, ReachEdges(d, root), |d.edges|)
  }

  /** Over the edges of `es` below index `k` that enter `v`: parent demand times effective quantity. */
  ghost function EdgeSum(d: ArenaData, root: nat, q: real, v: nat, es: set<nat>, k: nat): real
    requires WellFormed(d) && Acyclic(d) && k <= |d.edges|
    decreases |Anc(d, v)|, 0, k
  {
    if k == 0 then 0.0
    else
      var e := k - 1;
      EdgeSum(d, root, q, v, es, e)
        + if e in es && d.edges[e].target == v then
            AncShrinks(d, e);
            d.edges[e].effectiveQuantity * Demand(d, root, q, d.edges[e].source)
          else 0.0
  }

  /** Adding one edge to the summed set adds its term, and only to its target. */
  lemma {:induction false} EdgeSumInsert(d: ArenaData, root: nat, q: real, v: nat, es: set<nat>, e: nat, k: nat)
    requires WellFormed(d) && Acyclic(d) && k <= |d.edges| && e !in es
    ensures EdgeSum(d, root, q, v, es + {e}, k)
            == EdgeSum(d, root, q, v, es, k)
               + if e < k && d.edges[e].target == v then
                   d.edges[e].effectiveQuantity * Demand(d, root, q, d.edges[e].source)
                 else 0.0
  {
    if k > 0 {
      EdgeSumInsert(d, root, q, v, es, e, k - 1);
    }
  }

  /** The sum depends only on which edges entering `v` the set holds. */
  lemma {:induction false} EdgeSumAgree(d: ArenaData, root: nat, q: real, v: nat, es1: set<nat>, es2: set<nat>, k: nat)
    requires WellFormed(d) && Acyclic(d) && k <= |d.edges|
    requires forall e :: 0 <= e < k && d.edges[e].target == v ==> (e in es1 <==> e in es2)
    ensures EdgeSum(d, root, q, v, es1, k) == EdgeSum(d, root, q, v, es2, k)
  {
    if k > 0 {
      EdgeSumAgree(d, root, q, v, es1, es2, k - 1);
    }
  }

  /** A set holding no edge that enters `v` sums to nothing. */
  lemma {:induction false} EdgeSumZero(d: ArenaData, root: nat, q: real, v: nat, es: set<nat>, k: nat)
    requires WellFormed(d) && Acyclic(d) && k <= |d.edges|
    requires forall e :: e in es && e < k ==> d.edges[e].target != v
    ensures EdgeSum(d, root, q, v, es, k) == 0.0
  {
    if k > 0 {
      EdgeSumZero(d, root, q, v, es, k - 1);
    }
  }

  /** The root needs exactly the ordered quantity: no followed edge re-enters it. */
  lemma RootDemand(d: ArenaData, root: nat, q: real)
    requires WellFormed(d) && Acyclic(d)
    ensures Demand(d, root, q, root) == q
  {
    EdgeSumZero(d, root, q, root, ReachEdges(d, root), |d.edges|);
  }

  /** A node the root does not reach needs nothing. */
  lemma UnreachedDemand(d: ArenaData, root: nat, q: real, v: nat)
    requires WellFormed(d) && Acyclic(d) && v != root && !Reaches(d, root, v)
    ensures Demand(d, root, q, v) == 0.0
  {
    forall e | e in ReachEdges(d, root) ensures d.edges[e].target != v {
      if d.edges[e].target == v {
        EdgeReaches(d, e);
        ReachesTrans(d, root, d.edges[e].source, v);
      }
    }
    EdgeSumZero(d, root, q, v, ReachEdges(d, root), |d.edges|);
  }

  /** Demand is linear in the ordered quantity. */
  lemma {:induction false} DemandScales(d: ArenaData, root: nat, q: real, v: nat)
    requires WellFormed(d) && Acyclic(d)
    ensures Demand(d, root, q, v) == q * Demand(d, root, 1.0, v)
    decreases |Anc(d, v)|, 1
  {
    EdgeSumScales(d, root, q, v, ReachEdges(d, root), |d.edges|);
  }

  lemma {:induction false} EdgeSumScales(d: ArenaData, root: nat, q: real, v: nat, es: set<nat>, k: nat)
    requires WellFormed(d) && Acyclic(d) && k <= |d.edges|
    ensures EdgeSum(d, root, q, v, es, k) == q * EdgeSum(d, root, 1.0, v, es, k)
    decreases |Anc(d, v)|, 0, k
  {
    if k > 0 {
      var e := k - 1;
      EdgeSumScales(d, root, q, v, es, e);
      if e in es && d.edges[e].target == v {
        AncShrinks(d, e);
        DemandScales(d, root, q, d.edges[e].source);
      }
      EdgeSumScalesStep(d, root, q, v, es, e);
    } else {
      assert q * 0.0 == 0.0;
    }
  }

  /** One more edge keeps the sum scaled, given its parent's demand scales. */
  lemma EdgeSumScalesStep(d: ArenaData, root: nat, q: real, v: nat, es: set<nat>, e: nat)
    requires WellFormed(d) && Acyclic(d) && e < |d.edges|
    requires EdgeSum(d, root, q, v, es, e) == q * EdgeSum(d, root, 1.0, v, es, e)
    requires e in es && d.edges[e].target == v ==>
               Demand(d, root, q, d.edges[e].source) == q * Demand(d, root, 1.0, d.edges[e].source)
    ensures EdgeSum(d, root, q, v, es, e + 1) == q * EdgeSum(d, root, 1.0, v, es, e + 1)
  {
    var before, unit := EdgeSum(d, root, q, v, es, e), EdgeSum(d, root, 1.0, v, es, e);
    if e in es && d.edges[e].target == v {
      var w, x := d.edges[e].effectiveQuantity, Demand(d, root, 1.0, d.edges[e].source);
      ScaleTerm(EdgeSum(d, root, q, v, es, e + 1), EdgeSum(d, root, 1.0, v, es, e + 1), before, unit, w, x, q);
    }
  }

  /** One more scaled term keeps the sum scaled. */
  lemma ScaleTerm(total: real, unitTotal: real, before: real, unit: real, w: real, x: real, q: real)
    requires before == q * unit && total == before + w * (q * x) && unitTotal == unit + w * x
    ensures total == q * unitTotal
  {
  }

  // ---------------------------------------------------------------------
  // The state of an explosion in progress

  /**
   * `p` is a path from the root to `v` that is `[root]` itself or enters
   * `v` through an edge of `es`.
   */
  ghost predicate Entered(d: ArenaData, root: nat, es: set<nat>, v: nat, p: seq<nat>)
  {
    || (p == [root] && v == root)
    || (&& |p| >= 2 && p[|p| - 1] == v
        && IsPathFromTo(d, p[..|p| - 1], root, p[|p| - 2])
        && exists e :: e in es && e < |d.edges| && d.edges[e].source == p[|p| - 2] && d.edges[e].target == v)
  }

  /** Every followed edge that enters `v` has been pushed. */
  ghost predicate Complete(d: ArenaData, root: nat, es: set<nat>, v: nat)
  {
    forall e :: 0 <= e < |d.edges| && d.edges[e].target == v && Reaches(d, root, d.edges[e].source) ==> e in es
  }

  /**
   * The maps of `explode` after the edges `es` have been pushed: keyed by
   * the root and the targets of `es`, each total is the root's order plus
   * the pushed inflow, and each path list holds exactly the entered paths.
   */
  ghost predicate Exploding(d: ArenaData, root: nat, q: real, quantities: map<nat, real>,
                            paths: map<nat, seq<seq<nat>>>, es: set<nat>)
    requires WellFormed(d) && Acyclic(d)
  {
    KeysOk(d, root, quantities, paths, es) && TotalsOk(d, root, q, quantities, es) && PathsOk(d, root, paths, es)
  }

  /** Both maps are keyed by the root and the targets of `es`, all reached from the root. */
  ghost predicate KeysOk(d: ArenaData, root: nat, quantities: map<nat, real>,
                         paths: map<nat, seq<seq<nat>>>, es: set<nat>)
  {
    && root < |d.nodes|
    && es <= ReachEdges(d, root)
    && root in quantities
    && quantities.Keys == paths.Keys
    && (forall v :: v in quantities ==> v < |d.nodes| && Reaches(d, root, v))
    && (forall e :: e in es ==> e < |d.edges| && d.edges[e].target in quantities)
  }

  /** Each total is the root's order plus the inflow along the pushed edges. */
  ghost predicate TotalsOk(d: ArenaData, root: nat, q: real, quantities: map<nat, real>, es: set<nat>)
    requires WellFormed(d) && Acyclic(d)
  {
    forall v :: v in quantities ==>
      quantities[v] == (if v == root then q else 0.0) + EdgeSum(d, root, q, v, es, |d.edges|)
  }

  /** Each path list holds exactly the paths entered so far. */
  ghost predicate PathsOk(d: ArenaData, root: nat, paths: map<nat, seq<seq<nat>>>, es: set<nat>)
  {
    && (forall v :: v in paths ==> forall p :: p in paths[v] ==> Entered(d, root, es, v, p))
    && (forall v :: v in paths ==> forall p :: Entered(d, root, es, v, p) ==> p in paths[v])
  }

  /** A path followed by one more node. */
  function Extended(ps: seq<seq<nat>>, c: nat): (r: seq<seq<nat>>)
    ensures |r| == |ps| && forall i :: 0 <= i < |ps| ==> r[i] == ps[i] + [c]
  {
    seq(|ps|, i requires 0 <= i < |ps| => ps[i] + [c])
  }

  /** The start of an explosion: the root alone, with its order and the path `[root]`. */
  lemma ExplodingStart(d: ArenaData, root: nat, q: real)
    requires WellFormed(d) && Acyclic(d) && root < |d.nodes|
    ensures Exploding(d, root, q, map[root := q], map[root := [[root]]], {})
  {
    ReachesRefl(d, root);
    EdgeSumZero(d, root, q, root, {}, |d.edges|);
  }

  /** Once every followed edge into `v` is pushed, its total is its demand and its paths are all root paths. */
  lemma Settled(d: ArenaData, root: nat, q: real, quantities: map<nat, real>,
                paths: map<nat, seq<seq<nat>>>, es: set<nat>, v: nat)
    requires WellFormed(d) && Acyclic(d) && Exploding(d, root, q, quantities, paths, es)
    requires Reaches(d, root, v) && Complete(d, root, es, v)
    ensures v in quantities && v in paths && quantities[v] == Demand(d, root, q, v)
    ensures forall p :: p in paths[v] <==> IsPathFromTo(d, p, root, v)
  {
    if v != root {
      var e := ReachesLastEdge(d, root, v);
      assert e in es;
    }
    EdgeSumAgree(d, root, q, v, es, ReachEdges(d, root), |d.edges|);
    forall p ensures p in paths[v] <==> IsPathFromTo(d, p, root, v) {
      if p in paths[v] {
        EnteredIsPath(d, root, es, v, p);
      }
      if IsPathFromTo(d, p, root, v) {
        PathIsEntered(d, root, es, v, p);
      }
    }
  }

  lemma EnteredIsPath(d: ArenaData, root: nat, es: set<nat>, v: nat, p: seq<nat>)
    requires WellFormed(d) && root < |d.nodes| && Entered(d, root, es, v, p)
    ensures IsPathFromTo(d, p, root, v)
  {
    if |p| >= 2 {
      var e :| e in es && e < |d.edges| && d.edges[e].source == p[|p| - 2] && d.edges[e].target == v;
      assert IsEdge(d, p[|p| - 2], v);
      var pre := p[..|p| - 1];
      assert p == pre + [v];
      assert forall i :: 0 <= i < |pre| ==> p[i] == pre[i];
    }
  }

  lemma PathIsEntered(d: ArenaData, root: nat, es: set<nat>, v: nat, p: seq<nat>)
    requires WellFormed(d) && Complete(d, root, es, v) && IsPathFromTo(d, p, root, v)
    ensures Entered(d, root, es, v, p)
  {
    if |p| >= 2 {
      var u := p[|p| - 2];
      var pre := p[..|p| - 1];
      assert forall i :: 0 <= i < |pre| ==> pre[i] == p[i];
      assert IsPathFromTo(d, pre, root, u);
      assert IsEdge(d, u, v);
      var e :| 0 <= e < |d.edges| && d.edges[e].source == u && d.edges[e].target == v;
      assert e in es;
    }
  }

  /**
   * Pushing edge `e` from a settled parent: the child's total grows by the
   * parent's demand times the effective quantity, and its paths by the
   * parent's paths extended with the child.
   */
  lemma PushEdge(d: ArenaData, root: nat, q: real, quantities: map<nat, real>,
                 paths: map<nat, seq<seq<nat>>>, es: set<nat>, e: nat, pq: real, pp: seq<seq<nat>>)
    requires WellFormed(d) && Acyclic(d) && Exploding(d, root, q, quantities, paths, es)
    requires e < |d.edges| && e !in es && Reaches(d, root, d.edges[e].source)
    requires pq == Demand(d, root, q, d.edges[e].source)
    requires forall p :: p in pp <==> IsPathFromTo(d, p, root, d.edges[e].source)
    ensures var c := d.edges[e].target;
            Exploding(d, root, q,
                      quantities[c := (if c in quantities then quantities[c] else 0.0) + d.edges[e].effectiveQuantity * pq],
                      paths[c := (if c in paths then paths[c] else []) + Extended(pp, c)],
                      es + {e})
  {
    PushKeys(d, root, quantities, paths, es, e, d.edges[e].effectiveQuantity * pq, pp);
    PushQuantity(d, root, q, quantities, es, e, pq);
    PushPaths(d, root, paths, es, e, pp);
  }

  lemma PushKeys(d: ArenaData, root: nat, quantities: map<nat, real>, paths: map<nat, seq<seq<nat>>>,
                 es: set<nat>, e: nat, x: real, pp: seq<seq<nat>>)
    requires WellFormed(d) && KeysOk(d, root, quantities, paths, es)
    requires e < |d.edges| && Reaches(d, root, d.edges[e].source)
    ensures var c := d.edges[e].target;
            KeysOk(d, root, quantities[c := (if c in quantities then quantities[c] else 0.0) + x],
                   paths[c := (if c in paths then paths[c] else []) + Extended(pp, c)], es + {e})
  {
    EdgeReaches(d, e);
    ReachesTrans(d, root, d.edges[e].source, d.edges[e].target);
  }

  lemma PushQuantity(d: ArenaData, root: nat, q: real, quantities: map<nat, real>, es: set<nat>, e: nat, pq: real)
    requires WellFormed(d) && Acyclic(d) && e < |d.edges| && e !in es
    requires root in quantities && forall f :: f in es ==> f < |d.edges| && d.edges[f].target in quantities
    requires TotalsOk(d, root, q, quantities, es)
    requires pq == Demand(d, root, q, d.edges[e].source)
    ensures var c := d.edges[e].target;
            TotalsOk(d, root, q, quantities[c := (if c in quantities then quantities[c] else 0.0) + d.edges[e].effectiveQuantity * pq],
                     es + {e})
  {
    var c := d.edges[e].target;
    var q2 := quantities[c := (if c in quantities then quantities[c] else 0.0) + d.edges[e].effectiveQuantity * pq];
    forall v | v in q2
      ensures q2[v] == (if v == root then q else 0.0) + EdgeSum(d, root, q, v, es + {e}, |d.edges|)
    {
      assert v in quantities ==> quantities[v] == (if v == root then q else 0.0) + EdgeSum(d, root, q, v, es, |d.edges|);
      PushQuantityAt(d, root, q, quantities, es, e, pq, v);
    }
  }

  lemma PushQuantityAt(d: ArenaData, root: nat, q: real, quantities: map<nat, real>, es: set<nat>, e: nat, pq: real, v: nat)
    requires WellFormed(d) && Acyclic(d) && e < |d.edges| && e !in es
    requires root in quantities && forall f :: f in es ==> f < |d.edges| && d.edges[f].target in quantities
    requires v in quantities ==> quantities[v] == (if v == root then q else 0.0) + EdgeSum(d, root, q, v, es, |d.edges|)
    requires pq == Demand(d, root, q, d.edges[e].source)
    requires v in quantities || v == d.edges[e].target
    ensures var c := d.edges[e].target;
            var total := if v == c then (if c in quantities then quantities[c] else 0.0) + d.edges[e].effectiveQuantity * pq
                         else quantities[v];
            total == (if v == root then q else 0.0) + EdgeSum(d, root, q, v, es + {e}, |d.edges|)
  {
    var c, n := d.edges[e].target, |d.edges|;
    EdgeSumInsert(d, root, q, v, es, e, n);
    if v == c {
      if c !in quantities {
        EdgeSumZero(d, root, q, c, es, n);
      }
      AddTerm(quantities, root, q, c, EdgeSum(d, root, q, c, es, n), EdgeSum(d, root, q, c, es + {e}, n),
              d.edges[e].effectiveQuantity * pq);
    }
  }

  /** Adding a term to a total and to its sum part keeps them in step. */
  lemma AddTerm(quantities: map<nat, real>, root: nat, q: real, c: nat, sum: real, sum2: real, term: real)
    requires root in quantities && sum2 == sum + term
    requires c in quantities ==> quantities[c] == (if c == root then q else 0.0) + sum
    requires c !in quantities ==> sum == 0.0
    ensures (if c in quantities then quantities[c] else 0.0) + term == (if c == root then q else 0.0) + sum2
  {
  }

  lemma PushPaths(d: ArenaData, root: nat, paths: map<nat, seq<seq<nat>>>, es: set<nat>, e: nat, pp: seq<seq<nat>>)
    requires WellFormed(d) && e < |d.edges| && root in paths
    requires PathsOk(d, root, paths, es)
    requires forall f :: f in es ==> f < |d.edges| && d.edges[f].target in paths
    requires forall p :: p in pp <==> IsPathFromTo(d, p, root, d.edges[e].source)
    ensures var c := d.edges[e].target;
            PathsOk(d, root, paths[c := (if c in paths then paths[c] else []) + Extended(pp, c)], es + {e})
  {
    var c := d.edges[e].target;
    var old_c := if c in paths then paths[c] else [];
    var p2 := paths[c := old_c + Extended(pp, c)];
    forall v, p | v in p2 && p in p2[v] ensures Entered(d, root, es + {e}, v, p) {
      if v == c && p !in old_c {
        ExtendedIsEntered(d, root, es, e, pp, p);
      } else {
        EnteredGrows(d, root, es, e, v, p);
      }
    }
    forall v, p | v in p2 && Entered(d, root, es + {e}, v, p) ensures p in p2[v] {
      if Entered(d, root, es, v, p) {
        EnteredKeyed(d, root, paths, es, v, p);
      } else {
        NewlyEntered(d, root, es, e, pp, v, p);
      }
    }
  }

  /** A parent path extended along `e` enters the child through `e`. */
  lemma ExtendedIsEntered(d: ArenaData, root: nat, es: set<nat>, e: nat, pp: seq<seq<nat>>, p: seq<nat>)
    requires e < |d.edges| && p in Extended(pp, d.edges[e].target)
    requires forall x :: x in pp <==> IsPathFromTo(d, x, root, d.edges[e].source)
    ensures Entered(d, root, es + {e}, d.edges[e].target, p)
  {
    var c := d.edges[e].target;
    var i :| 0 <= i < |pp| && p == Extended(pp, c)[i];
    assert p[..|p| - 1] == pp[i];
    assert IsPathFromTo(d, pp[i], root, d.edges[e].source);
    assert p[|p| - 2] == d.edges[e].source;
    assert e in es + {e};
  }

  /** A path entered through the pushed edge is a parent path extended with the child. */
  lemma NewlyEntered(d: ArenaData, root: nat, es: set<nat>, e: nat, pp: seq<seq<nat>>, v: nat, p: seq<nat>)
    requires e < |d.edges| && Entered(d, root, es + {e}, v, p) && !Entered(d, root, es, v, p)
    requires forall x :: x in pp <==> IsPathFromTo(d, x, root, d.edges[e].source)
    ensures v == d.edges[e].target && p in Extended(pp, v)
  {
    var f :| f in es + {e} && f < |d.edges| && d.edges[f].source == p[|p| - 2] && d.edges[f].target == v;
    assert f == e;
    var pre := p[..|p| - 1];
    var i :| 0 <= i < |pp| && pp[i] == pre;
    assert Extended(pp, v)[i] == p;
  }

  lemma EnteredKeyed(d: ArenaData, root: nat, paths: map<nat, seq<seq<nat>>>, es: set<nat>, v: nat, p: seq<nat>)
    requires root in paths && Entered(d, root, es, v, p)
    requires forall f :: f in es ==> f < |d.edges| && d.edges[f].target in paths
    ensures v in paths
  {
    if v != root {
      var f :| f in es && f < |d.edges| && d.edges[f].source == p[|p| - 2] && d.edges[f].target == v;
    }
  }

  lemma EnteredGrows(d: ArenaData, root: nat, es: set<nat>, e: nat, v: nat, p: seq<nat>)
    requires Entered(d, root, es, v, p)
    ensures Entered(d, root, es + {e}, v, p)
  {
    if |p| >= 2 {
      var f :| f in es && f < |d.edges| && d.edges[f].source == p[|p| - 2] && d.edges[f].target == v;
      assert f in es + {e};
    }
  }

  // ---------------------------------------------------------------------
  // Pushing one level

  /** The edges that leave `p`. */
  ghost function OutEdgesOf(d: ArenaData, p: nat): set<nat>
  {
    set e | 0 <= e < |d.edges| && d.edges[e].source == p
  }

  /** The edges that leave a node of `group`. */
  ghost function GroupEdges(d: ArenaData, group: seq<nat>): set<nat>
  {
    set e | 0 <= e < |d.edges| && d.edges[e].source in group
  }

  /** Pushing edge `e`: the child's total grows by `pq` times the effective quantity, its paths by `pp` extended. */
  method PushChild(d: ArenaData, root: nat, q: real, p: nat, e: nat, pq: real, pp: seq<seq<nat>>,
                   quantities: map<nat, real>, paths: map<nat, seq<seq<nat>>>, ghost es: set<nat>)
    returns (quantities2: map<nat, real>, paths2: map<nat, seq<seq<nat>>>)
    requires WellFormed(d) && Acyclic(d) && Exploding(d, root, q, quantities, paths, es)
    requires p < |d.nodes| && e in d.nodes[p].outgoing && e !in es && Reaches(d, root, p)
    requires pq == Demand(d, root, q, p) && forall x :: x in pp <==> IsPathFromTo(d, x, root, p)
    ensures Exploding(d, root, q, quantities2, paths2, es + {e})
  {
    assert OutgoingOk(d, p);
    var c := d.edges[e].target;
    var childQty := d.edges[e].effectiveQuantity * pq;
    var childPaths := Extended(pp, c);
    PushEdge(d, root, q, quantities, paths, es, e, pq, pp);
    quantities2 := quantities[c := (if c in quantities then quantities[c] else 0.0) + childQty];
    paths2 := paths[c := (if c in paths then paths[c] else []) + childPaths];
  }

  /**
   * One parent of a level: each outgoing edge carries the parent's total
   * times the edge's effective quantity to the child, and the parent's
   * paths extended with the child; the child's entries grow by both.
   */
  method PushChildren(d: ArenaData, root: nat, q: real, p: nat, pq: real, pp: seq<seq<nat>>,
                      quantities: map<nat, real>, paths: map<nat, seq<seq<nat>>>, ghost es: set<nat>)
    returns (quantities2: map<nat, real>, paths2: map<nat, seq<seq<nat>>>, ghost es2: set<nat>)
    requires WellFormed(d) && Acyclic(d) && Exploding(d, root, q, quantities, paths, es)
    requires p < |d.nodes| && Reaches(d, root, p)
    requires pq == Demand(d, root, q, p) && forall x :: x in pp <==> IsPathFromTo(d, x, root, p)
    requires forall e :: e in es ==> d.edges[e].source != p
    ensures Exploding(d, root, q, quantities2, paths2, es2)
    ensures es2 == es + OutEdgesOf(d, p)
  {
    quantities2, paths2, es2 := quantities, paths, es;
    var out := d.nodes[p].outgoing;
    assert OutgoingOk(d, p);
    for k := 0 to |out|
      invariant Exploding(d, root, q, quantities2, paths2, es2)
      invariant es2 == es + PrefixSet(out, k)
    {
      assert out[k] !in es2 by {
        assert forall j :: 0 <= j < k ==> out[j] != out[k];
      }
      PrefixSetStep(out, k);
      quantities2, paths2 := PushChild(d, root, q, p, out[k], pq, pp, quantities2, paths2, es2);
      es2 := es2 + {out[k]};
    }
    forall e | e in OutEdgesOf(d, p) ensures e in PrefixSet(out, |out|) {
      assert EdgeLinked(d, e);
      var j :| 0 <= j < |out| && out[j] == e;
    }
  }

  /** The elements of the first `k` entries of `s`. */
  ghost function PrefixSet(s: seq<nat>, k: nat): set<nat>
    requires k <= |s|
  {
    set j | 0 <= j < k :: s[j]
  }

  lemma PrefixSetStep(s: seq<nat>, k: nat)
    requires k < |s|
    ensures PrefixSet(s, k + 1) == PrefixSet(s, k) + {s[k]}
  {
  }

  /**
   * One level of `explode`: the totals and paths of the level's nodes are
   * read from a snapshot taken before the level starts, and every edge
   * leaving the level is pushed.
   */
  method PushLevel(d: ArenaData, root: nat, q: real, group: seq<nat>,
                   quantities: map<nat, real>, paths: map<nat, seq<seq<nat>>>, ghost es: set<nat>)
    returns (quantities2: map<nat, real>, paths2: map<nat, seq<seq<nat>>>, ghost es2: set<nat>)
    requires WellFormed(d) && Acyclic(d) && Exploding(d, root, q, quantities, paths, es)
    requires NoDuplicates(group)
    requires forall i :: 0 <= i < |group| ==> group[i] < |d.nodes| && Reaches(d, root, group[i])
    requires forall i :: 0 <= i < |group| ==> Complete(d, root, es, group[i])
    requires forall e :: e in es ==> d.edges[e].source !in group
    ensures Exploding(d, root, q, quantities2, paths2, es2)
    ensures es2 == es + GroupEdges(d, group)
  {
    var snapshot, pathsSnapshot := quantities, paths;
    forall i | 0 <= i < |group|
      ensures group[i] in snapshot && group[i] in pathsSnapshot
      ensures snapshot[group[i]] == Demand(d, root, q, group[i])
      ensures forall x :: x in pathsSnapshot[group[i]] <==> IsPathFromTo(d, x, root, group[i])
    {
      Settled(d, root, q, quantities, paths, es, group[i]);
    }
    quantities2, paths2, es2 := quantities, paths, es;
    for i := 0 to |group|
      invariant Exploding(d, root, q, quantities2, paths2, es2)
      invariant es2 == es + GroupEdges(d, group[..i])
    {
      var p := group[i];
      GroupEdgesStep(d, es, group, i);
      if p in snapshot {
        quantities2, paths2, es2 := PushChildren(d, root, q, p, snapshot[p], pathsSnapshot[p], quantities2, paths2, es2);
      }
    }
    assert group[..|group|] == group;
  }

  /** The edges of the first `i + 1` nodes of the group: those of the first `i` and those of the next. */
  lemma GroupEdgesStep(d: ArenaData, es: set<nat>, group: seq<nat>, i: nat)
    requires NoDuplicates(group) && i < |group|
    requires forall e :: e in es ==> e < |d.edges| && d.edges[e].source !in group
    ensures forall e :: e in es + GroupEdges(d, group[..i]) ==> d.edges[e].source != group[i]
    ensures GroupEdges(d, group[..i + 1]) == GroupEdges(d, group[..i]) + OutEdgesOf(d, group[i])
  {
    assert group[..i + 1] == group[..i] + [group[i]];
    assert forall j :: 0 <= j < i ==> group[j] != group[i];
  }

  // ---------------------------------------------------------------------
  // The levels, top first

  /**
   * `level_grouping` of `[root]` in an acyclic arena: bucket `g` holds,
   * once each, exactly the nodes the root reaches whose height is `g`.
   */
  ghost predicate Levelled(d: ArenaData, root: nat, levels: seq<seq<nat>>)
    requires WellFormed(d) && Acyclic(d)
  {
    && (forall g :: 0 <= g < |levels| ==> NoDuplicates(levels[g]))
    && (forall g :: 0 <= g < |levels| ==> forall v :: v in levels[g] ==>
          v < |d.nodes| && Reaches(d, root, v) && Height(d, v) == g)
    && (forall v: nat :: v < |d.nodes| && Reaches(d, root, v) ==> Height(d, v) < |levels| && v in levels[Height(d, v)])
  }

  lemma LevelledGrouping(d: ArenaData, root: nat, levels: seq<seq<nat>>)
    requires WellFormed(d) && Acyclic(d) && root < |d.nodes|
    requires forall g :: 0 <= g < |levels| ==> NoDuplicates(levels[g])
    requires forall g :: 0 <= g < |levels| ==> forall v :: v in levels[g] ==> v < |d.nodes| && InClosure(d, [root], v)
    requires forall g :: 0 <= g < |levels| ==> forall v :: v in levels[g] ==> v < |d.nodes| && Height(d, v) == g
    requires forall v: nat :: v < |d.nodes| && InClosure(d, [root], v) ==> Height(d, v) < |levels| && v in levels[Height(d, v)]
    ensures Levelled(d, root, levels)
  {
    forall v: nat { ClosureOfRoot(d, root, v); }
  }

  /** The followed edges whose parent stands at height `h` or above. */
  ghost function Above(d: ArenaData, root: nat, h: nat): set<nat>
    requires WellFormed(d) && Acyclic(d)
  {
    set e | 0 <= e < |d.edges| && Reaches(d, root, d.edges[e].source) && Height(d, d.edges[e].source) >= h
  }

  /** Before bucket `g` is pushed, its nodes are complete; pushing it adds exactly its height's edges. */
  lemma LevelEdges(d: ArenaData, root: nat, levels: seq<seq<nat>>, g: nat)
    requires WellFormed(d) && Acyclic(d) && Levelled(d, root, levels) && g < |levels|
    ensures NoDuplicates(levels[g])
    ensures forall i :: 0 <= i < |levels[g]| ==> levels[g][i] < |d.nodes| && Reaches(d, root, levels[g][i])
    ensures forall i :: 0 <= i < |levels[g]| ==> Complete(d, root, Above(d, root, g + 1), levels[g][i])
    ensures forall e :: e in Above(d, root, g + 1) ==> d.edges[e].source !in levels[g]
    ensures Above(d, root, g + 1) + GroupEdges(d, levels[g]) == Above(d, root, g)
  {
    forall i, e | 0 <= i < |levels[g]| && 0 <= e < |d.edges| && d.edges[e].target == levels[g][i]
                  && Reaches(d, root, d.edges[e].source)
      ensures e in Above(d, root, g + 1)
    {
      HeightDecreasesAlongEdge(d, e);
    }
    forall i | 0 <= i < |levels[g]| ensures levels[g][i] < |d.nodes| && Reaches(d, root, levels[g][i]) {
      assert levels[g][i] in levels[g];
    }
  }

  /** No followed edge starts above the top bucket, and every followed edge starts at height 0 or more. */
  lemma AboveBounds(d: ArenaData, root: nat, levels: seq<seq<nat>>)
    requires WellFormed(d) && Acyclic(d) && Levelled(d, root, levels)
    ensures Above(d, root, |levels|) == {}
    ensures Above(d, root, 0) == ReachEdges(d, root)
  {
  }

  /**
   * The loop of `explode`: the buckets of `level_grouping` from the top
   * down, each pushed from a snapshot of the totals before it.
   */
  method PushAllLevels(d: ArenaData, root: nat, q: real, levels: seq<seq<nat>>)
    returns (quantities: map<nat, real>, paths: map<nat, seq<seq<nat>>>)
    requires WellFormed(d) && Acyclic(d) && root < |d.nodes| && Levelled(d, root, levels)
    ensures Exploding(d, root, q, quantities, paths, ReachEdges(d, root))
  {
    quantities := map[root := q];
    paths := map[root := [[root]]];
    ExplodingStart(d, root, q);
    AboveBounds(d, root, levels);
    ghost var es: set<nat> := {};
    var g := |levels|;
    while g > 0
      invariant 0 <= g <= |levels|
      invariant Exploding(d, root, q, quantities, paths, es)
      invariant es == Above(d, root, g)
    {
      g := g - 1;
      LevelEdges(d, root, levels, g);
      quantities, paths, es := PushLevel(d, root, q, levels[g], quantities, paths, es);
    }
    assert es == ReachEdges(d, root) by {
      assert g == 0;
    }
  }

  // ---------------------------------------------------------------------
  // The result items

  /** The length of the longest path, `None` when there is none. */
  function MaxLength(ps: seq<seq<nat>>): (r: Option<nat>)
    ensures r.None? <==> ps == []
    ensures r.Some? ==> forall k :: 0 <= k < |ps| ==> |ps[k]| <= r.value
    ensures r.Some? ==> exists k :: 0 <= k < |ps| && |ps[k]| == r.value
  {
    if ps == [] then None
    else
      match MaxLength(ps[1..])
      case None => Some(|ps[0]|)
      case Some(m) => Some(Max(|ps[0]|, m))
  }

  /** An item's level: the longest path's length less one (never below 0), or 0 with no path. */
  function PathLevel(ps: seq<seq<nat>>): nat
  {
    match MaxLength(ps)
    case None => 0
    case Some(m) => if m >= 1 then m - 1 else 0
  }

  /** The item `explode` reports for node `v`; `is_phantom` is always false. */
  function ItemFor(d: ArenaData, v: nat, total: real, ps: seq<seq<nat>>): ExplosionItem
    requires v < |d.nodes|
  {
    ExplosionItem(d.nodes[v].componentId, total, PathLevel(ps), IdPaths(d, ps), false)
  }

  /**
   * `it` is node `v`'s entry in the explosion of `q` units of `root`: its
   * id, its demand, its paths exactly the root-to-`v` paths by id, and its
   * level one less than the longest of them.
   */
  ghost predicate ExplodedItem(d: ArenaData, root: nat, q: real, v: nat, it: ExplosionItem)
    requires WellFormed(d) && Acyclic(d)
  {
    && v < |d.nodes| && Reaches(d, root, v)
    && it.componentId == d.nodes[v].componentId
    && it.totalQuantity == Demand(d, root, q, v)
    && !it.isPhantom
    && (forall cp :: cp in it.paths <==> exists p :: IsPathFromTo(d, p, root, v) && cp == IdPath(d, p))
    && (forall k :: 0 <= k < |it.paths| ==> |it.paths[k]| <= it.level + 1)
    && (exists k :: 0 <= k < |it.paths| && |it.paths[k]| == it.level + 1)
  }

  lemma ItemForSettled(d: ArenaData, root: nat, q: real, v: nat, total: real, ps: seq<seq<nat>>)
    requires WellFormed(d) && Acyclic(d) && v < |d.nodes| && Reaches(d, root, v)
    requires total == Demand(d, root, q, v)
    requires forall p :: p in ps <==> IsPathFromTo(d, p, root, v)
    ensures ExplodedItem(d, root, q, v, ItemFor(d, v, total, ps))
  {
    var it := ItemFor(d, v, total, ps);
    var p0 :| IsPathFromTo(d, p0, root, v);
    assert p0 in ps;
    forall p | p in ps ensures |IdPath(d, p)| == |p| >= 1 {
      assert IsPathFromTo(d, p, root, v);
    }
    assert |it.paths| == |ps| && forall k :: 0 <= k < |ps| ==> it.paths[k] == IdPath(d, ps[k]);
    var m := MaxLength(ps).value;
    var k0 :| 0 <= k0 < |ps| && |ps[k0]| == m;
    assert ps[k0] in ps;
    assert it.level == m - 1;
    assert |it.paths[k0]| == it.level + 1;
    forall k | 0 <= k < |it.paths| ensures |it.paths[k]| <= it.level + 1 {
      assert ps[k] in ps;
    }
  }

  /** An item's level counts the edges of the longest path from the root to its node. */
  lemma ItemLevelIsLongestPath(d: ArenaData, root: nat, q: real, v: nat, it: ExplosionItem)
    requires WellFormed(d) && Acyclic(d) && ExplodedItem(d, root, q, v, it)
    ensures forall p :: IsPathFromTo(d, p, root, v) ==> |p| <= it.level + 1
    ensures exists p :: IsPathFromTo(d, p, root, v) && |p| == it.level + 1
  {
    forall p | IsPathFromTo(d, p, root, v) ensures |p| <= it.level + 1 {
      assert IdPath(d, p) in it.paths;
      var k :| 0 <= k < |it.paths| && it.paths[k] == IdPath(d, p);
    }
    var k :| 0 <= k < |it.paths| && |it.paths[k]| == it.level + 1;
    assert it.paths[k] in it.paths;
    var p :| IsPathFromTo(d, p, root, v) && it.paths[k] == IdPath(d, p);
  }

  /** Every item is the exploded entry of the node its id names. */
  ghost predicate ItemsExploded(d: ArenaData, index: map<ComponentId, nat>, root: nat, q: real, items: seq<ExplosionItem>)
    requires WellFormed(d) && Acyclic(d)
  {
    forall k :: 0 <= k < |items| ==>
      items[k].componentId in index && ExplodedItem(d, root, q, index[items[k].componentId], items[k])
  }

  /** Every node of `vs` has an item. */
  ghost predicate ItemsCover(d: ArenaData, items: seq<ExplosionItem>, vs: set<nat>)
  {
    forall v :: v in vs ==> v < |d.nodes| && exists k :: 0 <= k < |items| && items[k].componentId == d.nodes[v].componentId
  }

  predicate DistinctIds(items: seq<ExplosionItem>)
  {
    forall i, j :: 0 <= i < j < |items| ==> items[i].componentId != items[j].componentId
  }

  /** The totals and paths once every followed edge is pushed: keyed by exactly the reached nodes, all settled. */
  ghost predicate Exploded(d: ArenaData, root: nat, q: real, quantities: map<nat, real>, paths: map<nat, seq<seq<nat>>>)
    requires WellFormed(d) && Acyclic(d)
  {
    && (forall v: nat :: v in quantities <==> v < |d.nodes| && Reaches(d, root, v))
    && (forall v :: v in quantities ==> v in paths && quantities[v] == Demand(d, root, q, v))
    && (forall v :: v in quantities ==> forall p :: p in paths[v] <==> IsPathFromTo(d, p, root, v))
  }

  lemma AllSettled(d: ArenaData, root: nat, q: real, quantities: map<nat, real>, paths: map<nat, seq<seq<nat>>>)
    requires WellFormed(d) && Acyclic(d) && Exploding(d, root, q, quantities, paths, ReachEdges(d, root))
    ensures Exploded(d, root, q, quantities, paths)
  {
    forall v: nat | v < |d.nodes| && Reaches(d, root, v)
      ensures v in quantities && v in paths && quantities[v] == Demand(d, root, q, v)
      ensures forall p :: p in paths[v] <==> IsPathFromTo(d, p, root, v)
    {
      Settled(d, root, q, quantities, paths, ReachEdges(d, root), v);
    }
  }

  /** Appending node `v`'s item, for a `v` just taken from the unvisited keys. */
  lemma AppendItem(d: ArenaData, index: map<ComponentId, nat>, root: nat, q: real, items: seq<ExplosionItem>,
                   done: set<nat>, v: nat, it: ExplosionItem)
    requires WellFormed(d) && Acyclic(d) && IndexConsistent(d.nodes, index)
    requires ItemsExploded(d, index, root, q, items) && ItemsCover(d, items, done) && DistinctIds(items)
    requires forall k :: 0 <= k < |items| ==> index[items[k].componentId] in done
    requires v !in done && v < |d.nodes| && ExplodedItem(d, root, q, v, it)
    ensures ItemsExploded(d, index, root, q, items + [it]) && ItemsCover(d, items + [it], done + {v})
    ensures DistinctIds(items + [it])
    ensures forall k :: 0 <= k < |items + [it]| ==> index[(items + [it])[k].componentId] in done + {v}
  {
    var s := items + [it];
    assert s[|items|] == it;
    assert forall k :: 0 <= k < |items| ==> s[k] == items[k];
    AppendCovers(d, items, done, v, it);
  }

  lemma AppendCovers(d: ArenaData, items: seq<ExplosionItem>, done: set<nat>, v: nat, it: ExplosionItem)
    requires ItemsCover(d, items, done) && v < |d.nodes| && it.componentId == d.nodes[v].componentId
    ensures ItemsCover(d, items + [it], done + {v})
  {
    var s := items + [it];
    forall w | w in done + {v}
      ensures exists k :: 0 <= k < |s| && s[k].componentId == d.nodes[w].componentId
    {
      if w == v {
        assert s[|items|] == it;
      } else {
        var k :| 0 <= k < |items| && items[k].componentId == d.nodes[w].componentId;
        assert s[k] == items[k];
      }
    }
  }

  /**
   * The items of `explode` before sorting: one per entry of the totals map,
   * taken in an arbitrary order (the map's iteration order).
   */
  method CollectItems(d: ArenaData, index: map<ComponentId, nat>, root: nat, q: real,
                      quantities: map<nat, real>, paths: map<nat, seq<seq<nat>>>)
    returns (items: seq<ExplosionItem>)
    requires WellFormed(d) && Acyclic(d) && IndexConsistent(d.nodes, index)
    requires Exploded(d, root, q, quantities, paths)
    ensures ItemsExploded(d, index, root, q, items) && DistinctIds(items)
    ensures ItemsCover(d, items, quantities.Keys)
  {
    items := [];
    var rest := quantities.Keys;
    while rest != {}
      invariant rest <= quantities.Keys
      invariant ItemsExploded(d, index, root, q, items) && DistinctIds(items)
      invariant ItemsCover(d, items, quantities.Keys - rest)
      invariant forall k :: 0 <= k < |items| ==> index[items[k].componentId] in quantities.Keys - rest
      decreases |rest|
    {
      var v :| v in rest;
      if v < |d.nodes| {
        var ps := if v in paths then paths[v] else [];
        ItemForSettled(d, root, q, v, quantities[v], ps);
        AppendItem(d, index, root, q, items, quantities.Keys - rest, v, ItemFor(d, v, quantities[v], ps));
        items := items + [ItemFor(d, v, quantities[v], ps)];
      }
      TakeOne(quantities.Keys, rest, v);
      rest := rest - {v};
    }
    assert quantities.Keys - rest == quantities.Keys;
  }

  lemma TakeOne(all: set<nat>, rest: set<nat>, v: nat)
    requires rest <= all && v in rest
    ensures all - (rest - {v}) == (all - rest) + {v}
    ensures |rest - {v}| < |rest|
  {
  }

  /** The largest level among the items, 0 when there are none. */
  function MaxLevel(items: seq<ExplosionItem>): (r: nat)
    ensures forall k :: 0 <= k < |items| ==> items[k].level <= r
    ensures items != [] ==> exists k :: 0 <= k < |items| && items[k].level == r
    ensures items == [] ==> r == 0
  {
    if items == [] then 0 else Max(items[0].level, MaxLevel(items[1..]))
  }

  /**
   * `explode`: the full material explosion of `q` units of `id`. Every
   * component the root reaches, the root included, appears once with its
   * demand, all its paths from the root and the edge count of the longest;
   * items come sorted by level and `max_depth` is the largest level.
   */
  method Explode(d: ArenaData, index: map<ComponentId, nat>, id: ComponentId, q: real)
    returns (r: Result<ExplosionResult>)
    requires WellFormed(d) && Acyclic(d) && IndexConsistent(d.nodes, index)
    ensures r.Err? <==> id !in index
    ensures r.Err? ==> r.error == ComponentNotFound(id)
    ensures r.Ok? ==> r.value.rootComponent == id
    ensures r.Ok? ==> forall k :: 0 <= k < |r.value.items| ==>
              && r.value.items[k].componentId in index
              && ExplodedItem(d, index[id], q, index[r.value.items[k].componentId], r.value.items[k])
    ensures r.Ok? ==> forall v: nat :: v < |d.nodes| && Reaches(d, index[id], v) ==>
              exists k :: 0 <= k < |r.value.items| && r.value.items[k].componentId == d.nodes[v].componentId
    ensures r.Ok? ==> forall i, j :: 0 <= i < j < |r.value.items| ==>
              r.value.items[i].componentId != r.value.items[j].componentId
    ensures r.Ok? ==> forall i, j :: 0 <= i < j < |r.value.items| ==>
              r.value.items[i].level <= r.value.items[j].level
    ensures r.Ok? ==> r.value.uniqueComponentCount == |r.value.items|
    ensures r.Ok? ==> forall k :: 0 <= k < |r.value.items| ==> r.value.items[k].level <= r.value.maxDepth
    ensures r.Ok? ==> exists k :: 0 <= k < |r.value.items| && r.value.items[k].level == r.value.maxDepth
  {
    if id !in index {
      return Err(ComponentNotFound(id));
    }
    var root := index[id];
    var levels := LevelGrouping(d, [root]);
    LevelledGrouping(d, root, levels);
    var quantities, paths := PushAllLevels(d, root, q, levels);
    AllSettled(d, root, q, quantities, paths);
    var items := CollectItems(d, index, root, q, quantities, paths);
    var sorted := SortItems(d, index, root, q, items);
    ReachesRefl(d, root);
    r := Ok(ExplosionResult(id, sorted, |sorted|, MaxLevel(sorted)));
  }

  /** `sort_by_key` on the level; every per-item fact survives the reordering. */
  method SortItems(d: ArenaData, index: map<ComponentId, nat>, root: nat, q: real, items: seq<ExplosionItem>)
    returns (sorted: seq<ExplosionItem>)
    requires WellFormed(d) && Acyclic(d)
    requires ItemsExploded(d, index, root, q, items) && DistinctIds(items)
    requires forall v: nat :: v < |d.nodes| && Reaches(d, root, v) ==>
               exists k :: 0 <= k < |items| && items[k].componentId == d.nodes[v].componentId
    ensures forall k :: 0 <= k < |sorted| ==>
              sorted[k].componentId in index && ExplodedItem(d, root, q, index[sorted[k].componentId], sorted[k])
    ensures forall v: nat :: v < |d.nodes| && Reaches(d, root, v) ==>
              exists k :: 0 <= k < |sorted| && sorted[k].componentId == d.nodes[v].componentId
    ensures forall i, j :: 0 <= i < j < |sorted| ==> sorted[i].componentId != sorted[j].componentId
    ensures forall i, j :: 0 <= i < j < |sorted| ==> sorted[i].level <= sorted[j].level
  {
    sorted := SortByKey(items, (it: ExplosionItem) => it.level as real);
    forall k | 0 <= k < |sorted| ensures sorted[k] in items {
      assert sorted[k] in multiset(sorted);
    }
    forall v: nat | v < |d.nodes| && Reaches(d, root, v)
      ensures exists k :: 0 <= k < |sorted| && sorted[k].componentId == d.nodes[v].componentId
    {
      var k :| 0 <= k < |items| && items[k].componentId == d.nodes[v].componentId;
      assert items[k] in multiset(items);
      var j :| 0 <= j < |sorted| && sorted[j] == items[k];
    }
    assert Distinct(items);
    forall i, j | 0 <= i < j < |sorted| ensures sorted[i].componentId != sorted[j].componentId {
      var a :| 0 <= a < |items| && items[a] == sorted[i];
      var b :| 0 <= b < |items| && items[b] == sorted[j];
    }
    forall i, j | 0 <= i < j < |sorted| ensures sorted[i].level <= sorted[j].level {
      assert (sorted[i].level as real) <= (sorted[j].level as real);
    }
  }

  // ---------------------------------------------------------------------
  // Single level and flattened explosions

  /** The item of the child that edge `e` leads to, for `q` units of the parent. */
  function ChildItem(d: ArenaData, parentId: ComponentId, q: real, e: nat): ExplosionItem
    requires e < |d.edges| && d.edges[e].target < |d.nodes|
  {
    var childId := d.nodes[d.edges[e].target].componentId;
    ExplosionItem(childId, d.edges[e].effectiveQuantity * q, 1, [[parentId, childId]], d.edges[e].bomItem.isPhantom)
  }

  /**
   * `explode_single_level`: one item per outgoing edge of the node, in
   * adjacency order, for `q` units of the parent: the child, the edge item's
   * effective quantity times `q`, level 1, the single path parent-child and
   * the edge item's phantom flag. A child reached by two edges appears twice.
   */
  function ExplodeSingleLevel(d: ArenaData, index: map<ComponentId, nat>, id: ComponentId, q: real)
    : (r: Result<seq<ExplosionItem>>)
    requires WellFormed(d) && IndexConsistent(d.nodes, index)
    ensures r.Err? <==> id !in index
    ensures r.Err? ==> r.error == ComponentNotFound(id)
    ensures r.Ok? ==> |r.value| == |d.nodes[index[id]].outgoing|
    ensures r.Ok? ==> forall k :: 0 <= k < |r.value| ==>
              var e := d.nodes[index[id]].outgoing[k];
              && e < |d.edges| && d.edges[e].source == index[id]
              && r.value[k].componentId == d.nodes[d.edges[e].target].componentId
              && r.value[k].totalQuantity == EffectiveQuantity(d.edges[e].bomItem) * q
              && r.value[k].level == 1
              && r.value[k].paths == [[id, r.value[k].componentId]]
              && r.value[k].isPhantom == d.edges[e].bomItem.isPhantom
  {
    if id !in index then Err(ComponentNotFound(id))
    else
      var n := index[id];
      assert OutgoingOk(d, n);
      var out := d.nodes[n].outgoing;
      assert forall k :: 0 <= k < |out| ==> EdgeLinked(d, out[k]);
      Ok(seq(|out|, k requires 0 <= k < |out| => ChildItem(d, id, q, out[k])))
  }

  /** Every child of the node has an item in the single-level explosion. */
  lemma SingleLevelCoversChildren(d: ArenaData, index: map<ComponentId, nat>, id: ComponentId, q: real, c: nat)
    requires WellFormed(d) && IndexConsistent(d.nodes, index) && id in index && IsEdge(d, index[id], c)
    ensures var items := ExplodeSingleLevel(d, index, id, q).value;
            exists k :: 0 <= k < |items| && items[k].componentId == d.nodes[c].componentId
  {
    var n := index[id];
    var items := ExplodeSingleLevel(d, index, id, q).value;
    var e :| 0 <= e < |d.edges| && d.edges[e].source == n && d.edges[e].target == c;
    assert EdgeLinked(d, e);
    var k :| 0 <= k < |d.nodes[n].outgoing| && d.nodes[n].outgoing[k] == e;
    assert items[k].componentId == d.nodes[c].componentId;
  }

  /**
   * A child whose only entering edge comes from the root: the full explosion
   * needs of it exactly what the single-level explosion lists.
   */
  lemma SingleLevelIsDemand(d: ArenaData, root: nat, q: real, e: nat)
    requires WellFormed(d) && Acyclic(d) && e < |d.edges| && d.edges[e].source == root
    requires forall f :: 0 <= f < |d.edges| && d.edges[f].target == d.edges[e].target ==> f == e
    ensures Demand(d, root, q, d.edges[e].target) == EffectiveQuantity(d.edges[e].bomItem) * q
  {
    var c := d.edges[e].target;
    assert EdgeLinked(d, e);
    EdgeReaches(d, e);
    assert c != root;
    ReachesRefl(d, root);
    assert e in ReachEdges(d, root);
    EdgeSumAgree(d, root, q, c, ReachEdges(d, root), {} + {e}, |d.edges|);
    EdgeSumInsert(d, root, q, c, {}, e, |d.edges|);
    EdgeSumZero(d, root, q, c, {}, |d.edges|);
    RootDemand(d, root, q);
  }

  /** The `HashMap` collected from the items: each id to its total, a later item overwriting an earlier one. */
  function ItemTotals(items: seq<ExplosionItem>): (m: map<ComponentId, real>)
    ensures m.Keys == set k | 0 <= k < |items| :: items[k].componentId
    ensures DistinctIds(items) ==> forall k :: 0 <= k < |items| ==> m[items[k].componentId] == items[k].totalQuantity
  {
    if items == [] then map[]
    else
      var init := items[..|items| - 1];
      var last := items[|items| - 1];
      var m := ItemTotals(init)[last.componentId := last.totalQuantity];
      assert m.Keys == set k | 0 <= k < |items| :: items[k].componentId by {
        assert forall k :: 0 <= k < |init| ==> init[k] == items[k];
      }
      if DistinctIds(items) then
        assert DistinctIds(init) && forall k :: 0 <= k < |init| ==> init[k] == items[k];
        TotalsAfterLast(items, ItemTotals(init));
        m
      else m
  }

  lemma TotalsAfterLast(items: seq<ExplosionItem>, m0: map<ComponentId, real>)
    requires items != [] && DistinctIds(items)
    requires forall k :: 0 <= k < |items| - 1 ==>
               items[k].componentId in m0 && m0[items[k].componentId] == items[k].totalQuantity
    ensures var m := m0[items[|items| - 1].componentId := items[|items| - 1].totalQuantity];
            forall k :: 0 <= k < |items| ==> m[items[k].componentId] == items[k].totalQuantity
  {
  }

  /**
   * `flatten`: the explosion of one unit as a map from component id to
   * total quantity. Its keys are exactly the ids of the nodes the root
   * reaches, the root mapping to 1, and each value is the demand per unit.
   */
  method Flatten(d: ArenaData, index: map<ComponentId, nat>, id: ComponentId)
    returns (r: Result<map<ComponentId, real>>)
    requires WellFormed(d) && Acyclic(d) && IndexConsistent(d.nodes, index)
    ensures r.Err? <==> id !in index
    ensures r.Err? ==> r.error == ComponentNotFound(id)
    ensures r.Ok? ==> forall cid :: cid in r.value <==> cid in index && Reaches(d, index[id], index[cid])
    ensures r.Ok? ==> forall cid :: cid in r.value ==> r.value[cid] == Demand(d, index[id], 1.0, index[cid])
    ensures r.Ok? ==> id in r.value && r.value[id] == 1.0
  {
    var exploded := Explode(d, index, id, 1.0);
    if exploded.Err? {
      return Err(exploded.error);
    }
    var items := exploded.value.items;
    var m := ItemTotals(items);
    forall cid | cid in index && Reaches(d, index[id], index[cid]) ensures cid in m {
      var v: nat := index[cid];
      var k :| 0 <= k < |items| && items[k].componentId == d.nodes[v].componentId;
    }
    forall cid | cid in m ensures cid in index && Reaches(d, index[id], index[cid]) && m[cid] == Demand(d, index[id], 1.0, index[cid]) {
      var k :| 0 <= k < |items| && items[k].componentId == cid;
      assert ExplodedItem(d, index[id], 1.0, index[cid], items[k]);
    }
    ReachesRefl(d, index[id]);
    RootDemand(d, index[id], 1.0);
    r := Ok(m);
  }

  // ---------------------------------------------------------------------
  // The worked example: A -> B (2) -> D (3), A -> C (1) -> D (2)

  /** D is needed (1 * 2 * 3) + (1 * 1 * 2) = 8 times per A, along its two paths. */
  lemma DiamondDemand(d: ArenaData)
    requires IsDiamond(d)
    requires d.edges[0].effectiveQuantity == 2.0 && d.edges[1].effectiveQuantity == 1.0
    requires d.edges[2].effectiveQuantity == 3.0 && d.edges[3].effectiveQuantity == 2.0
    ensures Acyclic(d)
    ensures Demand(d, 0, 1.0, 1) == 2.0 && Demand(d, 0, 1.0, 2) == 1.0 && Demand(d, 0, 1.0, 3) == 8.0
    ensures forall p :: IsSimplePath(d, p, 0, 3) <==> p == [0, 1, 3] || p == [0, 2, 3]
  {
    DiamondHeights(d);
    DiamondPaths(d);
    EdgeReaches(d, 0);
    EdgeReaches(d, 1);
    EdgeReaches(d, 2);
    ReachesRefl(d, 0);
    var es := ReachEdges(d, 0);
    assert 0 in es && 1 in es && 2 in es && 3 in es;
    RootDemand(d, 0, 1.0);
    var n := |d.edges|;
    assert EdgeSum(d, 0, 1.0, 1, es, 4) == 2.0 by {
      assert EdgeSum(d, 0, 1.0, 1, es, 0) == 0.0;
      assert EdgeSum(d, 0, 1.0, 1, es, 1) == 2.0;
      assert EdgeSum(d, 0, 1.0, 1, es, 2) == 2.0;
      assert EdgeSum(d, 0, 1.0, 1, es, 3) == 2.0;
    }
    assert EdgeSum(d, 0, 1.0, 2, es, 4) == 1.0 by {
      assert EdgeSum(d, 0, 1.0, 2, es, 1) == 0.0;
      assert EdgeSum(d, 0, 1.0, 2, es, 2) == 1.0;
      assert EdgeSum(d, 0, 1.0, 2, es, 3) == 1.0;
    }
    assert Demand(d, 0, 1.0, 1) == 2.0;
    assert Demand(d, 0, 1.0, 2) == 1.0;
    assert EdgeSum(d, 0, 1.0, 3, es, 4) == 8.0 by {
      assert EdgeSum(d, 0, 1.0, 3, es, 2) == 0.0 by {
        assert EdgeSum(d, 0, 1.0, 3, es, 1) == 0.0;
      }
      assert EdgeSum(d, 0, 1.0, 3, es, 3) == 6.0;
    }
  }
}
