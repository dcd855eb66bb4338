/**
 * The BOM graph: an arena whose edges are exactly the BOM items added so
 * far, kept acyclic by refusing any item that would close a cycle, plus the
 * list of root nodes (nodes without incoming edges).
 *
 * Besides the arena-level view (node indices), this module states the same
 * structure on component ids: `IdReaches` follows BOM items parent to child,
 * and `ItemsAcyclic` says no item's child leads back to its parent. The
 * correspondence lemmas connect the two views, which lets `FromRepository`
 * promise that it succeeds exactly on acyclic item lists.
 */
module Graphs {
  import opened Models
  import opened ArenaModel
  import opened Arenas
  import opened Repository

  // ---------------------------------------------------------------------
  // The id-level relation given by a list of BOM items

  /** Some item has parent `a` and child `b`. */
  ghost predicate IsItemEdge(items: seq<BomItem>, a: ComponentId, b: ComponentId)
  {
    exists k :: 0 <= k < |items| && items[k].parentId == a && items[k].childId == b
  }

  /** A non-empty id sequence whose consecutive pairs are items. */
  ghost predicate IsIdPath(items: seq<BomItem>, p: seq<ComponentId>)
  {
    |p| >= 1 && forall i :: 0 <= i < |p| - 1 ==> IsItemEdge(items, p[i], p[i + 1])
  }

  /** `b` is reachable from `a` by following items from parent to child. */
  ghost predicate IdReaches(items: seq<BomItem>, a: ComponentId, b: ComponentId)
  {
    exists p :: IsIdPath(items, p) && p[0] == a && p[|p| - 1] == b
  }

  /** No item's child reaches back to the item's parent. */
  ghost predicate ItemsAcyclic(items: seq<BomItem>)
  {
    forall k :: 0 <= k < |items| ==> !IdReaches(items, items[k].childId, items[k].parentId)
  }

  /** Every component id mentioned by an item. */
  ghost function ItemIds(items: seq<BomItem>): set<ComponentId>
  {
    if items == [] then {}
    else ItemIds(items[..|items| - 1]) + {items[|items| - 1].parentId, items[|items| - 1].childId}
  }

  /** The BOM items carried by the edges, in edge order. */
  function ItemsOf(edges: seq<Edge>): (r: seq<BomItem>)
    ensures |r| == |edges| && forall k :: 0 <= k < |r| ==> r[k] == edges[k].bomItem
  {
    seq(|edges|, k requires 0 <= k < |edges| => edges[k].bomItem)
  }

  /** Edge `e` joins the nodes of its item's parent and child. */
  ghost predicate EdgeMatchesItem(d: ArenaData, e: nat)
    requires e < |d.edges|
  {
    && d.edges[e].source < |d.nodes| && d.edges[e].target < |d.nodes|
    && d.nodes[d.edges[e].source].componentId == d.edges[e].bomItem.parentId
    && d.nodes[d.edges[e].target].componentId == d.edges[e].bomItem.childId
  }

  ghost predicate EdgesMatchItems(d: ArenaData)
  {
    forall e :: 0 <= e < |d.edges| ==> EdgeMatchesItem(d, e)
  }

  /** Every node is dirty: the state of a graph that was only ever built. */
  predicate AllDirty(nodes: seq<Node>)
  {
    forall i :: 0 <= i < |nodes| ==> nodes[i].dirty
  }

  /** Longer item lists keep every id-level path of a prefix. */
  lemma IdReachesGrows(items: seq<BomItem>, more: seq<BomItem>, a: ComponentId, b: ComponentId)
    requires IdReaches(items, a, b)
    ensures IdReaches(items + more, a, b)
  {
    var p :| IsIdPath(items, p) && p[0] == a && p[|p| - 1] == b;
    forall i | 0 <= i < |p| - 1 ensures IsItemEdge(items + more, p[i], p[i + 1]) {
      assert IsItemEdge(items, p[i], p[i + 1]);
      var k :| 0 <= k < |items| && items[k].parentId == p[i] && items[k].childId == p[i + 1];
      assert (items + more)[k] == items[k];
    }
    assert IsIdPath(items + more, p);
  }

  /** A path of node indices maps to a path of the nodes' component ids. */
  lemma {:induction false} ArenaPathGivesIdPath(d: ArenaData, s: nat, t: nat)
    requires WellFormed(d) && EdgesMatchItems(d) && Reaches(d, s, t)
    ensures s < |d.nodes| && t < |d.nodes|
    ensures IdReaches(ItemsOf(d.edges), d.nodes[s].componentId, d.nodes[t].componentId)
  {
    ReachesInRange(d, s, t);
    var items := ItemsOf(d.edges);
    var q :| IsPathFromTo(d, q, s, t);
    var p := seq(|q|, i requires 0 <= i < |q| => d.nodes[q[i]].componentId);
    forall i | 0 <= i < |p| - 1 ensures IsItemEdge(items, p[i], p[i + 1]) {
      assert IsEdge(d, q[i], q[i + 1]);
      var e :| 0 <= e < |d.edges| && d.edges[e].source == q[i] && d.edges[e].target == q[i + 1];
      assert EdgeMatchesItem(d, e);
      assert items[e].parentId == p[i] && items[e].childId == p[i + 1];
    }
    assert IsIdPath(items, p);
  }

  /**
   * An id-level path from an indexed id stays among indexed ids and maps
   * back to a path of their nodes.
   */
  lemma {:induction false} IdPathGivesArenaPath(d: ArenaData, index: map<ComponentId, nat>, a: ComponentId, b: ComponentId)
    requires WellFormed(d) && EdgesMatchItems(d) && IndexConsistent(d.nodes, index)
    requires a in index && IdReaches(ItemsOf(d.edges), a, b)
    ensures b in index && Reaches(d, index[a], index[b])
  {
    var items := ItemsOf(d.edges);
    var p :| IsIdPath(items, p) && p[0] == a && p[|p| - 1] == b;
    ReachesRefl(d, index[a]);
    var i := 0;
    while i < |p| - 1
      invariant 0 <= i <= |p| - 1
      invariant p[i] in index && Reaches(d, index[a], index[p[i]])
    {
      assert IsItemEdge(items, p[i], p[i + 1]);
      var e :| 0 <= e < |items| && items[e].parentId == p[i] && items[e].childId == p[i + 1];
      assert EdgeMatchesItem(d, e);
      var src, tgt := d.edges[e].source, d.edges[e].target;
      assert index[d.nodes[src].componentId] == src && index[d.nodes[tgt].componentId] == tgt;
      assert IsEdge(d, src, tgt);
      ReachesAppend(d, index[a], src, tgt);
      i := i + 1;
    }
  }

  /** An acyclic arena whose edges carry the items has acyclic items. */
  lemma AcyclicArenaHasAcyclicItems(d: ArenaData, index: map<ComponentId, nat>)
    requires WellFormed(d) && Acyclic(d) && EdgesMatchItems(d) && IndexConsistent(d.nodes, index)
    ensures ItemsAcyclic(ItemsOf(d.edges))
  {
    var items := ItemsOf(d.edges);
    forall k | 0 <= k < |items| ensures !IdReaches(items, items[k].childId, items[k].parentId) {
      if IdReaches(items, items[k].childId, items[k].parentId) {
        assert EdgeMatchesItem(d, k);
        var src, tgt := d.edges[k].source, d.edges[k].target;
        assert index[d.nodes[tgt].componentId] == tgt && index[d.nodes[src].componentId] == src;
        IdPathGivesArenaPath(d, index, items[k].childId, items[k].parentId);
        assert false;
      }
    }
  }

  /**
   * `add_bom_item` refuses an item exactly when it is a self-reference or
   * both ids are already known and the child's node reaches the parent's.
   */
  ghost predicate Rejects(d: ArenaData, index: map<ComponentId, nat>, item: BomItem)
  {
    || item.parentId == item.childId
    || (item.parentId in index && item.childId in index && Reaches(d, index[item.childId], index[item.parentId]))
  }

  /** A refused item closes an id-level cycle with the items already present. */
  lemma RejectedItemClosesCycle(d: ArenaData, index: map<ComponentId, nat>, item: BomItem)
    requires WellFormed(d) && EdgesMatchItems(d) && IndexConsistent(d.nodes, index)
    requires Rejects(d, index, item)
    ensures IdReaches(ItemsOf(d.edges), item.childId, item.parentId)
  {
    if item.parentId == item.childId {
      assert IsIdPath(ItemsOf(d.edges), [item.childId]);
    } else {
      ArenaPathGivesIdPath(d, index[item.childId], index[item.parentId]);
    }
  }

  /** Appending isolated nodes keeps an acyclic, item-matching arena so. */
  lemma GrowKeepsGraph(d0: ArenaData, d2: ArenaData)
    requires WellFormed(d0) && Acyclic(d0) && EdgesMatchItems(d0)
    requires d2.edges == d0.edges && |d0.nodes| <= |d2.nodes| && d2.nodes[..|d0.nodes|] == d0.nodes
    ensures Acyclic(d2) && EdgesMatchItems(d2)
  {
    assert forall i :: 0 <= i < |d0.nodes| ==> d2.nodes[i] == d0.nodes[i];
    forall e | 0 <= e < |d2.edges| ensures EdgeMatchesItem(d2, e) {
      assert EdgeMatchesItem(d0, e);
    }
    GrowNodesAcyclic(d0, d2);
  }

  /**
   * Adding the edge of an item whose child does not reach its parent keeps
   * the arena acyclic and item-matching.
   */
  lemma AddEdgeKeepsGraph(d2: ArenaData, d3: ArenaData)
    requires WellFormed(d2) && Acyclic(d2) && EdgesMatchItems(d2)
    requires |d3.edges| == |d2.edges| + 1 && d3.edges[..|d2.edges|] == d2.edges
    requires |d3.nodes| == |d2.nodes|
    requires forall i :: 0 <= i < |d3.nodes| ==> d3.nodes[i].componentId == d2.nodes[i].componentId
    requires var e := d3.edges[|d2.edges|];
      && e.source < |d2.nodes| && e.target < |d2.nodes|
      && d2.nodes[e.source].componentId == e.bomItem.parentId
      && d2.nodes[e.target].componentId == e.bomItem.childId
      && !Reaches(d2, e.target, e.source)
    ensures Acyclic(d3) && EdgesMatchItems(d3)
  {
    AddEdgeKeepsAcyclic(d2, ArenaData(d2.nodes, d3.edges));
    SameEdgesSameReach(ArenaData(d2.nodes, d3.edges), d3);
    forall e | 0 <= e < |d3.edges| ensures EdgeMatchesItem(d3, e) {
      if e < |d2.edges| {
        assert d3.edges[e] == d2.edges[e];
        assert EdgeMatchesItem(d2, e);
      }
    }
  }

  /** The outcome of `Arena.add_node(id)` returning `idx`, stated on the node list and the index. */
  ghost predicate AddedNode(n0: seq<Node>, i0: map<ComponentId, nat>, n1: seq<Node>, i1: map<ComponentId, nat>,
                            id: ComponentId, idx: nat)
  {
    && idx < |n1| && n1[idx].componentId == id
    && (id in i0 ==> idx == i0[id] && n1 == n0 && i1 == i0)
    && (id !in i0 ==> idx == |n0| && n1 == n0 + [Node(id, [], [], DefaultCache, true, 0)] && i1 == i0[id := idx])
  }

  /**
   * The nodes two `add_node` calls append, for `a` and then `b`: a fresh
   * dirty node with empty adjacency lists for each id not yet indexed.
   */
  function NewNodes(index: map<ComponentId, nat>, a: ComponentId, b: ComponentId): seq<Node>
  {
    (if a in index then [] else [Node(a, [], [], DefaultCache, true, 0)]) +
    (if b in index || b == a then [] else [Node(b, [], [], DefaultCache, true, 0)])
  }

  /**
   * The node records after `add_bom_item`: the nodes `add_node` appended
   * and, when the item is accepted, the new edge linked into the parent's
   * outgoing and the child's incoming list, then the parent and its clean
   * ancestors marked dirty with their versions bumped.
   */
  ghost predicate ItemNodesAfter(n0: seq<Node>, i0: map<ComponentId, nat>, e0: seq<Edge>, item: BomItem, r: Result<nat>,
                                 i1: map<ComponentId, nat>, e1: seq<Edge>, n1: seq<Node>)
  {
    var grown := n0 + NewNodes(i0, item.parentId, item.childId);
    && (r.Err? ==> n1 == grown)
    && (r.Ok? ==>
          && item.childId in i1 && r.value < |grown| && i1[item.childId] < |grown|
          && n1 == MarkDirtyFrom(LinkEdge(grown, r.value, i1[item.childId], |e0|), e1, r.value))
  }

  /** Two `add_node` calls in a row: what `add_bom_item` knows before its checks. */
  lemma AddedTwice(n0: seq<Node>, i0: map<ComponentId, nat>, n1: seq<Node>, i1: map<ComponentId, nat>,
                   n2: seq<Node>, i2: map<ComponentId, nat>, a: ComponentId, p: nat, b: ComponentId, c: nat)
    requires IndexConsistent(n0, i0)
    requires AddedNode(n0, i0, n1, i1, a, p) && AddedNode(n1, i1, n2, i2, b, c)
    ensures a in i2 && b in i2 && i2[a] == p && i2[b] == c
    ensures i2.Keys == i0.Keys + {a, b}
    ensures forall id :: id in i0 ==> id in i2 && i2[id] == i0[id]
    ensures |n0| <= |n2| && n2[..|n0|] == n0
    ensures n2 == n0 + NewNodes(i0, a, b)
    ensures AllDirty(n0) ==> AllDirty(n2)
    ensures p == c <==> a == b
    ensures p < |n0| <==> a in i0
    ensures c < |n0| <==> b in i0
    ensures p < |n2| && c < |n2| && n2[p].componentId == a && n2[c].componentId == b
  {
  }

  /** Adding one item to a list adds its two ids. */
  lemma ItemIdsSnoc(items: seq<BomItem>, item: BomItem)
    ensures ItemIds(items + [item]) == ItemIds(items) + {item.parentId, item.childId}
  {
    assert (items + [item])[..|items|] == items;
  }

  /** Accepting `items[i]` extends the edge items and the id set by that item. */
  lemma ItemsStep(e0: seq<Edge>, e1: seq<Edge>, x: Edge, items: seq<BomItem>, i: nat)
    requires i < |items| && ItemsOf(e0) == items[..i]
    requires e1 == e0 + [x] && x.bomItem == items[i]
    ensures ItemsOf(e1) == items[..i + 1]
    ensures ItemIds(items[..i + 1]) == ItemIds(items[..i]) + {items[i].parentId, items[i].childId}
  {
    assert items[..i + 1] == items[..i] + [items[i]];
    ItemIdsSnoc(items[..i], items[i]);
  }

  /** The ids a rooted load has indexed after accepting `items[i]`, an item of the root `id`. */
  lemma RootedKeysStep(k0: set<ComponentId>, k1: set<ComponentId>, items: seq<BomItem>, i: nat, id: ComponentId)
    requires i < |items| && items[i].parentId == id
    requires k0 == {id} + ItemIds(items[..i]) && k1 == k0 + {items[i].childId}
    ensures k1 == {id} + ItemIds(items[..i + 1])
  {
    assert items[..i + 1] == items[..i] + [items[i]];
    ItemIdsSnoc(items[..i], items[i]);
  }

  /** Refusing `items[i]` after accepting `items[..i]` shows the whole list is cyclic. */
  lemma RejectedBreaksAcyclic(d: ArenaData, index: map<ComponentId, nat>, items: seq<BomItem>, i: nat)
    requires WellFormed(d) && EdgesMatchItems(d) && IndexConsistent(d.nodes, index)
    requires i < |items| && ItemsOf(d.edges) == items[..i] && Rejects(d, index, items[i])
    ensures !ItemsAcyclic(items)
  {
    RejectedItemClosesCycle(d, index, items[i]);
    assert items[..i] + items[i..] == items;
    IdReachesGrows(items[..i], items[i..], items[i].childId, items[i].parentId);
  }

  /** When no edge enters node 0, no other node reaches it. */
  lemma NothingReachesUnenteredNode(d: ArenaData, n: nat)
    requires WellFormed(d) && forall e :: 0 <= e < |d.edges| ==> d.edges[e].target != 0
    requires n != 0
    ensures !Reaches(d, n, 0)
  {
    if Reaches(d, n, 0) {
      var e := ReachesLastEdge(d, n, 0);
      assert false;
    }
  }

  /** Every node but node 0 is a child of node 0, and no edge enters node 0. */
  ghost predicate Star(d: ArenaData)
  {
    && (forall e :: 0 <= e < |d.edges| ==> d.edges[e].source == 0 && d.edges[e].target != 0)
    && (forall n :: 0 < n < |d.nodes| ==> IsEdge(d, 0, n))
  }

  /** Adding an item of the root (node 0) to a star-shaped arena keeps it a star. */
  lemma StarStep(d0: ArenaData, i0: map<ComponentId, nat>, d3: ArenaData, i3: map<ComponentId, nat>, item: BomItem)
    requires IndexConsistent(d0.nodes, i0) && IndexConsistent(d3.nodes, i3) && Star(d0)
    requires item.parentId in i0 && i0[item.parentId] == 0 && item.childId != item.parentId
    requires i3.Keys == i0.Keys + {item.parentId, item.childId}
    requires forall id :: id in i0 ==> i3[id] == i0[id]
    requires d3.edges == d0.edges + [Edge(0, i3[item.childId], item, EffectiveQuantity(item))]
    ensures Star(d3)
  {
    var c := i3[item.childId];
    assert d3.nodes[c].componentId == item.childId && d3.nodes[0].componentId == item.parentId;
    assert c != 0;
    assert IsEdge(d3, 0, c) by {
      assert d3.edges[|d0.edges|].target == c;
    }
    forall n | 0 < n < |d3.nodes| ensures IsEdge(d3, 0, n) {
      var id := d3.nodes[n].componentId;
      if id in i0 {
        assert i0[id] == n && n < |d0.nodes|;
        assert IsEdge(d0, 0, n);
        var e :| 0 <= e < |d0.edges| && d0.edges[e].source == 0 && d0.edges[e].target == n;
        assert d3.edges[e] == d0.edges[e];
      } else {
        assert n == c;
      }
    }
    forall e | 0 <= e < |d3.edges| ensures d3.edges[e].source == 0 && d3.edges[e].target != 0 {
      if e < |d0.edges| {
        assert d3.edges[e] == d0.edges[e];
      }
    }
  }

  /** In a star whose root carries `id`, no edge's item names `id` as its child. */
  lemma StarItemsAvoidRoot(d: ArenaData, index: map<ComponentId, nat>, id: ComponentId)
    requires IndexConsistent(d.nodes, index) && Star(d) && EdgesMatchItems(d)
    requires id in index && index[id] == 0
    ensures forall it :: it in ItemsOf(d.edges) ==> it.childId != id
  {
    var items := ItemsOf(d.edges);
    forall it | it in items ensures it.childId != id {
      var k :| 0 <= k < |items| && items[k] == it;
      assert EdgeMatchesItem(d, k);
      assert d.edges[k].target != 0;
    }
  }

  /** A strictly increasing sequence of naturals is at least its index everywhere. */
  lemma IncreasingAtLeastIndex(s: seq<nat>)
    requires forall i, j :: 0 <= i < j < |s| ==> s[i] < s[j]
    ensures forall k :: 0 <= k < |s| ==> k <= s[k]
  {
    forall k | 0 <= k < |s| ensures k <= s[k] {
      var j := 0;
      while j < k
        invariant j <= k && j <= s[j]
      {
        j := j + 1;
      }
    }
  }

  /** In a non-empty star, node 0 is the only node without incoming edges. */
  lemma StarRoots(d: ArenaData, roots: seq<nat>)
    requires WellFormed(d) && Star(d) && |d.nodes| > 0
    requires forall n: nat :: n in roots <==> n < |d.nodes| && d.nodes[n].incoming == []
    requires forall i, j :: 0 <= i < j < |roots| ==> roots[i] < roots[j]
    ensures roots == [0]
  {
    var inc := d.nodes[0].incoming;
    assert IncomingOk(d, 0);
    assert forall x :: x !in inc;
    assert multiset(inc) == multiset{};
    forall n: nat | 0 < n < |d.nodes| ensures d.nodes[n].incoming != [] {
      assert IsEdge(d, 0, n);
      var e :| 0 <= e < |d.edges| && d.edges[e].source == 0 && d.edges[e].target == n;
      assert EdgeLinked(d, e);
    }
    assert 0 in roots;
    forall k | 0 <= k < |roots| ensures roots[k] == 0 {
      assert roots[k] in roots;
    }
    IncreasingAtLeastIndex(roots);
    assert roots[|roots| - 1] == 0;
  }

  /** The message of the error `add_bom_item` returns for a refused item. */
  function RejectMessage(item: BomItem): string
  {
    if item.parentId == item.childId then "Self-reference detected: " + item.parentId
    else "Circular dependency: " + item.parentId + " -> " + item.childId + " would create a cycle"
  }

  /** Node-count, edge-count, root-count and maximum depth of a graph. */
  datatype GraphStats = GraphStats(nodeCount: nat, edgeCount: nat, rootCount: nat, maxDepth: nat)

  /** Every memo entry is a stored node's height. */
  ghost predicate MemoSound(d: ArenaData, memo: map<nat, nat>)
    requires WellFormed(d) && Acyclic(d)
  {
    forall k :: k in memo ==> k < |d.nodes| && memo[k] == Height(d, k)
  }

  /**
   * `calculate_node_depth`: the memoised longest distance (in edges) from
   * `node` down to a leaf; 0 for a node without children.
   */
  method NodeDepth(d: ArenaData, node: nat, memo: map<nat, nat>) returns (depth: nat, memo2: map<nat, nat>)
    requires WellFormed(d) && Acyclic(d) && node < |d.nodes| && MemoSound(d, memo)
    ensures depth == Height(d, node)
    ensures MemoSound(d, memo2) && memo.Keys <= memo2.Keys && node in memo2
    decreases |Desc(d, node)|, 1
  {
    if node in memo {
      return memo[node], memo;
    }
    depth, memo2 := ChildrenDepth(d, node, memo);
    memo2 := memo2[node := depth];
  }

  /** The `max` over the children of `node` of their depth plus one, 0 for a leaf. */
  method ChildrenDepth(d: ArenaData, node: nat, memo: map<nat, nat>) returns (depth: nat, memo2: map<nat, nat>)
    requires WellFormed(d) && Acyclic(d) && node < |d.nodes| && MemoSound(d, memo)
    ensures depth == Height(d, node)
    ensures MemoSound(d, memo2) && memo.Keys <= memo2.Keys
    decreases |Desc(d, node)|, 0
  {
    var kids := Children(d, node);
    ghost var out := d.nodes[node].outgoing;
    assert OutgoingOk(d, node);
    assert kids == Targets(d.edges, out);
    depth, memo2 := 0, memo;
    var k := 0;
    while k < |kids|
      invariant 0 <= k <= |kids| == |out|
      invariant MemoSound(d, memo2) && memo.Keys <= memo2.Keys
      invariant HeightOver(d, node, out) == Max(depth, HeightOver(d, node, out[k..]))
    {
      HeightOverStep(d, node, out, k);
      DescShrinks(d, out[k]);
      var childDepth;
      childDepth, memo2 := NodeDepth(d, kids[k], memo2);
      depth := Max(depth, childDepth + 1);
      k := k + 1;
    }
    assert out[k..] == [];
  }

  /** The height over the outgoing edges from the `k`-th on: the `k`-th edge's child, then the rest. */
  lemma HeightOverStep(d: ArenaData, node: nat, out: seq<nat>, k: nat)
    requires WellFormed(d) && Acyclic(d) && node < |d.nodes| && out == d.nodes[node].outgoing && k < |out|
    ensures OutgoingOk(d, node) && out[k] < |d.edges| && d.edges[out[k]].target < |d.nodes|
    ensures HeightOver(d, node, out[k..]) == Max(1 + Height(d, d.edges[out[k]].target), HeightOver(d, node, out[k + 1..]))
  {
    assert OutgoingOk(d, node);
    assert out[k..][0] == out[k] && out[k..][1..] == out[k + 1..];
  }

  /** `calculate_max_depth`: the largest height among `roots`, each computed with a fresh memo. */
  method MaxDepth(d: ArenaData, roots: seq<nat>) returns (r: nat)
    requires WellFormed(d) && Acyclic(d)
    requires forall k :: 0 <= k < |roots| ==> roots[k] < |d.nodes|
    ensures forall k :: 0 <= k < |roots| ==> Height(d, roots[k]) <= r
    ensures roots == [] ==> r == 0
    ensures roots != [] ==> exists k :: 0 <= k < |roots| && Height(d, roots[k]) == r
  {
    r := 0;
    var i := 0;
    while i < |roots|
      invariant 0 <= i <= |roots|
      invariant forall k :: 0 <= k < i ==> Height(d, roots[k]) <= r
      invariant i == 0 ==> r == 0
      invariant i > 0 ==> exists k :: 0 <= k < i && Height(d, roots[k]) == r
    {
      var depth, _ := NodeDepth(d, roots[i], map[]);
      r := Max(r, depth);
      i := i + 1;
    }
  }

  class BomGraph {
    const arena: Arena
    var roots: seq<nat>

    /** The arena is valid and acyclic, every edge joins its item's ids, and roots are stored nodes. */
    ghost predicate Valid()
      reads this, arena
    {
      && arena.Valid()
      && Acyclic(arena.Data())
      && EdgesMatchItems(arena.Data())
      && forall k :: 0 <= k < |roots| ==> roots[k] < |arena.nodes|
    }

    constructor ()
      ensures Valid() && fresh(arena)
      ensures arena.nodes == [] && arena.edges == [] && arena.componentIndex == map[] && roots == []
    {
      arena := new Arena();
      roots := [];
    }

    /**
     * `add_bom_item`: creates (or finds) the parent's and the child's node,
     * refuses a self-reference or an item whose child already reaches its
     * parent, and otherwise adds the edge; returns the parent's node index.
     * Nodes are created before the checks, so a refused item still leaves
     * its ids in the graph.
     */
    method AddBomItem(item: BomItem) returns (r: Result<nat>)
      requires Valid()
      modifies arena
      ensures Valid()
      ensures item.parentId in arena.componentIndex && item.childId in arena.componentIndex
      ensures arena.componentIndex.Keys == old(arena.componentIndex).Keys + {item.parentId, item.childId}
      ensures forall id :: id in old(arena.componentIndex) ==> arena.componentIndex[id] == old(arena.componentIndex)[id]
      ensures r.Err? <==> Rejects(old(arena.Data()), old(arena.componentIndex), item)
      ensures r.Err? ==> r.error == CircularDependency(RejectMessage(item)) && arena.edges == old(arena.edges)
      ensures r.Ok? ==>
        && r.value == arena.componentIndex[item.parentId]
        && arena.edges == old(arena.edges) + [Edge(r.value, arena.componentIndex[item.childId], item, EffectiveQuantity(item))]
      ensures |arena.nodes| >= |old(arena.nodes)|
      ensures forall i :: 0 <= i < |old(arena.nodes)| ==> arena.nodes[i].componentId == old(arena.nodes)[i].componentId
      ensures AllDirty(old(arena.nodes)) ==> AllDirty(arena.nodes)
      ensures ItemNodesAfter(old(arena.nodes), old(arena.componentIndex), old(arena.edges), item, r,
                             arena.componentIndex, arena.edges, arena.nodes)
    {
      var p, c := AddItemNodes(item);
      if p == c {
        return Err(CircularDependency(RejectMessage(item)));
      }
      r := AddCheckedEdge(p, c, item);
    }

    /**
     * The first half of `add_bom_item`: `add_node` for the parent and then
     * for the child; the item is refused exactly when the two indices agree
     * or the child's node already reaches the parent's.
     */
    method AddItemNodes(item: BomItem) returns (p: nat, c: nat)
      requires Valid()
      modifies arena
      ensures Valid() && arena.edges == old(arena.edges)
      ensures p < |arena.nodes| && c < |arena.nodes|
      ensures arena.nodes[p].componentId == item.parentId && arena.nodes[c].componentId == item.childId
      ensures item.parentId in arena.componentIndex && item.childId in arena.componentIndex
      ensures arena.componentIndex[item.parentId] == p && arena.componentIndex[item.childId] == c
      ensures arena.componentIndex.Keys == old(arena.componentIndex).Keys + {item.parentId, item.childId}
      ensures forall id :: id in old(arena.componentIndex) ==> arena.componentIndex[id] == old(arena.componentIndex)[id]
      ensures Rejects(old(arena.Data()), old(arena.componentIndex), item) <==> p == c || Reaches(arena.Data(), c, p)
      ensures arena.nodes == old(arena.nodes) + NewNodes(old(arena.componentIndex), item.parentId, item.childId)
      ensures AllDirty(old(arena.nodes)) ==> AllDirty(arena.nodes)
    {
      ghost var d0 := arena.Data();
      ghost var i0 := arena.componentIndex;
      p := arena.AddNode(item.parentId);
      ghost var n1, i1 := arena.nodes, arena.componentIndex;
      assert AddedNode(d0.nodes, i0, n1, i1, item.parentId, p);
      c := arena.AddNode(item.childId);
      ghost var d2 := arena.Data();
      assert AddedNode(n1, i1, d2.nodes, arena.componentIndex, item.childId, c);
      AddedTwice(d0.nodes, i0, n1, i1, d2.nodes, arena.componentIndex, item.parentId, p, item.childId, c);
      GrowKeepsGraph(d0, d2);
      GrowNodesReach(d0, d2, c, p);
      if Reaches(d0, c, p) {
        ReachesInRange(d0, c, p);
      }
    }

    /**
     * The second half of `add_bom_item`: with both nodes present and
     * distinct, refuses the item if the child already reaches the parent and
     * otherwise adds the edge.
     */
    method AddCheckedEdge(p: nat, c: nat, item: BomItem) returns (r: Result<nat>)
      requires Valid() && p < |arena.nodes| && c < |arena.nodes| && p != c
      requires arena.nodes[p].componentId == item.parentId && arena.nodes[c].componentId == item.childId
      modifies arena
      ensures Valid()
      ensures r.Err? <==> Reaches(old(arena.Data()), c, p)
      ensures r.Err? ==> r.error == CircularDependency(RejectMessage(item)) && arena.nodes == old(arena.nodes)
      ensures r.Ok? ==> r.value == p && arena.edges == old(arena.edges) + [Edge(p, c, item, EffectiveQuantity(item))]
      ensures r.Ok? ==> arena.nodes == MarkDirtyFrom(LinkEdge(old(arena.nodes), p, c, |old(arena.edges)|), arena.edges, p)
      ensures r.Err? ==> arena.edges == old(arena.edges)
      ensures arena.componentIndex == old(arena.componentIndex)
      ensures |arena.nodes| == |old(arena.nodes)|
      ensures forall i :: 0 <= i < |arena.nodes| ==> arena.nodes[i].componentId == old(arena.nodes)[i].componentId
      ensures AllDirty(old(arena.nodes)) ==> AllDirty(arena.nodes)
    {
      var cyclic := arena.HasPath(c, p);
      if cyclic {
        return Err(CircularDependency(RejectMessage(item)));
      }
      ghost var d2 := arena.Data();
      var _ := arena.AddEdge(p, c, item);
      AddEdgeKeepsGraph(d2, arena.Data());
      r := Ok(p);
    }

    /**
     * `from_repository`: adds every stored item in order and then finds the
     * roots; the first refused item aborts the build with its error. The
     * build succeeds exactly when the items form no cycle.
     */
    static method FromRepository(repo: InMemoryRepository) returns (r: Result<BomGraph>)
      ensures r.Ok? <==> ItemsAcyclic(repo.items)
      ensures r.Err? ==> r.error.CircularDependency?
      ensures r.Ok? ==>
        && fresh(r.value) && fresh(r.value.arena) && r.value.Valid()
        && ItemsOf(r.value.arena.edges) == repo.items
        && r.value.arena.componentIndex.Keys == ItemIds(repo.items)
        && AllDirty(r.value.arena.nodes)
        && forall n: nat :: n in r.value.roots <==> n < |r.value.arena.nodes| && r.value.arena.nodes[n].incoming == []
    {
      var all := repo.GetAllBomItems();
      var g := new BomGraph();
      var res := g.AddItems(all);
      if res.Err? {
        return Err(res.error);
      }
      g.IdentifyRoots();
      r := Ok(g);
    }

    /**
     * `from_component`: loads the direct items of `id` effective at the date
     * (`now` when none is given) into a new graph and finds its roots. It
     * fails exactly when one of those items names `id` as its own child; on
     * success `id` is the single root.
     */
    static method FromComponent(repo: InMemoryRepository, id: ComponentId, date: Option<int>, now: int)
      returns (r: Result<BomGraph>)
      ensures r.Ok? <==> forall it :: it in repo.GetBomItems(id, date, now) ==> it.childId != id
      ensures r.Err? ==> r.error == CircularDependency("Self-reference detected: " + id)
      ensures r.Ok? ==>
        && fresh(r.value) && fresh(r.value.arena) && r.value.Valid()
        && ItemsOf(r.value.arena.edges) == repo.GetBomItems(id, date, now)
        && r.value.arena.componentIndex.Keys == {id} + ItemIds(repo.GetBomItems(id, date, now))
        && r.value.roots == [r.value.arena.componentIndex[id]]
    {
      var g := new BomGraph();
      var res := g.LoadComponentTree(repo, id, date, now);
      if res.Err? {
        return Err(res.error);
      }
      g.IdentifyRoots();
      StarRoots(g.arena.Data(), g.roots);
      r := Ok(g);
    }

    /**
     * `load_component_tree` on a new graph: adds the node of `id`, then each
     * of its direct items in order. Right after `add_bom_item` the child's
     * node exists, so the recursive load of a missing child never runs and
     * only the direct items are loaded.
     */
    method LoadComponentTree(repo: InMemoryRepository, id: ComponentId, date: Option<int>, now: int)
      returns (r: Result<()>)
      requires Valid() && arena.nodes == [] && arena.edges == []
      modifies arena
      ensures Valid()
      ensures r.Ok? <==> forall it :: it in repo.GetBomItems(id, date, now) ==> it.childId != id
      ensures r.Err? ==> r.error == CircularDependency("Self-reference detected: " + id)
      ensures r.Ok? ==>
        && ItemsOf(arena.edges) == repo.GetBomItems(id, date, now)
        && arena.componentIndex.Keys == {id} + ItemIds(repo.GetBomItems(id, date, now))
        && id in arena.componentIndex && arena.componentIndex[id] == 0
        && Star(arena.Data())
    {
      var _ := arena.AddNode(id);
      var items := repo.GetBomItems(id, date, now);
      r := LoadItems(id, items);
      if r.Ok? {
        StarItemsAvoidRoot(arena.Data(), arena.componentIndex, id);
      }
    }

    /** The loop of `load_component_tree` over the root's items, on a graph holding only the root. */
    method LoadItems(id: ComponentId, items: seq<BomItem>) returns (r: Result<()>)
      requires Valid() && arena.edges == [] && arena.componentIndex.Keys == {id}
      requires id in arena.componentIndex && arena.componentIndex[id] == 0 && Star(arena.Data())
      requires forall it :: it in items ==> it.parentId == id
      modifies arena
      ensures Valid()
      ensures r.Err? ==> (exists it :: it in items && it.childId == id)
                         && r.error == CircularDependency("Self-reference detected: " + id)
      ensures r.Ok? ==>
        && ItemsOf(arena.edges) == items
        && arena.componentIndex.Keys == {id} + ItemIds(items)
        && id in arena.componentIndex && arena.componentIndex[id] == 0
        && Star(arena.Data())
    {
      r := LoadItemsFrom(id, items, 0);
    }

    /** `LoadItems` from the `i`-th item on, the earlier ones already loaded. */
    method LoadItemsFrom(id: ComponentId, items: seq<BomItem>, i: nat) returns (r: Result<()>)
      requires i <= |items| && Valid()
      requires id in arena.componentIndex && arena.componentIndex[id] == 0 && Star(arena.Data())
      requires ItemsOf(arena.edges) == items[..i] && arena.componentIndex.Keys == {id} + ItemIds(items[..i])
      requires forall it :: it in items ==> it.parentId == id
      modifies arena
      ensures Valid()
      ensures r.Err? ==> (exists it :: it in items && it.childId == id)
                         && r.error == CircularDependency("Self-reference detected: " + id)
      ensures r.Ok? ==>
        && ItemsOf(arena.edges) == items
        && arena.componentIndex.Keys == {id} + ItemIds(items)
        && id in arena.componentIndex && arena.componentIndex[id] == 0
        && Star(arena.Data())
      decreases |items| - i
    {
      if i == |items| {
        assert items[..i] == items;
        return Ok(());
      }
      var it := items[i];
      assert it in items;
      ghost var e0, k0 := arena.edges, arena.componentIndex.Keys;
      var res := LoadItem(id, it);
      if res.Err? {
        return Err(res.error);
      }
      ItemsStep(e0, arena.edges, Edge(0, arena.componentIndex[it.childId], it, EffectiveQuantity(it)), items, i);
      RootedKeysStep(k0, arena.componentIndex.Keys, items, i, id);
      r := LoadItemsFrom(id, items, i + 1);
    }

    /** `add_bom_item` as `load_component_tree` relies on it: the index grows by the item's ids and the edge is appended. */
    method AddItemOfRoot(item: BomItem) returns (r: Result<nat>)
      requires Valid()
      modifies arena
      ensures Valid()
      ensures item.parentId in arena.componentIndex && item.childId in arena.componentIndex
      ensures arena.componentIndex.Keys == old(arena.componentIndex).Keys + {item.parentId, item.childId}
      ensures forall id :: id in old(arena.componentIndex) ==> arena.componentIndex[id] == old(arena.componentIndex)[id]
      ensures r.Err? <==> Rejects(old(arena.Data()), old(arena.componentIndex), item)
      ensures r.Err? ==> r.error == CircularDependency(RejectMessage(item)) && arena.edges == old(arena.edges)
      ensures r.Ok? ==>
        && r.value == arena.componentIndex[item.parentId]
        && arena.edges == old(arena.edges) + [Edge(r.value, arena.componentIndex[item.childId], item, EffectiveQuantity(item))]
    {
      r := AddBomItem(item);
    }

    /**
     * One pass of the loop in `load_component_tree`: adds an item of the
     * root and then looks the child up; the lookup always succeeds, so the
     * recursive load it guards is unreachable.
     */
    method LoadItem(id: ComponentId, it: BomItem) returns (r: Result<nat>)
      requires Valid() && id in arena.componentIndex && arena.componentIndex[id] == 0 && Star(arena.Data())
      requires it.parentId == id
      modifies arena
      ensures Valid()
      ensures r.Err? <==> it.childId == id
      ensures r.Err? ==> r.error == CircularDependency("Self-reference detected: " + id)
      ensures r.Ok? ==>
        && id in arena.componentIndex && arena.componentIndex[id] == 0 && Star(arena.Data())
        && it.childId in arena.componentIndex
        && arena.componentIndex.Keys == old(arena.componentIndex).Keys + {it.childId}
        && arena.edges == old(arena.edges) + [Edge(0, arena.componentIndex[it.childId], it, EffectiveQuantity(it))]
    {
      ghost var d0, i0 := arena.Data(), arena.componentIndex;
      r := AddItemOfRoot(it);
      if r.Err? {
        if it.childId != id {
          assert it.childId in i0 && i0[it.childId] != 0;
          NothingReachesUnenteredNode(d0, i0[it.childId]);
          assert false;
        }
        return;
      }
      assert it.childId != id;
      if arena.FindNode(it.childId).None? {
        // The child was indexed by `add_bom_item` just above.
        assert false;
      }
      StarStep(d0, i0, arena.Data(), arena.componentIndex, it);
    }

    /**
     * The loop of `from_repository` on a new graph: adds the items in order
     * and stops at the first refused one. It gets through exactly when the
     * items form no cycle.
     */
    method AddItems(all: seq<BomItem>) returns (r: Result<()>)
      requires Valid() && arena.nodes == [] && arena.edges == []
      modifies arena
      ensures Valid()
      ensures r.Ok? <==> ItemsAcyclic(all)
      ensures r.Err? ==> r.error.CircularDependency?
      ensures r.Ok? ==>
        && ItemsOf(arena.edges) == all
        && arena.componentIndex.Keys == ItemIds(all)
        && AllDirty(arena.nodes)
    {
      var i := 0;
      assert arena.componentIndex.Keys == {};
      while i < |all|
        invariant 0 <= i <= |all|
        invariant Valid()
        invariant ItemsOf(arena.edges) == all[..i]
        invariant arena.componentIndex.Keys == ItemIds(all[..i])
        invariant AllDirty(arena.nodes)
      {
        ghost var d0, i0 := arena.Data(), arena.componentIndex;
        var res := AddBomItem(all[i]);
        if res.Err? {
          RejectedBreaksAcyclic(d0, i0, all, i);
          return Err(res.error);
        }
        ItemsStep(d0.edges, arena.edges, Edge(res.value, arena.componentIndex[all[i].childId], all[i], EffectiveQuantity(all[i])), all, i);
        i := i + 1;
      }
      AcyclicArenaHasAcyclicItems(arena.Data(), arena.componentIndex);
      assert all[..i] == all;
      r := Ok(());
    }

    /** `identify_roots`: the nodes without incoming edges, in index order. */
    method IdentifyRoots()
      requires Valid()
      modifies this
      ensures Valid()
      ensures forall n: nat :: n in roots <==> n < |arena.nodes| && arena.nodes[n].incoming == []
      ensures forall i, j :: 0 <= i < j < |roots| ==> roots[i] < roots[j]
    {
      roots := [];
      var n := 0;
      while n < |arena.nodes|
        invariant 0 <= n <= |arena.nodes|
        invariant Valid()
        invariant forall m: nat :: m in roots <==> m < n && arena.nodes[m].incoming == []
        invariant forall i, j :: 0 <= i < j < |roots| ==> roots[i] < roots[j]
        invariant forall k :: 0 <= k < |roots| ==> roots[k] < n
      {
        if arena.nodes[n].incoming == [] {
          roots := roots + [n];
        }
        n := n + 1;
      }
    }

    /** `calculate_max_depth` over this graph's roots. */
    method CalculateMaxDepth() returns (r: nat)
      requires Valid()
      ensures forall k :: 0 <= k < |roots| ==> Height(arena.Data(), roots[k]) <= r
      ensures roots == [] ==> r == 0
      ensures roots != [] ==> exists k :: 0 <= k < |roots| && Height(arena.Data(), roots[k]) == r
    {
      r := MaxDepth(arena.Data(), roots);
    }

    /** `stats`: sizes of the graph and the maximum root height. */
    method Stats() returns (s: GraphStats)
      requires Valid()
      ensures s.nodeCount == |arena.nodes| && s.edgeCount == |arena.edges| && s.rootCount == |roots|
      ensures forall k :: 0 <= k < |roots| ==> Height(arena.Data(), roots[k]) <= s.maxDepth
      ensures roots == [] ==> s.maxDepth == 0
      ensures roots != [] ==> exists k :: 0 <= k < |roots| && Height(arena.Data(), roots[k]) == s.maxDepth
    {
      var depth := CalculateMaxDepth();
      s := GraphStats(arena.NodeCount(), arena.EdgeCount(), |roots|, depth);
    }

    /** `clear_cache`: resets every node's cache to the empty cache and changes nothing else. */
    method ClearCache()
      requires Valid()
      modifies arena
      ensures Valid()
      ensures |arena.nodes| == |old(arena.nodes)|
      ensures forall i :: 0 <= i < |arena.nodes| ==> arena.nodes[i] == old(arena.nodes)[i].(cache := DefaultCache)
      ensures arena.edges == old(arena.edges) && arena.componentIndex == old(arena.componentIndex)
    {
      ghost var start := arena.nodes;
      ghost var d0 := arena.Data();
      assert WellFormed(d0) && IndexConsistent(start, arena.componentIndex) && EdgesMatchItems(d0);
      var i := 0;
      while i < |arena.nodes|
        invariant 0 <= i <= |arena.nodes| == |start|
        invariant forall k :: 0 <= k < i ==> arena.nodes[k] == start[k].(cache := DefaultCache)
        invariant forall k :: i <= k < |arena.nodes| ==> arena.nodes[k] == start[k]
        invariant arena.edges == old(arena.edges) && arena.componentIndex == old(arena.componentIndex)
        invariant arena.freeNodes == old(arena.freeNodes) && arena.freeEdges == old(arena.freeEdges)
      {
        arena.nodes := arena.nodes[i := arena.nodes[i].(cache := DefaultCache)];
        i := i + 1;
      }
      assert SameShape(arena.nodes, start);
      arena.SameShapeValid(start);
      SameEdgesSameReach(d0, arena.Data());
      assert EdgesMatchItems(arena.Data()) by {
        forall e | 0 <= e < |arena.edges| ensures EdgeMatchesItem(arena.Data(), e) {
          assert EdgeMatchesItem(d0, e);
        }
      }
    }

    /**
     * `mark_dirty`: marks the component's node and its ancestors dirty, or
     * reports an unknown id and leaves the graph alone.
     */
    method MarkDirty(id: ComponentId) returns (r: Result<()>)
      requires Valid()
      modifies arena
      ensures Valid()
      ensures r.Err? <==> id !in arena.componentIndex
      ensures r.Err? ==> r.error == ComponentNotFound(id) && arena.nodes == old(arena.nodes)
      ensures r.Ok? ==> arena.nodes == MarkDirtyFrom(old(arena.nodes), arena.edges, arena.componentIndex[id])
      ensures arena.edges == old(arena.edges) && arena.componentIndex == old(arena.componentIndex)
    {
      var found := arena.FindNode(id);
      if found.None? {
        return Err(ComponentNotFound(id));
      }
      ghost var d0 := arena.Data();
      arena.MarkDirtyRecursive(found.value);
      OnlyTouchedShape(d0.nodes, arena.nodes);
      SameEdgesSameReach(d0, arena.Data());
      assert EdgesMatchItems(arena.Data()) by {
        forall e | 0 <= e < |arena.edges| ensures EdgeMatchesItem(arena.Data(), e) {
          assert EdgeMatchesItem(d0, e);
        }
      }
      r := Ok(());
    }
  }
}
