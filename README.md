# NexusBom calculation kernel in Dafny

This project models the calculation kernel of NexusBom, a Bill-of-Materials
engine written in Rust, and proves properties of that model. The kernel covers:

- **Entity arithmetic** (`Models`): component ids, BOM items and their
  effective quantity and effectivity window, and cost breakdowns.
- **In-memory repository** (`Repository`): a class whose map of components,
  per-component header lists and item vector are updated in place by the
  `add_*` operations and read by the `get_*` / `find_parents` queries.
- **Arena graph** (`ArenaModel`, `Arenas`, `Graphs`):
  - nodes and edges in vectors, addressed by index;
  - `incoming`/`outgoing` adjacency lists of edge indices;
  - an id → index map;
  - dirty flags and version counters, updated by `mark_dirty_recursive`.
- **`BomGraph`**: built item by item through `add_bom_item`, which refuses
  self-references and edges that would close a cycle. It also covers
  `from_repository`, `from_component`, roots, and memoised depth.
- **Traversals and cycle detection** (`Traversals`, `Cycles`): Kahn's
  topological sort over the reachable part, height levels, backtracking
  enumeration of simple paths, the DFS/BFS/topological `Traversal`
  iterator, back-edge cycle detection and extraction, and
  `would_create_cycle` / `validate_graph`.
- **Calculators**:
  - `Explosions`: quantities pushed top-down level by level;
  - `Costing`: unit costs rolled up leaves first, cost drivers;
  - `WhereUsed`: parent links, change impact, shared components.
- **CLI data conversion** (`CliData`): `load_csv` over already-split
  records, and `BomData::to_core`.

`ArenaData` is a value view of an arena: its node and edge sequences. Paths,
reachability, acyclicity, descendant and ancestor sets, and node height are
defined over it once and used by every module.

The arena, the graph, the repository and the traversal iterator are classes
whose methods modify their fields. The algorithms that loop are methods with
loop invariants. Each is proved against a specification function or predicate,
such as `Reaches`, `Height`, `Demand`, `NodeCost`, `IsSimplePath` or
`HasDirectedCycle`. The properties the Rust code promises are lemmas about
those functions.

The calculators take the arena value, the id index and the roots of a graph,
which is all that they read from it. Decimals are exact `real`s. Dates are
`int`s. `Utc::now()` becomes a `now` parameter. Each `rayon` parallel map is a
sequential loop whose results are merged afterwards, as the Rust code merges
them. The iteration order of a `HashMap` or `HashSet` is left open: the model
picks an arbitrary element, so every property proved holds for any order.

Some behaviour a reader might expect is not what the code does. The model
follows the code:

- `from_component` loads only the root's direct items, although
  crates/bom-graph/src/graph.rs:70 calls it "Recursively load a component's BOM
  tree". `add_bom_item` has already created each child node, so the recursion
  guard at crates/bom-graph/src/graph.rs:87-90 never fires.
- `explode` never excludes phantom items: it reads the edge's phantom flag
  and drops it (crates/bom-calc/src/explosion.rs:69, 79). Every exploded item
  reports `is_phantom: false`, marked TODO at
  crates/bom-calc/src/explosion.rs:124.
- `analyze_cost_drivers` ranks drivers by each descendant's own unit cost
  (crates/bom-calc/src/costing.rs:165-174). It does not rank them by quantity
  times cost, i.e. by contribution to the root.
- New nodes start dirty (crates/bom-graph/src/arena.rs:120, 132), so
  `mark_dirty_recursive` on a freshly built graph changes nothing
  (`MarkDirtyFromDirtyIsNoOp`).
- Nothing writes a node's cached material cost
  (crates/bom-graph/src/arena.rs:39 is only read, at
  crates/bom-calc/src/costing.rs:29), so `calculate_cost` always recomputes.
- Negative quantities and scrap factors are never rejected.

## Model

| member | source | states |
|---|---|---|
| Models.EffectiveQuantity | crates/bom-core/src/models.rs:141-143 | the effective quantity is quantity × (1 + scrap); with zero scrap it is the quantity, and a zero quantity gives zero |
| Models.EffectiveQuantityWithFivePercentScrap | crates/bom-core/src/models.rs:101-102 | 100 units with a 5% scrap factor need 105 |
| Models.IsEffectiveAt | crates/bom-core/src/models.rs:146-151 | an item is effective exactly when the date lies in its window; both bounds are inclusive, a missing bound does not restrict, and an item with no bounds is always effective |
| Models.Sum | crates/bom-core/src/models.rs:249-251 | with no labor, overhead or subcontract cost the sum of a breakdown is its material cost |
| Repository.FirstMatch | crates/bom-core/src/repository.rs:116-127 | the chosen header is the first one whose alternative and window match; none is chosen only when no header matches |
| Repository.LookupAll | crates/bom-core/src/repository.rs:91-101 | succeeds exactly when every id is stored, then gives the components in input order; otherwise fails with the id of a missing component |
| Repository.InMemoryRepository.constructor | crates/bom-core/src/repository.rs:49-55 | a new repository holds no components, headers or items |
| Repository.InMemoryRepository.AddComponent | crates/bom-core/src/repository.rs:57-60 | inserts or replaces the component under its id; every other lookup, the headers and the items are unchanged |
| Repository.InMemoryRepository.AddBomHeader | crates/bom-core/src/repository.rs:62-68 | appends the header to its component's list, creating the list if needed; all other lists are unchanged |
| Repository.InMemoryRepository.AddBomItem | crates/bom-core/src/repository.rs:70-73 | appends the item; the item list keeps insertion order and nothing else changes |
| Repository.InMemoryRepository.GetComponent | crates/bom-core/src/repository.rs:83-89 | the stored component, or `ComponentNotFound(id)` exactly when none is stored |
| Repository.InMemoryRepository.GetComponents | crates/bom-core/src/repository.rs:91-101 | every requested component in input order, or the error of a missing id |
| Repository.InMemoryRepository.GetBomHeader | crates/bom-core/src/repository.rs:103-133 | succeeds exactly when some header of the component matches the alternative and the date (`now` by default); the result is the first such header; otherwise `BomNotFound` |
| Repository.InMemoryRepository.GetBomItems | crates/bom-core/src/repository.rs:135-150 | exactly the stored items of the parent that are effective at the date, in insertion order |
| Repository.InMemoryRepository.GetAllBomItems | crates/bom-core/src/repository.rs:152-155 | every stored item, unchanged and in order |
| Repository.InMemoryRepository.FindParents | crates/bom-core/src/repository.rs:157-164 | exactly the stored items whose child is the given component, in insertion order |
| ArenaModel.Children | crates/bom-graph/src/arena.rs:261-269 | one entry per outgoing edge, and its members are exactly the nodes the node has an edge to |
| ArenaModel.Parents | crates/bom-graph/src/arena.rs:272-280 | one entry per incoming edge, and its members are exactly the nodes with an edge to the node |
| ArenaModel.AcyclicIffNoCycle | crates/bom-graph/src/cycle.rs:16-30 | an arena in which no edge's target reaches its source is exactly one with no closed path of at least one edge |
| ArenaModel.DescShrinks | crates/bom-graph/src/graph.rs:180-198 | in an acyclic arena the set of descendants strictly shrinks along every edge, which is why the depth recursion ends |
| ArenaModel.HeightDecreasesAlongEdge | crates/bom-graph/src/traversal.rs:172-180 | a parent's height is larger than each child's, so no edge joins two nodes of one level |
| ArenaModel.HeightAttained | crates/bom-graph/src/graph.rs:188-197 | a node of positive height has a child exactly one level below it |
| ArenaModel.SameEdgesSameReach | crates/bom-graph/src/arena.rs:283-305 | reachability and acyclicity depend only on the edges, not on flags, versions or caches |
| ArenaModel.GrowNodesReach | crates/bom-graph/src/arena.rs:125-138 | appending isolated nodes adds no path except a new node's path to itself |
| ArenaModel.AppendEdgeIsEdge | crates/bom-graph/src/arena.rs:161-174 | appending an edge adds exactly its endpoint pair to the edge relation |
| ArenaModel.AddEdgeReach | crates/bom-graph/src/arena.rs:161-174 | after appending `p -> c`, `a` reaches `b` if and only if it did before, or `a` reaches `p` and `c` reaches `b` (both directions) |
| ArenaModel.SplitNewPath | crates/bom-graph/src/arena.rs:161-174 | whatever the grown arena reaches, the old arena reached already or through the new edge: `a` reaches `p` and `c` reaches `b` |
| ArenaModel.OldPathKept | crates/bom-graph/src/arena.rs:161-174 | appending an edge keeps every old path: what was reachable stays reachable |
| ArenaModel.AddEdgeKeepsAcyclic | crates/bom-graph/src/graph.rs:113-124 | appending `p -> c` to an acyclic arena in which `c` does not reach `p` leaves it acyclic |
| ArenaModel.IdPaths | crates/bom-calc/src/explosion.rs:103-117 | paths become id paths node by node; a path left empty is dropped and no other is |
| Arenas.MarkDirtyFrom | crates/bom-graph/src/arena.rs:232-251 | only clean nodes change, each gaining the dirty flag and one version, with ids and adjacency kept; the starting node ends dirty |
| Arenas.MarkDirtyFromClosesUpward | crates/bom-graph/src/arena.rs:238-249 | when parents of dirty nodes are dirty, marking keeps that so, and every ancestor of the node ends dirty |
| Arenas.MarkDirtyFromCleanMarksAncestors | crates/bom-graph/src/arena.rs:232-251 | from an all-clean arena, marking a node dirties exactly the nodes that reach it |
| Arenas.MarkDirtyFromOnlyAncestors | crates/bom-graph/src/arena.rs:238-249 | marking never touches a node that does not reach the marked node |
| Arenas.MarkDirtyFromDirtyIsNoOp | crates/bom-graph/src/arena.rs:233-237 | marking a node that is already dirty changes nothing |
| Arenas.LinkEdge | crates/bom-graph/src/arena.rs:172-174 | the new edge index is appended to exactly the parent's outgoing list and the child's incoming list, and nothing else changes |
| Arenas.LinkEdgeWellFormed | crates/bom-graph/src/arena.rs:161-174 | appending and linking an edge keeps every edge listed by both endpoints |
| Arenas.SearchPath | crates/bom-graph/src/arena.rs:283-305 | the stack search answers true exactly when the target is reachable from the source, including when they coincide |
| Arenas.MarkDirtyNodes | crates/bom-graph/src/arena.rs:232-251 | the loop over the worklist computes exactly the recursive marking |
| Arenas.Arena.constructor | crates/bom-graph/src/arena.rs:85-93 | a new arena is empty and valid |
| Arenas.Arena.AddNode | crates/bom-graph/src/arena.rs:107-140 | a known id returns its slot and changes nothing; a new id appends one dirty node with version 0 and empty lists at the old length and indexes it; the arena stays valid |
| Arenas.Arena.FindNode | crates/bom-graph/src/arena.rs:207-209 | finds a slot exactly when some node carries the id, and the slot carries it |
| Arenas.Arena.NodeCount | crates/bom-graph/src/arena.rs:222-224 | the live node count equals the number of distinct stored ids |
| Arenas.Arena.EdgeCount | crates/bom-graph/src/arena.rs:227-229 | the live edge count equals the number of stored edges |
| Arenas.Arena.AddEdge | crates/bom-graph/src/arena.rs:143-180 | appends one edge carrying the item's effective quantity, links it on both endpoints, marks the parent dirty, and adds exactly the pair `parent -> child` to the edge relation |
| Arenas.Arena.MarkDirtyRecursive | crates/bom-graph/src/arena.rs:232-251 | the nodes become the recursive marking of the old nodes; edges and index are unchanged |
| Arenas.Arena.ClearDirtyFlags | crates/bom-graph/src/arena.rs:254-258 | every node loses its dirty flag and nothing else changes |
| Arenas.Arena.HasPath | crates/bom-graph/src/arena.rs:283-305 | true exactly when the target is reachable from the source |
| Graphs.ItemsOf | crates/bom-graph/src/graph.rs:122-124 | the items carried by the edges, one per edge, in edge order |
| Graphs.IdReachesGrows | crates/bom-graph/src/graph.rs:32-56 | adding more items keeps every id-level path |
| Graphs.AcyclicArenaHasAcyclicItems | crates/bom-graph/src/graph.rs:97-125 | an acyclic arena whose edges carry the items has acyclic items |
| Graphs.RejectedItemClosesCycle | crates/bom-graph/src/graph.rs:105-119 | an item `add_bom_item` refuses would close a cycle among the items already loaded |
| Graphs.RejectedBreaksAcyclic | crates/bom-graph/src/graph.rs:48-50 | when an item of the list is refused, the whole item list is cyclic |
| Graphs.StarRoots | crates/bom-graph/src/graph.rs:128-135 | a graph loaded from one component's direct items has that component as its only root |
| Graphs.NodeDepth | crates/bom-graph/src/graph.rs:180-198 | the memoised depth is the node's height: 0 for a leaf, else 1 + the largest child depth; the memo stays sound and grows |
| Graphs.ChildrenDepth | crates/bom-graph/src/graph.rs:188-197 | the loop over the children yields the node's height and keeps the memo sound |
| Graphs.MaxDepth | crates/bom-graph/src/graph.rs:168-177 | the maximum depth is the largest root height, 0 with no roots |
| Graphs.BomGraph.constructor | crates/bom-graph/src/graph.rs:16-21 | a new graph has an empty arena and no roots |
| Graphs.BomGraph.AddBomItem | crates/bom-graph/src/graph.rs:97-125 | both nodes exist afterwards, even on failure, appended as fresh dirty nodes at version 0 with empty adjacency lists when new; the item is refused exactly for a self-reference or a child that reaches the parent, and a refused item adds no edge and changes no node beyond the fresh ones; otherwise one edge is appended, the parent's index returned, the two nodes' adjacency lists gain the new edge index and the parent and its ancestors are marked dirty; the arena stays valid and acyclic |
| Graphs.BomGraph.AddItemNodes | crates/bom-graph/src/graph.rs:99-102 | the node list becomes the old one followed by a fresh node for the parent id if it was unknown and one for the child id if it was unknown and different; both ids are indexed; the item is refusable exactly when the two nodes coincide or the child reaches the parent |
| Graphs.BomGraph.AddCheckedEdge | crates/bom-graph/src/graph.rs:113-124 | fails exactly when the child reaches the parent, changing nothing; otherwise appends the edge, returns the parent's index, and the nodes become the old ones with the edge linked into both adjacency lists and the parent's ancestors marked dirty |
| Graphs.BomGraph.FromRepository | crates/bom-graph/src/graph.rs:32-56 | succeeds exactly when the stored items form no cycle; the graph then carries every item in order, indexes every mentioned id, and its roots are exactly the nodes without incoming edges |
| Graphs.BomGraph.FromComponent | crates/bom-graph/src/graph.rs:59-68 | loads only the component's direct items effective at the date; fails exactly when one of them names the component as its own child; otherwise the component is the single root |
| Graphs.BomGraph.LoadComponentTree | crates/bom-graph/src/graph.rs:71-94 | on an empty graph, loads exactly the root's effective direct items and no deeper level |
| Graphs.BomGraph.LoadItems | crates/bom-graph/src/graph.rs:80-92 | adds the root's items in order, failing only on a self-reference to the root |
| Graphs.BomGraph.AddItems | crates/bom-graph/src/graph.rs:45-51 | adds every item in order and succeeds exactly when the items form no cycle |
| Graphs.BomGraph.IdentifyRoots | crates/bom-graph/src/graph.rs:128-135 | the roots are exactly the nodes with no incoming edge, in increasing order |
| Graphs.BomGraph.CalculateMaxDepth | crates/bom-graph/src/graph.rs:168-177 | the largest height among the roots, 0 when there are none |
| Graphs.BomGraph.Stats | crates/bom-graph/src/graph.rs:158-165 | node, edge and root counts are the vector lengths, and the depth is the largest root height |
| Graphs.BomGraph.ClearCache | crates/bom-graph/src/graph.rs:201-208 | every node's cache is reset and nothing else changes |
| Graphs.BomGraph.MarkDirty | crates/bom-graph/src/graph.rs:211-218 | an unknown id gives `ComponentNotFound` and leaves the nodes unchanged; a known id marks its node and its ancestors recursively |
| Traversals.PushUnseen | crates/bom-graph/src/traversal.rs:103-114 | pushes exactly the children not yet collected, in order |
| Traversals.ReachableSet | crates/bom-graph/src/traversal.rs:103-114 | the collected set is exactly the nodes reachable from the roots |
| Traversals.ReachableInDegree | crates/bom-graph/src/traversal.rs:116-138 | a node's in-degree counts exactly its incoming edges from reachable parents |
| Traversals.InitialDegrees | crates/bom-graph/src/traversal.rs:116-138 | the initial degrees and queue satisfy Kahn's invariant with nothing emitted yet |
| Traversals.ReleaseChildren | crates/bom-graph/src/traversal.rs:146-154 | releasing an emitted node's out-edges keeps Kahn's invariant and keeps everything already queued |
| Traversals.KahnComplete | crates/bom-graph/src/traversal.rs:140-156 | in an acyclic arena, once the queue is empty every reachable node has been emitted |
| Traversals.KahnLoop | crates/bom-graph/src/traversal.rs:140-156 | emits each reachable node at most once, parents before children, and all of them when the arena is acyclic |
| Traversals.Reversed | crates/bom-graph/src/traversal.rs:158-160 | the reversal has the same length and reads the input backwards |
| Traversals.ReversedFlipsOrder | crates/bom-graph/src/traversal.rs:158-160 | reversing a children-first order gives a parents-first order with the same members |
| Traversals.ReversedTwice | crates/bom-graph/src/traversal.rs:158-160 | reversing twice gives the original sequence |
| Traversals.TopologicalSort | crates/bom-graph/src/traversal.rs:101-161 | each node at most once, only reachable nodes, every child before each of its parents, and every reachable node when the arena is acyclic |
| Traversals.MaxKnownLevel | crates/bom-graph/src/traversal.rs:174-180 | the largest recorded child level, or none exactly when no child has one |
| Traversals.AssignLevels | crates/bom-graph/src/traversal.rs:172-183 | every sorted node gets a level and the maximum is attained; in an acyclic arena each level is the node's height |
| Traversals.GroupByLevel | crates/bom-graph/src/traversal.rs:185-191 | `max_level + 1` groups; each node lies in the group of its level and only there |
| Traversals.LevelGrouping | crates/bom-graph/src/traversal.rs:165-192 | at least one group; groups hold reachable nodes without repeats and are disjoint; in an acyclic arena group `g` is exactly the reachable nodes of height `g`; only a single group may be empty, so empty roots give one empty group |
| Traversals.ExtendsAtTarget | crates/bom-graph/src/traversal.rs:217-221 | at the target, the only completion of the current path is the path plus the target |
| Traversals.ExtendsThroughKid | crates/bom-graph/src/traversal.rs:223-231 | elsewhere, the completions are exactly those entering an unvisited child |
| Traversals.DfsPaths | crates/bom-graph/src/traversal.rs:209-232 | backtracking restores the path and the visited set, keeps earlier results, and appends exactly the simple completions of the current path |
| Traversals.FindAllPaths | crates/bom-graph/src/traversal.rs:195-207 | the paths found are exactly the simple paths from the source to the target |
| Traversals.DiamondPaths | crates/bom-graph/src/traversal.rs:321-342 | on A→B,C→D the simple paths from A to D are exactly A-B-D and A-C-D |
| Traversals.DiamondHeights | crates/bom-graph/src/graph.rs:317-338 | the diamond is acyclic, and its heights are D 0, B and C 1, and A 2 |
| Traversals.StartWalk | crates/bom-graph/src/traversal.rs:28-56 | depth-first starts with the roots stacked in reverse and breadth-first with them queued |
| Traversals.Schedule | crates/bom-graph/src/traversal.rs:28-56 | depth-first stacks the roots reversed and breadth-first queues them; the topological orders plan a children-first or parents-first order of reachable nodes, complete when the arena is acyclic |
| Traversals.Traversal.constructor | crates/bom-graph/src/traversal.rs:28-56 | a new iterator has visited nothing and holds the start state of its order |
| Traversals.Traversal.Next | crates/bom-graph/src/traversal.rs:62-95 | the step is exactly the iterator's: visited nodes are dropped from the top of the stack (front of the queue), the next one is yielded, marked visited and, in a depth- or breadth-first walk, its unvisited children are pushed (enqueued) in order; so each node yielded is reachable from the roots and new, a topological walk yields the planned order, and a depth- or breadth-first walk that ends has visited every reachable node |
| Traversals.Traversal.NextFromStack | crates/bom-graph/src/traversal.rs:64-79 | the stack branch of `next`: yields the top of the stack once visited tops are dropped, or nothing when none is left; the new stack is the rest plus, for a depth-first walk, the unvisited children; the yielded node is reachable and new, in the planned order for a topological walk |
| Traversals.Traversal.NextFromQueue | crates/bom-graph/src/traversal.rs:80-93 | the queue branch of `next`: yields the front of the queue once visited fronts are dropped, or nothing when none is left; the new queue is the rest followed by the unvisited children; once it ends every reachable node was visited |
| Traversals.DropVisitedTop | crates/bom-graph/src/traversal.rs:65-66 | what the pop loop leaves: a prefix of the stack whose top is unvisited, everything popped above it having been visited |
| Traversals.DropVisitedFront | crates/bom-graph/src/traversal.rs:81-82 | what the dequeue loop leaves: a suffix of the queue whose front is unvisited, everything dropped before it having been visited |
| Traversals.Traversal.PopVisitedTop | crates/bom-graph/src/traversal.rs:65-66 | pops visited nodes off the stack, leaving exactly `DropVisitedTop` of it, and changes nothing else |
| Traversals.Traversal.PopVisitedFront | crates/bom-graph/src/traversal.rs:81-82 | dequeues visited nodes, leaving exactly `DropVisitedFront` of the queue, and changes nothing else |
| Traversals.Traversal.EmitTop | crates/bom-graph/src/traversal.rs:66-75 | the unvisited top is popped, marked visited and yielded, and its unvisited children are pushed in order |
| Traversals.Traversal.EmitPlannedTop | crates/bom-graph/src/traversal.rs:65-75 | in a topological walk the top is never visited yet: it is popped, marked visited and yielded, pushing nothing |
| Traversals.Traversal.EmitFront | crates/bom-graph/src/traversal.rs:82-89 | the unvisited front is dequeued, marked visited and yielded, and its unvisited children are enqueued in order |
| Cycles.ReportedCycleIsCycle | crates/bom-graph/src/cycle.rs:99-108 | a reported node sequence closed by an edge back to its first node is a directed cycle |
| Cycles.BackEdgeCycle | crates/bom-graph/src/cycle.rs:99-108 | a back edge to a node on the recursion stack yields the path from that node as a reported cycle |
| Cycles.RankedIsAcyclic | crates/bom-graph/src/cycle.rs:16-30 | when the search finishes every node with children finished before parents, the arena is acyclic |
| Cycles.DfsCycle | crates/bom-graph/src/cycle.rs:62-84 | reports a cycle only when one exists; otherwise every node it reached is finished in children-first order |
| Cycles.ExploreChildren | crates/bom-graph/src/cycle.rs:70-81 | the loop over the children keeps the same guarantee as the search |
| Cycles.HasCycle | crates/bom-graph/src/cycle.rs:16-30 | true exactly when the arena contains a directed cycle |
| Cycles.IndexOf | crates/bom-graph/src/cycle.rs:100-104 | the first position of the node on the path |
| Cycles.DfsFindCycles | crates/bom-graph/src/cycle.rs:87-113 | every reported cycle is a real cycle, the reports found before the call are kept unchanged as a prefix, and finding none finishes the reached nodes in order |
| Cycles.FindCycles | crates/bom-graph/src/cycle.rs:33-53 | every reported cycle is a cycle, and the list is non-empty exactly when the arena has a cycle |
| Cycles.WouldCreateCycle | crates/bom-graph/src/cycle.rs:56-59 | true exactly when `to` already reaches `from` |
| Cycles.WouldCreateCycleMeaning | crates/bom-graph/src/cycle.rs:237-258 | adding `from -> to` to an acyclic arena keeps it acyclic exactly when the check answers false |
| Cycles.DescribeCycle | crates/bom-graph/src/cycle.rs:116-122 | the ids of the cycle's nodes in order, dropping indices that name no node |
| Cycles.ValidateGraph | crates/bom-graph/src/cycle.rs:126-152 | Ok exactly when there is no cycle; otherwise a `CircularDependency` listing a non-empty set of real cycles |
| Explosions.RootDemand | crates/bom-calc/src/explosion.rs:34-35 | the root's total is the ordered quantity |
| Explosions.UnreachedDemand | crates/bom-calc/src/explosion.rs:43-87 | a node the root does not reach needs nothing |
| Explosions.DemandScales | crates/bom-calc/src/explosion.rs:57 | every node's total is linear in the ordered quantity |
| Explosions.Settled | crates/bom-calc/src/explosion.rs:78-86 | once every followed edge into a node is pushed, its total is its demand and its paths are exactly its root paths |
| Explosions.EnteredIsPath | crates/bom-calc/src/explosion.rs:59-67 | every accumulated path is a path from the root to the node |
| Explosions.PathIsEntered | crates/bom-calc/src/explosion.rs:59-67 | every root path to a node whose incoming edges were pushed is accumulated |
| Explosions.PushChild | crates/bom-calc/src/explosion.rs:56-84 | pushing one edge adds parent total × effective quantity to the child and the parent's paths extended by the child |
| Explosions.PushChildren | crates/bom-calc/src/explosion.rs:52-84 | pushing a parent pushes exactly its outgoing edges |
| Explosions.PushLevel | crates/bom-calc/src/explosion.rs:45-86 | processing a level pushes exactly the out-edges of its nodes |
| Explosions.LevelEdges | crates/bom-calc/src/explosion.rs:43 | walking the levels from the top, every node is complete before it is pushed |
| Explosions.PushAllLevels | crates/bom-calc/src/explosion.rs:30-87 | after the level loop every edge the root reaches has been pushed |
| Explosions.MaxLength | crates/bom-calc/src/explosion.rs:96-100 | the longest path's length, none exactly when there are no paths |
| Explosions.ItemForSettled | crates/bom-calc/src/explosion.rs:119-125 | a settled node's item has its id, its demand, its longest-path level and its root paths |
| Explosions.ItemLevelIsLongestPath | crates/bom-calc/src/explosion.rs:96-100 | an item's level is the edge count of the longest root path to its node |
| Explosions.CollectItems | crates/bom-calc/src/explosion.rs:90-127 | one item per reached node, with distinct ids, each the exploded entry of its node |
| Explosions.MaxLevel | crates/bom-calc/src/explosion.rs:133 | the largest item level, attained by some item, 0 for no items |
| Explosions.Explode | crates/bom-calc/src/explosion.rs:20-142 | an unknown id gives `ComponentNotFound`; otherwise every reachable component appears exactly once with its demand, paths and longest-path level; items sorted by level; the count is the item count and the depth the largest level |
| Explosions.SortItems | crates/bom-calc/src/explosion.rs:130 | sorting by level keeps every item once and orders the levels |
| Explosions.ExplodeSingleLevel | crates/bom-calc/src/explosion.rs:145-176 | one item per outgoing edge in edge order, with effective quantity × Q, level 1, the path [parent, child] and the edge's phantom flag |
| Explosions.SingleLevelCoversChildren | crates/bom-calc/src/explosion.rs:157-173 | every direct child has an item |
| Explosions.SingleLevelIsDemand | crates/bom-calc/src/explosion.rs:163 | for a child entered only along that edge, the single-level quantity equals the full explosion's total |
| Explosions.ItemTotals | crates/bom-calc/src/explosion.rs:183-187 | the map keys are exactly the item ids, and with distinct ids each maps to its item's total |
| Explosions.Flatten | crates/bom-calc/src/explosion.rs:180-190 | keys are exactly the components the root reaches, each mapped to its demand for one unit, and the root maps to 1 |
| Explosions.DiamondDemand | crates/bom-calc/src/explosion.rs:275-305 | on A→B(2)→D(3), A→C(1)→D(2), B needs 2, C needs 1 and D needs 1·2·3 + 1·1·2 = 8, along exactly two paths |
| Costing.NodeIds | crates/bom-calc/src/costing.rs:62-68 | the ids of all arena nodes, in node order |
| Costing.ComponentData | crates/bom-calc/src/costing.rs:71-74 | the fetched components keyed by their own ids |
| Costing.FetchedIsStored | crates/bom-calc/src/costing.rs:70-74 | with the repository keyed by id, the fetched data is the repository's record of every node |
| Costing.MaterialBreakdown | crates/bom-calc/src/costing.rs:104-116 | all of the cost is material cost: total equals material, the other parts are zero, and the sum equals the total |
| Costing.NodeCostNonNegative | crates/bom-calc/src/costing.rs:88-104 | with non-negative standard costs and quantities every unit cost is non-negative |
| Costing.ChildrenCostAgrees | crates/bom-calc/src/costing.rs:91-102 | once the lower levels are recorded, a node's children sum equals its children's share of the unit cost |
| Costing.NodeCostFromMap | crates/bom-calc/src/costing.rs:88-104 | own cost plus the children sum read from the map is the node's unit cost |
| Costing.LevelCostStep | crates/bom-calc/src/costing.rs:83-118 | recording one member of a level gives it its unit cost |
| Costing.CostLevel | crates/bom-calc/src/costing.rs:81-119 | a level's costs are the unit costs of its fetched members, read against the lower levels |
| Costing.MergeLevel | crates/bom-calc/src/costing.rs:121-122 | merging a level's costs completes that level |
| Costing.AllLevelsCosted | crates/bom-calc/src/costing.rs:77-123 | after the last level every fetched node of the closure has its unit cost |
| Costing.CalculateAllCosts | crates/bom-calc/src/costing.rs:55-127 | fails with `ComponentNotFound` exactly when some arena node, reachable or not, is not stored; otherwise maps every node of the closure to its unit cost and holds nothing else |
| Costing.CalculateCost | crates/bom-calc/src/costing.rs:20-51 | unknown id is `ComponentNotFound`; a clean node with a cached cost answers from the cache; otherwise the node's unit cost, or the fetch error |
| Costing.CalculateRollup | crates/bom-calc/src/costing.rs:129-136 | every outcome of the cost calculation passes through: an unknown id, a missing component and a cost that is not found are the same errors, a clean cached cost times `q`, and otherwise the rolled-up unit cost of the stored components times `q` |
| Costing.Percentage | crates/bom-calc/src/costing.rs:159-163 | the share is cost / total × 100 when total is positive, else 0 |
| Costing.CollectDrivers | crates/bom-calc/src/costing.rs:155-171 | one driver per cost-map entry other than the root, with distinct ids |
| Costing.SortDrivers | crates/bom-calc/src/costing.rs:174 | the drivers kept, by non-increasing unit cost |
| Costing.AnalyzeCostDrivers | crates/bom-calc/src/costing.rs:139-177 | unknown id is `ComponentNotFound`; succeeds exactly when every node is stored; then one driver per costed descendant other than the root, with its unit cost and its percentage of the root's cost, by non-increasing cost |
| Costing.CostExample | crates/bom-calc/src/costing.rs:256-280 | B costs 50 + 10·3 = 80 and A costs 100 + 80·2 + 30·1 = 290 |
| WhereUsed.ReachesIffSimplePath | crates/bom-calc/src/where_used.rs:93-100 | a node is reachable exactly when some simple path leads to it, so `find_all_paths` is non-empty exactly then |
| WhereUsed.SimplePathsInDag | crates/bom-calc/src/where_used.rs:40-44 | in an acyclic arena the simple paths are all the paths |
| WhereUsed.PathsFromRoots | crates/bom-calc/src/where_used.rs:40-44 | the gathered paths are exactly the simple paths from some root to the parent |
| WhereUsed.LongestPath | crates/bom-calc/src/where_used.rs:60-65 | the largest path node count, 1 when there are no paths |
| WhereUsed.UsedInItem | crates/bom-calc/src/where_used.rs:36-73 | an entry names the edge's parent, its effective quantity, every root path to the parent, and the longest one's node count |
| WhereUsed.Analyze | crates/bom-calc/src/where_used.rs:19-81 | unknown id is `ComponentNotFound`; otherwise one entry per incoming edge, in edge order, each the parent's usage entry |
| WhereUsed.AnalyzeCoversParents | crates/bom-calc/src/where_used.rs:26-31 | every parent of the component has an entry |
| WhereUsed.FindRootAssemblies | crates/bom-calc/src/where_used.rs:84-103 | unknown id is `ComponentNotFound`; otherwise exactly the roots that reach the node, the node itself if it is a root, each once |
| WhereUsed.UsesTransitivelyInDag | crates/bom-calc/src/where_used.rs:113-129 | in an acyclic arena the assemblies a change affects are exactly the strict ancestors |
| WhereUsed.PushParents | crates/bom-calc/src/where_used.rs:123-128 | queues every parent and records every parent's id |
| WhereUsed.ParentIdsAreParents | crates/bom-calc/src/where_used.rs:123-128 | the ids read off `parents(current)` are exactly the ids of its parents |
| WhereUsed.AffectedAssemblies | crates/bom-calc/src/where_used.rs:113-129 | the collected ids are exactly the assemblies that use the node directly or through others |
| WhereUsed.AnalyzeChangeImpact | crates/bom-calc/src/where_used.rs:107-147 | unknown id is `ComponentNotFound`; otherwise the affected ids are exactly those that use the component transitively, and the affected roots exactly the roots among them, each once |
| WhereUsed.ChangeImpactExample | crates/bom-calc/src/where_used.rs:344-379 | on A→B→D, A→C, changing D affects B and A but not C |
| WhereUsed.DescendantIds | crates/bom-calc/src/where_used.rs:164-186 | an assembly's set is exactly the ids strictly below it |
| WhereUsed.Tally | crates/bom-calc/src/where_used.rs:193-198 | appends the position to the entry of every component of the set, creating missing entries, and leaves other entries alone |
| WhereUsed.Usage | crates/bom-calc/src/where_used.rs:190-199 | each component maps to the ascending positions of the found assemblies that hold it |
| WhereUsed.SharedUsage | crates/bom-calc/src/where_used.rs:152-199 | unknown ids are dropped, and the usage map is built over the remaining assemblies |
| WhereUsed.CollectShared | crates/bom-calc/src/where_used.rs:201-216 | one entry per component with more than one holder, named from the given list, with distinct ids |
| WhereUsed.FindSharedComponentsAsWritten | crates/bom-calc/src/where_used.rs:151-219 | reports each component held strictly by at least two found assemblies, with that count, but names the holders by position in the unfiltered input |
| WhereUsed.FindSharedComponents | crates/bom-calc/src/where_used.rs:151-219 | reports exactly the components held strictly by at least two found assemblies, with that count and those assemblies' ids, each once |
| WhereUsed.SharedEntryNamesHolders | crates/bom-calc/src/where_used.rs:210-214 | a corrected entry counts its assemblies (at least two), and each is a given id that holds the component |
| WhereUsed.NamingAgreesWhenAllKnown | crates/bom-calc/src/where_used.rs:204-207 | when every given id is known, the written and the corrected naming agree |
| WhereUsed.SharedNamesShifted | crates/bom-calc/src/where_used.rs:204-207 | with ids [X, A, B], X unknown and A, B both holding C, the written naming reports C as used in X and A |
| WhereUsed.SharedNamesIntended | crates/bom-calc/src/where_used.rs:204-207 | on the same graph the corrected naming reports C as used in A and B |
| CliData.Introduced | crates/bom-cli/src/data.rs:83-101 | an id first named as parent becomes a FinishedProduct made in-house, and one first named as child a RawMaterial bought in; both take the row's fourth field as cost, "EA" and "DEFAULT" |
| CliData.MapStep | crates/bom-cli/src/data.rs:83-101 | reading one more record adds the ids it names first, and no entry ever changes |
| CliData.Rows | crates/bom-cli/src/data.rs:73-75 | exactly the records with at least three fields, in record order |
| CliData.ItemsStep | crates/bom-cli/src/data.rs:103-109 | an accepted record adds one line and a short one adds none |
| CliData.AddComponents | crates/bom-cli/src/data.rs:83-101 | adds a row's parent and child when missing and keeps existing entries |
| CliData.ValuesOf | crates/bom-cli/src/data.rs:113 | every map value once, in an order left open |
| CliData.ReadRecords | crates/bom-cli/src/data.rs:71-110 | each id's data is fixed by the first record that names it; every named id is present; one line per accepted record, in order |
| CliData.LoadCsv | crates/bom-cli/src/data.rs:65-116 | the components are exactly the ids the rows name, each once, fixed by its first row; the lines are the rows in order with scrap "0" and sequence 10 |
| CliData.ComponentTypeOf | crates/bom-cli/src/data.rs:127-132 | the named type for "FinishedProduct" and "SemiFinished", raw material for anything else |
| CliData.ProcurementOf | crates/bom-cli/src/data.rs:136-140 | Make for "Make", Buy for anything else |
| CliData.AsU32 | crates/bom-cli/src/data.rs:159 | the cast keeps a value already in range and wraps a negative one by 2^32 |
| CliData.ItemsToCore | crates/bom-cli/src/data.rs:149-172 | succeeds exactly when every quantity parses, converting line by line in order; otherwise fails at the first unparsable quantity |
| CliData.ToCore | crates/bom-cli/src/data.rs:119-175 | every component converts; the conversion fails exactly when some quantity does not parse; on success the lines keep their count and order, with an unparsable scrap read as zero |
| CliData.LoadedLinesHaveNoScrap | crates/bom-cli/src/data.rs:107-108 | converted CSV lines have sequence 10 and an effective quantity equal to their quantity |
| Seqs.Filter | crates/bom-core/src/repository.rs:135-150 | keeps exactly the satisfying elements, in order |
| Seqs.SortByKey | crates/bom-calc/src/explosion.rs:130 | a permutation of the input, sorted by key, and stable: the elements of each key keep their input order |
| Seqs.WithKeyAppend | crates/bom-calc/src/explosion.rs:130 | the elements of one key in a concatenation are those of the first part followed by those of the second |
| Seqs.InsertStable | crates/bom-calc/src/explosion.rs:130 | inserting an element after every element with a key not above its own appends it to the elements of its key and leaves the other keys' elements in order |
| Seqs.SetToSeq | crates/bom-calc/src/where_used.rs:102 | every element of the set exactly once |
| Strings.NatToString | crates/bom-graph/src/cycle.rs:146-150 | a non-empty string of decimal digits without leading zeros |
| Strings.NatToStringRoundTrip | crates/bom-graph/src/cycle.rs:146-150 | reading the rendering back gives the number |

## Left out

- The C FFI, the cache crate, the CLI entry point, commands and output, and the
  engine facade are not part of this model. They are glue or delegation around
  libraries that cannot be modelled here.
- File reading and the CSV reader's own behaviour (header row, quoting) are
  not modelled. `load_csv` starts from already-split records.
- Parallel `rayon` maps are sequential loops, and the repository's
  `RwLock`/`Arc` wrappers are dropped: they are concurrency plumbing.
- Timestamps (`calculated_at`, `queried_at`, `created_at`) and UUIDs are
  dropped. `Utc::now()` as the default date is a `now` parameter.
- Decimal overflow, the 28-digit scale and the rounding of the driver
  percentage are not modelled: quantities and costs are exact reals.
- The error enum is a datatype only, since it has no behaviour.
- `ComponentId` is a `string`. Its exact, case-sensitive equality is Dafny's
  sequence equality, so no member states it.
- The free-list reuse branches of `add_node` and `add_edge` are not modelled,
  because no operation ever fills the free lists. The arena's validity states
  that they are empty.
- `with_capacity` constructors are not modelled: capacity is an allocation
  hint with no observable effect.
- The node cache is never written by the code, and the model does not write
  it either.
- Graphs.BomGraph.LoadComponentTree: modelled only on an empty graph, which is
  how `from_component` calls it.
- Graphs.NodeDepth: requires an in-range node of an acyclic arena. The Rust
  code panics on an out-of-range index and recurses forever on a cycle.
- Arenas.Arena.HasPath: requires the source index in range. The Rust code
  indexes its visited vector with it and would panic otherwise.
- Cycles.WouldCreateCycle: requires `to` in range, because it is the source of
  the path search.
- Explosions.Explode: requires an acyclic arena. On a cyclic arena the level
  grouping, and so the explosion, is not meaningful.
- Explosions.Flatten: requires an acyclic arena, because it calls `explode`.
- Costing.CalculateAllCosts: requires an acyclic arena, because it relies on
  the level grouping.
- Costing.CalculateCost: requires an acyclic arena, because it calls
  CalculateAllCosts.
- Costing.CalculateRollup: requires an acyclic arena, for the same reason.
- Costing.AnalyzeCostDrivers: requires an acyclic arena, for the same reason.
- Explosions.DiamondDemand: the equivalent "sum over root paths of the product
  of effective quantities" form of a node's total is shown on the diamond only.
  The general statement is the per-edge recurrence.
- Traversals.FindAllPaths: states the found paths as a set of simple paths. It
  does not state that each path appears once, or their order.
- Costing.FetchedIsStored: takes as a hypothesis that the repository map keys
  each component by its own id, which `add_component` maintains.
- CliData.ToCore: the Decimal parser is a parameter. A failed quantity parse
  is the error `InvalidQuantity` carrying the text.
- The simple single-level cost test (A = 230) and the rollup test
  (200 × 10 = 2000) are not replayed as lemmas. The general contracts of
  CalculateCost and CalculateRollup cover them.
- Explosions.Explode: states each item's path list as a set of root paths by
  id. It does not state that each path appears once, nor the list's length
  (the diamond test's two paths for D); `Traversals.DiamondPaths` and
  `Explosions.DiamondDemand` give the two paths as a set only.
- WhereUsed.UsedInItem: states the item's root paths as a set, without their
  multiplicity or order.
- Explosions.SingleLevelIsDemand: relates the single-level quantity to the
  full explosion only for a child entered along that one edge.

## Findings

| source | as written | input that shows it | evidently intended | confidence | as-written member | corrected member |
|---|---|---|---|---|---|---|
| crates/bom-calc/src/where_used.rs:204-207 | assembly names are read as `assembly_ids[idx]`, but `idx` indexes the list left after unknown ids were dropped | `find_shared_components(["X", "A", "B"])` with X unknown and A→C, B→C: C is reported as used in X and A | C is reported as used in A and B, the assemblies that hold it | not executed | WhereUsed.FindSharedComponentsAsWritten, WhereUsed.SharedNamesShifted | WhereUsed.FindSharedComponents, WhereUsed.SharedNamesIntended |
