# shipyard_relations — a Dafny model of relation storage and its views

shipyard_relations adds *relations* to the shipyard ECS. A relation is an edge between two
entities that carries a payload `R`. Every relation type has a *mode*:

- the mode fixes whether its graph is directed or undirected;
- it fixes which sides of a node are *exclusive*, that is, hold at most one edge;
- it fixes whether neighbour lookups return many results or at most one.

A relation type is *acyclic* unless it says otherwise. For each relation type the world holds one
`RelationStorage`. This storage has four parts:

- a graph keyed by entity;
- a clock field `last_insert`;
- an insertion log: edge (a, b) → the timestamp when it was inserted;
- a deletion log: edge (a, b) → the timestamp when it was deleted, plus its payload.

Systems reach a storage through two views:

- `RelationView` is shared and read-only.
- `RelationViewMut` is exclusive. It inserts relations with `insert_checked`, which evicts the
  edges the mode's exclusivity forbids, inserts the new edge, and rolls it back when the
  relation would become cyclic. It also deletes relations, either tracked or untracked, edits
  payloads and clears the deletion log.

Both views answer the `GetRelation` queries: neighbour lookups, and which edges were inserted or
deleted within the window the view was borrowed with.

The model has these modules:

- `Clock`: 32-bit tracking timestamps and `wrapping_sub`.
- `IndexMaps`: the insertion-ordered map the storage uses for both logs. Its `remove` is a
  `swap_remove`.
- `Graphs`: the graph the storage keeps, as a set of nodes and an insertion-ordered map of
  edge keys. On an undirected graph the key of an edge is its endpoints in ascending order.
  `Graphs` also gives the neighbour lookups and a ghost definition of a cycle.
- `RelationMode`: the six modes, their flags, and `get`, `get_incoming` and `get_outgoing`.
- `Storage`: the storage's tracked operations in two forms.
  - The functions `InsertEdge`, `DeleteEdge` and `DeleteNode` act on a `StorageState` value.
  - The class `RelationStorage` has `InsertTracked`, `DeleteEdgeTracked` and
    `DeleteNodeTracked`, which update its fields in place. Each is proved to perform exactly
    the function of the same operation.
- `Relation`: the `Relation` declaration and the `GetRelation` queries, as functions of a storage
  state and a `Window`. A window holds the view's bounds, its `current` timestamp and the
  host's window predicate.
  - `get_incoming` and `get_outgoing` are `RelationMode.GetIncoming` and
    `RelationMode.GetOutgoing` on the storage's graph.
  - `get_inserted` and `get_deleted` are `GetOutgoingInserted` and `GetOutgoingDeleted`.
- `View`: the shared view, as a storage state with its window. It adds the inherent
  `is_inserted`/`is_deleted`, which never look at the reversed pair. Its inherent
  `inserted`/`deleted` are `Relation.Inserted`/`Relation.Deleted`.
- `ViewMut`: `insert_checked` as the function `CheckedInsertion`, with the lemmas about it. The
  class `RelationViewMut` updates the storage object in place. Its `InsertChecked` method is
  proved to perform `CheckedInsertion`.

The cycle tests are the host's graph algorithms, and they are parameters (`CycleCheck`). The
lemmas about acyclicity assume only that the test for the graph's edge type decides the ghost
predicate `Graphs.HasCycle`.

## Model

| member | source | states |
|---|---|---|
| Clock.WrappingSub | src/view_mut.rs:46 | `wrapping_sub` on `u32`: the result plus the subtrahend is the minuend modulo 2^32, and it is the plain difference when no wrap occurs |
| Wrappers.First | src/relation_mode.rs:95-98 | `.next()` of a lookup: None exactly on an empty sequence, otherwise its first element |
| IndexMaps.Empty | src/storage.rs:25-26 | `IndexMap::new()` has no keys and no entries |
| IndexMaps.Get | src/relation.rs:133 | `get` finds a value exactly when the key is present, and that value is the stored one |
| IndexMaps.Insert | src/storage.rs:85 | `insert` sets the key's value; a new key goes at the end of the order, and an existing key keeps its place |
| IndexMaps.Remove | src/storage.rs:55 | `remove` (`swap_remove`) drops exactly that key's entry and changes nothing when the key is absent |
| IndexMaps.SwapRemoveKeys | src/storage.rs:55 | moving the last key into the removed slot keeps the keys distinct and removes exactly that key |
| IndexMaps.FilterKeys | src/relation.rs:150-158 | the filter keeps exactly the keys that pass, and keeps them distinct when the input keys are distinct |
| IndexMaps.FilterKeysInOrder | src/relation.rs:152-156 | the filter keeps the map's iteration order |
| IndexMaps.Retain | src/storage.rs:80 | the edge entries left by `remove_node`: exactly those whose key passes (the model keeps their order; see "Left out") |
| Graphs.EdgeKey | src/storage.rs:11 | a directed graph keys an edge by (a, b); an undirected one by the ordered pair of its endpoints, so (a, b) and (b, a) name the same edge |
| Graphs.Empty | src/storage.rs:23 | `GraphMap::default()` has no nodes and no edges |
| Graphs.NoNodesNoEdges | src/storage.rs:40-42 | a graph with no nodes has no edges |
| Graphs.AddEdge | src/storage.rs:84 | `add_edge` adds both endpoints, sets the payload under the edge's key and returns the payload it replaced |
| Graphs.RemoveEdge | src/storage.rs:54 | `remove_edge` returns the payload of the edge, if there was one, and removes exactly that key; the nodes stay |
| Graphs.RemoveNode | src/view_mut.rs:171 | `remove_node` says whether the node existed and removes it with exactly the edges touching it |
| Graphs.UpdateEdge | src/view_mut.rs:178-180 | a write through `edge_weight_mut` replaces the payload of that one edge; a missing edge changes nothing |
| Graphs.NeighborsDirectedSpec | src/storage.rs:64-67 | `neighbors_directed` lists each neighbour on that side exactly once, and only those |
| Graphs.EdgesDirectedSpec | src/relation_mode.rs:55-75 | `edges_directed` lists (neighbour, payload) exactly for the edges on that side, each once and with the edge's payload, in the order of `neighbors_directed`; on an undirected graph both sides are every incident edge |
| Graphs.EdgesIsEdgesDirected | src/relation_mode.rs:195-204 | on an undirected graph, `edges(n)` mapped to the other endpoint equals `edges_directed(n, _)` |
| Graphs.SubgraphAcyclic | src/view_mut.rs:159-161 | removing edges from an acyclic graph leaves it acyclic |
| Graphs.SelfLoopIsCycle | src/view_mut.rs:149-157 | a graph with a self-loop has a cycle, whichever the edge type |
| RelationMode.IsDirected | src/relation_mode.rs:43 | the edge type is directed for the four `Directed*` modes and undirected for `Undirected` and `UndirectedExclusive` |
| RelationMode.IsExclusiveIncoming | src/relation_mode.rs:14 | true exactly for `DirectedExclusive`, `DirectedExclusiveIncoming` and `UndirectedExclusive` (lines 47-49, 83-85, 117-119, 152-154, 187-189 and 234-236) |
| RelationMode.IsExclusiveOutgoing | src/relation_mode.rs:15 | true exactly for `DirectedExclusive`, `DirectedExclusiveOutgoing` and `UndirectedExclusive` (lines 51-53, 87-89, 121-123, 156-158, 191-193 and 238-240) |
| RelationMode.GetIncoming | src/relation_mode.rs:24-27 | the result is a single optional item exactly on an exclusive incoming side. A sequence holds exactly the (source, payload) pairs of the edges into the node, each source once. A single item is the first of them, None exactly when there is no such edge |
| RelationMode.GetOutgoing | src/relation_mode.rs:29-32 | the same as `GetIncoming`, for the edges out of the node and the exclusive outgoing flag |
| RelationMode.Get | src/relation_mode.rs:17-22 | `get` is `get_outgoing` in every mode on a graph of the mode's edge type, including the undirected overrides at lines 195-204 and 242-254 |
| Storage.DefaultState | src/storage.rs:21-28 | a new storage has an empty graph, empty logs and `last_insert` 0 |
| Storage.InsertEdge | src/storage.rs:83-87 | `insert_tracked` sets the edge's payload and adds its endpoints. It logs the insertion at `current` only when the edge is new. The deletion log and the clock stay |
| Storage.DeleteEdge | src/storage.rs:53-61 | `delete_edge_tracked` reports whether the edge existed and changes nothing if not. Otherwise it removes the edge and drops (a, b) from the insertion log. It logs (a, b) as deleted at `current` with the removed payload. The nodes stay |
| Storage.DeleteEdges | src/storage.rs:64-78 | deleting edges one by one keeps the mode, the clock and the nodes |
| Storage.DeleteNode | src/storage.rs:63-81 | `delete_node_tracked` reports whether the node existed. Afterwards the node is gone and no edge touches it. Mode and clock stay |
| Storage.DeleteEdgesEffect | src/storage.rs:64-78 | deleting existing, distinct edges one by one removes exactly those edges and drops exactly their pairs from the insertion log. It logs each pair with its payload at `current` |
| Storage.DeleteNodeEffect | src/storage.rs:63-81 | deleting a node removes exactly its incident edges. Each of them is logged as deleted with its payload, and its logged pair is dropped from the insertion log. An undirected edge is logged as (neighbour, entity) |
| Storage.DefaultInsertionLogged | src/storage.rs:21-28 | in a new storage every logged insertion is an edge |
| Storage.InsertEdgeKeepsInsertionLogged | src/storage.rs:83-87 | `insert_tracked` keeps every logged insertion an edge |
| Storage.DeleteEdgeKeepsInsertionLogged | src/storage.rs:53-61 | on a directed relation `delete_edge_tracked` keeps every logged insertion an edge |
| Storage.DeleteNodeKeepsInsertionLogged | src/storage.rs:63-81 | on a directed relation `delete_node_tracked` keeps every logged insertion an edge |
| Storage.UndirectedNodeDeletionLeavesInsertion | src/storage.rs:72-78 | on an undirected relation, deleting `a` removes edge (a, b) but leaves the insertion entry (a, b). The deletion is logged as (b, a), so a logged insertion no longer names an edge |
| Storage.UndirectedInsertionLogReachable | src/storage.rs:83-87 | the situation above arises from one insertion into a new undirected storage |
| Storage.RelationStorage.Default | src/storage.rs:21-28 | the constructor yields the state `DefaultState` |
| Storage.RelationStorage.IsEmpty | src/storage.rs:40-42 | `is_empty` holds exactly when the graph has no nodes, and then it has no edges |
| Storage.RelationStorage.DeleteEdgeTracked | src/storage.rs:53-61 | the in-place update performs `DeleteEdge` and returns its flag |
| Storage.RelationStorage.DeleteEachTracked | src/storage.rs:64-70 | a loop of `delete_edge_tracked` calls performs `DeleteEdges` |
| Storage.RelationStorage.DeleteNodeTracked | src/storage.rs:63-81 | the two loops and `remove_node` perform `DeleteNode` |
| Storage.RelationStorage.InsertTracked | src/storage.rs:83-87 | the in-place update performs `InsertEdge` |
| Storage.RelationStorage.Delete | src/storage.rs:44-46 | `Storage::delete` performs `DeleteNode` |
| Relation.Declare | src/relation.rs:11-15 | a relation type declares its mode and is acyclic by default |
| Relation.DefaultBounds | src/view_mut.rs:45-46 | the bounds are `last_run` when the system ran before. Otherwise insertions count from `last_insert`, and deletions from `current - u32::MAX / 2` with wrap-around |
| Relation.Get | src/relation.rs:31-33 | `get` equals the mode's `get`, and yields a single item exactly on an exclusive outgoing side |
| Relation.RelationOf | src/relation.rs:128-130 | `relation(a, b)` is the payload of the edge out of `a` to `b`, and None exactly when `b` is not an outgoing neighbour of `a`; an undirected relation answers (b, a) alike |
| Relation.Inserted | src/relation.rs:150-158 | `inserted` lists exactly the logged pairs whose timestamp is in the window, each once, in log order |
| Relation.DeletedKeys | src/relation.rs:178-191 | the pairs `deleted` reports: exactly the logged deletions in the window, each once, in log order |
| Relation.Deleted | src/relation.rs:178-191 | `deleted` pairs each in-window logged deletion with its logged payload, in log order |
| Relation.IsInserted | src/relation.rs:132-148 | `is_inserted(a, b)` holds exactly when (a, b) is an in-window insertion, or the relation is undirected, (a, b) is not logged and (b, a) is an in-window insertion |
| Relation.IsDeleted | src/relation.rs:160-176 | the same as `IsInserted`, over the deletion log |
| Relation.GetOutgoingInserted | src/relation.rs:47-62 | `get_outgoing_inserted(n)` lists x exactly when (n, x) is an in-window insertion, or, undirected, (x, n) is; one item per such insertion, in log order (the insertion at position j is item number "reported insertions before j"); on a directed relation no x twice |
| Relation.GetIncomingInserted | src/relation.rs:64-79 | `get_incoming_inserted(n)` lists x exactly when (x, n) is an in-window insertion, or, undirected, (n, x) is; one item per such insertion, in log order; on a directed relation no x twice |
| Relation.GetOutgoingDeleted | src/relation.rs:88-106 | `get_outgoing_deleted(n)` lists, with its payload, the other end of every in-window deletion leaving `n` (undirected: touching `n`), and nothing else; one item per such deletion, in log order; on a directed relation no end twice |
| Relation.GetIncomingDeleted | src/relation.rs:108-126 | `get_incoming_deleted(n)` lists the same for every in-window deletion entering `n`, one item per deletion, in log order; on a directed relation no end twice |
| Relation.EndsPositions | src/relation.rs:47-79 | the `filter_map` over `inserted()` yields one item per pair it accepts, in the order of the pairs: the pair at position j becomes the item after the accepted pairs before it |
| Relation.EndsAt | src/relation.rs:47-79 | an accepted pair at position j is the item after the accepted pairs before it |
| Relation.DirectedEndsDistinct | src/relation.rs:49-50 | on a directed relation, filtering distinct pairs for one entity yields no end twice |
| Relation.EndsWithPayloadMembers | src/relation.rs:88-126 | the `filter_map` over `deleted()` yields exactly the other ends of the deletions that leave (or enter) `n`, undirected also those touching it, each with its deletion's payload |
| Relation.EndsWithPayloadPositions | src/relation.rs:88-126 | the same `filter_map` yields one item per accepted deletion, in the order of the deletions, with that deletion's payload |
| Relation.EndsWithPayloadAt | src/relation.rs:88-126 | the accepted deletion at position j is the item after the accepted deletions before it |
| Relation.DirectedEndsWithPayloadDistinct | src/relation.rs:93-94 | on a directed relation, filtering deletions with distinct pairs yields no end twice |
| Relation.UndirectedEndsAgree | src/relation.rs:52-60 | on an undirected relation, the outgoing and incoming end filters agree on every list of pairs |
| Relation.UndirectedInsertedViewsAgree | src/relation.rs:47-79 | on an undirected relation, `get_outgoing_inserted` and `get_incoming_inserted` are equal |
| Relation.DirectedIsInsertedAgrees | src/relation.rs:132-148 | on a directed relation, `is_inserted(a, b)` holds exactly when `b` is in `get_outgoing_inserted(a)` and exactly when `a` is in `get_incoming_inserted(b)` |
| Relation.UndirectedIsInsertedSymmetric | src/relation.rs:132-148 | on an undirected relation whose log does not hold both orders of the pair, `is_inserted` is symmetric |
| Relation.DirectedIsDeletedAgrees | src/relation.rs:160-176 | on a directed relation, `is_deleted(a, b)` holds exactly when `get_outgoing_deleted(a)` reports `b` |
| View.Borrow | src/view.rs:27-48 | the shared view's bounds are the default bounds of its storage at `current` |
| View.IsInserted | src/view.rs:74-81 | the inherent `is_inserted(a, b)` holds exactly when (a, b) itself is an in-window insertion |
| View.IsDeleted | src/view.rs:93-100 | the inherent `is_deleted(a, b)` holds exactly when (a, b) itself is an in-window deletion; its payload is then among `deleted` |
| View.InherentLookupsVersusGetRelation | src/view.rs:74-100 | the inherent lookups equal the `GetRelation` ones on a directed relation; on an undirected one, these also accept the reversed pair when (a, b) is not logged |
| View.UndirectedLookupsDiffer | src/view.rs:74-81 | after one undirected insertion of (a, b), the `GetRelation` `is_inserted(b, a)` holds and the inherent one does not |
| ViewMut.CheckedInsertion | src/view_mut.rs:119-164 | `insert_checked` returns Ok exactly when the relation may be cyclic or the test finds no cycle after the insertion, and then (a, b) carries the new payload. On Err exactly the edge (a, b) is removed from the staged graph. The logs and nodes are those left by the evictions and the insertion |
| ViewMut.EvictionsExist | src/view_mut.rs:125-141 | the evicted edges are distinct and all exist when the evictions start |
| ViewMut.DeleteEdgesStep | src/view_mut.rs:132 | each eviction on the exclusive incoming side finds its edge, so the `assert!` holds |
| ViewMut.EvictionsEffect | src/view_mut.rs:125-143 | on an exclusive incoming side every edge into `b` is removed and logged; otherwise, on an exclusive outgoing side, every edge out of `a`; otherwise nothing. The edge map loses exactly the evicted keys, the insertion log exactly the evicted pairs, and the deletion log gains exactly their entries |
| ViewMut.ExclusiveIncomingSingleSource | src/view_mut.rs:125-145 | after an accepted insertion on an exclusive incoming side, `a` is the only source of an edge into `b` |
| ViewMut.ExclusiveOutgoingSingleTarget | src/view_mut.rs:134-145 | after an accepted insertion on an outgoing-only exclusive side, `b` is the only target of an edge out of `a` |
| ViewMut.BothExclusiveKeepsOutgoing | src/view_mut.rs:125-143 | with `DirectedExclusive`, and with `UndirectedExclusive` when a is not b, an existing edge (a, c) with c other than b survives the insertion of (a, b) unchanged |
| ViewMut.RollbackLeavesInsertion | src/view_mut.rs:145-161 | a rejected insertion of a new edge leaves it logged as inserted at `current` although the edge is gone |
| ViewMut.RejectedInsertionShrinks | src/view_mut.rs:159-161 | after a rejected insertion every remaining edge existed before the call |
| ViewMut.InsertCheckedKeepsAcyclic | src/view_mut.rs:149-161 | an acyclic relation stays acyclic, given a cycle test that decides cycles |
| ViewMut.SelfLoopRejected | src/view_mut.rs:149-157 | an acyclic relation rejects every self-loop, given a cycle test that decides cycles |
| ViewMut.DeleteEdgesKeepsInsertionLogged | src/view_mut.rs:125-143 | on a directed relation the evictions keep every logged insertion an edge |
| ViewMut.InsertCheckedKeepsInsertionLogged | src/view_mut.rs:119-164 | on a directed relation an accepted insertion keeps every logged insertion an edge |
| ViewMut.RelationViewMut.Borrow | src/view_mut.rs:35-56 | the exclusive view's bounds are the default bounds of its storage at `current` |
| ViewMut.RelationViewMut.EvictSources | src/view_mut.rs:125-133 | the loop over the sources of `b` performs the tracked deletion of each edge into `b`, each found |
| ViewMut.RelationViewMut.EvictTargets | src/view_mut.rs:134-143 | the loop over the targets of `a` performs the tracked deletion of each edge out of `a` |
| ViewMut.RelationViewMut.InsertChecked | src/view_mut.rs:119-164 | the in-place update performs `CheckedInsertion` and returns its result |
| ViewMut.RelationViewMut.Insert | src/view_mut.rs:115-117 | `insert` of an accepted relation leaves the staged state: evictions, then the tracked insertion |
| ViewMut.RelationViewMut.DeleteRelation | src/view_mut.rs:166-168 | `delete_relation` performs `DeleteEdge` at the view's `current` |
| ViewMut.RelationViewMut.Delete | src/view_mut.rs:82-84 | `Delete::delete` performs `DeleteNode` at the view's `current` |
| ViewMut.RelationViewMut.DeleteRelationsWith | src/view_mut.rs:170-172 | `delete_relations_with` removes the node and its incident edges, reports whether it existed, and logs nothing |
| ViewMut.RelationViewMut.ClearDeleted | src/view_mut.rs:174-176 | `clear_deleted` empties the deletion log and changes nothing else |
| ViewMut.RelationViewMut.RelationMut | src/view_mut.rs:178-180 | a write through `relation_mut` changes the payload of edge (a, b) only, and only if it exists |

## Behaviour notes

The model follows the code in every case below.

- **Eviction on both-exclusive modes.** `insert_checked` tests the incoming flag first and the
  outgoing flag only in the `else` branch (src/view_mut.rs:125-143). With `DirectedExclusive`
  and `UndirectedExclusive`, therefore, only the incoming side is evicted.
  - `a` keeps its other edges (`ViewMut.BothExclusiveKeepsOutgoing`): its other outgoing edges
    on a directed graph, and its edges not touching `b` on an undirected one.
  - The test at src/lib.rs:222-239 expects `a`'s earlier targets to be evicted and logged as
    deleted. That expectation does not follow from this code.
- **Rollback after a cycle.** A rejected insertion removes edge (a, b) from the graph only:
  - the insertion log keeps (a, b) (`ViewMut.RollbackLeavesInsertion`);
  - the evicted edges are not restored;
  - if (a, b) existed before the call, the old edge is gone too.
- **Repeated ends on undirected relations.** The per-entity change views list one item per log
  entry, not per neighbour. After an insertion of (x, n), a deletion of node x and an insertion of
  (n, x), the insertion log holds both (x, n) and (n, x), so `get_outgoing_inserted(n)` lists x
  twice (`Relation.GetOutgoingInserted` counts the reported entries).
- **Undirected node deletion.** `delete_node_tracked` on an undirected graph logs each deletion
  as (neighbour, entity). An insertion logged as (entity, neighbour) therefore stays in the
  insertion log (`Storage.UndirectedNodeDeletionLeavesInsertion`).
- **`last_insert` is never updated.** No operation in these files writes it, so without
  `last_run` the insertion bound is always 0.

## Left out

- src/iter.rs (depth- and breadth-first iterators) and `visit_depth_first` and
  `visit_breadth_first` (src/relation.rs:193-199): graph traversal is not part of this model.
- src/relation_ext.rs: the world-level convenience wrappers are not part of this model.
- Borrowing: `custom_storage_or_insert(_mut)`, `BorrowInfo`, the borrow guards and
  `enable_tracking` are host machinery. A view is modelled by the storage it reaches and its
  bounds.
- The `GetRelation` impls of the shared view (src/view.rs:113-129). They define a `graph`
  method that the trait (src/relation.rs:18-29) does not declare, and none of the four methods
  it requires (`storage`, `last_insertion`, `last_deletion`, `current`). The model gives the
  shared view the `GetRelation` queries over its storage and bounds, as `RelationViewMut` has
  them (src/view_mut.rs:183-199).
- `memory_usage` (src/storage.rs:35-38) always returns None and is not modelled.
- Error formatting of `InsertError` (src/view_mut.rs:93-109): text output is left out.
- Iteration order of the graph. The host graph lists neighbours in an order this model does not
  reproduce. The model lists them in the order of the edge keys.
  - Removing an edge swap-removes its key: the last key moves into the gap.
  - Removing a node keeps the remaining edge keys in their order. The host graph instead
    swap-removes each incident edge in turn, so the orders can differ.
  - Results that depend on that order are reproduced only up to it: the first item of an
    exclusive lookup, the order of the items of a `Many` lookup, the order in which evictions
    are logged, and the order of the deletion log after `delete_node_tracked` (the test at
    src/lib.rs:117-120 compares it with an exact list).
  - The logs use `swap_remove`, as the code does.
- The cycle tests `is_cyclic_directed` and `is_cyclic_undirected` are parameters. They are
  foreign graph algorithms.
- Timestamp comparisons. `TrackingTimestamp::is_within` (the `GetRelation` queries) and
  `is_track_within_bounds` (the shared view's inherent lookups) are one host predicate, carried
  as a parameter of the window. The `u32` and `TrackingTimestamp` types are both modelled as
  32-bit timestamps.
- ViewMut.RelationViewMut.RelationMut: the mutable reference `relation_mut` returns is modelled
  as an edit function the caller passes in.
- ViewMut.RelationViewMut.Insert: the panic of `unwrap` on a rejected insertion is modelled as a
  precondition that the insertion is accepted.
