/**
 * `RelationView`: a shared view of a relation storage. It reads the storage and never changes
 * it, so it is modelled as the storage's state together with the window the view was borrowed
 * with. Besides the `GetRelation` queries, it has inherent `is_inserted` and `is_deleted`
 * lookups that, unlike the `GetRelation` ones, never fall back to the reversed pair; its
 * inherent `inserted` and `deleted` are the filters `Relation.Inserted` and `Relation.Deleted`.
 */
module View {
  import opened Wrappers
  import opened Clock
  import IndexMaps
  import opened Graphs
  import opened RelationMode
  import opened Storage
  import opened Relation

  datatype RelationView<R> = RelationView(storage: StorageState<R>, window: Window)

  /**
   * `borrow`: a view of `storage` up to `current`. When the system ran before, both bounds are
   * `last_run`; otherwise insertions count from the storage's `last_insert` and deletions from
   * `u32::MAX / 2` before `current`, with wrap-around.
   */
  function Borrow<R>(storage: StorageState<R>, lastRun: Option<Timestamp>, current: Timestamp, isWithin: WithinFn): (v: RelationView<R>)
    ensures v.storage == storage && v.window.current == current && v.window.isWithin == isWithin
    ensures lastRun.Some? ==> v.window.lastInsertion == lastRun.value && v.window.lastDeletion == lastRun.value
    ensures lastRun.None? ==> v.window.lastInsertion == storage.lastInsert
    ensures lastRun.None? ==> (v.window.lastDeletion + U32_MAX / 2) % (U32_MAX + 1) == current
  {
    var (lastInsertion, lastDeletion) := DefaultBounds(lastRun, storage.lastInsert, current);
    RelationView(storage, Window(lastInsertion, lastDeletion, current, isWithin))
  }

  /** The inherent `is_inserted(a, b)`: (a, b) itself is an in-window insertion. */
  function IsInserted<R>(v: RelationView<R>, a: EntityId, b: EntityId): (r: bool)
    ensures r <==> (a, b) in Inserted(v.storage, v.window)
  {
    match IndexMaps.Get(v.storage.insertion, (a, b))
    case Some(t) => InsertedWithin(v.window, t)
    case None => false
  }

  /** The inherent `is_deleted(a, b)`: (a, b) itself is an in-window deletion. */
  function IsDeleted<R>(v: RelationView<R>, a: EntityId, b: EntityId): (r: bool)
    ensures r <==> (a, b) in DeletedKeys(v.storage, v.window)
    ensures r ==> (a, b) in v.storage.deletion.values && ((a, b), v.storage.deletion.values[(a, b)].1) in Deleted(v.storage, v.window)
  {
    match IndexMaps.Get(v.storage.deletion, (a, b))
    case Some(t) => DeletedWithin(v.window, t.0)
    case None => false
  }

  /**
   * The inherent lookups and the `GetRelation` ones agree on a directed relation; on an
   * undirected one the `GetRelation` lookup also accepts the reversed pair when (a, b) itself
   * is not logged.
   */
  lemma InherentLookupsVersusGetRelation<R>(v: RelationView<R>, a: EntityId, b: EntityId)
    ensures IsDirected(v.storage.mode) ==> (Relation.IsInserted(v.storage, v.window, a, b) <==> IsInserted(v, a, b))
    ensures IsDirected(v.storage.mode) ==> (Relation.IsDeleted(v.storage, v.window, a, b) <==> IsDeleted(v, a, b))
    ensures Relation.IsInserted(v.storage, v.window, a, b) <==>
              IsInserted(v, a, b) || (!IsDirected(v.storage.mode) && (a, b) !in v.storage.insertion.values && IsInserted(v, b, a))
    ensures Relation.IsDeleted(v.storage, v.window, a, b) <==>
              IsDeleted(v, a, b) || (!IsDirected(v.storage.mode) && (a, b) !in v.storage.deletion.values && IsDeleted(v, b, a))
  {
  }

  /**
   * On an undirected relation the two lookups can differ: after the first insertion of (a, b),
   * the inherent `is_inserted(b, a)` is false while the `GetRelation` one is true.
   */
  lemma UndirectedLookupsDiffer<R>(mode: Mode, a: EntityId, b: EntityId, rel: R, current: Timestamp, isWithin: WithinFn)
    requires !IsDirected(mode) && a != b
    requires isWithin(current, 0, current)
    ensures var s := InsertEdge(DefaultState<R>(mode), a, b, rel, current);
      var v := Borrow(s, None, current, isWithin);
      Relation.IsInserted(v.storage, v.window, b, a) && !IsInserted(v, b, a)
  {
    var s := InsertEdge(DefaultState<R>(mode), a, b, rel, current);
    assert s.insertion.values == map[(a, b) := current];
  }
}
