/**
 * `RelationViewMut`: the exclusive view through which relations are inserted and deleted.
 * `insert_checked(a, b, r)` first evicts the edges the mode's exclusivity forbids, logging
 * each deletion; then inserts (a, b), logging the insertion if the edge is new; then, for an
 * acyclic relation type, runs the host's cycle test for the graph's edge type; and on a cycle
 * removes edge (a, b) again without touching either log.
 *
 * The protocol is given as the function `CheckedInsertion` on storage states and as the method
 * `RelationViewMut.InsertChecked`, which updates the storage object in place and is proved to
 * perform exactly that function.
 */
module ViewMut {
  import opened Wrappers
  import opened Clock
  import IndexMaps
  import opened Graphs
  import opened RelationMode
  import opened Storage
  import opened Relation

  /** `InsertError`. */
  datatype InsertError = CycleDetected

  /** `Result<(), InsertError>`. */
  datatype InsertResult = Ok | Err(error: InsertError)

  /** The host's cycle tests, `is_cyclic_directed` and `is_cyclic_undirected`. */
  datatype CycleCheck<!R> = CycleCheck(directed: Graph<R> -> bool, undirected: Graph<R> -> bool)

  /** The edges `insert_checked(a, b, _)` evicts before inserting, as the pairs it deletes them under. */
  function Evictions<R>(s: StorageState<R>, a: EntityId, b: EntityId): seq<Pair> {
    if IsExclusiveIncoming(s.mode) then InPairs(NeighborsDirected(s.graph, b, Incoming), b)
    else if IsExclusiveOutgoing(s.mode) then OutPairs(a, NeighborsDirected(s.graph, a, Outgoing))
    else []
  }

  /** The state after the evictions and the tracked insertion, before the cycle test. */
  function Staged<R>(s: StorageState<R>, a: EntityId, b: EntityId, rel: R, current: Timestamp): StorageState<R> {
    InsertEdge(DeleteEdges(s, Evictions(s, a, b), current), a, b, rel, current)
  }

  /** The cycle test `insert_checked` runs: none for a relation that may be cyclic, else the one for the edge type. */
  function CycleFound<R>(kind: RelationKind, cycles: CycleCheck<R>, g: Graph<R>): bool {
    kind.acyclic && (if IsDirected(kind.mode) then cycles.directed(g) else cycles.undirected(g))
  }

  /**
   * `insert_checked(a, b, rel)`: Ok exactly when the relation may be cyclic or the test finds
   * no cycle after the insertion, and then (a, b) carries `rel`. On Err, (a, b) is absent
   * afterwards; in both cases the logs are those left by the evictions and the insertion.
   */
  function CheckedInsertion<R>(s: StorageState<R>, kind: RelationKind, cycles: CycleCheck<R>,
                            a: EntityId, b: EntityId, rel: R, current: Timestamp): (r: (StorageState<R>, InsertResult))
    requires kind.mode == s.mode
    ensures !kind.acyclic ==> r.1 == Ok
    ensures r.1 == Ok <==> !CycleFound(kind, cycles, Staged(s, a, b, rel, current).graph)
    ensures r.1 == Ok ==> r.0 == Staged(s, a, b, rel, current) && EdgeWeight(r.0.graph, a, b) == Some(rel)
    ensures r.1.Err? ==> EdgeWeight(r.0.graph, a, b).None?
    ensures r.1.Err? ==> r.0.graph.edges.values == Staged(s, a, b, rel, current).graph.edges.values - {EdgeKey(s.graph.directed, a, b)}
    ensures r.0.mode == s.mode && r.0.graph.nodes == Staged(s, a, b, rel, current).graph.nodes
    ensures r.0.insertion == Staged(s, a, b, rel, current).insertion
    ensures r.0.deletion == Staged(s, a, b, rel, current).deletion
  {
    var staged := Staged(s, a, b, rel, current);
    if CycleFound(kind, cycles, staged.graph) then
      (Store(staged.mode, RemoveEdge(staged.graph, a, b).0, staged.lastInsert, staged.insertion, staged.deletion),
       Err(CycleDetected))
    else (staged, Ok)
  }

  // ---------------------------------------------------------------------------------------
  // Lemmas about the protocol

  /** The evicted pairs name distinct edges, all present when the evictions start. */
  lemma EvictionsExist<R>(s: StorageState<R>, a: EntityId, b: EntityId)
    ensures DistinctKeys(s.graph.directed, Evictions(s, a, b))
    ensures forall p :: p in Evictions(s, a, b) ==> EdgeKey(s.graph.directed, p.0, p.1) in s.graph.edges.values
  {
    if IsExclusiveIncoming(s.mode) {
      InPassPairs(s.graph, b);
    } else if IsExclusiveOutgoing(s.mode) {
      var ns := NeighborsDirected(s.graph, a, Outgoing);
      var ps := OutPairs(a, ns);
      NeighborsDirectedSpec(s.graph, a, Outgoing);
      forall p | p in ps
        ensures EdgeKey(s.graph.directed, p.0, p.1) in s.graph.edges.values
      {
        var i :| 0 <= i < |ps| && ps[i] == p;
        assert ns[i] in ns;
      }
    }
  }

  /**
   * Deleting existing edges with distinct keys one by one, each edge still exists when its
   * turn comes.
   */
  lemma DeleteEdgesStep<R>(s: StorageState<R>, pairs: seq<Pair>, i: nat, current: Timestamp)
    requires i < |pairs| && DistinctKeys(s.graph.directed, pairs)
    requires forall p :: p in pairs ==> EdgeKey(s.graph.directed, p.0, p.1) in s.graph.edges.values
    ensures EdgeWeight(DeleteEdges(s, pairs[..i], current).graph, pairs[i].0, pairs[i].1).Some?
    ensures DeleteEdges(s, pairs[..i + 1], current) ==
      DeleteEdge(DeleteEdges(s, pairs[..i], current), pairs[i].0, pairs[i].1, current).0
  {
    var prefix := pairs[..i + 1];
    assert DistinctKeys(s.graph.directed, prefix);
    LastKeyFresh(s.graph.directed, prefix);
    assert prefix[..i] == pairs[..i] && prefix[i] == pairs[i];
    assert pairs[i] in pairs;
    DeleteEdgesEffect(s, pairs[..i], current);
  }

  /**
   * The evictions: on an exclusive incoming side every edge into `b` (every edge touching `b`
   * when undirected) is removed and logged as deleted at `current` with its payload; otherwise,
   * on an exclusive outgoing side, every edge out of `a`; otherwise nothing. No other edge
   * changes.
   */
  lemma EvictionsEffect<R>(s: StorageState<R>, a: EntityId, b: EntityId, current: Timestamp)
    ensures var e := DeleteEdges(s, Evictions(s, a, b), current);
      && e.graph.nodes == s.graph.nodes
      && e.graph.edges.values == s.graph.edges.values - KeySet(s.graph.directed, Evictions(s, a, b))
      && e.insertion.values == s.insertion.values - (set p | p in Evictions(s, a, b))
      && e.deletion.values == s.deletion.values + Deletions(s.graph, Evictions(s, a, b), current)
      && (forall k :: k in e.graph.edges.values ==> k in s.graph.edges.values && e.graph.edges.values[k] == s.graph.edges.values[k])
      && (IsExclusiveIncoming(s.mode) ==> forall x: EntityId :: EdgeWeight(e.graph, x, b).None?)
      && (IsExclusiveIncoming(s.mode) ==> forall x: EntityId :: EdgeWeight(s.graph, x, b).Some? ==>
            (x, b) in e.deletion.values && e.deletion.values[(x, b)] == (current, EdgeWeight(s.graph, x, b).value))
      && (!IsExclusiveIncoming(s.mode) && IsExclusiveOutgoing(s.mode) ==> forall y: EntityId :: EdgeWeight(e.graph, a, y).None?)
      && (!IsExclusiveIncoming(s.mode) && IsExclusiveOutgoing(s.mode) ==> forall y: EntityId :: EdgeWeight(s.graph, a, y).Some? ==>
            (a, y) in e.deletion.values && e.deletion.values[(a, y)] == (current, EdgeWeight(s.graph, a, y).value))
      && (!IsExclusiveIncoming(s.mode) && !IsExclusiveOutgoing(s.mode) ==> e == s)
  {
    var ps := Evictions(s, a, b);
    EvictionsExist(s, a, b);
    DeleteEdgesEffect(s, ps, current);
    var e := DeleteEdges(s, ps, current);
    var d := s.graph.directed;
    if IsExclusiveIncoming(s.mode) {
      InPassPairs(s.graph, b);
      forall x: EntityId | EdgeWeight(s.graph, x, b).Some?
        ensures (x, b) in e.deletion.values && e.deletion.values[(x, b)] == (current, EdgeWeight(s.graph, x, b).value)
      {
        assert (x, b) in ps;
        assert (x, b) in Deletions(s.graph, ps, current);
      }
      forall x: EntityId
        ensures EdgeWeight(e.graph, x, b).None?
      {
        if EdgeKey(d, x, b) in s.graph.edges.values {
          assert (x, b) in ps;
        }
      }
    } else if IsExclusiveOutgoing(s.mode) {
      var ns := NeighborsDirected(s.graph, a, Outgoing);
      NeighborsDirectedSpec(s.graph, a, Outgoing);
      forall y: EntityId | EdgeWeight(s.graph, a, y).Some?
        ensures (a, y) in ps
      {
        assert y in ns;
        var i :| 0 <= i < |ns| && ns[i] == y;
        assert ps[i] == (a, y);
      }
      forall y: EntityId | EdgeWeight(s.graph, a, y).Some?
        ensures (a, y) in e.deletion.values && e.deletion.values[(a, y)] == (current, EdgeWeight(s.graph, a, y).value)
      {
        assert (a, y) in Deletions(s.graph, ps, current);
      }
      forall y: EntityId
        ensures EdgeWeight(e.graph, a, y).None?
      {
        if EdgeKey(d, a, y) in s.graph.edges.values {
          assert (a, y) in ps;
        }
      }
    }
  }

  /**
   * On an exclusive incoming side a successful insertion leaves `b` with exactly one edge
   * into it, the one from `a` (on an undirected graph: exactly one edge touching `b`).
   */
  lemma ExclusiveIncomingSingleSource<R>(s: StorageState<R>, kind: RelationKind, cycles: CycleCheck<R>,
                                         a: EntityId, b: EntityId, rel: R, current: Timestamp)
    requires kind.mode == s.mode && IsExclusiveIncoming(s.mode)
    requires CheckedInsertion(s, kind, cycles, a, b, rel, current).1 == Ok
    ensures forall x: EntityId :: EdgeWeight(CheckedInsertion(s, kind, cycles, a, b, rel, current).0.graph, x, b).Some? <==> x == a
  {
    var e := DeleteEdges(s, Evictions(s, a, b), current);
    var g := CheckedInsertion(s, kind, cycles, a, b, rel, current).0.graph;
    assert g == InsertEdge(e, a, b, rel, current).graph;
    EvictionsEffect(s, a, b, current);
    forall x: EntityId
      ensures EdgeWeight(g, x, b).Some? <==> x == a
    {
      assert EdgeWeight(e.graph, x, b).None?;
      if EdgeKey(g.directed, x, b) == EdgeKey(g.directed, a, b) {
        assert x == a;
      }
    }
  }


  /**
   * When only the outgoing side is exclusive, a successful insertion leaves `a` with exactly
   * one edge out of it, the one to `b`.
   */
  lemma ExclusiveOutgoingSingleTarget<R>(s: StorageState<R>, kind: RelationKind, cycles: CycleCheck<R>,
                                         a: EntityId, b: EntityId, rel: R, current: Timestamp)
    requires kind.mode == s.mode && !IsExclusiveIncoming(s.mode) && IsExclusiveOutgoing(s.mode)
    requires CheckedInsertion(s, kind, cycles, a, b, rel, current).1 == Ok
    ensures forall y: EntityId :: EdgeWeight(CheckedInsertion(s, kind, cycles, a, b, rel, current).0.graph, a, y).Some? <==> y == b
  {
    var e := DeleteEdges(s, Evictions(s, a, b), current);
    var g := CheckedInsertion(s, kind, cycles, a, b, rel, current).0.graph;
    assert g == InsertEdge(e, a, b, rel, current).graph;
    EvictionsEffect(s, a, b, current);
    forall y: EntityId
      ensures EdgeWeight(g, a, y).Some? <==> y == b
    {
      assert EdgeWeight(e.graph, a, y).None?;
    }
  }

  /**
   * With both sides exclusive only the incoming side is enforced: an edge (a, c) with c other
   * than b survives a successful insertion of (a, b), so with `DirectedExclusive` `a` can end up
   * with two outgoing edges, and with `UndirectedExclusive` `a` (other than `b`) two edges.
   */
  lemma BothExclusiveKeepsOutgoing<R>(s: StorageState<R>, kind: RelationKind, cycles: CycleCheck<R>,
                                      a: EntityId, b: EntityId, c: EntityId, rel: R, current: Timestamp)
    requires kind.mode == s.mode && c != b
    requires s.mode == DirectedExclusive || (s.mode == UndirectedExclusive && a != b)
    requires EdgeWeight(s.graph, a, c).Some?
    requires CheckedInsertion(s, kind, cycles, a, b, rel, current).1 == Ok
    ensures EdgeWeight(CheckedInsertion(s, kind, cycles, a, b, rel, current).0.graph, a, c) == EdgeWeight(s.graph, a, c)
    ensures EdgeWeight(CheckedInsertion(s, kind, cycles, a, b, rel, current).0.graph, a, b) == Some(rel)
  {
    var ps := Evictions(s, a, b);
    EvictionsExist(s, a, b);
    DeleteEdgesEffect(s, ps, current);
    InPassPairs(s.graph, b);
    assert EdgeKey(s.graph.directed, a, c) !in KeySet(s.graph.directed, ps);
  }

  /**
   * A rejected insertion of a new edge leaves its insertion logged at `current` although the
   * edge is gone: the rollback does not undo the log entry, so the insertion log then names
   * a pair that is not an edge.
   */
  lemma RollbackLeavesInsertion<R>(s: StorageState<R>, kind: RelationKind, cycles: CycleCheck<R>,
                                   a: EntityId, b: EntityId, rel: R, current: Timestamp)
    requires kind.mode == s.mode
    requires EdgeWeight(s.graph, a, b).None?
    requires CheckedInsertion(s, kind, cycles, a, b, rel, current).1.Err?
    ensures var r := CheckedInsertion(s, kind, cycles, a, b, rel, current).0;
      && (a, b) in r.insertion.values && r.insertion.values[(a, b)] == current
      && EdgeWeight(r.graph, a, b).None?
      && !InsertionLogged(r)
  {
    EvictionsEffect(s, a, b, current);
  }

  /** A rejected insertion removes edges only: every edge left was there before the call. */
  lemma RejectedInsertionShrinks<R>(s: StorageState<R>, kind: RelationKind, cycles: CycleCheck<R>,
                                    a: EntityId, b: EntityId, rel: R, current: Timestamp)
    requires kind.mode == s.mode
    requires CheckedInsertion(s, kind, cycles, a, b, rel, current).1.Err?
    ensures CheckedInsertion(s, kind, cycles, a, b, rel, current).0.graph.edges.values.Keys <= s.graph.edges.values.Keys
  {
    EvictionsEffect(s, a, b, current);
  }

  /**
   * An acyclic relation stays acyclic, provided the host's test for the graph's edge type
   * tells exactly whether the graph it is given after the insertion has a cycle.
   */
  lemma InsertCheckedKeepsAcyclic<R>(s: StorageState<R>, kind: RelationKind, cycles: CycleCheck<R>,
                                     a: EntityId, b: EntityId, rel: R, current: Timestamp)
    requires kind.mode == s.mode && kind.acyclic && !HasCycle(s.graph)
    requires var g := Staged(s, a, b, rel, current).graph;
      (if IsDirected(s.mode) then cycles.directed(g) else cycles.undirected(g)) == HasCycle(g)
    ensures !HasCycle(CheckedInsertion(s, kind, cycles, a, b, rel, current).0.graph)
  {
    var r := CheckedInsertion(s, kind, cycles, a, b, rel, current);
    if r.1.Err? {
      RejectedInsertionShrinks(s, kind, cycles, a, b, rel, current);
      SubgraphAcyclic(s.graph, r.0.graph);
    }
  }

  /** With the test deciding cycles, an acyclic relation rejects every self-loop. */
  lemma SelfLoopRejected<R>(s: StorageState<R>, kind: RelationKind, cycles: CycleCheck<R>,
                            a: EntityId, rel: R, current: Timestamp)
    requires kind.mode == s.mode && kind.acyclic
    requires var g := Staged(s, a, a, rel, current).graph;
      (if IsDirected(s.mode) then cycles.directed(g) else cycles.undirected(g)) == HasCycle(g)
    ensures CheckedInsertion(s, kind, cycles, a, a, rel, current).1 == Err(CycleDetected)
  {
    SelfLoopIsCycle(Staged(s, a, a, rel, current).graph, a);
  }

  /** Deleting edges of a directed graph one by one keeps every logged insertion an edge. */
  lemma {:induction false} DeleteEdgesKeepsInsertionLogged<R>(s: StorageState<R>, pairs: seq<Pair>, current: Timestamp)
    requires IsDirected(s.mode) && InsertionLogged(s)
    ensures InsertionLogged(DeleteEdges(s, pairs, current))
    decreases |pairs|
  {
    if pairs != [] {
      var last := pairs[|pairs| - 1];
      DeleteEdgesKeepsInsertionLogged(s, pairs[..|pairs| - 1], current);
      DeleteEdgeKeepsInsertionLogged(DeleteEdges(s, pairs[..|pairs| - 1], current), last.0, last.1, current);
    }
  }

  /**
   * On a directed relation a successful `insert_checked` keeps every logged insertion an edge
   * (a rejected one need not: see `RollbackLeavesInsertion`).
   */
  lemma InsertCheckedKeepsInsertionLogged<R>(s: StorageState<R>, kind: RelationKind, cycles: CycleCheck<R>,
                                             a: EntityId, b: EntityId, rel: R, current: Timestamp)
    requires kind.mode == s.mode && IsDirected(s.mode) && InsertionLogged(s)
    requires CheckedInsertion(s, kind, cycles, a, b, rel, current).1 == Ok
    ensures InsertionLogged(CheckedInsertion(s, kind, cycles, a, b, rel, current).0)
  {
    DeleteEdgesKeepsInsertionLogged(s, Evictions(s, a, b), current);
    InsertEdgeKeepsInsertionLogged(DeleteEdges(s, Evictions(s, a, b), current), a, b, rel, current);
  }

  // ---------------------------------------------------------------------------------------
  // The view object

  /** `RelationViewMut<R>`: exclusive access to a storage, with the bounds it was borrowed with. */
  class RelationViewMut<R> {
    const storage: RelationStorage<R>
    const kind: RelationKind
    const window: Window
    const cycles: CycleCheck<R>

    ghost predicate Valid()
      reads this, storage
    {
      storage.Valid() && kind.mode == storage.mode
    }

    /** `borrow`: exclusive access to `storage` up to `current`, with the default bounds. */
    constructor Borrow(storage: RelationStorage<R>, kind: RelationKind, lastRun: Option<Timestamp>, current: Timestamp,
                       isWithin: WithinFn, cycles: CycleCheck<R>)
      requires storage.Valid() && kind.mode == storage.mode
      ensures Valid() && this.storage == storage && this.kind == kind && this.cycles == cycles
      ensures window == Window(DefaultBounds(lastRun, storage.lastInsert, current).0,
                               DefaultBounds(lastRun, storage.lastInsert, current).1, current, isWithin)
    {
      this.storage := storage;
      this.kind := kind;
      this.cycles := cycles;
      var (lastInsertion, lastDeletion) := DefaultBounds(lastRun, storage.lastInsert, current);
      window := Window(lastInsertion, lastDeletion, current, isWithin);
    }

    /**
     * The eviction on an exclusive incoming side: delete (tracked) every edge into `b`, each of
     * which must exist when its turn comes.
     */
    method EvictSources(b: EntityId)
      requires Valid()
      modifies storage
      ensures Valid() && storage.State() ==
        DeleteEdges(old(storage.State()), InPairs(NeighborsDirected(old(storage.graph), b, Incoming), b), window.current)
    {
      ghost var s0 := storage.State();
      var current := window.current;
      InPassPairs(s0.graph, b);
      var sources := NeighborsDirected(storage.graph, b, Incoming);
      ghost var pairs := InPairs(sources, b);
      for i := 0 to |sources|
        invariant storage.Valid() && storage.mode == s0.mode
        invariant storage.State() == DeleteEdges(s0, pairs[..i], current)
      {
        DeleteEdgesStep(s0, pairs, i, current);
        var removed := storage.DeleteEdgeTracked(sources[i], b, current);
        assert removed;
      }
      assert pairs[..|sources|] == pairs;
    }

    /** The eviction on an exclusive outgoing side: delete (tracked) every edge out of `a`. */
    method EvictTargets(a: EntityId)
      requires Valid()
      modifies storage
      ensures Valid() && storage.State() ==
        DeleteEdges(old(storage.State()), OutPairs(a, NeighborsDirected(old(storage.graph), a, Outgoing)), window.current)
    {
      ghost var s0 := storage.State();
      var current := window.current;
      var targets := NeighborsDirected(storage.graph, a, Outgoing);
      ghost var pairs := OutPairs(a, targets);
      for i := 0 to |targets|
        invariant storage.Valid() && storage.mode == s0.mode
        invariant storage.State() == DeleteEdges(s0, pairs[..i], current)
      {
        assert pairs[..i + 1][..i] == pairs[..i];
        var _ := storage.DeleteEdgeTracked(a, targets[i], current);
      }
      assert pairs[..|targets|] == pairs;
    }

    /** `insert_checked`. */
    method InsertChecked(a: EntityId, b: EntityId, rel: R) returns (result: InsertResult)
      requires Valid()
      modifies storage
      ensures Valid() && (storage.State(), result) == CheckedInsertion(old(storage.State()), kind, cycles, a, b, rel, window.current)
    {
      var current := window.current;
      if IsExclusiveIncoming(kind.mode) {
        EvictSources(b);
      } else if IsExclusiveOutgoing(kind.mode) {
        EvictTargets(a);
      }
      storage.InsertTracked(a, b, rel, current);
      result := Ok;
      if kind.acyclic {
        if IsDirected(kind.mode) {
          if cycles.directed(storage.graph) {
            result := Err(CycleDetected);
          }
        } else if cycles.undirected(storage.graph) {
          result := Err(CycleDetected);
        }
      }
      if result.Err? {
        var (g, _) := RemoveEdge(storage.graph, a, b);
        storage.graph := g;
      }
    }

    /** `insert`: `insert_checked`, whose result is unwrapped; it panics unless the insertion is accepted. */
    method Insert(a: EntityId, b: EntityId, rel: R)
      requires Valid()
      requires CheckedInsertion(storage.State(), kind, cycles, a, b, rel, window.current).1 == Ok
      modifies storage
      ensures Valid() && storage.State() == Staged(old(storage.State()), a, b, rel, window.current)
    {
      var _ := InsertChecked(a, b, rel);
    }

    /** `delete_relation`: `delete_edge_tracked` at the view's `current`. */
    method DeleteRelation(a: EntityId, b: EntityId) returns (removed: bool)
      requires Valid()
      modifies storage
      ensures Valid() && (storage.State(), removed) == DeleteEdge(old(storage.State()), a, b, window.current)
    {
      removed := storage.DeleteEdgeTracked(a, b, window.current);
    }

    /** `Delete::delete`: `delete_node_tracked` at the view's `current`. */
    method Delete(entity: EntityId) returns (existed: bool)
      requires Valid()
      modifies storage
      ensures Valid() && (storage.State(), existed) == DeleteNode(old(storage.State()), entity, window.current)
    {
      existed := storage.DeleteNodeTracked(entity, window.current);
    }

    /**
     * `delete_relations_with`: removes the node and the edges touching it from the graph
     * without logging anything.
     */
    method DeleteRelationsWith(e: EntityId) returns (existed: bool)
      requires Valid()
      modifies storage
      ensures Valid() && (existed <==> e in old(storage.graph.nodes))
      ensures storage.graph.nodes == old(storage.graph.nodes) - {e}
      ensures storage.graph.edges.values == map k | k in old(storage.graph.edges.values) && !Incident(k, e) :: old(storage.graph.edges.values)[k]
      ensures storage.insertionData == old(storage.insertionData) && storage.deletionData == old(storage.deletionData)
      ensures storage.lastInsert == old(storage.lastInsert)
    {
      var (g, found) := RemoveNode(storage.graph, e);
      storage.graph := g;
      existed := found;
    }

    /** `clear_deleted`: empties the deletion log and nothing else. */
    method ClearDeleted()
      requires Valid()
      modifies storage
      ensures Valid() && storage.deletionData.values == map[]
      ensures storage.graph == old(storage.graph) && storage.insertionData == old(storage.insertionData)
      ensures storage.lastInsert == old(storage.lastInsert)
    {
      storage.deletionData := IndexMaps.Empty();
    }

    /**
     * `relation_mut`, with the caller's write through the returned reference given as `edit`:
     * the payload of edge (a, b), if there is one, becomes `edit` of it; nothing else changes.
     */
    method RelationMut(a: EntityId, b: EntityId, edit: R -> R) returns (found: bool)
      requires Valid()
      modifies storage
      ensures Valid() && (found <==> EdgeWeight(old(storage.graph), a, b).Some?)
      ensures found ==> EdgeWeight(storage.graph, a, b) == Some(edit(EdgeWeight(old(storage.graph), a, b).value))
      ensures forall k :: k != EdgeKey(storage.graph.directed, a, b) ==> IndexMaps.Get(storage.graph.edges, k) == IndexMaps.Get(old(storage.graph.edges), k)
      ensures storage.graph.nodes == old(storage.graph.nodes) && storage.graph.edges.keys == old(storage.graph.edges.keys)
      ensures storage.insertionData == old(storage.insertionData) && storage.deletionData == old(storage.deletionData)
      ensures storage.lastInsert == old(storage.lastInsert)
    {
      var (g, present) := UpdateEdge(storage.graph, a, b, edit);
      storage.graph := g;
      found := present;
    }
  }
}
