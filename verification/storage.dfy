/**
 * `RelationStorage`: the per-relation-type store of the host's component storage. It owns the
 * relation's graph, the `last_insert` timestamp, and two change logs keyed by the (a, b) pair
 * named in the call that caused the change: the insertion log maps a pair to the timestamp of
 * its insertion, the deletion log to the timestamp of its deletion and the payload it carried.
 *
 * The three tracked operations are given twice: as functions on a `StorageState` value, which
 * the queries and the lemmas use, and as methods of the `RelationStorage` class, which update
 * its fields in place and are proved to perform exactly those functions.
 */
module Storage {
  import opened Wrappers
  import opened Clock
  import IndexMaps
  import opened Graphs
  import opened RelationMode

  type InsertionLog = IndexMaps.IndexMap<Pair, Timestamp>
  type DeletionLog<R> = IndexMaps.IndexMap<Pair, (Timestamp, R)>

  datatype StorageRep<R> = Store(mode: Mode, graph: Graph<R>, lastInsert: Timestamp, insertion: InsertionLog, deletion: DeletionLog<R>)

  /** The graph has the edge type of the relation's mode. */
  type StorageState<R> = s: StorageRep<R> | s.graph.directed == IsDirected(s.mode)
    witness Store(Directed, Graph(true, {}, IndexMaps.IndexMap([], map[])), 0, IndexMaps.IndexMap([], map[]), IndexMaps.IndexMap([], map[]))

  /** `RelationStorage::default`. */
  function DefaultState<R>(mode: Mode): (s: StorageState<R>)
    ensures s.mode == mode && s.graph.nodes == {} && s.graph.edges.values == map[]
    ensures s.lastInsert == 0 && s.insertion.values == map[] && s.deletion.values == map[]
  {
    Store(mode, Graphs.Empty(IsDirected(mode)), 0, IndexMaps.Empty(), IndexMaps.Empty())
  }

  /**
   * `insert_tracked`: sets the payload of edge (a, b), adding missing endpoints, and logs (a, b)
   * with `current` only when the edge did not exist before.
   */
  function InsertEdge<R>(s: StorageState<R>, a: EntityId, b: EntityId, rel: R, current: Timestamp): (r: StorageState<R>)
    ensures r.mode == s.mode && r.lastInsert == s.lastInsert && r.deletion == s.deletion
    ensures EdgeWeight(r.graph, a, b) == Some(rel)
    ensures r.graph.nodes == s.graph.nodes + {a, b}
    ensures r.graph.edges.values == s.graph.edges.values[EdgeKey(s.graph.directed, a, b) := rel]
    ensures EdgeWeight(s.graph, a, b).None? ==> r.insertion.values == s.insertion.values[(a, b) := current]
    ensures EdgeWeight(s.graph, a, b).Some? ==> r.insertion == s.insertion
  {
    var (g, replaced) := AddEdge(s.graph, a, b, rel);
    var insertion := if replaced.None? then IndexMaps.Insert(s.insertion, (a, b), current) else s.insertion;
    s.(graph := g, insertion := insertion)
  }

  /**
   * `delete_edge_tracked`: when edge (a, b) exists, removes it, drops (a, b) from the insertion
   * log and logs (a, b) as deleted at `current` with the removed payload; says whether it did.
   */
  function DeleteEdge<R>(s: StorageState<R>, a: EntityId, b: EntityId, current: Timestamp): (r: (StorageState<R>, bool))
    ensures r.1 <==> EdgeWeight(s.graph, a, b).Some?
    ensures !r.1 ==> r.0 == s
    ensures r.1 ==>
      && r.0.mode == s.mode && r.0.lastInsert == s.lastInsert
      && r.0.graph.nodes == s.graph.nodes
      && r.0.graph.edges.values == s.graph.edges.values - {EdgeKey(s.graph.directed, a, b)}
      && r.0.insertion.values == s.insertion.values - {(a, b)}
      && r.0.deletion.values == s.deletion.values[(a, b) := (current, EdgeWeight(s.graph, a, b).value)]
  {
    var (g, removed) := RemoveEdge(s.graph, a, b);
    if removed.Some? then
      (s.(graph := g,
          insertion := IndexMaps.Remove(s.insertion, (a, b)),
          deletion := IndexMaps.Insert(s.deletion, (a, b), (current, removed.value))),
       true)
    else (s, false)
  }

  /** `delete_edge_tracked` applied to each pair of `pairs` in turn. */
  function DeleteEdges<R>(s: StorageState<R>, pairs: seq<Pair>, current: Timestamp): (r: StorageState<R>)
    ensures r.mode == s.mode && r.lastInsert == s.lastInsert && r.graph.nodes == s.graph.nodes
    decreases |pairs|
  {
    if pairs == [] then s
    else
      var last := pairs[|pairs| - 1];
      DeleteEdge(DeleteEdges(s, pairs[..|pairs| - 1], current), last.0, last.1, current).0
  }

  /** The pairs (t, entity) for the sources `ts`. */
  function InPairs(ts: seq<EntityId>, entity: EntityId): (r: seq<Pair>)
    ensures |r| == |ts| && forall i :: 0 <= i < |ts| ==> r[i] == (ts[i], entity)
  {
    seq(|ts|, i requires 0 <= i < |ts| => (ts[i], entity))
  }

  /** The pairs (entity, t) for the targets `ts`. */
  function OutPairs(entity: EntityId, ts: seq<EntityId>): (r: seq<Pair>)
    ensures |r| == |ts| && forall i :: 0 <= i < |ts| ==> r[i] == (entity, ts[i])
  {
    seq(|ts|, i requires 0 <= i < |ts| => (entity, ts[i]))
  }

  /**
   * `delete_node_tracked`: deletes, tracked, every edge into `entity` listed by the graph, then
   * every edge out of `entity` that is left, then removes the node; says whether it existed.
   */
  function DeleteNode<R>(s: StorageState<R>, entity: EntityId, current: Timestamp): (r: (StorageState<R>, bool))
    ensures r.1 <==> entity in s.graph.nodes
    ensures r.0.mode == s.mode && r.0.lastInsert == s.lastInsert
    ensures r.0.graph.nodes == s.graph.nodes - {entity}
    ensures forall k :: k in r.0.graph.edges.values ==> !Incident(k, entity)
  {
    var s1 := DeleteEdges(s, InPairs(NeighborsDirected(s.graph, entity, Incoming), entity), current);
    var s2 := DeleteEdges(s1, OutPairs(entity, NeighborsDirected(s1.graph, entity, Outgoing)), current);
    var (g, existed) := RemoveNode(s2.graph, entity);
    (s2.(graph := g), existed)
  }

  // ---------------------------------------------------------------------------------------
  // The effect of node deletion on the graph and the logs

  /** The keys under which the graph stores the edges named by `pairs`. */
  ghost function KeySet(directed: bool, pairs: seq<Pair>): set<Pair> {
    set p | p in pairs :: EdgeKey(directed, p.0, p.1)
  }

  /** No two pairs of `pairs` name the same edge. */
  ghost predicate DistinctKeys(directed: bool, pairs: seq<Pair>) {
    forall i, j :: 0 <= i < j < |pairs| ==> EdgeKey(directed, pairs[i].0, pairs[i].1) != EdgeKey(directed, pairs[j].0, pairs[j].1)
  }

  /** The deletion-log entries written when the edges of `g` named by `pairs` are deleted at `current`. */
  ghost function Deletions<R>(g: Graph<R>, pairs: seq<Pair>, current: Timestamp): map<Pair, (Timestamp, R)> {
    map p | p in pairs && EdgeKey(g.directed, p.0, p.1) in g.edges.values :: (current, g.edges.values[EdgeKey(g.directed, p.0, p.1)])
  }

  lemma MinusSnoc<K, V>(m: map<K, V>, ks: set<K>, k: K)
    ensures (m - ks) - {k} == m - (ks + {k})
  {
  }

  lemma UnionUpdate<K, V>(m: map<K, V>, d: map<K, V>, k: K, v: V)
    ensures (m + d)[k := v] == m + d[k := v]
  {
  }

  lemma KeySetSnoc(directed: bool, init: seq<Pair>, last: Pair)
    ensures KeySet(directed, init + [last]) == KeySet(directed, init) + {EdgeKey(directed, last.0, last.1)}
    ensures (set p | p in init + [last]) == (set p | p in init) + {last}
  {
  }

  lemma DeletionsSnoc<R>(g: Graph<R>, init: seq<Pair>, last: Pair, current: Timestamp)
    requires EdgeKey(g.directed, last.0, last.1) in g.edges.values
    ensures Deletions(g, init + [last], current)
         == Deletions(g, init, current)[last := (current, g.edges.values[EdgeKey(g.directed, last.0, last.1)])]
  {
  }

  /** The last of pairs with distinct keys names an edge none of the others names. */
  lemma LastKeyFresh(directed: bool, pairs: seq<Pair>)
    requires pairs != [] && DistinctKeys(directed, pairs)
    ensures DistinctKeys(directed, pairs[..|pairs| - 1])
    ensures EdgeKey(directed, pairs[|pairs| - 1].0, pairs[|pairs| - 1].1) !in KeySet(directed, pairs[..|pairs| - 1])
  {
  }

  /**
   * Deleting, one by one, existing edges no two of which coincide removes exactly those edges,
   * drops exactly those pairs from the insertion log and logs each of them with its payload.
   */
  lemma {:induction false} DeleteEdgesEffect<R>(s: StorageState<R>, pairs: seq<Pair>, current: Timestamp)
    requires DistinctKeys(s.graph.directed, pairs)
    requires forall p :: p in pairs ==> EdgeKey(s.graph.directed, p.0, p.1) in s.graph.edges.values
    ensures DeleteEdges(s, pairs, current).graph.edges.values == s.graph.edges.values - KeySet(s.graph.directed, pairs)
    ensures DeleteEdges(s, pairs, current).insertion.values == s.insertion.values - (set p | p in pairs)
    ensures DeleteEdges(s, pairs, current).deletion.values == s.deletion.values + Deletions(s.graph, pairs, current)
    decreases |pairs|
  {
    if pairs != [] {
      var d := s.graph.directed;
      var init, last := pairs[..|pairs| - 1], pairs[|pairs| - 1];
      assert pairs == init + [last];
      LastKeyFresh(d, pairs);
      assert forall p :: p in init ==> p in pairs;
      DeleteEdgesEffect(s, init, current);
      var r1 := DeleteEdges(s, init, current);
      var k := EdgeKey(d, last.0, last.1);
      assert k in s.graph.edges.values;
      assert EdgeWeight(r1.graph, last.0, last.1) == Some(s.graph.edges.values[k]);
      var r := DeleteEdge(r1, last.0, last.1, current).0;
      assert DeleteEdges(s, pairs, current) == r;
      KeySetSnoc(d, init, last);
      DeletionsSnoc(s.graph, init, last, current);
      assert r.graph.edges.values == (s.graph.edges.values - KeySet(d, init)) - {k};
      MinusSnoc(s.graph.edges.values, KeySet(d, init), k);
      assert r.insertion.values == (s.insertion.values - (set p | p in init)) - {last};
      MinusSnoc(s.insertion.values, (set p | p in init), last);
      assert r.deletion.values == (s.deletion.values + Deletions(s.graph, init, current))[last := (current, s.graph.edges.values[k])];
      UnionUpdate(s.deletion.values, Deletions(s.graph, init, current), last, (current, s.graph.edges.values[k]));
    }
  }

  /** The pair under which node deletion logs the edge stored under `k`, which touches `entity`. */
  function LoggedAs(directed: bool, k: Pair, entity: EntityId): Pair {
    if directed then k else (Other(k, entity), entity)
  }

  /**
   * The deletion-log entries that deleting node `entity` of `g` at `current` writes: one per
   * edge touching `entity`, under the edge's own pair on a directed graph and under
   * (neighbour, entity) on an undirected one.
   */
  ghost function NodeDeletions<R>(g: Graph<R>, entity: EntityId, current: Timestamp): map<Pair, (Timestamp, R)> {
    map p | p in LoggedPairs(g, entity) :: (current, g.edges.values[EdgeKey(g.directed, p.0, p.1)])
  }

  /** The pairs node deletion logs: those naming an edge that touches `entity`, oriented as `LoggedAs` says. */
  ghost function LoggedPairs<R>(g: Graph<R>, entity: EntityId): (ps: set<Pair>)
    ensures forall p :: p in ps ==> EdgeKey(g.directed, p.0, p.1) in g.edges.values
  {
    set k | k in g.edges.values && Incident(k, entity) :: LoggedAs(g.directed, k, entity)
  }

  /**
   * The pairs node deletion logs are exactly those that name an edge touching `entity`: any
   * such pair on a directed graph, and those ending in `entity` on an undirected one.
   */
  lemma LoggedPairsSpec<R>(g: Graph<R>, entity: EntityId)
    ensures forall p :: p in LoggedPairs(g, entity) <==>
              EdgeKey(g.directed, p.0, p.1) in g.edges.values && (if g.directed then Incident(p, entity) else p.1 == entity)
  {
    forall p: Pair | EdgeKey(g.directed, p.0, p.1) in g.edges.values && (if g.directed then Incident(p, entity) else p.1 == entity)
      ensures p in LoggedPairs(g, entity)
    {
      var k := EdgeKey(g.directed, p.0, p.1);
      assert LoggedAs(g.directed, k, entity) == p;
    }
  }

  /** The side the first pass of node deletion clears: edges into `entity`, or every edge touching it when undirected. */
  predicate InKey(directed: bool, k: Pair, entity: EntityId) {
    if directed then k.1 == entity else Incident(k, entity)
  }

  /** The pairs the first pass deletes: (t, entity) for every edge joining t to `entity`, each edge once. */
  lemma InPassPairs<R>(g: Graph<R>, entity: EntityId)
    ensures var ps := InPairs(NeighborsDirected(g, entity, Incoming), entity);
      && DistinctKeys(g.directed, ps)
      && (forall p :: p in ps <==> p.1 == entity && EdgeKey(g.directed, p.0, entity) in g.edges.values)
      && KeySet(g.directed, ps) == set k | k in g.edges.values && InKey(g.directed, k, entity)
  {
    var d := g.directed;
    var ns := NeighborsDirected(g, entity, Incoming);
    var ps := InPairs(ns, entity);
    NeighborsDirectedSpec(g, entity, Incoming);
    forall p | p in ps
      ensures p.1 == entity && EdgeKey(d, p.0, entity) in g.edges.values
    {
      var i :| 0 <= i < |ps| && ps[i] == p;
      assert ns[i] in ns;
    }
    forall p: Pair | p.1 == entity && EdgeKey(d, p.0, entity) in g.edges.values
      ensures p in ps
    {
      assert p.0 in ns;
      var i :| 0 <= i < |ns| && ns[i] == p.0;
      assert ps[i] == p;
    }
    forall k | k in g.edges.values && InKey(d, k, entity)
      ensures k in KeySet(d, ps)
    {
      var t := Other(k, entity);
      assert EdgeKey(d, t, entity) == k;
      assert (t, entity) in ps;
    }
  }

  /**
   * The pairs the second pass deletes, once no edge is left on the first pass's side:
   * (entity, t) for every edge out of `entity`, each once; none on an undirected graph.
   */
  lemma OutPassPairs<R>(g: Graph<R>, entity: EntityId)
    requires forall k :: k in g.edges.values ==> !InKey(g.directed, k, entity)
    ensures var ps := OutPairs(entity, NeighborsDirected(g, entity, Outgoing));
      && DistinctKeys(g.directed, ps)
      && (forall p :: p in ps <==> p.0 == entity && EdgeKey(g.directed, entity, p.1) in g.edges.values)
      && KeySet(g.directed, ps) == set k | k in g.edges.values && Incident(k, entity)
  {
    var d := g.directed;
    var ns := NeighborsDirected(g, entity, Outgoing);
    var ps := OutPairs(entity, ns);
    NeighborsDirectedSpec(g, entity, Outgoing);
    forall p | p in ps
      ensures p.0 == entity && EdgeKey(d, entity, p.1) in g.edges.values
    {
      var i :| 0 <= i < |ps| && ps[i] == p;
      assert ns[i] in ns;
    }
    forall p: Pair | p.0 == entity && EdgeKey(d, entity, p.1) in g.edges.values
      ensures p in ps
    {
      assert p.1 in ns;
      var i :| 0 <= i < |ns| && ns[i] == p.1;
      assert ps[i] == p;
    }
    forall k | k in g.edges.values && Incident(k, entity)
      ensures k in KeySet(d, ps)
    {
      assert d && k.0 == entity;
      assert (entity, k.1) in ps;
    }
  }

  /** Removing a set of keys and then the rest of the keys touching `entity` leaves the keys not touching it. */
  lemma TwoPassEdges<R>(m: map<Pair, R>, ks1: set<Pair>, ks2: set<Pair>, entity: EntityId)
    requires ks1 <= m.Keys && forall k :: k in ks1 ==> Incident(k, entity)
    requires ks2 == set k | k in (m - ks1) && Incident(k, entity)
    ensures (m - ks1) - ks2 == map k | k in m && !Incident(k, entity) :: m[k]
  {
  }

  /** The pairs the two passes delete are exactly the pairs node deletion logs. */
  lemma PassPairsAreLogged<R>(g: Graph<R>, entity: EntityId, ins: set<Pair>, outs: set<Pair>)
    requires forall p :: p in ins <==> p.1 == entity && EdgeKey(g.directed, p.0, entity) in g.edges.values
    requires forall p :: p in outs <==>
      p.0 == entity && EdgeKey(g.directed, entity, p.1) in g.edges.values && !InKey(g.directed, EdgeKey(g.directed, entity, p.1), entity)
    ensures ins + outs == LoggedPairs(g, entity)
  {
    LoggedPairsSpec(g, entity);
  }

  /** The entries the two passes write to the deletion log are exactly those `NodeDeletions` names. */
  lemma PassDeletionsAreLogged<R>(g: Graph<R>, g1: Graph<R>, entity: EntityId, ins: seq<Pair>, outs: seq<Pair>, current: Timestamp)
    requires g1.directed == g.directed
    requires forall k :: k in g1.edges.values ==> k in g.edges.values && g1.edges.values[k] == g.edges.values[k]
    requires (set p | p in ins) + (set p | p in outs) == LoggedPairs(g, entity)
    requires forall p :: p in outs ==> EdgeKey(g.directed, p.0, p.1) in g1.edges.values
    ensures Deletions(g, ins, current) + Deletions(g1, outs, current) == NodeDeletions(g, entity, current)
  {
    var lhs := Deletions(g, ins, current) + Deletions(g1, outs, current);
    var rhs := NodeDeletions(g, entity, current);
    forall p | p in LoggedPairs(g, entity)
      ensures p in lhs && lhs[p] == rhs[p]
    {
      var k := EdgeKey(g.directed, p.0, p.1);
      assert k in g.edges.values;
      if p in outs {
        assert Deletions(g1, outs, current)[p] == (current, g.edges.values[k]);
      } else {
        assert p in ins;
        assert Deletions(g, ins, current)[p] == (current, g.edges.values[k]);
      }
    }
    forall p | p in lhs
      ensures p in LoggedPairs(g, entity)
    {
      assert p in ins || p in outs;
    }
    assert lhs.Keys == rhs.Keys;
  }

  lemma KeepUntouched<R>(m: map<Pair, R>, entity: EntityId)
    requires forall k :: k in m ==> !Incident(k, entity)
    ensures (map k | k in m && !Incident(k, entity) :: m[k]) == m
  {
  }

  lemma UnionAssoc<K, V>(m: map<K, V>, a: map<K, V>, b: map<K, V>)
    ensures m + a + b == m + (a + b)
  {
  }

  lemma MinusUnion<K, V>(m: map<K, V>, a: set<K>, b: set<K>)
    ensures m - a - b == m - (a + b)
  {
  }

  /**
   * What `delete_node_tracked` does to the graph and the logs: the edges touching `entity` are
   * gone and the others keep their payloads; each removed edge is logged as deleted at
   * `current` with its payload, under the pair `LoggedAs` names, and that pair leaves the
   * insertion log; nothing else in either log changes.
   */
  lemma DeleteNodeEffect<R>(s: StorageState<R>, entity: EntityId, current: Timestamp)
    ensures DeleteNode(s, entity, current).0.graph.edges.values
         == map k | k in s.graph.edges.values && !Incident(k, entity) :: s.graph.edges.values[k]
    ensures DeleteNode(s, entity, current).0.deletion.values == s.deletion.values + NodeDeletions(s.graph, entity, current)
    ensures DeleteNode(s, entity, current).0.insertion.values == s.insertion.values - LoggedPairs(s.graph, entity)
  {
    var d := s.graph.directed;
    var p1 := InPairs(NeighborsDirected(s.graph, entity, Incoming), entity);
    InPassPairs(s.graph, entity);
    DeleteEdgesEffect(s, p1, current);
    var s1 := DeleteEdges(s, p1, current);
    var p2 := OutPairs(entity, NeighborsDirected(s1.graph, entity, Outgoing));
    OutPassPairs(s1.graph, entity);
    DeleteEdgesEffect(s1, p2, current);
    var s2 := DeleteEdges(s1, p2, current);
    TwoPassEdges(s.graph.edges.values, KeySet(d, p1), KeySet(d, p2), entity);
    PassPairsAreLogged(s.graph, entity, set p | p in p1, set p | p in p2);
    MinusUnion(s.insertion.values, set p | p in p1, set p | p in p2);
    PassDeletionsAreLogged(s.graph, s1.graph, entity, p1, p2, current);
    UnionAssoc(s.deletion.values, Deletions(s.graph, p1, current), Deletions(s1.graph, p2, current));
    var kept := map k | k in s.graph.edges.values && !Incident(k, entity) :: s.graph.edges.values[k];
    assert s2.graph.edges.values == kept;
    KeepUntouched(kept, entity);
    assert DeleteNode(s, entity, current).0.graph == RemoveNode(s2.graph, entity).0;
  }

  // ---------------------------------------------------------------------------------------
  // The insertion log names graph edges

  /** Every pair in the insertion log names an edge of the graph. */
  ghost predicate InsertionLogged<R>(s: StorageState<R>) {
    forall p :: p in s.insertion.values ==> EdgeWeight(s.graph, p.0, p.1).Some?
  }

  lemma DefaultInsertionLogged<R>(mode: Mode)
    ensures InsertionLogged(DefaultState<R>(mode))
  {
  }

  /** `insert_tracked` keeps every logged pair an edge, in every mode. */
  lemma InsertEdgeKeepsInsertionLogged<R>(s: StorageState<R>, a: EntityId, b: EntityId, rel: R, current: Timestamp)
    requires InsertionLogged(s)
    ensures InsertionLogged(InsertEdge(s, a, b, rel, current))
  {
  }

  /** On a directed graph `delete_edge_tracked` keeps every logged pair an edge. */
  lemma DeleteEdgeKeepsInsertionLogged<R>(s: StorageState<R>, a: EntityId, b: EntityId, current: Timestamp)
    requires IsDirected(s.mode) && InsertionLogged(s)
    ensures InsertionLogged(DeleteEdge(s, a, b, current).0)
  {
  }

  /** On a directed graph `delete_node_tracked` keeps every logged pair an edge. */
  lemma DeleteNodeKeepsInsertionLogged<R>(s: StorageState<R>, entity: EntityId, current: Timestamp)
    requires IsDirected(s.mode) && InsertionLogged(s)
    ensures InsertionLogged(DeleteNode(s, entity, current).0)
  {
    DeleteNodeEffect(s, entity, current);
    LoggedPairsSpec(s.graph, entity);
    var r := DeleteNode(s, entity, current).0;
    forall p | p in r.insertion.values
      ensures EdgeWeight(r.graph, p.0, p.1).Some?
    {
      assert p in s.insertion.values && p !in LoggedPairs(s.graph, entity);
      assert p in s.graph.edges.values;
      assert !Incident(p, entity);
    }
  }

  /**
   * On an undirected graph the insertion log can name an edge that is gone: deleting node `a`
   * logs edge {a, b} under (b, a), so an insertion logged as (a, b) stays behind, as it does
   * after the first `insert_tracked(a, b)` into an empty storage.
   */
  lemma UndirectedNodeDeletionLeavesInsertion<R>(s: StorageState<R>, a: EntityId, b: EntityId, current: Timestamp)
    requires !IsDirected(s.mode) && a != b
    requires EdgeWeight(s.graph, a, b).Some? && (a, b) in s.insertion.values
    ensures var r := DeleteNode(s, a, current).0;
      && (a, b) in r.insertion.values && EdgeWeight(r.graph, a, b).None?
      && (b, a) in r.deletion.values && r.deletion.values[(b, a)] == (current, EdgeWeight(s.graph, a, b).value)
      && !InsertionLogged(r)
  {
    DeleteNodeEffect(s, a, current);
    LoggedPairsSpec(s.graph, a);
    assert EdgeKey(false, b, a) == EdgeKey(false, a, b);
  }

  /** The situation of the previous lemma arises from an empty undirected storage. */
  lemma UndirectedInsertionLogReachable<R>(a: EntityId, b: EntityId, rel: R, current: Timestamp)
    ensures var s := InsertEdge(DefaultState<R>(Undirected), a, b, rel, current);
      EdgeWeight(s.graph, a, b).Some? && (a, b) in s.insertion.values && InsertionLogged(s)
  {
  }

  // ---------------------------------------------------------------------------------------
  // The storage object

  /** `RelationStorage<R>`: a mutable store whose methods perform the tracked operations. */
  class RelationStorage<R> {
    const mode: Mode
    var graph: Graph<R>
    var lastInsert: Timestamp
    var insertionData: InsertionLog
    var deletionData: DeletionLog<R>

    ghost predicate Valid()
      reads this
    {
      graph.directed == IsDirected(mode)
    }

    /** The fields as a value. */
    function State(): StorageState<R>
      reads this
      requires Valid()
    {
      Store(mode, graph, lastInsert, insertionData, deletionData)
    }

    /** `RelationStorage::default`. */
    constructor Default(mode: Mode)
      ensures Valid() && State() == DefaultState(mode)
    {
      this.mode := mode;
      graph := Graphs.Empty(IsDirected(mode));
      lastInsert := 0;
      insertionData := IndexMaps.Empty();
      deletionData := IndexMaps.Empty();
    }

    /** `Storage::is_empty`: the node count is zero; an empty graph has no edge either. */
    function IsEmpty(): (r: bool)
      reads this
      ensures r <==> graph.nodes == {}
      ensures r ==> graph.edges.values == map[]
    {
      NoNodesNoEdges(graph);
      |graph.nodes| == 0
    }

    /** `delete_edge_tracked`. */
    method DeleteEdgeTracked(a: EntityId, b: EntityId, current: Timestamp) returns (removed: bool)
      requires Valid()
      modifies this
      ensures Valid() && (State(), removed) == DeleteEdge(old(State()), a, b, current)
    {
      var (g, weight) := RemoveEdge(graph, a, b);
      if weight.Some? {
        graph := g;
        insertionData := IndexMaps.Remove(insertionData, (a, b));
        deletionData := IndexMaps.Insert(deletionData, (a, b), (current, weight.value));
        removed := true;
      } else {
        removed := false;
      }
    }

    /** `delete_edge_tracked` on each pair of `pairs`, first to last. */
    method DeleteEachTracked(pairs: seq<Pair>, current: Timestamp)
      requires Valid()
      modifies this
      ensures Valid() && State() == DeleteEdges(old(State()), pairs, current)
    {
      ghost var s0 := State();
      for i := 0 to |pairs|
        invariant Valid() && State() == DeleteEdges(s0, pairs[..i], current)
      {
        assert pairs[..i + 1][..i] == pairs[..i];
        var _ := DeleteEdgeTracked(pairs[i].0, pairs[i].1, current);
      }
      assert pairs[..|pairs|] == pairs;
    }

    /** `delete_node_tracked`. */
    method DeleteNodeTracked(entity: EntityId, current: Timestamp) returns (existed: bool)
      requires Valid()
      modifies this
      ensures Valid() && (State(), existed) == DeleteNode(old(State()), entity, current)
    {
      var incoming := NeighborsDirected(graph, entity, Incoming);
      DeleteEachTracked(InPairs(incoming, entity), current);
      var outgoing := NeighborsDirected(graph, entity, Outgoing);
      DeleteEachTracked(OutPairs(entity, outgoing), current);
      var (g, found) := RemoveNode(graph, entity);
      graph := g;
      existed := found;
    }

    /** `insert_tracked`. */
    method InsertTracked(a: EntityId, b: EntityId, rel: R, current: Timestamp)
      requires Valid()
      modifies this
      ensures Valid() && State() == InsertEdge(old(State()), a, b, rel, current)
    {
      var (g, replaced) := AddEdge(graph, a, b, rel);
      graph := g;
      if replaced.None? {
        insertionData := IndexMaps.Insert(insertionData, (a, b), current);
      }
    }

    /** `Storage::delete`, the host's hook for a deleted entity: `delete_node_tracked`. */
    method Delete(entity: EntityId, current: Timestamp)
      requires Valid()
      modifies this
      ensures Valid() && State() == DeleteNode(old(State()), entity, current).0
    {
      var _ := DeleteNodeTracked(entity, current);
    }
  }
}
