/**
 * The edge graph each relation storage owns (petgraph's `GraphMap`), modelled by its contents:
 * whether edges are directed, the node set, and the edges keyed by (source, target) pairs, each
 * carrying one payload. An undirected graph keys an edge by its endpoints in ascending order,
 * so that (a, b) and (b, a) name the same edge; the order of the edge map stands for the order
 * in which lookups list the edges of a node.
 */
module Graphs {
  import opened Wrappers
  import IndexMaps

  /** The host's opaque, totally ordered entity identifier. */
  type EntityId = nat

  type Pair = (EntityId, EntityId)

  datatype Direction = Outgoing | Incoming

  /** The key under which the graph stores the edge between `a` and `b`. */
  function EdgeKey(directed: bool, a: EntityId, b: EntityId): (k: Pair)
    ensures directed ==> k == (a, b)
    ensures !directed ==> k.0 <= k.1 && ((k.0 == a && k.1 == b) || (k.0 == b && k.1 == a))
  {
    if directed || a <= b then (a, b) else (b, a)
  }

  datatype GraphRep<R> = Graph(directed: bool, nodes: set<EntityId>, edges: IndexMaps.IndexMap<Pair, R>)

  /** Every edge is stored under its own key and joins two nodes of the graph. */
  ghost predicate WellFormed<R>(g: GraphRep<R>) {
    forall k :: k in g.edges.values ==> k.0 in g.nodes && k.1 in g.nodes && EdgeKey(g.directed, k.0, k.1) == k
  }

  type Graph<R> = g: GraphRep<R> | WellFormed(g) witness Graph(true, {}, IndexMaps.IndexMap([], map[]))

  /** `GraphMap::default`: no nodes and no edges. */
  function Empty<R>(directed: bool): (g: Graph<R>)
    ensures g.directed == directed && g.nodes == {} && g.edges.values == map[]
  {
    Graph(directed, {}, IndexMaps.Empty())
  }

  /** Whether `k` has `n` as an endpoint. */
  predicate Incident(k: Pair, n: EntityId) {
    k.0 == n || k.1 == n
  }

  /** A graph without nodes has no edges. */
  lemma NoNodesNoEdges<R>(g: Graph<R>)
    ensures g.nodes == {} ==> g.edges.values == map[]
  {
    assert forall k :: k in g.edges.values ==> k.0 in g.nodes;
  }

  /** `GraphMap::edge_weight`: the payload of the edge between `a` and `b`, if any. */
  function EdgeWeight<R>(g: Graph<R>, a: EntityId, b: EntityId): Option<R> {
    IndexMaps.Get(g.edges, EdgeKey(g.directed, a, b))
  }

  /**
   * `GraphMap::add_edge`: adds the missing endpoints and sets the payload of the edge,
   * returning the payload it replaced.
   */
  function AddEdge<R>(g: Graph<R>, a: EntityId, b: EntityId, w: R): (r: (Graph<R>, Option<R>))
    ensures r.1 == EdgeWeight(g, a, b)
    ensures r.0.directed == g.directed && r.0.nodes == g.nodes + {a, b}
    ensures r.0.edges == IndexMaps.Insert(g.edges, EdgeKey(g.directed, a, b), w)
  {
    (Graph(g.directed, g.nodes + {a, b}, IndexMaps.Insert(g.edges, EdgeKey(g.directed, a, b), w)),
     EdgeWeight(g, a, b))
  }

  /** `GraphMap::remove_edge`: removes the edge, keeping its endpoints, and returns its payload. */
  function RemoveEdge<R>(g: Graph<R>, a: EntityId, b: EntityId): (r: (Graph<R>, Option<R>))
    ensures r.1 == EdgeWeight(g, a, b)
    ensures r.0.directed == g.directed && r.0.nodes == g.nodes
    ensures r.0.edges == IndexMaps.Remove(g.edges, EdgeKey(g.directed, a, b))
  {
    (Graph(g.directed, g.nodes, IndexMaps.Remove(g.edges, EdgeKey(g.directed, a, b))), EdgeWeight(g, a, b))
  }

  /**
   * `GraphMap::remove_node`: removes the node and every edge that touches it, and says whether
   * the node was there.
   */
  function RemoveNode<R>(g: Graph<R>, n: EntityId): (r: (Graph<R>, bool))
    ensures r.1 <==> n in g.nodes
    ensures r.0.directed == g.directed && r.0.nodes == g.nodes - {n}
    ensures r.0.edges.values == map k | k in g.edges.values && !Incident(k, n) :: g.edges.values[k]
  {
    if n !in g.nodes then (g, false)
    else (Graph(g.directed, g.nodes - {n}, IndexMaps.Retain(g.edges, k => !Incident(k, n))), true)
  }

  /** `GraphMap::edge_weight_mut` followed by an update of the payload through `edit`. */
  function UpdateEdge<R>(g: Graph<R>, a: EntityId, b: EntityId, edit: R -> R): (r: (Graph<R>, bool))
    ensures r.1 <==> EdgeWeight(g, a, b).Some?
    ensures r.0.directed == g.directed && r.0.nodes == g.nodes && r.0.edges.keys == g.edges.keys
    ensures r.1 ==> r.0.edges.values == g.edges.values[EdgeKey(g.directed, a, b) := edit(EdgeWeight(g, a, b).value)]
    ensures !r.1 ==> r.0 == g
  {
    var k := EdgeKey(g.directed, a, b);
    if k in g.edges.values then (g.(edges := IndexMaps.Insert(g.edges, k, edit(g.edges.values[k]))), true)
    else (g, false)
  }

  /**
   * The neighbour that a lookup from `n` in direction `dir` reports for the edge stored under
   * `k`, if the edge is one of those the lookup lists: a directed lookup follows the edge's
   * direction, an undirected one lists every edge that touches `n`.
   */
  function Reported(directed: bool, k: Pair, n: EntityId, dir: Direction): Option<EntityId> {
    if directed then
      if dir == Outgoing then (if k.0 == n then Some(k.1) else None)
      else (if k.1 == n then Some(k.0) else None)
    else if k.0 == n then Some(k.1)
    else if k.1 == n then Some(k.0)
    else None
  }

  /** The key of the edge that joins `n` to neighbour `t` in direction `dir`. */
  function KeyTo(directed: bool, n: EntityId, dir: Direction, t: EntityId): Pair {
    if dir == Outgoing then EdgeKey(directed, n, t) else EdgeKey(directed, t, n)
  }

  /** A lookup reports `t` for a stored key exactly when that key joins `n` to `t`. */
  lemma ReportedIsKeyTo(directed: bool, k: Pair, n: EntityId, dir: Direction, t: EntityId)
    requires EdgeKey(directed, k.0, k.1) == k
    ensures Reported(directed, k, n, dir) == Some(t) <==> k == KeyTo(directed, n, dir, t)
  {
  }

  /** The neighbours listed for `n` along the keys `keys`, in order. */
  function NeighborsAlong(directed: bool, keys: seq<Pair>, n: EntityId, dir: Direction): seq<EntityId> {
    if keys == [] then []
    else
      var rest := NeighborsAlong(directed, keys[1..], n, dir);
      match Reported(directed, keys[0], n, dir)
      case Some(t) => [t] + rest
      case None => rest
  }

  /** The (neighbour, payload) pairs listed for `n` along the keys `keys`, in order. */
  function EdgesAlong<R>(directed: bool, keys: seq<Pair>, values: map<Pair, R>, n: EntityId, dir: Direction): seq<(EntityId, R)> {
    if keys == [] then []
    else
      var rest := EdgesAlong(directed, keys[1..], values, n, dir);
      match Reported(directed, keys[0], n, dir)
      case Some(t) => if keys[0] in values then [(t, values[keys[0]])] + rest else rest
      case None => rest
  }

  /** `GraphMap::neighbors_directed`. */
  function NeighborsDirected<R>(g: Graph<R>, n: EntityId, dir: Direction): seq<EntityId> {
    NeighborsAlong(g.directed, g.edges.keys, n, dir)
  }

  /** `GraphMap::edges_directed`, as (neighbour, payload) pairs. */
  function EdgesDirected<R>(g: Graph<R>, n: EntityId, dir: Direction): seq<(EntityId, R)> {
    EdgesAlong(g.directed, g.edges.keys, g.edges.values, n, dir)
  }

  /** The endpoint of `k` other than `n`; `n` itself for a self-loop. */
  function Other(k: Pair, n: EntityId): EntityId {
    if k.0 == n then k.1 else k.0
  }

  /** The (other endpoint, payload) pairs of the keys `keys` that touch `n`, in order. */
  function IncidentAlong<R>(keys: seq<Pair>, values: map<Pair, R>, n: EntityId): seq<(EntityId, R)> {
    if keys == [] then []
    else
      var rest := IncidentAlong(keys[1..], values, n);
      if Incident(keys[0], n) && keys[0] in values then [(Other(keys[0], n), values[keys[0]])] + rest else rest
  }

  /**
   * `GraphMap::edges` on an undirected graph, with each edge turned into the endpoint other
   * than `n` and its payload.
   */
  function Edges<R>(g: Graph<R>, n: EntityId): seq<(EntityId, R)> {
    IncidentAlong(g.edges.keys, g.edges.values, n)
  }

  /** Every key in `keys` is stored under its own key. */
  ghost predicate Canonical(directed: bool, keys: seq<Pair>) {
    forall k :: k in keys ==> EdgeKey(directed, k.0, k.1) == k
  }

  ghost predicate Distinct<T>(s: seq<T>) {
    forall i, j :: 0 <= i < j < |s| ==> s[i] != s[j]
  }

  lemma {:induction false} NeighborsAlongMember(directed: bool, keys: seq<Pair>, n: EntityId, dir: Direction, t: EntityId)
    requires Canonical(directed, keys)
    ensures t in NeighborsAlong(directed, keys, n, dir) <==> KeyTo(directed, n, dir, t) in keys
  {
    if keys != [] {
      NeighborsAlongMember(directed, keys[1..], n, dir, t);
      ReportedIsKeyTo(directed, keys[0], n, dir, t);
      assert keys == [keys[0]] + keys[1..];
    }
  }

  lemma {:induction false} NeighborsAlongDistinct(directed: bool, keys: seq<Pair>, n: EntityId, dir: Direction)
    requires Canonical(directed, keys) && Distinct(keys)
    ensures Distinct(NeighborsAlong(directed, keys, n, dir))
  {
    if keys != [] {
      assert Canonical(directed, keys[1..]) && Distinct(keys[1..]);
      NeighborsAlongDistinct(directed, keys[1..], n, dir);
      match Reported(directed, keys[0], n, dir)
      case Some(t) =>
        NeighborsAlongMember(directed, keys[1..], n, dir, t);
        ReportedIsKeyTo(directed, keys[0], n, dir, t);
        assert keys[0] !in keys[1..];
      case None =>
    }
  }

  lemma {:induction false} EdgesAlongMember<R>(directed: bool, keys: seq<Pair>, values: map<Pair, R>, n: EntityId, dir: Direction, t: EntityId, w: R)
    requires Canonical(directed, keys)
    requires forall k :: k in keys ==> k in values
    ensures (t, w) in EdgesAlong(directed, keys, values, n, dir) <==>
              KeyTo(directed, n, dir, t) in keys && values[KeyTo(directed, n, dir, t)] == w
  {
    if keys != [] {
      EdgesAlongMember(directed, keys[1..], values, n, dir, t, w);
      ReportedIsKeyTo(directed, keys[0], n, dir, t);
      assert keys == [keys[0]] + keys[1..];
    }
  }

  /** The neighbours `EdgesAlong` lists are those `NeighborsAlong` lists, position by position. */
  lemma {:induction false} EdgesAlongNeighbors<R>(directed: bool, keys: seq<Pair>, values: map<Pair, R>, n: EntityId, dir: Direction)
    requires forall k :: k in keys ==> k in values
    ensures |EdgesAlong(directed, keys, values, n, dir)| == |NeighborsAlong(directed, keys, n, dir)|
    ensures forall i :: 0 <= i < |EdgesAlong(directed, keys, values, n, dir)| ==>
              EdgesAlong(directed, keys, values, n, dir)[i].0 == NeighborsAlong(directed, keys, n, dir)[i]
  {
    if keys != [] {
      assert keys[0] in keys;
      assert forall k :: k in keys[1..] ==> k in keys;
      EdgesAlongNeighbors(directed, keys[1..], values, n, dir);
    }
  }

  /**
   * `neighbors_directed(n, dir)` lists, once each, exactly the nodes joined to `n` in direction
   * `dir`; on an undirected graph, every node that shares an edge with `n`.
   */
  lemma NeighborsDirectedSpec<R>(g: Graph<R>, n: EntityId, dir: Direction)
    ensures forall t :: t in NeighborsDirected(g, n, dir) <==> KeyTo(g.directed, n, dir, t) in g.edges.values
    ensures Distinct(NeighborsDirected(g, n, dir))
  {
    forall t ensures t in NeighborsDirected(g, n, dir) <==> KeyTo(g.directed, n, dir, t) in g.edges.values {
      NeighborsAlongMember(g.directed, g.edges.keys, n, dir, t);
    }
    NeighborsAlongDistinct(g.directed, g.edges.keys, n, dir);
  }

  /**
   * `edges_directed(n, dir)` lists exactly the neighbours joined to `n` in direction `dir`,
   * each with the payload of the joining edge.
   */
  lemma EdgesDirectedSpec<R>(g: Graph<R>, n: EntityId, dir: Direction)
    ensures forall t: EntityId, w: R :: (t, w) in EdgesDirected(g, n, dir) <==>
              IndexMaps.Get(g.edges, KeyTo(g.directed, n, dir, t)) == Some(w)
    ensures dir == Outgoing ==> forall i :: 0 <= i < |EdgesDirected(g, n, dir)| ==>
              EdgeWeight(g, n, EdgesDirected(g, n, dir)[i].0) == Some(EdgesDirected(g, n, dir)[i].1)
    ensures dir == Incoming ==> forall i :: 0 <= i < |EdgesDirected(g, n, dir)| ==>
              EdgeWeight(g, EdgesDirected(g, n, dir)[i].0, n) == Some(EdgesDirected(g, n, dir)[i].1)
    ensures dir == Outgoing ==> forall t: EntityId :: EdgeWeight(g, n, t).Some? ==>
              (t, EdgeWeight(g, n, t).value) in EdgesDirected(g, n, dir)
    ensures dir == Incoming ==> forall t: EntityId :: EdgeWeight(g, t, n).Some? ==>
              (t, EdgeWeight(g, t, n).value) in EdgesDirected(g, n, dir)
    ensures |EdgesDirected(g, n, dir)| == |NeighborsDirected(g, n, dir)|
    ensures forall i :: 0 <= i < |EdgesDirected(g, n, dir)| ==> EdgesDirected(g, n, dir)[i].0 == NeighborsDirected(g, n, dir)[i]
    ensures forall i, j :: 0 <= i < j < |EdgesDirected(g, n, dir)| ==> EdgesDirected(g, n, dir)[i].0 != EdgesDirected(g, n, dir)[j].0
  {
    var es := EdgesDirected(g, n, dir);
    EdgesAlongNeighbors(g.directed, g.edges.keys, g.edges.values, n, dir);
    NeighborsDirectedSpec(g, n, dir);
    forall t: EntityId, w: R ensures (t, w) in es <==> IndexMaps.Get(g.edges, KeyTo(g.directed, n, dir, t)) == Some(w) {
      EdgesAlongMember(g.directed, g.edges.keys, g.edges.values, n, dir, t, w);
    }
    forall i | 0 <= i < |es|
      ensures IndexMaps.Get(g.edges, KeyTo(g.directed, n, dir, es[i].0)) == Some(es[i].1)
    {
      EdgesAlongMember(g.directed, g.edges.keys, g.edges.values, n, dir, es[i].0, es[i].1);
    }
    forall t: EntityId | IndexMaps.Get(g.edges, KeyTo(g.directed, n, dir, t)).Some?
      ensures (t, IndexMaps.Get(g.edges, KeyTo(g.directed, n, dir, t)).value) in es
    {
      EdgesAlongMember(g.directed, g.edges.keys, g.edges.values, n, dir, t, IndexMaps.Get(g.edges, KeyTo(g.directed, n, dir, t)).value);
    }
  }

  lemma {:induction false} IncidentAlongIsEdgesAlong<R>(keys: seq<Pair>, values: map<Pair, R>, n: EntityId, dir: Direction)
    ensures IncidentAlong(keys, values, n) == EdgesAlong(false, keys, values, n, dir)
  {
    if keys != [] {
      IncidentAlongIsEdgesAlong(keys[1..], values, n, dir);
    }
  }

  /**
   * On an undirected graph, `edges(n)` mapped to the other endpoint lists the same pairs, in the
   * same order, as `edges_directed(n, Outgoing)` and `edges_directed(n, Incoming)`.
   */
  lemma EdgesIsEdgesDirected<R>(g: Graph<R>, n: EntityId, dir: Direction)
    ensures !g.directed ==> Edges(g, n) == EdgesDirected(g, n, dir)
  {
    IncidentAlongIsEdgesAlong(g.edges.keys, g.edges.values, n, dir);
  }

  /**
   * A cycle: a closed walk of at least one edge. On an undirected graph the walk may not use
   * an edge twice, so that going along an edge and straight back is not a cycle, while a
   * self-loop is.
   */
  ghost predicate IsCycle<R>(g: Graph<R>, walk: seq<EntityId>) {
    && |walk| >= 2 && walk[0] == walk[|walk| - 1]
    && (forall i :: 0 <= i < |walk| - 1 ==> EdgeKey(g.directed, walk[i], walk[i + 1]) in g.edges.values)
    && (!g.directed ==> forall i, j :: 0 <= i < j < |walk| - 1 ==>
          EdgeKey(false, walk[i], walk[i + 1]) != EdgeKey(false, walk[j], walk[j + 1]))
  }

  ghost predicate HasCycle<R>(g: Graph<R>) {
    exists walk :: IsCycle(g, walk)
  }

  /** Removing edges cannot create a cycle: a graph whose edges all belong to an acyclic graph is acyclic. */
  lemma SubgraphAcyclic<R>(g: Graph<R>, h: Graph<R>)
    requires h.directed == g.directed && h.edges.values.Keys <= g.edges.values.Keys
    requires !HasCycle(g)
    ensures !HasCycle(h)
  {
    if HasCycle(h) {
      var walk :| IsCycle(h, walk);
      assert IsCycle(g, walk);
    }
  }

  /** A self-loop is a cycle. */
  lemma SelfLoopIsCycle<R>(g: Graph<R>, a: EntityId)
    requires EdgeWeight(g, a, a).Some?
    ensures HasCycle(g)
  {
    assert IsCycle(g, [a, a]);
  }
}
