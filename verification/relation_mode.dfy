/**
 * The six relation modes. Each fixes the edge type of the relation's graph, which sides of a
 * node are exclusive (hold at most one edge after an insertion), and the shape of the
 * neighbour lookups: a sequence on a non-exclusive side, a single optional pair on an
 * exclusive side.
 */
module RelationMode {
  import opened Wrappers
  import opened Graphs

  datatype Mode =
    | Directed
    | DirectedExclusive
    | DirectedExclusiveIncoming
    | DirectedExclusiveOutgoing
    | Undirected
    | UndirectedExclusive

  /** `EdgeType::is_directed()` of the mode's edge type. */
  function IsDirected(mode: Mode): (r: bool)
    ensures r <==> !(mode == Undirected || mode == UndirectedExclusive)
  {
    match mode
    case Undirected | UndirectedExclusive => false
    case _ => true
  }

  /** `is_exclusive_incoming`. */
  function IsExclusiveIncoming(mode: Mode): (r: bool)
    ensures r <==> mode == DirectedExclusive || mode == DirectedExclusiveIncoming || mode == UndirectedExclusive
  {
    match mode
    case Directed => false
    case DirectedExclusive => true
    case DirectedExclusiveIncoming => true
    case DirectedExclusiveOutgoing => false
    case Undirected => false
    case UndirectedExclusive => true
  }

  /** `is_exclusive_outgoing`. */
  function IsExclusiveOutgoing(mode: Mode): (r: bool)
    ensures r <==> mode == DirectedExclusive || mode == DirectedExclusiveOutgoing || mode == UndirectedExclusive
  {
    match mode
    case Directed => false
    case DirectedExclusive => true
    case DirectedExclusiveIncoming => false
    case DirectedExclusiveOutgoing => true
    case Undirected => false
    case UndirectedExclusive => true
  }

  /** The result of a neighbour lookup: the mode's `GetIncoming` / `GetOutgoing` type. */
  datatype Lookup<R> = Many(items: seq<(EntityId, R)>) | One(item: Option<(EntityId, R)>)

  /**
   * `get_incoming`: the (source, payload) pairs of the edges into `n`, or on an exclusive
   * incoming side the first of them. On an undirected graph every edge touching `n` counts.
   */
  function GetIncoming<R>(mode: Mode, g: Graph<R>, n: EntityId): (r: Lookup<R>)
    ensures r.One? <==> IsExclusiveIncoming(mode)
    ensures r.Many? ==> forall i :: 0 <= i < |r.items| ==> EdgeWeight(g, r.items[i].0, n) == Some(r.items[i].1)
    ensures r.Many? ==> forall t: EntityId :: EdgeWeight(g, t, n).Some? ==> (t, EdgeWeight(g, t, n).value) in r.items
    ensures r.Many? ==> forall i, j :: 0 <= i < j < |r.items| ==> r.items[i].0 != r.items[j].0
    ensures r.One? ==> r.item == First(EdgesDirected(g, n, Incoming))
    ensures r.One? ==> (r.item.None? <==> forall t: EntityId :: EdgeWeight(g, t, n).None?)
    ensures r.One? && r.item.Some? ==> EdgeWeight(g, r.item.value.0, n) == Some(r.item.value.1)
  {
    EdgesDirectedSpec(g, n, Incoming);
    if IsExclusiveIncoming(mode) then One(First(EdgesDirected(g, n, Incoming)))
    else Many(EdgesDirected(g, n, Incoming))
  }

  /**
   * `get_outgoing`: the (target, payload) pairs of the edges out of `n`, or on an exclusive
   * outgoing side the first of them. On an undirected graph every edge touching `n` counts.
   */
  function GetOutgoing<R>(mode: Mode, g: Graph<R>, n: EntityId): (r: Lookup<R>)
    ensures r.One? <==> IsExclusiveOutgoing(mode)
    ensures r.Many? ==> forall i :: 0 <= i < |r.items| ==> EdgeWeight(g, n, r.items[i].0) == Some(r.items[i].1)
    ensures r.Many? ==> forall t: EntityId :: EdgeWeight(g, n, t).Some? ==> (t, EdgeWeight(g, n, t).value) in r.items
    ensures r.Many? ==> forall i, j :: 0 <= i < j < |r.items| ==> r.items[i].0 != r.items[j].0
    ensures r.One? ==> r.item == First(EdgesDirected(g, n, Outgoing))
    ensures r.One? ==> (r.item.None? <==> forall t: EntityId :: EdgeWeight(g, n, t).None?)
    ensures r.One? && r.item.Some? ==> EdgeWeight(g, n, r.item.value.0) == Some(r.item.value.1)
  {
    EdgesDirectedSpec(g, n, Outgoing);
    if IsExclusiveOutgoing(mode) then One(First(EdgesDirected(g, n, Outgoing)))
    else Many(EdgesDirected(g, n, Outgoing))
  }

  /**
   * `get`: `get_outgoing`, except that the undirected modes list `edges(n)` turned into the
   * endpoint other than `n` (`n` itself for a self-loop). On a graph of the mode's own edge type
   * this is `get_outgoing` in every mode.
   */
  function Get<R>(mode: Mode, g: Graph<R>, n: EntityId): (r: Lookup<R>)
    ensures g.directed == IsDirected(mode) ==> r == GetOutgoing(mode, g, n)
  {
    EdgesIsEdgesDirected(g, n, Outgoing);
    match mode
    case Undirected => Many(Edges(g, n))
    case UndirectedExclusive => One(First(Edges(g, n)))
    case _ => GetOutgoing(mode, g, n)
  }
}
