/**
 * `Relation` and `GetRelation`: a relation type's declaration, and the read-only queries every
 * view answers from a storage and the change window the view was borrowed with. The window
 * consists of the bounds `last_insertion`, `last_deletion` and `current`, and the host's
 * predicate telling whether a logged timestamp lies within a (last, current) window.
 */
module Relation {
  import opened Wrappers
  import opened Clock
  import IndexMaps
  import opened Graphs
  import opened RelationMode
  import opened Storage

  /** A relation type: its mode and its `ACYCLIC` constant. */
  datatype RelationKind = RelationKind(mode: Mode, acyclic: bool)

  /** A relation type that keeps the default of `ACYCLIC`, which is true. */
  function Declare(mode: Mode): (k: RelationKind)
    ensures k.mode == mode && k.acyclic
  {
    RelationKind(mode, true)
  }

  /**
   * The bounds of a view and the host's window predicate: `isWithin(t, last, current)` says
   * whether timestamp `t` lies within the window from `last` to `current`.
   */
  datatype Window = Window(lastInsertion: Timestamp, lastDeletion: Timestamp, current: Timestamp, isWithin: WithinFn)

  /** An insertion stamped `t` belongs to the window. */
  predicate InsertedWithin(w: Window, t: Timestamp) {
    w.isWithin(t, w.lastInsertion, w.current)
  }

  /** A deletion stamped `t` belongs to the window. */
  predicate DeletedWithin(w: Window, t: Timestamp) {
    w.isWithin(t, w.lastDeletion, w.current)
  }

  /**
   * The bounds `borrow` sets: both are `last_run` when the system ran before; otherwise the
   * insertion bound is the storage's `last_insert` and the deletion bound lies `u32::MAX / 2`
   * before `current`, with 32-bit wrap-around.
   */
  function DefaultBounds(lastRun: Option<Timestamp>, lastInsert: Timestamp, current: Timestamp): (r: (Timestamp, Timestamp))
    ensures lastRun.Some? ==> r == (lastRun.value, lastRun.value)
    ensures lastRun.None? ==> r.0 == lastInsert
    ensures lastRun.None? ==> (r.1 + U32_MAX / 2) % (U32_MAX + 1) == current
    ensures lastRun.None? && current >= U32_MAX / 2 ==> r.1 == current - U32_MAX / 2
  {
    match lastRun
    case Some(t) => (t, t)
    case None => (lastInsert, WrappingSub(current, U32_MAX / 2))
  }

  // ---------------------------------------------------------------------------------------
  // Graph queries

  /** `get`: the mode's outgoing lookup, which is also the mode's own `get`. */
  function Get<R>(s: StorageState<R>, n: EntityId): (r: Lookup<R>)
    ensures r == RelationMode.Get(s.mode, s.graph, n)
    ensures r.One? <==> IsExclusiveOutgoing(s.mode)
  {
    GetOutgoing(s.mode, s.graph, n)
  }

  /**
   * `relation`: the payload of the edge between `a` and `b`, which is the payload listed for
   * `b` by the outgoing edges of `a`; on an undirected graph the order of `a` and `b` does not
   * matter.
   */
  function RelationOf<R>(s: StorageState<R>, a: EntityId, b: EntityId): (r: Option<R>)
    ensures r.Some? ==> (b, r.value) in EdgesDirected(s.graph, a, Outgoing)
    ensures r.None? <==> b !in NeighborsDirected(s.graph, a, Outgoing)
    ensures !IsDirected(s.mode) ==> r == EdgeWeight(s.graph, b, a)
  {
    EdgesDirectedSpec(s.graph, a, Outgoing);
    NeighborsDirectedSpec(s.graph, a, Outgoing);
    EdgeWeight(s.graph, a, b)
  }

  // ---------------------------------------------------------------------------------------
  // Change-log queries

  /** `inserted`: the logged insertion pairs whose timestamp is within the window, in log order. */
  function Inserted<R>(s: StorageState<R>, w: Window): (r: seq<Pair>)
    ensures forall p :: p in r <==> p in s.insertion.values && InsertedWithin(w, s.insertion.values[p])
    ensures IndexMaps.InOrderOf(r, s.insertion.keys)
    ensures Distinct(r)
  {
    var keep := (p: Pair) => p in s.insertion.values && InsertedWithin(w, s.insertion.values[p]);
    IndexMaps.FilterKeysInOrder(s.insertion.keys, keep);
    IndexMaps.FilterKeys(s.insertion.keys, keep)
  }

  /** The logged deletion pairs whose timestamp is within the window, in log order. */
  function DeletedKeys<R>(s: StorageState<R>, w: Window): (r: seq<Pair>)
    ensures forall p :: p in r <==> p in s.deletion.values && DeletedWithin(w, s.deletion.values[p].0)
    ensures IndexMaps.InOrderOf(r, s.deletion.keys)
    ensures Distinct(r)
  {
    var keep := (p: Pair) => p in s.deletion.values && DeletedWithin(w, s.deletion.values[p].0);
    IndexMaps.FilterKeysInOrder(s.deletion.keys, keep);
    IndexMaps.FilterKeys(s.deletion.keys, keep)
  }

  /**
   * `deleted`: each logged deletion whose timestamp is within the window, as its pair and the
   * payload the edge carried, in log order.
   */
  function Deleted<R>(s: StorageState<R>, w: Window): (r: seq<(Pair, R)>)
    ensures |r| == |DeletedKeys(s, w)| && forall i :: 0 <= i < |r| ==> r[i].0 == DeletedKeys(s, w)[i]
    ensures forall i :: 0 <= i < |r| ==>
              r[i].0 in s.deletion.values && DeletedWithin(w, s.deletion.values[r[i].0].0) && r[i].1 == s.deletion.values[r[i].0].1
    ensures forall p :: p in s.deletion.values && DeletedWithin(w, s.deletion.values[p].0) ==> (p, s.deletion.values[p].1) in r
  {
    var ks := DeletedKeys(s, w);
    var r := seq(|ks|, i requires 0 <= i < |ks| => (ks[i], s.deletion.values[ks[i]].1));
    assert forall p :: p in ks ==> (p, s.deletion.values[p].1) in r by {
      forall p | p in ks
        ensures (p, s.deletion.values[p].1) in r
      {
        var i :| 0 <= i < |ks| && ks[i] == p;
        assert r[i] == (p, s.deletion.values[p].1);
      }
    }
    r
  }

  /**
   * `is_inserted(a, b)`: the timestamp logged for (a, b) is within the window; when (a, b) is
   * not logged, an undirected relation asks the same of (b, a).
   */
  function IsInserted<R>(s: StorageState<R>, w: Window, a: EntityId, b: EntityId): (r: bool)
    ensures r <==> (a, b) in Inserted(s, w) || (!IsDirected(s.mode) && (a, b) !in s.insertion.values && (b, a) in Inserted(s, w))
  {
    match IndexMaps.Get(s.insertion, (a, b))
    case Some(t) => InsertedWithin(w, t)
    case None =>
      if !IsDirected(s.mode) then
        match IndexMaps.Get(s.insertion, (b, a))
        case Some(t) => InsertedWithin(w, t)
        case None => false
      else false
  }

  /**
   * `is_deleted(a, b)`: the timestamp logged for the deletion of (a, b) is within the window;
   * when (a, b) is not logged, an undirected relation asks the same of (b, a).
   */
  function IsDeleted<R>(s: StorageState<R>, w: Window, a: EntityId, b: EntityId): (r: bool)
    ensures r <==> (a, b) in DeletedKeys(s, w) || (!IsDirected(s.mode) && (a, b) !in s.deletion.values && (b, a) in DeletedKeys(s, w))
  {
    match IndexMaps.Get(s.deletion, (a, b))
    case Some(t) => DeletedWithin(w, t.0)
    case None =>
      if !IsDirected(s.mode) then
        match IndexMaps.Get(s.deletion, (b, a))
        case Some(t) => DeletedWithin(w, t.0)
        case None => false
      else false
  }

  // ---------------------------------------------------------------------------------------
  // Per-entity views of the change logs

  /**
   * The end of pair `p` that `get_outgoing_inserted(n)` reports: the target when the source
   * is `n`; on an undirected relation, also the source when the target is `n`.
   */
  function OutgoingEnd(directed: bool, p: Pair, n: EntityId): Option<EntityId> {
    if p.0 == n then Some(p.1)
    else if !directed && p.1 == n then Some(p.0)
    else None
  }

  /**
   * The end of pair `p` that `get_incoming_inserted(n)` reports: the source when the target
   * is `n`; on an undirected relation, also the target when the source is `n`.
   */
  function IncomingEnd(directed: bool, p: Pair, n: EntityId): Option<EntityId> {
    if p.1 == n then Some(p.0)
    else if !directed && p.0 == n then Some(p.1)
    else None
  }

  /** The end of `p` reported from `n`, by the outgoing or by the incoming rule. */
  function EndOf(directed: bool, outgoing: bool, p: Pair, n: EntityId): Option<EntityId> {
    if outgoing then OutgoingEnd(directed, p, n) else IncomingEnd(directed, p, n)
  }

  /** How many of the pairs `ps` have an end reported from `n`. */
  function ReportedCount(ps: seq<Pair>, directed: bool, outgoing: bool, n: EntityId): nat {
    if ps == [] then 0
    else (if EndOf(directed, outgoing, ps[0], n).Some? then 1 else 0) + ReportedCount(ps[1..], directed, outgoing, n)
  }

  /** Counting the reported pairs of a non-empty prefix starts with its first pair. */
  lemma ReportedCountPrefix(ps: seq<Pair>, j: nat, directed: bool, outgoing: bool, n: EntityId)
    requires 1 <= j <= |ps|
    ensures ReportedCount(ps[..j], directed, outgoing, n)
         == (if EndOf(directed, outgoing, ps[0], n).Some? then 1 else 0) + ReportedCount(ps[1..][..j - 1], directed, outgoing, n)
  {
    assert ps[..j][0] == ps[0] && ps[..j][1..] == ps[1..][..j - 1];
  }

  /**
   * The ends reported from `n` for the pairs `ps`, in order: the other end of each pair that
   * leaves `n` (outgoing) or enters it (incoming), and on an undirected relation of each pair
   * that touches `n`.
   */
  function Ends(ps: seq<Pair>, directed: bool, outgoing: bool, n: EntityId): (r: seq<EntityId>)
    ensures outgoing ==> forall x :: x in r <==> (n, x) in ps || (!directed && (x, n) in ps)
    ensures !outgoing ==> forall x :: x in r <==> (x, n) in ps || (!directed && (n, x) in ps)
  {
    if ps == [] then []
    else
      var rest := Ends(ps[1..], directed, outgoing, n);
      assert forall p :: p in ps <==> p == ps[0] || p in ps[1..];
      match EndOf(directed, outgoing, ps[0], n)
      case Some(x) => [x] + rest
      case None => rest
  }

  /** The ends reported from `n` for the deletions `ds`, each with its payload, in order. */
  function EndsWithPayload<R>(ds: seq<(Pair, R)>, directed: bool, outgoing: bool, n: EntityId): seq<(EntityId, R)> {
    if ds == [] then []
    else
      var rest := EndsWithPayload(ds[1..], directed, outgoing, n);
      match EndOf(directed, outgoing, ds[0].0, n)
      case Some(x) => [(x, ds[0].1)] + rest
      case None => rest
  }

  /**
   * Every item `EndsWithPayload` lists is the other end of a deletion leaving `n` (outgoing)
   * or entering it (incoming), or on an undirected relation touching it, with that deletion's
   * payload; and every such deletion is listed.
   */
  lemma {:induction false} EndsWithPayloadMembers<R>(ds: seq<(Pair, R)>, directed: bool, outgoing: bool, n: EntityId)
    ensures var r := EndsWithPayload(ds, directed, outgoing, n);
      && (outgoing ==> forall i :: 0 <= i < |r| ==>
            ((n, r[i].0), r[i].1) in ds || (!directed && ((r[i].0, n), r[i].1) in ds))
      && (!outgoing ==> forall i :: 0 <= i < |r| ==>
            ((r[i].0, n), r[i].1) in ds || (!directed && ((n, r[i].0), r[i].1) in ds))
      && (forall j :: 0 <= j < |ds| && (if outgoing then ds[j].0.0 else ds[j].0.1) == n ==>
            ((if outgoing then ds[j].0.1 else ds[j].0.0), ds[j].1) in r)
      && (!directed ==> forall j :: 0 <= j < |ds| && (if outgoing then ds[j].0.1 else ds[j].0.0) == n ==>
            ((if outgoing then ds[j].0.0 else ds[j].0.1), ds[j].1) in r)
  {
    if ds != [] {
      EndsWithPayloadMembers(ds[1..], directed, outgoing, n);
      var rest := EndsWithPayload(ds[1..], directed, outgoing, n);
      assert forall e :: e in ds[1..] ==> e in ds;
      assert forall j :: 1 <= j < |ds| ==> ds[j] == ds[1..][j - 1];
      match EndOf(directed, outgoing, ds[0].0, n)
      case Some(x) =>
        var r := [(x, ds[0].1)] + rest;
        assert forall i :: 1 <= i < |r| ==> r[i] == rest[i - 1];
      case None =>
    }
  }

  /**
   * `Ends` lists one item per reported pair, in the order of the pairs: the pair at position
   * `j` is reported at the position that counts the reported pairs before it.
   */
  lemma {:induction false} EndsPositions(ps: seq<Pair>, directed: bool, outgoing: bool, n: EntityId)
    ensures |Ends(ps, directed, outgoing, n)| == ReportedCount(ps, directed, outgoing, n)
    ensures forall j :: 0 <= j < |ps| && EndOf(directed, outgoing, ps[j], n).Some? ==>
              ReportedCount(ps[..j], directed, outgoing, n) < |Ends(ps, directed, outgoing, n)| &&
              Ends(ps, directed, outgoing, n)[ReportedCount(ps[..j], directed, outgoing, n)] == EndOf(directed, outgoing, ps[j], n).value
  {
    if ps != [] {
      EndsPositions(ps[1..], directed, outgoing, n);
      forall j | 0 <= j < |ps| && EndOf(directed, outgoing, ps[j], n).Some?
        ensures ReportedCount(ps[..j], directed, outgoing, n) < |Ends(ps, directed, outgoing, n)| &&
                Ends(ps, directed, outgoing, n)[ReportedCount(ps[..j], directed, outgoing, n)] == EndOf(directed, outgoing, ps[j], n).value
      {
        EndsAt(ps, directed, outgoing, n, j);
      }
    }
  }

  /** The pair at position `j`, when reported, is reported after the reported pairs before it. */
  lemma {:induction false} EndsAt(ps: seq<Pair>, directed: bool, outgoing: bool, n: EntityId, j: nat)
    requires j < |ps| && EndOf(directed, outgoing, ps[j], n).Some?
    ensures ReportedCount(ps[..j], directed, outgoing, n) < |Ends(ps, directed, outgoing, n)| &&
            Ends(ps, directed, outgoing, n)[ReportedCount(ps[..j], directed, outgoing, n)] == EndOf(directed, outgoing, ps[j], n).value
  {
    var rest := Ends(ps[1..], directed, outgoing, n);
    var head := if EndOf(directed, outgoing, ps[0], n).Some? then [EndOf(directed, outgoing, ps[0], n).value] else [];
    assert Ends(ps, directed, outgoing, n) == head + rest;
    if j > 0 {
      var ps' := ps[1..];
      assert ps[j] == ps'[j - 1];
      EndsAt(ps', directed, outgoing, n, j - 1);
      var c := ReportedCount(ps'[..j - 1], directed, outgoing, n);
      assert c < |rest| && rest[c] == EndOf(directed, outgoing, ps[j], n).value;
      ReportedCountPrefix(ps, j, directed, outgoing, n);
      assert ReportedCount(ps[..j], directed, outgoing, n) == |head| + c;
      var r := Ends(ps, directed, outgoing, n);
      assert |r| == |head| + |rest|;
      assert r[|head| + c] == rest[c];
    }
  }

  /** On a directed relation `Ends` of distinct pairs lists no end twice. */
  lemma {:induction false} DirectedEndsDistinct(ps: seq<Pair>, outgoing: bool, n: EntityId)
    requires Distinct(ps)
    ensures Distinct(Ends(ps, true, outgoing, n))
  {
    if ps != [] {
      forall i, k | 0 <= i < k < |ps[1..]|
        ensures ps[1..][i] != ps[1..][k]
      {
        assert ps[1..][i] == ps[i + 1] && ps[1..][k] == ps[k + 1];
      }
      DirectedEndsDistinct(ps[1..], outgoing, n);
      var rest := Ends(ps[1..], true, outgoing, n);
      match EndOf(true, outgoing, ps[0], n)
      case Some(x) =>
        assert x !in rest;
        var r := [x] + rest;
        forall i, k | 0 <= i < k < |r|
          ensures r[i] != r[k]
        {
          if i > 0 {
            assert r[i] == rest[i - 1];
          }
          assert r[k] == rest[k - 1];
        }
      case None =>
    }
  }

  /**
   * `EndsWithPayload` lists one item per reported deletion, in the order of the deletions, each
   * with the payload of its deletion; `ks` are the pairs of the deletions.
   */
  lemma {:induction false} EndsWithPayloadPositions<R>(ds: seq<(Pair, R)>, ks: seq<Pair>, directed: bool, outgoing: bool, n: EntityId)
    requires |ks| == |ds| && forall i :: 0 <= i < |ds| ==> ks[i] == ds[i].0
    ensures |EndsWithPayload(ds, directed, outgoing, n)| == ReportedCount(ks, directed, outgoing, n)
    ensures forall j :: 0 <= j < |ds| && EndOf(directed, outgoing, ks[j], n).Some? ==>
              ReportedCount(ks[..j], directed, outgoing, n) < |EndsWithPayload(ds, directed, outgoing, n)| &&
              EndsWithPayload(ds, directed, outgoing, n)[ReportedCount(ks[..j], directed, outgoing, n)]
                == (EndOf(directed, outgoing, ks[j], n).value, ds[j].1)
  {
    if ds != [] {
      assert forall i :: 0 <= i < |ds[1..]| ==> ks[1..][i] == ds[1..][i].0;
      EndsWithPayloadPositions(ds[1..], ks[1..], directed, outgoing, n);
      assert ks[0] == ds[0].0;
      forall j | 0 <= j < |ds| && EndOf(directed, outgoing, ks[j], n).Some?
        ensures ReportedCount(ks[..j], directed, outgoing, n) < |EndsWithPayload(ds, directed, outgoing, n)| &&
                EndsWithPayload(ds, directed, outgoing, n)[ReportedCount(ks[..j], directed, outgoing, n)]
                  == (EndOf(directed, outgoing, ks[j], n).value, ds[j].1)
      {
        EndsWithPayloadAt(ds, ks, directed, outgoing, n, j);
      }
    }
  }

  /** The deletion at position `j`, when reported, is reported after the reported deletions before it. */
  lemma {:induction false} EndsWithPayloadAt<R>(ds: seq<(Pair, R)>, ks: seq<Pair>, directed: bool, outgoing: bool, n: EntityId, j: nat)
    requires |ks| == |ds| && forall i :: 0 <= i < |ds| ==> ks[i] == ds[i].0
    requires j < |ds| && EndOf(directed, outgoing, ks[j], n).Some?
    ensures ReportedCount(ks[..j], directed, outgoing, n) < |EndsWithPayload(ds, directed, outgoing, n)| &&
            EndsWithPayload(ds, directed, outgoing, n)[ReportedCount(ks[..j], directed, outgoing, n)]
              == (EndOf(directed, outgoing, ks[j], n).value, ds[j].1)
  {
    var rest := EndsWithPayload(ds[1..], directed, outgoing, n);
    var head := if EndOf(directed, outgoing, ks[0], n).Some? then [(EndOf(directed, outgoing, ks[0], n).value, ds[0].1)] else [];
    assert ks[0] == ds[0].0;
    assert EndsWithPayload(ds, directed, outgoing, n) == head + rest;
    if j > 0 {
      var ds', ks' := ds[1..], ks[1..];
      assert forall i :: 0 <= i < |ds'| ==> ks'[i] == ds'[i].0;
      assert ds[j] == ds'[j - 1] && ks[j] == ks'[j - 1];
      EndsWithPayloadAt(ds', ks', directed, outgoing, n, j - 1);
      var c := ReportedCount(ks'[..j - 1], directed, outgoing, n);
      assert c < |rest| && rest[c] == (EndOf(directed, outgoing, ks[j], n).value, ds[j].1);
      ReportedCountPrefix(ks, j, directed, outgoing, n);
      assert ReportedCount(ks[..j], directed, outgoing, n) == |head| + c;
      var r := EndsWithPayload(ds, directed, outgoing, n);
      assert |r| == |head| + |rest|;
      assert r[|head| + c] == rest[c];
    }
  }

  /**
   * On a directed relation `EndsWithPayload` of deletions with distinct pairs `ks` lists no
   * end twice.
   */
  lemma {:induction false} DirectedEndsWithPayloadDistinct<R>(ds: seq<(Pair, R)>, ks: seq<Pair>, outgoing: bool, n: EntityId)
    requires |ks| == |ds| && forall i :: 0 <= i < |ds| ==> ks[i] == ds[i].0
    requires Distinct(ks)
    ensures forall i, k :: 0 <= i < k < |EndsWithPayload(ds, true, outgoing, n)| ==>
              EndsWithPayload(ds, true, outgoing, n)[i].0 != EndsWithPayload(ds, true, outgoing, n)[k].0
  {
    if ds != [] {
      forall i, k | 0 <= i < k < |ks[1..]|
        ensures ks[1..][i] != ks[1..][k]
      {
        assert ks[1..][i] == ks[i + 1] && ks[1..][k] == ks[k + 1];
      }
      DirectedEndsWithPayloadDistinct(ds[1..], ks[1..], outgoing, n);
      EndsWithPayloadMembers(ds[1..], true, outgoing, n);
      var rest := EndsWithPayload(ds[1..], true, outgoing, n);
      match EndOf(true, outgoing, ds[0].0, n)
      case Some(x) =>
        var r := [(x, ds[0].1)] + rest;
        forall i | 0 <= i < |rest|
          ensures rest[i].0 != x
        {
          var e := if outgoing then ((n, rest[i].0), rest[i].1) else ((rest[i].0, n), rest[i].1);
          assert e in ds[1..];
          var k :| 0 <= k < |ds[1..]| && ds[1..][k] == e;
          assert ks[k + 1] == e.0 && ks[0] == ds[0].0;
        }
        forall i, k | 0 <= i < k < |r|
          ensures r[i].0 != r[k].0
        {
          if i > 0 {
            assert r[i] == rest[i - 1];
          }
          assert r[k] == rest[k - 1];
        }
      case None =>
    }
  }

  /**
   * `get_outgoing_inserted(n)`, and `get_inserted(n)`, which is the same: the other end of each
   * in-window insertion (n, x), and on an undirected relation also of each (x, n), one item
   * per such insertion, in log order. On a directed relation no end is listed twice.
   */
  function GetOutgoingInserted<R>(s: StorageState<R>, w: Window, n: EntityId): (r: seq<EntityId>)
    ensures forall x :: x in r <==> (n, x) in Inserted(s, w) || (!IsDirected(s.mode) && (x, n) in Inserted(s, w))
    ensures |r| == ReportedCount(Inserted(s, w), IsDirected(s.mode), true, n)
    ensures forall j :: 0 <= j < |Inserted(s, w)| && OutgoingEnd(IsDirected(s.mode), Inserted(s, w)[j], n).Some? ==>
              ReportedCount(Inserted(s, w)[..j], IsDirected(s.mode), true, n) < |r| &&
              r[ReportedCount(Inserted(s, w)[..j], IsDirected(s.mode), true, n)] == OutgoingEnd(IsDirected(s.mode), Inserted(s, w)[j], n).value
    ensures IsDirected(s.mode) ==> Distinct(r)
  {
    EndsPositions(Inserted(s, w), IsDirected(s.mode), true, n);
    assert IsDirected(s.mode) ==> Distinct(Ends(Inserted(s, w), true, true, n)) by {
      if IsDirected(s.mode) {
        DirectedEndsDistinct(Inserted(s, w), true, n);
      }
    }
    Ends(Inserted(s, w), IsDirected(s.mode), true, n)
  }

  /**
   * `get_incoming_inserted(n)`: the other end of each in-window insertion (x, n), and on an
   * undirected relation also of each (n, x), one item per such insertion, in log order. On a
   * directed relation no end is listed twice.
   */
  function GetIncomingInserted<R>(s: StorageState<R>, w: Window, n: EntityId): (r: seq<EntityId>)
    ensures forall x :: x in r <==> (x, n) in Inserted(s, w) || (!IsDirected(s.mode) && (n, x) in Inserted(s, w))
    ensures |r| == ReportedCount(Inserted(s, w), IsDirected(s.mode), false, n)
    ensures forall j :: 0 <= j < |Inserted(s, w)| && IncomingEnd(IsDirected(s.mode), Inserted(s, w)[j], n).Some? ==>
              ReportedCount(Inserted(s, w)[..j], IsDirected(s.mode), false, n) < |r| &&
              r[ReportedCount(Inserted(s, w)[..j], IsDirected(s.mode), false, n)] == IncomingEnd(IsDirected(s.mode), Inserted(s, w)[j], n).value
    ensures IsDirected(s.mode) ==> Distinct(r)
  {
    EndsPositions(Inserted(s, w), IsDirected(s.mode), false, n);
    assert IsDirected(s.mode) ==> Distinct(Ends(Inserted(s, w), true, false, n)) by {
      if IsDirected(s.mode) {
        DirectedEndsDistinct(Inserted(s, w), false, n);
      }
    }
    Ends(Inserted(s, w), IsDirected(s.mode), false, n)
  }

  /**
   * `get_outgoing_deleted(n)`, and `get_deleted(n)`, which is the same: the other end of each
   * in-window deletion (n, x), and on an undirected relation also of each (x, n), with the
   * payload the deleted edge carried, one item per such deletion, in log order. On a directed
   * relation no end is listed twice.
   */
  function GetOutgoingDeleted<R>(s: StorageState<R>, w: Window, n: EntityId): (r: seq<(EntityId, R)>)
    ensures forall i :: 0 <= i < |r| ==>
              ((n, r[i].0), r[i].1) in Deleted(s, w) || (!IsDirected(s.mode) && ((r[i].0, n), r[i].1) in Deleted(s, w))
    ensures forall j :: 0 <= j < |Deleted(s, w)| && Deleted(s, w)[j].0.0 == n ==>
              (Deleted(s, w)[j].0.1, Deleted(s, w)[j].1) in r
    ensures !IsDirected(s.mode) ==> forall j :: 0 <= j < |Deleted(s, w)| && Deleted(s, w)[j].0.1 == n ==>
              (Deleted(s, w)[j].0.0, Deleted(s, w)[j].1) in r
    ensures |r| == ReportedCount(DeletedKeys(s, w), IsDirected(s.mode), true, n)
    ensures forall j :: 0 <= j < |Deleted(s, w)| && OutgoingEnd(IsDirected(s.mode), Deleted(s, w)[j].0, n).Some? ==>
              ReportedCount(DeletedKeys(s, w)[..j], IsDirected(s.mode), true, n) < |r| &&
              r[ReportedCount(DeletedKeys(s, w)[..j], IsDirected(s.mode), true, n)]
                == (OutgoingEnd(IsDirected(s.mode), Deleted(s, w)[j].0, n).value, Deleted(s, w)[j].1)
    ensures IsDirected(s.mode) ==> forall i, k :: 0 <= i < k < |r| ==> r[i].0 != r[k].0
  {
    EndsWithPayloadMembers(Deleted(s, w), IsDirected(s.mode), true, n);
    EndsWithPayloadPositions(Deleted(s, w), DeletedKeys(s, w), IsDirected(s.mode), true, n);
    assert IsDirected(s.mode) ==> forall i, k :: 0 <= i < k < |EndsWithPayload(Deleted(s, w), true, true, n)| ==>
             EndsWithPayload(Deleted(s, w), true, true, n)[i].0 != EndsWithPayload(Deleted(s, w), true, true, n)[k].0 by {
      if IsDirected(s.mode) {
        DirectedEndsWithPayloadDistinct(Deleted(s, w), DeletedKeys(s, w), true, n);
      }
    }
    EndsWithPayload(Deleted(s, w), IsDirected(s.mode), true, n)
  }

  /**
   * `get_incoming_deleted(n)`: the other end of each in-window deletion (x, n), and on an
   * undirected relation also of each (n, x), with the payload the deleted edge carried, one
   * item per such deletion, in log order. On a directed relation no end is listed twice.
   */
  function GetIncomingDeleted<R>(s: StorageState<R>, w: Window, n: EntityId): (r: seq<(EntityId, R)>)
    ensures forall i :: 0 <= i < |r| ==>
              ((r[i].0, n), r[i].1) in Deleted(s, w) || (!IsDirected(s.mode) && ((n, r[i].0), r[i].1) in Deleted(s, w))
    ensures forall j :: 0 <= j < |Deleted(s, w)| && Deleted(s, w)[j].0.1 == n ==>
              (Deleted(s, w)[j].0.0, Deleted(s, w)[j].1) in r
    ensures !IsDirected(s.mode) ==> forall j :: 0 <= j < |Deleted(s, w)| && Deleted(s, w)[j].0.0 == n ==>
              (Deleted(s, w)[j].0.1, Deleted(s, w)[j].1) in r
    ensures |r| == ReportedCount(DeletedKeys(s, w), IsDirected(s.mode), false, n)
    ensures forall j :: 0 <= j < |Deleted(s, w)| && IncomingEnd(IsDirected(s.mode), Deleted(s, w)[j].0, n).Some? ==>
              ReportedCount(DeletedKeys(s, w)[..j], IsDirected(s.mode), false, n) < |r| &&
              r[ReportedCount(DeletedKeys(s, w)[..j], IsDirected(s.mode), false, n)]
                == (IncomingEnd(IsDirected(s.mode), Deleted(s, w)[j].0, n).value, Deleted(s, w)[j].1)
    ensures IsDirected(s.mode) ==> forall i, k :: 0 <= i < k < |r| ==> r[i].0 != r[k].0
  {
    EndsWithPayloadMembers(Deleted(s, w), IsDirected(s.mode), false, n);
    EndsWithPayloadPositions(Deleted(s, w), DeletedKeys(s, w), IsDirected(s.mode), false, n);
    assert IsDirected(s.mode) ==> forall i, k :: 0 <= i < k < |EndsWithPayload(Deleted(s, w), true, false, n)| ==>
             EndsWithPayload(Deleted(s, w), true, false, n)[i].0 != EndsWithPayload(Deleted(s, w), true, false, n)[k].0 by {
      if IsDirected(s.mode) {
        DirectedEndsWithPayloadDistinct(Deleted(s, w), DeletedKeys(s, w), false, n);
      }
    }
    EndsWithPayload(Deleted(s, w), IsDirected(s.mode), false, n)
  }

  // ---------------------------------------------------------------------------------------
  // Lemmas relating the queries

  /** On an undirected relation both rules report the same end of every pair. */
  lemma {:induction false} UndirectedEndsAgree(ps: seq<Pair>, n: EntityId)
    ensures Ends(ps, false, true, n) == Ends(ps, false, false, n)
  {
    if ps != [] {
      UndirectedEndsAgree(ps[1..], n);
    }
  }

  /**
   * On an undirected relation the incoming and outgoing views of the insertion log are the
   * same sequence: which end is compared first makes no difference.
   */
  lemma UndirectedInsertedViewsAgree<R>(s: StorageState<R>, w: Window, n: EntityId)
    requires !IsDirected(s.mode)
    ensures GetOutgoingInserted(s, w, n) == GetIncomingInserted(s, w, n)
  {
    UndirectedEndsAgree(Inserted(s, w), n);
  }

  /**
   * On a directed relation `is_inserted(a, b)` holds exactly when `b` is among the outgoing
   * insertions of `a`, and exactly when `a` is among the incoming insertions of `b`.
   */
  lemma DirectedIsInsertedAgrees<R>(s: StorageState<R>, w: Window, a: EntityId, b: EntityId)
    requires IsDirected(s.mode)
    ensures IsInserted(s, w, a, b) <==> b in GetOutgoingInserted(s, w, a)
    ensures IsInserted(s, w, a, b) <==> a in GetIncomingInserted(s, w, b)
  {
  }

  /**
   * On an undirected relation `is_inserted` gives the same answer for (a, b) and (b, a)
   * unless both pairs are logged.
   */
  lemma UndirectedIsInsertedSymmetric<R>(s: StorageState<R>, w: Window, a: EntityId, b: EntityId)
    requires !IsDirected(s.mode)
    requires !((a, b) in s.insertion.values && (b, a) in s.insertion.values)
    ensures IsInserted(s, w, a, b) == IsInserted(s, w, b, a)
  {
  }

  /**
   * On a directed relation `is_deleted(a, b)` holds exactly when a deletion of (a, b) is
   * listed by `get_outgoing_deleted(a)`.
   */
  lemma DirectedIsDeletedAgrees<R>(s: StorageState<R>, w: Window, a: EntityId, b: EntityId)
    requires IsDirected(s.mode)
    ensures IsDeleted(s, w, a, b) <==> exists i :: 0 <= i < |GetOutgoingDeleted(s, w, a)| && GetOutgoingDeleted(s, w, a)[i].0 == b
  {
    var ds := Deleted(s, w);
    var r := GetOutgoingDeleted(s, w, a);
    if IsDeleted(s, w, a, b) {
      assert (a, b) in DeletedKeys(s, w);
      var j :| 0 <= j < |ds| && ds[j].0 == (a, b);
      assert (ds[j].0.1, ds[j].1) in r;
      var i :| 0 <= i < |r| && r[i] == (ds[j].0.1, ds[j].1);
      assert r[i].0 == b;
    }
    if exists i :: 0 <= i < |r| && r[i].0 == b {
      var i :| 0 <= i < |r| && r[i].0 == b;
      assert ((a, b), r[i].1) in ds;
      var j :| 0 <= j < |ds| && ds[j] == ((a, b), r[i].1);
      assert (a, b) in DeletedKeys(s, w);
    }
  }
}
