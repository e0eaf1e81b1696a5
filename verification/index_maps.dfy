/**
 * The insertion-ordered hash map of the `indexmap` crate, which the storage uses for its two
 * change logs and which the graph uses for its edges: the keys in iteration order, and the
 * key-to-value mapping.
 */
module IndexMaps {
  import opened Wrappers

  datatype IndexMapRep<K(==,!new), V> = IndexMap(keys: seq<K>, values: map<K, V>)

  /** Keys are listed once each, and exactly the mapped keys are listed. */
  ghost predicate WellFormed<K(!new), V>(m: IndexMapRep<K, V>) {
    && (forall i, j :: 0 <= i < j < |m.keys| ==> m.keys[i] != m.keys[j])
    && (forall k :: k in m.values <==> k in m.keys)
  }

  type IndexMap<K(==,!new), V> = m: IndexMapRep<K, V> | WellFormed(m) witness IndexMap([], map[])

  /** `IndexMap::new`. */
  function Empty<K(==,!new), V>(): (m: IndexMap<K, V>)
    ensures m.keys == [] && m.values == map[]
  {
    IndexMap([], map[])
  }

  /** `IndexMap::get`. */
  function Get<K(==,!new), V>(m: IndexMap<K, V>, k: K): (r: Option<V>)
    ensures r.Some? <==> k in m.values
    ensures r.Some? ==> r.value == m.values[k]
  {
    if k in m.values then Some(m.values[k]) else None
  }

  /** `IndexMap::insert`: a present key keeps its place, a new key goes last. */
  function Insert<K(==,!new), V>(m: IndexMap<K, V>, k: K, v: V): (r: IndexMap<K, V>)
    ensures r.values == m.values[k := v]
    ensures k in m.values ==> r.keys == m.keys
    ensures k !in m.values ==> r.keys == m.keys + [k]
  {
    if k in m.values then IndexMap(m.keys, m.values[k := v])
    else IndexMap(m.keys + [k], m.values[k := v])
  }

  /** Position of `k` in `s`. */
  function IndexOf<K(==)>(s: seq<K>, k: K): (i: nat)
    requires k in s
    ensures i < |s| && s[i] == k
  {
    if s[0] == k then 0 else 1 + IndexOf(s[1..], k)
  }

  /**
   * `IndexMap::remove`, which is `swap_remove`: the last key moves into the removed key's
   * place. An absent key leaves the map as it is.
   */
  function Remove<K(==,!new), V>(m: IndexMap<K, V>, k: K): (r: IndexMap<K, V>)
    ensures r.values == m.values - {k}
    ensures k !in m.values ==> r == m
  {
    if k !in m.values then m
    else
      var i := IndexOf(m.keys, k);
      SwapRemoveKeys(m.keys, i);
      IndexMap(m.keys[i := m.keys[|m.keys| - 1]][..|m.keys| - 1], m.values - {k})
  }

  lemma SwapRemoveKeys<K>(s: seq<K>, i: nat)
    requires i < |s|
    requires forall p, q :: 0 <= p < q < |s| ==> s[p] != s[q]
    ensures var t := s[i := s[|s| - 1]][..|s| - 1];
      && (forall p, q :: 0 <= p < q < |t| ==> t[p] != t[q])
      && (forall x :: x in t <==> x in s && x != s[i])
  {
    var last := |s| - 1;
    var t := s[i := s[last]][..last];
    // position in s of the key found at position p of t
    var from := (p: int) => if p == i then last else p;
    assert forall p :: 0 <= p < |t| ==> t[p] == s[from(p)];
    forall x | x in s && x != s[i]
      ensures x in t
    {
      var j :| 0 <= j < |s| && s[j] == x;
      if j == last { assert t[i] == x; } else { assert t[j] == x; }
    }
  }

  /** The keys of `s` that `keep` accepts, in order. */
  function FilterKeys<K(==,!new)>(s: seq<K>, keep: K -> bool): (r: seq<K>)
    ensures forall x :: x in r <==> x in s && keep(x)
    ensures (forall p, q :: 0 <= p < q < |s| ==> s[p] != s[q]) ==>
              forall p, q :: 0 <= p < q < |r| ==> r[p] != r[q]
  {
    if s == [] then []
    else
      var rest := FilterKeys(s[1..], keep);
      assert forall x :: x in s[1..] ==> x in s;
      if keep(s[0]) then [s[0]] + rest else rest
  }

  /** Every two elements of `r` appear in `s` in the same relative order. */
  ghost predicate InOrderOf<K>(r: seq<K>, s: seq<K>) {
    forall i, j :: 0 <= i < j < |r| ==> exists p, q :: 0 <= p < q < |s| && s[p] == r[i] && s[q] == r[j]
  }

  /** Filtering keeps the order of the keys it keeps. */
  lemma {:induction false} FilterKeysInOrder<K(!new)>(s: seq<K>, keep: K -> bool)
    ensures InOrderOf(FilterKeys(s, keep), s)
  {
    if s != [] {
      var rest := FilterKeys(s[1..], keep);
      FilterKeysInOrder(s[1..], keep);
      var r := FilterKeys(s, keep);
      forall i, j | 0 <= i < j < |r|
        ensures exists p, q :: 0 <= p < q < |s| && s[p] == r[i] && s[q] == r[j]
      {
        var P, Q;
        if keep(s[0]) {
          assert r == [s[0]] + rest;
          if i == 0 {
            assert rest[j - 1] == r[j] && rest[j - 1] in rest;
            var q :| 0 <= q < |s[1..]| && s[1..][q] == r[j];
            P, Q := 0, q + 1;
          } else {
            assert rest[i - 1] == r[i] && rest[j - 1] == r[j];
            var p, q :| 0 <= p < q < |s[1..]| && s[1..][p] == rest[i - 1] && s[1..][q] == rest[j - 1];
            P, Q := p + 1, q + 1;
          }
        } else {
          assert r == rest;
          assert rest[i] in rest && rest[j] in rest;
          var p, q :| 0 <= p < q < |s[1..]| && s[1..][p] == rest[i] && s[1..][q] == rest[j];
          P, Q := p + 1, q + 1;
        }
        assert 0 <= P < Q < |s| && s[P] == r[i] && s[Q] == r[j];
      }
    }
  }

  /** The entries whose key `keep` accepts, in their order: the edges a node removal leaves. */
  function Retain<K(==,!new), V>(m: IndexMap<K, V>, keep: K -> bool): (r: IndexMap<K, V>)
    ensures r.values == map k | k in m.values && keep(k) :: m.values[k]
  {
    IndexMap(FilterKeys(m.keys, keep), map k | k in m.values && keep(k) :: m.values[k])
  }
}
