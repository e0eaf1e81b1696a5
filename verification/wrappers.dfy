/** Optional values, as Rust's `Option`. */
module Wrappers {

  datatype Option<+T> = None | Some(value: T)

  /** `Iterator::next` on a fresh iterator over `s`: its first element, if any. */
  function First<T>(s: seq<T>): (r: Option<T>)
    ensures r.None? <==> s == []
    ensures r.Some? ==> r.value == s[0]
  {
    if s == [] then None else Some(s[0])
  }
}
