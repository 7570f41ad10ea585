/** Optional values: Python's `X | None`. */
module Wrappers {

  datatype Option<+T> = None | Some(value: T)

  /** `d.get(key)` on a Python dictionary. */
  function Get<K, T>(m: map<K, T>, key: K): (r: Option<T>)
    ensures r.Some? <==> key in m
    ensures r.Some? ==> r.value == m[key]
  {
    if key in m then Some(m[key]) else None
  }
}
