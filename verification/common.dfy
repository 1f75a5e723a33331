/** Small shared vocabulary: an optional value, and lookup in a string-keyed map
    that answers "absent" instead of failing. */
module Common {

  /** A value that may be missing; stands for JavaScript's `null`/`undefined`. */
  datatype Option<+T> = None | Some(value: T)

  /** `m.get(k)`: the entry for `k`, or None when there is none. */
  function Get<V>(m: map<string, V>, k: string): (r: Option<V>)
    ensures r.Some? <==> k in m
    ensures r.Some? ==> r.value == m[k]
  {
    if k in m then Some(m[k]) else None
  }

  /** JavaScript truthiness of a possibly-missing string: present and non-empty. */
  predicate Truthy(s: Option<string>)
  {
    s.Some? && s.value != ""
  }
}
