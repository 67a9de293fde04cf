/** The optional value used throughout: `None` stands for JavaScript's undefined. */
module Wrappers {
  datatype Option<+T> = None | Some(value: T)

  function Lookup<K, V>(m: map<K, V>, k: K): Option<V> {
    if k in m then Some(m[k]) else None
  }

  ghost function Pick<T>(s: set<T>): (t: T)
    requires s != {}
    ensures t in s
  {
    var t :| t in s; t
  }
}
