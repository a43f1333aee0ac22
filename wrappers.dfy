/** Optional values: JavaScript's `null`/`undefined` results (Map.get, Array.find, a nullable variable). */
module Wrappers {

  datatype Option<+T> = None | Some(value: T)

  /** The set holding the value of an option, if any. */
  function OptSet<T>(o: Option<T>): (s: set<T>)
    ensures o.None? ==> s == {}
    ensures o.Some? ==> s == {o.value}
  {
    if o.Some? then {o.value} else {}
  }
}
