/** A value that JavaScript may leave `undefined` or `null`. */
module Wrappers {

  datatype Option<+T> = None | Some(value: T)

  /** JavaScript truthiness of an optional string: only a present, non-empty string is truthy. */
  predicate Truthy(s: Option<string>): (r: bool)
    ensures r ==> s.Some?
    ensures s.Some? ==> (r <==> |s.value| > 0)
  {
    s.Some? && s.value != ""
  }
}
