/** Optional values: the model's stand-in for `undefined`, `null` and a
    missing DOM element or attribute. */
module Wrappers {

  datatype Option<+T> = None | Some(value: T) {

    /** The value, or `default` when there is none (`x ?? default`). */
    function GetOr(default: T): T {
      match this
      case Some(v) => v
      case None => default
    }
  }

  /** JavaScript's `s || fallback` on an optional string: both `undefined`
      and the empty string are falsy. */
  function OrElse(s: Option<string>, fallback: string): (r: string)
    ensures s.Some? && s.value != "" ==> r == s.value
    ensures (s.None? || s.value == "") ==> r == fallback
  {
    if s.Some? && s.value != "" then s.value else fallback
  }

  /** `a || b` on two optional values: `a` when it is a non-empty string,
      otherwise `b` exactly as it is (which may itself be falsy). */
  function Or(a: Option<string>, b: Option<string>): (r: Option<string>)
    ensures a.Some? && a.value != "" ==> r == a
    ensures (a.None? || a.value == "") ==> r == b
  {
    if a.Some? && a.value != "" then a else b
  }

  /** `a || b` on two optional strings: the first truthy one, else `None`. */
  function FirstTruthy(a: Option<string>, b: Option<string>): (r: Option<string>)
    ensures r.Some? ==> r.value != ""
    ensures r.None? <==> (a.None? || a.value == "") && (b.None? || b.value == "")
    ensures a.Some? && a.value != "" ==> r == a
    ensures (a.None? || a.value == "") && b.Some? && b.value != "" ==> r == b
  {
    if a.Some? && a.value != "" then a
    else if b.Some? && b.value != "" then b
    else None
  }
}
