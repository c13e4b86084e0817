/** Option, Result and the three-state value of a JavaScript field (undefined, null, a value). */
module Wrappers {

  datatype Option<+T> = None | Some(value: T) {
    /** The value, or `default` when there is none (the `x ?? default` and `x || default` of the source). */
    function GetOr(default: T): T {
      match this
      case Some(v) => v
      case None => default
    }
  }

  datatype Result<+T, +E> = Ok(value: T) | Err(error: E)

  /** A JavaScript property that may be missing (`undefined`), `null`, or hold a value. */
  datatype Nullable<+T> = Undefined | Null | Defined(value: T) {
    /** `x ?? fallback`: both `undefined` and `null` fall back. */
    function OrElse(fallback: T): T {
      match this
      case Defined(v) => v
      case _ => fallback
    }
  }

  /** The position of the first element of `s` that satisfies `p` (a `findFirst` over a table). */
  function FirstIndex<T>(s: seq<T>, p: T -> bool): (r: Option<nat>)
    ensures r.Some? ==> r.value < |s| && p(s[r.value]) && forall j :: 0 <= j < r.value ==> !p(s[j])
    ensures r.None? ==> forall j :: 0 <= j < |s| ==> !p(s[j])
  {
    if s == [] then None
    else if p(s[0]) then Some(0)
    else match FirstIndex(s[1..], p)
      case None => None
      case Some(i) => Some(i + 1)
  }
}
