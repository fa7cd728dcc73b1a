/**
 JavaScript's `undefined`/`null` and the nullish-coalescing operator `??`.

 A value that may be absent is an `Option`; `a ?? b` is `Coalesce(a, b)`.
 Unlike `||`, `??` replaces only an absent value: an empty string is kept.
 */
module Nullish {

  datatype Option<+T> = None | Some(value: T)

  /** `a ?? fallback`: the value when present, the fallback only when absent. */
  function Coalesce<T>(a: Option<T>, fallback: T): (r: T)
    ensures a.Some? ==> r == a.value
    ensures a.None? ==> r == fallback
  {
    match a
    case Some(v) => v
    case None => fallback
  }
}
