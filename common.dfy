/** Small value types shared by the rest of the model. */
module Common {

  /** An octet, the element type of a `Uint8Array`. */
  type byte = x: int | 0 <= x < 256

  datatype Option<+T> = None | Some(value: T)

  /**
   * A JavaScript value that may be "nullish": the nullish-coalescing operator
   * `??` treats `undefined` and `null` alike and every other value as present.
   */
  datatype Nullish<+T> = Undefined | Null | Defined(value: T)

  /** `a ?? b` where `b` may itself be nullish. */
  function OrElse<T>(a: Nullish<T>, b: Nullish<T>): Nullish<T> {
    match a
    case Defined(_) => a
    case _ => b
  }

  /** `a ?? fallback` where `fallback` is a plain value. */
  function Coalesce<T>(a: Nullish<T>, fallback: T): T {
    match a
    case Defined(v) => v
    case _ => fallback
  }

  /** `s.startsWith(p)` */
  predicate StartsWith(s: string, p: string) {
    |p| <= |s| && s[..|p|] == p
  }

  function Min(a: int, b: int): int {
    if a <= b then a else b
  }
}
