/** What several parts of the project use. */
module Basics {

  datatype Option<T> = None | Some(value: T)

  type Byte = b: int | 0 <= b < 256

  /** A quotient and a remainder are recognized by their equation. */
  lemma QuotientIs(n: int, d: int, q: int, r: int)
    requires 0 <= r < d && n == d * q + r
    ensures n / d == q && n % d == r
  {
    var t := n / d - q;
    assert d * t == r - n % d;
    assert t >= 1 ==> d * t >= d;
    assert t <= -1 ==> d * t <= -d;
  }
}
