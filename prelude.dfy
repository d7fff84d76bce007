/** Shared vocabulary: octets, optional values, results, and the integer
    operators of JavaScript that differ from Dafny's. */
module Prelude {

  /** An octet, as stored in a Uint8Array. */
  newtype byte = x: int | 0 <= x < 256

  datatype Option<+T> = None | Some(value: T)

  datatype Result<+T, +E> = Success(value: T) | Failure(error: E)

  /** JavaScript's `a % b` on integers: the remainder truncates toward zero,
      so it takes the sign of the dividend (Dafny's `%` is Euclidean). */
  function JsRem(a: int, b: int): (r: int)
    requires b > 0
    ensures a >= 0 ==> 0 <= r < b
    ensures a < 0 ==> -b < r <= 0
  {
    if a >= 0 then a % b else -((-a) % b)
  }

  /** The idiom `((a % 7) + 7) % 7` normalises a truncating remainder to the
      mathematical (non-negative) one. */
  lemma WeekRemNormalised(a: int)
    ensures JsRem(JsRem(a, 7) + 7, 7) == a % 7
  {
  }

  /** Days modulo 7: the next day is one more, cyclically, and a week later
      is the same. */
  lemma WeekRemShift(a: int)
    ensures (a + 1) % 7 == (a % 7 + 1) % 7
    ensures (a + 7) % 7 == a % 7
  {
    var q, r := a / 7, a % 7;
    assert a == 7 * q + r && 0 <= r < 7;
    assert a + 7 == 7 * (q + 1) + r;
    if r < 6 {
      assert a + 1 == 7 * q + (r + 1);
    } else {
      assert a + 1 == 7 * (q + 1);
    }
  }

  /** `Math.min` and `Math.max` on integers. */
  function Min(a: int, b: int): int { if a <= b then a else b }
  function Max(a: int, b: int): int { if a >= b then a else b }
}
