/** Bytes, and facts about integer division. */
module Arithmetic {

  /** uint8_t */
  type byte = b: int | 0 <= b < 256

  function Max(a: int, b: int): int {
    if a < b then b else a
  }

  function Min(a: int, b: int): int {
    if a < b then a else b
  }

  /** Quotient and remainder are determined by the equation between them. */
  lemma DivisionIsUnique(x: int, q: int, r: int, n: nat)
    requires 0 <= r < n && x == q * n + r
    ensures x / n == q && x % n == r
  {
    var k := q - x / n;
    assert k * n == x % n - r by {
      assert x == (x / n) * n + x % n;
      assert k * n == q * n - (x / n) * n;
    }
    assert k >= 1 ==> k * n >= n;
    assert k <= -1 ==> k * n <= -(n as int);
  }
}
