/**
 Integer arithmetic that several modules need.
 */
module Arithmetic {
  function Min(a: int, b: int): int {
    if a < b then a else b
  }

  lemma DividedBy(a: int, b: int, q: int, r: int)
    requires 0 <= r < b && a == b * q + r
    ensures a / b == q && a % b == r
  {
    var q', r' := a / b, a % b;
    assert b * (q' - q) == r - r';
    if q' - q >= 1 {
      Multiple(b, q' - q);
    } else if q - q' >= 1 {
      Multiple(b, q - q');
    }
  }

  lemma Multiple(b: int, k: int)
    requires 0 < b
    ensures k >= 1 ==> b * k >= b && b * -k <= -b
  {
  }
}
