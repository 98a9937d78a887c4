/** Division by a positive number. */
module Arithmetic {
  /** Clock ticks in one second. */
  type Rate = r: nat | r > 0 witness 1

  lemma Grows(k: int, d: Rate)
    ensures k >= 1 ==> k * d >= d
    ensures k <= -1 ==> k * d + d <= 0
    ensures k == 0 ==> k * d == 0
  {
  }

  lemma QuotientIs(n: int, d: Rate, q: int, r: int)
    requires n == q * d + r && 0 <= r < d
    ensures n / d == q && n % d == r
  {
    var k := n / d - q;
    assert n == n / d * d + n % d;
    assert k * d == r - n % d;
    Grows(k, d);
  }
}
