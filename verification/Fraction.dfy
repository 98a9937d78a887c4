/** What the digits after the decimal mark add, in clock ticks. */
module Fraction {
  import opened Decimal
  import opened Arithmetic
  import opened KeyOrder

  function Pow10(n: nat): (p: nat)
    ensures p > 0
  {
    if n == 0 then 1 else 10 * Pow10(n - 1)
  }

  /** Each digit weighs a tenth of what the one before it did, rounded down to ticks. */
  function FractionOf(digits: string, scale: nat): int {
    if digits == "" then 0 else DigitOf(digits[0]) * (scale / 10) + FractionOf(digits[1..], scale / 10)
  }

  /** The digits as a decimal fraction of the scale, truncated to ticks. */
  function Truncated(digits: string, scale: nat): int {
    ValueOf(digits) * scale / Pow10(|digits|)
  }

  function DigitSum(n: nat): nat {
    if n == 0 then 0 else n % 10 + DigitSum(n / 10)
  }

  // ---- Laws ------------------------------------------------------------------------------

  /** A fraction stays below one second, at any tick rate. */
  lemma {:induction false} FractionIsBelow(digits: string, scale: nat)
    requires AllDigits(digits)
    ensures 0 <= FractionOf(digits, scale) && (scale == 0 ==> FractionOf(digits, scale) == 0)
    ensures scale > 0 ==> FractionOf(digits, scale) < scale
    decreases |digits|
  {
    if digits != "" {
      var tenth := scale / 10;
      assert digits[0] in digits && forall c | c in digits[1..] :: c in digits;
      FractionIsBelow(digits[1..], tenth);
      var d := DigitOf(digits[0]);
      Weighed(d, tenth);
    }
  }

  lemma Weighed(d: int, tenth: nat)
    requires 0 <= d <= 9
    ensures 0 <= d * tenth <= 9 * tenth
  {
  }

  lemma {:induction false} ValueCons(digits: string)
    requires digits != ""
    ensures ValueOf(digits) == DigitOf(digits[0]) * Pow10(|digits| - 1) + ValueOf(digits[1..])
    decreases |digits|
  {
    var n := |digits| - 1;
    if n > 0 {
      hide DigitOf;
      ValueCons(digits[..n]);
      assert digits[..n][1..] == digits[1..][..n - 1];
      Regroup(DigitOf(digits[0]), Pow10(n - 1), ValueOf(digits[1..][..n - 1]), DigitOf(digits[n]));
    }
  }

  lemma Regroup(d: int, p: int, v: int, e: int)
    ensures (d * p + v) * 10 + e == d * (10 * p) + (v * 10 + e)
  {
  }

  lemma {:induction false} ValueIsBelow(digits: string)
    requires AllDigits(digits)
    ensures 0 <= ValueOf(digits) < Pow10(|digits|)
    decreases |digits|
  {
    if digits != "" {
      var n := |digits| - 1;
      assert digits[n] in digits && forall c | c in digits[..n] :: c in digits;
      ValueIsBelow(digits[..n]);
    }
  }

  lemma TenfoldQuotient(a: nat, b: Rate)
    ensures a * 10 / (b * 10) == a / b
  {
    assert a == a / b * b + a % b;
    QuotientIs(a * 10, b * 10, a / b, a % b * 10);
  }

  lemma PlusMultiple(q: nat, n: nat, d: Rate)
    ensures (q * d + n) / d == q + n / d
  {
    assert n == n / d * d + n % d;
    assert q * d + n == (q + n / d) * d + n % d;
    QuotientIs(q * d + n, d, q + n / d, n % d);
  }

  /** One digit more, in the decimal fraction. */
  lemma NextTruncated(d: nat, v: nat, p: Rate, t: nat)
    ensures (d * p + v) * (10 * t) / (10 * p) == d * t + v * t / p
  {
    var n := d * t * p + v * t;
    assert (d * p + v) * (10 * t) == n * 10;
    TenfoldQuotient(n, p);
    PlusMultiple(d * t, v * t, p);
  }

  /** At a tick rate that is a power of ten, the fraction is the decimal one, truncated. */
  lemma {:induction false} FractionIsTruncated(digits: string, k: nat)
    requires AllDigits(digits)
    ensures FractionOf(digits, Pow10(k)) == Truncated(digits, Pow10(k))
    decreases |digits|
  {
    if digits != "" {
      assert digits[0] in digits && forall c | c in digits[1..] :: c in digits;
      var p := Pow10(|digits| - 1);
      ValueCons(digits);
      ValueIsBelow(digits[1..]);
      ValueIsBelow(digits);
      if k == 0 {
        FractionIsBelow(digits, 1);
        QuotientIs(ValueOf(digits), Pow10(|digits|), 0, ValueOf(digits));
      } else {
        FractionIsTruncated(digits[1..], k - 1);
        NextTruncated(DigitOf(digits[0]), ValueOf(digits[1..]), p, Pow10(k - 1));
        assert Pow10(k) == 10 * Pow10(k - 1) && Pow10(|digits|) == 10 * p;
      }
    } else {
      QuotientIs(0, 1, 0, 0);
    }
  }

  function Nines(n: nat): string {
    if n == 0 then "" else "9" + Nines(n - 1)
  }

  /** Nines enough add up to the rate less the sum of its digits. */
  lemma {:induction false} NinesMissDigitSum(n: nat, scale: nat)
    requires scale < Pow10(n)
    ensures AllDigits(Nines(n)) && |Nines(n)| == n
    ensures FractionOf(Nines(n), scale) == scale - DigitSum(scale)
    decreases n
  {
    if n > 0 {
      NinesMissDigitSum(n - 1, scale / 10);
      assert Nines(n)[1..] == Nines(n - 1);
    }
  }

  lemma {:induction false} NinesValue(n: nat)
    ensures AllDigits(Nines(n)) && |Nines(n)| == n && ValueOf(Nines(n)) == Pow10(n) - 1
    decreases n
  {
    if n > 0 {
      NinesValue(n - 1);
      assert Nines(n)[1..] == Nines(n - 1);
      ValueCons(Nines(n));
    }
  }

  ghost predicate IsPow10(n: nat) {
    exists k: nat :: n == Pow10(k)
  }

  lemma {:induction false} DigitSumIsOne(n: nat)
    ensures DigitSum(n) == 1 <==> IsPow10(n)
    ensures DigitSum(n) == 0 <==> n == 0
    decreases n
  {
    if n > 0 {
      DigitSumIsOne(n / 10);
      if DigitSum(n) == 1 {
        if n % 10 == 1 {
          assert n / 10 == 0;
          assert n == Pow10(0);
        } else {
          var k: nat :| n / 10 == Pow10(k);
          assert n == Pow10(k + 1);
        }
      }
      if IsPow10(n) {
        var k: nat :| n == Pow10(k);
        if k > 0 {
          var j: nat := k - 1;
          QuotientIs(n, 10, Pow10(j), 0);
          assert n / 10 == Pow10(j);
        } else {
          assert n == 1 && n / 10 == 0;
        }
      }
    }
  }

  lemma {:induction false} BelowPow10(n: nat)
    ensures n < Pow10(n)
  {
    if n > 0 {
      BelowPow10(n - 1);
    }
  }

  lemma NinesQuotient(p: Rate, rate: Rate)
    requires rate < p
    ensures (p - 1) * rate / p == rate - 1
  {
    assert (p - 1) * rate == (rate - 1) * p + (p - rate);
    QuotientIs((p - 1) * rate, p, rate - 1, p - rate);
  }

  ghost predicate FractionsAreDecimal(rate: Rate) {
    forall digits | AllDigits(digits) :: FractionOf(digits, rate) == Truncated(digits, rate)
  }

  /** Exactly then: at any other rate some fraction comes out too small. */
  lemma DecimalAtPowersOfTen(rate: Rate)
    ensures FractionsAreDecimal(rate) <==> IsPow10(rate)
  {
    if IsPow10(rate) {
      var k: nat :| rate == Pow10(k);
      forall digits | AllDigits(digits) ensures FractionOf(digits, rate) == Truncated(digits, rate) {
        FractionIsTruncated(digits, k);
      }
    }
    if FractionsAreDecimal(rate) {
      var n := rate;
      BelowPow10(n);
      NinesMissDigitSum(n, rate);
      NinesValue(n);
      var p := Pow10(n);
      assert FractionOf(Nines(n), rate) == Truncated(Nines(n), rate);
      NinesQuotient(p, rate);
      DigitSumIsOne(rate);
    }
  }
}
