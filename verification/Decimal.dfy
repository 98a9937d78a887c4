/** Numbers as decimal digits. */
module Decimal {
  predicate IsDigit(c: char) {
    '0' <= c <= '9'
  }

  function DigitOf(c: char): int {
    c as int - '0' as int
  }

  predicate AllDigits(s: string) {
    forall c | c in s :: IsDigit(c)
  }

  /** What a string of digits means, the first digit weighing most. */
  function ValueOf(s: string): int {
    if s == "" then 0 else ValueOf(s[..|s| - 1]) * 10 + DigitOf(s[|s| - 1])
  }

  function Digits(n: nat): (s: string)
    ensures s != ""
  {
    var last := [('0' as int + n % 10) as char];
    if n < 10 then last else Digits(n / 10) + last
  }

  lemma {:induction false} ValueOfDigits(n: nat)
    ensures AllDigits(Digits(n)) && ValueOf(Digits(n)) == n
  {
    var last := [('0' as int + n % 10) as char];
    if n >= 10 {
      ValueOfDigits(n / 10);
      assert Digits(n)[..|Digits(n)| - 1] == Digits(n / 10);
    } else {
      assert Digits(n) == last && ValueOf(last) == ValueOf(last[..0]) * 10 + n;
    }
  }

  /** How many digits the text begins with. */
  function DigitsAhead(s: string): (k: nat)
    ensures k <= |s| && AllDigits(s[..k]) && (k < |s| ==> !IsDigit(s[k]))
  {
    if s == "" || !IsDigit(s[0]) then 0
    else
      var k := DigitsAhead(s[1..]);
      assert s[..k + 1] == [s[0]] + s[1..][..k];
      k + 1
  }

  lemma {:induction false} DigitsAheadIs(s: string, rest: string)
    requires AllDigits(s) && (rest == "" || !IsDigit(rest[0]))
    ensures DigitsAhead(s + rest) == |s|
    decreases |s|
  {
    if s == "" {
      assert s + rest == rest;
    } else {
      assert s[0] in s && forall c | c in s[1..] :: c in s;
      assert (s + rest)[1..] == s[1..] + rest;
      DigitsAheadIs(s[1..], rest);
    }
  }

  /** Exactly w digits. */
  function Padded(n: nat, w: nat): (s: string)
    ensures |s| == w
  {
    if w == 0 then "" else Padded(n / 10, w - 1) + [('0' as int + n % 10) as char]
  }

  lemma {:induction false} PaddedValue(s: string)
    requires AllDigits(s)
    ensures ValueOf(s) >= 0 && Padded(ValueOf(s), |s|) == s
    decreases |s|
  {
    if s != "" {
      var n := |s| - 1;
      assert s[n] in s && forall c | c in s[..n] :: c in s;
      PaddedValue(s[..n]);
      var v, d := ValueOf(s[..n]), DigitOf(s[n]);
      assert ValueOf(s) == v * 10 + d;
      LastDigit(v, d);
      hide ValueOf, AllDigits;
      assert s == s[..n] + [s[n]];
    }
  }

  lemma LastDigit(v: nat, d: nat)
    requires d < 10
    ensures (v * 10 + d) / 10 == v && (v * 10 + d) % 10 == d
  {
  }

  predicate HasWidth(n: nat, w: nat) {
    if w == 0 then n == 0 else HasWidth(n / 10, w - 1)
  }

  lemma {:induction false} ValueOfPadded(n: nat, w: nat)
    requires HasWidth(n, w)
    ensures AllDigits(Padded(n, w)) && ValueOf(Padded(n, w)) == n
    decreases w
  {
    if w > 0 {
      ValueOfPadded(n / 10, w - 1);
      assert Padded(n, w)[..w - 1] == Padded(n / 10, w - 1);
    }
  }

  lemma {:induction false} ValueHasWidth(s: string)
    requires AllDigits(s)
    ensures ValueOf(s) >= 0 && HasWidth(ValueOf(s), |s|)
    decreases |s|
  {
    if s != "" {
      var n := |s| - 1;
      assert s[n] in s && forall c | c in s[..n] :: c in s;
      ValueHasWidth(s[..n]);
      assert ValueOf(s) / 10 == ValueOf(s[..n]);
    }
  }

  // ---- Signed 64-bit numbers -------------------------------------------------------------

  const LIMIT := 0x8000_0000_0000_0000

  predicate Fits(n: int) {
    -LIMIT <= n < LIMIT
  }

  function Printed(n: int): string {
    if n < 0 then "-" + Digits(-n) else Digits(n)
  }

  /** The number at the front of the text; 0 when there is none or it does not fit. */
  function Scanned(s: string): (n: int)
    ensures Fits(n)
  {
    var behind := s != "" && s[0] == '-';
    var text := if behind then s[1..] else s;
    var value := ValueOf(text[..DigitsAhead(text)]);
    var n := if behind then -value else value;
    if Fits(n) then n else 0
  }

  lemma ScannedPrinted(n: int)
    ensures Scanned(Printed(n)) == if Fits(n) then n else 0
  {
    var magnitude := if n < 0 then -n else n;
    var s := Digits(magnitude);
    ValueOfDigits(magnitude);
    DigitsAheadIs(s, "");
    assert s + "" == s && s[..|s|] == s && s[0] in s;
    hide Digits, ValueOf, DigitsAhead;
    assert n < 0 ==> Printed(n)[1..] == s;
  }

  lemma {:induction false} ScannedDigits(digits: string, rest: string)
    requires digits != "" && AllDigits(digits) && (rest == "" || !IsDigit(rest[0]))
    ensures Scanned(digits + rest) == if ValueOf(digits) < 0x8000_0000_0000_0000 then ValueOf(digits) else 0
  {
    DigitsAheadIs(digits, rest);
    PaddedValue(digits);
    assert digits[0] in digits;
    assert (digits + rest)[..|digits|] == digits && (digits + rest)[0] == digits[0];
    hide ValueOf, DigitsAhead, AllDigits;
  }

  lemma {:induction false} ScannedMinus(digits: string, rest: string)
    requires digits != "" && AllDigits(digits) && (rest == "" || !IsDigit(rest[0]))
    ensures Scanned("-" + digits + rest) == if ValueOf(digits) <= 0x8000_0000_0000_0000 then -ValueOf(digits) else 0
  {
    DigitsAheadIs(digits, rest);
    PaddedValue(digits);
    assert (digits + rest)[..|digits|] == digits;
    assert ("-" + digits + rest)[1..] == digits + rest;
    hide ValueOf, DigitsAhead, AllDigits;
  }

  /** What is scanned off a text: its leading digits, behind a minus if there is one, whatever
      follows them; and 0 for a number that does not fit or is not there. */
  lemma {:induction false} ScannedPrefix(digits: string, rest: string)
    requires digits != "" && AllDigits(digits) && (rest == "" || !IsDigit(rest[0]))
    ensures Scanned(digits + rest) == if ValueOf(digits) < 0x8000_0000_0000_0000 then ValueOf(digits) else 0
    ensures Scanned("-" + digits + rest) == if ValueOf(digits) <= 0x8000_0000_0000_0000 then -ValueOf(digits) else 0
    ensures rest == "" || rest[0] != '-' ==> Scanned(rest) == 0
  {
    ScannedDigits(digits, rest);
    ScannedMinus(digits, rest);
    DigitsAheadIs("", rest);
    assert "" + rest == rest && rest[..0] == "";
    assert ValueOf("") == 0;
    hide ValueOf, DigitsAhead, AllDigits;
  }

  /** Printed digits do not begin with a zero, but for zero itself. */
  lemma {:induction false} NoLeadingZero(n: nat)
    ensures n > 0 ==> Digits(n)[0] != '0'
    ensures Digits(0) == "0"
    decreases n
  {
    if n >= 10 {
      NoLeadingZero(n / 10);
    }
  }

  lemma PrintedChars(n: int)
    ensures forall c | c in Printed(n) :: IsDigit(c) || c == '-'
  {
    ValueOfDigits(if n < 0 then -n else n);
  }
}
