/** Percent-encoding of bytes, after sections 2.1 to 2.3 of RFC 3986. */
module UrlEncode {
  import opened Basics

  type Byte = c: char | c as int < 256 witness 'a'

  type Bytes = seq<Byte>

  predicate IsUnreserved(c: Byte) {
    || 'A' <= c <= 'Z' || 'a' <= c <= 'z' || '0' <= c <= '9'
    || c == '-' || c == '.' || c == '_' || c == '~'
  }

  predicate IsUriChar(c: Byte) {
    || IsUnreserved(c) || c == '%'
    || c in [':', '/', '?', '#', '[', ']', '@', '!', '$', '&', '\'', '(', ')', '*', '+', ',', ';', '=']
  }

  function HexChar(n: nat): Byte
    requires n < 16
  {
    if n < 10 then ('0' as int + n) as char else ('A' as int + n - 10) as char
  }

  function Escape(c: Byte): Bytes {
    ['%', HexChar(c as int / 16), HexChar(c as int % 16)]
  }

  /** Every byte that is not kept becomes an escape. */
  function Encoded(s: Bytes, keep: Byte -> bool): Bytes {
    if s == [] then []
    else
      var last := s[|s| - 1];
      Encoded(s[..|s| - 1], keep) + if keep(last) then [last] else Escape(last)
  }

  function Component(s: Bytes): Bytes {
    Encoded(s, IsUnreserved)
  }

  function Uri(s: Bytes): Bytes {
    Encoded(s, IsUriChar)
  }

  /** An escape stands at the beginning. */
  predicate EscapeAhead(s: Bytes) {
    |s| > 2 && s[0] == '%' && HexDigit(s[1]) >= 0 && HexDigit(s[2]) >= 0
  }

  function Named(s: Bytes): Byte
    requires EscapeAhead(s)
  {
    (HexDigit(s[1]) * 16 + HexDigit(s[2])) as char
  }

  /** Each escape becomes the byte it names; anything else stays. */
  function Decoded(s: Bytes): Bytes {
    if s == [] then []
    else if EscapeAhead(s) then [Named(s)] + Decoded(s[3..])
    else [s[0]] + Decoded(s[1..])
  }

  // ---- Laws ------------------------------------------------------------------------------

  lemma HexRoundTrip(n: nat)
    requires n < 16
    ensures HexDigit(HexChar(n)) == n && IsUnreserved(HexChar(n))
  {
  }

  lemma EscapeDecodes(c: Byte, rest: Bytes)
    ensures EscapeAhead(Escape(c) + rest)
    ensures Decoded(Escape(c) + rest) == [c] + Decoded(rest)
  {
    HexRoundTrip(c as int / 16);
    HexRoundTrip(c as int % 16);
    assert (Escape(c) + rest)[3..] == rest;
  }

  lemma {:induction false} EncodedCons(s: Bytes, keep: Byte -> bool)
    requires s != []
    ensures Encoded(s, keep) == (if keep(s[0]) then [s[0]] else Escape(s[0])) + Encoded(s[1..], keep)
    decreases |s|
  {
    hide Escape;
    if |s| > 1 {
      var n := |s| - 1;
      EncodedCons(s[..n], keep);
      assert s[..n][1..] == s[1..][..n - 1];
    }
  }

  /** Bytes that are kept only stand where they stood; escapes are made of kept ones. */
  lemma {:induction false} EncodedIsKept(s: Bytes, keep: Byte -> bool, c: Byte)
    requires c in Encoded(s, keep)
    ensures keep(c) || c == '%' || IsUnreserved(c)
    decreases |s|
  {
    var n := |s| - 1;
    if c in Encoded(s[..n], keep) {
      EncodedIsKept(s[..n], keep, c);
    } else {
      HexRoundTrip(s[n] as int / 16);
      HexRoundTrip(s[n] as int % 16);
    }
  }

  /** Escaping a byte that decoding would not read as part of an escape leaves the decoded
      text as it was, whether or not '%' itself is escaped. */
  lemma {:induction false} DecodedUri(s: Bytes)
    ensures Decoded(Uri(s)) == Decoded(s)
    decreases |s|
  {
    hide Encoded, Escape;
    if s == [] {
      NothingEncoded(IsUriChar);
    } else {
      EncodedCons(s, IsUriChar);
      DecodedUri(s[1..]);
      if !IsUriChar(s[0]) {
        EscapeDecodes(s[0], Uri(s[1..]));
      } else if EscapeAhead(s) {
        EncodedCons(s[1..], IsUriChar);
        EncodedCons(s[2..], IsUriChar);
        DecodedUri(s[3..]);
        assert s[1..][1..] == s[2..] && s[2..][1..] == s[3..];
        assert Uri(s) == [s[0]] + ([s[1]] + ([s[2]] + Uri(s[3..])));
        assert Uri(s) == [s[0], s[1], s[2]] + Uri(s[3..]) && Uri(s)[3..] == Uri(s[3..]);
      } else {
        NoEscapeMade(s);
        assert Uri(s)[1..] == Uri(s[1..]);
      }
    }
  }

  lemma NothingEncoded(keep: Byte -> bool)
    ensures Encoded([], keep) == []
  {
  }

  /** A hexadecimal digit heads the encoded text only where it headed the text. */
  lemma HexAhead(s: Bytes)
    requires s != []
    ensures Uri(s) != []
    ensures if HexDigit(s[0]) >= 0 then Uri(s) == [s[0]] + Uri(s[1..]) else HexDigit(Uri(s)[0]) < 0
  {
    EncodedCons(s, IsUriChar);
  }

  lemma NoEscapeMade(s: Bytes)
    requires s != [] && IsUriChar(s[0]) && !EscapeAhead(s)
    ensures Uri(s) == [s[0]] + Uri(s[1..]) && !EscapeAhead(Uri(s))
  {
    hide Encoded, HexDigit, IsUriChar;
    EncodedCons(s, IsUriChar);
    NothingEncoded(IsUriChar);
    if |s| > 1 {
      HexAhead(s[1..]);
      assert Uri(s)[1] == Uri(s[1..])[0] && s[1..][1..] == s[2..];
      if |s| == 2 {
        assert s[2..] == [];
      } else if HexDigit(s[1]) >= 0 {
        HexAhead(s[2..]);
        assert Uri(s)[2] == Uri(s[2..])[0];
      }
    } else {
      assert s[1..] == [];
    }
  }

  /** url_decode inverts url_encode on all bytes. */
  lemma {:induction false} DecodedComponent(s: Bytes)
    ensures Decoded(Component(s)) == s
    decreases |s|
  {
    hide Encoded, Escape;
    if s == [] {
      NothingEncoded(IsUnreserved);
    } else {
      EncodedCons(s, IsUnreserved);
      DecodedComponent(s[1..]);
      if IsUnreserved(s[0]) {
        assert Component(s)[1..] == Component(s[1..]);
      } else {
        EscapeDecodes(s[0], Component(s[1..]));
      }
    }
  }

  /** url_encode_uri changes nothing exactly on what is made of URI characters, and what it
      makes is; so a second time changes nothing. */
  lemma {:induction false} UriIsIdempotent(s: Bytes)
    ensures Uri(s) == s <==> forall c | c in s :: IsUriChar(c)
    ensures Uri(Uri(s)) == Uri(s)
  {
    hide Encoded, IsUriChar;
    UriFixes(s);
    UriFixes(Uri(s));
    forall c: Byte | c in Uri(s) ensures IsUriChar(c) {
      EncodedIsKept(s, IsUriChar, c);
      KeptIsUri(c);
    }
  }

  lemma KeptIsUri(c: Byte)
    ensures c == '%' || IsUnreserved(c) ==> IsUriChar(c)
  {
  }

  lemma {:induction false} UriFixes(s: Bytes)
    ensures |Uri(s)| >= |s|
    ensures Uri(s) == s <==> forall c | c in s :: IsUriChar(c)
    decreases |s|
  {
    hide IsUriChar;
    if s != [] {
      var n := |s| - 1;
      UriFixes(s[..n]);
      assert s == s[..n] + [s[n]];
      assert forall c :: c in s <==> c in s[..n] || c == s[n];
      if Uri(s) == s && IsUriChar(s[n]) {
        assert (Uri(s[..n]) + [s[n]])[..n] == Uri(s[..n]);
      }
    }
  }

  // ---- The alphabet ----------------------------------------------------------------------

  const UPPER: string := "0123456789ABCDEF"
  const LOWER: string := "0123456789abcdef"

  /** A letter, a digit, or one of four marks. */
  predicate IsPlain(c: char) {
    'a' <= c <= 'z' || 'A' <= c <= 'Z' || '0' <= c <= '9' || c in "-._~"
  }

  /** A byte as two upper-case digits behind a percent sign. */
  function Spelled(c: Byte): string {
    "%" + [UPPER[c as int / 16], UPPER[c as int % 16]]
  }

  lemma EscapeIsSpelled(c: Byte)
    ensures Escape(c) == Spelled(c)
  {
    assert forall n: nat | n < 16 :: HexChar(n) == UPPER[n];
  }

  lemma EncodedSnoc(s: Bytes, c: Byte, keep: Byte -> bool)
    ensures Encoded(s + [c], keep) == Encoded(s, keep) + if keep(c) then [c] else Escape(c)
  {
    hide Escape;
    assert (s + [c])[..|s|] == s;
  }

  lemma {:induction false} EncodedConcat(s: Bytes, t: Bytes, keep: Byte -> bool)
    ensures Encoded(s + t, keep) == Encoded(s, keep) + Encoded(t, keep)
    decreases |t|
  {
    hide Encoded, Escape;
    if t == [] {
      NothingEncoded(keep);
      assert s + t == s;
      assert forall e: Bytes :: e + [] == e;
    } else {
      var n := |t| - 1;
      assert s + t == (s + t[..n]) + [t[n]] && t == t[..n] + [t[n]];
      EncodedSnoc(s + t[..n], t[n], keep);
      EncodedSnoc(t[..n], t[n], keep);
      EncodedConcat(s, t[..n], keep);
    }
  }

  /** A component is encoded byte by byte: letters, digits and the marks - . _ ~ stay, and every
      other byte is spelled with two upper-case digits. */
  lemma ComponentIs(s: Bytes, c: Byte, t: Bytes)
    ensures Component(s + [c] + t) == Component(s) + (if IsPlain(c) then [c] else Spelled(c)) + Component(t)
    ensures Component([]) == ""
  {
    EncodedConcat(s + [c], t, IsUnreserved);
    EncodedConcat(s, [c], IsUnreserved);
    EscapeIsSpelled(c);
    assert [c][..0] == [];
    hide Escape;
    assert Encoded([c], IsUnreserved) == if IsUnreserved(c) then [c] else Escape(c);
  }

  /** A URI too, where its delimiters and the percent sign stay as well. */
  lemma UriIs(s: Bytes, c: Byte, t: Bytes)
    ensures Uri(s + [c] + t) == Uri(s) + (if IsPlain(c) || c in ":/?#[]@!$&'()*+,;=%" then [c] else Spelled(c)) + Uri(t)
    ensures Uri([]) == ""
  {
    EncodedConcat(s + [c], t, IsUriChar);
    EncodedConcat(s, [c], IsUriChar);
    EscapeIsSpelled(c);
    assert [c][..0] == [];
    hide Escape;
    assert Encoded([c], IsUriChar) == if IsUriChar(c) then [c] else Escape(c);
  }

  lemma DigitIsRead(c: char, n: nat)
    requires n < 16
    ensures HexDigit(c) == n <==> c == UPPER[n] || c == LOWER[n]
  {
  }

  /** A percent sign and two digits of either case are the byte they name. */
  lemma EscapeIsRead(hi: nat, lo: nat, a: Byte, b: Byte, rest: Bytes)
    requires hi < 16 && lo < 16
    requires (a == UPPER[hi] || a == LOWER[hi]) && (b == UPPER[lo] || b == LOWER[lo])
    ensures Decoded(['%', a, b] + rest) == [(hi * 16 + lo) as char] + Decoded(rest)
  {
    DigitIsRead(a, hi);
    DigitIsRead(b, lo);
    assert (['%', a, b] + rest)[3..] == rest;
  }

  /** Everything else is copied: what is no percent sign, and a percent sign that is not
      followed by two digits. */
  lemma OthersAreCopied(c: Byte, rest: Bytes)
    requires c != '%' || |rest| < 2 || rest[0] !in UPPER + LOWER || rest[1] !in UPPER + LOWER
    ensures Decoded([c] + rest) == [c] + Decoded(rest)
  {
    var s := [c] + rest;
    assert s[1..] == rest;
    if EscapeAhead(s) {
      DigitIsRead(rest[0], HexDigit(rest[0]));
      DigitIsRead(rest[1], HexDigit(rest[1]));
    }
  }

  // ---- The loops -------------------------------------------------------------------------

  method UrlEncode(value: Bytes) returns (out: Bytes)
    ensures out == Component(value)
  {
    out := [];
    for i := 0 to |value|
      invariant out == Component(value[..i])
    {
      assert value[..i + 1][..i] == value[..i];
      var c := value[i];
      if IsUnreserved(c) {
        out := out + [c];
      } else {
        out := out + ['%'] + [HexChar(c as int / 16)] + [HexChar(c as int % 16)];
      }
    }
    assert value[..|value|] == value;
  }

  method UrlEncodeUri(value: Bytes) returns (out: Bytes)
    ensures out == Uri(value)
  {
    out := [];
    for i := 0 to |value|
      invariant out == Uri(value[..i])
    {
      assert value[..i + 1][..i] == value[..i];
      var c := value[i];
      if IsUriChar(c) {
        out := out + [c];
        continue;
      }
      out := out + ['%'] + [HexChar(c as int / 16)] + [HexChar(c as int % 16)];
    }
    assert value[..|value|] == value;
  }

  method UrlDecode(value: Bytes) returns (out: Bytes)
    ensures out == Decoded(value)
  {
    hide Decoded, HexDigit;
    out := [];
    var i := 0;
    assert value[0..] == value;
    while i < |value|
      invariant i <= |value| && out + Decoded(value[i..]) == Decoded(value)
    {
      DecodedStep(value, i);
      var byte, next := value[i], i + 1;
      if value[i] == '%' && i + 2 < |value| {
        var hi, lo := HexDigit(value[i + 1]), HexDigit(value[i + 2]);
        if hi >= 0 && lo >= 0 {
          byte, next := (hi * 16 + lo) as char, i + 3;
        }
      }
      assert out + ([byte] + Decoded(value[next..])) == out + [byte] + Decoded(value[next..]);
      out := out + [byte];
      i := next;
    }
    DecodedStep(value, i);
  }

  lemma DecodedStep(value: Bytes, i: nat)
    requires i <= |value|
    ensures var s := value[i..];
      Decoded(s) == if s == [] then [] else if EscapeAhead(s) then [Named(s)] + Decoded(value[i + 3..]) else [value[i]] + Decoded(value[i + 1..])
  {
    var s := value[i..];
    assert s != [] ==> s[1..] == value[i + 1..];
    assert EscapeAhead(s) ==> s[3..] == value[i + 3..];
  }
}
