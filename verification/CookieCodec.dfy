/** Cookies and their lines in the Netscape format. */
module CookieCodec {
  import opened Basics
  import opened Decimal
  import opened Arithmetic

  /** An expiry is counted in ticks of the clock, from its epoch. */
  datatype Cookie = Cookie(
    name: string, value: string, domain: string, path: string, expires: Option<int>,
    secure: bool, httpOnly: bool, includeSubdomains: bool)

  const PREFIX := "#HttpOnly_"

  predicate IsPrefixed(domain: string) {
    PREFIX <= domain
  }

  /** Division rounding toward zero. */
  function Quotient(n: int, d: Rate): int {
    if n < 0 then -(-n / d) else n / d
  }

  function Flag(b: bool): string {
    if b then "TRUE" else "FALSE"
  }

  // ---- Writing and reading ---------------------------------------------------------------

  function DomainField(c: Cookie): string {
    (if c.httpOnly then PREFIX else "") + c.domain
  }

  function ExpiryField(c: Cookie, rate: Rate): string {
    Printed(if c.expires.Some? then Quotient(c.expires.value, rate) else 0)
  }

  function FieldsOf(c: Cookie, rate: Rate): seq<string> {
    [DomainField(c), Flag(c.includeSubdomains), c.path, Flag(c.secure), ExpiryField(c, rate), c.name, c.value]
  }

  /** The fields with tabs between them. */
  function Tabbed(fs: seq<string>): string {
    if fs == [] then ""
    else if |fs| == 1 then fs[0]
    else Tabbed(fs[..|fs| - 1]) + "\t" + fs[|fs| - 1]
  }

  function LineOf(c: Cookie, rate: Rate): string {
    Tabbed(FieldsOf(c, rate))
  }

  /** The text cut at its first tabs into at most n fields, the last one the remainder. */
  function Fields(text: string, n: nat): (fs: seq<string>)
    requires n > 0
    ensures 1 <= |fs| <= n
  {
    var tab := IndexOf(text, '\t');
    if n == 1 || tab == |text| then [text]
    else [text[..tab]] + Fields(text[tab + 1..], n - 1)
  }

  lemma {:induction false} FieldsHoldNoTab(text: string, n: nat)
    requires n > 0
    ensures forall k | 0 <= k < |Fields(text, n)| :: k == n - 1 || '\t' !in Fields(text, n)[k]
    decreases n
  {
    var tab := IndexOf(text, '\t');
    if n > 1 && tab < |text| {
      FieldsHoldNoTab(text[tab + 1..], n - 1);
    } else {
      assert tab == |text| ==> text[..tab] == text;
    }
  }

  function CookieOf(fs: seq<string>, rate: Rate): Cookie
    requires |fs| == 7
  {
    var httpOnly := IsPrefixed(fs[0]);
    var domain := if httpOnly then fs[0][|PREFIX|..] else fs[0];
    var expires := Scanned(fs[4]);
    Cookie(fs[5], fs[6], domain, fs[2], if expires == 0 then None else Some(expires * rate),
           fs[3] == "TRUE", httpOnly, fs[1] == "TRUE")
  }

  function Parsed(line: string, rate: Rate): Option<Cookie> {
    var fs := Fields(line, 7);
    if |fs| == 7 then Some(CookieOf(fs, rate)) else None
  }

  // ---- The round trip --------------------------------------------------------------------

  /** A cookie that a line can carry: no tab but in the value, an expiry in whole seconds
      other than the epoch, and a domain that does not look prefixed when it is not. */
  predicate Clean(c: Cookie, rate: Rate) {
    && '\t' !in c.domain && '\t' !in c.path && '\t' !in c.name
    && (c.httpOnly || !IsPrefixed(c.domain))
    && (c.expires.Some? ==>
          c.expires.value % rate == 0 && c.expires.value != 0 && Fits(Quotient(c.expires.value, rate)))
  }

  /** A field, a tab, and what follows. */
  function Before(field: string, rest: string): string {
    field + "\t" + rest
  }

  lemma NextField(field: string, rest: string, n: nat)
    requires '\t' !in field && n > 0
    ensures Fields(Before(field, rest), n + 1) == [field] + Fields(rest, n)
  {
    IndexAfter(field, '\t', rest);
    assert field + ['\t'] + rest == field + "\t" + rest;
  }

  lemma {:induction false} TabbedFront(field: string, fs: seq<string>)
    requires fs != []
    ensures Tabbed([field] + fs) == Before(field, Tabbed(fs))
    decreases |fs|
  {
    var n := |fs| - 1;
    assert ([field] + fs)[..n + 1] == [field] + fs[..n];
    if n > 0 {
      TabbedFront(field, fs[..n]);
    } else {
      assert [field] + fs[..n] == [field];
    }
  }

  lemma {:induction false} FieldsOfTabbed(fs: seq<string>)
    requires fs != [] && forall k | 0 <= k < |fs| - 1 :: '\t' !in fs[k]
    ensures Fields(Tabbed(fs), |fs|) == fs
    decreases |fs|
  {
    if |fs| > 1 {
      FieldThenTabbed(fs[0], fs[1..]);
      hide Tabbed, Fields;
      FieldsOfTabbed(fs[1..]);
      assert fs == [fs[0]] + fs[1..];
    } else {
      FieldAlone(fs[0]);
      assert fs == [fs[0]];
    }
  }

  lemma {:induction false} FieldAlone(field: string)
    ensures Fields(Tabbed([field]), 1) == [field]
  {
  }

  lemma {:induction false} FieldThenTabbed(field: string, rest: seq<string>)
    requires rest != [] && '\t' !in field
    ensures Fields(Tabbed([field] + rest), |rest| + 1) == [field] + Fields(Tabbed(rest), |rest|)
  {
    hide Tabbed, Fields, Before;
    TabbedFront(field, rest);
    NextField(field, Tabbed(rest), |rest|);
  }

  lemma WholeSeconds(ticks: int, rate: Rate)
    ensures Quotient(ticks, rate) * rate == ticks <==> ticks % rate == 0
  {
    if ticks < 0 {
      assert -ticks == -ticks / rate * rate + -ticks % rate;
      Negated(-ticks, rate);
    } else {
      assert ticks == ticks / rate * rate + ticks % rate;
    }
  }

  lemma Negated(n: int, d: Rate)
    ensures -n % d == 0 <==> n % d == 0
  {
    var q, r := n / d, n % d;
    assert n == q * d + r;
    if r == 0 {
      assert -n == -q * d + 0;
      QuotientIs(-n, d, -q, 0);
    } else {
      assert -n == (-q - 1) * d + (d - r);
      QuotientIs(-n, d, -q - 1, d - r);
    }
  }

  lemma ExpiryScanned(c: Cookie, rate: Rate)
    requires Clean(c, rate)
    ensures var n := Scanned(ExpiryField(c, rate));
      c.expires == if n == 0 then None else Some(n * rate)
  {
    var n := if c.expires.Some? then Quotient(c.expires.value, rate) else 0;
    ScannedPrinted(n);
    if c.expires.Some? {
      WholeSeconds(c.expires.value, rate);
    }
  }

  lemma DomainRead(c: Cookie)
    requires c.httpOnly || !IsPrefixed(c.domain)
    requires '\t' !in c.domain
    ensures IsPrefixed(DomainField(c)) == c.httpOnly && '\t' !in DomainField(c)
    ensures c.domain == if c.httpOnly then DomainField(c)[|PREFIX|..] else DomainField(c)
  {
    assert '\t' !in PREFIX && "" + c.domain == c.domain;
  }

  lemma CleanIsRead(c: Cookie, rate: Rate)
    requires Clean(c, rate)
    ensures Parsed(LineOf(c, rate), rate) == Some(c)
  {
    hide Quotient, Scanned, Fields, Tabbed, DomainField, Fits;
    var fs := FieldsOf(c, rate);
    DomainRead(c);
    PrintedChars(if c.expires.Some? then Quotient(c.expires.value, rate) else 0);
    ExpiryScanned(c, rate);
    hide ExpiryField;
    FieldsOfTabbed(fs);
  }

  /** Nothing but clean cookies is ever read, whatever the line holds. */
  lemma {:induction false} ParsedIsClean(line: string, rate: Rate)
    ensures var c := Parsed(line, rate); c.Some? ==> Clean(c.value, rate)
  {
    var fs := Fields(line, 7);
    FieldsHoldNoTab(line, 7);
    if |fs| == 7 {
      hide Fields;
      var n := Scanned(fs[4]);
      hide Scanned;
      WholeProduct(n, rate);
    }
  }

  lemma WholeProduct(n: int, rate: Rate)
    ensures n * rate % rate == 0 && Quotient(n * rate, rate) == n
    ensures n * rate == 0 <==> n == 0
  {
    QuotientIs(n * rate, rate, n, 0);
    assert -(n * rate) == -n * rate;
    QuotientIs(-(n * rate), rate, -n, 0);
    Grows(n, rate);
  }

  /** Reading a cookie's line gives the cookie back exactly when it is clean. */
  lemma ParsedInvertsLine(c: Cookie, rate: Rate)
    ensures Parsed(LineOf(c, rate), rate) == Some(c) <==> Clean(c, rate)
  {
    hide Clean, Parsed, LineOf;
    if Clean(c, rate) {
      CleanIsRead(c, rate);
    }
    ParsedIsClean(LineOf(c, rate), rate);
  }

  function Tabs(text: string): nat {
    if text == "" then 0 else (if text[0] == '\t' then 1 else 0) + Tabs(text[1..])
  }

  lemma {:induction false} TabsAfter(text: string)
    ensures var k := IndexOf(text, '\t'); Tabs(text) == if k == |text| then 0 else 1 + Tabs(text[k + 1..])
    decreases |text|
  {
    if text != "" && text[0] != '\t' {
      TabsAfter(text[1..]);
      var k := IndexOf(text[1..], '\t');
      assert k < |text[1..]| ==> text[1..][k + 1..] == text[k + 2..];
    }
  }

  lemma {:induction false} FieldCount(text: string, n: nat)
    requires n > 0
    ensures |Fields(text, n)| == if Tabs(text) < n then Tabs(text) + 1 else n
    decreases n
  {
    TabsAfter(text);
    var k := IndexOf(text, '\t');
    if n > 1 && k < |text| {
      FieldCount(text[k + 1..], n - 1);
    }
  }

  /** A line is a cookie exactly when it has six tabs or more. */
  lemma ReadWithSixTabs(line: string, rate: Rate)
    ensures Parsed(line, rate).Some? <==> Tabs(line) >= 6
  {
    FieldCount(line, 7);
  }

  /** The seven columns of a line. */
  lemma {:induction false} LineColumns(c: Cookie, rate: Rate)
    ensures LineOf(c, rate) ==
      (if c.httpOnly then "#HttpOnly_" else "") + c.domain + "\t" + (if c.includeSubdomains then "TRUE" else "FALSE") + "\t"
      + c.path + "\t" + (if c.secure then "TRUE" else "FALSE") + "\t" + ExpiryField(c, rate) + "\t" + c.name + "\t" + c.value
  {
    var fs := FieldsOf(c, rate);
    hide ExpiryField;
    assert Tabbed(fs[..1]) == fs[0];
    Appended(fs, 1);
    Appended(fs, 2);
    Appended(fs, 3);
    Appended(fs, 4);
    Appended(fs, 5);
    Appended(fs, 6);
    assert fs[..7] == fs;
  }

  lemma Appended(fs: seq<string>, k: nat)
    requires 0 < k < |fs|
    ensures Tabbed(fs[..k + 1]) == Tabbed(fs[..k]) + "\t" + fs[k]
  {
    assert fs[..k + 1][..k] == fs[..k];
  }

  /** The fifth column: no expiry is 0; one at or after the epoch is the digits of its whole
      seconds, one before it a minus and the digits of the seconds before. */
  lemma ExpiryColumn(c: Cookie, rate: Rate, seconds: nat, ticks: nat)
    requires ticks < rate
    ensures c.expires == None ==> ExpiryField(c, rate) == "0"
    ensures c.expires == Some(seconds * rate + ticks) ==>
              AllDigits(ExpiryField(c, rate)) && ValueOf(ExpiryField(c, rate)) == seconds
    ensures seconds > 0 && c.expires == Some(0 - (seconds * rate + ticks)) ==>
              var f := ExpiryField(c, rate); f[0] == '-' && AllDigits(f[1..]) && ValueOf(f[1..]) == seconds
  {
    QuotientIs(seconds * rate + ticks, rate, seconds, ticks);
    ValueOfDigits(seconds);
    hide ValueOf;
    if seconds > 0 && c.expires == Some(0 - (seconds * rate + ticks)) {
      Grows(seconds, rate);
      assert Quotient(c.expires.value, rate) == 0 - seconds;
      assert ("-" + Digits(seconds))[1..] == Digits(seconds);
    }
  }

  /** What each column of a line means when it is read. */
  lemma {:induction false} ColumnsRead(f: seq<string>, rate: Rate)
    requires |f| == 7 && forall k | 0 <= k < 6 :: '\t' !in f[k]
    ensures var r := Parsed(Tabbed(f), rate);
      && r.Some?
      && r.value.httpOnly == ("#HttpOnly_" <= f[0])
      && r.value.domain == (if "#HttpOnly_" <= f[0] then f[0][10..] else f[0])
      && r.value.includeSubdomains == (f[1] == "TRUE") && r.value.path == f[2] && r.value.secure == (f[3] == "TRUE")
      && r.value.expires == (if Scanned(f[4]) == 0 then None else Some(Scanned(f[4]) * rate))
      && r.value.name == f[5] && r.value.value == f[6]
  {
    FieldsOfTabbed(f);
    hide Fields, Tabbed, Scanned;
  }

  // ---- The loop --------------------------------------------------------------------------

  method SplitFields(line: string) returns (fs: seq<string>)
    ensures fs == Fields(line, 7)
  {
    hide IndexOf, Fields;
    fs := [];
    var start := 0;
    assert line[0..] == line;
    while |fs| < 7
      invariant |fs| < 7 && start <= |line|
      invariant fs + Fields(line[start..], 7 - |fs|) == Fields(line, 7)
      decreases 7 - |fs|
    {
      var tab := |line|;
      FieldsAt(line, start, 7 - |fs|);
      if |fs| != 6 {
        tab := Find(line, '\t', start);
      }
      if tab == |line| {
        return fs + [line[start..]];
      }
      ghost var rest := Fields(line[tab + 1..], 6 - |fs|);
      assert fs + ([line[start..tab]] + rest) == fs + [line[start..tab]] + rest;
      fs := fs + [line[start..tab]];
      start := tab + 1;
    }
  }

  lemma FieldsAt(line: string, start: nat, n: nat)
    requires n > 0 && start <= |line|
    ensures var tab := start + IndexOf(line[start..], '\t');
      Fields(line[start..], n) ==
        if n == 1 || tab == |line| then [line[start..]] else [line[start..tab]] + Fields(line[tab + 1..], n - 1)
  {
    hide IndexOf;
    var tab := start + IndexOf(line[start..], '\t');
    assert line[start..][..tab - start] == line[start..tab];
    assert tab < |line| ==> line[start..][tab - start + 1..] == line[tab + 1..];
  }

  method ToNetscapeLine(c: Cookie, rate: Rate) returns (line: string)
    ensures line == LineOf(c, rate)
  {
    ghost var fs := FieldsOf(c, rate);
    line := "";
    if c.httpOnly {
      line := line + PREFIX;
    }
    line := line + c.domain;
    assert line == Tabbed(fs[..1]) && fs[..7] == fs && LineOf(c, rate) == Tabbed(fs);
    hide ExpiryField, DomainField, Flag, Tabbed, LineOf;
    line := Append(fs, 1, line, Flag(c.includeSubdomains));
    line := Append(fs, 2, line, c.path);
    line := Append(fs, 3, line, Flag(c.secure));
    line := Append(fs, 4, line, ExpiryField(c, rate));
    line := Append(fs, 5, line, c.name);
    line := Append(fs, 6, line, c.value);
  }

  method Append(ghost fs: seq<string>, ghost k: nat, line: string, field: string) returns (longer: string)
    requires 0 < k < |fs| && line == Tabbed(fs[..k]) && field == fs[k]
    ensures longer == Tabbed(fs[..k + 1])
  {
    assert fs[..k + 1][..k] == fs[..k];
    longer := line + "\t" + field;
  }

  method ParseNetscapeLine(line: string, rate: Rate) returns (c: Option<Cookie>)
    ensures c == Parsed(line, rate)
  {
    hide Fields, Scanned;
    var fs := SplitFields(line);
    if |fs| != 7 {
      return None;
    }
    var domain, httpOnly := fs[0], false;
    if IsPrefixed(domain) {
      httpOnly := true;
      domain := domain[|PREFIX|..];
    }
    var expires := Scanned(fs[4]);
    c := Some(Cookie(fs[5], fs[6], domain, fs[2], if expires != 0 then Some(expires * rate) else None,
                     fs[3] == "TRUE", httpOnly, fs[1] == "TRUE"));
  }
}
