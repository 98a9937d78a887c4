/** scan_balanced: the bracket stack, and the grammar of properly nested brackets that the
    stack is proved to recognise. */
module JsBalance {
  import opened Basics
  import opened JsLexer

  // ---- The grammar -----------------------------------------------------------------------

  predicate Matches(open: char, close: char) {
    IsOpener(open) && close == CloserOf(open)
  }

  /** Properly nested brackets: nothing, or one group followed by more. */
  ghost predicate Nested(w: string)
    decreases |w|
  {
    w == [] || exists k | 0 < k < |w| :: Split(w, k)
  }

  ghost predicate Split(w: string, k: nat)
    requires 0 < k < |w|
    decreases |w|, 0
  {
    Matches(w[0], w[k]) && Nested(w[1..k]) && Nested(w[k + 1..])
  }

  /** One bracket group, closed by its last character. */
  ghost predicate Group(w: string) {
    |w| >= 2 && Matches(w[0], w[|w| - 1]) && Nested(w[1..|w| - 1])
  }

  /** The brackets among the tokens, in order. */
  function Brackets(ts: seq<Token>): string {
    if ts == [] then []
    else if |ts[0]| == 1 && (IsOpener(ts[0][0]) || IsCloser(ts[0][0])) then ts[0] + Brackets(ts[1..])
    else Brackets(ts[1..])
  }

  predicate EndsInCloser(ts: seq<Token>) {
    ts != [] && |ts[|ts| - 1]| == 1 && IsCloser(ts[|ts| - 1][0])
  }

  /** A literal as the scanner understands it: lexically closed, its brackets one group, and
      the closing bracket of that group its last token. */
  ghost predicate IsLiteral(s: string) {
    Lex(s).Some? && EndsInCloser(Lex(s).value) && Group(Brackets(Lex(s).value))
  }

  // ---- The stack -------------------------------------------------------------------------

  /** The stack after one character; None when a closing bracket does not match. */
  function Step(c: char, closers: string): Option<string> {
    if IsOpener(c) then Some(closers + [CloserOf(c)])
    else if !IsCloser(c) then Some(closers)
    else if closers == [] || closers[|closers| - 1] != c then None
    else Some(closers[..|closers| - 1])
  }

  /** Consumed length when the closers still expected (top last) first run out; zero when
      they never do or a bracket does not match. */
  function Scan(s: string, closers: string): (n: nat)
    ensures n <= |s|
    decreases |s|
  {
    if s == [] || FrontLen(s) == 0 then 0
    else if FrontLen(s) > 1 then Past(FrontLen(s), Scan(s[FrontLen(s)..], closers))
    else
      match Step(s[0], closers)
      case None => 0
      case Some(after) => if IsCloser(s[0]) && after == [] then 1 else Past(1, Scan(s[1..], after))
  }

  /** The same stack on bare brackets: it empties exactly at the last of them. */
  predicate Empties(w: string, closers: string)
    decreases |w|
  {
    w != [] &&
    if IsOpener(w[0]) then Empties(w[1..], closers + [CloserOf(w[0])])
    else
      closers != [] && closers[|closers| - 1] == w[0] &&
      if |closers| == 1 then |w| == 1 else Empties(w[1..], closers[..|closers| - 1])
  }

  // ---- Stack and grammar agree -----------------------------------------------------------

  /** Brackets that close the given closers one by one, with nested groups in between. */
  ghost predicate Unwinds(w: string, closers: string)
    decreases |closers|
  {
    if closers == [] then w == []
    else exists k | 0 <= k < |w| :: UnwindsAt(w, closers, k)
  }

  ghost predicate UnwindsAt(w: string, closers: string, k: nat)
    requires closers != [] && k < |w|
    decreases |closers|, 0
  {
    Nested(w[..k]) && w[k] == closers[|closers| - 1] && Unwinds(w[k + 1..], closers[..|closers| - 1])
  }

  predicate AllBrackets(w: string) {
    forall i | 0 <= i < |w| :: IsOpener(w[i]) || IsCloser(w[i])
  }

  /** An opened group, then brackets that unwind what was open before it. */
  lemma {:induction false} GroupThenUnwinds(w: string, closers: string)
    requires AllBrackets(w) && w != [] && IsOpener(w[0])
    requires Unwinds(w[1..], closers + [CloserOf(w[0])])
    ensures closers != [] ==> Unwinds(w, closers)
    ensures closers == [] ==> Group(w)
  {
    hide Nested, Unwinds;
    var pushed := closers + [CloserOf(w[0])];
    assert pushed[..|pushed| - 1] == closers;
    var k := UnwindsFrom(w[1..], pushed);
    var rest := w[k + 2..];
    assert w[1..][..k] == w[1..k + 1] && w[1..][k + 1..] == rest;
    assert Unwinds(rest, closers);
    if closers == [] {
      EmptyUnwinds(rest);
    } else {
      var j := UnwindsFrom(rest, closers);
      var m := k + 2 + j;
      assert w[..m] == [w[0]] + w[1..k + 1] + [w[k + 1]] + rest[..j];
      GroupThenNested(w[0], w[1..k + 1], w[k + 1], rest[..j]);
      assert w[m + 1..] == rest[j + 1..];
      UnwindsHere(w, closers, m);
    }
  }

  lemma EmptyUnwinds(w: string)
    requires Unwinds(w, [])
    ensures w == []
  {
  }

  lemma UnwindsFrom(w: string, closers: string) returns (k: nat)
    requires closers != [] && Unwinds(w, closers)
    ensures k < |w| && UnwindsAt(w, closers, k)
  {
    k :| k < |w| && UnwindsAt(w, closers, k);
  }

  lemma UnwindsHere(w: string, closers: string, k: nat)
    requires closers != [] && k < |w| && UnwindsAt(w, closers, k)
    ensures Unwinds(w, closers)
  {
  }

  lemma GroupThenNested(open: char, inner: string, close: char, outer: string)
    requires Matches(open, close) && Nested(inner) && Nested(outer)
    ensures Nested([open] + inner + [close] + outer)
  {
    var w, k := [open] + inner + [close] + outer, |inner| + 1;
    assert w[1..k] == inner && w[k + 1..] == outer && w[k] == close;
    assert Split(w, k);
  }

  lemma {:induction false} EmptiesUnwinds(w: string, closers: string)
    requires AllBrackets(w) && Empties(w, closers)
    ensures closers != [] ==> Unwinds(w, closers)
    ensures closers == [] ==> Group(w)
    decreases |w|
  {
    if IsOpener(w[0]) {
      EmptiesUnwinds(w[1..], closers + [CloserOf(w[0])]);
      GroupThenUnwinds(w, closers);
    } else {
      assert w[..0] == "";
      if |closers| == 1 {
        assert w[1..] == "" && closers[..0] == "";
      } else {
        EmptiesUnwinds(w[1..], closers[..|closers| - 1]);
      }
      assert UnwindsAt(w, closers, 0);
    }
  }

  /** Nested brackets leave the stack as they found it. */
  lemma {:induction false} NestedIsTransparent(d: string, x: string, closers: string)
    requires Nested(d) && closers != []
    ensures Empties(d + x, closers) == Empties(x, closers)
    decreases |d|
  {
    if d == [] {
      assert d + x == x;
    } else {
      var k :| 0 < k < |d| && Split(d, k);
      var inner, outer := d[1..k], d[k + 1..];
      var pushed := closers + [CloserOf(d[0])];
      assert pushed[..|pushed| - 1] == closers;
      assert (d + x)[1..] == inner + ([d[k]] + (outer + x));
      NestedIsTransparent(inner, [d[k]] + (outer + x), pushed);
      assert ([d[k]] + (outer + x))[1..] == outer + x;
      NestedIsTransparent(outer, x, closers);
    }
  }

  lemma GroupEmpties(w: string)
    requires Group(w)
    ensures Empties(w, [])
  {
    var close := [CloserOf(w[0])];
    assert [] + close == close;
    var last := w[|w| - 1..];
    assert w[1..] == w[1..|w| - 1] + last;
    NestedIsTransparent(w[1..|w| - 1], last, close);
  }

  // ---- Scanning text and lexing it agree -------------------------------------------------

  lemma BracketsAreBrackets(ts: seq<Token>)
    ensures AllBrackets(Brackets(ts))
  {
  }

  lemma LexStep(a: string, n: nat)
    requires a != [] && n == FrontLen(a) > 0 && Lex(a[n..]).Some?
    ensures Lex(a) == Some([a[..n]] + Lex(a[n..]).value)
    ensures Brackets(Lex(a).value)
         == (if n == 1 && (IsOpener(a[0]) || IsCloser(a[0])) then [a[0]] else []) + Brackets(Lex(a[n..]).value)
    ensures Lex(a[n..]).value != [] ==> EndsInCloser(Lex(a).value) == EndsInCloser(Lex(a[n..]).value)
  {
    hide FrontLen;
    var rest := Lex(a[n..]).value;
    assert ([a[..n]] + rest)[1..] == rest;
    assert n == 1 ==> a[..n] == [a[0]];
  }

  /** The stack after the token of length n at the front, on text and on brackets alike. */
  function After(s: string, n: nat, closers: string): Option<string>
    requires s != []
  {
    if n > 1 then Some(closers) else Step(s[0], closers)
  }

  predicate Finishes(s: string, n: nat, closers: string)
    requires s != []
  {
    n == 1 && IsCloser(s[0]) && Step(s[0], closers) == Some([])
  }

  lemma ScanStep(s: string, closers: string)
    requires s != []
    ensures var n := FrontLen(s);
      Scan(s, closers)
        == if n == 0 || After(s, n, closers).None? then 0
           else if Finishes(s, n, closers) then 1
           else Past(n, Scan(s[n..], After(s, n, closers).value))
  {
    hide FrontLen;
  }

  /** One token's share of the brackets moves the stack as the scanner does. */
  lemma EmptiesStep(s: string, n: nat, w: string, closers: string)
    requires s != [] && n > 0
    ensures var all := (if n == 1 && (IsOpener(s[0]) || IsCloser(s[0])) then [s[0]] else []) + w;
      Empties(all, closers) ==
        if After(s, n, closers).None? then false
        else if Finishes(s, n, closers) then w == []
        else Empties(w, After(s, n, closers).value)
  {
    assert ([s[0]] + w)[1..] == w && [] + w == w;
  }

  /** The token that closes the last bracket, alone. */
  lemma ClosingToken(a: string, closers: string)
    requires |a| == 1 && a[0] != '/'
    ensures Finishes(a, 1, closers) ==>
              FrontLen(a) == 1 && Lex(a) == Some([a]) && EndsInCloser([a]) && Empties(Brackets([a]), closers)
    ensures FrontLen(a) == 1 && EndsInCloser([a]) && Empties(Brackets([a]), closers) ==> Finishes(a, 1, closers)
  {
    assert a[1..] == [] && a[..1] == a && [a[0]] == a;
    if IsCloser(a[0]) {
      assert FrontLen(a) == 1;
      LexStep(a, 1);
      assert [a] + [] == [a] && Lex([]) == Some([]);
      assert Brackets([]) == [] && [a[0]] + [] == a;
      EmptiesStep(a, 1, [], closers);
    }
  }

  /** The front token of a slice, when something of the slice settles it. */
  lemma {:induction false} SliceFront(s: string, total: nat)
    requires s != [] && 0 < total <= |s|
    ensures Settled(FrontLen(s), s[..total]) ==> FrontLen(s[..total]) == FrontLen(s)
  {
    hide FrontLen;
    assert s == s[..total] + s[total..];
    FrontStable(s[..total], s[total..]);
  }

  /** A lexically closed slice whose brackets empty the stack at its last token. */
  ghost predicate EndsAs(a: string, closers: string) {
    Lex(a).Some? && EndsInCloser(Lex(a).value) && Empties(Brackets(Lex(a).value), closers)
  }

  lemma {:induction false} SliceGoesOn(s: string, total: nat, n: nat, closers: string)
    requires s != [] && 0 < n < total <= |s| && n == FrontLen(s) == FrontLen(s[..total])
    requires !Finishes(s, n, closers) && After(s, n, closers).Some? && EndsAs(s[n..][..total - n], After(s, n, closers).value)
    ensures EndsAs(s[..total], closers)
  {
    hide FrontLen, Lex, Brackets, Empties, Step;
    var a := s[..total];
    assert a[n..] == s[n..][..total - n] && a[0] == s[0];
    LexStep(a, n);
    EmptiesStep(a, n, Brackets(Lex(a[n..]).value), closers);
    LexNonEmpty(a[n..]);
  }

  /** A successful scan stops at the end of such a slice. */
  lemma {:induction false} ScanLexes(s: string, closers: string)
    requires Scan(s, closers) > 0
    ensures EndsAs(s[..Scan(s, closers)], closers)
    decreases |s|
  {
    assert s != [];
    hide FrontLen, Lex, Brackets, Empties, Scan, Step;
    ScanStep(s, closers);
    var total, n := Scan(s, closers), FrontLen(s);
    SliceFront(s, total);
    if Finishes(s, n, closers) {
      ClosingToken(s[..total], closers);
    } else {
      var next := After(s, n, closers).value;
      ScanLexes(s[n..], next);
      hide EndsAs, After;
      SliceGoesOn(s, total, n, closers);
    }
  }

  lemma LexUnfolds(a: string)
    requires Lex(a).Some? && Lex(a).value != []
    ensures a != [] && FrontLen(a) > 0 && Lex(a[FrontLen(a)..]).Some?
  {
  }

  lemma LexNonEmpty(s: string)
    requires Lex(s).Some?
    ensures Lex(s).value == [] <==> s == []
  {
  }

  /** Such a slice is scanned to its end, whatever text follows it. */
  lemma {:induction false} LexedScans(a: string, x: string, closers: string)
    requires Lex(a).Some? && EndsInCloser(Lex(a).value) && Empties(Brackets(Lex(a).value), closers)
    ensures Scan(a + x, closers) == |a|
    decreases |a|
  {
    hide FrontLen, Lex, Brackets, Empties, Scan, Step;
    LexUnfolds(a);
    var n, s := FrontLen(a), a + x;
    LexStep(a, n);
    var rest := Lex(a[n..]).value;
    LexNonEmpty(a[n..]);
    FrontStable(a, x);
    ScanStep(s, closers);
    if rest == [] {
      assert a[..n] == a && [a] + [] == [a];
      ClosingToken(a, closers);
    } else {
      EmptiesStep(a, n, Brackets(rest), closers);
      LastBracket(rest);
      assert s[n..] == a[n..] + x;
      LexedScans(a[n..], x, After(s, n, closers).value);
    }
  }

  lemma {:induction false} LastBracket(ts: seq<Token>)
    requires EndsInCloser(ts)
    ensures Brackets(ts) != []
    decreases |ts|
  {
    if |ts| > 1 {
      assert ts[1..][|ts[1..]| - 1] == ts[|ts| - 1];
      LastBracket(ts[1..]);
    }
  }

  lemma {:induction false} BracketsJoin(a: seq<Token>, b: seq<Token>)
    ensures Brackets(a + b) == Brackets(a) + Brackets(b)
    decreases |a|
  {
    if a == [] {
      assert a + b == b;
    } else {
      assert (a + b)[1..] == a[1..] + b;
      BracketsJoin(a[1..], b);
    }
  }

  /** Of the tokens just the four brackets count, and a group's first and last are a pair. */
  lemma {:induction false} BracketsAre(a: seq<Token>, t: Token, b: seq<Token>)
    ensures Brackets(a + [t] + b) == Brackets(a) + (if t in ["{", "}", "[", "]"] then t else "") + Brackets(b)
    ensures EndsInCloser(a + [t]) <==> t == "}" || t == "]"
    ensures Group(t) ==> (t[0] == '{' && t[|t| - 1] == '}') || (t[0] == '[' && t[|t| - 1] == ']')
  {
    hide Nested;
    BracketsJoin(a + [t], b);
    BracketsJoin(a, [t]);
    assert [t][1..] == [];
    assert |t| == 1 ==> t == [t[0]];
  }

  /** The scanner returns a length exactly when a prefix of that length is a literal. */
  lemma {:induction false} ScanFindsLiteral(s: string, n: nat)
    requires 0 < n <= |s|
    ensures Scan(s, []) == n <==> IsLiteral(s[..n])
  {
    hide Scan, Lex, Brackets, Empties, Group, Nested;
    if Scan(s, []) == n {
      ScanLexes(s, []);
      var w := Brackets(Lex(s[..n]).value);
      BracketsAreBrackets(Lex(s[..n]).value);
      EmptiesUnwinds(w, []);
    }
    if IsLiteral(s[..n]) {
      GroupEmpties(Brackets(Lex(s[..n]).value));
      assert s[..n] + s[n..] == s;
      LexedScans(s[..n], s[n..], []);
    }
  }

  /** Rescanning the slice alone, or before any other text, gives its length again. */
  lemma {:induction false} ScanIsPrefixStable(s: string, after: string)
    requires Scan(s, []) > 0
    ensures var slice := s[..Scan(s, [])]; Scan(slice + after, []) == |slice| && Scan(slice, []) == |slice|
  {
    var n := Scan(s, []);
    ScanFindsLiteral(s, n);
    var slice := s[..n];
    assert (slice + after)[..n] == slice && slice[..n] == slice;
    ScanFindsLiteral(slice + after, n);
    ScanFindsLiteral(slice, n);
  }

  /** At most one prefix of a text is a literal. */
  lemma LiteralPrefixIsUnique(s: string, m: nat, n: nat)
    requires 0 < m <= |s| && 0 < n <= |s|
    requires IsLiteral(s[..m]) && IsLiteral(s[..n])
    ensures m == n
  {
    ScanFindsLiteral(s, m);
    ScanFindsLiteral(s, n);
  }

  ghost predicate LiteralAt(text: string, start: nat, n: nat) {
    0 < n && start + n <= |text| && IsLiteral(text[start..start + n])
  }

  // ---- The scanner itself ----------------------------------------------------------------

  lemma StrLenAt(text: string, i: nat, quote: char)
    requires i < |text|
    ensures StrLen(text[i..], quote)
         == if text[i] == '\\' then (if i + 1 < |text| then Past(2, StrLen(text[i + 2..], quote)) else 0)
            else if text[i] == quote then 1
            else Past(1, StrLen(text[i + 1..], quote))
  {
    assert text[i..][1..] == text[i + 1..];
    if i + 1 < |text| {
      assert text[i..][2..] == text[i + 2..];
    }
  }

  /** From behind an opening quote to behind the closing one; zero when there is none. */
  method SkipString(text: string, from: nat, quote: char) returns (end: nat)
    requires from <= |text| && IsQuote(quote)
    ensures end == Past(from, StrLen(text[from..], quote))
  {
    var i := from;
    while i < |text| && text[i] != quote
      invariant from <= i
      invariant StrLen(text[from..], quote) == if i <= |text| then Past(i - from, StrLen(text[i..], quote)) else 0
    {
      StrLenAt(text, i, quote);
      i := if text[i] == '\\' then i + 2 else i + 1;
    }
    end := if i < |text| then i + 1 else 0;
  }

  method SkipLine(text: string, from: nat) returns (end: nat)
    requires from <= |text|
    ensures end == from + LineLen(text[from..])
  {
    end := from;
    while end < |text| && text[end] != '\n'
      invariant from <= end <= |text|
      invariant LineLen(text[from..]) == end - from + LineLen(text[end..])
    {
      assert text[end..][1..] == text[end + 1..];
      end := end + 1;
    }
  }

  /** From behind an opening comment mark to behind the closing one; zero when there is none. */
  method SkipBlock(text: string, from: nat) returns (end: nat)
    requires from <= |text|
    ensures end == Past(from, BlockLen(text[from..]))
  {
    var i := from;
    while i + 1 < |text| && !(text[i] == '*' && text[i + 1] == '/')
      invariant from <= i <= |text|
      invariant BlockLen(text[from..]) == Past(i - from, BlockLen(text[i..]))
    {
      assert text[i..][1..] == text[i + 1..];
      i := i + 1;
    }
    end := if i + 1 >= |text| then 0 else i + 2;
  }

  method ScanBalanced(text: string, start: nat) returns (length: nat)
    requires start <= |text|
    ensures length == Scan(text[start..], [])
    ensures length > 0 ==> LiteralAt(text, start, length)
    ensures length == 0 ==> forall n: nat :: !LiteralAt(text, start, n)
  {
    length := ScanLoop(text, start);
    Conclude(text, start, length);
  }

  lemma ScanAt(text: string, i: nat, closers: string)
    requires i < |text|
    ensures FrontLen(text[i..]) <= |text| - i
    ensures Scan(text[i..], closers)
         == var n := FrontLen(text[i..]);
            if n == 0 then 0
            else if n > 1 then Past(n, Scan(text[i + n..], closers))
            else if Step(text[i], closers).None? then 0
            else if IsCloser(text[i]) && Step(text[i], closers).value == [] then 1
            else Past(1, Scan(text[i + 1..], Step(text[i], closers).value))
  {
    var n := FrontLen(text[i..]);
    assert text[i..][n..] == text[i + n..];
  }

  lemma FrontLenAt(text: string, i: nat)
    requires i < |text|
    ensures FrontLen(text[i..])
         == if IsQuote(text[i]) then Past(1, StrLen(text[i + 1..], text[i]))
            else if i + 1 < |text| && text[i] == '/' && text[i + 1] == '/' then 2 + LineLen(text[i + 2..])
            else if i + 1 < |text| && text[i] == '/' && text[i + 1] == '*' then Past(2, BlockLen(text[i + 2..]))
            else 1
  {
    assert text[i..][1..] == text[i + 1..];
    if i + 1 < |text| {
      assert text[i..][2..] == text[i + 2..];
    }
  }

  /** Past the string, comment or single character at i; zero when it is not terminated. */
  method SkipToken(text: string, i: nat) returns (end: nat)
    requires i < |text|
    ensures end == Past(i, FrontLen(text[i..]))
  {
    FrontLenAt(text, i);
    if IsQuote(text[i]) {
      end := SkipString(text, i + 1, text[i]);
    } else if text[i] == '/' && i + 1 < |text| && text[i + 1] == '/' {
      end := SkipLine(text, i + 2);
    } else if text[i] == '/' && i + 1 < |text| && text[i + 1] == '*' {
      end := SkipBlock(text, i + 2);
    } else {
      end := i + 1;
    }
  }

  method ScanLoop(text: string, start: nat) returns (length: nat)
    requires start <= |text|
    ensures length == Scan(text[start..], [])
  {
    hide FrontLen;
    var closers: string := [];
    var i := start;
    ghost var goal := Scan(text[start..], []);
    while i < |text|
      invariant start <= i <= |text|
      invariant goal == Past(i - start, Scan(text[i..], closers))
    {
      ScanAt(text, i, closers);
      var c := text[i];
      var end := SkipToken(text, i);
      if end == 0 {
        return 0;
      }
      if end == i + 1 {
        var after := Step(c, closers);
        if after.None? {
          return 0;
        }
        closers := after.value;
        if IsCloser(c) && closers == [] {
          return i - start + 1;
        }
      }
      i := end;
    }
    length := 0;
  }

  lemma Conclude(text: string, start: nat, length: nat)
    requires start <= |text| && length == Scan(text[start..], [])
    ensures length > 0 ==> LiteralAt(text, start, length)
    ensures length == 0 ==> forall n: nat :: !LiteralAt(text, start, n)
  {
    if length > 0 {
      assert text[start..][..length] == text[start..start + length];
      ScanFindsLiteral(text[start..], length);
    }
    forall n: nat | LiteralAt(text, start, n)
      ensures length == n
    {
      assert text[start..][..n] == text[start..start + n];
      ScanFindsLiteral(text[start..], n);
    }
  }
}
