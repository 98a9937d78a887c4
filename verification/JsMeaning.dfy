/** What rewriting a literal keeps: exactly when the tokens and their meaning, and that twice
    is as good as once. */
module JsMeaning {
  import opened Basics
  import opened JsLexer
  import opened JsNormalize
  import JsBalance

  // ---- The promise -----------------------------------------------------------------------

  lemma RewrittenKeepsMeaning(s: string)
    requires Lex(s).Some?
    ensures KeepsMeaning(s, TextOf(RewrittenAll(Lex(s).value)))
  {
    hide Lex, TextOf, SameMeaning, IsSingle;
    RewrittenRelexes(s);
    forall t: Token
      ensures SameMeaning(t, Rewritten(t)) && !IsSingle(Rewritten(t))
    {
      RewrittenMeansTheSame(t);
    }
  }

  // ---- Where the loop and the lexer see single-quoted strings ----------------------------

  /** How far one step of the loop goes, and where it then stands. */
  function StepLen(mode: Mode, s: string): (n: nat)
    requires s != []
    ensures 0 < n <= |s|
  {
    match mode
    case Code => if StartsLine(s) || StartsBlock(s) then 2 else 1
    case Double => if s[0] == '\\' && |s| > 1 then 2 else 1
    case Single => PieceLen(s)
    case Line => 1
    case Block => if |s| > 1 && s[0] == '*' && s[1] == '/' then 2 else 1
  }

  function StepMode(mode: Mode, s: string): Mode
    requires s != []
  {
    match mode
    case Code =>
      if s[0] == '"' then Double else if s[0] == '\'' then Single
      else if StartsLine(s) then Line else if StartsBlock(s) then Block else Code
    case Double => if s[0] == '"' then Code else Double
    case Single => if s[0] == '\'' then Code else Single
    case Line => if s[0] == '\n' then Code else Line
    case Block => if |s| > 1 && s[0] == '*' && s[1] == '/' then Code else Block
  }

  predicate Opens(mode: Mode, s: string) {
    mode == Code && s != [] && s[0] == '\''
  }

  /** The places at which the loop takes an apostrophe for the opening of a string; a place is
      told by the length of the text from there on. */
  function Openings(mode: Mode, s: string): seq<nat>
    decreases |s|
  {
    if s == [] then []
    else (if Opens(mode, s) then [|s|] else []) + Openings(StepMode(mode, s), s[StepLen(mode, s)..])
  }

  /** The places of the lexer's single-quoted strings. */
  function SingleQuoted(ts: seq<Token>): seq<nat> {
    if ts == [] then []
    else (if IsSingle(ts[0]) then [|TextOf(ts)|] else []) + SingleQuoted(ts[1..])
  }

  predicate Lexes(s: string) {
    Lex(s).Some?
  }

  /** The places of the single-quoted strings of lexically closed text. */
  function Quotes(s: string): seq<nat> {
    if Lex(s).None? then [] else SingleQuoted(Lex(s).value)
  }

  /** The loop and the lexer see the same single-quoted strings. */
  predicate ReadsAlike(s: string) {
    Lexes(s) && Openings(Code, s) == Quotes(s)
  }

  function Shifted(n: nat, k: Option<nat>): Option<nat> {
    if k.Some? then Some(n + k.value) else None
  }

  function FirstOpening(mode: Mode, s: string): (k: Option<nat>)
    ensures k.Some? ==> k.value < |s| && s[k.value] == '\''
    decreases |s|
  {
    if s == [] then None
    else if Opens(mode, s) then Some(0)
    else Shifted(StepLen(mode, s), FirstOpening(StepMode(mode, s), s[StepLen(mode, s)..]))
  }

  function FirstSingle(s: string): Option<nat>
    decreases |s|
  {
    if s == [] || FrontLen(s) == 0 then None
    else if s[0] == '\'' then Some(0)
    else Shifted(FrontLen(s), FirstSingle(s[FrontLen(s)..]))
  }

  lemma {:induction false} StepCopies(mode: Mode, s: string)
    requires mode != Single && s != [] && !Opens(mode, s)
    ensures var n := StepLen(mode, s);
      StepMode(mode, s) != Single && Normalized(mode, s) == s[..n] + Normalized(StepMode(mode, s), s[n..])
  {
    NormalizedStep(mode, s);
    hide Normalized;
    assert |s| > 1 ==> s[..2] == [s[0], s[1]];
    assert s[..1] == [s[0]];
  }

  /** Up to the first apostrophe it takes for an opening, the loop copies. */
  ghost predicate CopiesUpTo(mode: Mode, s: string, a: Option<nat>) {
    if a.None? then Normalized(mode, s) == s && Openings(mode, s) == []
    else
      && a.value < |s|
      && Normalized(mode, s) == s[..a.value] + ("\"" + Normalized(Single, s[a.value + 1..]))
      && Openings(mode, s) == [|s| - a.value] + Openings(Single, s[a.value + 1..])
  }

  lemma {:induction false} CopiesTo(mode: Mode, s: string)
    requires mode != Single
    ensures CopiesUpTo(mode, s, FirstOpening(mode, s))
    decreases |s|
  {
    if s == [] {
      assert FirstOpening(mode, s) == None;
    } else if Opens(mode, s) {
      NormalizedStep(mode, s);
      OpeningsStep(mode, s);
      assert FirstOpening(mode, s) == Some(0);
      hide Normalized, Openings;
      assert s[..0] + ("\"" + Normalized(Single, s[1..])) == "\"" + Normalized(Single, s[1..]);
    } else {
      var n := StepLen(mode, s);
      var next, rest := StepMode(mode, s), s[n..];
      StepCopies(mode, s);
      OpeningsStep(mode, s);
      CopiesTo(next, rest);
      hide Normalized, Openings, StepLen, StepMode, CopiesUpTo;
      CopiesOn(mode, next, s, n, FirstOpening(next, rest));
    }
  }

  lemma CopiesOn(mode: Mode, next: Mode, s: string, n: nat, a: Option<nat>)
    requires n <= |s| && CopiesUpTo(next, s[n..], a)
    requires Normalized(mode, s) == s[..n] + Normalized(next, s[n..]) && Openings(mode, s) == Openings(next, s[n..])
    ensures CopiesUpTo(mode, s, Shifted(n, a))
  {
    hide Normalized, Openings;
    var rest := s[n..];
    assert s == s[..n] + rest;
    if a.Some? {
      var k := a.value;
      assert rest[k + 1..] == s[n + k + 1..] && s[..n] + rest[..k] == s[..n + k];
      Joined(s[..n], rest[..k], "\"" + Normalized(Single, rest[k + 1..]));
    }
  }

  lemma OpeningsStep(mode: Mode, s: string)
    requires s != []
    ensures Openings(mode, s)
         == (if Opens(mode, s) then [|s|] else []) + Openings(StepMode(mode, s), s[StepLen(mode, s)..])
  {
  }

  /** A string that closes for the lexer closes there for the loop. */
  lemma {:induction false} SingleOpensNothing(s: string)
    requires StrLen(s, '\'') > 0
    ensures Openings(Single, s) == Openings(Code, s[StrLen(s, '\'')..])
    decreases |s|
  {
    OpeningsStep(Single, s);
    if s[0] != '\'' {
      SinglePiece(s, StrLen(s, '\''));
      hide StrLen, Openings;
      var k, n := PieceLen(s), StrLen(s, '\'');
      SingleOpensNothing(s[k..]);
      Within(s, k, n);
    }
  }

  /** What is left behind the string that the lexer sees at j. */
  function Behind(s: string, j: nat): string
    requires j < |s|
  {
    s[j + FrontLen(s[j..])..]
  }

  /** The lexer's first single-quoted string begins at b, with the others behind it. */
  ghost predicate QuotedFrom(s: string, b: Option<nat>) {
    && Lexes(s)
    && if b.None? then Quotes(s) == []
       else
         && b.value < |s| && s[b.value] == '\'' && FrontLen(s[b.value..]) > 0
         && Lexes(Behind(s, b.value))
         && Quotes(s) == [|s| - b.value] + Quotes(Behind(s, b.value))
  }

  lemma {:induction false} SingleQuotedFirst(s: string)
    requires Lexes(s)
    ensures QuotedFrom(s, FirstSingle(s))
    decreases |s|
  {
    if s == [] {
      assert Lex(s).value == [];
    } else {
      JsBalance.LexNonEmpty(s);
      JsBalance.LexUnfolds(s);
      var n := FrontLen(s);
      if s[0] == '\'' {
        QuotedAtOnce(s, n);
      } else {
        FirstSingleStep(s);
        hide Lex, QuotedFrom, FrontLen, FirstSingle;
        SingleQuotedFirst(s[n..]);
        QuotedOn(s, n, FirstSingle(s[n..]));
      }
    }
  }

  lemma {:induction false} QuotedAtOnce(s: string, n: nat)
    requires s != [] && s[0] == '\'' && n == FrontLen(s) > 0 && Lexes(s[n..])
    ensures FirstSingle(s) == Some(0) && QuotedFrom(s, Some(0))
  {
    hide Quotes, Lexes;
    QuotesCons(s, n);
    assert s[0..] == s && Behind(s, 0) == s[n..];
  }

  lemma QuotesCons(s: string, n: nat)
    requires s != [] && n == FrontLen(s) > 0 && Lexes(s[n..])
    ensures Lexes(s) && Quotes(s) == if s[0] == '\'' then [|s|] + Quotes(s[n..]) else Quotes(s[n..])
  {
    JsBalance.LexStep(s, n);
    IsSingleFront(s, n);
    hide FrontLen, IsSingle;
    var rest := Lex(s[n..]).value;
    assert Lex(s).value == [s[..n]] + rest && ([s[..n]] + rest)[1..] == rest;
  }

  lemma QuotedOn(s: string, n: nat, b: Option<nat>)
    requires s != [] && s[0] != '\'' && n == FrontLen(s) > 0 && QuotedFrom(s[n..], b)
    ensures QuotedFrom(s, Shifted(n, b))
  {
    hide Quotes, Lexes, Behind, FrontLen;
    QuotesCons(s, n);
    if b.Some? {
      assert s[n..][b.value..] == s[n + b.value..];
      BehindRest(s, n, b.value);
    }
  }

  lemma IsSingleFront(s: string, n: nat)
    requires s != [] && n == FrontLen(s) > 0
    ensures IsSingle(s[..n]) <==> s[0] == '\''
  {
  }

  // ---- Meaning, token by token -----------------------------------------------------------

  lemma AllKeptCons(t: Token, ts: seq<Token>, u: Token, us: seq<Token>)
    ensures AllKept([t] + ts, [u] + us) <==> Kept(t, u) && AllKept(ts, us)
  {
    hide Kept;
    var a, b := [t] + ts, [u] + us;
    if AllKept(a, b) {
      assert Kept(a[0], b[0]);
      forall k | 0 <= k < |ts| ensures Kept(ts[k], us[k]) {
        assert Kept(a[k + 1], b[k + 1]);
      }
    }
  }

  /** Behind a token that is rewritten faithfully, the meaning of the rest decides. */
  lemma RestDecides(s: string, out: string, after: string)
    requires s != [] && FrontLen(s) > 0 && Lex(s[FrontLen(s)..]).Some?
    requires out == Rewritten(s[..FrontLen(s)]) + after && StartsAlike(s[FrontLen(s)..], after)
    ensures KeepsMeaning(s, out) <==> KeepsMeaning(s[FrontLen(s)..], after)
  {
    var n := FrontLen(s);
    var t, u := s[..n], Rewritten(s[..n]);
    RewrittenLexes(s, after);
    RewrittenMeansTheSame(t);
    hide FrontLen, Rewritten, SameMeaning, IsSingle, Lex, AllKept, StartsAlike;
    JsBalance.LexStep(s, n);
    assert out[|u|..] == after && out[..|u|] == u;
    if Lex(out).Some? {
      JsBalance.LexNonEmpty(out);
      JsBalance.LexUnfolds(out);
    }
    if Lex(after).Some? {
      JsBalance.LexStep(out, |u|);
      AllKeptCons(t, Lex(s[n..]).value, u, Lex(after).value);
    }
  }

  /** A token that does not begin as it should decides at once. */
  lemma FrontDecides(s: string, out: string)
    requires s != [] && FrontLen(s) > 0 && Lex(s[FrontLen(s)..]).Some? && out != []
    requires FrontLen(out) > 0 ==> !Kept(s[..FrontLen(s)], out[..FrontLen(out)])
    ensures !KeepsMeaning(s, out)
  {
    var n := FrontLen(s);
    hide FrontLen, Lex, Kept, AllKept;
    JsBalance.LexStep(s, n);
    if Lex(out).Some? {
      JsBalance.LexNonEmpty(out);
      JsBalance.LexUnfolds(out);
      var m := FrontLen(out);
      JsBalance.LexStep(out, m);
      AllKeptCons(s[..n], Lex(s[n..]).value, out[..m], Lex(out[m..]).value);
    }
  }

  /** A string that goes on past some text closes no earlier with a double quote behind that
      text; and where it closes at the quote, the text alone means less. */
  lemma {:induction false} StillOpen(prefix: string, y: string, z: string, quote: char, x: string)
    requires quote == '`' || quote == '"'
    requires StrLen(prefix + "'" + y, quote) > |prefix|
    ensures var n := StrLen(prefix + "\"" + z, quote);
      && (n == 0 || n > |prefix|)
      && (n == |prefix| + 1 ==> quote == '"' && Decoded(prefix + "'" + x) != Decoded(prefix))
    decreases |prefix|
  {
    hide StrLen;
    var a, b, c := prefix + "'" + y, prefix + "\"" + z, prefix + "'" + x;
    StrLenStep(a, quote);
    StrLenStep(b, quote);
    if prefix != "" {
      var k := if prefix[0] == '\\' then 2 else 1;
      assert a[0] == b[0] == c[0] == prefix[0];
      if k <= |prefix| {
        assert a[k..] == prefix[k..] + "'" + y && b[k..] == prefix[k..] + "\"" + z && c[k..] == prefix[k..] + "'" + x;
        StillOpen(prefix[k..], y, z, quote, x);
        DecodedTail(prefix, k);
        DecodedTail(c, k);
      }
    }
  }

  lemma DecodedTail(s: string, k: nat)
    requires s != "" && k <= |s| && k == if s[0] == '\\' then 2 else 1
    ensures Decoded(s) != [] && Decoded(s)[1..] == Decoded(s[k..])
  {
  }

  lemma {:induction false} DecodedDiffer(prefix: string, y: string, z: string)
    ensures Decoded(prefix + "'" + y) != Decoded(prefix + "\"" + z)
    decreases |prefix|
  {
    var a, b := prefix + "'" + y, prefix + "\"" + z;
    var k := if prefix != "" && prefix[0] == '\\' then 2 else 1;
    if k <= |prefix| {
      assert a[k..] == prefix[k..] + "'" + y && b[k..] == prefix[k..] + "\"" + z;
      DecodedDiffer(prefix[k..], y, z);
      DecodedTail(a, k);
      DecodedTail(b, k);
    } else {
      assert Decoded(a)[0] == Plain('\'') && Decoded(b)[0] == Plain('"');
    }
  }

  lemma BodyAround(s: string, k: nat, n: nat)
    requires 0 < k < n - 1 < |s|
    ensures Body(s[..n]) == s[1..k] + [s[k]] + s[k + 1..n - 1]
  {
  }

  /** A string whose apostrophe became a double quote is not the string it was. */
  lemma StringsDiffer(s: string, n: nat, k: nat, out: string, z: string)
    requires s != [] && (s[0] == '`' || s[0] == '"') && n == FrontLen(s) > 0 && 0 < k < n && s[k] == '\''
    requires out == s[..k] + ("\"" + z) && FrontLen(out) > 0
    ensures !SameMeaning(s[..n], out[..FrontLen(out)])
  {
    hide StrLen;
    var m, prefix := FrontLen(out), s[1..k];
    assert s[1..] == prefix + "'" + s[k + 1..] && out[1..] == prefix + "\"" + z;
    assert s[n - 1] == s[1..][n - 2] == s[0] && out[0] == s[0];
    var x := s[k + 1..n - 1];
    StillOpen(prefix, s[k + 1..], z, s[0], x);
    BodyAround(s, k, n);
    assert out[1..k] == prefix;
    if m == k + 1 {
      assert Body(out[..m]) == prefix;
    } else {
      BodyAround(out, k, m);
      DecodedDiffer(prefix, x, out[k + 1..m - 1]);
    }
  }

  lemma FrontDiffers(s: string, n: nat, k: nat, out: string, z: string)
    requires s != [] && s[0] != '\'' && n == FrontLen(s) > 0 && k < n && s[k] == '\''
    requires out == s[..k] + ("\"" + z) && FrontLen(out) > 0
    ensures !Kept(s[..n], out[..FrontLen(out)])
  {
    if s[0] == '`' || s[0] == '"' {
      StringsDiffer(s, n, k, out, z);
    } else {
      hide FrontLen;
      var t, u := s[..n], out[..FrontLen(out)];
      assert t[k] == '\'' && out[k] == '"';
      assert |u| == n ==> u[k] == '"';
    }
  }

  lemma NormalizedStartsAlike(s: string)
    ensures StartsAlike(s, Normalized(Code, s))
  {
    if s != [] {
      NormalizedStep(Code, s);
    }
  }

  /** Text that was copied up to a, and of which an apostrophe at a was taken for an opening. */
  predicate CopiedTo(s: string, a: Option<nat>, out: string) {
    if a.None? then out == s
    else a.value < |s| && s[a.value] == '\'' && out == s[..a.value] + ("\"" + Normalized(Single, s[a.value + 1..]))
  }

  /** Up to the first apostrophe that loop or lexer takes for an opening: if it is not the
      same for both, meaning is lost; if it is, what is behind that string decides. */
  lemma {:induction false} SegmentDecides(s: string, a: Option<nat>, out: string)
    requires Lex(s).Some? && CopiedTo(s, a, out)
    ensures Decides(s, a, out)
    decreases |s|
  {
    if s == [] {
      assert Lex(s).value == [];
    } else {
      JsBalance.LexNonEmpty(s);
      JsBalance.LexUnfolds(s);
      var n := FrontLen(s);
      if s[0] == '\'' {
        SegmentAtSingle(s, a, out);
      } else if a.Some? && a.value < n {
        FrontDecidesInside(s, a.value, out);
      } else {
        var further := if a.Some? then Some(a.value - n) else None;
        CopiedOn(s, n, a, out);
        SegmentDecides(s[n..], further, out[n..]);
        SegmentGoesOn(s, n, a, out);
      }
    }
  }

  ghost predicate Decides(s: string, a: Option<nat>, out: string) {
    if a != FirstSingle(s) then !KeepsMeaning(s, out)
    else if a.None? then KeepsMeaning(s, out)
    else a.value < |s| && (KeepsMeaning(s, out) <==> KeepsMeaning(Behind(s, a.value), Normalized(Code, Behind(s, a.value))))
  }

  lemma SegmentGoesOn(s: string, n: nat, a: Option<nat>, out: string)
    requires s != [] && s[0] != '\'' && n == FrontLen(s) > 0 && Lex(s[n..]).Some? && (a.Some? ==> n <= a.value < |s|)
    requires n <= |out| && out == Rewritten(s[..n]) + out[n..] && StartsAlike(s[n..], out[n..])
    requires Decides(s[n..], if a.Some? then Some(a.value - n) else None, out[n..])
    ensures Decides(s, a, out)
  {
    hide KeepsMeaning, Lex, StartsAlike, Normalized, Rewritten, FirstSingle, Behind;
    RestDecides(s, out, out[n..]);
    FirstSingleStep(s);
    hide FrontLen;
    if a.Some? {
      BehindRest(s, n, a.value - n);
    }
  }

  lemma SegmentAtSingle(s: string, a: Option<nat>, out: string)
    requires s != [] && s[0] == '\'' && FrontLen(s) > 0 && Lex(s[FrontLen(s)..]).Some? && CopiedTo(s, a, out)
    ensures Decides(s, a, out)
  {
    var n := FrontLen(s);
    assert FirstSingle(s) == Some(0);
    if a == Some(0) {
      SingleFront(s, n);
      NormalizedStep(Code, s);
      assert s[0..] == s;
      hide FrontLen, Normalized, Lex, KeepsMeaning;
      assert s[..0] + ("\"" + Normalized(Single, s[1..])) == "\"" + Normalized(Single, s[1..]);
      NormalizedStartsAlike(s[n..]);
      RestDecides(s, out, Normalized(Code, s[n..]));
    } else {
      assert out != [] && out[0] == '\'';
      FrontDecides(s, out);
    }
  }

  lemma {:induction false} FrontDecidesInside(s: string, k: nat, out: string)
    requires s != [] && s[0] != '\'' && k < FrontLen(s) && Lex(s[FrontLen(s)..]).Some? && CopiedTo(s, Some(k), out)
    ensures !KeepsMeaning(s, out) && FirstSingle(s) != Some(k)
  {
    hide Lex, KeepsMeaning, Kept;
    if FrontLen(out) > 0 {
      FrontDiffers(s, FrontLen(s), k, out, Normalized(Single, s[k + 1..]));
    }
    FrontDecides(s, out);
  }

  lemma CopiedOn(s: string, n: nat, a: Option<nat>, out: string)
    requires s != [] && s[0] != '\'' && n == FrontLen(s) > 0 && CopiedTo(s, a, out) && (a.Some? ==> n <= a.value)
    ensures n <= |out| && out == Rewritten(s[..n]) + out[n..] && StartsAlike(s[n..], out[n..])
    ensures CopiedTo(s[n..], if a.Some? then Some(a.value - n) else None, out[n..])
  {
    hide FrontLen, Normalized;
    assert Rewritten(s[..n]) == s[..n];
    if a.Some? {
      var k, rest := a.value, s[n..];
      assert rest[..k - n] == s[n..k] && rest[k - n + 1..] == s[k + 1..];
      assert out[..n] == s[..n] && out[n..] == s[n..k] + ("\"" + Normalized(Single, s[k + 1..]));
    }
  }

  lemma FirstSingleStep(s: string)
    requires s != [] && s[0] != '\'' && FrontLen(s) > 0
    ensures FirstSingle(s) == Shifted(FrontLen(s), FirstSingle(s[FrontLen(s)..]))
  {
  }

  lemma BehindRest(s: string, n: nat, k: nat)
    requires n + k < |s|
    ensures Behind(s, n + k) == Behind(s[n..], k)
  {
    hide FrontLen;
    assert s[n..][k..] == s[n + k..];
    assert s[n..][k + FrontLen(s[n + k..])..] == s[n + k + FrontLen(s[n + k..])..];
  }

  /** Rewriting keeps the tokens and what each means, comments included, and leaves no string
      single-quoted, exactly when the loop takes for the opening of a string just the
      apostrophes at which the lexer sees a single-quoted string begin. */
  lemma {:induction false} NormalizeKeepsMeaning(s: string)
    requires Lex(s).Some?
    ensures KeepsMeaning(s, Normalized(Code, s)) <==> ReadsAlike(s)
    decreases |s|
  {
    hide Normalized, ReadsAlike, FirstOpening, FirstSingle, KeepsMeaning, Lex, Behind;
    var a := FirstOpening(Code, s);
    CopiesTo(Code, s);
    SegmentDecides(s, a, Normalized(Code, s));
    AlikeSplits(s);
    if a == FirstSingle(s) && a.Some? {
      BehindIsShorter(s, a.value);
      NormalizeKeepsMeaning(Behind(s, a.value));
    }
  }

  lemma {:induction false} BehindIsShorter(s: string, j: nat)
    requires Lexes(s) && FirstSingle(s) == Some(j)
    ensures j < |s| && Lexes(Behind(s, j)) && |Behind(s, j)| < |s|
  {
    SingleQuotedFirst(s);
  }

  lemma {:induction false} AlikeSplits(s: string)
    requires Lexes(s)
    ensures var a, b := FirstOpening(Code, s), FirstSingle(s);
      ReadsAlike(s) <==> a == b && (a.Some? ==> a.value < |s| && ReadsAlike(Behind(s, a.value)))
  {
    hide Normalized, Openings, Quotes, Lexes, FirstOpening, FirstSingle, Behind;
    var a, b := FirstOpening(Code, s), FirstSingle(s);
    CopiesTo(Code, s);
    SingleQuotedFirst(s);
    if a == b && a.Some? {
      ClosesAlike(s, a.value);
      SameHead(|s| - a.value, Openings(Code, Behind(s, a.value)), Quotes(Behind(s, a.value)));
    } else if a.Some? && b.Some? {
      assert Openings(Code, s)[0] != Quotes(s)[0];
    }
  }

  lemma SameHead(x: nat, u: seq<nat>, v: seq<nat>)
    ensures [x] + u == [x] + v <==> u == v
  {
    if [x] + u == [x] + v {
      assert ([x] + u)[1..] == u && ([x] + v)[1..] == v;
    }
  }

  lemma ClosesAlike(s: string, j: nat)
    requires j < |s| && s[j] == '\'' && FrontLen(s[j..]) > 0
    ensures Openings(Single, s[j + 1..]) == Openings(Code, Behind(s, j))
  {
    hide Openings;
    var t := s[j..];
    assert t[1..] == s[j + 1..];
    SingleOpensNothing(t[1..]);
    assert t[1..][FrontLen(t) - 1..] == s[j + FrontLen(t)..];
  }

  /** What was scanned as one balanced literal is, while meaning is kept, scanned as one again
      to its full length. */
  lemma NormalizeStaysBalanced(s: string)
    requires JsBalance.Scan(s, []) == |s| > 0 && ReadsAlike(s)
    ensures var out := Normalized(Code, s); out != [] && JsBalance.Scan(out, []) == |out|
  {
    hide Normalized, ReadsAlike, AllKept, JsBalance.Scan, JsBalance.Nested, JsBalance.Brackets, JsBalance.EndsInCloser;
    var out := Normalized(Code, s);
    assert s[..|s|] == s && out[..|out|] == out;
    JsBalance.ScanFindsLiteral(s, |s|);
    NormalizeKeepsMeaning(s);
    hide Lex;
    KeptBrackets(Lex(s).value, Lex(out).value);
    NormalizedStartsAlike(s);
    JsBalance.ScanFindsLiteral(out, |out|);
  }

  // ---- The rewritten tokens --------------------------------------------------------------

  /** The tokens of lexically closed text, rewritten and written one after the other. */
  function RewrittenText(s: string): string {
    if Lex(s).None? then "" else TextOf(RewrittenAll(Lex(s).value))
  }

  lemma RewrittenTextCons(s: string, n: nat)
    requires s != [] && n == FrontLen(s) > 0 && Lex(s[n..]).Some?
    ensures Lex(s).Some? && RewrittenText(s) == Rewritten(s[..n]) + RewrittenText(s[n..])
  {
    hide FrontLen, Rewritten;
    JsBalance.LexStep(s, n);
    RewrittenCons(s[..n], Lex(s[n..]).value);
  }

  /** The lexer's first single-quoted string is the first token that rewriting changes. */
  ghost predicate RewrittenFrom(s: string, b: Option<nat>) {
    && Lex(s).Some?
    && if b.None? then RewrittenText(s) == s
       else
         b.value < |s| && RewrittenText(s) == s[..b.value] + TextFrom(s, b.value)
  }

  /** The token at j, rewritten, and the rewritten text behind it. */
  function TextFrom(s: string, j: nat): string
    requires j < |s|
  {
    Rewritten(s[j..][..FrontLen(s[j..])]) + RewrittenText(Behind(s, j))
  }

  lemma TextFromRest(s: string, n: nat, k: nat)
    requires n + k < |s|
    ensures TextFrom(s, n + k) == TextFrom(s[n..], k)
  {
    hide Lex, RewrittenText, Rewritten, FrontLen, Behind;
    BehindRest(s, n, k);
    assert s[n..][k..] == s[n + k..];
  }

  lemma {:induction false} RewrittenFirst(s: string)
    requires Lex(s).Some?
    ensures RewrittenFrom(s, FirstSingle(s))
    decreases |s|
  {
    if s == [] {
      assert RewrittenAll(Lex(s).value) == [];
    } else {
      JsBalance.LexNonEmpty(s);
      JsBalance.LexUnfolds(s);
      var n := FrontLen(s);
      if s[0] == '\'' {
        RewrittenAtOnce(s, n);
      } else {
        FirstSingleStep(s);
        hide Lex, RewrittenFrom, FrontLen, FirstSingle;
        RewrittenFirst(s[n..]);
        RewrittenOn(s, n, FirstSingle(s[n..]));
      }
    }
  }

  lemma {:induction false} RewrittenAtOnce(s: string, n: nat)
    requires s != [] && s[0] == '\'' && n == FrontLen(s) > 0 && Lex(s[n..]).Some?
    ensures FirstSingle(s) == Some(0) && RewrittenFrom(s, Some(0))
  {
    RewrittenTextCons(s, n);
    assert s[0..] == s && Behind(s, 0) == s[n..];
    hide Lex, RewrittenText, Rewritten;
    assert s[..0] + TextFrom(s, 0) == TextFrom(s, 0);
  }

  lemma RewrittenOn(s: string, n: nat, b: Option<nat>)
    requires s != [] && s[0] != '\'' && n == FrontLen(s) > 0 && RewrittenFrom(s[n..], b)
    ensures RewrittenFrom(s, Shifted(n, b))
  {
    hide Lex, RewrittenText, Behind, FrontLen, TextFrom;
    RewrittenTextCons(s, n);
    hide Rewritten;
    NotRewritten(s, n);
    if b.Some? {
      RewrittenOnTo(s, n, b.value);
    } else {
      assert s == s[..n] + s[n..];
    }
  }

  lemma NotRewritten(s: string, n: nat)
    requires s != [] && s[0] != '\'' && n <= |s|
    ensures Rewritten(s[..n]) == s[..n]
  {
  }

  lemma RewrittenOnTo(s: string, n: nat, k: nat)
    requires n + k < |s| && RewrittenText(s[n..]) == s[n..][..k] + TextFrom(s[n..], k)
    ensures s[..n] + RewrittenText(s[n..]) == s[..n + k] + TextFrom(s, n + k)
  {
    hide RewrittenText, TextFrom;
    TextFromRest(s, n, k);
    FrontThen(s, n, n + k, TextFrom(s, n + k));
  }

  lemma FrontThen(s: string, n: nat, k: nat, tail: string)
    requires n <= k <= |s|
    ensures s[..n] + (s[n..][..k - n] + tail) == s[..k] + tail
  {
    assert s[..n] + s[n..][..k - n] == s[..k];
  }

  /** Exactly then, too, the loop works token by token: it requotes the single-quoted strings
      and copies all else. */
  lemma {:induction false} NormalizedIsRewritten(s: string)
    requires Lex(s).Some?
    ensures Normalized(Code, s) == RewrittenText(s) <==> ReadsAlike(s)
  {
    hide Normalized, ReadsAlike, KeepsMeaning, Lex;
    if ReadsAlike(s) {
      AlikeIsRewritten(s);
    }
    RewrittenKeepsMeaning(s);
    NormalizeKeepsMeaning(s);
  }

  lemma {:induction false} AlikeIsRewritten(s: string)
    requires ReadsAlike(s)
    ensures Normalized(Code, s) == RewrittenText(s)
    decreases |s|
  {
    hide Normalized, FirstOpening, FirstSingle, Lex, Behind, RewrittenText, Openings, SingleQuoted, TextFrom, FrontLen;
    var a := FirstOpening(Code, s);
    AlikeSplits(s);
    CopiesTo(Code, s);
    RewrittenFirst(s);
    if a.Some? {
      SingleQuotedFirst(s);
      BehindIsShorter(s, a.value);
      AlikeIsRewritten(Behind(s, a.value));
      SingleThenBehind(s, a.value);
    }
  }

  lemma SingleThenBehind(s: string, j: nat)
    requires j < |s| && s[j] == '\'' && FrontLen(s[j..]) > 0
    requires Normalized(Code, Behind(s, j)) == RewrittenText(Behind(s, j))
    ensures "\"" + Normalized(Single, s[j + 1..]) == TextFrom(s, j)
  {
    hide Normalized, Rewritten, FrontLen, RewrittenText, Lex;
    var t := s[j..];
    SingleFront(t, FrontLen(t));
    NormalizedStep(Code, t);
    assert t[1..] == s[j + 1..] && t[FrontLen(t)..] == Behind(s, j);
  }

  /** So it does on text without templates, or with templates that hold no quote and no
      comment opener. */
  lemma SafeReadsAlike(s: string)
    requires SafeTemplates(s)
    ensures ReadsAlike(s)
  {
    hide Normalized, ReadsAlike, IsPlain;
    SafeIsRewritten(s);
    NormalizedIsRewritten(s);
  }

  // ---- Rewriting twice -------------------------------------------------------------------

  /** Where the loop stands in its own output. */
  function Requoting(mode: Mode): Mode {
    if mode == Single then Double else mode
  }

  /** What one step writes. */
  function Written(mode: Mode, s: string): string
    requires s != []
  {
    if Opens(mode, s) then "\""
    else if mode == Single then (if s[0] == '\'' then "\"" else Piece(s))
    else s[..StepLen(mode, s)]
  }

  lemma StepWrites(mode: Mode, s: string)
    requires s != []
    ensures Normalized(mode, s) == Written(mode, s) + Normalized(StepMode(mode, s), s[StepLen(mode, s)..])
  {
    NormalizedStep(mode, s);
    hide Normalized;
    assert |s| > 1 ==> s[..2] == [s[0], s[1]];
    assert s[..1] == [s[0]];
  }

  /** What follows a step's output cannot make the loop read that output otherwise. */
  predicate Follows(mode: Mode, s: string, rest: string)
    requires s != []
  {
    && (|s| == StepLen(mode, s) <==> rest == "")
    && ((mode == Code || mode == Block) && (s[0] == '/' || s[0] == '*') && |s| > 1 && StepLen(mode, s) == 1 ==>
          rest[0] == s[1] || (rest[0] == '"' && s[1] == '\''))
  }

  lemma {:induction false} WrittenIsReread(mode: Mode, s: string, rest: string)
    requires s != [] && Follows(mode, s, rest)
    ensures Normalized(Requoting(mode), Written(mode, s) + rest)
         == Written(mode, s) + Normalized(Requoting(StepMode(mode, s)), rest)
  {
    var p := Written(mode, s);
    assert |s| > 1 ==> s[..2] == [s[0], s[1]];
    assert s[..1] == [s[0]];
    assert (p + rest)[|p|..] == rest;
    NormalizedStep(Requoting(mode), p + rest);
    hide Normalized;
  }

  lemma NormalizedFollows(mode: Mode, s: string)
    requires s != []
    ensures Follows(mode, s, Normalized(StepMode(mode, s), s[StepLen(mode, s)..]))
  {
    var rest := s[StepLen(mode, s)..];
    if rest != "" {
      NormalizedStep(StepMode(mode, s), rest);
    }
  }

  lemma {:induction false} RequotingIsStable(mode: Mode, s: string)
    ensures Normalized(Requoting(mode), Normalized(mode, s)) == Normalized(mode, s)
    decreases |s|
  {
    if s != [] {
      var next, rest := StepMode(mode, s), s[StepLen(mode, s)..];
      StepWrites(mode, s);
      NormalizedFollows(mode, s);
      hide Normalized, Written, StepMode, StepLen, Follows;
      RequotingIsStable(next, rest);
      WrittenIsReread(mode, s, Normalized(next, rest));
    }
  }

  /** Rewriting a second time changes nothing, whatever the text. */
  lemma {:induction false} NormalizeIsIdempotent(s: string)
    ensures Normalized(Code, Normalized(Code, s)) == Normalized(Code, s)
  {
    hide Normalized;
    RequotingIsStable(Code, s);
  }

  /** With a template literal the promise can fail: the scanner skips the quotes inside it as
      text, the rewriting loop takes them for a string. */
  lemma TemplateLosesMeaning()
    ensures var s := "[`'`]";
      && JsBalance.Scan(s, []) == |s|
      && Lex(s) == Some(["[", "`'`", "]"])
      && Lex(Normalized(Code, s)) == Some(["[", "`\"`", "]"])
      && !SameMeaning("`'`", "`\"`")
  {
    hide Lex, JsBalance.Scan;
    QuotedTemplate('\'');
    QuotedTemplate('"');
    NormalizedTemplate();
    hide Normalized;
    assert Body("`'`") == "'" && Body("`\"`") == "\"";
    assert Decoded("'") == [Plain('\'')] && Decoded("\"") == [Plain('"')];
  }

  lemma NormalizedTemplate()
    ensures Normalized(Code, "[`'`]") == "[`\"`]"
  {
    NormalizedStep(Code, "[`'`]");
    NormalizedStep(Code, "`'`]");
    NormalizedStep(Code, "'`]");
    NormalizedStep(Single, "`]");
    NormalizedStep(Single, "]");
    NothingLeft("", 0);
    hide Normalized;
    assert "[`'`]"[1..] == "`'`]" && "`'`]"[1..] == "'`]" && "'`]"[1..] == "`]" && "`]"[1..] == "]";
    assert "]"[1..] == "" && ""[0..] == "";
  }

  lemma QuotedTemplate(q: char)
    requires q == '\'' || q == '"'
    ensures Lex(['[', '`', q, '`', ']']) == Some(["[", ['`', q, '`'], "]"])
    ensures JsBalance.Scan(['[', '`', q, '`', ']'], []) == 5
  {
    var s, inner := ['[', '`', q, '`', ']'], ['`', q, '`', ']'];
    assert s[1..] == inner && s[..1] == "[" && inner[3..] == "]" && inner[..3] == ['`', q, '`'];
    assert "]"[1..] == "" && "]"[..1] == "]" && FrontLen("]") == 1 && FrontLen(s) == 1;
    hide FrontLen, Lex, JsBalance.Scan;
    TemplateLen(q);
    NothingLexes();
    JsBalance.LexStep("]", 1);
    assert ["]"] + [] == ["]"];
    JsBalance.LexStep(inner, 3);
    assert [['`', q, '`']] + ["]"] == [['`', q, '`'], "]"];
    JsBalance.LexStep(s, 1);
    assert ["["] + [['`', q, '`'], "]"] == ["[", ['`', q, '`'], "]"];
    QuotedTemplateScans(q);
  }

  lemma QuotedTemplateScans(q: char)
    requires q == '\'' || q == '"'
    ensures JsBalance.Scan(['[', '`', q, '`', ']'], []) == 5
  {
    var s, inner := ['[', '`', q, '`', ']'], ['`', q, '`', ']'];
    assert s[1..] == inner && inner[3..] == "]";
    assert FrontLen("]") == 1 && FrontLen(s) == 1;
    hide FrontLen, JsBalance.Scan;
    TemplateLen(q);
    assert "" + "]" == "]" && "]"[..0] == "";
    JsBalance.ScanStep("]", "]");
    JsBalance.ScanStep(inner, "]");
    JsBalance.ScanStep(s, "");
  }

  lemma NothingLexes()
    ensures Lex("") == Some([])
  {
  }

  lemma TemplateLen(q: char)
    requires q == '\'' || q == '"'
    ensures FrontLen(['`', q, '`', ']']) == 3
  {
    assert ['`', q, '`', ']'][1..] == [q, '`', ']'] && [q, '`', ']'][1..] == "`]";
    StrLenStep([q, '`', ']'], '`');
    StrLenStep("`]", '`');
  }
}
