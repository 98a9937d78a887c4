/** normalize_js_to_json: rewriting a scanned literal so that every string is
    double-quoted, without changing what any token means. */
module JsNormalize {
  import opened Basics
  import opened JsLexer
  import JsBalance

  // ---- What the rewriting loop computes --------------------------------------------------

  /** Where the rewriting loop stands. */
  datatype Mode = Code | Double | Single | Line | Block

  function Normalized(mode: Mode, s: string): string
    decreases |s|
  {
    if s == [] then ""
    else
      match mode
      case Code =>
        if s[0] == '"' then "\"" + Normalized(Double, s[1..])
        else if s[0] == '\'' then "\"" + Normalized(Single, s[1..])
        else if StartsLine(s) then "//" + Normalized(Line, s[2..])
        else if StartsBlock(s) then "/*" + Normalized(Block, s[2..])
        else [s[0]] + Normalized(Code, s[1..])
      case Double =>
        if s[0] == '\\' && |s| > 1 then s[..2] + Normalized(Double, s[2..])
        else [s[0]] + Normalized(if s[0] == '"' then Code else Double, s[1..])
      case Single =>
        if s[0] == '\'' then "\"" + Normalized(Code, s[1..])
        else Piece(s) + Normalized(Single, s[PieceLen(s)..])
      case Line => [s[0]] + Normalized(if s[0] == '\n' then Code else Line, s[1..])
      case Block =>
        if |s| > 1 && s[0] == '*' && s[1] == '/' then "*/" + Normalized(Code, s[2..])
        else [s[0]] + Normalized(Block, s[1..])
  }

  lemma NormalizedStep(mode: Mode, s: string)
    requires s != []
    ensures Normalized(mode, s) ==
      match mode
      case Code =>
        if s[0] == '"' then "\"" + Normalized(Double, s[1..])
        else if s[0] == '\'' then "\"" + Normalized(Single, s[1..])
        else if StartsLine(s) then "//" + Normalized(Line, s[2..])
        else if StartsBlock(s) then "/*" + Normalized(Block, s[2..])
        else [s[0]] + Normalized(Code, s[1..])
      case Double =>
        if s[0] == '\\' && |s| > 1 then [s[0], s[1]] + Normalized(Double, s[2..])
        else [s[0]] + Normalized(if s[0] == '"' then Code else Double, s[1..])
      case Single =>
        if s[0] == '\'' then "\"" + Normalized(Code, s[1..])
        else Piece(s) + Normalized(Single, s[PieceLen(s)..])
      case Line => [s[0]] + Normalized(if s[0] == '\n' then Code else Line, s[1..])
      case Block =>
        if |s| > 1 && s[0] == '*' && s[1] == '/' then "*/" + Normalized(Code, s[2..])
        else [s[0]] + Normalized(Block, s[1..])
  {
    assert |s| > 1 ==> s[..2] == [s[0], s[1]];
  }

  // ---- What the tokens become ------------------------------------------------------------

  /** The first character, or escape, inside a single-quoted string: how many characters it
      takes, and how it is written between double quotes. */
  function PieceLen(s: string): nat
    requires s != []
  {
    if s[0] == '\\' && |s| > 1 then 2 else 1
  }

  function Piece(s: string): string
    requires s != []
  {
    if s[0] == '\\' && |s| > 1 then (if s[1] == '\'' then "'" else s[..2])
    else if s[0] == '"' then "\\\"" else [s[0]]
  }

  /** The inside of a single-quoted string, written for double quotes. */
  function Requoted(body: string): string {
    if body == [] then "" else Piece(body) + Requoted(body[PieceLen(body)..])
  }

  function Body(t: Token): string
    requires |t| >= 2
  {
    t[1..|t| - 1]
  }

  predicate IsSingle(t: Token) {
    |t| >= 2 && t[0] == '\''
  }

  predicate IsString(t: Token) {
    |t| >= 2 && IsQuote(t[0])
  }

  predicate IsTemplate(t: Token) {
    |t| >= 2 && t[0] == '`'
  }

  function Rewritten(t: Token): Token {
    if IsSingle(t) then "\"" + Requoted(Body(t)) + "\"" else t
  }

  function RewrittenAll(ts: seq<Token>): (us: seq<Token>)
    ensures |us| == |ts|
    ensures forall k | 0 <= k < |ts| :: us[k] == Rewritten(ts[k])
  {
    seq(|ts|, k requires 0 <= k < |ts| => Rewritten(ts[k]))
  }

  /** What a string's inside stands for: characters, and escapes other than escaped quotes. */
  datatype Unit = Plain(c: char) | Escape(c: char)

  function Decoded(body: string): seq<Unit> {
    if body == [] then []
    else if body[0] == '\\' && |body| > 1 then
      [if body[1] == '"' || body[1] == '\'' then Plain(body[1]) else Escape(body[1])] + Decoded(body[2..])
    else [Plain(body[0])] + Decoded(body[1..])
  }

  predicate SameMeaning(t: Token, u: Token) {
    if IsString(t) then IsString(u) && Decoded(Body(t)) == Decoded(Body(u)) else t == u
  }

  /** The rewriting loop reads a template as code: this position opens neither a string nor a
      comment. */
  predicate Ordinary(t: string, k: nat) {
    k < |t| ==> t[k] != '"' && t[k] != '\'' && !StartsLine(t[k..]) && !StartsBlock(t[k..])
  }

  predicate IsPlain(t: Token) {
    IsTemplate(t) ==> forall k: nat | k < |t| :: Ordinary(t, k)
  }

  /** Lexically closed text whose templates, if it has any, hold no quote and no comment
      opener. */
  ghost predicate SafeTemplates(s: string) {
    Lex(s).Some? && forall t | t in Lex(s).value :: IsPlain(t)
  }

  predicate Kept(t: Token, u: Token) {
    SameMeaning(t, u) && !IsSingle(u)
  }

  /** The same tokens in the same order, each meaning what it meant, none single-quoted. */
  ghost predicate KeepsMeaning(s: string, out: string) {
    Lex(s).Some? && Lex(out).Some? && AllKept(Lex(s).value, Lex(out).value)
  }

  predicate AllKept(ts: seq<Token>, us: seq<Token>) {
    |us| == |ts| && forall k | 0 <= k < |ts| :: Kept(ts[k], us[k])
  }

  // ---- One token at a time ---------------------------------------------------------------

  lemma {:induction false} DoubleToTheQuote(s: string)
    requires StrLen(s, '"') > 0
    ensures var n := StrLen(s, '"'); Normalized(Double, s) == s[..n] + Normalized(Code, s[n..])
    decreases |s|
  {
    StrLenStep(s, '"');
    NormalizedStep(Double, s);
    hide StrLen, Normalized;
    var n := StrLen(s, '"');
    var k := if s[0] == '\\' then 2 else 1;
    assert s[..k] == if k == 2 then [s[0], s[1]] else [s[0]];
    if s[0] != '"' {
      DoubleToTheQuote(s[k..]);
      Copied(s, k, n, Normalized(Code, s[n..]));
    }
  }

  lemma Reassociate(a: string, b: string, c: string, d: string)
    ensures a + (b + c + d) == (a + b) + c + d
  {
  }

  lemma {:induction false} SingleToTheQuote(s: string)
    requires StrLen(s, '\'') > 0
    ensures var n := StrLen(s, '\''); Normalized(Single, s) == Requoted(s[..n - 1]) + "\"" + Normalized(Code, s[n..])
    decreases |s|
  {
    var n := StrLen(s, '\'');
    if s[0] == '\'' {
      SingleEnds(s);
    } else {
      SinglePiece(s, n);
      SingleGoesOn(s);
      var k := PieceLen(s);
      hide StrLen, Normalized, Requoted, Piece, PieceLen;
      SingleToTheQuote(s[k..]);
      Within(s, k, n);
      Reassociate(Piece(s), Requoted(s[..n - 1][k..]), "\"", Normalized(Code, s[n..]));
    }
  }

  lemma SingleEnds(s: string)
    requires s != [] && s[0] == '\''
    ensures StrLen(s, '\'') == 1 && Normalized(Single, s) == Requoted(s[..0]) + "\"" + Normalized(Code, s[1..])
  {
    NormalizedStep(Single, s);
    hide Normalized;
    assert Requoted("") + "\"" == "\"";
  }

  lemma SingleGoesOn(s: string)
    requires s != [] && s[0] != '\''
    ensures Normalized(Single, s) == Piece(s) + Normalized(Single, s[PieceLen(s)..])
  {
    NormalizedStep(Single, s);
  }

  lemma Within(s: string, k: nat, n: nat)
    requires k < n <= |s|
    ensures s[..n - 1][k..] == s[k..][..n - k - 1] && s[n..] == s[k..][n - k..]
  {
  }

  /** Inside a string that goes on, its first piece is also the first piece of its body. */
  lemma {:induction false} SinglePiece(s: string, n: nat)
    requires s != [] && s[0] != '\'' && n == StrLen(s, '\'') > 0
    ensures var body, k := s[..n - 1], PieceLen(s);
      k < n && StrLen(s[k..], '\'') == n - k && Requoted(body) == Piece(s) + Requoted(body[k..])
  {
    StrLenStep(s, '\'');
    hide StrLen;
    var body := s[..n - 1];
    assert |body| > 1 ==> body[..2] == s[..2];
  }

  lemma {:induction false} LineToTheEnd(s: string)
    ensures var n := LineLen(s); Normalized(Line, s) == s[..n] + Normalized(Code, s[n..])
    decreases |s|
  {
    if s != [] && s[0] != '\n' {
      var n := LineLen(s);
      LineToTheEnd(s[1..]);
      assert s[..n] == [s[0]] + s[1..][..n - 1] && s[n..] == s[1..][n - 1..];
    }
  }

  lemma {:induction false} BlockToTheEnd(s: string)
    requires BlockLen(s) > 0
    ensures var n := BlockLen(s); Normalized(Block, s) == s[..n] + Normalized(Code, s[n..])
    decreases |s|
  {
    if !(s[0] == '*' && s[1] == '/') {
      var n := BlockLen(s);
      BlockToTheEnd(s[1..]);
      assert s[..n] == [s[0]] + s[1..][..n - 1] && s[n..] == s[1..][n - 1..];
    }
  }

  /** A prefix copied in two steps: what `Normalized` left in front of the rest. */
  lemma Copied(s: string, k: nat, n: nat, rest: string)
    requires k <= n <= |s|
    ensures s[..k] + (s[k..][..n - k] + rest) == s[..n] + rest
    ensures s[k..][n - k..] == s[n..]
  {
  }

  lemma {:induction false} DoubleFront(s: string, n: nat)
    requires s != [] && s[0] == '"' && n == FrontLen(s) > 0
    ensures Normalized(Code, s) == s[..n] + Normalized(Code, s[n..])
  {
    NormalizedStep(Code, s);
    hide Normalized, StrLen;
    DoubleToTheQuote(s[1..]);
    assert s[..1] == "\"";
    Copied(s, 1, n, Normalized(Code, s[n..]));
  }

  lemma {:induction false} SingleFront(s: string, n: nat)
    requires s != [] && s[0] == '\'' && n == FrontLen(s) > 0
    ensures Normalized(Code, s) == Rewritten(s[..n]) + Normalized(Code, s[n..])
  {
    assert n - 1 == StrLen(s[1..], '\'') > 0;
    hide FrontLen, StrLen, Requoted;
    NormalizedStep(Code, s);
    hide Normalized;
    SingleToTheQuote(s[1..]);
    SingleToken(s, n);
    Reassociate("\"", Requoted(s[1..][..n - 2]), "\"", Normalized(Code, s[n..]));
  }

  lemma {:induction false} SingleToken(s: string, n: nat)
    requires 2 <= n <= |s| && s[0] == '\''
    ensures Rewritten(s[..n]) == "\"" + Requoted(s[1..][..n - 2]) + "\"" && s[1..][n - 1..] == s[n..]
  {
    hide Requoted;
    assert Body(s[..n]) == s[1..][..n - 2];
  }

  lemma {:induction false} CommentFront(s: string, n: nat)
    requires (StartsLine(s) || StartsBlock(s)) && n == FrontLen(s) > 0
    ensures Normalized(Code, s) == s[..n] + Normalized(Code, s[n..])
  {
    NormalizedStep(Code, s);
    hide Normalized, LineLen, BlockLen;
    if StartsLine(s) {
      LineToTheEnd(s[2..]);
    } else {
      BlockToTheEnd(s[2..]);
    }
    assert s[..2] == [s[0], s[1]];
    Copied(s, 2, n, Normalized(Code, s[n..]));
  }

  /** Outside strings and comments the loop copies. */
  lemma {:induction false} CodeCopies(s: string, m: nat)
    requires m <= |s| && forall k: nat | k < m :: Ordinary(s, k)
    ensures Normalized(Code, s) == s[..m] + Normalized(Code, s[m..])
    decreases |s|
  {
    if m > 0 {
      NormalizedStep(Code, s);
      hide Normalized;
      assert Ordinary(s, 0) && s[0..] == s;
      forall k: nat | k < m - 1 ensures Ordinary(s[1..], k) {
        assert Ordinary(s, k + 1) && s[1..][k..] == s[k + 1..];
      }
      CodeCopies(s[1..], m - 1);
      assert s[..1] == [s[0]];
      Copied(s, 1, m, Normalized(Code, s[m..]));
    } else {
      assert s[0..] == s;
    }
  }

  lemma {:induction false} TemplateFront(s: string, n: nat)
    requires s != [] && s[0] == '`' && n == FrontLen(s) > 0 && IsPlain(s[..n])
    ensures Normalized(Code, s) == s[..n] + Normalized(Code, s[n..])
  {
    var t := s[..n];
    forall k: nat | k < n ensures Ordinary(s, k) {
      assert Ordinary(t, k);
      if k + 1 < n {
        assert t[k..][0] == s[k] && t[k..][1] == s[k + 1];
      } else {
        assert s[k] == s[1..][n - 2] == '`';
      }
    }
    hide Normalized;
    CodeCopies(s, n);
  }

  lemma FrontIsRewritten(s: string)
    requires s != [] && FrontLen(s) > 0 && IsPlain(s[..FrontLen(s)])
    ensures var n := FrontLen(s); Normalized(Code, s) == Rewritten(s[..n]) + Normalized(Code, s[n..])
  {
    var n := FrontLen(s);
    if s[0] == '\'' {
      SingleFront(s, n);
    } else if s[0] == '"' {
      DoubleFront(s, n);
    } else if StartsLine(s) || StartsBlock(s) {
      CommentFront(s, n);
    } else if s[0] == '`' {
      TemplateFront(s, n);
    } else {
      NormalizedStep(Code, s);
      hide Normalized;
      assert s[..1] == [s[0]];
    }
  }

  lemma {:induction false} SafeIsRewritten(s: string)
    requires SafeTemplates(s)
    ensures Normalized(Code, s) == TextOf(RewrittenAll(Lex(s).value))
    decreases |s|
  {
    if s != [] {
      JsBalance.LexUnfolds(s);
      var n := FrontLen(s);
      JsBalance.LexStep(s, n);
      hide Lex, FrontLen, Normalized, Rewritten, TextOf, IsPlain;
      var rest := Lex(s[n..]).value;
      SafeRest(s, s[..n], s[n..]);
      FrontIsRewritten(s);
      SafeIsRewritten(s[n..]);
      RewrittenCons(s[..n], rest);
    } else {
      assert Lex(s).value == [];
    }
  }

  lemma SafeRest(s: string, t: Token, rest: string)
    requires SafeTemplates(s) && Lex(rest).Some? && Lex(s).value == [t] + Lex(rest).value
    ensures IsPlain(t) && SafeTemplates(rest)
  {
    hide IsPlain, Lex;
    assert t in Lex(s).value && forall u | u in Lex(rest).value :: u in Lex(s).value;
  }

  lemma RewrittenCons(t: Token, rest: seq<Token>)
    ensures TextOf(RewrittenAll([t] + rest)) == Rewritten(t) + TextOf(RewrittenAll(rest))
  {
    hide Rewritten, TextOf;
    assert RewrittenAll([t] + rest) == [Rewritten(t)] + RewrittenAll(rest);
    ConsText(Rewritten(t), RewrittenAll(rest));
  }

  lemma ConsText(t: Token, ts: seq<Token>)
    ensures TextOf([t] + ts) == t + TextOf(ts)
  {
    assert ([t] + ts)[1..] == ts;
  }

  // ---- The rewritten text lexes to the rewritten tokens ----------------------------------

  lemma {:induction false} RequotedCloses(body: string, x: string)
    requires StrLen(body + "'", '\'') == |body| + 1
    ensures StrLen(Requoted(body) + "\"" + x, '"') == |Requoted(body)| + 1
    decreases |body|
  {
    var s, u := body + "'", Requoted(body) + "\"" + x;
    StrLenStep(s, '\'');
    StrLenStep(u, '"');
    hide StrLen;
    if body != [] {
      var k := PieceLen(body);
      assert s[k..] == body[k..] + "'";
      RequotedCloses(body[k..], x);
      UnquotedTail(Piece(body), Requoted(body[k..]), x);
    }
  }

  lemma UnquotedTail(piece: string, rest: string, x: string)
    ensures (piece + rest + "\"" + x)[|piece|..] == rest + "\"" + x
  {
  }

  /** The rewritten text starts as the original does, up to the kind of quote. */
  predicate StartsAlike(s: string, u: string) {
    (s == [] <==> u == []) && (s != [] ==> u[0] == s[0] || (s[0] == '\'' && u[0] == '"'))
  }

  lemma {:induction false} NoNewlineLineLen(a: string, x: string)
    requires '\n' !in a && (x == [] || x[0] == '\n')
    ensures LineLen(a + x) == |a|
    decreases |a|
  {
    if a == [] {
      assert a + x == x;
    } else {
      assert (a + x)[1..] == a[1..] + x;
      NoNewlineLineLen(a[1..], x);
    }
  }

  lemma SingleRelexes(s: string, n: nat, u: string)
    requires s != [] && s[0] == '\'' && n == FrontLen(s) > 0
    ensures var t := Rewritten(s[..n]); t != [] && FrontLen(t + u) == |t|
  {
    hide StrLen, Requoted;
    var body := Body(s[..n]);
    assert s[1..n] == body + "'" && s[1..] == s[1..n] + s[n..];
    StrLenStable(s[1..n], s[n..], '\'');
    RequotedCloses(body, u);
    assert ("\"" + Requoted(body) + "\"" + u)[1..] == Requoted(body) + "\"" + u;
  }

  lemma StringRelexes(s: string, n: nat, u: string)
    requires s != [] && IsQuote(s[0]) && n == FrontLen(s) > 0
    ensures FrontLen(s[..n] + u) == n
  {
    hide StrLen;
    assert s[1..] == s[1..n] + s[n..] && (s[..n] + u)[1..] == s[1..n] + u;
    StrLenStable(s[1..n], s[n..], s[0]);
    StrLenStable(s[1..n], u, s[0]);
  }

  lemma CommentRelexes(s: string, n: nat, u: string)
    requires (StartsLine(s) || StartsBlock(s)) && n == FrontLen(s) > 0
    requires StartsAlike(s[n..], u)
    ensures FrontLen(s[..n] + u) == n
  {
    hide LineLen, BlockLen;
    var v := s[..n] + u;
    assert s[2..] == s[2..n] + s[n..] && v[2..] == s[2..n] + u;
    if StartsLine(s) {
      assert s[2..n] == s[2..][..n - 2];
      assert s[n..] != [] ==> s[n..][0] == s[2..][n - 2];
      NoNewlineLineLen(s[2..n], u);
    } else {
      BlockLenStable(s[2..n], s[n..]);
      BlockLenStable(s[2..n], u);
    }
  }

  lemma RewrittenLexes(s: string, u: string)
    requires s != [] && FrontLen(s) > 0
    requires StartsAlike(s[FrontLen(s)..], u)
    ensures var t := Rewritten(s[..FrontLen(s)]); t != [] && FrontLen(t + u) == |t|
  {
    var n := FrontLen(s);
    if s[0] == '\'' {
      SingleRelexes(s, n, u);
    } else if IsQuote(s[0]) {
      StringRelexes(s, n, u);
    } else if StartsLine(s) || StartsBlock(s) {
      CommentRelexes(s, n, u);
    } else {
      var v := s[..1] + u;
      assert |s| > 1 ==> s[1..][0] == s[1];
      assert |v| > 1 ==> v[1] == u[0];
    }
  }

  lemma {:induction false} TextStartsAlike(s: string)
    requires Lex(s).Some?
    ensures StartsAlike(s, TextOf(RewrittenAll(Lex(s).value)))
  {
    if s != [] {
      var n := FrontLen(s);
      var ts, rest := Lex(s).value, Lex(s[n..]).value;
      hide FrontLen, TextOf, Requoted;
      assert ts == [s[..n]] + rest;
      assert RewrittenAll(ts) == [Rewritten(s[..n])] + RewrittenAll(rest);
      ConsText(Rewritten(s[..n]), RewrittenAll(rest));
    } else {
      assert Lex(s).value == [];
    }
  }

  lemma {:induction false} RewrittenRelexes(s: string)
    requires Lex(s).Some?
    ensures var us := RewrittenAll(Lex(s).value); Lex(TextOf(us)) == Some(us)
    decreases |s|
  {
    if s == [] {
      assert RewrittenAll(Lex(s).value) == [];
    } else {
      JsBalance.LexNonEmpty(s);
      JsBalance.LexUnfolds(s);
      var n := FrontLen(s);
      JsBalance.LexStep(s, n);
      RewrittenRelexes(s[n..]);
      TextStartsAlike(s[n..]);
      RelexedOn(s, n, Lex(s[n..]).value);
    }
  }

  lemma {:induction false} RelexedOn(s: string, n: nat, rest: seq<Token>)
    requires s != [] && n == FrontLen(s) > 0 && StartsAlike(s[n..], TextOf(RewrittenAll(rest)))
    requires Lex(TextOf(RewrittenAll(rest))) == Some(RewrittenAll(rest))
    ensures var us := RewrittenAll([s[..n]] + rest); Lex(TextOf(us)) == Some(us)
  {
    hide FrontLen, TextOf, Rewritten, Lex, StartsAlike;
    var t, ws := Rewritten(s[..n]), RewrittenAll(rest);
    RewrittenLexes(s, TextOf(ws));
    Relexed(t, ws);
    assert RewrittenAll([s[..n]] + rest) == [t] + ws;
  }

  /** A token that stays the front token, before tokens that are read back. */
  lemma {:induction false} Relexed(t: Token, ws: seq<Token>)
    requires t != [] && FrontLen(t + TextOf(ws)) == |t| && Lex(TextOf(ws)) == Some(ws)
    ensures Lex(TextOf([t] + ws)) == Some([t] + ws)
  {
    hide FrontLen, TextOf, Lex;
    ConsText(t, ws);
    var v := t + TextOf(ws);
    assert v[|t|..] == TextOf(ws) && v[..|t|] == t;
    JsBalance.LexStep(v, |t|);
  }

  // ---- Meaning ---------------------------------------------------------------------------

  lemma {:induction false} RequotedDecodes(body: string)
    ensures Decoded(Requoted(body)) == Decoded(body)
    decreases |body|
  {
    var u := Requoted(body);
    if body == [] {
    } else if body[0] == '\\' && |body| > 1 {
      RequotedDecodes(body[2..]);
      if body[1] == '\'' {
        assert u[1..] == Requoted(body[2..]);
      } else {
        assert u[2..] == Requoted(body[2..]);
      }
    } else {
      RequotedDecodes(body[1..]);
      if body[0] == '"' {
        assert u[2..] == Requoted(body[1..]);
      } else {
        assert u[1..] == Requoted(body[1..]);
      }
    }
  }

  /** Some escape in there is that of an apostrophe, which JSON does not have. */
  predicate EscapesApostrophe(body: string) {
    |body| > 1 && if body[0] == '\\' then body[1] == '\'' || EscapesApostrophe(body[2..]) else EscapesApostrophe(body[1..])
  }

  /** A requoted string stands for the same characters without escaping any apostrophe. */
  lemma {:induction false} RequotedUnescapes(body: string)
    ensures !EscapesApostrophe(Requoted(body))
    decreases |body|
  {
    var u := Requoted(body);
    if body != [] {
      var k := PieceLen(body);
      RequotedUnescapes(body[k..]);
      if |u| > 1 {
        assert u[|Piece(body)|..] == Requoted(body[k..]);
      }
    }
  }

  lemma RewrittenMeansTheSame(t: Token)
    ensures SameMeaning(t, Rewritten(t)) && !IsSingle(Rewritten(t))
    ensures |t| == 1 || |Rewritten(t)| == 1 ==> Rewritten(t) == t
  {
    if IsSingle(t) {
      RequotedDecodes(Body(t));
      assert Body(Rewritten(t)) == Requoted(Body(t));
    }
  }

  lemma {:induction false} KeptBrackets(ts: seq<Token>, us: seq<Token>)
    requires AllKept(ts, us)
    ensures JsBalance.Brackets(us) == JsBalance.Brackets(ts)
    ensures JsBalance.EndsInCloser(us) == JsBalance.EndsInCloser(ts)
    decreases |ts|
  {
    if ts != [] {
      assert Kept(ts[0], us[0]) && Kept(ts[|ts| - 1], us[|us| - 1]);
      forall k | 0 <= k < |ts| - 1 ensures Kept(ts[1..][k], us[1..][k]) {
        assert Kept(ts[k + 1], us[k + 1]);
      }
      KeptBrackets(ts[1..], us[1..]);
      hide Decoded;
    }
  }

  // ---- The loop itself -------------------------------------------------------------------

  method NormalizeJsToJson(src: string) returns (out: string)
    ensures out == Normalized(Code, src)
  {
    hide Normalized;
    out := "";
    var i := 0;
    assert src[0..] == src;
    while i < |src|
      invariant i <= |src|
      invariant out + Normalized(Code, src[i..]) == Normalized(Code, src)
    {
      var c := src[i];
      NormalizedAt(src, i, Code);
      if c == '"' {
        Joined(out, [c], Normalized(Double, src[i + 1..]));
        out, i := CopyDouble(src, i + 1, out + [c]);
      } else if c == '\'' {
        Joined(out, "\"", Normalized(Single, src[i + 1..]));
        out, i := TranscodeSingle(src, i + 1, out + "\"");
      } else if c == '/' && i + 1 < |src| && src[i + 1] == '/' {
        Joined(out, "//", Normalized(Line, src[i + 2..]));
        out, i := CopyLine(src, i + 2, out + "//");
      } else if c == '/' && i + 1 < |src| && src[i + 1] == '*' {
        Joined(out, "/*", Normalized(Block, src[i + 2..]));
        out, i := CopyBlock(src, i + 2, out + "/*");
      } else {
        Joined(out, [c], Normalized(Code, src[i + 1..]));
        out := out + [c];
        i := i + 1;
      }
    }
    NothingLeft(src, i);
  }

  lemma Joined(a: string, b: string, c: string)
    ensures a + (b + c) == (a + b) + c
  {
  }

  lemma NormalizedAt(src: string, i: nat, mode: Mode)
    requires i < |src|
    ensures Normalized(mode, src[i..]) ==
      match mode
      case Code =>
        if src[i] == '"' then "\"" + Normalized(Double, src[i + 1..])
        else if src[i] == '\'' then "\"" + Normalized(Single, src[i + 1..])
        else if i + 1 < |src| && src[i] == '/' && src[i + 1] == '/' then "//" + Normalized(Line, src[i + 2..])
        else if i + 1 < |src| && src[i] == '/' && src[i + 1] == '*' then "/*" + Normalized(Block, src[i + 2..])
        else [src[i]] + Normalized(Code, src[i + 1..])
      case Double =>
        if src[i] == '\\' && i + 1 < |src| then [src[i], src[i + 1]] + Normalized(Double, src[i + 2..])
        else [src[i]] + Normalized(if src[i] == '"' then Code else Double, src[i + 1..])
      case Single =>
        if src[i] == '\'' then "\"" + Normalized(Code, src[i + 1..])
        else if src[i] == '\\' && i + 1 < |src| then
          (if src[i + 1] == '\'' then "'" else [src[i], src[i + 1]]) + Normalized(Single, src[i + 2..])
        else (if src[i] == '"' then "\\\"" else [src[i]]) + Normalized(Single, src[i + 1..])
      case Line => [src[i]] + Normalized(if src[i] == '\n' then Code else Line, src[i + 1..])
      case Block =>
        if i + 1 < |src| && src[i] == '*' && src[i + 1] == '/' then "*/" + Normalized(Code, src[i + 2..])
        else [src[i]] + Normalized(Block, src[i + 1..])
  {
    NormalizedStep(mode, src[i..]);
    var s := src[i..];
    assert s[1..] == src[i + 1..];
    if i + 1 < |src| {
      assert s[2..] == src[i + 2..] && s[..2] == [src[i], src[i + 1]];
    }
  }

  method CopyDouble(src: string, from: nat, before: string) returns (out: string, i: nat)
    requires from <= |src|
    ensures from <= i <= |src|
    ensures out + Normalized(Code, src[i..]) == before + Normalized(Double, src[from..])
  {
    hide Normalized;
    ghost var goal := before + Normalized(Double, src[from..]);
    out, i := before, from;
    var closed := false;
    while i < |src| && !closed
      invariant from <= i <= |src|
      invariant out + Normalized(if closed then Code else Double, src[i..]) == goal
      decreases |src| - i
    {
      NormalizedAt(src, i, Double);
      if src[i] == '\\' && i + 1 < |src| {
        Joined(out, [src[i], src[i + 1]], Normalized(Double, src[i + 2..]));
        out := out + [src[i], src[i + 1]];
        i := i + 2;
      } else {
        closed := src[i] == '"';
        Joined(out, [src[i]], Normalized(if closed then Code else Double, src[i + 1..]));
        out := out + [src[i]];
        i := i + 1;
      }
    }
    NothingLeft(src, i);
  }

  method TranscodeSingle(src: string, from: nat, before: string) returns (out: string, i: nat)
    requires from <= |src|
    ensures from <= i <= |src|
    ensures out + Normalized(Code, src[i..]) == before + Normalized(Single, src[from..])
  {
    hide Normalized;
    ghost var goal := before + Normalized(Single, src[from..]);
    out, i := before, from;
    var closed := false;
    while i < |src| && !closed
      invariant from <= i <= |src|
      invariant out + Normalized(if closed then Code else Single, src[i..]) == goal
      decreases |src| - i
    {
      NormalizedAt(src, i, Single);
      var piece;
      if src[i] == '\\' && i + 1 < |src| {
        piece := if src[i + 1] == '\'' then "'" else [src[i], src[i + 1]];
        i := i + 2;
      } else {
        closed := src[i] == '\'';
        piece := if closed then "\"" else if src[i] == '"' then "\\\"" else [src[i]];
        i := i + 1;
      }
      Joined(out, piece, Normalized(if closed then Code else Single, src[i..]));
      out := out + piece;
    }
    NothingLeft(src, i);
  }

  method CopyLine(src: string, from: nat, before: string) returns (out: string, i: nat)
    requires from <= |src|
    ensures from <= i <= |src|
    ensures out + Normalized(Code, src[i..]) == before + Normalized(Line, src[from..])
  {
    hide Normalized;
    ghost var goal := before + Normalized(Line, src[from..]);
    out, i := before, from;
    while i < |src| && src[i] != '\n'
      invariant from <= i <= |src|
      invariant out + Normalized(Line, src[i..]) == goal
    {
      NormalizedAt(src, i, Line);
      out := out + [src[i]];
      i := i + 1;
    }
    NothingLeft(src, i);
    if i < |src| {
      NormalizedAt(src, i, Line);
      NormalizedAt(src, i, Code);
    }
  }

  method CopyBlock(src: string, from: nat, before: string) returns (out: string, i: nat)
    requires from <= |src|
    ensures from <= i <= |src|
    ensures out + Normalized(Code, src[i..]) == before + Normalized(Block, src[from..])
  {
    hide Normalized;
    ghost var goal := before + Normalized(Block, src[from..]);
    out, i := before, from;
    var closed := false;
    while i < |src| && !closed
      invariant from <= i <= |src|
      invariant out + Normalized(if closed then Code else Block, src[i..]) == goal
      decreases |src| - i
    {
      NormalizedAt(src, i, Block);
      var d := src[i];
      out := out + [d];
      i := i + 1;
      if d == '*' && i < |src| && src[i] == '/' {
        out := out + [src[i]];
        i := i + 1;
        closed := true;
      }
    }
    NothingLeft(src, i);
  }

  /** At the end of the text every mode has nothing more to write. */
  lemma NothingLeft(src: string, i: nat)
    requires i <= |src|
    ensures i == |src| ==> forall mode :: Normalized(mode, src[i..]) == ""
  {
  }
}
