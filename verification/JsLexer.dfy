/** The lexical structure that the JavaScript literal scanner sees: strings, comments and
    single characters.  Everything is defined on the remaining text, front first. */
module JsLexer {
  import opened Basics

  /** One lexical element, by its own text: a string with its quotes, a comment (a line
      comment does not own its newline), or a single character. */
  type Token = string

  predicate IsQuote(c: char) {
    c == '"' || c == '\'' || c == '`'
  }

  predicate IsOpener(c: char) {
    c == '{' || c == '['
  }

  predicate IsCloser(c: char) {
    c == '}' || c == ']'
  }

  function CloserOf(c: char): char {
    if c == '{' then '}' else ']'
  }

  predicate StartsLine(s: string) {
    |s| >= 2 && s[0] == '/' && s[1] == '/'
  }

  predicate StartsBlock(s: string) {
    |s| >= 2 && s[0] == '/' && s[1] == '*'
  }

  /** `n` counted from `k` further on; zero keeps meaning "not found". */
  function Past(k: nat, n: nat): nat {
    if n == 0 then 0 else k + n
  }

  /** Characters up to and including the closing quote; zero when the string never ends. */
  function StrLen(s: string, quote: char): (n: nat)
    ensures n <= |s|
    ensures n > 0 ==> s[n - 1] == quote
  {
    if s == [] then 0
    else if s[0] == '\\' then
      if |s| < 2 then 0 else Past(2, StrLen(s[2..], quote))
    else if s[0] == quote then 1
    else Past(1, StrLen(s[1..], quote))
  }

  lemma StrLenStep(s: string, quote: char)
    requires s != []
    ensures StrLen(s, quote)
         == if s[0] == '\\' then (if |s| > 1 then Past(2, StrLen(s[2..], quote)) else 0)
            else if s[0] == quote then 1
            else Past(1, StrLen(s[1..], quote))
  {
  }

  /** Characters before the next newline, or to the end of the text. */
  function LineLen(s: string): (n: nat)
    ensures n <= |s|
    ensures n < |s| ==> s[n] == '\n'
    ensures '\n' !in s[..n]
  {
    if s == [] || s[0] == '\n' then 0 else 1 + LineLen(s[1..])
  }

  /** Characters up to and including the end of a block comment; zero when it never ends. */
  function BlockLen(s: string): (n: nat)
    ensures n <= |s|
    ensures n > 0 ==> n >= 2 && s[n - 2] == '*' && s[n - 1] == '/'
  {
    if |s| < 2 then 0
    else if s[0] == '*' && s[1] == '/' then 2
    else Past(1, BlockLen(s[1..]))
  }

  /** Length of the token at the front of the text; zero when it is not terminated. */
  function FrontLen(s: string): (n: nat)
    requires s != []
    ensures n <= |s|
  {
    if IsQuote(s[0]) then Past(1, StrLen(s[1..], s[0]))
    else if StartsLine(s) then 2 + LineLen(s[2..])
    else if StartsBlock(s) then Past(2, BlockLen(s[2..]))
    else 1
  }

  function TextOf(ts: seq<Token>): string {
    if ts == [] then "" else ts[0] + TextOf(ts[1..])
  }

  /** The whole text as tokens, or None when a string or block comment is left open. */
  function Lex(s: string): (ts: Option<seq<Token>>)
    ensures ts.Some? ==> TextOf(ts.value) == s
    ensures ts.Some? ==> forall t :: t in ts.value ==> t != ""
    ensures ts.Some? && s != [] ==> ts.value != []
    decreases |s|
  {
    if s == [] then Some([])
    else
      var n := FrontLen(s);
      if n == 0 then None
      else
        match Lex(s[n..])
        case None => None
        case Some(rest) =>
          assert ([s[..n]] + rest)[1..] == rest;
          Some([s[..n]] + rest)
  }

  /** A token of length n is settled by what lies inside `a`: either something of `a`
      follows it, or it is a single character that starts no comment. */
  predicate Settled(n: nat, a: string)
    requires a != []
  {
    0 < n < |a| || (n == 1 && |a| == 1 && a[0] != '/')
  }

  lemma {:induction false} StrLenStable(a: string, x: string, quote: char)
    ensures StrLen(a, quote) > 0 ==> StrLen(a + x, quote) == StrLen(a, quote)
    ensures 0 < StrLen(a + x, quote) <= |a| ==> StrLen(a, quote) == StrLen(a + x, quote)
    decreases |a|
  {
    if a != [] {
      StrLenStep(a, quote);
      StrLenStep(a + x, quote);
      hide StrLen;
      if a[0] != '\\' && a[0] != quote {
        assert (a + x)[1..] == a[1..] + x;
        StrLenStable(a[1..], x, quote);
      } else if |a| > 1 {
        assert (a + x)[2..] == a[2..] + x;
        StrLenStable(a[2..], x, quote);
      }
    }
  }

  lemma {:induction false} LineLenStable(a: string, x: string)
    ensures LineLen(a) < |a| || LineLen(a + x) < |a| ==> LineLen(a + x) == LineLen(a)
    decreases |a|
  {
    if a != [] && a[0] != '\n' {
      assert (a + x)[1..] == a[1..] + x;
      LineLenStable(a[1..], x);
    }
  }

  lemma {:induction false} BlockLenStable(a: string, x: string)
    ensures BlockLen(a) > 0 ==> BlockLen(a + x) == BlockLen(a)
    ensures 0 < BlockLen(a + x) <= |a| ==> BlockLen(a) == BlockLen(a + x)
    decreases |a|
  {
    if |a| >= 2 && !(a[0] == '*' && a[1] == '/') {
      assert (a + x)[1..] == a[1..] + x;
      BlockLenStable(a[1..], x);
    }
  }

  /** What follows a settled token has no say in it. */
  lemma FrontStable(a: string, x: string)
    requires a != []
    ensures Settled(FrontLen(a), a) ==> FrontLen(a + x) == FrontLen(a)
    ensures Settled(FrontLen(a + x), a) ==> FrontLen(a) == FrontLen(a + x)
  {
    var s := a + x;
    if IsQuote(a[0]) {
      assert s[1..] == a[1..] + x;
      StrLenStable(a[1..], x, a[0]);
    } else if |a| >= 2 {
      assert s[2..] == a[2..] + x;
      LineLenStable(a[2..], x);
      BlockLenStable(a[2..], x);
    }
  }

  // ---- What the tokens are ---------------------------------------------------------------

  /** How many backslashes stand right before k. */
  function Backslashes(s: string, k: nat): nat
    requires k <= |s|
  {
    if k > 0 && s[k - 1] == '\\' then 1 + Backslashes(s, k - 1) else 0
  }

  /** A quote behind an even number of backslashes closes a string. */
  predicate ClosesAt(s: string, k: nat, quote: char) {
    k < |s| && s[k] == quote && Backslashes(s, k) % 2 == 0
  }

  /** Seen from a place that is not escaped, a string ends behind the first quote that closes
      it, and never when there is none. */
  lemma {:induction false} StringEnds(s: string, from: nat, quote: char)
    requires quote != '\\' && from <= |s| && Backslashes(s, from) % 2 == 0
    ensures var n := StrLen(s[from..], quote);
      && (n > 0 ==> ClosesAt(s, from + n - 1, quote))
      && (forall k: nat | from <= k && (n > 0 ==> k < from + n - 1) :: !ClosesAt(s, k, quote))
    decreases |s| - from
  {
    var rest := s[from..];
    if rest != "" {
      StrLenStep(rest, quote);
      hide StrLen;
      assert rest[0] == s[from] && rest[1..] == s[from + 1..];
      if rest[0] == '\\' {
        if from + 1 < |s| {
          assert rest[2..] == s[from + 2..];
          assert Backslashes(s, from + 1) == 1 + Backslashes(s, from);
          assert !ClosesAt(s, from, quote) && !ClosesAt(s, from + 1, quote);
          assert Backslashes(s, from + 2) % 2 == 0;
          StringEnds(s, from + 2, quote);
        }
      } else if rest[0] != quote {
        StringEnds(s, from + 1, quote);
      }
    }
  }

  /** A string's inside ends at the first quote behind an even number of backslashes. */
  lemma StrLenIs(s: string, quote: char)
    requires quote != '\\'
    ensures var n := StrLen(s, quote);
      && (n > 0 ==> ClosesAt(s, n - 1, quote))
      && (forall k: nat | n == 0 || k < n - 1 :: !ClosesAt(s, k, quote))
  {
    hide StrLen;
    assert s[0..] == s;
    StringEnds(s, 0, quote);
  }

  predicate EndsBlock(s: string, k: nat) {
    k + 1 < |s| && s[k] == '*' && s[k + 1] == '/'
  }

  /** A block comment's inside ends at the first star and slash. */
  lemma {:induction false} BlockLenIs(s: string)
    ensures var n := BlockLen(s);
      && (n > 0 ==> n >= 2 && EndsBlock(s, n - 2))
      && (forall k: nat | n == 0 || k + 2 < n :: !EndsBlock(s, k))
    decreases |s|
  {
    if |s| >= 2 && !(s[0] == '*' && s[1] == '/') {
      BlockLenIs(s[1..]);
      forall k: nat | EndsBlock(s, k) ensures k > 0 && EndsBlock(s[1..], k - 1) {
      }
    }
  }

  /** Which token stands in front: behind a quote of one of three kinds a string, behind two
      slashes or a slash and a star a comment, else one character. */
  lemma FrontIs(s: string)
    requires s != ""
    ensures s[0] in "\"'`" ==> FrontLen(s) == var n := StrLen(s[1..], s[0]); if n == 0 then 0 else n + 1
    ensures "//" <= s ==> FrontLen(s) == 2 + LineLen(s[2..])
    ensures "/*" <= s ==> FrontLen(s) == var n := BlockLen(s[2..]); if n == 0 then 0 else n + 2
    ensures s[0] !in "\"'`" && !("//" <= s) && !("/*" <= s) ==> FrontLen(s) == 1
  {
    hide StrLen, LineLen, BlockLen;
  }
}
