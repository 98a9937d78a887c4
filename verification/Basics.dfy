/** What several components share: optional values and searching a text for a character. */
module Basics {
  datatype Option<+T> = None | Some(value: T)

  function LowerChar(c: char): char {
    if 'A' <= c <= 'Z' then (c as int - 'A' as int + 'a' as int) as char else c
  }

  /** The value of a hexadecimal digit of either case, or -1. */
  function HexDigit(c: char): (d: int)
    ensures -1 <= d < 16
  {
    if '0' <= c <= '9' then c as int - '0' as int
    else if 'A' <= c <= 'F' then c as int - 'A' as int + 10
    else if 'a' <= c <= 'f' then c as int - 'a' as int + 10
    else -1
  }

  /** ASCII letters lowered, everything else kept. */
  function Lowered(s: string): (t: string)
    ensures |t| == |s| && forall k | 0 <= k < |s| :: t[k] == LowerChar(s[k])
  {
    seq(|s|, k requires 0 <= k < |s| => LowerChar(s[k]))
  }

  /** Equal but for the case of ASCII letters: where they differ, it is by the 32 between an
      upper-case letter and its lower-case one. */
  predicate SameLetters(s: string, t: string) {
    |s| == |t| && forall k | 0 <= k < |s| ::
      || s[k] == t[k]
      || ('A' <= s[k] <= 'Z' && t[k] as int == s[k] as int + 32)
      || ('A' <= t[k] <= 'Z' && s[k] as int == t[k] as int + 32)
  }

  lemma LoweredIsSame(s: string, t: string)
    ensures Lowered(s) == Lowered(t) <==> SameLetters(s, t)
  {
    if Lowered(s) == Lowered(t) {
      forall k | 0 <= k < |s| ensures LowerChar(s[k]) == LowerChar(t[k]) {
        assert Lowered(s)[k] == Lowered(t)[k];
      }
    }
  }

  /** Where the character first occurs, or the length of the text. */
  function IndexOf(s: string, c: char): (k: nat)
    ensures k <= |s| && c !in s[..k] && (k < |s| ==> s[k] == c)
  {
    if s == "" || s[0] == c then 0 else 1 + IndexOf(s[1..], c)
  }

  lemma {:induction false} IndexIs(s: string, c: char, k: nat)
    requires k <= |s| && c !in s[..k] && (k < |s| ==> s[k] == c)
    ensures IndexOf(s, c) == k
    decreases |s|
  {
    if k > 0 {
      assert s[0] == s[..k][0];
      assert forall x | x in s[1..][..k - 1] :: x in s[..k];
      IndexIs(s[1..], c, k - 1);
    }
  }

  /** What stands before the first occurrence. */
  lemma IndexAfter(front: string, c: char, rest: string)
    requires c !in front
    ensures var s := front + [c] + rest;
      && IndexOf(s, c) == |front| && s[..|front|] == front && s[|front| + 1..] == rest
  {
    var s := front + [c] + rest;
    assert s[..|front|] == front;
    IndexIs(s, c, |front|);
  }

  /** Looks for a character from a position on. */
  method Find(s: string, c: char, from: nat) returns (k: nat)
    requires from <= |s|
    ensures from <= k <= |s| && k == from + IndexOf(s[from..], c)
  {
    k := from;
    while k < |s| && s[k] != c
      invariant from <= k <= |s| && c !in s[from..k]
    {
      k := k + 1;
    }
    assert s[from..][..k - from] == s[from..k];
    IndexIs(s[from..], c, k - from);
  }

  /** The stretches between separators, in order. */
  function Pieces(s: string, sep: char): (ps: seq<string>)
    ensures ps != []
    decreases |s|
  {
    var k := IndexOf(s, sep);
    if k == |s| then [s] else [s[..k]] + Pieces(s[k + 1..], sep)
  }

  /** One more stretch behind a separator. */
  lemma {:induction false} PiecesSnoc(s: string, sep: char, last: string)
    requires sep !in last
    ensures Pieces(s + [sep] + last, sep) == Pieces(s, sep) + [last]
    ensures Pieces(last, sep) == [last]
    decreases |s|
  {
    hide IndexOf;
    var t := s + [sep] + last;
    var k := IndexOf(s, sep);
    IndexIs(last, sep, |last|);
    if k == |s| {
      IndexAfter(s, sep, last);
    } else {
      var rest := s[k + 1..];
      assert s == s[..k] + [sep] + rest;
      assert t == s[..k] + [sep] + (rest + [sep] + last);
      IndexAfter(s[..k], sep, rest + [sep] + last);
      PiecesSnoc(rest, sep, last);
    }
  }
}
