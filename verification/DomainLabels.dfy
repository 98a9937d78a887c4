/** Splitting a host into reversed labels, and why comparing label prefixes is comparing
    host suffixes at a dot. */
module DomainLabels {
  import opened Basics

  type Labels = seq<string>

  function Reversed(s: string): (r: string)
    ensures |r| == |s| && forall k | 0 <= k < |s| :: r[k] == s[|s| - 1 - k]
  {
    seq(|s|, k requires 0 <= k < |s| => s[|s| - 1 - k])
  }

  /** split_domains: the labels of a domain, last one first.  Splitting the empty string
      yields no label at all. */
  function LabelsOf(domain: string): (ls: Labels)
    ensures ls == [] <==> domain == ""
  {
    if domain == "" then []
    else
      var ps := Pieces(Reversed(domain), '.');
      seq(|ps|, k requires 0 <= k < |ps| => Reversed(ps[k]))
  }

  /** The domain is the host, or a suffix of it that starts behind a dot. */
  predicate MatchesHost(domain: string, host: string) {
    |domain| <= |host| && host[|host| - |domain|..] == domain &&
    (|domain| == |host| || host[|host| - |domain| - 1] == '.')
  }

  /** The text's beginning up to a separator, or all of it. */
  predicate BeginsAt(s: string, t: string, sep: char) {
    s == t || (|s| < |t| && t[..|s|] == s && t[|s|] == sep)
  }

  lemma ReversedTwice(s: string)
    ensures Reversed(Reversed(s)) == s
  {
  }

  lemma {:induction false} PiecesPrefix(s: string, t: string, sep: char)
    ensures Pieces(s, sep) <= Pieces(t, sep) <==> BeginsAt(s, t, sep)
    decreases |s|
  {
    var k, j := IndexOf(s, sep), IndexOf(t, sep);
    if BeginsAt(s, t, sep) {
      SameFirst(s, t, sep);
    }
    assert s[..|s|] == s && t[..|t|] == t;
    if k < |s| && j < |t| {
      var a, b := Pieces(s[k + 1..], sep), Pieces(t[j + 1..], sep);
      if s[..k] == t[..j] {
        assert k == |s[..k]| == |t[..j]| == j;
        PiecesPrefix(s[k + 1..], t[j + 1..], sep);
        BeginsPast(s, t, sep, k);
        ConsPrefix(s[..k], a, b);
      } else {
        assert ([s[..k]] + a)[0] != ([t[..j]] + b)[0];
      }
    } else if k == |s| && j < |t| {
      var b := Pieces(t[j + 1..], sep);
      OnePrefix(s, t[..j], b);
      assert s == t[..j] ==> |s| == j && t[|s|] == sep;
    } else if k == |s| {
      OnePrefix(s, t, []);
      assert [t] + [] == [t];
    }
  }

  lemma OnePrefix(x: string, y: string, b: seq<string>)
    ensures [x] <= [y] + b <==> x == y
  {
    assert ([y] + b)[0] == y;
    if [x] <= [y] + b {
      assert [x][0] == ([y] + b)[0];
    }
  }

  lemma SameFirst(s: string, t: string, sep: char)
    requires BeginsAt(s, t, sep)
    ensures IndexOf(s, sep) == IndexOf(t, sep) && s[..IndexOf(s, sep)] == t[..IndexOf(s, sep)]
  {
    var k := IndexOf(s, sep);
    if s != t {
      assert t[..k] == s[..k] && (k < |s| ==> t[k] == s[k]);
      IndexIs(t, sep, k);
    }
  }

  lemma ConsPrefix(x: string, a: seq<string>, b: seq<string>)
    ensures [x] + a <= [x] + b <==> a <= b
  {
    if [x] + a <= [x] + b {
      assert forall i | 0 <= i < |a| :: a[i] == ([x] + a)[i + 1] == ([x] + b)[i + 1] == b[i];
    }
  }

  lemma BeginsPast(s: string, t: string, sep: char, k: nat)
    requires k < |s| && k < |t| && s[..k] == t[..k] && s[k] == t[k]
    ensures BeginsAt(s, t, sep) <==> BeginsAt(s[k + 1..], t[k + 1..], sep)
  {
    assert s == s[..k] + [s[k]] + s[k + 1..] && t == t[..k] + [t[k]] + t[k + 1..];
    if |s| <= |t| {
      assert t[..|s|] == t[..k] + [t[k]] + t[k + 1..][..|s| - k - 1];
    }
  }

  lemma ReversedSuffix(domain: string, host: string)
    ensures BeginsAt(Reversed(domain), Reversed(host), '.') <==> MatchesHost(domain, host)
  {
    var d, h := Reversed(domain), Reversed(host);
    if |domain| <= |host| {
      var suffix := host[|host| - |domain|..];
      assert h[..|d|] == Reversed(suffix);
      if Reversed(suffix) == d {
        ReversedTwice(suffix);
        ReversedTwice(domain);
      }
      assert |domain| == |host| ==> suffix == host && h[..|d|] == h;
    }
  }

  lemma MappedPrefix(ps: seq<string>, qs: seq<string>)
    ensures seq(|ps|, k requires 0 <= k < |ps| => Reversed(ps[k])) <= seq(|qs|, k requires 0 <= k < |qs| => Reversed(qs[k]))
       <==> ps <= qs
  {
    var a := seq(|ps|, k requires 0 <= k < |ps| => Reversed(ps[k]));
    var b := seq(|qs|, k requires 0 <= k < |qs| => Reversed(qs[k]));
    if a <= b {
      forall k | 0 <= k < |ps| ensures ps[k] == qs[k] {
        assert a[k] == b[k];
        ReversedTwice(ps[k]);
        ReversedTwice(qs[k]);
      }
    }
  }

  /** Label prefixes are host suffixes: the trie's test and the string test coincide, but for
      the empty domain, whose empty label list begins every host. */
  lemma LabelPrefixIsSuffix(domain: string, host: string)
    ensures LabelsOf(domain) <= LabelsOf(host) <==> domain == "" || MatchesHost(domain, host)
  {
    if domain != "" && host != "" {
      hide Pieces;
      MappedPrefix(Pieces(Reversed(domain), '.'), Pieces(Reversed(host), '.'));
      PiecesPrefix(Reversed(domain), Reversed(host), '.');
      ReversedSuffix(domain, host);
    }
  }

  /** The two tests part exactly on an empty domain against a host that is neither empty nor
      ends in a dot. */
  lemma {:induction false} EmptyDomainDiffers(domain: string, host: string)
    ensures (LabelsOf(domain) <= LabelsOf(host)) == MatchesHost(domain, host)
       <==> domain != "" || host == "" || host[|host| - 1] == '.'
  {
    LabelPrefixIsSuffix(domain, host);
    assert host[|host|..] == "";
  }

  lemma {:induction false} LabelsAreInjective(a: string, b: string)
    ensures LabelsOf(a) == LabelsOf(b) <==> a == b
  {
    hide LabelsOf;
    if LabelsOf(a) == LabelsOf(b) && a != "" {
      LabelPrefixIsSuffix(a, b);
      LabelPrefixIsSuffix(b, a);
    }
  }

  /** Among domains that match one host, more labels means a longer domain. */
  lemma MoreLabelsIsLonger(a: string, b: string, host: string)
    requires LabelsOf(a) <= LabelsOf(host) && LabelsOf(b) <= LabelsOf(host)
    ensures |LabelsOf(a)| < |LabelsOf(b)| <==> |a| < |b|
  {
    ShorterHasFewer(a, b, host);
    ShorterHasFewer(b, a, host);
    if |a| == |b| && a != "" {
      LabelPrefixIsSuffix(a, host);
      LabelPrefixIsSuffix(b, host);
    }
  }

  lemma ShorterHasFewer(a: string, b: string, host: string)
    requires LabelsOf(a) <= LabelsOf(host) && LabelsOf(b) <= LabelsOf(host)
    ensures |a| < |b| ==> |LabelsOf(a)| < |LabelsOf(b)|
  {
    if |a| < |b| && a != "" {
      hide LabelsOf, MatchesHost;
      LabelPrefixIsSuffix(a, host);
      LabelPrefixIsSuffix(b, host);
      ShorterMatches(a, b, host);
      LabelPrefixIsSuffix(a, b);
      LabelsAreInjective(a, b);
    }
  }

  lemma ShorterMatches(a: string, b: string, host: string)
    requires MatchesHost(a, host) && MatchesHost(b, host) && |a| < |b|
    ensures MatchesHost(a, b)
  {
    var n := |host|;
    assert b == host[n - |b|..];
    assert b[|b| - |a|..] == host[n - |a|..];
    assert b[|b| - |a| - 1] == host[n - |a| - 1];
  }
}
