/** Which cookies a request carries. */
module CookieRules {
  import opened Basics
  import opened DomainLabels
  import opened CookieCodec

  function BareDomain(c: Cookie): string {
    if c.domain != "" && c.domain[0] == '.' then c.domain[1..] else c.domain
  }

  predicate OptsIn(c: Cookie) {
    c.includeSubdomains || (c.domain != "" && c.domain[0] == '.')
  }

  predicate EqualsIgnoringCase(a: string, b: string) {
    |a| == |b| && forall k | 0 <= k < |a| :: LowerChar(a[k]) == LowerChar(b[k])
  }

  predicate EndsIgnoringCase(text: string, suffix: string) {
    |text| >= |suffix| && EqualsIgnoringCase(text[|text| - |suffix|..], suffix)
  }

  predicate DomainMatches(c: Cookie, host: string) {
    var domain := BareDomain(c);
    && domain != ""
    && (EqualsIgnoringCase(host, domain)
        || (OptsIn(c) && |host| > |domain| && EndsIgnoringCase(host, domain) && host[|host| - |domain| - 1] == '.'))
  }

  /** The domain rule in labels: the host's labels, last first, are the domain's, or begin
      with them where the cookie covers subdomains. */
  lemma DomainRule(c: Cookie, host: string)
    ensures DomainMatches(c, host) <==>
      var mine, theirs := LabelsOf(Lowered(BareDomain(c))), LabelsOf(Lowered(host));
      mine != [] && if OptsIn(c) then mine <= theirs else mine == theirs
  {
    var domain := BareDomain(c);
    var d, h := Lowered(domain), Lowered(host);
    hide LabelsOf;
    LabelPrefixIsSuffix(d, h);
    LabelsAreInjective(d, h);
    LabelsAreInjective(d, "");
    NoLabels();
    SameLowered(host, domain);
    if |domain| <= |host| {
      var tail := host[|host| - |domain|..];
      SameLowered(tail, domain);
      assert Lowered(tail) == h[|h| - |d|..];
    }
  }

  /** A leading dot is no part of the domain, and opts in to subdomains whatever the flag. */
  lemma DottedDomain(c: Cookie, domain: string, host: string)
    requires c.domain == "." + domain
    ensures DomainMatches(c, host) <==> domain != "" && LabelsOf(Lowered(domain)) <= LabelsOf(Lowered(host))
  {
    hide LabelsOf;
    assert c.domain[1..] == domain;
    DomainRule(c, host);
    LabelsAreInjective(Lowered(domain), "");
    NoLabels();
  }

  /** Without one the flag decides. */
  lemma PlainDomain(c: Cookie, host: string)
    requires c.domain != "" ==> c.domain[0] != '.'
    ensures DomainMatches(c, host) <==>
      var mine, theirs := LabelsOf(Lowered(c.domain)), LabelsOf(Lowered(host));
      c.domain != "" && if c.includeSubdomains then mine <= theirs else mine == theirs
  {
    hide LabelsOf;
    DomainRule(c, host);
    LabelsAreInjective(Lowered(c.domain), "");
    NoLabels();
  }

  lemma NoLabels()
    ensures LabelsOf("") == []
  {
  }

  lemma SameLowered(a: string, b: string)
    ensures EqualsIgnoringCase(a, b) <==> Lowered(a) == Lowered(b)
  {
    if Lowered(a) == Lowered(b) {
      assert |Lowered(a)| == |Lowered(b)|;
      assert forall k | 0 <= k < |a| :: LowerChar(a[k]) == Lowered(a)[k] == Lowered(b)[k];
    }
  }

  predicate PathMatches(c: Cookie, requested: string) {
    var scope := c.path;
    if scope == "" || scope == "/" then true
    else
      var path := if requested == "" then "/" else requested;
      scope <= path && (|path| == |scope| || scope[|scope| - 1] == '/' || path[|scope|] == '/')
  }

  /** The stretches between slashes. */
  function Segments(path: string): seq<string> {
    Pieces(path, '/')
  }

  predicate ProperPrefix(a: seq<string>, b: seq<string>) {
    a <= b && a != b
  }

  /** The path rule in segments: the scope's segments begin the path's, and when the scope
      ends in a slash, the path goes on behind it.  An empty scope and "/" cover all. */
  lemma PathRule(c: Cookie, path: string)
    ensures PathMatches(c, path) <==>
      var n := |c.path| - 1;
      if c.path == "" || c.path == "/" then true
      else if c.path[n] == '/' then ProperPrefix(Segments(c.path[..n]), Segments(path))
      else Segments(c.path) <= Segments(path)
  {
    hide Pieces;
    var n := |c.path| - 1;
    if c.path == "" {
      return;
    }
    PiecesPrefix(c.path, path, '/');
    PiecesPrefix(c.path[..n], path, '/');
    PiecesPrefix(path, c.path[..n], '/');
    assert c.path == c.path[..n] + [c.path[n]];
    assert n < |path| ==> path[..n + 1] == path[..n] + [path[n]];
  }
}
