/** The volatile catalog: what one applies, when it is accepted, and the hosts it makes
    routable. */
module Catalog {
  import opened Basics
  import opened DomainLabels
  import opened DomainTrie
  import opened DomainStore
  import KeyOrder
  import opened SourceHolder

  type Lists = map<string, seq<string>>

  datatype CatalogData = CatalogData(
    domains: Lists, mirrors: Lists, canonical: map<string, string>,
    extractorDomains: Lists, extractorMirrors: Lists,
    selectors: Table, patterns: map<string, Table>, extractorPatterns: map<string, Table>)

  datatype CatalogError = BadSignature | BadFormat | UnsupportedVersion | StaleRevision

  /** A payload as the decoder sees it: does its signature verify, does it parse, and its
      numbers where they are numbers (64-bit signed). */
  datatype Payload = Payload(verifies: bool, parses: bool, version: Option<int>, revision: Option<int>, data: CatalogData)

  datatype Decoded = Rejected(error: CatalogError) | Accepted(revision: nat, data: CatalogData)

  const SCHEMA_VERSION := 1
  const TWO_TO_THE_64 := 0x1_0000_0000_0000_0000

  /** decode_catalog: the signature first, then form, version and revision.  The revision is
      read as a signed number and taken modulo two to the 64. */
  function Decode(p: Payload, minRevision: nat): Decoded {
    if !p.verifies then Rejected(BadSignature)
    else if !p.parses || p.version.None? then Rejected(BadFormat)
    else if p.version.value != SCHEMA_VERSION then Rejected(UnsupportedVersion)
    else if p.revision.None? then Rejected(BadFormat)
    else
      var revision := p.revision.value % TWO_TO_THE_64;
      if revision <= minRevision then Rejected(StaleRevision) else Accepted(revision, p.data)
  }

  /** When a payload is accepted, and which error it is rejected with otherwise.  A negative
      revision counts as the large unsigned number with the same bits. */
  lemma DecodeAnswers(p: Payload, minRevision: nat, r: int)
    requires p.revision.Some? ==> p.revision.value == r && -0x8000_0000_0000_0000 <= r < 0x8000_0000_0000_0000
    ensures var d := Decode(p, minRevision); var revision := if r < 0 then r + 18446744073709551616 else r;
      && (d.Accepted? <==> p.verifies && p.parses && p.version == Some(1) && p.revision.Some? && revision > minRevision)
      && (d.Accepted? ==> d.revision == revision && d.data == p.data)
      && (d == Rejected(BadSignature) <==> !p.verifies)
      && (d == Rejected(BadFormat) <==>
            p.verifies && (!p.parses || p.version == None || (p.version == Some(1) && p.revision == None)))
      && (d == Rejected(UnsupportedVersion) <==> p.verifies && p.parses && p.version.Some? && p.version != Some(1))
  {
  }

  // ---- Routable hosts --------------------------------------------------------------------

  /** Where the scheme's "://" starts, or the length of the text. */
  function SchemeAt(url: string): (k: nat)
    ensures k <= |url| && (k < |url| ==> k + 3 <= |url| && url[k..k + 3] == "://")
  {
    if |url| < 3 then |url|
    else if url[..3] == "://" then 0
    else
      var k := SchemeAt(url[1..]);
      assert k < |url[1..]| ==> url[1..][k..k + 3] == url[k + 1..k + 4];
      k + 1
  }

  function HostOf(url: string): string {
    var at := SchemeAt(url);
    HostPart(if at < |url| then url[at + 3..] else url)
  }

  /** The host ends at a slash or a colon. */
  function HostPart(rest: string): string {
    var authority := rest[..IndexOf(rest, '/')];
    authority[..IndexOf(authority, ':')]
  }

  lemma HostPartIs(host: string, after: string)
    requires ':' !in host && '/' !in host
    requires after == "" || after[0] == '/' || after[0] == ':'
    ensures HostPart(host + after) == host
  {
    hide IndexOf;
    IndexSkips(host, after, '/');
    var j := IndexOf(after, '/');
    assert (host + after)[..|host| + j] == host + after[..j];
    IndexSkips(host, after[..j], ':');
    IndexIs(after[..j], ':', 0);
  }

  /** The host of scheme, host and port is the host. */
  lemma HostOfUrl(scheme: string, host: string, after: string)
    requires ':' !in scheme && ':' !in host && '/' !in host
    requires after == "" || after[0] == '/' || after[0] == ':'
    ensures HostOf(scheme + "://" + host + after) == host
  {
    hide HostPart, SchemeAt;
    var url := scheme + "://" + host + after;
    assert url == scheme + "://" + (host + after);
    SchemeIs(scheme, host + after);
    assert url[|scheme| + 3..] == host + after;
    HostPartIs(host, after);
  }

  /** Without a scheme the text begins with the host. */
  lemma HostOfBareUrl(host: string, after: string)
    requires ':' !in host && '/' !in host && NoScheme(host + after)
    requires after == "" || after[0] == '/' || after[0] == ':'
    ensures HostOf(host + after) == host
  {
    hide HostPart, SchemeAt;
    NoSchemeFound(host + after);
    HostPartIs(host, after);
  }

  predicate NoScheme(url: string) {
    forall k | 0 <= k < |url| - 2 :: url[k] != ':' || url[k + 1] != '/' || url[k + 2] != '/'
  }

  lemma {:induction false} NoSchemeFound(url: string)
    requires NoScheme(url)
    ensures SchemeAt(url) == |url|
    decreases |url|
  {
    if |url| >= 3 {
      assert url[..3] == [url[0], url[1], url[2]];
      NoSchemeFound(url[1..]);
    }
  }

  lemma {:induction false} IndexSkips(front: string, rest: string, c: char)
    requires c !in front
    ensures IndexOf(front + rest, c) == |front| + IndexOf(rest, c)
    decreases |front|
  {
    if front == "" {
      assert front + rest == rest;
    } else {
      assert front[0] in front && (front + rest)[0] == front[0];
      assert (front + rest)[1..] == front[1..] + rest;
      IndexSkips(front[1..], rest, c);
    }
  }

  lemma {:induction false} SchemeIs(scheme: string, rest: string)
    requires ':' !in scheme
    ensures SchemeAt(scheme + "://" + rest) == |scheme|
    decreases |scheme|
  {
    var url := scheme + "://" + rest;
    if scheme == "" {
      assert url[..3] == "://";
    } else {
      assert url[..3][0] == scheme[0] && scheme[0] in scheme;
      assert url[1..] == scheme[1..] + "://" + rest;
      SchemeIs(scheme[1..], rest);
    }
  }

  /** The list with the urls' hosts added that it lacks. */
  function WithHosts(hosts: seq<string>, urls: seq<string>): seq<string> {
    if urls == [] then hosts
    else
      var before := WithHosts(hosts, urls[..|urls| - 1]);
      var host := HostOf(urls[|urls| - 1]);
      if host in before then before else before + [host]
  }

  lemma {:induction false} WithHostsAre(hosts: seq<string>, urls: seq<string>, h: string)
    ensures hosts <= WithHosts(hosts, urls)
    ensures h in WithHosts(hosts, urls) <==> h in hosts || exists url | url in urls :: h == HostOf(url)
    ensures var all := WithHosts(hosts, urls); forall k | |hosts| <= k < |all| :: all[k] !in all[..k]
    decreases |urls|
  {
    hide HostOf;
    if urls != [] {
      var n := |urls| - 1;
      WithHostsAre(hosts, urls[..n], h);
      assert forall url :: url in urls <==> url in urls[..n] || url == urls[n];
    }
  }

  function ListFor(lists: Lists, id: string): seq<string> {
    if id in lists then lists[id] else []
  }

  /** Each entry's domains with the hosts of its mirrors. */
  function WithMirrorHosts(domains: Lists, mirrors: Lists): Lists {
    map id | id in domains.Keys + mirrors.Keys :: WithHosts(ListFor(domains, id), ListFor(mirrors, id))
  }

  function WithCanonicalHosts(domains: Lists, canonical: map<string, string>): Lists {
    map id | id in domains.Keys + canonical.Keys ::
      WithHosts(ListFor(domains, id), if id in canonical then [canonical[id]] else [])
  }

  /** What an accepted catalog makes routable, for parsers and for extractors. */
  function ParserDomains(c: CatalogData): Lists {
    WithCanonicalHosts(WithMirrorHosts(c.domains, c.mirrors), c.canonical)
  }

  function ExtractorDomains(c: CatalogData): Lists {
    WithMirrorHosts(c.extractorDomains, c.extractorMirrors)
  }

  /** The catalog lists the host as a domain of this parser, or it is the host of a mirror or of
      the canonical origin of this parser. */
  ghost predicate Names(c: CatalogData, id: string, host: string) {
    || (id in c.domains && host in c.domains[id])
    || (id in c.mirrors && exists url | url in c.mirrors[id] :: host == HostOf(url))
    || (id in c.canonical && host == HostOf(c.canonical[id]))
  }

  ghost predicate NamesForExtractor(c: CatalogData, id: string, host: string) {
    || (id in c.extractorDomains && host in c.extractorDomains[id])
    || (id in c.extractorMirrors && exists url | url in c.extractorMirrors[id] :: host == HostOf(url))
  }

  /** Only hosts that the catalog itself names become routable, and all of those do. */
  lemma ParserDomainsAre(c: CatalogData, id: string, host: string)
    ensures host in ListFor(ParserDomains(c), id) <==> Names(c, id, host)
  {
    hide HostOf;
    assert WithHosts([], []) == [];
    hide WithHosts;
    var mirrored := WithMirrorHosts(c.domains, c.mirrors);
    assert ListFor(mirrored, id) == WithHosts(ListFor(c.domains, id), ListFor(c.mirrors, id));
    var extra := if id in c.canonical then [c.canonical[id]] else [];
    assert ListFor(ParserDomains(c), id) == WithHosts(ListFor(mirrored, id), extra);
    WithHostsAre(ListFor(c.domains, id), ListFor(c.mirrors, id), host);
    WithHostsAre(ListFor(mirrored, id), extra, host);
    assert id in c.canonical ==> extra[0] == c.canonical[id];
  }

  /** The same for extractors, which have no canonical origins. */
  lemma ExtractorDomainsAre(c: CatalogData, id: string, host: string)
    ensures host in ListFor(ExtractorDomains(c), id) <==> NamesForExtractor(c, id, host)
  {
    hide HostOf;
    assert WithHosts([], []) == [];
    hide WithHosts;
    assert ListFor(ExtractorDomains(c), id) == WithHosts(ListFor(c.extractorDomains, id), ListFor(c.extractorMirrors, id));
    WithHostsAre(ListFor(c.extractorDomains, id), ListFor(c.extractorMirrors, id), host);
  }

  method HostOfUrlText(url: string) returns (host: string)
    ensures host == HostOf(url)
  {
    hide SchemeAt, IndexOf;
    var at := SchemeAt(url);
    var rest := if at < |url| then url[at + 3..] else url;
    assert rest[0..] == rest;
    var slash := Find(rest, '/', 0);
    var authority := rest[..slash];
    assert authority[0..] == authority;
    var colon := Find(authority, ':', 0);
    host := authority[..colon];
  }

  /** union_mirror_hosts: grows the lists of one map by the hosts of another's urls. */
  method UnionMirrorHosts(domains: Lists, mirrors: Lists) returns (all: Lists)
    ensures all == WithMirrorHosts(domains, mirrors)
  {
    hide WithHosts, HostOf, KeyOrder.IsFirst, WithMirrorHosts;
    all := domains;
    var remaining := mirrors.Keys;
    NoMirrors(domains);
    assert mirrors - remaining == map[];
    while remaining != {}
      invariant remaining <= mirrors.Keys && all == WithMirrorHosts(domains, mirrors - remaining)
      decreases |remaining|
    {
      var id := PickFirst(remaining);
      NextMirror(domains, mirrors, remaining, id);
      var hosts := AddHosts(ListFor(all, id), mirrors[id]);
      all := all[id := hosts];
      remaining := remaining - {id};
    }
    assert mirrors - {} == mirrors;
  }

  lemma NoMirrors(domains: Lists)
    ensures WithMirrorHosts(domains, map[]) == domains
  {
    hide HostOf;
    assert forall id | id in domains :: WithHosts(domains[id], []) == domains[id];
  }

  lemma NextMirror(domains: Lists, mirrors: Lists, remaining: set<string>, id: string)
    requires id in remaining && id in mirrors
    ensures var before := WithMirrorHosts(domains, mirrors - remaining);
      WithMirrorHosts(domains, mirrors - (remaining - {id})) == before[id := WithHosts(ListFor(before, id), mirrors[id])]
  {
    hide HostOf;
    assert WithHosts(ListFor(domains, id), []) == ListFor(domains, id);
  }

  /** union_canonical_hosts. */
  method UnionCanonicalHosts(domains: Lists, canonical: map<string, string>) returns (all: Lists)
    ensures all == WithCanonicalHosts(domains, canonical)
  {
    hide WithHosts;
    var urls := map id | id in canonical :: [canonical[id]];
    assert urls.Keys == canonical.Keys;
    all := UnionMirrorHosts(domains, urls);
  }

  method AddHosts(hosts: seq<string>, urls: seq<string>) returns (all: seq<string>)
    ensures all == WithHosts(hosts, urls)
  {
    hide HostOf;
    all := hosts;
    assert urls[..0] == [];
    for i := 0 to |urls|
      invariant all == WithHosts(hosts, urls[..i])
    {
      assert urls[..i + 1][..i] == urls[..i];
      var host := HostOfUrlText(urls[i]);
      if host !in all {
        all := all + [host];
      }
    }
    assert urls[..|urls|] == urls;
  }

  // ---- A listed mirror routes ------------------------------------------------------------

  /** Once a catalog is in force, looking up the host of any mirror of a registered parser
      that accepts finds a parser registered at exactly that host. */
  lemma {:induction false} MirrorHostRoutes<V>(entries: map<string, V>, own: V -> seq<string>, data: CatalogData, id: string, url: string, accepts: V -> bool)
    requires id in entries && accepts(entries[id])
    requires url in ListFor(data.mirrors, id)
    ensures var c := Content(entries, ParserDomains(data));
      && (exists first: string :: FirstServed(c, own, HostOf(url), accepts, first, HostOf(url)))
      && (forall first: string, d: string | FirstServed(c, own, HostOf(url), accepts, first, d) :: d == HostOf(url))
  {
    hide HostOf, FirstServed;
    var c := Content(entries, ParserDomains(data));
    var host := HostOf(url);
    ParserDomainsAre(data, id, host);
    assert MatchesHost(host, host) by { assert host[0..] == host; }
    ExactHostIsFirst(c, own, host, accepts, id);
  }

  // ---- Runs ------------------------------------------------------------------------------

  /** Everything a catalog overrides. */
  datatype Overrides = Overrides(
    domains: Lists, extractorDomains: Lists,
    mirrors: (Lists, map<string, string>), extractorMirrors: Lists,
    selectors: Source, patterns: Source, extractorPatterns: Source)

  const NoOverrides: Overrides :=
    Overrides(map[], map[], (map[], map[]), map[], EmptySource, EmptySource, EmptySource)

  function OverridesOf(c: CatalogData): Overrides {
    Overrides(ParserDomains(c), ExtractorDomains(c), (c.mirrors, c.canonical), c.extractorMirrors,
              Source(c.selectors, map[]), Source(map[], c.patterns), Source(map[], c.extractorPatterns))
  }

  datatype Event<V> =
    | Apply(payload: Payload)
    | Reset
    | AddParser(id: string, value: V)
    | RemoveParser(id: string)

  datatype State<V> = State(revision: nat, overrides: Overrides, parsers: map<string, V>)

  /** A rejected catalog leaves the state alone; adding an identifier twice fails. */
  function Next<V>(s: State<V>, e: Event<V>): State<V> {
    match e
    case Apply(p) =>
      var d := Decode(p, s.revision);
      if d.Rejected? then s else s.(revision := d.revision, overrides := OverridesOf(d.data))
    case Reset => s.(revision := 0, overrides := NoOverrides)
    case AddParser(id, value) => if id in s.parsers then s else s.(parsers := s.parsers[id := value])
    case RemoveParser(id) => s.(parsers := s.parsers - {id})
  }

  function Run<V>(events: seq<Event<V>>): State<V> {
    if events == [] then State.State(0, NoOverrides, map[])
    else Next(Run(events[..|events| - 1]), events[|events| - 1])
  }

  /** The last accepted catalog since the last reset, read off the history of payloads. */
  function LastAccepted<V>(events: seq<Event<V>>): Option<Payload> {
    if events == [] then None
    else
      var last := events[|events| - 1];
      var before := LastAccepted(events[..|events| - 1]);
      match last
      case Reset => None
      case Apply(p) => if Decode(p, RevisionOf(before)).Accepted? then Some(p) else before
      case _ => before
  }

  function RevisionOf(p: Option<Payload>): nat {
    if p.None? || p.value.revision.None? then 0 else p.value.revision.value % TWO_TO_THE_64
  }

  function ParserEvents<V>(events: seq<Event<V>>): seq<Event<V>> {
    if events == [] then []
    else
      var last := events[|events| - 1];
      ParserEvents(events[..|events| - 1]) + if last.AddParser? || last.RemoveParser? then [last] else []
  }

  function CatalogEvents<V>(events: seq<Event<V>>): seq<Event<V>> {
    if events == [] then []
    else
      var last := events[|events| - 1];
      CatalogEvents(events[..|events| - 1]) + if last.Apply? || last.Reset? then [last] else []
  }

  /** All override state is that of the last accepted catalog since the last reset. */
  lemma {:induction false} StateIsLastAccepted<V>(events: seq<Event<V>>)
    ensures var s, last := Run(events), LastAccepted(events);
      && s.revision == RevisionOf(last)
      && s.overrides == (if last.None? then NoOverrides else OverridesOf(last.value.data))
      && (last.Some? ==> last.value.verifies && s.revision > 0)
    decreases |events|
  {
    hide OverridesOf;
    if events != [] {
      StateIsLastAccepted(events[..|events| - 1]);
    }
  }

  lemma {:induction false} RunSnoc<V>(events: seq<Event<V>>, e: Event<V>)
    ensures Run(events + [e]) == Next(Run(events), e)
    ensures Run(events + []) == Run(events)
  {
    assert (events + [e])[..|events|] == events && events + [] == events;
  }

  /** A state whose parsers are p's and whose catalog is c's. */
  ghost predicate Splits<V>(s: State<V>, p: State<V>, c: State<V>) {
    s.parsers == p.parsers && s.revision == c.revision && s.overrides == c.overrides
  }

  lemma NextSplits<V>(s: State<V>, p: State<V>, c: State<V>, e: Event<V>)
    requires Splits(s, p, c)
    ensures if e.AddParser? || e.RemoveParser? then Splits(Next(s, e), Next(p, e), c)
            else Splits(Next(s, e), p, Next(c, e))
  {
    hide Decode, OverridesOf;
  }

  lemma {:induction false} RunSplits<V>(events: seq<Event<V>>)
    ensures Splits(Run(events), Run(ParserEvents(events)), Run(CatalogEvents(events)))
    decreases |events|
  {
    hide Next, Splits;
    if events == [] {
      NothingSplits<V>();
    } else {
      var n := |events| - 1;
      var last := events[n];
      var ps, cs := ParserEvents(events[..n]), CatalogEvents(events[..n]);
      RunSplits(events[..n]);
      NextSplits(Run(events[..n]), Run(ps), Run(cs), last);
      RunSnoc(ps, last);
      RunSnoc(cs, last);
    }
  }

  lemma NothingSplits<V>()
    ensures Splits<V>(Run([]), Run([]), Run([]))
  {
  }

  /** Catalogs and parsers do not interfere: two histories with the same parser events and the
      same catalog events, however interleaved, end in the same state. */
  lemma OrderDoesNotMatter<V>(a: seq<Event<V>>, b: seq<Event<V>>)
    requires ParserEvents(a) == ParserEvents(b) && CatalogEvents(a) == CatalogEvents(b)
    ensures Run(a) == Run(b)
  {
    hide Next;
    RunSplits(a);
    RunSplits(b);
  }

  /** Between resets the revision never falls, and rises with every catalog that is accepted;
      one that is not accepted changes nothing at all. */
  lemma {:induction false} RevisionRises<V>(events: seq<Event<V>>, more: seq<Event<V>>, e: Event<V>)
    requires Reset !in more
    ensures Run(events).revision <= Run(events + more).revision
    ensures e.Apply? ==>
              var s, t := Run(events + more), Next(Run(events + more), e);
              if Decode(e.payload, s.revision).Rejected? then t == s
              else t.revision > s.revision && t.revision > Run(events).revision
    decreases |more|
  {
    hide OverridesOf;
    if more == [] {
      assert events + more == events;
    } else {
      var n := |more| - 1;
      assert more[n] in more && forall x | x in more[..n] :: x in more;
      RevisionRises(events, more[..n], e);
      assert (events + more)[..|events + more| - 1] == events + more[..n];
    }
  }
}
