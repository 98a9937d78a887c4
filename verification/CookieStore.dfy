/** CookieStore: the cookies of one session, in insertion order. */
module CookieStore {
  import opened Basics
  import opened Arithmetic
  import opened CookieCodec
  import opened CookieRules

  type Jar = seq<Cookie>

  predicate SameIdentity(a: Cookie, b: Cookie) {
    a.name == b.name && a.domain == b.domain && a.path == b.path
  }

  /** At most one cookie of each identity. */
  predicate Unique(jar: Jar) {
    forall i, j | 0 <= i < j < |jar| :: !SameIdentity(jar[i], jar[j])
  }

  predicate Expired(c: Cookie, now: int) {
    c.expires.Some? && c.expires.value <= now
  }

  /** Where the cookie's identity is stored, or the jar's length. */
  function Slot(jar: Jar, c: Cookie): (k: nat)
    ensures k <= |jar| && (k < |jar| ==> SameIdentity(jar[k], c))
    ensures forall i | 0 <= i < k :: !SameIdentity(jar[i], c)
  {
    if jar == [] || SameIdentity(jar[0], c) then 0 else 1 + Slot(jar[1..], c)
  }

  function Put(jar: Jar, c: Cookie): Jar {
    var k := Slot(jar, c);
    if k < |jar| then jar[k := c] else jar + [c]
  }

  function Kept(jar: Jar, p: Cookie -> bool): Jar {
    if jar == [] then []
    else Kept(jar[..|jar| - 1], p) + if p(jar[|jar| - 1]) then [jar[|jar| - 1]] else []
  }

  /** What the request may carry. */
  predicate Allowed(c: Cookie, host: string, path: string, secureTransport: bool) {
    (c.secure ==> secureTransport) && DomainMatches(c, host) && PathMatches(c, path)
  }

  function Live(now: int): Cookie -> bool {
    (c: Cookie) => !Expired(c, now)
  }

  function Carried(host: string, path: string, secureTransport: bool): Cookie -> bool {
    (c: Cookie) => Allowed(c, host, path, secureTransport)
  }

  function Both(p: Cookie -> bool, q: Cookie -> bool): Cookie -> bool {
    (c: Cookie) => p(c) && q(c)
  }

  function Pruned(jar: Jar, now: int): Jar {
    Kept(jar, Live(now))
  }

  /** What a request at that time is to carry, in insertion order. */
  function CookiesAt(jar: Jar, host: string, path: string, secureTransport: bool, now: int): Jar {
    Kept(jar, Both(Live(now), Carried(host, path, secureTransport)))
  }

  // ---- Laws ------------------------------------------------------------------------------

  lemma {:induction false} KeptIs(jar: Jar, p: Cookie -> bool, c: Cookie)
    ensures c in Kept(jar, p) <==> c in jar && p(c)
    decreases |jar|
  {
    if jar != [] {
      KeptIs(jar[..|jar| - 1], p, c);
      assert forall x :: x in jar <==> x in jar[..|jar| - 1] || x == jar[|jar| - 1];
    }
  }

  lemma NothingKept(p: Cookie -> bool)
    ensures Kept([], p) == []
  {
  }

  lemma {:induction false} KeptNext(jar: Jar, i: nat, p: Cookie -> bool)
    requires i < |jar|
    ensures Kept(jar[..i + 1], p) == if p(jar[i]) then Kept(jar[..i], p) + [jar[i]] else Kept(jar[..i], p)
  {
    assert jar[..i + 1][..i] == jar[..i];
  }

  lemma {:induction false} KeptStaysUnique(jar: Jar, p: Cookie -> bool)
    requires Unique(jar)
    ensures Unique(Kept(jar, p))
    decreases |jar|
  {
    if jar != [] {
      var n := |jar| - 1;
      KeptStaysUnique(jar[..n], p);
      var kept := Kept(jar[..n], p);
      forall i | 0 <= i < |kept| ensures !SameIdentity(kept[i], jar[n]) {
        KeptIs(jar[..n], p, kept[i]);
        assert kept[i] in kept;
      }
    }
  }

  lemma {:induction false} KeptTwice(jar: Jar, p: Cookie -> bool, q: Cookie -> bool)
    ensures Kept(Kept(jar, p), q) == Kept(jar, Both(p, q))
    decreases |jar|
  {
    if jar != [] {
      var n := |jar| - 1;
      var kept := Kept(jar[..n], p);
      KeptTwice(jar[..n], p, q);
      assert (kept + [jar[n]])[..|kept|] == kept && kept + [] == kept;
    }
  }

  lemma {:induction false} SameKept(jar: Jar, p: Cookie -> bool, q: Cookie -> bool)
    requires forall c :: p(c) == q(c)
    ensures Kept(jar, p) == Kept(jar, q)
    decreases |jar|
  {
    if jar != [] {
      SameKept(jar[..|jar| - 1], p, q);
    }
  }

  /** Dropping what has expired is never seen: later requests carry what they would have
      carried without it. */
  lemma PruningIsUnseen(jar: Jar, now: int, later: int, host: string, path: string, secureTransport: bool)
    requires now <= later
    ensures CookiesAt(Pruned(jar, now), host, path, secureTransport, later) == CookiesAt(jar, host, path, secureTransport, later)
  {
    var carried := Both(Live(later), Carried(host, path, secureTransport));
    KeptTwice(jar, Live(now), carried);
    SameKept(jar, Both(Live(now), carried), carried);
  }

  /** Putting a cookie keeps identities unique, stores it under its own, and leaves every
      other cookie where it was. */
  lemma PutReplaces(jar: Jar, c: Cookie)
    requires Unique(jar)
    ensures var after := Put(jar, c);
      && Unique(after) && c in after && |jar| <= |after| <= |jar| + 1
      && (forall i | 0 <= i < |jar| :: after[i] == if SameIdentity(jar[i], c) then c else jar[i])
      && (|after| > |jar| <==> forall i | 0 <= i < |jar| :: !SameIdentity(jar[i], c))
  {
    var k, after := Slot(jar, c), Put(jar, c);
    assert k < |after| && after[k] == c;
    forall i, j | 0 <= i < j < |after| ensures !SameIdentity(after[i], after[j]) {
      if i == k && j < |jar| {
        assert !SameIdentity(jar[k], jar[j]);
      } else if j == k && k < |jar| {
        assert !SameIdentity(jar[i], jar[k]);
      }
    }
    forall i | 0 <= i < |jar| ensures after[i] == if SameIdentity(jar[i], c) then c else jar[i] {
      if i > k {
        assert !SameIdentity(jar[k], jar[i]);
      }
    }
  }

  /** The same on the fields: a cookie of another name, another domain or another path stays
      where it is; one equal in all three is replaced; no two agree in all three. */
  lemma PutOnFields(jar: Jar, c: Cookie)
    requires forall i, j | 0 <= i < j < |jar| ::
               jar[i].name != jar[j].name || jar[i].domain != jar[j].domain || jar[i].path != jar[j].path
    ensures var after := Put(jar, c);
      && (forall i | 0 <= i < |jar| ::
            after[i] == if jar[i].name == c.name && jar[i].domain == c.domain && jar[i].path == c.path then c else jar[i])
      && (if exists d :: d in jar && d.name == c.name && d.domain == c.domain && d.path == c.path
          then |after| == |jar| else after == jar + [c])
      && (forall i, j | 0 <= i < j < |after| ::
            after[i].name != after[j].name || after[i].domain != after[j].domain || after[i].path != after[j].path)
  {
    PutReplaces(jar, c);
    if d :| d in jar && d.name == c.name && d.domain == c.domain && d.path == c.path {
      var i :| 0 <= i < |jar| && jar[i] == d;
      assert SameIdentity(jar[i], c);
    }
  }

  /** What a request carries, on the fields: unexpired, over a secure transport if it asks for
      one, and within its domain and path. */
  lemma CarriedOnFields(jar: Jar, host: string, path: string, secureTransport: bool, now: int, c: Cookie)
    ensures c in CookiesAt(jar, host, path, secureTransport, now) <==>
      && c in jar
      && (c.expires == None || c.expires.value > now)
      && (!c.secure || secureTransport)
      && DomainMatches(c, host) && PathMatches(c, path)
    ensures c in Pruned(jar, now) <==> c in jar && (c.expires == None || c.expires.value > now)
  {
    KeptIs(jar, Both(Live(now), Carried(host, path, secureTransport)), c);
    KeptIs(jar, Live(now), c);
  }

  /** Order and number are kept: of two jars one after the other the kept cookies are those of
      the first and then those of the second. */
  lemma {:induction false} KeptConcat(a: Jar, b: Jar, p: Cookie -> bool)
    ensures Kept(a + b, p) == Kept(a, p) + Kept(b, p)
    decreases |b|
  {
    if b == [] {
      assert a + b == a;
    } else {
      var n := |b| - 1;
      assert (a + b)[..|a + b| - 1] == a + b[..n];
      KeptConcat(a, b[..n], p);
    }
  }

  // ---- Saving and restoring --------------------------------------------------------------

  function Saved(jar: Jar, rate: Rate): (lines: seq<string>)
    ensures |lines| == |jar| && forall k | 0 <= k < |jar| :: lines[k] == LineOf(jar[k], rate)
  {
    seq(|jar|, k requires 0 <= k < |jar| => LineOf(jar[k], rate))
  }

  /** The cookies on the lines that are cookies. */
  function Restored(lines: seq<string>, rate: Rate): Jar {
    if lines == [] then []
    else
      var c := Parsed(lines[|lines| - 1], rate);
      Restored(lines[..|lines| - 1], rate) + if c.Some? then [c.value] else []
  }

  lemma LineIsCookie(c: Cookie, rate: Rate)
    ensures Parsed(LineOf(c, rate), rate).Some?
  {
    var fs := FieldsOf(c, rate);
    hide Tabs, Fields, Tabbed, DomainField, ExpiryField, Flag;
    ReadWithSixTabs(LineOf(c, rate), rate);
    TabsOfTabbed(fs);
  }

  lemma {:induction false} TabsOfTabbed(fs: seq<string>)
    requires fs != []
    ensures Tabs(Tabbed(fs)) >= |fs| - 1
    decreases |fs|
  {
    if |fs| > 1 {
      var front := Tabbed(fs[..|fs| - 1]);
      TabsOfTabbed(fs[..|fs| - 1]);
      TabsAppend(front, "\t" + fs[|fs| - 1]);
      assert front + "\t" + fs[|fs| - 1] == front + ("\t" + fs[|fs| - 1]);
    }
  }

  lemma {:induction false} TabsAppend(a: string, b: string)
    ensures Tabs(a + b) == Tabs(a) + Tabs(b)
    decreases |a|
  {
    if a == "" {
      assert a + b == b;
    } else {
      assert (a + b)[1..] == a[1..] + b;
      TabsAppend(a[1..], b);
    }
  }

  predicate AllClean(jar: Jar, rate: Rate) {
    forall c | c in jar :: Clean(c, rate)
  }

  /** Restoring what was saved gives the jar back exactly when all its cookies are clean. */
  lemma {:induction false} RestoredInvertsSaved(jar: Jar, rate: Rate)
    ensures Restored(Saved(jar, rate), rate) == jar <==> AllClean(jar, rate)
    ensures |Restored(Saved(jar, rate), rate)| == |jar|
    decreases |jar|
  {
    hide Clean, LineOf, Parsed;
    if jar != [] {
      var n := |jar| - 1;
      var lines, back := Saved(jar, rate), Restored(Saved(jar[..n], rate), rate);
      RestoredInvertsSaved(jar[..n], rate);
      assert lines[..n] == Saved(jar[..n], rate);
      LineIsCookie(jar[n], rate);
      ParsedInvertsLine(jar[n], rate);
      var last := Parsed(LineOf(jar[n], rate), rate).value;
      assert Restored(lines, rate) == back + [last] && jar == jar[..n] + [jar[n]];
      assert back + [last] == jar <==> back == jar[..n] && last == jar[n];
      assert forall c :: c in jar <==> c in jar[..n] || c == jar[n];
    }
  }

  /** Lines from elsewhere may repeat an identity, and nothing is done about it. */
  lemma RestoringMayRepeat(c: Cookie, d: Cookie, rate: Rate)
    requires Clean(c, rate) && Clean(d, rate) && SameIdentity(c, d)
    ensures !Unique(Restored([LineOf(c, rate), LineOf(d, rate)], rate))
  {
    var jar := [c, d];
    RestoredInvertsSaved(jar, rate);
    assert Saved(jar, rate) == [LineOf(c, rate), LineOf(d, rate)];
    assert SameIdentity(jar[0], jar[1]);
  }

  // ---- Runs ------------------------------------------------------------------------------

  datatype Call =
    | Setting(cookie: Cookie)
    | Clearing
    | Reading(host: string, path: string, secureTransport: bool, now: int)
    | Reloading

  /** The jar after one call; Reloading saves it and restores it. */
  function After(jar: Jar, call: Call, rate: Rate): Jar {
    match call
    case Setting(c) => Put(jar, c)
    case Clearing => []
    case Reading(_, _, _, now) => Pruned(jar, now)
    case Reloading => Restored(Saved(jar, rate), rate)
  }

  function Run(calls: seq<Call>, rate: Rate): Jar {
    if calls == [] then [] else After(Run(calls[..|calls| - 1], rate), calls[|calls| - 1], rate)
  }

  lemma AfterKeeps(jar: Jar, call: Call, rate: Rate)
    requires Unique(jar) && (call.Reloading? ==> AllClean(jar, rate))
    ensures var after := After(jar, call, rate);
      && Unique(after)
      && (AllClean(jar, rate) && (call.Setting? ==> Clean(call.cookie, rate)) ==> AllClean(after, rate))
      && forall c | c in after ::
           if call.Setting? then c == call.cookie || (c in jar && !SameIdentity(call.cookie, c)) else c in jar
  {
    hide Clean;
    match call
    case Setting(c) =>
      PutReplaces(jar, c);
    case Clearing =>
    case Reading(_, _, _, now) =>
      KeptStaysUnique(jar, Live(now));
      forall c ensures c in Pruned(jar, now) ==> c in jar {
        KeptIs(jar, Live(now), c);
      }
    case Reloading =>
      RestoredInvertsSaved(jar, rate);
  }

  lemma SetLast(calls: seq<Call>, c: Cookie)
    requires calls != [] && calls[|calls| - 1] == Setting(c)
    ensures exists k | 0 <= k < |calls| :: LastSet(calls, k, c)
  {
    assert LastSet(calls, |calls| - 1, c);
  }

  lemma StillLast(calls: seq<Call>, k: nat, c: Cookie)
    requires k < |calls| - 1 && LastSet(calls[..|calls| - 1], k, c)
    requires var call := calls[|calls| - 1]; call.Setting? ==> !SameIdentity(call.cookie, c)
    ensures LastSet(calls, k, c)
  {
    hide SameIdentity;
    assert forall j | 0 <= j < |calls| - 1 :: calls[j] == calls[..|calls| - 1][j];
  }

  ghost predicate OnlyCleanSet(calls: seq<Call>, rate: Rate) {
    forall call | call in calls && call.Setting? :: Clean(call.cookie, rate)
  }

  /** Over every run each identity is stored at most once; every cookie stored was set, and no
      later one of its identity was.  Only runs that save and restore ask for clean cookies. */
  lemma {:induction false} RunIsUnique(calls: seq<Call>, rate: Rate)
    requires Reloading in calls ==> OnlyCleanSet(calls, rate)
    ensures Unique(Run(calls, rate))
    ensures OnlyCleanSet(calls, rate) ==> AllClean(Run(calls, rate), rate)
    ensures forall c | c in Run(calls, rate) ::
              exists k | 0 <= k < |calls| :: LastSet(calls, k, c)
    decreases |calls|
  {
    assert Unique([]) && AllClean([], rate);
    hide Clean, Put, SameIdentity, Unique, AllClean, After, LastSet;
    if calls != [] {
      var n := |calls| - 1;
      var before, call := Run(calls[..n], rate), calls[n];
      assert call in calls && forall x | x in calls[..n] :: x in calls;
      RunIsUnique(calls[..n], rate);
      AfterKeeps(before, call, rate);
      forall c | c in Run(calls, rate) ensures exists k | 0 <= k < |calls| :: LastSet(calls, k, c) {
        if call.Setting? && call.cookie == c {
          SetLast(calls, c);
        } else {
          var k :| 0 <= k < n && LastSet(calls[..n], k, c);
          StillLast(calls, k, c);
        }
      }
    }
  }

  /** Call k set this cookie, and none after it set its identity. */
  predicate LastSet(calls: seq<Call>, k: int, c: Cookie) {
    0 <= k < |calls| && calls[k] == Setting(c) &&
    forall j | k < j < |calls| && calls[j].Setting? :: !SameIdentity(calls[j].cookie, c)
  }

  // ---- The class -------------------------------------------------------------------------

  class Store {
    const rate: Rate
    var cookies: Jar

    constructor (rate: Rate)
      ensures this.rate == rate && cookies == []
    {
      this.rate := rate;
      cookies := [];
    }

    /** The first cookie of that name. */
    method FindByName(name: string) returns (found: Option<Cookie>)
      ensures found.None? ==> forall c | c in cookies :: c.name != name
      ensures found.Some? ==> exists k | 0 <= k < |cookies| ::
                cookies[k] == found.value && found.value.name == name && forall i | 0 <= i < k :: cookies[i].name != name
    {
      for i := 0 to |cookies|
        invariant forall j | 0 <= j < i :: cookies[j].name != name
      {
        if cookies[i].name == name {
          return Some(cookies[i]);
        }
      }
      found := None;
    }

    method Set(c: Cookie)
      modifies this
      ensures cookies == Put(old(cookies), c)
      ensures old(Unique(cookies)) ==>
                && Unique(cookies)
                && forall i | 0 <= i < |old(cookies)| ::
                     var d := old(cookies)[i];
                     cookies[i] == if d.name == c.name && d.domain == c.domain && d.path == c.path then c else d
    {
      if Unique(cookies) {
        PutReplaces(cookies, c);
        PutOnFields(cookies, c);
      }
      var i := 0;
      while i < |cookies| && !SameIdentity(cookies[i], c)
        invariant i <= |cookies| && forall j | 0 <= j < i :: !SameIdentity(cookies[j], c)
      {
        i := i + 1;
      }
      cookies := if i < |cookies| then cookies[i := c] else cookies + [c];
    }

    method Clear()
      modifies this
      ensures cookies == [] && Unique(cookies)
    {
      cookies := [];
    }

    /** Drops what has expired, then picks in order what the request may carry. */
    method CookiesFor(host: string, path: string, secureTransport: bool, now: int) returns (carried: Jar)
      modifies this
      ensures cookies == Pruned(old(cookies), now)
      ensures carried == CookiesAt(old(cookies), host, path, secureTransport, now)
      ensures old(Unique(cookies)) ==> Unique(cookies)
    {
      hide Allowed, Expired, Kept;
      if Unique(cookies) {
        KeptStaysUnique(cookies, Live(now));
      }
      KeptTwice(cookies, Live(now), Carried(host, path, secureTransport));
      var live: Jar := [];
      NothingKept(Live(now));
      for i := 0 to |cookies|
        invariant cookies == old(cookies) && live == Kept(cookies[..i], Live(now))
      {
        KeptNext(cookies, i, Live(now));
        if !Expired(cookies[i], now) {
          live := live + [cookies[i]];
        }
      }
      assert cookies[..|cookies|] == cookies;
      cookies := live;
      carried := [];
      NothingKept(Carried(host, path, secureTransport));
      for i := 0 to |cookies|
        invariant cookies == live && carried == Kept(cookies[..i], Carried(host, path, secureTransport))
      {
        KeptNext(cookies, i, Carried(host, path, secureTransport));
        if Allowed(cookies[i], host, path, secureTransport) {
          carried := carried + [cookies[i]];
        }
      }
      assert cookies[..|cookies|] == cookies;
    }

    method Serialize() returns (lines: seq<string>)
      ensures lines == Saved(cookies, rate)
    {
      hide LineOf;
      lines := [];
      for i := 0 to |cookies|
        invariant |lines| == i && forall k | 0 <= k < i :: lines[k] == LineOf(cookies[k], rate)
      {
        var line := ToNetscapeLine(cookies[i], rate);
        lines := lines + [line];
      }
    }

    /** Skips lines that are no cookies.  Restoring what was serialized from clean cookies
        restores the store. */
    method Deserialize(lines: seq<string>)
      modifies this
      ensures cookies == Restored(lines, rate)
    {
      hide Parsed;
      var restored: Jar := [];
      assert lines[..0] == [];
      for i := 0 to |lines|
        invariant restored == Restored(lines[..i], rate)
      {
        assert lines[..i + 1][..i] == lines[..i];
        var c := ParseNetscapeLine(lines[i], rate);
        if c.Some? {
          restored := restored + [c.value];
        }
      }
      assert lines[..|lines|] == lines;
      cookies := restored;
    }
  }
}
