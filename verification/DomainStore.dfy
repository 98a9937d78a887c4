/** DomainStore: immutable snapshots behind one live reference, and edits that rebuild it. */
module DomainStore {
  import opened Basics
  import opened DomainLabels
  import opened DomainTrie
  import opened KeyOrder

  /** What a snapshot is built from: values by identifier, and extra domains by identifier. */
  datatype Content<V> = Content(entries: map<string, V>, overrides: map<string, seq<string>>)

  datatype Change<V> =
    | Add(id: string, value: V)
    | Remove(id: string)
    | SetOverrides(overrides: map<string, seq<string>>)

  function Changed<V>(c: Content<V>, change: Change<V>): Content<V> {
    match change
    case Add(id, value) => if id in c.entries then c else c.(entries := c.entries[id := value])
    case Remove(id) => c.(entries := c.entries - {id})
    case SetOverrides(overrides) => c.(overrides := overrides)
  }

  function ChangedBy<V>(c: Content<V>, changes: seq<Change<V>>): Content<V> {
    if changes == [] then c else Changed(ChangedBy(c, changes[..|changes| - 1]), changes[|changes| - 1])
  }

  // ---- What a snapshot registers ---------------------------------------------------------

  function Under<V>(domains: seq<string>, value: V): (entries: seq<DomainEntry<V>>)
    ensures |entries| == |domains| && forall k | 0 <= k < |domains| :: entries[k] == DomainEntry(domains[k], value)
  {
    seq(|domains|, k requires 0 <= k < |domains| => DomainEntry(domains[k], value))
  }

  /** One entry's own domains, then the extra ones listed under its identifier. */
  function DomainsOf<V>(c: Content<V>, own: V -> seq<string>, id: string): seq<string>
    requires id in c.entries
  {
    own(c.entries[id]) + if id in c.overrides then c.overrides[id] else []
  }

  function Registered<V>(c: Content<V>, own: V -> seq<string>, order: seq<string>): (entries: seq<DomainEntry<V>>)
    requires forall id | id in order :: id in c.entries
  {
    if order == [] then []
    else
      var id := order[|order| - 1];
      Registered(c, own, order[..|order| - 1]) + Under(DomainsOf(c, own, id), c.entries[id])
  }

  /** Everything a snapshot of this content registers, in the order it is registered. */
  ghost function AllRegistered<V>(c: Content<V>, own: V -> seq<string>): seq<DomainEntry<V>> {
    Registered(c, own, InOrder(c.entries.Keys))
  }

  lemma {:induction false} RegisteredIs<V>(c: Content<V>, own: V -> seq<string>, order: seq<string>, e: DomainEntry<V>)
    requires forall id | id in order :: id in c.entries
    ensures e in Registered(c, own, order)
       <==> exists id :: id in order && e.parser == c.entries[id] && e.domain in DomainsOf(c, own, id)
    decreases |order|
  {
    if order != [] {
      var n := |order| - 1;
      var id := order[n];
      RegisteredIs(c, own, order[..n], e);
      var here := Under(DomainsOf(c, own, id), c.entries[id]);
      assert e in here <==> e.parser == c.entries[id] && e.domain in DomainsOf(c, own, id) by {
        if e.parser == c.entries[id] && e.domain in DomainsOf(c, own, id) {
          var k :| 0 <= k < |here| && DomainsOf(c, own, id)[k] == e.domain;
          assert here[k] == e;
        }
      }
      assert forall x :: x in order <==> x in order[..n] || x == id;
    }
  }

  /** What is registered, in terms of the content alone: every value under the domains it
      declares, and besides under those that the overrides list for its identifier. */
  lemma {:induction false} RegisteredDomains<V>(c: Content<V>, own: V -> seq<string>, e: DomainEntry<V>)
    ensures e in AllRegistered(c, own) <==>
      exists id :: id in c.entries && e.parser == c.entries[id]
        && (e.domain in own(c.entries[id]) || (id in c.overrides && e.domain in c.overrides[id]))
  {
    var order := InOrder(c.entries.Keys);
    RegisteredIs(c, own, order, e);
    hide InOrder;
    forall id | id in c.entries ensures e.domain in DomainsOf(c, own, id) <==>
      (e.domain in own(c.entries[id]) || (id in c.overrides && e.domain in c.overrides[id])) {
    }
  }

  /** The host is served by this identifier's value, under a domain that it declares or that
      the overrides add. */
  ghost predicate ServedUnder<V>(c: Content<V>, own: V -> seq<string>, host: string, accepts: V -> bool, id: string, domain: string) {
    && id in c.entries && accepts(c.entries[id])
    && (domain in own(c.entries[id]) || (id in c.overrides && domain in c.overrides[id]))
    && (domain == "" || MatchesHost(domain, host))
  }

  /** And no other serves it under a longer domain, nor under one as long with an identifier
      that comes first. */
  ghost predicate FirstServed<V>(c: Content<V>, own: V -> seq<string>, host: string, accepts: V -> bool, id: string, domain: string) {
    && ServedUnder(c, own, host, accepts, id, domain)
    && forall other: string, d: string | ServedUnder(c, own, host, accepts, other, d) ::
         |d| < |domain| || (|d| == |domain| && (other == id || Less(id, other)))
  }

  lemma {:induction false} RegisteredPrefix<V>(c: Content<V>, own: V -> seq<string>, order: seq<string>, i: nat)
    requires i <= |order| && forall id | id in order :: id in c.entries
    ensures Registered(c, own, order[..i]) <= Registered(c, own, order)
    decreases |order|
  {
    hide DomainsOf;
    if i < |order| {
      assert order[..|order| - 1][..i] == order[..i];
      RegisteredPrefix(c, own, order[..|order| - 1], i);
    } else {
      assert order[..i] == order;
    }
  }

  /** Which identifier entry k comes from. */
  lemma {:induction false} OwnerOf<V>(c: Content<V>, own: V -> seq<string>, order: seq<string>, k: nat) returns (i: nat)
    requires forall id | id in order :: id in c.entries
    requires k < |Registered(c, own, order)|
    ensures i < |order| && |Registered(c, own, order[..i])| <= k
    ensures Registered(c, own, order)[k].parser == c.entries[order[i]]
    ensures Registered(c, own, order)[k].domain in DomainsOf(c, own, order[i])
    decreases |order|
  {
    hide DomainsOf;
    var n := |order| - 1;
    var before := Registered(c, own, order[..n]);
    if k < |before| {
      i := OwnerOf(c, own, order[..n], k);
      assert order[..n][..i] == order[..i];
    } else {
      i := n;
    }
  }

  /** The linear match is the value served first, in terms of the content alone. */
  lemma {:induction false} MatchIsFirstServed<V>(c: Content<V>, own: V -> seq<string>, host: string, accepts: V -> bool, k: nat)
    requires IsLinearMatch(AllRegistered(c, own), host, accepts, k)
    ensures var e := AllRegistered(c, own)[k];
      exists id :: FirstServed(c, own, host, accepts, id, e.domain) && e.parser == c.entries[id]
  {
    var order := InOrder(c.entries.Keys);
    hide InOrder, MatchesHost, Registered;
    var all := AllRegistered(c, own);
    var e := all[k];
    var i := OwnerOf(c, own, order, k);
    var id := order[i];
    assert ServedUnder(c, own, host, accepts, id, e.domain);
    forall other: string, d: string | ServedUnder(c, own, host, accepts, other, d)
      ensures |d| < |e.domain| || (|d| == |e.domain| && (other == id || Less(id, other)))
    {
      var j :| 0 <= j < |order| && order[j] == other;
      var at := RegisteredBefore(c, own, order, j, d, i);
      assert Serves(all[at], host, accepts);
    }
    assert FirstServed(c, own, host, accepts, id, e.domain);
  }

  /** Where one of an identifier's domains is registered. */
  lemma {:induction false} RegisteredAt<V>(c: Content<V>, own: V -> seq<string>, order: seq<string>, j: nat, d: string) returns (at: nat)
    requires forall id | id in order :: id in c.entries
    requires j < |order| && d in DomainsOf(c, own, order[j])
    ensures at < |Registered(c, own, order[..j + 1])| <= |Registered(c, own, order)|
    ensures Registered(c, own, order)[at] == DomainEntry(d, c.entries[order[j]])
  {
    RegisteredPrefix(c, own, order, j + 1);
    var here := Under(DomainsOf(c, own, order[j]), c.entries[order[j]]);
    var before := Registered(c, own, order[..j]);
    assert order[..j + 1][..j] == order[..j];
    assert Registered(c, own, order[..j + 1]) == before + here;
    hide DomainsOf, Registered;
    var m :| 0 <= m < |here| && here[m].domain == d;
    at := |before| + m;
  }

  /** Earlier identifiers register earlier. */
  lemma {:induction false} RegisteredBefore<V>(c: Content<V>, own: V -> seq<string>, order: seq<string>, j: nat, d: string, i: nat)
      returns (at: nat)
    requires forall id | id in order :: id in c.entries
    requires j < |order| && i < |order| && d in DomainsOf(c, own, order[j])
    ensures at < |Registered(c, own, order)| && Registered(c, own, order)[at] == DomainEntry(d, c.entries[order[j]])
    ensures j < i ==> at < |Registered(c, own, order[..i])|
  {
    at := RegisteredAt(c, own, order, j, d);
    hide DomainsOf, Registered;
    if j < i {
      assert order[..i][..j + 1] == order[..j + 1];
      RegisteredPrefix(c, own, order[..i], j + 1);
    }
  }

  lemma {:induction false} ServedIsRegistered<V>(c: Content<V>, own: V -> seq<string>, host: string, accepts: V -> bool, id: string, d: string)
    requires ServedUnder(c, own, host, accepts, id, d)
    ensures var e := DomainEntry(d, c.entries[id]); e in AllRegistered(c, own) && Serves(e, host, accepts)
  {
    hide MatchesHost, AllRegistered;
    RegisteredDomains(c, own, DomainEntry(d, c.entries[id]));
  }

  lemma {:induction false} NoMatchNoneServed<V>(c: Content<V>, own: V -> seq<string>, host: string, accepts: V -> bool)
    requires forall e | e in AllRegistered(c, own) :: !Serves(e, host, accepts)
    ensures forall id: string, d: string :: !ServedUnder(c, own, host, accepts, id, d)
  {
    hide Serves, ServedUnder, AllRegistered;
    forall id: string, d: string ensures !ServedUnder(c, own, host, accepts, id, d) {
      if ServedUnder(c, own, host, accepts, id, d) {
        ServedIsRegistered(c, own, host, accepts, id, d);
      }
    }
  }

  lemma ExactDomain(d: string, host: string)
    requires (d == "" || MatchesHost(d, host)) && |d| >= |host|
    ensures d == host
  {
    assert host[0..] == host;
  }

  /** A value that serves a host under the host itself leaves no other domain to be found. */
  lemma {:induction false} ExactHostIsFirst<V>(c: Content<V>, own: V -> seq<string>, host: string, accepts: V -> bool, id: string)
    requires ServedUnder(c, own, host, accepts, id, host)
    ensures exists first: string :: FirstServed(c, own, host, accepts, first, host)
    ensures forall first: string, d: string | FirstServed(c, own, host, accepts, first, d) :: d == host
  {
    forall first: string, d: string | FirstServed(c, own, host, accepts, first, d) ensures d == host {
      ExactDomain(d, host);
    }
    ServedIsRegistered(c, own, host, accepts, id, host);
    hide AllRegistered, MatchesHost, FirstServed, ServedUnder;
    var all := AllRegistered(c, own);
    var k := BestIsLinearMatch(all, host, accepts);
    MatchIsFirstServed(c, own, host, accepts, k);
    var first :| FirstServed(c, own, host, accepts, first, all[k].domain);
  }

  /** Overrides only add: a host that a value declares itself is found at exactly that host,
      whatever the overrides are. */
  lemma {:induction false} StaticHostRoutes<V>(c: Content<V>, own: V -> seq<string>, host: string, accepts: V -> bool, id: string)
    requires id in c.entries && host in own(c.entries[id]) && accepts(c.entries[id])
    ensures exists first: string :: FirstServed(c, own, host, accepts, first, host)
    ensures forall first: string, d: string | FirstServed(c, own, host, accepts, first, d) :: d == host
  {
    assert MatchesHost(host, host) by { assert host[0..] == host; }
    ExactHostIsFirst(c, own, host, accepts, id);
  }

  // ---- Snapshots -------------------------------------------------------------------------

  class Snapshot<V(==)> {
    const content: Content<V>
    const scanner: Scanner<V>

    constructor (content: Content<V>, scanner: Scanner<V>)
      ensures this.content == content && this.scanner == scanner
    {
      this.content := content;
      this.scanner := scanner;
    }

    /** The trie holds exactly what the content registers. */
    ghost predicate Complete(own: V -> seq<string>)
      reads scanner, scanner.nodes.Values
    {
      scanner.Valid() && scanner.log == Logged(AllRegistered(content, own))
    }

    /** The value that serves the host in this snapshot: under the longest domain that is the
        host or a suffix of it at a dot, the first by identifier that accepts. */
    method Find(own: V -> seq<string>, host: string, accepts: V -> bool) returns (found: Option<V>)
      requires Complete(own)
      ensures found.Some? ==> exists id, d ::
                FirstServed(content, own, host, accepts, id, d) && content.entries[id] == found.value
      ensures found.None? ==> forall id, d :: !ServedUnder(content, own, host, accepts, id, d)
    {
      hide Best, AllRegistered;
      found := scanner.SearchAll(LabelsOf(host), accepts);
      ghost var all := AllRegistered(content, own);
      ghost var k := BestIsLinearMatch(all, host, accepts);
      if found.Some? {
        MatchIsFirstServed(content, own, host, accepts, k);
        ghost var id :| FirstServed(content, own, host, accepts, id, all[k].domain) && all[k].parser == content.entries[id];
      } else {
        NoMatchNoneServed(content, own, host, accepts);
      }
    }
  }

  lemma LoggedAppend<V>(a: seq<DomainEntry<V>>, b: seq<DomainEntry<V>>)
    ensures Logged(a + b) == Logged(a) + Logged(b)
  {
  }

  /** Registers one value under a list of domains. */
  method AddDomains<V(==)>(scanner: Scanner<V>, domains: seq<string>, value: V)
    requires scanner.Valid()
    modifies scanner, scanner.nodes.Values
    ensures scanner.Valid() && scanner.log == old(scanner.log) + Logged(Under(domains, value))
    ensures fresh(scanner.nodes.Values - old(scanner.nodes.Values))
  {
    hide scanner.Valid, LabelsOf;
    var i := 0;
    assert Logged(Under(domains[..0], value)) == [];
    while i < |domains|
      invariant i <= |domains|
      invariant scanner.Valid() && scanner.log == old(scanner.log) + Logged(Under(domains[..i], value))
      invariant fresh(scanner.nodes.Values - old(scanner.nodes.Values))
    {
      scanner.AddDomainParser(LabelsOf(domains[i]), value);
      assert Logged(Under(domains[..i + 1], value))
          == Logged(Under(domains[..i], value)) + [Registration(LabelsOf(domains[i]), value)];
      i := i + 1;
    }
    assert domains[..i] == domains;
  }

  lemma RegisteredNext<V>(c: Content<V>, own: V -> seq<string>, order: seq<string>, i: nat)
    requires i < |order| && forall id | id in order :: id in c.entries
    ensures Registered(c, own, order[..i + 1])
         == Registered(c, own, order[..i]) + Under(DomainsOf(c, own, order[i]), c.entries[order[i]])
  {
    assert order[..i + 1][..i] == order[..i];
  }

  lemma UnderAppend<V>(a: seq<string>, b: seq<string>, value: V)
    ensures Under(a + b, value) == Under(a, value) + Under(b, value)
  {
  }

  method RegisterEntry<V(==)>(scanner: Scanner<V>, c: Content<V>, own: V -> seq<string>, id: string)
    requires scanner.Valid() && id in c.entries
    modifies scanner, scanner.nodes.Values
    ensures scanner.Valid()
    ensures scanner.log == old(scanner.log) + Logged(Under(DomainsOf(c, own, id), c.entries[id]))
    ensures scanner.log == old(scanner.log) + Logged(Under(own(c.entries[id]), c.entries[id]))
                           + if id in c.overrides then Logged(Under(c.overrides[id], c.entries[id])) else []
    ensures fresh(scanner.nodes.Values - old(scanner.nodes.Values))
  {
    hide scanner.Valid, LabelsOf;
    var value := c.entries[id];
    AddDomains(scanner, own(value), value);
    if id in c.overrides {
      AddDomains(scanner, c.overrides[id], value);
      UnderAppend(own(value), c.overrides[id], value);
      LoggedAppend(Under(own(value), value), Under(c.overrides[id], value));
    } else {
      assert own(value) + [] == own(value);
    }
  }

  /** How far building a snapshot has come after i entries: what is registered, and the
      identifiers still to visit. */
  ghost predicate Built<V>(c: Content<V>, own: V -> seq<string>, i: nat, log: seq<Registration<V>>, rest: set<string>) {
    var order := InOrder(c.entries.Keys);
    i <= |order| && log == Logged(Registered(c, own, order[..i])) && rest == KeysIn(order[i..])
  }

  lemma NothingBuilt<V>(c: Content<V>, own: V -> seq<string>)
    ensures Built(c, own, 0, [], c.entries.Keys)
  {
    var order := InOrder(c.entries.Keys);
    assert order[0..] == order;
  }

  lemma NextBuilt<V>(c: Content<V>, own: V -> seq<string>, i: nat, log: seq<Registration<V>>, rest: set<string>, id: string)
    requires Built(c, own, i, log, rest) && IsFirst(id, rest)
    ensures id in c.entries
    ensures Built(c, own, i + 1, log + Logged(Under(DomainsOf(c, own, id), c.entries[id])), rest - {id})
  {
    var keys := c.entries.Keys;
    var order := InOrder(keys);
    hide InOrder, LabelsOf, DomainsOf;
    assert i < |order|;
    FirstIsNext(keys, i, id);
    assert order[i] in order;
    RegisteredNext(c, own, order, i);
    LoggedAppend(Registered(c, own, order[..i]), Under(DomainsOf(c, own, id), c.entries[id]));
  }

  lemma AllBuilt<V>(c: Content<V>, own: V -> seq<string>, i: nat, log: seq<Registration<V>>)
    requires Built(c, own, i, log, {})
    ensures log == Logged(AllRegistered(c, own))
  {
    var order := InOrder(c.entries.Keys);
    NoKeys(order[i..]);
    assert order[..|order|] == order;
  }

  lemma NoKeys(order: seq<string>)
    ensures KeysIn(order) == {} <==> order == []
  {
    if order != [] {
      assert order[0] in KeysIn(order);
    }
  }

  method MakeSnapshot<V(==)>(content: Content<V>, own: V -> seq<string>) returns (s: Snapshot<V>)
    ensures s.content == content && s.Complete(own)
    ensures fresh(s) && fresh(s.scanner) && fresh(s.scanner.nodes.Values)
  {
    hide Built;
    var scanner := new Scanner<V>();
    var remaining := content.entries.Keys;
    ghost var i := 0;
    NothingBuilt(content, own);
    hide scanner.Valid, AllRegistered, IsFirst, DomainsOf;
    while remaining != {}
      invariant scanner.Valid() && fresh(scanner) && fresh(scanner.nodes.Values)
      invariant Built(content, own, i, scanner.log, remaining)
      decreases |remaining|
    {
      var id := PickFirst(remaining);
      NextBuilt(content, own, i, scanner.log, remaining, id);
      RegisterEntry(scanner, content, own, id);
      remaining := remaining - {id};
      i := i + 1;
    }
    AllBuilt(content, own, i, scanner.log);
    s := new Snapshot(content, scanner);
  }

  method PickFirst(keys: set<string>) returns (id: string)
    requires keys != {}
    ensures id in keys && IsFirst(id, keys)
  {
    FirstExists(keys);
    id :| IsFirst(id, keys);
  }

  // ---- The store and its edits -----------------------------------------------------------

  class Store<V(==)> {
    const own: V -> seq<string>
    var live: Snapshot<V>
    /** Every snapshot that was ever live, the live one last. */
    ghost var history: seq<Snapshot<V>>

    ghost function Reach(): (parts: set<object>)
      reads this, live, live.scanner
      ensures {this, live, live.scanner} <= parts && live.scanner.nodes.Values <= parts
    {
      {this, live, live.scanner} + live.scanner.nodes.Values
    }

    ghost predicate Valid()
      reads this, live, live.scanner, live.scanner.nodes.Values
    {
      && live.Complete(own)
      && history != [] && history[|history| - 1] == live
      && forall i, j | 0 <= i < j < |history| :: history[i] != history[j]
    }

    /** Whichever snapshot a reader has loaded, now or earlier, it holds all that its content
        registers. */
    ghost predicate AllComplete()
      reads this, set s | s in history, set s | s in history :: s.scanner
      reads set s, n | s in history && n in s.scanner.nodes.Values :: n
    {
      forall s | s in history :: s.Complete(own)
    }

    constructor (own: V -> seq<string>)
      ensures Valid() && AllComplete()
      ensures this.own == own && |history| == 1 && live.content == Content(map[], map[])
    {
      this.own := own;
      var s := MakeSnapshot<V>(Content(map[], map[]), own);
      live := s;
      history := [s];
    }

    /** The value that serves the host in the live snapshot. */
    method FindByHost(host: string, accepts: V -> bool) returns (found: Option<V>)
      requires Valid()
      ensures found.Some? ==> exists id, d ::
                FirstServed(live.content, own, host, accepts, id, d) && live.content.entries[id] == found.value
      ensures found.None? ==> forall id, d :: !ServedUnder(live.content, own, host, accepts, id, d)
    {
      hide live.Complete, FirstServed, ServedUnder;
      found := live.Find(own, host, accepts);
    }

    /** Publishes a snapshot of the content when the base is still live; else nothing. */
    method Commit(base: Snapshot<V>, content: Content<V>) returns (ok: bool)
      requires Valid()
      modifies this
      ensures Valid() && ok == (base == old(live))
      ensures old(AllComplete()) ==> AllComplete()
      ensures ok ==> fresh(live) && live.content == content && history == old(history) + [live]
      ensures !ok ==> live == old(live) && history == old(history)
    {
      hide live.Complete;
      ok := live == base;
      if ok {
        var s := MakeSnapshot(content, own);
        live := s;
        history := history + [s];
      }
    }
  }

  class Edit<V(==)> {
    const store: Store<V>
    const base: Snapshot<V>
    var draft: Content<V>
    var committed: bool
    /** The changes made to the draft so far. */
    ghost var changes: seq<Change<V>>
    /** A commit was refused; the draft went with it. */
    ghost var refused: bool

    ghost predicate Valid()
      reads this, store
    {
      && base in store.history
      && (refused ==> base != store.live)
      && (!refused && !committed ==> draft == ChangedBy(base.content, changes))
    }

    constructor (store: Store<V>)
      requires store.Valid()
      ensures Valid() && this.store == store && base == store.live && changes == [] && !refused && !committed
    {
      this.store := store;
      base := store.live;
      draft := store.live.content;
      committed := false;
      changes := [];
      refused := false;
    }

    method Apply(change: Change<V>)
      requires Valid()
      modifies this`draft, this`changes
      ensures Valid() && changes == old(changes) + [change] && draft == Changed(old(draft), change)
    {
      draft := Changed(draft, change);
      changes := changes + [change];
      assert changes[..|changes| - 1] == old(changes);
    }

    /** Adds a value under an identifier that is still free. */
    method AddEntry(id: string, value: V) returns (added: Option<V>)
      requires Valid()
      modifies this`draft, this`changes
      ensures Valid() && changes == old(changes) + [Add(id, value)]
      ensures added == if id in old(draft).entries then None else Some(value)
      ensures added.Some? ==> draft.entries == old(draft).entries[id := value]
      ensures added.None? ==> draft == old(draft)
    {
      added := if id in draft.entries then None else Some(value);
      Apply(Add(id, value));
    }

    method RemoveEntry(id: string) returns (removed: bool)
      requires Valid()
      modifies this`draft, this`changes
      ensures Valid() && changes == old(changes) + [Remove(id)]
      ensures removed == (id in old(draft).entries) && draft.entries == old(draft).entries - {id}
    {
      removed := id in draft.entries;
      Apply(Remove(id));
    }

    /** Succeeds once, and only while the snapshot the edit started from is live; what is
        live then is that snapshot with the edit's changes. */
    method Commit() returns (ok: bool)
      requires Valid() && store.Valid()
      modifies this`draft, this`committed, this`refused, store
      ensures Valid() && store.Valid()
      ensures ok == (!old(committed) && base == old(store.live))
      ensures committed == (old(committed) || ok)
      ensures ok ==>
                && fresh(store.live) && store.history == old(store.history) + [store.live]
                && store.live.content == ChangedBy(base.content, changes)
      ensures !ok ==> store.live == old(store.live) && store.history == old(store.history)
      ensures old(store.AllComplete()) ==> store.AllComplete()
    {
      hide store.Valid, store.AllComplete, ChangedBy;
      if committed {
        return false;
      }
      ok := store.Commit(base, draft);
      draft := Content(map[], map[]);
      refused := !ok;
      committed := ok;
    }
  }
}
