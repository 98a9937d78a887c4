/** CatalogManager: one guarded step that verifies a catalog and puts all of it in force. */
module CatalogManager {
  import opened Basics
  import opened DomainStore
  import SourceHolder
  import ResourceCache
  import opened Catalog

  type Mirrors = (Lists, map<string, string>)

  /** A swappable slot for mirror overrides and canonical origins. */
  class MirrorHolder {
    var source: Mirrors

    constructor ()
      ensures source == (map[], map[])
    {
      source := (map[], map[]);
    }

    method Set(next: Mirrors)
      modifies this
      ensures source == next
    {
      source := next;
    }
  }

  /** What requests read through; any part may be missing. */
  class Services<B> {
    const mirrors: MirrorHolder?
    const selectors: SourceHolder.Holder?<B>
    const patterns: SourceHolder.Holder?<B>
    const resources: ResourceCache.Cache?<B>

    constructor (mirrors: MirrorHolder?, selectors: SourceHolder.Holder?<B>, patterns: SourceHolder.Holder?<B>, resources: ResourceCache.Cache?<B>)
      ensures this.mirrors == mirrors && this.selectors == selectors
      ensures this.patterns == patterns && this.resources == resources
    {
      this.mirrors, this.selectors, this.patterns, this.resources := mirrors, selectors, patterns, resources;
    }

    ghost function Parts(): set<object?> {
      {mirrors, selectors, patterns, resources}
    }

    ghost predicate Valid()
      reads Parts()
    {
      && (selectors != null ==> selectors.Valid() && selectors.flavor == SourceHolder.Selectors)
      && (patterns != null ==> patterns.Valid() && patterns.flavor == SourceHolder.Patterns)
    }

    /** Each part that is there shows these overrides. */
    ghost predicate Shows(m: Mirrors, s: SourceHolder.Source, p: SourceHolder.Source)
      reads Parts()
    {
      && (mirrors != null ==> mirrors.source == m)
      && (selectors != null ==> selectors.source == s)
      && (patterns != null ==> patterns.source == p)
    }

    ghost predicate Cleared()
      reads Parts()
    {
      && (selectors != null ==> selectors.views == map[] && selectors.sets == map[])
      && (patterns != null ==> patterns.views == map[] && patterns.sets == map[])
      && (resources != null ==> resources.resources == map[])
    }

    method Install(m: Mirrors, s: SourceHolder.Source, p: SourceHolder.Source)
      requires Valid()
      modifies Parts()
      ensures Valid() && Shows(m, s, p) && Cleared()
    {
      if mirrors != null {
        mirrors.Set(m);
      }
      if selectors != null {
        selectors.Set(Some(s));
      }
      if patterns != null {
        patterns.Set(Some(p));
      }
      if resources != null {
        resources.Clear();
      }
    }

    /** Extractors have overrides of mirrors and patterns only. */
    method InstallForExtractors(m: Mirrors, p: SourceHolder.Source)
      requires Valid()
      modifies mirrors, patterns
      ensures Valid() && (mirrors != null ==> mirrors.source == m)
      ensures patterns != null ==> patterns.source == p && patterns.views == map[] && patterns.sets == map[]
    {
      if mirrors != null {
        mirrors.Set(m);
      }
      if patterns != null {
        patterns.Set(Some(p));
      }
    }
  }

  /** refresh_domains: an edit that replaces the extra domains and commits at once. */
  method Refresh<V(==)>(store: Store<V>, domains: Lists)
    requires store.Valid()
    modifies store
    ensures store.Valid()
    ensures store.live.content == old(store.live.content).(overrides := domains)
    ensures store.history == old(store.history) + [store.live]
  {
    hide store.Valid;
    var edit := new Edit(store);
    edit.Apply(SetOverrides(domains));
    assert edit.changes[..0] == [];
    var ok := edit.Commit();
  }

  class Manager<V(==), E(==), B> {
    const store: Store<V>
    const extractors: Store?<E>
    const services: Services<B>
    const extractorServices: Services<B>
    var revision: nat

    ghost function Parts(): set<object?> {
      {store, extractors} + services.Parts() + extractorServices.Parts()
    }

    /** All that the order of the stores and services rests on. */
    ghost function Reach(): set<object?>
      reads store, store.live, store.live.scanner
      reads extractors, if extractors == null then {} else {extractors.live}
      reads if extractors == null then {} else {extractors.live.scanner}
    {
      Parts() + store.Reach() + if extractors == null then {} else extractors.Reach()
    }

    /** Everything the manager drives is in order.  The two services may share parts. */
    ghost predicate Valid()
      reads Reach()
    {
      && extractors as object? != store
      && store.Valid() && (extractors != null ==> extractors.Valid())
      && services.Valid() && extractorServices.Valid()
    }

    ghost predicate Routes(s: State<V>)
      reads store, store.live, extractors, if extractors == null then null else extractors.live
    {
      && store.live.content == Content(s.parsers, s.overrides.domains)
      && (extractors != null ==> extractors.live.content.overrides == s.overrides.extractorDomains)
    }

    /** What the parsers' services show of mirrors and patterns: where a holder serves the
        extractors too, it shows theirs, which are installed last. */
    ghost function ParserMirrors(o: Overrides): Mirrors {
      if services.mirrors == extractorServices.mirrors then (o.extractorMirrors, map[]) else o.mirrors
    }

    ghost function ParserPatterns(o: Overrides): SourceHolder.Source {
      if services.patterns == extractorServices.patterns then o.extractorPatterns else o.patterns
    }

    /** All that is driven shows the same overrides, at this revision. */
    ghost predicate InForce(s: State<V>)
      reads this, Reach()
    {
      && revision == s.revision && Routes(s)
      && services.Shows(ParserMirrors(s.overrides), s.overrides.selectors, ParserPatterns(s.overrides))
      && (extractorServices.mirrors != null ==> extractorServices.mirrors.source == (s.overrides.extractorMirrors, map[]))
      && (extractorServices.patterns != null ==> extractorServices.patterns.source == s.overrides.extractorPatterns)
    }

    /** Each part shows its own field of the catalog.  A holder that both services share shows
        what the extractors' field says. */
    ghost predicate Installed(c: CatalogData)
      reads this, Reach()
    {
      && (forall id, host :: host in ListFor(store.live.content.overrides, id) <==> Names(c, id, host))
      && (extractors != null ==> forall id, host :: host in ListFor(extractors.live.content.overrides, id) <==> NamesForExtractor(c, id, host))
      && (services.mirrors != null && services.mirrors != extractorServices.mirrors ==>
            services.mirrors.source == (c.mirrors, c.canonical))
      && (services.selectors != null ==> services.selectors.source.shared == c.selectors && services.selectors.source.scoped == map[])
      && (services.patterns != null && services.patterns != extractorServices.patterns ==>
            services.patterns.source.shared == map[] && services.patterns.source.scoped == c.patterns)
      && (extractorServices.mirrors != null ==> extractorServices.mirrors.source == (c.extractorMirrors, map[]))
      && (extractorServices.patterns != null ==>
            extractorServices.patterns.source.shared == map[] && extractorServices.patterns.source.scoped == c.extractorPatterns)
    }

    lemma InForceIsInstalled(c: CatalogData, n: nat, entries: map<string, V>)
      requires InForce(State.State(n, OverridesOf(c), entries))
      ensures Installed(c) && revision == n && store.live.content.entries == entries
    {
      hide ListFor, Names, NamesForExtractor, ParserDomains, ExtractorDomains;
      forall id, host
        ensures host in ListFor(ParserDomains(c), id) <==> Names(c, id, host)
        ensures host in ListFor(ExtractorDomains(c), id) <==> NamesForExtractor(c, id, host)
      {
        ParserDomainsAre(c, id, host);
        ExtractorDomainsAre(c, id, host);
      }
    }

    constructor (store: Store<V>, extractors: Store?<E>, services: Services<B>, extractorServices: Services<B>)
      ensures this.store == store && this.extractors == extractors
      ensures this.services == services && this.extractorServices == extractorServices && revision == 0
    {
      this.store, this.extractors := store, extractors;
      this.services, this.extractorServices, revision := services, extractorServices, 0;
    }

    method PublishRoutes(o: Overrides)
      requires extractors as object? != store && store.Valid() && (extractors != null ==> extractors.Valid())
      modifies store, extractors
      ensures store.Valid() && (extractors != null ==> extractors.Valid())
      ensures store.live.content == old(store.live.content).(overrides := o.domains)
      ensures extractors != null ==>
                extractors.live.content == old(extractors.live.content).(overrides := o.extractorDomains)
    {
      hide store.Valid, extractors.Valid;
      Refresh(store, o.domains);
      if extractors != null {
        Refresh(extractors, o.extractorDomains);
      }
    }

    method PublishParts(o: Overrides)
      requires services.Valid() && extractorServices.Valid()
      modifies services.Parts(), extractorServices.Parts()
      ensures services.Valid() && extractorServices.Valid()
      ensures services.Cleared() && services.Shows(ParserMirrors(o), o.selectors, ParserPatterns(o))
      ensures extractorServices.mirrors != null ==> extractorServices.mirrors.source == (o.extractorMirrors, map[])
      ensures extractorServices.patterns != null ==> extractorServices.patterns.source == o.extractorPatterns
    {
      services.Install(o.mirrors, o.selectors, o.patterns);
      extractorServices.InstallForExtractors((o.extractorMirrors, map[]), o.extractorPatterns);
    }

    /** What a store's validity rests on is no part of the services. */
    lemma StoreIsApart<T>(s: Store<T>, parts: Services<B>)
      ensures this !in parts.Parts() && s !in parts.Parts()
      ensures s.live !in parts.Parts() && s.live.scanner !in parts.Parts()
      ensures forall n | n in s.live.scanner.nodes.Values :: n !in parts.Parts()
    {
    }

    /** Puts the overrides in force everywhere; the registered values stay. */
    method Publish(o: Overrides, next: nat)
      requires Valid()
      modifies this, Parts()
      ensures Valid() && services.Cleared()
      ensures InForce(State.State(next, o, old(store.live.content.entries)))
    {
      hide store.Valid, extractors.Valid, services.Valid, services.Shows, services.Cleared, ParserMirrors, ParserPatterns;
      PublishRoutes(o);
      assert services.Valid() && extractorServices.Valid();
      StoreIsApart(store, services);
      StoreIsApart(store, extractorServices);
      if extractors != null {
        StoreIsApart(extractors, services);
        StoreIsApart(extractors, extractorServices);
      }
      hide services.Parts;
      PublishParts(o);
      assert store.Valid();
      assert extractors != null ==> extractors.Valid();
      revision := next;
    }

    lemma InForceIs(s: State<V>)
      ensures InForce(s) ==> s.revision == revision && s.parsers == store.live.content.entries
    {
    }

    lemma DomainsOverride(c: CatalogData)
      ensures OverridesOf(c).domains == WithCanonicalHosts(WithMirrorHosts(c.domains, c.mirrors), c.canonical)
      ensures OverridesOf(c).extractorDomains == WithMirrorHosts(c.extractorDomains, c.extractorMirrors)
    {
      hide WithMirrorHosts, WithCanonicalHosts;
    }

    /** A rejected catalog changes nothing; an accepted one is in force everywhere.  Seen as a
        step of the runs above, it is the step that the event makes. */
    method Apply(payload: Payload, ghost was: State<V>) returns (d: Decoded)
      requires Valid()
      modifies this, Parts()
      ensures Valid() && d == Decode(payload, old(revision))
      ensures d.Rejected? ==> unchanged(this) && forall o: object | o in Parts() && old(allocated(o)) :: unchanged(o)
      ensures d.Accepted? ==>
                && InForce(State.State(d.revision, OverridesOf(d.data), old(store.live.content.entries)))
                && Installed(d.data) && revision == d.revision
                && services.Cleared()
      ensures old(InForce(was)) ==> InForce(Next(was, Event.Apply(payload)))
    {
      hide Decode, store.Valid, extractors.Valid, services.Valid, InForce, Installed, services.Cleared, OverridesOf, ParserDomains, ExtractorDomains, WithMirrorHosts, WithCanonicalHosts;
      InForceIs(was);
      d := Decode(payload, revision);
      if d.Accepted? {
        DomainsOverride(d.data);
        var domains := UnionMirrorHosts(d.data.domains, d.data.mirrors);
        domains := UnionCanonicalHosts(domains, d.data.canonical);
        var extractorDomains := UnionMirrorHosts(d.data.extractorDomains, d.data.extractorMirrors);
        Publish(OverridesOf(d.data).(domains := domains, extractorDomains := extractorDomains), d.revision);
        InForceIsInstalled(d.data, d.revision, old(store.live.content.entries));
      }
    }

    /** Back to what is declared statically. */
    method Reset(ghost was: State<V>)
      requires Valid()
      modifies this, Parts()
      ensures Valid() && InForce(State.State(0, NoOverrides, old(store.live.content.entries)))
      ensures services.Cleared()
      ensures old(InForce(was)) ==> InForce(Next(was, Event.Reset))
    {
      hide store.Valid, extractors.Valid, services.Valid, InForce, services.Cleared;
      InForceIs(was);
      Publish(NoOverrides, 0);
    }
  }
}
