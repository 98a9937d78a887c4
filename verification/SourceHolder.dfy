/** SelectorSourceHolder and RegexSourceHolder: a swappable source of overrides, with caches of
    what each owner sees of it and of what is built from that. */
module SourceHolder {
  import opened Basics

  type Table = map<string, string>

  /** A source: overrides visible to every owner, and overrides by owner. */
  datatype Source = Source(shared: Table, scoped: map<string, Table>)

  /** Selector sources lay an owner's overrides over the shared ones; pattern sources show the
      owner's overrides alone. */
  datatype Flavor = Selectors | Patterns

  const EmptySource: Source := Source(map[], map[])

  predicate HasScope(s: Source, owner: string) {
    owner in s.scoped && s.scoped[owner] != map[]
  }

  /** scoped_to: the overrides as one flat source. */
  function ScopedTo(flavor: Flavor, s: Source, owner: string): Source {
    var own := if owner in s.scoped then s.scoped[owner] else map[];
    match flavor
    case Selectors => Source(s.shared + own, map[])
    case Patterns => Source(own, map[])
  }

  /** What view_for answers without a cache. */
  function ViewOf(flavor: Flavor, s: Source, owner: string): Source {
    if owner == "" || !HasScope(s, owner) then s else ScopedTo(flavor, s, owner)
  }

  /** Lookups read the flat table only. */
  function Seen(flavor: Flavor, s: Source, owner: string): Table {
    ViewOf(flavor, s, owner).shared
  }

  /** No owner's overrides reach another: what an owner sees is settled by the shared table
      and its own scope. */
  lemma SeenIsIsolated(flavor: Flavor, s: Source, t: Source, owner: string)
    requires s.shared == t.shared
    requires HasScope(s, owner) == HasScope(t, owner)
    requires HasScope(s, owner) ==> s.scoped[owner] == t.scoped[owner]
    ensures Seen(flavor, s, owner) == Seen(flavor, t, owner)
  {
  }

  /** A view shows what scoped_to would, except where it hands out the whole source: for the
      empty owner with overrides of its own that change the shared table, and for pattern
      sources that carry shared overrides. */
  lemma SeenIsScoped(flavor: Flavor, s: Source, owner: string)
    ensures Seen(flavor, s, owner) == ScopedTo(flavor, s, owner).shared <==>
      if owner != "" && HasScope(s, owner) then true
      else
        var own := if owner in s.scoped then s.scoped[owner] else map[];
        match flavor
        case Selectors => forall key | key in own :: key in s.shared && s.shared[key] == own[key]
        case Patterns => s.shared == own
  {
    var own: Table := if owner in s.scoped then s.scoped[owner] else map[];
    assert s.shared + map[] == s.shared;
    if flavor == Selectors && s.shared == s.shared + own {
      forall key | key in own ensures key in s.shared && s.shared[key] == own[key] {
        assert (s.shared + own)[key] == own[key];
      }
    }
    if forall key | key in own :: key in s.shared && s.shared[key] == own[key] {
      assert s.shared == s.shared + own;
    }
  }

  /** Key by key, what a view shows.  To an owner with overrides a selector source shows the
      owner's entry where there is one and else the shared one, a pattern source the owner's
      alone; to anyone else both show the shared table. */
  lemma SeenByKey(flavor: Flavor, s: Source, owner: string, key: string)
    ensures var seen, scoped := Seen(flavor, s, owner), owner != "" && owner in s.scoped && s.scoped[owner] != map[];
      && (!scoped ==> seen == s.shared && ViewOf(flavor, s, owner) == s)
      && (scoped ==> ViewOf(flavor, s, owner).scoped == map[])
      && (scoped && flavor == Patterns ==> seen == s.scoped[owner])
      && (scoped && flavor == Selectors ==>
            && (key in seen <==> key in s.scoped[owner] || key in s.shared)
            && (key in s.scoped[owner] ==> seen[key] == s.scoped[owner][key])
            && (key in s.shared && key !in s.scoped[owner] ==> seen[key] == s.shared[key]))
  {
  }

  // ---- Atomic calls ----------------------------------------------------------------------

  /** B is what a set type builds; the number stands for the type. */
  class Holder<B> {
    const flavor: Flavor
    const create: (nat, Table) -> B
    var source: Source
    var views: map<string, Source>
    var sets: map<(string, nat), B>

    ghost predicate Valid()
      reads this
    {
      && (forall o | o in views :: o != "" && HasScope(source, o) && views[o] == ScopedTo(flavor, source, o))
      && (forall o, k | (o, k) in sets :: sets[(o, k)] == create(k, Seen(flavor, source, o)))
    }

    constructor (flavor: Flavor, create: (nat, Table) -> B)
      ensures Valid() && this.flavor == flavor && this.create == create && source == EmptySource
    {
      this.flavor, this.create := flavor, create;
      source, views, sets := EmptySource, map[], map[];
    }

    /** A null source counts as an empty one. */
    method Set(next: Option<Source>)
      modifies this
      ensures Valid() && source == if next.Some? then next.value else EmptySource
      ensures views == map[] && sets == map[]
    {
      source := if next.Some? then next.value else EmptySource;
      views := map[];
      sets := map[];
    }

    /** After any calls, the view is the one recomputed from the current source. */
    method ViewFor(owner: string) returns (view: Source)
      requires Valid()
      modifies this`views
      ensures Valid() && view == ViewOf(flavor, source, owner)
      ensures forall o | o in old(views) :: o in views && views[o] == old(views)[o]
    {
      if owner == "" || !HasScope(source, owner) {
        return source;
      }
      if owner in views {
        return views[owner];
      }
      view := ScopedTo(flavor, source, owner);
      views := views[owner := view];
    }

    /** Built once, and always equal to building from the current source. */
    method SetFor(owner: string, key: nat) returns (built: B)
      requires Valid()
      modifies this`views, this`sets
      ensures Valid() && built == create(key, Seen(flavor, source, owner))
      ensures (owner, key) in sets && sets[(owner, key)] == built
    {
      if (owner, key) in sets {
        return sets[(owner, key)];
      }
      var view := ViewFor(owner);
      built := create(key, view.shared);
      sets := sets[(owner, key) := built];
    }
  }

  // ---- Interleaved steps -----------------------------------------------------------------

  /** A reader between its steps: it loaded a source, or holds its view. */
  datatype Reader = Loaded(owner: string, from: Source) | Holding(owner: string, view: Source)

  datatype State<B> = State(source: Source, views: map<string, Source>, sets: map<(string, nat), B>, readers: map<nat, Reader>)

  /** set() stores, then clears under the lock; view_for() loads, then takes the cached view
      or installs its own; set_for() then builds and installs. */
  datatype Step =
    | Store(next: Source)
    | Clear
    | Load(reader: nat, owner: string)
    | Take(reader: nat)
    | Install(reader: nat, key: nat)

  function Next<B>(flavor: Flavor, create: (nat, Table) -> B, s: State<B>, step: Step): State<B> {
    match step
    case Store(next) => s.(source := next)
    case Clear => s.(views := map[], sets := map[])
    case Load(r, owner) => s.(readers := s.readers[r := Loaded(owner, s.source)])
    case Take(r) =>
      if r !in s.readers || s.readers[r].Holding? then s
      else
        var owner, from := s.readers[r].owner, s.readers[r].from;
        if owner == "" || !HasScope(from, owner) then s.(readers := s.readers[r := Holding(owner, from)])
        else if owner in s.views then s.(readers := s.readers[r := Holding(owner, s.views[owner])])
        else
          var view := ScopedTo(flavor, from, owner);
          s.(views := s.views[owner := view], readers := s.readers[r := Holding(owner, view)])
    case Install(r, key) =>
      if r !in s.readers || s.readers[r].Loaded? || (s.readers[r].owner, key) in s.sets then s
      else s.(sets := s.sets[(s.readers[r].owner, key) := create(key, s.readers[r].view.shared)])
  }

  function Run<B>(flavor: Flavor, create: (nat, Table) -> B, steps: seq<Step>): State<B> {
    if steps == [] then State(EmptySource, map[], map[], map[])
    else Next(flavor, create, Run(flavor, create, steps[..|steps| - 1]), steps[|steps| - 1])
  }

  /** Every source that was ever stored. */
  function Published(steps: seq<Step>): set<Source> {
    if steps == [] then {EmptySource}
    else
      Published(steps[..|steps| - 1]) + if steps[|steps| - 1].Store? then {steps[|steps| - 1].next} else {}
  }

  ghost predicate FromPublished(flavor: Flavor, published: set<Source>, owner: string, view: Source) {
    exists s | s in published :: view == ViewOf(flavor, s, owner)
  }

  ghost predicate BuiltFromPublished<B>(flavor: Flavor, create: (nat, Table) -> B, published: set<Source>, owner: string, key: nat, built: B) {
    exists s | s in published :: built == create(key, Seen(flavor, s, owner))
  }

  ghost predicate Traceable<B>(flavor: Flavor, create: (nat, Table) -> B, published: set<Source>, s: State<B>) {
    && s.source in published
    && (forall o | o in s.views :: FromPublished(flavor, published, o, s.views[o]))
    && (forall o, k | (o, k) in s.sets :: BuiltFromPublished(flavor, create, published, o, k, s.sets[(o, k)]))
    && (forall r | r in s.readers ::
          match s.readers[r]
          case Loaded(_, from) => from in published
          case Holding(owner, view) => FromPublished(flavor, published, owner, view))
  }

  lemma TraceableGrows<B>(flavor: Flavor, create: (nat, Table) -> B, p: set<Source>, q: set<Source>, s: State<B>)
    requires p <= q && Traceable(flavor, create, p, s)
    ensures Traceable(flavor, create, q, s)
  {
    forall o | o in s.views ensures FromPublished(flavor, q, o, s.views[o]) {
      assert FromPublished(flavor, p, o, s.views[o]);
    }
    forall o, k | (o, k) in s.sets ensures BuiltFromPublished(flavor, create, q, o, k, s.sets[(o, k)]) {
      assert BuiltFromPublished(flavor, create, p, o, k, s.sets[(o, k)]);
    }
    forall r | r in s.readers && s.readers[r].Holding? ensures FromPublished(flavor, q, s.readers[r].owner, s.readers[r].view) {
      assert FromPublished(flavor, p, s.readers[r].owner, s.readers[r].view);
    }
  }

  lemma ViewIsPublished(flavor: Flavor, p: set<Source>, owner: string, from: Source)
    requires from in p
    ensures FromPublished(flavor, p, owner, ViewOf(flavor, from, owner))
  {
  }

  lemma BuiltIsPublished<B>(flavor: Flavor, create: (nat, Table) -> B, p: set<Source>, owner: string, key: nat, view: Source)
    requires FromPublished(flavor, p, owner, view)
    ensures BuiltFromPublished(flavor, create, p, owner, key, create(key, view.shared))
  {
    var from :| from in p && view == ViewOf(flavor, from, owner);
    assert create(key, view.shared) == create(key, Seen(flavor, from, owner));
  }

  lemma TakeIsTraceable<B>(flavor: Flavor, create: (nat, Table) -> B, p: set<Source>, s: State<B>, r: nat)
    requires Traceable(flavor, create, p, s) && r in s.readers && s.readers[r].Loaded?
    ensures Traceable(flavor, create, p, Next(flavor, create, s, Take(r)))
  {
    hide ScopedTo, HasScope, FromPublished, BuiltFromPublished;
    var owner, from := s.readers[r].owner, s.readers[r].from;
    ViewIsPublished(flavor, p, owner, from);
  }

  lemma InstallIsTraceable<B>(flavor: Flavor, create: (nat, Table) -> B, p: set<Source>, s: State<B>, r: nat, key: nat)
    requires Traceable(flavor, create, p, s) && r in s.readers && s.readers[r].Holding?
    ensures Traceable(flavor, create, p, Next(flavor, create, s, Install(r, key)))
  {
    hide ViewOf, FromPublished, BuiltFromPublished;
    BuiltIsPublished(flavor, create, p, s.readers[r].owner, key, s.readers[r].view);
  }

  /** In every interleaving, each cached or returned view is that of some source published so
      far, and each built set was built from such a view. */
  lemma {:induction false} ViewsArePublished<B>(flavor: Flavor, create: (nat, Table) -> B, steps: seq<Step>)
    ensures Traceable(flavor, create, Published(steps), Run(flavor, create, steps))
    decreases |steps|
  {
    hide FromPublished, BuiltFromPublished;
    if steps != [] {
      var before, step := steps[..|steps| - 1], steps[|steps| - 1];
      var p, s := Published(steps), Run(flavor, create, before);
      ViewsArePublished(flavor, create, before);
      TraceableGrows(flavor, create, Published(before), p, s);
      if step.Take? && step.reader in s.readers && s.readers[step.reader].Loaded? {
        TakeIsTraceable(flavor, create, p, s, step.reader);
      } else if step.Install? && step.reader in s.readers && s.readers[step.reader].Holding? {
        InstallIsTraceable(flavor, create, p, s, step.reader, step.key);
      }
    }
  }

  /** A cached view stays until the next clear, whatever is stored meanwhile. */
  lemma {:induction false} CachedUntilClear<B>(flavor: Flavor, create: (nat, Table) -> B, steps: seq<Step>, more: seq<Step>, owner: string)
    requires owner in Run(flavor, create, steps).views && Clear !in more
    ensures owner in Run(flavor, create, steps + more).views
    ensures Run(flavor, create, steps + more).views[owner] == Run(flavor, create, steps).views[owner]
    decreases |more|
  {
    hide ScopedTo, HasScope, ViewOf;
    if more == [] {
      assert steps + more == steps;
    } else {
      var n := |more| - 1;
      assert more[n] in more && forall x | x in more[..n] :: x in more;
      CachedUntilClear(flavor, create, steps, more[..n], owner);
      assert (steps + more)[..|steps + more| - 1] == steps + more[..n];
    }
  }

  // ---- When cached views are current -----------------------------------------------------

  /** Every cached view and every cached set is the one recomputed from the current source. */
  ghost predicate Current<B>(flavor: Flavor, create: (nat, Table) -> B, s: State<B>) {
    && (forall o | o in s.views :: s.views[o] == ViewOf(flavor, s.source, o))
    && (forall o, k | (o, k) in s.sets :: s.sets[(o, k)] == create(k, Seen(flavor, s.source, o)))
  }

  /** A set() has stored and not yet cleared. */
  predicate Pending(steps: seq<Step>) {
    steps != [] &&
    var last := steps[|steps| - 1];
    last.Store? || (!last.Clear? && Pending(steps[..|steps| - 1]))
  }

  /** Taking installs the reader's own view. */
  predicate Installs<B>(s: State<B>, r: nat) {
    && r in s.readers && s.readers[r].Loaded? && s.readers[r].owner !in s.views
    && s.readers[r].owner != "" && HasScope(s.readers[r].from, s.readers[r].owner)
  }

  /** What a step puts into a cache is what the current source would give: a reader that
      installs its view loaded a source that shows its owner the same, and one that installs
      its set holds a view that builds the same. */
  ghost predicate Punctual<B>(flavor: Flavor, create: (nat, Table) -> B, s: State<B>, step: Step) {
    match step
    case Take(r) =>
      Installs(s, r) ==>
        ViewOf(flavor, s.readers[r].from, s.readers[r].owner) == ViewOf(flavor, s.source, s.readers[r].owner)
    case Install(r, key) =>
      r in s.readers && s.readers[r].Holding? && (s.readers[r].owner, key) !in s.sets ==>
        create(key, s.readers[r].view.shared) == create(key, Seen(flavor, s.source, s.readers[r].owner))
    case _ => true
  }

  /** Between sets, one step leaves current caches current exactly when it is punctual. */
  lemma StepStaysCurrent<B>(flavor: Flavor, create: (nat, Table) -> B, s: State<B>, step: Step)
    requires Current(flavor, create, s) && !step.Store?
    ensures Current(flavor, create, Next(flavor, create, s, step)) <==> Punctual(flavor, create, s, step)
  {
    hide ScopedTo, HasScope;
    var t := Next(flavor, create, s, step);
    match step {
      case Take(r) =>
        if Installs(s, r) {
          var owner := s.readers[r].owner;
          assert t.views == s.views[owner := ViewOf(flavor, s.readers[r].from, owner)];
          assert owner in t.views;
        } else {
          assert t.views == s.views;
        }
      case Install(r, key) =>
        if r in s.readers && s.readers[r].Holding? {
          assert (s.readers[r].owner, key) in t.sets;
        }
      case _ =>
    }
  }

  /** Whenever no set() is under way, the caches are current. */
  ghost predicate AlwaysCurrent<B>(flavor: Flavor, create: (nat, Table) -> B, steps: seq<Step>) {
    forall n | 0 <= n <= |steps| :: !Pending(steps[..n]) ==> Current(flavor, create, Run(flavor, create, steps[..n]))
  }

  ghost predicate AlwaysPunctual<B>(flavor: Flavor, create: (nat, Table) -> B, steps: seq<Step>) {
    forall n | 0 <= n < |steps| :: !Pending(steps[..n]) ==> Punctual(flavor, create, Run(flavor, create, steps[..n]), steps[n])
  }

  /** In every interleaving the caches are current between sets exactly when every step taken
      between sets is punctual. */
  lemma CurrentIffPunctual<B>(flavor: Flavor, create: (nat, Table) -> B, steps: seq<Step>)
    ensures AlwaysCurrent(flavor, create, steps) <==> AlwaysPunctual(flavor, create, steps)
  {
    hide Current, Punctual, Run, Pending;
    if AlwaysCurrent(flavor, create, steps) {
      forall n | 0 <= n < |steps| && !Pending(steps[..n])
        ensures Punctual(flavor, create, Run(flavor, create, steps[..n]), steps[n])
      {
        OneFurther(flavor, create, steps, n);
      }
    }
    if AlwaysPunctual(flavor, create, steps) {
      forall n | 0 <= n <= |steps| && !Pending(steps[..n])
        ensures Current(flavor, create, Run(flavor, create, steps[..n]))
      {
        PunctualIsCurrent(flavor, create, steps, n);
      }
    }
  }

  /** How a run goes on by one step, and whether that step decides. */
  lemma OneFurther<B>(flavor: Flavor, create: (nat, Table) -> B, steps: seq<Step>, n: nat)
    requires n < |steps|
    ensures var s, t := Run(flavor, create, steps[..n]), Run(flavor, create, steps[..n + 1]);
      && t == Next(flavor, create, s, steps[n])
      && (Pending(steps[..n + 1]) <==> steps[n].Store? || (!steps[n].Clear? && Pending(steps[..n])))
      && (steps[n].Store? ==> Punctual(flavor, create, s, steps[n]))
      && (steps[n].Clear? ==> Current(flavor, create, t))
      && (Current(flavor, create, s) && !steps[n].Store? ==>
            (Current(flavor, create, t) <==> Punctual(flavor, create, s, steps[n])))
  {
    assert steps[..n + 1][..n] == steps[..n];
    var s := Run(flavor, create, steps[..n]);
    hide Run;
    if Current(flavor, create, s) && !steps[n].Store? {
      StepStaysCurrent(flavor, create, s, steps[n]);
    }
  }

  lemma {:induction false} PunctualIsCurrent<B>(flavor: Flavor, create: (nat, Table) -> B, steps: seq<Step>, n: nat)
    requires AlwaysPunctual(flavor, create, steps) && n <= |steps| && !Pending(steps[..n])
    ensures Current(flavor, create, Run(flavor, create, steps[..n]))
    decreases n
  {
    if n > 0 {
      hide Current, Punctual, Run, Pending;
      OneFurther(flavor, create, steps, n - 1);
      if !steps[n - 1].Clear? {
        PunctualIsCurrent(flavor, create, steps, n - 1);
      }
    }
  }

  // ---- Calls that no set() overtakes -----------------------------------------------------

  /** Since the reader last loaded, nothing was stored. */
  predicate LoadedSinceStore(steps: seq<Step>, r: nat) {
    steps != [] &&
    var last := steps[|steps| - 1];
    (last.Load? && last.reader == r) || (!last.Store? && LoadedSinceStore(steps[..|steps| - 1], r))
  }

  /** Since the reader took its view, nothing was cleared. */
  predicate TookSinceClear<B>(flavor: Flavor, create: (nat, Table) -> B, steps: seq<Step>, r: nat) {
    steps != [] &&
    var last, before := steps[|steps| - 1], steps[..|steps| - 1];
    var readers := Run(flavor, create, before).readers;
    || (last == Take(r) && r in readers && readers[r].Loaded?)
    || (!last.Clear? && !(last.Load? && last.reader == r) && TookSinceClear(flavor, create, before, r))
  }

  /** The step belongs to a call that no set() has overtaken. */
  predicate Timely<B>(flavor: Flavor, create: (nat, Table) -> B, steps: seq<Step>, step: Step) {
    match step
    case Take(r) => LoadedSinceStore(steps, r)
    case Install(r, _) => LoadedSinceStore(steps, r) && TookSinceClear(flavor, create, steps, r)
    case _ => true
  }

  ghost predicate AlwaysTimely<B>(flavor: Flavor, create: (nat, Table) -> B, steps: seq<Step>) {
    forall n | 0 <= n < |steps| :: !Pending(steps[..n]) ==> Timely(flavor, create, steps[..n], steps[n])
  }

  /** What a reader knows that has not been overtaken. */
  ghost predicate Knows<B>(flavor: Flavor, create: (nat, Table) -> B, steps: seq<Step>, r: nat) {
    var s := Run(flavor, create, steps);
    r in s.readers && LoadedSinceStore(steps, r) ==>
      match s.readers[r]
      case Loaded(_, from) => from == s.source
      case Holding(owner, view) =>
        !Pending(steps) && TookSinceClear(flavor, create, steps, r) ==> view == ViewOf(flavor, s.source, owner)
  }

  ghost predicate UpToDate<B>(flavor: Flavor, create: (nat, Table) -> B, steps: seq<Step>) {
    forall r: nat :: Knows(flavor, create, steps, r)
  }

  lemma StaysUpToDate<B>(flavor: Flavor, create: (nat, Table) -> B, before: seq<Step>, step: Step)
    requires UpToDate(flavor, create, before)
    requires !Pending(before) ==> Current(flavor, create, Run(flavor, create, before))
    ensures UpToDate(flavor, create, before + [step])
  {
    forall r: nat ensures Knows(flavor, create, before + [step], r) {
      assert Knows(flavor, create, before, r);
      StillKnows(flavor, create, before, step, r);
    }
  }

  lemma StillKnows<B>(flavor: Flavor, create: (nat, Table) -> B, before: seq<Step>, step: Step, r: nat)
    requires Knows(flavor, create, before, r)
    requires !Pending(before) ==> Current(flavor, create, Run(flavor, create, before))
    ensures Knows(flavor, create, before + [step], r)
  {
    hide Run, Next, Pending, LoadedSinceStore, TookSinceClear, Current, ViewOf;
    OneMore(flavor, create, before, step, r);
    var s := Run(flavor, create, before);
    if step == Take(r) && r in s.readers && s.readers[r].Loaded? {
      if LoadedSinceStore(before, r) && !Pending(before) {
        TakenIsCurrent(flavor, create, s, r);
      }
      TakenIsHeld(flavor, create, s, r);
    } else {
      OthersStay(flavor, create, s, step, r);
    }
  }

  lemma OneMore<B>(flavor: Flavor, create: (nat, Table) -> B, before: seq<Step>, step: Step, r: nat)
    ensures var after, s := before + [step], Run(flavor, create, before);
      && Run(flavor, create, after) == Next(flavor, create, s, step)
      && (Pending(after) <==> step.Store? || (!step.Clear? && Pending(before)))
      && (LoadedSinceStore(after, r) <==> (step.Load? && step.reader == r) || (!step.Store? && LoadedSinceStore(before, r)))
      && (TookSinceClear(flavor, create, after, r) <==>
            || (step == Take(r) && r in s.readers && s.readers[r].Loaded?)
            || (!step.Clear? && !(step.Load? && step.reader == r) && TookSinceClear(flavor, create, before, r)))
  {
    assert (before + [step])[..|before|] == before;
  }

  lemma TakenIsHeld<B>(flavor: Flavor, create: (nat, Table) -> B, s: State<B>, r: nat)
    requires r in s.readers && s.readers[r].Loaded?
    ensures var t := Next(flavor, create, s, Take(r));
      t.source == s.source && r in t.readers && t.readers[r].Holding? && t.readers[r].owner == s.readers[r].owner
  {
  }

  /** A reader changes only by its own loading and taking. */
  lemma OthersStay<B>(flavor: Flavor, create: (nat, Table) -> B, s: State<B>, step: Step, r: nat)
    requires step == Take(r) ==> r !in s.readers || s.readers[r].Holding?
    ensures var t := Next(flavor, create, s, step);
      && t.source == (if step.Store? then step.next else s.source)
      && (if step.Load? && step.reader == r then r in t.readers && t.readers[r] == Loaded(step.owner, s.source)
          else (r in t.readers <==> r in s.readers) && (r in s.readers ==> t.readers[r] == s.readers[r]))
  {
    hide ScopedTo, HasScope;
  }

  /** A reader that loaded the current source takes its current view. */
  lemma TakenIsCurrent<B>(flavor: Flavor, create: (nat, Table) -> B, s: State<B>, r: nat)
    requires r in s.readers && s.readers[r].Loaded? && Current(flavor, create, s) && s.readers[r].from == s.source
    ensures var owner := s.readers[r].owner;
      Next(flavor, create, s, Take(r)).readers[r] == Holding(owner, ViewOf(flavor, s.source, owner))
  {
    hide ScopedTo, HasScope;
  }

  lemma UpToDateIsPunctual<B>(flavor: Flavor, create: (nat, Table) -> B, steps: seq<Step>, step: Step)
    requires UpToDate(flavor, create, steps) && !Pending(steps) && Timely(flavor, create, steps, step)
    ensures Punctual(flavor, create, Run(flavor, create, steps), step)
  {
    hide ScopedTo, HasScope;
    if step.Take? || step.Install? {
      assert Knows(flavor, create, steps, step.reader);
    }
  }

  lemma {:induction false} TimelyPrefix<B>(flavor: Flavor, create: (nat, Table) -> B, steps: seq<Step>, n: nat)
    requires AlwaysTimely(flavor, create, steps) && n <= |steps|
    ensures UpToDate(flavor, create, steps[..n])
    ensures !Pending(steps[..n]) ==> Current(flavor, create, Run(flavor, create, steps[..n]))
    decreases n
  {
    if n > 0 {
      TimelyPrefix(flavor, create, steps, n - 1);
      hide Run, Current, Punctual, Pending, UpToDate, Timely;
      StaysUpToDate(flavor, create, steps[..n - 1], steps[n - 1]);
      assert steps[..n - 1] + [steps[n - 1]] == steps[..n];
      OneFurther(flavor, create, steps, n - 1);
      if !Pending(steps[..n - 1]) {
        UpToDateIsPunctual(flavor, create, steps[..n - 1], steps[n - 1]);
      }
    }
  }

  /** If no call is overtaken by a set(), every cached view and set is current whenever no
      set() is under way. */
  lemma TimelyIsCurrent<B>(flavor: Flavor, create: (nat, Table) -> B, steps: seq<Step>)
    requires AlwaysTimely(flavor, create, steps)
    ensures AlwaysCurrent(flavor, create, steps)
  {
    hide Run, Current, Pending, AlwaysTimely, UpToDate;
    forall n | 0 <= n <= |steps| && !Pending(steps[..n]) ensures Current(flavor, create, Run(flavor, create, steps[..n])) {
      TimelyPrefix(flavor, create, steps, n);
    }
  }
}
