/** The commit protocol under interleaving: any number of edits, their steps in any order. */
module StoreProtocol {
  import opened DomainStore

  datatype Draft<V> = Draft(base: nat, content: Content<V>, refused: bool, committed: bool)

  /** Published contents in order, the last one live; snapshots are told apart by position.
      Edits are open drafts by number. */
  datatype State<V> = State(published: seq<Content<V>>, drafts: map<nat, Draft<V>>)

  datatype Step<V> =
    | Begin(edit: nat)
    | Modify(edit: nat, change: Change<V>)
    | Commit(edit: nat)

  function Live<V>(s: State<V>): nat
    requires s.published != []
  {
    |s.published| - 1
  }

  function Initial<V>(): State<V> {
    State([Content(map[], map[])], map[])
  }

  /** One atomic step.  An edit number is begun once. */
  function Next<V>(s: State<V>, step: Step<V>): (t: State<V>)
    requires s.published != []
    ensures s.published <= t.published
  {
    match step
    case Begin(e) =>
      if e in s.drafts then s
      else s.(drafts := s.drafts[e := Draft(Live(s), s.published[Live(s)], false, false)])
    case Modify(e, change) =>
      if e !in s.drafts then s
      else s.(drafts := s.drafts[e := s.drafts[e].(content := Changed(s.drafts[e].content, change))])
    case Commit(e) =>
      if e !in s.drafts || s.drafts[e].committed then s
      else
        var d := s.drafts[e];
        if d.base == Live(s) then
          State(s.published + [d.content], s.drafts[e := d.(content := Content(map[], map[]), committed := true)])
        else
          s.(drafts := s.drafts[e := d.(content := Content(map[], map[]), refused := true)])
  }

  function Run<V>(steps: seq<Step<V>>): (s: State<V>)
    ensures s.published != []
  {
    if steps == [] then Initial() else Next(Run(steps[..|steps| - 1]), steps[|steps| - 1])
  }

  /** The changes a history makes through one edit. */
  function ChangesOf<V>(steps: seq<Step<V>>, e: nat): seq<Change<V>> {
    if steps == [] then []
    else
      var last := steps[|steps| - 1];
      var before := ChangesOf(steps[..|steps| - 1], e);
      if last.Modify? && last.edit == e && e in Run(steps[..|steps| - 1]).drafts then before + [last.change] else before
  }

  /** A draft's base has been published; it is no longer live once a commit was tried; and
      until then the draft is the base with the changes made. */
  ghost predicate Follows<V>(d: Draft<V>, published: seq<Content<V>>, changes: seq<Change<V>>) {
    && d.base < |published|
    && (d.refused || d.committed ==> d.base < |published| - 1)
    && (!d.refused && !d.committed ==> d.content == ChangedBy(published[d.base], changes))
  }

  ghost predicate DraftsFollow<V>(s: State<V>, steps: seq<Step<V>>) {
    forall e | e in s.drafts :: Follows(s.drafts[e], s.published, ChangesOf(steps, e))
  }

  lemma {:induction false} RunDraftsFollow<V>(steps: seq<Step<V>>)
    ensures Run(steps).published != [] && DraftsFollow(Run(steps), steps)
    ensures forall e | e !in Run(steps).drafts :: ChangesOf(steps, e) == []
    decreases |steps|
  {
    if steps != [] {
      var before, step := steps[..|steps| - 1], steps[|steps| - 1];
      RunDraftsFollow(before);
      var s, t := Run(before), Run(steps);
      hide Follows;
      forall e | e in t.drafts ensures Follows(t.drafts[e], t.published, ChangesOf(steps, e)) {
        if e in s.drafts {
          StillFollows(s, step, e, ChangesOf(before, e));
        } else {
          Begun(s, step, e);
        }
      }
    }
  }

  lemma StillFollows<V>(s: State<V>, step: Step<V>, e: nat, changes: seq<Change<V>>)
    requires s.published != [] && e in s.drafts && Follows(s.drafts[e], s.published, changes)
    ensures var t := Next(s, step);
      e in t.drafts
      && Follows(t.drafts[e], t.published, if step.Modify? && step.edit == e then changes + [step.change] else changes)
  {
    if step.Modify? {
      assert (changes + [step.change])[..|changes|] == changes;
    }
  }

  lemma Begun<V>(s: State<V>, step: Step<V>, e: nat)
    requires s.published != [] && e !in s.drafts
    ensures var t := Next(s, step);
      e in t.drafts ==> step == Begin(e) && Follows(t.drafts[e], t.published, [])
  {
  }

  /** Every published snapshot is one edit's changes made to the one published just before
      it: no update is lost. */
  lemma {:induction false} NoLostUpdate<V>(steps: seq<Step<V>>, step: Step<V>)
    ensures var s, t := Run(steps), Next(Run(steps), step);
      t.published != s.published ==>
        && step.Commit?
        && t.published == s.published + [ChangedBy(s.published[Live(s)], ChangesOf(steps, step.edit))]
  {
    RunDraftsFollow(steps);
  }

  /** A commit publishes exactly when the edit is open and its base is the live snapshot; then
      it publishes one snapshot, the draft. */
  lemma CommitPublishes<V>(steps: seq<Step<V>>, e: nat)
    ensures var s, t := Run(steps), Next(Run(steps), Commit(e));
      if e in s.drafts && !s.drafts[e].committed && s.drafts[e].base == |s.published| - 1
      then t.published == s.published + [s.drafts[e].content] && t.drafts[e].committed
      else t.published == s.published
  {
  }

  /** The edit began from a snapshot that is no longer live. */
  predicate Stale<V>(s: State<V>, e: nat, base: nat) {
    e in s.drafts && s.drafts[e].base == base < |s.published| - 1
  }

  lemma StaleStays<V>(s: State<V>, step: Step<V>, e: nat, base: nat)
    requires Stale(s, e, base)
    ensures Stale(Next(s, step), e, base)
  {
  }

  /** Once the snapshot an edit began from is no longer live, no later step of any history
      commits that edit. */
  lemma {:induction false} StaleNeverCommits<V>(steps: seq<Step<V>>, more: seq<Step<V>>, e: nat)
    requires e in Run(steps).drafts && Run(steps).drafts[e].base < Live(Run(steps))
    ensures var s := Run(steps + more);
      Stale(s, e, Run(steps).drafts[e].base) && Next(s, Commit(e)).published == s.published
    decreases |more|
  {
    if more == [] {
      assert steps + more == steps;
    } else {
      var n := |more| - 1;
      StaleNeverCommits(steps, more[..n], e);
      StaleStays(Run(steps + more[..n]), more[n], e, Run(steps).drafts[e].base);
      assert (steps + more)[..|steps + more| - 1] == steps + more[..n];
    }
  }
}
