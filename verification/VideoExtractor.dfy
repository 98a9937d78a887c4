/** Delegated extraction: a depth-bounded search through links that may form cycles. */
module VideoExtractor {
  import opened Basics
  import opened Headers
  import RA = ResourceAdapter

  datatype Extraction<L> = Extraction(streams: seq<string>, links: seq<L>, headers: Entries, adapter: Option<RA.Adapter>)

  /** What extracting one routed URL yields, and where a link leads; None for a failure. */
  datatype World<!R(!new), !L> = World(extract: R -> Option<Extraction<L>>, route: L -> Option<R>)

  // ---- Chains of links -------------------------------------------------------------------

  ghost predicate Delegates<R(!new), L>(w: World<R, L>, r: R) {
    w.extract(r).Some? && w.extract(r).value.streams == []
  }

  /** Following the links with these indices, through extractions without streams, ends at an
      extraction with streams. */
  ghost predicate Leads<R(!new), L>(w: World<R, L>, r: R, path: seq<nat>)
    decreases |path|
  {
    if path == [] then w.extract(r).Some? && w.extract(r).value.streams != []
    else
      && Delegates(w, r)
      && path[0] < |w.extract(r).value.links|
      && w.route(w.extract(r).value.links[path[0]]).Some?
      && Leads(w, w.route(w.extract(r).value.links[path[0]]).value, path[1..])
  }

  ghost predicate LeadsWithin<R(!new), L>(w: World<R, L>, r: R, path: seq<nat>, hops: nat) {
    |path| <= hops && Leads(w, r, path)
  }

  /** Link order: the first index at which two chains part decides. */
  predicate NotAfter(p: seq<nat>, q: seq<nat>) {
    if p == [] then true
    else q != [] && (p[0] < q[0] || (p[0] == q[0] && NotAfter(p[1..], q[1..])))
  }

  /** The first chain in link order among those of at most so many hops. */
  ghost predicate IsFirstChain<R(!new), L>(w: World<R, L>, r: R, path: seq<nat>, hops: nat) {
    && LeadsWithin(w, r, path, hops)
    && forall q | LeadsWithin(w, r, q, hops) :: NotAfter(path, q)
  }

  ghost function Target<R(!new), L>(w: World<R, L>, r: R, i: nat): (next: Option<R>)
    requires w.extract(r).Some? && i < |w.extract(r).value.links|
  {
    w.route(w.extract(r).value.links[i])
  }

  // ---- What a resolved chain yields ------------------------------------------------------

  /** The extractions along a chain, from the root down. */
  ghost function Along<R(!new), L>(w: World<R, L>, r: R, path: seq<nat>): (es: seq<Extraction<L>>)
    requires Leads(w, r, path)
    ensures |es| == |path| + 1
    decreases |path|
  {
    [w.extract(r).value] + if path == [] then [] else Along(w, Target(w, r, path[0]).value, path[1..])
  }

  /** The streams of the last extraction; headers and adapters folded in from the inside out. */
  function Assembled<L>(es: seq<Extraction<L>>): Extraction<L>
    requires es != []
  {
    if |es| == 1 then es[0]
    else
      var inner := Assembled(es[1..]);
      inner.(headers := Merged(inner.headers, es[0].headers),
             adapter := RA.Compose([es[0].adapter, inner.adapter]))
  }

  /** All values of a header from the deepest extraction that sets it. */
  function DeepestValues<L>(es: seq<Extraction<L>>, name: string): seq<string> {
    if es == [] then []
    else if DeepestValues(es[1..], name) != [] then DeepestValues(es[1..], name)
    else GetAll(es[0].headers, name)
  }

  function Adapters<L>(es: seq<Extraction<L>>): seq<Option<RA.Adapter>> {
    if es == [] then [] else [es[0].adapter] + Adapters(es[1..])
  }

  lemma {:induction false} AssembledHeaders<L>(es: seq<Extraction<L>>, name: string)
    requires es != []
    ensures GetAll(Assembled(es).headers, name) == DeepestValues(es, name)
    decreases |es|
  {
    if |es| == 1 {
      assert DeepestValues(es[1..], name) == [];
    } else {
      var inner := Assembled(es[1..]);
      AssembledHeaders(es[1..], name);
      MergedValues(inner.headers, es[0].headers, name);
      NoneWithout(inner.headers, name);
    }
  }

  lemma {:induction false} AssembledAdapter<L>(es: seq<Extraction<L>>)
    requires es != []
    ensures Assembled(es).adapter == RA.ComposePairwise(Adapters(es))
    ensures Assembled(es).streams == es[|es| - 1].streams && Assembled(es).links == es[|es| - 1].links
    decreases |es|
  {
    if |es| == 1 {
      assert Adapters(es[1..]) == [];
      var a := es[0].adapter;
      assert Adapters(es) == [a] && Adapters(es)[1..] == [];
      RA.PairNonNull(a, None);
    } else {
      AssembledAdapter(es[1..]);
      assert Adapters(es)[1..] == Adapters(es[1..]);
    }
  }

  /** On a resolved chain the adapters behave as one flat composition, outermost first. */
  lemma {:induction false} AssembledAdapterIsFlat<L>(es: seq<Extraction<L>>, c: RA.Context)
    requires es != []
    ensures Assembled(es).adapter.None? <==> RA.NonNull(Adapters(es)) == []
    ensures Assembled(es).adapter.Some? ==>
              RA.Realizes(Assembled(es).adapter.value(c), RA.OpenEach(RA.NonNull(Adapters(es)), c))
  {
    AssembledAdapter(es);
    RA.PairwiseIsFlat(Adapters(es));
  }

  // ---- How often an extractor is asked ---------------------------------------------------

  function Power(b: nat, n: nat): nat {
    if n == 0 then 1 else b * Power(b, n - 1)
  }

  /** 1 + b + ... + b to the n. */
  function PowerSum(b: nat, n: nat): nat {
    if n == 0 then 1 else PowerSum(b, n - 1) + Power(b, n)
  }

  lemma {:induction false} PowerSumStep(b: nat, n: nat)
    requires n > 0
    ensures PowerSum(b, n) == 1 + b * PowerSum(b, n - 1)
  {
    assert Power(b, 1) == b * Power(b, 0) == b;
    if n > 1 {
      PowerSumStep(b, n - 1);
      calc {
        PowerSum(b, n);
        PowerSum(b, n - 1) + b * Power(b, n - 1);
        1 + b * PowerSum(b, n - 2) + b * Power(b, n - 1);
        1 + b * (PowerSum(b, n - 2) + Power(b, n - 1));
        1 + b * PowerSum(b, n - 1);
      }
    }
  }

  ghost predicate LinksBounded<R(!new), L>(w: World<R, L>, b: nat) {
    forall r | w.extract(r).Some? :: |w.extract(r).value.links| <= b
  }

  // ---- The search ------------------------------------------------------------------------

  function HopsLeft(depth: int, maxDepth: int): nat {
    if depth < maxDepth then maxDepth - depth else 0
  }

  /** A chain that the search may follow: no hop from the allowed depth on. */
  ghost predicate LeadsFrom<R(!new), L>(w: World<R, L>, r: R, path: seq<nat>, depth: int, maxDepth: int) {
    Leads(w, r, path) && (path == [] || depth + |path| <= maxDepth)
  }

  lemma {:induction false} HopsLeftMeans<R(!new), L>(w: World<R, L>, r: R, path: seq<nat>, depth: int, maxDepth: int)
    ensures LeadsFrom(w, r, path, depth, maxDepth) <==> LeadsWithin(w, r, path, HopsLeft(depth, maxDepth))
  {
    hide Leads;
  }

  /** Chains are compared like words: where they first part the smaller link comes first, and a
      chain comes before those it begins. */
  lemma {:induction false} NotAfterIs(p: seq<nat>, q: seq<nat>)
    ensures NotAfter(p, q) <==>
      exists k :: 0 <= k <= |p| && k <= |q| && p[..k] == q[..k] && (k == |p| || (k < |q| && p[k] < q[k]))
    decreases |p|
  {
    if p == [] || q == [] {
      assert p[..0] == q[..0];
    } else if p[0] != q[0] {
      assert p[..0] == q[..0];
      assert forall k | 0 < k <= |p| && k <= |q| :: p[..k][0] != q[..k][0];
    } else {
      NotAfterIs(p[1..], q[1..]);
      if k :| 0 <= k <= |p[1..]| && k <= |q[1..]| && p[1..][..k] == q[1..][..k]
              && (k == |p[1..]| || (k < |q[1..]| && p[1..][k] < q[1..][k])) {
        assert p[..k + 1] == [p[0]] + p[1..][..k] && q[..k + 1] == [q[0]] + q[1..][..k];
      }
      if k :| 0 <= k <= |p| && k <= |q| && p[..k] == q[..k] && (k == |p| || (k < |q| && p[k] < q[k])) {
        assert k > 0;
        assert p[1..][..k - 1] == p[..k][1..] && q[1..][..k - 1] == q[..k][1..];
      }
    }
  }

  /** A chain through link i is a chain from where that link leads. */
  lemma ThroughLink<R(!new), L>(w: World<R, L>, r: R, i: nat, path: seq<nat>)
    requires Delegates(w, r) && i < |w.extract(r).value.links| && Target(w, r, i).Some?
    ensures Leads(w, r, [i] + path) <==> Leads(w, Target(w, r, i).value, path)
    ensures Leads(w, r, [i] + path) ==>
              Along(w, r, [i] + path) == [w.extract(r).value] + Along(w, Target(w, r, i).value, path)
  {
    assert ([i] + path)[1..] == path;
  }

  /** No chain of at most so many hops goes through one of the first n links. */
  ghost predicate NoneThrough<R(!new), L>(w: World<R, L>, r: R, n: nat, hops: nat) {
    forall q | LeadsWithin(w, r, q, hops) :: q != [] && q[0] >= n
  }

  /** When the first links lead nowhere, the first chain through the next one is first of all. */
  lemma FirstThroughLink<R(!new), L>(w: World<R, L>, r: R, i: nat, path: seq<nat>, hops: nat)
    requires hops > 0 && Delegates(w, r) && i < |w.extract(r).value.links| && Target(w, r, i).Some?
    requires NoneThrough(w, r, i, hops)
    requires IsFirstChain(w, Target(w, r, i).value, path, hops - 1)
    ensures IsFirstChain(w, r, [i] + path, hops)
  {
    ThroughLink(w, r, i, path);
    forall q | LeadsWithin(w, r, q, hops) ensures NotAfter([i] + path, q) {
      assert ([i] + path)[1..] == path;
      if q[0] == i {
        assert LeadsWithin(w, Target(w, r, i).value, q[1..], hops - 1);
      }
    }
  }

  lemma NoneThroughNext<R(!new), L>(w: World<R, L>, r: R, i: nat, hops: nat)
    requires hops > 0 && Delegates(w, r) && i < |w.extract(r).value.links|
    requires NoneThrough(w, r, i, hops)
    requires Target(w, r, i).Some? ==> NoChain(w, Target(w, r, i).value, hops - 1)
    ensures NoneThrough(w, r, i + 1, hops)
  {
    forall q | LeadsWithin(w, r, q, hops) ensures q != [] && q[0] >= i + 1 {
      ChainTail(w, r, q, hops);
    }
  }

  lemma ChainTail<R(!new), L>(w: World<R, L>, r: R, q: seq<nat>, hops: nat)
    requires q != [] && LeadsWithin(w, r, q, hops)
    ensures Delegates(w, r) && q[0] < |w.extract(r).value.links| && Target(w, r, q[0]).Some?
    ensures LeadsWithin(w, Target(w, r, q[0]).value, q[1..], hops - 1)
  {
  }

  ghost predicate NoChain<R(!new), L>(w: World<R, L>, r: R, hops: nat) {
    forall q :: !LeadsWithin(w, r, q, hops)
  }

  lemma NoneThroughNone<R(!new), L>(w: World<R, L>, r: R, hops: nat)
    requires Delegates(w, r)
    ensures NoneThrough(w, r, 0, hops)
  {
  }

  lemma Exhausted<R(!new), L>(w: World<R, L>, r: R, hops: nat)
    requires Delegates(w, r) && NoneThrough(w, r, |w.extract(r).value.links|, hops)
    ensures NoChain(w, r, hops)
  {
  }

  lemma AssembledThroughLink<R(!new), L>(w: World<R, L>, r: R, i: nat, path: seq<nat>)
    requires Delegates(w, r) && i < |w.extract(r).value.links| && Target(w, r, i).Some?
    requires Leads(w, Target(w, r, i).value, path)
    ensures Leads(w, r, [i] + path)
    ensures var e, inner := w.extract(r).value, Assembled(Along(w, Target(w, r, i).value, path));
      Assembled(Along(w, r, [i] + path))
        == inner.(headers := Merged(inner.headers, e.headers), adapter := RA.Compose([e.adapter, inner.adapter]))
  {
    ThroughLink(w, r, i, path);
    var es := Along(w, Target(w, r, i).value, path);
    assert ([w.extract(r).value] + es)[1..] == es;
  }

  datatype Outcome = Unresolved | Resolved(path: seq<nat>)

  /** What the search owes: the chain it chose, or proof that there is none. */
  ghost predicate Answers<R(!new), L>(w: World<R, L>, r: R, hops: nat, e: Option<Extraction<L>>, o: Outcome) {
    match o
    case Unresolved => e == w.extract(r) && NoChain(w, r, hops)
    case Resolved(path) => IsFirstChain(w, r, path, hops) && e == Some(Assembled(Along(w, r, path)))
  }

  lemma OwnStreams<R(!new), L>(w: World<R, L>, r: R, hops: nat)
    requires w.extract(r).Some? && w.extract(r).value.streams != []
    ensures Answers(w, r, hops, w.extract(r), Resolved([]))
  {
    assert Leads(w, r, []);
  }

  lemma NoWay<R(!new), L>(w: World<R, L>, r: R, hops: nat)
    requires w.extract(r).Some? ==> w.extract(r).value.streams == [] && (hops == 0 || w.extract(r).value.links == [])
    ensures Answers(w, r, hops, w.extract(r), Unresolved)
  {
  }

  /** The extraction that a link resolved to, as it passes out through this one. */
  function Outward<L>(outer: Extraction<L>, inner: Extraction<L>): Extraction<L> {
    inner.(headers := Merged(inner.headers, outer.headers), adapter := RA.Compose([outer.adapter, inner.adapter]))
  }

  predicate HasStreams<L>(e: Option<Extraction<L>>) {
    e.Some? && e.value.streams != []
  }

  /** A link that resolves settles the search, when those before it lead nowhere. */
  lemma {:induction false} LinkResolves<R(!new), L>(w: World<R, L>, r: R, i: nat, hops: nat, followed: Option<Extraction<L>>, o: Outcome)
    requires hops > 0 && Delegates(w, r) && i < |w.extract(r).value.links| && Target(w, r, i).Some?
    requires NoneThrough(w, r, i, hops)
    requires Answers(w, Target(w, r, i).value, hops - 1, followed, o) && HasStreams(followed) && o.Resolved?
    ensures Answers(w, r, hops, Some(Outward(w.extract(r).value, followed.value)), Resolved([i] + o.path))
  {
    hide Leads, NotAfter, Assembled;
    FirstThroughLink(w, r, i, o.path, hops);
    AssembledThroughLink(w, r, i, o.path);
  }

  /** A link that leads nowhere leaves the rest to the links behind it. */
  lemma {:induction false} LinkFails<R(!new), L>(w: World<R, L>, r: R, i: nat, hops: nat, followed: Option<Extraction<L>>, o: Outcome)
    requires hops > 0 && Delegates(w, r) && i < |w.extract(r).value.links|
    requires NoneThrough(w, r, i, hops)
    requires Target(w, r, i).Some? ==> Answers(w, Target(w, r, i).value, hops - 1, followed, o) && o.Unresolved?
    ensures NoneThrough(w, r, i + 1, hops)
  {
    NoneThroughNext(w, r, i, hops);
  }

  /** Streams exactly when some chain within the allowed depth leads to streams, and then those
      of the first chain in link order; else the root's own extraction. */
  ghost predicate FirstStreams<R(!new), L>(w: World<R, L>, r: R, depth: int, maxDepth: int, e: Option<Extraction<L>>) {
    && (HasStreams(e) <==> exists path :: LeadsFrom(w, r, path, depth, maxDepth))
    && (HasStreams(e) ==> exists path ::
          && LeadsFrom(w, r, path, depth, maxDepth) && e.value == Assembled(Along(w, r, path))
          && forall q | LeadsFrom(w, r, q, depth, maxDepth) :: NotAfter(path, q))
    && (!HasStreams(e) ==> e == w.extract(r))
  }

  lemma {:induction false} AnswerMeans<R(!new), L>(
      w: World<R, L>, r: R, depth: int, maxDepth: int, e: Option<Extraction<L>>, o: Outcome)
    requires Answers(w, r, HopsLeft(depth, maxDepth), e, o) && (o.Resolved? <==> HasStreams(e))
    ensures FirstStreams(w, r, depth, maxDepth, e)
  {
    forall path ensures LeadsFrom(w, r, path, depth, maxDepth) <==> LeadsWithin(w, r, path, HopsLeft(depth, maxDepth)) {
      HopsLeftMeans(w, r, path, depth, maxDepth);
    }
    hide Leads, LeadsFrom, LeadsWithin, NotAfter, Assembled, HopsLeft;
    if o.Resolved? {
      assert LeadsFrom(w, r, o.path, depth, maxDepth);
    }
  }

  /** Streams come back exactly when some chain of at most the allowed hops leads to streams;
      then the first such chain in link order is assembled.  Otherwise the root's own
      extraction comes back.  The graph of links may have cycles. */
  method ExtractRouted<R(!new), L>(w: World<R, L>, r: R, depth: int, maxDepth: int, ghost b: nat)
      returns (e: Option<Extraction<L>>, ghost o: Outcome, ghost calls: nat)
    requires LinksBounded(w, b)
    ensures FirstStreams(w, r, depth, maxDepth, e)
    ensures Answers(w, r, HopsLeft(depth, maxDepth), e, o) && (o.Resolved? <==> HasStreams(e))
    ensures calls <= PowerSum(b, if depth < maxDepth then maxDepth - depth else 0)
    decreases HopsLeft(depth, maxDepth)
  {
    hide FirstStreams, IsFirstChain, Leads, LeadsWithin, NoneThrough, Answers, PowerSum;
    ghost var hops := HopsLeft(depth, maxDepth);
    e := w.extract(r);
    calls := 1;
    o := Unresolved;
    PowerSumPositive(b, hops);
    if HasStreams(e) {
      OwnStreams(w, r, hops);
      o := Resolved([]);
      AnswerMeans(w, r, depth, maxDepth, e, o);
      return;
    }
    if e.None? || e.value.links == [] || depth >= maxDepth {
      NoWay(w, r, hops);
      AnswerMeans(w, r, depth, maxDepth, e, o);
      return;
    }
    var links := e.value.links;
    PowerSumStep(b, hops);
    NoneThroughNone(w, r, hops);
    for i := 0 to |links|
      invariant NoneThrough(w, r, i, hops)
      invariant calls <= 1 + i * PowerSum(b, hops - 1)
    {
      var next := w.route(links[i]);
      ghost var way := Unresolved;
      var followed: Option<Extraction<L>> := None;
      OneMoreLink(i, PowerSum(b, hops - 1));
      if next.Some? {
        ghost var more;
        followed, way, more := ExtractRouted(w, next.value, depth + 1, maxDepth, b);
        calls := calls + more;
        if HasStreams(followed) {
          LinkResolves(w, r, i, hops, followed, way);
          e := Some(Outward(e.value, followed.value));
          o := Resolved([i] + way.path);
          Monotone(i + 1, b, PowerSum(b, hops - 1));
          AnswerMeans(w, r, depth, maxDepth, e, o);
          return;
        }
      }
      LinkFails(w, r, i, hops, followed, way);
    }
    Unanswered(w, r, hops);
    AnswerMeans(w, r, depth, maxDepth, e, o);
    Monotone(|links|, b, PowerSum(b, hops - 1));
  }

  lemma Unanswered<R(!new), L>(w: World<R, L>, r: R, hops: nat)
    requires Delegates(w, r) && NoneThrough(w, r, |w.extract(r).value.links|, hops)
    ensures Answers(w, r, hops, w.extract(r), Unresolved)
  {
    Exhausted(w, r, hops);
  }

  lemma OneMoreLink(i: nat, p: nat)
    ensures (i + 1) * p == i * p + p
  {
  }

  lemma PowerSumPositive(b: nat, n: nat)
    ensures PowerSum(b, n) >= 1
  {
  }

  lemma Monotone(i: nat, b: nat, p: nat)
    requires i <= b
    ensures i * p <= b * p
  {
  }
}
