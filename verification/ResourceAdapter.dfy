/** ResourceAdapter::compose: preparing one request through several adapters, and why pairwise
    nesting behaves as one flat composition. */
module ResourceAdapter {
  import opened Basics
  import opened ResourceChain

  datatype Request = Request(url: string, headers: seq<(string, string)>)

  /** The parts of a descriptor that only the first adapter is sure to see: later ones get an
      object that was moved from. */
  datatype Extras = Given(parentUrl: Option<string>, hint: Option<string>) | MovedFrom

  datatype Context = Context(request: Request, kind: nat, extras: Extras)

  datatype Opened = Failed | Opened(request: Request, handle: Option<Handle>)

  type Adapter = Context -> Opened

  /** What the next adapter is given once one has produced its request. */
  function Followed(c: Context, r: Request): Context {
    Context(r, c.kind, MovedFrom)
  }

  datatype Prepared = Broken | Prepared(request: Request, handles: seq<Handle>)

  /** The flat meaning: each adapter prepares the request further; their handles, outermost
      first.  The first failure is the result. */
  function OpenEach(adapters: seq<Adapter>, c: Context): Prepared {
    if adapters == [] then Prepared(c.request, [])
    else
      var o := adapters[0](c);
      if o.Failed? then Broken
      else WithOuter(Present(o.handle), OpenEach(adapters[1..], Followed(c, o.request)))
  }

  function Present(h: Option<Handle>): seq<Handle> {
    if h.Some? then [h.value] else []
  }

  function WithOuter(outer: seq<Handle>, p: Prepared): Prepared {
    match p
    case Broken => Broken
    case Prepared(r, handles) => Prepared(r, outer + handles)
  }

  function Joined(handles: seq<Handle>): Option<Handle> {
    if handles == [] then None
    else if |handles| == 1 then Some(handles[0])
    else Some(AsOne(handles))
  }

  function OpenAll(adapters: seq<Adapter>, c: Context): Opened {
    match OpenEach(adapters, c)
    case Broken => Failed
    case Prepared(r, handles) => Opened(r, Joined(handles))
  }

  function ComposedAdapter(adapters: seq<Adapter>): Adapter {
    c => OpenAll(adapters, c)
  }

  function NonNull(adapters: seq<Option<Adapter>>): seq<Adapter> {
    if adapters == [] then []
    else (if adapters[0].Some? then [adapters[0].value] else []) + NonNull(adapters[1..])
  }

  /** Nulls are dropped; none left composes to null, one to itself. */
  function Compose(adapters: seq<Option<Adapter>>): Option<Adapter> {
    var present := NonNull(adapters);
    if present == [] then None
    else if |present| == 1 then Some(present[0])
    else Some(ComposedAdapter(present))
  }

  /** Adapters composed two at a time, from the innermost out. */
  function ComposePairwise(adapters: seq<Option<Adapter>>): Option<Adapter> {
    if adapters == [] then None
    else Compose([adapters[0], ComposePairwise(adapters[1..])])
  }

  function Run(handle: Option<Handle>, flow: Flow): Flow {
    match handle
    case None => flow
    case Some(h) => Through(h, flow)
  }

  /** The opened resource fails or succeeds as the flat preparation does, asks for the same
      request, and passes every stream as the handles in turn would. */
  ghost predicate Realizes(o: Opened, p: Prepared) {
    match p
    case Broken => o == Failed
    case Prepared(r, handles) =>
      o.Opened? && o.request == r && forall flow :: Run(o.handle, flow) == Composed(handles, flow)
  }

  lemma {:induction false} JoinedRuns(handles: seq<Handle>, flow: Flow)
    ensures Run(Joined(handles), flow) == Composed(handles, flow)
  {
    hide AsOne, Through;
    if handles != [] {
      assert |handles| == 1 ==> handles[..0] == [] && handles == [handles[0]];
      NestedThrough(handles, flow);
    }
  }

  lemma {:induction false} ComposedRealizes(adapters: seq<Adapter>, c: Context)
    ensures Realizes(OpenAll(adapters, c), OpenEach(adapters, c))
  {
    hide OpenEach, Composed, Joined, Run;
    var p := OpenEach(adapters, c);
    if p.Prepared? {
      forall flow ensures Run(Joined(p.handles), flow) == Composed(p.handles, flow) {
        JoinedRuns(p.handles, flow);
      }
    }
  }

  lemma PresentRuns(h: Option<Handle>, flow: Flow)
    ensures Composed(Present(h), flow) == Run(h, flow)
  {
    assert h.Some? ==> Present(h)[..0] == [];
  }

  lemma OpenCons(a: Adapter, rest: seq<Adapter>, c: Context)
    ensures OpenEach([a] + rest, c)
         == if a(c).Failed? then Broken
            else WithOuter(Present(a(c).handle), OpenEach(rest, Followed(c, a(c).request)))
  {
    assert ([a] + rest)[1..] == rest;
  }

  lemma OneRealizes(a: Adapter, c: Context)
    ensures Realizes(a(c), OpenEach([a], c))
  {
    OpenCons(a, [], c);
    assert [a] + [] == [a];
    if a(c).Opened? {
      var h := a(c).handle;
      assert OpenEach([], Followed(c, a(c).request)).handles == [];
      assert Present(h) + [] == Present(h);
      hide OpenEach, Composed, Run;
      forall flow ensures Run(h, flow) == Composed(Present(h), flow) {
        PresentRuns(h, flow);
      }
    }
  }

  /** Behind one adapter, an inner composition may be replaced by its flat form. */
  lemma {:induction false} InnerIsFlat(outer: Adapter, inner: Adapter, flat: seq<Adapter>, c: Context)
    requires forall d :: Realizes(inner(d), OpenEach(flat, d))
    ensures Realizes(OpenAll([outer, inner], c), OpenEach([outer] + flat, c))
  {
    hide OpenEach, Composed, Joined, Run;
    OpenCons(outer, [inner], c);
    OpenCons(outer, flat, c);
    assert [outer] + [inner] == [outer, inner];
    ComposedRealizes([outer, inner], c);
    if outer(c).Opened? {
      var d, h := Followed(c, outer(c).request), Present(outer(c).handle);
      OneRealizes(inner, d);
      assert Realizes(inner(d), OpenEach(flat, d));
      if inner(d).Opened? {
        var one, rest := OpenEach([inner], d).handles, OpenEach(flat, d).handles;
        forall flow ensures Composed(h + one, flow) == Composed(h + rest, flow) {
          ComposedConcat(h, one, flow);
          ComposedConcat(h, rest, flow);
          assert Composed(one, flow) == Run(inner(d).handle, flow) == Composed(rest, flow);
        }
      }
    }
  }

  /** Composing two at a time behaves as one flat composition of the adapters that are not
      null, from outermost to innermost. */
  lemma {:induction false} PairwiseIsFlat(adapters: seq<Option<Adapter>>)
    ensures ComposePairwise(adapters).None? <==> NonNull(adapters) == []
    ensures ComposePairwise(adapters).Some? ==>
              forall c :: Realizes(ComposePairwise(adapters).value(c), OpenEach(NonNull(adapters), c))
    decreases |adapters|
  {
    if adapters != [] {
      var first, rest := adapters[0], adapters[1..];
      PairwiseIsFlat(rest);
      var inner := ComposePairwise(rest);
      PairNonNull(first, inner);
      hide Realizes, OpenEach, OpenAll;
      if first.Some? && inner.Some? {
        forall c ensures Realizes(OpenAll([first.value, inner.value], c), OpenEach(NonNull(adapters), c)) {
          InnerIsFlat(first.value, inner.value, NonNull(rest), c);
        }
      } else if first.Some? {
        assert NonNull(adapters) == [first.value];
        forall c ensures Realizes(first.value(c), OpenEach([first.value], c)) {
          OneRealizes(first.value, c);
        }
      } else {
        assert NonNull(adapters) == NonNull(rest);
      }
    }
  }

  lemma PairNonNull(a: Option<Adapter>, b: Option<Adapter>)
    ensures NonNull([a, b]) == (if a.Some? then [a.value] else []) + if b.Some? then [b.value] else []
  {
    assert [a, b][1..] == [b] && [b][1..] == [];
    assert NonNull([]) == [];
    var tail := if b.Some? then [b.value] else [];
    assert NonNull([b]) == tail + [] == tail;
  }

  /** What opening a composition means, one adapter at a time: the first prepares the request;
      the others see that request, the same kind of resource and nothing else of the
      descriptor; and a stream passes their handle first, and the first adapter's last. */
  lemma {:induction false} FirstAdapterIsOutermost(a: Adapter, rest: seq<Adapter>, c: Context)
    ensures var o := OpenAll([a] + rest, c);
      match a(c)
      case Failed => o == Failed
      case Opened(q, h) =>
        var p := OpenAll(rest, Context(q, c.kind, MovedFrom));
        if p == Failed then o == Failed
        else o.Opened? && o.request == p.request && forall flow :: Run(o.handle, flow) == Run(h, Run(p.handle, flow))
  {
    hide OpenEach, Composed, Joined, Run;
    OpenCons(a, rest, c);
    ComposedRealizes([a] + rest, c);
    if a(c).Opened? {
      var d, outer := Context(a(c).request, c.kind, MovedFrom), Present(a(c).handle);
      ComposedRealizes(rest, d);
      var p := OpenEach(rest, d);
      if p.Prepared? {
        forall flow ensures Composed(outer + p.handles, flow) == Run(a(c).handle, Composed(p.handles, flow)) {
          ComposedConcat(outer, p.handles, flow);
          PresentRuns(a(c).handle, Composed(p.handles, flow));
        }
      }
    }
  }

  /** Opening nothing asks for what was given. */
  lemma NoAdapters(c: Context)
    ensures OpenAll([], c) == Opened(c.request, None)
    ensures forall flow :: Run(None, flow) == flow
  {
  }

  /** With two handles: the inner one's output goes into the outer one. */
  lemma {:induction false} InnerHandleIsFirst(a: Adapter, b: Adapter, c: Context, q: Request, r: Request, h: Handle, k: Handle)
    requires a(c) == Opened(q, Some(h)) && b(Context(q, c.kind, MovedFrom)) == Opened(r, Some(k))
    ensures var o := OpenAll([a, b], c);
      o.Opened? && o.request == r && forall flow :: Run(o.handle, flow) == Through(h, Through(k, flow))
  {
    hide Through, AsOne;
    var d := Context(q, c.kind, MovedFrom);
    FirstAdapterIsOutermost(a, [b], c);
    FirstAdapterIsOutermost(b, [], d);
    NoAdapters(Context(r, c.kind, MovedFrom));
    assert [a] + [b] == [a, b] && [b] + [] == [b];
  }

  /** ComposedResourceAdapter::open. */
  method Open(adapters: seq<Adapter>, resource: Context) returns (o: Opened)
    ensures o == OpenAll(adapters, resource)
  {
    var current := resource;
    var handles: seq<Handle> := [];
    var i := 0;
    assert adapters[0..] == adapters;
    while i < |adapters|
      invariant i <= |adapters|
      invariant OpenEach(adapters, resource)
             == WithOuter(handles, OpenEach(adapters[i..], current))
    {
      assert adapters[i..][1..] == adapters[i + 1..];
      var next := adapters[i](current);
      if next.Failed? {
        return Failed;
      }
      current := Followed(current, next.request);
      if next.handle.Some? {
        handles := handles + [next.handle.value];
      }
      i := i + 1;
    }
    assert handles + [] == handles;
    o := Opened(current.request, Joined(handles));
  }
}
