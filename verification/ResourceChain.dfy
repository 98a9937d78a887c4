/** Chained resource handles: the block-by-block recursion of the chain, proved equal to
    passing whole streams through one handle after the other. */
module ResourceChain {
  type Block = seq<bv8>

  /** Blocks written in order, and whether the writer then reported success. */
  datatype Flow = Flow(blocks: seq<Block>, ok: bool)

  /** A stateful handle: how it reacts to its next block, or to the end of the stream, as a
      function of the blocks it was given before. */
  datatype Handle = Handle(onUpdate: (seq<Block>, Block) -> Flow, onFinal: seq<Block> -> Flow)

  // ---- One handle over a whole stream ----------------------------------------------------

  /** Everything a handle writes while it is given blocks; it stops at its first failure. */
  function Updates(h: Handle, blocks: seq<Block>): Flow {
    if blocks == [] then Flow([], true)
    else
      var n := |blocks| - 1;
      var before := Updates(h, blocks[..n]);
      if !before.ok then before
      else
        var e := h.onUpdate(blocks[..n], blocks[n]);
        Flow(before.blocks + e.blocks, e.ok)
  }

  /** A stream through a handle, not yet flushed. */
  function Unflushed(h: Handle, flow: Flow): Flow {
    var u := Updates(h, flow.blocks);
    Flow(u.blocks, u.ok && flow.ok)
  }

  /** A stream through a handle: its updates, then its flush once the stream ended well. */
  function Through(h: Handle, flow: Flow): Flow {
    var u := Unflushed(h, flow);
    if !u.ok then u
    else
      var e := h.onFinal(flow.blocks);
      Flow(u.blocks + e.blocks, e.ok)
  }

  /** A stream through the last handle, then the one before it, down to the first. */
  function Composed(handles: seq<Handle>, flow: Flow): Flow {
    if handles == [] then flow
    else Composed(handles[..|handles| - 1], Through(handles[|handles| - 1], flow))
  }

  function ComposedUnflushed(handles: seq<Handle>, flow: Flow): Flow {
    if handles == [] then flow
    else ComposedUnflushed(handles[..|handles| - 1], Unflushed(handles[|handles| - 1], flow))
  }

  // ---- Streams that grow -----------------------------------------------------------------

  /** The longer stream repeats the shorter one, and repeats it exactly if that one broke. */
  predicate Extends(a: Flow, b: Flow) {
    a.blocks <= b.blocks && (!a.ok ==> b == a)
  }

  lemma {:induction false} UpdatesExtend(h: Handle, xs: seq<Block>, ys: seq<Block>)
    ensures Extends(Updates(h, xs), Updates(h, xs + ys))
    decreases |ys|
  {
    if ys == [] {
      assert xs + ys == xs;
    } else {
      var n := |ys| - 1;
      UpdatesExtend(h, xs, ys[..n]);
      assert (xs + ys)[..|xs + ys| - 1] == xs + ys[..n];
    }
  }

  lemma UnflushedExtends(h: Handle, a: Flow, b: Flow)
    requires Extends(a, b)
    ensures Extends(Unflushed(h, a), Unflushed(h, b))
  {
    assert b.blocks == a.blocks + b.blocks[|a.blocks|..];
    UpdatesExtend(h, a.blocks, b.blocks[|a.blocks|..]);
  }

  lemma ThroughExtends(h: Handle, a: Flow, b: Flow)
    requires Extends(a, b)
    ensures Extends(Unflushed(h, a), Through(h, b))
  {
    UnflushedExtends(h, a, b);
  }

  /** What is written before the stream ends is a beginning of what is written in all; a
      failure on the way is final. */
  lemma {:induction false} ComposedExtends(handles: seq<Handle>, a: Flow, b: Flow)
    requires Extends(a, b)
    ensures Extends(ComposedUnflushed(handles, a), ComposedUnflushed(handles, b))
    ensures Extends(ComposedUnflushed(handles, a), Composed(handles, b))
    decreases |handles|
  {
    if handles != [] {
      var n := |handles| - 1;
      UnflushedExtends(handles[n], a, b);
      ThroughExtends(handles[n], a, b);
      ComposedExtends(handles[..n], Unflushed(handles[n], a), Unflushed(handles[n], b));
      ComposedExtends(handles[..n], Unflushed(handles[n], a), Through(handles[n], b));
    }
  }

  /** A broken stream is never flushed on. */
  lemma {:induction false} BrokenIsNotFlushed(handles: seq<Handle>, flow: Flow)
    requires !flow.ok
    ensures Composed(handles, flow) == ComposedUnflushed(handles, flow)
    ensures !Composed(handles, flow).ok
    decreases |handles|
  {
    if handles != [] {
      BrokenIsNotFlushed(handles[..|handles| - 1], Unflushed(handles[|handles| - 1], flow));
    }
  }

  /** Breaking a stream off changes nothing of what it wrote. */
  lemma {:induction false} BreakingOff(handles: seq<Handle>, blocks: seq<Block>)
    ensures ComposedUnflushed(handles, Flow(blocks, false)) == Flow(ComposedUnflushed(handles, Flow(blocks, true)).blocks, false)
    decreases |handles|
  {
    if handles != [] {
      var n := |handles| - 1;
      var u := Updates(handles[n], blocks);
      BreakingOff(handles[..n], u.blocks);
    }
  }

  lemma OneStage(h: Handle, flow: Flow)
    ensures ComposedUnflushed([h], flow) == Unflushed(h, flow)
  {
    assert [h][..0] == [];
  }

  /** The first of the handles is the last that a stream passes. */
  lemma {:induction false} FirstIsOutermost(h: Handle, rest: seq<Handle>, flow: Flow)
    ensures Composed([h] + rest, flow) == Through(h, Composed(rest, flow))
    decreases |rest|
  {
    hide Through;
    var all := [h] + rest;
    if rest == [] {
      assert all == [h] && all[..0] == [];
    } else {
      var n := |rest| - 1;
      assert all[..|all| - 1] == [h] + rest[..n];
      FirstIsOutermost(h, rest[..n], Through(rest[n], flow));
    }
  }

  /** A handle that keeps no state writes the image of each block in order, then its flush. */
  lemma {:induction false} StatelessThrough(f: Block -> Block, last: Block, blocks: seq<Block>)
    ensures var h := Handle((before, b) => Flow([f(b)], true), before => Flow([last], true));
      && |Updates(h, blocks).blocks| == |blocks| && Updates(h, blocks).ok
      && (forall k | 0 <= k < |blocks| :: Updates(h, blocks).blocks[k] == f(blocks[k]))
      && Through(h, Flow(blocks, true)) == Flow(Updates(h, blocks).blocks + [last], true)
      && Through(h, Flow(blocks, false)) == Flow(Updates(h, blocks).blocks, false)
    decreases |blocks|
  {
    if blocks != [] {
      StatelessThrough(f, last, blocks[..|blocks| - 1]);
    }
  }

  // ---- The chain -------------------------------------------------------------------------

  /** The consumer at the end of the chain; it may refuse a block. */
  class Output {
    const accepts: (seq<Block>, Block) -> bool
    var delivered: seq<Block>

    constructor (accepts: (seq<Block>, Block) -> bool)
      ensures this.accepts == accepts && delivered == []
    {
      this.accepts := accepts;
      delivered := [];
    }

    method Write(block: Block) returns (ok: bool)
      modifies this`delivered
      ensures ok == accepts(old(delivered), block)
      ensures delivered == if ok then old(delivered) + [block] else old(delivered)
    {
      ok := accepts(delivered, block);
      if ok {
        delivered := delivered + [block];
      }
    }

    /** The consumer seen as the last handle a stream passes. */
    ghost function AsHandle(): Handle {
      var takes := accepts;
      Handle((given: seq<Block>, block: Block) => if takes(given, block) then Flow([block], true) else Flow([], false),
             (given: seq<Block>) => Flow([], true))
    }
  }

  lemma {:induction false} TakenWhole(output: Output, blocks: seq<Block>)
    requires Updates(output.AsHandle(), blocks).ok
    ensures Updates(output.AsHandle(), blocks).blocks == blocks
    decreases |blocks|
  {
    if blocks != [] {
      TakenWhole(output, blocks[..|blocks| - 1]);
    }
  }

  class ChainedHandle {
    const handles: seq<Handle>
    /** The blocks each handle was given so far: all of its state. */
    var given: seq<seq<Block>>

    constructor (handles: seq<Handle>)
      ensures this.handles == handles && Fresh()
    {
      this.handles := handles;
      given := seq(|handles|, k => []);
    }

    ghost predicate Fresh()
      reads this
    {
      |given| == |handles| && forall k | 0 <= k < |handles| :: given[k] == []
    }

    /** The consumer, then the first `count` handles. */
    ghost function Stages(output: Output, count: nat): (s: seq<Handle>)
      requires count <= |handles|
      ensures |s| == count + 1
    {
      [output.AsHandle()] + handles[..count]
    }

    /** What stage k was given: the consumer's deliveries, or a handle's blocks. */
    ghost function At(output: Output, k: nat): seq<Block>
      requires |given| == |handles| && k <= |handles|
      reads this, output
    {
      if k == 0 then output.delivered else given[k - 1]
    }

    /** Up to stage `count`, each stage was given exactly what the next one wrote. */
    ghost predicate Flowing(output: Output, count: nat)
      requires count <= |handles|
      reads this, output
    {
      && |given| == |handles|
      && Updates(output.AsHandle(), output.delivered).ok
      && forall k: nat | 0 < k <= count :: Linked(output, k)
    }

    /** Stage k wrote exactly what stage k - 1 was given. */
    ghost predicate Linked(output: Output, k: nat)
      requires 0 < k <= |handles| == |given|
      reads this, output
    {
      Updates(handles[k - 1], given[k - 1]) == Flow(At(output, k - 1), true)
    }

    /** What the consumer has once `blocks` have been fed to the first `count` handles. */
    ghost function Reached(output: Output, count: nat, blocks: seq<Block>): Flow
      requires count <= |handles|
    {
      ComposedUnflushed(Stages(output, count), Flow(blocks, true))
    }

    lemma StagesStep(output: Output, count: nat)
      requires 0 < count <= |handles|
      ensures Stages(output, count)[..count] == Stages(output, count - 1)
      ensures Stages(output, count)[count] == handles[count - 1]
    {
    }

    /** A chain that flows has delivered what its input amounts to. */
    lemma {:induction false} FlowingReached(output: Output, count: nat)
      requires count <= |handles| && Flowing(output, count)
      ensures Reached(output, count, At(output, count)) == Flow(output.delivered, true)
      decreases count
    {
      if count == 0 {
        TakenWhole(output, output.delivered);
        OneStage(output.AsHandle(), Flow(output.delivered, true));
        assert Stages(output, 0) == [output.AsHandle()];
      } else {
        StagesStep(output, count);
        FlowingReached(output, count - 1);
        assert Linked(output, count);
      }
    }

    method WriteOut(input: Block, output: Output) returns (ok: bool)
      requires Flowing(output, 0)
      modifies output`delivered
      ensures Flow(output.delivered, ok) == Reached(output, 0, old(output.delivered) + [input])
      ensures ok ==> Flowing(output, 0) && output.delivered == old(output.delivered) + [input]
    {
      ghost var all := output.delivered + [input];
      assert all[..|all| - 1] == output.delivered;
      TakenWhole(output, output.delivered);
      OneStage(output.AsHandle(), Flow(all, true));
      assert Stages(output, 0) == [output.AsHandle()];
      ok := output.Write(input);
    }

    method UpdatePrefix(count: nat, input: Block, output: Output) returns (ok: bool)
      requires count <= |handles| && Flowing(output, count)
      modifies this, output`delivered
      ensures |given| == |handles| && forall k | count <= k < |handles| :: given[k] == old(given[k])
      ensures Flow(output.delivered, ok) == Reached(output, count, old(At(output, count)) + [input])
      ensures ok ==> Flowing(output, count) && At(output, count) == old(At(output, count)) + [input]
      decreases count, 0
    {
      if count == 0 {
        ok := WriteOut(input, output);
      } else {
        var e := handles[count - 1].onUpdate(given[count - 1], input);
        UpdateStep(output, count, input);
        StagesStep(output, count);
        hide Updates, ComposedUnflushed;
        given := given[count - 1 := given[count - 1] + [input]];
        forall k: nat | 0 < k <= count - 1 ensures Linked(output, k) {
          assert old(Linked(output, k));
          assert At(output, k - 1) == old(At(output, k - 1));
        }
        ok := Forward(count - 1, e, output);
        assert ok ==> Linked(output, count);
      }
    }

    /** One more block: what the stage has written in all. */
    lemma UpdateStep(output: Output, count: nat, input: Block)
      requires 0 < count <= |handles| && Flowing(output, count)
      ensures var h, before := handles[count - 1], given[count - 1];
        && Updates(h, before + [input])
             == Flow(At(output, count - 1) + h.onUpdate(before, input).blocks, h.onUpdate(before, input).ok)
        && ComposedUnflushed(Stages(output, count), Flow(before + [input], true))
             == ComposedUnflushed(Stages(output, count)[..count], Updates(h, before + [input]))
    {
      assert Linked(output, count);
      var all := given[count - 1] + [input];
      assert all[..|all| - 1] == given[count - 1];
    }

    /** Writes what one handle emits into the handles before it, block by block. */
    method Forward(count: nat, e: Flow, output: Output) returns (ok: bool)
      requires count <= |handles| && Flowing(output, count)
      modifies this, output`delivered
      ensures |given| == |handles| && forall k | count <= k < |handles| :: given[k] == old(given[k])
      ensures Flow(output.delivered, ok)
           == ComposedUnflushed(Stages(output, count), Flow(old(At(output, count)) + e.blocks, e.ok))
      ensures ok ==> e.ok && Flowing(output, count) && At(output, count) == old(At(output, count)) + e.blocks
      decreases count, 1
    {
      ghost var start := At(output, count);
      var i := 0;
      assert start + e.blocks[..0] == start;
      while i < |e.blocks|
        invariant i <= |e.blocks|
        invariant Flowing(output, count) && At(output, count) == start + e.blocks[..i]
        invariant forall k | count <= k < |handles| :: given[k] == old(given[k])
      {
        ok := UpdatePrefix(count, e.blocks[i], output);
        assert start + e.blocks[..i] + [e.blocks[i]] == start + e.blocks[..i + 1];
        if !ok {
          ghost var stages := Stages(output, count);
          assert start + e.blocks == start + e.blocks[..i + 1] + e.blocks[i + 1..];
          ComposedExtends(stages, Flow(start + e.blocks[..i + 1], true), Flow(start + e.blocks, true));
          BreakingOff(stages, start + e.blocks);
          return;
        }
        i := i + 1;
      }
      assert e.blocks[..i] == e.blocks;
      FlowingReached(output, count);
      BreakingOff(Stages(output, count), start + e.blocks);
      ok := e.ok;
    }

    /** The flushes, from the handle that sees the input first to the one that sees it last. */
    method Final(output: Output) returns (ok: bool)
      requires Flowing(output, |handles|)
      modifies this, output`delivered
      ensures Flow(output.delivered, ok)
           == Composed(Stages(output, |handles|), Flow(old(At(output, |handles|)), true))
    {
      ghost var goal := Composed(Stages(output, |handles|), Flow(At(output, |handles|), true));
      var count: nat := |handles|;
      while count > 0
        invariant count <= |handles|
        invariant Flowing(output, count)
        invariant goal == Composed(Stages(output, count), Flow(At(output, count), true))
      {
        var e := handles[count - 1].onFinal(given[count - 1]);
        FinalStep(output, count);
        hide Composed, Updates, ComposedUnflushed;
        ghost var flow := Flow(At(output, count - 1) + e.blocks, e.ok);
        ok := Forward(count - 1, e, output);
        count := count - 1;
        if !ok {
          FailureIsFinal(Stages(output, count), flow);
          return;
        }
      }
      assert Stages(output, 0) == [output.AsHandle()];
      TakenWhole(output, output.delivered);
      SinkComposed(output);
      ok := true;
    }

    lemma SinkComposed(output: Output)
      requires Updates(output.AsHandle(), output.delivered) == Flow(output.delivered, true)
      ensures Composed([output.AsHandle()], Flow(output.delivered, true)) == Flow(output.delivered, true)
    {
      assert [output.AsHandle()][..0] == [];
    }

    lemma FinalStep(output: Output, count: nat)
      requires 0 < count <= |handles| && Flowing(output, count)
      ensures var e := handles[count - 1].onFinal(given[count - 1]);
        Composed(Stages(output, count), Flow(At(output, count), true))
          == Composed(Stages(output, count - 1), Flow(At(output, count - 1) + e.blocks, e.ok))
    {
      StagesStep(output, count);
      assert Linked(output, count);
    }

    lemma FailureIsFinal(stages: seq<Handle>, flow: Flow)
      requires !ComposedUnflushed(stages, flow).ok
      ensures Composed(stages, flow) == ComposedUnflushed(stages, flow)
    {
      if flow.ok {
        ComposedExtends(stages, flow, flow);
      } else {
        BrokenIsNotFlushed(stages, flow);
      }
    }

    /** A whole stream as the transport drives it: every block through `update`, then
        `final` after a successful end. */
    method Deliver(inputs: seq<Block>, output: Output) returns (ok: bool)
      requires Fresh() && output.delivered == []
      modifies this, output`delivered
      ensures Flow(output.delivered, ok) == Composed(Stages(output, |handles|), Flow(inputs, true))
    {
      var n := |handles|;
      hide Composed, ComposedUnflushed;
      var i := 0;
      while i < |inputs|
        invariant i <= |inputs|
        invariant Flowing(output, n) && At(output, n) == (if n == 0 then output.delivered else inputs[..i])
        invariant At(output, n) == inputs[..i]
      {
        ok := UpdatePrefix(n, inputs[i], output);
        assert inputs[..i] + [inputs[i]] == inputs[..i + 1];
        if !ok {
          ghost var a, b := Flow(inputs[..i + 1], true), Flow(inputs, true);
          ComposedExtends(Stages(output, n), a, b);
          return;
        }
        i := i + 1;
      }
      assert inputs[..i] == inputs;
      ok := Final(output);
    }
  }

  // ---- A chain as one handle, and chains of chains ---------------------------------------

  /** A chain seen from outside: what each update or the end newly delivers. */
  function AsOne(handles: seq<Handle>): Handle {
    Handle((given: seq<Block>, block: Block) => News(handles, given, ComposedUnflushed(handles, Flow(given + [block], true))),
           (given: seq<Block>) => News(handles, given, Composed(handles, Flow(given, true))))
  }

  function News(handles: seq<Handle>, given: seq<Block>, now: Flow): Flow {
    var before := ComposedUnflushed(handles, Flow(given, true));
    Flow(if before.blocks <= now.blocks then now.blocks[|before.blocks|..] else [], now.ok)
  }

  lemma AsOneReacts(handles: seq<Handle>, given: seq<Block>, block: Block)
    ensures AsOne(handles).onUpdate(given, block)
         == News(handles, given, ComposedUnflushed(handles, Flow(given + [block], true)))
    ensures AsOne(handles).onFinal(given) == News(handles, given, Composed(handles, Flow(given, true)))
  {
    hide ComposedUnflushed, Composed, News;
  }

  lemma {:induction false} NestedUpdates(handles: seq<Handle>, blocks: seq<Block>)
    ensures Updates(AsOne(handles), blocks) == ComposedUnflushed(handles, Flow(blocks, true))
    decreases |blocks|
  {
    hide AsOne;
    if blocks == [] {
      NothingIn(handles);
    } else {
      var n := |blocks| - 1;
      var before, now := Flow(blocks[..n], true), Flow(blocks, true);
      assert blocks[..n] + [blocks[n]] == blocks;
      NestedUpdates(handles, blocks[..n]);
      ComposedExtends(handles, before, now);
      hide ComposedUnflushed, Composed;
      AsOneReacts(handles, blocks[..n], blocks[n]);
    }
  }

  lemma {:induction false} NothingIn(handles: seq<Handle>)
    ensures ComposedUnflushed(handles, Flow([], true)) == Flow([], true)
    decreases |handles|
  {
    if handles != [] {
      NothingIn(handles[..|handles| - 1]);
    }
  }

  /** A chain used as one handle passes a stream as its handles in turn do. */
  lemma {:induction false} NestedThrough(handles: seq<Handle>, flow: Flow)
    ensures Through(AsOne(handles), flow) == Composed(handles, flow)
  {
    hide AsOne, ComposedUnflushed, Composed, Updates;
    NestedUpdates(handles, flow.blocks);
    var whole := Flow(flow.blocks, true);
    ComposedExtends(handles, whole, whole);
    AsOneReacts(handles, flow.blocks, []);
    if !flow.ok {
      BrokenIsNotFlushed(handles, flow);
      BreakingOff(handles, flow.blocks);
    }
  }

  lemma {:induction false} ComposedConcat(xs: seq<Handle>, ys: seq<Handle>, flow: Flow)
    ensures Composed(xs + ys, flow) == Composed(xs, Composed(ys, flow))
    decreases |ys|
  {
    if ys == [] {
      assert xs + ys == xs;
    } else {
      var n := |ys| - 1;
      assert (xs + ys)[..|xs + ys| - 1] == xs + ys[..n];
      ComposedConcat(xs, ys[..n], Through(ys[n], flow));
    }
  }

  /** A chain inside a chain is the flat chain. */
  lemma NestedIsFlat(xs: seq<Handle>, inner: seq<Handle>, ys: seq<Handle>, flow: Flow)
    ensures Composed(xs + [AsOne(inner)] + ys, flow) == Composed(xs + inner + ys, flow)
  {
    ComposedConcat(xs + [AsOne(inner)], ys, flow);
    ComposedConcat(xs + inner, ys, flow);
    var f := Composed(ys, flow);
    ComposedConcat(xs, [AsOne(inner)], f);
    ComposedConcat(xs, inner, f);
    assert [AsOne(inner)][..0] == [];
    NestedThrough(inner, f);
  }
}
