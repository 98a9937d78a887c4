/** HTTP headers: an ordered list with case-insensitive names. */
module Headers {
  import opened Basics

  datatype Header = Header(name: string, value: string)

  type Entries = seq<Header>

  /** Two names are the same header when they agree letter by letter up to ASCII case. */
  predicate Same(a: string, b: string) {
    Lowered(a) == Lowered(b)
  }

  predicate Has(h: Entries, name: string) {
    exists k | 0 <= k < |h| :: Same(h[k].name, name)
  }

  function GetAll(h: Entries, name: string): (values: seq<string>)
  {
    if h == [] then []
    else
      var last := h[|h| - 1];
      GetAll(h[..|h| - 1], name) + if Same(last.name, name) then [last.value] else []
  }

  function Without(h: Entries, name: string): Entries {
    if h == [] then []
    else
      var last := h[|h| - 1];
      Without(h[..|h| - 1], name) + if Same(last.name, name) then [] else [last]
  }

  /** The entries of `other` whose names `h` lacks, in order. */
  function Missing(h: Entries, other: Entries): Entries {
    if other == [] then []
    else
      var last := other[|other| - 1];
      Missing(h, other[..|other| - 1]) + if Has(h, last.name) then [] else [last]
  }

  function Merged(h: Entries, other: Entries): Entries {
    h + Missing(h, other)
  }

  // ---- Laws ------------------------------------------------------------------------------

  /** Names that differ at most in the case of ASCII letters are one header. */
  lemma SameIsUpToCase(a: string, b: string)
    ensures Same(a, b) <==> SameLetters(a, b)
  {
    hide SameLetters;
    LoweredIsSame(a, b);
  }

  lemma {:induction false} GetAllConcat(a: Entries, b: Entries, name: string)
    ensures GetAll(a + b, name) == GetAll(a, name) + GetAll(b, name)
    decreases |b|
  {
    if b == [] {
      assert a + b == a;
    } else {
      var n := |b| - 1;
      assert (a + b)[..|a + b| - 1] == a + b[..n];
      GetAllConcat(a, b[..n], name);
    }
  }

  lemma {:induction false} NoneWithout(h: Entries, name: string)
    ensures GetAll(h, name) != [] <==> Has(h, name)
    decreases |h|
  {
    if h != [] {
      var n := |h| - 1;
      NoneWithout(h[..n], name);
      if Has(h[..n], name) {
        var k :| 0 <= k < n && Same(h[..n][k].name, name);
        assert Same(h[k].name, name);
      }
      if Has(h, name) && !Same(h[n].name, name) {
        var k :| 0 <= k < |h| && Same(h[k].name, name);
        assert Same(h[..n][k].name, name);
      }
    }
  }

  lemma {:induction false} GetAllMissing(h: Entries, other: Entries, name: string)
    ensures GetAll(Missing(h, other), name) == if Has(h, name) then [] else GetAll(other, name)
    decreases |other|
  {
    if other != [] {
      var n := |other| - 1;
      var last, before := other[n], Missing(h, other[..n]);
      GetAllMissing(h, other[..n], name);
      GetAllConcat(before, [last], name);
      assert [last][..0] == [];
      assert GetAll([last], name) == if Same(last.name, name) then [last.value] else [];
      assert before + [] == before;
      if Same(last.name, name) {
        assert Has(h, last.name) == Has(h, name) by { SameHas(h, last.name, name); }
      }
    }
  }

  lemma SameHas(h: Entries, a: string, b: string)
    requires Same(a, b)
    ensures Has(h, a) == Has(h, b)
  {
    if Has(h, a) {
      var k :| 0 <= k < |h| && Same(h[k].name, a);
      assert Same(h[k].name, b);
    }
    if Has(h, b) {
      var k :| 0 <= k < |h| && Same(h[k].name, b);
      assert Same(h[k].name, a);
    }
  }

  /** Merging keeps all values of every name that is set, and takes all values of the rest. */
  lemma MergedValues(h: Entries, other: Entries, name: string)
    ensures GetAll(Merged(h, other), name) == if Has(h, name) then GetAll(h, name) else GetAll(other, name)
    ensures Has(Merged(h, other), name) <==> Has(h, name) || Has(other, name)
  {
    GetAllMissing(h, other, name);
    GetAllConcat(h, Missing(h, other), name);
    NoneWithout(h, name);
    NoneWithout(other, name);
    NoneWithout(Merged(h, other), name);
    hide GetAll;
    assert GetAll(h, name) + [] == GetAll(h, name);
    assert GetAll(h, name) == [] ==> [] + GetAll(other, name) == GetAll(other, name);
  }

  lemma {:induction false} MissingConcat(h: Entries, a: Entries, b: Entries)
    ensures Missing(h, a + b) == Missing(h, a) + Missing(h, b)
    decreases |b|
  {
    if b == [] {
      assert a + b == a;
    } else {
      var n := |b| - 1;
      assert (a + b)[..|a + b| - 1] == a + b[..n];
      MissingConcat(h, a, b[..n]);
    }
  }

  /** What a merge lacks is what the other lacks of what the first lacks. */
  lemma {:induction false} MissingFromMerged(a: Entries, b: Entries, c: Entries)
    ensures Missing(Merged(a, b), c) == Missing(a, Missing(b, c))
    decreases |c|
  {
    if c != [] {
      var n := |c| - 1;
      var last, inner := c[n], Missing(b, c[..n]);
      MissingFromMerged(a, b, c[..n]);
      MergedValues(a, b, last.name);
      MissingConcat(a, inner, [last]);
      assert [last][..0] == [];
      assert Missing(a, [last]) == if Has(a, last.name) then [] else [last];
      hide Has, Missing, Merged;
      assert inner + [] == inner;
      assert Missing(a, inner) + [] == Missing(a, inner);
    }
  }

  lemma MergeIsAssociative(a: Entries, b: Entries, c: Entries)
    ensures Merged(Merged(a, b), c) == Merged(a, Merged(b, c))
  {
    MissingFromMerged(a, b, c);
    MissingConcat(a, b, Missing(b, c));
  }

  lemma {:induction false} NothingMissing(h: Entries, part: Entries)
    requires forall e | e in part :: Has(h, e.name)
    ensures Missing(h, part) == []
    decreases |part|
  {
    if part != [] {
      assert part[|part| - 1] in part;
      NothingMissing(h, part[..|part| - 1]);
    }
  }

  lemma MergeIsIdempotent(h: Entries, other: Entries)
    ensures Merged(h, h) == h
    ensures Merged(Merged(h, other), other) == Merged(h, other)
  {
    forall e | e in h ensures Has(h, e.name) {
      var k :| 0 <= k < |h| && h[k] == e;
      assert Same(h[k].name, e.name);
    }
    NothingMissing(h, h);
    forall e | e in other ensures Has(Merged(h, other), e.name) {
      var k :| 0 <= k < |other| && other[k] == e;
      assert Same(other[k].name, e.name);
      MergedValues(h, other, e.name);
    }
    NothingMissing(Merged(h, other), other);
  }

  /** Erasing removes every value of one name and no other. */
  lemma {:induction false} WithoutValues(h: Entries, gone: string, name: string)
    ensures GetAll(Without(h, gone), name) == if Same(gone, name) then [] else GetAll(h, name)
    decreases |h|
  {
    if h != [] {
      var n := |h| - 1;
      var last, before := h[n], Without(h[..n], gone);
      WithoutValues(h[..n], gone, name);
      GetAllConcat(before, [last], name);
      assert [last][..0] == [];
      assert GetAll([last], name) == if Same(last.name, name) then [last.value] else [];
      hide GetAll, Without;
      assert before + [] == before;
      assert GetAll(h[..n], name) + [] == GetAll(h[..n], name);
    }
  }

  lemma {:induction false} WithoutConcat(a: Entries, b: Entries, gone: string)
    ensures Without(a + b, gone) == Without(a, gone) + Without(b, gone)
    decreases |b|
  {
    if b == [] {
      assert a + b == a;
    } else {
      var n := |b| - 1;
      assert (a + b)[..|a + b| - 1] == a + b[..n];
      WithoutConcat(a, b[..n], gone);
    }
  }

  /** Merging and erasing go entry by entry, in order: what is kept is that entry, unchanged,
      and it depends on the letters of its name only, their case aside. */
  lemma EntryByEntry(h: Entries, a: Entries, e: Header, b: Entries, gone: string)
    ensures var present := exists k | 0 <= k < |h| :: SameLetters(h[k].name, e.name);
      Missing(h, a + [e] + b) == Missing(h, a) + (if present then [] else [e]) + Missing(h, b)
    ensures Without(a + [e] + b, gone) == Without(a, gone) + (if SameLetters(e.name, gone) then [] else [e]) + Without(b, gone)
  {
    hide SameLetters;
    MissingConcat(h, a + [e], b);
    MissingConcat(h, a, [e]);
    WithoutConcat(a + [e], b, gone);
    WithoutConcat(a, [e], gone);
    forall name, other ensures Same(name, other) <==> SameLetters(name, other) {
      SameIsUpToCase(name, other);
    }
    hide Same;
    assert [e][..0] == [];
    assert Missing(h, [e]) == if Has(h, e.name) then [] else [e];
    assert Without([e], gone) == if Same(e.name, gone) then [] else [e];
  }

  // ---- The class -------------------------------------------------------------------------

  class HeaderList {
    var entries: Entries

    constructor ()
      ensures entries == []
    {
      entries := [];
    }

    method Append(name: string, value: string)
      modifies this
      ensures entries == old(entries) + [Header(name, value)]
    {
      entries := entries + [Header(name, value)];
    }

    method Erase(name: string) returns (count: nat)
      modifies this
      ensures entries == Without(old(entries), name)
      ensures count == |GetAll(old(entries), name)|
    {
      ErasedCount(entries, name);
      var before := |entries|;
      entries := Without(entries, name);
      count := before - |entries|;
    }

    /** Afterwards the name has exactly this one value, at the end. */
    method Set(name: string, value: string)
      modifies this
      ensures entries == Without(old(entries), name) + [Header(name, value)]
      ensures GetAll(entries, name) == [value]
      ensures forall other :: !Same(name, other) ==> GetAll(entries, other) == GetAll(old(entries), other)
    {
      var _ := Erase(name);
      Append(name, value);
      forall other ensures GetAll(entries, other) == if Same(name, other) then [value] else GetAll(old(entries), other) {
        WithoutValues(old(entries), name, other);
        GetAllConcat(Without(old(entries), name), [Header(name, value)], other);
        assert [Header(name, value)][..0] == [];
        assert GetAll([Header(name, value)], other) == if Same(name, other) then [value] else [];
        assert GetAll(old(entries), other) + [] == GetAll(old(entries), other);
      }
    }

    /** Adds the other's headers whose names were not set before the merge began. */
    method MergeMissing(other: Entries)
      modifies this
      ensures entries == Merged(old(entries), other)
    {
      var original := |entries|;
      ghost var mine := entries;
      assert other[..0] == [] && mine + [] == mine;
      for i := 0 to |other|
        invariant entries == mine + Missing(mine, other[..i])
      {
        assert other[..i + 1][..i] == other[..i];
        var present := false;
        var k := 0;
        while k < original && !present
          invariant k <= original
          invariant present <==> exists j | 0 <= j < k :: Same(mine[j].name, other[i].name)
        {
          assert entries[k] == mine[k];
          present := Same(entries[k].name, other[i].name);
          k := k + 1;
        }
        if !present {
          Append(other[i].name, other[i].value);
        }
      }
      assert other[..|other|] == other;
    }
  }

  lemma {:induction false} ErasedCount(h: Entries, name: string)
    ensures |Without(h, name)| + |GetAll(h, name)| == |h|
    decreases |h|
  {
    if h != [] {
      ErasedCount(h[..|h| - 1], name);
    }
  }
}
