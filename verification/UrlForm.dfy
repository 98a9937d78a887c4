/** Parameters of a request, and the form body that carries them. */
module UrlForm {
  import opened Basics
  import opened UrlEncode

  datatype Pair = Pair(key: Bytes, value: Bytes)

  type Params = seq<Pair>

  function Field(p: Pair): Bytes {
    Component(p.key) + ['='] + Component(p.value)
  }

  /** The fields with ampersands between them. */
  function Body(params: Params): Bytes {
    if params == [] then []
    else
      var before, last := Body(params[..|params| - 1]), params[|params| - 1];
      (if before == [] then [] else before + ['&']) + Field(last)
  }

  /** Splitting a field at its first equals sign and decoding both sides. */
  function PairOf(field: Bytes): Pair {
    var k := IndexOf(field, '=');
    Pair(Decoded(field[..k]), if k == |field| then [] else Decoded(field[k + 1..]))
  }

  predicate AllBytes(s: string) {
    forall k | 0 <= k < |s| :: s[k] as int < 256
  }

  function PairsOf(fields: seq<string>): Params
    requires forall f | f in fields :: AllBytes(f)
  {
    if fields == [] then []
    else
      var n := |fields| - 1;
      assert AllBytes(fields[n]);
      PairsOf(fields[..n]) + [PairOf(fields[n])]
  }

  lemma {:induction false} PiecesAreBytes(s: string, sep: char)
    requires AllBytes(s)
    ensures forall f | f in Pieces(s, sep) :: AllBytes(f)
    decreases |s|
  {
    var k := IndexOf(s, sep);
    if k < |s| {
      PiecesAreBytes(s[k + 1..], sep);
    }
  }

  /** Reading a body: splitting it at the ampersands and reading each field. */
  function ParamsOf(body: Bytes): Params {
    PiecesAreBytes(body, '&');
    if body == [] then [] else PairsOf(Pieces(body, '&'))
  }

  // ---- Laws ------------------------------------------------------------------------------

  /** Key and value of each parameter are encoded and joined with "=", the fields with "&". */
  lemma BodyIs(params: Params, p: Pair)
    ensures Body([]) == ""
    ensures Body(params + [p]) ==
      (if params == [] then "" else Body(params) + "&") + Component(p.key) + "=" + Component(p.value)
  {
    hide Component;
    assert (params + [p])[..|params|] == params;
    if params != [] {
      var n := |params| - 1;
      assert Field(params[n]) != [];
    }
  }

  lemma PlainComponent(s: Bytes)
    ensures '&' !in Component(s) && '=' !in Component(s)
  {
    if '&' in Component(s) {
      EncodedIsKept(s, IsUnreserved, '&');
    }
    if '=' in Component(s) {
      EncodedIsKept(s, IsUnreserved, '=');
    }
  }

  lemma FieldRoundTrip(p: Pair)
    ensures PairOf(Field(p)) == p && '&' !in Field(p) && Field(p) != []
  {
    hide Component, Decoded, IndexOf;
    PlainComponent(p.key);
    PlainComponent(p.value);
    IndexAfter(Component(p.key), '=', Component(p.value));
    DecodedComponent(p.key);
    DecodedComponent(p.value);
  }

  lemma {:induction false} FieldsOfBody(params: Params)
    requires params != []
    ensures Body(params) != []
    ensures |Pieces(Body(params), '&')| == |params|
    ensures forall k | 0 <= k < |params| :: Pieces(Body(params), '&')[k] == Field(params[k])
    decreases |params|
  {
    hide Field, Pieces;
    var n := |params| - 1;
    FieldRoundTrip(params[n]);
    var before := Body(params[..n]);
    PiecesSnoc(before, '&', Field(params[n]));
    if n > 0 {
      FieldsOfBody(params[..n]);
    } else {
      assert [] + Field(params[n]) == Field(params[n]);
    }
  }

  lemma {:induction false} PairsOfFields(params: Params, fields: seq<string>)
    requires |fields| == |params| && forall k | 0 <= k < |params| :: fields[k] == Field(params[k])
    requires forall f | f in fields :: AllBytes(f)
    ensures PairsOf(fields) == params
    decreases |params|
  {
    hide Field, PairOf;
    if params != [] {
      var n := |params| - 1;
      PairsOfFields(params[..n], fields[..n]);
      FieldRoundTrip(params[n]);
    }
  }

  /** Splitting a form body and decoding its fields recovers every list of parameters: order,
      repeated keys and empty texts included. */
  lemma {:induction false} ParamsOfBody(params: Params)
    ensures ParamsOf(Body(params)) == params
  {
    hide Pieces, Field;
    if params != [] {
      PiecesAreBytes(Body(params), '&');
      FieldsOfBody(params);
      PairsOfFields(params, Pieces(Body(params), '&'));
    }
  }

  method ToUrlencoded(params: Params) returns (body: Bytes)
    ensures body == Body(params)
  {
    hide Component;
    body := [];
    for i := 0 to |params|
      invariant body == Body(params[..i])
    {
      assert params[..i + 1][..i] == params[..i];
      if body != [] {
        body := body + ['&'];
      }
      var key := UrlEncode.UrlEncode(params[i].key);
      var value := UrlEncode.UrlEncode(params[i].value);
      assert body + Field(params[i]) == body + key + ['='] + value;
      body := body + key;
      body := body + ['='];
      body := body + value;
    }
    assert params[..|params|] == params;
  }

  // ---- The parameter list ----------------------------------------------------------------

  /** All values under a key, in order. */
  function Values(params: Params, key: Bytes): seq<Bytes> {
    if params == [] then []
    else (if params[0].key == key then [params[0].value] else []) + Values(params[1..], key)
  }

  function WithSet(params: Params, key: Bytes, value: Bytes): Params {
    if params == [] then [Pair(key, value)]
    else if params[0].key == key then [Pair(key, value)] + params[1..]
    else [params[0]] + WithSet(params[1..], key, value)
  }

  function Without(params: Params, key: Bytes): Params {
    if params == [] then []
    else Without(params[..|params| - 1], key)
         + if params[|params| - 1].key == key then [] else [params[|params| - 1]]
  }

  /** Setting replaces the first value under the key, or adds one; the values under every
      other key stay. */
  lemma {:induction false} SetValues(params: Params, key: Bytes, value: Bytes, other: Bytes)
    ensures Values(WithSet(params, key, value), other) ==
      if other != key then Values(params, other)
      else if Values(params, key) == [] then [value]
      else [value] + Values(params, key)[1..]
    decreases |params|
  {
    if params != [] && params[0].key != key {
      SetValues(params[1..], key, value, other);
      assert WithSet(params, key, value)[1..] == WithSet(params[1..], key, value);
    } else if params != [] {
      assert WithSet(params, key, value)[1..] == params[1..];
      assert ([params[0].value] + Values(params[1..], key))[1..] == Values(params[1..], key);
    }
  }

  lemma {:induction false} ValuesConcat(a: Params, b: Params, key: Bytes)
    ensures Values(a + b, key) == Values(a, key) + Values(b, key)
    decreases |a|
  {
    if a == [] {
      assert a + b == b;
    } else {
      assert (a + b)[1..] == a[1..] + b;
      ValuesConcat(a[1..], b, key);
    }
  }

  /** Removing a key removes all of its values and no other. */
  lemma {:induction false} WithoutValues(params: Params, key: Bytes, other: Bytes)
    ensures Values(Without(params, key), other) == if other == key then [] else Values(params, other)
    decreases |params|
  {
    if params != [] {
      var n := |params| - 1;
      WithoutValues(params[..n], key, other);
      assert params == params[..n] + [params[n]];
      ValuesConcat(params[..n], [params[n]], other);
      ValuesConcat(Without(params[..n], key), [params[n]], other);
      assert Without(params[..n], key) + [] == Without(params[..n], key);
    }
  }

  class UrlParameters {
    var params: Params

    constructor (init: Params)
      ensures params == init
    {
      params := init;
    }

    method FindKey(key: Bytes) returns (k: nat)
      ensures k <= |params| && (k < |params| ==> params[k].key == key)
      ensures forall i | 0 <= i < k :: params[i].key != key
    {
      k := 0;
      while k < |params| && params[k].key != key
        invariant k <= |params| && forall i | 0 <= i < k :: params[i].key != key
      {
        k := k + 1;
      }
    }

    method Set(key: Bytes, value: Bytes)
      modifies this
      ensures params == WithSet(old(params), key, value)
    {
      var k := FindKey(key);
      SetAt(params, k, key, value);
      params := if k < |params| then params[k := Pair(key, value)] else params + [Pair(key, value)];
    }

    method Add(key: Bytes, value: Bytes)
      modifies this
      ensures params == old(params) + [Pair(key, value)]
    {
      params := params + [Pair(key, value)];
    }

    method Remove(key: Bytes) returns (removed: nat)
      modifies this
      ensures params == Without(old(params), key) && removed == |old(params)| - |params|
    {
      var kept: Params := [];
      assert params[..0] == [];
      for i := 0 to |params|
        invariant kept == Without(params[..i], key) && |kept| <= i
      {
        assert params[..i + 1][..i] == params[..i];
        if params[i].key != key {
          kept := kept + [params[i]];
        }
      }
      assert params[..|params|] == params;
      removed := |params| - |kept|;
      params := kept;
    }

    /** The first value under the key. */
    method Get(key: Bytes) returns (value: Option<Bytes>)
      ensures value == if Values(params, key) == [] then None else Some(Values(params, key)[0])
    {
      var k := FindKey(key);
      FirstValue(params, k, key);
      value := if k < |params| then Some(params[k].value) else None;
    }
  }

  lemma {:induction false} SetAt(params: Params, k: nat, key: Bytes, value: Bytes)
    requires k <= |params| && (k < |params| ==> params[k].key == key)
    requires forall i | 0 <= i < k :: params[i].key != key
    ensures WithSet(params, key, value)
         == if k < |params| then params[k := Pair(key, value)] else params + [Pair(key, value)]
    decreases |params|
  {
    if k > 0 {
      var p, rest := Pair(key, value), params[1..];
      SetAt(rest, k - 1, key, value);
      assert params == [params[0]] + rest;
      assert k < |params| ==> params[k := p] == [params[0]] + rest[k - 1 := p];
    }
  }

  lemma {:induction false} FirstValue(params: Params, k: nat, key: Bytes)
    requires k <= |params| && (k < |params| ==> params[k].key == key)
    requires forall i | 0 <= i < k :: params[i].key != key
    ensures if k < |params| then Values(params, key) != [] && Values(params, key)[0] == params[k].value
            else Values(params, key) == []
    decreases |params|
  {
    if k > 0 {
      FirstValue(params[1..], k - 1, key);
    }
  }
}
