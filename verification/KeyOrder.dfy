/** Keys in the order an ordered map visits them. */
module KeyOrder {
  predicate Less(a: string, b: string) {
    if a == "" || b == "" then a == "" && b != ""
    else if a[0] == b[0] then Less(a[1..], b[1..])
    else a[0] < b[0]
  }

  /** They agree on the first k characters, and then the first text ends or has the smaller one. */
  predicate PartsAt(a: string, b: string, k: nat) {
    k <= |a| && k < |b| && (forall i | 0 <= i < k :: a[i] == b[i]) && (k == |a| || a[k] < b[k])
  }

  /** Keys are compared like words. */
  lemma {:induction false} LessIs(a: string, b: string)
    ensures Less(a, b) <==> exists k: nat :: PartsAt(a, b, k)
    decreases |a|
  {
    if a == "" || b == "" || a[0] != b[0] {
      assert PartsAt(a, b, 0) <==> Less(a, b);
    } else {
      LessIs(a[1..], b[1..]);
      assert a == [a[0]] + a[1..] && b == [b[0]] + b[1..];
      forall k: nat ensures PartsAt(a[1..], b[1..], k) <==> PartsAt(a, b, k + 1) {
      }
      forall k: nat | PartsAt(a, b, k) ensures k > 0 && PartsAt(a[1..], b[1..], k - 1) {
        assert PartsAt(a, b, (k - 1) + 1);
      }
    }
  }

  lemma {:induction false} LessIsTotal(a: string, b: string)
    ensures a == b || Less(a, b) || Less(b, a)
    decreases |a|
  {
    if a != "" && b != "" && a[0] == b[0] {
      LessIsTotal(a[1..], b[1..]);
      assert a == [a[0]] + a[1..] && b == [b[0]] + b[1..];
    }
  }

  lemma {:induction false} LessIsTransitive(a: string, b: string, c: string)
    requires Less(a, b) && Less(b, c)
    ensures Less(a, c)
    decreases |a|
  {
    if a != "" && a[0] == b[0] && b[0] == c[0] {
      LessIsTransitive(a[1..], b[1..], c[1..]);
    }
  }

  lemma {:induction false} LessIsIrreflexive(a: string)
    ensures !Less(a, a)
    decreases |a|
  {
    if a != "" {
      LessIsIrreflexive(a[1..]);
    }
  }

  predicate IsFirst(k: string, keys: set<string>) {
    k in keys && forall j | j in keys :: j == k || Less(k, j)
  }

  lemma {:induction false} FirstExists(keys: set<string>)
    requires keys != {}
    ensures exists k :: IsFirst(k, keys)
    decreases |keys|
  {
    var a :| a in keys;
    var rest := keys - {a};
    if rest == {} {
      assert forall j | j in keys :: j == a || j in rest;
      assert IsFirst(a, keys);
    } else {
      FirstExists(rest);
      var b :| IsFirst(b, rest);
      LessIsTotal(a, b);
      if Less(b, a) {
        assert IsFirst(b, keys);
      } else {
        forall j | j in keys ensures j == a || Less(a, j) {
          if j != a && j != b {
            LessIsTransitive(a, b, j);
          }
        }
        assert IsFirst(a, keys);
      }
    }
  }

  ghost function First(keys: set<string>): (k: string)
    requires keys != {}
    ensures IsFirst(k, keys)
  {
    FirstExists(keys);
    var k :| IsFirst(k, keys);
    k
  }

  ghost function InOrder(keys: set<string>): (order: seq<string>)
    ensures forall k :: k in order <==> k in keys
    ensures forall i, j | 0 <= i < j < |order| :: Less(order[i], order[j])
  {
    if keys == {} then []
    else
      var k := First(keys);
      [k] + InOrder(keys - {k})
  }

  function KeysIn(order: seq<string>): set<string> {
    set k | k in order
  }

  /** Visiting keys in order is taking the first of those that remain. */
  lemma FirstIsNext(keys: set<string>, i: nat, first: string)
    requires i < |InOrder(keys)|
    requires IsFirst(first, KeysIn(InOrder(keys)[i..]))
    ensures first == InOrder(keys)[i]
    ensures KeysIn(InOrder(keys)[i..]) - {first} == KeysIn(InOrder(keys)[i + 1..])
  {
    var order := InOrder(keys);
    hide InOrder;
    var next := order[i];
    assert order[i..] == [next] + order[i + 1..];
    if first != next {
      assert Less(first, next);
      var j :| i < j < |order| && order[j] == first;
      LessIsTransitive(next, first, next);
      LessIsIrreflexive(next);
    }
    forall j | i < j < |order| ensures order[j] != next {
      LessIsIrreflexive(next);
    }
  }
}
