/** DOM nodes on the heap, the trees they form, and the two pre-order iterators. */
module Dom {
  import opened Basics

  datatype Kind = Element(tag: string, attrs: seq<(string, string)>) | Text(content: string) | Misc

  class Node {
    const kind: Kind
    var parent: Node?
    var next: Node?
    var first: Node?

    constructor (kind: Kind)
      ensures this.kind == kind && parent == null && next == null && first == null
    {
      this.kind := kind;
      parent, next, first := null, null, null;
    }
  }

  // ---- Trees and their pre-order ---------------------------------------------------------

  datatype Tree = Tree(node: Node, kids: seq<Tree>)

  ghost function Pre(t: Tree): seq<Node>
    decreases t, 1
  {
    [t.node] + PreAll(t.kids)
  }

  ghost function PreAll(ts: seq<Tree>): seq<Node>
    decreases ts, 0
  {
    if ts == [] then [] else Pre(ts[0]) + PreAll(ts[1..])
  }

  ghost function NodesOf(t: Tree): (ns: set<Node>)
    ensures t.node in ns
    decreases t, 1
  {
    {t.node} + NodesOfAll(t.kids)
  }

  ghost function NodesOfAll(ts: seq<Tree>): (ns: set<Node>)
    ensures ts != [] ==> ts[0].node in ns
    decreases ts, 0
  {
    if ts == [] then {} else NodesOf(ts[0]) + NodesOfAll(ts[1..])
  }

  ghost function Head(ts: seq<Tree>): Node? {
    if ts == [] then null else ts[0].node
  }

  /** The heap's links spell out these siblings under this parent, and all below them. */
  ghost predicate Siblings(parent: Node, ts: seq<Tree>)
    reads NodesOfAll(ts)
    decreases ts, 0
  {
    ts != [] ==>
      && ts[0].node.parent == parent
      && ts[0].node.next == Head(ts[1..])
      && Rooted(ts[0])
      && Siblings(parent, ts[1..])
  }

  /** The heap's links spell out the tree below its root; the root's own parent and next
      sibling are left open. */
  ghost predicate Rooted(t: Tree)
    reads NodesOf(t)
    decreases t, 1
  {
    t.node.first == Head(t.kids) && Siblings(t.node, t.kids)
  }

  predicate IsElement(n: Node) {
    n.kind.Element?
  }

  function Elements(ns: seq<Node>): (es: seq<Node>)
    ensures forall e | e in es :: IsElement(e)
  {
    if ns == [] then [] else (if IsElement(ns[0]) then [ns[0]] else []) + Elements(ns[1..])
  }

  lemma {:induction false} ElementsConcat(a: seq<Node>, b: seq<Node>)
    ensures Elements(a + b) == Elements(a) + Elements(b)
    decreases |a|
  {
    if a == [] {
      assert a + b == b;
    } else {
      assert (a + b)[1..] == a[1..] + b;
      ElementsConcat(a[1..], b);
    }
  }

  // ---- Where a walk stands ---------------------------------------------------------------

  /** One level above the walk: the parent, and its children after the one being visited. */
  datatype Frame = Frame(parent: Node, after: seq<Tree>)

  /** What is left above: the later siblings of each level, innermost first. */
  ghost function After(up: seq<Frame>): seq<Node> {
    if up == [] then []
    else PreAll(up[|up| - 1].after) + After(up[..|up| - 1])
  }

  /** The nodes a walk relies on: those ahead of it and the parents above it. */
  ghost function Above(up: seq<Frame>): set<Node> {
    if up == [] then {}
    else
      var f := up[|up| - 1];
      {f.parent} + NodesOfAll(f.after) + Above(up[..|up| - 1])
  }

  /** The node hangs below the root through these levels. */
  ghost predicate Hangs(node: Node, up: seq<Frame>, root: Node)
    reads {node} + Above(up)
    decreases |up|
  {
    if up == [] then node == root
    else
      var f := up[|up| - 1];
      && node != root
      && node.parent == f.parent && node.next == Head(f.after)
      && Siblings(f.parent, f.after)
      && Hangs(f.parent, up[..|up| - 1], root)
  }

  ghost predicate Stands(at: Tree, up: seq<Frame>, root: Node)
    reads NodesOf(at), Above(up)
  {
    Rooted(at) && Hangs(at.node, up, root) && root !in PreAll(at.kids) && root !in After(up)
  }

  /** Everything the walk has yet to visit after the current node. */
  ghost function Ahead(at: Tree, up: seq<Frame>): seq<Node> {
    PreAll(at.kids) + After(up)
  }

  lemma PushFrame(up: seq<Frame>, f: Frame)
    ensures After(up + [f]) == PreAll(f.after) + After(up)
    ensures Above(up + [f]) == {f.parent} + NodesOfAll(f.after) + Above(up)
  {
    assert (up + [f])[..|up|] == up;
  }

  lemma {:induction false} PreSplits(ts: seq<Tree>, n: Node)
    requires ts != []
    ensures PreAll(ts) == [ts[0].node] + (PreAll(ts[0].kids) + PreAll(ts[1..]))
    ensures n !in PreAll(ts) <==> n != ts[0].node && n !in PreAll(ts[0].kids) && n !in PreAll(ts[1..])
  {
    SubsetOfConcat(PreAll(ts[0].kids), PreAll(ts[1..]), n);
    SubsetOfConcat([ts[0].node], PreAll(ts[0].kids) + PreAll(ts[1..]), n);
    Associate([ts[0].node], PreAll(ts[0].kids), PreAll(ts[1..]));
  }

  lemma Associate(a: seq<Node>, b: seq<Node>, c: seq<Node>)
    ensures (a + b) + c == a + (b + c)
  {
  }

  lemma SiblingsSplit(parent: Node, ts: seq<Tree>)
    requires Siblings(parent, ts) && ts != []
    ensures ts[0].node.parent == parent && ts[0].node.next == Head(ts[1..])
    ensures Rooted(ts[0]) && Siblings(parent, ts[1..])
  {
  }

  /** A level below which the walk stands. */
  lemma HangsBelow(node: Node, f: Frame, up: seq<Frame>, root: Node)
    requires node != root && node.parent == f.parent && node.next == Head(f.after)
    requires Siblings(f.parent, f.after) && Hangs(f.parent, up, root)
    ensures Hangs(node, up + [f], root)
  {
    assert (up + [f])[..|up|] == up;
  }

  /** Down to the first child. */
  lemma Down(at: Tree, up: seq<Frame>, root: Node)
    requires Stands(at, up, root) && at.node.first != null
    ensures at.kids != [] && at.node.first == at.kids[0].node
    ensures var to, levels := at.kids[0], up + [Frame(at.node, at.kids[1..])];
      && Stands(to, levels, root) && Ahead(at, up) == [to.node] + Ahead(to, levels)
      && NodesOf(to) + Above(levels) <= NodesOf(at) + Above(up)
  {
    assert Rooted(at);
    SiblingsSplit(at.node, at.kids);
    PushFrame(up, Frame(at.node, at.kids[1..]));
    assert NodesOf(at) == {at.node} + (NodesOf(at.kids[0]) + NodesOfAll(at.kids[1..]));
    hide Siblings, PreAll, After, Above, NodesOf, NodesOfAll;
    var to, f := at.kids[0], Frame(at.node, at.kids[1..]);
    PreSplits(at.kids, root);
    HangsBelow(to.node, f, up, root);
    SubsetOfConcat(PreAll(f.after), After(up), root);
    Associate([to.node], PreAll(to.kids) + PreAll(f.after), After(up));
    Associate(PreAll(to.kids), PreAll(f.after), After(up));
  }

  lemma SubsetOfConcat(a: seq<Node>, b: seq<Node>, n: Node)
    ensures n !in a + b <==> n !in a && n !in b
  {
  }

  /** Up from a last child. */
  lemma Up(node: Node, up: seq<Frame>, root: Node)
    requires Hangs(node, up, root) && node != root && node.next == null && root !in After(up)
    ensures up != [] && node.parent == up[|up| - 1].parent
    ensures Hangs(up[|up| - 1].parent, up[..|up| - 1], root)
    ensures After(up) == After(up[..|up| - 1])
    ensures {up[|up| - 1].parent} + Above(up[..|up| - 1]) <= Above(up)
  {
    var f := up[|up| - 1];
    assert f.after == [];
    assert PreAll([]) == [];
  }

  /** On to the next sibling. */
  lemma {:induction false} Across(node: Node, up: seq<Frame>, root: Node)
    requires Hangs(node, up, root) && node != root && node.next != null && root !in After(up)
    ensures up != [] && up[|up| - 1].after != []
    ensures var f := up[|up| - 1];
      var to, levels := f.after[0], up[..|up| - 1] + [Frame(f.parent, f.after[1..])];
      && node.next == to.node && Stands(to, levels, root) && After(up) == [to.node] + Ahead(to, levels)
      && NodesOf(to) + Above(levels) <= Above(up)
  {
    var f, below := up[|up| - 1], up[..|up| - 1];
    assert Above(up) == {f.parent} + (NodesOf(f.after[0]) + NodesOfAll(f.after[1..])) + Above(below);
    PushFrame(below, Frame(f.parent, f.after[1..]));
    assert Siblings(f.parent, f.after) && Hangs(f.parent, below, root);
    assert After(up) == PreAll(f.after) + After(below);
    SiblingsSplit(f.parent, f.after);
    hide Siblings, PreAll, After, Above, Hangs, NodesOf, NodesOfAll;
    var to, g := f.after[0], Frame(f.parent, f.after[1..]);
    SubsetOfConcat(PreAll(f.after), After(below), root);
    PreSplits(f.after, root);
    HangsBelow(to.node, g, below, root);
    SubsetOfConcat(PreAll(g.after), After(below), root);
    Associate([to.node], PreAll(to.kids) + PreAll(g.after), After(below));
    Associate(PreAll(to.kids), PreAll(g.after), After(below));
  }

  // ---- The iterators ---------------------------------------------------------------------

  /** A root whose subtree the heap spells out, and which does not occur below itself. */
  ghost predicate Walkable(root: Node?, t: Tree, reach: set<Node>)
    reads reach
  {
    root != null ==> NodesOf(t) <= reach && t.node == root && Rooted(t) && root !in PreAll(t.kids)
  }

  /** What a walk from the root is to visit: all below it in pre-order. */
  ghost function Below(root: Node?, t: Tree): seq<Node> {
    if root == null then [] else PreAll(t.kids)
  }

  lemma Start(t: Tree)
    requires Rooted(t) && t.node !in PreAll(t.kids)
    ensures Stands(t, [], t.node) && Ahead(t, []) == PreAll(t.kids)
    ensures t.node.first == null ==> PreAll(t.kids) == []
  {
  }

  lemma NothingBelow(at: Tree, up: seq<Frame>, root: Node)
    requires Stands(at, up, root) && at.node.first == null
    ensures Ahead(at, up) == After(up)
  {
    assert at.kids == [];
  }

  lemma RootIsTop(up: seq<Frame>, root: Node)
    requires Hangs(root, up, root)
    ensures up == [] && After(up) == []
  {
  }

  /** The iterator over all nodes below a root. */
  class NodeWalk {
    const root: Node?
    var node: Node?
    ghost var at: Tree
    ghost var up: seq<Frame>
    ghost const reach: set<Node>

    ghost predicate Valid()
      reads this, reach
    {
      node != null ==> root != null && node == at.node && NodesOf(at) + Above(up) <= reach && Stands(at, up, root)
    }

    /** The current node and all still to come; empty at the end. */
    ghost function Left(): seq<Node>
      reads this
    {
      if node == null then [] else [node] + Ahead(at, up)
    }

    constructor (root: Node?, ghost t: Tree, ghost reach: set<Node>)
      requires Walkable(root, t, reach)
      ensures Valid() && this.root == root && Left() == Below(root, t)
    {
      this.root := root;
      this.reach := reach;
      node := if root != null then root.first else null;
      at := if t.kids == [] then t else t.kids[0];
      up := if t.kids == [] then [] else [Frame(t.node, t.kids[1..])];
      new;
      if root != null {
        assert Rooted(t);
        Start(t);
        if node != null {
          Down(t, [], root);
          assert [] + [Frame(t.node, t.kids[1..])] == up;
        }
      }
    }

    /** DOMNodeWalkIterator::next. */
    method Next()
      requires Valid() && node != null
      modifies this
      ensures Valid() && Left() == old(Left())[1..]
    {
      hide Stands, Above, After, Hangs, NodesOf, PreAll;
      if node.first != null {
        Down(at, up, root);
        ghost var to, deeper := at.kids[0], up + [Frame(at.node, at.kids[1..])];
        node, at, up := node.first, to, deeper;
        return;
      }
      NothingBelow(at, up, root);
      OffRoot(at, up, root);
      var n: Node?, levels := Climb(node, up, root);
      if n == root {
        RootIsTop(levels, root);
        n := null;
      }
      if n != null && n.next != null {
        Across(n, levels, root);
        ghost var f := levels[|levels| - 1];
        ghost var to, beside := f.after[0], levels[..|levels| - 1] + [Frame(f.parent, f.after[1..])];
        node, at, up := n.next, to, beside;
      } else {
        node := n;
      }
    }
  }

  /** Up past last children, as far as the root. */
  method Climb(node: Node, ghost up: seq<Frame>, root: Node) returns (n: Node, ghost levels: seq<Frame>)
    requires Hangs(node, up, root) && root !in After(up)
    ensures Hangs(n, levels, root) && root !in After(levels) && After(levels) == After(up)
    ensures n == root || n.next != null
    ensures Above(levels) <= Above(up)
  {
    n, levels := node, up;
    while n.next == null && n != root
      invariant Above(levels) <= Above(up)
      invariant Hangs(n, levels, root) && root !in After(levels) && After(levels) == After(up)
      decreases |levels|
    {
      Up(n, levels, root);
      n := n.parent;
      levels := levels[..|levels| - 1];
    }
  }

  lemma OffRoot(at: Tree, up: seq<Frame>, root: Node)
    requires Stands(at, up, root)
    ensures Hangs(at.node, up, root) && root !in After(up)
  {
  }

  /** The iterator over the elements below a root. */
  class ElementWalk {
    const root: Node?
    var node: Node?
    ghost var at: Tree
    ghost var up: seq<Frame>
    ghost const reach: set<Node>

    ghost predicate Placed()
      reads this, reach
    {
      node != null ==>
        root != null && node == at.node && up != [] && NodesOf(at) + Above(up) <= reach && Stands(at, up, root)
    }

    ghost predicate Valid()
      reads this, reach
    {
      Placed() && (node != null ==> IsElement(node))
    }

    /** The current node and all still to come; empty at the end. */
    ghost function Left(): seq<Node>
      reads this
    {
      if node == null then [] else [node] + Ahead(at, up)
    }

    constructor (root: Node?, ghost t: Tree, ghost reach: set<Node>)
      requires Walkable(root, t, reach)
      ensures Valid() && this.root == root && Elements(Left()) == Elements(Below(root, t))
    {
      this.root := root;
      this.reach := reach;
      node := if root != null then root.first else null;
      at := if t.kids == [] then t else t.kids[0];
      up := if t.kids == [] then [] else [Frame(t.node, t.kids[1..])];
      new;
      if root != null {
        assert Rooted(t);
        Start(t);
        if node != null {
          Down(t, [], root);
          assert [] + [Frame(t.node, t.kids[1..])] == up;
        }
      }
      WalkUntilElement();
    }

    /** DOMElementWalkIterator::next. */
    method Next()
      requires Placed() && node != null
      modifies this
      ensures Placed() && Left() == old(Left())[1..]
    {
      hide Stands, Above, After, Hangs, NodesOf, PreAll;
      var n: Node?;
      ghost var to, levels := at, up;
      if node.first != null {
        Down(at, up, root);
        to, levels := at.kids[0], up + [Frame(at.node, at.kids[1..])];
        n := node.first;
        OffRoot(to, levels, root);
        NotRoot(n, levels, root);
      } else {
        NothingBelow(at, up, root);
        OffRoot(at, up, root);
        n, levels := Climb(node, up, root);
        if n != root {
          Across(n, levels, root);
          ghost var f := levels[|levels| - 1];
          to, levels := f.after[0], levels[..|levels| - 1] + [Frame(f.parent, f.after[1..])];
          n := n.next;
          OffRoot(to, levels, root);
          NotRoot(n, levels, root);
        } else {
          RootIsTop(levels, root);
        }
      }
      if n == root {
        node := null;
      } else {
        node, at, up := n, to, levels;
      }
    }

    method WalkUntilElement()
      requires Placed()
      modifies this
      ensures Valid() && Elements(Left()) == Elements(old(Left()))
    {
      while node != null && node != root && !IsElement(node)
        invariant Placed() && Elements(Left()) == Elements(old(Left()))
        decreases |Left()|
      {
        Next();
      }
      if node != null {
        OffRoot(at, up, root);
        NotRoot(node, up, root);
      }
    }

    /** operator++. */
    method Increment()
      requires Valid()
      modifies this
      ensures Valid()
      ensures if old(node) == null then node == null
              else Elements(old(Left())) == [old(node)] + Elements(Left())
    {
      if node == null {
        return;
      }
      Next();
      while node != null && !IsElement(node)
        invariant Placed() && Elements(Left()) == Elements(old(Left())[1..])
        decreases |Left()|
      {
        Next();
      }
    }
  }

  lemma NotRoot(n: Node, up: seq<Frame>, root: Node)
    requires up != [] && Hangs(n, up, root)
    ensures n != root
  {
  }

  // ---- Searches --------------------------------------------------------------------------

  function Matching(es: seq<Node>, accepts: Node -> bool): seq<Node> {
    if es == [] then []
    else (if accepts(es[0]) then [es[0]] else []) + Matching(es[1..], accepts)
  }

  lemma NothingMatches(accepts: Node -> bool)
    ensures Elements([]) == [] && Matching([], accepts) == []
  {
  }

  lemma MatchingStep(e: Node, rest: seq<Node>, accepts: Node -> bool)
    ensures Matching([e] + rest, accepts) == (if accepts(e) then [e] else []) + Matching(rest, accepts)
  {
    assert ([e] + rest)[1..] == rest;
  }

  lemma Collected(out: seq<Node>, e: Node, rest: seq<Node>, accepts: Node -> bool)
    ensures out + Matching([e] + rest, accepts) == (if accepts(e) then out + [e] else out) + Matching(rest, accepts)
  {
    hide Matching;
    MatchingStep(e, rest, accepts);
  }

  lemma FirstMatches(e: Node, rest: seq<Node>, accepts: Node -> bool)
    requires IsElement(e) && accepts(e)
    ensures var all := Matching(Elements([e] + rest), accepts); all != [] && all[0] == e
  {
    assert ([e] + rest)[1..] == rest;
  }

  /** collect_matching: every accepted element below the root, in document order. */
  method CollectMatching(root: Node?, accepts: Node -> bool, ghost t: Tree, ghost reach: set<Node>) returns (out: seq<Node>)
    requires Walkable(root, t, reach)
    ensures out == Matching(Elements(Below(root, t)), accepts)
  {
    hide Stands, After, PreAll, Below, Elements, Matching;
    NothingMatches(accepts);
    var iter := new ElementWalk(root, t, reach);
    out := [];
    ghost var goal := Matching(Elements(Below(root, t)), accepts);
    while iter.node != null
      invariant fresh(iter) && iter.Valid()
      invariant out + Matching(Elements(iter.Left()), accepts) == goal
      decreases |Elements(iter.Left())|
    {
      var e: Node := iter.node;
      iter.Increment();
      Collected(out, e, Elements(iter.Left()), accepts);
      if accepts(e) {
        out := out + [e];
      }
    }
  }

  /** find: the first element that find_all would list, and nothing when it lists none. */
  method FindElement(root: Node?, accepts: Node -> bool, ghost t: Tree, ghost reach: set<Node>) returns (found: Option<Node>)
    requires Walkable(root, t, reach)
    ensures var all := Matching(Elements(Below(root, t)), accepts);
      found == if all == [] then None else Some(all[0])
  {
    hide Stands, After, PreAll, Below, Elements, Matching;
    NothingMatches(accepts);
    var iter := new ElementWalk(root, t, reach);
    ghost var goal := Matching(Elements(Below(root, t)), accepts);
    while iter.node != null && !accepts(iter.node)
      invariant fresh(iter) && iter.Valid()
      invariant Matching(Elements(iter.Left()), accepts) == goal
      decreases |Elements(iter.Left())|
    {
      ghost var e := iter.node;
      iter.Increment();
      MatchingStep(e, Elements(iter.Left()), accepts);
    }
    found := if iter.node == null then None else Some(iter.node);
    if iter.node != null {
      FirstMatches(iter.node, Ahead(iter.at, iter.up), accepts);
    }
  }

  // ---- Each node once --------------------------------------------------------------------

  /** The links determine the tree below a node and the siblings behind it. */
  lemma {:induction false} LinksDetermineSiblings(p: Node, q: Node, a: seq<Tree>, b: seq<Tree>)
    requires Siblings(p, a) && Siblings(q, b) && Head(a) == Head(b)
    ensures a == b
    decreases a, 0
  {
    if a != [] {
      LinksDetermineTree(a[0], b[0]);
      LinksDetermineSiblings(p, q, a[1..], b[1..]);
      assert a == [a[0]] + a[1..] && b == [b[0]] + b[1..];
    }
  }

  lemma {:induction false} LinksDetermineTree(s: Tree, t: Tree)
    requires Rooted(s) && Rooted(t) && s.node == t.node
    ensures s == t
    decreases s, 1
  {
    LinksDetermineSiblings(s.node, t.node, s.kids, t.kids);
  }

  lemma {:induction false} LinksDetermineLevels(node: Node, u: seq<Frame>, v: seq<Frame>, root: Node)
    requires Hangs(node, u, root) && Hangs(node, v, root)
    ensures u == v
    decreases |u|
  {
    if u != [] {
      var m, n := |u| - 1, |v| - 1;
      LinksDetermineSiblings(u[m].parent, v[n].parent, u[m].after, v[n].after);
      LinksDetermineLevels(u[m].parent, u[..m], v[..n], root);
      assert u == u[..m] + [u[m]] && v == v[..n] + [v[n]];
    }
  }

  /** The position one step further on. */
  lemma {:induction false} StepOn(node: Node, up: seq<Frame>, root: Node) returns (to: Tree, levels: seq<Frame>)
    requires Hangs(node, up, root) && root !in After(up) && After(up) != []
    ensures Stands(to, levels, root) && After(up) == [to.node] + Ahead(to, levels)
    decreases |up|
  {
    if node.next != null {
      Across(node, up, root);
      var f := up[|up| - 1];
      to, levels := f.after[0], up[..|up| - 1] + [Frame(f.parent, f.after[1..])];
    } else {
      Up(node, up, root);
      to, levels := StepOn(up[|up| - 1].parent, up[..|up| - 1], root);
    }
  }

  /** The position at the k-th node of the walk. */
  lemma {:induction false} PositionAt(t: Tree, k: nat) returns (at: Tree, up: seq<Frame>)
    requires Rooted(t) && t.node !in PreAll(t.kids) && k < |PreAll(t.kids)|
    ensures Stands(at, up, t.node) && at.node == PreAll(t.kids)[k]
    ensures Ahead(at, up) == PreAll(t.kids)[k + 1..]
  {
    var root, from, levels := t.node, t, [];
    Start(t);
    if k > 0 {
      from, levels := PositionAt(t, k - 1);
    }
    OffRoot(from, levels, root);
    if from.node.first != null {
      Down(from, levels, root);
      at, up := from.kids[0], levels + [Frame(from.node, from.kids[1..])];
    } else {
      NothingBelow(from, levels, root);
      at, up := StepOn(from.node, levels, root);
    }
    if k > 0 {
      assert PreAll(t.kids)[k..][0] == at.node && PreAll(t.kids)[k..][1..] == PreAll(t.kids)[k + 1..];
    }
  }

  /** No node occurs twice among those a walk visits. */
  lemma EachOnce(t: Tree, i: nat, j: nat)
    requires Rooted(t) && t.node !in PreAll(t.kids)
    requires i < j < |PreAll(t.kids)|
    ensures PreAll(t.kids)[i] != PreAll(t.kids)[j]
  {
    var a, u := PositionAt(t, i);
    var b, v := PositionAt(t, j);
    if a.node == b.node {
      OffRoot(a, u, t.node);
      OffRoot(b, v, t.node);
      LinksDetermineTree(a, b);
      LinksDetermineLevels(a.node, u, v, t.node);
    }
  }
}
