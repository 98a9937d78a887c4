/** DomainScanner: a trie over reversed host labels whose nodes know their parents, proved
    against a linear scan of everything registered. */
module DomainTrie {
  import opened Basics
  import opened DomainLabels

  datatype Registration<P> = Registration(labels: Labels, parser: P)

  // ---- The linear scan -------------------------------------------------------------------

  predicate Applies<P>(r: Registration<P>, labels: Labels, pred: P -> bool) {
    r.labels <= labels && pred(r.parser)
  }

  /** Of the registrations whose labels begin the host's and whose parser passes, the one
      with most labels; of several such, the earliest. */
  function Best<P>(log: seq<Registration<P>>, labels: Labels, pred: P -> bool): (b: Option<Registration<P>>)
    ensures b.Some? ==> b.value in log && Applies(b.value, labels, pred)
    ensures forall r | r in log && Applies(r, labels, pred) :: b.Some? && |r.labels| <= |b.value.labels|
  {
    if log == [] then None
    else
      var b := Best(log[..|log| - 1], labels, pred);
      var r := log[|log| - 1];
      assert forall x | x in log :: x in log[..|log| - 1] || x == r;
      if Applies(r, labels, pred) && (b.None? || |b.value.labels| < |r.labels|) then Some(r) else b
  }

  // ---- What one trie node holds ----------------------------------------------------------

  /** The parsers registered at exactly these labels, earliest first. */
  function ParsersAt<P>(log: seq<Registration<P>>, labels: Labels): seq<P> {
    if log == [] then []
    else
      var r := log[|log| - 1];
      ParsersAt(log[..|log| - 1], labels) + if r.labels == labels then [r.parser] else []
  }

  function FirstPassing<P>(parsers: seq<P>, pred: P -> bool): Option<P> {
    if parsers == [] then None
    else if pred(parsers[0]) then Some(parsers[0])
    else FirstPassing(parsers[1..], pred)
  }

  /** Everything but one registration, however often it was made. */
  function Without<P(==)>(log: seq<Registration<P>>, gone: Registration<P>): seq<Registration<P>> {
    if log == [] then []
    else
      var r := log[|log| - 1];
      Without(log[..|log| - 1], gone) + if r == gone then [] else [r]
  }

  function Erased<P(==)>(parsers: seq<P>, gone: P): seq<P> {
    if parsers == [] then []
    else
      var v := parsers[|parsers| - 1];
      Erased(parsers[..|parsers| - 1], gone) + if v == gone then [] else [v]
  }

  lemma {:induction false} FirstPassingAppend<P>(parsers: seq<P>, v: P, pred: P -> bool)
    ensures FirstPassing(parsers + [v], pred)
         == if FirstPassing(parsers, pred).Some? then FirstPassing(parsers, pred)
            else if pred(v) then Some(v) else None
    decreases |parsers|
  {
    if parsers != [] {
      assert (parsers + [v])[1..] == parsers[1..] + [v];
      FirstPassingAppend(parsers[1..], v, pred);
    }
  }

  lemma ParsersAtAppend<P>(log: seq<Registration<P>>, r: Registration<P>, labels: Labels)
    ensures ParsersAt(log + [r], labels)
         == if r.labels == labels then ParsersAt(log, labels) + [r.parser] else ParsersAt(log, labels)
  {
    assert (log + [r])[..|log|] == log;
  }

  lemma ErasedAppend<P>(parsers: seq<P>, v: P, gone: P)
    ensures Erased(parsers + [v], gone) == if v == gone then Erased(parsers, gone) else Erased(parsers, gone) + [v]
  {
    assert (parsers + [v])[..|parsers|] == parsers;
  }

  lemma {:induction false} ParsersAtWithout<P>(log: seq<Registration<P>>, gone: Registration<P>, labels: Labels)
    ensures ParsersAt(Without(log, gone), labels)
         == if labels == gone.labels then Erased(ParsersAt(log, labels), gone.parser) else ParsersAt(log, labels)
    decreases |log|
  {
    if log != [] {
      hide ParsersAt, Erased, Without;
      var n := |log| - 1;
      var r, kept := log[n], Without(log[..n], gone);
      assert log[..n] + [r] == log;
      WithoutAppend(log[..n], r, gone);
      ParsersAtWithout(log[..n], gone, labels);
      ParsersAtAppend(log[..n], r, labels);
      ParsersAtAppend(kept, r, labels);
      ErasedAppend(ParsersAt(log[..n], labels), r.parser, gone.parser);
    } else {
      assert Without(log, gone) == [] && ParsersAt(log, labels) == [] && Erased<P>([], gone.parser) == [];
    }
  }

  lemma WithoutAppend<P>(log: seq<Registration<P>>, r: Registration<P>, gone: Registration<P>)
    ensures Without(log + [r], gone) == if r == gone then Without(log, gone) else Without(log, gone) + [r]
  {
    assert (log + [r])[..|log|] == log;
  }

  /** Climbing from the deepest labels up, the first parser that passes is the linear scan's. */
  lemma {:induction false} ClimbingFindsBest<P>(log: seq<Registration<P>>, labels: Labels, pred: P -> bool, k: nat)
    requires k <= |labels|
    requires forall j | k < j <= |labels| :: FirstPassing(ParsersAt(log, labels[..j]), pred).None?
    ensures FirstPassing(ParsersAt(log, labels[..k]), pred).Some? ==>
              Best(log, labels, pred)
                == Some(Registration(labels[..k], FirstPassing(ParsersAt(log, labels[..k]), pred).value))
    ensures k == 0 && FirstPassing(ParsersAt(log, []), pred).None? ==> Best(log, labels, pred).None?
    decreases |log|
  {
    assert labels[..0] == [];
    if log != [] {
      var n := |log| - 1;
      var r, before := log[n], log[..n];
      assert before + [r] == log;
      forall j: nat | j <= |labels|
        ensures FirstPassing(ParsersAt(log, labels[..j]), pred) ==
                if FirstPassing(ParsersAt(before, labels[..j]), pred).Some? || r.labels != labels[..j]
                then FirstPassing(ParsersAt(before, labels[..j]), pred)
                else if pred(r.parser) then Some(r.parser) else None
      {
        var at := ParsersAt(before, labels[..j]);
        ParsersAtAppend(before, r, labels[..j]);
        FirstPassingAppend(at, r.parser, pred);
        assert at + [] == at;
      }
      if r.labels <= labels {
        var j := |r.labels|;
        assert r.labels == labels[..j];
      }
      hide FirstPassing, ParsersAt;
      if FirstPassing(ParsersAt(before, labels[..k]), pred).Some? || k == 0 {
        ClimbingFindsBest(before, labels, pred, k);
      } else {
        DescendToBest(before, labels, pred, k);
      }
    }
  }

  /** With nothing passing at k or below, the scan's result lies above k. */
  lemma {:induction false} DescendToBest<P>(log: seq<Registration<P>>, labels: Labels, pred: P -> bool, k: nat)
    requires k <= |labels|
    requires forall j | k <= j <= |labels| :: FirstPassing(ParsersAt(log, labels[..j]), pred).None?
    ensures Best(log, labels, pred).Some? ==> |Best(log, labels, pred).value.labels| < k
    decreases |log|
  {
    var b := Best(log, labels, pred);
    if b.Some? {
      var r := b.value;
      assert r.labels == labels[..|r.labels|];
      Registered(log, r, pred);
    }
  }

  lemma {:induction false} Registered<P>(log: seq<Registration<P>>, r: Registration<P>, pred: P -> bool)
    requires r in log && pred(r.parser)
    ensures FirstPassing(ParsersAt(log, r.labels), pred).Some?
    decreases |log|
  {
    var n := |log| - 1;
    assert log[..n] + [log[n]] == log;
    ParsersAtAppend(log[..n], log[n], r.labels);
    var before := ParsersAt(log[..n], r.labels);
    FirstPassingAppend(before, log[n].parser, pred);
    assert before + [] == before;
    if r in log[..n] {
      Registered(log[..n], r, pred);
    }
  }

  // ---- The trie --------------------------------------------------------------------------

  class Node<P(==)> {
    var parent: Node?<P>
    var parsers: seq<P>
    var children: map<string, Node<P>>

    constructor (parent: Node?<P>)
      ensures this.parent == parent && parsers == [] && children == map[]
    {
      this.parent := parent;
      parsers := [];
      children := map[];
    }
  }

  /** A trie as values: its nodes by their labels, and what each node holds. */
  datatype Shape<P> = Shape(
    nodes: map<Labels, Node<P>>, ups: map<Labels, Node?<P>>,
    downs: map<Labels, map<string, Node<P>>>, held: map<Labels, seq<P>>)

  ghost predicate LinkedAt<P>(sh: Shape<P>, p: Labels, name: string)
    requires sh.nodes.Keys == sh.ups.Keys == sh.downs.Keys
  {
    p in sh.nodes ==>
      && (if p == [] then sh.ups[p] == null
          else p[..|p| - 1] in sh.nodes && sh.ups[p] == sh.nodes[p[..|p| - 1]])
      && (if name in sh.downs[p] then p + [name] in sh.nodes && sh.downs[p][name] == sh.nodes[p + [name]]
          else p + [name] !in sh.nodes)
  }

  ghost predicate HoldsAt<P>(sh: Shape<P>, log: seq<Registration<P>>, p: Labels)
    requires sh.nodes.Keys == sh.held.Keys
  {
    ParsersAt(log, p) == if p in sh.nodes then sh.held[p] else []
  }

  /** Distinct labels lead to distinct nodes, links follow the labels, and every node holds
      what is registered at its labels. */
  ghost predicate Good<P>(sh: Shape<P>, root: Node<P>, log: seq<Registration<P>>) {
    && sh.nodes.Keys == sh.ups.Keys == sh.downs.Keys == sh.held.Keys
    && [] in sh.nodes && sh.nodes[[]] == root
    && (forall p, q | p in sh.nodes && q in sh.nodes && sh.nodes[p] == sh.nodes[q] :: p == q)
    && (forall p: Labels, name: string :: LinkedAt(sh, p, name))
    && (forall p: Labels :: HoldsAt(sh, log, p))
  }

  /** The nodes hold what these values say, but for the children of some. */
  ghost predicate Mirrored<P>(sh: Shape<P>, except: set<Labels>)
    reads sh.nodes.Values
  {
    && sh.nodes.Keys == sh.ups.Keys == sh.downs.Keys == sh.held.Keys
    && forall p | p in sh.nodes ::
         var n := sh.nodes[p];
         n.parent == sh.ups[p] && n.parsers == sh.held[p] && (p !in except ==> n.children == sh.downs[p])
  }

  lemma GrownMirrored<P>(sh: Shape<P>, path: Labels, full: Labels, name: string, child: Node<P>)
    requires Mirrored(sh, {path}) && path in sh.nodes && full !in sh.nodes
    requires child.parent == sh.nodes[path] && child.children == map[] && child.parsers == []
    requires sh.nodes[path].children == sh.downs[path][name := child]
    ensures Mirrored(Grown(sh, path, full, name, child), {})
  {
  }

  /** The trie with an empty child added. */
  ghost function Grown<P>(sh: Shape<P>, path: Labels, full: Labels, name: string, child: Node<P>): Shape<P>
    requires path in sh.nodes && path in sh.downs
  {
    Shape(sh.nodes[full := child], sh.ups[full := sh.nodes[path]],
          sh.downs[full := map[]][path := sh.downs[path][name := child]], sh.held[full := []])
  }

  lemma OneNodeEach<P>(sh: Shape<P>, root: Node<P>, log: seq<Registration<P>>)
    requires Good(sh, root, log)
    ensures forall p, q | p in sh.nodes && q in sh.nodes && sh.nodes[p] == sh.nodes[q] :: p == q
  {
  }

  lemma FullIsNew<P>(sh: Shape<P>, root: Node<P>, log: seq<Registration<P>>, path: Labels, name: string)
    requires Good(sh, root, log) && path in sh.nodes && name !in sh.downs[path]
    ensures path + [name] !in sh.nodes
  {
    assert LinkedAt(sh, path, name);
  }

  lemma {:induction false} GrownIsGood<P>(sh: Shape<P>, root: Node<P>, log: seq<Registration<P>>, path: Labels, name: string, child: Node<P>)
    requires Good(sh, root, log) && path in sh.nodes && name !in sh.downs[path]
    requires child !in sh.nodes.Values
    ensures Good(Grown(sh, path, path + [name], name, child), root, log)
  {
    hide ParsersAt;
    var grown := Grown(sh, path, path + [name], name, child);
    FullIsNew(sh, root, log, path, name);
    forall p: Labels, l: string ensures LinkedAt(grown, p, l) {
      GrownLinks(sh, path, name, child, p, l);
    }
    forall p: Labels ensures HoldsAt(grown, log, p) {
      assert HoldsAt(sh, log, p);
    }
  }

  lemma GrownLinks<P>(sh: Shape<P>, path: Labels, name: string, child: Node<P>, p: Labels, l: string)
    requires sh.nodes.Keys == sh.ups.Keys == sh.downs.Keys && path in sh.nodes && name !in sh.downs[path]
    requires forall q: Labels, m: string :: LinkedAt(sh, q, m)
    ensures LinkedAt(Grown(sh, path, path + [name], name, child), p, l)
  {
    var full := path + [name];
    assert LinkedAt(sh, path, name) && full[..|full| - 1] == path;
    assert LinkedAt(sh, p, l) && LinkedAt(sh, full + [l], l) && (full + [l])[..|full|] == full;
    SnocIsInjective(p, l, path, name);
  }

  lemma SnocIsInjective(p: Labels, l: string, q: Labels, m: string)
    ensures p + [l] == q + [m] <==> p == q && l == m
  {
    if p + [l] == q + [m] {
      assert (p + [l])[..|p|] == p && (q + [m])[..|q|] == q;
      assert (p + [l])[|p|] == l && (q + [m])[|q|] == m;
    }
  }

  class Scanner<P(==)> {
    const root: Node<P>
    /** Every node by the labels that lead to it. */
    ghost var nodes: map<Labels, Node<P>>
    /** The registrations in force, in the order they were made. */
    ghost var log: seq<Registration<P>>

    /** Distinct labels lead to distinct nodes, and the links down and up follow the labels. */
    ghost predicate Shaped()
      reads this, nodes.Values
    {
      && [] in nodes && nodes[[]] == root
      && (forall p, q | p in nodes && q in nodes && nodes[p] == nodes[q] :: p == q)
      && (forall p: Labels :: LinkedUp(p))
      && (forall p: Labels, name: string :: LinkedDown(p, name))
    }

    ghost predicate LinkedUp(p: Labels)
      reads this, nodes.Values
    {
      p in nodes ==>
        if p == [] then nodes[p].parent == null
        else p[..|p| - 1] in nodes && nodes[p].parent == nodes[p[..|p| - 1]]
    }

    ghost predicate LinkedDown(p: Labels, name: string)
      reads this, nodes.Values
    {
      p in nodes ==>
        if name in nodes[p].children
        then p + [name] in nodes && nodes[p].children[name] == nodes[p + [name]]
        else p + [name] !in nodes
    }

    /** Every node holds what is registered at its labels; nothing is registered elsewhere. */
    ghost predicate Filled()
      reads this, nodes.Values
    {
      forall p: Labels :: ParsersAt(log, p) == if p in nodes then nodes[p].parsers else []
    }

    ghost predicate Valid()
      reads this, nodes.Values
    {
      Shaped() && Filled()
    }

    constructor ()
      ensures Valid() && log == [] && fresh(nodes.Values)
    {
      root := new Node<P>(null);
      log := [];
      new;
      nodes := map[[] := root];
    }

    lemma Links(p: Labels, name: string)
      requires Shaped()
      ensures LinkedUp(p) && LinkedDown(p, name)
      ensures [] in nodes && nodes[[]] == root
    {
    }

    /** The nodes by their labels, with what each holds. */
    ghost function Now(): (sh: Shape<P>)
      reads this, nodes.Values
      ensures sh.nodes == nodes
    {
      Shape(nodes, map p | p in nodes :: nodes[p].parent, map p | p in nodes :: nodes[p].children,
            map p | p in nodes :: nodes[p].parsers)
    }

    lemma ValidIsGood()
      requires Valid()
      ensures Good(Now(), root, log)
    {
      hide ParsersAt;
      forall p: Labels, l: string ensures LinkedAt(Now(), p, l) {
        assert LinkedUp(p) && LinkedDown(p, l);
      }
      forall p: Labels ensures HoldsAt(Now(), log, p) {
      }
    }

    /** The heap looks as these values say. */
    ghost predicate Mirrors(sh: Shape<P>)
      reads this, nodes.Values
    {
      sh.nodes == nodes && Mirrored(sh, {})
    }

    lemma GoodIsValid(sh: Shape<P>)
      requires Good(sh, root, log) && Mirrors(sh)
      ensures Valid()
    {
      hide ParsersAt;
      forall p: Labels ensures LinkedUp(p) {
        assert LinkedAt(sh, p, "");
      }
      forall p: Labels, l: string ensures LinkedDown(p, l) {
        assert LinkedAt(sh, p, l);
      }
      forall p: Labels ensures ParsersAt(log, p) == if p in nodes then nodes[p].parsers else [] {
        assert HoldsAt(sh, log, p);
      }
    }

    /** Links a new node in below one that has labels of its own. */
    method Attach(node: Node<P>, name: string, ghost path: Labels, ghost full: Labels, ghost was: Shape<P>) returns (child: Node<P>)
      requires Mirrors(was) && path in nodes && nodes[path] == node && full !in nodes
      requires forall p | p in nodes && p != path :: nodes[p] != node
      modifies this`nodes, node`children
      ensures fresh(child) && Mirrors(Grown(was, path, full, name, child))
    {
      child := new Node<P>(node);
      LinkDown(node, name, child, path, was);
      hide Mirrored;
      GrownMirrored(was, path, full, name, child);
      nodes := nodes[full := child];
    }

    method LinkDown(node: Node<P>, name: string, child: Node<P>, ghost path: Labels, ghost was: Shape<P>)
      requires Mirrored(was, {}) && path in was.nodes && was.nodes[path] == node && child !in was.nodes.Values
      requires forall p | p in was.nodes && p != path :: was.nodes[p] != node
      modifies node`children
      ensures Mirrored(was, {path}) && node.children == was.downs[path][name := child]
    {
      node.children := node.children[name := child];
    }

    /** Gives a node that lacks it a child for one label. */
    method AddChild(node: Node<P>, name: string, ghost path: Labels) returns (child: Node<P>)
      requires Valid() && path in nodes && nodes[path] == node && name !in node.children
      modifies this`nodes, node`children
      ensures fresh(child) && Valid()
      ensures nodes == old(nodes)[path + [name] := child]
    {
      hide ParsersAt, Valid, Good;
      ValidIsGood();
      ghost var was := Now();
      OneNodeEach(was, root, log);
      FullIsNew(was, root, log, path, name);
      child := Attach(node, name, path, path + [name], was);
      GrownIsGood(was, root, log, path, name, child);
      GoodIsValid(Grown(was, path, path + [name], name, child));
    }

    /** The child under a label, new if there was none. */
    method ChildFor(node: Node<P>, name: string, ghost path: Labels) returns (child: Node<P>)
      requires Valid() && path in nodes && nodes[path] == node
      modifies this`nodes, nodes.Values
      ensures Valid() && path + [name] in nodes && nodes[path + [name]] == child
      ensures fresh(nodes.Values - old(nodes.Values))
    {
      hide Valid, Shaped, Filled;
      Unpack();
      Links(path, name);
      if name in node.children {
        child := node.children[name];
      } else {
        child := AddChild(node, name, path);
      }
    }

    method FindOrCreate(labels: Labels) returns (node: Node<P>)
      requires Valid()
      modifies this`nodes, nodes.Values
      ensures Valid() && labels in nodes && nodes[labels] == node
      ensures fresh(nodes.Values - old(nodes.Values))
    {
      Links([], "");
      hide Valid;
      node := root;
      var i := 0;
      assert labels[..0] == [];
      while i < |labels|
        invariant i <= |labels|
        invariant Valid() && labels[..i] in nodes && nodes[labels[..i]] == node
        invariant fresh(nodes.Values - old(nodes.Values))
      {
        assert labels[..i] + [labels[i]] == labels[..i + 1];
        node := ChildFor(node, labels[i], labels[..i]);
        i := i + 1;
      }
      assert labels[..i] == labels;
    }

    lemma Unpack()
      requires Valid()
      ensures Shaped() && Filled()
    {
    }

    method AddDomainParser(labels: Labels, parser: P)
      requires Valid()
      modifies this, nodes.Values
      ensures Valid() && log == old(log) + [Registration(labels, parser)]
      ensures fresh(nodes.Values - old(nodes.Values))
    {
      hide ParsersAt;
      var node := FindOrCreate(labels);
      label Found:
      node.parsers := node.parsers + [parser];
      log := log + [Registration(labels, parser)];
      Reshaped@Found();
      forall p: Labels ensures ParsersAt(log, p) == if p in nodes then nodes[p].parsers else [] {
        ParsersAtAppend(old(log), Registration(labels, parser), p);
        NoneAdded(ParsersAt(old(log), p));
      }
    }

    static lemma NoneAdded(parsers: seq<P>)
      ensures parsers + [] == parsers
    {
    }

    /** Shape does not depend on what the nodes hold. */
    twostate lemma Reshaped()
      requires old(Shaped()) && nodes == old(nodes)
      requires forall n | n in nodes.Values :: n.parent == old(n.parent) && n.children == old(n.children)
      ensures Shaped()
    {
      forall p: Labels ensures LinkedUp(p) {
        assert old(LinkedUp(p));
      }
      forall p: Labels, l: string ensures LinkedDown(p, l) {
        assert old(LinkedDown(p, l));
      }
    }

    method FindNode(labels: Labels) returns (node: Node?<P>)
      requires Valid()
      ensures if labels in nodes then node == nodes[labels] else node == null
    {
      var k;
      node, k := Descend(labels);
      if k < |labels| {
        node := null;
        if labels in nodes {
          Ancestors(labels, k + 1);
        }
      } else {
        assert labels[..k] == labels;
      }
    }

    /** The deepest node along the labels, and how many of them lead to it. */
    method Descend(labels: Labels) returns (node: Node<P>, k: nat)
      requires Valid()
      ensures k <= |labels| && labels[..k] in nodes && nodes[labels[..k]] == node
      ensures k < |labels| ==> labels[..k + 1] !in nodes
    {
      hide Valid, Shaped, Filled;
      Unpack();
      Links([], "");
      node, k := root, 0;
      assert labels[..0] == [];
      while k < |labels|
        invariant k <= |labels| && labels[..k] in nodes && nodes[labels[..k]] == node
      {
        Links(labels[..k], labels[k]);
        assert labels[..k] + [labels[k]] == labels[..k + 1];
        if labels[k] !in node.children {
          return;
        }
        node := node.children[labels[k]];
        k := k + 1;
      }
    }

    /** What has a node has nodes for all its beginnings. */
    lemma {:induction false} Ancestors(labels: Labels, k: nat)
      requires Shaped() && k <= |labels| && labels in nodes
      ensures labels[..k] in nodes
      decreases |labels|
    {
      if k < |labels| {
        assert LinkedUp(labels);
        Ancestors(labels[..|labels| - 1], k);
        assert labels[..|labels| - 1][..k] == labels[..k];
      } else {
        assert labels[..k] == labels;
      }
    }

    method RemoveDomainParser(labels: Labels, parser: P)
      requires Valid()
      modifies this`log, nodes.Values
      ensures Valid() && log == Without(old(log), Registration(labels, parser))
      ensures nodes == old(nodes)
    {
      var node := FindNode(labels);
      if node != null {
        node.parsers := Erased(node.parsers, parser);
      }
      log := Without(log, Registration(labels, parser));
      Reshaped();
      forall p: Labels ensures ParsersAt(log, p) == if p in nodes then nodes[p].parsers else [] {
        ParsersAtWithout(old(log), Registration(labels, parser), p);
      }
    }

    /** The first passing parser of the deepest node that has one. */
    method SearchAll(labels: Labels, pred: P -> bool) returns (found: Option<P>)
      requires Valid()
      ensures found == ParserOf(Best(log, labels, pred))
    {
      hide Best, ParsersAt, Valid, Shaped, Filled, FirstPassing;
      var node: Node?<P>, k := Descend(labels);
      var i: int := k;
      Below(labels, k, pred);
      found := None;
      while node != null && found.None?
        invariant -1 <= i <= |labels|
        invariant found.None?
        invariant if i < 0 then node == null else labels[..i] in nodes && node == nodes[labels[..i]]
        invariant forall j: nat | i < j <= |labels| :: FirstPassing(ParsersAt(log, labels[..j]), pred).None?
        decreases i
      {
        HeldAt(labels[..i]);
        found := FirstPassing(node.parsers, pred);
        if found.Some? {
          ClimbingFindsBest(log, labels, pred, i);
          return;
        }
        assert i > 0 ==> labels[..i][..i - 1] == labels[..i - 1];
        node := node.parent;
        i := i - 1;
      }
      assert labels[..0] == [];
      ClimbingFindsBest(log, labels, pred, 0);
    }

    lemma HeldAt(p: Labels)
      requires Valid() && p in nodes
      ensures nodes[p].parsers == ParsersAt(log, p) && LinkedUp(p)
    {
    }

    /** Nothing is registered below the deepest node. */
    lemma Below(labels: Labels, k: nat, pred: P -> bool)
      requires Valid() && k <= |labels| && (k < |labels| ==> labels[..k + 1] !in nodes)
      ensures forall j: nat | k < j <= |labels| :: FirstPassing(ParsersAt(log, labels[..j]), pred).None?
    {
      Unpack();
      hide Valid, Shaped, Filled, ParsersAt;
      forall j: nat | k < j <= |labels|
        ensures FirstPassing(ParsersAt(log, labels[..j]), pred).None?
      {
        if labels[..j] in nodes {
          assert labels[..j][..k + 1] == labels[..k + 1];
          Ancestors(labels[..j], k + 1);
        }
        NothingHeld(labels[..j]);
      }
    }

    lemma NothingHeld(p: Labels)
      requires Valid() && p !in nodes
      ensures ParsersAt(log, p) == []
    {
    }
  }

  function ParserOf<P>(r: Option<Registration<P>>): Option<P> {
    match r
    case None => None
    case Some(registration) => Some(registration.parser)
  }

  // ---- The same in terms of domains ------------------------------------------------------

  datatype DomainEntry<P> = DomainEntry(domain: string, parser: P)

  function Logged<P>(entries: seq<DomainEntry<P>>): (log: seq<Registration<P>>)
    ensures |log| == |entries|
    ensures forall k | 0 <= k < |log| :: log[k] == Registration(LabelsOf(entries[k].domain), entries[k].parser)
  {
    seq(|entries|, k requires 0 <= k < |entries| => Registration(LabelsOf(entries[k].domain), entries[k].parser))
  }

  /** The entry serves the host: its domain is the host or a suffix of it at a dot (or empty,
      which serves every host), and its parser passes. */
  predicate Serves<P>(e: DomainEntry<P>, host: string, pred: P -> bool) {
    (e.domain == "" || MatchesHost(e.domain, host)) && pred(e.parser)
  }

  /** Entry k is the one a linear search settles on: the longest domain that serves the host,
      the earliest of equally long ones. */
  ghost predicate IsLinearMatch<P>(entries: seq<DomainEntry<P>>, host: string, pred: P -> bool, k: nat) {
    && k < |entries| && Serves(entries[k], host, pred)
    && forall j | 0 <= j < |entries| && Serves(entries[j], host, pred) ::
         |entries[j].domain| < |entries[k].domain| || (|entries[j].domain| == |entries[k].domain| && k <= j)
  }

  lemma ServesIsApplies<P>(e: DomainEntry<P>, host: string, pred: P -> bool)
    ensures Serves(e, host, pred) <==> Applies(Registration(LabelsOf(e.domain), e.parser), LabelsOf(host), pred)
  {
    LabelPrefixIsSuffix(e.domain, host);
  }

  /** One more entry: it wins over the match so far when it serves and is longer. */
  lemma MatchGrows<P>(entries: seq<DomainEntry<P>>, e: DomainEntry<P>, host: string, pred: P -> bool, k: nat)
    requires IsLinearMatch(entries, host, pred, k)
    ensures IsLinearMatch(entries + [e], host, pred,
              if Serves(e, host, pred) && |entries[k].domain| < |e.domain| then |entries| else k)
  {
  }

  lemma BestStep<P>(log: seq<Registration<P>>, r: Registration<P>, labels: Labels, pred: P -> bool)
    ensures var b := Best(log, labels, pred);
      Best(log + [r], labels, pred)
        == if Applies(r, labels, pred) && (b.None? || |b.value.labels| < |r.labels|) then Some(r) else b
  {
    assert (log + [r])[..|log|] == log;
  }

  /** The trie's answer is the linear search's: nothing when no entry serves the host, else
      the parser of the longest serving domain, ties to the earliest. */
  lemma {:induction false} BestIsLinearMatch<P>(entries: seq<DomainEntry<P>>, host: string, pred: P -> bool)
      returns (k: nat)
    ensures Best(Logged(entries), LabelsOf(host), pred).None? ==> forall e | e in entries :: !Serves(e, host, pred)
    ensures Best(Logged(entries), LabelsOf(host), pred).Some? ==>
              && IsLinearMatch(entries, host, pred, k)
              && Best(Logged(entries), LabelsOf(host), pred).value == Logged(entries)[k]
    decreases |entries|
  {
    k := 0;
    if entries != [] {
      var n := |entries| - 1;
      var e, before := entries[n], entries[..n];
      assert entries == before + [e];
      k := BestIsLinearMatch(before, host, pred);
      k := MatchStep(before, e, host, pred, k);
    }
  }

  lemma MatchStep<P>(before: seq<DomainEntry<P>>, e: DomainEntry<P>, host: string, pred: P -> bool, k: nat)
      returns (next: nat)
    requires Best(Logged(before), LabelsOf(host), pred).None? ==> forall x | x in before :: !Serves(x, host, pred)
    requires Best(Logged(before), LabelsOf(host), pred).Some? ==>
              && IsLinearMatch(before, host, pred, k)
              && Best(Logged(before), LabelsOf(host), pred).value == Logged(before)[k]
    ensures Best(Logged(before + [e]), LabelsOf(host), pred).None? ==>
              forall x | x in before + [e] :: !Serves(x, host, pred)
    ensures Best(Logged(before + [e]), LabelsOf(host), pred).Some? ==>
              && IsLinearMatch(before + [e], host, pred, next)
              && Best(Logged(before + [e]), LabelsOf(host), pred).value == Logged(before + [e])[next]
  {
    var log, r := Logged(before), Registration(LabelsOf(e.domain), e.parser);
    var b := Best(log, LabelsOf(host), pred);
    BestStep(log, r, LabelsOf(host), pred);
    ServesIsApplies(e, host, pred);
    hide LabelsOf, Applies, Serves, Best, MatchesHost;
    assert Logged(before + [e]) == log + [r];
    next := |before|;
    if b.Some? {
      MatchGrows(before, e, host, pred, k);
      if Serves(e, host, pred) {
        EqualOrder(before[k], e, host, pred);
      }
      next := if Serves(e, host, pred) && |before[k].domain| < |e.domain| then |before| else k;
    } else if Serves(e, host, pred) {
      FirstMatch(before, e, host, pred);
    }
  }

  lemma FirstMatch<P>(entries: seq<DomainEntry<P>>, e: DomainEntry<P>, host: string, pred: P -> bool)
    requires Serves(e, host, pred) && forall x | x in entries :: !Serves(x, host, pred)
    ensures IsLinearMatch(entries + [e], host, pred, |entries|)
  {
  }

  lemma EqualOrder<P>(a: DomainEntry<P>, b: DomainEntry<P>, host: string, pred: P -> bool)
    requires Serves(a, host, pred) && Serves(b, host, pred)
    ensures |LabelsOf(a.domain)| < |LabelsOf(b.domain)| <==> |a.domain| < |b.domain|
  {
    LabelPrefixIsSuffix(a.domain, host);
    LabelPrefixIsSuffix(b.domain, host);
    MoreLabelsIsLonger(a.domain, b.domain, host);
  }
}
