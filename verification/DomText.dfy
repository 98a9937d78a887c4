/** DOMElementView::text: a measuring pass and a filling pass over one walk. */
module DomText {
  import opened Basics
  import opened Dom

  predicate IsSpace(c: char) {
    c == ' ' || c == '\t' || c == '\n' || c == '\r' || c == '\U{0B}' || c == '\U{0C}'
  }

  // ---- The text, item by item ------------------------------------------------------------

  datatype Item = Char(c: char) | Break

  function Chars(s: string): (items: seq<Item>)
    ensures |items| == |s| && forall k | 0 <= k < |s| :: items[k] == Char(s[k])
  {
    seq(|s|, k requires 0 <= k < |s| => Char(s[k]))
  }

  /** A BR is a break, a text node its characters, everything else nothing. */
  function ItemsOf(n: Node): seq<Item> {
    match n.kind
    case Element(tag, _) => if tag == "BR" then [Break] else []
    case Text(content) => Chars(content)
    case Misc => []
  }

  function Items(ns: seq<Node>): seq<Item> {
    if ns == [] then [] else ItemsOf(ns[0]) + Items(ns[1..])
  }

  /** Of whitespace only the plain space is kept, and not behind another kept one. */
  predicate Keeps(c: char, blank: bool) {
    if c == ' ' then !blank else !IsSpace(c)
  }

  /** Whether the last kept character was a space. */
  function BlankAfter(c: char, blank: bool): bool {
    if c == ' ' then true else if IsSpace(c) then blank else false
  }

  function Next(item: Item, blank: bool): bool {
    if item.Char? then BlankAfter(item.c, blank) else blank
  }

  /** What one item writes. */
  function Emitted(item: Item, blank: bool): string {
    match item
    case Break => "\n"
    case Char(c) => if Keeps(c, blank) then [c] else ""
  }

  function FlagAfter(items: seq<Item>, blank: bool): bool {
    if items == [] then blank else FlagAfter(items[1..], Next(items[0], blank))
  }

  function Collapsed(items: seq<Item>, blank: bool): string {
    if items == [] then "" else Emitted(items[0], blank) + Collapsed(items[1..], Next(items[0], blank))
  }

  function WithoutTrailingSpaces(s: string): (t: string)
    ensures t <= s
  {
    if s != "" && s[|s| - 1] == ' ' then WithoutTrailingSpaces(s[..|s| - 1]) else s
  }

  lemma {:induction false} CollapsedConcat(a: seq<Item>, b: seq<Item>, blank: bool)
    ensures Collapsed(a + b, blank) == Collapsed(a, blank) + Collapsed(b, FlagAfter(a, blank))
    ensures FlagAfter(a + b, blank) == FlagAfter(b, FlagAfter(a, blank))
    decreases |a|
  {
    if a == [] {
      assert a + b == b;
    } else {
      assert (a + b)[1..] == a[1..] + b;
      CollapsedConcat(a[1..], b, Next(a[0], blank));
      hide Emitted, Next;
      assert Emitted(a[0], blank) + (Collapsed(a[1..], Next(a[0], blank)) + Collapsed(b, FlagAfter(a, blank)))
          == (Emitted(a[0], blank) + Collapsed(a[1..], Next(a[0], blank))) + Collapsed(b, FlagAfter(a, blank));
    }
  }

  // ---- What the result looks like --------------------------------------------------------

  predicate NoDoubleSpace(s: string) {
    forall k | 0 < k < |s| :: !(s[k - 1] == ' ' && s[k] == ' ')
  }

  predicate StartsWithSpace(s: string) {
    s != "" && s[0] == ' '
  }

  function Count(s: string, c: char): nat {
    if s == "" then 0 else (if s[0] == c then 1 else 0) + Count(s[1..], c)
  }

  function Breaks(items: seq<Item>): nat {
    if items == [] then 0 else (if items[0].Break? then 1 else 0) + Breaks(items[1..])
  }

  /** The characters that are not whitespace, in order. */
  function Ink(s: string): string {
    if s == "" then "" else (if IsSpace(s[0]) then "" else [s[0]]) + Ink(s[1..])
  }

  function InkOf(items: seq<Item>): string {
    if items == [] then ""
    else (if items[0].Char? && !IsSpace(items[0].c) then [items[0].c] else "") + InkOf(items[1..])
  }

  /** Spaces are never doubled, other whitespace is only the newline of a break, and no other
      character is lost or moved. */
  lemma {:induction false} CollapsedIsTidy(items: seq<Item>, blank: bool)
    ensures var s := Collapsed(items, blank);
      && NoDoubleSpace(s)
      && (blank ==> !StartsWithSpace(s))
      && (forall c | c in s :: IsSpace(c) ==> c == ' ' || c == '\n')
      && Count(s, '\n') == Breaks(items)
      && Ink(s) == InkOf(items)
    decreases |items|
  {
    if items != [] {
      var next := Next(items[0], blank);
      var rest := Collapsed(items[1..], next);
      CollapsedIsTidy(items[1..], next);
      var head := Emitted(items[0], blank);
      var s := head + rest;
      assert Collapsed(items, blank) == s;
      if head == "" {
        assert s == rest;
      } else {
        assert s[1..] == rest;
        forall k | 0 < k < |s| ensures !(s[k - 1] == ' ' && s[k] == ' ') {
          if k > 1 {
            assert s[k - 1] == rest[k - 2] && s[k] == rest[k - 1];
          }
        }
      }
    }
  }

  lemma {:induction false} TrimmedIsTidy(s: string)
    requires NoDoubleSpace(s) && !StartsWithSpace(s)
    ensures var t := WithoutTrailingSpaces(s);
      && NoDoubleSpace(t) && !StartsWithSpace(t)
      && (t != "" ==> t[|t| - 1] != ' ')
      && (t == s || t + " " == s)
      && Count(t, '\n') == Count(s, '\n') && Ink(t) == Ink(s)
    decreases |s|
  {
    if s != "" && s[|s| - 1] == ' ' {
      var u := s[..|s| - 1];
      assert s == u + " ";
      assert u == "" || u[|u| - 1] != ' ';
      SpaceAtTheEnd(u);
    }
  }

  lemma {:induction false} SpaceAtTheEnd(u: string)
    ensures Count(u + " ", '\n') == Count(u, '\n') && Ink(u + " ") == Ink(u)
    decreases |u|
  {
    if u == "" {
      assert u + " " == " " && " "[1..] == "";
    } else {
      assert (u + " ")[1..] == u[1..] + " ";
      SpaceAtTheEnd(u[1..]);
    }
  }

  /** What text() returns for the items below an element. */
  function TextOf(items: seq<Item>): string {
    WithoutTrailingSpaces(Collapsed(items, true))
  }

  /** No leading, trailing or doubled space; no whitespace but the space and one newline for
      each BR; every other character of the text nodes, in order. */
  lemma TextIsTidy(items: seq<Item>)
    ensures var s := TextOf(items);
      && NoDoubleSpace(s) && !StartsWithSpace(s) && (s != "" ==> s[|s| - 1] != ' ')
      && (forall c | c in s :: IsSpace(c) ==> c == ' ' || c == '\n')
      && Count(s, '\n') == Breaks(items)
      && Ink(s) == InkOf(items)
  {
    CollapsedIsTidy(items, true);
    TrimmedIsTidy(Collapsed(items, true));
  }

  // ---- Item by item ----------------------------------------------------------------------

  predicate IsInk(item: Item) {
    item.Char? && item.c !in " \t\n\r\U{0B}\U{0C}"
  }

  /** Ink at j, and no plain space from there up to place k. */
  predicate InkThenNoSpace(items: seq<Item>, j: nat, k: nat) {
    j < k <= |items| && IsInk(items[j]) && forall m: nat | j < m < k :: items[m] != Char(' ')
  }

  /** Some ink stands before place k, with no plain space between. */
  ghost predicate InkSinceSpace(items: seq<Item>, k: nat) {
    exists j: nat :: InkThenNoSpace(items, j, k)
  }

  /** What item k writes: a break its newline; ink itself; a plain space itself, when it is the
      first behind some ink; other whitespace nothing. */
  ghost function WrittenAt(items: seq<Item>, k: nat): string
    requires k < |items|
  {
    if items[k] == Break then "\n"
    else if IsInk(items[k]) then [items[k].c]
    else if items[k] == Char(' ') && InkSinceSpace(items, k) then " "
    else ""
  }

  ghost function WrittenTo(items: seq<Item>, n: nat): string
    requires n <= |items|
  {
    if n == 0 then "" else WrittenTo(items, n - 1) + WrittenAt(items, n - 1)
  }

  lemma {:induction false} InkSinceSpaceStep(items: seq<Item>, k: nat)
    requires k < |items|
    ensures InkSinceSpace(items, k + 1) <==> items[k] != Char(' ') && (IsInk(items[k]) || InkSinceSpace(items, k))
  {
    assert !IsInk(Char(' '));
    hide IsInk;
    if InkSinceSpace(items, k + 1) {
      var j: nat :| InkThenNoSpace(items, j, k + 1);
      assert j < k ==> InkThenNoSpace(items, j, k);
    }
    if items[k] != Char(' ') && IsInk(items[k]) {
      assert InkThenNoSpace(items, k, k + 1);
    }
    if items[k] != Char(' ') && InkSinceSpace(items, k) {
      var j: nat :| InkThenNoSpace(items, j, k);
      assert InkThenNoSpace(items, j, k + 1);
    }
  }

  lemma WrittenNext(items: seq<Item>, k: nat)
    requires k < |items|
    ensures WrittenTo(items, k + 1) == WrittenTo(items, k) + WrittenAt(items, k)
    ensures WrittenTo(items, 0) == ""
  {
  }

  lemma OneWritten(items: seq<Item>, k: nat)
    requires k < |items|
    ensures Emitted(items[k], !InkSinceSpace(items, k)) == WrittenAt(items, k)
    ensures Next(items[k], !InkSinceSpace(items, k)) <==> !InkSinceSpace(items, k + 1)
  {
    InkSinceSpaceStep(items, k);
    hide InkSinceSpace;
  }

  /** The collapsed text is what the items write, each for itself. */
  lemma {:induction false} CollapsedIsWritten(items: seq<Item>, n: nat)
    requires n <= |items|
    ensures Collapsed(items[..n], true) == WrittenTo(items, n)
    ensures FlagAfter(items[..n], true) == !InkSinceSpace(items, n)
    decreases n
  {
    if n > 0 {
      hide WrittenTo, WrittenAt, InkSinceSpace, Collapsed, FlagAfter, Emitted, Next;
      var k := n - 1;
      CollapsedIsWritten(items, k);
      OneWritten(items, k);
      WrittenNext(items, k);
      OneItem(items[k], !InkSinceSpace(items, k));
      CollapsedConcat(items[..k], [items[k]], true);
      assert items[..n] == items[..k] + [items[k]];
    }
  }

  lemma OneItem(item: Item, blank: bool)
    ensures Collapsed([item], blank) == Emitted(item, blank) && FlagAfter([item], blank) == Next(item, blank)
  {
    assert [item][1..] == [];
  }

  /** The text is what the items write, but for one space at the very end. */
  lemma {:induction false} TextIsWritten(items: seq<Item>)
    ensures var s := WrittenTo(items, |items|);
      TextOf(items) == if s != "" && s[|s| - 1] == ' ' then s[..|s| - 1] else s
  {
    var s := WrittenTo(items, |items|);
    assert items[..|items|] == items;
    CollapsedIsWritten(items, |items|);
    CollapsedIsTidy(items, true);
    TrimmedIsTidy(s);
  }

  predicate IsWord(s: string) {
    s != "" && forall k | 0 <= k < |s| :: s[k] !in " \t\n\r\U{0B}\U{0C}"
  }

  lemma {:induction false} WordIsKept(word: string, blank: bool)
    requires IsWord(word)
    ensures Collapsed(Chars(word), blank) == word && !FlagAfter(Chars(word), blank)
    decreases |word|
  {
    var rest := word[1..];
    assert word == [word[0]] + rest && Chars(word)[1..] == Chars(rest);
    if rest != "" {
      WordIsKept(rest, false);
    }
  }

  function Spaces(n: nat): string {
    if n == 0 then "" else " " + Spaces(n - 1)
  }

  lemma {:induction false} SpacesAreOne(n: nat, blank: bool)
    ensures Collapsed(Chars(Spaces(n)), blank) == (if n > 0 && !blank then " " else "")
    ensures FlagAfter(Chars(Spaces(n)), blank) == (blank || n > 0)
    decreases n
  {
    if n > 0 {
      assert Spaces(n)[1..] == Spaces(n - 1) && Chars(Spaces(n))[1..] == Chars(Spaces(n - 1));
      SpacesAreOne(n - 1, true);
    }
  }

  /** Words with spaces between them, however many, stay apart by exactly one. */
  lemma {:induction false} WordsStayApart(a: string, n: nat, b: string)
    requires IsWord(a) && IsWord(b) && n > 0
    ensures TextOf(Chars(a + Spaces(n) + b)) == a + " " + b
  {
    WordIsKept(a, true);
    SpacesAreOne(n, false);
    WordIsKept(b, true);
    assert b[|b| - 1] != ' ';
    hide Collapsed, FlagAfter, Spaces, IsWord, Chars, WithoutTrailingSpaces;
    CharsConcat(a, Spaces(n), b);
    CollapsedConcat(Chars(a) + Chars(Spaces(n)), Chars(b), true);
    CollapsedConcat(Chars(a), Chars(Spaces(n)), true);
    NoTrailingSpace(a + " ", b);
  }

  lemma CharsConcat(a: string, b: string, c: string)
    ensures Chars(a + b + c) == Chars(a) + Chars(b) + Chars(c)
  {
  }

  lemma NoTrailingSpace(a: string, b: string)
    requires b != "" && b[|b| - 1] != ' '
    ensures WithoutTrailingSpaces(a + b) == a + b
  {
  }

  // ---- What the nodes give ---------------------------------------------------------------

  /** The contents of the text nodes, one after the other. */
  function Contents(ns: seq<Node>): string {
    if ns == [] then ""
    else (if ns[0].kind.Text? then ns[0].kind.content else "") + Contents(ns[1..])
  }

  function BrCount(ns: seq<Node>): nat {
    if ns == [] then 0
    else (if ns[0].kind.Element? && ns[0].kind.tag == "BR" then 1 else 0) + BrCount(ns[1..])
  }

  lemma {:induction false} InkConcat(a: seq<Item>, b: seq<Item>)
    ensures InkOf(a + b) == InkOf(a) + InkOf(b) && Breaks(a + b) == Breaks(a) + Breaks(b)
    decreases |a|
  {
    if a == [] {
      assert a + b == b;
    } else {
      assert (a + b)[1..] == a[1..] + b;
      InkConcat(a[1..], b);
    }
  }

  lemma {:induction false} InkOfChars(s: string)
    ensures InkOf(Chars(s)) == Ink(s) && Breaks(Chars(s)) == 0
    decreases |s|
  {
    if s != "" {
      assert Chars(s)[1..] == Chars(s[1..]);
      InkOfChars(s[1..]);
    }
  }

  lemma {:induction false} InkOfText(a: string, b: string)
    ensures Ink(a + b) == Ink(a) + Ink(b)
    decreases |a|
  {
    if a == "" {
      assert a + b == b;
    } else {
      assert (a + b)[1..] == a[1..] + b;
      InkOfText(a[1..], b);
    }
  }

  lemma {:induction false} InkOfNodes(ns: seq<Node>)
    ensures InkOf(Items(ns)) == Ink(Contents(ns)) && Breaks(Items(ns)) == BrCount(ns)
    decreases |ns|
  {
    if ns != [] {
      var n := ns[0];
      InkOfNodes(ns[1..]);
      InkConcat(ItemsOf(n), Items(ns[1..]));
      InkOfText(if n.kind.Text? then n.kind.content else "", Contents(ns[1..]));
      if n.kind.Text? {
        InkOfChars(n.kind.content);
      }
      assert InkOf([Break]) == "" && Breaks([Break]) == 1 by {
        assert [Break][1..] == [];
      }
    }
  }

  /** The text has every character of the text nodes that is no whitespace, in order, and one
      newline for each BR element. */
  lemma {:induction false} TextHasTheInk(ns: seq<Node>)
    ensures Ink(TextOf(Items(ns))) == Ink(Contents(ns)) && Count(TextOf(Items(ns)), '\n') == BrCount(ns)
  {
    TextIsTidy(Items(ns));
    InkOfNodes(ns);
  }

  // ---- The two passes --------------------------------------------------------------------

  /** The character filter; its flag is carried across text nodes. */
  method Keep(c: char, lastBlank: bool) returns (keep: bool, isLastBlank: bool)
    ensures keep == Keeps(c, lastBlank) && isLastBlank == BlankAfter(c, lastBlank)
  {
    if IsSpace(c) && c != ' ' {
      return false, lastBlank;
    }
    if c == ' ' {
      return !lastBlank, true;
    }
    return true, false;
  }

  lemma CharStep(content: string, k: nat, blank: bool)
    requires k < |content|
    ensures Collapsed(Chars(content[k..]), blank)
         == (if Keeps(content[k], blank) then [content[k]] else "")
            + Collapsed(Chars(content[k + 1..]), BlankAfter(content[k], blank))
    ensures FlagAfter(Chars(content[k..]), blank) == FlagAfter(Chars(content[k + 1..]), BlankAfter(content[k], blank))
  {
    assert Chars(content[k..])[1..] == Chars(content[k + 1..]);
  }

  lemma NoChars(content: string, blank: bool)
    ensures Collapsed(Chars(content[|content|..]), blank) == "" && FlagAfter(Chars(content[|content|..]), blank) == blank
  {
  }

  method MeasureText(content: string, lastBlank: bool) returns (n: nat, isLastBlank: bool)
    ensures n == |Collapsed(Chars(content), lastBlank)|
    ensures isLastBlank == FlagAfter(Chars(content), lastBlank)
  {
    hide Collapsed, Keeps, BlankAfter, Chars, FlagAfter;
    n, isLastBlank := 0, lastBlank;
    var k := 0;
    assert content[0..] == content;
    while k < |content|
      invariant k <= |content|
      invariant n + |Collapsed(Chars(content[k..]), isLastBlank)| == |Collapsed(Chars(content), lastBlank)|
      invariant FlagAfter(Chars(content[k..]), isLastBlank) == FlagAfter(Chars(content), lastBlank)
    {
      CharStep(content, k, isLastBlank);
      var keep;
      keep, isLastBlank := Keep(content[k], isLastBlank);
      n := n + if keep then 1 else 0;
      k := k + 1;
    }
    NoChars(content, isLastBlank);
  }

  lemma NodeStep(n: Node, rest: seq<Node>, blank: bool)
    ensures Collapsed(Items([n] + rest), blank)
         == Collapsed(ItemsOf(n), blank) + Collapsed(Items(rest), FlagAfter(ItemsOf(n), blank))
    ensures Items([]) == [] && Collapsed([], blank) == ""
    ensures Collapsed([Break], blank) == "\n" && FlagAfter([Break], blank) == blank && FlagAfter([], blank) == blank
  {
    assert ([n] + rest)[1..] == rest;
    CollapsedConcat(ItemsOf(n), Items(rest), blank);
    assert [Break][1..] == [];
  }

  lemma NothingLeft(blank: bool)
    ensures Collapsed(Items([]), blank) == ""
  {
  }

  method Measure(root: Node, ghost t: Tree, ghost reach: set<Node>) returns (length: nat)
    requires Walkable(root, t, reach)
    ensures length == |Collapsed(Items(Below(root, t)), true)|
  {
    hide Collapsed, Items, Chars, Below, Walkable, Stands, Above, NodesOf, Dom.After, PreAll, FlagAfter;
    var walk := new NodeWalk(root, t, reach);
    length := 0;
    var blank := true;
    ghost var goal := |Collapsed(Items(Below(root, t)), true)|;
    while walk.node != null
      invariant fresh(walk) && walk.Valid()
      invariant length + |Collapsed(Items(walk.Left()), blank)| == goal
      decreases |walk.Left()|
    {
      var n: Node := walk.node;
      ghost var left := walk.Left();
      assert left == [n] + left[1..];
      NodeStep(n, left[1..], blank);
      match n.kind {
        case Element(tag, _) =>
          length := length + if tag == "BR" then 1 else 0;
        case Text(content) =>
          var kept;
          kept, blank := MeasureText(content, blank);
          length := length + kept;
        case Misc =>
      }
      walk.Next();
    }
    NothingLeft(blank);
  }

  /** Writes a text node's kept characters at `at`. */
  method FillText(content: string, lastBlank: bool, out: array<char>, at: nat) returns (end: nat, isLastBlank: bool)
    requires at + |Collapsed(Chars(content), lastBlank)| <= out.Length
    modifies out
    ensures end == at + |Collapsed(Chars(content), lastBlank)|
    ensures out[..end] == old(out[..at]) + Collapsed(Chars(content), lastBlank)
    ensures isLastBlank == FlagAfter(Chars(content), lastBlank)
  {
    hide Collapsed, Keeps, BlankAfter, Chars, FlagAfter;
    end, isLastBlank := at, lastBlank;
    var k := 0;
    assert content[0..] == content;
    ghost var goal := out[..at] + Collapsed(Chars(content), lastBlank);
    while k < |content|
      invariant k <= |content| && at <= end <= out.Length
      invariant out[..end] + Collapsed(Chars(content[k..]), isLastBlank) == goal
      invariant FlagAfter(Chars(content[k..]), isLastBlank) == FlagAfter(Chars(content), lastBlank)
    {
      CharStep(content, k, isLastBlank);
      assert |out[..end] + Collapsed(Chars(content[k..]), isLastBlank)| == |goal|;
      var keep;
      keep, isLastBlank := Keep(content[k], isLastBlank);
      if keep {
        ghost var before := out[..end];
        out[end] := content[k];
        end := end + 1;
        assert out[..end] == before + [content[k]];
      }
      k := k + 1;
    }
    NoChars(content, isLastBlank);
  }

  /** Writes what one node contributes at `at`. */
  method FillNode(n: Node, lastBlank: bool, out: array<char>, at: nat) returns (end: nat, isLastBlank: bool)
    requires at + |Collapsed(ItemsOf(n), lastBlank)| <= out.Length
    modifies out
    ensures end == at + |Collapsed(ItemsOf(n), lastBlank)|
    ensures out[..end] == old(out[..at]) + Collapsed(ItemsOf(n), lastBlank)
    ensures isLastBlank == FlagAfter(ItemsOf(n), lastBlank)
  {
    NodeStep(n, [], lastBlank);
    hide Collapsed, Chars, FlagAfter;
    end, isLastBlank := at, lastBlank;
    match n.kind {
      case Element(tag, _) =>
        if tag == "BR" {
          ghost var before := out[..end];
          out[end] := '\n';
          end := end + 1;
          assert out[..end] == before + "\n";
        }
      case Text(content) =>
        end, isLastBlank := FillText(content, lastBlank, out, at);
      case Misc =>
    }
  }

  lemma Regroup(a: string, b: string, c: string)
    ensures a + (b + c) == (a + b) + c
  {
  }

  method Fill(root: Node, ghost t: Tree, ghost reach: set<Node>, out: array<char>)
    requires Walkable(root, t, reach)
    requires out.Length == |Collapsed(Items(Below(root, t)), true)|
    modifies out
    ensures out[..] == Collapsed(Items(Below(root, t)), true)
  {
    hide Collapsed, Items, ItemsOf, Chars, Below, Walkable, Stands, Above, NodesOf, Dom.After, PreAll, FlagAfter;
    var walk := new NodeWalk(root, t, reach);
    var end: nat := 0;
    var blank := true;
    ghost var goal := Collapsed(Items(Below(root, t)), true);
    while walk.node != null
      invariant fresh(walk) && walk.Valid()
      invariant end <= out.Length && out[..end] + Collapsed(Items(walk.Left()), blank) == goal
      decreases |walk.Left()|
    {
      var n: Node := walk.node;
      ghost var left := walk.Left();
      assert left == [n] + left[1..];
      NodeStep(n, left[1..], blank);
      ghost var written, here := out[..end], Collapsed(ItemsOf(n), blank);
      assert |written + Collapsed(Items(left), blank)| == |goal|;
      end, blank := FillNode(n, blank, out, end);
      Regroup(written, here, Collapsed(Items(left[1..]), blank));
      walk.Next();
    }
    NothingLeft(blank);
    assert out[..end] == out[..];
  }

  /** text(): the filling pass writes exactly the characters the measuring pass counted. */
  method GetText(root: Node, ghost t: Tree, ghost reach: set<Node>) returns (s: string)
    requires Walkable(root, t, reach)
    ensures s == TextOf(Items(Below(root, t)))
  {
    var length := Measure(root, t, reach);
    var out := new char[length];
    Fill(root, t, reach, out);
    s := WithoutTrailingSpaces(out[..]);
  }
}
