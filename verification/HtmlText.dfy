/** from_html: flattening a DOM subtree into text with offset runs. */
module HtmlText {
  import opened Basics
  import opened Dom
  import opened HtmlColor

  datatype Style = Italic | Bold | Strikethrough

  datatype Mark = Hyperlink(href: string) | TextStyle(style: Style) | TextColor(color: Color)

  /** A mark on the text from start up to end. */
  datatype Run = Run(start: nat, end: nat, mark: Mark)

  datatype Flat = Flat(text: string, runs: seq<Run>)

  function StyleOf(tag: string): Option<Style> {
    if tag == "i" || tag == "em" then Some(Italic)
    else if tag == "b" || tag == "strong" then Some(Bold)
    else if tag == "s" || tag == "del" || tag == "strike" then Some(Strikethrough)
    else None
  }

  /** The marks of one inline element over its range: link, style, color. */
  function Marks(n: Node, start: nat, end: nat): (runs: seq<Run>)
    requires n.kind.Element?
    ensures forall r | r in runs :: r.start == start && r.end == end
  {
    var tag := Lowered(n.kind.tag);
    var href := GetAttr(n.kind.attrs, "href");
    (if tag == "a" && href.Some? && href.value != "" then [Run(start, end, Hyperlink(href.value))] else [])
    + (if StyleOf(tag).Some? then [Run(start, end, TextStyle(StyleOf(tag).value))] else [])
    + (if ColorOfElement(n).Some? then [Run(start, end, TextColor(ColorOfElement(n).value))] else [])
  }

  /** A newline unless the text is empty or already ends in one. */
  function LineBroken(text: string): string {
    if text != "" && text[|text| - 1] != '\n' then text + "\n" else text
  }

  /** A newline unless the text already ends in a blank line. */
  function BrBroken(text: string): string {
    var n := |text|;
    if n < 2 || text[n - 1] != '\n' || text[n - 2] != '\n' then text + "\n" else text
  }

  predicate IsBlock(tag: string) {
    tag == "p" || tag == "div" || tag == "li"
  }

  function Rendered(t: Tree, out: Flat): Flat
    decreases t, 1
  {
    match t.node.kind
    case Text(content) => out.(text := out.text + content)
    case Misc => out
    case Element(name, _) =>
      var tag := Lowered(name);
      if tag == "br" then out.(text := BrBroken(out.text))
      else if IsBlock(tag) then
        var inner := RenderedAll(t.kids, out.(text := LineBroken(out.text)));
        inner.(text := LineBroken(inner.text))
      else
        var inner := RenderedAll(t.kids, out);
        if |inner.text| <= |out.text| then inner
        else inner.(runs := inner.runs + Marks(t.node, |out.text|, |inner.text|))
  }

  function RenderedAll(ts: seq<Tree>, out: Flat): Flat
    decreases ts, 0
  {
    if ts == [] then out else RenderedAll(ts[1..], Rendered(ts[0], out))
  }

  // ---- The runs --------------------------------------------------------------------------

  predicate InBounds(r: Run, n: nat) {
    r.start < r.end <= n
  }

  predicate NestedOrDisjoint(a: Run, b: Run) {
    || a.end <= b.start || b.end <= a.start
    || (a.start <= b.start && b.end <= a.end)
    || (b.start <= a.start && a.end <= b.end)
  }

  /** The earlier run closes no later, and lies inside the later one or wholly before it. */
  predicate ClosesFirst(a: Run, b: Run) {
    a.end <= b.end && (a.end <= b.start || b.start <= a.start)
  }

  predicate WellFormed(out: Flat) {
    && (forall r | r in out.runs :: InBounds(r, |out.text|))
    && (forall i, j | 0 <= i < j < |out.runs| :: ClosesFirst(out.runs[i], out.runs[j]))
  }

  /** Rendering only adds: text at the end, and runs over the added text. */
  predicate Grows(a: Flat, b: Flat) {
    && a.text <= b.text && a.runs <= b.runs
    && forall k | |a.runs| <= k < |b.runs| :: b.runs[k].start >= |a.text|
  }

  lemma GrowsTransitive(a: Flat, b: Flat, c: Flat)
    requires Grows(a, b) && Grows(b, c)
    ensures Grows(a, c)
  {
    forall k | |a.runs| <= k < |c.runs| ensures c.runs[k].start >= |a.text| {
      if k < |b.runs| {
        assert c.runs[k] == b.runs[k];
      }
    }
  }

  lemma MoreText(a: Flat, text: string)
    requires WellFormed(a) && a.text <= text
    ensures WellFormed(a.(text := text)) && Grows(a, a.(text := text))
  {
  }

  /** Runs over all the text added since `a` close after every run added since. */
  lemma MoreRuns(a: Flat, b: Flat, marks: seq<Run>)
    requires WellFormed(a) && WellFormed(b) && Grows(a, b) && |a.text| < |b.text|
    requires forall r | r in marks :: r.start == |a.text| && r.end == |b.text|
    ensures WellFormed(b.(runs := b.runs + marks)) && Grows(a, b.(runs := b.runs + marks))
  {
    var c := b.(runs := b.runs + marks);
    forall i, j | 0 <= i < j < |c.runs| ensures ClosesFirst(c.runs[i], c.runs[j]) {
      if j >= |b.runs| {
        assert c.runs[j] in marks;
        if i >= |b.runs| {
          assert c.runs[i] in marks;
        } else if i < |a.runs| {
          assert c.runs[i] == a.runs[i] && a.runs[i] in a.runs;
        } else {
          assert c.runs[i] == b.runs[i] && b.runs[i] in b.runs;
        }
      }
    }
    assert forall r | r in c.runs :: r in b.runs || r in marks;
  }

  lemma {:induction false} RenderedIsWellFormed(t: Tree, out: Flat)
    requires WellFormed(out)
    ensures WellFormed(Rendered(t, out)) && Grows(out, Rendered(t, out))
    decreases t, 1
  {
    hide WellFormed, Grows, Marks;
    match t.node.kind {
      case Text(content) =>
        MoreText(out, out.text + content);
      case Misc =>
        MoreText(out, out.text);
      case Element(name, _) =>
        var tag := Lowered(name);
        if tag == "br" {
          MoreText(out, BrBroken(out.text));
        } else if IsBlock(tag) {
          var before := out.(text := LineBroken(out.text));
          MoreText(out, before.text);
          RenderedAllIsWellFormed(t.kids, before);
          var inner := RenderedAll(t.kids, before);
          MoreText(inner, LineBroken(inner.text));
          GrowsTransitive(out, before, inner);
          GrowsTransitive(out, inner, inner.(text := LineBroken(inner.text)));
        } else {
          RenderedAllIsWellFormed(t.kids, out);
          var inner := RenderedAll(t.kids, out);
          if |inner.text| > |out.text| {
            MoreRuns(out, inner, Marks(t.node, |out.text|, |inner.text|));
          }
        }
    }
  }

  lemma {:induction false} RenderedAllIsWellFormed(ts: seq<Tree>, out: Flat)
    requires WellFormed(out)
    ensures WellFormed(RenderedAll(ts, out)) && Grows(out, RenderedAll(ts, out))
    decreases ts, 0
  {
    hide WellFormed, Grows, Rendered;
    if ts == [] {
      MoreText(out, out.text);
    } else {
      var next := Rendered(ts[0], out);
      RenderedIsWellFormed(ts[0], out);
      RenderedAllIsWellFormed(ts[1..], next);
      GrowsTransitive(out, next, RenderedAll(ts[1..], next));
    }
  }

  const Empty: Flat := Flat("", [])

  /** Every run covers text that is there, and runs come in post-order: of any two, the
      earlier lies inside the later or wholly before it.  So any two are nested or disjoint. */
  lemma RunsAreNested(ts: seq<Tree>)
    ensures var out := RenderedAll(ts, Empty);
      && (forall r | r in out.runs :: 0 <= r.start < r.end <= |out.text|)
      && (forall i, j | 0 <= i < j < |out.runs| ::
            ClosesFirst(out.runs[i], out.runs[j]) && NestedOrDisjoint(out.runs[i], out.runs[j]))
  {
    RenderedAllIsWellFormed(ts, Empty);
  }

  // ---- The newlines ----------------------------------------------------------------------

  predicate NoThreeNewlines(s: string) {
    forall k | 0 <= k && k + 2 < |s| :: !(s[k] == '\n' && s[k + 1] == '\n' && s[k + 2] == '\n')
  }

  predicate OneLine(t: Tree)
    decreases t, 1
  {
    (t.node.kind.Text? ==> '\n' !in t.node.kind.content) && OneLineAll(t.kids)
  }

  predicate OneLineAll(ts: seq<Tree>)
    decreases ts, 0
  {
    ts != [] ==> OneLine(ts[0]) && OneLineAll(ts[1..])
  }

  lemma Appended(text: string, more: string)
    requires NoThreeNewlines(text)
    requires '\n' !in more || (more == "\n" && (|text| < 2 || text[|text| - 1] != '\n' || text[|text| - 2] != '\n'))
    ensures NoThreeNewlines(text + more)
  {
    var s := text + more;
    forall k | 0 <= k && k + 2 < |s| ensures !(s[k] == '\n' && s[k + 1] == '\n' && s[k + 2] == '\n') {
      if k + 2 >= |text| && '\n' !in more {
        assert s[k + 2] in more;
      }
    }
  }

  lemma {:induction false} NoThreeNewlinesRendered(t: Tree, out: Flat)
    requires OneLine(t) && NoThreeNewlines(out.text)
    ensures NoThreeNewlines(Rendered(t, out).text)
    decreases t, 1
  {
    hide NoThreeNewlines, Marks;
    match t.node.kind {
      case Text(content) =>
        Appended(out.text, content);
      case Misc =>
      case Element(name, _) =>
        var tag := Lowered(name);
        if tag == "br" {
          if BrBroken(out.text) != out.text {
            Appended(out.text, "\n");
          }
        } else {
          var before := if IsBlock(tag) then out.(text := LineBroken(out.text)) else out;
          if before.text != out.text {
            Appended(out.text, "\n");
          }
          NoThreeNewlinesRenderedAll(t.kids, before);
          var inner := RenderedAll(t.kids, before);
          if LineBroken(inner.text) != inner.text {
            Appended(inner.text, "\n");
          }
        }
    }
  }

  /** While no text node holds a newline, breaks and blocks never open more than one blank
      line. */
  lemma {:induction false} NoThreeNewlinesRenderedAll(ts: seq<Tree>, out: Flat)
    requires OneLineAll(ts) && NoThreeNewlines(out.text)
    ensures NoThreeNewlines(RenderedAll(ts, out).text)
    decreases ts, 0
  {
    hide NoThreeNewlines, Rendered;
    if ts != [] {
      NoThreeNewlinesRendered(ts[0], out);
      NoThreeNewlinesRenderedAll(ts[1..], Rendered(ts[0], out));
    }
  }

  // ---- What the elements add -------------------------------------------------------------

  function WithoutNewlines(s: string): string {
    if s == "" then "" else (if s[0] == '\n' then "" else [s[0]]) + WithoutNewlines(s[1..])
  }

  lemma {:induction false} WithoutNewlinesConcat(s: string, t: string)
    ensures WithoutNewlines(s + t) == WithoutNewlines(s) + WithoutNewlines(t)
    decreases |s|
  {
    if s == "" {
      assert s + t == t;
    } else {
      assert (s + t)[1..] == s[1..] + t;
      WithoutNewlinesConcat(s[1..], t);
    }
  }

  /** The contents of the text nodes in document order; nothing below a BR. */
  function TextBelow(t: Tree): string
    decreases t, 1
  {
    match t.node.kind
    case Text(content) => content
    case Misc => ""
    case Element(name, _) => if SameLetters(name, "br") then "" else TextBelowAll(t.kids)
  }

  function TextBelowAll(ts: seq<Tree>): string
    decreases ts, 0
  {
    if ts == [] then "" else TextBelow(ts[0]) + TextBelowAll(ts[1..])
  }

  lemma LineBrokenKeeps(text: string)
    ensures WithoutNewlines(LineBroken(text)) == WithoutNewlines(BrBroken(text)) == WithoutNewlines(text)
  {
    WithoutNewlinesConcat(text, "\n");
  }

  lemma {:induction false} RenderedKeepsText(t: Tree, out: Flat)
    ensures WithoutNewlines(Rendered(t, out).text) == WithoutNewlines(out.text) + WithoutNewlines(TextBelow(t))
    decreases t, 1
  {
    hide WithoutNewlines, Marks, Lowered, SameLetters;
    NothingWithout();
    match t.node.kind {
      case Text(content) =>
        WithoutNewlinesConcat(out.text, content);
      case Misc =>
      case Element(name, _) =>
        LoweredIsSame(name, "br");
        LoweredTags();
        if !SameLetters(name, "br") {
          var before := if IsBlock(Lowered(name)) then out.(text := LineBroken(out.text)) else out;
          RenderedAllKeepsText(t.kids, before);
          LineBrokenKeeps(RenderedAll(t.kids, before).text);
        }
        LineBrokenKeeps(out.text);
    }
  }

  lemma NothingWithout()
    ensures WithoutNewlines("") == "" && forall s: string :: s + "" == s
  {
  }

  lemma LoweredTags()
    ensures Lowered("br") == "br" && Lowered("p") == "p" && Lowered("div") == "div" && Lowered("li") == "li"
    ensures Lowered("a") == "a" && Lowered("i") == "i" && Lowered("em") == "em" && Lowered("b") == "b"
    ensures Lowered("strong") == "strong" && Lowered("s") == "s" && Lowered("del") == "del" && Lowered("strike") == "strike"
  {
  }

  /** Newlines aside, the text is that of the text nodes, in document order and complete. */
  lemma {:induction false} RenderedAllKeepsText(ts: seq<Tree>, out: Flat)
    ensures WithoutNewlines(RenderedAll(ts, out).text) == WithoutNewlines(out.text) + WithoutNewlines(TextBelowAll(ts))
    decreases ts, 0
  {
    hide WithoutNewlines, Rendered;
    NothingWithout();
    if ts != [] {
      RenderedKeepsText(ts[0], out);
      RenderedAllKeepsText(ts[1..], Rendered(ts[0], out));
      WithoutNewlinesConcat(TextBelow(ts[0]), TextBelowAll(ts[1..]));
    }
  }

  /** A BR adds a newline unless the text ends in a blank line, and nothing else. */
  lemma BrAdds(t: Tree, out: Flat)
    requires t.node.kind.Element? && SameLetters(t.node.kind.tag, "br")
    ensures var n := |out.text|;
      Rendered(t, out) == if n >= 2 && out.text[n - 2..] == "\n\n" then out else Flat(out.text + "\n", out.runs)
  {
    hide Lowered, SameLetters, Marks;
    LoweredIsSame(t.node.kind.tag, "br");
    LoweredTags();
    var n := |out.text|;
    assert n >= 2 ==> out.text[n - 2..] == [out.text[n - 2], out.text[n - 1]];
  }

  /** Paragraphs, divisions and list items start a line of their own and end it; their marks, if
      any, come from what is below them. */
  lemma BlockAdds(t: Tree, out: Flat)
    requires t.node.kind.Element?
    requires var tag := t.node.kind.tag; SameLetters(tag, "p") || SameLetters(tag, "div") || SameLetters(tag, "li")
    ensures var n := |out.text|;
      var inner := RenderedAll(t.kids, if n > 0 && out.text[n - 1] != '\n' then Flat(out.text + "\n", out.runs) else out);
      var m := |inner.text|;
      Rendered(t, out) == if m > 0 && inner.text[m - 1] != '\n' then Flat(inner.text + "\n", inner.runs) else inner
  {
    hide Lowered, SameLetters, Marks;
    var tag := t.node.kind.tag;
    LoweredIsSame(tag, "p");
    LoweredIsSame(tag, "div");
    LoweredIsSame(tag, "li");
    LoweredTags();
  }

  /** Every other element adds no text of its own, and marks over what is below it when that
      is not empty. */
  lemma InlineAdds(t: Tree, out: Flat)
    requires t.node.kind.Element?
    requires var tag := t.node.kind.tag;
      !SameLetters(tag, "br") && !SameLetters(tag, "p") && !SameLetters(tag, "div") && !SameLetters(tag, "li")
    ensures var inner, r := RenderedAll(t.kids, out), Rendered(t, out);
      && r.text == inner.text
      && (|inner.text| > |out.text| ==> r.runs == inner.runs + Marks(t.node, |out.text|, |inner.text|))
      && (|inner.text| <= |out.text| ==> r.runs == inner.runs)
  {
    hide Lowered, SameLetters, Marks;
    var tag := t.node.kind.tag;
    LoweredIsSame(tag, "br");
    LoweredIsSame(tag, "p");
    LoweredIsSame(tag, "div");
    LoweredIsSame(tag, "li");
    LoweredTags();
  }

  /** Which style a tag gives. */
  predicate Gives(tag: string, style: Style) {
    match style
    case Italic => SameLetters(tag, "i") || SameLetters(tag, "em")
    case Bold => SameLetters(tag, "b") || SameLetters(tag, "strong")
    case Strikethrough => SameLetters(tag, "s") || SameLetters(tag, "del") || SameLetters(tag, "strike")
  }

  lemma StyleIsGiven(tag: string, style: Style)
    ensures StyleOf(Lowered(tag)) == Some(style) <==> Gives(tag, style)
  {
    hide Lowered, SameLetters;
    LoweredTags();
    LoweredIsSame(tag, "i");
    LoweredIsSame(tag, "em");
    LoweredIsSame(tag, "b");
    LoweredIsSame(tag, "strong");
    LoweredIsSame(tag, "s");
    LoweredIsSame(tag, "del");
    LoweredIsSame(tag, "strike");
  }

  /** Which marks an element puts on its range: the link of an anchor that has one, the style
      of its tag, the color it declares; at most one of a kind, in this order. */
  lemma MarksAre(n: Node, start: nat, end: nat, mark: Mark)
    requires n.kind.Element?
    ensures Run(start, end, mark) in Marks(n, start, end) <==>
      match mark
      case Hyperlink(href) => SameLetters(n.kind.tag, "a") && href != "" && GetAttr(n.kind.attrs, "href") == Some(href)
      case TextStyle(style) => Gives(n.kind.tag, style)
      case TextColor(color) => DeclaredColor(n.kind.attrs) == Some(color)
    ensures var runs := Marks(n, start, end);
      forall i, j | 0 <= i < j < |runs| :: Order(runs[i].mark) < Order(runs[j].mark)
  {
    hide Lowered, SameLetters, StyleOf, Gives, GetAttr, DeclaredColor;
    var tag := n.kind.tag;
    LoweredTags();
    LoweredIsSame(tag, "a");
    if mark.TextStyle? {
      StyleIsGiven(tag, mark.style);
    }
  }

  function Order(mark: Mark): nat {
    match mark
    case Hyperlink(_) => 0
    case TextStyle(_) => 1
    case TextColor(_) => 2
  }

  // ---- The final trim --------------------------------------------------------------------

  predicate IsBlank(c: char) {
    c == '\n' || c == ' ' || c == '\t'
  }

  function Tidied(text: string): (t: string)
    ensures t <= text
    ensures t == "" || !IsBlank(t[|t| - 1])
    ensures forall k | |t| <= k < |text| :: IsBlank(text[k])
  {
    if text != "" && IsBlank(text[|text| - 1]) then Tidied(text[..|text| - 1]) else text
  }

  /** Newlines, spaces and tabs at the end go, and nothing else. */
  lemma {:induction false} TidiedIs(text: string, rest: string)
    requires text == "" || (var last := text[|text| - 1]; last != '\n' && last != ' ' && last != '\t')
    requires forall k | 0 <= k < |rest| :: rest[k] == '\n' || rest[k] == ' ' || rest[k] == '\t'
    ensures Tidied(text + rest) == text
    decreases |rest|
  {
    var s := text + rest;
    if rest == "" {
      assert s == text;
    } else {
      var n := |rest| - 1;
      assert s[|s| - 1] == rest[n] && s[..|s| - 1] == text + rest[..n];
      TidiedIs(text, rest[..n]);
    }
  }

  /** After the trim a run still lies within the text exactly when some character from its
      last one on is not blank. */
  lemma TrimKeepsRun(text: string, r: Run)
    requires InBounds(r, |text|)
    ensures InBounds(r, |Tidied(text)|) <==> exists k | r.end - 1 <= k < |text| :: !IsBlank(text[k])
  {
    var t := Tidied(text);
    if r.end <= |t| {
      assert !IsBlank(text[|t| - 1]);
    }
  }

  /** A run can end behind the trimmed text. */
  lemma TrimCutsRun(bold: Node, inner: Node)
    requires bold.kind == Element("B", []) && inner.kind == Text("a ")
    ensures var out := RenderedAll([Tree(bold, [Tree(inner, [])])], Empty);
      out == Flat("a ", [Run(0, 2, TextStyle(Bold))]) && Tidied(out.text) == "a"
  {
    var kid := Tree(inner, []);
    assert [kid][1..] == [];
    assert Lowered("B") == "b";
    assert Rendered(kid, Empty) == Flat("a ", []);
    assert RenderedAll([kid], Empty) == Flat("a ", []);
    assert Marks(bold, 0, 2) == [Run(0, 2, TextStyle(Bold))];
    assert [Tree(bold, [kid])][1..] == [];
    assert "a "[..1] == "a";
  }

  // ---- The recursion itself --------------------------------------------------------------

  class AttributedText {
    var text: string
    var attributes: seq<Run>

    constructor ()
      ensures Now() == Empty
    {
      text, attributes := "", [];
    }

    ghost function Now(): Flat
      reads this
    {
      Flat(text, attributes)
    }
  }

  method BreakLine(out: AttributedText)
    modifies out
    ensures out.text == LineBroken(old(out.text)) && out.attributes == old(out.attributes)
  {
    if out.text != "" && out.text[|out.text| - 1] != '\n' {
      out.text := out.text + "\n";
    }
  }

  method Walk(node: Node, out: AttributedText, ghost t: Tree, ghost reach: set<Node>)
    requires t.node == node && Rooted(t) && NodesOf(t) <= reach
    modifies out
    ensures out.Now() == RenderedAll(t.kids, old(out.Now()))
    decreases t, 0
  {
    var child := node.first;
    ghost var i := 0;
    assert t.kids[0..] == t.kids;
    while child != null
      invariant i <= |t.kids| && child == Head(t.kids[i..])
      invariant Siblings(node, t.kids[i..]) && NodesOfAll(t.kids[i..]) <= reach
      invariant RenderedAll(t.kids[i..], out.Now()) == RenderedAll(t.kids, old(out.Now()))
      decreases |t.kids| - i
    {
      ghost var kid := t.kids[i];
      assert t.kids[i..][1..] == t.kids[i + 1..] && t.kids[i..][0] == kid;
      SiblingsSplit(node, t.kids[i..]);
      Visit(child, out, kid, reach);
      child := child.next;
      i := i + 1;
    }
  }

  method Visit(child: Node, out: AttributedText, ghost t: Tree, ghost reach: set<Node>)
    requires t.node == child && Rooted(t) && NodesOf(t) <= reach
    modifies out
    ensures out.Now() == Rendered(t, old(out.Now()))
    decreases t, 1
  {
    match child.kind {
      case Text(content) =>
        out.text := out.text + content;
      case Misc =>
      case Element(name, attrs) =>
        var tag := Lowered(name);
        if tag == "br" {
          var n := |out.text|;
          if n < 2 || out.text[n - 1] != '\n' || out.text[n - 2] != '\n' {
            out.text := out.text + "\n";
          }
          return;
        }
        if tag == "p" || tag == "div" || tag == "li" {
          BreakLine(out);
          Walk(child, out, t, reach);
          BreakLine(out);
          return;
        }
        var start := |out.text|;
        Walk(child, out, t, reach);
        var end := |out.text|;
        if end <= start {
          return;
        }
        AddMarks(child, start, end, out);
    }
  }

  /** Adds the runs that an element puts on its range. */
  method AddMarks(element: Node, start: nat, end: nat, out: AttributedText)
    requires element.kind.Element?
    modifies out
    ensures out.text == old(out.text) && out.attributes == old(out.attributes) + Marks(element, start, end)
  {
    hide DeclaredColor, GetAttr, StyleOf;
    var tag, attrs := Lowered(element.kind.tag), element.kind.attrs;
    if tag == "a" {
      var href := GetAttr(attrs, "href");
      if href.Some? && href.value != "" {
        out.attributes := out.attributes + [Run(start, end, Hyperlink(href.value))];
      }
    }
    if StyleOf(tag).Some? {
      out.attributes := out.attributes + [Run(start, end, TextStyle(StyleOf(tag).value))];
    }
    var color := ColorOf(attrs);
    if color.Some? {
      out.attributes := out.attributes + [Run(start, end, TextColor(color.value))];
    }
  }

  /** from_html on an element. */
  method FromHtml(element: Node, ghost t: Tree, ghost reach: set<Node>) returns (out: Flat)
    requires t.node == element && Rooted(t) && NodesOf(t) <= reach
    ensures var flat := RenderedAll(t.kids, Empty); out == flat.(text := Tidied(flat.text))
  {
    var builder := new AttributedText();
    Walk(element, builder, t, reach);
    out := Flat(Tidied(builder.text), builder.attributes);
  }
}
