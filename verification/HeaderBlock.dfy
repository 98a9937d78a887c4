/** Header lines and header blocks: writing headers out and reading them back. */
module HeaderBlock {
  import opened Basics
  import opened Headers

  predicate IsBlank(c: char) {
    c == ' ' || c == '\t'
  }

  function TrimmedLeft(s: string): (t: string)
    ensures t == "" || !IsBlank(t[0])
    ensures |t| <= |s| && t == s[|s| - |t|..]
  {
    if s != "" && IsBlank(s[0]) then TrimmedLeft(s[1..]) else s
  }

  function TrimmedRight(s: string): (t: string)
    ensures t == "" || !IsBlank(t[|t| - 1])
    ensures t <= s
  {
    if s != "" && IsBlank(s[|s| - 1]) then TrimmedRight(s[..|s| - 1]) else s
  }

  function WithoutReturn(line: string): string {
    if line != "" && line[|line| - 1] == '\r' then line[..|line| - 1] else line
  }

  function Trimmed(s: string): string {
    TrimmedRight(TrimmedLeft(s))
  }

  /** The header on one line, if it has a name and a colon. */
  function HeaderOn(line: string): Entries {
    HeaderFrom(WithoutReturn(line))
  }

  function HeaderFrom(text: string): Entries {
    var colon := IndexOf(text, ':');
    if colon == |text| || colon == 0 then [] else [Header(text[..colon], Trimmed(text[colon + 1..]))]
  }

  function Parsed(block: string): Entries
    decreases |block|
  {
    if block == "" then []
    else
      var eol := IndexOf(block, '\n');
      HeaderOn(block[..eol]) + Parsed(if eol == |block| then "" else block[eol + 1..])
  }

  function HeaderLine(h: Header): string {
    h.name + ": " + h.value
  }

  /** The header lines, each ended as on the wire. */
  function Block(h: Entries): string {
    if h == [] then "" else HeaderLine(h[0]) + "\r\n" + Block(h[1..])
  }

  /** A header that one line can carry: a name without colon or newline, a value without
      newline or outer blanks. */
  predicate Clean(h: Header) {
    && h.name != "" && ':' !in h.name && '\n' !in h.name && '\n' !in h.value
    && (h.value != "" ==> !IsBlank(h.value[0]) && !IsBlank(h.value[|h.value| - 1]))
  }

  predicate AllClean(h: Entries) {
    forall e | e in h :: Clean(e)
  }

  // ---- Reading back what was written -----------------------------------------------------

  lemma NothingToTrim(value: string)
    requires value != "" ==> !IsBlank(value[0]) && !IsBlank(value[|value| - 1])
    ensures TrimmedLeft(value) == value && TrimmedRight(value) == value
  {
  }

  lemma BlankIsTrimmed(value: string)
    ensures TrimmedLeft(" " + value) == TrimmedLeft(value)
  {
    assert (" " + value)[1..] == value;
  }

  lemma Untrimmed(value: string)
    requires value != "" ==> !IsBlank(value[0]) && !IsBlank(value[|value| - 1])
    ensures TrimmedRight(TrimmedLeft(" " + value)) == value
  {
    hide TrimmedLeft, TrimmedRight;
    BlankIsTrimmed(value);
    NothingToTrim(value);
  }

  lemma {:induction false} CleanLine(h: Header)
    requires Clean(h)
    ensures HeaderOn(HeaderLine(h) + "\r") == [h]
  {
    var text := HeaderLine(h);
    assert WithoutReturn(text + "\r") == text;
    assert text == h.name + [':'] + (" " + h.value);
    IndexAfter(h.name, ':', " " + h.value);
    hide IndexOf, TrimmedLeft, TrimmedRight;
    Untrimmed(h.value);
  }

  lemma LineHasNoNewline(h: Header)
    requires Clean(h)
    ensures '\n' !in HeaderLine(h) + "\r"
  {
    assert forall c | c in HeaderLine(h) + "\r" :: c in h.name || c == ':' || c == ' ' || c in h.value || c == '\r';
  }

  lemma {:induction false} ParsedBlock(h: Entries)
    requires AllClean(h)
    ensures Parsed(Block(h)) == h
    decreases |h|
  {
    hide Parsed, HeaderOn, HeaderLine, Clean, IndexOf;
    if h == [] {
      NothingParsed();
    } else {
      assert h[0] in h && forall e | e in h[1..] :: e in h;
      ParsedBlock(h[1..]);
      var line := HeaderLine(h[0]) + "\r";
      LineHasNoNewline(h[0]);
      assert HeaderLine(h[0]) + "\r\n" + Block(h[1..]) == line + "\n" + Block(h[1..]);
      IndexAfter(line, '\n', Block(h[1..]));
      ParsedStep(line + ['\n'] + Block(h[1..]));
      CleanLine(h[0]);
    }
  }

  lemma NothingParsed()
    ensures Parsed("") == []
  {
  }

  lemma {:induction false} HeaderOnIsClean(line: string)
    requires '\n' !in line
    ensures AllClean(HeaderOn(line))
  {
    hide IndexOf, TrimmedLeft, TrimmedRight;
    var text := WithoutReturn(line);
    var colon := IndexOf(text, ':');
    if 0 < colon < |text| {
      var name, left := text[..colon], TrimmedLeft(text[colon + 1..]);
      var value := TrimmedRight(left);
      assert '\n' !in text && '\n' !in left && '\n' !in value;
      assert value != "" ==> value[0] == left[0];
      assert Clean(Header(name, value));
    }
  }

  /** Nothing but clean headers is ever read, whatever the block holds. */
  lemma {:induction false} ParsedIsClean(block: string)
    ensures AllClean(Parsed(block))
    decreases |block|
  {
    if block == "" {
      NothingParsed();
    } else {
      ParsedStep(block);
      hide Parsed, HeaderOn, Clean;
      var eol := IndexOf(block, '\n');
      ParsedIsClean(if eol == |block| then "" else block[eol + 1..]);
      HeaderOnIsClean(block[..eol]);
    }
  }

  /** Reading back inverts writing exactly on clean headers. */
  lemma ParsedInvertsBlock(h: Entries)
    ensures Parsed(Block(h)) == h <==> AllClean(h)
  {
    if AllClean(h) {
      ParsedBlock(h);
    }
    ParsedIsClean(Block(h));
  }

  // ---- What a line says ------------------------------------------------------------------

  predicate Padding(s: string) {
    forall k | 0 <= k < |s| :: s[k] == ' ' || s[k] == '\t'
  }

  lemma {:induction false} LeftIs(left: string, s: string)
    requires Padding(left) && (s != "" ==> !IsBlank(s[0]))
    ensures TrimmedLeft(left + s) == s
    decreases |left|
  {
    if left == "" {
      assert left + s == s;
    } else {
      assert (left + s)[1..] == left[1..] + s;
      LeftIs(left[1..], s);
    }
  }

  lemma {:induction false} RightIs(s: string, right: string)
    requires Padding(right) && (s != "" ==> !IsBlank(s[|s| - 1]))
    ensures TrimmedRight(s + right) == s
    decreases |right|
  {
    if right == "" {
      assert s + right == s;
    } else {
      var n := |right| - 1;
      assert (s + right)[..|s + right| - 1] == s + right[..n];
      RightIs(s, right[..n]);
    }
  }

  lemma TrimmedIs(left: string, s: string, right: string)
    requires Padding(left) && Padding(right) && (s != "" ==> !IsBlank(s[0]) && !IsBlank(s[|s| - 1]))
    ensures Trimmed(left + s + right) == s
  {
    hide TrimmedLeft, TrimmedRight;
    if s == "" {
      assert left + s + right == (left + right) + "";
      LeftIs(left + right, "");
    } else {
      assert left + s + right == left + (s + right);
      LeftIs(left, s + right);
    }
    RightIs(s, if s == "" then "" else right);
    assert s + "" == s;
  }

  /** A line is a name, a colon and a value, with or without spaces and tabs around the value
      and a carriage return at the end. */
  lemma LineIsRead(name: string, left: string, value: string, right: string, end: string)
    requires name != "" && ':' !in name && Padding(left) && Padding(right) && end in ["", "\r"]
    requires value != "" ==> value[0] != ' ' && value[0] != '\t' && value[|value| - 1] !in " \t\r"
    ensures HeaderOn(name + ":" + left + value + right + end) == [Header(name, value)]
  {
    hide IndexOf, Trimmed;
    var text := name + [':'] + (left + value + right);
    assert name + ":" + left + value + right + end == text + end;
    assert text[|text| - 1] != '\r';
    assert WithoutReturn(text + end) == text;
    IndexAfter(name, ':', left + value + right);
    TrimmedIs(left, value, right);
  }

  /** A line without a colon, or without a name before it, is skipped. */
  lemma LineIsSkipped(line: string)
    requires ':' !in line || line[0] == ':'
    ensures HeaderOn(line) == []
  {
    var text := WithoutReturn(line);
    assert line != "" && |text| < |line| ==> line[|line| - 1] == '\r';
    var colon := IndexOf(text, ':');
    assert colon < |text| ==> text[colon] in line;
  }

  // ---- The loops -------------------------------------------------------------------------

  method ToHeaderLines(h: Entries) returns (lines: seq<string>)
    ensures |lines| == |h| && forall k | 0 <= k < |h| :: lines[k] == h[k].name + ": " + h[k].value
  {
    lines := [];
    for i := 0 to |h|
      invariant |lines| == i && forall k | 0 <= k < i :: lines[k] == h[k].name + ": " + h[k].value
    {
      lines := lines + [h[i].name + ": " + h[i].value];
    }
  }

  lemma ParsedStep(block: string)
    requires block != ""
    ensures var eol := IndexOf(block, '\n');
      Parsed(block) == HeaderOn(block[..eol]) + Parsed(if eol == |block| then "" else block[eol + 1..])
  {
  }

  lemma {:induction false} ParsedAt(block: string, pos: nat)
    requires pos < |block|
    ensures var eol := pos + IndexOf(block[pos..], '\n');
      && eol <= |block|
      && Parsed(block[pos..]) == HeaderOn(block[pos..eol]) + Parsed(block[if eol == |block| then eol else eol + 1..])
  {
    hide IndexOf, HeaderOn, Parsed;
    var rest := block[pos..];
    ParsedStep(rest);
    var k := IndexOf(rest, '\n');
    assert rest[..k] == block[pos..pos + k];
    assert k < |rest| ==> rest[k + 1..] == block[pos + k + 1..];
    assert block[|block|..] == "";
  }

  method ParseHeader(raw: string) returns (h: Entries)
    ensures h == HeaderOn(raw)
  {
    hide IndexOf, Trimmed;
    var line := raw;
    if line != "" && line[|line| - 1] == '\r' {
      line := line[..|line| - 1];
    }
    assert line == WithoutReturn(raw) && line[0..] == line;
    hide WithoutReturn;
    var colon := Find(line, ':', 0);
    if colon == |line| || colon == 0 {
      return [];
    }
    h := [Header(line[..colon], Trimmed(line[colon + 1..]))];
  }

  method ParseHeaderBlock(block: string) returns (h: Entries)
    ensures h == Parsed(block)
  {
    NothingParsed();
    hide Parsed, HeaderOn, IndexOf;
    h := [];
    var pos := 0;
    assert block[0..] == block;
    while pos < |block|
      invariant pos <= |block|
      invariant h + Parsed(block[pos..]) == Parsed(block)
    {
      ParsedAt(block, pos);
      var eol := Find(block, '\n', pos);
      var found := ParseHeader(block[pos..eol]);
      h := h + found;
      pos := if eol == |block| then eol else eol + 1;
    }
    assert block[pos..] == "" && h + [] == h;
  }
}
