/** scan_json_var: finding the literal that a script assigns to a variable. */
module JsVar {
  import opened Basics
  import opened JsLexer
  import opened JsBalance

  predicate IsIdentChar(c: char) {
    '0' <= c <= '9' || 'A' <= c <= 'Z' || 'a' <= c <= 'z' || c == '_' || c == '$'
  }

  predicate IsSpace(c: char) {
    c == ' ' || c == '\t' || c == '\n' || c == '\r' || c == '\U{0B}' || c == '\U{0C}'
  }

  predicate Occurs(name: string, text: string, p: nat) {
    p + |name| <= |text| && text[p..p + |name|] == name
  }

  /** The occurrence from p to `end` is not part of a longer identifier. */
  predicate IsWhole(text: string, p: nat, end: nat)
    requires p <= end <= |text|
  {
    (p > 0 ==> !IsIdentChar(text[p - 1])) && (end < |text| ==> !IsIdentChar(text[end]))
  }

  /** Behind the name, and behind its closing quote when it is a quoted key. */
  function AfterKey(text: string, p: nat, end: nat): (e: nat)
    requires p <= end <= |text|
    ensures end <= e <= |text|
  {
    if p > 0 && (text[p - 1] == '"' || text[p - 1] == '\'') && end < |text| && text[end] == text[p - 1]
    then end + 1 else end
  }

  predicate SpaceAt(text: string, k: nat) {
    k < |text| && IsSpace(text[k])
  }

  predicate Blank(text: string, lo: nat, hi: nat) {
    forall k | lo <= k < hi :: SpaceAt(text, k)
  }

  /** `=` or `:`, but neither comparison nor arrow. */
  predicate IsSeparator(text: string, c: nat)
    requires c < |text|
  {
    text[c] == ':' || (text[c] == '=' && (c + 1 < |text| ==> text[c + 1] != '=' && text[c + 1] != '>'))
  }

  /** Between the key's end e and the value's opening bracket i lies one separator at c and
      otherwise only space. */
  predicate Assigns(text: string, e: nat, c: nat, i: nat) {
    e <= c < i < |text| && Blank(text, e, c) && IsSeparator(text, c) && Blank(text, c + 1, i) && IsOpener(text[i])
  }

  ghost predicate IsValueOf(text: string, e: nat, i: nat) {
    exists c: nat :: Assigns(text, e, c, i)
  }

  /** The literal of length n at i is what the occurrence of the name at p is given. */
  ghost predicate Defines(name: string, text: string, p: nat, i: nat, n: nat) {
    && Occurs(name, text, p) && IsWhole(text, p, p + |name|)
    && IsValueOf(text, AfterKey(text, p, p + |name|), i)
    && LiteralAt(text, i, n)
  }

  ghost predicate DefinedAt(name: string, text: string, p: nat) {
    exists i: nat, n: nat :: Defines(name, text, p, i, n)
  }

  /** Where two occurrences of the name can overlap, the second is preceded by a character of
      an identifier. */
  ghost predicate OverlapsInsideIdentifiers(name: string) {
    forall k: nat | OverlapsItself(name, k) :: IsIdentChar(name[k - 1])
  }

  /** Shifted by k, the name fits over its own beginning. */
  predicate OverlapsItself(name: string, k: nat) {
    0 < k < |name| && name[k..] == name[..|name| - k]
  }

  lemma IdentifierOverlaps(name: string)
    requires forall c | c in name :: IsIdentChar(c)
    ensures OverlapsInsideIdentifiers(name)
  {
  }

  /** An occurrence that overlaps an earlier one is never a whole identifier. */
  lemma OverlapIsNotWhole(name: string, text: string, p: nat, q: nat)
    requires OverlapsInsideIdentifiers(name)
    requires Occurs(name, text, p) && Occurs(name, text, q) && p < q < p + |name|
    ensures !IsWhole(text, q, q + |name|)
  {
    var k := q - p;
    assert name[k..] == text[q..p + |name|] == name[..|name| - k] by {
      assert text[p..p + |name|][k..] == text[q..p + |name|];
      assert text[q..q + |name|][..|name| - k] == text[q..p + |name|];
    }
    assert OverlapsItself(name, k);
    assert text[q - 1] == text[p..p + |name|][k - 1] == name[k - 1];
  }

  /** The value's place is settled by the text: one separator, one opening bracket. */
  lemma AssignsOnce(text: string, e: nat, c: nat, i: nat, d: nat, j: nat)
    requires Assigns(text, e, c, i) && Assigns(text, e, d, j)
    ensures c == d && i == j
  {
    assert c < d ==> SpaceAt(text, c);
    assert d < c ==> SpaceAt(text, d);
    assert i < j ==> SpaceAt(text, i);
    assert j < i ==> SpaceAt(text, j);
  }

  // ---- What a definition looks like ------------------------------------------------------

  /** A definition cut into its parts; `quote` is empty or stands on both sides of the name. */
  datatype Spelling = Spelling(
    before: string, quote: string, gap: string, separator: char, space: string, value: string, rest: string)

  function Key(d: Spelling, name: string): string {
    d.before + d.quote + name + d.quote
  }

  function Assigned(d: Spelling): string {
    d.gap + [d.separator] + d.space + d.value + d.rest
  }

  function Spelled(d: Spelling, name: string): string {
    Key(d, name) + Assigned(d)
  }

  const SPACES: string := " \t\n\r\U{0B}\U{0C}"

  /** A letter, a digit, an underscore or a dollar sign. */
  predicate Joins(c: char) {
    'a' <= c <= 'z' || 'A' <= c <= 'Z' || '0' <= c <= '9' || c in "_$"
  }

  ghost predicate IsDefinition(d: Spelling) {
    && d.quote in ["", "\"", "'"]
    && (d.quote == "" && d.before != "" ==> !Joins(d.before[|d.before| - 1]))
    && (forall c | c in d.gap + d.space :: c in SPACES)
    && d.separator in "=:"
    && d.value != "" && d.value[0] in "{[" && IsLiteral(d.value)
  }

  ghost predicate SpelledAt(d: Spelling, name: string, text: string, p: nat) {
    IsDefinition(d) && text == Spelled(d, name) && p == |d.before + d.quote|
  }

  lemma SpaceIs(c: char)
    ensures IsSpace(c) <==> c in SPACES
  {
    assert SPACES == [' ', '\t', '\n', '\r', '\U{0B}', '\U{0C}'];
  }

  lemma PartsOfKey(d: Spelling, name: string)
    ensures var key, p := Key(d, name), |d.before + d.quote|;
      && p + |name + d.quote| == |key| && key[p..p + |name|] == name
      && (forall k | 0 <= k < |d.before| :: key[k] == d.before[k])
      && (forall k | 0 <= k < |d.quote| :: key[|d.before| + k] == key[p + |name| + k] == d.quote[k])
  {
  }

  lemma PartsOfAssigned(d: Spelling)
    ensures var text, c := Assigned(d), |d.gap|; var i := c + 1 + |d.space|;
      && i + |d.value| + |d.rest| == |text| && text[i..i + |d.value|] == d.value
      && (forall k | 0 <= k < c :: text[k] == d.gap[k]) && text[c] == d.separator
      && (forall k | 0 <= k < |d.space| :: text[c + 1 + k] == d.space[k])
  {
  }

  /** The text falls into key and value. */
  lemma PartsOf(d: Spelling, name: string)
    ensures var text, key, tail := Spelled(d, name), Key(d, name), Assigned(d);
      && |text| == |key| + |tail|
      && (forall k | 0 <= k < |key| :: text[k] == key[k])
      && (forall k | 0 <= k < |tail| :: text[|key| + k] == tail[k])
  {
  }

  /** The value as the text would begin with it. */
  lemma AssignedAssigns(d: Spelling)
    requires IsDefinition(d)
    ensures Assigns(Assigned(d), 0, |d.gap|, |d.gap| + 1 + |d.space|)
  {
    hide IsLiteral, IsSpace;
    var text, c := Assigned(d), |d.gap|;
    var i := c + 1 + |d.space|;
    PartsOfAssigned(d);
    hide Assigned;
    forall k: nat | k < c || c < k < i ensures SpaceAt(text, k) {
      assert c < k ==> text[c + 1 + (k - c - 1)] == d.space[k - c - 1];
      assert text[k] in d.gap + d.space;
      SpaceIs(text[k]);
    }
    SpaceIs('=');
    SpaceIs('>');
    assert text[i] == text[i..i + |d.value|][0] == d.value[0];
    assert c + 1 < i ==> SpaceAt(text, c + 1);
  }

  lemma AssignsBehind(text: string, e: nat, key: string, tail: string, c: nat, i: nat)
    requires text == key + tail && e == |key| && Assigns(tail, 0, c, i)
    ensures Assigns(text, e, e + c, e + i)
  {
    hide IsSpace;
    assert forall k | 0 <= k < |tail| :: text[e + k] == tail[k];
    forall k: nat | e <= k < e + c || e + c < k < e + i ensures SpaceAt(text, k) {
      assert SpaceAt(tail, k - e);
    }
  }

  function ValueStart(d: Spelling, name: string): nat {
    |Key(d, name)| + |d.gap| + 1 + |d.space|
  }

  lemma SpellingDefines(d: Spelling, name: string)
    requires IsDefinition(d)
    ensures Defines(name, Spelled(d, name), |d.before + d.quote|, ValueStart(d, name), |d.value|)
  {
    var text, e := Spelled(d, name), |Key(d, name)|;
    assert text == Key(d, name) + Assigned(d) && ValueStart(d, name) == e + (|d.gap| + 1 + |d.space|);
    hide *;
    NamePlaced(d, name);
    LiteralPlaced(d, name);
    EndsOfName(d, name);
    AssignedAssigns(d);
    AssignsBehind(text, e, Key(d, name), Assigned(d), |d.gap|, |d.gap| + 1 + |d.space|);
    DefinesIs(name, text, |d.before + d.quote|, e, e + |d.gap|, ValueStart(d, name), |d.value|);
  }

  lemma NamePlaced(d: Spelling, name: string)
    ensures var p := |d.before + d.quote|;
      Occurs(name, Spelled(d, name), p) && p + |name| + |d.quote| == |Key(d, name)|
  {
    var text, key, tail, p := Spelled(d, name), Key(d, name), Assigned(d), |d.before + d.quote|;
    PartsOfKey(d, name);
    hide Key, Assigned;
    Slices(text, key, tail, p, |name|, 0, 0);
  }

  lemma LiteralPlaced(d: Spelling, name: string)
    requires IsDefinition(d)
    ensures LiteralAt(Spelled(d, name), ValueStart(d, name), |d.value|)
  {
    var text, key, tail := Spelled(d, name), Key(d, name), Assigned(d);
    PartsOfAssigned(d);
    hide IsLiteral, Key, Assigned;
    Slices(text, key, tail, 0, 0, |d.gap| + 1 + |d.space|, |d.value|);
  }

  lemma DefinesIs(name: string, text: string, p: nat, e: nat, c: nat, i: nat, n: nat)
    requires Occurs(name, text, p) && IsWhole(text, p, p + |name|) && AfterKey(text, p, p + |name|) == e
    requires Assigns(text, e, c, i) && LiteralAt(text, i, n)
    ensures Defines(name, text, p, i, n)
  {
  }

  lemma Slices(text: string, key: string, tail: string, p: nat, n: nat, j: nat, m: nat)
    requires text == key + tail && p + n <= |key| && j + m <= |tail|
    ensures text[p..p + n] == key[p..p + n] && text[|key| + j..|key| + j + m] == tail[j..j + m]
  {
  }

  lemma EndsOfName(d: Spelling, name: string)
    requires IsDefinition(d)
    ensures var text, p := Spelled(d, name), |d.before + d.quote|; var end := p + |name|;
      end <= |text| && IsWhole(text, p, end) && AfterKey(text, p, end) == end + |d.quote|
  {
    hide IsLiteral;
    var text, key, tail, p := Spelled(d, name), Key(d, name), Assigned(d), |d.before + d.quote|;
    var end := p + |name|;
    PartsOf(d, name);
    PartsOfKey(d, name);
    PartsOfAssigned(d);
    hide Spelled, Key, Assigned;
    assert d.quote in ["", "\"", "'"];
    if d.quote == "" {
      assert text[end] == tail[0] == if d.gap != "" then d.gap[0] else d.separator;
      assert d.gap != "" ==> d.gap[0] in d.gap + d.space;
      SpaceIs(text[end]);
    } else {
      assert text[p - 1] == key[|d.before| + 0] == d.quote[0] == key[p + |name| + 0] == text[end];
    }
  }

  lemma DefinedIsSpelled(name: string, text: string, p: nat, i: nat, n: nat) returns (d: Spelling)
    requires Defines(name, text, p, i, n)
    ensures SpelledAt(d, name, text, p) && d.value == text[i..i + n]
  {
    hide IsLiteral, OverlapsInsideIdentifiers;
    var end := p + |name|;
    var e := AfterKey(text, p, end);
    var c: nat :| Assigns(text, e, c, i);
    var q := p - (e - end);
    d := Spelling(text[..q], text[q..p], text[e..c], text[c], text[c + 1..i], text[i..i + n], text[i + n..]);
    QuotesAround(text, p, end);
    hide IsWhole, AfterKey, Assigns, LiteralAt, IsDefinition, Spelled;
    CutIsDefinition(text, q, p, e, c, i, n, d);
    Joined(name, text, p, end, e, c, i, n, q, d);
  }

  lemma QuotesAround(text: string, p: nat, end: nat)
    requires p <= end <= |text| && IsWhole(text, p, end)
    ensures var e := AfterKey(text, p, end); var q := p - (e - end);
      && 0 <= q && text[q..p] == text[end..e] && text[q..p] in ["", "\"", "'"]
      && (q == p && p > 0 ==> !IsIdentChar(text[p - 1]))
  {
    hide IsIdentChar;
    var e := AfterKey(text, p, end);
    assert e > end ==> e == end + 1 && p > 0 && text[p - 1] == text[end] && (text[end] == '"' || text[end] == '\'');
    hide AfterKey;
    if e > end {
      assert text[p - 1..p] == [text[end]];
      assert text[end..e] == [text[end]];
      assert [text[end]] in ["\"", "'"];
    } else {
      assert text[p..p] == "" == text[end..end];
    }
  }

  lemma CutIsDefinition(text: string, q: nat, p: nat, e: nat, c: nat, i: nat, n: nat, d: Spelling)
    requires q <= p <= e && Assigns(text, e, c, i) && LiteralAt(text, i, n)
    requires text[q..p] in ["", "\"", "'"] && (q == p && p > 0 ==> !IsIdentChar(text[p - 1]))
    requires d == Spelling(text[..q], text[q..p], text[e..c], text[c], text[c + 1..i], text[i..i + n], text[i + n..])
    ensures IsDefinition(d)
  {
    hide IsLiteral;
    OnlySpace(text, e, c);
    OnlySpace(text, c + 1, i);
    hide Blank, IsSpace;
    assert d.value[0] == text[i];
  }

  lemma OnlySpace(text: string, lo: nat, hi: nat)
    requires lo <= hi <= |text| && Blank(text, lo, hi)
    ensures forall x | x in text[lo..hi] :: x in SPACES
  {
    forall x | x in text[lo..hi] ensures x in SPACES {
      var k :| lo <= k < hi && text[k] == x;
      assert SpaceAt(text, k);
      SpaceIs(x);
    }
  }

  lemma Joined(name: string, text: string, p: nat, end: nat, e: nat, c: nat, i: nat, n: nat, q: nat, d: Spelling)
    requires q <= p <= end <= e <= c < i && i + n <= |text| && text[p..end] == name && text[q..p] == text[end..e]
    requires d == Spelling(text[..q], text[q..p], text[e..c], text[c], text[c + 1..i], text[i..i + n], text[i + n..])
    ensures text == Spelled(d, name)
  {
    assert Key(d, name) == text[..e];
    assert Assigned(d) == text[e..];
    hide Key, Assigned;
    assert text[..e] + text[e..] == text;
  }

  /** The name is defined there exactly when the text around it is a definition: quoted on both
      sides or not part of a longer name, then `=` or `:`, then a literal, and between these
      nothing but space. */
  lemma DefinedIffSpelled(name: string, text: string, p: nat)
    ensures DefinedAt(name, text, p) <==> exists d :: SpelledAt(d, name, text, p)
  {
    hide Defines, IsDefinition, Spelled;
    if DefinedAt(name, text, p) {
      var i: nat, n: nat :| Defines(name, text, p, i, n);
      var d := DefinedIsSpelled(name, text, p, i, n);
    }
    if d :| SpelledAt(d, name, text, p) {
      SpellingDefines(d, name);
    }
  }

  /** The first occurrence from there on, or the length of the text. */
  function FirstAt(name: string, text: string, from: nat): (p: nat)
    ensures p < |text| ==> from <= p && Occurs(name, text, p)
    ensures forall q: nat | from <= q < p :: !Occurs(name, text, q)
    ensures p <= |text| && (p == |text| && name != "" ==> forall q: nat | from <= q :: !Occurs(name, text, q))
    decreases |text| - from
  {
    if from >= |text| then |text| else if Occurs(name, text, from) then from else FirstAt(name, text, from + 1)
  }

  /** The occurrences the search looks at: the first, and then each first one behind the last
      character of the one before. */
  predicate Tried(name: string, text: string, from: nat, p: nat)
    requires name != ""
    decreases |text| - from
  {
    var q := FirstAt(name, text, from);
    q < |text| && (p == q || Tried(name, text, q + |name|, p))
  }

  lemma {:induction false} TriedOccurs(name: string, text: string, from: nat, p: nat)
    requires name != "" && Tried(name, text, from, p)
    ensures from <= p && Occurs(name, text, p)
    decreases |text| - from
  {
    var q := FirstAt(name, text, from);
    if p != q {
      TriedOccurs(name, text, q + |name|, p);
    }
  }

  /** Skipping overlapping occurrences loses nothing when overlaps fall inside identifiers,
      as they do for every identifier: each whole occurrence is tried. */
  lemma {:induction false} WholeIsTried(name: string, text: string, from: nat, p: nat)
    requires name != "" && OverlapsInsideIdentifiers(name)
    requires from <= p && Occurs(name, text, p) && IsWhole(text, p, p + |name|)
    ensures Tried(name, text, from, p)
    decreases |text| - from
  {
    hide OverlapsInsideIdentifiers, IsWhole;
    var q := FirstAt(name, text, from);
    if p != q {
      if p < q + |name| {
        OverlapIsNotWhole(name, text, q, p);
      } else {
        WholeIsTried(name, text, q + |name|, p);
      }
    }
  }

  method Find(text: string, name: string, from: nat) returns (p: nat)
    requires from <= |text|
    ensures p == FirstAt(name, text, from)
  {
    p := from;
    while p < |text|
      invariant from <= p <= |text| && FirstAt(name, text, p) == FirstAt(name, text, from)
    {
      if p + |name| <= |text| && text[p..p + |name|] == name {
        return;
      }
      p := p + 1;
    }
  }

  method SkipSpace(text: string, from: nat) returns (i: nat)
    requires from <= |text|
    ensures from <= i <= |text| && Blank(text, from, i)
    ensures i < |text| ==> !IsSpace(text[i])
  {
    i := from;
    while i < |text| && IsSpace(text[i])
      invariant from <= i <= |text| && Blank(text, from, i)
    {
      i := i + 1;
    }
  }

  /** The opening bracket of the value given to the key that ends at e, if there is one. */
  method FindValue(text: string, e: nat) returns (r: Option<nat>)
    requires e <= |text|
    ensures r.Some? ==> IsValueOf(text, e, r.value)
    ensures r.None? ==> forall i: nat :: !IsValueOf(text, e, i)
  {
    var c: nat := SkipSpace(text, e);
    assert forall d: nat, i: nat | Assigns(text, e, d, i) :: d == c by {
      forall d: nat, i: nat | Assigns(text, e, d, i) ensures d == c {
        assert d < c ==> SpaceAt(text, d);
        assert c < d ==> SpaceAt(text, c);
      }
    }
    if c >= |text| || (text[c] != '=' && text[c] != ':') {
      return None;
    }
    if text[c] == '=' && c + 1 < |text| && (text[c + 1] == '=' || text[c + 1] == '>') {
      return None;
    }
    var i: nat := SkipSpace(text, c + 1);
    assert forall j: nat | Assigns(text, e, c, j) :: i == j by {
      forall j: nat | Assigns(text, e, c, j) ensures i == j {
        assert j < i ==> SpaceAt(text, j);
        assert i < j ==> SpaceAt(text, i);
      }
    }
    if i >= |text| || !IsOpener(text[i]) {
      return None;
    }
    assert Assigns(text, e, c, i);
    r := Some(i);
  }

  /** What the occurrence at p is given: its literal's place and length (zero for none). */
  method ValueAt(name: string, text: string, p: nat) returns (i: nat, n: nat)
    requires Occurs(name, text, p)
    ensures n > 0 ==> Defines(name, text, p, i, n)
    ensures n == 0 ==> !DefinedAt(name, text, p)
  {
    hide LiteralAt;
    var end := p + |name|;
    i, n := 0, 0;
    if IsWhole(text, p, end) {
      var e := AfterKey(text, p, end);
      var value := FindValue(text, e);
      if value.Some? {
        i := value.value;
        n := ScanBalanced(text, i);
        if n == 0 {
          forall j: nat, m: nat ensures !Defines(name, text, p, j, m) {
            if Defines(name, text, p, j, m) {
              var c: nat :| Assigns(text, e, c, i);
              var d: nat :| Assigns(text, e, d, j);
              AssignsOnce(text, e, c, i, d, j);
            }
          }
        }
      }
    }
  }

  /** The literal at the first defining occurrence among those tried, and empty only when
      none of them defines the name.  So for an identifier it is the leftmost of all. */
  method ScanJsonVar(name: string, text: string) returns (r: string, ghost p: nat, ghost i: nat)
    ensures name == "" ==> r == ""
    ensures r != "" ==>
              && Tried(name, text, 0, p) && Defines(name, text, p, i, |r|) && r == text[i..i + |r|]
              && forall q: nat | q < p && Tried(name, text, 0, q) :: !DefinedAt(name, text, q)
    ensures r == "" && name != "" ==> forall q: nat | Tried(name, text, 0, q) :: !DefinedAt(name, text, q)
    ensures OverlapsInsideIdentifiers(name) && r != "" ==> forall q: nat | q < p :: !DefinedAt(name, text, q)
    ensures OverlapsInsideIdentifiers(name) && r == "" && name != "" ==> forall q: nat :: !DefinedAt(name, text, q)
  {
    hide Defines, LiteralAt, IsWhole, FirstAt, OverlapsInsideIdentifiers, Tried;
    r, p, i := "", 0, 0;
    if name == "" {
      return;
    }
    AllTried(name, text);
    var pos := 0;
    while true
      invariant pos <= |text|
      invariant forall q: nat | Tried(name, text, pos, q) :: Tried(name, text, 0, q)
      invariant forall q: nat | Tried(name, text, 0, q) :: Tried(name, text, pos, q) || (q < pos && !DefinedAt(name, text, q))
      decreases |text| - pos
    {
      TriedStep(name, text, pos);
      pos := Find(text, name, pos);
      if pos == |text| {
        return;
      }
      var start := pos;
      var at, n := ValueAt(name, text, start);
      TriedBehind(name, text, start + |name|);
      if n > 0 {
        DefinesLiteral(name, text, start, at, n);
        return text[at..at + n], start, at;
      }
      pos := start + |name|;
    }
  }

  lemma {:induction false} TriedStep(name: string, text: string, from: nat)
    requires name != ""
    ensures var q := FirstAt(name, text, from);
      && (q < |text| ==> from <= q && Occurs(name, text, q))
      && (forall p: nat :: Tried(name, text, from, p) <==> q < |text| && (p == q || Tried(name, text, q + |name|, p)))
  {
  }

  lemma TriedBehind(name: string, text: string, from: nat)
    requires name != ""
    ensures forall p: nat | Tried(name, text, from, p) :: from <= p
  {
    hide Tried;
    forall p: nat | Tried(name, text, from, p) ensures from <= p {
      TriedOccurs(name, text, from, p);
    }
  }

  lemma AllTried(name: string, text: string)
    requires name != ""
    ensures OverlapsInsideIdentifiers(name) ==> forall q: nat | DefinedAt(name, text, q) :: Tried(name, text, 0, q)
  {
    hide Defines, OverlapsInsideIdentifiers, FirstAt, Tried;
    forall q: nat | OverlapsInsideIdentifiers(name) && DefinedAt(name, text, q) ensures Tried(name, text, 0, q) {
      NotDefined(name, text, q);
      WholeIsTried(name, text, 0, q);
    }
  }

  lemma NotDefined(name: string, text: string, q: nat)
    ensures DefinedAt(name, text, q) ==> Occurs(name, text, q) && IsWhole(text, q, q + |name|)
  {
  }

  lemma DefinesLiteral(name: string, text: string, p: nat, i: nat, n: nat)
    requires Defines(name, text, p, i, n)
    ensures 0 < n && i + n <= |text|
  {
  }

  /** Some occurrence up to p is tried and defines the name. */
  ghost predicate FoundBy(name: string, text: string, p: nat)
    requires name != ""
  {
    exists q: nat :: q <= p && Tried(name, text, 0, q) && DefinedAt(name, text, q)
  }

  /** In every text the search gets to a definition no later than to the leftmost one. */
  ghost predicate NeverMissed(name: string)
    requires name != ""
  {
    forall text: string, p: nat | DefinedAt(name, text, p) :: FoundBy(name, text, p)
  }

  /** Skipping overlapping occurrences loses a definition in no text exactly for the names
      that overlap themselves only inside identifiers. */
  lemma MissesNothing(name: string)
    requires name != ""
    ensures NeverMissed(name) <==> OverlapsInsideIdentifiers(name)
  {
    hide DefinedAt, Tried;
    if OverlapsInsideIdentifiers(name) {
      forall text: string, p: nat | DefinedAt(name, text, p) ensures FoundBy(name, text, p) {
        AllTried(name, text);
      }
    } else {
      var k: nat :| OverlapsItself(name, k) && !IsIdentChar(name[k - 1]);
      OverlapIsDefined(name, k);
      OverlapIsMissed(name, k);
    }
  }

  /** The name over its own beginning, k further on, behind a character of an identifier. */
  function Overlapping(name: string, k: nat): string
    requires k < |name|
  {
    [if name[0] == 'a' then 'b' else 'a'] + name[..k] + name + "={}"
  }

  lemma OverlappingOccurs(name: string, k: nat)
    requires OverlapsItself(name, k)
    ensures var text := Overlapping(name, k);
      !Occurs(name, text, 0) && Occurs(name, text, 1) && Occurs(name, text, 1 + k)
  {
    var text := Overlapping(name, k);
    assert name == name[..k] + name[k..];
    assert text[1..] == name[..k] + name + "={}";
    assert text[1..1 + |name|] == name[..k] + name[..|name| - k];
    assert text[1 + k..1 + k + |name|] == name;
    assert text[0..|name|][0] == text[0];
  }

  lemma OverlapIsDefined(name: string, k: nat)
    requires OverlapsItself(name, k) && !IsIdentChar(name[k - 1])
    ensures DefinedAt(name, Overlapping(name, k), 1 + k)
  {
    hide LiteralAt;
    var text, p := Overlapping(name, k), 1 + k;
    var end := p + |name|;
    OverlappingOccurs(name, k);
    assert text[p - 1] == name[k - 1];
    assert text[end] == '=' && text[end + 1] == '{';
    assert AfterKey(text, p, end) == end;
    assert Assigns(text, end, end, end + 1);
    ObjectAt(text, end + 1);
    assert Defines(name, text, p, end + 1, 2);
  }

  lemma OverlapIsMissed(name: string, k: nat)
    requires OverlapsItself(name, k)
    ensures !FoundBy(name, Overlapping(name, k), 1 + k)
  {
    hide Defines;
    var text := Overlapping(name, k);
    OverlappingOccurs(name, k);
    FirstIsAt(name, text, 1);
    TriedBehind(name, text, 1 + |name|);
    TriedStep(name, text, 0);
    NotDefined(name, text, 1);
    assert IsIdentChar(text[0]) && !IsWhole(text, 1, 1 + |name|);
  }

  lemma FirstIsAt(name: string, text: string, p: nat)
    requires p < |text| && Occurs(name, text, p) && forall q: nat | q < p :: !Occurs(name, text, q)
    ensures FirstAt(name, text, 0) == p
  {
    hide Occurs;
  }

  lemma ObjectAt(text: string, i: nat)
    requires i + 2 == |text| && text[i] == '{' && text[i + 1] == '}'
    ensures LiteralAt(text, i, 2)
  {
    assert text[i..i + 2] == "{}";
    EmptyObject();
  }

  lemma EmptyObject()
    ensures IsLiteral("{}")
  {
    var s := "{}";
    assert s[1..] == "}" && s[..1] == "{" && "}"[1..] == "" && "}"[..1] == "}";
    LexStep("}", 1);
    LexStep(s, 1);
    assert ["}"] + [] == ["}"] && ["{"] + ["}"] == ["{", "}"];
    assert "{" + "}" == "{}";
    assert s[1..1] == "";
  }
}
