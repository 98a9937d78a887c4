/** The color an element declares, by its color attribute or in its style. */
module HtmlColor {
  import opened Basics
  import opened Dom

  datatype Color = Color(red: nat, green: nat, blue: nat, alpha: nat)

  predicate IsBlank(c: char) {
    c == ' ' || c == '\t' || c == '\n' || c == '\r'
  }

  function Trimmed(s: string): string {
    if s != "" && IsBlank(s[0]) then Trimmed(s[1..])
    else if s != "" && IsBlank(s[|s| - 1]) then Trimmed(s[..|s| - 1])
    else s
  }

  /** The component at a place: two digits, or in the short forms one that stands for both. */
  function Component(digits: string, at: nat): Option<nat>
    requires at < |digits| && (|digits| > 4 ==> at + 1 < |digits|)
  {
    var high := HexDigit(digits[at]);
    var low := if |digits| <= 4 then high else HexDigit(digits[at + 1]);
    if high < 0 || low < 0 then None else Some(high * 16 + low)
  }

  /** "#" and three, four, six or eight hexadecimal digits; opaque unless the alpha is given. */
  function ColorValue(value: string): Option<Color> {
    var text := Trimmed(value);
    if |text| < 4 || text[0] != '#' then None
    else
      var digits := text[1..];
      var n := |digits|;
      if n != 3 && n != 4 && n != 6 && n != 8 then None
      else
        var step := if n <= 4 then 1 else 2;
        var red, green, blue := Component(digits, 0), Component(digits, step), Component(digits, step * 2);
        var alpha := if n == 4 || n == 8 then Component(digits, step * 3) else Some(255);
        if red.None? || green.None? || blue.None? || alpha.None? then None
        else Some(Color(red.value, green.value, blue.value, alpha.value))
  }

  function GetAttr(attrs: seq<(string, string)>, name: string): Option<string> {
    if attrs == [] then None
    else if attrs[0].0 == name then Some(attrs[0].1)
    else GetAttr(attrs[1..], name)
  }

  /** The color that one declaration of a style sets, if it sets the color and reads as one. */
  function DeclarationColor(declaration: string): Option<Color> {
    var text := Trimmed(declaration);
    var colon := IndexOf(text, ':');
    if colon == |text| || Trimmed(text[..colon]) != "color" then None else ColorValue(text[colon + 1..])
  }

  function FirstColor(declarations: seq<string>): Option<Color> {
    if declarations == [] then None
    else if DeclarationColor(declarations[0]).Some? then DeclarationColor(declarations[0])
    else FirstColor(declarations[1..])
  }

  /** The color attribute when it reads as a color; else the first declaration of the style
      that does. */
  function DeclaredColor(attrs: seq<(string, string)>): Option<Color> {
    var color, style := GetAttr(attrs, "color"), GetAttr(attrs, "style");
    if color.Some? && ColorValue(color.value).Some? then ColorValue(color.value)
    else if style.Some? then FirstColor(Pieces(style.value, ';'))
    else None
  }

  function ColorOfElement(n: Node): Option<Color> {
    if n.kind.Element? then DeclaredColor(n.kind.attrs) else None
  }

  // ---- Laws ------------------------------------------------------------------------------

  function HexChar(n: nat): char
    requires n < 16
  {
    if n < 10 then ('0' as int + n) as char else ('a' as int + n - 10) as char
  }

  function HexPair(n: nat): string
    requires n < 256
  {
    [HexChar(n / 16), HexChar(n % 16)]
  }

  predicate IsColor(c: Color) {
    c.red < 256 && c.green < 256 && c.blue < 256 && c.alpha < 256
  }

  lemma Untrimmed(s: string)
    requires s != "" && !IsBlank(s[0]) && !IsBlank(s[|s| - 1])
    ensures Trimmed(s) == s
  {
  }

  lemma HexRoundTrip(n: nat)
    requires n < 16
    ensures HexDigit(HexChar(n)) == n && !IsBlank(HexChar(n))
  {
  }

  lemma PairRoundTrip(digits: string, at: nat, n: nat)
    requires |digits| > 4 && at + 1 < |digits| && n < 256
    requires digits[at] == HexChar(n / 16) && digits[at + 1] == HexChar(n % 16)
    ensures Component(digits, at) == Some(n) && !IsBlank(digits[at + 1])
  {
    HexRoundTrip(n / 16);
    HexRoundTrip(n % 16);
  }

  /** Eight digits spell any color, six any opaque one. */
  lemma ColorRoundTrip(c: Color)
    requires IsColor(c)
    ensures ColorValue("#" + (HexPair(c.red) + HexPair(c.green) + HexPair(c.blue) + HexPair(c.alpha))) == Some(c)
    ensures c.alpha == 255 ==> ColorValue("#" + (HexPair(c.red) + HexPair(c.green) + HexPair(c.blue))) == Some(c)
  {
    hide HexChar, Trimmed;
    var eight := HexPair(c.red) + HexPair(c.green) + HexPair(c.blue) + HexPair(c.alpha);
    var six := HexPair(c.red) + HexPair(c.green) + HexPair(c.blue);
    PairRoundTrip(eight, 0, c.red);
    PairRoundTrip(eight, 2, c.green);
    PairRoundTrip(eight, 4, c.blue);
    PairRoundTrip(eight, 6, c.alpha);
    PairRoundTrip(six, 0, c.red);
    PairRoundTrip(six, 2, c.green);
    PairRoundTrip(six, 4, c.blue);
    Untrimmed("#" + eight);
    Untrimmed("#" + six);
    assert ("#" + eight)[1..] == eight && ("#" + six)[1..] == six;
  }

  /** A short form means what it means with every digit doubled. */
  lemma ShortForm(r: char, g: char, b: char)
    requires !IsBlank(r) && !IsBlank(g) && !IsBlank(b)
    ensures ColorValue(['#', r, g, b]) == ColorValue(['#', r, r, g, g, b, b])
  {
    var three, six := ['#', r, g, b], ['#', r, r, g, g, b, b];
    Untrimmed(three);
    Untrimmed(six);
    hide Trimmed;
    assert three[1..] == [r, g, b] && six[1..] == [r, r, g, g, b, b];
  }

  /** The first attribute of that name. */
  lemma {:induction false} GetAttrIs(attrs: seq<(string, string)>, name: string, value: string)
    ensures GetAttr(attrs, name) == Some(value) <==>
      exists k :: 0 <= k < |attrs| && attrs[k] == (name, value) && forall j | 0 <= j < k :: attrs[j].0 != name
    decreases |attrs|
  {
    if attrs != [] && attrs[0].0 != name {
      GetAttrIs(attrs[1..], name, value);
      if k :| 0 <= k < |attrs| && attrs[k] == (name, value) && forall j | 0 <= j < k :: attrs[j].0 != name {
        assert attrs[1..][k - 1] == (name, value);
        assert forall j | 0 <= j < k - 1 :: attrs[1..][j] == attrs[j + 1];
      }
      if k :| 0 <= k < |attrs[1..]| && attrs[1..][k] == (name, value) && forall j | 0 <= j < k :: attrs[1..][j].0 != name {
        assert attrs[k + 1] == (name, value);
        assert forall j | 0 < j < k + 1 :: attrs[j] == attrs[1..][j - 1];
      }
    }
  }

  predicate Padding(s: string) {
    forall k | 0 <= k < |s| :: s[k] == ' ' || s[k] == '\t' || s[k] == '\n' || s[k] == '\r'
  }

  /** A text that neither begins nor ends in a blank. */
  predicate Bare(s: string) {
    s != "" ==> !Padding([s[0]]) && !Padding([s[|s| - 1]])
  }

  /** The trim takes off all blanks on both sides, and only those. */
  lemma {:induction false} TrimmedIs(left: string, s: string, right: string)
    requires Padding(left) && Padding(right) && Bare(s)
    ensures Trimmed(left + s + right) == s
    decreases |left| + |right|
  {
    var t := left + s + right;
    if left != "" {
      assert t[0] == left[0] && t[1..] == left[1..] + s + right;
      TrimmedIs(left[1..], s, right);
    } else if t == s {
    } else if s == "" {
      assert t == right && t[1..] == right[1..] + s + "";
      TrimmedIs(right[1..], s, "");
    } else {
      var n := |right| - 1;
      assert t[|t| - 1] == right[n] && t[..|t| - 1] == left + s + right[..n] && t[0] == s[0];
      assert Padding([t[0]]) || !IsBlank(t[0]);
      TrimmedIs(left, s, right[..n]);
    }
  }

  /** Every text is a bare one between blanks. */
  lemma {:induction false} TrimmedParts(s: string) returns (left: string, right: string)
    ensures s == left + Trimmed(s) + right && Padding(left) && Padding(right) && Bare(Trimmed(s))
    decreases |s|
  {
    left, right := "", "";
    if s != "" && IsBlank(s[0]) {
      left, right := TrimmedParts(s[1..]);
      assert Trimmed(s) == Trimmed(s[1..]);
      hide Trimmed, Bare;
      assert s == [s[0]] + s[1..];
      left := [s[0]] + left;
    } else if s != "" && IsBlank(s[|s| - 1]) {
      left, right := TrimmedParts(s[..|s| - 1]);
      assert Trimmed(s) == Trimmed(s[..|s| - 1]);
      hide Trimmed, Bare;
      assert s == s[..|s| - 1] + [s[|s| - 1]];
      right := right + [s[|s| - 1]];
    } else if s != "" {
      assert [s[0]][0] == s[0] && [s[|s| - 1]][0] == s[|s| - 1];
    }
  }

  /** Blanks around a text do not matter to the trim. */
  lemma TrimmedPadded(left: string, s: string, right: string)
    requires Padding(left) && Padding(right)
    ensures Trimmed(left + s + right) == Trimmed(s)
  {
    hide Trimmed, Bare;
    var l, r := TrimmedParts(s);
    var t := Trimmed(s);
    assert left + s + right == (left + l) + t + (r + right);
    TrimmedIs(left + l, t, r + right);
  }

  lemma {:induction false} BlanksAhead(s: string) returns (left: string, rest: string)
    ensures s == left + rest && Padding(left) && (rest != "" ==> !Padding([rest[0]]))
    decreases |s|
  {
    left, rest := "", s;
    if s != "" && Padding([s[0]]) {
      left, rest := BlanksAhead(s[1..]);
      assert s[0] == [s[0]][0];
      left := [s[0]] + left;
    }
  }

  lemma {:induction false} BlanksBehind(s: string) returns (rest: string, right: string)
    ensures s == rest + right && Padding(right) && (rest != "" ==> !Padding([rest[|rest| - 1]]))
    decreases |s|
  {
    rest, right := s, "";
    if s != "" && Padding([s[|s| - 1]]) {
      rest, right := BlanksBehind(s[..|s| - 1]);
      assert s[|s| - 1] == [s[|s| - 1]][0];
      right := right + [s[|s| - 1]];
    }
  }

  /** A declaration sets the color exactly when its property, blanks aside, is "color" and what
      stands behind the colon reads as one. */
  lemma DeclarationIs(property: string, value: string)
    requires ':' !in property
    ensures DeclarationColor(property + ":" + value) == if Trimmed(property) == "color" then ColorValue(value) else None
  {
    hide *;
    var left, front := BlanksAhead(property);
    var back, right := BlanksBehind(value);
    assert property + ":" + value == left + (front + [':'] + back) + right;
    TrimmedPadded(left, front + [':'] + back, right);
    SameDeclaration(property + ":" + value, front + [':'] + back);
    BareDeclaration(front, back);
    TrimmedPadded(left, front, "") by { NoPadding(); }
    assert left + front + "" == property;
    TrimmedPadded("", back, right) by { NoPadding(); }
    assert "" + back + right == value;
    SameColorValue(back, value);
  }

  lemma SameDeclaration(s: string, t: string)
    requires Trimmed(s) == Trimmed(t)
    ensures DeclarationColor(s) == DeclarationColor(t)
  {
  }

  lemma SameColorValue(s: string, t: string)
    requires Trimmed(s) == Trimmed(t)
    ensures ColorValue(s) == ColorValue(t)
  {
  }

  lemma BareDeclaration(front: string, back: string)
    requires ':' !in front && (front != "" ==> !Padding([front[0]])) && (back != "" ==> !Padding([back[|back| - 1]]))
    ensures DeclarationColor(front + [':'] + back) == if Trimmed(front) == "color" then ColorValue(back) else None
  {
    hide Trimmed, IndexOf, Padding, ColorValue;
    var text := front + [':'] + back;
    NoPadding();
    assert Bare(text);
    TrimmedIs("", text, "");
    assert "" + text + "" == text;
    IndexAfter(front, ':', back);
  }

  lemma NoPadding()
    ensures Padding("") && !Padding([':'])
  {
    assert [':'][0] == ':';
  }

  /** A declaration without a colon sets nothing. */
  lemma DeclarationNeedsColon(s: string)
    requires ':' !in s
    ensures DeclarationColor(s) == None
  {
    hide Trimmed;
    var left, right := TrimmedParts(s);
    assert forall c | c in Trimmed(s) :: c in left + Trimmed(s) + right;
  }

  /** Some declaration sets this color, and none before it sets any. */
  ghost predicate SetFirst(declarations: seq<string>, color: Color) {
    exists k :: 0 <= k < |declarations| && DeclarationColor(declarations[k]) == Some(color)
                && forall j | 0 <= j < k :: DeclarationColor(declarations[j]) == None
  }

  lemma {:induction false} FirstColorIs(declarations: seq<string>, color: Color)
    ensures FirstColor(declarations) == Some(color) <==> SetFirst(declarations, color)
    decreases |declarations|
  {
    hide DeclarationColor;
    if declarations != [] {
      var rest := declarations[1..];
      FirstColorIs(rest, color);
      if k :| 0 <= k < |declarations| && DeclarationColor(declarations[k]) == Some(color)
              && forall j | 0 <= j < k :: DeclarationColor(declarations[j]) == None {
        if k > 0 {
          assert rest[k - 1] == declarations[k] && forall j | 0 <= j < k - 1 :: rest[j] == declarations[j + 1];
        }
      }
      if DeclarationColor(declarations[0]) == None {
        if k :| 0 <= k < |rest| && DeclarationColor(rest[k]) == Some(color) && forall j | 0 <= j < k :: DeclarationColor(rest[j]) == None {
          assert declarations[k + 1] == rest[k] && forall j | 0 < j < k + 1 :: declarations[j] == rest[j - 1];
        }
      }
    }
  }

  /** The color attribute wins when it reads as a color; otherwise the style counts, and
      nothing else does. */
  lemma ColorIsRead(attrs: seq<(string, string)>, color: Color)
    ensures DeclaredColor(attrs) == Some(color) <==>
      var own, style := GetAttr(attrs, "color"), GetAttr(attrs, "style");
      || (own.Some? && ColorValue(own.value) == Some(color))
      || ((own.Some? ==> ColorValue(own.value) == None) && style.Some? && SetFirst(Pieces(style.value, ';'), color))
  {
    hide GetAttr, ColorValue, DeclarationColor, FirstColor, Pieces, SetFirst;
    var style := GetAttr(attrs, "style");
    if style.Some? {
      FirstColorIs(Pieces(style.value, ';'), color);
    }
  }

  predicate IsHex(c: char) {
    '0' <= c <= '9' || 'a' <= c <= 'f' || 'A' <= c <= 'F'
  }

  /** What reads as a color: blanks aside, "#" and three, four, six or eight digits. */
  lemma ReadsAsColor(value: string)
    ensures ColorValue(value).Some? <==>
      var text := Trimmed(value);
      && (|text| == 4 || |text| == 5 || |text| == 7 || |text| == 9)
      && text[0] == '#' && forall k | 1 <= k < |text| :: IsHex(text[k])
  {
    hide Trimmed;
    var text := Trimmed(value);
    assert forall c :: HexDigit(c) >= 0 <==> IsHex(c);
    if |text| >= 4 {
      assert forall k | 1 <= k < |text| :: text[1..][k - 1] == text[k];
    }
  }

  // ---- The loop --------------------------------------------------------------------------

  method ColorOf(attrs: seq<(string, string)>) returns (color: Option<Color>)
    ensures color == DeclaredColor(attrs)
  {
    var value := GetAttr(attrs, "color");
    if value.Some? {
      color := ColorValue(value.value);
      if color.Some? {
        return;
      }
    }
    var style := GetAttr(attrs, "style");
    if style.None? {
      return None;
    }
    hide IndexOf, DeclarationColor, FirstColor, Pieces;
    var declarations := style.value;
    NoDeclarations();
    while declarations != ""
      invariant FirstColor(Pieces(declarations, ';')) == FirstColor(Pieces(style.value, ';'))
      decreases |declarations|
    {
      assert declarations[0..] == declarations;
      var separator := Find(declarations, ';', 0);
      NextDeclaration(declarations, separator);
      color := DeclarationColor(declarations[..separator]);
      if color.Some? {
        return;
      }
      declarations := if separator == |declarations| then "" else declarations[separator + 1..];
    }
    color := None;
  }

  lemma NoDeclarations()
    ensures FirstColor(Pieces("", ';')) == None
  {
    assert Pieces("", ';') == [""] && Trimmed("") == "" && DeclarationColor("") == None;
    assert FirstColor([""]) == FirstColor([]);
  }

  lemma {:induction false} NextDeclaration(declarations: string, separator: nat)
    requires separator == IndexOf(declarations, ';')
    ensures var first, rest := DeclarationColor(declarations[..separator]),
                    if separator == |declarations| then "" else declarations[separator + 1..];
      FirstColor(Pieces(declarations, ';')) == if first.Some? then first else FirstColor(Pieces(rest, ';'))
  {
    hide DeclarationColor;
    if separator == |declarations| {
      NoDeclarations();
      assert declarations[..separator] == declarations;
      assert FirstColor([declarations]) == if DeclarationColor(declarations).Some? then DeclarationColor(declarations) else FirstColor([]);
    } else {
      var tail := Pieces(declarations[separator + 1..], ';');
      assert ([declarations[..separator]] + tail)[1..] == tail;
    }
  }
}
