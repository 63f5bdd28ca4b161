/** Python string and line operations the style fixers rest on. */
module Text {
  const TAB_SIZE := 4

  /** Python's whitespace characters, as `str.strip` and `str.rstrip` see them. */
  predicate IsSpace(c: char) {
    var n := c as int;
    || 0x09 <= n <= 0x0D || 0x1C <= n <= 0x20 || n == 0x85 || n == 0xA0 || n == 0x1680
    || 0x2000 <= n <= 0x200A || n == 0x2028 || n == 0x2029 || n == 0x202F || n == 0x205F || n == 0x3000
  }

  /** In ASCII: the blank, the controls from tab to carriage return, and the four separators. */
  lemma AsciiSpaces(c: char)
    requires c as int < 128
    ensures IsSpace(c) <==> c == ' ' || '\t' <= c <= '\r' || 28 <= c as int <= 31
  {}

  ghost predicate AllSpace(s: string) {
    forall i | 0 <= i < |s| :: IsSpace(s[i])
  }

  ghost predicate NoTab(s: string) {
    forall i | 0 <= i < |s| :: s[i] != '\t'
  }

  // ----- strip and rstrip -----

  function RStrip(s: string): string {
    if s != [] && IsSpace(s[|s| - 1]) then RStrip(s[..|s| - 1]) else s
  }

  function LStrip(s: string): string {
    if s != [] && IsSpace(s[0]) then LStrip(s[1..]) else s
  }

  function Strip(s: string): string {
    LStrip(RStrip(s))
  }

  ghost predicate RightTrimmed(s: string) {
    s == [] || !IsSpace(s[|s| - 1])
  }

  ghost predicate Trimmed(s: string) {
    s == [] || (!IsSpace(s[0]) && !IsSpace(s[|s| - 1]))
  }

  lemma {:induction false} RStripParts(s: string) returns (b: string)
    ensures s == RStrip(s) + b && AllSpace(b) && RightTrimmed(RStrip(s))
  {
    if s != [] && IsSpace(s[|s| - 1]) {
      var b' := RStripParts(s[..|s| - 1]);
      b := b' + [s[|s| - 1]];
      assert s == s[..|s| - 1] + [s[|s| - 1]];
    } else {
      b := [];
    }
  }

  lemma {:induction false} LStripParts(s: string) returns (a: string)
    ensures s == a + LStrip(s) && AllSpace(a) && (RightTrimmed(s) ==> Trimmed(LStrip(s)))
  {
    if s != [] && IsSpace(s[0]) {
      var a' := LStripParts(s[1..]);
      a := [s[0]] + a';
      assert s == [s[0]] + s[1..];
    } else {
      a := [];
    }
  }

  lemma {:induction false} RStripUnique(core: string, b: string)
    requires RightTrimmed(core) && AllSpace(b)
    ensures RStrip(core + b) == core
  {
    if b == [] {
      assert core + b == core;
    } else {
      var n := |b| - 1;
      assert (core + b)[..|core + b| - 1] == core + b[..n];
      RStripUnique(core, b[..n]);
    }
  }

  lemma {:induction false} LStripUnique(a: string, core: string)
    requires AllSpace(a) && (core == [] || !IsSpace(core[0]))
    ensures LStrip(a + core) == core
  {
    if a == [] {
      assert a + core == core;
    } else {
      assert (a + core)[1..] == a[1..] + core;
      LStripUnique(a[1..], core);
    }
  }

  lemma StripParts(s: string) returns (a: string, b: string)
    ensures s == a + Strip(s) + b && AllSpace(a) && AllSpace(b) && Trimmed(Strip(s))
  {
    b := RStripParts(s);
    a := LStripParts(RStrip(s));
  }

  lemma StripUnique(a: string, core: string, b: string)
    requires AllSpace(a) && AllSpace(b) && Trimmed(core)
    ensures Strip(a + core + b) == core
  {
    if core == [] {
      assert a + core + b == [] + (a + b);
      RStripUnique([], a + b);
    } else {
      RStripUnique(a + core, b);
      LStripUnique(a, core);
    }
  }

  // ----- expandtabs -----

  function Blanks(n: nat): (s: string)
    ensures |s| == n && forall i | 0 <= i < n :: s[i] == ' '
  {
    if n == 0 then [] else Blanks(n - 1) + [' ']
  }

  function NextColumn(c: char, column: nat): nat {
    if c == '\t' then column + TAB_SIZE - column % TAB_SIZE
    else if c == '\n' || c == '\r' then 0
    else column + 1
  }

  function Column(s: string, column: nat): nat {
    if s == [] then column else Column(s[1..], NextColumn(s[0], column))
  }

  /** `s.expandtabs(TAB_SIZE)` for a string that starts at `column`. */
  function Expand(s: string, column: nat): string {
    if s == [] then []
    else
      (if s[0] == '\t' then Blanks(TAB_SIZE - column % TAB_SIZE) else [s[0]])
      + Expand(s[1..], NextColumn(s[0], column))
  }

  lemma {:induction false} ExpandConcat(s: string, t: string, column: nat)
    ensures Expand(s + t, column) == Expand(s, column) + Expand(t, Column(s, column))
  {
    if s == [] {
      assert s + t == t;
    } else {
      assert (s + t)[1..] == s[1..] + t;
      ExpandConcat(s[1..], t, NextColumn(s[0], column));
    }
  }

  lemma {:induction false} ExpandNoTab(s: string, column: nat)
    ensures NoTab(Expand(s, column))
    ensures NoTab(s) ==> Expand(s, column) == s
  {
    if s == [] {
    } else {
      ExpandNoTab(s[1..], NextColumn(s[0], column));
      assert s == [s[0]] + s[1..];
    }
  }

  lemma {:induction false} ExpandSpace(s: string, column: nat)
    requires AllSpace(s)
    ensures AllSpace(Expand(s, column))
  {
    if s == [] {
    } else {
      ExpandSpace(s[1..], NextColumn(s[0], column));
    }
  }

  /** Expanding tabs around a text without tabs does not change what `strip` leaves. */
  lemma StripOfExpand(s: string)
    requires NoTab(Strip(s))
    ensures Strip(Expand(s, 0)) == Strip(s)
  {
    var a, b := StripParts(s);
    var core := Strip(s);
    ExpandConcat(a + core, b, 0);
    ExpandConcat(a, core, 0);
    ExpandNoTab(core, Column(a, 0));
    ExpandSpace(a, 0);
    ExpandSpace(b, Column(a + core, 0));
    StripUnique(Expand(a, 0), core, Expand(b, Column(a + core, 0)));
  }

  // ----- Lines -----

  /** Reading in text mode turns "\r\n" and "\r" into "\n". */
  function Translate(t: string): string {
    if t == [] then []
    else if t[0] == '\r' then
      if |t| > 1 && t[1] == '\n' then Translate(t[1..]) else ['\n'] + Translate(t[1..])
    else [t[0]] + Translate(t[1..])
  }

  /** The length of the first line of `t`, with its line end. */
  function LineLength(t: string): (n: nat)
    ensures n <= |t| && (t != [] ==> n > 0)
  {
    if t == [] then 0 else if t[0] == '\n' then 1 else 1 + LineLength(t[1..])
  }

  /** `readlines`. */
  function SplitLines(t: string): seq<string>
    decreases |t|
  {
    if t == [] then [] else [t[..LineLength(t)]] + SplitLines(t[LineLength(t)..])
  }

  /** `writelines`. */
  function Concat(lines: seq<string>): string {
    if lines == [] then [] else lines[0] + Concat(lines[1..])
  }

  /** A line as `readlines` gives it: not empty, a line end at most as its last character. */
  ghost predicate IsLine(l: string) {
    && l != []
    && (forall i | 0 <= i < |l| :: l[i] != '\r')
    && (forall i | 0 <= i < |l| - 1 :: l[i] != '\n')
  }

  ghost predicate Ended(l: string) {
    l != [] && l[|l| - 1] == '\n'
  }

  ghost predicate AreLines(lines: seq<string>) {
    && (forall i | 0 <= i < |lines| :: IsLine(lines[i]))
    && (forall i | 0 <= i < |lines| - 1 :: Ended(lines[i]))
  }

  ghost predicate NoReturn(t: string) {
    forall i | 0 <= i < |t| :: t[i] != '\r'
  }

  lemma {:induction false} TranslateNoReturn(t: string)
    ensures NoReturn(Translate(t))
    ensures NoReturn(t) ==> Translate(t) == t
  {
    if t == [] {
    } else {
      TranslateNoReturn(t[1..]);
      assert t == [t[0]] + t[1..];
    }
  }

  lemma {:induction false} LineLengthIsFirstEnd(t: string)
    ensures forall i | 0 <= i < LineLength(t) - 1 :: t[i] != '\n'
    ensures LineLength(t) < |t| ==> LineLength(t) > 0 && t[LineLength(t) - 1] == '\n'
  {
    if t == [] || t[0] == '\n' {
    } else {
      LineLengthIsFirstEnd(t[1..]);
      forall i | 0 <= i < LineLength(t) - 1 ensures t[i] != '\n' {
        if i > 0 { assert t[i] == t[1..][i - 1]; }
      }
    }
  }

  lemma {:induction false} SplitGivesLines(t: string)
    requires NoReturn(t)
    ensures AreLines(SplitLines(t))
    decreases |t|
  {
    if t == [] {
    } else {
      var n := LineLength(t);
      LineLengthIsFirstEnd(t);
      SplitGivesLines(t[n..]);
      AreLinesCons(t[..n], SplitLines(t[n..]));
    }
  }

  lemma AreLinesCons(l: string, rest: seq<string>)
    requires IsLine(l) && AreLines(rest) && (rest != [] ==> Ended(l))
    ensures AreLines([l] + rest)
  {}

  lemma {:induction false} LineLengthOf(l: string, rest: string)
    requires IsLine(l) && (Ended(l) || rest == [])
    ensures LineLength(l + rest) == |l|
  {
    if |l| == 1 {
      if l[0] != '\n' { assert (l + rest)[1..] == []; }
    } else {
      assert (l + rest)[1..] == l[1..] + rest;
      LineLengthOf(l[1..], rest);
    }
  }

  /** Writing lines and reading them back gives the same lines. */
  lemma {:induction false} SplitOfConcat(lines: seq<string>)
    requires AreLines(lines)
    ensures SplitLines(Concat(lines)) == lines && NoReturn(Concat(lines))
  {
    if lines == [] {
    } else {
      var l, rest := lines[0], Concat(lines[1..]);
      assert IsLine(l);
      SplitOfConcat(lines[1..]);
      if |lines| > 1 { assert Ended(lines[0]); } else { assert lines[1..] == []; }
      LineLengthOf(l, rest);
      assert (l + rest)[..|l|] == l && (l + rest)[|l|..] == rest;
      assert lines == [l] + lines[1..];
    }
  }

  /** What a checker sees of a file with this content. */
  function ReadLines(text: string): seq<string> {
    SplitLines(Translate(text))
  }

  lemma ReadGivesLines(text: string)
    ensures AreLines(ReadLines(text))
  {
    TranslateNoReturn(text);
    SplitGivesLines(Translate(text));
  }

  lemma ReadOfWritten(lines: seq<string>)
    requires AreLines(lines)
    ensures ReadLines(Concat(lines)) == lines
  {
    SplitOfConcat(lines);
    TranslateNoReturn(Concat(lines));
  }

  /** Splitting into lines loses nothing. */
  lemma {:induction false} ConcatOfSplit(t: string)
    ensures Concat(SplitLines(t)) == t
    decreases |t|
  {
    if t == [] {
    } else {
      var n := LineLength(t);
      ConcatOfSplit(t[n..]);
      assert t[..n] + t[n..] == t;
    }
  }

  /** "\r\n" is one line end. */
  lemma {:induction false} TranslatePair(a: string, b: string)
    ensures Translate(a + "\r\n" + b) == Translate(a) + "\n" + Translate(b)
    decreases |a|
  {
    if a == [] {
      var t := "\r\n" + b;
      assert a + "\r\n" + b == t && t[1..] == "\n" + b && ("\n" + b)[1..] == b;
    } else {
      var t := a + "\r\n" + b;
      assert t[1..] == a[1..] + "\r\n" + b;
      TranslatePair(a[1..], b);
      if |a| > 1 { assert t[1] == a[1]; } else { assert t[1] == '\r'; }
    }
  }

  /** A "\r" alone is one too. */
  lemma {:induction false} TranslateReturn(a: string, b: string)
    requires b == [] || b[0] != '\n'
    ensures Translate(a + "\r" + b) == Translate(a) + "\n" + Translate(b)
    decreases |a|
  {
    if a == [] {
      var t := "\r" + b;
      assert a + "\r" + b == t && t[1..] == b;
    } else {
      var t := a + "\r" + b;
      assert t[1..] == a[1..] + "\r" + b;
      TranslateReturn(a[1..], b);
      if |a| > 1 { assert t[1] == a[1]; } else { assert t[1] == '\r'; }
    }
  }

  lemma {:induction false} ColumnConcat(s: string, t: string, column: nat)
    ensures Column(s + t, column) == Column(t, Column(s, column))
  {
    if s == [] {
      assert s + t == t;
    } else {
      assert (s + t)[1..] == s[1..] + t;
      ColumnConcat(s[1..], t, NextColumn(s[0], column));
    }
  }

  /** In a text without line ends the column is the length of what has been written. */
  lemma {:induction false} ColumnIsLength(s: string, column: nat)
    requires forall i | 0 <= i < |s| :: s[i] != '\n' && s[i] != '\r'
    ensures Column(s, column) == column + |Expand(s, column)|
  {
    if s == [] {
    } else {
      ColumnIsLength(s[1..], NextColumn(s[0], column));
    }
  }

  lemma NextStop(column: nat)
    ensures 1 <= TAB_SIZE - column % TAB_SIZE <= 4 && (column + (TAB_SIZE - column % TAB_SIZE)) % 4 == 0
  {
    var q, r := column / 4, column % 4;
    assert column + (4 - r) == 4 * (q + 1);
  }

  /** The blanks lead from `column` to the next multiple of four. */
  ghost predicate LeadsToStop(blanks: string, column: nat) {
    && 1 <= |blanks| <= 4 && (column + |blanks|) % 4 == 0
    && forall i | 0 <= i < |blanks| :: blanks[i] == ' '
  }

  lemma ExpandOne(c: char, column: nat)
    ensures c != '\t' ==> Expand([c], column) == [c]
    ensures c == '\t' ==> LeadsToStop(Expand([c], column), column)
  {
    assert [c][1..] == [];
    NextStop(column);
    var first := if c == '\t' then Blanks(TAB_SIZE - column % TAB_SIZE) else [c];
    assert Expand([c], column) == first + [] == first;
  }

  /** Within a line, a tab becomes the one to four blanks that lead to the next multiple of four, and every other character
      stays. */
  lemma ExpandCharacter(s: string, c: char)
    requires forall i | 0 <= i < |s| :: s[i] != '\n' && s[i] != '\r'
    ensures c != '\t' ==> Expand(s + [c], 0) == Expand(s, 0) + [c]
    ensures c == '\t' ==> exists blanks ::
      Expand(s + [c], 0) == Expand(s, 0) + blanks && LeadsToStop(blanks, |Expand(s, 0)|)
  {
    ExpandConcat(s, [c], 0);
    ColumnIsLength(s, 0);
    ExpandOne(c, Column(s, 0));
  }
}
