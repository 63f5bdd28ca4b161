/** The whitespace and tab passes of check-style-clang-format.py.

    A file is its text; what a pass sees of it are the lines that reading in text mode gives.
  */
module StyleFix {
  import opened Text

  // ----- The tab pass -----

  const GUARD_ON := "// clang-format on"
  const GUARD_OFF := "// clang-format off"

  predicate IsGuard(line: string) {
    Strip(line) == GUARD_ON || Strip(line) == GUARD_OFF
  }

  /** Whether checking is on after the guards of the first `n` lines. */
  function Trace(lines: seq<string>, n: nat): bool
    requires n <= |lines|
  {
    if n == 0 then true
    else if Strip(lines[n - 1]) == GUARD_ON then true
    else if Strip(lines[n - 1]) == GUARD_OFF then false
    else Trace(lines, n - 1)
  }

  /** Line `i` is looked at: checking is on, or the line is itself a guard. */
  predicate Checked(lines: seq<string>, i: nat)
    requires i < |lines|
  {
    Trace(lines, i + 1) || IsGuard(lines[i])
  }

  function TabFixed(lines: seq<string>, i: nat): string
    requires i < |lines|
  {
    if Checked(lines, i) then Expand(lines[i], 0) else lines[i]
  }

  /** The first `n` lines after the tab pass. */
  function TabFix(lines: seq<string>, n: nat): seq<string>
    requires n <= |lines|
  {
    if n == 0 then [] else TabFix(lines, n - 1) + [TabFixed(lines, n - 1)]
  }

  ghost predicate TabErrorAt(lines: seq<string>, i: int) {
    0 <= i < |lines| && Checked(lines, i) && !NoTab(lines[i])
  }

  /** The numbers of the lines with an error, counted from 1, among the first `n`. */
  ghost function TabErrors(lines: seq<string>, n: nat): seq<nat> {
    if n == 0 then [] else TabErrors(lines, n - 1) + (if TabErrorAt(lines, n - 1) then [n] else [])
  }

  ghost predicate TabsOk(lines: seq<string>) {
    forall i :: !TabErrorAt(lines, i)
  }

  ghost predicate TabClean(text: string) {
    TabErrors(ReadLines(text), |ReadLines(text)|) == []
  }

  // ----- The whitespace pass -----

  function SpaceFixed(line: string): string {
    RStrip(line) + "\n"
  }

  function SpaceFix(lines: seq<string>, n: nat): seq<string>
    requires n <= |lines|
  {
    if n == 0 then [] else SpaceFix(lines, n - 1) + [SpaceFixed(lines[n - 1])]
  }

  ghost predicate SpaceErrorAt(lines: seq<string>, i: int) {
    0 <= i < |lines| && SpaceFixed(lines[i]) != lines[i]
  }

  ghost function SpaceErrors(lines: seq<string>, n: nat): seq<nat> {
    if n == 0 then [] else SpaceErrors(lines, n - 1) + (if SpaceErrorAt(lines, n - 1) then [n] else [])
  }

  ghost predicate SpaceOk(lines: seq<string>) {
    forall i :: !SpaceErrorAt(lines, i)
  }

  ghost predicate SpaceClean(text: string) {
    SpaceErrors(ReadLines(text), |ReadLines(text)|) == []
  }

  lemma AppendAt<T>(s: seq<T>, x: T, i: nat)
    requires i <= |s|
    ensures (s + [x])[i] == if i < |s| then s[i] else x
  {}

  lemma {:induction false} TabFixAt(lines: seq<string>, n: nat)
    requires n <= |lines|
    ensures |TabFix(lines, n)| == n && forall i | 0 <= i < n :: TabFix(lines, n)[i] == TabFixed(lines, i)
  {
    if n == 0 {
    } else {
      var before, last := TabFix(lines, n - 1), TabFixed(lines, n - 1);
      TabFixAt(lines, n - 1);
      assert TabFix(lines, n) == before + [last];
      forall i | 0 <= i < n ensures TabFix(lines, n)[i] == TabFixed(lines, i) {
        AppendAt(before, last, i);
      }
    }
  }

  lemma {:induction false} SpaceFixAt(lines: seq<string>, n: nat)
    requires n <= |lines|
    ensures |SpaceFix(lines, n)| == n && forall i | 0 <= i < n :: SpaceFix(lines, n)[i] == SpaceFixed(lines[i])
  {
    if n == 0 {
    } else {
      var before, last := SpaceFix(lines, n - 1), SpaceFixed(lines[n - 1]);
      SpaceFixAt(lines, n - 1);
      assert SpaceFix(lines, n) == before + [last];
      forall i | 0 <= i < n ensures SpaceFix(lines, n)[i] == SpaceFixed(lines[i]) {
        AppendAt(before, last, i);
      }
    }
  }

  lemma {:induction false} TabErrorsMember(lines: seq<string>, n: nat, k: nat)
    ensures k in TabErrors(lines, n) <==> k <= n && TabErrorAt(lines, k - 1)
  {
    if n == 0 {
    } else {
      TabErrorsMember(lines, n - 1, k);
    }
  }

  lemma {:induction false} SpaceErrorsMember(lines: seq<string>, n: nat, k: nat)
    ensures k in SpaceErrors(lines, n) <==> k <= n && SpaceErrorAt(lines, k - 1)
  {
    if n == 0 {
    } else {
      SpaceErrorsMember(lines, n - 1, k);
    }
  }

  /** The line numbers are reported in order, each once. */
  lemma {:induction false} TabErrorsIncrease(lines: seq<string>, n: nat)
    ensures forall i, j | 0 <= i < j < |TabErrors(lines, n)| :: TabErrors(lines, n)[i] < TabErrors(lines, n)[j]
    ensures forall k | k in TabErrors(lines, n) :: k <= n
  {
    if n == 0 {
    } else {
      TabErrorsIncrease(lines, n - 1);
      IncreasingSnoc(TabErrors(lines, n - 1), n);
    }
  }

  lemma {:induction false} SpaceErrorsIncrease(lines: seq<string>, n: nat)
    ensures forall i, j | 0 <= i < j < |SpaceErrors(lines, n)| :: SpaceErrors(lines, n)[i] < SpaceErrors(lines, n)[j]
    ensures forall k | k in SpaceErrors(lines, n) :: k <= n
  {
    if n == 0 {
    } else {
      SpaceErrorsIncrease(lines, n - 1);
      IncreasingSnoc(SpaceErrors(lines, n - 1), n);
    }
  }

  lemma IncreasingSnoc(s: seq<nat>, n: nat)
    requires (forall i, j | 0 <= i < j < |s| :: s[i] < s[j]) && forall k | k in s :: k < n
    ensures forall i, j | 0 <= i < j < |s + [n]| :: (s + [n])[i] < (s + [n])[j]
  {
    forall i | 0 <= i < |s| ensures s[i] < n { assert s[i] in s; }
  }

  lemma TabsOkIffNoErrors(lines: seq<string>)
    ensures TabsOk(lines) <==> TabErrors(lines, |lines|) == []
  {
    forall i: int ensures TabErrorAt(lines, i) ==> i + 1 in TabErrors(lines, |lines|) {
      if TabErrorAt(lines, i) { TabErrorsMember(lines, |lines|, i + 1); }
    }
    if TabErrors(lines, |lines|) != [] {
      TabErrorsMember(lines, |lines|, TabErrors(lines, |lines|)[0]);
    }
  }

  lemma SpaceOkIffNoErrors(lines: seq<string>)
    ensures SpaceOk(lines) <==> SpaceErrors(lines, |lines|) == []
  {
    forall i: int ensures SpaceErrorAt(lines, i) ==> i + 1 in SpaceErrors(lines, |lines|) {
      if SpaceErrorAt(lines, i) { SpaceErrorsMember(lines, |lines|, i + 1); }
    }
    if SpaceErrors(lines, |lines|) != [] {
      SpaceErrorsMember(lines, |lines|, SpaceErrors(lines, |lines|)[0]);
    }
  }

  // ----- The passes over the lines of a file -----

  lemma UpdateAt<T>(s: seq<T>, start: seq<T>, i: nat, x: T)
    requires i < |s| == |start| && s[i..] == start[i..]
    ensures s[i := x][..i + 1] == s[..i] + [x] && s[i := x][i + 1..] == start[i + 1..]
    ensures x == start[i] ==> s[i := x] == s
  {
    assert s[i] == s[i..][0] == start[i];
    assert s[i + 1..] == s[i..][1..] == start[i..][1..] == start[i + 1..];
  }

  /** One round of the loop of `check_tabs_file`: the guard check, then the search for a tab. */
  method TabLine(lines: seq<string>, i: nat, before: bool) returns (enabled: bool, error: bool, fixed: string)
    requires i < |lines| && before == Trace(lines, i)
    ensures enabled == Trace(lines, i + 1)
    ensures error <==> TabErrorAt(lines, i)
    ensures fixed == TabFixed(lines, i) && (!error ==> fixed == lines[i])
  {
    enabled, error, fixed := before, false, lines[i];
    var stripped := Strip(lines[i]);
    if stripped == GUARD_ON {
      enabled := true;
    } else if stripped == GUARD_OFF {
      enabled := false;
    }
    if !enabled && stripped != GUARD_ON && stripped != GUARD_OFF {
      return;
    }
    ExpandNoTab(lines[i], 0);
    error := '\t' in lines[i];
    if error {
      fixed := Expand(lines[i], 0);
    }
  }

  /** The loop of `check_tabs_file`.  Without `fix` and `verbose` it stops at the first error. */
  method TabPass(lines: seq<string>, fix: bool, verbose: bool)
    returns (compliant: bool, fileLines: seq<string>, errors: seq<nat>)
    ensures compliant <==> TabErrors(lines, |lines|) == []
    ensures fix ==> fileLines == TabFix(lines, |lines|)
    ensures verbose ==> errors == TabErrors(lines, |lines|)
  {
    compliant, fileLines, errors := true, lines, [];
    var enabled := true;
    for i := 0 to |lines|
      invariant enabled == Trace(lines, i)
      invariant compliant <==> TabErrors(lines, i) == []
      invariant |fileLines| == |lines| && fileLines[i..] == lines[i..]
      invariant fileLines[..i] == TabFix(lines, i)
      invariant verbose ==> errors == TabErrors(lines, i)
    {
      var error, fixed;
      enabled, error, fixed := TabLine(lines, i, enabled);
      UpdateAt(fileLines, lines, i, fixed);
      if !error {
        continue;
      }
      compliant := false;
      fileLines := fileLines[i := fixed];
      if verbose {
        errors := errors + [i + 1];
      }
      if !fix && !verbose {
        TabErrorsMember(lines, |lines|, i + 1);
        break;
      }
    }
  }

  /** One round of the loop of `check_trailing_whitespace_file`. */
  method SpaceLine(lines: seq<string>, i: nat) returns (error: bool, lineFixed: string)
    requires i < |lines|
    ensures error <==> SpaceErrorAt(lines, i)
    ensures lineFixed == SpaceFixed(lines[i]) && (!error ==> lineFixed == lines[i])
  {
    lineFixed := RStrip(lines[i]) + "\n";
    error := lineFixed != lines[i];
  }

  /** The loop of `check_trailing_whitespace_file`. */
  method SpacePass(lines: seq<string>, fix: bool, verbose: bool)
    returns (compliant: bool, fileLines: seq<string>, errors: seq<nat>)
    ensures compliant <==> SpaceErrors(lines, |lines|) == []
    ensures fix ==> fileLines == SpaceFix(lines, |lines|)
    ensures verbose ==> errors == SpaceErrors(lines, |lines|)
  {
    compliant, fileLines, errors := true, lines, [];
    for i := 0 to |lines|
      invariant compliant <==> SpaceErrors(lines, i) == []
      invariant |fileLines| == |lines| && fileLines[i..] == lines[i..]
      invariant fileLines[..i] == SpaceFix(lines, i)
      invariant verbose ==> errors == SpaceErrors(lines, i)
    {
      var error, lineFixed := SpaceLine(lines, i);
      UpdateAt(fileLines, lines, i, lineFixed);
      if !error {
        continue;
      }
      compliant := false;
      fileLines := fileLines[i := lineFixed];
      if verbose {
        errors := errors + [i + 1];
      }
      if !fix && !verbose {
        SpaceErrorsMember(lines, |lines|, i + 1);
        break;
      }
    }
  }

  // ----- The tab pass repairs what it reports, although it can create guards -----

  lemma GuardsHaveNoTabs()
    ensures NoTab(GUARD_ON) && NoTab(GUARD_OFF)
  {}

  /** A guard stays the guard it was. */
  lemma GuardsStay(lines: seq<string>, i: nat)
    requires i < |lines| && IsGuard(lines[i])
    ensures Strip(TabFixed(lines, i)) == Strip(lines[i])
  {
    GuardsHaveNoTabs();
    StripOfExpand(lines[i]);
  }

  /** Checking is on in the fixed lines only where it was on before: a guard that the expansion
      creates stands where checking was on, so it cannot bring in a line that was skipped. */
  lemma {:induction false} TraceShrinks(lines: seq<string>, fixed: seq<string>, n: nat)
    requires fixed == TabFix(lines, |lines|) && n <= |lines|
    ensures |fixed| == |lines| && (Trace(fixed, n) ==> Trace(lines, n))
  {
    TabFixAt(lines, |lines|);
    if n == 0 {
    } else {
      TraceShrinks(lines, fixed, n - 1);
      assert fixed[n - 1] == TabFixed(lines, n - 1);
      if IsGuard(lines[n - 1]) {
        GuardsStay(lines, n - 1);
      }
    }
  }

  /** The second pass looks at no line that the first one skipped. */
  lemma CheckedShrinks(lines: seq<string>, fixed: seq<string>, i: nat)
    requires fixed == TabFix(lines, |lines|) && i < |lines| && |fixed| == |lines|
    ensures Checked(fixed, i) ==> Checked(lines, i)
  {
    TabFixAt(lines, |lines|);
    TraceShrinks(lines, fixed, i + 1);
    assert fixed[i] == TabFixed(lines, i);
  }

  lemma TabFixIsOk(lines: seq<string>)
    ensures TabsOk(TabFix(lines, |lines|))
  {
    var fixed := TabFix(lines, |lines|);
    TabFixAt(lines, |lines|);
    forall i ensures !TabErrorAt(fixed, i) {
      if 0 <= i < |fixed| {
        CheckedShrinks(lines, fixed, i);
        ExpandNoTab(lines[i], 0);
      }
    }
  }

  // ----- Fixed lines are lines -----

  lemma {:induction false} ExpandKeepsLine(l: string, column: nat)
    requires IsLine(l)
    ensures IsLine(Expand(l, column)) && (Ended(l) ==> Ended(Expand(l, column)))
  {
    var rest := l[1..];
    assert l == [l[0]] + rest;
    if rest == [] {
      assert Expand(rest, NextColumn(l[0], column)) == [];
    } else {
      ExpandKeepsLine(rest, NextColumn(l[0], column));
    }
  }

  lemma TabFixKeepsLines(lines: seq<string>)
    requires AreLines(lines)
    ensures AreLines(TabFix(lines, |lines|))
  {
    TabFixAt(lines, |lines|);
    var fixed := TabFix(lines, |lines|);
    forall i | 0 <= i < |lines| ensures IsLine(fixed[i]) && (Ended(lines[i]) ==> Ended(fixed[i])) {
      assert IsLine(lines[i]);
      ExpandKeepsLine(lines[i], 0);
    }
  }

  /** Of a line, stripping leaves text without a line end. */
  lemma RStripOfLine(l: string)
    requires IsLine(l)
    ensures IsLine(SpaceFixed(l)) && Ended(SpaceFixed(l))
  {
    var b := RStripParts(l);
    var core := RStrip(l);
    assert forall i | 0 <= i < |core| :: core[i] == l[i];
    if core != [] {
      assert !IsSpace('\n') || core[|core| - 1] != '\n';
    }
  }

  lemma SpaceFixKeepsLines(lines: seq<string>)
    requires AreLines(lines)
    ensures AreLines(SpaceFix(lines, |lines|))
  {
    SpaceFixAt(lines, |lines|);
    var fixed := SpaceFix(lines, |lines|);
    forall i | 0 <= i < |lines| ensures IsLine(fixed[i]) && Ended(fixed[i]) {
      assert IsLine(lines[i]);
      RStripOfLine(lines[i]);
    }
  }

  lemma SpaceFixIsOk(lines: seq<string>)
    ensures SpaceOk(SpaceFix(lines, |lines|))
  {
    SpaceFixAt(lines, |lines|);
    var fixed := SpaceFix(lines, |lines|);
    forall i ensures !SpaceErrorAt(fixed, i) {
      if 0 <= i < |fixed| {
        var b := RStripParts(lines[i]);
        RStripUnique(RStrip(lines[i]), "\n");
      }
    }
  }

  /** Whitespace fixing leaves every guard, and so the guard trace, as it was. */
  lemma {:induction false} SpaceFixKeepsTrace(lines: seq<string>, n: nat)
    requires n <= |lines|
    ensures |SpaceFix(lines, |lines|)| == |lines| && Trace(SpaceFix(lines, |lines|), n) == Trace(lines, n)
  {
    SpaceFixAt(lines, |lines|);
    if n == 0 {
    } else {
      SpaceFixKeepsTrace(lines, n - 1);
      SpaceFixedStrip(lines[n - 1]);
      assert Strip(SpaceFix(lines, |lines|)[n - 1]) == Strip(lines[n - 1]);
    }
  }

  lemma ExpandKeepsLast(core: string, column: nat)
    requires RightTrimmed(core)
    ensures RightTrimmed(Expand(core, column))
  {
    if core != [] {
      var init, last := core[..|core| - 1], core[|core| - 1];
      assert core == init + [last] && last != '\t';
      ExpandConcat(init, [last], column);
      assert Expand([last], Column(init, column)) == [last] + Expand([], NextColumn(last, Column(init, column)));
    }
  }

  /** Expanding tabs puts no whitespace at the end of a line that had none. */
  lemma ExpandKeepsTrimmed(l: string)
    requires SpaceFixed(l) == l
    ensures SpaceFixed(Expand(l, 0)) == Expand(l, 0)
  {
    var b := RStripParts(l);
    var core := RStrip(l);
    ExpandConcat(core, "\n", 0);
    ExpandNoTab("\n", Column(core, 0));
    ExpandKeepsLast(core, 0);
    RStripUnique(Expand(core, 0), "\n");
  }

  lemma TabFixKeepsTrimmed(lines: seq<string>)
    requires SpaceOk(lines)
    ensures SpaceOk(TabFix(lines, |lines|))
  {
    TabFixAt(lines, |lines|);
    var fixed := TabFix(lines, |lines|);
    forall i ensures !SpaceErrorAt(fixed, i) {
      assert !SpaceErrorAt(lines, i);
      if 0 <= i < |fixed| { TabFixedKeepsTrimmed(lines, i); }
    }
  }

  lemma TabFixedKeepsTrimmed(lines: seq<string>, i: nat)
    requires i < |lines| && !SpaceErrorAt(lines, i)
    ensures SpaceFixed(TabFixed(lines, i)) == TabFixed(lines, i)
  {
    ExpandKeepsTrimmed(lines[i]);
  }

  // ----- What a rewritten file is like when it is read again -----

  function TabFixedText(text: string): string {
    Concat(TabFix(ReadLines(text), |ReadLines(text)|))
  }

  function SpaceFixedText(text: string): string {
    Concat(SpaceFix(ReadLines(text), |ReadLines(text)|))
  }

  /** A check after a tab fix accepts the file, even when the fix has created guards; and the tab fix
      brings back no trailing whitespace. */
  lemma TabFixedFileIsClean(text: string)
    ensures TabClean(TabFixedText(text)) && (SpaceClean(text) ==> SpaceClean(TabFixedText(text)))
  {
    var lines := ReadLines(text);
    ReadGivesLines(text);
    TabFixKeepsLines(lines);
    ReadOfWritten(TabFix(lines, |lines|));
    TabFixIsOk(lines);
    TabsOkIffNoErrors(TabFix(lines, |lines|));
    if SpaceClean(text) {
      SpaceOkIffNoErrors(lines);
      TabFixKeepsTrimmed(lines);
      SpaceOkIffNoErrors(TabFix(lines, |lines|));
    }
  }

  lemma SpaceFixedFileIsClean(text: string)
    ensures SpaceClean(SpaceFixedText(text))
    ensures ReadLines(SpaceFixedText(text)) == SpaceFix(ReadLines(text), |ReadLines(text)|)
  {
    var lines := ReadLines(text);
    ReadGivesLines(text);
    SpaceFixKeepsLines(lines);
    ReadOfWritten(SpaceFix(lines, |lines|));
    SpaceFixIsOk(lines);
    SpaceOkIffNoErrors(SpaceFix(lines, |lines|));
  }

  lemma TabFixedOfOk(lines: seq<string>, i: nat)
    requires i < |lines| && !TabErrorAt(lines, i)
    ensures TabFixed(lines, i) == lines[i]
  {
    ExpandNoTab(lines[i], 0);
  }

  lemma {:induction false} TabFixOfOk(lines: seq<string>, n: nat)
    requires TabsOk(lines) && n <= |lines|
    ensures TabFix(lines, n) == lines[..n]
  {
    if n == 0 {
    } else {
      TabFixOfOk(lines, n - 1);
      TabFixedOfOk(lines, n - 1);
    }
  }

  /** Fixing tabs twice is fixing them once. */
  lemma TabFixIdempotent(text: string)
    ensures TabFixedText(TabFixedText(text)) == TabFixedText(text)
  {
    var lines := ReadLines(text);
    var fixed := TabFix(lines, |lines|);
    ReadGivesLines(text);
    TabFixKeepsLines(lines);
    ReadOfWritten(fixed);
    TabFixIsOk(lines);
    TabFixOfOk(fixed, |fixed|);
    assert fixed[..|fixed|] == fixed;
  }

  /** In the order of the driver, the two fixes leave a file that both passes accept, and the lines
      that the tab pass looks at are those it would have looked at without the whitespace fix. */
  lemma FixesInOrder(text: string, i: nat)
    ensures var spaced := SpaceFixedText(text);
      && SpaceClean(TabFixedText(spaced)) && TabClean(TabFixedText(spaced))
      && (i < |ReadLines(text)| ==> i < |ReadLines(spaced)| && (Checked(ReadLines(spaced), i) <==> Checked(ReadLines(text), i)))
  {
    SpaceFixedFileIsClean(text);
    TabFixedFileIsClean(SpaceFixedText(text));
    var lines := ReadLines(text);
    if i < |lines| {
      SpaceFixKeepsTrace(lines, i + 1);
      SpaceFixAt(lines, |lines|);
      SpaceFixedStrip(lines[i]);
    }
  }

  lemma SpaceFixedStrip(line: string)
    ensures Strip(SpaceFixed(line)) == Strip(line)
  {
    var b := RStripParts(line);
    RStripUnique(RStrip(line), "\n");
  }

  /** A tab at column 3 becomes a single blank. */
  lemma OneBlank(before: string, after: string)
    requires NoTab(before) && NoTab(after) && Column(before, 0) == 3
    ensures Expand(before + "\t" + after, 0) == before + " " + after
  {
    ExpandConcat(before + "\t", after, 0);
    ExpandConcat(before, "\t", 0);
    ExpandNoTab(before, 0);
    ExpandNoTab(after, Column(before + "\t", 0));
    assert Expand("\t", 3) == Blanks(1) + Expand("", 4) == " ";
  }

  lemma ThreeColumns(a: char, b: char, c: char)
    requires a !in {'\t', '\n', '\r'} && b !in {'\t', '\n', '\r'} && c !in {'\t', '\n', '\r'}
    ensures Column([a, b, c], 0) == 3
  {
    assert [a, b, c][1..] == [b, c] && [b, c][1..] == [c] && [c][1..] == [];
    assert Column([], 3) == 3 && Column([c], 2) == 3 && Column([b, c], 1) == 3;
  }

  /** Expanding a tab can turn a comment into a guard: " //", a tab and "clang-format off". */
  lemma ExpansionCreatesGuard(line: string)
    requires line == " //" + "\t" + "clang-format off"
    ensures IsGuard(Expand(line, 0)) && !IsGuard(line)
  {
    ThreeColumns(' ', '/', '/');
    assert [' ', '/', '/'] == " //";
    OneBlank(" //", "clang-format off");
    BlankedIsGuard(Expand(line, 0));
    TabbedIsNoGuard(line);
  }

  lemma BlankedIsGuard(line: string)
    requires line == " //" + " " + "clang-format off"
    ensures Strip(line) == GUARD_OFF
  {
    assert line == " " + GUARD_OFF + "";
    StripUnique(" ", GUARD_OFF, "");
  }

  lemma TabbedIsNoGuard(line: string)
    requires line == " //" + "\t" + "clang-format off"
    ensures !IsGuard(line)
  {
    assert line == " " + line[1..] + "";
    StripUnique(" ", line[1..], "");
    assert line[1..][2] == '\t' && GUARD_OFF[2] == ' ' && GUARD_ON[2] == ' ';
  }

  // ----- Which lines are looked at, from the guards alone -----

  /** The line is one of the two guard comments, with nothing but whitespace around it. */
  ghost predicate GuardComment(line: string) {
    Strip(line) == "// clang-format on" || Strip(line) == "// clang-format off"
  }

  ghost predicate NoGuards(lines: seq<string>, lo: nat, hi: nat)
    requires lo <= hi <= |lines|
  {
    forall k | lo <= k < hi :: !GuardComment(lines[k])
  }

  /** Line `j` switches checking on, and no guard stands between it and line `n`. */
  ghost predicate LastGuardIsOn(lines: seq<string>, j: nat, n: nat)
    requires j < n <= |lines|
  {
    Strip(lines[j]) == "// clang-format on" && NoGuards(lines, j + 1, n)
  }

  ghost predicate SwitchedOn(lines: seq<string>, n: nat)
    requires n <= |lines|
  {
    exists j: nat :: j < n && LastGuardIsOn(lines, j, n)
  }

  lemma GuardTextsDiffer()
    ensures "// clang-format on" != "// clang-format off"
  {
    assert |"// clang-format on"| != |"// clang-format off"|;
  }

  lemma {:induction false} TraceFromGuards(lines: seq<string>, n: nat)
    requires n <= |lines|
    ensures Trace(lines, n) <==> NoGuards(lines, 0, n) || SwitchedOn(lines, n)
  {
    if n == 0 {
    } else {
      TraceFromGuards(lines, n - 1);
      if Strip(lines[n - 1]) == "// clang-format on" {
        assert LastGuardIsOn(lines, n - 1, n);
      } else if Strip(lines[n - 1]) == "// clang-format off" {
        AfterOff(lines, n);
      } else {
        AfterPlainLine(lines, n);
      }
    }
  }

  lemma AfterOff(lines: seq<string>, n: nat)
    requires 0 < n <= |lines| && Strip(lines[n - 1]) == "// clang-format off"
    ensures !NoGuards(lines, 0, n) && !SwitchedOn(lines, n) && !Trace(lines, n)
  {
    GuardTextsDiffer();
    assert GuardComment(lines[n - 1]);
    forall j: nat | j < n ensures !LastGuardIsOn(lines, j, n) {}
  }

  lemma AfterPlainLine(lines: seq<string>, n: nat)
    requires 0 < n <= |lines| && !GuardComment(lines[n - 1])
    ensures NoGuards(lines, 0, n) <==> NoGuards(lines, 0, n - 1)
    ensures SwitchedOn(lines, n) <==> SwitchedOn(lines, n - 1)
    ensures Trace(lines, n) <==> Trace(lines, n - 1)
  {
    assert !IsGuard(lines[n - 1]);
    var m := n - 1;
    if j: nat :| j < n && LastGuardIsOn(lines, j, n) {
      assert j < m && LastGuardIsOn(lines, j, m);
    }
    if j: nat :| j < m && LastGuardIsOn(lines, j, m) {
      assert LastGuardIsOn(lines, j, n);
    }
  }

  /** A line is looked at exactly if it is a guard, or no guard stands before it, or the last guard before it switches
      checking on. */
  lemma CheckedIff(lines: seq<string>, i: nat)
    requires i < |lines|
    ensures Checked(lines, i) <==>
            || GuardComment(lines[i])
            || NoGuards(lines, 0, i)
            || SwitchedOn(lines, i)
  {
    assert IsGuard(lines[i]) <==> GuardComment(lines[i]);
    assert !IsGuard(lines[i]) ==> Trace(lines, i + 1) == Trace(lines, i);
    TraceFromGuards(lines, i);
  }

  /** On a file without guards the tab check accepts exactly the files without tabs, and the fix expands every line. */
  lemma WithoutGuards(text: string)
    requires NoGuards(ReadLines(text), 0, |ReadLines(text)|)
    ensures TabClean(text) <==> forall i | 0 <= i < |ReadLines(text)| :: '\t' !in ReadLines(text)[i]
    ensures |ReadLines(TabFixedText(text))| == |ReadLines(text)|
    ensures forall i | 0 <= i < |ReadLines(text)| ::
      ReadLines(TabFixedText(text))[i] == Expand(ReadLines(text)[i], 0) && '\t' !in ReadLines(TabFixedText(text))[i]
  {
    var lines := ReadLines(text);
    ReadGivesLines(text);
    TabFixKeepsLines(lines);
    ReadOfWritten(TabFix(lines, |lines|));
    TabFixAt(lines, |lines|);
    TabsOkIffNoErrors(lines);
    forall i | 0 <= i < |lines| ensures Checked(lines, i) && '\t' !in Expand(lines[i], 0) {
      CheckedIff(lines, i);
      ExpandNoTab(lines[i], 0);
    }
    forall i ensures TabErrorAt(lines, i) <==> 0 <= i < |lines| && '\t' in lines[i] {}
  }

  /** What the whitespace check accepts: a line end with no whitespace before it. */
  lemma SpaceCleanLine(line: string)
    ensures SpaceFixed(line) == line <==>
            line != [] && line[|line| - 1] == '\n' && (|line| > 1 ==> !IsSpace(line[|line| - 2]))
  {
    if line != [] && line[|line| - 1] == '\n' && (|line| > 1 ==> !IsSpace(line[|line| - 2])) {
      var core := line[..|line| - 1];
      assert line == core + "\n";
      RStripUnique(core, "\n");
    }
    if SpaceFixed(line) == line {
      var b := RStripParts(line);
      assert line[..|line| - 1] == RStrip(line);
    }
  }

  // ----- The passes on files -----

  class SourceFile {
    var text: string

    /** Returns whether the file was compliant; in fix mode it is rewritten when it was not. */
    method CheckTabs(fix: bool, verbose: bool) returns (compliant: bool, errors: seq<nat>)
      modifies this
      ensures compliant <==> TabClean(old(text))
      ensures text == if fix && !compliant then TabFixedText(old(text)) else old(text)
      ensures verbose ==> errors == TabErrors(ReadLines(old(text)), |ReadLines(old(text))|)
    {
      var fileLines;
      compliant, fileLines, errors := TabPass(ReadLines(text), fix, verbose);
      if fix && !compliant {
        text := Concat(fileLines);
      }
    }

    method CheckTrailingWhitespace(fix: bool, verbose: bool) returns (compliant: bool, errors: seq<nat>)
      modifies this
      ensures compliant <==> SpaceClean(old(text))
      ensures text == if fix && !compliant then SpaceFixedText(old(text)) else old(text)
      ensures verbose ==> errors == SpaceErrors(ReadLines(old(text)), |ReadLines(old(text))|)
    {
      var fileLines;
      compliant, fileLines, errors := SpacePass(ReadLines(text), fix, verbose);
      if fix && !compliant {
        text := Concat(fileLines);
      }
    }
  }
}
