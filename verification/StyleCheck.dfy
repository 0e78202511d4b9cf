/** The tab and trailing-whitespace fixers (utils/check-style-clang-format.py:54-55, 128,
    340-356, 573-594, 683-718). */
module StyleCheck {
  import opened PythonText

  /** The texts of the two guard lines. What follows holds for any texts without tabs. */
  datatype Markers = Markers(on: string, off: string)
  {
    predicate Plain() {
      '\t' !in on && '\t' !in off
    }
  }

  const CLANG_FORMAT := Markers("// clang-format on", "// clang-format off")

  // ---------------------------------------------------------------- the tab fixer on lines

  datatype Guard = On | Off | NoGuard

  function GuardOf(m: Markers, stripped: string): Guard {
    if stripped == m.on then On else if stripped == m.off then Off else NoGuard
  }

  function Guards(m: Markers, lines: seq<string>): (r: seq<Guard>)
    ensures |r| == |lines| && forall i | 0 <= i < |lines| :: r[i] == GuardOf(m, Strip(lines[i]))
  {
    seq(|lines|, i requires 0 <= i < |lines| => GuardOf(m, Strip(lines[i])))
  }

  /** `clang_format_enabled` after the first `n` lines. */
  function EnabledAfter(guards: seq<Guard>, n: nat): bool
    requires n <= |guards|
  {
    if n == 0 then true else
    match guards[n - 1]
    case On => true
    case Off => false
    case NoGuard => EnabledAfter(guards, n - 1)
  }

  /** Formatting is on unless it was switched off and not on again since. */
  lemma {:induction false} EnabledMeans(guards: seq<Guard>, n: nat)
    requires n <= |guards|
    ensures EnabledAfter(guards, n) <==>
            forall j | 0 <= j < n && guards[j] == Off :: exists k :: j < k < n && guards[k] == On
  {
    if n > 0 {
      EnabledMeans(guards, n - 1);
      if guards[n - 1] == NoGuard {
        assert forall j | 0 <= j < n && guards[j] == Off :: j < n - 1;
      }
    }
  }

  /** Whether line `i` is looked at for tabs. */
  predicate Checked(guards: seq<Guard>, i: nat)
    requires i < |guards|
  {
    EnabledAfter(guards, i + 1) || guards[i] != NoGuard
  }

  /** Line `i` has a tab to report. */
  ghost predicate TabAt(m: Markers, lines: seq<string>, i: nat)
    requires i < |lines|
  {
    Checked(Guards(m, lines), i) && '\t' in lines[i]
  }

  ghost predicate HasTabs(m: Markers, lines: seq<string>) {
    exists i :: 0 <= i < |lines| && TabAt(m, lines, i)
  }

  function FixTabsAt(m: Markers, lines: seq<string>, i: nat): string
    requires i < |lines|
  {
    if Checked(Guards(m, lines), i) then ExpandTabs(lines[i]) else lines[i]
  }

  function FixTabs(m: Markers, lines: seq<string>): (r: seq<string>)
    ensures |r| == |lines| && forall i | 0 <= i < |lines| :: r[i] == FixTabsAt(m, lines, i)
  {
    seq(|lines|, i requires 0 <= i < |lines| => FixTabsAt(m, lines, i))
  }

  // ---------------------------------------------------------------- the whitespace fixer on lines

  function FixSpaceOf(line: string): string {
    RStrip(line) + "\n"
  }

  function FixSpace(lines: seq<string>): (r: seq<string>)
    ensures |r| == |lines| && forall i | 0 <= i < |lines| :: r[i] == FixSpaceOf(lines[i])
  {
    seq(|lines|, i requires 0 <= i < |lines| => FixSpaceOf(lines[i]))
  }

  ghost predicate HasTrailingSpace(lines: seq<string>) {
    exists i :: 0 <= i < |lines| && FixSpaceOf(lines[i]) != lines[i]
  }

  // ---------------------------------------------------------------- guards

  /** A guard line stays the guard it is. */
  lemma ExpandedGuard(m: Markers, line: string)
    requires m.Plain()
    requires GuardOf(m, Strip(line)) != NoGuard
    ensures Strip(ExpandTabs(line)) == Strip(line)
  {
    ExpandKeepsStrip(line);
  }

  /** The second pass sees more guards, but the same ones on guard lines and wherever the
      first pass was not enabled. */
  ghost predicate Simulates(first: seq<Guard>, second: seq<Guard>) {
    && |first| == |second|
    && forall i | 0 <= i < |first| :: first[i] != NoGuard || !EnabledAfter(first, i + 1) ==> second[i] == first[i]
  }

  lemma FirstPassSimulated(m: Markers, lines: seq<string>)
    requires m.Plain()
    ensures Simulates(Guards(m, lines), Guards(m, FixTabs(m, lines)))
  {
    forall i | 0 <= i < |lines| && GuardOf(m, Strip(lines[i])) != NoGuard
      ensures Strip(ExpandTabs(lines[i])) == Strip(lines[i])
    {
      ExpandedGuard(m, lines[i]);
    }
  }

  /** Where the second pass is enabled the first was. */
  lemma {:induction false} SecondPassEnabled(first: seq<Guard>, second: seq<Guard>, n: nat)
    requires Simulates(first, second) && n <= |first|
    requires EnabledAfter(second, n)
    ensures EnabledAfter(first, n)
  {
    if n > 0 && !EnabledAfter(first, n) {
      assert second[n - 1] == first[n - 1];
      SecondPassEnabled(first, second, n - 1);
      assert false;
    }
  }

  lemma SecondPassChecked(first: seq<Guard>, second: seq<Guard>, i: nat)
    requires Simulates(first, second) && i < |first|
    requires Checked(second, i)
    ensures Checked(first, i)
  {
    if EnabledAfter(second, i + 1) {
      SecondPassEnabled(first, second, i + 1);
    }
  }

  /** Whatever the second pass looks at, the first one has expanded. */
  lemma SecondPassChecks(m: Markers, lines: seq<string>, i: nat)
    requires m.Plain()
    requires i < |lines| && Checked(Guards(m, FixTabs(m, lines)), i)
    ensures Checked(Guards(m, lines), i)
  {
    FirstPassSimulated(m, lines);
    SecondPassChecked(Guards(m, lines), Guards(m, FixTabs(m, lines)), i);
  }

  /** The tab fix leaves nothing to report. */
  lemma FixedTabsAreGone(m: Markers, lines: seq<string>)
    requires m.Plain()
    ensures !HasTabs(m, FixTabs(m, lines))
  {
    forall i | 0 <= i < |lines|
      ensures !TabAt(m, FixTabs(m, lines), i)
    {
      if Checked(Guards(m, FixTabs(m, lines)), i) {
        SecondPassChecks(m, lines, i);
        ExpandedChars(lines[i], 0);
      }
    }
  }

  /** A file has something to report if and only if the fix changes it. */
  lemma HasTabsMeansChange(m: Markers, lines: seq<string>)
    ensures HasTabs(m, lines) <==> FixTabs(m, lines) != lines
  {
    if i :| 0 <= i < |lines| && TabAt(m, lines, i) {
      ExpandedChars(lines[i], 0);
      assert FixTabs(m, lines)[i] != lines[i];
    } else {
      forall i | 0 <= i < |lines|
        ensures FixTabs(m, lines)[i] == lines[i]
      {
        assert !TabAt(m, lines, i);
        if Checked(Guards(m, lines), i) {
          ExpandNothing(lines[i], 0);
        }
      }
    }
  }

  /** The tab fix is idempotent. */
  lemma FixTabsIdempotent(m: Markers, lines: seq<string>)
    requires m.Plain()
    ensures FixTabs(m, FixTabs(m, lines)) == FixTabs(m, lines)
  {
    FixedTabsAreGone(m, lines);
    HasTabsMeansChange(m, FixTabs(m, lines));
  }

  /** Lines in a region that the guards switch off stay as they are, tabs included. */
  lemma DisabledLinesStay(m: Markers, lines: seq<string>, i: nat)
    requires m.Plain()
    requires i < |lines| && !EnabledAfter(Guards(m, lines), i + 1) && Guards(m, lines)[i] == NoGuard
    ensures FixTabs(m, lines)[i] == lines[i]
    ensures !Checked(Guards(m, FixTabs(m, lines)), i)
  {
    if Checked(Guards(m, FixTabs(m, lines)), i) {
      SecondPassChecks(m, lines, i);
      assert false;
    }
  }

  /** The fix can make a guard of a line that was none. */
  lemma ExpansionMakesGuard()
    ensures var line := "// clang-format" + "\t" + "off\n";
            && GuardOf(CLANG_FORMAT, Strip(line)) == NoGuard
            && GuardOf(CLANG_FORMAT, Strip(ExpandTabs(line))) == Off
  {
    StripLine("// clang-format" + "\t" + "off");
    StripLine("// clang-format" + " " + "off");
    assert "// clang-format" + "\t" + "off" + "\n" == "// clang-format" + "\t" + "off\n";
    assert "// clang-format" + " " + "off" + "\n" == "// clang-format" + " " + "off\n";
    ExpandedExample("// clang-format", "off\n");
    TabIsNoGuard("// clang-format" + "\t" + "off");
    assert "// clang-format" + " " + "off" == CLANG_FORMAT.off;
  }

  lemma StripLine(s: string)
    requires s != [] && !IsSpace(s[0]) && !IsSpace(s[|s| - 1])
    ensures Strip(s + "\n") == s
  {
    StripIgnores("", s, "\n");
    assert "" + s + "\n" == s + "\n";
  }

  lemma TabIsNoGuard(s: string)
    requires |s| > 15 && s[15] == '\t'
    ensures GuardOf(CLANG_FORMAT, s) == NoGuard
  {
    assert CLANG_FORMAT.off[15] == ' ' && CLANG_FORMAT.on[15] == ' ';
  }

  /** A tab in column 15 stands for one space. */
  lemma ExpandedExample(a: string, b: string)
    requires |a| == 15 && (forall c | c in a :: c !in "\t\n\r") && '\t' !in b
    ensures ExpandTabs(a + "\t" + b) == a + " " + b
  {
    ExpandConcat(a + "\t", b, 0);
    ExpandConcat(a, "\t", 0);
    ExpandNothing(a, 0);
    ColumnAfterPlain(a, 0);
    assert ExpandFrom("\t", 15) == " ";
    ExpandNothing(b, ColumnAfter(a + "\t", 0));
  }

  lemma {:induction false} ColumnAfterPlain(s: string, col: nat)
    requires forall c | c in s :: c !in "\t\n\r"
    ensures ColumnAfter(s, col) == col + |s|
  {
    if s != [] {
      assert s[0] in s;
      ColumnAfterPlain(s[1..], col + 1);
    }
  }

  // ---------------------------------------------------------------- both fixes

  lemma FixSpaceKeepsStrip(line: string)
    ensures Strip(FixSpaceOf(line)) == Strip(line)
    ensures RStrip(FixSpaceOf(line)) == RStrip(line)
  {
    var tail := RStripSplits(line);
    RStripIgnores(RStrip(line), "\n");
    RStripIgnores(RStrip(line), tail);
  }

  lemma FixSpaceIdempotent(lines: seq<string>)
    ensures FixSpace(FixSpace(lines)) == FixSpace(lines)
  {
    forall i | 0 <= i < |lines|
      ensures FixSpace(FixSpace(lines))[i] == FixSpace(lines)[i]
    {
      FixSpaceKeepsStrip(lines[i]);
    }
  }

  lemma HasTrailingSpaceMeansChange(lines: seq<string>)
    ensures HasTrailingSpace(lines) <==> FixSpace(lines) != lines
  {
    if i :| 0 <= i < |lines| && FixSpaceOf(lines[i]) != lines[i] {
      assert FixSpace(lines)[i] != lines[i];
    } else {
      assert forall i | 0 <= i < |lines| :: FixSpace(lines)[i] == lines[i];
    }
  }

  lemma FixSpaceKeepsGuards(m: Markers, lines: seq<string>)
    ensures Guards(m, FixSpace(lines)) == Guards(m, lines)
  {
    forall i | 0 <= i < |lines|
      ensures Guards(m, FixSpace(lines))[i] == Guards(m, lines)[i]
    {
      FixSpaceKeepsStrip(lines[i]);
    }
  }

  lemma ExpandFixSpace(line: string)
    ensures ExpandTabs(FixSpaceOf(line)) == FixSpaceOf(ExpandTabs(line))
  {
    ExpandRStrip(line);
    ExpandConcat(RStrip(line), "\n", 0);
    ExpandNothing("\n", ColumnAfter(RStrip(line), 0));
  }

  lemma FixesCommuteAt(m: Markers, lines: seq<string>, i: nat)
    requires i < |lines|
    ensures FixTabsAt(m, FixSpace(lines), i) == FixSpaceOf(FixTabsAt(m, lines, i))
  {
    FixSpaceKeepsGuards(m, lines);
    ExpandFixSpace(lines[i]);
  }

  /** The two fixes commute. */
  lemma FixesCommute(m: Markers, lines: seq<string>)
    ensures FixTabs(m, FixSpace(lines)) == FixSpace(FixTabs(m, lines))
  {
    forall i | 0 <= i < |lines|
      ensures FixTabsAt(m, FixSpace(lines), i) == FixSpaceOf(FixTabsAt(m, lines, i))
    {
      FixesCommuteAt(m, lines, i);
    }
    assert FixTabs(m, FixSpace(lines)) == FixSpace(FixTabs(m, lines));
  }

  /** Either fix has work to do on a file, before or after the other, exactly when both
      together change it. */
  lemma WorkToDo(m: Markers, lines: seq<string>)
    requires m.Plain()
    ensures HasTrailingSpace(lines) || HasTabs(m, FixSpace(lines)) <==> FixTabs(m, FixSpace(lines)) != lines
    ensures HasTabs(m, lines) || HasTrailingSpace(FixTabs(m, lines)) <==> FixTabs(m, FixSpace(lines)) != lines
    ensures HasTrailingSpace(lines) || HasTabs(m, lines) <==> FixTabs(m, FixSpace(lines)) != lines
  {
    var w, t := FixSpace(lines), FixTabs(m, lines);
    FixesCommute(m, lines);
    FixSpaceIdempotent(lines);
    FixSpaceIdempotent(t);
    HasTrailingSpaceMeansChange(lines);
    HasTrailingSpaceMeansChange(t);
    FixTabsIdempotent(m, w);
    FixTabsIdempotent(m, lines);
    HasTabsMeansChange(m, lines);
    HasTabsMeansChange(m, w);
  }

  // ---------------------------------------------------------------- files

  lemma FixTabsMakesLines(m: Markers, lines: seq<string>)
    requires AreLines(lines)
    ensures AreLines(FixTabs(m, lines))
  {
    forall i | 0 <= i < |lines|
      ensures IsLine(FixTabs(m, lines)[i], i == |lines| - 1)
    {
      ExpandedLine(lines[i], i == |lines| - 1);
    }
  }

  lemma ExpandedLine(line: string, last: bool)
    requires IsLine(line, last)
    ensures IsLine(ExpandTabs(line), last)
  {
    var front, end := line[..|line| - 1], line[|line| - 1];
    assert line == front + [end];
    ExpandConcat(front, [end], 0);
    var e := ExpandFrom([end], ColumnAfter(front, 0));
    assert e == ExpandChar(end, ColumnAfter(front, 0)) + [];
    ExpandedChars(line, 0);
    ExpandedChars(front, 0);
    var x := ExpandTabs(line);
    assert x == ExpandFrom(front, 0) + e;
    assert '\n' !in x[..|x| - 1] by {
      assert e[..|e| - 1] == if end == '\t' then e[..|e| - 1] else [];
      assert x[..|x| - 1] == ExpandFrom(front, 0) + e[..|e| - 1];
    }
    assert '\r' !in x;
  }

  lemma FixSpaceMakesLines(lines: seq<string>)
    requires AreLines(lines)
    ensures AreLines(FixSpace(lines))
  {
    forall i | 0 <= i < |lines|
      ensures IsLine(FixSpace(lines)[i], i == |lines| - 1)
    {
      assert IsLine(lines[i], i == |lines| - 1);
      StrippedLine(lines[i], i == |lines| - 1);
    }
  }

  lemma StrippedLine(line: string, last: bool)
    requires IsLine(line, last)
    ensures IsLine(FixSpaceOf(line), true) && IsLine(FixSpaceOf(line), false)
  {
    var tail := RStripSplits(line);
    var r := RStrip(line);
    forall c | c in r
      ensures c != '\n' && c != '\r'
    {
      var i :| 0 <= i < |r| && r[i] == c;
      assert line[i] == c;
      if i < |line| - 1 {
        assert line[..|line| - 1][i] == c;
      } else {
        assert r == line && IsSpace('\n');
      }
    }
    assert FixSpaceOf(line)[..|FixSpaceOf(line)| - 1] == r;
  }

  /** What the tab fix makes of a file: it is written only if there is a tab to report. */
  ghost function TabsFixed(m: Markers, text: string): string {
    if HasTabs(m, ReadLines(text)) then WriteLines(FixTabs(m, ReadLines(text))) else text
  }

  ghost function SpaceFixed(text: string): string {
    if HasTrailingSpace(ReadLines(text)) then WriteLines(FixSpace(ReadLines(text))) else text
  }

  lemma ReadTabsFixed(m: Markers, text: string)
    ensures ReadLines(TabsFixed(m, text)) == FixTabs(m, ReadLines(text))
  {
    ReadMakesLines(text);
    FixTabsMakesLines(m, ReadLines(text));
    WriteThenRead(FixTabs(m, ReadLines(text)));
    HasTabsMeansChange(m, ReadLines(text));
  }

  lemma ReadSpaceFixed(text: string)
    ensures ReadLines(SpaceFixed(text)) == FixSpace(ReadLines(text))
  {
    ReadMakesLines(text);
    FixSpaceMakesLines(ReadLines(text));
    WriteThenRead(FixSpace(ReadLines(text)));
    HasTrailingSpaceMeansChange(ReadLines(text));
  }

  /** Running the tab fix again finds no tabs and leaves the file as it is. */
  lemma TabsFixedIdempotent(m: Markers, text: string)
    requires m.Plain()
    ensures !HasTabs(m, ReadLines(TabsFixed(m, text)))
    ensures TabsFixed(m, TabsFixed(m, text)) == TabsFixed(m, text)
  {
    ReadTabsFixed(m, text);
    FixedTabsAreGone(m, ReadLines(text));
  }

  /** Either fix written after the other, in one formula. */
  ghost function BothFixed(m: Markers, text: string): string {
    var lines := ReadLines(text);
    if FixTabs(m, FixSpace(lines)) != lines then WriteLines(FixTabs(m, FixSpace(lines))) else text
  }

  /** On every file, whatever its line ends, the fixes commute. */
  lemma FileFixesCommute(m: Markers, text: string)
    requires m.Plain()
    ensures TabsFixed(m, SpaceFixed(text)) == BothFixed(m, text) == SpaceFixed(TabsFixed(m, text))
  {
    var lines := ReadLines(text);
    ReadSpaceFixed(text);
    ReadTabsFixed(m, text);
    WorkToDo(m, lines);
    FixesCommute(m, lines);
    HasTabsMeansChange(m, FixSpace(lines));
    HasTabsMeansChange(m, lines);
    HasTrailingSpaceMeansChange(lines);
    HasTrailingSpaceMeansChange(FixTabs(m, lines));
  }

  /** After both fixes neither check has anything to report. */
  lemma BothChecksClean(m: Markers, text: string)
    requires m.Plain()
    ensures !HasTabs(m, ReadLines(TabsFixed(m, SpaceFixed(text))))
    ensures !HasTrailingSpace(ReadLines(TabsFixed(m, SpaceFixed(text))))
  {
    ReadSpaceFixed(text);
    ReadTabsFixed(m, SpaceFixed(text));
    FixesCommute(m, ReadLines(text));
    FixSpaceIdempotent(FixTabs(m, ReadLines(text)));
    HasTrailingSpaceMeansChange(FixSpace(FixTabs(m, ReadLines(text))));
    FixedTabsAreGone(m, FixSpace(ReadLines(text)));
  }

  // ---------------------------------------------------------------- what is reported

  const ON := "// clang-format on"
  const OFF := "// clang-format off"

  /** A line is left alone if it lies in a region that is switched off: a line that says
      so is above it, with none that says the opposite in between, and the line itself is
      neither of the two. */
  ghost predicate LeftAlone(lines: seq<string>, i: nat)
    requires i < |lines|
  {
    && Strip(lines[i]) != ON && Strip(lines[i]) != OFF
    && exists j :: 0 <= j < i && Strip(lines[j]) == OFF && forall k | j < k < i :: Strip(lines[k]) != ON
  }

  lemma GuardsAre(line: string)
    ensures GuardOf(CLANG_FORMAT, Strip(line)) == On <==> Strip(line) == ON
    ensures GuardOf(CLANG_FORMAT, Strip(line)) == Off <==> Strip(line) == OFF
  {
    assert ON[|ON| - 1] != OFF[|OFF| - 1];
  }

  /** The guards switch off what is at `i`, which is no guard itself. */
  ghost predicate SwitchedOff(guards: seq<Guard>, i: nat)
    requires i < |guards|
  {
    && guards[i] == NoGuard
    && exists j :: 0 <= j < i && guards[j] == Off && forall k | j < k < i :: guards[k] != On
  }

  lemma CheckedGuards(guards: seq<Guard>, i: nat)
    requires i < |guards|
    ensures Checked(guards, i) <==> !SwitchedOff(guards, i)
  {
    EnabledMeans(guards, i + 1);
    hide EnabledAfter;
    if SwitchedOff(guards, i) {
      var j :| 0 <= j < i && guards[j] == Off && forall k | j < k < i :: guards[k] != On;
      assert forall k | j < k < i + 1 :: guards[k] != On;
    }
  }

  lemma CheckedMeans(lines: seq<string>, i: nat)
    requires i < |lines|
    ensures Checked(Guards(CLANG_FORMAT, lines), i) <==> !LeftAlone(lines, i)
  {
    var guards := Guards(CLANG_FORMAT, lines);
    CheckedGuards(guards, i);
    forall k | 0 <= k < |lines|
      ensures guards[k] == On <==> Strip(lines[k]) == ON
      ensures guards[k] == Off <==> Strip(lines[k]) == OFF
    {
      GuardsAre(lines[k]);
    }
    hide Checked, GuardOf, Strip, Guards;
    if SwitchedOff(guards, i) {
      var j :| 0 <= j < i && guards[j] == Off && forall k | j < k < i :: guards[k] != On;
      assert Strip(lines[j]) == OFF && forall k | j < k < i :: Strip(lines[k]) != ON;
    }
    if LeftAlone(lines, i) {
      var j :| 0 <= j < i && Strip(lines[j]) == OFF && forall k | j < k < i :: Strip(lines[k]) != ON;
      assert guards[j] == Off && forall k | j < k < i :: guards[k] != On;
    }
  }

  /** A tab is reported exactly if some line with a tab is not left alone, and the fix
      expands the tabs of these lines and of no others. */
  lemma TabsMeaning(lines: seq<string>)
    ensures HasTabs(CLANG_FORMAT, lines) <==> exists i :: 0 <= i < |lines| && '\t' in lines[i] && !LeftAlone(lines, i)
    ensures forall i | 0 <= i < |lines| ::
              FixTabs(CLANG_FORMAT, lines)[i] == if LeftAlone(lines, i) then lines[i] else ExpandTabs(lines[i])
  {
    forall i | 0 <= i < |lines|
      ensures Checked(Guards(CLANG_FORMAT, lines), i) <==> !LeftAlone(lines, i)
      ensures TabAt(CLANG_FORMAT, lines, i) <==> '\t' in lines[i] && !LeftAlone(lines, i)
    {
      CheckedMeans(lines, i);
    }
    hide Checked, LeftAlone;
    if i :| 0 <= i < |lines| && '\t' in lines[i] && !LeftAlone(lines, i) {
      assert TabAt(CLANG_FORMAT, lines, i);
    }
  }

  /** In a file that never switches formatting off no tab is left. */
  lemma NoTabLeft(lines: seq<string>)
    requires forall i | 0 <= i < |lines| :: Strip(lines[i]) != OFF
    ensures forall i | 0 <= i < |lines| :: '\t' !in FixTabs(CLANG_FORMAT, lines)[i]
  {
    TabsMeaning(lines);
    forall i | 0 <= i < |lines|
      ensures '\t' !in FixTabs(CLANG_FORMAT, lines)[i]
    {
      assert !LeftAlone(lines, i);
      ExpandedChars(lines[i], 0);
    }
  }

  /** The line ends right after its last character that is not whitespace. */
  ghost predicate EndsClean(line: string) {
    line != [] && line[|line| - 1] == '\n' && (|line| > 1 ==> !IsSpace(line[|line| - 2]))
  }

  /** Whitespace is reported exactly if some line does not end clean, and the fix makes
      it end clean by changing nothing but the whitespace at its end. */
  lemma TrailingSpaceMeaning(lines: seq<string>)
    ensures HasTrailingSpace(lines) <==> exists i :: 0 <= i < |lines| && !EndsClean(lines[i])
    ensures forall i | 0 <= i < |lines| :: EndsClean(FixSpace(lines)[i]) && SameButEnd(lines[i], FixSpace(lines)[i])
  {
    forall i | 0 <= i < |lines|
      ensures EndsClean(FixSpaceOf(lines[i])) && SameButEnd(lines[i], FixSpaceOf(lines[i]))
      ensures FixSpaceOf(lines[i]) == lines[i] <==> EndsClean(lines[i])
    {
      FixedLineEnds(lines[i]);
    }
  }

  ghost predicate SameButEnd(a: string, b: string) {
    exists n: nat :: n <= |a| && n <= |b| && a[..n] == b[..n] && AllSpaces(a[n..]) && AllSpaces(b[n..])
  }

  lemma FixedLineEnds(line: string)
    ensures EndsClean(FixSpaceOf(line)) && SameButEnd(line, FixSpaceOf(line))
    ensures FixSpaceOf(line) == line <==> EndsClean(line)
  {
    assert IsSpace('\n');
    hide IsSpace;
    var tail := RStripSplits(line);
    var r := RStrip(line);
    assert line[..|r|] == r && line[|r|..] == tail;
    assert FixSpaceOf(line)[..|r|] == r && FixSpaceOf(line)[|r|..] == "\n";
    if EndsClean(line) {
      CleanLineStays(line);
    }
  }

  lemma CleanLineStays(line: string)
    requires EndsClean(line)
    ensures FixSpaceOf(line) == line
  {
    assert IsSpace('\n');
    hide IsSpace;
    var front := line[..|line| - 1];
    RStripIgnores(front, "\n");
    assert line == front + "\n";
    assert RStrip(front) == front;
  }

  // ---------------------------------------------------------------- the checker

  class TextFile {
    var text: string

    constructor (text: string)
      ensures this.text == text
    {
      this.text := text;
    }
  }

  /** Some tab to report is in the first `n` lines. */
  ghost predicate TabsBefore(m: Markers, lines: seq<string>, n: nat)
    requires n <= |lines|
  {
    n > 0 && (TabsBefore(m, lines, n - 1) || TabAt(m, lines, n - 1))
  }

  lemma {:induction false} TabsBeforeMeans(m: Markers, lines: seq<string>, n: nat)
    requires n <= |lines|
    ensures TabsBefore(m, lines, n) <==> exists i :: 0 <= i < n && TabAt(m, lines, i)
  {
    if n > 0 {
      TabsBeforeMeans(m, lines, n - 1);
    }
  }

  lemma TabsBeforeEnough(m: Markers, lines: seq<string>, n: nat)
    requires n <= |lines|
    ensures TabsBefore(m, lines, n) ==> HasTabs(m, lines)
    ensures n == |lines| ==> (TabsBefore(m, lines, n) <==> HasTabs(m, lines))
  {
    TabsBeforeMeans(m, lines, n);
  }

  /** The lines when the first `n` of them are fixed. */
  ghost function FixedUpTo(m: Markers, lines: seq<string>, n: nat): (r: seq<string>)
    requires n <= |lines|
    ensures |r| == |lines|
  {
    if n == 0 then lines else FixedUpTo(m, lines, n - 1)[n - 1 := FixTabsAt(m, lines, n - 1)]
  }

  lemma {:induction false} FixedUpToMeans(m: Markers, lines: seq<string>, n: nat)
    requires n <= |lines|
    ensures forall i | 0 <= i < n :: FixedUpTo(m, lines, n)[i] == FixTabsAt(m, lines, i)
    ensures forall i | n <= i < |lines| :: FixedUpTo(m, lines, n)[i] == lines[i]
    ensures n == |lines| ==> FixedUpTo(m, lines, n) == FixTabs(m, lines)
  {
    if n > 0 {
      FixedUpToMeans(m, lines, n - 1);
    }
  }

  lemma FixedUpToSkips(m: Markers, lines: seq<string>, n: nat)
    requires n < |lines| && FixTabsAt(m, lines, n) == lines[n]
    ensures FixedUpTo(m, lines, n + 1) == FixedUpTo(m, lines, n)
  {
    FixedUpToMeans(m, lines, n);
  }

  /** The guard logic for line `i`: whether formatting is enabled after it, and whether it
      has a tab to report. */
  method CheckLine(m: Markers, lines: seq<string>, i: nat, enabledBefore: bool) returns (enabled: bool, tab: bool)
    requires i < |lines| && enabledBefore == EnabledAfter(Guards(m, lines), i)
    ensures enabled == EnabledAfter(Guards(m, lines), i + 1)
    ensures tab == TabAt(m, lines, i)
    ensures FixTabsAt(m, lines, i) == if tab then ExpandTabs(lines[i]) else lines[i]
  {
    var line := lines[i];
    var guard := GuardOf(m, Strip(line));
    enabled := enabledBefore;
    if guard == On {
      enabled := true;
    } else if guard == Off {
      enabled := false;
    }
    tab := (enabled || guard != NoGuard) && '\t' in line;
    if '\t' !in line {
      ExpandNothing(line, 0);
    }
  }

  /** The loop of `check_tabs_file`. It stops at the first tab if neither the fixed lines
      nor the positions are wanted; the answer is the same. */
  method ScanTabs(m: Markers, fileLines: seq<string>, fix: bool, verbose: bool)
    returns (hasTabs: bool, lines: seq<string>)
    ensures hasTabs <==> HasTabs(m, fileLines)
    ensures fix ==> lines == FixTabs(m, fileLines)
  {
    hasTabs, lines := false, fileLines;
    var enabled := true;
    for i := 0 to |fileLines|
      invariant lines == FixedUpTo(m, fileLines, i)
      invariant enabled == EnabledAfter(Guards(m, fileLines), i)
      invariant hasTabs <==> TabsBefore(m, fileLines, i)
    {
      var tab;
      enabled, tab := CheckLine(m, fileLines, i, enabled);
      if tab {
        hasTabs := true;
        lines := lines[i := ExpandTabs(fileLines[i])];
        if !fix && !verbose {
          TabsBeforeEnough(m, fileLines, i + 1);
          return;
        }
      } else {
        FixedUpToSkips(m, fileLines, i);
      }
    }
    TabsBeforeEnough(m, fileLines, |fileLines|);
    FixedUpToMeans(m, fileLines, |fileLines|);
  }

  /** The loop of `check_trailing_whitespace_file`. */
  method ScanSpace(fileLines: seq<string>, fix: bool, verbose: bool) returns (hasTrailing: bool, lines: seq<string>)
    ensures hasTrailing <==> HasTrailingSpace(fileLines)
    ensures fix ==> lines == FixSpace(fileLines)
  {
    hasTrailing, lines := false, fileLines;
    for i := 0 to |fileLines|
      invariant |lines| == |fileLines|
      invariant forall j | 0 <= j < |lines| :: lines[j] == if j < i then FixSpaceOf(fileLines[j]) else fileLines[j]
      invariant hasTrailing <==> exists j :: 0 <= j < i && FixSpaceOf(fileLines[j]) != fileLines[j]
    {
      var line := fileLines[i];
      var lineFixed := RStrip(line) + "\n";
      if lineFixed != line {
        hasTrailing := true;
        lines := lines[i := lineFixed];
        if !fix && !verbose {
          break;
        }
      }
    }
  }

  /** With `fix` the file is fixed; without it the answer is the same. */
  method CheckTabsFile(file: TextFile, fix: bool, verbose: bool) returns (hasTabs: bool)
    modifies file
    ensures hasTabs <==> HasTabs(CLANG_FORMAT, ReadLines(old(file.text)))
    ensures file.text == if fix then TabsFixed(CLANG_FORMAT, old(file.text)) else old(file.text)
  {
    var fileLines := ReadLines(file.text);
    var lines;
    hasTabs, lines := ScanTabs(CLANG_FORMAT, fileLines, fix, verbose);
    if fix && hasTabs {
      file.text := WriteLines(lines);
    }
  }

  method CheckTrailingWhitespaceFile(file: TextFile, fix: bool, verbose: bool) returns (hasTrailing: bool)
    modifies file
    ensures hasTrailing <==> HasTrailingSpace(ReadLines(old(file.text)))
    ensures file.text == if fix then SpaceFixed(old(file.text)) else old(file.text)
  {
    var fileLines := ReadLines(file.text);
    var lines;
    hasTrailing, lines := ScanSpace(fileLines, fix, verbose);
    if fix && hasTrailing {
      file.text := WriteLines(lines);
    }
  }

  ghost predicate Distinct(files: seq<TextFile>) {
    forall i, j | 0 <= i < j < |files| :: files[i] != files[j]
  }

  /** `check_tabs`: all went well if nothing was found or everything was fixed. */
  method CheckTabs(files: seq<TextFile>, fix: bool, verbose: bool) returns (ok: bool)
    requires Distinct(files)
    modifies files
    ensures forall f | f in files :: f.text == if fix then TabsFixed(CLANG_FORMAT, old(f.text)) else old(f.text)
    ensures ok <==> fix || forall f | f in files :: !HasTabs(CLANG_FORMAT, ReadLines(old(f.text)))
  {
    hide HasTabs, TabsFixed, ReadLines;
    var found := false;
    for i := 0 to |files|
      invariant forall j | 0 <= j < i ::
                  files[j].text == if fix then TabsFixed(CLANG_FORMAT, old(files[j].text)) else old(files[j].text)
      invariant forall j | i <= j < |files| :: files[j].text == old(files[j].text)
      invariant !found <==> forall j | 0 <= j < i :: !HasTabs(CLANG_FORMAT, ReadLines(old(files[j].text)))
    {
      var hasTabs := CheckTabsFile(files[i], fix, verbose);
      found := found || hasTabs;
    }
    ok := !found || fix;
  }

  method CheckTrailingWhitespace(files: seq<TextFile>, fix: bool, verbose: bool) returns (ok: bool)
    requires Distinct(files)
    modifies files
    ensures forall f | f in files :: f.text == if fix then SpaceFixed(old(f.text)) else old(f.text)
    ensures ok <==> fix || forall f | f in files :: !HasTrailingSpace(ReadLines(old(f.text)))
  {
    hide HasTrailingSpace, SpaceFixed, ReadLines;
    var found := false;
    for i := 0 to |files|
      invariant forall j | 0 <= j < i ::
                  files[j].text == if fix then SpaceFixed(old(files[j].text)) else old(files[j].text)
      invariant forall j | i <= j < |files| :: files[j].text == old(files[j].text)
      invariant !found <==> forall j | 0 <= j < i :: !HasTrailingSpace(ReadLines(old(files[j].text)))
    {
      var hasTrailing := CheckTrailingWhitespaceFile(files[i], fix, verbose);
      found := found || hasTrailing;
    }
    ok := !found || fix;
  }

  /** A file as fix mode leaves it, given the checks that it is subject to. */
  ghost function Styled(text: string, space: bool, tabs: bool): string {
    if space && tabs then BothFixed(CLANG_FORMAT, text)
    else if space then SpaceFixed(text)
    else if tabs then TabsFixed(CLANG_FORMAT, text)
    else text
  }

  /** Fix mode would change the lines of the file. */
  ghost predicate NeedsFix(text: string, space: bool, tabs: bool) {
    (space && HasTrailingSpace(ReadLines(text))) || (tabs && HasTabs(CLANG_FORMAT, ReadLines(text)))
  }

  /** Fix mode leaves nothing that the checks of the file would report, and it leaves a
      file alone that has nothing to report. */
  lemma StyledIsClean(text: string, space: bool, tabs: bool)
    ensures !NeedsFix(Styled(text, space, tabs), space, tabs)
    ensures !NeedsFix(text, space, tabs) ==> Styled(text, space, tabs) == text
  {
    ReadSpaceFixed(text);
    FixSpaceIdempotent(ReadLines(text));
    HasTrailingSpaceMeansChange(FixSpace(ReadLines(text)));
    TabsFixedIdempotent(CLANG_FORMAT, text);
    FileFixesCommute(CLANG_FORMAT, text);
    BothChecksClean(CLANG_FORMAT, text);
    WorkToDo(CLANG_FORMAT, ReadLines(text));
  }

  lemma FixTabsKeepsSolid(m: Markers, lines: seq<string>)
    ensures SameSolid(FixTabs(m, lines), lines)
  {
    forall i | 0 <= i < |lines|
      ensures Solid(FixTabsAt(m, lines, i)) == Solid(lines[i])
    {
      ExpandKeepsSolid(lines[i], 0);
    }
  }

  lemma FixSpaceKeepsSolid(lines: seq<string>)
    ensures SameSolid(FixSpace(lines), lines)
  {
    forall i | 0 <= i < |lines|
      ensures Solid(FixSpaceOf(lines[i])) == Solid(lines[i])
    {
      RStripKeepsSolid(lines[i]);
      SolidConcat(RStrip(lines[i]), "\n");
      SolidSpaces("\n");
    }
  }

  lemma ReadStyled(text: string, space: bool, tabs: bool)
    ensures SameSolid(ReadLines(Styled(text, space, tabs)), ReadLines(text))
  {
    var lines := ReadLines(text);
    ReadSpaceFixed(text);
    ReadTabsFixed(CLANG_FORMAT, text);
    ReadTabsFixed(CLANG_FORMAT, SpaceFixed(text));
    FileFixesCommute(CLANG_FORMAT, text);
    FixSpaceKeepsSolid(lines);
    FixTabsKeepsSolid(CLANG_FORMAT, lines);
    FixTabsKeepsSolid(CLANG_FORMAT, FixSpace(lines));
  }

  /** Fix mode changes whitespace only: a file keeps its number of lines, and in every
      line, so in the whole text, the other characters in their order. */
  lemma StyledKeepsSolid(text: string, space: bool, tabs: bool)
    ensures SameSolid(ReadLines(Styled(text, space, tabs)), ReadLines(text))
    ensures Solid(Styled(text, space, tabs)) == Solid(text)
  {
    ReadStyled(text, space, tabs);
    ReadKeepsSolid(text);
    ReadKeepsSolid(Styled(text, space, tabs));
    WriteKeepsSolid(ReadLines(Styled(text, space, tabs)), ReadLines(text));
  }

  /** `check_style`: whitespace first, then tabs, each for its own list of files. Check mode
      changes nothing and exits with 0 exactly if no file needs fixing; fix mode leaves
      every file as if its fixes had been applied in either order, and exits with 0. */
  method CheckStyle(spaceFiles: seq<TextFile>, tabFiles: seq<TextFile>, fix: bool, verbose: bool)
    returns (exitCode: int)
    requires Distinct(spaceFiles) && Distinct(tabFiles)
    modifies spaceFiles, tabFiles
    ensures exitCode == 0 || exitCode == 1
    ensures forall f | f in spaceFiles || f in tabFiles ::
              f.text == if fix then Styled(old(f.text), f in spaceFiles, f in tabFiles) else old(f.text)
    ensures exitCode == 0 <==>
            fix || forall f | f in spaceFiles || f in tabFiles ::
                     !NeedsFix(old(f.text), f in spaceFiles, f in tabFiles)
  {
    var spaceOk := CheckTrailingWhitespace(spaceFiles, fix, verbose);
    label tabs:
    var tabsOk := CheckTabs(tabFiles, fix, verbose);
    exitCode := if spaceOk && tabsOk then 0 else 1;
    forall f | f in spaceFiles || f in tabFiles
      ensures f.text == if fix then Styled(old(f.text), f in spaceFiles, f in tabFiles) else old(f.text)
    {
      FileFixesCommute(CLANG_FORMAT, old(f.text));
      assert f !in spaceFiles ==> old@tabs(f.text) == old(f.text);
    }
  }
}
