/** The parts of Python's text handling that the style checker relies on: whitespace
    stripping, `expandtabs`, and text-mode reading and writing of lines. */
module PythonText {

  /** `str.isspace` of one character. */
  predicate IsSpace(c: char) {
    var n := c as int;
    9 <= n <= 13 || 28 <= n <= 32 || n == 0x85 || n == 0xA0 || n == 0x1680 || 0x2000 <= n <= 0x200A
    || n == 0x2028 || n == 0x2029 || n == 0x202F || n == 0x205F || n == 0x3000
  }

  const WHITESPACE: string :=
    "\t\n\U{B}\U{C}\r\U{1C}\U{1D}\U{1E}\U{1F} \U{85}\U{A0}\U{1680}" +
    "\U{2000}\U{2001}\U{2002}\U{2003}\U{2004}\U{2005}\U{2006}\U{2007}\U{2008}\U{2009}\U{200A}" +
    "\U{2028}\U{2029}\U{202F}\U{205F}\U{3000}"

  /** The characters that Python takes for whitespace. */
  lemma SpacesAre(c: char)
    ensures IsSpace(c) <==> c in WHITESPACE
  {
    var w := WHITESPACE;
    assert |w| == 29;
    var n := c as int;
    if IsSpace(c) {
      var i := if n <= 13 then n - 9 else if n <= 32 then n - 23 else if n == 0x85 then 10 else if n == 0xA0 then 11
               else if n == 0x1680 then 12 else if n <= 0x200A then n - 0x2000 + 13
               else if n <= 0x2029 then n - 0x2028 + 24
               else if n == 0x202F then 26 else if n == 0x205F then 27 else 28;
      assert w[i] == c;
    }
  }

  ghost predicate AllSpaces(s: string) {
    forall c | c in s :: IsSpace(c)
  }

  function RStrip(s: string): string {
    if s == [] || !IsSpace(s[|s| - 1]) then s else RStrip(s[..|s| - 1])
  }

  function LStrip(s: string): string {
    if s == [] || !IsSpace(s[0]) then s else LStrip(s[1..])
  }

  function Strip(s: string): string {
    LStrip(RStrip(s))
  }

  // ---------------------------------------------------------------- stripping

  lemma {:induction false} RStripSplits(s: string) returns (tail: string)
    ensures s == RStrip(s) + tail && AllSpaces(tail)
    ensures RStrip(s) == [] || !IsSpace(RStrip(s)[|RStrip(s)| - 1])
  {
    if s == [] || !IsSpace(s[|s| - 1]) {
      tail := [];
    } else {
      var t := RStripSplits(s[..|s| - 1]);
      tail := t + [s[|s| - 1]];
    }
  }

  lemma {:induction false} LStripSplits(s: string) returns (head: string)
    ensures s == head + LStrip(s) && AllSpaces(head)
    ensures LStrip(s) == [] || !IsSpace(LStrip(s)[0])
  {
    if s == [] || !IsSpace(s[0]) {
      head := [];
    } else {
      var h := LStripSplits(s[1..]);
      head := [s[0]] + h;
    }
  }

  /** Spaces at the end make no difference to `rstrip`. */
  lemma {:induction false} RStripIgnores(s: string, tail: string)
    requires AllSpaces(tail)
    ensures RStrip(s + tail) == RStrip(s)
  {
    if tail == [] {
      assert s + tail == s;
    } else {
      RStripIgnores(s, tail[..|tail| - 1]);
      assert (s + tail)[..|s + tail| - 1] == s + tail[..|tail| - 1];
    }
  }

  lemma {:induction false} LStripIgnores(head: string, s: string)
    requires AllSpaces(head)
    ensures LStrip(head + s) == LStrip(s)
  {
    if head == [] {
      assert head + s == s;
    } else {
      LStripIgnores(head[1..], s);
      assert (head + s)[1..] == head[1..] + s;
    }
  }

  /** What `strip` leaves is a stretch of the text with only spaces around it. */
  lemma StripSplits(s: string) returns (head: string, tail: string)
    ensures s == head + Strip(s) + tail && AllSpaces(head) && AllSpaces(tail)
    ensures Strip(s) == [] || (!IsSpace(Strip(s)[0]) && !IsSpace(Strip(s)[|Strip(s)| - 1]))
  {
    tail := RStripSplits(s);
    head := LStripSplits(RStrip(s));
  }

  lemma StripIgnores(head: string, core: string, tail: string)
    requires AllSpaces(head) && AllSpaces(tail)
    requires core == [] || (!IsSpace(core[0]) && !IsSpace(core[|core| - 1]))
    ensures Strip(head + core + tail) == core
  {
    RStripIgnores(head + core, tail);
    if core == [] {
      RStripIgnores([], head);
      assert [] + head == head + core;
    } else {
      LStripIgnores(head, core);
    }
  }

  // ---------------------------------------------------------------- expandtabs

  /** The number of spaces that stand for a tab in column `col`; `TAB_SIZE` is 4. */
  function TabWidth(col: nat): nat {
    4 - col % 4
  }

  function NextColumn(c: char, col: nat): nat {
    if c == '\t' then col + TabWidth(col) else if c == '\n' || c == '\r' then 0 else col + 1
  }

  function ExpandChar(c: char, col: nat): string {
    if c == '\t' then seq(TabWidth(col), _ => ' ') else [c]
  }

  /** `expandtabs` of text that starts in column `col`. */
  function ExpandFrom(s: string, col: nat): string {
    if s == [] then [] else ExpandChar(s[0], col) + ExpandFrom(s[1..], NextColumn(s[0], col))
  }

  function ExpandTabs(s: string): string {
    ExpandFrom(s, 0)
  }

  ghost function ColumnAfter(s: string, col: nat): nat {
    if s == [] then col else ColumnAfter(s[1..], NextColumn(s[0], col))
  }

  lemma Associative(a: string, b: string, c: string)
    ensures a + (b + c) == (a + b) + c
  {
  }

  lemma ExpandStep(s: string, col: nat)
    requires s != []
    ensures ExpandFrom(s, col) == ExpandChar(s[0], col) + ExpandFrom(s[1..], NextColumn(s[0], col))
    ensures ColumnAfter(s, col) == ColumnAfter(s[1..], NextColumn(s[0], col))
  {
  }

  lemma {:induction false} ExpandConcat(a: string, b: string, col: nat)
    ensures ExpandFrom(a + b, col) == ExpandFrom(a, col) + ExpandFrom(b, ColumnAfter(a, col))
  {
    if a == [] {
      assert a + b == b;
    } else {
      var t, next := a[1..], NextColumn(a[0], col);
      ExpandConcat(t, b, next);
      ExpandStep(a, col);
      ExpandStep(a + b, col);
      assert (a + b)[1..] == t + b;
      Associative(ExpandChar(a[0], col), ExpandFrom(t, next), ExpandFrom(b, ColumnAfter(t, next)));
    }
  }

  /** A tab ends on the next stop. */
  lemma TabStops(col: nat)
    ensures col < ColumnAfter("\t", col) <= col + 4 && ColumnAfter("\t", col) % 4 == 0
  {
    assert "\t"[1..] == [];
  }

  ghost predicate Unbroken(s: string) {
    '\n' !in s && '\r' !in s
  }

  /** Within a line the column is the length of the expanded text. */
  lemma {:induction false} ColumnIsLength(s: string, col: nat)
    requires Unbroken(s)
    ensures ColumnAfter(s, col) == col + |ExpandFrom(s, col)|
  {
    if s != [] {
      assert s[0] in s;
      assert forall c | c in s[1..] :: c in s;
      ColumnIsLength(s[1..], NextColumn(s[0], col));
    }
  }

  /** How a line is expanded, character by character: a tab becomes one to four spaces, up
      to the next multiple of four characters, and everything else stays. */
  lemma ExpandTabsMeans(s: string, c: char)
    requires Unbroken(s)
    ensures ExpandTabs([]) == []
    ensures c != '\t' ==> ExpandTabs(s + [c]) == ExpandTabs(s) + [c]
    ensures c == '\t' ==>
              && ExpandTabs(s) < ExpandTabs(s + [c]) && |ExpandTabs(s + [c])| % 4 == 0
              && |ExpandTabs(s + [c])| <= |ExpandTabs(s)| + 4
              && forall i | |ExpandTabs(s)| <= i < |ExpandTabs(s + [c])| :: ExpandTabs(s + [c])[i] == ' '
  {
    var n := |ExpandTabs(s)|;
    ColumnIsLength(s, 0);
    ExpandConcat(s, [c], 0);
    assert ExpandFrom([c], n) == ExpandChar(c, n) + [];
    TabStops(n);
  }

  lemma {:induction false} ExpandNothing(s: string, col: nat)
    requires '\t' !in s
    ensures ExpandFrom(s, col) == s
  {
    if s != [] {
      ExpandNothing(s[1..], NextColumn(s[0], col));
    }
  }

  /** Nothing but spaces comes in for the tabs, and everything else stays. */
  lemma {:induction false} ExpandedChars(s: string, col: nat)
    ensures '\t' !in ExpandFrom(s, col)
    ensures forall c | c in ExpandFrom(s, col) :: c in s || c == ' '
    ensures |ExpandFrom(s, col)| >= |s|
    ensures AllSpaces(s) ==> AllSpaces(ExpandFrom(s, col))
  {
    if s != [] {
      var head, rest := ExpandChar(s[0], col), ExpandFrom(s[1..], NextColumn(s[0], col));
      ExpandedChars(s[1..], NextColumn(s[0], col));
      assert forall c | c in s[1..] :: c in s;
      assert forall c | c in head :: c == s[0] || c == ' ';
      assert forall c | c in head :: c != '\t';
      assert s[0] in s;
    }
  }

  /** Expanding tabs leaves the stripped text alone when there is no tab inside it. */
  lemma ExpandKeepsStrip(s: string)
    requires '\t' !in Strip(s)
    ensures Strip(ExpandTabs(s)) == Strip(s)
  {
    var head, tail := StripSplits(s);
    var core := Strip(s);
    ExpandConcat(head + core, tail, 0);
    ExpandConcat(head, core, 0);
    ExpandNothing(core, ColumnAfter(head, 0));
    ExpandedChars(head, 0);
    ExpandedChars(tail, ColumnAfter(head + core, 0));
    StripIgnores(ExpandFrom(head, 0), core, ExpandFrom(tail, ColumnAfter(head + core, 0)));
  }

  /** Expanding tabs commutes with stripping on the right. */
  lemma ExpandRStrip(s: string)
    ensures RStrip(ExpandTabs(s)) == ExpandTabs(RStrip(s))
  {
    assert IsSpace('\t');
    hide IsSpace;
    var tail := RStripSplits(s);
    var r := RStrip(s);
    ExpandConcat(r, tail, 0);
    ExpandedChars(tail, ColumnAfter(r, 0));
    RStripIgnores(ExpandFrom(r, 0), ExpandFrom(tail, ColumnAfter(r, 0)));
    if r != [] {
      var last := r[|r| - 1];
      ExpandConcat(r[..|r| - 1], [last], 0);
      assert r == r[..|r| - 1] + [last];
      assert ExpandFrom([last], ColumnAfter(r[..|r| - 1], 0)) == [last];
    }
  }

  // ---------------------------------------------------------------- reading and writing

  /** Text mode turns the line ends `\r\n` and `\r` into `\n`. */
  function Translate(s: string): string {
    if s == [] then []
    else if s[0] == '\r' then ['\n'] + Translate(if |s| > 1 && s[1] == '\n' then s[2..] else s[1..])
    else [s[0]] + Translate(s[1..])
  }

  /** The number of characters that `Translate` takes next. */
  ghost function Taken(s: string): (n: nat)
    requires s != []
    ensures 0 < n <= |s|
  {
    if s[0] == '\r' && |s| > 1 && s[1] == '\n' then 2 else 1
  }

  lemma TranslateStep(s: string)
    requires s != []
    ensures Translate(s) == [if s[0] == '\r' then '\n' else s[0]] + Translate(s[Taken(s)..])
  {
  }

  lemma TakenFirst(a: string, b: string) returns (rest: string)
    requires a != [] && (b != [] && a[|a| - 1] == '\r' ==> b[0] != '\n')
    ensures rest == a[Taken(a)..] && (a + b)[Taken(a + b)..] == rest + b && (a + b)[0] == a[0]
    ensures rest != [] ==> rest[|rest| - 1] == a[|a| - 1]
  {
    rest := a[Taken(a)..];
    assert Taken(a + b) == Taken(a);
  }

  lemma {:induction false} TranslateConcat(a: string, b: string)
    requires a != [] && b != [] && a[|a| - 1] == '\r' ==> b[0] != '\n'
    ensures Translate(a + b) == Translate(a) + Translate(b)
    decreases |a|
  {
    if a == [] {
      assert a + b == b;
    } else {
      var rest := TakenFirst(a, b);
      TranslateStep(a);
      TranslateStep(a + b);
      hide Translate, Taken;
      TranslateConcat(rest, b);
      Associative([if a[0] == '\r' then '\n' else a[0]], Translate(rest), Translate(b));
    }
  }

  /** Each line end becomes one `\n`, be it `\r\n` or `\r` on its own. */
  lemma TranslateMeans(a: string, b: string)
    ensures Translate(a + ("\r\n" + b)) == Translate(a) + ("\n" + Translate(b))
    ensures (b == [] || b[0] != '\n') ==> Translate(a + ("\r" + b)) == Translate(a) + ("\n" + Translate(b))
  {
    TranslateConcat(a, "\r\n" + b);
    TranslateConcat("\r\n", b);
    assert "\r\n"[2..] == [];
    if b == [] || b[0] != '\n' {
      TranslateConcat(a, "\r" + b);
      TranslateConcat("\r", b);
      assert "\r"[1..] == [];
    }
  }

  /** The length of the first line of `s`, with its line end. */
  function FirstLine(s: string): (n: nat)
    ensures n <= |s| && (s != [] ==> n > 0)
  {
    if s == [] then 0 else if s[0] == '\n' then 1 else 1 + FirstLine(s[1..])
  }

  function SplitLines(s: string): seq<string> {
    if s == [] then [] else [s[..FirstLine(s)]] + SplitLines(s[FirstLine(s)..])
  }

  function ReadLines(text: string): seq<string> {
    SplitLines(Translate(text))
  }

  function WriteLines(lines: seq<string>): string {
    if lines == [] then [] else lines[0] + WriteLines(lines[1..])
  }

  /** A line as `readlines` delivers it; only the last one may lack its line end. */
  ghost predicate IsLine(line: string, last: bool) {
    && line != [] && '\r' !in line && '\n' !in line[..|line| - 1]
    && (last || line[|line| - 1] == '\n')
  }

  ghost predicate AreLines(lines: seq<string>) {
    forall i | 0 <= i < |lines| :: IsLine(lines[i], i == |lines| - 1)
  }

  lemma {:induction false} TranslateRemoves(s: string)
    ensures '\r' !in Translate(s)
    decreases |s|
  {
    if s != [] {
      TranslateRemoves(s[1..]);
      if |s| > 1 {
        TranslateRemoves(s[2..]);
      }
    }
  }

  lemma {:induction false} TranslateKeeps(s: string)
    requires '\r' !in s
    ensures Translate(s) == s
  {
    if s != [] {
      TranslateKeeps(s[1..]);
    }
  }

  lemma {:induction false} FirstLineEnds(s: string)
    requires s != []
    ensures var n := FirstLine(s); '\n' !in s[..n - 1] && (n < |s| ==> s[n - 1] == '\n')
  {
    if s[0] != '\n' && |s| > 1 {
      FirstLineEnds(s[1..]);
      var n := FirstLine(s[1..]);
      assert s[..n] == [s[0]] + s[1..][..n - 1];
    }
  }

  lemma LinesCons(line: string, rest: seq<string>)
    ensures AreLines([line] + rest) <==> IsLine(line, rest == []) && AreLines(rest)
  {
    var lines := [line] + rest;
    if AreLines(lines) {
      assert IsLine(lines[0], 0 == |lines| - 1);
      forall i | 0 <= i < |rest|
        ensures IsLine(rest[i], i == |rest| - 1)
      {
        assert IsLine(lines[i + 1], i + 1 == |lines| - 1);
      }
    }
  }

  lemma {:induction false} SplitMakesLines(s: string)
    requires '\r' !in s
    ensures AreLines(SplitLines(s))
    ensures s != [] ==> SplitLines(s) != []
    decreases |s|
  {
    if s != [] {
      var n := FirstLine(s);
      FirstLineEnds(s);
      SplitMakesLines(s[n..]);
      assert s[..n][..n - 1] == s[..n - 1];
      LinesCons(s[..n], SplitLines(s[n..]));
    }
  }

  lemma ReadMakesLines(text: string)
    ensures AreLines(ReadLines(text))
  {
    TranslateRemoves(text);
    SplitMakesLines(Translate(text));
  }

  lemma {:induction false} FirstLineIs(line: string, rest: string)
    requires IsLine(line, rest == [])
    ensures FirstLine(line + rest) == |line|
  {
    if |line| > 1 {
      assert line[0] == line[..|line| - 1][0];
      assert '\n' !in line[1..][..|line| - 2] by {
        assert line[1..][..|line| - 2] == line[..|line| - 1][1..];
      }
      FirstLineIs(line[1..], rest);
      assert (line + rest)[1..] == line[1..] + rest;
    } else if rest == [] {
      assert line + rest == line;
    }
  }

  lemma {:induction false} WriteThenSplit(lines: seq<string>)
    requires AreLines(lines)
    ensures SplitLines(WriteLines(lines)) == lines && '\r' !in WriteLines(lines)
    ensures lines != [] ==> WriteLines(lines) != []
  {
    if lines != [] {
      var rest := lines[1..];
      assert lines == [lines[0]] + rest;
      LinesCons(lines[0], rest);
      WriteThenSplit(rest);
      FirstLineIs(lines[0], WriteLines(rest));
      assert WriteLines(lines)[..|lines[0]|] == lines[0];
      assert WriteLines(lines)[|lines[0]|..] == WriteLines(rest);
    }
  }

  /** Lines that are written come back when the file is read again. */
  lemma WriteThenRead(lines: seq<string>)
    requires AreLines(lines)
    ensures ReadLines(WriteLines(lines)) == lines
  {
    WriteThenSplit(lines);
    TranslateKeeps(WriteLines(lines));
  }

  /** Splitting into lines cuts the text up and drops nothing. */
  lemma {:induction false} SplitThenWrite(s: string)
    ensures WriteLines(SplitLines(s)) == s
    decreases |s|
  {
    if s != [] {
      SplitThenWrite(s[FirstLine(s)..]);
    }
  }

  // ---------------------------------------------------------------- what is not whitespace

  /** The text without its whitespace. */
  ghost function Solid(s: string): string {
    if s == [] then [] else (if IsSpace(s[0]) then [] else [s[0]]) + Solid(s[1..])
  }

  lemma {:induction false} SolidConcat(a: string, b: string)
    ensures Solid(a + b) == Solid(a) + Solid(b)
  {
    if a == [] {
      assert a + b == b;
    } else {
      SolidConcat(a[1..], b);
      assert (a + b)[1..] == a[1..] + b;
    }
  }

  lemma {:induction false} SolidSpaces(s: string)
    requires AllSpaces(s)
    ensures Solid(s) == []
  {
    if s != [] {
      assert s[0] in s;
      SolidSpaces(s[1..]);
    }
  }

  lemma {:induction false} ExpandKeepsSolid(s: string, col: nat)
    ensures Solid(ExpandFrom(s, col)) == Solid(s)
  {
    if s != [] {
      var next := ExpandFrom(s[1..], NextColumn(s[0], col));
      ExpandKeepsSolid(s[1..], NextColumn(s[0], col));
      SolidConcat(ExpandChar(s[0], col), next);
      if s[0] == '\t' {
        SolidSpaces(ExpandChar(s[0], col));
      } else {
        assert [s[0]][1..] == [];
      }
    }
  }

  lemma RStripKeepsSolid(s: string)
    ensures Solid(RStrip(s)) == Solid(s)
  {
    var tail := RStripSplits(s);
    SolidConcat(RStrip(s), tail);
    SolidSpaces(tail);
  }

  lemma {:induction false} TranslateKeepsSolid(s: string)
    ensures Solid(Translate(s)) == Solid(s)
    decreases |s|
  {
    if s != [] {
      var rest := if s[0] == '\r' && |s| > 1 && s[1] == '\n' then s[2..] else s[1..];
      TranslateKeepsSolid(rest);
      if |rest| < |s| - 1 {
        assert s[1..][1..] == rest;
      }
    }
  }

  lemma ReadKeepsSolid(text: string)
    ensures Solid(WriteLines(ReadLines(text))) == Solid(text)
  {
    SplitThenWrite(Translate(text));
    TranslateKeepsSolid(text);
  }

  /** Line by line the same but for whitespace. */
  ghost predicate SameSolid(xs: seq<string>, ys: seq<string>) {
    |xs| == |ys| && forall i | 0 <= i < |xs| :: Solid(xs[i]) == Solid(ys[i])
  }

  lemma {:induction false} WriteKeepsSolid(xs: seq<string>, ys: seq<string>)
    requires SameSolid(xs, ys)
    ensures Solid(WriteLines(xs)) == Solid(WriteLines(ys))
  {
    if xs != [] {
      WriteKeepsSolid(xs[1..], ys[1..]);
      SolidConcat(xs[0], WriteLines(xs[1..]));
      SolidConcat(ys[0], WriteLines(ys[1..]));
    }
  }
}
