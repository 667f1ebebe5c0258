/** Model of parser_state.py: the parser state record with its error
    constructor, and the line index used for diagnostics, which maps a
    character offset to its 1-based line number. */
module ParserState {

  /** `State = Enum("State", ["void", "in_", "out", "new_line"])`. */
  datatype State = Void | In | Out | NewLine

  /** The exception `InvalidState(cursor, state, message)`. */
  datatype InvalidState = InvalidState(cursor: int, state: State, message: string)

  /** The dataclass `ParserState(buffer, offset, state)`. */
  datatype ParserState = ParserState(buffer: string, offset: int, state: State)
  {
    /** `make_error()`: the error it raises. */
    function MakeError(): (e: InvalidState)
      ensures e.cursor == offset && e.state == state && e.message == "Invalid state"
    {
      InvalidState(offset, state, "Invalid state")
    }
  }

  /** `ParserState()`. */
  function Initial(): (ps: ParserState)
    ensures ps.buffer == "" && ps.offset == 0 && ps.state == Void
  {
    ParserState("", 0, Void)
  }

  /** A fresh parser state fails at offset 0 in state `void`. */
  lemma InitialError()
    ensures Initial().MakeError() == InvalidState(0, Void, "Invalid state")
  {
  }

  // ---------------------------------------------------------------------
  // The line table. `find_line_boundaries` inserts the keys 1, 2, ... in
  // ascending order, each once, so the dictionary is an insertion-ordered
  // sequence of entries `line_no: (start, length)`.
  // ---------------------------------------------------------------------

  datatype LineEntry = LineEntry(lineNo: int, start: int, length: int)

  /** `char_no in range(start, start + length)`. */
  predicate Contains(line: LineEntry, charNo: int)
  {
    line.start <= charNo < line.start + line.length
  }

  /** `which_line(char_no, lines)`: the key of the first entry, in insertion
      order, whose range holds `char_no`, and -1 when no range does. */
  function WhichLine(charNo: int, lines: seq<LineEntry>): (r: int)
    ensures (forall i :: 0 <= i < |lines| ==> !Contains(lines[i], charNo)) ==> r == -1
    ensures forall i :: (0 <= i < |lines| && Contains(lines[i], charNo) &&
                         (forall j :: 0 <= j < i ==> !Contains(lines[j], charNo))) ==> r == lines[i].lineNo
  {
    if lines == [] then -1
    else if Contains(lines[0], charNo) then lines[0].lineNo
    else WhichLine(charNo, lines[1..])
  }

  /** The number of newlines in buf[0..o). */
  function NewlinesBefore(buf: string, o: nat): nat
    requires o <= |buf|
  {
    if o == 0 then 0 else NewlinesBefore(buf, o - 1) + (if buf[o - 1] == '\n' then 1 else 0)
  }

  /** buf[start .. start + length) is one line: it ends with its newline and
      holds no other. */
  ghost predicate IsLine(buf: string, start: int, length: int)
  {
    && 0 <= start && 1 <= length && start + length <= |buf|
    && buf[start + length - 1] == '\n'
    && forall k :: start <= k < start + length - 1 ==> buf[k] != '\n'
  }

  /** `lines` is the line table of `buf`: one entry per newline, keyed 1, 2, ...
      in order, the first line starting at 0 and each next line where the
      previous one ends. */
  ghost predicate IsLineTable(buf: string, lines: seq<LineEntry>)
  {
    && |lines| == NewlinesBefore(buf, |buf|)
    && (forall i :: 0 <= i < |lines| ==> lines[i].lineNo == i + 1)
    && (|lines| > 0 ==> lines[0].start == 0)
    && (forall i :: 0 <= i < |lines| - 1 ==> lines[i + 1].start == lines[i].start + lines[i].length)
    && (forall i :: 0 <= i < |lines| ==> IsLine(buf, lines[i].start, lines[i].length))
  }

  /** Where the last recorded line ends (0 when there is none). */
  function TableEnd(lines: seq<LineEntry>): int
  {
    if lines == [] then 0 else lines[|lines| - 1].start + lines[|lines| - 1].length
  }

  /** `find_line_boundaries(buffer)`. */
  method FindLineBoundaries(buf: string) returns (lines: seq<LineEntry>)
    ensures IsLineTable(buf, lines)
  {
    var lineNo: nat := 1;
    var lineStart: nat := 0;
    var lineLen: nat := 0;
    lines := [];
    for charNo := 0 to |buf|
      invariant Scanned(buf, charNo, lines)
      invariant lineNo == |lines| + 1
      invariant lineStart == TableEnd(lines)
      invariant lineStart + lineLen == charNo
    {
      lineLen := lineLen + 1;  // the newline is the last character of a line
      if buf[charNo] == '\n' {
        ScanNewline(buf, charNo, lines);
        lines := lines + [LineEntry(lineNo, lineStart, lineLen)];
        lineNo := lineNo + 1;
        lineStart := charNo + 1;
        lineLen := 0;
      } else {
        ScanOther(buf, charNo, lines);
      }
    }
  }

  /** `lines` is the line table of the complete lines of buf[0..n), and no
      newline follows the last of them before n. */
  ghost predicate Scanned(buf: string, n: nat, lines: seq<LineEntry>)
    requires n <= |buf|
  {
    && |lines| == NewlinesBefore(buf, n)
    && 0 <= TableEnd(lines) <= n
    && (forall k :: TableEnd(lines) <= k < n ==> buf[k] != '\n')
    && (forall i :: 0 <= i < |lines| ==> lines[i].lineNo == i + 1)
    && (|lines| > 0 ==> lines[0].start == 0)
    && (forall i :: 0 <= i < |lines| - 1 ==> lines[i + 1].start == lines[i].start + lines[i].length)
    && (forall i :: 0 <= i < |lines| ==> IsLine(buf, lines[i].start, lines[i].length))
  }

  /** A character other than a newline extends the current line. */
  lemma ScanOther(buf: string, n: nat, lines: seq<LineEntry>)
    requires n < |buf| && buf[n] != '\n' && Scanned(buf, n, lines)
    ensures Scanned(buf, n + 1, lines)
  {
  }

  /** A newline closes the current line. */
  lemma ScanNewline(buf: string, n: nat, lines: seq<LineEntry>)
    requires n < |buf| && buf[n] == '\n' && Scanned(buf, n, lines)
    ensures Scanned(buf, n + 1, lines + [LineEntry(|lines| + 1, TableEnd(lines), n + 1 - TableEnd(lines))])
  {
    var e := LineEntry(|lines| + 1, TableEnd(lines), n + 1 - TableEnd(lines));
    var u := lines + [e];
    assert IsLine(buf, e.start, e.length);
    assert forall i :: 0 <= i < |lines| ==> u[i] == lines[i];
    assert TableEnd(u) == n + 1;
  }

  // ---------------------------------------------------------------------
  // What the line table means.
  // ---------------------------------------------------------------------

  lemma {:induction false} NoNewlineBetween(buf: string, a: nat, b: nat)
    requires a <= b <= |buf|
    requires forall k :: a <= k < b ==> buf[k] != '\n'
    ensures NewlinesBefore(buf, b) == NewlinesBefore(buf, a)
    decreases b - a
  {
    if a < b {
      NoNewlineBetween(buf, a, b - 1);
    }
  }

  /** Line i + 1 starts after exactly i newlines. */
  lemma {:induction false} NewlinesBeforeLine(buf: string, lines: seq<LineEntry>, i: nat)
    requires IsLineTable(buf, lines)
    requires i < |lines|
    ensures NewlinesBefore(buf, lines[i].start) == i
  {
    if i > 0 {
      NewlinesBeforeLine(buf, lines, i - 1);
      var l := lines[i - 1];
      assert IsLine(buf, l.start, l.length);
      NoNewlineBetween(buf, l.start, l.start + l.length - 1);
    }
  }

  /** The lines are contiguous from 0: line i + 1 starts at or after every earlier line's end. */
  lemma {:induction false} LinesOrdered(buf: string, lines: seq<LineEntry>, j: nat, i: nat)
    requires IsLineTable(buf, lines)
    requires j < i < |lines|
    ensures lines[j].start + lines[j].length <= lines[i].start
    decreases i - j
  {
    if j + 1 < i {
      LinesOrdered(buf, lines, j + 1, i);
      assert IsLine(buf, lines[j + 1].start, lines[j + 1].length);
    }
  }

  /** The ranges of a line table cover [0, TableEnd) without a gap: some line
      holds each offset below the end of the last line. */
  lemma TableCovers(buf: string, lines: seq<LineEntry>, o: int)
    requires IsLineTable(buf, lines)
    requires 0 <= o < TableEnd(lines)
    ensures exists i :: 0 <= i < |lines| && Contains(lines[i], o)
  {
    var i := CoveringLine(buf, lines, |lines| - 1, o);
  }

  /** The index of a line holding o, searching down from line n. */
  lemma {:induction false} CoveringLine(buf: string, lines: seq<LineEntry>, n: nat, o: int) returns (i: nat)
    requires IsLineTable(buf, lines)
    requires n < |lines| && 0 <= o < lines[n].start + lines[n].length
    ensures i <= n && Contains(lines[i], o)
  {
    if o >= lines[n].start {
      i := n;
    } else {
      assert n > 0 && lines[n].start == lines[n - 1].start + lines[n - 1].length;
      i := CoveringLine(buf, lines, n - 1, o);
    }
  }

  /** `which_line` over a line table answers with one plus the number of
      newlines before the offset, for every offset up to the end of the last
      recorded line. */
  lemma WhichLineCountsNewlines(buf: string, lines: seq<LineEntry>, o: int)
    requires IsLineTable(buf, lines)
    requires 0 <= o < TableEnd(lines)
    ensures o <= |buf|
    ensures WhichLine(o, lines) == 1 + NewlinesBefore(buf, o)
  {
    TableCovers(buf, lines, o);
    var i :| 0 <= i < |lines| && Contains(lines[i], o);
    forall j | 0 <= j < i
      ensures !Contains(lines[j], o)
    {
      LinesOrdered(buf, lines, j, i);
    }
    var l := lines[i];
    assert IsLine(buf, l.start, l.length);
    NewlinesBeforeLine(buf, lines, i);
    NoNewlineBetween(buf, l.start, o);
  }

  /** Offsets before 0 or from the end of the last line on (the text after the
      last newline) lie in no line. */
  lemma WhichLineOutside(buf: string, lines: seq<LineEntry>, o: int)
    requires IsLineTable(buf, lines)
    requires o < 0 || TableEnd(lines) <= o
    ensures WhichLine(o, lines) == -1
  {
    forall i | 0 <= i < |lines|
      ensures !Contains(lines[i], o)
    {
      LineWithinTable(buf, lines, i);
    }
  }

  /** Every line lies in [0, TableEnd). */
  lemma LineWithinTable(buf: string, lines: seq<LineEntry>, i: nat)
    requires IsLineTable(buf, lines)
    requires i < |lines|
    ensures 0 <= lines[i].start && lines[i].start + lines[i].length <= TableEnd(lines)
  {
    assert IsLine(buf, lines[i].start, lines[i].length);
    if i < |lines| - 1 {
      LinesOrdered(buf, lines, i, |lines| - 1);
      assert IsLine(buf, lines[|lines| - 1].start, lines[|lines| - 1].length);
    }
  }

  /** The last recorded line ends one past the last newline: no newline lies
      at or after TableEnd. */
  lemma {:induction false} NothingAfterTable(buf: string, lines: seq<LineEntry>)
    requires IsLineTable(buf, lines)
    ensures TableEnd(lines) <= |buf|
    ensures forall k :: TableEnd(lines) <= k < |buf| ==> buf[k] != '\n'
  {
    var t := TableEnd(lines);
    if lines != [] {
      var l := lines[|lines| - 1];
      assert IsLine(buf, l.start, l.length);
      NewlinesBeforeLine(buf, lines, |lines| - 1);
      NoNewlineBetween(buf, l.start, t - 1);
    }
    forall k | t <= k < |buf|
      ensures buf[k] != '\n'
    {
      if buf[k] == '\n' {
        CountGrows(buf, t, k);
      }
    }
  }

  lemma {:induction false} CountGrows(buf: string, a: nat, k: nat)
    requires a <= k < |buf| && buf[k] == '\n'
    ensures NewlinesBefore(buf, |buf|) > NewlinesBefore(buf, a)
    decreases |buf| - a
  {
    MonotoneNewlines(buf, k + 1, |buf|);
    MonotoneNewlines(buf, a, k);
  }

  lemma {:induction false} MonotoneNewlines(buf: string, a: nat, b: nat)
    requires a <= b <= |buf|
    ensures NewlinesBefore(buf, a) <= NewlinesBefore(buf, b)
    decreases b - a
  {
    if a < b {
      MonotoneNewlines(buf, a, b - 1);
    }
  }

  /** A line table is determined by its text. */
  lemma {:induction false} LineTableUnique(buf: string, l1: seq<LineEntry>, l2: seq<LineEntry>)
    requires IsLineTable(buf, l1) && IsLineTable(buf, l2)
    ensures l1 == l2
  {
    forall i | 0 <= i < |l1|
      ensures l1[i] == l2[i]
    {
      SameLine(buf, l1, l2, i);
    }
  }

  lemma {:induction false} SameLine(buf: string, l1: seq<LineEntry>, l2: seq<LineEntry>, i: nat)
    requires IsLineTable(buf, l1) && IsLineTable(buf, l2)
    requires i < |l1|
    ensures l1[i] == l2[i]
  {
    if i > 0 {
      SameLine(buf, l1, l2, i - 1);
    }
    var a, b := l1[i], l2[i];
    assert a.start == b.start;
    assert IsLine(buf, a.start, a.length) && IsLine(buf, b.start, b.length);
  }

  // ---------------------------------------------------------------------
  // The module's doctest.
  // ---------------------------------------------------------------------

  /** The lines of lightgray.blk used by the doctest, without their newlines. */
  const Line1: string := "[lightgray: Frame"
  const Line2: string := "    [] [White: Message text]"
  const Line3: string := "    //"
  const Line4: string := "    [goldenrod: OK Button]" + " [] [#ff0505: Cancel Button]"
  const Line5: string := "    /"
  const Line6: string := "    []"
  const Line7: string := "]"

  /** The lines of lightgray.blk. */
  const LightgrayText: seq<string> := [Line1, Line2, Line3, Line4, Line5, Line6, Line7]

  /** The table the doctest prints for lightgray.blk. */
  const LightgrayLines: seq<LineEntry> :=
    [LineEntry(1, 0, 18), LineEntry(2, 18, 29), LineEntry(3, 47, 7), LineEntry(4, 54, 55),
     LineEntry(5, 109, 6), LineEntry(6, 115, 7), LineEntry(7, 122, 2)]

  /** The printed table is the line table of the file's text, so (by
      LineTableUnique) it is what FindLineBoundaries returns on it. */
  lemma LightgrayTable()
    ensures IsLineTable(Join(LightgrayText), LightgrayLines)
  {
    forall i | 0 <= i < |LightgrayText|
      ensures '\n' !in LightgrayText[i]
    {
    }
    JoinTable(LightgrayText);
    LightgrayTablePrefix();
  }

  lemma LightgrayTablePrefix()
    ensures TablePrefix(LightgrayText, |LightgrayText|) == LightgrayLines
  {
    var ls := LightgrayText;
    assert |Line1| == 17 && |Line2| == 28 && |Line3| == 6 && |Line4| == 54;
    assert |Line5| == 5 && |Line6| == 6 && |Line7| == 1;
    JoinStep(ls, 0);
    JoinStep(ls, 1);
    JoinStep(ls, 2);
    JoinStep(ls, 3);
    JoinStep(ls, 4);
    JoinStep(ls, 5);
    assert ls[..0] == [];
    assert TablePrefix(ls, 1) == LightgrayLines[..1];
    assert TablePrefix(ls, 2) == LightgrayLines[..2];
    assert TablePrefix(ls, 3) == LightgrayLines[..3];
    assert TablePrefix(ls, 4) == LightgrayLines[..4];
    assert TablePrefix(ls, 5) == LightgrayLines[..5];
    assert TablePrefix(ls, 6) == LightgrayLines[..6];
    assert TablePrefix(ls, 7) == LightgrayLines[..7];
    assert LightgrayLines[..7] == LightgrayLines;
  }

  lemma JoinStep(ls: seq<string>, k: nat)
    requires k < |ls|
    ensures |Join(ls[..k + 1])| == |Join(ls[..k])| + |ls[k]| + 1
  {
    assert ls[..k + 1][..k] == ls[..k];
  }

  /** The doctest's `find_line_boundaries(lightgray_str)` call. */
  method LightgrayDoctest() returns (lines: seq<LineEntry>)
    ensures lines == LightgrayLines
  {
    lines := FindLineBoundaries(Join(LightgrayText));
    LightgrayTable();
    LineTableUnique(Join(LightgrayText), lines, LightgrayLines);
  }

  /** `which_line(47) == 3`, `which_line(10) == 1`, `which_line(17) == 1`. */
  lemma LightgrayWhichLine()
    ensures WhichLine(47, LightgrayLines) == 3
    ensures WhichLine(10, LightgrayLines) == 1
    ensures WhichLine(17, LightgrayLines) == 1
  {
  }

  /** Appending one more line to a text that ends with a newline appends one
      entry to its line table. */
  lemma AppendLine(a: string, t: seq<LineEntry>, p: string)
    requires IsLineTable(a, t) && TableEnd(t) == |a|
    requires '\n' !in p
    ensures IsLineTable(a + p + "\n", t + [LineEntry(|t| + 1, |a|, |p| + 1)])
    ensures TableEnd(t + [LineEntry(|t| + 1, |a|, |p| + 1)]) == |a + p + "\n"|
  {
    var s := p + "\n";
    assert a + p + "\n" == a + s;
    var b, u := a + s, t + [LineEntry(|t| + 1, |a|, |s|)];
    PrefixNewlines(a, s, |a|);
    assert forall k :: |a| <= k < |b| - 1 ==> b[k] == p[k - |a|];
    NoNewlineBetween(b, |a|, |b| - 1);
    assert NewlinesBefore(b, |b|) == NewlinesBefore(a, |a|) + 1;
    forall i | 0 <= i < |t|
      ensures u[i] == t[i] && IsLine(b, t[i].start, t[i].length)
    {
      assert IsLine(a, t[i].start, t[i].length);
    }
    assert IsLine(b, |a|, |s|);
    assert u[|t|] == LineEntry(|t| + 1, |a|, |s|);
  }

  lemma {:induction false} PrefixNewlines(a: string, s: string, k: nat)
    requires k <= |a|
    ensures NewlinesBefore(a + s, k) == NewlinesBefore(a, k)
  {
    if k > 0 {
      PrefixNewlines(a, s, k - 1);
    }
  }

  /** The text made of the given lines, each followed by a newline. */
  function Join(ls: seq<string>): string
  {
    if ls == [] then "" else Join(ls[..|ls| - 1]) + ls[|ls| - 1] + "\n"
  }

  /** The table of the first n of the given lines: entry k + 1 starts where
      the first k lines end and spans line k and its newline. */
  function TablePrefix(ls: seq<string>, n: nat): seq<LineEntry>
    requires n <= |ls|
  {
    if n == 0 then [] else TablePrefix(ls, n - 1) + [LineEntry(n, |Join(ls[..n - 1])|, |ls[n - 1]| + 1)]
  }

  /** Lines without newlines joined by newlines have the line table TablePrefix. */
  lemma {:induction false} JoinTable(ls: seq<string>)
    requires forall i :: 0 <= i < |ls| ==> '\n' !in ls[i]
    ensures IsLineTable(Join(ls), TablePrefix(ls, |ls|))
    ensures TableEnd(TablePrefix(ls, |ls|)) == |Join(ls)|
  {
    if ls != [] {
      var front := ls[..|ls| - 1];
      JoinTable(front);
      TablePrefixOfFront(ls, |ls| - 1);
      AppendLine(Join(front), TablePrefix(front, |front|), ls[|ls| - 1]);
    }
  }

  lemma {:induction false} TablePrefixOfFront(ls: seq<string>, n: nat)
    requires n <= |ls| - 1
    ensures TablePrefix(ls[..|ls| - 1], n) == TablePrefix(ls, n)
  {
    if n > 0 {
      TablePrefixOfFront(ls, n - 1);
      assert ls[..|ls| - 1][..n - 1] == ls[..n - 1];
    }
  }
}
