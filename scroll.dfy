/** The scroll buffer as a value: the two byte grids and the cursor, and
    what `write` and `clear` make of them. The `Console` class performs
    these updates in place on arrays and is proved to agree with them. */
module Scroll {
  import opened Font
  import Decode

  /** `scroll-up`: the newest line is in row 0 and older lines move to
      higher rows. `scroll-down`: lines fill rows 0, 1, ... and then older
      lines move to lower rows. */
  datatype Orientation = ScrollUp | ScrollDown

  /** A `rows x cols` grid of byte triples (the source's `rows x cols x 3`
      array). */
  type Grid = seq<seq<Triple>>

  /** The two grids, `bytes_012` and `bytes_345`, and the cursor row. */
  datatype Screen = Screen(lo: Grid, hi: Grid, row: int)

  function Min(a: int, b: int): int
  {
    if a < b then a else b
  }

  /** The cursor is -1 before the first write and a row index after it. */
  predicate WellFormed(s: Screen, rows: nat, cols: nat)
  {
    1 <= rows && Shaped(s.lo, rows, cols) && Shaped(s.hi, rows, cols) && -1 <= s.row < rows
  }

  /** In `scroll-up` the cursor never gets past row 0. */
  predicate Reachable(s: Screen, ori: Orientation)
  {
    ori == ScrollUp ==> s.row <= 0
  }

  function BlankRow(cols: nat): seq<Triple>
  {
    seq(cols, _ => Zero)
  }

  /** The state after construction and after `clear`. */
  function Cleared(rows: nat, cols: nat): (s: Screen)
    requires 1 <= rows
    ensures WellFormed(s, rows, cols) && s.row == -1
    ensures forall i, c :: 0 <= i < rows && 0 <= c < cols ==> s.lo[i][c] == Zero && s.hi[i][c] == Zero
  {
    Screen(seq(rows, _ => BlankRow(cols)), seq(rows, _ => BlankRow(cols)), -1)
  }

  /** The characters of a line that reach the grid: the line after ASCII
      replacement, cropped to `cols`. */
  function Kept(text: string, cols: nat): (k: string)
    ensures |k| == Min(|AsciiReplace(text)|, cols)
    ensures k == AsciiReplace(text)[..|k|]
  {
    var line := AsciiReplace(text);
    line[..Min(|line|, cols)]
  }

  /** The records a written line puts in its row: one per kept character,
      then blanks. */
  function RowRecords(text: string, cols: nat): (recs: seq<Record>)
    ensures |recs| == cols
    ensures forall c :: 0 <= c < cols ==>
              recs[c] == if c < |Kept(text, cols)| then Lookup(Kept(text, cols)[c]) else Blank
  {
    var k := Kept(text, cols);
    seq(cols, c requires 0 <= c < cols => if c < |k| then Lookup(k[c]) else Blank)
  }

  function LoRow(text: string, cols: nat): (row: seq<Triple>)
    ensures |row| == cols
  {
    var recs := RowRecords(text, cols);
    seq(cols, c requires 0 <= c < cols => recs[c].Lo())
  }

  function HiRow(text: string, cols: nat): (row: seq<Triple>)
    ensures |row| == cols
  {
    var recs := RowRecords(text, cols);
    seq(cols, c requires 0 <= c < cols => recs[c].Hi())
  }

  /** Bytes 0..2 of the records of a line, one per character. */
  function LoCells(line: string): (cells: seq<Triple>)
    ensures |cells| == |line|
  {
    seq(|line|, j requires 0 <= j < |line| => Lookup(line[j]).Lo())
  }

  /** Bytes 3..5 of the records of a line, one per character. */
  function HiCells(line: string): (cells: seq<Triple>)
    ensures |cells| == |line|
  {
    seq(|line|, j requires 0 <= j < |line| => Lookup(line[j]).Hi())
  }

  /** A written row holds the records of the kept characters, then zeros. */
  lemma RowIsCellsThenBlank(text: string, cols: nat)
    ensures var k := Kept(text, cols);
            LoRow(text, cols) == LoCells(k) + BlankRow(cols - |k|)
            && HiRow(text, cols) == HiCells(k) + BlankRow(cols - |k|)
  {
    var k := Kept(text, cols);
    assert Blank.Lo() == Zero && Blank.Hi() == Zero;
    assert LoRow(text, cols) == LoCells(k) + BlankRow(cols - |k|);
    assert HiRow(text, cols) == HiCells(k) + BlankRow(cols - |k|);
  }

  /** `g[:-1] = g[1:]`: every row but the last takes the row after it; the
      last row keeps its content. */
  function ShiftTowardTop(g: Grid): (g': Grid)
    requires |g| >= 1
    ensures |g'| == |g| && g'[|g| - 1] == g[|g| - 1]
    ensures forall i :: 0 <= i < |g| - 1 ==> g'[i] == g[i + 1]
  {
    g[1..] + [g[|g| - 1]]
  }

  /** `g[1:] = g[:-1]`: every row but the first takes the row before it;
      the first row keeps its content. */
  function ShiftTowardBottom(g: Grid): (g': Grid)
    requires |g| >= 1
    ensures |g'| == |g| && g'[0] == g[0]
    ensures forall i :: 0 < i < |g| ==> g'[i] == g[i - 1]
  {
    [g[0]] + g[..|g| - 1]
  }

  /** The old row that row i holds after the cursor moved to `next` in a
      grid of n rows. */
  function Source(n: nat, next: int, i: nat): (j: nat)
    requires i < n
    ensures j < n
  {
    if next >= n then (if i < n - 1 then i + 1 else i)
    else if next < 0 then (if i > 0 then i - 1 else i)
    else i
  }

  /** The grid after the cursor moved to `next`: scrolled toward the
      boundary it crossed, unchanged if it stayed inside. */
  function Scrolled(g: Grid, next: int): (g': Grid)
    requires |g| >= 1
    ensures |g'| == |g|
    ensures forall i :: 0 <= i < |g| ==> g'[i] == g[Source(|g|, next, i)]
  {
    if next >= |g| then ShiftTowardTop(g) else if next < 0 then ShiftTowardBottom(g) else g
  }

  /** `write(text)` for a text argument: advance the cursor, scroll when it
      leaves the grid, then replace the cursor's row by the line. */
  function Write(s: Screen, ori: Orientation, rows: nat, cols: nat, text: string): (s': Screen)
    requires WellFormed(s, rows, cols)
    ensures WellFormed(s', rows, cols) && 0 <= s'.row < rows
    ensures Reachable(s, ori) ==> Reachable(s', ori) && (ori == ScrollUp ==> s'.row == 0)
    ensures ori == ScrollDown ==> s'.row == Min(s.row + 1, rows - 1)
    ensures s'.lo[s'.row] == LoRow(text, cols) && s'.hi[s'.row] == HiRow(text, cols)
  {
    var next := s.row + (if ori == ScrollDown then 1 else -1);
    var row := if next >= rows then rows - 1 else if next < 0 then 0 else next;
    var lo, hi := Scrolled(s.lo, next), Scrolled(s.hi, next);
    Screen(lo[row := LoRow(text, cols)], hi[row := HiRow(text, cols)], row)
  }

  /** Which earlier rows survive a write, and where they go.
      `scroll-down` before the last row: no row moves. `scroll-down` on the
      last row: row i takes old row i + 1 and old row 0 is dropped.
      `scroll-up`: row i + 1 takes old row i and the old last row is
      dropped. */
  lemma WriteMovesRows(s: Screen, ori: Orientation, rows: nat, cols: nat, text: string)
    requires WellFormed(s, rows, cols) && Reachable(s, ori)
    ensures var s' := Write(s, ori, rows, cols, text);
            (ori == ScrollDown && s.row < rows - 1 ==>
               s'.row == s.row + 1 &&
               forall i :: 0 <= i < rows && i != s'.row ==> s'.lo[i] == s.lo[i] && s'.hi[i] == s.hi[i])
            && (ori == ScrollDown && s.row == rows - 1 ==>
               s'.row == rows - 1 &&
               forall i :: 0 <= i < rows - 1 ==> s'.lo[i] == s.lo[i + 1] && s'.hi[i] == s.hi[i + 1])
            && (ori == ScrollUp ==>
               s'.row == 0 &&
               forall i :: 0 < i < rows ==> s'.lo[i] == s.lo[i - 1] && s'.hi[i] == s.hi[i - 1])
  {
  }

  /** Writing the lines in order, oldest first. */
  function WriteAll(s: Screen, ori: Orientation, rows: nat, cols: nat, lines: seq<string>): (s': Screen)
    requires WellFormed(s, rows, cols)
    ensures WellFormed(s', rows, cols)
    decreases |lines|
  {
    if lines == [] then s
    else Write(WriteAll(s, ori, rows, cols, lines[..|lines| - 1]), ori, rows, cols, lines[|lines| - 1])
  }

  /** The `bytes_012` rows the lines put on screen, oldest first. */
  function LoRows(lines: seq<string>, cols: nat): (written: seq<seq<Triple>>)
    ensures |written| == |lines|
    ensures forall k :: 0 <= k < |lines| ==> written[k] == LoRow(lines[k], cols)
  {
    seq(|lines|, k requires 0 <= k < |lines| => LoRow(lines[k], cols))
  }

  /** The `bytes_345` rows the lines put on screen, oldest first. */
  function HiRows(lines: seq<string>, cols: nat): (written: seq<seq<Triple>>)
    ensures |written| == |lines|
    ensures forall k :: 0 <= k < |lines| ==> written[k] == HiRow(lines[k], cols)
  {
    seq(|lines|, k requires 0 <= k < |lines| => HiRow(lines[k], cols))
  }

  /** The rows written by a sequence of lines are those of all but the
      newest line, then the newest line's row. */
  lemma WrittenSplit(lines: seq<string>, cols: nat)
    requires lines != []
    ensures LoRows(lines, cols) == LoRows(lines[..|lines| - 1], cols) + [LoRow(lines[|lines| - 1], cols)]
    ensures HiRows(lines, cols) == HiRows(lines[..|lines| - 1], cols) + [HiRow(lines[|lines| - 1], cols)]
  {
  }

  /** One grid of the `scroll-up` history, from `g0` to `g` after the rows
      `written` (oldest first): row i holds the row written i writes ago,
      and rows beyond |written| hold what was |written| rows above them. */
  ghost predicate UpGrid(g0: Grid, g: Grid, rows: nat, written: seq<seq<Triple>>)
  {
    |g0| == |g| == rows
    && (forall i :: 0 <= i < rows && i < |written| ==> g[i] == written[|written| - 1 - i])
    && (forall i :: 0 <= i < rows && |written| <= i ==> g[i] == g0[i - |written|])
  }

  /** The `scroll-up` history after writing `lines` into `s`, giving `s'`:
      the cursor is on row 0 once anything was written, and both grids
      follow `UpGrid`. */
  ghost predicate UpHistory(s: Screen, s': Screen, rows: nat, cols: nat, lines: seq<string>)
  {
    s'.row <= 0 && (lines != [] ==> s'.row == 0)
    && UpGrid(s.lo, s'.lo, rows, LoRows(lines, cols))
    && UpGrid(s.hi, s'.hi, rows, HiRows(lines, cols))
  }

  /** In `scroll-up`, any sequence of writes leaves the history `UpHistory`
      describes. */
  lemma {:induction false} ScrollUpHistory(s: Screen, rows: nat, cols: nat, lines: seq<string>)
    requires WellFormed(s, rows, cols) && s.row <= 0
    ensures UpHistory(s, WriteAll(s, ScrollUp, rows, cols, lines), rows, cols, lines)
    decreases |lines|
  {
    if lines == [] {
      assert WriteAll(s, ScrollUp, rows, cols, lines) == s;
    } else {
      var init := lines[..|lines| - 1];
      var mid := WriteAll(s, ScrollUp, rows, cols, init);
      ScrollUpHistory(s, rows, cols, init);
      assert WriteAll(s, ScrollUp, rows, cols, lines) == Write(mid, ScrollUp, rows, cols, lines[|lines| - 1]);
      ScrollUpStep(s, mid, rows, cols, lines);
    }
  }

  /** Inductive step of ScrollUpHistory: one more line. */
  lemma ScrollUpStep(s: Screen, mid: Screen, rows: nat, cols: nat, lines: seq<string>)
    requires lines != []
    requires WellFormed(mid, rows, cols) && UpHistory(s, mid, rows, cols, lines[..|lines| - 1])
    ensures UpHistory(s, Write(mid, ScrollUp, rows, cols, lines[|lines| - 1]), rows, cols, lines)
  {
    var n := |lines|;
    var init := lines[..|lines| - 1];
    var s' := Write(mid, ScrollUp, rows, cols, lines[n - 1]);
    WriteMovesRows(mid, ScrollUp, rows, cols, lines[n - 1]);
    WrittenSplit(lines, cols);
    UpGridStep(s.lo, mid.lo, s'.lo, rows, LoRows(init, cols), LoRow(lines[n - 1], cols));
    UpGridStep(s.hi, mid.hi, s'.hi, rows, HiRows(init, cols), HiRow(lines[n - 1], cols));
  }

  /** One grid, one `scroll-up` write: the rows move down by one and the
      new row goes on top. */
  lemma UpGridStep(g0: Grid, g: Grid, g': Grid, rows: nat, prev: seq<seq<Triple>>, last: seq<Triple>)
    requires 1 <= rows && UpGrid(g0, g, rows, prev)
    requires |g'| == rows && g'[0] == last
    requires forall i :: 0 < i < rows ==> g'[i] == g[i - 1]
    ensures UpGrid(g0, g', rows, prev + [last])
  {
    var written := prev + [last];
    var n := |written|;
    forall i | 0 <= i < rows && i < n
      ensures g'[i] == written[n - 1 - i]
    {
      if i > 0 {
        assert g[i - 1] == prev[n - 1 - 1 - (i - 1)];
      }
    }
    forall i | 0 <= i < rows && n <= i
      ensures g'[i] == g0[i - n]
    {
      assert g'[i] == g[i - 1];
    }
  }

  /** The first line of `lines` still on screen in `scroll-down`. */
  function FirstShown(n: nat, rows: nat): (start: nat)
    ensures start <= n && n - start == Min(n, rows)
  {
    if n > rows then n - rows else 0
  }

  /** One grid of the `scroll-down` history, from `g0` to `g` after the
      rows `written` (oldest first): the rows hold the last `rows` written
      rows in order, oldest in row 0, and rows not yet reached keep their
      content. */
  ghost predicate DownGrid(g0: Grid, g: Grid, rows: nat, written: seq<seq<Triple>>)
  {
    var start := FirstShown(|written|, rows);
    |g0| == |g| == rows
    && (forall i :: 0 <= i < rows && start + i < |written| ==> g[i] == written[start + i])
    && (forall i :: 0 <= i < rows && |written| <= start + i ==> g[i] == g0[i])
  }

  /** The `scroll-down` history after writing `lines` into `s` (cursor
      before the first row), giving `s'`: the cursor is on the newest line
      and both grids follow `DownGrid`. */
  ghost predicate DownHistory(s: Screen, s': Screen, rows: nat, cols: nat, lines: seq<string>)
  {
    s'.row == Min(|lines|, rows) - 1
    && DownGrid(s.lo, s'.lo, rows, LoRows(lines, cols))
    && DownGrid(s.hi, s'.hi, rows, HiRows(lines, cols))
  }

  /** In `scroll-down`, any sequence of writes from a cleared cursor
      leaves the history `DownHistory` describes. */
  lemma {:induction false} ScrollDownHistory(s: Screen, rows: nat, cols: nat, lines: seq<string>)
    requires WellFormed(s, rows, cols) && s.row == -1
    ensures DownHistory(s, WriteAll(s, ScrollDown, rows, cols, lines), rows, cols, lines)
    decreases |lines|
  {
    if lines == [] {
      assert WriteAll(s, ScrollDown, rows, cols, lines) == s;
    } else {
      var init := lines[..|lines| - 1];
      var mid := WriteAll(s, ScrollDown, rows, cols, init);
      ScrollDownHistory(s, rows, cols, init);
      assert WriteAll(s, ScrollDown, rows, cols, lines) == Write(mid, ScrollDown, rows, cols, lines[|lines| - 1]);
      ScrollDownStep(s, mid, rows, cols, lines);
    }
  }

  /** Inductive step of ScrollDownHistory: one more line. */
  lemma ScrollDownStep(s: Screen, mid: Screen, rows: nat, cols: nat, lines: seq<string>)
    requires lines != []
    requires WellFormed(mid, rows, cols) && DownHistory(s, mid, rows, cols, lines[..|lines| - 1])
    ensures DownHistory(s, Write(mid, ScrollDown, rows, cols, lines[|lines| - 1]), rows, cols, lines)
  {
    var n := |lines|;
    var init := lines[..|lines| - 1];
    var s' := Write(mid, ScrollDown, rows, cols, lines[n - 1]);
    WrittenSplit(lines, cols);
    if n <= rows {
      WriteDownFilling(mid, rows, cols, lines[n - 1]);
      DownGridFilling(s.lo, mid.lo, s'.lo, rows, LoRows(init, cols), LoRow(lines[n - 1], cols));
      DownGridFilling(s.hi, mid.hi, s'.hi, rows, HiRows(init, cols), HiRow(lines[n - 1], cols));
    } else {
      WriteDownFull(mid, rows, cols, lines[n - 1]);
      DownGridFull(s.lo, mid.lo, s'.lo, rows, LoRows(init, cols), LoRow(lines[n - 1], cols));
      DownGridFull(s.hi, mid.hi, s'.hi, rows, HiRows(init, cols), HiRow(lines[n - 1], cols));
    }
  }

  /** A `scroll-down` write above the last row: the line goes in the next
      row and no other row changes. */
  lemma WriteDownFilling(mid: Screen, rows: nat, cols: nat, text: string)
    requires WellFormed(mid, rows, cols) && mid.row < rows - 1
    ensures var s' := Write(mid, ScrollDown, rows, cols, text);
            s'.row == mid.row + 1
            && s'.lo[mid.row + 1] == LoRow(text, cols) && s'.hi[mid.row + 1] == HiRow(text, cols)
            && (forall i :: 0 <= i < rows && i != mid.row + 1 ==> s'.lo[i] == mid.lo[i])
            && (forall i :: 0 <= i < rows && i != mid.row + 1 ==> s'.hi[i] == mid.hi[i])
  {
    WriteMovesRows(mid, ScrollDown, rows, cols, text);
  }

  /** A `scroll-down` write on the last row: the rows move up by one and
      the line goes in the last row. */
  lemma WriteDownFull(mid: Screen, rows: nat, cols: nat, text: string)
    requires WellFormed(mid, rows, cols) && mid.row == rows - 1
    ensures var s' := Write(mid, ScrollDown, rows, cols, text);
            s'.row == rows - 1
            && s'.lo[rows - 1] == LoRow(text, cols) && s'.hi[rows - 1] == HiRow(text, cols)
            && (forall i :: 0 <= i < rows - 1 ==> s'.lo[i] == mid.lo[i + 1])
            && (forall i :: 0 <= i < rows - 1 ==> s'.hi[i] == mid.hi[i + 1])
  {
    WriteMovesRows(mid, ScrollDown, rows, cols, text);
  }


  /** One grid, one `scroll-down` write while the screen is filling: the
      new row goes below the earlier ones and no row moves. */
  lemma DownGridFilling(g0: Grid, g: Grid, g': Grid, rows: nat, prev: seq<seq<Triple>>, last: seq<Triple>)
    requires |prev| < rows && DownGrid(g0, g, rows, prev)
    requires |g'| == rows && g'[|prev|] == last
    requires forall i :: 0 <= i < rows && i != |prev| ==> g'[i] == g[i]
    ensures DownGrid(g0, g', rows, prev + [last])
  {
    var written := prev + [last];
    var n := |written|;
    assert FirstShown(n, rows) == 0 && FirstShown(n - 1, rows) == 0;
    forall i | 0 <= i < rows && i < n
      ensures g'[i] == written[i]
    {
      if i < n - 1 {
        assert g[i] == prev[0 + i];
      }
    }
  }

  /** One grid, one `scroll-down` write on a full screen: the rows move up
      by one and the new row goes in the last row. */
  lemma DownGridFull(g0: Grid, g: Grid, g': Grid, rows: nat, prev: seq<seq<Triple>>, last: seq<Triple>)
    requires 0 < rows <= |prev| && DownGrid(g0, g, rows, prev)
    requires |g'| == rows && g'[rows - 1] == last
    requires forall i :: 0 <= i < rows - 1 ==> g'[i] == g[i + 1]
    ensures DownGrid(g0, g', rows, prev + [last])
  {
    var written := prev + [last];
    var n := |written|;
    var start0 := FirstShown(n - 1, rows);
    assert start0 == n - 1 - rows && FirstShown(n, rows) == n - rows;
    forall i | 0 <= i < rows
      ensures g'[i] == written[n - rows + i]
    {
      if i < rows - 1 {
        assert g[i + 1] == prev[start0 + (i + 1)];
      }
    }
  }

  /** With three rows in `scroll-up`, writing "A", "B", "C", "D" to a
      cleared console leaves "D", "C", "B" in rows 0, 1, 2: "A" is gone. */
  lemma ScrollUpExample(cols: nat)
    ensures var s' := WriteAll(Cleared(3, cols), ScrollUp, 3, cols, ["A", "B", "C", "D"]);
            s'.row == 0
            && s'.lo == [LoRow("D", cols), LoRow("C", cols), LoRow("B", cols)]
            && s'.hi == [HiRow("D", cols), HiRow("C", cols), HiRow("B", cols)]
  {
    var lines := ["A", "B", "C", "D"];
    var s0 := Cleared(3, cols);
    ScrollUpHistory(s0, 3, cols, lines);
    var s' := WriteAll(s0, ScrollUp, 3, cols, lines);
    RowsOfHistory(s0.lo, s'.lo, LoRows(lines, cols));
    RowsOfHistory(s0.hi, s'.hi, HiRows(lines, cols));
  }

  /** The three rows of one grid left by a four-write `scroll-up` history. */
  lemma RowsOfHistory(g0: Grid, g: Grid, written: seq<seq<Triple>>)
    requires |written| == 4 && UpGrid(g0, g, 3, written)
    ensures g == [written[3], written[2], written[1]]
  {
    assert g[0] == written[3] && g[1] == written[2] && g[2] == written[1];
  }

  /** Characters past `cols` never reach the grid: writing a line and
      writing its first `cols` characters give the same state. */
  lemma CropIsInvisible(s: Screen, ori: Orientation, rows: nat, cols: nat, text: string)
    requires WellFormed(s, rows, cols)
    ensures Write(s, ori, rows, cols, text) == Write(s, ori, rows, cols, text[..Min(|text|, cols)])
  {
    KeptOfCrop(text, cols);
    assert RowRecords(text, cols) == RowRecords(text[..Min(|text|, cols)], cols);
  }

  lemma KeptOfCrop(text: string, cols: nat)
    ensures Kept(text, cols) == Kept(text[..Min(|text|, cols)], cols)
  {
    if |text| <= cols {
      assert text[..Min(|text|, cols)] == text;
    } else {
      var head, tail := text[..cols], text[cols..];
      assert text == head + tail;
      AsciiReplaceAppend(head, tail);
      AsciiReplaceOutput(head);
      var a := AsciiReplace(head);
      assert AsciiReplace(text)[..cols] == a[..cols];
    }
  }

  /** `write('')` still advances or scrolls, and leaves a blank row under
      the cursor. */
  lemma EmptyLineIsBlank(s: Screen, ori: Orientation, rows: nat, cols: nat)
    requires WellFormed(s, rows, cols)
    ensures var s' := Write(s, ori, rows, cols, "");
            s'.lo[s'.row] == BlankRow(cols) && s'.hi[s'.row] == BlankRow(cols)
  {
    assert AsciiReplace("") == "";
    var s' := Write(s, ori, rows, cols, "");
    assert s'.lo[s'.row] == BlankRow(cols);
  }

  /** An ASCII line no longer than the row is stored verbatim: cell c holds
      the two halves of the record of character c, and the cells after the
      line are blank. */
  lemma AsciiLineStored(text: string, cols: nat)
    requires IsAscii(text) && |text| <= cols
    ensures forall c :: 0 <= c < |text| ==>
              LoRow(text, cols)[c] == Lookup(text[c]).Lo() && HiRow(text, cols)[c] == Lookup(text[c]).Hi()
    ensures forall c :: |text| <= c < cols ==> LoRow(text, cols)[c] == Zero && HiRow(text, cols)[c] == Zero
  {
    AsciiUnchanged(text);
    assert Kept(text, cols) == text;
  }

  /** A cell holds the two halves of one record of the font; a blank cell
      holds the space's record. */
  ghost predicate FromFont(lo: Triple, hi: Triple)
  {
    exists k :: 0 <= k < |Glyphs| && lo == Glyphs[k].Lo() && hi == Glyphs[k].Hi()
  }

  /** Every cell of the screen holds a record copied from the font. */
  ghost predicate AllFromFont(s: Screen, rows: nat, cols: nat)
    requires WellFormed(s, rows, cols)
  {
    forall i, c :: 0 <= i < rows && 0 <= c < cols ==> FromFont(s.lo[i][c], s.hi[i][c])
  }

  lemma ClearedFromFont(rows: nat, cols: nat)
    requires 1 <= rows
    ensures AllFromFont(Cleared(rows, cols), rows, cols)
  {
    TableShape();
    var s := Cleared(rows, cols);
    forall i, c | 0 <= i < rows && 0 <= c < cols ensures FromFont(s.lo[i][c], s.hi[i][c]) {
      assert s.lo[i][c] == Glyphs[0].Lo() && s.hi[i][c] == Glyphs[0].Hi();
    }
  }

  /** Writing keeps every cell a copy of a font record. */
  lemma WriteKeepsFontCells(s: Screen, ori: Orientation, rows: nat, cols: nat, text: string)
    requires WellFormed(s, rows, cols) && AllFromFont(s, rows, cols)
    ensures AllFromFont(Write(s, ori, rows, cols, text), rows, cols)
  {
    TableShape();
    var s' := Write(s, ori, rows, cols, text);
    var recs := RowRecords(text, cols);
    forall i, c | 0 <= i < rows && 0 <= c < cols ensures FromFont(s'.lo[i][c], s'.hi[i][c]) {
      if i == s'.row {
        var k := Kept(text, cols);
        if c < |k| {
          assert s'.lo[i][c] == Glyphs[GlyphIndex(k[c] as int)].Lo();
          assert s'.hi[i][c] == Glyphs[GlyphIndex(k[c] as int)].Hi();
        } else {
          assert s'.lo[i][c] == Glyphs[0].Lo() && s'.hi[i][c] == Glyphs[0].Hi();
        }
      } else {
        var j := Source(rows, s.row + (if ori == ScrollDown then 1 else -1), i);
        assert s'.lo[i] == s.lo[j] && s'.hi[i] == s.hi[j];
        assert FromFont(s.lo[j][c], s.hi[j][c]);
      }
    }
  }

  /** After `clear`, drawing paints nothing: every pixel of every cell is
      discarded. */
  lemma ClearedIsDark(rows: nat, cols: nat, i: nat, c: nat, u: nat, v: nat)
    requires 1 <= rows && i < rows && c < cols
    ensures !Decode.Lit(Cleared(rows, cols).lo[i][c], Cleared(rows, cols).hi[i][c], u, v)
  {
    Decode.ZeroRecordIsDark(u, v);
  }
}
