/** The console visual itself: a fixed-size text screen whose two byte
    grids and cursor row are updated in place by `write` and `clear`.
    Every method is proved to agree with the value-level model in
    `Scroll`, so the properties proved there hold of the arrays. */
module Console {
  import opened Font
  import opened Scroll
  import Layout

  /** The argument of `write`: a text string, or anything else. */
  datatype Arg = Text(text: string) | NotText

  /** How a call to `write` ends. */
  datatype Outcome = Written | TypeError

  /** The `scale` setter: the integer part of `max(scale, 1)`. */
  function ClampScale(s: real): (k: int)
    ensures k >= 1
    ensures s < 1.0 ==> k == 1
    ensures s >= 1.0 ==> k as real <= s < k as real + 1.0
  {
    if s < 1.0 then 1 else s.Floor
  }

  /** Setting the scale to a scale it already produced changes nothing. */
  lemma ClampScaleIdempotent(s: real)
    ensures ClampScale(ClampScale(s) as real) == ClampScale(s)
  {
  }

  /** The contents of a two-dimensional array, row by row. */
  ghost function GridOf(a: array2<Triple>): (g: Grid)
    reads a
    ensures Shaped(g, a.Length0, a.Length1)
    ensures forall i, j :: 0 <= i < a.Length0 && 0 <= j < a.Length1 ==> g[i][j] == a[i, j]
  {
    seq(a.Length0, i requires 0 <= i < a.Length0 reads a =>
      seq(a.Length1, j requires 0 <= j < a.Length1 reads a => a[i, j]))
  }

  /** Two grids of the same shape with the same cells are equal. */
  lemma SameCells(g: Grid, h: Grid, rows: nat, cols: nat)
    requires Shaped(g, rows, cols) && Shaped(h, rows, cols)
    requires forall i, j :: 0 <= i < rows && 0 <= j < cols ==> g[i][j] == h[i][j]
    ensures g == h
  {
    forall i | 0 <= i < rows
      ensures g[i] == h[i]
    {
      assert forall j :: 0 <= j < cols ==> g[i][j] == h[i][j];
    }
  }

  class Console {
    const rows: nat
    const cols: nat
    const orientation: Orientation
    /** Offset of every cell from the anchor, fixed at construction. */
    const position: seq<seq<Layout.Offset>>
    /** Bytes 0..2 and bytes 3..5 of the record shown in every cell. */
    const bytes012: array2<Triple>
    const bytes345: array2<Triple>
    /** The cursor: -1 before the first write, then the row last written. */
    var row: int
    var scale: int

    ghost predicate Valid()
      reads this
    {
      1 <= rows
      && bytes012.Length0 == rows && bytes012.Length1 == cols
      && bytes345.Length0 == rows && bytes345.Length1 == cols
      && bytes012 != bytes345
      && -1 <= row < rows
      && (orientation == ScrollUp ==> row <= 0)
      && scale >= 1
    }

    /** The screen the arrays and the cursor hold. */
    ghost function State(): (s: Screen)
      requires Valid()
      reads this, bytes012, bytes345
      ensures WellFormed(s, rows, cols) && Reachable(s, orientation)
    {
      Screen(GridOf(bytes012), GridOf(bytes345), row)
    }

    /** Construction for every vertical anchor but `bottom`: blank grids,
        the cursor before the first row, the layout table and the clamped
        scale. */
    constructor(rows: nat, cols: nat, scale: real, ax: Layout.AnchorX, ay: Layout.AnchorY, orientation: Orientation)
      requires 1 <= rows && ay != Layout.Bottom
      ensures Valid() && fresh(bytes012) && fresh(bytes345)
      ensures this.rows == rows && this.cols == cols && this.orientation == orientation
      ensures State() == Cleared(rows, cols)
      ensures position == Layout.Table(rows, cols, ax, ay).value
      ensures this.scale == ClampScale(scale)
    {
      this.rows := rows;
      this.cols := cols;
      this.orientation := orientation;
      this.scale := ClampScale(scale);
      this.row := -1;
      bytes012 := new Triple[rows, cols]((i, j) => Zero);
      bytes345 := new Triple[rows, cols]((i, j) => Zero);
      position := Layout.Table(rows, cols, ax, ay).value;
      new;
      SameCells(GridOf(bytes012), Cleared(rows, cols).lo, rows, cols);
      SameCells(GridOf(bytes345), Cleared(rows, cols).hi, rows, cols);
    }

    /** `scale = s`. */
    method SetScale(s: real)
      requires Valid()
      modifies this`scale
      ensures Valid() && scale == ClampScale(s)
    {
      scale := ClampScale(s);
    }

    /** `clear()`: both grids zeroed and the cursor back before the first
        row. */
    method Clear()
      requires Valid()
      modifies this`row, bytes012, bytes345
      ensures Valid() && State() == Cleared(rows, cols)
    {
      forall i, j | 0 <= i < rows && 0 <= j < cols {
        bytes012[i, j] := Zero;
      }
      forall i, j | 0 <= i < rows && 0 <= j < cols {
        bytes345[i, j] := Zero;
      }
      row := -1;
      SameCells(GridOf(bytes012), Cleared(rows, cols).lo, rows, cols);
      SameCells(GridOf(bytes345), Cleared(rows, cols).hi, rows, cols);
    }

    /** `write(arg)`, with the empty line as the default argument: a
        non-string raises `TypeError` before anything changes; a string
        becomes the screen `Scroll.Write` describes. */
    method Write(arg: Arg := Text("")) returns (outcome: Outcome)
      requires Valid()
      modifies this`row, bytes012, bytes345
      ensures Valid()
      ensures arg.NotText? ==> outcome == TypeError && row == old(row) && unchanged(bytes012, bytes345)
      ensures arg.Text? ==> outcome == Written && State() == Scroll.Write(old(State()), orientation, rows, cols, arg.text)
    {
      if arg.NotText? {
        return TypeError;
      }
      var line := AsciiReplace(arg.text);
      Advance();
      line := line[..Min(|line|, cols)];
      StoreLine(line, arg.text);
      outcome := Written;
    }

    /** The cursor step of `write`: move one row in the orientation's
        direction and, past either edge, scroll both grids by one row and
        put the cursor back on the edge row. */
    method Advance()
      requires Valid()
      modifies this`row, bytes012, bytes345
      ensures Valid() && 0 <= row
      ensures var next := old(row) + (if orientation == ScrollDown then 1 else -1);
              row == (if next >= rows then rows - 1 else if next < 0 then 0 else next)
              && GridOf(bytes012) == Scrolled(old(GridOf(bytes012)), next)
              && GridOf(bytes345) == Scrolled(old(GridOf(bytes345)), next)
    {
      row := row + (if orientation == ScrollDown then 1 else -1);
      if row >= rows {
        ShiftTowardTopInPlace(bytes012);
        ShiftTowardTopInPlace(bytes345);
        row := rows - 1;
      } else if row < 0 {
        ShiftTowardBottomInPlace(bytes012);
        ShiftTowardBottomInPlace(bytes345);
        row := 0;
      }
    }

    /** The store step of `write`: zero the cursor's row, then put the
        records of the (replaced, cropped) `line` at its start. */
    method StoreLine(line: string, text: string)
      requires Valid() && 0 <= row && line == Kept(text, cols)
      modifies bytes012, bytes345
      ensures Valid()
      ensures GridOf(bytes012) == old(GridOf(bytes012))[row := LoRow(text, cols)]
      ensures GridOf(bytes345) == old(GridOf(bytes345))[row := HiRow(text, cols)]
    {
      RowIsCellsThenBlank(text, cols);
      StoreRow(bytes012, row, LoCells(line));
      StoreRow(bytes345, row, HiCells(line));
    }
  }

  /** `a[:-1] = a[1:]` on a grid array. */
  method ShiftTowardTopInPlace(a: array2<Triple>)
    requires a.Length0 >= 1
    modifies a
    ensures GridOf(a) == ShiftTowardTop(old(GridOf(a)))
  {
    ghost var g := GridOf(a);
    forall i, j | 0 <= i < a.Length0 - 1 && 0 <= j < a.Length1 {
      a[i, j] := a[i + 1, j];
    }
    ghost var g' := ShiftTowardTop(g);
    assert forall i, j :: 0 <= i < a.Length0 && 0 <= j < a.Length1 ==> a[i, j] == g'[i][j] by {
      forall i, j | 0 <= i < a.Length0 && 0 <= j < a.Length1
        ensures a[i, j] == g'[i][j]
      {
        if i < a.Length0 - 1 {
          assert g'[i] == g[i + 1];
        } else {
          assert g'[i] == g[i];
        }
      }
    }
    SameCells(GridOf(a), g', a.Length0, a.Length1);
  }

  /** `a[1:] = a[:-1]` on a grid array. */
  method ShiftTowardBottomInPlace(a: array2<Triple>)
    requires a.Length0 >= 1
    modifies a
    ensures GridOf(a) == ShiftTowardBottom(old(GridOf(a)))
  {
    ghost var g := GridOf(a);
    forall i, j | 1 <= i < a.Length0 && 0 <= j < a.Length1 {
      a[i, j] := a[i - 1, j];
    }
    SameCells(GridOf(a), ShiftTowardBottom(g), a.Length0, a.Length1);
  }

  /** `a[r] = 0` followed by `a[r, :len(cells)] = cells`. */
  method StoreRow(a: array2<Triple>, r: nat, cells: seq<Triple>)
    requires r < a.Length0 && |cells| <= a.Length1
    modifies a
    ensures GridOf(a) == old(GridOf(a))[r := cells + BlankRow(a.Length1 - |cells|)]
  {
    ghost var g := GridOf(a);
    forall j | 0 <= j < a.Length1 {
      a[r, j] := Zero;
    }
    forall j | 0 <= j < |cells| {
      a[r, j] := cells[j];
    }
    SameCells(GridOf(a), g[r := cells + BlankRow(a.Length1 - |cells|)], a.Length0, a.Length1);
  }

  /** Construction: `bottom` is an error, every other anchor gives a
      console in its cleared state. */
  method NewConsole(rows: nat, cols: nat, scale: real, ax: Layout.AnchorX, ay: Layout.AnchorY, orientation: Orientation)
    returns (r: Layout.Result<Console>)
    requires 1 <= rows
    ensures r.Err? <==> ay == Layout.Bottom
    ensures r.Ok? ==> r.value.Valid() && fresh(r.value) && r.value.State() == Cleared(rows, cols)
                      && fresh(r.value.bytes012) && fresh(r.value.bytes345)
                      && r.value.orientation == orientation && r.value.rows == rows && r.value.cols == cols
                      && r.value.position == Layout.Table(rows, cols, ax, ay).value
                      && r.value.scale == ClampScale(scale)
  {
    if ay == Layout.Bottom {
      return Layout.Err(Layout.UnboundYOffset);
    }
    var c := new Console(rows, cols, scale, ax, ay, orientation);
    return Layout.Ok(c);
  }
}
