/** The console's layout table: the fixed offset of every cell from the
    console's anchor position, computed once at construction. */
module Layout {
  import opened Font

  datatype AnchorX = Left | Right | CenterX
  datatype AnchorY = Top | Middle | CenterY | Bottom

  /** Cell size in pixels, fixed by the 6x8 font plus line spacing. */
  const CellWidth := 6
  const CellHeight := 10
  /** Gap between the anchor and the grid. */
  const Padding := 4

  datatype Offset = Offset(x: int, y: int)

  /** Construction fails for `anchor_y = bottom`: that branch never
      assigns the vertical offset, so reading it raises. */
  datatype InitError = UnboundYOffset

  datatype Result<T> = Ok(value: T) | Err(error: InitError)

  /** Horizontal shift of the whole grid; the source halves the right
      shift for `center`. */
  function XOffset(ax: AnchorX, cols: nat): (x: int)
    ensures x <= 0 <= x + CellWidth * cols
  {
    match ax
    case Left => 0
    case Right => -CellWidth * cols
    case CenterX => (-CellWidth * cols) / 2
  }

  /** Halving the right shift is exact: cells stay on whole pixels. */
  lemma CenterShiftIsExact(cols: nat, rows: nat)
    ensures XOffset(CenterX, cols) == -(CellWidth / 2) * cols
    ensures YOffset(Middle, rows) == YOffset(CenterY, rows) == Ok(-(CellHeight / 2) * rows)
  {
    assert -CellWidth * cols == 2 * (-(CellWidth / 2) * cols);
    assert -CellHeight * rows == 2 * (-(CellHeight / 2) * rows);
  }

  /** Vertical shift of the whole grid, or nothing when the source leaves
      it unassigned. */
  function YOffset(ay: AnchorY, rows: nat): (r: Result<int>)
    ensures r.Err? <==> ay == Bottom
  {
    match ay
    case Top => Ok(-CellHeight * rows)
    case Middle => Ok((-CellHeight * rows) / 2)
    case CenterY => Ok((-CellHeight * rows) / 2)
    case Bottom => Err(UnboundYOffset)
  }

  /** Offset of cell (r, c) given the grid shifts. */
  function CellOffset(r: nat, c: nat, xOff: int, yOff: int): Offset
  {
    Offset(Padding + CellWidth * c + xOff, Padding + CellHeight * r + yOff)
  }

  /** The `rows x cols` table of cell offsets. */
  function Table(rows: nat, cols: nat, ax: AnchorX, ay: AnchorY): (t: Result<seq<seq<Offset>>>)
    ensures t.Err? <==> ay == Bottom
    ensures t.Ok? ==> Shaped(t.value, rows, cols)
  {
    match YOffset(ay, rows)
    case Err(e) => Err(e)
    case Ok(yOff) =>
      var xOff := XOffset(ax, cols);
      Ok(seq(rows, r requires 0 <= r < rows => seq(cols, c requires 0 <= c < cols => CellOffset(r, c, xOff, yOff))))
  }

  /** Neighbouring cells are exactly one cell apart: the grid tiles the
      plane without gaps or overlap. */
  lemma Tiling(rows: nat, cols: nat, ax: AnchorX, ay: AnchorY, r: nat, c: nat)
    requires ay != Bottom && r < rows && c < cols
    ensures var t := Table(rows, cols, ax, ay).value;
            (c + 1 < cols ==> t[r][c + 1].x == t[r][c].x + CellWidth && t[r][c + 1].y == t[r][c].y)
            && (r + 1 < rows ==> t[r + 1][c].y == t[r][c].y + CellHeight && t[r + 1][c].x == t[r][c].x)
  {
  }

  /** Where the grid's horizontal extent [left, right) sits relative to the
      anchor: starting at the padding for `left`, ending at the padding for
      `right`, and centred on the padding for `center`. */
  lemma HorizontalAnchor(rows: nat, cols: nat, ax: AnchorX, ay: AnchorY, r: nat)
    requires ay != Bottom && r < rows && 0 < cols
    ensures var t := Table(rows, cols, ax, ay).value;
            var left, right := t[r][0].x, t[r][cols - 1].x + CellWidth;
            right - left == CellWidth * cols
            && (ax == Left ==> left == Padding)
            && (ax == Right ==> right == Padding)
            && (ax == CenterX ==> left + right == 2 * Padding)
  {
    CenterShiftIsExact(cols, rows);
  }

  /** The same for the vertical extent: `top` ends the grid at the padding,
      `middle` and `center` centre it there. */
  lemma VerticalAnchor(rows: nat, cols: nat, ax: AnchorX, ay: AnchorY, c: nat)
    requires ay != Bottom && c < cols && 0 < rows
    ensures var t := Table(rows, cols, ax, ay).value;
            var low, high := t[0][c].y, t[rows - 1][c].y + CellHeight;
            high - low == CellHeight * rows
            && (ay == Top ==> high == Padding)
            && (ay in {Middle, CenterY} ==> low + high == 2 * Padding)
  {
    CenterShiftIsExact(cols, rows);
  }

  /** A one-cell console anchored at its centre sits half a cell left of
      and below the padding point. */
  lemma SingleCellCentred()
    ensures Table(1, 1, CenterX, Middle) == Ok([[Offset(Padding - CellWidth / 2, Padding - CellHeight / 2)]])
  {
    CenterShiftIsExact(1, 1);
    var t := Table(1, 1, CenterX, Middle);
    assert t.Ok? && |t.value| == 1 && |t.value[0]| == 1;
    assert t.value[0][0] == Offset(Padding - CellWidth / 2, Padding - CellHeight / 2);
    assert t.value[0] == [Offset(Padding - CellWidth / 2, Padding - CellHeight / 2)];
    assert t.value == [t.value[0]];
  }
}
