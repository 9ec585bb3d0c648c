# Console visual: a verified model

This project models the core of vispy's GL text console,
`vispy/scene/visuals/console.py`. The console is a fixed-size text screen of
`rows x cols` cells. Every cell shows one glyph of a 6x8 bitmap font. The
glyph is stored as a six-byte record split over two `rows x cols x 3` grids,
`bytes_012` and `bytes_345`. A fragment shader decodes the record into lit
pixels. Lines are written one at a time at a cursor row. The screen scrolls
once the cursor would leave it, and the scroll direction depends on the
orientation (`scroll-up` or `scroll-down`).

The model has five modules:

- `Font` (`font.dfy`) holds the 96-record glyph table for codes 32..127 and
  the lookup `write` uses. The lookup takes the code minus 32, clips it to
  the table and indexes the table. The module also holds the step that
  encodes a line to UTF-8 and decodes it as ASCII with replacement.
- `Decode` (`decode.dfy`) models the fragment shader's pixel test for the
  8x8 point sprite of one cell. It is proved against a reference reading of
  the record as one 48-bit number.
- `Layout` (`layout.dfy`) models the per-cell offset table built at
  construction for each horizontal and vertical anchor.
- `Scroll` (`scroll.dfy`) gives `write` and `clear` as functions on values.
  A value holds the two grids and the cursor row. This module states what
  sequences of writes leave on screen in each orientation.
- `Console` (`console.dfy`) is the object itself, a class whose methods work
  in place. The two grids are `array2` fields and the cursor is a mutable
  field. Construction, `write`, `clear` and the `scale` setter are methods.
  Each method is proved to leave exactly the state that the `Scroll`
  function gives.

numpy's whole-array stores and shifts become Dafny `forall` statements:
- `a[:-1] = a[1:]`
- `a[1:] = a[:-1]`
- `a[r] = 0`
- `a[r, :n] = b`

These statements assign every cell at once, reading the state from before
the store, as numpy does. A grid cell holds one byte triple (`Triple`), which
is the source's innermost axis of length 3.

## Model

| member | source | states |
|---|---|---|
| Font.TableShape | vispy/scene/visuals/console.py:22-71 | the table has 96 records, one per code 32..127; the record of code 32 (space) is all zeros and the last one is not |
| Font.GlyphIndex | vispy/scene/visuals/console.py:278-279 | the index is always inside the table; codes 32..127 map to code - 32, lower codes to 0, higher codes to the last record |
| Font.ControlCharIsBlank | vispy/scene/visuals/console.py:278-280 | a character below the space gets the all-zero record |
| Font.HighCodeIsLastGlyph | vispy/scene/visuals/console.py:278-280 | every character above 127, U+FFFD included, gets the last record, which is not blank |
| Font.Lookup | vispy/scene/visuals/console.py:278-280 | the stored record is always a record of the font, and a printable ASCII character gets the record of its own code |
| Font.Utf8Length | vispy/scene/visuals/console.py:263 | a character encodes to 1..4 UTF-8 bytes, and to exactly one byte iff it is ASCII |
| Font.Replace | vispy/scene/visuals/console.py:263 | an ASCII character is kept; any other becomes one U+FFFD per byte of its UTF-8 encoding |
| Font.AsciiReplace | vispy/scene/visuals/console.py:263 | replacement never shortens a line and at most quadruples it, one to four replacement characters per input character |
| Font.AsciiReplaceOutput | vispy/scene/visuals/console.py:263 | after replacement every character is ASCII or U+FFFD; the line never gets shorter, and keeps its length iff it was ASCII |
| Font.AsciiUnchanged | vispy/scene/visuals/console.py:263 | an ASCII line passes replacement unchanged |
| Font.AsciiReplaceAppend | vispy/scene/visuals/console.py:263 | replacement works character by character: it distributes over concatenation |
| Decode.Step | vispy/scene/visuals/console.py:100 | GLSL `step(edge, x)` is 0 or 1, and 1 exactly from the edge on |
| Decode.Segment | vispy/scene/visuals/console.py:98-101 | `segment(e0, e1, x)` is 0 or 1, and 1 exactly when e0 <= x < e1 |
| Decode.Masked | vispy/scene/visuals/console.py:113-118 | one term `segment(j, j + 1, index) * byte_j` is the byte at index j and 0 at every other integral index |
| Decode.ShaderSelect | vispy/scene/visuals/console.py:113-118 | the masked sum is byte `index` of the six-byte record for an index in [0, 6), and 0 outside |
| Decode.SelectByteIsShaderSelect | vispy/scene/visuals/console.py:98-118 | the shader's sum of `segment`-masked bytes is byte `index` of the record for an index in [0, 6), and 0 outside |
| Decode.Lit | vispy/scene/visuals/console.py:108-122 | a pixel with u >= 6 or v >= 8 is never painted |
| Decode.PixelBitBijection | vispy/scene/visuals/console.py:108-112 | the map from the 6x8 pixels to bit positions is a bijection onto the 48 bits of the record, and its byte index is in [0, 6) |
| Decode.LitIsBit | vispy/scene/visuals/console.py:108-122 | pixel (u, v) is painted iff bit 47 - (6v + u) of the record read as a 48-bit big-endian number is set |
| Decode.RealTestIsIntegerTest | vispy/scene/visuals/console.py:119 | the shader's `floor(mod(byte / (128 / 2^offset), 2)) > 0`, computed on reals with GLSL's `mod`, holds iff `byte / 2^e` (integer division, e = 7 - offset) is odd |
| Decode.ShaderBit | vispy/scene/visuals/console.py:119 | the parity of `byte / 2^e` in integer division is exactly bit e of the byte |
| Decode.ZeroRecordIsDark | vispy/scene/visuals/console.py:108-122 | the all-zero record (space, or a cleared cell) paints no pixel |
| Layout.XOffset | vispy/scene/visuals/console.py:174-178 | for every horizontal anchor the shift keeps the padding point inside the grid's extent, from the shift to the shift plus 6*cols |
| Layout.YOffset | vispy/scene/visuals/console.py:178-181 | the vertical offset is undefined (an error) exactly for `bottom` |
| Layout.CenterShiftIsExact | vispy/scene/visuals/console.py:174-181 | halving the shift for `center`/`middle` is exact: -3 per column, -5 per row |
| Layout.Table | vispy/scene/visuals/console.py:172-185 | construction fails exactly for `bottom`; otherwise the table has one offset per cell, `rows x cols` |
| Layout.Tiling | vispy/scene/visuals/console.py:183-184 | neighbouring cells are exactly one cell width (6) or height (10) apart |
| Layout.HorizontalAnchor | vispy/scene/visuals/console.py:174-183 | the grid is 6*cols wide; it starts at the padding for `left`, ends there for `right`, and is centred on it for `center` |
| Layout.VerticalAnchor | vispy/scene/visuals/console.py:178-184 | the grid is 10*rows high; it ends at the padding for `top` and is centred on it for `middle` and `center` |
| Layout.SingleCellCentred | vispy/scene/visuals/console.py:172-185 | a centred one-cell console's only offset is (4 - 3, 4 - 5) |
| Scroll.Cleared | vispy/scene/visuals/console.py:245-249 | the cleared screen is well formed, has the cursor at -1 and every cell zero |
| Scroll.Kept | vispy/scene/visuals/console.py:263-277 | the characters that reach the grid are the first min(len, cols) characters of the replaced line |
| Scroll.RowRecords | vispy/scene/visuals/console.py:275-282 | a written row has `cols` cells: the looked-up record of kept character c in cell c, then blank records |
| Scroll.RowIsCellsThenBlank | vispy/scene/visuals/console.py:275-282 | each grid's written row is the kept characters' record halves followed by zero triples |
| Scroll.ShiftTowardTop | vispy/scene/visuals/console.py:268-269 | every row but the last takes the next row; the last row keeps its content |
| Scroll.ShiftTowardBottom | vispy/scene/visuals/console.py:272-273 | every row but the first takes the previous row; the first row keeps its content |
| Scroll.Scrolled | vispy/scene/visuals/console.py:266-274 | after the cursor moved to `next`, row i holds old row `Source(n, next, i)`: shifted when `next` left the grid, unchanged otherwise |
| Scroll.Write | vispy/scene/visuals/console.py:251-282 | a write keeps the screen well formed and the cursor in [0, rows); scroll-down moves it to min(row + 1, rows - 1), scroll-up keeps it at 0; the cursor's row holds the line |
| Scroll.WriteMovesRows | vispy/scene/visuals/console.py:266-274 | which old rows survive a write and where they go, for scroll-down before the last row, scroll-down on the last row, and scroll-up |
| Scroll.ScrollUpHistory | vispy/scene/visuals/console.py:266-276 | in scroll-up, after any sequence of writes row i holds the line written i writes ago and older content moves down by the number of writes |
| Scroll.ScrollDownHistory | vispy/scene/visuals/console.py:266-276 | in scroll-down from a cleared cursor, the rows hold the last `rows` lines in order, the cursor is on the newest, unreached rows keep their content |
| Scroll.ScrollUpExample | vispy/scene/visuals/console.py:266-276 | three rows, scroll-up, writing A, B, C, D leaves D, C, B in rows 0, 1, 2 |
| Scroll.CropIsInvisible | vispy/scene/visuals/console.py:277 | writing a line and writing its first `cols` characters give the same screen |
| Scroll.EmptyLineIsBlank | vispy/scene/visuals/console.py:275-276 | writing the empty line leaves an all-zero row under the cursor |
| Scroll.AsciiLineStored | vispy/scene/visuals/console.py:277-282 | an ASCII line that fits is stored verbatim, character c's record in cell c, zeros after it |
| Scroll.ClearedFromFont | vispy/scene/visuals/console.py:245-249 | every cell of a cleared screen holds a record of the font |
| Scroll.WriteKeepsFontCells | vispy/scene/visuals/console.py:275-282 | a write keeps every cell a copy of some record of the font |
| Scroll.ClearedIsDark | vispy/scene/visuals/console.py:245-249 | no pixel of a cleared screen is painted |
| Console.ClampScale | vispy/scene/visuals/console.py:212-214 | the stored scale is at least 1; below 1 it is 1, otherwise it is the integer part of the value |
| Console.ClampScaleIdempotent | vispy/scene/visuals/console.py:212-214 | setting the scale to a stored scale changes nothing |
| Console.Console.constructor | vispy/scene/visuals/console.py:150-185 | a new console has blank grids of `rows x cols`, the cursor at -1, the layout table and the clamped scale |
| Console.NewConsole | vispy/scene/visuals/console.py:172-185 | construction fails exactly for `bottom`, and otherwise yields a fresh console with fresh grids in the cleared state, the layout table and the clamped scale |
| Console.Console.SetScale | vispy/scene/visuals/console.py:212-214 | the setter stores the clamped scale |
| Console.Console.Clear | vispy/scene/visuals/console.py:245-249 | both grids become zero and the cursor -1, whatever the state before (so clearing twice is clearing once) |
| Console.Console.Write | vispy/scene/visuals/console.py:251-282 | a non-string raises TypeError and changes nothing; a string leaves exactly the screen `Scroll.Write` gives; the argument defaults to the empty line |
| Console.Console.Advance | vispy/scene/visuals/console.py:264-274 | the cursor moves one row in the orientation's direction and, past an edge, both grids scroll as `Scroll.Scrolled` says |
| Console.Console.StoreLine | vispy/scene/visuals/console.py:275-282 | the cursor's row of each grid becomes the written row and no other row changes |
| Console.ShiftTowardTopInPlace | vispy/scene/visuals/console.py:268-269 | the in-place shift leaves `Scroll.ShiftTowardTop` of the old grid |
| Console.ShiftTowardBottomInPlace | vispy/scene/visuals/console.py:272-273 | the in-place shift leaves `Scroll.ShiftTowardBottom` of the old grid |
| Console.StoreRow | vispy/scene/visuals/console.py:275-282 | zeroing row r then storing `cells` at its start leaves row r = cells followed by zeros, and every other row unchanged |

## Left out

- Drawing (`draw`), the vertex shader, the transform and the GL state are I/O toward the GPU. Only the fragment shader's pixel test is modelled.
- The `pos` and `color` properties are plain stores with float and colour conversion. They are not part of this model.
- The enumeration checks on orientation and anchors at construction are not modelled. The model's datatypes admit only the valid values.
- Grids are float32 in the source. The model stores exact bytes, because only the integers 0..255 ever occur.
- In Python 2, strings of other types (`unicode`) are accepted too. `Arg` distinguishes only "a string" from "anything else".
- Lone surrogate characters, which make UTF-8 encoding raise in Python 3, are not modelled. A Dafny `char` is a Unicode scalar value, so a lone surrogate cannot be given to the model.
- `Console.Console.constructor` and `Console.NewConsole` require `rows >= 1`. With zero rows the source constructs a console on which every `write` fails with an index error. That case is not modelled.
- `Scroll.Write` on the empty line is modelled as the documented blank line. With recent numpy, indexing the font with the empty float array made from `[]` raises instead. The model does not follow numpy's dtype rules.
- `Console.ClampScale` takes a real number. Other inputs of `int(max(scale, 1))`, such as strings or huge floats, are not modelled.
- For `anchor_y = bottom` the layout code never assigns the vertical offset, so construction raises; the comment above it suggests a default offset of 0 was meant. The model follows the code: `Layout.YOffset` and `Layout.Table` return an error and `Console.NewConsole` fails. A bottom-anchored layout with offset 0 is not modelled.
- Floating-point rounding in the fragment shader is not modelled. `Decode.RealTest` computes on exact reals, and `Decode.Lit` on integers. The two agree (`Decode.RealTestIsIntegerTest`). A byte divided by a power of two is exact in floating point, so no rounding happens for the values that occur.
- The Qt application backend (`vispy/app/backends/qt.py`) is not part of this model.
