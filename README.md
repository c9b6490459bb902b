# Hex viewer core, modelled in Dafny

This project models the core of a browser-extension hex viewer. The viewer shows a window of a
file as three side-by-side views:

- a gutter of offset labels;
- a hex grid with one two-digit token per byte;
- a text grid with one glyph per byte.

The user's cursor is kept on the same row in all three views.

The model has four parts.

- **Formatting pipeline** (`Format`, `HexText`). These are the static helpers of `HexEditor`:
  - `hex` turns bytes into tokens;
  - `bin` turns bytes into glyphs;
  - `shape` deals a flat token list column-major into `columns * segments || 8` lanes;
  - `rows` writes the zero-padded upper-case offset labels.

  `shape` and `rows` keep the source's loops. They are proved against the specification functions
  `Lanes` and `Labels`. `Interleave` reads lanes back row by row, and `shape` followed by
  `Interleave` is the identity. `HexText` models the JavaScript built-ins involved:
  `toString(16)`, `toUpperCase` and `padStart`. Its partner is the value of a hexadecimal digit
  string. The hex formatters (`hex` and `rows`, and their `convert` variants) are proved to read
  back as the bytes and offsets they came from. For `bin` only the printable bytes read back.
- **Earlier formatters** (`Convert`). The example folder holds an earlier `convert` object. Its
  `hex` and `shape` agree with the editor's. Its `bin` differs exactly at bytes 32 and 160, and its
  `rows` starts at 0 and writes lower-case digits.
- **Selection state machines** (`Views`). `ColumnView` is one `select` list box. `TableView` is a
  row of column views, with its `#column`/`#row` cursor, the `active` marker, and the `change`,
  `focus` and `Navigate` handlers. Both are classes whose methods update their fields in place.
  Element lookups by `nth-child` and by sibling become indices into the table's `columns`
  sequence. A table also keeps ghost records of each view's options, number and selection
  (`Lines`, `Numbers`, `Cursor`). Its invariant `Valid` ties them to the views, and
  `Kept(i)` says that only view `i` may have changed its selection.
- **The editor** (`Editor`). `HexEditor` is a class holding `#config`, the bound file and the
  three views. It models:
  - `configure`, `source`, `update` and `jump`;
  - the scroll handler;
  - the three `change` listeners that keep the views in step;
  - the user actions (pick, focus, key press) that reach those listeners.

  The editor's invariant `Valid` keeps the three views apart in memory and the two grids aligned
  column by column. It is preserved by every operation.

JavaScript values are modelled as follows.

- A JavaScript number used as a byte offset is `Offset`: a natural number, or `NaN`.
- A column view's `column` property is `Option<int>`, with `None` for `undefined`. That is the
  placeholder in the table's markup, which no one numbers.
- Reading a table's `row` while its `#column` is `undefined` builds an invalid selector and
  throws. `TableView.Row` returns `None` then, and a listener that reads it does nothing further.
- `jump` without a bound file throws on `this.#file.size`, and so does the scroll handler. The
  model returns `NoFile`, or changes nothing.

Two behaviours of the source are worth knowing.

- `jump` accepts a target equal to the file size.
- The scroll handler rounds up, so it can move the window past the end of the file.
  `ScrollPastEnd` shows a 10-byte file scrolled to offset 16.

## Model

| member | source | states |
|---|---|---|
| HexText.ValueToHex | data/editor/components/hex-editor.js:45 | `toString(16)` of n reads back as n |
| HexText.ToHexNoLeadingZero | data/editor/components/hex-editor.js:45 | `toString(16)` of a positive number has no leading zero |
| HexText.PadStartKeeps | data/editor/components/hex-editor.js:45 | `padStart` keeps the text whole at the end and puts only pad characters in front of it |
| HexText.UpperHex | data/editor/components/hex-editor.js:45 | upper-casing hex text keeps its value and makes every digit upper case |
| HexText.ByteToken | data/editor/components/hex-editor.js:16 | a byte's token is exactly two upper-case hex digits and reads back as the byte |
| HexText.LabelSpec | data/editor/components/hex-editor.js:44-45 | a gutter label reads back as its offset, is upper-case hex, has at least 8 digits, exactly 8 below 2^32, and no leading zero beyond 8 |
| HexText.LowerLabelSpec | data/editor/components/example/convert.js:30-31 | the earlier label has the same value, width and padding in lower case, and upper-casing it gives the editor's label |
| Format.Hex | data/editor/components/hex-editor.js:16 | `hex` keeps length and order; token i is two upper-case digits whose value is byte i |
| Format.Bin | data/editor/components/hex-editor.js:17-25 | `bin` keeps length; 32 and 160 give U+00A0, 33..126 give themselves, every other byte '.' |
| Format.BinVisible | data/editor/components/hex-editor.js:17-25 | every glyph is printable ASCII or U+00A0 |
| Format.BinReadsBack | data/editor/components/hex-editor.js:17-25 | the glyphs of printable ASCII bytes read back as those bytes |
| Format.Width | data/editor/components/hex-editor.js:27 | `columns * segments \|\| 8` is never 0 lanes |
| Format.LaneAt | data/editor/components/hex-editor.js:26-40 | element k of lane n exists exactly when n + k*t is inside the buffer, and is that element |
| Format.LaneIs | data/editor/components/hex-editor.js:26-40 | a sequence holding buffer[j + k*t] for each k up to the end of the buffer is lane j |
| Format.LanesBalanced | data/editor/components/hex-editor.js:26-40 | lane lengths never increase from left to right and differ by at most one |
| Format.LanesShape | data/editor/components/hex-editor.js:26-40 | two buffers of one length give lanes of the same lengths |
| Format.LanesAtMost | data/editor/components/hex-editor.js:26-40 | a buffer that fits in `rows` rows gives lanes of at most `rows` elements |
| Format.LanesAligned | data/editor/components/hex-editor.js:169-170 | the hex and text lanes of one window have equal lengths, none longer than the gutter |
| Format.TotalTails | data/editor/components/hex-editor.js:26-40 | dropping the first row of lanes removes exactly that row's elements |
| Format.InterleaveLength | data/editor/components/hex-editor.js:26-40 | reading lanes row by row visits every element once |
| Format.HeadsLanes | data/editor/components/hex-editor.js:26-40 | the first row of the lanes is the first t elements of the buffer |
| Format.TailsLanes | data/editor/components/hex-editor.js:26-40 | the lanes without their first row are the lanes of the rest of the buffer |
| Format.InterleaveLanes | data/editor/components/hex-editor.js:26-40 | reading the lanes row by row gives the buffer back |
| Format.LanesTotal | data/editor/components/hex-editor.js:26-40 | the lane lengths add up to the buffer's length |
| Format.ShapeDone | data/editor/components/hex-editor.js:33-35 | the state in which the inner loop returns is exactly the full set of lanes |
| Format.ShapePush | data/editor/components/hex-editor.js:32-33 | each push keeps every partial lane a prefix of its lane |
| Format.Shape | data/editor/components/hex-editor.js:26-40 | the nested loops return `Lanes(buffer, t)`, and interleaving the result gives the buffer back |
| Format.RowStartIs | data/editor/components/hex-editor.js:44 | row n starts `offset + n * columns * segments` bytes in |
| Format.RowLabel | data/editor/components/hex-editor.js:44-45 | one loop pass computes the label of row n |
| Format.LabelsAt | data/editor/components/hex-editor.js:41-51 | label n is the label of row n |
| Format.LabelsRead | data/editor/components/hex-editor.js:41-51 | label n reads back as `offset + n*columns*segments`, in upper-case digits, 8 of them below 2^32 |
| Format.Rows | data/editor/components/hex-editor.js:41-51 | the loop returns exactly `rows` labels, label n for row n |
| Convert.Hex | data/editor/components/example/convert.js:3 | `convert.hex` keeps length and order; each token is two upper-case digits whose value is the byte |
| Convert.Bin | data/editor/components/example/convert.js:4-9 | `convert.bin` keeps length; 32..126 give themselves, every other byte '.' |
| Convert.HexAgrees | data/editor/components/example/convert.js:3 | `convert.hex` and the editor's `hex` give the same tokens |
| Convert.BinDiffers | data/editor/components/example/convert.js:4-9 | the two `bin`s differ exactly at bytes 32 (' ' against U+00A0) and 160 ('.' against U+00A0) |
| Convert.Shape | data/editor/components/example/convert.js:11-25 | `convert.shape` returns the editor's lanes on every input, and interleaving them gives the buffer back |
| Convert.LowerLabelsAt | data/editor/components/example/convert.js:27-37 | label n reads back as `n*columns*segments` in lower-case digits, at least 8, and upper-cases to the editor's label at offset 0 |
| Convert.RowLabel | data/editor/components/example/convert.js:30-31 | one loop pass computes the lower-case label of row n |
| Convert.Rows | data/editor/components/example/convert.js:27-37 | the loop returns exactly `rows` lower-case labels starting from offset 0 |
| Views.Clamp | data/editor/components/table-view.js:111-113 | assigning `selectedIndex` keeps an existing option and gives -1 for anything else |
| Views.FirstEmpty | data/editor/components/table-view.js:109 | `value = ''` selects the first empty option, or none when no option is empty |
| Views.Direction | data/editor/components/table-view.js:54-55 | ArrowLeft and Shift+Tab go -1, ArrowRight and Tab go +1, other keys do not navigate |
| Views.DirectionShift | data/editor/components/table-view.js:55 | Shift reverses Tab and does not affect the arrow keys |
| Views.ColumnView.constructor | data/editor/components/table-view.js:43-46 | a new view is the markup's list box: two options "0", none selected, no number |
| Views.ColumnView.Numbered | data/editor/components/table-view.js:205-206 | a view created by `build` carries its column number |
| Views.ColumnView.Value | data/editor/components/table-view.js:77 | `value` is the selected option's text, or "" with nothing selected |
| Views.ColumnView.Build | data/editor/components/table-view.js:89-110 | the options become `lines` and `size` their count, whether rewritten in place or rebuilt, and the selection is cleared |
| Views.ColumnView.Select | data/editor/components/table-view.js:111-113 | `select(n)` selects n when it exists and nothing otherwise |
| Views.ColumnView.Pick | data/editor/components/table-view.js:70-74 | a user pick selects n and raises `change` exactly when the selection moved |
| Views.ColumnView.Focused | data/editor/components/table-view.js:76-86 | on focus with an empty value the view selects option 0 and raises `change`; otherwise nothing changes |
| Views.TableView.constructor | data/editor/components/table-view.js:147-168 | one placeholder column, `#column` and `#row` -1, no active marker |
| Views.TableView.Row | data/editor/components/table-view.js:225-231 | `row` is the selection of column `#column`, -1 when there is no such column, and throws while `#column` is undefined |
| Views.TableView.Activate | data/editor/components/table-view.js:139-146 | `#row` always follows the view; `#column` and the active marker move only when the number differs |
| Views.TableView.Change | data/editor/components/table-view.js:131-138 | `change` is raised exactly when the view's (column, row) differs from the stored pair, which it is afterwards; with no change nothing moves |
| Views.TableView.Select | data/editor/components/table-view.js:212-221 | a missing or absent column changes nothing; otherwise that column selects the row and is activated; options and numbers stay |
| Views.TableView.Pick | data/editor/components/table-view.js:173-175 | a pick changes only that column's selection; the table raises `change` exactly when the selection moved to a new cell, and then the cursor and the active marker move there as `#activate` moves them |
| Views.TableView.Focus | data/editor/components/table-view.js:170-172 | focus changes only that column's selection and raises at most one table `change`, exactly when the column's cell differs from the cursor; the cursor is on that cell afterwards, and the active marker moves only when the column number differs, never without a `change` |
| Views.TableView.Navigate | data/editor/components/table-view.js:177-190 | with a neighbour the event is blocked, only the neighbour's selection changes, to the same row, and the cursor and active marker follow as `#activate` moves them; without one nothing changes |
| Views.TableView.KeyDown | data/editor/components/table-view.js:53-68 | other keys pass through unchanged; a navigation key allows the default action exactly when there is no neighbour, and otherwise moves only the neighbour's selection and the cursor and active marker as `Navigate` does |
| Views.TableView.Build | data/editor/components/table-view.js:192-211 | the cursor is reset (row reads -1) and column n shows `array[n]` with the first empty line selected; same count keeps views, numbers and active marker, otherwise views are numbered 0..n-1 and no view is active |
| Views.TableView.Refill | data/editor/components/table-view.js:197-201 | each existing view is rebuilt in place and keeps its number |
| Views.TableView.Rebuild | data/editor/components/table-view.js:199 | one pass rebuilds view n from its line and changes no other view |
| Views.TableView.Replace | data/editor/components/table-view.js:202-210 | fresh views numbered 0..n-1, view n built from `array[n]` |
| Views.TableView.Append | data/editor/components/table-view.js:204-208 | one pass adds a fresh view numbered by its position, built from its line, after the existing views |
| Views.TableView.NewView | data/editor/components/table-view.js:205-208 | a created view is fresh, carries its number and shows its line with the first empty line selected |
| Editor.NaNLabelIs | data/editor/components/hex-editor.js:45 | the label of a NaN offset is "00000NAN" |
| Editor.Window | data/editor/components/hex-editor.js:162-165 | the bytes read are the file slice from the offset, clipped to the file; NaN reads nothing |
| Editor.GutterLabelsFilled | data/editor/components/hex-editor.js:168 | no gutter label is empty, so the rebuilt gutter has nothing selected |
| Editor.CeilDivBounds | data/editor/components/hex-editor.js:140 | `ceil(a / b)` is the least q with q*b >= a |
| Editor.ScrollOffsetBounds | data/editor/components/hex-editor.js:136-141 | the scroll offset is NaN exactly for zero-width rows, otherwise a multiple of the row width, at or after the scrolled fraction of the file and less than one row past it |
| Editor.ScrollPastEnd | data/editor/components/hex-editor.js:139-141 | scrolling can place the window past the end of the file |
| Editor.JumpTargetBounds | data/editor/components/hex-editor.js:190-192 | the jump target is NaN exactly for zero-width rows, otherwise the start of the row holding byte i |
| Editor.HexEditor.constructor | data/editor/components/hex-editor.js:8-13 | default config 4/2/20 at offset 0, no file; the gutter is the markup's two "0" rows with nothing selected and no number, and each grid is one placeholder column (two "0" options, no number) whose row reads -1 |
| Editor.HexEditor.Configure | data/editor/components/hex-editor.js:146-150 | each size comes from the options or defaults to 4, 2 or 20; the offset and file stay |
| Editor.HexEditor.Source | data/editor/components/hex-editor.js:151-153 | the file is bound and nothing else changes |
| Editor.HexEditor.Labels | data/editor/components/hex-editor.js:168 | the gutter labels of an offset, NaN labels for NaN |
| Editor.HexEditor.Update | data/editor/components/hex-editor.js:154-176 | without a file nothing changes; otherwise the offset (default: the current one) is stored and the views show its window |
| Editor.HexEditor.Refresh | data/editor/components/hex-editor.js:161-170 | the three views show the window at the stored offset and the editor stays valid |
| Editor.HexEditor.Relabel | data/editor/components/hex-editor.js:168 | the gutter holds the window's row labels, none selected |
| Editor.HexEditor.Redraw | data/editor/components/hex-editor.js:169-170 | the grids show the hex and text lanes of the window, their cursors at row -1, numbered alike |
| Editor.HexEditor.Panes | data/editor/components/hex-editor.js:169-170 | the shaped hex and text tokens of a window are its lanes |
| Editor.HexEditor.Rebuilt | data/editor/components/hex-editor.js:168-170 | grids built from one window stay aligned with each other and the gutter |
| Editor.HexEditor.Settled | data/editor/components/hex-editor.js:168-170 | views rebuilt from one window make a valid editor showing that window |
| Editor.HexEditor.Jump | data/editor/components/hex-editor.js:184-195 | without a file it fails; a target past the end is declined and nothing changes; otherwise the window moves to the start of the target's row, NaN included |
| Editor.HexEditor.Scroll | data/editor/components/hex-editor.js:136-144 | without a file nothing changes; otherwise the window moves to the row-aligned scroll offset |
| Editor.HexEditor.GutterChanged | data/editor/components/hex-editor.js:119-123 | both grids move to the gutter's row in column 0, and exactly one editor `change` is raised |
| Editor.HexEditor.Mirror | data/editor/components/hex-editor.js:124-133 | the other grid and the gutter move to the grid's row and column, one editor `change`; nothing happens when the row getter throws |
| Editor.HexEditor.Follow | data/editor/components/hex-editor.js:124-133 | a grid whose cursor is on a numbered column brings only that column of the other grid, and the gutter, to its row with one `change`; on the placeholder nothing happens |
| Editor.HexEditor.PickGutter | data/editor/components/hex-editor.js:119-123 | picking a new gutter row brings column 0 of both grids to it (clamped) and only that column, with one `change`; picking the same row changes nothing; the gutter's rows stay |
| Editor.HexEditor.FocusGutter | data/editor/components/hex-editor.js:119-123 | focusing an empty gutter selects row 0 and brings column 0 of both grids there (clamped) and only that column, with one `change`; otherwise nothing changes |
| Editor.HexEditor.PickCell | data/editor/components/hex-editor.js:124-133 | a pick changes only that cell's column in the grid; the grid's cursor moves to the cell exactly when the selection moved to a new cell, and otherwise stays; when the grid raises `change`, the other grid's same column and the gutter move to the picked row with one editor `change`, and otherwise the other grid and the gutter stay |
| Editor.HexEditor.FocusCell | data/editor/components/hex-editor.js:124-133 | focusing a cell changes only its column in the grid and puts the grid's cursor on that cell; a grid `change` brings the other grid's same column and the gutter to that row with one editor `change`, and otherwise they stay |
| Editor.HexEditor.NavigateCell | data/editor/components/hex-editor.js:124-133 | with a neighbouring column the move is blocked, only that column changes in the grid, clamped to the old row, and the grid's cursor moves onto it; exactly when that cell differs from the old cursor and the column is numbered, the other grid's same column and the gutter follow with one editor `change`; without a neighbour nothing changes |
| Editor.HexEditor.KeyDownCell | data/editor/components/hex-editor.js:124-133 | a navigation key with a neighbour blocks the default action and moves only the grid's neighbouring column, to the old row clamped, with the grid's cursor onto it; exactly when that cell differs from the old cursor and the column is numbered the other grid's same column and the gutter follow with one editor `change`. With no neighbour, or another key, the key passes and nothing changes |

## Left out

- worker.js, data/editor/index.js and data/editor/drag.js are not part of this model. They are
  extension, preference and drag-and-drop glue around the editor.
- Shadow-DOM markup, CSS, the `active` class as a style, `inspect` and `getClientRects` are
  rendering only. The `active` marker is kept as an index.
- The read in `update` is asynchronous (`Blob.slice` and `Response.arrayBuffer`). The model reads
  the slice of a byte sequence atomically, so overlapping updates in flight are not modelled.
- The height of the editor and the scrollbar after `update` is pixel arithmetic and is not
  modelled.
- The scroll ratio is a floating-point division. The model takes `scrollTop` and `scrollHeight`
  as naturals and computes the `ceil` exactly.
- Editor.HexEditor.Scroll: requires a positive scroll height. With a zero height the source
  divides by zero and gets a NaN or infinite ratio, which the model does not cover.
- `parseInt(offset, 16)` in `jump` is not modelled. The query arrives parsed, as `Option<nat>`
  with `None` for NaN. Negative hexadecimal input is not represented.
- The configuration fields are naturals. Negative or fractional sizes passed to `configure` are
  not represented.
- `requestAnimationFrame` and real keyboard focus are abstract events: `Focused`, `Focus`,
  `FocusGutter` and `FocusCell`.
  - The focus that `Navigate` gives the neighbouring column is such a separate event. It is not
    chained into `Navigate`.
  - The `focus` event the column view sends after its frame is folded into `TableView.Focus`.
- A key press in the gutter sends `Navigate` to a tree with no listener for it, so the key is
  always let through. It changes nothing and is not an operation of the model.
- Views.FirstEmpty: an option's value is taken to be its text. The browser strips and collapses
  ASCII whitespace first. The editor's tokens contain none, so this changes nothing there.
- Views.TableView.Focus: the view's `change` and `focus` events reach `#change` in that order
  within one frame. Other events interleaving between them are not modelled.
- Bytes are naturals below 256, not machine integers. Offsets and labels are unbounded naturals,
  which is what JavaScript numbers give exactly below 2^53.
