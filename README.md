# scan_blocks in Dafny

scan_blocks turns a bracket wireframe such as `[#00CCDE: Window [lightgray: Frame [] [White: Message text]]]` into SVG in three stages:

1. A bracket scanner builds a tree of blocks.
2. A projector lays the blocks out on a grid of rows and columns.
3. A renderer draws one rectangle and one label per grid cell.

This project models those stages, and the line index used by the scanner's diagnostics, and proves properties of each. There is one module per source file:

| module | source | form |
|---|---|---|
| `RunScan` | run_scan.py | `parse_block`. The functions `Parse`/`Scan` give its meaning. The method `ParseBlock` is the while loop with its recursive call, proved equal to `Parse`. |
| `ParserState` | parser_state.py | The state record and `make_error`, `which_line` as a function, and `find_line_boundaries` as a loop. The loop is proved to build the unique line table of its text. |
| `Tree` | the projectors' input | `Cell`/`Block` datatypes, plus the mutable `Cell` cursor as class `Cursor` with `Dup`. |
| `RunGrid` | run_grid.py | `build_grid`: recursive, in-place appends to class `Grid` and a mutated `Cursor`. The functions `Place`/`Project` specify it. |
| `Grid` | grid.py | The earlier `build_grid`: `None` padding, appends to the last row, one new row per block. |
| `BuildSvg` | build_svg.py | The size, the pixel arithmetic and the `build_svg` cell walk. The walk recolors nodes in place and appends elements to the document. The function `Render` specifies it. |

How each module is built:

- **Python dictionaries.** `find_line_boundaries` always inserts the fresh keys `1, 2, …` in ascending order. Its dictionary is therefore an insertion-ordered `seq<LineEntry>`, so the iteration order of `which_line` is exact.
- **The grid and the cursor.** The grid is an object whose `rows` field the methods reassign. The cursor is an object whose fields they update.
- **Nodes.** Nodes are values. The in-place write `node.color = "lightgray"` in `build_svg` becomes a replacement of that element of `grid.rows`.
- **ElementTree.** The XML library is not modelled. The SVG document is a value `Svg` whose children (`Background`, `Rect`, `Label`) keep their attributes as numbers and strings.

## Model

| member | source | states |
|---|---|---|
| `Wrappers.Option.GetOr` | build_svg.py:73-74 | A `None` argument is replaced by the default; any other value is kept. |
| `Tree.Cursor.Dup` | run_grid.py:49-53 | The copy of the cursor handed to a child is a new object at the same row and column. |
| `Tree.PreOrder` | run_grid.py:49-53 | The depth-first visiting order starts with the block itself. |
| `Tree.MaxRow` | run_grid.py:40-42 | The deepest row of a tree is at least the root's row. |
| `Tree.RowBelowMax` | run_grid.py:40-42 | Every block of the tree (in `PreOrder`) lies at or above `MaxRow`. |
| `RunScan.Error` | run_scan.py:67-68 | `make_error` raises `InvalidState` with the call's own starting cursor and state and the message "Invalid state". |
| `RunScan.Parse` | run_scan.py:62-95 | A call fails exactly when its first character is not admitted by its state: state `out` admits only `[`; `start` and `end` admit nothing. The error carries the call's starting cursor and state. A successful call never returns an offset before its cursor. |
| `RunScan.Scan` | run_scan.py:72-95 | The same for the loop from any offset with a partial block: it fails exactly when the current character is inadmissible, and the offset only advances. |
| `RunScan.ParseBlock` | run_scan.py:62-95 | The imperative loop with its recursive call for a nested `[` returns exactly `Parse`. It fails exactly in the cases above. |
| `RunScan.ScanIn` | run_scan.py:72-95 | The loop in state `in_` satisfies the bracket-depth description `InSpec`. It stops at the `]` where depth would go below zero, or at the end of the input. The body gains the depth-0 non-bracket characters in order. The children are the blocks scanned one past each depth-0 `[`, in order. |
| `RunScan.PlainChar` | run_scan.py:89-94 | A non-bracket character is appended to the body and the loop goes on one position later; `InSpec` is kept. |
| `RunScan.ClosedChild` | run_scan.py:77-81 | A nested block that closes inside the input is appended as a child, and the parent resumes one past the child's `]`. |
| `RunScan.TruncatedChild` | run_scan.py:77-81 | A nested block that runs out of input is appended as a child. The parent then stops, one past the child's offset. |
| `RunScan.ScanInCursor` | run_scan.py:67-68 | In state `in_` the starting cursor only influences errors, so it never changes the result. |
| `RunScan.OutOpensBlock` | run_scan.py:74-76 | A call in state `out` at a `[` scans the same block as a call in state `in_` one character later. |
| `RunScan.ParsedBodiesBracketFree` | run_scan.py:89-91 | After any successful scan, no body in the returned tree contains `[` or `]`. |
| `RunScan.ParseInSpec` | run_scan.py:70-95 | A call in state `in_` never fails. The returned offset indexes the matching `]`, at depth 0. If input runs out, the offset is the buffer length plus the open depth. Color and text stay empty. Body and children are as in `ScanIn`. |
| `RunScan.ClosesAtFirstUnmatched` | run_scan.py:84-86 | A `]` before the returned offset is nested (depth at least 1), so the call returns at the first unmatched `]`. |
| `RunScan.TruncatedNestedOvershoots` | run_scan.py:79-95 | `"[["` scanned from 0 in state `out` returns one empty child and offset 3, past the end of the 2-character buffer. |
| `RunScan.ParseBlockBounded` | run_scan.py:62-95 | The corrected scanner. Same errors, block and closing offset as `parse_block`, but for a cursor within the buffer the offset lies between the cursor and the buffer length; for a cursor past the end it stays at the cursor. |
| `RunScan.NestedExample` | run_scan.py:62-95 | `"[ab[c]d]"` scans to body `abd` with one child of body `c`, and the offset of the final `]`. |
| `ParserState.ParserState.MakeError` | parser_state.py:46-47 | The raised error carries the state's offset and state and the message "Invalid state". |
| `ParserState.Initial` | parser_state.py:40-44 | `ParserState()` has an empty buffer, offset 0 and state `void`. |
| `ParserState.InitialError` | parser_state.py:40-47 | A fresh state's error is at offset 0, in state `void`. |
| `ParserState.WhichLine` | parser_state.py:54-62 | The result is the key of the first entry, in insertion order, whose half-open range holds the offset; -1 when no range does. |
| `ParserState.FindLineBoundaries` | parser_state.py:64-79 | The result is the line table of the text (`IsLineTable`). Its keys are exactly `1..k`, where `k` is the number of newlines. Line 1 starts at 0, and each line starts where the previous one ends. Each range ends with its newline and holds no other. |
| `ParserState.ScanOther` | parser_state.py:72-73 | A character other than a newline keeps the partial table and extends the current line. |
| `ParserState.ScanNewline` | parser_state.py:74-78 | A newline closes the current line: one entry with the next key, the current start and the length including the newline. |
| `ParserState.NewlinesBeforeLine` | parser_state.py:68-79 | Line `i + 1` starts after exactly `i` newlines. |
| `ParserState.LinesOrdered` | parser_state.py:69-78 | Every line ends at or before the start of every later line. |
| `ParserState.TableCovers` | parser_state.py:69-78 | Every offset below the end of the last line lies in some line. |
| `ParserState.WhichLineCountsNewlines` | parser_state.py:55-79 | For every offset before the end of the last recorded line, `which_line` over the table is 1 plus the number of newlines before that offset. |
| `ParserState.WhichLineOutside` | parser_state.py:55-62 | Negative offsets, and offsets in the text after the last newline, give -1. |
| `ParserState.LineWithinTable` | parser_state.py:69-78 | Every line lies between 0 and the end of the last line. |
| `ParserState.NothingAfterTable` | parser_state.py:72-79 | No newline lies after the end of the last line, so a text's unterminated tail has no entry. |
| `ParserState.LineTableUnique` | parser_state.py:64-79 | A text has only one line table, so `find_line_boundaries` is determined by its specification. |
| `ParserState.AppendLine` | parser_state.py:72-79 | Appending a newline-free line and its newline to a text appends one entry to its table. |
| `ParserState.JoinTable` | parser_state.py:64-79 | Lines without newlines, each followed by one, have the table `TablePrefix`: entry `k + 1` starts where the first `k` lines end. |
| `ParserState.LightgrayTable` | parser_state.py:11-17 | The table printed by the doctest is the line table of lightgray.blk's text. |
| `ParserState.LightgrayDoctest` | parser_state.py:14-17 | `find_line_boundaries` on that text returns `{1:(0,18), 2:(18,29), 3:(47,7), 4:(54,55), 5:(109,6), 6:(115,7), 7:(122,2)}`. |
| `ParserState.LightgrayWhichLine` | parser_state.py:18-23 | `which_line(47) == 3`, `which_line(10) == 1`, `which_line(17) == 1`. |
| `RunGrid.Grid.constructor` | run_grid.py:36-38 | The call sites' starting grid `[[]]`. |
| `RunGrid.Pads` | run_grid.py:43-45 | `n` placeholders, each `Node(row, column)` with the block's own column, not the padded index. |
| `RunGrid.NodeOf` | run_grid.py:46-48 | The appended node carries the block's row, column, color, text, depth and tags. |
| `RunGrid.Place` | run_grid.py:39-48 | The part before the children keeps `len(grid) == last.row + 1`. It leaves the cursor at the larger of its row and column and the block's. |
| `RunGrid.PlaceEffect` | run_grid.py:39-48 | Rows open up to the block's row. That row gains `max(0, column - last.column)` placeholders, then the block's node with its row, column, color, text, depth and tags. No other row changes. |
| `RunGrid.Project` | run_grid.py:36-54 | `build_grid` keeps `len(grid) == last.row + 1`, so `grid[block.cell.row]` is always in range after the row loop. |
| `RunGrid.ProjectChildren` | run_grid.py:49-53 | The children loop keeps `len(grid) == last.row + 1` from child to child. |
| `RunGrid.BuildGrid` | run_grid.py:36-54 | The in-place walk leaves exactly the rows and the cursor of `Project` and returns the same grid. `last` ends at the block's placement. The returned cursor is `last` itself for a leaf and a fresh object otherwise. |
| `RunGrid.PlaceNode` | run_grid.py:39-48 | The two while loops and the append leave exactly the rows and cursor of `Place`. |
| `RunGrid.OpenRows` | run_grid.py:40-42 | The row loop appends `max(0, row - last.row)` empty rows and leaves `last.row` at the larger of the two rows; the column is untouched. |
| `RunGrid.PadRow` | run_grid.py:43-45 | The column loop appends `max(0, column - last.column)` placeholders to the block's row only and leaves `last.column` at the larger of the two columns. |
| `RunGrid.ProjectRow` | run_grid.py:40-53 | The returned cursor's row is the larger of the entry row and the tree's deepest row, so it never decreases. The grid then has that many rows plus one. |
| `RunGrid.ProjectAdds` | run_grid.py:39-54 | The grid is only appended to: every old row is a prefix of its new version. Every appended node is a tree block's node or a placeholder carrying such a block's row and column. |
| `RunGrid.ProjectHolds` | run_grid.py:46-48 | Every block of the tree has its node in the row of its cell. |
| `RunGrid.PlaceLeaf` | run_grid.py:49-54 | A block without children is projected by its own placement alone. |
| `RunGrid.PlaceInRow` | run_grid.py:39-48 | A block at or before the cursor just appends its node to its row. |
| `RunGrid.PlaceBelow` | run_grid.py:40-48 | A block below the cursor and at or before the cursor's column opens empty rows up to its own row, which holds just its node. |
| `RunGrid.SampleProjection` | test_grid.py:29-38 | The message box tree gives rows 0 to 5. Row 3 is empty, and row 4 holds the OK node, the empty node and the Cancel node, in that order. |
| `RunGrid.SampleBuild` | test_grid.py:29-38 | The test's call `build_grid(blk, [[]], Cell(0, 0))` returns that grid. |
| `Grid.Grid.constructor` | grid.py:33-35 | The default grid `[[]]`. |
| `Grid.Nones` | grid.py:40-42 | The padding is `n` `None` cells. |
| `Grid.NodeOf` | grid.py:43 | The appended node carries the block's row, column, color and text. |
| `Grid.Place` | grid.py:36-45 | One call's own part adds the rows opened up to the block's row and one new row. |
| `Grid.PlaceEffect` | grid.py:36-45 | `max(0, block.row - last.row)` empty rows open. The node goes to the last row, after `max(0, column - last.column)` `None` cells, whatever row the block names. Then one empty row follows, and all earlier rows are unchanged. |
| `Grid.EmptyGridBelow` | grid.py:36-45 | An empty grid with a block one row below the cursor is not an error: the row loop opens the row, which receives the node, and an empty row follows. |
| `Grid.Project` | grid.py:33-49 | Every call adds at least one row. |
| `Grid.ProjectChildren` | grid.py:46-48 | The children loop never removes rows. |
| `Grid.BuildGrid` | grid.py:33-49 | The in-place walk leaves exactly the rows of `Project` and returns the same grid. `last.row` ends at one more than the larger of its entry row and the block's row, and `last.column` at the larger of its entry column and the block's column plus one per child. |
| `Grid.PlaceNode` | grid.py:36-45 | The loops and appends leave exactly the rows of `Place`. `last.row` ends at one more than the larger of its entry row and the block's row, and `last.column` at the larger of its entry column and the block's column. |
| `Grid.PlaceValues` | grid.py:43 | One call's own part adds exactly its block's node to the cells read in order. |
| `Grid.FlattenPlace` | grid.py:40-43 | Read in order, one call's own part appends its `None` padding and then its node. |
| `Grid.ProjectValues` | grid.py:33-49 | Read in order without the `None` padding, the grid holds its old nodes, then exactly one node per block in depth-first source order. |
| `Grid.ProjectEndsEmpty` | grid.py:44-45 | The last row is empty afterwards. |
| `Grid.ProjectExtends` | grid.py:33-49 | The grid is only appended to. Rows before the old last row are unchanged, and the old last row only gains cells at its end. |
| `BuildSvg.MaxWidth` | build_svg.py:53-61 | No row is longer than the result. The result is 0 or the length of some row. |
| `BuildSvg.GetSize` | build_svg.py:53-61 | The loop returns `rows == len(grid)` and `columns == MaxWidth(grid)`. |
| `BuildSvg.Get1X` | build_svg.py:140-150 | With the default stroke and width, `_get1_x(c) == 1 + 38 c`. |
| `BuildSvg.Get2X` | build_svg.py:153-160 | With the defaults, `_get2_x(c) == _get1_x(c) + 37 == 38 + 38 c`. |
| `BuildSvg.Get1YAsWritten` | build_svg.py:163-173 | With the defaults, `_get1_y(r) == 1 + 12 r`. With `h=None` the height is read as the width 36, so `_get1_y(r, 1, None) == 27 + 12 r` for every row after the first. |
| `BuildSvg.Get2YAsWritten` | build_svg.py:176-183 | With the defaults, `_get2_y(r) == _get1_y(r) + 11 == 12 + 12 r`. With `h=None`, `_get2_y(r, 1, None) == 38 + 12 r`. |
| `BuildSvg.Get1Y` | build_svg.py:163-173 | Corrected `_get1_y`: `1 + 12 r` with the default stroke, whether the height is the default or missing. |
| `BuildSvg.Get2Y` | build_svg.py:176-183 | Corrected `_get2_y`: `Get1Y(r) + 11 == 12 + 12 r` under the same conditions. |
| `BuildSvg.RectStart` | build_svg.py:104-112 | `rect_start(c, r)`, computed by `_get1_x` and `_get1_y` as written with the stroke and height passed explicitly, is `(1 + 38 c, 1 + 12 r)`. |
| `BuildSvg.RectEnd` | build_svg.py:115-123 | `rect_end(c, r)`, computed by `_get2_x` and `_get2_y` as written, is `(38 + 38 c, 12 + 12 r)`. |
| `BuildSvg.ColrowXY` | build_svg.py:126-137 | For every cell the closed form agrees with `rect_start`, and with `rect_end` when asked for the end corner. This is the assertion `build_svg` makes at build_svg.py:197-199. |
| `BuildSvg.Get1XOuterOnly` | build_svg.py:140-150 | A stroke or width given to `_get1_x` counts only in the outermost step; earlier columns use the defaults. |
| `BuildSvg.Get1YOuterOnly` | build_svg.py:163-173 | The same for `_get1_y` as written, where a missing height counts as the width 36 in the outermost step, and for the corrected version, where it counts as the height 10. |
| `BuildSvg.Get1YAgrees` | build_svg.py:163-173 | Whenever a height is given, `_get1_y` as written and the corrected version agree. |
| `BuildSvg.Get2YAgrees` | build_svg.py:176-183 | The same for `_get2_y`. |
| `BuildSvg.HeightFallsBackToWidth` | build_svg.py:163-183 | As written, `h=None` is read as the width 36. `_get1_y(1, 1, None) == 39` instead of 13, and `_get2_y(0, 1, None) == 38` instead of 12. |
| `BuildSvg.MissingHeightIsDefault` | build_svg.py:163-183 | In the corrected functions, a missing height means the default height. |
| `BuildSvg.InitSvgRoot` | build_svg.py:20-45 | The root has the given view box, a pixel size of the view box times the factor, and one child: the background of that pixel size. |
| `BuildSvg.SubRect` | build_svg.py:64-96 | `sub_rect` adds two elements. |
| `BuildSvg.SubRectGeometry` | build_svg.py:73-96 | The rectangle has the given corner, fill and stroke, the given width (default 36) and height 10. The label, with `text-anchor` middle and font size 4, is centered on the rectangle to within half a pixel, with its baseline inside it. |
| `BuildSvg.SubRectMissingWidth` | build_svg.py:73-74 | A missing width is the default width, and the label then sits 18 pixels right of the corner. |
| `BuildSvg.StripLeft` | build_svg.py:212 | Leading whitespace removed: a suffix of the text. Everything removed is whitespace, and the result is empty or starts with a non-space. |
| `BuildSvg.StripRight` | build_svg.py:212 | The same for trailing whitespace. |
| `BuildSvg.Strip` | build_svg.py:212 | `text.strip()` is empty exactly when every character is whitespace. Otherwise it neither starts nor ends with whitespace, and it is never longer than the text. |
| `BuildSvg.FillNode` | build_svg.py:203-205 | The recolored node's color is never empty. A colored node is unchanged, and nothing but the color ever changes. |
| `BuildSvg.CellNode` | build_svg.py:201-207 | The drawn node always has a color. Inside the grid it is the grid's node with at most its color changed, and exactly the grid's node when that is colored. Past the end of a row it is a fresh lightgray node at that cell, with no text and no tags. |
| `BuildSvg.CellFill` | build_svg.py:208-210 | The fill is never empty and is the node's own color when it has one. Since every drawn node is colored, the `fill = "None"` branch is dead. |
| `BuildSvg.CellStroke` | build_svg.py:211-213 | The stroke is either "None" or "black". |
| `BuildSvg.FillAll` | build_svg.py:203-205 | The recolored grid has the same shape. Every node has a color, and nothing but the color of a node changes. |
| `BuildSvg.Render` | build_svg.py:186-222 | The document is `38 * columns` by `12 * rows` in view units, scaled by 3, and its first child is the background of that size. |
| `BuildSvg.NodeElements` | build_svg.py:208-219 | Each cell adds two elements. |
| `BuildSvg.CellElements` | build_svg.py:197-219 | The same, for the cell at (row, column) of a grid. |
| `BuildSvg.BuildSvg` | build_svg.py:186-222 | The document is `Render(grid)`, and the grid is left as `FillAll(grid)`, every uncolored node recolored lightgray. |
| `BuildSvg.DrawGrid` | build_svg.py:195-219 | The outer loop appends `GridElements` for all rows of the size rectangle and recolors the whole grid. |
| `BuildSvg.DrawRow` | build_svg.py:196-219 | The inner loop appends `RowElements` for one row and recolors exactly that row's nodes. |
| `BuildSvg.DrawCell` | build_svg.py:197-219 | One cell's corner, with the `colrow_xy`/`rect_start` agreement, its node and its elements. Only this cell's node changes. |
| `BuildSvg.FetchNode` | build_svg.py:201-207 | The node is the grid's node, recolored in place when it has no color, or a fresh lightgray node when the row is too short. No other node changes. |
| `BuildSvg.StyleCell` | build_svg.py:208-219 | The fill, the stroke and the overwritten width produce exactly `NodeElements`. |
| `BuildSvg.NodeElementsAt` | build_svg.py:208-219 | The rectangle is at `(1 + 38 c, 1 + 12 r)`, 36 by 10, with the cell's fill and stroke. The label is at `(19 + 38 c, 8 + 12 r)` with the node's text. |
| `BuildSvg.RenderShape` | build_svg.py:186-222 | The document holds the background and then two elements for every cell of the size rectangle: `1 + rows * 2 * columns` in all. |
| `BuildSvg.GridElementsAt` | build_svg.py:195-219 | The walk is row-major. Cell (r, c)'s two elements sit at `r * 2 * columns + 2 c` and the next index. |
| `BuildSvg.RenderAt` | build_svg.py:191-219 | The document's element `k + 1` is element `k` of the cell walk: the walk comes right after the background. |
| `BuildSvg.RenderCell` | build_svg.py:195-219 | The document's elements for cell (r, c) are a default-size rectangle at the cell's corner and a centered label. The rectangle is filled with the recolored node's color and stroked by the stroke rule. The label carries the node's text. |
| `BuildSvg.MissingCell` | build_svg.py:206-213 | A cell past the end of its row is drawn lightgray, without stroke and with an empty label. |
| `BuildSvg.StrokeRule` | build_svg.py:211-213 | The stroke is "None" exactly when the tags hold ":nostroke" or the text is blank, and "black" otherwise. |
| `BuildSvg.CenterIgnored` | build_svg.py:214-218 | The rectangle is always 36 wide. Adding ":center" to a node changes nothing of its rectangle. |
| `BuildSvg.RenderFilled` | build_svg.py:203-205 | Recoloring changes nothing that is drawn: the recolored grid renders to the same document. Recoloring twice is recoloring once. |
| `BuildSvg.XyTableHolds` | test_svg_lib.py:8-43 | The table of corners holds for `_get1_x`/`_get1_y`, `_get2_x`/`_get2_y`, `rect_start` and `rect_end`. The row edges are `_get1_y`/`_get2_y` as written, which the test calls and `rect_start`/`rect_end` use. The corrected row edges give the same table. |
| `BuildSvg.SampleShape` | build_svg.py:191-193 | The message box grid is 3 columns by 6 rows, so its document holds 37 elements. |
| `BuildSvg.SampleTitle` | build_svg.py:197-219 | The title cell is a `#00CCDE` rectangle with a black stroke, labelled "Messagebox Window". The empty cell beside it is lightgray and has no stroke. |
| `BuildSvg.SamplePlaceholder` | build_svg.py:201-213 | The placeholder in row 2 is recolored lightgray and drawn without a stroke. |
| `BuildSvg.SampleMessage` | build_svg.py:208-219 | The message cell is a White rectangle with a black stroke, labelled "Message text". |
| `BuildSvg.SampleEmptyRow` | build_svg.py:206-213 | Each of the three cells of the empty row 3, columns 0 to 2, is drawn as a lightgray rectangle without a stroke at `(1 + 38 c, 37)` and an empty label at `(19 + 38 c, 44)`. |

## Left out

- The `__main__` blocks of every file are not modelled: argument parsing, completion, globbing, file and pickle reading, printing and the doctest runner. This is I/O plumbing. The calls at build_svg.py:239-240 would fail: they build `RS.Cell(0, 0)`, but run_scan.py defines no `Cell`, so the attribute lookup raises `AttributeError`. (`parse_block` does take a third argument, its `state`.)
- ElementTree construction and serialization are not modelled. The XML header writing, attribute values rendered as strings, and `ET.SubElement` mutating the root are left out. `init_svg_root` and `sub_rect` are modelled only as the values they add. The document is a value returned by `BuildSvg`, not a mutated library object.
- `Block.__repr__` and `body_re` (run_scan.py:22-59) are debug printing over Python `re` character classes and are not modelled.
- `ParserState.log_current_line` only logs and is not modelled.
- build_xml.py, svg_conf.py and test_build_svg.py are not part of this model. They are a library wrapper, constants, and a golden-file test run through a subprocess.
- Python's mutable default arguments (`grid=[[]]`, `last=Cell(0, 0)`) are modelled as explicit arguments. Call sites start from `Grid()` and `Cursor(0, 0)`. The default object shared between calls is not modelled. Immutable defaults, such as `parse_block`'s `cursor=0` and `state=State.out` or the stroke and sizes of `_get1_x`, are Dafny default parameters.
- `RunGrid.BuildGrid`: requires `len(grid) == last.row + 1`, which every call site establishes and every call keeps. Grids longer than the cursor suggests are outside the model.
- `Grid.BuildGrid`: requires the grid to be non-empty or the block's row to lie below the cursor's. Exactly then, the `grid[-1]` reads at grid.py:41 and grid.py:43 find a row, because for a block below the cursor the row loop at grid.py:37-39 opens one first (`Grid.EmptyGridBelow`). The `IndexError` raised otherwise is not modelled. `Grid.PlaceExtends` and `Grid.ProjectExtends` are stated for non-empty grids only, because `Extends` speaks of the old last row.
- Python's recursion limit is not modelled. In the source, blocks nested about a thousand deep make `parse_block` and `build_grid` raise `RecursionError`, and so do `_get1_x`/`_get1_y` for an index near 1000; the model always returns.
- Rows, columns and pixel indices are natural numbers. A negative column or row, on which `_get1_x`/`_get1_y` recurse without end, is not modelled.
- A node is a value. The grid holds nodes rather than references to them, so aliasing of one node object from two cells is not modelled. `build_svg`'s in-place `node.color` write is a replacement of that cell.
- `RunGrid.ProjectAdds` and `RunGrid.ProjectHolds` do not count the appended nodes. A placeholder `Node(row, column)` is equal to the node of a block at that cell with depth 0 and empty color, text and tags, so the grid alone cannot tell them apart.
- `BuildSvg.StripLeft`: whitespace is the fixed set of code points Python's `str.isspace` accepts. Unicode database changes are not modelled.
- `build_svg`'s two loops and their body are split into the methods `DrawGrid`, `DrawRow`, `DrawCell`, `FetchNode` and `StyleCell`, in the same order of effects. The `isinstance` check there is implied by the grid's element type.
- The scanner built by run_scan.py has no row/column assignment, row-break markers or tag extraction, and neither does `RunScan`. The projectors' input is the separate `Tree.Block`.

## Findings

| source | as written | input that shows it | evidently intended | confidence | as-written member | corrected member |
|---|---|---|---|---|---|---|
| run_scan.py:79-95 | A parent sets its offset to the child's returned offset and then adds 1. Each nested block left open at the end of the input therefore pushes the returned offset one further past `len(buffer)`. | `parse_block("[[", 0, out)` returns offset 3 for a buffer of length 2 | A truncated scan returns `offset == len(buffer)`, so `cursor <= offset <= len(buffer)` | not executed | `RunScan.TruncatedNestedOvershoots` | `RunScan.ParseBlockBounded` |
| build_svg.py:163-183 | `_get1_y` and `_get2_y` replace `h=None` by `rect_width` (36) | `_get1_y(1, 1, None)` is 39, not 13 | A missing height is `rect_height` (10) | not executed | `BuildSvg.HeightFallsBackToWidth` | `BuildSvg.MissingHeightIsDefault` |
