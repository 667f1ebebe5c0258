/** Model of build_svg.py: the size of a grid, the arithmetic that turns a
    (column, row) cell into pixel corners, and the walk over every cell of
    the grid's bounding rectangle that chooses each rectangle's fill, stroke
    and width, recoloring uncolored nodes in place. */
module BuildSvg {
  import opened Wrappers
  import RunGrid

  const RectWidth: int := 36
  const RectHeight: int := 10
  const FontSize: int := 4
  const StrokeThickness: int := 1

  /** `Size(columns, rows)`. */
  datatype Size = Size(columns: nat, rows: nat)

  /** `Point(x, y)`. */
  datatype Point = Point(x: int, y: int)

  // ---------------------------------------------------------------------
  // get_size
  // ---------------------------------------------------------------------

  /** The length of the longest row, 0 when there is none. */
  function MaxWidth<T>(grid: seq<seq<T>>): (r: nat)
    ensures forall k :: 0 <= k < |grid| ==> |grid[k]| <= r
    ensures r == 0 || exists k :: 0 <= k < |grid| && |grid[k]| == r
  {
    if grid == [] then 0
    else
      var front := grid[..|grid| - 1];
      var m := MaxWidth(front);
      assert forall k :: 0 <= k < |front| ==> front[k] == grid[k];
      if m < |grid[|grid| - 1]| then |grid[|grid| - 1]| else m
  }

  /** `get_size(grid)`: the number of rows, and the length of the longest. */
  method GetSize<T>(grid: seq<seq<T>>) returns (size: Size)
    ensures size == Size(MaxWidth(grid), |grid|)
  {
    var rows := |grid|;
    var columns := 0;
    for i := 0 to |grid|
      invariant columns == MaxWidth(grid[..i])
    {
      assert grid[..i + 1][..i] == grid[..i];
      if columns < |grid[i]| {
        columns := |grid[i]|;
      }
    }
    assert grid[..|grid|] == grid;
    size := Size(columns, rows);
  }

  // ---------------------------------------------------------------------
  // Cell to pixel arithmetic
  // ---------------------------------------------------------------------

  /** `_get1_x(column, v, w)`: the left edge of a column. The recursive step
      calls `_get1_x(column - 1)` with the default stroke and width, so with
      the defaults columns are 38 pixels apart from x = 1. */
  function Get1X(column: nat, v: Option<int> := Some(StrokeThickness), w: Option<int> := Some(RectWidth)): (r: int)
    ensures v == Some(StrokeThickness) && w == Some(RectWidth) ==> r == 1 + 38 * column
  {
    var v, w := v.GetOr(StrokeThickness), w.GetOr(RectWidth);
    if column == 0 then v else Get1X(column - 1) + w + v + v
  }

  /** `_get2_x(column, v, w)`: the right edge of a column, 37 pixels right of
      its left edge with the defaults. */
  function Get2X(column: nat, v: Option<int> := Some(StrokeThickness), w: Option<int> := Some(RectWidth)): (r: int)
    ensures v == Some(StrokeThickness) && w == Some(RectWidth) ==> r == Get1X(column) + 37 == 38 + 38 * column
  {
    var v, w := v.GetOr(StrokeThickness), w.GetOr(RectWidth);
    Get1X(column) + w + v
  }

  /** `_get1_y(row, v, h)` as written: a missing height falls back to the
      rectangle's width. With the defaults rows are 12 pixels apart from
      y = 1; with `h=None` every row after the first starts 26 pixels lower. */
  function Get1YAsWritten(row: nat, v: Option<int> := Some(StrokeThickness), h: Option<int> := Some(RectHeight)): (r: int)
    ensures v == Some(StrokeThickness) && h == Some(RectHeight) ==> r == 1 + 12 * row
    ensures v == Some(StrokeThickness) && h == None && row > 0 ==> r == 27 + 12 * row
  {
    var v, h := v.GetOr(StrokeThickness), h.GetOr(RectWidth);
    if row == 0 then v else Get1YAsWritten(row - 1) + h + v + v
  }

  /** `_get2_y(row, v, h)` as written, with the same fallback: 11 pixels below
      the top edge with the defaults, 37 with `h=None`. */
  function Get2YAsWritten(row: nat, v: Option<int> := Some(StrokeThickness), h: Option<int> := Some(RectHeight)): (r: int)
    ensures v == Some(StrokeThickness) && h == Some(RectHeight) ==> r == Get1YAsWritten(row) + 11 == 12 + 12 * row
    ensures v == Some(StrokeThickness) && h == None ==> r == 38 + 12 * row
  {
    var v, h := v.GetOr(StrokeThickness), h.GetOr(RectWidth);
    Get1YAsWritten(row) + h + v
  }

  /** The top edge of a row, a missing height meaning the rectangle's height:
      rows are 12 pixels apart from y = 1 whether the height is given or not. */
  function Get1Y(row: nat, v: Option<int> := Some(StrokeThickness), h: Option<int> := Some(RectHeight)): (r: int)
    ensures v == Some(StrokeThickness) && h.GetOr(RectHeight) == RectHeight ==> r == 1 + 12 * row
  {
    var v, h := v.GetOr(StrokeThickness), h.GetOr(RectHeight);
    if row == 0 then v else Get1Y(row - 1) + h + v + v
  }

  /** The bottom edge of a row, a missing height meaning the rectangle's height. */
  function Get2Y(row: nat, v: Option<int> := Some(StrokeThickness), h: Option<int> := Some(RectHeight)): (r: int)
    ensures v == Some(StrokeThickness) && h.GetOr(RectHeight) == RectHeight ==> r == Get1Y(row) + 11 == 12 + 12 * row
  {
    var v, h := v.GetOr(StrokeThickness), h.GetOr(RectHeight);
    Get1Y(row) + h + v
  }

  /** `rect_start(column, row)`: the top-left corner of a cell. */
  function RectStart(column: nat, row: nat): (p: Point)
    ensures p == Point(1 + 38 * column, 1 + 12 * row)
  {
    Point(Get1X(column, Some(StrokeThickness), Some(RectWidth)),
          Get1YAsWritten(row, Some(StrokeThickness), Some(RectHeight)))
  }

  /** `rect_end(column, row)`: the corner next to the bottom-right one. */
  function RectEnd(column: nat, row: nat): (p: Point)
    ensures p == Point(38 + 38 * column, 12 + 12 * row)
  {
    Point(Get2X(column, Some(StrokeThickness), Some(RectWidth)),
          Get2YAsWritten(row, Some(StrokeThickness), Some(RectHeight)))
  }

  /** `colrow_xy(col, row, rect_end)`: the same corners in closed form. For
      every cell it agrees with the recursion, which is what build_svg
      asserts for every cell. */
  function ColrowXY(col: int, row: int, rectEnd: bool := false): (p: Point)
    ensures 0 <= col && 0 <= row ==> p == if rectEnd then RectEnd(col, row) else RectStart(col, row)
  {
    var v := StrokeThickness;
    var width, height := RectWidth + 2 * v, RectHeight + 2 * v;
    var x, y := col * width + v, row * height + v;
    if rectEnd then Point(x + RectWidth + v, y + RectHeight + v) else Point(x, y)
  }

  /** Stroke and width given to `_get1_x` count in the outermost step only:
      the earlier columns are always laid out with the defaults. */
  lemma Get1XOuterOnly(column: nat, v: Option<int>, w: Option<int>)
    ensures Get1X(column, v, w) == if column == 0 then v.GetOr(StrokeThickness)
            else 1 + 38 * (column - 1) + w.GetOr(RectWidth) + 2 * v.GetOr(StrokeThickness)
  {
  }

  /** The same for `_get1_y` as written, where a missing height is read as
      the width, and for the corrected version, where it is the height. */
  lemma Get1YOuterOnly(row: nat, v: Option<int>, h: Option<int>)
    ensures Get1YAsWritten(row, v, h) == if row == 0 then v.GetOr(StrokeThickness)
            else 1 + 12 * (row - 1) + h.GetOr(RectWidth) + 2 * v.GetOr(StrokeThickness)
    ensures Get1Y(row, v, h) == if row == 0 then v.GetOr(StrokeThickness)
            else 1 + 12 * (row - 1) + h.GetOr(RectHeight) + 2 * v.GetOr(StrokeThickness)
  {
  }

  /** The two edge functions of the rows agree whenever a height is given,
      which every call in the program does. */
  lemma {:induction false} Get1YAgrees(row: nat, v: Option<int>, h: int)
    ensures Get1YAsWritten(row, v, Some(h)) == Get1Y(row, v, Some(h))
  {
    if row > 0 {
      Get1YAgrees(row - 1, Some(StrokeThickness), RectHeight);
    }
  }

  lemma Get2YAgrees(row: nat, v: Option<int>, h: int)
    ensures Get2YAsWritten(row, v, Some(h)) == Get2Y(row, v, Some(h))
  {
    Get1YAgrees(row, Some(StrokeThickness), RectHeight);
  }

  /** As written, a missing height is taken as the width 36, so the second
      row starts at 39 instead of 13 and the first row ends at 38 instead of 12. */
  lemma HeightFallsBackToWidth()
    ensures Get1YAsWritten(1, Some(StrokeThickness), None) == 39
    ensures Get1YAsWritten(1, Some(StrokeThickness), Some(RectHeight)) == 13
    ensures Get2YAsWritten(0, Some(StrokeThickness), None) == 38
    ensures Get2YAsWritten(0, Some(StrokeThickness), Some(RectHeight)) == 12
  {
  }

  /** In the corrected functions a missing height is the default height. */
  lemma MissingHeightIsDefault(row: nat, v: Option<int>)
    ensures Get1Y(row, v, None) == Get1Y(row, v, Some(RectHeight))
    ensures Get2Y(row, v, None) == Get2Y(row, v, Some(RectHeight))
  {
  }

  // ---------------------------------------------------------------------
  // The SVG document
  // ---------------------------------------------------------------------

  /** A child of the SVG root: the lightgray background, a cell's rectangle
      or its centered label. Attribute values are kept as numbers. */
  datatype Element =
    | Background(width: int, height: int)
    | Rect(x: int, y: int, width: int, height: int, fill: string, stroke: string)
    | Label(x: int, y: int, anchor: string, fontSize: int, text: string)

  /** The SVG root: its pixel size, its view box and its children in order. */
  datatype Svg = Svg(width: int, height: int, viewWidth: int, viewHeight: int, elements: seq<Element>)

  /** `init_svg_root(view_width, view_height, factor)`. */
  function InitSvgRoot(viewWidth: int := 114, viewHeight: int := 84, factor: int := 3): (r: Svg)
    ensures r.viewWidth == viewWidth && r.viewHeight == viewHeight
    ensures r.width == viewWidth * factor && r.height == viewHeight * factor
    ensures r.elements == [Background(r.width, r.height)]
  {
    var width, height := viewWidth * factor, viewHeight * factor;
    Svg(width, height, viewWidth, viewHeight, [Background(width, height)])
  }

  /** `sub_rect(svg_root, x, y, text, fill, stroke, width)`: the rectangle of
      a cell and its label, which the caller appends to the root. */
  function SubRect(x: int, y: int, text: string, fill: string := "None", stroke: string := "black",
                   width: Option<int> := Some(RectWidth)): (r: seq<Element>)
    ensures |r| == 2
  {
    var width := width.GetOr(RectWidth);
    [Rect(x, y, width, RectHeight, fill, stroke),
     Label(x + width / 2, y + RectHeight - 3, "middle", FontSize, text)]
  }

  /** The label sits on the rectangle: centered to within half a pixel, with
      its baseline inside. */
  lemma SubRectGeometry(x: int, y: int, text: string, fill: string, stroke: string, width: Option<int>)
    ensures var r := SubRect(x, y, text, fill, stroke, width);
      r[0] == Rect(x, y, width.GetOr(RectWidth), RectHeight, fill, stroke)
      && r[1].Label? && r[1].text == text && r[1].anchor == "middle" && r[1].fontSize == FontSize
      && (2 * (r[1].x - x) == r[0].width || 2 * (r[1].x - x) == r[0].width - 1)
      && y < r[1].y < y + r[0].height
  {
  }

  /** A missing width is the default width. */
  lemma SubRectMissingWidth(x: int, y: int, text: string, fill: string, stroke: string)
    ensures SubRect(x, y, text, fill, stroke, None) == SubRect(x, y, text, fill, stroke)
    ensures SubRect(x, y, text, fill, stroke)[1].x == x + 18
  {
  }

  // ---------------------------------------------------------------------
  // Blank text, as `str.strip() == ""`
  // ---------------------------------------------------------------------

  /** The characters `str.isspace` accepts. */
  predicate IsSpace(ch: char)
  {
    ch == ' ' || '\t' <= ch <= '\r' || '\U{1C}' <= ch <= '\U{1F}' || ch == '\U{85}' || ch == '\U{A0}'
    || ch == '\U{1680}' || '\U{2000}' <= ch <= '\U{200A}' || ch == '\U{2028}' || ch == '\U{2029}'
    || ch == '\U{202F}' || ch == '\U{205F}' || ch == '\U{3000}'
  }

  predicate IsBlank(s: string)
  {
    forall i :: 0 <= i < |s| ==> IsSpace(s[i])
  }

  /** Leading whitespace removed. */
  function StripLeft(s: string): (r: string)
    ensures |r| <= |s| && r == s[|s| - |r|..]
    ensures IsBlank(s[..|s| - |r|])
    ensures r == [] || !IsSpace(r[0])
  {
    if s != [] && IsSpace(s[0]) then
      var r := StripLeft(s[1..]);
      assert s[..|s| - |r|] == [s[0]] + s[1..][..|s| - 1 - |r|];
      r
    else s
  }

  /** Trailing whitespace removed. */
  function StripRight(s: string): (r: string)
    ensures |r| <= |s| && r == s[..|r|]
    ensures IsBlank(s[|r|..])
    ensures r == [] || !IsSpace(r[|r| - 1])
  {
    if s != [] && IsSpace(s[|s| - 1]) then
      var r := StripRight(s[..|s| - 1]);
      assert s[|r|..] == s[..|s| - 1][|r|..] + [s[|s| - 1]];
      r
    else s
  }

  /** `str.strip()`: nothing is left exactly when every character is
      whitespace, and what is left neither starts nor ends with whitespace. */
  function Strip(s: string): (r: string)
    ensures |r| <= |s|
    ensures r == "" <==> IsBlank(s)
    ensures r != "" ==> !IsSpace(r[0]) && !IsSpace(r[|r| - 1])
  {
    var l := StripLeft(s);
    var r := StripRight(l);
    assert s[..|s|] == s;
    assert l != [] ==> l[0] == s[|s| - |l|];
    assert r != [] ==> r[0] == l[0];
    r
  }

  // ---------------------------------------------------------------------
  // Per-cell style decisions of build_svg
  // ---------------------------------------------------------------------

  type Node = RunGrid.Node

  /** The in-place recoloring: a node without a color becomes lightgray. */
  function FillNode(n: Node): (r: Node)
    ensures r.color != ""
    ensures n.color != "" ==> r == n
    ensures r.(color := n.color) == n
  {
    if n.color == "" then n.(color := "lightgray") else n
  }

  /** The node drawn at a cell: the grid's node, recolored, or a fresh
      lightgray node where the grid has no such cell (the IndexError case). */
  function CellNode(grid: seq<seq<Node>>, row: nat, column: nat): (n: Node)
    ensures n.color != ""
    ensures row < |grid| && column < |grid[row]| ==> n.(color := grid[row][column].color) == grid[row][column]
    ensures row < |grid| && column < |grid[row]| && grid[row][column].color != "" ==> n == grid[row][column]
    ensures !(row < |grid| && column < |grid[row]|) ==>
      n.row == row && n.column == column && n.color == "lightgray" && n.text == "" && n.tags == []
  {
    if row < |grid| && column < |grid[row]| then FillNode(grid[row][column])
    else RunGrid.Node(row, column, "lightgray")
  }

  /** The fill of a cell's rectangle. */
  function CellFill(n: Node): (fill: string)
    ensures fill != ""
    ensures n.color != "" ==> fill == n.color
  {
    if n.color == "" then "None" else n.color
  }

  /** The stroke of a cell's rectangle (`StrokeRule` says when it is "None"). */
  function CellStroke(n: Node): (stroke: string)
    ensures stroke == "None" || stroke == "black"
  {
    if ":nostroke" in n.tags || Strip(n.text) == "" then "None" else "black"
  }

  /** The two elements drawn for node `n` at cell (row, column). The width
      is always the default: the width computed from ":center" is
      overwritten before the call. */
  function NodeElements(n: Node, row: nat, column: nat): (r: seq<Element>)
    ensures |r| == 2
  {
    var p := ColrowXY(column, row);
    SubRect(p.x, p.y, n.text, CellFill(n), CellStroke(n), Some(RectWidth))
  }

  /** The two elements drawn for cell (row, column) of a grid. */
  function CellElements(grid: seq<seq<Node>>, row: nat, column: nat): (r: seq<Element>)
    ensures |r| == 2
  {
    NodeElements(CellNode(grid, row, column), row, column)
  }

  /** `parts(0) + parts(1) + ... + parts(n - 1)`. */
  function Concat<T>(n: nat, parts: nat -> seq<T>): seq<T>
  {
    if n == 0 then [] else Concat(n - 1, parts) + parts(n - 1)
  }

  /** The pieces of the first `columns` cells of a row, left to right. */
  function RowOf<T>(cells: (nat, nat) -> seq<T>, row: nat, columns: nat): seq<T>
  {
    Concat(columns, (column: nat) => cells(row, column))
  }

  /** The pieces of the first `rows` rows, top to bottom, `columns` cells each. */
  function TableOf<T>(cells: (nat, nat) -> seq<T>, columns: nat, rows: nat): seq<T>
  {
    Concat(rows, (row: nat) => RowOf(cells, row, columns))
  }

  /** The drawing of every cell of a grid. */
  function CellsOf(grid: seq<seq<Node>>): (nat, nat) -> seq<Element>
  {
    (row: nat, column: nat) => CellElements(grid, row, column)
  }

  /** The elements of the first `columns` cells of a row, left to right. */
  function RowElements(grid: seq<seq<Node>>, row: nat, columns: nat): seq<Element>
  {
    RowOf(CellsOf(grid), row, columns)
  }

  /** The elements of the first `rows` rows, top to bottom, `columns` cells each. */
  function GridElements(grid: seq<seq<Node>>, columns: nat, rows: nat): seq<Element>
  {
    TableOf(CellsOf(grid), columns, rows)
  }

  /** The document build_svg returns for a grid: 38 pixels per column wide
      and 12 per row high, scaled by 3, starting with the background and then
      holding the cells' elements (`RenderShape` counts them). */
  function Render(grid: seq<seq<Node>>): (svg: Svg)
    ensures svg.viewWidth == 38 * MaxWidth(grid) && svg.viewHeight == 12 * |grid|
    ensures svg.width == 3 * svg.viewWidth && svg.height == 3 * svg.viewHeight
    ensures |svg.elements| >= 1 && svg.elements[0] == Background(svg.width, svg.height)
  {
    var size := Size(MaxWidth(grid), |grid|);
    var root := InitSvgRoot(size.columns * 38, size.rows * 12, 3);
    root.(elements := root.elements + GridElements(grid, size.columns, size.rows))
  }

  /** The grid after build_svg: every uncolored node recolored lightgray. */
  function FillAll(grid: seq<seq<Node>>): (r: seq<seq<Node>>)
    ensures |r| == |grid| && forall k :: 0 <= k < |grid| ==> |r[k]| == |grid[k]|
    ensures forall k, j :: 0 <= k < |grid| && 0 <= j < |grid[k]| ==>
      r[k][j].color != "" && r[k][j].(color := grid[k][j].color) == grid[k][j]
  {
    seq(|grid|, k requires 0 <= k < |grid| =>
      seq(|grid[k]|, j requires 0 <= j < |grid[k]| => FillNode(grid[k][j])))
  }

  /** The grid once the cells before (row, column) in row-major order are visited. */
  ghost function Visited(grid: seq<seq<Node>>, row: nat, column: nat): seq<seq<Node>>
  {
    seq(|grid|, k requires 0 <= k < |grid| =>
      seq(|grid[k]|, j requires 0 <= j < |grid[k]| =>
        if k < row || (k == row && j < column) then FillNode(grid[k][j]) else grid[k][j]))
  }

  /** `build_svg(grid)`: walks every cell of the size rectangle row by row,
      recolors uncolored nodes in place, and appends a rectangle and a label
      per cell. */
  method BuildSvg(grid: RunGrid.Grid) returns (svg: Svg)
    modifies grid
    ensures svg == Render(old(grid.rows))
    ensures grid.rows == FillAll(old(grid.rows))
  {
    var size := GetSize(grid.rows);
    var columns, rows := size.columns, size.rows;
    svg := InitSvgRoot(columns * 38, rows * 12, 3);
    svg := DrawGrid(grid, svg, columns);
  }

  /** build_svg's outer loop: the rows of the size rectangle, top to bottom. */
  method DrawGrid(grid: RunGrid.Grid, svg: Svg, columns: nat) returns (svg': Svg)
    requires forall k :: 0 <= k < |grid.rows| ==> |grid.rows[k]| <= columns
    modifies grid
    ensures grid.rows == FillAll(old(grid.rows))
    ensures svg' == svg.(elements := svg.elements + GridElements(old(grid.rows), columns, |old(grid.rows)|))
  {
    ghost var g0 := grid.rows;
    var rows := |grid.rows|;
    svg' := svg;
    VisitNone(g0);
    for rowIndex := 0 to rows
      invariant grid.rows == Visited(g0, rowIndex, 0)
      invariant svg' == svg.(elements := svg.elements + GridElements(g0, columns, rowIndex))
    {
      svg' := DrawRow(grid, svg', rowIndex, columns, g0);
      AppendAssoc(svg.elements, GridElements(g0, columns, rowIndex), RowElements(g0, rowIndex, columns));
    }
    VisitDone(g0);
  }

  /** build_svg's inner loop: the cells of one row, left to right, each
      appending its rectangle and label to the document. */
  method DrawRow(grid: RunGrid.Grid, svg: Svg, rowIndex: nat, columns: nat,
                 ghost visited: seq<seq<Node>>) returns (svg': Svg)
    requires rowIndex < |visited| && |visited[rowIndex]| <= columns
    requires grid.rows == Visited(visited, rowIndex, 0)
    modifies grid
    ensures grid.rows == Visited(visited, rowIndex + 1, 0)
    ensures svg' == svg.(elements := svg.elements + RowElements(visited, rowIndex, columns))
  {
    svg' := svg;
    for columnIndex := 0 to columns
      invariant grid.rows == Visited(visited, rowIndex, columnIndex)
      invariant svg' == svg.(elements := svg.elements + RowElements(visited, rowIndex, columnIndex))
    {
      var cell := DrawCell(grid, rowIndex, columnIndex, columns, visited);
      AppendAssoc(svg.elements, RowElements(visited, rowIndex, columnIndex), cell);
      svg' := svg'.(elements := svg'.elements + cell);
    }
    VisitRowEnd(visited, rowIndex, columns);
  }

  /** The body of build_svg's inner loop: the corners of one cell, its node
      and the rectangle and label drawn for it. `visited` is the grid before
      the walk began. */
  method DrawCell(grid: RunGrid.Grid, rowIndex: nat, columnIndex: nat, columns: nat,
                  ghost visited: seq<seq<Node>>) returns (cell: seq<Element>)
    requires rowIndex < |visited|
    requires grid.rows == Visited(visited, rowIndex, columnIndex)
    modifies grid
    ensures grid.rows == Visited(visited, rowIndex, columnIndex + 1)
    ensures cell == CellElements(visited, rowIndex, columnIndex)
  {
    var p := ColrowXY(columnIndex, rowIndex);
    var q := RectStart(columnIndex, rowIndex);
    assert p == q;
    var node := FetchNode(grid, rowIndex, columnIndex, visited);
    cell := StyleCell(node, p, columns, rowIndex, columnIndex);
  }

  /** The node of a cell: the grid's node, recolored lightgray in place when
      it has no color, or a fresh lightgray node when the row is too short
      (the IndexError case). */
  method FetchNode(grid: RunGrid.Grid, rowIndex: nat, columnIndex: nat,
                   ghost visited: seq<seq<Node>>) returns (node: Node)
    requires rowIndex < |visited|
    requires grid.rows == Visited(visited, rowIndex, columnIndex)
    modifies grid
    ensures grid.rows == Visited(visited, rowIndex, columnIndex + 1)
    ensures node == CellNode(visited, rowIndex, columnIndex)
  {
    if columnIndex < |grid.rows[rowIndex]| {
      VisitStep(visited, rowIndex, columnIndex);
      node := grid.rows[rowIndex][columnIndex];
      if node.color == "" {
        node := node.(color := "lightgray");
        grid.rows := grid.rows[rowIndex := grid.rows[rowIndex][columnIndex := node]];
      }
    } else {
      node := RunGrid.Node(rowIndex, columnIndex, "lightgray");
      VisitSkip(visited, rowIndex, columnIndex);
    }
  }

  /** The style of a cell's rectangle and the elements drawn for it at
      corner `p`: the fill, the stroke, and the width computed from
      ":center" and then overwritten. */
  method StyleCell(node: Node, p: Point, columns: nat, ghost row: nat, ghost column: nat)
    returns (cell: seq<Element>)
    requires p == ColrowXY(column, row)
    ensures cell == NodeElements(node, row, column)
  {
    var v := StrokeThickness;
    var fill, text := node.color, node.text;
    if fill == "" {
      fill := "None";
    }
    var stroke := "black";
    if ":nostroke" in node.tags || Strip(text) == "" {
      stroke := "None";
    }
    var width;
    if ":center" in node.tags {
      width := RectWidth * columns + 2 * v;
    } else {
      width := RectWidth + 2 * v;
    }
    width := RectWidth;
    cell := SubRect(p.x, p.y, text, fill, stroke, Some(width));
  }

  lemma AppendAssoc<T>(a: seq<T>, b: seq<T>, c: seq<T>)
    ensures a + b + c == a + (b + c)
  {
  }

  lemma VisitStep(grid: seq<seq<Node>>, row: nat, column: nat)
    requires row < |grid| && column < |grid[row]|
    ensures Visited(grid, row, column)[row][column] == grid[row][column]
    ensures grid[row][column].color != "" ==> Visited(grid, row, column + 1) == Visited(grid, row, column)
    ensures Visited(grid, row, column + 1)
         == Visited(grid, row, column)[row := Visited(grid, row, column)[row][column := FillNode(grid[row][column])]]
  {
    var a, b := Visited(grid, row, column + 1), Visited(grid, row, column);
    var c := b[row := b[row][column := FillNode(grid[row][column])]];
    forall k | 0 <= k < |grid|
      ensures a[k] == c[k]
    {
      assert |a[k]| == |c[k]|;
      forall j | 0 <= j < |grid[k]|
        ensures a[k][j] == c[k][j]
      {
      }
    }
    if grid[row][column].color != "" {
      assert b[row][column := FillNode(grid[row][column])] == b[row];
    }
  }

  lemma VisitSkip(grid: seq<seq<Node>>, row: nat, column: nat)
    requires row < |grid| && |grid[row]| <= column
    ensures Visited(grid, row, column + 1) == Visited(grid, row, column)
  {
    var a, b := Visited(grid, row, column + 1), Visited(grid, row, column);
    forall k | 0 <= k < |grid|
      ensures a[k] == b[k]
    {
      assert |a[k]| == |b[k]|;
    }
  }

  lemma VisitRowEnd(grid: seq<seq<Node>>, row: nat, columns: nat)
    requires row < |grid| && |grid[row]| <= columns
    ensures Visited(grid, row, columns) == Visited(grid, row + 1, 0)
  {
    var a, b := Visited(grid, row, columns), Visited(grid, row + 1, 0);
    forall k | 0 <= k < |grid|
      ensures a[k] == b[k]
    {
      assert |a[k]| == |b[k]|;
    }
  }

  /** No cell is visited yet. */
  lemma VisitNone(grid: seq<seq<Node>>)
    ensures Visited(grid, 0, 0) == grid
  {
    var a := Visited(grid, 0, 0);
    forall k | 0 <= k < |grid|
      ensures a[k] == grid[k]
    {
      assert |a[k]| == |grid[k]|;
    }
  }

  lemma VisitDone(grid: seq<seq<Node>>)
    ensures Visited(grid, |grid|, 0) == FillAll(grid)
  {
    var a, b := Visited(grid, |grid|, 0), FillAll(grid);
    forall k | 0 <= k < |grid|
      ensures a[k] == b[k]
    {
      assert |a[k]| == |b[k]|;
    }
  }

  // ---------------------------------------------------------------------
  // Properties of the document
  // ---------------------------------------------------------------------

  lemma {:induction false} ConcatLength<T>(n: nat, parts: nat -> seq<T>, k: nat)
    requires forall i :: 0 <= i < n ==> |parts(i)| == k
    ensures |Concat(n, parts)| == n * k
  {
    if n > 0 {
      ConcatLength(n - 1, parts, k);
    }
  }

  /** Element `k` of part `i` follows the parts before it. */
  lemma {:induction false} ConcatIndex<T>(n: nat, parts: nat -> seq<T>, i: nat, k: nat)
    requires i < n && k < |parts(i)|
    ensures |Concat(i, parts)| + k < |Concat(n, parts)|
    ensures Concat(n, parts)[|Concat(i, parts)| + k] == parts(i)[k]
  {
    if i < n - 1 {
      ConcatIndex(n - 1, parts, i, k);
    }
  }

  lemma {:induction false} ConcatSame<T>(n: nat, f: nat -> seq<T>, g: nat -> seq<T>)
    requires forall i :: 0 <= i < n ==> f(i) == g(i)
    ensures Concat(n, f) == Concat(n, g)
  {
    if n > 0 {
      ConcatSame(n - 1, f, g);
    }
  }

  /** Every row has two pieces per cell. */
  lemma RowOfLength<T>(cells: (nat, nat) -> seq<T>, row: nat, columns: nat)
    requires forall c :: 0 <= c < columns ==> |cells(row, c)| == 2
    ensures |RowOf(cells, row, columns)| == 2 * columns
  {
    ConcatLength(columns, (column: nat) => cells(row, column), 2);
  }

  /** The table has `2 * columns` pieces per row. */
  lemma TableOfLength<T>(cells: (nat, nat) -> seq<T>, columns: nat, rows: nat)
    requires forall r, c :: 0 <= r < rows && 0 <= c < columns ==> |cells(r, c)| == 2
    ensures |TableOf(cells, columns, rows)| == rows * (2 * columns)
  {
    forall r | 0 <= r < rows
      ensures |RowOf(cells, r, columns)| == 2 * columns
    {
      RowOfLength(cells, r, columns);
    }
    ConcatLength(rows, (row: nat) => RowOf(cells, row, columns), 2 * columns);
  }

  /** Piece `k` of cell (row, column) is at place row * (2 * columns) +
      2 * column + k: the table is laid out row by row. */
  lemma TableOfAt<T>(cells: (nat, nat) -> seq<T>, columns: nat, rows: nat, row: nat, column: nat, k: nat)
    requires forall r, c :: 0 <= r < rows && 0 <= c < columns ==> |cells(r, c)| == 2
    requires row < rows && column < columns && k < 2
    ensures 0 <= row * (2 * columns)
    ensures row * (2 * columns) + 2 * column + k < |TableOf(cells, columns, rows)|
    ensures TableOf(cells, columns, rows)[row * (2 * columns) + 2 * column + k] == cells(row, column)[k]
  {
    var line := (c: nat) => cells(row, c);
    var lines := (r: nat) => RowOf(cells, r, columns);
    forall r | 0 <= r < rows
      ensures |lines(r)| == 2 * columns
    {
      RowOfLength(cells, r, columns);
    }
    ConcatLength(row, lines, 2 * columns);
    ConcatLength(column, line, 2);
    ConcatIndex(columns, line, column, k);
    ConcatIndex(rows, lines, row, 2 * column + k);
  }

  /** Tables of cells that agree are equal. */
  lemma TableOfSame<T>(f: (nat, nat) -> seq<T>, g: (nat, nat) -> seq<T>, columns: nat, rows: nat)
    requires forall r, c :: 0 <= r < rows && 0 <= c < columns ==> f(r, c) == g(r, c)
    ensures TableOf(f, columns, rows) == TableOf(g, columns, rows)
  {
    forall r | 0 <= r < rows
      ensures RowOf(f, r, columns) == RowOf(g, r, columns)
    {
      ConcatSame(columns, (c: nat) => f(r, c), (c: nat) => g(r, c));
    }
    ConcatSame(rows, (r: nat) => RowOf(f, r, columns), (r: nat) => RowOf(g, r, columns));
  }

  /** Every cell of a grid is drawn as two elements. */
  lemma CellsOfLength(grid: seq<seq<Node>>)
    ensures forall r, c :: |CellsOf(grid)(r, c)| == 2
  {
  }

  /** The rectangle and the label drawn for a node at cell (row, column):
      the rectangle at the cell's corner with the default size, and the
      label 18 pixels to the right of it and 7 below. */
  lemma NodeElementsAt(n: Node, row: nat, column: nat)
    ensures NodeElements(n, row, column)[0]
         == Rect(1 + 38 * column, 1 + 12 * row, RectWidth, RectHeight, CellFill(n), CellStroke(n))
    ensures NodeElements(n, row, column)[1] == Label(19 + 38 * column, 8 + 12 * row, "middle", FontSize, n.text)
  {
    var p := ColrowXY(column, row);
    assert p == Point(1 + 38 * column, 1 + 12 * row);
    var r := SubRect(p.x, p.y, n.text, CellFill(n), CellStroke(n), Some(RectWidth));
    assert r[1] == Label(p.x + 18, p.y + 7, "middle", FontSize, n.text);
  }

  /** The two elements of cell (row, column) follow the elements of the
      rows above it and of the cells to its left. */
  lemma GridElementsAt(grid: seq<seq<Node>>, columns: nat, rows: nat, row: nat, column: nat)
    requires row < rows && column < columns
    ensures 0 <= row * (2 * columns)
    ensures row * (2 * columns) + 2 * column + 1 < |GridElements(grid, columns, rows)|
    ensures GridElements(grid, columns, rows)[row * (2 * columns) + 2 * column] == CellElements(grid, row, column)[0]
    ensures GridElements(grid, columns, rows)[row * (2 * columns) + 2 * column + 1] == CellElements(grid, row, column)[1]
  {
    var cells := CellsOf(grid);
    CellsOfLength(grid);
    TableOfAt(cells, columns, rows, row, column, 0);
    TableOfAt(cells, columns, rows, row, column, 1);
    assert GridElements(grid, columns, rows) == TableOf(cells, columns, rows);
    assert cells(row, column) == CellElements(grid, row, column);
  }

  /** Two elements for every cell of the size rectangle follow the background. */
  lemma RenderShape(grid: seq<seq<Node>>)
    ensures |Render(grid).elements| == 1 + |grid| * (2 * MaxWidth(grid))
  {
    CellsOfLength(grid);
    TableOfLength(CellsOf(grid), MaxWidth(grid), |grid|);
  }

  /** After the background come the cells' elements. */
  lemma RenderElements(grid: seq<seq<Node>>)
    ensures |Render(grid).elements| == 1 + |GridElements(grid, MaxWidth(grid), |grid|)|
    ensures Render(grid).elements[1..] == GridElements(grid, MaxWidth(grid), |grid|)
  {
    var root := InitSvgRoot(MaxWidth(grid) * 38, |grid| * 12, 3);
    assert |root.elements| == 1;
  }

  /** What is drawn for cell (row, column): a rectangle of the default size
      at the cell's corner, filled with the (recolored) node's color, and a
      label with the node's text centered 18 pixels to the right, 7 below. */
  lemma RenderCell(grid: seq<seq<Node>>, row: nat, column: nat)
    requires row < |grid| && column < MaxWidth(grid)
    ensures 0 <= row * (2 * MaxWidth(grid))
    ensures row * (2 * MaxWidth(grid)) + 2 * column + 2 < |Render(grid).elements|
    ensures Render(grid).elements[row * (2 * MaxWidth(grid)) + 2 * column + 1]
         == Rect(1 + 38 * column, 1 + 12 * row, RectWidth, RectHeight,
                 CellNode(grid, row, column).color, CellStroke(CellNode(grid, row, column)))
    ensures Render(grid).elements[row * (2 * MaxWidth(grid)) + 2 * column + 2]
         == Label(19 + 38 * column, 8 + 12 * row, "middle", FontSize, CellNode(grid, row, column).text)
  {
    var columns := MaxWidth(grid);
    var n := CellNode(grid, row, column);
    var i := row * (2 * columns) + 2 * column;
    GridElementsAt(grid, columns, |grid|, row, column);
    RenderAt(grid, i);
    RenderAt(grid, i + 1);
    NodeElementsAt(n, row, column);
    assert CellElements(grid, row, column) == NodeElements(n, row, column);
    assert CellFill(n) == n.color;
  }

  /** Element k of the cells' elements is element k + 1 of the document. */
  lemma RenderAt(grid: seq<seq<Node>>, k: nat)
    requires k < |GridElements(grid, MaxWidth(grid), |grid|)|
    ensures k + 1 < |Render(grid).elements|
    ensures Render(grid).elements[k + 1] == GridElements(grid, MaxWidth(grid), |grid|)[k]
  {
    RenderElements(grid);
    assert Render(grid).elements[k + 1] == Render(grid).elements[1..][k];
  }

  /** The stroke is "None" exactly for a node tagged ":nostroke" or whose
      text is blank, and "black" otherwise. */
  lemma StrokeRule(n: Node)
    ensures CellStroke(n) == "None" <==> ":nostroke" in n.tags || IsBlank(n.text)
  {
  }

  /** A cell past the end of its row is a lightgray rectangle without a
      stroke and with an empty label. */
  lemma MissingCell(grid: seq<seq<Node>>, row: nat, column: nat)
    requires row < |grid| && |grid[row]| <= column
    ensures CellElements(grid, row, column)[0].fill == "lightgray"
    ensures CellElements(grid, row, column)[0].stroke == "None"
    ensures CellElements(grid, row, column)[1].text == ""
  {
  }

  /** The width of a rectangle does not depend on ":center". */
  lemma CenterIgnored(grid: seq<seq<Node>>, row: nat, column: nat)
    requires row < |grid| && column < |grid[row]|
    ensures CellElements(grid, row, column)[0].width == RectWidth
    ensures var n := grid[row][column];
      CellElements(grid[row := grid[row][column := n.(tags := n.tags + [":center"])]], row, column)[0]
      == CellElements(grid, row, column)[0]
  {
    var n := grid[row][column];
    var m := n.(tags := n.tags + [":center"]);
    var g := grid[row := grid[row][column := m]];
    if ":nostroke" in n.tags {
      assert ":nostroke" in m.tags;
    } else {
      assert ":nostroke" !in m.tags by {
        assert m.tags == n.tags + [":center"];
        assert forall t :: t in m.tags ==> t in n.tags || t == ":center";
      }
    }
  }

  // ---------------------------------------------------------------------
  // Rendering a recolored grid
  // ---------------------------------------------------------------------

  /** The longest row depends only on the lengths of the rows. */
  lemma {:induction false} MaxWidthByLengths<T, U>(a: seq<seq<T>>, b: seq<seq<U>>)
    requires |a| == |b| && forall k :: 0 <= k < |a| ==> |a[k]| == |b[k]|
    ensures MaxWidth(a) == MaxWidth(b)
  {
    if a != [] {
      var n := |a| - 1;
      assert forall k :: 0 <= k < n ==> a[..n][k] == a[k] && b[..n][k] == b[k];
      MaxWidthByLengths(a[..n], b[..n]);
    }
  }

  lemma GridElementsFilled(grid: seq<seq<Node>>, columns: nat, rows: nat)
    ensures GridElements(FillAll(grid), columns, rows) == GridElements(grid, columns, rows)
  {
    forall r, c | 0 <= r < rows && 0 <= c < columns
      ensures CellsOf(FillAll(grid))(r, c) == CellsOf(grid)(r, c)
    {
      assert CellNode(FillAll(grid), r, c) == CellNode(grid, r, c);
    }
    TableOfSame(CellsOf(FillAll(grid)), CellsOf(grid), columns, rows);
  }

  /** Recoloring changes nothing that is drawn: build_svg run again on the
      grid it leaves behind returns the same document, and leaves that grid
      as it is. */
  lemma RenderFilled(grid: seq<seq<Node>>)
    ensures Render(FillAll(grid)) == Render(grid)
    ensures FillAll(FillAll(grid)) == FillAll(grid)
  {
    MaxWidthByLengths(FillAll(grid), grid);
    GridElementsFilled(grid, MaxWidth(grid), |grid|);
    var a, b := FillAll(FillAll(grid)), FillAll(grid);
    forall k | 0 <= k < |grid|
      ensures a[k] == b[k]
    {
      assert |a[k]| == |b[k]|;
    }
  }

  // ---------------------------------------------------------------------
  // Concrete values
  // ---------------------------------------------------------------------

  /** One line of the table of corners: row, column, top-left, bottom-right. */
  datatype XyRow = XyRow(row: nat, col: nat, start: Point, end: Point)

  const XyTable: seq<XyRow> :=
    [XyRow(0, 0, Point(1, 1), Point(38, 12)),
     XyRow(0, 1, Point(39, 1), Point(76, 12)),
     XyRow(0, 2, Point(77, 1), Point(114, 12)),
     XyRow(1, 0, Point(1, 13), Point(38, 24)),
     XyRow(1, 1, Point(39, 13), Point(76, 24)),
     XyRow(1, 2, Point(77, 13), Point(114, 24)),
     XyRow(2, 0, Point(1, 25), Point(38, 36)),
     XyRow(2, 1, Point(39, 25), Point(76, 36)),
     XyRow(2, 2, Point(77, 25), Point(114, 36)),
     XyRow(3, 0, Point(1, 37), Point(38, 48)),
     XyRow(3, 1, Point(39, 37), Point(76, 48)),
     XyRow(3, 2, Point(77, 37), Point(114, 48)),
     XyRow(4, 0, Point(1, 49), Point(38, 60)),
     XyRow(4, 1, Point(39, 49), Point(76, 60)),
     XyRow(4, 2, Point(77, 49), Point(114, 60)),
     XyRow(5, 0, Point(1, 61), Point(38, 72)),
     XyRow(5, 1, Point(39, 61), Point(76, 72)),
     XyRow(5, 2, Point(77, 61), Point(114, 72))]

  /** The corners of the first six rows and three columns, for the edge
      functions as written, for `rect_start`/`rect_end`, and for the
      corrected row edges. */
  lemma XyTableHolds()
    ensures forall i :: 0 <= i < |XyTable| ==>
      var t := XyTable[i];
      Point(Get1X(t.col), Get1YAsWritten(t.row)) == t.start && Point(Get2X(t.col), Get2YAsWritten(t.row)) == t.end
      && RectStart(t.col, t.row) == t.start && RectEnd(t.col, t.row) == t.end
      && Point(Get1X(t.col), Get1Y(t.row)) == t.start && Point(Get2X(t.col), Get2Y(t.row)) == t.end
  {
    forall i | 0 <= i < |XyTable|
      ensures var t := XyTable[i];
        Point(Get1X(t.col), Get1YAsWritten(t.row)) == t.start && Point(Get2X(t.col), Get2YAsWritten(t.row)) == t.end
        && Point(Get1X(t.col), Get1Y(t.row)) == t.start && Point(Get2X(t.col), Get2Y(t.row)) == t.end
    {
      var t := XyTable[i];
    }
  }

  /** The sample grid is six rows and at most three cells wide, so its
      document holds the background and 36 cell elements. */
  lemma SampleShape()
    ensures MaxWidth(RunGrid.SampleGrid) == 3
    ensures |Render(RunGrid.SampleGrid).elements| == 37
  {
    var g := RunGrid.SampleGrid;
    assert |g| == 6 && |g[0]| == 1 && |g[4]| == 3;
    assert MaxWidth(g) == 3 by {
      assert MaxWidth(g[..5]) == 3 by {
        assert g[..5][..4] == g[..4];
      }
      assert g[..6][..5] == g[..5];
    }
    RenderShape(g);
  }

  /** The title in the top-left corner of the sample document, and the
      empty cell beside it: lightgray and without a border. */
  lemma SampleTitle()
    ensures CellElements(RunGrid.SampleGrid, 0, 0)
         == [Rect(1, 1, 36, 10, "#00CCDE", "black"), Label(19, 8, "middle", 4, "Messagebox Window")]
    ensures CellElements(RunGrid.SampleGrid, 0, 1) == [Rect(39, 1, 36, 10, "lightgray", "None"), Label(57, 8, "middle", 4, "")]
  {
    var n := RunGrid.Window;
    assert CellNode(RunGrid.SampleGrid, 0, 0) == n;
    assert Strip(n.text) != "" by { assert !IsSpace('M'); }
    assert CellStroke(n) == "black";
    NodeElementsAt(n, 0, 0);
    assert Strip("") == "";
  }

  /** The third row of the sample document starts with a placeholder cell,
      recolored lightgray and drawn without a border. */
  lemma SamplePlaceholder()
    ensures CellElements(RunGrid.SampleGrid, 2, 0) == [Rect(1, 25, 36, 10, "lightgray", "None"), Label(19, 32, "middle", 4, "")]
  {
    var n := RunGrid.Empty20.(color := "lightgray");
    assert CellNode(RunGrid.SampleGrid, 2, 0) == n;
    assert CellStroke(n) == "None" by { assert Strip(n.text) == ""; }
    NodeElementsAt(n, 2, 0);
  }

  /** Beside it, the message text in white with a border. */
  lemma SampleMessage()
    ensures CellElements(RunGrid.SampleGrid, 2, 1)
         == [Rect(39, 25, 36, 10, "White", "black"), Label(57, 32, "middle", 4, "Message text")]
  {
    var n := RunGrid.Message;
    assert CellNode(RunGrid.SampleGrid, 2, 1) == n;
    assert Strip(n.text) != "" by { assert !IsSpace('M'); }
    assert CellStroke(n) == "black";
    NodeElementsAt(n, 2, 1);
  }

  /** The empty fourth row of the sample grid is drawn as three lightgray
      cells without a border and with empty labels. */
  lemma SampleEmptyRow()
    ensures CellElements(RunGrid.SampleGrid, 3, 0) == [Rect(1, 37, 36, 10, "lightgray", "None"), Label(19, 44, "middle", 4, "")]
    ensures CellElements(RunGrid.SampleGrid, 3, 1) == [Rect(39, 37, 36, 10, "lightgray", "None"), Label(57, 44, "middle", 4, "")]
    ensures CellElements(RunGrid.SampleGrid, 3, 2) == [Rect(77, 37, 36, 10, "lightgray", "None"), Label(95, 44, "middle", 4, "")]
  {
    assert |RunGrid.SampleGrid[3]| == 0;
    forall column | 0 <= column < 3
      ensures CellElements(RunGrid.SampleGrid, 3, column)
        == [Rect(1 + 38 * column, 37, 36, 10, "lightgray", "None"), Label(19 + 38 * column, 44, "middle", 4, "")]
    {
      var n := RunGrid.Node(3, column, "lightgray");
      assert CellNode(RunGrid.SampleGrid, 3, column) == n;
      assert CellStroke(n) == "None";
      NodeElementsAt(n, 3, column);
    }
  }
}
