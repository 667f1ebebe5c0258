/** Model of grid.py, the earlier projector: like run_grid.py it walks the
    block tree depth-first, but it always appends to the last row, pads with
    `None`, and opens a new row after every block. */
module Grid {
  import opened Tree
  import opened Wrappers

  /** The dataclass `Node` of this variant: position, color and text. */
  datatype Node = Node(row: int := 0, column: int := 0, color: string := "", text: string := "")

  /** `Node(row, column, block.color, block.text)`. */
  function NodeOf(b: Block): (n: Node)
    ensures n.row == b.cell.row && n.column == b.cell.column && n.color == b.color && n.text == b.text
  {
    Node(b.cell.row, b.cell.column, b.color, b.text)
  }

  /** The list of rows, each holding nodes or `None` padding. */
  class Grid {
    var rows: seq<seq<Option<Node>>>

    /** The default `[[]]`. */
    constructor ()
      ensures rows == [[]]
    {
      rows := [[]];
    }
  }

  // ---------------------------------------------------------------------
  // The walk as a function of the rows and the cursor.
  // ---------------------------------------------------------------------

  function Nones(n: nat): (r: seq<Option<Node>>)
    ensures |r| == n && forall k :: 0 <= k < n ==> r[k] == None
  {
    if n == 0 then [] else Nones(n - 1) + [None]
  }

  /** The part of one call before its children (grid.py:36-45): rows open up
      to the block's row, the last row gains `None` padding up to the block's
      column and then the block's node, and a new empty row follows. */
  function Place(b: Block, rows: seq<seq<Option<Node>>>, cur: Cell): (r: seq<seq<Option<Node>>>)
    requires |rows| > 0 || cur.row < b.cell.row
    ensures |r| == |rows| + Gap(cur.row, b.cell.row) + 1
  {
    var grown := rows + Empties(Gap(cur.row, b.cell.row));
    var last := |grown| - 1;
    grown[last := grown[last] + (Nones(Gap(cur.column, b.cell.column)) + [Some(NodeOf(b))])] + [[]]
  }

  /** `build_grid(block, grid, last)`: the rows it leaves. */
  function Project(b: Block, rows: seq<seq<Option<Node>>>, cur: Cell): (r: seq<seq<Option<Node>>>)
    requires |rows| > 0 || cur.row < b.cell.row
    ensures |r| > |rows|
    decreases b, 1
  {
    ProjectChildren(b, 0, Place(b, rows, cur), Max(cur.row, b.cell.row) + 1, Max(cur.column, b.cell.column))
  }

  /** The children loop from the i-th child on (grid.py:46-48): every child
      gets a copy of the parent's cursor at (row, column), and only the
      parent's column moves on after it. */
  function ProjectChildren(b: Block, i: nat, rows: seq<seq<Option<Node>>>, row: nat, column: nat)
    : (r: seq<seq<Option<Node>>>)
    requires i <= |b.children| && |rows| > 0
    ensures |r| >= |rows|
    decreases b, 0, |b.children| - i
  {
    if i == |b.children| then rows
    else ProjectChildren(b, i + 1, Project(b.children[i], rows, Cell(row, column)), row, column + 1)
  }

  // ---------------------------------------------------------------------
  // The in-place walk.
  // ---------------------------------------------------------------------

  /** `build_grid(block, grid, last)`: appends to `grid` in place, returns the
      same grid, and leaves `last` one row below the block and one column
      on per child. */
  method BuildGrid(block: Block, grid: Grid, last: Cursor) returns (g: Grid)
    requires |grid.rows| > 0 || last.row < block.cell.row
    modifies grid, last
    ensures g == grid
    ensures grid.rows == Project(block, old(grid.rows), Cell(old(last.row), old(last.column)))
    ensures last.row == Max(old(last.row), block.cell.row) + 1
    ensures last.column == Max(old(last.column), block.cell.column) + |block.children|
    decreases block, 0
  {
    ghost var target := Project(block, grid.rows, Cell(last.row, last.column));
    PlaceNode(block, grid, last);
    ghost var column := last.column;
    for i := 0 to |block.children|
      invariant |grid.rows| > 0
      invariant last.column == column + i
      invariant last.row == Max(old(last.row), block.cell.row) + 1
      invariant ProjectChildren(block, i, grid.rows, last.row, last.column) == target
    {
      var d := last.Dup();
      var _ := BuildGrid(block.children[i], grid, d);
      last.column := last.column + 1;
    }
    g := grid;
  }

  /** The first part of `build_grid` (grid.py:36-45). */
  method PlaceNode(block: Block, grid: Grid, last: Cursor)
    requires |grid.rows| > 0 || last.row < block.cell.row
    modifies grid, last
    ensures grid.rows == Place(block, old(grid.rows), Cell(old(last.row), old(last.column)))
    ensures last.row == Max(old(last.row), block.cell.row) + 1
    ensures last.column == Max(old(last.column), block.cell.column)
  {
    var row, column := block.cell.row, block.cell.column;
    ghost var rows0, cur := grid.rows, Cell(last.row, last.column);
    while last.row < row
      invariant cur.row <= last.row <= Max(cur.row, row)
      invariant grid.rows == rows0 + Empties(last.row - cur.row)
      invariant last.column == cur.column
    {
      grid.rows := grid.rows + [[]];
      last.row := last.row + 1;
    }
    ghost var rows := grid.rows;
    ghost var bottom := |rows| - 1;
    assert rows[bottom] + Nones(0) == rows[bottom];
    while last.column < column
      invariant cur.column <= last.column <= Max(cur.column, column)
      invariant grid.rows == rows[bottom := rows[bottom] + Nones(last.column - cur.column)]
      invariant last.row == Max(cur.row, row)
    {
      ghost var n := last.column - cur.column;
      assert rows[bottom] + Nones(n) + [None] == rows[bottom] + Nones(n + 1);
      grid.rows := grid.rows[|grid.rows| - 1 := grid.rows[|grid.rows| - 1] + [None]];
      last.column := last.column + 1;
    }
    ghost var pad := Nones(Gap(cur.column, column));
    assert grid.rows[bottom] + [Some(NodeOf(block))] == rows[bottom] + (pad + [Some(NodeOf(block))]);
    grid.rows := grid.rows[|grid.rows| - 1 := grid.rows[|grid.rows| - 1] + [Some(NodeOf(block))]];
    grid.rows := grid.rows + [[]];
    last.row := last.row + 1;
  }

  // ---------------------------------------------------------------------
  // What the walk does.
  // ---------------------------------------------------------------------

  /** All cells, row after row. */
  function Flatten(rows: seq<seq<Option<Node>>>): seq<Option<Node>>
  {
    if rows == [] then [] else Flatten(rows[..|rows| - 1]) + rows[|rows| - 1]
  }

  /** The nodes among the cells, in order, without the `None` padding. */
  function Values(cells: seq<Option<Node>>): seq<Node>
  {
    if cells == [] then []
    else Values(cells[..|cells| - 1]) + (if cells[|cells| - 1].Some? then [cells[|cells| - 1].value] else [])
  }

  /** The nodes of a sequence of blocks. */
  function NodesOf(bs: seq<Block>): (r: seq<Node>)
    ensures |r| == |bs|
  {
    if bs == [] then [] else [NodeOf(bs[0])] + NodesOf(bs[1..])
  }

  lemma {:induction false} ValuesAppend(a: seq<Option<Node>>, b: seq<Option<Node>>)
    ensures Values(a + b) == Values(a) + Values(b)
    decreases |b|
  {
    if b == [] {
      assert a + b == a;
    } else {
      var b' := b[..|b| - 1];
      assert (a + b)[..|a + b| - 1] == a + b';
      assert (a + b)[|a + b| - 1] == b[|b| - 1];
      ValuesAppend(a, b');
    }
  }

  lemma {:induction false} ValuesNones(n: nat)
    ensures Values(Nones(n)) == []
  {
    if n > 0 {
      ValuesNones(n - 1);
      assert Nones(n)[..n - 1] == Nones(n - 1);
    }
  }

  lemma FlattenAppendRow(rows: seq<seq<Option<Node>>>, x: seq<Option<Node>>)
    ensures Flatten(rows + [x]) == Flatten(rows) + x
  {
    assert (rows + [x])[..|rows|] == rows;
  }

  lemma {:induction false} FlattenEmpties(rows: seq<seq<Option<Node>>>, n: nat)
    ensures Flatten(rows + Empties(n)) == Flatten(rows)
  {
    if n == 0 {
      assert rows + Empties(n) == rows;
    } else {
      FlattenEmpties(rows, n - 1);
      assert rows + Empties(n) == (rows + Empties(n - 1)) + [[]];
      FlattenAppendRow(rows + Empties(n - 1), []);
    }
  }

  lemma FlattenExtendLast(rows: seq<seq<Option<Node>>>, x: seq<Option<Node>>)
    requires |rows| > 0
    ensures Flatten(rows[|rows| - 1 := rows[|rows| - 1] + x]) == Flatten(rows) + x
  {
    var front := rows[..|rows| - 1];
    assert rows[|rows| - 1 := rows[|rows| - 1] + x] == front + [rows[|rows| - 1] + x];
    assert rows == front + [rows[|rows| - 1]];
    FlattenAppendRow(front, rows[|rows| - 1] + x);
    FlattenAppendRow(front, rows[|rows| - 1]);
  }

  /** One call's own part adds exactly its block's node to the cells. */
  lemma PlaceValues(b: Block, rows: seq<seq<Option<Node>>>, cur: Cell)
    requires |rows| > 0 || cur.row < b.cell.row
    ensures Values(Flatten(Place(b, rows, cur))) == Values(Flatten(rows)) + [NodeOf(b)]
  {
    var pad := Nones(Gap(cur.column, b.cell.column)) + [Some(NodeOf(b))];
    FlattenPlace(b, rows, cur);
    PadValues(NodeOf(b), Gap(cur.column, b.cell.column));
    ValuesAppend(Flatten(rows), pad);
  }

  /** One call's own part appends its padding and its node to the cells. */
  lemma FlattenPlace(b: Block, rows: seq<seq<Option<Node>>>, cur: Cell)
    requires |rows| > 0 || cur.row < b.cell.row
    ensures Flatten(Place(b, rows, cur)) == Flatten(rows) + (Nones(Gap(cur.column, b.cell.column)) + [Some(NodeOf(b))])
  {
    var grown := rows + Empties(Gap(cur.row, b.cell.row));
    var pad := Nones(Gap(cur.column, b.cell.column)) + [Some(NodeOf(b))];
    var last := |grown| - 1;
    var placed := grown[last := grown[last] + pad];
    FlattenEmpties(rows, Gap(cur.row, b.cell.row));
    FlattenExtendLast(grown, pad);
    FlattenAppendRow(placed, []);
  }

  lemma PadValues(n: Node, k: nat)
    ensures Values(Nones(k) + [Some(n)]) == [n]
  {
    ValuesAppend(Nones(k), [Some(n)]);
    ValuesNones(k);
    assert [Some(n)][..0] == [];
  }

  /** Read off the cells, the grid holds the old nodes followed by one node
      per block of the tree, in depth-first source order; `None` padding is
      all that lies between them. */
  lemma {:induction false} ProjectValues(b: Block, rows: seq<seq<Option<Node>>>, cur: Cell)
    requires |rows| > 0 || cur.row < b.cell.row
    ensures Values(Flatten(Project(b, rows, cur))) == Values(Flatten(rows)) + NodesOf(PreOrder(b))
    decreases b, 1
  {
    var p := Place(b, rows, cur);
    PlaceValues(b, rows, cur);
    ProjectChildrenValues(b, 0, p, Max(cur.row, b.cell.row) + 1, Max(cur.column, b.cell.column));
    assert NodesOf(PreOrder(b)) == [NodeOf(b)] + NodesOf(PreOrderFrom(b, 0)) by {
      NodesOfAppend([b], PreOrderFrom(b, 0));
    }
  }

  lemma {:induction false} ProjectChildrenValues(b: Block, i: nat, rows: seq<seq<Option<Node>>>, row: nat, column: nat)
    requires i <= |b.children| && |rows| > 0
    ensures Values(Flatten(ProjectChildren(b, i, rows, row, column)))
         == Values(Flatten(rows)) + NodesOf(PreOrderFrom(b, i))
    decreases b, 0, |b.children| - i
  {
    if i < |b.children| {
      var c := Project(b.children[i], rows, Cell(row, column));
      ProjectValues(b.children[i], rows, Cell(row, column));
      ProjectChildrenValues(b, i + 1, c, row, column + 1);
      NodesOfAppend(PreOrder(b.children[i]), PreOrderFrom(b, i + 1));
    }
  }

  lemma {:induction false} NodesOfAppend(a: seq<Block>, b: seq<Block>)
    ensures NodesOf(a + b) == NodesOf(a) + NodesOf(b)
  {
    if a == [] {
      assert a + b == b;
    } else {
      assert (a + b)[1..] == a[1..] + b;
      NodesOfAppend(a[1..], b);
    }
  }

  /** The last row is empty afterwards: every call ends by opening a row. */
  lemma {:induction false} ProjectEndsEmpty(b: Block, rows: seq<seq<Option<Node>>>, cur: Cell)
    requires |rows| > 0 || cur.row < b.cell.row
    ensures var r := Project(b, rows, cur); r[|r| - 1] == []
    decreases b, 1
  {
    ProjectChildrenEndsEmpty(b, 0, Place(b, rows, cur), Max(cur.row, b.cell.row) + 1, Max(cur.column, b.cell.column));
  }

  lemma {:induction false} ProjectChildrenEndsEmpty(b: Block, i: nat, rows: seq<seq<Option<Node>>>, row: nat, column: nat)
    requires i <= |b.children| && |rows| > 0 && rows[|rows| - 1] == []
    ensures var r := ProjectChildren(b, i, rows, row, column); r[|r| - 1] == []
    decreases b, 0, |b.children| - i
  {
    if i < |b.children| {
      var c := Project(b.children[i], rows, Cell(row, column));
      ProjectEndsEmpty(b.children[i], rows, Cell(row, column));
      ProjectChildrenEndsEmpty(b, i + 1, c, row, column + 1);
    }
  }

  /** a grows into c by appending only: rows before the last are unchanged,
      the last row gets a suffix, and more rows may follow. */
  ghost predicate Extends(a: seq<seq<Option<Node>>>, c: seq<seq<Option<Node>>>)
  {
    && 0 < |a| <= |c|
    && (forall k :: 0 <= k < |a| - 1 ==> c[k] == a[k])
    && a[|a| - 1] <= c[|a| - 1]
  }

  lemma ExtendsTrans(a: seq<seq<Option<Node>>>, m: seq<seq<Option<Node>>>, c: seq<seq<Option<Node>>>)
    requires Extends(a, m) && Extends(m, c)
    ensures Extends(a, c)
  {
    var k := |a| - 1;
    if k < |m| - 1 {
      assert c[k] == m[k];
    } else {
      assert a[k] <= m[k] <= c[k];
    }
  }

  lemma PlaceExtends(b: Block, rows: seq<seq<Option<Node>>>, cur: Cell)
    requires |rows| > 0
    ensures Extends(rows, Place(b, rows, cur))
  {
    var grown := rows + Empties(Gap(cur.row, b.cell.row));
    var last := |grown| - 1;
    var x := Nones(Gap(cur.column, b.cell.column)) + [Some(NodeOf(b))];
    assert grown[last] <= grown[last] + x;
  }

  /** Where one call puts its node: in the last row once rows are opened up
      to the block's row, whatever row the block names, followed by one new
      empty row. */
  lemma PlaceEffect(b: Block, rows: seq<seq<Option<Node>>>, cur: Cell)
    requires |rows| > 0 || cur.row < b.cell.row
    ensures var r, k := Place(b, rows, cur), |rows| - 1 + Gap(cur.row, b.cell.row);
            && |r| == k + 2 && r[k + 1] == []
            && r[k] == (if k == |rows| - 1 then rows[k] else []) + (Nones(Gap(cur.column, b.cell.column)) + [Some(NodeOf(b))])
            && forall j :: 0 <= j < k ==> r[j] == (if j < |rows| then rows[j] else [])
  {
  }

  /** An empty grid is fine when the block lies below the cursor: the row
      loop opens the row that `grid[-1]` then reads. */
  lemma EmptyGridBelow(b: Block)
    requires b.cell == Cell(1, 0) && b.children == []
    ensures Project(b, [], Cell(0, 0)) == [[Some(NodeOf(b))], []]
  {
    var grown: seq<seq<Option<Node>>> := [] + Empties(Gap(0, 1));
    assert grown == [[]];
    assert Nones(Gap(0, 0)) + [Some(NodeOf(b))] == [Some(NodeOf(b))];
    assert grown[0 := grown[0] + [Some(NodeOf(b))]] == [[Some(NodeOf(b))]];
    assert Place(b, [], Cell(0, 0)) == [[Some(NodeOf(b))], []];
  }

  /** The grid is only appended to: no row before the old last one changes,
      the old last row only gains cells at its end. */
  lemma {:induction false} ProjectExtends(b: Block, rows: seq<seq<Option<Node>>>, cur: Cell)
    requires |rows| > 0
    ensures Extends(rows, Project(b, rows, cur))
    decreases b, 1
  {
    var p := Place(b, rows, cur);
    PlaceExtends(b, rows, cur);
    ProjectChildrenExtends(b, 0, p, Max(cur.row, b.cell.row) + 1, Max(cur.column, b.cell.column));
    ExtendsTrans(rows, p, Project(b, rows, cur));
  }

  lemma {:induction false} ProjectChildrenExtends(b: Block, i: nat, rows: seq<seq<Option<Node>>>, row: nat, column: nat)
    requires i <= |b.children| && |rows| > 0
    ensures Extends(rows, ProjectChildren(b, i, rows, row, column))
    decreases b, 0, |b.children| - i
  {
    if i < |b.children| {
      var c := Project(b.children[i], rows, Cell(row, column));
      ProjectExtends(b.children[i], rows, Cell(row, column));
      ProjectChildrenExtends(b, i + 1, c, row, column + 1);
      ExtendsTrans(rows, c, ProjectChildren(b, i + 1, c, row, column + 1));
    }
  }
}
