/** Model of run_grid.py: `build_grid` walks a block tree depth-first and
    appends its nodes to a list of rows in place, padding rows and columns
    it has not reached yet, while it threads a mutable `Cell` cursor. */
module RunGrid {
  import opened Tree

  /** The dataclass `Node`; `Node(row, column)` is a placeholder with empty
      color and text. */
  datatype Node = Node(row: int := 0, column: int := 0, color: string := "", text: string := "",
                       depth: int := 0, tags: seq<string> := [])

  /** `Node(row, column, block.color, block.text, block.depth, block.tags)`. */
  function NodeOf(b: Block): (n: Node)
    ensures n.row == b.cell.row && n.column == b.cell.column
    ensures n.color == b.color && n.text == b.text && n.depth == b.depth && n.tags == b.tags
  {
    Node(b.cell.row, b.cell.column, b.color, b.text, b.depth, b.tags)
  }

  /** The list of rows `build_grid` appends to. */
  class Grid {
    var rows: seq<seq<Node>>

    /** The `[[]]` every call site starts from. */
    constructor ()
      ensures rows == [[]]
    {
      rows := [[]];
    }
  }

  // ---------------------------------------------------------------------
  // The walk as a function of the rows and the cursor.
  // ---------------------------------------------------------------------

  /** The rows together with the position of the running cursor. */
  datatype Layout = Layout(rows: seq<seq<Node>>, cur: Cell)

  /** The cursor sits on the last row: `len(grid) == last.row + 1`. The call
      sites start from `([[]], Cell(0, 0))`, and every call keeps it. */
  predicate Aligned(s: Layout)
  {
    |s.rows| == s.cur.row + 1
  }

  /** Rows are only appended to: every old row is a prefix of its new
      version, and no row disappears. */
  predicate Grows(a: seq<seq<Node>>, b: seq<seq<Node>>)
  {
    |a| <= |b| && forall k :: 0 <= k < |a| ==> a[k] <= b[k]
  }

  /** n placeholders `Node(row, column)`, all with the block's own column. */
  function Pads(row: int, column: int, n: nat): (r: seq<Node>)
    ensures |r| == n && forall k :: 0 <= k < n ==> r[k] == Node(row, column)
  {
    if n == 0 then [] else Pads(row, column, n - 1) + [Node(row, column)]
  }

  /** The part of one call before its children (run_grid.py:39-48): empty
      rows up to the block's row, placeholders up to its column, its node. */
  function Place(b: Block, s: Layout): (r: Layout)
    requires Aligned(s)
    ensures Aligned(r)
    ensures r.cur == Cell(Max(s.cur.row, b.cell.row), Max(s.cur.column, b.cell.column))
  {
    var row, column := b.cell.row, b.cell.column;
    var rows := s.rows + Empties(Gap(s.cur.row, row));
    Layout(rows[row := rows[row] + Pads(row, column, Gap(s.cur.column, column)) + [NodeOf(b)]],
           Cell(Max(s.cur.row, row), Max(s.cur.column, column)))
  }

  /** What one call does before its children: rows open up to the block's
      row; the block's row gains `max(0, column - last.column)` placeholders
      and then the block's own node; every other row stays as it was. */
  lemma PlaceEffect(b: Block, s: Layout)
    requires Aligned(s)
    ensures |Place(b, s).rows| == Max(|s.rows|, b.cell.row + 1)
    ensures forall k :: 0 <= k < |Place(b, s).rows| && k != b.cell.row ==>
              Place(b, s).rows[k] == (if k < |s.rows| then s.rows[k] else [])
    ensures Place(b, s).rows[b.cell.row] ==
              (if b.cell.row < |s.rows| then s.rows[b.cell.row] else [])
              + Pads(b.cell.row, b.cell.column, Gap(s.cur.column, b.cell.column)) + [NodeOf(b)]
  {
  }

  /** `build_grid(block, grid, last)`: the rows and the returned cursor. */
  function Project(b: Block, s: Layout): (r: Layout)
    requires Aligned(s)
    ensures Aligned(r)
    decreases b, 1
  {
    ProjectChildren(b, 0, Place(b, s))
  }

  /** The children loop from the i-th child on (run_grid.py:49-53): each
      child is projected from the running cursor, which then becomes the
      child's returned cursor one column on. */
  function ProjectChildren(b: Block, i: nat, s: Layout): (r: Layout)
    requires i <= |b.children| && Aligned(s)
    ensures Aligned(r)
    decreases b, 0, |b.children| - i
  {
    if i == |b.children| then s
    else
      var c := Project(b.children[i], s);
      ProjectChildren(b, i + 1, Layout(c.rows, Cell(c.cur.row, c.cur.column + 1)))
  }

  // ---------------------------------------------------------------------
  // The in-place walk.
  // ---------------------------------------------------------------------

  /** `build_grid(block, grid, last)`: appends to `grid` in place and advances
      `last`, returning the same grid and the running cursor, which is `last`
      itself when the block has no children and a new cursor otherwise. */
  method BuildGrid(block: Block, grid: Grid, last: Cursor) returns (g: Grid, c: Cursor)
    requires |grid.rows| == last.row + 1
    modifies grid, last
    ensures g == grid
    ensures grid.rows == Project(block, Layout(old(grid.rows), Cell(old(last.row), old(last.column)))).rows
    ensures Cell(c.row, c.column) == Project(block, Layout(old(grid.rows), Cell(old(last.row), old(last.column)))).cur
    ensures last.row == Max(old(last.row), block.cell.row)
    ensures last.column == Max(old(last.column), block.cell.column)
    ensures block.children == [] ==> c == last
    ensures block.children != [] ==> fresh(c)
    decreases block, 0
  {
    ghost var target := Project(block, Layout(grid.rows, Cell(last.row, last.column)));
    PlaceNode(block, grid, last);
    c := last;
    ghost var st := Layout(grid.rows, Cell(c.row, c.column));
    ghost var placed := st.cur;
    var i := 0;
    while i < |block.children|
      invariant i <= |block.children| && Aligned(st)
      invariant st == Layout(grid.rows, Cell(c.row, c.column))
      invariant ProjectChildren(block, i, st) == target
      invariant last.row == placed.row && last.column == placed.column
      invariant i == 0 ==> c == last
      invariant i > 0 ==> fresh(c)
    {
      var d := c.Dup();
      var _, returned := BuildGrid(block.children[i], grid, d);
      c := returned.Dup();
      c.column := c.column + 1;
      st := Layout(grid.rows, Cell(c.row, c.column));
      i := i + 1;
    }
    g := grid;
  }

  /** The first part of `build_grid` (run_grid.py:39-48): open rows up to the
      block's row, pad its row up to the block's column, append its node. */
  method PlaceNode(block: Block, grid: Grid, last: Cursor)
    requires |grid.rows| == last.row + 1
    modifies grid, last
    ensures Layout(grid.rows, Cell(last.row, last.column))
         == Place(block, Layout(old(grid.rows), Cell(old(last.row), old(last.column))))
  {
    var row, column := block.cell.row, block.cell.column;
    OpenRows(grid, last, row);
    PadRow(grid, last, row, column);
    grid.rows := grid.rows[row := grid.rows[row] + [NodeOf(block)]];
  }

  /** `while last.row < row: grid.append([]); last.row += 1`. */
  method OpenRows(grid: Grid, last: Cursor, row: nat)
    requires |grid.rows| == last.row + 1
    modifies grid, last
    ensures grid.rows == old(grid.rows) + Empties(Gap(old(last.row), row))
    ensures last.row == Max(old(last.row), row) && last.column == old(last.column)
  {
    ghost var rows0, row0 := grid.rows, last.row;
    while last.row < row
      invariant row0 <= last.row <= Max(row0, row)
      invariant grid.rows == rows0 + Empties(last.row - row0)
      invariant last.column == old(last.column)
    {
      grid.rows := grid.rows + [[]];
      last.row := last.row + 1;
    }
  }

  /** `while last.column < column: grid[row].append(Node(row, column));
      last.column += 1`. */
  method PadRow(grid: Grid, last: Cursor, row: nat, column: nat)
    requires row < |grid.rows|
    modifies grid, last
    ensures grid.rows == old(grid.rows)[row := old(grid.rows)[row] + Pads(row, column, Gap(old(last.column), column))]
    ensures last.column == Max(old(last.column), column) && last.row == old(last.row)
  {
    ghost var rows, column0 := grid.rows, last.column;
    assert rows[row] + Pads(row, column, 0) == rows[row];
    while last.column < column
      invariant column0 <= last.column <= Max(column0, column)
      invariant grid.rows == rows[row := rows[row] + Pads(row, column, last.column - column0)]
      invariant last.row == old(last.row)
    {
      ghost var n := last.column - column0;
      assert rows[row] + Pads(row, column, n) + [Node(row, column)] == rows[row] + Pads(row, column, n + 1);
      grid.rows := grid.rows[row := grid.rows[row] + [Node(row, column)]];
      last.column := last.column + 1;
    }
  }

  // ---------------------------------------------------------------------
  // What the walk does.
  // ---------------------------------------------------------------------

  /** The cursor's row ends at the largest row of the entry cursor and the
      tree, so `len(grid) == max(len(grid), MaxRow + 1)` afterwards and the
      returned row is never smaller than the entry row. */
  lemma {:induction false} ProjectRow(b: Block, s: Layout)
    requires Aligned(s)
    ensures Project(b, s).cur.row == Max(s.cur.row, MaxRow(b))
    ensures |Project(b, s).rows| == Max(|s.rows|, MaxRow(b) + 1)
    decreases b, 1
  {
    ProjectChildrenRow(b, 0, Place(b, s));
  }

  lemma {:induction false} ProjectChildrenRow(b: Block, i: nat, s: Layout)
    requires i <= |b.children| && Aligned(s)
    ensures ProjectChildren(b, i, s).cur.row == Max(s.cur.row, MaxRowFrom(b, i))
    decreases b, 0, |b.children| - i
  {
    if i < |b.children| {
      var c := Project(b.children[i], s);
      ProjectRow(b.children[i], s);
      ProjectChildrenRow(b, i + 1, Layout(c.rows, Cell(c.cur.row, c.cur.column + 1)));
    }
  }

  /** The block `x` has its node in its own row. */
  ghost predicate Holds(rows: seq<seq<Node>>, x: Block)
  {
    x.cell.row < |rows| && NodeOf(x) in rows[x.cell.row]
  }

  /** The length row k had before (0 for a row that did not exist). */
  function OldLength(rows: seq<seq<Node>>, k: int): nat
  {
    if 0 <= k < |rows| then |rows[k]| else 0
  }

  /** n is the node of a block of the tree in row k, or a placeholder
      `Node(k, column)` padded for such a block. */
  ghost predicate Explains(b: Block, k: int, n: Node)
  {
    exists x :: x in PreOrder(b) && x.cell.row == k && (n == NodeOf(x) || n == Node(k, x.cell.column))
  }

  /** From a to c rows were only appended to, and everything appended comes
      from the tree b. */
  ghost predicate AddedBy(a: seq<seq<Node>>, c: seq<seq<Node>>, b: Block)
  {
    && Grows(a, c)
    && forall k, j :: 0 <= k < |c| && OldLength(a, k) <= j < |c[k]| ==> Explains(b, k, c[k][j])
  }

  lemma GrowsTrans(a: seq<seq<Node>>, m: seq<seq<Node>>, c: seq<seq<Node>>)
    requires Grows(a, m) && Grows(m, c)
    ensures Grows(a, c)
  {
    forall k | 0 <= k < |a|
      ensures a[k] <= c[k]
    {
      assert a[k] <= m[k] && m[k] <= c[k];
    }
  }

  lemma AddedTrans(a: seq<seq<Node>>, m: seq<seq<Node>>, c: seq<seq<Node>>, b: Block)
    requires AddedBy(a, m, b) && AddedBy(m, c, b)
    ensures AddedBy(a, c, b)
  {
    GrowsTrans(a, m, c);
    forall k, j | 0 <= k < |c| && OldLength(a, k) <= j < |c[k]|
      ensures Explains(b, k, c[k][j])
    {
      if j < OldLength(m, k) {
        assert c[k][j] == m[k][j];
      }
    }
  }

  /** What child i adds is explained by the parent's tree. */
  lemma AddedByChild(a: seq<seq<Node>>, c: seq<seq<Node>>, b: Block, i: nat)
    requires i < |b.children| && AddedBy(a, c, b.children[i])
    ensures AddedBy(a, c, b)
  {
    forall k, j | 0 <= k < |c| && OldLength(a, k) <= j < |c[k]|
      ensures Explains(b, k, c[k][j])
    {
      var n := c[k][j];
      var x :| x in PreOrder(b.children[i]) && x.cell.row == k && (n == NodeOf(x) || n == Node(k, x.cell.column));
      ChildSubtree(b, i, x);
    }
  }

  /** The rows are only appended to (no row or node is changed or removed),
      and every node appended is a node of the tree's blocks or a
      placeholder carrying such a block's row and column. */
  lemma {:induction false} ProjectAdds(b: Block, s: Layout)
    requires Aligned(s)
    ensures AddedBy(s.rows, Project(b, s).rows, b)
    decreases b, 1
  {
    var p := Place(b, s);
    PlaceEffect(b, s);
    forall k, j | 0 <= k < |p.rows| && OldLength(s.rows, k) <= j < |p.rows[k]|
      ensures Explains(b, k, p.rows[k][j])
    {
      assert k == b.cell.row;
      assert b in PreOrder(b);
    }
    forall k | 0 <= k < |s.rows|
      ensures s.rows[k] <= p.rows[k]
    {
      if k == b.cell.row {
        assert p.rows[k] == s.rows[k] + (Pads(b.cell.row, b.cell.column, Gap(s.cur.column, b.cell.column)) + [NodeOf(b)]);
      }
    }
    ProjectChildrenAdds(b, 0, p);
    AddedTrans(s.rows, p.rows, Project(b, s).rows, b);
  }

  lemma {:induction false} ProjectChildrenAdds(b: Block, i: nat, s: Layout)
    requires i <= |b.children| && Aligned(s)
    ensures AddedBy(s.rows, ProjectChildren(b, i, s).rows, b)
    decreases b, 0, |b.children| - i
  {
    if i < |b.children| {
      var c := Project(b.children[i], s);
      var next := Layout(c.rows, Cell(c.cur.row, c.cur.column + 1));
      ProjectAdds(b.children[i], s);
      AddedByChild(s.rows, c.rows, b, i);
      ProjectChildrenAdds(b, i + 1, next);
      AddedTrans(s.rows, c.rows, ProjectChildren(b, i + 1, next).rows, b);
    }
  }

  lemma InGrows(a: seq<seq<Node>>, c: seq<seq<Node>>, x: Block)
    requires Grows(a, c) && Holds(a, x)
    ensures Holds(c, x)
  {
    var k := x.cell.row;
    var j :| 0 <= j < |a[k]| && a[k][j] == NodeOf(x);
    assert c[k][j] == NodeOf(x);
  }

  /** Every block of the tree has its node in the row of its cell. */
  lemma {:induction false} ProjectHolds(b: Block, s: Layout, x: Block)
    requires Aligned(s) && x in PreOrder(b)
    ensures Holds(Project(b, s).rows, x)
    decreases b, 1
  {
    var p := Place(b, s);
    ProjectChildrenAdds(b, 0, p);
    if x == b {
      PlaceEffect(b, s);
      assert NodeOf(b) in p.rows[b.cell.row];
      InGrows(p.rows, Project(b, s).rows, x);
    } else {
      ProjectChildrenHolds(b, 0, p, x);
    }
  }

  lemma {:induction false} ProjectChildrenHolds(b: Block, i: nat, s: Layout, x: Block)
    requires i <= |b.children| && Aligned(s) && x in PreOrderFrom(b, i)
    ensures Holds(ProjectChildren(b, i, s).rows, x)
    decreases b, 0, |b.children| - i
  {
    var c := Project(b.children[i], s);
    var next := Layout(c.rows, Cell(c.cur.row, c.cur.column + 1));
    if x in PreOrder(b.children[i]) {
      ProjectHolds(b.children[i], s, x);
      ProjectChildrenAdds(b, i + 1, next);
      InGrows(c.rows, ProjectChildren(b, i + 1, next).rows, x);
    } else {
      ProjectChildrenHolds(b, i + 1, next, x);
    }
  }

  // ---------------------------------------------------------------------
  // The sample of test_grid.py.
  // ---------------------------------------------------------------------

  /** The message box tree: a window holding a frame whose children sit on
      rows 2, 4 and 5. The depths 0, 1 and 2 and the empty tags are chosen
      here: the expected grid in test_grid.py:29-38 predates the `depth` and
      `tags` fields of `Node` and prints neither. */
  function Leaf(row: nat, column: nat, color: string, text: string): Block
  {
    Block(Cell(row, column), color, text, 2, [], [])
  }

  const SampleFrame: Block :=
    Block(Cell(1, 0), "lightgray", "Frame", 1, [],
          [Leaf(2, 0, "", ""), Leaf(2, 1, "White", "Message text"),
           Leaf(4, 0, "goldenrod", "OK Button"), Leaf(4, 1, "", ""),
           Leaf(4, 2, "#ff0505", "Cancel Button"), Leaf(5, 0, "", "")])

  const SampleTree: Block :=
    Block(Cell(0, 0), "#00CCDE", "Messagebox Window", 0, [], [SampleFrame])

  /** The nodes of the grid the test expects. */
  const Window: Node := Node(0, 0, "#00CCDE", "Messagebox Window", 0)
  const Frame: Node := Node(1, 0, "lightgray", "Frame", 1)
  const Empty20: Node := Node(2, 0, "", "", 2)
  const Message: Node := Node(2, 1, "White", "Message text", 2)
  const Ok: Node := Node(4, 0, "goldenrod", "OK Button", 2)
  const Empty41: Node := Node(4, 1, "", "", 2)
  const Cancel: Node := Node(4, 2, "#ff0505", "Cancel Button", 2)
  const Empty50: Node := Node(5, 0, "", "", 2)

  /** The grid the test expects: rows 0 to 5, row 3 empty, row 4 with three
      nodes in order. */
  const SampleGrid: seq<seq<Node>> :=
    [[Window], [Frame], [Empty20, Message], [], [Ok, Empty41, Cancel], [Empty50]]

  lemma SampleProjection()
    ensures Project(SampleTree, Layout([[]], Cell(0, 0))).rows == SampleGrid
  {
    var root := SampleRoot();
    var frame := SampleFramePlaced();
    var s := SampleFrameChildren();
    assert Project(SampleFrame, root) == ProjectChildren(SampleFrame, 0, frame) == s;
    assert ProjectChildren(SampleTree, 1, Layout(s.rows, Cell(s.cur.row, s.cur.column + 1))).rows == SampleGrid;
  }

  /** The test's call `build_grid(blk, [[]], Cell(0, 0))[0]`. */
  method SampleBuild() returns (rows: seq<seq<Node>>)
    ensures rows == SampleGrid
  {
    var grid := new Grid();
    var last := new Cursor(0, 0);
    var g, _ := BuildGrid(SampleTree, grid, last);
    rows := g.rows;
    SampleProjection();
  }

  lemma SampleRoot() returns (r: Layout)
    ensures r == Layout([[Window]], Cell(0, 0)) && Place(SampleTree, Layout([[]], Cell(0, 0))) == r
  {
    PlaceInRow(SampleTree, Layout([[]], Cell(0, 0)));
    assert NodeOf(SampleTree) == Window;
    assert [] + [Window] == [Window];
    assert [[]][0 := [Window]] == [[Window]];
    r := Layout([[Window]], Cell(0, 0));
  }

  lemma SampleFramePlaced() returns (r: Layout)
    ensures r == Layout([[Window], [Frame]], Cell(1, 0)) && Place(SampleFrame, Layout([[Window]], Cell(0, 0))) == r
  {
    PlaceBelow(SampleFrame, Layout([[Window]], Cell(0, 0)));
    assert NodeOf(SampleFrame) == Frame;
    assert [[Window]] + Empties(0) + [[Frame]] == [[Window], [Frame]];
    r := Layout([[Window], [Frame]], Cell(1, 0));
  }

  /** The frame's six children, from the frame's own placement. */
  lemma SampleFrameChildren() returns (s: Layout)
    ensures s == Layout(SampleGrid, Cell(5, 6))
    ensures ProjectChildren(SampleFrame, 0, Layout([[Window], [Frame]], Cell(1, 0))) == ProjectChildren(SampleFrame, 6, s)
  {
    var cs := SampleFrame.children;
    var s0 := Layout([[Window], [Frame]], Cell(1, 0));
    var s1 := Layout([[Window], [Frame], [Empty20]], Cell(2, 1));
    SampleChild0();
    assert ProjectChildren(SampleFrame, 0, s0) == ProjectChildren(SampleFrame, 1, s1);
    var s2 := Layout([[Window], [Frame], [Empty20, Message]], Cell(2, 2));
    SampleChild1();
    assert ProjectChildren(SampleFrame, 1, s1) == ProjectChildren(SampleFrame, 2, s2);
    var s3 := Layout([[Window], [Frame], [Empty20, Message], [], [Ok]], Cell(4, 3));
    SampleChild2();
    assert ProjectChildren(SampleFrame, 2, s2) == ProjectChildren(SampleFrame, 3, s3);
    var s4 := Layout([[Window], [Frame], [Empty20, Message], [], [Ok, Empty41]], Cell(4, 4));
    SampleChild3();
    assert ProjectChildren(SampleFrame, 3, s3) == ProjectChildren(SampleFrame, 4, s4);
    var s5 := Layout([[Window], [Frame], [Empty20, Message], [], [Ok, Empty41, Cancel]], Cell(4, 5));
    SampleChild4();
    assert ProjectChildren(SampleFrame, 4, s4) == ProjectChildren(SampleFrame, 5, s5);
    s := Layout(SampleGrid, Cell(5, 6));
    SampleChild5();
    assert ProjectChildren(SampleFrame, 5, s5) == ProjectChildren(SampleFrame, 6, s);
  }

  lemma SampleChild0()
    ensures Project(SampleFrame.children[0], Layout([[Window], [Frame]], Cell(1, 0)))
         == Layout([[Window], [Frame], [Empty20]], Cell(2, 0))
  {
    var b, s := SampleFrame.children[0], Layout([[Window], [Frame]], Cell(1, 0));
    PlaceLeaf(b, s);
    PlaceBelow(b, s);
    assert s.rows + Empties(0) + [[NodeOf(b)]] == [[Window], [Frame], [Empty20]];
  }

  lemma SampleChild1()
    ensures Project(SampleFrame.children[1], Layout([[Window], [Frame], [Empty20]], Cell(2, 1)))
         == Layout([[Window], [Frame], [Empty20, Message]], Cell(2, 1))
  {
    var b, s := SampleFrame.children[1], Layout([[Window], [Frame], [Empty20]], Cell(2, 1));
    PlaceLeaf(b, s);
    PlaceInRow(b, s);
    assert NodeOf(b) == Message;
    assert [Empty20] + [NodeOf(b)] == [Empty20] + [Message];
    assert [Empty20] + [Message] == [Empty20, Message];
    assert s.rows[2 := [Empty20, Message]] == [[Window], [Frame], [Empty20, Message]];
  }

  lemma SampleChild2()
    ensures Project(SampleFrame.children[2], Layout([[Window], [Frame], [Empty20, Message]], Cell(2, 2)))
         == Layout([[Window], [Frame], [Empty20, Message], [], [Ok]], Cell(4, 2))
  {
    var b, s := SampleFrame.children[2], Layout([[Window], [Frame], [Empty20, Message]], Cell(2, 2));
    PlaceLeaf(b, s);
    PlaceBelow(b, s);
    assert s.rows + Empties(1) + [[NodeOf(b)]] == [[Window], [Frame], [Empty20, Message], [], [Ok]];
  }

  lemma SampleChild3()
    ensures Project(SampleFrame.children[3], Layout([[Window], [Frame], [Empty20, Message], [], [Ok]], Cell(4, 3)))
         == Layout([[Window], [Frame], [Empty20, Message], [], [Ok, Empty41]], Cell(4, 3))
  {
    var b, s := SampleFrame.children[3], Layout([[Window], [Frame], [Empty20, Message], [], [Ok]], Cell(4, 3));
    PlaceLeaf(b, s);
    PlaceInRow(b, s);
    assert NodeOf(b) == Empty41;
    assert [Ok] + [NodeOf(b)] == [Ok] + [Empty41];
    assert [Ok] + [Empty41] == [Ok, Empty41];
    assert s.rows[4 := [Ok, Empty41]] == [[Window], [Frame], [Empty20, Message], [], [Ok, Empty41]];
  }

  lemma SampleChild4()
    ensures Project(SampleFrame.children[4], Layout([[Window], [Frame], [Empty20, Message], [], [Ok, Empty41]], Cell(4, 4)))
         == Layout([[Window], [Frame], [Empty20, Message], [], [Ok, Empty41, Cancel]], Cell(4, 4))
  {
    var b, s := SampleFrame.children[4], Layout([[Window], [Frame], [Empty20, Message], [], [Ok, Empty41]], Cell(4, 4));
    PlaceLeaf(b, s);
    PlaceInRow(b, s);
    assert NodeOf(b) == Cancel;
    assert [Ok, Empty41] + [NodeOf(b)] == [Ok, Empty41] + [Cancel];
    assert [Ok, Empty41] + [Cancel] == [Ok, Empty41, Cancel];
    assert s.rows[4 := [Ok, Empty41, Cancel]] == [[Window], [Frame], [Empty20, Message], [], [Ok, Empty41, Cancel]];
  }

  lemma SampleChild5()
    ensures Project(SampleFrame.children[5], Layout([[Window], [Frame], [Empty20, Message], [], [Ok, Empty41, Cancel]], Cell(4, 5)))
         == Layout(SampleGrid, Cell(5, 5))
  {
    var b, s := SampleFrame.children[5], Layout([[Window], [Frame], [Empty20, Message], [], [Ok, Empty41, Cancel]], Cell(4, 5));
    PlaceLeaf(b, s);
    PlaceBelow(b, s);
    assert s.rows + Empties(0) + [[NodeOf(b)]] == SampleGrid;
  }

  /** A leaf's projection is its placement. */
  lemma PlaceLeaf(b: Block, s: Layout)
    requires b.children == [] && Aligned(s)
    ensures Project(b, s) == Place(b, s)
  {
  }

  /** Placing a block at or before the cursor appends its node to its row. */
  lemma PlaceInRow(b: Block, s: Layout)
    requires Aligned(s) && b.cell.row <= s.cur.row && b.cell.column <= s.cur.column
    ensures Place(b, s) == Layout(s.rows[b.cell.row := s.rows[b.cell.row] + [NodeOf(b)]], s.cur)
  {
    assert s.rows + Empties(0) == s.rows;
    assert s.rows[b.cell.row] + Pads(b.cell.row, b.cell.column, 0) == s.rows[b.cell.row];
  }

  /** Placing a block below the cursor, at or before its column, opens rows
      up to the block's row, which holds just its node. */
  lemma PlaceBelow(b: Block, s: Layout)
    requires Aligned(s) && s.cur.row < b.cell.row && b.cell.column <= s.cur.column
    ensures Place(b, s) == Layout(s.rows + Empties(b.cell.row - s.cur.row - 1) + [[NodeOf(b)]],
                                  Cell(b.cell.row, s.cur.column))
  {
    var rows := s.rows + Empties(b.cell.row - s.cur.row);
    assert rows == s.rows + Empties(b.cell.row - s.cur.row - 1) + [[]];
    assert [] + Pads(b.cell.row, b.cell.column, 0) + [NodeOf(b)] == [NodeOf(b)];
  }
}
