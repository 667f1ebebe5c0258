/** The tree the grid projectors read: blocks anchored at cells, and the
    mutable `Cell` cursor they thread through the walk. The scanner in
    run_scan.py builds blocks without cells, depth or tags; the projectors
    read `block.cell.row`, `block.cell.column`, `block.depth`, `block.tags`
    and `Cell.dup()`, so this is their input on its own terms. */
module Tree {

  /** A (row, column) position. */
  datatype Cell = Cell(row: nat, column: nat)

  /** A block anchored at `cell`, with its ordered children. */
  datatype Block = Block(cell: Cell, color: string, text: string, depth: int,
                         tags: seq<string>, children: seq<Block>)

  /** The mutable `Cell` object the projectors advance in place. */
  class Cursor {
    var row: nat
    var column: nat

    constructor (row: nat, column: nat)
      ensures this.row == row && this.column == column
    {
      this.row := row;
      this.column := column;
    }

    /** `dup()`: a new cursor at the same position. */
    method Dup() returns (c: Cursor)
      ensures fresh(c)
      ensures c.row == row && c.column == column
    {
      c := new Cursor(row, column);
    }
  }

  /** The blocks of the tree in depth-first, source order: the order in which
      `build_grid` visits them. */
  function PreOrder(b: Block): (r: seq<Block>)
    ensures |r| >= 1 && r[0] == b
    decreases b, 1
  {
    [b] + PreOrderFrom(b, 0)
  }

  /** The pre-order of the children of b from the i-th on. */
  function PreOrderFrom(b: Block, i: nat): seq<Block>
    requires i <= |b.children|
    decreases b, 0, |b.children| - i
  {
    if i == |b.children| then [] else PreOrder(b.children[i]) + PreOrderFrom(b, i + 1)
  }

  /** The largest row any block of the tree is anchored at. */
  function MaxRow(b: Block): (r: nat)
    ensures r >= b.cell.row
    decreases b, 1
  {
    Max(b.cell.row, MaxRowFrom(b, 0))
  }

  /** The largest row of the children of b from the i-th on (0 when none). */
  function MaxRowFrom(b: Block, i: nat): nat
    requires i <= |b.children|
    decreases b, 0, |b.children| - i
  {
    if i == |b.children| then 0 else Max(MaxRow(b.children[i]), MaxRowFrom(b, i + 1))
  }

  function Max(a: nat, b: nat): nat
  {
    if a < b then b else a
  }

  /** The number of steps of `while a < b: a += 1`. */
  function Gap(a: nat, b: nat): nat
  {
    if a < b then b - a else 0
  }

  /** The `n` empty rows `while last.row < row: grid.append([])` opens. */
  function Empties<T>(n: nat): (r: seq<seq<T>>)
    ensures |r| == n && forall k :: 0 <= k < n ==> r[k] == []
  {
    if n == 0 then [] else Empties(n - 1) + [[]]
  }

  /** The blocks of the i-th child's subtree are blocks of the tree. */
  lemma {:induction false} ChildSubtree(b: Block, i: nat, x: Block)
    requires i < |b.children| && x in PreOrder(b.children[i])
    ensures x in PreOrder(b)
  {
    FromSubtree(b, 0, i, x);
  }

  lemma {:induction false} FromSubtree(b: Block, j: nat, i: nat, x: Block)
    requires j <= i < |b.children| && x in PreOrder(b.children[i])
    ensures x in PreOrderFrom(b, j)
    decreases i - j
  {
    if j < i {
      FromSubtree(b, j + 1, i, x);
    }
  }

  /** Every block of the tree lies at or above MaxRow. */
  lemma {:induction false} RowBelowMax(b: Block, x: Block)
    requires x in PreOrder(b)
    ensures x.cell.row <= MaxRow(b)
    decreases b, 1
  {
    if x != b {
      RowBelowMaxFrom(b, 0, x);
    }
  }

  lemma {:induction false} RowBelowMaxFrom(b: Block, i: nat, x: Block)
    requires i <= |b.children| && x in PreOrderFrom(b, i)
    ensures x.cell.row <= MaxRowFrom(b, i)
    decreases b, 0, |b.children| - i
  {
    if x in PreOrder(b.children[i]) {
      RowBelowMax(b.children[i], x);
    } else {
      RowBelowMaxFrom(b, i + 1, x);
    }
  }
}
