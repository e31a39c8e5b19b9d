/** The cell grid of the simulator: a row-major byte matrix whose reads treat
    everything outside the grid as dead. */
module Grid {

  /** An unsigned 8-bit value, the element type of the cell matrix. */
  type u8 = x: int | 0 <= x < 256

  /** Multiplying by a natural number is monotonic. */
  lemma {:induction false} MulMono(a: nat, b: nat, d: nat)
    requires a <= b
    ensures a * d <= b * d
    decreases b - a
  {
    if a < b {
      MulMono(a, b - 1, d);
      assert b * d == (b - 1) * d + d;
    }
  }

  /** The row-major index of an in-grid cell lies inside the matrix. */
  lemma IndexInRange(row: nat, col: nat, rows: nat, cols: nat)
    requires row < rows && col < cols
    ensures row * cols + col < rows * cols
  {
    MulMono(row + 1, rows, cols);
    assert (row + 1) * cols == row * cols + cols;
  }

  /** Row-major indexing is inverted by division and remainder. */
  lemma IndexSplit(row: nat, col: nat, cols: nat)
    requires col < cols
    ensures (row * cols + col) / cols == row
    ensures (row * cols + col) % cols == col
  {
    var i := row * cols + col;
    var q, m := i / cols, i % cols;
    assert q * cols + m == i;
    if q > row {
      MulMono(row + 1, q, cols);
    } else if q < row {
      MulMono(q + 1, row, cols);
    }
    assert q == row;
  }

  /** A flat index below rows * cols names a cell of the grid. */
  lemma IndexSplitInRange(i: nat, rows: nat, cols: nat)
    requires i < rows * cols
    ensures cols > 0
    ensures i / cols < rows && i % cols < cols
    ensures i == (i / cols) * cols + i % cols
  {
    if cols == 0 {
      assert false;
    }
    var q := i / cols;
    if q >= rows {
      MulMono(rows, q, cols);
    }
  }

  /** The value of a grid: its dimensions and its cells, row-major. */
  datatype Board = Board(rows: nat, cols: nat, cells: seq<u8>) {

    /** The length invariant every grid keeps. */
    predicate WellFormed() {
      |cells| == rows * cols
    }

    /** Every cell is dead (0) or alive (1). */
    predicate Binary() {
      forall i :: 0 <= i < |cells| ==> cells[i] <= 1
    }

    predicate Valid() {
      WellFormed() && Binary()
    }

    predicate InGrid(row: int, col: int) {
      0 <= row < rows && 0 <= col < cols
    }

    /** The cell at (row, col); a coordinate outside the grid reads as dead. */
    function At(row: int, col: int): u8
      requires WellFormed()
    {
      if row < 0 || col < 0 || row >= rows || col >= cols then 0
      else IndexInRange(row, col, rows, cols); cells[row * cols + col]
    }
  }

  /** On a board of dead and live cells every padded read is 0 or 1. */
  lemma AtBinary(b: Board, row: int, col: int)
    requires b.Valid()
    ensures b.At(row, col) <= 1
  {
    if b.InGrid(row, col) {
      IndexInRange(row, col, b.rows, b.cols);
    }
  }

  /** A board whose every cell is dead. */
  function EmptyCells(n: nat): (s: seq<u8>)
    ensures |s| == n && forall i :: 0 <= i < n ==> s[i] == 0
  {
    seq(n, _ => 0)
  }

  /** The grid object. Its dimensions and its buffer are fixed when it is
      built; the cells are written in place. */
  class MatGol {
    const rows: nat
    const cols: nat
    const matrix: array<u8>

    /** The grid's current value. */
    function Model(): Board
      reads matrix
    {
      Board(rows, cols, matrix[..])
    }

    /** The grid invariant: rows * cols cells, each 0 or 1. */
    ghost predicate Valid()
      reads matrix
    {
      Model().Valid()
    }

    /** An all-dead grid of the given dimensions. */
    constructor Empty(rows: nat, cols: nat)
      ensures this.rows == rows && this.cols == cols
      ensures fresh(matrix)
      ensures Model().cells == EmptyCells(rows * cols)
      ensures Valid()
    {
      this.rows := rows;
      this.cols := cols;
      matrix := new u8[cols * rows](_ => 0);
    }

    /** Bounds-checked read: any coordinate outside the grid reads as dead. */
    function At(row: int, col: int): (v: u8)
      reads matrix
      requires matrix.Length == rows * cols
      ensures row < 0 || col < 0 || row >= rows || col >= cols ==> v == 0
      ensures v == Model().At(row, col)
    {
      if row < 0 || col < 0 || row >= rows || col >= cols then 0
      else
        IndexInRange(row, col, rows, cols);
        matrix[row * cols + col]
    }

    /** Raw read at the flat index row * cols + col; only that index is
        checked, so a column past the end reads the next row. */
    function AtUnchecked(row: nat, col: nat): (v: u8)
      reads matrix
      requires row * cols + col < matrix.Length
      ensures matrix.Length == rows * cols && row < rows && col < cols ==> v == At(row, col)
      ensures v == Model().cells[row * cols + col]
    {
      matrix[row * cols + col]
    }

    /** Writes v through the reference that `at_mut(row, col)` hands out. */
    method AtMut(row: nat, col: nat, v: u8)
      requires row * cols + col < matrix.Length
      modifies matrix
      ensures matrix[..] == old(matrix[..])[row * cols + col := v]
    {
      matrix[row * cols + col] := v;
    }

    /** Sets the cell at (row, col) alive. */
    method Live(row: nat, col: nat)
      requires row * cols + col < matrix.Length
      modifies matrix
      ensures matrix[..] == old(matrix[..])[row * cols + col := 1]
      ensures old(Valid()) ==> Valid()
    {
      AtMut(row, col, 1);
    }

    /** Sets the cell at (row, col) dead. */
    method Dead(row: nat, col: nat)
      requires row * cols + col < matrix.Length
      modifies matrix
      ensures matrix[..] == old(matrix[..])[row * cols + col := 0]
      ensures old(Valid()) ==> Valid()
    {
      AtMut(row, col, 0);
    }
  }
}
