/** The generation step: a 3x3 convolution over the padded grid followed by a
    test on the convolution sum. */
module Engine {
  import opened Grid

  /** The kernel: every neighbour weighs 1, the centre weighs 10. */
  const Filter: seq<seq<u8>> := [[1, 1, 1], [1, 10, 1], [1, 1, 1]]

  /** Term k (0 <= k < 9) of the convolution at (row, col); the kernel is
      walked row by row, as the nested conv_row / conv_col loops do. */
  function Term(b: Board, row: int, col: int, k: nat): int
    requires b.WellFormed() && k < 9
  {
    Filter[k / 3][k % 3] * b.At(row + k / 3 - 1, col + k % 3 - 1)
  }

  /** The sum of the first k terms of the convolution at (row, col). */
  function PartialConvolution(b: Board, row: int, col: int, k: nat): int
    requires b.WellFormed() && k <= 9
  {
    if k == 0 then 0 else PartialConvolution(b, row, col, k - 1) + Term(b, row, col, k - 1)
  }

  /** The convolution sum at (row, col): the kernel-weighted sum of the 3x3
      window centred there, accumulated in kernel order. */
  function Convolution(b: Board, row: int, col: int): int
    requires b.WellFormed()
  {
    PartialConvolution(b, row, col, 9)
  }

  /** The textbook count of live cells among the eight neighbours of
      (row, col); neighbours outside the grid are dead. */
  function NeighbourCount(b: Board, row: int, col: int): int
    requires b.WellFormed()
  {
    b.At(row - 1, col - 1) + b.At(row - 1, col) + b.At(row - 1, col + 1) +
    b.At(row, col - 1) + b.At(row, col + 1) +
    b.At(row + 1, col - 1) + b.At(row + 1, col) + b.At(row + 1, col + 1)
  }

  /** The sums that make a cell alive in the next generation. */
  predicate IsAlive(convolution: int) {
    convolution == 3 || convolution == 12 || convolution == 13
  }

  /** Conway's B3/S23 rule: a dead cell is born with exactly three live
      neighbours; a live cell survives with two or three. */
  predicate ConwayRule(alive: bool, neighbours: int) {
    if alive then neighbours == 2 || neighbours == 3 else neighbours == 3
  }

  /** The next state of the cell at (row, col). */
  function NextCell(b: Board, row: int, col: int): u8
    requires b.WellFormed()
  {
    if IsAlive(Convolution(b, row, col)) then 1 else 0
  }

  /** The successor board: every cell takes its next state. */
  function Step(b: Board): (r: Board)
    requires b.WellFormed()
    ensures r.rows == b.rows && r.cols == b.cols && r.Valid()
  {
    Board(b.rows, b.cols, seq(b.rows * b.cols, i requires 0 <= i < b.rows * b.cols =>
      IndexSplitInRange(i, b.rows, b.cols);
      NextCell(b, i / b.cols, i % b.cols)))
  }

  /** Every term of the convolution over dead and live cells is non-negative. */
  lemma TermNonNegative(b: Board, row: int, col: int, k: nat)
    requires b.Valid() && k < 9
    ensures 0 <= Term(b, row, col, k)
  {
  }

  /** Partial sums over dead and live cells are non-negative. */
  lemma {:induction false} PartialConvolutionNonNegative(b: Board, row: int, col: int, k: nat)
    requires b.Valid() && k <= 9
    ensures 0 <= PartialConvolution(b, row, col, k)
  {
    if k > 0 {
      PartialConvolutionNonNegative(b, row, col, k - 1);
      TermNonNegative(b, row, col, k - 1);
    }
  }

  /** The partial sums grow with k up to the full convolution sum, which
      never passes 18: an 8-bit accumulator cannot overflow. */
  lemma {:induction false} PartialConvolutionBound(b: Board, row: int, col: int, k: nat)
    requires b.Valid() && k <= 9
    ensures 0 <= PartialConvolution(b, row, col, k) <= Convolution(b, row, col) <= 18
    decreases 9 - k
  {
    PartialConvolutionNonNegative(b, row, col, k);
    if k < 9 {
      PartialConvolutionBound(b, row, col, k + 1);
      TermNonNegative(b, row, col, k);
    } else {
      ConvolutionSplit(b, row, col);
      MagicSum(b, row, col);
      AtBinary(b, row, col);
    }
  }

  /** Each kernel step can only add to the accumulated sum. */
  lemma PartialConvolutionGrows(b: Board, row: int, col: int, k: nat)
    requires b.Valid() && k < 9
    ensures PartialConvolution(b, row, col, k) <= PartialConvolution(b, row, col, k + 1)
  {
    TermNonNegative(b, row, col, k);
  }

  /** The convolution sum is ten times the centre plus the neighbour count. */
  lemma ConvolutionSplit(b: Board, row: int, col: int)
    requires b.WellFormed()
    ensures Convolution(b, row, col) == 10 * b.At(row, col) + NeighbourCount(b, row, col)
  {
    assert Term(b, row, col, 0) == b.At(row - 1, col - 1);
    assert Term(b, row, col, 1) == b.At(row - 1, col);
    assert Term(b, row, col, 2) == b.At(row - 1, col + 1);
    assert Term(b, row, col, 3) == b.At(row, col - 1);
    assert Term(b, row, col, 4) == 10 * b.At(row, col);
    assert Term(b, row, col, 5) == b.At(row, col + 1);
    assert Term(b, row, col, 6) == b.At(row + 1, col - 1);
    assert Term(b, row, col, 7) == b.At(row + 1, col);
    assert Term(b, row, col, 8) == b.At(row + 1, col + 1);
    assert PartialConvolution(b, row, col, 1) == Term(b, row, col, 0);
    assert PartialConvolution(b, row, col, 2) == PartialConvolution(b, row, col, 1) + Term(b, row, col, 1);
    assert PartialConvolution(b, row, col, 3) == PartialConvolution(b, row, col, 2) + Term(b, row, col, 2);
    assert PartialConvolution(b, row, col, 4) == PartialConvolution(b, row, col, 3) + Term(b, row, col, 3);
    assert PartialConvolution(b, row, col, 5) == PartialConvolution(b, row, col, 4) + Term(b, row, col, 4);
    assert PartialConvolution(b, row, col, 6) == PartialConvolution(b, row, col, 5) + Term(b, row, col, 5);
    assert PartialConvolution(b, row, col, 7) == PartialConvolution(b, row, col, 6) + Term(b, row, col, 6);
    assert PartialConvolution(b, row, col, 8) == PartialConvolution(b, row, col, 7) + Term(b, row, col, 7);
    assert PartialConvolution(b, row, col, 9) == PartialConvolution(b, row, col, 8) + Term(b, row, col, 8);
  }

  /** The sum test agrees with Conway's rule on every board of dead and live
      cells: the centre's weight 10 keeps "alive" and "neighbour count" apart. */
  lemma MagicSum(b: Board, row: int, col: int)
    requires b.Valid()
    ensures IsAlive(Convolution(b, row, col)) <==> ConwayRule(b.At(row, col) == 1, NeighbourCount(b, row, col))
    ensures 0 <= NeighbourCount(b, row, col) <= 8
  {
    ConvolutionSplit(b, row, col);
    AtBinary(b, row - 1, col - 1); AtBinary(b, row - 1, col); AtBinary(b, row - 1, col + 1);
    AtBinary(b, row, col - 1); AtBinary(b, row, col); AtBinary(b, row, col + 1);
    AtBinary(b, row + 1, col - 1); AtBinary(b, row + 1, col); AtBinary(b, row + 1, col + 1);
  }

  /** The successor's cell at the flat index of an in-grid (row, col) is NextCell. */
  lemma StepCellAt(b: Board, row: nat, col: nat)
    requires b.WellFormed() && b.InGrid(row, col)
    ensures row * b.cols + col < |Step(b).cells|
    ensures Step(b).cells[row * b.cols + col] == NextCell(b, row, col)
  {
    IndexInRange(row, col, b.rows, b.cols);
    IndexSplit(row, col, b.cols);
  }

  /** The successor's cell at an in-grid (row, col) is NextCell. */
  lemma StepAt(b: Board, row: int, col: int)
    requires b.WellFormed() && b.InGrid(row, col)
    ensures Step(b).At(row, col) == NextCell(b, row, col)
  {
    StepCellAt(b, row, col);
  }

  /** One generation follows Conway's B3/S23 rule at every cell. */
  lemma StepIsConway(b: Board, row: int, col: int)
    requires b.Valid() && b.InGrid(row, col)
    ensures Step(b).At(row, col) <= 1
    ensures Step(b).At(row, col) == 1 <==> ConwayRule(b.At(row, col) == 1, NeighbourCount(b, row, col))
  {
    StepAt(b, row, col);
    MagicSum(b, row, col);
  }

  /** A board with no live cell stays without one. */
  lemma AllDeadStaysDead(b: Board)
    requires b.WellFormed() && b.cells == EmptyCells(|b.cells|)
    ensures Step(b).cells == b.cells
  {
    forall i | 0 <= i < |b.cells|
      ensures Step(b).cells[i] == 0
    {
      IndexSplitInRange(i, b.rows, b.cols);
      var row, col := i / b.cols, i % b.cols;
      forall r, c | b.InGrid(r, c) ensures b.At(r, c) == 0 {
        IndexInRange(r, c, b.rows, b.cols);
      }
      ConvolutionSplit(b, row, col);
    }
  }

  /** The cell at (row, col) keeps its state under Conway's rule. */
  predicate ConwayFixed(b: Board, row: int, col: int)
    requires b.WellFormed()
  {
    ConwayRule(b.At(row, col) == 1, NeighbourCount(b, row, col)) <==> b.At(row, col) == 1
  }

  /** The cell at flat index i keeps its state when its coordinates are
      Conway-fixed, and only then. */
  lemma StepKeepsCell(b: Board, i: nat)
    requires b.Valid() && i < |b.cells|
    ensures b.cols > 0 && b.InGrid(i / b.cols, i % b.cols)
    ensures Step(b).cells[i] == b.cells[i] <==> ConwayFixed(b, i / b.cols, i % b.cols)
  {
    IndexSplitInRange(i, b.rows, b.cols);
    var row, col := i / b.cols, i % b.cols;
    assert i == row * b.cols + col;
    StepIsConway(b, row, col);
    IndexInRange(row, col, b.rows, b.cols);
    assert b.At(row, col) == b.cells[i];
    assert Step(b).At(row, col) == Step(b).cells[i];
    assert b.cells[i] <= 1;
  }

  /** A board on which Conway's rule keeps every cell is a still life. */
  lemma StillLifeIf(b: Board)
    requires b.Valid()
    requires forall row, col :: b.InGrid(row, col) ==> ConwayFixed(b, row, col)
    ensures Step(b) == b
  {
    forall i | 0 <= i < |b.cells|
      ensures Step(b).cells[i] == b.cells[i]
    {
      StepKeepsCell(b, i);
    }
    assert Step(b).cells == b.cells;
  }

  /** On a still life Conway's rule keeps every cell. */
  lemma StillLifeOnlyIf(b: Board, row: int, col: int)
    requires b.Valid() && Step(b) == b && b.InGrid(row, col)
    ensures ConwayFixed(b, row, col)
  {
    IndexInRange(row, col, b.rows, b.cols);
    IndexSplit(row, col, b.cols);
    StepKeepsCell(b, row * b.cols + col);
  }

  /** A board is a still life exactly when Conway's rule keeps every one of
      its cells. */
  lemma StillLife(b: Board)
    requires b.Valid()
    ensures Step(b) == b <==> forall row, col :: b.InGrid(row, col) ==> ConwayFixed(b, row, col)
  {
    if forall row, col :: b.InGrid(row, col) ==> ConwayFixed(b, row, col) {
      StillLifeIf(b);
    }
    if Step(b) == b {
      forall row, col | b.InGrid(row, col)
        ensures ConwayFixed(b, row, col)
      {
        StillLifeOnlyIf(b, row, col);
      }
    }
  }

  /** A rows x cols board whose live cells are exactly those listed. */
  function Pattern(rows: nat, cols: nat, live: set<(int, int)>): (b: Board)
    ensures b.Valid() && b.rows == rows && b.cols == cols
  {
    Board(rows, cols, seq(rows * cols, i requires 0 <= i < rows * cols =>
      IndexSplitInRange(i, rows, cols);
      if (i / cols, i % cols) in live then 1 else 0))
  }

  /** A 2x2 block of live cells in the middle of a 4x4 grid. */
  const Block: Board := Pattern(4, 4, {(1, 1), (1, 2), (2, 1), (2, 2)})

  /** Three live cells around the dead centre of a 3x3 grid. */
  const Corner: Board := Pattern(3, 3, {(0, 0), (0, 1), (1, 0)})

  /** One live cell in the middle of a 5x5 grid. */
  const Lonely: Board := Pattern(5, 5, {(2, 2)})

  /** The block is a still life: one generation leaves it as it is. */
  lemma BlockIsStill()
    ensures Step(Block) == Block
  {
    assert Block.At(0, 0) == 0; assert Block.At(0, 1) == 0; assert Block.At(0, 2) == 0; assert Block.At(0, 3) == 0;
    assert Block.At(1, 0) == 0; assert Block.At(1, 1) == 1; assert Block.At(1, 2) == 1; assert Block.At(1, 3) == 0;
    assert Block.At(2, 0) == 0; assert Block.At(2, 1) == 1; assert Block.At(2, 2) == 1; assert Block.At(2, 3) == 0;
    assert Block.At(3, 0) == 0; assert Block.At(3, 1) == 0; assert Block.At(3, 2) == 0; assert Block.At(3, 3) == 0;
    forall row, col | Block.InGrid(row, col)
      ensures ConwayFixed(Block, row, col)
    {
      assert row == 0 || row == 1 || row == 2 || row == 3;
      assert col == 0 || col == 1 || col == 2 || col == 3;
    }
    StillLife(Block);
  }

  /** A dead cell with exactly three live neighbours is born. */
  lemma BirthOnThree()
    ensures Corner.At(1, 1) == 0 && NeighbourCount(Corner, 1, 1) == 3
    ensures Step(Corner).At(1, 1) == 1
  {
    assert Corner.At(0, 0) == 1; assert Corner.At(0, 1) == 1; assert Corner.At(0, 2) == 0;
    assert Corner.At(1, 0) == 1; assert Corner.At(1, 1) == 0; assert Corner.At(1, 2) == 0;
    assert Corner.At(2, 0) == 0; assert Corner.At(2, 1) == 0; assert Corner.At(2, 2) == 0;
    StepIsConway(Corner, 1, 1);
  }

  /** An isolated live cell dies. */
  lemma IsolatedCellDies()
    ensures Lonely.At(2, 2) == 1 && NeighbourCount(Lonely, 2, 2) == 0
    ensures Step(Lonely).At(2, 2) == 0
  {
    assert Lonely.At(1, 1) == 0; assert Lonely.At(1, 2) == 0; assert Lonely.At(1, 3) == 0;
    assert Lonely.At(2, 1) == 0; assert Lonely.At(2, 2) == 1; assert Lonely.At(2, 3) == 0;
    assert Lonely.At(3, 1) == 0; assert Lonely.At(3, 2) == 0; assert Lonely.At(3, 3) == 0;
    StepIsConway(Lonely, 2, 2);
  }

  /** Adding the weighted cell under kernel entry (convRow, convCol) moves the
      accumulated sum one term on, and the sum still fits in 8 bits. */
  lemma AccumulateTerm(b: Board, row: int, col: int, convRow: nat, convCol: nat)
    requires b.Valid() && convRow < 3 && convCol < 3
    ensures PartialConvolution(b, row, col, 3 * convRow + convCol + 1) ==
      PartialConvolution(b, row, col, 3 * convRow + convCol) +
      Filter[convRow][convCol] * b.At(row + convRow - 1, col + convCol - 1)
    ensures PartialConvolution(b, row, col, 3 * convRow + convCol + 1) <= 18
    ensures Filter[convRow][convCol] == if convRow == 1 && convCol == 1 then 10 else 1
  {
    var k := 3 * convRow + convCol;
    assert k / 3 == convRow && k % 3 == convCol;
    PartialConvolutionBound(b, row, col, k + 1);
  }

  /** The convolution at (row, col) of a grid, computed by the nested kernel
      loops into an 8-bit accumulator. */
  method ConvolveAt(gol: MatGol, row: nat, col: nat) returns (convolution: u8)
    requires gol.Valid()
    ensures convolution == Convolution(gol.Model(), row, col)
  {
    ghost var b := gol.Model();
    convolution := 0;
    for convRow := 0 to 3
      invariant convolution == PartialConvolution(b, row, col, 3 * convRow)
    {
      for convCol := 0 to 3
        invariant convolution == PartialConvolution(b, row, col, 3 * convRow + convCol)
      {
        var cell := gol.At(row + convRow - 1, col + convCol - 1);
        AccumulateTerm(b, row, col, convRow, convCol);
        convolution := convolution + Filter[convRow][convCol] * cell;
      }
    }
  }

  /** The first n cells of s already hold the successor's cells and the
      rest are still dead. */
  ghost predicate Filled(s: seq<u8>, want: seq<u8>, n: nat) {
    |s| == |want| && n <= |s| &&
    (forall i :: 0 <= i < n ==> s[i] == want[i]) &&
    (forall i :: n <= i < |s| ==> s[i] == 0)
  }

  /** Storing the next wanted cell, or skipping a dead one, extends the
      filled prefix by one. */
  lemma FillOne(s: seq<u8>, want: seq<u8>, n: nat)
    requires Filled(s, want, n) && n < |want|
    ensures Filled(s[n := want[n]], want, n + 1)
    ensures want[n] == 0 ==> Filled(s, want, n + 1)
  {
  }

  /** The next generation, in a freshly allocated grid of the same size. */
  method Next(gol: MatGol) returns (result: MatGol)
    requires gol.Valid()
    ensures fresh(result) && fresh(result.matrix)
    ensures result.Valid()
    ensures result.Model() == Step(gol.Model())
  {
    ghost var b := gol.Model();
    ghost var want := Step(b).cells;
    result := new MatGol.Empty(gol.rows, gol.cols);
    for row := 0 to gol.rows
      invariant fresh(result.matrix) && result.rows == gol.rows && result.cols == gol.cols
      invariant Filled(result.matrix[..], want, row * gol.cols)
    {
      ghost var base := row * gol.cols;
      MulMono(row, gol.rows, gol.cols);
      for col := 0 to gol.cols
        invariant Filled(result.matrix[..], want, base + col)
      {
        var convolution := ConvolveAt(gol, row, col);
        var isAlive := match convolution
          case 3 => true
          case 12 | 13 => true
          case _ => false;
        StepCellAt(b, row, col);
        FillOne(result.matrix[..], want, base + col);
        if isAlive {
          result.Live(row, col);
        }
      }
      assert (row + 1) * gol.cols == base + gol.cols;
    }
    assert result.matrix[..] == want;
  }
}
