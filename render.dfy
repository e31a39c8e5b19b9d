/** The half-resolution renderer: every terminal character shows two
    vertically stacked cells, picked from a table of four block glyphs. */
module Render {
  import opened Grid

  /** The glyph table: blank, upper half, lower half, full block. */
  const Charmap: seq<char> := [' ', '▀', '▄', '█']

  /** The range lo, lo + 2, lo + 4, ... below hi. */
  function StepBy2(lo: nat, hi: nat): (s: seq<nat>)
    decreases hi - lo
  {
    if lo >= hi then [] else [lo] + StepBy2(lo + 2, hi)
  }

  /** Pairs up two sequences, stopping at the end of the shorter one. */
  function Zip<A, B>(a: seq<A>, b: seq<B>): (z: seq<(A, B)>)
    decreases |a|
  {
    if |a| == 0 || |b| == 0 then [] else [(a[0], b[0])] + Zip(a[1..], b[1..])
  }

  lemma {:induction false} StepBy2Shape(lo: nat, hi: nat)
    ensures |StepBy2(lo, hi)| == if lo >= hi then 0 else (hi - lo + 1) / 2
    ensures forall i :: 0 <= i < |StepBy2(lo, hi)| ==> StepBy2(lo, hi)[i] == lo + 2 * i
    decreases hi - lo
  {
    if lo < hi {
      StepBy2Shape(lo + 2, hi);
    }
  }

  lemma {:induction false} ZipShape<A, B>(a: seq<A>, b: seq<B>)
    ensures |Zip(a, b)| == if |a| < |b| then |a| else |b|
    ensures forall i :: 0 <= i < |Zip(a, b)| ==> Zip(a, b)[i] == (a[i], b[i])
    decreases |a|
  {
    if |a| != 0 && |b| != 0 {
      ZipShape(a[1..], b[1..]);
    }
  }

  /** The row pairs the renderer visits: the even rows zipped with the odd
      rows. */
  function RowPairs(rows: nat): seq<(nat, nat)> {
    Zip(StepBy2(0, rows), StepBy2(1, rows))
  }

  /** Row pair y is (2y, 2y + 1), and there are rows / 2 of them: an odd last
      row has no partner and is dropped. */
  lemma RowPairsShape(rows: nat)
    ensures |RowPairs(rows)| == rows / 2
    ensures forall y :: 0 <= y < rows / 2 ==> RowPairs(rows)[y] == (2 * y, 2 * y + 1)
  {
    StepBy2Shape(0, rows);
    StepBy2Shape(1, rows);
    ZipShape(StepBy2(0, rows), StepBy2(1, rows));
  }

  /** The glyph index of column col of the row pair (r1, r2), read without the
      border check. */
  function GlyphIndex(b: Board, r1: nat, r2: nat, col: nat): int
    requires b.WellFormed() && r1 < b.rows && r2 < b.rows && col < b.cols
  {
    IndexInRange(r1, col, b.rows, b.cols);
    IndexInRange(r2, col, b.rows, b.cols);
    b.cells[r1 * b.cols + col] as int + b.cells[r2 * b.cols + col] as int * 2
  }

  /** The glyph indices of one row pair, one per column. */
  function IndexLine(b: Board, r1: nat, r2: nat): seq<int>
    requires b.WellFormed() && r1 < b.rows && r2 < b.rows
  {
    seq(b.cols, col requires 0 <= col < b.cols => GlyphIndex(b, r1, r2, col))
  }

  /** The screen as glyph indices: one line per row pair. */
  function RenderIndices(b: Board): (lines: seq<seq<int>>)
    requires b.WellFormed()
    ensures |lines| == b.rows / 2
    ensures forall y :: 0 <= y < |lines| ==> |lines[y]| == b.cols
  {
    var pairs := RowPairs(b.rows);
    RowPairsShape(b.rows);
    seq(|pairs|, y requires 0 <= y < |pairs| => IndexLine(b, pairs[y].0, pairs[y].1))
  }

  /** The screen as characters. */
  function RenderGlyphs(b: Board): (screen: seq<seq<char>>)
    requires b.Valid()
    ensures |screen| == b.rows / 2
    ensures forall y :: 0 <= y < |screen| ==> |screen[y]| == b.cols
  {
    var lines := RenderIndices(b);
    seq(|lines|, y requires 0 <= y < |lines| =>
      seq(b.cols, col requires 0 <= col < b.cols =>
        RenderIndicesAt(b, y, col);
        Charmap[lines[y][col]]))
  }

  /** Line y of the screen shows the row pair (2y, 2y + 1). */
  lemma RenderLine(b: Board, y: nat)
    requires b.WellFormed() && y < b.rows / 2
    ensures 2 * y + 1 < b.rows
    ensures RenderIndices(b)[y] == IndexLine(b, 2 * y, 2 * y + 1)
  {
    RowPairsShape(b.rows);
  }

  /** The glyph index of two cells of a binary board is in 0..3. */
  lemma GlyphIndexBound(b: Board, r1: nat, r2: nat, col: nat)
    requires b.Valid() && r1 < b.rows && r2 < b.rows && col < b.cols
    ensures GlyphIndex(b, r1, r2, col) == b.At(r1, col) + 2 * b.At(r2, col)
    ensures 0 <= GlyphIndex(b, r1, r2, col) <= 3
  {
    IndexInRange(r1, col, b.rows, b.cols);
    IndexInRange(r2, col, b.rows, b.cols);
  }

  /** The renderer emits rows / 2 lines of cols indices; the index at (y, col)
      packs cell (2y, col) as its low bit and cell (2y + 1, col) as its high
      bit. */
  lemma RenderIndicesAt(b: Board, y: nat, col: nat)
    requires b.Valid() && y < b.rows / 2 && col < b.cols
    ensures |RenderIndices(b)[y]| == b.cols
    ensures RenderIndices(b)[y][col] == b.At(2 * y, col) + 2 * b.At(2 * y + 1, col)
    ensures 0 <= RenderIndices(b)[y][col] <= 3
  {
    RenderLine(b, y);
    GlyphIndexBound(b, 2 * y, 2 * y + 1, col);
  }

  /** Decoding a glyph index gives back the two cells it shows. */
  lemma GlyphIndexDecodes(b: Board, y: nat, col: nat)
    requires b.Valid() && y < b.rows / 2 && col < b.cols
    ensures RenderIndices(b)[y][col] % 2 == b.At(2 * y, col)
    ensures RenderIndices(b)[y][col] / 2 == b.At(2 * y + 1, col)
  {
    RenderIndicesAt(b, y, col);
    AtBinary(b, 2 * y, col);
    AtBinary(b, 2 * y + 1, col);
    var top, bottom := b.At(2 * y, col), b.At(2 * y + 1, col);
    if top == 0 && bottom == 0 {
      assert RenderIndices(b)[y][col] == 0;
    } else if top == 1 && bottom == 0 {
      assert RenderIndices(b)[y][col] == 1;
    } else if top == 0 {
      assert RenderIndices(b)[y][col] == 2;
    } else {
      assert RenderIndices(b)[y][col] == 3;
    }
  }

  /** The glyph at (y, col) is the table entry of the glyph index. */
  lemma RenderGlyphsAt(b: Board, y: nat, col: nat)
    requires b.Valid() && y < b.rows / 2 && col < b.cols
    ensures 2 * y + 1 < b.rows
    ensures 0 <= GlyphIndex(b, 2 * y, 2 * y + 1, col) <= 3
    ensures RenderGlyphs(b)[y][col] == Charmap[GlyphIndex(b, 2 * y, 2 * y + 1, col)]
  {
    RenderLine(b, y);
    GlyphIndexBound(b, 2 * y, 2 * y + 1, col);
  }

  /** Each glyph tells the two cells apart: blank for two dead cells, the
      upper half for a live top cell only, the lower half for a live bottom
      cell only, the full block for two live cells. */
  lemma GlyphShowsCells(b: Board, y: nat, col: nat)
    requires b.Valid() && y < b.rows / 2 && col < b.cols
    ensures RenderGlyphs(b)[y][col] ==
      if b.At(2 * y, col) == 0 && b.At(2 * y + 1, col) == 0 then ' '
      else if b.At(2 * y + 1, col) == 0 then '▀'
      else if b.At(2 * y, col) == 0 then '▄'
      else '█'
  {
    RenderGlyphsAt(b, y, col);
    GlyphIndexBound(b, 2 * y, 2 * y + 1, col);
    AtBinary(b, 2 * y, col);
    AtBinary(b, 2 * y + 1, col);
  }

  /** The board without its last row. */
  function DropLastRow(b: Board): (r: Board)
    requires b.Valid() && b.rows > 0
    ensures r.Valid() && r.rows == b.rows - 1 && r.cols == b.cols
  {
    MulMono(b.rows - 1, b.rows, b.cols);
    assert b.rows * b.cols == (b.rows - 1) * b.cols + b.cols;
    Board(b.rows - 1, b.cols, b.cells[..(b.rows - 1) * b.cols])
  }

  /** A row pair above the last row reads the same with or without it. */
  lemma IndexLineDropLastRow(b: Board, r1: nat, r2: nat)
    requires b.Valid() && b.rows > 0 && r1 < b.rows - 1 && r2 < b.rows - 1
    ensures IndexLine(DropLastRow(b), r1, r2) == IndexLine(b, r1, r2)
  {
    var d := DropLastRow(b);
    forall col | 0 <= col < b.cols
      ensures GlyphIndex(d, r1, r2, col) == GlyphIndex(b, r1, r2, col)
    {
      IndexInRange(r1, col, d.rows, d.cols);
      IndexInRange(r2, col, d.rows, d.cols);
    }
  }

  /** An odd last row is never shown: dropping it leaves the screen as it
      was. */
  lemma OddLastRowDropped(b: Board)
    requires b.Valid() && b.rows % 2 == 1
    ensures RenderIndices(DropLastRow(b)) == RenderIndices(b)
  {
    var d := DropLastRow(b);
    var lines, dlines := RenderIndices(b), RenderIndices(d);
    forall y | 0 <= y < |lines|
      ensures dlines[y] == lines[y]
    {
      RenderLine(b, y);
      RenderLine(d, y);
      IndexLineDropLastRow(b, 2 * y, 2 * y + 1);
    }
  }

  /** A 2x1 grid renders as a single glyph chosen by its two cells. */
  lemma TwoByOne(top: u8, bottom: u8)
    requires top <= 1 && bottom <= 1
    ensures RenderGlyphs(Board(2, 1, [top, bottom])) == [[Charmap[top + 2 * bottom]]]
  {
    var b := Board(2, 1, [top, bottom]);
    var screen := RenderGlyphs(b);
    RenderGlyphsAt(b, 0, 0);
    assert b.At(0, 0) == top && b.At(1, 0) == bottom;
    assert |screen| == 1 && |screen[0]| == 1;
    assert screen[0] == [Charmap[top + 2 * bottom]];
  }

  /** The four 2x1 grids: dead over live shows the lower half, live over live
      the full block, dead over dead a blank, live over dead the upper half. */
  lemma TwoByOneExamples()
    ensures RenderGlyphs(Board(2, 1, [0, 1])) == [['▄']]
    ensures RenderGlyphs(Board(2, 1, [1, 1])) == [['█']]
    ensures RenderGlyphs(Board(2, 1, [0, 0])) == [[' ']]
    ensures RenderGlyphs(Board(2, 1, [1, 0])) == [['▀']]
  {
    TwoByOne(0, 1);
    TwoByOne(1, 1);
    TwoByOne(0, 0);
    TwoByOne(1, 0);
  }

  /** A grid of three rows renders its first two rows only. */
  lemma ThreeRowsShowOneLine(b: Board)
    requires b.Valid() && b.rows == 3
    ensures |RenderIndices(b)| == 1
    ensures forall col :: 0 <= col < b.cols ==>
      RenderIndices(b)[0][col] == b.At(0, col) + 2 * b.At(1, col)
  {
    forall col | 0 <= col < b.cols
      ensures RenderIndices(b)[0][col] == b.At(0, col) + 2 * b.At(1, col)
    {
      RenderIndicesAt(b, 0, col);
    }
  }

  /** Appending the next wanted line extends a prefix of the wanted screen. */
  lemma ExtendScreen(want: seq<seq<char>>, screen: seq<seq<char>>, line: seq<char>)
    requires |screen| < |want| && screen == want[..|screen|]
    requires |line| == |want[|screen|]|
    requires forall c :: 0 <= c < |line| ==> line[c] == want[|screen|][c]
    ensures screen + [line] == want[..|screen| + 1]
  {
    assert line == want[|screen|];
  }

  /** Draws the grid: for each row pair, the glyph of every column, line by
      line from the top of the window. */
  method CursesRender(g: MatGol) returns (screen: seq<seq<char>>)
    requires g.Valid()
    ensures screen == RenderGlyphs(g.Model())
  {
    ghost var b := g.Model();
    ghost var want := RenderGlyphs(b);
    screen := [];
    var r1, r2 := 0, 1;
    while r1 < g.rows && r2 < g.rows
      invariant r1 == 2 * |screen| && r2 == r1 + 1
      invariant |screen| <= g.rows / 2
      invariant screen == want[..|screen|]
      decreases g.rows - r1
    {
      ghost var y := |screen|;
      var line := [];
      for col := 0 to g.cols
        invariant |line| == col
        invariant forall c :: 0 <= c < col ==> line[c] == want[y][c]
      {
        RenderGlyphsAt(b, y, col);
        IndexInRange(r1, col, g.rows, g.cols);
        IndexInRange(r2, col, g.rows, g.cols);
        var index: u8 := g.AtUnchecked(r1, col) + g.AtUnchecked(r2, col) * 2;
        line := line + [Charmap[index]];
      }
      ExtendScreen(want, screen, line);
      screen := screen + [line];
      r1, r2 := r1 + 2, r2 + 2;
    }
  }
}
