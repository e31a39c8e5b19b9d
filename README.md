# gol — Conway's Game of Life on a padded byte matrix, in Dafny

This project models the core of `gol`, a terminal Game of Life simulator, and
proves properties of that model.

The grid (`MatGol`) is a row-major byte matrix of `rows * cols` cells, each
0 (dead) or 1 (alive). It has three kinds of read:
- The checked read `at` treats every coordinate outside the grid as a dead
  cell.
- `at_unchecked` reads the flat index `row * cols + col`.
- `at_mut` hands out a writable reference to that same flat index.

The builder operations create and edit a grid:
- `empty` makes an all-dead grid.
- `live` and `dead` write 1 or 0 through `at_mut`. They check only the flat
  index, so a column one past the end writes the first cell of the next row.

`next` computes one generation into a fresh grid. For every cell it
accumulates, in a `u8`, the 3x3 convolution of the padded grid with the
kernel `[[1,1,1],[1,10,1],[1,1,1]]`. The cell is alive next when the sum is
3, 12 or 13. Because the centre weighs 10, the sum is `10 * self +
neighbours`, so this test is exactly Conway's B3/S23 rule. The sum never
exceeds 18, so the 8-bit accumulator cannot overflow.

`curses_render` draws two grid rows per terminal line. It zips the even rows
with the odd rows, which drops an odd last row. Each vertical pair of cells
becomes the glyph index `top + 2 * bottom`. That index selects a glyph from
the table `[' ', '▀', '▄', '█']`.

Layout:
- `grid.dfy` (module `Grid`):
  - The `u8` type and the `Board` value type, with its padded read.
  - The class `MatGol`. Its `matrix` is an `array<u8>` written in place by
    `AtMut`, `Live` and `Dead`.
- `engine.dfy` (module `Engine`):
  - The convolution as a specification (`PartialConvolution`, `Convolution`),
    the successor board `Step`, and the lemmas that tie `Step` to Conway's
    rule.
  - The methods `ConvolveAt` (the two kernel loops) and `Next` (the two grid
    loops). Each is proved against the specification.
- `render.dfy` (module `Render`):
  - `StepBy2` and `Zip`, the row-pair ranges.
  - The glyph-index screen `RenderIndices` and the glyph screen
    `RenderGlyphs`, with their lemmas.
  - The method `CursesRender`, which runs the renderer's loops and returns the
    lines it writes instead of drawing them in a window.

## Model

| member | source | states |
|---|---|---|
| Grid.EmptyCells | src/main.rs:103 | the initial buffer has `n` cells and every one of them is 0 |
| Grid.MatGol.Empty | src/main.rs:99-105 | the new grid has the requested dimensions, a fresh buffer of `rows * cols` zero cells, and satisfies the grid invariant |
| Grid.MatGol.At | src/main.rs:48-58 | any row or column below 0 or at or past the grid's size reads as 0 (border padding); otherwise the read is the board's cell at `(row, col)` |
| Grid.MatGol.AtUnchecked | src/main.rs:61-63 | returns the cell at flat index `row * cols + col` with no per-axis check; for an in-grid coordinate it equals the checked read `At` |
| Grid.MatGol.AtMut | src/main.rs:66-76 | storing `v` through the reference changes exactly flat index `row * cols + col` to `v`; every other cell keeps its value |
| Grid.MatGol.Live | src/main.rs:107-110 | exactly flat index `row * cols + col` becomes 1 and all other cells are unchanged; the grid invariant is kept |
| Grid.MatGol.Dead | src/main.rs:112-115 | exactly flat index `row * cols + col` becomes 0 and all other cells are unchanged; the grid invariant is kept |
| Engine.Step | src/main.rs:136-169 | the next generation has the same dimensions, `rows * cols` cells, and only dead or live cells |
| Engine.ConvolutionSplit | src/main.rs:138-154 | the kernel-ordered convolution sum equals ten times the centre cell plus the eight-neighbour count |
| Engine.PartialConvolutionBound | src/main.rs:145-154 | every partial sum of the convolution lies between 0 and the full sum, and the full sum is at most 18, so the `u8` accumulator never overflows |
| Engine.PartialConvolutionGrows | src/main.rs:149-152 | each kernel step adds a non-negative term, so the accumulated sum never decreases |
| Engine.MagicSum | src/main.rs:156-160 | a sum of 3, 12 or 13 means alive exactly when Conway's B3/S23 rule makes the cell alive (birth on 3 neighbours, survival on 2 or 3); the neighbour count lies in 0..8 |
| Engine.StepAt | src/main.rs:143-166 | the next grid's cell at an in-grid coordinate is the sum test applied to that cell's convolution |
| Engine.StepIsConway | src/main.rs:143-166 | every next-generation cell is 0 or 1, and it is 1 exactly when Conway's rule says the cell lives |
| Engine.AllDeadStaysDead | src/main.rs:136-169 | a grid with no live cell steps to a grid with no live cell |
| Engine.StillLife | src/main.rs:136-169 | a grid is unchanged by one generation exactly when Conway's rule keeps every one of its cells |
| Engine.BlockIsStill | src/main.rs:136-169 | a 2x2 block in a 4x4 grid is unchanged by one generation |
| Engine.BirthOnThree | src/main.rs:156-163 | in a 3x3 grid, the dead centre with exactly three live neighbours becomes alive |
| Engine.IsolatedCellDies | src/main.rs:156-163 | in a 5x5 grid, a lone live cell with no live neighbours dies |
| Engine.AccumulateTerm | src/main.rs:149-152 | adding the kernel entry times the padded cell moves the accumulator from one kernel position to the next, and the new sum still fits in 8 bits |
| Engine.ConvolveAt | src/main.rs:145-154 | the nested kernel loops leave the accumulator equal to the convolution sum of the padded grid at `(row, col)` |
| Engine.Next | src/main.rs:136-169 | returns a fresh grid of the same size, satisfying the grid invariant, whose value is exactly the successor board `Step` of the input |
| Render.StepBy2Shape | src/main.rs:83-84 | the range `lo, lo+2, …` below `hi` has `(hi - lo + 1) / 2` elements, and element `i` is `lo + 2i` |
| Render.ZipShape | src/main.rs:82-85 | zipping stops at the shorter sequence, and pair `i` is made of the two element `i`s |
| Render.RowPairsShape | src/main.rs:82-85 | the renderer visits exactly `rows / 2` row pairs, and pair `y` is `(2y, 2y+1)` |
| Render.RenderIndices | src/main.rs:82-94 | the screen has `rows / 2` lines of `cols` glyph indices each |
| Render.GlyphIndexBound | src/main.rs:89-92 | the unchecked glyph index of a pair of cells is the top cell plus twice the bottom cell, and lies in 0..3 |
| Render.RenderIndicesAt | src/main.rs:82-94 | the index at line `y`, column `col` is `cell(2y, col) + 2 * cell(2y+1, col)` and lies in 0..3 |
| Render.GlyphIndexDecodes | src/main.rs:89-92 | the two cells can be read back from a glyph index: the index mod 2 is the top cell and the index div 2 is the bottom cell |
| Render.RenderGlyphs | src/main.rs:79-95 | the drawn screen has `rows / 2` lines of `cols` glyphs |
| Render.RenderGlyphsAt | src/main.rs:80-92 | the glyph at line `y`, column `col` is the table entry of that position's glyph index |
| Render.GlyphShowsCells | src/main.rs:80-92 | two dead cells draw as blank, top-only live as the upper half, bottom-only live as the lower half, and both live as the full block |
| Render.OddLastRowDropped | src/main.rs:82-85 | on a grid with an odd number of rows, removing the last row leaves the rendered screen unchanged |
| Render.ThreeRowsShowOneLine | src/main.rs:82-92 | a three-row grid renders as one line, built from rows 0 and 1 only |
| Render.TwoByOne | src/main.rs:80-92 | a 2x1 grid renders as the single glyph `charmap[top + 2 * bottom]` |
| Render.TwoByOneExamples | src/main.rs:80-92 | the four 2x1 grids render as the lower half, full block, blank and upper half respectively |
| Render.CursesRender | src/main.rs:79-95 | the row-pair loop and the column loop write exactly the glyph screen `RenderGlyphs` of the grid |

## Left out

- `main` (src/main.rs:171-243) is not modelled. It parses the seed pattern, sets up and tears down curses, and runs the endless next, render, refresh and sleep loop. The window, the clock and the unbounded loop are I/O.
- The text pattern parser `build_gol` and the `GoLBuilder` trait come from the external `gol_builder` crate. That crate is not part of this model. Only this crate's implementations `empty`, `live` and `dead` are modelled.
- `WideWrapper::addch_wide` (src/main.rs:11-37) is not modelled. It encodes a glyph as UTF-8 bytes for the window. `CursesRender` returns the glyph lines it would write, in place of calling `mv` and `addch_wide`.
- The `Display` implementation (src/main.rs:118-132) is debug output and is not modelled. It zips the row range with the column range, so it visits only the diagonal cells.
- The derived `Debug`, `PartialEq`, `Eq` and `Clone` traits are not modelled.
- Grid.MatGol.Empty: the model's dimensions are unbounded integers. The source computes `cols * rows` as a `usize`, which panics in a debug build and wraps to a short buffer in a release build when the product overflows, and a huge buffer can fail to allocate. None of this is modelled: `Empty` always succeeds.
- Grid.MatGol.At: the source converts `rows` and `cols` to `i32` before comparing. The model compares unbounded integers, so it does not capture what happens for dimensions of 2^31 or more.
- Grid.MatGol.AtMut: `at_mut` returns a mutable reference. The model captures only a store through that reference, which is the only way the source uses it.
- Grid.MatGol.Live: the source's `live` and `dead` take the grid by value and return it. The model updates the same object in place, which is equivalent because the source moves the old value away.
- Grid.MatGol.Live: a flat index past the buffer panics in the source. The model requires the index to be in range instead of modelling the panic. The same holds for `Dead`, `AtMut` and `AtUnchecked`.
- Render.CursesRender: the model requires every cell to be 0 or 1. `empty`, `live`, `dead` and `next` only ever produce such grids. With other cell values the source's `u8` index could exceed the glyph table and panic.
