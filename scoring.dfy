/**
 * The ingredients of a candidate's score in `approx_image`: the average
 * pixel of each block of the source image, the filled cells around a cell
 * that give it context, the average of the block averages under a piece,
 * and the channel-wise difference of two pixels.
 */
module Scoring {
  import opened Wrappers
  import opened Pieces
  import opened Boards
  import opened Skins

  /** A source image, by its pixel at (x, y); only coordinates inside the image are ever asked for. */
  type Image = (int, int) -> Rgba

  /** The pixels (x0 + i, y) for i below n. */
  function RowPixels(img: Image, x0: int, y: int, n: nat): (r: seq<Rgba>)
    ensures |r| == n
    ensures forall i :: 0 <= i < n ==> r[i] == img(x0 + i, y)
  {
    if n == 0 then [] else RowPixels(img, x0, y, n - 1) + [img(x0 + n - 1, y)]
  }

  /** The pixels of the first m rows of the block at (x0, y0) that is w wide, row after row. */
  function BlockPixels(img: Image, x0: int, y0: int, w: nat, m: nat): seq<Rgba>
  {
    if m == 0 then [] else BlockPixels(img, x0, y0, w, m - 1) + RowPixels(img, x0, y0 + m - 1, w)
  }

  /** A block of m rows of w pixels has m * w pixels. */
  lemma {:induction false} BlockPixelsLength(img: Image, x0: int, y0: int, w: nat, m: nat)
    ensures |BlockPixels(img, x0, y0, w, m)| == m * w
  {
    if m > 0 {
      BlockPixelsLength(img, x0, y0, w, m - 1);
      MulAddOne(m - 1, w);
    }
  }

  /** Channel sums add over concatenation. */
  lemma {:induction false} ChannelSumAppend(a: seq<Rgba>, b: seq<Rgba>, k: nat)
    requires k < 4
    ensures ChannelSum(a + b, k) == ChannelSum(a, k) + ChannelSum(b, k)
    decreases |b|
  {
    if b == [] {
      assert a + b == a;
    } else {
      var init := b[..|b| - 1];
      ChannelSumAppend(a, init, k);
      assert (a + b)[..|a + b| - 1] == a + init;
    }
  }

  lemma ChannelSumSnoc(a: seq<Rgba>, p: Rgba, k: nat)
    requires k < 4
    ensures ChannelSum(a + [p], k) == ChannelSum(a, k) + Channel(p, k)
  {
    assert (a + [p])[..|a|] == a;
  }

  /** The four channel sums of some pixels. */
  function Sums(pixels: seq<Rgba>): (r: seq<int>)
    ensures |r| == 4 && forall k :: 0 <= k < 4 ==> r[k] == ChannelSum(pixels, k)
  {
    [ChannelSum(pixels, 0), ChannelSum(pixels, 1), ChannelSum(pixels, 2), ChannelSum(pixels, 3)]
  }

  /** Adds a pixel's channels to running sums, as the program's `+=` on each component does. */
  function AddPixel(sums: seq<int>, p: Rgba): (r: seq<int>)
    requires |sums| == 4
    ensures |r| == 4 && forall k :: 0 <= k < 4 ==> r[k] == sums[k] + Channel(p, k)
  {
    [sums[0] + p.r as int, sums[1] + p.g as int, sums[2] + p.b as int, sums[3] + p.a as int]
  }

  /** Adding a pixel to the sums of some pixels gives the sums with that pixel appended. */
  lemma SumsSnoc(a: seq<Rgba>, p: Rgba)
    ensures Sums(a + [p]) == AddPixel(Sums(a), p)
  {
    forall k | 0 <= k < 4 ensures Sums(a + [p])[k] == AddPixel(Sums(a), p)[k] {
      ChannelSumSnoc(a, p, k);
    }
  }

  /** The running sums over one row of a block, continuing from `sums`. */
  method RowSums(img: Image, x0: int, y: int, n: nat, sums0: seq<int>, ghost done: seq<Rgba>) returns (sums: seq<int>)
    requires sums0 == Sums(done)
    ensures sums == Sums(done + RowPixels(img, x0, y, n))
  {
    sums := sums0;
    assert done + RowPixels(img, x0, y, 0) == done;
    for x := 0 to n
      invariant sums == Sums(done + RowPixels(img, x0, y, x))
    {
      var pixel := img(x0 + x, y);
      assert done + RowPixels(img, x0, y, x + 1) == (done + RowPixels(img, x0, y, x)) + [pixel];
      SumsSnoc(done + RowPixels(img, x0, y, x), pixel);
      sums := AddPixel(sums, pixel);
    }
  }

  /** The per-channel `u32` sums of a block, accumulated row by row as `average_pixel_grid` does. */
  method BlockSums(img: Image, x0: int, y0: int, gridWidth: nat, gridHeight: nat) returns (sums: seq<int>)
    ensures sums == Sums(BlockPixels(img, x0, y0, gridWidth, gridHeight))
  {
    sums := [0, 0, 0, 0];
    for y := 0 to gridHeight
      invariant sums == Sums(BlockPixels(img, x0, y0, gridWidth, y))
    {
      sums := RowSums(img, x0, y0 + y, gridWidth, sums, BlockPixels(img, x0, y0, gridWidth, y));
    }
  }

  /** A channel mean is the floor of the channel sum over the count. */
  lemma ChannelMeanIsQuotient(pixels: seq<Rgba>, k: nat)
    requires k < 4 && |pixels| > 0
    ensures ChannelMean(pixels, k) as int == ChannelSum(pixels, k) / |pixels|
  {
  }

  /** The mean pixel of each of the first n blocks of block row `row`, left to right. */
  function GridRow(img: Image, gridWidth: nat, gridHeight: nat, row: nat, n: nat): (r: seq<Rgba>)
    requires gridWidth > 0 && gridHeight > 0
    ensures |r| == n
  {
    if n == 0 then [] else
      GridRow(img, gridWidth, gridHeight, row, n - 1) +
      [MeanPixel(BlockPixels(img, (n - 1) * gridWidth, row * gridHeight, gridWidth, gridHeight))]
  }

  /** The mean pixels of the first m block rows, each `cols` blocks long, row after row. */
  function Grid(img: Image, gridWidth: nat, gridHeight: nat, cols: nat, m: nat): seq<Rgba>
    requires gridWidth > 0 && gridHeight > 0
  {
    if m == 0 then [] else Grid(img, gridWidth, gridHeight, cols, m - 1) + GridRow(img, gridWidth, gridHeight, m - 1, cols)
  }

  /** A grid of m rows of `cols` blocks has m * cols entries. */
  lemma {:induction false} GridLength(img: Image, gridWidth: nat, gridHeight: nat, cols: nat, m: nat)
    requires gridWidth > 0 && gridHeight > 0
    ensures |Grid(img, gridWidth, gridHeight, cols, m)| == m * cols
  {
    if m > 0 {
      GridLength(img, gridWidth, gridHeight, cols, m - 1);
      var before := (m - 1) * cols;
      assert |Grid(img, gridWidth, gridHeight, cols, m)| == before + cols;
      MulAddOne(m - 1, cols);
    }
  }

  lemma {:induction false} GridRowAt(img: Image, gridWidth: nat, gridHeight: nat, row: nat, n: nat, col: nat)
    requires gridWidth > 0 && gridHeight > 0 && col < n
    ensures GridRow(img, gridWidth, gridHeight, row, n)[col] ==
      MeanPixel(BlockPixels(img, col * gridWidth, row * gridHeight, gridWidth, gridHeight))
  {
    if col < n - 1 {
      GridRowAt(img, gridWidth, gridHeight, row, n - 1, col);
    }
  }

  /** A row-major index stays below the size of the grid. */
  lemma RowMajorBound(row: nat, col: nat, rows: nat, cols: nat)
    requires row < rows && col < cols
    ensures row * cols + col < rows * cols
  {
    MulAddOne(row, cols);
    MulLeq(row + 1, rows, cols);
  }

  /** A grid of fewer rows is a prefix of a grid of more. */
  lemma {:induction false} GridPrefix(img: Image, gridWidth: nat, gridHeight: nat, cols: nat, m: nat, n: nat)
    requires gridWidth > 0 && gridHeight > 0 && m <= n
    ensures Grid(img, gridWidth, gridHeight, cols, m) <= Grid(img, gridWidth, gridHeight, cols, n)
    decreases n
  {
    if m < n {
      GridPrefix(img, gridWidth, gridHeight, cols, m, n - 1);
    }
  }

  /**
   * Entry i == row * cols + col of the grid is the mean pixel of the block
   * whose top-left pixel is (col * gridWidth, row * gridHeight).
   */
  lemma GridAt(img: Image, gridWidth: nat, gridHeight: nat, cols: nat, rows: nat, row: nat, col: nat, i: nat)
    requires gridWidth > 0 && gridHeight > 0 && row < rows && col < cols && i == row * cols + col
    ensures i < |Grid(img, gridWidth, gridHeight, cols, rows)|
    ensures Grid(img, gridWidth, gridHeight, cols, rows)[i] ==
      MeanPixel(BlockPixels(img, col * gridWidth, row * gridHeight, gridWidth, gridHeight))
  {
    var upTo := Grid(img, gridWidth, gridHeight, cols, row + 1);
    var before := Grid(img, gridWidth, gridHeight, cols, row);
    var blocks := GridRow(img, gridWidth, gridHeight, row, cols);
    assert upTo == before + blocks;
    GridLength(img, gridWidth, gridHeight, cols, row);
    GridRowAt(img, gridWidth, gridHeight, row, cols, col);
    ConcatAt(before, blocks, col);
    GridPrefix(img, gridWidth, gridHeight, cols, row + 1, rows);
    PrefixAt(upTo, Grid(img, gridWidth, gridHeight, cols, rows), i);
  }

  lemma ConcatAt<T>(a: seq<T>, b: seq<T>, j: nat)
    requires j < |b|
    ensures (a + b)[|a| + j] == b[j]
  {
  }

  lemma PrefixAt<T>(a: seq<T>, b: seq<T>, i: nat)
    requires a <= b && i < |a|
    ensures i < |b| && b[i] == a[i]
  {
  }

  /** The mean pixel of one block, from its `u32` sums divided by the block's pixel count. */
  method BlockMean(img: Image, x0: int, y0: int, gridWidth: nat, gridHeight: nat) returns (pixel: Rgba)
    requires gridWidth > 0 && gridHeight > 0
    ensures pixel == MeanPixel(BlockPixels(img, x0, y0, gridWidth, gridHeight))
  {
    var pixelsPerGrid := gridWidth * gridHeight;
    var sums := BlockSums(img, x0, y0, gridWidth, gridHeight);
    ghost var block := BlockPixels(img, x0, y0, gridWidth, gridHeight);
    BlockPixelsLength(img, x0, y0, gridWidth, gridHeight);
    forall k | 0 <= k < 4 ensures sums[k] / pixelsPerGrid == ChannelMean(block, k) as int {
      ChannelMeanIsQuotient(block, k);
    }
    pixel := Rgba((sums[0] / pixelsPerGrid) as byte, (sums[1] / pixelsPerGrid) as byte,
                  (sums[2] / pixelsPerGrid) as byte, (sums[3] / pixelsPerGrid) as byte);
  }

  /** A size that the step divides is the step times the number of steps. */
  lemma ExactDiv(size: nat, step: nat)
    requires step > 0 && size % step == 0
    ensures (size / step) * step == size
  {
  }

  /** A position k * step still below count * step: k is below count, and the next position is (k + 1) * step. */
  lemma StepIn(k: nat, count: nat, step: nat, pos: nat)
    requires step > 0 && pos == k * step && pos < count * step
    ensures k < count && pos + step == (k + 1) * step
  {
    MulLtCancel(k, count, step);
    MulAddOne(k, step);
  }

  /** A position k * step, k <= count, that has reached count * step is count * step itself. */
  lemma StepOut(k: nat, count: nat, step: nat, pos: nat)
    requires step > 0 && pos == k * step && k <= count && pos >= count * step
    ensures k == count
  {
    if k < count {
      MulLeq(k + 1, count, step);
      MulAddOne(k, step);
    }
  }

  /** One row of blocks: x0 steps through the image width by the block width. */
  method AverageRow(img: Image, pixelsWidth: nat, gridWidth: nat, gridHeight: nat, y0: nat, ghost row: nat, avg0: seq<Rgba>)
    returns (avg: seq<Rgba>)
    requires gridWidth > 0 && gridHeight > 0 && pixelsWidth % gridWidth == 0
    requires y0 == row * gridHeight
    ensures avg == avg0 + GridRow(img, gridWidth, gridHeight, row, pixelsWidth / gridWidth)
  {
    ghost var cols := pixelsWidth / gridWidth;
    ExactDiv(pixelsWidth, gridWidth);
    avg := avg0;
    var x0 := 0;
    ghost var col := 0;
    while x0 < pixelsWidth
      invariant x0 == col * gridWidth && col <= cols
      invariant avg == avg0 + GridRow(img, gridWidth, gridHeight, row, col)
      decreases pixelsWidth - x0
    {
      StepIn(col, cols, gridWidth, x0);
      var pixel := BlockMean(img, x0, y0, gridWidth, gridHeight);
      avg := avg + [pixel];
      x0 := x0 + gridWidth;
      col := col + 1;
    }
    StepOut(col, cols, gridWidth, x0);
  }

  /**
   * `average_pixel_grid`: the image, whose size the block size divides, is
   * cut into blocks; their mean pixels are listed row after row.
   */
  method AveragePixelGrid(img: Image, pixelsWidth: nat, pixelsHeight: nat, gridWidth: nat, gridHeight: nat) returns (avg: seq<Rgba>)
    requires gridWidth > 0 && gridHeight > 0
    requires pixelsWidth % gridWidth == 0 && pixelsHeight % gridHeight == 0
    requires 255 * (gridWidth * gridHeight) <= U32Max
    ensures avg == Grid(img, gridWidth, gridHeight, pixelsWidth / gridWidth, pixelsHeight / gridHeight)
  {
    ghost var cols := pixelsWidth / gridWidth;
    ghost var rows := pixelsHeight / gridHeight;
    ExactDiv(pixelsHeight, gridHeight);
    avg := [];
    var y0 := 0;
    ghost var row := 0;
    while y0 < pixelsHeight
      invariant y0 == row * gridHeight && row <= rows
      invariant avg == Grid(img, gridWidth, gridHeight, cols, row)
      decreases pixelsHeight - y0
    {
      StepIn(row, rows, gridHeight, y0);
      avg := AverageRow(img, pixelsWidth, gridWidth, gridHeight, y0, row, avg);
      y0 := y0 + gridHeight;
      row := row + 1;
    }
    StepOut(row, rows, gridHeight, y0);
  }

  datatype ContextError = CenterOverflow

  /** A context cell: on the board, filled, and not under the piece being scored. */
  predicate Contextual(cells: seq<char>, width: nat, height: nat, occ: seq<Cell>, c: Cell)
  {
    InBounds(width, height, c) && !HoldsAt(cells, width, c, EmptyCell) && c !in occ
  }

  /**
   * The context cells of row y among x = AddI32(cx, dx) for dx below n; an
   * x that overflows the i32 range wraps to a negative value and is skipped.
   */
  function ContextRow(cells: seq<char>, width: nat, height: nat, occ: seq<Cell>, cx: nat, y: nat, n: nat): (r: seq<Cell>)
    requires cx <= I32Max && n <= 8
    ensures |r| <= n
  {
    if n == 0 then [] else
      var prev := ContextRow(cells, width, height, occ, cx, y, n - 1);
      var x := AddI32(cx, n - 1);
      if x < 0 then prev
      else if Contextual(cells, width, height, occ, Cell(x, y)) then prev + [Cell(x, y)]
      else prev
  }

  /** The context cells of the rows AddI32(cy, dy) for dy below m, row after row. */
  function ContextRows(cells: seq<char>, width: nat, height: nat, occ: seq<Cell>, center: Cell, m: nat): (r: seq<Cell>)
    requires center.x <= I32Max && center.y <= I32Max && m <= 8
    ensures |r| <= 8 * m
  {
    if m == 0 then [] else
      var prev := ContextRows(cells, width, height, occ, center, m - 1);
      var y := AddI32(center.y, m - 1);
      if y < 0 then prev else prev + ContextRow(cells, width, height, occ, center.x, y, 8)
  }

  /** What `find_context_cells` returns: an error when the centre does not fit in an i32, else the 8 x 8 window's context cells. */
  function ContextCells(cells: seq<char>, width: nat, height: nat, occ: seq<Cell>, center: Cell): (r: Result<seq<Cell>, ContextError>)
    ensures r.Ok? ==> |r.value| <= 64
  {
    if center.y > I32Max || center.x > I32Max then Err(CenterOverflow)
    else Ok(ContextRows(cells, width, height, occ, center, 8))
  }

  /** Row membership: a cell is listed exactly when it is in the row's window, fits an i32 and is a context cell. */
  lemma {:induction false} ContextRowMembers(cells: seq<char>, width: nat, height: nat, occ: seq<Cell>, cx: nat, y: nat, n: nat, c: Cell)
    requires cx <= I32Max && n <= 8
    ensures c in ContextRow(cells, width, height, occ, cx, y, n) <==>
      c.y == y && cx <= c.x < cx + n && c.x <= I32Max && Contextual(cells, width, height, occ, c)
  {
    if n > 0 {
      ContextRowMembers(cells, width, height, occ, cx, y, n - 1, c);
    }
  }

  /** Window membership, row by row. */
  lemma {:induction false} ContextRowsMembers(cells: seq<char>, width: nat, height: nat, occ: seq<Cell>, center: Cell, m: nat, c: Cell)
    requires center.x <= I32Max && center.y <= I32Max && m <= 8
    ensures c in ContextRows(cells, width, height, occ, center, m) <==>
      center.y <= c.y < center.y + m && c.y <= I32Max &&
      center.x <= c.x < center.x + 8 && c.x <= I32Max && Contextual(cells, width, height, occ, c)
  {
    if m > 0 {
      ContextRowsMembers(cells, width, height, occ, center, m - 1, c);
      var y := AddI32(center.y, m - 1);
      if y >= 0 {
        ContextRowMembers(cells, width, height, occ, center.x, y, 8, c);
      }
    }
  }

  /**
   * `find_context_cells` fails exactly when the centre does not fit in an
   * i32; otherwise it lists the context cells (x, y) with x - cx and y - cy
   * in [0, 8), both coordinates within the i32 range.
   */
  lemma ContextCellsCharacterised(cells: seq<char>, width: nat, height: nat, occ: seq<Cell>, center: Cell, c: Cell)
    ensures ContextCells(cells, width, height, occ, center).Err? <==> center.x > I32Max || center.y > I32Max
    ensures ContextCells(cells, width, height, occ, center).Ok? ==>
      (c in ContextCells(cells, width, height, occ, center).value <==>
        center.x <= c.x < center.x + 8 && center.y <= c.y < center.y + 8 &&
        c.x <= I32Max && c.y <= I32Max && Contextual(cells, width, height, occ, c))
  {
    if center.x <= I32Max && center.y <= I32Max {
      ContextRowsMembers(cells, width, height, occ, center, 8, c);
    }
  }

  /** The inner loop of `find_context_cells`: dx runs over [0, 8) along row y. */
  method ScanContextRow(board: Board, occ: seq<Cell>, cx: nat, y: nat, found0: seq<Cell>) returns (r: Result<seq<Cell>, ContextError>)
    requires board.Valid()
    ensures cx > I32Max ==> r == Err(CenterOverflow)
    ensures cx <= I32Max ==> r == Ok(found0 + ContextRow(board.cells, board.width, board.height, occ, cx, y, 8))
  {
    var found := found0;
    var dx := 0;
    while dx < 8
      invariant 0 <= dx <= 8
      invariant dx == 0 ==> found == found0
      invariant dx > 0 ==> (cx <= I32Max && found == found0 + ContextRow(board.cells, board.width, board.height, occ, cx, y, dx))
    {
      if cx > I32Max {
        return Err(CenterOverflow);
      }
      var x := AddI32(cx, dx);
      if x >= 0 {
        var c := Cell(x, y);
        var ch := board.Get(c);
        if ch.Ok? && ch.value != EmptyCell && c !in occ {
          found := found + [c];
        }
      }
      dx := dx + 1;
    }
    return Ok(found);
  }

  /** `find_context_cells`: two loops over dy and dx in [0, 8), with the program's i32 conversions. */
  method FindContextCells(board: Board, occ: seq<Cell>, center: Cell) returns (r: Result<seq<Cell>, ContextError>)
    requires board.Valid()
    ensures r == ContextCells(board.cells, board.width, board.height, occ, center)
  {
    var found: seq<Cell> := [];
    var dy := 0;
    while dy < 8
      invariant 0 <= dy <= 8
      invariant dy == 0 ==> found == []
      invariant dy > 0 ==> (center.x <= I32Max && center.y <= I32Max &&
        found == ContextRows(board.cells, board.width, board.height, occ, center, dy))
    {
      if center.y > I32Max {
        return Err(CenterOverflow);
      }
      var y := AddI32(center.y, dy);
      if y >= 0 {
        var row := ScanContextRow(board, occ, center.x, y, found);
        if row.Err? {
          return row;
        }
        found := row.value;
      }
      dy := dy + 1;
    }
    return Ok(found);
  }

  /** The block averages under the cells of a piece; each cell must have one. */
  function OccupiedPixels(grid: seq<Rgba>, boardWidth: nat, occ: seq<Cell>): (r: seq<Rgba>)
    requires forall c :: c in occ ==> Index(boardWidth, c) < |grid|
    ensures |r| == |occ| && forall i :: 0 <= i < |occ| ==> r[i] == grid[Index(boardWidth, occ[i])]
  {
    seq(|occ|, i requires 0 <= i < |occ| => grid[Index(boardWidth, occ[i])])
  }

  /**
   * `find_average_source_cell_pixel`: the mean of the block averages under a
   * piece. The program divides by the cell count, which must not be zero, and
   * its `u32` sums must not overflow.
   */
  method FindAverageSourceCellPixel(grid: seq<Rgba>, occ: seq<Cell>, boardWidth: nat) returns (p: Rgba)
    requires 0 < |occ| <= U32Max
    requires forall c :: c in occ ==> Index(boardWidth, c) < |grid|
    requires forall k :: 0 <= k < 4 ==> ChannelSum(OccupiedPixels(grid, boardWidth, occ), k) <= U32Max
    ensures p == MeanPixel(OccupiedPixels(grid, boardWidth, occ))
  {
    var sums := [0, 0, 0, 0];
    for i := 0 to |occ|
      invariant sums == Sums(OccupiedPixels(grid, boardWidth, occ[..i]))
    {
      assert occ[i] in occ;
      var pixel := grid[occ[i].y * boardWidth + occ[i].x];
      assert OccupiedPixels(grid, boardWidth, occ[..i + 1]) == OccupiedPixels(grid, boardWidth, occ[..i]) + [pixel];
      SumsSnoc(OccupiedPixels(grid, boardWidth, occ[..i]), pixel);
      sums := AddPixel(sums, pixel);
    }
    assert occ[..|occ|] == occ;
    ghost var pixels := OccupiedPixels(grid, boardWidth, occ);
    var n := |occ|;
    forall k | 0 <= k < 4 ensures sums[k] / n == ChannelMean(pixels, k) as int {
      ChannelMeanIsQuotient(pixels, k);
    }
    p := Rgba((sums[0] / n) as byte, (sums[1] / n) as byte, (sums[2] / n) as byte, (sums[3] / n) as byte);
  }

  /** `subtract_pixels`: red, green and blue of `a` minus those of `b`, as i32. */
  function SubtractPixels(a: Rgba, b: Rgba): (d: seq<int>)
    ensures |d| == 3
  {
    [a.r as int - b.r as int, a.g as int - b.g as int, a.b as int - b.b as int]
  }

  /**
   * The differences stay within [-255, 255], so the i32 arithmetic cannot
   * overflow; they change sign when the pixels swap; they are all zero exactly
   * when the colours (alpha aside) agree.
   */
  lemma SubtractPixelsProperties(a: Rgba, b: Rgba)
    ensures forall k :: 0 <= k < 3 ==> -255 <= SubtractPixels(a, b)[k] <= 255
    ensures forall k :: 0 <= k < 3 ==> SubtractPixels(b, a)[k] == -SubtractPixels(a, b)[k]
    ensures forall k :: 0 <= k < 3 ==> SubtractPixels(a, b)[k] == Channel(a, k) - Channel(b, k)
    ensures SubtractPixels(a, b) == [0, 0, 0] <==> a.r == b.r && a.g == b.g && a.b == b.b
  {
  }
}
