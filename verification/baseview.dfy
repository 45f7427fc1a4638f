/** The sizing done by `Baseview` in baseview.js: one square cell size for
    the whole board, chosen from the larger of its dimensions, and the two
    canvases sized to the board. */
module BaseView {
  /** The cell side for boards up to 3 cells wide or high, times 3. */
  const MinDim: int := 300

  /** The cell side for boards of 10 or more cells, times their size. */
  const MaxDim: int := 500

  function Max(a: int, b: int): int {
    if a >= b then a else b
  }

  /** The board's side in pixels, as exact arithmetic gives it: 300 up to
      3 cells, 500 from 10 cells, and linear in between. */
  function FullDim(m: int): (d: real)
    requires m >= 1
    ensures 300.0 <= d <= 500.0
  {
    if m <= 3 then MinDim as real
    else if m >= 10 then MaxDim as real
    else MinDim as real + (MaxDim - MinDim) as real * (m - 3) as real / 7.0
  }

  /** The cell side the constructor computes for a board whose larger
      dimension is `m`: the floor of the board side over `m`, in integer
      arithmetic.  Between 4 and 9 the source's floating-point quotient is
      never within rounding distance of an integer, so the floor is the
      same. */
  function CellSize(m: int): (dim: int)
    requires m >= 1
    ensures dim >= 0
  {
    if m <= 3 then MinDim / m
    else if m >= 10 then MaxDim / m
    else (7 * MinDim + (MaxDim - MinDim) * (m - 3)) / (7 * m)
  }

  /** The integer cell size is the floor of the exact board side divided by
      `m`. */
  lemma CellSizeIsFloor(m: int)
    requires m >= 1
    ensures (CellSize(m) * m) as real <= FullDim(m)
    ensures FullDim(m) < ((CellSize(m) + 1) * m) as real
  {
    if m <= 3 {
      IntBoundsCast(CellSize(m) * m, MinDim, (CellSize(m) + 1) * m);
    } else if m >= 10 {
      IntBoundsCast(CellSize(m) * m, MaxDim, (CellSize(m) + 1) * m);
    } else {
      MiddleIsFloor(m);
    }
  }

  /** Integer bounds carry over to their real images. */
  lemma IntBoundsCast(lo: int, n: int, hi: int)
    requires lo <= n < hi
    ensures lo as real <= n as real < hi as real
  {
  }

  /** Between 4 and 9 cells the quotient is checked board by board. */
  lemma MiddleIsFloor(m: int)
    requires 4 <= m <= 9
    ensures (CellSize(m) * m) as real <= FullDim(m)
    ensures FullDim(m) < ((CellSize(m) + 1) * m) as real
  {
    if m == 4 {
      assert CellSize(4) == 82 && FullDim(4) == 300.0 + 200.0 / 7.0;
    } else if m == 5 {
      assert CellSize(5) == 71 && FullDim(5) == 300.0 + 400.0 / 7.0;
    } else if m == 6 {
      assert CellSize(6) == 64 && FullDim(6) == 300.0 + 600.0 / 7.0;
    } else if m == 7 {
      assert CellSize(7) == 59 && FullDim(7) == 300.0 + 800.0 / 7.0;
    } else if m == 8 {
      assert CellSize(8) == 55 && FullDim(8) == 300.0 + 1000.0 / 7.0;
    } else {
      assert CellSize(9) == 52 && FullDim(9) == 300.0 + 1200.0 / 7.0;
    }
  }

  /** The sizes the formula gives, board by board. */
  lemma CellSizes()
    ensures CellSize(1) == 300 && CellSize(2) == 150 && CellSize(3) == 100
    ensures CellSize(4) == 82 && CellSize(5) == 71 && CellSize(6) == 64
    ensures CellSize(7) == 59 && CellSize(8) == 55 && CellSize(9) == 52
    ensures CellSize(10) == 50 && CellSize(20) == 25
  {
  }

  /** The board is never wider or higher than 500 pixels, and the cells
      have a positive side for every board of at most 500 cells a side. */
  lemma BoardFits(m: int)
    requires m >= 1
    ensures CellSize(m) * m <= MaxDim
    ensures CellSize(m) > 0 <==> m <= MaxDim
  {
    CellSizeIsFloor(m);
    assert (CellSize(m) * m) as real <= 500.0;
  }

  /** The view's sizes: square cells, and both canvases exactly cover the
      board. */
  datatype Sizes = Sizes(cellW: int, cellH: int, width: int, height: int, goalW: int, goalH: int)

  /** The constructor's cell size, and `makeConnect`'s canvas sizes. */
  function ViewSizes(rows: int, cols: int): (s: Sizes)
    requires rows >= 1 && cols >= 1
    ensures s.cellW == s.cellH == CellSize(Max(rows, cols))
    ensures s.width == s.cellW * cols && s.height == s.cellH * rows
    ensures s.goalW == s.width && s.goalH == s.height
    ensures s.width <= MaxDim && s.height <= MaxDim
  {
    var m := Max(rows, cols);
    var dim := CellSize(m);
    BoardFits(m);
    MulMono(dim, cols, m);
    MulMono(dim, rows, m);
    Sizes(dim, dim, dim * cols, dim * rows, dim * cols, dim * rows)
  }

  lemma MulMono(d: int, a: int, b: int)
    requires d >= 0 && a <= b
    ensures d * a <= d * b
  {
  }
}
