/** Cyclic shifts on rows and columns of a two-dimensional array.

    Both the `Torus` class and the curried rotators of `arrayutils.js` run
    the same four in-place loops; they differ only in where the dimension
    they loop over comes from (the torus's own ROWS/COLS, or the length
    captured when the rotator was built).  So every operation here takes
    that dimension as a parameter: a row rotation with dimension `n` shifts
    the first `n` cells of the row, a column rotation with dimension `m`
    shifts the first `m` cells of the column. */
module Rotation {

  type Grid<T> = seq<seq<T>>

  // ---------------------------------------------------------------------
  // One-dimensional ring shifts

  /** Shift one place toward index 0; the first element re-enters at the end. */
  function ShiftLeft<T>(s: seq<T>): (r: seq<T>)
    ensures |r| == |s|
    ensures forall i :: 0 <= i < |s| - 1 ==> r[i] == s[i + 1]
    ensures |s| > 0 ==> r[|s| - 1] == s[0]
  {
    if |s| == 0 then s else s[1..] + [s[0]]
  }

  /** Shift one place away from index 0; the last element re-enters at 0. */
  function ShiftRight<T>(s: seq<T>): (r: seq<T>)
    ensures |r| == |s|
    ensures forall i :: 0 < i < |s| ==> r[i] == s[i - 1]
    ensures |s| > 0 ==> r[0] == s[|s| - 1]
  {
    if |s| == 0 then s else [s[|s| - 1]] + s[..|s| - 1]
  }

  lemma ShiftRightShiftLeft<T>(s: seq<T>)
    ensures ShiftRight(ShiftLeft(s)) == s
    ensures ShiftLeft(ShiftRight(s)) == s
  {
    if |s| > 0 {
      var t := ShiftLeft(s);
      assert t[..|t| - 1] == s[1..];
      assert ShiftRight(t) == [s[0]] + s[1..];
      var u := ShiftRight(s);
      assert u[1..] == s[..|s| - 1];
      assert ShiftLeft(u) == s[..|s| - 1] + [s[|s| - 1]];
    }
  }

  lemma ShiftPreservesMultiset<T>(s: seq<T>)
    ensures multiset(ShiftLeft(s)) == multiset(s)
    ensures multiset(ShiftRight(s)) == multiset(s)
  {
    if |s| > 0 {
      assert s == [s[0]] + s[1..];
      assert s == s[..|s| - 1] + [s[|s| - 1]];
    }
  }

  /** The next index around a ring of `n` positions. */
  function Succ(i: int, n: int): (j: int)
    requires 0 <= i < n
    ensures j == if i < n - 1 then i + 1 else 0
  {
    (i + 1) % n
  }

  /** The previous index around a ring of `n` positions. */
  function Pred(i: int, n: int): (j: int)
    requires 0 <= i < n
    ensures j == if i > 0 then i - 1 else n - 1
  {
    if i > 0 then
      assert i - 1 + n == (i - 1) + n;
      (i - 1 + n) % n
    else
      (i - 1 + n) % n
  }

  // ---------------------------------------------------------------------
  // Rows

  /** Row `r` is long enough for a row operation of dimension `n`. */
  predicate RowOk<T>(g: Grid<T>, r: int, n: nat) {
    0 <= r < |g| && n <= |g[r]|
  }

  /** Applies a ring shift to the first `n` cells of row `r`. */
  function OnRowPrefix<T>(g: Grid<T>, r: int, n: nat, left: bool): (h: Grid<T>)
    requires RowOk(g, r, n)
    ensures |h| == |g|
    ensures forall i :: 0 <= i < |g| ==> |h[i]| == |g[i]|
    ensures forall i :: 0 <= i < |g| && i != r ==> h[i] == g[i]
    ensures h[r][n..] == g[r][n..]
  {
    var p := g[r][..n];
    g[r := (if left then ShiftLeft(p) else ShiftRight(p)) + g[r][n..]]
  }

  /** The effect of `rotateRowLeft(r)` over `n` columns. */
  function RowLeft<T>(g: Grid<T>, r: int, n: nat): (h: Grid<T>)
    requires RowOk(g, r, n)
    ensures |h| == |g|
    ensures forall i :: 0 <= i < |g| ==> |h[i]| == |g[i]|
    ensures forall i :: 0 <= i < |g| && i != r ==> h[i] == g[i]
    ensures forall j :: 0 <= j < n - 1 ==> h[r][j] == g[r][j + 1]
    ensures n > 0 ==> h[r][n - 1] == g[r][0]
    ensures forall j :: n <= j < |g[r]| ==> h[r][j] == g[r][j]
  {
    var h := OnRowPrefix(g, r, n, true);
    assert forall j :: n <= j < |g[r]| ==> h[r][j] == h[r][n..][j - n];
    h
  }

  /** The effect of `rotateRowRight(r)` over `n` columns. */
  function RowRight<T>(g: Grid<T>, r: int, n: nat): (h: Grid<T>)
    requires RowOk(g, r, n)
    ensures |h| == |g|
    ensures forall i :: 0 <= i < |g| ==> |h[i]| == |g[i]|
    ensures forall i :: 0 <= i < |g| && i != r ==> h[i] == g[i]
    ensures forall j :: 0 < j < n ==> h[r][j] == g[r][j - 1]
    ensures n > 0 ==> h[r][0] == g[r][n - 1]
    ensures forall j :: n <= j < |g[r]| ==> h[r][j] == g[r][j]
  {
    var h := OnRowPrefix(g, r, n, false);
    assert forall j :: n <= j < |g[r]| ==> h[r][j] == h[r][n..][j - n];
    h
  }

  // ---------------------------------------------------------------------
  // Columns

  /** Rows `0 .. m-1` all have a cell in column `c`. */
  predicate ColOk<T>(g: Grid<T>, c: int, m: nat) {
    0 <= c && m <= |g| && forall i :: 0 <= i < m ==> c < |g[i]|
  }

  /** The first `m` cells of column `c`, top to bottom. */
  function Column<T>(g: Grid<T>, c: int, m: nat): (col: seq<T>)
    requires ColOk(g, c, m)
    ensures |col| == m
    ensures forall i :: 0 <= i < m ==> col[i] == g[i][c]
  {
    seq(m, i requires 0 <= i < m => g[i][c])
  }

  /** Writes `col` into column `c` of the first `|col|` rows. */
  function WithColumn<T>(g: Grid<T>, c: int, col: seq<T>): (h: Grid<T>)
    requires ColOk(g, c, |col|)
    ensures |h| == |g|
    ensures forall i :: 0 <= i < |g| ==> |h[i]| == |g[i]|
    ensures forall i :: |col| <= i < |g| ==> h[i] == g[i]
    ensures forall i, j :: 0 <= i < |col| && 0 <= j < |g[i]| ==>
              h[i][j] == if j == c then col[i] else g[i][j]
  {
    seq(|g|, i requires 0 <= i < |g| => if i < |col| then g[i][c := col[i]] else g[i])
  }

  /** The effect of `rotateColUp(c)` over `m` rows. */
  function ColUp<T>(g: Grid<T>, c: int, m: nat): (h: Grid<T>)
    requires ColOk(g, c, m)
    ensures |h| == |g|
    ensures forall i :: 0 <= i < |g| ==> |h[i]| == |g[i]|
    ensures forall i :: m <= i < |g| ==> h[i] == g[i]
    ensures forall i, j :: 0 <= i < m && 0 <= j < |g[i]| && j != c ==> h[i][j] == g[i][j]
    ensures forall i :: 0 <= i < m - 1 ==> h[i][c] == g[i + 1][c]
    ensures m > 0 ==> h[m - 1][c] == g[0][c]
  {
    var col := Column(g, c, m);
    var shifted := ShiftLeft(col);
    assert forall i :: 0 <= i < m - 1 ==> shifted[i] == g[i + 1][c];
    WithColumn(g, c, shifted)
  }

  /** The effect of `rotateColDown(c)` over `m` rows. */
  function ColDown<T>(g: Grid<T>, c: int, m: nat): (h: Grid<T>)
    requires ColOk(g, c, m)
    ensures |h| == |g|
    ensures forall i :: 0 <= i < |g| ==> |h[i]| == |g[i]|
    ensures forall i :: m <= i < |g| ==> h[i] == g[i]
    ensures forall i, j :: 0 <= i < m && 0 <= j < |g[i]| && j != c ==> h[i][j] == g[i][j]
    ensures forall i :: 0 < i < m ==> h[i][c] == g[i - 1][c]
    ensures m > 0 ==> h[0][c] == g[m - 1][c]
  {
    var col := Column(g, c, m);
    var shifted := ShiftRight(col);
    assert forall i :: 0 < i < m ==> shifted[i] == g[i - 1][c];
    WithColumn(g, c, shifted)
  }

  // ---------------------------------------------------------------------
  // The in-place loops, step by step

  /** `rotateRowLeft`: save cell 0, copy each cell from its right
      neighbour, put the saved cell last.  With no columns the loop does
      not run and the final store lands on index -1, which a JavaScript
      array keeps as a property rather than an element, so the row's
      elements are unchanged. */
  method RotateRowLeftInPlace<T>(g: Grid<T>, r: int, n: nat) returns (h: Grid<T>)
    requires RowOk(g, r, n)
    ensures h == RowLeft(g, r, n)
  {
    if n == 0 {
      assert RowLeft(g, r, n)[r] == g[r];
      return g;
    }
    var row := g[r];
    var first := row[0];
    var i := 0;
    while i < n - 1
      invariant 0 <= i <= n - 1
      invariant |row| == |g[r]|
      invariant forall j :: 0 <= j < i ==> row[j] == g[r][j + 1]
      invariant forall j :: i <= j < |row| ==> row[j] == g[r][j]
    {
      row := row[i := row[i + 1]];
      i := i + 1;
    }
    row := row[n - 1 := first];
    h := g[r := row];
    assert h[r] == RowLeft(g, r, n)[r];
  }

  /** `rotateRowRight`: save the last cell, copy each cell from its left
      neighbour walking down, put the saved cell first. */
  method RotateRowRightInPlace<T>(g: Grid<T>, r: int, n: nat) returns (h: Grid<T>)
    requires RowOk(g, r, n)
    ensures h == RowRight(g, r, n)
  {
    if n == 0 {
      assert RowRight(g, r, n)[r] == g[r];
      return g;
    }
    var row := g[r];
    var last := row[n - 1];
    var i := n - 1;
    while i > 0
      invariant 0 <= i <= n - 1
      invariant |row| == |g[r]|
      invariant forall j :: i < j < n ==> row[j] == g[r][j - 1]
      invariant forall j :: 0 <= j <= i ==> row[j] == g[r][j]
      invariant forall j :: n <= j < |row| ==> row[j] == g[r][j]
    {
      row := row[i := row[i - 1]];
      i := i - 1;
    }
    row := row[0 := last];
    h := g[r := row];
    assert h[r] == RowRight(g, r, n)[r];
  }

  /** `rotateColUp`: save the top cell, copy each cell from the one below,
      put the saved cell at the bottom.  Needs at least one row: the source
      reads row 0 first. */
  method RotateColUpInPlace<T>(g: Grid<T>, c: int, m: nat) returns (h: Grid<T>)
    requires ColOk(g, c, m) && m > 0
    ensures h == ColUp(g, c, m)
  {
    var first := g[0][c];
    h := g;
    var i := 0;
    while i < m - 1
      invariant 0 <= i <= m - 1
      invariant |h| == |g|
      invariant forall k :: 0 <= k < |g| ==> |h[k]| == |g[k]|
      invariant forall k :: m <= k < |g| ==> h[k] == g[k]
      invariant forall k, j :: 0 <= k < m && 0 <= j < |g[k]| && j != c ==> h[k][j] == g[k][j]
      invariant forall k :: 0 <= k < i ==> h[k][c] == g[k + 1][c]
      invariant forall k :: i <= k < m ==> h[k][c] == g[k][c]
    {
      h := h[i := h[i][c := h[i + 1][c]]];
      i := i + 1;
    }
    ghost var before := h;
    h := h[m - 1 := h[m - 1][c := first]];
    assert forall k :: 0 <= k < |g| && k != m - 1 ==> h[k] == before[k];
    ColumnEq(h, ColUp(g, c, m), g, c, m);
  }

  /** `rotateColDown`: save the bottom cell, copy each cell from the one
      above walking up, put the saved cell at the top. */
  method RotateColDownInPlace<T>(g: Grid<T>, c: int, m: nat) returns (h: Grid<T>)
    requires ColOk(g, c, m) && m > 0
    ensures h == ColDown(g, c, m)
  {
    var last := g[m - 1][c];
    h := g;
    var i := m - 1;
    while i > 0
      invariant 0 <= i <= m - 1
      invariant |h| == |g|
      invariant forall k :: 0 <= k < |g| ==> |h[k]| == |g[k]|
      invariant forall k :: m <= k < |g| ==> h[k] == g[k]
      invariant forall k, j :: 0 <= k < m && 0 <= j < |g[k]| && j != c ==> h[k][j] == g[k][j]
      invariant forall k :: i < k < m ==> h[k][c] == g[k - 1][c]
      invariant forall k :: 0 <= k <= i ==> h[k][c] == g[k][c]
    {
      h := h[i := h[i][c := h[i - 1][c]]];
      i := i - 1;
    }
    ColDownLastStore(h, g, c, m);
    h := h[0 := h[0][c := last]];
  }

  /** After the loop of `rotateColDown` every cell but the top one of the
      column holds its upper neighbour; storing the saved bottom cell on
      top completes the rotation. */
  lemma ColDownLastStore<T>(h: Grid<T>, g: Grid<T>, c: int, m: nat)
    requires ColOk(g, c, m) && m > 0
    requires |h| == |g|
    requires forall k :: 0 <= k < |g| ==> |h[k]| == |g[k]|
    requires forall k :: m <= k < |g| ==> h[k] == g[k]
    requires forall k, j :: 0 <= k < m && 0 <= j < |g[k]| && j != c ==> h[k][j] == g[k][j]
    requires forall k :: 0 < k < m ==> h[k][c] == g[k - 1][c]
    ensures h[0 := h[0][c := g[m - 1][c]]] == ColDown(g, c, m)
  {
    var h' := h[0 := h[0][c := g[m - 1][c]]];
    ColumnEq(h', ColDown(g, c, m), g, c, m);
  }

  /** Two grids of the same shape that agree cell by cell are equal. */
  lemma ColumnEq<T>(h: Grid<T>, h': Grid<T>, g: Grid<T>, c: int, m: nat)
    requires |h| == |h'| == |g|
    requires forall k :: 0 <= k < |g| ==> |h[k]| == |h'[k]| == |g[k]|
    requires forall k, j :: 0 <= k < |g| && 0 <= j < |g[k]| ==> h[k][j] == h'[k][j]
    ensures h == h'
  {
    forall k | 0 <= k < |g|
      ensures h[k] == h'[k]
    {
    }
  }
}
