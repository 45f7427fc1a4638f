/** Algebraic laws of the ring shifts: inverse pairs, the identity after a
    full turn, and conservation of the grid's multiset of values. */
module RotationLaws {
  import opened Rotation

  // ---------------------------------------------------------------------
  // Inverse pairs

  lemma RowRightUndoesRowLeft<T>(g: Grid<T>, r: int, n: nat)
    requires RowOk(g, r, n)
    ensures RowOk(RowLeft(g, r, n), r, n)
    ensures RowRight(RowLeft(g, r, n), r, n) == g
  {
    var h := RowLeft(g, r, n);
    var p := g[r][..n];
    assert h[r][..n] == ShiftLeft(p);
    assert h[r][n..] == g[r][n..];
    ShiftRightShiftLeft(p);
    assert RowRight(h, r, n)[r] == p + g[r][n..];
    assert g[r] == p + g[r][n..];
  }

  lemma RowLeftUndoesRowRight<T>(g: Grid<T>, r: int, n: nat)
    requires RowOk(g, r, n)
    ensures RowOk(RowRight(g, r, n), r, n)
    ensures RowLeft(RowRight(g, r, n), r, n) == g
  {
    var h := RowRight(g, r, n);
    var p := g[r][..n];
    assert h[r][..n] == ShiftRight(p);
    assert h[r][n..] == g[r][n..];
    ShiftRightShiftLeft(p);
    assert RowLeft(h, r, n)[r] == p + g[r][n..];
    assert g[r] == p + g[r][n..];
  }

  lemma ColDownUndoesColUp<T>(g: Grid<T>, c: int, m: nat)
    requires ColOk(g, c, m)
    ensures ColOk(ColUp(g, c, m), c, m)
    ensures ColDown(ColUp(g, c, m), c, m) == g
  {
    var h := ColUp(g, c, m);
    ColumnEq(ColDown(h, c, m), g, g, c, m);
  }

  lemma ColUpUndoesColDown<T>(g: Grid<T>, c: int, m: nat)
    requires ColOk(g, c, m)
    ensures ColOk(ColDown(g, c, m), c, m)
    ensures ColUp(ColDown(g, c, m), c, m) == g
  {
    var h := ColDown(g, c, m);
    ColumnEq(ColUp(h, c, m), g, g, c, m);
  }

  // ---------------------------------------------------------------------
  // A full turn is the identity

  /** `k` successive left rotations of row `r`. */
  function RowLeftTimes<T>(g: Grid<T>, r: int, n: nat, k: nat): (h: Grid<T>)
    requires RowOk(g, r, n)
    ensures |h| == |g|
    ensures forall i :: 0 <= i < |g| ==> |h[i]| == |g[i]|
  {
    if k == 0 then g else RowLeft(RowLeftTimes(g, r, n, k - 1), r, n)
  }

  /** Index `x` taken around a ring of length `n`, for `x < 2n`. */
  function Wrap(x: nat, n: nat): (y: nat)
    requires x < 2 * n
    ensures y < n
    ensures y == x || y == x - n
  {
    if x < n then x else x - n
  }

  /** Row `r` of `h` is row `r` of `g` turned left `k` times on its first
      `n` cells, and nothing else differs. */
  ghost predicate RowTurned<T>(h: Grid<T>, g: Grid<T>, r: int, n: nat, k: nat)
    requires RowOk(g, r, n) && k <= n && |h| == |g| && |h[r]| == |g[r]|
  {
    && (forall i :: 0 <= i < |g| && i != r ==> h[i] == g[i])
    && (forall j :: 0 <= j < n ==> h[r][j] == g[r][Wrap(j + k, n)])
    && (forall j :: n <= j < |g[r]| ==> h[r][j] == g[r][j])
  }

  /** After `k <= n` left rotations cell `(r, j)` holds the old cell `k`
      places further right, around the ring, and every cell outside the
      rotated prefix of row `r` is untouched. */
  lemma {:induction false} RowLeftTimesCells<T>(g: Grid<T>, r: int, n: nat, k: nat)
    requires RowOk(g, r, n) && k <= n
    ensures RowTurned(RowLeftTimes(g, r, n, k), g, r, n, k)
  {
    if k > 0 {
      RowLeftTimesCells(g, r, n, k - 1);
      RowLeftStep(g, r, n, k);
    }
  }

  /** One more left rotation of a row turned `k - 1` times turns it `k`
      times. */
  lemma RowLeftStep<T>(g: Grid<T>, r: int, n: nat, k: nat)
    requires RowOk(g, r, n) && 0 < k <= n
    requires RowTurned(RowLeftTimes(g, r, n, k - 1), g, r, n, k - 1)
    ensures RowTurned(RowLeftTimes(g, r, n, k), g, r, n, k)
  {
    var prev := RowLeftTimes(g, r, n, k - 1);
    var h := RowLeft(prev, r, n);
    assert RowLeftTimes(g, r, n, k) == h;
    forall j | 0 <= j < n
      ensures h[r][j] == g[r][Wrap(j + k, n)]
    {
      if j < n - 1 {
        assert h[r][j] == prev[r][j + 1];
      } else {
        assert h[r][j] == prev[r][0];
      }
    }
  }

  /** Rotating a row left once per column restores it. */
  lemma RowLeftFullTurn<T>(g: Grid<T>, r: int, n: nat)
    requires RowOk(g, r, n)
    ensures RowLeftTimes(g, r, n, n) == g
  {
    RowLeftTimesCells(g, r, n, n);
    var h := RowLeftTimes(g, r, n, n);
    assert h[r] == g[r];
  }

  /** `k` successive up rotations of column `c`. */
  function ColUpTimes<T>(g: Grid<T>, c: int, m: nat, k: nat): (h: Grid<T>)
    requires ColOk(g, c, m)
    ensures |h| == |g|
    ensures forall i :: 0 <= i < |g| ==> |h[i]| == |g[i]|
  {
    if k == 0 then g else ColUp(ColUpTimes(g, c, m, k - 1), c, m)
  }

  /** Column `c` of `h` is column `c` of `g` turned up `k` times on its
      first `m` cells, and nothing else differs. */
  ghost predicate ColTurned<T>(h: Grid<T>, g: Grid<T>, c: int, m: nat, k: nat)
    requires ColOk(g, c, m) && k <= m && |h| == |g|
    requires forall i :: 0 <= i < |g| ==> |h[i]| == |g[i]|
  {
    && (forall i :: m <= i < |g| ==> h[i] == g[i])
    && (forall i, j :: 0 <= i < m && 0 <= j < |g[i]| && j != c ==> h[i][j] == g[i][j])
    && (forall i :: 0 <= i < m ==> h[i][c] == g[Wrap(i + k, m)][c])
  }

  lemma {:induction false} ColUpTimesCells<T>(g: Grid<T>, c: int, m: nat, k: nat)
    requires ColOk(g, c, m) && k <= m
    ensures ColTurned(ColUpTimes(g, c, m, k), g, c, m, k)
  {
    if k > 0 {
      ColUpTimesCells(g, c, m, k - 1);
      ColUpStep(g, c, m, k);
    }
  }

  /** One more up rotation turns the column one more place. */
  lemma ColUpStep<T>(g: Grid<T>, c: int, m: nat, k: nat)
    requires ColOk(g, c, m) && 0 < k <= m
    requires ColTurned(ColUpTimes(g, c, m, k - 1), g, c, m, k - 1)
    ensures ColTurned(ColUpTimes(g, c, m, k), g, c, m, k)
  {
    var prev := ColUpTimes(g, c, m, k - 1);
    assert ColOk(prev, c, m);
    var h := ColUp(prev, c, m);
    assert ColUpTimes(g, c, m, k) == h;
    ColUpStepCells(g, prev, c, m, k);
  }

  /** The column part of one more up rotation. */
  lemma ColUpStepCells<T>(g: Grid<T>, prev: Grid<T>, c: int, m: nat, k: nat)
    requires ColOk(g, c, m) && 0 < k <= m && |prev| == |g|
    requires forall i :: 0 <= i < |g| ==> |prev[i]| == |g[i]|
    requires forall i :: 0 <= i < m ==> prev[i][c] == g[Wrap(i + k - 1, m)][c]
    ensures ColOk(prev, c, m)
    ensures forall i :: 0 <= i < m ==> ColUp(prev, c, m)[i][c] == g[Wrap(i + k, m)][c]
  {
    assert ColOk(prev, c, m);
    var h := ColUp(prev, c, m);
    forall i | 0 <= i < m
      ensures h[i][c] == g[Wrap(i + k, m)][c]
    {
      if i < m - 1 {
        assert h[i][c] == prev[i + 1][c];
      } else {
        assert h[i][c] == prev[0][c];
      }
    }
  }

  /** Rotating a column up once per row restores it. */
  lemma ColUpFullTurn<T>(g: Grid<T>, c: int, m: nat)
    requires ColOk(g, c, m)
    ensures ColUpTimes(g, c, m, m) == g
  {
    ColUpTimesCells(g, c, m, m);
    var h := ColUpTimes(g, c, m, m);
    ColumnEq(h, g, g, c, m);
  }

  // ---------------------------------------------------------------------
  // Conservation of values

  /** All cells, row after row. */
  function Flatten<T>(g: Grid<T>): (s: seq<T>)
    ensures |g| > 0 ==> s == g[0] + Flatten(g[1..])
  {
    if |g| == 0 then [] else g[0] + Flatten(g[1..])
  }

  /** The multiset of values held by a grid. */
  function Contents<T>(g: Grid<T>): multiset<T> {
    multiset(Flatten(g))
  }

  /** Replacing one row by a permutation of itself keeps the contents. */
  lemma {:induction false} ReplaceRowContents<T>(g: Grid<T>, r: int, s: seq<T>)
    requires 0 <= r < |g| && multiset(s) == multiset(g[r])
    ensures Contents(g[r := s]) == Contents(g)
    decreases |g|
  {
    var h := g[r := s];
    if r > 0 {
      assert h[1..] == g[1..][r - 1 := s];
      ReplaceRowContents(g[1..], r - 1, s);
    } else {
      assert h[1..] == g[1..];
    }
  }

  lemma RowShiftContents<T>(g: Grid<T>, r: int, n: nat)
    requires RowOk(g, r, n)
    ensures Contents(RowLeft(g, r, n)) == Contents(g)
    ensures Contents(RowRight(g, r, n)) == Contents(g)
  {
    var p := g[r][..n];
    var q := g[r][n..];
    assert g[r] == p + q;
    ShiftPreservesMultiset(p);
    assert RowLeft(g, r, n)[r] == ShiftLeft(p) + q;
    assert RowRight(g, r, n)[r] == ShiftRight(p) + q;
    ReplaceRowContents(g, r, ShiftLeft(p) + q);
    ReplaceRowContents(g, r, ShiftRight(p) + q);
    assert RowLeft(g, r, n) == g[r := ShiftLeft(p) + q];
    assert RowRight(g, r, n) == g[r := ShiftRight(p) + q];
  }

  /** Every row with column `c` removed. */
  function DropColumn<T>(g: Grid<T>, c: int): (h: Grid<T>)
    requires ColOk(g, c, |g|)
    ensures |h| == |g|
    ensures forall i :: 0 <= i < |g| ==> h[i] == g[i][..c] + g[i][c + 1..]
  {
    seq(|g|, i requires 0 <= i < |g| => g[i][..c] + g[i][c + 1..])
  }

  /** The contents split into one column and the rest of the grid. */
  lemma {:induction false} ColumnSplit<T>(g: Grid<T>, c: int)
    requires ColOk(g, c, |g|)
    ensures Contents(g) == multiset(Column(g, c, |g|)) + Contents(DropColumn(g, c))
    decreases |g|
  {
    if |g| > 0 {
      var t := g[1..];
      var d := DropColumn(g, c);
      assert ColOk(t, c, |t|);
      ColumnSplit(t, c);
      assert Column(g, c, |g|) == [g[0][c]] + Column(t, c, |t|);
      assert d[1..] == DropColumn(t, c);
      CellSplit(g[0], c);
      ContentsCons(g);
      ContentsCons(d);
    }
  }

  lemma ContentsCons<T>(g: Grid<T>)
    requires |g| > 0
    ensures Contents(g) == multiset(g[0]) + Contents(g[1..])
  {
  }

  /** Every cell's value is among the grid's contents. */
  lemma {:induction false} CellInContents<T>(g: Grid<T>, r: int, c: int)
    requires 0 <= r < |g| && 0 <= c < |g[r]|
    ensures g[r][c] in Contents(g)
    decreases r
  {
    ContentsCons(g);
    if r > 0 {
      CellInContents(g[1..], r - 1, c);
    } else {
      assert g[0][c] in multiset(g[0]);
    }
  }

  /** Every value among the grid's contents sits in some cell. */
  lemma {:induction false} ContentsCell<T>(g: Grid<T>, v: T) returns (r: int, c: int)
    requires v in Contents(g)
    ensures 0 <= r < |g| && 0 <= c < |g[r]| && g[r][c] == v
    decreases |g|
  {
    ContentsCons(g);
    if v in multiset(g[0]) {
      r := 0;
      c :| 0 <= c < |g[0]| && g[0][c] == v;
    } else {
      var r', c' := ContentsCell(g[1..], v);
      r, c := r' + 1, c';
    }
  }

  /** A row holds its cell `c` and the cells either side of it. */
  lemma CellSplit<T>(row: seq<T>, c: int)
    requires 0 <= c < |row|
    ensures multiset(row) == multiset{row[c]} + multiset(row[..c] + row[c + 1..])
  {
    assert row == row[..c] + [row[c]] + row[c + 1..];
  }

  /** Writing a permutation of a full column back keeps the contents. */
  lemma ReplaceColumnContents<T>(g: Grid<T>, c: int, col: seq<T>)
    requires ColOk(g, c, |g|) && |col| == |g|
    requires multiset(col) == multiset(Column(g, c, |g|))
    ensures Contents(WithColumn(g, c, col)) == Contents(g)
  {
    var h := WithColumn(g, c, col);
    assert ColOk(h, c, |h|);
    ColumnSplit(g, c);
    ColumnSplit(h, c);
    assert Column(h, c, |h|) == col;
    DropWrittenColumn(g, c, col);
  }

  /** Writing column `c` leaves the rest of every row as it was. */
  lemma DropWrittenColumn<T>(g: Grid<T>, c: int, col: seq<T>)
    requires ColOk(g, c, |g|) && |col| == |g|
    ensures ColOk(WithColumn(g, c, col), c, |g|)
    ensures DropColumn(WithColumn(g, c, col), c) == DropColumn(g, c)
  {
    var h := WithColumn(g, c, col);
    forall i | 0 <= i < |g|
      ensures DropColumn(h, c)[i] == DropColumn(g, c)[i]
    {
      assert h[i] == g[i][c := col[i]];
      assert h[i][..c] == g[i][..c];
      assert h[i][c + 1..] == g[i][c + 1..];
    }
  }

  lemma ColShiftContents<T>(g: Grid<T>, c: int)
    requires ColOk(g, c, |g|)
    ensures Contents(ColUp(g, c, |g|)) == Contents(g)
    ensures Contents(ColDown(g, c, |g|)) == Contents(g)
  {
    var col := Column(g, c, |g|);
    ShiftPreservesMultiset(col);
    ReplaceColumnContents(g, c, ShiftLeft(col));
    ReplaceColumnContents(g, c, ShiftRight(col));
  }
}
