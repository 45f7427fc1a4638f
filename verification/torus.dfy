/** The `Torus` class of torus.js: a rectangular array of values whose rows
    and columns can be rotated with wrap-around.  The class mutates its
    array in place; here each operation returns the new torus. */
module Toroidal {
  import opened Options
  import opened Rotation
  import RotationLaws

  datatype Torus<T> = Torus(rows: nat, cols: nat, cells: Grid<T>)

  /** ROWS is the number of rows, every row has COLS cells, and there is
      at least one row (the constructor reads row 0). */
  predicate Valid<T>(t: Torus<T>) {
    && t.rows == |t.cells| && t.rows > 0
    && forall r :: 0 <= r < t.rows ==> |t.cells[r]| == t.cols
  }

  predicate SameShape<T, U>(t: Torus<T>, u: Torus<U>) {
    t.rows == u.rows && t.cols == u.cols
  }

  /** What the copy loop of the constructor can read without running off a
      row: no row is shorter than the first. */
  predicate Copyable<T>(a: Grid<T>) {
    forall r :: 0 <= r < |a| ==> |a[r]| >= |a[0]|
  }

  /** `valueAt(row, col)`. */
  function ValueAt<T>(t: Torus<T>, r: int, c: int): T
    requires Valid(t) && 0 <= r < t.rows && 0 <= c < t.cols
  {
    t.cells[r][c]
  }

  /** The value read at any position is one the torus holds. */
  lemma ValueAtIsHeld<T>(t: Torus<T>, r: int, c: int)
    requires Valid(t) && 0 <= r < t.rows && 0 <= c < t.cols
    ensures ValueAt(t, r, c) in Contents(t)
    ensures forall v :: v in Contents(t) ==> exists i, j :: 0 <= i < t.rows && 0 <= j < t.cols && ValueAt(t, i, j) == v
  {
    RotationLaws.CellInContents(t.cells, r, c);
    forall v | v in Contents(t)
      ensures exists i, j :: 0 <= i < t.rows && 0 <= j < t.cols && ValueAt(t, i, j) == v
    {
      var i, j := RotationLaws.ContentsCell(t.cells, v);
      assert ValueAt(t, i, j) == v;
    }
  }

  /** The multiset of values the torus holds. */
  function Contents<T>(t: Torus<T>): multiset<T> {
    RotationLaws.Contents(t.cells)
  }

  /** `new Torus(anArray)`: ROWS is the outer length, COLS the length of the
      first row, and the first COLS cells of every row are copied.  An
      empty array has no row 0 to read, so construction fails. */
  function FromArray<T>(a: Grid<T>): (t: Option<Torus<T>>)
    requires Copyable(a)
    ensures t.None? <==> |a| == 0
    ensures t.Some? ==> Valid(t.value) && t.value.rows == |a| && t.value.cols == |a[0]|
    ensures t.Some? ==> forall r, c :: 0 <= r < |a| && 0 <= c < |a[0]| ==> ValueAt(t.value, r, c) == a[r][c]
  {
    if |a| == 0 then None
    else Some(Torus(|a|, |a[0]|, seq(|a|, r requires 0 <= r < |a| => a[r][..|a[0]|])))
  }

  /** `a` has a cell for every position of `t`. */
  predicate Covers<T>(a: Grid<T>, rows: nat, cols: nat) {
    |a| >= rows && forall r :: 0 <= r < rows ==> |a[r]| >= cols
  }

  /** `reset(anArray)`: copy the matching cells of `a` over the torus,
      keeping its dimensions. */
  function Reset<T>(t: Torus<T>, a: Grid<T>): (u: Torus<T>)
    requires Valid(t) && Covers(a, t.rows, t.cols)
    ensures Valid(u) && SameShape(u, t)
    ensures forall r, c :: 0 <= r < t.rows && 0 <= c < t.cols ==> ValueAt(u, r, c) == a[r][c]
  {
    Torus(t.rows, t.cols, seq(t.rows, r requires 0 <= r < t.rows => a[r][..t.cols]))
  }

  /** Resetting to a rectangular array of the torus's shape gives the same
      torus as constructing a fresh one from that array. */
  lemma ResetIsFreshCopy<T>(t: Torus<T>, a: Grid<T>)
    requires Valid(t) && |a| == t.rows
    requires forall r :: 0 <= r < |a| ==> |a[r]| == t.cols
    ensures Copyable(a) && FromArray(a).Some?
    ensures Reset(t, a) == FromArray(a).value
    ensures Reset(t, a).cells == a
  {
    var u := Reset(t, a);
    forall r | 0 <= r < t.rows
      ensures u.cells[r] == a[r]
    {
      assert a[r][..t.cols] == a[r];
    }
  }

  /** `rotateRowLeft(row)`: cell (r, i) takes the old (r, i+1), wrapping. */
  function RotateRowLeft<T>(t: Torus<T>, r: int): (u: Torus<T>)
    requires Valid(t) && 0 <= r < t.rows
    ensures Valid(u) && SameShape(u, t)
    ensures forall i :: 0 <= i < t.cols ==> ValueAt(u, r, i) == ValueAt(t, r, Succ(i, t.cols))
    ensures forall q :: 0 <= q < t.rows && q != r ==> u.cells[q] == t.cells[q]
    ensures Contents(u) == Contents(t)
  {
    RotationLaws.RowShiftContents(t.cells, r, t.cols);
    Torus(t.rows, t.cols, RowLeft(t.cells, r, t.cols))
  }

  /** `rotateRowRight(row)`: cell (r, i) takes the old (r, i-1), wrapping. */
  function RotateRowRight<T>(t: Torus<T>, r: int): (u: Torus<T>)
    requires Valid(t) && 0 <= r < t.rows
    ensures Valid(u) && SameShape(u, t)
    ensures forall i :: 0 <= i < t.cols ==> ValueAt(u, r, i) == ValueAt(t, r, Pred(i, t.cols))
    ensures forall q :: 0 <= q < t.rows && q != r ==> u.cells[q] == t.cells[q]
    ensures Contents(u) == Contents(t)
  {
    RotationLaws.RowShiftContents(t.cells, r, t.cols);
    Torus(t.rows, t.cols, RowRight(t.cells, r, t.cols))
  }

  /** Every cell outside column `c` is the same in `t` and `u`. */
  ghost predicate OtherColumnsSame<T>(t: Torus<T>, u: Torus<T>, c: int)
    requires Valid(t) && Valid(u) && SameShape(t, u)
  {
    forall q, j :: 0 <= q < t.rows && 0 <= j < t.cols && j != c ==> u.cells[q][j] == t.cells[q][j]
  }

  /** `rotateColUp(col)`: cell (i, c) takes the old (i+1, c), wrapping. */
  function RotateColUp<T>(t: Torus<T>, c: int): (u: Torus<T>)
    requires Valid(t) && 0 <= c < t.cols
    ensures Valid(u) && SameShape(u, t)
    ensures forall i :: 0 <= i < t.rows ==> ValueAt(u, i, c) == ValueAt(t, Succ(i, t.rows), c)
    ensures OtherColumnsSame(t, u, c)
    ensures Contents(u) == Contents(t)
  {
    var u := Torus(t.rows, t.cols, ColUp(t.cells, c, t.rows));
    assert Contents(u) == Contents(t) by {
      assert t.rows == |t.cells|;
      RotationLaws.ColShiftContents(t.cells, c);
    }
    assert Valid(u);
    assert forall i :: 0 <= i < t.rows ==> ValueAt(u, i, c) == ValueAt(t, Succ(i, t.rows), c) by {
      forall i | 0 <= i < t.rows ensures u.cells[i][c] == t.cells[Succ(i, t.rows)][c] {
        if i < t.rows - 1 {
          assert u.cells[i][c] == t.cells[i + 1][c];
        }
      }
    }
    u
  }

  /** `rotateColDown(col)`: cell (i, c) takes the old (i-1, c), wrapping. */
  function RotateColDown<T>(t: Torus<T>, c: int): (u: Torus<T>)
    requires Valid(t) && 0 <= c < t.cols
    ensures Valid(u) && SameShape(u, t)
    ensures forall i :: 0 <= i < t.rows ==> ValueAt(u, i, c) == ValueAt(t, Pred(i, t.rows), c)
    ensures OtherColumnsSame(t, u, c)
    ensures Contents(u) == Contents(t)
  {
    var u := Torus(t.rows, t.cols, ColDown(t.cells, c, t.rows));
    assert Contents(u) == Contents(t) by {
      assert t.rows == |t.cells|;
      RotationLaws.ColShiftContents(t.cells, c);
    }
    assert Valid(u);
    assert forall i :: 0 <= i < t.rows ==> ValueAt(u, i, c) == ValueAt(t, Pred(i, t.rows), c) by {
      forall i | 0 <= i < t.rows ensures u.cells[i][c] == t.cells[Pred(i, t.rows)][c] {
        if i > 0 {
          assert u.cells[i][c] == t.cells[i - 1][c];
        }
      }
    }
    u
  }

  lemma RowRotationsInverse<T>(t: Torus<T>, r: int)
    requires Valid(t) && 0 <= r < t.rows
    ensures RotateRowRight(RotateRowLeft(t, r), r) == t
    ensures RotateRowLeft(RotateRowRight(t, r), r) == t
  {
    RotationLaws.RowRightUndoesRowLeft(t.cells, r, t.cols);
    RotationLaws.RowLeftUndoesRowRight(t.cells, r, t.cols);
  }

  lemma ColRotationsInverse<T>(t: Torus<T>, c: int)
    requires Valid(t) && 0 <= c < t.cols
    ensures RotateColDown(RotateColUp(t, c), c) == t
    ensures RotateColUp(RotateColDown(t, c), c) == t
  {
    RotationLaws.ColDownUndoesColUp(t.cells, c, t.rows);
    RotationLaws.ColUpUndoesColDown(t.cells, c, t.rows);
  }

  // ---------------------------------------------------------------------
  // The win test

  /** The closure returned by `equalityTestF`: it holds references to the
      two arrays and the dimensions of the first, read when it was built. */
  datatype EqualityTest = EqualityTest(rows: nat, cols: nat)

  function EqualityTestF<T>(t: Torus<T>, other: Torus<T>): (f: EqualityTest)
    requires Valid(t)
    ensures f.rows == t.rows && f.cols == t.cols
  {
    EqualityTest(|t.cells|, |t.cells[0]|)
  }

  /** Both arrays agree on every position the test looks at. */
  ghost predicate Agree<T>(f: EqualityTest, a1: Grid<T>, a2: Grid<T>)
    requires Covers(a1, f.rows, f.cols) && Covers(a2, f.rows, f.cols)
  {
    forall r, c :: 0 <= r < f.rows && 0 <= c < f.cols ==> a1[r][c] == a2[r][c]
  }

  /** Calling the closure on the arrays as they are now: a row-by-row scan
      that returns false at the first differing cell. */
  method RunEqualityTest<T(==)>(f: EqualityTest, a1: Grid<T>, a2: Grid<T>) returns (same: bool)
    requires Covers(a1, f.rows, f.cols) && Covers(a2, f.rows, f.cols)
    ensures same <==> forall r, c :: 0 <= r < f.rows && 0 <= c < f.cols ==> a1[r][c] == a2[r][c]
  {
    var row := 0;
    while row < f.rows
      invariant 0 <= row <= f.rows
      invariant forall r, c :: 0 <= r < row && 0 <= c < f.cols ==> a1[r][c] == a2[r][c]
    {
      var col := 0;
      while col < f.cols
        invariant 0 <= col <= f.cols
        invariant forall c :: 0 <= c < col ==> a1[row][c] == a2[row][c]
      {
        if a1[row][col] != a2[row][col] {
          return false;
        }
        col := col + 1;
      }
      row := row + 1;
    }
    return true;
  }

  /** The win check: a test built from the goal and the play torus decides
      equality of the two, whatever rotations the play torus has gone
      through since (they keep its shape), and one differing cell is
      enough to make it false. */
  lemma WinTestDecidesEquality<T>(goal: Torus<T>, initial: Torus<T>, now: Torus<T>)
    requires Valid(goal) && Valid(initial) && Valid(now)
    requires SameShape(goal, initial) && SameShape(initial, now)
    ensures Covers(goal.cells, EqualityTestF(goal, initial).rows, EqualityTestF(goal, initial).cols)
    ensures Covers(now.cells, EqualityTestF(goal, initial).rows, EqualityTestF(goal, initial).cols)
    ensures Agree(EqualityTestF(goal, initial), goal.cells, now.cells) <==> goal == now
  {
    var f := EqualityTestF(goal, initial);
    if Agree(f, goal.cells, now.cells) {
      forall r | 0 <= r < goal.rows
        ensures goal.cells[r] == now.cells[r]
      {
      }
    }
  }
}
