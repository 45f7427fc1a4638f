/** The curried rotators of arrayutils.js (`leftRotator`, `rightRotator`,
    `upRotator`, `downRotator`).  Each takes an array, reads one dimension
    of it once, and returns a closure that rotates a row or column of that
    same array, by reference, over the captured dimension.  A closure is
    modelled as the loop it runs plus the dimension it captured, and
    calling it is `Apply` on the array as it is at call time. */
module Rotators {
  import opened Rotation
  import RotationLaws
  import Toroidal

  datatype Direction = Left | Right | Up | Down

  datatype Rotator = Rotator(dir: Direction, dim: nat)

  /** `leftRotator(a)`: COLS is the length of row 0 when the rotator is
      made.  On a rectangular array, calling it on row `r` does what
      `Torus.rotateRowLeft(r)` does to a torus built from the array. */
  function LeftRotator<T>(a: Grid<T>): (f: Rotator)
    requires |a| > 0
    ensures Rectangular(a) ==>
              && Toroidal.Copyable(a) && Toroidal.FromArray(a).Some?
              && forall r :: 0 <= r < |a| ==>
                Applicable(f, a, r) && Apply(f, a, r) == Toroidal.RotateRowLeft(Toroidal.FromArray(a).value, r).cells
  {
    RectangularCopy(a);
    Rotator(Left, |a[0]|)
  }

  /** `rightRotator(a)`: the same capture, turning right. */
  function RightRotator<T>(a: Grid<T>): (f: Rotator)
    requires |a| > 0
    ensures Rectangular(a) ==>
              && Toroidal.Copyable(a) && Toroidal.FromArray(a).Some?
              && forall r :: 0 <= r < |a| ==>
                Applicable(f, a, r) && Apply(f, a, r) == Toroidal.RotateRowRight(Toroidal.FromArray(a).value, r).cells
  {
    RectangularCopy(a);
    Rotator(Right, |a[0]|)
  }

  /** `upRotator(a)`: ROWS is the number of rows when the rotator is made. */
  function UpRotator<T>(a: Grid<T>): (f: Rotator)
    ensures Rectangular(a) ==>
              && Toroidal.Copyable(a) && Toroidal.FromArray(a).Some?
              && forall c :: 0 <= c < |a[0]| ==>
                Applicable(f, a, c) && Apply(f, a, c) == Toroidal.RotateColUp(Toroidal.FromArray(a).value, c).cells
  {
    RectangularCopy(a);
    Rotator(Up, |a|)
  }

  /** `downRotator(a)`: the same capture, turning down. */
  function DownRotator<T>(a: Grid<T>): (f: Rotator)
    ensures Rectangular(a) ==>
              && Toroidal.Copyable(a) && Toroidal.FromArray(a).Some?
              && forall c :: 0 <= c < |a[0]| ==>
                Applicable(f, a, c) && Apply(f, a, c) == Toroidal.RotateColDown(Toroidal.FromArray(a).value, c).cells
  {
    RectangularCopy(a);
    Rotator(Down, |a|)
  }

  /** A torus built from a rectangular array holds exactly that array. */
  lemma RectangularCopy<T>(a: Grid<T>)
    ensures Rectangular(a) ==>
              Toroidal.Copyable(a) && Toroidal.FromArray(a).Some? && Toroidal.FromArray(a).value.cells == a
  {
    if Rectangular(a) {
      var t := Toroidal.FromArray(a).value;
      forall r | 0 <= r < |a|
        ensures t.cells[r] == a[r]
      {
        assert a[r][..|a[0]|] == a[r];
      }
    }
  }

  /** The call reads only cells that exist: the row (or the first `dim`
      rows of the column) is long enough, and a column rotator has at
      least one row to read first. */
  predicate Applicable<T>(f: Rotator, b: Grid<T>, index: int) {
    match f.dir
    case Left => RowOk(b, index, f.dim)
    case Right => RowOk(b, index, f.dim)
    case Up => f.dim > 0 && ColOk(b, index, f.dim)
    case Down => f.dim > 0 && ColOk(b, index, f.dim)
  }

  /** Calling the closure on row or column `index` of the array `b`. */
  function Apply<T>(f: Rotator, b: Grid<T>, index: int): (h: Grid<T>)
    requires Applicable(f, b, index)
    ensures |h| == |b| && forall i :: 0 <= i < |b| ==> |h[i]| == |b[i]|
    // the width captured at creation bounds a row rotation, even if the
    // row has grown since: cells past it are left alone
    ensures (f.dir == Left || f.dir == Right) ==>
              forall j :: f.dim <= j < |b[index]| ==> h[index][j] == b[index][j]
  {
    match f.dir
    case Left => RowLeft(b, index, f.dim)
    case Right => RowRight(b, index, f.dim)
    case Up => ColUp(b, index, f.dim)
    case Down => ColDown(b, index, f.dim)
  }

  /** A rectangular array with at least one row. */
  predicate Rectangular<T>(a: Grid<T>) {
    |a| > 0 && forall r :: 0 <= r < |a| ==> |a[r]| == |a[0]|
  }

  /** `leftRotator(a)(r)` does to `a` what `Torus.rotateRowLeft(r)` does to
      a torus built from `a`, and likewise for the other three. */
  lemma RotatorsMatchTorus<T>(a: Grid<T>, index: int)
    requires Rectangular(a)
    ensures Toroidal.Copyable(a) && Toroidal.FromArray(a).Some?
    ensures 0 <= index < |a| ==>
              Apply(LeftRotator(a), a, index) == Toroidal.RotateRowLeft(Toroidal.FromArray(a).value, index).cells
    ensures 0 <= index < |a| ==>
              Apply(RightRotator(a), a, index) == Toroidal.RotateRowRight(Toroidal.FromArray(a).value, index).cells
    ensures 0 <= index < |a[0]| ==>
              Apply(UpRotator(a), a, index) == Toroidal.RotateColUp(Toroidal.FromArray(a).value, index).cells
    ensures 0 <= index < |a[0]| ==>
              Apply(DownRotator(a), a, index) == Toroidal.RotateColDown(Toroidal.FromArray(a).value, index).cells
  {
    RectangularCopy(a);
  }

  /** `rightRotator(a)(r)` undoes `leftRotator(a)(r)`, and the other way
      round, on whatever the array holds when they are called; no other
      row is touched. */
  lemma RowRotatorsInverse<T>(a: Grid<T>, b: Grid<T>, r: int)
    requires |a| > 0 && Applicable(LeftRotator(a), b, r)
    ensures Applicable(RightRotator(a), Apply(LeftRotator(a), b, r), r)
    ensures Apply(RightRotator(a), Apply(LeftRotator(a), b, r), r) == b
    ensures Applicable(LeftRotator(a), Apply(RightRotator(a), b, r), r)
    ensures Apply(LeftRotator(a), Apply(RightRotator(a), b, r), r) == b
    ensures forall i :: 0 <= i < |b| && i != r ==> Apply(LeftRotator(a), b, r)[i] == b[i]
    ensures forall i :: 0 <= i < |b| && i != r ==> Apply(RightRotator(a), b, r)[i] == b[i]
  {
    RotationLaws.RowRightUndoesRowLeft(b, r, |a[0]|);
    RotationLaws.RowLeftUndoesRowRight(b, r, |a[0]|);
  }

  /** `upRotator(a)(c)` and `downRotator(a)(c)` undo each other; cells
      outside column `c` are untouched. */
  lemma ColRotatorsInverse<T>(a: Grid<T>, b: Grid<T>, c: int)
    requires Applicable(UpRotator(a), b, c)
    ensures Applicable(DownRotator(a), Apply(UpRotator(a), b, c), c)
    ensures Apply(DownRotator(a), Apply(UpRotator(a), b, c), c) == b
    ensures Applicable(UpRotator(a), Apply(DownRotator(a), b, c), c)
    ensures Apply(UpRotator(a), Apply(DownRotator(a), b, c), c) == b
    ensures forall i, j :: 0 <= i < |b| && 0 <= j < |b[i]| && j != c ==>
              Apply(UpRotator(a), b, c)[i][j] == b[i][j]
    ensures forall i, j :: 0 <= i < |b| && 0 <= j < |b[i]| && j != c ==>
              Apply(DownRotator(a), b, c)[i][j] == b[i][j]
  {
    RotationLaws.ColDownUndoesColUp(b, c, |a|);
    RotationLaws.ColUpUndoesColDown(b, c, |a|);
  }
}
