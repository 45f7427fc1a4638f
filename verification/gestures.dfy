/** The pointer-gesture state machine of `Control` in control.js: a press
    inside the board selects a cell, drag samples commit the gesture to
    one axis and preview it, and the release turns it into a move.  Only
    the gesture state lives here; what the gesture does to the level and
    the undo stack is in module `Control`.

    Pointer coordinates are integers.  A pointer leaving the canvas during
    a drag is delivered as an ordinary release. */
module Gestures {
  import opened Options
  import opened BaseControl

  /** The CSS padding around the board, in pixels. */
  const Padding: int := 5

  /** A drag must exceed this many pixels along an axis to commit to it. */
  const SwipeThreshold: int := 10

  datatype Point = Point(x: int, y: int)

  datatype Cell = Cell(row: int, col: int)

  /** The canvas's bounding rectangle. */
  datatype Rect = Rect(left: int, top: int, width: int, height: int)

  /** `swipeStartX/Y` (absent when null), `draggedX/Y`, `candragX/Y`,
      `isDragging`, `draggingH`, `draggingV` and `selectedCell`. */
  datatype Gesture = Gesture(start: Option<Point>, dragged: Point, candragX: int, candragY: int,
                             isDragging: bool, draggingH: bool, draggingV: bool, selected: Cell)

  /** The constructor's values. */
  function NewGesture(): (g: Gesture)
    ensures !g.isDragging && !g.draggingH && !g.draggingV && g.start.None?
    ensures g.candragX == 1 && g.candragY == 1 && g.selected == Cell(-1, -1)
  {
    Gesture(None, Point(0, 0), 1, 1, false, false, false, Cell(-1, -1))
  }

  /** The start point as JavaScript arithmetic sees it: null counts as 0. */
  function StartOf(g: Gesture): Point {
    match g.start
    case None => Point(0, 0)
    case Some(p) => p
  }

  function Abs(x: int): (a: int)
    ensures a >= 0 && (a == x || a == -x)
  {
    if x < 0 then -x else x
  }

  /** The board strictly inside the padding. */
  predicate Inside(rect: Rect, p: Point) {
    && p.x > rect.left + Padding && p.y > rect.top + Padding
    && p.x < rect.left + rect.width - Padding && p.y < rect.top + rect.height - Padding
  }

  /** A canvas exactly one cell per row and column, plus the padding. */
  predicate Fits(rect: Rect, rows: int, cols: int, cellW: int, cellH: int) {
    rect.width == cols * cellW + 2 * Padding && rect.height == rows * cellH + 2 * Padding
  }

  predicate CellIn(s: Cell, rows: int, cols: int) {
    0 <= s.row < rows && 0 <= s.col < cols
  }

  /** The mousedown handler: a press strictly inside the padded board starts
      a gesture at `p` and selects the cell under it; any other press is
      ignored.  The axis flags are left as they were. */
  function Press(g: Gesture, rect: Rect, p: Point, cellW: int, cellH: int): (g': Gesture)
    requires cellW > 0 && cellH > 0
    ensures !Inside(rect, p) ==> g' == g
    ensures Inside(rect, p) ==>
              && g'.isDragging && g'.start == Some(p) && g'.dragged == p
              && g'.candragX == 1 && g'.candragY == 1
              && g'.draggingH == g.draggingH && g'.draggingV == g.draggingV
    ensures Inside(rect, p) ==>
              && g'.selected.row * cellH <= p.y - (rect.top + Padding) < (g'.selected.row + 1) * cellH
              && g'.selected.col * cellW <= p.x - (rect.left + Padding) < (g'.selected.col + 1) * cellW
  {
    if Inside(rect, p) then
      var row := (p.y - (rect.top + Padding)) / cellH;
      var col := (p.x - (rect.left + Padding)) / cellW;
      g.(isDragging := true, candragX := 1, candragY := 1, start := Some(p), dragged := p,
         selected := Cell(row, col))
    else g
  }

  /** On a canvas that fits the board, an accepted press selects a cell of
      the board. */
  lemma PressSelectsCell(g: Gesture, rect: Rect, p: Point, rows: int, cols: int, cellW: int, cellH: int)
    requires cellW > 0 && cellH > 0 && Fits(rect, rows, cols, cellW, cellH) && Inside(rect, p)
    ensures CellIn(Press(g, rect, p, cellW, cellH).selected, rows, cols)
  {
    var s := Press(g, rect, p, cellW, cellH).selected;
    MulCancel(s.row, rows, cellH);
    MulCancel(-1, s.row, cellH);
    MulCancel(s.col, cols, cellW);
    MulCancel(-1, s.col, cellW);
  }

  lemma MulCancel(a: int, b: int, k: int)
    requires k > 0 && a * k < b * k
    ensures a < b
  {
  }

  /** A displacement capped to one cell, keeping its sign. */
  function Cap(raw: int, cell: int): (d: int)
    requires cell > 0
    ensures -cell <= d <= cell
    ensures -cell <= raw <= cell ==> d == raw
    ensures raw > cell ==> d == cell
    ensures raw < -cell ==> d == -cell
  {
    if raw > cell then cell else if raw < -cell then -cell else raw
  }

  /** What a drag sample asks the view to do with the tiles. */
  datatype Preview = Still | SlideRow(row: int, dx: int) | SlideCol(col: int, dy: int)

  /** The horizontal commit test, on capped displacements. */
  predicate CommitsH(g: Gesture, dx: int, dy: int) {
    !g.draggingV && g.candragX > 0 && Abs(dx) > Abs(dy) && Abs(dx) > SwipeThreshold
  }

  /** The vertical commit test: ties go here. */
  predicate CommitsV(g: Gesture, dx: int, dy: int) {
    !g.draggingH && g.candragY > 0 && Abs(dy) >= Abs(dx) && Abs(dy) > SwipeThreshold
  }

  /** The mousemove handler.  Ignored unless a gesture is in progress;
      otherwise the displacement from the start is capped to one cell per
      axis, and when it commits (again) to an axis the selected row or
      column is previewed by the change in capped displacement since the
      last committed sample. */
  function Drag(g: Gesture, p: Point, cellW: int, cellH: int): (r: (Gesture, Preview))
    requires cellW > 0 && cellH > 0
    ensures !g.isDragging ==> r == (g, Still)
    ensures var dx, dy := Cap(p.x - StartOf(g).x, cellW), Cap(p.y - StartOf(g).y, cellH);
            && (r.1.SlideRow? <==> g.isDragging && CommitsH(g, dx, dy))
            && (r.1.SlideCol? <==> g.isDragging && !CommitsH(g, dx, dy) && CommitsV(g, dx, dy))
            && (r.1 != Still ==> r.0.dragged == Point(StartOf(g).x + dx, StartOf(g).y + dy))
    ensures r.1.Still? ==> r.0 == g
    ensures r.1.SlideRow? ==> && r.0 == g.(draggingH := true, candragY := 0, dragged := r.0.dragged)
                              && r.1 == SlideRow(g.selected.row, r.0.dragged.x - g.dragged.x)
    ensures r.1.SlideCol? ==> && r.0 == g.(draggingV := true, candragX := 0, dragged := r.0.dragged)
                              && r.1 == SlideCol(g.selected.col, r.0.dragged.y - g.dragged.y)
  {
    if !g.isDragging then (g, Still)
    else
      var s := StartOf(g);
      var dx := Cap(p.x - s.x, cellW);
      var dy := Cap(p.y - s.y, cellH);
      var deltaX := dx + s.x - g.dragged.x;
      var deltaY := dy + s.y - g.dragged.y;
      if CommitsH(g, dx, dy) then
        (g.(draggingH := true, candragY := 0, dragged := Point(dx + s.x, dy + s.y)), SlideRow(g.selected.row, deltaX))
      else if CommitsV(g, dx, dy) then
        (g.(draggingV := true, candragX := 0, dragged := Point(dx + s.x, dy + s.y)), SlideCol(g.selected.col, deltaY))
      else (g, Still)
  }

  /** The mouseup handler: a gesture committed to an axis becomes a move of
      the selected row (R if the raw horizontal displacement is positive,
      otherwise L) or column (D if the raw vertical displacement is
      positive, otherwise U); an uncommitted one becomes nothing.  Either
      way the gesture ends. */
  function Release(g: Gesture, p: Point): (r: (Gesture, Option<Move>))
    ensures r.0 == g.(isDragging := false, start := None, draggingH := false, draggingV := false)
    ensures r.1.Some? <==> g.draggingH || g.draggingV
    ensures g.draggingH ==> r.1 == Some(Move(if p.x > StartOf(g).x then 'R' else 'L', g.selected.row))
    ensures !g.draggingH && g.draggingV ==>
              r.1 == Some(Move(if p.y > StartOf(g).y then 'D' else 'U', g.selected.col))
  {
    var s := StartOf(g);
    var m :=
      if g.draggingH then Some(Move(if p.x - s.x > 0 then 'R' else 'L', g.selected.row))
      else if g.draggingV then Some(Move(if p.y - s.y > 0 then 'D' else 'U', g.selected.col))
      else None;
    (g.(isDragging := false, start := None, draggingH := false, draggingV := false), m)
  }

  // ---------------------------------------------------------------------
  // Properties of whole gestures

  /** What every reachable gesture state satisfies: at most one axis is
      committed, a committed or running gesture has a start, and the
      dragged point stays within one cell of the start on each axis. */
  predicate GestureOk(g: Gesture, cellW: int, cellH: int) {
    && !(g.draggingH && g.draggingV)
    && (g.isDragging || g.draggingH || g.draggingV ==> g.start.Some?)
    && (g.start.Some? ==> Abs(g.dragged.x - g.start.value.x) <= cellW && Abs(g.dragged.y - g.start.value.y) <= cellH)
  }

  lemma NewGestureOk(cellW: int, cellH: int)
    requires cellW > 0 && cellH > 0
    ensures GestureOk(NewGesture(), cellW, cellH)
  {
  }

  /** Press, drag and release keep the gesture well formed. */
  lemma StepsKeepGestureOk(g: Gesture, rect: Rect, p: Point, cellW: int, cellH: int)
    requires cellW > 0 && cellH > 0 && GestureOk(g, cellW, cellH)
    ensures GestureOk(Press(g, rect, p, cellW, cellH), cellW, cellH)
    ensures GestureOk(Drag(g, p, cellW, cellH).0, cellW, cellH)
    ensures GestureOk(Release(g, p).0, cellW, cellH)
  {
  }

  /** Drag samples in order. */
  function DragAll(g: Gesture, ps: seq<Point>, cellW: int, cellH: int): Gesture
    requires cellW > 0 && cellH > 0
    decreases |ps|
  {
    if |ps| == 0 then g else DragAll(Drag(g, ps[0], cellW, cellH).0, ps[1..], cellW, cellH)
  }

  /** Once a gesture has committed to the horizontal axis, no later sample
      of it can preview a column or commit it vertically, and it stays
      horizontal until released. */
  lemma {:induction false} HorizontalIsFinal(g: Gesture, ps: seq<Point>, cellW: int, cellH: int)
    requires cellW > 0 && cellH > 0 && g.draggingH
    decreases |ps|
    ensures DragAll(g, ps, cellW, cellH).draggingH
    ensures forall i :: 0 <= i < |ps| ==> !Drag(DragAll(g, ps[..i], cellW, cellH), ps[i], cellW, cellH).1.SlideCol?
  {
    if |ps| > 0 {
      var g1 := Drag(g, ps[0], cellW, cellH).0;
      HorizontalIsFinal(g1, ps[1..], cellW, cellH);
      forall i | 0 <= i < |ps|
        ensures !Drag(DragAll(g, ps[..i], cellW, cellH), ps[i], cellW, cellH).1.SlideCol?
      {
        if i > 0 {
          assert ps[..i][1..] == ps[1..][..i - 1];
          assert ps[i] == ps[1..][i - 1];
        }
      }
    }
  }

  /** Likewise for the vertical axis. */
  lemma {:induction false} VerticalIsFinal(g: Gesture, ps: seq<Point>, cellW: int, cellH: int)
    requires cellW > 0 && cellH > 0 && g.draggingV && !g.draggingH
    decreases |ps|
    ensures DragAll(g, ps, cellW, cellH).draggingV
    ensures forall i :: 0 <= i < |ps| ==> !Drag(DragAll(g, ps[..i], cellW, cellH), ps[i], cellW, cellH).1.SlideRow?
  {
    if |ps| > 0 {
      var g1 := Drag(g, ps[0], cellW, cellH).0;
      VerticalIsFinal(g1, ps[1..], cellW, cellH);
      forall i | 0 <= i < |ps|
        ensures !Drag(DragAll(g, ps[..i], cellW, cellH), ps[i], cellW, cellH).1.SlideRow?
      {
        if i > 0 {
          assert ps[..i][1..] == ps[1..][..i - 1];
          assert ps[i] == ps[1..][i - 1];
        }
      }
    }
  }

  /** A fresh gesture whose capped displacements are equal and past the
      threshold commits vertically.  With square cells this includes every
      sample more than one cell away on both axes, however much further
      it went horizontally. */
  lemma TieGoesVertical(g: Gesture, p: Point, cellW: int, cellH: int)
    requires cellW > 0 && cellH > 0
    requires g.isDragging && !g.draggingH && !g.draggingV && g.candragX == 1 && g.candragY == 1
    requires var dx, dy := Cap(p.x - StartOf(g).x, cellW), Cap(p.y - StartOf(g).y, cellH);
             Abs(dx) == Abs(dy) > SwipeThreshold
    ensures Drag(g, p, cellW, cellH).1.SlideCol?
    ensures Drag(g, p, cellW, cellH).0.draggingV
  {
  }

  lemma FarDiagonalGoesVertical(g: Gesture, p: Point, cell: int)
    requires cell > SwipeThreshold
    requires g.isDragging && !g.draggingH && !g.draggingV && g.candragX == 1 && g.candragY == 1
    requires Abs(p.x - StartOf(g).x) >= cell && Abs(p.y - StartOf(g).y) >= cell
    ensures Drag(g, p, cell, cell).1.SlideCol?
  {
    TieGoesVertical(g, p, cell, cell);
  }

  /** A release right where the gesture started, after a horizontal commit,
      is a left move: zero counts as left (and as up, vertically). */
  lemma ZeroReleaseIsLeftOrUp(g: Gesture)
    requires g.draggingH || g.draggingV
    ensures g.draggingH ==> Release(g, StartOf(g)).1.value.axis == 'L'
    ensures !g.draggingH ==> Release(g, StartOf(g)).1.value.axis == 'U'
  {
  }
}
