/** The play controller `Control` of control.js: the gesture state machine
    applied to the level, the move counter shown by the view, the undo
    stack, and undo itself, which replays the inverse move through the
    animation of `Basecontrol`. */
module Control {
  import opened Options
  import opened Decimal
  import opened Toroidal
  import opened Levels
  import opened BaseControl
  import opened Gestures

  /** The controller's state.  `moves` is the view's move counter, which
      the controller bumps on every committed release and lowers on every
      undo; `cellW` and `cellH` are the view's cell size. */
  datatype Ctl = Ctl(level: Level, gesture: Gesture, undo: seq<Move>, anim: Animator,
                     moves: int, cellW: int, cellH: int)

  /** Every undo entry names a move the level can take. */
  predicate StackOk(lv: Level, undo: seq<Move>) {
    forall i :: 0 <= i < |undo| ==> IsAxis(undo[i].axis) && InRange(lv, undo[i])
  }

  /** What every controller state reachable through the operations below
      satisfies. */
  ghost predicate CtlOk(c: Ctl) {
    && Consistent(c.level) && AnimatorOk(c.anim, c.level)
    && c.cellW > 0 && c.cellH > 0
    && GestureOk(c.gesture, c.cellW, c.cellH)
    && (c.gesture.isDragging || c.gesture.draggingH || c.gesture.draggingV ==>
          CellIn(c.gesture.selected, c.level.puzzle.rows, c.level.puzzle.cols))
    && StackOk(c.level, c.undo)
  }

  /** `new Control(level)`: no gesture, an empty undo stack, nothing
      animating. */
  function NewCtl(lv: Level, cellW: int, cellH: int): (c: Ctl)
    requires Consistent(lv) && cellW > 0 && cellH > 0
    ensures CtlOk(c)
    ensures c.level == lv && c.undo == [] && !c.anim.animating && c.anim.inflight == [] && c.moves == 0
  {
    Ctl(lv, NewGesture(), [], NewAnimator(), 0, cellW, cellH)
  }

  /** A mousedown on a canvas `rect` sized to the board. */
  function Press(c: Ctl, rect: Rect, p: Point): (c': Ctl)
    requires CtlOk(c) && Fits(rect, c.level.puzzle.rows, c.level.puzzle.cols, c.cellW, c.cellH)
    ensures CtlOk(c')
    ensures c' == c.(gesture := c'.gesture)
    ensures c'.gesture == Gestures.Press(c.gesture, rect, p, c.cellW, c.cellH)
  {
    var g := Gestures.Press(c.gesture, rect, p, c.cellW, c.cellH);
    StepsKeepGestureOk(c.gesture, rect, p, c.cellW, c.cellH);
    if Inside(rect, p) then
      PressSelectsCell(c.gesture, rect, p, c.level.puzzle.rows, c.level.puzzle.cols, c.cellW, c.cellH);
      c.(gesture := g)
    else c
  }

  /** A mousemove: the previewed row or column of tiles moves by the
      sample's delta; the numbers do not change. */
  function DragTo(c: Ctl, p: Point): (c': Ctl)
    requires CtlOk(c)
    ensures CtlOk(c')
    ensures c' == c.(gesture := c'.gesture, level := c.level.(tiles := c'.level.tiles))
    ensures c'.level.tiles == c.level.tiles.(cells := c'.level.tiles.cells)
    ensures c'.gesture == Drag(c.gesture, p, c.cellW, c.cellH).0
    ensures var pv := Drag(c.gesture, p, c.cellW, c.cellH).1;
            forall r, q :: 0 <= r < c.level.puzzle.rows && 0 <= q < c.level.puzzle.cols ==>
              var t := ValueAt(c.level.tiles, r, q);
              ValueAt(c'.level.tiles, r, q) ==
                if pv.SlideRow? && r == pv.row then Tiles.UpdatePositionBy(t, pv.dx, 0)
                else if pv.SlideCol? && q == pv.col then Tiles.UpdatePositionBy(t, 0, pv.dy)
                else t
  {
    var (g, pv) := Drag(c.gesture, p, c.cellW, c.cellH);
    StepsKeepGestureOk(c.gesture, Rect(0, 0, 0, 0), p, c.cellW, c.cellH);
    var lv :=
      match pv
      case Still => c.level
      case SlideRow(r, dx) => ShiftRowTiles(c.level, r, dx)
      case SlideCol(q, dy) => ShiftColTiles(c.level, q, dy);
    c.(gesture := g, level := lv)
  }

  /** A mouseup (or the pointer leaving the canvas).  A committed gesture
      becomes a move: the counter goes up, both tori turn at once, the
      inverse move is pushed for undo, and the moved line's tiles are set
      back on their cells.  An uncommitted one only ends the gesture. */
  function Release(c: Ctl, p: Point): (c': Ctl)
    requires CtlOk(c)
    ensures CtlOk(c')
    ensures c'.gesture == Gestures.Release(c.gesture, p).0
    ensures c'.anim == c.anim
    ensures Gestures.Release(c.gesture, p).1.None? ==> c' == c.(gesture := c'.gesture)
    ensures Gestures.Release(c.gesture, p).1.Some? ==>
              var m := Gestures.Release(c.gesture, p).1.value;
              && IsAxis(m.axis) && InRange(c.level, m)
              && c' == c.(gesture := c'.gesture, level := c'.level, moves := c.moves + 1,
                          undo := c.undo + [Inverse(m)])
              && c'.level == Commit(c.level, m, c.cellW, c.cellH)
  {
    var (g, mo) := Gestures.Release(c.gesture, p);
    StepsKeepGestureOk(c.gesture, Rect(0, 0, 0, 0), p, c.cellW, c.cellH);
    match mo
    case None => c.(gesture := g)
    case Some(m) =>
      var lv := Commit(c.level, m, c.cellW, c.cellH);
      PushKeepsStackOk(c.level, lv, c.undo, Inverse(m));
      SameDimsKeepAnimatorOk(c.anim, c.level, lv);
      c.(gesture := g, level := lv, moves := c.moves + 1, undo := c.undo + [Inverse(m)])
  }

  /** What a committed release does to the level: both tori turn, and the
      tiles of the moved line are put back on their cells. */
  function Commit(lv: Level, m: Move, cellW: int, cellH: int): (u: Level)
    requires Consistent(lv) && IsAxis(m.axis) && InRange(lv, m)
    ensures Consistent(u) && u.puzzle.rows == lv.puzzle.rows && u.puzzle.cols == lv.puzzle.cols
    ensures u.puzzle == lv.puzzle.(torus := Rotate(lv.puzzle.torus, m)) && u.tilesRaw == lv.tilesRaw
    ensures u.tiles == Rotate(lv.tiles, m).(cells := u.tiles.cells)
    ensures forall r, q :: 0 <= r < lv.puzzle.rows && 0 <= q < lv.puzzle.cols ==>
              var t := ValueAt(Rotate(lv.tiles, m), r, q);
              ValueAt(u.tiles, r, q) ==
                if (m.axis == 'L' || m.axis == 'R') && r == m.index then t.(x := q * cellW)
                else if (m.axis == 'U' || m.axis == 'D') && q == m.index then t.(y := r * cellH)
                else t
  {
    if m.axis == 'R' || m.axis == 'L' then CommitRow(lv, m, cellW) else CommitCol(lv, m, cellH)
  }

  /** A committed horizontal move: both tori turn, and the row's tiles get
      the x of their new column. */
  function CommitRow(lv: Level, m: Move, cellW: int): (u: Level)
    requires Consistent(lv) && (m.axis == 'L' || m.axis == 'R') && InRange(lv, m)
    ensures Consistent(u) && u.puzzle.rows == lv.puzzle.rows && u.puzzle.cols == lv.puzzle.cols
    ensures u.puzzle == lv.puzzle.(torus := Rotate(lv.puzzle.torus, m)) && u.tilesRaw == lv.tilesRaw
    ensures u.tiles == Rotate(lv.tiles, m).(cells := u.tiles.cells)
    ensures forall r, q :: 0 <= r < lv.puzzle.rows && 0 <= q < lv.puzzle.cols ==>
              var t := ValueAt(Rotate(lv.tiles, m), r, q);
              ValueAt(u.tiles, r, q) == if r == m.index then t.(x := q * cellW) else t
  {
    var swiped := Swipe(lv, m);
    assert swiped.tiles == Rotate(lv.tiles, m);
    PlaceRowTiles(swiped, m.index, cellW, 0)
  }

  /** A committed vertical move: both tori turn, and the column's tiles get
      the y of their new row. */
  function CommitCol(lv: Level, m: Move, cellH: int): (u: Level)
    requires Consistent(lv) && (m.axis == 'U' || m.axis == 'D') && InRange(lv, m)
    ensures Consistent(u) && u.puzzle.rows == lv.puzzle.rows && u.puzzle.cols == lv.puzzle.cols
    ensures u.puzzle == lv.puzzle.(torus := Rotate(lv.puzzle.torus, m)) && u.tilesRaw == lv.tilesRaw
    ensures u.tiles == Rotate(lv.tiles, m).(cells := u.tiles.cells)
    ensures forall r, q :: 0 <= r < lv.puzzle.rows && 0 <= q < lv.puzzle.cols ==>
              var t := ValueAt(Rotate(lv.tiles, m), r, q);
              ValueAt(u.tiles, r, q) == if q == m.index then t.(y := r * cellH) else t
  {
    var u := PlaceColTiles(Swipe(lv, m), m.index, cellH, 0);
    CommitColCells(lv, m, cellH);
    u
  }

  /** The cells of a committed vertical move, proved apart from its shape. */
  lemma CommitColCells(lv: Level, m: Move, cellH: int)
    requires Consistent(lv) && (m.axis == 'U' || m.axis == 'D') && InRange(lv, m)
    ensures var u := PlaceColTiles(Swipe(lv, m), m.index, cellH, 0);
            forall r, q :: 0 <= r < lv.puzzle.rows && 0 <= q < lv.puzzle.cols ==>
              var t := ValueAt(Rotate(lv.tiles, m), r, q);
              ValueAt(u.tiles, r, q) == if q == m.index then t.(y := r * cellH) else t
  {
    var swiped := Swipe(lv, m);
    assert swiped.tiles == Rotate(lv.tiles, m);
  }

  lemma SameDimsKeepAnimatorOk(an: Animator, lv: Level, lv': Level)
    requires AnimatorOk(an, lv)
    requires lv'.puzzle.rows == lv.puzzle.rows && lv'.puzzle.cols == lv.puzzle.cols
    ensures AnimatorOk(an, lv')
  {
    assert forall i :: 0 <= i < |an.inflight| ==> InRange(lv', an.inflight[i].move) by {
      forall i | 0 <= i < |an.inflight| ensures InRange(lv', an.inflight[i].move) {
        assert InRange(lv, an.inflight[i].move);
      }
    }
  }

  lemma PushKeepsStackOk(lv: Level, lv': Level, undo: seq<Move>, m: Move)
    requires StackOk(lv, undo) && IsAxis(m.axis) && InRange(lv, m)
    requires lv'.puzzle.rows == lv.puzzle.rows && lv'.puzzle.cols == lv.puzzle.cols
    ensures StackOk(lv', undo + [m])
  {
  }

  // ---------------------------------------------------------------------
  // Undo

  /** `undo`, as intended: unless the stack is empty or an animation is
      running, lower the counter, pop the top entry and animate it; the
      move is committed by the animation's last frame. */
  function Undo(c: Ctl, now: real): (c': Ctl)
    requires CtlOk(c)
    ensures CtlOk(c')
    ensures |c.undo| == 0 || c.anim.animating ==> c' == c
    ensures |c.undo| > 0 && !c.anim.animating ==>
              && c'.anim.animating && c'.anim.slideTime == c.anim.slideTime
              && c'.moves == c.moves - 1
              && c'.undo == c.undo[..|c.undo| - 1]
              && c'.anim.inflight == c.anim.inflight + [Anim(c.undo[|c.undo| - 1], now)]
              && c' == c.(anim := c'.anim, moves := c.moves - 1, undo := c.undo[..|c.undo| - 1])
              && c'.anim == c.anim.(animating := true, inflight := c'.anim.inflight)
  {
    if |c.undo| == 0 || c.anim.animating then c
    else
      var top := c.undo[|c.undo| - 1];
      var an := c.anim.(animating := true);
      c.(anim := AnimateMove(an, c.level, top, now), moves := c.moves - 1, undo := c.undo[..|c.undo| - 1])
  }

  /** `undo` as written: the popped entry is turned into the string
      `axis + index` and handed to `animateAction`, which reads only the one
      character after the axis letter as the index. */
  function UndoAsWritten(c: Ctl, now: real): (c': Ctl)
    requires CtlOk(c)
    ensures CtlOk(c')
    ensures |c.undo| == 0 || c.anim.animating ==> c' == c
    ensures |c.undo| > 0 && !c.anim.animating ==>
              && c'.anim.animating && c'.moves == c.moves - 1
              && c'.undo == c.undo[..|c.undo| - 1]
              && c' == c.(anim := c'.anim, moves := c.moves - 1, undo := c.undo[..|c.undo| - 1])
              && c'.anim == c.anim.(animating := true, inflight := c'.anim.inflight)
              && var top := c.undo[|c.undo| - 1];
                 && ParseAction(ActionString(top)).Some?
                 && c'.anim.inflight == c.anim.inflight + [Anim(ParseAction(ActionString(top)).value, now)]
  {
    if |c.undo| == 0 || c.anim.animating then c
    else
      var top := c.undo[|c.undo| - 1];
      var an := c.anim.(animating := true);
      ActionStringRoundTrip(top);
      c.(anim := AnimateAction(an, c.level, ActionString(top), now), moves := c.moves - 1,
         undo := c.undo[..|c.undo| - 1])
  }

  /** For rows and columns numbered below 10 the two agree. */
  lemma UndoAsWrittenAgrees(c: Ctl, now: real)
    requires CtlOk(c) && |c.undo| > 0 && c.undo[|c.undo| - 1].index < 10
    ensures UndoAsWritten(c, now) == Undo(c, now)
  {
    ActionStringRoundTrip(c.undo[|c.undo| - 1]);
  }

  /** From row or column 10 on, the as-written undo schedules a move of the
      line named by the index's first digit, not the line the stack entry
      names: undoing a move of row 10 turns row 1 instead. */
  lemma UndoAsWrittenMissesLine(c: Ctl, now: real)
    requires CtlOk(c) && |c.undo| > 0 && !c.anim.animating && c.undo[|c.undo| - 1].index >= 10
    ensures var top := c.undo[|c.undo| - 1];
            var last := UndoAsWritten(c, now).anim.inflight[|c.anim.inflight|];
            && last.move.axis == top.axis
            && last.move.index != top.index
            && last.move.index == DigitValue(NatToString(top.index)[0])
  {
    var top := c.undo[|c.undo| - 1];
    ActionStringRoundTrip(top);
  }

  // ---------------------------------------------------------------------
  // Frames and reset

  /** A display frame for the `k`-th animation in flight. */
  function Tick(c: Ctl, k: int, time: real): (c': Ctl)
    requires CtlOk(c) && 0 <= k < |c.anim.inflight|
    ensures CtlOk(c')
    ensures c' == c.(anim := c'.anim, level := c'.level)
    ensures var f := BaseControl.Tick(c.anim, c.level, k, time, c.cellW, c.cellH);
            c'.anim == f.anim && c'.level == f.level
  {
    var f := BaseControl.Tick(c.anim, c.level, k, time, c.cellW, c.cellH);
    c.(anim := f.anim, level := f.level)
  }

  /** `reset`: the undo stack is emptied and `animating` cleared.  An
      animation already in flight is not stopped and still commits. */
  function Reset(c: Ctl): (c': Ctl)
    requires CtlOk(c)
    ensures CtlOk(c')
    ensures c' == c.(undo := [], anim := c'.anim)
    ensures c'.anim == c.anim.(animating := false)
  {
    c.(undo := [], anim := c.anim.(animating := false))
  }

  // ---------------------------------------------------------------------
  // Undo restores

  /** The move an undo of the top entry commits restores the number grid
      the committed release started from. */
  lemma ReleaseThenUndoRestores(c: Ctl, p: Point)
    requires CtlOk(c) && Gestures.Release(c.gesture, p).1.Some?
    ensures var c1 := Release(c, p);
            var top := c1.undo[|c1.undo| - 1];
            && InRange(c1.level, top)
            && Rotate(c1.level.puzzle.torus, top) == c.level.puzzle.torus
  {
    var m := Gestures.Release(c.gesture, p).1.value;
    RotateInverse(c.level.puzzle.torus, m);
  }

  /** A committed release, an undo, and the undo animation's last frame
      leave the numbers as they were before the release, with the counter
      back where it was and the undo stack as it was. */
  lemma ReleaseUndoFrameRestores(c: Ctl, p: Point, now: real, time: real)
    requires CtlOk(c) && Gestures.Release(c.gesture, p).1.Some? && !c.anim.animating
    requires time >= now + c.anim.slideTime
    ensures var c1 := Undo(Release(c, p), now);
            && |c1.anim.inflight| == |c.anim.inflight| + 1
            && var c2 := Tick(c1, |c.anim.inflight|, time);
               && c2.level.puzzle.torus == c.level.puzzle.torus
               && c2.moves == c.moves && c2.undo == c.undo
               && !c2.anim.animating && c2.anim.inflight == c.anim.inflight
  {
    var c0 := Release(c, p);
    ReleaseThenUndoRestores(c, p);
    var c1 := Undo(c0, now);
    assert c0.undo[..|c0.undo| - 1] == c.undo;
    var k := |c.anim.inflight|;
    assert c1.anim.inflight[k] == Anim(c0.undo[|c0.undo| - 1], now);
    var c2 := Tick(c1, k, time);
    assert RemoveAt(c1.anim.inflight, k) == c.anim.inflight;
  }

  /** Moves applied in order. */
  function SwipeAll(lv: Level, ms: seq<Move>): (u: Level)
    requires Consistent(lv) && StackOk(lv, ms)
    ensures Consistent(u) && u.puzzle.rows == lv.puzzle.rows && u.puzzle.cols == lv.puzzle.cols
    decreases |ms|
  {
    if |ms| == 0 then lv
    else
      var lv1 := Swipe(lv, ms[0]);
      assert StackOk(lv1, ms[1..]) by {
        forall i | 0 <= i < |ms| - 1 ensures IsAxis(ms[1..][i].axis) && InRange(lv1, ms[1..][i]) {
          assert ms[1..][i] == ms[i + 1];
        }
      }
      SwipeAll(lv1, ms[1..])
  }

  /** The inverses of `ms`, last move first: what the undo stack holds
      after the moves `ms`, read from its top. */
  function Undos(ms: seq<Move>): (us: seq<Move>)
    ensures |us| == |ms|
    ensures forall i :: 0 <= i < |ms| ==> us[i] == Inverse(ms[|ms| - 1 - i])
  {
    if |ms| == 0 then [] else [Inverse(ms[|ms| - 1])] + Undos(ms[..|ms| - 1])
  }

  /** Undoing every move, newest first, gives the level back. */
  lemma {:induction false} UndoAllRestores(lv: Level, ms: seq<Move>)
    requires Consistent(lv) && StackOk(lv, ms)
    ensures StackOk(SwipeAll(lv, ms), Undos(ms))
    ensures SwipeAll(SwipeAll(lv, ms), Undos(ms)) == lv
    decreases |ms|
  {
    if |ms| > 0 {
      var n := |ms| - 1;
      var front := ms[..n];
      var m := ms[n];
      assert front + [m] == ms;
      SwipeAllSnoc(lv, front, m);
      var mid := SwipeAll(lv, front);
      UndoAllRestores(lv, front);
      SwipeInverse(mid, m);
      var top := SwipeAll(lv, ms);
      assert top == Swipe(mid, m);
      UndosStackOk(lv, top, ms);
      assert Swipe(top, Inverse(m)) == mid;
      SwipeAllCons(top, Inverse(m), Undos(front));
    }
  }

  /** The inverses of moves a level can take can be taken by any level of
      the same dimensions. */
  lemma UndosStackOk(lv: Level, lv': Level, ms: seq<Move>)
    requires StackOk(lv, ms)
    requires lv'.puzzle.rows == lv.puzzle.rows && lv'.puzzle.cols == lv.puzzle.cols
    ensures StackOk(lv', Undos(ms))
  {
    var us := Undos(ms);
    forall i | 0 <= i < |us| ensures IsAxis(us[i].axis) && InRange(lv', us[i]) {
      var j := |ms| - 1 - i;
      assert IsAxis(ms[j].axis) && InRange(lv, ms[j]);
    }
  }

  lemma {:induction false} SwipeAllSnoc(lv: Level, ms: seq<Move>, m: Move)
    requires Consistent(lv) && StackOk(lv, ms + [m])
    ensures StackOk(lv, ms) && InRange(SwipeAll(lv, ms), m)
    ensures SwipeAll(lv, ms + [m]) == Swipe(SwipeAll(lv, ms), m)
    decreases |ms|
  {
    StackOkPrefix(lv, ms, m);
    if |ms| > 0 {
      var lv1 := Swipe(lv, ms[0]);
      SnocParts(ms, m);
      SwipeAllSnoc(lv1, ms[1..], m);
    } else {
      assert (ms + [m])[0] == m;
      assert (ms + [m])[1..] == [];
    }
  }

  lemma StackOkPrefix(lv: Level, ms: seq<Move>, m: Move)
    requires StackOk(lv, ms + [m])
    ensures StackOk(lv, ms) && IsAxis(m.axis) && InRange(lv, m)
  {
    assert forall i :: 0 <= i < |ms| ==> ms[i] == (ms + [m])[i];
    assert (ms + [m])[|ms|] == m;
  }

  lemma SnocParts<T>(s: seq<T>, x: T)
    requires |s| > 0
    ensures (s + [x])[0] == s[0] && (s + [x])[1..] == s[1..] + [x]
  {
  }

  lemma SwipeAllCons(lv: Level, m: Move, ms: seq<Move>)
    requires Consistent(lv) && StackOk(lv, [m] + ms)
    ensures SwipeAll(lv, [m] + ms) == SwipeAll(Swipe(lv, m), ms)
  {
    assert ([m] + ms)[1..] == ms;
  }
}
