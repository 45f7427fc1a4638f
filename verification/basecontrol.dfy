/** The `Basecontrol` class of basecontrol.js, shared by the play and the
    replay controllers: dispatching a move to both tori, and the animation
    that slides a row or column for `slide_time` milliseconds before the
    move is committed.

    The animation loop is driven by display frames.  Here each frame is an
    explicit `Tick` carrying the frame's timestamp; the caller decides when
    frames arrive.  Several animations can be in flight at once in the
    source (nothing but the callers' `animating` checks prevents it, and
    `reset` clears that flag without stopping a pending frame), so the
    animator keeps a list of them. */
module BaseControl {
  import opened Options
  import opened Decimal
  import opened Toroidal
  import opened Levels

  /** A move: an axis letter and the row or column it applies to. */
  datatype Move = Move(axis: char, index: int)

  predicate IsAxis(a: char) {
    a == 'U' || a == 'D' || a == 'L' || a == 'R'
  }

  /** The index names an existing column (U, D) or row (L, R). */
  predicate InRange(lv: Level, m: Move) {
    if m.axis == 'U' || m.axis == 'D' then 0 <= m.index < lv.puzzle.cols
    else if m.axis == 'L' || m.axis == 'R' then 0 <= m.index < lv.puzzle.rows
    else true
  }

  /** The axis letter that undoes `a`. */
  function Opposite(a: char): (b: char)
    ensures IsAxis(a) <==> IsAxis(b)
    ensures IsAxis(a) ==> b != a
    ensures a == 'U' <==> b == 'D'
    ensures a == 'L' <==> b == 'R'
  {
    if a == 'U' then 'D' else if a == 'D' then 'U'
    else if a == 'L' then 'R' else if a == 'R' then 'L'
    else a
  }

  /** The move that undoes `m`: the same line, the opposite direction. */
  function Inverse(m: Move): (i: Move)
    ensures i.index == m.index && (IsAxis(i.axis) <==> IsAxis(m.axis))
    ensures IsAxis(m.axis) ==> i.axis != m.axis
    ensures Move(Opposite(i.axis), i.index) == m
  {
    Move(Opposite(m.axis), m.index)
  }

  /** Taking the opposite twice gives the axis back. */
  lemma OppositeInvolutive(a: char)
    ensures Opposite(Opposite(a)) == a
  {
  }

  /** The rotation an axis letter names, on any torus. */
  function Rotate<T>(t: Torus<T>, m: Move): (u: Torus<T>)
    requires Valid(t)
    requires m.axis == 'U' || m.axis == 'D' ==> 0 <= m.index < t.cols
    requires m.axis == 'L' || m.axis == 'R' ==> 0 <= m.index < t.rows
    ensures Valid(u) && SameShape(u, t) && Contents(u) == Contents(t)
    ensures !IsAxis(m.axis) ==> u == t
  {
    if m.axis == 'U' then RotateColUp(t, m.index)
    else if m.axis == 'D' then RotateColDown(t, m.index)
    else if m.axis == 'L' then RotateRowLeft(t, m.index)
    else if m.axis == 'R' then RotateRowRight(t, m.index)
    else t
  }

  /** Rotating by a move and then by its inverse gives the torus back. */
  lemma RotateInverse<T>(t: Torus<T>, m: Move)
    requires Valid(t)
    requires m.axis == 'U' || m.axis == 'D' ==> 0 <= m.index < t.cols
    requires m.axis == 'L' || m.axis == 'R' ==> 0 <= m.index < t.rows
    ensures Rotate(Rotate(t, m), Inverse(m)) == t
  {
    if m.axis == 'U' || m.axis == 'D' {
      ColRotationsInverse(t, m.index);
    } else if m.axis == 'L' || m.axis == 'R' {
      RowRotationsInverse(t, m.index);
    }
  }

  /** `swipe(axis, index)`: the same rotation on the tile torus and on the
      number torus; an unknown axis letter changes nothing.  Because both
      tori turn alike, every tile still shows the number under it. */
  function Swipe(lv: Level, m: Move): (u: Level)
    requires Consistent(lv) && InRange(lv, m)
    ensures Consistent(u)
    ensures u.puzzle == lv.puzzle.(torus := u.puzzle.torus) && u.tilesRaw == lv.tilesRaw
    ensures u.puzzle.torus == Rotate(lv.puzzle.torus, m)
    ensures u.tiles == Rotate(lv.tiles, m)
    ensures !IsAxis(m.axis) ==> u == lv
  {
    var u := lv.(puzzle := lv.puzzle.(torus := Rotate(lv.puzzle.torus, m)),
                 tiles := Rotate(lv.tiles, m));
    SwipeKeepsTilesMatched(lv, m);
    u
  }

  lemma SwipeKeepsTilesMatched(lv: Level, m: Move)
    requires Consistent(lv) && InRange(lv, m)
    ensures Consistent(lv.(puzzle := lv.puzzle.(torus := Rotate(lv.puzzle.torus, m)),
                           tiles := Rotate(lv.tiles, m)))
  {
    assert Shows(lv.tiles, lv.puzzle.torus);
    TurnShows(lv.tiles, lv.puzzle.torus, m);
    ReplaceTori(lv, Rotate(lv.puzzle.torus, m), Rotate(lv.tiles, m));
  }

  /** Turning the tiles and the numbers alike keeps the tiles showing the numbers. */
  lemma TurnShows(tl: Torus<Tiles.Tile>, t: Torus<nat>, m: Move)
    requires Valid(tl) && Valid(t) && SameShape(tl, t) && Shows(tl, t)
    requires m.axis == 'U' || m.axis == 'D' ==> 0 <= m.index < t.cols
    requires m.axis == 'L' || m.axis == 'R' ==> 0 <= m.index < t.rows
    ensures Shows(Rotate(tl, m), Rotate(t, m))
  {
    if m.axis == 'U' {
      ColUpKeepsMatch(tl, t, m.index);
    } else if m.axis == 'D' {
      ColDownKeepsMatch(tl, t, m.index);
    } else if m.axis == 'L' {
      RowLeftKeepsMatch(tl, t, m.index);
    } else if m.axis == 'R' {
      RowRightKeepsMatch(tl, t, m.index);
    }
  }

  /** A consistent level stays consistent when both tori are replaced by
      same-shaped ones in which the tiles still show the numbers. */
  lemma ReplaceTori(lv: Level, t': Torus<nat>, tl': Torus<Tiles.Tile>)
    requires Consistent(lv)
    requires Valid(t') && SameShape(t', lv.puzzle.torus)
    requires Valid(tl') && SameShape(tl', t') && Shows(tl', t')
    ensures Consistent(lv.(puzzle := lv.puzzle.(torus := t'), tiles := tl'))
  {
    var u := lv.(puzzle := lv.puzzle.(torus := t'), tiles := tl');
    assert PuzzleValid(u.puzzle);
    assert TilesMatch(u);
  }

  /** Tiles whose images are the numbers of a torus. */
  ghost predicate Shows(tl: Torus<Tiles.Tile>, t: Torus<nat>)
    requires Valid(tl) && Valid(t) && SameShape(tl, t)
  {
    forall r, c :: 0 <= r < t.rows && 0 <= c < t.cols ==> ValueAt(tl, r, c).img == ValueAt(t, r, c)
  }

  lemma ColUpKeepsMatch(tl: Torus<Tiles.Tile>, t: Torus<nat>, k: int)
    requires Valid(tl) && Valid(t) && SameShape(tl, t) && Shows(tl, t) && 0 <= k < t.cols
    ensures Shows(RotateColUp(tl, k), RotateColUp(t, k))
  {
    var tl', t' := RotateColUp(tl, k), RotateColUp(t, k);
    forall r, c | 0 <= r < t.rows && 0 <= c < t.cols
      ensures ValueAt(tl', r, c).img == ValueAt(t', r, c)
    {
      if c == k {
        assert ValueAt(tl', r, c) == ValueAt(tl, Rotation.Succ(r, t.rows), c);
      } else {
        assert ValueAt(tl', r, c) == ValueAt(tl, r, c);
      }
    }
  }

  lemma ColDownKeepsMatch(tl: Torus<Tiles.Tile>, t: Torus<nat>, k: int)
    requires Valid(tl) && Valid(t) && SameShape(tl, t) && Shows(tl, t) && 0 <= k < t.cols
    ensures Shows(RotateColDown(tl, k), RotateColDown(t, k))
  {
    var tl', t' := RotateColDown(tl, k), RotateColDown(t, k);
    forall r, c | 0 <= r < t.rows && 0 <= c < t.cols
      ensures ValueAt(tl', r, c).img == ValueAt(t', r, c)
    {
      if c == k {
        assert ValueAt(tl', r, c) == ValueAt(tl, Rotation.Pred(r, t.rows), c);
      } else {
        assert ValueAt(tl', r, c) == ValueAt(tl, r, c);
      }
    }
  }

  lemma RowLeftKeepsMatch(tl: Torus<Tiles.Tile>, t: Torus<nat>, k: int)
    requires Valid(tl) && Valid(t) && SameShape(tl, t) && Shows(tl, t) && 0 <= k < t.rows
    ensures Shows(RotateRowLeft(tl, k), RotateRowLeft(t, k))
  {
    var tl', t' := RotateRowLeft(tl, k), RotateRowLeft(t, k);
    forall r, c | 0 <= r < t.rows && 0 <= c < t.cols
      ensures ValueAt(tl', r, c).img == ValueAt(t', r, c)
    {
      if r == k {
        var c' := Rotation.Succ(c, t.cols);
        assert ValueAt(tl', r, c) == ValueAt(tl, r, c') && ValueAt(t', r, c) == ValueAt(t, r, c');
        assert ValueAt(tl, r, c').img == ValueAt(t, r, c');
      } else {
        assert tl'.cells[r] == tl.cells[r];
        assert t'.cells[r] == t.cells[r];
        assert ValueAt(tl, r, c).img == ValueAt(t, r, c);
      }
    }
  }

  lemma RowRightKeepsMatch(tl: Torus<Tiles.Tile>, t: Torus<nat>, k: int)
    requires Valid(tl) && Valid(t) && SameShape(tl, t) && Shows(tl, t) && 0 <= k < t.rows
    ensures Shows(RotateRowRight(tl, k), RotateRowRight(t, k))
  {
    var tl', t' := RotateRowRight(tl, k), RotateRowRight(t, k);
    forall r, c | 0 <= r < t.rows && 0 <= c < t.cols
      ensures ValueAt(tl', r, c).img == ValueAt(t', r, c)
    {
      if r == k {
        var c' := Rotation.Pred(c, t.cols);
        assert ValueAt(tl', r, c) == ValueAt(tl, r, c') && ValueAt(t', r, c) == ValueAt(t, r, c');
        assert ValueAt(tl, r, c').img == ValueAt(t, r, c');
      } else {
        assert tl'.cells[r] == tl.cells[r];
        assert t'.cells[r] == t.cells[r];
        assert ValueAt(tl, r, c).img == ValueAt(t, r, c);
      }
    }
  }

  /** Swiping by a move and then by its inverse restores the level. */
  lemma SwipeInverse(lv: Level, m: Move)
    requires Consistent(lv) && InRange(lv, m)
    ensures InRange(Swipe(lv, m), Inverse(m))
    ensures Swipe(Swipe(lv, m), Inverse(m)) == lv
  {
    RotateInverse(lv.puzzle.torus, m);
    RotateInverse(lv.tiles, m);
  }

  /** The direction table `animateTiles`: U and L slide toward smaller
      indices (-1), D and R toward larger ones (+1). */
  function Sign(a: char): (s: int)
    requires IsAxis(a)
    ensures s == -1 || s == 1
    ensures s == -1 <==> a == 'U' || a == 'L'
  {
    if a == 'U' || a == 'L' then -1 else 1
  }

  /** Opposite moves slide in opposite directions. */
  lemma OppositeSign(a: char)
    requires IsAxis(a)
    ensures Sign(Opposite(a)) == -Sign(a)
  {
  }

  /** `i + d` brought back onto a ring of `n` positions, for a step `d` of
      at most one position. */
  function Around(x: int, n: int): (j: int)
    requires -1 <= x <= n
    ensures n > 0 ==> 0 <= j < n
  {
    if x < 0 then x + n else if x >= n then x - n else x
  }

  /** The slide is drawn the way the commit moves values: after the commit,
      the value that was at index `i` of the moved row or column is found
      one step further in the direction of the sign, around the ring. */
  lemma SignMatchesCommit<T>(t: Torus<T>, m: Move, i: int)
    requires Valid(t) && IsAxis(m.axis)
    requires m.axis == 'U' || m.axis == 'D' ==> 0 <= m.index < t.cols && 0 <= i < t.rows
    requires m.axis == 'L' || m.axis == 'R' ==> 0 <= m.index < t.rows && 0 <= i < t.cols
    ensures m.axis == 'U' || m.axis == 'D' ==>
              ValueAt(Rotate(t, m), Around(i + Sign(m.axis), t.rows), m.index) == ValueAt(t, i, m.index)
    ensures m.axis == 'L' || m.axis == 'R' ==>
              ValueAt(Rotate(t, m), m.index, Around(i + Sign(m.axis), t.cols)) == ValueAt(t, m.index, i)
  {
    var n := if m.axis == 'U' || m.axis == 'D' then t.rows else t.cols;
    var j := Around(i + Sign(m.axis), n);
    if Sign(m.axis) == 1 {
      assert Rotation.Pred(j, n) == i;
    } else {
      assert Rotation.Succ(j, n) == i;
    }
  }

  // ---------------------------------------------------------------------
  // Replay tokens

  /** How `animateAction` reads an action string: the axis is character 0
      and the index is `parseInt` of character 1 alone, so `"R12"` means
      row 1.  A token the frame callback cannot draw (unknown axis letter,
      no second character, or a second character that is not a digit)
      yields `None`. */
  function ParseAction(token: string): (m: Option<Move>)
    ensures m.Some? <==> |token| >= 2 && IsAxis(token[0]) && IsDigit(token[1])
    ensures m.Some? ==> m.value.axis == token[0] && 0 <= m.value.index < 10
    ensures m.Some? ==> NatToString(m.value.index) == token[1..2]
  {
    if |token| >= 2 && IsAxis(token[0]) && IsDigit(token[1]) then
      Some(Move(token[0], DigitValue(token[1])))
    else None
  }

  /** The string `undo` builds from a stack entry: `axis + index`. */
  function ActionString(m: Move): (s: string)
    requires m.index >= 0
    ensures |s| >= 2 && s[0] == m.axis && s[1..] == NatToString(m.index)
  {
    [m.axis] + NatToString(m.index)
  }

  /** Encoding a move and reading it back gives the move exactly when the
      index has one digit; from 10 on, only its first digit comes back. */
  lemma ActionStringRoundTrip(m: Move)
    requires IsAxis(m.axis) && m.index >= 0
    ensures ParseAction(ActionString(m)).Some?
    ensures ParseAction(ActionString(m)).value == m <==> m.index < 10
  {
    var s := ActionString(m);
    if m.index >= 10 {
      assert ParseAction(s).value.index < 10;
    }
  }

  // ---------------------------------------------------------------------
  // The animation

  /** The longest slide, in milliseconds. */
  const MaxSlideTime: real := 1000.0

  /** One animation in flight: its move and the time it started. */
  datatype Anim = Anim(move: Move, start: real)

  datatype Animator = Animator(animating: bool, slideTime: real, inflight: seq<Anim>)

  /** The constructor: `slide_time` is a tenth of the maximum, and nothing
      is animating. */
  function NewAnimator(): (an: Animator)
    ensures !an.animating && an.slideTime == 100.0 && an.inflight == []
  {
    Animator(false, MaxSlideTime / 10.0, [])
  }

  /** Every animation in flight names a row or column that exists, so its
      frames can draw and its commit can rotate. */
  predicate AnimatorOk(an: Animator, lv: Level) {
    an.slideTime > 0.0 && forall i :: 0 <= i < |an.inflight| ==> InRange(lv, an.inflight[i].move) && IsAxis(an.inflight[i].move.axis)
  }

  /** `animateAction(action)` for a decoded move at time `now`.  A move whose
      row or column does not exist makes the first frame throw, so that
      animation never commits (and whatever the caller set, such as
      `animating`, stays set). */
  function AnimateMove(an: Animator, lv: Level, m: Move, now: real): (an': Animator)
    ensures an'.animating == an.animating && an'.slideTime == an.slideTime
    ensures IsAxis(m.axis) && InRange(lv, m) ==> an'.inflight == an.inflight + [Anim(m, now)]
    ensures !(IsAxis(m.axis) && InRange(lv, m)) ==> an'.inflight == an.inflight
    ensures AnimatorOk(an, lv) ==> AnimatorOk(an', lv)
  {
    if IsAxis(m.axis) && InRange(lv, m) then an.(inflight := an.inflight + [Anim(m, now)]) else an
  }

  /** `animateAction(action)` for an action string, read as `ParseAction`
      reads it. */
  function AnimateAction(an: Animator, lv: Level, action: string, now: real): (an': Animator)
    ensures an'.animating == an.animating && an'.slideTime == an.slideTime
    ensures ParseAction(action).None? ==> an' == an
    ensures ParseAction(action).Some? ==> an' == AnimateMove(an, lv, ParseAction(action).value, now)
    ensures AnimatorOk(an, lv) ==> AnimatorOk(an', lv)
  {
    match ParseAction(action)
    case None => an
    case Some(m) => AnimateMove(an, lv, m, now)
  }

  function RemoveAt<X>(s: seq<X>, k: int): (r: seq<X>)
    requires 0 <= k < |s|
    ensures |r| == |s| - 1
    ensures forall i :: 0 <= i < k ==> r[i] == s[i]
    ensures forall i :: k <= i < |r| ==> r[i] == s[i + 1]
  {
    s[..k] + s[k + 1..]
  }

  /** A commit changes no dimension, so the animations still in flight
      keep naming rows and columns that exist. */
  lemma CommitKeepsAnimatorOk(an: Animator, lv: Level, k: int)
    requires Consistent(lv) && AnimatorOk(an, lv) && 0 <= k < |an.inflight|
    ensures AnimatorOk(an.(animating := false, inflight := RemoveAt(an.inflight, k)),
                       Swipe(lv, an.inflight[k].move))
  {
    var lv' := Swipe(lv, an.inflight[k].move);
    assert lv'.puzzle.rows == lv.puzzle.rows && lv'.puzzle.cols == lv.puzzle.cols;
    var rest := RemoveAt(an.inflight, k);
    forall i | 0 <= i < |rest|
      ensures InRange(lv', rest[i].move) && IsAxis(rest[i].move.axis)
    {
      if i < k { assert rest[i] == an.inflight[i]; } else { assert rest[i] == an.inflight[i + 1]; }
    }
  }

  /** The elapsed fraction of the slide is below one exactly while less
      than the slide time has passed. */
  lemma FractionBelowOne(elapsed: real, slide: real)
    requires slide > 0.0
    ensures elapsed / slide < 1.0 <==> elapsed < slide
  {
    assert elapsed == (elapsed / slide) * slide;
    if elapsed / slide < 1.0 {
      assert (elapsed / slide) * slide < 1.0 * slide;
    } else {
      assert (elapsed / slide) * slide >= 1.0 * slide;
    }
  }

  /** The share of the slide drawn after `elapsed` milliseconds: the
      elapsed time over the slide time, never more than one. */
  function Fraction(elapsed: real, slide: real): (x: real)
    requires slide > 0.0
    ensures x <= 1.0
    ensures x < 1.0 <==> elapsed < slide
    ensures x < 1.0 ==> x * slide == elapsed
  {
    FractionBelowOne(elapsed, slide);
    var fraction := elapsed / slide;
    if fraction > 1.0 then 1.0 else fraction
  }

  /** The last frame of a slide (fraction one) places every tile of the
      moving line one whole cell along, in the direction of the sign. */
  function FinalFrame(lv: Level, m: Move, cellW: int, cellH: int): (u: Level)
    requires Consistent(lv) && InRange(lv, m) && IsAxis(m.axis)
    ensures Consistent(u) && u.puzzle == lv.puzzle && u.tilesRaw == lv.tilesRaw
    ensures u.tiles == lv.tiles.(cells := u.tiles.cells)
    ensures forall r, c :: 0 <= r < lv.puzzle.rows && 0 <= c < lv.puzzle.cols ==>
              var t := ValueAt(lv.tiles, r, c);
              ValueAt(u.tiles, r, c) ==
                if (m.axis == 'U' || m.axis == 'D') && c == m.index then t.(y := r * cellH + Sign(m.axis) * cellH)
                else if (m.axis == 'L' || m.axis == 'R') && r == m.index then t.(x := c * cellW + Sign(m.axis) * cellW)
                else t
  {
    if m.axis == 'U' || m.axis == 'D' then PlaceColTiles(lv, m.index, cellH, Sign(m.axis) * cellH)
    else PlaceRowTiles(lv, m.index, cellW, Sign(m.axis) * cellW)
  }

  /** After the last frame and the commit, every tile of the moved line is
      back at its own cell, except the one that wrapped around: it sits one
      full grid width (or height) away, where only its wrap copy shows. */
  lemma SlideEndsAtHome(lv: Level, m: Move, cellW: int, cellH: int)
    requires Consistent(lv) && InRange(lv, m) && IsAxis(m.axis)
    ensures var u := Swipe(FinalFrame(lv, m, cellW, cellH), m);
            var rows, cols := lv.puzzle.rows, lv.puzzle.cols;
            && (m.axis == 'L' ==> forall c :: 0 <= c < cols ==>
                  ValueAt(u.tiles, m.index, c).x == (if c == cols - 1 then -cellW else c * cellW))
            && (m.axis == 'R' ==> forall c :: 0 <= c < cols ==>
                  ValueAt(u.tiles, m.index, c).x == (if c == 0 then cols * cellW else c * cellW))
            && (m.axis == 'U' ==> forall r :: 0 <= r < rows ==>
                  ValueAt(u.tiles, r, m.index).y == (if r == rows - 1 then -cellH else r * cellH))
            && (m.axis == 'D' ==> forall r :: 0 <= r < rows ==>
                  ValueAt(u.tiles, r, m.index).y == (if r == 0 then rows * cellH else r * cellH))
  {
    if m.axis == 'L' || m.axis == 'R' {
      RowSlideEndsAtHome(lv, m, cellW, cellH);
    } else {
      ColSlideEndsAtHome(lv, m, cellW, cellH);
    }
  }

  lemma RowSlideEndsAtHome(lv: Level, m: Move, cellW: int, cellH: int)
    requires Consistent(lv) && InRange(lv, m) && (m.axis == 'L' || m.axis == 'R')
    ensures var u := Swipe(FinalFrame(lv, m, cellW, cellH), m);
            var cols := lv.puzzle.cols;
            forall c :: 0 <= c < cols ==>
              ValueAt(u.tiles, m.index, c).x == (if m.axis == 'L' then (if c == cols - 1 then -cellW else c * cellW)
                                                 else (if c == 0 then cols * cellW else c * cellW))
  {
    var f := FinalFrame(lv, m, cellW, cellH);
    FinalRowPlaced(lv, m, cellW, cellH);
    if m.axis == 'L' {
      LeftSlideLands(f.tiles, m.index, cellW);
    } else {
      RightSlideLands(f.tiles, m.index, cellW);
    }
  }

  /** The last frame of a row slide puts the row's tiles one cell along. */
  lemma FinalRowPlaced(lv: Level, m: Move, cellW: int, cellH: int)
    requires Consistent(lv) && InRange(lv, m) && (m.axis == 'L' || m.axis == 'R')
    ensures var f := FinalFrame(lv, m, cellW, cellH);
            Valid(f.tiles) && 0 <= m.index < f.tiles.rows && f.tiles.cols == lv.puzzle.cols
            && forall c :: 0 <= c < f.tiles.cols ==> ValueAt(f.tiles, m.index, c).x == c * cellW + Sign(m.axis) * cellW
  {
  }

  /** The last frame of a column slide puts the column's tiles one cell along. */
  lemma FinalColPlaced(lv: Level, m: Move, cellW: int, cellH: int)
    requires Consistent(lv) && InRange(lv, m) && (m.axis == 'U' || m.axis == 'D')
    ensures var f := FinalFrame(lv, m, cellW, cellH);
            Valid(f.tiles) && 0 <= m.index < f.tiles.cols && f.tiles.rows == lv.puzzle.rows
            && forall r :: 0 <= r < f.tiles.rows ==> ValueAt(f.tiles, r, m.index).y == r * cellH + Sign(m.axis) * cellH
  {
  }

  lemma ColSlideEndsAtHome(lv: Level, m: Move, cellW: int, cellH: int)
    requires Consistent(lv) && InRange(lv, m) && (m.axis == 'U' || m.axis == 'D')
    ensures var u := Swipe(FinalFrame(lv, m, cellW, cellH), m);
            var rows := lv.puzzle.rows;
            forall r :: 0 <= r < rows ==>
              ValueAt(u.tiles, r, m.index).y == (if m.axis == 'U' then (if r == rows - 1 then -cellH else r * cellH)
                                                 else (if r == 0 then rows * cellH else r * cellH))
  {
    var f := FinalFrame(lv, m, cellW, cellH);
    FinalColPlaced(lv, m, cellW, cellH);
    if m.axis == 'U' {
      UpSlideLands(f.tiles, m.index, cellH);
    } else {
      DownSlideLands(f.tiles, m.index, cellH);
    }
  }

  lemma LeftSlideLands(tl: Torus<Tiles.Tile>, r: int, w: int)
    requires Valid(tl) && 0 <= r < tl.rows
    requires forall c :: 0 <= c < tl.cols ==> ValueAt(tl, r, c).x == c * w + -1 * w
    ensures forall c :: 0 <= c < tl.cols ==>
              ValueAt(RotateRowLeft(tl, r), r, c).x == (if c == tl.cols - 1 then -w else c * w)
  {
    forall c | 0 <= c < tl.cols
      ensures ValueAt(RotateRowLeft(tl, r), r, c).x == (if c == tl.cols - 1 then -w else c * w)
    {
      StepTimes(c, tl.cols, w);
    }
  }

  lemma RightSlideLands(tl: Torus<Tiles.Tile>, r: int, w: int)
    requires Valid(tl) && 0 <= r < tl.rows
    requires forall c :: 0 <= c < tl.cols ==> ValueAt(tl, r, c).x == c * w + 1 * w
    ensures forall c :: 0 <= c < tl.cols ==>
              ValueAt(RotateRowRight(tl, r), r, c).x == (if c == 0 then tl.cols * w else c * w)
  {
    forall c | 0 <= c < tl.cols
      ensures ValueAt(RotateRowRight(tl, r), r, c).x == (if c == 0 then tl.cols * w else c * w)
    {
      StepTimes(c, tl.cols, w);
    }
  }

  lemma UpSlideLands(tl: Torus<Tiles.Tile>, c: int, h: int)
    requires Valid(tl) && 0 <= c < tl.cols
    requires forall r :: 0 <= r < tl.rows ==> ValueAt(tl, r, c).y == r * h + -1 * h
    ensures forall r :: 0 <= r < tl.rows ==>
              ValueAt(RotateColUp(tl, c), r, c).y == (if r == tl.rows - 1 then -h else r * h)
  {
    forall r | 0 <= r < tl.rows
      ensures ValueAt(RotateColUp(tl, c), r, c).y == (if r == tl.rows - 1 then -h else r * h)
    {
      var r' := Rotation.Succ(r, tl.rows);
      ColCellLands(tl, RotateColUp(tl, c), c, r, r', h, -1);
      StepTimes(r, tl.rows, h);
    }
  }

  lemma DownSlideLands(tl: Torus<Tiles.Tile>, c: int, h: int)
    requires Valid(tl) && 0 <= c < tl.cols
    requires forall r :: 0 <= r < tl.rows ==> ValueAt(tl, r, c).y == r * h + 1 * h
    ensures forall r :: 0 <= r < tl.rows ==>
              ValueAt(RotateColDown(tl, c), r, c).y == (if r == 0 then tl.rows * h else r * h)
  {
    forall r | 0 <= r < tl.rows
      ensures ValueAt(RotateColDown(tl, c), r, c).y == (if r == 0 then tl.rows * h else r * h)
    {
      var r' := Rotation.Pred(r, tl.rows);
      ColCellLands(tl, RotateColDown(tl, c), c, r, r', h, 1);
      StepTimes(r, tl.rows, h);
    }
  }

  /** Cell (r, c) of the turned torus holds the old (r', c), which sat one
      cell off its home row. */
  lemma ColCellLands(tl: Torus<Tiles.Tile>, u: Torus<Tiles.Tile>, c: int, r: int, r': int, h: int, s: int)
    requires Valid(tl) && Valid(u) && SameShape(u, tl) && 0 <= c < tl.cols
    requires 0 <= r < tl.rows && 0 <= r' < tl.rows
    requires ValueAt(u, r, c) == ValueAt(tl, r', c)
    requires forall i :: 0 <= i < tl.rows ==> ValueAt(tl, i, c).y == i * h + s * h
    ensures ValueAt(u, r, c).y == r' * h + s * h
  {
  }

  /** The pixel arithmetic of one step along a ring of `n` cells of size `w`. */
  lemma StepTimes(i: int, n: int, w: int)
    requires 0 <= i < n
    ensures Rotation.Succ(i, n) * w - w == (if i == n - 1 then -w else i * w)
    ensures Rotation.Pred(i, n) * w + w == (if i == 0 then n * w else i * w)
  {
    if i < n - 1 {
      assert (i + 1) * w == i * w + w;
    }
    if i > 0 {
      assert (i - 1) * w == i * w - w;
    } else {
      assert (n - 1) * w == n * w - w;
    }
  }

  /** What one frame leaves behind: the animator, the level, the time
      fraction drawn, and whether another frame was requested. */
  datatype Frame = Frame(anim: Animator, level: Level, fraction: real, again: bool)

  /** One display frame at time `time` for the `k`-th animation in flight:
      the elapsed fraction of `slide_time`, clamped to 1; below 1 the
      animation asks for another frame; at 1 the moving tiles are drawn one
      cell along, the animation leaves the list, `animating` is cleared and
      its move is committed to the level, once.  The tile positions drawn
      by the frames before the last one are fractional and not modelled. */
  function Tick(an: Animator, lv: Level, k: int, time: real, cellW: int, cellH: int): (f: Frame)
    requires Consistent(lv) && AnimatorOk(an, lv) && 0 <= k < |an.inflight|
    ensures Consistent(f.level) && AnimatorOk(f.anim, f.level)
    ensures f.fraction <= 1.0
    ensures f.again <==> time - an.inflight[k].start < an.slideTime
    ensures f.again <==> f.fraction < 1.0
    ensures f.again ==> f.anim == an && f.level == lv
    ensures !f.again ==> && f.level.puzzle.torus == Rotate(lv.puzzle.torus, an.inflight[k].move)
                         && f.level == Swipe(FinalFrame(lv, an.inflight[k].move, cellW, cellH), an.inflight[k].move)
                         && !f.anim.animating && f.anim.slideTime == an.slideTime
                         && f.anim.inflight == RemoveAt(an.inflight, k)
  {
    var a := an.inflight[k];
    var clamped := Fraction(time - a.start, an.slideTime);
    if clamped < 1.0 then
      Frame(an, lv, clamped, true)
    else
      var drawn := FinalFrame(lv, a.move, cellW, cellH);
      var lv' := Swipe(drawn, a.move);
      var an' := an.(animating := false, inflight := RemoveAt(an.inflight, k));
      CommitKeepsAnimatorOk(an, drawn, k);
      Frame(an', lv', clamped, false)
  }
}
