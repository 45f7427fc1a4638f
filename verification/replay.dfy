/** The replay side: `Replaylevel` (replaylevel.js) keeps the recorded
    actions and a cursor into them, and `ReplayControl` (replaycontrol.js)
    steps through them one animation at a time, either on demand or on a
    timer.  Timers are explicit: `timers` counts the player callbacks
    scheduled and not yet run, and `TimerFires` runs one of them. */
module Replay {
  import opened Options
  import opened Toroidal
  import opened Levels
  import opened BaseControl
  import opened Strings

  // ---------------------------------------------------------------------
  // The cursor

  /** The recorded actions and the index of the next one. */
  datatype Tape = Tape(actions: seq<string>, cursor: int)

  /** The cursor never passes the end. */
  predicate TapeOk(t: Tape) {
    0 <= t.cursor <= |t.actions|
  }

  /** The constructor's part: the pieces of the action string between
      single spaces, cursor 0. */
  function NewTape(s: string): (t: Tape)
    ensures TapeOk(t) && t.cursor == 0 && |t.actions| >= 1
    ensures Join(t.actions, ' ') == s
    ensures forall i :: 0 <= i < |t.actions| ==> ' ' !in t.actions[i]
  {
    JoinSplit(s, ' ');
    Tape(Split(s, ' '), 0)
  }

  /** `action_start()`, and the cursor part of `reset`. */
  function Rewind(t: Tape): (t': Tape)
    ensures TapeOk(t') && t'.cursor == 0 && t'.actions == t.actions
  {
    t.(cursor := 0)
  }

  /** `action_hasnext()`. */
  function HasNext(t: Tape): (b: bool)
    ensures TapeOk(t) ==> (b <==> t.actions[t.cursor..] != [])
  {
    t.cursor < |t.actions|
  }

  /** `action_next()`: the action under the cursor, which then advances by
      one; at the end, nothing, and the cursor stays. */
  function Next(t: Tape): (r: (Option<string>, Tape))
    requires TapeOk(t)
    ensures TapeOk(r.1) && r.1.actions == t.actions
    ensures r.0.Some? <==> HasNext(t)
    ensures HasNext(t) ==> r.0.value == t.actions[t.cursor] && r.1.cursor == t.cursor + 1
    ensures !HasNext(t) ==> r.1 == t
  {
    if t.cursor == |t.actions| then (None, t)
    else (Some(t.actions[t.cursor]), t.(cursor := t.cursor + 1))
  }

  /** Calls of `action_next()` until it returns nothing, and what they
      returned. */
  function Drain(t: Tape): seq<string>
    requires TapeOk(t)
    decreases |t.actions| - t.cursor
  {
    var (a, t') := Next(t);
    match a
    case None => []
    case Some(x) => [x] + Drain(t')
  }

  /** From the cursor, the calls return the remaining actions, each once,
      in order; from a rewound tape, exactly all of them. */
  lemma {:induction false} DrainReturnsRest(t: Tape)
    requires TapeOk(t)
    ensures Drain(t) == t.actions[t.cursor..]
    decreases |t.actions| - t.cursor
  {
    if HasNext(t) {
      DrainReturnsRest(Next(t).1);
      assert t.actions[t.cursor..] == [t.actions[t.cursor]] + t.actions[t.cursor + 1..];
    }
  }

  /** From a rewound tape the calls return exactly all the actions. */
  lemma DrainFromStart(t: Tape)
    ensures Drain(Rewind(t)) == t.actions
  {
    DrainReturnsRest(Rewind(t));
  }

  // ---------------------------------------------------------------------
  // The replay controller

  /** The level being replayed, its tape, the animation, `playing`, the
      number of player callbacks pending, and the view's step counter. */
  datatype Player = Player(level: Level, tape: Tape, anim: Animator, playing: bool, timers: nat, steps: int)

  ghost predicate PlayerOk(p: Player) {
    Consistent(p.level) && TapeOk(p.tape) && AnimatorOk(p.anim, p.level)
  }

  /** `slide_time` for a speed-slider value. */
  function SlideTime(speed: real): (t: real)
    requires speed > 0.0
    ensures t > 0.0 && t * speed == MaxSlideTime
  {
    MaxSlideTime / speed
  }

  /** The constructor: slide time from the slider, not playing. */
  function NewPlayer(lv: Level, actions: string, speed: real): (p: Player)
    requires Consistent(lv) && speed > 0.0
    ensures PlayerOk(p) && !p.playing && !p.anim.animating && p.anim.inflight == [] && p.timers == 0
    ensures p.tape == NewTape(actions) && p.anim.slideTime * speed == MaxSlideTime
  {
    Player(lv, NewTape(actions), Animator(false, SlideTime(speed), []), false, 0, 0)
  }

  /** The slider's input handler. */
  function SetSpeed(p: Player, speed: real): (p': Player)
    requires PlayerOk(p) && speed > 0.0
    ensures PlayerOk(p') && p' == p.(anim := p'.anim)
    ensures p'.anim == p.anim.(slideTime := p'.anim.slideTime) && p'.anim.slideTime * speed == MaxSlideTime
  {
    p.(anim := p.anim.(slideTime := SlideTime(speed)))
  }

  /** `step()`: unless the tape is at its end or an animation is running,
      set `animating`, bump the counter, take the next action and animate
      it. */
  function Step(p: Player, now: real): (p': Player)
    requires PlayerOk(p)
    ensures PlayerOk(p') && p'.level == p.level && p'.playing == p.playing && p'.timers == p.timers
    ensures !HasNext(p.tape) || p.anim.animating ==> p' == p
    ensures HasNext(p.tape) && !p.anim.animating ==>
              && p'.anim.animating && p'.steps == p.steps + 1
              && p'.tape == Next(p.tape).1
              && p'.anim == AnimateAction(p.anim.(animating := true), p.level, p.tape.actions[p.tape.cursor], now)
  {
    if !HasNext(p.tape) || p.anim.animating then p
    else
      var (a, t) := Next(p.tape);
      p.(anim := AnimateAction(p.anim.(animating := true), p.level, a.value, now), tape := t, steps := p.steps + 1)
  }

  /** `__action_player()`: at the end of the tape, stop playing; otherwise
      step and schedule another call.  It does not look at `playing`. */
  function Run(p: Player, now: real): (p': Player)
    requires PlayerOk(p)
    ensures PlayerOk(p') && p'.level == p.level
    ensures !HasNext(p.tape) ==> p' == p.(playing := false)
    ensures HasNext(p.tape) ==> p' == Step(p, now).(timers := p.timers + 1)
  {
    if !HasNext(p.tape) then p.(playing := false)
    else
      var s := Step(p, now);
      s.(timers := s.timers + 1)
  }

  /** `play()`: ignored while playing or animating; otherwise start
      playing and run the player once. */
  function Play(p: Player, now: real): (p': Player)
    requires PlayerOk(p)
    ensures PlayerOk(p')
    ensures p.playing || p.anim.animating ==> p' == p
    ensures !p.playing && !p.anim.animating ==> p' == Run(p.(playing := true), now)
  {
    if p.playing || p.anim.animating then p else Run(p.(playing := true), now)
  }

  /** A scheduled player callback runs. */
  function TimerFires(p: Player, now: real): (p': Player)
    requires PlayerOk(p) && p.timers > 0
    ensures PlayerOk(p') && p' == Run(p.(timers := p.timers - 1), now)
  {
    Run(p.(timers := p.timers - 1), now)
  }

  /** A display frame for the `k`-th animation in flight. */
  function Frame(p: Player, k: int, time: real, cellW: int, cellH: int): (p': Player)
    requires PlayerOk(p) && 0 <= k < |p.anim.inflight|
    ensures PlayerOk(p') && p' == p.(anim := p'.anim, level := p'.level)
    ensures var f := BaseControl.Tick(p.anim, p.level, k, time, cellW, cellH);
            p'.anim == f.anim && p'.level == f.level
  {
    var f := BaseControl.Tick(p.anim, p.level, k, time, cellW, cellH);
    p.(anim := f.anim, level := f.level)
  }

  /** `reset()` of the controller: clears `animating` and `playing` only.
      Pending callbacks and animations are not cancelled. */
  function Reset(p: Player): (p': Player)
    requires PlayerOk(p)
    ensures PlayerOk(p') && !p'.playing && !p'.anim.animating
    ensures p' == p.(playing := false, anim := p'.anim) && p'.anim == p.anim.(animating := false)
  {
    p.(playing := false, anim := p.anim.(animating := false))
  }

  /** `reset(cellW, cellH)` of the replay level: the level's reset and a
      rewound tape. */
  function ResetLevel(p: Player, cellW: int, cellH: int): (p': Player)
    requires PlayerOk(p)
    ensures PlayerOk(p') && p' == p.(tape := Rewind(p.tape), level := p'.level)
    ensures p'.level == Levels.Reset(p.level, cellW, cellH)
    ensures p'.level.puzzle == p.level.puzzle.(torus := p'.level.puzzle.torus)
    ensures p'.level.puzzle.torus.cells == p.level.puzzle.initial
    ensures forall r, c :: 0 <= r < p.level.puzzle.rows && 0 <= c < p.level.puzzle.cols ==>
              AtHome(ValueAt(p'.level.tiles, r, c), r, c, cellW, cellH)
  {
    var lv := Levels.Reset(p.level, cellW, cellH);
    SameDims(p.anim, p.level, lv);
    p.(level := lv, tape := Rewind(p.tape))
  }

  lemma SameDims(an: Animator, lv: Level, lv': Level)
    requires AnimatorOk(an, lv)
    requires lv'.puzzle.rows == lv.puzzle.rows && lv'.puzzle.cols == lv.puzzle.cols
    ensures AnimatorOk(an, lv')
  {
    forall i | 0 <= i < |an.inflight| ensures InRange(lv', an.inflight[i].move) {
      assert InRange(lv, an.inflight[i].move);
    }
  }

  // ---------------------------------------------------------------------
  // Properties of replays

  /** A callback still pending when the replay is reset keeps stepping
      through the tape: reset does not stop the player. */
  lemma ResetDoesNotStopPlayer(p: Player, now: real)
    requires PlayerOk(p) && p.timers > 0 && HasNext(p.tape)
    ensures var r := TimerFires(Reset(p), now);
            r.tape.cursor == p.tape.cursor + 1 && r.anim.animating && r.timers == p.timers
  {
  }

  /** An action the frame callback cannot draw (a wrong axis letter, no
      index digit, or a line that does not exist) is consumed, but leaves
      `animating` set with nothing in flight to clear it: every later step
      and play does nothing. */
  lemma BadActionStalls(p: Player, now: real, later: real)
    requires PlayerOk(p) && HasNext(p.tape) && !p.anim.animating
    requires var a := ParseAction(p.tape.actions[p.tape.cursor]);
             a.None? || !InRange(p.level, a.value)
    ensures var s := Step(p, now);
            && s.anim.animating && s.anim.inflight == p.anim.inflight
            && Step(s, later) == s && Play(s, later) == s
  {
  }

  /** Every remaining action names a line of the level. */
  predicate ActionsOk(lv: Level, actions: seq<string>) {
    forall i :: 0 <= i < |actions| ==>
      ParseAction(actions[i]).Some? && InRange(lv, ParseAction(actions[i]).value)
  }

  /** Every action is a move whose line exists in a torus of `t`'s shape. */
  predicate FitsTorus<T>(t: Torus<T>, actions: seq<string>) {
    forall i :: 0 <= i < |actions| ==> FitsMove(t, ParseAction(actions[i]))
  }

  predicate FitsMove<T>(t: Torus<T>, a: Option<Move>) {
    && a.Some?
    && (a.value.axis == 'U' || a.value.axis == 'D' ==> 0 <= a.value.index < t.cols)
    && (a.value.axis == 'L' || a.value.axis == 'R' ==> 0 <= a.value.index < t.rows)
  }

  /** The number grid after the actions, applied in order. */
  function TorusAfter(t: Torus<nat>, actions: seq<string>): Torus<nat>
    requires Valid(t) && FitsTorus(t, actions)
    decreases |actions|
  {
    if |actions| == 0 then t
    else
      assert FitsMove(t, ParseAction(actions[0]));
      var t1 := Rotate(t, ParseAction(actions[0]).value);
      assert FitsTorus(t1, actions[1..]) by {
        forall i | 0 <= i < |actions| - 1 ensures FitsMove(t1, ParseAction(actions[1..][i])) {
          assert actions[1..][i] == actions[i + 1];
          assert FitsMove(t, ParseAction(actions[i + 1]));
        }
      }
      TorusAfter(t1, actions[1..])
  }

  /** One step followed by the last frame of its animation applies the
      action under the cursor and leaves nothing animating. */
  lemma StepThenFrame(p: Player, now: real, time: real, cellW: int, cellH: int)
    requires PlayerOk(p) && HasNext(p.tape) && !p.anim.animating && p.anim.inflight == []
    requires ActionsOk(p.level, p.tape.actions[p.tape.cursor..])
    requires time >= now + p.anim.slideTime
    ensures var s := Step(p, now);
            && |s.anim.inflight| == 1
            && var f := Frame(s, 0, time, cellW, cellH);
               && f.level.puzzle.torus == Rotate(p.level.puzzle.torus, ParseAction(p.tape.actions[p.tape.cursor]).value)
               && !f.anim.animating && f.anim.inflight == [] && f.tape.cursor == p.tape.cursor + 1
               && f.anim.slideTime == p.anim.slideTime
  {
    assert p.tape.actions[p.tape.cursor..][0] == p.tape.actions[p.tape.cursor];
  }

  /** One step, landed by the last frame of its animation. */
  function Land(p: Player, now: real, cellW: int, cellH: int): (f: Player)
    requires PlayerOk(p) && HasNext(p.tape) && !p.anim.animating && p.anim.inflight == []
    requires ActionsOk(p.level, p.tape.actions[p.tape.cursor..])
    ensures PlayerOk(f) && !f.anim.animating && f.anim.inflight == [] && f.anim.slideTime == p.anim.slideTime
    ensures f.tape.actions == p.tape.actions && f.tape.cursor == p.tape.cursor + 1
    ensures f.level.puzzle.torus == Rotate(p.level.puzzle.torus, ParseAction(p.tape.actions[p.tape.cursor]).value)
    ensures f.level.puzzle.rows == p.level.puzzle.rows && f.level.puzzle.cols == p.level.puzzle.cols
  {
    StepThenFrame(p, now, now + p.anim.slideTime, cellW, cellH);
    Frame(Step(p, now), 0, now + p.anim.slideTime, cellW, cellH)
  }

  /** The actions after the first still fit a level of the same shape. */
  lemma ActionsOkRest(lv: Level, lv': Level, actions: seq<string>)
    requires ActionsOk(lv, actions) && |actions| > 0
    requires lv'.puzzle.rows == lv.puzzle.rows && lv'.puzzle.cols == lv.puzzle.cols
    ensures ActionsOk(lv', actions[1..])
  {
    forall i | 0 <= i < |actions| - 1
      ensures ParseAction(actions[1..][i]).Some? && InRange(lv', ParseAction(actions[1..][i]).value)
    {
      assert actions[1..][i] == actions[i + 1];
    }
  }

  /** Steps each followed by the last frame, until the tape ends.  Played
      out, a replay leaves the number grid the recorded actions make from
      where the cursor stood, applied in order. */
  function PlayOut(p: Player, now: real, cellW: int, cellH: int): (p': Player)
    requires PlayerOk(p) && !p.anim.animating && p.anim.inflight == []
    requires ActionsOk(p.level, p.tape.actions[p.tape.cursor..])
    ensures PlayerOk(p') && !HasNext(p'.tape) && p'.tape.actions == p.tape.actions
    ensures FitsTorus(p.level.puzzle.torus, p.tape.actions[p.tape.cursor..])
    ensures p'.level.puzzle.torus == TorusAfter(p.level.puzzle.torus, p.tape.actions[p.tape.cursor..])
    decreases |p.tape.actions| - p.tape.cursor
  {
    var rest := p.tape.actions[p.tape.cursor..];
    ActionsFitTorus(p.level, rest);
    if !HasNext(p.tape) then p
    else
      var f := Land(p, now, cellW, cellH);
      ActionsOkRest(p.level, f.level, rest);
      assert f.tape.actions[f.tape.cursor..] == rest[1..];
      assert rest[0] == p.tape.actions[p.tape.cursor];
      PlayOut(f, now + p.anim.slideTime, cellW, cellH)
  }

  lemma ActionsFitTorus(lv: Level, actions: seq<string>)
    requires Consistent(lv) && ActionsOk(lv, actions)
    ensures FitsTorus(lv.puzzle.torus, actions)
  {
    forall i | 0 <= i < |actions| ensures FitsMove(lv.puzzle.torus, ParseAction(actions[i])) {
      assert ParseAction(actions[i]).Some? && InRange(lv, ParseAction(actions[i]).value);
    }
  }
}
