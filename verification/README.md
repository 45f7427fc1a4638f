# PlayToroidal core, modelled in Dafny

PlayToroidal is a sliding-tile puzzle on a torus. The board is a grid of
image tiles. A swipe turns one whole row left or right, or one whole column
up or down, and the tiles that leave one edge come back in at the other.
The player wins when the grid of tile numbers equals the goal grid. A
replay mode steps through a recorded list of moves such as `R2 U0 L1`.

This project models the game's logic as immutable Dafny datatypes and pure
functions. Each module follows one source file:

| module | file | models |
|---|---|---|
| `Rotation`, `RotationLaws` | torus.js, arrayutils.js | one-cell ring shifts of a row prefix or column prefix, both as pure functions and as in-place loops; inverse laws, full-turn identities, conservation of values |
| `Toroidal` | torus.js | `Torus`: construction, `reset`, the four rotations, `valueAt`, the win test `equalityTestF` |
| `Rotators` | arrayutils.js | the curried rotators, whose dimension is captured when they are created |
| `Tiles` | tile.js | tile position updates and the choice of wrap copies that `draw` emits |
| `Levels` | baselevel.js | the two number tori, `makeTiles`, `reset`, `tileInPlace` |
| `BaseControl` | basecontrol.js | `swipe`, the sign table, action strings, the frame callback of `animateAction` as an explicit tick |
| `Gestures`, `Control` | control.js | press, drag and release; the undo stack; `undo`; `reset` |
| `Replay` | replaylevel.js, replaycontrol.js | the action cursor; `step`, `play`, the timer-driven player, `reset`, the slide time set from the speed |
| `Progress` | progressMonitor.js | the rating bands and `interpolate` |
| `Decimal`, `Strings`, `ViewUtils` | viewutils.js | `formatTime`, `String.prototype.format`, `getpuzz`, plus the decimal, pad and split helpers used to state their round trips |
| `BaseView` | baseview.js | the cell-size formula and the canvas sizes |

Modelling conventions:

- Grids are `seq<seq<T>>`. A torus carries its dimensions.
- Each mutating method of the source is a function that returns the new state.
- Pointer coordinates, cell sizes and tile positions are integers.
- Animation times are exact `real`s.
- Timers and animation frames are explicit inputs:
  - `BaseControl.Tick` is one `requestAnimationFrame` callback of the `k`-th animation in flight, at a given time.
  - `Replay.TimerFires` is one pending `setTimeout` callback of the replay player.
- A pointer leaving the canvas mid-drag is turned into a mouseup by view.js. Here it is the ordinary `Control.Release`.

## Model

| member | source | states |
|---|---|---|
| Rotation.ShiftLeft | js/torus.js:60-69 | cell i takes the old cell i+1 and the last takes the first, length kept |
| Rotation.ShiftRight | js/torus.js:71-80 | cell i takes the old cell i-1 and the first takes the last, length kept |
| Rotation.ShiftRightShiftLeft | js/torus.js:60-80 | a left shift and a right shift undo each other, in both orders |
| Rotation.ShiftPreservesMultiset | js/torus.js:60-80 | both shifts keep the multiset of values |
| Rotation.RowLeft | js/torus.js:60-69 | on row r, cell j takes old j+1 and cell n-1 takes old 0; other rows and cells beyond n are untouched |
| Rotation.RowRight | js/torus.js:71-80 | on row r, cell j takes old j-1 and cell 0 takes old n-1; everything else is untouched |
| Rotation.ColUp | js/torus.js:82-91 | in column c, cell i takes old i+1 and cell m-1 takes old 0; other columns and rows beyond m are untouched |
| Rotation.ColDown | js/torus.js:93-102 | in column c, cell i takes old i-1 and cell 0 takes old m-1; everything else is untouched |
| Rotation.RotateRowLeftInPlace | js/torus.js:60-69 | the in-place loop (save cell 0, shift left, store the saved cell last) computes `RowLeft` |
| Rotation.RotateRowRightInPlace | js/torus.js:71-80 | the in-place loop walking right to left computes `RowRight` |
| Rotation.RotateColUpInPlace | js/torus.js:82-91 | the in-place column loop computes `ColUp` |
| Rotation.RotateColDownInPlace | js/torus.js:93-102 | the in-place column loop computes `ColDown` |
| RotationLaws.RowRightUndoesRowLeft | js/torus.js:60-80 | a right rotation of the same row undoes a left rotation |
| RotationLaws.RowLeftUndoesRowRight | js/torus.js:60-80 | a left rotation of the same row undoes a right rotation |
| RotationLaws.ColDownUndoesColUp | js/torus.js:82-102 | a down rotation of the same column undoes an up rotation |
| RotationLaws.ColUpUndoesColDown | js/torus.js:82-102 | an up rotation of the same column undoes a down rotation |
| RotationLaws.RowLeftTimesCells | js/torus.js:60-69 | after k ≤ n left rotations, cell j of the row holds old cell (j+k) mod n and nothing else moved |
| RotationLaws.RowLeftFullTurn | js/torus.js:60-69 | COLS left rotations of a row give back the grid |
| RotationLaws.ColUpTimesCells | js/torus.js:82-91 | after k ≤ m up rotations, cell i of the column holds old cell (i+k) mod m and nothing else moved |
| RotationLaws.ColUpFullTurn | js/torus.js:82-91 | ROWS up rotations of a column give back the grid |
| RotationLaws.ReplaceRowContents | js/torus.js:60-80 | putting a permutation of a row back in its place keeps the grid's multiset of values |
| RotationLaws.RowShiftContents | js/torus.js:60-80 | row rotations keep the multiset of values |
| RotationLaws.ColumnSplit | js/torus.js:82-102 | a grid's values are its column's values plus the values of the rest of every row |
| RotationLaws.ReplaceColumnContents | js/torus.js:82-102 | writing a permutation of a column back keeps the multiset of values |
| RotationLaws.ColShiftContents | js/torus.js:82-102 | column rotations keep the multiset of values |
| Toroidal.FromArray | js/torus.js:29-40 | ROWS is the outer length and COLS the first row's length; every cell is copied; an empty array fails |
| Toroidal.Reset | js/torus.js:45-58 | every cell equals the matching cell of the argument; the dimensions are kept |
| Toroidal.ResetIsFreshCopy | js/torus.js:29-58 | resetting to a grid of the torus's shape equals building a new torus from it |
| Toroidal.RotateRowLeft | js/torus.js:60-69 | cell (r, i) takes old (r, Succ i); other rows are unchanged; the multiset of values is kept |
| Toroidal.RotateRowRight | js/torus.js:71-80 | cell (r, i) takes old (r, Pred i); other rows are unchanged; the multiset of values is kept |
| Toroidal.RotateColUp | js/torus.js:82-91 | cell (i, c) takes old (Succ i, c); other columns are unchanged; the multiset of values is kept |
| Toroidal.RotateColDown | js/torus.js:93-102 | cell (i, c) takes old (Pred i, c); other columns are unchanged; the multiset of values is kept |
| Toroidal.ValueAtIsHeld | js/torus.js:104-107 | `valueAt(r, c)` on the board is one of the torus's values, and every value the torus holds is at some cell |
| Toroidal.RowRotationsInverse | js/torus.js:60-80 | `rotateRowRight(r)` and `rotateRowLeft(r)` are mutual inverses |
| Toroidal.ColRotationsInverse | js/torus.js:82-102 | `rotateColUp(c)` and `rotateColDown(c)` are mutual inverses |
| Toroidal.EqualityTestF | js/torus.js:109-129 | the closure captures this torus's ROWS and COLS |
| Toroidal.RunEqualityTest | js/torus.js:112-128 | the row-by-row scan returns true iff every cell in ROWS×COLS agrees |
| Toroidal.WinTestDecidesEquality | js/torus.js:109-129 | a test built from the goal decides equality with the play torus after any rotations |
| Rotators.Apply | js/arrayutils.js:20-76 | a rotator applied to an array turns one row or column over the dimension captured at creation |
| Rotators.LeftRotator | js/arrayutils.js:20-33 | on a rectangular array, applying it to row r gives exactly the cells of `rotateRowLeft(r)` on a torus built from the array |
| Rotators.RightRotator | js/arrayutils.js:35-47 | on a rectangular array, applying it to row r gives exactly the cells of `rotateRowRight(r)` |
| Rotators.UpRotator | js/arrayutils.js:49-61 | on a rectangular array, applying it to column c gives exactly the cells of `rotateColUp(c)` |
| Rotators.DownRotator | js/arrayutils.js:64-76 | on a rectangular array, applying it to column c gives exactly the cells of `rotateColDown(c)` |
| Rotators.RectangularCopy | js/torus.js:29-40 | a rectangular array copies into a torus whose cells are the array itself |
| Rotators.RotatorsMatchTorus | js/arrayutils.js:20-76 | on a rectangular array each rotator has the same effect as the matching `Torus` rotation |
| Rotators.RowRotatorsInverse | js/arrayutils.js:20-47 | the right rotator undoes the left rotator and vice versa; no other row changes |
| Rotators.ColRotatorsInverse | js/arrayutils.js:49-76 | the down rotator undoes the up rotator and vice versa; no other column changes |
| Tiles.UpdatePositionBy | js/tile.js:42-48 | x and y grow by the two components and nothing else changes |
| Tiles.SetX | js/tile.js:50-53 | x becomes the argument and nothing else changes |
| Tiles.SetY | js/tile.js:55-58 | y becomes the argument and nothing else changes |
| Tiles.SetRow | js/tile.js:60-62 | y becomes row × tile height and nothing else changes |
| Tiles.SetCol | js/tile.js:64-66 | x becomes column × tile width and nothing else changes |
| Tiles.DrawCopies | js/tile.js:84-108 | the primary copy always comes first; each wrap copy is drawn iff its edge test holds; at most 5 distinct copies |
| Tiles.RestingTileCopies | js/tile.js:84-108 | a tile at home gets no left or up copy; it gets a right copy iff it is in column 0 and a down copy iff it is in row 0 |
| Levels.NewPuzzle | js/baselevel.js:36-51 | ROWS and COLS come from the details; the play torus is a copy of `initial` and the goal torus a copy of `final` |
| Levels.MakeTiles | js/baselevel.js:105-136 | tile (r, c) shows image `valueAt(r, c)` and sits at (c·cellW, r·cellH) with wrap deltas (COLS·cellW, ROWS·cellH) |
| Levels.Reset | js/baselevel.js:139-152 | the play torus becomes `initial`; each cell gets back its load-time tile, moved home |
| Levels.ResetTwice | js/baselevel.js:139-152 | reset never writes what it reads, so resetting twice equals resetting once |
| Levels.TileInPlace | js/baselevel.js:97-101 | true iff the tile at (r, c) shows image n, which is the number at (r, c) |
| Levels.PlaceRowTiles | js/control.js:162-165 | every tile of the row gets x = c·cellW + offset; no other tile changes |
| Levels.PlaceColTiles | js/control.js:183-186 | every tile of the column gets y = r·cellH + offset; no other tile changes |
| BaseControl.Opposite | js/control.js:149-179 | U and D swap, L and R swap, and other letters are not axes |
| BaseControl.OppositeInvolutive | js/control.js:149-179 | example facts, by evaluation on the four axis letters: taking the opposite twice gives back the axis |
| BaseControl.Inverse | js/control.js:149-179 | the pushed undo move keeps the index and takes the other direction of the same axis pair: its opposite is the original move |
| BaseControl.Rotate | js/basecontrol.js:50-73 | a move turns a torus and keeps its shape and values; an unknown axis leaves it unchanged |
| BaseControl.RotateInverse | js/basecontrol.js:50-73 | rotating by a move and then by its inverse gives back the torus |
| BaseControl.Swipe | js/basecontrol.js:50-73 | the same rotation is applied to the tiles and to the numbers, which keep matching; an unknown axis changes nothing |
| BaseControl.SwipeInverse | js/basecontrol.js:50-73 | a swipe followed by the swipe of the inverse move gives back the level |
| BaseControl.Sign | js/basecontrol.js:36-41 | the sign is -1 for U and L and +1 for D and R |
| BaseControl.OppositeSign | js/basecontrol.js:36-41 | opposite axes have opposite signs |
| BaseControl.SignMatchesCommit | js/basecontrol.js:106-128 | the sign moves each tile toward the cell it occupies after the move commits |
| BaseControl.ParseAction | js/basecontrol.js:99 | a token is a move iff it has an axis letter followed by a digit; only that one digit is read |
| BaseControl.ActionString | js/control.js:84 | the action string is the axis letter followed by the index in decimal |
| BaseControl.ActionStringRoundTrip | js/basecontrol.js:99 | parsing the action string gives the move back iff the index is below 10 |
| BaseControl.NewAnimator | js/basecontrol.js:33-35 | the slide time starts at 1000/10 and `animating` starts false |
| BaseControl.AnimateMove | js/basecontrol.js:75-80 | a move whose line exists starts an animation at `now`; `animating` is not touched |
| BaseControl.AnimateAction | js/basecontrol.js:75-104 | an action string is parsed as the frame callback reads it and then animated |
| BaseControl.Fraction | js/basecontrol.js:83-87 | the fraction is at most 1, below 1 iff the elapsed time is below the slide time, and exact while below 1 |
| BaseControl.FinalFrame | js/basecontrol.js:106-128 | at fraction 1 every tile of the moving line is one whole cell past its home in the move's direction; every other tile, and the rest of the tile torus, is unchanged |
| BaseControl.SlideEndsAtHome | js/basecontrol.js:94-101 | after the last frame and the commit, every tile of the line is at its home cell, except the one that wrapped, which is one cell outside |
| BaseControl.Tick | js/basecontrol.js:80-104 | the fraction is clamped to 1; the callback reschedules iff the fraction is below 1 and then changes nothing; otherwise it clears `animating` and commits the move exactly once |
| Gestures.NewGesture | js/control.js:41-60 | no gesture in progress; both axes allowed; no cell selected |
| Gestures.Press | js/control.js:91-131 | a press strictly inside the padded board starts a gesture and selects the cell by floor division; any other press is ignored |
| Gestures.PressSelectsCell | js/control.js:101-126 | on a canvas sized to the board, an accepted press selects a cell of the board |
| Gestures.Cap | js/control.js:211-215 | the displacement is capped to one cell with its sign kept |
| Gestures.Drag | js/control.js:199-273 | a sample is ignored unless dragging; it commits horizontally iff |dx| > |dy| and |dx| > 10, else vertically iff |dy| ≥ |dx| and |dy| > 10; it previews the change in capped displacement |
| Gestures.Release | js/control.js:134-196 | a committed gesture becomes R or L on the selected row (or D or U on the column) by the sign of the raw displacement; every release ends the gesture |
| Gestures.StepsKeepGestureOk | js/control.js:91-273 | press, drag and release keep at most one axis committed and the dragged point within a cell of the start |
| Gestures.HorizontalIsFinal | js/control.js:226-255 | once a gesture is horizontal, no later sample makes it vertical |
| Gestures.VerticalIsFinal | js/control.js:226-255 | once a gesture is vertical, no later sample makes it horizontal |
| Gestures.TieGoesVertical | js/control.js:248-251 | equal capped displacements past the threshold commit vertically |
| Gestures.FarDiagonalGoesVertical | js/control.js:211-251 | a drag a cell or more away on both axes is capped to a tie and commits vertically |
| Gestures.ZeroReleaseIsLeftOrUp | js/control.js:149-177 | releasing at the start point gives L for a horizontal gesture and U for a vertical one |
| Control.NewCtl | js/control.js:41-60 | empty undo stack, nothing animating, counter at zero |
| Control.Press | js/control.js:91-131 | only the gesture changes |
| Control.DragTo | js/control.js:199-273 | a drag sample moves the previewed line's tiles by the preview delta; the controller is otherwise unchanged (a single record update of the gesture and the tile cells), so `tilesRaw`, the cell size, the counter, the stack and the numbers are kept |
| Control.Release | js/control.js:134-196 | a committed release is one record update: the counter goes up by one, the inverse move is pushed, and the level becomes `Commit` of the move; an uncommitted one only ends the gesture; no animation check |
| Control.Commit | js/control.js:145-186 | the number torus turns by the move and the rest of the puzzle (goal, initial, dimensions) is kept; the tile torus is the turned one with only the moved line's x (or y) reset to its home cell; `tilesRaw` is kept |
| Control.Undo | js/control.js:73-87 | does nothing on an empty stack or while animating; otherwise one record update: sets `animating`, lowers the counter, pops one entry and animates it; gesture, level, slide time and cell size are kept |
| Control.UndoAsWritten | js/control.js:73-87 | the same guards, pop and counter as one record update; the one animation appended is the popped entry read back from its action string |
| Control.UndoAsWrittenAgrees | js/control.js:84-85 | for indices below 10 the written undo equals the intended one |
| Control.UndoAsWrittenMissesLine | js/control.js:84-85 | for an index of 10 or more the written undo animates the same axis on the line named by the first digit |
| Control.Tick | js/basecontrol.js:80-104 | a frame is one record update of the level and the animation, as `BaseControl.Tick` says; gesture, stack, counter and cell size are kept |
| Control.Reset | js/control.js:66-69 | one record update: empties the undo stack and clears `animating`; the animations in flight, the slide time, the gesture, the level, the counter and the cell size are kept |
| Control.ReleaseThenUndoRestores | js/control.js:145-180 | the pushed inverse move, applied, gives back the torus from before the release |
| Control.ReleaseUndoFrameRestores | js/control.js:73-87 | release, undo and the undo's last frame restore the numbers, the counter and the stack |
| Control.UndoAllRestores | js/control.js:145-180 | undoing a whole stack of moves, newest first, gives back the starting level |
| Replay.NewTape | js/replaylevel.js:28-29 | the pieces rejoined with spaces give the recorded string, no piece holds a space, and the cursor is 0 |
| Replay.Rewind | js/replaylevel.js:33-41 | the cursor goes back to 0 and the actions are kept |
| Replay.HasNext | js/replaylevel.js:43-45 | true iff some action is left after the cursor |
| Replay.Next | js/replaylevel.js:47-56 | with an action left, returns it and advances by one; at the end, returns nothing and changes nothing |
| Replay.DrainReturnsRest | js/replaylevel.js:43-56 | taking actions until none is left yields exactly the actions from the cursor on |
| Replay.DrainFromStart | js/replaylevel.js:39-56 | from a rewound tape the actions come out in recorded order |
| Replay.SlideTime | js/replaycontrol.js:35-37 | slide time × speed = 1000 |
| Replay.NewPlayer | js/replaycontrol.js:33-38 | not playing, not animating, cursor at 0, slide time 1000/speed |
| Replay.SetSpeed | js/replaycontrol.js:33-36 | only the slide time changes, to 1000/speed |
| Replay.Step | js/replaycontrol.js:70-80 | does nothing at the end or while animating; otherwise sets `animating`, bumps the counter, consumes one action and animates it |
| Replay.Run | js/replaycontrol.js:50-59 | at the end it stops playing; otherwise it steps and schedules one more callback, whatever `playing` says |
| Replay.Play | js/replaycontrol.js:61-68 | does nothing while playing or animating; otherwise sets `playing` and runs the player |
| Replay.TimerFires | js/replaycontrol.js:58 | a pending callback runs the player once |
| Replay.Frame | js/basecontrol.js:80-104 | a frame is one record update of the level and the animation; tape, `playing`, pending callbacks and step counter are kept |
| Replay.Reset | js/replaycontrol.js:44-47 | clears only `playing` and `animating`; the animations in flight and the slide time are kept |
| Replay.ResetLevel | js/replaylevel.js:33-37 | the level becomes `Levels.Reset` of it (the numbers back to `initial`, every tile home, goal and dimensions kept) and the cursor is rewound; the animation, `playing`, callbacks and steps are kept |
| Replay.ResetDoesNotStopPlayer | js/replaycontrol.js:44-59 | `reset` leaves a pending callback armed: when it fires with actions left, the player steps again |
| Replay.BadActionStalls | js/replaycontrol.js:61-80 | an action that cannot be drawn is consumed but leaves `animating` set, after which step and play do nothing |
| Replay.StepThenFrame | js/replaycontrol.js:70-80 | a step and its last frame apply the action under the cursor and leave nothing animating |
| Replay.Land | js/replaycontrol.js:70-80 | one step, landed: the torus turns by the action and the cursor advances by one |
| Replay.PlayOut | js/replaycontrol.js:50-59 | stepping and landing until the end leaves the torus as all remaining actions applied in order |
| Progress.Table | js/progressMonitor.js:26-32 | four bands, the last the whitish default |
| Progress.Colour | js/progressMonitor.js:35-52 | the colour is always one of the four table values |
| Progress.Interpolate | js/progressMonitor.js:35-52 | the table walk returns the colour of the first band (left, right] holding the value, else the default |
| Progress.DefaultBands | js/progressMonitor.js:26 | with the default rating, 1–10 is gold, 11–20 silver, 21–30 bronze, and anything else whitish |
| Progress.ColourMonotone | js/progressMonitor.js:35-52 | for ordered ratings, more moves never give a better colour |
| Decimal.NatToString | js/viewutils.js:33 | canonical decimal digits, one digit iff the number is below 10 |
| Decimal.ParseNatToString | js/viewutils.js:33 | reading the decimal text back gives the number |
| Decimal.PadStart | js/viewutils.js:36 | pads on the left with the fill up to the width and keeps the text as its suffix |
| Decimal.ParsePadded | js/viewutils.js:36 | zero padding keeps the value |
| Strings.Split | js/replaylevel.js:28 | at least one piece, and no piece contains the separator |
| Strings.JoinSplit | js/replaylevel.js:28 | joining the pieces with the separator gives back the string |
| Strings.SplitJoin | js/replaylevel.js:28 | splitting a join of separator-free pieces gives back the pieces |
| ViewUtils.Pad2 | js/viewutils.js:36 | two-digit zero padding keeps the value and has length 2 below 100 |
| ViewUtils.Clock | js/viewutils.js:28-30 | seconds = hours·3600 + minutes·60 + secs with minutes and secs below 60 |
| ViewUtils.FormatTime | js/viewutils.js:18-44 | the text splits on `:` into the clock pieces, and those pieces read back as the seconds |
| ViewUtils.FormatTimeRoundTrip | js/viewutils.js:18-44 | the colon-separated pieces read back as the seconds; one piece iff under a minute, two iff under an hour |
| ViewUtils.FormatTimeShapes | js/viewutils.js:32-43 | under a minute it is plain decimal; the seconds field is always two digits after a colon; minutes are not padded |
| ViewUtils.FormatTimeHourQuirk | js/viewutils.js:41-43 | 3605 seconds format as "01:0:05" |
| ViewUtils.PlaceholderLen | js/viewutils.js:53 | a match is `{`, one or more digits and `}` |
| ViewUtils.Format | js/viewutils.js:47-56 | with no arguments the text is returned unchanged, every placeholder kept verbatim |
| ViewUtils.FormatPlainText | js/viewutils.js:47-56 | text without `{` is unchanged |
| ViewUtils.FormatPlaceholder | js/viewutils.js:47-56 | `{i}` with i an argument index is replaced by argument i and the rest is formatted in turn |
| ViewUtils.FormatAfterPlain | js/viewutils.js:47-56 | text before the first `{` is copied unchanged |
| ViewUtils.FormatLeadingKept | js/viewutils.js:53-55 | a leading `{d}` whose number is not an argument index stays verbatim and the rest is formatted |
| ViewUtils.FormatKeepsPlaceholder | js/viewutils.js:53-55 | after plain text, a `{d}` whose number is not an argument index is kept verbatim |
| ViewUtils.FormatOutOfRange | js/viewutils.js:53-55 | `{i}` with i at or past the argument count is kept verbatim |
| ViewUtils.FormatNonCanonicalKey | js/viewutils.js:53-55 | example, by evaluation: `"{01}".format("a", "b")` is `"{01}"`, since the key `"01"` names no argument |
| ViewUtils.GetPuzz | js/viewutils.js:58-69 | the path splits on `/` into three digit fields reading back as year, month+1 and day; month and day are two digits when below 100 |
| ViewUtils.GetPuzzRoundTrip | js/viewutils.js:58-69 | the path splits on `/` into three digit fields that read back as year, month+1 and day, the last two exactly two digits |
| BaseView.FullDim | js/baseview.js:40-55 | the board side is 300 up to 3 cells, 500 from 10, and linear in between |
| BaseView.CellSize | js/baseview.js:40-57 | the integer-division form of the constructor's cell size |
| BaseView.CellSizeIsFloor | js/baseview.js:40-57 | the cell size is the floor of the exact board side divided by the larger dimension |
| BaseView.CellSizes | js/baseview.js:40-57 | example values, by evaluation: the sizes for 1 to 10 and 20 cells, e.g. 82 for 4 and 52 for 9 |
| BaseView.BoardFits | js/baseview.js:40-57 | the board is at most 500 pixels a side, and cells have positive size iff the board is at most 500 cells a side |
| BaseView.ViewSizes | js/baseview.js:56-73 | cells are square; each canvas is cell × COLS wide and cell × ROWS high; the goal canvas has the same size; both are at most 500 |

## Left out

- DOM, canvas drawing, image loading (`loadTileImages`, `drawGoal`, `__draw_helper`) and the view's buttons, table and counter display are not modelled. The counter appears only as an integer in the controller state.
- `requestAnimationFrame`, `setTimeout` and `performance.now` become explicit inputs: a frame time for `Tick`, a pending-callback count for the replay player.
- Intermediate animation frames are modelled only through their fraction. The fractional pixel positions `__colDrawF`/`__rowDrawF` draw before the last frame are floating-point interpolation and are left out. The last frame (fraction 1) is modelled exactly.
- Floating-point rounding is not modelled. Times are exact reals and pixels are integers. For the cell size, the source's floating-point quotient for 4 to 9 cells is never within rounding distance of an integer, so the exact floor is the same.
- A frame callback the source would throw in is modelled as never scheduled. That covers an axis letter outside U, D, L, R, a missing or non-digit index character, or an index outside the board. `animating` stays set, so later steps and plays do nothing (`Replay.BadActionStalls`).
- `ImgTorus` is not part of this model. The tile torus is assumed to behave exactly like `Torus`.
- Tiles are values. The source shares each tile object between `theTilesRaw` and `theTiles`; this is not modelled, because `reset` rewrites both coordinates of every tile it puts back, so the resulting state is the same.
- `tileInPlace` compares image `src` strings. The model compares image numbers, assuming distinct images have distinct paths.
- Rotators.Apply: requires what `Applicable` states: for a row rotator, a row index in range and a row at least as long as the width captured at creation; for a column rotator, a captured height of at least 1 and no more than the array's length, and a column index present in each of those rows. Four source behaviours are therefore left out: a row index out of range (a TypeError reading `theArray[row][0]`), an Up or Down rotator of an empty array, called (a TypeError reading `theArray[0]`), a row shorter than the captured COLS (`undefined` written into it), and a column index past a row's end (`undefined` holes). The source marks the rotators as unused (arrayutils.js:19) and no other file calls them, so no caller depends on these cases, and a Dafny sequence has no `undefined` to write.
- Control.Press: requires the bounding rectangle to be the canvas `makeConnect` sized, with the CSS padding of 5. The selected cell is then on the board; the source assumes this but does not check it.
- Replay.NewPlayer: requires a positive speed. The slider's range is not part of the source files.
- Replay.SetSpeed: requires a positive speed, for the same reason.
- Replay.Next: requires the cursor to be at most the length, which every reachable tape satisfies; a cursor beyond the end cannot arise.
- The touch-to-mouse event re-dispatch (control.js 278-305), Game.js, Replay.js, playlevel.js and `getRandomDate` (randomness) are not modelled.
- `ViewUtils.GetPuzz` takes the year, zero-based month and day as numbers. Reading them from a `Date` is left out.
- Toroidal.FromArray: requires that no row be shorter than row 0. `new Torus` would copy `undefined` out of a shorter row; level files are rectangular, so this case is not modelled. The rotators of arrayutils.js (`Rotators.LeftRotator`, `Rotators.RightRotator`) likewise require a non-empty array, where the source throws a TypeError reading the length of row 0.
- Levels.NewPuzzle: requires the grids of the level file to have exactly the ROWS and COLS it announces. The constructor never compares them; a level file whose grids disagree with its dimensions is not modelled, because every later operation reads ROWS and COLS as the grids' shape.
- BaseView.CellSize: positive only for boards of at most 500 cells a side. That bound, from `BaseView.BoardFits`, is what the gesture code's positive cell size needs.

## Findings

| source | as written | input that shows it | evidently intended | confidence | as-written member | corrected member |
|---|---|---|---|---|---|---|
| js/control.js:84-85 with js/basecontrol.js:99 | undo builds the action string `axis + index`, and the frame callback parses only the character after the axis letter, so an index of 10 or more undoes the line named by its first digit | a level with 11 rows: swipe row 10 right, then undo; the undo stack holds L10, and the callback turns row 1 left | undo turns back exactly the line the popped entry names | not executed | Control.UndoAsWritten (with Control.UndoAsWrittenMissesLine) | Control.Undo (with Control.ReleaseUndoFrameRestores and Control.UndoAllRestores) |
