/** The `Baselevel` class of baselevel.js: the puzzle's dimensions, its
    initial and goal number grids as tori, and the torus of image tiles the
    player pushes around.  The constructor's part (`NewPuzzle`) and the
    part done by `makeTiles` once the images have loaded (`MakeTiles`) are
    separate steps, as in the source. */
module Levels {
  import opened Rotation
  import opened Toroidal
  import opened Tiles

  /** The fields of a level file the core reads. */
  datatype Details = Details(rows: int, cols: int, initial: Grid<nat>, final: Grid<nat>, ntiles: nat)

  /** A level file whose grids have the announced dimensions. */
  predicate WellFormed(d: Details) {
    && d.rows > 0 && d.cols > 0
    && |d.initial| == d.rows && |d.final| == d.rows
    && (forall r :: 0 <= r < d.rows ==> |d.initial[r]| == d.cols)
    && (forall r :: 0 <= r < d.rows ==> |d.final[r]| == d.cols)
  }

  /** A level as the constructor leaves it. */
  datatype Puzzle = Puzzle(rows: nat, cols: nat, initial: Grid<nat>, goal: Torus<nat>, torus: Torus<nat>, ntiles: nat)

  /** The number tori are well formed and have the level's dimensions. */
  predicate PuzzleValid(p: Puzzle) {
    && p.cols > 0
    && Valid(p.goal) && Valid(p.torus)
    && p.goal.rows == p.rows && p.goal.cols == p.cols
    && p.torus.rows == p.rows && p.torus.cols == p.cols
    && |p.initial| == p.rows
    && (forall r :: 0 <= r < p.rows ==> |p.initial[r]| == p.cols)
  }

  /** `new Baselevel(details)`: ROWS and COLS from the details, the goal
      torus copied from `final`, the play torus copied from `initial`, and
      `initial` kept for resets. */
  function NewPuzzle(d: Details): (p: Puzzle)
    requires WellFormed(d)
    ensures PuzzleValid(p) && p.rows == d.rows && p.cols == d.cols
    ensures p.initial == d.initial && p.ntiles == d.ntiles
    ensures p.torus.cells == d.initial && p.goal.cells == d.final
  {
    var goal := FromArray(d.final).value;
    var torus := FromArray(d.initial).value;
    ResetIsFreshCopy(goal, d.final);
    ResetIsFreshCopy(torus, d.initial);
    Puzzle(d.rows, d.cols, d.initial, goal, torus, d.ntiles)
  }

  /** A level whose tiles have been made. */
  datatype Level = Level(puzzle: Puzzle, tilesRaw: Grid<Tile>, tiles: Torus<Tile>)

  /** The tile at (r, c) shows the image numbered by the play torus at (r, c). */
  ghost predicate TilesMatch(lv: Level)
    requires PuzzleValid(lv.puzzle) && Valid(lv.tiles) && SameShape(lv.tiles, lv.puzzle.torus)
  {
    forall r, c :: 0 <= r < lv.puzzle.rows && 0 <= c < lv.puzzle.cols ==>
      ValueAt(lv.tiles, r, c).img == ValueAt(lv.puzzle.torus, r, c)
  }

  /** The well-formedness every level operation keeps: shapes agree, the
      tiles show the play torus, and the tiles made at load time show the
      initial grid (so a reset to them is consistent). */
  ghost predicate Consistent(lv: Level) {
    && PuzzleValid(lv.puzzle)
    && Valid(lv.tiles) && SameShape(lv.tiles, lv.puzzle.torus)
    && TilesMatch(lv)
    && |lv.tilesRaw| == lv.puzzle.rows
    && (forall r :: 0 <= r < lv.puzzle.rows ==> |lv.tilesRaw[r]| == lv.puzzle.cols)
    && (forall r, c :: 0 <= r < lv.puzzle.rows && 0 <= c < lv.puzzle.cols ==>
          lv.tilesRaw[r][c].img == lv.puzzle.initial[r][c])
  }

  /** The position of the tile resting in cell (r, c). */
  predicate AtHome(t: Tile, r: int, c: int, cellW: int, cellH: int) {
    t.x == c * cellW && t.y == r * cellH
  }

  /** `makeTiles(cellW, cellH)`: one tile per cell, showing the image the
      play torus names there, placed at its cell, with duplicates offset by
      the whole grid's width and height. */
  function MakeTiles(p: Puzzle, cellW: int, cellH: int): (lv: Level)
    requires PuzzleValid(p)
    ensures lv.puzzle == p
    ensures Valid(lv.tiles) && SameShape(lv.tiles, p.torus) && TilesMatch(lv)
    ensures lv.tiles.cells == lv.tilesRaw
    ensures forall r, c :: 0 <= r < p.rows && 0 <= c < p.cols ==>
              var t := ValueAt(lv.tiles, r, c);
              && AtHome(t, r, c, cellW, cellH)
              && t.deltax == p.cols * cellW && t.deltay == p.rows * cellH
              && t.tilew == cellW && t.tileh == cellH
    ensures p.torus.cells == p.initial ==> Consistent(lv)
  {
    var raw := seq(p.rows, r requires 0 <= r < p.rows =>
                 seq(p.cols, c requires 0 <= c < p.cols =>
                   Tile(c * cellW, r * cellH, p.cols * cellW, p.rows * cellH,
                        ValueAt(p.torus, r, c), cellW, cellH)));
    Level(p, raw, Torus(p.rows, p.cols, raw))
  }

  /** `reset(cellW, cellH)`: the play torus gets the initial grid back, and
      every cell gets back the tile made there at load time, moved home. */
  function Reset(lv: Level, cellW: int, cellH: int): (u: Level)
    requires Consistent(lv)
    ensures Consistent(u)
    ensures u.puzzle == lv.puzzle.(torus := u.puzzle.torus) && u.tilesRaw == lv.tilesRaw
    ensures u.puzzle.torus.cells == lv.puzzle.initial
    ensures forall r, c :: 0 <= r < lv.puzzle.rows && 0 <= c < lv.puzzle.cols ==>
              && AtHome(ValueAt(u.tiles, r, c), r, c, cellW, cellH)
              && ValueAt(u.tiles, r, c).(x := 0, y := 0) == lv.tilesRaw[r][c].(x := 0, y := 0)
  {
    var p := lv.puzzle;
    Toroidal.ResetIsFreshCopy(p.torus, p.initial);
    var tiles := seq(p.rows, r requires 0 <= r < p.rows =>
                   seq(p.cols, c requires 0 <= c < p.cols =>
                     SetY(SetX(lv.tilesRaw[r][c], c * cellW), r * cellH)));
    Level(p.(torus := Toroidal.Reset(p.torus, p.initial)), lv.tilesRaw, Torus(p.rows, p.cols, tiles))
  }

  /** Reset reads `initial` and the load-time tiles but never writes them,
      so a second reset changes nothing. */
  lemma ResetTwice(lv: Level, cellW: int, cellH: int)
    requires Consistent(lv)
    ensures Reset(Reset(lv, cellW, cellH), cellW, cellH) == Reset(lv, cellW, cellH)
  {
  }

  /** `tileInPlace(r, c, n)`: the tile at (r, c) shows image `n`. */
  function TileInPlace(lv: Level, r: int, c: int, n: nat): (b: bool)
    requires Consistent(lv) && 0 <= r < lv.puzzle.rows && 0 <= c < lv.puzzle.cols && n < lv.puzzle.ntiles
    ensures b <==> ValueAt(lv.puzzle.torus, r, c) == n
  {
    ValueAt(lv.tiles, r, c).img == n
  }

  // ---------------------------------------------------------------------
  // Moving tiles during a drag, and putting them back

  /** Applies `f` to every tile of row `r`. */
  function MapRow(lv: Level, r: int, f: Tile -> Tile): (u: Level)
    requires Consistent(lv) && 0 <= r < lv.puzzle.rows
    requires forall t :: f(t).img == t.img
    ensures Consistent(u) && u.puzzle == lv.puzzle && u.tilesRaw == lv.tilesRaw
    ensures forall q, c :: 0 <= q < lv.puzzle.rows && 0 <= c < lv.puzzle.cols ==>
              ValueAt(u.tiles, q, c) == if q == r then f(ValueAt(lv.tiles, q, c)) else ValueAt(lv.tiles, q, c)
  {
    var cells := lv.tiles.cells;
    var row := seq(lv.puzzle.cols, c requires 0 <= c < lv.puzzle.cols => f(cells[r][c]));
    lv.(tiles := lv.tiles.(cells := cells[r := row]))
  }

  /** Applies `f` to every tile of column `c`. */
  function MapCol(lv: Level, c: int, f: Tile -> Tile): (u: Level)
    requires Consistent(lv) && 0 <= c < lv.puzzle.cols
    requires forall t :: f(t).img == t.img
    ensures Consistent(u) && u.puzzle == lv.puzzle && u.tilesRaw == lv.tilesRaw
    ensures forall r, q :: 0 <= r < lv.puzzle.rows && 0 <= q < lv.puzzle.cols ==>
              ValueAt(u.tiles, r, q) == if q == c then f(ValueAt(lv.tiles, r, q)) else ValueAt(lv.tiles, r, q)
  {
    var cells := lv.tiles.cells;
    var cells' := seq(lv.puzzle.rows, r requires 0 <= r < lv.puzzle.rows => cells[r][c := f(cells[r][c])]);
    lv.(tiles := lv.tiles.(cells := cells'))
  }

  /** The drag preview of a horizontal gesture: every tile of row `r` moves
      by `dx` pixels. */
  function ShiftRowTiles(lv: Level, r: int, dx: int): (u: Level)
    requires Consistent(lv) && 0 <= r < lv.puzzle.rows
    ensures Consistent(u) && u.puzzle == lv.puzzle
  {
    MapRow(lv, r, t => UpdatePositionBy(t, dx, 0))
  }

  /** The drag preview of a vertical gesture. */
  function ShiftColTiles(lv: Level, c: int, dy: int): (u: Level)
    requires Consistent(lv) && 0 <= c < lv.puzzle.cols
    ensures Consistent(u) && u.puzzle == lv.puzzle
  {
    MapCol(lv, c, t => UpdatePositionBy(t, 0, dy))
  }

  /** Puts every tile of row `r` at the x of its column plus `offset`:
      with offset 0 after a horizontal release, and with plus or minus one
      cell on the last frame of a row slide. */
  function PlaceRowTiles(lv: Level, r: int, cellW: int, offset: int): (u: Level)
    requires Consistent(lv) && 0 <= r < lv.puzzle.rows
    ensures Consistent(u) && u.puzzle == lv.puzzle && u.tilesRaw == lv.tilesRaw
    ensures u.tiles == lv.tiles.(cells := u.tiles.cells)
    ensures forall q, c :: 0 <= q < lv.puzzle.rows && 0 <= c < lv.puzzle.cols ==>
              ValueAt(u.tiles, q, c) == if q == r then ValueAt(lv.tiles, q, c).(x := c * cellW + offset)
                                        else ValueAt(lv.tiles, q, c)
  {
    var cells := lv.tiles.cells;
    var row := seq(lv.puzzle.cols, c requires 0 <= c < lv.puzzle.cols => SetX(cells[r][c], c * cellW + offset));
    lv.(tiles := lv.tiles.(cells := cells[r := row]))
  }

  /** Puts every tile of column `c` at the y of its row plus `offset`. */
  function PlaceColTiles(lv: Level, c: int, cellH: int, offset: int): (u: Level)
    requires Consistent(lv) && 0 <= c < lv.puzzle.cols
    ensures Consistent(u) && u.puzzle == lv.puzzle && u.tilesRaw == lv.tilesRaw
    ensures u.tiles == lv.tiles.(cells := u.tiles.cells)
    ensures forall r, q :: 0 <= r < lv.puzzle.rows && 0 <= q < lv.puzzle.cols ==>
              ValueAt(u.tiles, r, q) == if q == c then ValueAt(lv.tiles, r, q).(y := r * cellH + offset)
                                        else ValueAt(lv.tiles, r, q)
  {
    var cells := lv.tiles.cells;
    var cells' := seq(lv.puzzle.rows, r requires 0 <= r < lv.puzzle.rows => cells[r][c := SetY(cells[r][c], r * cellH + offset)]);
    lv.(tiles := lv.tiles.(cells := cells'))
  }
}
