/** The `Tile` class of tile.js: one image fragment with its pixel
    position, the offsets at which its wrap-around duplicates are drawn,
    its image and its drawn size.  Images are identified by their number
    in the level's image list. */
module Tiles {

  datatype Tile = Tile(x: int, y: int, deltax: int, deltay: int, img: nat, tilew: int, tileh: int)

  /** `updatePositionBy({x: dx, y: dy})`. */
  function UpdatePositionBy(t: Tile, dx: int, dy: int): (u: Tile)
    ensures u.x == t.x + dx && u.y == t.y + dy
    ensures u.(x := t.x, y := t.y) == t
  {
    t.(x := t.x + dx, y := t.y + dy)
  }

  /** `setX(p)` changes the horizontal position and nothing else. */
  function SetX(t: Tile, p: int): (u: Tile)
    ensures u.x == p && u.(x := t.x) == t
  {
    t.(x := p)
  }

  /** `setY(p)` changes the vertical position and nothing else. */
  function SetY(t: Tile, p: int): (u: Tile)
    ensures u.y == p && u.(y := t.y) == t
  {
    t.(y := p)
  }

  /** `setRow(r)`: the top edge of grid row `r`. */
  function SetRow(t: Tile, r: int): (u: Tile)
    ensures u.y == r * t.tileh && u.(y := t.y) == t
  {
    SetY(t, r * t.tileh)
  }

  /** `setCol(c)`: the left edge of grid column `c`. */
  function SetCol(t: Tile, c: int): (u: Tile)
    ensures u.x == c * t.tilew && u.(x := t.x) == t
  {
    SetX(t, c * t.tilew)
  }

  /** The copies `draw` can emit: the tile itself, and duplicates shifted
      by one full grid width or height. */
  datatype Copy = Primary | ShiftedLeft | ShiftedRight | ShiftedUp | ShiftedDown

  function CopyOffset(t: Tile, k: Copy): (int, int) {
    match k
    case Primary => (0, 0)
    case ShiftedLeft => (-t.deltax, 0)
    case ShiftedRight => (t.deltax, 0)
    case ShiftedUp => (0, -t.deltay)
    case ShiftedDown => (0, t.deltay)
  }

  /** The copies `draw` emits, in drawing order, on a canvas of the given
      size: the tile always, a duplicate one grid width to the left when
      the tile sticks out on the right, one to the right when it sticks
      out on the left, and likewise vertically. */
  function DrawCopies(t: Tile, width: int, height: int): (ks: seq<Copy>)
    ensures 1 <= |ks| <= 5 && ks[0] == Primary
    ensures ShiftedLeft in ks <==> t.x + t.tilew > width
    ensures ShiftedRight in ks <==> t.x - t.tilew < 0
    ensures ShiftedUp in ks <==> t.y + t.tileh > height
    ensures ShiftedDown in ks <==> t.y - t.tileh < 0
    ensures forall i, j :: 0 <= i < j < |ks| ==> ks[i] != ks[j]
  {
    [Primary]
    + (if t.x + t.tilew > width then [ShiftedLeft] else [])
    + (if t.x - t.tilew < 0 then [ShiftedRight] else [])
    + (if t.y + t.tileh > height then [ShiftedUp] else [])
    + (if t.y - t.tileh < 0 then [ShiftedDown] else [])
  }

  /** A tile resting in its cell of a `rows` x `cols` grid on a canvas of
      exactly that size never needs a copy shifted left or up; it gets a
      copy shifted right only in column 0 and one shifted down only in
      row 0, and those copies land wholly outside the canvas. */
  lemma RestingTileCopies(t: Tile, r: int, c: int, rows: int, cols: int)
    requires t.tilew > 0 && t.tileh > 0
    requires 0 <= r < rows && 0 <= c < cols
    requires t.x == c * t.tilew && t.y == r * t.tileh
    requires t.deltax == cols * t.tilew && t.deltay == rows * t.tileh
    ensures ShiftedLeft !in DrawCopies(t, cols * t.tilew, rows * t.tileh)
    ensures ShiftedUp !in DrawCopies(t, cols * t.tilew, rows * t.tileh)
    ensures ShiftedRight in DrawCopies(t, cols * t.tilew, rows * t.tileh) <==> c == 0
    ensures ShiftedDown in DrawCopies(t, cols * t.tilew, rows * t.tileh) <==> r == 0
    ensures t.x + t.deltax >= cols * t.tilew && t.y + t.deltay >= rows * t.tileh
  {
    assert (c + 1) * t.tilew <= cols * t.tilew by {
      MulMonotone(c + 1, cols, t.tilew);
    }
    assert (r + 1) * t.tileh <= rows * t.tileh by {
      MulMonotone(r + 1, rows, t.tileh);
    }
    if c > 0 {
      MulMonotone(1, c, t.tilew);
    }
    if r > 0 {
      MulMonotone(1, r, t.tileh);
    }
  }

  lemma MulMonotone(a: int, b: int, k: int)
    requires a <= b && k > 0
    ensures a * k <= b * k
  {
  }
}
