/** `ProgressMonitor` of progressMonitor.js: turns a move count into a
    colour for the progress display, by bands whose right ends come from a
    rating. */
module Progress {
  /** The right ends of the gold, silver and bronze bands. */
  datatype Rating = Rating(gold: int, silver: int, bronze: int)

  /** The rating used when none is given. */
  const DefaultRating: Rating := Rating(10, 20, 30)

  /** A band: its right end (none for the last, catch-all band) and the
      colour it stands for. */
  datatype Band = Band(right: int, value: string)

  /** The table the constructor builds: gold, silver, bronze, then the
      whitish default, whose right end is never read. */
  function Table(r: Rating): (t: seq<Band>)
    ensures |t| == 4 && t[3].value == "#dad9d7"
  {
    [Band(r.gold, "gold"), Band(r.silver, "silver"), Band(r.bronze, "#CD7F32"), Band(0, "#dad9d7")]
  }

  /** The colour for `v`: the first band, taken in table order, whose
      half-open range (previous right end, own right end] holds `v`, the
      first band starting at 0; the whitish default when none does. */
  function Colour(r: Rating, v: int): (c: string)
    ensures c in {"gold", "silver", "#CD7F32", "#dad9d7"}
  {
    if 0 < v <= r.gold then "gold"
    else if r.gold < v <= r.silver then "silver"
    else if r.silver < v <= r.bronze then "#CD7F32"
    else "#dad9d7"
  }

  /** `interpolate(value)`: walk the table keeping the previous right end
      as the left end, and return the first band whose range holds the
      value; otherwise the last band's colour. */
  method Interpolate(r: Rating, v: int) returns (c: string)
    ensures c == Colour(r, v)
  {
    var table := Table(r);
    assert table[0] == Band(r.gold, "gold") && table[1] == Band(r.silver, "silver");
    assert table[2] == Band(r.bronze, "#CD7F32");
    var left := 0;
    var m := 0;
    while m < |table| - 1
      invariant 0 <= m <= |table| - 1
      invariant table == Table(r)
      invariant left == if m == 0 then 0 else if m == 1 then r.gold else if m == 2 then r.silver else r.bronze
      invariant m >= 1 ==> !(0 < v <= r.gold)
      invariant m >= 2 ==> !(r.gold < v <= r.silver)
      invariant m >= 3 ==> !(r.silver < v <= r.bronze)
    {
      var right := table[m].right;
      if left < v <= right {
        return table[m].value;
      }
      left := right;
      m := m + 1;
    }
    return table[|table| - 1].value;
  }

  /** With the default rating, up to 10 moves is gold, 11 to 20 silver,
      21 to 30 bronze, and anything else (including no moves) whitish. */
  lemma DefaultBands(v: int)
    ensures 1 <= v <= 10 <==> Colour(DefaultRating, v) == "gold"
    ensures 11 <= v <= 20 <==> Colour(DefaultRating, v) == "silver"
    ensures 21 <= v <= 30 <==> Colour(DefaultRating, v) == "#CD7F32"
    ensures v <= 0 || v > 30 <==> Colour(DefaultRating, v) == "#dad9d7"
  {
  }

  /** The colours from best to worst. */
  function Rank(c: string): int {
    if c == "gold" then 0 else if c == "silver" then 1 else if c == "#CD7F32" then 2 else 3
  }

  /** For ordered ratings, more moves never earn a better colour. */
  lemma ColourMonotone(r: Rating, v: int, w: int)
    requires 0 <= r.gold <= r.silver <= r.bronze
    requires 0 < v <= w
    ensures Rank(Colour(r, v)) <= Rank(Colour(r, w))
  {
  }
}
