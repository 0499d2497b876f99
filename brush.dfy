/** The brush of the map editor: which tiles a stroke touches (one tile, the
    tiles of a line between two mouse positions, or every tile of the selection
    or of the map when filling), how the cursor's footprint of several tiles is
    laid over each of them, and what the stroke writes. Mouse positions are in
    pixels; tiles are 32 pixels square. */
module Brush {
  import opened Tiles
  import opened AutotileShapes
  import opened AutotileUpdate
  import opened Painting
  import opened Lists

  /** A tile coordinate. */
  datatype Coord = Coord(x: int, y: int)

  /** The tile a pixel coordinate falls in. The source floors `v / 32d`; Dafny's
      division by a positive divisor floors as well. */
  function TileOf(v: int): (t: int)
    ensures 32 * t <= v < 32 * t + 32
  {
    v / 32
  }

  lemma TileOfMonotone(a: int, b: int)
    requires a <= b
    ensures TileOf(a) <= TileOf(b)
  {
  }

  // ---- Selection ----

  /** The map viewer's rectangular selection, in tiles. */
  datatype Selection = Selection(x: int, y: int, width: int, height: int, visible: bool)

  /** A selection restricts the brush when it is set (neither coordinate is -1),
      not empty and shown. */
  predicate Active(s: Selection)
  {
    s.x != -1 && s.y != -1 && s.width != 0 && s.height != 0 && s.visible
  }

  predicate InSelection(s: Selection, x: int, y: int)
  {
    s.x <= x < s.x + s.width && s.y <= y < s.y + s.height
  }

  // ---- Fill ----

  /** The tiles of columns sx .. ex - 1 in row y, left to right. */
  function Row(sx: int, ex: int, y: int): seq<Coord>
  {
    seq(if ex > sx then ex - sx else 0, k => Coord(sx + k, y))
  }

  /** The tiles of columns sx .. ex - 1 and rows sy .. ey - 1, row by row: the
      list the fill's nested loops build. */
  function RectTiles(sx: int, ex: int, sy: int, ey: int): seq<Coord>
    decreases ey - sy
  {
    if ey <= sy then [] else RectTiles(sx, ex, sy, ey - 1) + Row(sx, ex, ey - 1)
  }

  /** The fill list holds exactly the tiles of the rectangle, each once. */
  lemma {:induction false} RectTilesMembers(sx: int, ex: int, sy: int, ey: int)
    ensures forall c :: c in RectTiles(sx, ex, sy, ey) <==> sx <= c.x < ex && sy <= c.y < ey
    ensures NoDuplicates(RectTiles(sx, ex, sy, ey))
    decreases ey - sy
  {
    if ey > sy {
      RectTilesMembers(sx, ex, sy, ey - 1);
      var a, b := RectTiles(sx, ex, sy, ey - 1), Row(sx, ex, ey - 1);
      assert RectTiles(sx, ex, sy, ey) == a + b;
      forall c: Coord
        ensures c in a + b <==> sx <= c.x < ex && sy <= c.y < ey
      {
        if sx <= c.x < ex && c.y == ey - 1 {
          assert b[c.x - sx] == c;
        }
      }
      forall i, j | 0 <= i < j < |a + b|
        ensures (a + b)[i] != (a + b)[j]
      {
        if i < |a| && j >= |a| {
          assert a[i] in a;
        }
      }
    }
  }

  /** The fill's nested loops: every column of a row, row after row. */
  method FillCoords(sx: int, ex: int, sy: int, ey: int) returns (coords: seq<Coord>)
    ensures coords == RectTiles(sx, ex, sy, ey)
  {
    coords := [];
    var y := sy;
    while y < ey
      invariant sy <= y && (y <= ey || y == sy)
      invariant coords == RectTiles(sx, ex, sy, y)
    {
      coords := FillRow(coords, sx, ex, y);
      y := y + 1;
    }
  }

  /** The inner loop of the fill: the columns of row y appended in order. */
  method FillRow(coords0: seq<Coord>, sx: int, ex: int, y: int) returns (coords: seq<Coord>)
    ensures coords == coords0 + Row(sx, ex, y)
  {
    coords := coords0;
    var x := sx;
    while x < ex
      invariant sx <= x && (x <= ex || x == sx)
      invariant coords == coords0 + Row(sx, x, y)
    {
      assert Row(sx, x + 1, y) == Row(sx, x, y) + [Coord(x, y)];
      coords := coords + [Coord(x, y)];
      x := x + 1;
    }
    assert Row(sx, x, y) == Row(sx, ex, y);
  }

  // ---- Line ----

  /** Where a sweep over the values between a and b starts: the smaller one. */
  function Low(a: int, b: int): int
  {
    if a > b then b else a
  }

  /** How many values the sweep from Low(a, b) visits: both ends included. */
  function Steps(a: int, b: int): nat
  {
    if a > b then a - b + 1 else b - a + 1
  }

  /** Rounding n / d to the nearest integer, ties to the even one: the default
      mode of `Math.Round`. */
  function RoundHalfEven(n: int, d: int): (r: int)
    requires d > 0
    ensures 2 * n - d <= 2 * (r * d) <= 2 * n + d
    ensures 2 * (r * d) == 2 * n - d || 2 * (r * d) == 2 * n + d ==> r % 2 == 0
  {
    var q, m := n / d, n % d;
    assert n == q * d + m;
    assert (q + 1) * d == q * d + d;
    if 2 * m < d then q
    else if 2 * m > d then q + 1
    else if q % 2 == 0 then q
    else q + 1
  }

  /** A multiple of d rounds to itself. */
  lemma RoundExact(k: int, d: int)
    requires d > 0
    ensures RoundHalfEven(k * d, d) == k
  {
    DivModUnique(k * d, d, k, 0);
  }

  /** A quotient between two integers rounds to a value between them. */
  lemma RoundBetween(n: int, d: int, lo: int, hi: int)
    requires d > 0 && lo * d <= n <= hi * d
    ensures lo <= RoundHalfEven(n, d) <= hi
  {
    var r := RoundHalfEven(n, d);
    if r < lo {
      MulStep(r, lo, d);
    }
    if r > hi {
      MulStep(hi, r, d);
    }
  }

  /** The line's value at a, on the straight line through (a1, b1) and (a2, b2),
      rounded as the source rounds it. When a1 == a2 the source divides zero by
      zero; `nan` is then the integer its runtime makes of the resulting NaN
      (Some), or None for the corrected sweep, which takes b1 (see Findings). */
  function Interpolate(a1: int, b1: int, a2: int, b2: int, a: int, nan: Option<int>): int
  {
    if a1 == a2 then (if nan.Some? then nan.value else b1)
    else if a1 < a2 then LineAt(b1, b2, a2 - a1, a - a1)
    else LineAt(b1, b2, a1 - a2, a1 - a)
  }

  /** The rounded value, k steps out of span, of the line from b1 to b2: that
      is, of b1 + (b2 - b1) * k / span. */
  function LineAt(b1: int, b2: int, span: int, k: int): int
    requires span > 0
  {
    RoundHalfEven(b1 * span + (b2 - b1) * k, span)
  }

  function Min(a: int, b: int): int { if a < b then a else b }
  function Max(a: int, b: int): int { if a < b then b else a }

  /** b1 + (b2 - b1) * k / span lies between b1 and b2 when k is between 0 and span. */
  lemma BetweenEnds(b1: int, b2: int, span: int, k: int)
    requires 0 <= k <= span
    ensures Min(b1, b2) * span <= b1 * span + (b2 - b1) * k <= Max(b1, b2) * span
  {
    if b1 <= b2 {
      MulMonotone(0, k, b2 - b1);
      MulMonotone(k, span, b2 - b1);
      assert b2 * span == b1 * span + (b2 - b1) * span;
    } else {
      MulMonotone(0, k, b1 - b2);
      MulMonotone(k, span, b1 - b2);
      assert b2 * span == b1 * span - (b1 - b2) * span;
    }
  }

  /** The rounded line through (0, b1) and (span, b2), at k: it meets both ends
      and stays between them. */
  lemma RoundLine(b1: int, b2: int, span: int, k: int)
    requires 0 <= k <= span && span > 0
    ensures var r := LineAt(b1, b2, span, k);
      && (k == 0 ==> r == b1)
      && (k == span ==> r == b2)
      && Min(b1, b2) <= r <= Max(b1, b2)
  {
    BetweenEnds(b1, b2, span, k);
    RoundBetween(b1 * span + (b2 - b1) * k, span, Min(b1, b2), Max(b1, b2));
    if k == 0 {
      LineStart(b1, b2, span);
    }
    if k == span {
      LineEnd(b1, b2, span);
    }
  }

  lemma LineStart(b1: int, b2: int, span: int)
    requires span > 0
    ensures LineAt(b1, b2, span, 0) == b1
  {
    assert b1 * span + (b2 - b1) * 0 == b1 * span;
    RoundExact(b1, span);
  }

  lemma LineEnd(b1: int, b2: int, span: int)
    requires span > 0
    ensures LineAt(b1, b2, span, span) == b2
  {
    assert b1 * span + (b2 - b1) * span == b2 * span;
    RoundExact(b2, span);
  }

  /** On the sweep's range the corrected line meets both of its ends and stays
      between them. */
  lemma InterpolateBetween(a1: int, b1: int, a2: int, b2: int, a: int)
    requires Min(a1, a2) <= a <= Max(a1, a2)
    ensures a == a1 ==> Interpolate(a1, b1, a2, b2, a, None) == b1
    ensures a == a2 && a1 != a2 ==> Interpolate(a1, b1, a2, b2, a, None) == b2
    ensures Min(b1, b2) <= Interpolate(a1, b1, a2, b2, a, None) <= Max(b1, b2)
  {
    if a1 < a2 {
      RoundLine(b1, b2, a2 - a1, a - a1);
    } else if a1 > a2 {
      RoundLine(b1, b2, a1 - a2, a1 - a);
    }
  }

  /** The tile the first sweep reaches at pixel column x. */
  function XSweepTile(x1: int, y1: int, x2: int, y2: int, x: int, nan: Option<int>): Coord
  {
    Coord(TileOf(x), TileOf(Interpolate(x1, y1, x2, y2, x, nan)))
  }

  /** The tile the second sweep reaches at pixel row y. */
  function YSweepTile(x1: int, y1: int, x2: int, y2: int, y: int, nan: Option<int>): Coord
  {
    Coord(TileOf(Interpolate(y1, x1, y2, x2, y, nan)), TileOf(y))
  }

  /** Every tile the two sweeps reach, in order: first one per pixel column from
      the leftmost end to the rightmost, then one per pixel row from the top end
      to the bottom one. */
  function Sweeps(x1: int, y1: int, x2: int, y2: int, nan: Option<int>): seq<Coord>
  {
    seq(Steps(x1, x2), k => XSweepTile(x1, y1, x2, y2, Low(x1, x2) + k, nan)) +
    seq(Steps(y1, y2), k => YSweepTile(x1, y1, x2, y2, Low(y1, y2) + k, nan))
  }

  /** The tile the sweeps reach at step k. */
  lemma SweepsAt(x1: int, y1: int, x2: int, y2: int, nan: Option<int>, k: int)
    requires 0 <= k < Steps(x1, x2) + Steps(y1, y2)
    ensures |Sweeps(x1, y1, x2, y2, nan)| == Steps(x1, x2) + Steps(y1, y2)
    ensures k < Steps(x1, x2) ==> Sweeps(x1, y1, x2, y2, nan)[k] == XSweepTile(x1, y1, x2, y2, Low(x1, x2) + k, nan)
    ensures k >= Steps(x1, x2) ==>
              Sweeps(x1, y1, x2, y2, nan)[k] == YSweepTile(x1, y1, x2, y2, Low(y1, y2) + (k - Steps(x1, x2)), nan)
  {
  }

  /** The line's tiles: the swept tiles, each once, in the order first reached. */
  function LineAnchors(x1: int, y1: int, x2: int, y2: int, nan: Option<int>): seq<Coord>
  {
    Distinct(Sweeps(x1, y1, x2, y2, nan))
  }

  /** The line holds exactly the tiles the sweeps reach, each once. */
  lemma LineMembers(x1: int, y1: int, x2: int, y2: int, nan: Option<int>, c: Coord)
    ensures NoDuplicates(LineAnchors(x1, y1, x2, y2, nan))
    ensures c in LineAnchors(x1, y1, x2, y2, nan) <==>
              (exists x :: Low(x1, x2) <= x < Low(x1, x2) + Steps(x1, x2) && c == XSweepTile(x1, y1, x2, y2, x, nan)) ||
              (exists y :: Low(y1, y2) <= y < Low(y1, y2) + Steps(y1, y2) && c == YSweepTile(x1, y1, x2, y2, y, nan))
  {
    var s := Sweeps(x1, y1, x2, y2, nan);
    if c in s {
      SweptTile(x1, y1, x2, y2, nan, c);
    }
    if exists x :: Low(x1, x2) <= x < Low(x1, x2) + Steps(x1, x2) && c == XSweepTile(x1, y1, x2, y2, x, nan) {
      var x :| Low(x1, x2) <= x < Low(x1, x2) + Steps(x1, x2) && c == XSweepTile(x1, y1, x2, y2, x, nan);
      XSwept(x1, y1, x2, y2, nan, x);
    }
    if exists y :: Low(y1, y2) <= y < Low(y1, y2) + Steps(y1, y2) && c == YSweepTile(x1, y1, x2, y2, y, nan) {
      var y :| Low(y1, y2) <= y < Low(y1, y2) + Steps(y1, y2) && c == YSweepTile(x1, y1, x2, y2, y, nan);
      YSwept(x1, y1, x2, y2, nan, y);
    }
  }

  /** A tile the sweeps reach comes from a column or a row of the sweeps. */
  lemma SweptTile(x1: int, y1: int, x2: int, y2: int, nan: Option<int>, c: Coord)
    requires c in Sweeps(x1, y1, x2, y2, nan)
    ensures (exists x :: Low(x1, x2) <= x < Low(x1, x2) + Steps(x1, x2) && c == XSweepTile(x1, y1, x2, y2, x, nan)) ||
            (exists y :: Low(y1, y2) <= y < Low(y1, y2) + Steps(y1, y2) && c == YSweepTile(x1, y1, x2, y2, y, nan))
  {
    var s := Sweeps(x1, y1, x2, y2, nan);
    var n := Steps(x1, x2);
    var i :| 0 <= i < |s| && s[i] == c;
    SweepsAt(x1, y1, x2, y2, nan, i);
    if i < n {
      assert c == XSweepTile(x1, y1, x2, y2, Low(x1, x2) + i, nan);
    } else {
      assert c == YSweepTile(x1, y1, x2, y2, Low(y1, y2) + (i - n), nan);
    }
  }

  lemma XSwept(x1: int, y1: int, x2: int, y2: int, nan: Option<int>, x: int)
    requires Low(x1, x2) <= x < Low(x1, x2) + Steps(x1, x2)
    ensures XSweepTile(x1, y1, x2, y2, x, nan) in Sweeps(x1, y1, x2, y2, nan)
  {
    SweepsAt(x1, y1, x2, y2, nan, x - Low(x1, x2));
  }

  lemma YSwept(x1: int, y1: int, x2: int, y2: int, nan: Option<int>, y: int)
    requires Low(y1, y2) <= y < Low(y1, y2) + Steps(y1, y2)
    ensures YSweepTile(x1, y1, x2, y2, y, nan) in Sweeps(x1, y1, x2, y2, nan)
  {
    SweepsAt(x1, y1, x2, y2, nan, Steps(x1, x2) + (y - Low(y1, y2)));
  }

  /** The corrected line starts at the tile of its first point and ends at the
      tile of its last. */
  lemma LineEndpoints(x1: int, y1: int, x2: int, y2: int)
    ensures Coord(TileOf(x1), TileOf(y1)) in LineAnchors(x1, y1, x2, y2, None)
    ensures Coord(TileOf(x2), TileOf(y2)) in LineAnchors(x1, y1, x2, y2, None)
  {
    InterpolateBetween(x1, y1, x2, y2, x1);
    LineMembers(x1, y1, x2, y2, None, Coord(TileOf(x1), TileOf(y1)));
    assert Coord(TileOf(x1), TileOf(y1)) == XSweepTile(x1, y1, x2, y2, x1, None);
    var last := Coord(TileOf(x2), TileOf(y2));
    LineMembers(x1, y1, x2, y2, None, last);
    if x1 != x2 {
      InterpolateBetween(x1, y1, x2, y2, x2);
      assert last == XSweepTile(x1, y1, x2, y2, x2, None);
    } else {
      InterpolateBetween(y1, x1, y2, x2, y2);
      assert last == YSweepTile(x1, y1, x2, y2, y2, None);
    }
  }

  /** Every tile of the corrected line lies in the box of tiles spanned by its
      two ends. */
  lemma LineInBox(x1: int, y1: int, x2: int, y2: int, c: Coord)
    requires c in LineAnchors(x1, y1, x2, y2, None)
    ensures Min(TileOf(x1), TileOf(x2)) <= c.x <= Max(TileOf(x1), TileOf(x2))
    ensures Min(TileOf(y1), TileOf(y2)) <= c.y <= Max(TileOf(y1), TileOf(y2))
  {
    LineMembers(x1, y1, x2, y2, None, c);
    if exists x :: Low(x1, x2) <= x < Low(x1, x2) + Steps(x1, x2) && c == XSweepTile(x1, y1, x2, y2, x, None) {
      var x :| Low(x1, x2) <= x < Low(x1, x2) + Steps(x1, x2) && c == XSweepTile(x1, y1, x2, y2, x, None);
      InterpolateBetween(x1, y1, x2, y2, x);
      BoxMonotone(x1, x2, x);
      BoxMonotone(y1, y2, Interpolate(x1, y1, x2, y2, x, None));
    } else {
      var y :| Low(y1, y2) <= y < Low(y1, y2) + Steps(y1, y2) && c == YSweepTile(x1, y1, x2, y2, y, None);
      InterpolateBetween(y1, x1, y2, x2, y);
      BoxMonotone(y1, y2, y);
      BoxMonotone(x1, x2, Interpolate(y1, x1, y2, x2, y, None));
    }
  }

  lemma BoxMonotone(a: int, b: int, v: int)
    requires Min(a, b) <= v <= Max(a, b)
    ensures Min(TileOf(a), TileOf(b)) <= TileOf(v) <= Max(TileOf(a), TileOf(b))
  {
    TileOfMonotone(Min(a, b), v);
    TileOfMonotone(v, Max(a, b));
  }

  /** A vertical stroke at pixel column 40 from row 100 to row 300 crosses tile
      rows 3 to 9 of tile column 1. As written, the column sweep divides zero by
      zero; on a runtime that converts the resulting NaN to 0 it adds tile (1, 0),
      outside the stroke. The corrected sweep does not. */
  lemma VerticalLineAsWrittenStrays()
    ensures Coord(1, 0) in LineAnchors(40, 100, 40, 300, Some(0))
    ensures Coord(1, 0) !in LineAnchors(40, 100, 40, 300, None)
  {
    LineMembers(40, 100, 40, 300, Some(0), Coord(1, 0));
    assert Coord(1, 0) == XSweepTile(40, 100, 40, 300, 40, Some(0));
    if Coord(1, 0) in LineAnchors(40, 100, 40, 300, None) {
      LineInBox(40, 100, 40, 300, Coord(1, 0));
    }
  }

  lemma TakeOneMore<T>(s: seq<T>, k: int)
    requires 0 <= k < |s|
    ensures s[..k + 1] == s[..k] + [s[k]]
  {
  }

  /** The tile the column sweep adds at pixel column x, step k of the sweeps. */
  lemma ColumnStep(x1: int, y1: int, x2: int, y2: int, x: int, k: int)
    requires k == x - Low(x1, x2) && 0 <= k < Steps(x1, x2)
    ensures var s := Sweeps(x1, y1, x2, y2, None);
      && k < |s|
      && s[..k + 1] == s[..k] + [Coord(TileOf(x), TileOf(Interpolate(x1, y1, x2, y2, x, None)))]
  {
    var s := Sweeps(x1, y1, x2, y2, None);
    SweepsAt(x1, y1, x2, y2, None, k);
    assert s[k] == XSweepTile(x1, y1, x2, y2, x, None);
    TakeOneMore(s, k);
  }

  /** The tile the row sweep adds at pixel row y, step k of the sweeps. */
  lemma RowStep(x1: int, y1: int, x2: int, y2: int, y: int, k: int)
    requires k == Steps(x1, x2) + (y - Low(y1, y2)) && Low(y1, y2) <= y < Low(y1, y2) + Steps(y1, y2)
    ensures var s := Sweeps(x1, y1, x2, y2, None);
      && k < |s|
      && s[..k + 1] == s[..k] + [Coord(TileOf(Interpolate(y1, x1, y2, x2, y, None)), TileOf(y))]
  {
    var s := Sweeps(x1, y1, x2, y2, None);
    SweepsAt(x1, y1, x2, y2, None, k);
    assert s[k] == YSweepTile(x1, y1, x2, y2, y, None);
    TakeOneMore(s, k);
  }

  /** Adding a tile unless the list already holds it: one more step of building
      the distinct tiles of `done`. */
  method AddAbsent(coords: seq<Coord>, c: Coord, ghost done: seq<Coord>) returns (r: seq<Coord>)
    requires coords == Distinct(done)
    ensures r == Distinct(done + [c])
  {
    DistinctSnoc(done, c);
    r := coords;
    if c !in coords {
      r := coords + [c];
    }
  }

  /** The line's two sweeps, each adding a tile only when the list does not yet
      hold it. */
  method LineCoords(x1: int, y1: int, x2: int, y2: int) returns (coords: seq<Coord>)
    ensures coords == LineAnchors(x1, y1, x2, y2, None)
  {
    coords := ColumnSweep(x1, y1, x2, y2);
    coords := RowSweep(x1, y1, x2, y2, coords);
  }

  /** The first sweep: one tile per pixel column, from the leftmost end to the
      rightmost. */
  method ColumnSweep(x1: int, y1: int, x2: int, y2: int) returns (coords: seq<Coord>)
    ensures coords == Distinct(Sweeps(x1, y1, x2, y2, None)[..Steps(x1, x2)])
  {
    ghost var s := Sweeps(x1, y1, x2, y2, None);
    ghost var n := Steps(x1, x2);
    coords := [];
    var x := if x1 > x2 then x2 else x1;
    ghost var k := 0;
    ghost var done := s[..0];
    while if x1 > x2 then x <= x1 else x <= x2
      invariant Low(x1, x2) <= x <= Low(x1, x2) + n
      invariant k == x - Low(x1, x2)
      invariant done == s[..k] && coords == Distinct(done)
      decreases Low(x1, x2) + n - x
    {
      var y := Interpolate(x1, y1, x2, y2, x, None);
      ColumnStep(x1, y1, x2, y2, x, k);
      coords := AddAbsent(coords, Coord(TileOf(x), TileOf(y)), done);
      x, k, done := x + 1, k + 1, done + [Coord(TileOf(x), TileOf(y))];
    }
  }

  /** The second sweep: one tile per pixel row, from the top end to the bottom
      one, added to the tiles of the first. */
  method RowSweep(x1: int, y1: int, x2: int, y2: int, coords0: seq<Coord>) returns (coords: seq<Coord>)
    requires coords0 == Distinct(Sweeps(x1, y1, x2, y2, None)[..Steps(x1, x2)])
    ensures coords == LineAnchors(x1, y1, x2, y2, None)
  {
    ghost var s := Sweeps(x1, y1, x2, y2, None);
    ghost var n := Steps(x1, x2);
    coords := coords0;
    var y := if y1 > y2 then y2 else y1;
    ghost var k := n;
    ghost var done := s[..n];
    while if y1 > y2 then y <= y1 else y <= y2
      invariant Low(y1, y2) <= y <= Low(y1, y2) + Steps(y1, y2)
      invariant k == n + (y - Low(y1, y2))
      invariant done == s[..k] && coords == Distinct(done)
      decreases Low(y1, y2) + Steps(y1, y2) - y
    {
      var x := Interpolate(y1, x1, y2, x2, y, None);
      RowStep(x1, y1, x2, y2, y, k);
      coords := AddAbsent(coords, Coord(TileOf(x), TileOf(y)), done);
      y, k, done := y + 1, k + 1, done + [Coord(TileOf(x), TileOf(y))];
    }
    assert s[..|s|] == s;
  }

  // ---- The stroke ----

  /** The tiles a stroke from (oldx, oldy) to (newx, newy) touches, before the
      footprint is laid over them; None when a fill starts outside the active
      selection and the brush draws nothing. An old position with a -1 means the
      stroke starts at the new position. */
  function Anchors(fill: bool, oldx: int, oldy: int, newx: int, newy: int, sel: Selection,
                   width: int, height: int): Option<seq<Coord>>
  {
    var (x1, y1) := if oldx == -1 || oldy == -1 then (newx, newy) else (oldx, oldy);
    if fill then
      if Active(sel) then
        if InSelection(sel, TileOf(newx), TileOf(newy)) then Some(RectTiles(sel.x, sel.x + sel.width, sel.y, sel.y + sel.height))
        else None
      else Some(RectTiles(0, width, 0, height))
    else if x1 != newx || y1 != newy then Some(LineAnchors(x1, y1, newx, newy, None))
    else Some([Coord(TileOf(newx), TileOf(newy))])
  }

  /** What each mode of the brush touches: a fill is refused exactly when it
      starts outside an active selection and otherwise covers the selection, or
      the whole map when no selection is active; a click, or a stroke that has not
      moved, touches the one tile under the mouse; a line touches both end tiles.
      No mode lists a tile twice. */
  lemma AnchorsMeaning(fill: bool, oldx: int, oldy: int, newx: int, newy: int, sel: Selection,
                       width: int, height: int)
    ensures var r := Anchors(fill, oldx, oldy, newx, newy, sel, width, height);
      && (fill ==> (r.None? <==> Active(sel) && !InSelection(sel, TileOf(newx), TileOf(newy))))
      && (fill && r.Some? ==> forall c :: c in r.value <==>
            if Active(sel) then InSelection(sel, c.x, c.y) else InGrid(c.x, c.y, width, height))
      && (!fill && (oldx == -1 || oldy == -1 || (oldx == newx && oldy == newy)) ==>
            r == Some([Coord(TileOf(newx), TileOf(newy))]))
      && (!fill && oldx != -1 && oldy != -1 ==>
            r.Some? && Coord(TileOf(oldx), TileOf(oldy)) in r.value && Coord(TileOf(newx), TileOf(newy)) in r.value)
      && (r.Some? ==> NoDuplicates(r.value))
  {
    var r := Anchors(fill, oldx, oldy, newx, newy, sel, width, height);
    if fill && Active(sel) {
      RectTilesMembers(sel.x, sel.x + sel.width, sel.y, sel.y + sel.height);
      assert r == if InSelection(sel, TileOf(newx), TileOf(newy))
        then Some(RectTiles(sel.x, sel.x + sel.width, sel.y, sel.y + sel.height)) else None;
    } else if fill {
      RectTilesMembers(0, width, 0, height);
      assert r == Some(RectTiles(0, width, 0, height));
    } else if oldx == -1 || oldy == -1 || (oldx == newx && oldy == newy) {
      assert r == Some([Coord(TileOf(newx), TileOf(newy))]);
    } else {
      assert r == Some(LineAnchors(oldx, oldy, newx, newy, None));
      LineEndpoints(oldx, oldy, newx, newy);
      LineMembers(oldx, oldy, newx, newy, None, Coord(0, 0));
    }
  }

  /** The first half of the brush: normalise the start, then list the tiles of the
      fill, the line or the point. Returns false when the fill is refused. */
  method ComputeAnchors(fill: bool, oldx: int, oldy: int, newx: int, newy: int, sel: Selection,
                        width: int, height: int) returns (ok: bool, coords: seq<Coord>)
    ensures ok <==> Anchors(fill, oldx, oldy, newx, newy, sel, width, height).Some?
    ensures ok ==> coords == Anchors(fill, oldx, oldy, newx, newy, sel, width, height).value
  {
    var x1, y1 := oldx, oldy;
    if oldx == -1 || oldy == -1 {
      x1, y1 := newx, newy;
    }
    ok := true;
    if fill {
      var sx, sy, ex, ey;
      if Active(sel) {
        var mx, my := TileOf(newx), TileOf(newy);
        sx, ex, sy, ey := sel.x, sel.x + sel.width, sel.y, sel.y + sel.height;
        if !(mx >= sx && mx < ex && my >= sy && my < ey) {
          ok, coords := false, [];
          return;
        }
      } else {
        sx, sy, ex, ey := 0, 0, width, height;
      }
      coords := FillCoords(sx, ex, sy, ey);
    } else if x1 != newx || y1 != newy {
      coords := LineCoords(x1, y1, newx, newy);
    } else {
      coords := [Coord(TileOf(newx), TileOf(newy))];
    }
  }

  // ---- The footprint ----

  /** Which corner of the footprint sits on the anchor tile. */
  datatype Corner = TopLeft | TopRight | BottomLeft | BottomRight

  /** The brush cursor: a footprint of width + 1 by height + 1 tiles, the corner
      of it placed on each anchor, and the origin point the palette is aligned to. */
  datatype Cursor = Cursor(width: nat, height: nat, corner: Corner, originX: int, originY: int)

  /** The palette (the tiles picked in the tileset panel) fills the footprint. */
  predicate FitsPalette(c: Cursor, palette: seq<Cell>)
  {
    |palette| == (c.width + 1) * (c.height + 1)
  }

  /** Every autotile of the palette names one of the map's autotile slots. */
  predicate PaletteOk(palette: seq<Cell>, groups: int)
  {
    forall k :: 0 <= k < |palette| ==> (Group(palette[k]).Some? ==> 0 <= Group(palette[k]).value < groups)
  }

  /** No palette tile is an autotile with a preset shape, which the brush would
      place without resolving it. */
  predicate NoPresets(palette: seq<Cell>)
  {
    forall k :: 0 <= k < |palette| ==> !PresetShape(palette[k], false)
  }

  /** The column of the footprint's left edge when the given corner column is v:
      right-hand corners move it left by the cursor's width. The origin point is
      moved the same way. */
  function Left(v: int, c: Cursor): int
  {
    if c.corner == TopRight || c.corner == BottomRight then v - c.width else v
  }

  /** The row of the footprint's top edge, likewise. */
  function Top(v: int, c: Cursor): int
  {
    if c.corner == BottomLeft || c.corner == BottomRight then v - c.height else v
  }

  /** The map tile that footprint cell j of the footprint laid on anchor a covers:
      cells run row by row, width + 1 to a row. */
  function FootX(a: Coord, c: Cursor, j: int): int
  {
    Left(a.x, c) + j % (c.width + 1)
  }

  function FootY(a: Coord, c: Cursor, j: int): int
  {
    Top(a.y, c) + j / (c.width + 1)
  }

  /** Distinct footprint cells cover distinct tiles. */
  lemma FootInjective(a: Coord, c: Cursor, i: int, j: int)
    requires FootX(a, c, i) == FootX(a, c, j) && FootY(a, c, i) == FootY(a, c, j)
    ensures i == j
  {
    var n := c.width + 1;
    assert i == n * (i / n) + i % n && j == n * (j / n) + j % n;
  }

  /** The source's realignment of a footprint offset v to the palette: the offset
      of the footprint's edge `edge` from the origin edge, reduced with C#'s
      truncating `%`, is taken off, n is added back if the result is negative and
      the result is reduced again. (The source subtracts the difference in either
      of its two sign branches.) The palette offset it gives is the tile's distance
      from the origin, taken modulo n. */
  function Realign(v: int, edge: int, origin: int, n: int): (r: int)
    requires v >= 0 && n > 0
    ensures 0 <= r < n
    ensures r == (edge + v - origin) % n
  {
    var diff := CsRem(origin - edge, n);
    var s := v - diff;
    var s' := if s < 0 then s + n else s;
    RealignStep(v, edge, origin, n, diff, s');
    CsRem(s', n)
  }

  /** The value Realign reduces last is not negative and congruent to the tile's
      distance from the origin. */
  lemma RealignStep(v: int, edge: int, origin: int, n: int, diff: int, s': int)
    requires v >= 0 && n > 0 && diff == CsRem(origin - edge, n)
    requires s' == if v - diff < 0 then v - diff + n else v - diff
    ensures s' >= 0 && s' % n == (edge + v - origin) % n
  {
    var u := edge + v - origin;
    var k := RealignQuotient(v, edge, origin, n, diff);
    ModShift(u, n, k);
    if v - diff < 0 {
      ModShift(u + n * k, n, 1);
    }
  }

  /** Taking off the truncating remainder of the origin's offset leaves the
      tile's distance from the origin plus a multiple of n. */
  lemma RealignQuotient(v: int, edge: int, origin: int, n: int, diff: int) returns (k: int)
    requires n > 0 && diff == CsRem(origin - edge, n)
    ensures v - diff == edge + v - origin + n * k
  {
    var d := origin - edge;
    CsRemCongruent(d, n);
    var q := d / n;
    assert d == n * q + d % n;
    if diff == d % n {
      k := q;
    } else {
      k := q + 1;
      assert n * k == n * q + n;
    }
  }


  /** The source's steps of the realignment, given the offset it works out once
      per anchor. Both of the source's sign branches subtract the offset; the
      value reduced last is not negative, where C#'s `%` and Dafny's agree. */
  method RealignOffset(v: int, diff: int, ghost edge: int, ghost origin: int, n: int) returns (r: int)
    requires v >= 0 && n > 0 && diff == CsRem(origin - edge, n)
    ensures r == Realign(v, edge, origin, n)
  {
    r := v - diff;
    if r < 0 {
      r := r + n;
    }
    RealignStep(v, edge, origin, n, diff, r);
    r := r % n;
  }

  /** Values that differ by a multiple of n leave the same remainder. */
  lemma ModShift(u: int, n: int, k: int)
    requires n > 0
    ensures (u + n * k) % n == u % n
  {
    assert u == n * (u / n) + u % n;
    assert u + n * k == n * (u / n + k) + u % n;
    DivModUnique(u + n * k, n, u / n + k, u % n);
  }

  /** The palette column the source picks for footprint cell j. */
  function SelX(a: Coord, c: Cursor, j: int): int
    requires j >= 0
  {
    Realign(j % (c.width + 1), Left(a.x, c), Left(c.originX, c), c.width + 1)
  }

  /** The palette row the source picks for footprint cell j. */
  function SelY(a: Coord, c: Cursor, j: int): int
    requires j >= 0
  {
    Realign(j / (c.width + 1), Top(a.y, c), Top(c.originY, c), c.height + 1)
  }

  /** The palette cell the origin-aligned pattern puts on map tile (x, y): the
      palette repeats across the map, starting at the origin point. */
  function PatternIndex(c: Cursor, x: int, y: int): (r: int)
    ensures 0 <= r < (c.width + 1) * (c.height + 1)
  {
    var sx, sy := (x - Left(c.originX, c)) % (c.width + 1), (y - Top(c.originY, c)) % (c.height + 1);
    MulMonotone(sy, c.height, c.width + 1);
    sy * (c.width + 1) + sx
  }

  /** The palette index the source reads for footprint cell j is the pattern's
      cell for the tile it covers, wherever the anchor lies: strokes that overlap
      agree, and the palette always stays in range. */
  function PaletteIndex(a: Coord, c: Cursor, j: int): (r: int)
    requires j >= 0
    ensures r == PatternIndex(c, FootX(a, c, j), FootY(a, c, j))
    ensures 0 <= r < (c.width + 1) * (c.height + 1)
  {
    SelY(a, c, j) * (c.width + 1) + SelX(a, c, j)
  }

  /** Footprint cell j is drawn: it is on the map and, when a selection is active,
      inside it. */
  predicate Applies(a: Coord, c: Cursor, j: int, sel: Selection, w: int, h: int)
  {
    InGrid(FootX(a, c, j), FootY(a, c, j), w, h) && (Active(sel) ==> InSelection(sel, FootX(a, c, j), FootY(a, c, j)))
  }

  /** The tile the brush writes from palette cell k: nothing when erasing or when
      the palette cell is empty, otherwise the palette's tile. */
  function NewTile(palette: seq<Cell>, k: int, blank: bool): Cell
    requires 0 <= k < |palette|
  {
    if blank then None else palette[k]
  }

  /** The layer after footprint cell j of anchor a is drawn. */
  function StampWrite(t: seq<Cell>, a: Coord, c: Cursor, palette: seq<Cell>, blank: bool, sel: Selection,
                      w: int, h: int, j: int): (r: seq<Cell>)
    requires |t| == w * h && FitsPalette(c, palette) && 0 <= j < |palette|
    ensures |r| == |t|
  {
    if Applies(a, c, j, sel, w, h) then
      PosInRange(FootX(a, c, j), FootY(a, c, j), w, h);
      t[Pos(FootX(a, c, j), FootY(a, c, j), w) := NewTile(palette, PaletteIndex(a, c, j), blank)]
    else t
  }

  /** A footprint cell that is not drawn leaves the layer as it is. */
  lemma StampWriteSkipped(t: seq<Cell>, a: Coord, c: Cursor, palette: seq<Cell>, blank: bool, sel: Selection,
                          w: int, h: int, j: int)
    requires |t| == w * h && FitsPalette(c, palette) && 0 <= j < |palette| && !Applies(a, c, j, sel, w, h)
    ensures StampWrite(t, a, c, palette, blank, sel, w, h, j) == t
  {
  }

  /** A footprint cell that is drawn writes its palette tile at its tile. */
  lemma StampWriteDrawn(t: seq<Cell>, a: Coord, c: Cursor, palette: seq<Cell>, blank: bool, sel: Selection,
                        w: int, h: int, j: int)
    requires |t| == w * h && FitsPalette(c, palette) && 0 <= j < |palette| && Applies(a, c, j, sel, w, h)
    ensures 0 <= Pos(FootX(a, c, j), FootY(a, c, j), w) < |t|
    ensures StampWrite(t, a, c, palette, blank, sel, w, h, j) ==
              t[Pos(FootX(a, c, j), FootY(a, c, j), w) := NewTile(palette, PaletteIndex(a, c, j), blank)]
  {
    PosInRange(FootX(a, c, j), FootY(a, c, j), w, h);
  }

  /** The layer after the first j footprint cells of anchor a are drawn. */
  function StampTo(t: seq<Cell>, a: Coord, c: Cursor, palette: seq<Cell>, blank: bool, sel: Selection,
                   w: int, h: int, j: int): (r: seq<Cell>)
    requires |t| == w * h && FitsPalette(c, palette) && 0 <= j <= |palette|
    ensures |r| == |t|
  {
    if j == 0 then t else StampWrite(StampTo(t, a, c, palette, blank, sel, w, h, j - 1), a, c, palette, blank, sel, w, h, j - 1)
  }

  /** One more footprint cell drawn on a layer that matched the first j keeps it
      matching the first j + 1. */
  lemma StampToStep(cur: seq<Cell>, now: seq<Cell>, t0: seq<Cell>, a: Coord, c: Cursor, palette: seq<Cell>,
                    blank: bool, sel: Selection, w: int, h: int, j: int)
    requires |t0| == |cur| == w * h && FitsPalette(c, palette) && 0 <= j < |palette|
    requires SameContent(cur, StampTo(t0, a, c, palette, blank, sel, w, h, j), w, h)
    requires SameContent(now, StampWrite(cur, a, c, palette, blank, sel, w, h, j), w, h)
    ensures SameContent(now, StampTo(t0, a, c, palette, blank, sel, w, h, j + 1), w, h)
  {
    var before := StampTo(t0, a, c, palette, blank, sel, w, h, j);
    SameContentStamp(cur, before, a, c, palette, blank, sel, w, h, j);
    SameContentTrans(StampTo(t0, a, c, palette, blank, sel, w, h, j + 1),
                     StampWrite(cur, a, c, palette, blank, sel, w, h, j), now, w, h);
  }

  /** The layer after the whole footprint is laid on each of the first n anchors
      in turn. */
  function Painted(t: seq<Cell>, anchors: seq<Coord>, c: Cursor, palette: seq<Cell>, blank: bool, sel: Selection,
                   w: int, h: int, n: int): (r: seq<Cell>)
    requires |t| == w * h && FitsPalette(c, palette) && 0 <= n <= |anchors|
    ensures |r| == |t|
  {
    if n == 0 then t
    else StampTo(Painted(t, anchors, c, palette, blank, sel, w, h, n - 1), anchors[n - 1], c, palette, blank, sel, w, h, |palette|)
  }

  /** Footprint cell j of anchor a is drawn on tile (qx, qy). */
  predicate Covers(a: Coord, c: Cursor, j: int, sel: Selection, w: int, h: int, qx: int, qy: int)
  {
    Applies(a, c, j, sel, w, h) && FootX(a, c, j) == qx && FootY(a, c, j) == qy
  }

  /** Laying the footprint on an anchor puts on every tile it draws the pattern's
      palette cell for that tile (or nothing when erasing). */
  lemma {:induction false} StampLaysPattern(t: seq<Cell>, a: Coord, c: Cursor, palette: seq<Cell>, blank: bool,
                                            sel: Selection, w: int, h: int, j: int, i: int)
    requires |t| == w * h && FitsPalette(c, palette) && 0 <= i < j <= |palette|
    requires Applies(a, c, i, sel, w, h)
    ensures CellAt(StampTo(t, a, c, palette, blank, sel, w, h, j), w, h, FootX(a, c, i), FootY(a, c, i)) ==
            NewTile(palette, PatternIndex(c, FootX(a, c, i), FootY(a, c, i)), blank)
  {
    var u := StampTo(t, a, c, palette, blank, sel, w, h, j - 1);
    var qx, qy := FootX(a, c, i), FootY(a, c, i);
    if Applies(a, c, j - 1, sel, w, h) {
      var px, py := FootX(a, c, j - 1), FootY(a, c, j - 1);
      var nt := NewTile(palette, PaletteIndex(a, c, j - 1), blank);
      PosInRange(px, py, w, h);
      CellAtWrite(u, w, h, px, py, nt);
      assert WrittenCell(u[Pos(px, py, w) := nt], u, w, h, px, py, nt, qx, qy);
      if i != j - 1 {
        if qx == px && qy == py {
          FootInjective(a, c, i, j - 1);
        }
        StampLaysPattern(t, a, c, palette, blank, sel, w, h, j - 1, i);
      }
    } else {
      StampLaysPattern(t, a, c, palette, blank, sel, w, h, j - 1, i);
    }
  }

  /** Laying the footprint changes only tiles it draws. */
  lemma {:induction false} StampOnlyCovered(t: seq<Cell>, a: Coord, c: Cursor, palette: seq<Cell>, blank: bool,
                                            sel: Selection, w: int, h: int, j: int, qx: int, qy: int)
    requires |t| == w * h && FitsPalette(c, palette) && 0 <= j <= |palette|
    requires CellAt(StampTo(t, a, c, palette, blank, sel, w, h, j), w, h, qx, qy) != CellAt(t, w, h, qx, qy)
    ensures exists i :: 0 <= i < j && Covers(a, c, i, sel, w, h, qx, qy)
  {
    var u := StampTo(t, a, c, palette, blank, sel, w, h, j - 1);
    if Applies(a, c, j - 1, sel, w, h) {
      var px, py := FootX(a, c, j - 1), FootY(a, c, j - 1);
      var nt := NewTile(palette, PaletteIndex(a, c, j - 1), blank);
      PosInRange(px, py, w, h);
      CellAtWrite(u, w, h, px, py, nt);
      assert WrittenCell(u[Pos(px, py, w) := nt], u, w, h, px, py, nt, qx, qy);
      if qx == px && qy == py {
        assert Covers(a, c, j - 1, sel, w, h, qx, qy);
      } else {
        StampOnlyCovered(t, a, c, palette, blank, sel, w, h, j - 1, qx, qy);
      }
    } else {
      StampOnlyCovered(t, a, c, palette, blank, sel, w, h, j - 1, qx, qy);
    }
  }

  /** A stroke changes only tiles that one of its footprints draws: tiles off the
      map and, when a selection is active, tiles outside it keep what they hold. */
  lemma {:induction false} PaintedOnlyCovered(t: seq<Cell>, anchors: seq<Coord>, c: Cursor, palette: seq<Cell>,
                                              blank: bool, sel: Selection, w: int, h: int, n: int, qx: int, qy: int)
    requires |t| == w * h && FitsPalette(c, palette) && 0 <= n <= |anchors|
    requires CellAt(Painted(t, anchors, c, palette, blank, sel, w, h, n), w, h, qx, qy) != CellAt(t, w, h, qx, qy)
    ensures exists k, i :: 0 <= k < n && 0 <= i < |palette| && Covers(anchors[k], c, i, sel, w, h, qx, qy)
    ensures InGrid(qx, qy, w, h) && (Active(sel) ==> InSelection(sel, qx, qy))
  {
    var u := Painted(t, anchors, c, palette, blank, sel, w, h, n - 1);
    if CellAt(u, w, h, qx, qy) != CellAt(t, w, h, qx, qy) {
      PaintedOnlyCovered(t, anchors, c, palette, blank, sel, w, h, n - 1, qx, qy);
    } else {
      StampOnlyCovered(u, anchors[n - 1], c, palette, blank, sel, w, h, |palette|, qx, qy);
      var i :| 0 <= i < |palette| && Covers(anchors[n - 1], c, i, sel, w, h, qx, qy);
      assert Covers(anchors[n - 1], c, i, sel, w, h, qx, qy);
    }
  }

  // ---- What the brush records ----

  /** One entry of the undo group: the flat position written, the tile written
      and the tile it replaced. */
  datatype Change = Change(pos: int, newTile: Cell, oldTile: Cell)

  /** An entry the brush can record: a real change (by the brush's own rule) of
      a tile of the map, inside the selection when one is active. */
  predicate ChangeOk(ch: Change, sel: Selection, w: int, h: int)
  {
    && w > 0 && 0 <= ch.pos < w * h
    && (Active(sel) ==> InSelection(sel, ch.pos % w, ch.pos / w))
    && !SameTile(ch.oldTile, ch.newTile)
  }

  /** Writing the same cell of two layers with the same content keeps them alike. */
  lemma SameContentWrite(u: seq<Cell>, t: seq<Cell>, w: int, h: int, x: int, y: int, c: Cell)
    requires SameContent(u, t, w, h) && |u| == |t| && InGrid(x, y, w, h) && 0 <= Pos(x, y, w) < |t|
    ensures SameContent(u[Pos(x, y, w) := c], t[Pos(x, y, w) := c], w, h)
  {
    var u', t' := u[Pos(x, y, w) := c], t[Pos(x, y, w) := c];
    CellAtWrite(u, w, h, x, y, c);
    CellAtWrite(t, w, h, x, y, c);
    forall qx, qy
      ensures SameContentCell(u', t', w, h, qx, qy)
    {
      assert WrittenCell(u', u, w, h, x, y, c, qx, qy);
      assert WrittenCell(t', t, w, h, x, y, c, qx, qy);
      assert SameContentCell(u, t, w, h, qx, qy);
    }
  }

  /** Writing a cell with a tile the brush considers the same changes nothing it
      denotes. */
  lemma SameContentRepaint(t: seq<Cell>, w: int, h: int, x: int, y: int, c: Cell)
    requires InGrid(x, y, w, h) && 0 <= Pos(x, y, w) < |t| && SameTile(CellAt(t, w, h, x, y), c)
    ensures SameContent(t, t[Pos(x, y, w) := c], w, h)
  {
    var t' := t[Pos(x, y, w) := c];
    CellAtWrite(t, w, h, x, y, c);
    SameTileIsDenoteEquality(CellAt(t, w, h, x, y), c);
    forall qx, qy
      ensures SameContentCell(t, t', w, h, qx, qy)
    {
      assert WrittenCell(t', t, w, h, x, y, c, qx, qy);
    }
  }

  /** Drawing the same footprint cell on two layers with the same content keeps
      them alike. */
  lemma SameContentStamp(u: seq<Cell>, t: seq<Cell>, a: Coord, c: Cursor, palette: seq<Cell>, blank: bool,
                         sel: Selection, w: int, h: int, j: int)
    requires SameContent(u, t, w, h) && |u| == |t| == w * h && FitsPalette(c, palette) && 0 <= j < |palette|
    ensures SameContent(StampWrite(u, a, c, palette, blank, sel, w, h, j), StampWrite(t, a, c, palette, blank, sel, w, h, j), w, h)
  {
    if Applies(a, c, j, sel, w, h) {
      PosInRange(FootX(a, c, j), FootY(a, c, j), w, h);
      SameContentWrite(u, t, w, h, FootX(a, c, j), FootY(a, c, j), NewTile(palette, PaletteIndex(a, c, j), blank));
    }
  }

  /** Laying a footprint on two layers with the same content keeps them alike. */
  lemma {:induction false} SameContentStampTo(u: seq<Cell>, t: seq<Cell>, a: Coord, c: Cursor, palette: seq<Cell>,
                                              blank: bool, sel: Selection, w: int, h: int, j: int)
    requires SameContent(u, t, w, h) && |u| == |t| == w * h && FitsPalette(c, palette) && 0 <= j <= |palette|
    ensures SameContent(StampTo(u, a, c, palette, blank, sel, w, h, j), StampTo(t, a, c, palette, blank, sel, w, h, j), w, h)
  {
    if j > 0 {
      SameContentStampTo(u, t, a, c, palette, blank, sel, w, h, j - 1);
      SameContentStamp(StampTo(u, a, c, palette, blank, sel, w, h, j - 1), StampTo(t, a, c, palette, blank, sel, w, h, j - 1),
                       a, c, palette, blank, sel, w, h, j - 1);
    }
  }

  /** A layer that has the content of a whole footprint laid on `cur` has the
      content of that footprint laid on any layer alike to `cur`. */
  lemma {:induction false} SameContentStampAll(now: seq<Cell>, cur: seq<Cell>, t: seq<Cell>, a: Coord, c: Cursor, palette: seq<Cell>,
                            blank: bool, sel: Selection, w: int, h: int)
    requires |cur| == |t| == w * h && FitsPalette(c, palette)
    requires SameContent(now, StampTo(cur, a, c, palette, blank, sel, w, h, |palette|), w, h)
    requires SameContent(cur, t, w, h)
    ensures SameContent(now, StampTo(t, a, c, palette, blank, sel, w, h, |palette|), w, h)
  {
    SameContentStampTo(cur, t, a, c, palette, blank, sel, w, h, |palette|);
    SameContentTrans(StampTo(t, a, c, palette, blank, sel, w, h, |palette|),
                     StampTo(cur, a, c, palette, blank, sel, w, h, |palette|), now, w, h);
  }
}
