/** The integer arithmetic of compositing: which 32x32 square of a tileset image a
    tile number shows, which 16x16 quarter of an autotile image each quadrant of a
    cell shows, and which animation frame an animated autotile is on. Pixels
    themselves are not modelled; only the rectangles are. */
module Rendering {
  import opened Tiles

  /** A rectangle in pixels: top-left corner and size. */
  datatype Rect = Rect(x: int, y: int, w: int, h: int)

  /** Tileset images have eight 32-pixel tiles per row. */
  const TilesetColumns := 8

  /** Four-quadrant autotile images are six 16-pixel pieces wide and eight high
      per animation strip, so one strip is 96 pixels wide. */
  const PieceColumns := 6
  const PieceRows := 8

  /** The horizontal distance between two animation strips: a single-image
      autotile advances by one 32-pixel tile, a four-quadrant one by a whole
      96-pixel strip. */
  function StripWidth(single: bool): (w: int)
    ensures w == 32 * (if single then 1 else 3)
  {
    if single then 32 else 96
  }

  /** The animation frame after `count` ticks for an autotile that advances every
      `speed` ticks: the floor of the quotient (the count is never negative). */
  function Frame(count: nat, speed: int): (f: nat)
    requires speed > 0
    ensures speed * f <= count < speed * (f + 1)
  {
    count / speed
  }

  /** The tick redraws an entry when the count is a multiple of its speed; that is
      exactly the tick on which its frame number changes, and it changes by one. */
  lemma RedrawExactlyOnFrameChange(count: nat, speed: int)
    requires speed > 0 && count >= 1
    ensures count % speed == 0 <==> Frame(count, speed) != Frame(count - 1, speed)
    ensures count % speed == 0 ==> Frame(count, speed) == Frame(count - 1, speed) + 1
    ensures count % speed != 0 ==> Frame(count, speed) == Frame(count - 1, speed)
  {
    var q, r := count / speed, count % speed;
    assert count == speed * q + r;
    if r == 0 {
      assert count - 1 == speed * (q - 1) + (speed - 1);
      DivModUnique(count - 1, speed, q - 1, speed - 1);
    } else {
      assert count - 1 == speed * q + (r - 1);
      DivModUnique(count - 1, speed, q, r - 1);
    }
  }

  /** Horizontal offset of the animation strip for a frame: the frame's strip
      position taken modulo the image width, so it always lies inside the image. */
  function AnimOffset(frame: nat, single: bool, imageWidth: int): (x: int)
    requires imageWidth > 0
    ensures 0 <= x < imageWidth
  {
    (frame * StripWidth(single)) % imageWidth
  }

  /** An image holding n whole strips cycles through them: frame f shows strip
      f mod n, so the offset is always a strip boundary and the animation repeats
      every n frames. */
  lemma AnimationCycles(frame: nat, single: bool, n: int)
    requires n > 0
    ensures AnimOffset(frame, single, StripWidth(single) * n) == StripWidth(single) * (frame % n)
    ensures AnimOffset(frame + n, single, StripWidth(single) * n) == AnimOffset(frame, single, StripWidth(single) * n)
  {
    var s := StripWidth(single);
    StripCycle(frame, s, n);
    StripCycle(frame + n, s, n);
    assert (frame + n) % n == frame % n by {
      DivModUnique(frame + n, n, frame / n + 1, frame % n);
    }
  }

  lemma StripCycle(frame: nat, s: int, n: int)
    requires n > 0 && s > 0
    ensures (frame * s) % (s * n) == s * (frame % n)
  {
    var q, r := frame / n, frame % n;
    assert frame == n * q + r;
    assert frame * s == (s * n) * q + s * r by {
      assert frame * s == (n * q + r) * s;
    }
    assert s * r < s * n by {
      MulStep(r, n, s);
      assert r * s + s <= n * s;
    }
    assert 0 <= s * r;
    DivModUnique(frame * s, s * n, q, s * r);
  }

  /** The square of a tileset image that tile number `id` shows: column id mod 8
      (C#'s truncating remainder), row floor(id / 8). For a tile number that is not
      negative the square lies in the eight-column image on the 32-pixel grid, and
      the tile number can be read back from it. */
  function TilesetSource(id: int): (r: Rect)
    ensures r.w == 32 && r.h == 32
    ensures id >= 0 ==> 0 <= r.x < 32 * TilesetColumns && 0 <= r.y
    ensures id >= 0 ==> r.x % 32 == 0 && r.y % 32 == 0 && r.x / 32 + TilesetColumns * (r.y / 32) == id
  {
    Rect(32 * CsRem(id, TilesetColumns), 32 * (id / TilesetColumns), 32, 32)
  }

  /** Different tile numbers show different squares. */
  lemma TilesetSourceInjective(a: int, b: int)
    requires a >= 0 && b >= 0 && a != b
    ensures TilesetSource(a) != TilesetSource(b)
  {
  }

  /** Where quadrant i (0 top-left, 1 top-right, 2 bottom-left, 3 bottom-right) of
      the cell at tile (x, y) is drawn: a 16x16 square inside that cell's 32x32
      square. */
  function QuadrantTarget(x: int, y: int, i: int): (r: Rect)
    requires 0 <= i < 4
    ensures r.w == 16 && r.h == 16
    ensures 32 * x <= r.x && r.x + r.w <= 32 * x + 32
    ensures 32 * y <= r.y && r.y + r.h <= 32 * y + 32
  {
    Rect(32 * x + 16 * (i % 2), 32 * y + 16 * (i / 2), 16, 16)
  }

  /** The four quadrants cover the cell without overlap: every pixel of the cell
      lies in exactly one of them. */
  lemma QuadrantsPartitionCell(x: int, y: int, px: int, py: int)
    requires 32 * x <= px < 32 * x + 32 && 32 * y <= py < 32 * y + 32
    ensures var i := (px - 32 * x) / 16 + 2 * ((py - 32 * y) / 16);
      0 <= i < 4 && Inside(QuadrantTarget(x, y, i), px, py)
    ensures forall j :: 0 <= j < 4 && Inside(QuadrantTarget(x, y, j), px, py) ==>
      j == (px - 32 * x) / 16 + 2 * ((py - 32 * y) / 16)
  {
  }

  predicate Inside(r: Rect, px: int, py: int)
  {
    r.x <= px < r.x + r.w && r.y <= py < r.y + r.h
  }

  /** Where a quadrant is read from: piece number `piece` of the combination table
      is the 16x16 square at column piece mod 6, row floor(piece / 6), shifted right
      by the animation offset. Each of the 48 pieces lies inside one 96x128 strip
      and the piece number can be read back. */
  function QuadrantSource(piece: int, animX: int): (r: Rect)
    ensures r.w == 16 && r.h == 16
    ensures 0 <= piece < PieceColumns * PieceRows ==>
      && animX <= r.x && r.x + r.w <= animX + 16 * PieceColumns
      && 0 <= r.y && r.y + r.h <= 16 * PieceRows
      && (r.x - animX) / 16 + PieceColumns * (r.y / 16) == piece
  {
    Rect(16 * CsRem(piece, PieceColumns) + animX, 16 * (piece / PieceColumns), 16, 16)
  }
}
