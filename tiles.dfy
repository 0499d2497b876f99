/** Tile references shared by the painting engine, the autotile resolver and the
    catalog remap: a layer is a flat row-major sequence of optional tiles. */
module Tiles {

  datatype Option<+T> = None | Some(value: T)

  /** Which catalog a tile refers to. */
  datatype TileType = Tileset | Autotile

  /** A placed tile: the local catalog index and, for a tileset tile, the tile
      number in the 8-column tileset image, for an autotile the derived shape ID. */
  datatype TileData = TileData(kind: TileType, index: int, id: int)

  /** One grid cell; None is an empty cell. */
  type Cell = Option<TileData>

  /** A map layer: its name, its cells in row-major order and whether it is shown. */
  datatype Layer = Layer(name: string, tiles: seq<Cell>, visible: bool)

  /** The change-detection rule of the brush: two cells are the same tile when both
      are empty, or they agree on type and index and, unless they are autotiles, on
      the tile number. */
  predicate SameTile(oldTile: Cell, newTile: Cell)
  {
    if oldTile.None? != newTile.None? then false
    else if oldTile.Some? && oldTile.value.kind != newTile.value.kind then false
    else if oldTile.Some? && oldTile.value.index != newTile.value.index then false
    else if oldTile.Some? && oldTile.value.kind != Autotile && oldTile.value.id != newTile.value.id then false
    else true
  }

  /** What a cell denotes as authored content: an autotile's shape ID is derived,
      so it is dropped. */
  function Denote(c: Cell): (d: Cell)
    ensures d.None? <==> c.None?
    ensures c.Some? ==> d.value.kind == c.value.kind && d.value.index == c.value.index
    ensures c.Some? && c.value.kind == Tileset ==> d == c
  {
    match c
    case None => None
    case Some(t) => if t.kind == Autotile then Some(TileData(Autotile, t.index, 0)) else c
  }

  /** The brush's rule is exactly equality of what the two cells denote. */
  lemma SameTileIsDenoteEquality(a: Cell, b: Cell)
    ensures SameTile(a, b) <==> Denote(a) == Denote(b)
  {
  }

  /** Repainting a cell with itself is never a change. */
  lemma SameTileReflexive(a: Cell)
    ensures SameTile(a, a)
  {
  }

  /** The autotile group a cell belongs to, the only thing the shape resolver
      looks at: the local index of an autotile, nothing for any other cell. */
  function Group(c: Cell): (g: Option<int>)
    ensures g.Some? <==> c.Some? && c.value.kind == Autotile
    ensures g.Some? ==> g.value == c.value.index
  {
    if c.Some? && c.value.kind == Autotile then Some(c.value.index) else None
  }

  /** C#'s `%` on int: the remainder truncates toward zero, so it takes the sign of
      the dividend (Dafny's `%` is Euclidean and never negative). */
  function CsRem(a: int, b: int): (r: int)
    requires b > 0
    ensures -b < r < b
    ensures a >= 0 ==> r == a % b
    ensures a < 0 ==> r <= 0
  {
    if a >= 0 then a % b else -((-a) % b)
  }

  /** The truncating remainder is congruent to the dividend: it is either the
      Euclidean remainder or that remainder minus the divisor. */
  lemma CsRemCongruent(a: int, b: int)
    requires b > 0
    ensures CsRem(a, b) == a % b || CsRem(a, b) == a % b - b
  {
    if a < 0 {
      var q, m := (-a) / b, (-a) % b;
      assert -a == b * q + m;
      if m == 0 {
        DivModUnique(a, b, -q, 0);
      } else {
        assert a == b * (-q - 1) + (b - m);
        DivModUnique(a, b, -q - 1, b - m);
      }
    }
  }

  /** Euclidean division is determined by its defining equation. */
  lemma DivModUnique(a: int, b: int, q: int, r: int)
    requires b > 0 && 0 <= r < b && a == b * q + r
    ensures a / b == q && a % b == r
  {
    var q', r' := a / b, a % b;
    assert b * q + r == b * q' + r';
    assert b * (q - q') == r' - r;
    if q > q' {
      MulStep(q', q, b);
    } else if q < q' {
      MulStep(q, q', b);
    }
  }

  /** Flat position of tile (x, y) in a layer of the given width. */
  function Pos(x: int, y: int, width: int): int
  {
    x + y * width
  }

  predicate InGrid(x: int, y: int, width: int, height: int)
  {
    0 <= x < width && 0 <= y < height
  }

  /** A tile inside the map has a flat position inside its layer. */
  lemma PosInRange(x: int, y: int, width: int, height: int)
    requires InGrid(x, y, width, height)
    ensures 0 <= Pos(x, y, width) < width * height
  {
    assert y * width <= (height - 1) * width by {
      MulMonotone(y, height - 1, width);
    }
    assert (height - 1) * width == height * width - width;
  }

  /** Distinct tiles of the map have distinct flat positions. */
  lemma PosInjective(x1: int, y1: int, x2: int, y2: int, width: int)
    requires 0 <= x1 < width && 0 <= x2 < width
    requires Pos(x1, y1, width) == Pos(x2, y2, width)
    ensures x1 == x2 && y1 == y2
  {
    if y1 < y2 {
      MulStep(y1, y2, width);
    } else if y2 < y1 {
      MulStep(y2, y1, width);
    }
  }

  /** Recovering the tile coordinates from a flat position. */
  lemma PosDecompose(p: int, width: int, height: int)
    requires width > 0 && 0 <= p < width * height
    ensures InGrid(p % width, p / width, width, height)
    ensures Pos(p % width, p / width, width) == p
  {
    if p / width >= height {
      MulMonotone(height, p / width, width);
    }
  }

  lemma MulStep(a: int, b: int, c: int)
    requires a < b && c >= 0
    ensures a * c + c <= b * c
  {
    MulMonotone(a + 1, b, c);
  }

  lemma MulMonotone(a: int, b: int, c: int)
    requires a <= b && c >= 0
    ensures a * c <= b * c
  {
    assert b * c - a * c == (b - a) * c;
  }
}
