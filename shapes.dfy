/** The autotile shape resolver: which of the 47 sub-images of a four-quadrant
    autotile a cell shows, decided from which of its eight neighbours belong to the
    same autotile group. */
module AutotileShapes {
  import opened Tiles

  /** The eight neighbour predicates, named by compass direction (north is y - 1). */
  datatype Neighbourhood = Neighbourhood(NW: bool, N: bool, NE: bool, W: bool, E: bool, SW: bool, S: bool, SE: bool)

  /** The shape table: an ordered chain of tests, the first that holds gives the ID.
      The chain starts from -1 like the source; the contract shows -1 never remains. */
  function ShapeId(nb: Neighbourhood): (id: int)
    ensures 0 <= id <= 46
    ensures id == 46 <==> !nb.N && !nb.S && !nb.E && !nb.W
    ensures nb.NW && nb.N && nb.NE && nb.W && nb.E && nb.SW && nb.S && nb.SE ==> id == 0
  {
    var NW, N, NE, W, E, SW, S, SE := nb.NW, nb.N, nb.NE, nb.W, nb.E, nb.SW, nb.S, nb.SE;
    if NW && NE && SE && SW && W && N && E && S then 0
    else if !NW && NE && SE && SW && W && N && E && S then 1
    else if NW && !NE && SE && SW && W && N && E && S then 2
    else if !NW && !NE && SE && SW && W && N && E && S then 3
    else if NW && NE && !SE && SW && W && N && E && S then 4
    else if !NW && NE && !SE && SW && W && N && E && S then 5
    else if NW && !NE && !SE && SW && W && N && E && S then 6
    else if !NW && !NE && !SE && SW && W && N && E && S then 7
    else if NW && NE && SE && !SW && W && N && E && S then 8
    else if !NW && NE && SE && !SW && W && N && E && S then 9
    else if NW && !NE && SE && !SW && W && N && E && S then 10
    else if !NW && !NE && SE && !SW && W && N && E && S then 11
    else if NW && NE && !SE && !SW && W && N && E && S then 12
    else if !NW && NE && !SE && !SW && W && N && E && S then 13
    else if NW && !NE && !SE && !SW && W && N && E && S then 14
    else if !NW && !NE && !SE && !SW && W && N && E && S then 15
    else if NE && SE && !W && N && E && S then 16
    else if !NE && SE && !W && N && E && S then 17
    else if NE && !SE && !W && N && E && S then 18
    else if !NE && !SE && !W && N && E && S then 19
    else if SE && SW && W && !N && E && S then 20
    else if !SE && SW && W && !N && E && S then 21
    else if SE && !SW && W && !N && E && S then 22
    else if !SE && !SW && W && !N && E && S then 23
    else if NW && SW && W && N && !E && S then 24
    else if NW && !SW && W && N && !E && S then 25
    else if !NW && SW && W && N && !E && S then 26
    else if !NW && !SW && W && N && !E && S then 27
    else if NW && NE && W && N && E && !S then 28
    else if !NW && NE && W && N && E && !S then 29
    else if NW && !NE && W && N && E && !S then 30
    else if !NW && !NE && W && N && E && !S then 31
    else if !W && N && !E && S then 32
    else if W && !N && E && !S then 33
    else if SE && !W && !N && E && S then 34
    else if !SE && !W && !N && E && S then 35
    else if SW && W && !N && !E && S then 36
    else if !SW && W && !N && !E && S then 37
    else if NW && W && N && !E && !S then 38
    else if !NW && W && N && !E && !S then 39
    else if NE && !W && N && E && !S then 40
    else if !NE && !W && N && E && !S then 41
    else if !W && !N && !E && S then 42
    else if !W && !N && E && !S then 43
    else if !W && N && !E && !S then 44
    else if W && !N && !E && !S then 45
    else if !W && !N && !E && !S then 46
    else -1
  }

  /** A corner only counts when both edges beside it are connected: the normal form
      clears every other corner. */
  function Normalize(nb: Neighbourhood): (r: Neighbourhood)
    ensures r.N == nb.N && r.S == nb.S && r.E == nb.E && r.W == nb.W
    ensures r.NW ==> r.N && r.W
    ensures r.NE ==> r.N && r.E
    ensures r.SW ==> r.S && r.W
    ensures r.SE ==> r.S && r.E
  {
    Neighbourhood(nb.NW && nb.N && nb.W, nb.N, nb.NE && nb.N && nb.E, nb.W, nb.E,
                  nb.SW && nb.S && nb.W, nb.S, nb.SE && nb.S && nb.E)
  }

  /** Bit k (0..3) of a small number; a clear bit means "connected" in the
      table's encoding. */
  function Clear(n: int, k: int): bool
  {
    if k == 0 then n % 2 == 0
    else if k == 1 then (n / 2) % 2 == 0
    else if k == 2 then (n / 4) % 2 == 0
    else (n / 8) % 2 == 0
  }

  /** An independent description of the table, read by shape rather than by test:
      the neighbourhood in normal form that each shape ID stands for. IDs 0-15 are
      the fully surrounded tile with a cut-corner bit per corner (NW, NE, SE, SW),
      16-31 lack one edge (W, N, E, S in turn) with a bit per remaining corner,
      32-33 are the two straight bars, 34-41 the four outer corners with and
      without their inner corner, 42-45 the four end caps, and 46 the lone tile. */
  function Decode(id: int): (nb: Neighbourhood)
    requires 0 <= id <= 46
  {
    if id < 16 then
      Neighbourhood(Clear(id, 0), true, Clear(id, 1), true, true, Clear(id, 3), true, Clear(id, 2))
    else if id < 20 then
      Neighbourhood(false, true, Clear(id - 16, 0), false, true, false, true, Clear(id - 16, 1))
    else if id < 24 then
      Neighbourhood(false, false, false, true, true, Clear(id - 20, 1), true, Clear(id - 20, 0))
    else if id < 28 then
      Neighbourhood(Clear(id - 24, 1), true, false, true, false, Clear(id - 24, 0), true, false)
    else if id < 32 then
      Neighbourhood(Clear(id - 28, 0), true, Clear(id - 28, 1), true, true, false, false, false)
    else if id == 32 then Neighbourhood(false, true, false, false, false, false, true, false)
    else if id == 33 then Neighbourhood(false, false, false, true, true, false, false, false)
    else if id < 36 then Neighbourhood(false, false, false, false, true, false, true, id == 34)
    else if id < 38 then Neighbourhood(false, false, false, true, false, id == 36, true, false)
    else if id < 40 then Neighbourhood(id == 38, true, false, true, false, false, false, false)
    else if id < 42 then Neighbourhood(false, true, id == 40, false, true, false, false, false)
    else if id == 42 then Neighbourhood(false, false, false, false, false, false, true, false)
    else if id == 43 then Neighbourhood(false, false, false, false, true, false, false, false)
    else if id == 44 then Neighbourhood(false, true, false, false, false, false, false, false)
    else if id == 45 then Neighbourhood(false, false, false, true, false, false, false, false)
    else Neighbourhood(false, false, false, false, false, false, false, false)
  }

  /** Every shape ID is produced by the table from exactly the neighbourhood the
      independent description gives, and that neighbourhood is in normal form. */
  lemma {:induction false} DecodeThenShape(id: int)
    requires 0 <= id <= 46
    ensures ShapeId(Decode(id)) == id
    ensures Normalize(Decode(id)) == Decode(id)
  {
    match id
    case 0 =>
    case 1 =>
    case 2 =>
    case 3 =>
    case 4 =>
    case 5 =>
    case 6 =>
    case 7 =>
    case 8 =>
    case 9 =>
    case 10 =>
    case 11 =>
    case 12 =>
    case 13 =>
    case 14 =>
    case 15 =>
    case 16 =>
    case 17 =>
    case 18 =>
    case 19 =>
    case 20 =>
    case 21 =>
    case 22 =>
    case 23 =>
    case 24 =>
    case 25 =>
    case 26 =>
    case 27 =>
    case 28 =>
    case 29 =>
    case 30 =>
    case 31 =>
    case 32 =>
    case 33 =>
    case 34 =>
    case 35 =>
    case 36 =>
    case 37 =>
    case 38 =>
    case 39 =>
    case 40 =>
    case 41 =>
    case 42 =>
    case 43 =>
    case 44 =>
    case 45 =>
    case 46 =>
  }

  /** The table applied to any neighbourhood yields the ID whose description is
      that neighbourhood's normal form. */
  lemma ShapeThenDecode(nb: Neighbourhood)
    ensures Decode(ShapeId(nb)) == Normalize(nb)
  {
    // One case per pair of north and south edges keeps each search small.
    if nb.N {
      if nb.S { } else { }
    } else {
      if nb.S { } else { }
    }
  }

  /** Two neighbourhoods get the same shape exactly when they agree on the edges and
      on the corners that count: the table is a bijection between the 47 normal
      forms and the IDs 0..46. */
  lemma SameShapeIffSameNormalForm(a: Neighbourhood, b: Neighbourhood)
    ensures ShapeId(a) == ShapeId(b) <==> Normalize(a) == Normalize(b)
  {
    ShapeThenDecode(a);
    ShapeThenDecode(b);
    DecodeThenShape(ShapeId(a));
    DecodeThenShape(ShapeId(b));
  }

  /** A corner predicate affects the shape only when both of its adjacent edges are
      connected. */
  lemma CornerIrrelevance(nb: Neighbourhood, b: bool)
    ensures !(nb.N && nb.W) ==> ShapeId(nb.(NW := b)) == ShapeId(nb)
    ensures !(nb.N && nb.E) ==> ShapeId(nb.(NE := b)) == ShapeId(nb)
    ensures !(nb.S && nb.W) ==> ShapeId(nb.(SW := b)) == ShapeId(nb)
    ensures !(nb.S && nb.E) ==> ShapeId(nb.(SE := b)) == ShapeId(nb)
  {
    SameShapeIffSameNormalForm(nb.(NW := b), nb);
    SameShapeIffSameNormalForm(nb.(NE := b), nb);
    SameShapeIffSameNormalForm(nb.(SW := b), nb);
    SameShapeIffSameNormalForm(nb.(SE := b), nb);
  }

  // ---- The neighbour predicates over a layer ----

  /** The cell at (x, y) of a layer, empty when (x, y) is off the map. */
  function CellAt(tiles: seq<Cell>, width: int, height: int, x: int, y: int): Cell
  {
    if InGrid(x, y, width, height) && 0 <= Pos(x, y, width) < |tiles| then tiles[Pos(x, y, width)] else None
  }

  /** The "...auto" flags of the source: the cell is on the map and holds an autotile
      of any group. */
  predicate AutoAt(tiles: seq<Cell>, width: int, height: int, x: int, y: int)
  {
    Group(CellAt(tiles, width, height, x, y)).Some?
  }

  /** A neighbour predicate: the cell is on the map and holds an autotile of the
      given group. */
  predicate SameGroupAt(tiles: seq<Cell>, width: int, height: int, x: int, y: int, index: int)
  {
    Group(CellAt(tiles, width, height, x, y)) == Some(index)
  }

  /** On a layer of the map's size the predicate is exactly: in bounds, non-empty,
      an autotile, and of the same index; off-map neighbours are never connected. */
  lemma SameGroupAtMeaning(tiles: seq<Cell>, width: int, height: int, x: int, y: int, index: int)
    requires |tiles| == width * height
    ensures InGrid(x, y, width, height) ==> 0 <= Pos(x, y, width) < |tiles|
    ensures SameGroupAt(tiles, width, height, x, y, index) <==>
      InGrid(x, y, width, height) && tiles[Pos(x, y, width)].Some? &&
      tiles[Pos(x, y, width)].value.kind == Autotile && tiles[Pos(x, y, width)].value.index == index
  {
    if InGrid(x, y, width, height) {
      PosInRange(x, y, width, height);
      assert CellAt(tiles, width, height, x, y) == tiles[Pos(x, y, width)];
    }
  }

  function NeighbourhoodAt(tiles: seq<Cell>, width: int, height: int, x: int, y: int, index: int): Neighbourhood
  {
    Neighbourhood(
      SameGroupAt(tiles, width, height, x - 1, y - 1, index),
      SameGroupAt(tiles, width, height, x, y - 1, index),
      SameGroupAt(tiles, width, height, x + 1, y - 1, index),
      SameGroupAt(tiles, width, height, x - 1, y, index),
      SameGroupAt(tiles, width, height, x + 1, y, index),
      SameGroupAt(tiles, width, height, x - 1, y + 1, index),
      SameGroupAt(tiles, width, height, x, y + 1, index),
      SameGroupAt(tiles, width, height, x + 1, y + 1, index))
  }

  /** The shape ID the resolver computes for cell (x, y) as a member of group index. */
  function ShapeAt(tiles: seq<Cell>, width: int, height: int, x: int, y: int, index: int): (id: int)
    ensures 0 <= id <= 46
  {
    ShapeId(NeighbourhoodAt(tiles, width, height, x, y, index))
  }

  /** Two layers whose cells belong to the same groups give every cell the same
      shape: tileset tiles, tile numbers and shape IDs are never looked at. */
  lemma ShapeDependsOnlyOnGroups(t1: seq<Cell>, t2: seq<Cell>, width: int, height: int, x: int, y: int, index: int)
    requires |t1| == |t2|
    requires forall p :: 0 <= p < |t1| ==> Group(t1[p]) == Group(t2[p])
    ensures NeighbourhoodAt(t1, width, height, x, y, index) == NeighbourhoodAt(t2, width, height, x, y, index)
    ensures ShapeAt(t1, width, height, x, y, index) == ShapeAt(t2, width, height, x, y, index)
  {
  }

  /** Rewriting a cell that is not one of the eight neighbours of (x, y) -- the cell
      itself or any cell further away -- never changes the shape of (x, y). */
  lemma DistantCellIrrelevant(tiles: seq<Cell>, width: int, height: int, x: int, y: int, index: int,
                              px: int, py: int, c: Cell)
    requires InGrid(px, py, width, height) && 0 <= Pos(px, py, width) < |tiles|
    requires OutsideRing(x, y, px, py)
    ensures NeighbourhoodAt(tiles[Pos(px, py, width) := c], width, height, x, y, index) == NeighbourhoodAt(tiles, width, height, x, y, index)
  {
    OtherCellsUnchanged(tiles, width, height, px, py, c);
  }

  /** (px, py) is the cell (x, y) itself or lies outside its ring of eight neighbours. */
  predicate OutsideRing(x: int, y: int, px: int, py: int)
  {
    (px == x && py == y) || px < x - 1 || px > x + 1 || py < y - 1 || py > y + 1
  }

  lemma OtherCellsUnchanged(tiles: seq<Cell>, width: int, height: int, px: int, py: int, c: Cell)
    requires InGrid(px, py, width, height) && 0 <= Pos(px, py, width) < |tiles|
    ensures forall x, y :: x != px || y != py ==>
      CellAt(tiles[Pos(px, py, width) := c], width, height, x, y) == CellAt(tiles, width, height, x, y)
  {
    forall x, y | x != px || y != py
      ensures CellAt(tiles[Pos(px, py, width) := c], width, height, x, y) == CellAt(tiles, width, height, x, y)
    {
      OtherCellUnchanged(tiles, width, height, x, y, px, py, c);
    }
  }

  lemma OtherCellUnchanged(tiles: seq<Cell>, width: int, height: int, x: int, y: int, px: int, py: int, c: Cell)
    requires InGrid(px, py, width, height) && 0 <= Pos(px, py, width) < |tiles|
    requires x != px || y != py
    ensures CellAt(tiles[Pos(px, py, width) := c], width, height, x, y) == CellAt(tiles, width, height, x, y)
  {
    if InGrid(x, y, width, height) && Pos(x, y, width) == Pos(px, py, width) {
      PosInjective(x, y, px, py, width);
    }
  }

  /** A cell with no same-group neighbour on any side is drawn
      as the lone tile, and only such a cell is. */
  lemma IsolatedTile(tiles: seq<Cell>, width: int, height: int, x: int, y: int, index: int)
    ensures ShapeAt(tiles, width, height, x, y, index) == 46 <==>
      !SameGroupAt(tiles, width, height, x, y - 1, index) && !SameGroupAt(tiles, width, height, x, y + 1, index) &&
      !SameGroupAt(tiles, width, height, x - 1, y, index) && !SameGroupAt(tiles, width, height, x + 1, y, index)
  {
  }

  /** In a 3x3 island of one autotile group the centre is fully
      connected and each rim cell gets the shape of exactly its missing neighbours. */
  lemma FullIsland(g: int, i: int)
    ensures var t := seq(9, _ => Some(TileData(Autotile, g, i)));
      && ShapeAt(t, 3, 3, 1, 1, g) == 0
      && ShapeAt(t, 3, 3, 1, 0, g) == 20 && ShapeAt(t, 3, 3, 0, 1, g) == 16
      && ShapeAt(t, 3, 3, 2, 1, g) == 24 && ShapeAt(t, 3, 3, 1, 2, g) == 28
      && ShapeAt(t, 3, 3, 0, 0, g) == 34 && ShapeAt(t, 3, 3, 2, 0, g) == 36
      && ShapeAt(t, 3, 3, 0, 2, g) == 40 && ShapeAt(t, 3, 3, 2, 2, g) == 38
  {
    var t := seq(9, _ => Some(TileData(Autotile, g, i)));
    IslandCentre(t, g, i);
    IslandEdges(t, g, i);
    IslandCorners(t, g, i);
  }

  /** The centre of the island is fully connected. */
  lemma IslandCentre(t: seq<Cell>, g: int, i: int)
    requires t == seq(9, _ => Some(TileData(Autotile, g, i)))
    ensures ShapeAt(t, 3, 3, 1, 1, g) == 0
  {
  }

  /** Each edge cell of the island misses the one neighbour outside it. */
  lemma IslandEdges(t: seq<Cell>, g: int, i: int)
    requires t == seq(9, _ => Some(TileData(Autotile, g, i)))
    ensures ShapeAt(t, 3, 3, 1, 0, g) == 20 && ShapeAt(t, 3, 3, 0, 1, g) == 16
    ensures ShapeAt(t, 3, 3, 2, 1, g) == 24 && ShapeAt(t, 3, 3, 1, 2, g) == 28
  {
  }

  /** Each corner cell of the island misses the two neighbours outside it. */
  lemma IslandCorners(t: seq<Cell>, g: int, i: int)
    requires t == seq(9, _ => Some(TileData(Autotile, g, i)))
    ensures ShapeAt(t, 3, 3, 0, 0, g) == 34 && ShapeAt(t, 3, 3, 2, 0, g) == 36
    ensures ShapeAt(t, 3, 3, 0, 2, g) == 40 && ShapeAt(t, 3, 3, 2, 2, g) == 38
  {
  }

}
