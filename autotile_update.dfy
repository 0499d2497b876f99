/** What one call of the autotile updater does to a layer and to the registry of
    animated autotiles, stated as functions of the layer and registry it starts
    from. The updater rewrites the shape ID of its own cell and, when asked to
    check neighbours, makes one plain call for each of the eight neighbours that
    holds an autotile, in the fixed order NW, N, NE, W, E, SW, S, SE. */
module AutotileUpdate {
  import opened Tiles
  import opened AutotileShapes
  import opened Registry

  // ---- The eight neighbours in the order the updater visits them ----

  const RingDx: seq<int> := [-1, 0, 1, -1, 1, -1, 0, 1]
  const RingDy: seq<int> := [-1, -1, -1, 0, 0, 1, 1, 1]

  /** (qx, qy) is one of the eight cells around (x, y). */
  predicate InRing(x: int, y: int, qx: int, qy: int)
  {
    -1 <= qx - x <= 1 && -1 <= qy - y <= 1 && (qx != x || qy != y)
  }

  /** The position of a neighbour in the visiting order; the offsets of that
      position lead back to the neighbour. */
  function RingIndex(x: int, y: int, qx: int, qy: int): (k: int)
    requires InRing(x, y, qx, qy)
    ensures 0 <= k < 8 && x + RingDx[k] == qx && y + RingDy[k] == qy
  {
    var raw := (qy - y + 1) * 3 + (qx - x + 1);
    if raw < 4 then raw else raw - 1
  }

  /** Each of the eight offsets leads to a neighbour whose position is that offset's. */
  lemma RingOffset(x: int, y: int, k: int)
    requires 0 <= k < 8
    ensures InRing(x, y, x + RingDx[k], y + RingDy[k])
    ensures RingIndex(x, y, x + RingDx[k], y + RingDy[k]) == k
  {
  }

  // ---- The effect of one call ----

  /** Overwrite the shape ID of a cell; an empty cell stays empty. */
  function SetId(c: Cell, id: int): (r: Cell)
    ensures Group(r) == Group(c)
    ensures c.Some? ==> r.Some? && r.value.kind == c.value.kind && r.value.index == c.value.index && r.value.id == id
    ensures c.Some? && c.value.kind == Autotile ==> Denote(r) == Denote(c)
  {
    if c.Some? then Some(c.value.(id := id)) else c
  }

  /** The call writes its own cell when it is not deleting and either checks
      neighbours or finds an autotile of the requested group there. */
  predicate WritesCentre(t: seq<Cell>, w: int, h: int, x: int, y: int, index: int, check: bool, delete: bool)
  {
    !delete && (check || SameGroupAt(t, w, h, x, y, index))
  }

  /** The cell (qx, qy) is rewritten by the call once its own cell and the first k
      neighbour calls are done: its own cell when it writes it, and a neighbour
      holding an autotile of any group when the call checks neighbours. */
  predicate Rewrites(t: seq<Cell>, w: int, h: int, x: int, y: int, index: int, check: bool, delete: bool,
                     k: int, qx: int, qy: int)
  {
    if qx == x && qy == y then WritesCentre(t, w, h, x, y, index, check, delete)
    else check && InRing(x, y, qx, qy) && RingIndex(x, y, qx, qy) < k && AutoAt(t, w, h, qx, qy)
  }

  /** The group a rewritten cell is resolved as: the requested group for the call's
      own cell, the cell's own group for a neighbour. */
  function CallGroup(t: seq<Cell>, w: int, h: int, x: int, y: int, index: int, qx: int, qy: int): int
  {
    var g := Group(CellAt(t, w, h, qx, qy));
    if (qx == x && qy == y) || g.None? then index else g.value
  }

  /** The cell (qx, qy) after the call's own cell and its first k neighbour calls. */
  function UpdatedUpTo(t: seq<Cell>, w: int, h: int, x: int, y: int, index: int, check: bool, delete: bool,
                       k: int, qx: int, qy: int): Cell
  {
    var c := CellAt(t, w, h, qx, qy);
    if Rewrites(t, w, h, x, y, index, check, delete, k, qx, qy)
    then SetId(c, ShapeAt(t, w, h, qx, qy, CallGroup(t, w, h, x, y, index, qx, qy)))
    else c
  }

  /** The registration made for a rewritten cell: an entry naming the global
      autotile of local group g, when that autotile animates. */
  function NewEntry(autotileIds: seq<int>, catalog: seq<AutotileInfo>, l: int, x: int, y: int, g: int, shape: int)
    : (r: seq<AnimEntry>)
    ensures |r| <= 1 && (r != [] ==> IsAt(r[0], l, x, y))
    ensures r == ExpectedFor(Some(TileData(Autotile, g, shape)), autotileIds, catalog, l, x, y)
  {
    if SpeedOf(autotileIds, catalog, g) > 0 then [AnimEntry(l, x, y, autotileIds[g], shape)] else []
  }

  /** The registry entries of cell (qx, qy) of layer l after the call's own cell
      and its first k neighbour calls: each rewritten cell loses its first entry
      and gains the new registration. */
  function EntriesUpTo(reg: seq<AnimEntry>, t: seq<Cell>, w: int, h: int, autotileIds: seq<int>,
                       catalog: seq<AutotileInfo>, layer: int, x: int, y: int, index: int, check: bool,
                       delete: bool, k: int, l: int, qx: int, qy: int): seq<AnimEntry>
  {
    var prev := EntriesAt(reg, l, qx, qy);
    if l == layer && Rewrites(t, w, h, x, y, index, check, delete, k, qx, qy) then
      var g := CallGroup(t, w, h, x, y, index, qx, qy);
      Drop1(prev) + NewEntry(autotileIds, catalog, l, qx, qy, g, ShapeAt(t, w, h, qx, qy, g))
    else prev
  }

  /** Layer u is layer t after the call's own cell and its first k neighbour calls. */
  ghost predicate TilesAfter(u: seq<Cell>, t: seq<Cell>, w: int, h: int, x: int, y: int, index: int, check: bool,
                             delete: bool, k: int)
  {
    forall qx, qy :: TileAfter(u, t, w, h, x, y, index, check, delete, k, qx, qy)
  }

  /** One cell of TilesAfter. Keeping the cell-wise fact behind its own predicate
      means the quantifier above is only instantiated where a proof asks for it. */
  predicate TileAfter(u: seq<Cell>, t: seq<Cell>, w: int, h: int, x: int, y: int, index: int, check: bool,
                      delete: bool, k: int, qx: int, qy: int)
  {
    CellAt(u, w, h, qx, qy) == UpdatedUpTo(t, w, h, x, y, index, check, delete, k, qx, qy)
  }

  /** Registry regU is registry reg after the call's own cell and its first k
      neighbour calls, on a layer that held t. */
  ghost predicate EntriesAfter(regU: seq<AnimEntry>, reg: seq<AnimEntry>, t: seq<Cell>, w: int, h: int,
                               autotileIds: seq<int>, catalog: seq<AutotileInfo>, layer: int, x: int, y: int,
                               index: int, check: bool, delete: bool, k: int)
  {
    forall l, qx, qy :: EntryAfter(regU, reg, t, w, h, autotileIds, catalog, layer, x, y, index, check, delete, k, l, qx, qy)
  }

  /** One cell of EntriesAfter. */
  predicate EntryAfter(regU: seq<AnimEntry>, reg: seq<AnimEntry>, t: seq<Cell>, w: int, h: int,
                       autotileIds: seq<int>, catalog: seq<AutotileInfo>, layer: int, x: int, y: int,
                       index: int, check: bool, delete: bool, k: int, l: int, qx: int, qy: int)
  {
    EntriesAt(regU, l, qx, qy) == EntriesUpTo(reg, t, w, h, autotileIds, catalog, layer, x, y, index, check, delete, k, l, qx, qy)
  }

  /** Two layers whose cells belong to the same groups everywhere. */
  ghost predicate SameGroups(t1: seq<Cell>, t2: seq<Cell>, w: int, h: int)
  {
    forall qx, qy :: SameGroupCell(t1, t2, w, h, qx, qy)
  }

  predicate SameGroupCell(t1: seq<Cell>, t2: seq<Cell>, w: int, h: int, qx: int, qy: int)
  {
    Group(CellAt(t1, w, h, qx, qy)) == Group(CellAt(t2, w, h, qx, qy))
  }

  /** The updater only ever rewrites shape IDs, so group membership, and with it
      every shape the resolver computes, is the same before and after. */
  lemma UpdatePreservesGroups(t: seq<Cell>, u: seq<Cell>, w: int, h: int, x: int, y: int, index: int,
                              check: bool, delete: bool, k: int)
    requires TilesAfter(u, t, w, h, x, y, index, check, delete, k)
    ensures SameGroups(u, t, w, h)
  {
    forall qx, qy
      ensures SameGroupCell(u, t, w, h, qx, qy)
    {
      assert TileAfter(u, t, w, h, x, y, index, check, delete, k, qx, qy);
    }
  }

  /** Layers with the same groups give every cell the same shape. */
  lemma SameGroupsSameShape(t1: seq<Cell>, t2: seq<Cell>, w: int, h: int, x: int, y: int, index: int)
    requires SameGroups(t1, t2, w, h)
    ensures ShapeAt(t1, w, h, x, y, index) == ShapeAt(t2, w, h, x, y, index)
  {
    assert NeighbourhoodAt(t1, w, h, x, y, index) == NeighbourhoodAt(t2, w, h, x, y, index) by {
      assert SameGroupCell(t1, t2, w, h, x - 1, y - 1);
      assert SameGroupCell(t1, t2, w, h, x, y - 1);
      assert SameGroupCell(t1, t2, w, h, x + 1, y - 1);
      assert SameGroupCell(t1, t2, w, h, x - 1, y);
      assert SameGroupCell(t1, t2, w, h, x + 1, y);
      assert SameGroupCell(t1, t2, w, h, x - 1, y + 1);
      assert SameGroupCell(t1, t2, w, h, x, y + 1);
      assert SameGroupCell(t1, t2, w, h, x + 1, y + 1);
    }
  }

  // ---- Writing one cell ----

  /** Layer u is layer t with cell (px, py) replaced by c. */
  ghost predicate WrittenAt(u: seq<Cell>, t: seq<Cell>, w: int, h: int, px: int, py: int, c: Cell)
  {
    && |u| == |t|
    && forall qx, qy :: WrittenCell(u, t, w, h, px, py, c, qx, qy)
  }

  predicate WrittenCell(u: seq<Cell>, t: seq<Cell>, w: int, h: int, px: int, py: int, c: Cell, qx: int, qy: int)
  {
    CellAt(u, w, h, qx, qy) == if qx == px && qy == py then c else CellAt(t, w, h, qx, qy)
  }

  /** Writing cell (px, py) changes what CellAt sees there and nowhere else. */
  lemma CellAtWrite(t: seq<Cell>, w: int, h: int, px: int, py: int, c: Cell)
    requires InGrid(px, py, w, h) && 0 <= Pos(px, py, w) < |t|
    ensures WrittenAt(t[Pos(px, py, w) := c], t, w, h, px, py, c)
  {
    var u := t[Pos(px, py, w) := c];
    forall qx, qy
      ensures WrittenCell(u, t, w, h, px, py, c, qx, qy)
    {
      if qx != px || qy != py {
        OtherCellUnchanged(t, w, h, qx, qy, px, py, c);
      }
    }
  }

  /** The call's own step: the layer after it writes (or skips) its own cell is the
      layer with no neighbour call done yet. */
  lemma CentreStepTiles(t: seq<Cell>, t1: seq<Cell>, w: int, h: int, x: int, y: int, index: int,
                        check: bool, delete: bool)
    requires WritesCentre(t, w, h, x, y, index, check, delete) ==>
      WrittenAt(t1, t, w, h, x, y, SetId(CellAt(t, w, h, x, y), ShapeAt(t, w, h, x, y, index)))
    requires !WritesCentre(t, w, h, x, y, index, check, delete) ==> t1 == t
    ensures TilesAfter(t1, t, w, h, x, y, index, check, delete, 0)
    ensures !check ==> TilesAfter(t1, t, w, h, x, y, index, check, delete, 8)
  {
    forall qx, qy
      ensures TileAfter(t1, t, w, h, x, y, index, check, delete, 0, qx, qy)
      ensures !check ==> TileAfter(t1, t, w, h, x, y, index, check, delete, 8, qx, qy)
    {
      if WritesCentre(t, w, h, x, y, index, check, delete) {
        assert WrittenCell(t1, t, w, h, x, y, SetId(CellAt(t, w, h, x, y), ShapeAt(t, w, h, x, y, index)), qx, qy);
      }
    }
  }

  /** The registry after the call's own step: the cell's first entry removed and
      the new registration appended. */
  lemma CentreStepEntries(reg: seq<AnimEntry>, reg1: seq<AnimEntry>, t: seq<Cell>, w: int, h: int,
                          autotileIds: seq<int>, catalog: seq<AutotileInfo>, layer: int, x: int, y: int,
                          index: int, check: bool, delete: bool)
    requires WritesCentre(t, w, h, x, y, index, check, delete) ==>
      reg1 == RemoveFirstAt(reg, layer, x, y) +
              NewEntry(autotileIds, catalog, layer, x, y, index, ShapeAt(t, w, h, x, y, index))
    requires !WritesCentre(t, w, h, x, y, index, check, delete) ==> reg1 == reg
    ensures EntriesAfter(reg1, reg, t, w, h, autotileIds, catalog, layer, x, y, index, check, delete, 0)
    ensures !check ==> EntriesAfter(reg1, reg, t, w, h, autotileIds, catalog, layer, x, y, index, check, delete, 8)
  {
    if WritesCentre(t, w, h, x, y, index, check, delete) {
      var added := NewEntry(autotileIds, catalog, layer, x, y, index, ShapeAt(t, w, h, x, y, index));
      forall l, qx, qy
        ensures EntryAfter(reg1, reg, t, w, h, autotileIds, catalog, layer, x, y, index, check, delete, 0, l, qx, qy)
        ensures !check ==> EntryAfter(reg1, reg, t, w, h, autotileIds, catalog, layer, x, y, index, check, delete, 8, l, qx, qy)
      {
        EntriesAtAppend(RemoveFirstAt(reg, layer, x, y), added, l, qx, qy);
        RemoveFirstAtEntries(reg, layer, x, y, l, qx, qy);
        SingleEntry(added, layer, x, y, l, qx, qy);
      }
    }
  }

  // ---- One neighbour call ----

  /** Neighbour call k rewrites neighbour k, if anything, and no other cell. */
  lemma RingStepCell(t: seq<Cell>, w: int, h: int, x: int, y: int, index: int, check: bool, delete: bool,
                     k: int, qx: int, qy: int)
    requires 0 <= k < 8
    ensures (qx != x + RingDx[k] || qy != y + RingDy[k]) ==>
      Rewrites(t, w, h, x, y, index, check, delete, k + 1, qx, qy) == Rewrites(t, w, h, x, y, index, check, delete, k, qx, qy)
    ensures qx == x + RingDx[k] && qy == y + RingDy[k] ==>
      && !Rewrites(t, w, h, x, y, index, check, delete, k, qx, qy)
      && (Rewrites(t, w, h, x, y, index, check, delete, k + 1, qx, qy) <==> check && AutoAt(t, w, h, qx, qy))
  {
    RingOffset(x, y, k);
  }

  /** After neighbour call k -- a plain call on the neighbour with its own group,
      made only when it holds an autotile -- the layer is the layer with k + 1
      neighbour calls done. */
  lemma NeighbourStepTiles(t: seq<Cell>, cur: seq<Cell>, next: seq<Cell>, w: int, h: int, x: int, y: int,
                           index: int, delete: bool, k: int, g: int)
    requires 0 <= k < 8
    requires TilesAfter(cur, t, w, h, x, y, index, true, delete, k)
    requires AutoAt(t, w, h, x + RingDx[k], y + RingDy[k]) ==>
      && Group(CellAt(t, w, h, x + RingDx[k], y + RingDy[k])) == Some(g)
      && TilesAfter(next, cur, w, h, x + RingDx[k], y + RingDy[k], g, false, false, 8)
    requires !AutoAt(t, w, h, x + RingDx[k], y + RingDy[k]) ==> next == cur
    ensures TilesAfter(next, t, w, h, x, y, index, true, delete, k + 1)
  {
    UpdatePreservesGroups(t, cur, w, h, x, y, index, true, delete, k);
    var k1 := k + 1;
    forall qx, qy
      ensures TileAfter(next, t, w, h, x, y, index, true, delete, k1, qx, qy)
    {
      assert TileAfter(cur, t, w, h, x, y, index, true, delete, k, qx, qy);
      if AutoAt(t, w, h, x + RingDx[k], y + RingDy[k]) {
        assert TileAfter(next, cur, w, h, x + RingDx[k], y + RingDy[k], g, false, false, 8, qx, qy);
      }
      NeighbourStepTilesAt(t, cur, next, w, h, x, y, index, delete, k, g, qx, qy);
    }
  }

  lemma NeighbourStepTilesAt(t: seq<Cell>, cur: seq<Cell>, next: seq<Cell>, w: int, h: int, x: int, y: int,
                             index: int, delete: bool, k: int, g: int, qx: int, qy: int)
    requires 0 <= k < 8
    requires SameGroups(cur, t, w, h)
    requires TileAfter(cur, t, w, h, x, y, index, true, delete, k, qx, qy)
    requires AutoAt(t, w, h, x + RingDx[k], y + RingDy[k]) ==>
      && Group(CellAt(t, w, h, x + RingDx[k], y + RingDy[k])) == Some(g)
      && TileAfter(next, cur, w, h, x + RingDx[k], y + RingDy[k], g, false, false, 8, qx, qy)
    requires !AutoAt(t, w, h, x + RingDx[k], y + RingDy[k]) ==> next == cur
    ensures TileAfter(next, t, w, h, x, y, index, true, delete, k + 1, qx, qy)
  {
    var nx, ny := x + RingDx[k], y + RingDy[k];
    RingStepCell(t, w, h, x, y, index, true, delete, k, qx, qy);
    if AutoAt(t, w, h, nx, ny) {
      assert SameGroupCell(cur, t, w, h, nx, ny);
      assert Group(CellAt(cur, w, h, nx, ny)) == Some(g);
      if qx == nx && qy == ny {
        assert CellAt(cur, w, h, qx, qy) == CellAt(t, w, h, qx, qy);
        assert CallGroup(t, w, h, x, y, index, qx, qy) == g;
        assert Rewrites(cur, w, h, nx, ny, g, false, false, 8, qx, qy);
        SameGroupsSameShape(cur, t, w, h, nx, ny, g);
      } else {
        assert !Rewrites(cur, w, h, nx, ny, g, false, false, 8, qx, qy);
      }
    }
  }

  /** The registry after neighbour call k, likewise. */
  lemma NeighbourStepEntries(reg: seq<AnimEntry>, t: seq<Cell>, cur: seq<Cell>, regCur: seq<AnimEntry>,
                             regNext: seq<AnimEntry>, w: int, h: int, autotileIds: seq<int>,
                             catalog: seq<AutotileInfo>, layer: int, x: int, y: int, index: int, delete: bool, k: int,
                             g: int)
    requires 0 <= k < 8
    requires TilesAfter(cur, t, w, h, x, y, index, true, delete, k)
    requires EntriesAfter(regCur, reg, t, w, h, autotileIds, catalog, layer, x, y, index, true, delete, k)
    requires AutoAt(t, w, h, x + RingDx[k], y + RingDy[k]) ==>
      && Group(CellAt(t, w, h, x + RingDx[k], y + RingDy[k])) == Some(g)
      && EntriesAfter(regNext, regCur, cur, w, h, autotileIds, catalog, layer, x + RingDx[k], y + RingDy[k], g,
                      false, false, 8)
    requires !AutoAt(t, w, h, x + RingDx[k], y + RingDy[k]) ==> regNext == regCur
    ensures EntriesAfter(regNext, reg, t, w, h, autotileIds, catalog, layer, x, y, index, true, delete, k + 1)
  {
    var nx, ny := x + RingDx[k], y + RingDy[k];
    RingOffset(x, y, k);
    UpdatePreservesGroups(t, cur, w, h, x, y, index, true, delete, k);
    var k1 := k + 1;
    forall l, qx, qy
      ensures EntryAfter(regNext, reg, t, w, h, autotileIds, catalog, layer, x, y, index, true, delete, k1, l, qx, qy)
    {
      NeighbourStepEntriesAt(reg, t, cur, regCur, regNext, w, h, autotileIds, catalog, layer, x, y, index, delete, k,
                             g, l, qx, qy);
    }
  }

  lemma NeighbourStepEntriesAt(reg: seq<AnimEntry>, t: seq<Cell>, cur: seq<Cell>, regCur: seq<AnimEntry>,
                               regNext: seq<AnimEntry>, w: int, h: int, autotileIds: seq<int>,
                               catalog: seq<AutotileInfo>, layer: int, x: int, y: int, index: int, delete: bool,
                               k: int, g: int, l: int, qx: int, qy: int)
    requires 0 <= k < 8
    requires SameGroups(cur, t, w, h)
    requires EntriesAfter(regCur, reg, t, w, h, autotileIds, catalog, layer, x, y, index, true, delete, k)
    requires AutoAt(t, w, h, x + RingDx[k], y + RingDy[k]) ==>
               && Group(CellAt(t, w, h, x + RingDx[k], y + RingDy[k])) == Some(g)
               && EntriesAfter(regNext, regCur, cur, w, h, autotileIds, catalog, layer, x + RingDx[k], y + RingDy[k], g,
                               false, false, 8)
    requires !AutoAt(t, w, h, x + RingDx[k], y + RingDy[k]) ==> regNext == regCur
    ensures EntryAfter(regNext, reg, t, w, h, autotileIds, catalog, layer, x, y, index, true, delete, k + 1, l, qx, qy)
  {
    var nx, ny := x + RingDx[k], y + RingDy[k];
    RingStepCell(t, w, h, x, y, index, true, delete, k, qx, qy);
    assert EntryAfter(regCur, reg, t, w, h, autotileIds, catalog, layer, x, y, index, true, delete, k, l, qx, qy);
    if AutoAt(t, w, h, nx, ny) {
      assert EntryAfter(regNext, regCur, cur, w, h, autotileIds, catalog, layer, nx, ny, g, false, false, 8, l, qx, qy);
      assert SameGroupCell(cur, t, w, h, nx, ny);
      assert Group(CellAt(cur, w, h, nx, ny)) == Some(g);
      if qx == nx && qy == ny {
        assert EntriesAt(regCur, l, qx, qy) == EntriesAt(reg, l, qx, qy);
        assert CallGroup(t, w, h, x, y, index, qx, qy) == g;
        assert Rewrites(cur, w, h, nx, ny, g, false, false, 8, qx, qy);
        SameGroupsSameShape(cur, t, w, h, nx, ny, g);
      } else {
        assert !Rewrites(cur, w, h, nx, ny, g, false, false, 8, qx, qy);
      }
    }
  }

  // ---- What a call achieves ----

  /** A cell holding an autotile shows the shape that its same-group neighbours
      select. */
  ghost predicate ResolvedAt(t: seq<Cell>, w: int, h: int, qx: int, qy: int)
  {
    var c := CellAt(t, w, h, qx, qy);
    Group(c).Some? ==> c.value.id == ShapeAt(t, w, h, qx, qy, Group(c).value)
  }

  /** Every autotile of the layer shows its resolved shape. */
  ghost predicate Resolved(t: seq<Cell>, w: int, h: int)
  {
    forall qx, qy :: ResolvedAt(t, w, h, qx, qy)
  }

  /** After a call that checks neighbours, each neighbour holding an autotile
      shows its resolved shape, and so does the call's own cell when the call
      writes it as the group it holds. */
  lemma UpdateResolves(t: seq<Cell>, u: seq<Cell>, w: int, h: int, x: int, y: int, index: int, delete: bool,
                       qx: int, qy: int)
    requires TilesAfter(u, t, w, h, x, y, index, true, delete, 8)
    requires InRing(x, y, qx, qy) || (qx == x && qy == y && !delete && SameGroupAt(t, w, h, x, y, index))
    ensures ResolvedAt(u, w, h, qx, qy)
  {
    UpdatePreservesGroups(t, u, w, h, x, y, index, true, delete, 8);
    assert TileAfter(u, t, w, h, x, y, index, true, delete, 8, qx, qy);
    var g := Group(CellAt(t, w, h, qx, qy));
    if g.Some? {
      SameGroupsSameShape(u, t, w, h, qx, qy, g.value);
    }
  }

  /** A cell that is neither the call's own cell nor one of its neighbours keeps
      its contents, and whether it is resolved. */
  lemma UpdateKeepsDistant(t: seq<Cell>, u: seq<Cell>, w: int, h: int, x: int, y: int, index: int, check: bool,
                           delete: bool, qx: int, qy: int)
    requires TilesAfter(u, t, w, h, x, y, index, check, delete, 8)
    requires !InRing(x, y, qx, qy) && (qx != x || qy != y)
    ensures CellAt(u, w, h, qx, qy) == CellAt(t, w, h, qx, qy)
    ensures ResolvedAt(u, w, h, qx, qy) == ResolvedAt(t, w, h, qx, qy)
  {
    UpdatePreservesGroups(t, u, w, h, x, y, index, check, delete, 8);
    assert TileAfter(u, t, w, h, x, y, index, check, delete, 8, qx, qy);
    var g := Group(CellAt(t, w, h, qx, qy));
    if g.Some? {
      SameGroupsSameShape(u, t, w, h, qx, qy, g.value);
    }
  }

  /** A call only rewrites shape IDs of autotiles: what every cell denotes is
      unchanged, provided the call's own cell holds an autotile whenever the call
      writes it. */
  lemma UpdateKeepsContent(t: seq<Cell>, u: seq<Cell>, w: int, h: int, x: int, y: int, index: int, check: bool,
                           delete: bool, qx: int, qy: int)
    requires TilesAfter(u, t, w, h, x, y, index, check, delete, 8)
    requires WritesCentre(t, w, h, x, y, index, check, delete) ==> AutoAt(t, w, h, x, y)
    ensures Denote(CellAt(u, w, h, qx, qy)) == Denote(CellAt(t, w, h, qx, qy))
  {
    assert TileAfter(u, t, w, h, x, y, index, check, delete, 8, qx, qy);
  }

  /** The registry after a call, cell by cell: a cell the call rewrites ends with
      exactly the entry it is meant to have, provided it had at most one before and
      the call's own cell is written as the group it holds; any other cell keeps its
      entries and its contents. Only neighbours on the map are ever rewritten. */
  lemma UpdateRegisters(reg: seq<AnimEntry>, regU: seq<AnimEntry>, t: seq<Cell>, u: seq<Cell>, w: int, h: int,
                        autotileIds: seq<int>, catalog: seq<AutotileInfo>, layer: int, x: int, y: int,
                        index: int, check: bool, delete: bool, l: int, qx: int, qy: int)
    requires TilesAfter(u, t, w, h, x, y, index, check, delete, 8)
    requires EntriesAfter(regU, reg, t, w, h, autotileIds, catalog, layer, x, y, index, check, delete, 8)
    requires l == layer && Rewrites(t, w, h, x, y, index, check, delete, 8, qx, qy) ==> |EntriesAt(reg, l, qx, qy)| <= 1
    requires WritesCentre(t, w, h, x, y, index, check, delete) ==> SameGroupAt(t, w, h, x, y, index)
    ensures Rewrites(t, w, h, x, y, index, check, delete, 8, qx, qy) && (qx != x || qy != y) ==> InGrid(qx, qy, w, h)
    ensures l == layer && Rewrites(t, w, h, x, y, index, check, delete, 8, qx, qy) ==>
              EntriesAt(regU, l, qx, qy) == ExpectedFor(CellAt(u, w, h, qx, qy), autotileIds, catalog, l, qx, qy)
    ensures !(l == layer && Rewrites(t, w, h, x, y, index, check, delete, 8, qx, qy)) ==>
              EntriesAt(regU, l, qx, qy) == EntriesAt(reg, l, qx, qy) &&
              (l == layer ==> CellAt(u, w, h, qx, qy) == CellAt(t, w, h, qx, qy))
  {
    assert TileAfter(u, t, w, h, x, y, index, check, delete, 8, qx, qy);
    assert EntryAfter(regU, reg, t, w, h, autotileIds, catalog, layer, x, y, index, check, delete, 8, l, qx, qy);
  }
}
