/** What painting one cell (DrawTile) does to its layer and to the registry of
    animated autotiles: the registry stays exact, authored content is kept, and
    unless a preset shape is placed every autotile keeps showing its resolved
    shape. The lemmas here follow DrawTile's steps one by one. */
module Painting {
  import opened Tiles
  import opened AutotileShapes
  import opened Registry
  import opened AutotileUpdate

  /** Every cell of layer l on the map is registered as it should be, except that
      cell (px, py) has no entry at all when `hole` holds. */
  ghost predicate LayerRegistered(reg: seq<AnimEntry>, t: seq<Cell>, w: int, h: int, autotileIds: seq<int>,
                                  catalog: seq<AutotileInfo>, l: int, px: int, py: int, hole: bool)
  {
    forall qx, qy :: RegisteredCell(reg, t, w, h, autotileIds, catalog, l, px, py, hole, qx, qy)
  }

  /** One cell of LayerRegistered. */
  predicate RegisteredCell(reg: seq<AnimEntry>, t: seq<Cell>, w: int, h: int, autotileIds: seq<int>,
                           catalog: seq<AutotileInfo>, l: int, px: int, py: int, hole: bool, qx: int, qy: int)
  {
    InGrid(qx, qy, w, h) ==>
      EntriesAt(reg, l, qx, qy) ==
        if hole && qx == px && qy == py then [] else ExpectedFor(CellAt(t, w, h, qx, qy), autotileIds, catalog, l, qx, qy)
  }

  /** The registry holds the same entries as reg0 for every layer but l. */
  ghost predicate OtherLayersKept(reg: seq<AnimEntry>, reg0: seq<AnimEntry>, l: int)
  {
    forall l', qx, qy :: KeptCell(reg, reg0, l, l', qx, qy)
  }

  predicate KeptCell(reg: seq<AnimEntry>, reg0: seq<AnimEntry>, l: int, l': int, qx: int, qy: int)
  {
    l' != l ==> EntriesAt(reg, l', qx, qy) == EntriesAt(reg0, l', qx, qy)
  }

  /** Every cell denotes the same authored content in both layers. */
  ghost predicate SameContent(u: seq<Cell>, t: seq<Cell>, w: int, h: int)
  {
    forall qx, qy :: SameContentCell(u, t, w, h, qx, qy)
  }

  predicate SameContentCell(u: seq<Cell>, t: seq<Cell>, w: int, h: int, qx: int, qy: int)
  {
    Denote(CellAt(u, w, h, qx, qy)) == Denote(CellAt(t, w, h, qx, qy))
  }

  /** The placement DrawTile only draws: an autotile with a preset shape ID, placed
      without forcing its neighbours to be updated. */
  predicate PresetShape(tile: Cell, force: bool)
  {
    tile.Some? && tile.value.kind == Autotile && tile.value.id != -1 && !force
  }

  /** The invariant, read for one layer. */
  lemma RegistryOkLayer(reg: seq<AnimEntry>, layers: seq<Layer>, w: int, h: int, autotileIds: seq<int>,
                        catalog: seq<AutotileInfo>, l: int, px: int, py: int)
    requires RegistryOk(reg, layers, w, h, autotileIds, catalog) && 0 <= l < |layers|
    ensures LayerRegistered(reg, layers[l].tiles, w, h, autotileIds, catalog, l, px, py, false)
  {
    forall qx, qy
      ensures RegisteredCell(reg, layers[l].tiles, w, h, autotileIds, catalog, l, px, py, false, qx, qy)
    {
      assert CellRegistered(reg, layers, w, h, autotileIds, catalog, l, qx, qy);
    }
  }

  /** The invariant put back together from the painted layer and the untouched
      ones. */
  lemma RegistryOkFromLayer(reg0: seq<AnimEntry>, reg: seq<AnimEntry>, before: seq<Layer>, layers: seq<Layer>,
                            w: int, h: int, autotileIds: seq<int>, catalog: seq<AutotileInfo>, l: int, px: int, py: int)
    requires RegistryOk(reg0, before, w, h, autotileIds, catalog)
    requires |layers| == |before| && 0 <= l < |layers|
    requires forall l' :: 0 <= l' < |layers| && l' != l ==> layers[l'].tiles == before[l'].tiles
    requires forall e :: e in reg ==> EntryInMap(e, |layers|, w, h)
    requires LayerRegistered(reg, layers[l].tiles, w, h, autotileIds, catalog, l, px, py, false)
    requires OtherLayersKept(reg, reg0, l)
    ensures RegistryOk(reg, layers, w, h, autotileIds, catalog)
  {
    forall l', qx, qy
      ensures CellRegistered(reg, layers, w, h, autotileIds, catalog, l', qx, qy)
    {
      if l' != l {
        assert KeptCell(reg, reg0, l, l', qx, qy);
        assert CellRegistered(reg0, before, w, h, autotileIds, catalog, l', qx, qy);
      } else {
        assert RegisteredCell(reg, layers[l].tiles, w, h, autotileIds, catalog, l, px, py, false, qx, qy);
      }
    }
  }

  /** Step 1 of DrawTile: the cell already holds its new tile, and the first entry
      naming it is removed. Since the cell had at most one entry, it now has none. */
  lemma RemoveStep(reg: seq<AnimEntry>, t0: seq<Cell>, t: seq<Cell>, w: int, h: int, autotileIds: seq<int>,
                   catalog: seq<AutotileInfo>, layer: int, x: int, y: int, tile: Cell)
    requires WrittenAt(t, t0, w, h, x, y, tile)
    requires LayerRegistered(reg, t0, w, h, autotileIds, catalog, layer, x, y, false)
    ensures LayerRegistered(RemoveFirstAt(reg, layer, x, y), t, w, h, autotileIds, catalog, layer, x, y, true)
    ensures OtherLayersKept(RemoveFirstAt(reg, layer, x, y), reg, layer)
  {
    var r := RemoveFirstAt(reg, layer, x, y);
    forall l, qx, qy
      ensures KeptCell(r, reg, layer, l, qx, qy)
    {
      RemoveFirstAtEntries(reg, layer, x, y, l, qx, qy);
    }
    forall qx, qy
      ensures RegisteredCell(r, t, w, h, autotileIds, catalog, layer, x, y, true, qx, qy)
    {
      RemoveFirstAtEntries(reg, layer, x, y, layer, qx, qy);
      assert WrittenCell(t, t0, w, h, x, y, tile, qx, qy);
      assert RegisteredCell(reg, t0, w, h, autotileIds, catalog, layer, x, y, false, qx, qy);
    }
  }

  /** Steps 2 and 3 of DrawTile: a call of the updater that checks neighbours keeps
      the layer registered. A deleting call leaves the cell's hole as it is; a
      writing call, made for the group the cell holds, fills it. */
  lemma UpdateStep(reg: seq<AnimEntry>, regU: seq<AnimEntry>, t: seq<Cell>, u: seq<Cell>, w: int, h: int,
                   autotileIds: seq<int>, catalog: seq<AutotileInfo>, layer: int, x: int, y: int, index: int,
                   delete: bool, hole: bool)
    requires InGrid(x, y, w, h)
    requires TilesAfter(u, t, w, h, x, y, index, true, delete, 8)
    requires EntriesAfter(regU, reg, t, w, h, autotileIds, catalog, layer, x, y, index, true, delete, 8)
    requires LayerRegistered(reg, t, w, h, autotileIds, catalog, layer, x, y, hole)
    requires !delete ==> SameGroupAt(t, w, h, x, y, index)
    ensures LayerRegistered(regU, u, w, h, autotileIds, catalog, layer, x, y, hole && delete)
    ensures OtherLayersKept(regU, reg, layer)
  {
    forall l, qx, qy
      ensures KeptCell(regU, reg, layer, l, qx, qy)
    {
      if l != layer {
        UpdateRegisters(reg, regU, t, u, w, h, autotileIds, catalog, layer, x, y, index, true, delete, l, qx, qy);
      }
    }
    var hole' := hole && delete;
    forall qx, qy
      ensures RegisteredCell(regU, u, w, h, autotileIds, catalog, layer, x, y, hole', qx, qy)
    {
      if InGrid(qx, qy, w, h) {
        assert RegisteredCell(reg, t, w, h, autotileIds, catalog, layer, x, y, hole, qx, qy);
        UpdateRegisters(reg, regU, t, u, w, h, autotileIds, catalog, layer, x, y, index, true, delete, layer, qx, qy);
      }
    }
  }

  /** Step 3 when no updater call is made: the registration of the new tile itself
      (an animated preset autotile, or nothing) fills the cell's hole. */
  lemma RegisterStep(reg: seq<AnimEntry>, t: seq<Cell>, w: int, h: int, autotileIds: seq<int>,
                     catalog: seq<AutotileInfo>, layer: int, x: int, y: int, added: seq<AnimEntry>)
    requires InGrid(x, y, w, h)
    requires LayerRegistered(reg, t, w, h, autotileIds, catalog, layer, x, y, true)
    requires added == ExpectedFor(CellAt(t, w, h, x, y), autotileIds, catalog, layer, x, y)
    ensures LayerRegistered(reg + added, t, w, h, autotileIds, catalog, layer, x, y, false)
    ensures OtherLayersKept(reg + added, reg, layer)
  {
    var r := reg + added;
    forall l, qx, qy
      ensures KeptCell(r, reg, layer, l, qx, qy)
    {
      EntriesAtAppend(reg, added, l, qx, qy);
      SingleEntry(added, layer, x, y, l, qx, qy);
    }
    forall qx, qy
      ensures RegisteredCell(r, t, w, h, autotileIds, catalog, layer, x, y, false, qx, qy)
    {
      EntriesAtAppend(reg, added, layer, qx, qy);
      SingleEntry(added, layer, x, y, layer, qx, qy);
      assert RegisteredCell(reg, t, w, h, autotileIds, catalog, layer, x, y, true, qx, qy);
    }
  }

  lemma OtherLayersKeptTrans(r1: seq<AnimEntry>, r2: seq<AnimEntry>, r3: seq<AnimEntry>, l: int)
    requires OtherLayersKept(r3, r2, l) && OtherLayersKept(r2, r1, l)
    ensures OtherLayersKept(r3, r1, l)
  {
    forall l', qx, qy
      ensures KeptCell(r3, r1, l, l', qx, qy)
    {
      assert KeptCell(r3, r2, l, l', qx, qy) && KeptCell(r2, r1, l, l', qx, qy);
    }
  }

  // ---- Shapes ----

  /** Writing cell p leaves every cell that is neither p nor next to p exactly as
      resolved as it was: neither it nor any of its neighbours changed. */
  lemma WriteKeepsDistant(t0: seq<Cell>, t: seq<Cell>, w: int, h: int, px: int, py: int, c: Cell, qx: int, qy: int)
    requires WrittenAt(t, t0, w, h, px, py, c)
    requires !InRing(px, py, qx, qy) && (qx != px || qy != py)
    ensures ResolvedAt(t, w, h, qx, qy) == ResolvedAt(t0, w, h, qx, qy)
  {
    assert WrittenCell(t, t0, w, h, px, py, c, qx, qy);
    var g := Group(CellAt(t0, w, h, qx, qy));
    if g.Some? {
      assert NeighbourhoodAt(t, w, h, qx, qy, g.value) == NeighbourhoodAt(t0, w, h, qx, qy, g.value) by {
        assert WrittenCell(t, t0, w, h, px, py, c, qx - 1, qy - 1);
        assert WrittenCell(t, t0, w, h, px, py, c, qx, qy - 1);
        assert WrittenCell(t, t0, w, h, px, py, c, qx + 1, qy - 1);
        assert WrittenCell(t, t0, w, h, px, py, c, qx - 1, qy);
        assert WrittenCell(t, t0, w, h, px, py, c, qx + 1, qy);
        assert WrittenCell(t, t0, w, h, px, py, c, qx - 1, qy + 1);
        assert WrittenCell(t, t0, w, h, px, py, c, qx, qy + 1);
        assert WrittenCell(t, t0, w, h, px, py, c, qx + 1, qy + 1);
      }
    }
  }

  /** Writing a cell that belongs to no group over one that belonged to none either
      changes no group, and so no shape. */
  lemma WriteKeepsGroups(t0: seq<Cell>, t: seq<Cell>, w: int, h: int, px: int, py: int, c: Cell)
    requires WrittenAt(t, t0, w, h, px, py, c)
    requires Group(c).None? && Group(CellAt(t0, w, h, px, py)).None?
    ensures SameGroups(t, t0, w, h)
  {
    forall qx, qy
      ensures SameGroupCell(t, t0, w, h, qx, qy)
    {
      assert WrittenCell(t, t0, w, h, px, py, c, qx, qy);
    }
  }

  /** A call that checks neighbours leaves its own cell in the group it was in. */
  lemma UpdateKeepsGroupAt(t: seq<Cell>, u: seq<Cell>, w: int, h: int, x: int, y: int, index: int, delete: bool)
    requires TilesAfter(u, t, w, h, x, y, index, true, delete, 8)
    ensures Group(CellAt(u, w, h, x, y)) == Group(CellAt(t, w, h, x, y))
    ensures delete ==> CellAt(u, w, h, x, y) == CellAt(t, w, h, x, y)
  {
    assert TileAfter(u, t, w, h, x, y, index, true, delete, 8, x, y);
  }

  /** (qx, qy) is neither (px, py) nor one of its eight neighbours. */
  predicate Away(px: int, py: int, qx: int, qy: int)
  {
    !InRing(px, py, qx, qy) && (qx != px || qy != py)
  }

  /** Every autotile away from (px, py) shows its resolved shape. */
  ghost predicate ResolvedAway(t: seq<Cell>, w: int, h: int, px: int, py: int)
  {
    forall qx, qy :: ResolvedAwayCell(t, w, h, px, py, qx, qy)
  }

  ghost predicate ResolvedAwayCell(t: seq<Cell>, w: int, h: int, px: int, py: int, qx: int, qy: int)
  {
    Away(px, py, qx, qy) ==> ResolvedAt(t, w, h, qx, qy)
  }

  /** Placing a tile disturbs no shape away from its cell. */
  lemma WriteResolvedAway(t0: seq<Cell>, t: seq<Cell>, w: int, h: int, px: int, py: int, c: Cell)
    requires WrittenAt(t, t0, w, h, px, py, c) && Resolved(t0, w, h)
    ensures ResolvedAway(t, w, h, px, py)
  {
    forall qx, qy
      ensures ResolvedAwayCell(t, w, h, px, py, qx, qy)
    {
      if Away(px, py, qx, qy) {
        assert ResolvedAt(t0, w, h, qx, qy);
        WriteKeepsDistant(t0, t, w, h, px, py, c, qx, qy);
      }
    }
  }

  /** Nor does an updater call made at that cell. */
  lemma UpdateResolvedAway(t: seq<Cell>, u: seq<Cell>, w: int, h: int, x: int, y: int, index: int, delete: bool)
    requires TilesAfter(u, t, w, h, x, y, index, true, delete, 8) && ResolvedAway(t, w, h, x, y)
    ensures ResolvedAway(u, w, h, x, y)
  {
    forall qx, qy
      ensures ResolvedAwayCell(u, w, h, x, y, qx, qy)
    {
      if Away(x, y, qx, qy) {
        assert ResolvedAwayCell(t, w, h, x, y, qx, qy);
        UpdateKeepsDistant(t, u, w, h, x, y, index, true, delete, qx, qy);
      }
    }
  }

  /** A call that checks neighbours, made where every other autotile is resolved,
      resolves the whole layer: the ring is recomputed, and so is the cell itself
      unless it holds no autotile at all. */
  lemma CallResolvesAll(t: seq<Cell>, u: seq<Cell>, w: int, h: int, x: int, y: int, index: int, delete: bool)
    requires TilesAfter(u, t, w, h, x, y, index, true, delete, 8) && ResolvedAway(t, w, h, x, y)
    requires !delete ==> SameGroupAt(t, w, h, x, y, index)
    requires delete ==> !AutoAt(t, w, h, x, y)
    ensures Resolved(u, w, h)
  {
    UpdateResolvedAway(t, u, w, h, x, y, index, delete);
    forall qx, qy
      ensures ResolvedAt(u, w, h, qx, qy)
    {
      if InRing(x, y, qx, qy) || !delete {
        if !Away(x, y, qx, qy) {
          UpdateResolves(t, u, w, h, x, y, index, delete, qx, qy);
        } else {
          assert ResolvedAwayCell(u, w, h, x, y, qx, qy);
        }
      } else if qx == x && qy == y {
        UpdateKeepsGroupAt(t, u, w, h, x, y, index, delete);
      }
    }
  }

  /** Replacing a cell outside every group by another such cell keeps a resolved
      layer resolved. */
  lemma WriteNoGroupResolved(t0: seq<Cell>, t: seq<Cell>, w: int, h: int, px: int, py: int, c: Cell)
    requires WrittenAt(t, t0, w, h, px, py, c) && Resolved(t0, w, h)
    requires Group(c).None? && Group(CellAt(t0, w, h, px, py)).None?
    ensures Resolved(t, w, h)
  {
    WriteKeepsGroups(t0, t, w, h, px, py, c);
    forall qx, qy
      ensures ResolvedAt(t, w, h, qx, qy)
    {
      var g := Group(CellAt(t, w, h, qx, qy));
      if g.Some? {
        assert WrittenCell(t, t0, w, h, px, py, c, qx, qy);
        assert ResolvedAt(t0, w, h, qx, qy);
        SameGroupsSameShape(t, t0, w, h, qx, qy, g.value);
      }
    }
  }

  /** An updater call changes no authored content, provided its own cell holds an
      autotile whenever the call writes it. */
  lemma UpdateSameContent(t: seq<Cell>, u: seq<Cell>, w: int, h: int, x: int, y: int, index: int, check: bool,
                          delete: bool)
    requires TilesAfter(u, t, w, h, x, y, index, check, delete, 8)
    requires WritesCentre(t, w, h, x, y, index, check, delete) ==> AutoAt(t, w, h, x, y)
    ensures SameContent(u, t, w, h)
  {
    forall qx, qy
      ensures SameContentCell(u, t, w, h, qx, qy)
    {
      UpdateKeepsContent(t, u, w, h, x, y, index, check, delete, qx, qy);
    }
  }

  lemma SameContentTrans(t1: seq<Cell>, t2: seq<Cell>, t3: seq<Cell>, w: int, h: int)
    requires SameContent(t3, t2, w, h) && SameContent(t2, t1, w, h)
    ensures SameContent(t3, t1, w, h)
  {
    forall qx, qy
      ensures SameContentCell(t3, t1, w, h, qx, qy)
    {
      assert SameContentCell(t3, t2, w, h, qx, qy) && SameContentCell(t2, t1, w, h, qx, qy);
    }
  }
}
