/** The map editing widget: the layers of the open map, the registry of animated
    autotiles drawn on them and the animation counter, with the operations that
    paint tiles, resolve autotile shapes, rearrange layers and advance the
    animation. Bitmaps and sprites are not modelled; the registry and the tile
    data the bitmaps are drawn from are. */
module MapImage {
  import opened Tiles
  import opened AutotileShapes
  import opened Registry
  import opened AutotileUpdate
  import opened Painting
  import opened Animation
  import opened Rendering
  import opened Lists
  import opened LayerOps
  import opened Brush

  /** Every layer covers the whole map and every autotile in it names one of the
      map's autotile slots. */
  ghost predicate LayerOk(t: seq<Cell>, width: int, height: int, groups: int)
  {
    && |t| == width * height
    && forall p :: 0 <= p < |t| && t[p].Some? && t[p].value.kind == Autotile ==> 0 <= t[p].value.index < groups
  }

  /** The slot of an autotile found on a well-formed layer is in range. */
  lemma LayerOkGroup(t: seq<Cell>, width: int, height: int, groups: int, x: int, y: int)
    requires LayerOk(t, width, height, groups)
    ensures Group(CellAt(t, width, height, x, y)).Some? ==>
              0 <= Group(CellAt(t, width, height, x, y)).value < groups
  {
  }

  /** Rewriting shape IDs keeps a layer well formed. */
  lemma LayerOkUpdated(t: seq<Cell>, u: seq<Cell>, width: int, height: int, groups: int)
    requires LayerOk(t, width, height, groups) && |u| == |t|
    requires forall p :: 0 <= p < |t| ==> Group(u[p]) == Group(t[p])
    ensures LayerOk(u, width, height, groups)
  {
    forall p | 0 <= p < |u| && u[p].Some? && u[p].value.kind == Autotile
      ensures 0 <= u[p].value.index < groups
    {
      assert Group(u[p]) == Group(t[p]);
    }
  }

  /** `now` is `before` with at most the tiles of layer l changed. */
  ghost predicate OnlyTilesChanged(now: seq<Layer>, before: seq<Layer>, l: int)
  {
    && |now| == |before| && 0 <= l < |now|
    && (forall l' :: 0 <= l' < |now| && l' != l ==> now[l'] == before[l'])
    && now[l].name == before[l].name && now[l].visible == before[l].visible
  }

  /** Removing a layer keeps every remaining layer well formed. */
  lemma RemoveLayerOk(ls: seq<Layer>, index: int, rest: seq<Layer>, width: int, height: int, groups: int)
    requires 0 <= index < |ls| && rest == ls[..index] + ls[index + 1..]
    requires forall l :: 0 <= l < |ls| ==> LayerOk(ls[l].tiles, width, height, groups)
    ensures forall l :: 0 <= l < |rest| ==> LayerOk(rest[l].tiles, width, height, groups)
  {
    forall l | 0 <= l < |rest|
      ensures LayerOk(rest[l].tiles, width, height, groups)
    {
      var l0 := if l < index then l else l + 1;
      assert rest[l] == ls[l0];
    }
  }

  lemma OnlyTilesChangedTrans(a: seq<Layer>, b: seq<Layer>, c: seq<Layer>, l: int)
    requires OnlyTilesChanged(c, b, l) && OnlyTilesChanged(b, a, l)
    ensures OnlyTilesChanged(c, a, l)
  {
  }

  /** A change the brush logs for a tile it draws. */
  lemma ChangeAt(ch: Change, x: int, y: int, sel: Selection, w: int, h: int)
    requires InGrid(x, y, w, h) && ch.pos == Pos(x, y, w)
    requires Active(sel) ==> InSelection(sel, x, y)
    requires !SameTile(ch.oldTile, ch.newTile)
    ensures ChangeOk(ch, sel, w, h)
  {
    PosInRange(x, y, w, h);
    DivModUnique(Pos(x, y, w), w, y, x);
  }

  /** The start of a footprint: the anchor and the origin point moved to the
      footprint's top left corner, and the origin's offset from the anchor. */
  method FootprintCorner(a: Coord, cursor: Cursor) returns (mapTileX: int, mapTileY: int, diffX: int, diffY: int)
    ensures mapTileX == Left(a.x, cursor) && mapTileY == Top(a.y, cursor)
    ensures diffX == CsRem(Left(cursor.originX, cursor) - mapTileX, cursor.width + 1)
    ensures diffY == CsRem(Top(cursor.originY, cursor) - mapTileY, cursor.height + 1)
  {
    var originX, originY := cursor.originX, cursor.originY;
    mapTileX, mapTileY := a.x, a.y;
    if cursor.corner == TopRight || cursor.corner == BottomRight {
      mapTileX, originX := mapTileX - cursor.width, originX - cursor.width;
    }
    if cursor.corner == BottomLeft || cursor.corner == BottomRight {
      mapTileY, originY := mapTileY - cursor.height, originY - cursor.height;
    }
    diffX := CsRem(originX - mapTileX, cursor.width + 1);
    diffY := CsRem(originY - mapTileY, cursor.height + 1);
  }

  /** The arithmetic of footprint cell j: the map tile it lands on, from the
      footprint's top left tile, and the palette cell the source's realignment
      picks for it. */
  method FootprintSource(a: Coord, j: int, cursor: Cursor, mapTileX: int, mapTileY: int, diffX: int, diffY: int)
    returns (actualX: int, actualY: int, k: int)
    requires 0 <= j
    requires mapTileX == Left(a.x, cursor) && mapTileY == Top(a.y, cursor)
    requires diffX == CsRem(Left(cursor.originX, cursor) - mapTileX, cursor.width + 1)
    requires diffY == CsRem(Top(cursor.originY, cursor) - mapTileY, cursor.height + 1)
    ensures actualX == FootX(a, cursor, j) && actualY == FootY(a, cursor, j)
    ensures k == PaletteIndex(a, cursor, j)
  {
    var n := cursor.width + 1;
    actualX := mapTileX + j % n;
    actualY := mapTileY + j / n;
    var selX := PaletteColumn(a, j, cursor, mapTileX, diffX);
    var selY := PaletteRow(a, j, cursor, mapTileY, diffY);
    k := selY * n + selX;
  }

  /** The palette column the realignment picks for footprint cell j. */
  method PaletteColumn(a: Coord, j: int, cursor: Cursor, mapTileX: int, diffX: int) returns (selX: int)
    requires 0 <= j && mapTileX == Left(a.x, cursor)
    requires diffX == CsRem(Left(cursor.originX, cursor) - mapTileX, cursor.width + 1)
    ensures selX == SelX(a, cursor, j)
  {
    var n := cursor.width + 1;
    selX := RealignOffset(j % n, diffX, mapTileX, Left(cursor.originX, cursor), n);
  }

  /** The palette row the realignment picks for footprint cell j. */
  method PaletteRow(a: Coord, j: int, cursor: Cursor, mapTileY: int, diffY: int) returns (selY: int)
    requires 0 <= j && mapTileY == Top(a.y, cursor)
    requires diffY == CsRem(Top(cursor.originY, cursor) - mapTileY, cursor.height + 1)
    ensures selY == SelY(a, cursor, j)
  {
    selY := RealignOffset(j / (cursor.width + 1), diffY, mapTileY, Top(cursor.originY, cursor), cursor.height + 1);
  }

  class MapImageWidget {
    const width: int
    const height: int
    /** The map's autotile slots: slot g holds global autotile autotileIds[g]. */
    const autotileIds: seq<int>
    /** The global autotile catalog. */
    const catalog: seq<AutotileInfo>

    var layers: seq<Layer>
    var registry: seq<AnimEntry>
    var animateCount: nat

    /** The map is well formed: it has tiles, its autotile slots name catalog
        entries and every layer covers it. */
    ghost predicate MapOk()
      reads this`layers
    {
      && width > 0 && height > 0
      && (forall g :: 0 <= g < |autotileIds| ==> 0 <= autotileIds[g] < |catalog|)
      && (forall l :: 0 <= l < |layers| ==> LayerOk(layers[l].tiles, width, height, |autotileIds|))
    }

    /** The widget invariant: the map is well formed and every registry entry
        names a cell of it and an autotile that animates. */
    ghost predicate Valid()
      reads this
    {
      && MapOk()
      && (forall e :: e in registry ==> EntryInMap(e, |layers|, width, height))
      && AllAnimate(registry, catalog)
    }

    /** The loop of the updater and of DrawTile that removes the first registry
        entry naming a cell, if there is one. */
    method RemoveFirstEntry(layer: int, x: int, y: int)
      modifies this`registry
      ensures registry == RemoveFirstAt(old(registry), layer, x, y)
    {
      var i := 0;
      while i < |registry|
        invariant 0 <= i <= |registry| && registry == old(registry)
        invariant forall j :: 0 <= j < i ==> !IsAt(registry[j], layer, x, y)
      {
        if IsAt(registry[i], layer, x, y) {
          RemoveFirstAtSplit(registry, layer, x, y, i);
          registry := registry[..i] + registry[i + 1..];
          return;
        }
        i := i + 1;
      }
      RemoveFirstAtAbsent(registry, layer, x, y);
    }

    /** The autotile updater. The neighbour flags are read before anything is
        written. The cell itself is given the shape its same-group neighbours
        select, unless deleting, when neighbours are to be checked or the cell holds
        an autotile of the requested group; its registry entry is replaced. Then,
        when checking, every neighbour holding an autotile of any group is updated
        as a member of its own group. */
    method UpdateAutotiles(layer: int, x: int, y: int, index: int, check: bool, delete: bool)
      requires Valid() && 0 <= layer < |layers| && InGrid(x, y, width, height)
      requires check && !delete ==> CellAt(layers[layer].tiles, width, height, x, y).Some?
      requires WritesCentre(layers[layer].tiles, width, height, x, y, index, check, delete) ==> 0 <= index < |autotileIds|
      modifies this
      decreases if check then 2 else 0
      ensures Valid() && OnlyTilesChanged(layers, old(layers), layer) && animateCount == old(animateCount)
      ensures TilesAfter(layers[layer].tiles, old(layers[layer].tiles), width, height, x, y, index, check, delete, 8)
      ensures EntriesAfter(registry, old(registry), old(layers[layer].tiles), width, height, autotileIds, catalog,
                           layer, x, y, index, check, delete, 8)
    {
      var t := layers[layer].tiles;
      ghost var r0 := registry;
      PosInRange(x, y, width, height);
      if check || SameGroupAt(t, width, height, x, y, index) {
        var id := ShapeAt(t, width, height, x, y, index);
        if id != -1 && !delete {
          AssignShape(layer, x, y, index, id);
        }
      }
      CentreStepTiles(t, layers[layer].tiles, width, height, x, y, index, check, delete);
      CentreStepEntries(r0, registry, t, width, height, autotileIds, catalog, layer, x, y, index, check, delete);
      if check {
        var k := 0;
        while k < 8
          invariant 0 <= k <= 8
          invariant Valid() && OnlyTilesChanged(layers, old(layers), layer) && animateCount == old(animateCount)
          invariant TilesAfter(layers[layer].tiles, t, width, height, x, y, index, true, delete, k)
          invariant EntriesAfter(registry, r0, t, width, height, autotileIds, catalog, layer, x, y, index, true, delete, k)
        {
          UpdateNeighbour(layer, x, y, index, delete, k, AutoAt(t, width, height, x + RingDx[k], y + RingDy[k]), t, r0);
          k := k + 1;
        }
      }
    }

    /** The write of the updater: give cell (x, y) shape `id` and replace its
        first registry entry by a registration of the cell's autotile, made only
        when that autotile animates. */
    method AssignShape(layer: int, x: int, y: int, index: int, id: int)
      requires Valid() && 0 <= layer < |layers| && InGrid(x, y, width, height)
      requires 0 <= index < |autotileIds|
      modifies this
      ensures Valid() && OnlyTilesChanged(layers, old(layers), layer) && animateCount == old(animateCount)
      ensures WrittenAt(layers[layer].tiles, old(layers[layer].tiles), width, height, x, y,
                        SetId(CellAt(old(layers[layer].tiles), width, height, x, y), id))
      ensures registry == RemoveFirstAt(old(registry), layer, x, y) + NewEntry(autotileIds, catalog, layer, x, y, index, id)
    {
      var t := layers[layer].tiles;
      PosInRange(x, y, width, height);
      var p := Pos(x, y, width);
      RemoveFirstEntry(layer, x, y);
      layers := layers[layer := layers[layer].(tiles := t[p := SetId(t[p], id)])];
      LayerOkUpdated(t, layers[layer].tiles, width, height, |autotileIds|);
      CellAtWrite(t, width, height, x, y, SetId(t[p], id));
      var gid := autotileIds[index];
      if catalog[gid].animateSpeed > 0 {
        registry := registry + [AnimEntry(layer, x, y, gid, id)];
      }
    }

    /** One of the eight neighbour lines of the updater: when neighbour k of (x, y)
        held an autotile as the call started (`auto`, read from layer t before any
        write), it is updated as a member of its own group. */
    method UpdateNeighbour(layer: int, x: int, y: int, index: int, delete: bool, k: int, auto: bool,
                           ghost t: seq<Cell>, ghost r0: seq<AnimEntry>)
      requires Valid() && 0 <= layer < |layers| && 0 <= k < 8
      requires auto == AutoAt(t, width, height, x + RingDx[k], y + RingDy[k])
      requires TilesAfter(layers[layer].tiles, t, width, height, x, y, index, true, delete, k)
      requires EntriesAfter(registry, r0, t, width, height, autotileIds, catalog, layer, x, y, index, true, delete, k)
      modifies this
      decreases 1
      ensures Valid() && OnlyTilesChanged(layers, old(layers), layer) && animateCount == old(animateCount)
      ensures TilesAfter(layers[layer].tiles, t, width, height, x, y, index, true, delete, k + 1)
      ensures EntriesAfter(registry, r0, t, width, height, autotileIds, catalog, layer, x, y, index, true, delete, k + 1)
    {
      var nx, ny := x + RingDx[k], y + RingDy[k];
      ghost var cur, regCur := layers[layer].tiles, registry;
      if auto {
        UpdatePreservesGroups(t, cur, width, height, x, y, index, true, delete, k);
        assert SameGroupCell(cur, t, width, height, nx, ny);
        LayerOkGroup(cur, width, height, |autotileIds|, nx, ny);
        var g := CellAt(layers[layer].tiles, width, height, nx, ny).value.index;
        UpdateAutotiles(layer, nx, ny, g, false, false);
        NeighbourStepTiles(t, cur, layers[layer].tiles, width, height, x, y, index, delete, k, g);
        NeighbourStepEntries(r0, t, cur, regCur, registry, width, height, autotileIds, catalog,
                             layer, x, y, index, delete, k, g);
      } else {
        NeighbourStepTiles(t, cur, layers[layer].tiles, width, height, x, y, index, delete, k, index);
        NeighbourStepEntries(r0, t, cur, regCur, registry, width, height, autotileIds, catalog,
                             layer, x, y, index, delete, k, index);
      }
    }

    /** Painting one cell after the brush has stored its new tile: the cell's first
        registry entry is dropped; if an autotile was there, its neighbours are
        updated as for a deletion; a new autotile with a preset shape is only
        registered, and any other new autotile is resolved together with its
        neighbours. The registration of a preset autotile is made only when that
        autotile animates (see Findings). Layer `before` is the painted layer as it
        was before the brush stored the tile. */
    method DrawTile(x: int, y: int, layer: int, tile: Cell, oldTile: Cell, force: bool, ghost before: seq<Cell>)
      requires Valid() && 0 <= layer < |layers| && InGrid(x, y, width, height)
      requires WrittenAt(layers[layer].tiles, before, width, height, x, y, tile)
      requires CellAt(before, width, height, x, y) == oldTile
      modifies this
      ensures Valid() && OnlyTilesChanged(layers, old(layers), layer) && animateCount == old(animateCount)
      ensures SameContent(layers[layer].tiles, old(layers[layer].tiles), width, height)
      ensures RegistryOk(old(registry), old(layers)[layer := old(layers)[layer].(tiles := before)], width, height,
                         autotileIds, catalog) ==>
                RegistryOk(registry, layers, width, height, autotileIds, catalog)
      ensures !PresetShape(tile, force) && Resolved(before, width, height) ==> Resolved(layers[layer].tiles, width, height)
    {
      ghost var layersBefore := layers[layer := layers[layer].(tiles := before)];
      ghost var r0, t0, l0 := registry, layers[layer].tiles, layers;
      ghost var ok := RegistryOk(r0, layersBefore, width, height, autotileIds, catalog);
      if ok {
        RegistryOkLayer(r0, layersBefore, width, height, autotileIds, catalog, layer, x, y);
      }
      ClearCell(x, y, layer, tile, oldTile, before);
      ghost var r2, t2, l2 := registry, layers[layer].tiles, layers;
      PlaceTile(x, y, layer, tile, force);
      OnlyTilesChangedTrans(l0, l2, layers, layer);
      SameContentTrans(t0, t2, layers[layer].tiles, width, height);
      if ok {
        OtherLayersKeptTrans(r0, r2, registry, layer);
        RegistryOkFromLayer(r0, registry, layersBefore, layers, width, height, autotileIds, catalog, layer, x, y);
      }
    }

    /** The first half of DrawTile: drop the cell's first registry entry and, if
        an autotile was there, update its neighbours as for a deletion. The cell
        keeps its new tile and loses every entry. */
    method ClearCell(x: int, y: int, layer: int, tile: Cell, oldTile: Cell, ghost before: seq<Cell>)
      requires Valid() && 0 <= layer < |layers| && InGrid(x, y, width, height)
      requires WrittenAt(layers[layer].tiles, before, width, height, x, y, tile)
      requires CellAt(before, width, height, x, y) == oldTile
      modifies this
      ensures Valid() && OnlyTilesChanged(layers, old(layers), layer) && animateCount == old(animateCount)
      ensures SameContent(layers[layer].tiles, old(layers[layer].tiles), width, height)
      ensures CellAt(layers[layer].tiles, width, height, x, y) == tile
      ensures LayerRegistered(old(registry), before, width, height, autotileIds, catalog, layer, x, y, false) ==>
                LayerRegistered(registry, layers[layer].tiles, width, height, autotileIds, catalog, layer, x, y, true) &&
                OtherLayersKept(registry, old(registry), layer)
      ensures Resolved(before, width, height) ==>
                ResolvedAway(layers[layer].tiles, width, height, x, y) &&
                (!AutoAt(layers[layer].tiles, width, height, x, y) ==> Resolved(layers[layer].tiles, width, height))
    {
      ghost var t0, r0 := layers[layer].tiles, registry;
      ghost var ok := LayerRegistered(r0, before, width, height, autotileIds, catalog, layer, x, y, false);
      ghost var resolved := Resolved(before, width, height);
      assert WrittenCell(t0, before, width, height, x, y, tile, x, y);
      if ok {
        RemoveStep(r0, before, t0, width, height, autotileIds, catalog, layer, x, y, tile);
      }
      if resolved {
        WriteResolvedAway(before, t0, width, height, x, y, tile);
      }
      RemoveFirstEntry(layer, x, y);
      ghost var r1 := registry;
      if oldTile.Some? && oldTile.value.kind == Autotile {
        UpdateAutotiles(layer, x, y, oldTile.value.index, true, true);
        ghost var t1 := layers[layer].tiles;
        UpdateKeepsGroupAt(t0, t1, width, height, x, y, oldTile.value.index, true);
        UpdateSameContent(t0, t1, width, height, x, y, oldTile.value.index, true, true);
        if ok {
          UpdateStep(r1, registry, t0, t1, width, height, autotileIds, catalog, layer, x, y, oldTile.value.index,
                     true, true);
          OtherLayersKeptTrans(r0, r1, registry, layer);
        }
        if resolved {
          UpdateResolvedAway(t0, t1, width, height, x, y, oldTile.value.index, true);
          if !AutoAt(t1, width, height, x, y) {
            CallResolvesAll(t0, t1, width, height, x, y, oldTile.value.index, true);
          }
        }
      } else if resolved && !AutoAt(t0, width, height, x, y) {
        WriteNoGroupResolved(before, t0, width, height, x, y, tile);
      }
    }

    /** The second half of DrawTile: a new autotile with a preset shape is
        registered when it animates; any other new autotile is resolved with its
        neighbours; any other tile needs nothing more. The cell's hole in the
        registry is filled. */
    method PlaceTile(x: int, y: int, layer: int, tile: Cell, force: bool)
      requires Valid() && 0 <= layer < |layers| && InGrid(x, y, width, height)
      requires CellAt(layers[layer].tiles, width, height, x, y) == tile
      modifies this
      ensures Valid() && OnlyTilesChanged(layers, old(layers), layer) && animateCount == old(animateCount)
      ensures SameContent(layers[layer].tiles, old(layers[layer].tiles), width, height)
      ensures LayerRegistered(old(registry), old(layers[layer].tiles), width, height, autotileIds, catalog, layer, x, y, true) ==>
                LayerRegistered(registry, layers[layer].tiles, width, height, autotileIds, catalog, layer, x, y, false) &&
                OtherLayersKept(registry, old(registry), layer)
      ensures !PresetShape(tile, force) && ResolvedAway(old(layers[layer].tiles), width, height, x, y) &&
              (!AutoAt(old(layers[layer].tiles), width, height, x, y) ==> Resolved(old(layers[layer].tiles), width, height)) ==>
                Resolved(layers[layer].tiles, width, height)
    {
      ghost var t2, r2 := layers[layer].tiles, registry;
      ghost var ok := LayerRegistered(r2, t2, width, height, autotileIds, catalog, layer, x, y, true);
      if tile.Some? && tile.value.kind == Autotile {
        LayerOkGroup(t2, width, height, |autotileIds|, x, y);
        if tile.value.id != -1 && !force {
          var gid := autotileIds[tile.value.index];
          if catalog[gid].animateSpeed > 0 {
            registry := registry + [AnimEntry(layer, x, y, gid, tile.value.id)];
          }
          if ok {
            assert registry == r2 + ExpectedFor(tile, autotileIds, catalog, layer, x, y);
            RegisterStep(r2, t2, width, height, autotileIds, catalog, layer, x, y,
                         ExpectedFor(tile, autotileIds, catalog, layer, x, y));
          }
        } else {
          ghost var resolvedAway := ResolvedAway(t2, width, height, x, y);
          UpdateAutotiles(layer, x, y, tile.value.index, true, false);
          UpdateSameContent(t2, layers[layer].tiles, width, height, x, y, tile.value.index, true, false);
          if ok {
            UpdateStep(r2, registry, t2, layers[layer].tiles, width, height, autotileIds, catalog, layer, x, y,
                       tile.value.index, false, true);
          }
          if resolvedAway {
            CallResolvesAll(t2, layers[layer].tiles, width, height, x, y, tile.value.index, false);
          }
        }
      } else if ok {
        assert registry + [] == registry;
        RegisterStep(r2, t2, width, height, autotileIds, catalog, layer, x, y, []);
      }
    }
  
    // ---- The brush ----

    /** DrawTiles: list the tiles the stroke touches and lay the cursor's
        footprint on each of them in turn. Every write and its undo entry are made
        only for a real change; nothing is written or logged when a fill starts
        outside the active selection. Returns the undo group's entries. */
    method DrawTiles(oldx: int, oldy: int, newx: int, newy: int, layer: int, fill: bool, blank: bool,
                     sel: Selection, cursor: Cursor, palette: seq<Cell>) returns (log: seq<Change>)
      requires Valid() && 0 <= layer < |layers|
      requires FitsPalette(cursor, palette) && PaletteOk(palette, |autotileIds|)
      modifies this
      ensures Valid() && OnlyTilesChanged(layers, old(layers), layer) && animateCount == old(animateCount)
      ensures var anchors := Anchors(fill, oldx, oldy, newx, newy, sel, width, height);
        && (anchors.None? ==> layers == old(layers) && registry == old(registry) && log == [])
        && (anchors.Some? ==>
              SameContent(layers[layer].tiles, Painted(old(layers[layer].tiles), anchors.value, cursor, palette, blank,
                                                       sel, width, height, |anchors.value|), width, height))
      ensures forall k :: 0 <= k < |log| ==> ChangeOk(log[k], sel, width, height)
      ensures log == [] ==> layers == old(layers) && registry == old(registry)
      ensures RegistryOk(old(registry), old(layers), width, height, autotileIds, catalog) ==>
                RegistryOk(registry, layers, width, height, autotileIds, catalog)
      ensures NoPresets(palette) && Resolved(old(layers[layer].tiles), width, height) ==>
                Resolved(layers[layer].tiles, width, height)
    {
      var ok, anchors := ComputeAnchors(fill, oldx, oldy, newx, newy, sel, width, height);
      log := [];
      if !ok {
        return;
      }
      ghost var t0, r0, l0 := layers[layer].tiles, registry, layers;
      var i := 0;
      while i < |anchors|
        invariant 0 <= i <= |anchors|
        invariant Valid() && 0 <= layer < |layers| && OnlyTilesChanged(layers, l0, layer)
        invariant animateCount == old(animateCount)
        invariant SameContent(layers[layer].tiles, Painted(t0, anchors, cursor, palette, blank, sel, width, height, i),
                              width, height)
        invariant forall k :: 0 <= k < |log| ==> ChangeOk(log[k], sel, width, height)
        invariant log == [] ==> layers == l0 && registry == r0
        invariant RegistryOk(r0, l0, width, height, autotileIds, catalog) ==>
                    RegistryOk(registry, layers, width, height, autotileIds, catalog)
        invariant NoPresets(palette) && Resolved(t0, width, height) ==> Resolved(layers[layer].tiles, width, height)
      {
        log := StampNext(anchors, i, layer, blank, sel, cursor, palette, log, t0, r0, l0);
        i := i + 1;
      }
    }

    /** One pass of the loop of DrawTiles: the footprint at anchor `i` is laid on
        the layer painted with the first `i` anchors, and its entries are appended
        to the undo group. */
    method StampNext(anchors: seq<Coord>, i: int, layer: int, blank: bool, sel: Selection, cursor: Cursor,
                     palette: seq<Cell>, log0: seq<Change>, ghost t0: seq<Cell>, ghost r0: seq<AnimEntry>,
                     ghost l0: seq<Layer>) returns (log: seq<Change>)
      requires 0 <= i < |anchors| && |t0| == width * height
      requires Valid() && 0 <= layer < |layers| && OnlyTilesChanged(layers, l0, layer)
      requires FitsPalette(cursor, palette) && PaletteOk(palette, |autotileIds|)
      requires SameContent(layers[layer].tiles, Painted(t0, anchors, cursor, palette, blank, sel, width, height, i),
                           width, height)
      requires forall k :: 0 <= k < |log0| ==> ChangeOk(log0[k], sel, width, height)
      requires log0 == [] ==> layers == l0 && registry == r0
      requires RegistryOk(r0, l0, width, height, autotileIds, catalog) ==>
                 RegistryOk(registry, layers, width, height, autotileIds, catalog)
      requires NoPresets(palette) && Resolved(t0, width, height) ==> Resolved(layers[layer].tiles, width, height)
      modifies this
      ensures Valid() && 0 <= layer < |layers| && OnlyTilesChanged(layers, l0, layer)
      ensures animateCount == old(animateCount)
      ensures SameContent(layers[layer].tiles, Painted(t0, anchors, cursor, palette, blank, sel, width, height, i + 1),
                          width, height)
      ensures forall k :: 0 <= k < |log| ==> ChangeOk(log[k], sel, width, height)
      ensures log == [] ==> layers == l0 && registry == r0
      ensures RegistryOk(r0, l0, width, height, autotileIds, catalog) ==>
                RegistryOk(registry, layers, width, height, autotileIds, catalog)
      ensures NoPresets(palette) && Resolved(t0, width, height) ==> Resolved(layers[layer].tiles, width, height)
    {
      ghost var cur, l1 := layers[layer].tiles, layers;
      var entries := StampAnchor(anchors[i], layer, blank, sel, cursor, palette);
      SameContentStampAll(layers[layer].tiles, cur, Painted(t0, anchors, cursor, palette, blank, sel, width, height, i),
                          anchors[i], cursor, palette, blank, sel, width, height);
      OnlyTilesChangedTrans(l0, l1, layers, layer);
      log := log0 + entries;
    }

    /** One anchor of DrawTiles: move the anchor and the origin point to the
        footprint's top left corner, work out the origin's offset, then draw the
        footprint's cells one by one. */
    method StampAnchor(a: Coord, layer: int, blank: bool, sel: Selection, cursor: Cursor, palette: seq<Cell>)
      returns (log: seq<Change>)
      requires Valid() && 0 <= layer < |layers|
      requires FitsPalette(cursor, palette) && PaletteOk(palette, |autotileIds|)
      modifies this
      ensures Valid() && OnlyTilesChanged(layers, old(layers), layer) && animateCount == old(animateCount)
      ensures SameContent(layers[layer].tiles, StampTo(old(layers[layer].tiles), a, cursor, palette, blank, sel,
                                                       width, height, |palette|), width, height)
      ensures forall k :: 0 <= k < |log| ==> ChangeOk(log[k], sel, width, height)
      ensures log == [] ==> layers == old(layers) && registry == old(registry)
      ensures RegistryOk(old(registry), old(layers), width, height, autotileIds, catalog) ==>
                RegistryOk(registry, layers, width, height, autotileIds, catalog)
      ensures NoPresets(palette) && Resolved(old(layers[layer].tiles), width, height) ==>
                Resolved(layers[layer].tiles, width, height)
    {
      var mapTileX, mapTileY, diffX, diffY := FootprintCorner(a, cursor);
      ghost var t0, r0, l0 := layers[layer].tiles, registry, layers;
      log := [];
      var j := 0;
      while j < |palette|
        invariant 0 <= j <= |palette|
        invariant Valid() && 0 <= layer < |layers| && OnlyTilesChanged(layers, l0, layer)
        invariant animateCount == old(animateCount)
        invariant SameContent(layers[layer].tiles, StampTo(t0, a, cursor, palette, blank, sel, width, height, j),
                              width, height)
        invariant forall k :: 0 <= k < |log| ==> ChangeOk(log[k], sel, width, height)
        invariant log == [] ==> layers == l0 && registry == r0
        invariant RegistryOk(r0, l0, width, height, autotileIds, catalog) ==>
                    RegistryOk(registry, layers, width, height, autotileIds, catalog)
        invariant NoPresets(palette) && Resolved(t0, width, height) ==> Resolved(layers[layer].tiles, width, height)
      {
        ghost var cur, l1 := layers[layer].tiles, layers;
        var change := StampFootprintCell(a, j, layer, blank, sel, cursor, palette, mapTileX, mapTileY, diffX, diffY);
        StampToStep(cur, layers[layer].tiles, t0, a, cursor, palette, blank, sel, width, height, j);
        OnlyTilesChangedTrans(l0, l1, layers, layer);
        if change.Some? {
          log := log + [change.value];
        }
        j := j + 1;
      }
    }

    /** Footprint cell j of the footprint laid on anchor a, whose top left tile is
        (mapTileX, mapTileY) and whose origin offsets are diffX and diffY: skipped
        when it falls off the map or outside an active selection; otherwise the
        palette cell the source's realignment picks is drawn. */
    method StampFootprintCell(a: Coord, j: int, layer: int, blank: bool, sel: Selection, cursor: Cursor,
                              palette: seq<Cell>, mapTileX: int, mapTileY: int, diffX: int, diffY: int)
      returns (change: Option<Change>)
      requires Valid() && 0 <= layer < |layers| && 0 <= j < |palette|
      requires FitsPalette(cursor, palette) && PaletteOk(palette, |autotileIds|)
      requires mapTileX == Left(a.x, cursor) && mapTileY == Top(a.y, cursor)
      requires diffX == CsRem(Left(cursor.originX, cursor) - mapTileX, cursor.width + 1)
      requires diffY == CsRem(Top(cursor.originY, cursor) - mapTileY, cursor.height + 1)
      modifies this
      ensures Valid() && OnlyTilesChanged(layers, old(layers), layer) && animateCount == old(animateCount)
      ensures SameContent(layers[layer].tiles, StampWrite(old(layers[layer].tiles), a, cursor, palette, blank, sel,
                                                          width, height, j), width, height)
      ensures change.Some? ==> ChangeOk(change.value, sel, width, height)
      ensures change.None? ==> layers == old(layers) && registry == old(registry)
      ensures RegistryOk(old(registry), old(layers), width, height, autotileIds, catalog) ==>
                RegistryOk(registry, layers, width, height, autotileIds, catalog)
      ensures NoPresets(palette) && Resolved(old(layers[layer].tiles), width, height) ==>
                Resolved(layers[layer].tiles, width, height)
    {
      var actualX, actualY, k := FootprintSource(a, j, cursor, mapTileX, mapTileY, diffX, diffY);
      if actualX < 0 || actualX >= width || actualY < 0 || actualY >= height {
        StampWriteSkipped(layers[layer].tiles, a, cursor, palette, blank, sel, width, height, j);
        return None;
      }
      if Active(sel) && !InSelection(sel, actualX, actualY) {
        StampWriteSkipped(layers[layer].tiles, a, cursor, palette, blank, sel, width, height, j);
        return None;
      }
      var tile := palette[k];
      var newTile := if blank then None else tile;
      ghost var t0 := layers[layer].tiles;
      StampWriteDrawn(t0, a, cursor, palette, blank, sel, width, height, j);
      change := StampCell(actualX, actualY, layer, newTile);
      if change.Some? {
        ChangeAt(change.value, actualX, actualY, sel, width, height);
      }
    }

    /** The brush's change detection: the new tile is written, logged and drawn
        only when it is not the same tile, by the brush's rule, as the one the
        cell holds; otherwise nothing changes and nothing is logged. */
    method StampCell(x: int, y: int, layer: int, newTile: Cell) returns (change: Option<Change>)
      requires Valid() && 0 <= layer < |layers| && InGrid(x, y, width, height)
      requires Group(newTile).Some? ==> 0 <= Group(newTile).value < |autotileIds|
      modifies this
      ensures Valid() && OnlyTilesChanged(layers, old(layers), layer) && animateCount == old(animateCount)
      ensures 0 <= Pos(x, y, width) < width * height
      ensures SameContent(layers[layer].tiles, old(layers[layer].tiles)[Pos(x, y, width) := newTile], width, height)
      ensures var oldTile := CellAt(old(layers[layer].tiles), width, height, x, y);
              change == if SameTile(oldTile, newTile) then None else Some(Change(Pos(x, y, width), newTile, oldTile))
      ensures change.None? ==> layers == old(layers) && registry == old(registry)
      ensures RegistryOk(old(registry), old(layers), width, height, autotileIds, catalog) ==>
                RegistryOk(registry, layers, width, height, autotileIds, catalog)
      ensures !PresetShape(newTile, false) && Resolved(old(layers[layer].tiles), width, height) ==>
                Resolved(layers[layer].tiles, width, height)
    {
      var t := layers[layer].tiles;
      PosInRange(x, y, width, height);
      var p := x + y * width;
      var oldTile := t[p];
      if SameTile(oldTile, newTile) {
        SameContentRepaint(t, width, height, x, y, newTile);
        change := None;
      } else {
        ghost var l0 := layers;
        var u := t[p := newTile];
        layers := layers[layer := layers[layer].(tiles := u)];
        assert LayerOk(u, width, height, |autotileIds|);
        CellAtWrite(t, width, height, x, y, newTile);
        assert layers[layer := layers[layer].(tiles := t)] == l0;
        DrawTile(x, y, layer, newTile, oldTile, false, t);
        change := Some(Change(p, newTile, oldTile));
      }
    }

    // ---- Whole layers ----

    /** LoadLayers on a new widget: open a map and build its registry from all of
        its layers, with the animation count at zero. */
    constructor (width: int, height: int, autotileIds: seq<int>, catalog: seq<AutotileInfo>, layers: seq<Layer>)
      requires width > 0 && height > 0
      requires forall g :: 0 <= g < |autotileIds| ==> 0 <= autotileIds[g] < |catalog|
      requires forall l :: 0 <= l < |layers| ==> LayerOk(layers[l].tiles, width, height, |autotileIds|)
      ensures Valid() && this.layers == layers && animateCount == 0
      ensures registry == AllScans(layers, |layers|, width, height, autotileIds, catalog)
      ensures RegistryOk(registry, layers, width, height, autotileIds, catalog)
    {
      this.width, this.height := width, height;
      this.autotileIds, this.catalog := autotileIds, catalog;
      this.layers := layers;
      this.registry := [];
      this.animateCount := 0;
      new;
      RedrawLayers();
    }

    /** The registrations GetLayerBitmap makes while drawing layer l: row by row,
        every tile holding an autotile whose catalog entry animates is registered
        with its global autotile ID and shape. The bitmap itself is not kept. */
    method GetLayerBitmap(l: int)
      requires Valid() && 0 <= l < |layers|
      modifies this`registry
      ensures Valid()
      ensures registry == old(registry) + LayerScan(layers[l].tiles, width, height, autotileIds, catalog, l)
    {
      ghost var t := layers[l].tiles;
      ghost var r0 := registry;
      var y := 0;
      while y < height
        invariant 0 <= y <= height
        invariant registry == r0 + ScanTo(t, width, height, autotileIds, catalog, l, 0, y)
      {
        DrawLayerRow(l, y, r0);
        y := y + 1;
      }
      ScanMembers(t, width, height, autotileIds, catalog, l, 0, height);
    }

    /** One row of the loop of GetLayerBitmap: the scan moves from the start of
        row y to the start of row y + 1. */
    method DrawLayerRow(l: int, y: int, ghost r0: seq<AnimEntry>)
      requires MapOk() && 0 <= l < |layers| && 0 <= y < height
      requires registry == r0 + ScanTo(layers[l].tiles, width, height, autotileIds, catalog, l, 0, y)
      modifies this`registry
      ensures registry == r0 + ScanTo(layers[l].tiles, width, height, autotileIds, catalog, l, 0, y + 1)
    {
      ghost var t := layers[l].tiles;
      var x := 0;
      while x < width
        invariant 0 <= x <= width
        invariant registry == r0 + ScanTo(t, width, height, autotileIds, catalog, l, x, y)
      {
        ghost var head := ScanTo(t, width, height, autotileIds, catalog, l, x, y);
        DrawLayerTile(l, x, y);
        ScanToStep(t, width, height, autotileIds, catalog, l, x, y);
        assert registry == r0 + (head + ExpectedFor(CellAt(t, width, height, x, y), autotileIds, catalog, l, x, y));
        x := x + 1;
      }
      ScanToStep(t, width, height, autotileIds, catalog, l, width - 1, y);
    }

    /** The body of the loop of GetLayerBitmap for tile (x, y) of layer l: an
        empty tile, a tile past the end of the layer and a tileset tile register
        nothing; an autotile registers when its catalog entry animates. What it
        registers is the tile's expected entry. */
    method DrawLayerTile(l: int, x: int, y: int)
      requires MapOk() && 0 <= l < |layers| && InGrid(x, y, width, height)
      modifies this`registry
      ensures registry == old(registry) +
                          ExpectedFor(CellAt(layers[l].tiles, width, height, x, y), autotileIds, catalog, l, x, y)
    {
      var t := layers[l].tiles;
      var p := y * width + x;
      PosInRange(x, y, width, height);
      if p < |t| && t[p].Some? && t[p].value.kind == Autotile {
        var gid := autotileIds[t[p].value.index];
        if catalog[gid].animateSpeed > 0 {
          registry := registry + [AnimEntry(l, x, y, gid, t[p].value.id)];
        }
      }
    }

    /** RedrawLayers: the registry is cleared and rebuilt from every layer in
        order, which establishes the registry invariant. */
    method RedrawLayers()
      requires Valid()
      modifies this`registry
      ensures Valid() && registry == AllScans(layers, |layers|, width, height, autotileIds, catalog)
      ensures RegistryOk(registry, layers, width, height, autotileIds, catalog)
    {
      registry := [];
      var i := 0;
      while i < |layers|
        invariant 0 <= i <= |layers| && Valid()
        invariant registry == AllScans(layers, i, width, height, autotileIds, catalog)
      {
        GetLayerBitmap(i);
        i := i + 1;
      }
      AllScansOk(layers, width, height, autotileIds, catalog);
    }

    /** Renumber the layer of every registry entry in place. */
    method Renumber(f: int -> int)
      modifies this`registry
      ensures registry == Relabel(old(registry), f)
    {
      var k := 0;
      while k < |registry|
        invariant 0 <= k <= |registry| == |old(registry)|
        invariant forall m :: 0 <= m < |registry| ==>
                    registry[m] == if m < k then old(registry)[m].(layer := f(old(registry)[m].layer)) else old(registry)[m]
      {
        registry := registry[k := registry[k].(layer := f(registry[k].layer))];
        k := k + 1;
      }
    }

    /** The renumbering loop of SwapLayers: an entry of layer `i` moves to layer
        `j` and one of layer `j` to layer `i`; the others stay. */
    method SwapEntryLayers(i: int, j: int)
      modifies this`registry
      ensures registry == Relabel(old(registry), SwapNumber(i, j))
    {
      ghost var f := SwapNumber(i, j);
      var k := 0;
      while k < |registry|
        invariant 0 <= k <= |registry| == |old(registry)|
        invariant forall m :: 0 <= m < |registry| ==>
                    registry[m] == if m < k then old(registry)[m].(layer := f(old(registry)[m].layer)) else old(registry)[m]
      {
        var e := registry[k];
        if e.layer == i {
          registry := registry[k := e.(layer := j)];
        } else if e.layer == j {
          registry := registry[k := e.(layer := i)];
        }
        k := k + 1;
      }
    }

    /** SwapLayers: entries of either layer are renumbered to the other, and the
        two layers trade places. This keeps the registry invariant. */
    method SwapLayers(i: int, j: int)
      requires Valid() && 0 <= i < |layers| && 0 <= j < |layers|
      modifies this`registry, this`layers
      ensures Valid()
      ensures registry == Relabel(old(registry), SwapNumber(i, j))
      ensures layers == old(layers)[i := old(layers)[j]][j := old(layers)[i]]
      ensures RegistryOk(old(registry), old(layers), width, height, autotileIds, catalog) ==>
                RegistryOk(registry, layers, width, height, autotileIds, catalog)
    {
      ghost var f := SwapNumber(i, j);
      SwapEntryLayers(i, j);
      var l1 := layers[i];
      layers := layers[i := layers[j]];
      layers := layers[j := l1];
      RelabelInMap(old(registry), f, |layers|, width, height, catalog);
      if RegistryOk(old(registry), old(layers), width, height, autotileIds, catalog) {
        SwapKeepsRegistry(old(registry), old(layers), width, height, autotileIds, catalog, i, j);
      }
    }

    /** CreateNewLayer, corrected (see Findings): entries of the layers from
        `index` up are renumbered one higher, the layer is inserted and its
        bitmap is drawn, registering its animated autotiles. This keeps the
        registry invariant. */
    method CreateNewLayer(index: int, layer: Layer)
      requires Valid() && 0 <= index <= |layers| && LayerOk(layer.tiles, width, height, |autotileIds|)
      modifies this`registry, this`layers
      ensures Valid()
      ensures layers == old(layers)[..index] + [layer] + old(layers)[index..]
      ensures registry == Relabel(old(registry), ShiftUp(index)) +
                          LayerScan(layer.tiles, width, height, autotileIds, catalog, index)
      ensures RegistryOk(old(registry), old(layers), width, height, autotileIds, catalog) ==>
                RegistryOk(registry, layers, width, height, autotileIds, catalog)
    {
      InsertLayer(index, layer);
      GetLayerBitmap(index);
      if RegistryOk(old(registry), old(layers), width, height, autotileIds, catalog) {
        InsertKeepsRegistry(old(registry), old(layers), width, height, autotileIds, catalog, index, layer);
      }
    }

    /** The first half of CreateNewLayer: the entries of the layers from `index`
        up are renumbered one higher and the layer is inserted. */
    method InsertLayer(index: int, layer: Layer)
      requires Valid() && 0 <= index <= |layers| && LayerOk(layer.tiles, width, height, |autotileIds|)
      modifies this`registry, this`layers
      ensures Valid()
      ensures layers == old(layers)[..index] + [layer] + old(layers)[index..]
      ensures registry == Relabel(old(registry), ShiftUp(index))
    {
      Renumber(ShiftUp(index));
      RelabelInMap(old(registry), ShiftUp(index), |layers| + 1, width, height, catalog);
      layers := layers[..index] + [layer] + layers[index..];
      assert forall l :: 0 <= l < |layers| ==> layers[l] == if l < index then old(layers)[l]
                                                   else if l == index then layer else old(layers)[l - 1];
    }

    /** The removal loops of DeleteLayer: for every tile of the layer, row by
        row, the first entry of a non-empty tile is removed. */
    method ClearLayerEntries(t: seq<Cell>, index: int)
      requires width >= 0 && height >= 0 && |t| == width * height
      modifies this`registry
      ensures registry == ClearScan(old(registry), t, width, height, index, 0, height)
    {
      ghost var r0 := registry;
      var y := 0;
      while y < height
        invariant 0 <= y <= height
        invariant registry == ClearScan(r0, t, width, height, index, 0, y)
      {
        var x := 0;
        while x < width
          invariant 0 <= x <= width
          invariant registry == ClearScan(r0, t, width, height, index, x, y)
        {
          PosInRange(x, y, width, height);
          var p := x + y * width;
          if t[p].Some? {
            RemoveFirstEntry(index, x, y);
          }
          x := x + 1;
        }
        assert ClearScan(r0, t, width, height, index, 0, y + 1) == ClearScan(r0, t, width, height, index, width, y);
        y := y + 1;
      }
    }

    /** DeleteLayer, corrected (see Findings): the first entry of every non-empty
        tile of the layer is removed, the entries of the layers above it are
        renumbered one lower and the layer is removed. This keeps the registry
        invariant. */
    method DeleteLayer(index: int)
      requires Valid() && 0 <= index < |layers|
      requires RegistryOk(registry, layers, width, height, autotileIds, catalog)
      modifies this`registry, this`layers
      ensures Valid()
      ensures layers == old(layers)[..index] + old(layers)[index + 1..]
      ensures registry == Relabel(ClearScan(old(registry), old(layers)[index].tiles, width, height, index, 0, height),
                                  ShiftDown(index))
      ensures RegistryOk(registry, layers, width, height, autotileIds, catalog)
    {
      var t := layers[index].tiles;
      ghost var r0 := registry;
      ClearLayerEntries(t, index);
      ghost var cleared := registry;
      ClearScanNoLayer(r0, layers, width, height, autotileIds, catalog, index);
      Renumber(ShiftDown(index));
      RelabelInMap(cleared, ShiftDown(index), |layers| - 1, width, height, catalog);
      layers := layers[..index] + layers[index + 1..];
      RemoveLayerOk(old(layers), index, layers, width, height, |autotileIds|);
      DeleteKeepsRegistry(r0, old(layers), width, height, autotileIds, catalog, index);
    }

    // ---- Animation ----

    /** The frame handler of Update, when the frame timer has passed: with
        animations shown, the count advances and every entry whose count is a
        multiple of its speed is redrawn at its new frame; `updateLayers` are the
        layers unlocked around the redraws, each once, in registry order. With
        animations hidden nothing happens. */
    method Tick(show: bool) returns (updateLayers: seq<int>, redraws: seq<Redraw>)
      requires Valid()
      modifies this`animateCount
      ensures Valid()
      ensures animateCount == old(animateCount) + (if show then 1 else 0)
      ensures show ==> updateLayers == Distinct(LayersOf(Due(registry, animateCount, catalog)))
      ensures show ==> redraws == TickRedraws(Due(registry, animateCount, catalog), animateCount, catalog)
      ensures !show ==> updateLayers == [] && redraws == []
    {
      if !show {
        return [], [];
      }
      animateCount := animateCount + 1;
      updateLayers := CollectDueLayers(registry, animateCount, catalog);
      redraws := CollectDueRedraws(registry, animateCount, catalog);
    }

    /** Switching map animations off advances the count and redraws every entry
        at its first frame; the layers of all entries are unlocked around the
        redraws, each once. Switching them on does nothing here. */
    method SetMapAnimations(animations: bool) returns (updateLayers: seq<int>, redraws: seq<Redraw>)
      requires Valid()
      modifies this`animateCount
      ensures Valid()
      ensures animateCount == old(animateCount) + (if animations then 0 else 1)
      ensures !animations ==> updateLayers == Distinct(LayersOf(registry)) && redraws == StillRedraws(registry)
      ensures animations ==> updateLayers == [] && redraws == []
    {
      if animations {
        return [], [];
      }
      animateCount := animateCount + 1;
      updateLayers := CollectLayers(registry);
      redraws := CollectStillRedraws(registry);
    }
  }
}
