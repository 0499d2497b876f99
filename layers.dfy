/** The registry of animated autotiles across whole layers: the rebuild that
    scans every layer, and what swapping, inserting and deleting layers must do
    to the registry so that it keeps naming the right layers. */
module LayerOps {
  import opened Tiles
  import opened AutotileShapes
  import opened Registry

  // ---- Rebuilding the registry from every layer ----

  /** The registry RedrawLayers builds: the scans of layers 0 to n - 1, in
      layer order. */
  function AllScans(layers: seq<Layer>, n: int, width: int, height: int, autotileIds: seq<int>,
                    catalog: seq<AutotileInfo>): (r: seq<AnimEntry>)
    requires 0 <= n <= |layers| && width >= 0 && height >= 0
    decreases n
  {
    if n == 0 then []
    else AllScans(layers, n - 1, width, height, autotileIds, catalog) +
         LayerScan(layers[n - 1].tiles, width, height, autotileIds, catalog, n - 1)
  }

  /** The entries a cell should have once layers 0 to n - 1 are scanned. */
  function ScanWant(layers: seq<Layer>, n: int, width: int, height: int, autotileIds: seq<int>,
                    catalog: seq<AutotileInfo>, l: int, x: int, y: int): seq<AnimEntry>
    requires n <= |layers|
  {
    if 0 <= l < n && InGrid(x, y, width, height)
    then ExpectedFor(CellAt(layers[l].tiles, width, height, x, y), autotileIds, catalog, l, x, y)
    else []
  }

  /** After scanning layers 0 to n - 1, every cell of those layers has exactly
      its expected entries and no other cell has any. */
  lemma {:induction false} AllScansEntries(layers: seq<Layer>, n: int, width: int, height: int,
                                           autotileIds: seq<int>, catalog: seq<AutotileInfo>,
                                           l: int, x: int, y: int)
    requires 0 <= n <= |layers| && width >= 0 && height >= 0
    ensures EntriesAt(AllScans(layers, n, width, height, autotileIds, catalog), l, x, y) ==
              ScanWant(layers, n, width, height, autotileIds, catalog, l, x, y)
  {
    if n > 0 {
      AllScansEntries(layers, n - 1, width, height, autotileIds, catalog, l, x, y);
      AllScansStep(layers, n, width, height, autotileIds, catalog, l, x, y);
    }
  }

  /** Scanning layer n - 1 after layers 0 to n - 2. */
  lemma AllScansStep(layers: seq<Layer>, n: int, width: int, height: int,
                     autotileIds: seq<int>, catalog: seq<AutotileInfo>, l: int, x: int, y: int)
    requires 0 < n <= |layers| && width >= 0 && height >= 0
    requires EntriesAt(AllScans(layers, n - 1, width, height, autotileIds, catalog), l, x, y) ==
               ScanWant(layers, n - 1, width, height, autotileIds, catalog, l, x, y)
    ensures EntriesAt(AllScans(layers, n, width, height, autotileIds, catalog), l, x, y) ==
              ScanWant(layers, n, width, height, autotileIds, catalog, l, x, y)
  {
    var head := AllScans(layers, n - 1, width, height, autotileIds, catalog);
    var scan := LayerScan(layers[n - 1].tiles, width, height, autotileIds, catalog, n - 1);
    LayerScanEntries(layers[n - 1].tiles, width, height, autotileIds, catalog, n - 1, l, x, y);
    var hw, sw := EntriesAt(head, l, x, y), EntriesAt(scan, l, x, y);
    Glue(head, scan, l, x, y, hw, sw);
    ScanWantStep(layers, n, width, height, autotileIds, catalog, l, x, y);
  }

  /** What layer n - 1 adds to a cell's expected entries. */
  lemma ScanWantStep(layers: seq<Layer>, n: int, width: int, height: int,
                     autotileIds: seq<int>, catalog: seq<AutotileInfo>, l: int, x: int, y: int)
    requires 0 < n <= |layers|
    ensures ScanWant(layers, n, width, height, autotileIds, catalog, l, x, y) ==
              ScanWant(layers, n - 1, width, height, autotileIds, catalog, l, x, y) +
              if l == n - 1 && InGrid(x, y, width, height)
              then ExpectedFor(CellAt(layers[n - 1].tiles, width, height, x, y), autotileIds, catalog, n - 1, x, y)
              else []
  {
    var prev := ScanWant(layers, n - 1, width, height, autotileIds, catalog, l, x, y);
    if l == n - 1 && InGrid(x, y, width, height) {
      assert prev == [];
    } else {
      assert prev + [] == prev;
    }
  }

  /** The entries of a cell in a joined registry, from those of its parts. */
  lemma Glue(head: seq<AnimEntry>, scan: seq<AnimEntry>, l: int, x: int, y: int, hw: seq<AnimEntry>, sw: seq<AnimEntry>)
    requires EntriesAt(head, l, x, y) == hw && EntriesAt(scan, l, x, y) == sw
    ensures EntriesAt(head + scan, l, x, y) == hw + sw
  {
    EntriesAtAppend(head, scan, l, x, y);
  }

  /** Every entry of the rebuilt registry names a cell of a scanned layer on the
      map, and its autotile animates. */
  lemma AllScansMembers(layers: seq<Layer>, n: int, width: int, height: int,
                        autotileIds: seq<int>, catalog: seq<AutotileInfo>)
    requires 0 <= n <= |layers| && width >= 0 && height >= 0
    ensures forall e :: e in AllScans(layers, n, width, height, autotileIds, catalog) ==>
              0 <= e.layer < n && InGrid(e.x, e.y, width, height) && Animates(e, catalog)
  {
    var reg := AllScans(layers, n, width, height, autotileIds, catalog);
    forall e | e in reg
      ensures 0 <= e.layer < n && InGrid(e.x, e.y, width, height) && Animates(e, catalog)
    {
      EntriesAtMembers(reg, e.layer, e.x, e.y, e);
      AllScansEntries(layers, n, width, height, autotileIds, catalog, e.layer, e.x, e.y);
    }
  }

  /** The rebuilt registry satisfies the registry invariant for the whole map. */
  lemma AllScansOk(layers: seq<Layer>, width: int, height: int, autotileIds: seq<int>, catalog: seq<AutotileInfo>)
    requires width >= 0 && height >= 0
    ensures RegistryOk(AllScans(layers, |layers|, width, height, autotileIds, catalog), layers, width, height,
                       autotileIds, catalog)
  {
    var reg := AllScans(layers, |layers|, width, height, autotileIds, catalog);
    AllScansMembers(layers, |layers|, width, height, autotileIds, catalog);
    forall l, x, y
      ensures CellRegistered(reg, layers, width, height, autotileIds, catalog, l, x, y)
    {
      AllScansEntries(layers, |layers|, width, height, autotileIds, catalog, l, x, y);
    }
  }

  // ---- Renumbering layers ----

  /** Renumbering the expected entries of a cell is the same as expecting them
      under the new layer number. */
  lemma RelabelExpected(c: Cell, autotileIds: seq<int>, catalog: seq<AutotileInfo>, l: int, x: int, y: int, f: int -> int)
    ensures Relabel(ExpectedFor(c, autotileIds, catalog, l, x, y), f) == ExpectedFor(c, autotileIds, catalog, f(l), x, y)
  {
    var r := ExpectedFor(c, autotileIds, catalog, l, x, y);
    if r != [] {
      assert r == [r[0]];
    }
  }

  /** A renumbering that sends the layer of every entry into the new layer
      range keeps every entry on the map and animating. */
  lemma RelabelInMap(reg: seq<AnimEntry>, f: int -> int, layerCount: int, width: int, height: int,
                     catalog: seq<AutotileInfo>)
    requires forall e :: e in reg ==> InGrid(e.x, e.y, width, height) && Animates(e, catalog)
    requires forall e :: e in reg ==> 0 <= f(e.layer) < layerCount
    ensures forall e :: e in Relabel(reg, f) ==> EntryInMap(e, layerCount, width, height) && Animates(e, catalog)
  {
    var r := Relabel(reg, f);
    forall e | e in r
      ensures EntryInMap(e, layerCount, width, height) && Animates(e, catalog)
    {
      var k :| 0 <= k < |r| && r[k] == e;
      assert reg[k] in reg;
    }
  }

  /** One cell of a renumbered registry: when layer l0 of the old layers is
      layer l of the new ones and only entries of l0 are renumbered to l, cell
      (x, y) of new layer l has its expected entries. */
  lemma RelabelCell(reg: seq<AnimEntry>, layers: seq<Layer>, layers': seq<Layer>, width: int, height: int,
                    autotileIds: seq<int>, catalog: seq<AutotileInfo>, f: int -> int, l: int, l0: int, x: int, y: int)
    requires CellRegistered(reg, layers, width, height, autotileIds, catalog, l0, x, y)
    requires 0 <= l0 < |layers| && 0 <= l < |layers'| && f(l0) == l && layers'[l] == layers[l0]
    requires forall e :: e in reg && f(e.layer) == l ==> e.layer == l0
    ensures CellRegistered(Relabel(reg, f), layers', width, height, autotileIds, catalog, l, x, y)
  {
    if InGrid(x, y, width, height) {
      RelabelEntries(reg, f, l, l0, x, y);
      RelabelExpected(CellAt(layers[l0].tiles, width, height, x, y), autotileIds, catalog, l0, x, y, f);
    }
  }

  /** SwapLayers, with the renumbering the source does: layers i and j trade
      places and so do the layer numbers of their entries, which keeps the
      registry invariant. */
  lemma SwapKeepsRegistry(reg: seq<AnimEntry>, layers: seq<Layer>, width: int, height: int,
                          autotileIds: seq<int>, catalog: seq<AutotileInfo>, i: int, j: int)
    requires RegistryOk(reg, layers, width, height, autotileIds, catalog)
    requires 0 <= i < |layers| && 0 <= j < |layers|
    ensures RegistryOk(Relabel(reg, SwapNumber(i, j)), layers[i := layers[j]][j := layers[i]], width, height,
                       autotileIds, catalog)
  {
    var f := SwapNumber(i, j);
    var layers' := layers[i := layers[j]][j := layers[i]];
    var reg' := Relabel(reg, f);
    forall e | e in reg'
      ensures EntryInMap(e, |layers'|, width, height)
    {
      var k :| 0 <= k < |reg'| && reg'[k] == e;
      assert reg[k] in reg;
    }
    forall l, x, y
      ensures CellRegistered(reg', layers', width, height, autotileIds, catalog, l, x, y)
    {
      if 0 <= l < |layers'| {
        assert CellRegistered(reg, layers, width, height, autotileIds, catalog, f(l), x, y);
        RelabelCell(reg, layers, layers', width, height, autotileIds, catalog, f, l, f(l), x, y);
      }
    }
  }

  /** CreateNewLayer, corrected: the entries of layers from `index` up are
      renumbered one higher, then the new layer is scanned. This keeps the
      registry invariant for the map with the layer inserted. */
  lemma InsertKeepsRegistry(reg: seq<AnimEntry>, layers: seq<Layer>, width: int, height: int,
                            autotileIds: seq<int>, catalog: seq<AutotileInfo>, index: int, layer: Layer)
    requires RegistryOk(reg, layers, width, height, autotileIds, catalog)
    requires 0 <= index <= |layers| && width >= 0 && height >= 0
    ensures RegistryOk(Relabel(reg, ShiftUp(index)) + LayerScan(layer.tiles, width, height, autotileIds, catalog, index),
                       layers[..index] + [layer] + layers[index..], width, height, autotileIds, catalog)
  {
    var f := ShiftUp(index);
    var layers' := layers[..index] + [layer] + layers[index..];
    var moved := Relabel(reg, f);
    var scan := LayerScan(layer.tiles, width, height, autotileIds, catalog, index);
    var reg' := moved + scan;
    forall e | e in reg'
      ensures EntryInMap(e, |layers'|, width, height)
    {
      if e in moved {
        var k :| 0 <= k < |moved| && moved[k] == e;
        assert reg[k] in reg;
      }
    }
    forall l, x, y
      ensures CellRegistered(reg', layers', width, height, autotileIds, catalog, l, x, y)
    {
      InsertCell(reg, layers, width, height, autotileIds, catalog, index, layer, l, x, y);
    }
  }

  /** One cell of InsertKeepsRegistry. */
  lemma InsertCell(reg: seq<AnimEntry>, layers: seq<Layer>, width: int, height: int,
                   autotileIds: seq<int>, catalog: seq<AutotileInfo>, index: int, layer: Layer, l: int, x: int, y: int)
    requires RegistryOk(reg, layers, width, height, autotileIds, catalog)
    requires 0 <= index <= |layers| && width >= 0 && height >= 0
    ensures CellRegistered(Relabel(reg, ShiftUp(index)) + LayerScan(layer.tiles, width, height, autotileIds, catalog, index),
                           layers[..index] + [layer] + layers[index..], width, height, autotileIds, catalog, l, x, y)
  {
    var f := ShiftUp(index);
    var layers' := layers[..index] + [layer] + layers[index..];
    var moved := Relabel(reg, f);
    var scan := LayerScan(layer.tiles, width, height, autotileIds, catalog, index);
    var reg' := moved + scan;
    EntriesAtAppend(moved, scan, l, x, y);
    LayerScanEntries(layer.tiles, width, height, autotileIds, catalog, index, l, x, y);
    if 0 <= l < |layers'| && InGrid(x, y, width, height) {
      if l == index {
        RelabelEntries(reg, f, l, index, x, y);
        assert EntriesAt(reg', l, x, y) == [] + EntriesAt(scan, l, x, y);
      } else {
        var l0 := if l < index then l else l - 1;
        assert CellRegistered(reg, layers, width, height, autotileIds, catalog, l0, x, y);
        RelabelCell(reg, layers, layers', width, height, autotileIds, catalog, f, l, l0, x, y);
        assert EntriesAt(reg', l, x, y) == EntriesAt(moved, l, x, y) + [];
      }
    }
  }

  // ---- Deleting a layer ----

  /** The removal loop of DeleteLayer over the rows above row y and the first x
      tiles of row y: for each tile of the deleted layer that is not empty, the
      first entry naming it is dropped. */
  function ClearScan(reg: seq<AnimEntry>, tiles: seq<Cell>, width: int, height: int, layer: int, x: int, y: int)
    : (r: seq<AnimEntry>)
    requires 0 <= x <= width && 0 <= y
    ensures forall e :: e in r ==> e in reg
    decreases y, x
  {
    if x == 0 then
      if y == 0 then reg else ClearScan(reg, tiles, width, height, layer, width, y - 1)
    else
      var r := ClearScan(reg, tiles, width, height, layer, x - 1, y);
      if CellAt(tiles, width, height, x - 1, y).Some? then RemoveFirstAt(r, layer, x - 1, y) else r
  }

  /** The entries a cell keeps once the removal loop has passed the rows above
      row y and the first x tiles of row y: one fewer when it is a non-empty
      tile of the deleted layer that has been passed. */
  function ClearWant(reg: seq<AnimEntry>, tiles: seq<Cell>, width: int, height: int, layer: int, x: int, y: int,
                     l: int, qx: int, qy: int): seq<AnimEntry>
  {
    if l == layer && Before(qx, qy, x, y, width) && CellAt(tiles, width, height, qx, qy).Some?
    then Drop1(EntriesAt(reg, l, qx, qy))
    else EntriesAt(reg, l, qx, qy)
  }

  /** The removal loop drops the first entry of each non-empty tile it has
      passed and leaves the entries of every other cell alone. */
  lemma {:induction false} ClearScanEntries(reg: seq<AnimEntry>, tiles: seq<Cell>, width: int, height: int,
                                            layer: int, x: int, y: int, l: int, qx: int, qy: int)
    requires 0 <= x <= width && 0 <= y
    ensures EntriesAt(ClearScan(reg, tiles, width, height, layer, x, y), l, qx, qy) ==
              ClearWant(reg, tiles, width, height, layer, x, y, l, qx, qy)
    decreases y, x
  {
    if x == 0 {
      if y > 0 {
        ClearScanEntries(reg, tiles, width, height, layer, width, y - 1, l, qx, qy);
        assert Before(qx, qy, 0, y, width) == Before(qx, qy, width, y - 1, width);
      }
    } else {
      ClearScanEntries(reg, tiles, width, height, layer, x - 1, y, l, qx, qy);
      ClearScanStep(reg, tiles, width, height, layer, x, y, l, qx, qy);
    }
  }

  /** The removal loop's visit of tile (x - 1, y). */
  lemma ClearScanStep(reg: seq<AnimEntry>, tiles: seq<Cell>, width: int, height: int,
                      layer: int, x: int, y: int, l: int, qx: int, qy: int)
    requires 0 < x <= width && 0 <= y
    requires EntriesAt(ClearScan(reg, tiles, width, height, layer, x - 1, y), l, qx, qy) ==
               ClearWant(reg, tiles, width, height, layer, x - 1, y, l, qx, qy)
    ensures EntriesAt(ClearScan(reg, tiles, width, height, layer, x, y), l, qx, qy) ==
              ClearWant(reg, tiles, width, height, layer, x, y, l, qx, qy)
  {
    var r := ClearScan(reg, tiles, width, height, layer, x - 1, y);
    var cleared := ClearScan(reg, tiles, width, height, layer, x, y);
    var hit := CellAt(tiles, width, height, x - 1, y).Some? && l == layer && qx == x - 1 && qy == y;
    var now, prev := EntriesAt(cleared, l, qx, qy), EntriesAt(r, l, qx, qy);
    if CellAt(tiles, width, height, x - 1, y).Some? {
      assert cleared == RemoveFirstAt(r, layer, x - 1, y);
      RemoveFirstAtEntries(r, layer, x - 1, y, l, qx, qy);
    } else {
      assert cleared == r;
    }
    assert now == if hit then Drop1(prev) else prev;
    ClearWantStep(reg, tiles, width, height, layer, x, y, l, qx, qy);
    DropWhenHit(now, prev, ClearWant(reg, tiles, width, height, layer, x, y, l, qx, qy),
                ClearWant(reg, tiles, width, height, layer, x - 1, y, l, qx, qy), hit);
  }

  /** Two sequences that start equal and lose their first element under the
      same condition end equal. */
  lemma DropWhenHit(now: seq<AnimEntry>, prev: seq<AnimEntry>, wantNow: seq<AnimEntry>, wantPrev: seq<AnimEntry>, hit: bool)
    requires prev == wantPrev
    requires now == if hit then Drop1(prev) else prev
    requires wantNow == if hit then Drop1(wantPrev) else wantPrev
    ensures now == wantNow
  {
  }

  /** Passing tile (x - 1, y) takes one entry off that tile, if it is not empty,
      and changes what no other cell keeps. */
  lemma ClearWantStep(reg: seq<AnimEntry>, tiles: seq<Cell>, width: int, height: int,
                      layer: int, x: int, y: int, l: int, qx: int, qy: int)
    requires 0 < x <= width && 0 <= y
    ensures ClearWant(reg, tiles, width, height, layer, x, y, l, qx, qy) ==
              if CellAt(tiles, width, height, x - 1, y).Some? && l == layer && qx == x - 1 && qy == y
              then Drop1(ClearWant(reg, tiles, width, height, layer, x - 1, y, l, qx, qy))
              else ClearWant(reg, tiles, width, height, layer, x - 1, y, l, qx, qy)
  {
    if l == layer && qx == x - 1 && qy == y {
      assert !Before(qx, qy, x - 1, y, width) && Before(qx, qy, x, y, width);
    } else {
      assert l == layer ==> Before(qx, qy, x, y, width) == Before(qx, qy, x - 1, y, width);
    }
  }

  /** Under the registry invariant the removal loop leaves no entry of the
      deleted layer and keeps every entry of the others. */
  lemma ClearScanRemovesLayer(reg: seq<AnimEntry>, layers: seq<Layer>, width: int, height: int,
                              autotileIds: seq<int>, catalog: seq<AutotileInfo>, index: int, l: int, x: int, y: int)
    requires RegistryOk(reg, layers, width, height, autotileIds, catalog)
    requires 0 <= index < |layers| && width >= 0 && height >= 0
    ensures EntriesAt(ClearScan(reg, layers[index].tiles, width, height, index, 0, height), l, x, y) ==
              if l == index then [] else EntriesAt(reg, l, x, y)
  {
    var t := layers[index].tiles;
    ClearScanEntries(reg, t, width, height, index, 0, height, l, x, y);
    if l == index {
      assert CellRegistered(reg, layers, width, height, autotileIds, catalog, l, x, y);
      if !InGrid(x, y, width, height) && EntriesAt(reg, l, x, y) != [] {
        var e := EntriesAt(reg, l, x, y)[0];
        EntriesAtMembers(reg, l, x, y, e);
        assert false;
      }
    }
  }

  /** Under the registry invariant no entry of the deleted layer survives the
      removal loop. */
  lemma ClearScanNoLayer(reg: seq<AnimEntry>, layers: seq<Layer>, width: int, height: int,
                         autotileIds: seq<int>, catalog: seq<AutotileInfo>, index: int)
    requires RegistryOk(reg, layers, width, height, autotileIds, catalog)
    requires 0 <= index < |layers| && width >= 0 && height >= 0
    ensures forall e :: e in ClearScan(reg, layers[index].tiles, width, height, index, 0, height) ==> e.layer != index
  {
    var cleared := ClearScan(reg, layers[index].tiles, width, height, index, 0, height);
    forall e | e in cleared
      ensures e.layer != index
    {
      ClearScanRemovesLayer(reg, layers, width, height, autotileIds, catalog, index, e.layer, e.x, e.y);
      EntriesAtMembers(cleared, e.layer, e.x, e.y, e);
    }
  }

  /** DeleteLayer, corrected: after the removal loop the entries of the layers
      above the deleted one are renumbered one lower. This keeps the registry
      invariant for the map with the layer removed. */
  lemma DeleteKeepsRegistry(reg: seq<AnimEntry>, layers: seq<Layer>, width: int, height: int,
                            autotileIds: seq<int>, catalog: seq<AutotileInfo>, index: int)
    requires RegistryOk(reg, layers, width, height, autotileIds, catalog)
    requires 0 <= index < |layers| && width >= 0 && height >= 0
    ensures RegistryOk(Relabel(ClearScan(reg, layers[index].tiles, width, height, index, 0, height), ShiftDown(index)),
                       layers[..index] + layers[index + 1..], width, height, autotileIds, catalog)
  {
    var f := ShiftDown(index);
    var cleared := ClearScan(reg, layers[index].tiles, width, height, index, 0, height);
    var layers' := layers[..index] + layers[index + 1..];
    var reg' := Relabel(cleared, f);
    ClearScanNoLayer(reg, layers, width, height, autotileIds, catalog, index);
    forall e | e in reg'
      ensures EntryInMap(e, |layers'|, width, height)
    {
      var k :| 0 <= k < |reg'| && reg'[k] == e;
      assert cleared[k] in cleared;
    }
    forall l, x, y
      ensures CellRegistered(reg', layers', width, height, autotileIds, catalog, l, x, y)
    {
      if 0 <= l < |layers'| {
        DeleteCell(reg, layers, width, height, autotileIds, catalog, index, l, x, y);
      }
    }
  }

  /** One cell of DeleteKeepsRegistry: cell (x, y) of new layer l is cell (x, y)
      of old layer l, or of old layer l + 1 from the deleted index up. */
  lemma DeleteCell(reg: seq<AnimEntry>, layers: seq<Layer>, width: int, height: int,
                   autotileIds: seq<int>, catalog: seq<AutotileInfo>, index: int, l: int, x: int, y: int)
    requires RegistryOk(reg, layers, width, height, autotileIds, catalog)
    requires 0 <= index < |layers| && width >= 0 && height >= 0 && 0 <= l < |layers| - 1
    requires forall e :: e in ClearScan(reg, layers[index].tiles, width, height, index, 0, height) ==> e.layer != index
    ensures CellRegistered(Relabel(ClearScan(reg, layers[index].tiles, width, height, index, 0, height), ShiftDown(index)),
                           layers[..index] + layers[index + 1..], width, height, autotileIds, catalog, l, x, y)
  {
    var cleared := ClearScan(reg, layers[index].tiles, width, height, index, 0, height);
    var l0 := if l < index then l else l + 1;
    var rest := layers[..index] + layers[index + 1..];
    ClearScanRemovesLayer(reg, layers, width, height, autotileIds, catalog, index, l0, x, y);
    assert CellRegistered(reg, layers, width, height, autotileIds, catalog, l0, x, y);
    DeletedSlot(layers, index, l);
    ShiftDownFrom(cleared, index, l, l0);
    RelabelCell(cleared, layers, rest, width, height, autotileIds, catalog, ShiftDown(index), l, l0, x, y);
  }

  /** Layer l after the deletion of layer `index` is old layer l below the
      deleted index and old layer l + 1 from it up. */
  lemma DeletedSlot(layers: seq<Layer>, index: int, l: int)
    requires 0 <= index < |layers| && 0 <= l < |layers| - 1
    ensures var rest := layers[..index] + layers[index + 1..];
      |rest| == |layers| - 1 && rest[l] == layers[if l < index then l else l + 1]
  {
  }

  /** Once no entry names the deleted layer, the only entries the shift down
      renumbers to l are those of old layer l0. */
  lemma ShiftDownFrom(reg: seq<AnimEntry>, index: int, l: int, l0: int)
    requires forall e :: e in reg ==> e.layer != index
    requires l0 == if l < index then l else l + 1
    ensures forall e :: e in reg && ShiftDown(index)(e.layer) == l ==> e.layer == l0
  {
  }

  // ---- The layer operations as written (see Findings in README) ----

  /** A one-tile map whose only autotile animates. */
  const SampleIds: seq<int> := [0]
  const SampleCatalog: seq<AutotileInfo> := [AutotileInfo(false, 5, 96)]
  const AnimatedLayer: Layer := Layer("Layer 1", [Some(TileData(Autotile, 0, 0))], true)
  const EmptyLayer: Layer := Layer("Layer 2", [None], true)

  /** CreateNewLayer as written scans the new layer but does not renumber the
      entries of the layers it moves up: inserting an empty layer below a layer
      holding an animated autotile leaves that autotile's entry naming the empty
      layer, so the tick redraws the autotile onto the wrong layer. */
  lemma InsertAsWrittenBreaksRegistry()
    ensures RegistryOk(AllScans([AnimatedLayer], 1, 1, 1, SampleIds, SampleCatalog), [AnimatedLayer], 1, 1,
                       SampleIds, SampleCatalog)
    ensures !RegistryOk(AllScans([AnimatedLayer], 1, 1, 1, SampleIds, SampleCatalog) +
                          LayerScan(EmptyLayer.tiles, 1, 1, SampleIds, SampleCatalog, 0),
                        [EmptyLayer, AnimatedLayer], 1, 1, SampleIds, SampleCatalog)
  {
    var reg := AllScans([AnimatedLayer], 1, 1, 1, SampleIds, SampleCatalog);
    var scan := LayerScan(EmptyLayer.tiles, 1, 1, SampleIds, SampleCatalog, 0);
    AllScansOk([AnimatedLayer], 1, 1, SampleIds, SampleCatalog);
    AllScansEntries([AnimatedLayer], 1, 1, 1, SampleIds, SampleCatalog, 0, 0, 0);
    LayerScanEntries(EmptyLayer.tiles, 1, 1, SampleIds, SampleCatalog, 0, 0, 0, 0);
    EntriesAtAppend(reg, scan, 0, 0, 0);
    assert CellAt(AnimatedLayer.tiles, 1, 1, 0, 0) == Some(TileData(Autotile, 0, 0));
    assert CellAt(EmptyLayer.tiles, 1, 1, 0, 0) == None;
    assert !CellRegistered(reg + scan, [EmptyLayer, AnimatedLayer], 1, 1, SampleIds, SampleCatalog, 0, 0, 0);
  }

  /** DeleteLayer as written removes the deleted layer's entries but does not
      renumber the entries of the layers above it: deleting an empty layer 0
      below an animated autotile leaves an entry naming layer 1 of a map that
      now has one layer, whose sprite the tick then looks up and does not find. */
  lemma DeleteAsWrittenBreaksRegistry()
    ensures RegistryOk(AllScans([EmptyLayer, AnimatedLayer], 2, 1, 1, SampleIds, SampleCatalog),
                       [EmptyLayer, AnimatedLayer], 1, 1, SampleIds, SampleCatalog)
    ensures AnimEntry(1, 0, 0, 0, 0) in
              ClearScan(AllScans([EmptyLayer, AnimatedLayer], 2, 1, 1, SampleIds, SampleCatalog), EmptyLayer.tiles,
                        1, 1, 0, 0, 1)
    ensures !RegistryOk(ClearScan(AllScans([EmptyLayer, AnimatedLayer], 2, 1, 1, SampleIds, SampleCatalog),
                                  EmptyLayer.tiles, 1, 1, 0, 0, 1),
                        [AnimatedLayer], 1, 1, SampleIds, SampleCatalog)
  {
    var layers := [EmptyLayer, AnimatedLayer];
    var reg := AllScans(layers, 2, 1, 1, SampleIds, SampleCatalog);
    var cleared := ClearScan(reg, EmptyLayer.tiles, 1, 1, 0, 0, 1);
    AllScansOk(layers, 1, 1, SampleIds, SampleCatalog);
    AllScansEntries(layers, 2, 1, 1, SampleIds, SampleCatalog, 1, 0, 0);
    ClearScanEntries(reg, EmptyLayer.tiles, 1, 1, 0, 0, 1, 1, 0, 0);
    assert CellAt(AnimatedLayer.tiles, 1, 1, 0, 0) == Some(TileData(Autotile, 0, 0));
    var e := AnimEntry(1, 0, 0, 0, 0);
    assert EntriesAt(cleared, 1, 0, 0) == [e];
    EntriesAtMembers(cleared, 1, 0, 0, e);
    assert !EntryInMap(e, 1, 1, 1);
  }
}
