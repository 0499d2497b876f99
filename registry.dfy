/** The registry of animated autotiles kept beside the layer bitmaps: one entry
    [layer, x, y, global autotile ID, shape ID] for every placed autotile whose
    catalog entry animates, so that the tick can redraw exactly those cells. */
module Registry {
  import opened Tiles
  import opened AutotileShapes

  /** What the model needs of a global autotile catalog entry: whether it is a
      single-image autotile, how many ticks a frame lasts (0 = not animated) and
      the width of its image in pixels. */
  datatype AutotileInfo = AutotileInfo(single: bool, animateSpeed: int, imageWidth: int)

  datatype AnimEntry = AnimEntry(layer: int, x: int, y: int, autotile: int, shape: int)

  predicate IsAt(e: AnimEntry, layer: int, x: int, y: int)
  {
    e.layer == layer && e.x == x && e.y == y
  }

  /** The entries the registry holds for one cell, in registry order. */
  function EntriesAt(reg: seq<AnimEntry>, layer: int, x: int, y: int): (r: seq<AnimEntry>)
    ensures |r| <= |reg|
  {
    if reg == [] then []
    else (if IsAt(reg[0], layer, x, y) then [reg[0]] else []) + EntriesAt(reg[1..], layer, x, y)
  }

  /** The entries of a cell are exactly the registry's entries that name it. */
  lemma {:induction false} EntriesAtMembers(reg: seq<AnimEntry>, layer: int, x: int, y: int, e: AnimEntry)
    ensures e in EntriesAt(reg, layer, x, y) <==> e in reg && IsAt(e, layer, x, y)
  {
    if reg != [] {
      EntriesAtMembers(reg[1..], layer, x, y, e);
      assert e in reg <==> e == reg[0] || e in reg[1..];
    }
  }

  lemma {:induction false} EntriesAtAppend(a: seq<AnimEntry>, b: seq<AnimEntry>, layer: int, x: int, y: int)
    ensures EntriesAt(a + b, layer, x, y) == EntriesAt(a, layer, x, y) + EntriesAt(b, layer, x, y)
  {
    if a == [] {
      assert a + b == b;
    } else {
      var h := if IsAt(a[0], layer, x, y) then [a[0]] else [];
      var ta, eb := EntriesAt(a[1..], layer, x, y), EntriesAt(b, layer, x, y);
      assert (a + b)[0] == a[0] && (a + b)[1..] == a[1..] + b;
      assert EntriesAt(a + b, layer, x, y) == h + EntriesAt(a[1..] + b, layer, x, y);
      EntriesAtAppend(a[1..], b, layer, x, y);
      assert h + (ta + eb) == (h + ta) + eb;
    }
  }

  /** A sequence without its first element, if it has one. */
  function Drop1<T>(s: seq<T>): (r: seq<T>)
    ensures s == [] ==> r == []
    ensures s != [] ==> r == s[1..]
  {
    if s == [] then [] else s[1..]
  }

  /** The removal loops at the start of DrawTile and of the shape write in
      UpdateAutotiles: drop the first entry recorded for the cell, if any. */
  function RemoveFirstAt(reg: seq<AnimEntry>, layer: int, x: int, y: int): (r: seq<AnimEntry>)
    ensures |r| == |reg| - (if EntriesAt(reg, layer, x, y) == [] then 0 else 1)
    ensures forall e :: e in r ==> e in reg
  {
    if reg == [] then []
    else if IsAt(reg[0], layer, x, y) then reg[1..]
    else [reg[0]] + RemoveFirstAt(reg[1..], layer, x, y)
  }

  /** Removing the first entry of one cell drops exactly that entry from the
      cell's entries and leaves every other cell's entries as they were. */
  lemma {:induction false} RemoveFirstAtEntries(reg: seq<AnimEntry>, layer: int, x: int, y: int, l: int, qx: int, qy: int)
    ensures EntriesAt(RemoveFirstAt(reg, layer, x, y), l, qx, qy) ==
      if l == layer && qx == x && qy == y then Drop1(EntriesAt(reg, l, qx, qy)) else EntriesAt(reg, l, qx, qy)
  {
    if reg != [] && !IsAt(reg[0], layer, x, y) {
      RemoveFirstAtEntries(reg[1..], layer, x, y, l, qx, qy);
      EntriesAtAppend([reg[0]], RemoveFirstAt(reg[1..], layer, x, y), l, qx, qy);
    }
  }

  /** What the loop with `break` computes: when no entry before index k is at the
      cell and entry k is, the first entry at the cell is entry k. */
  lemma {:induction false} RemoveFirstAtSplit(reg: seq<AnimEntry>, layer: int, x: int, y: int, k: int)
    requires 0 <= k < |reg| && IsAt(reg[k], layer, x, y)
    requires forall i :: 0 <= i < k ==> !IsAt(reg[i], layer, x, y)
    ensures RemoveFirstAt(reg, layer, x, y) == reg[..k] + reg[k + 1..]
  {
    if k > 0 {
      RemoveFirstAtSplit(reg[1..], layer, x, y, k - 1);
      assert reg[1..][..k - 1] == reg[1..k];
      assert reg[..k] == [reg[0]] + reg[1..k];
    }
  }

  /** When no entry is at the cell the loop finds nothing and removes nothing. */
  lemma {:induction false} RemoveFirstAtAbsent(reg: seq<AnimEntry>, layer: int, x: int, y: int)
    requires forall i :: 0 <= i < |reg| ==> !IsAt(reg[i], layer, x, y)
    ensures RemoveFirstAt(reg, layer, x, y) == reg
  {
    if reg != [] {
      RemoveFirstAtAbsent(reg[1..], layer, x, y);
    }
  }

  /** The entry the registry is meant to hold for a cell c at (x, y) of layer l:
      one entry when c holds an autotile whose catalog entry animates, carrying the
      global autotile ID and the cell's shape ID; none otherwise. */
  function ExpectedFor(c: Cell, autotileIds: seq<int>, catalog: seq<AutotileInfo>, l: int, x: int, y: int): (r: seq<AnimEntry>)
    ensures |r| <= 1
    ensures r != [] ==> IsAt(r[0], l, x, y) && Group(c).Some? && r[0].shape == c.value.id
    ensures r != [] ==> 0 <= r[0].autotile < |catalog| && catalog[r[0].autotile].animateSpeed > 0
    ensures Group(c).Some? && SpeedOf(autotileIds, catalog, c.value.index) > 0 ==> r != []
  {
    if c.Some? && c.value.kind == Autotile && SpeedOf(autotileIds, catalog, c.value.index) > 0
    then [AnimEntry(l, x, y, autotileIds[c.value.index], c.value.id)]
    else []
  }

  /** The animation speed of local autotile g of the map, 0 when g or its global
      ID is out of range. */
  function SpeedOf(autotileIds: seq<int>, catalog: seq<AutotileInfo>, g: int): (s: int)
    ensures s > 0 ==> 0 <= g < |autotileIds| && 0 <= autotileIds[g] < |catalog|
  {
    if 0 <= g < |autotileIds| && 0 <= autotileIds[g] < |catalog| then catalog[autotileIds[g]].animateSpeed else 0
  }

  /** The catalog entry an entry names exists and animates, so the tick may divide
      by its speed. */
  predicate Animates(e: AnimEntry, catalog: seq<AutotileInfo>)
  {
    0 <= e.autotile < |catalog| && catalog[e.autotile].animateSpeed > 0
  }

  ghost predicate AllAnimate(reg: seq<AnimEntry>, catalog: seq<AutotileInfo>)
  {
    forall e :: e in reg ==> Animates(e, catalog)
  }

  lemma AllAnimateAt(reg: seq<AnimEntry>, catalog: seq<AutotileInfo>)
    requires AllAnimate(reg, catalog)
    ensures forall i :: 0 <= i < |reg| ==> Animates(reg[i], catalog)
  {
    forall i | 0 <= i < |reg|
      ensures Animates(reg[i], catalog)
    {
      assert reg[i] in reg;
    }
  }

  predicate EntryInMap(e: AnimEntry, layerCount: int, width: int, height: int)
  {
    0 <= e.layer < layerCount && InGrid(e.x, e.y, width, height)
  }

  /** The registry invariant: every entry points into the map, and every cell of
      every layer has exactly the entries it is meant to have, so positions are
      unique, each entry agrees with its cell, and no animated cell is missed. */
  ghost predicate RegistryOk(reg: seq<AnimEntry>, layers: seq<Layer>, width: int, height: int,
                       autotileIds: seq<int>, catalog: seq<AutotileInfo>)
  {
    && (forall e :: e in reg ==> EntryInMap(e, |layers|, width, height))
    && (forall l, x, y :: CellRegistered(reg, layers, width, height, autotileIds, catalog, l, x, y))
  }

  /** One cell of RegistryOk: a cell on the map has exactly the entries its tile
      calls for. */
  predicate CellRegistered(reg: seq<AnimEntry>, layers: seq<Layer>, width: int, height: int,
                           autotileIds: seq<int>, catalog: seq<AutotileInfo>, l: int, x: int, y: int)
  {
    0 <= l < |layers| && InGrid(x, y, width, height) ==>
      EntriesAt(reg, l, x, y) == ExpectedFor(CellAt(layers[l].tiles, width, height, x, y), autotileIds, catalog, l, x, y)
  }

  /** Under the invariant, every entry agrees with the cell it names and its
      autotile animates; the tick therefore never divides by a zero speed. */
  lemma RegistryOkSound(reg: seq<AnimEntry>, layers: seq<Layer>, width: int, height: int,
                        autotileIds: seq<int>, catalog: seq<AutotileInfo>, i: int)
    requires RegistryOk(reg, layers, width, height, autotileIds, catalog)
    requires 0 <= i < |reg|
    ensures EntryInMap(reg[i], |layers|, width, height)
    ensures 0 <= reg[i].autotile < |catalog| && catalog[reg[i].autotile].animateSpeed > 0
    ensures Group(CellAt(layers[reg[i].layer].tiles, width, height, reg[i].x, reg[i].y)).Some?
  {
    var e := reg[i];
    assert e in reg;
    assert CellRegistered(reg, layers, width, height, autotileIds, catalog, e.layer, e.x, e.y);
    EntriesAtMembers(reg, e.layer, e.x, e.y, e);
  }

  /** Under the invariant no two entries name the same cell. */
  lemma RegistryOkUnique(reg: seq<AnimEntry>, layers: seq<Layer>, width: int, height: int,
                         autotileIds: seq<int>, catalog: seq<AutotileInfo>, l: int, x: int, y: int)
    requires RegistryOk(reg, layers, width, height, autotileIds, catalog)
    ensures |EntriesAt(reg, l, x, y)| <= 1
  {
    assert CellRegistered(reg, layers, width, height, autotileIds, catalog, l, x, y);
    if !(0 <= l < |layers| && InGrid(x, y, width, height)) {
      if EntriesAt(reg, l, x, y) != [] {
        var e := EntriesAt(reg, l, x, y)[0];
        EntriesAtMembers(reg, l, x, y, e);
      }
    }
  }

  // ---- Renumbering layers ----

  /** Apply a renumbering of layers to the layer field of every entry. */
  function Relabel(reg: seq<AnimEntry>, f: int -> int): (r: seq<AnimEntry>)
    ensures |r| == |reg|
    ensures forall i :: 0 <= i < |reg| ==> r[i] == reg[i].(layer := f(reg[i].layer))
  {
    if reg == [] then [] else [reg[0].(layer := f(reg[0].layer))] + Relabel(reg[1..], f)
  }

  /** After a renumbering, the entries of cell (x, y) on layer l are the renumbered
      entries of the one layer l0 that maps to l (if any entry maps there at all). */
  lemma {:induction false} RelabelEntries(reg: seq<AnimEntry>, f: int -> int, l: int, l0: int, x: int, y: int)
    requires forall e :: e in reg && f(e.layer) == l ==> e.layer == l0
    ensures EntriesAt(Relabel(reg, f), l, x, y) ==
      if f(l0) == l then Relabel(EntriesAt(reg, l0, x, y), f) else []
  {
    if reg != [] {
      RelabelEntries(reg[1..], f, l, l0, x, y);
      assert Relabel(reg, f) == [reg[0].(layer := f(reg[0].layer))] + Relabel(reg[1..], f);
      if f(l0) == l && IsAt(reg[0], l0, x, y) {
        assert Relabel([reg[0]] + EntriesAt(reg[1..], l0, x, y), f)
          == [reg[0].(layer := f(reg[0].layer))] + Relabel(EntriesAt(reg[1..], l0, x, y), f);
      }
    }
  }

  /** SwapLayers: entries of layer i move to j and entries of layer j move to i. */
  function SwapNumber(i: int, j: int): (f: int -> int)
    ensures f(i) == j && f(j) == i
    ensures forall l :: l != i && l != j ==> f(l) == l
  {
    l => if l == i then j else if l == j then i else l
  }

  /** Inserting a layer at `index`: layers from `index` up move up by one. */
  function ShiftUp(index: int): (f: int -> int)
    ensures forall l :: l < index ==> f(l) == l
    ensures forall l :: l >= index ==> f(l) == l + 1
  {
    l => if l >= index then l + 1 else l
  }

  /** Deleting layer `index`: layers above it move down by one. */
  function ShiftDown(index: int): (f: int -> int)
    ensures forall l :: l <= index ==> f(l) == l
    ensures forall l :: l > index ==> f(l) == l - 1
  {
    l => if l > index then l - 1 else l
  }

  // ---- The registrations made while building a layer bitmap ----

  /** Tile (qx, qy) comes before position (x, y) of a row-major scan of a map
      `width` tiles wide. */
  predicate Before(qx: int, qy: int, x: int, y: int, width: int)
  {
    0 <= qx < width && 0 <= qy && (qy < y || (qy == y && qx < x))
  }

  /** The registrations GetLayerBitmap makes for layer `layer` with tiles `tiles`
      over the rows above row y and the first x tiles of row y, in row-major
      order: each tile's expected entry. */
  function ScanTo(tiles: seq<Cell>, width: int, height: int, autotileIds: seq<int>, catalog: seq<AutotileInfo>,
                  layer: int, x: int, y: int): (r: seq<AnimEntry>)
    requires 0 <= x <= width && 0 <= y
    decreases y, x
  {
    if x == 0 then
      if y == 0 then [] else ScanTo(tiles, width, height, autotileIds, catalog, layer, width, y - 1)
    else
      var head := ScanTo(tiles, width, height, autotileIds, catalog, layer, x - 1, y);
      head + ExpectedFor(CellAt(tiles, width, height, x - 1, y), autotileIds, catalog, layer, x - 1, y)
  }

  /** The whole scan of a layer. */
  function LayerScan(tiles: seq<Cell>, width: int, height: int, autotileIds: seq<int>, catalog: seq<AutotileInfo>,
                     layer: int): (r: seq<AnimEntry>)
    requires width >= 0 && height >= 0
    ensures forall e :: e in r ==> e.layer == layer && InGrid(e.x, e.y, width, height) && Animates(e, catalog)
  {
    ScanMembers(tiles, width, height, autotileIds, catalog, layer, 0, height);
    ScanTo(tiles, width, height, autotileIds, catalog, layer, 0, height)
  }

  /** The entries cell (qx, qy) of layer l should have once the scan has passed
      the rows above row y and the first x tiles of row y. */
  function ScanToWant(tiles: seq<Cell>, width: int, height: int, autotileIds: seq<int>, catalog: seq<AutotileInfo>,
                      layer: int, x: int, y: int, l: int, qx: int, qy: int): seq<AnimEntry>
  {
    if l == layer && Before(qx, qy, x, y, width)
    then ExpectedFor(CellAt(tiles, width, height, qx, qy), autotileIds, catalog, layer, qx, qy)
    else []
  }

  /** The scan registers each tile it has passed exactly as the tile calls for,
      and nothing for tiles it has not reached or for other layers. */
  lemma {:induction false} ScanToEntries(tiles: seq<Cell>, width: int, height: int, autotileIds: seq<int>,
                                         catalog: seq<AutotileInfo>, layer: int, x: int, y: int,
                                         l: int, qx: int, qy: int)
    requires 0 <= x <= width && 0 <= y
    ensures EntriesAt(ScanTo(tiles, width, height, autotileIds, catalog, layer, x, y), l, qx, qy) ==
              ScanToWant(tiles, width, height, autotileIds, catalog, layer, x, y, l, qx, qy)
    decreases y, x, 1
  {
    if x == 0 {
      ScanRowStart(tiles, width, height, autotileIds, catalog, layer, x, y, l, qx, qy);
    } else {
      ScanCellStep(tiles, width, height, autotileIds, catalog, layer, x, y, l, qx, qy);
    }
  }

  /** At the start of a row the scan holds what it held at the end of the row
      above. */
  lemma {:induction false} ScanRowStart(tiles: seq<Cell>, width: int, height: int, autotileIds: seq<int>,
                                         catalog: seq<AutotileInfo>, layer: int, x: int, y: int,
                                         l: int, qx: int, qy: int)
    requires x == 0 <= width && 0 <= y
    ensures EntriesAt(ScanTo(tiles, width, height, autotileIds, catalog, layer, x, y), l, qx, qy) ==
              ScanToWant(tiles, width, height, autotileIds, catalog, layer, x, y, l, qx, qy)
    decreases y, x, 0
  {
    var scan := ScanTo(tiles, width, height, autotileIds, catalog, layer, x, y);
    if y > 0 {
      ScanToEntries(tiles, width, height, autotileIds, catalog, layer, width, y - 1, l, qx, qy);
      assert scan == ScanTo(tiles, width, height, autotileIds, catalog, layer, width, y - 1);
      assert Before(qx, qy, 0, y, width) == Before(qx, qy, width, y - 1, width);
    } else {
      assert scan == [] && !Before(qx, qy, x, y, width);
    }
  }

  /** One step of the scan adds the expected entries of the tile it passes. */
  lemma {:induction false} ScanCellStep(tiles: seq<Cell>, width: int, height: int, autotileIds: seq<int>,
                                         catalog: seq<AutotileInfo>, layer: int, x: int, y: int,
                                         l: int, qx: int, qy: int)
    requires 0 < x <= width && 0 <= y
    ensures EntriesAt(ScanTo(tiles, width, height, autotileIds, catalog, layer, x, y), l, qx, qy) ==
              ScanToWant(tiles, width, height, autotileIds, catalog, layer, x, y, l, qx, qy)
    decreases y, x, 0
  {
    var head := ScanTo(tiles, width, height, autotileIds, catalog, layer, x - 1, y);
    var added := ExpectedFor(CellAt(tiles, width, height, x - 1, y), autotileIds, catalog, layer, x - 1, y);
    var scan := ScanTo(tiles, width, height, autotileIds, catalog, layer, x, y);
    assert scan == head + added;
    EntriesAtAppend(head, added, l, qx, qy);
    ScanToEntries(tiles, width, height, autotileIds, catalog, layer, x - 1, y, l, qx, qy);
    ExpectedEntries(CellAt(tiles, width, height, x - 1, y), autotileIds, catalog, layer, x - 1, y, l, qx, qy);
    ScanToWantStep(tiles, width, height, autotileIds, catalog, layer, x, y, l, qx, qy);
  }

  /** Passing tile (x - 1, y) adds that tile's expected entries to its own cell
      and nothing to any other. */
  lemma ScanToWantStep(tiles: seq<Cell>, width: int, height: int, autotileIds: seq<int>,
                       catalog: seq<AutotileInfo>, layer: int, x: int, y: int, l: int, qx: int, qy: int)
    requires 0 < x <= width && 0 <= y
    ensures ScanToWant(tiles, width, height, autotileIds, catalog, layer, x, y, l, qx, qy) ==
              ScanToWant(tiles, width, height, autotileIds, catalog, layer, x - 1, y, l, qx, qy) +
              if l == layer && qx == x - 1 && qy == y
              then ExpectedFor(CellAt(tiles, width, height, x - 1, y), autotileIds, catalog, layer, x - 1, y)
              else []
  {
    var prev := ScanToWant(tiles, width, height, autotileIds, catalog, layer, x - 1, y, l, qx, qy);
    if l == layer && qx == x - 1 && qy == y {
      assert !Before(qx, qy, x - 1, y, width) && Before(qx, qy, x, y, width);
      assert prev == [];
    } else {
      assert l == layer ==> Before(qx, qy, x, y, width) == Before(qx, qy, x - 1, y, width);
      assert prev + [] == prev;
    }
  }

  /** One step of the scan, as the loop of GetLayerBitmap takes it: passing
      tile (x, y) appends its expected entries, and the end of a row is the start
      of the next. */
  lemma ScanToStep(tiles: seq<Cell>, width: int, height: int, autotileIds: seq<int>, catalog: seq<AutotileInfo>,
                   layer: int, x: int, y: int)
    requires 0 <= x < width && 0 <= y
    ensures ScanTo(tiles, width, height, autotileIds, catalog, layer, x + 1, y) ==
              ScanTo(tiles, width, height, autotileIds, catalog, layer, x, y) +
              ExpectedFor(CellAt(tiles, width, height, x, y), autotileIds, catalog, layer, x, y)
    ensures x + 1 == width ==>
              ScanTo(tiles, width, height, autotileIds, catalog, layer, 0, y + 1) ==
              ScanTo(tiles, width, height, autotileIds, catalog, layer, x + 1, y)
  {
  }

  /** Every registration of the scan names a tile of the layer it has passed
      and an autotile that animates. */
  lemma ScanMembers(tiles: seq<Cell>, width: int, height: int, autotileIds: seq<int>,
                    catalog: seq<AutotileInfo>, layer: int, x: int, y: int)
    requires 0 <= x <= width && 0 <= y
    ensures forall e :: e in ScanTo(tiles, width, height, autotileIds, catalog, layer, x, y) ==>
              e.layer == layer && Before(e.x, e.y, x, y, width) && Animates(e, catalog)
  {
    var scan := ScanTo(tiles, width, height, autotileIds, catalog, layer, x, y);
    forall e | e in scan
      ensures e.layer == layer && Before(e.x, e.y, x, y, width) && Animates(e, catalog)
    {
      EntriesAtMembers(scan, e.layer, e.x, e.y, e);
      ScanToEntries(tiles, width, height, autotileIds, catalog, layer, x, y, e.layer, e.x, e.y);
      var cell := CellAt(tiles, width, height, e.x, e.y);
      EntriesAtMembers(ExpectedFor(cell, autotileIds, catalog, layer, e.x, e.y), e.layer, e.x, e.y, e);
    }
  }

  /** The whole scan gives every tile of the layer on the map its expected
      entries and nothing else. */
  lemma LayerScanEntries(tiles: seq<Cell>, width: int, height: int, autotileIds: seq<int>,
                         catalog: seq<AutotileInfo>, layer: int, l: int, qx: int, qy: int)
    requires width >= 0 && height >= 0
    ensures EntriesAt(LayerScan(tiles, width, height, autotileIds, catalog, layer), l, qx, qy) ==
              if l == layer && InGrid(qx, qy, width, height)
              then ExpectedFor(CellAt(tiles, width, height, qx, qy), autotileIds, catalog, layer, qx, qy)
              else []
  {
    ScanToEntries(tiles, width, height, autotileIds, catalog, layer, 0, height, l, qx, qy);
  }

  /** The expected entries of tile (x, y) sit at that tile's own cell. */
  lemma ExpectedEntries(c: Cell, autotileIds: seq<int>, catalog: seq<AutotileInfo>, layer: int, x: int, y: int,
                        l: int, qx: int, qy: int)
    ensures EntriesAt(ExpectedFor(c, autotileIds, catalog, layer, x, y), l, qx, qy) ==
              if l == layer && qx == x && qy == y then ExpectedFor(c, autotileIds, catalog, layer, x, y) else []
  {
    SingleEntry(ExpectedFor(c, autotileIds, catalog, layer, x, y), layer, x, y, l, qx, qy);
  }

  lemma SingleEntry(head: seq<AnimEntry>, layer: int, x: int, y: int, l: int, qx: int, qy: int)
    requires |head| <= 1 && (head != [] ==> IsAt(head[0], layer, x, y))
    ensures EntriesAt(head, l, qx, qy) == if l == layer && qx == x && qy == y then head else []
  {
    if head != [] {
      assert head == [head[0]];
      assert EntriesAt(head[1..], l, qx, qy) == [];
    }
  }
}
