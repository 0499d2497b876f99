/** The map properties window's OK handler (Widgets/Windows/MapPropertiesWindow.cs):
    when the map's tileset or autotile list of global IDs was edited, every cell of
    that kind is rewritten in place so that it keeps denoting the same global ID, or
    is emptied when its ID was dropped from the list. */
module CatalogRemap {
  import opened Tiles

  /** The ID-list comparison of the handler: first the counts, then position by
      position; the list counts as changed exactly when it differs from the old
      one. */
  method ListChanged(now: seq<int>, before: seq<int>) returns (changed: bool)
    ensures changed <==> now != before
    ensures changed <==> |now| != |before| || exists i :: 0 <= i < |now| && now[i] != before[i]
  {
    changed := |now| != |before|;
    if !changed {
      var i := 0;
      while i < |now|
        invariant 0 <= i <= |now|
        invariant forall j :: 0 <= j < i ==> now[j] == before[j]
      {
        if now[i] != before[i] {
          changed := true;
          break;
        }
        i := i + 1;
      }
    }
  }

  /** List.IndexOf: the first position of x, or -1. */
  function IndexOf(s: seq<int>, x: int): (r: int)
    ensures r == -1 <==> x !in s
    ensures r != -1 ==> 0 <= r < |s| && s[r] == x && x !in s[..r]
  {
    if |s| == 0 then -1
    else if s[0] == x then 0
    else
      var r := IndexOf(s[1..], x);
      assert s[1..][..if r == -1 then 0 else r] == s[1..if r == -1 then 1 else r + 1];
      if r == -1 then -1 else r + 1
  }

  /** A cell of this kind has a local index into the old ID list; the handler reads
      that entry unguarded. */
  predicate Indexed(c: Cell, kind: TileType, before: seq<int>)
  {
    c.Some? && c.value.kind == kind ==> 0 <= c.value.index < |before|
  }

  predicate AllIndexed(layers: seq<Layer>, kind: TileType, before: seq<int>)
  {
    forall l, i :: 0 <= l < |layers| && 0 <= i < |layers[l].tiles| ==> Indexed(layers[l].tiles[i], kind, before)
  }

  /** A cell of this kind whose old global ID is no longer in the new list. */
  predicate Stale(c: Cell, kind: TileType, before: seq<int>, now: seq<int>)
  {
    c.Some? && c.value.kind == kind && 0 <= c.value.index < |before| && before[c.value.index] !in now
  }

  predicate HasStale(layers: seq<Layer>, kind: TileType, before: seq<int>, now: seq<int>)
  {
    exists l, i :: 0 <= l < |layers| && 0 <= i < |layers[l].tiles| && Stale(layers[l].tiles[i], kind, before, now)
  }

  /** The rewrite of one cell: cells of the other kind and empty cells stay as they
      are; a cell whose global ID was dropped is emptied; any other cell keeps its
      tile number and points at the new position of the same global ID. */
  function RemapCell(c: Cell, kind: TileType, before: seq<int>, now: seq<int>): (r: Cell)
    requires Indexed(c, kind, before)
    ensures c.None? || c.value.kind != kind ==> r == c
    ensures Stale(c, kind, before, now) ==> r.None?
    ensures c.Some? && c.value.kind == kind && !Stale(c, kind, before, now) ==>
      (r.Some? && r.value.kind == kind && r.value.id == c.value.id
       && 0 <= r.value.index < |now| && now[r.value.index] == before[c.value.index])
  {
    if c.None? || c.value.kind != kind then c
    else
      var id := before[c.value.index];
      if id !in now then None else Some(c.value.(index := IndexOf(now, id)))
  }

  function RemapTiles(tiles: seq<Cell>, kind: TileType, before: seq<int>, now: seq<int>): seq<Cell>
    requires forall i :: 0 <= i < |tiles| ==> Indexed(tiles[i], kind, before)
  {
    seq(|tiles|, i requires 0 <= i < |tiles| => RemapCell(tiles[i], kind, before, now))
  }

  /** Every layer rewritten cell by cell; names and visibility are kept. */
  function RemapLayers(layers: seq<Layer>, kind: TileType, before: seq<int>, now: seq<int>): (r: seq<Layer>)
    requires AllIndexed(layers, kind, before)
    ensures |r| == |layers|
    ensures forall l :: 0 <= l < |r| ==>
      |r[l].tiles| == |layers[l].tiles| && r[l].name == layers[l].name && r[l].visible == layers[l].visible
  {
    seq(|layers|, l requires 0 <= l < |layers| => layers[l].(tiles := RemapTiles(layers[l].tiles, kind, before, now)))
  }

  /** The global ID a cell of this kind denotes, if any. */
  function GlobalId(c: Cell, kind: TileType, ids: seq<int>): Option<int>
  {
    if c.Some? && c.value.kind == kind && 0 <= c.value.index < |ids| then Some(ids[c.value.index]) else None
  }

  /** After the rewrite, every cell of the kind denotes the same global ID as
      before or was emptied because that ID is gone; every other cell is as it
      was; and the shape of the map is unchanged. */
  lemma RemapMeaning(layers: seq<Layer>, kind: TileType, before: seq<int>, now: seq<int>, l: int, i: int)
    requires AllIndexed(layers, kind, before)
    requires 0 <= l < |layers| && 0 <= i < |layers[l].tiles|
    ensures var r := RemapLayers(layers, kind, before, now);
      |r| == |layers| && |r[l].tiles| == |layers[l].tiles|
      && r[l].name == layers[l].name && r[l].visible == layers[l].visible
      && var c, c' := layers[l].tiles[i], r[l].tiles[i];
      (c.None? || c.value.kind != kind ==> c' == c)
      && (Stale(c, kind, before, now) ==> c'.None?)
      && (c.Some? && c.value.kind == kind && !Stale(c, kind, before, now) ==>
            GlobalId(c', kind, now) == GlobalId(c, kind, before) && c'.value.id == c.value.id)
  {
    assert AllIndexed(layers, kind, before);
    assert Indexed(layers[l].tiles[i], kind, before);
  }

  /** The warning is raised exactly when the rewrite would empty some cell that
      holds a tile. */
  lemma WarnIffTilesLost(layers: seq<Layer>, kind: TileType, before: seq<int>, now: seq<int>)
    requires AllIndexed(layers, kind, before)
    ensures HasStale(layers, kind, before, now) <==>
      exists l, i :: 0 <= l < |layers| && 0 <= i < |layers[l].tiles|
        && layers[l].tiles[i].Some? && RemapLayers(layers, kind, before, now)[l].tiles[i].None?
  {
    var r := RemapLayers(layers, kind, before, now);
    if HasStale(layers, kind, before, now) {
      var l, i :| 0 <= l < |layers| && 0 <= i < |layers[l].tiles| && Stale(layers[l].tiles[i], kind, before, now);
      RemapMeaning(layers, kind, before, now, l, i);
    }
    if exists l, i :: 0 <= l < |layers| && 0 <= i < |layers[l].tiles| && layers[l].tiles[i].Some? && r[l].tiles[i].None? {
      var l, i :| 0 <= l < |layers| && 0 <= i < |layers[l].tiles| && layers[l].tiles[i].Some? && r[l].tiles[i].None?;
      RemapMeaning(layers, kind, before, now, l, i);
    }
  }

  /** The two rewrites are independent: rewriting one kind leaves every cell of
      the other kind, and so the other kind's warning and rewrite, as they were. */
  lemma RemapKeepsOtherKind(layers: seq<Layer>, kind: TileType, other: TileType,
                            before: seq<int>, now: seq<int>, otherBefore: seq<int>, otherNow: seq<int>)
    requires kind != other && AllIndexed(layers, kind, before) && AllIndexed(layers, other, otherBefore)
    ensures var r := RemapLayers(layers, kind, before, now);
      AllIndexed(r, other, otherBefore)
      && (HasStale(r, other, otherBefore, otherNow) <==> HasStale(layers, other, otherBefore, otherNow))
      && forall l, i :: 0 <= l < |r| && 0 <= i < |r[l].tiles| ==>
           (r[l].tiles[i].Some? && r[l].tiles[i].value.kind == other <==>
            layers[l].tiles[i].Some? && layers[l].tiles[i].value.kind == other)
           && (layers[l].tiles[i].Some? && layers[l].tiles[i].value.kind == other ==> r[l].tiles[i] == layers[l].tiles[i])
  {
    var r := RemapLayers(layers, kind, before, now);
    forall l, i | 0 <= l < |r| && 0 <= i < |r[l].tiles|
      ensures (r[l].tiles[i].Some? && r[l].tiles[i].value.kind == other <==>
               layers[l].tiles[i].Some? && layers[l].tiles[i].value.kind == other)
      ensures layers[l].tiles[i].Some? && layers[l].tiles[i].value.kind == other ==> r[l].tiles[i] == layers[l].tiles[i]
      ensures Indexed(r[l].tiles[i], other, otherBefore)
      ensures Stale(r[l].tiles[i], other, otherBefore, otherNow) <==> Stale(layers[l].tiles[i], other, otherBefore, otherNow)
    {
      RemapMeaning(layers, kind, before, now, l, i);
    }
  }

  /** Without the warning nothing is lost: the rewrite empties no cell. */
  lemma NoWarnKeepsEveryTile(layers: seq<Layer>, kind: TileType, before: seq<int>, now: seq<int>)
    requires AllIndexed(layers, kind, before) && !HasStale(layers, kind, before, now)
    ensures var r := RemapLayers(layers, kind, before, now);
      forall l, i :: 0 <= l < |r| && 0 <= i < |r[l].tiles| ==> (r[l].tiles[i].None? <==> layers[l].tiles[i].None?)
  {
    var r := RemapLayers(layers, kind, before, now);
    forall l, i | 0 <= l < |r| && 0 <= i < |r[l].tiles|
      ensures r[l].tiles[i].None? <==> layers[l].tiles[i].None?
    {
      RemapMeaning(layers, kind, before, now, l, i);
    }
  }

  /** Whether any of the first n cells holds a stale tile; the scan stops at the
      first one. */
  method ScanLayer(tiles: seq<Cell>, n: int, kind: TileType, before: seq<int>, now: seq<int>) returns (found: bool)
    requires |tiles| == n && forall i :: 0 <= i < n ==> Indexed(tiles[i], kind, before)
    ensures found <==> exists i :: 0 <= i < |tiles| && Stale(tiles[i], kind, before, now)
  {
    found := false;
    var i := 0;
    while i < n
      invariant 0 <= i <= n
      invariant forall j :: 0 <= j < i ==> !Stale(tiles[j], kind, before, now)
    {
      var c := tiles[i];
      if c.None? || c.value.kind != kind {
        i := i + 1;
        continue;
      }
      if before[c.value.index] !in now {
        found := true;
        break;
      }
      i := i + 1;
    }
  }

  /** The first n cells rewritten in place. With clearStale (the user chose to
      continue after the warning) a stale cell is emptied; without it (no warning
      was raised) a stale cell is where the handler throws, and the scan shows it
      cannot be met. */
  method RewriteLayer(tiles: seq<Cell>, n: int, kind: TileType, before: seq<int>, now: seq<int>, clearStale: bool)
    returns (r: seq<Cell>)
    requires |tiles| == n && forall i :: 0 <= i < n ==> Indexed(tiles[i], kind, before)
    requires !clearStale ==> forall i :: 0 <= i < n ==> !Stale(tiles[i], kind, before, now)
    ensures r == RemapTiles(tiles, kind, before, now)
  {
    r := tiles;
    var i := 0;
    while i < n
      invariant 0 <= i <= n && |r| == n
      invariant forall j :: 0 <= j < i ==> r[j] == RemapCell(tiles[j], kind, before, now)
      invariant forall j :: i <= j < n ==> r[j] == tiles[j]
    {
      var c := r[i];
      if c.None? || c.value.kind != kind {
        i := i + 1;
        continue;
      }
      var id := before[c.value.index];
      if id !in now {
        if !clearStale {
          assert false;
        } else {
          r := r[i := None];
        }
      } else {
        r := r[i := Some(c.value.(index := IndexOf(now, id)))];
      }
      i := i + 1;
    }
  }

  /** What the handler leaves behind. */
  datatype Outcome = Outcome(layers: seq<Layer>, unsaved: bool, updateViewer: bool, closed: bool)

  /** The autotile stage (the handler's Continue action): with an unchanged list
      the window closes; otherwise the autotile cells are rewritten and the window
      closes, unless the warning was raised and the user cancelled (answer 1) or
      dismissed it. */
  function AutotileStage(layers: seq<Layer>, now: seq<int>, before: seq<int>, answer: int, unsaved: bool): (o: Outcome)
    requires AllIndexed(layers, Autotile, before)
    ensures o.closed ==> o.layers == (if now == before then layers else RemapLayers(layers, Autotile, before, now))
    ensures !o.closed ==> o.layers == layers && now != before && HasStale(layers, Autotile, before, now) && answer != 0
  {
    if now == before then Outcome(layers, unsaved, true, true)
    else if !HasStale(layers, Autotile, before, now) || answer == 0 then
      Outcome(RemapLayers(layers, Autotile, before, now), true, true, true)
    else if answer == 1 then Outcome(layers, false, false, false)
    else Outcome(layers, true, true, false)
  }

  /** The whole handler: the tileset stage first, and the autotile stage only once
      the tileset stage went through. */
  function AfterOK(layers: seq<Layer>, tilesets: seq<int>, oldTilesets: seq<int>, autotiles: seq<int>,
                   oldAutotiles: seq<int>, tilesetAnswer: int, autotileAnswer: int, unsaved: bool): (o: Outcome)
    requires AllIndexed(layers, Tileset, oldTilesets) && AllIndexed(layers, Autotile, oldAutotiles)
    ensures o.closed ==> tilesets == oldTilesets || !HasStale(layers, Tileset, oldTilesets, tilesets) || tilesetAnswer == 0
  {
    if tilesets == oldTilesets then AutotileStage(layers, autotiles, oldAutotiles, autotileAnswer, unsaved)
    else if !HasStale(layers, Tileset, oldTilesets, tilesets) || tilesetAnswer == 0 then
      RemapKeepsOtherKind(layers, Tileset, Autotile, oldTilesets, tilesets, oldAutotiles, autotiles);
      AutotileStage(RemapLayers(layers, Tileset, oldTilesets, tilesets), autotiles, oldAutotiles, autotileAnswer, true)
    else if tilesetAnswer == 1 then Outcome(layers, false, false, false)
    else Outcome(layers, true, true, false)
  }

  datatype Settings = Settings(width: int, height: int, devName: string, displayName: string,
                               tilesetIds: seq<int>, autotileIds: seq<int>,
                               oldWidth: int, oldHeight: int, oldDevName: string, oldDisplayName: string,
                               oldTilesetIds: seq<int>, oldAutotileIds: seq<int>)

  /** The window: the edited clone of the map (its layers, size, names and ID
      lists), the values the map had when the window opened, and the flags the
      handler sets. */
  class PropertiesWindow {
    var layers: seq<Layer>
    var width: int
    var height: int
    var devName: string
    var displayName: string
    var tilesetIds: seq<int>
    var autotileIds: seq<int>
    var oldWidth: int
    var oldHeight: int
    var oldDevName: string
    var oldDisplayName: string
    var oldTilesetIds: seq<int>
    var oldAutotileIds: seq<int>
    var unsavedChanges: bool
    var updateMapViewer: bool
    var closed: bool

    /** The window opens on a copy of the map's fields. */
    constructor (layers: seq<Layer>, width: int, height: int, devName: string, displayName: string,
                 tilesetIds: seq<int>, autotileIds: seq<int>)
      ensures this.layers == layers && this.width == width && this.height == height
      ensures this.devName == devName && this.displayName == displayName
      ensures this.tilesetIds == tilesetIds && this.autotileIds == autotileIds
      ensures oldWidth == width && oldHeight == height && oldDevName == devName && oldDisplayName == displayName
      ensures oldTilesetIds == tilesetIds && oldAutotileIds == autotileIds
      ensures !unsavedChanges && !updateMapViewer && !closed
    {
      this.layers, this.width, this.height := layers, width, height;
      this.devName, this.displayName := devName, displayName;
      this.tilesetIds, this.autotileIds := tilesetIds, autotileIds;
      oldWidth, oldHeight, oldDevName, oldDisplayName := width, height, devName, displayName;
      oldTilesetIds, oldAutotileIds := tilesetIds, autotileIds;
      unsavedChanges, updateMapViewer, closed := false, false, false;
    }

    /** Every layer holds one cell per map position, and every tileset or
        autotile cell indexes into the corresponding old list. */
    predicate Consistent()
      reads this
    {
      Sized() && AllIndexed(layers, Tileset, oldTilesetIds) && AllIndexed(layers, Autotile, oldAutotileIds)
    }

    /** Everything the handler reads but does not change. */
    function Fixed(): Settings
      reads this
    {
      Settings(width, height, devName, displayName, tilesetIds, autotileIds,
               oldWidth, oldHeight, oldDevName, oldDisplayName, oldTilesetIds, oldAutotileIds)
    }

    /** Every layer holds one cell per map position. */
    predicate Sized()
      reads this
    {
      forall l :: 0 <= l < |layers| ==> |layers[l].tiles| == width * height
    }

    /** The warn scan over every layer. */
    method WarnScan(kind: TileType, before: seq<int>, now: seq<int>) returns (warn: bool)
      requires Sized() && AllIndexed(layers, kind, before)
      ensures warn <==> HasStale(layers, kind, before, now)
    {
      warn := false;
      var l := 0;
      while l < |layers|
        invariant 0 <= l <= |layers|
        invariant warn <==> exists m, i :: 0 <= m < l && 0 <= i < |layers[m].tiles| && Stale(layers[m].tiles[i], kind, before, now)
      {
        assert forall i :: 0 <= i < width * height ==> Indexed(layers[l].tiles[i], kind, before);
        var found := ScanLayer(layers[l].tiles, width * height, kind, before, now);
        if found {
          warn := true;
        }
        l := l + 1;
      }
    }

    /** The rewrite loop over every layer. */
    method Rewrite(kind: TileType, before: seq<int>, now: seq<int>, clearStale: bool)
      requires Sized()
      requires AllIndexed(layers, kind, before)
      requires !clearStale ==> !HasStale(layers, kind, before, now)
      modifies this`layers
      ensures layers == RemapLayers(old(layers), kind, before, now)
    {
      ghost var start := layers;
      var l := 0;
      while l < |layers|
        invariant 0 <= l <= |layers| == |start|
        invariant forall m :: 0 <= m < l ==> layers[m] == start[m].(tiles := RemapTiles(start[m].tiles, kind, before, now))
        invariant forall m :: l <= m < |layers| ==> layers[m] == start[m]
      {
        assert forall i :: 0 <= i < width * height ==> Indexed(start[l].tiles[i], kind, before);
        assert !clearStale ==> forall i :: 0 <= i < width * height ==> !Stale(start[l].tiles[i], kind, before, now);
        var tiles := RewriteLayer(layers[l].tiles, width * height, kind, before, now, clearStale);
        layers := layers[l := layers[l].(tiles := tiles)];
        l := l + 1;
      }
    }

    /** The handler's Continue action: the autotile stage. */
    method ContinueStage(answer: int)
      requires Sized() && AllIndexed(layers, Autotile, oldAutotileIds) && updateMapViewer && !closed
      modifies this
      ensures var o := AutotileStage(old(layers), old(autotileIds), old(oldAutotileIds), answer, old(unsavedChanges));
        layers == o.layers && unsavedChanges == o.unsaved && updateMapViewer == o.updateViewer && closed == o.closed
      ensures Fixed() == old(Fixed())
    {
      var changed := ListChanged(autotileIds, oldAutotileIds);
      if changed {
        unsavedChanges := true;
        var warn := WarnScan(Autotile, oldAutotileIds, autotileIds);
        if warn {
          if answer == 0 {
            Rewrite(Autotile, oldAutotileIds, autotileIds, true);
            closed := true;
          } else if answer == 1 {
            unsavedChanges := false;
            updateMapViewer := false;
          }
        } else {
          Rewrite(Autotile, oldAutotileIds, autotileIds, false);
          closed := true;
        }
      } else {
        closed := true;
      }
    }

    /** The OK handler. A changed size or name marks the map unsaved (the resize
        itself is not part of this model: the layers already hold one cell per
        position of the new size). Then the tileset stage runs; when it goes
        through, the autotile stage follows. A warning is answered by the given
        choice: 0 continues, 1 cancels, anything else leaves the box open. */
    method OK(tilesetAnswer: int, autotileAnswer: int)
      requires Consistent() && !closed
      modifies this
      ensures var o := AfterOK(old(layers), old(tilesetIds), old(oldTilesetIds), old(autotileIds), old(oldAutotileIds),
                               tilesetAnswer, autotileAnswer,
                               old(unsavedChanges || width != oldWidth || height != oldHeight
                                   || devName != oldDevName || displayName != oldDisplayName));
        layers == o.layers && unsavedChanges == o.unsaved && updateMapViewer == o.updateViewer && closed == o.closed
      ensures Fixed() == old(Fixed())
    {
      updateMapViewer := true;
      if width != oldWidth || height != oldHeight {
        unsavedChanges := true;
      }
      if devName != oldDevName || displayName != oldDisplayName {
        unsavedChanges := true;
      }
      TilesetStage(tilesetAnswer, autotileAnswer);
    }

    /** The tileset stage of the handler, which runs the autotile stage when it
        goes through. */
    method TilesetStage(tilesetAnswer: int, autotileAnswer: int)
      requires Consistent() && updateMapViewer && !closed
      modifies this
      ensures var o := AfterOK(old(layers), old(tilesetIds), old(oldTilesetIds), old(autotileIds), old(oldAutotileIds),
                               tilesetAnswer, autotileAnswer, old(unsavedChanges));
        layers == o.layers && unsavedChanges == o.unsaved && updateMapViewer == o.updateViewer && closed == o.closed
      ensures Fixed() == old(Fixed())
    {
      var changed := ListChanged(tilesetIds, oldTilesetIds);
      if changed {
        unsavedChanges := true;
        var warn := WarnScan(Tileset, oldTilesetIds, tilesetIds);
        if warn {
          if tilesetAnswer == 0 {
            RemapKeepsOtherKind(layers, Tileset, Autotile, oldTilesetIds, tilesetIds, oldAutotileIds, autotileIds);
            Rewrite(Tileset, oldTilesetIds, tilesetIds, true);
            ContinueStage(autotileAnswer);
          } else if tilesetAnswer == 1 {
            unsavedChanges := false;
            updateMapViewer := false;
          }
        } else {
          RemapKeepsOtherKind(layers, Tileset, Autotile, oldTilesetIds, tilesetIds, oldAutotileIds, autotileIds);
          Rewrite(Tileset, oldTilesetIds, tilesetIds, false);
          ContinueStage(autotileAnswer);
        }
      } else {
        ContinueStage(autotileAnswer);
      }
    }
  }
}
