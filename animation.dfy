/** The animation of autotiles: which registered cells a tick redraws, on which
    frame, and which rectangles a redraw copies. Layer bitmaps are not modelled;
    a redraw is recorded as the entry it draws and the frame it draws it at. */
module Animation {
  import opened Tiles
  import opened Registry
  import opened Rendering
  import opened Lists

  /** The tick redraws an entry when the count is a multiple of its speed. */
  predicate DueAt(e: AnimEntry, count: int, catalog: seq<AutotileInfo>)
    requires Animates(e, catalog)
  {
    count % catalog[e.autotile].animateSpeed == 0
  }

  /** The entries the tick redraws, in registry order. */
  function Due(reg: seq<AnimEntry>, count: int, catalog: seq<AutotileInfo>): (r: seq<AnimEntry>)
    requires AllAnimate(reg, catalog)
    ensures forall e :: e in r <==> e in reg && DueAt(e, count, catalog)
  {
    if reg == [] then []
    else
      var last := reg[|reg| - 1];
      assert reg == reg[..|reg| - 1] + [last];
      Due(reg[..|reg| - 1], count, catalog) + (if DueAt(last, count, catalog) then [last] else [])
  }

  lemma DueSnoc(reg: seq<AnimEntry>, i: int, count: int, catalog: seq<AutotileInfo>)
    requires AllAnimate(reg, catalog) && 0 <= i < |reg|
    ensures AllAnimate(reg[..i], catalog) && AllAnimate(reg[..i + 1], catalog) && Animates(reg[i], catalog)
    ensures Due(reg[..i + 1], count, catalog) ==
              Due(reg[..i], count, catalog) + (if DueAt(reg[i], count, catalog) then [reg[i]] else [])
  {
    assert reg[i] in reg;
    assert reg[..i + 1][..i] == reg[..i];
  }

  /** The layer of each entry, in order. */
  function LayersOf(entries: seq<AnimEntry>): (r: seq<int>)
    ensures |r| == |entries| && forall i :: 0 <= i < |entries| ==> r[i] == entries[i].layer
  {
    seq(|entries|, i requires 0 <= i < |entries| => entries[i].layer)
  }

  lemma LayersOfSnoc(entries: seq<AnimEntry>, e: AnimEntry)
    ensures LayersOf(entries + [e]) == LayersOf(entries) + [e.layer]
  {
  }

  /** One call of DrawAutotile: the entry drawn and the frame it is drawn at. */
  datatype Redraw = Redraw(entry: AnimEntry, frame: nat)

  /** The redraws the tick makes: each due entry at the frame the count has
      reached for its speed. */
  function TickRedraws(due: seq<AnimEntry>, count: nat, catalog: seq<AutotileInfo>): (r: seq<Redraw>)
    requires AllAnimate(due, catalog)
    ensures |r| == |due|
    ensures forall i :: 0 <= i < |due| ==>
              r[i].entry == due[i] && Animates(due[i], catalog) &&
              r[i].frame == Frame(count, catalog[due[i].autotile].animateSpeed)
  {
    AllAnimateAt(due, catalog);
    seq(|due|, i requires 0 <= i < |due| => Redraw(due[i], Frame(count, catalog[due[i].autotile].animateSpeed)))
  }

  /** The redraws made when animations are switched off: every entry at its
      first frame. */
  function StillRedraws(reg: seq<AnimEntry>): (r: seq<Redraw>)
    ensures |r| == |reg| && forall i :: 0 <= i < |reg| ==> r[i] == Redraw(reg[i], 0)
  {
    seq(|reg|, i requires 0 <= i < |reg| => Redraw(reg[i], 0))
  }

  /** An entry is redrawn on exactly the ticks on which its frame changes, so the
      tick never misses a frame change and never redraws an unchanged cell. */
  lemma DueIffFrameChanged(reg: seq<AnimEntry>, e: AnimEntry, count: nat, catalog: seq<AutotileInfo>)
    requires AllAnimate(reg, catalog) && e in reg && count >= 1
    ensures e in Due(reg, count, catalog) <==>
              Frame(count, catalog[e.autotile].animateSpeed) != Frame(count - 1, catalog[e.autotile].animateSpeed)
  {
    RedrawExactlyOnFrameChange(count, catalog[e.autotile].animateSpeed);
  }

  /** The first loop of the tick: the layers of the due entries, each once, in
      registry order. */
  method CollectDueLayers(reg: seq<AnimEntry>, count: nat, catalog: seq<AutotileInfo>) returns (updateLayers: seq<int>)
    requires AllAnimate(reg, catalog)
    ensures updateLayers == Distinct(LayersOf(Due(reg, count, catalog)))
  {
    updateLayers := [];
    var i := 0;
    while i < |reg|
      invariant 0 <= i <= |reg|
      invariant AllAnimate(reg[..i], catalog)
      invariant updateLayers == Distinct(LayersOf(Due(reg[..i], count, catalog)))
    {
      DueLayersStep(reg, i, count, catalog, updateLayers);
      var e := reg[i];
      if count % catalog[e.autotile].animateSpeed == 0 && e.layer !in updateLayers {
        updateLayers := updateLayers + [e.layer];
      }
      i := i + 1;
    }
    assert reg[..i] == reg;
  }

  /** One pass of the first loop: a due entry adds its layer unless listed. */
  lemma DueLayersStep(reg: seq<AnimEntry>, i: int, count: nat, catalog: seq<AutotileInfo>, u: seq<int>)
    requires AllAnimate(reg, catalog) && 0 <= i < |reg|
    requires AllAnimate(reg[..i], catalog) && u == Distinct(LayersOf(Due(reg[..i], count, catalog)))
    ensures AllAnimate(reg[..i + 1], catalog) && Animates(reg[i], catalog)
    ensures Distinct(LayersOf(Due(reg[..i + 1], count, catalog))) ==
              if DueAt(reg[i], count, catalog) && reg[i].layer !in u then u + [reg[i].layer] else u
  {
    DueSnoc(reg, i, count, catalog);
    var e := reg[i];
    var due := Due(reg[..i], count, catalog);
    if DueAt(e, count, catalog) {
      LayersOfSnoc(due, e);
      DistinctSnoc(LayersOf(due), e.layer);
    } else {
      assert due + [] == due;
    }
  }

  /** The second loop of the tick: redraw each due entry at its current frame. */
  method CollectDueRedraws(reg: seq<AnimEntry>, count: nat, catalog: seq<AutotileInfo>) returns (redraws: seq<Redraw>)
    requires AllAnimate(reg, catalog)
    ensures redraws == TickRedraws(Due(reg, count, catalog), count, catalog)
  {
    redraws := [];
    var i := 0;
    while i < |reg|
      invariant 0 <= i <= |reg|
      invariant AllAnimate(reg[..i], catalog)
      invariant redraws == TickRedraws(Due(reg[..i], count, catalog), count, catalog)
    {
      DueRedrawsStep(reg, i, count, catalog, redraws);
      var e := reg[i];
      var speed := catalog[e.autotile].animateSpeed;
      if count % speed == 0 {
        redraws := redraws + [Redraw(e, Frame(count, speed))];
      }
      i := i + 1;
    }
    assert reg[..i] == reg;
  }

  /** One pass of the second loop: a due entry adds its redraw. */
  lemma DueRedrawsStep(reg: seq<AnimEntry>, i: int, count: nat, catalog: seq<AutotileInfo>, rs: seq<Redraw>)
    requires AllAnimate(reg, catalog) && 0 <= i < |reg|
    requires AllAnimate(reg[..i], catalog) && rs == TickRedraws(Due(reg[..i], count, catalog), count, catalog)
    ensures AllAnimate(reg[..i + 1], catalog) && Animates(reg[i], catalog)
    ensures TickRedraws(Due(reg[..i + 1], count, catalog), count, catalog) ==
              if DueAt(reg[i], count, catalog)
              then rs + [Redraw(reg[i], Frame(count, catalog[reg[i].autotile].animateSpeed))]
              else rs
  {
    DueSnoc(reg, i, count, catalog);
    var e := reg[i];
    var due := Due(reg[..i], count, catalog);
    if DueAt(e, count, catalog) {
      var next := TickRedraws(due + [e], count, catalog);
      assert next == rs + [Redraw(e, Frame(count, catalog[e.autotile].animateSpeed))];
    } else {
      assert due + [] == due;
    }
  }

  /** The layer loop of SetMapAnimations: the layers of all entries, each once. */
  method CollectLayers(reg: seq<AnimEntry>) returns (updateLayers: seq<int>)
    ensures updateLayers == Distinct(LayersOf(reg))
  {
    updateLayers := [];
    var i := 0;
    while i < |reg|
      invariant 0 <= i <= |reg|
      invariant updateLayers == Distinct(LayersOf(reg[..i]))
    {
      var e := reg[i];
      assert reg[..i + 1] == reg[..i] + [e];
      LayersOfSnoc(reg[..i], e);
      DistinctSnoc(LayersOf(reg[..i]), e.layer);
      if e.layer !in updateLayers {
        updateLayers := updateLayers + [e.layer];
      }
      i := i + 1;
    }
    assert reg[..i] == reg;
  }

  /** The redraw loop of SetMapAnimations: every entry at frame 0. */
  method CollectStillRedraws(reg: seq<AnimEntry>) returns (redraws: seq<Redraw>)
    ensures redraws == StillRedraws(reg)
  {
    redraws := [];
    var i := 0;
    while i < |reg|
      invariant 0 <= i <= |reg|
      invariant redraws == StillRedraws(reg[..i])
    {
      redraws := redraws + [Redraw(reg[i], 0)];
      i := i + 1;
    }
    assert reg[..i] == reg;
  }

  // ---- The preset registration as written (see Findings in README) ----

  /** The test the tick makes on one registry entry, as written: whether the
      count is a multiple of the entry's speed, where the integer remainder by a
      zero speed throws (None). For a count that is not negative, C#'s remainder
      is zero exactly when the Euclidean one is, whatever the divisor's sign. */
  function TickTestAsWritten(e: AnimEntry, count: nat, catalog: seq<AutotileInfo>): (r: Option<bool>)
    requires 0 <= e.autotile < |catalog|
    ensures r.None? <==> catalog[e.autotile].animateSpeed == 0
    ensures Animates(e, catalog) ==> r == Some(DueAt(e, count, catalog))
  {
    var speed := catalog[e.autotile].animateSpeed;
    if speed == 0 then None else Some(count % speed == 0)
  }

  /** DrawTile as written registers an autotile painted with a preset shape
      without looking at its speed. For an autotile that does not animate
      (speed 0) the registered entry makes the tick's test throw on every count,
      while the corrected registration, the cell's expected entry, registers
      nothing. */
  lemma PresetRegistrationAsWrittenThrows(count: nat)
    ensures var catalog := [AutotileInfo(false, 0, 96)];
            var tile := TileData(Autotile, 0, 12);
            var asWritten := AnimEntry(0, 0, 0, [0][tile.index], tile.id);
            TickTestAsWritten(asWritten, count, catalog) == None &&
            ExpectedFor(Some(tile), [0], catalog, 0, 0, 0) == []
  {
  }

  // ---- DrawAutotile ----

  /** One copy of a rectangle of an autotile image onto a layer bitmap. */
  datatype Blit = Blit(target: Rect, source: Rect)

  /** The copies DrawAutotile makes for the cell at tile (x, y) drawn at `frame`:
      a single-image autotile copies one 32x32 square of its current strip; any
      other copies four 16x16 pieces, `pieces` being the row of the combination
      table for the cell's shape, into the four quadrants of the cell. Every copy
      lands inside the cell, and the strip offset lies inside the image. */
  function AutotileBlits(info: AutotileInfo, x: int, y: int, pieces: seq<int>, frame: nat): (r: seq<Blit>)
    requires info.imageWidth > 0
    requires !info.single ==> |pieces| == 4
    ensures |r| == if info.single then 1 else 4
    ensures forall i :: 0 <= i < |r| ==>
              32 * x <= r[i].target.x && r[i].target.x + r[i].target.w <= 32 * x + 32 &&
              32 * y <= r[i].target.y && r[i].target.y + r[i].target.h <= 32 * y + 32
    ensures info.single ==> r[0].target == Rect(32 * x, 32 * y, 32, 32) && r[0].source.y == 0 &&
                            0 <= r[0].source.x < info.imageWidth &&
                            (info.imageWidth % 32 == 0 ==> r[0].source.x % 32 == 0)
    ensures !info.single ==>
              forall i :: 0 <= i < 4 ==>
                r[i].target == QuadrantTarget(x, y, i) &&
                r[i].source == QuadrantSource(pieces[i], AnimOffset(frame, false, info.imageWidth))
  {
    if info.single then
      var animX := AnimOffset(frame, true, info.imageWidth);
      SingleOffsetAligned(frame, info.imageWidth);
      [Blit(Rect(32 * x, 32 * y, 32, 32), Rect(animX, 0, 32, 32))]
    else
      var animX := AnimOffset(frame, false, info.imageWidth);
      seq(4, i requires 0 <= i < 4 => Blit(QuadrantTarget(x, y, i), QuadrantSource(pieces[i], animX)))
  }

  /** A single-image strip offset is a whole number of tiles when the image is. */
  lemma SingleOffsetAligned(frame: nat, imageWidth: int)
    requires imageWidth > 0
    ensures imageWidth % 32 == 0 ==> AnimOffset(frame, true, imageWidth) % 32 == 0
  {
    if imageWidth % 32 == 0 {
      var n := imageWidth / 32;
      assert imageWidth == 32 * n;
      AnimationCycles(frame, true, n);
    }
  }
}
