/** The map document of the older file format (Game/MKD/Map.cs): a map whose layers
    hold (tileset index, tile number) pairs, the dictionary it is saved as, the
    parse back from that dictionary, SetSize and Clone. */
module MkdMap {
  import T = Tiles

  /** C#'s `int`. */
  newtype i32 = x: int | -0x8000_0000 <= x < 0x8000_0000

  /** The dictionary values the map is saved as: null, a number, a string, a
      list or a string-keyed object. */
  datatype Json = JNull | JInt(n: int) | JStr(s: string) | JArr(items: seq<Json>) | JObj(fields: map<string, Json>)

  /** A placed tile in this revision of the format. */
  datatype TileData = TileData(tilesetIndex: i32, tileId: i32)

  /** One cell of a layer; None is an empty cell. */
  type Cell = T.Option<TileData>

  /** Why the dictionary constructor throws. */
  datatype MapError = MissingClass | WrongClass(found: Json) | Malformed(key: string)

  datatype Result<V> = Ok(value: V) | Fail(error: MapError)

  /** 32-bit multiplication with wrap-around, as C# evaluates `width * height`. */
  function Mul32(a: i32, b: i32): (r: i32)
    ensures -0x8000_0000 <= a as int * b as int < 0x8000_0000 ==> r as int == a as int * b as int
    ensures (r as int - a as int * b as int) % 0x1_0000_0000 == 0
  {
    var p := a as int * b as int;
    var u := (p + 0x8000_0000) % 0x1_0000_0000;
    assert p + 0x8000_0000 == 0x1_0000_0000 * ((p + 0x8000_0000) / 0x1_0000_0000) + u;
    (u - 0x8000_0000) as i32
  }

  // ---- Layer names ----

  function Digit(d: nat): char
    requires d < 10
  {
    "0123456789"[d]
  }

  /** `int.ToString()` of a non-negative number. */
  function NatString(n: nat): (s: string)
    ensures 1 <= |s|
    ensures n < 10 <==> |s| == 1
  {
    if n < 10 then [Digit(n)] else NatString(n / 10) + [Digit(n % 10)]
  }

  /** The name the parser gives to the k-th layer, counting from 0. */
  function LayerName(k: nat): string
  {
    "Layer " + NatString(k + 1)
  }

  // ---- The saved form ----

  function TileJson(c: Cell): Json
  {
    match c
    case None => JNull
    case Some(t) => JArr([JInt(t.tilesetIndex as int), JInt(t.tileId as int)])
  }

  /** The saved form of a layer's cells: one entry per cell, null exactly for an
      empty cell. */
  function LayerJson(tiles: seq<Cell>): (r: seq<Json>)
    ensures |r| == |tiles|
    ensures forall i :: 0 <= i < |tiles| ==> (r[i] == JNull <==> tiles[i].None?)
  {
    seq(|tiles|, i requires 0 <= i < |tiles| => TileJson(tiles[i]))
  }

  function LayersJson(layers: seq<seq<Cell>>): (r: seq<Json>)
    ensures |r| == |layers|
  {
    seq(|layers|, i requires 0 <= i < |layers| => JArr(LayerJson(layers[i])))
  }

  function IdsJson(ids: seq<i32>): (r: seq<Json>)
    ensures |r| == |ids|
  {
    seq(|ids|, i requires 0 <= i < |ids| => JInt(ids[i] as int))
  }

  /** What a map holds, as a value. Events are kept in their saved form: the event
      records themselves are not part of this model. */
  datatype MapData = MapData(id: i32, devName: string, displayName: string, width: i32, height: i32,
                             layers: seq<seq<Cell>>, tilesetIds: seq<i32>, events: map<string, Json>)

  /** The dictionary Map.ToJSON builds. Layer names and visibility are not saved. */
  function MapJson(d: MapData): map<string, Json>
  {
    map["^c" := JStr("MKD::Map"), "@id" := JInt(d.id as int), "@dev_name" := JStr(d.devName),
        "@display_name" := JStr(d.displayName), "@width" := JInt(d.width as int),
        "@height" := JInt(d.height as int), "@tiles" := JArr(LayersJson(d.layers)),
        "@tilesets" := JArr(IdsJson(d.tilesetIds)), "@events" := JObj(d.events)]
  }

  // ---- Parsing ----

  /** Convert.ToInt32 of a number: it throws outside the 32-bit range. */
  function ToInt32(j: Json): T.Option<i32>
  {
    if j.JInt? && -0x8000_0000 <= j.n < 0x8000_0000 then T.Some(j.n as i32) else T.None
  }

  /** One saved cell: null stays empty, a list's first two entries are the
      tileset index and the tile number; anything else throws. */
  function ParseTile(j: Json): (r: Result<Cell>)
    ensures r.Fail? ==> r.error.Malformed?
    ensures j == JNull ==> r == Ok(T.None)
    ensures r.Ok? && r.value.Some? ==>
      (j.JArr? && 2 <= |j.items| && j.items[0] == JInt(r.value.value.tilesetIndex as int)
       && j.items[1] == JInt(r.value.value.tileId as int))
  {
    match j
    case JNull => Ok(T.None)
    case JArr(items) =>
      if |items| < 2 then Fail(Malformed("@tiles"))
      else
        var index, id := ToInt32(items[0]), ToInt32(items[1]);
        if index.None? || id.None? then Fail(Malformed("@tiles"))
        else Ok(T.Some(TileData(index.value, id.value)))
    case _ => Fail(Malformed("@tiles"))
  }

  /** A saved layer: it parses when every cell does, into one cell per entry. */
  function ParseTiles(js: seq<Json>): (r: Result<seq<Cell>>)
    ensures r.Fail? ==> r.error.Malformed?
    ensures r.Ok? <==> forall i :: 0 <= i < |js| ==> ParseTile(js[i]).Ok?
    ensures r.Ok? ==> |r.value| == |js| && forall i :: 0 <= i < |js| ==> ParseTile(js[i]) == Ok(r.value[i])
  {
    if |js| == 0 then Ok([])
    else
      match ParseTile(js[0])
      case Fail(e) => Fail(e)
      case Ok(c) =>
        match ParseTiles(js[1..])
        case Fail(e) => Fail(e)
        case Ok(rest) =>
          assert forall i :: 1 <= i < |js| ==> js[i] == js[1..][i - 1];
          Ok([c] + rest)
  }

  /** The "@tiles" list: every entry must be a list of cells. */
  function ParseLayers(js: seq<Json>): (r: Result<seq<seq<Cell>>>)
    ensures r.Fail? ==> r.error.Malformed?
    ensures r.Ok? ==> |r.value| == |js|
    decreases |js|
  {
    if |js| == 0 then Ok([])
    else
      var first := if js[0].JArr? then ParseTiles(js[0].items) else Fail(Malformed("@tiles"));
      match first
      case Fail(e) => Fail(e)
      case Ok(tiles) =>
        match ParseLayers(js[1..])
        case Fail(e) => Fail(e)
        case Ok(rest) => Ok([tiles] + rest)
  }

  /** The "@tilesets" list: every entry a 32-bit number. */
  function ParseIds(js: seq<Json>): (r: Result<seq<i32>>)
    ensures r.Fail? ==> r.error.Malformed?
    ensures r.Ok? ==> |r.value| == |js|
  {
    if |js| == 0 then Ok([])
    else
      match ToInt32(js[0])
      case None => Fail(Malformed("@tilesets"))
      case Some(id) =>
        match ParseIds(js[1..])
        case Fail(e) => Fail(e)
        case Ok(rest) => Ok([id] + rest)
  }

  function IntAt(data: map<string, Json>, key: string): T.Option<i32>
  {
    if key in data then ToInt32(data[key]) else T.None
  }

  function StrAt(data: map<string, Json>, key: string): T.Option<string>
  {
    if key in data && data[key].JStr? then T.Some(data[key].s) else T.None
  }

  function ArrAt(data: map<string, Json>, key: string): T.Option<seq<Json>>
  {
    if key in data && data[key].JArr? then T.Some(data[key].items) else T.None
  }

  /** The dictionary constructor, as a value: the class check first, then the
      fields in the order the constructor reads them. */
  function ParseMap(data: map<string, Json>): (r: Result<MapData>)
    ensures r.Ok? ==> "^c" in data && data["^c"] == JStr("MKD::Map")
  {
    if "^c" !in data then Fail(MissingClass)
    else if data["^c"] != JStr("MKD::Map") then Fail(WrongClass(data["^c"]))
    else
      var id, dev, display := IntAt(data, "@id"), StrAt(data, "@dev_name"), StrAt(data, "@display_name");
      var width, height := IntAt(data, "@width"), IntAt(data, "@height");
      var tiles, sets := ArrAt(data, "@tiles"), ArrAt(data, "@tilesets");
      if id.None? then Fail(Malformed("@id"))
      else if dev.None? then Fail(Malformed("@dev_name"))
      else if display.None? then Fail(Malformed("@display_name"))
      else if width.None? then Fail(Malformed("@width"))
      else if height.None? then Fail(Malformed("@height"))
      else if tiles.None? then Fail(Malformed("@tiles"))
      else
        match ParseLayers(tiles.value)
        case Fail(e) => Fail(e)
        case Ok(layers) =>
          if sets.None? then Fail(Malformed("@tilesets"))
          else
            match ParseIds(sets.value)
            case Fail(e) => Fail(e)
            case Ok(ids) =>
              if "@events" !in data || !data["@events"].JObj? then Fail(Malformed("@events"))
              else Ok(MapData(id.value, dev.value, display.value, width.value, height.value,
                              layers, ids, data["@events"].fields))
  }

  /** The constructor refuses a dictionary without a "^c" entry, and one whose
      "^c" entry is anything but "MKD::Map", and those are the only class errors. */
  lemma ClassCheck(data: map<string, Json>)
    ensures ParseMap(data) == Fail(MissingClass) <==> "^c" !in data
    ensures "^c" in data ==>
      (ParseMap(data) == Fail(WrongClass(data["^c"])) <==> data["^c"] != JStr("MKD::Map"))
  {
  }

  // ---- Round trip ----

  /** Saving a layer's cells and parsing them back gives the same cells. */
  lemma {:induction false} LayerRoundTrip(tiles: seq<Cell>)
    ensures ParseTiles(LayerJson(tiles)) == Ok(tiles)
  {
    var js := LayerJson(tiles);
    forall i | 0 <= i < |js|
      ensures ParseTile(js[i]) == Ok(tiles[i])
    {
    }
    var r := ParseTiles(js);
    assert r.Ok?;
    assert r.value == tiles;
  }

  lemma {:induction false} LayersRoundTrip(layers: seq<seq<Cell>>)
    ensures ParseLayers(LayersJson(layers)) == Ok(layers)
    decreases |layers|
  {
    if |layers| > 0 {
      LayerRoundTrip(layers[0]);
      assert LayersJson(layers)[1..] == LayersJson(layers[1..]);
      LayersRoundTrip(layers[1..]);
      assert [layers[0]] + layers[1..] == layers;
    }
  }

  lemma {:induction false} IdsRoundTrip(ids: seq<i32>)
    ensures ParseIds(IdsJson(ids)) == Ok(ids)
    decreases |ids|
  {
    if |ids| > 0 {
      assert IdsJson(ids)[1..] == IdsJson(ids[1..]);
      IdsRoundTrip(ids[1..]);
      assert [ids[0]] + ids[1..] == ids;
    }
  }

  /** Saving a map and loading the dictionary back gives the same map contents. */
  lemma MapRoundTrip(d: MapData)
    ensures ParseMap(MapJson(d)) == Ok(d)
  {
    var m := MapJson(d);
    assert m["^c"] == JStr("MKD::Map") && m["@id"] == JInt(d.id as int);
    assert m["@dev_name"] == JStr(d.devName) && m["@display_name"] == JStr(d.displayName);
    assert m["@width"] == JInt(d.width as int) && m["@height"] == JInt(d.height as int);
    assert m["@tiles"] == JArr(LayersJson(d.layers)) && m["@tilesets"] == JArr(IdsJson(d.tilesetIds));
    assert m["@events"] == JObj(d.events);
    LayersRoundTrip(d.layers);
    IdsRoundTrip(d.tilesetIds);
  }

  // ---- Objects ----

  /** Empty cells, as SetSize appends them. */
  function Nulls(n: nat): (r: seq<Cell>)
    ensures |r| == n && forall i :: 0 <= i < n ==> r[i].None?
  {
    seq(n, _ => T.None)
  }

  class Layer {
    var name: string
    var tiles: seq<Cell>
    var visible: bool

    constructor (name: string)
      ensures this.name == name && tiles == [] && visible
    {
      this.name := name;
      tiles := [];
      visible := true;
    }

    /** Layer.ToJSON: the cells one by one into a fresh list. */
    method ToJSON() returns (data: seq<Json>)
      ensures data == LayerJson(tiles)
    {
      data := [];
      var i := 0;
      while i < |tiles|
        invariant 0 <= i <= |tiles|
        invariant data == LayerJson(tiles[..i])
      {
        data := data + [TileJson(tiles[i])];
        i := i + 1;
      }
      assert tiles[..i] == tiles;
    }
  }

  /** The cells of each layer, in order. */
  function TilesOf(ls: seq<Layer>): (r: seq<seq<Cell>>)
    reads ls
    ensures |r| == |ls| && forall i :: 0 <= i < |ls| ==> r[i] == ls[i].tiles
  {
    if |ls| == 0 then [] else TilesOf(ls[..|ls| - 1]) + [ls[|ls| - 1].tiles]
  }

  /** Every layer carries the name the parser gives it. */
  predicate NamedInOrder(ls: seq<Layer>)
    reads ls
  {
    forall k :: 0 <= k < |ls| ==> ls[k].name == LayerName(k)
  }

  class Map {
    var id: i32
    var devName: string
    var displayName: string
    var width: i32
    var height: i32
    var layers: seq<Layer>
    var tilesetIds: seq<i32>
    var events: map<string, Json>
    /** Whether the map-order panel has already listed this map. */
    var added: bool

    /** The map with no layers, no tilesets and no events. */
    constructor ()
      ensures id == 0 && width == 0 && height == 0
      ensures layers == [] && tilesetIds == [] && events == map[] && !added
    {
      id, devName, displayName, width, height := 0, "", "", 0, 0;
      layers := [];
      tilesetIds := [];
      events := map[];
      added := false;
    }

    /** A map holding the given fields and layers. */
    constructor Of(d: MapData, ls: seq<Layer>)
      requires TilesOf(ls) == d.layers
      ensures Contents() == d && layers == ls && !added
    {
      id, devName, displayName, width, height := d.id, d.devName, d.displayName, d.width, d.height;
      tilesetIds, events, layers := d.tilesetIds, d.events, ls;
      added := false;
    }

    /** What the map holds, as a value. */
    function Contents(): MapData
      reads this, layers
    {
      MapData(id, devName, displayName, width, height, TilesOf(layers), tilesetIds, events)
    }

    /** Every layer carries the name the parser gives it. */
    predicate Named()
      reads this, layers
    {
      NamedInOrder(layers)
    }

    /** Map.ToJSON: every layer's cells saved in order, next to the scalar fields. */
    method ToJSON() returns (data: map<string, Json>)
      ensures data == MapJson(Contents())
    {
      var saved: seq<Json> := [];
      var i := 0;
      while i < |layers|
        invariant 0 <= i <= |layers|
        invariant saved == LayersJson(TilesOf(layers)[..i])
      {
        var l := layers[i].ToJSON();
        saved := saved + [JArr(l)];
        i := i + 1;
      }
      assert TilesOf(layers)[..i] == TilesOf(layers);
      data := map["^c" := JStr("MKD::Map"), "@id" := JInt(id as int), "@dev_name" := JStr(devName),
                  "@display_name" := JStr(displayName), "@width" := JInt(width as int),
                  "@height" := JInt(height as int), "@tiles" := JArr(saved),
                  "@tilesets" := JArr(IdsJson(tilesetIds)), "@events" := JObj(events)];
    }

    /** SetSize: one fresh layer "Layer 1" holding one empty cell per position of
        the new size (none when the 32-bit product is not positive), and the
        tileset list reset to the single tileset 1. */
    method SetSize(w: i32, h: i32)
      modifies this
      ensures width == w && height == h && tilesetIds == [1]
      ensures |layers| == 1 && fresh(layers[0]) && Named() && layers[0].visible
      ensures layers[0].tiles == Nulls(if Mul32(w, h) > 0 then Mul32(w, h) as int else 0)
      ensures id == old(id) && devName == old(devName) && displayName == old(displayName)
      ensures events == old(events) && added == old(added)
    {
      width := w;
      height := h;
      var l := new Layer(LayerName(0));
      layers := [l];
      var n := Mul32(w, h) as int;
      var i: nat := 0;
      while i < n
        invariant i <= (if n > 0 then n else 0)
        invariant l.tiles == Nulls(i) && l.name == LayerName(0) && l.visible
        modifies l
      {
        l.tiles := l.tiles + [T.None];
        i := i + 1;
      }
      tilesetIds := [1];
    }

    /** Clone: a fresh map with the same fields and its own list of tilesets,
        whose layer list holds the very same Layer objects; the editor flag is
        not copied. */
    method Clone() returns (o: Map)
      ensures fresh(o)
      ensures o.id == id && o.devName == devName && o.displayName == displayName
      ensures o.width == width && o.height == height
      ensures o.layers == layers && o.tilesetIds == tilesetIds && o.events == events && !o.added
    {
      o := new Map();
      o.id := id;
      o.devName := devName;
      o.displayName := displayName;
      o.width := width;
      o.height := height;
      o.layers := layers;
      o.tilesetIds := tilesetIds;
      o.events := events;
    }
  }

  /** Because a clone shares its Layer objects, writing a cell through the clone
      writes the original map's cell. */
  method EditThroughClone(m: Map, pos: nat, c: Cell) returns (o: Map)
    requires |m.layers| > 0 && pos < |m.layers[0].tiles|
    modifies m.layers[0]
    ensures fresh(o) && o.layers == m.layers
    ensures m.layers[0].tiles == old(m.layers[0].tiles)[pos := c]
  {
    o := m.Clone();
    o.layers[0].tiles := o.layers[0].tiles[pos := c];
  }

  /** The k-th layer the parser builds, holding the given cells. */
  method NewLayer(k: nat, tiles: seq<Cell>) returns (l: Layer)
    ensures fresh(l) && l.name == LayerName(k) && l.tiles == tiles && l.visible
  {
    l := new Layer(LayerName(k));
    l.tiles := tiles;
  }

  /** One fresh layer per saved layer, in order, named "Layer 1", "Layer 2", …. */
  method BuildLayers(saved: seq<seq<Cell>>) returns (ls: seq<Layer>)
    ensures TilesOf(ls) == saved && NamedInOrder(ls)
    ensures forall k :: 0 <= k < |ls| ==> fresh(ls[k]) && ls[k].visible
  {
    ls := [];
    var k := 0;
    while k < |saved|
      invariant 0 <= k <= |saved| && |ls| == k
      invariant forall i :: 0 <= i < k ==> fresh(ls[i]) && ls[i].visible && ls[i].tiles == saved[i]
      invariant NamedInOrder(ls)
    {
      var l := NewLayer(|ls|, saved[k]);
      forall i | 0 <= i < |ls| + 1
        ensures (ls + [l])[i].name == LayerName(i)
      {
        if i < |ls| {
          assert (ls + [l])[i] == ls[i];
        }
      }
      ls := ls + [l];
      k := k + 1;
    }
    assert TilesOf(ls) == saved;
  }

  /** The map a successful parse yields: the parsed fields and freshly built
      layers. */
  method Construct(d: MapData) returns (m: Map)
    ensures fresh(m) && !m.added && NamedInOrder(m.layers) && m.Contents() == d
    ensures forall k :: 0 <= k < |m.layers| ==> fresh(m.layers[k]) && m.layers[k].visible
  {
    var ls := BuildLayers(d.layers);
    m := new Map.Of(d, ls);
  }

  /** The dictionary constructor: the dictionary is checked as ParseMap does, then
      one fresh layer per saved layer is built. */
  method Load(data: map<string, Json>) returns (r: Result<Map>)
    ensures r.Fail? ==> ParseMap(data) == Fail(r.error)
    ensures r.Ok? ==> fresh(r.value) && !r.value.added && NamedInOrder(r.value.layers)
    ensures r.Ok? ==> ParseMap(data) == Ok(r.value.Contents())
    ensures r.Ok? ==> forall k :: 0 <= k < |r.value.layers| ==> fresh(r.value.layers[k]) && r.value.layers[k].visible
  {
    var p := ParseMap(data);
    if p.Fail? {
      return Fail(p.error);
    }
    var m := Construct(p.value);
    r := Ok(m);
  }
}
