# A verified model of the MK-Editor map editing core

MK-Editor is a map editor for tile-based RPGs. This project models its core in
Dafny and proves properties of the model:

- **The map widget** (`MapImageWidget`): painting with the brush (a point, a
  line, or a fill of the selection or the whole map), laying the brush's
  footprint realigned to the brush origin, redrawing one cell (`DrawTile`),
  and the autotile resolver (`UpdateAutotiles`). The resolver picks one of 47
  shapes from a cell's eight neighbours and then updates those neighbours.
  The widget keeps a registry of animated autotiles. The model covers how
  layer operations (create, delete, swap, redraw) keep that registry and how
  the animation tick picks what to redraw.
- **The map document** (`Game/MKD/Map.cs`): the dictionary a map is saved
  as, the dictionary constructor that parses it back, `SetSize` and `Clone`.
- **The map properties window's OK handler**: when the map's tileset or
  autotile list changes, it rewrites every cell's local index. It warns when
  tiles would be lost, and it closes or stays open depending on the user's
  answer.
- **The map list panel**: the map-order list (nested lists of map IDs and
  collapsed flags), with `RemoveID`, `SetCollapsed`, `PopulateList` and
  `DeleteMapRecursively`.
- **The tileset-capacity change** of the database list.

The modules follow the program's structure:

| file | module | models |
|---|---|---|
| tiles.dfy | Tiles | tile references, the brush's change test, C#'s truncating remainder, grid positions |
| shapes.dfy | AutotileShapes | the 47-way shape chain of `UpdateAutotiles` and the neighbourhood it reads |
| rendering.dfy | Rendering | source rectangles and animation strips of tileset and autotile images |
| registry.dfy | Registry | the registry of animated autotiles and the entry each cell calls for |
| autotile_update.dfy | AutotileUpdate | what one call of the updater does to a layer and to the registry |
| painting.dfy | Painting | what `DrawTile` does to the registry, step by step |
| animation.dfy | Animation | the tick and `SetMapAnimations` |
| lists.dfy | Lists | duplicate-free lists in order of first occurrence |
| layers.dfy | LayerOps | the registry across whole layers: rebuild, create, delete, swap |
| brush.dfy | Brush | the tiles a stroke touches and the footprint it lays |
| mapimage.dfy | MapImage | class `MapImageWidget`, whose methods change the layers and the registry in place |
| mkdmap.dfy | MkdMap | classes `Map` and `Layer` of the map document, and its saved dictionary |
| remap.dfy | CatalogRemap | class `PropertiesWindow` and the OK handler |
| maporder.dfy | MapOrder | the map-order list and class `MapPanel` |
| capacity.dfy | TilesetCapacity | class `TilesetList` and the capacity OK handler |

Map layers, the registry and the order list are sequences. The C# code
updates them in place, and the class methods do so too, by reassigning the
fields their `modifies` clauses name. Every such method is proved against a
function of its inputs and its old state, and the properties the editor
relies on are proved about those functions.

These properties include:
- the registry invariant: the registry holds exactly one entry per animated
  autotile of the map, naming its layer, cell, global autotile and shape;
- the shape chain is a bijection between normalised neighbourhoods and the
  47 shapes;
- the brush's anchors and footprint, and the fact that a stroke changes only
  tiles it draws;
- the save/parse round trip of the map document;
- the OK handler warns exactly when tiles would be lost, and its rewrite
  keeps every surviving cell pointing at the same global tileset or
  autotile;
- removing a map from the order list takes out exactly its subtree;
- the capacity change asks exactly when defined tilesets would be lost.

The map document's source file is an older revision of the format than the
one the widget uses. Its cells hold a tileset index and a tile number, and it
has no autotile list and no `Resize`. The `MkdMap` module follows that file
as written. The widget's modules follow the newer cell format (tile type,
local index, shape or tile ID) that `MapImageWidget.cs` reads.

Inputs that come from the rest of the editor are parameters:
- the catalog of autotiles (`Data.Autotiles`) and of tilesets;
- the cursor and the palette of the tiles panel;
- the selection;
- the eraser button;
- the "show map animations" setting;
- the buttons pressed in message boxes;
- the enumeration order of the map table.

## Model

| member | source | states |
|---|---|---|
| Tiles.Denote | Widgets/Mapping/MapImageWidget.cs:452-457 | a cell denotes nothing exactly when it is null; otherwise it keeps type and index, and a tileset tile keeps its ID too |
| Tiles.SameTileIsDenoteEquality | Widgets/Mapping/MapImageWidget.cs:452-457 | the brush's "same tile" test holds exactly when both cells denote the same content (an autotile's shape ID is ignored) |
| Tiles.SameTileReflexive | Widgets/Mapping/MapImageWidget.cs:452-457 | painting a cell with its own content is never a change |
| Tiles.Group | Widgets/Mapping/MapImageWidget.cs:570-609 | the neighbour test sees a cell only as "autotile of group g" or nothing |
| Tiles.CsRem | Widgets/Mapping/MapImageWidget.cs:398-399 | C#'s `%` lies strictly between -b and b, agrees with the Euclidean remainder on non-negative dividends and is non-positive on negative ones |
| Tiles.CsRemCongruent | Widgets/Mapping/MapImageWidget.cs:398-399 | the truncating remainder is the Euclidean remainder or that minus the divisor |
| Tiles.PosInRange | Widgets/Mapping/MapImageWidget.cs:407 | a tile inside the map has its flat position inside the layer's tile list |
| Tiles.PosInjective | Widgets/Mapping/MapImageWidget.cs:407 | distinct tiles of one row width have distinct flat positions |
| Tiles.PosDecompose | Widgets/Mapping/MapImageWidget.cs:92 | every flat position is the position of exactly the tile (p % w, p / w), which lies on the map |
| AutotileShapes.ShapeId | Widgets/Mapping/MapImageWidget.cs:614-661 | the 47-way chain always ends with an ID in 0..46 (never the -1 it starts from), 46 exactly when no edge neighbour is connected, 0 when all eight are |
| AutotileShapes.Normalize | Widgets/Mapping/MapImageWidget.cs:614-661 | the normal form keeps the four edges and keeps a corner only when both edges beside it are connected |
| AutotileShapes.DecodeThenShape | Widgets/Mapping/MapImageWidget.cs:614-661 | each ID 0..46 is produced from exactly the neighbourhood its independent description gives, which is in normal form |
| AutotileShapes.ShapeThenDecode | Widgets/Mapping/MapImageWidget.cs:614-661 | the table maps any neighbourhood to the ID whose description is that neighbourhood's normal form |
| AutotileShapes.SameShapeIffSameNormalForm | Widgets/Mapping/MapImageWidget.cs:614-661 | two neighbourhoods get the same shape ID if and only if their normal forms agree (the table is a bijection from normal forms onto 0..46) |
| AutotileShapes.CornerIrrelevance | Widgets/Mapping/MapImageWidget.cs:614-661 | a corner neighbour changes the shape only when both adjacent edges are connected |
| AutotileShapes.SameGroupAtMeaning | Widgets/Mapping/MapImageWidget.cs:570-609 | a neighbour flag holds exactly when the cell is on the map, non-null, an autotile and of the requested index |
| AutotileShapes.ShapeAt | Widgets/Mapping/MapImageWidget.cs:563-661 | the ID computed for any cell lies in 0..46 |
| AutotileShapes.ShapeDependsOnlyOnGroups | Widgets/Mapping/MapImageWidget.cs:570-609 | layers whose cells have the same autotile groups give every cell the same neighbourhood and shape |
| AutotileShapes.DistantCellIrrelevant | Widgets/Mapping/MapImageWidget.cs:564-609 | rewriting the cell itself or any cell outside its ring of eight never changes its neighbourhood |
| AutotileShapes.OtherCellsUnchanged | Widgets/Mapping/MapImageWidget.cs:461 | writing one tile leaves what every other coordinate reads unchanged |
| AutotileShapes.IsolatedTile | Widgets/Mapping/MapImageWidget.cs:614-661 | a cell gets the lone-tile shape 46 if and only if none of its four edge neighbours is in its group |
| AutotileShapes.FullIsland | Widgets/Mapping/MapImageWidget.cs:614-661 | in a 3x3 block of one group the centre is fully connected (0) and each rim cell gets the shape for exactly its missing neighbours |
| Rendering.StripWidth | Widgets/Mapping/MapImageWidget.cs:532-538 | one animation frame is 32 pixels wide for a single-format autotile and 96 for the others |
| Rendering.Frame | Widgets/Mapping/MapImageWidget.cs:134 | the frame after `count` ticks is the floor of count / speed |
| Rendering.RedrawExactlyOnFrameChange | Widgets/Mapping/MapImageWidget.cs:122-135 | a tick redraws an entry exactly when its frame number changes, and then it advances by one |
| Rendering.AnimOffset | Widgets/Mapping/MapImageWidget.cs:532-538 | the strip offset always lies inside the autotile image |
| Rendering.AnimationCycles | Widgets/Mapping/MapImageWidget.cs:532-538 | on an image of n frames the offset is the frame's strip modulo n, and it repeats every n frames |
| Rendering.TilesetSource | Widgets/Mapping/MapImageWidget.cs:185-187 | a tileset tile's source square lies in the 8-column sheet, on the 32-pixel grid, and the ID is read back from its position |
| Rendering.TilesetSourceInjective | Widgets/Mapping/MapImageWidget.cs:507 | different tile IDs draw from different squares |
| Rendering.QuadrantTarget | Widgets/Mapping/MapImageWidget.cs:207 | each of the four 16-pixel quadrants lies inside the 32-pixel cell |
| Rendering.QuadrantsPartitionCell | Widgets/Mapping/MapImageWidget.cs:540-548 | every pixel of a cell lies in exactly one of the four quadrants |
| Rendering.QuadrantSource | Widgets/Mapping/MapImageWidget.cs:551-552 | a piece's source square lies in the frame's 6-column strip and the piece number is read back from it |
| AutotileUpdate.RingIndex | Widgets/Mapping/MapImageWidget.cs:564-569 | each of the eight neighbours has a position in the visiting order whose offsets lead back to it |
| AutotileUpdate.RingOffset | Widgets/Mapping/MapImageWidget.cs:564-569 | the eight offsets are exactly the eight neighbours, in order |
| AutotileUpdate.SetId | Widgets/Mapping/MapImageWidget.cs:673 | rewriting a shape ID keeps the cell's type, index and group, and an autotile's denoted content |
| AutotileUpdate.NewEntry | Widgets/Mapping/MapImageWidget.cs:674-678 | a rewritten autotile is registered exactly when its global autotile animates, with one entry naming its cell |
| AutotileUpdate.UpdatePreservesGroups | Widgets/Mapping/MapImageWidget.cs:561-714 | the updater (with all its recursive calls) only rewrites shape IDs, so every cell keeps its autotile group |
| AutotileUpdate.SameGroupsSameShape | Widgets/Mapping/MapImageWidget.cs:561-714 | layers with the same groups resolve every cell to the same shape |
| AutotileUpdate.CellAtWrite | Widgets/Mapping/MapImageWidget.cs:673 | writing a cell's ID changes that cell and no other |
| AutotileUpdate.CentreStepTiles | Widgets/Mapping/MapImageWidget.cs:610-699 | the layer after the call's own cell step: the cell rewritten with its resolved shape when it is resolved, unchanged otherwise |
| AutotileUpdate.CentreStepEntries | Widgets/Mapping/MapImageWidget.cs:662-678 | the registry after the own-cell step: the cell's first entry removed and the new registration appended |
| AutotileUpdate.RingStepCell | Widgets/Mapping/MapImageWidget.cs:701-713 | neighbour call k rewrites neighbour k, if it holds an autotile, and no other cell |
| AutotileUpdate.NeighbourStepTiles | Widgets/Mapping/MapImageWidget.cs:705-712 | after neighbour call k the layer is the result of the own step and the first k+1 neighbour steps |
| AutotileUpdate.NeighbourStepEntries | Widgets/Mapping/MapImageWidget.cs:705-712 | likewise for the registry |
| AutotileUpdate.UpdateResolves | Widgets/Mapping/MapImageWidget.cs:561-714 | after a checking call, every neighbour and the call's own autotile cell show their resolved shape |
| AutotileUpdate.UpdateKeepsDistant | Widgets/Mapping/MapImageWidget.cs:561-714 | a cell outside the call's ring keeps its content and whether it is resolved |
| AutotileUpdate.UpdateKeepsContent | Widgets/Mapping/MapImageWidget.cs:561-714 | no cell's denoted content changes: only autotile shape IDs are rewritten |
| AutotileUpdate.UpdateRegisters | Widgets/Mapping/MapImageWidget.cs:662-678 | every rewritten cell ends with exactly the registration its new content calls for; all other cells keep their entries and contents; only on-map neighbours are rewritten |
| Registry.EntriesAtMembers | Widgets/Mapping/MapImageWidget.cs:21 | the entries of a cell are exactly the registry entries naming that layer and tile |
| Registry.EntriesAtAppend | Widgets/Mapping/MapImageWidget.cs:194 | appending to the registry appends to each cell's entries |
| Registry.RemoveFirstAt | Widgets/Mapping/MapImageWidget.cs:479-487 | the removal loop drops one entry when the cell has one and none otherwise, and keeps only registry entries |
| Registry.RemoveFirstAtEntries | Widgets/Mapping/MapImageWidget.cs:479-487 | removing drops exactly the first entry of that cell and leaves every other cell's entries as they were |
| Registry.RemoveFirstAtSplit | Widgets/Mapping/MapImageWidget.cs:479-487 | what the loop with `break` computes: the first entry at the cell is the one taken out |
| Registry.RemoveFirstAtAbsent | Widgets/Mapping/MapImageWidget.cs:479-487 | with no entry at the cell, the loop removes nothing |
| Registry.ExpectedFor | Widgets/Mapping/MapImageWidget.cs:194 | a cell calls for at most one entry, naming it, its global autotile and its shape, and for one exactly when its autotile animates |
| Registry.SpeedOf | Widgets/Mapping/MapImageWidget.cs:192-194 | a positive speed implies the local index and its global ID are in range |
| Registry.AllAnimateAt | Widgets/Mapping/MapImageWidget.cs:122 | under the invariant every entry names a catalog autotile with a non-zero speed |
| Registry.RegistryOkSound | Widgets/Mapping/MapImageWidget.cs:120-135 | under the registry invariant every entry names a cell of the map holding an autotile, and its autotile animates, so the tick never divides by zero |
| Registry.RegistryOkUnique | Widgets/Mapping/MapImageWidget.cs:479-487 | under the invariant no cell has two entries, so removing the first one removes all of them |
| Registry.Relabel | Widgets/Mapping/MapImageWidget.cs:145-149 | renumbering keeps the registry's length and changes only each entry's layer |
| Registry.RelabelEntries | Widgets/Mapping/MapImageWidget.cs:145-149 | after a renumbering, a cell's entries on layer l are the renumbered entries of the one layer that maps to l |
| Registry.SwapNumber | Widgets/Mapping/MapImageWidget.cs:147-148 | the swap sends layer i to j, j to i and every other layer to itself |
| Registry.ShiftUp | Widgets/Mapping/MapImageWidget.cs:68-75 | inserting at index moves the layers from index up by one and keeps the ones below |
| Registry.ShiftDown | Widgets/Mapping/MapImageWidget.cs:98-106 | deleting layer index moves the layers above it down by one and keeps the rest |
| Registry.LayerScan | Widgets/Mapping/MapImageWidget.cs:163-220 | every registration of a layer's bitmap drawing names that layer, a tile on the map and an animating autotile |
| Registry.ScanToEntries | Widgets/Mapping/MapImageWidget.cs:168-217 | the row-major scan registers each tile it has passed exactly as its content calls for, and nothing for the rest |
| Registry.ScanToStep | Widgets/Mapping/MapImageWidget.cs:168-217 | one step of the scan appends the expected entries of the tile it passes, and a row's end is the next row's start |
| Registry.ScanMembers | Widgets/Mapping/MapImageWidget.cs:168-217 | every registration of a partial scan names a tile already passed and an animating autotile |
| Registry.LayerScanEntries | Widgets/Mapping/MapImageWidget.cs:163-220 | the whole scan gives each tile on the map exactly its expected entries and no other cell any |
| Lists.Distinct | Widgets/Mapping/MapImageWidget.cs:118-126 | the list built by adding each value not yet present has no duplicates and holds exactly the values of the input |
| Lists.DistinctSnoc | Widgets/Mapping/MapImageWidget.cs:124 | one more step adds the value only when it is not already in the list |
| Painting.RegistryOkLayer | Widgets/Mapping/MapImageWidget.cs:475-524 | the registry invariant read for one layer: every cell of that layer has exactly the entries its content calls for |
| Painting.RegistryOkFromLayer | Widgets/Mapping/MapImageWidget.cs:475-524 | the invariant is restored from a fully registered painted layer when every other layer and its entries are untouched |
| Painting.RemoveStep | Widgets/Mapping/MapImageWidget.cs:479-487 | DrawTile's first loop leaves the written cell with no entry and every other cell and layer as registered before |
| Painting.UpdateStep | Widgets/Mapping/MapImageWidget.cs:489-492 | an updater call keeps every cell correctly registered (and fills the written cell when it writes it) and touches no other layer |
| Painting.RegisterStep | Widgets/Mapping/MapImageWidget.cs:512-517 | registering the placed preset autotile fills the cell's empty slot and touches no other layer |
| Painting.WriteKeepsDistant | Widgets/Mapping/MapImageWidget.cs:461 | writing a cell leaves the shape of every cell that is neither it nor next to it as resolved as before |
| Painting.WriteKeepsGroups | Widgets/Mapping/MapImageWidget.cs:461 | writing a group-less cell over a group-less cell changes no group |
| Painting.UpdateKeepsGroupAt | Widgets/Mapping/MapImageWidget.cs:561-714 | a checking call leaves its own cell in its group, and untouched when deleting |
| Painting.WriteResolvedAway | Widgets/Mapping/MapImageWidget.cs:461 | placing a tile disturbs no autotile shape away from its cell and its ring |
| Painting.UpdateResolvedAway | Widgets/Mapping/MapImageWidget.cs:701-713 | nor does an updater call at that cell |
| Painting.CallResolvesAll | Widgets/Mapping/MapImageWidget.cs:489-492 | after a write and the updater call at the written cell, every autotile of the layer shows its resolved shape |
| Painting.WriteNoGroupResolved | Widgets/Mapping/MapImageWidget.cs:461 | replacing a group-less cell by another keeps a resolved layer resolved |
| Painting.UpdateSameContent | Widgets/Mapping/MapImageWidget.cs:561-714 | an updater call changes no cell's denoted content |
| Animation.Due | Widgets/Mapping/MapImageWidget.cs:120-126 | the entries the tick redraws are exactly the registry entries whose speed divides the count |
| Animation.DueSnoc | Widgets/Mapping/MapImageWidget.cs:131-135 | one more entry visited adds it exactly when it is due |
| Animation.LayersOf | Widgets/Mapping/MapImageWidget.cs:124 | the layer of each entry, in order |
| Animation.TickRedraws | Widgets/Mapping/MapImageWidget.cs:131-135 | each due entry is redrawn at the floor of count / speed |
| Animation.StillRedraws | Widgets/Mapping/MapImageWidget.cs:236-239 | with animations off every entry is redrawn at frame 0 |
| Animation.DueIffFrameChanged | Widgets/Mapping/MapImageWidget.cs:122-134 | an entry is redrawn on exactly the ticks on which its frame changes: no frame change is missed and no unchanged cell is redrawn |
| Animation.CollectDueLayers | Widgets/Mapping/MapImageWidget.cs:118-126 | the first loop of the tick yields the layers of the due entries, each once, in registry order |
| Animation.CollectDueRedraws | Widgets/Mapping/MapImageWidget.cs:131-135 | the second loop of the tick redraws exactly the due entries, in order, each at its current frame |
| Animation.CollectLayers | Widgets/Mapping/MapImageWidget.cs:226-231 | SetMapAnimations(false) unlocks the layers of all entries, each once |
| Animation.CollectStillRedraws | Widgets/Mapping/MapImageWidget.cs:236-239 | SetMapAnimations(false) redraws every entry at frame 0 |
| Animation.TickTestAsWritten | Widgets/Mapping/MapImageWidget.cs:122 | the tick's test throws (division by zero) exactly when the entry's autotile has speed 0, and otherwise is the due test |
| Animation.PresetRegistrationAsWrittenThrows | Widgets/Mapping/MapImageWidget.cs:514 | the as-written DrawTile registers a preset autotile of speed 0, on which the tick's test throws; the corrected registration makes no entry |
| Animation.AutotileBlits | Widgets/Mapping/MapImageWidget.cs:526-559 | DrawAutotile draws one 32-pixel square for a single autotile and four quadrants otherwise, all inside the cell, from inside the frame's strip |
| Animation.SingleOffsetAligned | Widgets/Mapping/MapImageWidget.cs:532 | a single-image offset is a whole number of tiles when the image width is |
| LayerOps.AllScansEntries | Widgets/Mapping/MapImageWidget.cs:288-293 | after RedrawLayers scans layers 0..n-1, every cell of those layers has exactly its expected entries and no other cell has any |
| LayerOps.AllScansStep | Widgets/Mapping/MapImageWidget.cs:289-293 | scanning layer n-1 after layers 0..n-2 extends the property to layer n-1 |
| LayerOps.AllScansMembers | Widgets/Mapping/MapImageWidget.cs:288-293 | every entry of the rebuilt registry names a scanned layer, a tile on the map and an animating autotile |
| LayerOps.AllScansOk | Widgets/Mapping/MapImageWidget.cs:269-296 | the registry RedrawLayers rebuilds satisfies the registry invariant for the whole map |
| LayerOps.RelabelExpected | Widgets/Mapping/MapImageWidget.cs:145-149 | renumbering a cell's expected entries is expecting them under the new layer number |
| LayerOps.RelabelInMap | Widgets/Mapping/MapImageWidget.cs:145-149 | a renumbering into the new layer range keeps every entry on the map and animating |
| LayerOps.RelabelCell | Widgets/Mapping/MapImageWidget.cs:145-160 | a cell whose layer moved keeps its expected entries under the renumbering |
| LayerOps.SwapKeepsRegistry | Widgets/Mapping/MapImageWidget.cs:143-161 | SwapLayers' renumbering of entries together with the exchange of the two layers keeps the registry invariant |
| LayerOps.InsertKeepsRegistry | Widgets/Mapping/MapImageWidget.cs:66-82 | the corrected CreateNewLayer (entries shifted up, then the new layer scanned) keeps the registry invariant |
| LayerOps.InsertCell | Widgets/Mapping/MapImageWidget.cs:66-82 | one cell of that insertion is correctly registered |
| LayerOps.ClearScan | Widgets/Mapping/MapImageWidget.cs:88-97 | the removal loop of DeleteLayer only drops entries |
| LayerOps.ClearScanEntries | Widgets/Mapping/MapImageWidget.cs:88-97 | the removal loop drops the first entry of each non-empty tile it has passed and leaves every other cell's entries alone |
| LayerOps.ClearScanStep | Widgets/Mapping/MapImageWidget.cs:90-96 | the loop's visit of one tile extends that property by the tile |
| LayerOps.ClearScanRemovesLayer | Widgets/Mapping/MapImageWidget.cs:88-97 | under the invariant the removal loop leaves no entry of the deleted layer and keeps every entry of the others |
| LayerOps.ClearScanNoLayer | Widgets/Mapping/MapImageWidget.cs:88-97 | under the invariant no entry of the deleted layer survives the loop |
| LayerOps.DeleteKeepsRegistry | Widgets/Mapping/MapImageWidget.cs:84-107 | the corrected DeleteLayer (entries cleared, those above shifted down, layer removed) keeps the registry invariant |
| LayerOps.DeleteCell | Widgets/Mapping/MapImageWidget.cs:84-107 | one cell of that deletion is correctly registered |
| LayerOps.InsertAsWrittenBreaksRegistry | Widgets/Mapping/MapImageWidget.cs:66-82 | with the entries not renumbered, inserting an empty layer below an animated one leaves an entry naming the wrong layer |
| LayerOps.DeleteAsWrittenBreaksRegistry | Widgets/Mapping/MapImageWidget.cs:84-107 | with the entries not renumbered, deleting the layer below an animated one leaves an entry naming a layer that no longer exists |
| Brush.TileOf | Widgets/Mapping/MapImageWidget.cs:324-325 | the tile of a pixel coordinate is the one whose 32 pixels contain it (the floor of v / 32, also for negative v) |
| Brush.TileOfMonotone | Widgets/Mapping/MapImageWidget.cs:357-358 | a larger pixel coordinate never falls in an earlier tile |
| Brush.RectTilesMembers | Widgets/Mapping/MapImageWidget.cs:339-345 | the fill list holds exactly the tiles of the rectangle, each once |
| Brush.FillCoords | Widgets/Mapping/MapImageWidget.cs:339-345 | the fill's nested loops build the rectangle's tiles row by row |
| Brush.FillRow | Widgets/Mapping/MapImageWidget.cs:341-344 | the inner loop appends the columns of one row in order |
| Brush.RoundHalfEven | Widgets/Mapping/MapImageWidget.cs:356 | `Math.Round` of n / d is the nearest integer, and on a tie the even one |
| Brush.RoundExact | Widgets/Mapping/MapImageWidget.cs:356 | a whole value rounds to itself |
| Brush.RoundBetween | Widgets/Mapping/MapImageWidget.cs:356 | a quotient between two integers rounds to a value between them |
| Brush.RoundLine | Widgets/Mapping/MapImageWidget.cs:353-369 | the rounded line meets both of its ends and stays between them |
| Brush.InterpolateBetween | Widgets/Mapping/MapImageWidget.cs:355-356 | on the sweep's range the corrected interpolation meets both ends and stays between them |
| Brush.SweepsAt | Widgets/Mapping/MapImageWidget.cs:353-369 | step k of the two sweeps reaches the tile of column Low + k, then of row Low + (k - columns) |
| Brush.LineMembers | Widgets/Mapping/MapImageWidget.cs:353-369 | the line's list holds exactly the tiles the two sweeps reach, each once |
| Brush.SweptTile | Widgets/Mapping/MapImageWidget.cs:353-369 | a tile the sweeps reach comes from one of the swept columns or rows |
| Brush.XSwept | Widgets/Mapping/MapImageWidget.cs:353-360 | every swept column's tile is reached |
| Brush.YSwept | Widgets/Mapping/MapImageWidget.cs:362-369 | every swept row's tile is reached |
| Brush.LineEndpoints | Widgets/Mapping/MapImageWidget.cs:347-370 | the corrected line starts at the tile of its first point and ends at the tile of its last |
| Brush.LineInBox | Widgets/Mapping/MapImageWidget.cs:347-370 | every tile of the corrected line lies in the box of tiles spanned by its ends |
| Brush.VerticalLineAsWrittenStrays | Widgets/Mapping/MapImageWidget.cs:355-356 | for a vertical stroke the as-written sweep (0/0 gives NaN, cast to an integer) adds a tile outside the stroke's box; the corrected one does not |
| Brush.ColumnStep | Widgets/Mapping/MapImageWidget.cs:353-360 | the column sweep's step at pixel column x adds that column's tile |
| Brush.RowStep | Widgets/Mapping/MapImageWidget.cs:362-369 | the row sweep's step at pixel row y adds that row's tile |
| Brush.AddAbsent | Widgets/Mapping/MapImageWidget.cs:359 | adding a tile unless present keeps the list the distinct tiles seen so far |
| Brush.LineCoords | Widgets/Mapping/MapImageWidget.cs:347-370 | the line's two loops build exactly the distinct swept tiles, in order of first reach |
| Brush.ColumnSweep | Widgets/Mapping/MapImageWidget.cs:353-360 | the first loop builds the distinct tiles of the column sweep |
| Brush.RowSweep | Widgets/Mapping/MapImageWidget.cs:361-369 | the second loop adds the row sweep's tiles, giving the whole line |
| Brush.AnchorsMeaning | Widgets/Mapping/MapImageWidget.cs:305-374 | a fill is refused exactly when an active selection does not hold the clicked tile, and otherwise lists exactly the selection's (or the map's) tiles; a point lists its one tile; a line holds both end tiles; no mode lists a tile twice |
| Brush.ComputeAnchors | Widgets/Mapping/MapImageWidget.cs:307-374 | the first half of DrawTiles lists exactly the anchors of the fill, line or point, and reports a refused fill |
| Brush.FootInjective | Widgets/Mapping/MapImageWidget.cs:405-406 | distinct footprint cells cover distinct map tiles |
| Brush.Realign | Widgets/Mapping/MapImageWidget.cs:417-426 | the palette column or row picked is in range and equals the tile's distance from the origin, modulo the footprint size |
| Brush.RealignStep | Widgets/Mapping/MapImageWidget.cs:417-426 | the value reduced last is not negative and congruent to that distance |
| Brush.RealignOffset | Widgets/Mapping/MapImageWidget.cs:417-426 | the source's subtract-and-wrap steps compute Realign |
| Brush.PatternIndex | Widgets/Mapping/MapImageWidget.cs:428 | the origin-aligned pattern always picks a palette cell in range |
| Brush.PaletteIndex | Widgets/Mapping/MapImageWidget.cs:417-428 | the palette cell drawn for a footprint cell is the pattern's cell for the map tile it covers |
| Brush.StampWrite | Widgets/Mapping/MapImageWidget.cs:401-470 | drawing one footprint cell keeps the layer's size |
| Brush.StampWriteSkipped | Widgets/Mapping/MapImageWidget.cs:408-415 | a footprint cell off the map or outside an active selection is skipped |
| Brush.StampWriteDrawn | Widgets/Mapping/MapImageWidget.cs:428-461 | a drawn footprint cell writes the new tile from its palette cell at its map tile |
| Brush.StampToStep | Widgets/Mapping/MapImageWidget.cs:401-470 | drawing one more footprint cell keeps the layer matching the specification of the first j + 1 cells |
| Brush.Painted | Widgets/Mapping/MapImageWidget.cs:377-471 | the stroke's result keeps the layer's size |
| Brush.StampLaysPattern | Widgets/Mapping/MapImageWidget.cs:401-470 | laying a footprint puts on every tile it draws the pattern's palette tile for that tile (nothing when erasing) |
| Brush.StampOnlyCovered | Widgets/Mapping/MapImageWidget.cs:401-470 | laying a footprint changes only tiles it draws |
| Brush.PaintedOnlyCovered | Widgets/Mapping/MapImageWidget.cs:377-471 | a stroke changes only tiles one of its footprints draws: tiles off the map or outside an active selection keep what they hold |
| Brush.SameContentWrite | Widgets/Mapping/MapImageWidget.cs:461 | writing the same cell of two alike layers keeps them alike |
| Brush.SameContentRepaint | Widgets/Mapping/MapImageWidget.cs:452-459 | skipping a write the brush considers the same changes nothing the layer denotes |
| Brush.SameContentStamp | Widgets/Mapping/MapImageWidget.cs:401-470 | drawing a footprint cell on two alike layers keeps them alike |
| Brush.SameContentStampTo | Widgets/Mapping/MapImageWidget.cs:401-470 | laying a footprint on two alike layers keeps them alike |
| Brush.SameContentStampAll | Widgets/Mapping/MapImageWidget.cs:377-471 | a layer alike to a footprint laid on cur is alike to the footprint laid on any layer alike to cur |
| MapImage.LayerOkGroup | Widgets/Mapping/MapImageWidget.cs:570-609 | an autotile found on a well-formed layer names one of the map's autotile slots |
| MapImage.LayerOkUpdated | Widgets/Mapping/MapImageWidget.cs:673 | rewriting the shape IDs of a layer keeps it covering the map with valid autotile slots |
| MapImage.RemoveLayerOk | Widgets/Mapping/MapImageWidget.cs:106 | removing a layer keeps every remaining layer well formed |
| MapImage.ChangeAt | Widgets/Mapping/MapImageWidget.cs:459-469 | a change the brush logs names a drawn tile of the map, inside an active selection, whose tile really changed |
| MapImage.FootprintCorner | Widgets/Mapping/MapImageWidget.cs:385-399 | the footprint starts at the anchor moved to the cursor's top-left corner, and the origin's offset from it is taken with C#'s truncating remainder |
| MapImage.FootprintSource | Widgets/Mapping/MapImageWidget.cs:401-428 | footprint cell j covers map tile (FootX, FootY) and draws the palette cell the realignment picks |
| MapImage.PaletteColumn | Widgets/Mapping/MapImageWidget.cs:417-421 | the subtract-and-wrap steps give the specified palette column |
| MapImage.PaletteRow | Widgets/Mapping/MapImageWidget.cs:422-426 | the subtract-and-wrap steps give the specified palette row |
| MapImage.MapImageWidget.RemoveFirstEntry | Widgets/Mapping/MapImageWidget.cs:479-487 | the first registry entry naming the cell, if any, is removed and no other |
| MapImage.MapImageWidget.UpdateAutotiles | Widgets/Mapping/MapImageWidget.cs:561-714 | the cell gets the shape its eight neighbours select (unless deleting) and, when checking, each autotile neighbour is updated in ring order; only that layer's tiles change, the registry follows the specification, and the widget invariant holds |
| MapImage.MapImageWidget.AssignShape | Widgets/Mapping/MapImageWidget.cs:662-678 | the cell's shape ID is set, its first entry is dropped and a new one added when its autotile animates |
| MapImage.MapImageWidget.UpdateNeighbour | Widgets/Mapping/MapImageWidget.cs:701-712 | one step of the neighbour updates moves the tiles and the registry from the state after k neighbours to the state after k + 1 |
| MapImage.MapImageWidget.DrawTile | Widgets/Mapping/MapImageWidget.cs:475-524 | redrawing a stored tile keeps what the layer denotes, keeps the registry invariant and, unless it is a preset autotile shape, keeps every autotile's shape resolved (the corrected registration, see Findings) |
| MapImage.MapImageWidget.ClearCell | Widgets/Mapping/MapImageWidget.cs:479-492 | the cell's entries are dropped and the old autotile's neighbours are updated; the cell keeps its new tile |
| MapImage.MapImageWidget.PlaceTile | Widgets/Mapping/MapImageWidget.cs:494-522 | a tileset tile needs nothing; an autotile is registered with its preset shape or resolved with its neighbours (the corrected registration, see Findings) |
| MapImage.MapImageWidget.DrawTiles | Widgets/Mapping/MapImageWidget.cs:305-473 | a refused fill changes nothing; otherwise the layer becomes the specified painting of every anchor's footprint, only that layer changes, each logged change is a real change of a drawn tile, an empty log means nothing changed, and the registry invariant and resolved shapes are kept |
| MapImage.MapImageWidget.StampNext | Widgets/Mapping/MapImageWidget.cs:376-471 | laying the footprint of anchor i carries the loop's invariants from i anchors to i + 1 |
| MapImage.MapImageWidget.StampAnchor | Widgets/Mapping/MapImageWidget.cs:377-471 | laying one anchor's footprint makes the layer the footprint's specification and keeps the same guarantees as DrawTiles |
| MapImage.MapImageWidget.StampFootprintCell | Widgets/Mapping/MapImageWidget.cs:401-470 | drawing one footprint cell matches its specification and logs a change only for a real change |
| MapImage.MapImageWidget.StampCell | Widgets/Mapping/MapImageWidget.cs:440-469 | the new tile is stored; a change is logged exactly when the old and new tile differ, and then DrawTile is called |
| MapImage.MapImageWidget.constructor | Widgets/Mapping/MapImageWidget.cs:259-267 | loading a map builds the registry from all of its layers, which makes the registry invariant hold |
| MapImage.MapImageWidget.GetLayerBitmap | Widgets/Mapping/MapImageWidget.cs:163-220 | drawing a layer appends the registration of each of its animating autotiles, row by row |
| MapImage.MapImageWidget.DrawLayerRow | Widgets/Mapping/MapImageWidget.cs:171-216 | one row of the layer's scan appends that row's registrations |
| MapImage.MapImageWidget.DrawLayerTile | Widgets/Mapping/MapImageWidget.cs:174-211 | a tile appends an entry exactly when it is an autotile that animates |
| MapImage.MapImageWidget.RedrawLayers | Widgets/Mapping/MapImageWidget.cs:269-296 | the registry is cleared and rebuilt from every layer in order, so it holds exactly the animating autotiles |
| MapImage.MapImageWidget.Renumber | Widgets/Mapping/MapImageWidget.cs:145-149 | every entry's layer is renumbered in place by the given numbering, as the swap loop does for two layers |
| MapImage.MapImageWidget.SwapEntryLayers | Widgets/Mapping/MapImageWidget.cs:145-149 | entries of the two layers trade layer numbers; others stay |
| MapImage.MapImageWidget.SwapLayers | Widgets/Mapping/MapImageWidget.cs:143-161 | the two layers trade places with their entries, which keeps the registry invariant |
| MapImage.MapImageWidget.InsertLayer | Widgets/Mapping/MapImageWidget.cs:68-75 | the layer is inserted at the index and every registry entry of a layer from the index up is renumbered one higher |
| MapImage.MapImageWidget.CreateNewLayer | Widgets/Mapping/MapImageWidget.cs:66-82 | the layer is inserted at the index, entries above it are renumbered up (the corrected behaviour) and its autotiles registered, keeping the registry invariant |
| MapImage.MapImageWidget.ClearLayerEntries | Widgets/Mapping/MapImageWidget.cs:88-97 | for every non-empty tile of the layer, row by row, the first entry naming it is removed |
| MapImage.MapImageWidget.DeleteLayer | Widgets/Mapping/MapImageWidget.cs:84-107 | the layer and its entries go, entries above it are renumbered down (the corrected behaviour), which keeps the registry invariant |
| MapImage.MapImageWidget.Tick | Widgets/Mapping/MapImageWidget.cs:109-141 | with animations shown the count advances and exactly the due layers (each once) and due autotiles are redrawn; hidden, nothing happens |
| MapImage.MapImageWidget.SetMapAnimations | Widgets/Mapping/MapImageWidget.cs:222-245 | switching animations off advances the count and redraws every registered autotile at frame 0 and every layer holding one, once; switching on does nothing |
| MkdMap.Mul32 | Game/MKD/Map.cs:93 | `width * height` is the 32-bit product: exact when it fits, otherwise congruent to it modulo 2^32 |
| MkdMap.NatString | Game/MKD/Map.cs:40 | a number prints as at least one digit, and as one digit exactly below 10 |
| MkdMap.LayerJson | Game/MKD/Map.cs:128-137 | a saved layer has one entry per cell, null exactly for an empty cell |
| MkdMap.LayersJson | Game/MKD/Map.cs:72-77 | one saved list per layer |
| MkdMap.IdsJson | Game/MKD/Map.cs:78 | one saved number per tileset ID |
| MkdMap.ParseTile | Game/MKD/Map.cs:43-50 | a null entry is an empty cell; a parsed cell's tileset index and tile number are the list's first two entries; every failure is a malformed dictionary |
| MkdMap.ParseTiles | Game/MKD/Map.cs:41-51 | a saved layer parses exactly when every entry does, into one cell per entry |
| MkdMap.ParseLayers | Game/MKD/Map.cs:38-53 | the saved layers parse into one cell list each |
| MkdMap.ParseIds | Game/MKD/Map.cs:54 | the tileset list parses into one 32-bit ID per entry |
| MkdMap.ParseMap | Game/MKD/Map.cs:23-61 | a dictionary that parses carries the class tag "MKD::Map" |
| MkdMap.ClassCheck | Game/MKD/Map.cs:25-32 | a dictionary is refused for a missing "^c" exactly when it has none, and for a wrong class exactly when its "^c" is not "MKD::Map" |
| MkdMap.LayerRoundTrip | Game/MKD/Map.cs:41-51 | saving a layer's cells and parsing them back gives the same cells |
| MkdMap.LayersRoundTrip | Game/MKD/Map.cs:38-53 | saving all layers and parsing them back gives the same layers |
| MkdMap.IdsRoundTrip | Game/MKD/Map.cs:54 | saving the tileset IDs and parsing them back gives the same IDs |
| MkdMap.MapRoundTrip | Game/MKD/Map.cs:23-86 | saving a map and loading the dictionary back gives the same map contents |
| MkdMap.Nulls | Game/MKD/Map.cs:93 | SetSize's cells are all empty, as many as asked |
| MkdMap.Layer.constructor | Game/MKD/Map.cs:123-126 | a new layer has the given name, no cells, and is visible |
| MkdMap.Layer.ToJSON | Game/MKD/Map.cs:128-137 | the layer's loop saves exactly its cells' saved form |
| MkdMap.Map.constructor | Game/MKD/Map.cs:21 | the empty map has no layers, tilesets or events and is not in the order list |
| MkdMap.Map.ToJSON | Game/MKD/Map.cs:63-86 | the saved dictionary is the saved form of the map's contents |
| MkdMap.Map.SetSize | Game/MKD/Map.cs:88-95 | the map gets the new size, one visible "Layer 1" of width * height (32-bit, none when not positive) empty cells, and the single tileset 1; nothing else changes |
| MkdMap.Map.Clone | Game/MKD/Map.cs:102-114 | the clone copies every field, shares the layer objects, and is not marked as added |
| MkdMap.EditThroughClone | Game/MKD/Map.cs:110 | writing a cell through a clone writes the original map's layer |
| MkdMap.NewLayer | Game/MKD/Map.cs:40 | the k-th parsed layer is fresh, named "Layer k+1", visible and holds the given cells |
| MkdMap.BuildLayers | Game/MKD/Map.cs:38-53 | one fresh visible layer per saved layer, in order, named in order |
| MkdMap.Construct | Game/MKD/Map.cs:33-60 | a parsed map's fields become a fresh map with freshly built, named layers |
| MkdMap.Load | Game/MKD/Map.cs:23-61 | the constructor fails exactly as the dictionary parse does, and otherwise yields a fresh map whose contents are the parse's |
| CatalogRemap.ListChanged | Widgets/Windows/MapPropertiesWindow.cs:301-311 | the comparison loop reports a change exactly when the lists differ: in length, or at some position |
| CatalogRemap.IndexOf | Widgets/Windows/MapPropertiesWindow.cs:346 | the first position of the ID, or -1 exactly when it is absent |
| CatalogRemap.RemapCell | Widgets/Windows/MapPropertiesWindow.cs:340-346 | a cell of the other kind or an empty one is kept; a cell whose old ID is gone is emptied; any other keeps its tile number and points at the new position of the same global ID |
| CatalogRemap.RemapLayers | Widgets/Windows/MapPropertiesWindow.cs:336-348 | the rewrite keeps the number of layers, each layer's length, name and visibility |
| CatalogRemap.RemapMeaning | Widgets/Windows/MapPropertiesWindow.cs:336-348 | after the rewrite every kept cell denotes the same global tileset or autotile with the same tile number, removed ones are empty, and other cells are untouched |
| CatalogRemap.WarnIffTilesLost | Widgets/Windows/MapPropertiesWindow.cs:316-329 | the warning is raised exactly when the rewrite would empty some cell that holds a tile |
| CatalogRemap.RemapKeepsOtherKind | Widgets/Windows/MapPropertiesWindow.cs:312-376 | rewriting tileset cells leaves every autotile cell, and so the autotile stage's warning and rewrite, as they were |
| CatalogRemap.NoWarnKeepsEveryTile | Widgets/Windows/MapPropertiesWindow.cs:358-372 | without the warning the rewrite empties no cell, so the unreachable-code exception is never thrown |
| CatalogRemap.ScanLayer | Widgets/Windows/MapPropertiesWindow.cs:318-327 | the scan of one layer finds a stale cell exactly when the layer holds one |
| CatalogRemap.RewriteLayer | Widgets/Windows/MapPropertiesWindow.cs:338-347 | the rewrite loop of one layer computes the specified rewrite |
| CatalogRemap.AutotileStage | Widgets/Windows/MapPropertiesWindow.cs:212-291 | the window closes with the layers rewritten when the autotile list changed (unchanged when it did not), and stays open with the layers as they were only when tiles would be lost and the user did not continue |
| CatalogRemap.AfterOK | Widgets/Windows/MapPropertiesWindow.cs:205-377 | the window closes only when the tileset stage went through: the list is unchanged, nothing would be lost, or the user continued |
| CatalogRemap.PropertiesWindow.constructor | Widgets/Windows/MapPropertiesWindow.cs:24-27 | the window opens on a copy of the map's fields, nothing changed yet |
| CatalogRemap.PropertiesWindow.WarnScan | Widgets/Windows/MapPropertiesWindow.cs:316-328 | the warn scan over every layer is raised exactly when some layer holds a stale cell |
| CatalogRemap.PropertiesWindow.Rewrite | Widgets/Windows/MapPropertiesWindow.cs:336-348 | the rewrite loop over every layer sets the layers to the specified rewrite |
| CatalogRemap.PropertiesWindow.ContinueStage | Widgets/Windows/MapPropertiesWindow.cs:212-291 | the Continue action brings the window to the autotile stage's outcome and changes nothing else |
| CatalogRemap.PropertiesWindow.OK | Widgets/Windows/MapPropertiesWindow.cs:205-377 | the OK handler brings the window to the outcome of both stages, counting a resize or rename as an unsaved change, and changes nothing else |
| CatalogRemap.PropertiesWindow.TilesetStage | Widgets/Windows/MapPropertiesWindow.cs:300-376 | the tileset stage brings the window to the handler's outcome |
| MapOrder.RemoveID | Widgets/Mapping/Misc/MapSelectPanel.cs:237-266 | the in-place scan (RemoveAt, element replacement, recursion into sub-lists) yields the specified removal |
| MapOrder.KeepStep | Widgets/Mapping/Misc/MapSelectPanel.cs:241-264 | a step that keeps or replaces entry i carries the scan's specification from i to i + 1 |
| MapOrder.DropStep | Widgets/Mapping/Misc/MapSelectPanel.cs:253-256 | removing a sub-list headed by the ID moves the scan past the next entry unexamined |
| MapOrder.HitStep | Widgets/Mapping/Misc/MapSelectPanel.cs:244-248 | finding the ID itself removes it and keeps the rest of the list |
| MapOrder.ScanAbsent | Widgets/Mapping/Misc/MapSelectPanel.cs:237-266 | a list that does not hold the ID is left alone |
| MapOrder.ScanKeepsWF | Widgets/Mapping/Misc/MapSelectPanel.cs:237-266 | removal keeps every entry well formed |
| MapOrder.SubKeepsWF | Widgets/Mapping/Misc/MapSelectPanel.cs:257-264 | removal inside a sub-list keeps it well formed |
| MapOrder.ScanRemovesDoomed | Widgets/Mapping/Misc/MapSelectPanel.cs:237-266 | with the ID listed at most once, removal takes out exactly the map and the maps of its sub-list |
| MapOrder.DoomedListed | Widgets/Mapping/Misc/MapSelectPanel.cs:237-266 | every occurrence of the ID is removed, and only listed IDs are |
| MapOrder.RemoveIdExact | Widgets/Mapping/Misc/MapSelectPanel.cs:222 | removing a deleted map from the order takes out exactly it and its descendants, leaves no trace of the ID and keeps the list well formed |
| MapOrder.Collapsed | Widgets/Mapping/Misc/MapSelectPanel.cs:163-182 | collapsing keeps the list's length |
| MapOrder.SetCollapsed | Widgets/Mapping/Misc/MapSelectPanel.cs:163-182 | the in-place scan yields the specified list and always answers false |
| MapOrder.CollapsedIds | Widgets/Mapping/Misc/MapSelectPanel.cs:163-182 | setting a flag leaves the listed maps alone |
| MapOrder.CollapsedFlags | Widgets/Mapping/Misc/MapSelectPanel.cs:163-182 | afterwards the map that has children carries the new flag, and every other map keeps its own |
| MapOrder.Trees | Widgets/Mapping/Misc/MapSelectPanel.cs:72-89 | PopulateList builds one node per visited entry |
| MapOrder.TreesIds | Widgets/Mapping/Misc/MapSelectPanel.cs:72-89 | the nodes hold exactly the maps of the entries they were built from |
| MapOrder.ScannedWFShaped | Widgets/Mapping/Misc/MapSelectPanel.cs:81-84 | every order list whose entries pass the casts of PopulateList has the format that RemoveID and SetCollapsed are modelled on |
| MapOrder.CollapsedShaped | Widgets/Mapping/Misc/MapSelectPanel.cs:163-182 | collapsing keeps every sub-list headed by a map ID and a flag, so the order list keeps the format the scans are modelled on |
| MapOrder.RemoveNext | Widgets/Mapping/Misc/MapSelectPanel.cs:241-264 | one iteration of the scan keeps the prefix it has passed equal to the specified removal of the entries it has read, or ends the scan when the ID was a plain entry |
| MapOrder.DoomedIsSubtree | Widgets/Mapping/Misc/MapSelectPanel.cs:228-235 | the maps RemoveID takes out of the order are exactly the maps of the deleted node's subtree, and a map not in the list has no node |
| MapOrder.UnlistedSet | Widgets/Mapping/Misc/MapSelectPanel.cs:92-100 | the maps the enumeration adds are exactly the table's maps not yet added |
| MapOrder.ExtraIds | Widgets/Mapping/Misc/MapSelectPanel.cs:92-100 | the leaves and order entries added at the end name every map of the table not yet marked |
| MapOrder.PopulateCovers | Widgets/Mapping/Misc/MapSelectPanel.cs:69-104 | the top-level tree shows every map of the order list and every map of the table not marked before |
| MapOrder.PopulateOrderCovers | Widgets/Mapping/Misc/MapSelectPanel.cs:98 | the order list afterwards names the same maps as the tree |
| MapOrder.DeleteKeepsOrderListed | Widgets/Mapping/Misc/MapSelectPanel.cs:206-222 | deleting a map takes exactly its subtree's maps out of the order list, so an order list that named only maps of the table still does |
| MapOrder.MapPanel.PopulateList | Widgets/Mapping/Misc/MapSelectPanel.cs:69-104 | a sub-list call marks and builds the nodes of its entries; the top-level call also adds a leaf, a mark and an order entry for every map not yet added, in table order, and shows the nodes |
| MapOrder.MapPanel.AddUnlisted | Widgets/Mapping/Misc/MapSelectPanel.cs:92-100 | each map not yet added gets a leaf, its mark and an entry at the end of the order |
| MapOrder.MapPanel.ScanList | Widgets/Mapping/Misc/MapSelectPanel.cs:72-89 | the loop marks every map of the visited entries and builds their nodes |
| MapOrder.MapPanel.ScanNext | Widgets/Mapping/Misc/MapSelectPanel.cs:73-88 | one iteration adds the node of entry i and marks its maps |
| MapOrder.MapPanel.VisitEntry | Widgets/Mapping/Misc/MapSelectPanel.cs:74-88 | an ID entry becomes a leaf; a sub-list a node with its flag and children; every map in it is marked |
| MapOrder.MapPanel.DeleteMapRecursively | Widgets/Mapping/Misc/MapSelectPanel.cs:228-235 | the node's map and the maps of all its descendants leave the map table, and no other |
| TilesetCapacity.DefinedFrom | Widgets/Database/DatabaseDataList.cs:95-100 | the number of defined tilesets from an index on is at most the number of entries there, and zero past the end |
| TilesetCapacity.DefinedZero | Widgets/Database/DatabaseDataList.cs:101 | no defined tileset from an index on means every entry from there on is null, and the converse |
| TilesetCapacity.NulledCut | Widgets/Database/DatabaseDataList.cs:111-125 | after the entries past the new capacity are nulled, the cut keeps the original entries up to the new capacity and a null tail past the old one |
| TilesetCapacity.CleanCut | Widgets/Database/DatabaseDataList.cs:136-139 | with no defined tileset past the new capacity, the entries past the old capacity are already null |
| TilesetCapacity.Nulls | Widgets/Database/DatabaseDataList.cs:87 | the appended entries are all null, as many as asked |
| TilesetCapacity.TilesetList.AddNulls | Widgets/Database/DatabaseDataList.cs:86-87 | growing appends exactly the extra null entries |
| TilesetCapacity.TilesetList.CountDefined | Widgets/Database/DatabaseDataList.cs:94-100 | the backwards scan counts exactly the defined tilesets after the new capacity (all of them when the scan never meets that index) |
| TilesetCapacity.TilesetList.NullAbove | Widgets/Database/DatabaseDataList.cs:111-124 | the Yes path's backwards scan nulls every entry after the new capacity and keeps the others |
| TilesetCapacity.TilesetList.RemoveRange | Widgets/Database/DatabaseDataList.cs:125 | List.RemoveRange removes exactly the given range |
| TilesetCapacity.TilesetList.ChangeCapacity | Widgets/Database/DatabaseDataList.cs:76-144 | an equal value changes nothing; a larger one appends nulls up to it; a smaller one asks exactly when defined tilesets would be lost, and unless the user declines cuts the list to the new capacity, keeping the entries up to it and the null tail past the old capacity; the list stays one longer than the capacity |
| TilesetCapacity.TilesetList.Cut | Widgets/Database/DatabaseDataList.cs:138-139 | the entries between the new and the old capacity are removed and the capacity becomes the new value |
| TilesetCapacity.TilesetList.Shrink | Widgets/Database/DatabaseDataList.cs:92-143 | the shrink asks exactly when defined tilesets would be lost; with none, or on Yes, it keeps the entries up to the new capacity and the tail past the old one; otherwise nothing changes |

## Left out

- Sprites, bitmaps, Z order, zoom, locking and unlocking of bitmaps, and the grid background: the model keeps which cells and layers are redrawn and the source rectangles, not pixels.
- `SetZoomFactor`, `SetDarkOverlay`, `SizeChanged`, `SetLayerVisible`, `SetLayerLocked`, `SetGridVisibility` and `UpdateSize`: they only affect presentation.
- The frame timer and the widget's visibility checks in `Update`: the tick is modelled from the point where the frame timer has passed.
- Undo actions (`TileGroupUndoAction`, `LayerChangeUndoAction`): the brush's undo group is modelled as the list of changes it logs, not the undo machinery.
- `Editor.UnsavedChanges`, `Editor.CanUndo`, `RefreshList` and the closing of popup windows: these are UI bookkeeping with no effect on the modelled state.
- Message boxes are not asynchronous here: the button the user presses is a parameter, and the callback runs at once.
- The tree view in `DeleteMap` (removing the node from the view and selecting another) is not modelled. The model covers `DeleteMapRecursively` and `RemoveID` on the order list.
- Nested lists are values. The C# order list shares sub-lists by reference and edits them in place; the model returns the edited list instead. Aliasing between sub-lists is not modelled.
- In the properties window, the window edits a clone of the map whose layers are shared with the original map. The model keeps the window's layers as values. Only `MkdMap.EditThroughClone` states the sharing that `Clone` creates.
- `Map.Resize`, which the properties window calls when the size changes: the revision of Map.cs modelled here has no `Resize`, so `Map.Resize` is not part of this model, and only the unsaved flag the handler sets is modelled.
- Event contents are opaque values: the map document keeps its events dictionary as a saved object and does not parse `Event`.
- Null strings, and `Convert.ToInt32` applied to strings and floating-point values: the parse accepts integer values only and treats anything else as malformed.
- In the capacity change, the calls to `Map.RemoveTileset` and the disposal of tileset bitmaps on the "Yes" path: `RemoveTileset` is not part of this model, and the maps' tileset lists are not modelled there.
- The line brush computes its slope in double precision. The model rounds the exact rational value half to even, so a double rounding error that moves a tie is not modelled.
- MapOrder.MapPanel.PopulateList: requires the list to have the format its casts expect (a map ID, or a sub-list headed by a map ID and a flag). Where the C# code would throw an invalid-cast exception, the model demands the format instead.
- MapOrder.RemoveID, MapOrder.SetCollapsed: require that same format of the lists they visit, which is more than they read. RemoveID tests the head's type and reads only positions 0 and 2, so it also runs on a sub-list without a flag; SetCollapsed writes position 1 whatever it holds. Those lists are not modelled. Every order list PopulateList accepts has the format (MapOrder.ScannedWFShaped), RemoveID keeps it (MapOrder.RemoveIdExact) and SetCollapsed keeps it (MapOrder.CollapsedShaped).
- MapOrder.MapPanel.PopulateList: requires every listed map to be in the map table. The C# dictionary lookup would throw `KeyNotFoundException` otherwise.
- TilesetCapacity.TilesetList.ChangeCapacity: for a shrink, requires the list to reach past the old capacity, because `List.RemoveRange` throws otherwise. The exception is not modelled.
- CatalogRemap.PropertiesWindow.OK: requires every layer to hold one cell per map position and every cell's local index to lie in the old lists. The unguarded indexing in the source would throw otherwise.
- MapImage.MapImageWidget.DrawTiles, MapImage.MapImageWidget.DrawTile, MapImage.MapImageWidget.UpdateAutotiles: require the widget invariant, meaning well-formed layers and autotile slots that name catalog entries. An out-of-range index in the source would throw.
- MapImage.MapImageWidget.DeleteLayer: the corrected delete is modelled only from states where the registry invariant holds, which are the states the corrected widget reaches. From a registry that already names cells wrongly, the source's delete is not modelled.
- MapImage.MapImageWidget.Tick, MapImage.MapImageWidget.SetMapAnimations: the animation count is an unbounded integer. The C# field is a 32-bit `int` that wraps to negative after 2^31 increments, which would change the remainder and floor of the frame arithmetic; that wrap is not modelled.
- MapImage.MapImageWidget.AssignShape: registers the slot's global autotile index. The source registers `Data.Autotiles.IndexOf` of the autotile object, which is the first index holding that same object. The two differ only when one autotile object sits at two global indices, and object identity is not modelled.
- MkdMap.ParseLayers, MkdMap.ParseIds: their own contracts state only lengths. Their contents are pinned by MkdMap.LayersRoundTrip and MkdMap.IdsRoundTrip.

## Findings

| source | as written | input that shows it | evidently intended | confidence | as-written member | corrected member |
|---|---|---|---|---|---|---|
| Widgets/Mapping/MapImageWidget.cs:66-82 | `CreateNewLayer` shifts the layers above the new one, but not the layer numbers in the registry of animated autotiles | layer 0 holds an animated autotile; insert an empty layer at 0: the entry now names the empty layer | the entries of the layers that move are renumbered, so every entry still names its own layer | not executed | LayerOps.InsertAsWrittenBreaksRegistry | LayerOps.InsertKeepsRegistry |
| Widgets/Mapping/MapImageWidget.cs:84-107 | `DeleteLayer` leaves entries naming layer numbers above the deleted one | an empty layer 0 below an animated autotile on layer 1; delete layer 0: an entry names layer 1 of a one-layer map | entries above the deleted layer move down by one | not executed | LayerOps.DeleteAsWrittenBreaksRegistry | LayerOps.DeleteKeepsRegistry |
| Widgets/Mapping/MapImageWidget.cs:512-517 | `DrawTile` registers an autotile painted with a preset shape without checking that it animates | an autotile with animation speed 0 painted with a preset shape: the tick's remainder by 0 throws | only an autotile whose speed is positive is registered, as in the layer scan and the updater | not executed | Animation.PresetRegistrationAsWrittenThrows | Painting.RegisterStep, MapImage.MapImageWidget.PlaceTile, MapImage.MapImageWidget.DrawTile |
| Widgets/Mapping/MapImageWidget.cs:353-369 | the line brush divides by the stroke's width (and height) even when it is zero; the resulting NaN is cast to an integer | a vertical stroke from pixel (40, 100) to (40, 300): when NaN is cast to 0, tile (1, 0) is painted, outside the stroke | a zero-width sweep contributes only the tiles of its own column (row) | not executed | Brush.VerticalLineAsWrittenStrays | Brush.LineInBox |
