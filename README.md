# map-processor: the floor-plan reader

This project models `src/reader.rs` of the map processor, the part that turns two
hand-drawn image layers of a building floor into a room graph. The points layer marks
rooms and the joints layer marks corridors and doors. The reader merges the two layers
into one composite image in which every pixel is empty, a point marker or a joint
marker. It then segments the image into 8-connected regions of one marker each, by a
column-by-column scan that flood-fills from every unvisited coloured pixel. It connects
every point region to the other regions it reaches through one neighbouring region
(`create_connections`). Finally it keeps the point regions and writes one JSON room per
point. A room carries the region's truncated mean position, an identity made of the two
coordinates written one after the other, and the identities of the connected regions.
The last operation is text replacement on the written JSON.

Modules, in dependency order:

- `Wrappers`: `Option` and `Result`, and the two ways the source aborts (`Failure`).
- `Grid`: cells, labels, the 3x3 block and the scan order.
- `Decimal`: how Rust's `{}` writes an integer.
- `Composite`: the merge of the two layers.
- `Regions`: `Region`, its `position` and `hash`, `region_at` and the points filter.
- `Segmentation`: what the scan produces (a partition into connected components) and the lemmas behind it.
- `Adjacency`: `get_adjacent` as functions, and what it returns over a partition.
- `Connections`: `create_connections` as functions, and what the nodes mean.
- `Rooms`: the room records `build_data` writes.
- `Replace`: Rust's `str::replace`.
- `Reader`: the class `Reader`, with the imperative operations as methods over its fields.

`Reader` keeps `composite` and `visited` as `array2` fields. The fill and the scan
update `visited` in place. `regions`, `points` and `jsonData` are fields that the
methods reassign. Each loop method is proved against a function of the modules above,
and the properties are lemmas about those functions.

## Model

| member | source | states |
|---|---|---|
| Composite.CompositeLabel | src/reader.rs:85-89 | a pixel is a point marker exactly when the points layer is opaque there, a joint marker exactly when only the joints layer is, and empty otherwise |
| Composite.Compose | src/reader.rs:82-91 | the composite image has the layers' dimensions and every pixel carries the label the two layers give it |
| Reader.Reader.constructor | src/reader.rs:77-105 | a new reader holds the composite of the two layers, no visited flags, no regions, no points and empty JSON |
| Reader.Reader.Open | src/reader.rs:77-80 | the reader is refused with `DimensionMismatch` exactly when the two layers differ in width or height |
| Reader.Reader.InBounds | src/reader.rs:178-180 | a cell is in bounds exactly when it lies inside the composite image |
| Reader.Reader.HasColorAt | src/reader.rs:202-204 | a pixel counts as coloured exactly when its label is not empty |
| Grid.RgbaFaithful | src/reader.rs:5-6 | the two marker colours and transparent black are three distinct RGBA values, so comparing colours is comparing labels |
| Grid.RingIsNeighbourhood | src/reader.rs:216-217 | the nine cells the nested loops visit are exactly the cells within one step |
| Reader.Reader.Expand | src/reader.rs:216-226 | one popped cell flags and pushes every unvisited neighbour of the fill's label, each once, and flags nothing else |
| Reader.Reader.ProbeIntended | src/reader.rs:218-223 | with the bounds check on the probed cell a probe never leaves the image, and it pushes exactly the unvisited in-image cells of the fill's label |
| Reader.Reader.ProbeAsWritten | src/reader.rs:218-223 | with the bounds check on the seed a probe indexes outside the image exactly when the seed is inside and the probed cell is not |
| Reader.Reader.AsWrittenPanicsOnBorder | src/reader.rs:218-219 | a fill whose seed lies on the image border probes a cell outside the image, where the code as written indexes out of bounds |
| Reader.Reader.AsWrittenAgreesInside | src/reader.rs:218-223 | when both the seed and the probed cell are inside the image the two bounds checks agree |
| Reader.Reader.FloodFill | src/reader.rs:206-230 | the fill returns the seed first and then the cells reached from earlier ones, all of the seed's label and each once; it flags exactly those cells, none of them was flagged before, and every same-label neighbour of one of them is among them or was flagged before |
| Reader.Reader.Segment | src/reader.rs:128-135 | the scan leaves a partition of the image into closed, connected, single-label regions, disjoint and covering every coloured pixel, in scan order of their first cells, with no nodes, and exactly the claimed pixels flagged |
| Reader.Reader.ScanColumn | src/reader.rs:129-134 | scanning one column extends the scan invariant from the top of this column to the top of the next |
| Reader.Reader.ScanCell | src/reader.rs:130-133 | one scan step either leaves the regions unchanged or appends one region whose first cell is the scanned cell, and keeps the scan invariant |
| Reader.Reader.AddRegion | src/reader.rs:130-132 | the fill from an unvisited coloured cell is appended as a new region that starts at that cell |
| Segmentation.ScanDone | src/reader.rs:128-135 | once every column has been scanned the regions form a partition |
| Segmentation.FillIsGood | src/reader.rs:131-132 | a fill from the scan position is a closed, single-label, connected region starting at its earliest cell |
| Segmentation.FillIsDisjoint | src/reader.rs:131-132 | a fill from the scan position shares no cell with the regions found before it |
| Segmentation.RegionIsComponent | src/reader.rs:206-230 | a cell belongs to a region exactly when a same-label path leads to it from any cell of the region |
| Segmentation.SameRegionIffConnected | src/reader.rs:128-135 | after the scan two cells share a region exactly when a same-label path joins them, and a cell lies in one region only |
| Regions.Position | src/reader.rs:23-36 | the accumulator loop computes the mean of the cells, each coordinate truncated toward zero |
| Regions.CentroidOfSingleCell | src/reader.rs:32-35 | a one-pixel region's position is that pixel |
| Regions.QuotBounds | src/reader.rs:33-34 | a truncated mean of values between two bounds lies between the same bounds |
| Regions.CentroidInBoundingBox | src/reader.rs:23-36 | the position of cells with non-negative coordinates lies in their bounding box |
| Regions.HashOf | src/reader.rs:38-41 | the identity is the position's x written in decimal followed by its y |
| Decimal.RenderRoundTrip | src/reader.rs:40 | reading back an integer's decimal text gives the integer |
| Decimal.RenderInjective | src/reader.rs:40 | distinct integers are written differently |
| Decimal.DigitsWellFormed | src/reader.rs:40 | a written natural number is a non-empty run of digits with no superfluous leading zero |
| Regions.HashSplitsIntoCoordinates | src/reader.rs:38-41 | the identity splits into the decimal texts of x and y, and each part reads back as its coordinate |
| Regions.HashIsAmbiguous | src/reader.rs:38-41 | positions (1, 23) and (12, 3) get the same identity "123", so identities are not unique |
| Regions.RegionAt | src/reader.rs:186-191 | the result is the first region holding the cell, and there is none exactly when no region holds it |
| Regions.RegionAtAppend | src/reader.rs:186-191 | a cell has a region in a longer list exactly when it had one before or the new region holds it |
| Regions.PointsAreThePointRegions | src/reader.rs:139-144 | the points are exactly the regions whose first cell has the point colour |
| Regions.PointsOfConcat | src/reader.rs:139-144 | the filter keeps discovery order: filtering a concatenation concatenates the filtered parts |
| Regions.PointsSeeded | src/reader.rs:139-144 | every kept point has a first cell inside the image |
| Reader.Reader.CollectPoints | src/reader.rs:139-144 | the reader's points are the point regions of its regions, in order |
| Reader.Reader.GetAdjacent | src/reader.rs:232-261 | the result is the regions of the foreign cells around the region, or the error where `region_at` aborts |
| Reader.Reader.AdjacentCellsOf | src/reader.rs:237-249 | the collected cells are each once exactly the cells within one step of the region that lie in the image, are coloured and differ from the region's colour |
| Reader.Reader.ProbeAround | src/reader.rs:238-247 | probing the 3x3 block of a cell continues the collection over those nine cells in loop order |
| Reader.Reader.ProbeColumn | src/reader.rs:239-246 | probing one column of the block continues the collection over its three cells |
| Reader.Reader.RegionsAt | src/reader.rs:251-258 | the second loop fails with `NoRegionAtPoint` exactly when some collected cell has no region, and otherwise returns the regions of the cells |
| Adjacency.ProbesReach | src/reader.rs:237-239 | the probes around a region reach exactly the cells within one step of one of its cells |
| Adjacency.GatherSpec | src/reader.rs:240-245 | the kept cells are the foreign probes, each once |
| Adjacency.AdjacentCellsSpec | src/reader.rs:237-249 | the first loop collects each foreign cell adjacent to the region exactly once |
| Adjacency.ResolveSpec | src/reader.rs:251-258 | the second loop aborts exactly when some cell has no region; otherwise the regions are distinct, each from the list, and together they hold every cell |
| Adjacency.AdjacentFails | src/reader.rs:232-261 | `get_adjacent` aborts exactly when a coloured, differently labelled cell next to the region belongs to no region |
| Adjacency.AdjacentSucceeds | src/reader.rs:232-261 | over a covering `get_adjacent` never aborts and returns no region twice |
| Adjacency.AdjacentSound | src/reader.rs:232-261 | every region returned belongs to the list, has another label and touches the given region |
| Adjacency.AdjacentComplete | src/reader.rs:232-261 | every region of the partition that has another label and touches the given region is returned |
| Adjacency.AdjacentIsNeighbours | src/reader.rs:232-261 | over a partition `get_adjacent` returns exactly the touching regions of another label, each once |
| Adjacency.AdjacencySymmetric | src/reader.rs:232-261 | over a partition, one region is adjacent to another exactly when the second is adjacent to the first |
| Connections.AroundIsNeighbours | src/reader.rs:272-275 | for every region of a partition, the regions around it are exactly its touching neighbours of another label |
| Connections.TwoSteps | src/reader.rs:272-275 | two rounds of `get_adjacent` from a region reach exactly the regions two neighbour steps away |
| Reader.Reader.CreateConnections | src/reader.rs:263-287 | over the scan's partition the regions keep their cells and each gains the identities its pairs name, in pair order |
| Reader.Reader.NodePairs | src/reader.rs:264-282 | the first loop produces the pairs of every region in region order |
| Reader.Reader.PairsOf | src/reader.rs:266-281 | a region that is not a point yields no pairs, and a point yields the pairs through each of its adjacent regions |
| Reader.Reader.JointsPairs | src/reader.rs:272-281 | the loop over a point's adjacent regions concatenates the pairs through each of them in turn |
| Reader.Reader.JointPairs | src/reader.rs:274-280 | the pairs through one joint are the regions around it, bar the point, tagged with the point's index |
| Reader.Reader.PointsAround | src/reader.rs:275-280 | the pairs hold exactly the regions whose first cell differs from the point's, tagged with the point's index, in order |
| Connections.TaggedSpec | src/reader.rs:275-279 | a pair is tagged exactly when it carries the point's index and a region around the joint that does not start where the point starts |
| Connections.ForJointsSpec | src/reader.rs:272-281 | a point's pairs are exactly its tagged regions around each adjacent region |
| Reader.Reader.AppendNodes | src/reader.rs:284-286 | each region keeps its cells and its nodes gain, in pair order, the identities of the pairs that name it |
| Connections.NodesFromConcat | src/reader.rs:284-286 | the identities for a region from two lists of pairs are those from the first list followed by those from the second |
| Connections.NodesFromFlatten | src/reader.rs:284-286 | only the block of pairs a region contributes reaches its nodes |
| Connections.PairsOfPoint | src/reader.rs:266-281 | over a partition a point is paired with exactly the other regions it reaches through a common neighbour, those starting where the point starts excepted |
| Connections.NodesOfPoint | src/reader.rs:263-287 | a region that is not a point gains no nodes, and a point gains exactly the identities of the regions it reaches through a neighbour |
| Connections.ConnectionsMeaning | src/reader.rs:263-287 | over a partition an identity is in a point's new nodes exactly when it was there before or belongs to a region reached through a common neighbour that does not start where the point starts; other regions' nodes are unchanged |
| Connections.ConnectKeepsSeeds | src/reader.rs:263-287 | connecting changes no cells, so every region still starts inside the image |
| Connections.ConnectionsLinkPoints | src/reader.rs:263-287 | every region a point is connected to is itself a point: a point's neighbours are joints and theirs are points |
| Reader.Reader.BuildData | src/reader.rs:127-165 | the reader ends with the scan's partition, connected; its points are the point regions; its JSON is the printer's text of one room per point; and exactly the coloured pixels are flagged |
| Rooms.WriteRooms | src/reader.rs:146-162 | the loop writes one room per point, in order |
| Rooms.RoomsOf | src/reader.rs:146-162 | there is one room per point, and the room at each index is that point's room |
| Rooms.RoomOfFields | src/reader.rs:148-159 | a room carries its point's position and nodes, a null number, the floor, empty texts, and an identity from which both coordinates read back |
| Rooms.RoomInsideImage | src/reader.rs:149-155 | a room made of image cells has its position inside the image |
| Rooms.RoomIdsCanCollide | src/reader.rs:150-151 | two rooms at different positions can be written with the same identity |
| Reader.Reader.WriteJson | src/reader.rs:146-164 | the JSON text is the printer's text for the rooms of the points |
| Reader.Reader.JsonReplace | src/reader.rs:167-169 | the JSON text becomes the result of replacing every occurrence of the pattern |
| Replace.FirstMatchSpec | src/reader.rs:168 | the leftmost-match search finds an occurrence with none before it, or reports that there is none |
| Replace.ReplaceWithoutMatch | src/reader.rs:168 | text without an occurrence of a non-empty pattern is left unchanged |
| Replace.ReplaceAtFirstMatch | src/reader.rs:168 | replacing keeps the text up to the leftmost match, writes the replacement and goes on after the match |
| Replace.ReplaceIsSplitJoin | src/reader.rs:168 | replacing is splitting at the occurrences and joining the pieces with the replacement, for empty patterns too |
| Replace.JoinSplitRestores | src/reader.rs:168 | joining the pieces back with the pattern itself restores the text |
| Replace.ReplaceWithItself | src/reader.rs:168 | replacing a pattern by itself changes nothing |
| Replace.SplitAtLeftmostMatches | src/reader.rs:168 | every piece but the last ends at a leftmost, non-overlapping match, and the last piece holds no match |

## Left out

- Opening and decoding the three PNG files (lines 59-75) and the `expect` on them: file I/O. The layers are given as alpha masks, one boolean per pixel, meaning alpha is not zero.
- The background image, `save_directory`, `save_to_file` (lines 171-174) and the accessors (lines 107-125): file I/O, and plain field reads with nothing to prove.
- `name_image` (line 176): its body is empty.
- `region_index` (lines 193-200): no operation of the reader calls it.
- `color_at` (lines 182-184): the composite holds a `Label`, and `Grid.Rgba` gives its RGBA value; reading a pixel is an array access.
- `json.pretty(4)` (line 164): a foreign JSON printer, taken by `Reader.Reader.BuildData` as its parameter `pretty`. The `expect` on `push` (line 161) cannot fail on an array.
- Coordinates are unbounded integers: the model does not capture the `i32` overflow of the position sums or of very large images, nor the `as u32`/`as usize` casts, which matter only for negative cells. Those cells are the findings case.
- `src/draw.rs` and `src/main.rs` are not part of this model. They draw the image and call the reader.
- Reader.Reader.Segment: collects the new regions locally and stores them once the scan is over, where the source pushes onto `self.regions` as it goes. Nothing reads the regions during the scan, so the result is the same.
- Reader.Reader.BuildData: requires a freshly constructed reader, so it is modelled for the one call per reader that the program makes. A second call would scan with every flag already set and push the connections again.
- Reader.Reader.CreateConnections: requires the regions to be the scan's partition, which holds at its one call site. On other region lists `get_adjacent` can abort; `Reader.Reader.GetAdjacent` models that abort as an `Err`.
- Reader.Reader.CollectPoints: requires every region to start inside the image, because the filter reads `cells[0]` unguarded. After the scan this always holds.
- Reader.Reader.ProbeAround and Reader.Reader.ProbeColumn: they walk the block by the offsets `a` and `b` from `x - 1` and `y - 1` instead of by coordinates. The cells and their order are the same.
- Two points of the code differ from the intent described for the system, and the model follows the code. The scan runs column by column (x outer, y inner), not row by row. The point filter in `create_connections` compares first cells, not identities, so a point can receive its own identity when another region has the same `hash`.

## Findings

| source | as written | input that shows it | evidently intended | confidence | as-written member | corrected member |
|---|---|---|---|---|---|---|
| src/reader.rs:218 | the flood fill's bounds check tests the seed `(x, y)`, which is always inside, instead of the probed cell `(i, j)` | any fill whose seed lies on the image border, such as a 1x1 image with one coloured pixel: the probe of `(-1, -1)` passes the check, and the index `-1 as usize` into `visited` panics | `self.in_bounds((i, j))`, skipping probes outside the image | not executed | Reader.Reader.AsWrittenPanicsOnBorder | Reader.Reader.Expand |
