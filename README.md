# in-n-out geofencing core in Dafny

A model of the point-in-polygon core of the in-n-out geofencing library, in
three parts:

- **Geometry primitives** (`lib/utils.js`, module `Utils` in `utils.dfy`).
  - the cross product and vector difference;
  - the parametric segment test, with its rule that collinear segments always intersect;
  - the all-pairs edge search between two rings;
  - ray casting (`pointInPolygon`);
  - "some vertex of A inside B";
  - the floor projection of a coordinate onto a tile index.

  Each search loop is a `method` proved equal to a function. The lemmas relate the
  functions to geometry. The segment test agrees with "the segments share a point"
  except for collinear pairs. Ray casting never puts inside a point that is below
  every vertex, at or above every vertex, at or right of every vertex, or strictly
  left of every vertex (there the ray crosses the ring an even number of times).
- **The single-polygon tile index** (`lib/geofence.js`, modules `TileGrid` in
  `tile_grid.dfy` and `Geofences` in `geofence.dfy`). `Geofence` is a class whose
  fields follow the source:
  - the closed ring and the granularity;
  - the bounding box and the tile size;
  - the tile range;
  - the `tiles` dictionary as a `map<int, TileState>`.

  The constructor closes the ring, applies the granularity default and fills the
  dictionary. `makeGrid`'s nested loops are methods with invariants. The callback
  calls `(hash, state)` are the sequence of `Label`s that `makeGrid` produces; the
  callback then stores them in that order. `TileGrid` states as pure functions:
  - which tiles the scan visits and in which order;
  - which key and label each tile gets;
  - which label survives under each key.

  `inside` is a method proved equal to the query function `Contains`.
- **The entry list** (`lib/geofenced_group.js`, module `GeofencedGroups` in
  `geofenced_group.dfy`). Entries carry an id and optional whiteout and blackout
  lists of geofences (`None` is a null list, which differs from `[]`).
  - `add` toggles an id: it removes the first entry with that id, or appends a new one.
  - `isValidEntry` applies the blackout-then-whiteout rule.
  - `getValid` filters the entries in order.

Coordinates are exact `real`s. The source only compares values, uses `+ - * /`
and takes floors, so no rounding is modelled. `wrappers.dfy` holds the `Option`
and `Result` types.

Where the code and its own comment disagree, the model follows the code:

- Tiles labelled outside (`'o'`) are stored in the dictionary (lib/geofence.js:106), although the comment at lib/geofence.js:23 says they are not tracked.
- A tile index is the projection of the coordinate itself minus `minTileX` (lib/geofence.js:44), not of its offset from `minX`.
- `add` with a present id only removes the old entry. It does not replace it (lib/geofenced_group.js:19-24).
- `Math.floor(granularity) || 20` lets a negative granularity through (lib/geofence.js:9). The model allows it: the scan is then empty and every query answers false.

The source's tile key uses the granularity as its row stride. The scan, however,
covers granularity + 1 columns, so keys collide (see Findings). The class keys
its tiles as the source does, with the granularity, and so reproduces the
collision. `Geofences.ContainsByWinnerTile` states which tile's label decides
each of its queries, and `Geofences.GeofenceMisclassifies` shows a built
geofence that puts an inside point outside. The entry list queries these
geofences, so it inherits their answers. The corrected key, with the number of
columns as stride, is the pure `Geofences.InsideAsBuilt` with that stride;
`Geofences.InsideByTile` proves that it answers from the point's own tile.

## Model

| member | source | states |
|---|---|---|
| Utils.Cross | lib/utils.js:3-5 | the z-component of the cross product; its properties are stated by the two lemmas below |
| Utils.CrossAntisymmetric | lib/utils.js:3-5 | the cross product changes sign when its arguments are swapped |
| Utils.CrossOfParallel | lib/utils.js:3-5 | the cross product of a vector and any multiple of it is 0 |
| Utils.DiffInverse | lib/utils.js:7-9 | adding b back to a - b gives a; a - a is the origin |
| Utils.Diff | lib/utils.js:7-9 | component-wise difference of two points; DiffInverse states that it is undone by adding back |
| Utils.SegmentsIntersect | lib/utils.js:11-34 | the parametric test; the lemmas below relate it to "the closed segments share a point" |
| Utils.ParametersUnique | lib/utils.js:30-31 | for non-parallel segments, any meeting point has exactly the parameters t and u the test computes |
| Utils.SegmentsIntersectExact | lib/utils.js:11-34 | when r x s != 0 the test answers true iff the two closed segments share a point |
| Utils.SegmentsIntersectComplete | lib/utils.js:11-34 | segments that share a point are always reported as intersecting |
| Utils.ParallelSegmentsDisjoint | lib/utils.js:22-28 | parallel segments that are not collinear are reported disjoint, and are disjoint |
| Utils.SameLineReported | lib/utils.js:22-24 | segments on one horizontal line are reported as intersecting, whatever their extent |
| Utils.SameVerticalLineReported | lib/utils.js:22-24 | segments on one vertical line are reported as intersecting, whatever their extent |
| Utils.CollinearDisjointReported | lib/utils.js:22-24 | the collinear rule reports [0,1] and [k,k+1] on the x-axis (k > 1) as intersecting although they share no point |
| Utils.SeparatedSegmentsDisjoint | lib/utils.js:11-34 | segments on opposite sides of a line, not collinear, are reported disjoint and share no point |
| Utils.HaveIntersectingEdges | lib/utils.js:36-46 | the nested early-exit loops answer true iff some consecutive-vertex edge of poly1 meets some edge of poly2; false when either ring has fewer than 2 vertices |
| Utils.SeparatedRingsNoEdgeContact | lib/utils.js:36-46 | rings on opposite sides of a line, with no collinear edge pair, have no intersecting edges |
| Utils.PointInPolygon | lib/utils.js:48-66 | the i/j loop returns the parity of the number of edges whose crossing test holds |
| Utils.OutsideYRangeNotInside | lib/utils.js:57-65 | a point below every vertex, or at or above every vertex, is never inside |
| Utils.RightOfRingNotInside | lib/utils.js:57-65 | a point at or right of every vertex is never inside |
| Utils.LeftOfEdgeCrossed | lib/utils.js:61 | the ray from a point strictly left of both ends of an edge crosses it iff one end is above the point's line and the other is not |
| Utils.LeftOfRingCrossingParity | lib/utils.js:57-65 | strictly left of every vertex, the crossings among the first n edges, plus the closing edge's and the vs[0]-to-vs[n-1] straddle, are even |
| Utils.LeftOfRingNotInside | lib/utils.js:48-66 | a point strictly left of every vertex is never inside |
| Utils.ClosingKeepsInPolygon | lib/utils.js:57-65 | appending the first vertex to a ring leaves every ray-casting verdict unchanged |
| Utils.UnitSquareExamples | lib/utils.js:61 | on the unit square, (0.5, 1) on the top edge is outside, (0.5, 0.1) inside, (10, 0.1) outside |
| Utils.HasPointInPolygon | lib/utils.js:69-77 | true iff some vertex of the source other than the last is inside the target |
| Utils.Project | lib/utils.js:79-81 | for a positive tile size, k * s <= v < (k + 1) * s |
| Utils.ProjectMonotone | lib/utils.js:79-81 | the projection is monotone in the value |
| Utils.ProjectUnique | lib/utils.js:79-81 | the projection is the only k whose tile [k * s, (k + 1) * s) holds the value |
| Utils.ProjectShift | lib/utils.js:79-81 | moving the value by n tiles moves its index by n |
| TileGrid.GridOf | lib/geofence.js:72-78 | tile sizes are non-zero; maxTile = minTile + granularity on both axes, so the scan covers granularity + 1 columns and rows |
| TileGrid.SpanIsGranularity | lib/geofence.js:72-78 | projecting both ends of [lo, hi] with size (hi - lo) / g gives indices exactly g apart; the size has g's sign |
| TileGrid.Key | lib/geofence.js:87 | the flattened key (y - minTileY) * stride + (x - minTileX); KeysCollide and CorrectedKeyInjective state when two tiles share it |
| TileGrid.TileRing | lib/geofence.js:88-94 | the tile as a closed five-point ring of its corners |
| TileGrid.Classify | lib/geofence.js:96-108 | the tile label: Boundary on edge contact or a polygon vertex in the tile, else Inside on a tile corner in the polygon, else Outside; LabelTile's loops compute it |
| TileGrid.Store | lib/geofence.js:127-131 | the dictionary after `tiles[hash] = state` for each call in order; StoreAppend and StoreColumn state its effect |
| TileGrid.ColumnLabelsIndexed | lib/geofence.js:86-108 | the inner loop makes one call per row, the call for row y at position y - minTileY, with that tile's key and label |
| TileGrid.GridLabelsIndexed | lib/geofence.js:84-108 | the nested loops make one call per tile, the call for tile t at position Index(t) (column-major), with t's key and label |
| TileGrid.ScanOrder | lib/geofence.js:84-108 | a complete scan makes (granularity + 1)^2 calls, one at each tile's position |
| TileGrid.IndexInjective | lib/geofence.js:84-86 | distinct scanned tiles are visited at distinct positions |
| TileGrid.StoreAppend | lib/geofence.js:127-131 | storing two runs of calls equals storing the first and then the second |
| TileGrid.RowKeysDistinct | lib/geofence.js:86-87 | within one column, keys grow with the row |
| TileGrid.StoreColumn | lib/geofence.js:86-108 | storing one column's calls puts each of its tiles' labels under its key and leaves every other key untouched |
| TileGrid.ScanKeepsOwnLabels | lib/geofence.js:84-108 | with a stride of at least the number of columns scanned, every visited tile's key holds that tile's own label |
| TileGrid.EarlierColumnKeyFree | lib/geofence.js:84-87 | a tile of an earlier column shares no key with a later column while the stride exceeds the column offset |
| TileGrid.KeysCollide | lib/geofence.js:87 | with stride granularity, column maxTileX row y and column minTileX row y + 1 get the same key |
| TileGrid.OutsideLastColumnKeys | lib/geofence.js:84-87 | apart from the first column above the first row, no tile shares a key with the last column |
| TileGrid.ScanAsWritten | lib/geofence.js:84-131 | after the source's scan, the key of each scanned tile t holds the label of Winner(t): t itself, except the first column above the first row, which holds the last column's label one row down |
| TileGrid.CorrectedKeyInjective | lib/geofence.js:87 | with the number of columns as stride, distinct scanned tiles get distinct keys |
| TileGrid.ScanCorrected | lib/geofence.js:84-131 | with the number of columns as stride, every scanned tile's key holds its own label |
| Geofences.MinOf | lib/geofence.js:119-120 | the minimum is one of the values and at most every value |
| Geofences.MaxOf | lib/geofence.js:121-122 | the maximum is one of the values and at least every value |
| Geofences.BoxOf | lib/geofence.js:116-122 | every vertex lies in the box and each side of the box touches a vertex |
| Geofences.BoxOfSamePoints | lib/geofence.js:116-122 | the box depends only on the set of vertices |
| Geofences.CloseRing | lib/geofence.js:19-21 | the result is closed and extends the input by at most one vertex; an already closed ring is unchanged |
| Geofences.CloseRingKeepsBox | lib/geofence.js:19-21 | closing the ring does not change its bounding box |
| Geofences.CloseRingKeepsInPolygon | lib/geofence.js:19-21 | closing the ring does not change any ray-casting verdict |
| Geofences.EffectiveGranularity | lib/geofence.js:9 | the result is never 0; it is floor(arg) when that is non-zero, else 20 (also for a missing argument) |
| Geofences.Answer | lib/geofence.js:36-60 | the query on a state: false outside the box, else the label under the point's key decides (Inside true, Boundary ray casting, else false); InsideByTile and ContainsByWinnerTile say which tile that label comes from |
| Geofences.InsideAsBuilt | lib/geofence.js:3-60 | construction of the tiles with a given key stride followed by a query; with stride = granularity it is the source's behaviour |
| Geofences.TileOfInBox | lib/geofence.js:75-78 | a point of the bounding box lies in a scanned tile (positive granularity) |
| Geofences.InsideByTile | lib/geofence.js:36-60 | for a point in the box, the built query answers the verdict of Winner's label under the source's stride, and the verdict of the point's own tile under the corrected stride |
| Geofences.NegativeGranularityNeverInside | lib/geofence.js:84-111 | with a negative granularity the scan stores nothing and every query answers false |
| Geofences.LowerRightTileOutside | lib/geofence.js:96-108 | the tile [10,15] x [0,5] is labelled Outside against the triangle (0,0), (10,8), (0,10) |
| Geofences.UpperLeftTileBoundary | lib/geofence.js:96-98 | the tile [0,5] x [5,10] is labelled Boundary against that triangle |
| Geofences.PointInTriangle | lib/utils.js:48-66 | ray casting puts (1, 6) inside that triangle |
| Geofences.TriangleBox | lib/geofence.js:116-122 | the triangle's box is [0,10] x [0,10] |
| Geofences.TriangleGrid | lib/geofence.js:72-78 | granularity 2 on that box gives tiles of size 5 and indices 0..2 on both axes |
| Geofences.CollidingTiles | lib/geofence.js:44 | (1, 6) lies in tile (0, 1), whose key under the source's stride equals that of tile (2, 0), which is written last |
| Geofences.CollidingVerdicts | lib/geofence.js:50-59 | tile (2, 0)'s label answers false for (1, 6), and tile (0, 1)'s label answers true |
| Geofences.KeyCollisionMisclassifies | lib/geofence.js:44 | for that triangle, granularity 2 and point (1, 6): ray casting says inside, the source's key answers false, the corrected key answers true |
| Geofences.LabelTile | lib/geofence.js:96-108 | the label is Boundary when edges meet or a polygon vertex is in the tile, else Inside when a tile corner is in the polygon, else Outside |
| Geofences.Geofence.constructor | lib/geofence.js:3-33 | the geofence holds the closed input ring and floor(arg) or 20, and is in its built state: box, grid and the tiles the source's scan stores under its keys (stride = granularity) |
| Geofences.Geofence.SetInclusionTiles | lib/geofence.js:115-133 | sets the box from the vertices and the grid from box and granularity, and stores every call of the scan, keyed with the granularity as stride, in order |
| Geofences.Geofence.SetBoxAndTileSize | lib/geofence.js:116-125 | the box fields are the box, and the tile sizes are its extents divided by the granularity |
| Geofences.Geofence.MakeGrid | lib/geofence.js:65-113 | the tile range fields are the grid's, and the calls are exactly the complete scan in loop order, with the keys of line 87 (stride = the granularity argument) |
| Geofences.Geofence.ScanGrid | lib/geofence.js:84-111 | the outer loop's calls are the complete scan, column by column, keyed with the grid's granularity |
| Geofences.Geofence.ScanColumn | lib/geofence.js:86-108 | the inner loop's calls are the column's labels, bottom row first, keyed with the grid's granularity |
| Geofences.Geofence.ApplyLabels | lib/geofence.js:127-131 | the dictionary is the old one with every call's `tiles[hash] = state` applied in order |
| Geofences.Geofence.Inside | lib/geofence.js:36-60 | the answer is the query function (box test, lookup under the key of line 44, Inside true, Boundary ray casting, else false), and true only inside the box |
| Geofences.ContainsByWinnerTile | lib/geofence.js:44-59 | on a built geofence, a query in the box is decided by the label of Winner of the point's tile (the last tile stored under its key): Inside true, Boundary ray casting, Outside false |
| Geofences.ContainsAsBuilt | lib/geofence.js:3-60 | a built geofence answers every query as construction followed by a query with the source's key does |
| Geofences.GeofenceMisclassifies | lib/geofence.js:44 | the geofence built on the triangle (0,0), (10,8), (0,10) with granularity 2 does not contain (1, 6), which ray casting puts inside |
| Geofences.NegativeGranularityEmpty | lib/geofence.js:84-111 | a geofence built with a negative granularity has no tiles and contains no point |
| Geofences.NewGeofence | lib/geofence.js:3-21 | a non-array input fails, an empty array fails, any other input gives a built geofence |
| GeofencedGroups.ValidEntry | lib/geofenced_group.js:31-53 | the blackout-then-whiteout rule; the four lemmas below state its cases |
| GeofencedGroups.BlackoutWins | lib/geofenced_group.js:34-40 | a blackout containing the point makes the entry invalid, whatever its whiteouts |
| GeofencedGroups.WhiteoutsDecide | lib/geofenced_group.js:42-50 | with no blackout hit and non-null whiteouts, the entry is valid iff some whiteout contains the point |
| GeofencedGroups.EmptyWhiteoutsNeverValid | lib/geofenced_group.js:42-50 | an empty whiteout list admits no point |
| GeofencedGroups.NullWhiteoutsValid | lib/geofenced_group.js:52 | with no blackout hit and null whiteouts, the entry is valid |
| GeofencedGroups.Toggled | lib/geofenced_group.js:18-29 | the list after `add`; it is one entry longer or shorter, and the only entry it can add is the new one |
| GeofencedGroups.ToggleAbsentAppends | lib/geofenced_group.js:19-26 | an absent id: the new entry is appended and all others are kept in order |
| GeofencedGroups.TogglePresentRemoves | lib/geofenced_group.js:19-24 | an id first found at index i: that entry is removed, nothing is inserted, the others keep their order |
| GeofencedGroups.ToggledKeepsDistinct | lib/geofenced_group.js:18-29 | adding keeps the ids pairwise distinct |
| GeofencedGroups.ToggleTwiceRestores | lib/geofenced_group.js:18-29 | adding an absent id twice restores the list |
| GeofencedGroups.AddsKeepIdsDistinct | lib/geofenced_group.js:18-29 | after any sequence of adds from a list with distinct ids (such as the empty one), the ids stay distinct |
| GeofencedGroups.ValidIds | lib/geofenced_group.js:65-76 | the ids of the valid entries among the first n, in entry order; the two lemmas below state its content and order |
| GeofencedGroups.ValidIdsExact | lib/geofenced_group.js:65-76 | an id is reported iff some entry with that id is valid for the point |
| GeofencedGroups.ValidIdsKeepOrder | lib/geofenced_group.js:65-76 | when every entry is valid, all ids are reported in entry order |
| GeofencedGroups.SomeInside | lib/geofenced_group.js:35-39 | the early-exit loop answers whether some geofence of the list contains the point |
| GeofencedGroups.GeofencedGroup.constructor | lib/geofenced_group.js:11-15 | a new group has no entries |
| GeofencedGroups.GeofencedGroup.Add | lib/geofenced_group.js:18-29 | the entries become the toggled list, and distinct ids stay distinct |
| GeofencedGroups.GeofencedGroup.IsValidEntry | lib/geofenced_group.js:31-53 | the answer is the blackout-then-whiteout rule |
| GeofencedGroups.GeofencedGroup.GetValid | lib/geofenced_group.js:65-76 | the result is the ids of the valid entries, in entry order |

## Left out

- lib/geofence_cache.js: a memo keyed by a SHA-1 hash from Node's crypto module, plus event logging; it is a wrapper over foreign calls.
- `GeofencedGroup.isValid` (lib/geofenced_group.js:55-63) reads the misspelt `this.extries` and throws on every non-empty group. An intended version is not modelled.
- Holes, snapshots (`save`/`load`/`version`), query events, the master grid and `getValidKeys` are not part of these source files.
- IEEE-754 arithmetic: coordinates are exact reals, so NaN, infinities and rounding are not modelled.
- Geofences.Geofence.constructor: requires a non-empty ring with a box of positive width and height. A zero-width or zero-height box makes the source divide by a tile size of 0.
- Geofences.NewGeofence: models the non-array input and the empty array as `Failure` results. The source throws an Error for the first and crashes on `vertices[0][0]` for the second.
- Geofences.Geofence.constructor: the source appends the closing vertex to the caller's own array (lib/geofence.js:20). The model stores a closed copy, so aliasing of the caller's array is not captured.
- Geofences.Geofence.MakeGrid: returns the callback calls as a sequence, which Geofences.Geofence.ApplyLabels then stores. The callback is the one the source passes (lib/geofence.js:130-131), so calling it inside the loop has the same effect.
- Geofences.Geofence.ScanGrid, Geofences.Geofence.ScanColumn, Geofences.Geofence.SetBoxAndTileSize and GeofencedGroups.SomeInside are the source's loops and assignments, split out as methods of their own.
- Geofences.Geofence.Inside: requires only non-zero tile sizes, not the built state. It is not proved to agree with ray casting for every point: that would need Inside-labelled tiles to lie wholly in the polygon, which is not proved. The key collision below shows that the source's key breaks that agreement.
- The debugging `row` strings and the commented-out counters and logging in `makeGrid` and `inside`.
- GeofencedGroups.GeofencedGroup.GetValid: requires every geofence of every entry to have non-zero tile sizes. Every geofence the constructor builds has them.
- Entry ids are of any type with equality; JavaScript's `===` on objects is reference equality, which is not modelled separately.

## Findings

| source | as written | input that shows it | evidently intended | confidence | as-written member | corrected member |
|---|---|---|---|---|---|---|
| lib/geofence.js:44 | the tile key is (tileY - minTileY) * granularity + (tileX - minTileX), both in `makeGrid` (line 87) and in `inside`, while the scan covers granularity + 1 columns; column maxTileX of row y and column minTileX of row y + 1 share a key, and the last column, written last, overwrites it | triangle (0,0), (10,8), (0,10), granularity 2, point (1, 6): its tile (0, 1) shares key 2 with the Outside tile (2, 0), so `inside` answers false although ray casting puts the point inside | a row stride of maxTileX - minTileX + 1, so that each tile keeps its own label | not executed | Geofences.GeofenceMisclassifies | Geofences.InsideByTile |
