/**
 * The tile scan of lib/geofence.js (makeGrid) as pure functions: which tiles
 * are visited, in which order, with which flattened key and which label, and
 * what the tile dictionary holds once every callback has stored its label.
 *
 * The key is (tileY - minTileY) * stride + (tileX - minTileX). The source uses
 * stride = granularity although the scan covers granularity + 1 columns, so the
 * last column's keys coincide with the first column's keys one row up, and the
 * last column, scanned last, overwrites them. The lemmas below state exactly
 * which label survives under each key, and that stride granularity + 1 would
 * keep every tile's own label.
 */
module TileGrid {
  import opened Utils

  /** The three labels handed to the callback: 'x', 'i' and 'o'. */
  datatype TileState = Boundary | Inside | Outside

  /** One callback invocation: the flattened tile key and the tile's label. */
  datatype Label = Label(key: int, state: TileState)

  datatype BBox = BBox(minX: real, minY: real, maxX: real, maxY: real)

  /** Tile coordinates: the tile [x * tileWidth, (x + 1) * tileWidth) x [y * tileHeight, (y + 1) * tileHeight). */
  datatype Tile = Tile(x: int, y: int)

  /** The tiling makeGrid derives from a bounding box and a granularity. */
  datatype Grid = Grid(granularity: int, tileWidth: real, tileHeight: real,
                       minTileX: int, minTileY: int, maxTileX: int, maxTileY: int)

  /** A bounding box of positive width and height (so that tile sizes are non-zero). */
  predicate Proper(box: BBox) {
    box.minX < box.maxX && box.minY < box.maxY
  }

  /**
   * Tile sizes are the box extents divided by the granularity; the tile range
   * is the projection of the box corners. With exact arithmetic the range spans
   * granularity + 1 tiles per axis; a negative granularity gives negative tile
   * sizes and a range whose end lies before its start.
   */
  function GridOf(box: BBox, granularity: int): (grid: Grid)
    requires Proper(box) && granularity != 0
    ensures grid.granularity == granularity && grid.tileWidth != 0.0 && grid.tileHeight != 0.0
    ensures grid.maxTileX == grid.minTileX + granularity && grid.maxTileY == grid.minTileY + granularity
    ensures granularity > 0 ==> Regular(grid)
  {
    var tileWidth := (box.maxX - box.minX) / granularity as real;
    var tileHeight := (box.maxY - box.minY) / granularity as real;
    SpanIsGranularity(box.minX, box.maxX, granularity);
    SpanIsGranularity(box.minY, box.maxY, granularity);
    Grid(granularity, tileWidth, tileHeight,
         Project(box.minX, tileWidth), Project(box.minY, tileHeight),
         Project(box.maxX, tileWidth), Project(box.maxY, tileHeight))
  }

  /** The shape every grid built by GridOf with a positive granularity has. */
  predicate Regular(grid: Grid) {
    && grid.granularity > 0
    && grid.tileWidth > 0.0 && grid.tileHeight > 0.0
    && grid.maxTileX == grid.minTileX + grid.granularity
    && grid.maxTileY == grid.minTileY + grid.granularity
  }

  /** Projecting both ends of [lo, hi] with tile size (hi - lo) / g gives indices exactly g apart. */
  lemma SpanIsGranularity(lo: real, hi: real, g: int)
    requires lo < hi && g != 0
    ensures g > 0 ==> (hi - lo) / g as real > 0.0
    ensures g < 0 ==> (hi - lo) / g as real < 0.0
    ensures Project(hi, (hi - lo) / g as real) == Project(lo, (hi - lo) / g as real) + g
  {
    var w := (hi - lo) / g as real;
    assert hi == lo + g as real * w;
    ProjectShift(lo, w, g);
  }

  /** The number of tile columns the scan visits: the row stride that keeps keys apart. */
  function Columns(grid: Grid): int {
    grid.maxTileX - grid.minTileX + 1
  }

  /** The tile is inside the scanned range [minTileX..maxTileX] x [minTileY..maxTileY]. */
  predicate Scanned(grid: Grid, t: Tile) {
    grid.minTileX <= t.x <= grid.maxTileX && grid.minTileY <= t.y <= grid.maxTileY
  }

  /** The flattened key of a tile, with the given row stride. */
  function Key(grid: Grid, stride: int, t: Tile): int {
    (t.y - grid.minTileY) * stride + (t.x - grid.minTileX)
  }

  /** The tile as a closed five-point ring, counter-clockwise from its lower-left corner. */
  function TileRing(grid: Grid, t: Tile): (ring: seq<Point>)
    ensures |ring| == 5 && ring[0] == ring[4]
  {
    var x0, x1 := t.x as real * grid.tileWidth, (t.x + 1) as real * grid.tileWidth;
    var y0, y1 := t.y as real * grid.tileHeight, (t.y + 1) as real * grid.tileHeight;
    [Point(x0, y0), Point(x1, y0), Point(x1, y1), Point(x0, y1), Point(x0, y0)]
  }

  /**
   * The label of a tile ring against the polygon: Boundary when their edges
   * meet or a polygon vertex lies in the tile; otherwise Inside when a tile
   * corner lies in the polygon; otherwise Outside.
   */
  function Classify(vertices: seq<Point>, ring: seq<Point>): TileState {
    if EdgesIntersect(ring, vertices) || AnyVertexInside(vertices, ring) then Boundary
    else if AnyVertexInside(ring, vertices) then Inside
    else Outside
  }

  /** The labelling of every tile against a polygon, as makeGrid computes it. */
  function Labelling(vertices: seq<Point>, grid: Grid): Tile -> TileState {
    t => Classify(vertices, TileRing(grid, t))
  }

  /** The callback invocation for one tile under a labelling. */
  function LabelOf(stateOf: Tile -> TileState, grid: Grid, stride: int, t: Tile): Label {
    Label(Key(grid, stride, t), stateOf(t))
  }

  /** The invocations of the inner loop for column x, rows minTileY .. yEnd - 1, in order. */
  function ColumnLabels(stateOf: Tile -> TileState, grid: Grid, stride: int, x: int, yEnd: int): seq<Label>
    decreases yEnd - grid.minTileY
  {
    if yEnd <= grid.minTileY then []
    else ColumnLabels(stateOf, grid, stride, x, yEnd - 1) + [LabelOf(stateOf, grid, stride, Tile(x, yEnd - 1))]
  }

  /** The invocations for columns minTileX .. xEnd - 1 (the outer loop), in order. */
  function GridLabels(stateOf: Tile -> TileState, grid: Grid, stride: int, xEnd: int): seq<Label>
    decreases xEnd - grid.minTileX
  {
    if xEnd <= grid.minTileX then []
    else GridLabels(stateOf, grid, stride, xEnd - 1)
         + ColumnLabels(stateOf, grid, stride, xEnd - 1, grid.maxTileY + 1)
  }

  /** Every invocation of a complete scan. */
  function Scan(stateOf: Tile -> TileState, grid: Grid, stride: int): seq<Label> {
    GridLabels(stateOf, grid, stride, grid.maxTileX + 1)
  }

  /** The dictionary after the callback `tiles[hash] = state` has run for each label in order. */
  function Store(tiles: map<int, TileState>, labels: seq<Label>): map<int, TileState>
    decreases |labels|
  {
    if labels == [] then tiles
    else Store(tiles[labels[0].key := labels[0].state], labels[1..])
  }

  /** The tile whose label the source's key (stride = granularity) leaves under the key of t. */
  function Winner(grid: Grid, t: Tile): Tile {
    if t.x == grid.minTileX && t.y > grid.minTileY then Tile(grid.maxTileX, t.y - 1) else t
  }

  /** Position of a tile's invocation in the scan: columns first, rows within a column. */
  function Index(grid: Grid, t: Tile): int {
    (t.x - grid.minTileX) * (grid.maxTileY - grid.minTileY + 1) + (t.y - grid.minTileY)
  }

  // ---------------------------------------------------------------------------
  // Arithmetic helpers

  lemma MulMonotone(a: int, b: int, c: int)
    requires a <= b && c >= 0
    ensures a * c <= b * c
  {
    assert b * c - a * c == (b - a) * c;
  }

  /**
   * Two keys b1 * s + a1 and b2 * s + a2 with column offsets in [0, s] agree only
   * for the same tile or for offsets 0 and s one row apart.
   */
  lemma KeyCollision(s: int, a1: int, b1: int, a2: int, b2: int)
    requires s > 0 && 0 <= a1 <= s && 0 <= a2 <= s
    requires b1 * s + a1 == b2 * s + a2
    ensures || (a1 == a2 && b1 == b2)
            || (a1 == 0 && a2 == s && b1 == b2 + 1)
            || (a1 == s && a2 == 0 && b2 == b1 + 1)
  {
    var d := b1 - b2;
    assert d * s == a2 - a1;
    if d >= 2 {
      MulMonotone(2, d, s);
    } else if d <= -2 {
      MulMonotone(d, -2, s);
    }
  }

  // ---------------------------------------------------------------------------
  // Storing labels

  lemma {:induction false} StoreAppend(tiles: map<int, TileState>, a: seq<Label>, b: seq<Label>)
    ensures Store(tiles, a + b) == Store(Store(tiles, a), b)
    decreases |a|
  {
    if a == [] {
      assert a + b == b;
    } else {
      assert (a + b)[0] == a[0];
      assert (a + b)[1..] == a[1..] + b;
      StoreAppend(tiles[a[0].key := a[0].state], a[1..], b);
    }
  }

  /** The keys the inner loop for column x writes, for rows minTileY .. yEnd - 1. */
  ghost function ColumnKeys(grid: Grid, stride: int, x: int, yEnd: int): set<int> {
    set y | grid.minTileY <= y < yEnd :: Key(grid, stride, Tile(x, y))
  }

  /** Within a column, keys grow with the row. */
  lemma RowKeysDistinct(grid: Grid, stride: int, x: int, y1: int, y2: int)
    requires stride > 0 && y1 < y2
    ensures Key(grid, stride, Tile(x, y1)) < Key(grid, stride, Tile(x, y2))
  {
    MulMonotone(y1 - grid.minTileY + 1, y2 - grid.minTileY, stride);
    assert (y1 - grid.minTileY + 1) * stride == (y1 - grid.minTileY) * stride + stride;
  }

  /**
   * Storing one column: each of its tiles' keys holds that tile's label (keys
   * within a column differ), and every other key is untouched.
   */
  lemma {:induction false} StoreColumn(tiles: map<int, TileState>, stateOf: Tile -> TileState, grid: Grid,
                                       stride: int, x: int, yEnd: int)
    requires stride > 0
    ensures var s := Store(tiles, ColumnLabels(stateOf, grid, stride, x, yEnd));
            && (forall y :: grid.minTileY <= y < yEnd ==>
                  Key(grid, stride, Tile(x, y)) in s
                  && s[Key(grid, stride, Tile(x, y))] == stateOf(Tile(x, y)))
            && (forall k :: k !in ColumnKeys(grid, stride, x, yEnd) ==>
                  (k in s <==> k in tiles) && (k in tiles ==> s[k] == tiles[k]))
    decreases yEnd - grid.minTileY
  {
    if yEnd > grid.minTileY {
      var y' := yEnd - 1;
      var prefix := ColumnLabels(stateOf, grid, stride, x, y');
      var last := LabelOf(stateOf, grid, stride, Tile(x, y'));
      StoreColumn(tiles, stateOf, grid, stride, x, y');
      StoreAppend(tiles, prefix, [last]);
      var s0 := Store(tiles, prefix);
      assert Store(s0, [last]) == s0[last.key := last.state];
      forall y | grid.minTileY <= y < y'
        ensures Key(grid, stride, Tile(x, y)) != last.key
      {
        RowKeysDistinct(grid, stride, x, y, y');
      }
      assert last.key in ColumnKeys(grid, stride, x, yEnd);
      forall k | k !in ColumnKeys(grid, stride, x, yEnd)
        ensures k !in ColumnKeys(grid, stride, x, y')
      {
      }
    }
  }

  /**
   * Scanning columns minTileX .. xEnd - 1 with a stride of at least the number
   * of those columns: every visited tile's key holds that tile's own label.
   */
  lemma {:induction false} ScanKeepsOwnLabels(stateOf: Tile -> TileState, grid: Grid, stride: int, xEnd: int)
    requires stride > 0 && grid.minTileX <= xEnd && xEnd - grid.minTileX <= stride
    ensures var s := Store(map[], GridLabels(stateOf, grid, stride, xEnd));
            forall t: Tile :: grid.minTileX <= t.x < xEnd && grid.minTileY <= t.y <= grid.maxTileY ==>
              Key(grid, stride, t) in s && s[Key(grid, stride, t)] == stateOf(t)
    decreases xEnd - grid.minTileX
  {
    if xEnd > grid.minTileX {
      var x := xEnd - 1;
      var before := GridLabels(stateOf, grid, stride, x);
      var column := ColumnLabels(stateOf, grid, stride, x, grid.maxTileY + 1);
      ScanKeepsOwnLabels(stateOf, grid, stride, x);
      StoreAppend(map[], before, column);
      var s0 := Store(map[], before);
      StoreColumn(s0, stateOf, grid, stride, x, grid.maxTileY + 1);
      forall t: Tile | grid.minTileX <= t.x < x && grid.minTileY <= t.y <= grid.maxTileY
        ensures Key(grid, stride, t) !in ColumnKeys(grid, stride, x, grid.maxTileY + 1)
      {
        EarlierColumnKeyFree(grid, stride, t, x);
      }
    }
  }

  /** A tile left of column x, inside the stride, shares no key with column x. */
  lemma EarlierColumnKeyFree(grid: Grid, stride: int, t: Tile, x: int)
    requires stride > 0 && grid.minTileX <= t.x < x && x - grid.minTileX < stride
    ensures Key(grid, stride, t) !in ColumnKeys(grid, stride, x, grid.maxTileY + 1)
  {
    forall y | grid.minTileY <= y <= grid.maxTileY
      ensures Key(grid, stride, Tile(x, y)) != Key(grid, stride, t)
    {
      if Key(grid, stride, Tile(x, y)) == Key(grid, stride, t) {
        KeyCollision(stride, t.x - grid.minTileX, t.y - grid.minTileY, x - grid.minTileX, y - grid.minTileY);
      }
    }
  }

  // ---------------------------------------------------------------------------
  // The source's key: stride = granularity

  /** Column maxTileX, row y and column minTileX, row y + 1 share a key. */
  lemma KeysCollide(grid: Grid, y: int)
    requires Regular(grid)
    ensures Key(grid, grid.granularity, Tile(grid.maxTileX, y))
         == Key(grid, grid.granularity, Tile(grid.minTileX, y + 1))
  {
  }

  /** Apart from the first column above the first row, no tile outside the last column shares a key with it. */
  lemma OutsideLastColumnKeys(grid: Grid, t: Tile)
    requires Regular(grid) && Scanned(grid, t) && t.x < grid.maxTileX
    requires !(t.x == grid.minTileX && t.y > grid.minTileY)
    ensures Key(grid, grid.granularity, t) !in ColumnKeys(grid, grid.granularity, grid.maxTileX, grid.maxTileY + 1)
  {
    var g := grid.granularity;
    forall y | grid.minTileY <= y <= grid.maxTileY
      ensures Key(grid, g, Tile(grid.maxTileX, y)) != Key(grid, g, t)
    {
      if Key(grid, g, Tile(grid.maxTileX, y)) == Key(grid, g, t) {
        KeyCollision(g, t.x - grid.minTileX, t.y - grid.minTileY, grid.maxTileX - grid.minTileX, y - grid.minTileY);
      }
    }
  }

  /**
   * After the complete scan with the source's key, the entry under the key of
   * every scanned tile is the label of Winner(t): the tile itself, except for
   * the first column above the first row, whose keys hold the label of the last
   * column one row down.
   */
  lemma {:induction false} ScanAsWritten(stateOf: Tile -> TileState, grid: Grid)
    requires Regular(grid)
    ensures var s := Store(map[], Scan(stateOf, grid, grid.granularity));
            forall t :: Scanned(grid, t) ==>
              Key(grid, grid.granularity, t) in s
              && s[Key(grid, grid.granularity, t)] == stateOf(Winner(grid, t))
  {
    var g := grid.granularity;
    var x := grid.maxTileX;
    var before := GridLabels(stateOf, grid, g, x);
    var column := ColumnLabels(stateOf, grid, g, x, grid.maxTileY + 1);
    ScanKeepsOwnLabels(stateOf, grid, g, x);
    StoreAppend(map[], before, column);
    var s0 := Store(map[], before);
    StoreColumn(s0, stateOf, grid, g, x, grid.maxTileY + 1);
    forall t | Scanned(grid, t)
      ensures var s := Store(s0, column);
              Key(grid, g, t) in s && s[Key(grid, g, t)] == stateOf(Winner(grid, t))
    {
      if t.x == x {
      } else if t.x == grid.minTileX && t.y > grid.minTileY {
        KeysCollide(grid, t.y - 1);
      } else {
        OutsideLastColumnKeys(grid, t);
      }
    }
  }

  // ---------------------------------------------------------------------------
  // The corrected key: stride = number of columns (granularity + 1)

  /** With the number of columns as stride, distinct scanned tiles have distinct keys. */
  lemma CorrectedKeyInjective(grid: Grid, t1: Tile, t2: Tile)
    requires Regular(grid) && Scanned(grid, t1) && Scanned(grid, t2)
    requires Key(grid, Columns(grid), t1) == Key(grid, Columns(grid), t2)
    ensures t1 == t2
  {
    KeyCollision(Columns(grid), t1.x - grid.minTileX, t1.y - grid.minTileY,
                 t2.x - grid.minTileX, t2.y - grid.minTileY);
  }

  /** With the number of columns as stride every scanned tile's key holds that tile's own label. */
  lemma ScanCorrected(stateOf: Tile -> TileState, grid: Grid)
    requires Regular(grid)
    ensures var s := Store(map[], Scan(stateOf, grid, Columns(grid)));
            forall t :: Scanned(grid, t) ==>
              Key(grid, Columns(grid), t) in s
              && s[Key(grid, Columns(grid), t)] == stateOf(t)
  {
    ScanKeepsOwnLabels(stateOf, grid, Columns(grid), grid.maxTileX + 1);
  }

  // ---------------------------------------------------------------------------
  // Order and number of callback invocations

  lemma {:induction false} ColumnLabelsIndexed(stateOf: Tile -> TileState, grid: Grid, stride: int, x: int, yEnd: int)
    requires grid.minTileY <= yEnd
    ensures var c := ColumnLabels(stateOf, grid, stride, x, yEnd);
            && |c| == yEnd - grid.minTileY
            && forall y :: grid.minTileY <= y < yEnd ==> c[y - grid.minTileY] == LabelOf(stateOf, grid, stride, Tile(x, y))
    decreases yEnd - grid.minTileY
  {
    if yEnd > grid.minTileY {
      ColumnLabelsIndexed(stateOf, grid, stride, x, yEnd - 1);
    }
  }

  /**
   * The scan of columns minTileX .. xEnd - 1 makes one invocation per tile, the
   * invocation for tile t standing at position Index(grid, t).
   */
  lemma {:induction false} GridLabelsIndexed(stateOf: Tile -> TileState, grid: Grid, stride: int, xEnd: int)
    requires grid.minTileX <= xEnd && grid.minTileY <= grid.maxTileY
    ensures var ls := GridLabels(stateOf, grid, stride, xEnd);
            && |ls| == (xEnd - grid.minTileX) * (grid.maxTileY - grid.minTileY + 1)
            && forall t: Tile :: grid.minTileX <= t.x < xEnd && grid.minTileY <= t.y <= grid.maxTileY ==>
                 0 <= Index(grid, t) < |ls| && ls[Index(grid, t)] == LabelOf(stateOf, grid, stride, t)
    decreases xEnd - grid.minTileX
  {
    if xEnd > grid.minTileX {
      var x := xEnd - 1;
      var rows := grid.maxTileY - grid.minTileY + 1;
      var before := GridLabels(stateOf, grid, stride, x);
      var column := ColumnLabels(stateOf, grid, stride, x, grid.maxTileY + 1);
      GridLabelsIndexed(stateOf, grid, stride, x);
      ColumnLabelsIndexed(stateOf, grid, stride, x, grid.maxTileY + 1);
      assert |before| == (x - grid.minTileX) * rows;
      assert (xEnd - grid.minTileX) * rows == (x - grid.minTileX) * rows + rows;
      forall t: Tile | grid.minTileX <= t.x < xEnd && grid.minTileY <= t.y <= grid.maxTileY
        ensures 0 <= Index(grid, t) < |before| + |column|
        ensures (before + column)[Index(grid, t)] == LabelOf(stateOf, grid, stride, t)
      {
        IndexBeforeColumn(grid, t, x);
      }
    }
  }

  /** Tiles of earlier columns come before column x in the scan, which starts at (x - minTileX) * rows. */
  lemma IndexBeforeColumn(grid: Grid, t: Tile, x: int)
    requires grid.minTileX <= t.x <= x && grid.minTileY <= t.y <= grid.maxTileY
    ensures 0 <= Index(grid, t)
    ensures t.x < x ==> Index(grid, t) < (x - grid.minTileX) * (grid.maxTileY - grid.minTileY + 1)
    ensures t.x == x ==> Index(grid, t) == (x - grid.minTileX) * (grid.maxTileY - grid.minTileY + 1) + (t.y - grid.minTileY)
  {
    var rows := grid.maxTileY - grid.minTileY + 1;
    MulMonotone(0, t.x - grid.minTileX, rows);
    if t.x < x {
      MulMonotone(t.x - grid.minTileX + 1, x - grid.minTileX, rows);
      assert (t.x - grid.minTileX + 1) * rows == (t.x - grid.minTileX) * rows + rows;
    }
  }

  /** The complete scan invokes the callback (granularity + 1)^2 times, once at each tile's position. */
  lemma ScanOrder(stateOf: Tile -> TileState, grid: Grid, stride: int)
    requires Regular(grid)
    ensures var ls := Scan(stateOf, grid, stride);
            && |ls| == (grid.granularity + 1) * (grid.granularity + 1)
            && forall t :: Scanned(grid, t) ==> 0 <= Index(grid, t) < |ls| && ls[Index(grid, t)] == LabelOf(stateOf, grid, stride, t)
  {
    GridLabelsIndexed(stateOf, grid, stride, grid.maxTileX + 1);
  }

  /** Distinct scanned tiles have distinct positions in the scan. */
  lemma IndexInjective(grid: Grid, t1: Tile, t2: Tile)
    requires Regular(grid) && Scanned(grid, t1) && Scanned(grid, t2)
    requires Index(grid, t1) == Index(grid, t2)
    ensures t1 == t2
  {
    KeyCollision(grid.granularity + 1, t1.y - grid.minTileY, t1.x - grid.minTileX,
                 t2.y - grid.minTileY, t2.x - grid.minTileX);
  }
}
