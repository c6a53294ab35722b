/**
 * lib/geofence.js: a polygon geofence with a tile index. Construction closes
 * the ring, computes the bounding box, cuts it into tiles and labels each tile
 * Boundary ('x'), Inside ('i') or Outside ('o'); a point query checks the box,
 * looks its tile up and falls back to ray casting only for Boundary tiles.
 *
 * The class keys tiles as the source does, with the granularity as row stride,
 * so keys of the first and the last column collide. InsideAsBuilt takes the
 * stride as a parameter: with the number of tile columns each tile keeps its
 * own label.
 */
module Geofences {
  import opened Wrappers
  import opened Utils
  import opened TileGrid

  // ---------------------------------------------------------------------------
  // Bounding box

  /** The smallest element (Math.min over the list). */
  function MinOf(xs: seq<real>): (m: real)
    requires |xs| > 0
    ensures m in xs && forall x :: x in xs ==> m <= x
  {
    if |xs| == 1 then xs[0]
    else
      var rest := MinOf(xs[1..]);
      assert xs == [xs[0]] + xs[1..];
      if xs[0] <= rest then xs[0] else rest
  }

  /** The largest element (Math.max over the list). */
  function MaxOf(xs: seq<real>): (m: real)
    requires |xs| > 0
    ensures m in xs && forall x :: x in xs ==> x <= m
  {
    if |xs| == 1 then xs[0]
    else
      var rest := MaxOf(xs[1..]);
      assert xs == [xs[0]] + xs[1..];
      if xs[0] >= rest then xs[0] else rest
  }

  function Xs(vs: seq<Point>): seq<real> {
    seq(|vs|, i requires 0 <= i < |vs| => vs[i].x)
  }

  function Ys(vs: seq<Point>): seq<real> {
    seq(|vs|, i requires 0 <= i < |vs| => vs[i].y)
  }

  predicate InBox(box: BBox, p: Point) {
    box.minX <= p.x <= box.maxX && box.minY <= p.y <= box.maxY
  }

  /** The bounding box of the vertices: every vertex lies in it and each side touches a vertex. */
  function BoxOf(vs: seq<Point>): (box: BBox)
    requires |vs| > 0
    ensures forall p :: p in vs ==> InBox(box, p)
    ensures exists p :: p in vs && p.x == box.minX
    ensures exists p :: p in vs && p.x == box.maxX
    ensures exists p :: p in vs && p.y == box.minY
    ensures exists p :: p in vs && p.y == box.maxY
  {
    var xs, ys := Xs(vs), Ys(vs);
    BoxFromCoordinates(vs, MinOf(xs), MaxOf(xs), MinOf(ys), MaxOf(ys));
    BBox(MinOf(xs), MinOf(ys), MaxOf(xs), MaxOf(ys))
  }

  lemma BoxFromCoordinates(vs: seq<Point>, x0: real, x1: real, y0: real, y1: real)
    requires x0 in Xs(vs) && x1 in Xs(vs) && y0 in Ys(vs) && y1 in Ys(vs)
    requires forall x :: x in Xs(vs) ==> x0 <= x <= x1
    requires forall y :: y in Ys(vs) ==> y0 <= y <= y1
    ensures forall p :: p in vs ==> InBox(BBox(x0, y0, x1, y1), p)
    ensures exists p :: p in vs && p.x == x0
    ensures exists p :: p in vs && p.x == x1
    ensures exists p :: p in vs && p.y == y0
    ensures exists p :: p in vs && p.y == y1
  {
    var xs, ys := Xs(vs), Ys(vs);
    forall p | p in vs
      ensures InBox(BBox(x0, y0, x1, y1), p)
    {
      var k :| 0 <= k < |vs| && vs[k] == p;
      assert xs[k] in xs && ys[k] in ys;
    }
    var i0 :| 0 <= i0 < |xs| && xs[i0] == x0;
    var i1 :| 0 <= i1 < |xs| && xs[i1] == x1;
    var j0 :| 0 <= j0 < |ys| && ys[j0] == y0;
    var j1 :| 0 <= j1 < |ys| && ys[j1] == y1;
    assert vs[i0] in vs && vs[i1] in vs && vs[j0] in vs && vs[j1] in vs;
  }

  /** The box depends only on the set of vertices. */
  lemma BoxOfSamePoints(a: seq<Point>, b: seq<Point>)
    requires |a| > 0 && |b| > 0
    requires forall p :: p in a <==> p in b
    ensures BoxOf(a) == BoxOf(b)
  {
    var boxA, boxB := BoxOf(a), BoxOf(b);
    var p0 :| p0 in a && p0.x == boxA.minX;
    var p1 :| p1 in a && p1.x == boxA.maxX;
    var p2 :| p2 in a && p2.y == boxA.minY;
    var p3 :| p3 in a && p3.y == boxA.maxY;
    var q0 :| q0 in b && q0.x == boxB.minX;
    var q1 :| q1 in b && q1.x == boxB.maxX;
    var q2 :| q2 in b && q2.y == boxB.minY;
    var q3 :| q3 in b && q3.y == boxB.maxY;
    assert InBox(boxB, p0) && InBox(boxB, p1) && InBox(boxB, p2) && InBox(boxB, p3);
    assert InBox(boxA, q0) && InBox(boxA, q1) && InBox(boxA, q2) && InBox(boxA, q3);
  }

  // ---------------------------------------------------------------------------
  // Closing the ring and the granularity default

  /** The first vertex is repeated at the end. */
  predicate Closed(vs: seq<Point>) {
    |vs| > 0 && vs[0] == vs[|vs| - 1]
  }

  /** Appends the first vertex when the last one differs from it. */
  function CloseRing(vs: seq<Point>): (ring: seq<Point>)
    requires |vs| > 0
    ensures Closed(ring) && vs <= ring && |ring| <= |vs| + 1
    ensures Closed(vs) ==> ring == vs
  {
    if vs[0] != vs[|vs| - 1] then vs + [vs[0]] else vs
  }

  /** Closing the ring adds no new vertex, so the bounding box stays the same. */
  lemma CloseRingKeepsBox(vs: seq<Point>)
    requires |vs| > 0
    ensures BoxOf(CloseRing(vs)) == BoxOf(vs)
  {
    assert forall p :: p in CloseRing(vs) <==> p in vs;
    BoxOfSamePoints(CloseRing(vs), vs);
  }

  /** Closing the ring does not change any ray-casting verdict. */
  lemma CloseRingKeepsInPolygon(p: Point, vs: seq<Point>)
    requires |vs| > 0
    ensures InPolygon(p, CloseRing(vs)) == InPolygon(p, vs)
  {
    if !Closed(vs) {
      ClosingKeepsInPolygon(p, vs);
    }
  }

  /**
   * `Math.floor(granularity) || 20`: the floor of the argument, or 20 when the
   * argument is missing or its floor is 0.
   */
  function EffectiveGranularity(granularity: Option<real>): (g: int)
    ensures g != 0
    ensures granularity.Some? && (granularity.value >= 1.0 || granularity.value < 0.0) ==>
              g as real <= granularity.value < (g + 1) as real
    ensures granularity.None? || 0.0 <= granularity.value < 1.0 ==> g == 20
  {
    if granularity.Some? && granularity.value.Floor != 0 then granularity.value.Floor else 20
  }

  // ---------------------------------------------------------------------------
  // The answer of a point query

  /** The tile that holds a point. */
  function TileOf(grid: Grid, p: Point): Tile
    requires grid.tileWidth != 0.0 && grid.tileHeight != 0.0
  {
    Tile(Project(p.x, grid.tileWidth), Project(p.y, grid.tileHeight))
  }

  /**
   * The query on a geofence state: false outside the box; otherwise the label
   * stored under the point's tile key decides (Inside: true, Boundary: ray
   * casting, Outside or nothing stored: false).
   */
  function Answer(vertices: seq<Point>, box: BBox, grid: Grid, stride: int,
                  tiles: map<int, TileState>, p: Point): bool
    requires grid.tileWidth != 0.0 && grid.tileHeight != 0.0
  {
    if !InBox(box, p) then false
    else
      var h := Key(grid, stride, TileOf(grid, p));
      if h in tiles && tiles[h] == Inside then true
      else if h in tiles && tiles[h] == Boundary then InPolygon(p, vertices)
      else false
  }

  /** The dictionary built from a closed ring over a grid, with the given key stride. */
  function BuiltTiles(vertices: seq<Point>, grid: Grid, stride: int): map<int, TileState> {
    Store(map[], Scan(Labelling(vertices, grid), grid, stride))
  }

  /** Construction followed by a query, with the key stride as a parameter (the source uses the granularity). */
  function InsideAsBuilt(input: seq<Point>, granularity: int, stride: int, p: Point): bool
    requires |input| > 0 && granularity != 0 && Proper(BoxOf(CloseRing(input)))
  {
    var ring := CloseRing(input);
    var box := BoxOf(ring);
    var grid := GridOf(box, granularity);
    Answer(ring, box, grid, stride, BuiltTiles(ring, grid, stride), p)
  }

  /** What the label of tile t says about p: Inside, or Boundary and inside by ray casting. */
  function Verdict(vertices: seq<Point>, grid: Grid, t: Tile, p: Point): bool {
    var c := Classify(vertices, TileRing(grid, t));
    c == Inside || (c == Boundary && InPolygon(p, vertices))
  }

  /** A point of the box lies in a scanned tile. */
  lemma TileOfInBox(box: BBox, granularity: int, p: Point)
    requires Proper(box) && granularity > 0 && InBox(box, p)
    ensures Scanned(GridOf(box, granularity), TileOf(GridOf(box, granularity), p))
  {
    var grid := GridOf(box, granularity);
    ProjectMonotone(box.minX, p.x, grid.tileWidth);
    ProjectMonotone(p.x, box.maxX, grid.tileWidth);
    ProjectMonotone(box.minY, p.y, grid.tileHeight);
    ProjectMonotone(p.y, box.maxY, grid.tileHeight);
  }

  /**
   * The tile index decides a query in the box by the label of one tile: with the
   * source's stride (the granularity) the label of Winner of the point's tile,
   * with the number of columns as stride the label of the point's own tile.
   */
  lemma InsideByTile(input: seq<Point>, granularity: int, p: Point)
    requires |input| > 0 && granularity > 0 && Proper(BoxOf(CloseRing(input)))
    requires InBox(BoxOf(CloseRing(input)), p)
    ensures var ring := CloseRing(input);
            var grid := GridOf(BoxOf(ring), granularity);
            && Scanned(grid, TileOf(grid, p))
            && InsideAsBuilt(input, granularity, granularity, p) == Verdict(ring, grid, Winner(grid, TileOf(grid, p)), p)
            && InsideAsBuilt(input, granularity, Columns(grid), p) == Verdict(ring, grid, TileOf(grid, p), p)
  {
    var ring := CloseRing(input);
    var grid := GridOf(BoxOf(ring), granularity);
    TileOfInBox(BoxOf(ring), granularity, p);
    ScanAsWritten(Labelling(ring, grid), grid);
    ScanCorrected(Labelling(ring, grid), grid);
  }

  /** A negative granularity leaves the scan empty, and every query answers false. */
  lemma NegativeGranularityNeverInside(input: seq<Point>, granularity: int, stride: int, p: Point)
    requires |input| > 0 && granularity < 0 && Proper(BoxOf(CloseRing(input)))
    ensures var ring := CloseRing(input);
            BuiltTiles(ring, GridOf(BoxOf(ring), granularity), stride) == map[]
    ensures !InsideAsBuilt(input, granularity, stride, p)
  {
  }

  // ---------------------------------------------------------------------------
  // The counterexample to the source's key

  /** The closed triangle (0, 0), (10, 8), (0, 10). */
  function Triangle(): seq<Point> {
    [Point(0.0, 0.0), Point(10.0, 8.0), Point(0.0, 10.0), Point(0.0, 0.0)]
  }

  /** The tile [10, 15] x [0, 5] as a ring. */
  function LowerRightTile(): seq<Point> {
    [Point(10.0, 0.0), Point(15.0, 0.0), Point(15.0, 5.0), Point(10.0, 5.0), Point(10.0, 0.0)]
  }

  /** The tile [0, 5] x [5, 10] as a ring. */
  function UpperLeftTile(): seq<Point> {
    [Point(0.0, 5.0), Point(5.0, 5.0), Point(5.0, 10.0), Point(0.0, 10.0), Point(0.0, 5.0)]
  }

  /** The separating line: through (0, 0) in direction (10, 8). */
  function SeparatorOrigin(): Point { Point(0.0, 0.0) }
  function SeparatorDirection(): Point { Point(10.0, 8.0) }

  lemma LowerRightTileRightOfSeparator()
    ensures forall k :: 0 <= k < |LowerRightTile()| ==> Side(SeparatorOrigin(), SeparatorDirection(), LowerRightTile()[k]) < 0.0
  {
    var tile, o, d := LowerRightTile(), SeparatorOrigin(), SeparatorDirection();
    forall k | 0 <= k < |tile|
      ensures Side(o, d, tile[k]) < 0.0
    {
      SideInCoordinates(o, d, tile[k]);
    }
  }

  lemma TriangleLeftOfSeparator()
    ensures forall k :: 0 <= k < |Triangle()| ==> Side(SeparatorOrigin(), SeparatorDirection(), Triangle()[k]) >= 0.0
  {
    var ring, o, d := Triangle(), SeparatorOrigin(), SeparatorDirection();
    forall k | 0 <= k < |ring|
      ensures Side(o, d, ring[k]) >= 0.0
    {
      SideInCoordinates(o, d, ring[k]);
    }
  }

  /** No tile edge lies on the line of a triangle edge: each of the twelve pairs is evaluated in coordinates. */
  lemma LowerRightTileNoCollinearEdges(tile: seq<Point>, ring: seq<Point>)
    requires tile == LowerRightTile() && ring == Triangle()
    ensures forall i, j :: 0 <= i < |tile| - 1 && 0 <= j < |ring| - 1 ==>
              NotCollinear(tile[i], tile[i + 1], ring[j], ring[j + 1])
  {
    forall i, j | 0 <= i < |tile| - 1 && 0 <= j < |ring| - 1
      ensures NotCollinear(tile[i], tile[i + 1], ring[j], ring[j + 1])
    {
      if i == 0 && j == 0 {
        assert tile[i] == Point(10.0, 0.0) && tile[i + 1] == Point(15.0, 0.0) && ring[j] == Point(0.0, 0.0) && ring[j + 1] == Point(10.0, 8.0);
        NotCollinearInCoordinates(Point(10.0, 0.0), Point(15.0, 0.0), Point(0.0, 0.0), Point(10.0, 8.0));
      } else if i == 0 && j == 1 {
        assert tile[i] == Point(10.0, 0.0) && tile[i + 1] == Point(15.0, 0.0) && ring[j] == Point(10.0, 8.0) && ring[j + 1] == Point(0.0, 10.0);
        NotCollinearInCoordinates(Point(10.0, 0.0), Point(15.0, 0.0), Point(10.0, 8.0), Point(0.0, 10.0));
      } else if i == 0 && j == 2 {
        assert tile[i] == Point(10.0, 0.0) && tile[i + 1] == Point(15.0, 0.0) && ring[j] == Point(0.0, 10.0) && ring[j + 1] == Point(0.0, 0.0);
        NotCollinearInCoordinates(Point(10.0, 0.0), Point(15.0, 0.0), Point(0.0, 10.0), Point(0.0, 0.0));
      } else if i == 1 && j == 0 {
        assert tile[i] == Point(15.0, 0.0) && tile[i + 1] == Point(15.0, 5.0) && ring[j] == Point(0.0, 0.0) && ring[j + 1] == Point(10.0, 8.0);
        NotCollinearInCoordinates(Point(15.0, 0.0), Point(15.0, 5.0), Point(0.0, 0.0), Point(10.0, 8.0));
      } else if i == 1 && j == 1 {
        assert tile[i] == Point(15.0, 0.0) && tile[i + 1] == Point(15.0, 5.0) && ring[j] == Point(10.0, 8.0) && ring[j + 1] == Point(0.0, 10.0);
        NotCollinearInCoordinates(Point(15.0, 0.0), Point(15.0, 5.0), Point(10.0, 8.0), Point(0.0, 10.0));
      } else if i == 1 && j == 2 {
        assert tile[i] == Point(15.0, 0.0) && tile[i + 1] == Point(15.0, 5.0) && ring[j] == Point(0.0, 10.0) && ring[j + 1] == Point(0.0, 0.0);
        NotCollinearInCoordinates(Point(15.0, 0.0), Point(15.0, 5.0), Point(0.0, 10.0), Point(0.0, 0.0));
      } else if i == 2 && j == 0 {
        assert tile[i] == Point(15.0, 5.0) && tile[i + 1] == Point(10.0, 5.0) && ring[j] == Point(0.0, 0.0) && ring[j + 1] == Point(10.0, 8.0);
        NotCollinearInCoordinates(Point(15.0, 5.0), Point(10.0, 5.0), Point(0.0, 0.0), Point(10.0, 8.0));
      } else if i == 2 && j == 1 {
        assert tile[i] == Point(15.0, 5.0) && tile[i + 1] == Point(10.0, 5.0) && ring[j] == Point(10.0, 8.0) && ring[j + 1] == Point(0.0, 10.0);
        NotCollinearInCoordinates(Point(15.0, 5.0), Point(10.0, 5.0), Point(10.0, 8.0), Point(0.0, 10.0));
      } else if i == 2 && j == 2 {
        assert tile[i] == Point(15.0, 5.0) && tile[i + 1] == Point(10.0, 5.0) && ring[j] == Point(0.0, 10.0) && ring[j + 1] == Point(0.0, 0.0);
        NotCollinearInCoordinates(Point(15.0, 5.0), Point(10.0, 5.0), Point(0.0, 10.0), Point(0.0, 0.0));
      } else if i == 3 && j == 0 {
        assert tile[i] == Point(10.0, 5.0) && tile[i + 1] == Point(10.0, 0.0) && ring[j] == Point(0.0, 0.0) && ring[j + 1] == Point(10.0, 8.0);
        NotCollinearInCoordinates(Point(10.0, 5.0), Point(10.0, 0.0), Point(0.0, 0.0), Point(10.0, 8.0));
      } else if i == 3 && j == 1 {
        assert tile[i] == Point(10.0, 5.0) && tile[i + 1] == Point(10.0, 0.0) && ring[j] == Point(10.0, 8.0) && ring[j + 1] == Point(0.0, 10.0);
        NotCollinearInCoordinates(Point(10.0, 5.0), Point(10.0, 0.0), Point(10.0, 8.0), Point(0.0, 10.0));
      } else {
        assert tile[i] == Point(10.0, 5.0) && tile[i + 1] == Point(10.0, 0.0) && ring[j] == Point(0.0, 10.0) && ring[j + 1] == Point(0.0, 0.0);
        NotCollinearInCoordinates(Point(10.0, 5.0), Point(10.0, 0.0), Point(0.0, 10.0), Point(0.0, 0.0));
      }
    }
  }

  /** The triangle lies on or left of the separating line, the tile strictly right of it. */
  lemma LowerRightTileNoEdgeContact()
    ensures !EdgesIntersect(LowerRightTile(), Triangle())
  {
    LowerRightTileRightOfSeparator();
    TriangleLeftOfSeparator();
    LowerRightTileNoCollinearEdges(LowerRightTile(), Triangle());
    SeparatedRingsNoEdgeContact(LowerRightTile(), Triangle(), SeparatorOrigin(), SeparatorDirection());
  }

  /** No vertex of the triangle lies in the tile. */
  lemma LowerRightTileNoTriangleVertex()
    ensures !AnyVertexInside(Triangle(), LowerRightTile())
  {
    var tile, ring := LowerRightTile(), Triangle();
    OutsideYRangeNotInside(ring[1], tile);
    OutsideYRangeNotInside(ring[2], tile);
    var p := ring[0];
    assert Crossings(p, tile, 2) == 0;
    assert Crossings(p, tile, 3) == 1;
    assert Crossings(p, tile, 4) == 1;
    assert Crossings(p, tile, 5) == 2;
  }

  /** No corner of the tile lies in the triangle: all are at or right of x = 10. */
  lemma LowerRightTileNoCornerInside()
    ensures !AnyVertexInside(LowerRightTile(), Triangle())
  {
    var tile, ring := LowerRightTile(), Triangle();
    forall k | 0 <= k < |tile| - 1
      ensures !InPolygon(tile[k], ring)
    {
      RightOfRingNotInside(tile[k], ring);
    }
  }

  lemma LowerRightTileOutside()
    ensures Classify(Triangle(), LowerRightTile()) == Outside
  {
    LowerRightTileNoEdgeContact();
    LowerRightTileNoTriangleVertex();
    LowerRightTileNoCornerInside();
  }

  /** The tile's left side lies on the triangle's left side x = 0. */
  lemma UpperLeftTileBoundary()
    ensures Classify(Triangle(), UpperLeftTile()) == Boundary
  {
    var tile, ring := UpperLeftTile(), Triangle();
    SameVerticalLineReported(tile[3], tile[4], ring[2], ring[3]);
    assert EdgePairIntersects(tile, ring, 3, 2);
  }

  /** (1, 6) lies inside the triangle: its ray crosses only the edge from (10, 8) to (0, 0). */
  lemma PointInTriangle()
    ensures InPolygon(Point(1.0, 6.0), Triangle())
  {
    var ring, p := Triangle(), Point(1.0, 6.0);
    assert Crossings(p, ring, 1) == 0;
    assert Crossings(p, ring, 2) == 1;
    assert Crossings(p, ring, 3) == 1;
    assert Crossings(p, ring, 4) == 1;
  }

  /** The triangle's box is [0, 10] x [0, 10]. */
  lemma TriangleBox(ring: seq<Point>)
    requires ring == Triangle()
    ensures BoxOf(ring) == BBox(0.0, 0.0, 10.0, 10.0)
  {
    assert ring[0] in ring && ring[1] in ring && ring[2] in ring;
    assert forall p :: p in ring ==> 0.0 <= p.x <= 10.0 && 0.0 <= p.y <= 10.0;
  }

  /** Granularity 2 over [0, 10] x [0, 10]: tiles of size 5, indices 0..2 on both axes. */
  lemma TriangleGrid(box: BBox)
    requires box == BBox(0.0, 0.0, 10.0, 10.0)
    ensures Proper(box) && GridOf(box, 2) == Grid(2, 5.0, 5.0, 0, 0, 2, 2)
  {
    ProjectUnique(0.0, 5.0, 0);
    ProjectUnique(10.0, 5.0, 2);
  }

  /** (1, 6) is in tile (0, 1), whose source key 2 is last written by tile (2, 0). */
  lemma CollidingTiles(grid: Grid, p: Point)
    requires grid == Grid(2, 5.0, 5.0, 0, 0, 2, 2) && p == Point(1.0, 6.0)
    ensures TileOf(grid, p) == Tile(0, 1) && Winner(grid, Tile(0, 1)) == Tile(2, 0)
    ensures Key(grid, 2, Tile(0, 1)) == Key(grid, 2, Tile(2, 0))
  {
    ProjectUnique(1.0, 5.0, 0);
    ProjectUnique(6.0, 5.0, 1);
  }

  /** Tile (2, 0) is labelled Outside, tile (0, 1) Boundary, and (1, 6) is inside the triangle. */
  lemma CollidingVerdicts(ring: seq<Point>, grid: Grid, p: Point)
    requires ring == Triangle() && grid == Grid(2, 5.0, 5.0, 0, 0, 2, 2) && p == Point(1.0, 6.0)
    ensures !Verdict(ring, grid, Tile(2, 0), p)
    ensures Verdict(ring, grid, Tile(0, 1), p)
  {
    assert TileRing(grid, Tile(2, 0)) == LowerRightTile();
    assert TileRing(grid, Tile(0, 1)) == UpperLeftTile();
    LowerRightTileOutside();
    UpperLeftTileBoundary();
    PointInTriangle();
  }

  /**
   * With granularity 2 the triangle's box [0, 10] x [0, 10] has tiles 0..2 per
   * axis. The point (1, 6) is in tile (0, 1), whose key under the source's
   * stride is 2, which the last column's tile (2, 0) (Outside) overwrites: the
   * query answers false although the point is inside. With the number of
   * columns as stride the query answers true.
   */
  lemma KeyCollisionMisclassifies(triangle: seq<Point>, p: Point)
    requires triangle == [Point(0.0, 0.0), Point(10.0, 8.0), Point(0.0, 10.0)] && p == Point(1.0, 6.0)
    ensures Proper(BoxOf(CloseRing(triangle)))
    ensures InPolygon(p, CloseRing(triangle))
    ensures !InsideAsBuilt(triangle, 2, 2, p)
    ensures InsideAsBuilt(triangle, 2, 3, p)
  {
    var ring := CloseRing(triangle);
    assert ring == Triangle();
    TriangleBox(ring);
    TriangleGrid(BoxOf(ring));
    var grid := GridOf(BoxOf(ring), 2);
    CollidingTiles(grid, p);
    CollidingVerdicts(ring, grid, p);
    PointInTriangle();
    InsideByTile(triangle, 2, p);
  }

  // ---------------------------------------------------------------------------
  // The geofence object

  datatype Error = VerticesNotAnArray | NoFirstVertex

  /**
   * The label test of one tile: crossing edges or a polygon vertex in the tile
   * give Boundary; otherwise a tile corner in the polygon gives Inside.
   */
  method LabelTile(ring: seq<Point>, vertices: seq<Point>) returns (state: TileState)
    ensures state == Classify(vertices, ring)
  {
    var crossing := HaveIntersectingEdges(ring, vertices);
    if !crossing {
      crossing := HasPointInPolygon(vertices, ring);
    }
    if crossing {
      state := Boundary;
    } else {
      var covered := HasPointInPolygon(ring, vertices);
      state := if covered then Inside else Outside;
    }
  }

  class Geofence {
    var vertices: seq<Point>
    var granularity: int
    var minX: real
    var maxX: real
    var minY: real
    var maxY: real
    var tileWidth: real
    var tileHeight: real
    var minTileX: int
    var minTileY: int
    var maxTileX: int
    var maxTileY: int
    var tiles: map<int, TileState>

    function Box(): BBox
      reads this
    {
      BBox(minX, minY, maxX, maxY)
    }

    function Layout(): Grid
      reads this
    {
      Grid(granularity, tileWidth, tileHeight, minTileX, minTileY, maxTileX, maxTileY)
    }

    /** The state construction leaves: a closed ring, its box and grid, and every scanned tile's label. */
    ghost predicate Valid()
      reads this
    {
      && Closed(vertices)
      && granularity != 0
      && Proper(BoxOf(vertices))
      && Box() == BoxOf(vertices)
      && Layout() == GridOf(Box(), granularity)
      && tiles == BuiltTiles(vertices, Layout(), granularity)
      && Sized()
    }

    /** Tile sizes a query can divide by; every built geofence has them. */
    ghost predicate Sized()
      reads this
    {
      tileWidth != 0.0 && tileHeight != 0.0
    }

    /** The answer `inside` gives for a point. */
    ghost function Contains(p: Point): bool
      reads this
      requires Sized()
    {
      Answer(vertices, Box(), Layout(), granularity, tiles, p)
    }

    /** Closes the ring, applies the granularity default and builds the tile index. */
    constructor(input: seq<Point>, granularityArg: Option<real>)
      requires |input| > 0 && Proper(BoxOf(input))
      ensures Valid()
      ensures vertices == CloseRing(input) && granularity == EffectiveGranularity(granularityArg)
    {
      var ring := input;
      if input[0] != input[|input| - 1] {
        ring := input + [input[0]];
      }
      vertices := ring;
      granularity := EffectiveGranularity(granularityArg);
      minX, maxX, minY, maxY := 0.0, 0.0, 0.0, 0.0;
      tileWidth, tileHeight := 0.0, 0.0;
      minTileX, minTileY, maxTileX, maxTileY := 0, 0, 0, 0;
      tiles := map[];
      new;
      CloseRingKeepsBox(input);
      SetInclusionTiles();
    }

    /** Box, tile sizes and tile range from the vertices, then one stored label per scanned tile. */
    method SetInclusionTiles()
      requires Closed(vertices) && granularity != 0 && Proper(BoxOf(vertices))
      modifies this
      ensures vertices == old(vertices) && granularity == old(granularity)
      ensures Box() == BoxOf(vertices) && Layout() == GridOf(Box(), granularity)
      ensures tiles == Store(old(tiles), Scan(Labelling(vertices, Layout()), Layout(), granularity))
    {
      var box := BoxOf(vertices);
      SetBoxAndTileSize(box);
      var labels := MakeGrid(box, granularity);
      ApplyLabels(labels);
    }

    /** Records the box and the tile size the granularity gives it. */
    method SetBoxAndTileSize(box: BBox)
      requires Proper(box) && granularity != 0
      modifies this`minX, this`minY, this`maxX, this`maxY, this`tileWidth, this`tileHeight
      ensures Box() == box
      ensures tileWidth == GridOf(box, granularity).tileWidth && tileHeight == GridOf(box, granularity).tileHeight
    {
      minX, minY, maxX, maxY := box.minX, box.minY, box.maxX, box.maxY;
      tileWidth := (maxX - minX) / granularity as real;
      tileHeight := (maxY - minY) / granularity as real;
    }

    /**
     * Records the tile range of the box and returns the callback invocations
     * (key, label) of the scan, in order.
     */
    method MakeGrid(box: BBox, g: int) returns (labels: seq<Label>)
      requires Proper(box) && g != 0
      modifies this`minTileX, this`minTileY, this`maxTileX, this`maxTileY
      ensures var grid := GridOf(box, g);
              && minTileX == grid.minTileX && minTileY == grid.minTileY
              && maxTileX == grid.maxTileX && maxTileY == grid.maxTileY
              && labels == Scan(Labelling(vertices, grid), grid, g)
    {
      var grid := GridOf(box, g);
      minTileX, minTileY, maxTileX, maxTileY := grid.minTileX, grid.minTileY, grid.maxTileX, grid.maxTileY;
      labels := ScanGrid(grid);
    }

    /** The outer loop of the scan: columns left to right, each visited bottom row first. */
    method ScanGrid(grid: Grid) returns (labels: seq<Label>)
      requires grid.maxTileX - grid.minTileX == grid.maxTileY - grid.minTileY
      ensures labels == Scan(Labelling(vertices, grid), grid, grid.granularity)
    {
      ghost var stateOf := Labelling(vertices, grid);
      var minTX, maxTX := grid.minTileX, grid.maxTileX;
      var stride := grid.granularity;
      labels := [];
      var tileX := minTX;
      while tileX <= maxTX
        invariant minTX <= tileX && (tileX <= maxTX + 1 || tileX == minTX)
        invariant labels == GridLabels(stateOf, grid, stride, tileX)
      {
        var column := ScanColumn(grid, tileX);
        labels := labels + column;
        tileX := tileX + 1;
      }
    }

    /** The inner loop of the scan: the invocations for column tileX, bottom row first. */
    method ScanColumn(grid: Grid, tileX: int) returns (column: seq<Label>)
      requires grid.minTileY <= grid.maxTileY
      ensures column == ColumnLabels(Labelling(vertices, grid), grid, grid.granularity, tileX, grid.maxTileY + 1)
    {
      ghost var stateOf := Labelling(vertices, grid);
      var minTX, minTY, maxTY := grid.minTileX, grid.minTileY, grid.maxTileY;
      var stride := grid.granularity;
      column := [];
      var tileY := minTY;
      while tileY <= maxTY
        invariant minTY <= tileY <= maxTY + 1
        invariant column == ColumnLabels(stateOf, grid, stride, tileX, tileY)
      {
        var tileHash := (tileY - minTY) * stride + (tileX - minTX);
        var bBoxPoly := TileRing(grid, Tile(tileX, tileY));
        var state := LabelTile(bBoxPoly, vertices);
        column := column + [Label(tileHash, state)];
        tileY := tileY + 1;
      }
    }

    /** The callback `tiles[hash] = state`, played for each invocation in order. */
    method ApplyLabels(labels: seq<Label>)
      modifies this`tiles
      ensures tiles == Store(old(tiles), labels)
    {
      var i := 0;
      assert labels[i..] == labels;
      while i < |labels|
        invariant 0 <= i <= |labels|
        invariant Store(tiles, labels[i..]) == Store(old(tiles), labels)
      {
        assert labels[i..][0] == labels[i] && labels[i..][1..] == labels[i + 1..];
        tiles := tiles[labels[i].key := labels[i].state];
        i := i + 1;
      }
    }

    /** The point query: box test, tile lookup, ray casting for Boundary tiles only. */
    method Inside(point: Point) returns (r: bool)
      requires Sized()
      ensures r == Contains(point)
      ensures r ==> InBox(Box(), point)
    {
      if point.x < minX || point.x > maxX || point.y < minY || point.y > maxY {
        return false;
      }
      assert InBox(Box(), point);
      var tileHash := (Project(point.y, tileHeight) - minTileY) * granularity + (Project(point.x, tileWidth) - minTileX);
      assert tileHash == Key(Layout(), granularity, TileOf(Layout(), point));
      if tileHash in tiles && tiles[tileHash] == TileState.Inside {
        r := true;
      } else if tileHash in tiles && tiles[tileHash] == Boundary {
        r := PointInPolygon(point, vertices);
      } else {
        r := false;
      }
    }
  }

  /**
   * A query on a built geofence is decided by the label of one tile, Winner of
   * the point's own tile: the last tile whose label the scan stored under the
   * point's key. Inside answers true, Boundary defers to ray casting, anything
   * else is false.
   */
  lemma ContainsByWinnerTile(gf: Geofence, p: Point)
    requires gf.Valid() && gf.granularity > 0 && InBox(gf.Box(), p)
    ensures Scanned(gf.Layout(), TileOf(gf.Layout(), p))
    ensures gf.Contains(p) == Verdict(gf.vertices, gf.Layout(), Winner(gf.Layout(), TileOf(gf.Layout(), p)), p)
  {
    TileOfInBox(gf.Box(), gf.granularity, p);
    ScanAsWritten(Labelling(gf.vertices, gf.Layout()), gf.Layout());
  }

  /** A built geofence answers exactly as construction followed by a query on its own ring does. */
  lemma ContainsAsBuilt(gf: Geofence, p: Point)
    requires gf.Valid()
    ensures gf.Contains(p) == InsideAsBuilt(gf.vertices, gf.granularity, gf.granularity, p)
  {
  }

  /**
   * The geofence built on the triangle (0, 0), (10, 8), (0, 10) with granularity
   * 2 says (1, 6) is outside, though it is inside.
   */
  lemma GeofenceMisclassifies(gf: Geofence, triangle: seq<Point>, p: Point)
    requires triangle == [Point(0.0, 0.0), Point(10.0, 8.0), Point(0.0, 10.0)] && p == Point(1.0, 6.0)
    requires gf.Valid() && gf.vertices == CloseRing(triangle) && gf.granularity == 2
    ensures InPolygon(p, gf.vertices) && !gf.Contains(p)
  {
    KeyCollisionMisclassifies(triangle, p);
    ContainsAsBuilt(gf, p);
  }

  /** A geofence built with a negative granularity has no tiles and contains nothing. */
  lemma NegativeGranularityEmpty(gf: Geofence, p: Point)
    requires gf.Valid() && gf.granularity < 0
    ensures gf.tiles == map[] && !gf.Contains(p)
  {
  }

  /** `new Geofence(vertices, granularity)`: throws when vertices is not an array. */
  method NewGeofence(vertices: Option<seq<Point>>, granularity: Option<real>) returns (r: Result<Geofence, Error>)
    requires vertices.Some? && |vertices.value| > 0 ==> Proper(BoxOf(vertices.value))
    ensures vertices.None? ==> r == Failure(VerticesNotAnArray)
    ensures vertices.Some? && |vertices.value| == 0 ==> r == Failure(NoFirstVertex)
    ensures vertices.Some? && |vertices.value| > 0 ==>
              && r.Success? && fresh(r.value) && r.value.Valid()
              && r.value.vertices == CloseRing(vertices.value)
              && r.value.granularity == EffectiveGranularity(granularity)
  {
    if vertices.None? {
      return Failure(VerticesNotAnArray);
    }
    if |vertices.value| == 0 {
      return Failure(NoFirstVertex);
    }
    var gf := new Geofence(vertices.value, granularity);
    return Success(gf);
  }
}
