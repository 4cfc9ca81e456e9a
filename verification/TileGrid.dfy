/**
 The grid of 1 km tiles over a coverage block and the index of the tiles a block touches
 (geonode/cephgeo/utils.py, tile_floor, tile_ceiling, get_bounds_1x1km and tile_shp).
 Coordinates are exact reals.
 */
module TileGrid {
  import opened Lists
  import opened Text

  const TILE := 1000

  function TileFloor(x: real): (r: int)
    ensures r % TILE == 0 && r as real <= x < (r + TILE) as real
  {
    (x / TILE as real).Floor * TILE
  }

  function Ceiling(x: real): int {
    -((-x).Floor)
  }

  function TileCeiling(x: real): (r: int)
    ensures r % TILE == 0 && (r - TILE) as real < x <= r as real
  {
    Ceiling(x / TILE as real) * TILE
  }

  datatype Point = Point(x: real, y: real)

  datatype Rect = Rect(minX: real, minY: real, maxX: real, maxY: real) {
    predicate Contains(p: Point) {
      minX <= p.x <= maxX && minY <= p.y <= maxY
    }
  }

  /** A box snapped to the grid. */
  datatype Box = Box(minX: int, minY: int, maxX: int, maxY: int) {
    predicate Snapped() {
      minX % TILE == 0 && minY % TILE == 0 && maxX % TILE == 0 && maxY % TILE == 0 && minX <= maxX && minY <= maxY
    }

    predicate NonDegenerate() {
      minX < maxX && minY < maxY
    }

    /** Its half-open extent. */
    predicate Contains(p: Point) {
      minX as real <= p.x < maxX as real && minY as real <= p.y < maxY as real
    }
  }

  /** A tile, named by its upper left corner. */
  datatype Tile = Tile(x: int, y: int) {
    predicate HalfOpen(p: Point) {
      x as real <= p.x < (x + TILE) as real && (y - TILE) as real <= p.y < y as real
    }

    predicate Closed(p: Point) {
      x as real <= p.x <= (x + TILE) as real && (y - TILE) as real <= p.y <= y as real
    }
  }

  function Bounds(shape: Rect): (b: Box)
    requires shape.minX <= shape.maxX && shape.minY <= shape.maxY
    ensures b.Snapped() && b.minX as real <= shape.minX && shape.maxX <= b.maxX as real
    ensures b.minY as real <= shape.minY && shape.maxY <= b.maxY as real
    ensures shape.minX < (b.minX + 1000) as real && (b.maxX - 1000) as real < shape.maxX
    ensures shape.minY < (b.minY + 1000) as real && (b.maxY - 1000) as real < shape.maxY
  {
    Box(TileFloor(shape.minX), TileFloor(shape.minY), TileCeiling(shape.maxX), TileCeiling(shape.maxY))
  }

  // ---- The tiles the double loop visits, row by row ----

  function RowFrom(b: Box, x: int, y: int): seq<Tile>
    decreases b.maxX - x
  {
    if x >= b.maxX then [] else [Tile(x, y)] + RowFrom(b, x + TILE, y)
  }

  function TilesFrom(b: Box, y: int): seq<Tile>
    decreases b.maxY + TILE - y
  {
    if y >= b.maxY + TILE then [] else RowFrom(b, b.minX, y) + TilesFrom(b, y + TILE)
  }

  function Tiles(b: Box): seq<Tile> {
    TilesFrom(b, b.minY + TILE)
  }

  lemma {:induction false} RowShape(b: Box, x: int, y: int)
    requires b.Snapped() && x % TILE == 0 && x <= b.maxX
    ensures |RowFrom(b, x, y)| == (b.maxX - x) / TILE
    ensures Distinct(RowFrom(b, x, y))
    ensures forall t :: t in RowFrom(b, x, y) <==> t.y == y && t.x % TILE == 0 && x <= t.x < b.maxX
    decreases b.maxX - x
  {
    if x < b.maxX {
      RowShape(b, x + TILE, y);
    }
  }

  lemma {:induction false} TilesCount(b: Box, y: int, w: nat, rows: nat)
    requires b.Snapped() && b.maxX - b.minX == w * TILE && b.maxY + TILE - y == rows * TILE
    ensures |TilesFrom(b, y)| == w * rows
    decreases rows
  {
    if rows > 0 {
      TilesCount(b, y + TILE, w, rows - 1);
      RowShape(b, b.minX, y);
      assert |RowFrom(b, b.minX, y)| == w;
      assert w * rows == w + w * (rows - 1);
    }
  }

  lemma {:induction false} TilesShape(b: Box, y: int)
    requires b.Snapped() && y % TILE == 0 && y <= b.maxY + TILE
    ensures Distinct(TilesFrom(b, y))
    ensures forall t :: t in TilesFrom(b, y)
                   <==> t.x % TILE == 0 && b.minX <= t.x < b.maxX && t.y % TILE == 0 && y <= t.y <= b.maxY
    decreases b.maxY + TILE - y
  {
    if y < b.maxY + TILE {
      var row, rest := RowFrom(b, b.minX, y), TilesFrom(b, y + TILE);
      TilesShape(b, y + TILE);
      RowShape(b, b.minX, y);
      DistinctConcat(row, rest);
      forall t ensures t in row + rest <==> t in row || t in rest {
      }
    }
  }

  /** The loop visits width times height tiles, none twice. */
  lemma VisitsEachOnce(b: Box)
    requires b.Snapped()
    ensures |Tiles(b)| == ((b.maxX - b.minX) / TILE) * ((b.maxY - b.minY) / TILE)
    ensures Distinct(Tiles(b))
  {
    TilesCount(b, b.minY + TILE, (b.maxX - b.minX) / TILE, (b.maxY - b.minY) / TILE);
    TilesShape(b, b.minY + TILE);
  }

  predicate Visited(b: Box, t: Tile) {
    t.x % TILE == 0 && b.minX <= t.x < b.maxX && t.y % TILE == 0 && b.minY < t.y <= b.maxY
  }

  lemma VisitedAreTiles(b: Box)
    requires b.Snapped()
    ensures forall t :: t in Tiles(b) <==> Visited(b, t)
  {
    TilesShape(b, b.minY + TILE);
    forall t: Tile | t.y % TILE == 0 ensures b.minY < t.y <==> b.minY + TILE <= t.y {
    }
  }

  lemma FloorUnique(x: real, a: int)
    requires a % TILE == 0 && a as real <= x < (a + TILE) as real
    ensures TileFloor(x) == a
  {
    assert a < TileFloor(x) + TILE && TileFloor(x) < a + TILE;
  }

  /** The tile a point falls in. */
  function TileOf(p: Point): (t: Tile)
    ensures t.HalfOpen(p)
  {
    Tile(TileFloor(p.x), TileFloor(p.y) + TILE)
  }

  /** As half-open squares the visited tiles cover the box exactly, and no point lies in two of them. */
  lemma ExactCover(b: Box, p: Point)
    requires b.Snapped()
    ensures b.Contains(p) <==> TileOf(p) in Tiles(b)
    ensures forall t :: t in Tiles(b) && t.HalfOpen(p) ==> t == TileOf(p)
  {
    VisitedAreTiles(b);
    forall t | t in Tiles(b) && t.HalfOpen(p) ensures t == TileOf(p) {
      TileUnique(t, p);
    }
  }

  lemma TileUnique(t: Tile, p: Point)
    requires t.x % TILE == 0 && t.y % TILE == 0 && t.HalfOpen(p)
    ensures t == TileOf(p)
  {
    FloorUnique(p.x, t.x);
    FloorUnique(p.y, t.y - TILE);
  }

  // ---- Grid references ----

  function GridRef(t: Tile): string {
    "E" + DecInt(t.x / TILE) + "N" + DecInt(t.y / TILE)
  }

  /** Easting before northing, both in kilometres; the northing is that of the upper edge. */
  lemma SampleReferences()
    ensures GridRef(TileOf(Point(648500.5, 802000.0))) == "E648N803"
    ensures GridRef(Tile(-1000, 0)) == "E-1N0"
  {
    FloorUnique(648500.5, 648000);
    FloorUnique(802000.0, 802000);
    assert Dec(648) == "648" && Dec(803) == "803" && Dec(1) == "1" && Dec(0) == "0";
  }

  lemma GridRefInjective(s: Tile, t: Tile)
    requires s.x % TILE == 0 && s.y % TILE == 0 && t.x % TILE == 0 && t.y % TILE == 0
    requires GridRef(s) == GridRef(t)
    ensures s == t
  {
    var a, b := DecInt(s.x / TILE), DecInt(t.x / TILE);
    var c, d := DecInt(s.y / TILE), DecInt(t.y / TILE);
    assert GridRef(s)[1..] == a + ['N'] + c && GridRef(t)[1..] == b + ['N'] + d;
    assert !IsDigit('N');
    CutUnique(a, c, b, d, 'N');
    DecIntInjective(s.x / TILE, t.x / TILE);
    DecIntInjective(s.y / TILE, t.y / TILE);
  }

  // ---- Which tiles a shape touches ----

  /** The closed tile and the shape have a point in common. */
  ghost predicate Touches(shape: Point -> bool, t: Tile) {
    exists p :: shape(p) && t.Closed(p)
  }

  ghost predicate Covered(shape: Point -> bool, b: Box) {
    forall p :: shape(p) ==> exists t :: t in Tiles(b) && Touches(shape, t) && t.Closed(p)
  }

  /** A coordinate within the snapped bounds, moved off the upper bound. */
  lemma ColumnOf(x: real, lo: int, hi: int) returns (c: int)
    requires lo % TILE == 0 && hi % TILE == 0 && lo < hi && lo as real <= x <= hi as real
    ensures c % TILE == 0 && lo <= c < hi && c as real <= x <= (c + TILE) as real
  {
    c := if x == hi as real then hi - TILE else TileFloor(x);
  }

  lemma PointCovered(shape: Point -> bool, b: Box, p: Point) returns (t: Tile)
    requires b.Snapped() && b.NonDegenerate() && shape(p)
    requires b.minX as real <= p.x <= b.maxX as real && b.minY as real <= p.y <= b.maxY as real
    ensures t in Tiles(b) && Touches(shape, t) && t.Closed(p)
  {
    var x := ColumnOf(p.x, b.minX, b.maxX);
    var y := ColumnOf(p.y, b.minY, b.maxY);
    t := Tile(x, y + TILE);
    CornerVisited(b, x, y);
    assert t.Closed(p);
  }

  lemma CornerVisited(b: Box, x: int, y: int)
    requires b.Snapped() && x % TILE == 0 && y % TILE == 0 && b.minX <= x < b.maxX && b.minY <= y < b.maxY
    ensures Tile(x, y + TILE) in Tiles(b)
  {
    VisitedAreTiles(b);
    assert Visited(b, Tile(x, y + TILE));
  }

  lemma DegenerateHasNoTiles(b: Box)
    requires b.Snapped() && !b.NonDegenerate()
    ensures Tiles(b) == []
  {
    VisitsEachOnce(b);
    var w, h := (b.maxX - b.minX) / TILE, (b.maxY - b.minY) / TILE;
    assert w == 0 || h == 0;
    assert w * h == 0;
  }

  /**
   Every point of a shape lies in a touched, visited tile exactly when the snapped bounds have an extent both ways.
   */
  lemma CoverExactly(shape: Point -> bool, extent: Rect)
    requires extent.minX <= extent.maxX && extent.minY <= extent.maxY
    requires exists p :: shape(p)
    requires forall p :: shape(p) ==> extent.Contains(p)
    ensures Covered(shape, Bounds(extent)) <==> Bounds(extent).NonDegenerate()
  {
    var b := Bounds(extent);
    if b.NonDegenerate() {
      forall p | shape(p) ensures exists t :: t in Tiles(b) && Touches(shape, t) && t.Closed(p) {
        var t := PointCovered(shape, b, p);
      }
    } else {
      DegenerateHasNoTiles(b);
    }
  }

  /** A single point on a grid corner is such a degenerate shape: no tile is visited for it. */
  lemma CornerPointIsMissed()
    ensures !Covered(p => p == Point(2000.0, 3000.0), Bounds(Rect(2000.0, 3000.0, 2000.0, 3000.0)))
  {
    var shape, extent := p => p == Point(2000.0, 3000.0), Rect(2000.0, 3000.0, 2000.0, 3000.0);
    assert shape(Point(2000.0, 3000.0));
    FloorUnique(2000.0, 2000);
    var c := TileCeiling(2000.0);
    assert 1000 < c <= 2000 || c == 2000;
    CoverExactly(shape, extent);
  }

  // ---- The index ----

  datatype Row = Row(uid: int, ref: string)

  function HitRefs(tiles: seq<Tile>, hits: Tile -> bool): seq<string> {
    if tiles == [] then []
    else if hits(tiles[0]) then [GridRef(tiles[0])] + HitRefs(tiles[1..], hits)
    else HitRefs(tiles[1..], hits)
  }

  /** A row is added for every reference that has none yet. */
  function Record(rows: seq<Row>, uid: int, refs: seq<string>): seq<Row>
    decreases |refs|
  {
    if refs == [] then rows
    else Record(if Row(uid, refs[0]) in rows then rows else rows + [Row(uid, refs[0])], uid, refs[1..])
  }

  class MissionIndex {
    var rows: seq<Row>

    constructor (rows: seq<Row>)
      ensures this.rows == rows
    {
      this.rows := rows;
    }

    method TileRow(b: Box, y: int, hits: Tile -> bool, uid: int)
      modifies this
      ensures rows == Record(old(rows), uid, HitRefs(RowFrom(b, b.minX, y), hits))
    {
      var x := b.minX;
      while x < b.maxX
        invariant Record(old(rows), uid, HitRefs(RowFrom(b, b.minX, y), hits))
            == Record(rows, uid, HitRefs(RowFrom(b, x, y), hits))
        decreases b.maxX - x
      {
        var ref := GridRef(Tile(x, y));
        assert RowFrom(b, x, y)[1..] == RowFrom(b, x + TILE, y);
        if hits(Tile(x, y)) {
          assert HitRefs(RowFrom(b, x, y), hits)[1..] == HitRefs(RowFrom(b, x + TILE, y), hits);
          if Row(uid, ref) !in rows {
            rows := rows + [Row(uid, ref)];
          }
        }
        x := x + TILE;
      }
    }

    method TileShape(b: Box, hits: Tile -> bool, uid: int)
      modifies this
      ensures rows == Record(old(rows), uid, HitRefs(Tiles(b), hits))
    {
      var y := b.minY + TILE;
      while y < b.maxY + TILE
        invariant Record(old(rows), uid, HitRefs(Tiles(b), hits)) == Record(rows, uid, HitRefs(TilesFrom(b, y), hits))
        decreases b.maxY + TILE - y
      {
        HitRefsAppend(RowFrom(b, b.minX, y), TilesFrom(b, y + TILE), hits);
        RecordAppend(rows, uid, HitRefs(RowFrom(b, b.minX, y), hits), HitRefs(TilesFrom(b, y + TILE), hits));
        TileRow(b, y, hits, uid);
        y := y + TILE;
      }
    }
  }

  lemma {:induction false} HitRefsAppend(a: seq<Tile>, b: seq<Tile>, hits: Tile -> bool)
    ensures HitRefs(a + b, hits) == HitRefs(a, hits) + HitRefs(b, hits)
  {
    if a == [] {
      assert a + b == b;
    } else {
      assert (a + b)[1..] == a[1..] + b;
      HitRefsAppend(a[1..], b, hits);
    }
  }

  lemma {:induction false} RecordAppend(rows: seq<Row>, uid: int, a: seq<string>, b: seq<string>)
    ensures Record(rows, uid, a + b) == Record(Record(rows, uid, a), uid, b)
    decreases |a|
  {
    if a == [] {
      assert a + b == b;
    } else {
      assert (a + b)[1..] == a[1..] + b;
      RecordAppend(if Row(uid, a[0]) in rows then rows else rows + [Row(uid, a[0])], uid, a[1..], b);
    }
  }

  lemma {:induction false} HitRefsMembers(tiles: seq<Tile>, hits: Tile -> bool)
    ensures forall r :: r in HitRefs(tiles, hits) <==> exists t :: t in tiles && hits(t) && r == GridRef(t)
  {
    if tiles != [] {
      HitRefsMembers(tiles[1..], hits);
      assert forall t :: t in tiles <==> t == tiles[0] || t in tiles[1..];
    }
  }

  lemma {:induction false} RecordMembers(rows: seq<Row>, uid: int, refs: seq<string>)
    ensures forall r :: r in Record(rows, uid, refs) <==> r in rows || (r.uid == uid && r.ref in refs)
    ensures rows <= Record(rows, uid, refs)
    ensures Distinct(rows) ==> Distinct(Record(rows, uid, refs))
    decreases |refs|
  {
    if refs != [] {
      var next := if Row(uid, refs[0]) in rows then rows else rows + [Row(uid, refs[0])];
      RecordMembers(next, uid, refs[1..]);
      assert forall r :: r in refs <==> r == refs[0] || r in refs[1..];
    }
  }

  lemma {:induction false} RecordKnown(rows: seq<Row>, uid: int, refs: seq<string>)
    requires forall r :: r in refs ==> Row(uid, r) in rows
    ensures Record(rows, uid, refs) == rows
    decreases |refs|
  {
    if refs != [] {
      RecordKnown(rows, uid, refs[1..]);
    }
  }

  /** Indexing a shape: what is added, that nothing is stored twice, and that a second run adds nothing. */
  lemma IndexingIsExactAndIdempotent(rows: seq<Row>, uid: int, b: Box, hits: Tile -> bool)
    requires b.Snapped()
    ensures var after := Record(rows, uid, HitRefs(Tiles(b), hits));
            && (forall t: Tile :: t in Tiles(b) && hits(t) ==> Row(uid, GridRef(t)) in after)
            && (forall r :: r in after && r !in rows ==>
                r.uid == uid && exists t :: t in Tiles(b) && hits(t) && r.ref == GridRef(t))
            && rows <= after
            && (Distinct(rows) ==> Distinct(after))
            && Record(after, uid, HitRefs(Tiles(b), hits)) == after
  {
    var refs := HitRefs(Tiles(b), hits);
    HitRefsMembers(Tiles(b), hits);
    RecordMembers(rows, uid, refs);
    RecordKnown(Record(rows, uid, refs), uid, refs);
  }

  /**
   From shape to index: once a block has been tiled, every one of its points lies in a tile recorded under its UID.
   */
  lemma EveryPointIsIndexed(shape: Point -> bool, extent: Rect, hits: Tile -> bool, rows: seq<Row>, uid: int, p: Point)
    requires extent.minX <= extent.maxX && extent.minY <= extent.maxY && Bounds(extent).NonDegenerate()
    requires forall q :: shape(q) ==> extent.Contains(q)
    requires forall t :: hits(t) <==>
               exists q :: shape(q) && t.x as real <= q.x <= (t.x + 1000) as real
                           && (t.y - 1000) as real <= q.y <= t.y as real
    requires shape(p)
    ensures exists t: Tile :: t.x as real <= p.x <= (t.x + 1000) as real && (t.y - 1000) as real <= p.y <= t.y as real
              && Row(uid, GridRef(t)) in Record(rows, uid, HitRefs(Tiles(Bounds(extent)), hits))
  {
    forall t ensures hits(t) <==> Touches(shape, t) {
    }
    var t := IndexedTile(shape, extent, hits, rows, uid, p);
  }

  lemma IndexedTile(shape: Point -> bool, extent: Rect, hits: Tile -> bool, rows: seq<Row>, uid: int, p: Point)
    returns (t: Tile)
    requires extent.minX <= extent.maxX && extent.minY <= extent.maxY && Bounds(extent).NonDegenerate()
    requires forall q :: shape(q) ==> extent.Contains(q)
    requires forall t :: hits(t) <==> Touches(shape, t)
    requires shape(p)
    ensures t.Closed(p) && Row(uid, GridRef(t)) in Record(rows, uid, HitRefs(Tiles(Bounds(extent)), hits))
  {
    CoverExactly(shape, extent);
    IndexingIsExactAndIdempotent(rows, uid, Bounds(extent), hits);
    t :| t in Tiles(Bounds(extent)) && Touches(shape, t) && t.Closed(p);
  }
}
