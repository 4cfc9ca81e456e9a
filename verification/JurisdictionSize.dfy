/**
 The size of the stored data inside a jurisdiction (geonode/datarequests/utils.py, get_juris_data_size):
 for every touched tile, the sizes of the objects whose name starts with the tile's grid reference are added up.
 */
module JurisdictionSize {
  import opened Lists
  import opened Text
  import opened TileGrid
  import opened CephObjects

  /** The objects named after one grid reference. */
  function RefSize(ref: string, objs: seq<CephObject>): int {
    if objs == [] then 0
    else (if ref <= objs[0].name then objs[0].size else 0) + RefSize(ref, objs[1..])
  }

  function TotalSize(refs: seq<string>, objs: seq<CephObject>): int {
    if refs == [] then 0 else RefSize(refs[0], objs) + TotalSize(refs[1..], objs)
  }

  predicate AnyPrefix(refs: seq<string>, name: string) {
    exists r :: r in refs && r <= name
  }

  predicate Matches(refs: seq<string>, o: CephObject) {
    AnyPrefix(refs, o.name)
  }

  /** What the total is meant to be: every matching object once. */
  function DistinctSize(refs: seq<string>, objs: seq<CephObject>): int {
    if objs == [] then 0
    else (if Matches(refs, objs[0]) then objs[0].size else 0) + DistinctSize(refs, objs[1..])
  }

  method GetJurisDataSize(extent: Rect, hits: Tile -> bool, objs: seq<CephObject>) returns (total: int)
    requires extent.minX <= extent.maxX && extent.minY <= extent.maxY
    ensures total == TotalSize(HitRefs(Tiles(Bounds(extent)), hits), objs)
  {
    var b := Bounds(extent);
    total := 0;
    var y := b.minY + TILE;
    while y < b.maxY + TILE
      invariant TotalSize(HitRefs(Tiles(b), hits), objs) == total + TotalSize(HitRefs(TilesFrom(b, y), hits), objs)
      decreases b.maxY + TILE - y
    {
      HitRefsAppend(RowFrom(b, b.minX, y), TilesFrom(b, y + TILE), hits);
      TotalAppend(HitRefs(RowFrom(b, b.minX, y), hits), HitRefs(TilesFrom(b, y + TILE), hits), objs);
      var row := RowSize(b, y, hits, objs);
      total := total + row;
      y := y + TILE;
    }
  }

  method RowSize(b: Box, y: int, hits: Tile -> bool, objs: seq<CephObject>) returns (total: int)
    ensures total == TotalSize(HitRefs(RowFrom(b, b.minX, y), hits), objs)
  {
    total := 0;
    var x := b.minX;
    while x < b.maxX
      invariant TotalSize(HitRefs(RowFrom(b, b.minX, y), hits), objs)
          == total + TotalSize(HitRefs(RowFrom(b, x, y), hits), objs)
      decreases b.maxX - x
    {
      assert RowFrom(b, x, y)[1..] == RowFrom(b, x + TILE, y);
      if hits(Tile(x, y)) {
        var ref, size := GridRef(Tile(x, y)), 0;
        assert HitRefs(RowFrom(b, x, y), hits)[1..] == HitRefs(RowFrom(b, x + TILE, y), hits);
        for i := 0 to |objs|
          invariant RefSize(ref, objs) == size + RefSize(ref, objs[i..])
        {
          assert objs[i..][1..] == objs[i + 1..];
          if ref <= objs[i].name {
            size := size + objs[i].size;
          }
        }
        total := total + size;
      }
      x := x + TILE;
    }
  }

  lemma {:induction false} TotalAppend(a: seq<string>, b: seq<string>, objs: seq<CephObject>)
    ensures TotalSize(a + b, objs) == TotalSize(a, objs) + TotalSize(b, objs)
  {
    if a == [] {
      assert a + b == b;
    } else {
      assert (a + b)[1..] == a[1..] + b;
      TotalAppend(a[1..], b, objs);
    }
  }

  // ---- Exchanging the two sums ----

  /** How many of the references a name starts with. */
  function Hits(refs: seq<string>, name: string): nat {
    if refs == [] then 0 else (if refs[0] <= name then 1 else 0) + Hits(refs[1..], name)
  }

  function WeightedSize(refs: seq<string>, objs: seq<CephObject>): int {
    if objs == [] then 0 else Hits(refs, objs[0].name) * objs[0].size + WeightedSize(refs, objs[1..])
  }

  lemma {:induction false} TotalOfOneMore(refs: seq<string>, objs: seq<CephObject>)
    requires objs != []
    ensures TotalSize(refs, objs) == Hits(refs, objs[0].name) * objs[0].size + TotalSize(refs, objs[1..])
  {
    if refs != [] {
      TotalOfOneMore(refs[1..], objs);
      var h, size := Hits(refs[1..], objs[0].name), objs[0].size;
      assert (1 + h) * size == size + h * size;
    }
  }

  /** The loop counts every object as often as it has visited references for a prefix. */
  lemma {:induction false} SumExchange(refs: seq<string>, objs: seq<CephObject>)
    ensures TotalSize(refs, objs) == WeightedSize(refs, objs)
  {
    if objs == [] {
      TotalOfNothing(refs);
    } else {
      TotalOfOneMore(refs, objs);
      SumExchange(refs, objs[1..]);
    }
  }

  lemma {:induction false} TotalOfNothing(refs: seq<string>)
    ensures TotalSize(refs, []) == 0
  {
    if refs != [] {
      TotalOfNothing(refs[1..]);
    }
  }

  // ---- When no object is counted twice ----

  /** No reference is a proper beginning of another. */
  ghost predicate PrefixFree(refs: seq<string>) {
    forall r, s :: r in refs && s in refs && r <= s ==> r == s
  }

  lemma {:induction false} HitsNone(refs: seq<string>, name: string)
    ensures Hits(refs, name) == 0 <==> !AnyPrefix(refs, name)
  {
    if refs != [] {
      var first, rest := refs[0], refs[1..];
      assert refs == [first] + rest;
      HitsNone(rest, name);
      if AnyPrefix(rest, name) {
        var r :| r in rest && r <= name;
        assert r in refs;
      }
      if AnyPrefix(refs, name) && !(first <= name) {
        var r :| r in refs && r <= name;
        assert r in rest;
      }
      assert first in refs;
    }
  }

  lemma {:induction false} HitsAtMostOne(refs: seq<string>, name: string)
    requires Distinct(refs) && PrefixFree(refs)
    ensures Hits(refs, name) <= 1
  {
    if refs != [] {
      var first, rest := refs[0], refs[1..];
      assert refs == [first] + rest && first !in rest && first in refs;
      assert forall r :: r in rest ==> r in refs;
      HitsAtMostOne(rest, name);
      if first <= name {
        HitsNone(rest, name);
        // two beginnings of one name are comparable
        assert forall r :: r in rest && r <= name ==> r <= first || first <= r;
      }
    }
  }

  lemma {:induction false} PrefixFreeCountsOnce(refs: seq<string>, objs: seq<CephObject>)
    requires Distinct(refs) && PrefixFree(refs)
    ensures WeightedSize(refs, objs) == DistinctSize(refs, objs)
  {
    if objs != [] {
      HitsAtMostOne(refs, objs[0].name);
      HitsNone(refs, objs[0].name);
      PrefixFreeCountsOnce(refs, objs[1..]);
    }
  }

  lemma {:induction false} HitsTwice(refs: seq<string>, r: string, s: string)
    requires Distinct(refs) && r in refs && s in refs && r <= s && r != s
    ensures Hits(refs, s) >= 2
  {
    var rest := refs[1..];
    assert refs == [refs[0]] + rest;
    HitsNone(rest, s);
    if r in rest && s in rest {
      HitsTwice(rest, r, s);
    }
  }

  /**
   The total is the size of the distinct matching objects, whatever is stored, exactly when the references are
   prefix-free.
   */
  lemma TrueSumExactly(refs: seq<string>)
    requires Distinct(refs)
    ensures (forall objs :: TotalSize(refs, objs) == DistinctSize(refs, objs)) <==> PrefixFree(refs)
  {
    if PrefixFree(refs) {
      forall objs ensures TotalSize(refs, objs) == DistinctSize(refs, objs) {
        SumExchange(refs, objs);
        PrefixFreeCountsOnce(refs, objs);
      }
    } else {
      var r, s :| r in refs && s in refs && r <= s && r != s;
      var o := CephObject(s, 1, Unknown);
      HitsTwice(refs, r, s);
      SumExchange(refs, [o]);
      assert Matches(refs, o);
      assert TotalSize(refs, [o]) != DistinctSize(refs, [o]);
    }
  }

  /** An object of tile E1N10 is counted for tile E1N1 as well. */
  lemma CountedTwice()
    ensures var refs, objs := ["E1N1", "E1N10"], [CephObject("E1N10_ortho.tif", 5, Ortho)];
            TotalSize(refs, objs) == 10 && DistinctSize(refs, objs) == 5
  {
    var refs, o := ["E1N1", "E1N10"], CephObject("E1N10_ortho.tif", 5, Ortho);
    assert "E1N1" == o.name[..4] && "E1N10" == o.name[..5];
    assert refs[0] in refs && Matches(refs, o);
    assert TotalSize(refs[1..], [o]) == RefSize("E1N10", [o]) + TotalSize([], [o]);
  }

  // ---- Grid references of a block ----

  /** A decimal numeral that begins another one denotes at most a tenth of it. */
  lemma {:induction false} DecPrefix(m: nat, n: nat)
    requires Dec(m) <= Dec(n) && m != n
    ensures 0 < m && 10 * m <= n
  {
    var s := Dec(n);
    if |Dec(m)| == |s| {
      assert Dec(m) == s;
      DecInjective(m, n);
    } else if n >= 10 {
      assert Dec(m) <= Dec(n / 10) by {
        assert s[..|s| - 1] == Dec(n / 10);
      }
      if m != n / 10 {
        DecPrefix(m, n / 10);
      }
    }
  }

  lemma DecIntPrefix(m: int, n: int)
    requires DecInt(m) <= DecInt(n) && m != n
    ensures (0 < m && 10 * m <= n) || (m < 0 && n <= 10 * m)
  {
    assert DecInt(m)[0] == DecInt(n)[0];
    if m < 0 {
      assert n < 0 by {
        assert n >= 0 ==> Dec(n)[0] in Dec(n);
      }
      assert DecInt(m)[1..] == Dec(-m) && DecInt(n)[1..] == Dec(-n);
      DecPrefix(-m, -n);
    } else {
      assert Dec(m)[0] in Dec(m);
      DecPrefix(m, n);
    }
  }

  lemma DecIntTenfold(m: int)
    requires m != 0
    ensures DecInt(m) <= DecInt(10 * m)
  {
    if m > 0 {
      assert Dec(10 * m) == Dec(m) + [Digit(0)];
    } else {
      assert Dec(-(10 * m)) == Dec(-m) + [Digit(0)];
    }
  }

  lemma GridRefPrefix(s: Tile, t: Tile)
    ensures GridRef(s) <= GridRef(t) <==> s.x / TILE == t.x / TILE && DecInt(s.y / TILE) <= DecInt(t.y / TILE)
  {
    var a, b := DecInt(s.x / TILE), DecInt(t.x / TILE);
    var c, d := DecInt(s.y / TILE), DecInt(t.y / TILE);
    assert GridRef(s)[1..] == a + ['N'] + c && GridRef(t)[1..] == b + ['N'] + d;
    if GridRef(s) <= GridRef(t) {
      var more := GridRef(t)[|GridRef(s)|..];
      assert GridRef(t) == GridRef(s) + more;
      assert b + ['N'] + d == a + ['N'] + (c + more);
      assert !IsDigit('N');
      CutUnique(b, d, a, c + more, 'N');
      DecIntInjective(s.x / TILE, t.x / TILE);
    }
  }

  /** The verdict for a jurisdiction that touches its whole block. */
  predicate EveryTile(t: Tile) {
    true
  }

  /** No northing index from lo to hi other than zero has its tenfold in the range. */
  predicate NoTenfold(lo: int, hi: int) {
    10 * (if lo > 1 then lo else 1) > hi && 10 * (if hi < -1 then hi else -1) < lo
  }

  lemma {:induction false} HitRefsDistinct(tiles: seq<Tile>, hits: Tile -> bool)
    requires Distinct(tiles) && forall t :: t in tiles ==> t.x % TILE == 0 && t.y % TILE == 0
    ensures Distinct(HitRefs(tiles, hits))
  {
    if tiles != [] {
      var rest := tiles[1..];
      HitRefsDistinct(rest, hits);
      HitRefsMembers(rest, hits);
      if GridRef(tiles[0]) in HitRefs(rest, hits) {
        var t :| t in rest && hits(t) && GridRef(tiles[0]) == GridRef(t);
        GridRefInjective(tiles[0], t);
        assert false;
      }
      assert forall i :: 0 <= i < |HitRefs(rest, hits)| ==> HitRefs(rest, hits)[i] in HitRefs(rest, hits);
    }
  }

  lemma BlockRefsDistinct(b: Box, hits: Tile -> bool)
    requires b.Snapped()
    ensures Distinct(HitRefs(Tiles(b), hits))
  {
    VisitsEachOnce(b);
    VisitedAreTiles(b);
    HitRefsDistinct(Tiles(b), hits);
  }

  lemma NoTenfoldPrefixFree(b: Box, hits: Tile -> bool)
    requires b.Snapped() && NoTenfold(b.minY / TILE + 1, b.maxY / TILE)
    ensures PrefixFree(HitRefs(Tiles(b), hits))
  {
    VisitedAreTiles(b);
    HitRefsMembers(Tiles(b), hits);
    var refs := HitRefs(Tiles(b), hits);
    forall r, s | r in refs && s in refs && r <= s ensures r == s {
      var t :| t in Tiles(b) && r == GridRef(t);
      var u :| u in Tiles(b) && s == GridRef(u);
      SameColumnNoPrefix(b, t, u);
    }
  }

  lemma SameColumnNoPrefix(b: Box, t: Tile, u: Tile)
    requires b.Snapped() && NoTenfold(b.minY / TILE + 1, b.maxY / TILE)
    requires Visited(b, t) && Visited(b, u) && GridRef(t) <= GridRef(u)
    ensures t == u
  {
    var m, n := t.y / TILE, u.y / TILE;
    assert b.minY / TILE + 1 <= m <= b.maxY / TILE && b.minY / TILE + 1 <= n <= b.maxY / TILE;
    GridRefPrefix(t, u);
    if m != n {
      DecIntPrefix(m, n);
    }
  }

  lemma BlockHasRef(b: Box, t: Tile)
    requires b.Snapped() && Visited(b, t)
    ensures GridRef(t) in HitRefs(Tiles(b), EveryTile)
  {
    VisitedAreTiles(b);
    HitRefsMembers(Tiles(b), EveryTile);
  }

  lemma TenfoldClash(b: Box, m: int)
    requires b.Snapped() && b.minX < b.maxX && m != 0
    requires b.minY / TILE + 1 <= m <= b.maxY / TILE && b.minY / TILE + 1 <= 10 * m <= b.maxY / TILE
    ensures !PrefixFree(HitRefs(Tiles(b), EveryTile))
  {
    var n := 10 * m;
    var t, u := Tile(b.minX, m * TILE), Tile(b.minX, n * TILE);
    assert t.y / TILE == m && u.y / TILE == n;
    BlockHasRef(b, t);
    BlockHasRef(b, u);
    DecIntTenfold(m);
    GridRefPrefix(t, u);
    if GridRef(t) == GridRef(u) {
      GridRefInjective(t, u);
    }
  }

  /**
   For a jurisdiction that touches its whole block, the total is a true sum exactly when no northing has its
   tenfold in the block.
   */
  lemma BlockTrueSumExactly(b: Box)
    requires b.Snapped() && b.minX < b.maxX
    ensures (forall objs ::
               TotalSize(HitRefs(Tiles(b), EveryTile), objs) == DistinctSize(HitRefs(Tiles(b), EveryTile), objs))
       <==> NoTenfold(b.minY / TILE + 1, b.maxY / TILE)
  {
    var lo, hi := b.minY / TILE + 1, b.maxY / TILE;
    BlockRefsDistinct(b, EveryTile);
    TrueSumExactly(HitRefs(Tiles(b), EveryTile));
    if NoTenfold(lo, hi) {
      NoTenfoldPrefixFree(b, EveryTile);
    } else {
      var up, down := if lo > 1 then lo else 1, if hi < -1 then hi else -1;
      TenfoldClash(b, if 10 * up <= hi then up else down);
    }
  }

  /**
   Of any jurisdiction: the loop returns the size of the distinct matching objects if no northing has its tenfold
   in the bounds.
   */
  lemma TrueSum(extent: Rect, hits: Tile -> bool, objs: seq<CephObject>)
    requires extent.minX <= extent.maxX && extent.minY <= extent.maxY
    requires NoTenfold(Bounds(extent).minY / TILE + 1, Bounds(extent).maxY / TILE)
    ensures TotalSize(HitRefs(Tiles(Bounds(extent)), hits), objs)
        == DistinctSize(HitRefs(Tiles(Bounds(extent)), hits), objs)
  {
    BlockRefsDistinct(Bounds(extent), hits);
    NoTenfoldPrefixFree(Bounds(extent), hits);
    TrueSumExactly(HitRefs(Tiles(Bounds(extent)), hits));
  }

  /** In particular when all northing indices are natural numbers with the same number of digits. */
  lemma SameDigitCountSuffices(lo: nat, hi: nat)
    requires lo <= hi && |Dec(lo)| == |Dec(hi)|
    ensures NoTenfold(lo, hi)
  {
    if lo >= 1 && 10 * lo <= hi {
      DecLengthMonotone(10 * lo, hi);
    } else if lo == 0 {
      assert hi < 10;
    }
  }
}
