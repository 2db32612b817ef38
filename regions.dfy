/**
 * Regions: a region is the list of cells one flood fill claimed, in the order
 * it claimed them, plus the identities of the regions it is connected to.
 * Its position is the truncated mean of its cells and its identity (`Hash`)
 * the decimal x followed by the decimal y of that position.
 */
module Regions {
  import opened Wrappers
  import opened Grid
  import Decimal

  /** `Region::new(cells)` is `Region(cells, [])`. */
  datatype Region = Region(cells: seq<Cell>, nodes: seq<string>)

  /** Rust's `/` on integers: the quotient truncated toward zero. */
  function Quot(a: int, n: int): int
    requires n > 0
  {
    if a >= 0 then a / n else -((-a) / n)
  }

  function SumX(cells: seq<Cell>): int
    decreases |cells|
  {
    if cells == [] then 0 else SumX(cells[..|cells| - 1]) + cells[|cells| - 1].0
  }

  function SumY(cells: seq<Cell>): int
    decreases |cells|
  {
    if cells == [] then 0 else SumY(cells[..|cells| - 1]) + cells[|cells| - 1].1
  }

  /** The mean of the cells, each coordinate truncated toward zero. */
  function Centroid(cells: seq<Cell>): Cell
    requires |cells| > 0
  {
    (Quot(SumX(cells), |cells|), Quot(SumY(cells), |cells|))
  }

  /** `Region::position`: the accumulator loop over the cells. */
  method Position(r: Region) returns (p: Cell)
    requires |r.cells| > 0
    ensures p == Centroid(r.cells)
  {
    var xAvg, yAvg := 0, 0;
    for k := 0 to |r.cells|
      invariant xAvg == SumX(r.cells[..k]) && yAvg == SumY(r.cells[..k])
    {
      assert r.cells[..k + 1][..k] == r.cells[..k];
      xAvg := xAvg + r.cells[k].0;
      yAvg := yAvg + r.cells[k].1;
    }
    assert r.cells[..|r.cells|] == r.cells;
    p := (Quot(xAvg, |r.cells|), Quot(yAvg, |r.cells|));
  }

  /** `Region::hash`: `format!("{}{}", x, y)` of the position. */
  function Hash(r: Region): string
    requires |r.cells| > 0
  {
    Decimal.Render(Centroid(r.cells).0) + Decimal.Render(Centroid(r.cells).1)
  }

  /** `Region::hash` as the source runs it: the position loop, then both coordinates in decimal. */
  method HashOf(r: Region) returns (h: string)
    requires |r.cells| > 0
    ensures h == Hash(r)
  {
    var p := Position(r);
    h := Decimal.Render(p.0) + Decimal.Render(p.1);
  }

  /** A single-pixel region sits exactly on its pixel. */
  lemma CentroidOfSingleCell(c: Cell)
    ensures Centroid([c]) == c
  {
    assert [c][..0] == [];
    assert SumX([c]) == c.0 && SumY([c]) == c.1;
    assert Quot(c.0, 1) == c.0 && Quot(c.1, 1) == c.1;
  }

  lemma MulSucc(n: nat, a: int)
    ensures (n + 1) * a == n * a + a
  {
  }

  lemma {:induction false} SumBounds(cells: seq<Cell>, lo: Cell, hi: Cell)
    requires forall c :: c in cells ==> lo.0 <= c.0 <= hi.0 && lo.1 <= c.1 <= hi.1
    ensures |cells| * lo.0 <= SumX(cells) <= |cells| * hi.0
    ensures |cells| * lo.1 <= SumY(cells) <= |cells| * hi.1
    decreases |cells|
  {
    if cells != [] {
      var init := cells[..|cells| - 1];
      assert forall c :: c in init ==> c in cells;
      SumBounds(init, lo, hi);
      assert cells[|cells| - 1] in cells;
      MulSucc(|init|, lo.0);
      MulSucc(|init|, hi.0);
      MulSucc(|init|, lo.1);
      MulSucc(|init|, hi.1);
    }
  }

  lemma {:induction false} MulMonotone(n: nat, a: int, b: int)
    requires a <= b
    ensures n * a <= n * b
  {
    if n > 0 {
      MulMonotone(n - 1, a, b);
      MulSucc(n - 1, a);
      MulSucc(n - 1, b);
    }
  }

  lemma QuotBounds(s: int, n: int, lo: int, hi: int)
    requires n > 0 && 0 <= lo && n * lo <= s <= n * hi
    ensures lo <= Quot(s, n) <= hi
  {
    MulMonotone(n, 0, lo);
    assert 0 * lo == 0;
    var q, r := s / n, s % n;
    assert s == n * q + r && 0 <= r < n;
    if q < lo {
      MulMonotone(n, q + 1, lo);
    }
    if q > hi {
      MulMonotone(n, hi, q);
    }
  }

  /** With non-negative coordinates the position lies in the bounding box of the cells. */
  lemma CentroidInBoundingBox(cells: seq<Cell>, lo: Cell, hi: Cell)
    requires |cells| > 0 && 0 <= lo.0 && 0 <= lo.1
    requires forall c :: c in cells ==> lo.0 <= c.0 <= hi.0 && lo.1 <= c.1 <= hi.1
    ensures lo.0 <= Centroid(cells).0 <= hi.0 && lo.1 <= Centroid(cells).1 <= hi.1
  {
    SumBounds(cells, lo, hi);
    QuotBounds(SumX(cells), |cells|, lo.0, hi.0);
    QuotBounds(SumY(cells), |cells|, lo.1, hi.1);
  }

  /** The identity is the two coordinates written one after the other: knowing where x ends recovers both. */
  lemma HashSplitsIntoCoordinates(r: Region)
    requires |r.cells| > 0
    ensures var k := |Decimal.Render(Centroid(r.cells).0)|;
      k <= |Hash(r)|
      && Decimal.Parse(Hash(r)[..k]) == Centroid(r.cells).0
      && Decimal.Parse(Hash(r)[k..]) == Centroid(r.cells).1
  {
    var x, y := Decimal.Render(Centroid(r.cells).0), Decimal.Render(Centroid(r.cells).1);
    assert Hash(r)[..|x|] == x && Hash(r)[|x|..] == y;
    Decimal.RenderRoundTrip(Centroid(r.cells).0);
    Decimal.RenderRoundTrip(Centroid(r.cells).1);
  }

  /** Identities are not unique: positions (1, 23) and (12, 3) are both written "123". */
  lemma HashIsAmbiguous()
    ensures Decimal.Render(1) + Decimal.Render(23) == Decimal.Render(12) + Decimal.Render(3)
    ensures (1, 23) != (12, 3)
  {
    assert Decimal.Digits(23) == Decimal.Digits(2) + [Decimal.DigitChar(3)];
    assert Decimal.Digits(12) == Decimal.Digits(1) + [Decimal.DigitChar(2)];
  }

  /** `Reader::region_at`: the index of the first region holding the cell, or `None`, where the source aborts. */
  function RegionAt(regions: seq<Region>, c: Cell): (r: Option<nat>)
    ensures r.Some? ==> r.value < |regions| && c in regions[r.value].cells
    ensures r.Some? ==> forall k :: 0 <= k < r.value ==> c !in regions[k].cells
    ensures r.None? <==> forall k :: 0 <= k < |regions| ==> c !in regions[k].cells
    decreases |regions|
  {
    if regions == [] then None
    else if c in regions[0].cells then Some(0)
    else
      var rest := RegionAt(regions[1..], c);
      assert forall k :: 1 <= k < |regions| ==> regions[k] == regions[1..][k - 1];
      if rest.None? then None else Some(rest.value + 1)
  }

  lemma RegionAtAppend(regions: seq<Region>, r: Region, c: Cell)
    ensures RegionAt(regions + [r], c).Some? <==> RegionAt(regions, c).Some? || c in r.cells
  {
    var all := regions + [r];
    assert forall k :: 0 <= k < |regions| ==> all[k] == regions[k];
    assert all[|regions|] == r;
  }

  /** Every region has a first cell inside the image, so its label can be read. */
  ghost predicate Seeded(g: array2<Label>, regions: seq<Region>) {
    forall k :: 0 <= k < |regions| ==> |regions[k].cells| > 0 && InBox(g, regions[k].cells[0])
  }

  /** `color_at(region.cells[0]) == POINT_COLOR`. */
  predicate IsPoint(g: array2<Label>, r: Region)
    requires |r.cells| > 0 && InBox(g, r.cells[0])
    reads g
  {
    g[r.cells[0].0, r.cells[0].1] == PointMarker
  }

  /** A region passes the points filter: its first cell exists and has the point colour. */
  predicate PointRegion(g: array2<Label>, r: Region)
    reads g
  {
    |r.cells| > 0 && InBox(g, r.cells[0]) && IsPoint(g, r)
  }

  /**
   * The points filter of `build_data`: regions whose first cell is a point
   * marker, in order. The source reads `cells[0]` unguarded; the guard in
   * `PointRegion` only matters for a region without a seed, which `Seeded` rules out.
   */
  function Points(g: array2<Label>, regions: seq<Region>): (ps: seq<Region>)
    reads g
    ensures |ps| <= |regions|
    decreases |regions|
  {
    if regions == [] then []
    else (if PointRegion(g, regions[0]) then [regions[0]] else []) + Points(g, regions[1..])
  }

  /** The points are exactly the point regions. */
  lemma {:induction false} PointsAreThePointRegions(g: array2<Label>, regions: seq<Region>, r: Region)
    ensures r in Points(g, regions) <==> r in regions && PointRegion(g, r)
    decreases |regions|
  {
    if regions != [] {
      PointsAreThePointRegions(g, regions[1..], r);
      assert regions == [regions[0]] + regions[1..];
    }
  }

  /** Every point region has a first cell inside the image. */
  lemma PointsSeeded(g: array2<Label>, regions: seq<Region>)
    ensures Seeded(g, Points(g, regions))
  {
    var ps := Points(g, regions);
    forall k | 0 <= k < |ps| ensures |ps[k].cells| > 0 && InBox(g, ps[k].cells[0]) {
      PointsAreThePointRegions(g, regions, ps[k]);
    }
  }

  /** Filtering keeps discovery order: it distributes over concatenation. */
  lemma {:induction false} PointsOfConcat(g: array2<Label>, a: seq<Region>, b: seq<Region>)
    ensures Points(g, a + b) == Points(g, a) + Points(g, b)
    decreases |a|
  {
    if a == [] {
      assert a + b == b;
    } else {
      var r, t := a[0], a[1..];
      assert (a + b)[0] == r;
      assert (a + b)[1..] == t + b;
      PointsOfConcat(g, t, b);
      AppendAssoc(if PointRegion(g, r) then [r] else [], Points(g, t), Points(g, b));
    }
  }
}
