/**
 * What `Reader::get_adjacent` computes, as a specification on values: the
 * coloured cells of another colour around a region, gathered in probe order
 * without repeats, then turned into the regions that own them, each region
 * once. The loops themselves are `Reader.GetAdjacent`. Over a partition the
 * result is exactly the regions of another label that touch the given one.
 */
module Adjacency {
  import opened Wrappers
  import opened Grid
  import opened Regions
  import opened Segmentation

  /** The cells probed around a region: the 3x3 block of each cell, cell by cell. */
  function Probes(cells: seq<Cell>): (ns: seq<Cell>)
    ensures |ns| == 9 * |cells|
    decreases |cells|
  {
    if cells == [] then [] else Probes(cells[..|cells| - 1]) + Ring(cells[|cells| - 1])
  }

  /** A probe reaches exactly the cells within one step of some cell of the region. */
  lemma {:induction false} ProbesReach(cells: seq<Cell>, d: Cell)
    ensures d in Probes(cells) <==> exists c :: c in cells && Adj(c, d)
    decreases |cells|
  {
    if cells != [] {
      var init := cells[..|cells| - 1];
      var last := cells[|cells| - 1];
      ProbesReach(init, d);
      RingIsNeighbourhood(last, d);
      assert cells == init + [last];
      if exists c :: c in cells && Adj(c, d) {
        var c :| c in cells && Adj(c, d);
        if c != last {
          assert c in init;
        }
      }
    }
  }

  /** A cell `get_adjacent` keeps: inside the image, coloured, and not of the region's colour. */
  predicate Foreign(g: array2<Label>, color: Label, d: Cell)
    reads g
  {
    InBox(g, d) && g[d.0, d.1] != Empty && g[d.0, d.1] != color
  }

  /** One probe of the first loop: keep the cell if it is foreign and not yet kept. */
  function Collect(g: array2<Label>, color: Label, found: seq<Cell>, d: Cell): seq<Cell>
    reads g
  {
    if Foreign(g, color, d) && d !in found then found + [d] else found
  }

  /** The first loop of `get_adjacent` over a sequence of probes. */
  function Gather(g: array2<Label>, color: Label, ns: seq<Cell>): seq<Cell>
    reads g
    decreases |ns|
  {
    if ns == [] then [] else Collect(g, color, Gather(g, color, ns[..|ns| - 1]), ns[|ns| - 1])
  }

  /** The kept cells are the foreign probes, each once, in the order first probed. */
  lemma {:induction false} GatherSpec(g: array2<Label>, color: Label, ns: seq<Cell>)
    ensures Distinct(Gather(g, color, ns))
    ensures forall d :: d in Gather(g, color, ns) <==> d in ns && Foreign(g, color, d)
    decreases |ns|
  {
    if ns != [] {
      var init := ns[..|ns| - 1];
      GatherSpec(g, color, init);
      assert ns == init + [ns[|ns| - 1]];
    }
  }

  /** `adjacent_cells` at the end of the first loop. */
  function AdjacentCells(g: array2<Label>, cells: seq<Cell>, color: Label): seq<Cell>
    reads g
  {
    Gather(g, color, Probes(cells))
  }

  lemma AdjacentCellsSpec(g: array2<Label>, cells: seq<Cell>, color: Label, d: Cell)
    ensures Distinct(AdjacentCells(g, cells, color))
    ensures d in AdjacentCells(g, cells, color) <==> Foreign(g, color, d) && exists c :: c in cells && Adj(c, d)
  {
    GatherSpec(g, color, Probes(cells));
    ProbesReach(cells, d);
  }

  /** Some region already chosen holds the cell. */
  predicate Claimed(chosen: seq<Region>, c: Cell) {
    exists k :: 0 <= k < |chosen| && c in chosen[k].cells
  }

  /** One step of the second loop: a cell not yet covered adds the region `region_at` finds for it. */
  function Pick(regions: seq<Region>, chosen: seq<Region>, c: Cell): Result<seq<Region>> {
    if Claimed(chosen, c) then Ok(chosen)
    else match RegionAt(regions, c)
      case None => Err(NoRegionAtPoint)
      case Some(k) => Ok(chosen + [regions[k]])
  }

  /** The second loop of `get_adjacent`; the first unowned cell aborts it. */
  function Resolve(regions: seq<Region>, cs: seq<Cell>): Result<seq<Region>>
    decreases |cs|
  {
    if cs == [] then Ok([])
    else match Resolve(regions, cs[..|cs| - 1])
      case Err(e) => Err(e)
      case Ok(chosen) => Pick(regions, chosen, cs[|cs| - 1])
  }

  /** No region occurs twice. */
  predicate NoRepeats(rs: seq<Region>) {
    forall a, b :: 0 <= a < b < |rs| ==> rs[a] != rs[b]
  }

  /**
   * Resolving fails exactly when some cell belongs to no region. Otherwise it
   * yields regions of the list, each once, each holding one of the cells, and
   * every cell is held by one of them.
   */
  lemma {:induction false} ResolveSpec(regions: seq<Region>, cs: seq<Cell>)
    ensures Resolve(regions, cs).Err? <==> exists c :: c in cs && !Owned(regions, c)
    ensures Resolve(regions, cs).Ok? ==>
      var rs := Resolve(regions, cs).value;
      NoRepeats(rs)
      && (forall r :: r in rs ==> r in regions && exists c :: c in cs && c in r.cells)
      && (forall c :: c in cs ==> Claimed(rs, c))
    decreases |cs|
  {
    if cs != [] {
      var init := cs[..|cs| - 1];
      var last := cs[|cs| - 1];
      assert cs == init + [last];
      ResolveSpec(regions, init);
      var prev := Resolve(regions, init);
      if prev.Ok? {
        PickFails(regions, prev.value, last);
        if Pick(regions, prev.value, last).Ok? {
          PickKeeps(regions, prev.value, init, last);
        }
      }
    }
  }

  /** Given chosen regions of the list, a pick fails exactly when the cell belongs to no region. */
  lemma PickFails(regions: seq<Region>, chosen: seq<Region>, c: Cell)
    requires forall r :: r in chosen ==> r in regions
    ensures Pick(regions, chosen, c).Err? <==> !Owned(regions, c)
  {
    if Claimed(chosen, c) {
      var k :| 0 <= k < |chosen| && c in chosen[k].cells;
      assert chosen[k] in chosen;
      var j :| 0 <= j < |regions| && regions[j] == chosen[k];
    }
  }

  /** A successful pick keeps the chosen regions distinct, each from the list and holding a cell, and covers the new cell. */
  lemma PickKeeps(regions: seq<Region>, chosen: seq<Region>, init: seq<Cell>, last: Cell)
    requires NoRepeats(chosen)
    requires forall r :: r in chosen ==> r in regions && exists c :: c in init && c in r.cells
    requires forall c :: c in init ==> Claimed(chosen, c)
    requires Pick(regions, chosen, last).Ok?
    ensures var rs := Pick(regions, chosen, last).value;
      NoRepeats(rs)
      && (forall r :: r in rs ==> r in regions && exists c :: c in init + [last] && c in r.cells)
      && (forall c :: c in init + [last] ==> Claimed(rs, c))
  {
    if Claimed(chosen, last) {
      forall r | r in chosen ensures exists c :: c in init + [last] && c in r.cells {
        var c :| c in init && c in r.cells;
        assert c in init + [last];
      }
      forall c | c in init + [last] ensures Claimed(chosen, c) {
        if c != last {
          assert c in init;
        }
      }
    } else {
      var rs := Pick(regions, chosen, last).value;
      var added := regions[RegionAt(regions, last).value];
      assert rs == chosen + [added];
      assert last in added.cells;
      forall a, b | 0 <= a < b < |rs| ensures rs[a] != rs[b] {
        if b == |rs| - 1 {
          assert rs[a] == chosen[a];
          assert !(last in chosen[a].cells);
        } else {
          assert rs[a] == chosen[a] && rs[b] == chosen[b];
        }
      }
      forall r | r in rs ensures r in regions && exists c :: c in init + [last] && c in r.cells {
        if r != added {
          assert r in chosen;
          var c :| c in init && c in r.cells;
          assert c in init + [last];
        } else {
          assert last in init + [last];
        }
      }
      forall c | c in init + [last] ensures Claimed(rs, c) {
        if c == last {
          assert last in rs[|rs| - 1].cells;
        } else {
          assert c in init;
          var k :| 0 <= k < |chosen| && c in chosen[k].cells;
          assert rs[k] == chosen[k];
        }
      }
    }
  }

  /** The region has a first cell inside the image, whose colour `get_adjacent` reads. */
  predicate HasSeed(g: array2<Label>, r: Region) {
    |r.cells| > 0 && InBox(g, r.cells[0])
  }

  function SeedLabel(g: array2<Label>, r: Region): Label
    requires HasSeed(g, r)
    reads g
  {
    g[r.cells[0].0, r.cells[0].1]
  }

  /** `get_adjacent(region)`; `Err` where the source aborts in `region_at`. */
  function Adjacent(g: array2<Label>, regions: seq<Region>, r: Region): Result<seq<Region>>
    requires HasSeed(g, r)
    reads g
  {
    Resolve(regions, AdjacentCells(g, r.cells, SeedLabel(g, r)))
  }

  /** The regions share a pair of cells at most one step apart. */
  ghost predicate Touching(r: Region, q: Region) {
    exists c, d :: c in r.cells && d in q.cells && Adj(c, d)
  }

  /** `get_adjacent` aborts exactly when a coloured cell of another colour next to the region is unowned. */
  lemma AdjacentFails(g: array2<Label>, regions: seq<Region>, r: Region)
    requires HasSeed(g, r)
    ensures Adjacent(g, regions, r).Err? <==>
      exists c, d :: c in r.cells && Adj(c, d) && Foreign(g, SeedLabel(g, r), d) && !Owned(regions, d)
  {
    var cs := AdjacentCells(g, r.cells, SeedLabel(g, r));
    ResolveSpec(regions, cs);
    if Adjacent(g, regions, r).Err? {
      var d :| d in cs && !Owned(regions, d);
      AdjacentCellsSpec(g, r.cells, SeedLabel(g, r), d);
      var c :| c in r.cells && Adj(c, d);
    }
    if exists c, d :: c in r.cells && Adj(c, d) && Foreign(g, SeedLabel(g, r), d) && !Owned(regions, d) {
      var c, d :| c in r.cells && Adj(c, d) && Foreign(g, SeedLabel(g, r), d) && !Owned(regions, d);
      AdjacentCellsSpec(g, r.cells, SeedLabel(g, r), d);
    }
  }

  /** In a partition different indices hold different regions, since regions are disjoint and non-empty. */
  lemma PartitionHasNoRepeats(g: array2<Label>, regions: seq<Region>, a: nat, b: nat)
    requires Partition(g, regions) && a < |regions| && b < |regions| && a != b
    ensures regions[a] != regions[b]
  {
    assert GoodRegion(g, regions[a]) && GoodRegion(g, regions[b]);
    var c := regions[a].cells[0];
    assert c in regions[a].cells;
    if a < b {
      assert c !in regions[b].cells;
    } else {
      assert c !in regions[a].cells || c !in regions[b].cells;
    }
  }

  /** Two regions of a partition of different labels that touch, as `get_adjacent` sees them. */
  ghost predicate Neighbours(g: array2<Label>, r: Region, q: Region)
    reads g
  {
    HasSeed(g, r) && HasSeed(g, q) && SeedLabel(g, r) != SeedLabel(g, q) && Touching(r, q)
  }

  /** A region of a partition holds only cells of its seed's label. */
  lemma LabelOfOwnedCell(g: array2<Label>, regions: seq<Region>, k: nat, d: Cell)
    requires AllGood(g, regions) && k < |regions| && d in regions[k].cells
    ensures HasSeed(g, regions[k]) && HasLabel(g, d, SeedLabel(g, regions[k]))
  {
    assert GoodRegion(g, regions[k]);
  }

  /** Over a covering every cell `get_adjacent` collects is owned, so it does not abort. */
  lemma AdjacentSucceeds(g: array2<Label>, regions: seq<Region>, r: Region)
    requires HasSeed(g, r) && Covers(g, regions)
    ensures Adjacent(g, regions, r).Ok? && NoRepeats(Adjacent(g, regions, r).value)
  {
    var cs := AdjacentCells(g, r.cells, SeedLabel(g, r));
    ResolveSpec(regions, cs);
    forall d | d in cs ensures Owned(regions, d) {
      AdjacentCellsSpec(g, r.cells, SeedLabel(g, r), d);
      assert InBox(g, d) && Marked(g, d);
    }
  }

  /** Every region `get_adjacent` returns is a region of another label touching the given one. */
  lemma AdjacentSound(g: array2<Label>, regions: seq<Region>, r: Region, q: Region)
    requires AllGood(g, regions) && HasSeed(g, r)
    requires Adjacent(g, regions, r).Ok? && q in Adjacent(g, regions, r).value
    ensures q in regions && Neighbours(g, r, q)
  {
    var color := SeedLabel(g, r);
    var cs := AdjacentCells(g, r.cells, color);
    ResolveSpec(regions, cs);
    var d :| d in cs && d in q.cells;
    AdjacentCellsSpec(g, r.cells, color, d);
    var c :| c in r.cells && Adj(c, d);
    var j :| 0 <= j < |regions| && regions[j] == q;
    LabelOfOwnedCell(g, regions, j, d);
  }

  /** Every region of another label touching the given one is among those `get_adjacent` returns. */
  lemma AdjacentComplete(g: array2<Label>, regions: seq<Region>, r: Region, q: Region)
    requires AllGood(g, regions) && Disjoint(regions) && HasSeed(g, r)
    requires Adjacent(g, regions, r).Ok? && q in regions && Neighbours(g, r, q)
    ensures q in Adjacent(g, regions, r).value
  {
    var color := SeedLabel(g, r);
    var cs := AdjacentCells(g, r.cells, color);
    ResolveSpec(regions, cs);
    var rs := Adjacent(g, regions, r).value;
    var j :| 0 <= j < |regions| && regions[j] == q;
    var d, c :| d in r.cells && c in q.cells && Adj(d, c);
    LabelOfOwnedCell(g, regions, j, c);
    AdjacentCellsSpec(g, r.cells, color, c);
    assert Claimed(rs, c);
    var m :| 0 <= m < |rs| && c in rs[m].cells;
    assert rs[m] in rs;
    var i :| 0 <= i < |regions| && regions[i] == rs[m];
    OwnedOnce(g, regions, i, j, c);
  }

  /** In a partition a cell lies in one region only. */
  lemma OwnedOnce(g: array2<Label>, regions: seq<Region>, i: nat, j: nat, c: Cell)
    requires Disjoint(regions) && i < |regions| && j < |regions|
    requires c in regions[i].cells && c in regions[j].cells
    ensures i == j
  {
  }

  /**
   * Over a partition `get_adjacent` never aborts and returns, each once, exactly
   * the regions that carry a different label and touch the given region.
   */
  lemma AdjacentIsNeighbours(g: array2<Label>, regions: seq<Region>, k: nat)
    requires Partition(g, regions) && k < |regions|
    ensures HasSeed(g, regions[k]) && Adjacent(g, regions, regions[k]).Ok?
    ensures NoRepeats(Adjacent(g, regions, regions[k]).value)
    ensures forall q :: q in Adjacent(g, regions, regions[k]).value <==> q in regions && Neighbours(g, regions[k], q)
  {
    var r := regions[k];
    assert GoodRegion(g, r);
    AdjacentSucceeds(g, regions, r);
    forall q ensures q in Adjacent(g, regions, r).value <==> q in regions && Neighbours(g, r, q) {
      if q in Adjacent(g, regions, r).value {
        AdjacentSound(g, regions, r, q);
      }
      if q in regions && Neighbours(g, r, q) {
        AdjacentComplete(g, regions, r, q);
      }
    }
  }

  /** Touching is symmetric, and so is having different labels. */
  lemma NeighboursSymmetric(g: array2<Label>, r: Region, q: Region)
    ensures Neighbours(g, r, q) <==> Neighbours(g, q, r)
  {
    if Touching(r, q) {
      var c, d :| c in r.cells && d in q.cells && Adj(c, d);
      assert Adj(d, c);
    }
    if Touching(q, r) {
      var c, d :| c in q.cells && d in r.cells && Adj(c, d);
      assert Adj(d, c);
    }
  }

  /** Over a partition adjacency is symmetric. */
  lemma AdjacencySymmetric(g: array2<Label>, regions: seq<Region>, j: nat, k: nat)
    requires Partition(g, regions) && j < |regions| && k < |regions|
    ensures HasSeed(g, regions[j]) && HasSeed(g, regions[k])
    ensures Adjacent(g, regions, regions[j]).Ok? && Adjacent(g, regions, regions[k]).Ok?
    ensures regions[k] in Adjacent(g, regions, regions[j]).value <==> regions[j] in Adjacent(g, regions, regions[k]).value
  {
    AdjacentIsNeighbours(g, regions, j);
    AdjacentIsNeighbours(g, regions, k);
    assert regions[j] in regions && regions[k] in regions;
    NeighboursSymmetric(g, regions[j], regions[k]);
  }
}
