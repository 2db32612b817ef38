/**
 * What the segmentation scan produces, stated over the composite image:
 * every region is a maximal 8-connected set of equally labelled, non-empty
 * cells, the regions are pairwise disjoint, they cover every non-empty cell,
 * and they appear in the order of their first cells in the scan. The scan
 * itself is `Reader.Segment`; the lemmas here carry its loop from one cell
 * to the next and say what the result means.
 */
module Segmentation {
  import opened Wrappers
  import opened Grid
  import opened Regions

  predicate Distinct(cells: seq<Cell>) {
    forall a, b :: 0 <= a < b < |cells| ==> cells[a] != cells[b]
  }

  /** Two duplicate-free lists with no common cell concatenate to one. */
  lemma DistinctAppend(a: seq<Cell>, b: seq<Cell>)
    requires Distinct(a) && Distinct(b) && forall c :: c in a ==> c !in b
    ensures Distinct(a + b)
  {
    forall i, j | 0 <= i < j < |a + b| ensures (a + b)[i] != (a + b)[j] {
      if j < |a| {
      } else if i >= |a| {
        assert (a + b)[i] == b[i - |a|] && (a + b)[j] == b[j - |a|];
      } else {
        assert (a + b)[i] == a[i] && (a + b)[j] == b[j - |a|];
        assert b[j - |a|] in b;
      }
    }
  }

  /** Every cell after the first touches an earlier one: the list grew by adjacency. */
  ghost predicate Linked(cells: seq<Cell>) {
    forall k :: 0 < k < |cells| ==> LinkedAt(cells, k)
  }

  /** The cell at `k` touches one listed before it. */
  ghost predicate LinkedAt(cells: seq<Cell>, k: int)
    requires 0 <= k < |cells|
  {
    exists m :: 0 <= m < k && Adj(cells[m], cells[k])
  }

  /** Some cell of the list is within one step of `c`. */
  ghost predicate Touches(cells: seq<Cell>, c: Cell) {
    exists m :: 0 <= m < |cells| && Adj(cells[m], c)
  }

  lemma TouchesGrow(cells: seq<Cell>, x: Cell, c: Cell)
    requires Touches(cells, c) || Adj(x, c)
    ensures Touches(cells + [x], c)
  {
    if Adj(x, c) {
      assert (cells + [x])[|cells|] == x;
    } else {
      var m :| 0 <= m < |cells| && Adj(cells[m], c);
      assert (cells + [x])[m] == cells[m];
    }
  }

  lemma LinkedGrow(cells: seq<Cell>, c: Cell)
    requires Linked(cells) && (|cells| == 0 || Touches(cells, c))
    ensures Linked(cells + [c])
  {
    forall k | 0 < k < |cells + [c]|
      ensures LinkedAt(cells + [c], k)
    {
      if k < |cells| {
        assert LinkedAt(cells, k);
        var m :| 0 <= m < k && Adj(cells[m], cells[k]);
        assert (cells + [c])[m] == cells[m] && (cells + [c])[k] == cells[k];
      } else {
        var m :| 0 <= m < |cells| && Adj(cells[m], c);
        assert (cells + [c])[m] == cells[m] && (cells + [c])[k] == c;
      }
    }
  }

  /** `c` is a pixel of the image that is not empty. */
  predicate Marked(g: array2<Label>, c: Cell)
    reads g
  {
    InBox(g, c) && g[c.0, c.1] != Empty
  }

  predicate HasLabel(g: array2<Label>, c: Cell, l: Label)
    reads g
  {
    InBox(g, c) && g[c.0, c.1] == l
  }

  /** `d` is `c` or one of its eight neighbours, and carries the same label. */
  predicate Joined(g: array2<Label>, c: Cell, d: Cell)
    reads g
  {
    InBox(g, c) && InBox(g, d) && Adj(c, d) && g[d.0, d.1] == g[c.0, c.1]
  }

  /** Some region claims `c`. */
  predicate Owned(regions: seq<Region>, c: Cell) {
    RegionAt(regions, c).Some?
  }

  ghost predicate Labelled(g: array2<Label>, cells: seq<Cell>, l: Label)
    reads g
  {
    forall c :: c in cells ==> HasLabel(g, c, l)
  }

  /** No neighbour carrying the same label is missing. */
  ghost predicate Closed(g: array2<Label>, cells: seq<Cell>)
    reads g
  {
    forall c, d {:trigger Joined(g, c, d)} :: c in cells && Joined(g, c, d) ==> d in cells
  }

  /** The first cell is the earliest one in scan order. */
  ghost predicate SeedFirst(cells: seq<Cell>) {
    |cells| > 0 && forall c :: c in cells ==> !Before(c, cells[0])
  }

  ghost predicate GoodRegion(g: array2<Label>, r: Region)
    reads g
  {
    |r.cells| > 0 && Marked(g, r.cells[0])
    && Labelled(g, r.cells, g[r.cells[0].0, r.cells[0].1])
    && Distinct(r.cells) && Linked(r.cells) && Closed(g, r.cells) && SeedFirst(r.cells)
  }

  ghost predicate AllGood(g: array2<Label>, regions: seq<Region>)
    reads g
  {
    forall k :: 0 <= k < |regions| ==> GoodRegion(g, regions[k])
  }

  ghost predicate Disjoint(regions: seq<Region>) {
    forall a, b, c :: 0 <= a < b < |regions| && c in regions[a].cells ==> c !in regions[b].cells
  }

  /** Every non-empty cell of the image lies in some region, and no empty one does. */
  ghost predicate Covers(g: array2<Label>, regions: seq<Region>)
    reads g
  {
    forall c :: InBox(g, c) ==> (Marked(g, c) <==> Owned(regions, c))
  }

  ghost predicate SeedsInOrder(regions: seq<Region>) {
    forall a, b :: 0 <= a < b < |regions| && |regions[a].cells| > 0 && |regions[b].cells| > 0 ==>
      Before(regions[a].cells[0], regions[b].cells[0])
  }

  /** The outcome of the scan. */
  ghost predicate Partition(g: array2<Label>, regions: seq<Region>)
    reads g
  {
    AllGood(g, regions) && Disjoint(regions) && Covers(g, regions) && SeedsInOrder(regions)
  }

  ghost predicate SeedsBefore(regions: seq<Region>, pos: Cell) {
    forall k :: 0 <= k < |regions| && |regions[k].cells| > 0 ==> Before(regions[k].cells[0], pos)
  }

  ghost predicate OwnedBefore(g: array2<Label>, regions: seq<Region>, pos: Cell)
    reads g
  {
    forall c :: Marked(g, c) && Before(c, pos) ==> Owned(regions, c)
  }

  /** The scan after every cell before `pos` has been looked at. */
  ghost predicate ScannedUpTo(g: array2<Label>, regions: seq<Region>, pos: Cell)
    reads g
  {
    AllGood(g, regions) && Disjoint(regions) && SeedsInOrder(regions)
    && SeedsBefore(regions, pos) && OwnedBefore(g, regions, pos)
  }

  lemma OwnedCellsAreMarked(g: array2<Label>, regions: seq<Region>, c: Cell)
    requires AllGood(g, regions) && Owned(regions, c)
    ensures Marked(g, c)
  {
    var k := RegionAt(regions, c).value;
    assert GoodRegion(g, regions[k]);
    assert HasLabel(g, c, g[regions[k].cells[0].0, regions[k].cells[0].1]);
  }

  lemma ScanStart(g: array2<Label>)
    ensures ScannedUpTo(g, [], (0, 0))
  {
  }

  /** Moving past a cell that is empty or already claimed. */
  lemma ScanSkip(g: array2<Label>, regions: seq<Region>, x: int, y: int)
    requires ScannedUpTo(g, regions, (x, y))
    requires Marked(g, (x, y)) ==> Owned(regions, (x, y))
    ensures ScannedUpTo(g, regions, (x, y + 1))
  {
    var pos, next := (x, y), (x, y + 1);
    forall k | 0 <= k < |regions| && |regions[k].cells| > 0 ensures Before(regions[k].cells[0], next) {
      assert Before(regions[k].cells[0], pos);
    }
    forall c | Marked(g, c) && Before(c, next) ensures Owned(regions, c) {
      if c != pos {
        assert Before(c, pos);
      }
    }
  }

  /** Moving from the bottom of one column to the top of the next. */
  lemma ScanNextColumn(g: array2<Label>, regions: seq<Region>, x: int)
    requires ScannedUpTo(g, regions, (x, g.Length1))
    ensures ScannedUpTo(g, regions, (x + 1, 0))
  {
    forall k | 0 <= k < |regions| && |regions[k].cells| > 0 ensures Before(regions[k].cells[0], (x + 1, 0)) {
      assert Before(regions[k].cells[0], (x, g.Length1));
    }
    forall c | Marked(g, c) && Before(c, (x + 1, 0)) ensures Owned(regions, c) {
      assert Before(c, (x, g.Length1));
    }
  }

  /** After the last column the scan has produced a partition. */
  lemma ScanDone(g: array2<Label>, regions: seq<Region>)
    requires ScannedUpTo(g, regions, (g.Length0, 0))
    ensures Partition(g, regions)
  {
    forall c | InBox(g, c) ensures Marked(g, c) <==> Owned(regions, c) {
      if Owned(regions, c) {
        OwnedCellsAreMarked(g, regions, c);
      }
      if Marked(g, c) {
        assert Before(c, (g.Length0, 0));
      }
    }
  }

  /** The cells of a fill that only reached unclaimed cells and left out no same-label neighbour except claimed ones. */
  ghost predicate FillResult(g: array2<Label>, regions: seq<Region>, cells: seq<Cell>)
    reads g
  {
    |cells| > 0 && Marked(g, cells[0])
    && Labelled(g, cells, g[cells[0].0, cells[0].1]) && Distinct(cells) && Linked(cells)
    && (forall c :: c in cells ==> !Owned(regions, c))
    && (forall c, d {:trigger Joined(g, c, d)} :: c in cells && Joined(g, c, d) ==> d in cells || Owned(regions, d))
  }

  /** A region owning a cell owns every same-label neighbour of it, since regions are closed. */
  lemma ClaimSpreads(g: array2<Label>, regions: seq<Region>, c: Cell, d: Cell)
    requires AllGood(g, regions) && Owned(regions, d) && Joined(g, c, d)
    ensures Owned(regions, c)
  {
    var k := RegionAt(regions, d).value;
    assert GoodRegion(g, regions[k]);
    assert Closed(g, regions[k].cells);
    assert Joined(g, d, c);
    assert c in regions[k].cells;
  }

  /** A claimed same-label neighbour would drag its owner's closure onto the fill, so there is none. */
  lemma FillIsClosed(g: array2<Label>, regions: seq<Region>, cells: seq<Cell>)
    requires AllGood(g, regions) && FillResult(g, regions, cells)
    ensures Closed(g, cells)
  {
    forall c, d | c in cells && Joined(g, c, d) ensures d in cells {
      if Owned(regions, d) {
        ClaimSpreads(g, regions, c, d);
      }
    }
  }

  /** Every cell before the scan position is claimed, so the fill's cells all come at or after its seed. */
  lemma FillSeedFirst(g: array2<Label>, regions: seq<Region>, cells: seq<Cell>)
    requires FillResult(g, regions, cells) && OwnedBefore(g, regions, cells[0])
    ensures SeedFirst(cells)
  {
    var l := g[cells[0].0, cells[0].1];
    forall c | c in cells ensures !Before(c, cells[0]) {
      assert HasLabel(g, c, l);
      assert Marked(g, c);
    }
  }

  lemma FillIsGood(g: array2<Label>, regions: seq<Region>, cells: seq<Cell>)
    requires FillResult(g, regions, cells) && ScannedUpTo(g, regions, cells[0])
    ensures AllGood(g, regions + [Region(cells, [])])
  {
    var r := Region(cells, []);
    var all := regions + [r];
    FillIsClosed(g, regions, cells);
    FillSeedFirst(g, regions, cells);
    assert GoodRegion(g, r);
    forall k | 0 <= k < |all| ensures GoodRegion(g, all[k]) {
      if k < |regions| {
        assert all[k] == regions[k];
      }
    }
  }

  lemma FillIsDisjoint(g: array2<Label>, regions: seq<Region>, cells: seq<Cell>)
    requires FillResult(g, regions, cells) && Disjoint(regions)
    ensures Disjoint(regions + [Region(cells, [])])
  {
    var all := regions + [Region(cells, [])];
    forall a, b, c | 0 <= a < b < |all| && c in all[a].cells ensures c !in all[b].cells {
      assert all[a] == regions[a];
      if b == |regions| {
        assert c in regions[a].cells;
        assert Owned(regions, c);
      } else {
        assert all[b] == regions[b];
      }
    }
  }

  lemma FillKeepsOrder(g: array2<Label>, regions: seq<Region>, cells: seq<Cell>)
    requires |cells| > 0 && SeedsInOrder(regions) && SeedsBefore(regions, cells[0])
    ensures SeedsInOrder(regions + [Region(cells, [])])
    ensures SeedsBefore(regions + [Region(cells, [])], (cells[0].0, cells[0].1 + 1))
  {
    var all := regions + [Region(cells, [])];
    var next := (cells[0].0, cells[0].1 + 1);
    forall a, b | 0 <= a < b < |all| && |all[a].cells| > 0 && |all[b].cells| > 0
      ensures Before(all[a].cells[0], all[b].cells[0])
    {
      assert all[a] == regions[a];
      if b < |regions| {
        assert all[b] == regions[b];
      }
    }
    forall k | 0 <= k < |all| && |all[k].cells| > 0 ensures Before(all[k].cells[0], next) {
      if k < |regions| {
        assert all[k] == regions[k];
      }
    }
  }

  lemma FillCoversSeed(g: array2<Label>, regions: seq<Region>, cells: seq<Cell>)
    requires |cells| > 0 && OwnedBefore(g, regions, cells[0])
    ensures OwnedBefore(g, regions + [Region(cells, [])], (cells[0].0, cells[0].1 + 1))
  {
    var r := Region(cells, []);
    forall c | Marked(g, c) && Before(c, (cells[0].0, cells[0].1 + 1)) ensures Owned(regions + [r], c) {
      RegionAtAppend(regions, r, c);
      if c == cells[0] {
        assert c in r.cells;
      } else {
        assert Before(c, cells[0]);
        assert Owned(regions, c);
      }
    }
  }

  /**
   * A flood fill seeded at the scan position adds a well-formed region: its cells
   * were unclaimed, it reached every same-label neighbour that was not already
   * claimed, and no earlier region can own such a neighbour, since earlier regions
   * are closed and would then own the fill's own cells.
   */
  lemma ScanFill(g: array2<Label>, regions: seq<Region>, cells: seq<Cell>, x: int, y: int)
    requires FillResult(g, regions, cells) && cells[0] == (x, y) && ScannedUpTo(g, regions, (x, y))
    ensures ScannedUpTo(g, regions + [Region(cells, [])], (x, y + 1))
  {
    FillIsGood(g, regions, cells);
    FillIsDisjoint(g, regions, cells);
    FillKeepsOrder(g, regions, cells);
    FillCoversSeed(g, regions, cells);
  }

  /** A chain of equally labelled image cells, each adjacent to the next. */
  ghost predicate Path(g: array2<Label>, p: seq<Cell>)
    reads g
  {
    |p| > 0 && InBox(g, p[0])
    && (forall k :: 0 <= k < |p| ==> HasLabel(g, p[k], g[p[0].0, p[0].1]))
    && (forall k :: 0 < k < |p| ==> Adj(p[k - 1], p[k]))
  }

  ghost predicate Connected(g: array2<Label>, c: Cell, d: Cell)
    reads g
  {
    exists p :: Path(g, p) && p[0] == c && p[|p| - 1] == d
  }

  /** A path that starts inside a closed region never leaves it. */
  lemma {:induction false} PathStaysInside(g: array2<Label>, cells: seq<Cell>, p: seq<Cell>, n: nat)
    requires Closed(g, cells) && Path(g, p) && p[0] in cells && n < |p|
    ensures p[n] in cells
  {
    if n > 0 {
      PathStaysInside(g, cells, p, n - 1);
      assert HasLabel(g, p[n - 1], g[p[0].0, p[0].1]) && HasLabel(g, p[n], g[p[0].0, p[0].1]);
      assert Joined(g, p[n - 1], p[n]);
    }
  }

  /** Inside a linked, uniformly labelled list every cell is reached from the first by a path within the list. */
  lemma {:induction false} PathFromFirst(g: array2<Label>, cells: seq<Cell>, l: Label, n: nat) returns (p: seq<Cell>)
    requires Linked(cells) && Labelled(g, cells, l) && n < |cells|
    ensures Path(g, p) && p[0] == cells[0] && p[|p| - 1] == cells[n]
    ensures forall k :: 0 <= k < |p| ==> p[k] in cells
  {
    if n == 0 {
      assert HasLabel(g, cells[0], l);
      p := [cells[0]];
    } else {
      assert LinkedAt(cells, n);
      var m :| 0 <= m < n && Adj(cells[m], cells[n]);
      var q := PathFromFirst(g, cells, l, m);
      p := q + [cells[n]];
      assert forall k :: 0 <= k < |q| ==> p[k] == q[k];
      assert p[0] == cells[0];
      assert forall k :: 0 <= k < |p| ==> p[k] in cells;
      assert forall k :: 0 <= k < |p| ==> HasLabel(g, p[k], l);
    }
  }

  function Reverse(p: seq<Cell>): (r: seq<Cell>)
    ensures |r| == |p| && forall k :: 0 <= k < |p| ==> r[k] == p[|p| - 1 - k]
  {
    seq(|p|, k requires 0 <= k < |p| => p[|p| - 1 - k])
  }

  /** Two paths from the same start combine into a path from the end of one to the end of the other. */
  lemma JoinAtStart(g: array2<Label>, p: seq<Cell>, q: seq<Cell>) returns (r: seq<Cell>)
    requires Path(g, p) && Path(g, q) && p[0] == q[0]
    ensures Path(g, r) && r[0] == p[|p| - 1] && r[|r| - 1] == q[|q| - 1]
  {
    r := Reverse(p) + q[1..];
    var l := g[p[0].0, p[0].1];
    assert forall k :: 0 <= k < |r| ==> r[k] == if k < |p| then p[|p| - 1 - k] else q[k - |p| + 1];
    forall k | 0 <= k < |r| ensures HasLabel(g, r[k], l) {
    }
    forall k | 0 < k < |r| ensures Adj(r[k - 1], r[k]) {
      if k < |p| {
        assert Adj(p[|p| - 1 - k], p[|p| - k]);
      } else if k == |p| {
        assert r[k - 1] == q[0] && r[k] == q[1];
      } else {
        assert Adj(q[k - |p|], q[k - |p| + 1]);
      }
    }
  }

  /** A region is a connected component: a cell belongs to it exactly when a same-label path leads there from any of its cells. */
  lemma RegionIsComponent(g: array2<Label>, r: Region, c: Cell, d: Cell)
    requires GoodRegion(g, r) && c in r.cells
    ensures d in r.cells <==> Connected(g, c, d)
  {
    var l := g[r.cells[0].0, r.cells[0].1];
    if d in r.cells {
      var i :| 0 <= i < |r.cells| && r.cells[i] == c;
      var j :| 0 <= j < |r.cells| && r.cells[j] == d;
      var toC := PathFromFirst(g, r.cells, l, i);
      var toD := PathFromFirst(g, r.cells, l, j);
      var p := JoinAtStart(g, toC, toD);
      assert Path(g, p) && p[0] == c && p[|p| - 1] == d;
    }
    if Connected(g, c, d) {
      var p :| Path(g, p) && p[0] == c && p[|p| - 1] == d;
      PathStaysInside(g, r.cells, p, |p| - 1);
    }
  }

  /** After segmentation, two cells share a region exactly when a same-label path joins them. */
  lemma SameRegionIffConnected(g: array2<Label>, regions: seq<Region>, k: nat, c: Cell, d: Cell)
    requires Partition(g, regions) && k < |regions| && c in regions[k].cells
    ensures d in regions[k].cells <==> Connected(g, c, d)
    ensures forall j :: 0 <= j < |regions| && j != k ==> c !in regions[j].cells
  {
    RegionIsComponent(g, regions[k], c, d);
  }
}
