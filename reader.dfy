/**
 * The `Reader` of `src/reader.rs`: it owns the composite image, the visited
 * flags, the regions, the point regions and the JSON text, and its methods
 * update them in place. Each loop of the source is a loop here, proved
 * against the value-level specifications of the other modules:
 * `Segment` yields a `Partition`, `GetAdjacent` computes `Adjacent`,
 * `CreateConnections` computes `Connect`, and `BuildData` ties them together.
 */
module Reader {
  import opened Wrappers
  import opened Grid
  import opened Composite
  import opened Regions
  import opened Segmentation
  import opened Adjacency
  import opened Connections
  import opened Rooms
  import opened Replace
  import Decimal

  /** No region carries any node yet. */
  ghost predicate Bare(regions: seq<Region>) {
    forall k :: 0 <= k < |regions| ==> regions[k].nodes == []
  }

  /** What one probe of the innermost fill loop does. */
  datatype Probe = Push | Skip | OutOfBounds

  class Reader {
    const floor: nat
    const width: nat
    const height: nat
    const composite: array2<Label>
    const visited: array2<bool>
    var regions: seq<Region>
    var points: seq<Region>
    var jsonData: string

    /** Both grids have the dimensions of the image. */
    ghost predicate Valid()
      reads this
    {
      composite.Length0 == width && composite.Length1 == height
      && visited.Length0 == width && visited.Length1 == height
    }

    /** A freshly opened reader: no regions and nothing visited. */
    ghost predicate Unbuilt()
      reads this, visited
    {
      regions == [] && forall c :: InBox(visited, c) ==> !IsSet(visited, c)
    }

    /** The visited flags are exactly the cells some region of `rs` claims. */
    ghost predicate VisitedMatches(rs: seq<Region>)
      reads visited
    {
      forall c :: InBox(visited, c) ==> (IsSet(visited, c) <==> Owned(rs, c))
    }

    /** `Reader::new` after both layers were decoded: they must have the same dimensions. */
    constructor (floor: nat, pointLayer: array2<bool>, jointLayer: array2<bool>)
      requires jointLayer.Length0 == pointLayer.Length0 && jointLayer.Length1 == pointLayer.Length1
      ensures Valid() && Unbuilt() && points == [] && jsonData == ""
      ensures this.floor == floor && width == pointLayer.Length0 && height == pointLayer.Length1
      ensures forall x, y :: 0 <= x < width && 0 <= y < height ==>
        composite[x, y] == CompositeLabel(pointLayer[x, y], jointLayer[x, y])
      ensures fresh(composite) && fresh(visited)
    {
      var c := Compose(pointLayer, jointLayer);
      this.floor := floor;
      width := pointLayer.Length0;
      height := pointLayer.Length1;
      composite := c;
      visited := new bool[pointLayer.Length0, pointLayer.Length1]((_, _) => false);
      regions := [];
      points := [];
      jsonData := "";
    }

    /** `Reader::new` with its `assert_eq!` on the dimensions turned into an error. */
    static method Open(floor: nat, pointLayer: array2<bool>, jointLayer: array2<bool>) returns (r: Result<Reader>)
      ensures r.Err? <==> jointLayer.Length0 != pointLayer.Length0 || jointLayer.Length1 != pointLayer.Length1
      ensures r.Err? ==> r.error == DimensionMismatch
      ensures r.Ok? ==> (fresh(r.value) && r.value.Valid() && r.value.Unbuilt() && r.value.floor == floor
        && r.value.width == pointLayer.Length0 && r.value.height == pointLayer.Length1)
    {
      if jointLayer.Length0 != pointLayer.Length0 || jointLayer.Length1 != pointLayer.Length1 {
        return Err(DimensionMismatch);
      }
      var reader := new Reader(floor, pointLayer, jointLayer);
      r := Ok(reader);
    }

    /** The cell lies inside the image. */
    function InBounds(c: Cell): (b: bool)
      reads this
      ensures Valid() ==> (b <==> InBox(composite, c)) && (b <==> InBox(visited, c))
    {
      0 <= c.0 < width && 0 <= c.1 < height
    }

    /** The pixel's RGBA value differs from transparent black. */
    function HasColorAt(c: Cell): (b: bool)
      requires InBox(composite, c)
      reads composite
      ensures b <==> Marked(composite, c)
    {
      var l := composite[c.0, c.1];
      RgbaFaithful(l, Empty);
      Rgba(l) != [0, 0, 0, 0]
    }

    /**
     * The two inner loops of `flood_fill` for one popped cell, with the bounds
     * check on the probed cell: every unvisited neighbour of the fill's colour
     * is flagged and returned, and nothing else is flagged.
     */
    method Expand(cell: Cell, color: Label) returns (pushed: seq<Cell>)
      requires Valid() && HasLabel(composite, cell, color)
      modifies visited
      ensures Distinct(pushed)
      ensures forall p :: p in pushed ==> Joined(composite, cell, p) && !old(IsSet(visited, p))
      ensures forall d :: InBox(visited, d) ==> (IsSet(visited, d) <==> old(IsSet(visited, d)) || d in pushed)
      ensures forall d {:trigger Joined(composite, cell, d)} :: Joined(composite, cell, d) ==> IsSet(visited, d)
    {
      pushed := [];
      for i := cell.0 - 1 to cell.0 + 2
        invariant Distinct(pushed)
        invariant forall p :: p in pushed ==> Joined(composite, cell, p) && !old(IsSet(visited, p))
        invariant forall d :: InBox(visited, d) ==> (IsSet(visited, d) <==> old(IsSet(visited, d)) || d in pushed)
        invariant forall d {:trigger Joined(composite, cell, d)} :: Joined(composite, cell, d) && d.0 < i ==> IsSet(visited, d)
      {
        for j := cell.1 - 1 to cell.1 + 2
          invariant Distinct(pushed)
          invariant forall p :: p in pushed ==> Joined(composite, cell, p) && !old(IsSet(visited, p))
          invariant forall d :: InBox(visited, d) ==> (IsSet(visited, d) <==> old(IsSet(visited, d)) || d in pushed)
          invariant forall d {:trigger Joined(composite, cell, d)} ::
            Joined(composite, cell, d) && (d.0 < i || (d.0 == i && d.1 < j)) ==> IsSet(visited, d)
        {
          if InBounds((i, j)) && !visited[i, j] && composite[i, j] == color {
            visited[i, j] := true;
            pushed := pushed + [(i, j)];
          }
        }
      }
    }

    /**
     * `flood_fill(seed)`: a stack-driven fill over the cells carrying the seed's
     * label, 8-connected. It returns the cells it popped, seed first, each once,
     * each unvisited before, each reached from an earlier one; it flags exactly
     * those, and every same-label neighbour of them is among them or was
     * flagged before the fill.
     */
    method FloodFill(seed: Cell) returns (cells: seq<Cell>)
      requires Valid() && Marked(composite, seed) && !IsSet(visited, seed)
      modifies visited
      ensures |cells| > 0 && cells[0] == seed
      ensures Labelled(composite, cells, composite[seed.0, seed.1]) && Distinct(cells) && Linked(cells)
      ensures forall c :: c in cells ==> !old(IsSet(visited, c))
      ensures forall c :: InBox(visited, c) ==> (IsSet(visited, c) <==> old(IsSet(visited, c)) || c in cells)
      ensures forall c, d {:trigger Joined(composite, c, d)} ::
        c in cells && Joined(composite, c, d) ==> d in cells || old(IsSet(visited, d))
    {
      var color := composite[seed.0, seed.1];
      ghost var pre := set x, y | 0 <= x < width && 0 <= y < height && visited[x, y] :: (x, y);
      assert forall c :: InBox(visited, c) ==> (c in pre <==> IsSet(visited, c));
      visited[seed.0, seed.1] := true;
      cells := [];
      var stack := [seed];
      ghost var unvisited := set x, y | 0 <= x < width && 0 <= y < height && !visited[x, y] :: (x, y);
      assert forall c :: InBox(visited, c) ==> (c in unvisited <==> !IsSet(visited, c));
      while |stack| > 0
        invariant Shaped(seed, pre, cells, stack) && Flagged(color, pre, unvisited, cells, stack)
        decreases unvisited, |stack|
      {
        var cell := stack[|stack| - 1];
        label Probe:
        var pushed := Expand(cell, color);
        FlagsAdvance@Probe((pre, unvisited, cells, stack), color, cell, pushed);
        ShapeAdvances(seed, pre, cells, stack, pushed);
        cells := cells + [cell];
        stack := stack[..|stack| - 1] + pushed;
        unvisited := Unpushed(unvisited, pushed);
      }
    }

    /**
     * The flags the loop of `flood_fill` keeps between two pops: `pre` holds
     * the cells flagged before the fill and `unvisited` the cells still
     * unflagged; popped and stacked cells carry the seed's label and are
     * flagged, and so is every same-label neighbour of a popped cell.
     */
    ghost predicate Flagged(color: Label, pre: set<Cell>, unvisited: set<Cell>, cells: seq<Cell>, stack: seq<Cell>)
      reads this, visited, composite
    {
      Valid()
      && Labelled(composite, cells, color) && Labelled(composite, stack, color)
      && (forall c :: InBox(visited, c) ==> (IsSet(visited, c) <==> c in pre || c in cells || c in stack))
      && (forall c, d {:trigger Joined(composite, c, d)} :: c in cells && Joined(composite, c, d) ==> IsSet(visited, d))
      && (forall c :: c in unvisited ==> InBox(visited, c))
      && (forall c :: InBox(visited, c) ==> (c in unvisited <==> !IsSet(visited, c)))
    }

    /**
     * One pass of the loop keeps `Flagged`: the popped cell joins `cells`,
     * the cells `Expand` pushed join the stack and leave `unvisited`. The
     * pushed cells were unflagged, so they are new to the fill and each one
     * shrinks `unvisited`. The loop's variables come as one tuple
     * `(pre, unvisited, cells, stack)`.
     */
    twostate lemma FlagsAdvance(loop: (set<Cell>, set<Cell>, seq<Cell>, seq<Cell>), new color: Label, new cell: Cell, new pushed: seq<Cell>)
      requires old(Flagged(color, loop.0, loop.1, loop.2, loop.3)) && |loop.3| > 0 && cell == loop.3[|loop.3| - 1]
      requires unchanged(composite)
      requires forall p :: p in pushed ==> Joined(composite, cell, p) && !old(IsSet(visited, p))
      requires forall d :: InBox(visited, d) ==> (IsSet(visited, d) <==> old(IsSet(visited, d)) || d in pushed)
      requires forall d {:trigger Joined(composite, cell, d)} :: Joined(composite, cell, d) ==> IsSet(visited, d)
      ensures Flagged(color, loop.0, Unpushed(loop.1, pushed), loop.2 + [cell], loop.3[..|loop.3| - 1] + pushed)
      ensures forall p :: p in pushed ==> p in loop.1 && p !in loop.0 && p !in loop.2 && p !in loop.3
      ensures |pushed| > 0 ==> Unpushed(loop.1, pushed) < loop.1
      ensures |pushed| == 0 ==> Unpushed(loop.1, pushed) == loop.1
    {
      var pre, unvisited, cells, stack := loop.0, loop.1, loop.2, loop.3;
      var rest := stack[..|stack| - 1];
      assert stack == rest + [cell];
      assert cell in stack && old(HasLabel(composite, cell, color));
      assert old(IsSet(visited, cell));
      forall c, d | c in cells + [cell] && Joined(composite, c, d) ensures IsSet(visited, d) {
        if c != cell {
          assert old(IsSet(visited, d));
        }
      }
      forall p | p in pushed ensures p in unvisited && p !in pre && p !in cells && p !in stack {
        assert InBox(visited, p);
      }
      UnpushedShrinks(unvisited, pushed);
    }

    /**
     * A fill from the scan position that reached only unflagged cells, with the
     * flags matching `found` before it, extends the scan by one region: the
     * scan invariant moves past the seed and the flags match the regions again.
     */
    twostate lemma FillStep(found: seq<Region>, new x: int, new y: int, new cells: seq<Cell>)
      requires Valid() && old(VisitedMatches(found)) && Marked(composite, (x, y))
      requires unchanged(composite)
      requires ScannedUpTo(composite, found, (x, y))
      requires |cells| > 0 && cells[0] == (x, y)
      requires Labelled(composite, cells, composite[x, y]) && Distinct(cells) && Linked(cells)
      requires forall c :: c in cells ==> !old(IsSet(visited, c))
      requires forall c :: InBox(visited, c) ==> (IsSet(visited, c) <==> old(IsSet(visited, c)) || c in cells)
      requires forall c, d {:trigger Joined(composite, c, d)} ::
        c in cells && Joined(composite, c, d) ==> d in cells || old(IsSet(visited, d))
      ensures ScannedUpTo(composite, found + [Region(cells, [])], (x, y + 1))
      ensures VisitedMatches(found + [Region(cells, [])])
    {
      forall c | c in cells ensures !Owned(found, c) {
        assert HasLabel(composite, c, composite[x, y]);
      }
      forall c, d | c in cells && Joined(composite, c, d) ensures d in cells || Owned(found, d) {
        assert InBox(visited, d);
      }
      assert FillResult(composite, found, cells);
      ScanFill(composite, found, cells, x, y);
      forall c | InBox(visited, c) ensures IsSet(visited, c) <==> Owned(found + [Region(cells, [])], c) {
        RegionAtAppend(found, Region(cells, []), c);
      }
    }

    /**
     * The scan of `build_data` (lines 128-135): it leaves a partition of the
     * image and flags every claimed cell. The regions are collected in a local
     * sequence and stored once the scan is over; nothing reads them meanwhile.
     */
    method Segment()
      requires Valid() && Unbuilt()
      modifies this, visited
      ensures Partition(composite, regions) && Bare(regions) && VisitedMatches(regions)
      ensures points == old(points) && jsonData == old(jsonData)
    {
      var found: seq<Region> := [];
      ScanStart(composite);
      for x := 0 to width
        invariant ScannedUpTo(composite, found, (x, 0)) && Bare(found) && VisitedMatches(found)
        invariant points == old(points) && jsonData == old(jsonData)
      {
        found := ScanColumn(x, found);
      }
      ScanDone(composite, found);
      regions := found;
    }

    /** One column of the scan (lines 129-134), top to bottom. */
    method ScanColumn(x: int, found: seq<Region>) returns (next: seq<Region>)
      requires Valid() && 0 <= x < width
      requires ScannedUpTo(composite, found, (x, 0)) && Bare(found) && VisitedMatches(found)
      modifies visited
      ensures ScannedUpTo(composite, next, (x + 1, 0)) && Bare(next) && VisitedMatches(next)
    {
      next := found;
      for y := 0 to height
        invariant ScannedUpTo(composite, next, (x, y)) && Bare(next) && VisitedMatches(next)
      {
        next := ScanCell(x, y, next);
      }
      ScanNextColumn(composite, next, x);
    }

    /** One step of the scan (lines 130-133): an unvisited coloured cell starts a new region, any other is passed over. */
    method ScanCell(x: int, y: int, found: seq<Region>) returns (next: seq<Region>)
      requires Valid() && 0 <= x < width && 0 <= y < height
      requires ScannedUpTo(composite, found, (x, y)) && Bare(found) && VisitedMatches(found)
      modifies visited
      ensures ScannedUpTo(composite, next, (x, y + 1)) && Bare(next) && VisitedMatches(next)
      ensures next == found || (|next| == |found| + 1 && next[..|found|] == found && next[|found|].cells[0] == (x, y))
    {
      if !visited[x, y] && HasColorAt((x, y)) {
        next := AddRegion(x, y, found);
      } else {
        assert Marked(composite, (x, y)) ==> IsSet(visited, (x, y));
        ScanSkip(composite, found, x, y);
        next := found;
      }
    }

    /** Lines 131-132: the fill from an unvisited coloured cell becomes a new region, without nodes. */
    method AddRegion(x: int, y: int, found: seq<Region>) returns (next: seq<Region>)
      requires Valid() && 0 <= x < width && 0 <= y < height && !visited[x, y] && Marked(composite, (x, y))
      requires ScannedUpTo(composite, found, (x, y)) && Bare(found) && VisitedMatches(found)
      modifies visited
      ensures ScannedUpTo(composite, next, (x, y + 1)) && Bare(next) && VisitedMatches(next)
      ensures |next| == |found| + 1 && next[..|found|] == found && next[|found|].cells[0] == (x, y)
    {
      label Fill:
      var cells := FloodFill((x, y));
      FillStep@Fill(found, x, y, cells);
      next := found + [Region(cells, [])];
      assert next[..|found|] == found;
    }

    /** `get_adjacent(region)` (lines 232-261): the foreign cells around the region, then their regions; `Err` where `region_at` panics. */
    method GetAdjacent(region: Region) returns (r: Result<seq<Region>>)
      requires Valid() && HasSeed(composite, region)
      ensures r == Adjacent(composite, regions, region)
    {
      var color := composite[region.cells[0].0, region.cells[0].1];
      var adjacentCells := AdjacentCellsOf(region.cells, color);
      r := RegionsAt(adjacentCells);
    }

    /** The first loop of `get_adjacent` (lines 237-249): every foreign cell within one step of the region, once, in probe order. */
    method AdjacentCellsOf(cells: seq<Cell>, color: Label) returns (adjacentCells: seq<Cell>)
      requires Valid()
      ensures adjacentCells == Gather(composite, color, Probes(cells))
      ensures Distinct(adjacentCells)
      ensures forall d :: d in adjacentCells <==> Foreign(composite, color, d) && exists c :: c in cells && Adj(c, d)
    {
      adjacentCells := [];
      for k := 0 to |cells|
        invariant adjacentCells == Gather(composite, color, Probes(cells[..k]))
      {
        adjacentCells := ProbeAround(cells[k], color, adjacentCells, Probes(cells[..k]));
        assert cells[..k + 1][..k] == cells[..k];
      }
      assert cells[..|cells|] == cells;
      GatherSpec(composite, color, Probes(cells));
      forall d ensures d in Probes(cells) <==> exists c :: c in cells && Adj(c, d) {
        ProbesReach(cells, d);
      }
    }

    /** Lines 238-247 for one cell: the 3x3 block around it, column by column (`i` is `x - 1 + a`). */
    method ProbeAround(cell: Cell, color: Label, found: seq<Cell>, ghost probed: seq<Cell>) returns (next: seq<Cell>)
      requires Valid() && found == Gather(composite, color, probed)
      ensures next == Gather(composite, color, probed + Ring(cell))
    {
      next := found;
      assert probed + Ring(cell)[..0] == probed;
      for a := 0 to 3
        invariant next == Gather(composite, color, probed + Ring(cell)[..3 * a])
      {
        next := ProbeColumn(cell.0 - 1 + a, cell.1, color, next, probed + Ring(cell)[..3 * a]);
        RingColumns(probed, cell, a);
      }
      assert Ring(cell)[..9] == Ring(cell);
    }

    /** Lines 239-246 for one `i`: the three cells of that column of the block (`j` is `y - 1 + b`). */
    method ProbeColumn(i: int, y: int, color: Label, found: seq<Cell>, ghost ns: seq<Cell>) returns (next: seq<Cell>)
      requires Valid() && found == Gather(composite, color, ns)
      ensures next == Gather(composite, color, ns + Column(i, y))
    {
      next := found;
      ColumnEnds(ns, i, y);
      for b := 0 to 3
        invariant next == Gather(composite, color, ns + Column(i, y)[..b])
      {
        var j := y - 1 + b;
        ColumnNext(composite, color, ns, i, y, b);
        if InBounds((i, j)) && HasColorAt((i, j)) && composite[i, j] != color && (i, j) !in next {
          next := next + [(i, j)];
        }
      }
    }

    /** The second loop of `get_adjacent` (lines 251-258): the region of each cell not yet covered; `Err` where `region_at` panics. */
    method RegionsAt(cs: seq<Cell>) returns (r: Result<seq<Region>>)
      ensures r == Resolve(regions, cs)
      ensures r.Err? <==> exists c :: c in cs && !Owned(regions, c)
      ensures r.Err? ==> r == Err(NoRegionAtPoint)
    {
      ResolveSpec(regions, cs);
      var adjacentRegions: seq<Region> := [];
      for k := 0 to |cs|
        invariant Resolve(regions, cs[..k]) == Ok(adjacentRegions)
      {
        var xy := cs[k];
        assert cs[..k + 1][..k] == cs[..k];
        if !Claimed(adjacentRegions, xy) {
          var found := RegionAt(regions, xy);
          if found.None? {
            ResolveAborts(regions, cs, k + 1);
            return Err(NoRegionAtPoint);
          }
          adjacentRegions := adjacentRegions + [regions[found.value]];
        }
      }
      assert cs[..|cs|] == cs;
      r := Ok(adjacentRegions);
    }

    /**
     * `create_connections` (lines 263-287): the pairs of every point region,
     * then the hash of each pair's region appended to its point's nodes. Over
     * a partition no `get_adjacent` aborts, and the result is `Connect` of the
     * regions.
     */
    method CreateConnections()
      requires Valid() && Partition(composite, regions)
      modifies this
      ensures regions == Connect(composite, old(regions))
      ensures points == old(points) && jsonData == old(jsonData)
    {
      var pairs := NodePairs();
      ghost var bs := Blocks(composite, regions);
      BlocksTagged(composite, regions);
      FlattenTagsBelow(bs);
      AppendNodes(pairs);
    }

    /** The first loop of `create_connections` (lines 264-282): the pairs of every region, in order. */
    method NodePairs() returns (pairs: seq<(nat, Region)>)
      requires Valid() && Partition(composite, regions)
      ensures pairs == Flatten(Blocks(composite, regions))
    {
      pairs := [];
      ghost var bs := Blocks(composite, regions);
      for i := 0 to |regions|
        invariant pairs == Flatten(bs[..i])
      {
        var block := PairsOf(i);
        FlattenSnoc(bs, i);
        pairs := pairs + block;
      }
      assert bs[..|regions|] == bs;
    }

    /** Lines 270-281 for region `i`: nothing unless it is a point; else the regions two steps away through each joint. */
    method PairsOf(i: nat) returns (block: seq<(nat, Region)>)
      requires Valid() && Partition(composite, regions) && i < |regions|
      ensures block == Blocks(composite, regions)[i]
    {
      var point := regions[i];
      assert GoodRegion(composite, point);
      if composite[point.cells[0].0, point.cells[0].1] == PointMarker {
        var joints := GetAdjacent(point);
        AdjacentIsNeighbours(composite, regions, i);
        block := JointsPairs(i, point, joints.value);
        PointBlock(composite, regions, i);
      } else {
        block := [];
        OtherBlock(composite, regions, i);
      }
    }

    /** Lines 272-281: for each joint in turn, the regions around it bar the point. */
    method JointsPairs(i: nat, point: Region, joints: seq<Region>) returns (block: seq<(nat, Region)>)
      requires Valid() && Partition(composite, regions) && forall j :: j in joints ==> j in regions
      ensures block == ForJoints(composite, regions, i, point, joints)
    {
      block := [];
      for j := 0 to |joints|
        invariant block == ForJoints(composite, regions, i, point, joints[..j])
      {
        ForJointsStep(composite, regions, i, point, joints, j);
        var more := JointPairs(i, point, joints[j]);
        block := block + more;
      }
      assert joints[..|joints|] == joints;
    }

    /** Lines 274-280 for one joint: the regions around it, bar the point, tagged with the point's index. */
    method JointPairs(i: nat, point: Region, joint: Region) returns (more: seq<(nat, Region)>)
      requires Valid() && Partition(composite, regions) && joint in regions
      ensures more == Tagged(i, point, Around(composite, regions, joint))
    {
      SeedIsMarked(composite, regions, joint);
      var k := IndexOf(regions, joint);
      AdjacentIsNeighbours(composite, regions, k);
      var adjacents := GetAdjacent(joint);
      more := PointsAround(i, point, adjacents.value);
    }

    /** Lines 275-280: the regions around a joint whose first cell is not the point's, tagged with the point's index. */
    method PointsAround(i: nat, point: Region, around: seq<Region>) returns (tagged: seq<(nat, Region)>)
      ensures tagged == Tagged(i, point, around)
      ensures forall e :: e in tagged <==> e.0 == i && e.1 in around && OtherThan(e.1, point)
    {
      tagged := [];
      for m := 0 to |around|
        invariant tagged == Tagged(i, point, around[..m])
      {
        var adjacent := around[m];
        assert around[..m + 1][..m] == around[..m];
        if |adjacent.cells| > 0 && |point.cells| > 0 && adjacent.cells[0] != point.cells[0] {
          tagged := tagged + [(i, adjacent)];
        }
      }
      assert around[..|around|] == around;
      TaggedSpec(i, point, around);
    }

    /** The second loop of `create_connections` (lines 284-286): each pair's hash is appended to its point's nodes. */
    method AppendNodes(pairs: seq<(nat, Region)>)
      requires forall e :: e in pairs ==> e.0 < |regions| && |e.1.cells| > 0
      modifies this
      ensures |regions| == |old(regions)|
      ensures forall m :: 0 <= m < |regions| ==> regions[m] == old(regions[m]).(nodes := old(regions[m]).nodes + NodesFrom(pairs, m))
      ensures points == old(points) && jsonData == old(jsonData)
    {
      ghost var start := regions;
      for k := 0 to |pairs|
        invariant |regions| == |start|
        invariant forall m :: 0 <= m < |regions| ==> regions[m] == start[m].(nodes := start[m].nodes + NodesFrom(pairs[..k], m))
        invariant points == old(points) && jsonData == old(jsonData)
      {
        var (i, node) := pairs[k];
        assert pairs[k] in pairs;
        var h := HashOf(node);
        ghost var before := regions;
        regions := regions[i := regions[i].(nodes := regions[i].nodes + [h])];
        forall m | 0 <= m < |regions|
          ensures regions[m] == start[m].(nodes := start[m].nodes + NodesFrom(pairs[..k + 1], m))
        {
          NodesFromSnoc(pairs, k, m);
          assert before[m] == start[m].(nodes := start[m].nodes + NodesFrom(pairs[..k], m));
        }
      }
      assert pairs[..|pairs|] == pairs;
    }

    /**
     * `build_data`: segment, connect, keep the point regions, write one room
     * per point and render the array with the JSON printer `pretty`.
     */
    method BuildData(pretty: seq<Room> -> string) returns (ghost segmented: seq<Region>)
      requires Valid() && Unbuilt()
      modifies this, visited
      ensures Partition(composite, segmented) && Bare(segmented)
      ensures regions == Connect(composite, segmented)
      ensures Seeded(composite, regions) && points == Points(composite, regions)
      ensures Seeded(composite, points)
      ensures jsonData == pretty(RoomsOf(points, floor))
      ensures forall c :: InBox(visited, c) ==> (IsSet(visited, c) <==> Marked(composite, c))
    {
      Segment();
      assert forall c :: InBox(visited, c) ==> (IsSet(visited, c) <==> Marked(composite, c));
      segmented := regions;
      CreateConnections();
      ConnectKeepsSeeds(composite, segmented);
      CollectPoints();
      WriteJson(pretty);
    }

    /** Lines 139-144: the regions whose first cell has the point colour, in order. */
    method CollectPoints()
      requires Seeded(composite, regions)
      modifies this
      ensures regions == old(regions) && jsonData == old(jsonData)
      ensures points == Points(composite, regions) && Seeded(composite, points)
    {
      points := Points(composite, regions);
      PointsSeeded(composite, regions);
    }

    /** Lines 146-164: one room per point, rendered by `pretty`. */
    method WriteJson(pretty: seq<Room> -> string)
      requires Seeded(composite, points)
      modifies this
      ensures regions == old(regions) && points == old(points)
      ensures jsonData == pretty(RoomsOf(points, floor))
    {
      var rooms := WriteRooms(points, floor);
      jsonData := pretty(rooms);
    }

    /** `json_replace`: every occurrence of `from` in the JSON text becomes `to`. */
    method JsonReplace(from: string, to: string)
      modifies this
      ensures jsonData == ReplaceAll(old(jsonData), from, to)
      ensures regions == old(regions) && points == old(points)
    {
      jsonData := ReplaceAll(jsonData, from, to);
    }

    /**
     * One probe of lines 218-223 as written: the bounds check tests the fill's
     * seed `(x, y)` instead of the probed cell `n`, so a probed cell outside
     * the image reaches the `visited` index and panics (a negative coordinate
     * wraps to a huge `usize`).
     */
    function ProbeAsWritten(seed: Cell, color: Label, n: Cell): (p: Probe)
      requires Valid()
      reads this, visited, composite
      ensures p == OutOfBounds <==> InBounds(seed) && !InBounds(n)
    {
      if !InBounds(seed) then Skip
      else if !InBounds(n) then OutOfBounds
      else if visited[n.0, n.1] then Skip
      else if composite[n.0, n.1] == color then Push
      else Skip
    }

    /** The probe as intended, which is what `Expand` runs: the bounds check is on the probed cell. */
    function ProbeIntended(color: Label, n: Cell): (p: Probe)
      requires Valid()
      reads this, visited, composite
      ensures p != OutOfBounds
      ensures p == Push <==> InBox(composite, n) && !IsSet(visited, n) && composite[n.0, n.1] == color
    {
      if InBounds(n) && !visited[n.0, n.1] && composite[n.0, n.1] == color then Push else Skip
    }

    /** Flooding from a seed on the image's border probes a cell outside it, so the fill as written panics. */
    lemma AsWrittenPanicsOnBorder(seed: Cell, color: Label)
      requires Valid() && InBounds(seed) && (seed.0 == 0 || seed.1 == 0 || seed.0 == width - 1 || seed.1 == height - 1)
      ensures exists n :: n in Ring(seed) && ProbeAsWritten(seed, color, n) == OutOfBounds
    {
      var n := if seed.0 == 0 then (-1, seed.1)
        else if seed.1 == 0 then (seed.0, -1)
        else if seed.0 == width - 1 then (width, seed.1)
        else (seed.0, height);
      RingIsNeighbourhood(seed, n);
    }

    /** Away from the border the two guards agree, so only fills touching the border go wrong. */
    lemma AsWrittenAgreesInside(seed: Cell, color: Label, n: Cell)
      requires Valid() && InBounds(seed) && InBounds(n)
      ensures ProbeAsWritten(seed, color, n) == ProbeIntended(color, n)
    {
    }
  }

  /**
   * The shape the loop of `flood_fill` keeps between two pops, flags aside:
   * the seed comes first, nothing repeats, popped and stacked cells are apart
   * and were not flagged before the fill, each popped cell after the first
   * touches an earlier one, and each stacked cell touches a popped one.
   */
  ghost predicate Shaped(seed: Cell, pre: set<Cell>, cells: seq<Cell>, stack: seq<Cell>) {
    (|cells| == 0 ==> stack == [seed]) && (|cells| > 0 ==> cells[0] == seed)
    && Distinct(cells) && Distinct(stack) && (forall c :: c in cells ==> c !in stack)
    && (forall c :: c in cells ==> c !in pre) && (forall c :: c in stack ==> c !in pre)
    && Linked(cells) && (|cells| > 0 ==> forall c :: c in stack ==> Touches(cells, c))
  }

  /** Popping the top cell and pushing new neighbours of it keeps the shape. */
  lemma ShapeAdvances(seed: Cell, pre: set<Cell>, cells: seq<Cell>, stack: seq<Cell>, pushed: seq<Cell>)
    requires Shaped(seed, pre, cells, stack) && |stack| > 0 && Distinct(pushed)
    requires forall p :: p in pushed ==> Adj(stack[|stack| - 1], p) && p !in pre && p !in cells && p !in stack
    ensures Shaped(seed, pre, cells + [stack[|stack| - 1]], stack[..|stack| - 1] + pushed)
  {
    var cell := stack[|stack| - 1];
    var rest := stack[..|stack| - 1];
    var next := cells + [cell];
    StackShift(cells, stack);
    assert stack == rest + [cell];
    assert cell in stack;
    LinkedGrow(cells, cell);
    forall c | c in rest && |cells| > 0 ensures Touches(next, c) {
      TouchesGrow(cells, cell, c);
    }
    forall p | p in pushed ensures Touches(next, p) {
      TouchesGrow(cells, cell, p);
    }
    DistinctAppend(rest, pushed);
  }

  /** The cells still unflagged once `pushed` is flagged. */
  ghost function Unpushed(unvisited: set<Cell>, pushed: seq<Cell>): set<Cell> {
    unvisited - set p | p in pushed
  }

  /** Flagging pushed cells that were unflagged removes exactly them; a push makes the set strictly smaller. */
  lemma UnpushedShrinks(unvisited: set<Cell>, pushed: seq<Cell>)
    requires forall p :: p in pushed ==> p in unvisited
    ensures forall c :: c in Unpushed(unvisited, pushed) <==> c in unvisited && c !in pushed
    ensures |pushed| > 0 ==> Unpushed(unvisited, pushed) < unvisited
    ensures |pushed| == 0 ==> Unpushed(unvisited, pushed) == unvisited
  {
    if |pushed| > 0 {
      assert pushed[0] in unvisited && pushed[0] !in Unpushed(unvisited, pushed);
    }
  }

  /** Moving the top of the stack onto the popped cells keeps both lists duplicate-free and apart. */
  lemma StackShift(cells: seq<Cell>, stack: seq<Cell>)
    requires |stack| > 0 && Distinct(cells) && Distinct(stack) && forall c :: c in cells ==> c !in stack
    ensures var top := stack[|stack| - 1];
      Distinct(cells + [top]) && Distinct(stack[..|stack| - 1]) && top !in stack[..|stack| - 1]
      && forall c :: c in cells + [top] ==> c !in stack[..|stack| - 1]
  {
    var top := stack[|stack| - 1];
    var rest := stack[..|stack| - 1];
    assert stack == rest + [top];
    forall k | 0 <= k < |rest| ensures rest[k] != top {
      assert rest[k] == stack[k];
    }
    DistinctAppend(cells, [top]);
  }

  /** Gathering the probe at row `y - 1 + b` of a column is one more `Collect`. */
  lemma ColumnNext(g: array2<Label>, color: Label, ns: seq<Cell>, i: int, y: int, b: int)
    requires 0 <= b < 3
    ensures Gather(g, color, ns + Column(i, y)[..b + 1]) == Collect(g, color, Gather(g, color, ns + Column(i, y)[..b]), (i, y - 1 + b))
  {
    var longer := ns + Column(i, y)[..b + 1];
    assert longer[..|longer| - 1] == ns + Column(i, y)[..b];
    assert longer[|longer| - 1] == (i, y - 1 + b);
  }

  /** Before a column nothing of it is probed; after it, all of it. */
  lemma ColumnEnds(ns: seq<Cell>, i: int, y: int)
    ensures ns + Column(i, y)[..0] == ns && ns + Column(i, y)[..3] == ns + Column(i, y)
  {
    assert Column(i, y)[..3] == Column(i, y);
  }

  /** The first `3 * (a + 1)` probes of a ring are its first `3 * a` and then column `a`. */
  lemma RingColumns(probed: seq<Cell>, c: Cell, a: int)
    requires 0 <= a < 3
    ensures probed + Ring(c)[..3 * a] + Column(c.0 - 1 + a, c.1) == probed + Ring(c)[..3 * a + 3]
  {
    var r := Ring(c);
    assert r[..3 * a + 3] == r[..3 * a] + Column(c.0 - 1 + a, c.1);
  }

  /** Once a prefix of the cells aborts, the whole second loop does. */
  lemma {:induction false} ResolveAborts(regions: seq<Region>, cs: seq<Cell>, n: nat)
    requires n <= |cs| && Resolve(regions, cs[..n]).Err?
    ensures Resolve(regions, cs) == Err(NoRegionAtPoint)
    decreases |cs| - n
  {
    if n == |cs| {
      assert cs[..n] == cs;
      ErrIsNoRegion(regions, cs);
    } else {
      assert cs[..n + 1][..n] == cs[..n];
      ResolveAborts(regions, cs, n + 1);
    }
  }

  /** The only way the second loop fails is `region_at`'s. */
  lemma {:induction false} ErrIsNoRegion(regions: seq<Region>, cs: seq<Cell>)
    requires Resolve(regions, cs).Err?
    ensures Resolve(regions, cs) == Err(NoRegionAtPoint)
    decreases |cs|
  {
    if cs != [] && Resolve(regions, cs[..|cs| - 1]).Err? {
      ErrIsNoRegion(regions, cs[..|cs| - 1]);
    }
  }
}
