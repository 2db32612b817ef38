/**
 * What `Reader::create_connections` does to the regions, as a specification on
 * values. The first loop collects pairs (point index, region): for every point
 * region, for every region adjacent to it, every region adjacent to that one
 * whose first cell differs from the point's. The second loop appends the hash
 * of each pair's region to the nodes of the point it names. The loops
 * themselves are `Reader.CreateConnections`.
 */
module Connections {
  import opened Wrappers
  import opened Grid
  import opened Regions
  import opened Segmentation
  import opened Adjacency

  /** `get_adjacent` where it succeeds; over a partition it always does. */
  function Around(g: array2<Label>, regions: seq<Region>, r: Region): seq<Region>
    reads g
  {
    if HasSeed(g, r) && Adjacent(g, regions, r).Ok? then Adjacent(g, regions, r).value else []
  }

  /** The filter on first cells: a region counts unless it starts where the point does. */
  predicate OtherThan(a: Region, p: Region) {
    |a.cells| > 0 && |p.cells| > 0 && a.cells[0] != p.cells[0]
  }

  /** The innermost loop: the regions around a joint other than the point, tagged with the point's index. */
  function Tagged(i: nat, p: Region, around: seq<Region>): seq<(nat, Region)>
    decreases |around|
  {
    if around == [] then []
    else
      var a := around[|around| - 1];
      Tagged(i, p, around[..|around| - 1]) + (if OtherThan(a, p) then [(i, a)] else [])
  }

  /** The middle loop: the tagged regions around each region adjacent to the point, joint by joint. */
  function ForJoints(g: array2<Label>, regions: seq<Region>, i: nat, p: Region, joints: seq<Region>): seq<(nat, Region)>
    reads g
    decreases |joints|
  {
    if joints == [] then []
    else ForJoints(g, regions, i, p, joints[..|joints| - 1]) + Tagged(i, p, Around(g, regions, joints[|joints| - 1]))
  }

  /** The pairs one region contributes: none unless its first cell is a point marker. */
  function PairsFor(g: array2<Label>, regions: seq<Region>, i: nat): seq<(nat, Region)>
    requires i < |regions|
    reads g
  {
    if HasSeed(g, regions[i]) && IsPoint(g, regions[i])
    then ForJoints(g, regions, i, regions[i], Around(g, regions, regions[i]))
    else []
  }

  /** The pairs of every region, one block per region in order. */
  function Blocks(g: array2<Label>, regions: seq<Region>): (bs: seq<seq<(nat, Region)>>)
    reads g
    ensures |bs| == |regions|
  {
    seq(|regions|, i requires 0 <= i < |regions| reads g => PairsFor(g, regions, i))
  }

  function Flatten(bs: seq<seq<(nat, Region)>>): seq<(nat, Region)>
    decreases |bs|
  {
    if bs == [] then [] else Flatten(bs[..|bs| - 1]) + bs[|bs| - 1]
  }

  /** The hashes the second loop appends to region `i`, in order, for a list of pairs. */
  function NodesFrom(pairs: seq<(nat, Region)>, i: nat): seq<string>
    decreases |pairs|
  {
    if pairs == [] then []
    else
      var e := pairs[|pairs| - 1];
      NodesFrom(pairs[..|pairs| - 1], i) + (if e.0 == i && |e.1.cells| > 0 then [Hash(e.1)] else [])
  }

  /** The block of a point region: the pairs through each region `Adjacent` finds. */
  lemma PointBlock(g: array2<Label>, regions: seq<Region>, i: nat)
    requires i < |regions| && HasSeed(g, regions[i]) && IsPoint(g, regions[i]) && Adjacent(g, regions, regions[i]).Ok?
    ensures Blocks(g, regions)[i] == ForJoints(g, regions, i, regions[i], Adjacent(g, regions, regions[i]).value)
  {
  }

  /** The block of a region that is not a point is empty. */
  lemma OtherBlock(g: array2<Label>, regions: seq<Region>, i: nat)
    requires i < |regions| && HasSeed(g, regions[i]) && !IsPoint(g, regions[i])
    ensures Blocks(g, regions)[i] == []
  {
  }


  lemma FlattenSnoc(bs: seq<seq<(nat, Region)>>, i: nat)
    requires i < |bs|
    ensures Flatten(bs[..i + 1]) == Flatten(bs[..i]) + bs[i]
  {
    assert bs[..i + 1][..i] == bs[..i];
  }


  /** One more joint, for the loop over the regions adjacent to a point. */
  lemma ForJointsStep(g: array2<Label>, regions: seq<Region>, i: nat, p: Region, joints: seq<Region>, j: nat)
    requires j < |joints|
    ensures ForJoints(g, regions, i, p, joints[..j + 1]) == ForJoints(g, regions, i, p, joints[..j]) + Tagged(i, p, Around(g, regions, joints[j]))
  {
    assert joints[..j + 1][..j] == joints[..j];
  }

  /** The regions after `create_connections`: same cells, the hashes appended to the nodes. */
  function Connect(g: array2<Label>, regions: seq<Region>): (out: seq<Region>)
    reads g
    ensures |out| == |regions|
    ensures forall k :: 0 <= k < |out| ==> out[k].cells == regions[k].cells
  {
    var pairs := Flatten(Blocks(g, regions));
    seq(|regions|, k requires 0 <= k < |regions| => regions[k].(nodes := regions[k].nodes + NodesFrom(pairs, k)))
  }

  lemma {:induction false} TaggedSpec(i: nat, p: Region, around: seq<Region>)
    ensures forall e {:trigger e in Tagged(i, p, around)} :: e in Tagged(i, p, around) <==> e.0 == i && e.1 in around && OtherThan(e.1, p)
    decreases |around|
  {
    if around != [] {
      var init := around[..|around| - 1];
      TaggedSpec(i, p, init);
      assert around == init + [around[|around| - 1]];
    }
  }

  lemma {:induction false} ForJointsSpec(g: array2<Label>, regions: seq<Region>, i: nat, p: Region, joints: seq<Region>)
    ensures forall e {:trigger e in ForJoints(g, regions, i, p, joints)} :: e in ForJoints(g, regions, i, p, joints) <==>
      e.0 == i && OtherThan(e.1, p) && exists j {:trigger e.1 in Around(g, regions, j)} :: j in joints && e.1 in Around(g, regions, j)
    decreases |joints|
  {
    if joints != [] {
      var init := joints[..|joints| - 1];
      var last := joints[|joints| - 1];
      ForJointsSpec(g, regions, i, p, init);
      TaggedSpec(i, p, Around(g, regions, last));
      assert joints == init + [last];
      forall e: (nat, Region) | e.0 == i && OtherThan(e.1, p) && (exists j {:trigger e.1 in Around(g, regions, j)} :: j in joints && e.1 in Around(g, regions, j))
        ensures e in ForJoints(g, regions, i, p, joints)
      {
        var j :| j in joints && e.1 in Around(g, regions, j);
        if j != last {
          assert j in init;
        }
      }
    }
  }

  lemma PairsForTagged(g: array2<Label>, regions: seq<Region>, i: nat)
    requires i < |regions|
    ensures forall e {:trigger e in PairsFor(g, regions, i)} :: e in PairsFor(g, regions, i) ==> e.0 == i && |e.1.cells| > 0
  {
    if HasSeed(g, regions[i]) && IsPoint(g, regions[i]) {
      ForJointsSpec(g, regions, i, regions[i], Around(g, regions, regions[i]));
    }
  }

  /** One more pair, for the loop that appends the nodes. */
  lemma NodesFromSnoc(pairs: seq<(nat, Region)>, k: nat, m: nat)
    requires k < |pairs|
    ensures NodesFrom(pairs[..k + 1], m)
      == NodesFrom(pairs[..k], m) + (if pairs[k].0 == m && |pairs[k].1.cells| > 0 then [Hash(pairs[k].1)] else [])
  {
    assert pairs[..k + 1][..k] == pairs[..k];
  }

  lemma {:induction false} NodesFromConcat(a: seq<(nat, Region)>, b: seq<(nat, Region)>, i: nat)
    ensures NodesFrom(a + b, i) == NodesFrom(a, i) + NodesFrom(b, i)
    decreases |b|
  {
    if b == [] {
      assert a + b == a;
    } else {
      var init := b[..|b| - 1];
      assert (a + b)[..|a + b| - 1] == a + init;
      assert (a + b)[|a + b| - 1] == b[|b| - 1];
      NodesFromConcat(a, init, i);
    }
  }

  lemma {:induction false} NodesFromOthers(pairs: seq<(nat, Region)>, i: nat)
    requires forall e {:trigger e in pairs} :: e in pairs ==> e.0 != i
    ensures NodesFrom(pairs, i) == []
    decreases |pairs|
  {
    if pairs != [] {
      var init := pairs[..|pairs| - 1];
      assert pairs == init + [pairs[|pairs| - 1]];
      forall e | e in init ensures e.0 != i {
        assert e in pairs;
      }
      NodesFromOthers(init, i);
      assert pairs[|pairs| - 1] in pairs;
    }
  }

  /** The pair's region is non-empty and `h` is its hash. */
  predicate Names(e: (nat, Region), h: string) {
    |e.1.cells| > 0 && h == Hash(e.1)
  }

  lemma {:induction false} NodesFromOwn(pairs: seq<(nat, Region)>, i: nat, h: string)
    requires forall e {:trigger e in pairs} :: e in pairs ==> e.0 == i
    ensures h in NodesFrom(pairs, i) <==> exists e :: e in pairs && Names(e, h)
    decreases |pairs|
  {
    if pairs != [] {
      var init := pairs[..|pairs| - 1];
      var last := pairs[|pairs| - 1];
      assert pairs == init + [last];
      forall e | e in init ensures e.0 == i {
        assert e in pairs;
      }
      NodesFromOwn(init, i, h);
      assert last in pairs;
      var tail := if |last.1.cells| > 0 then [Hash(last.1)] else [];
      assert NodesFrom(pairs, i) == NodesFrom(init, i) + tail;
      assert h in tail <==> Names(last, h);
      if exists e :: e in pairs && Names(e, h) {
        var e :| e in pairs && Names(e, h);
        if e != last {
          assert e in init;
        }
      }
    }
  }

  /** Every block is tagged with its own index. */
  ghost predicate TaggedBlocks(bs: seq<seq<(nat, Region)>>) {
    forall k, e {:trigger e in bs[k]} :: 0 <= k < |bs| && e in bs[k] ==> e.0 == k && |e.1.cells| > 0
  }

  lemma BlocksTagged(g: array2<Label>, regions: seq<Region>)
    ensures TaggedBlocks(Blocks(g, regions))
  {
    var bs := Blocks(g, regions);
    forall k, e: (nat, Region) | 0 <= k < |bs| && e in bs[k] ensures e.0 == k && |e.1.cells| > 0 {
      PairsForTagged(g, regions, k);
    }
  }

  lemma {:induction false} FlattenTagsBelow(bs: seq<seq<(nat, Region)>>)
    requires TaggedBlocks(bs)
    ensures forall e {:trigger e in Flatten(bs)} :: e in Flatten(bs) ==> e.0 < |bs| && |e.1.cells| > 0
    decreases |bs|
  {
    if bs != [] {
      var init := bs[..|bs| - 1];
      assert TaggedBlocks(init) by {
        forall k, e: (nat, Region) | 0 <= k < |init| && e in init[k] ensures e.0 == k && |e.1.cells| > 0 {
          assert init[k] == bs[k];
        }
      }
      FlattenTagsBelow(init);
    }
  }

  /** Only the block a region contributes reaches its nodes. */
  lemma {:induction false} NodesFromFlatten(bs: seq<seq<(nat, Region)>>, i: nat)
    requires TaggedBlocks(bs)
    ensures NodesFrom(Flatten(bs), i) == if i < |bs| then NodesFrom(bs[i], i) else []
    decreases |bs|
  {
    if bs != [] {
      var init := bs[..|bs| - 1];
      var last := bs[|bs| - 1];
      assert TaggedBlocks(init) by {
        forall k, e: (nat, Region) | 0 <= k < |init| && e in init[k] ensures e.0 == k && |e.1.cells| > 0 {
          assert init[k] == bs[k];
        }
      }
      NodesFromConcat(Flatten(init), last, i);
      if i == |bs| - 1 {
        FlattenTagsBelow(init);
        NodesFromOthers(Flatten(init), i);
      } else {
        NodesFromFlatten(init, i);
        NodesFromOthers(last, i);
      }
    }
  }

  /** Two regions reached from a point through a common adjacent region. */
  ghost predicate ViaJoint(g: array2<Label>, regions: seq<Region>, p: Region, a: Region)
    reads g
  {
    exists j :: j in regions && Neighbours(g, p, j) && Neighbours(g, j, a)
  }

  lemma {:induction false} NodesOfRegion(g: array2<Label>, regions: seq<Region>, i: nat)
    requires i < |regions|
    ensures Connect(g, regions)[i].nodes == regions[i].nodes + NodesFrom(PairsFor(g, regions, i), i)
  {
    BlocksTagged(g, regions);
    NodesFromFlatten(Blocks(g, regions), i);
  }

  /** A region of a partition, found by value. */
  lemma IndexOf(regions: seq<Region>, r: Region) returns (k: nat)
    requires r in regions
    ensures k < |regions| && regions[k] == r
  {
    k :| 0 <= k < |regions| && regions[k] == r;
  }

  /** `Around` yields exactly the neighbouring regions of another label. */
  ghost predicate AroundExact(g: array2<Label>, regions: seq<Region>)
    reads g
  {
    forall r, q {:trigger q in Around(g, regions, r)} {:trigger Neighbours(g, r, q)} :: r in regions ==> (q in Around(g, regions, r) <==> q in regions && Neighbours(g, r, q))
  }

  lemma AroundIsNeighbours(g: array2<Label>, regions: seq<Region>)
    requires Partition(g, regions)
    ensures AroundExact(g, regions)
  {
    forall r | r in regions ensures forall q :: q in Around(g, regions, r) <==> q in regions && Neighbours(g, r, q) {
      var k := IndexOf(regions, r);
      AroundOf(g, regions, k);
    }
  }

  /** `Around` of one region of a partition. */
  lemma AroundOf(g: array2<Label>, regions: seq<Region>, k: nat)
    requires Partition(g, regions) && k < |regions|
    ensures forall q :: q in Around(g, regions, regions[k]) <==> q in regions && Neighbours(g, regions[k], q)
  {
    AdjacentIsNeighbours(g, regions, k);
  }

  /** Two steps of `Around` from a region reach exactly the regions two neighbour steps away. */
  lemma TwoSteps(g: array2<Label>, regions: seq<Region>, p: Region, a: Region)
    requires AroundExact(g, regions) && p in regions
    ensures (exists j {:trigger a in Around(g, regions, j)} :: j in Around(g, regions, p) && a in Around(g, regions, j)) <==> a in regions && ViaJoint(g, regions, p, a)
  {
    if a in regions && ViaJoint(g, regions, p, a) {
      var j :| j in regions && Neighbours(g, p, j) && Neighbours(g, j, a);
      assert j in Around(g, regions, p) && a in Around(g, regions, j);
    }
  }

  /** Over a partition the first loop pairs a point with exactly the other regions it reaches through a joint. */
  lemma PairsOfPoint(g: array2<Label>, regions: seq<Region>, i: nat, a: Region)
    requires AroundExact(g, regions) && i < |regions| && HasSeed(g, regions[i]) && IsPoint(g, regions[i])
    ensures (i, a) in PairsFor(g, regions, i) <==> a in regions && OtherThan(a, regions[i]) && ViaJoint(g, regions, regions[i], a)
  {
    var p := regions[i];
    ForJointsSpec(g, regions, i, p, Around(g, regions, p));
    TwoSteps(g, regions, p, a);
  }

  /** The nodes a region ends up with, given that `Around` is exact. */
  lemma {:induction false} NodesOfPoint(g: array2<Label>, regions: seq<Region>, i: nat, h: string)
    requires AroundExact(g, regions) && i < |regions| && HasSeed(g, regions[i])
    ensures !IsPoint(g, regions[i]) ==> Connect(g, regions)[i].nodes == regions[i].nodes
    ensures h in Connect(g, regions)[i].nodes <==>
      h in regions[i].nodes
      || (IsPoint(g, regions[i]) && exists a :: a in regions && OtherThan(a, regions[i]) && ViaJoint(g, regions, regions[i], a) && h == Hash(a))
  {
    var p := regions[i];
    NodesOfRegion(g, regions, i);
    if IsPoint(g, p) {
      var block := PairsFor(g, regions, i);
      PairsForTagged(g, regions, i);
      NodesFromOwn(block, i, h);
      if h in NodesFrom(block, i) {
        var e :| e in block && Names(e, h);
        assert e == (i, e.1);
        PairsOfPoint(g, regions, i, e.1);
      }
      if exists a :: a in regions && OtherThan(a, p) && ViaJoint(g, regions, p, a) && h == Hash(a) {
        var a :| a in regions && OtherThan(a, p) && ViaJoint(g, regions, p, a) && h == Hash(a);
        PairsOfPoint(g, regions, i, a);
        assert (i, a) in block;
      }
    }
  }

  /**
   * After segmentation, a hash lands in a region's nodes exactly when it was
   * there already, or the region is a point and the hash is that of another
   * region reached from it through a region adjacent to both.
   */
  lemma ConnectionsMeaning(g: array2<Label>, regions: seq<Region>, i: nat, h: string)
    requires Partition(g, regions) && i < |regions|
    ensures HasSeed(g, regions[i])
    ensures !IsPoint(g, regions[i]) ==> Connect(g, regions)[i].nodes == regions[i].nodes
    ensures h in Connect(g, regions)[i].nodes <==>
      h in regions[i].nodes
      || (IsPoint(g, regions[i]) && exists a :: a in regions && OtherThan(a, regions[i]) && ViaJoint(g, regions, regions[i], a) && h == Hash(a))
  {
    assert GoodRegion(g, regions[i]);
    AroundIsNeighbours(g, regions);
    NodesOfPoint(g, regions, i, h);
  }

  /** A region of a partition starts on a coloured cell. */
  lemma SeedIsMarked(g: array2<Label>, regions: seq<Region>, r: Region)
    requires AllGood(g, regions) && r in regions
    ensures HasSeed(g, r) && SeedLabel(g, r) != Empty
  {
    var k := IndexOf(regions, r);
    assert GoodRegion(g, regions[k]);
  }

  /** Connecting changes no cells, so every region still starts inside the image. */
  lemma ConnectKeepsSeeds(g: array2<Label>, regions: seq<Region>)
    requires AllGood(g, regions)
    ensures Seeded(g, Connect(g, regions))
  {
    var out := Connect(g, regions);
    forall k | 0 <= k < |out| ensures |out[k].cells| > 0 && InBox(g, out[k].cells[0]) {
      assert GoodRegion(g, regions[k]);
    }
  }

  /** Every region named by a point's nodes is itself a point: a point's neighbours are joints, and theirs are points. */
  lemma ConnectionsLinkPoints(g: array2<Label>, regions: seq<Region>, p: Region, a: Region)
    requires AllGood(g, regions) && a in regions && HasSeed(g, p) && IsPoint(g, p) && ViaJoint(g, regions, p, a)
    ensures HasSeed(g, a) && IsPoint(g, a)
  {
    var j :| j in regions && Neighbours(g, p, j) && Neighbours(g, j, a);
    SeedIsMarked(g, regions, j);
    SeedIsMarked(g, regions, a);
  }
}
