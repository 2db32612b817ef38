/**
 * The room records `build_data` writes, one per point region, before they are
 * rendered as JSON. The rendering itself (`json.pretty(4)`) belongs to the
 * JSON library and is a parameter of `Reader.BuildData`.
 */
module Rooms {
  import opened Wrappers
  import opened Grid
  import opened Regions
  import Decimal

  /** One object of the JSON array: `number` is null and the two texts are empty when written. */
  datatype Room = Room(
    id: string,
    number: Option<int>,
    floor: nat,
    x: int,
    y: int,
    roomType: string,
    description: string,
    nodes: seq<string>)

  /** The object written for one point region. */
  function RoomOf(p: Region, floor: nat): Room
    requires |p.cells| > 0
  {
    var (x, y) := Centroid(p.cells);
    Room(Hash(p), None, floor, x, y, "", "", p.nodes)
  }

  /** The array `build_data` fills, one object per point, in order. */
  function RoomsOf(points: seq<Region>, floor: nat): (rooms: seq<Room>)
    requires forall k :: 0 <= k < |points| ==> |points[k].cells| > 0
    ensures |rooms| == |points|
    ensures forall k :: 0 <= k < |points| ==> rooms[k] == RoomOf(points[k], floor)
    decreases |points|
  {
    if points == [] then [] else RoomsOf(points[..|points| - 1], floor) + [RoomOf(points[|points| - 1], floor)]
  }

  /** The loop of `build_data` that pushes one object per point. */
  method WriteRooms(points: seq<Region>, floor: nat) returns (rooms: seq<Room>)
    requires forall k :: 0 <= k < |points| ==> |points[k].cells| > 0
    ensures rooms == RoomsOf(points, floor)
  {
    rooms := [];
    for k := 0 to |points|
      invariant rooms == RoomsOf(points[..k], floor)
    {
      var point := points[k];
      var position := Position(point);
      var id := HashOf(point);
      rooms := rooms + [Room(id, None, floor, position.0, position.1, "", "", point.nodes)];
      assert points[..k + 1][..k] == points[..k];
    }
    assert points[..|points|] == points;
  }

  /**
   * A written room carries its region's position and nodes, a null number, empty
   * texts, and an id that spells its own x and y, so the id can be read back
   * once one knows where x ends.
   */
  lemma RoomOfFields(p: Region, floor: nat)
    requires |p.cells| > 0
    ensures var room := RoomOf(p, floor);
      (room.x, room.y) == Centroid(p.cells)
      && room.id == Decimal.Render(room.x) + Decimal.Render(room.y)
      && Decimal.Parse(room.id[..|Decimal.Render(room.x)|]) == room.x
      && Decimal.Parse(room.id[|Decimal.Render(room.x)|..]) == room.y
      && room.number.None? && room.floor == floor && room.roomType == "" && room.description == ""
      && room.nodes == p.nodes
  {
    HashSplitsIntoCoordinates(p);
  }

  /** A room made from cells of the image lies inside the image. */
  lemma RoomInsideImage(g: array2<Label>, p: Region, floor: nat)
    requires |p.cells| > 0 && forall c :: c in p.cells ==> InBox(g, c)
    ensures 0 <= RoomOf(p, floor).x < g.Length0 && 0 <= RoomOf(p, floor).y < g.Length1
  {
    CentroidInBoundingBox(p.cells, (0, 0), (g.Length0 - 1, g.Length1 - 1));
  }

  /** Two point regions at positions (1, 23) and (12, 3) are written with the same id. */
  lemma RoomIdsCanCollide(p: Region, q: Region, floor: nat)
    requires |p.cells| > 0 && |q.cells| > 0
    requires Centroid(p.cells) == (1, 23) && Centroid(q.cells) == (12, 3)
    ensures RoomOf(p, floor).id == RoomOf(q, floor).id
    ensures (RoomOf(p, floor).x, RoomOf(p, floor).y) != (RoomOf(q, floor).x, RoomOf(q, floor).y)
  {
    HashIsAmbiguous();
  }
}
