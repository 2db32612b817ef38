/**
 * Image space: cells, the three labels of the composite image, and the
 * 3x3 neighbourhood every scan of the core walks through.
 */
module Grid {

  /** A pixel coordinate (x, y); x runs along the width, y along the height. */
  type Cell = (int, int)

  /**
   * A composite pixel. The image stores these as RGBA values (see `Rgba`);
   * they are compared only with each other, so the label is all that matters.
   */
  datatype Label = Empty | PointMarker | JointMarker

  /** The RGBA value the composite image holds for each label. */
  function Rgba(l: Label): seq<int> {
    match l
    case Empty => [0, 0, 0, 0]
    case PointMarker => [1, 0, 0, 255]
    case JointMarker => [2, 0, 0, 255]
  }

  /** Comparing RGBA values is comparing labels; only `Empty` is all zero. */
  lemma RgbaFaithful(a: Label, b: Label)
    ensures Rgba(a) == Rgba(b) <==> a == b
    ensures Rgba(a) != [0, 0, 0, 0] <==> a != Empty
  {
    assert Rgba(a)[0] == match a case Empty => 0 case PointMarker => 1 case JointMarker => 2;
    assert Rgba(b)[0] == match b case Empty => 0 case PointMarker => 1 case JointMarker => 2;
  }

  predicate InBox<T>(g: array2<T>, c: Cell) {
    0 <= c.0 < g.Length0 && 0 <= c.1 < g.Length1
  }

  /** The flag at `c` is raised (and `c` is inside the array). */
  predicate IsSet(v: array2<bool>, c: Cell)
    reads v
  {
    InBox(v, c) && v[c.0, c.1]
  }

  /** Chebyshev distance at most 1: the cell itself or one of its eight neighbours. */
  predicate Adj(c: Cell, d: Cell) {
    -1 <= d.0 - c.0 <= 1 && -1 <= d.1 - c.1 <= 1
  }

  /** Scan order of the segmentation: column by column, top to bottom in each. */
  predicate Before(c: Cell, d: Cell) {
    c.0 < d.0 || (c.0 == d.0 && c.1 < d.1)
  }

  function Column(x: int, y: int): seq<Cell> {
    [(x, y - 1), (x, y), (x, y + 1)]
  }

  /** The nine cells around `c` (itself included) in the order the nested loops visit them. */
  function Ring(c: Cell): (r: seq<Cell>)
    ensures |r| == 9
  {
    Column(c.0 - 1, c.1) + Column(c.0, c.1) + Column(c.0 + 1, c.1)
  }

  lemma RingIsNeighbourhood(c: Cell, d: Cell)
    ensures d in Ring(c) <==> Adj(c, d)
  {
    if Adj(c, d) {
      var k := 3 * (d.0 - c.0 + 1) + (d.1 - c.1 + 1);
      assert Ring(c)[k] == d;
    }
  }
}
