/** The composite labeller: two alpha layers merged into one label image. */
module Composite {
  import opened Grid

  /** The label of one composite pixel: the points layer wins over the joints layer. */
  function CompositeLabel(point: bool, joint: bool): (l: Label)
    ensures l == PointMarker <==> point
    ensures l == JointMarker <==> !point && joint
    ensures l == Empty <==> !point && !joint
  {
    if point then PointMarker else if joint then JointMarker else Empty
  }

  /**
   * The compositing loop of the reader's construction. A layer is given by its alpha
   * mask (true where the alpha byte is non-zero); the new image starts all zero.
   */
  method Compose(points: array2<bool>, joints: array2<bool>) returns (composite: array2<Label>)
    requires joints.Length0 == points.Length0 && joints.Length1 == points.Length1
    ensures fresh(composite)
    ensures composite.Length0 == points.Length0 && composite.Length1 == points.Length1
    ensures forall x, y :: 0 <= x < composite.Length0 && 0 <= y < composite.Length1 ==>
      composite[x, y] == CompositeLabel(points[x, y], joints[x, y])
  {
    var width, height := points.Length0, points.Length1;
    composite := new Label[width, height]((_, _) => Empty);
    for i := 0 to width
      invariant forall x, y :: 0 <= x < i && 0 <= y < height ==>
        composite[x, y] == CompositeLabel(points[x, y], joints[x, y])
      invariant forall x, y :: i <= x < width && 0 <= y < height ==> composite[x, y] == Empty
    {
      for j := 0 to height
        invariant forall x, y :: 0 <= x < i && 0 <= y < height ==>
          composite[x, y] == CompositeLabel(points[x, y], joints[x, y])
        invariant forall y :: 0 <= y < j ==> composite[i, y] == CompositeLabel(points[i, y], joints[i, y])
        invariant forall x, y :: i <= x < width && 0 <= y < height && (x > i || y >= j) ==> composite[x, y] == Empty
      {
        if points[i, j] {
          composite[i, j] := PointMarker;
        } else if joints[i, j] {
          composite[i, j] := JointMarker;
        }
      }
    }
  }
}
