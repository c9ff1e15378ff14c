/**
  OpenCV's float point, size and rotated rectangle, and the EAST box formula
  that turns one score-map cell's geometry into a rotated rectangle.
*/
module Geometry {

  datatype Point2f = Point2f(x: real, y: real)

  datatype Size2f = Size2f(width: real, height: real)

  /** Center, size and rotation angle in degrees. */
  datatype RotatedRect = RotatedRect(center: Point2f, size: Size2f, angle: real)

  /** Math.Cos and Math.Sin, which the model does not compute. */
  datatype Trig = Trig(cos: real -> real, sin: real -> real)

  /** Math.PI. */
  const Pi: real := 3.141592653589793

  /** The feature maps are four times smaller than the network's input image. */
  const Stride: real := 4.0

  function Add(p: Point2f, q: Point2f): Point2f {
    Point2f(p.x + q.x, p.y + q.y)
  }

  function Sub(p: Point2f, q: Point2f): Point2f {
    Point2f(p.x - q.x, p.y - q.y)
  }

  function Dot(p: Point2f, q: Point2f): real {
    p.x * q.x + p.y * q.y
  }

  /** The cell's anchor in input-image coordinates. */
  function Anchor(x: nat, y: nat): Point2f {
    Point2f(x as real * Stride, y as real * Stride)
  }

  /** `offset`: the anchor moved by the right and bottom distances along the
      rotated axes. */
  function BoxOffset(trig: Trig, x: nat, y: nat, right: real, bottom: real, angle: real): Point2f {
    var cosA, sinA := trig.cos(angle), trig.sin(angle);
    Point2f(x as real * Stride + cosA * right + sinA * bottom,
            y as real * Stride - sinA * right + cosA * bottom)
  }

  /** `p1`: the offset moved by the box height. */
  function CornerP1(trig: Trig, offset: Point2f, h: real, angle: real): Point2f {
    Add(Point2f(-trig.sin(angle) * h, -trig.cos(angle) * h), offset)
  }

  /** `p3`: the offset moved by the box width. */
  function CornerP3(trig: Trig, offset: Point2f, w: real, angle: real): Point2f {
    Add(Point2f(-trig.cos(angle) * w, trig.sin(angle) * w), offset)
  }

  /** The rotated rectangle of one cell, from the distances of the cell's point
      to the top, right, bottom and left sides (geometry channels 0 to 3) and
      the angle in radians (channel 4): the midpoint of p1 and p3, sized by the
      distances, at the negated angle in degrees. */
  function DecodeBox(trig: Trig, x: nat, y: nat, top: real, right: real, bottom: real, left: real, angle: real)
    : RotatedRect
  {
    var h := top + bottom;
    var w := right + left;
    var offset := BoxOffset(trig, x, y, right, bottom, angle);
    var p1 := CornerP1(trig, offset, h, angle);
    var p3 := CornerP3(trig, offset, w, angle);
    RotatedRect(Point2f(0.5 * (p1.x + p3.x), 0.5 * (p1.y + p3.y)), Size2f(w, h), -angle * 180.0 / Pi)
  }

  /** The box is (left + right) wide and (top + bottom) high, its angle is the
      negated angle in degrees, and its center is the cell's anchor moved by
      ((right - left) / 2, (bottom - top) / 2) rotated by the angle. */
  lemma DecodeBoxShape(trig: Trig, x: nat, y: nat, top: real, right: real, bottom: real, left: real, angle: real)
    ensures var r := DecodeBox(trig, x, y, top, right, bottom, left, angle);
            var cosA, sinA := trig.cos(angle), trig.sin(angle);
            var dx, dy := (right - left) / 2.0, (bottom - top) / 2.0;
            && r.size == Size2f(right + left, top + bottom)
            && r.angle == -angle * 180.0 / Pi
            && r.center == Add(Anchor(x, y), Point2f(cosA * dx + sinA * dy, -sinA * dx + cosA * dy))
  {
  }

  /** The offset, p1 and p3 are three corners of a rectangle of the decoded
      size: p1 lies `h` from the offset, p3 lies `w` from it, at a right angle,
      whenever cos and sin satisfy cos^2 + sin^2 = 1 at the angle. */
  lemma BoxCornersFormRectangle(trig: Trig, x: nat, y: nat, top: real, right: real, bottom: real, left: real, angle: real)
    requires trig.cos(angle) * trig.cos(angle) + trig.sin(angle) * trig.sin(angle) == 1.0
    ensures var h, w := top + bottom, right + left;
            var offset := BoxOffset(trig, x, y, right, bottom, angle);
            var u := Sub(CornerP1(trig, offset, h, angle), offset);
            var v := Sub(CornerP3(trig, offset, w, angle), offset);
            && Dot(u, u) == h * h
            && Dot(v, v) == w * w
            && Dot(u, v) == 0.0
  {
    var c, s := trig.cos(angle), trig.sin(angle);
    var h, w := top + bottom, right + left;
    assert (-s * h) * (-s * h) + (-c * h) * (-c * h) == (c * c + s * s) * (h * h);
    assert (-c * w) * (-c * w) + (s * w) * (s * w) == (c * c + s * s) * (w * w);
  }

  /** With a zero angle (cos 0 = 1, sin 0 = 0) the box is axis-aligned and its
      sides lie exactly the four decoded distances from the cell's anchor. */
  lemma AxisAlignedBoxSides(trig: Trig, x: nat, y: nat, top: real, right: real, bottom: real, left: real)
    requires trig.cos(0.0) == 1.0 && trig.sin(0.0) == 0.0
    ensures var r := DecodeBox(trig, x, y, top, right, bottom, left, 0.0);
            var a := Anchor(x, y);
            && r.angle == 0.0
            && r.center.x - r.size.width / 2.0 == a.x - left
            && r.center.x + r.size.width / 2.0 == a.x + right
            && r.center.y - r.size.height / 2.0 == a.y - top
            && r.center.y + r.size.height / 2.0 == a.y + bottom
  {
  }
}
