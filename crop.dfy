/**
  The destination quadrilateral of the crop that rectifies one detected text
  box before recognition: the four corners of the fixed 100 x 32 output image,
  in the order in which a rotated rectangle lists its vertices (bottom-left,
  top-left, top-right, bottom-right).
*/
module CropRectifier {
  import opened Geometry

  /** The recognition network's input size. */
  const CropWidth: int := 100
  const CropHeight: int := 32

  /** The corner pixel centres of a width x height image, starting at the
      bottom-left corner and going clockwise on screen (y grows downwards). */
  function DestinationCorners(width: int, height: int): (d: seq<Point2f>)
    ensures |d| == 4
    // d[1] is the top-left pixel, the origin
    ensures d[1] == Point2f(0.0, 0.0)
    // the sides d[0]-d[1] and d[2]-d[3] are vertical, d[1]-d[2] and d[3]-d[0] horizontal
    ensures d[0].x == d[1].x && d[2].x == d[3].x && d[1].y == d[2].y && d[3].y == d[0].y
    // the right column is the last pixel column, the bottom row the last pixel row
    ensures d[2].x - d[1].x == (width - 1) as real && d[0].y - d[1].y == (height - 1) as real
  {
    [Point2f(0.0, (height - 1) as real),
     Point2f(0.0, 0.0),
     Point2f((width - 1) as real, 0.0),
     Point2f((width - 1) as real, (height - 1) as real)]
  }

  /** (px, py) is a pixel of the 100 x 32 output image. */
  predicate IsOutputPixel(px: int, py: int) {
    0 <= px < CropWidth && 0 <= py < CropHeight
  }

  /** For the 100 x 32 crop, the corners are (0, 31), (0, 0), (99, 0) and (99, 31);
      every output pixel centre lies inside the rectangle they span, and each
      corner is itself a pixel centre of the output. */
  lemma {:induction false} CropCornersSpanOutputPixels()
    ensures DestinationCorners(CropWidth, CropHeight) ==
            [Point2f(0.0, 31.0), Point2f(0.0, 0.0), Point2f(99.0, 0.0), Point2f(99.0, 31.0)]
    ensures var d := DestinationCorners(CropWidth, CropHeight);
            forall px: int, py: int :: IsOutputPixel(px, py) ==>
              d[1].x <= px as real <= d[2].x && d[1].y <= py as real <= d[0].y
    ensures forall i :: 0 <= i < 4 ==>
              var p := DestinationCorners(CropWidth, CropHeight)[i];
              p.x.Floor as real == p.x && 0 <= p.x.Floor < CropWidth &&
              p.y.Floor as real == p.y && 0 <= p.y.Floor < CropHeight
  {
  }
}
