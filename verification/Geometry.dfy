/** Pixels, rectangles and pixel regions of the mirrored screen. */
module Geometry {

  datatype Option<+T> = None | Some(value: T)

  datatype Point = Point(x: int, y: int)

  datatype Rect = Rect(x: int, y: int, w: int, h: int) {
    predicate Contains(p: Point) {
      x <= p.x < x + w && y <= p.y < y + h
    }

    function Pixels(): (s: set<Point>)
      ensures forall p :: p in s <==> Contains(p)
    {
      set i, j | x <= i < x + w && y <= j < y + h :: Point(i, j)
    }

    /** A non-empty rectangle that lies on a `width` by `height` screen. */
    predicate Within(width: int, height: int) {
      0 <= x && 0 < w && x + w <= width && 0 <= y && 0 < h && y + h <= height
    }
  }

  /** The three-valued result of `pixman_region_contains_rectangle`. */
  datatype Overlap = OUT | IN | PART

  function ContainsRectangle(region: set<Point>, r: Rect): Overlap {
    if region * r.Pixels() == {} then OUT
    else if r.Pixels() <= region then IN
    else PART
  }

  /** The pixels covered by a list of rectangles. */
  function Union(rs: seq<Rect>): (s: set<Point>)
    ensures forall p :: p in s <==> exists k :: 0 <= k < |rs| && rs[k].Contains(p)
  {
    if rs == [] then {} else Union(rs[..|rs| - 1]) + rs[|rs| - 1].Pixels()
  }

  newtype Pixel = x: int | 0 <= x < 0x1_0000_0000

  /** A screen image as rows of pixels. */
  type Frame = seq<seq<Pixel>>

  predicate Sized(f: Frame, w: int, h: int) {
    |f| == h && forall y :: 0 <= y < h ==> |f[y]| == w
  }
}
