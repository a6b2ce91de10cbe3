/**
  The planar geometry the packer works on, and the interface of the geometry
  library it calls (area, circular buffer, set difference). The library's
  operations are not implemented here: a packing run receives them as
  function values, so everything proved about the packer holds for every
  geometry engine.
*/
module Geometry {

  /** A 2-D coordinate. */
  datatype Point = Point(x: real, y: real)

  /** A polygon: its exterior ring in stored order (the closing vertex
      repeated, as the library stores it) and its interior rings (holes). */
  datatype Polygon = Polygon(exterior: seq<Point>, interiors: seq<seq<Point>>)

  /** A possibly disconnected region: its component polygons, in order. */
  type MultiPolygon = seq<Polygon>

  /** What a set difference returns: a lone polygon, or a collection of
      polygons (empty when nothing is left). */
  datatype Shape = SinglePolygon(polygon: Polygon) | Collection(parts: seq<Polygon>)

  /** The three geometry-library operations the packer composes. */
  datatype GeometryOps = GeometryOps(
    area: Polygon -> real,
    buffer: (Point, real) -> Polygon,
    difference: (MultiPolygon, Polygon) -> Shape)

  /** A polygon with no exterior ring covers nothing. */
  predicate IsEmptyPolygon(p: Polygon)
  {
    p.exterior == []
  }

  /** Rewraps a set-difference result as a region. A lone polygon goes
      through the multipolygon constructor, which drops an empty polygon, so
      it becomes a one-component region or, when empty, the empty region; a
      collection is already a sequence of polygons. */
  function Normalise(s: Shape): (m: MultiPolygon)
    ensures m == [] <==> EmptyShape(s)
  {
    match s
    case SinglePolygon(p) => if IsEmptyPolygon(p) then [] else [p]
    case Collection(parts) => parts
  }

  /** A difference result that leaves nothing: an empty collection or an
      empty lone polygon. */
  predicate EmptyShape(s: Shape)
  {
    s == Collection([]) || (s.SinglePolygon? && IsEmptyPolygon(s.polygon))
  }

  /** The x coordinates of a sequence of points, index by index. */
  function XCoords(ps: seq<Point>): (xs: seq<real>)
    ensures |xs| == |ps|
  {
    seq(|ps|, i requires 0 <= i < |ps| => ps[i].x)
  }

  /** The y coordinates of a sequence of points, index by index. */
  function YCoords(ps: seq<Point>): (ys: seq<real>)
    ensures |ys| == |ps|
  {
    seq(|ps|, i requires 0 <= i < |ps| => ps[i].y)
  }

  /** Pairs up parallel coordinate sequences into points. */
  function Zip(xs: seq<real>, ys: seq<real>): (ps: seq<Point>)
    requires |xs| == |ys|
    ensures |ps| == |xs|
  {
    seq(|xs|, i requires 0 <= i < |xs| => Point(xs[i], ys[i]))
  }
}
