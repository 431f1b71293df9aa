/**
 Grid points and the bounding-extent scan that the group layout runs over the
 coordinates of a laid-out group before pushing its neighbours aside.

 Points are integer grid positions. The scan reproduces the source loop as it
 is written, including its comparison of a y value against the running x
 minimum; `IntendedExtent` is the bounding box the loop evidently aims for.
 */
module Geometry {

  datatype Point = Point(x: int, y: int)

  /** The point returned for a node nobody laid out. */
  const Origin := Point(0, 0)

  function Add(a: Point, b: Point): Point
  {
    Point(a.x + b.x, a.y + b.y)
  }

  function Abs(v: int): (r: nat)
    ensures r == v || r == -v
  {
    if v < 0 then -v else v
  }

  /** Running minima and maxima of a scan; every scan starts from all zeros. */
  datatype Extent = Extent(xMin: int, xMax: int, yMin: int, yMax: int)

  const Seed := Extent(0, 0, 0, 0)

  /** The four extrema bracket zero, as they do from the seed onwards. */
  predicate Straddles(e: Extent)
  {
    e.xMin <= 0 <= e.xMax && e.yMin <= 0 <= e.yMax
  }

  /**
   One iteration of the extent loop. The y minimum is updated when the
   point's y is below the x minimum just updated for the same point.
   */
  function ScanStep(e: Extent, p: Point): Extent
  {
    var xMax := if p.x > e.xMax then p.x else e.xMax;
    var yMax := if p.y > e.yMax then p.y else e.yMax;
    var xMin := if p.x < e.xMin then p.x else e.xMin;
    var yMin := if p.y < xMin then p.y else e.yMin;
    Extent(xMin, xMax, yMin, yMax)
  }

  /**
   Folds `ScanStep` over `pts` from `e`. The x extrema and the y maximum are
   the true extrema of the points and of `e`; the y minimum only ever takes a
   y value of some point, and never rises above zero.
   */
  function ScanFrom(e: Extent, pts: seq<Point>): (r: Extent)
    requires Straddles(e)
    ensures Straddles(r)
    ensures r.xMin <= e.xMin && r.xMax >= e.xMax && r.yMax >= e.yMax
    ensures forall i | 0 <= i < |pts| :: r.xMin <= pts[i].x <= r.xMax && pts[i].y <= r.yMax
    ensures r.xMax == e.xMax || exists i | 0 <= i < |pts| :: r.xMax == pts[i].x
    ensures r.xMin == e.xMin || exists i | 0 <= i < |pts| :: r.xMin == pts[i].x
    ensures r.yMax == e.yMax || exists i | 0 <= i < |pts| :: r.yMax == pts[i].y
    ensures r.yMin == e.yMin || exists i | 0 <= i < |pts| :: r.yMin == pts[i].y
    decreases |pts|
  {
    if pts == [] then e
    else
      var r := ScanFrom(ScanStep(e, pts[0]), pts[1..]);
      assert forall i | 1 <= i < |pts| :: pts[i] == pts[1..][i - 1];
      r
  }

  /** The extent the source computes for a group's coordinates, visited in `pts` order. */
  function ScanExtent(pts: seq<Point>): (r: Extent)
    ensures Straddles(r)
    ensures forall i | 0 <= i < |pts| :: r.xMin <= pts[i].x <= r.xMax && pts[i].y <= r.yMax
  {
    ScanFrom(Seed, pts)
  }

  /** Horizontal room a group needs: the absolute difference of the x extrema. */
  function Width(e: Extent): nat
  {
    Abs(e.xMax - e.xMin)
  }

  /** Vertical room a group needs: the absolute difference of the y extrema. */
  function Height(e: Extent): nat
  {
    Abs(e.yMax - e.yMin)
  }

  /**
   Because every scan brackets zero, taking the absolute value never flips a
   sign: width and height are plain differences of the extrema, and they cover
   every point's x and (from zero) every point's y.
   */
  lemma ScanOffsetsAreSpans(pts: seq<Point>)
    ensures Width(ScanExtent(pts)) == ScanExtent(pts).xMax - ScanExtent(pts).xMin
    ensures Height(ScanExtent(pts)) == ScanExtent(pts).yMax - ScanExtent(pts).yMin
    ensures forall i | 0 <= i < |pts| :: pts[i].y <= Height(ScanExtent(pts))
  {
    var e := ScanExtent(pts);
    assert Straddles(e);
  }

  /** The loop body with the y minimum compared against itself. */
  function IntendedStep(e: Extent, p: Point): Extent
  {
    var xMax := if p.x > e.xMax then p.x else e.xMax;
    var yMax := if p.y > e.yMax then p.y else e.yMax;
    var xMin := if p.x < e.xMin then p.x else e.xMin;
    var yMin := if p.y < e.yMin then p.y else e.yMin;
    Extent(xMin, xMax, yMin, yMax)
  }

  /** Bounding box of the points together with the origin. */
  function IntendedFrom(e: Extent, pts: seq<Point>): (r: Extent)
    requires Straddles(e)
    ensures Straddles(r)
    ensures r.xMin <= e.xMin && r.xMax >= e.xMax && r.yMin <= e.yMin && r.yMax >= e.yMax
    ensures forall i | 0 <= i < |pts| ::
      r.xMin <= pts[i].x <= r.xMax && r.yMin <= pts[i].y <= r.yMax
    decreases |pts|
  {
    if pts == [] then e
    else
      var r := IntendedFrom(IntendedStep(e, pts[0]), pts[1..]);
      assert forall i | 1 <= i < |pts| :: pts[i] == pts[1..][i - 1];
      r
  }

  function IntendedExtent(pts: seq<Point>): (r: Extent)
    ensures forall i | 0 <= i < |pts| ::
      r.xMin <= pts[i].x <= r.xMax && r.yMin <= pts[i].y <= r.yMax
  {
    IntendedFrom(Seed, pts)
  }

  predicate OnGrid(pts: seq<Point>)
  {
    forall i | 0 <= i < |pts| :: pts[i].x >= 0 && pts[i].y >= 0
  }

  lemma {:induction false} ScanFromAgreesOnGrid(xMax: int, yMax: int, pts: seq<Point>)
    requires xMax >= 0 && yMax >= 0
    requires OnGrid(pts)
    ensures ScanFrom(Extent(0, xMax, 0, yMax), pts) == IntendedFrom(Extent(0, xMax, 0, yMax), pts)
    ensures ScanFrom(Extent(0, xMax, 0, yMax), pts).xMin == 0
    ensures ScanFrom(Extent(0, xMax, 0, yMax), pts).yMin == 0
    decreases |pts|
  {
    if pts != [] {
      var e := Extent(0, xMax, 0, yMax);
      assert ScanStep(e, pts[0]) == IntendedStep(e, pts[0]);
      var e' := ScanStep(e, pts[0]);
      assert e'.xMin == 0 && e'.yMin == 0;
      assert OnGrid(pts[1..]) by {
        forall i | 0 <= i < |pts[1..]|
          ensures pts[1..][i].x >= 0 && pts[1..][i].y >= 0
        {
          assert pts[1..][i] == pts[i + 1];
        }
      }
      ScanFromAgreesOnGrid(e'.xMax, e'.yMax, pts[1..]);
    }
  }

  /**
   On grid positions (no negative coordinate) the loop as written computes
   the true bounding box: both minima stay at zero.
   */
  lemma ScanAgreesOnGrid(pts: seq<Point>)
    requires OnGrid(pts)
    ensures ScanExtent(pts) == IntendedExtent(pts)
    ensures ScanExtent(pts).xMin == 0 && ScanExtent(pts).yMin == 0
  {
    ScanFromAgreesOnGrid(0, 0, pts);
  }

  /**
   With a negative x below a negative y, the loop as written never lowers the
   y minimum, so the height it reports misses that point.
   */
  lemma ScanMissesNegativeY()
    ensures ScanExtent([Point(-5, -3)]).yMin == 0
    ensures IntendedExtent([Point(-5, -3)]).yMin == -3
    ensures Height(ScanExtent([Point(-5, -3)])) < Height(IntendedExtent([Point(-5, -3)]))
  {
  }
}
