/**
 * From corner regions to the four point correspondences the board's
 * projective transform is estimated from.
 */
module Rectifier {
  import opened Errors
  import opened Geometry
  import opened Images

  /** Size of the cropped board. */
  const Width: int := 1000
  const Height: int := 500

  /**
   * Corners of the canonical rectangle, indexed by slot: UP_LEFT, DOWN_LEFT,
   * DOWN_RIGHT, UP_RIGHT.
   */
  const SrcPoints: seq<IntPoint> :=
    [IntPoint(0, 0), IntPoint(0, Height), IntPoint(Width, Height), IntPoint(Width, 0)]

  /** A region's centroid is (row, column), that is (y, x); a point is (x, y). */
  function CentroidPoint(r: Region): Point {
    Point(r.centroid.1, r.centroid.0)
  }

  /** The corner points of a list of corner regions: centroids swapped to (x, y). */
  function CornerPoints(regions: seq<Region>): (ps: seq<Point>)
    ensures |ps| == |regions|
  {
    seq(|regions|, i requires 0 <= i < |regions| => CentroidPoint(regions[i]))
  }

  /**
   * One point per corner region, in region order; fails when fewer than four
   * regions were found.
   */
  method PositionsOfCorners(regions: seq<Region>) returns (r: Result<seq<Point>>)
    ensures r.Ok? <==> |regions| >= 4
    ensures r.Err? ==> r.error == NotEnoughCorners
    ensures r.Ok? ==> r.value == CornerPoints(regions)
    ensures r.Ok? ==> |r.value| == |regions|
    ensures r.Ok? ==> forall i :: 0 <= i < |regions| ==>
              r.value[i] == Point(regions[i].centroid.1, regions[i].centroid.0)
  {
    var points: seq<Point> := [];
    for i := 0 to |regions|
      invariant |points| == i
      invariant forall k :: 0 <= k < i ==> points[k] == CentroidPoint(regions[k])
    {
      var (y, x) := regions[i].centroid;
      points := points + [Point(x, y)];
    }
    if |points| < 4 {
      return Err(NotEnoughCorners);
    }
    assert points == CornerPoints(regions);
    return Ok(points);
  }

  /** The four slots as they start: all (0, 0). */
  const EmptySlots: seq<IntPoint> := [IntPoint(0, 0), IntPoint(0, 0), IntPoint(0, 0), IntPoint(0, 0)]

  /**
   * The slots after writing each point, in input order, into the slot of its
   * quadrant, truncated to integers.
   */
  function Slots(points: seq<Point>, center: Point): (s: seq<IntPoint>)
    ensures |s| == 4
    decreases |points|
  {
    if points == [] then EmptySlots
    else
      var last := points[|points| - 1];
      Slots(points[..|points| - 1], center)[CornerIndex(last, center) := TruncPoint(last)]
  }

  /** The points that fall in quadrant `q`, in input order. */
  function InQuadrant(points: seq<Point>, center: Point, q: nat): (r: seq<Point>)
    ensures |r| <= |points|
    decreases |points|
  {
    if points == [] then []
    else
      var init := InQuadrant(points[..|points| - 1], center, q);
      var last := points[|points| - 1];
      if CornerIndex(last, center) == q then init + [last] else init
  }

  /** Slot contents, written slot: the last point of a quadrant is what its slot holds. */
  lemma {:induction false} SlotIsLastWrite(points: seq<Point>, center: Point, k: nat)
    requires k < |points|
    requires forall j :: k < j < |points| ==>
               CornerIndex(points[j], center) != CornerIndex(points[k], center)
    ensures Slots(points, center)[CornerIndex(points[k], center)] == TruncPoint(points[k])
    decreases |points|
  {
    var n := |points|;
    if k < n - 1 {
      var init := points[..n - 1];
      assert init[k] == points[k];
      assert forall j :: k < j < n - 1 ==> init[j] == points[j];
      SlotIsLastWrite(init, center, k);
    }
  }

  /** Slot contents, untouched slot: a quadrant no point falls in keeps (0, 0). */
  lemma {:induction false} SlotNeverWritten(points: seq<Point>, center: Point, q: nat)
    requires q < 4
    requires forall k :: 0 <= k < |points| ==> CornerIndex(points[k], center) != q
    ensures Slots(points, center)[q] == IntPoint(0, 0)
    decreases |points|
  {
    if points != [] {
      var init := points[..|points| - 1];
      assert forall k :: 0 <= k < |init| ==> init[k] == points[k];
      SlotNeverWritten(init, center, q);
    }
  }

  /** A write touches only the slot of the written point's quadrant. */
  lemma WriteTouchesOneSlot(points: seq<Point>, p: Point, center: Point, q: nat)
    requires q < 4
    ensures Slots(points + [p], center)[q] ==
              if q == CornerIndex(p, center) then TruncPoint(p) else Slots(points, center)[q]
  {
    assert (points + [p])[..|points|] == points;
  }

  /** Slot `q` seen through the points of quadrant `q`. */
  lemma {:induction false} SlotFromQuadrant(points: seq<Point>, center: Point, q: nat)
    requires q < 4
    ensures var f := InQuadrant(points, center, q);
            Slots(points, center)[q] == if f == [] then IntPoint(0, 0) else TruncPoint(f[|f| - 1])
    decreases |points|
  {
    if points != [] {
      SlotFromQuadrant(points[..|points| - 1], center, q);
    }
  }

  /** Filtering by quadrant keeps exactly the occurrences of points in that quadrant. */
  lemma {:induction false} InQuadrantCount(points: seq<Point>, center: Point, q: nat, p: Point)
    ensures multiset(InQuadrant(points, center, q))[p] ==
              if CornerIndex(p, center) == q then multiset(points)[p] else 0
    decreases |points|
  {
    if points != [] {
      var n := |points|;
      InQuadrantCount(points[..n - 1], center, q, p);
      assert points == points[..n - 1] + [points[n - 1]];
    }
  }

  lemma InQuadrantPermutation(s: seq<Point>, t: seq<Point>, center: Point, q: nat)
    requires multiset(s) == multiset(t)
    ensures multiset(InQuadrant(s, center, q)) == multiset(InQuadrant(t, center, q))
  {
    forall p
      ensures multiset(InQuadrant(s, center, q))[p] == multiset(InQuadrant(t, center, q))[p]
    {
      InQuadrantCount(s, center, q, p);
      InQuadrantCount(t, center, q, p);
    }
  }

  /** Every quadrant receives exactly one of the points. */
  predicate OnePerQuadrant(points: seq<Point>, center: Point) {
    forall q :: 0 <= q < 4 ==> |InQuadrant(points, center, q)| == 1
  }

  /**
   * When every quadrant receives exactly one point, the slots do not depend
   * on the order of the points.
   */
  lemma SlotsOrderIndependent(s: seq<Point>, t: seq<Point>, center: Point)
    requires multiset(s) == multiset(t)
    requires OnePerQuadrant(s, center)
    ensures OnePerQuadrant(t, center)
    ensures Slots(s, center) == Slots(t, center)
  {
    forall q | 0 <= q < 4
      ensures |InQuadrant(t, center, q)| == 1
      ensures Slots(s, center)[q] == Slots(t, center)[q]
    {
      var fs := InQuadrant(s, center, q);
      var ft := InQuadrant(t, center, q);
      InQuadrantPermutation(s, t, center, q);
      assert |ft| == |multiset(ft)| == |multiset(fs)| == 1;
      assert fs == [fs[0]];
      assert ft[0] in multiset(fs);
      SlotFromQuadrant(s, center, q);
      SlotFromQuadrant(t, center, q);
    }
  }

  /**
   * `_get_points_to_transform`: a four-slot integer array, each point written
   * in input order into the slot of its quadrant.
   */
  method PointsToTransform(points: seq<Point>, center: Point) returns (dst: array<IntPoint>)
    ensures fresh(dst) && dst.Length == 4
    ensures dst[..] == Slots(points, center)
  {
    dst := new IntPoint[4](_ => IntPoint(0, 0));
    assert dst[..] == EmptySlots;
    for i := 0 to |points|
      invariant dst.Length == 4
      invariant dst[..] == Slots(points[..i], center)
    {
      var p := points[i];
      var q := CornerIndex(p, center);
      dst[q] := TruncPoint(p);
      assert points[..i + 1][..i] == points[..i];
    }
    assert points[..|points|] == points;
  }

  /** Canonical corner `k` paired with slot `k`, for each of the four slots. */
  function Pair(dst: seq<IntPoint>): (r: seq<Correspondence>)
    requires |dst| == 4
  {
    seq(4, k requires 0 <= k < 4 => Correspondence(SrcPoints[k], dst[k]))
  }

  /**
   * The src/dst correspondences `_make_transform_to_crop` estimates the
   * transform from: canonical corner `k` against slot `k`.
   */
  method MakeTransformToCrop(points: seq<Point>, center: Point) returns (pairs: seq<Correspondence>)
    ensures pairs == Pair(Slots(points, center))
    ensures |pairs| == 4
    ensures forall k :: 0 <= k < 4 ==>
              pairs[k].src == SrcPoints[k] && pairs[k].dst == Slots(points, center)[k]
  {
    var dst := PointsToTransform(points, center);
    pairs := Pair(dst[..]);
  }

  /**
   * Fixed winding: the last point of each quadrant is paired with the
   * canonical corner on the same sides, left (x = 0) exactly when it lies
   * left of the centre and top (y = 0) exactly when it lies above it.
   */
  lemma PairedWithMatchingCorner(points: seq<Point>, center: Point, k: nat)
    requires k < |points|
    requires forall j :: k < j < |points| ==>
               CornerIndex(points[j], center) != CornerIndex(points[k], center)
    ensures var c := Pair(Slots(points, center))[CornerIndex(points[k], center)];
            c.dst == TruncPoint(points[k]) &&
            (c.src.x == 0 <==> points[k].x < center.x) &&
            (c.src.y == 0 <==> points[k].y < center.y)
  {
    SlotIsLastWrite(points, center, k);
  }

  /**
   * The correspondences for a list of corner points and its own centre do not
   * depend on the order of the list, when each quadrant receives one point.
   */
  lemma PairingOrderIndependent(s: seq<Point>, t: seq<Point>)
    requires multiset(s) == multiset(t)
    requires |s| > 0
    requires OnePerQuadrant(s, Center(s).value)
    ensures |t| > 0
    ensures Pair(Slots(t, Center(t).value)) == Pair(Slots(s, Center(s).value))
  {
    assert |s| == |multiset(s)| == |multiset(t)| == |t|;
    CenterPermutation(s, t);
    SlotsOrderIndependent(s, t, Center(s).value);
  }
}
