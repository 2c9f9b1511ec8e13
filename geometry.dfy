/**
 * Points, the centre of a point list, and the classification of a point
 * into one of four quadrants around that centre.
 */
module Geometry {
  import opened Errors

  /** A point in image coordinates: x grows to the right, y grows downwards. */
  datatype Point = Point(x: real, y: real)

  /** A point held in an integer array. */
  datatype IntPoint = IntPoint(x: int, y: int)

  /** One canonical-rectangle corner and the image point it is mapped to. */
  datatype Correspondence = Correspondence(src: IntPoint, dst: IntPoint)

  /**
   * Storing a float into an integer numpy array truncates it towards zero:
   * the stored value lies between zero and the real value, less than one away.
   */
  function Trunc(r: real): (t: int)
    ensures 0.0 <= r ==> 0 <= t && t as real <= r < t as real + 1.0
    ensures r < 0.0 ==> t <= 0 && t as real - 1.0 < r <= t as real
  {
    if r >= 0.0 then r.Floor else -((-r).Floor)
  }

  function TruncPoint(p: Point): IntPoint {
    IntPoint(Trunc(p.x), Trunc(p.y))
  }

  function Add(a: Point, b: Point): Point {
    Point(a.x + b.x, a.y + b.y)
  }

  /** Reference definition: the component-wise sum of the points. */
  function Sum(ps: seq<Point>): Point
    decreases |ps|
  {
    if ps == [] then Point(0.0, 0.0) else Add(ps[0], Sum(ps[1..]))
  }

  /**
   * The fold `reduce` performs without an initial value: it starts from the
   * first point and adds the others from left to right.
   */
  function Reduce(ps: seq<Point>): Point
    requires |ps| > 0
    decreases |ps|
  {
    if |ps| == 1 then ps[0] else Add(Reduce(ps[..|ps| - 1]), ps[|ps| - 1])
  }

  lemma {:induction false} SumAppend(a: seq<Point>, b: seq<Point>)
    ensures Sum(a + b) == Add(Sum(a), Sum(b))
    decreases |a|
  {
    if a == [] {
      assert a + b == b;
    } else {
      assert (a + b)[1..] == a[1..] + b;
      SumAppend(a[1..], b);
    }
  }

  /** The left fold computes the same sum as the reference definition. */
  lemma {:induction false} ReduceIsSum(ps: seq<Point>)
    requires |ps| > 0
    ensures Reduce(ps) == Sum(ps)
    decreases |ps|
  {
    if |ps| == 1 {
      assert ps[1..] == [];
    } else {
      var n := |ps|;
      ReduceIsSum(ps[..n - 1]);
      SumAppend(ps[..n - 1], [ps[n - 1]]);
      assert [ps[n - 1]][1..] == [];
      assert ps[..n - 1] + [ps[n - 1]] == ps;
    }
  }

  /**
   * The arithmetic mean of the points. An empty list has no centre: `reduce`
   * without an initial value fails on it.
   */
  function Center(ps: seq<Point>): (r: Result<Point>)
    ensures r.Err? <==> |ps| == 0
    ensures r.Err? ==> r.error == EmptyPoints
    ensures r.Ok? ==> r.value == Point(Sum(ps).x / |ps| as real, Sum(ps).y / |ps| as real)
  {
    if |ps| == 0 then Err(EmptyPoints)
    else
      var s := Reduce(ps);
      ReduceIsSum(ps);
      Ok(Point(s.x / |ps| as real, s.y / |ps| as real))
  }

  /** `n` copies of `a` added up; equal to `n * a`, but linear to reason about. */
  function Scaled(n: nat, a: real): real {
    if n == 0 then 0.0 else a + Scaled(n - 1, a)
  }

  lemma {:induction false} ScaledIsProduct(n: nat, a: real)
    ensures Scaled(n, a) == n as real * a
  {
    if n > 0 {
      ScaledIsProduct(n - 1, a);
      assert n as real * a == (n - 1) as real * a + a;
    }
  }

  lemma {:induction false} SumBounded(ps: seq<Point>, lo: Point, hi: Point)
    requires forall i :: 0 <= i < |ps| ==> lo.x <= ps[i].x <= hi.x && lo.y <= ps[i].y <= hi.y
    ensures Scaled(|ps|, lo.x) <= Sum(ps).x <= Scaled(|ps|, hi.x)
    ensures Scaled(|ps|, lo.y) <= Sum(ps).y <= Scaled(|ps|, hi.y)
    decreases |ps|
  {
    if ps != [] {
      var tail := ps[1..];
      assert forall i :: 0 <= i < |tail| ==> tail[i] == ps[i + 1];
      SumBounded(tail, lo, hi);
      assert Sum(ps).x == ps[0].x + Sum(tail).x;
      assert Sum(ps).y == ps[0].y + Sum(tail).y;
    }
  }

  lemma DivBetween(s: real, n: real, lo: real, hi: real)
    requires n > 0.0 && n * lo <= s <= n * hi
    ensures lo <= s / n <= hi
  {
  }

  lemma MeanBetween(s: real, m: nat, lo: real, hi: real)
    requires m > 0
    requires Scaled(m, lo) <= s <= Scaled(m, hi)
    ensures lo <= s / m as real <= hi
  {
    ScaledIsProduct(m, lo);
    ScaledIsProduct(m, hi);
    DivBetween(s, m as real, lo, hi);
  }

  /** The centre lies inside every axis-aligned box that holds all the points. */
  lemma CenterInBox(ps: seq<Point>, lo: Point, hi: Point)
    requires |ps| > 0
    requires forall i :: 0 <= i < |ps| ==> lo.x <= ps[i].x <= hi.x && lo.y <= ps[i].y <= hi.y
    ensures lo.x <= Center(ps).value.x <= hi.x
    ensures lo.y <= Center(ps).value.y <= hi.y
  {
    SumBounded(ps, lo, hi);
    MeanBetween(Sum(ps).x, |ps|, lo.x, hi.x);
    MeanBetween(Sum(ps).y, |ps|, lo.y, hi.y);
  }

  /** Taking one point out of a list takes its coordinates out of the sum. */
  lemma SumRemove(t: seq<Point>, k: nat)
    requires k < |t|
    ensures Sum(t) == Add(t[k], Sum(t[..k] + t[k + 1..]))
  {
    assert t == t[..k] + ([t[k]] + t[k + 1..]);
    SumAppend(t[..k], [t[k]] + t[k + 1..]);
    assert ([t[k]] + t[k + 1..])[1..] == t[k + 1..];
    SumAppend(t[..k], t[k + 1..]);
  }

  /** The sum does not depend on the order of the points. */
  lemma {:induction false} SumPermutation(s: seq<Point>, t: seq<Point>)
    requires multiset(s) == multiset(t)
    ensures Sum(s) == Sum(t)
    decreases |s|
  {
    if s == [] {
      assert |t| == |multiset(t)| == 0;
    } else {
      var p := s[0];
      assert p in multiset(t);
      var k :| 0 <= k < |t| && t[k] == p;
      var rest := t[..k] + t[k + 1..];
      assert t == t[..k] + [p] + t[k + 1..];
      assert multiset(rest) == multiset(t) - multiset{p};
      assert s == [p] + s[1..];
      assert multiset(s[1..]) == multiset(s) - multiset{p};
      SumPermutation(s[1..], rest);
      SumRemove(t, k);
    }
  }

  /** The centre does not depend on the order of the points. */
  lemma CenterPermutation(s: seq<Point>, t: seq<Point>)
    requires multiset(s) == multiset(t)
    ensures Center(s) == Center(t)
  {
    assert |s| == |multiset(s)| == |multiset(t)| == |t|;
    SumPermutation(s, t);
    if |s| > 0 {
      ReduceIsSum(s);
      ReduceIsSum(t);
    }
  }

  // Slot numbers of the four quadrants, in the order used for the corner array.
  const UpLeft: nat := 0
  const DownLeft: nat := 1
  const DownRight: nat := 2
  const UpRight: nat := 3

  /**
   * The quadrant of `p` around `center`. A point above the centre line
   * (smaller y) is UP, anything else DOWN; a point left of it (smaller x) is
   * LEFT, anything else RIGHT. So points on a centre line go DOWN and/or RIGHT.
   */
  function CornerIndex(p: Point, center: Point): (q: nat)
    ensures q < 4
    ensures q == UpLeft <==> p.y < center.y && p.x < center.x
    ensures q == UpRight <==> p.y < center.y && p.x >= center.x
    ensures q == DownLeft <==> p.y >= center.y && p.x < center.x
    ensures q == DownRight <==> p.y >= center.y && p.x >= center.x
  {
    if p.y < center.y then
      (if p.x < center.x then UpLeft else UpRight)
    else
      (if p.x < center.x then DownLeft else DownRight)
  }

  /** Ties at the centre: the centre itself, and every point on either centre line, leans DOWN/RIGHT. */
  lemma CenterLinesGoDownRight(p: Point, center: Point)
    ensures p.x == center.x ==> CornerIndex(p, center) in {DownRight, UpRight}
    ensures p.y == center.y ==> CornerIndex(p, center) in {DownLeft, DownRight}
    ensures CornerIndex(center, center) == DownRight
  {
  }
}
