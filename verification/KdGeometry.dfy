// Distances between points and between a point and a box.
module KdGeometry {

  type Point = seq<real>

  function Sq(x: real): (s: real)
    ensures s >= 0.0
  {
    x * x
  }

  // Squared distance over the first k coordinates.
  ghost function DistUpto(p: Point, q: Point, k: nat): (d: real)
    requires k <= |p| && k <= |q|
    ensures d >= 0.0
  {
    if k == 0 then 0.0 else DistUpto(p, q, k - 1) + Sq(p[k - 1] - q[k - 1])
  }

  ghost function DistSq(p: Point, q: Point): (d: real)
    requires |p| == |q|
    ensures d >= 0.0
  {
    DistUpto(p, q, |p|)
  }

  // How far coordinate x is outside the interval from lo to hi, squared.
  function Outside(lo: real, hi: real, x: real): (d: real)
    ensures d >= 0.0
  {
    if x < lo then Sq(lo - x) else if x > hi then Sq(hi - x) else 0.0
  }

  ghost function BoxDistUpto(min: Point, max: Point, q: Point, k: nat): (d: real)
    requires k <= |min| && k <= |max| && k <= |q|
    ensures d >= 0.0
  {
    if k == 0 then 0.0 else BoxDistUpto(min, max, q, k - 1) + Outside(min[k - 1], max[k - 1], q[k - 1])
  }

  ghost predicate Inside(p: Point, min: Point, max: Point) {
    |p| == |min| == |max| && forall i :: 0 <= i < |p| ==> min[i] <= p[i] <= max[i]
  }

  lemma ProductSign(x: real, y: real)
    ensures x >= 0.0 && y >= 0.0 ==> x * y >= 0.0
    ensures x > 0.0 && y > 0.0 ==> x * y > 0.0
  {}

  lemma SqDifference(a: real, b: real)
    ensures Sq(b) - Sq(a) == (b - a) * (b + a)
    ensures 0.0 <= a <= b ==> Sq(a) <= Sq(b)
    ensures 0.0 <= a < b ==> Sq(a) < Sq(b)
  {
    var x, y := b - a, b + a;
    assert Sq(b) - Sq(a) == x * y;
    ProductSign(x, y);
  }

  lemma SqNegated(a: real)
    ensures Sq(-a) == Sq(a)
  {}

  lemma SqMono(a: real, b: real)
    requires 0.0 <= a <= b || b <= a <= 0.0
    ensures Sq(a) <= Sq(b)
  {
    hide Sq;
    SqNegated(a);
    SqNegated(b);
    SqDifference(a, b);
    SqDifference(-a, -b);
  }

  lemma CoordinateBound(lo: real, hi: real, x: real, p: real)
    requires lo <= p <= hi
    ensures Outside(lo, hi, x) <= Sq(p - x)
  {
    if x < lo { SqMono(lo - x, p - x); } else if x > hi { SqMono(hi - x, p - x); }
  }

  // The distance to a box is at most the distance to any point in it.
  lemma {:induction false} BoxBelowUpto(p: Point, min: Point, max: Point, q: Point, k: nat)
    requires Inside(p, min, max) && |q| == |p| && k <= |p|
    ensures BoxDistUpto(min, max, q, k) <= DistUpto(p, q, k)
  {
    if k > 0 {
      BoxBelowUpto(p, min, max, q, k - 1);
      CoordinateBound(min[k - 1], max[k - 1], q[k - 1], p[k - 1]);
    }
  }

  // One coordinate alone already gives a lower bound.
  lemma {:induction false} CoordinateBelow(p: Point, q: Point, c: nat, k: nat)
    requires |p| == |q| && c < k <= |p|
    ensures Sq(p[c] - q[c]) <= DistUpto(p, q, k)
  {
    if c < k - 1 { CoordinateBelow(p, q, c, k - 1); }
  }

  // ---------- what the distances are ----------

  lemma {:induction false} UptoMoves(p: Point, q: Point, c: nat, y: real, k: nat)
    requires |p| == |q| && c < |p| && k <= |p|
    ensures DistUpto(p[c := y], q, k) == DistUpto(p, q, k) +
      if c < k then (y - q[c]) * (y - q[c]) - (p[c] - q[c]) * (p[c] - q[c]) else 0.0
  {
    if k > 0 { UptoMoves(p, q, c, y, k - 1); }
  }

  // Moving one coordinate of p from x to y replaces the square of x - q[c] by that of y - q[c].
  lemma DistanceMoves(p: Point, q: Point, c: nat, y: real)
    requires |p| == |q| && c < |p|
    ensures DistSq(p[c := y], q) == DistSq(p, q) + (y - q[c]) * (y - q[c]) - (p[c] - q[c]) * (p[c] - q[c])
  {
    hide DistUpto;
    UptoMoves(p, q, c, y, |p|);
  }

  lemma {:induction false} UptoItself(q: Point, k: nat)
    requires k <= |q|
    ensures DistUpto(q, q, k) == 0.0
  {
    if k > 0 { UptoItself(q, k - 1); }
  }

  lemma DistanceToItself(q: Point)
    ensures DistSq(q, q) == 0.0
  {
    UptoItself(q, |q|);
  }

  // The point of the box that is closest to q.
  ghost function Clamped(min: Point, max: Point, q: Point): (p: Point)
    requires |min| == |max| == |q|
    ensures |p| == |q|
  {
    seq(|q|, i requires 0 <= i < |q| => if q[i] < min[i] then min[i] else if q[i] > max[i] then max[i] else q[i])
  }

  lemma {:induction false} UptoReached(min: Point, max: Point, q: Point, k: nat)
    requires |min| == |max| == |q| && k <= |q|
    ensures BoxDistUpto(min, max, q, k) == DistUpto(Clamped(min, max, q), q, k)
  {
    if k > 0 {
      UptoReached(min, max, q, k - 1);
      SqNegated(min[k - 1] - q[k - 1]);
    }
  }

  // The distance to a box is the distance to one of its points.
  lemma BoxDistanceIsReached(min: Point, max: Point, q: Point) returns (p: Point)
    requires |min| == |max| == |q| && forall i :: 0 <= i < |q| ==> min[i] <= max[i]
    ensures Inside(p, min, max) && BoxDistUpto(min, max, q, |q|) == DistSq(p, q)
  {
    hide DistUpto, BoxDistUpto;
    p := Clamped(min, max, q);
    UptoReached(min, max, q, |q|);
  }

  // The distance to the box of a single point is the distance to that point.
  lemma {:induction false} BoxOfPoint(p: Point, q: Point)
    requires |p| == |q|
    ensures BoxDistUpto(p, p, q, |p|) == DistSq(p, q)
  {
    UptoReached(p, p, q, |p|);
    assert Clamped(p, p, q) == p;
  }

  // Squares keep the order of non-negative numbers.
  lemma SqAtMost(a: real, b: real)
    requires 0.0 <= b && Sq(a) <= Sq(b)
    ensures -b <= a <= b
  {
    hide Sq;
    SqNegated(a);
    if a > b { SqDifference(b, a); }
    if a < -b { SqDifference(b, -a); }
  }

  lemma SqLess(a: real, b: real)
    requires 0.0 <= b && Sq(a) < Sq(b)
    ensures -b < a < b
  {
    hide Sq;
    SqAtMost(a, b);
    SqNegated(b);
  }
}
