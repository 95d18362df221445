/** Points, axis-aligned rectangles and the distances between them: the parts
    of algs4's Point2D and RectHV that the symbol tables use. */
module Geometry {

  /** A point of the plane. Coordinates are exact reals; two points are the
      same key exactly when both coordinates are equal. */
  datatype Point = Point(x: real, y: real)

  /** The closed axis-aligned rectangle [xmin, xmax] x [ymin, ymax]. */
  datatype Rect = Rect(xmin: real, ymin: real, xmax: real, ymax: real)

  /** Double.MIN_VALUE, the smallest positive double: 2^-1074. */
  const MIN_VALUE: real := 1.0 / 202402253307310618352495346718917307049556649764142118356901358027430339567995346891960383701437124495187077864316811911389808737385793476867013399940738509921517424276566361364466907742093216341239767678472745068562007483424692698618103355649159556340810056512358769552333414615230502532186327508646006263307707741093494784.0

  /** Double.MAX_VALUE, the largest finite double: (2^53 - 1) * 2^971. */
  const MAX_VALUE: real := 179769313486231570814527423731704356798070567525844996598917476803157260780028538760589558632766878171540458953514382464234321326889464182768467546703537516986049910576551282076245490090389328944075868508455133942304583236903222948165808559332123348274797826204144723168738177180919299881250404026184124858368.0

  /** A rectangle the RectHV constructor accepts: its bounds are in order. */
  predicate WellFormed(r: Rect) {
    r.xmin <= r.xmax && r.ymin <= r.ymax
  }

  /** RectHV.contains: inclusive on all four edges. */
  predicate Contains(r: Rect, p: Point) {
    r.xmin <= p.x <= r.xmax && r.ymin <= p.y <= r.ymax
  }

  /** RectHV.intersects: touching boundaries count as intersecting. */
  predicate Intersects(a: Rect, b: Rect) {
    a.xmax >= b.xmin && a.ymax >= b.ymin && b.xmax >= a.xmin && b.ymax >= a.ymin
  }

  lemma Square(a: real)
    ensures a * a >= 0.0
    ensures a != 0.0 ==> a * a > 0.0
    ensures a == 0.0 ==> a * a == 0.0
  {
    if a < 0.0 {
      assert a * a == (-a) * (-a);
      assert (-a) * (-a) > 0.0;
    } else if a > 0.0 {
      assert a * a > 0.0;
    }
  }

  /** Squaring is monotone on the non-negative reals, strictly so where the
      arguments differ. */
  lemma SquareMonotone(a: real, b: real)
    requires 0.0 <= a <= b
    ensures a * a <= b * b
    ensures a < b ==> a * a < b * b
  {
    if a < b {
      calc {
        a * a;
      <=  { assert a * (b - a) >= 0.0; }
        a * b;
      <   { assert (b - a) * b > 0.0; }
        b * b;
      }
    }
  }

  /** Point2D.distanceSquaredTo. */
  function Dist2(p: Point, q: Point): (d: real)
    ensures d >= 0.0
    ensures p == q ==> d == 0.0
  {
    var dx, dy := p.x - q.x, p.y - q.y;
    Square(dx);
    Square(dy);
    dx * dx + dy * dy
  }

  /** How far v lies outside [lo, hi], signed, as RectHV.distanceSquaredTo
      computes each axis. */
  function Gap(v: real, lo: real, hi: real): real {
    if v < lo then v - lo else if v > hi then v - hi else 0.0
  }

  /** RectHV.distanceSquaredTo: the squared distance from q to the nearest
      point of r, zero when r contains q. */
  function RectDist2(r: Rect, q: Point): (d: real)
    ensures d >= 0.0
    ensures Contains(r, q) ==> d == 0.0
  {
    var dx, dy := Gap(q.x, r.xmin, r.xmax), Gap(q.y, r.ymin, r.ymax);
    Square(dx);
    Square(dy);
    dx * dx + dy * dy
  }

  /** `r.distanceTo(q) > k`, where distanceTo is the square root of
      RectDist2, written without a square root. */
  predicate DistanceExceeds(r: Rect, q: Point, k: real) {
    k < 0.0 || RectDist2(r, q) > k * k
  }

  /** DistanceExceeds is the comparison of the true (unsquared) distance s
      with k. */
  lemma DistanceExceedsMeans(r: Rect, q: Point, k: real, s: real)
    requires s >= 0.0 && s * s == RectDist2(r, q)
    ensures DistanceExceeds(r, q, k) <==> s > k
  {
    if k >= 0.0 {
      if s > k {
        SquareMonotone(k, s);
      } else {
        SquareMonotone(s, k);
      }
    }
  }

  lemma GapBound(v: real, lo: real, hi: real, w: real)
    requires lo <= w <= hi
    ensures Gap(v, lo, hi) * Gap(v, lo, hi) <= (w - v) * (w - v)
  {
    var g := Gap(v, lo, hi);
    if v < lo {
      SquareMonotone(-g, w - v);
      assert g * g == (-g) * (-g);
    } else if v > hi {
      SquareMonotone(g, v - w);
      assert (w - v) * (w - v) == (v - w) * (v - w);
    } else {
      Square(w - v);
    }
  }

  /** No point of r is closer to q than RectDist2(r, q): the basis of every
      distance prune. */
  lemma RectDist2LowerBound(r: Rect, q: Point, k: Point)
    requires Contains(r, k)
    ensures RectDist2(r, q) <= Dist2(k, q)
  {
    GapBound(q.x, r.xmin, r.xmax, k.x);
    GapBound(q.y, r.ymin, r.ymax, k.y);
  }

  /** Two well-formed rectangles intersect exactly when some point lies in
      both: the test a range prune relies on. */
  lemma IntersectsIffCommonPoint(a: Rect, b: Rect)
    requires WellFormed(a) && WellFormed(b)
    ensures Intersects(a, b) <==> exists p :: Contains(a, p) && Contains(b, p)
  {
    if Intersects(a, b) {
      var w := Point(if a.xmin < b.xmin then b.xmin else a.xmin,
                     if a.ymin < b.ymin then b.ymin else a.ymin);
      assert Contains(a, w) && Contains(b, w);
    }
  }
}
