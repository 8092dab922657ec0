/** Plane geometry over the reals. The square root is a parameter: any function that yields a non-negative root of every
    non-negative number. So is std::hypot: any function that yields the length of every vector. */
module Plane {
  import opened Numbers

  datatype Point = Point(x: real, y: real, z: real)

  datatype Header = Header(frame: string, stamp: int)

  datatype Orientation = Orientation(x: real, y: real, z: real, w: real)

  datatype Pose = Pose(header: Header, position: Point, orientation: Orientation)

  /** A default-constructed stamped pose. */
  const NO_POSE := Pose(Header("", 0), Point(0.0, 0.0, 0.0), Orientation(0.0, 0.0, 0.0, 1.0))

  ghost predicate IsRoot(sqrt: real -> real) {
    forall a :: GivesRoot(sqrt, a)
  }

  ghost predicate GivesRoot(sqrt: real -> real, a: real) {
    a >= 0.0 ==> sqrt(a) >= 0.0 && sqrt(a) * sqrt(a) == a
  }

  function Square(a: real): real { Times(a, a) }

  function Hypot(sqrt: real -> real, x: real, y: real): real {
    sqrt(x * x + y * y)
  }

  ghost predicate IsHypot(hypot: (real, real) -> real) {
    forall x, y :: GivesLength(hypot, x, y)
  }

  ghost predicate GivesLength(hypot: (real, real) -> real, x: real, y: real) {
    hypot(x, y) >= 0.0 && hypot(x, y) * hypot(x, y) == x * x + y * y
  }

  function Distance(hypot: (real, real) -> real, p: Point, q: Point): real {
    hypot(q.x - p.x, q.y - p.y)
  }

  /** The point a fraction `t` of the way from `p` to `q`. */
  function Along(p: Point, q: Point, t: real): Point {
    Point(p.x + t * (q.x - p.x), p.y + t * (q.y - p.y), p.z + t * (q.z - p.z))
  }

  lemma SquaresOrder(a: real, b: real)
    requires a >= 0.0 && b >= 0.0
    ensures a < b <==> a * a < b * b
    ensures a == b <==> a * a == b * b
  {
    assert b * b - a * a == (b - a) * (b + a);
    if a < b {
      Positive(b - a, b + a);
    } else if b < a {
      Positive(a - b, b + a);
      assert (b - a) * (b + a) == -((a - b) * (b + a));
    }
  }

  lemma Positive(a: real, b: real)
    requires a > 0.0 && b > 0.0
    ensures a * b > 0.0
  {
  }

  lemma SameSign(a: real, b: real)
    requires (a > 0.0 && b > 0.0) || (a < 0.0 && b < 0.0)
    ensures Times(a, b) > 0.0
  {
    if a < 0.0 {
      assert (-a) * (-b) > 0.0;
    }
  }

  lemma SquarePositive(a: real)
    ensures Square(a) >= 0.0 && (a != 0.0 ==> Square(a) > 0.0)
  {
    if a != 0.0 {
      SameSign(a, a);
    }
  }

  lemma HypotFacts(sqrt: real -> real, x: real, y: real)
    requires IsRoot(sqrt)
    ensures Hypot(sqrt, x, y) >= 0.0
    ensures Hypot(sqrt, x, y) * Hypot(sqrt, x, y) == x * x + y * y
  {
    assert x * x >= 0.0 && y * y >= 0.0 && GivesRoot(sqrt, x * x + y * y);
  }

  /** Scaling a vector scales its length. */
  lemma HypotScaled(hypot: (real, real) -> real, x: real, y: real, t: real)
    requires IsHypot(hypot) && t >= 0.0
    ensures hypot(t * x, t * y) == t * hypot(x, y)
  {
    assert GivesLength(hypot, x, y) && GivesLength(hypot, t * x, t * y);
    var h := hypot(x, y);
    ScaledSquares(x, y, t, h);
    SquaresOrder(hypot(t * x, t * y), t * h);
  }

  lemma ScaledSquares(x: real, y: real, t: real, h: real)
    requires h * h == x * x + y * y && t >= 0.0 && h >= 0.0
    ensures (t * h) * (t * h) == (t * x) * (t * x) + (t * y) * (t * y) && t * h >= 0.0
  {
    assert (t * h) * (t * h) == (t * t) * (h * h);
    assert (t * x) * (t * x) == (t * t) * (x * x) && (t * y) * (t * y) == (t * t) * (y * y);
    assert (t * t) * (x * x + y * y) == (t * t) * (x * x) + (t * t) * (y * y);
  }

  lemma CauchySchwarz(a: real, b: real, c: real, d: real)
    ensures (a * c + b * d) * (a * c + b * d) <= (a * a + b * b) * (c * c + d * d)
  {
    var e := a * d - b * c;
    assert e * e >= 0.0;
    assert (a * a + b * b) * (c * c + d * d) == (a * c + b * d) * (a * c + b * d) + e * e;
  }

  lemma TriangleSquares(a: real, b: real, c: real, d: real, h: real, k: real)
    requires h >= 0.0 && k >= 0.0 && h * h == a * a + b * b && k * k == c * c + d * d
    ensures (a + c) * (a + c) + (b + d) * (b + d) <= (h + k) * (h + k)
  {
    var dot := a * c + b * d;
    CauchySchwarz(a, b, c, d);
    assert (h * k) * (h * k) == (h * h) * (k * k);
    if dot > h * k {
      SquaresOrder(h * k, dot);
    }
    assert (h + k) * (h + k) == h * h + 2.0 * (h * k) + k * k;
    assert (a + c) * (a + c) + (b + d) * (b + d) == a * a + b * b + 2.0 * dot + c * c + d * d;
  }

  lemma Triangle(hypot: (real, real) -> real, p: Point, q: Point, r: Point)
    requires IsHypot(hypot)
    ensures Distance(hypot, p, r) <= Distance(hypot, p, q) + Distance(hypot, q, r)
  {
    var a, b, c, d := q.x - p.x, q.y - p.y, r.x - q.x, r.y - q.y;
    assert GivesLength(hypot, a, b) && GivesLength(hypot, c, d) && GivesLength(hypot, r.x - p.x, r.y - p.y);
    TriangleSquares(a, b, c, d, hypot(a, b), hypot(c, d));
    SquaresOrder(hypot(a, b) + hypot(c, d), Distance(hypot, p, r));
  }

  /** Two points on one segment are as far apart as their fractions say. */
  lemma DistanceAlong(hypot: (real, real) -> real, p: Point, q: Point, s: real, t: real)
    requires IsHypot(hypot) && s <= t
    ensures Distance(hypot, Along(p, q, s), Along(p, q, t)) == (t - s) * Distance(hypot, p, q)
  {
    var x, y := q.x - p.x, q.y - p.y;
    var a, b := Along(p, q, s), Along(p, q, t);
    Difference(p.x, x, s, t);
    Difference(p.y, y, s, t);
    SameHypot(hypot, b.x - a.x, b.y - a.y, x, y, t - s);
  }

  lemma SameHypot(hypot: (real, real) -> real, a: real, b: real, x: real, y: real, t: real)
    requires IsHypot(hypot) && t >= 0.0 && a == t * x && b == t * y
    ensures hypot(a, b) == t * hypot(x, y)
  {
    HypotScaled(hypot, x, y, t);
  }

  lemma Difference(a: real, x: real, s: real, t: real)
    ensures (a + t * x) - (a + s * x) == (t - s) * x
  {
  }
}
