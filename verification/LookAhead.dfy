/** The look-ahead point of
    pb2025_sentry_nav/pb_omni_pid_pursuit_controller/src/omni_pid_pursuit_controller.cpp: where the path leaves the
    circle of the look-ahead radius around the robot, which sits at the origin. */
module LookAhead {
  import opened Plane

  function CopySignOne(a: real): real {
    if a >= 0.0 then 1.0 else -1.0
  }

  function SumSquares(a: real, b: real): real {
    Square(a) + Square(b)
  }

  function NormSquared(p: Point): real {
    SumSquares(p.x, p.y)
  }

  function LengthSquared(p1: Point, p2: Point): real {
    SumSquares(p2.x - p1.x, p2.y - p1.y)
  }

  function Determinant(p1: Point, p2: Point): real {
    p1.x * p2.y - p2.x * p1.y
  }

  /** What stands under the root. */
  function Discriminant(p1: Point, p2: Point, r: real): real {
    r * r * LengthSquared(p1, p2) - Determinant(p1, p2) * Determinant(p1, p2)
  }

  /** The closed formula, for the direction (dx, dy) of squared length `n`, the determinant `d`, the sign of the change
      in distance, and the square root. A default point has z = 0. */
  function Formula(dx: real, dy: real, n: real, d: real, sign: real, root: real): Point
    requires n != 0.0
  {
    Point((d * dy + sign * dx * root) / n, (-d * dx + sign * dy * root) / n, 0.0)
  }

  /** circleSegmentIntersection. */
  function CircleSegment(sqrt: real -> real, p1: Point, p2: Point, r: real): Point
    requires LengthSquared(p1, p2) != 0.0
  {
    Formula(p2.x - p1.x, p2.y - p1.y, LengthSquared(p1, p2), Determinant(p1, p2),
            CopySignOne(NormSquared(p2) - NormSquared(p1)), sqrt(Discriminant(p1, p2, r)))
  }

  /** The first pose from `i` on that is at least `dist` away from the origin, or the end. */
  function FirstFar(sqrt: real -> real, poses: seq<Pose>, dist: real, i: nat): (j: nat)
    requires i <= |poses|
    ensures i <= j <= |poses|
    ensures forall k | i <= k < j :: Hypot(sqrt, poses[k].position.x, poses[k].position.y) < dist
    ensures j < |poses| ==> Hypot(sqrt, poses[j].position.x, poses[j].position.y) >= dist
    decreases |poses| - i
  {
    if i == |poses| || Hypot(sqrt, poses[i].position.x, poses[i].position.y) >= dist then i
    else FirstFar(sqrt, poses, dist, i + 1)
  }

  // -------------------------------------------------------------- the algebra

  /** Lagrange's identity: the dot and the cross product of a point with a direction. */
  lemma DotAndCross(x: real, y: real, dx: real, dy: real)
    ensures (x * dx + y * dy) * (x * dx + y * dy) + (x * dy - y * dx) * (x * dy - y * dx) ==
            (x * x + y * y) * (dx * dx + dy * dy)
  {
  }

  /** From inside the circle to outside it the crossing lies strictly after the start and not after the end:
      `m` is the dot product of start and direction, `n` the squared length, `root` the square root. */
  lemma CrossingFraction(m: real, n: real, d1: real, d2: real, r2: real, d: real, root: real)
    requires n > 0.0 && d1 < r2 <= d2 && root >= 0.0
    requires m * m + d * d == d1 * n && (m + n) * (m + n) + d * d == d2 * n && d2 - d1 == 2.0 * m + n
    requires root * root == r2 * n - d * d
    ensures 0.0 < root - m <= n
  {
    assert (r2 - d1) * n > 0.0;
    assert root * root > m * m;
    if root <= m {
      SquaresOrder(root, m);
    }
    assert (d2 - r2) * n >= 0.0;
    assert root * root <= (m + n) * (m + n);
    assert m + n >= 0.0;
    SquaresOrder(m + n, root);
  }

  lemma DiscriminantPositive(m: real, n: real, d1: real, r2: real, d: real)
    requires n > 0.0 && d1 < r2 && m * m + d * d == d1 * n
    ensures r2 * n - d * d >= 0.0
  {
    assert (r2 - d1) * n > 0.0 && m * m >= 0.0;
  }

  /** The closed formula's coordinates are those of the point a fraction (root - m) / n along the segment. */
  lemma FormulaIsAlong(x: real, y: real, dx: real, dy: real, m: real, n: real, d: real, root: real, t: real)
    requires n == SumSquares(dx, dy) && n != 0.0 && m == x * dx + y * dy && d == x * dy - y * dx
    requires t * n == root - m
    ensures (d * dy + dx * root) / n == x + t * dx && (-d * dx + dy * root) / n == y + t * dy
  {
    assert (x + t * dx) * n == d * dy + dx * root by {
      Coordinate(x, dx, t, n, root - m);
      CoordinateX(x, y, dx, dy, root);
    }
    assert (y + t * dy) * n == -d * dx + dy * root by {
      Coordinate(y, dy, t, n, root - m);
      CoordinateY(x, y, dx, dy, root);
    }
    DivideBy(d * dy + dx * root, x + t * dx, n);
    DivideBy(-d * dx + dy * root, y + t * dy, n);
  }

  lemma Coordinate(x: real, dx: real, t: real, n: real, c: real)
    requires t * n == c
    ensures (x + t * dx) * n == x * n + c * dx
  {
    assert (x + t * dx) * n == x * n + (t * n) * dx;
  }

  lemma CoordinateX(x: real, y: real, dx: real, dy: real, root: real)
    ensures x * (dx * dx + dy * dy) + (root - (x * dx + y * dy)) * dx == (x * dy - y * dx) * dy + dx * root
  {
  }

  lemma CoordinateY(x: real, y: real, dx: real, dy: real, root: real)
    ensures y * (dx * dx + dy * dy) + (root - (x * dx + y * dy)) * dy == -(x * dy - y * dx) * dx + dy * root
  {
  }

  lemma DivideBy(a: real, b: real, n: real)
    requires n != 0.0 && b * n == a
    ensures a / n == b
  {
  }

  lemma QuotientSquares(a: real, b: real, u: real, v: real, n: real)
    requires a * n == u && b * n == v
    ensures (a * a + b * b) * (n * n) == u * u + v * v
  {
    assert (a * n) * (a * n) == (a * a) * (n * n);
    assert (b * n) * (b * n) == (b * b) * (n * n);
  }

  lemma Quotient(u: real, n: real)
    requires n != 0.0
    ensures (u / n) * n == u
  {
  }

  /** The formula's point lies on the circle. */
  lemma FormulaOnCircle(dx: real, dy: real, d: real, root: real, r: real)
    requires dx * dx + dy * dy != 0.0
    requires root * root == r * r * (dx * dx + dy * dy) - d * d
    ensures var n := dx * dx + dy * dy;
            Square((d * dy + dx * root) / n) + Square((-d * dx + dy * root) / n) == r * r
  {
    var n := dx * dx + dy * dy;
    var u, v := d * dy + dx * root, -d * dx + dy * root;
    var px, py := u / n, v / n;
    Quotient(u, n);
    Quotient(v, n);
    QuotientSquares(px, py, u, v, n);
    SumOfSquares(dx, dy, d, root);
    Cancel(Square(px) + Square(py), r * r, n, d * d + root * root);
  }

  lemma Cancel(a: real, r2: real, n: real, w: real)
    requires n != 0.0 && a * (n * n) == n * w && w == r2 * n
    ensures a == r2
  {
    assert n * w == r2 * (n * n);
    CancelSquare(a, r2, n);
  }

  lemma SumOfSquares(dx: real, dy: real, d: real, root: real)
    ensures var u, v := d * dy + dx * root, -d * dx + dy * root;
            u * u + v * v == (dx * dx + dy * dy) * (d * d + root * root)
  {
  }

  lemma CancelSquare(a: real, b: real, n: real)
    requires n != 0.0 && a * (n * n) == b * (n * n)
    ensures a == b
  {
    assert n * n != 0.0;
    assert (a - b) * (n * n) == 0.0;
  }

  // ------------------------------------------------------- circle and segment

  lemma NormOfEnd(x: real, y: real, u: real, v: real, dx: real, dy: real)
    requires u == x + dx && v == y + dy
    ensures SumSquares(u, v) - SumSquares(x, y) == 2.0 * (x * dx + y * dy) + SumSquares(dx, dy)
  {
  }

  lemma DotAtEnd(x: real, y: real, u: real, v: real, dx: real, dy: real)
    requires u == x + dx && v == y + dy
    ensures u * dx + v * dy == (x * dx + y * dy) + SumSquares(dx, dy)
    ensures u * dy - v * dx == x * dy - y * dx
  {
  }

  lemma ZeroSquares(a: real, b: real)
    requires a != 0.0 || b != 0.0
    ensures SumSquares(a, b) > 0.0
  {
    SquarePositive(a);
    SquarePositive(b);
  }

  lemma SameNorm(p1: Point, p2: Point)
    requires p1.x == p2.x && p1.y == p2.y
    ensures NormSquared(p1) == NormSquared(p2)
  {
  }

  lemma SegmentHasLength(p1: Point, p2: Point)
    requires NormSquared(p1) != NormSquared(p2)
    ensures LengthSquared(p1, p2) > 0.0
  {
    if p1.x == p2.x && p1.y == p2.y {
      SameNorm(p1, p2);
    } else {
      ZeroSquares(p2.x - p1.x, p2.y - p1.y);
    }
  }

  lemma FormulaSign(dx: real, dy: real, n: real, d: real, root: real)
    requires n != 0.0
    ensures Formula(dx, dy, n, d, 1.0, root) == Point((d * dy + dx * root) / n, (-d * dx + dy * root) / n, 0.0)
  {
    assert 1.0 * dx * root == dx * root && 1.0 * dy * root == dy * root;
  }

  // The segment from (x, y) to (u, v) along (dx, dy), with its dot product `m`, squared length `n` and determinant `d`.

  lemma FractionOfCrossing(
    x: real, y: real, u: real, v: real, dx: real, dy: real, m: real, n: real, d: real, r2: real, root: real)
    requires u == x + dx && v == y + dy && n == SumSquares(dx, dy) && n > 0.0
    requires d == x * dy - y * dx && m == x * dx + y * dy
    requires SumSquares(x, y) < r2 <= SumSquares(u, v)
    requires root >= 0.0 && root * root == r2 * n - d * d
    ensures 0.0 < root - m <= n
  {
    var d1, d2 := SumSquares(x, y), SumSquares(u, v);
    assert m * m + d * d == d1 * n by { DotAndCross(x, y, dx, dy); }
    assert (m + n) * (m + n) + d * d == d2 * n by {
      DotAtEnd(x, y, u, v, dx, dy);
      DotAndCross(u, v, dx, dy);
    }
    assert d2 - d1 == 2.0 * m + n by { NormOfEnd(x, y, u, v, dx, dy); }
    CrossingFraction(m, n, d1, d2, r2, d, root);
  }

  lemma Fraction(a: real, n: real) returns (t: real)
    requires 0.0 < a <= n
    ensures t * n == a && 0.0 < t <= 1.0
  {
    t := a / n;
  }

  lemma PointOfCrossing(x: real, y: real, dx: real, dy: real, m: real, n: real, d: real, root: real, t: real)
    requires n == SumSquares(dx, dy) && n != 0.0 && d == x * dy - y * dx && m == x * dx + y * dy
    requires t * n == root - m
    ensures Formula(dx, dy, n, d, 1.0, root) == Point(x + t * dx, y + t * dy, 0.0)
  {
    FormulaSign(dx, dy, n, d, root);
    FormulaIsAlong(x, y, dx, dy, m, n, d, root, t);
  }

  lemma CircleOfCrossing(dx: real, dy: real, n: real, d: real, r: real, root: real)
    requires n == SumSquares(dx, dy) && n != 0.0 && root * root == r * r * n - d * d
    ensures NormSquared(Formula(dx, dy, n, d, 1.0, root)) == r * r
  {
    FormulaSign(dx, dy, n, d, root);
    FormulaOnCircle(dx, dy, d, root, r);
  }

  lemma RootExists(x: real, y: real, dx: real, dy: real, n: real, d: real, r2: real)
    requires n == SumSquares(dx, dy) && n > 0.0 && d == x * dy - y * dx
    requires SumSquares(x, y) < r2
    ensures r2 * n - d * d >= 0.0
  {
    var m, d1 := x * dx + y * dy, SumSquares(x, y);
    assert m * m + d * d == d1 * n by { DotAndCross(x, y, dx, dy); }
    DiscriminantPositive(m, n, d1, r2, d);
  }

  lemma CrossProduct(p1: Point, p2: Point, dx: real, dy: real)
    requires dx == p2.x - p1.x && dy == p2.y - p1.y
    ensures Determinant(p1, p2) == p1.x * dy - p1.y * dx
  {
  }

  lemma RootOf(sqrt: real -> real, p1: Point, p2: Point, r: real, dx: real, dy: real)
    requires IsRoot(sqrt) && NormSquared(p1) < r * r && LengthSquared(p1, p2) > 0.0
    requires dx == p2.x - p1.x && dy == p2.y - p1.y
    ensures var c := Discriminant(p1, p2, r); c >= 0.0 && sqrt(c) >= 0.0 && sqrt(c) * sqrt(c) == c
  {
    CrossProduct(p1, p2, dx, dy);
    RootExists(p1.x, p1.y, dx, dy, LengthSquared(p1, p2), Determinant(p1, p2), r * r);
    assert GivesRoot(sqrt, Discriminant(p1, p2, r));
  }

  /** From strictly inside the circle to on or outside it: the discriminant is not negative, and the formula's point is
      on the circle and on the segment, after its start and not after its end. */
  lemma Crossing(sqrt: real -> real, p1: Point, p2: Point, r: real) returns (t: real)
    requires IsRoot(sqrt) && NormSquared(p1) < r * r <= NormSquared(p2)
    ensures LengthSquared(p1, p2) > 0.0 && Discriminant(p1, p2, r) >= 0.0
    ensures var p := CircleSegment(sqrt, p1, p2, r);
            0.0 < t <= 1.0 && p.x == Along(p1, p2, t).x && p.y == Along(p1, p2, t).y && NormSquared(p) == r * r
  {
    SegmentHasLength(p1, p2);
    t := CrossingOf(sqrt, p1, p2, r, p2.x - p1.x, p2.y - p1.y);
  }

  lemma CrossingOf(sqrt: real -> real, p1: Point, p2: Point, r: real, dx: real, dy: real) returns (t: real)
    requires IsRoot(sqrt) && NormSquared(p1) < r * r <= NormSquared(p2) && LengthSquared(p1, p2) > 0.0
    requires dx == p2.x - p1.x && dy == p2.y - p1.y
    ensures Discriminant(p1, p2, r) >= 0.0 && 0.0 < t <= 1.0
    ensures CircleSegment(sqrt, p1, p2, r) == Point(p1.x + t * dx, p1.y + t * dy, 0.0)
    ensures NormSquared(CircleSegment(sqrt, p1, p2, r)) == r * r
  {
    var n, d, root := LengthSquared(p1, p2), Determinant(p1, p2), sqrt(Discriminant(p1, p2, r));
    CrossProduct(p1, p2, dx, dy);
    RootOf(sqrt, p1, p2, r, dx, dy);
    assert CircleSegment(sqrt, p1, p2, r) == Formula(dx, dy, n, d, 1.0, root);
    t := CrossingFormula(p1.x, p1.y, p2.x, p2.y, r, dx, dy, n, d, root);
  }

  lemma CrossingFormula(
    x: real, y: real, u: real, v: real, r: real, dx: real, dy: real, n: real, d: real, root: real) returns (t: real)
    requires u == x + dx && v == y + dy && n == SumSquares(dx, dy) && n > 0.0 && d == x * dy - y * dx
    requires SumSquares(x, y) < r * r <= SumSquares(u, v)
    requires root >= 0.0 && root * root == r * r * n - d * d
    ensures 0.0 < t <= 1.0
    ensures var p := Formula(dx, dy, n, d, 1.0, root);
            p == Point(x + t * dx, y + t * dy, 0.0) && NormSquared(p) == r * r
  {
    var m := x * dx + y * dy;
    FractionOfCrossing(x, y, u, v, dx, dy, m, n, d, r * r, root);
    t := Fraction(root - m, n);
    PointOfCrossing(x, y, dx, dy, m, n, d, root, t);
    CircleOfCrossing(dx, dy, n, d, r, root);
  }

  /** Only one point of the segment is on the circle. */
  lemma CrossingIsUnique(p1: Point, p2: Point, r: real, s: real, t: real)
    requires NormSquared(p1) < r * r && s >= 0.0 && t >= 0.0
    requires NormSquared(Along(p1, p2, s)) == r * r == NormSquared(Along(p1, p2, t))
    ensures s == t
  {
    UniqueCrossing(p1.x, p1.y, p2.x - p1.x, p2.y - p1.y, r, s, t);
  }

  lemma UniqueCrossing(x: real, y: real, dx: real, dy: real, r: real, s: real, t: real)
    requires SumSquares(x, y) < r * r && s >= 0.0 && t >= 0.0
    requires SumSquares(x + s * dx, y + s * dy) == r * r == SumSquares(x + t * dx, y + t * dy)
    ensures s == t
  {
    var d1, m, n := SumSquares(x, y), x * dx + y * dy, SumSquares(dx, dy);
    AlongLevel(x, y, dx, dy, s, d1, m, n, r * r);
    AlongLevel(x, y, dx, dy, t, d1, m, n, r * r);
    SquarePositive(dx);
    SquarePositive(dy);
    OneRoot(d1, m, n, r * r, s, t);
  }

  lemma AlongLevel(x: real, y: real, dx: real, dy: real, t: real, d1: real, m: real, n: real, r2: real)
    requires d1 == SumSquares(x, y) && m == x * dx + y * dy && n == SumSquares(dx, dy)
    requires SumSquares(x + t * dx, y + t * dy) == r2
    ensures d1 + t * (2.0 * m + t * n) == r2
  {
    NormAlong(x, y, dx, dy, t);
  }

  lemma NormAlong(x: real, y: real, dx: real, dy: real, t: real)
    ensures SumSquares(x + t * dx, y + t * dy) ==
            SumSquares(x, y) + t * (2.0 * (x * dx + y * dy) + t * SumSquares(dx, dy))
  {
  }

  /** A quadratic that starts below a level crosses it once. */
  lemma OneRoot(d1: real, m: real, n: real, r2: real, s: real, t: real)
    requires d1 < r2 && n >= 0.0 && s >= 0.0 && t >= 0.0
    requires d1 + s * (2.0 * m + s * n) == r2 == d1 + t * (2.0 * m + t * n)
    ensures s == t
  {
    if s != t {
      var u := 2.0 * m + (s + t) * n;
      assert (s - t) * u == s * (2.0 * m + s * n) - t * (2.0 * m + t * n);
      NoZeroDivisor(s - t, u);
      assert 2.0 * m + s * n == -(t * n);
      assert s * (2.0 * m + s * n) == -(s * t * n);
      NotNegative(s, t, n);
    }
  }

  lemma NoZeroDivisor(a: real, b: real)
    requires a * b == 0.0 && a != 0.0
    ensures b == 0.0
  {
  }

  lemma NotNegative(a: real, b: real, c: real)
    requires a >= 0.0 && b >= 0.0 && c >= 0.0
    ensures a * b * c >= 0.0
  {
    assert a * b >= 0.0;
  }

  /** The formula does not care in which direction the segment is walked. */
  lemma DirectionDoesNotMatter(sqrt: real -> real, p1: Point, p2: Point, r: real)
    requires NormSquared(p1) != NormSquared(p2)
    requires LengthSquared(p1, p2) != 0.0 && LengthSquared(p2, p1) != 0.0
    ensures CircleSegment(sqrt, p1, p2, r) == CircleSegment(sqrt, p2, p1, r)
  {
    Reversed(p1, p2);
    assert Discriminant(p1, p2, r) == Discriminant(p2, p1, r);
    var dx, dy := p2.x - p1.x, p2.y - p1.y;
    ReversedFormula(p1, p2, dx, dy, sqrt(Discriminant(p1, p2, r)));
    SameDirection(sqrt, p1, p2, r, dx, dy);
  }

  lemma SameDirection(sqrt: real -> real, p1: Point, p2: Point, r: real, dx: real, dy: real)
    requires LengthSquared(p1, p2) != 0.0 && LengthSquared(p2, p1) == LengthSquared(p1, p2)
    requires Determinant(p2, p1) == -Determinant(p1, p2) && Discriminant(p1, p2, r) == Discriminant(p2, p1, r)
    requires dx == p2.x - p1.x && dy == p2.y - p1.y
    ensures CircleSegment(sqrt, p2, p1, r) ==
            Formula(-dx, -dy, LengthSquared(p1, p2), -Determinant(p1, p2),
                    CopySignOne(NormSquared(p1) - NormSquared(p2)), sqrt(Discriminant(p1, p2, r)))
    ensures CircleSegment(sqrt, p1, p2, r) ==
            Formula(dx, dy, LengthSquared(p1, p2), Determinant(p1, p2),
                    CopySignOne(NormSquared(p2) - NormSquared(p1)), sqrt(Discriminant(p1, p2, r)))
  {
    assert p1.x - p2.x == -dx && p1.y - p2.y == -dy;
  }

  lemma ReversedFormula(p1: Point, p2: Point, dx: real, dy: real, root: real)
    requires NormSquared(p1) != NormSquared(p2) && LengthSquared(p1, p2) != 0.0
    requires dx == p2.x - p1.x && dy == p2.y - p1.y
    ensures Formula(-dx, -dy, LengthSquared(p1, p2), -Determinant(p1, p2), CopySignOne(NormSquared(p1) - NormSquared(p2)), root)
            == Formula(dx, dy, LengthSquared(p1, p2), Determinant(p1, p2), CopySignOne(NormSquared(p2) - NormSquared(p1)), root)
  {
    var sign := CopySignOne(NormSquared(p2) - NormSquared(p1));
    assert CopySignOne(NormSquared(p1) - NormSquared(p2)) == -sign;
    FormulaReversed(dx, dy, LengthSquared(p1, p2), Determinant(p1, p2), sign, root);
  }

  lemma Reversed(p1: Point, p2: Point)
    ensures LengthSquared(p2, p1) == LengthSquared(p1, p2)
    ensures Determinant(p2, p1) == -Determinant(p1, p2)
    ensures Determinant(p2, p1) * Determinant(p2, p1) == Determinant(p1, p2) * Determinant(p1, p2)
  {
    var dx, dy, d := p2.x - p1.x, p2.y - p1.y, Determinant(p1, p2);
    assert p1.x - p2.x == -dx && p1.y - p2.y == -dy;
    assert (-dx) * (-dx) == dx * dx && (-dy) * (-dy) == dy * dy && (-d) * (-d) == d * d;
  }

  lemma FormulaReversed(dx: real, dy: real, n: real, d: real, sign: real, root: real)
    requires n != 0.0
    ensures Formula(-dx, -dy, n, -d, -sign, root) == Formula(dx, dy, n, d, sign, root)
  {
    assert (-d) * (-dy) == d * dy && (-(-d)) * (-dx) == (-d) * dx;
    assert (-sign) * (-dx) * root == sign * dx * root && (-sign) * (-dy) * root == sign * dy * root;
  }

  // ------------------------------------------------------ the look-ahead point

  lemma InsideAndOutside(sqrt: real -> real, p1: Point, p2: Point, dist: real)
    requires IsRoot(sqrt) && Hypot(sqrt, p1.x, p1.y) < dist <= Hypot(sqrt, p2.x, p2.y)
    ensures dist > 0.0 && NormSquared(p1) < dist * dist <= NormSquared(p2)
  {
    HypotFacts(sqrt, p1.x, p1.y);
    HypotFacts(sqrt, p2.x, p2.y);
    SquaresOrder(Hypot(sqrt, p1.x, p1.y), dist);
    SquaresOrder(Hypot(sqrt, p2.x, p2.y), dist);
  }

  /** getLookAheadPoint on a path of at least one pose (its caller has thrown on an empty plan). */
  ghost function GetLookAheadPoint(sqrt: real -> real, interpolate: bool, dist: real, poses: seq<Pose>): Pose
    requires IsRoot(sqrt) && poses != []
  {
    var j := FirstFar(sqrt, poses, dist, 0);
    if j == |poses| then poses[j - 1]
    else if interpolate && j > 0 then
      var p1, p2 := poses[j - 1].position, poses[j].position;
      InsideAndOutside(sqrt, p1, p2, dist);
      SegmentHasLength(p1, p2);
      Pose(Header(poses[j - 1].header.frame, poses[j].header.stamp), CircleSegment(sqrt, p1, p2, dist),
           NO_POSE.orientation)
    else poses[j]
  }

  lemma OnCircle(sqrt: real -> real, p: Point, dist: real)
    requires IsRoot(sqrt) && dist > 0.0 && NormSquared(p) == dist * dist
    ensures Hypot(sqrt, p.x, p.y) == dist
  {
    HypotFacts(sqrt, p.x, p.y);
    SquaresOrder(Hypot(sqrt, p.x, p.y), dist);
  }

  /** The interpolated point between two poses, the first inside the circle and the second not: exactly at the
      look-ahead distance, on the segment, and the only such point. */
  lemma InterpolatedPoint(sqrt: real -> real, p1: Point, p2: Point, dist: real) returns (t: real)
    requires IsRoot(sqrt) && Hypot(sqrt, p1.x, p1.y) < dist <= Hypot(sqrt, p2.x, p2.y)
    ensures LengthSquared(p1, p2) > 0.0 && Discriminant(p1, p2, dist) >= 0.0 && 0.0 < t <= 1.0
    ensures var p := CircleSegment(sqrt, p1, p2, dist);
            p.x == Along(p1, p2, t).x && p.y == Along(p1, p2, t).y && Hypot(sqrt, p.x, p.y) == dist
    ensures forall s | s >= 0.0 && NormSquared(Along(p1, p2, s)) == dist * dist :: s == t
  {
    InsideAndOutside(sqrt, p1, p2, dist);
    t := Crossing(sqrt, p1, p2, dist);
    OnCircle(sqrt, CircleSegment(sqrt, p1, p2, dist), dist);
    forall s | s >= 0.0 && NormSquared(Along(p1, p2, s)) == dist * dist ensures s == t {
      CrossingIsUnique(p1, p2, dist, s, t);
    }
  }

  /** Pose `j` is the first one far enough. */
  ghost predicate IsFirstFar(sqrt: real -> real, poses: seq<Pose>, dist: real, j: nat) {
    && j < |poses| && Hypot(sqrt, poses[j].position.x, poses[j].position.y) >= dist
    && forall k | 0 <= k < j :: Hypot(sqrt, poses[k].position.x, poses[k].position.y) < dist
  }

  /** When the path leaves the circle after its first pose, the interpolated point is exactly at the look-ahead
      distance, and it is the only point of the leaving segment that is. */
  lemma LookAheadIsExact(sqrt: real -> real, dist: real, poses: seq<Pose>) returns (j: nat, t: real)
    requires IsRoot(sqrt) && poses != [] && 0 < FirstFar(sqrt, poses, dist, 0) < |poses|
    ensures IsFirstFar(sqrt, poses, dist, j) && 0 < j && 0.0 < t <= 1.0
    ensures var p1, p2 := poses[j - 1].position, poses[j].position;
            var p := GetLookAheadPoint(sqrt, true, dist, poses).position;
            && p.x == Along(p1, p2, t).x && p.y == Along(p1, p2, t).y
            && Hypot(sqrt, p.x, p.y) == dist
            && (forall s | s >= 0.0 && NormSquared(Along(p1, p2, s)) == dist * dist :: s == t)
    ensures var p := GetLookAheadPoint(sqrt, true, dist, poses);
            && p.header.frame == poses[j - 1].header.frame && p.header.stamp == poses[j].header.stamp
            && p.position.z == 0.0 && p.orientation == Orientation(0.0, 0.0, 0.0, 1.0)
  {
    j := FirstFar(sqrt, poses, dist, 0);
    t := InterpolatedPoint(sqrt, poses[j - 1].position, poses[j].position, dist);
  }

  /** Without interpolation, or when the path starts outside, the point is the first pose far enough; when no pose is,
      it is the last pose. */
  lemma LookAheadOtherwise(sqrt: real -> real, interpolate: bool, dist: real, poses: seq<Pose>)
    requires IsRoot(sqrt) && poses != []
    requires interpolate ==> Hypot(sqrt, poses[0].position.x, poses[0].position.y) >= dist ||
                             forall k | 0 <= k < |poses| :: Hypot(sqrt, poses[k].position.x, poses[k].position.y) < dist
    ensures var p := GetLookAheadPoint(sqrt, interpolate, dist, poses);
            if exists k | 0 <= k < |poses| :: Hypot(sqrt, poses[k].position.x, poses[k].position.y) >= dist then
              exists j: nat :: IsFirstFar(sqrt, poses, dist, j) && p == poses[j]
            else p == poses[|poses| - 1]
  {
    var j := FirstFar(sqrt, poses, dist, 0);
    if j < |poses| {
      assert IsFirstFar(sqrt, poses, dist, j);
      assert GetLookAheadPoint(sqrt, interpolate, dist, poses) == poses[j];
    }
  }
}
