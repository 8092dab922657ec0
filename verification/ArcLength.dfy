/** Arc-length lookup along a path, from
    pb2025_sentry_nav/pb_omni_pid_pursuit_controller/src/omni_pid_pursuit_controller.cpp. */
module ArcLength {
  import opened Numbers
  import opened Plane

  /** The length of the path up to pose `i`. */
  function LengthTo(hypot: (real, real) -> real, path: seq<Pose>, i: nat): real
    requires i < |path|
  {
    if i == 0 then 0.0 else LengthTo(hypot, path, i - 1) + Distance(hypot, path[i - 1].position, path[i].position)
  }

  function Lengths(hypot: (real, real) -> real, path: seq<Pose>): (r: seq<real>)
    ensures |r| == if path == [] then 1 else |path|
  {
    if path == [] then [0.0] else seq(|path|, i requires 0 <= i < |path| => LengthTo(hypot, path, i))
  }

  /** calculateCumulativeDistances. An empty path still yields one entry. */
  method CalculateCumulativeDistances(hypot: (real, real) -> real, path: seq<Pose>) returns (distances: seq<real>)
    ensures distances == Lengths(hypot, path)
  {
    distances := [0.0];
    var i := 1;
    while i < |path|
      invariant 1 <= i && (i <= |path| || path == [])
      invariant |distances| == i && (path == [] ==> distances == [0.0])
      invariant path != [] ==> AreLengths(hypot, path, distances)
    {
      var distance := Distance(hypot, path[i - 1].position, path[i].position);
      LengthsStep(hypot, path, distances, distance);
      distances := distances + [distances[i - 1] + distance];
      i := i + 1;
    }
  }

  /** `s` holds the lengths of the first poses. */
  ghost predicate AreLengths(hypot: (real, real) -> real, path: seq<Pose>, s: seq<real>) {
    |s| <= |path| && forall k {:trigger s[k]} | 0 <= k < |s| :: s[k] == LengthTo(hypot, path, k)
  }

  lemma LengthsStep(hypot: (real, real) -> real, path: seq<Pose>, s: seq<real>, distance: real)
    requires AreLengths(hypot, path, s) && 0 < |s| < |path|
    requires distance == Distance(hypot, path[|s| - 1].position, path[|s|].position)
    ensures AreLengths(hypot, path, s + [s[|s| - 1] + distance])
  {
    assert LengthTo(hypot, path, |s|) == s[|s| - 1] + distance;
  }

  /** std::lower_bound: the first entry that is not less than the target. */
  function LowerBound(s: seq<real>, target: real): (i: nat)
    ensures i <= |s|
    ensures forall k | 0 <= k < i :: s[k] < target
    ensures i < |s| ==> s[i] >= target
  {
    if s == [] || s[0] >= target then 0 else 1 + LowerBound(s[1..], target)
  }

  function Interpolated(p: Pose, q: Pose, ratio: real): Pose {
    Pose(q.header, Along(p.position, q.position, ratio), q.orientation)
  }

  /** findPoseAtDistance; `lengths` is the result of CalculateCumulativeDistances. */
  function FindPoseAtDistance(path: seq<Pose>, lengths: seq<real>, target: real): Pose
    requires path == [] || lengths == [] || |lengths| == |path|
  {
    if path == [] || lengths == [] then NO_POSE
    else if target <= 0.0 then path[0]
    else if target >= lengths[|lengths| - 1] then path[|path| - 1]
    else
      var i := LowerBound(lengths, target);
      if i == 0 then path[0]
      else Interpolated(path[i - 1], path[i], (target - lengths[i - 1]) / (lengths[i] - lengths[i - 1]))
  }

  /** A target strictly inside the length of the path. */
  predicate Inside(hypot: (real, real) -> real, path: seq<Pose>, target: real) {
    path != [] && 0.0 < target < LengthTo(hypot, path, |path| - 1)
  }

  /** The position found on a path with the lengths calculated for it. */
  ghost function Found(hypot: (real, real) -> real, path: seq<Pose>, target: real): Point {
    FindPoseAtDistance(path, Lengths(hypot, path), target).position
  }

  lemma DistanceNotNegative(hypot: (real, real) -> real, p: Point, q: Point)
    requires IsHypot(hypot)
    ensures Distance(hypot, p, q) >= 0.0
  {
    assert GivesLength(hypot, q.x - p.x, q.y - p.y);
  }

  /** The cumulative distances never decrease, and are at least the straight-line distances. */
  lemma {:induction false} LengthsBound(hypot: (real, real) -> real, path: seq<Pose>, i: nat, j: nat)
    requires IsHypot(hypot) && i <= j < |path|
    ensures LengthTo(hypot, path, i) + Distance(hypot, path[i].position, path[j].position) <= LengthTo(hypot, path, j)
    ensures LengthTo(hypot, path, i) <= LengthTo(hypot, path, j)
    decreases j
  {
    DistanceNotNegative(hypot, path[i].position, path[j].position);
    if i == j {
      DistanceToSelf(hypot, path[i].position);
    } else {
      LengthsBound(hypot, path, i, j - 1);
      Triangle(hypot, path[i].position, path[j - 1].position, path[j].position);
    }
  }

  lemma DistanceToSelf(hypot: (real, real) -> real, p: Point)
    requires IsHypot(hypot)
    ensures Distance(hypot, p, p) == 0.0
  {
    assert GivesLength(hypot, p.x - p.x, p.y - p.y);
    var h := Distance(hypot, p, p);
    SquarePositive(h);
  }

  lemma LengthsAreSorted(hypot: (real, real) -> real, path: seq<Pose>)
    requires IsHypot(hypot)
    ensures var s := Lengths(hypot, path); s[0] == 0.0 && forall i, j | 0 <= i <= j < |s| :: s[i] <= s[j]
  {
    var s := Lengths(hypot, path);
    forall i, j | 0 <= i <= j < |s| ensures s[i] <= s[j] {
      if path != [] {
        LengthsBound(hypot, path, i, j);
      }
    }
  }

  /** Strictly inside the path the lookup lands on a segment of positive length that the target lies in. */
  lemma FoundInside(hypot: (real, real) -> real, path: seq<Pose>, target: real) returns (i: nat)
    requires Inside(hypot, path, target)
    ensures 0 < i < |path|
    ensures i == LowerBound(Lengths(hypot, path), target)
    ensures LengthTo(hypot, path, i - 1) < target <= LengthTo(hypot, path, i)
  {
    var s := Lengths(hypot, path);
    i := LowerBound(s, target);
    assert s[0] == 0.0 && s[|path| - 1] == LengthTo(hypot, path, |path| - 1);
    assert s[i] == LengthTo(hypot, path, i) && s[i - 1] == LengthTo(hypot, path, i - 1);
  }

  lemma AlongEnds(p: Point, q: Point)
    ensures Along(p, q, 0.0) == p && Along(p, q, 1.0) == q
  {
    assert 0.0 * (q.x - p.x) == 0.0 && 0.0 * (q.y - p.y) == 0.0 && 0.0 * (q.z - p.z) == 0.0;
    assert 1.0 * (q.x - p.x) == q.x - p.x && 1.0 * (q.y - p.y) == q.y - p.y && 1.0 * (q.z - p.z) == q.z - p.z;
  }

  /** A fraction of a segment, measured from both ends. */
  lemma OnSegment(hypot: (real, real) -> real, p: Point, q: Point, t: real, whole: real, part: real)
    requires IsHypot(hypot) && 0.0 <= t <= 1.0 && whole == Distance(hypot, p, q) && t * whole == part
    ensures Distance(hypot, p, Along(p, q, t)) == part
    ensures Distance(hypot, Along(p, q, t), q) == whole - part
  {
    AlongEnds(p, q);
    DistanceAlong(hypot, p, q, 0.0, t);
    DistanceAlong(hypot, p, q, t, 1.0);
    OneMinus(t, Distance(hypot, p, q));
  }

  lemma OneMinus(t: real, h: real)
    ensures (1.0 - t) * h == h - t * h && (t - 0.0) * h == t * h
  {
  }

  lemma Interpolates(path: seq<Pose>, lengths: seq<real>, target: real, i: nat, ratio: real)
    requires |lengths| == |path| > 0 && 0.0 < target < lengths[|path| - 1]
    requires i == LowerBound(lengths, target) && 0 < i < |path|
    requires ratio * (lengths[i] - lengths[i - 1]) == target - lengths[i - 1]
    ensures FindPoseAtDistance(path, lengths, target) == Interpolated(path[i - 1], path[i], ratio)
  {
    Quotient(target - lengths[i - 1], lengths[i] - lengths[i - 1], ratio);
  }

  lemma Quotient(a: real, b: real, q: real)
    requires b != 0.0 && q * b == a
    ensures a / b == q
  {
  }

  /** Inside the path the lookup never divides by zero, and interpolates with the ratio of the rest of the target to the
      segment. */
  lemma FoundRatio(path: seq<Pose>, lengths: seq<real>, target: real, i: nat, whole: real, part: real)
    returns (ratio: real)
    requires |lengths| == |path| > 0 && 0.0 < target < lengths[|path| - 1]
    requires i == LowerBound(lengths, target) && 0 < i < |path|
    requires whole == lengths[i] - lengths[i - 1] && part == target - lengths[i - 1]
    ensures 0.0 < ratio <= 1.0 && Times(ratio, whole) == part
    ensures FindPoseAtDistance(path, lengths, target) == Interpolated(path[i - 1], path[i], ratio)
  {
    ratio := Fraction(part, whole);
    Interpolates(path, lengths, target, i, ratio);
  }

  lemma Fraction(a: real, b: real) returns (q: real)
    requires 0.0 < a <= b
    ensures 0.0 < q <= 1.0 && q * b == a
  {
    q := a / b;
  }

  /** The point a fraction of a segment along lies at the arc length up to the segment plus that part of it. */
  lemma PlaceOnSegment(hypot: (real, real) -> real, path: seq<Pose>, c: real, i: nat,
                       ratio: real, whole: real, part: real)
    requires IsHypot(hypot) && 0 < i < |path| && 0.0 <= ratio <= 1.0
    requires whole == Distance(hypot, path[i - 1].position, path[i].position) && Times(ratio, whole) == part
    requires c == LengthTo(hypot, path, i - 1) + part
    requires LengthTo(hypot, path, i) == LengthTo(hypot, path, i - 1) + whole
    ensures After(hypot, path, c, i - 1, Along(path[i - 1].position, path[i].position, ratio))
    ensures Before(hypot, path, c, i, Along(path[i - 1].position, path[i].position, ratio))
  {
    OnSegment(hypot, path[i - 1].position, path[i].position, ratio, whole, part);
  }

  /** The returned point is exactly the rest of the target away from the pose before it and exactly what is missing
      away from the pose after it, along their segment. */
  lemma FoundAtDistance(hypot: (real, real) -> real, path: seq<Pose>, target: real) returns (i: nat, ratio: real)
    requires IsHypot(hypot) && Inside(hypot, path, target)
    ensures i == LowerBound(Lengths(hypot, path), target) && 0 < i < |path| && 0.0 < ratio <= 1.0
    ensures Found(hypot, path, target) == Along(path[i - 1].position, path[i].position, ratio)
    ensures After(hypot, path, target, i - 1, Found(hypot, path, target))
    ensures Before(hypot, path, target, i, Found(hypot, path, target))
  {
    var whole, part;
    i, ratio, whole, part := FoundOnSegment(hypot, path, target);
    PlaceOnSegment(hypot, path, target, i, ratio, whole, part);
  }

  lemma FoundOnSegment(hypot: (real, real) -> real, path: seq<Pose>, target: real)
    returns (i: nat, ratio: real, whole: real, part: real)
    requires Inside(hypot, path, target)
    ensures 0 < i < |path| && 0.0 < ratio <= 1.0
    ensures i == LowerBound(Lengths(hypot, path), target)
    ensures whole == Distance(hypot, path[i - 1].position, path[i].position) > 0.0 && Times(ratio, whole) == part
    ensures target == LengthTo(hypot, path, i - 1) + part
    ensures LengthTo(hypot, path, i) == LengthTo(hypot, path, i - 1) + whole
    ensures Found(hypot, path, target) == Along(path[i - 1].position, path[i].position, ratio)
  {
    i := FoundInside(hypot, path, target);
    whole, part := LengthTo(hypot, path, i) - LengthTo(hypot, path, i - 1), target - LengthTo(hypot, path, i - 1);
    ratio := FoundRatio(path, Lengths(hypot, path), target, i, whole, part);
  }

  /** Outside the path the whole pose found is the first or the last one, on an empty path a default one. */
  lemma FoundOutside(hypot: (real, real) -> real, path: seq<Pose>, target: real)
    requires !Inside(hypot, path, target)
    ensures var p := FindPoseAtDistance(path, Lengths(hypot, path), target);
            if path == [] then p.position == Point(0.0, 0.0, 0.0) && p.orientation == Orientation(0.0, 0.0, 0.0, 1.0)
            else p == if target <= 0.0 then path[0] else path[|path| - 1]
  {
    if path != [] {
      assert Lengths(hypot, path)[|path| - 1] == LengthTo(hypot, path, |path| - 1);
      PoseAtEnd(path, Lengths(hypot, path), target);
    }
  }

  lemma PoseAtEnd(path: seq<Pose>, lengths: seq<real>, target: real)
    requires |lengths| == |path| > 0 && !(0.0 < target < lengths[|path| - 1])
    ensures FindPoseAtDistance(path, lengths, target) == if target <= 0.0 then path[0] else path[|path| - 1]
  {
  }

  /** Inside it has the header and the orientation of the pose that ends the segment of the target. */
  lemma FoundBehind(hypot: (real, real) -> real, path: seq<Pose>, target: real) returns (i: nat)
    requires Inside(hypot, path, target)
    ensures 0 < i < |path|
    ensures LengthTo(hypot, path, i - 1) < target <= LengthTo(hypot, path, i)
    ensures var p := FindPoseAtDistance(path, Lengths(hypot, path), target);
            p.header == path[i].header && p.orientation == path[i].orientation
  {
    i := FoundInside(hypot, path, target);
    assert Lengths(hypot, path)[|path| - 1] == LengthTo(hypot, path, |path| - 1);
    PoseBehind(path, Lengths(hypot, path), target, i);
  }

  lemma PoseBehind(path: seq<Pose>, lengths: seq<real>, target: real, i: nat)
    requires |lengths| == |path| > 0 && 0.0 < target < lengths[|path| - 1]
    requires i == LowerBound(lengths, target) && 0 < i < |path|
    ensures var p := FindPoseAtDistance(path, lengths, target);
            p.header == path[i].header && p.orientation == path[i].orientation
  {
  }

  // ------------------------------------------------ the lookup never jumps

  /** `p` lies at arc length `c`, its rest past pose `i` in a straight line. */
  ghost predicate After(hypot: (real, real) -> real, path: seq<Pose>, c: real, i: nat, p: Point) {
    i < |path| && LengthTo(hypot, path, i) + Distance(hypot, path[i].position, p) == c
  }

  /** `p` lies at arc length `c`, a straight line short of pose `i`. */
  ghost predicate Before(hypot: (real, real) -> real, path: seq<Pose>, c: real, i: nat, p: Point) {
    i < |path| && c + Distance(hypot, p, path[i].position) == LengthTo(hypot, path, i)
  }

  /** Two places with a pose between them are no further apart than the arc. */
  lemma ArcBound(hypot: (real, real) -> real, path: seq<Pose>, s: real, t: real, i: nat, j: nat, p: Point, q: Point)
    requires IsHypot(hypot) && Before(hypot, path, s, i, p) && After(hypot, path, t, j, q) && i <= j
    ensures Distance(hypot, p, q) <= t - s
  {
    LengthsBound(hypot, path, i, j);
    Triangle(hypot, p, path[i].position, path[j].position);
    Triangle(hypot, p, path[j].position, q);
  }

  /** The target clamped to the path. */
  function Clamped(hypot: (real, real) -> real, path: seq<Pose>, target: real): real
    requires path != []
  {
    var total := LengthTo(hypot, path, |path| - 1);
    if target <= 0.0 then 0.0 else if target >= total then total else target
  }

  /** The poses a target is found between; both are the end of the path when it lies outside. */
  predicate PlaceIndex(hypot: (real, real) -> real, path: seq<Pose>, target: real, i: nat, j: nat)
    requires path != []
  {
    if Inside(hypot, path, target) then j == LowerBound(Lengths(hypot, path), target) < |path| && j == i + 1
    else i == j == if target <= 0.0 then 0 else |path| - 1
  }

  /** Where a target is found: between the poses `i` (after it) and `j` (before it). */
  lemma Place(hypot: (real, real) -> real, path: seq<Pose>, target: real) returns (i: nat, j: nat)
    requires IsHypot(hypot) && path != []
    ensures After(hypot, path, Clamped(hypot, path, target), i, Found(hypot, path, target))
    ensures Before(hypot, path, Clamped(hypot, path, target), j, Found(hypot, path, target))
    ensures PlaceIndex(hypot, path, target, i, j)
  {
    var n := |path| - 1;
    assert Lengths(hypot, path)[n] == LengthTo(hypot, path, n);
    if Inside(hypot, path, target) {
      var k, ratio := FoundAtDistance(hypot, path, target);
      i, j := k - 1, k;
    } else {
      i := if target <= 0.0 then 0 else n;
      j := i;
      FoundAtEnd(hypot, path, target, i);
    }
  }

  lemma FoundAtEnd(hypot: (real, real) -> real, path: seq<Pose>, target: real, i: nat)
    requires IsHypot(hypot) && path != [] && !Inside(hypot, path, target)
    requires i == if target <= 0.0 then 0 else |path| - 1
    ensures Found(hypot, path, target) == path[i].position
    ensures After(hypot, path, Clamped(hypot, path, target), i, path[i].position)
    ensures Before(hypot, path, Clamped(hypot, path, target), i, path[i].position)
  {
    FoundOutside(hypot, path, target);
    AtPose(hypot, path, i, Clamped(hypot, path, target));
  }

  lemma AtPose(hypot: (real, real) -> real, path: seq<Pose>, i: nat, c: real)
    requires IsHypot(hypot) && i < |path| && c == LengthTo(hypot, path, i)
    ensures After(hypot, path, c, i, path[i].position) && Before(hypot, path, c, i, path[i].position)
  {
    DistanceToSelf(hypot, path[i].position);
  }

  lemma SameSegment(hypot: (real, real) -> real, path: seq<Pose>, s: real, t: real)
    requires IsHypot(hypot) && Inside(hypot, path, s) && Inside(hypot, path, t) && s <= t
    requires LowerBound(Lengths(hypot, path), s) == LowerBound(Lengths(hypot, path), t)
    ensures Distance(hypot, Found(hypot, path, s), Found(hypot, path, t)) == t - s
  {
    var i := FoundInside(hypot, path, s);
    var whole := LengthTo(hypot, path, i) - LengthTo(hypot, path, i - 1);
    var u, v := TwoOnSegment(path, Lengths(hypot, path), s, t, i, whole);
    Apart(hypot, path[i - 1].position, path[i].position, u, v, whole, t - s,
          Found(hypot, path, s), Found(hypot, path, t));
  }

  lemma TwoOnSegment(path: seq<Pose>, lengths: seq<real>, s: real, t: real, i: nat, whole: real)
    returns (u: real, v: real)
    requires |lengths| == |path| > 0 && 0.0 < s <= t < lengths[|path| - 1]
    requires i == LowerBound(lengths, s) == LowerBound(lengths, t) && 0 < i < |path|
    requires whole == lengths[i] - lengths[i - 1]
    ensures u <= v && Times(v - u, whole) == t - s
    ensures FindPoseAtDistance(path, lengths, s) == Interpolated(path[i - 1], path[i], u)
    ensures FindPoseAtDistance(path, lengths, t) == Interpolated(path[i - 1], path[i], v)
  {
    u := FoundRatio(path, lengths, s, i, whole, s - lengths[i - 1]);
    v := FoundRatio(path, lengths, t, i, whole, t - lengths[i - 1]);
    RatioOrder(s - lengths[i - 1], t - lengths[i - 1], whole, u, v);
  }

  lemma RatioOrder(a: real, b: real, h: real, u: real, v: real)
    requires h > 0.0 && a <= b && Times(u, h) == a && Times(v, h) == b
    ensures u <= v && Times(v - u, h) == b - a
  {
    if u > v {
      Positive(u - v, h);
    }
  }

  lemma Apart(hypot: (real, real) -> real, p: Point, q: Point, u: real, v: real, whole: real, gap: real,
              x: Point, y: Point)
    requires IsHypot(hypot) && u <= v && whole == Distance(hypot, p, q) && Times(v - u, whole) == gap
    requires x == Along(p, q, u) && y == Along(p, q, v)
    ensures Distance(hypot, x, y) == gap
  {
    DistanceAlong(hypot, p, q, u, v);
  }

  lemma LowerBoundsInOrder(s: seq<real>, a: real, b: real)
    requires a <= b
    ensures LowerBound(s, a) <= LowerBound(s, b)
  {
  }

  /** Moving the target by some arc length moves the point found by at most that distance: the lookup is continuous
      along the whole path, across poses and at both ends. */
  lemma LookupIsContinuous(hypot: (real, real) -> real, path: seq<Pose>, s: real, t: real)
    requires IsHypot(hypot) && path != [] && s <= t
    ensures Distance(hypot, Found(hypot, path, s), Found(hypot, path, t))
            <= Clamped(hypot, path, t) - Clamped(hypot, path, s) <= t - s
  {
    LengthsBound(hypot, path, 0, |path| - 1);
    var i, j := Place(hypot, path, s);
    var k, l := Place(hypot, path, t);
    if j <= k {
      ArcBound(hypot, path, Clamped(hypot, path, s), Clamped(hypot, path, t), j, k,
               Found(hypot, path, s), Found(hypot, path, t));
    } else {
      PlacesMeet(hypot, path, s, t, i, j, k, l);
      SameSegment(hypot, path, s, t);
    }
  }

  /** Places with no pose between them lie on one segment. */
  lemma PlacesMeet(hypot: (real, real) -> real, path: seq<Pose>, s: real, t: real, i: nat, j: nat, k: nat, l: nat)
    requires path != [] && s <= t && k < j
    requires PlaceIndex(hypot, path, s, i, j) && PlaceIndex(hypot, path, t, k, l)
    ensures Inside(hypot, path, s) && Inside(hypot, path, t)
    ensures LowerBound(Lengths(hypot, path), s) == LowerBound(Lengths(hypot, path), t)
  {
    LowerBoundsInOrder(Lengths(hypot, path), s, t);
  }
}
