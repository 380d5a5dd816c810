/** Turning a vehicle's chevron along its route: the nearest segment of a polyline to a point,
    and the rotation it gives. Coordinates are real numbers; the trigonometry of the bearing is a
    parameter. */
module NearestSegment {
  import opened Prelude

  datatype Point = Point(x: real, y: real)

  function Square(a: real): (s: real)
    ensures s >= 0.0
  {
    a * a
  }

  function DistanceSq(p: Point, q: Point): real {
    Square(p.x - q.x) + Square(p.y - q.y)
  }

  function Minus(p: Point, q: Point): Point {
    Point(p.x - q.x, p.y - q.y)
  }

  function Dot(p: Point, q: Point): real {
    p.x * q.x + p.y * q.y
  }

  /** The point a fraction t of the way from a to b. */
  function Along(a: Point, b: Point, t: real): Point {
    var ab := Minus(b, a);
    Point(a.x + t * ab.x, a.y + t * ab.y)
  }

  function Clamp(t: real): real {
    if t < 0.0 then 0.0 else if t > 1.0 then 1.0 else t
  }

  /** Below this squared length a segment counts as its first point. */
  const DEGENERATE: real := 0.0000000000000000000001

  predicate IsLong(a: Point, b: Point) {
    Dot(Minus(b, a), Minus(b, a)) >= 0.0000000000000000000001
  }

  function DistanceSqPointToSegmentPlanar(p: Point, a: Point, b: Point): real {
    var ab, ap := Minus(b, a), Minus(p, a);
    var abLenSq := Dot(ab, ab);
    if abLenSq < DEGENERATE then DistanceSq(p, a)
    else DistanceSq(p, Along(a, b, Clamp(Dot(ap, ab) / abLenSq)))
  }

  // ---------- the clamped projection is the nearest point ----------

  /** What a squared distance u - foot along the line adds to the squared distance at the foot. */
  function Rise(len: real, offFoot: real, foot: real): real {
    len * (offFoot - foot)
  }

  /** Along a line the squared distance is a parabola with its bottom at the foot of the
      perpendicular. */
  lemma Parabola(apx: real, apy: real, abx: real, aby: real, len: real, foot: real, u: real)
    requires len == abx * abx + aby * aby
    requires foot * len == apx * abx + apy * aby
    ensures Square(apx - u * abx) + Square(apy - u * aby)
         == Square(apx) + Square(apy) + Rise(len, Square(u - foot), Square(foot))
  {
    assert Square(apx - u * abx) == apx * apx - 2.0 * u * (apx * abx) + u * u * (abx * abx);
    assert Square(apy - u * aby) == apy * apy - 2.0 * u * (apy * aby) + u * u * (aby * aby);
    assert u * u * (abx * abx) + u * u * (aby * aby) == u * u * len;
    assert 2.0 * u * (apx * abx) + 2.0 * u * (apy * aby) == 2.0 * u * (foot * len);
    assert Square(u - foot) - Square(foot) == u * u - 2.0 * u * foot;
    assert len * (u * u - 2.0 * u * foot) == u * u * len - 2.0 * u * (foot * len);
  }

  lemma ProductIsNotNegative(a: real, b: real)
    requires a >= 0.0 && b >= 0.0
    ensures a * b >= 0.0
  {
  }

  lemma RiseGrows(len: real, near: real, far: real, foot: real)
    requires len >= 0.0 && near <= far
    ensures Rise(len, near, foot) <= Rise(len, far, foot)
  {
    ProductIsNotNegative(len, far - near);
    assert len * (far - near) == Rise(len, far, foot) - Rise(len, near, foot);
  }

  lemma SquareGrows(a: real, b: real)
    requires 0.0 <= a <= b
    ensures Square(a) <= Square(b)
  {
    ProductIsNotNegative(b - a, b + a);
    assert Square(b) - Square(a) == (b - a) * (b + a);
  }

  lemma ClampIsNearest(foot: real, u: real)
    requires 0.0 <= u <= 1.0
    ensures Square(Clamp(foot) - foot) <= Square(u - foot)
  {
    var t := Clamp(foot);
    if foot < 0.0 {
      SquareGrows(t - foot, u - foot);
    } else if foot > 1.0 {
      SquareGrows(foot - t, foot - u);
      assert Square(t - foot) == Square(foot - t) && Square(u - foot) == Square(foot - u);
    }
  }

  lemma EqualProducts(u: real, x: real, y: real)
    requires x == y
    ensures u * x == u * y
  {
  }

  /** The squared distance from (apx, apy) to a fraction u of (abx, aby). */
  function FromOrigin(apx: real, apy: real, abx: real, aby: real, u: real): real {
    Square(apx - u * abx) + Square(apy - u * aby)
  }

  lemma DistanceAlong(p: Point, a: Point, b: Point, u: real)
    ensures DistanceSq(p, Along(a, b, u)) == FromOrigin(p.x - a.x, p.y - a.y, b.x - a.x, b.y - a.y, u)
  {
    var abx, aby := b.x - a.x, b.y - a.y;
    EqualProducts(u, abx, b.x - a.x);
    EqualProducts(u, aby, b.y - a.y);
    assert p.x - Along(a, b, u).x == (p.x - a.x) - u * abx;
    assert p.y - Along(a, b, u).y == (p.y - a.y) - u * aby;
  }

  lemma ClampedFootIsNearest(apx: real, apy: real, abx: real, aby: real, foot: real, u: real)
    requires foot * (abx * abx + aby * aby) == apx * abx + apy * aby
    requires 0.0 <= u <= 1.0
    ensures FromOrigin(apx, apy, abx, aby, Clamp(foot)) <= FromOrigin(apx, apy, abx, aby, u)
  {
    var t, len := Clamp(foot), abx * abx + aby * aby;
    assert len == Square(abx) + Square(aby);
    Parabola(apx, apy, abx, aby, len, foot, u);
    Parabola(apx, apy, abx, aby, len, foot, t);
    hide Square, Rise, Clamp;
    ClampIsNearest(foot, u);
    RiseGrows(len, Square(t - foot), Square(u - foot), Square(foot));
  }

  /** No point of the segment is closer than the clamped projection. */
  lemma ProjectionIsNearest(p: Point, a: Point, b: Point, foot: real, u: real)
    requires foot * Dot(Minus(b, a), Minus(b, a)) == Dot(Minus(p, a), Minus(b, a))
    requires 0.0 <= u <= 1.0
    ensures DistanceSq(p, Along(a, b, Clamp(foot))) <= DistanceSq(p, Along(a, b, u))
  {
    hide DistanceSq, Along, Square, Clamp, FromOrigin;
    DistanceAlong(p, a, b, u);
    DistanceAlong(p, a, b, Clamp(foot));
    ClampedFootIsNearest(p.x - a.x, p.y - a.y, b.x - a.x, b.y - a.y, foot, u);
  }

  lemma DivideThenMultiply(x: real, y: real)
    requires y != 0.0
    ensures x / y * y == x
  {
  }

  /** On a segment above the threshold the result is the minimum of the squared distance over the
      whole segment: the point at t attains it and none is closer. */
  lemma ProjectionAttainsMinimum(p: Point, a: Point, b: Point) returns (t: real)
    requires IsLong(a, b)
    ensures 0.0 <= t <= 1.0 && DistanceSqPointToSegmentPlanar(p, a, b) == DistanceSq(p, Along(a, b, t))
    ensures forall u :: 0.0 <= u <= 1.0 ==> DistanceSqPointToSegmentPlanar(p, a, b) <= DistanceSq(p, Along(a, b, u))
  {
    hide DistanceSq, Along, Dot, Minus;
    var dot, len := Dot(Minus(p, a), Minus(b, a)), Dot(Minus(b, a), Minus(b, a));
    t := Clamp(dot / len);
    DivideThenMultiply(dot, len);
    forall u | 0.0 <= u <= 1.0
      ensures DistanceSqPointToSegmentPlanar(p, a, b) <= DistanceSq(p, Along(a, b, u))
    {
      ProjectionIsNearest(p, a, b, dot / len, u);
    }
  }

  /** Whether the squared distance the code computes is the minimum over the segment. */
  ghost predicate IsMinimum(p: Point, a: Point, b: Point) {
    forall u :: 0.0 <= u <= 1.0 ==> DistanceSqPointToSegmentPlanar(p, a, b) <= DistanceSq(p, Along(a, b, u))
  }

  function Product(a: real, b: real): real {
    a * b
  }

  lemma ProductIsPositive(a: real, b: real)
    requires a > 0.0 && b > 0.0
    ensures Product(a, b) > 0.0
  {
  }

  lemma SquareIsPositive(a: real)
    requires a != 0.0
    ensures Square(a) > 0.0
  {
    if a > 0.0 {
      ProductIsPositive(a, a);
      assert Square(a) == Product(a, a);
    } else {
      ProductIsPositive(-a, -a);
      assert Square(a) == Product(-a, -a);
    }
  }

  lemma RiseGrowsStrictly(len: real, near: real, far: real, foot: real)
    requires len > 0.0 && near < far
    ensures Rise(len, near, foot) < Rise(len, far, foot)
  {
    ProductIsPositive(len, far - near);
    assert Product(len, far - near) == Rise(len, far, foot) - Rise(len, near, foot);
  }

  lemma ClampIsCloserThanStart(foot: real)
    requires foot > 0.0
    ensures Square(Clamp(foot) - foot) < Square(0.0 - foot)
  {
    if foot <= 1.0 {
      SquareIsPositive(0.0 - foot);
    } else {
      assert Square(1.0 - foot) == 1.0 - 2.0 * foot + foot * foot;
    }
  }

  lemma PositiveDotMeansLength(apx: real, apy: real, abx: real, aby: real, len: real)
    requires apx * abx + apy * aby > 0.0 && len == abx * abx + aby * aby
    ensures len > 0.0
  {
    assert len == Square(abx) + Square(aby);
    if abx == 0.0 && aby == 0.0 {
      EqualProducts(apx, abx, 0.0);
      EqualProducts(apy, aby, 0.0);
    } else {
      SquareIsPositive(if abx == 0.0 then aby else abx);
    }
  }

  lemma QuotientIsPositive(dot: real, len: real)
    requires dot > 0.0 && len > 0.0
    ensures dot / len > 0.0
  {
  }

  lemma FootIsCloser(apx: real, apy: real, abx: real, aby: real, len: real, foot: real)
    requires len == abx * abx + aby * aby && len > 0.0 && foot > 0.0
    requires foot * len == apx * abx + apy * aby
    ensures FromOrigin(apx, apy, abx, aby, Clamp(foot)) < FromOrigin(apx, apy, abx, aby, 0.0)
  {
    var t := Clamp(foot);
    Parabola(apx, apy, abx, aby, len, foot, t);
    Parabola(apx, apy, abx, aby, len, foot, 0.0);
    hide Square, Rise, Clamp;
    ClampIsCloserThanStart(foot);
    RiseGrowsStrictly(len, Square(t - foot), Square(0.0 - foot), Square(foot));
  }

  lemma SomePointIsCloser(apx: real, apy: real, abx: real, aby: real) returns (u: real)
    requires apx * abx + apy * aby > 0.0
    ensures 0.0 <= u <= 1.0 && FromOrigin(apx, apy, abx, aby, u) < FromOrigin(apx, apy, abx, aby, 0.0)
  {
    hide FromOrigin;
    var len, dot := abx * abx + aby * aby, apx * abx + apy * aby;
    PositiveDotMeansLength(apx, apy, abx, aby, len);
    DivideThenMultiply(dot, len);
    QuotientIsPositive(dot, len);
    FootIsCloser(apx, apy, abx, aby, len, dot / len);
    u := Clamp(dot / len);
  }

  /** Below the threshold the code measures to the first point. That is still the minimum exactly
      when the point does not lie ahead of it. */
  lemma IsMinimumIff(p: Point, a: Point, b: Point)
    ensures IsMinimum(p, a, b) <==> IsLong(a, b) || Dot(Minus(p, a), Minus(b, a)) <= 0.0
  {
    if IsLong(a, b) {
      var _ := ProjectionAttainsMinimum(p, a, b);
    } else if Dot(Minus(p, a), Minus(b, a)) <= 0.0 {
      forall u | 0.0 <= u <= 1.0 ensures DistanceSq(p, a) <= DistanceSq(p, Along(a, b, u)) {
        BehindIsFarther(p, a, b, u);
      }
    } else {
      DistanceAlong(p, a, b, 0.0);
      var u := SomePointIsCloser(p.x - a.x, p.y - a.y, b.x - a.x, b.y - a.y);
      DistanceAlong(p, a, b, u);
      assert DistanceSq(p, Along(a, b, u)) < DistanceSq(p, a);
    }
  }

  lemma SquareOfStep(x: real, y: real, u: real)
    ensures Square(x - u * y) >= Square(x) - 2.0 * (u * (x * y))
  {
    var step := u * y;
    assert Square(x - step) == Square(x) - 2.0 * (x * step) + Square(step);
    assert x * step == u * (x * y);
  }

  lemma BehindGrows(apx: real, apy: real, abx: real, aby: real, u: real)
    requires apx * abx + apy * aby <= 0.0 && 0.0 <= u
    ensures Square(apx) + Square(apy) <= FromOrigin(apx, apy, abx, aby, u)
  {
    hide Square;
    var dot := apx * abx + apy * aby;
    SquareOfStep(apx, abx, u);
    SquareOfStep(apy, aby, u);
    ProductIsNotNegative(u, -dot);
    assert u * (apx * abx) + u * (apy * aby) == -(u * -dot);
  }

  lemma BehindIsFarther(p: Point, a: Point, b: Point, u: real)
    requires Dot(Minus(p, a), Minus(b, a)) <= 0.0 && 0.0 <= u
    ensures DistanceSq(p, a) <= DistanceSq(p, Along(a, b, u))
  {
    hide FromOrigin, Along, Square;
    DistanceAlong(p, a, b, u);
    BehindGrows(p.x - a.x, p.y - a.y, b.x - a.x, b.y - a.y, u);
  }

  /** Any segment below the threshold is missed from its far end. */
  lemma ShortSegmentIsMissed(a: Point, b: Point)
    requires 0.0 < Dot(Minus(b, a), Minus(b, a)) < DEGENERATE
    ensures !IsMinimum(b, a, b)
  {
    hide IsMinimum, Dot;
    IsMinimumIff(b, a, b);
  }

  /** For example, one a trillionth of a degree long. */
  lemma TrillionthIsMissed()
    ensures !IsMinimum(Point(0.000000000001, 0.0), Point(0.0, 0.0), Point(0.000000000001, 0.0))
  {
    hide IsMinimum;
    ShortSegmentIsMissed(Point(0.0, 0.0), Point(0.000000000001, 0.0));
  }

  // ---------- the nearest segment of a polyline ----------

  /** Longitude is shrunk by k, the cosine of the vehicle's latitude. */
  function Scaled(p: Point, k: real): Point {
    Point(p.x * k, p.y)
  }

  function SegmentDistance(line: seq<Point>, vehicle: Point, k: real, i: nat): real
    requires i + 1 < |line|
  {
    DistanceSqPointToSegmentPlanar(Point(vehicle.x * k, vehicle.y), Point(line[i].x * k, line[i].y),
                                   Point(line[i + 1].x * k, line[i + 1].y))
  }

  lemma SegmentDistanceIs(line: seq<Point>, vehicle: Point, k: real, i: nat)
    requires i + 1 < |line|
    ensures DistanceSqPointToSegmentPlanar(Scaled(vehicle, k), Scaled(line[i], k), Scaled(line[i + 1], k))
         == SegmentDistance(line, vehicle, k, i)
  {
  }

  /** i is the first of the segments nearest to the vehicle. */
  predicate IsFirstNearest(line: seq<Point>, vehicle: Point, k: real, i: nat) {
    i + 1 < |line|
    && (forall j: nat :: j + 1 < |line| ==> SegmentDistance(line, vehicle, k, i) <= SegmentDistance(line, vehicle, k, j))
    && (forall j: nat :: j < i ==> SegmentDistance(line, vehicle, k, i) < SegmentDistance(line, vehicle, k, j))
  }

  /** The chosen segment is nearest over every point of the whole line, whenever each segment is
      above the threshold or does not point towards the vehicle. */
  lemma ChosenSegmentIsNearestOnLine(line: seq<Point>, vehicle: Point, k: real, best: nat, j: nat, u: real)
    requires IsFirstNearest(line, vehicle, k, best)
    requires j + 1 < |line| && 0.0 <= u <= 1.0
    requires var p, a, b := Scaled(vehicle, k), Scaled(line[j], k), Scaled(line[j + 1], k);
             IsLong(a, b) || Dot(Minus(p, a), Minus(b, a)) <= 0.0
    ensures SegmentDistance(line, vehicle, k, best)
         <= DistanceSq(Scaled(vehicle, k), Along(Scaled(line[j], k), Scaled(line[j + 1], k), u))
  {
    var p, a, b := Scaled(vehicle, k), Scaled(line[j], k), Scaled(line[j + 1], k);
    assert SegmentDistance(line, vehicle, k, j) == DistanceSqPointToSegmentPlanar(p, a, b);
    hide DistanceSqPointToSegmentPlanar, DistanceSq, Along, Dot, Minus, Scaled, IsLong, SegmentDistance;
    IsMinimumIff(p, a, b);
    assert SegmentDistance(line, vehicle, k, best) <= SegmentDistance(line, vehicle, k, j);
  }

  // ---------- bearings ----------

  /** JavaScript's remainder by 360: it keeps the sign of the left operand. */
  function Rem360(x: real): real {
    if x >= 0.0 then x - 360.0 * (x / 360.0).Floor as real
    else x + 360.0 * (-x / 360.0).Floor as real
  }

  function Normalized(degrees: real): real {
    Rem360(Rem360(degrees) + 360.0)
  }

  ghost predicate SameAngle(x: real, y: real) {
    exists turns: int :: DifferByTurns(x, y, turns)
  }

  predicate DifferByTurns(x: real, y: real, turns: int) {
    x == y + 360.0 * turns as real
  }

  lemma Rem360Is(x: real)
    ensures -360.0 < Rem360(x) < 360.0 && (x >= 0.0 ==> Rem360(x) >= 0.0)
    ensures SameAngle(Rem360(x), x)
  {
    if x >= 0.0 {
      assert DifferByTurns(Rem360(x), x, -(x / 360.0).Floor);
    } else {
      assert DifferByTurns(Rem360(x), x, (-x / 360.0).Floor);
    }
  }

  lemma SameAngleChains(x: real, y: real, z: real)
    requires SameAngle(x, y) && SameAngle(y, z)
    ensures SameAngle(x, z)
  {
    var i :| DifferByTurns(x, y, i);
    var j :| DifferByTurns(y, z, j);
    assert DifferByTurns(x, z, i + j);
  }

  lemma SameAngleShifts(x: real, y: real, shift: real)
    requires SameAngle(x, y)
    ensures SameAngle(x + shift, y + shift)
  {
    var i :| DifferByTurns(x, y, i);
    assert DifferByTurns(x + shift, y + shift, i);
  }

  /** The double remainder gives the one angle in [0, 360) that points the same way. */
  lemma NormalizedIsTheAngle(degrees: real, other: real)
    ensures 0.0 <= Normalized(degrees) < 360.0 && SameAngle(Normalized(degrees), degrees)
    ensures 0.0 <= other < 360.0 && SameAngle(other, degrees) ==> other == Normalized(degrees)
  {
    var once := Rem360(degrees);
    Rem360Is(degrees);
    Rem360Is(once + 360.0);
    assert DifferByTurns(once + 360.0, once, 1);
    SameAngleChains(Normalized(degrees), once + 360.0, once);
    SameAngleChains(Normalized(degrees), once, degrees);
    if 0.0 <= other < 360.0 && SameAngle(other, degrees) {
      var i :| DifferByTurns(other, degrees, i);
      var j :| DifferByTurns(Normalized(degrees), degrees, j);
      assert other - Normalized(degrees) == 360.0 * (i - j) as real;
    }
  }

  /** At or below this squared length (in unscaled degrees) a segment has no direction. */
  const DIRECTIONLESS: real := 0.00000000000000000001

  predicate HasDirection(line: seq<Point>, i: nat)
    requires i + 1 < |line|
  {
    Square(line[i].x - line[i + 1].x) + Square(line[i].y - line[i + 1].y) > 0.00000000000000000001
  }

  lemma HasDirectionIff(line: seq<Point>, i: nat, dl: real, dphi: real)
    requires i + 1 < |line| && dl == line[i].x - line[i + 1].x && dphi == line[i].y - line[i + 1].y
    ensures HasDirection(line, i) <==> dl * dl + dphi * dphi > DIRECTIONLESS
  {
  }

  /** i is the first segment with a direction at or after start. */
  predicate IsFirstDirected(line: seq<Point>, start: int, i: nat) {
    0 <= start <= i && i + 1 < |line| && HasDirection(line, i)
    && forall j: nat :: start <= j < i ==> !HasDirection(line, j)
  }

  /** The bearing of the first segment with a direction at or after segIndex; degrees gives the raw
      initial bearing between two points. */
  method BearingAlongLineAtSegmentIndex(line: seq<Point>, segIndex: int, degrees: (Point, Point) -> real)
    returns (bearing: Option<real>)
    ensures bearing.None? ==> forall i: nat :: !IsFirstDirected(line, segIndex, i)
    ensures bearing.Some? ==> exists i: nat :: IsFirstDirected(line, segIndex, i)
                                       && bearing.value == Normalized(degrees(line[i], line[i + 1]))
  {
    var n := |line|;
    if segIndex < 0 || segIndex >= n - 1 {
      return None;
    }
    var i := segIndex;
    while i < n - 1
      invariant segIndex <= i <= n - 1
      invariant forall j: nat :: segIndex <= j < i ==> !HasDirection(line, j)
    {
      var dl, dphi := line[i].x - line[i + 1].x, line[i].y - line[i + 1].y;
      HasDirectionIff(line, i, dl, dphi);
      hide HasDirection;
      if dl * dl + dphi * dphi > DIRECTIONLESS {
        assert IsFirstDirected(line, segIndex, i);
        return Some(Normalized(degrees(line[i], line[i + 1])));
      }
      i := i + 1;
    }
    return None;
  }

  /** What the rotation has to be: the chevron is drawn pointing east, so it turns by the bearing
      less a quarter turn, taken from the first directed segment at or after the nearest one. */
  ghost predicate IsRotation(line: seq<Point>, vehicle: Point, k: real, degrees: (Point, Point) -> real, rotation: real) {
    exists best: nat :: IsFirstNearest(line, vehicle, k, best) && TurnsFrom(line, best, degrees, rotation)
  }

  ghost predicate TurnsFrom(line: seq<Point>, best: nat, degrees: (Point, Point) -> real, rotation: real) {
    ((forall i: nat :: !IsFirstDirected(line, best, i)) ==> rotation == 0.0)
    && (forall i: nat :: IsFirstDirected(line, best, i) ==> SameAngle(rotation, degrees(line[i], line[i + 1]) - 90.0))
  }

  method VehicleIconRotateDegrees(coordinates: Option<seq<Point>>, vehicle: Point, k: real,
                                  degrees: (Point, Point) -> real) returns (rotation: real)
    ensures 0.0 <= rotation < 360.0
    ensures coordinates.None? || |coordinates.value| < 2 ==> rotation == 0.0
    ensures coordinates.Some? && |coordinates.value| >= 2 ==>
              IsRotation(coordinates.value, vehicle, k, degrees, rotation)
  {
    if coordinates.None? || |coordinates.value| < 2 {
      return 0.0;
    }
    hide SegmentDistance, DistanceSqPointToSegmentPlanar, Normalized, HasDirection;
    var line := coordinates.value;
    var bestI := 0;
    var bestD: Option<real> := None;
    var i := 0;
    while i < |line| - 1
      invariant 0 <= i <= |line| - 1
      invariant bestD.None? <==> i == 0
      invariant bestD.Some? ==> bestI < i && bestD.value == SegmentDistance(line, vehicle, k, bestI)
      invariant bestD.Some? ==> forall j: nat :: j < i ==> bestD.value <= SegmentDistance(line, vehicle, k, j)
      invariant bestD.Some? ==> forall j: nat :: j < bestI ==> bestD.value < SegmentDistance(line, vehicle, k, j)
    {
      var dsq := DistanceSqPointToSegmentPlanar(Scaled(vehicle, k), Scaled(line[i], k), Scaled(line[i + 1], k));
      SegmentDistanceIs(line, vehicle, k, i);
      if bestD.None? || dsq < bestD.value {
        bestD, bestI := Some(dsq), i;
      }
      i := i + 1;
    }
    assert IsFirstNearest(line, vehicle, k, bestI);
    var bearingNorth := BearingAlongLineAtSegmentIndex(line, bestI, degrees);
    if bearingNorth.None? {
      assert TurnsFrom(line, bestI, degrees, 0.0);
      return 0.0;
    }
    rotation := Normalized(bearingNorth.value - 90.0);
    NormalizedIsTheAngle(bearingNorth.value - 90.0, 0.0);
    QuarterTurnBack(line, bestI, degrees, bearingNorth.value, rotation);
  }

  lemma QuarterTurnBack(line: seq<Point>, best: nat, degrees: (Point, Point) -> real, bearing: real, rotation: real)
    requires exists i: nat :: IsFirstDirected(line, best, i) && bearing == Normalized(degrees(line[i], line[i + 1]))
    requires SameAngle(rotation, bearing - 90.0)
    ensures TurnsFrom(line, best, degrees, rotation)
  {
    hide SameAngle, Normalized, HasDirection;
    var i: nat :| IsFirstDirected(line, best, i) && bearing == Normalized(degrees(line[i], line[i + 1]));
    var raw := degrees(line[i], line[i + 1]);
    NormalizedIsTheAngle(raw, 0.0);
    SameAngleShifts(bearing, raw, -90.0);
    SameAngleChains(rotation, bearing - 90.0, raw - 90.0);
    forall j: nat | IsFirstDirected(line, best, j)
      ensures SameAngle(rotation, degrees(line[j], line[j + 1]) - 90.0)
    {
      assert j == i;
    }
  }
}
