/**
 * The decision logic of hyperbolic.py in the Klein model of the hyperbolic plane: a Point is a
 * point of the open unit disk, an InfPoint an ideal point on the unit circle given by its angle,
 * and a Line the chord between two ideal points.
 *
 * math.cos, math.sin, math.atan2 and math.sqrt are the parameters `cos`, `sin`, `atan2` and
 * `sqrt`, and math.pi is the parameter `pi`; a contract that needs their meaning says so.
 */
module Hyperbolic {
  import opened Wrappers
  import E = Euclidean

  // ---------------------------------------------------------------------------
  // my_trunc and the normalisation of angles
  // ---------------------------------------------------------------------------

  /** math.trunc: rounds toward zero. */
  function Trunc(x: real): int {
    if x >= 0.0 then x.Floor else -((-x).Floor)
  }

  predicate IsIntegral(x: real) {
    x == x.Floor as real
  }

  /**
   * my_trunc: trunc(x) for x >= 0 and trunc(x) - 1 below zero. Below zero that is the floor,
   * except at a negative integer, where it is one less than x.
   */
  function MyTrunc(x: real): (r: int)
    ensures x >= 0.0 ==> r as real <= x < r as real + 1.0
    ensures x < 0.0 ==> x - 1.0 <= r as real < x
    ensures r as real == x - 1.0 <==> x < 0.0 && IsIntegral(x)
  {
    TruncBounds(x);
    if x >= 0.0 then Trunc(x) else Trunc(x) - 1
  }

  /** trunc rounds toward zero, and lands on x exactly when x is a whole number. */
  lemma TruncBounds(x: real)
    ensures x >= 0.0 ==> Trunc(x) as real <= x < Trunc(x) as real + 1.0
    ensures x < 0.0 ==> Trunc(x) as real - 1.0 < x <= Trunc(x) as real
    ensures x == Trunc(x) as real <==> IsIntegral(x)
  {
    if x < 0.0 {
      var f := (-x).Floor;
      assert f as real <= -x < f as real + 1.0;
      if x == Trunc(x) as real {
        assert x == (-f) as real;
        assert x.Floor == -f;
      }
    }
  }

  /** The angle normalize stores: alpha - 2 pi my_trunc(alpha / 2 pi). */
  function NormalizedAngle(alpha: real, pi: real): real
    requires pi > 0.0
  {
    alpha - 2.0 * pi * MyTrunc(alpha / (2.0 * pi)) as real
  }

  lemma ScaleUnit(w: real, u: real, v: real)
    requires w > 0.0 && 0.0 <= u <= 1.0 && v == w * u
    ensures 0.0 <= v <= w
    ensures v == w <==> u == 1.0
  {
    assert w - v == w * (1.0 - u);
    if v == w {
      E.ProductZero(w, 1.0 - u);
    }
  }

  lemma ScaleCancel(w: real, m: real)
    requires w != 0.0
    ensures (w * m) / w == m
  {
  }

  lemma QuotientSign(n: real, w: real)
    requires w > 0.0
    ensures n / w < 0.0 <==> n < 0.0
  {
    E.MulDivCancel(n, w);
    if n / w < 0.0 {
      assert (n / w) * w < 0.0 * w;
    } else {
      E.QuotientNonNegative(if n < 0.0 then 0.0 else n, w);
    }
  }

  /**
   * normalize moves alpha by a whole number of turns into [0, 2 pi], and lands on 2 pi exactly
   * when alpha was a negative whole number of turns.
   */
  lemma {:induction false} NormalizedAngleRange(alpha: real, pi: real)
    requires pi > 0.0
    ensures 0.0 <= NormalizedAngle(alpha, pi) <= 2.0 * pi
    ensures NormalizedAngle(alpha, pi) == 2.0 * pi <==> alpha < 0.0 && IsIntegral(alpha / (2.0 * pi))
    ensures IsIntegral((alpha - NormalizedAngle(alpha, pi)) / (2.0 * pi))
  {
    var w := 2.0 * pi;
    var t := alpha / w;
    E.MulDivCancel(alpha, w);
    QuotientSign(alpha, w);
    var m := MyTrunc(t) as real;
    assert IsIntegral(m);
    assert NormalizedAngle(alpha, pi) == alpha - w * m;
    TurnsRemoved(alpha, w, t, m);
  }

  /** Taking m whole turns of size w off alpha == t * w, with t - m in [0, 1]. */
  lemma TurnsRemoved(alpha: real, w: real, t: real, m: real)
    requires w > 0.0 && t * w == alpha && 0.0 <= t - m <= 1.0
    ensures 0.0 <= alpha - w * m <= w
    ensures alpha - w * m == w <==> t - m == 1.0
    ensures (alpha - (alpha - w * m)) / w == m
  {
    assert alpha - w * m == w * (t - m);
    ScaleUnit(w, t - m, alpha - w * m);
    ScaleCancel(w, m);
  }

  /** Two angles a whole number of turns apart. */
  predicate SameTurn(alpha: real, beta: real, pi: real)
    requires pi > 0.0
  {
    IsIntegral((alpha - beta) / (2.0 * pi))
  }

  /** A function of an angle that repeats every turn, as cos and sin do. */
  ghost predicate Periodic(f: real -> real, pi: real)
    requires pi > 0.0
  {
    forall alpha, beta :: SameTurn(alpha, beta, pi) ==> f(alpha) == f(beta)
  }

  /** atan2(y, x) gives the angle of a point of the unit circle. */
  ghost predicate IsAngleOf(atan2: (real, real) -> real, cos: real -> real, sin: real -> real) {
    forall x, y :: x * x + y * y == 1.0 ==> cos(atan2(y, x)) == x && sin(atan2(y, x)) == y
  }

  // ---------------------------------------------------------------------------
  // Points of the disk and ideal points
  // ---------------------------------------------------------------------------

  datatype Point = Point(x: real, y: real) {

    static function FromEuPoint(point: E.EuPoint): Point {
      Point(point.x, point.y)
    }

    function ToEuPoint(): E.EuPoint {
      E.EuPoint(x, y)
    }

    /** In the closed unit disk: the test Line.intersection applies. */
    predicate InDisk() {
      x * x + y * y <= 1.0
    }

    /**
     * The ends of the chord through this point and `point`, as line_to finds them: the
     * line-circle intersection as written (euclidean.py:73-93, reached through
     * EuLine.intersection_circle) of the line through the two points with the unit circle.
     */
    function Extrema(sqrt: real -> real, point: Point): (extrema: seq<E.EuPoint>)
      requires this != point
      ensures |extrema| <= 2
    {
      E.EuCircle(0.0, 0.0, 1.0).IntersectionLine(sqrt, ToEuPoint().LineTo(point.ToEuPoint()))
    }

    /** The same ends with the sign of euclidean.py:85 corrected: where the line meets the unit circle. */
    function ExtremaCorrected(sqrt: real -> real, point: Point): (extrema: seq<E.EuPoint>)
      requires this != point
      ensures |extrema| <= 2
    {
      E.EuCircle(0.0, 0.0, 1.0).IntersectionLineCorrected(sqrt, ToEuPoint().LineTo(point.ToEuPoint()))
    }

    /**
     * line_to: the chord through this point and `point`, with one ideal point per extremum in
     * the order found. The unpacking `p1, p2 = ...` fails unless there are exactly two
     * extrema, which is None here. Coincident points divide by zero.
     */
    method LineTo(sqrt: real -> real, atan2: (real, real) -> real, point: Point)
      returns (line: Option<Line>)
      requires this != point
      ensures var extrema := Extrema(sqrt, point);
        && (line.Some? <==> |extrema| == 2)
        && (line.Some? ==>
              && fresh(line.value.p1) && fresh(line.value.p2) && line.value.p1 != line.value.p2
              && line.value.p1.alpha == atan2(extrema[0].y, extrema[0].x) && line.value.p1.coords.None?
              && line.value.p2.alpha == atan2(extrema[1].y, extrema[1].x) && line.value.p2.coords.None?)
    {
      var extrema := Extrema(sqrt, point);
      if |extrema| != 2 {
        return None;
      }
      var p1 := InfPoint.FromXY(atan2, extrema[0].x, extrema[0].y);
      var p2 := InfPoint.FromXY(atan2, extrema[1].x, extrema[1].y);
      line := Some(Line(p1, p2));
    }
  }

  /** Every extremum line_to finds lies on the line through the two points. */
  lemma ExtremaOnLine(sqrt: real -> real, p: Point, q: Point, i: int)
    requires p != q
    requires 0 <= i < |p.Extrema(sqrt, q)|
    ensures p.ToEuPoint().LineTo(q.ToEuPoint()).Contains(p.Extrema(sqrt, q)[i])
  {
    E.IntersectionLineOnLine(sqrt, E.EuCircle(0.0, 0.0, 1.0), p.ToEuPoint().LineTo(q.ToEuPoint()), i);
  }

  /** With the sign corrected, every extremum is on the unit circle and on the line through the two points. */
  lemma ExtremaOnChord(sqrt: real -> real, p: Point, q: Point, i: int)
    requires E.IsSqrt(sqrt) && p != q
    requires 0 <= i < |p.ExtremaCorrected(sqrt, q)|
    ensures var e := p.ExtremaCorrected(sqrt, q)[i];
      && e.x * e.x + e.y * e.y == 1.0
      && p.ToEuPoint().LineTo(q.ToEuPoint()).Contains(e)
  {
    var extrema := p.ExtremaCorrected(sqrt, q);
    assert extrema[i] in extrema;
    E.IntersectionLineCorrectedExact(sqrt, E.EuCircle(0.0, 0.0, 1.0), p.ToEuPoint().LineTo(q.ToEuPoint()), extrema[i]);
  }

  /**
   * With the sign corrected, the ideal point built from an extremum, at angle atan2(y, x), has
   * that extremum as its coordinates when atan2 inverts (cos, sin) on the unit circle.
   */
  lemma ExtremumAngleRoundTrip(sqrt: real -> real, atan2: (real, real) -> real, cos: real -> real,
                               sin: real -> real, p: Point, q: Point, i: int)
    requires E.IsSqrt(sqrt) && IsAngleOf(atan2, cos, sin) && p != q
    requires 0 <= i < |p.ExtremaCorrected(sqrt, q)|
    ensures var e := p.ExtremaCorrected(sqrt, q)[i];
      cos(atan2(e.y, e.x)) == e.x && sin(atan2(e.y, e.x)) == e.y
  {
    ExtremaOnChord(sqrt, p, q, i);
  }

  /**
   * From a point strictly inside the disk, line_to always finds two distinct extrema, so the
   * unpacking never fails there: the sign error does not change how many there are.
   */
  lemma LineToSucceedsInsideDisk(sqrt: real -> real, p: Point, q: Point)
    requires E.IsSqrt(sqrt) && p != q
    requires p.x * p.x + p.y * p.y < 1.0
    ensures var extrema := p.Extrema(sqrt, q);
      |extrema| == 2 && extrema[0] != extrema[1]
    ensures var extrema := p.ExtremaCorrected(sqrt, q);
      |extrema| == 2 && extrema[0] != extrema[1]
  {
    var circle := E.EuCircle(0.0, 0.0, 1.0);
    var line := p.ToEuPoint().LineTo(q.ToEuPoint());
    assert circle.Power(p.ToEuPoint()) < 0.0;
    E.SecantMeetsTwice(sqrt, circle, line, p.ToEuPoint());
    E.CenteredCountAgrees(sqrt, circle, line);
    TwoExtremaDistinct(sqrt, circle, line);
  }

  /** Two points found by the intersection as written are distinct: their pivoted x's are distinct roots. */
  lemma TwoExtremaDistinct(sqrt: real -> real, circle: E.EuCircle, line: E.EuLine)
    requires E.IsSqrt(sqrt) && (line.a != 0.0 || line.b != 0.0)
    requires |circle.IntersectionLine(sqrt, line)| == 2
    ensures circle.IntersectionLine(sqrt, line)[0] != circle.IntersectionLine(sqrt, line)[1]
  {
    var l := E.PivotLine(line);
    E.LeadingAtLeastOne(l);
    var k := E.PythonCoefficients(E.PivotCircle(circle, line), l);
    var xs := E.SolvePoly2(sqrt, k.c2, k.c1, k.c0);
    var pts := E.PivotedPoints(sqrt, l, k);
    E.IntersectionLineCount(sqrt, circle, line);
    E.SolvePoly2Ordered(sqrt, k.c2, k.c1, k.c0);
    E.PointsAboveAt(l, xs, 0);
    E.PointsAboveAt(l, xs, 1);
    E.UnpivotAt(line, pts, 0);
    E.UnpivotAt(line, pts, 1);
    assert E.Unflip(line, E.Unflip(line, pts[0])) == pts[0];
    assert E.Unflip(line, E.Unflip(line, pts[1])) == pts[1];
  }

  /**
   * The sign error of euclidean.py:85 reaches line_to: for the points (0.5, 0.5) and (0.6, 0.4)
   * the line is -x - y + 1 == 0, and line_to takes its ideal points at (-1, 2), which is off the
   * unit circle, and (0, 1), where the chord really ends at (0, 1) and (1, 0).
   */
  lemma LineToCounterexample(sqrt: real -> real)
    requires E.IsSqrt(sqrt)
    ensures var p, q := Point(0.5, 0.5), Point(0.6, 0.4);
      && p.Extrema(sqrt, q) == [E.EuPoint(-1.0, 2.0), E.EuPoint(0.0, 1.0)]
      && !E.EuCircle(0.0, 0.0, 1.0).Contains(E.EuPoint(-1.0, 2.0))
      && p.ExtremaCorrected(sqrt, q) == [E.EuPoint(0.0, 1.0), E.EuPoint(1.0, 0.0)]
  {
    E.SqrtIs(sqrt, 4.0, 2.0);
    AntiDiagonalLine();
    AntiDiagonalIntersection(sqrt);
    AntiDiagonalCorrected(sqrt);
  }

  lemma AntiDiagonalLine()
    ensures Point(0.5, 0.5).ToEuPoint().LineTo(Point(0.6, 0.4).ToEuPoint()) == E.EuLine(-1.0, -1.0, 1.0)
  {
  }

  lemma AntiDiagonalIntersection(sqrt: real -> real)
    requires sqrt(4.0) == 2.0
    ensures E.EuCircle(0.0, 0.0, 1.0).IntersectionLine(sqrt, E.EuLine(-1.0, -1.0, 1.0))
         == [E.EuPoint(-1.0, 2.0), E.EuPoint(0.0, 1.0)]
  {
    var circle, line := E.EuCircle(0.0, 0.0, 1.0), E.EuLine(-1.0, -1.0, 1.0);
    assert !E.Inverted(line);
    assert E.PythonCoefficients(circle, line) == E.Quadratic(2.0, 2.0, 0.0);
    assert E.SolvePoly2(sqrt, 2.0, 2.0, 0.0) == [-1.0, 0.0];
    AntiDiagonalPoints([-1.0, 0.0]);
    E.UnpivotIdentity(line, [E.EuPoint(-1.0, 2.0), E.EuPoint(0.0, 1.0)]);
  }

  lemma AntiDiagonalCorrected(sqrt: real -> real)
    requires sqrt(4.0) == 2.0
    ensures E.EuCircle(0.0, 0.0, 1.0).IntersectionLineCorrected(sqrt, E.EuLine(-1.0, -1.0, 1.0))
         == [E.EuPoint(0.0, 1.0), E.EuPoint(1.0, 0.0)]
  {
    var circle, line := E.EuCircle(0.0, 0.0, 1.0), E.EuLine(-1.0, -1.0, 1.0);
    assert !E.Inverted(line);
    assert E.CircleCoefficients(circle, line) == E.Quadratic(2.0, -2.0, 0.0);
    assert E.SolvePoly2(sqrt, 2.0, -2.0, 0.0) == [0.0, 1.0];
    AntiDiagonalPoints([0.0, 1.0]);
    E.UnpivotIdentity(line, [E.EuPoint(0.0, 1.0), E.EuPoint(1.0, 0.0)]);
  }

  /** Above each x, the line -x - y + 1 == 0 passes through (x, 1 - x). */
  lemma AntiDiagonalPoints(xs: seq<real>)
    requires |xs| == 2
    ensures E.PointsAbove(E.EuLine(-1.0, -1.0, 1.0), xs)
         == [E.EuPoint(xs[0], 1.0 - xs[0]), E.EuPoint(xs[1], 1.0 - xs[1])]
  {
    var line := E.EuLine(-1.0, -1.0, 1.0);
    assert line.YAt(xs[0]) == 1.0 - xs[0] && line.YAt(xs[1]) == 1.0 - xs[1];
    assert E.PointsAbove(line, xs[1..]) == [E.EuPoint(xs[1], 1.0 - xs[1])];
  }

  /**
   * An ideal point: the angle alpha of a point of the unit circle, and the (cos alpha, sin alpha)
   * pair once get_coords has computed it.
   */
  class InfPoint {
    var alpha: real
    var coords: Option<(real, real)>

    constructor (alpha: real)
      ensures this.alpha == alpha && coords == None
    {
      this.alpha := alpha;
      coords := None;
    }

    /** from_xy: the ideal point at angle atan2(y, x). */
    static method FromXY(atan2: (real, real) -> real, x: real, y: real) returns (p: InfPoint)
      ensures fresh(p) && p.alpha == atan2(y, x) && p.coords == None
    {
      p := new InfPoint(atan2(y, x));
    }

    /** What get_coords returns: the cached pair if there is one, else (cos alpha, sin alpha). */
    function Coords(cos: real -> real, sin: real -> real): (real, real)
      reads this
    {
      if coords.Some? then coords.value else (cos(alpha), sin(alpha))
    }

    /** The cached pair, if any, is that of the current angle. */
    predicate CacheFresh(cos: real -> real, sin: real -> real)
      reads this
    {
      coords.Some? ==> coords.value == (cos(alpha), sin(alpha))
    }

    /**
     * normalize: alpha moves a whole number of turns into [0, 2 pi]; the cached pair is kept,
     * and it stays right because cos and sin repeat every turn.
     */
    method Normalize(pi: real)
      requires pi > 0.0
      modifies this
      ensures alpha == NormalizedAngle(old(alpha), pi) && coords == old(coords)
      ensures 0.0 <= alpha <= 2.0 * pi && SameTurn(old(alpha), alpha, pi)
      ensures forall cos: real -> real, sin: real -> real {:trigger CacheFresh(cos, sin)} ::
        Periodic(cos, pi) && Periodic(sin, pi) && old(CacheFresh(cos, sin)) ==> CacheFresh(cos, sin)
    {
      NormalizedAngleRange(alpha, pi);
      alpha := alpha - 2.0 * pi * MyTrunc(alpha / (2.0 * pi)) as real;
    }

    /**
     * get_coords: computes (cos alpha, sin alpha) on the first call and caches it; every call
     * returns what Coords promised, and the angle does not change.
     */
    method GetCoords(cos: real -> real, sin: real -> real) returns (xy: (real, real))
      modifies this
      ensures xy == old(Coords(cos, sin))
      ensures alpha == old(alpha) && coords == Some(xy)
      ensures old(coords).Some? ==> coords == old(coords)
      ensures old(CacheFresh(cos, sin)) ==> CacheFresh(cos, sin)
    {
      if coords.None? {
        coords := Some((cos(alpha), sin(alpha)));
      }
      xy := coords.value;
    }
  }

  // ---------------------------------------------------------------------------
  // Lines (chords)
  // ---------------------------------------------------------------------------

  /** A chord, between two ideal points. */
  datatype Line = Line(p1: InfPoint, p2: InfPoint) {

    function End1(cos: real -> real, sin: real -> real): E.EuPoint
      reads p1
    {
      E.EuPoint(p1.Coords(cos, sin).0, p1.Coords(cos, sin).1)
    }

    function End2(cos: real -> real, sin: real -> real): E.EuPoint
      reads p2
    {
      E.EuPoint(p2.Coords(cos, sin).0, p2.Coords(cos, sin).1)
    }

    /** Both ends at the same coordinates: to_euline divides by zero. */
    predicate Degenerate(cos: real -> real, sin: real -> real)
      reads p1, p2
    {
      End1(cos, sin) == End2(cos, sin)
    }

    /** to_euline: the Euclidean line through the two ends. */
    function ToEuLine(cos: real -> real, sin: real -> real): (l: E.EuLine)
      reads p1, p2
      requires !Degenerate(cos, sin)
      ensures l.Contains(End1(cos, sin)) && l.Contains(End2(cos, sin))
      ensures l.a != 0.0 || l.b != 0.0
    {
      End1(cos, sin).LineTo(End2(cos, sin))
    }

    /**
     * intersection: the common point of the two chords' lines if it is in the closed disk.
     * The division by zero of a degenerate chord or of parallel lines is caught and gives None,
     * as does a point outside the disk.
     */
    function Intersection(cos: real -> real, sin: real -> real, line: Line): (r: Option<Point>)
      reads p1, p2, line.p1, line.p2
      ensures r.Some? ==>
        && !Degenerate(cos, sin) && !line.Degenerate(cos, sin)
        && r.value.InDisk()
        && ToEuLine(cos, sin).Contains(r.value.ToEuPoint())
        && line.ToEuLine(cos, sin).Contains(r.value.ToEuPoint())
    {
      if Degenerate(cos, sin) || line.Degenerate(cos, sin) then
        None
      else
        var l1, l2 := ToEuLine(cos, sin), line.ToEuLine(cos, sin);
        if E.Det2(l1.a, l1.b, l2.a, l2.b) == 0.0 then
          None
        else
          var p := Point.FromEuPoint(l1.IntersectionLine(l2));
          if p.InDisk() then Some(p) else None
    }
  }

  /** A degenerate chord, on either side, gives no intersection. */
  lemma IntersectionDegenerate(cos: real -> real, sin: real -> real, l1: Line, l2: Line)
    requires l1.Degenerate(cos, sin) || l2.Degenerate(cos, sin)
    ensures l1.Intersection(cos, sin, l2) == None
  {
  }

  /** Chords on parallel (or equal) Euclidean lines give no intersection. */
  lemma IntersectionParallel(cos: real -> real, sin: real -> real, l1: Line, l2: Line)
    requires !l1.Degenerate(cos, sin) && !l2.Degenerate(cos, sin)
    requires var e1, e2 := l1.ToEuLine(cos, sin), l2.ToEuLine(cos, sin);
      E.Det2(e1.a, e1.b, e2.a, e2.b) == 0.0
    ensures l1.Intersection(cos, sin, l2) == None
  {
  }

  /**
   * Conversely, when the chords' lines cross at a point of the closed disk, intersection
   * returns that point, and only then.
   */
  lemma IntersectionFindsCommonPoint(cos: real -> real, sin: real -> real, l1: Line, l2: Line, q: Point)
    requires !l1.Degenerate(cos, sin) && !l2.Degenerate(cos, sin)
    requires var e1, e2 := l1.ToEuLine(cos, sin), l2.ToEuLine(cos, sin);
      E.Det2(e1.a, e1.b, e2.a, e2.b) != 0.0
    ensures l1.Intersection(cos, sin, l2) == Some(q) <==>
      && q.InDisk()
      && l1.ToEuLine(cos, sin).Contains(q.ToEuPoint())
      && l2.ToEuLine(cos, sin).Contains(q.ToEuPoint())
  {
    var e1, e2 := l1.ToEuLine(cos, sin), l2.ToEuLine(cos, sin);
    if q.InDisk() && e1.Contains(q.ToEuPoint()) && e2.Contains(q.ToEuPoint()) {
      E.IntersectionLineUnique(e1, e2, q.ToEuPoint());
    }
  }
}
