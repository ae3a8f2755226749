/**
 * The C helpers of chyperbolic.c: the Euclidean kernel again, with results written through
 * pointer out-parameters.
 *
 * A pointer out-parameter `double *x` is modelled by an in-parameter `x` (what the cell holds
 * on entry) and an out-parameter `x'` (what it holds on return), so that a cell the function
 * does not write keeps its entry value, and the swaps of the pivot are stated exactly.
 * The C det2 is Euclidean.Det2.
 */
module CHyperbolic {
  import E = Euclidean

  /** swap: the two cells exchange their contents. */
  method Swap(a: real, b: real) returns (a': real, b': real)
    ensures a' == b && b' == a
  {
    var tmp := b;
    b' := a;
    a' := tmp;
  }

  /**
   * solve_poly2 with out-parameters: the number of real roots, written to *x1 and *x2
   * in the order of Euclidean.SolvePoly2; a cell beyond that number is left as it was.
   */
  method SolvePoly2(sqrt: real -> real, a: real, b: real, c: real, x1: real, x2: real)
    returns (num: int, x1': real, x2': real)
    requires a != 0.0
    ensures var roots := E.SolvePoly2(sqrt, a, b, c);
      && num == |roots|
      && (num >= 1 ==> x1' == roots[0]) && (num == 2 ==> x2' == roots[1])
      && (num < 1 ==> x1' == x1) && (num < 2 ==> x2' == x2)
    ensures num == 0 <==> E.Discriminant(a, b, c) < 0.0
    ensures num == 1 <==> E.Discriminant(a, b, c) == 0.0
    ensures num == 2 <==> E.Discriminant(a, b, c) > 0.0
    ensures E.IsSqrt(sqrt) && num == 2 && a > 0.0 ==> x1' < x2'
  {
    x1', x2' := x1, x2;
    var delta := b * b - 4.0 * a * c;
    if delta < 0.0 {
      num := 0;
    } else if delta == 0.0 {
      x1' := -b / (2.0 * a);
      num := 1;
    } else {
      var sqrtdelta := sqrt(delta);
      x1' := (-b - sqrtdelta) / (2.0 * a);
      x2' := (-b + sqrtdelta) / (2.0 * a);
      num := 2;
    }
    if E.IsSqrt(sqrt) && num == 2 {
      E.SolvePoly2Ordered(sqrt, a, b, c);
    }
  }

  /**
   * eupoint_line_to: the coefficients of the line through (x1, y1) and (x2, y2), the same line
   * as Euclidean's line_to; *c is computed from the *a (or *b) just written.
   */
  method EuPointLineTo(x1: real, y1: real, x2: real, y2: real) returns (a: real, b: real, c: real)
    requires x1 != x2 || y1 != y2
    ensures E.EuLine(a, b, c) == E.EuPoint(x1, y1).LineTo(E.EuPoint(x2, y2))
    ensures E.EuLine(a, b, c).Contains(E.EuPoint(x1, y1)) && E.EuLine(a, b, c).Contains(E.EuPoint(x2, y2))
    ensures (a == -1.0 && E.Abs(b) <= 1.0) || (b == -1.0 && E.Abs(a) < 1.0)
  {
    var deltax := x2 - x1;
    var deltay := y2 - y1;
    if E.Abs(deltax) > E.Abs(deltay) {
      a := deltay / deltax;
      b := -1.0;
      c := y1 - a * x1;
    } else {
      a := -1.0;
      b := deltax / deltay;
      c := x1 - b * y1;
    }
  }

  /** euline_intersection_line: Cramer's rule, the point on both lines; det2 == 0 divides by zero. */
  method EuLineIntersectionLine(a1: real, b1: real, c1: real, a2: real, b2: real, c2: real)
    returns (x: real, y: real)
    requires E.Det2(a1, b1, a2, b2) != 0.0
    ensures E.EuPoint(x, y) == E.EuLine(a1, b1, c1).IntersectionLine(E.EuLine(a2, b2, c2))
    ensures E.EuLine(a1, b1, c1).Contains(E.EuPoint(x, y)) && E.EuLine(a2, b2, c2).Contains(E.EuPoint(x, y))
  {
    var denom := -E.Det2(a1, b1, a2, b2);
    x := E.Det2(c1, b1, c2, b2) / denom;
    y := E.Det2(a1, c1, a2, c2) / denom;
  }

  /**
   * The quadratic of chyperbolic.c:71-74 as written. `1 + a*a / b*b` groups as
   * 1 + ((a*a) / b) * b, which is 1 + a^2, and equals the intended 1 + a^2 / b^2 only when b^2 == 1.
   */
  function CCoefficients(k: E.EuCircle, l: E.EuLine): E.Quadratic
    requires l.b != 0.0
  {
    var tmp := l.c / l.b + k.yy;
    E.Quadratic(1.0 + l.a * l.a / l.b * l.b, -2.0 * (k.xx - tmp * l.a / l.b), k.xx * k.xx + tmp * tmp - k.r * k.r)
  }

  /** The leading coefficient as written is 1 + a^2, never below 1. */
  lemma CLeadingIsOnePlusSquare(l: E.EuLine)
    requires l.b != 0.0
    ensures l.a * l.a / l.b * l.b == l.a * l.a
    ensures CCoefficients(E.EuCircle(0.0, 0.0, 0.0), l).c2 >= 1.0
  {
    E.MulDivCancel(l.a * l.a, l.b);
    E.SquareNonNegative(l.a);
  }

  /** The points eucircle_intersection_line reports, in order, in the caller's coordinates. */
  function CIntersectionPoints(sqrt: real -> real, circle: E.EuCircle, line: E.EuLine): (points: seq<E.EuPoint>)
    requires line.a != 0.0 || line.b != 0.0
    ensures |points| <= 2
  {
    var l := E.PivotLine(line);
    CLeadingIsOnePlusSquare(l);
    E.Unpivot(line, E.PivotedPoints(sqrt, l, CCoefficients(E.PivotCircle(circle, line), l)))
  }

  /**
   * eucircle_intersection_line: the number of points found, written as (*x1, *y1) and
   * (*x2, *y2). On a pivoted line the final swaps run on both pairs whatever the number,
   * so an unwritten pair comes back with its two cells exchanged.
   */
  method EuCircleIntersectionLine(sqrt: real -> real, xx: real, yy: real, r: real, a: real, b: real, c: real,
                                  x1: real, y1: real, x2: real, y2: real)
    returns (num: int, x1': real, y1': real, x2': real, y2': real)
    requires a != 0.0 || b != 0.0
    ensures var points := CIntersectionPoints(sqrt, E.EuCircle(xx, yy, r), E.EuLine(a, b, c));
      && num == |points|
      && (num >= 1 ==> E.EuPoint(x1', y1') == points[0])
      && (num == 2 ==> E.EuPoint(x2', y2') == points[1])
    ensures var inverted := E.Inverted(E.EuLine(a, b, c));
      && (num < 1 ==> if inverted then x1' == y1 && y1' == x1 else x1' == x1 && y1' == y1)
      && (num < 2 ==> if inverted then x2' == y2 && y2' == x2 else x2' == x2 && y2' == y2)
  {
    var pa, pb, pxx, pyy := a, b, xx, yy;
    var inverted := false;
    if E.Abs(pa) > E.Abs(pb) {
      pa, pb := Swap(pa, pb);
      pxx, pyy := Swap(pxx, pyy);
      inverted := true;
    }
    // The pivoted line and circle; the coefficients are those of chyperbolic.c:71-74.
    var l := E.EuLine(pa, pb, c);
    var q := CCoefficients(E.EuCircle(pxx, pyy, r), l);
    CLeadingIsOnePlusSquare(l);
    num, x1', x2' := SolvePoly2(sqrt, q.c2, q.c1, q.c0, x1, x2);
    y1', y2' := y1, y2;
    if num >= 1 {
      y1' := l.YAt(x1');
    }
    if num == 2 {
      y2' := l.YAt(x2');
    }

    assert l == E.PivotLine(E.EuLine(a, b, c));
    assert E.EuCircle(pxx, pyy, r) == E.PivotCircle(E.EuCircle(xx, yy, r), E.EuLine(a, b, c));
    ghost var xs := E.SolvePoly2(sqrt, q.c2, q.c1, q.c0);
    ghost var pts := E.PivotedPoints(sqrt, l, q);
    if num >= 1 {
      E.PointsAboveAt(l, xs, 0);
      E.UnpivotAt(E.EuLine(a, b, c), pts, 0);
    }
    if num == 2 {
      E.PointsAboveAt(l, xs, 1);
      E.UnpivotAt(E.EuLine(a, b, c), pts, 1);
    }

    if inverted {
      x1', y1' := Swap(x1', y1');
      x2', y2' := Swap(x2', y2');
    }
  }

  /** Every point eucircle_intersection_line reports lies on the caller's line (a, b, c). */
  lemma CIntersectionOnLine(sqrt: real -> real, circle: E.EuCircle, line: E.EuLine, p: E.EuPoint)
    requires line.a != 0.0 || line.b != 0.0
    requires p in CIntersectionPoints(sqrt, circle, line)
    ensures line.Contains(p)
  {
    var l := E.PivotLine(line);
    CLeadingIsOnePlusSquare(l);
    E.UnpivotedPointOnLine(sqrt, line, CCoefficients(E.PivotCircle(circle, line), l), p);
  }

  /** The C count is solve_poly2's on the pivoted coefficients: 0, 1 or 2. */
  lemma CIntersectionCount(sqrt: real -> real, circle: E.EuCircle, line: E.EuLine)
    requires line.a != 0.0 || line.b != 0.0
    ensures var l := E.PivotLine(line); var q := CCoefficients(E.PivotCircle(circle, line), l);
      && q.c2 >= 1.0
      && |CIntersectionPoints(sqrt, circle, line)| == |E.SolvePoly2(sqrt, q.c2, q.c1, q.c0)| <= 2
  {
    CLeadingIsOnePlusSquare(E.PivotLine(line));
  }

  /** With |b| == 1 after the pivot, the quadratic as written is the intended one. */
  lemma CCoefficientsAgree(k: E.EuCircle, l: E.EuLine)
    requires E.Abs(l.b) == 1.0
    ensures CCoefficients(k, l) == E.CircleCoefficients(k, l)
  {
    CLeadingIsOnePlusSquare(l);
    assert l.b * l.b == 1.0;
    assert E.Leading(l) == 1.0 + l.a * l.a;
  }

  /**
   * With |b| == 1 after the pivot, eucircle_intersection_line returns the corrected Euclidean
   * intersection, hence exactly the points on both the line and the circle.
   */
  lemma CIntersectionOnCircle(sqrt: real -> real, circle: E.EuCircle, line: E.EuLine, p: E.EuPoint)
    requires E.IsSqrt(sqrt) && (line.a != 0.0 || line.b != 0.0) && E.Abs(E.PivotLine(line).b) == 1.0
    ensures CIntersectionPoints(sqrt, circle, line) == circle.IntersectionLineCorrected(sqrt, line)
    ensures p in CIntersectionPoints(sqrt, circle, line) <==> line.Contains(p) && circle.Contains(p)
  {
    CCoefficientsAgree(E.PivotCircle(circle, line), E.PivotLine(line));
    E.IntersectionLineCorrectedExact(sqrt, circle, line, p);
  }

  /** Lines built by eupoint_line_to always have |b| == 1 after the pivot. */
  lemma LineToPivotsToUnit(p: E.EuPoint, q: E.EuPoint)
    requires p != q
    ensures E.Abs(E.PivotLine(p.LineTo(q)).b) == 1.0
  {
  }

  /**
   * The grouping error of chyperbolic.c:71 on the unit circle and the line 0.75x + 2y == 0:
   * as written the intersection reports (0.8, -0.3), and 0.8^2 + 0.3^2 == 0.73, off the circle.
   */
  lemma CPrecedenceCounterexample(sqrt: real -> real)
    requires sqrt(6.25) == 2.5
    ensures var circle, line := E.EuCircle(0.0, 0.0, 1.0), E.EuLine(0.75, 2.0, 0.0);
      var points := CIntersectionPoints(sqrt, circle, line);
      && points == [E.EuPoint(-0.8, 0.3), E.EuPoint(0.8, -0.3)] && !circle.Contains(points[1])
  {
    SlantIntersection(sqrt);
    assert !E.EuCircle(0.0, 0.0, 1.0).Contains(E.EuPoint(0.8, -0.3));
  }

  lemma SlantIntersection(sqrt: real -> real)
    requires sqrt(6.25) == 2.5
    ensures CIntersectionPoints(sqrt, E.EuCircle(0.0, 0.0, 1.0), E.EuLine(0.75, 2.0, 0.0))
         == [E.EuPoint(-0.8, 0.3), E.EuPoint(0.8, -0.3)]
  {
    var circle, line := E.EuCircle(0.0, 0.0, 1.0), E.EuLine(0.75, 2.0, 0.0);
    assert !E.Inverted(line);
    assert CCoefficients(circle, line) == E.Quadratic(1.5625, 0.0, -1.0);
    SlantRoots(sqrt);
    SlantPoints();
    E.UnpivotIdentity(line, [E.EuPoint(-0.8, 0.3), E.EuPoint(0.8, -0.3)]);
  }

  lemma SlantRoots(sqrt: real -> real)
    requires sqrt(6.25) == 2.5
    ensures E.SolvePoly2(sqrt, 1.5625, 0.0, -1.0) == [-0.8, 0.8]
  {
  }

  lemma SlantPoints()
    ensures E.PointsAbove(E.EuLine(0.75, 2.0, 0.0), [-0.8, 0.8]) == [E.EuPoint(-0.8, 0.3), E.EuPoint(0.8, -0.3)]
  {
    var line := E.EuLine(0.75, 2.0, 0.0);
    assert line.YAt(-0.8) == 0.3 && line.YAt(0.8) == -0.3;
    assert E.PointsAbove(line, [0.8]) == [E.EuPoint(0.8, -0.3)];
  }
}
