/**
 * The Euclidean kernel (euclidean.py): points, implicit lines a*x + b*y + c == 0 and
 * circles (x - xx)^2 + (y - yy)^2 == r^2, over exact reals.
 *
 * math.sqrt is the parameter `sqrt`; a lemma that needs its meaning assumes IsSqrt(sqrt),
 * which says only that sqrt(d) is the non-negative square root of every d >= 0.
 */
module Euclidean {

  function Abs(x: real): real {
    if x < 0.0 then -x else x
  }

  /** What the model assumes of the square root it is given. */
  ghost predicate IsSqrt(sqrt: real -> real) {
    forall d :: 0.0 <= d ==> 0.0 <= sqrt(d) && sqrt(d) * sqrt(d) == d
  }

  // ---------------------------------------------------------------------------
  // Facts of real arithmetic the solver does not find unaided in a larger context
  // ---------------------------------------------------------------------------

  lemma SquareNonNegative(u: real)
    ensures 0.0 <= u * u
  {
  }

  lemma SquareZero(u: real)
    ensures u * u == 0.0 <==> u == 0.0
  {
    ProductZero(u, u);
  }

  lemma ProductZero(u: real, v: real)
    ensures u * v == 0.0 <==> u == 0.0 || v == 0.0
  {
  }

  lemma SignOfProduct(p: real, q: real)
    ensures p > 0.0 && q > 0.0 ==> p * q > 0.0
    ensures p > 0.0 && q < 0.0 ==> p * q < 0.0
    ensures p < 0.0 && q > 0.0 ==> p * q < 0.0
    ensures p < 0.0 && q < 0.0 ==> p * q > 0.0
  {
  }

  lemma MulDivCancel(n: real, d: real)
    requires d != 0.0
    ensures (n / d) * d == n
  {
  }

  lemma MulBoth(u: real, v: real, w: real)
    requires u == v
    ensures u * w == v * w
  {
  }

  lemma QuotientNonNegative(n: real, d: real)
    requires 0.0 <= n && 0.0 < d
    ensures 0.0 <= n / d
  {
    MulDivCancel(n, d);
    SignOfProduct(n / d, d);
  }

  /** |n / d| <= 1 when |n| <= |d|, and < 1 when |n| < |d|. */
  lemma QuotientBound(n: real, d: real)
    requires d != 0.0 && Abs(n) <= Abs(d)
    ensures Abs(n / d) <= 1.0
    ensures Abs(n) < Abs(d) ==> Abs(n / d) < 1.0
  {
    var m := n / d;
    MulDivCancel(n, d);
    assert (m + 1.0) * d == n + d;
    assert (1.0 - m) * d == d - n;
    SignOfProduct(d, m + 1.0);
    SignOfProduct(d, 1.0 - m);
    ProductZero(d, m + 1.0);
    ProductZero(d, 1.0 - m);
  }

  /** The square root of d is the one non-negative s with s * s == d. */
  lemma SqrtIs(sqrt: real -> real, d: real, s: real)
    requires IsSqrt(sqrt) && 0.0 <= s && s * s == d
    ensures sqrt(d) == s
  {
    var t := sqrt(d);
    assert (t - s) * (t + s) == t * t - s * s;
    ProductZero(t - s, t + s);
  }

  // ---------------------------------------------------------------------------
  // det2 and solve_poly2
  // ---------------------------------------------------------------------------

  /** The determinant of the matrix with rows (a, b) and (c, d). */
  function Det2(a: real, b: real, c: real, d: real): real {
    a * d - b * c
  }

  /** (x, y) is a non-zero vector that the matrix with rows (a, b) and (c, d) sends to zero. */
  ghost predicate InKernel(a: real, b: real, c: real, d: real, x: real, y: real) {
    (x != 0.0 || y != 0.0) && a * x + b * y == 0.0 && c * x + d * y == 0.0
  }

  /** det2 vanishes exactly when the two rows are linearly dependent (parallel lines). */
  lemma Det2ZeroIffSingular(a: real, b: real, c: real, d: real)
    ensures Det2(a, b, c, d) == 0.0 <==> exists x, y :: InKernel(a, b, c, d, x, y)
  {
    if Det2(a, b, c, d) == 0.0 {
      if a != 0.0 || b != 0.0 {
        assert InKernel(a, b, c, d, b, -a);
      } else if c != 0.0 || d != 0.0 {
        assert InKernel(a, b, c, d, d, -c);
      } else {
        assert InKernel(a, b, c, d, 1.0, 0.0);
      }
    } else {
      forall x, y
        ensures !InKernel(a, b, c, d, x, y)
      {
        if a * x + b * y == 0.0 && c * x + d * y == 0.0 {
          MulBoth(a * x + b * y, 0.0, d);
          MulBoth(c * x + d * y, 0.0, b);
          MulBoth(a * x + b * y, 0.0, c);
          MulBoth(c * x + d * y, 0.0, a);
          assert Det2(a, b, c, d) * x == 0.0 && Det2(a, b, c, d) * y == 0.0;
          ProductZero(Det2(a, b, c, d), x);
          ProductZero(Det2(a, b, c, d), y);
        }
      }
    }
  }

  function Discriminant(a: real, b: real, c: real): real {
    b * b - 4.0 * a * c
  }

  /**
   * The real roots of a*x^2 + b*x + c, as solve_poly2 lists them: none, the double root,
   * or (-b - sqrt(delta)) / 2a followed by (-b + sqrt(delta)) / 2a.
   * a == 0 divides by zero, so the callers must not pass it.
   */
  function SolvePoly2(sqrt: real -> real, a: real, b: real, c: real): (roots: seq<real>)
    requires a != 0.0
    ensures |roots| == 0 <==> Discriminant(a, b, c) < 0.0
    ensures |roots| == 1 <==> Discriminant(a, b, c) == 0.0
    ensures |roots| == 2 <==> Discriminant(a, b, c) > 0.0
  {
    var delta := b * b - 4.0 * a * c;
    if delta < 0.0 then
      []
    else
      var sqrtdelta := sqrt(delta);
      if delta > 0.0 then
        [(-b - sqrtdelta) / (2.0 * a), (-b + sqrtdelta) / (2.0 * a)]
      else
        [-b / (2.0 * a)]
  }

  /** Completing the square: 4a * (a*x^2 + b*x + c) == (2ax + b)^2 - delta. */
  lemma CompletedSquare(a: real, b: real, c: real, x: real)
    ensures 4.0 * a * (a * x * x + b * x + c)
         == (2.0 * a * x + b) * (2.0 * a * x + b) - Discriminant(a, b, c)
  {
  }

  /** x is the quotient n / 2a exactly when 2a * x == n. */
  lemma RootFormula(a: real, n: real, x: real)
    requires a != 0.0
    ensures x == n / (2.0 * a) <==> 2.0 * a * x == n
  {
    var r := n / (2.0 * a);
    MulDivCancel(n, 2.0 * a);
    assert 2.0 * a * x - n == (x - r) * (2.0 * a);
    ProductZero(x - r, 2.0 * a);
  }

  /** When k != 0 and k * v == u^2 - d, v vanishes exactly when u^2 == d. */
  lemma ScaledSquareZero(k: real, v: real, u: real, d: real)
    requires k != 0.0 && k * v == u * u - d
    ensures v == 0.0 <==> u * u == d
  {
    ProductZero(k, v);
  }

  /** The two square roots of s * s are s and -s. */
  lemma SquareRoots(u: real, s: real)
    ensures u * u == s * s <==> u == s || u == -s
  {
    assert u * u - s * s == (u - s) * (u + s);
    ProductZero(u - s, u + s);
  }

  /** solve_poly2 returns exactly the real roots of the polynomial. */
  lemma SolvePoly2Exact(sqrt: real -> real, a: real, b: real, c: real, x: real)
    requires IsSqrt(sqrt) && a != 0.0
    ensures x in SolvePoly2(sqrt, a, b, c) <==> a * x * x + b * x + c == 0.0
  {
    var delta := Discriminant(a, b, c);
    var v := a * x * x + b * x + c;
    var u := 2.0 * a * x + b;
    CompletedSquare(a, b, c, x);
    ScaledSquareZero(4.0 * a, v, u, delta);
    if delta < 0.0 {
      SquareNonNegative(u);
    } else {
      var s := sqrt(delta);
      SquareRoots(u, s);
      RootFormula(a, -b - s, x);
      RootFormula(a, -b + s, x);
      if delta > 0.0 {
        assert SolvePoly2(sqrt, a, b, c) == [(-b - s) / (2.0 * a), (-b + s) / (2.0 * a)];
      } else {
        SquareZero(s);
        assert SolvePoly2(sqrt, a, b, c) == [-b / (2.0 * a)];
        RootFormula(a, -b, x);
      }
    }
  }

  /** Two roots are distinct, in increasing order when a > 0 and decreasing when a < 0. */
  lemma SolvePoly2Ordered(sqrt: real -> real, a: real, b: real, c: real)
    requires IsSqrt(sqrt) && a != 0.0 && |SolvePoly2(sqrt, a, b, c)| == 2
    ensures var roots := SolvePoly2(sqrt, a, b, c);
      roots[0] != roots[1] && (a > 0.0 ==> roots[0] < roots[1]) && (a < 0.0 ==> roots[0] > roots[1])
  {
    var s := sqrt(Discriminant(a, b, c));
    SquareZero(s);
    assert s > 0.0;
    var r0, r1 := (-b - s) / (2.0 * a), (-b + s) / (2.0 * a);
    RootFormula(a, -b - s, r0);
    RootFormula(a, -b + s, r1);
    assert a * (r1 - r0) == s;
    SignOfProduct(a, r1 - r0);
  }

  /** A polynomial with a positive leading coefficient and a negative value has two roots. */
  lemma NegativeValueTwoRoots(a: real, b: real, c: real, x: real)
    requires a > 0.0 && a * x * x + b * x + c < 0.0
    ensures Discriminant(a, b, c) > 0.0
  {
    CompletedSquare(a, b, c, x);
    SignOfProduct(4.0 * a, a * x * x + b * x + c);
    SquareNonNegative(2.0 * a * x + b);
  }

  // ---------------------------------------------------------------------------
  // EuPoint
  // ---------------------------------------------------------------------------

  datatype EuPoint = EuPoint(x: real, y: real) {

    /** The squared distance: never negative, and zero only between equal points. */
    function SqDistance(point: EuPoint): (d: real)
      ensures 0.0 <= d
      ensures d == 0.0 <==> this == point
    {
      SquareNonNegative(x - point.x);
      SquareNonNegative(y - point.y);
      SquareZero(x - point.x);
      SquareZero(y - point.y);
      (x - point.x) * (x - point.x) + (y - point.y) * (y - point.y)
    }

    /**
     * The line through this point and `point`, solved for y when the run |deltax| is the
     * larger (b == -1) and for x otherwise (a == -1). Coincident points divide by zero.
     */
    function LineTo(point: EuPoint): (line: EuLine)
      requires this != point
      ensures line.Contains(this) && line.Contains(point)
      ensures Abs(point.x - x) > Abs(point.y - y) ==> line.b == -1.0 && Abs(line.a) < 1.0
      ensures Abs(point.x - x) <= Abs(point.y - y) ==> line.a == -1.0 && Abs(line.b) <= 1.0
    {
      if Abs(point.x - x) > Abs(point.y - y) then
        SlopeLine(this, point);
        Slope(this, point)
      else
        SlopeLine(Flip(this), Flip(point));
        TransposeContains(Slope(Flip(this), Flip(point)), this);
        TransposeContains(Slope(Flip(this), Flip(point)), point);
        Transpose(Slope(Flip(this), Flip(point)))
    }
  }

  /**
   * The line through p and q solved for y: slope m == deltay / deltax and intercept
   * q == p.y - m * p.x, written as m * x - y + q == 0 (the first branch of line_to).
   */
  function Slope(p: EuPoint, q: EuPoint): EuLine
    requires p.x != q.x
  {
    var m := (q.y - p.y) / (q.x - p.x);
    EuLine(m, -1.0, p.y - m * p.x)
  }

  /** The same line with the roles of x and y exchanged. */
  function Transpose(l: EuLine): EuLine {
    EuLine(l.b, l.a, l.c)
  }

  lemma TransposeContains(l: EuLine, z: EuPoint)
    ensures Transpose(l).Contains(z) <==> l.Contains(Flip(z))
  {
  }

  /**
   * The slope line through p and q holds both, and its slope is at most 1 in size when the
   * run is the larger difference (below 1 when strictly larger).
   */
  lemma SlopeLine(p: EuPoint, q: EuPoint)
    requires p.x != q.x && Abs(q.y - p.y) <= Abs(q.x - p.x)
    ensures Slope(p, q).Contains(p) && Slope(p, q).Contains(q)
    ensures Abs(Slope(p, q).a) <= 1.0
    ensures Abs(q.y - p.y) < Abs(q.x - p.x) ==> Abs(Slope(p, q).a) < 1.0
  {
    var du, dv := q.x - p.x, q.y - p.y;
    var m := dv / du;
    MulDivCancel(dv, du);
    SlopeForm(m, p.x, p.y, q.x, q.y);
    QuotientBound(dv, du);
  }

  /** v - v0 == m * (u - u0), rearranged as the line_to coefficients give it. */
  lemma SlopeForm(m: real, u0: real, v0: real, u: real, v: real)
    ensures m * u - v + (v0 - m * u0) == m * (u - u0) - (v - v0)
  {
  }

  /** The slope line through p and q holds exactly the points collinear with them. */
  lemma SlopeLineCollinear(p: EuPoint, q: EuPoint, z: EuPoint)
    requires p.x != q.x
    ensures Slope(p, q).Contains(z) <==> Collinear(p, q, z)
  {
    var du, dv := q.x - p.x, q.y - p.y;
    var m := dv / du;
    MulDivCancel(dv, du);
    SlopeForm(m, p.x, p.y, z.x, z.y);
    var v := m * (z.x - p.x) - (z.y - p.y);
    ProductColumns(du, dv, z.x - p.x, z.y - p.y, m, v);
    ProductZero(-du, v);
  }

  /** When du * m == dv and v == m * zu - zv, det2 of the two columns is -du * v. */
  lemma ProductColumns(du: real, dv: real, zu: real, zv: real, m: real, v: real)
    requires m * du == dv && v == m * zu - zv
    ensures Det2(du, dv, zu, zv) == -du * v
  {
    MulBoth(dv, m * du, zu);
  }

  lemma SqDistanceSymmetric(p: EuPoint, q: EuPoint)
    ensures p.SqDistance(q) == q.SqDistance(p)
  {
  }

  /** z, p and q lie on one line. */
  predicate Collinear(p: EuPoint, q: EuPoint, z: EuPoint) {
    Det2(q.x - p.x, q.y - p.y, z.x - p.x, z.y - p.y) == 0.0
  }

  /** The line built by line_to holds exactly the points collinear with its two points. */
  lemma LineToCollinear(p: EuPoint, q: EuPoint, z: EuPoint)
    requires p != q
    ensures p.LineTo(q).Contains(z) <==> Collinear(p, q, z)
  {
    if Abs(q.x - p.x) > Abs(q.y - p.y) {
      SlopeLineCollinear(p, q, z);
    } else {
      TransposeContains(Slope(Flip(p), Flip(q)), z);
      SlopeLineCollinear(Flip(p), Flip(q), Flip(z));
    }
  }

  // ---------------------------------------------------------------------------
  // EuLine
  // ---------------------------------------------------------------------------

  datatype EuLine = EuLine(a: real, b: real, c: real) {

    predicate Contains(p: EuPoint) {
      a * p.x + b * p.y + c == 0.0
    }

    /** The y at which the line crosses abscissa x (the `-(c + a*x) / b` of the source). */
    function YAt(x: real): real
      requires b != 0.0
    {
      -(c + a * x) / b
    }

    /** Cramer's rule; parallel lines (det2 == 0) divide by zero. */
    function IntersectionLine(line: EuLine): (p: EuPoint)
      requires Det2(a, b, line.a, line.b) != 0.0
      ensures Contains(p) && line.Contains(p)
    {
      var denom := -Det2(a, b, line.a, line.b);
      var x := Det2(c, b, line.c, line.b) / denom;
      var y := Det2(a, c, line.a, line.c) / denom;
      CramerSolves(this, line, x, y);
      EuPoint(x, y)
    }
  }

  lemma CramerSolves(l1: EuLine, l2: EuLine, x: real, y: real)
    requires Det2(l1.a, l1.b, l2.a, l2.b) != 0.0
    requires x == Det2(l1.c, l1.b, l2.c, l2.b) / -Det2(l1.a, l1.b, l2.a, l2.b)
    requires y == Det2(l1.a, l1.c, l2.a, l2.c) / -Det2(l1.a, l1.b, l2.a, l2.b)
    ensures l1.Contains(EuPoint(x, y)) && l2.Contains(EuPoint(x, y))
  {
    var d := -Det2(l1.a, l1.b, l2.a, l2.b);
    var nx, ny := Det2(l1.c, l1.b, l2.c, l2.b), Det2(l1.a, l1.c, l2.a, l2.c);
    MulDivCancel(nx, d);
    MulDivCancel(ny, d);
    MulBoth(x * d, nx, l1.a);
    MulBoth(y * d, ny, l1.b);
    MulBoth(x * d, nx, l2.a);
    MulBoth(y * d, ny, l2.b);
    assert (l1.a * x + l1.b * y + l1.c) * d == 0.0;
    assert (l2.a * x + l2.b * y + l2.c) * d == 0.0;
    ProductZero(l1.a * x + l1.b * y + l1.c, d);
    ProductZero(l2.a * x + l2.b * y + l2.c, d);
  }

  /** The point found by intersection_line is the only point on both lines. */
  lemma IntersectionLineUnique(l1: EuLine, l2: EuLine, p: EuPoint)
    requires Det2(l1.a, l1.b, l2.a, l2.b) != 0.0
    requires l1.Contains(p) && l2.Contains(p)
    ensures p == l1.IntersectionLine(l2)
  {
    var d := -Det2(l1.a, l1.b, l2.a, l2.b);
    var nx, ny := Det2(l1.c, l1.b, l2.c, l2.b), Det2(l1.a, l1.c, l2.a, l2.c);
    var q := l1.IntersectionLine(l2);
    MulDivCancel(nx, d);
    MulDivCancel(ny, d);
    var e1, e2 := l1.a * p.x + l1.b * p.y + l1.c, l2.a * p.x + l2.b * p.y + l2.c;
    MulBoth(e1, 0.0, l2.b);
    MulBoth(e2, 0.0, l1.b);
    MulBoth(e1, 0.0, l2.a);
    MulBoth(e2, 0.0, l1.a);
    assert p.x * d == nx;
    assert p.y * d == ny;
    assert (p.x - q.x) * d == 0.0;
    assert (p.y - q.y) * d == 0.0;
    ProductZero(p.x - q.x, d);
    ProductZero(p.y - q.y, d);
  }

  // ---------------------------------------------------------------------------
  // EuCircle
  // ---------------------------------------------------------------------------

  /** The polynomial c2*x^2 + c1*x + c0. */
  datatype Quadratic = Quadratic(c2: real, c1: real, c0: real) {

    function At(x: real): real {
      c2 * x * x + c1 * x + c0
    }
  }

  /** The pivot of intersection_line: x and y trade places when |a| > |b|. */
  predicate Inverted(line: EuLine) {
    Abs(line.a) > Abs(line.b)
  }

  /** The line with its coefficients exchanged when inverted: the divisor b is the larger one. */
  function PivotLine(line: EuLine): (l: EuLine)
    requires line.a != 0.0 || line.b != 0.0
    ensures l.b != 0.0 && Abs(l.a) <= Abs(l.b)
    ensures Inverted(line) ==> l == EuLine(line.b, line.a, line.c)
    ensures !Inverted(line) ==> l == line
  {
    if Inverted(line) then EuLine(line.b, line.a, line.c) else line
  }

  /** The circle with its centre coordinates exchanged when the line is inverted. */
  function PivotCircle(circle: EuCircle, line: EuLine): EuCircle {
    if Inverted(line) then EuCircle(circle.yy, circle.xx, circle.r) else circle
  }

  function Flip(p: EuPoint): EuPoint {
    EuPoint(p.y, p.x)
  }

  /** Maps a point of the pivoted plane back (and, Flip being an involution, forth). */
  function Unflip(line: EuLine, p: EuPoint): EuPoint {
    if Inverted(line) then Flip(p) else p
  }

  /** Pivoting moves lines and circles together with the points on them. */
  lemma PivotKeepsIncidence(circle: EuCircle, line: EuLine, p: EuPoint)
    requires line.a != 0.0 || line.b != 0.0
    ensures PivotLine(line).Contains(p) <==> line.Contains(Unflip(line, p))
    ensures PivotCircle(circle, line).Power(p) == circle.Power(Unflip(line, p))
  {
  }

  /** The points of the solved quadratic, back in the caller's coordinates (the final zip). */
  function Unpivot(line: EuLine, points: seq<EuPoint>): (r: seq<EuPoint>)
    ensures |r| == |points|
  {
    if points == [] then [] else [Unflip(line, points[0])] + Unpivot(line, points[1..])
  }

  lemma {:induction false} UnpivotAt(line: EuLine, points: seq<EuPoint>, i: int)
    requires 0 <= i < |points|
    ensures Unpivot(line, points)[i] == Unflip(line, points[i])
    decreases i
  {
    if i > 0 {
      UnpivotAt(line, points[1..], i - 1);
    }
  }

  lemma {:induction false} UnpivotMembership(line: EuLine, points: seq<EuPoint>, p: EuPoint)
    ensures p in Unpivot(line, points) <==> Unflip(line, p) in points
  {
    if points != [] {
      UnpivotMembership(line, points[1..], p);
      assert points == [points[0]] + points[1..];
      assert Unflip(line, Unflip(line, p)) == p;
      assert Unflip(line, Unflip(line, points[0])) == points[0];
    }
  }

  /** Each abscissa of xs paired with the y on the line above it. */
  function PointsAbove(l: EuLine, xs: seq<real>): (points: seq<EuPoint>)
    requires l.b != 0.0
    ensures |points| == |xs|
  {
    if xs == [] then [] else [EuPoint(xs[0], l.YAt(xs[0]))] + PointsAbove(l, xs[1..])
  }

  lemma {:induction false} PointsAboveAt(l: EuLine, xs: seq<real>, i: int)
    requires l.b != 0.0 && 0 <= i < |xs|
    ensures PointsAbove(l, xs)[i] == EuPoint(xs[i], l.YAt(xs[i]))
    decreases i
  {
    if i > 0 {
      PointsAboveAt(l, xs[1..], i - 1);
    }
  }

  /** On a line with b != 0, the points are exactly those whose y is YAt of their x. */
  lemma YAtUnique(l: EuLine, p: EuPoint)
    requires l.b != 0.0
    ensures l.Contains(p) <==> p.y == l.YAt(p.x)
  {
    var y := l.YAt(p.x);
    MulDivCancel(-(l.c + l.a * p.x), l.b);
    assert l.a * p.x + l.b * y + l.c == 0.0;
    assert l.a * p.x + l.b * p.y + l.c == l.b * (p.y - y);
    ProductZero(l.b, p.y - y);
  }

  /** The points above xs are exactly the points of the line whose abscissa is in xs. */
  lemma {:induction false} PointsAboveMembership(l: EuLine, xs: seq<real>, p: EuPoint)
    requires l.b != 0.0
    ensures p in PointsAbove(l, xs) <==> l.Contains(p) && p.x in xs
  {
    YAtUnique(l, p);
    if xs != [] {
      PointsAboveMembership(l, xs[1..], p);
      assert xs == [xs[0]] + xs[1..];
    }
  }

  /** Each root x of the quadratic paired with the y on the (pivoted) line. */
  function PivotedPoints(sqrt: real -> real, l: EuLine, q: Quadratic): seq<EuPoint>
    requires l.b != 0.0 && q.c2 != 0.0
  {
    PointsAbove(l, SolvePoly2(sqrt, q.c2, q.c1, q.c0))
  }

  lemma PivotedPointsMembership(sqrt: real -> real, l: EuLine, q: Quadratic, p: EuPoint)
    requires IsSqrt(sqrt) && l.b != 0.0 && q.c2 != 0.0
    ensures p in PivotedPoints(sqrt, l, q) <==> l.Contains(p) && q.At(p.x) == 0.0
  {
    SolvePoly2Exact(sqrt, q.c2, q.c1, q.c0, p.x);
    PointsAboveMembership(l, SolvePoly2(sqrt, q.c2, q.c1, q.c0), p);
  }

  /** The leading coefficient 1 + a^2 / b^2 of the substituted circle equation. */
  function Leading(l: EuLine): real
    requires l.b != 0.0
  {
    1.0 + (l.a * l.a) / (l.b * l.b)
  }

  lemma LeadingAtLeastOne(l: EuLine)
    requires l.b != 0.0
    ensures Leading(l) >= 1.0
  {
    SquareNonNegative(l.a);
    SquareZero(l.b);
    SquareNonNegative(l.b);
    QuotientNonNegative(l.a * l.a, l.b * l.b);
  }

  /** The coefficients euclidean.py:83-86 computes, as written. */
  function PythonCoefficients(k: EuCircle, l: EuLine): Quadratic
    requires l.b != 0.0
  {
    var tmp := l.c / l.b + k.yy;
    Quadratic(Leading(l), -2.0 * (k.xx + tmp * l.a / l.b), k.xx * k.xx + tmp * tmp - k.r * k.r)
  }

  /**
   * The coefficients of the substitution of y == YAt(x) into the circle equation:
   * those euclidean.py:83-86 evidently intends, with the linear term's sign corrected.
   */
  function CircleCoefficients(k: EuCircle, l: EuLine): Quadratic
    requires l.b != 0.0
  {
    var tmp := l.c / l.b + k.yy;
    Quadratic(Leading(l), -2.0 * (k.xx - tmp * l.a / l.b), k.xx * k.xx + tmp * tmp - k.r * k.r)
  }

  /** The corrected quadratic at x is the circle's power at the point of the line above x. */
  lemma CircleCoefficientsArePower(k: EuCircle, l: EuLine, x: real)
    requires l.b != 0.0
    ensures CircleCoefficients(k, l).At(x) == k.Power(EuPoint(x, l.YAt(x)))
  {
    var a, b, c := l.a, l.b, l.c;
    var m := a / b;
    var t := c / b + k.yy;
    var y := l.YAt(x);
    MulDivCancel(a, b);
    MulDivCancel(c, b);
    MulDivCancel(-(c + a * x), b);
    MulBoth(m * b, a, x);
    var e := y - k.yy;
    assert (e + t + m * x) * b == 0.0;
    ProductZero(e + t + m * x, b);
    assert e == -(t + m * x);
    var sq := (a * a) / (b * b);
    SquareZero(b);
    MulDivCancel(a * a, b * b);
    MulBoth(m * b, a, m * b);
    assert (sq - m * m) * (b * b) == 0.0;
    ProductZero(sq - m * m, b * b);
    var w := t * a / b;
    MulDivCancel(t * a, b);
    MulBoth(m * b, a, t);
    assert (w - t * m) * b == 0.0;
    ProductZero(w - t * m, b);
    MulBoth(e, -(t + m * x), e);
    assert CircleCoefficients(k, l) == Quadratic(1.0 + m * m, -2.0 * (k.xx - t * m), k.xx * k.xx + t * t - k.r * k.r);
  }

  datatype EuCircle = EuCircle(xx: real, yy: real, r: real) {

    /** (x - xx)^2 + (y - yy)^2 - r^2: zero on the circle, negative strictly inside. */
    function Power(p: EuPoint): real {
      (p.x - xx) * (p.x - xx) + (p.y - yy) * (p.y - yy) - r * r
    }

    predicate Contains(p: EuPoint) {
      Power(p) == 0.0
    }

    /**
     * intersection_line as written: pivot, solve the quadratic of euclidean.py:83-87, pair
     * each root with the y on the line, and swap back. A line with a == b == 0 divides by zero.
     */
    function IntersectionLine(sqrt: real -> real, line: EuLine): (points: seq<EuPoint>)
      requires line.a != 0.0 || line.b != 0.0
      ensures |points| <= 2
    {
      var l := PivotLine(line);
      var k := PivotCircle(this, line);
      LeadingAtLeastOne(l);
      Unpivot(line, PivotedPoints(sqrt, l, PythonCoefficients(k, l)))
    }

    /** intersection_line with the linear coefficient's sign corrected. */
    function IntersectionLineCorrected(sqrt: real -> real, line: EuLine): (points: seq<EuPoint>)
      requires line.a != 0.0 || line.b != 0.0
      ensures |points| <= 2
    {
      var l := PivotLine(line);
      var k := PivotCircle(this, line);
      LeadingAtLeastOne(l);
      Unpivot(line, PivotedPoints(sqrt, l, CircleCoefficients(k, l)))
    }
  }

  /** The pivoted points, swapped back, lie on the caller's line, whatever quadratic gave their x. */
  lemma UnpivotedPointOnLine(sqrt: real -> real, line: EuLine, q: Quadratic, p: EuPoint)
    requires (line.a != 0.0 || line.b != 0.0) && q.c2 != 0.0
    requires p in Unpivot(line, PivotedPoints(sqrt, PivotLine(line), q))
    ensures line.Contains(p)
  {
    var l := PivotLine(line);
    var pts := PivotedPoints(sqrt, l, q);
    UnpivotMembership(line, pts, p);
    PointsAboveMembership(l, SolvePoly2(sqrt, q.c2, q.c1, q.c0), Unflip(line, p));
    PivotKeepsIncidence(EuCircle(0.0, 0.0, 0.0), line, Unflip(line, p));
    assert Unflip(line, Unflip(line, p)) == p;
  }

  /** Every point intersection_line as written returns lies on the line, sign error or not. */
  lemma IntersectionLineOnLine(sqrt: real -> real, circle: EuCircle, line: EuLine, i: int)
    requires line.a != 0.0 || line.b != 0.0
    requires 0 <= i < |circle.IntersectionLine(sqrt, line)|
    ensures line.Contains(circle.IntersectionLine(sqrt, line)[i])
  {
    var l := PivotLine(line);
    LeadingAtLeastOne(l);
    var q := PythonCoefficients(PivotCircle(circle, line), l);
    var points := circle.IntersectionLine(sqrt, line);
    assert points == Unpivot(line, PivotedPoints(sqrt, l, q));
    assert points[i] in points;
    UnpivotedPointOnLine(sqrt, line, q, points[i]);
  }

  /** intersection_line returns one point per root solve_poly2 finds for the pivoted quadratic. */
  lemma IntersectionLineCount(sqrt: real -> real, circle: EuCircle, line: EuLine)
    requires line.a != 0.0 || line.b != 0.0
    ensures var l := PivotLine(line); var q := PythonCoefficients(PivotCircle(circle, line), l);
      && q.c2 >= 1.0
      && |circle.IntersectionLine(sqrt, line)| == |SolvePoly2(sqrt, q.c2, q.c1, q.c0)|
  {
    LeadingAtLeastOne(PivotLine(line));
  }

  /**
   * On a circle centred at the origin the sign error of euclidean.py:85 only negates the linear
   * coefficient, which leaves the discriminant alone: the intersection as written finds as many
   * points as the corrected one.
   */
  lemma CenteredCountAgrees(sqrt: real -> real, circle: EuCircle, line: EuLine)
    requires line.a != 0.0 || line.b != 0.0
    requires circle.xx == 0.0 && circle.yy == 0.0
    ensures |circle.IntersectionLine(sqrt, line)| == |circle.IntersectionLineCorrected(sqrt, line)|
  {
    var l := PivotLine(line);
    var k := PivotCircle(circle, line);
    LeadingAtLeastOne(l);
    var p, q := PythonCoefficients(k, l), CircleCoefficients(k, l);
    assert p.c2 == q.c2 && p.c0 == q.c0 && p.c1 == -q.c1;
    assert Discriminant(p.c2, p.c1, p.c0) == Discriminant(q.c2, q.c1, q.c0);
    assert |circle.IntersectionLine(sqrt, line)| == |SolvePoly2(sqrt, p.c2, p.c1, p.c0)|;
    assert |circle.IntersectionLineCorrected(sqrt, line)| == |SolvePoly2(sqrt, q.c2, q.c1, q.c0)|;
  }

  /** The corrected intersection returns exactly the points on both the line and the circle. */
  lemma IntersectionLineCorrectedExact(sqrt: real -> real, circle: EuCircle, line: EuLine, p: EuPoint)
    requires IsSqrt(sqrt) && (line.a != 0.0 || line.b != 0.0)
    ensures p in circle.IntersectionLineCorrected(sqrt, line) <==> line.Contains(p) && circle.Contains(p)
  {
    var l := PivotLine(line);
    var k := PivotCircle(circle, line);
    var q := CircleCoefficients(k, l);
    LeadingAtLeastOne(l);
    var p' := Unflip(line, p);
    assert Unflip(line, p') == p;
    UnpivotMembership(line, PivotedPoints(sqrt, l, q), p);
    PivotedPointsMembership(sqrt, l, q, p');
    PivotKeepsIncidence(circle, line, p');
    YAtUnique(l, p');
    CircleCoefficientsArePower(k, l, p'.x);
  }

  /** A line through a point strictly inside the circle meets it at two distinct points. */
  lemma SecantMeetsTwice(sqrt: real -> real, circle: EuCircle, line: EuLine, p: EuPoint)
    requires IsSqrt(sqrt) && (line.a != 0.0 || line.b != 0.0)
    requires line.Contains(p) && circle.Power(p) < 0.0
    ensures var points := circle.IntersectionLineCorrected(sqrt, line);
      |points| == 2 && points[0] != points[1]
  {
    var l := PivotLine(line);
    var k := PivotCircle(circle, line);
    var q := CircleCoefficients(k, l);
    LeadingAtLeastOne(l);
    var p' := Unflip(line, p);
    assert Unflip(line, p') == p;
    PivotKeepsIncidence(circle, line, p');
    YAtUnique(l, p');
    CircleCoefficientsArePower(k, l, p'.x);
    assert q.At(p'.x) < 0.0;
    NegativeValueTwoRoots(q.c2, q.c1, q.c0, p'.x);
    SolvePoly2Ordered(sqrt, q.c2, q.c1, q.c0);
    var xs := SolvePoly2(sqrt, q.c2, q.c1, q.c0);
    var pts := PivotedPoints(sqrt, l, q);
    PointsAboveAt(l, xs, 0);
    PointsAboveAt(l, xs, 1);
    UnpivotAt(line, pts, 0);
    UnpivotAt(line, pts, 1);
  }

  /**
   * The sign error of euclidean.py:85 on the unit circle and the line x - y + 1 == 0:
   * the as-written intersection reports (1, 2), which is not on the circle, and misses
   * (-1, 0), which is on both.
   */
  lemma PythonSignCounterexample(sqrt: real -> real)
    requires sqrt(4.0) == 2.0
    ensures var circle, line := EuCircle(0.0, 0.0, 1.0), EuLine(1.0, -1.0, 1.0);
      var points := circle.IntersectionLine(sqrt, line);
      && points == [EuPoint(0.0, 1.0), EuPoint(1.0, 2.0)] && !circle.Contains(points[1])
      && line.Contains(EuPoint(-1.0, 0.0)) && circle.Contains(EuPoint(-1.0, 0.0))
      && EuPoint(-1.0, 0.0) !in points
  {
    DiagonalIntersection(sqrt);
    DiagonalChord();
  }

  /** intersection_line as written meets x - y + 1 == 0 and the unit circle at (0, 1) and (1, 2). */
  lemma DiagonalIntersection(sqrt: real -> real)
    requires sqrt(4.0) == 2.0
    ensures EuCircle(0.0, 0.0, 1.0).IntersectionLine(sqrt, EuLine(1.0, -1.0, 1.0))
         == [EuPoint(0.0, 1.0), EuPoint(1.0, 2.0)]
  {
    var circle, line := EuCircle(0.0, 0.0, 1.0), EuLine(1.0, -1.0, 1.0);
    assert !Inverted(line);
    assert PythonCoefficients(circle, line) == Quadratic(2.0, -2.0, 0.0);
    DiagonalRoots(sqrt);
    DiagonalPoints();
    UnpivotIdentity(line, [EuPoint(0.0, 1.0), EuPoint(1.0, 2.0)]);
  }

  /** (1, 2) is off the unit circle; (-1, 0) is on it and on x - y + 1 == 0, and is neither (0, 1) nor (1, 2). */
  lemma DiagonalChord()
    ensures var circle, line := EuCircle(0.0, 0.0, 1.0), EuLine(1.0, -1.0, 1.0);
      && !circle.Contains(EuPoint(1.0, 2.0))
      && line.Contains(EuPoint(-1.0, 0.0)) && circle.Contains(EuPoint(-1.0, 0.0))
      && EuPoint(-1.0, 0.0) !in [EuPoint(0.0, 1.0), EuPoint(1.0, 2.0)]
  {
  }

  lemma DiagonalRoots(sqrt: real -> real)
    requires sqrt(4.0) == 2.0
    ensures SolvePoly2(sqrt, 2.0, -2.0, 0.0) == [0.0, 1.0]
  {
  }

  /** Above 0 and 1 the line x - y + 1 == 0 passes through (0, 1) and (1, 2). */
  lemma DiagonalPoints()
    ensures PointsAbove(EuLine(1.0, -1.0, 1.0), [0.0, 1.0]) == [EuPoint(0.0, 1.0), EuPoint(1.0, 2.0)]
  {
    var line := EuLine(1.0, -1.0, 1.0);
    assert line.YAt(0.0) == 1.0 && line.YAt(1.0) == 2.0;
    assert PointsAbove(line, [1.0]) == [EuPoint(1.0, 2.0)];
  }

  /** Without a pivot, the final swap-back leaves the points as they are. */
  lemma UnpivotIdentity(line: EuLine, points: seq<EuPoint>)
    requires !Inverted(line)
    ensures Unpivot(line, points) == points
  {
    if points != [] {
      UnpivotIdentity(line, points[1..]);
    }
  }
}
