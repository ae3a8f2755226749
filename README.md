# Hyperbolic tessellation kernel in Dafny

This project models the numeric kernel of a program that draws tessellations of the hyperbolic
plane in the Klein disk model, and proves properties of that model. It has four parts.

- **Euclidean kernel** (`euclidean.dfy`, module `Euclidean`). This is euclidean.py:
  - `det2`;
  - the quadratic solver `solve_poly2`;
  - the squared distance;
  - the line through two points, which pivots on the larger of |Δx| and |Δy|;
  - line-line intersection by Cramer's rule;
  - line-circle intersection, which pivots on the larger of |a| and |b|, solves a quadratic in
    the pivoted x, and swaps the coordinates back.
- **C twin** (`chyperbolic.dfy`, module `CHyperbolic`). These are the static helpers of
  chyperbolic.c:
  - `swap`, `solve_poly2`, `eupoint_line_to`, `euline_intersection_line` and
    `eucircle_intersection_line`;
  - each C pointer out-parameter is an in-parameter (what the cell holds on entry) plus a
    primed out-parameter (what it holds on return);
  - so a cell the C code leaves unwritten is stated to keep its value, and the final swaps of a
    pivoted call are stated exactly.
- **Hyperbolic objects** (`hyperbolic.dfy`, module `Hyperbolic`). This is the decision logic of
  hyperbolic.py:
  - `my_trunc`;
  - angle normalisation and the memoised coordinates of an ideal point (`InfPoint`, a class
    with fields `alpha` and `coords`);
  - the Euclidean line of a chord;
  - the intersection of two chords, `None` when a division by zero is caught or the point is
    outside the disk;
  - `Point.line_to`, which builds the chord through two points of the disk.
- **Point caches** (`point_cache.dfy`, module `PointCache`). These are the two caches of
  point_cache.py, which stop the tessellation from revisiting a tile:
  - a list scanned against a distance;
  - a grid of ε-sized cells, queried over the 3 × 3 block of cells around a point.

Doubles are modelled as `real`. `math.sqrt`, `math.cos`, `math.sin`, `math.atan2` and `math.pi`
are parameters (`sqrt`, `cos`, `sin`, `atan2`, `pi`). A contract that needs their meaning states
it as a hypothesis:
- `Euclidean.IsSqrt(sqrt)`: sqrt is the non-negative square root on d >= 0;
- `pi > 0`;
- `Hyperbolic.Periodic(cos, pi)`;
- `Hyperbolic.IsAngleOf(atan2, cos, sin)`.

Division by zero is handled in two ways:
- when the source does not catch it, it is a precondition (coincident points in `line_to`,
  parallel lines in `intersection_line`, a zero ε in the grid cache);
- inside the `try` of `Line.intersection` it is caught, and the model returns `None`.

Where the program's design and its code disagree, the model follows the code:
- **Range of a normalised angle.** The design gives [0, 2π). The code can also produce
  exactly 2π, when the old angle was a negative whole number of turns.
  `Hyperbolic.NormalizedAngleRange` proves when that happens.
- **Line-circle intersection.** By design it returns the points where the line meets the
  circle. The Python version has a sign error and does not (see Findings). The ideal points
  of `Point.line_to` come from that version, so they inherit the error.
- **Orientation of a chord.** By design `Point.line_to` reorders the two ideal ends so that
  the chord runs from the first point towards the second. hyperbolic.py:36-41 does no such
  reordering: p1 comes from the first extremum the intersection returns, p2 from the second.
  `Hyperbolic.Point.LineTo` keeps that order.
- **Degenerate input.** By design it gives "no result" and never a crash. The code raises:
  a division by zero for coincident points (euclidean.py:41) and a failed unpacking when
  there are not two extrema (hyperbolic.py:40). The model makes the first a precondition
  and returns `None` for the second, as described above.
- **Slack of the grid cache.** The design bounds the false-positive radius by √2 ε. The
  3 x 3 block accepts points up to 2 ε apart on each axis:
  `PointCache.GridApproximationPointCache.HitNearStored` proves that bound, and
  `PointCache.GridApproximationPointCache.SlackBeyondDiagonal` shows that it is reached.

## Model

| member | source | states |
|---|---|---|
| Euclidean.Det2 | euclidean.py:6-7 | the determinant a d - b c of the matrix with rows (a, b) and (c, d); what its vanishing means is Det2ZeroIffSingular |
| Euclidean.Det2ZeroIffSingular | euclidean.py:6-7 | det2(a, b, c, d) is zero exactly when some non-zero vector is sent to zero by both rows, i.e. the two lines are parallel |
| Euclidean.SolvePoly2 | euclidean.py:9-19 | no root when the discriminant is negative, one when it is zero, two when it is positive, each in both directions |
| Euclidean.SolvePoly2Exact | euclidean.py:9-19 | for a != 0 and sqrt the square root, x is in the returned list exactly when a x² + b x + c == 0 |
| Euclidean.SolvePoly2Ordered | euclidean.py:16-17 | two returned roots are distinct, the first below the second when a > 0 and above it when a < 0 |
| Euclidean.NegativeValueTwoRoots | euclidean.py:10-17 | a polynomial with a > 0 that takes a negative value has a positive discriminant, hence two roots |
| Euclidean.EuPoint.SqDistance | euclidean.py:27-28 | the squared distance is never negative and is zero exactly between equal points |
| Euclidean.SqDistanceSymmetric | euclidean.py:27-28 | the squared distance is symmetric |
| Euclidean.EuPoint.LineTo | euclidean.py:33-43 | both points lie on the line; when \|Δx\| > \|Δy\|, b == -1 and \|a\| < 1, otherwise a == -1 and \|b\| <= 1; coincident points are excluded (division by zero) |
| Euclidean.LineToCollinear | euclidean.py:33-43 | a point lies on the line built by line_to exactly when it is collinear with the two points |
| Euclidean.EuLine.IntersectionLine | euclidean.py:56-60 | when det2(a1, b1, a2, b2) != 0 the point found lies on both lines; det2 == 0 is excluded (division by zero) |
| Euclidean.IntersectionLineUnique | euclidean.py:56-60 | the point found is the only point on both lines |
| Euclidean.PivotLine | euclidean.py:77-81 | after the pivot the divisor b is non-zero and \|a\| <= \|b\|; the coefficients are swapped exactly when \|a\| > \|b\| |
| Euclidean.PivotKeepsIncidence | euclidean.py:77-81 | pivoting the line and circle and swapping a point's coordinates back keeps incidence with the line and the power with respect to the circle |
| Euclidean.PointsAboveAt | euclidean.py:88 | the i-th point paired with the roots has the i-th root as x and -(c + a x) / b as y |
| Euclidean.PointsAboveMembership | euclidean.py:88 | a point is among those paired with the roots exactly when it is on the line and its x is one of the roots |
| Euclidean.YAtUnique | euclidean.py:88 | on a line with b != 0, a point is on the line exactly when its y is -(c + a x) / b |
| Euclidean.UnpivotAt | euclidean.py:90-93 | the i-th returned point is the i-th pivoted point, with its coordinates swapped exactly when the line was pivoted |
| Euclidean.UnpivotMembership | euclidean.py:90-93 | a point is returned exactly when its swapped-back form is among the pivoted points |
| Euclidean.UnpivotIdentity | euclidean.py:90-93 | without a pivot the swap-back leaves the points unchanged |
| Euclidean.PivotedPointsMembership | euclidean.py:87-88 | a pivoted point is listed exactly when it is on the pivoted line and its x is a root of the quadratic |
| Euclidean.LeadingAtLeastOne | euclidean.py:83 | the leading coefficient 1 + a²/b² is at least 1, so solve_poly2 never divides by zero |
| Euclidean.PythonCoefficients | euclidean.py:83-86 | the pivoted quadratic as written: 1 + a²/b², -2 (xx + tmp a / b) and xx² + tmp² - r² with tmp == c / b + yy; PythonSignCounterexample shows its roots can be off the circle |
| Euclidean.CircleCoefficients | euclidean.py:83-86 | the same quadratic with the linear coefficient -2 (xx - tmp a / b); CircleCoefficientsArePower states what it means |
| Euclidean.CircleCoefficientsArePower | euclidean.py:83-86 | with the corrected sign, the quadratic at x equals the circle's power at the point of the line above x |
| Euclidean.EuCircle.IntersectionLine | euclidean.py:73-93 | the intersection as written returns at most two points |
| Euclidean.IntersectionLineCount | euclidean.py:73-93 | it returns exactly as many points as solve_poly2 finds roots of the pivoted quadratic |
| Euclidean.IntersectionLineOnLine | euclidean.py:73-93 | every point it returns lies on the line |
| Euclidean.UnpivotedPointOnLine | euclidean.py:87-93 | whatever quadratic gives the x's, the points paired with them and swapped back lie on the caller's line |
| Euclidean.EuCircle.IntersectionLineCorrected | euclidean.py:73-93 | the corrected intersection returns at most two points |
| Euclidean.CenteredCountAgrees | euclidean.py:83-87 | on a circle centred at the origin the sign error only negates the linear coefficient, so the intersection as written returns as many points as the corrected one |
| Euclidean.IntersectionLineCorrectedExact | euclidean.py:73-93 | the corrected intersection returns exactly the points on both the line and the circle |
| Euclidean.SecantMeetsTwice | euclidean.py:73-93 | a line through a point strictly inside the circle meets it at exactly two distinct points |
| Euclidean.PythonSignCounterexample | euclidean.py:85 | on the unit circle and x - y + 1 == 0 the intersection as written returns (0, 1) and (1, 2); (1, 2) is off the circle, and (-1, 0), on both, is missed |
| CHyperbolic.Swap | chyperbolic.c:7-13 | the two cells exchange their contents |
| CHyperbolic.SolvePoly2 | chyperbolic.c:21-36 | returns the number of roots (0, 1 or 2, by the sign of the discriminant) and writes that many roots, in the Euclidean order, to *x1 and *x2; an unwritten cell keeps its value; with two roots and a > 0, *x1 < *x2 |
| CHyperbolic.EuPointLineTo | chyperbolic.c:38-52 | writes the same line as Euclidean line_to: both points on it, and one coefficient -1 with the other of magnitude at most 1 |
| CHyperbolic.EuLineIntersectionLine | chyperbolic.c:54-60 | writes the Cramer point, which lies on both lines, when det2 != 0 |
| CHyperbolic.CCoefficients | chyperbolic.c:71-74 | the pivoted quadratic as written in C, with the correct sign of coeff1 and the leading term `1 + a*a / b*b`; CLeadingIsOnePlusSquare shows that `a*a / b*b` evaluates to a², and CCoefficientsAgree that it is the intended quadratic whenever \|b\| == 1 |
| CHyperbolic.CLeadingIsOnePlusSquare | chyperbolic.c:71 | `a*a / b*b` evaluates to a², so the leading coefficient as written is 1 + a² >= 1 |
| CHyperbolic.EuCircleIntersectionLine | chyperbolic.c:62-86 | returns the number of points and writes them, in order, as (*x1, *y1) and (*x2, *y2); a pair it does not write comes back swapped when the line was pivoted and unchanged otherwise |
| CHyperbolic.CIntersectionPoints | chyperbolic.c:62-86 | the points eucircle_intersection_line reports, in order and in the caller's coordinates: at most two |
| CHyperbolic.CIntersectionOnLine | chyperbolic.c:64-82 | every point written lies on the caller's original line (a, b, c) |
| CHyperbolic.CIntersectionCount | chyperbolic.c:71-84 | the count is solve_poly2's on the pivoted coefficients, whose leading coefficient is at least 1 |
| CHyperbolic.CCoefficientsAgree | chyperbolic.c:71-74 | when the pivoted \|b\| == 1 the quadratic as written equals the intended one |
| CHyperbolic.CIntersectionOnCircle | chyperbolic.c:71-77 | when the pivoted \|b\| == 1 the C points are the corrected intersection: exactly the points on both the line and the circle |
| CHyperbolic.LineToPivotsToUnit | chyperbolic.c:38-52 | a line built by eupoint_line_to always has \|b\| == 1 after the pivot, so the grouping error never shows for those lines |
| CHyperbolic.CPrecedenceCounterexample | chyperbolic.c:71 | on the unit circle and 0.75x + 2y == 0 the C intersection returns (-0.8, 0.3) and (0.8, -0.3), which are off the circle (0.8² + 0.3² == 0.73) |
| Hyperbolic.TruncBounds | hyperbolic.py:10 | math.trunc rounds toward zero and equals x exactly when x is a whole number |
| Hyperbolic.MyTrunc | hyperbolic.py:8-12 | for x >= 0 the result is at most x and within 1 below it; for x < 0, x - 1 <= my_trunc(x) < x; it equals x - 1 exactly when x is a negative whole number |
| Hyperbolic.NormalizedAngle | hyperbolic.py:58 | the angle normalize stores, alpha - 2π my_trunc(alpha / 2π); NormalizedAngleRange states its range |
| Hyperbolic.NormalizedAngleRange | hyperbolic.py:57-58 | normalize moves alpha by a whole number of turns into [0, 2π], and lands on 2π exactly when alpha was a negative whole number of turns |
| Hyperbolic.InfPoint.constructor | hyperbolic.py:45-47 | a new ideal point holds the angle and no cached coordinates |
| Hyperbolic.InfPoint.FromXY | hyperbolic.py:49-51 | a fresh ideal point at angle atan2(y, x), with no cached coordinates |
| Hyperbolic.InfPoint.Normalize | hyperbolic.py:57-58 | alpha becomes its normalised angle in [0, 2π], the same number of turns away; the cache is kept, and stays valid when cos and sin repeat every turn |
| Hyperbolic.InfPoint.Coords | hyperbolic.py:60-63 | what get_coords returns: the cached pair if there is one, else (cos α, sin α); GetCoords is proved to return it |
| Hyperbolic.InfPoint.GetCoords | hyperbolic.py:60-63 | returns the cached pair if there is one, else computes (cos α, sin α) and caches it; a cache once set is never changed and alpha is not touched |
| Hyperbolic.Line.ToEuLine | hyperbolic.py:91-94 | the Euclidean line of a chord contains both of its ends; a chord whose ends coincide is excluded (division by zero) |
| Hyperbolic.Line.Intersection | hyperbolic.py:96-104 | a point returned is in the closed unit disk and on both chords' Euclidean lines |
| Hyperbolic.IntersectionDegenerate | hyperbolic.py:96-104 | a chord with coincident ends, on either side, gives None (the division error is caught) |
| Hyperbolic.IntersectionParallel | hyperbolic.py:96-104 | chords whose lines have det2 == 0 give None (the division error is caught) |
| Hyperbolic.IntersectionFindsCommonPoint | hyperbolic.py:96-104 | for non-parallel chords, the result is Some(q) exactly when q is on both lines and in the closed disk |
| Hyperbolic.Point.Extrema | hyperbolic.py:37-39 | the as-written line-circle intersection of the line through the two points with the unit circle: at most two points |
| Hyperbolic.Point.ExtremaCorrected | hyperbolic.py:37-39 | the same with the sign of euclidean.py:85 corrected: at most two points |
| Hyperbolic.ExtremaOnLine | hyperbolic.py:38-39 | every extremum line_to finds lies on the line through the two points |
| Hyperbolic.Point.LineTo | hyperbolic.py:36-41 | builds a chord exactly when there are two extrema, with fresh ideal points at atan2 of the first and second extremum, in that order; otherwise the unpacking fails (None) |
| Hyperbolic.ExtremaOnChord | hyperbolic.py:38-39 | with the sign corrected, every extremum lies on the unit circle and on the line through the two points |
| Hyperbolic.ExtremumAngleRoundTrip | hyperbolic.py:40 | with the sign corrected, when atan2 inverts (cos, sin) on the unit circle, the ideal point built from an extremum has that extremum as its coordinates |
| Hyperbolic.LineToSucceedsInsideDisk | hyperbolic.py:36-41 | from a point strictly inside the disk there are always two distinct extrema, as written and corrected, so line_to never fails there |
| Hyperbolic.TwoExtremaDistinct | euclidean.py:87-93 | when the intersection as written returns two points they are distinct |
| Hyperbolic.LineToCounterexample | hyperbolic.py:39 | for the points (0.5, 0.5) and (0.6, 0.4), line_to takes its ideal points at (-1, 2), off the unit circle, and (0, 1); the corrected ends are (0, 1) and (1, 0) |
| PointCache.TrivialPointCache.constructor | point_cache.py:8-10 | a new cache holds epsilon and no points |
| PointCache.TrivialPointCache.Store | point_cache.py:12-13 | appends exactly the point; earlier entries are unchanged and in order |
| PointCache.TrivialPointCache.Query | point_cache.py:15-19 | true exactly when some stored point is at distance below epsilon; the cache is not changed |
| PointCache.GridApproximationPointCache.constructor | point_cache.py:23-25 | a new cache holds epsilon and no cells |
| PointCache.GridApproximationPointCache.Approximate | point_cache.py:27-30 | the cell (floor(x/ε), floor(y/ε)): x/ε and y/ε lie in the unit interval starting at the cell's indices |
| PointCache.GridApproximationPointCache.Store | point_cache.py:32-33 | adds exactly the point's cell; storing a point whose cell is already marked leaves the cells unchanged; the cells remain those of the points stored |
| PointCache.GridApproximationPointCache.Query | point_cache.py:35-41 | true exactly when a stored cell differs from the point's cell by at most 1 on each axis; the cache is not changed |
| PointCache.GridApproximationPointCache.StoredNeighbourHits | point_cache.py:32-41 | after store(s), a query for any point within ε of s on each axis succeeds, in particular query(s) |
| PointCache.GridApproximationPointCache.HitNearStored | point_cache.py:27-41 | a query that succeeds has a stored point within 2ε on each axis |
| PointCache.GridApproximationPointCache.SlackBeyondDiagonal | point_cache.py:27-41 | with ε == 1, after storing (-0.99, 0.5) a query for (0.99, 0.5) succeeds although the points are 1.98 apart, more than √2 ε |

## Left out

- polygons.py, teichmuller.py, draw.py and utils.py:
  - a foreign root finder (scipy brentq);
  - transcendental float geometry;
  - cairo and pygame rendering.

  None of it is part of this model.
- The CPython glue at chyperbolic.c:88-138 (`c_*` wrappers, the method table, module
  initialisation) is foreign-call plumbing.
- The C det2 (chyperbolic.c:15-19) is the same expression as the Python one: the C model uses
  `Euclidean.Det2`.
- `EuCircle.polar` and `EuCircle.intersection_circle` (euclidean.py:95-102) use undefined names
  `x` and `y`, so they cannot run. `EuLine.intersection_circle` (euclidean.py:62-63) only
  forwards to `EuCircle.intersection_line`; `Point.Extrema` calls `EuCircle.IntersectionLine`,
  the model of `EuCircle.intersection_line`, directly.
- `EuPoint.distance` and `EuPoint.circle_to` are a sqrt and a constructor. The trivial cache
  takes the distance as a parameter.
- `InfPoint.from_eupoint`, `InfPoint.to_point`, `InfPoint.line_to` and `Point.to_point` are
  conversions. `Point.LineTo` takes its second point as a `Point`.
- Every `draw_klein` method is a renderer call.
- Floating-point rounding, overflow, and C's inf and NaN results of a division by zero: doubles
  are exact reals, and a division by zero is a precondition.
- Aliasing between the C out-pointers: the cells are modelled as distinct.
- The trivial cache's generic points are compared only through the distance parameter.
- Hyperbolic.Line.ToEuLine: reads the ends' coordinates as get_coords would return them, but
  does not model get_coords writing the cache of an end that had none.
- Hyperbolic.Line.Intersection: same as ToEuLine. It states only what a returned point
  satisfies; the None cases and the converse are the lemmas IntersectionDegenerate,
  IntersectionParallel and IntersectionFindsCommonPoint.
- Hyperbolic.Point.LineTo: the exception raised when there are not exactly two extrema is
  modelled as None.
- Hyperbolic.ExtremaOnChord: stated of the corrected extrema only; the extrema line_to finds
  as written can be off the unit circle (LineToCounterexample).
- Hyperbolic.ExtremumAngleRoundTrip: stated of the corrected extrema only, for the same reason.
- Euclidean.IntersectionLineOnLine: states only that the points lie on the line, not on the
  circle, because of the sign error at euclidean.py:85.
- CHyperbolic.CIntersectionOnCircle: states circle membership only when the pivoted |b| == 1,
  because of the grouping at chyperbolic.c:71.
- PointCache.GridApproximationPointCache.Valid: the ghost history `stored` of the points stored
  is not kept by the source. It is needed to state what a hit means.

## Findings

| source | as written | input that shows it | evidently intended | confidence | as-written member | corrected member |
|---|---|---|---|---|---|---|
| euclidean.py:85 | `coeff1 = -2 * (xx + tmp * a / b)` | unit circle, line x - y + 1 == 0: returns (0, 1) and (1, 2), and misses (-1, 0) | `-2 * (xx - tmp * a / b)`, as at chyperbolic.c:73, so that the points are on the circle (proved as Euclidean.IntersectionLineCorrectedExact) | high (algebraic, not executed) | Euclidean.PythonSignCounterexample | Euclidean.EuCircle.IntersectionLineCorrected |
| chyperbolic.c:71 | `1 + a*a / b*b`, which C groups as 1 + ((a*a) / b) * b == 1 + a² | unit circle, line 0.75x + 2y == 0: returns (-0.8, 0.3) and (0.8, -0.3), off the circle | `1 + (a*a) / (b*b)`; latent for lines from eupoint_line_to, whose pivoted \|b\| is 1 (proved as CHyperbolic.CIntersectionOnCircle) | high (algebraic, not executed) | CHyperbolic.CPrecedenceCounterexample | Euclidean.EuCircle.IntersectionLineCorrected |
| hyperbolic.py:39 | `extrema = euline.intersection_circle(...)`, which reaches the sign error of euclidean.py:85 | line_to from (0.5, 0.5) to (0.6, 0.4): the line is -x - y + 1 == 0, and the ideal points are taken at atan2 of (-1, 2), off the unit circle, and (0, 1) | the ends of the chord, (0, 1) and (1, 0), on the unit circle (proved for every chord as Hyperbolic.ExtremaOnChord) | high (algebraic, not executed) | Hyperbolic.LineToCounterexample | Hyperbolic.Point.ExtremaCorrected |
