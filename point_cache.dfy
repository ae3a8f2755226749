/**
 * The point caches of point_cache.py, which remember the points already drawn so that the
 * tessellation stops revisiting them: a list scanned linearly against a distance, and a grid of
 * epsilon-sized cells where a query looks at the 3 x 3 block of cells around the point.
 */
module PointCache {
  import E = Euclidean

  /**
   * TrivialPointCache: every stored point, in order. A query asks whether some stored point is
   * closer than epsilon; the points' distance method is the parameter `distance`.
   */
  class TrivialPointCache<P> {
    var epsilon: real
    var points: seq<P>

    constructor (epsilon: real)
      ensures this.epsilon == epsilon && points == []
    {
      this.epsilon := epsilon;
      points := [];
    }

    /** store: appends the point; earlier entries stay, in order. */
    method Store(point: P)
      modifies this
      ensures points == old(points) + [point] && epsilon == old(epsilon)
    {
      points := points + [point];
    }

    /** query: a linear scan, true as soon as a stored point is within epsilon; the cache is not changed. */
    method Query(distance: (P, P) -> real, point: P) returns (found: bool)
      ensures found <==> exists i :: 0 <= i < |points| && distance(point, points[i]) < epsilon
    {
      for i := 0 to |points|
        invariant forall j :: 0 <= j < i ==> distance(point, points[j]) >= epsilon
      {
        if distance(point, points[i]) < epsilon {
          return true;
        }
      }
      return false;
    }
  }

  /** The cells of the 3 x 3 block around `center`. */
  predicate Near(cell: (int, int), center: (int, int)) {
    -1 <= cell.0 - center.0 <= 1 && -1 <= cell.1 - center.1 <= 1
  }

  /** Two reals less than 1 apart have floors at most 1 apart. */
  lemma FloorsClose(u: real, v: real)
    requires E.Abs(u - v) < 1.0
    ensures -1 <= u.Floor - v.Floor <= 1
  {
  }

  /** Two reals whose floors are at most 1 apart are less than 2 apart. */
  lemma FloorsNear(u: real, v: real)
    requires -1 <= u.Floor - v.Floor <= 1
    ensures E.Abs(u - v) < 2.0
  {
  }

  /** Dividing by a positive epsilon scales distances by 1 / epsilon. */
  lemma ScaledDistance(a: real, b: real, epsilon: real, k: real)
    requires epsilon > 0.0
    ensures E.Abs(a / epsilon - b / epsilon) < k <==> E.Abs(a - b) < k * epsilon
  {
    var d := a / epsilon - b / epsilon;
    assert d == (a - b) / epsilon;
    E.MulDivCancel(a - b, epsilon);
    assert E.Abs(a - b) == E.Abs(d) * epsilon;
    if E.Abs(d) < k {
      assert E.Abs(d) * epsilon < k * epsilon;
    }
    if E.Abs(a - b) < k * epsilon {
      assert E.Abs(d) * epsilon < k * epsilon;
    }
  }

  /**
   * GridApproximationPointCache: the set of cells (floor(x / epsilon), floor(y / epsilon)) of the
   * points stored, the keys of the dictionary. The points themselves are the ghost history
   * `stored`, which the source does not keep.
   */
  class GridApproximationPointCache {
    var epsilon: real
    var points: set<(int, int)>
    ghost var stored: seq<E.EuPoint>

    /** The cells are exactly those of the points stored. */
    ghost predicate Valid()
      reads this
    {
      epsilon != 0.0 ==> points == set s | s in stored :: Approximate(s)
    }

    constructor (epsilon: real)
      ensures this.epsilon == epsilon && points == {} && stored == []
      ensures Valid()
    {
      this.epsilon := epsilon;
      points := {};
      stored := [];
    }

    /** approximate: the cell of the point; an epsilon of 0 divides by zero. */
    function Approximate(point: E.EuPoint): (cell: (int, int))
      reads this
      requires epsilon != 0.0
      ensures cell.0 as real <= point.x / epsilon < cell.0 as real + 1.0
      ensures cell.1 as real <= point.y / epsilon < cell.1 as real + 1.0
    {
      ((point.x / epsilon).Floor, (point.y / epsilon).Floor)
    }

    /** A query for `point` succeeds: a stored cell is in the 3 x 3 block around its cell. */
    predicate Hit(point: E.EuPoint)
      reads this
      requires epsilon != 0.0
    {
      exists cell :: cell in points && Near(cell, Approximate(point))
    }

    /** store: marks the point's cell; storing a point of a cell already marked changes nothing. */
    method Store(point: E.EuPoint)
      requires epsilon != 0.0 && Valid()
      modifies this
      ensures points == old(points) + {old(Approximate(point))}
      ensures stored == old(stored) + [point] && epsilon == old(epsilon)
      ensures old(Approximate(point)) in old(points) ==> points == old(points)
      ensures Valid()
    {
      points := points + {Approximate(point)};
      stored := stored + [point];
      assert forall s :: s in stored <==> s in old(stored) || s == point;
    }

    /**
     * query: looks at the cells x - 1, x, x + 1 by y - 1, y, y + 1 around the point's cell (x, y)
     * and is true as soon as one is marked; the cache is not changed.
     */
    method Query(point: E.EuPoint) returns (found: bool)
      requires epsilon != 0.0
      ensures found <==> Hit(point)
    {
      var (x, y) := Approximate(point);
      for x1 := x - 1 to x + 2
        invariant forall c :: c in points && x - 1 <= c.0 < x1 ==> !(y - 1 <= c.1 <= y + 1)
      {
        for y1 := y - 1 to y + 2
          invariant forall c :: c in points && x - 1 <= c.0 < x1 ==> !(y - 1 <= c.1 <= y + 1)
          invariant forall c :: c in points && c.0 == x1 ==> !(y - 1 <= c.1 < y1)
        {
          if (x1, y1) in points {
            assert Near((x1, y1), (x, y));
            return true;
          }
        }
      }
      return false;
    }

    /**
     * After store(s), a query for any point less than epsilon from s on each axis succeeds;
     * in particular query(s) does.
     */
    lemma StoredNeighbourHits(s: E.EuPoint, p: E.EuPoint)
      requires epsilon > 0.0 && Valid() && s in stored
      requires E.Abs(p.x - s.x) < epsilon && E.Abs(p.y - s.y) < epsilon
      ensures Hit(p)
    {
      ScaledDistance(p.x, s.x, epsilon, 1.0);
      ScaledDistance(p.y, s.y, epsilon, 1.0);
      FloorsClose(p.x / epsilon, s.x / epsilon);
      FloorsClose(p.y / epsilon, s.y / epsilon);
      assert Approximate(s) in points;
      assert Near(Approximate(s), Approximate(p));
    }

    /**
     * The 2 epsilon of HitNearStored is reached: with epsilon == 1, after storing (-0.99, 0.5) a
     * query for (0.99, 0.5) succeeds although the two are 1.98 apart, more than sqrt(2) epsilon.
     */
    lemma SlackBeyondDiagonal()
      requires epsilon == 1.0 && Valid() && E.EuPoint(-0.99, 0.5) in stored
      ensures Hit(E.EuPoint(0.99, 0.5))
      ensures E.EuPoint(0.99, 0.5).SqDistance(E.EuPoint(-0.99, 0.5)) > 2.0 * epsilon * epsilon
    {
      var s := E.EuPoint(-0.99, 0.5);
      assert Approximate(s) == (-1, 0);
      assert Approximate(s) in points;
      assert Near((-1, 0), Approximate(E.EuPoint(0.99, 0.5)));
    }

    /** A query that succeeds has a stored point less than 2 epsilon away on each axis. */
    lemma HitNearStored(p: E.EuPoint)
      requires epsilon > 0.0 && Valid() && Hit(p)
      ensures exists s :: s in stored && E.Abs(p.x - s.x) < 2.0 * epsilon && E.Abs(p.y - s.y) < 2.0 * epsilon
    {
      var cell :| cell in points && Near(cell, Approximate(p));
      var s :| s in stored && Approximate(s) == cell;
      FloorsNear(p.x / epsilon, s.x / epsilon);
      FloorsNear(p.y / epsilon, s.y / epsilon);
      ScaledDistance(p.x, s.x, epsilon, 2.0);
      ScaledDistance(p.y, s.y, epsilon, 2.0);
    }
  }
}
