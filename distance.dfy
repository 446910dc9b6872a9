/**
 * The Manhattan (sum of coordinate differences) and Chebyshev (largest
 * coordinate difference) distances between points.
 */
module Distances {
  import opened Float
  import opened Points

  /** The sum of the coordinate differences: it bounds each of them. */
  function ManhattanDistance(p1: Point3D, p2: Point3D): (r: real)
    ensures Abs(p1.x - p2.x) <= r && Abs(p1.y - p2.y) <= r && Abs(p1.z - p2.z) <= r
  {
    Abs(p1.x - p2.x) + Abs(p1.y - p2.y) + Abs(p1.z - p2.z)
  }

  /** The largest coordinate difference: it bounds each and equals one. */
  function ChebyshevDistance(p1: Point3D, p2: Point3D): (r: real)
    ensures Abs(p1.x - p2.x) <= r && Abs(p1.y - p2.y) <= r && Abs(p1.z - p2.z) <= r
    ensures r == Abs(p1.x - p2.x) || r == Abs(p1.y - p2.y) || r == Abs(p1.z - p2.z)
  {
    var dx := Abs(p1.x - p2.x);
    var dy := Abs(p1.y - p2.y);
    var dz := Abs(p1.z - p2.z);
    Max(Max(dx, dy), dz)
  }

  // ---------------------------------------------------------------------
  // Properties

  /** Both are symmetric and vanish exactly on identical points. */
  lemma Symmetric(p1: Point3D, p2: Point3D)
    ensures ManhattanDistance(p1, p2) == ManhattanDistance(p2, p1)
    ensures ChebyshevDistance(p1, p2) == ChebyshevDistance(p2, p1)
    ensures ManhattanDistance(p1, p2) == 0.0 <==> p1 == p2
    ensures ChebyshevDistance(p1, p2) == 0.0 <==> p1 == p2
  {
    assert Abs(p1.x - p2.x) == Abs(p2.x - p1.x);
    assert Abs(p1.y - p2.y) == Abs(p2.y - p1.y);
    assert Abs(p1.z - p2.z) == Abs(p2.z - p1.z);
  }

  /** `0 <= Chebyshev <= Manhattan <= 3 * Chebyshev`. */
  lemma ChebyshevBoundsManhattan(p1: Point3D, p2: Point3D)
    ensures 0.0 <= ChebyshevDistance(p1, p2) <= ManhattanDistance(p1, p2)
    ensures ManhattanDistance(p1, p2) <= 3.0 * ChebyshevDistance(p1, p2)
  {
  }

  lemma AbsTriangle(a: real, b: real, c: real)
    ensures Abs(a - c) <= Abs(a - b) + Abs(b - c)
  {
  }

  /** The Manhattan distance satisfies the triangle inequality. */
  lemma ManhattanTriangle(p: Point3D, q: Point3D, r: Point3D)
    ensures ManhattanDistance(p, r) <= ManhattanDistance(p, q) + ManhattanDistance(q, r)
  {
    AbsTriangle(p.x, q.x, r.x);
    AbsTriangle(p.y, q.y, r.y);
    AbsTriangle(p.z, q.z, r.z);
  }

  /** The Chebyshev distance satisfies the triangle inequality. */
  lemma ChebyshevTriangle(p: Point3D, q: Point3D, r: Point3D)
    ensures ChebyshevDistance(p, r) <= ChebyshevDistance(p, q) + ChebyshevDistance(q, r)
  {
    var bound := ChebyshevDistance(p, q) + ChebyshevDistance(q, r);
    AbsTriangle(p.x, q.x, r.x);
    AbsTriangle(p.y, q.y, r.y);
    AbsTriangle(p.z, q.z, r.z);
    assert Abs(p.x - r.x) <= bound && Abs(p.y - r.y) <= bound && Abs(p.z - r.z) <= bound;
  }

  lemma Examples()
    ensures ManhattanDistance(Origin(), Point3D(3.0, 4.0, 5.0)) == 12.0
    ensures ManhattanDistance(Point3D(1.0, 2.0, 3.0), Point3D(-1.0, -2.0, -3.0)) == 12.0
    ensures ChebyshevDistance(Origin(), Point3D(3.0, 4.0, 5.0)) == 5.0
    ensures ChebyshevDistance(Point3D(1.0, 2.0, 3.0), Point3D(-1.0, -2.0, -3.0)) == 6.0
    ensures ChebyshevDistance(Origin(), Point3D(1.0, 10.0, 2.0)) == 10.0
  {
  }
}
