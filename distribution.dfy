/**
 * The sampled distribution function of src/simulation/distribution.rs: a
 * three-dimensional array of bins over (x, y, angle), rebuilt in place as a
 * histogram of particle grid coordinates, read through a periodic index and
 * differentiated by central differences with wrap-around neighbours.
 *
 * `f64` is modelled as `real`; the mapping of a particle to its grid cell
 * (`coord_to_grid`, a floor of a quotient) is a parameter.
 */
module Distributions {
  import Particles

  /** Number of grid cells along x, y and the angle axis. */
  datatype GridSize = GridSize(x: nat, y: nat, a: nat)

  /** Edge lengths of one grid cell. */
  datatype GridWidth = GridWidth(x: real, y: real, a: real)

  /** A cell of the grid, as `[usize; 3]`. */
  datatype GridCoordinate = GridCoordinate(x: nat, y: nat, a: nat)

  predicate InGrid(c: GridCoordinate, s: GridSize)
  {
    c.x < s.x && c.y < s.y && c.a < s.a
  }

  // ---------------------------------------------------------------------------
  // Periodic index arithmetic

  /** Rust's `%` on integers: truncating division, the remainder takes the dividend's sign. */
  function RustRem(i: int, b: int): (r: int)
    requires b > 0
    ensures i >= 0 ==> 0 <= r < b && r == i % b
    ensures i < 0 ==> -b < r <= 0 && -r == (-i) % b
  {
    if i >= 0 then i % b else -((-i) % b)
  }

  /**
   * `wrap(i, b) = ((i % b) + b) % b` with Rust's truncating `%`: the result
   * lies in [0, b) and is the Euclidean remainder of i, so the double
   * remainder repairs negative indices.
   */
  function Wrap(i: int, b: int): (r: nat)
    requires b > 0
    ensures r < b
    ensures r == i % b
  {
    WrapIsEuclidean(i, b);
    (RustRem(i, b) + b) % b
  }

  lemma WrapIsEuclidean(i: int, b: int)
    requires b > 0
    ensures (RustRem(i, b) + b) % b == i % b
  {
    if i >= 0 {
      var s := i % b;
      ModUnique(s + b, b, 1, s);
    } else {
      var q, s := (-i) / b, (-i) % b;
      assert -i == b * q + s;
      if s == 0 {
        ModUnique(b, b, 1, 0);
        assert i == b * (-q) + 0;
        ModUnique(i, b, -q, 0);
      } else {
        ModUnique(b - s, b, 0, b - s);
        assert i == b * (-q - 1) + (b - s) by {
          assert b * (-q - 1) == -(b * q) - b;
        }
        ModUnique(i, b, -q - 1, b - s);
      }
    }
  }

  /** i = b * k + r with 0 <= r < b determines the Euclidean quotient and remainder. */
  lemma ModUnique(i: int, b: int, k: int, r: int)
    requires b > 0 && 0 <= r < b && i == b * k + r
    ensures i % b == r && i / b == k
  {
    var q, s := i / b, i % b;
    assert i == b * q + s;
    var d := k - q;
    assert b * d == s - r by {
      assert b * d == b * k - b * q;
    }
    if d >= 1 {
      MulAtLeast(b, d);
    } else if d <= -1 {
      MulAtLeast(b, -d);
    }
  }

  lemma {:induction false} MulAtLeast(b: int, d: int)
    requires b > 0 && d >= 1
    ensures b * d >= b
  {
    if d > 1 {
      MulAtLeast(b, d - 1);
      assert b * d == b * (d - 1) + b;
    }
  }

  /** Shifting an index by a whole period does not change its wrapped value. */
  lemma WrapPeriodic(i: int, b: int)
    requires b > 0
    ensures Wrap(i + b, b) == Wrap(i, b)
    ensures Wrap(i - b, b) == Wrap(i, b)
  {
    var q, s := i / b, i % b;
    assert i == b * q + s;
    assert i + b == b * (q + 1) + s by {
      assert b * (q + 1) == b * q + b;
    }
    ModUnique(i + b, b, q + 1, s);
    assert i - b == b * (q - 1) + s by {
      assert b * (q - 1) == b * q - b;
    }
    ModUnique(i - b, b, q - 1, s);
  }

  /** An index already in [0, b) is its own wrapped value. */
  lemma WrapOfInRange(i: int, b: int)
    requires 0 <= i < b
    ensures Wrap(i, b) == i
  {
    ModUnique(i, b, 0, i);
  }

  /**
   * The neighbour indices of `spatgrad`, `(i + s - 1) % s` and `(i + 1) % s`
   * on unsigned integers, are the wrapped indices i - 1 and i + 1.
   */
  lemma NeighbourIndices(i: nat, s: nat)
    requires i < s
    ensures (i + s - 1) % s == Wrap(i - 1, s)
    ensures (i + 1) % s == Wrap(i + 1, s)
  {
    if i >= 1 {
      ModUnique(i + s - 1, s, 1, i - 1);
      WrapOfInRange(i - 1, s);
    } else {
      ModUnique(s - 1, s, 0, s - 1);
      ModUnique(-1, s, -1, s - 1);
    }
    if i + 1 < s {
      ModUnique(i + 1, s, 0, i + 1);
    } else {
      ModUnique(i + 1, s, 1, 0);
    }
  }

  /** The wrapped indices the index test uses on a grid of shape (2, 3, 2). */
  lemma WrapExamples()
    ensures Wrap(-1, 2) == 1 && Wrap(-9, 2) == 1 && Wrap(-3, 3) == 0
    ensures Wrap(21, 2) == 1 && Wrap(3, 2) == 1 && Wrap(4, 2) == 0
  {
  }

  // ---------------------------------------------------------------------------
  // Histogram counts

  /** How many of the particles `coord_to_grid` maps to cell c. */
  ghost function Hits<P>(ps: seq<P>, coordToGrid: P -> GridCoordinate, c: GridCoordinate): (r: nat)
    ensures r <= |ps|
  {
    if ps == [] then 0
    else Hits(ps[..|ps| - 1], coordToGrid, c) + (if coordToGrid(ps[|ps| - 1]) == c then 1 else 0)
  }

  /** One more particle adds exactly one to its own cell and nothing to any other. */
  lemma HitsSnoc<P>(ps: seq<P>, coordToGrid: P -> GridCoordinate, p: P, c: GridCoordinate)
    ensures Hits(ps + [p], coordToGrid, c)
         == Hits(ps, coordToGrid, c) + (if coordToGrid(p) == c then 1 else 0)
  {
    assert (ps + [p])[..|ps|] == ps;
  }

  /** Sum of the counts of the cells (x, y, 0), ..., (x, y, k - 1). */
  ghost function LineSum<P>(ps: seq<P>, coordToGrid: P -> GridCoordinate, x: nat, y: nat, k: nat): nat
  {
    if k == 0 then 0
    else LineSum(ps, coordToGrid, x, y, k - 1) + Hits(ps, coordToGrid, GridCoordinate(x, y, k - 1))
  }

  /** Sum of the counts of the lines (x, 0), ..., (x, m - 1), each over `sa` angles. */
  ghost function PlaneSum<P>(ps: seq<P>, coordToGrid: P -> GridCoordinate, x: nat, m: nat, sa: nat): nat
  {
    if m == 0 then 0
    else PlaneSum(ps, coordToGrid, x, m - 1, sa) + LineSum(ps, coordToGrid, x, m - 1, sa)
  }

  /** Sum of the counts of every cell with x < n, y < sy and angle < sa. */
  ghost function GridSum<P>(ps: seq<P>, coordToGrid: P -> GridCoordinate, n: nat, sy: nat, sa: nat): nat
  {
    if n == 0 then 0
    else GridSum(ps, coordToGrid, n - 1, sy, sa) + PlaneSum(ps, coordToGrid, n - 1, sy, sa)
  }

  /** Cell c is one of (x, y, 0), ..., (x, y, k - 1). */
  predicate InLine(c: GridCoordinate, x: nat, y: nat, k: nat)
  {
    c.x == x && c.y == y && c.a < k
  }

  /** Cell c has first index x, second index below m and angle below sa. */
  predicate InPlane(c: GridCoordinate, x: nat, m: nat, sa: nat)
  {
    c.x == x && c.y < m && c.a < sa
  }

  lemma {:induction false} LineSumSnoc<P>(ps: seq<P>, coordToGrid: P -> GridCoordinate, p: P, x: nat, y: nat, k: nat)
    ensures LineSum(ps + [p], coordToGrid, x, y, k)
         == LineSum(ps, coordToGrid, x, y, k) + (if InLine(coordToGrid(p), x, y, k) then 1 else 0)
  {
    if k > 0 {
      LineSumSnoc(ps, coordToGrid, p, x, y, k - 1);
      HitsSnoc(ps, coordToGrid, p, GridCoordinate(x, y, k - 1));
    }
  }

  lemma {:induction false} PlaneSumSnoc<P>(ps: seq<P>, coordToGrid: P -> GridCoordinate, p: P, x: nat, m: nat, sa: nat)
    ensures PlaneSum(ps + [p], coordToGrid, x, m, sa)
         == PlaneSum(ps, coordToGrid, x, m, sa) + (if InPlane(coordToGrid(p), x, m, sa) then 1 else 0)
  {
    if m > 0 {
      PlaneSumSnoc(ps, coordToGrid, p, x, m - 1, sa);
      LineSumSnoc(ps, coordToGrid, p, x, m - 1, sa);
    }
  }

  lemma {:induction false} GridSumSnoc<P>(ps: seq<P>, coordToGrid: P -> GridCoordinate, p: P, n: nat, sy: nat, sa: nat)
    ensures GridSum(ps + [p], coordToGrid, n, sy, sa)
         == GridSum(ps, coordToGrid, n, sy, sa) + (if InGrid(coordToGrid(p), GridSize(n, sy, sa)) then 1 else 0)
  {
    if n > 0 {
      GridSumSnoc(ps, coordToGrid, p, n - 1, sy, sa);
      PlaneSumSnoc(ps, coordToGrid, p, n - 1, sy, sa);
    }
  }

  /** When every particle falls inside the grid, the bins add up to the number of particles. */
  lemma {:induction false} HistogramTotal<P>(ps: seq<P>, coordToGrid: P -> GridCoordinate, s: GridSize)
    requires forall k :: 0 <= k < |ps| ==> InGrid(coordToGrid(ps[k]), s)
    ensures GridSum(ps, coordToGrid, s.x, s.y, s.a) == |ps|
  {
    if ps != [] {
      var init, last := ps[..|ps| - 1], ps[|ps| - 1];
      assert ps == init + [last];
      HistogramTotal(init, coordToGrid, s);
      GridSumSnoc(init, coordToGrid, last, s.x, s.y, s.a);
      assert InGrid(coordToGrid(last), GridSize(s.x, s.y, s.a));
    } else {
      GridSumEmpty(coordToGrid, s.x, s.y, s.a);
    }
  }

  lemma {:induction false} LineSumEmpty<P>(coordToGrid: P -> GridCoordinate, x: nat, y: nat, k: nat)
    ensures LineSum([], coordToGrid, x, y, k) == 0
  {
    if k > 0 {
      LineSumEmpty(coordToGrid, x, y, k - 1);
    }
  }

  lemma {:induction false} PlaneSumEmpty<P>(coordToGrid: P -> GridCoordinate, x: nat, m: nat, sa: nat)
    ensures PlaneSum([], coordToGrid, x, m, sa) == 0
  {
    if m > 0 {
      PlaneSumEmpty(coordToGrid, x, m - 1, sa);
      LineSumEmpty(coordToGrid, x, m - 1, sa);
    }
  }

  lemma {:induction false} GridSumEmpty<P>(coordToGrid: P -> GridCoordinate, n: nat, sy: nat, sa: nat)
    ensures GridSum([], coordToGrid, n, sy, sa) == 0
  {
    if n > 0 {
      GridSumEmpty(coordToGrid, n - 1, sy, sa);
      PlaneSumEmpty(coordToGrid, n - 1, sy, sa);
    }
  }

  // ---------------------------------------------------------------------------
  // The distribution

  class Distribution {
    /** The bins, indexed by (x, y, angle) cell. */
    var dist: array3<real>
    const gridWidth: GridWidth

    /** Every axis of the grid has at least one cell, so every index can be wrapped. */
    ghost predicate Valid()
      reads this
    {
      dist.Length0 > 0 && dist.Length1 > 0 && dist.Length2 > 0
    }

    function Shape(): GridSize
      reads this
    {
      GridSize(dist.Length0, dist.Length1, dist.Length2)
    }

    /** `Distribution::new`: all bins zero, one bin per grid cell, cell widths box / grid and 2π / angle cells. */
    constructor(grid: GridSize, boxdim: (real, real))
      requires grid.x > 0 && grid.y > 0 && grid.a > 0
      ensures Valid() && fresh(dist)
      ensures Shape() == grid
      ensures forall i, j, k :: 0 <= i < grid.x && 0 <= j < grid.y && 0 <= k < grid.a ==> dist[i, j, k] == 0.0
      ensures gridWidth == GridWidth(boxdim.0 / grid.x as real, boxdim.1 / grid.y as real,
                                     Particles.TWOPI / grid.a as real)
    {
      gridWidth := GridWidth(boxdim.0 / grid.x as real, boxdim.1 / grid.y as real,
                             Particles.TWOPI / grid.a as real);
      dist := new real[grid.x, grid.y, grid.a]((i, j, k) => 0.0);
    }

    /**
     * The periodic index operator `d[[i, j, k]]`: each index wrapped into
     * its axis, so any integer triple reads the bin of the Euclidean
     * remainders.
     */
    function At(i: int, j: int, k: int): (r: real)
      requires Valid()
      reads this, dist
      ensures r == dist[i % dist.Length0, j % dist.Length1, k % dist.Length2]
    {
      dist[Wrap(i, dist.Length0), Wrap(j, dist.Length1), Wrap(k, dist.Length2)]
    }

    /** The index operator is periodic along every axis. */
    lemma AtPeriodic(i: int, j: int, k: int)
      requires Valid()
      ensures At(i + dist.Length0, j, k) == At(i, j, k)
      ensures At(i, j + dist.Length1, k) == At(i, j, k)
      ensures At(i, j, k + dist.Length2) == At(i, j, k)
    {
      WrapPeriodic(i, dist.Length0);
      WrapPeriodic(j, dist.Length1);
      WrapPeriodic(k, dist.Length2);
    }

    /** Inside the grid the index operator reads the bin itself. */
    lemma AtInRange(i: int, j: int, k: int)
      requires Valid()
      requires 0 <= i < dist.Length0 && 0 <= j < dist.Length1 && 0 <= k < dist.Length2
      ensures At(i, j, k) == dist[i, j, k]
    {
      WrapOfInRange(i, dist.Length0);
      WrapOfInRange(j, dist.Length1);
      WrapOfInRange(k, dist.Length2);
    }

    /**
     * `histogram_from`: every bin is first set to zero, then each particle
     * adds one to the bin of its grid cell. Each bin ends up holding the
     * number of particles in its cell, whatever it held before.
     */
    method HistogramFrom<P>(particles: seq<P>, coordToGrid: P -> GridCoordinate)
      requires Valid()
      requires forall k :: 0 <= k < |particles| ==> InGrid(coordToGrid(particles[k]), Shape())
      modifies dist
      ensures forall i, j, a :: 0 <= i < dist.Length0 && 0 <= j < dist.Length1 && 0 <= a < dist.Length2 ==>
                dist[i, j, a] == Hits(particles, coordToGrid, GridCoordinate(i, j, a)) as real
    {
      forall i, j, a | 0 <= i < dist.Length0 && 0 <= j < dist.Length1 && 0 <= a < dist.Length2 {
        dist[i, j, a] := 0.0;
      }
      for n := 0 to |particles|
        invariant forall i, j, a :: 0 <= i < dist.Length0 && 0 <= j < dist.Length1 && 0 <= a < dist.Length2 ==>
                    dist[i, j, a] == Hits(particles[..n], coordToGrid, GridCoordinate(i, j, a)) as real
      {
        var c := coordToGrid(particles[n]);
        assert particles[..n + 1] == particles[..n] + [particles[n]];
        forall i, j, a ensures Hits(particles[..n + 1], coordToGrid, GridCoordinate(i, j, a))
                            == Hits(particles[..n], coordToGrid, GridCoordinate(i, j, a))
                               + (if c == GridCoordinate(i, j, a) then 1 else 0) {
          HitsSnoc(particles[..n], coordToGrid, particles[n], GridCoordinate(i, j, a));
        }
        dist[c.x, c.y, c.a] := dist[c.x, c.y, c.a] + 1.0;
      }
      assert particles[..|particles|] == particles;
    }

    /**
     * The central difference `spatgrad` stores at component d of cell
     * (x, y, a): for d = 0 along x over the neighbours `(x + sx - 1) % sx`
     * and `(x + 1) % sx`, for d = 1 along y likewise, each divided by twice
     * the cell width.
     */
    function CentralDifference(d: nat, x: nat, y: nat, a: nat): (g: real)
      requires Valid() && gridWidth.x != 0.0 && gridWidth.y != 0.0
      requires d < 2 && x < dist.Length0 && y < dist.Length1 && a < dist.Length2
      reads this, dist
      ensures d == 0 ==> g * (2.0 * gridWidth.x)
                         == dist[(x + 1) % dist.Length0, y, a] - dist[(x + dist.Length0 - 1) % dist.Length0, y, a]
      ensures d == 1 ==> g * (2.0 * gridWidth.y)
                         == dist[x, (y + 1) % dist.Length1, a] - dist[x, (y + dist.Length1 - 1) % dist.Length1, a]
    {
      var sx, sy := dist.Length0, dist.Length1;
      if d == 0 then (dist[(x + 1) % sx, y, a] - dist[(x + sx - 1) % sx, y, a]) / (2.0 * gridWidth.x)
      else (dist[x, (y + 1) % sy, a] - dist[x, (y + sy - 1) % sy, a]) / (2.0 * gridWidth.y)
    }

    /**
     * `spatgrad`: a fresh array of shape (2, sx, sy, sa) whose first index
     * selects the x or y component, filled cell by cell in row-major order.
     */
    method Spatgrad() returns (res: array4<real>)
      requires Valid() && gridWidth.x != 0.0 && gridWidth.y != 0.0
      ensures fresh(res)
      ensures GradientShape(res)
      ensures forall d, x, y, a :: InGradient(d, x, y, a) ==> res[d, x, y, a] == CentralDifference(d, x, y, a)
    {
      var sx, sy, sa := dist.Length0, dist.Length1, dist.Length2;
      res := new real[2, sx, sy, sa]((d, i, j, k) => 0.0);
      for ix := 0 to sx
        invariant forall d, x, y, a :: 0 <= d < 2 && 0 <= x < ix && 0 <= y < sy && 0 <= a < sa ==>
                    res[d, x, y, a] == CentralDifference(d, x, y, a)
      {
        GradientPlane(res, ix);
      }
    }

    /** The shape (2, sx, sy, sa) of the gradient array. */
    ghost predicate GradientShape(res: array4<real>)
      reads this
    {
      res.Length0 == 2 && res.Length1 == dist.Length0 && res.Length2 == dist.Length1
      && res.Length3 == dist.Length2
    }

    /** Component d of cell (x, y, a) is an entry of the gradient array. */
    predicate InGradient(d: int, x: int, y: int, a: int)
      reads this
    {
      0 <= d < 2 && 0 <= x < dist.Length0 && 0 <= y < dist.Length1 && 0 <= a < dist.Length2
    }

    /** The cells (ix, y, a) of `spatgrad`, for every y and a in order; no other cell changes. */
    method GradientPlane(res: array4<real>, ix: nat)
      requires Valid() && gridWidth.x != 0.0 && gridWidth.y != 0.0
      requires GradientShape(res) && ix < dist.Length0
      modifies res
      ensures forall d, y, a :: 0 <= d < 2 && 0 <= y < dist.Length1 && 0 <= a < dist.Length2 ==>
                res[d, ix, y, a] == CentralDifference(d, ix, y, a)
      ensures forall d, x, y, a :: InGradient(d, x, y, a) && x != ix ==> res[d, x, y, a] == old(res[d, x, y, a])
    {
      for iy := 0 to dist.Length1
        invariant forall d, y, a :: 0 <= d < 2 && 0 <= y < iy && 0 <= a < dist.Length2 ==>
                    res[d, ix, y, a] == CentralDifference(d, ix, y, a)
        invariant forall d, x, y, a :: InGradient(d, x, y, a) && x != ix ==> res[d, x, y, a] == old(res[d, x, y, a])
      {
        GradientLine(res, ix, iy);
      }
    }

    /** The cells (ix, iy, a) of `spatgrad`, for every a in order; no other cell changes. */
    method GradientLine(res: array4<real>, ix: nat, iy: nat)
      requires Valid() && gridWidth.x != 0.0 && gridWidth.y != 0.0
      requires GradientShape(res) && ix < dist.Length0 && iy < dist.Length1
      modifies res
      ensures forall d, a :: 0 <= d < 2 && 0 <= a < dist.Length2 ==>
                res[d, ix, iy, a] == CentralDifference(d, ix, iy, a)
      ensures forall d, x, y, a :: InGradient(d, x, y, a) && (x != ix || y != iy) ==>
                res[d, x, y, a] == old(res[d, x, y, a])
    {
      var sx, sy := dist.Length0, dist.Length1;
      var hx := 2.0 * gridWidth.x;
      var hy := 2.0 * gridWidth.y;
      for ia := 0 to dist.Length2
        invariant forall d, a :: 0 <= d < 2 && 0 <= a < ia ==> res[d, ix, iy, a] == CentralDifference(d, ix, iy, a)
        invariant forall d, x, y, a :: InGradient(d, x, y, a) && (x != ix || y != iy) ==>
                    res[d, x, y, a] == old(res[d, x, y, a])
      {
        var xm := (ix + sx - 1) % sx;
        var xp := (ix + 1) % sx;
        res[0, ix, iy, ia] := (dist[xp, iy, ia] - dist[xm, iy, ia]) / hx;
        var ym := (iy + sy - 1) % sy;
        var yp := (iy + 1) % sy;
        res[1, ix, iy, ia] := (dist[ix, yp, ia] - dist[ix, ym, ia]) / hy;
      }
    }

    /**
     * The differences `spatgrad` stores are central differences of the
     * periodic index operator: the neighbours i - 1 and i + 1 wrap around.
     */
    lemma CentralDifferenceWraps(x: nat, y: nat, a: nat)
      requires Valid() && gridWidth.x != 0.0 && gridWidth.y != 0.0
      requires x < dist.Length0 && y < dist.Length1 && a < dist.Length2
      ensures CentralDifference(0, x, y, a) == (At(x + 1, y, a) - At(x - 1, y, a)) / (2.0 * gridWidth.x)
      ensures CentralDifference(1, x, y, a) == (At(x, y + 1, a) - At(x, y - 1, a)) / (2.0 * gridWidth.y)
    {
      NeighbourIndices(x, dist.Length0);
      NeighbourIndices(y, dist.Length1);
      WrapOfInRange(x, dist.Length0);
      WrapOfInRange(y, dist.Length1);
      WrapOfInRange(a, dist.Length2);
    }

    /** Every bin holds the same value. */
    ghost predicate Uniform()
      requires Valid()
      reads this, dist
    {
      forall i, j, k :: 0 <= i < dist.Length0 && 0 <= j < dist.Length1 && 0 <= k < dist.Length2 ==>
        dist[i, j, k] == dist[0, 0, 0]
    }

    /** The gradient of a constant field is zero in both components, everywhere. */
    lemma UniformGradientIsZero(d: nat, x: nat, y: nat, a: nat)
      requires Valid() && gridWidth.x != 0.0 && gridWidth.y != 0.0
      requires d < 2 && x < dist.Length0 && y < dist.Length1 && a < dist.Length2
      requires Uniform()
      ensures CentralDifference(d, x, y, a) == 0.0
    {
      var sx, sy := dist.Length0, dist.Length1;
      if d == 0 {
        assert dist[(x + 1) % sx, y, a] == dist[0, 0, 0] == dist[(x + sx - 1) % sx, y, a];
      } else {
        assert dist[x, (y + 1) % sy, a] == dist[0, 0, 0] == dist[x, (y + sy - 1) % sy, a];
      }
    }
  }
}
