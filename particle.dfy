/**
 * Particle coordinates of src/particle.rs: periodic wrapping of positions
 * into the simulation box, wrapping of the two spherical angles, and the
 * flat `[x, y, z, phi, theta]` layout a particle takes inside a record.
 *
 * `f64` is modelled as `real` (no rounding, no NaN, no infinities) and
 * `PI` as a positive constant.
 */
module Particles {
  import opened Wrappers

  /** `std::f64::consts::PI`, to the digits of an f64 literal. */
  const PI: real := 3.141592653589793
  const TWOPI: real := 2.0 * PI

  /** The edge lengths of the periodic simulation box. */
  datatype BoxSize = BoxSize(x: real, y: real, z: real)

  datatype Position = Position(x: real, y: real, z: real)

  /** Azimuth `phi` and polar angle `theta`, in radians. */
  datatype Orientation = Orientation(phi: real, theta: real)

  datatype Particle = Particle(position: Position, orientation: Orientation)

  // ---------------------------------------------------------------------------
  // Euclidean remainder

  function Abs(x: real): real
  {
    if x < 0.0 then -x else x
  }

  /** The integer part of x, rounded toward zero (what f64 `%` divides by). */
  function Trunc(x: real): (t: int)
    ensures x >= 0.0 ==> t as real <= x < t as real + 1.0
    ensures x < 0.0 ==> t as real - 1.0 < x <= t as real
  {
    if x >= 0.0 then x.Floor else -((-x).Floor)
  }

  /** f64 `%`: the remainder of a division truncated toward zero; it has the sign of f. */
  function TruncRem(f: real, m: real): real
    requires m != 0.0
  {
    f - m * Trunc(f / m) as real
  }

  /** `modulo(f, m) = f.mod_euc(m)`: the truncated remainder, moved up by |m| when negative. */
  function Modulo(f: real, m: real): (r: real)
    requires m != 0.0
    ensures 0.0 <= r < Abs(m)
  {
    TruncRemBounds(f, m);
    var rem := TruncRem(f, m);
    if rem < 0.0 then rem + Abs(m) else rem
  }

  /** The truncated remainder lies strictly between -|m| and |m|, on the side of f. */
  lemma TruncRemBounds(f: real, m: real)
    requires m != 0.0
    ensures f >= 0.0 ==> 0.0 <= TruncRem(f, m) < Abs(m)
    ensures f < 0.0 ==> -Abs(m) < TruncRem(f, m) <= 0.0
  {
    RemOfAbs(f, m);
    if f >= 0.0 {
      RemNonNegative(f, Abs(m));
    } else {
      RemOfNegated(f, Abs(m));
      RemNonNegative(-f, Abs(m));
    }
  }

  /** For f >= 0 and m > 0: f = m * t + r with t = floor(f / m) and 0 <= r < m. */
  lemma RemNonNegative(f: real, m: real)
    requires f >= 0.0 && m > 0.0
    ensures 0.0 <= TruncRem(f, m) < m
  {
    var q := f / m;
    assert q >= 0.0 by {
      if q < 0.0 {
        MulStrict(m, q, 0.0);
        assert false;
      }
    }
    RemainderBetween(f, m, q, Trunc(q) as real);
  }

  /** If f = m * q and t <= q < t + 1, then f - m * t lies in [0, m). */
  lemma RemainderBetween(f: real, m: real, q: real, t: real)
    requires m > 0.0 && m * q == f && t <= q < t + 1.0
    ensures 0.0 <= f - m * t < m
  {
    RemainderAbove(f, m, q, t);
    RemainderBelow(f, m, q, t);
  }

  lemma RemainderAbove(f: real, m: real, q: real, t: real)
    requires m > 0.0 && m * q == f && t <= q
    ensures m * t <= f
  {
    MulMonotone(m, t, q);
  }

  lemma RemainderBelow(f: real, m: real, q: real, t: real)
    requires m > 0.0 && m * q == f && q < t + 1.0
    ensures f < m * t + m
  {
    MulStrict(m, q, t + 1.0);
    Distribute(m, t);
  }

  lemma Distribute(a: real, t: real)
    ensures a * (t + 1.0) == a * t + a
  {
  }

  lemma MulMonotone(a: real, x: real, y: real)
    requires a > 0.0 && x <= y
    ensures a * x <= a * y
  {
    assert a * y - a * x == a * (y - x);
  }

  lemma MulStrict(a: real, x: real, y: real)
    requires a > 0.0 && x < y
    ensures a * x < a * y
  {
    assert a * y - a * x == a * (y - x);
  }

  /** Truncation is odd: it commutes with negation. */
  lemma TruncOdd(x: real)
    ensures Trunc(-x) == -Trunc(x)
  {
  }

  /** The sign of the divisor does not matter to the truncated remainder. */
  lemma RemOfAbs(f: real, m: real)
    requires m != 0.0
    ensures TruncRem(f, m) == TruncRem(f, Abs(m))
  {
    if m < 0.0 {
      assert f / -m == -(f / m);
      TruncOdd(f / m);
    }
  }

  /** Negating the dividend negates the truncated remainder. */
  lemma RemOfNegated(f: real, m: real)
    requires m != 0.0
    ensures TruncRem(-f, m) == -TruncRem(f, m)
  {
    assert -f / m == -(f / m);
    TruncOdd(f / m);
  }

  /** How many whole edges `modulo` moves f by: Modulo(f, m) == f - WrapCount(f, m) * m. */
  function WrapCount(f: real, m: real): int
    requires m != 0.0
  {
    var t := Trunc(f / m);
    if TruncRem(f, m) < 0.0 then (if m > 0.0 then t - 1 else t + 1) else t
  }

  /**
   * `modulo` lands in [0, |m|) and differs from f by a whole multiple of m;
   * these two facts determine it, so it is the Euclidean remainder.
   */
  lemma ModuloIsEuclidean(f: real, m: real)
    requires m != 0.0
    ensures 0.0 <= Modulo(f, m) < Abs(m)
    ensures Modulo(f, m) == f - WrapCount(f, m) as real * m
  {
    TruncRemBounds(f, m);
  }

  /** Two values in [0, |m|) that differ by a whole multiple of m are equal. */
  lemma EuclideanUnique(r1: real, r2: real, m: real, k: int)
    requires m != 0.0
    requires 0.0 <= r1 < Abs(m) && 0.0 <= r2 < Abs(m)
    requires r1 - r2 == k as real * m
    ensures r1 == r2 && k == 0
  {
    var j := if m > 0.0 then k else -k;
    SignedScale(k, m);
    NoMultipleInside(r1 - r2, Abs(m), j);
  }

  /** k * m is a whole multiple of |m|, with the sign of k flipped when m < 0. */
  lemma SignedScale(k: int, m: real)
    ensures m > 0.0 ==> k as real * m == k as real * Abs(m)
    ensures m <= 0.0 ==> k as real * m == (-k) as real * Abs(m)
  {
  }

  /** The only whole multiple of a > 0 strictly between -a and a is 0. */
  lemma NoMultipleInside(d: real, a: real, j: int)
    requires a > 0.0 && -a < d < a && d == j as real * a
    ensures j == 0 && d == 0.0
  {
    if j >= 1 {
      ScaleUp(j, a);
    } else if j <= -1 {
      ScaleUp(-j, a);
      Negate(j, a);
    }
  }

  lemma Negate(j: int, a: real)
    ensures (-j) as real * a == -(j as real * a)
  {
  }

  lemma ScaleUp(k: int, a: real)
    requires k >= 1 && a > 0.0
    ensures k as real * a >= a
  {
    assert k as real * a == a + (k - 1) as real * a;
  }

  /** A value already in [0, |m|) is left unchanged. */
  lemma ModuloOfInRange(f: real, m: real)
    requires m != 0.0 && 0.0 <= f < Abs(m)
    ensures Modulo(f, m) == f
  {
    ModuloIsEuclidean(f, m);
    EuclideanUnique(Modulo(f, m), f, m, -WrapCount(f, m));
  }

  /** Wrapping twice is wrapping once. */
  lemma ModuloIdempotent(f: real, m: real)
    requires m != 0.0
    ensures Modulo(Modulo(f, m), m) == Modulo(f, m)
  {
    ModuloIsEuclidean(f, m);
    ModuloOfInRange(Modulo(f, m), m);
  }

  // ---------------------------------------------------------------------------
  // Angles

  /**
   * `ang_pbc(phi, theta)`: theta is first reduced into [0, 2π); a theta past
   * π is reflected to 2π - theta and the azimuth turned by π.
   */
  function AngPbc(phi: real, theta: real): (r: (real, real))
    ensures AnglesInRange(r.0, r.1)
  {
    var t := Modulo(theta, TWOPI);
    if t > PI then (Modulo(phi + PI, TWOPI), TWOPI - t)
    else (Modulo(phi, TWOPI), t)
  }

  /** The angles `ang_pbc` returns: phi in [0, 2π), theta in [0, π]. */
  ghost predicate AnglesInRange(phi: real, theta: real)
  {
    0.0 <= phi < TWOPI && 0.0 <= theta <= PI
  }

  /** `ang_pbc` lands in range, and takes the reflecting branch exactly when the reduced theta exceeds π. */
  lemma AngPbcInRange(phi: real, theta: real)
    ensures AnglesInRange(AngPbc(phi, theta).0, AngPbc(phi, theta).1)
    ensures var t := Modulo(theta, TWOPI);
            && (t > PI ==> AngPbc(phi, theta) == (Modulo(phi + PI, TWOPI), TWOPI - t))
            && (t <= PI ==> AngPbc(phi, theta) == (Modulo(phi, TWOPI), t))
  {
    ModuloIsEuclidean(theta, TWOPI);
    ModuloIsEuclidean(phi, TWOPI);
    ModuloIsEuclidean(phi + PI, TWOPI);
  }

  /** Angles already in range are left as they are. */
  lemma AngPbcOfInRange(phi: real, theta: real)
    requires AnglesInRange(phi, theta)
    ensures AngPbc(phi, theta) == (phi, theta)
  {
    ModuloOfInRange(theta, TWOPI);
    ModuloOfInRange(phi, TWOPI);
  }

  /** Wrapping the angles twice is wrapping them once. */
  lemma AngPbcIdempotent(phi: real, theta: real)
    ensures var (p, t) := AngPbc(phi, theta); AngPbc(p, t) == (p, t)
  {
    AngPbcInRange(phi, theta);
    var (p, t) := AngPbc(phi, theta);
    AngPbcOfInRange(p, t);
  }

  // ---------------------------------------------------------------------------
  // Positions, orientations, particles

  /** Every edge of the box is nonzero, so every coordinate can be wrapped. */
  predicate NonDegenerate(bs: BoxSize)
  {
    bs.x != 0.0 && bs.y != 0.0 && bs.z != 0.0
  }

  /** Every coordinate lies inside its edge of the box. */
  ghost predicate InBox(p: Position, bs: BoxSize)
  {
    0.0 <= p.x < Abs(bs.x) && 0.0 <= p.y < Abs(bs.y) && 0.0 <= p.z < Abs(bs.z)
  }

  /** `Position::new`: each coordinate wrapped on its own edge of the box. */
  function PositionNew(x: real, y: real, z: real, bs: BoxSize): (r: Position)
    requires NonDegenerate(bs)
    ensures InBox(r, bs)
  {
    Position(Modulo(x, bs.x), Modulo(y, bs.y), Modulo(z, bs.z))
  }

  /** `Position::pbc`: the position with every coordinate wrapped into the box. */
  function PositionPbc(p: Position, bs: BoxSize): (r: Position)
    requires NonDegenerate(bs)
    ensures InBox(r, bs)
  {
    Position(Modulo(p.x, bs.x), Modulo(p.y, bs.y), Modulo(p.z, bs.z))
  }

  /** A wrapped position lies in the box, and a position already in the box is kept. */
  lemma PositionPbcWraps(p: Position, bs: BoxSize)
    requires NonDegenerate(bs)
    ensures InBox(PositionPbc(p, bs), bs)
    ensures InBox(p, bs) ==> PositionPbc(p, bs) == p
  {
    var w := PositionPbc(p, bs);
    assert 0.0 <= w.x < Abs(bs.x) && (0.0 <= p.x < Abs(bs.x) ==> w.x == p.x) by {
      ModuloIsEuclidean(p.x, bs.x);
      if 0.0 <= p.x < Abs(bs.x) { ModuloOfInRange(p.x, bs.x); }
    }
    assert 0.0 <= w.y < Abs(bs.y) && (0.0 <= p.y < Abs(bs.y) ==> w.y == p.y) by {
      ModuloIsEuclidean(p.y, bs.y);
      if 0.0 <= p.y < Abs(bs.y) { ModuloOfInRange(p.y, bs.y); }
    }
    assert 0.0 <= w.z < Abs(bs.z) && (0.0 <= p.z < Abs(bs.z) ==> w.z == p.z) by {
      ModuloIsEuclidean(p.z, bs.z);
      if 0.0 <= p.z < Abs(bs.z) { ModuloOfInRange(p.z, bs.z); }
    }
  }

  /** `Position::new(x, y, z)` is `pbc` applied to the raw position, and applying `pbc` again changes nothing. */
  lemma PositionNewIsPbc(x: real, y: real, z: real, bs: BoxSize)
    requires NonDegenerate(bs)
    ensures PositionNew(x, y, z, bs) == PositionPbc(Position(x, y, z), bs)
    ensures PositionPbc(PositionNew(x, y, z, bs), bs) == PositionNew(x, y, z, bs)
  {
    PositionPbcWraps(Position(x, y, z), bs);
    PositionPbcWraps(PositionNew(x, y, z, bs), bs);
  }

  /** `Orientation::new`: both angles passed through `ang_pbc`. */
  function OrientationNew(phi: real, theta: real): (r: Orientation)
    ensures AnglesInRange(r.phi, r.theta)
  {
    var (p, t) := AngPbc(phi, theta);
    Orientation(p, t)
  }

  /** `Orientation::pbc`: the orientation with its angles wrapped by `ang_pbc`. */
  function OrientationPbc(o: Orientation): (r: Orientation)
    ensures AnglesInRange(r.phi, r.theta)
  {
    var (p, t) := AngPbc(o.phi, o.theta);
    Orientation(p, t)
  }

  /** A wrapped orientation is in range, and wrapping it again changes nothing. */
  lemma OrientationPbcWraps(o: Orientation)
    ensures AnglesInRange(OrientationPbc(o).phi, OrientationPbc(o).theta)
    ensures OrientationPbc(OrientationPbc(o)) == OrientationPbc(o)
    ensures OrientationNew(o.phi, o.theta) == OrientationPbc(o)
  {
    AngPbcInRange(o.phi, o.theta);
    AngPbcIdempotent(o.phi, o.theta);
  }

  /** `Particle::pbc`: the position wrapped into the box, then the angles wrapped. */
  function ParticlePbc(p: Particle, bs: BoxSize): (r: Particle)
    requires NonDegenerate(bs)
    ensures Wrapped(r, bs)
  {
    Particle(PositionPbc(p.position, bs), OrientationPbc(p.orientation))
  }

  /** `Particle::new`: built from wrapped parts, then `pbc` once more. */
  function ParticleNew(x: real, y: real, z: real, phi: real, theta: real, bs: BoxSize): (r: Particle)
    requires NonDegenerate(bs)
    ensures Wrapped(r, bs)
  {
    ParticlePbc(Particle(PositionNew(x, y, z, bs), OrientationNew(phi, theta)), bs)
  }

  /** `Particle::from_position_orientation`: the given parts, then `pbc`. */
  function FromPositionOrientation(pos: Position, o: Orientation, bs: BoxSize): (r: Particle)
    requires NonDegenerate(bs)
    ensures Wrapped(r, bs)
  {
    ParticlePbc(Particle(pos, o), bs)
  }

  /** The state `pbc` leaves a particle in: inside the box, angles in range. */
  ghost predicate Wrapped(p: Particle, bs: BoxSize)
  {
    InBox(p.position, bs) && AnglesInRange(p.orientation.phi, p.orientation.theta)
  }

  /** `Particle::pbc` leaves the particle wrapped, and a wrapped particle is a fixed point of it. */
  lemma ParticlePbcWraps(p: Particle, bs: BoxSize)
    requires NonDegenerate(bs)
    ensures Wrapped(ParticlePbc(p, bs), bs)
    ensures Wrapped(p, bs) ==> ParticlePbc(p, bs) == p
  {
    PositionPbcWraps(p.position, bs);
    OrientationPbcWraps(p.orientation);
    if Wrapped(p, bs) {
      AngPbcOfInRange(p.orientation.phi, p.orientation.theta);
    }
  }

  /** Applying `Particle::pbc` twice is applying it once. */
  lemma ParticlePbcIdempotent(p: Particle, bs: BoxSize)
    requires NonDegenerate(bs)
    ensures ParticlePbc(ParticlePbc(p, bs), bs) == ParticlePbc(p, bs)
  {
    ParticlePbcWraps(p, bs);
    ParticlePbcWraps(ParticlePbc(p, bs), bs);
  }

  /**
   * The final `pbc` of `Particle::new` finds nothing left to do: the result
   * is `from_position_orientation` on the raw coordinates, and it is wrapped.
   */
  lemma ParticleNewIsWrapped(x: real, y: real, z: real, phi: real, theta: real, bs: BoxSize)
    requires NonDegenerate(bs)
    ensures ParticleNew(x, y, z, phi, theta, bs)
         == FromPositionOrientation(Position(x, y, z), Orientation(phi, theta), bs)
    ensures Wrapped(ParticleNew(x, y, z, phi, theta, bs), bs)
  {
    var raw := Particle(Position(x, y, z), Orientation(phi, theta));
    PositionNewIsPbc(x, y, z, bs);
    OrientationPbcWraps(raw.orientation);
    assert Particle(PositionNew(x, y, z, bs), OrientationNew(phi, theta)) == ParticlePbc(raw, bs);
    ParticlePbcIdempotent(raw, bs);
    ParticlePbcWraps(raw, bs);
  }

  /**
   * A particle as a mutable place: `Position::pbc`, `Orientation::pbc` and
   * `Particle::pbc` overwrite its fields one after the other, and
   * `Particle::new` / `from_position_orientation` build one and end with `pbc`.
   */
  class ParticleCell {
    var position: Position
    var orientation: Orientation

    function Value(): Particle
      reads this
    {
      Particle(position, orientation)
    }

    /** `Particle::new`: wrapped parts, then `pbc`. */
    constructor New(x: real, y: real, z: real, phi: real, theta: real, bs: BoxSize)
      requires NonDegenerate(bs)
      ensures Value() == ParticleNew(x, y, z, phi, theta, bs)
      ensures Wrapped(Value(), bs)
    {
      position := PositionNew(x, y, z, bs);
      orientation := OrientationNew(phi, theta);
      new;
      Pbc(bs);
      ParticleNewIsWrapped(x, y, z, phi, theta, bs);
    }

    /** `Particle::from_position_orientation`: the given parts, then `pbc`. */
    constructor FromParts(pos: Position, o: Orientation, bs: BoxSize)
      requires NonDegenerate(bs)
      ensures Value() == ParticlePbc(Particle(pos, o), bs)
      ensures Wrapped(Value(), bs)
    {
      position := pos;
      orientation := o;
      new;
      Pbc(bs);
      ParticlePbcWraps(Particle(pos, o), bs);
    }

    /** `Position::pbc` on the particle's position: x, then y, then z. */
    method PositionPbcInPlace(bs: BoxSize)
      requires NonDegenerate(bs)
      modifies this
      ensures position == PositionPbc(old(position), bs)
      ensures orientation == old(orientation)
    {
      position := position.(x := Modulo(position.x, bs.x));
      position := position.(y := Modulo(position.y, bs.y));
      position := position.(z := Modulo(position.z, bs.z));
    }

    /** `Orientation::pbc` on the particle's orientation. */
    method OrientationPbcInPlace()
      modifies this
      ensures orientation == OrientationPbc(old(orientation))
      ensures position == old(position)
    {
      var (phi, theta) := AngPbc(orientation.phi, orientation.theta);
      orientation := orientation.(phi := phi);
      orientation := orientation.(theta := theta);
    }

    /** `Particle::pbc`: position wrapping, then angle wrapping. */
    method Pbc(bs: BoxSize)
      requires NonDegenerate(bs)
      modifies this
      ensures Value() == ParticlePbc(old(Value()), bs)
      ensures Wrapped(Value(), bs)
    {
      PositionPbcInPlace(bs);
      OrientationPbcInPlace();
      ParticlePbcWraps(old(Value()), bs);
    }
  }

  // ---------------------------------------------------------------------------
  // Record layout

  /** `Serialize for Particle`: the flat array `[x, y, z, phi, theta]`. */
  function Serialize(p: Particle): (s: seq<real>)
    ensures |s| == 5
  {
    [p.position.x, p.position.y, p.position.z, p.orientation.phi, p.orientation.theta]
  }

  /**
   * `Deserialize for Particle`: a 5-tuple read in the same order, stored as
   * it is (no `pbc`); an array of any other length is rejected.
   */
  function Deserialize(s: seq<real>): (r: Option<Particle>)
    ensures r.Some? <==> |s| == 5
  {
    if |s| != 5 then None
    else Some(Particle(Position(s[0], s[1], s[2]), Orientation(s[3], s[4])))
  }

  /** Reading back a serialised particle gives the same particle. */
  lemma DeserializeSerialize(p: Particle)
    ensures Deserialize(Serialize(p)) == Some(p)
  {
  }

  /** Every array that deserialises is the serialisation of what it deserialises to. */
  lemma SerializeDeserialize(s: seq<real>)
    requires Deserialize(s).Some?
    ensures Serialize(Deserialize(s).value) == s
  {
  }

  /**
   * Deserialising does not wrap: a stored x of -1 in a unit box stays -1,
   * where `pbc` would move it to 0.
   */
  lemma DeserializeKeepsRawValues()
    ensures var bs := BoxSize(1.0, 1.0, 1.0);
            var p := Deserialize([-1.0, 0.0, 0.0, 0.0, 0.0]).value;
            && p.position.x == -1.0
            && !Wrapped(p, bs)
            && ParticlePbc(p, bs).position.x == 0.0
  {
    var bs := BoxSize(1.0, 1.0, 1.0);
    var p := Deserialize([-1.0, 0.0, 0.0, 0.0, 0.0]).value;
    assert Trunc(-1.0 / 1.0) == -1;
    assert Modulo(-1.0, 1.0) == 0.0;
  }
}
