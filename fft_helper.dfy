/**
 * Wavenumber sampling of src/simulation/integrators/fft_helper.rs: the k
 * values along the first two grid axes in FFTW's standard order
 * `[0, 1, ..., -2, -1]`, and the mesh that pairs them up at every grid point.
 *
 * The values are complex numbers whose imaginary part is always zero; only
 * the real part is modelled, as `real`.
 */
module FftHelper {
  import Particles
  import opened Distributions

  // ---------------------------------------------------------------------------
  // The frequency index

  /**
   * The integer frequency FFTW stores at index i of an axis with n points:
   * the first ceil(n / 2) indices count up from 0, the rest count up from
   * -(n / 2) to -1.
   */
  function FreqIndex(n: nat, i: nat): (f: int)
    requires i < n
    ensures -(n / 2) <= f < n - n / 2
    ensures i < n - n / 2 <==> f >= 0
  {
    if i < n - n / 2 then i else i - n
  }

  /**
   * The frequency at index i is the one representative of i modulo n that
   * lies in [-(n / 2), n - n / 2).
   */
  lemma FreqIndexIsCentredResidue(n: nat, i: nat)
    requires i < n
    ensures -(n / 2) <= FreqIndex(n, i) < n - n / 2
    ensures FreqIndex(n, i) % n == i
  {
    if i < n - n / 2 {
      ModUnique(i, n, 0, i);
    } else {
      ModUnique(i - n, n, -1, i);
    }
  }

  /** No other integer in [-(n / 2), n - n / 2) is congruent to i modulo n. */
  lemma FreqIndexUnique(n: nat, i: nat, f: int)
    requires i < n
    requires -(n / 2) <= f < n - n / 2 && f % n == i
    ensures f == FreqIndex(n, i)
  {
    if f >= 0 {
      ModUnique(f, n, 0, f);
    } else {
      ModUnique(f, n, -1, f + n);
    }
  }

  /** The zero mode sits at index 0. */
  lemma ZeroModeFirst(n: nat)
    requires n > 0
    ensures FreqIndex(n, 0) == 0
  {
  }

  /** For 1 <= i <= n / 2 the index n - i holds the frequency -i. */
  lemma NegativeFrequencies(n: nat, i: nat)
    requires 1 <= i <= n / 2
    ensures FreqIndex(n, n - i) == -(i as int)
  {
  }

  /**
   * For even n, index n / 2 holds -(n / 2); for odd n, index (n - 1) / 2
   * holds the largest positive frequency and (n + 1) / 2 the largest negative.
   */
  lemma NyquistIndices(n: nat)
    requires n > 0
    ensures n % 2 == 0 ==> FreqIndex(n, n / 2) == -(n / 2)
    ensures n % 2 == 1 ==> FreqIndex(n, (n - 1) / 2) == (n - 1) / 2
    ensures n % 2 == 1 && n > 1 ==> FreqIndex(n, (n + 1) / 2) == -((n - 1) / 2)
    ensures forall i :: 0 <= i < n ==> -(n / 2) <= FreqIndex(n, i) <= (n - 1) / 2
  {
    forall i | 0 <= i < n ensures -(n / 2) <= FreqIndex(n, i) <= (n - 1) / 2 {
      FreqIndexIsCentredResidue(n, i);
    }
  }

  /** The orders the sampling test expects for 6 and 7 points. */
  lemma FreqIndexExamples()
    ensures [FreqIndex(6, 0), FreqIndex(6, 1), FreqIndex(6, 2), FreqIndex(6, 3), FreqIndex(6, 4),
             FreqIndex(6, 5)] == [0, 1, 2, -3, -2, -1]
    ensures [FreqIndex(7, 0), FreqIndex(7, 1), FreqIndex(7, 2), FreqIndex(7, 3), FreqIndex(7, 4),
             FreqIndex(7, 5), FreqIndex(7, 6)] == [0, 1, 2, 3, -3, -2, -1]
  {
  }

  // ---------------------------------------------------------------------------
  // Sampling and mesh

  /** The wavenumber of integer frequency f on an axis whose step is `2π / box`. */
  function Wavenumber(f: int, step: real): (k: real)
    ensures f == 0 ==> k == 0.0
    ensures step > 0.0 ==> (f > 0 <==> k > 0.0) && (f < 0 <==> k < 0.0)
  {
    f as real * step
  }

  /**
   * The closure of `get_k_sampling` for one axis with `gs` points and box
   * length `bs`: the values `(-a..b) * step` with a = gs / 2 and
   * b = ceil(gs / 2), then `k[..b] = values[a..]` and `k[b..] = values[..a]`.
   */
  method KSampling(gs: nat, bs: real) returns (k: array<real>)
    requires bs != 0.0
    ensures fresh(k) && k.Length == gs
    ensures forall i :: 0 <= i < gs ==> k[i] == Wavenumber(FreqIndex(gs, i), Particles.TWOPI / bs)
  {
    var a := gs / 2;
    var b := if gs % 2 == 0 then gs / 2 else gs / 2 + 1;
    var step := Particles.TWOPI / bs;
    var values := seq(a + b, j requires 0 <= j < a + b => Wavenumber(j - a, step));
    k := new real[gs](_ => 0.0);
    for i := 0 to b
      modifies k
      invariant forall j :: 0 <= j < i ==> k[j] == Wavenumber(FreqIndex(gs, j), step)
    {
      k[i] := values[a + i];
    }
    for i := 0 to a
      modifies k
      invariant forall j :: 0 <= j < b ==> k[j] == Wavenumber(FreqIndex(gs, j), step)
      invariant forall j :: b <= j < b + i ==> k[j] == Wavenumber(FreqIndex(gs, j), step)
    {
      k[b + i] := values[i];
    }
  }

  /** `get_k_sampling`: the k values along the first two grid axes. */
  method GetKSampling(grid: GridSize, box: (real, real)) returns (k0: array<real>, k1: array<real>)
    requires box.0 != 0.0 && box.1 != 0.0
    ensures fresh(k0) && fresh(k1) && k0.Length == grid.x && k1.Length == grid.y
    ensures forall i :: 0 <= i < grid.x ==> k0[i] == Wavenumber(FreqIndex(grid.x, i), Particles.TWOPI / box.0)
    ensures forall j :: 0 <= j < grid.y ==> k1[j] == Wavenumber(FreqIndex(grid.y, j), Particles.TWOPI / box.1)
  {
    k0 := KSampling(grid.x, box.0);
    k1 := KSampling(grid.y, box.1);
  }

  /**
   * `get_k_mesh`: an array of shape (g0, g1, 2) whose entry (i, j) is the
   * pair (k0[i], k1[j]).
   */
  method GetKMesh(grid: GridSize, box: (real, real)) returns (res: array3<real>)
    requires box.0 != 0.0 && box.1 != 0.0
    ensures fresh(res)
    ensures res.Length0 == grid.x && res.Length1 == grid.y && res.Length2 == 2
    ensures forall i, j :: 0 <= i < grid.x && 0 <= j < grid.y ==>
              res[i, j, 0] == Wavenumber(FreqIndex(grid.x, i), Particles.TWOPI / box.0)
              && res[i, j, 1] == Wavenumber(FreqIndex(grid.y, j), Particles.TWOPI / box.1)
  {
    var k0, k1 := GetKSampling(grid, box);
    res := new real[grid.x, grid.y, 2]((i, j, d) => 0.0);
    for i := 0 to grid.x
      modifies res
      invariant forall x, y :: 0 <= x < i && 0 <= y < grid.y ==> res[x, y, 0] == k0[x] && res[x, y, 1] == k1[y]
    {
      for j := 0 to grid.y
        modifies res
        invariant forall x, y :: 0 <= x < i && 0 <= y < grid.y ==> res[x, y, 0] == k0[x] && res[x, y, 1] == k1[y]
        invariant forall y :: 0 <= y < j ==> res[i, y, 0] == k0[i] && res[i, y, 1] == k1[y]
      {
        res[i, j, 0] := k0[i];
        res[i, j, 1] := k1[j];
      }
    }
  }
}
