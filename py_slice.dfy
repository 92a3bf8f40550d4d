/**
 * Python's extended slice `s[start:stop:step]`, as used on both the offset
 * table and the size table of the blob reader (numpy arrays and lists slice
 * alike). Bounds that are out of range are clamped, never rejected; only a
 * zero step fails (Python raises ValueError).
 */
module PySlice {
  import opened Wrappers

  /** The integers Python's `range(lo, hi, step)` produces, for a nonzero step. */
  function Range(lo: int, hi: int, step: int): (r: seq<int>)
    requires step != 0
    ensures step > 0 ==> forall k :: 0 <= k < |r| ==> lo <= r[k] < hi
    ensures step < 0 ==> forall k :: 0 <= k < |r| ==> hi < r[k] <= lo
    ensures r != [] ==> r[0] == lo
    decreases if step > 0 then hi - lo else lo - hi
  {
    if step > 0 then
      if lo < hi then [lo] + Range(lo + step, hi, step) else []
    else
      if lo > hi then [lo] + Range(lo + step, hi, step) else []
  }

  /**
   * The k-th member of `range(lo, hi, step)` is `lo + k * step`, and the
   * member after the last would lie at or beyond `hi`.
   */
  lemma {:induction false} RangeAt(lo: int, hi: int, step: int)
    requires step != 0
    ensures var r := Range(lo, hi, step);
            forall k :: 0 <= k < |r| ==> r[k] == lo + k * step
    ensures step > 0 ==> lo + |Range(lo, hi, step)| * step >= hi
    ensures step < 0 ==> lo + |Range(lo, hi, step)| * step <= hi
    decreases if step > 0 then hi - lo else lo - hi
  {
    var r := Range(lo, hi, step);
    if r != [] {
      var rest := Range(lo + step, hi, step);
      RangeAt(lo + step, hi, step);
      forall k | 1 <= k < |r| ensures r[k] == lo + k * step {
        assert r[k] == rest[k - 1];
        ShiftProduct(k, step);
      }
      ShiftProduct(|r|, step);
    }
  }

  lemma ShiftProduct(k: int, step: int)
    ensures step + (k - 1) * step == k * step
  {
  }

  /**
   * Adjusts one bound the way CPython's slice adjustment does for a sequence
   * of length n: a negative bound counts from the end, and a bound beyond
   * either end snaps to that end (the last or first position for a negative
   * step, which walks down from n - 1 to past 0).
   */
  function Adjust(n: nat, bound: int, step: int): (r: int)
    requires step != 0
    ensures step > 0 ==> 0 <= r <= n
    ensures step < 0 ==> -1 <= r <= n - 1
    ensures 0 <= bound < n ==> r == bound
    ensures bound < 0 && bound + n >= 0 ==> r == bound + n
    ensures bound >= n ==> r == (if step < 0 then n - 1 else n)
    ensures bound + n < 0 ==> r == (if step < 0 then -1 else 0)
  {
    if bound < 0 then
      if bound + n < 0 then (if step < 0 then -1 else 0) else bound + n
    else if bound >= n then
      if step < 0 then n - 1 else n
    else
      bound
  }

  /** The effective start: a missing start is the first element in slice direction. */
  function Start(n: nat, start: Option<int>, step: int): int
    requires step != 0
  {
    match start
    case None => if step < 0 then n - 1 else 0
    case Some(s) => Adjust(n, s, step)
  }

  /** The effective stop: a missing stop runs past the last element in slice direction. */
  function Stop(n: nat, stop: Option<int>, step: int): int
    requires step != 0
  {
    match stop
    case None => if step < 0 then -1 else n
    case Some(s) => Adjust(n, s, step)
  }

  /**
   * The positions `s[start:stop:step]` selects from a sequence of length n,
   * in the order the slice yields them; None when the step is zero.
   */
  function Positions(n: nat, start: Option<int>, stop: Option<int>, step: Option<int>): (r: Option<seq<int>>)
    ensures r.None? <==> step == Some(0)
    ensures r.Some? ==> forall k :: 0 <= k < |r.value| ==> 0 <= r.value[k] < n
    ensures r.Some? ==> |r.value| <= n
  {
    var st := if step.Some? then step.value else 1;
    if st == 0 then None
    else
      var p := Range(Start(n, start, st), Stop(n, stop, st), st);
      RangeAt(Start(n, start, st), Stop(n, stop, st), st);
      RangeInBoundsIsShort(p, n, st);
      Some(p)
  }

  /** A strictly monotone run of positions inside [0, n) has at most n members. */
  lemma {:induction false} RangeInBoundsIsShort(p: seq<int>, n: nat, step: int)
    requires step != 0
    requires forall k :: 0 <= k < |p| ==> p[k] == p[0] + k * step
    requires forall k :: 0 <= k < |p| ==> 0 <= p[k] < n
    ensures |p| <= n
  {
    if |p| > n {
      assert p[n] == p[0] + n * step;
      MulBySign(n, step);
      assert false;
    }
  }

  /** |k * step| grows at least as fast as k. */
  lemma {:induction false} MulBySign(k: nat, step: int)
    requires step != 0
    ensures step > 0 ==> k * step >= k
    ensures step < 0 ==> k * step + k <= 0
  {
    if k > 0 {
      MulBySign(k - 1, step);
      assert k * step == (k - 1) * step + step;
    }
  }

  /** `s[start:stop:step]`: None exactly when Python raises ValueError (zero step). */
  function Slice<T>(s: seq<T>, start: Option<int>, stop: Option<int>, step: Option<int>): (r: Option<seq<T>>)
    ensures r.None? <==> step == Some(0)
    ensures r.Some? ==> |r.value| == |Positions(|s|, start, stop, step).value|
    ensures r.Some? ==> forall k :: 0 <= k < |r.value| ==>
              r.value[k] == s[Positions(|s|, start, stop, step).value[k]]
  {
    match Positions(|s|, start, stop, step)
    case None => None
    case Some(p) => Some(seq(|p|, k requires 0 <= k < |p| => s[p[k]]))
  }

  /** Positions selected by a positive step are strictly increasing, by a negative step strictly decreasing. */
  lemma PositionsMonotone(n: nat, start: Option<int>, stop: Option<int>, step: Option<int>, i: int, j: int)
    requires Positions(n, start, stop, step).Some?
    requires 0 <= i < j < |Positions(n, start, stop, step).value|
    ensures var p := Positions(n, start, stop, step).value;
            (step.None? || step.value > 0 ==> p[i] < p[j]) &&
            (step.Some? && step.value < 0 ==> p[i] > p[j])
  {
    var st := if step.Some? then step.value else 1;
    var p := Positions(n, start, stop, step).value;
    RangeAt(Start(n, start, st), Stop(n, stop, st), st);
    assert p[j] - p[i] == (j - i) * st by {
      assert p[j] == p[0] + j * st && p[i] == p[0] + i * st;
    }
    MulBySign(j - i, st);
  }

  /** Python's `zip`: pairs entries position by position, stopping at the shorter input. */
  function Zip<T, U>(a: seq<T>, b: seq<U>): (r: seq<(T, U)>)
    ensures |r| == if |a| < |b| then |a| else |b|
    ensures forall k :: 0 <= k < |r| ==> r[k] == (a[k], b[k])
  {
    if a == [] || b == [] then [] else [(a[0], b[0])] + Zip(a[1..], b[1..])
  }

  /**
   * Slicing two tables of equal length with the same bounds and zipping the
   * results is slicing the zipped table: every selected entry stays paired
   * with its own partner.
   */
  lemma SlicesStayPaired<T, U>(a: seq<T>, b: seq<U>, start: Option<int>, stop: Option<int>, step: Option<int>)
    requires |a| == |b| && step != Some(0)
    ensures Slice(a, start, stop, step).Some? && Slice(b, start, stop, step).Some?
    ensures Zip(Slice(a, start, stop, step).value, Slice(b, start, stop, step).value)
         == Slice(Zip(a, b), start, stop, step).value
  {
    var sa, sb := Slice(a, start, stop, step).value, Slice(b, start, stop, step).value;
    var sz := Slice(Zip(a, b), start, stop, step).value;
    var z := Zip(sa, sb);
    assert |z| == |sz|;
    forall k | 0 <= k < |z| ensures z[k] == sz[k] {
      var j := Positions(|a|, start, stop, step).value[k];
      assert sa[k] == a[j] && sb[k] == b[j];
    }
  }

  /** The full slice `s[:]` (and `s[::1]`) is the sequence itself. */
  lemma FullSliceIsIdentity<T>(s: seq<T>)
    ensures Slice(s, None, None, None) == Some(s)
  {
    var p := Positions(|s|, None, None, None).value;
    assert p == Range(0, |s|, 1);
    RangeAt(0, |s|, 1);
    assert |p| == |s|;
    var r := Slice(s, None, None, None).value;
    assert forall k :: 0 <= k < |r| ==> r[k] == s[p[k]] == s[k];
    assert r == s;
  }

  /** Bounds beyond both ends select everything: `s[-k:k] == s[:]` once k >= len(s). */
  lemma WideBoundsSliceAll<T>(s: seq<T>, k: int)
    requires k >= |s|
    ensures Slice(s, Some(-k), Some(k), None) == Some(s)
  {
    assert Positions(|s|, Some(-k), Some(k), None) == Positions(|s|, None, None, None);
    FullSliceIsIdentity(s);
  }

  /** The explicit defaults `start=0, stop=None, step=1` select the whole table. */
  lemma DefaultArgumentsSliceAll<T>(s: seq<T>)
    ensures Slice(s, Some(0), None, Some(1)) == Some(s)
  {
    assert Positions(|s|, Some(0), None, Some(1)) == Positions(|s|, None, None, None);
    FullSliceIsIdentity(s);
  }

  /**
   * A start of 0 with a negative step begins at the first entry and walks
   * off the front at once: `s[0::-1]` is `[s[0]]`, not the reversal `s[::-1]`.
   */
  lemma ZeroStartNegativeStep<T>(s: seq<T>)
    requires |s| >= 1
    ensures Slice(s, Some(0), None, Some(-1)) == Some([s[0]])
  {
    assert Range(-1, -1, -1) == [];
    assert Positions(|s|, Some(0), None, Some(-1)).value == Range(0, -1, -1) == [0];
    var r := Slice(s, Some(0), None, Some(-1)).value;
    assert |r| == 1 && r[0] == s[0];
    assert r == [s[0]];
  }

  /** The reversed slice `s[::-1]` yields every element, last first. */
  lemma ReverseSliceReverses<T>(s: seq<T>)
    ensures Slice(s, None, None, Some(-1)).Some?
    ensures |Slice(s, None, None, Some(-1)).value| == |s|
    ensures forall k :: 0 <= k < |s| ==> Slice(s, None, None, Some(-1)).value[k] == s[|s| - 1 - k]
  {
    var p := Positions(|s|, None, None, Some(-1)).value;
    assert p == Range(|s| - 1, -1, -1);
    RangeAt(|s| - 1, -1, -1);
    assert |p| == |s|;
  }
}
