/** The one-dimensional kernel `pt_distribution` built by
    `gaussianblur_InitDistribution`: `2*dim+1` fixed-point taps where entry
    `dim+x` holds the weight of offset `x` in `[-dim, dim]`. The weights
    themselves come from `exp` and `sqrt` and are supplied, not computed. */
module Kernel {

  /** Shape only: one tap per offset in `[-dim, dim]`. */
  predicate Shaped(k: seq<int>, dim: int)
  {
    dim >= 0 && |k| == 2 * dim + 1
  }

  /** The weight of offset `x`, stored at `pt_distribution[dim+x]`. */
  function Tap(k: seq<int>, dim: int, x: int): int
    requires Shaped(k, dim) && -dim <= x <= dim
  {
    k[dim + x]
  }

  /** What the generator guarantees for every sigma: every weight is a
      truncated non-negative float, and the weight depends on `x*x` only,
      so the kernel is symmetric. */
  predicate Generated(k: seq<int>, dim: int)
  {
    && Shaped(k, dim)
    && (forall x :: -dim <= x <= dim ==> Tap(k, dim, x) >= 0)
    && (forall x :: -dim <= x <= dim ==> Tap(k, dim, x) == Tap(k, dim, -x))
  }

  /** A generated kernel whose centre tap is positive. The fixed-point
      centre tap is `256/(sigma*sqrt(2*pi))` truncated, so this holds for
      sigma up to about 102; beyond that every tap is 0, every divisor of
      the normalisation map is 0 and filtering divides by zero. */
  predicate Valid(k: seq<int>, dim: int)
  {
    Generated(k, dim) && Tap(k, dim, 0) > 0
  }

  /** A window `[lo, hi]` of kernel offsets that the kernel covers (an
      empty window is always acceptable). */
  predicate InKernel(dim: int, lo: int, hi: int)
  {
    hi < lo || (-dim <= lo && hi <= dim)
  }

  /** Sum of the taps over the offsets `lo..hi`. */
  function TapSum(k: seq<int>, dim: int, lo: int, hi: int): int
    requires Shaped(k, dim) && InKernel(dim, lo, hi)
    decreases hi - lo
  {
    if hi < lo then 0 else TapSum(k, dim, lo, hi - 1) + Tap(k, dim, hi)
  }

  /** The same sum taken from the left end. */
  lemma {:induction false} TapSumFromLeft(k: seq<int>, dim: int, lo: int, hi: int)
    requires Shaped(k, dim) && InKernel(dim, lo, hi) && lo <= hi
    ensures TapSum(k, dim, lo, hi) == Tap(k, dim, lo) + TapSum(k, dim, lo + 1, hi)
    decreases hi - lo
  {
    if lo < hi {
      TapSumFromLeft(k, dim, lo, hi - 1);
    }
  }

  /** A window of a generated kernel weighs at least nothing, and a window
      that contains offset 0 weighs at least the centre tap (which is
      positive for a valid kernel). */
  lemma {:induction false} TapSumBounds(k: seq<int>, dim: int, lo: int, hi: int)
    requires Generated(k, dim) && InKernel(dim, lo, hi)
    ensures TapSum(k, dim, lo, hi) >= 0
    ensures lo <= 0 <= hi ==> TapSum(k, dim, lo, hi) >= Tap(k, dim, 0)
    decreases hi - lo
  {
    if lo <= hi {
      TapSumBounds(k, dim, lo, hi - 1);
    }
  }

  /** Widening a window to the right never makes it lighter. */
  lemma {:induction false} TapSumExtendRight(k: seq<int>, dim: int, lo: int, hi: int, hi': int)
    requires Generated(k, dim) && -dim <= lo && lo - 1 <= hi <= hi' <= dim
    ensures TapSum(k, dim, lo, hi) <= TapSum(k, dim, lo, hi')
    decreases hi' - hi
  {
    if hi < hi' {
      TapSumExtendRight(k, dim, lo, hi, hi' - 1);
    }
  }

  /** Widening a window to the left never makes it lighter. */
  lemma {:induction false} TapSumExtendLeft(k: seq<int>, dim: int, lo': int, lo: int, hi: int)
    requires Generated(k, dim) && -dim <= lo' <= lo && lo <= hi <= dim
    ensures TapSum(k, dim, lo, hi) <= TapSum(k, dim, lo', hi)
    decreases lo - lo'
  {
    if lo' < lo {
      TapSumExtendLeft(k, dim, lo' + 1, lo, hi);
      TapSumFromLeft(k, dim, lo', hi);
    }
  }

  /** No window weighs more than the whole kernel. */
  lemma TapSumWithinKernel(k: seq<int>, dim: int, lo: int, hi: int)
    requires Generated(k, dim) && InKernel(dim, lo, hi)
    ensures 0 <= TapSum(k, dim, lo, hi) <= TapSum(k, dim, -dim, dim)
  {
    TapSumBounds(k, dim, -dim, dim);
    if lo <= hi {
      TapSumBounds(k, dim, lo, hi);
      TapSumExtendRight(k, dim, lo, hi, dim);
      TapSumExtendLeft(k, dim, -dim, lo, dim);
    }
  }

  /** Symmetry of the kernel carries over to windows: the window `[lo, hi]`
      weighs as much as its mirror image `[-hi, -lo]`. */
  lemma {:induction false} TapSumMirror(k: seq<int>, dim: int, lo: int, hi: int)
    requires Generated(k, dim) && InKernel(dim, lo, hi)
    ensures TapSum(k, dim, lo, hi) == TapSum(k, dim, -hi, -lo)
    decreases hi - lo
  {
    if lo <= hi {
      TapSumMirror(k, dim, lo, hi - 1);
      TapSumFromLeft(k, dim, -hi, -lo);
    }
  }
}
