/** The model's integers are unbounded; `Filter` keeps every sum in a
    32-bit C `int`. This module bounds every accumulator by the total kernel
    weight, so that the model and the C code agree whenever that bound is
    below `INT_MAX`, and exhibits a kernel of the smallest sigmas for which
    it is not. */
module Bounds {
  import opened Layout
  import opened Kernel
  import opened Scale
  import opened Params
  import opened Convolve
  import opened Properties

  /** The weight of the whole kernel, `sum k[x]` over `[-dim, dim]`. */
  function KernelWeight(k: seq<int>, dim: int): int
    requires Shaped(k, dim)
  {
    TapSum(k, dim, -dim, dim)
  }

  /** The largest value a scratch-buffer cell can hold: a full window of
      255s, or a pass-through sample `1021 * 255`. */
  function CellMax(k: seq<int>, dim: int): int
    requires Shaped(k, dim)
  {
    Max(255 * KernelWeight(k, dim), PassThroughScale * 255)
  }

  /** Every sum of the vertical pass, at most `KernelWeight * CellMax`,
      fits in a C `int`. */
  predicate FitsInt(k: seq<int>, dim: int)
  {
    Shaped(k, dim) && KernelWeight(k, dim) * CellMax(k, dim) <= IntMax
  }

  /** A horizontal sum of bytes lies between 0 and 255 times the weight
      of its window. */
  lemma {:induction false} HSumBounds(k: seq<int>, dim: int, px: seq<Byte>, c: int, xf: nat, lo: int, hi: int)
    requires Generated(k, dim) && InKernel(dim, lo, hi) && HReadable(px, c, xf, lo, hi)
    ensures 0 <= HSum(k, dim, px, c, xf, lo, hi) <= 255 * TapSum(k, dim, lo, hi)
    decreases hi - lo
  {
    if lo <= hi {
      HSumBounds(k, dim, px, c, xf, lo, hi - 1);
      var t, b := Tap(k, dim, hi), px[c + Shr(hi, xf)];
      MulMonotone(0, b, t);
      MulMonotone(b, 255, t);
      MulDistributes(255, TapSum(k, dim, lo, hi - 1), t);
    }
  }

  /** Every scratch-buffer value lies in `[0, CellMax]`. */
  lemma HCellBounds(sys: FilterSys, plane: nat, p: Plane, xf: nat, line: int, col: int)
    requires Valid(sys.kernel, sys.dim) && PlaneOk(sys.dim, p, xf)
    requires 0 <= line < p.visibleLines && 0 <= col < p.visiblePitch
    ensures 0 <= HCell(sys, plane, p, xf, line, col) <= CellMax(sys.kernel, sys.dim)
  {
    var k, dim := sys.kernel, sys.dim;
    var lo, hi := HLow(dim, col, xf), HHigh(dim, p.visiblePitch, col, xf);
    var h := HCell(sys, plane, p, xf, line, col);
    WindowsContainZero(dim, p.visibleLines, p.visiblePitch, line, col, xf, 0);
    if col <= sys.height && !(sys.black && plane == 0) {
      HSumBounds(k, dim, p.pixels, Index(line, col, p.pitch), xf, lo, hi);
      TapSumWithinKernel(k, dim, lo, hi);
    }
  }

  /** A column sum lies between 0 and `CellMax` times the weight of its
      window. */
  lemma {:induction false} ColumnSumBounds(sys: FilterSys, plane: nat, p: Plane, xf: nat, yf: nat,
                                           line: int, col: int, lo: int, hi: int)
    requires Valid(sys.kernel, sys.dim) && PlaneOk(sys.dim, p, xf)
    requires 0 <= col < p.visiblePitch && ColumnWindow(sys.dim, p, yf, line, lo, hi)
    ensures 0 <= ColumnSum(sys, plane, p, xf, yf, line, col, lo, hi)
              <= TapSum(sys.kernel, sys.dim, lo, hi) * CellMax(sys.kernel, sys.dim)
    decreases hi - lo
  {
    if lo <= hi {
      var k, dim := sys.kernel, sys.dim;
      ColumnSumBounds(sys, plane, p, xf, yf, line, col, lo, hi - 1);
      VerticalReadLine(dim, p.visibleLines, line, yf, hi);
      var h := HCell(sys, plane, p, xf, line + Shr(hi, yf), col);
      HCellBounds(sys, plane, p, xf, line + Shr(hi, yf), col);
      var t := Tap(k, dim, hi);
      assert ColumnSum(sys, plane, p, xf, yf, line, col, lo, hi)
          == ColumnSum(sys, plane, p, xf, yf, line, col, lo, hi - 1) + t * h;
      WeightedStep(ColumnSum(sys, plane, p, xf, yf, line, col, lo, hi - 1),
                   TapSum(k, dim, lo, hi - 1), t, h, CellMax(k, dim));
    }
  }

  /** One more non-negative term `t*h` with `h <= cm` keeps a running sum
      below `cm` times the running weight. */
  lemma WeightedStep(a: int, s: int, t: int, h: int, cm: int)
    requires 0 <= a <= s * cm && 0 <= t && 0 <= h <= cm
    ensures 0 <= a + t * h <= (s + t) * cm
  {
    MulMonotone(0, h, t);
    MulMonotone(h, cm, t);
    assert s * cm + t * cm == (s + t) * cm;
  }

  /** A column sum over a window of the kernel stays within `INT_MAX` when
      the kernel fits. */
  lemma ColumnSumFitsInt(sys: FilterSys, plane: nat, p: Plane, xf: nat, yf: nat,
                         line: int, col: int, lo: int, hi: int)
    requires Valid(sys.kernel, sys.dim) && PlaneOk(sys.dim, p, xf) && FitsInt(sys.kernel, sys.dim)
    requires 0 <= col < p.visiblePitch && ColumnWindow(sys.dim, p, yf, line, lo, hi)
    ensures 0 <= ColumnSum(sys, plane, p, xf, yf, line, col, lo, hi) <= IntMax
  {
    var k, dim := sys.kernel, sys.dim;
    ColumnSumBounds(sys, plane, p, xf, yf, line, col, lo, hi);
    TapSumWithinKernel(k, dim, lo, hi);
    MulMonotone(TapSum(k, dim, lo, hi), KernelWeight(k, dim), CellMax(k, dim));
  }

  /** With a kernel that fits, every value `Filter` accumulates for a
      visible position stays within `INT_MAX`: each running horizontal sum,
      the scratch-buffer value, each running vertical sum and the final
      vertical accumulator. */
  lemma AccumulatorsFitInt(sys: FilterSys, plane: nat, p: Plane, xf: nat, yf: nat, line: int, col: int)
    requires Valid(sys.kernel, sys.dim) && PlaneOk(sys.dim, p, xf) && FitsInt(sys.kernel, sys.dim)
    requires 0 <= line < p.visibleLines && 0 <= col < p.visiblePitch
    ensures HReadable(p.pixels, Index(line, col, p.pitch), xf,
                      HLow(sys.dim, col, xf), HHigh(sys.dim, p.visiblePitch, col, xf))
    ensures forall x :: HLow(sys.dim, col, xf) <= x <= HHigh(sys.dim, p.visiblePitch, col, xf) ==>
      0 <= HSum(sys.kernel, sys.dim, p.pixels, Index(line, col, p.pitch), xf, HLow(sys.dim, col, xf), x) <= IntMax
    ensures 0 <= HCell(sys, plane, p, xf, line, col) <= IntMax
    ensures forall y :: VLow(sys.dim, line, yf) <= y <= VHigh(sys.dim, p.visibleLines, line, yf) ==>
      0 <= ColumnSum(sys, plane, p, xf, yf, line, col, VLow(sys.dim, line, yf), y) <= IntMax
    ensures 0 <= VCell(sys, p, xf, HorizontalPass(sys, plane, p, xf), yf, line, col) <= IntMax
  {
    var k, dim := sys.kernel, sys.dim;
    var c := Index(line, col, p.pitch);
    var hlo, hhi := HLow(dim, col, xf), HHigh(dim, p.visiblePitch, col, xf);
    var vlo, vhi := VLow(dim, line, yf), VHigh(dim, p.visibleLines, line, yf);
    WindowsContainZero(dim, p.visibleLines, p.visiblePitch, line, col, xf, yf);
    HWindowReadable(dim, p, xf, line, col);
    TapSumBounds(k, dim, -dim, dim);
    assert KernelWeight(k, dim) >= 1;
    MulMonotone(1, KernelWeight(k, dim), CellMax(k, dim));
    forall x | hlo <= x <= hhi
      ensures 0 <= HSum(k, dim, p.pixels, c, xf, hlo, x) <= IntMax
    {
      HSumBounds(k, dim, p.pixels, c, xf, hlo, x);
      TapSumWithinKernel(k, dim, hlo, x);
    }
    HCellBounds(sys, plane, p, xf, line, col);
    forall y | vlo <= y <= vhi
      ensures 0 <= ColumnSum(sys, plane, p, xf, yf, line, col, vlo, y) <= IntMax
    {
      ColumnSumFitsInt(sys, plane, p, xf, yf, line, col, vlo, y);
    }
    var buf := HorizontalPass(sys, plane, p, xf);
    var t := VCell(sys, p, xf, buf, yf, line, col);
    if line <= sys.height {
      VSumIsColumnSum(sys, plane, p, xf, yf, line, col, vlo, vhi);
    } else {
      VisibleSampleInside(dim, p, xf, line, col);
    }
  }

  /** The map builder's running sum (gaussianblur.c:287-300) after the taps up to
      `(y, x)` of an entry's window: the completed lines `[ylo, y-1]` and
      line `y` up to column offset `x`. It lies in `[0, W*W]`. */
  lemma ScaleRunningSumBounds(k: seq<int>, dim: int, ylo: int, y: int, xlo: int, x: int, xhi: int)
    requires Generated(k, dim) && -dim <= ylo <= y <= dim && -dim <= xlo <= x <= xhi <= dim
    ensures 0 <= WindowWeight(k, dim, ylo, y - 1, xlo, xhi) + RowWeight(k, dim, Tap(k, dim, y), xlo, x)
              <= KernelWeight(k, dim) * KernelWeight(k, dim)
  {
    var a, t := TapSum(k, dim, ylo, y - 1), Tap(k, dim, y);
    var u, v := TapSum(k, dim, xlo, xhi), TapSum(k, dim, xlo, x);
    WindowSeparable(k, dim, ylo, y - 1, xlo, xhi);
    RowWeightFactor(k, dim, t, xlo, x);
    TapSumBounds(k, dim, ylo, y - 1);
    TapSumBounds(k, dim, xlo, xhi);
    TapSumBounds(k, dim, xlo, x);
    TapSumBounds(k, dim, y, y);
    TapSumWithinKernel(k, dim, xlo, xhi);
    TapSumWithinKernel(k, dim, xlo, x);
    TapSumWithinKernel(k, dim, ylo, y);
    ProductSumBound(a, t, u, v, KernelWeight(k, dim));
  }

  /** Two weighted terms whose weights add up to at most `w`, each
      multiplying a factor of at most `w`, stay below `w*w`. */
  lemma ProductSumBound(a: int, t: int, u: int, v: int, w: int)
    requires 0 <= a && 0 <= t && a + t <= w && 0 <= u <= w && 0 <= v <= w
    ensures 0 <= a * u + t * v <= w * w
  {
    MulMonotone(0, u, a);
    MulMonotone(0, v, t);
    MulMonotone(u, w, a);
    MulMonotone(v, w, t);
    MulMonotone(a + t, w, w);
    assert a * w + t * w == (a + t) * w;
  }

  /** With a kernel that fits, every value the map builder accumulates for
      a visible luma position stays within `INT_MAX`: each running sum of
      `k[y]*k[x]` over the entry's window, and so the stored entry. */
  lemma ScaleSumsFitInt(k: seq<int>, dim: int, lines: int, visiblePitch: int, line: int, col: int)
    requires Valid(k, dim) && FitsInt(k, dim)
    requires 0 <= line < lines && 0 <= col < visiblePitch
    ensures forall y, x ::
      (LineLow(dim, line) <= y <= LineHigh(dim, lines, line) && ColLow(dim, col) <= x <= ColHigh(dim, visiblePitch, col)) ==>
      0 <= WindowWeight(k, dim, LineLow(dim, line), y - 1, ColLow(dim, col), ColHigh(dim, visiblePitch, col))
           + RowWeight(k, dim, Tap(k, dim, y), ColLow(dim, col), x) <= IntMax
    ensures 0 <= ScaleEntry(k, dim, lines, visiblePitch, line, col) <= IntMax
  {
    var w := KernelWeight(k, dim);
    var ylo, yhi := LineLow(dim, line), LineHigh(dim, lines, line);
    var xlo, xhi := ColLow(dim, col), ColHigh(dim, visiblePitch, col);
    TapSumBounds(k, dim, -dim, dim);
    MulMonotone(w, CellMax(k, dim), w);
    assert w * w <= IntMax;
    forall y, x | ylo <= y <= yhi && xlo <= x <= xhi
      ensures 0 <= WindowWeight(k, dim, ylo, y - 1, xlo, xhi) + RowWeight(k, dim, Tap(k, dim, y), xlo, x) <= IntMax
    {
      ScaleRunningSumBounds(k, dim, ylo, y, xlo, x, xhi);
    }
    ScaleRunningSumBounds(k, dim, ylo, yhi, xlo, xhi, xhi);
  }

  /** The bound is reached. With `dim = 0` (sigma below 1/3) the kernel
      is the single centre tap `t`, and a full-resolution plane whose
      samples read are all 255 accumulates exactly `255 * t * t` at every
      blurred position. For `t >= 2902` (sigma below about 0.0352) that
      exceeds `INT_MAX`: the kernel does not fit, and the C accumulator
      overflows where the model's does not. */
  lemma SmallSigmaOverflows(sys: FilterSys, p: Plane, line: int, col: int)
    requires Valid(sys.kernel, sys.dim) && sys.dim == 0 && Tap(sys.kernel, 0, 0) >= 2902
    requires PlaneOk(0, p, 0) && !sys.black && ReadsUniform(0, p, 255)
    requires 0 <= line < p.visibleLines && 0 <= col < p.visiblePitch
    requires line <= sys.height && col <= sys.height
    ensures !FitsInt(sys.kernel, 0)
    ensures VCell(sys, p, 0, HorizontalPass(sys, 0, p, 0), 0, line, col)
         == 255 * (Tap(sys.kernel, 0, 0) * Tap(sys.kernel, 0, 0)) > IntMax
  {
    var k, t := sys.kernel, Tap(sys.kernel, 0, 0);
    UniformColumnSum(sys, p, 255, line, col);
    SingleTapEntry(k, p.visibleLines, p.visiblePitch, line, col);
    VSumIsColumnSum(sys, 0, p, 0, 0, line, col, VLow(0, line, 0), VHigh(0, p.visibleLines, line, 0));
    SingleTapTooHeavy(k);
  }

  /** A single tap of at least 2902 puts `255 * t * t` above `INT_MAX`. */
  lemma SingleTapTooHeavy(k: seq<int>)
    requires Valid(k, 0) && Tap(k, 0, 0) >= 2902
    ensures 255 * (Tap(k, 0, 0) * Tap(k, 0, 0)) > IntMax
    ensures !FitsInt(k, 0)
  {
    var t := Tap(k, 0, 0);
    MulMonotone(2902, t, 2902);
    MulMonotone(2902, t, t);
    assert KernelWeight(k, 0) == t;
    MulMonotone(255 * t, CellMax(k, 0), t);
  }
}
