/** The per-plane part of `Filter` (gaussianblur.c:312-381): subsampling factors,
    the horizontal pass into the scratch buffer, and the vertical pass that
    divides by the normalisation map and stores bytes. Both loops are
    modelled iteration by iteration, so that the branches that assign
    instead of accumulating behave as in `Filter`. */
module Convolve {
  import opened Layout
  import opened Kernel
  import opened Scale
  import opened Params

  /** The factor a sample is multiplied by outside the blurred area. */
  const PassThroughScale: int := 1021

  /** One plane of a picture: `pixels[line*pitch+col]` is sample
      (line, col); only `visibleLines x visiblePitch` of them are shown. */
  datatype Plane = Plane(visibleLines: int, visiblePitch: int, pitch: int, pixels: seq<Byte>)

  /** gaussianblur.c:322-323: the luma extent over the plane's extent, minus one;
      0 for the luma plane, 1 for a half-resolution chroma plane. */
  function Factor(lumaExtent: int, extent: int): (f: nat)
    requires 0 < extent <= lumaExtent
    ensures (f + 1) * extent <= lumaExtent < (f + 2) * extent
  {
    lumaExtent / extent - 1
  }

  /** The full-resolution plane gets factor 0; a plane of exactly half
      the luma extent gets factor 1. */
  lemma FactorOfSubsampling(extent: int)
    requires extent > 0
    ensures Factor(extent, extent) == 0
    ensures Factor(2 * extent, extent) == 1
  {
    IndexDecode(1, 0, extent);
    IndexDecode(2, 0, extent);
  }

  // Window of the horizontal pass (gaussianblur.c:335-336) and of the vertical
  // pass (gaussianblur.c:365-366), in kernel offsets.

  function HLow(dim: int, col: int, xf: nat): int { Max(-dim, -col * (xf + 1)) }

  function HHigh(dim: int, visiblePitch: int, col: int, xf: nat): int
  {
    Min(dim, (visiblePitch - col) * (xf + 1) + 1)
  }

  function VLow(dim: int, line: int, yf: nat): int { Max(-dim, (-line) * (yf + 1)) }

  function VHigh(dim: int, visibleLines: int, line: int, yf: nat): int
  {
    Min(dim, (visibleLines - line) * (yf + 1) - 1)
  }

  /** Both windows lie inside the kernel and contain offset 0, so every
      pixel runs its loops at least once. */
  lemma WindowsContainZero(dim: int, visibleLines: int, visiblePitch: int, line: int, col: int, xf: nat, yf: nat)
    requires dim >= 0 && 0 <= line < visibleLines && 0 <= col < visiblePitch
    ensures -dim <= HLow(dim, col, xf) <= 0 <= HHigh(dim, visiblePitch, col, xf) <= dim
    ensures -dim <= VLow(dim, line, yf) <= 0 <= VHigh(dim, visibleLines, line, yf) <= dim
  {
    MulMonotone(0, col, xf + 1);
    MulMonotone(0, line, yf + 1);
    MulMonotone(1, visiblePitch - col, xf + 1);
    MulMonotone(1, visibleLines - line, yf + 1);
  }

  /** An offset no further left than `-n*(f+1)` shifts to no further
      left than `-n`, since `f+1 <= 2^f`. */
  lemma ShrOfLowerBound(x: int, f: nat, n: int)
    requires n >= 0 && -(n * (f + 1)) <= x
    ensures -n <= Shr(x, f)
  {
    Pow2AtLeastSucc(f);
    MulMonotone(f + 1, Pow2(f), n);
    assert (-n) * Pow2(f) == -(Pow2(f) * n);
    ShrAtLeast(x, f, -n);
  }

  /** An offset below `m*(f+1)` shifts to below `m`. */
  lemma ShrOfUpperBound(x: int, f: nat, m: int)
    requires m >= 0 && x < m * (f + 1)
    ensures Shr(x, f) < m
  {
    Pow2AtLeastSucc(f);
    MulMonotone(f + 1, Pow2(f), m);
    ShrBelow(x, f, m);
  }

  /** With `f >= 1`, an offset up to `m*(f+1)+1` shifts to at most `m`. */
  lemma ShrOfUpperBoundPlusOne(x: int, f: nat, m: int)
    requires f >= 1 && m >= 0 && x <= m * (f + 1) + 1
    ensures Shr(x, f) <= m
  {
    Pow2AtLeastSucc(f);
    MulMonotone(f + 1, Pow2(f), m);
    assert Pow2(f) >= 2 by { assert Pow2(f) == 2 * Pow2(f - 1); }
    assert x < (m + 1) * Pow2(f);
    ShrBelow(x, f, m + 1);
  }

  /** The column the horizontal pass reads for offset `x` is at least 0 and
      at most two past the last visible column; with a subsampled plane at
      most one past it. */
  lemma HorizontalReadColumn(dim: int, visiblePitch: int, col: int, xf: nat, x: int)
    requires dim >= 0 && 0 <= col < visiblePitch
    requires HLow(dim, col, xf) <= x <= HHigh(dim, visiblePitch, col, xf)
    ensures 0 <= col + Shr(x, xf) <= visiblePitch + 1
    ensures xf >= 1 ==> col + Shr(x, xf) <= visiblePitch
  {
    assert -(col * (xf + 1)) <= x;
    ShrOfLowerBound(x, xf, col);
    var m := visiblePitch - col;
    assert x <= m * (xf + 1) + 1;
    if xf == 0 {
      assert Shr(x, xf) == x;
    } else {
      ShrOfUpperBoundPlusOne(x, xf, m);
    }
  }

  /** The line the vertical pass reads for offset `y`, `line + (y >> yf)`,
      stays within `[0, visibleLines)`. */
  lemma VerticalReadLine(dim: int, visibleLines: int, line: int, yf: nat, y: int)
    requires dim >= 0 && 0 <= line < visibleLines
    requires VLow(dim, line, yf) <= y <= VHigh(dim, visibleLines, line, yf)
    ensures 0 <= line + Shr(y, yf) < visibleLines
  {
    assert -(line * (yf + 1)) <= y;
    ShrOfLowerBound(y, yf, line);
    var m := visibleLines - line;
    assert y < m * (yf + 1);
    ShrOfUpperBound(y, yf, m);
  }

  // ---------------------------------------------------------------------
  // Horizontal pass

  /** Every offset of `[lo, hi]` reads inside the samples. */
  predicate HReadable(px: seq<Byte>, c: int, xf: nat, lo: int, hi: int)
  {
    forall x :: lo <= x <= hi ==> 0 <= c + Shr(x, xf) < |px|
  }

  /** The weighted sum the horizontal pass is meant to compute:
      `k[x+dim] * in[c + (x >> xf)]` over the window. */
  function HSum(k: seq<int>, dim: int, px: seq<Byte>, c: int, xf: nat, lo: int, hi: int): int
    requires Shaped(k, dim) && InKernel(dim, lo, hi) && HReadable(px, c, xf, lo, hi)
    decreases hi - lo
  {
    if hi < lo then 0 else HSum(k, dim, px, c, xf, lo, hi - 1) + Tap(k, dim, hi) * px[c + Shr(hi, xf)]
  }

  /** One iteration of the loop body at gaussianblur.c:339-352 for offset `x`, from
      the running value `t`: `inside` is `i_col <= i_height`, `blank` is
      black mode on plane 0. */
  function HStep(k: seq<int>, dim: int, px: seq<Byte>, c: int, xf: nat,
                 inside: bool, blank: bool, t: int, x: int): int
    requires Shaped(k, dim) && -dim <= x <= dim && 0 <= c + Shr(x, xf) < |px|
  {
    if inside then
      var sum := t + Tap(k, dim, x) * px[c + Shr(x, xf)];
      if blank then 0 else sum
    else
      PassThroughScale * px[c + Shr(x, xf)]
  }

  /** `t_value` after the iterations for offsets `lo..hi`, starting from 0.
      Inside the height limit it is the weighted sum (0 in black mode);
      outside, only the last iteration's assignment survives. */
  function HLoop(k: seq<int>, dim: int, px: seq<Byte>, c: int, xf: nat,
                 inside: bool, blank: bool, lo: int, hi: int): (t: int)
    requires Shaped(k, dim) && InKernel(dim, lo, hi) && HReadable(px, c, xf, lo, hi)
    ensures inside && !blank ==> t == HSum(k, dim, px, c, xf, lo, hi)
    ensures inside && blank ==> t == 0
    ensures !inside && lo <= hi ==> t == PassThroughScale * px[c + Shr(hi, xf)]
    decreases hi - lo
  {
    if hi < lo then 0
    else HStep(k, dim, px, c, xf, inside, blank, HLoop(k, dim, px, c, xf, inside, blank, lo, hi - 1), hi)
  }

  /** What `Filter` needs of an input plane: a visible line and column,
      rows at least as wide as their visible part, and every sample the
      horizontal pass reads (up to two past the visible part of the last
      line) inside the pixel array. */
  predicate PlaneOk(dim: int, p: Plane, xf: nat)
  {
    && p.visibleLines >= 1 && 1 <= p.visiblePitch <= p.pitch
    && (forall col :: 0 <= col < p.visiblePitch ==>
          Index(p.visibleLines - 1, col + Shr(HHigh(dim, p.visiblePitch, col, xf), xf), p.pitch) < |p.pixels|)
  }

  /** The sample read for one offset of the window lies between the first
      sample of the line and the last sample `PlaneOk` vouches for. */
  lemma HReadInside(dim: int, p: Plane, xf: nat, line: int, col: int, x: int)
    requires dim >= 0 && PlaneOk(dim, p, xf)
    requires 0 <= line < p.visibleLines && 0 <= col < p.visiblePitch
    requires HLow(dim, col, xf) <= x <= HHigh(dim, p.visiblePitch, col, xf)
    ensures 0 <= Index(line, col, p.pitch) + Shr(x, xf) < |p.pixels|
  {
    var hi := HHigh(dim, p.visiblePitch, col, xf);
    var last := Index(p.visibleLines - 1, col + Shr(hi, xf), p.pitch);
    assert last < |p.pixels|;
    HorizontalReadColumn(dim, p.visiblePitch, col, xf, x);
    ShrMonotone(x, hi, xf);
    IndexRowMonotone(0, line, col + Shr(x, xf), p.pitch);
    IndexRowMonotone(line, p.visibleLines - 1, col + Shr(hi, xf), p.pitch);
  }

  lemma HWindowReadable(dim: int, p: Plane, xf: nat, line: int, col: int)
    requires dim >= 0 && PlaneOk(dim, p, xf)
    requires 0 <= line < p.visibleLines && 0 <= col < p.visiblePitch
    ensures HReadable(p.pixels, Index(line, col, p.pitch), xf, HLow(dim, col, xf), HHigh(dim, p.visiblePitch, col, xf))
  {
    forall x | HLow(dim, col, xf) <= x <= HHigh(dim, p.visiblePitch, col, xf)
      ensures 0 <= Index(line, col, p.pitch) + Shr(x, xf) < |p.pixels|
    {
      HReadInside(dim, p, xf, line, col, x);
    }
  }

  /** `pt_buffer[c]` after the horizontal pass, for visible (line, col). */
  function HCell(sys: FilterSys, plane: nat, p: Plane, xf: nat, line: int, col: int): (t: int)
    requires Valid(sys.kernel, sys.dim) && PlaneOk(sys.dim, p, xf)
    requires 0 <= line < p.visibleLines && 0 <= col < p.visiblePitch
    ensures HReadable(p.pixels, Index(line, col, p.pitch), xf,
                      HLow(sys.dim, col, xf), HHigh(sys.dim, p.visiblePitch, col, xf))
    ensures col <= sys.height && !(sys.black && plane == 0) ==>
      t == HSum(sys.kernel, sys.dim, p.pixels, Index(line, col, p.pitch), xf,
                HLow(sys.dim, col, xf), HHigh(sys.dim, p.visiblePitch, col, xf))
    ensures col <= sys.height && sys.black && plane == 0 ==> t == 0
    ensures col > sys.height ==>
      var last := Index(line, col, p.pitch) + Shr(HHigh(sys.dim, p.visiblePitch, col, xf), xf);
      0 <= last < |p.pixels| && t == PassThroughScale * p.pixels[last]
  {
    var c := Index(line, col, p.pitch);
    var lo, hi := HLow(sys.dim, col, xf), HHigh(sys.dim, p.visiblePitch, col, xf);
    WindowsContainZero(sys.dim, p.visibleLines, p.visiblePitch, line, col, xf, 0);
    HWindowReadable(sys.dim, p, xf, line, col);
    assert 0 <= c + Shr(hi, xf) < |p.pixels|;
    HLoop(sys.kernel, sys.dim, p.pixels, c, xf, col <= sys.height, sys.black && plane == 0, lo, hi)
  }

  /** gaussianblur.c:327-356: the scratch buffer after the horizontal pass over the
      plane; `pt_buffer[line*pitch+col]` for every visible position. The
      other cells are never read (see `VerticalReadLine`) and hold 0. */
  function HorizontalPass(sys: FilterSys, plane: nat, p: Plane, xf: nat): (buf: seq<int>)
    requires Valid(sys.kernel, sys.dim) && PlaneOk(sys.dim, p, xf)
    ensures |buf| == p.visibleLines * p.pitch
    ensures forall line, col {:trigger buf[Index(line, col, p.pitch)]}
      :: 0 <= line < p.visibleLines && 0 <= col < p.visiblePitch ==>
      && 0 <= Index(line, col, p.pitch) < |buf|
      && buf[Index(line, col, p.pitch)] == HCell(sys, plane, p, xf, line, col)
  {
    assert p.visibleLines * p.pitch >= 0;
    var buf := seq(p.visibleLines * p.pitch, i requires 0 <= i < p.visibleLines * p.pitch =>
      DecodeInside(i, p.pitch, p.visibleLines);
      if i % p.pitch < p.visiblePitch then HCell(sys, plane, p, xf, i / p.pitch, i % p.pitch) else 0);
    forall line, col | 0 <= line < p.visibleLines && 0 <= col < p.visiblePitch
      ensures 0 <= Index(line, col, p.pitch) < |buf|
      ensures buf[Index(line, col, p.pitch)] == HCell(sys, plane, p, xf, line, col)
    {
      IndexInside(line, col, p.pitch, p.visibleLines);
      IndexDecode(line, col, p.pitch);
    }
    buf
  }

  // ---------------------------------------------------------------------
  // Vertical pass

  /** Every offset of `[lo, hi]` reads inside the buffer. */
  predicate VReadable(buf: seq<int>, c: int, yf: nat, pitch: int, lo: int, hi: int)
  {
    forall y :: lo <= y <= hi ==> 0 <= c + Shr(y, yf) * pitch < |buf|
  }

  /** The weighted sum the vertical pass is meant to compute:
      `k[y+dim] * pt_buffer[c + (y >> yf)*pitch]` over the window. */
  function VSum(k: seq<int>, dim: int, buf: seq<int>, c: int, yf: nat, pitch: int, lo: int, hi: int): int
    requires Shaped(k, dim) && InKernel(dim, lo, hi) && VReadable(buf, c, yf, pitch, lo, hi)
    decreases hi - lo
  {
    if hi < lo then 0
    else VSum(k, dim, buf, c, yf, pitch, lo, hi - 1) + Tap(k, dim, hi) * buf[c + Shr(hi, yf) * pitch]
  }

  /** One iteration of the loop body at gaussianblur.c:369-375: `inside` is
      `i_line <= i_height`. */
  function VStep(k: seq<int>, dim: int, buf: seq<int>, px: seq<Byte>, c: int, yf: nat, pitch: int,
                 inside: bool, t: int, y: int): int
    requires Shaped(k, dim) && -dim <= y <= dim
    requires 0 <= c + Shr(y, yf) * pitch < |buf| && 0 <= c < |px|
  {
    if inside then t + Tap(k, dim, y) * buf[c + Shr(y, yf) * pitch]
    else PassThroughScale * px[c]
  }

  /** `t_value` after the iterations for offsets `lo..hi`: the weighted
      sum of buffer cells inside the height limit, the scaled input sample
      outside it. */
  function VLoop(k: seq<int>, dim: int, buf: seq<int>, px: seq<Byte>, c: int, yf: nat, pitch: int,
                 inside: bool, lo: int, hi: int): (t: int)
    requires Shaped(k, dim) && InKernel(dim, lo, hi) && VReadable(buf, c, yf, pitch, lo, hi)
    requires 0 <= c < |px|
    ensures inside ==> t == VSum(k, dim, buf, c, yf, pitch, lo, hi)
    ensures !inside && lo <= hi ==> t == PassThroughScale * px[c]
    decreases hi - lo
  {
    if hi < lo then 0
    else VStep(k, dim, buf, px, c, yf, pitch, inside, VLoop(k, dim, buf, px, c, yf, pitch, inside, lo, hi - 1), hi)
  }

  /** The buffer cell read for offset `y` is the one of line
      `line + (y >> yf)` in the same column. */
  lemma VWindowReadable(dim: int, p: Plane, buf: seq<int>, yf: nat, line: int, col: int)
    requires dim >= 0 && p.visibleLines >= 1 && 1 <= p.visiblePitch <= p.pitch
    requires |buf| == p.visibleLines * p.pitch
    requires 0 <= line < p.visibleLines && 0 <= col < p.visiblePitch
    ensures VReadable(buf, Index(line, col, p.pitch), yf, p.pitch,
                      VLow(dim, line, yf), VHigh(dim, p.visibleLines, line, yf))
    ensures forall y {:trigger Shr(y, yf)} :: VLow(dim, line, yf) <= y <= VHigh(dim, p.visibleLines, line, yf) ==>
      Index(line, col, p.pitch) + Shr(y, yf) * p.pitch == Index(line + Shr(y, yf), col, p.pitch)
  {
    var c := Index(line, col, p.pitch);
    forall y | VLow(dim, line, yf) <= y <= VHigh(dim, p.visibleLines, line, yf)
      ensures c + Shr(y, yf) * p.pitch == Index(line + Shr(y, yf), col, p.pitch)
      ensures 0 <= c + Shr(y, yf) * p.pitch < |buf|
    {
      VerticalReadLine(dim, p.visibleLines, line, yf, y);
      IndexShiftRows(line, col, p.pitch, Shr(y, yf));
      IndexInside(line + Shr(y, yf), col, p.pitch, p.visibleLines);
    }
  }

  /** A visible sample of a plane that meets `PlaneOk` is inside it. */
  lemma VisibleSampleInside(dim: int, p: Plane, xf: nat, line: int, col: int)
    requires dim >= 0 && PlaneOk(dim, p, xf)
    requires 0 <= line < p.visibleLines && 0 <= col < p.visiblePitch
    ensures 0 <= Index(line, col, p.pitch) < |p.pixels|
  {
    WindowsContainZero(dim, p.visibleLines, p.visiblePitch, line, col, xf, 0);
    var hi := HHigh(dim, p.visiblePitch, col, xf);
    ShrMonotone(0, hi, xf);
    assert Shr(0, xf) == 0;
    IndexRowMonotone(0, line, col, p.pitch);
    IndexRowMonotone(line, p.visibleLines - 1, col + Shr(hi, xf), p.pitch);
  }

  /** The accumulator `t_value` of the vertical pass for visible
      (line, col), from the buffer `buf` the horizontal pass left. */
  function VCell(sys: FilterSys, p: Plane, xf: nat, buf: seq<int>, yf: nat, line: int, col: int): (t: int)
    requires Valid(sys.kernel, sys.dim) && PlaneOk(sys.dim, p, xf)
    requires |buf| == p.visibleLines * p.pitch
    requires 0 <= line < p.visibleLines && 0 <= col < p.visiblePitch
    ensures VReadable(buf, Index(line, col, p.pitch), yf, p.pitch,
                      VLow(sys.dim, line, yf), VHigh(sys.dim, p.visibleLines, line, yf))
    ensures line <= sys.height ==>
      t == VSum(sys.kernel, sys.dim, buf, Index(line, col, p.pitch), yf, p.pitch,
                VLow(sys.dim, line, yf), VHigh(sys.dim, p.visibleLines, line, yf))
    ensures line > sys.height ==>
      0 <= Index(line, col, p.pitch) < |p.pixels| && t == PassThroughScale * p.pixels[Index(line, col, p.pitch)]
  {
    WindowsContainZero(sys.dim, p.visibleLines, p.visiblePitch, line, col, xf, yf);
    VWindowReadable(sys.dim, p, buf, yf, line, col);
    VisibleSampleInside(sys.dim, p, xf, line, col);
    VLoop(sys.kernel, sys.dim, buf, p.pixels, Index(line, col, p.pitch), yf, p.pitch,
          line <= sys.height, VLow(sys.dim, line, yf), VHigh(sys.dim, p.visibleLines, line, yf))
  }

  // ---------------------------------------------------------------------
  // Normalisation and output

  /** The flat index of the divisor (gaussianblur.c:378):
      `(line<<yf)*(pitch<<xf) + (col<<xf)`. For a column inside the row it
      names luma position `(line<<yf, col<<xf)` in a map whose rows are
      `pitch<<xf` apart, and shifting that position back gives the plane
      position (line, col). */
  function ScaleIndex(line: int, col: int, pitch: int, xf: nat, yf: nat): (i: int)
    ensures i == Index(Shl(line, yf), Shl(col, xf), Shl(pitch, xf))
    ensures Shr(Shl(line, yf), yf) == line && Shr(Shl(col, xf), xf) == col
    ensures 0 <= col < pitch ==>
      && 0 <= Shl(col, xf) < Shl(pitch, xf)
      && i / Shl(pitch, xf) == Shl(line, yf)
      && i % Shl(pitch, xf) == Shl(col, xf)
  {
    ShlShrRoundTrip(line, yf);
    ShlShrRoundTrip(col, xf);
    if 0 <= col < pitch then
      MulMonotone(0, col, Pow2(xf));
      MulMonotone(col + 1, pitch, Pow2(xf));
      IndexDecode(Shl(line, yf), Shl(col, xf), Shl(pitch, xf));
      Shl(line, yf) * Shl(pitch, xf) + Shl(col, xf)
    else
      Shl(line, yf) * Shl(pitch, xf) + Shl(col, xf)
  }

  /** With both factors 0 the plane reads the divisor at its own index. */
  lemma ScaleIndexUnscaled(line: int, col: int, pitch: int)
    ensures ScaleIndex(line, col, pitch, 0, 0) == Index(line, col, pitch)
  {
  }

  /** Every divisor the plane reads is inside the map and non-zero. */
  predicate ScaleReadable(m: ScaleMap, p: Plane, xf: nat, yf: nat)
  {
    forall line, col :: 0 <= line < p.visibleLines && 0 <= col < p.visiblePitch ==>
      0 <= ScaleIndex(line, col, p.pitch, xf, yf) < |m.cells| && m.cells[ScaleIndex(line, col, p.pitch, xf, yf)] != 0
  }

  /** The byte stored at output position (line, col) (gaussianblur.c:379): the
      accumulator divided by the divisor with truncation, then cast to
      `uint8_t`. */
  function OutCell(sys: FilterSys, m: ScaleMap, p: Plane, xf: nat, yf: nat, buf: seq<int>, line: int, col: int): (b: Byte)
    requires Valid(sys.kernel, sys.dim) && PlaneOk(sys.dim, p, xf) && ScaleReadable(m, p, xf, yf)
    requires |buf| == p.visibleLines * p.pitch
    requires 0 <= line < p.visibleLines && 0 <= col < p.visiblePitch
    ensures
      var t, d := VCell(sys, p, xf, buf, yf, line, col), m.cells[ScaleIndex(line, col, p.pitch, xf, yf)];
      t >= 0 && d > 0 ==> b == (t / d) % 256
  {
    var t, d := VCell(sys, p, xf, buf, yf, line, col), m.cells[ScaleIndex(line, col, p.pitch, xf, yf)];
    CDivNonNegative(t, d);
    ToByte(CDiv(t, d))
  }

  /** What `Filter` needs of the output plane: rows at least as wide as
      the input's visible part and room for every visible sample. */
  predicate OutOk(out: Plane, p: Plane)
  {
    p.visibleLines >= 1 && 1 <= p.visiblePitch <= out.pitch
    && Index(p.visibleLines - 1, p.visiblePitch - 1, out.pitch) < |out.pixels|
  }

  /** Every visible position of the input has its place in the output. */
  lemma OutputIndexInside(out: Plane, p: Plane, line: int, col: int)
    requires OutOk(out, p)
    requires 0 <= line < p.visibleLines && 0 <= col < p.visiblePitch
    ensures 0 <= Index(line, col, out.pitch) < |out.pixels|
  {
    IndexRowMonotone(line, p.visibleLines - 1, col, out.pitch);
    IndexRowMonotone(0, line, col, out.pitch);
  }

  /** Output position `i` is one the vertical pass writes. */
  predicate Visible(out: Plane, p: Plane, i: int)
    requires out.pitch > 0
  {
    i / out.pitch < p.visibleLines && i % out.pitch < p.visiblePitch
  }

  /** Output plane `o` is input plane `p` (number `plane`) filtered into
      the freshly allocated `out`: same geometry as `out`, the byte of both
      passes at `line*pitch+col` for every visible position, and every
      other sample as `out` holds it. */
  predicate PlaneFiltered(sys: FilterSys, m: ScaleMap, plane: nat, p: Plane, xf: nat, yf: nat, out: Plane, o: Plane)
    requires Valid(sys.kernel, sys.dim) && PlaneOk(sys.dim, p, xf) && ScaleReadable(m, p, xf, yf)
    requires OutOk(out, p)
  {
    && o.visibleLines == out.visibleLines && o.visiblePitch == out.visiblePitch && o.pitch == out.pitch
    && |o.pixels| == |out.pixels|
    && (forall line, col {:trigger o.pixels[Index(line, col, out.pitch)]}
          :: 0 <= line < p.visibleLines && 0 <= col < p.visiblePitch ==>
          && 0 <= Index(line, col, out.pitch) < |o.pixels|
          && o.pixels[Index(line, col, out.pitch)]
               == OutCell(sys, m, p, xf, yf, HorizontalPass(sys, plane, p, xf), line, col))
    && (forall i :: 0 <= i < |o.pixels| && !Visible(out, p, i) ==> o.pixels[i] == out.pixels[i])
  }

  /** gaussianblur.c:318-381 for one plane: both passes, written into the freshly
      allocated output plane `out`. Every visible position receives its
      byte; every other sample of `out` keeps its value. */
  function FilterPlane(sys: FilterSys, m: ScaleMap, plane: nat, p: Plane, xf: nat, yf: nat, out: Plane): (o: Plane)
    requires Valid(sys.kernel, sys.dim) && PlaneOk(sys.dim, p, xf) && ScaleReadable(m, p, xf, yf)
    requires OutOk(out, p)
    ensures o.visibleLines == out.visibleLines && o.visiblePitch == out.visiblePitch && o.pitch == out.pitch
    ensures |o.pixels| == |out.pixels|
    ensures forall line, col {:trigger o.pixels[Index(line, col, out.pitch)]}
      :: 0 <= line < p.visibleLines && 0 <= col < p.visiblePitch ==>
      && 0 <= Index(line, col, out.pitch) < |o.pixels|
      && o.pixels[Index(line, col, out.pitch)]
           == OutCell(sys, m, p, xf, yf, HorizontalPass(sys, plane, p, xf), line, col)
    ensures forall i :: 0 <= i < |o.pixels| && !Visible(out, p, i) ==> o.pixels[i] == out.pixels[i]
    ensures PlaneFiltered(sys, m, plane, p, xf, yf, out, o)
  {
    var buf := HorizontalPass(sys, plane, p, xf);
    var op := out.pitch;
    var o := out.(pixels := seq(|out.pixels|, i requires 0 <= i < |out.pixels| =>
      if Visible(out, p, i) then
        IndexOfDecode(i, op);
        OutCell(sys, m, p, xf, yf, buf, i / op, i % op)
      else out.pixels[i]));
    forall line, col | 0 <= line < p.visibleLines && 0 <= col < p.visiblePitch
      ensures 0 <= Index(line, col, op) < |o.pixels|
      ensures o.pixels[Index(line, col, op)] == OutCell(sys, m, p, xf, yf, buf, line, col)
    {
      IndexDecode(line, col, op);
      OutputIndexInside(out, p, line, col);
    }
    forall i | 0 <= i < |o.pixels| && !Visible(out, p, i)
      ensures o.pixels[i] == out.pixels[i]
    {
    }
    o
  }
}
