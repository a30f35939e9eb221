/** What the two passes compute, stated without the scratch buffer, and the
    behaviours that follow: a uniform luma plane passes through unchanged,
    black mode blanks only the blurred part of luma, and the black flag has
    no effect on chroma. */
module Properties {
  import opened Layout
  import opened Kernel
  import opened Scale
  import opened Params
  import opened Convolve
  import opened Frame

  /** Every line the vertical window of (line, col) reaches is visible. */
  predicate ColumnWindow(dim: int, p: Plane, yf: nat, line: int, lo: int, hi: int)
  {
    && dim >= 0 && 0 <= line < p.visibleLines
    && (hi < lo || (VLow(dim, line, yf) <= lo && hi <= VHigh(dim, p.visibleLines, line, yf)))
  }

  /** The vertical sum expressed over the horizontal pass's results: for
      each offset `y`, the tap times the horizontally filtered value of line
      `line + (y >> yf)` in the same column. */
  function ColumnSum(sys: FilterSys, plane: nat, p: Plane, xf: nat, yf: nat,
                     line: int, col: int, lo: int, hi: int): int
    requires Valid(sys.kernel, sys.dim) && PlaneOk(sys.dim, p, xf)
    requires 0 <= col < p.visiblePitch && ColumnWindow(sys.dim, p, yf, line, lo, hi)
    decreases hi - lo
  {
    if hi < lo then 0
    else
      WindowsContainZero(sys.dim, p.visibleLines, p.visiblePitch, line, col, xf, yf);
      VerticalReadLine(sys.dim, p.visibleLines, line, yf, hi);
      ColumnSum(sys, plane, p, xf, yf, line, col, lo, hi - 1)
        + Tap(sys.kernel, sys.dim, hi) * HCell(sys, plane, p, xf, line + Shr(hi, yf), col)
  }

  /** The vertical pass reads, for every offset, exactly the buffer cell the
      horizontal pass wrote for line `line + (y >> yf)` of the same column. */
  lemma {:induction false} VSumIsColumnSum(sys: FilterSys, plane: nat, p: Plane, xf: nat, yf: nat,
                                           line: int, col: int, lo: int, hi: int)
    requires Valid(sys.kernel, sys.dim) && PlaneOk(sys.dim, p, xf)
    requires 0 <= col < p.visiblePitch && ColumnWindow(sys.dim, p, yf, line, lo, hi)
    ensures
      var buf := HorizontalPass(sys, plane, p, xf);
      && VReadable(buf, Index(line, col, p.pitch), yf, p.pitch, lo, hi)
      && VSum(sys.kernel, sys.dim, buf, Index(line, col, p.pitch), yf, p.pitch, lo, hi)
         == ColumnSum(sys, plane, p, xf, yf, line, col, lo, hi)
    decreases hi - lo
  {
    var buf := HorizontalPass(sys, plane, p, xf);
    VWindowReadable(sys.dim, p, buf, yf, line, col);
    if lo <= hi {
      VSumIsColumnSum(sys, plane, p, xf, yf, line, col, lo, hi - 1);
      VerticalReadLine(sys.dim, p.visibleLines, line, yf, hi);
      assert Index(line, col, p.pitch) + Shr(hi, yf) * p.pitch == Index(line + Shr(hi, yf), col, p.pitch);
    }
  }

  /** Per-pixel meaning of `FilterPlane` at a visible position on or above
      the height limit: the column sum of horizontally filtered values,
      divided with truncation by the map cell the plane reads, as a byte. */
  lemma BlurredPixel(sys: FilterSys, m: ScaleMap, plane: nat, p: Plane, xf: nat, yf: nat, out: Plane,
                     line: int, col: int)
    requires Valid(sys.kernel, sys.dim) && PlaneOk(sys.dim, p, xf) && ScaleReadable(m, p, xf, yf)
    requires OutOk(out, p)
    requires 0 <= line < p.visibleLines && 0 <= col < p.visiblePitch && line <= sys.height
    ensures ColumnWindow(sys.dim, p, yf, line, VLow(sys.dim, line, yf), VHigh(sys.dim, p.visibleLines, line, yf))
    ensures 0 <= Index(line, col, out.pitch) < |FilterPlane(sys, m, plane, p, xf, yf, out).pixels|
    ensures FilterPlane(sys, m, plane, p, xf, yf, out).pixels[Index(line, col, out.pitch)]
         == ToByte(CDiv(ColumnSum(sys, plane, p, xf, yf, line, col,
                                  VLow(sys.dim, line, yf), VHigh(sys.dim, p.visibleLines, line, yf)),
                        m.cells[ScaleIndex(line, col, p.pitch, xf, yf)]))
  {
    var o := FilterPlane(sys, m, plane, p, xf, yf, out);
    var buf := HorizontalPass(sys, plane, p, xf);
    OutputIndexInside(out, p, line, col);
    assert o.pixels[Index(line, col, out.pitch)] == OutCell(sys, m, p, xf, yf, buf, line, col);
    WindowsContainZero(sys.dim, p.visibleLines, p.visiblePitch, line, col, xf, yf);
    VSumIsColumnSum(sys, plane, p, xf, yf, line, col,
                    VLow(sys.dim, line, yf), VHigh(sys.dim, p.visibleLines, line, yf));
  }

  /** Below the height limit the vertical pass ignores the buffer: the
      output is the input sample scaled by 1021 and divided by the map. */
  lemma PassThroughPixel(sys: FilterSys, m: ScaleMap, plane: nat, p: Plane, xf: nat, yf: nat, out: Plane,
                         line: int, col: int)
    requires Valid(sys.kernel, sys.dim) && PlaneOk(sys.dim, p, xf) && ScaleReadable(m, p, xf, yf)
    requires OutOk(out, p)
    requires 0 <= line < p.visibleLines && 0 <= col < p.visiblePitch && line > sys.height
    ensures 0 <= Index(line, col, out.pitch) < |FilterPlane(sys, m, plane, p, xf, yf, out).pixels|
    ensures 0 <= Index(line, col, p.pitch) < |p.pixels|
    ensures FilterPlane(sys, m, plane, p, xf, yf, out).pixels[Index(line, col, out.pitch)]
         == ToByte(CDiv(PassThroughScale * p.pixels[Index(line, col, p.pitch)],
                        m.cells[ScaleIndex(line, col, p.pitch, xf, yf)]))
  {
    var o := FilterPlane(sys, m, plane, p, xf, yf, out);
    var buf := HorizontalPass(sys, plane, p, xf);
    OutputIndexInside(out, p, line, col);
    assert o.pixels[Index(line, col, out.pitch)] == OutCell(sys, m, p, xf, yf, buf, line, col);
    var t := VCell(sys, p, xf, buf, yf, line, col);
    assert t == PassThroughScale * p.pixels[Index(line, col, p.pitch)];
  }

  // ---------------------------------------------------------------------
  // Constant inputs

  lemma {:induction false} HSumUniform(k: seq<int>, dim: int, px: seq<Byte>, c: int, xf: nat,
                                       lo: int, hi: int, v: int)
    requires Shaped(k, dim) && InKernel(dim, lo, hi) && HReadable(px, c, xf, lo, hi)
    requires forall x :: lo <= x <= hi ==> px[c + Shr(x, xf)] == v
    ensures HSum(k, dim, px, c, xf, lo, hi) == v * TapSum(k, dim, lo, hi)
    decreases hi - lo
  {
    if lo <= hi {
      HSumUniform(k, dim, px, c, xf, lo, hi - 1, v);
      var s, t := TapSum(k, dim, lo, hi - 1), Tap(k, dim, hi);
      MulDistributes(v, s, t);
    }
  }

  lemma {:induction false} ColumnSumUniform(sys: FilterSys, plane: nat, p: Plane, xf: nat, yf: nat,
                                            line: int, col: int, lo: int, hi: int, w: int)
    requires Valid(sys.kernel, sys.dim) && PlaneOk(sys.dim, p, xf)
    requires 0 <= col < p.visiblePitch && ColumnWindow(sys.dim, p, yf, line, lo, hi)
    requires forall line' :: 0 <= line' < p.visibleLines ==> HCell(sys, plane, p, xf, line', col) == w
    ensures ColumnSum(sys, plane, p, xf, yf, line, col, lo, hi) == w * TapSum(sys.kernel, sys.dim, lo, hi)
    decreases hi - lo
  {
    if lo <= hi {
      ColumnSumUniform(sys, plane, p, xf, yf, line, col, lo, hi - 1, w);
      VerticalReadLine(sys.dim, p.visibleLines, line, yf, hi);
      var h := HCell(sys, plane, p, xf, line + Shr(hi, yf), col);
      var s, t := TapSum(sys.kernel, sys.dim, lo, hi - 1), Tap(sys.kernel, sys.dim, hi);
      assert ColumnSum(sys, plane, p, xf, yf, line, col, lo, hi) == w * s + t * h;
      assert h == w;
      MulDistributes(w, s, t);
    }
  }

  /** With factors 0 the filter windows are exactly the windows the map
      was built from. */
  lemma LumaWindowsMatchScale(dim: int, visibleLines: int, visiblePitch: int, line: int, col: int)
    ensures HLow(dim, col, 0) == ColLow(dim, col)
    ensures HHigh(dim, visiblePitch, col, 0) == ColHigh(dim, visiblePitch, col)
    ensures VLow(dim, line, 0) == LineLow(dim, line)
    ensures VHigh(dim, visibleLines, line, 0) == LineHigh(dim, visibleLines, line)
  {
  }

  /** The samples the horizontal window of (line, col) reads from a
      full-resolution plane, a contiguous run around the position, are all
      `v`. */
  predicate WindowUniform(dim: int, p: Plane, line: int, col: int, v: int)
  {
    var c := Index(line, col, p.pitch);
    forall j :: c + HLow(dim, col, 0) <= j <= c + HHigh(dim, p.visiblePitch, col, 0) && 0 <= j < |p.pixels|
      ==> p.pixels[j] == v
  }

  /** Every sample the horizontal pass reads is `v`; padding beyond two
      columns past the visible part, and samples no window reaches, are
      unconstrained. */
  predicate ReadsUniform(dim: int, p: Plane, v: int)
  {
    forall line, col :: 0 <= line < p.visibleLines && 0 <= col < p.visiblePitch ==> WindowUniform(dim, p, line, col, v)
  }

  /** On a full-resolution plane whose samples read are all `v`, at a
      position whose column is within the height limit and black mode off,
      the vertical sum is `v` times the map entry of that position: each
      buffer value of the column is `v` times the horizontal window weight. */
  lemma UniformColumnSum(sys: FilterSys, p: Plane, v: Byte, line: int, col: int)
    requires Valid(sys.kernel, sys.dim) && PlaneOk(sys.dim, p, 0)
    requires !sys.black && ReadsUniform(sys.dim, p, v)
    requires 0 <= line < p.visibleLines && 0 <= col < p.visiblePitch && col <= sys.height
    ensures ColumnWindow(sys.dim, p, 0, line, VLow(sys.dim, line, 0), VHigh(sys.dim, p.visibleLines, line, 0))
    ensures ColumnSum(sys, 0, p, 0, 0, line, col, VLow(sys.dim, line, 0), VHigh(sys.dim, p.visibleLines, line, 0))
         == v * ScaleEntry(sys.kernel, sys.dim, p.visibleLines, p.visiblePitch, line, col)
  {
    var k, dim := sys.kernel, sys.dim;
    LumaWindowsMatchScale(dim, p.visibleLines, p.visiblePitch, line, col);
    var tx := TapSum(k, dim, ColLow(dim, col), ColHigh(dim, p.visiblePitch, col));
    var ty := TapSum(k, dim, LineLow(dim, line), LineHigh(dim, p.visibleLines, line));
    forall line' | 0 <= line' < p.visibleLines
      ensures HCell(sys, 0, p, 0, line', col) == v * tx
    {
      var c := Index(line', col, p.pitch);
      var _ := HCell(sys, 0, p, 0, line', col);
      forall x | ColLow(dim, col) <= x <= ColHigh(dim, p.visiblePitch, col)
        ensures p.pixels[c + Shr(x, 0)] == v
      {
        HReadInside(dim, p, 0, line', col, x);
        assert Shr(x, 0) == x;
        assert WindowUniform(dim, p, line', col, v);
      }
      HSumUniform(k, dim, p.pixels, c, 0, ColLow(dim, col), ColHigh(dim, p.visiblePitch, col), v);
    }
    WindowsContainZero(dim, p.visibleLines, p.visiblePitch, line, col, 0, 0);
    ColumnSumUniform(sys, 0, p, 0, 0, line, col,
                     VLow(dim, line, 0), VHigh(dim, p.visibleLines, line, 0), v * tx);
    ScaleEntryClosedForm(k, dim, p.visibleLines, p.visiblePitch, line, col);
    MulRearrange(v, tx, ty);
  }

  /** A luma plane whose every sample read is `v`, filtered without black
      mode with a height limit that covers every visible line and column,
      comes out unchanged: each accumulated sum is `v` times the very
      window weight the map holds, and the division is exact. */
  lemma UniformLumaPassesThrough(sys: FilterSys, p: Plane, out: Plane, v: Byte)
    requires Valid(sys.kernel, sys.dim) && PlaneOk(sys.dim, p, 0) && OutOk(out, p)
    requires !sys.black
    requires sys.height >= p.visiblePitch - 1 && sys.height >= p.visibleLines - 1
    requires ReadsUniform(sys.dim, p, v)
    ensures
      var m := BuildScale(sys.kernel, sys.dim, p.visibleLines, p.visiblePitch, p.pitch);
      && ScaleReadable(m, p, 0, 0)
      && forall line, col :: 0 <= line < p.visibleLines && 0 <= col < p.visiblePitch ==>
           && 0 <= Index(line, col, out.pitch) < |FilterPlane(sys, m, 0, p, 0, 0, out).pixels|
           && FilterPlane(sys, m, 0, p, 0, 0, out).pixels[Index(line, col, out.pitch)] == v
  {
    var k, dim := sys.kernel, sys.dim;
    var m := BuildScale(k, dim, p.visibleLines, p.visiblePitch, p.pitch);
    LumaCovered(k, dim, p);
    Frame.CoveredIsReadable(m, k, dim, p, 0, 0);
    forall line, col | 0 <= line < p.visibleLines && 0 <= col < p.visiblePitch
      ensures 0 <= Index(line, col, out.pitch) < |FilterPlane(sys, m, 0, p, 0, 0, out).pixels|
      ensures FilterPlane(sys, m, 0, p, 0, 0, out).pixels[Index(line, col, out.pitch)] == v
    {
      var e := ScaleEntry(k, dim, p.visibleLines, p.visiblePitch, line, col);
      UniformColumnSum(sys, p, v, line, col);
      BlurredPixel(sys, m, 0, p, 0, 0, out, line, col);
      ScaleEntryClosedForm(k, dim, p.visibleLines, p.visiblePitch, line, col);
      ScaleIndexUnscaled(line, col, p.pitch);
      assert m.cells[ScaleIndex(line, col, p.pitch, 0, 0)] == e;
      CDivExact(v, e);
    }
  }

  // ---------------------------------------------------------------------
  // Black mode

  /** In black mode the luma plane is 0 wherever both passes blur (column
      and line within the height limit); elsewhere it is what it would be
      without black mode (`BlackSparesUnblurred`). */
  lemma BlackBlanksLuma(sys: FilterSys, m: ScaleMap, p: Plane, xf: nat, yf: nat, out: Plane,
                        line: int, col: int)
    requires Valid(sys.kernel, sys.dim) && PlaneOk(sys.dim, p, xf) && ScaleReadable(m, p, xf, yf)
    requires OutOk(out, p)
    requires sys.black
    requires 0 <= line < p.visibleLines && 0 <= col < p.visiblePitch
    requires line <= sys.height && col <= sys.height
    ensures 0 <= Index(line, col, out.pitch) < |FilterPlane(sys, m, 0, p, xf, yf, out).pixels|
    ensures FilterPlane(sys, m, 0, p, xf, yf, out).pixels[Index(line, col, out.pitch)] == 0
  {
    BlurredPixel(sys, m, 0, p, xf, yf, out, line, col);
    forall line' | 0 <= line' < p.visibleLines
      ensures HCell(sys, 0, p, xf, line', col) == 0
    {
    }
    var lo, hi := VLow(sys.dim, line, yf), VHigh(sys.dim, p.visibleLines, line, yf);
    ColumnSumUniform(sys, 0, p, xf, yf, line, col, lo, hi, 0);
    assert ColumnSum(sys, 0, p, xf, yf, line, col, lo, hi) == 0;
    CDivZero(m.cells[ScaleIndex(line, col, p.pitch, xf, yf)]);
  }

  /** Two states that agree on every horizontally filtered value of a
      column agree on its column sums. */
  lemma {:induction false} ColumnSumSameCells(sys: FilterSys, sys': FilterSys, plane: nat, p: Plane, xf: nat, yf: nat,
                                              line: int, col: int, lo: int, hi: int)
    requires Valid(sys.kernel, sys.dim) && PlaneOk(sys.dim, p, xf)
    requires sys'.kernel == sys.kernel && sys'.dim == sys.dim
    requires 0 <= col < p.visiblePitch && ColumnWindow(sys.dim, p, yf, line, lo, hi)
    requires forall line' :: 0 <= line' < p.visibleLines ==>
      HCell(sys, plane, p, xf, line', col) == HCell(sys', plane, p, xf, line', col)
    ensures ColumnSum(sys, plane, p, xf, yf, line, col, lo, hi) == ColumnSum(sys', plane, p, xf, yf, line, col, lo, hi)
    decreases hi - lo
  {
    if lo <= hi {
      ColumnSumSameCells(sys, sys', plane, p, xf, yf, line, col, lo, hi - 1);
      VerticalReadLine(sys.dim, p.visibleLines, line, yf, hi);
    }
  }

  /** The other half of black mode: on luma positions where either pass
      is beyond the height limit, the output does not depend on the black
      flag, so black mode blanks nothing there. */
  lemma BlackSparesUnblurred(sys: FilterSys, m: ScaleMap, p: Plane, xf: nat, yf: nat, out: Plane,
                             line: int, col: int)
    requires Valid(sys.kernel, sys.dim) && PlaneOk(sys.dim, p, xf) && ScaleReadable(m, p, xf, yf)
    requires OutOk(out, p)
    requires 0 <= line < p.visibleLines && 0 <= col < p.visiblePitch
    requires line > sys.height || col > sys.height
    ensures 0 <= Index(line, col, out.pitch) < |FilterPlane(sys, m, 0, p, xf, yf, out).pixels|
    ensures FilterPlane(sys, m, 0, p, xf, yf, out).pixels[Index(line, col, out.pitch)]
         == FilterPlane(sys.(black := !sys.black), m, 0, p, xf, yf, out).pixels[Index(line, col, out.pitch)]
  {
    var sys' := sys.(black := !sys.black);
    if line > sys.height {
      PassThroughPixel(sys, m, 0, p, xf, yf, out, line, col);
      PassThroughPixel(sys', m, 0, p, xf, yf, out, line, col);
    } else {
      BlurredPixel(sys, m, 0, p, xf, yf, out, line, col);
      BlurredPixel(sys', m, 0, p, xf, yf, out, line, col);
      forall line' | 0 <= line' < p.visibleLines
        ensures HCell(sys, 0, p, xf, line', col) == HCell(sys', 0, p, xf, line', col)
      {
      }
      ColumnSumSameCells(sys, sys', 0, p, xf, yf, line, col,
                         VLow(sys.dim, line, yf), VHigh(sys.dim, p.visibleLines, line, yf));
    }
  }

  /** The horizontal pass of a plane other than luma does not depend on
      the black flag. */
  lemma HorizontalPassIgnoresBlack(sys: FilterSys, plane: nat, p: Plane, xf: nat)
    requires Valid(sys.kernel, sys.dim) && PlaneOk(sys.dim, p, xf)
    requires plane != 0
    ensures HorizontalPass(sys, plane, p, xf) == HorizontalPass(sys.(black := !sys.black), plane, p, xf)
  {
    var a := HorizontalPass(sys, plane, p, xf);
    var b := HorizontalPass(sys.(black := !sys.black), plane, p, xf);
    forall i | 0 <= i < |a|
      ensures a[i] == b[i]
    {
      DecodeInside(i, p.pitch, p.visibleLines);
      var line, col := i / p.pitch, i % p.pitch;
      if col < p.visiblePitch {
        assert a[Index(line, col, p.pitch)] == b[Index(line, col, p.pitch)];
      }
    }
  }

  /** Flipping the black flag changes nothing on chroma planes. */
  lemma BlackLeavesChroma(sys: FilterSys, m: ScaleMap, plane: nat, p: Plane, xf: nat, yf: nat, out: Plane)
    requires Valid(sys.kernel, sys.dim) && PlaneOk(sys.dim, p, xf) && ScaleReadable(m, p, xf, yf)
    requires OutOk(out, p)
    requires plane != 0
    ensures FilterPlane(sys, m, plane, p, xf, yf, out)
         == FilterPlane(sys.(black := !sys.black), m, plane, p, xf, yf, out)
  {
    var sys' := sys.(black := !sys.black);
    HorizontalPassIgnoresBlack(sys, plane, p, xf);
    var a := FilterPlane(sys, m, plane, p, xf, yf, out);
    var b := FilterPlane(sys', m, plane, p, xf, yf, out);
    forall i | 0 <= i < |a.pixels|
      ensures a.pixels[i] == b.pixels[i]
    {
      if Visible(out, p, i) {
        var line, col := i / out.pitch, i % out.pitch;
        IndexOfDecode(i, out.pitch);
        assert a.pixels[Index(line, col, out.pitch)] == b.pixels[Index(line, col, out.pitch)];
      }
    }
  }

  /** Black mode touches luma only: over a whole call, the flag does not
      decide whether a picture is accepted, and every plane other than
      luma comes out the same whatever the flag. */
  lemma BlackLeavesFrameChroma(sys: FilterSys, pic: Picture, out: Picture)
    requires FrameOk(sys, pic, out)
    ensures FrameOk(sys.(black := !sys.black), pic, out)
    ensures
      var a := FilterFrame(sys, Some(pic), Some(out)).1.value;
      var b := FilterFrame(sys.(black := !sys.black), Some(pic), Some(out)).1.value;
      && |a.planes| == |b.planes| == |pic.planes|
      && forall i :: 1 <= i < |pic.planes| ==> a.planes[i] == b.planes[i]
  {
    var sys' := sys.(black := !sys.black);
    assert ScaleFor(sys', pic) == ScaleFor(sys, pic);
    var s, s' := NextState(sys, pic), NextState(sys', pic);
    assert s' == s.(black := !s.black);
    var m := s.scale.value;
    var a := FilterFrame(sys, Some(pic), Some(out)).1.value;
    var b := FilterFrame(sys', Some(pic), Some(out)).1.value;
    forall i | 1 <= i < |pic.planes|
      ensures a.planes[i] == b.planes[i]
    {
      BlackLeavesChroma(s, m, i, pic.planes[i], XFactor(pic, i), YFactor(pic, i), out.planes[i]);
    }
  }

  // ---------------------------------------------------------------------
  // A single tap

  /** With `dim = 0` every map entry is the square of the centre tap. */
  lemma SingleTapEntry(k: seq<int>, lines: int, visiblePitch: int, line: int, col: int)
    requires Valid(k, 0) && 0 <= line < lines && 0 <= col < visiblePitch
    ensures ScaleEntry(k, 0, lines, visiblePitch, line, col) == Tap(k, 0, 0) * Tap(k, 0, 0)
  {
    ScaleEntryClosedForm(k, 0, lines, visiblePitch, line, col);
    assert LineLow(0, line) == 0 && LineHigh(0, lines, line) == 0;
    assert ColLow(0, col) == 0 && ColHigh(0, visiblePitch, col) == 0;
  }

  /** With `dim = 0` (sigma below 1/3) the kernel is the single centre tap
      `t`: within the height limit, and outside black mode on luma, each
      visible pixel is `t*(t*v) / (t*t)`, i.e. the input sample `v`, on
      every plane whose divisors are written map cells. */
  lemma SingleTapIdentity(sys: FilterSys, m: ScaleMap, plane: nat, p: Plane, xf: nat, yf: nat, out: Plane,
                          line: int, col: int)
    requires Valid(sys.kernel, sys.dim) && sys.dim == 0 && PlaneOk(0, p, xf) && OutOk(out, p)
    requires Built(m, sys.kernel, 0) && PlaneCovered(m, p, xf, yf) && !(sys.black && plane == 0)
    requires 0 <= line < p.visibleLines && 0 <= col < p.visiblePitch
    requires line <= sys.height && col <= sys.height
    ensures ScaleReadable(m, p, xf, yf)
    ensures 0 <= Index(line, col, out.pitch) < |FilterPlane(sys, m, plane, p, xf, yf, out).pixels|
    ensures 0 <= Index(line, col, p.pitch) < |p.pixels|
    ensures FilterPlane(sys, m, plane, p, xf, yf, out).pixels[Index(line, col, out.pitch)]
         == p.pixels[Index(line, col, p.pitch)]
  {
    var k, t := sys.kernel, Tap(sys.kernel, 0, 0);
    CoveredIsReadable(m, k, 0, p, xf, yf);
    VisibleSampleInside(0, p, xf, line, col);
    var c := Index(line, col, p.pitch);
    var v := p.pixels[c];
    BlurredPixel(sys, m, plane, p, xf, yf, out, line, col);
    WindowsContainZero(0, p.visibleLines, p.visiblePitch, line, col, xf, yf);
    var lo, hi := VLow(0, line, yf), VHigh(0, p.visibleLines, line, yf);
    assert lo == 0 && hi == 0;
    assert HLow(0, col, xf) == 0 && HHigh(0, p.visiblePitch, col, xf) == 0;
    assert HCell(sys, plane, p, xf, line, col) == t * v;
    assert ColumnSum(sys, plane, p, xf, yf, line, col, lo, hi) == t * (t * v);
    var idx := ScaleIndex(line, col, p.pitch, xf, yf);
    assert Written(m, idx);
    DecodeInside(idx, m.pitch, m.lines);
    SingleTapEntry(k, m.lines, m.visiblePitch, idx / m.pitch, idx % m.pitch);
    assert m.cells[idx] == t * t;
    SingleTapQuotient(v, t);
  }

  /** `t*(t*v)`, truncated-divided by `t*t`, cast to a byte, is the byte `v`. */
  lemma SingleTapQuotient(v: Byte, t: int)
    requires t > 0
    ensures ToByte(CDiv(t * (t * v), t * t)) == v
  {
    assert t * (t * v) == v * t * t;
    CDivExactProduct(v as int, t, t);
  }

  // ---------------------------------------------------------------------
  // Coverage of the map

  /** The luma plane reads its own map cell `line*pitch+col`. */
  lemma LumaCovered(k: seq<int>, dim: int, p: Plane)
    requires Shaped(k, dim) && p.visibleLines >= 1 && 1 <= p.visiblePitch <= p.pitch
    ensures PlaneCovered(BuildScale(k, dim, p.visibleLines, p.visiblePitch, p.pitch), p, 0, 0)
  {
    var m := BuildScale(k, dim, p.visibleLines, p.visiblePitch, p.pitch);
    forall line, col | 0 <= line < p.visibleLines && 0 <= col < p.visiblePitch
      ensures Written(m, ScaleIndex(line, col, p.pitch, 0, 0))
    {
      assert ScaleIndex(line, col, p.pitch, 0, 0) == Index(line, col, p.pitch);
      IndexInside(line, col, p.pitch, p.visibleLines);
      IndexDecode(line, col, p.pitch);
    }
  }

  /** A half-resolution plane whose pitch is exactly half the luma pitch
      reads the map cell of luma position (2*line, 2*col), which is
      written. */
  lemma HalfPlaneCovered(m: ScaleMap, p: Plane)
    requires 0 < m.visiblePitch <= m.pitch && |m.cells| == m.lines * m.pitch
    requires p.visibleLines >= 1 && p.visiblePitch >= 1
    requires 2 * p.pitch == m.pitch && 2 * p.visibleLines <= m.lines && 2 * p.visiblePitch <= m.visiblePitch
    ensures forall line, col :: 0 <= line < p.visibleLines && 0 <= col < p.visiblePitch ==>
      ScaleIndex(line, col, p.pitch, 1, 1) == Index(2 * line, 2 * col, m.pitch)
    ensures PlaneCovered(m, p, 1, 1)
  {
    forall line, col | 0 <= line < p.visibleLines && 0 <= col < p.visiblePitch
      ensures Written(m, ScaleIndex(line, col, p.pitch, 1, 1))
    {
      assert ScaleIndex(line, col, p.pitch, 1, 1) == Index(2 * line, 2 * col, m.pitch);
      IndexInside(2 * line, 2 * col, m.pitch, m.lines);
      IndexDecode(2 * line, 2 * col, m.pitch);
    }
  }

  /** A plane subsampled by `2^xf` horizontally and `2^yf` vertically,
      whose rows are `2^xf` times narrower than the map's, reads the map
      cell of luma position `(line<<yf, col<<xf)`, which is written. */
  lemma SubsampledPlaneCovered(m: ScaleMap, p: Plane, xf: nat, yf: nat)
    requires 0 < m.visiblePitch <= m.pitch && |m.cells| == m.lines * m.pitch
    requires p.visibleLines >= 1 && 1 <= p.visiblePitch <= p.pitch
    requires Shl(p.pitch, xf) == m.pitch
    requires Shl(p.visibleLines, yf) <= m.lines && Shl(p.visiblePitch, xf) <= m.visiblePitch
    ensures forall line, col :: 0 <= line < p.visibleLines && 0 <= col < p.visiblePitch ==>
      ScaleIndex(line, col, p.pitch, xf, yf) == Index(Shl(line, yf), Shl(col, xf), m.pitch)
    ensures PlaneCovered(m, p, xf, yf)
  {
    forall line, col | 0 <= line < p.visibleLines && 0 <= col < p.visiblePitch
      ensures Written(m, ScaleIndex(line, col, p.pitch, xf, yf))
    {
      var l, c := Shl(line, yf), Shl(col, xf);
      ShlBelow(line, p.visibleLines, yf);
      ShlBelow(col, p.visiblePitch, xf);
      IndexInside(l, c, m.pitch, m.lines);
      IndexDecode(l, c, m.pitch);
    }
  }

  /** 4:2:2 chroma: half the luma width, full height, half the pitch. */
  lemma HalfWidthPlaneCovered(m: ScaleMap, p: Plane)
    requires 0 < m.visiblePitch <= m.pitch && |m.cells| == m.lines * m.pitch
    requires p.visibleLines >= 1 && 1 <= p.visiblePitch <= p.pitch
    requires 2 * p.pitch == m.pitch && p.visibleLines <= m.lines && 2 * p.visiblePitch <= m.visiblePitch
    ensures PlaneCovered(m, p, 1, 0)
  {
    assert Pow2(1) == 2 && Pow2(0) == 1;
    SubsampledPlaneCovered(m, p, 1, 0);
  }

  /** Coverage can fail on the first picture. A host that rounds chroma
      up for an odd luma width gives luma 5 wide (pitch 32) a chroma plane
      3 wide (pitch 16): the factor is `5/3 - 1 = 0`, so the second chroma
      line reads flat index 16, a padding cell of the first luma row. */
  lemma OddWidthChromaUncovered(m: ScaleMap, p: Plane)
    requires m.visiblePitch == 5 && m.pitch == 32
    requires p.visibleLines >= 2 && p.visiblePitch == 3 && p.pitch == 16
    ensures Factor(m.visiblePitch, p.visiblePitch) == 0
    ensures ScaleIndex(1, 0, p.pitch, 0, 0) == 16 && !Written(m, 16)
    ensures !PlaneCovered(m, p, 0, 0)
  {
    assert ScaleIndex(1, 0, p.pitch, 0, 0) == 16;
  }

  // ---------------------------------------------------------------------
  // Whole frames

  /** After the first frame the state is settled: a second frame, of any
      geometry the cached map covers, leaves it exactly as it was. */
  lemma StateSettlesAfterFirstFrame(sys: FilterSys, a: Picture, ta: Picture, b: Picture, tb: Picture)
    requires SysOk(sys) && FrameOk(sys, a, ta)
    requires FrameOk(FilterFrame(sys, Some(a), Some(ta)).0, b, tb)
    ensures
      var s1 := FilterFrame(sys, Some(a), Some(ta)).0;
      FilterFrame(s1, Some(b), Some(tb)).0 == s1
  {
  }

  /** The first frame (or any later one of the same luma geometry) with a
      luma plane whose samples read are all `v`, black mode off and a resolved height that covers
      the luma plane: the output luma plane shows the same uniform value. */
  lemma FrameUniformLuma(sys: FilterSys, pic: Picture, target: Picture, v: Byte)
    requires SysOk(sys) && FrameOk(sys, pic, target) && !sys.black
    requires
      var luma := pic.planes[0];
      && (sys.scale.Some? ==>
            sys.scale.value.lines == luma.visibleLines && sys.scale.value.visiblePitch == luma.visiblePitch
            && sys.scale.value.pitch == luma.pitch)
      && ResolveHeight(sys.height, luma.visibleLines) >= luma.visiblePitch - 1
      && ResolveHeight(sys.height, luma.visibleLines) >= luma.visibleLines - 1
      && ReadsUniform(sys.dim, luma, v)
    ensures
      var r := FilterFrame(sys, Some(pic), Some(target));
      var luma, o := pic.planes[0], r.1.value.planes[0];
      forall line, col :: 0 <= line < luma.visibleLines && 0 <= col < luma.visiblePitch ==>
        0 <= Index(line, col, target.planes[0].pitch) < |o.pixels| && o.pixels[Index(line, col, target.planes[0].pitch)] == v
  {
    var luma := pic.planes[0];
    var r := FilterFrame(sys, Some(pic), Some(target));
    FactorOfSubsampling(luma.visiblePitch);
    FactorOfSubsampling(luma.visibleLines);
    assert XFactor(pic, 0) == 0 && YFactor(pic, 0) == 0;
    UniformLumaPassesThrough(r.0, luma, target.planes[0], v);
  }
}
