/** `Filter` (gaussianblur.c:248-384) on a whole picture: the normalisation map is
    built from the first picture's luma plane and kept, the height sentinel
    is resolved once, and every plane goes through both passes into the
    freshly allocated output picture. */
module Frame {
  import opened Layout
  import opened Kernel
  import opened Scale
  import opened Params
  import opened Convolve

  /** A planar picture; plane 0 is luma (`Y_PLANE`). */
  datatype Picture = Picture(planes: seq<Plane>)

  /** A plane no larger than the luma plane in either direction, so that
      both subsampling factors are defined and non-negative. */
  predicate Fits(luma: Plane, p: Plane)
  {
    0 < p.visiblePitch <= luma.visiblePitch && 0 < p.visibleLines <= luma.visibleLines
  }

  function XFactor(pic: Picture, i: int): nat
    requires 0 <= i < |pic.planes| && Fits(pic.planes[0], pic.planes[i])
  {
    Factor(pic.planes[0].visiblePitch, pic.planes[i].visiblePitch)
  }

  function YFactor(pic: Picture, i: int): nat
    requires 0 <= i < |pic.planes| && Fits(pic.planes[0], pic.planes[i])
  {
    Factor(pic.planes[0].visibleLines, pic.planes[i].visibleLines)
  }

  /** What `Filter` needs of an input picture: a luma plane, every plane
      no larger than it, and every plane's reads inside its samples. */
  predicate PictureOk(dim: int, pic: Picture)
  {
    && |pic.planes| >= 1
    && forall i :: 0 <= i < |pic.planes| ==>
         Fits(pic.planes[0], pic.planes[i]) && PlaneOk(dim, pic.planes[i], XFactor(pic, i))
  }

  /** The output picture has the same planes, each with room for the
      visible samples of the corresponding input plane. */
  predicate OutputOk(pic: Picture, out: Picture)
  {
    |out.planes| == |pic.planes| && forall i :: 0 <= i < |pic.planes| ==> OutOk(out.planes[i], pic.planes[i])
  }

  /** The map this picture is filtered with: the cached one, or the one
      built from its luma plane when none is cached yet (gaussianblur.c:274-305). */
  function ScaleFor(sys: FilterSys, pic: Picture): (m: ScaleMap)
    requires SysOk(sys) && PictureOk(sys.dim, pic)
    ensures Built(m, sys.kernel, sys.dim)
    ensures sys.scale.Some? ==> m == sys.scale.value
    ensures sys.scale.None? ==>
      && m.lines == pic.planes[0].visibleLines && m.visiblePitch == pic.planes[0].visiblePitch
      && m.pitch == pic.planes[0].pitch
  {
    if sys.scale.Some? then sys.scale.value
    else
      var luma := pic.planes[0];
      BuildScale(sys.kernel, sys.dim, luma.visibleLines, luma.visiblePitch, luma.pitch)
  }

  /** Every divisor a plane reads is a cell the map builder wrote. */
  predicate PlaneCovered(m: ScaleMap, p: Plane, xf: nat, yf: nat)
  {
    forall line, col :: 0 <= line < p.visibleLines && 0 <= col < p.visiblePitch ==>
      Written(m, ScaleIndex(line, col, p.pitch, xf, yf))
  }

  predicate Covered(m: ScaleMap, pic: Picture)
  {
    forall i :: 0 <= i < |pic.planes| && Fits(pic.planes[0], pic.planes[i]) ==>
      PlaneCovered(m, pic.planes[i], XFactor(pic, i), YFactor(pic, i))
  }

  /** Everything a frame must satisfy for `Filter` to run on it without
      reading outside its buffers or dividing by zero: a positive centre
      tap, planes whose reads stay inside them, and divisors the map
      builder wrote. */
  predicate FrameOk(sys: FilterSys, pic: Picture, out: Picture)
  {
    && SysOk(sys) && Valid(sys.kernel, sys.dim) && PictureOk(sys.dim, pic) && OutputOk(pic, out)
    && Covered(ScaleFor(sys, pic), pic)
  }

  lemma CoveredIsReadable(m: ScaleMap, k: seq<int>, dim: int, p: Plane, xf: nat, yf: nat)
    requires Valid(k, dim) && Built(m, k, dim) && PlaneCovered(m, p, xf, yf)
    ensures ScaleReadable(m, p, xf, yf)
  {
    forall line, col | 0 <= line < p.visibleLines && 0 <= col < p.visiblePitch
      ensures 0 <= ScaleIndex(line, col, p.pitch, xf, yf) < |m.cells|
      ensures m.cells[ScaleIndex(line, col, p.pitch, xf, yf)] != 0
    {
      WrittenCellPositive(m, k, dim, ScaleIndex(line, col, p.pitch, xf, yf));
    }
  }

  /** The state after a picture has been accepted: the map is the cached
      one or, on the first picture, the one built from its luma plane; the
      height sentinel is replaced by the luma line count (gaussianblur.c:307-308). */
  function NextState(sys: FilterSys, pic: Picture): (s: FilterSys)
    requires SysOk(sys) && PictureOk(sys.dim, pic)
    ensures SysOk(s)
    ensures s.sigma == sys.sigma && s.dim == sys.dim && s.kernel == sys.kernel && s.black == sys.black
    ensures s.scale == Some(ScaleFor(sys, pic))
    ensures sys.height == FullHeight ==> s.height == pic.planes[0].visibleLines
    ensures sys.height != FullHeight ==> s.height == sys.height
    ensures s.height >= 0
  {
    sys.(scale := Some(ScaleFor(sys, pic)), height := ResolveHeight(sys.height, pic.planes[0].visibleLines))
  }

  /** Every plane of a frame that meets `FrameOk` reads only non-zero
      divisors of the map it is filtered with. */
  lemma FrameReadable(sys: FilterSys, pic: Picture, out: Picture)
    requires FrameOk(sys, pic, out)
    ensures forall i :: 0 <= i < |pic.planes| ==>
      ScaleReadable(ScaleFor(sys, pic), pic.planes[i], XFactor(pic, i), YFactor(pic, i))
  {
    var m := ScaleFor(sys, pic);
    forall i | 0 <= i < |pic.planes|
      ensures ScaleReadable(m, pic.planes[i], XFactor(pic, i), YFactor(pic, i))
    {
      CoveredIsReadable(m, sys.kernel, sys.dim, pic.planes[i], XFactor(pic, i), YFactor(pic, i));
    }
  }

  /** The plane loop (gaussianblur.c:313-382): plane `i` of the output is plane `i`
      of the input filtered with its own subsampling factors. Each visible
      position `(line, col)` of plane `i` holds the byte of the two passes
      over that plane at `line*pitch+col` of the output plane, and every
      other sample of the output plane is left as it was allocated. */
  function FilterPlanes(sys: FilterSys, m: ScaleMap, pic: Picture, out: Picture): (planes: seq<Plane>)
    requires Valid(sys.kernel, sys.dim) && PictureOk(sys.dim, pic) && OutputOk(pic, out)
    requires forall i :: 0 <= i < |pic.planes| ==> ScaleReadable(m, pic.planes[i], XFactor(pic, i), YFactor(pic, i))
    ensures |planes| == |pic.planes|
    ensures forall i :: 0 <= i < |pic.planes| ==>
      planes[i].pitch == out.planes[i].pitch && |planes[i].pixels| == |out.planes[i].pixels|
    ensures forall i :: 0 <= i < |pic.planes| ==>
      PlaneFiltered(sys, m, i, pic.planes[i], XFactor(pic, i), YFactor(pic, i), out.planes[i], planes[i])
    ensures forall i :: 0 <= i < |pic.planes| ==>
      planes[i] == FilterPlane(sys, m, i, pic.planes[i], XFactor(pic, i), YFactor(pic, i), out.planes[i])
  {
    seq(|pic.planes|, i requires 0 <= i < |pic.planes| =>
      FilterPlane(sys, m, i, pic.planes[i], XFactor(pic, i), YFactor(pic, i), out.planes[i]))
  }

  /** One call of `Filter`. A missing input picture, or an output picture
      that could not be allocated, yields no picture and leaves the state
      alone. Otherwise the map is built if none was cached and never
      rebuilt afterwards, the sentinel height becomes the luma line count,
      and each output plane is its input plane filtered with the updated
      state. */
  function FilterFrame(sys: FilterSys, pic: Option<Picture>, target: Option<Picture>): (r: (FilterSys, Option<Picture>))
    requires SysOk(sys)
    requires pic.Some? && target.Some? ==> FrameOk(sys, pic.value, target.value)
    ensures pic.None? || target.None? ==> r == (sys, None)
    ensures pic.Some? && target.Some? ==>
      var luma := pic.value.planes[0];
      && SysOk(r.0)
      && r.0.sigma == sys.sigma && r.0.dim == sys.dim && r.0.kernel == sys.kernel && r.0.black == sys.black
      && (sys.scale.Some? ==> r.0.scale == sys.scale)
      && (sys.scale.None? ==>
            r.0.scale == Some(BuildScale(sys.kernel, sys.dim, luma.visibleLines, luma.visiblePitch, luma.pitch)))
      && (sys.height == FullHeight ==> r.0.height == luma.visibleLines)
      && (sys.height != FullHeight ==> r.0.height == sys.height)
      && r.0.height >= 0
      && (forall i :: 0 <= i < |pic.value.planes| ==>
            ScaleReadable(r.0.scale.value, pic.value.planes[i], XFactor(pic.value, i), YFactor(pic.value, i)))
      && r.1 == Some(Picture(FilterPlanes(r.0, r.0.scale.value, pic.value, target.value)))
  {
    if pic.None? || target.None? then (sys, None)
    else
      var s := NextState(sys, pic.value);
      FrameReadable(sys, pic.value, target.value);
      (s, Some(Picture(FilterPlanes(s, s.scale.value, pic.value, target.value))))
  }
}
