/** Filter creation (`Create`) and the per-instance state `filter_sys_t`
    that `Filter` reads and updates from frame to frame. */
module Params {
  import opened Kernel
  import opened Scale

  datatype Option<T> = None | Some(value: T)

  /** Why `Create` refuses the configuration (`VLC_EGENERIC`). */
  datatype CreateError = SigmaNotPositive | HeightNegative

  datatype Result<T> = Ok(value: T) | Err(error: CreateError)

  /** The `height` value that stands for "every line of the picture". */
  const FullHeight: int := -2

  /** `filter_sys_t`: `pt_buffer` is scratch memory rewritten for every
      plane and has no counterpart here; `scale` is `pt_scale`, `None`
      until the first frame. */
  datatype FilterSys = FilterSys(
    sigma: real,
    dim: int,
    kernel: seq<int>,
    height: int,
    black: bool,
    scale: Option<ScaleMap>)

  /** Half-width of the kernel, `(int)(3.*f_sigma)`: truncation, which is
      the floor for the positive sigmas that reach it. */
  function Radius(sigma: real): (dim: int)
    requires sigma > 0.0
    ensures dim >= 0
    ensures dim as real <= 3.0 * sigma < dim as real + 1.0
  {
    (3.0 * sigma).Floor
  }

  /** gaussianblur.c:212-216: the fetched value lands in the C `bool` field
      `b_black`, which turns every non-zero value into 1; the explicit test
      then maps anything other than 1 to 0. */
  function BlackFlag(fetched: int): (b: int)
    ensures b == 0 || b == 1
    ensures b == 1 <==> fetched != 0
  {
    var stored := if fetched != 0 then 1 else 0;
    if stored != 1 then 0 else stored
  }

  /** The invariant of a filter instance between frames: the kernel is a
      generated kernel of its radius, `height` is non-negative or the sentinel,
      and a cached normalisation map is exactly the one built from the
      kernel for the geometry it records. */
  predicate SysOk(sys: FilterSys)
  {
    && Generated(sys.kernel, sys.dim)
    && (sys.height >= 0 || sys.height == FullHeight)
    && (sys.scale.Some? ==> Built(sys.scale.value, sys.kernel, sys.dim))
  }

  /** `Create` (gaussianblur.c:196-234), after the chroma check and the
      configuration fetch: sigma must be positive, `height` must be
      non-negative or the sentinel, the black flag is coerced to 0/1. The
      kernel of radius `Radius(sigma)` is supplied by the caller. */
  function Create(sigma: real, blackSetting: int, heightSetting: int, kernel: seq<int>): (r: Result<FilterSys>)
    requires sigma > 0.0 ==> Generated(kernel, Radius(sigma))
    ensures r.Err? <==> sigma <= 0.0 || (heightSetting < 0 && heightSetting != FullHeight)
    ensures sigma <= 0.0 ==> r == Err(SigmaNotPositive)
    ensures sigma > 0.0 && heightSetting < 0 && heightSetting != FullHeight ==> r == Err(HeightNegative)
    ensures r.Ok? ==>
      && SysOk(r.value)
      && r.value.sigma == sigma && r.value.dim == Radius(sigma) && r.value.kernel == kernel
      && r.value.height == heightSetting
      && (r.value.black <==> blackSetting != 0)
      && r.value.scale == None
  {
    if sigma <= 0.0 then Err(SigmaNotPositive)
    else
      var black := BlackFlag(blackSetting) == 1;
      if heightSetting < 0 && heightSetting != FullHeight then Err(HeightNegative)
      else Ok(FilterSys(sigma, Radius(sigma), kernel, heightSetting, black, None))
  }

  /** gaussianblur.c:307-308: the sentinel becomes the luma plane's visible line
      count; any other value is kept. */
  function ResolveHeight(height: int, lumaLines: int): (h: int)
    ensures height == FullHeight ==> h == lumaLines
    ensures height != FullHeight ==> h == height
  {
    if height == FullHeight then lumaLines else height
  }

  /** Once resolved against a real picture, the height no longer changes,
      whatever later pictures look like. */
  lemma ResolveHeightStable(height: int, lumaLines: int, laterLines: int)
    requires lumaLines >= 0
    ensures ResolveHeight(ResolveHeight(height, lumaLines), laterLines) == ResolveHeight(height, lumaLines)
  {
  }
}
