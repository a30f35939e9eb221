# Gaussian blur video filter — integer core

A Dafny model of the integer build of VLC's `gaussianblur` video filter
(`DONT_USE_FLOATS` defined, so every sample, weight and accumulator is a C
`int`). The model covers:

- **Creation** (`Params.Create`): sigma must be positive, the `height`
  setting must be non-negative or the sentinel `-2`, the black flag is
  coerced to 0 or 1, the kernel half-width is `(int)(3*sigma)`.
- **The kernel** (`Kernel`): `2*dim+1` fixed-point taps, tap `x` at index
  `dim+x`. The tap values come from `exp` and `sqrt` and are taken as an
  input that is non-negative and symmetric (`Kernel.Generated`); filtering
  additionally needs a positive centre tap (`Kernel.Valid`).
- **The normalisation map** (`Scale`, `ScaleLoop`): for each visible luma
  position, the total weight of the clipped two-dimensional window. The
  horizontal upper bound is `visible_pitch - col + 1`, two columns past the
  edge, so the map is mirror-symmetric vertically but not horizontally. It
  is built from the first picture's luma plane and reused unchanged for
  every later picture.
- **The height limit**: the sentinel `-2` becomes the luma line count on the
  first picture. Columns (horizontal pass) and lines (vertical pass) beyond
  the limit are not blurred. In those positions the loop assigns
  `1021 * sample` on every iteration instead of accumulating, so the last
  iteration wins. The horizontal pass compares the column index against a
  limit meant for lines. With the sentinel on a landscape picture, every
  column past the line count is therefore not blurred horizontally.
- **Both passes** (`Convolve`): per-plane subsampling factors, the
  horizontal pass into a scratch buffer (black mode zeroes luma), and the
  vertical pass. The vertical pass divides with C truncation by the map cell
  at `(line<<yf)*(pitch<<xf)+(col<<xf)` and stores the quotient through a
  `uint8_t` cast, i.e. modulo 256.
- **A whole call of `Filter`** (`Frame`): missing input or output picture,
  map caching, height resolution, and the plane loop.

`Properties` states what the passes compute without the scratch buffer. It
shows that a uniform luma plane passes through unchanged, and that black
mode blanks the blurred part of luma and leaves every other luma pixel as
it would be without black mode. It also shows that the black flag has no
effect on chroma and that the filter state is settled after the first
picture.

`Bounds` covers the C `int` the accumulators live in. Every value summed
for a position lies between 0 and `W * max(255*W, 1021*255)`, where `W` is
the total kernel weight. When that product is at most `INT_MAX`, the
model's unbounded sums are the C values; the same bound covers the sums
of `k[y]*k[x]` the map builder accumulates, which never exceed `W*W`. The
bound is reached: with a single tap of 2902 or more, a plane of 255s
exceeds `INT_MAX`.

C semantics are written out in `Layout`. `>>` on a negative offset is an
arithmetic shift, i.e. floor division by `2^n` (implementation-defined in
C; this is what the supported compilers do). `/` truncates toward zero.
`(uint8_t)` reduces modulo 256. Flat arrays are `seq`s indexed by
`line*pitch + col`.

## Model

| member | source | states |
|---|---|---|
| `Layout.Shr` | gaussianblur.c:341 | `x >> n` is the floor of `x / 2^n`: `r*2^n <= x < (r+1)*2^n`, also for negative offsets |
| `Layout.CDiv` | gaussianblur.c:379 | C division truncates toward zero: the remainder has the dividend's sign and is smaller than the divisor in magnitude |
| `Layout.ShlShrRoundTrip` | gaussianblur.c:378 | shifting a coordinate left by `n` and back right by `n` returns it |
| `Layout.CDivNonNegative` | gaussianblur.c:379 | on a non-negative dividend and a positive divisor, C's truncating division is floor division |
| `Layout.ToByte` | gaussianblur.c:379 | the `uint8_t` cast keeps the value modulo 256 (wrap, not clamp) and leaves values in `[0,256)` unchanged |
| `Kernel.TapSumBounds` | gaussianblur.c:147-157 | window weights of a generated kernel are non-negative, and a window containing offset 0 weighs at least the centre tap (positive for a valid kernel) |
| `Kernel.TapSumWithinKernel` | gaussianblur.c:147-157 | no window of a generated kernel weighs less than 0 or more than the whole kernel |
| `Kernel.TapSumMirror` | gaussianblur.c:147-157 | because each tap depends on `x*x` only, window `[lo,hi]` weighs as much as its mirror `[-hi,-lo]` |
| `Scale.WindowSeparable` | gaussianblur.c:289-300 | the double sum of `k[y]*k[x]` over the rectangle equals (vertical window weight) times (horizontal window weight) |
| `Scale.ScaleEntryClosedForm` | gaussianblur.c:283-301 | each map entry is the product of the clipped line window `[max(-dim,-line), min(dim,lines-line-1)]` and column window `[max(-dim,-col), min(dim,vp-col+1)]` weights, and is positive |
| `Scale.ScaleVerticalMirror` | gaussianblur.c:289-291 | line `line` and line `lines-1-line` of the map hold the same weight |
| `Scale.ScaleHorizontalAsymmetry` | gaussianblur.c:293-295 | the `+1` column bound breaks left/right symmetry: kernel `[1,1,1]` on a 1x2 picture gives 2 for the first column and 3 for the last |
| `Scale.BuildScale` | gaussianblur.c:274-305 | the map has `lines*pitch` cells, records its geometry, and cell `line*pitch+col` of every visible position holds that position's window weight |
| `Scale.WrittenCellPositive` | gaussianblur.c:301 | every cell the builder writes is a positive divisor |
| `ScaleLoop.WindowSum` | gaussianblur.c:287-300 | the two inner loops leave `t_value` equal to the double window sum, which factors into the two window weights |
| `ScaleLoop.FillScale` | gaussianblur.c:280-304 | the nested loops leave every visible cell equal to the `BuildScale` map and every padding cell with its previous contents |
| `Params.Radius` | gaussianblur.c:139 | the half-width is the integer part of `3*sigma`: `dim <= 3*sigma < dim+1`, and non-negative |
| `Params.BlackFlag` | gaussianblur.c:212-216 | the stored flag is 0 or 1, and 1 exactly when the setting is non-zero |
| `Params.Create` | gaussianblur.c:196-225 | creation fails exactly when sigma <= 0 (that error first) or the height is negative and not -2; on success the state has the given sigma, radius and kernel, the height unchanged, black iff the setting is non-zero, no map, and satisfies the filter invariant |
| `Params.ResolveHeight` | gaussianblur.c:307-308 | the sentinel -2 becomes the luma line count; any other height is kept |
| `Params.ResolveHeightStable` | gaussianblur.c:307-308 | once resolved against a picture, the height does not change on later pictures |
| `Convolve.Factor` | gaussianblur.c:322-323 | the factor `f` satisfies `(f+1)*extent <= lumaExtent < (f+2)*extent` and is non-negative |
| `Convolve.FactorOfSubsampling` | gaussianblur.c:322-323 | the luma plane gets factor 0 and a plane of exactly half its extent gets factor 1 |
| `Convolve.WindowsContainZero` | gaussianblur.c:335-337 | both pass windows lie inside `[-dim,dim]` and contain offset 0, so every loop runs at least once |
| `Convolve.HorizontalReadColumn` | gaussianblur.c:335-341 | the column read, `col + (x>>xf)`, is at least 0 and at most `vp+1`; at most `vp` on a subsampled plane |
| `Convolve.VerticalReadLine` | gaussianblur.c:365-371 | the line read, `line + (y>>yf)`, lies in `[0, visible_lines)` |
| `Convolve.HLoop` | gaussianblur.c:335-353 | within the height limit the loop yields the weighted sum (0 in black mode); beyond it, `1021` times the sample of the last offset only |
| `Convolve.HCell` | gaussianblur.c:331-354 | the buffer value of a visible position: weighted sum if `col <= height`, 0 if also black mode on plane 0, else `1021*in[c + (xmax>>xf)]`, with every read inside the plane |
| `Convolve.HorizontalPass` | gaussianblur.c:327-356 | the buffer holds `HCell` at `line*pitch+col` for every visible position |
| `Convolve.VLoop` | gaussianblur.c:365-376 | within the height limit the loop yields the weighted sum of buffer cells, beyond it `1021*in[c]` |
| `Convolve.VCell` | gaussianblur.c:362-376 | the accumulator of a visible position: `sum k[y]*buf[c+(y>>yf)*pitch]` if `line <= height`, else `1021*in[c]`, with every read inside the buffer |
| `Convolve.ScaleIndex` | gaussianblur.c:378 | for a column inside the row, the divisor index decodes (row `/`, column `%` of the luma pitch `pitch<<xf`) to luma position `(line<<yf, col<<xf)`, that column is inside the luma row, and shifting the position back by `yf` and `xf` returns `(line, col)` |
| `Convolve.ScaleIndexUnscaled` | gaussianblur.c:378 | with factors 0 the divisor is read at the position's own index `line*pitch+col` |
| `Convolve.OutCell` | gaussianblur.c:378-379 | for a non-negative accumulator `t` and positive divisor `d` the stored byte is `(t/d) mod 256` |
| `Convolve.FilterPlane` | gaussianblur.c:358-381 | the output plane keeps its geometry and size; each visible position holds the truncated quotient as a byte; every other output sample is unchanged; the input is never written |
| `Frame.ScaleFor` | gaussianblur.c:274-305 | the map a picture is filtered with is the cached one if there is one; otherwise it is a built map with the geometry (visible lines, visible pitch, pitch) of this picture's luma plane |
| `Frame.NextState` | gaussianblur.c:274-308 | after a picture the invariant holds, sigma, radius, kernel and black flag are unchanged, the map is cached, and the height is resolved and non-negative |
| `Frame.FrameReadable` | gaussianblur.c:378 | on a well-formed frame every divisor any plane reads is non-zero |
| `Frame.FilterPlanes` | gaussianblur.c:312-382 | the plane loop yields one plane per input plane, with its output plane's pitch and size; in plane `i` every visible `(line, col)` holds, at `line*pitch+col` of the output plane, the byte of both passes over input plane `i` with its own factors, and every other sample keeps the allocated output plane's value |
| `Frame.FilterFrame` | gaussianblur.c:248-384 | no input or no output picture: no picture and an unchanged state; otherwise a cached map is kept as is, a missing one is built from this luma plane, the sentinel is resolved, the invariant is kept, and the output has one filtered plane per input plane |
| `Properties.VSumIsColumnSum` | gaussianblur.c:369-371 | the vertical pass reads, for each offset, exactly the buffer cell the horizontal pass wrote for line `line + (y>>yf)` of the same column |
| `Properties.BlurredPixel` | gaussianblur.c:327-379 | an output pixel within the height limit is the column sum of horizontally filtered values, truncated-divided by its map cell, modulo 256 |
| `Properties.PassThroughPixel` | gaussianblur.c:372-379 | an output pixel beyond the height limit is `1021*in[c]` truncated-divided by its map cell, modulo 256 |
| `Properties.HSumUniform` | gaussianblur.c:339-341 | over a constant input `v` the horizontal sum is `v` times the window weight |
| `Properties.ColumnSumUniform` | gaussianblur.c:369-371 | over a column of equal buffer values `w` the vertical sum is `w` times the window weight |
| `Properties.LumaWindowsMatchScale` | gaussianblur.c:289-294 | with factors 0 both pass windows are exactly the windows the map entries are built from |
| `Properties.UniformColumnSum` | gaussianblur.c:331-371 | on a full-resolution plane whose samples read are all `v`, with black mode off and the column within the height limit, the vertical sum is `v` times the map entry of that position |
| `Properties.UniformLumaPassesThrough` | gaussianblur.c:283-379 | a luma plane whose samples read are all `v` (padding no window reaches is unconstrained), with black mode off and height at least `vp-1` and `vl-1`, comes out with every visible pixel equal to `v` |
| `Properties.BlackBlanksLuma` | gaussianblur.c:343-348 | in black mode a luma pixel whose line and column are both within the height limit comes out 0 |
| `Properties.ColumnSumSameCells` | gaussianblur.c:369-371 | two states with the same kernel that agree on every buffer value of a column agree on its vertical sums |
| `Properties.BlackSparesUnblurred` | gaussianblur.c:343-379 | a luma pixel whose line or column is beyond the height limit comes out the same with and without black mode |
| `Properties.HorizontalPassIgnoresBlack` | gaussianblur.c:343-344 | on planes other than 0 the horizontal pass is the same whatever the black flag |
| `Properties.BlackLeavesChroma` | gaussianblur.c:343-344 | on planes other than 0 the filtered plane is the same whatever the black flag |
| `Properties.BlackLeavesFrameChroma` | gaussianblur.c:312-382 | over a whole call, the black flag does not decide whether a picture is accepted, and every output plane other than luma is the same whatever the flag |
| `Properties.LumaCovered` | gaussianblur.c:378 | the luma plane's divisors are all cells the builder wrote |
| `Properties.HalfPlaneCovered` | gaussianblur.c:378 | a half-resolution plane with exactly half the luma pitch reads the map cell of luma position `(2*line, 2*col)`, which is written |
| `Properties.SubsampledPlaneCovered` | gaussianblur.c:378 | a plane subsampled by `2^xf` and `2^yf` whose pitch is the luma pitch shifted right by `xf` reads the map cell of luma position `(line<<yf, col<<xf)`, which is written |
| `Properties.HalfWidthPlaneCovered` | gaussianblur.c:378 | a 4:2:2 chroma plane (half width, full height, half pitch) reads only written map cells |
| `Properties.OddWidthChromaUncovered` | gaussianblur.c:322-378 | luma 5 wide (pitch 32) with chroma 3 wide (pitch 16) gives factor 0, and the second chroma line reads padding cell 16, so the plane is not covered |
| `Properties.StateSettlesAfterFirstFrame` | gaussianblur.c:274-308 | after the first picture a second one leaves the whole state (map and height included) exactly as it was |
| `Properties.FrameUniformLuma` | gaussianblur.c:274-379 | on a whole call, a luma plane whose samples read are all `v` comes out unchanged when black mode is off and the resolved height covers the plane |
| `Bounds.HSumBounds` | gaussianblur.c:339-341 | a horizontal sum of bytes lies in `[0, 255 * window weight]` |
| `Bounds.HCellBounds` | gaussianblur.c:331-354 | every buffer value lies in `[0, max(255*W, 1021*255)]`, `W` the kernel weight |
| `Bounds.ColumnSumBounds` | gaussianblur.c:369-371 | a vertical sum lies in `[0, window weight * max(255*W, 1021*255)]` |
| `Bounds.ColumnSumFitsInt` | gaussianblur.c:369-371 | when the kernel fits, every vertical sum over a window of the kernel lies in `[0, INT_MAX]` |
| `Bounds.AccumulatorsFitInt` | gaussianblur.c:331-376 | when the kernel fits, every running horizontal sum, every buffer value, every running vertical sum and the final accumulator of a visible position lie in `[0, INT_MAX]` |
| `Bounds.ScaleRunningSumBounds` | gaussianblur.c:287-300 | each running sum of `k[y]*k[x]` while an entry is built lies in `[0, W*W]` |
| `Bounds.ScaleSumsFitInt` | gaussianblur.c:283-301 | when the kernel fits, every running sum of the map builder for a visible position, and the stored entry, lie in `[0, INT_MAX]` |
| `Properties.SingleTapEntry` | gaussianblur.c:283-301 | with `dim = 0` every map entry is the square of the centre tap |
| `Properties.SingleTapIdentity` | gaussianblur.c:331-379 | with `dim = 0`, inside the height limit and outside black mode on luma, every visible output pixel of a covered plane equals its input sample |
| `Bounds.SingleTapTooHeavy` | gaussianblur.c:369-371 | a single tap of at least 2902 puts `255*t*t` above `INT_MAX`, and the kernel does not fit |
| `Bounds.SmallSigmaOverflows` | gaussianblur.c:365-376 | with a single tap `t >= 2902` and a plane whose samples read are all 255, the vertical accumulator is exactly `255*t*t`, above `INT_MAX` |

## Left out

- Plugin descriptor and registration (gaussianblur.c:72-93): host framework, no behaviour of the filter itself.
- Option parsing and variable fetching (`config_ChainParse`, `var_CreateGet*`, gaussianblur.c:191-219): the fetched values are parameters of `Params.Create`.
- The second, identical fetch-and-check of sigma (gaussianblur.c:204-210): it reads the same variable again and cannot change the outcome, so it is modelled once.
- The input chroma check (gaussianblur.c:167-185): it compares opaque codec constants.
- Kernel tap values (gaussianblur.c:147-157): computed with `exp`, `sqrt` and float conversions; the kernel is an input assumed non-negative and symmetric, and filtering assumes a positive centre tap (sigma up to about 102; beyond that every divisor is 0 and `Filter` divides by zero).
- Params.Radius: uses exact real arithmetic for `3*sigma`; the double rounding of the product and a NaN sigma (which would pass the `<= 0` test) are not modelled.
- The float `type_t` build (gaussianblur.c:112-116): not compiled in.
- Memory management (gaussianblur.c:187-189, 259-270, 280, 383): allocation failures except the missing output picture, releases, and `CopyInfoAndRelease`'s metadata copy are left out. The scratch buffer is allocated once for the first picture's luma plane and reused for every plane. The model gives each plane a fresh buffer of that plane's size, which is equivalent because the vertical pass reads only cells that the same plane's horizontal pass wrote (`Convolve.VerticalReadLine`). A later picture larger than the first would overflow that buffer; this is not modelled.
- Uninitialised memory: padding cells of the map are whatever the allocator returned (`ScaleLoop.FillScale` keeps any initial contents; `Scale.BuildScale` writes 0 there). `Frame.FrameOk` requires that every divisor read lands on a written cell. `Filter` does not check this. A later picture whose geometry differs from the first can break it, and so can the first picture when the host rounds chroma extents up for an odd luma size: with luma 5 wide and chroma 3 wide the factor is `5/3 - 1 = 0`, and the second chroma line reads a padding cell of the first luma row (`Properties.OddWidthChromaUncovered`).
- The debug `printf` (gaussianblur.c:311).
- C `int` overflow: integers are unbounded. `Bounds.AccumulatorsFitInt` (convolution accumulators) and `Bounds.ScaleSumsFitInt` (map-building sums) show that the model's sums are the C values whenever `W * max(255*W, 1021*255) <= INT_MAX` (`Bounds.FitsInt`), `W` being the total kernel weight. Sigma may be as small as 0.01 (gaussianblur.c:48, 80). Below a sigma of about 0.0352 the kernel is the single tap `256/(sigma*sqrt(2*pi))`, which is then at least 2902, and the accumulator of a bright plane overflows (`Bounds.SmallSigmaOverflows`). The overflow is undefined behaviour in C. For such kernels the per-pixel and whole-picture results (`Properties.BlurredPixel`, `Properties.UniformLumaPassesThrough`, `Properties.BlackBlanksLuma`, `Properties.FrameUniformLuma`, `Frame.FilterFrame`) describe the unbounded arithmetic, not the C program. The link from sigma to the tap value goes through `exp` and `sqrt` and is not proved.
- Reads past the visible width: the horizontal pass reads up to `vp+1` (luma) or `vp` (subsampled) columns of the last line. `Convolve.PlaneOk` requires the pixel array to hold them rather than modelling memory beyond it.
- Plane geometry: `Frame.PictureOk` requires every plane to have at least one visible line and column and to be no larger than the luma plane. Otherwise the factor computation (gaussianblur.c:322-323) divides by zero or yields a shift by -1.
- The `height` setting is taken as a C `int` value; the narrowing from the 64-bit option value is not modelled.
- Output plane geometry: `Convolve.OutOk` requires the output plane to have room for every visible position of the input plane.
