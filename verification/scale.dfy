/** The normalisation map `pt_scale`: for every visible luma position the
    total weight of the kernel window that fits in the picture, used as the
    divisor of the vertical pass. Built from the first frame's luma plane
    and reused for every later frame. */
module Scale {
  import opened Layout
  import opened Kernel

  /** The map together with the luma geometry it was laid out for. */
  datatype ScaleMap = ScaleMap(lines: int, visiblePitch: int, pitch: int, cells: seq<int>)

  /** Vertical window of a luma line: offsets that stay inside the picture. */
  function LineLow(dim: int, line: int): int { Max(-dim, -line) }

  function LineHigh(dim: int, lines: int, line: int): int { Min(dim, lines - line - 1) }

  /** Horizontal window of a luma column. The upper end reaches two columns
      past the last visible one (`+ 1`, where `- 1` would stop at the edge). */
  function ColLow(dim: int, col: int): int { Max(-dim, -col) }

  function ColHigh(dim: int, visiblePitch: int, col: int): int { Min(dim, visiblePitch - col + 1) }

  /** The innermost loop: `ky * k[x+dim]` summed over `x` in `[lo, hi]`. */
  function RowWeight(k: seq<int>, dim: int, ky: int, lo: int, hi: int): int
    requires Shaped(k, dim) && InKernel(dim, lo, hi)
    decreases hi - lo
  {
    if hi < lo then 0 else RowWeight(k, dim, ky, lo, hi - 1) + ky * Tap(k, dim, hi)
  }

  /** Both loops: `k[y+dim] * k[x+dim]` summed over the rectangle
      `[ylo, yhi] x [xlo, xhi]`. */
  function WindowWeight(k: seq<int>, dim: int, ylo: int, yhi: int, xlo: int, xhi: int): int
    requires Shaped(k, dim) && InKernel(dim, ylo, yhi) && InKernel(dim, xlo, xhi)
    decreases yhi - ylo
  {
    if yhi < ylo then 0
    else WindowWeight(k, dim, ylo, yhi - 1, xlo, xhi) + RowWeight(k, dim, Tap(k, dim, yhi), xlo, xhi)
  }

  /** The value stored for luma position (line, col). */
  function ScaleEntry(k: seq<int>, dim: int, lines: int, visiblePitch: int, line: int, col: int): int
    requires Shaped(k, dim)
  {
    WindowWeight(k, dim, LineLow(dim, line), LineHigh(dim, lines, line),
                 ColLow(dim, col), ColHigh(dim, visiblePitch, col))
  }

  lemma {:induction false} RowWeightFactor(k: seq<int>, dim: int, ky: int, lo: int, hi: int)
    requires Shaped(k, dim) && InKernel(dim, lo, hi)
    ensures RowWeight(k, dim, ky, lo, hi) == ky * TapSum(k, dim, lo, hi)
    decreases hi - lo
  {
    if lo <= hi {
      RowWeightFactor(k, dim, ky, lo, hi - 1);
    }
  }

  /** The double sum is the product of two single sums: the rectangle
      weighs (vertical window weight) * (horizontal window weight). */
  lemma {:induction false} WindowSeparable(k: seq<int>, dim: int, ylo: int, yhi: int, xlo: int, xhi: int)
    requires Shaped(k, dim) && InKernel(dim, ylo, yhi) && InKernel(dim, xlo, xhi)
    ensures WindowWeight(k, dim, ylo, yhi, xlo, xhi) == TapSum(k, dim, ylo, yhi) * TapSum(k, dim, xlo, xhi)
    decreases yhi - ylo
  {
    if ylo <= yhi {
      WindowSeparable(k, dim, ylo, yhi - 1, xlo, xhi);
      RowWeightFactor(k, dim, Tap(k, dim, yhi), xlo, xhi);
      var a, t, s := TapSum(k, dim, ylo, yhi - 1), Tap(k, dim, yhi), TapSum(k, dim, xlo, xhi);
      assert a * s + t * s == (a + t) * s;
    }
  }

  /** Closed form of an entry, and its positivity: each entry is the
      product of the clipped vertical and horizontal window weights, and is
      positive because both windows contain offset 0. */
  lemma ScaleEntryClosedForm(k: seq<int>, dim: int, lines: int, visiblePitch: int, line: int, col: int)
    requires Valid(k, dim)
    requires 0 <= line < lines && 0 <= col < visiblePitch
    ensures ScaleEntry(k, dim, lines, visiblePitch, line, col)
         == TapSum(k, dim, LineLow(dim, line), LineHigh(dim, lines, line))
          * TapSum(k, dim, ColLow(dim, col), ColHigh(dim, visiblePitch, col))
    ensures ScaleEntry(k, dim, lines, visiblePitch, line, col) > 0
  {
    var ylo, yhi := LineLow(dim, line), LineHigh(dim, lines, line);
    var xlo, xhi := ColLow(dim, col), ColHigh(dim, visiblePitch, col);
    WindowSeparable(k, dim, ylo, yhi, xlo, xhi);
    TapSumBounds(k, dim, ylo, yhi);
    TapSumBounds(k, dim, xlo, xhi);
  }

  /** Vertically the map is mirror-symmetric: line and `lines-1-line` get
      the same weight, because their clipped windows are mirror images. */
  lemma ScaleVerticalMirror(k: seq<int>, dim: int, lines: int, visiblePitch: int, line: int, col: int)
    requires Valid(k, dim)
    requires 0 <= line < lines && 0 <= col < visiblePitch
    ensures ScaleEntry(k, dim, lines, visiblePitch, line, col)
         == ScaleEntry(k, dim, lines, visiblePitch, lines - 1 - line, col)
  {
    var line' := lines - 1 - line;
    ScaleEntryClosedForm(k, dim, lines, visiblePitch, line, col);
    ScaleEntryClosedForm(k, dim, lines, visiblePitch, line', col);
    assert LineLow(dim, line') == -LineHigh(dim, lines, line);
    assert LineHigh(dim, lines, line') == -LineLow(dim, line);
    TapSumMirror(k, dim, LineLow(dim, line), LineHigh(dim, lines, line));
  }

  /** Horizontally it is not: with the three-tap kernel `[1, 1, 1]` on a
      one-line, two-column picture, the first column's window is `[0, 1]`
      (weight 2) and the last column's is `[-1, 1]` (weight 3). */
  lemma ScaleHorizontalAsymmetry()
    ensures ScaleEntry([1, 1, 1], 1, 1, 2, 0, 0) == 2
    ensures ScaleEntry([1, 1, 1], 1, 1, 2, 0, 1) == 3
  {
    ScaleEntryClosedForm([1, 1, 1], 1, 1, 2, 0, 0);
    ScaleEntryClosedForm([1, 1, 1], 1, 1, 2, 0, 1);
  }

  /** The flat array: `pt_scale[line*pitch+col]` for the visible columns;
      the padding columns are never written by the C filter and hold 0 here. */
  function ScaleCells(k: seq<int>, dim: int, lines: int, visiblePitch: int, pitch: int): (cells: seq<int>)
    requires Shaped(k, dim) && lines >= 0 && 0 < visiblePitch <= pitch
    ensures |cells| == lines * pitch
  {
    assert lines * pitch >= 0;
    seq(lines * pitch, i =>
      if i % pitch < visiblePitch then ScaleEntry(k, dim, lines, visiblePitch, i / pitch, i % pitch) else 0)
  }

  lemma ScaleCellAt(k: seq<int>, dim: int, lines: int, visiblePitch: int, pitch: int, line: int, col: int)
    requires Shaped(k, dim) && lines >= 0 && 0 < visiblePitch <= pitch
    requires 0 <= line < lines && 0 <= col < visiblePitch
    ensures 0 <= Index(line, col, pitch) < lines * pitch
    ensures ScaleCells(k, dim, lines, visiblePitch, pitch)[Index(line, col, pitch)]
         == ScaleEntry(k, dim, lines, visiblePitch, line, col)
  {
    var i := Index(line, col, pitch);
    IndexInside(line, col, pitch, lines);
    IndexDecode(line, col, pitch);
    assert i / pitch == line && i % pitch == col;
  }

  /** gaussianblur.c:283-304: the map for a luma plane of the given geometry. Every
      visible position holds its window weight at `line*pitch+col`. */
  function BuildScale(k: seq<int>, dim: int, lines: int, visiblePitch: int, pitch: int): (m: ScaleMap)
    requires Shaped(k, dim) && lines >= 0 && 0 < visiblePitch <= pitch
    ensures m.lines == lines && m.visiblePitch == visiblePitch && m.pitch == pitch
    ensures |m.cells| == lines * pitch
    ensures forall line, col {:trigger m.cells[Index(line, col, pitch)]}
      :: 0 <= line < lines && 0 <= col < visiblePitch ==>
      && 0 <= Index(line, col, pitch) < lines * pitch
      && m.cells[Index(line, col, pitch)] == ScaleEntry(k, dim, lines, visiblePitch, line, col)
  {
    var m := ScaleMap(lines, visiblePitch, pitch, ScaleCells(k, dim, lines, visiblePitch, pitch));
    forall line, col | 0 <= line < lines && 0 <= col < visiblePitch
      ensures 0 <= Index(line, col, pitch) < lines * pitch
      ensures m.cells[Index(line, col, pitch)] == ScaleEntry(k, dim, lines, visiblePitch, line, col) {
      ScaleCellAt(k, dim, lines, visiblePitch, pitch, line, col);
    }
    m
  }

  /** A map that is exactly what `BuildScale` produces for its geometry. */
  predicate Built(m: ScaleMap, k: seq<int>, dim: int)
  {
    && Shaped(k, dim) && m.lines >= 0 && 0 < m.visiblePitch <= m.pitch
    && m == BuildScale(k, dim, m.lines, m.visiblePitch, m.pitch)
  }

  /** Flat index `idx` is one of the cells the map builder writes. */
  predicate Written(m: ScaleMap, idx: int)
  {
    0 < m.pitch && 0 <= idx < |m.cells| && idx % m.pitch < m.visiblePitch
  }

  /** Reading a written cell of a built map yields a positive divisor. */
  lemma WrittenCellPositive(m: ScaleMap, k: seq<int>, dim: int, idx: int)
    requires Valid(k, dim) && Built(m, k, dim) && Written(m, idx)
    ensures m.cells[idx] > 0
  {
    DecodeInside(idx, m.pitch, m.lines);
    var line, col := idx / m.pitch, idx % m.pitch;
    ScaleEntryClosedForm(k, dim, m.lines, m.visiblePitch, line, col);
  }
}
