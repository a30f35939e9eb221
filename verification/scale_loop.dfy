/** The map-building loops of gaussianblur.c:283-304 written as loops: four nested
    loops over line, column, vertical offset and horizontal offset, storing
    into memory whose other cells keep whatever they held. */
module ScaleLoop {
  import opened Layout
  import opened Kernel
  import opened Scale

  /** `t_value` after the two inner loops: the double sum over the
      rectangle, which factors into the two window weights. */
  method WindowSum(k: seq<int>, dim: int, ylo: int, yhi: int, xlo: int, xhi: int) returns (t: int)
    requires Shaped(k, dim) && InKernel(dim, ylo, yhi) && InKernel(dim, xlo, xhi)
    ensures t == WindowWeight(k, dim, ylo, yhi, xlo, xhi)
    ensures t == TapSum(k, dim, ylo, yhi) * TapSum(k, dim, xlo, xhi)
  {
    t := 0;
    var y := ylo;
    while y <= yhi
      invariant yhi < ylo ==> y == ylo
      invariant ylo <= yhi ==> ylo <= y <= yhi + 1
      invariant t == WindowWeight(k, dim, ylo, y - 1, xlo, xhi)
    {
      var x := xlo;
      while x <= xhi
        invariant xhi < xlo ==> x == xlo
        invariant xlo <= xhi ==> xlo <= x <= xhi + 1
        invariant t == WindowWeight(k, dim, ylo, y - 1, xlo, xhi) + RowWeight(k, dim, Tap(k, dim, y), xlo, x - 1)
      {
        t := t + k[y + dim] * k[x + dim];
        x := x + 1;
      }
      y := y + 1;
    }
    WindowSeparable(k, dim, ylo, yhi, xlo, xhi);
  }

  /** What cell `i` holds after the loops: the map entry on visible
      columns, the previous contents on the padding columns. */
  function Filled(k: seq<int>, dim: int, lines: int, visiblePitch: int, pitch: int, init: seq<int>, i: int): int
    requires Shaped(k, dim) && lines >= 0 && 0 < visiblePitch <= pitch
    requires |init| == lines * pitch && 0 <= i < |init|
  {
    if i % pitch < visiblePitch then BuildScale(k, dim, lines, visiblePitch, pitch).cells[i] else init[i]
  }

  /** gaussianblur.c:283-304 on the freshly allocated array `init`: every visible
      cell ends up as in `BuildScale`, every padding cell is left as it
      was. */
  method FillScale(k: seq<int>, dim: int, lines: int, visiblePitch: int, pitch: int, init: seq<int>)
    returns (cells: seq<int>)
    requires Shaped(k, dim) && lines >= 0 && 0 < visiblePitch <= pitch
    requires |init| == lines * pitch
    ensures |cells| == |init|
    ensures forall i :: 0 <= i < |cells| ==>
      cells[i] == (if i % pitch < visiblePitch then BuildScale(k, dim, lines, visiblePitch, pitch).cells[i] else init[i])
  {
    cells := init;
    var line := 0;
    while line < lines
      invariant 0 <= line <= lines && |cells| == |init|
      invariant forall i :: 0 <= i < line * pitch ==> cells[i] == Filled(k, dim, lines, visiblePitch, pitch, init, i)
      invariant forall i :: line * pitch <= i < |cells| ==> cells[i] == init[i]
    {
      MulMonotone(line + 1, lines, pitch);
      var col := 0;
      while col < visiblePitch
        invariant 0 <= col <= visiblePitch && |cells| == |init|
        invariant forall i :: 0 <= i < line * pitch + col ==> cells[i] == Filled(k, dim, lines, visiblePitch, pitch, init, i)
        invariant forall i :: line * pitch + col <= i < |cells| ==> cells[i] == init[i]
      {
        var t := WindowSum(k, dim, LineLow(dim, line), LineHigh(dim, lines, line),
                           ColLow(dim, col), ColHigh(dim, visiblePitch, col));
        IndexDecode(line, col, pitch);
        ScaleCellAt(k, dim, lines, visiblePitch, pitch, line, col);
        cells := cells[Index(line, col, pitch) := t];
        col := col + 1;
      }
      IndexShiftRows(line, 0, pitch, 1);
      assert Index(line + 1, 0, pitch) == line * pitch + pitch;
      forall i | line * pitch + visiblePitch <= i < line * pitch + pitch
        ensures i % pitch >= visiblePitch
      {
        IndexDecode(line, i - line * pitch, pitch);
      }
      line := line + 1;
    }
  }
}
