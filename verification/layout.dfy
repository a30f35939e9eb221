/** Integer building blocks of the filter: the flat row-major layout of
    planes, C shifts, C's truncating division and the `uint8_t` cast.
    All integers are unbounded; C `int` overflow is not modelled. */
module Layout {

  /** A sample of an 8-bit plane (`uint8_t`). */
  type Byte = b: int | 0 <= b < 256

  /** `INT_MAX` of the 32-bit C `int` every accumulator is held in. */
  const IntMax: int := 0x7FFF_FFFF

  function Max(a: int, b: int): int { if a < b then b else a }

  function Min(a: int, b: int): int { if a < b then a else b }

  function Abs(a: int): int { if a < 0 then -a else a }

  function Pow2(n: nat): (r: nat)
    ensures r >= 1
  {
    if n == 0 then 1 else 2 * Pow2(n - 1)
  }

  /** 2^n grows at least as fast as n + 1. */
  lemma {:induction false} Pow2AtLeastSucc(n: nat)
    ensures n + 1 <= Pow2(n)
  {
    if n > 0 {
      Pow2AtLeastSucc(n - 1);
    }
  }

  /** `x >> n` on a C `int`: an arithmetic shift, which rounds towards
      minus infinity also for negative `x` (the kernel offsets are negative
      on the left half of every window). */
  function Shr(x: int, n: nat): (r: int)
    ensures r * Pow2(n) <= x < r * Pow2(n) + Pow2(n)
  {
    x / Pow2(n)
  }

  /** `x << n` on a non-negative C `int`. */
  function Shl(x: int, n: nat): int
  {
    x * Pow2(n)
  }

  /** Shifting left and back right gives the coordinate back. */
  lemma ShlShrRoundTrip(x: int, n: nat)
    ensures Shr(Shl(x, n), n) == x
  {
    var p := Pow2(n);
    var r := Shr(x * p, n);
    assert r * p <= x * p < r * p + p;
    if r < x {
      MulMonotone(r + 1, x, p);
    } else if r > x {
      MulMonotone(x + 1, r, p);
    }
  }

  /** Shifting left keeps a coordinate below its bound. */
  lemma ShlBelow(a: int, n: int, s: nat)
    requires 0 <= a < n
    ensures 0 <= Shl(a, s) < Shl(n, s)
  {
    MulMonotone(0, a, Pow2(s));
    MulMonotone(a + 1, n, Pow2(s));
  }

  /** Distributivity in the shape the running sums produce. */
  lemma MulDistributes(a: int, s: int, t: int)
    ensures a * s + t * a == a * (s + t)
  {
  }

  /** Reassociating the product of a value and two window weights. */
  lemma MulRearrange(a: int, b: int, c: int)
    ensures (a * b) * c == a * (c * b)
  {
  }

  lemma MulMonotone(a: int, b: int, p: nat)
    requires a <= b
    ensures a * p <= b * p
  {
  }

  /** Arithmetic shifts preserve order. */
  lemma ShrMonotone(x: int, y: int, n: nat)
    requires x <= y
    ensures Shr(x, n) <= Shr(y, n)
  {
    var p := Pow2(n);
    if Shr(y, n) < Shr(x, n) {
      MulMonotone(Shr(y, n) + 1, Shr(x, n), p);
    }
  }

  /** A shift by n is a lower bound of every x' with x' * 2^n <= x. */
  lemma ShrAtLeast(x: int, n: nat, q: int)
    requires q * Pow2(n) <= x
    ensures q <= Shr(x, n)
  {
    if Shr(x, n) < q {
      MulMonotone(Shr(x, n) + 1, q, Pow2(n));
    }
  }

  /** A shift by n stays below every q with x < q * 2^n. */
  lemma ShrBelow(x: int, n: nat, q: int)
    requires x < q * Pow2(n)
    ensures Shr(x, n) < q
  {
    if q <= Shr(x, n) {
      MulMonotone(q, Shr(x, n), Pow2(n));
    }
  }

  /** Position of sample (line, col) in a plane whose rows are `pitch`
      elements apart: `i_line*i_pitch+i_col` in the C filter. */
  function Index(line: int, col: int, pitch: int): int
  {
    line * pitch + col
  }

  /** A visible position of a plane with `lines` rows lies inside the
      `lines * pitch` cells of the plane. */
  lemma IndexInside(line: int, col: int, pitch: int, lines: int)
    requires 0 <= line < lines && 0 <= col < pitch
    ensures 0 <= Index(line, col, pitch) < lines * pitch
  {
    MulMonotone(line + 1, lines, pitch);
  }

  /** Rows are laid out in order: a sample on an earlier row, or earlier
      on the same row, comes first. */
  lemma IndexRowMonotone(line: int, line': int, col: int, pitch: nat)
    requires line <= line'
    ensures Index(line, col, pitch) <= Index(line', col, pitch)
  {
    MulMonotone(line, line', pitch);
  }

  /** Moving `s` rows from a position is adding `s * pitch` to its index. */
  lemma IndexShiftRows(line: int, col: int, pitch: int, s: int)
    ensures Index(line, col, pitch) + s * pitch == Index(line + s, col, pitch)
  {
  }

  /** Index and decoding are inverse: the row is the quotient by the
      pitch, the column the remainder. */
  lemma IndexDecode(line: int, col: int, pitch: int)
    requires 0 <= col < pitch
    ensures Index(line, col, pitch) / pitch == line
    ensures Index(line, col, pitch) % pitch == col
  {
    var i := Index(line, col, pitch);
    var q, r := i / pitch, i % pitch;
    assert (line - q) * pitch == r - col;
    if line - q >= 1 {
      MulMonotone(1, line - q, pitch);
    } else if line - q <= -1 {
      MulMonotone(line - q, -1, pitch);
    }
  }

  /** Every cell of a `lines * pitch` plane decodes to a row below `lines`. */
  lemma DecodeInside(i: int, pitch: int, lines: int)
    requires 0 < pitch && 0 <= i < lines * pitch
    ensures 0 <= i / pitch < lines
    ensures Index(i / pitch, i % pitch, pitch) == i
  {
    if i / pitch >= lines {
      MulMonotone(lines, i / pitch, pitch);
    }
  }

  /** Any non-negative flat index is the position its quotient and
      remainder name. */
  lemma IndexOfDecode(i: int, pitch: int)
    requires 0 < pitch && 0 <= i
    ensures 0 <= i / pitch && 0 <= i % pitch < pitch
    ensures Index(i / pitch, i % pitch, pitch) == i
  {
  }

  /** C99 integer division `a / b`: the quotient is truncated towards zero,
      so the remainder has the sign of the dividend and is smaller than the
      divisor in magnitude. */
  function CDiv(a: int, b: int): (q: int)
    requires b != 0
    ensures a >= 0 ==> 0 <= a - q * b < Abs(b)
    ensures a < 0 ==> 0 <= q * b - a < Abs(b)
  {
    var m := Abs(a) / Abs(b);
    var q := if (a < 0) == (b < 0) then m else -m;
    TruncatedRemainder(a, b, m, q);
    q
  }

  lemma EuclidFacts(n: int, d: int, m: int)
    requires n >= 0 && d > 0 && m == n / d
    ensures 0 <= n - m * d < d
  {
  }

  lemma TruncatedRemainder(a: int, b: int, m: int, q: int)
    requires b != 0 && m == Abs(a) / Abs(b)
    requires q == if (a < 0) == (b < 0) then m else -m
    ensures a >= 0 ==> 0 <= a - q * b < Abs(b)
    ensures a < 0 ==> 0 <= q * b - a < Abs(b)
  {
    EuclidFacts(Abs(a), Abs(b), m);
    TruncatedProduct(a, b, m, q);
  }

  /** Signs of the truncated quotient: +-m times b is m times |b| with the
      sign of a. */
  lemma TruncatedProduct(a: int, b: int, m: int, q: int)
    requires b != 0
    requires q == if (a < 0) == (b < 0) then m else -m
    ensures a >= 0 ==> q * b == m * Abs(b)
    ensures a < 0 ==> q * b == -(m * Abs(b))
  {
    if b < 0 {
      assert Abs(b) == -b;
      assert m * Abs(b) == -(m * b);
    }
  }

  /** On a non-negative dividend and a positive divisor, truncation and
      floor division agree. */
  lemma CDivNonNegative(a: int, b: int)
    requires b != 0
    ensures a >= 0 && b > 0 ==> CDiv(a, b) == a / b
  {
    if a >= 0 && b > 0 {
      var q, e := CDiv(a, b), a / b;
      EuclidFacts(a, b, e);
      assert -b < (q - e) * b < b;
    }
  }

  /** A multiple of a positive divisor divides back exactly. */
  lemma CDivExact(v: int, b: int)
    requires b > 0 && v >= 0
    ensures CDiv(v * b, b) == v
  {
    var q := CDiv(v * b, b);
    assert 0 <= (v - q) * b < b;
    if v - q >= 1 {
      MulMonotone(1, v - q, b);
    } else if v - q <= -1 {
      MulMonotone(v - q, -1, b);
    }
  }

  lemma CDivZero(b: int)
    requires b != 0
    ensures CDiv(0, b) == 0
  {
  }

  /** Dividing `v*a*b` by the same product taken the other way round. */
  lemma CDivExactProduct(v: int, a: int, b: int)
    requires v >= 0 && a > 0 && b > 0
    ensures CDiv(v * a * b, b * a) == v
  {
    assert v * a * b == v * (b * a);
    CDivExact(v, b * a);
  }

  /** The `(uint8_t)` conversion: the value modulo 256 (wrap-around, not
      saturation). */
  function ToByte(v: int): (r: Byte)
    ensures (v - r) % 256 == 0
    ensures 0 <= v < 256 ==> r == v
  {
    v % 256
  }
}
