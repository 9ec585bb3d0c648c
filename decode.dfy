/** The fragment shader's glyph decode: which pixels of the 8x8 point
    sprite of a cell are painted, given the cell's two byte triples. */
module Decode {
  import opened Font

  function Pow2(e: nat): (p: nat)
    ensures p >= 1
  {
    if e == 0 then 1 else 2 * Pow2(e - 1)
  }

  /** GLSL `step(edge, x)`: 0 below the edge, 1 from the edge on. */
  function Step(edge: int, x: int): (s: int)
    ensures s == 0 || s == 1
    ensures s == 1 <==> edge <= x
  {
    if x < edge then 0 else 1
  }

  /** The shader's `segment(e0, e1, x)`: 1 when e0 <= x < e1. */
  function Segment(e0: int, e1: int, x: int): (s: int)
    ensures s == 0 || s == 1
    ensures s == 1 <==> e0 <= x < e1
  {
    Step(e0, x) * (1 - Step(e1, x))
  }

  /** The shader's selection of byte `index`: a sum of six terms
      `segment(j, j + 1, index) * byte_j`. */
  function ShaderSelect(lo: Triple, hi: Triple, index: int): (b: int)
    ensures 0 <= index < 6 ==> b == ByteAt(lo, hi, index)
    ensures index < 0 || 6 <= index ==> b == 0
  {
    Masked(0, index, lo.x) + Masked(1, index, lo.y) + Masked(2, index, lo.z)
    + Masked(3, index, hi.x) + Masked(4, index, hi.y) + Masked(5, index, hi.z)
  }

  /** One term `segment(j, j + 1, index) * byte_j` of the selection: the
      byte itself at its own index, 0 at every other integral index. */
  function Masked(j: int, index: int, byte: Byte): (t: int)
    ensures t == (if index == j then byte as int else 0)
  {
    Segment(j, j + 1, index) * byte
  }

  /** The same selection with each 0/1 factor written as a condition. */
  function SelectByte(lo: Triple, hi: Triple, index: int): int
  {
    (if index == 0 then lo.x else 0) + (if index == 1 then lo.y else 0) + (if index == 2 then lo.z else 0)
    + (if index == 3 then hi.x else 0) + (if index == 4 then hi.y else 0) + (if index == 5 then hi.z else 0)
  }

  /** For an integral index exactly one segment is open, so the shader's
      masked sum is the conditional sum; it is byte `index` for an index in
      [0, 6) and 0 elsewhere. */
  lemma SelectByteIsShaderSelect(lo: Triple, hi: Triple, index: int)
    ensures ShaderSelect(lo, hi, index) == SelectByte(lo, hi, index)
    ensures 0 <= index < 6 ==> SelectByte(lo, hi, index) == ByteAt(lo, hi, index)
    ensures (index < 0 || 6 <= index) ==> SelectByte(lo, hi, index) == 0
  {
  }

  /** Byte `i` of the six-byte record held by the two triples. */
  function ByteAt(lo: Triple, hi: Triple, i: nat): Byte
    requires i < 6
  {
    [lo.x, lo.y, lo.z, hi.x, hi.y, hi.z][i]
  }

  /** Whether the point-local pixel (u, v) is painted in the foreground
      colour; a pixel that is not painted is discarded. */
  function Lit(lo: Triple, hi: Triple, u: nat, v: nat): (lit: bool)
    ensures lit ==> u < 6 && v < 8
  {
    if u > 5 || v > 7 then false
    else
      var k := PixelBit(u, v);
      var index := k / 8;
      var offset := k % 8;
      var b := SelectByte(lo, hi, index);
      (b / Pow2(7 - offset)) % 2 == 1
  }

  /** Position of pixel (u, v) in the record's 48 bits. */
  function PixelBit(u: nat, v: nat): nat
  {
    v * 6 + u
  }

  /** The 6x8 pixel grid and the 48 record bits are in one-to-one
      correspondence: each pixel uses a bit of one of the six bytes, no two
      pixels share a bit, and every bit has its pixel. */
  lemma PixelBitBijection()
    ensures forall u: nat, v: nat :: u < 6 && v < 8 ==> PixelBit(u, v) < 48 && PixelBit(u, v) / 8 < 6
    ensures forall u: nat, v: nat, u': nat, v': nat ::
              u < 6 && v < 8 && u' < 6 && v' < 8 && PixelBit(u, v) == PixelBit(u', v') ==> u == u' && v == v'
    ensures forall k: nat :: k < 48 ==> k % 6 < 6 && k / 6 < 8 && PixelBit(k % 6, k / 6) == k
  {
    forall u: nat, v: nat | u < 6 && v < 8
      ensures PixelBit(u, v) < 48 && PixelBit(u, v) / 8 < 6
    {
      assert v * 6 <= 42;
    }
    forall u: nat, v: nat, u': nat, v': nat |
      u < 6 && v < 8 && u' < 6 && v' < 8 && PixelBit(u, v) == PixelBit(u', v')
      ensures u == u' && v == v'
    {
      SplitUnique(v, u, v', u');
    }
  }

  lemma SplitUnique(v: nat, u: nat, v': nat, u': nat)
    requires u < 6 && u' < 6 && v * 6 + u == v' * 6 + u'
    ensures v == v' && u == u'
  {
    assert (v - v') * 6 == u' - u;
  }

  /** An all-zero record, the one of the space and of a cleared cell,
      paints no pixel. */
  lemma ZeroRecordIsDark(u: nat, v: nat)
    ensures !Lit(Zero, Zero, u, v)
  {
    if u <= 5 && v <= 7 {
      var k := PixelBit(u, v);
      LitReadsByte(Zero, Zero, u, v);
      PixelBitInRecord(Zero, Zero, u, v);
      ShaderBit(0, 7 - k % 8);
      NoBitOfZero(7 - k % 8);
    }
  }

  /** Bit n of x (bit 0 the least significant), by repeated halving. */
  predicate Bit(x: nat, n: nat)
  {
    if n == 0 then x % 2 == 1 else Bit(x / 2, n - 1)
  }

  lemma {:induction false} NoBitOfZero(n: nat)
    ensures !Bit(0, n)
  {
    if n > 0 {
      NoBitOfZero(n - 1);
    }
  }

  /** The record as one 48-bit number, byte 0 most significant. */
  function Value(bytes: seq<Byte>): nat
  {
    if bytes == [] then 0 else Value(bytes[..|bytes| - 1]) * 256 + bytes[|bytes| - 1]
  }

  function Bits48(lo: Triple, hi: Triple): nat
  {
    Value([lo.x, lo.y, lo.z, hi.x, hi.y, hi.z])
  }

  /** The decode paints exactly the pixels whose bit is set in the 48-bit
      number, reading bits from the most significant one, row by row. */
  lemma LitIsBit(lo: Triple, hi: Triple, u: nat, v: nat)
    requires u < 6 && v < 8
    ensures Lit(lo, hi, u, v) <==> Bit(Bits48(lo, hi), 47 - PixelBit(u, v))
  {
    var k := PixelBit(u, v);
    LitReadsByte(lo, hi, u, v);
    ShaderBit(ByteAt(lo, hi, k / 8), 7 - k % 8);
    PixelBitInRecord(lo, hi, u, v);
  }

  /** The bit the shader tests for pixel (u, v) is bit 47 - PixelBit(u, v)
      of the record. */
  lemma PixelBitInRecord(lo: Triple, hi: Triple, u: nat, v: nat)
    requires u < 6 && v < 8
    ensures var k := PixelBit(u, v);
            k / 8 < 6 && (Bit(ByteAt(lo, hi, k / 8), 7 - k % 8) <==> Bit(Bits48(lo, hi), 47 - k))
  {
    var k := PixelBit(u, v);
    PixelSplit(u, v);
    ByteBitInRecord(lo, hi, k / 8, 7 - k % 8);
  }

  /** The shader tests pixel (u, v) against byte k / 8 of the record. */
  lemma LitReadsByte(lo: Triple, hi: Triple, u: nat, v: nat)
    requires u < 6 && v < 8
    ensures var k := PixelBit(u, v);
            Lit(lo, hi, u, v) <==> (ByteAt(lo, hi, k / 8) / Pow2(7 - k % 8)) % 2 == 1
  {
    LitUnfolded(lo, hi, u, v);
    PixelSplit(u, v);
    SelectByteIsShaderSelect(lo, hi, PixelBit(u, v) / 8);
  }

  /** Bit e of byte i is bit 8 * (5 - i) + e of the 48-bit record. */
  lemma ByteBitInRecord(lo: Triple, hi: Triple, i: nat, e: nat)
    requires i < 6 && e < 8
    ensures Bit(ByteAt(lo, hi, i), e) <==> Bit(Bits48(lo, hi), 8 * (5 - i) + e)
  {
    var bytes := [lo.x, lo.y, lo.z, hi.x, hi.y, hi.z];
    ValueBit(bytes, i, e);
    assert bytes[i] == ByteAt(lo, hi, i);
  }

  lemma LitUnfolded(lo: Triple, hi: Triple, u: nat, v: nat)
    requires u < 6 && v < 8
    ensures var k := PixelBit(u, v);
            Lit(lo, hi, u, v) <==> (SelectByte(lo, hi, k / 8) / Pow2(7 - k % 8)) % 2 == 1
  {
  }

  /** Bit k of the glyph, counted from the top, is bit 7 - k % 8 of byte
      k / 8, which is bit 47 - k of the whole record. */
  lemma PixelSplit(u: nat, v: nat)
    requires u < 6 && v < 8
    ensures var k := PixelBit(u, v);
            k / 8 < 6 && 47 - k == 8 * (5 - k / 8) + (7 - k % 8)
  {
  }

  /** GLSL `mod(x, y)`: `x - y * floor(x / y)`. */
  function Mod(x: real, y: real): real
    requires y != 0.0
  {
    x - y * (x / y).Floor as real
  }

  /** The shader's test on real numbers: `128.0 / pow(2.0, offset)` is
      2^e with e = 7 - offset. */
  predicate RealTest(x: nat, e: nat)
  {
    Mod(x as real / Pow2(e) as real, 2.0).Floor as real > 0.0
  }

  /** The real-number test agrees with integer division: for a byte and a
      power of two every quotient is exact in floating point too, so the
      floor-and-mod test is the parity of `x / 2^e`. */
  lemma RealTestIsIntegerTest(x: nat, e: nat)
    ensures RealTest(x, e) <==> (x / Pow2(e)) % 2 == 1
  {
    var p := Pow2(e);
    var n, r := x / p, x % p;
    var f := r as real / p as real;
    Fraction(r, p);
    assert x as real == n as real * p as real + r as real;
    var q := x as real / p as real;
    assert q == n as real + f;
    FloorOfSum(n, f);
    var m, b := n / 2, n % 2;
    assert q / 2.0 == m as real + (b as real + f) / 2.0;
    FloorOfSum(m, (b as real + f) / 2.0);
    assert Mod(q, 2.0) == b as real + f;
    FloorOfSum(b, f);
  }

  lemma Fraction(r: nat, p: nat)
    requires r < p
    ensures 0.0 <= r as real / p as real < 1.0
  {
    var f := r as real / p as real;
    assert f * p as real == r as real;
  }

  lemma FloorOfSum(n: int, f: real)
    requires 0.0 <= f < 1.0
    ensures (n as real + f).Floor == n
  {
  }

  /** The shader's `floor(mod(byte / (128 / 2^offset), 2)) > 0` test, with
      e = 7 - offset, is bit e. */
  lemma {:induction false} ShaderBit(x: nat, e: nat)
    ensures (x / Pow2(e)) % 2 == 1 <==> Bit(x, e)
    decreases e
  {
    if e > 0 {
      ShaderBit(x / 2, e - 1);
      DivTwice(x, Pow2(e - 1));
    }
  }

  lemma DivTwice(x: nat, p: nat)
    requires p > 0
    ensures x / (2 * p) == (x / 2) / p
  {
    var h := x / 2;
    var q, r := h / p, h % p;
    assert h == q * p + r;
    assert x == q * (2 * p) + (2 * r + x % 2);
    DivUnique(x, 2 * p, q, 2 * r + x % 2);
  }

  lemma DivUnique(x: nat, d: nat, q: nat, r: nat)
    requires 0 < d && r < d && x == q * d + r
    ensures x / d == q
  {
    var q', r' := x / d, x % d;
    assert x == q' * d + r';
    if q' > q {
      MulAtLeast(q' - q, d);
    } else if q' < q {
      MulAtLeast(q - q', d);
    }
  }

  lemma MulAtLeast(a: nat, d: nat)
    requires a >= 1
    ensures a * d >= d
  {
  }

  /** Bit e < 8 of byte i of a byte string is bit 8 * (bytes after i) + e
      of its value. */
  lemma {:induction false} ValueBit(bytes: seq<Byte>, i: nat, e: nat)
    requires i < |bytes| && e < 8
    ensures Bit(Value(bytes), 8 * (|bytes| - 1 - i) + e) <==> Bit(bytes[i], e)
    decreases |bytes|
  {
    var init, last := bytes[..|bytes| - 1], bytes[|bytes| - 1];
    assert Pow2(8) == 256;
    assert Value(bytes) == Value(init) * Pow2(8) + last;
    if i == |bytes| - 1 {
      BitLow(Value(init), last, 8, e);
    } else {
      BitHigh(Value(init), last, 8, 8 * (|init| - 1 - i) + e);
      ValueBit(init, i, e);
      assert init[i] == bytes[i];
    }
  }

  /** The low p bits of m * 2^p + r are those of r. */
  lemma {:induction false} BitLow(m: nat, r: nat, p: nat, n: nat)
    requires r < Pow2(p) && n < p
    ensures Bit(m * Pow2(p) + r, n) <==> Bit(r, n)
    decreases n
  {
    var half := Pow2(p - 1);
    var mh := m * half;
    assert m * Pow2(p) == mh * 2;
    if n > 0 {
      assert (mh * 2 + r) / 2 == m * half + r / 2;
      BitLow(m, r / 2, p - 1, n - 1);
    }
  }

  /** Bit n + p of m * 2^p + r, with r < 2^p, is bit n of m. */
  lemma {:induction false} BitHigh(m: nat, r: nat, p: nat, n: nat)
    requires r < Pow2(p)
    ensures Bit(m * Pow2(p) + r, n + p) <==> Bit(m, n)
    decreases p
  {
    if p == 0 {
      assert m * Pow2(p) + r == m;
    } else {
      var half := Pow2(p - 1);
      var mh := m * half;
      assert m * Pow2(p) == mh * 2;
      assert (mh * 2 + r) / 2 == m * half + r / 2;
      BitHigh(m, r / 2, p - 1, n);
    }
  }
}
