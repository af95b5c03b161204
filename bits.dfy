/**
 * Bit-level vocabulary shared by the generator (skey.c) and the parser
 * (skey_read.c): bytes, bit strings read most significant bit first, the
 * value of a bit string, fixed-width chunking with zero padding, and the C
 * operators `|`, `^` and `(x & (1 << k)) >> k` on unsigned integers.
 */
module Binary {

  /** An `unsigned char`. */
  type byte = x: int | 0 <= x < 256

  /** A single binary digit. */
  type bit = x: int | 0 <= x < 2

  function Pow2(k: nat): (r: nat)
    ensures r >= 1
  {
    if k == 0 then 1 else 2 * Pow2(k - 1)
  }

  /** The powers of two the S/Key code needs. */
  lemma SmallPowers()
    ensures Pow2(2) == 4 && Pow2(6) == 64 && Pow2(7) == 128 && Pow2(8) == 256 && Pow2(11) == 2048
  {
    assert Pow2(1) == 2;
    assert Pow2(2) == 4;
    assert Pow2(3) == 8;
    assert Pow2(4) == 16;
    assert Pow2(5) == 32;
    assert Pow2(6) == 64;
    assert Pow2(7) == 128;
    assert Pow2(8) == 256;
    assert Pow2(9) == 512;
    assert Pow2(10) == 1024;
  }

  /** C's left shift `x << k` on unsigned integers that do not overflow. */
  function Shl(x: nat, k: nat): nat
  {
    if k == 0 then x else 2 * Shl(x, k - 1)
  }

  /** C's right shift `x >> k` on unsigned integers. */
  function Shr(x: nat, k: nat): nat
  {
    if k == 0 then x else Shr(x / 2, k - 1)
  }

  function Zeros(k: nat): seq<bit>
  {
    seq(k, _ => 0)
  }

  /** Bit k of x, counting from the least significant bit: C's `(x & (1 << k)) >> k`. */
  function BitAt(x: nat, k: nat): bit
  {
    if k == 0 then x % 2 else BitAt(x / 2, k - 1)
  }

  /** C's bitwise `x | y` on unsigned integers. */
  function Or(x: nat, y: nat): nat
    decreases x + y
  {
    if x == 0 then y
    else if y == 0 then x
    else 2 * Or(x / 2, y / 2) + (if x % 2 == 1 || y % 2 == 1 then 1 else 0)
  }

  /** C's bitwise `x ^ y` on the low k bits of unsigned integers. */
  function XorBits(k: nat, x: nat, y: nat): nat
  {
    if k == 0 then 0 else 2 * XorBits(k - 1, x / 2, y / 2) + (x + y) % 2
  }

  /** `a ^ b` on two bytes is a byte. */
  function Xor(a: byte, b: byte): byte
  {
    XorBound(8, a, b);
    XorBits(8, a, b)
  }

  /** The low w bits of x, most significant first. */
  function WidthBits(w: nat, x: nat): (r: seq<bit>)
    ensures |r| == w
  {
    if w == 0 then [] else WidthBits(w - 1, x / 2) + [x % 2]
  }

  /** The number whose binary digits, most significant first, are s. */
  function Value(s: seq<bit>): (r: nat)
    ensures r < Pow2(|s|)
  {
    if s == [] then 0 else 2 * Value(s[..|s| - 1]) + s[|s| - 1]
  }

  /** The bit stream formed by the low w bits of each element of cs in turn. */
  function ChunkBits(w: nat, cs: seq<nat>): seq<bit>
  {
    if cs == [] then [] else WidthBits(w, cs[0]) + ChunkBits(w, cs[1..])
  }

  /** Each chunk contributes w bits. */
  lemma {:induction false} ChunkBitsLength(w: nat, cs: seq<nat>)
    ensures |ChunkBits(w, cs)| == w * |cs|
  {
    if cs != [] {
      ChunkBitsLength(w, cs[1..]);
      assert w * |cs| == w * (|cs| - 1) + w;
    }
  }

  /** The bit stream of a byte string, each byte most significant bit first. */
  function Bits(b: seq<byte>): (r: seq<bit>)
    ensures |r| == 8 * |b|
  {
    ChunkBitsLength(8, b);
    ChunkBits(8, b)
  }

  /**
   * A bit stream cut into w-bit chunks read most significant bit first; a
   * last chunk that receives fewer than w bits is filled up with zero bits
   * at the low end.
   */
  function Chunks(w: nat, s: seq<bit>): (r: seq<nat>)
    requires w >= 1
    decreases |s|
  {
    if s == [] then []
    else if |s| <= w then [Value(s + Zeros(w - |s|))]
    else [Value(s[..w])] + Chunks(w, s[w..])
  }

  /** Every chunk fits in w bits. */
  lemma {:induction false} ChunksBound(w: nat, s: seq<bit>)
    requires w >= 1
    ensures forall j :: 0 <= j < |Chunks(w, s)| ==> Chunks(w, s)[j] < Pow2(w)
    decreases |s|
  {
    if |s| > w {
      ChunksBound(w, s[w..]);
      assert forall j :: 1 <= j < |Chunks(w, s)| ==> Chunks(w, s)[j] == Chunks(w, s[w..])[j - 1];
    }
  }

  /** The byte string whose bit stream is s. */
  function Bytes(s: seq<bit>): seq<byte>
    requires |s| % 8 == 0
  {
    seq(|s| / 8, j requires 0 <= j < |s| / 8 => Value(s[8 * j .. 8 * j + 8]))
  }

  // ---------------------------------------------------------------------
  // Arithmetic helpers

  lemma MulSucc(k: nat, w: nat)
    ensures (k + 1) * w == k * w + w
  {
  }

  lemma {:induction false} MulAtLeast(k: int, d: int)
    requires k > 0 && d > 0
    ensures k * d >= d
  {
    if k > 1 {
      MulAtLeast(k - 1, d);
      assert k * d == (k - 1) * d + d;
    }
  }

  lemma MulLess(a: int, b: int, d: int)
    requires d > 0 && a < b
    ensures a * d < b * d
  {
    assert b * d == a * d + (b - a) * d;
    MulAtLeast(b - a, d);
  }

  /** Quotient and remainder are determined by `a == q * d + r, 0 <= r < d`. */
  lemma DivMod(a: int, d: int, q: int, r: int)
    requires d > 0 && 0 <= r < d && a == q * d + r
    ensures a / d == q && a % d == r
  {
    var q0, r0 := a / d, a % d;
    assert a == q0 * d + r0;
    if q0 < q {
      MulLess(q0, q, d);
      assert (q0 + 1) * d <= q * d by { if q0 + 1 < q { MulLess(q0 + 1, q, d); } }
    } else if q0 > q {
      assert (q + 1) * d <= q0 * d by { if q + 1 < q0 { MulLess(q + 1, q0, d); } }
    }
  }

  lemma {:induction false} Pow2Add(a: nat, b: nat)
    ensures Pow2(a + b) == Pow2(a) * Pow2(b)
  {
    if b > 0 {
      Pow2Add(a, b - 1);
      assert Pow2(a + b) == 2 * Pow2(a + b - 1);
    }
  }

  lemma {:induction false} XorBound(k: nat, x: nat, y: nat)
    ensures XorBits(k, x, y) < Pow2(k)
  {
    if k > 0 {
      XorBound(k - 1, x / 2, y / 2);
    }
  }

  // ---------------------------------------------------------------------
  // Value and WidthBits are inverse to each other

  lemma ValueSnoc(s: seq<bit>, b: bit)
    ensures Value(s + [b]) == 2 * Value(s) + b
  {
    assert (s + [b])[..|s|] == s;
  }

  /** Appending k zero bits shifts the value left by k. */
  lemma {:induction false} ValueZeros(s: seq<bit>, k: nat)
    ensures Value(s + Zeros(k)) == Shl(Value(s), k)
  {
    if k > 0 {
      ValueZeros(s, k - 1);
      assert Zeros(k) == Zeros(k - 1) + [0];
      assert s + Zeros(k) == (s + Zeros(k - 1)) + [0];
      ValueSnoc(s + Zeros(k - 1), 0);
    } else {
      assert s + Zeros(0) == s;
    }
  }

  /** The value of a concatenation: the first part shifted past the second. */
  lemma {:induction false} ValueAppend(s: seq<bit>, t: seq<bit>)
    ensures Value(s + t) == Shl(Value(s), |t|) + Value(t)
    decreases |t|
  {
    if t == [] {
      assert s + t == s;
    } else {
      var t' := t[..|t| - 1];
      ValueAppend(s, t');
      assert s + t == (s + t') + [t[|t| - 1]];
      ValueSnoc(s + t', t[|t| - 1]);
      ValueSnoc(t', t[|t| - 1]);
      assert t' + [t[|t| - 1]] == t;
    }
  }

  /** A bit string of zeros has value zero. */
  lemma {:induction false} ValueOfZeros(k: nat)
    ensures Value(Zeros(k)) == 0
  {
    if k > 0 {
      ValueOfZeros(k - 1);
      assert Zeros(k) == Zeros(k - 1) + [0];
      ValueSnoc(Zeros(k - 1), 0);
    }
  }

  /** A value below 2^n shifted left by k stays below 2^(n+k). */
  lemma {:induction false} ShlBound(x: nat, n: nat, k: nat)
    requires x < Pow2(n)
    ensures Shl(x, k) < Pow2(n + k)
  {
    if k > 0 {
      ShlBound(x, n, k - 1);
    }
  }

  lemma {:induction false} ShlMul(x: nat, k: nat)
    ensures Shl(x, k) == x * Pow2(k)
  {
    if k > 0 {
      ShlMul(x, k - 1);
      var m := Pow2(k - 1);
      assert Pow2(k) == 2 * m;
      assert 2 * (x * m) == x * (2 * m);
    }
  }

  /** Bit i of the width-w image of x, counted from the left, is bit w-1-i of x. */
  lemma {:induction false} WidthBitsAt(w: nat, x: nat, i: nat)
    requires i < w
    ensures WidthBits(w, x)[i] == BitAt(x, w - 1 - i)
  {
    if i < w - 1 {
      WidthBitsAt(w - 1, x / 2, i);
    }
  }

  lemma {:induction false} WidthBitsValue(s: seq<bit>)
    ensures WidthBits(|s|, Value(s)) == s
  {
    if s != [] {
      var init := s[..|s| - 1];
      WidthBitsValue(init);
      assert s == init + [s[|s| - 1]];
    }
  }

  lemma ModDouble(x: nat, p: nat)
    requires p >= 1
    ensures x % (2 * p) == 2 * ((x / 2) % p) + x % 2
  {
    var h := x / 2;
    assert h == p * (h / p) + h % p;
    assert x == (h / p) * (2 * p) + (2 * (h % p) + x % 2);
    DivMod(x, 2 * p, h / p, 2 * (h % p) + x % 2);
  }

  lemma {:induction false} ValueWidthBits(w: nat, x: nat)
    ensures Value(WidthBits(w, x)) == x % Pow2(w)
  {
    if w > 0 {
      ValueWidthBits(w - 1, x / 2);
      ValueSnoc(WidthBits(w - 1, x / 2), x % 2);
      ModDouble(x, Pow2(w - 1));
    }
  }

  /** The width-w image of x ignores every bit of x above bit w-1. */
  lemma WidthBitsLow(w: nat, x: nat)
    ensures WidthBits(w, x) == WidthBits(w, x % Pow2(w))
  {
    ValueWidthBits(w, x);
    WidthBitsValue(WidthBits(w, x));
  }

  /** Halving, then dividing by p, divides by 2p. */
  lemma DivTwice(x: nat, p: nat)
    requires p > 0
    ensures x / 2 / p == x / (2 * p)
  {
    var q, r2 := x / 2 / p, x / 2 % p;
    assert x / 2 == q * p + r2;
    assert x == q * (2 * p) + (2 * r2 + x % 2);
    DivMod(x, 2 * p, q, 2 * r2 + x % 2);
  }

  /** The low a + b bits of x are its a bits above bit b - 1, then its low b bits. */
  lemma {:induction false} WidthBitsSplit(a: nat, b: nat, x: nat)
    ensures WidthBits(a + b, x) == WidthBits(a, Shr(x, b)) + WidthBits(b, x)
  {
    if b > 0 {
      WidthBitsSplit(a, b - 1, x / 2);
    }
  }

  // ---------------------------------------------------------------------
  // Or on clear bits is addition

  /** Or-ing y into a number whose low k bits are clear, with y < 2^k, adds y. */
  lemma {:induction false} OrShifted(v: nat, k: nat, y: nat)
    requires y < Pow2(k)
    ensures Or(Shl(v, k), y) == Shl(v, k) + y
  {
    if k > 0 && Shl(v, k) != 0 && y != 0 {
      OrShifted(v, k - 1, y / 2);
    }
  }

  /**
   * The step both bit packers take: Or-ing bit b, shifted to position k-1,
   * into a partial chunk whose low k bits are still zero padding.
   */
  lemma OrStep(s: seq<bit>, b: bit, k: nat)
    requires k >= 1
    ensures Or(Value(s + Zeros(k)), Shl(b, k - 1)) == Value(s + [b] + Zeros(k - 1))
  {
    var v := Value(s);
    ShlBound(b, 1, k - 1);
    calc {
      Or(Value(s + Zeros(k)), Shl(b, k - 1));
      { ValueZeros(s, k); }
      Or(Shl(v, k), Shl(b, k - 1));
      { OrShifted(v, k, Shl(b, k - 1)); }
      Shl(v, k) + Shl(b, k - 1);
      { ShlDouble(v, k - 1); ShlAdd(2 * v, b, k - 1); }
      Shl(2 * v + b, k - 1);
      { ValueSnoc(s, b); }
      Shl(Value(s + [b]), k - 1);
      { ValueZeros(s + [b], k - 1); }
      Value(s + [b] + Zeros(k - 1));
    }
  }

  lemma {:induction false} ShlDouble(x: nat, k: nat)
    ensures Shl(x, k + 1) == Shl(2 * x, k)
  {
    if k > 0 {
      ShlDouble(x, k - 1);
    }
  }

  lemma {:induction false} ShlAdd(x: nat, y: nat, k: nat)
    ensures Shl(x, k) + Shl(y, k) == Shl(x + y, k)
  {
    if k > 0 {
      ShlAdd(x, y, k - 1);
    }
  }

  // ---------------------------------------------------------------------
  // Bit streams of chunk sequences and byte strings

  lemma {:induction false} ChunkBitsAppend(w: nat, a: seq<nat>, b: seq<nat>)
    ensures ChunkBits(w, a + b) == ChunkBits(w, a) + ChunkBits(w, b)
  {
    if a != [] {
      var x, p, q := WidthBits(w, a[0]), ChunkBits(w, a[1..]), ChunkBits(w, b);
      assert (a + b)[0] == a[0];
      assert (a + b)[1..] == a[1..] + b;
      ChunkBitsAppend(w, a[1..], b);
      assert ChunkBits(w, a + b) == x + (p + q);
      assert x + (p + q) == (x + p) + q;
    } else {
      assert a + b == b;
    }
  }

  /** Byte j of b occupies bits 8j .. 8j+7 of its bit stream. */
  lemma {:induction false} BitsSlice(b: seq<byte>, j: nat)
    requires j < |b|
    ensures Bits(b)[8 * j .. 8 * j + 8] == WidthBits(8, b[j])
  {
    if j > 0 {
      BitsSlice(b[1..], j - 1);
    }
  }

  lemma {:induction false} BitsOfBytes(s: seq<bit>)
    requires |s| % 8 == 0
    ensures Bits(Bytes(s)) == s
  {
    if s != [] {
      BitsOfBytes(s[8..]);
      BytesCons(s);
      var x, rest := Value(s[..8]), Bytes(s[8..]);
      ChunkBitsCons(8, x, rest);
      WidthBitsValue(s[..8]);
      assert Bits(Bytes(s)) == s[..8] + s[8..];
      assert s == s[..8] + s[8..];
    }
  }

  /** A slice of a suffix is a slice of the whole. */
  lemma SliceShift(s: seq<bit>, a: nat, b: nat, c: nat)
    requires b <= c && a + c <= |s|
    ensures s[a..][b..c] == s[a + b..a + c]
  {
    forall m | 0 <= m < c - b
      ensures s[a..][b..c][m] == s[a + b..a + c][m]
    {
    }
  }

  /** The first byte of a non-empty stream is its first eight bits. */
  lemma BytesCons(s: seq<bit>)
    requires |s| % 8 == 0 && s != []
    ensures Bytes(s) == [Value(s[..8])] + Bytes(s[8..])
  {
    var n := |s| / 8;
    DivMod(|s|, 8, n, 0);
    assert |s| == 8 * n && |s[8..]| / 8 == n - 1;
    forall j | 0 <= j < n
      ensures Bytes(s)[j] == ([Value(s[..8])] + Bytes(s[8..]))[j]
    {
      if j > 0 {
        var i := j - 1;
        assert 8 * i + 8 == 8 * j && 8 * j + 8 <= |s|;
        SliceShift(s, 8, 8 * i, 8 * i + 8);
      }
    }
  }

  lemma BytesOfBits(b: seq<byte>)
    ensures Bytes(Bits(b)) == b
  {
    var bs := Bits(b);
    DivMod(|bs|, 8, |b|, 0);
    forall j | 0 <= j < |b|
      ensures Bytes(bs)[j] == b[j]
    {
      ByteOfBits(b, bs, j);
    }
  }

  /** Byte j read back from the bit stream of b is b[j]. */
  lemma ByteOfBits(b: seq<byte>, bs: seq<bit>, j: nat)
    requires bs == Bits(b) && j < |b| && |bs| / 8 == |b|
    ensures Bytes(bs)[j] == b[j]
  {
    assert 8 * j + 8 <= |bs|;
    var field := bs[8 * j .. 8 * j + 8];
    assert Bytes(bs)[j] == Value(field);
    BitsSlice(b, j);
    assert field == WidthBits(8, b[j]);
    ValueWidthBits(8, b[j]);
    SmallPowers();
    assert b[j] % 256 == b[j];
  }

  // ---------------------------------------------------------------------
  // Chunking

  /** Chunking a stream whose first part fills k whole chunks splits at that point. */
  lemma {:induction false} ChunksAppend(w: nat, s: seq<bit>, u: seq<bit>, k: nat)
    requires w >= 1 && |s| == k * w
    ensures Chunks(w, s + u) == Chunks(w, s) + Chunks(w, u)
  {
    if k > 0 {
      assert |s| >= w by { MulAtLeast(k, w); }
      assert (k - 1) * w == |s| - w;
      if |s + u| <= w {
        assert u == [] && s + u == s;
      } else {
        assert (s + u)[..w] == s[..w];
        assert (s + u)[w..] == s[w..] + u;
        ChunksAppend(w, s[w..], u, k - 1);
        if |s| == w {
          assert s[w..] == [] && s + Zeros(0) == s[..w];
        }
      }
    } else {
      assert s == [] && s + u == u;
    }
  }

  /** ceil(|s| / w) chunks, stated without division. */
  lemma {:induction false} ChunksLength(w: nat, s: seq<bit>)
    requires w >= 1
    ensures |Chunks(w, s)| * w >= |s|
    ensures s != [] ==> (|Chunks(w, s)| - 1) * w < |s|
    decreases |s|
  {
    if |s| > w {
      ChunksLength(w, s[w..]);
      MulSucc(|Chunks(w, s[w..])|, w);
    }
  }

  /** The chunks of s, read back as a bit stream, are s followed by z zero bits. */
  lemma {:induction false} ChunksBits(w: nat, s: seq<bit>) returns (z: nat)
    requires w >= 1
    ensures ChunkBits(w, Chunks(w, s)) == s + Zeros(z)
    decreases |s|
  {
    if s == [] {
      z := 0;
      assert s + Zeros(0) == [];
    } else if |s| <= w {
      z := w - |s|;
      ChunksBitsShort(w, s);
    } else {
      z := ChunksBits(w, s[w..]);
      ChunksBitsStep(w, s, Chunks(w, s[w..]), z);
    }
  }

  /** A stream of at most w bits is one chunk: its bits and w - |s| zeros. */
  lemma ChunksBitsShort(w: nat, s: seq<bit>)
    requires 1 <= |s| <= w
    ensures ChunkBits(w, Chunks(w, s)) == s + Zeros(w - |s|)
  {
    var x := Value(s + Zeros(w - |s|));
    WidthBitsValue(s + Zeros(w - |s|));
    ChunkBitsCons(w, x, []);
    assert Chunks(w, s) == [x] + [];
  }

  /** The step of ChunksBits: a full first chunk puts its w bits in front. */
  lemma ChunksBitsStep(w: nat, s: seq<bit>, rest: seq<nat>, z: nat)
    requires w >= 1 && |s| > w && rest == Chunks(w, s[w..])
    requires ChunkBits(w, rest) == s[w..] + Zeros(z)
    ensures ChunkBits(w, Chunks(w, s)) == s + Zeros(z)
  {
    var x := Value(s[..w]);
    assert Chunks(w, s) == [x] + rest;
    WidthBitsValue(s[..w]);
    ChunkBitsCons(w, x, rest);
    assert ChunkBits(w, [x] + rest) == s[..w] + (s[w..] + Zeros(z));
    assert s[..w] + (s[w..] + Zeros(z)) == s + Zeros(z);
  }

  lemma ChunkBitsCons(w: nat, x: nat, cs: seq<nat>)
    ensures ChunkBits(w, [x] + cs) == WidthBits(w, x) + ChunkBits(w, cs)
  {
    assert ([x] + cs)[1..] == cs;
  }

  /** The number of chunks is ceil(|s| / w). */
  lemma ChunksCount(w: nat, s: seq<bit>)
    requires w >= 1
    ensures |Chunks(w, s)| == (|s| + w - 1) / w
  {
    var m := |Chunks(w, s)|;
    ChunksLength(w, s);
    if s == [] {
      DivMod(w - 1, w, 0, w - 1);
    } else {
      DivMod(|s| + w - 1, w, m, |s| + w - 1 - m * w);
    }
  }

  // ---------------------------------------------------------------------
  // Packing a bit stream one bit at a time

  /** k chunks of w bits that start before position p < len * w lie within len chunks. */
  lemma ChunkIndexBound(k: nat, w: nat, len: nat, p: nat)
    requires w >= 1 && k * w <= p < len * w
    ensures k < len
  {
    if k >= len {
      if k > len {
        MulLess(len, k, w);
      }
    }
  }

  /**
   * The chunk that has received bits start .. p - 1 of the stream, or-ed in
   * one at a time from its most significant bit down; the bits still to
   * come are zero.
   */
  function Partial(w: nat, bits: seq<bit>, start: nat, p: nat): nat
    requires start <= p <= |bits| && p - start <= w
    decreases p - start
  {
    if p == start then 0
    else Or(Partial(w, bits, start, p - 1), Shl(bits[p - 1], w - (p - start)))
  }

  /** The partial chunk is the value of the bits received so far, followed by zeros. */
  lemma {:induction false} PartialValue(w: nat, bits: seq<bit>, start: nat, p: nat)
    requires start <= p <= |bits| && p - start <= w
    ensures Partial(w, bits, start, p) == Shl(Value(bits[start..p]), w - (p - start))
    decreases p - start
  {
    if p == start {
      ValueOfZeros(w);
      ValueZeros(bits[p..p], w);
      assert bits[p..p] + Zeros(w) == Zeros(w);
    } else {
      PartialValue(w, bits, start, p - 1);
      PartialStep(w, bits, start, p);
    }
  }

  /** Or-ing bit p - 1 into a chunk holding bits start .. p - 2 appends it. */
  lemma PartialStep(w: nat, bits: seq<bit>, start: nat, p: nat)
    requires start < p <= |bits| && p - start <= w
    requires Partial(w, bits, start, p - 1) == Shl(Value(bits[start..p - 1]), w - (p - 1 - start))
    ensures Partial(w, bits, start, p) == Shl(Value(bits[start..p]), w - (p - start))
  {
    var filled := p - 1 - start;
    ValueZeros(bits[start..p - 1], w - filled);
    ValueZeros(bits[start..p], w - filled - 1);
    OrStep(bits[start..p - 1], bits[p - 1], w - filled);
    assert bits[start..p - 1] + [bits[p - 1]] == bits[start..p];
  }

  /** A chunk fits in w bits at every stage of its filling. */
  lemma PartialBound(w: nat, bits: seq<bit>, start: nat, p: nat)
    requires start <= p <= |bits| && p - start <= w
    ensures Partial(w, bits, start, p) < Pow2(w)
  {
    PartialValue(w, bits, start, p);
    ShlBound(Value(bits[start..p]), p - start, w - (p - start));
  }

  /** A chunk that has received all its w bits is their value. */
  lemma FullChunk(w: nat, bits: seq<bit>, start: nat)
    requires start + w <= |bits|
    ensures Partial(w, bits, start, start + w) == Value(bits[start..start + w])
  {
    PartialValue(w, bits, start, start + w);
  }

  /** Chunk k of a stream, when the stream fills it completely. */
  function Block(w: nat, bits: seq<bit>, k: nat): nat
  {
    if k * w + w <= |bits| then Value(bits[k * w..k * w + w]) else 0
  }
}
