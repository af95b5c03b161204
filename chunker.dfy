/**
 * Splitting the 64-bit one-time password into dictionary indices (data_chunk
 * and hash_break in skey.c): the bit stream is cut into 11-bit chunks, most
 * significant bit first, and the two-bit checksum of RFC 2289 (section 6,
 * "sum of the 2-bit pairs") fills the low two bits of the sixth chunk.
 */
module Chunker {
  import opened Binary

  /** Bit b of the stream sits at bit 7 - b, counted from the low end, of its byte. */
  lemma BitOfStream(b: seq<byte>, i: nat, j: nat)
    requires i < |b| && j < 8
    ensures 8 * i + j < |Bits(b)| && Bits(b)[8 * i + j] == BitAt(b[i], 7 - j)
  {
    BitsSlice(b, i);
    WidthBitsAt(8, b[i], j);
    assert Bits(b)[8 * i + j] == Bits(b)[8 * i .. 8 * i + 8][j];
  }

  /** Bit j, counted from the most significant, of byte i. */
  function ByteBit(b: seq<byte>, i: nat, j: nat): bit
    requires i < |b| && j < 8
  {
    BitAt(b[i], 7 - j)
  }

  /** The bit stream of a byte string, described bit by bit. */
  lemma StreamOf(b: seq<byte>) returns (s: seq<bit>)
    ensures |s| == 8 * |b|
    ensures forall i, j {:trigger ByteBit(b, i, j)} :: 0 <= i < |b| && 0 <= j < 8 ==> s[8 * i + j] == ByteBit(b, i, j)
  {
    s := Bits(b);
    forall i, j | 0 <= i < |b| && 0 <= j < 8
      ensures s[8 * i + j] == ByteBit(b, i, j)
    {
      BitOfStream(b, i, j);
    }
  }

  /** A stream described bit by bit as the bits of b is the bit stream of b. */
  lemma StreamIsBits(s: seq<bit>, b: seq<byte>)
    requires |s| == 8 * |b|
    requires forall i, j {:trigger ByteBit(b, i, j)} :: 0 <= i < |b| && 0 <= j < 8 ==> s[8 * i + j] == ByteBit(b, i, j)
    ensures s == Bits(b)
  {
    forall k | 0 <= k < |s|
      ensures s[k] == Bits(b)[k]
    {
      var i, j := k / 8, k % 8;
      DivMod(k, 8, i, j);
      assert s[8 * i + j] == ByteBit(b, i, j);
      BitOfStream(b, i, j);
    }
  }

  /** The chunk before chunk k >= 1 starts w bits earlier. */
  lemma StepBack(k: nat, w: nat, start: nat)
    requires k >= 1 && start == k * w
    ensures start >= w && start - w == (k - 1) * w
  {
    MulSucc(k - 1, w);
  }

  /** The first chunk of a stream at least w bits long is its first w bits. */
  lemma ChunksHead(w: nat, s: seq<bit>)
    requires w >= 1 && w <= |s|
    ensures |Chunks(w, s)| >= 1 && Chunks(w, s)[0] == Value(s[..w])
  {
    if |s| == w {
      assert s + Zeros(0) == s[..w];
    }
  }

  /** A stream of at most w bits is a single chunk, zero-padded. */
  lemma ChunksShort(w: nat, s: seq<bit>)
    requires 1 <= |s| <= w
    ensures Chunks(w, s) == [Value(s + Zeros(w - |s|))]
  {
  }

  /** Past its first chunk, a stream longer than w bits is chunked from bit w on. */
  lemma ChunksTail(w: nat, s: seq<bit>)
    requires w >= 1 && w < |s|
    ensures Chunks(w, s) == [Value(s[..w])] + Chunks(w, s[w..])
  {
  }

  /** Chunk k of a stream that fills it completely holds bits k * w .. k * w + w - 1. */
  lemma {:induction false} ChunkAt(w: nat, s: seq<bit>, k: nat, start: nat)
    requires w >= 1 && start == k * w && start + w <= |s|
    ensures k < |Chunks(w, s)| && Chunks(w, s)[k] == Value(s[start..start + w])
    decreases k
  {
    if k == 0 {
      assert start == 0;
      ChunksHead(w, s);
      assert s[start..start + w] == s[..w];
    } else {
      StepBack(k, w, start);
      ChunkAt(w, s[w..], k - 1, start - w);
      ChunkAtStep(w, s, k, start);
    }
  }

  /** The step of ChunkAt: chunk k of s is chunk k - 1 of s past its first w bits. */
  lemma ChunkAtStep(w: nat, s: seq<bit>, k: nat, start: nat)
    requires w >= 1 && k >= 1 && w <= start && start + w <= |s|
    requires k - 1 < |Chunks(w, s[w..])| && Chunks(w, s[w..])[k - 1] == Value(s[w..][start - w..start])
    ensures k < |Chunks(w, s)| && Chunks(w, s)[k] == Value(s[start..start + w])
  {
    ShiftedBlock(s, w, start);
    ConsAt(Value(s[..w]), Chunks(w, s[w..]), k, Value(s[start..start + w]));
    ChunksTail(w, s);
  }

  /** The w bits at start - w past the first w bits are the w bits at start. */
  lemma ShiftedBlock(s: seq<bit>, w: nat, start: nat)
    requires w <= start && start + w <= |s|
    ensures Value(s[w..][start - w..start]) == Value(s[start..start + w])
  {
    SliceShift(s, w, start - w, start);
  }

  /** Entry k of a sequence with one entry in front is entry k - 1 of the rest. */
  lemma ConsAt(a: nat, t: seq<nat>, k: nat, x: nat)
    requires 1 <= k <= |t| && t[k - 1] == x
    ensures k < |[a] + t| && ([a] + t)[k] == x
  {
  }

  /** The chunk holding the last bit of a stream is its last chunk, zero-padded. */
  lemma {:induction false} LastChunkAt(w: nat, s: seq<bit>, k: nat, start: nat)
    requires w >= 1 && start == k * w && start < |s| <= start + w
    ensures |Chunks(w, s)| == k + 1
    ensures Chunks(w, s)[k] == Value(s[start..] + Zeros(start + w - |s|))
    decreases k
  {
    if k == 0 {
      assert start == 0;
      LastChunkFirst(w, s, start);
    } else {
      StepBack(k, w, start);
      LastChunkAt(w, s[w..], k - 1, start - w);
      LastChunkAtStep(w, s, k, start);
    }
  }

  /** A stream of at most w bits is its only chunk, zero-padded. */
  lemma LastChunkFirst(w: nat, s: seq<bit>, start: nat)
    requires start == 0 && 1 <= |s| <= w
    ensures |Chunks(w, s)| == 1
    ensures Chunks(w, s)[0] == Value(s[start..] + Zeros(start + w - |s|))
  {
    ChunksShort(w, s);
    assert s[start..] == s;
  }

  /** The step of LastChunkAt: the chunks of s are one more than those past its first w bits. */
  lemma LastChunkAtStep(w: nat, s: seq<bit>, k: nat, start: nat)
    requires w >= 1 && k >= 1 && w <= start < |s| <= start + w
    requires |Chunks(w, s[w..])| == k
    requires Chunks(w, s[w..])[k - 1] == Value(s[w..][start - w..] + Zeros(start + w - |s|))
    ensures |Chunks(w, s)| == k + 1
    ensures Chunks(w, s)[k] == Value(s[start..] + Zeros(start + w - |s|))
  {
    ChunksTail(w, s);
    assert s[w..][start - w..] == s[start..];
  }

  /** A full block is the chunk of the stream at its position. */
  lemma BlockIsChunk(w: nat, bits: seq<bit>, k: nat, n: nat)
    requires w >= 1 && k < n && n * w < |bits|
    ensures k < |Chunks(w, bits)| && Chunks(w, bits)[k] == Block(w, bits, k)
  {
    if k + 1 < n {
      MulLess(k + 1, n, w);
    }
    MulSucc(k, w);
    ChunkAt(w, bits, k, k * w);
  }

  /**
   * Full blocks followed by the chunk that received the last bit, zero-padded,
   * are the chunks of the stream.
   */
  lemma AllChunks(w: nat, bits: seq<bit>, s: seq<nat>, start: nat)
    requires w >= 1 && |s| >= 1 && start == (|s| - 1) * w && start < |bits| <= start + w
    requires forall k :: 0 <= k < |s| - 1 ==> s[k] == Block(w, bits, k)
    requires s[|s| - 1] == Partial(w, bits, start, |bits|)
    ensures Chunks(w, bits) == s
  {
    var n := |s| - 1;
    LastChunkAt(w, bits, n, start);
    ValueZeros(bits[start..], start + w - |bits|);
    PartialValue(w, bits, start, |bits|);
    assert bits[start..|bits|] == bits[start..];
    forall k | 0 <= k < n
      ensures Chunks(w, bits)[k] == s[k]
    {
      BlockIsChunk(w, bits, k, n);
    }
  }

  /**
   * The state of data_chunk between two bits: chunks 0 .. output-1 are the
   * full w-bit blocks of the stream, and chunk output, which starts at bit
   * start, has received bits start .. p - 1.
   */
  ghost predicate Filling(chunks: array<nat>, w: nat, bits: seq<bit>, output: int, start: int, p: int)
    reads chunks
  {
    0 <= output < chunks.Length && start == output * w && 0 <= start <= p <= |bits| && p - start <= w &&
    chunks[output] == Partial(w, bits, start, p) &&
    forall k :: 0 <= k < output ==> chunks[k] == Block(w, bits, k)
  }

  /** Once every bit has been dropped in, the chunks started are the stream's chunks. */
  lemma Finished(chunks: array<nat>, w: nat, bits: seq<bit>, output: int, start: int, p: int)
    requires w >= 1 && p == |bits| && start < p && Filling(chunks, w, bits, output, start, p)
    ensures chunks[..output + 1] == Chunks(w, bits)
  {
    AllChunks(w, bits, chunks[..output + 1], start);
  }

  /**
   * One statement of data_chunk's loop: bit bitsIn of byte input, counted
   * from the most significant, is or-ed into chunks[output] at the position
   * of the chunk's next bit, counted from its most significant.
   */
  method Dribble(chunkBits: nat, hash: seq<byte>, input: nat, bitsIn: nat,
                 chunks: array<nat>, output: nat, bitsOut: nat,
                 ghost bits: seq<bit>, ghost start: nat, ghost p: nat)
    returns (ghost p': nat)
    requires input < |hash| && bitsIn < 8 && |bits| == 8 * |hash| && p == 8 * input + bitsIn
    requires forall i, j {:trigger ByteBit(hash, i, j)} :: 0 <= i < |hash| && 0 <= j < 8 ==> bits[8 * i + j] == ByteBit(hash, i, j)
    requires start + bitsOut == p && bitsOut < chunkBits
    requires Filling(chunks, chunkBits, bits, output, start, p)
    modifies chunks
    ensures p' == p + 1 && Filling(chunks, chunkBits, bits, output, start, p')
    ensures forall k :: output < k < chunks.Length ==> chunks[k] == old(chunks[k])
  {
    var bit := BitAt(hash[input], 7 - bitsIn);
    assert bit == ByteBit(hash, input, bitsIn);
    chunks[output] := Or(chunks[output], Shl(bit, (chunkBits - 1) - bitsOut));
    p' := p + 1;
  }

  /** A full chunk is closed: the next one starts at bit p and is cleared. */
  method NextChunk(chunks: array<nat>, chunkBits: nat, output: nat, ghost bits: seq<bit>, ghost start: nat, ghost p: nat)
    returns (output': nat, ghost start': nat)
    requires chunkBits >= 1 && p == start + chunkBits && p < |bits| && chunks.Length * chunkBits >= |bits|
    requires Filling(chunks, chunkBits, bits, output, start, p)
    modifies chunks
    ensures output' == output + 1 && start' == p && Filling(chunks, chunkBits, bits, output', start', p)
    ensures forall k :: output' < k < chunks.Length ==> chunks[k] == old(chunks[k])
  {
    FullChunk(chunkBits, bits, start);
    MulSucc(output, chunkBits);
    ChunkIndexBound(output + 1, chunkBits, chunks.Length, p);
    output' := output + 1;
    start' := p;
    chunks[output'] := 0;
  }

  /**
   * data_chunk: distributes the bits of the first inputSize bytes of hash
   * over chunks[0], chunks[1], ..., chunkBits bits each, most significant
   * bit first, the last chunk zero-padded. Every chunk it starts is first
   * cleared; the chunks after the last one are left alone. The caller must
   * provide storage for every chunk.
   */
  method DataChunk(chunkBits: int, inputSize: int, hash: seq<byte>, chunks: array<nat>)
    requires 1 <= chunkBits <= 31
    requires 1 <= inputSize <= |hash|
    requires chunks.Length * chunkBits >= 8 * inputSize
    modifies chunks
    ensures var cs := Chunks(chunkBits, Bits(hash[..inputSize]));
      |cs| <= chunks.Length && chunks[..|cs|] == cs &&
      forall k :: |cs| <= k < chunks.Length ==> chunks[k] == old(chunks[k])
  {
    ghost var bits := StreamOf(hash[..inputSize]);
    var input, output, bitsIn, bitsOut := 0, 0, 0, 0;
    ghost var start, p := 0, 0;
    ChunkIndexBound(0, chunkBits, chunks.Length, 0);
    chunks[0] := 0;
    while true
      invariant 0 <= input < inputSize && 0 <= bitsIn < 8 && p == 8 * input + bitsIn
      invariant 0 <= bitsOut < chunkBits && p == start + bitsOut
      invariant Filling(chunks, chunkBits, bits, output, start, p)
      invariant forall k :: output < k < chunks.Length ==> chunks[k] == old(chunks[k])
      decreases 8 * inputSize - p
    {
      assert hash[input] == hash[..inputSize][input];
      p := Dribble(chunkBits, hash[..inputSize], input, bitsIn, chunks, output, bitsOut, bits, start, p);
      bitsIn := bitsIn + 1;
      bitsOut := bitsOut + 1;
      if bitsIn == 8 {
        bitsIn := 0;
        input := input + 1;
        if input == inputSize {
          Finished(chunks, chunkBits, bits, output, start, p);
          StreamIsBits(bits, hash[..inputSize]);
          break;
        }
      }
      if bitsOut == chunkBits {
        output, start := NextChunk(chunks, chunkBits, output, bits, start, p);
        bitsOut := 0;
      }
    }
  }

  // ---------------------------------------------------------------------
  // The checksum

  /** Sum of the 2-bit fields of a bit stream, counted from its end. */
  function FieldSum(s: seq<bit>): nat
    decreases |s|
  {
    if |s| < 2 then 0 else FieldSum(s[..|s| - 2]) + 2 * (s[|s| - 2] as nat) + s[|s| - 1] as nat
  }

  /** The RFC 2289 checksum: the 2-bit fields of the 64 bits summed, modulo 4. */
  function Checksum(v: seq<byte>): (r: nat)
    ensures r < 4
  {
    FieldSum(Bits(v)) % 4
  }

  lemma {:induction false} FieldSumAppend(s: seq<bit>, t: seq<bit>)
    requires |t| % 2 == 0
    ensures FieldSum(s + t) == FieldSum(s) + FieldSum(t)
    decreases |t|
  {
    if t == [] {
      assert s + t == s;
    } else {
      FieldSumAppend(s, t[..|t| - 2]);
      assert (s + t)[..|s + t| - 2] == s + t[..|t| - 2];
    }
  }

  /** The lowest 2-bit field of a 2k-bit number is its value modulo 4. */
  lemma FieldStep(k: nat, x: nat)
    requires k >= 1
    ensures FieldSum(WidthBits(2 * k, x)) == FieldSum(WidthBits(2 * k - 2, x / 4)) + x % 4
  {
    var a, b := (x / 2) % 2, x % 2;
    assert x / 2 / 2 == x / 4;
    assert WidthBits(2 * k, x) == WidthBits(2 * k - 2, x / 4) + [a] + [b];
    assert WidthBits(2 * k, x)[..2 * k - 2] == WidthBits(2 * k - 2, x / 4);
  }

  /** The four 2-bit fields of a byte, as hash_break masks them out. */
  lemma ByteFields(x: byte)
    ensures FieldSum(WidthBits(8, x)) == x % 4 + (x / 4) % 4 + (x / 16) % 4 + (x / 64) % 4
  {
    FieldStep(4, x);
    FieldStep(3, x / 4);
    FieldStep(2, x / 16);
    FieldStep(1, x / 64);
    assert x / 4 / 4 == x / 16 && x / 16 / 4 == x / 64;
  }

  /** The six dictionary indices of a 64-bit value: its bits and the checksum, 11 at a time. */
  function WordIndices(v: seq<byte>): (r: seq<nat>)
    requires |v| == 8
  {
    Chunks(11, Bits(v) + WidthBits(2, Checksum(v)))
  }

  /**
   * Six indices into the 2048-word dictionary whose 66 bits are exactly the
   * value followed by its checksum.
   */
  lemma WordIndicesBits(v: seq<byte>)
    requires |v| == 8
    ensures |WordIndices(v)| == 6
    ensures forall j :: 0 <= j < 6 ==> WordIndices(v)[j] < 2048
    ensures ChunkBits(11, WordIndices(v)) == Bits(v) + WidthBits(2, Checksum(v))
  {
    var s := Bits(v) + WidthBits(2, Checksum(v));
    ChunksCount(11, s);
    var z := ChunksBits(11, s);
    ChunkBitsLength(11, WordIndices(v));
    ChunksBound(11, s);
    assert z == 0;
    assert s + Zeros(0) == s;
    SmallPowers();
  }

  /** Two streams that agree on a full chunk's bits agree on that chunk. */
  lemma SameChunk(w: nat, s: seq<bit>, s': seq<bit>, k: nat, start: nat)
    requires w >= 1 && start == k * w && start + w <= |s| && start + w <= |s'|
    requires s[start..start + w] == s'[start..start + w]
    ensures k < |Chunks(w, s)| && k < |Chunks(w, s')| && Chunks(w, s)[k] == Chunks(w, s')[k]
  {
    ChunkAt(w, s, k, start);
    ChunkAt(w, s', k, start);
  }

  /** The last chunk of 64 bits, its 9 bits padded by two zeros, or-ed with c < 4. */
  lemma ChecksumTail(bits: seq<bit>, c: nat)
    requires |bits| == 64 && c < 4
    ensures Or(Value(bits[55..] + Zeros(2)), c) == Value((bits + WidthBits(2, c))[55..])
  {
    var tail := bits[55..];
    assert (bits + WidthBits(2, c))[55..] == tail + WidthBits(2, c);
    ValueZeros(tail, 2);
    ValueAppend(tail, WidthBits(2, c));
    ValueWidthBits(2, c);
    SmallPowers();
    OrShifted(Value(tail), 2, c);
  }

  /** Or-ing the checksum into the last chunk of the value's 64 bits gives the indices. */
  lemma ChecksumIntoLastChunk(v: seq<byte>)
    requires |v| == 8
    ensures var cs := Chunks(11, Bits(v));
      |cs| == 6 && cs[5 := Or(cs[5], Checksum(v))] == WordIndices(v)
  {
    var bits := Bits(v);
    var c := Checksum(v);
    var s := bits + WidthBits(2, c);
    LastChunkAt(11, bits, 5, 55);
    LastChunkAt(11, s, 5, 55);
    assert s[55..] + Zeros(0) == s[55..];
    forall j | 0 <= j < 5
      ensures Chunks(11, bits)[j] == Chunks(11, s)[j]
    {
      var start := 11 * j;
      assert start == j * 11 && start + 11 <= 55;
      assert s[start..start + 11] == bits[start..start + 11];
      SameChunk(11, bits, s, j, start);
    }
    ChecksumTail(bits, c);
  }

  /**
   * hash_break: chunks the first 8 bytes of hash into 11-bit indices and
   * Or-s the checksum, computed field by field with masks and shifts, into
   * the low two bits of the sixth.
   */
  method HashBreak(hash: seq<byte>, chunks: array<nat>)
    requires |hash| >= 8 && chunks.Length == 6
    modifies chunks
    ensures chunks[..] == WordIndices(hash[..8])
  {
    DataChunk(11, 8, hash, chunks);
    ChecksumIntoLastChunk(hash[..8]);
    ghost var split := chunks[..];
    var checksum: nat := 0;
    var i := 0;
    while i < 8
      invariant 0 <= i <= 8
      invariant checksum == FieldSum(Bits(hash[..i]))
      invariant chunks[..] == split
    {
      var b := hash[i];
      checksum := checksum + b % 4;
      checksum := checksum + (b / 4) % 4;
      checksum := checksum + (b / 16) % 4;
      checksum := checksum + (b / 64) % 4;
      assert hash[..i + 1] == hash[..i] + [b];
      ChunkBitsAppend(8, hash[..i], [b]);
      assert ChunkBits(8, [b]) == WidthBits(8, b) + ChunkBits(8, []);
      assert WidthBits(8, b) + [] == WidthBits(8, b);
      FieldSumAppend(Bits(hash[..i]), WidthBits(8, b));
      ByteFields(b);
      i := i + 1;
    }
    chunks[5] := Or(chunks[5], checksum % 4);
  }

  /**
   * The example in the comment on data_chunk: the bytes 01101101 01001101
   * cut into 7-bit chunks are 0110110, 1010011 and 0100000.
   */
  lemma DataChunkExample()
    ensures Chunks(7, Bits([0x6D, 0x4D])) == [54, 83, 32]
  {
    var bits := ExampleStream();
    ExampleBits();
    FirstSlice();
    SecondSlice();
    LastSlice();
    SmallValue(54);
    SmallValue(83);
    SmallValue(32);
    var c := bits[14..] + Zeros(5);
    assert Chunks(7, bits[14..]) == [Value(c)];
    assert bits[7..][..7] == bits[7..14] && bits[7..][7..] == bits[14..];
    assert Chunks(7, bits[7..]) == [Value(bits[7..14])] + Chunks(7, bits[14..]);
    assert Chunks(7, bits) == [Value(bits[..7])] + Chunks(7, bits[7..]);
  }

  /** The bits of 0x6D 0x4D. */
  function ExampleStream(): seq<bit>
  {
    [0, 1, 1, 0, 1, 1, 0, 1, 0, 1, 0, 0, 1, 1, 0, 1]
  }

  lemma FirstSlice()
    ensures ExampleStream()[..7] == WidthBits(7, 54)
  {
    assert WidthBits(1, 0) == WidthBits(0, 0) + [0];
    assert WidthBits(2, 1) == WidthBits(1, 0) + [1];
    assert WidthBits(3, 3) == WidthBits(2, 1) + [1];
    assert WidthBits(4, 6) == WidthBits(3, 3) + [0];
    assert WidthBits(5, 13) == WidthBits(4, 6) + [1];
    assert WidthBits(6, 27) == WidthBits(5, 13) + [1];
    assert WidthBits(7, 54) == WidthBits(6, 27) + [0];
  }

  lemma SecondSlice()
    ensures ExampleStream()[7..14] == WidthBits(7, 83)
  {
    assert WidthBits(1, 1) == WidthBits(0, 0) + [1];
    assert WidthBits(2, 2) == WidthBits(1, 1) + [0];
    assert WidthBits(3, 5) == WidthBits(2, 2) + [1];
    assert WidthBits(4, 10) == WidthBits(3, 5) + [0];
    assert WidthBits(5, 20) == WidthBits(4, 10) + [0];
    assert WidthBits(6, 41) == WidthBits(5, 20) + [1];
    assert WidthBits(7, 83) == WidthBits(6, 41) + [1];
  }

  lemma LastSlice()
    ensures ExampleStream()[14..] + Zeros(5) == WidthBits(7, 32)
  {
    assert WidthBits(1, 0) == WidthBits(0, 0) + [0];
    assert WidthBits(2, 1) == WidthBits(1, 0) + [1];
    assert WidthBits(3, 2) == WidthBits(2, 1) + [0];
    assert WidthBits(4, 4) == WidthBits(3, 2) + [0];
    assert WidthBits(5, 8) == WidthBits(4, 4) + [0];
    assert WidthBits(6, 16) == WidthBits(5, 8) + [0];
    assert WidthBits(7, 32) == WidthBits(6, 16) + [0];
    assert Zeros(5) == [0, 0, 0, 0, 0];
  }

  /** A value below 2^7 read back from its 7 bits. */
  lemma SmallValue(x: nat)
    requires x < 128
    ensures Value(WidthBits(7, x)) == x
  {
    ValueWidthBits(7, x);
    SmallPowers();
  }

  lemma ExampleBits()
    ensures Bits([0x6D, 0x4D]) == ExampleStream()
  {
    TwoBytes(0x6D, 0x4D);
    HighByteBits();
    LowByteBits();
    ExampleHalves();
  }

  /** The example stream is the bits of 0x6D followed by those of 0x4D. */
  lemma ExampleHalves()
    ensures [0, 1, 1, 0, 1, 1, 0, 1] + [0, 1, 0, 0, 1, 1, 0, 1] == ExampleStream()
  {
  }

  /** The bits of two bytes are the bits of the first followed by those of the second. */
  lemma TwoBytes(x: byte, y: byte)
    ensures Bits([x, y]) == WidthBits(8, x) + WidthBits(8, y)
  {
    var b: seq<byte> := [x, y];
    assert b[1..] == [y];
    assert ChunkBits(8, [y]) == WidthBits(8, y) + ChunkBits(8, []);
    assert ChunkBits(8, b) == WidthBits(8, x) + ChunkBits(8, [y]);
    assert WidthBits(8, y) + [] == WidthBits(8, y);
  }

  lemma HighByteBits()
    ensures WidthBits(8, 0x6D) == [0, 1, 1, 0, 1, 1, 0, 1]
  {
    assert WidthBits(1, 0) == WidthBits(0, 0) + [0];
    assert WidthBits(2, 1) == WidthBits(1, 0) + [1];
    assert WidthBits(3, 3) == WidthBits(2, 1) + [1];
    assert WidthBits(4, 6) == WidthBits(3, 3) + [0];
    assert WidthBits(5, 13) == WidthBits(4, 6) + [1];
    assert WidthBits(6, 27) == WidthBits(5, 13) + [1];
    assert WidthBits(7, 54) == WidthBits(6, 27) + [0];
    assert WidthBits(8, 109) == WidthBits(7, 54) + [1];
  }

  lemma LowByteBits()
    ensures WidthBits(8, 0x4D) == [0, 1, 0, 0, 1, 1, 0, 1]
  {
    assert WidthBits(1, 0) == WidthBits(0, 0) + [0];
    assert WidthBits(2, 1) == WidthBits(1, 0) + [1];
    assert WidthBits(3, 2) == WidthBits(2, 1) + [0];
    assert WidthBits(4, 4) == WidthBits(3, 2) + [0];
    assert WidthBits(5, 9) == WidthBits(4, 4) + [1];
    assert WidthBits(6, 19) == WidthBits(5, 9) + [1];
    assert WidthBits(7, 38) == WidthBits(6, 19) + [0];
    assert WidthBits(8, 77) == WidthBits(7, 38) + [1];
  }
}
