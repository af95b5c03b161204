/**
 * Turning dictionary indices back into bytes (combine_chunks in
 * skey_read.c): the low chunkBits bits of every chunk, most significant
 * first, are packed into consecutive bytes, most significant bit first.
 */
module Combiner {
  import opened Binary

  /** A bit stream padded with zero bits up to the next whole byte, one whole zero byte if it already ends on one. */
  function Padded(s: seq<bit>): (r: seq<bit>)
    ensures |r| % 8 == 0 && |r| / 8 == |s| / 8 + 1
  {
    PadLength(|s|);
    s + Zeros(8 - |s| % 8)
  }

  lemma PadLength(n: nat)
    ensures (n + 8 - n % 8) % 8 == 0 && (n + 8 - n % 8) / 8 == n / 8 + 1
  {
    DivMod(n + 8 - n % 8, 8, n / 8 + 1, 0);
  }

  /**
   * The bytes combine_chunks leaves in bytes 0 .. ret of its buffer: the low
   * w bits of each chunk in turn, zero-padded to whole bytes, and a last byte
   * that it always starts.
   */
  function Combined(w: nat, cs: seq<nat>): (r: seq<byte>)
    ensures |r| == w * |cs| / 8 + 1
  {
    ChunkBitsLength(w, cs);
    Bytes(Padded(ChunkBits(w, cs)))
  }

  /** Chunk i's w bits sit at positions w * i .. w * i + w - 1 of the chunks' bit stream. */
  lemma ChunkSlice(w: nat, cs: seq<nat>, i: nat)
    requires i < |cs|
    ensures w * i + w <= |ChunkBits(w, cs)| && w * (i + 1) == w * i + w
    ensures ChunkBits(w, cs)[w * i .. w * i + w] == WidthBits(w, cs[i])
  {
    assert cs[..i] + cs[i..] == cs;
    ChunkBitsAppend(w, cs[..i], cs[i..]);
    ChunkBitsLength(w, cs[..i]);
    assert cs[i..][0] == cs[i] && cs[i..][1..] == cs[i + 1..];
    assert ChunkBits(w, cs[i..]) == WidthBits(w, cs[i]) + ChunkBits(w, cs[i + 1..]);
  }


  /** Bit j of a w-bit field of the stream, counted from the most significant. */
  lemma BitOfChunk(bits: seq<bit>, start: nat, w: nat, x: nat, j: nat)
    requires start + w <= |bits| && bits[start .. start + w] == WidthBits(w, x) && j < w
    ensures bits[start + j] == BitAt(x, w - 1 - j)
  {
    WidthBitsAt(w, x, j);
    assert bits[start + j] == bits[start .. start + w][j];
  }

  /** A byte that the stream fills completely is the same in the padded stream. */
  lemma PaddedByte(bits: seq<bit>, k: nat)
    requires 8 * k + 8 <= |bits|
    ensures k < |Bytes(Padded(bits))| && Bytes(Padded(bits))[k] == Block(8, bits, k)
  {
    var t := Padded(bits);
    assert t[8 * k .. 8 * k + 8] == bits[8 * k .. 8 * k + 8];
  }

  /** The byte holding the end of the stream is the last one, padded with zeros. */
  lemma PaddedLast(bits: seq<bit>, n: nat)
    requires 8 * n <= |bits| < 8 * n + 8
    ensures |Bytes(Padded(bits))| == n + 1 && Bytes(Padded(bits))[n] == Partial(8, bits, 8 * n, |bits|)
  {
    var r := |bits| - 8 * n;
    DivMod(|bits|, 8, n, r);
    var t := Padded(bits);
    assert t[8 * n .. 8 * n + 8] == bits[8 * n..] + Zeros(8 - r);
    ValueZeros(bits[8 * n..], 8 - r);
    PartialValue(8, bits, 8 * n, |bits|);
    assert bits[8 * n .. |bits|] == bits[8 * n..];
  }

  /**
   * Full bytes followed by the byte that received the last bit are the
   * padded stream's bytes.
   */
  lemma AllBytes(bits: seq<bit>, s: seq<nat>)
    requires |s| >= 1 && 8 * (|s| - 1) <= |bits| < 8 * |s|
    requires forall k :: 0 <= k < |s| - 1 ==> s[k] == Block(8, bits, k)
    requires s[|s| - 1] == Partial(8, bits, 8 * (|s| - 1), |bits|)
    ensures s == Bytes(Padded(bits))
  {
    PaddedLast(bits, |s| - 1);
    forall k | 0 <= k < |s|
      ensures s[k] == Bytes(Padded(bits))[k]
    {
      PackedByte(bits, s, k);
    }
  }

  /** One byte of AllBytes. */
  lemma PackedByte(bits: seq<bit>, s: seq<nat>, k: nat)
    requires |s| >= 1 && 8 * (|s| - 1) <= |bits| < 8 * |s| && k < |s|
    requires forall k :: 0 <= k < |s| - 1 ==> s[k] == Block(8, bits, k)
    requires s[|s| - 1] == Partial(8, bits, 8 * (|s| - 1), |bits|)
    ensures k < |Bytes(Padded(bits))| && s[k] == Bytes(Padded(bits))[k]
  {
    var n := |s| - 1;
    PaddedLast(bits, n);
    if k < n {
      assert 8 * k + 8 <= |bits|;
      PaddedByte(bits, k);
      assert s[k] == Block(8, bits, k);
    }
  }

  /** A byte that starts at or before the end of the stream lies in the buffer. */
  lemma ByteIndexBound(k: nat, q: nat, n: nat, len: nat)
    requires 8 * k == q <= n && n / 8 < len
    ensures k < len
  {
    DivMod(n, 8, n / 8, n % 8);
  }

  /**
   * The state between two bits: bytes 0 .. out-1 are the full bytes of the
   * first q bits of the stream, byte out holds the rest of them at its high
   * end, and bitsOut is the position in it of the next bit.
   */
  ghost predicate Packing(combined: array<byte>, bits: seq<bit>, out: int, bitsOut: int, q: int)
    reads combined
  {
    0 <= bitsOut <= 7 && 0 <= out < combined.Length && q == 8 * out + (7 - bitsOut) && q <= |bits| &&
    combined[out] == Partial(8, bits, 8 * out, q) &&
    forall k :: 0 <= k < out ==> combined[k] == Block(8, bits, k)
  }

  /**
   * The statement that moves one bit: bit bitsIn of the current chunk,
   * which is bit q of the stream, is or-ed into combined[out] at bitsOut.
   */
  method Deposit(combined: array<byte>, out: nat, bitsOut: nat, chunk: nat, bitsIn: nat,
                 ghost bits: seq<bit>, ghost q: nat)
    requires out < combined.Length && bitsOut < 8 && q < |bits| && q == 8 * out + (7 - bitsOut)
    requires bits[q] == BitAt(chunk, bitsIn)
    requires combined[out] == Partial(8, bits, 8 * out, q)
    modifies combined
    ensures combined[out] == Partial(8, bits, 8 * out, q + 1)
    ensures forall k :: 0 <= k < combined.Length && k != out ==> combined[k] == old(combined[k])
  {
    PartialBound(8, bits, 8 * out, q + 1);
    SmallPowers();
    combined[out] := Or(combined[out], Shl(BitAt(chunk, bitsIn), bitsOut));
  }

  /**
   * The bookkeeping after each bit: the next bit goes one position lower;
   * once a byte is full the next byte is started and cleared.
   */
  method NextBit(combined: array<byte>, out: nat, bitsOut: nat, ghost bits: seq<bit>, ghost q: nat)
    returns (out': nat, bitsOut': int)
    requires out < combined.Length && bitsOut <= 7 && q == 8 * out + (8 - bitsOut) && q <= |bits|
    requires |bits| / 8 < combined.Length
    requires combined[out] == Partial(8, bits, 8 * out, q)
    requires forall k :: 0 <= k < out ==> combined[k] == Block(8, bits, k)
    modifies combined
    ensures Packing(combined, bits, out', bitsOut', q)
    ensures out <= out' && forall k :: out' < k < combined.Length ==> combined[k] == old(combined[k])
  {
    out', bitsOut' := out, bitsOut - 1;
    if bitsOut' == -1 {
      FullChunk(8, bits, 8 * out);
      ByteIndexBound(out + 1, q, |bits|, combined.Length);
      out' := out + 1;
      bitsOut' := 7;
      combined[out'] := 0;
    }
  }

  /** Once the whole stream is packed, the started bytes are its padded bytes. */
  lemma Finished(combined: array<byte>, bits: seq<bit>, out: int, bitsOut: int, q: int)
    requires q == |bits| && Packing(combined, bits, out, bitsOut, q)
    ensures out == |bits| / 8 && combined[..out + 1] == Bytes(Padded(bits))
  {
    DivMod(|bits|, 8, out, 7 - bitsOut);
    AllBytes(bits, combined[..out + 1]);
  }

  /** One pass of the inner loop of combine_chunks: bit q of the stream moves into combined. */
  method MoveBit(combined: array<byte>, out: nat, bitsOut: int, chunk: nat, bitsIn: nat,
                 ghost bits: seq<bit>, ghost q: nat)
    returns (out': nat, bitsOut': int)
    requires q < |bits| && bits[q] == BitAt(chunk, bitsIn) && |bits| / 8 < combined.Length
    requires Packing(combined, bits, out, bitsOut, q)
    modifies combined
    ensures Packing(combined, bits, out', bitsOut', q + 1)
    ensures out <= out' && forall k :: out' < k < combined.Length ==> combined[k] == old(combined[k])
  {
    Deposit(combined, out, bitsOut, chunk, bitsIn, bits, q);
    out', bitsOut' := NextBit(combined, out, bitsOut, bits, q + 1);
  }

  /**
   * The inner loop of combine_chunks: the low chunkBits bits of one chunk,
   * most significant first, which are bits start .. start + chunkBits - 1 of
   * the stream, are moved one by one into combined.
   */
  method PackChunk(combined: array<byte>, chunk: nat, chunkBits: nat, out: nat, bitsOut: int,
                   ghost bits: seq<bit>, ghost start: nat)
    returns (out': nat, bitsOut': int, ghost end: nat)
    requires start + chunkBits <= |bits| && bits[start .. start + chunkBits] == WidthBits(chunkBits, chunk)
    requires |bits| / 8 < combined.Length
    requires Packing(combined, bits, out, bitsOut, start)
    modifies combined
    ensures end == start + chunkBits && Packing(combined, bits, out', bitsOut', end)
    ensures out <= out' && forall k :: out' < k < combined.Length ==> combined[k] == old(combined[k])
  {
    out', bitsOut' := out, bitsOut;
    ghost var q := start;
    var bitsIn := chunkBits as int - 1;
    while bitsIn >= 0
      invariant -1 <= bitsIn < chunkBits && q == start + (chunkBits - 1 - bitsIn)
      invariant Packing(combined, bits, out', bitsOut', q)
      invariant out <= out' && forall k :: out' < k < combined.Length ==> combined[k] == old(combined[k])
    {
      BitOfChunk(bits, start, chunkBits, chunk, chunkBits - 1 - bitsIn);
      out', bitsOut' := MoveBit(combined, out', bitsOut', chunk, bitsIn, bits, q);
      q := q + 1;
      bitsIn := bitsIn - 1;
    }
    end := q;
  }

  /**
   * combine_chunks: packs the low chunkBits bits of chunks[0 .. numChunks-1]
   * into combined, clearing every byte before its first bit, and returns the
   * index of the last byte it started, floor(chunkBits * numChunks / 8).
   * That byte is always started, so the buffer needs one byte more than the
   * full bytes.
   */
  method CombineChunks(chunkBits: int, numChunks: int, combined: array<byte>, chunks: seq<nat>)
    returns (out: int)
    requires 1 <= chunkBits <= 31 && 0 <= numChunks <= |chunks|
    requires combined.Length > chunkBits * numChunks / 8
    modifies combined
    ensures out == chunkBits * numChunks / 8
    ensures combined[..out + 1] == Combined(chunkBits, chunks[..numChunks])
    ensures forall k :: out < k < combined.Length ==> combined[k] == old(combined[k])
  {
    ghost var cs := chunks[..numChunks];
    ghost var bits := ChunkBits(chunkBits, cs);
    ChunkBitsLength(chunkBits, cs);
    assert |bits| == chunkBits * numChunks;
    assert |bits| / 8 < combined.Length;
    ghost var q: nat := 0;
    out := 0;
    var bitsOut := 7;
    combined[0] := 0;
    var i := 0;
    while i < numChunks
      invariant 0 <= i <= numChunks && q == chunkBits * i
      invariant Packing(combined, bits, out, bitsOut, q)
      invariant forall k :: out < k < combined.Length ==> combined[k] == old(combined[k])
    {
      ChunkSlice(chunkBits, cs, i);
      out, bitsOut, q := PackChunk(combined, chunks[i], chunkBits, out, bitsOut, bits, q);
      i := i + 1;
    }
    Finished(combined, bits, out, bitsOut, q);
  }

  // ---------------------------------------------------------------------
  // What the combined bytes mean

  /**
   * The combined bytes, read bit by bit, are the low w bits of each chunk
   * in turn followed by zero bits up to the end of the last byte.
   */
  lemma CombinedBits(w: nat, cs: seq<nat>)
    ensures Bits(Combined(w, cs)) == ChunkBits(w, cs) + Zeros(8 - w * |cs| % 8)
  {
    ChunkBitsLength(w, cs);
    BitsOfBytes(Padded(ChunkBits(w, cs)));
  }

  /** Chunks that agree on their low w bits have the same bit stream. */
  lemma {:induction false} ChunkBitsLow(w: nat, cs: seq<nat>, cs': seq<nat>)
    requires |cs| == |cs'|
    requires forall i :: 0 <= i < |cs| ==> cs[i] % Pow2(w) == cs'[i] % Pow2(w)
    ensures ChunkBits(w, cs) == ChunkBits(w, cs')
  {
    if cs != [] {
      WidthBitsLow(w, cs[0]);
      WidthBitsLow(w, cs'[0]);
      forall i | 0 <= i < |cs| - 1
        ensures cs[1..][i] % Pow2(w) == cs'[1..][i] % Pow2(w)
      {
        assert cs[1..][i] == cs[i + 1] && cs'[1..][i] == cs'[i + 1];
      }
      ChunkBitsLow(w, cs[1..], cs'[1..]);
    }
  }

  /** combine_chunks ignores every bit of a chunk above bit w - 1. */
  lemma HighBitsIgnored(w: nat, cs: seq<nat>, cs': seq<nat>)
    requires |cs| == |cs'|
    requires forall i :: 0 <= i < |cs| ==> cs[i] % Pow2(w) == cs'[i] % Pow2(w)
    ensures Combined(w, cs) == Combined(w, cs')
  {
    ChunkBitsLow(w, cs, cs');
  }

  /** The whole bytes at the front of a stream are the front of its bytes. */
  lemma BytesPrefix(s: seq<bit>, t: seq<bit>)
    requires |s| % 8 == 0 && |t| % 8 == 0
    ensures |s| / 8 <= |Bytes(s + t)| && Bytes(s + t)[..|s| / 8] == Bytes(s)
  {
    DivMod(|s + t|, 8, |s| / 8 + |t| / 8, 0);
    forall j | 0 <= j < |s| / 8
      ensures Bytes(s + t)[j] == Bytes(s)[j]
    {
      MulLess(j, |s| / 8, 8);
      assert (s + t)[8 * j .. 8 * j + 8] == s[8 * j .. 8 * j + 8];
    }
  }

  /** Padding appends zeros after whatever follows the bits of b. */
  lemma PaddedAfter(s: seq<bit>, t: seq<bit>)
    requires |s| % 8 == 0
    ensures Padded(s + t) == s + (t + Zeros(8 - |t| % 8))
    ensures |t + Zeros(8 - |t| % 8)| % 8 == 0
  {
    DivMod(|s + t|, 8, |s| / 8 + |t| / 8, |t| % 8);
    PadLength(|t|);
  }

  /** A padded stream that starts with the bits of b packs into bytes that start with b. */
  lemma PaddedPrefix(b: seq<byte>, t: seq<bit>)
    ensures |b| < |Bytes(Padded(Bits(b) + t))| && Bytes(Padded(Bits(b) + t))[..|b|] == b
  {
    var s := Bits(b);
    var z := t + Zeros(8 - |t| % 8);
    DivMod(|s|, 8, |b|, 0);
    PaddedAfter(s, t);
    BytesPrefix(s, z);
    BytesOfBits(b);
  }

  /** Chunks whose bit stream starts with the bits of b combine to bytes that start with b. */
  lemma CombinedPrefix(w: nat, cs: seq<nat>, b: seq<byte>, t: seq<bit>)
    requires ChunkBits(w, cs) == Bits(b) + t
    ensures |b| < |Combined(w, cs)| && Combined(w, cs)[..|b|] == b
  {
    PaddedPrefix(b, t);
  }

  /**
   * combine_chunks undoes data_chunk: chunking the bits of b into w-bit
   * chunks and combining them again gives back b in the first |b| bytes.
   */
  lemma CombineUndoesChunk(w: nat, b: seq<byte>)
    requires w >= 1
    ensures |b| < |Combined(w, Chunks(w, Bits(b)))|
    ensures Combined(w, Chunks(w, Bits(b)))[..|b|] == b
  {
    var s := Bits(b);
    var z := ChunksBits(w, s);
    CombinedPrefix(w, Chunks(w, s), b, Zeros(z));
  }
}
