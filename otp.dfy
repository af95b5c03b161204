/**
 * The two programs end to end. The generator (main in skey.c) hashes the
 * seed followed by the secret, as strncpy copies them, rounds + 1 times and prints the value in
 * hexadecimal and as six dictionary words; the reader (main in
 * skey_read.c) looks the six words up, packs their indices back into
 * bytes and prints the first eight of them in hexadecimal.
 */
module Otp {
  import opened Binary
  import opened Fold
  import opened Hex
  import opened Chunker
  import opened Combiner
  import opened Dictionary

  datatype Option<T> = None | Some(value: T)

  /** Why a program stops without printing a one-time password. */
  datatype Error = UnknownHash(name: string) | BadRounds | UnknownWord(word: string)

  datatype Result<T> = Ok(value: T) | Fail(error: Error)

  // ---------------------------------------------------------------------
  // The generator

  /** The names the generator accepts for its hash function. */
  function HashName(alg: HashAlg): string
  {
    match alg
    case MD4 => "otp-md4"
    case MD5 => "otp-md5"
    case SHA1 => "otp-sha1"
  }

  /** The hash function chosen by the optional first argument; MD5 when there is none. */
  function SelectHash(name: Option<string>): (r: Result<HashAlg>)
    ensures name.None? ==> r == Ok(MD5)
    ensures r.Ok? ==> name.None? || name.value == HashName(r.value)
    ensures r.Fail? ==> name.Some? && r.error == UnknownHash(name.value)
  {
    match name
    case None => Ok(MD5)
    case Some(n) =>
      if n == "otp-md4" then Ok(MD4)
      else if n == "otp-md5" then Ok(MD5)
      else if n == "otp-sha1" then Ok(SHA1)
      else Fail(UnknownHash(n))
  }

  /** Every algorithm is selected by its own name and by no other. */
  lemma SelectHashByName(name: string)
    ensures forall alg :: SelectHash(Some(name)) == Ok(alg) <==> name == HashName(alg)
    ensures (forall alg :: name != HashName(alg)) ==> SelectHash(Some(name)) == Fail(UnknownHash(name))
  {
    assert HashName(MD4) != HashName(MD5) && HashName(MD4) != HashName(SHA1) && HashName(MD5) != HashName(SHA1) by {
      assert HashName(MD4)[6] != HashName(MD5)[6];
      assert HashName(MD4)[6] != HashName(SHA1)[6];
      assert HashName(MD5)[6] != HashName(SHA1)[6];
    }
  }

  /** strlen: the number of bytes before the first NUL; the end of the sequence stands for the terminator. */
  function Strlen(s: seq<byte>): (n: nat)
    ensures n <= |s| && forall i :: 0 <= i < n ==> s[i] != 0
    ensures n < |s| ==> s[n] == 0
  {
    if s == [] || s[0] == 0 then 0 else 1 + Strlen(s[1..])
  }

  /** A length that stops at the first NUL, or at the end, is the one strlen counts. */
  lemma StrlenIs(s: seq<byte>, m: nat)
    requires m <= |s| && forall i :: 0 <= i < m ==> s[i] != 0
    requires m < |s| ==> s[m] == 0
    ensures Strlen(s) == m
  {
  }

  /** strlen reads through a string without NUL and on into what follows it. */
  lemma StrlenAppend(s: seq<byte>, t: seq<byte>)
    requires Strlen(s) == |s|
    ensures Strlen(s + t) == |s| + Strlen(t)
  {
    var m := |s| + Strlen(t);
    forall i | 0 <= i < m
      ensures (s + t)[i] != 0
    {
      if i >= |s| {
        assert (s + t)[i] == t[i - |s|];
      }
    }
    if m < |s + t| {
      assert (s + t)[m] == t[Strlen(t)];
    }
    StrlenIs(s + t, m);
  }

  /**
   * The n bytes strncpy writes: the string's bytes up to its NUL, then NUL
   * bytes up to n; read back with strlen, it is the string cut to n bytes.
   */
  function StrncpyOf(src: seq<byte>, n: nat): (r: seq<byte>)
    ensures |r| == n
    ensures var m := if n < Strlen(src) then n else Strlen(src);
      r[..m] == src[..m] && Strlen(r) == m
    ensures forall i :: (if n < Strlen(src) then n else Strlen(src)) <= i < n ==> r[i] == 0
  {
    var r := seq(n, i requires 0 <= i < n => if i < Strlen(src) then src[i] else 0);
    StrlenIs(r, if n < Strlen(src) then n else Strlen(src));
    r
  }

  /**
   * strncpy(dst + at, src, n): copies src up to its NUL, at most n bytes,
   * and fills the rest of the n bytes with NUL; nothing else changes.
   */
  method Strncpy(dst: array<byte>, at: nat, src: seq<byte>, n: nat)
    requires at + n <= dst.Length
    modifies dst
    ensures dst[at..at + n] == StrncpyOf(src, n)
    ensures dst[..at] == old(dst[..at]) && dst[at + n..] == old(dst[at + n..])
  {
    ghost var want := StrncpyOf(src, n);
    var i := 0;
    while i < n && i < |src| && src[i] != 0
      invariant 0 <= i <= n && i <= Strlen(src)
      invariant forall j :: 0 <= j < i ==> dst[at + j] == want[j]
      invariant forall k :: 0 <= k < dst.Length && !(at <= k < at + n) ==> dst[k] == old(dst[k])
    {
      dst[at + i] := src[i];
      i := i + 1;
    }
    while i < n
      invariant 0 <= i <= n
      invariant forall j :: 0 <= j < i ==> dst[at + j] == want[j]
      invariant forall k :: 0 <= k < dst.Length && !(at <= k < at + n) ==> dst[k] == old(dst[k])
    {
      dst[at + i] := 0;
      i := i + 1;
    }
    assert dst[at..at + n] == want;
  }

  /**
   * The bytes main hashes first: the seed, as far as strlen reads it,
   * followed by the secret's secret_sz bytes as strncpy copies them.
   */
  function HashInput(seed: seq<byte>, secret: seq<byte>): (r: seq<byte>)
    ensures |r| == Strlen(seed) + |secret|
    ensures r[..Strlen(seed)] == seed[..Strlen(seed)]
    ensures Strlen(r) == Strlen(seed) + Strlen(secret)
    ensures r[Strlen(seed)..Strlen(seed) + Strlen(secret)] == secret[..Strlen(secret)]
    ensures forall i :: Strlen(seed) + Strlen(secret) <= i < |r| ==> r[i] == 0
  {
    var a := StrncpyOf(seed, Strlen(seed));
    StrlenAppend(a, StrncpyOf(secret, |secret|));
    a + StrncpyOf(secret, |secret|)
  }

  /** Without NUL bytes, the hashed input is the seed followed by the secret. */
  lemma HashInputPlain(seed: seq<byte>, secret: seq<byte>)
    requires forall i :: 0 <= i < |seed| ==> seed[i] != 0
    requires forall i :: 0 <= i < |secret| ==> secret[i] != 0
    ensures HashInput(seed, secret) == seed + secret
  {
    NoNul(seed);
    NoNul(secret);
  }

  /** A sequence without NUL bytes is read whole by strlen. */
  lemma {:induction false} NoNul(s: seq<byte>)
    requires forall i :: 0 <= i < |s| ==> s[i] != 0
    ensures Strlen(s) == |s|
  {
    if s != [] {
      NoNul(s[1..]);
    }
  }

  /**
   * strncpy stops at the secret's first NUL and writes NUL bytes in place
   * of everything after it: secrets of one length that agree up to their
   * first NUL are hashed alike.
   */
  lemma SecretAfterNul(seed: seq<byte>, s: seq<byte>, t: seq<byte>)
    requires |s| == |t| && Strlen(s) == Strlen(t) && s[..Strlen(s)] == t[..Strlen(t)]
    ensures HashInput(seed, s) == HashInput(seed, t)
  {
    var k := Strlen(s);
    var a, b := StrncpyOf(s, |s|), StrncpyOf(t, |t|);
    forall i | 0 <= i < |s|
      ensures a[i] == b[i]
    {
      if i < k {
        assert s[i] == s[..k][i] && t[i] == t[..k][i];
      }
    }
    assert a == b;
  }

  /** The secret "ab", NUL, "cd" is hashed as "ab" and three NUL bytes. */
  lemma SecretNulExample(seed: seq<byte>)
    ensures HashInput(seed, [0x61, 0x62, 0, 0x63, 0x64]) == HashInput(seed, [0x61, 0x62, 0, 0, 0])
  {
    var s: seq<byte> := [0x61, 0x62, 0, 0x63, 0x64];
    var t: seq<byte> := [0x61, 0x62, 0, 0, 0];
    assert s[1..][1..][0] == 0 && t[1..][1..][0] == 0;
    assert Strlen(s[1..][1..]) == 0 && Strlen(t[1..][1..]) == 0;
    assert Strlen(s) == 2 && Strlen(t) == 2;
    SecretAfterNul(seed, s, t);
  }

  /**
   * The one-time password for a count of rounds: rounds + 1 rounds of
   * hash-then-fold over the seed followed by the secret, as main copies them.
   */
  function OtpValue(alg: HashAlg, hash: seq<byte> -> seq<byte>, rounds: nat, seed: seq<byte>, secret: seq<byte>): (r: seq<byte>)
    requires DigestFunction(alg, hash)
  {
    Rounds(alg, hash, rounds + 1, HashInput(seed, secret))
  }

  /**
   * The password for a count is always eight bytes, and b counts further on
   * it is b more rounds over the password for the lower count: a verifier
   * that keeps the password for count n accepts the one for count n - 1
   * when a single round takes it there.
   */
  lemma OtpChain(alg: HashAlg, hash: seq<byte> -> seq<byte>, a: nat, b: nat, seed: seq<byte>, secret: seq<byte>)
    requires DigestFunction(alg, hash)
    ensures |OtpValue(alg, hash, a, seed, secret)| == 8
    ensures OtpValue(alg, hash, a + b, seed, secret) == Rounds(alg, hash, b, OtpValue(alg, hash, a, seed, secret))
  {
    RoundsCompose(alg, hash, a + 1, b, HashInput(seed, secret));
  }

  /** The words for a list of indices into the table. */
  function WordsOf(dict: seq<string>, cs: seq<nat>): (r: seq<string>)
    requires forall i :: 0 <= i < |cs| ==> cs[i] < |dict|
    ensures |r| == |cs| && forall i :: 0 <= i < |cs| ==> r[i] == dict[cs[i]]
  {
    seq(|cs|, i requires 0 <= i < |cs| => dict[cs[i]])
  }

  /** What the generator prints: the value in hexadecimal and its six words. */
  datatype Printed = Printed(hex: string, words: seq<string>)

  /** The generator's output for a count of rounds, or why it stops. */
  function GeneratorOutput(alg: HashAlg, hash: seq<byte> -> seq<byte>, dict: seq<string>, rounds: Int32,
                           seed: seq<byte>, secret: seq<byte>): Result<Printed>
    requires DigestFunction(alg, hash) && |dict| == DictSize
  {
    if rounds < 0 then Fail(BadRounds)
    else
      var v := OtpValue(alg, hash, rounds, seed, secret);
      OtpChain(alg, hash, rounds, 0, seed, secret);
      WordIndicesBits(v);
      Ok(Printed(HexOf(v), WordsOf(dict, WordIndices(v))))
  }

  /**
   * main of skey.c after the hash function is chosen: rejects a negative
   * count, copies the seed and then the secret into one buffer, runs
   * `rounds + 1` rounds (on an int), prints the value in hexadecimal and
   * splits it into six word indices.
   */
  method Generate(alg: HashAlg, hash: seq<byte> -> seq<byte>, dict: seq<string>, rounds: Int32,
                  seed: seq<byte>, secret: seq<byte>) returns (r: Result<Printed>)
    requires DigestFunction(alg, hash) && |dict| == DictSize
    ensures r == GeneratorOutput(alg, hash, dict, rounds, seed, secret)
  {
    if rounds < 0 {
      return Fail(BadRounds);
    }
    var inputSize := Strlen(seed);
    var secretSize := |secret|;
    var input := new byte[inputSize + secretSize + 1];
    Strncpy(input, 0, seed, inputSize);
    Strncpy(input, inputSize, secret, secretSize);
    assert input[..inputSize + secretSize] == HashInput(seed, secret) by {
      assert input[..inputSize] == StrncpyOf(seed, inputSize);
    }
    inputSize := inputSize + secretSize;
    input[inputSize] := 0;
    assert input[..inputSize] == HashInput(seed, secret);
    ghost var v := OtpValue(alg, hash, rounds, seed, secret);
    OtpChain(alg, hash, rounds, 0, seed, secret);
    SuccPasses(rounds);
    var output, outputSize := DoHash(alg, hash, Int32Succ(rounds), input[..inputSize]);
    assert output == v && output[..outputSize] == v;
    var final, finalSize := HashHex(output[..outputSize]);
    var hex := final[..finalSize];
    final[finalSize] := '\0';
    var chunks := new nat[6];
    HashBreak(output, chunks);
    WordIndicesBits(v);
    assert output[..8] == v;
    var words := WordsOf(dict, chunks[..]);
    return Ok(Printed(hex, words));
  }

  // ---------------------------------------------------------------------
  // The reader

  /**
   * The indices of words[from..], or the first of them that dict_search
   * does not find.
   */
  function LookUp(dict: seq<string>, words: seq<string>, from: nat): (r: Result<seq<nat>>)
    requires |dict| == DictSize && from <= |words|
    ensures r.Ok? ==> forall i :: 0 <= i < |r.value| ==> r.value[i] < DictSize
    ensures r.Fail? ==> r.error.UnknownWord? && r.error.word in words[from..]
    decreases |words| - from
  {
    if from == |words| then Ok([])
    else
      var k := DictIndex(dict, words[from]);
      if k < 0 then Fail(UnknownWord(words[from]))
      else
        DictIndexRange(dict, words[from]);
        Prepend([k], LookUp(dict, words, from + 1))
  }

  /** Indices found before a lookup result. */
  function Prepend(p: seq<nat>, r: Result<seq<nat>>): Result<seq<nat>>
  {
    match r
    case Ok(cs) => Ok(p + cs)
    case Fail(e) => Fail(e)
  }

  /** Indices found in two goes are found in one; none found in front changes nothing. */
  lemma PrependTwice(p: seq<nat>, q: seq<nat>, r: Result<seq<nat>>)
    ensures Prepend(p, Prepend(q, r)) == Prepend(p + q, r)
    ensures Prepend([], r) == r
  {
    if r.Ok? {
      assert p + (q + r.value) == (p + q) + r.value;
      assert [] + r.value == r.value;
    }
  }

  /** The reader's output for six words: the first eight combined bytes in hexadecimal. */
  function ReaderOutput(dict: seq<string>, words: seq<string>): Result<string>
    requires |dict| == DictSize && |words| == 6
  {
    match LookUp(dict, words, 0)
    case Fail(e) => Fail(e)
    case Ok(cs) =>
      LookUpLength(dict, words, 0);
      Ok(HexOf(Combined(11, cs)[..8]))
  }

  /** A successful lookup has one index per word. */
  lemma {:induction false} LookUpLength(dict: seq<string>, words: seq<string>, from: nat)
    requires |dict| == DictSize && from <= |words|
    ensures LookUp(dict, words, from).Ok? ==> |LookUp(dict, words, from).value| == |words| - from
    decreases |words| - from
  {
    if from < |words| {
      LookUpLength(dict, words, from + 1);
    }
  }

  /** The lookup succeeds exactly when every word from `from` on is found. */
  lemma {:induction false} LookUpOk(dict: seq<string>, words: seq<string>, from: nat)
    requires |dict| == DictSize && from <= |words|
    ensures LookUp(dict, words, from).Ok? <==> forall j :: from <= j < |words| ==> DictIndex(dict, words[j]) >= 0
    decreases |words| - from
  {
    if from < |words| {
      LookUpOk(dict, words, from + 1);
    }
  }

  /** Words found at the indices cs are looked up to exactly cs. */
  lemma {:induction false} LookUpFound(dict: seq<string>, words: seq<string>, cs: seq<nat>, from: nat)
    requires |dict| == DictSize && |cs| == |words| && from <= |words|
    requires forall j :: 0 <= j < |words| ==> DictIndex(dict, words[j]) == cs[j]
    ensures LookUp(dict, words, from) == Ok(cs[from..])
    decreases |words| - from
  {
    if from < |words| {
      LookUpFound(dict, words, cs, from + 1);
      assert [cs[from]] + cs[from + 1..] == cs[from..];
    } else {
      assert cs[from..] == [];
    }
  }

  /** The lookup stops at the first word that is not found, and names it. */
  lemma {:induction false} LookUpStops(dict: seq<string>, words: seq<string>, from: nat, i: nat)
    requires |dict| == DictSize && from <= i < |words|
    requires forall j :: from <= j < i ==> DictIndex(dict, words[j]) >= 0
    requires DictIndex(dict, words[i]) < 0
    ensures LookUp(dict, words, from) == Fail(UnknownWord(words[i]))
    decreases i - from
  {
    if from < i {
      LookUpStops(dict, words, from + 1, i);
    }
  }

  /**
   * The reader rejects the first word that dict_search does not find,
   * whatever follows it, and prints nothing for it.
   */
  lemma ReaderRejects(dict: seq<string>, words: seq<string>, i: nat)
    requires |dict| == DictSize && |words| == 6 && i < 6
    requires forall j :: 0 <= j < i ==> DictIndex(dict, words[j]) >= 0
    requires DictIndex(dict, words[i]) < 0
    ensures ReaderOutput(dict, words) == Fail(UnknownWord(words[i]))
  {
    LookUpStops(dict, words, 0, i);
  }

  /** The reader prints a value exactly when all six words are found. */
  lemma ReaderAccepts(dict: seq<string>, words: seq<string>)
    requires |dict| == DictSize && |words| == 6
    ensures ReaderOutput(dict, words).Ok? <==> forall j :: 0 <= j < 6 ==> DictIndex(dict, words[j]) >= 0
  {
    LookUpOk(dict, words, 0);
  }

  /**
   * main of skey_read.c once the six words are read: looks each word up,
   * stopping at the first one not found, packs the six indices into nine
   * bytes and prints the first eight in hexadecimal.
   */
  method Read(dict: seq<string>, words: seq<string>) returns (r: Result<string>)
    requires |dict| == DictSize && |words| == 6
    ensures r == ReaderOutput(dict, words)
  {
    var chunks := new nat[6];
    var i := 0;
    PrependTwice([], [], LookUp(dict, words, 0));
    while i < 6
      invariant 0 <= i <= 6
      invariant LookUp(dict, words, 0) == Prepend(chunks[..i], LookUp(dict, words, i))
    {
      var temp := DictSearch(dict, words[i]);
      if temp < 0 {
        return Fail(UnknownWord(words[i]));
      }
      chunks[i] := temp;
      PrependTwice(chunks[..i], [temp], LookUp(dict, words, i + 1));
      assert chunks[..i + 1] == chunks[..i] + [temp];
      i := i + 1;
    }
    assert chunks[..6] + [] == chunks[..];
    assert LookUp(dict, words, 0) == Ok(chunks[..]);
    var combined := new byte[9];
    var out := CombineChunks(11, 6, combined, chunks[..]);
    assert out == 8 && chunks[..][..6] == chunks[..];
    assert combined[..8] == combined[..out + 1][..8];
    var final, finalSize := HashHex(combined[..8]);
    return Ok(final[..finalSize]);
  }

  // ---------------------------------------------------------------------
  // The reader undoes the generator

  /** The reader turns the six words of a value back into the value's hexadecimal form. */
  lemma ReadWordsOf(dict: seq<string>, v: seq<byte>)
    requires IsTable(dict) && |v| == 8
    ensures |WordIndices(v)| == 6 && forall j :: 0 <= j < 6 ==> WordIndices(v)[j] < DictSize
    ensures ReaderOutput(dict, WordsOf(dict, WordIndices(v))) == Ok(HexOf(v))
  {
    WordIndicesBits(v);
    var cs := WordIndices(v);
    var words := WordsOf(dict, cs);
    forall j | 0 <= j < 6
      ensures DictIndex(dict, words[j]) == cs[j]
    {
      assert SameUpToCase(words[j], dict[cs[j]]);
      LookupOfEntry(dict, cs[j], words[j]);
    }
    LookUpFound(dict, words, cs, 0);
    CombinedPrefix(11, cs, v, WidthBits(2, Checksum(v)));
  }

  /**
   * Reading the words the generator prints gives back the hexadecimal
   * value it prints with them.
   */
  lemma GenerateThenRead(alg: HashAlg, hash: seq<byte> -> seq<byte>, dict: seq<string>, rounds: Int32,
                         seed: seq<byte>, secret: seq<byte>)
    requires DigestFunction(alg, hash) && IsTable(dict)
    ensures var g := GeneratorOutput(alg, hash, dict, rounds, seed, secret);
      (g.Ok? <==> rounds >= 0) &&
      (g.Ok? ==> |g.value.words| == 6 && ReaderOutput(dict, g.value.words) == Ok(g.value.hex))
  {
    if rounds >= 0 {
      var v := OtpValue(alg, hash, rounds, seed, secret);
      OtpChain(alg, hash, rounds, 0, seed, secret);
      ReadWordsOf(dict, v);
    }
  }

  // ---------------------------------------------------------------------
  // The checksum on the way back

  /** The ninth combined byte holds the checksum in its top two bits. */
  lemma CombinedChecksum(v: seq<byte>)
    requires |v| == 8
    ensures |Combined(11, WordIndices(v))| == 9
    ensures Combined(11, WordIndices(v))[8] == 64 * Checksum(v)
  {
    WordIndicesBits(v);
    var c := Checksum(v);
    var bits := ChunkBits(11, WordIndices(v));
    var pad := Padded(bits);
    assert pad == Bits(v) + WidthBits(2, c) + Zeros(6);
    var last := pad[64..72];
    assert last == WidthBits(2, c) + Zeros(6);
    assert Bytes(pad)[8] == Value(last);
    ChecksumByte(c);
  }

  /** Two checksum bits followed by six zero bits make the byte 64 * c. */
  lemma ChecksumByte(c: nat)
    requires c < 4
    ensures Value(WidthBits(2, c) + Zeros(6)) == 64 * c
  {
    ValueZeros(WidthBits(2, c), 6);
    ValueWidthBits(2, c);
    SmallPowers();
    ShlMul(c, 6);
  }

  /**
   * The reader does not check the checksum: index lists that differ only
   * in the low two bits of the sixth index give the same eight bytes.
   */
  lemma ChecksumNotChecked(cs: seq<nat>, cs': seq<nat>)
    requires |cs| == 6 && |cs'| == 6 && cs[..5] == cs'[..5] && cs[5] / 4 == cs'[5] / 4
    ensures |Combined(11, cs)| == 9 && |Combined(11, cs')| == 9
    ensures Combined(11, cs)[..8] == Combined(11, cs')[..8]
  {
    DivTwice(cs[5], 2);
    DivTwice(cs'[5], 2);
    var head := ChunkBits(11, cs[..5]) + WidthBits(9, Shr(cs[5], 2));
    ChunkBitsLength(11, cs[..5]);
    assert |head| == 64;
    var v := Bytes(head);
    BitsOfBytes(head);
    SplitLast(cs);
    SplitLast(cs');
    CombinedPrefix(11, cs, v, WidthBits(2, cs[5]));
    CombinedPrefix(11, cs', v, WidthBits(2, cs'[5]));
  }

  /** The bits of six indices: the first five, the high nine bits of the sixth, its low two. */
  lemma SplitLast(cs: seq<nat>)
    requires |cs| == 6
    ensures ChunkBits(11, cs) == ChunkBits(11, cs[..5]) + WidthBits(9, Shr(cs[5], 2)) + WidthBits(2, cs[5])
  {
    assert cs == cs[..5] + [cs[5]];
    ChunkBitsAppend(11, cs[..5], [cs[5]]);
    ChunkBitsCons(11, cs[5], []);
    assert [cs[5]] + [] == [cs[5]];
    WidthBitsSplit(9, 2, cs[5]);
  }
}
