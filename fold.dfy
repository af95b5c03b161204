/**
 * Digest folding and round iteration of the generator (skey.c): every round
 * hashes the current value and XOR-folds the digest down to 64 bits, with
 * the byte order inside each 4-byte group reversed for SHA-1 as RFC 2289
 * (section 5 and Appendix A) requires.
 */
module Fold {
  import opened Binary

  /** The hash functions the generator accepts: otp-md4, otp-md5, otp-sha1. */
  datatype HashAlg = MD4 | MD5 | SHA1

  /** Size in bytes of the algorithm's digest. */
  function DigestSize(alg: HashAlg): nat
  {
    if alg == SHA1 then 20 else 16
  }

  /**
   * The hash primitive is not part of this model: it is any function whose
   * digests have the algorithm's size.
   */
  ghost predicate DigestFunction(alg: HashAlg, hash: seq<byte> -> seq<byte>)
  {
    forall s :: |hash(s)| == DigestSize(alg)
  }

  /**
   * The first 8 bytes after XOR-ing byte i+8 into byte i % 8 for every
   * i < |d| - 8, closed form for digests of at most 24 bytes.
   */
  function XorFold(d: seq<byte>): (r: seq<byte>)
    requires 8 <= |d| <= 24
    ensures |r| == 8
    ensures |d| == 8 ==> r == d
  {
    seq(8, k requires 0 <= k < 8 =>
      if k + 16 < |d| then Xor(Xor(d[k], d[k + 8]), d[k + 16])
      else if k + 8 < |d| then Xor(d[k], d[k + 8])
      else d[k])
  }

  /** One step of the folding loop: byte i + 8 joins byte i % 8. */
  lemma XorFoldStep(d: seq<byte>, i: nat)
    requires i + 8 < |d| <= 24
    ensures var f := XorFold(d[..i + 8]);
      XorFold(d[..i + 9]) == f[i % 8 := Xor(f[i % 8], d[i + 8])]
  {
  }

  /** Byte order reversed inside each of the two 4-byte groups. */
  function ReverseGroups(f: seq<byte>): (r: seq<byte>)
    requires |f| == 8
  {
    [f[3], f[2], f[1], f[0], f[7], f[6], f[5], f[4]]
  }

  /** Entry j of group g of the reordered bytes is entry 3 - j of that group. */
  lemma ReverseGroupsAt(f: seq<byte>, g: nat, j: nat)
    requires |f| == 8 && g < 2 && j < 4
    ensures 4 * g + j < 8 && (g + 1) * 4 - j - 1 == 4 * g + 3 - j
    ensures ReverseGroups(f)[4 * g + j] == f[4 * g + 3 - j]
  {
  }

  /** The folded bytes in the order the algorithm's value is read in. */
  function Arrange(alg: HashAlg, f: seq<byte>): (r: seq<byte>)
    requires |f| == 8
    ensures |r| == 8
  {
    if alg == SHA1 then ReverseGroups(f) else f
  }

  /** The 64-bit value a digest folds to. */
  function Folded(alg: HashAlg, d: seq<byte>): (r: seq<byte>)
    requires |d| == DigestSize(alg)
    ensures |r| == 8
  {
    Arrange(alg, XorFold(d))
  }

  /**
   * The folded bytes one by one: for MD4 and MD5 byte i is d[i] ^ d[i + 8];
   * for SHA-1 the three-way XORs land in reversed order inside each group.
   */
  lemma FoldedBytes(alg: HashAlg, d: seq<byte>)
    requires |d| == DigestSize(alg)
    ensures alg != SHA1 ==> forall i :: 0 <= i < 8 ==> Folded(alg, d)[i] == Xor(d[i], d[i + 8])
    ensures alg == SHA1 ==> forall j :: 0 <= j < 4 ==> Folded(alg, d)[j] == Xor(Xor(d[3 - j], d[11 - j]), d[19 - j])
    ensures alg == SHA1 ==> forall j :: 4 <= j < 8 ==> Folded(alg, d)[j] == Xor(d[11 - j], d[19 - j])
  {
  }

  /**
   * hash_finalize: XOR-folds the digest in place into its first 8 bytes and
   * copies them, reordered for SHA-1, into a fresh 8-byte buffer.
   */
  method HashFinalize(alg: HashAlg, input: array<byte>) returns (output: array<byte>)
    requires input.Length == DigestSize(alg)
    modifies input
    ensures fresh(output) && output.Length == 8
    ensures output[..] == Folded(alg, old(input[..]))
    ensures input[..8] == XorFold(old(input[..])) && input[8..] == old(input[8..])
  {
    var oversize := DigestSize(alg) - 8;
    var i := 0;
    while i < oversize
      invariant 0 <= i <= oversize
      invariant input[..8] == XorFold(old(input[..])[..i + 8])
      invariant input[8..] == old(input[8..])
    {
      ghost var before := input[..8];
      assert input[i + 8] == old(input[..])[i + 8];
      input[i % 8] := Xor(input[i % 8], input[i + 8]);
      XorFoldStep(old(input[..]), i);
      assert input[..8] == before[i % 8 := Xor(before[i % 8], old(input[..])[i + 8])];
      i := i + 1;
    }
    assert old(input[..])[..oversize + 8] == old(input[..]);
    output := CopyOut(alg, input);
  }

  /**
   * The copying half of hash_finalize: the first 8 bytes of input go to a
   * fresh buffer, group by group in reverse order for SHA-1, as they are
   * otherwise.
   */
  method CopyOut(alg: HashAlg, input: array<byte>) returns (output: array<byte>)
    requires input.Length >= 8
    ensures fresh(output) && output.Length == 8
    ensures output[..] == Arrange(alg, input[..8])
  {
    output := new byte[8];
    ghost var f := input[..8];
    if alg == SHA1 {
      var i := 0;
      while i < 2
        invariant 0 <= i <= 2
        invariant forall k :: 0 <= k < 4 * i ==> output[k] == ReverseGroups(f)[k]
        modifies output
      {
        var j := 0;
        while j < 4
          invariant 0 <= j <= 4
          invariant forall k :: 0 <= k < 4 * i + j ==> output[k] == ReverseGroups(f)[k]
          modifies output
        {
          ReverseGroupsAt(f, i, j);
          output[i * 4 + j] := input[(i + 1) * 4 - j - 1];
          j := j + 1;
        }
        i := i + 1;
      }
      assert output[..] == ReverseGroups(f);
    } else {
      var i := 0;
      while i < 8
        invariant 0 <= i <= 8
        invariant output[..i] == f[..i]
        modifies output
      {
        output[i] := input[i];
        i := i + 1;
      }
      assert output[..] == f;
    }
  }

  /** The value after n rounds of hash-then-fold, starting from input. */
  function Rounds(alg: HashAlg, hash: seq<byte> -> seq<byte>, n: nat, input: seq<byte>): (r: seq<byte>)
    requires DigestFunction(alg, hash)
    ensures n > 0 ==> |r| == 8
  {
    if n == 0 then input else Folded(alg, hash(Rounds(alg, hash, n - 1, input)))
  }

  /**
   * Rounds compose: b more rounds after a rounds are a + b rounds. This is
   * what lets a verifier that stores the value of round n check the value of
   * round n - 1 with a single round.
   */
  lemma {:induction false} RoundsCompose(alg: HashAlg, hash: seq<byte> -> seq<byte>, a: nat, b: nat, input: seq<byte>)
    requires DigestFunction(alg, hash)
    ensures Rounds(alg, hash, a + b, input) == Rounds(alg, hash, b, Rounds(alg, hash, a, input))
  {
    if b > 0 {
      RoundsCompose(alg, hash, a, b - 1, input);
      RoundsComposeStep(alg, hash, a, b, input);
    }
  }

  /** The step of RoundsCompose: one more round on both sides. */
  lemma RoundsComposeStep(alg: HashAlg, hash: seq<byte> -> seq<byte>, a: nat, b: nat, input: seq<byte>)
    requires DigestFunction(alg, hash) && b > 0
    requires Rounds(alg, hash, a + (b - 1), input) == Rounds(alg, hash, b - 1, Rounds(alg, hash, a, input))
    ensures Rounds(alg, hash, a + b, input) == Rounds(alg, hash, b, Rounds(alg, hash, a, input))
  {
  }

  /** A fresh buffer holding the digest, as the hash library hands it out. */
  method Buffer(s: seq<byte>) returns (a: array<byte>)
    ensures fresh(a) && a[..] == s
  {
    a := new byte[|s|];
    var i := 0;
    while i < |s|
      invariant 0 <= i <= |s|
      invariant a[..i] == s[..i]
    {
      a[i] := s[i];
      i := i + 1;
    }
  }

  // ---------------------------------------------------------------------
  // The count of rounds as a C int

  const IntMax: int := 0x7FFF_FFFF
  const IntMin: int := -0x8000_0000

  /** The values of a 32-bit int. */
  type Int32 = x: int | IntMin <= x <= IntMax

  /** `x + 1` on an int that wraps around: the int equal to x + 1 modulo 2^32. */
  function Int32Succ(x: Int32): (r: Int32)
    ensures (r - (x + 1)) % 0x1_0000_0000 == 0
  {
    if x == IntMax then IntMin else x + 1
  }

  /** `x - 1` on an int that wraps around: the int equal to x - 1 modulo 2^32. */
  function Int32Pred(x: Int32): (r: Int32)
    ensures (r - (x - 1)) % 0x1_0000_0000 == 0
  {
    if x == IntMin then IntMax else x - 1
  }

  /**
   * How often `while (--rounds > -1)` runs its body: `rounds` times for a
   * positive count, never for zero or a negative count, except the least
   * int, whose decrement wraps to the largest and so runs 2^31 times.
   */
  function Passes(rounds: Int32): (r: nat)
    ensures r == Remaining(Int32Pred(rounds))
    ensures r <= IntMax + 1
  {
    if rounds == IntMin then IntMax + 1 else if rounds > 0 then rounds else 0
  }

  /**
   * The count main hands to do_hash is `rounds + 1` on an int, which wraps
   * for the largest count; do_hash's decrement wraps back, so every
   * non-negative count runs exactly rounds + 1 rounds.
   */
  lemma SuccPasses(rounds: Int32)
    requires rounds >= 0
    ensures rounds == IntMax ==> Int32Succ(rounds) < 0
    ensures Passes(Int32Succ(rounds)) == rounds + 1
  {
  }

  /** The passes still to come when the loop variable holds `left` after its decrement. */
  function Remaining(left: Int32): nat
  {
    if left >= 0 then left + 1 else 0
  }

  /**
   * do_hash: runs hash-then-fold once per pass of `while (--rounds > -1)`,
   * with `--rounds` on an int; the reported size is 8 even when no round
   * runs and the input is handed back as it is.
   */
  method DoHash(alg: HashAlg, hash: seq<byte> -> seq<byte>, rounds: Int32, input: seq<byte>)
    returns (output: seq<byte>, outputSize: nat)
    requires DigestFunction(alg, hash)
    ensures outputSize == 8
    ensures output == Rounds(alg, hash, Passes(rounds), input)
    ensures Passes(rounds) == 0 ==> output == input
    ensures Passes(rounds) > 0 ==> |output| == 8
  {
    var data := input;
    var left := Int32Pred(rounds);
    ghost var done: nat := 0;
    while left > -1
      invariant done + Remaining(left) == Passes(rounds)
      invariant data == Rounds(alg, hash, done, input)
      decreases Remaining(left)
    {
      data := Round(alg, hash, data);
      done := done + 1;
      left := Int32Pred(left);
    }
    output := data;
    outputSize := 8;
  }

  /** One round of do_hash's loop: hash the value, then fold the digest in its buffer. */
  method Round(alg: HashAlg, hash: seq<byte> -> seq<byte>, data: seq<byte>) returns (next: seq<byte>)
    requires DigestFunction(alg, hash)
    ensures next == Folded(alg, hash(data))
  {
    var digest := hash(data);
    var buffer := Buffer(digest);
    var folded := HashFinalize(alg, buffer);
    next := folded[..];
  }
}
