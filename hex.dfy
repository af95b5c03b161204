/**
 * Hexadecimal rendering of the one-time password (hash_hex in skey.c): every
 * byte becomes two lower-case hexadecimal digits, high nibble first, as the
 * C format "%.2x" prints an unsigned char.
 */
module Hex {
  import opened Binary

  /** The characters "%x" prints. */
  predicate IsLowerHex(c: char)
  {
    '0' <= c <= '9' || 'a' <= c <= 'f'
  }

  /** Value of a lower-case hexadecimal digit. */
  function DigitValue(c: char): (n: nat)
    requires IsLowerHex(c)
    ensures n < 16
  {
    if c <= '9' then c as nat - '0' as nat else c as nat - 'a' as nat + 10
  }

  /** The digit "%x" prints for a nibble. */
  function HexDigit(n: nat): (c: char)
    requires n < 16
    ensures IsLowerHex(c) && DigitValue(c) == n
  {
    if n < 10 then ('0' as nat + n) as char else ('a' as nat + n - 10) as char
  }

  /** Every lower-case digit is printed for exactly one nibble. */
  lemma HexDigitOfValue(c: char)
    requires IsLowerHex(c)
    ensures HexDigit(DigitValue(c)) == c
  {
  }

  /** The string "%.2x" prints byte after byte. */
  function HexOf(b: seq<byte>): (r: string)
    ensures |r| == 2 * |b|
    ensures forall k :: 0 <= k < |r| ==> IsLowerHex(r[k])
  {
    seq(2 * |b|, k requires 0 <= k < 2 * |b| =>
      if k % 2 == 0 then HexDigit(b[k / 2] / 16) else HexDigit(b[k / 2] % 16))
  }

  /** A well-formed hexadecimal string: an even number of lower-case digits. */
  predicate IsHexString(s: string)
  {
    |s| % 2 == 0 && forall k :: 0 <= k < |s| ==> IsLowerHex(s[k])
  }

  /** The bytes a hexadecimal string spells, two digits per byte. */
  function Unhex(s: string): (r: seq<byte>)
    requires IsHexString(s)
    ensures |r| == |s| / 2
  {
    seq(|s| / 2, j requires 0 <= j < |s| / 2 =>
      16 * DigitValue(s[2 * j]) + DigitValue(s[2 * j + 1]))
  }

  /** Reading back the printed digits gives the bytes. */
  lemma UnhexOfHex(b: seq<byte>)
    ensures IsHexString(HexOf(b)) && Unhex(HexOf(b)) == b
  {
    var h := HexOf(b);
    forall j | 0 <= j < |b|
      ensures Unhex(h)[j] == b[j]
    {
      assert h[2 * j] == HexDigit(b[j] / 16);
      assert h[2 * j + 1] == HexDigit(b[j] % 16);
    }
  }

  /** Every well-formed hexadecimal string is printed for exactly its bytes. */
  lemma HexOfUnhex(s: string)
    requires IsHexString(s)
    ensures HexOf(Unhex(s)) == s
  {
    var b := Unhex(s);
    forall k | 0 <= k < |s|
      ensures HexOf(b)[k] == s[k]
    {
      var j := k / 2;
      var hi, lo := DigitValue(s[2 * j]), DigitValue(s[2 * j + 1]);
      assert b[j] == 16 * hi + lo;
      assert b[j] / 16 == hi && b[j] % 16 == lo;
      HexDigitOfValue(s[k]);
    }
  }

  /**
   * hash_hex: allocates 2n + 1 characters and prints each byte with "%.2x";
   * every print also writes a terminating NUL after its two digits.
   */
  method HashHex(input: seq<byte>) returns (output: array<char>, outputSize: nat)
    ensures fresh(output) && output.Length == 2 * |input| + 1
    ensures outputSize == 2 * |input|
    ensures output[..outputSize] == HexOf(input)
    ensures |input| > 0 ==> output[outputSize] == '\0'
  {
    output := new char[2 * |input| + 1];
    var i := 0;
    while i < |input|
      invariant 0 <= i <= |input|
      invariant output[..2 * i] == HexOf(input)[..2 * i]
      invariant i > 0 ==> output[2 * i] == '\0'
    {
      output[2 * i] := HexDigit(input[i] / 16);
      output[2 * i + 1] := HexDigit(input[i] % 16);
      output[2 * i + 2] := '\0';
      i := i + 1;
    }
    outputSize := 2 * |input|;
  }
}
