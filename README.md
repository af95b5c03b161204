# S/Key one-time passwords in Dafny

This project models the two programs of a small S/Key (RFC 2289) tool.

**The generator** is `main` in `skey.c`:

- It picks MD4, MD5 or SHA-1 from an optional `otp-<hash>` argument. MD5 is the default.
- It rejects a negative count of rounds.
- It copies the seed and then the secret into one buffer. `strncpy` stops at the secret's first NUL byte and fills the rest of its length with NUL bytes.
- It runs `rounds + 1` rounds of hash-then-fold (`do_hash`, `hash_finalize`). The count is a C `int`: for the largest count `rounds + 1` wraps around, and `do_hash`'s decrement wraps back.
- It prints the 64-bit result in lower-case hexadecimal (`hash_hex`).
- It prints the same value as six words of the 2048-word dictionary (`hash_break`, `data_chunk`). The 64 bits and a 2-bit checksum are cut into six 11-bit indices.

**The reader** is `main` in `skey_read.c`:

- It looks each of the six words up with `dict_search`. The lookup ignores case; a character 1..127 that is not a letter rejects the word, and a NUL or a byte 128..255 ends it.
- It stops at the first word that is not found.
- It packs the six indices back into nine bytes (`combine_chunks`).
- It prints the first eight bytes in hexadecimal.

Each C function that changes state step by step is a Dafny `method` with its loops and arrays. Each method is proved against a specification function:

| C function | method | specification function |
|---|---|---|
| `hash_finalize` | `Fold.HashFinalize` | `Fold.Folded` |
| `do_hash` | `Fold.DoHash` | `Fold.Rounds` |
| `hash_hex` | `Hex.HashHex` | `Hex.HexOf` |
| `data_chunk` | `Chunker.DataChunk` | `Binary.Chunks` of `Binary.Bits` |
| `hash_break` | `Chunker.HashBreak` | `Chunker.WordIndices` |
| `combine_chunks` | `Combiner.CombineChunks` | `Combiner.Combined` |
| `dict_search` | `Dictionary.DictSearch` | `Dictionary.DictIndex` |
| generator `main` | `Otp.Generate` | `Otp.GeneratorOutput` |
| reader `main` | `Otp.Read` | `Otp.ReaderOutput` |

Lemmas then state what those functions mean:

- rounds compose;
- the two wrap-arounds of the round count cancel;
- secret bytes after a NUL do not matter;
- the hexadecimal form reads back to the bytes;
- chunks carry exactly the bit stream plus zero padding;
- combining undoes chunking;
- lookup ignores case and finds each table entry at its own index;
- reading the generator's words gives back the generator's hexadecimal value;
- the reader never checks the checksum.

Modules:

- `Binary` (bits.dfy): bits, shifts, bit streams, chunks and bytes.
- `Fold` (fold.dfy): digest folding and rounds.
- `Hex` (hex.dfy): hexadecimal printing.
- `Chunker` (chunker.dfy): `data_chunk`, the checksum and `hash_break`.
- `Combiner` (combiner.dfy): `combine_chunks`.
- `Dictionary` (dictionary.dfy): `dict_search`.
- `Otp` (otp.dfy): the two `main` functions and the end-to-end properties.

The hash primitive (mhash) is a parameter. It is any function `hash` whose digests have the algorithm's size (`Fold.DigestFunction`). The dictionary is a parameter too: a sequence of 2048 words. The end-to-end round trip needs a table of 2048 distinct upper-case words (`Dictionary.IsTable`).

## Model

| member | source | states |
|---|---|---|
| Fold.XorFold | skey.c:93-94 | the XOR fold of a digest of 8 to 24 bytes is 8 bytes long, and an 8-byte digest folds to itself |
| Fold.XorFoldStep | skey.c:93-94 | one pass of the folding loop XORs byte i + 8 into byte i % 8 of the folded value |
| Fold.FoldedBytes | skey.c:93-109 | byte i of the folded value is d[i] ^ d[i+8] for MD4 and MD5; for SHA-1 the three-way XORs d[k] ^ d[k+8] ^ d[k+16] come out in reversed order inside each 4-byte group |
| Fold.HashFinalize | skey.c:86-110 | the fresh 8-byte output is the folded, reordered digest; the input's first 8 bytes now hold the XOR fold; the rest of the input is unchanged |
| Fold.CopyOut | skey.c:97-109 | the fresh output is the first 8 bytes, reversed inside each 4-byte group for SHA-1 and copied straight otherwise |
| Fold.Rounds | skey.c:121-131 | after at least one round the value is 8 bytes long |
| Fold.RoundsCompose | skey.c:116-137 | a + b rounds are b rounds applied to the value after a rounds |
| Fold.Round | skey.c:122-130 | one pass hashes the value and folds the digest |
| Fold.DoHash | skey.c:116-137 | the reported size is always 8; the value is the input after one round per pass of `while (--rounds > -1)` with `--rounds` on an int: rounds passes for a positive count, none for zero or another negative count, 2^31 for the least int, whose decrement wraps; with no pass the input comes back unchanged |
| Fold.SuccPasses | skey.c:317 | `rounds + 1` on an int wraps to a negative count for the largest count, and with the wrap of `--rounds` at skey.c:121 every non-negative count still runs exactly rounds + 1 rounds |
| Fold.Int32Succ | skey.c:317 | `rounds + 1` on an int is the int equal to rounds + 1 modulo 2^32 |
| Fold.Int32Pred | skey.c:121 | `--rounds` on an int is the int equal to rounds - 1 modulo 2^32 |
| Fold.Passes | skey.c:121 | the number of passes of `while (--rounds > -1)` is the number of values the decremented count still has down to 0, and at most 2^31 |
| Hex.HexDigit | skey.c:149 | the digit printed for a nibble is a lower-case hexadecimal digit whose value is that nibble |
| Hex.HexDigitOfValue | skey.c:149 | every lower-case digit is the one printed for its own value |
| Hex.HexOf | skey.c:148-152 | the printed string has two lower-case hexadecimal digits per byte |
| Hex.UnhexOfHex | skey.c:142-153 | the printed string is well formed and reads back to the bytes |
| Hex.HexOfUnhex | skey.c:142-153 | every well-formed hexadecimal string is printed for exactly the bytes it spells |
| Hex.HashHex | skey.c:142-153 | the fresh buffer has 2n + 1 characters; the reported size is 2n; the first 2n characters are the hexadecimal form of the input; for a non-empty input a NUL follows them |
| Binary.ChunksCount | skey.c:155-167 | a stream of n bits gives ceil(n / w) chunks |
| Binary.ChunksBits | skey.c:155-158 | the chunks, w bits each, are the stream followed by zero padding only |
| Binary.ChunksBound | skey.c:182 | every chunk is below 2^w |
| Binary.BytesOfBits | skey.c:181 | reading a byte's bits most significant first and packing them again gives the byte back |
| Binary.BitsOfBytes | skey_read.c:45-51 | packing a whole number of bytes' worth of bits and reading them back gives the bits back |
| Chunker.Dribble | skey.c:181-184 | the next bit of the input, counted from the most significant bit of its byte, goes into the current chunk at its next position; the other chunks are unchanged |
| Chunker.NextChunk | skey.c:192-196 | a full chunk is closed and the next one is started at zero |
| Chunker.Finished | skey.c:185-190 | once the last byte is consumed, the chunks started are exactly the chunks of the stream |
| Chunker.DataChunk | skey.c:168-198 | the chunks started are the w-bit chunks of the input's bits, last chunk zero-padded; every later array entry is untouched |
| Chunker.DataChunkExample | skey.c:162-166 | 01101101 01001101 cut into 7-bit chunks gives 0110110, 1010011, 0100000 |
| Chunker.Checksum | skey.c:211-220 | the checksum is below 4 |
| Chunker.FieldSumAppend | skey.c:212-218 | the sum of 2-bit fields over the value is the sum over its bytes |
| Chunker.ByteFields | skey.c:213-217 | the four masked fields of a byte are its four 2-bit fields |
| Chunker.WordIndicesBits | skey.c:200-221 | six indices, each below 2048, whose 66 bits are the 64 bits of the value followed by the two checksum bits |
| Chunker.ChecksumIntoLastChunk | skey.c:209-220 | OR-ing the checksum into the sixth of the value's chunks gives the six word indices |
| Chunker.HashBreak | skey.c:205-221 | the six array entries are the word indices of the first 8 bytes of the hash |
| Combiner.Combined | skey_read.c:33-56 | the packing of n chunks of w bits has floor(w * n / 8) + 1 bytes |
| Combiner.Deposit | skey_read.c:45 | the current chunk bit is OR-ed into the current byte at position bitsOut; the other bytes are unchanged |
| Combiner.NextBit | skey_read.c:46-51 | the position moves one bit down; a full byte is closed and the next is cleared |
| Combiner.MoveBit | skey_read.c:45-51 | one pass of the inner loop moves the next stream bit into place |
| Combiner.PackChunk | skey_read.c:42-52 | the low chunkBits bits of a chunk, most significant first, are moved into the bytes |
| Combiner.Finished | skey_read.c:55 | when all bits are packed, the bytes started are the padded bytes of the stream, and the returned index is floor(bits / 8) |
| Combiner.CombineChunks | skey_read.c:33-56 | returns floor(chunkBits * numChunks / 8); bytes 0 up to that index are the packed chunks; the bytes after it are untouched |
| Combiner.CombinedBits | skey_read.c:40-55 | read bit by bit, the combined bytes are the low w bits of each chunk in turn, then zero bits to the end of the last byte |
| Combiner.HighBitsIgnored | skey_read.c:43-45 | chunks that agree on their low w bits combine to the same bytes |
| Combiner.CombinedPrefix | skey_read.c:33-56 | chunks whose bits start with the bits of b combine to bytes that start with b |
| Combiner.CombineUndoesChunk | skey_read.c:33-56 | combining the w-bit chunks of the bits of b gives back b in the first bytes |
| Dictionary.Visible | skey_read.c:10 | the part of the word the copying loop reads is a prefix of the word; every character in it has a positive signed value; the loop stops at the first character after it |
| Dictionary.VisibleAscii | skey_read.c:10 | a word of ASCII characters is read whole |
| Dictionary.StopsAt | skey_read.c:10 | the copying loop stops at the first character that fails the signed `> 0` test: a NUL or a byte 128..255 |
| Dictionary.CutAtStop | skey_read.c:10 | whatever follows a stopping character does not change the result |
| Dictionary.Upper | skey_read.c:12-13 | a letter becomes upper-case; upper-case letters and non-letters are kept |
| Dictionary.UpperWord | skey_read.c:10-13 | every character of the word is upper-cased in place |
| Dictionary.FirstMatch | skey_read.c:22-30 | the search returns -1 or an index at or after the start position whose entry equals the word |
| Dictionary.FirstMatchIs | skey_read.c:22-30 | the search returns -1 exactly when no entry from the start position equals the word; otherwise it returns the first matching index |
| Dictionary.DictIndexIs | skey_read.c:6-31 | the result is -2 exactly when a character the loop reads is not a letter; -1 exactly when the upper-cased letters match no entry; otherwise the first matching index |
| Dictionary.DictIndexRange | skey_read.c:6-31 | the result is -2, -1 or an index below 2048 |
| Dictionary.LetterUpToCase | skey_read.c:12-14 | characters with the same upper-case form are both letters or both not, and two such non-letters are equal |
| Dictionary.VisibleUpToCase | skey_read.c:10 | two casings of a word stop at the same place |
| Dictionary.CaseInsensitive | skey_read.c:12-13 | words that differ only in letter case are looked up alike |
| Dictionary.LookupOfEntry | skey_read.c:22-26 | in a table of distinct upper-case words, entry i in any casing is found at i |
| Dictionary.DictSearch | skey_read.c:6-31 | the result is the dictionary index of the word, -2 or -1 as specified |
| Otp.SelectHash | skey.c:279-295 | with no argument the hash is MD5; a chosen hash has the argument as its name; an error is an unknown-hash error naming the argument |
| Otp.SelectHashByName | skey.c:279-295 | each hash is chosen by its own name and no other; any other name is an unknown-hash error |
| Otp.Strlen | skey.c:304 | the length counts the bytes before the first NUL, or all bytes when there is none |
| Otp.Strncpy | skey.c:311-312 | the n bytes at the destination are the source up to its first NUL, then NUL bytes; every other byte is unchanged |
| Otp.StrncpyOf | skey.c:311-312 | the n bytes strncpy writes agree with the source up to its first NUL or n, whichever comes first, and are NUL from there to n; strlen reads back exactly that many |
| Otp.HashInput | skey.c:304-314 | the hashed buffer holds strlen(seed) + secret_sz bytes: the seed, then the secret up to its first NUL, then NUL bytes to the end; as a C string it is the seed followed by the secret up to its first NUL |
| Otp.NoNul | skey.c:304 | a seed without NUL bytes is read whole |
| Otp.HashInputPlain | skey.c:309-314 | without NUL bytes the hashed input is the seed followed by the secret |
| Otp.SecretAfterNul | skey.c:312 | secrets of the same length that agree up to their first NUL are hashed alike, because strncpy writes NUL bytes after it |
| Otp.SecretNulExample | skey.c:312 | the secret "ab", NUL, "cd" is hashed as "ab" followed by three NUL bytes |
| Otp.OtpChain | skey.c:309-317 | the password is 8 bytes; the password for count a + b is b more rounds over the password for count a |
| Otp.WordsOf | skey.c:326-328 | the printed word i is the dictionary entry at index i |
| Otp.Generate | skey.c:298-328 | the result is the generator output: a bad-rounds error for a negative count; otherwise the hexadecimal form and the six words of rounds + 1 rounds over the seed and the secret as strlen and strncpy copy them, the largest count included |
| Otp.PrependTwice | skey_read.c:79-86 | prepending found indices in two steps equals prepending them in one; prepending nothing changes nothing |
| Otp.LookUp | skey_read.c:79-86 | every index found is below 2048; a failure names one of the words still to be looked up |
| Otp.LookUpLength | skey_read.c:79-86 | a successful lookup gives one index per word |
| Otp.LookUpOk | skey_read.c:79-86 | the lookup succeeds exactly when every word is found |
| Otp.LookUpFound | skey_read.c:79-86 | words found at indices cs look up to exactly cs |
| Otp.LookUpStops | skey_read.c:79-84 | the lookup fails on the first word not found and names that word |
| Otp.ReaderRejects | skey_read.c:79-84 | the reader reports the first unknown word, whatever follows it |
| Otp.ReaderAccepts | skey_read.c:79-113 | the reader prints a value exactly when all six words are found |
| Otp.Read | skey_read.c:79-113 | the result is the reader output: an unknown-word error for the first word not found; otherwise the hexadecimal form of the first eight combined bytes |
| Otp.ReadWordsOf | skey_read.c:79-113 | the six words of a 64-bit value, read back, give the value's hexadecimal form |
| Otp.GenerateThenRead | skey.c:298-328 | the generator prints exactly for a non-negative count, and reading the six words it prints gives back the hexadecimal string it prints with them |
| Otp.CombinedChecksum | skey_read.c:63 | the ninth combined byte holds the checksum in its top two bits |
| Otp.ChecksumByte | skey_read.c:63 | two checksum bits followed by six zero bits make the byte 64 * c |
| Otp.ChecksumNotChecked | skey_read.c:88-112 | index lists that differ only in the low two bits of the sixth index print the same eight bytes, so the checksum is never checked |
| Otp.SplitLast | skey_read.c:88 | the bits of six indices are the first five, then the high nine bits of the sixth, then its low two |

## Left out

- The hash primitive (mhash's MD4, MD5 and SHA-1). `hash` is a parameter that returns digests of the right size; its cryptographic properties are not modelled.
- Reading the secret from the terminal (`skey_getpass`), argument counting, usage text, parsing the count with `sscanf("%d")`, `scanf("%4s")` of the words, `printf` and every message on stderr. The seed, secret, count, chosen hash name and words are parameters. The secret is the secret_sz bytes `skey_getpass` stores, NUL bytes included. Results are values of `Otp.Result`.
- The 2048-word table in dict.h. It is a parameter.
- `xx_hash_break` in skey.c (compiled out with `#if 0`) and masks.c. They are not part of this model.
- `malloc`, `realloc` and `free`. The model allocates arrays and never frees them.
- Dictionary.DictSearch: allocates `|word| + 1` characters for the copy, where `dict_search` allocates `strlen(word)` and then writes the terminating NUL one past the end. The model does not capture that one-byte overflow.
- Dictionary.DictSearch: `strcmp` against each entry is modelled as sequence equality.
- Dictionary.DictSearch: characters are treated as single bytes; a character from 128 on stands for a byte whose signed value is negative.
- Hex.HashHex: `sprintf("%.2x")` writes a NUL after every pair of digits; the model writes it too, and states only the last one in the contract.
- Chunker.DataChunk: requires `1 <= inputSize`. With no input bytes the C loop reads past the buffer and never meets `in == inputsz`.
- Chunker.DataChunk: requires `chunkBits <= 31` and storage for every chunk. Above 31 the C shift `bit << ...` overflows an int; the comment at skey.c:160 demands the storage.
- Combiner.CombineChunks: requires `chunkBits <= 31`, because `1 << bits_in` on an int overflows above that. Its one caller (skey_read.c:88) uses 11.
- Chunk values are unbounded naturals instead of `unsigned long`. Every chunk stored is below 2048, so the width never matters.
- Otp.Generate: `rounds + 1` (skey.c:317) and `--rounds` (skey.c:121) are modelled as 32-bit two's-complement wrap-around; signed overflow is undefined in C, and a compiler that exploits that is not modelled.
- Otp.Generate: the seed is taken as a byte sequence whose end stands for its terminating NUL; an argument cannot hold a NUL byte, so only the bytes before one would reach strlen.
- Fold.DoHash: the digest buffer copy (`Fold.Buffer`) stands for the memory the hash library hands out. `free` of the previous round's buffer is not modelled.
