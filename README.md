# A verified model of a toy 64-bit Feistel block cipher

`cipher.cpp` is a small interactive program around a 64-bit, 32-round
Feistel cipher:

- **Blocks and halves.** A block is split into two 32-bit halves.
- **Encryption rounds.** Each round swaps the halves, XORs the old left half
  with a round function `F` of the right half, and then applies a fixed
  XOR/shift/rotate permutation layer.
- **Round function.** `F` looks up the four bytes of its input in one row of
  a global table `sboxes[32][256]`, XORs the lookups, then rotates and mixes
  the result.
- **Decryption.** Decryption runs the rounds backwards, 31 down to 0. Each
  round applies the inverse permutation first and then undoes the swap.
- **Around the cipher.** The program also:
  - schedules 32 round keys from a 64-bit user key;
  - contains a generator for S-box rows from inverses modulo 257 (never
    called, see below);
  - packs at most eight bytes of text into a block, most significant byte
    first, and unpacks a block back into text;
  - prints and parses blocks as sixteen hexadecimal digits;
  - runs three small cryptanalysis counters.

This project models that core in Dafny. The modules follow the program's
parts:

| module | file | models |
|---|---|---|
| `Bits` | bits.dfy | C `int` range and its conversion to `unsigned int`, C's truncating `%`, bit extraction and population counts |
| `SBox` | sbox.dfy | the flat `sboxes` table, `modInverse`, `generateSBox`, and the number theory showing every residue 1..255 has a unique inverse modulo 257 |
| `FeistelRound` | round.dfy | `permutationStep`, `inversePermutationStep`, `feistelFunction` |
| `BlockCipher` | block_cipher.dfy | the 32-round engine `feistelEncrypt` / `feistelDecrypt`, for any round function and for any table |
| `KeySchedule` | key_schedule.dfy | `simpleHash`, `generateRoundKeys` |
| `Codec` | codec.dfy | `stringLength`, `stringTo64Bit`, `longLongToString`, the space padding and the trailing-space trim of the menu |
| `Hex` | hex.dfy | the digits `printHex` writes, and the 16-character parse loop `main` runs on the key and on a ciphertext |
| `Cryptanalysis` | cryptanalysis.dfy | the counting loops of `avalancheTest`, `differentialTest`, `linearTest` |
| `Menu` | menu.dfy | the key check and the encrypt and decrypt options of `main`, without the console |

Where the source works step by step, the model is imperative Dafny, and each
method is proved against a specification function:

- **Loops.** The loops of `simpleHash`, `modInverse`, `feistelEncrypt`,
  `feistelDecrypt`, `stringLength`, `stringTo64Bit`, `printHex`, the hex
  parse and the counters are modelled as methods with `while` or `for`
  loops.
- **Global arrays.** The array fills of `generateSBox`, `generateRoundKeys`,
  `longLongToString`, the pad and the trim write to `array` parameters
  that stand for the program's global or local buffers.
- **Round function.** `feistelFunction` is straight-line code, so it is a
  function.

Representation choices:

- **Fixed-width values.** `unsigned int` is `bv32`, `unsigned long long` is
  `bv64`, and a `char` is a byte, `bv8`.
- **The S-box table.** The table is one flat sequence of 8192 C `int`s in
  C's row-major layout, the subset type `CInt`. It is passed to the
  functions as a parameter.
- **Round function as a parameter.** The round structure is proved for an
  arbitrary round function `f: (int, bv32) -> bv32`.
- **The decryption theorem.** The central result is that decryption undoes
  encryption for every block and for every table: `BlockCipher.CipherRoundTrip`.
  It is carried through to the menu in `Menu.MenuRoundTrip`. Type a
  plaintext of at most eight bytes in option 1, then type the printed
  ciphertext in option 2. What comes back is the plaintext without its
  trailing spaces: the trim at cipher.cpp:359-361 removes them. So a
  plaintext that does not end in a space comes back unchanged, while "A "
  comes back as "A".

What the program as written does differently from what one might expect:

- **`generateSBox` is never called.** The global table therefore stays all
  zero. Under that table the round function is constantly 0, and
  encryption is a fixed key-independent map of the block:
  `BlockCipher.ZeroTableEncrypt`.
- **The round keys are never read.** `generateRoundKeys` fills `roundKeys`,
  but neither encryption nor decryption reads them. This is seen in the
  source: none of cipher.cpp:123-193 mentions `roundKeys`, so the model's
  `FeistelEncrypt` and `FeistelDecrypt` take no round-key parameter. The
  verifier does not discover the fact. `Menu.KeyIndependence` records its
  consequence: it schedules two keys in turn and gets the same ciphertext
  and the same plaintext after each.
- **The parse loop validates nothing.** It does not reject characters
  outside `0-9A-Fa-f`; such a character contributes the digit 0. For the
  ciphertext it does not even check the length of the line. The key line is
  checked for length 16 only, not for hex characters.

The error message at cipher.cpp:289 says the key must be "exactly 16
hexadecimal characters", but cipher.cpp:288 checks only the length.
Nothing in `cipher.cpp` calls `generateSBox` (defined at cipher.cpp:88).

## Model

| member | source | states |
|---|---|---|
| `Bits.ToU32` | cipher.cpp:128-130 | the `unsigned int` that a C `int` table cell converts to before the XOR: its value modulo 2^32; below 256 for a cell in 0..255 (`SmallToU32`) |
| `Bits.Bit` | cipher.cpp:228 | bit `i` of a 64-bit word, `(x >> i) & 1`, as the three tests extract it (also cipher.cpp:258 and 272); the popcount lemmas count these bits |
| `Bits.CRem` | cipher.cpp:81 | C's `%` truncates toward zero: equal to the Euclidean remainder for a non-negative dividend, in `(-m, 0]` for a negative one |
| `Bits.PopCountBelow` | cipher.cpp:226-230 | the number of set bits among the lowest `n` is at most `n` |
| `Bits.PopCountZero` | cipher.cpp:226-230 | a word's population count is at most 64, and it is 0 exactly when the word is 0 |
| `SBox.CellAt` | cipher.cpp:7 | the cell `sboxes[round][i]` of the declared `int sboxes[32][256]`, at offset `round * 256 + i` of the row-major table; `Row` is made of these cells |
| `SBox.IsInverse` | cipher.cpp:81 | the test `(a * x) % 257 == 1` with C's truncating `%`; `InverseExists` and `InverseUnique` say which `x` pass it |
| `SBox.Row` | cipher.cpp:7 | row `round` of the flat table has 256 entries, entry `i` being cell `round * 256 + i` (`sboxes[round][i]`) |
| `SBox.ExtendedGcd` | cipher.cpp:79-85 | extended Euclid: a positive common divisor of `a` and `b` with Bezout coefficients |
| `SBox.InverseExists` | cipher.cpp:79-85 | every `a` in 1..255 has an inverse modulo 257 in 1..255, so the search of `modInverse` always succeeds on them |
| `SBox.InverseUnique` | cipher.cpp:79-85 | inverses modulo 257 in 1..255 are unique, so the first one found is the only one |
| `SBox.ModInverse` | cipher.cpp:79-85 | returns the least `i` in 1..255 with `(a * i) % 257 == 1` in C arithmetic, or 0 when none exists; for `a` in 1..255 the result is nonzero and an inverse |
| `SBox.ModInput` | cipher.cpp:90-93 | the argument passed to `modInverse` always lies in 1..255, because 0 is forced to 1 |
| `SBox.GenerateSBox` | cipher.cpp:88-95 | every entry of row `round` becomes the inverse modulo 257 of its `ModInput`, in 1..255, and no other cell of the table changes |
| `FeistelRound.MixIntoLeft` | cipher.cpp:107 | `left ^= right >> 3` is undone by XOR-ing the same term again |
| `FeistelRound.MixIntoRight` | cipher.cpp:108 | `right ^= left << 5` is undone by XOR-ing the same term again |
| `FeistelRound.SwapHalves` | cipher.cpp:109 | the halves exchanged one way (line 109) equal the halves exchanged the other way (line 116), so one step serves both layers |
| `FeistelRound.RotateRight8` | cipher.cpp:110 | the shift pair of line 110 is rotation right by 8 |
| `FeistelRound.RotateLeft8` | cipher.cpp:115 | the shift pair of line 115 is rotation left by 8 |
| `FeistelRound.Permute` | cipher.cpp:106-111 | the four statements of `permutationStep` on a pair of halves, in source order; undone by `InversePermute` (`InversePermuteUndoesPermute`) |
| `FeistelRound.InversePermute` | cipher.cpp:114-119 | the four statements of `inversePermutationStep` in source order; undone by `Permute` (`PermuteUndoesInversePermute`) |
| `FeistelRound.MixTwice` | cipher.cpp:107-108 | each XOR step of the layer is an involution for a fixed other half |
| `FeistelRound.RotationsCancel` | cipher.cpp:109-116 | swapping the halves twice gives the word back, and so do the two rotations by 8 in either order |
| `FeistelRound.InversePermuteUndoesPermute` | cipher.cpp:106-119 | `inversePermutationStep` after `permutationStep` restores every pair of words |
| `FeistelRound.PermuteUndoesInversePermute` | cipher.cpp:106-119 | `permutationStep` after `inversePermutationStep` restores every pair, so the layer is a bijection |
| `FeistelRound.PermuteInjective` | cipher.cpp:106-111 | distinct pairs stay distinct under `permutationStep` |
| `FeistelRound.PermutationStep` | cipher.cpp:106-111 | the four in-place statements compute the permutation `Permute` of the pair |
| `FeistelRound.InversePermutationStep` | cipher.cpp:114-119 | the four in-place statements compute `InversePermute` of the pair |
| `FeistelRound.ByteOfHalf` | cipher.cpp:124-127 | byte `k` of the half, `k = 0` being the most significant: the `a`, `b`, `c`, `d` that `feistelFunction` extracts |
| `FeistelRound.Lookup` | cipher.cpp:128-130 | the cell `sboxes[round][x]` of one row, converted from `int` to `unsigned int`; 0 on an all-zero row (`ZeroRowLookup`) and below 256 on a row of bytes (`LookupBelow256`) |
| `FeistelRound.Lookups` | cipher.cpp:124-130 | the XOR of the lookups of the four bytes of `halfBlock` in row `round`; 0 when that row is all zero |
| `FeistelRound.ZeroRowLookup` | cipher.cpp:128-130 | a lookup in an all-zero row gives 0 |
| `FeistelRound.RotateLeft7` | cipher.cpp:131 | the shift pair is rotation left by 7 |
| `FeistelRound.FoldHighHalf` | cipher.cpp:132 | `res ^= res >> 16` leaves the high 16 bits unchanged |
| `FeistelRound.RotateLeft3` | cipher.cpp:133 | the shift pair is rotation left by 3 |
| `FeistelRound.Diffuse` | cipher.cpp:131-133 | the rotate, fold, rotate sequence applied to the XOR of the lookups; it maps 0 to 0 |
| `FeistelRound.FeistelFunction` | cipher.cpp:123-135 | `feistelFunction(halfBlock, round)`: the mixed XOR of the four lookups, from which `UndoDiffuse` recovers that XOR |
| `FeistelRound.RotateRight3` | cipher.cpp:133 | the shift pair that undoes line 133 is rotation right by 3 |
| `FeistelRound.RotateRight7` | cipher.cpp:131 | the shift pair that undoes line 131 is rotation right by 7 |
| `FeistelRound.FoldTwice` | cipher.cpp:132 | folding the high half in twice gives the word back |
| `FeistelRound.RotateLeft3Back` | cipher.cpp:133 | rotating right by 3 undoes line 133 |
| `FeistelRound.RotateLeft7Back` | cipher.cpp:131 | rotating right by 7 undoes line 131 |
| `FeistelRound.DiffuseInvertible` | cipher.cpp:131-133 | the last three lines of `feistelFunction` lose nothing: `UndoDiffuse` recovers their input |
| `FeistelRound.DiffuseInjective` | cipher.cpp:131-133 | distinct XORs of lookups give distinct outputs of `feistelFunction` |
| `FeistelRound.FeistelFunctionReadsOneRow` | cipher.cpp:123-135 | `feistelFunction(half, round)` depends only on `half` and row `round` of the table |
| `FeistelRound.LookupsBelow256` | cipher.cpp:124-130 | when the row's entries are bytes, the XOR of the four lookups is below 256 before the rotations |
| `FeistelRound.GeneratedRowOfBytes` | cipher.cpp:88-94 | a row written by `generateSBox` has all its entries in 0..255 |
| `FeistelRound.ZeroRowGivesZero` | cipher.cpp:123-135 | with an all-zero row `feistelFunction` returns 0 for every input |
| `FeistelRound.LookupBelow256` | cipher.cpp:128-130 | a lookup in a row of byte-sized entries is below 256 |
| `FeistelRound.SmallToU32` | cipher.cpp:128 | an `int` in 0..255 converts to an `unsigned int` below 256 |
| `BlockCipher.Split` | cipher.cpp:139-140 | the left half is bits 63..32 of the block and the right half bits 31..0; undone by `Join` (`JoinSplit`, `SplitJoin`) |
| `BlockCipher.Join` | cipher.cpp:155 | `((unsigned long long)left << 32) \| right`; undone by `Split` |
| `BlockCipher.TableRoundFunction` | cipher.cpp:123-135 | `feistelFunction` over a given table, as the round function both loops call for rounds 0..31 |
| `BlockCipher.JoinSplit` | cipher.cpp:139-155 | joining the two halves extracted from a block gives the block back |
| `BlockCipher.SplitJoin` | cipher.cpp:139-155 | extracting the halves of a joined pair gives the pair back |
| `BlockCipher.XorWord` | cipher.cpp:145 | the Feistel XOR of a half with the round function's output (also cipher.cpp:177); `XorCancel` says that XOR-ing twice cancels |
| `BlockCipher.XorCancel` | cipher.cpp:145-177 | XOR-ing in the same round-function output twice cancels |
| `BlockCipher.EncryptRound` | cipher.cpp:144-147 | encryption round `round`: the new right half is the old left XOR `F(right, round)`, the new left half the old right, then `permutationStep` |
| `BlockCipher.DecryptRound` | cipher.cpp:174-177 | decryption round `round`: `inversePermutationStep`, then the new right half is the left, and the new left is the right XOR `F(left, round)` |
| `BlockCipher.DecryptRoundUndoesEncryptRound` | cipher.cpp:143-177 | decryption round `r` undoes encryption round `r`, for any round function |
| `BlockCipher.EncryptRoundUndoesDecryptRound` | cipher.cpp:143-177 | encryption round `r` undoes decryption round `r` |
| `BlockCipher.EncryptRounds` | cipher.cpp:143-154 | the halves after encryption rounds 0 up to n-1, applied in increasing order; undone by `DecryptRounds` (`DecryptRoundsUndoEncryptRounds`) |
| `BlockCipher.DecryptRounds` | cipher.cpp:173-184 | the halves after decryption rounds n-1 down to 0, applied in decreasing order; undone by `EncryptRounds` (`EncryptRoundsUndoDecryptRounds`) |
| `BlockCipher.DecryptRoundsUndoEncryptRounds` | cipher.cpp:143-185 | decryption rounds `n-1..0` undo encryption rounds `0..n-1` |
| `BlockCipher.EncryptRoundsUndoDecryptRounds` | cipher.cpp:143-185 | encryption rounds `0..n-1` undo decryption rounds `n-1..0` |
| `BlockCipher.EncryptRoundsUndoDecryptRoundsStep` | cipher.cpp:143-185 | the inductive step: adding round `n-1` on both sides keeps encryption undoing decryption |
| `BlockCipher.EncryptRoundsStep` | cipher.cpp:143-147 | encryption ends with its highest round |
| `BlockCipher.DecryptRoundsStep` | cipher.cpp:173-177 | decryption starts at the highest round and continues with the rest |
| `BlockCipher.EncryptWith` | cipher.cpp:138-155 | `feistelEncrypt` for a given round function: split, 32 encryption rounds, join; inverted by `DecryptWith` (`DecryptUndoesEncrypt`) |
| `BlockCipher.DecryptWith` | cipher.cpp:168-185 | `feistelDecrypt` for a given round function: split, decryption rounds 31 down to 0, join; inverted by `EncryptWith` (`EncryptUndoesDecrypt`) |
| `BlockCipher.Encrypt` | cipher.cpp:138-155 | `feistelEncrypt` with the round function of the S-box table; inverted by `Decrypt` (`CipherRoundTrip`) |
| `BlockCipher.Decrypt` | cipher.cpp:168-185 | `feistelDecrypt` with the round function of the S-box table; inverted by `Encrypt` (`CipherRoundTrip`) |
| `BlockCipher.DecryptUndoesEncrypt` | cipher.cpp:138-193 | `feistelDecrypt(feistelEncrypt(d)) == d` for every block and every round function |
| `BlockCipher.EncryptUndoesDecrypt` | cipher.cpp:138-193 | `feistelEncrypt(feistelDecrypt(d)) == d` for every block and every round function |
| `BlockCipher.EncryptInjective` | cipher.cpp:138-163 | two blocks have equal ciphertexts exactly when they are equal |
| `BlockCipher.CipherRoundTrip` | cipher.cpp:138-193 | for any contents of `sboxes`, decryption undoes encryption and encryption undoes decryption |
| `BlockCipher.ZeroRoundFunctionRounds` | cipher.cpp:143-155 | with a round function that is 0 on rounds 0..31, each round is only the swap and the permutation layer |
| `BlockCipher.ZeroTableRoundFunction` | cipher.cpp:123-135 | the all-zero table gives a round function that is 0 on every round and half |
| `BlockCipher.ZeroTableEncrypt` | cipher.cpp:138-155 | with the all-zero table encryption is 32 rounds of swap-and-permute, independent of any key |
| `BlockCipher.FeistelEncryptWith` | cipher.cpp:138-155 | the loop over rounds 0..31 and the final join compute `EncryptWith(f, data)` |
| `BlockCipher.FeistelDecryptWith` | cipher.cpp:168-185 | the loop over rounds 31..0 and the final join compute `DecryptWith(f, data)` |
| `BlockCipher.FeistelEncrypt` | cipher.cpp:138-155 | `feistelEncrypt(data)` over the global table gives `Encrypt(sboxes, data)` |
| `BlockCipher.FeistelDecrypt` | cipher.cpp:168-185 | `feistelDecrypt(data)` over the global table gives `Decrypt(sboxes, data)` |
| `KeySchedule.RotateLeft7` | cipher.cpp:51 | the shift pair is rotation left by 7 |
| `KeySchedule.ScheduleRoundsInRange` | cipher.cpp:51-60 | for rounds 0..31 the `int` expression `round * 157 + i * 73` does not overflow |
| `KeySchedule.Tweak` | cipher.cpp:51 | the C `int` `round * 157 + i * 73` converted to `unsigned long long` for the XOR, that is, taken modulo 2^64 |
| `KeySchedule.XorTweak` | cipher.cpp:51 | the XOR of the rotated hash with the converted tweak |
| `KeySchedule.Scramble` | cipher.cpp:52 | `hash ^ ((hash << 11) ^ (hash >> 3))`, the second statement of the loop body |
| `KeySchedule.HashStep` | cipher.cpp:51-52 | one iteration of the loop of `simpleHash`: rotate left by 7, XOR with `round * 157 + i * 73` converted to 64 bits, then `hash ^= (hash << 11) ^ (hash >> 3)` |
| `KeySchedule.HashAfter` | cipher.cpp:49-53 | the hash after the first n iterations, starting from `base ^ 0xA5A5A5A5A5A5A5A5`; the loop's invariant in `SimpleHash` |
| `KeySchedule.SimpleHashOf` | cipher.cpp:48-55 | the hash after all eight iterations, which `SimpleHash` returns |
| `KeySchedule.SimpleHash` | cipher.cpp:48-55 | the eight-iteration loop returns `SimpleHashOf(base, round)` |
| `KeySchedule.KeyByteIndex` | cipher.cpp:61 | the byte position of round `i` is `i % 8`, below 8 |
| `KeySchedule.ByteOf` | cipher.cpp:61 | byte `k` of a 64-bit word counted from the least significant, `(x >> (k * 8)) & 0xFF` |
| `KeySchedule.RoundKey` | cipher.cpp:60-61 | the key of round `i`: byte `i % 8`, counted from the least significant, of `simpleHash(key, i)` |
| `KeySchedule.RoundKeySchedule` | cipher.cpp:58-63 | 32 keys, key `i` being byte `i % 8` of `simpleHash(key, i)` |
| `KeySchedule.GenerateRoundKeys` | cipher.cpp:58-63 | after the call `roundKeys` is exactly the schedule of `key`, determined by `key` alone |
| `Codec.NulFrom` | cipher.cpp:25-26 | the first NUL at or after a position |
| `Codec.CStringLength` | cipher.cpp:23-28 | the length of a C string is the position of its first NUL |
| `Codec.CStringLengthUnique` | cipher.cpp:23-28 | a NUL with none before it is where the string ends |
| `Codec.Content` | cipher.cpp:23-28 | the bytes before the first NUL contain no NUL |
| `Codec.StringLength` | cipher.cpp:23-28 | `stringLength` returns the position of the first NUL |
| `Codec.Place` | cipher.cpp:203-204 | a byte shifted to position `k` from the most significant end, `b << (56 - k * 8)`; read back by `ByteAt` (`ByteAtOrPlaceSame`, `ByteAtOrPlaceOther`) |
| `Codec.ByteAt` | cipher.cpp:212 | byte `k` of a block from the most significant end, `(d >> (56 - k * 8)) & 0xFF` |
| `Codec.ByteAtOrPlaceSame` | cipher.cpp:203-212 | OR-ing in a byte placed at position `k` ORs it into byte `k` |
| `Codec.ByteAtOrPlaceOther` | cipher.cpp:203-212 | OR-ing in a byte placed elsewhere leaves byte `k` unchanged |
| `Codec.ByteAtZero` | cipher.cpp:200 | the zero block has zero bytes |
| `Codec.Field` | cipher.cpp:203 | the byte `stringTo64Bit` takes for position `k`: the string's byte when `k` is below its length, 0 otherwise; `ByteAtPackPrefix` and `UnpackPrefixOfPack` are stated through it |
| `Codec.PackPrefix` | cipher.cpp:200-205 | the block after the first n iterations of `stringTo64Bit`: the bytes of the string (0 past its end) OR-ed in at positions 0..n-1; pointwise in `ByteAtPackPrefix` |
| `Codec.Pack` | cipher.cpp:200-205 | the block after all eight iterations; inverted by `Unpack` up to zero fill (`UnpackPack`) |
| `Codec.StringTo64Bit` | cipher.cpp:199-207 | the result is `Pack` of the string's content: the bytes before the NUL, at most eight, most significant first |
| `Codec.ByteAtPackPrefix` | cipher.cpp:199-207 | after `n` iterations, byte `k` of the block is byte `k` of the string when `k < n` and within the string, and 0 otherwise |
| `Codec.UnpackPrefix` | cipher.cpp:211-212 | the first `m` unpacked bytes form a sequence of length `m` |
| `Codec.Unpack` | cipher.cpp:210-214 | `longLongToString` writes eight bytes before its NUL |
| `Codec.LongLongToString` | cipher.cpp:210-214 | `output[0..8]` holds the eight bytes of `data`, most significant first, `output[8]` is NUL, and the rest of the buffer is unchanged |
| `Codec.ZeroFill` | cipher.cpp:203 | a string cut or zero-filled to length `m` |
| `Codec.UnpackPrefixOfPack` | cipher.cpp:199-214 | unpacking the first `m` bytes of a packed string gives its first `m` bytes, zero-filled |
| `Codec.UnpackPack` | cipher.cpp:199-214 | `longLongToString(stringTo64Bit(s))` gives the first `min(len, 8)` bytes of `s` followed by NULs |
| `Codec.UnpackPackEight` | cipher.cpp:199-214 | an eight-byte string comes back unchanged |
| `Codec.Spaces` | cipher.cpp:327-328 | `n` bytes, all spaces |
| `Codec.Padded` | cipher.cpp:326-329 | the padded string has exactly eight bytes |
| `Codec.TrimSpaces` | cipher.cpp:358-361 | the result is a prefix of the input that does not end in a space, and everything cut off is spaces |
| `Codec.TrimSpacesAfterSpaces` | cipher.cpp:326-361 | appending spaces does not change what trimming leaves |
| `Codec.TrimPadded` | cipher.cpp:326-361 | padding with spaces and then trimming gives the trimmed string, and gives the string itself when it has no trailing space |
| `Codec.PadWithSpaces` | cipher.cpp:326-329 | the buffer becomes the line padded with spaces to eight and a NUL, with the rest of the buffer unchanged |
| `Codec.TrimTrailingSpaces` | cipher.cpp:358-361 | the string left in `out` is its first eight bytes without their trailing spaces; only the cell at the new end changes |
| `Hex.Nibble` | cipher.cpp:33 | a nibble is below 16 |
| `Hex.HexDigit` | cipher.cpp:34-35 | the digit written for a nibble is one of `0-9A-F` |
| `Hex.HexPrefix` | cipher.cpp:32-36 | the first `m` iterations write `m` characters |
| `Hex.HexText` | cipher.cpp:31-37 | `printHex` writes exactly sixteen characters |
| `Hex.HexPrefixDigits` | cipher.cpp:31-37 | every character written is one of `0-9A-F` |
| `Hex.HexPrefixAt` | cipher.cpp:32-36 | character `j` of the first `m` written is the digit of nibble `15 - j` |
| `Hex.HexTextAt` | cipher.cpp:31-37 | the most significant nibble comes first: character `j` is the digit of nibble `15 - j` |
| `Hex.PrintHex` | cipher.cpp:31-37 | the loop writes `HexText(value)`, sixteen characters from `0-9A-F` |
| `Hex.DigitValue` | cipher.cpp:295-300 | the value OR-ed in is below 16, and is 0 for any character outside `0-9A-Fa-f` |
| `Hex.DigitValueIgnoresCase` | cipher.cpp:297-300 | `A-F` and `a-f` are read alike |
| `Hex.DigitValueOfHexDigit` | cipher.cpp:295-298 | the digit `printHex` writes for a nibble is read back as that nibble |
| `Hex.ShiftIn` | cipher.cpp:294-300 | one iteration of the parse loop: `data <<= 4` then OR in the digit; `ShiftInNibble` says what it does to the nibbles |
| `Hex.ParseDigits` | cipher.cpp:292-301 | what the parse loop computes: each character shifts the value left by 4 and ORs in its `DigitValue` |
| `Hex.ParseHex` | cipher.cpp:292-301 | the loop over sixteen characters computes `ParseDigits` of them |
| `Hex.ShiftInNibble` | cipher.cpp:294-296 | shifting in nibble `i` below the higher nibbles gives the nibbles from `i` up |
| `Hex.ParseHexPrefix` | cipher.cpp:292-301 | parsing the first `m` characters `printHex(v)` writes gives the top `m` nibbles of `v` |
| `Hex.ParseHexText` | cipher.cpp:292-301 | parsing the sixteen characters of `printHex(v)` gives `v` back |
| `Cryptanalysis.Flipped` | cipher.cpp:220 | flipping the lowest bit always changes the block |
| `Cryptanalysis.BitOfXor` | cipher.cpp:228 | bit `i` of `enc1 ^ enc2` is set exactly when bit `i` of `enc1` and of `enc2` differ |
| `Cryptanalysis.XorZero` | cipher.cpp:252 | `enc1 ^ enc2` is 0 exactly when the two are equal |
| `Cryptanalysis.Difference` | cipher.cpp:252 | `enc1 ^ enc2`, the bits where two ciphertexts differ; `BitOfXor` and `XorZero` give its bits and when it is zero |
| `Cryptanalysis.BitDifferences` | cipher.cpp:226-230 | the count equals the population count of `enc1 ^ enc2` |
| `Cryptanalysis.AvalancheBounds` | cipher.cpp:218-230 | the ciphertexts of a block and of the block with bit 0 flipped differ in 1 to 64 bits, for any table |
| `Cryptanalysis.Percent` | cipher.cpp:233 | `diff * 100 / 64` rounded down, and in 1..100 when `diff` is in 1..64 |
| `Cryptanalysis.AvalancheTest` | cipher.cpp:218-233 | `diff` is the number of differing ciphertext bits, in 1..64, and the reported percentage is `diff * 100 / 64`, in 1..100 |
| `Cryptanalysis.HoldsSetBitsStep` | cipher.cpp:257-260 | one iteration keeps "exactly the set bits below `i`" |
| `Cryptanalysis.AscendingStep` | cipher.cpp:257-260 | one iteration keeps the positions ascending |
| `Cryptanalysis.SetBitPositions` | cipher.cpp:257-260 | the positions listed are exactly the set bits of `diff`, in ascending order, as many as its population count |
| `Cryptanalysis.DifferentialTest` | cipher.cpp:245-260 | `diff` is the XOR of the two ciphertexts and never 0, and the listed positions are exactly its set bits, ascending, 1 to 64 of them |
| `Cryptanalysis.ParityBit` | cipher.cpp:270-274 | a parity is 0 or 1 |
| `Cryptanalysis.ParityStep` | cipher.cpp:272-273 | XOR-ing in one more bit steps the parity of the count |
| `Cryptanalysis.BitParities` | cipher.cpp:270-274 | `inputXOR` and `outputXOR` are the parities of the population counts of the block and of its ciphertext |
| `Cryptanalysis.LinearTest` | cipher.cpp:266-277 | the two parities as above, and "High Correlation" exactly when the popcounts of block and ciphertext have the same parity |
| `Menu.InitialSBoxes` | cipher.cpp:7 | the global table as the program starts: 8192 cells, all zero |
| `Menu.ReadKey` | cipher.cpp:288-301 | a key line is refused exactly when its length is not 16; an accepted key is the parse of its sixteen characters |
| `Menu.ReadKeyOfHexText` | cipher.cpp:284-301 | a key typed as the sixteen digits `printHex` writes is accepted and read back as that key |
| `Menu.Start` | cipher.cpp:282-304 | the key is accepted exactly when the line has length 16; then `roundKeys` is its schedule, otherwise `roundKeys` is unchanged |
| `Menu.EncryptOption` | cipher.cpp:323-338 | option 1 shows `printHex` of the encryption of the line padded with spaces to eight bytes, and leaves the padded line in the buffer |
| `Menu.DecryptOption` | cipher.cpp:340-364 | the bytes of `out` up to `dlen` are the decryption of the parsed ciphertext, unpacked and with trailing spaces trimmed, and `out[dlen]` is NUL; line 362 prints them up to the first NUL |
| `Menu.MenuRecoversPadded` | cipher.cpp:323-357 | for any table, parsing, decrypting and unpacking the hex option 1 prints for a plaintext gives back the plaintext padded with spaces to eight bytes |
| `Menu.MenuRoundTrip` | cipher.cpp:323-364 | for any table, a plaintext of at most eight bytes encrypted in option 1 comes back from option 2, given the printed hex, with its trailing spaces trimmed; it comes back unchanged when it has no trailing space |
| `Menu.KeyIndependence` | cipher.cpp:138-185 | encryption and decryption after scheduling one key and after scheduling another give the same ciphertext and the same plaintext: `roundKeys` is never read |

## Left out

- Console output is not modelled. This covers `printBinary`,
  `printComplexity`, `displayRoundKeys`, the S-box dump in `generateSBox`,
  the per-round and final printing in `feistelEncrypt` and `feistelDecrypt`,
  and the printing in the three tests. What a test prints is returned
  as values instead. `printHex` is modelled as the sequence of characters it
  writes.
- The interactive part of `main` is not modelled: the menu loop, the `std::cin`
  reads, the option switch, and the behaviour of `getline` on long lines. The
  line `getline` leaves in the buffer is a parameter. For the
  encrypt option that is nine bytes with a NUL among them.
- A `char` is modelled as an unsigned byte. With a signed `char`, a byte of
  0x80 or more would be sign-extended at cipher.cpp:203 and would set the
  high bits of the block. That case is not modelled.
- `Codec.UnpackPack` is proved only in the direction string → block →
  string. The other direction, `stringTo64Bit(longLongToString(d))`, is not
  an identity: `stringLength` stops at the first NUL byte of the block.
- `KeySchedule.Tweak` has no contract of its own. It is the C `int`
  expression `round * 157 + i * 73` converted to `unsigned long long`, that
  is, taken modulo 2^64. `KeySchedule.SimpleHash` requires that this
  expression does not overflow `int`. That holds for every round that
  `generateRoundKeys` passes (`KeySchedule.ScheduleRoundsInRange`).
- `FeistelRound.FoldHighHalf` states only that the high 16 bits are
  unchanged, not the full mixed value. That the fold is its own inverse is
  the separate lemma `FeistelRound.FoldTwice`.
- `BlockCipher.EncryptRound`, `BlockCipher.DecryptRound` and
  `Hex.ParseDigits` carry no `ensures` of their own. What they satisfy is
  stated by the lemmas about them. For the rounds these are
  `DecryptRoundUndoesEncryptRound` and its converse. For the parse they
  are `ParseHexPrefix` and `ParseHexText`.
- `SBox.ModInverse` requires `|a| <= 8421504` (`MOD_INVERSE_BOUND`), so that
  every product `a * i` with `i < 256` fits in a C `int`. A larger `a` can
  overflow `int`, which is undefined behaviour in C, and the model does not
  follow it there. The source does handle some larger inputs without
  overflow, for example `a = 257 * 40000 + 1`, whose loop returns 1 at
  `i = 1`. The only caller, cipher.cpp:94, passes values in 1..255.
- Loop counters that the source declares `int` are `bv8` or `int` in the
  model, depending on whether they feed a shift. The counters never leave
  0..64, so no value differs.
- Uninitialised bytes are parameters. The ciphertext parse reads sixteen
  bytes of the buffer even when the line typed is shorter. The model takes
  those bytes as given.
