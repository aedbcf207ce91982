# facekid in Dafny

This project models the two primitives of facekid exactly as the C
code computes them:

- **`Cipher`** (`cipher.dfy`) models `src/facekid.c`. It is a single-block cipher shaped after
  the AES Cipher and InvCipher of FIPS 197 (sections 5.1 and 5.3). It keeps SubBytes, ShiftRows
  and AddRoundKey over a 16-byte column-major state, with ten rounds. It has no MixColumns and no
  key schedule. Only bytes 0..15 of the 176-byte round-key buffer are ever written (the key). The
  other 160 bytes are whatever the stack held; the model takes them as the parameter `uninit`.
  Both lookup tables list only 32 of their 256 entries, and C zero-fills the rest. The model
  keeps them exactly so.
- **`Md5`** (`md5.dfy`) models `src/md5.c`. It is an MD5-like digest following RFC 1321:
  padding and length append (sections 3.1-3.2), the initial registers (section 3.3) and the
  64-step compression (section 3.4). Two deviations of the code are kept, not fixed:
  - the rotation table `S` has only 48 entries, so steps 48..63 read 16 words past its end;
    the model takes those words as the parameter `beyond`;
  - every state word is rendered with `"%08x"`, most significant digit first, not the
    low-order-byte-first output of RFC 1321 section 3.5.

Both modules follow the shape of the code. The pure parts (the F/G/H/I macros, `ROTATE_LEFT`,
the tables, and the specification of every step) are functions. The parts that change state in
place are methods over arrays: the cipher steps, `aes_cipher`, `aes_decode`, `md5_transform`
and `md5_get_hash`. Each method's postcondition ties its result or new state to the
specification functions. Lemmas then prove the promised properties of those functions:
- inverses and involutions;
- the conditional round trip of the cipher, and its failure with the tables as written;
- agreement between the code's register-renaming compression and the fixed-register
  formulation of RFC 1321;
- the exact padding layout;
- block-wise composition of the digest;
- the hex rendering being readable back word by word.

Bytes are `bv8` and words are `bv32`, so every 32-bit addition wraps modulo 2^32 as `uint32_t`
does. The bit length is reduced modulo 2^64 as `strlen(text) * 8` in 64 bits is.

Three facts about the code are worth stating:
- The code renders words most significant digit first, not low-order byte first as RFC 1321
  section 3.5 does.
- The two tables do not invert each other: `sbox[1] = 0x7c` but `inv_sbox[0x7c] = 0`
  (`Cipher.TablesDoNotInvert`).
- Because of the short `S` table and the hex order, the standard MD5 test vectors are not a
  property of this code.

## Model

| member | source | states |
|---|---|---|
| Cipher.MaterialRoundKeys | src/facekid.c:93-99 | round key 0 of the buffer a call builds is the key, and round keys 1..10 come only from the 160 bytes the call never writes |
| Cipher.AddRoundKeyInvolution | src/facekid.c:21-25 | add_round_key XORs byte i with key byte i, and applying it twice with the same round key restores the state |
| Cipher.TablesZeroFilled | src/facekid.c:9-18 | entries 0x20..0xff of both tables are 0 (the C zero-fill) |
| Cipher.SubBytesZeroFill | src/facekid.c:27-37 | sub_bytes and inv_sub_bytes replace each byte by its own table entry, and any byte 0x20 or more becomes 0 |
| Cipher.TablesDoNotInvert | src/facekid.c:9-18 | sbox[1] = 0x7c while inv_sbox[0x7c] = 0, so inv_sbox does not undo sbox |
| Cipher.ShiftRowsRotates | src/facekid.c:39-89 | shift_rows moves the byte at row r, column (c + r) mod 4 to column c; inv_shift_rows takes it from column (c - r) mod 4; row 0 stays put |
| Cipher.InvShiftRowsAfterShiftRows | src/facekid.c:39-89 | inv_shift_rows undoes shift_rows on every state |
| Cipher.ShiftRowsAfterInvShiftRows | src/facekid.c:39-89 | shift_rows undoes inv_shift_rows on every state |
| Cipher.ShiftRowsInverse | src/facekid.c:39-89 | the two row shifts are inverse to each other in both orders, so each is a permutation of the 16 positions |
| Cipher.ShiftRowsBySwaps | src/facekid.c:39-63 | a state holding, at each position, the byte the temp swaps of shift_rows move there is the row rotation |
| Cipher.InvShiftRowsBySwaps | src/facekid.c:65-89 | the same for the temp swaps of inv_shift_rows and the right rotation |
| Cipher.ShiftRowsSwapChain | src/facekid.c:39-63 | the twelve assignments of shift_rows, as successive updates of the state, compute the row rotation |
| Cipher.InvShiftRowsSwapChain | src/facekid.c:65-89 | the twelve assignments of inv_shift_rows compute the right row rotation |
| Cipher.InvStepsCancel | src/facekid.c:105-140 | with a table pair that inverts, inverse shift then inverse substitution undo substitution then shift |
| Cipher.PeelRounds | src/facekid.c:105-149 | with inverting tables, the decoder's whitening and inverse rounds Nr-1..r undo the cipher's rounds r..Nr |
| Cipher.RoundTrip | src/facekid.c:91-149 | for the same key material and a table pair that inverts, aes_decode(aes_cipher(p)) = p |
| Cipher.RoundTripFails | src/facekid.c:9-18 | with the tables as written, for every key material some plaintext does not survive the round trip |
| Cipher.AddRoundKey | src/facekid.c:21-25 | the new state is the old state XOR the 16 key bytes at the offset, and the offset slice lies within the buffer |
| Cipher.SubBytes | src/facekid.c:27-31 | the new state is every old byte looked up in sbox |
| Cipher.InvSubBytes | src/facekid.c:33-37 | the new state is every old byte looked up in inv_sbox |
| Cipher.ShiftRows | src/facekid.c:39-63 | the in-place temp swaps leave the row rotation of the old state |
| Cipher.InvShiftRows | src/facekid.c:65-89 | the in-place temp swaps leave the right row rotation of the old state |
| Cipher.LoadBlock | src/facekid.c:96 | the local state is a fresh copy of the caller's first 16 bytes |
| Cipher.StoreBlock | src/facekid.c:118 | the caller's first 16 bytes become the state, the rest of its buffer unchanged |
| Cipher.BuildKeyMaterial | src/facekid.c:93-99 | the fresh 176-byte buffer holds the key in bytes 0..15 and the untouched bytes after it |
| Cipher.AesCipher | src/facekid.c:91-119 | text[0..15] becomes whitening with round key 0, rounds 1..9 of sub, shift and add, then a final sub, shift and add with round key 10; the rest of text and the key are unchanged; every round-key slice used lies within the 176 bytes |
| Cipher.AesDecode | src/facekid.c:121-149 | the block becomes whitening with round key 10, inverse rounds 9..1, then a final inverse shift, inverse substitution and round key 0; nothing else changes |
| Md5.FSelects | src/md5.c:9 | F takes y where x is set and z elsewhere |
| Md5.GSelects | src/md5.c:10 | G takes x where z is set and y elsewhere |
| Md5.GIsF | src/md5.c:9-10 | G is F with z as the selector |
| Md5.HIsParity | src/md5.c:11 | H is the bitwise parity of its three words: symmetric, and xoring z back out leaves x ^ y |
| Md5.ISplits | src/md5.c:12 | I is the complement of y where z is clear and y ^ x where z is set |
| Md5.RotateLeftSplits | src/md5.c:13 | for 0 < n < 32 the low n bits of ROTATE_LEFT(x, n) are the high n bits of x and the rest are the low 32 - n bits moved up |
| Md5.RotateLeftInverse | src/md5.c:13 | rotating left by n and then by 32 - n restores every word, so the rotation is a bijection mod 2^32 |
| Md5.ShortRotationTable | src/md5.c:35-39 | S has 48 entries; steps below 48 read them and steps 48..63 read the words past its end |
| Md5.MessageIndex | src/md5.c:54-66 | the word index g of every step lies in 0..15 |
| Md5.StepOfWord | src/md5.c:54-66 | the step of a stage that reads a given word lies within that stage |
| Md5.StageReadsEveryWordOnce | src/md5.c:54-66 | in each 16-step stage the index g visits every message word exactly once (in both directions) |
| Md5.Stage1Inverse | src/md5.c:57-59 | 13 inverts the multiplier 5 of stage 2 modulo 16 |
| Md5.Stage2Inverse | src/md5.c:60-62 | 11 inverts the multiplier 3 of stage 3 modulo 16 |
| Md5.Stage3Inverse | src/md5.c:63-65 | 7 inverts the multiplier 7 of stage 4 modulo 16 |
| Md5.DecodeWordRoundTrip | src/md5.c:48-50 | the little-endian word of four bytes and the four bytes of a word are inverse to each other |
| Md5.DecodeBlockLittleEndian | src/md5.c:48-50 | x[k] is the little-endian word of block bytes 4k..4k+3 |
| Md5.RolesRotate | src/md5.c:68-72 | the registers in roles a, b, c, d are distinct and shift by one role at every step |
| Md5.ViewAfterWrite | src/md5.c:68-72 | writing the role-a register and moving on is the temp/d/c/b/a renaming of the code |
| Md5.StepMatchesRfc | src/md5.c:68-72 | one renaming step of the code is one fixed-register step of RFC 1321 section 3.4 |
| Md5.StepsMatchRfc | src/md5.c:52-73 | the code's steps i..63 agree with the fixed-register steps i..63 |
| Md5.CompressMatchesRfc | src/md5.c:41-79 | md5_transform's register-renaming compression equals the fixed-register formulation of section 3.4 (same step update, registers A, B, C, D kept in place) for every state, block and beyond-table word |
| Md5.PadLength | src/md5.c:88 | padlen is a multiple of 64 with textlen + 9 <= padlen < textlen + 73 |
| Md5.LengthRoundTrip | src/md5.c:97-98 | the 8 little-endian length bytes and the 64-bit value they encode are inverse to each other |
| Md5.PaddedLayout | src/md5.c:84-98 | the buffer is padlen bytes: the text, 0x80, zeros up to padlen - 8, then the little-endian (8 * textlen) mod 2^64 |
| Md5.BlocksAppend | src/md5.c:101-103 | compressing two block-aligned pieces is compressing the first and then the second |
| Md5.OneBlock | src/md5.c:101-103 | a single block is compressed exactly once |
| Md5.DigestOfShortText | src/md5.c:81-103 | a text of at most 55 bytes pads to one block, compressed once from the initial words |
| Md5.HexDigit | src/md5.c:112 | each digit is a lowercase hex character |
| Md5.DigitRoundTrip | src/md5.c:112 | reading a digit back gives its nibble |
| Md5.HexWordRoundTrip | src/md5.c:112 | the eight digits of "%08x" read back, most significant first, to the word |
| Md5.HexWordMostSignificantFirst | src/md5.c:112 | 0x67452301 renders as "67452301", not as its bytes in little-endian order |
| Md5.HexOfLength | src/md5.c:111-113 | the rendering has 8 characters per word |
| Md5.HexOfLayout | src/md5.c:111-113 | characters 8k..8k+7 are the "%08x" of word k |
| Md5.HexOfSnoc | src/md5.c:111-113 | rendering one more word appends its eight digits |
| Md5.HexOfLowercase | src/md5.c:111-113 | every character of the rendering is a lowercase hex digit |
| Md5.HexOfParses | src/md5.c:111-114 | each 8-character group of the rendering reads back as its word |
| Md5.DecodeWords | src/md5.c:48-50 | the fresh x[0..15] is the little-endian decoding of the block at the offset |
| Md5.Rounds | src/md5.c:52-73 | the 64-iteration loop, with its stage selection of f and g, leaves the registers the 64 steps compute from the chaining words |
| Md5.AddInto | src/md5.c:75-78 | state[k] becomes state[k] plus register k, modulo 2^32 |
| Md5.Transform | src/md5.c:41-79 | state becomes the compression of the old state with the 64 bytes at the offset |
| Md5.BuildMessage | src/md5.c:84-98 | the fresh buffer is the padded message of the text |
| Md5.ProcessBlocks | src/md5.c:101-103 | state becomes md5_transform applied to every 64-byte block in increasing offset order, padlen / 64 times |
| Md5.PutWord | src/md5.c:112 | one sprintf writes the eight digits into result at 8i, after the characters already written |
| Md5.RenderHex | src/md5.c:108-114 | the 32 characters are the "%08x" of state[0..3] in order |
| Md5.GetHash | src/md5.c:81-117 | the result is the rendering of the digest of the text from the initial words: 32 lowercase hex characters whose group k reads back as digest word k |

## Left out

- Allocation failure: `calloc` and `malloc` returning NULL (src/md5.c:90, 109) are not modelled; the buffers are always allocated, so the NULL result of `md5_get_hash` never occurs here.
- C strings: `md5_get_hash` takes `text` as the bytes before its terminating NUL, so `strlen` is the sequence length. The NUL that ends the result (src/md5.c:114) is written into the buffer but is not part of the returned string.
- `sprintf` is replaced by the pure digit function `HexWord`.
- Host endianness and alignment of the `uint64_t *` store (src/md5.c:97-98): a little-endian host is assumed, so the store writes the bytes of `LengthBytes`.
- The unused `key` parameter of `md5_get_hash` is not modelled.
- The headers under `include/` are not part of this model.
- MixColumns and a real key schedule are absent from the code and are not modelled. The 160 bytes of the round-key buffer that the code never writes are the parameter `uninit`, whatever they hold.
- Standard AES and MD5 test vectors, and any security or constant-time property, are not claimed; the code's deviations rule the vectors out.
- Md5.RotationAmount: C's shift by `S[i]` is defined only for 0 < n < 32, and the words read past `S` in steps 48..63 are arbitrary memory. The model takes them as `beyond` and requires each to lie in 1..31, the range where `ROTATE_LEFT` is defined, so it does not model the undefined behaviour of other values.
- Md5.BuildMessage: `textlen + 72` overflowing `size_t` is not modelled; lengths are unbounded naturals.
- Md5.PadLength: the mask `& ~63` is written as subtracting the remainder modulo 64, which is the same value for every natural number.
- Cipher.ShiftRows: the permutation is stated through the two inverse lemmas and the explicit position map, not as a `multiset` equality.
- md5_transform is split into the helper methods `DecodeWords`, `Select` (the stage selection of f and g), `Rounds` and `AddInto`. md5_get_hash is split into `BuildMessage`, `ProcessBlocks` and `RenderHex`. `aes_cipher` and `aes_decode` copy in and out through `LoadBlock` and `StoreBlock`. The statements and their order are those of the code.
