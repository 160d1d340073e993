# RC5 in Dafny

A model of the RC5 block cipher as the `impl_rc5!` macro of the `rc5` crate
defines it (`src/internal_macro.rs`), with proofs about it. The macro's body
is generic over the word type. The model is generic in the same way: a word
of width `w` is a natural number below `2^w`, and every Rust operation the
macro uses is written out on such numbers. That covers `wrapping_add`,
`wrapping_sub`, `wrapping_shl`, `wrapping_shr`, `checked_shl`, `&`, `|`,
`^`, `from_le_bytes` and `to_le_bytes`.

Modules:

- `Words` (words.dfy) holds the Rust integer primitives and the facts about
  them. Bitwise operators work bit by bit over `n` bits. Shifts take their
  amount mod the width, as Rust's wrapping shifts do. Additions and
  subtractions wrap mod `2^w`.
- `Errors` (errors.dfy) holds the three variants of the crate's `Error` and
  a `Result` type.
- `Rc5` (rc5.dfy) holds the pure part of the macro:
  - `rotate_left` and `rotate_right`;
  - `le_bytes_to_words` and the bytes `words_to_le_bytes` produces;
  - the rounds, and `encrypt`/`decrypt` on one block, as functions.
- `KeySchedule` (keyschedule.dfy) holds what `expand_key` computes, as
  functions. That is the packed key `L`, the initial table, the mixing
  steps and the expanded table. It also holds the conditions under which
  `expand_key` indexes in bounds.
- `Instance` (instance.dfy) holds the struct as a class `Cipher`. It has the
  field `S` and the parameters. Its methods follow the source's statements:
  - `new`;
  - `expand_key`, split into its three loops, which work on arrays in place;
  - `encrypt` and `decrypt`, whose loops update `A` and `B`;
  - `words_to_le_bytes`.

  Each method is proved to compute the matching function of `Rc5` or
  `KeySchedule`.
- `Variants` (variants.dfy) holds the four instantiations the crate lists
  (`src/lib.rs`) and what the bounds conditions say about each.

Main results:

- `decrypt(encrypt(p)) == p` and `encrypt(decrypt(c)) == c` for every
  2U-byte block and every table `S` of length `2(R+1)`. These are
  `Rc5.DecryptEncrypt` and `Rc5.EncryptDecrypt`. Both rest on three facts:
  - `rotate_right` inverts `rotate_left`;
  - `wrapping_sub` inverts `wrapping_add`;
  - `^ y` is its own inverse.
- The two rotations rotate. They are proved bit by bit, including the
  rotation by 0, where one of the two shifts is by the full width and
  Rust's wrapping shift turns it into a shift by 0.
- The block length errors are exactly the ones `le_bytes_to_words`
  produces:
  - fewer than U bytes gives `BufferOutOfBounds`;
  - otherwise any length other than 2U gives `TryFromSliceError`.
- `expand_key` indexes in bounds exactly when `2 <= U <= B`
  (`KeySchedule.InBounds`). So `new` succeeds for the 16- and 32-bit
  variants. For `Rc5_8_12_4` (one byte per word, 4-byte key) the first
  packing step writes `L[3]` into a 3-entry vector. There, `new` can never
  return an instance (`Variants.NarrowVariantOutOfBounds`).
- When the key size is a multiple of U, the packed key word `L[m]` is the
  little-endian value of key bytes `m*U .. m*U+U`. No reduction mod `2^w`
  takes place (`KeySchedule.PackedKeyWord`).

## Model

| member | source | states |
|---|---|---|
| Words.UnwrapOr | src/internal_macro.rs:52 | `unwrap_or(0)` gives the shifted value when `checked_shl` succeeds and the default 0 when it fails |
| Words.Max | src/internal_macro.rs:47 | `max(B, 1)` (and `max(t, c)` at line 70) is the larger of the two arguments |
| Words.WrappingAdd | src/internal_macro.rs:60 | `wrapping_add` always yields a word of the type |
| Words.WrappingSub | src/internal_macro.rs:116-120 | `wrapping_sub` always yields a word of the type |
| Words.WrappingSubAdd | src/internal_macro.rs:98-120 | subtracting b after adding b gives the word back (what decryption's unwhitening relies on) |
| Words.WrappingAddSub | src/internal_macro.rs:119-120 | adding b after subtracting b gives the word back |
| Words.MaskedAmountIsMask | src/internal_macro.rs:86-87 | the amount a wrapping shift uses is `k & (w-1)`, which is `k mod w` |
| Words.WrappingShr | src/internal_macro.rs:87 | `wrapping_shr` never yields more than the word shifted |
| Words.WrappingShl | src/internal_macro.rs:86 | `wrapping_shl` yields a word |
| Words.ShlBit | src/internal_macro.rs:86 | a left shift by k < w puts bit i-k of x at bit i and zeros below k |
| Words.ShrBit | src/internal_macro.rs:87 | a right shift by k < w puts bit i+k of x at bit i and zeros above w-k |
| Words.ShiftByWidth | src/internal_macro.rs:87 | a wrapping shift by exactly w leaves the word unchanged |
| Words.CheckedShl | src/internal_macro.rs:52 | `checked_shl(k)` fails exactly when k is not below the width |
| Words.CheckedShlValue | src/internal_macro.rs:52 | below the width, `checked_shl(k)` is `x * 2^k mod 2^w` |
| Words.AndWidthMask | src/internal_macro.rs:86 | for a power-of-two width w, `y & (w-1)` is `y mod w` |
| Words.And | src/internal_macro.rs:86-87 | `&` on two operands of width n yields a value of width n |
| Words.Or | src/internal_macro.rs:86-87 | bitwise or on two operands of width n yields a value of width n |
| Words.Xor | src/internal_macro.rs:102-103 | `^` on two operands of width n yields a value of width n |
| Words.XorXor | src/internal_macro.rs:116-117 | `(a ^ b) ^ b == a` on words |
| Words.BitOr | src/internal_macro.rs:86-87 | bit i of the bitwise or of a and b is set exactly when bit i of a or of b is |
| Words.LeValue | src/internal_macro.rs:132-133 | `from_le_bytes` of a single byte is that byte (its bound and round trip are the next rows) |
| Words.LeValueBound | src/internal_macro.rs:132-133 | `from_le_bytes` on n bytes gives a value below `2^(8n)` |
| Words.ToLeBytes | src/internal_macro.rs:139-140 | `to_le_bytes` of an n-byte word has n bytes |
| Words.ToLeBytesLeValue | src/internal_macro.rs:132-140 | writing back the value read from n bytes gives the same bytes |
| Words.LeValueToLeBytes | src/internal_macro.rs:132-140 | reading back the bytes written from a word below `2^(8n)` gives the word |
| Rc5.RotateLeft | src/internal_macro.rs:85-88 | `rotate_left` yields a word |
| Rc5.RotateRight | src/internal_macro.rs:90-93 | `rotate_right` yields a word |
| Rc5.RotateModWidth | src/internal_macro.rs:85-93 | only `y mod W` matters: rotating by y and by `y mod W` agree, in both directions |
| Rc5.RotateLeftBit | src/internal_macro.rs:85-88 | bit i of `rotate_left(x, y)` is bit `i - s` of x, the index taken mod W, where `s = y & (W-1)`; this holds for s = 0 too |
| Rc5.RotateRightBit | src/internal_macro.rs:90-93 | bit i of `rotate_right(x, y)` is bit `i + s` of x, the index taken mod W |
| Rc5.RotateByZero | src/internal_macro.rs:85-93 | rotating a word by a multiple of W, 0 included, leaves it unchanged, either way |
| Rc5.RotateRightLeft | src/internal_macro.rs:85-93 | `rotate_right(rotate_left(x, y), y) == x` for every word x and every y |
| Rc5.RotateLeftRight | src/internal_macro.rs:85-93 | `rotate_left(rotate_right(x, y), y) == x` for every word x and every y |
| Rc5.LeBytesToWords | src/internal_macro.rs:125-135 | accepted exactly when the block has 2U bytes; `BufferOutOfBounds` exactly when it has fewer than U; `TryFromSliceError` exactly when it has at least U bytes but not 2U |
| Rc5.LeBytesToWordsInRange | src/internal_macro.rs:131-134 | the two words read from a block are words of width 8U |
| Rc5.BlockBytes | src/internal_macro.rs:137-142 | `words_to_le_bytes` produces 2U bytes |
| Rc5.LeBytesToWordsOfBlockBytes | src/internal_macro.rs:125-142 | reading back the bytes written from two words gives the two words |
| Rc5.BlockBytesOfLeBytesToWords | src/internal_macro.rs:125-142 | a 2U-byte block is read without error, and writing its words back gives the block |
| Rc5.HalfRound | src/internal_macro.rs:102-103 | a half-round of `encrypt` yields a word |
| Rc5.InverseHalfRound | src/internal_macro.rs:116-117 | a half-round of `decrypt` yields a word |
| Rc5.InverseHalfRoundOfHalfRound | src/internal_macro.rs:102-117 | `decrypt`'s half-round undoes `encrypt`'s for the same key word and the same y |
| Rc5.HalfRoundOfInverseHalfRound | src/internal_macro.rs:102-117 | `encrypt`'s half-round undoes `decrypt`'s |
| Rc5.EncryptRound | src/internal_macro.rs:101-104 | round i of `encrypt` reads only `S[2i]` and `S[2i+1]` (in range when 2i+1 is below the length of S) and yields two words |
| Rc5.DecryptRound | src/internal_macro.rs:115-118 | round i of `decrypt` reads only `S[2i+1]` and `S[2i]` and yields two words |
| Rc5.DecryptRoundOfEncryptRound | src/internal_macro.rs:101-118 | decryption round i undoes encryption round i |
| Rc5.EncryptRoundOfDecryptRound | src/internal_macro.rs:101-118 | encryption round i undoes decryption round i |
| Rc5.EncryptRounds | src/internal_macro.rs:98-104 | whitening then rounds 1..k stay in range of a table longer than 2k+1 and yield two words |
| Rc5.DecryptRounds | src/internal_macro.rs:115-120 | rounds k..1 then unwhitening stay in range and yield two words |
| Rc5.DecryptRoundsOfEncryptRounds | src/internal_macro.rs:98-120 | decrypting k rounds undoes encrypting k rounds, for every table |
| Rc5.EncryptRoundsOfDecryptRounds | src/internal_macro.rs:98-120 | encrypting k rounds undoes decrypting k rounds, for every table |
| Rc5.EncryptBlock | src/internal_macro.rs:96-107 | `encrypt` succeeds exactly on 2U-byte blocks and returns 2U bytes; otherwise it fails with `BufferOutOfBounds` below U bytes and with `TryFromSliceError` from U bytes on |
| Rc5.DecryptBlock | src/internal_macro.rs:110-123 | `decrypt` succeeds exactly on 2U-byte blocks and returns 2U bytes, with the same two errors |
| Rc5.DecryptEncrypt | src/internal_macro.rs:96-123 | for every table of length 2(R+1) and every 2U-byte block, `decrypt(encrypt(p)) == p` |
| Rc5.EncryptDecrypt | src/internal_macro.rs:96-123 | for every table of length 2(R+1) and every 2U-byte block, `encrypt(decrypt(c)) == c`: the cipher is a bijection on blocks |
| KeySchedule.KeyWords | src/internal_macro.rs:47 | `c = max(B, 1) / U` is floor division: `c*U <= max(B,1) < c*U + U` |
| KeySchedule.InBounds | src/internal_macro.rs:47-79 | `expand_key` is in bounds exactly when `2 <= U <= B`. That covers `vec![0; B-1]`, writing `L[(B-1)/U]`, `j % c` with c > 0, and `L[j]` with `j < c <= B-1` |
| KeySchedule.PackIndex | src/internal_macro.rs:50-52 | every index `i / U` the packing loop writes is within L |
| KeySchedule.PackStep | src/internal_macro.rs:51-52 | one packing step changes only `L[i/U]` and keeps L's length |
| KeySchedule.Packed | src/internal_macro.rs:49-53 | L after the packing loop has visited the key from its last byte down to `key[k]` keeps its B-1 entries |
| KeySchedule.ChunkOfIndex | src/internal_macro.rs:51 | key byte k falls in the chunk of word `k / U` and in no other |
| KeySchedule.PackedWordBound | src/internal_macro.rs:52 | a word holding fewer than U bytes is shifted by 8 without loss: `checked_shl(8).unwrap_or(0)` is `x * 256` and adding the byte does not wrap |
| KeySchedule.PackedValue | src/internal_macro.rs:50-53 | after the loop has visited down to `key[k]`, each word holds the little-endian value of the visited part of its chunk |
| KeySchedule.PackedKey | src/internal_macro.rs:49-53 | the packed key has B-1 words |
| KeySchedule.PackedKeyWord | src/internal_macro.rs:50-53 | word m of the packed key is the little-endian value of `key[m*U .. m*U+U]` when that chunk is whole, and 0 when it is past the key's end |
| KeySchedule.InitialTable | src/internal_macro.rs:55-61 | the initial table has t entries |
| KeySchedule.InitialTableStep | src/internal_macro.rs:58-61 | the closed form `S[i] = P + i*Q mod 2^w` satisfies the loop's recurrence `S[i] = S[i-1].wrapping_add(Q)` |
| KeySchedule.MixStep | src/internal_macro.rs:71-76 | one mixing step keeps the lengths of S and L |
| KeySchedule.Mix | src/internal_macro.rs:70-80 | n mixing steps, the n-th at `i = n mod t` and `j = n mod c`, keep the lengths of S and L |
| KeySchedule.CounterStep | src/internal_macro.rs:78-79 | `i = (i + 1) % t` keeps i equal to the step count mod t |
| KeySchedule.MixWords | src/internal_macro.rs:70-80 | mixing keeps every entry of S and L a word |
| KeySchedule.MixStart | src/internal_macro.rs:47-68 | the mixing loop starts with `t = 2(R+1)` table entries and at least c > 0 key words |
| KeySchedule.ExpandedKey | src/internal_macro.rs:46-83 | the table `expand_key` builds has `T = 2(R+1)` entries |
| KeySchedule.ExpandedKeyShape | src/internal_macro.rs:46-83 | the table `expand_key` stores has `2(R+1)` entries, all of them words |
| Instance.Cipher.constructor | src/internal_macro.rs:31-40 | the struct literal: parameters set, `U = W / 8`, S empty |
| Instance.Cipher.New | src/internal_macro.rs:26-44 | `InvalidKeyLen` exactly when the key length is not B; otherwise a fresh instance with the given parameters, whose S is the expanded key (2(R+1) entries) |
| Instance.Cipher.ExpandKey | src/internal_macro.rs:46-83 | the S it stores is `KeySchedule.ExpandedKey` of the key, and the instance is then valid |
| Instance.Cipher.PackKey | src/internal_macro.rs:49-53 | the packing loop over `vec![0; B-1]` yields the packed key |
| Instance.Cipher.PackByte | src/internal_macro.rs:51-52 | one packing assignment changes L exactly as `PackStep` says |
| Instance.Cipher.InitialTable | src/internal_macro.rs:55-61 | the filled vector is `P + i*Q mod 2^w` for every `i < t` |
| Instance.Cipher.MixKey | src/internal_macro.rs:63-80 | the in-place loop over S and L performs exactly `3*max(t, c)` mixing steps; its invariant keeps `i = n mod t` and `j = n mod c` after n steps |
| Instance.Cipher.MixAt | src/internal_macro.rs:71-76 | the four assignments of one iteration change S, L, A and B exactly as `MixStep` says |
| Instance.Cipher.Advance | src/internal_macro.rs:78-79 | the counter update yields the next step count mod t |
| Instance.Cipher.Encrypt | src/internal_macro.rs:96-107 | `encrypt` returns `EncryptBlock` of S and the plaintext, so it has that function's error cases and round trip; S is not modified |
| Instance.Cipher.EncryptStep | src/internal_macro.rs:102-103 | the loop body of `encrypt` computes round i |
| Instance.Cipher.Decrypt | src/internal_macro.rs:110-123 | `decrypt` returns `DecryptBlock` of S and the ciphertext; S is not modified |
| Instance.Cipher.DecryptStep | src/internal_macro.rs:116-117 | the loop body of `decrypt` undoes round i |
| Instance.Cipher.WordsToLeBytes | src/internal_macro.rs:137-142 | the bytes are A's then B's, little-endian, and reading them back gives the two words |
| Variants.WideVariantsInBounds | src/lib.rs:6-8 | for `Rc5_16_16_8`, `Rc5_32_12_16` and `Rc5_32_20_16`, the constants are words and `new` is in bounds for every key of the right length |
| Variants.NarrowVariantOutOfBounds | src/lib.rs:5 | for `Rc5_8_12_4`, the first packing step writes past the end of L, so `expand_key` is out of bounds for every 4-byte key |

## Left out

- Instance.Cipher.New: the out-of-bounds panics of `expand_key` (index past the end of L, `% 0` when `c = 0`, `B - 1` for B = 0) are a precondition (`KeySchedule.InBounds`), not a modelled panic. The contract of `KeySchedule.InBounds` and the Variants lemmas say when it holds.
- Instance.Cipher.Encrypt: requires only W > 0, W a multiple of 8 and `|S| = 2(R+1)`. That is wider than the four word types Rust has, not narrower.
- Instance.Cipher.Valid does not record that P and Q are words, nor that W is one of 8, 16, 32 or 64. `New` states the latter of the instances it builds.
- Instance.Cipher.MixKey: the claim that after n steps `i = n mod t` and `j = n mod c` is its loop invariant, not a separate lemma.
- Instance.Cipher.PackKey, InitialTable and MixKey use Dafny arrays for the vectors `L` and `S`. `vec![]` allocation and the move of `S` into `self.S` are a copy into the field.
- The published RC5-32/12/16 test vector is not checked. Evaluating the bit-by-bit model on concrete 32-bit words is beyond what the verifier does in reasonable time.
- The concrete macro instantiations (`src/rc5.rs`) are not part of this model. The P and Q constants of the Variants are those of section 5 of RFC 2040 for 16 and 32 bits. For 8 bits they are 0xB7 and 0x9F, from the same formula (`Odd((e-2)·2^8)`, `Odd((φ-1)·2^8)`).
- The fuzz target (`fuzz/fuzz_targets/rc5.rs`) only calls `new` and `encrypt` on arbitrary bytes. The length-error contracts cover its cases.
- The `Display` strings of `Error` (src/error.rs:10-18) are not modelled. The `From<TryFromSliceError>` conversion (src/error.rs:20-23) is the `TryFromSliceError` case of `Rc5.LeBytesToWords`.
- The `macro_rules!` mechanism itself, `no_std`/`alloc`, and constant-time behaviour are not modelled.
