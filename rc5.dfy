/*
 * The RC5 block cipher as the body of the `impl_rc5!` macro defines it,
 * generic over the word width w (the macro's word type): the rotation
 * primitives, the little-endian block marshalling and the block transform
 * of section 6 of RFC 2040.
 *
 * Words are natural numbers below 2^w; `u` is the number of bytes per word
 * (w / 8) and `S` the expanded key table.
 */
module Rc5 {
  import opened Words
  import opened Errors

  // =====================================================================
  // Rotation
  // =====================================================================

  /** `rotate_left`: `x << (y & (w-1))` or-ed with `x >> (w - (y & (w-1)))`, both wrapping shifts. */
  function RotateLeft(w: nat, x: nat, y: nat): (r: nat)
    requires w > 0
    ensures IsWord(w, r)
  {
    AndAtMost(w, y, w - 1);
    var s := And(w, y, w - 1);
    Or(w, WrappingShl(w, x, s), WrappingShr(w, x, w - s))
  }

  /** `rotate_right`: `x >> (y & (w-1))` or-ed with `x << (w - (y & (w-1)))`. */
  function RotateRight(w: nat, x: nat, y: nat): (r: nat)
    requires w > 0
    ensures IsWord(w, r)
  {
    AndAtMost(w, y, w - 1);
    var s := And(w, y, w - 1);
    Or(w, WrappingShr(w, x, s), WrappingShl(w, x, w - s))
  }

  /** Only y mod w matters: rotating by y and by y mod w give the same word, either way. */
  lemma {:induction false} RotateModWidth(w: nat, x: nat, y: nat)
    requires IsWidth(w)
    ensures RotateLeft(w, x, y) == RotateLeft(w, x, y % w)
    ensures RotateRight(w, x, y) == RotateRight(w, x, y % w)
  {
    var z := y % w;
    AndWidthMask(w, w, y);
    AndWidthMask(w, w, z);
    DivModUnique(z, w, 0, z);
    SameAmount(w, x, y, z);
  }

  /** The rotations depend on y only through the masked amount y & (w-1). */
  lemma {:induction false} SameAmount(w: nat, x: nat, y: nat, z: nat)
    requires w > 0 && And(w, y, w - 1) == And(w, z, w - 1)
    ensures RotateLeft(w, x, y) == RotateLeft(w, x, z)
    ensures RotateRight(w, x, y) == RotateRight(w, x, z)
  {
  }

  /**
   * `rotate_left` rotates by s = y mod w: bit i of the result is bit i - s
   * of x, where the index wraps round mod w. For s = 0 the second shift is by
   * w, which Rust's wrapping shift turns into a shift by 0.
   */
  lemma {:induction false} RotateLeftBit(w: nat, x: nat, y: nat, i: nat)
    requires w > 0 && IsWord(w, x) && i < w
    ensures var s := And(w, y, w - 1);
      Bit(RotateLeft(w, x, y), i) == if i >= s then Bit(x, i - s) else Bit(x, i + w - s)
  {
    AndAtMost(w, y, w - 1);
    var s := And(w, y, w - 1);
    var lo, hi := WrappingShl(w, x, s), WrappingShr(w, x, w - s);
    BitOr(w, lo, hi, i);
    ShlBit(w, x, s, i);
    if s == 0 {
      ShiftByWidth(w, x);
    } else {
      ShrBit(w, x, w - s, i);
    }
  }

  /** `rotate_right` rotates the other way: bit i of the result is bit i + s of x, the index taken mod w. */
  lemma {:induction false} RotateRightBit(w: nat, x: nat, y: nat, i: nat)
    requires w > 0 && IsWord(w, x) && i < w
    ensures var s := And(w, y, w - 1);
      Bit(RotateRight(w, x, y), i) == if i + s < w then Bit(x, i + s) else Bit(x, i + s - w)
  {
    AndAtMost(w, y, w - 1);
    var s := And(w, y, w - 1);
    var lo, hi := WrappingShr(w, x, s), WrappingShl(w, x, w - s);
    BitOr(w, lo, hi, i);
    ShrBit(w, x, s, i);
    if s == 0 {
      ShiftByWidth(w, x);
    } else {
      ShlBit(w, x, w - s, i);
    }
  }

  /** Rotating by a multiple of w leaves a word unchanged. */
  lemma {:induction false} RotateByZero(w: nat, x: nat, y: nat)
    requires IsWidth(w) && IsWord(w, x) && y % w == 0
    ensures RotateLeft(w, x, y) == x && RotateRight(w, x, y) == x
  {
    AndWidthMask(w, w, y);
    forall i: nat | i < w
      ensures Bit(RotateLeft(w, x, y), i) == Bit(x, i) && Bit(RotateRight(w, x, y), i) == Bit(x, i)
    {
      RotateLeftBit(w, x, y, i);
      RotateRightBit(w, x, y, i);
    }
    BitsEqual(w, RotateLeft(w, x, y), x);
    BitsEqual(w, RotateRight(w, x, y), x);
  }

  /** `rotate_right` undoes `rotate_left` by the same amount. */
  lemma {:induction false} RotateRightLeft(w: nat, x: nat, y: nat)
    requires w > 0 && IsWord(w, x)
    ensures RotateRight(w, RotateLeft(w, x, y), y) == x
  {
    AndAtMost(w, y, w - 1);
    var s := And(w, y, w - 1);
    var z := RotateLeft(w, x, y);
    forall i: nat | i < w
      ensures Bit(RotateRight(w, z, y), i) == Bit(x, i)
    {
      RotateRightBit(w, z, y, i);
      if i + s < w {
        RotateLeftBit(w, x, y, i + s);
      } else {
        RotateLeftBit(w, x, y, i + s - w);
      }
    }
    BitsEqual(w, RotateRight(w, z, y), x);
  }

  /** `rotate_left` undoes `rotate_right` by the same amount. */
  lemma {:induction false} RotateLeftRight(w: nat, x: nat, y: nat)
    requires w > 0 && IsWord(w, x)
    ensures RotateLeft(w, RotateRight(w, x, y), y) == x
  {
    AndAtMost(w, y, w - 1);
    var s := And(w, y, w - 1);
    var z := RotateRight(w, x, y);
    forall i: nat | i < w
      ensures Bit(RotateLeft(w, z, y), i) == Bit(x, i)
    {
      RotateLeftBit(w, z, y, i);
      if i >= s {
        RotateRightBit(w, x, y, i - s);
      } else {
        RotateRightBit(w, x, y, i + w - s);
      }
    }
    BitsEqual(w, RotateLeft(w, z, y), x);
  }

  // =====================================================================
  // Block marshalling
  // =====================================================================

  /** The two words of a block, `[A, B]`. */
  datatype WordPair = WordPair(a: nat, b: nat)

  predicate IsWordPair(w: nat, p: WordPair)
  {
    IsWord(w, p.a) && IsWord(w, p.b)
  }

  /**
   * `le_bytes_to_words`: a block shorter than one word is refused before it
   * is sliced; otherwise the first u bytes always convert, and the rest
   * converts only when it is exactly u bytes long.
   */
  function LeBytesToWords(u: nat, block: seq<byte>): (r: Result<WordPair>)
    ensures r.Ok? <==> |block| == 2 * u
    ensures r == Err(BufferOutOfBounds) <==> |block| < u
    ensures r == Err(TryFromSliceError) <==> u <= |block| != 2 * u
  {
    if |block| < u then Err(BufferOutOfBounds)
    else if |block[u..]| != u then Err(TryFromSliceError)
    else Ok(WordPair(LeValue(block[..u]), LeValue(block[u..])))
  }

  /** The words read from a block are u-byte words: `from_le_bytes` cannot overflow. */
  lemma LeBytesToWordsInRange(u: nat, block: seq<byte>)
    ensures LeBytesToWords(u, block).Ok? ==> IsWordPair(8 * u, LeBytesToWords(u, block).value)
  {
    if |block| == 2 * u {
      LeValueBound(block[..u]);
      LeValueBound(block[u..]);
    }
  }

  /** The bytes `words_to_le_bytes` produces: each word little-endian, A first. */
  function BlockBytes(u: nat, p: WordPair): (r: seq<byte>)
    ensures |r| == 2 * u
  {
    ToLeBytes(u, p.a) + ToLeBytes(u, p.b)
  }

  /** Marshalling two words and reading them back gives the same words. */
  lemma {:induction false} LeBytesToWordsOfBlockBytes(u: nat, p: WordPair)
    requires IsWordPair(8 * u, p)
    ensures LeBytesToWords(u, BlockBytes(u, p)) == Ok(p)
  {
    var bs := BlockBytes(u, p);
    assert bs[..u] == ToLeBytes(u, p.a) && bs[u..] == ToLeBytes(u, p.b);
    LeValueToLeBytes(u, p.a);
    LeValueToLeBytes(u, p.b);
  }

  /** Reading a 2u-byte block into words and marshalling them back gives the same bytes. */
  lemma {:induction false} BlockBytesOfLeBytesToWords(u: nat, block: seq<byte>)
    requires |block| == 2 * u
    ensures LeBytesToWords(u, block).Ok?
    ensures BlockBytes(u, LeBytesToWords(u, block).value) == block
  {
    ToLeBytesLeValue(block[..u]);
    ToLeBytesLeValue(block[u..]);
    assert block == block[..u] + block[u..];
  }

  // =====================================================================
  // Block transform
  // =====================================================================

  /** One half-round of `encrypt`: `rotate_left(x ^ y, y).wrapping_add(key)`. */
  function HalfRound(w: nat, x: nat, y: nat, key: nat): (r: nat)
    requires w > 0
    ensures IsWord(w, r)
  {
    WrappingAdd(w, RotateLeft(w, Xor(w, x, y), y), key)
  }

  /** One half-round of `decrypt`: `rotate_right(z.wrapping_sub(key), y) ^ y`. */
  function InverseHalfRound(w: nat, z: nat, y: nat, key: nat): (r: nat)
    requires w > 0
    ensures IsWord(w, r)
  {
    Xor(w, RotateRight(w, WrappingSub(w, z, key), y), y)
  }

  lemma {:induction false} InverseHalfRoundOfHalfRound(w: nat, x: nat, y: nat, key: nat)
    requires w > 0 && IsWord(w, x)
    ensures InverseHalfRound(w, HalfRound(w, x, y, key), y, key) == x
  {
    var t := Xor(w, x, y);
    WrappingSubAdd(w, RotateLeft(w, t, y), key);
    RotateRightLeft(w, t, y);
    XorXor(w, x, y);
  }

  lemma {:induction false} HalfRoundOfInverseHalfRound(w: nat, z: nat, y: nat, key: nat)
    requires w > 0 && IsWord(w, z)
    ensures HalfRound(w, InverseHalfRound(w, z, y, key), y, key) == z
  {
    var t := RotateRight(w, WrappingSub(w, z, key), y);
    XorXor(w, t, y);
    RotateLeftRight(w, WrappingSub(w, z, key), y);
    WrappingAddSub(w, z, key);
  }

  /** Round i of `encrypt`: A = (A ^ B) <<< B + S[2i], then B = (B ^ A) <<< A + S[2i+1]. */
  function EncryptRound(w: nat, S: seq<nat>, i: nat, p: WordPair): (r: WordPair)
    requires w > 0 && 2 * i + 1 < |S|
    ensures IsWordPair(w, r)
  {
    var A := HalfRound(w, p.a, p.b, S[2 * i]);
    var B := HalfRound(w, p.b, A, S[2 * i + 1]);
    WordPair(A, B)
  }

  /** Round i of `decrypt`: B = (B - S[2i+1]) >>> A ^ A, then A = (A - S[2i]) >>> B ^ B. */
  function DecryptRound(w: nat, S: seq<nat>, i: nat, p: WordPair): (r: WordPair)
    requires w > 0 && 2 * i + 1 < |S|
    ensures IsWordPair(w, r)
  {
    var B := InverseHalfRound(w, p.b, p.a, S[2 * i + 1]);
    var A := InverseHalfRound(w, p.a, B, S[2 * i]);
    WordPair(A, B)
  }

  /** A decryption round undoes the encryption round with the same index. */
  lemma {:induction false} DecryptRoundOfEncryptRound(w: nat, S: seq<nat>, i: nat, p: WordPair)
    requires w > 0 && 2 * i + 1 < |S| && IsWordPair(w, p)
    ensures DecryptRound(w, S, i, EncryptRound(w, S, i, p)) == p
  {
    var A := HalfRound(w, p.a, p.b, S[2 * i]);
    InverseHalfRoundOfHalfRound(w, p.b, A, S[2 * i + 1]);
    InverseHalfRoundOfHalfRound(w, p.a, p.b, S[2 * i]);
  }

  /** An encryption round undoes the decryption round with the same index. */
  lemma {:induction false} EncryptRoundOfDecryptRound(w: nat, S: seq<nat>, i: nat, c: WordPair)
    requires w > 0 && 2 * i + 1 < |S| && IsWordPair(w, c)
    ensures EncryptRound(w, S, i, DecryptRound(w, S, i, c)) == c
  {
    var B := InverseHalfRound(w, c.b, c.a, S[2 * i + 1]);
    HalfRoundOfInverseHalfRound(w, c.a, B, S[2 * i]);
    HalfRoundOfInverseHalfRound(w, c.b, c.a, S[2 * i + 1]);
  }

  /** The encryption state after the key whitening A + S[0], B + S[1] and rounds 1..k. */
  function EncryptRounds(w: nat, S: seq<nat>, p: WordPair, k: nat): (r: WordPair)
    requires w > 0 && 2 * k + 1 < |S|
    ensures IsWordPair(w, r)
  {
    if k == 0 then WordPair(WrappingAdd(w, p.a, S[0]), WrappingAdd(w, p.b, S[1]))
    else EncryptRound(w, S, k, EncryptRounds(w, S, p, k - 1))
  }

  /** What decryption computes from the state c onwards: rounds k, k-1, ..., 1, then B - S[1], A - S[0]. */
  function DecryptRounds(w: nat, S: seq<nat>, c: WordPair, k: nat): (r: WordPair)
    requires w > 0 && 2 * k + 1 < |S|
    ensures IsWordPair(w, r)
    decreases k
  {
    if k == 0 then WordPair(WrappingSub(w, c.a, S[0]), WrappingSub(w, c.b, S[1]))
    else DecryptRounds(w, S, DecryptRound(w, S, k, c), k - 1)
  }

  /** Decrypting k rounds undoes encrypting k rounds, for every table S. */
  lemma {:induction false} DecryptRoundsOfEncryptRounds(w: nat, S: seq<nat>, p: WordPair, k: nat)
    requires w > 0 && 2 * k + 1 < |S| && IsWordPair(w, p)
    ensures DecryptRounds(w, S, EncryptRounds(w, S, p, k), k) == p
  {
    if k == 0 {
      WrappingSubAdd(w, p.a, S[0]);
      WrappingSubAdd(w, p.b, S[1]);
    } else {
      var q := EncryptRounds(w, S, p, k - 1);
      assert EncryptRounds(w, S, p, k) == EncryptRound(w, S, k, q);
      DecryptRoundOfEncryptRound(w, S, k, q);
      assert DecryptRounds(w, S, EncryptRound(w, S, k, q), k) == DecryptRounds(w, S, q, k - 1);
      DecryptRoundsOfEncryptRounds(w, S, p, k - 1);
    }
  }

  /** Encrypting k rounds undoes decrypting k rounds, for every table S. */
  lemma {:induction false} EncryptRoundsOfDecryptRounds(w: nat, S: seq<nat>, c: WordPair, k: nat)
    requires w > 0 && 2 * k + 1 < |S| && IsWordPair(w, c)
    ensures EncryptRounds(w, S, DecryptRounds(w, S, c, k), k) == c
    decreases k
  {
    if k == 0 {
      WrappingAddSub(w, c.a, S[0]);
      WrappingAddSub(w, c.b, S[1]);
    } else {
      EncryptRoundOfDecryptRound(w, S, k, c);
      EncryptRoundsOfDecryptRounds(w, S, DecryptRound(w, S, k, c), k - 1);
    }
  }

  /** `encrypt` on a block: read two words, whiten, run the rounds, write the words back. */
  function EncryptBlock(w: nat, rounds: nat, S: seq<nat>, block: seq<byte>): (r: Result<seq<byte>>)
    requires w > 0 && w % 8 == 0 && |S| == 2 * (rounds + 1)
    ensures r.Ok? <==> |block| == 2 * (w / 8)
    ensures r.Ok? ==> |r.value| == 2 * (w / 8)
    ensures r.Err? ==> r.error == (if |block| < w / 8 then BufferOutOfBounds else TryFromSliceError)
  {
    match LeBytesToWords(w / 8, block)
    case Err(e) => Err(e)
    case Ok(p) => Ok(BlockBytes(w / 8, EncryptRounds(w, S, p, rounds)))
  }

  /** `decrypt` on a block: read two words, undo the rounds from the last, unwhiten, write the words back. */
  function DecryptBlock(w: nat, rounds: nat, S: seq<nat>, block: seq<byte>): (r: Result<seq<byte>>)
    requires w > 0 && w % 8 == 0 && |S| == 2 * (rounds + 1)
    ensures r.Ok? <==> |block| == 2 * (w / 8)
    ensures r.Ok? ==> |r.value| == 2 * (w / 8)
    ensures r.Err? ==> r.error == (if |block| < w / 8 then BufferOutOfBounds else TryFromSliceError)
  {
    match LeBytesToWords(w / 8, block)
    case Err(e) => Err(e)
    case Ok(c) => Ok(BlockBytes(w / 8, DecryptRounds(w, S, c, rounds)))
  }

  /** decrypt(encrypt(p)) == p for every table of the right length and every 2u-byte block. */
  lemma {:induction false} DecryptEncrypt(w: nat, rounds: nat, S: seq<nat>, block: seq<byte>)
    requires w > 0 && w % 8 == 0 && |S| == 2 * (rounds + 1) && |block| == 2 * (w / 8)
    ensures EncryptBlock(w, rounds, S, block).Ok?
    ensures DecryptBlock(w, rounds, S, EncryptBlock(w, rounds, S, block).value) == Ok(block)
  {
    var u := w / 8;
    var p := LeBytesToWords(u, block).value;
    LeBytesToWordsInRange(u, block);
    var c := EncryptRounds(w, S, p, rounds);
    LeBytesToWordsOfBlockBytes(u, c);
    DecryptRoundsOfEncryptRounds(w, S, p, rounds);
    BlockBytesOfLeBytesToWords(u, block);
  }

  /** encrypt(decrypt(c)) == c: on 2u-byte blocks the cipher is a bijection. */
  lemma {:induction false} EncryptDecrypt(w: nat, rounds: nat, S: seq<nat>, block: seq<byte>)
    requires w > 0 && w % 8 == 0 && |S| == 2 * (rounds + 1) && |block| == 2 * (w / 8)
    ensures DecryptBlock(w, rounds, S, block).Ok?
    ensures EncryptBlock(w, rounds, S, DecryptBlock(w, rounds, S, block).value) == Ok(block)
  {
    var u := w / 8;
    var c := LeBytesToWords(u, block).value;
    LeBytesToWordsInRange(u, block);
    var p := DecryptRounds(w, S, c, rounds);
    LeBytesToWordsOfBlockBytes(u, p);
    EncryptRoundsOfDecryptRounds(w, S, c, rounds);
    BlockBytesOfLeBytesToWords(u, block);
  }
}
