/*
 * The struct the `impl_rc5!` macro generates: its parameters, the expanded
 * table S that `expand_key` fills in place, and the `&self` methods
 * `encrypt`, `decrypt` and `words_to_le_bytes`. Each method is proved to
 * compute the functions of modules Rc5 and KeySchedule, whose properties
 * (the round trips, the error cases, the shape of the table) are proved
 * there.
 */
module Instance {
  import opened Words
  import opened Errors
  import opened Rc5
  import opened KeySchedule

  /** The macro's arguments: word width, rounds, key size in bytes, and the magic constants. */
  datatype Params = Params(w: nat, rounds: nat, keySize: nat, p: nat, q: nat)

  /** A word type Rust has, with P and Q words of it. */
  predicate ValidParams(v: Params)
  {
    IsWidth(v.w) && IsWord(v.w, v.p) && IsWord(v.w, v.q)
  }

  class Cipher {
    /** The expanded key table. */
    var S: seq<nat>
    /** Word width in bits. */
    const W: nat
    /** Number of rounds. */
    const R: nat
    /** Key size in bytes. */
    const B: nat
    /** Magic constants. */
    const P: nat
    const Q: nat
    /** Bytes per word. */
    const U: nat

    /** A word is U = W / 8 whole bytes and S has t = 2(R+1) entries: what `encrypt` and `decrypt` index. */
    predicate Valid()
      reads this
    {
      W > 0 && W % 8 == 0 && U == W / 8 && |S| == 2 * (R + 1)
    }

    /** The struct literal of `new`: the parameters set, S still empty. */
    constructor(v: Params)
      requires ValidParams(v)
      ensures W == v.w && R == v.rounds && B == v.keySize && P == v.p && Q == v.q
      ensures U == v.w / 8 && S == []
    {
      S := [];
      W := v.w;
      R := v.rounds;
      B := v.keySize;
      P := v.p;
      Q := v.q;
      U := v.w / 8;
    }

    /**
     * `new`: a key of the wrong length is refused with `InvalidKeyLen`;
     * otherwise the key is expanded. The requires is the condition under
     * which `expand_key` indexes in bounds (see KeySchedule.InBounds).
     */
    static method New(v: Params, key: seq<byte>) returns (r: Result<Cipher>)
      requires ValidParams(v)
      requires |key| == v.keySize ==> InBounds(v.keySize, v.w / 8)
      ensures r.Err? <==> |key| != v.keySize
      ensures r.Err? ==> r.error == InvalidKeyLen
      ensures r.Ok? ==> fresh(r.value) && r.value.Valid() && IsWidth(r.value.W)
      ensures r.Ok? ==> r.value.W == v.w && r.value.R == v.rounds && r.value.B == v.keySize
      ensures r.Ok? ==> r.value.S == ExpandedKey(v.w, v.rounds, v.w / 8, v.p, v.q, key)
    {
      if |key| != v.keySize {
        return Err(InvalidKeyLen);
      }
      var rc5 := new Cipher(v);
      rc5.ExpandKey(key);
      return Ok(rc5);
    }

    /**
     * `expand_key`: pack the key into L (B - 1 words), fill S with P + iQ,
     * then 3 * max(t, c) mixing steps; S becomes the expanded table.
     */
    method ExpandKey(key: seq<byte>)
      requires W > 0 && W % 8 == 0 && U == W / 8 && IsWord(W, P)
      requires |key| == B && InBounds(B, U)
      modifies this
      ensures S == ExpandedKey(W, R, U, P, Q, key)
      ensures Valid()
    {
      var c := Max(B, 1) / U;
      var L := PackKey(key);
      var S := InitialTable();
      MixKey(S, L, c);
      this.S := S[..];
    }

    /** The packing loop of `expand_key`: key[B-1], ..., key[0] shifted into `vec![0; B - 1]`. */
    method PackKey(key: seq<byte>) returns (L: array<nat>)
      requires W > 0 && |key| >= 1 && PackFits(U, |key| - 1, |key|)
      ensures fresh(L) && L[..] == PackedKey(W, U, key)
    {
      L := new nat[|key| - 1](_ => 0);
      var k := |key|;
      while k > 0
        invariant 0 <= k <= |key| && L.Length == |key| - 1
        invariant L[..] == Packed(W, U, |key| - 1, key, k)
      {
        k := k - 1;
        PackIndex(U, |key| - 1, |key|, k);
        PackByte(L, k, key[k]);
      }
    }

    /** One visit of the packing loop: `L[k/U] = L[k/U].checked_shl(8).unwrap_or(0).wrapping_add(key[k])`. */
    method PackByte(L: array<nat>, k: nat, kb: byte)
      requires W > 0 && U > 0 && k / U < L.Length
      modifies L
      ensures L[..] == PackStep(W, U, old(L[..]), k, kb)
    {
      L[k / U] := WrappingAdd(W, UnwrapOr(CheckedShl(W, L[k / U], 8), 0), kb);
    }

    /** The table before mixing: `S[0] = P`, then `S[i] = S[i-1].wrapping_add(Q)` for t = 2(R+1) entries. */
    method InitialTable() returns (S: array<nat>)
      requires IsWord(W, P)
      ensures fresh(S) && S[..] == KeySchedule.InitialTable(W, P, Q, 2 * (R + 1))
    {
      var t := (R + 1) * 2;
      S := new nat[t](_ => 0);
      S[0] := P;
      DivModUnique(P, Pow2(W), 0, P);
      for n := 1 to t
        invariant forall m :: 0 <= m < n ==> S[m] == KeySchedule.InitialTable(W, P, Q, t)[m]
      {
        InitialTableStep(W, P, Q, t, n);
        S[n] := WrappingAdd(W, S[n - 1], Q);
      }
    }

    /**
     * The mixing loop of `expand_key`: 3 * max(t, c) steps, i running through
     * S and j through the first c words of L, each cyclically.
     */
    method MixKey(S: array<nat>, L: array<nat>, c: nat)
      requires W > 0 && S != L && 0 < S.Length && 0 < c <= L.Length
      modifies S, L
      ensures S[..] == Mix(W, c, MixState(old(S[..]), old(L[..]), 0, 0), 3 * Max(S.Length, c)).S
    {
      ghost var start := MixState(S[..], L[..], 0, 0);
      var t := S.Length;
      var i: nat, j: nat := 0, 0;
      var A, B := 0, 0;
      DivModUnique(0, t, 0, 0);
      DivModUnique(0, c, 0, 0);
      for n: nat := 0 to Max(t, c) * 3
        invariant i == n % t && j == n % c
        invariant MixState(S[..], L[..], A, B) == Mix(W, c, start, n)
      {
        A, B := MixAt(S, L, i, j, A, B);
        i := Advance(i, n, t);
        j := Advance(j, n, c);
      }
    }

    /** `i = (i + 1) % t`: a counter that is n mod t becomes n + 1 mod t. */
    static method Advance(i: nat, n: nat, t: nat) returns (r: nat)
      requires t > 0 && i == n % t
      ensures r == (n + 1) % t
    {
      CounterStep(i, n, t);
      r := (i + 1) % t;
    }

    /** One mixing step at S[i] and L[j], given the previous A and B. */
    method MixAt(S: array<nat>, L: array<nat>, i: nat, j: nat, A0: nat, B0: nat) returns (A: nat, B: nat)
      requires W > 0 && S != L && i < S.Length && j < L.Length
      modifies S, L
      ensures MixState(S[..], L[..], A, B) == MixStep(W, MixState(old(S[..]), old(L[..]), A0, B0), i, j)
    {
      S[i] := RotateLeft(W, WrappingAdd(W, S[i], WrappingAdd(W, A0, B0)), 3);
      A := S[i];
      var ab := WrappingAdd(W, A, B0);
      L[j] := RotateLeft(W, WrappingAdd(W, L[j], ab), ab);
      B := L[j];
    }

    /** `encrypt`: whiten, R rounds, marshal; the block length errors come from `le_bytes_to_words`. */
    method Encrypt(plaintext: seq<byte>) returns (r: Result<seq<byte>>)
      requires Valid()
      ensures r == EncryptBlock(W, R, S, plaintext)
    {
      var words :- LeBytesToWords(U, plaintext);
      var A := WrappingAdd(W, words.a, S[0]);
      var B := WrappingAdd(W, words.b, S[1]);

      for i := 1 to R + 1
        invariant WordPair(A, B) == EncryptRounds(W, S, words, i - 1)
      {
        A, B := EncryptStep(i, A, B);
      }

      var bytes := WordsToLeBytes(WordPair(A, B));
      return Ok(bytes);
    }

    /** `decrypt`: R rounds from the last, unwhiten, marshal. */
    method Decrypt(ciphertext: seq<byte>) returns (r: Result<seq<byte>>)
      requires Valid()
      ensures r == DecryptBlock(W, R, S, ciphertext)
    {
      var words :- LeBytesToWords(U, ciphertext);
      var A := words.a;
      var B := words.b;

      var i := R;
      while i > 0
        invariant 0 <= i <= R
        invariant DecryptRounds(W, S, WordPair(A, B), i) == DecryptRounds(W, S, words, R)
      {
        A, B := DecryptStep(i, A, B);
        i := i - 1;
      }
      B := WrappingSub(W, B, S[1]);
      A := WrappingSub(W, A, S[0]);

      var bytes := WordsToLeBytes(WordPair(A, B));
      return Ok(bytes);
    }

    /** The body of `encrypt`'s loop: round i, with the round keys S[2i] and S[2i+1]. */
    method EncryptStep(i: nat, A0: nat, B0: nat) returns (A: nat, B: nat)
      requires W > 0 && 2 * i + 1 < |S|
      ensures WordPair(A, B) == EncryptRound(W, S, i, WordPair(A0, B0))
    {
      A := HalfRound(W, A0, B0, S[2 * i]);
      B := HalfRound(W, B0, A, S[2 * i + 1]);
    }

    /** The body of `decrypt`'s loop: round i undone, B first. */
    method DecryptStep(i: nat, A0: nat, B0: nat) returns (A: nat, B: nat)
      requires W > 0 && 2 * i + 1 < |S|
      ensures WordPair(A, B) == DecryptRound(W, S, i, WordPair(A0, B0))
    {
      B := InverseHalfRound(W, B0, A0, S[2 * i + 1]);
      A := InverseHalfRound(W, A0, B, S[2 * i]);
    }

    /** `words_to_le_bytes`: A's bytes then B's, each little-endian; reading them back gives the words. */
    method WordsToLeBytes(words: WordPair) returns (bytes: seq<byte>)
      ensures bytes == BlockBytes(U, words)
      ensures IsWordPair(8 * U, words) ==> LeBytesToWords(U, bytes) == Ok(words)
    {
      bytes := [];
      bytes := bytes + ToLeBytes(U, words.a);
      bytes := bytes + ToLeBytes(U, words.b);
      if IsWordPair(8 * U, words) {
        LeBytesToWordsOfBlockBytes(U, words);
      }
    }
  }
}
