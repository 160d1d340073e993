/*
 * The key expansion of `expand_key` as functions of its inputs: the packing
 * of the key bytes into the vector L, the initial table P, P+Q, P+2Q, ...,
 * and the mixing steps. The imperative `expand_key` (module Instance) is
 * proved to compute exactly these.
 *
 * This implementation differs from section 5 of RFC 2040 in two places that
 * decide when its indexing stays in bounds: L is allocated with b - 1
 * entries instead of c, and c is the floor of max(b, 1) / u instead of the
 * ceiling.
 */
module KeySchedule {
  import opened Words
  import opened Rc5

  // =====================================================================
  // Bounds
  // =====================================================================

  /** c, the number of key words the mixing loop cycles through: `max(B, 1) / U`, rounded down. */
  function KeyWords(b: nat, u: nat): (c: nat)
    requires u > 0
    ensures c * u <= Max(b, 1) < c * u + u
  {
    Max(b, 1) / u
  }

  /**
   * Every index `expand_key` uses is in range: `B - 1` does not underflow,
   * the packing's largest index (B-1)/U is below the B - 1 entries of L,
   * `j % c` does not divide by zero and L[j] with j < c is in range.
   */
  predicate InBounds(b: nat, u: nat)
    ensures InBounds(b, u) <==> 2 <= u <= b
  {
    InBoundsArith(b, u);
    u > 0 && b >= 1 && (b - 1) / u < b - 1 && 0 < KeyWords(b, u) <= b - 1
  }

  /** The indexing is in bounds exactly when a word has at least two bytes and the key at least one word. */
  lemma {:induction false} InBoundsArith(b: nat, u: nat)
    ensures (u > 0 && b >= 1 && (b - 1) / u < b - 1 && 0 < KeyWords(b, u) <= b - 1) <==> 2 <= u <= b
  {
    if 2 <= u <= b {
      assert u * (b - 1) >= 2 * (b - 1) by { MulMonotone(b - 1, 2, u); }
      DivBelow(b - 1, u, b - 1);
      DivModUnique(u, u, 1, 0);
      DivMonotone(u, b, u);
      assert u * b >= 2 * b by { MulMonotone(b, 2, u); }
      DivBelow(b, u, b);
    }
    if u == 1 {
      DivModUnique(b - 1, 1, b - 1, 0);
    }
    if 0 < u && 1 <= b < u {
      DivModUnique(Max(b, 1), u, 0, Max(b, 1));
    }
  }

  // =====================================================================
  // Packing the key into L
  // =====================================================================

  /** The packing loop reaches index `len - 1` at most, so every index it writes is below n. */
  predicate PackFits(u: nat, n: nat, len: nat)
  {
    u > 0 && (len == 0 || (len - 1) / u < n)
  }

  lemma {:induction false} PackIndex(u: nat, n: nat, len: nat, i: nat)
    requires PackFits(u, n, len) && i < len
    ensures i / u < n
  {
    DivMonotone(i, len - 1, u);
  }

  /** One packing step: `L[i/U] = (L[i/U].checked_shl(8).unwrap_or(0)).wrapping_add(key[i])`. */
  function PackStep(w: nat, u: nat, L: seq<nat>, i: nat, kb: byte): (r: seq<nat>)
    requires w > 0 && u > 0 && i / u < |L|
    ensures |r| == |L|
  {
    L[i / u := WrappingAdd(w, UnwrapOr(CheckedShl(w, L[i / u], 8), 0), kb)]
  }

  /** L (n zeroes to start with) after the packing loop has visited key[|key|-1], ..., key[k], in that order. */
  function Packed(w: nat, u: nat, n: nat, key: seq<byte>, k: nat): (r: seq<nat>)
    requires w > 0 && PackFits(u, n, |key|) && k <= |key|
    ensures |r| == n
    decreases |key| - k
  {
    if k == |key| then seq(n, _ => 0)
    else
      PackIndex(u, n, |key|, k);
      PackStep(w, u, Packed(w, u, n, key, k + 1), k, key[k])
  }

  /** The first and one-past-last key index of key word m: bytes m*u .. m*u+u, cut off at the key's end. */
  function ChunkLo(u: nat, len: nat, m: nat): nat
  {
    if m * u < len then m * u else len
  }

  function ChunkHi(u: nat, len: nat, m: nat): nat
  {
    if m * u + u < len then m * u + u else len
  }

  /** Where a visit that has reached index k stands within [lo, hi]. */
  function Clamp(k: nat, lo: nat, hi: nat): nat
  {
    if k < lo then lo else if k > hi then hi else k
  }

  /**
   * The arithmetic of one packing step: index k lies in word m0 = k / u,
   * every other word's visited part is the same before and after k.
   */
  lemma {:induction false} ChunkOfIndex(u: nat, len: nat, k: nat, m: nat)
    requires u > 0 && k < len
    ensures var lo, hi := ChunkLo(u, len, m), ChunkHi(u, len, m);
      lo <= hi <= len && hi <= lo + u &&
      (m == k / u ==> lo <= k < hi) &&
      (m != k / u ==> Clamp(k, lo, hi) == Clamp(k + 1, lo, hi))
  {
    var m0 := k / u;
    assert m0 * u <= k < m0 * u + u;
    if m < m0 {
      MulMonotone(u, m + 1, m0);
      assert m * u + u <= m0 * u;
    } else if m > m0 {
      MulMonotone(u, m0 + 1, m);
      assert m0 * u + u <= m * u;
    }
  }

  /** Bound on the value a partly packed word can hold. */
  lemma {:induction false} PackedWordBound(w: nat, u: nat, acc: nat, kb: byte, len: nat)
    requires 0 < 8 * u <= w && 0 < len <= u && acc < Pow2(8 * (len - 1))
    ensures acc * 256 + kb < Pow2(w)
    ensures UnwrapOr(CheckedShl(w, acc, 8), 0) == acc * 256
  {
    Pow2Add(8, 8 * (len - 1));
    assert Pow2(8) == 256;
    assert acc * 256 + kb < Pow2(8 * len) by {
      MulStrict(acc, Pow2(8 * (len - 1)), 256);
    }
    Pow2Monotone(8 * len, w);
    if w <= 8 {
      assert acc == 0;
    } else {
      CheckedShlValue(w, acc, 8);
      DivModUnique(acc * 256, Pow2(w), 0, acc * 256);
    }
  }

  /**
   * After the packing loop has visited key[|key|-1] down to key[k], each word
   * of L holds the little-endian value of the visited part of its chunk.
   */
  lemma {:induction false} PackedValue(w: nat, u: nat, n: nat, key: seq<byte>, k: nat, m: nat)
    requires 0 < 8 * u <= w && PackFits(u, n, |key|) && k <= |key| && m < n
    ensures var lo, hi := ChunkLo(u, |key|, m), ChunkHi(u, |key|, m);
      lo <= hi && Packed(w, u, n, key, k)[m] == LeValue(key[Clamp(k, lo, hi)..hi])
    decreases |key| - k
  {
    var lo, hi := ChunkLo(u, |key|, m), ChunkHi(u, |key|, m);
    if k == |key| {
      assert Clamp(k, lo, hi) == hi;
    } else {
      PackIndex(u, n, |key|, k);
      ChunkOfIndex(u, |key|, k, m);
      PackedValue(w, u, n, key, k + 1, m);
      if m == k / u {
        var acc := LeValue(key[k + 1..hi]);
        LeValueBound(key[k + 1..hi]);
        PackedWordBound(w, u, acc, key[k], hi - k);
        assert key[k..hi][1..] == key[k + 1..hi];
        DivModUnique(acc * 256 + key[k], Pow2(w), 0, acc * 256 + key[k]);
      }
    }
  }

  /** L after the whole packing loop, for a key of b bytes: `vec![0; B - 1]` packed. */
  function PackedKey(w: nat, u: nat, key: seq<byte>): (r: seq<nat>)
    requires w > 0 && |key| >= 1 && PackFits(u, |key| - 1, |key|)
    ensures |r| == |key| - 1
  {
    Packed(w, u, |key| - 1, key, 0)
  }

  /**
   * Key word m is the little-endian value of key bytes m*u .. m*u+u (fewer
   * where the key ends, none past its end): words of u bytes never overflow,
   * so no reduction mod 2^w takes place.
   */
  lemma {:induction false} PackedKeyWord(w: nat, u: nat, key: seq<byte>, m: nat)
    requires 0 < 8 * u <= w && |key| >= 1 && PackFits(u, |key| - 1, |key|) && m < |key| - 1
    ensures m * u + u <= |key| ==> PackedKey(w, u, key)[m] == LeValue(key[m * u..m * u + u])
    ensures |key| <= m * u ==> PackedKey(w, u, key)[m] == 0
  {
    PackedValue(w, u, |key| - 1, key, 0, m);
  }

  // =====================================================================
  // Initial table
  // =====================================================================

  /** The table before mixing: S[i] = P + i*Q, wrapping. */
  function InitialTable(w: nat, p: nat, q: nat, t: nat): (r: seq<nat>)
    ensures |r| == t
  {
    seq(t, i => (p + i * q) % Pow2(w))
  }

  /** Each entry is the previous one plus Q: what the loop `S[i] = S[i-1].wrapping_add(Q)` computes. */
  lemma {:induction false} InitialTableStep(w: nat, p: nat, q: nat, t: nat, i: nat)
    requires 0 < i < t
    ensures InitialTable(w, p, q, t)[i] == WrappingAdd(w, InitialTable(w, p, q, t)[i - 1], q)
  {
    var m := Pow2(w);
    var a := p + (i - 1) * q;
    var S := InitialTable(w, p, q, t);
    assert S[i - 1] == a % m;
    assert a + q == p + i * q by { MulSucc(i - 1, q); }
    assert S[i] == (a + q) % m;
    AddModLeft(a, q, m);
  }

  lemma {:induction false} MulSucc(i: nat, q: nat)
    ensures i * q + q == (i + 1) * q
  {
  }

  // =====================================================================
  // Mixing
  // =====================================================================

  /** The table, the key words and the two carried words of the mixing loop. */
  datatype MixState = MixState(S: seq<nat>, L: seq<nat>, A: nat, B: nat)

  /** One mixing step at S[i] and L[j]: S[i] = (S[i] + A + B) <<< 3, A = S[i], L[j] = (L[j] + A + B) <<< (A + B), B = L[j]. */
  function MixStep(w: nat, st: MixState, i: nat, j: nat): (r: MixState)
    requires w > 0 && i < |st.S| && j < |st.L|
    ensures |r.S| == |st.S| && |r.L| == |st.L|
  {
    var A := RotateLeft(w, WrappingAdd(w, st.S[i], WrappingAdd(w, st.A, st.B)), 3);
    var ab := WrappingAdd(w, A, st.B);
    var B := RotateLeft(w, WrappingAdd(w, st.L[j], ab), ab);
    MixState(st.S[i := A], st.L[j := B], A, B)
  }

  /**
   * The state after n mixing steps. Step k (counting from 0) works on S[k mod t]
   * and L[k mod c]: the loop's i and j start at 0 and advance by one, cyclically.
   */
  function Mix(w: nat, c: nat, st: MixState, n: nat): (r: MixState)
    requires w > 0 && 0 < |st.S| && 0 < c <= |st.L|
    ensures |r.S| == |st.S| && |r.L| == |st.L|
  {
    if n == 0 then st
    else MixStep(w, Mix(w, c, st, n - 1), (n - 1) % |st.S|, (n - 1) % c)
  }

  /** The loop's `i = (i + 1) % t` keeps i equal to the step count mod t. */
  lemma {:induction false} CounterStep(i: nat, n: nat, t: nat)
    requires t > 0 && i == n % t
    ensures (i + 1) % t == (n + 1) % t
  {
    AddModLeft(n, 1, t);
  }

  /** All entries are words. */
  predicate AllWords(w: nat, s: seq<nat>)
  {
    forall k :: 0 <= k < |s| ==> IsWord(w, s[k])
  }

  /** Mixing keeps every entry of S and L a word. */
  lemma {:induction false} MixWords(w: nat, c: nat, st: MixState, n: nat)
    requires w > 0 && 0 < |st.S| && 0 < c <= |st.L| && AllWords(w, st.S) && AllWords(w, st.L)
    ensures AllWords(w, Mix(w, c, st, n).S) && AllWords(w, Mix(w, c, st, n).L)
  {
    if n > 0 {
      MixWords(w, c, st, n - 1);
    }
  }

  // =====================================================================
  // The whole expansion
  // =====================================================================

  /** The state the mixing loop starts from. */
  function MixStart(w: nat, rounds: nat, u: nat, p: nat, q: nat, key: seq<byte>): (r: MixState)
    requires w > 0 && InBounds(|key|, u)
    ensures |r.S| == 2 * (rounds + 1) && 0 < KeyWords(|key|, u) <= |r.L|
  {
    DivMonotone(|key| - 1, |key| - 1, u);
    MixState(InitialTable(w, p, q, 2 * (rounds + 1)), PackedKey(w, u, key), 0, 0)
  }

  /** The table `expand_key` stores: 3 * max(t, c) mixing steps over the initial table and the packed key. */
  function ExpandedKey(w: nat, rounds: nat, u: nat, p: nat, q: nat, key: seq<byte>): (r: seq<nat>)
    requires w > 0 && InBounds(|key|, u)
    ensures |r| == 2 * (rounds + 1)
  {
    var t := 2 * (rounds + 1);
    var c := KeyWords(|key|, u);
    Mix(w, c, MixStart(w, rounds, u, p, q, key), 3 * Max(t, c)).S
  }

  /** The expanded table has t = 2(R+1) entries, all of them words. */
  lemma {:induction false} ExpandedKeyShape(w: nat, rounds: nat, u: nat, p: nat, q: nat, key: seq<byte>)
    requires 0 < 8 * u <= w && InBounds(|key|, u)
    ensures |ExpandedKey(w, rounds, u, p, q, key)| == 2 * (rounds + 1)
    ensures AllWords(w, ExpandedKey(w, rounds, u, p, q, key))
  {
    var st := MixStart(w, rounds, u, p, q, key);
    var c := KeyWords(|key|, u);
    forall m | 0 <= m < |st.L|
      ensures IsWord(w, st.L[m])
    {
      PackedValue(w, u, |key| - 1, key, 0, m);
      var lo, hi := ChunkLo(u, |key|, m), ChunkHi(u, |key|, m);
      LeValueBound(key[lo..hi]);
      Pow2Monotone(8 * (hi - lo), w);
    }
    MixWords(w, c, st, 3 * Max(2 * (rounds + 1), c));
  }
}
