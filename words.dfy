/*
 * Unsigned machine words of width w (Rust's u8, u16, u32 and u64), modelled
 * as natural numbers below 2^w, and the primitive Rust integer operations
 * the cipher uses on them: wrapping addition and subtraction, wrapping and
 * checked shifts, the bitwise operators `&`, `|` and `^`, and conversion
 * from and to little-endian bytes.
 */
module Words {

  /** A byte, Rust's `u8` as it appears in keys and blocks. */
  type byte = x: int | 0 <= x < 256

  datatype Option<T> = None | Some(value: T)

  /** `Option::unwrap_or`: the value if there is one, the default otherwise. */
  function UnwrapOr<T>(o: Option<T>, default: T): (r: T)
    ensures o.Some? ==> r == o.value
    ensures o.None? ==> r == default
  {
    match o
    case Some(v) => v
    case None => default
  }

  /** `core::cmp::max` */
  function Max(a: nat, b: nat): (r: nat)
    ensures r >= a && r >= b && (r == a || r == b)
  {
    if a >= b then a else b
  }

  function Pow2(n: nat): (r: nat)
    ensures r >= 1
  {
    if n == 0 then 1 else 2 * Pow2(n - 1)
  }

  /** The widths of the unsigned word types the cipher is instantiated with. */
  predicate IsWidth(w: nat)
  {
    w == 8 || w == 16 || w == 32 || w == 64
  }

  /** The number of bits of a width w, as in w - 1 == 2^Log2(w) - 1 used as a mask. */
  function Log2(w: nat): (r: nat)
    requires IsWidth(w)
    ensures Pow2(r) == w && r <= 6
  {
    assert Pow2(3) == 8 && Pow2(4) == 16 && Pow2(5) == 32 && Pow2(6) == 64;
    if w == 8 then 3 else if w == 16 then 4 else if w == 32 then 5 else 6
  }

  predicate IsWord(w: nat, x: nat)
  {
    x < Pow2(w)
  }

  // ---------------------------------------------------------------------
  // Arithmetic facts about Pow2, division and remainder
  // ---------------------------------------------------------------------

  lemma {:induction false} Pow2Add(a: nat, b: nat)
    ensures Pow2(a + b) == Pow2(a) * Pow2(b)
  {
    if a > 0 {
      Pow2Add(a - 1, b);
      assert Pow2(a + b) == 2 * Pow2(a - 1 + b);
    }
  }

  lemma {:induction false} Pow2Monotone(a: nat, b: nat)
    requires a <= b
    ensures Pow2(a) <= Pow2(b)
  {
    Pow2Add(a, b - a);
    MulMonotone(Pow2(a), 1, Pow2(b - a));
  }

  lemma {:induction false} MulMonotone(x: int, a: int, b: int)
    requires x >= 0 && a <= b
    ensures x * a <= x * b
  {
    assert x * b - x * a == x * (b - a);
  }

  lemma {:induction false} MulStrict(x: int, a: int, m: int)
    requires 0 <= x < a && m > 0
    ensures x * m < a * m
  {
    assert a * m - x * m == (a - x) * m;
    MulMonotone(m, 1, a - x);
  }

  /** Division with remainder has exactly one result. */
  lemma {:induction false} DivModUnique(y: int, m: int, q: int, r: int)
    requires m > 0 && 0 <= r < m
    requires y == q * m + r
    ensures y / m == q && y % m == r
  {
    var q', r' := y / m, y % m;
    assert (q - q') * m == r' - r;
    if q > q' {
      MulMonotone(m, 1, q - q');
    } else if q < q' {
      MulMonotone(m, 1, q' - q);
    }
  }

  /** The low bit and the rest of bit + 2 * rest. */
  lemma {:induction false} LowBit(bit: nat, rest: nat)
    requires bit < 2
    ensures (bit + 2 * rest) % 2 == bit && (bit + 2 * rest) / 2 == rest
  {
    DivModUnique(bit + 2 * rest, 2, rest, bit);
  }

  lemma {:induction false} DivMonotone(a: nat, b: nat, d: nat)
    requires a <= b && d > 0
    ensures a / d <= b / d
  {
    if a / d > b / d {
      MulMonotone(d, b / d + 1, a / d);
    }
  }

  lemma {:induction false} DivBelow(x: nat, d: nat, e: nat)
    requires d > 0 && e > 0 && x < d * e
    ensures x / d < e
  {
    if x / d >= e {
      MulMonotone(d, e, x / d);
    }
  }

  /** The remainder modulo 2p splits into the low bit and the remainder of the rest modulo p. */
  lemma {:induction false} ModDouble(y: nat, p: nat)
    requires p > 0
    ensures y % (2 * p) == y % 2 + 2 * ((y / 2) % p)
  {
    var q, r := (y / 2) / p, (y / 2) % p;
    assert y == q * (2 * p) + (2 * r + y % 2);
    DivModUnique(y, 2 * p, q, 2 * r + y % 2);
  }

  lemma {:induction false} AddModLeft(a: int, b: int, m: int)
    requires m > 0
    ensures (a % m + b) % m == (a + b) % m
  {
    DivModUnique(a + b, m, a / m + (a % m + b) / m, (a % m + b) % m);
  }

  // ---------------------------------------------------------------------
  // Wrapping arithmetic and shifts
  // ---------------------------------------------------------------------

  /** `a.wrapping_add(b)` */
  function WrappingAdd(w: nat, a: nat, b: nat): (r: nat)
    ensures IsWord(w, r)
  {
    (a + b) % Pow2(w)
  }

  /** `a.wrapping_sub(b)`; Dafny's `%` is Euclidean, so the result is the two's-complement difference. */
  function WrappingSub(w: nat, a: nat, b: nat): (r: nat)
    ensures IsWord(w, r)
  {
    (a - b) % Pow2(w)
  }

  lemma {:induction false} WrappingSubAdd(w: nat, a: nat, b: nat)
    requires IsWord(w, a)
    ensures WrappingSub(w, WrappingAdd(w, a, b), b) == a
  {
    var m := Pow2(w);
    DivModUnique(a + b, m, (a + b) / m, (a + b) % m);
    DivModUnique((a + b) % m - b, m, -((a + b) / m), a);
  }

  lemma {:induction false} WrappingAddSub(w: nat, a: nat, b: nat)
    requires IsWord(w, a)
    ensures WrappingAdd(w, WrappingSub(w, a, b), b) == a
  {
    var m := Pow2(w);
    DivModUnique(a - b, m, (a - b) / m, (a - b) % m);
    DivModUnique((a - b) % m + b, m, -((a - b) / m), a);
  }

  /** x * 2^k, one doubling at a time. */
  function ShiftUp(k: nat, x: nat): nat
  {
    if k == 0 then x else 2 * ShiftUp(k - 1, x)
  }

  /** x / 2^k, one halving at a time. */
  function ShiftDown(k: nat, x: nat): nat
  {
    if k == 0 then x else ShiftDown(k - 1, x / 2)
  }

  /** The low n bits of x: what is left of a value stored back into an n-bit word. */
  function Truncate(n: nat, x: nat): (r: nat)
    ensures r < Pow2(n)
  {
    if n == 0 then 0 else x % 2 + 2 * Truncate(n - 1, x / 2)
  }

  lemma {:induction false} ShiftUpValue(k: nat, x: nat)
    ensures ShiftUp(k, x) == x * Pow2(k)
  {
    if k > 0 {
      ShiftUpValue(k - 1, x);
      assert x * Pow2(k) == 2 * (x * Pow2(k - 1));
    }
  }

  lemma {:induction false} ShiftDownValue(k: nat, x: nat)
    ensures ShiftDown(k, x) == x / Pow2(k)
  {
    if k > 0 {
      ShiftDownValue(k - 1, x / 2);
      var p := Pow2(k - 1);
      var q, r := (x / 2) / p, (x / 2) % p;
      assert x == q * (2 * p) + (2 * r + x % 2);
      DivModUnique(x, 2 * p, q, 2 * r + x % 2);
    }
  }

  lemma {:induction false} ShiftDownAtMost(k: nat, x: nat)
    ensures ShiftDown(k, x) <= x
  {
    if k > 0 {
      ShiftDownAtMost(k - 1, x / 2);
    }
  }

  lemma {:induction false} TruncateValue(n: nat, x: nat)
    ensures Truncate(n, x) == x % Pow2(n)
  {
    if n > 0 {
      TruncateValue(n - 1, x / 2);
      ModDouble(x, Pow2(n - 1));
    }
  }

  lemma {:induction false} TruncateWord(n: nat, x: nat)
    requires x < Pow2(n)
    ensures Truncate(n, x) == x
  {
    if n > 0 {
      TruncateWord(n - 1, x / 2);
    }
  }

  /**
   * The amount a wrapping shift actually shifts by: Rust masks the `u32`
   * amount k with w - 1, which for a power-of-two width is k mod w
   * (MaskedAmountIsMask).
   */
  function MaskedAmount(w: nat, k: nat): (r: nat)
    requires w > 0
    ensures r < w
    decreases k
  {
    if k < w then k else MaskedAmount(w, k - w)
  }

  lemma {:induction false} MaskedAmountIsMask(w: nat, k: nat)
    requires IsWidth(w)
    ensures MaskedAmount(w, k) == And(32, k, w - 1) == k % w
    decreases k
  {
    AndWidthMask(32, w, k);
    if k < w {
      DivModUnique(k, w, 0, k);
    } else {
      MaskedAmountIsMask(w, k - w);
      DivModUnique(k, w, (k - w) / w + 1, (k - w) % w);
    }
  }

  /** `x.wrapping_shl(k)`: shifts by the masked amount and drops the bits shifted out. */
  function WrappingShl(w: nat, x: nat, k: nat): (r: nat)
    requires w > 0
    ensures IsWord(w, r)
  {
    Truncate(w, ShiftUp(MaskedAmount(w, k), x))
  }

  /** `x.wrapping_shr(k)`: shifts right by the masked amount; the result is never above x. */
  function WrappingShr(w: nat, x: nat, k: nat): (r: nat)
    requires w > 0
    ensures r <= x
  {
    ShiftDownAtMost(MaskedAmount(w, k), x);
    ShiftDown(MaskedAmount(w, k), x)
  }

  /** A shift by less than the width moves bit i - k of x to bit i, and shifts in zeros. */
  lemma {:induction false} ShlBit(w: nat, x: nat, k: nat, i: nat)
    requires w > 0 && k < w && i < w
    ensures Bit(WrappingShl(w, x, k), i) == if i < k then 0 else Bit(x, i - k)
  {
    BitTruncate(w, ShiftUp(k, x), i);
    BitShiftUp(k, x, i);
  }

  /** A shift right by less than the width moves bit i + k of the word x to bit i. */
  lemma {:induction false} ShrBit(w: nat, x: nat, k: nat, i: nat)
    requires w > 0 && k < w && IsWord(w, x)
    ensures Bit(WrappingShr(w, x, k), i) == if i + k < w then Bit(x, i + k) else 0
  {
    BitShiftDown(k, x, i);
    if i + k >= w {
      BitAbove(w, x, i + k);
    }
  }

  /** Rust's wrapping shifts turn a shift by the full width into a shift by 0. */
  lemma {:induction false} ShiftByWidth(w: nat, x: nat)
    requires w > 0 && IsWord(w, x)
    ensures WrappingShl(w, x, w) == x && WrappingShr(w, x, w) == x
  {
    assert MaskedAmount(w, w) == MaskedAmount(w, 0) == 0;
    TruncateWord(w, x);
  }

  /** `x.checked_shl(k)`: no result when the amount is not below the width. */
  function CheckedShl(w: nat, x: nat, k: nat): (r: Option<nat>)
    requires w > 0
    ensures r.None? <==> k >= w
  {
    if k >= w then None else Some(WrappingShl(w, x, k))
  }

  /** Below the width, `checked_shl` multiplies by 2^k and drops the bits above w. */
  lemma {:induction false} CheckedShlValue(w: nat, x: nat, k: nat)
    requires 0 < w && k < w
    ensures CheckedShl(w, x, k) == Some((x * Pow2(k)) % Pow2(w))
  {
    DivModUnique(k, w, 0, k);
    ShiftUpValue(k, x);
    TruncateValue(w, x * Pow2(k));
  }

  // ---------------------------------------------------------------------
  // Single bits
  // ---------------------------------------------------------------------

  /** Bit i of x, counting from the least significant bit 0. */
  function Bit(x: nat, i: nat): (r: nat)
    ensures r < 2
  {
    if i == 0 then x % 2 else Bit(x / 2, i - 1)
  }

  /** Two n-bit words with the same n bits are equal. */
  lemma {:induction false} BitsEqual(n: nat, x: nat, y: nat)
    requires x < Pow2(n) && y < Pow2(n)
    requires forall i: nat :: i < n ==> Bit(x, i) == Bit(y, i)
    ensures x == y
  {
    if n > 0 {
      assert Bit(x, 0) == Bit(y, 0);
      forall i: nat | i < n - 1
        ensures Bit(x / 2, i) == Bit(y / 2, i)
      {
        assert Bit(x, i + 1) == Bit(y, i + 1);
      }
      BitsEqual(n - 1, x / 2, y / 2);
    }
  }

  /** The bits of an n-bit word from n upwards are zero. */
  lemma {:induction false} BitAbove(n: nat, x: nat, i: nat)
    requires x < Pow2(n) && n <= i
    ensures Bit(x, i) == 0
  {
    if i > 0 {
      BitAbove(if n == 0 then 0 else n - 1, x / 2, i - 1);
    }
  }

  lemma {:induction false} BitTruncate(n: nat, x: nat, i: nat)
    ensures Bit(Truncate(n, x), i) == if i < n then Bit(x, i) else 0
  {
    if i >= n {
      BitAbove(n, Truncate(n, x), i);
    } else if i > 0 {
      BitTruncate(n - 1, x / 2, i - 1);
    }
  }

  lemma {:induction false} BitShiftUp(k: nat, x: nat, i: nat)
    ensures Bit(ShiftUp(k, x), i) == if i < k then 0 else Bit(x, i - k)
  {
    if k > 0 && i > 0 {
      BitShiftUp(k - 1, x, i - 1);
    }
  }

  lemma {:induction false} BitShiftDown(k: nat, x: nat, i: nat)
    ensures Bit(ShiftDown(k, x), i) == Bit(x, i + k)
  {
    if k > 0 {
      BitShiftDown(k - 1, x / 2, i);
    }
  }

  // ---------------------------------------------------------------------
  // Bitwise operators on n-bit words
  // ---------------------------------------------------------------------

  /** `a & b`, bit by bit from the lowest. */
  function And(n: nat, a: nat, b: nat): (r: nat)
    ensures r < Pow2(n)
  {
    if n == 0 then 0
    else (if a % 2 == 1 && b % 2 == 1 then 1 else 0) + 2 * And(n - 1, a / 2, b / 2)
  }

  /** `a | b` */
  function Or(n: nat, a: nat, b: nat): (r: nat)
    ensures r < Pow2(n)
  {
    if n == 0 then 0
    else (if a % 2 == 1 || b % 2 == 1 then 1 else 0) + 2 * Or(n - 1, a / 2, b / 2)
  }

  /** `a ^ b` */
  function Xor(n: nat, a: nat, b: nat): (r: nat)
    ensures r < Pow2(n)
  {
    if n == 0 then 0
    else (if a % 2 == b % 2 then 0 else 1) + 2 * Xor(n - 1, a / 2, b / 2)
  }

  /** Masking with 2^k - 1 keeps the low k bits. */
  lemma {:induction false} AndLowMask(n: nat, k: nat, y: nat)
    requires k <= n
    ensures And(n, y, Pow2(k) - 1) == Truncate(k, y)
  {
    if k == 0 {
      AndZero(n, y);
    } else {
      var mask := Pow2(k) - 1;
      LowBit(1, Pow2(k - 1) - 1);
      AndLowMask(n - 1, k - 1, y / 2);
      assert And(n, y, mask) == y % 2 + 2 * And(n - 1, y / 2, mask / 2);
    }
  }

  lemma {:induction false} AndZero(n: nat, y: nat)
    ensures And(n, y, 0) == 0
  {
    if n > 0 {
      AndZero(n - 1, y / 2);
    }
  }

  /** For a power-of-two width w, `y & (w - 1)` is `y mod w` (on words of at least 6 bits, the mask's width). */
  lemma {:induction false} AndWidthMask(n: nat, w: nat, y: nat)
    requires IsWidth(w) && 6 <= n
    ensures And(n, y, w - 1) == y % w
  {
    AndLowMask(n, Log2(w), y);
    TruncateValue(Log2(w), y);
  }

  /** `a & b` is at most b. */
  lemma {:induction false} AndAtMost(n: nat, a: nat, b: nat)
    ensures And(n, a, b) <= b
  {
    if n > 0 {
      AndAtMost(n - 1, a / 2, b / 2);
    }
  }

  /** Bit i of `a | b` is set exactly when bit i of a or of b is. */
  lemma {:induction false} BitOr(n: nat, a: nat, b: nat, i: nat)
    requires i < n
    ensures Bit(Or(n, a, b), i) == if Bit(a, i) == 1 || Bit(b, i) == 1 then 1 else 0
  {
    LowBit(if a % 2 == 1 || b % 2 == 1 then 1 else 0, Or(n - 1, a / 2, b / 2));
    if i > 0 {
      BitOr(n - 1, a / 2, b / 2, i - 1);
    }
  }

  /** `(a ^ b) ^ b == a` */
  lemma {:induction false} XorXor(n: nat, a: nat, b: nat)
    requires a < Pow2(n)
    ensures Xor(n, Xor(n, a, b), b) == a
  {
    if n > 0 {
      var c := Xor(n, a, b);
      var rest := Xor(n - 1, a / 2, b / 2);
      LowBit(if a % 2 == b % 2 then 0 else 1, rest);
      XorXor(n - 1, a / 2, b / 2);
    }
  }

  // ---------------------------------------------------------------------
  // Little-endian bytes
  // ---------------------------------------------------------------------

  /** `from_le_bytes`: the value of a byte string, least significant byte first. */
  function LeValue(bs: seq<byte>): (r: nat)
    ensures |bs| == 1 ==> r == bs[0]
  {
    if |bs| == 0 then 0 else bs[0] + 256 * LeValue(bs[1..])
  }

  /** n bytes hold a value below 2^(8n). */
  lemma {:induction false} LeValueBound(bs: seq<byte>)
    ensures LeValue(bs) < Pow2(8 * |bs|)
  {
    if |bs| > 0 {
      LeValueBound(bs[1..]);
      Pow2Add(8, 8 * (|bs| - 1));
      assert Pow2(8) == 256;
      MulStrict(LeValue(bs[1..]), Pow2(8 * (|bs| - 1)), 256);
    }
  }

  /** `to_le_bytes` of an n-byte word. */
  function ToLeBytes(n: nat, x: nat): (r: seq<byte>)
    ensures |r| == n
  {
    if n == 0 then [] else [x % 256] + ToLeBytes(n - 1, x / 256)
  }

  lemma {:induction false} ToLeBytesLeValue(bs: seq<byte>)
    ensures ToLeBytes(|bs|, LeValue(bs)) == bs
  {
    if |bs| > 0 {
      var x := LeValue(bs);
      assert x % 256 == bs[0] && x / 256 == LeValue(bs[1..]);
      ToLeBytesLeValue(bs[1..]);
    }
  }

  lemma {:induction false} LeValueToLeBytes(n: nat, x: nat)
    requires x < Pow2(8 * n)
    ensures LeValue(ToLeBytes(n, x)) == x
  {
    if n > 0 {
      Pow2Add(8, 8 * (n - 1));
      assert Pow2(8) == 256;
      DivBelow(x, 256, Pow2(8 * (n - 1)));
      LeValueToLeBytes(n - 1, x / 256);
      assert ToLeBytes(n, x)[1..] == ToLeBytes(n - 1, x / 256);
    }
  }
}
