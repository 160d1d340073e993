/*
 * The four instantiations of `impl_rc5!` the crate lists: RC5-w/r/b with
 * w-bit words, r rounds and b-byte keys, and the magic constants P and Q of
 * section 5 of RFC 2040 for each word width. Which of them can expand a key
 * follows from the contract of KeySchedule.InBounds.
 */
module Variants {
  import opened Words
  import opened KeySchedule
  import opened Instance

  const Rc5_8_12_4: Params := Params(8, 12, 4, 0xB7, 0x9F)
  const Rc5_16_16_8: Params := Params(16, 16, 8, 0xB7E1, 0x9E37)
  const Rc5_32_12_16: Params := Params(32, 12, 16, 0xB7E15163, 0x9E3779B9)
  const Rc5_32_20_16: Params := Params(32, 20, 16, 0xB7E15163, 0x9E3779B9)

  /**
   * The 16- and 32-bit variants: their parameters are words of their width,
   * and `new` expands every key of the right length without indexing out of
   * bounds, so Cipher.New can be called with any such key.
   */
  lemma {:induction false} WideVariantsInBounds(v: Params)
    requires v == Rc5_16_16_8 || v == Rc5_32_12_16 || v == Rc5_32_20_16
    ensures ValidParams(v)
    ensures InBounds(v.keySize, v.w / 8)
  {
    assert Pow2(8) == 0x100;
    Pow2Add(8, 8);
    assert Pow2(16) == 0x1_0000;
    if v != Rc5_16_16_8 {
      Pow2Add(16, 16);
      assert Pow2(32) == 0x1_0000_0000;
    }
  }

  /**
   * The 8-bit variant: a word is one byte, so L gets B - 1 = 3 entries while
   * the first packing step writes L[(B - 1) / 1] = L[3]. `new` therefore
   * panics on every 4-byte key, and on every other key it returns
   * `InvalidKeyLen`: no instance of Rc5_8_12_4 can be built.
   */
  lemma {:induction false} NarrowVariantOutOfBounds()
    ensures ValidParams(Rc5_8_12_4)
    ensures !PackFits(Rc5_8_12_4.w / 8, Rc5_8_12_4.keySize - 1, Rc5_8_12_4.keySize)
    ensures !InBounds(Rc5_8_12_4.keySize, Rc5_8_12_4.w / 8)
  {
    assert Pow2(8) == 256;
  }
}
