/**
 The shifts, masks and ors of the firmware on 16-bit and 32-bit words, as the quotients, remainders
 and sums by which the other modules write them.
 */
module Bits {

  /** Packing a 24-bit pixel, as in `copy_pix_map_24_to_16`. */
  lemma PackIsSum(red: bv16, green: bv16, blue: bv16)
    requires red < 0x100 && green < 0x100 && blue < 0x100
    ensures ((red & 0xf8) << 8) | ((green & 0xfc) << 3) | ((blue & 0xf8) >> 3)
         == (red / 8) * 0x800 + (green / 4) * 0x20 + blue / 8
  {
    assert red / 8 == red >> 3 && green / 4 == green >> 2 && blue / 8 == blue >> 3;
    assert (red >> 3) * 0x800 == (red & 0xf8) << 8;
    assert (green >> 2) * 0x20 == (green & 0xfc) << 3;
    assert ((red & 0xf8) << 8) | ((green & 0xfc) << 3) | ((blue & 0xf8) >> 3)
        == ((red & 0xf8) << 8) + ((green & 0xfc) << 3) + ((blue & 0xf8) >> 3);
  }

  /** Merging channels into a 5-6-5 word, as in `merge_color_channels`. */
  lemma MergeIsSum(red: bv16, green: bv16, blue: bv16)
    ensures (blue & 0x1F) | ((green & 0x3F) << 5) | ((red & 0x1F) << 11)
         == blue % 0x20 + (green % 0x40) * 0x20 + (red % 0x20) * 0x800
  {
    assert blue % 0x20 == blue & 0x1F && green % 0x40 == green & 0x3F && red % 0x20 == red & 0x1F;
    assert (green & 0x3F) * 0x20 == (green & 0x3F) << 5 && (red & 0x1F) * 0x800 == (red & 0x1F) << 11;
    assert (blue & 0x1F) | ((green & 0x3F) << 5) | ((red & 0x1F) << 11)
        == (blue & 0x1F) + ((green & 0x3F) << 5) + ((red & 0x1F) << 11);
  }

  /** Taking a 5-6-5 word apart, as in `seperate_color_channels`. */
  lemma FieldsAreRemainders(t: bv16)
    ensures t & 0x1F == t % 0x20
    ensures (t >> 5) & 0x3F == t / 0x20 % 0x40
    ensures (t >> 11) & 0x1F == t / 0x800 % 0x20
  {
    assert t / 0x20 == t >> 5 && t / 0x800 == t >> 11;
  }

  /** The two bytes of a word, and the word put together from them. */
  lemma BytesOfWord(t: bv16, low: bv16, high: bv16)
    requires low < 0x100 && high < 0x100
    ensures t & 0xFF == t % 0x100 && (t >> 8) & 0xFF == t / 0x100
    ensures low + (high << 8) == low + 0x100 * high
  {
  }

  /** Packing a 32-bit pixel, as in `copy_pix_map_32_to_16`. */
  lemma LongPackIsSum(p: bv32)
    ensures (((p >> 3) & 0x1f) << 11) | (((p >> 10) & 0x3f) << 5) | ((p >> 19) & 0x1f)
         == (p / 8 % 0x20) * 0x800 + (p / 0x400 % 0x40) * 0x20 + p / 0x8_0000 % 0x20
  {
    assert p / 8 == p >> 3 && p / 0x400 == p >> 10 && p / 0x8_0000 == p >> 19;
    Remainders(p >> 3, p >> 10, p >> 19);
    FieldsAdd((p >> 3) & 0x1f, (p >> 10) & 0x3f, (p >> 19) & 0x1f);
  }

  lemma Remainders(p: bv32, q: bv32, r: bv32)
    ensures p & 0x1f == p % 0x20 && q & 0x3f == q % 0x40 && r & 0x1f == r % 0x20
  {
  }

  lemma FieldsAdd(p: bv32, q: bv32, r: bv32)
    requires p < 0x20 && q < 0x40 && r < 0x20
    ensures (p << 11) | (q << 5) | r == p * 0x800 + q * 0x20 + r
  {
  }

  /** The colour put together by the blitters. */
  lemma ColourIsSum(red: bv32, green: bv32, blue: bv32)
    requires red < 0x100 && green < 0x100 && blue < 0x100
    ensures ((red << 16) | (green << 8) | blue) & 0xffffff == red * 0x1_0000 + green * 0x100 + blue
  {
  }

  /** The bytes taken from a word by `read_from_frame` and `vid_set_pixel`. */
  lemma BytesOfLongWord(t: bv32)
    ensures t & 0xFF == t % 0x100
    ensures (t >> 8) & 0xFF == t / 0x100 % 0x100
    ensures (t >> 16) & 0xFF == t / 0x1_0000 % 0x100
    ensures t >> 24 == t / 0x100_0000
  {
    assert t / 0x100 == t >> 8 && t / 0x1_0000 == t >> 16;
  }
}
