/** Packed 32-bit ARGB colours, as `java.awt.Color` reads and writes them:
    alpha in bits 24..31, red in 16..23, green in 8..15 and blue in 0..7.
    A pixel word is the bit pattern of a Java `int`. */
module Argb {

  /** The bits of one Java `int` pixel. */
  type Word = bv32

  /** One 8-bit colour channel. */
  type Channel = bv8

  /** A channel level given as an `int` in 0..255, as a channel. It counts
      up rather than casting with `x as bv8`: the recursion proves the range
      fact `c as int == x` once, by induction, where a cast would have the
      solver re-derive it from the bit-vector conversion at every use. */
  function ChannelOf(x: int): (c: Channel)
    requires 0 <= x < 256
    ensures c as int == x
    decreases x
  {
    if x == 0 then 0
    else
      var below := ChannelOf(x - 1);
      assert below < 255;
      below + 1
  }

  /** A channel read as a level and converted back is the same channel. */
  lemma ChannelOfLevel(c: Channel)
    ensures ChannelOf(c as int) == c
  {
  }

  /** `new Color(p, true).getAlpha()` */
  function Alpha(p: Word): Channel {
    ((p >> 24) & 0xFF) as bv8
  }

  /** `new Color(p, true).getRed()` */
  function Red(p: Word): Channel {
    ((p >> 16) & 0xFF) as bv8
  }

  /** `new Color(p, true).getGreen()` */
  function Green(p: Word): Channel {
    ((p >> 8) & 0xFF) as bv8
  }

  /** `new Color(p, true).getBlue()` */
  function Blue(p: Word): Channel {
    (p & 0xFF) as bv8
  }

  /** `new Color(r, g, b, a).getRGB()`. The constructor rejects channels
      outside 0..255; converting an `int` to a `Channel` carries that
      range check. */
  function Pack(r: Channel, g: Channel, b: Channel, a: Channel): (p: Word)
    ensures Red(p) == r && Green(p) == g && Blue(p) == b && Alpha(p) == a
  {
    ((a as bv32) << 24) | ((r as bv32) << 16) | ((g as bv32) << 8) | (b as bv32)
  }

  /** Unpacking a word into its four channels and packing them again gives
      back the very same word: no bit of the pixel is lost. */
  lemma PackUnpack(p: Word)
    ensures Pack(Red(p), Green(p), Blue(p), Alpha(p)) == p
  {
  }

  /** Two words are equal exactly when all four channels agree. */
  lemma ChannelsDetermineWord(p: Word, q: Word)
    ensures p == q <==>
      Red(p) == Red(q) && Green(p) == Green(q) && Blue(p) == Blue(q) && Alpha(p) == Alpha(q)
  {
    if Red(p) == Red(q) && Green(p) == Green(q) && Blue(p) == Blue(q) && Alpha(p) == Alpha(q) {
      PackUnpack(p);
      PackUnpack(q);
    }
  }
}
