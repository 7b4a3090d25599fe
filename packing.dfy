/** The 24-bit packing shared by both pixel buffers (src/ImageWrapper.java and
    src/Img.java): SetRGB masks each channel with `& 0xFF` and shifts it into
    0xRRGGBB; GetRGB shifts it back out and masks again.

    On a two's-complement Java int, `c & 0xFF` is c mod 256 for every c
    (2^32 is a multiple of 256), which is Dafny's `%` by 256; on a non-negative
    packed value `v >> 16` is v / 65536 and `v >> 8` is v / 256. The alpha
    byte that BufferedImage.getRGB adds is masked away and not modelled. */
module Packing {
  import opened Rgb

  /** `c & 0xFF`. */
  function Mask8(c: int): (m: int)
    ensures 0 <= m < 256
    ensures (c - m) % 256 == 0
    ensures 0 <= c < 256 ==> m == c
  {
    c % 256
  }

  /** Every channel reduced to its low eight bits. */
  function Wrap(p: Pixel): (q: Pixel)
    ensures InRange(q)
    ensures InRange(p) ==> q == p
  {
    Pixel(Mask8(p.red), Mask8(p.green), Mask8(p.blue))
  }

  /** The int SetRGB hands to the image: `(r & 0xFF) << 16 | (g & 0xFF) << 8 | (b & 0xFF)`. */
  function Pack(p: Pixel): (v: int)
    ensures 0 <= v < 0x100_0000
  {
    Mask8(p.red) * 0x1_0000 + Mask8(p.green) * 0x100 + Mask8(p.blue)
  }

  /** The channels GetRGB extracts: bits 16-23, 8-15 and 0-7. */
  function Unpack(v: int): (p: Pixel)
    ensures InRange(p)
  {
    Pixel(Mask8(v / 0x1_0000), Mask8(v / 0x100), Mask8(v))
  }

  /** Reading back what SetRGB stored gives every channel modulo 256
      (256 reads back as 0, -1 as 255). */
  lemma UnpackPack(p: Pixel)
    ensures Unpack(Pack(p)) == Wrap(p)
  {
    var r, g, b := Mask8(p.red), Mask8(p.green), Mask8(p.blue);
    var v := r * 0x1_0000 + g * 0x100 + b;
    SplitByte(r * 0x100 + g, b);
    assert v == (r * 0x100 + g) * 0x100 + b;
    SplitByte(r, g);
    SplitWord(r, g * 0x100 + b);
  }

  /** Dividing hi * 256 + lo by 256, with lo a byte, gives hi back and leaves lo. */
  lemma SplitByte(hi: int, lo: int)
    requires 0 <= lo < 0x100
    ensures (hi * 0x100 + lo) / 0x100 == hi && (hi * 0x100 + lo) % 0x100 == lo
  {
  }

  lemma SplitWord(hi: int, lo: int)
    requires 0 <= lo < 0x1_0000
    ensures (hi * 0x1_0000 + lo) / 0x1_0000 == hi
  {
  }

  /** Channels already in [0, 255] survive the round trip exactly. */
  lemma UnpackPackInRange(p: Pixel)
    requires InRange(p)
    ensures Unpack(Pack(p)) == p
  {
    UnpackPack(p);
  }

  /** Every 24-bit value is the packing of the channels read from it. */
  lemma PackUnpack(v: int)
    requires 0 <= v < 0x100_0000
    ensures Pack(Unpack(v)) == v
  {
    var r, g, b := v / 0x1_0000, (v / 0x100) % 0x100, v % 0x100;
    assert r < 0x100;
    assert v == r * 0x1_0000 + g * 0x100 + b;
  }

  /** Masking before packing changes nothing: SetRGB of p and of Wrap(p) store the same int. */
  lemma PackWrap(p: Pixel)
    ensures Pack(Wrap(p)) == Pack(p)
  {
  }
}
