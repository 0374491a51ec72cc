/** The pixel inside a ZRLE tile: a 32-bit format whose colour all sits in
    three of its bytes sends only those (CPIXEL of section 7.7.5 of RFC 6143). */
module Cpixels {
  import opened Arithmetic
  import opened Bits
  import opened Pictures
  import opened PixelFormats
  import opened Blocks

  datatype Cpixel = Cpixel(bytes: nat, offset: nat, full: nat)

  /** Every bit that carries colour. */
  function ColourBits(pf: PixelFormat): nat {
    Or(Or(ShiftLeft(pf.redMax, pf.redShift), ShiftLeft(pf.greenMax, pf.greenShift)), ShiftLeft(pf.blueMax, pf.blueShift))
  }

  function CpixelOf(pf: PixelFormat): Cpixel {
    var full := pf.BytesPerPixel();
    if pf.bitsPerPixel == 32 && pf.depth <= 24 && Field(ColourBits(pf), 24, 8) == 0 then
      Cpixel(3, if pf.bigEndian then 1 else 0, full)
    else if pf.bitsPerPixel == 32 && pf.depth <= 24 && Field(ColourBits(pf), 0, 8) == 0 then
      Cpixel(3, if pf.bigEndian then 0 else 1, full)
    else Cpixel(full, 0, full)
  }

  predicate Sane(c: Cpixel) { c.bytes > 0 && c.offset + c.bytes <= c.full }

  lemma CpixelSane(pf: PixelFormat)
    requires Valid(pf)
    ensures Sane(CpixelOf(pf))
  {
  }

  /** The bytes of a pixel that are sent. */
  function Kept(bs: seq<byte>, c: Cpixel): (k: seq<byte>)
    requires |bs| == c.full && Sane(c)
    ensures |k| == c.bytes
  {
    bs[c.offset..c.offset + c.bytes]
  }

  /** The full pixel again, the byte left behind as zero. */
  function Restored(bs: seq<byte>, c: Cpixel): (full: seq<byte>)
    requires |bs| == c.bytes && Sane(c)
    ensures |full| == c.full
  {
    seq(c.full, i requires 0 <= i < c.full => if c.offset <= i < c.offset + c.bytes then bs[i - c.offset] else 0)
  }

  // ---- The byte left behind carries no colour ----

  lemma OrIsZero(a: nat, b: nat)
    ensures Or(a, b) == 0 <==> a == 0 && b == 0
  {
    OrAtLeast(a, b);
    OrZero(0);
  }

  /** A field that is no channel's bits stays clear whatever is packed. */
  ghost predicate Clear(max: u16, shift: byte, s: nat) { Field(ShiftLeft(max, shift), s, 8) == 0 }

  lemma ClearChannels(pf: PixelFormat, s: nat)
    requires Field(ColourBits(pf), s, 8) == 0
    ensures Clear(pf.redMax, pf.redShift, s) && Clear(pf.greenMax, pf.greenShift, s) && Clear(pf.blueMax, pf.blueShift, s)
  {
    hide Field, ShiftLeft, Or;
    var r, g, b := ShiftLeft(pf.redMax, pf.redShift), ShiftLeft(pf.greenMax, pf.greenShift), ShiftLeft(pf.blueMax, pf.blueShift);
    OrField(r, g, s, 8);
    OrField(Or(r, g), b, s, 8);
    OrIsZero(Field(Or(r, g), s, 8), Field(b, s, 8));
    OrIsZero(Field(r, s, 8), Field(g, s, 8));
  }

  /** Clear at the top means nothing up there at all. */
  lemma ClearAbove(v: nat)
    requires v < Pow2(32) && Field(v, 24, 8) == 0
    ensures v < Pow2(24)
  {
    hide Pow2;
    Pow2Add(8, 24);
    var q := v / Pow2(24);
    DivBounds(v, Pow2(24));
    DivAtLeast(v, Pow2(24), 0);
    MulCancel(q, Pow2(8), Pow2(24));
    DivUnique(q, Pow2(8), 0);
    DivMod(q, Pow2(8));
  }

  lemma PackedBelow(x: nat, max: u16, shift: byte)
    requires x <= max && ShiftLeft(max, shift) < Pow2(24)
    ensures ShiftLeft(x, shift) < Pow2(24)
  {
    MulOrder(x, max, Pow2(shift));
  }

  lemma TopByteClear(px: Pixel, pf: PixelFormat)
    requires Valid(pf) && pf.bitsPerPixel == 32 && Field(ColourBits(pf), 24, 8) == 0
    ensures Pack(px, pf) < Pow2(24)
  {
    hide Pow2, Or, Field, Scale, Width;
    ClearChannels(pf, 24);
    ShiftedFits(pf.redMax, pf.redMax, pf.redShift, 32);
    ShiftedFits(pf.greenMax, pf.greenMax, pf.greenShift, 32);
    ShiftedFits(pf.blueMax, pf.blueMax, pf.blueShift, 32);
    ClearAbove(ShiftLeft(pf.redMax, pf.redShift));
    ClearAbove(ShiftLeft(pf.greenMax, pf.greenShift));
    ClearAbove(ShiftLeft(pf.blueMax, pf.blueShift));
    PackedBelow(Scale(px.r, pf.redMax), pf.redMax, pf.redShift);
    PackedBelow(Scale(px.g, pf.greenMax), pf.greenMax, pf.greenShift);
    PackedBelow(Scale(px.b, pf.blueMax), pf.blueMax, pf.blueShift);
    var r, g := ShiftLeft(Scale(px.r, pf.redMax), pf.redShift), ShiftLeft(Scale(px.g, pf.greenMax), pf.greenShift);
    OrBelow(r, g, 24);
    OrBelow(Or(r, g), ShiftLeft(Scale(px.b, pf.blueMax), pf.blueShift), 24);
  }

  /** A channel clear of the low byte starts above it. */
  lemma ClearBelow(max: u16, shift: byte, bits: byte)
    requires ChannelFits(max, shift, bits) && Clear(max, shift, 0)
    ensures shift >= 8
  {
    OddMax(max, shift, bits);
    hide Pow2, ShiftLeft;
    if shift < 8 {
      Pow2Add(shift, 8 - shift);
      Pow2Double(8 - shift);
      LowField(ShiftLeft(max, shift));
      LowBitLeft(max, shift);
    }
  }

  lemma LowField(v: nat)
    ensures Field(v, 0, 8) == v % Pow2(8)
  {
    hide Pow2;
    assert Pow2(0) == 1 by { Pow2Zero(); }
  }

  lemma LowBitLeft(m: nat, s: nat)
    requires s < 8
    ensures ShiftLeft(m, s) % Pow2(8) == 0 ==> m % 2 == 0
  {
    hide Pow2;
    var p, q, h := Pow2(s), Pow2(8 - s), Pow2(7 - s);
    Pow2Add(s, 8 - s);
    Pow2Double(8 - s);
    if m * p % (p * q) == 0 {
      var k := m * p / (p * q);
      DivMod(m * p, p * q);
      Regrouped(k, p, q, h);
      MulCancelEqual(m, 2 * (k * h), p);
    }
  }

  lemma Regrouped(k: int, p: int, q: int, h: int)
    requires q == 2 * h
    ensures k * (p * q) == 2 * (k * h) * p
  {
  }

  lemma ShiftedClear(x: nat, shift: nat)
    requires shift >= 8
    ensures Low(ShiftLeft(x, shift), 8) == 0
  {
    hide Pow2;
    Pow2Add(shift - 8, 8);
    var p, q := Pow2(shift - 8), Pow2(8);
    assert x * (p * q) == (x * p) * q;
    Distributes(x * p, q);
    DivUnique((x * p) * q, q, x * p);
    DivMod((x * p) * q, q);
  }

  lemma LowByteClear(px: Pixel, pf: PixelFormat)
    requires Valid(pf) && Field(ColourBits(pf), 0, 8) == 0
    ensures Low(Pack(px, pf), 8) == 0
  {
    hide Pow2, Or, Field, Scale, Width, Low, ShiftLeft;
    ClearChannels(pf, 0);
    ClearBelow(pf.redMax, pf.redShift, pf.bitsPerPixel);
    ClearBelow(pf.greenMax, pf.greenShift, pf.bitsPerPixel);
    ClearBelow(pf.blueMax, pf.blueShift, pf.bitsPerPixel);
    ShiftedClear(Scale(px.r, pf.redMax), pf.redShift);
    ShiftedClear(Scale(px.g, pf.greenMax), pf.greenShift);
    ShiftedClear(Scale(px.b, pf.blueMax), pf.blueShift);
    var r, g := ShiftLeft(Scale(px.r, pf.redMax), pf.redShift), ShiftLeft(Scale(px.g, pf.greenMax), pf.greenShift);
    OrMask(r, g, 8);
    OrMask(Or(r, g), ShiftLeft(Scale(px.b, pf.blueMax), pf.blueShift), 8);
    OrZero(0);
  }

  // ---- A kept pixel restored ----

  /** The byte of the word at one end is zero, so dropping it and putting zero back changes nothing. */
  lemma DroppedIsZero(v: nat, bigEndian: bool, top: bool)
    requires if top then v < Pow2(24) else Low(v, 8) == 0
    ensures var c := Cpixel(3, if bigEndian == top then 1 else 0, 4);
            Restored(Kept(WordBytesOf(v, 4, bigEndian), c), c) == WordBytesOf(v, 4, bigEndian)
  {
    FourBytes(v);
    assert Pow2(8) == 256;
    Pow2Add(8, 8);
    Pow2Add(16, 8);
  }

  /** The framebuffer's own layout drops its padding, which no channel reads. */
  lemma NativeRestored(px: Pixel)
    ensures CpixelOf(BGRX32) == Cpixel(3, 0, 4)
    ensures Unpack(Restored(Kept([px.b, px.g, px.r, px.x], Cpixel(3, 0, 4)), Cpixel(3, 0, 4)), BGRX32)
         == Unpack([px.b, px.g, px.r, px.x], BGRX32)
  {
    NativeCpixel();
    NativeUnpacked(px);
    NativeUnpacked(px.(x := 0));
    var c := Cpixel(3, 0, 4);
    assert Restored(Kept([px.b, px.g, px.r, px.x], c), c) == [px.b, px.g, px.r, 0];
  }

  lemma BelowIsClear(v: nat)
    requires v < Pow2(24)
    ensures Field(v, 24, 8) == 0
  {
    hide Pow2;
    DivUnique(v, Pow2(24), 0);
    DivUnique(0, Pow2(8), 0);
    DivMod(0, Pow2(8));
  }

  lemma NativeCpixel()
    ensures CpixelOf(BGRX32) == Cpixel(3, 0, 4)
  {
    hide Or, Field, Pow2;
    var r, g, b := ShiftLeft(255, 16), ShiftLeft(255, 8), ShiftLeft(255, 0);
    SmallPowers();
    OrBelow(r, g, 24);
    OrBelow(Or(r, g), b, 24);
    BelowIsClear(ColourBits(BGRX32));
  }

  lemma SmallPowers()
    ensures Pow2(0) == 1 && Pow2(8) == 256 && Pow2(16) == 65536 && Pow2(24) == 16777216
  {
    assert Pow2(8) == 256;
    Pow2Add(8, 8);
    Pow2Add(16, 8);
  }

  /** Sending fewer bytes loses nothing a client would show. */
  lemma CpixelKeepsColour(px: Pixel, pf: PixelFormat)
    requires Valid(pf)
    ensures Sane(CpixelOf(pf)) && |Convert(px, pf)| == CpixelOf(pf).full
    ensures Unpack(Restored(Kept(Convert(px, pf), CpixelOf(pf)), CpixelOf(pf)), pf) == Unpack(Convert(px, pf), pf)
  {
    hide Unpack, Pack, WordBytesOf, Field, ColourBits, PixelFormat.BytesPerPixel;
    CpixelSane(pf);
    ConvertSize(px, pf);
    var c := CpixelOf(pf);
    if pf == BGRX32 {
      NativeRestored(px);
    } else if c.bytes == c.full {
      assert Restored(Kept(Convert(px, pf), c), c) == Convert(px, pf);
    } else if Field(ColourBits(pf), 24, 8) == 0 {
      TopByteClear(px, pf);
      DroppedIsZero(Pack(px, pf), pf.bigEndian, true);
    } else {
      LowByteClear(px, pf);
      DroppedIsZero(Pack(px, pf), pf.bigEndian, false);
    }
  }

  // ---- When three bytes do ----

  /** The brightest pixel sets every bit that carries colour. */
  lemma WhiteSetsAll(pf: PixelFormat)
    ensures Pack(Pixel(255, 255, 255, 0), pf) == ColourBits(pf)
  {
    hide Or, ShiftLeft;
    FullScale(pf.redMax);
    FullScale(pf.greenMax);
    FullScale(pf.blueMax);
  }

  lemma TopClearIff(pf: PixelFormat)
    requires Valid(pf) && pf.bitsPerPixel == 32
    ensures Field(ColourBits(pf), 24, 8) == 0 <==> forall px :: Pack(px, pf) < 16777216
  {
    hide Pack, ColourBits, Field, Pow2;
    SmallPowers();
    WhiteSetsAll(pf);
    if Field(ColourBits(pf), 24, 8) == 0 {
      forall px ensures Pack(px, pf) < 16777216 {
        TopByteClear(px, pf);
      }
    } else if Pack(Pixel(255, 255, 255, 0), pf) < 16777216 {
      BelowIsClear(ColourBits(pf));
    }
  }

  lemma LowClearIff(pf: PixelFormat)
    requires Valid(pf)
    ensures Field(ColourBits(pf), 0, 8) == 0 <==> forall px :: Pack(px, pf) % 256 == 0
  {
    hide Pack, ColourBits, Field, Pow2;
    SmallPowers();
    WhiteSetsAll(pf);
    LowField(ColourBits(pf));
    if Field(ColourBits(pf), 0, 8) == 0 {
      forall px ensures Pack(px, pf) % 256 == 0 {
        LowByteClear(px, pf);
      }
    }
  }

  /** A pixel goes in three bytes exactly when the format has 32 bits, a depth of no more
      than 24, and no packed pixel reaches into its top byte or none into its low one.
      Every other valid format sends all its bytes. */
  lemma ThreeBytesIff(pf: PixelFormat)
    requires Valid(pf)
    ensures CpixelOf(pf).bytes == 3 <==>
              && pf.bitsPerPixel == 32 && pf.depth <= 24
              && ((forall px :: Pack(px, pf) < 16777216) || (forall px :: Pack(px, pf) % 256 == 0))
    ensures CpixelOf(pf).bytes != 3 ==> CpixelOf(pf) == Cpixel(pf.BytesPerPixel(), 0, pf.BytesPerPixel())
  {
    hide Pack, ColourBits, Field;
    if pf.bitsPerPixel == 32 {
      TopClearIff(pf);
      LowClearIff(pf);
    }
  }

  /** The three bytes kept of a four-byte word, as a word: the word itself, or the word
      less its low byte. */
  lemma KeptWord(v: nat, bigEndian: bool, top: bool)
    requires v < 4294967296 && if top then v < 16777216 else v % 256 == 0
    ensures var c := Cpixel(3, if bigEndian == top then 1 else 0, 4);
            var k := Kept(WordBytesOf(v, 4, bigEndian), c);
            (if bigEndian then ThreeBytes(k[0], k[1], k[2]) else ThreeBytes(k[2], k[1], k[0]))
            == if top then v else v / 256
  {
    FourBytes(v);
  }

  /** What those three bytes are worth, read in the client's byte order: the packed pixel
      where that fits in them, and the packed pixel less its empty low byte where not. */
  lemma CpixelWire(px: Pixel, pf: PixelFormat)
    requires Valid(pf) && CpixelOf(pf).bytes == 3
    ensures |Convert(px, pf)| == CpixelOf(pf).full && Sane(CpixelOf(pf))
    ensures var k := Kept(Convert(px, pf), CpixelOf(pf));
            (if pf.bigEndian then ThreeBytes(k[0], k[1], k[2]) else ThreeBytes(k[2], k[1], k[0]))
            == if forall other :: Pack(other, pf) < 16777216 then Pack(px, pf) else Pack(px, pf) / 256
  {
    hide Pack, ColourBits, Field, Pow2, WordBytesOf, Or;
    CpixelSane(pf);
    ConvertSize(px, pf);
    TopClearIff(pf);
    LowClearIff(pf);
    PackFits(px, pf);
    SmallPowers();
    Pow2Add(24, 8);
    if pf == BGRX32 {
      NativeCpixel();
      NativePack(px);
    } else {
      KeptWord(Pack(px, pf), pf.bigEndian, Field(ColourBits(pf), 24, 8) == 0);
    }
  }

  lemma NativePack(px: Pixel)
    ensures Pack(px, BGRX32) == ThreeBytes(px.r, px.g, px.b)
  {
    hide Or, Pow2;
    SmallPowers();
    OrIsSum(px.r, ShiftLeft(px.g, 8), 16);
    assert ShiftLeft(256 * px.r + px.g, 8) == ShiftLeft(px.r, 16) + ShiftLeft(px.g, 8);
    OrIsSum(256 * px.r + px.g, ShiftLeft(px.b, 0), 8);
  }
}
