/** How a client lays out its pixels, packing into it and unpacking again. */
module PixelFormats {
  import opened Arithmetic
  import opened Bits
  import opened Pictures

  type u16 = v: int | 0 <= v < 65536

  /** PIXEL_FORMAT of section 7.4 of RFC 6143. */
  datatype PixelFormat = PixelFormat(
    bitsPerPixel: byte, depth: byte, bigEndian: bool, trueColour: bool,
    redMax: u16, greenMax: u16, blueMax: u16, redShift: byte, greenShift: byte, blueShift: byte)
  {
    function BytesPerPixel(): nat { bitsPerPixel / 8 }
  }

  const BGRX32 := PixelFormat(32, 24, false, true, 255, 255, 255, 16, 8, 0)

  const WIRE_LEN := 16

  // ---- On the wire ----

  function BeBytes16(v: u16): seq<byte> { [v / 256, v % 256] }

  function Be16(hi: byte, lo: byte): u16 { 256 * hi + lo }

  function BoolByte(b: bool): byte { if b then 1 else 0 }

  function WriteFormat(pf: PixelFormat): (bs: seq<byte>)
    ensures |bs| == WIRE_LEN
  {
    [pf.bitsPerPixel, pf.depth, BoolByte(pf.bigEndian), BoolByte(pf.trueColour)]
    + BeBytes16(pf.redMax) + BeBytes16(pf.greenMax) + BeBytes16(pf.blueMax)
    + [pf.redShift, pf.greenShift, pf.blueShift, 0, 0, 0]
  }

  function ParseFormat(bs: seq<byte>): PixelFormat
    requires |bs| >= WIRE_LEN
  {
    PixelFormat(bs[0], bs[1], bs[2] != 0, bs[3] != 0,
                Be16(bs[4], bs[5]), Be16(bs[6], bs[7]), Be16(bs[8], bs[9]), bs[10], bs[11], bs[12])
  }

  lemma FormatRoundTrip(pf: PixelFormat)
    ensures ParseFormat(WriteFormat(pf)) == pf
  {
  }

  /** The framebuffer's own format as it goes over the wire, and one with every field different. */
  lemma KnownFormats()
    ensures WriteFormat(BGRX32) == [32, 24, 0, 1, 0, 255, 0, 255, 0, 255, 16, 8, 0, 0, 0, 0]
    ensures WriteFormat(PixelFormat(32, 30, true, true, 1023, 511, 4095, 20, 11, 1)) == [32, 30, 1, 1, 3, 255, 1, 255, 15, 255, 20, 11, 1, 0, 0, 0]
  {
  }

  // ---- Which formats a session accepts ----

  datatype FormatError = ColourMap | BadBits | DepthTooBig | MaxNotMask | DoesNotFit

  /** The power of two a number is, if it is one: how many times it halves. */
  function TrailingZeros(v: nat): nat
    requires v > 0
  {
    if v % 2 == 1 then 0 else 1 + TrailingZeros(v / 2)
  }

  predicate IsPowerOfTwo(v: nat) { v > 0 && v == Pow2(TrailingZeros(v)) }

  /** The width of a channel. */
  function Width(max: u16): nat { TrailingZeros(max + 1) }

  function CheckChannel(max: u16, shift: byte, bits: byte): (e: seq<FormatError>) {
    if max == 0 || !IsPowerOfTwo(max + 1) then [MaxNotMask]
    else if shift + Width(max) > bits then [DoesNotFit]
    else []
  }

  /** The first thing wrong with a format, or nothing. */
  function Validate(pf: PixelFormat): (e: seq<FormatError>)
    ensures e == [] <==> Valid(pf)
  {
    if !pf.trueColour then [ColourMap]
    else if pf.bitsPerPixel != 8 && pf.bitsPerPixel != 16 && pf.bitsPerPixel != 32 then [BadBits]
    else if pf.depth > pf.bitsPerPixel then [DepthTooBig]
    else
      var red := CheckChannel(pf.redMax, pf.redShift, pf.bitsPerPixel);
      var green := CheckChannel(pf.greenMax, pf.greenShift, pf.bitsPerPixel);
      var blue := CheckChannel(pf.blueMax, pf.blueShift, pf.bitsPerPixel);
      if red != [] then red else if green != [] then green else blue
  }

  ghost predicate ChannelFits(max: u16, shift: byte, bits: byte) {
    max == Pow2(Width(max)) - 1 && Width(max) > 0 && shift + Width(max) <= bits
  }

  ghost predicate Valid(pf: PixelFormat) {
    && pf.trueColour && pf.depth <= pf.bitsPerPixel
    && (pf.bitsPerPixel == 8 || pf.bitsPerPixel == 16 || pf.bitsPerPixel == 32)
    && ChannelFits(pf.redMax, pf.redShift, pf.bitsPerPixel)
    && ChannelFits(pf.greenMax, pf.greenShift, pf.bitsPerPixel)
    && ChannelFits(pf.blueMax, pf.blueShift, pf.bitsPerPixel)
  }

  lemma {:induction false} PowerOfTwoZeros(k: nat)
    ensures TrailingZeros(Pow2(k)) == k
  {
    if k > 0 {
      PowerOfTwoZeros(k - 1);
    }
  }

  /** A channel is accepted exactly when its maximum is some number of ones, and that many
      bits from its shift up lie in the pixel. */
  lemma ChannelFitsIff(max: u16, shift: byte, bits: byte)
    ensures ChannelFits(max, shift, bits) <==> exists k: nat :: max == Pow2(k) - 1 && k > 0 && shift + k <= bits
  {
    if k: nat :| max == Pow2(k) - 1 && k > 0 && shift + k <= bits {
      PowerOfTwoZeros(k);
    }
    if ChannelFits(max, shift, bits) {
      assert max == Pow2(Width(max)) - 1;
    }
  }

  // ---- One channel ----

  /** An 8-bit channel value scaled to 0..max, rounded to nearest. */
  function Scale(c: byte, max: u16): (r: nat)
    ensures r <= max
  {
    if max == 255 then c
    else
      ScaleBounds(c, max);
      (c * max + 127) / 255
  }

  /** Back to eight bits, with the same rounding. */
  function Widen(raw: nat, max: u16): (r: byte)
    requires raw <= max
    ensures max == 0 ==> r == 0
  {
    if max == 0 then 0
    else if max == 255 then raw
    else
      WidenBounds(raw, max);
      (raw * 255 + max / 2) / max
  }

  lemma ScaleBounds(c: byte, max: u16)
    ensures var s := (c * max + 127) / 255; 0 <= s <= max && c * max - 127 <= 255 * s <= c * max + 127
  {
    MulOrder(0, c, max);
    MulOrder(c, 255, max);
  }

  lemma WidenBounds(raw: nat, max: u16)
    requires raw <= max && 0 < max
    ensures var r := (raw * 255 + max / 2) / max;
            && 0 <= r < 256
            && r * max <= raw * 255 + max / 2 < r * max + max
  {
    var n := raw * 255 + max / 2;
    var r := n / max;
    DivBounds(n, max);
    Distributes(r, max);
    DivAtLeast(n, max, 0);
    if r >= 256 {
      MulOrder(256, r, max);
    }
  }

  /** What one channel comes to after a trip through the format. */
  function Trip(c: byte, max: u16): byte { Widen(Scale(c, max), max) }

  /** A channel at least eight bits wide keeps every value. */
  lemma WideKeeps(c: byte, max: u16)
    requires max >= 255
    ensures Trip(c, max) == c
  {
    if max > 255 {
      var s := Scale(c, max);
      ScaleBounds(c, max);
      Distributes(c, max);
      DivUnique(s * 255 + max / 2, max, c);
    }
  }

  /** A narrower one moves a value by no more than half a step each way. */
  lemma NarrowIsClose(c: byte, max: u16)
    requires 0 < max && max % 2 == 1
    ensures -(253 + max) <= 2 * (Trip(c, max) * max - c * max) <= 253 + max
  {
    ScaleBounds(c, max);
    if max != 255 {
      WidenBounds(Scale(c, max), max);
    }
  }

  /** Packing what was unpacked gives the same field. */
  lemma NarrowKeepsField(raw: nat, max: u16)
    requires raw <= max <= 255 && max % 2 == 1
    ensures Scale(Widen(raw, max), max) == raw
  {
    if max != 255 {
      WidenBounds(raw, max);
      var c := Widen(raw, max);
      ScaleBounds(c, max);
      DivUnique(c * max + 127, 255, raw);
    }
  }

  /** A second trip changes nothing more. */
  lemma TripTwice(c: byte, max: u16)
    requires 0 < max && max % 2 == 1
    ensures Scale(Trip(c, max), max) == Scale(c, max)
    ensures Trip(Trip(c, max), max) == Trip(c, max)
  {
    if max <= 255 {
      NarrowKeepsField(Scale(c, max), max);
    } else {
      WideKeeps(c, max);
    }
  }

  // ---- Whole pixels ----

  function Pack(px: Pixel, pf: PixelFormat): nat {
    Or(Or(ShiftLeft(Scale(px.r, pf.redMax), pf.redShift), ShiftLeft(Scale(px.g, pf.greenMax), pf.greenShift)),
       ShiftLeft(Scale(px.b, pf.blueMax), pf.blueShift))
  }

  /** How many bytes of the packed word go out. */
  function WordLen(pf: PixelFormat): nat {
    if pf.bitsPerPixel == 8 then 1 else if pf.bitsPerPixel == 16 then 2 else 4
  }

  /** The low bytes of a word, in the client's order. */
  function WordBytesOf(word: nat, n: nat, bigEndian: bool): (bs: seq<byte>)
    ensures |bs| == n
  {
    if n > 1 && bigEndian then Reverse(LeBytes(word, n)) else LeBytes(word, n)
  }

  /** One pixel as the client wants it. The framebuffer's own layout goes out
      as it is; every other word is packed, cut to its size and put in order. */
  function Convert(px: Pixel, pf: PixelFormat): (bs: seq<byte>) {
    if pf == BGRX32 then [px.b, px.g, px.r, px.x] else WordBytesOf(Pack(px, pf), WordLen(pf), pf.bigEndian)
  }

  method ConvertRow(src: seq<Pixel>, pf: PixelFormat, out: seq<byte>) returns (out': seq<byte>)
    requires Valid(pf)
    ensures out' == out + ConvertAll(src, pf)
  {
    out' := out;
    for i := 0 to |src|
      invariant out' + ConvertAll(src[i..], pf) == out + ConvertAll(src, pf)
    {
      assert src[i..][1..] == src[i + 1..];
      out' := out' + Convert(src[i], pf);
    }
  }

  /** Pixels in a row, converted and laid end to end. */
  function ConvertAll(src: seq<Pixel>, pf: PixelFormat): seq<byte> {
    if src == [] then [] else Convert(src[0], pf) + ConvertAll(src[1..], pf)
  }

  lemma {:induction false} ConvertAllJoin(s: seq<Pixel>, t: seq<Pixel>, pf: PixelFormat)
    ensures ConvertAll(s + t, pf) == ConvertAll(s, pf) + ConvertAll(t, pf)
  {
    hide Convert;
    if s == [] {
      assert s + t == t;
    } else {
      assert (s + t)[0] == s[0] && (s + t)[1..] == s[1..] + t;
      ConvertAllJoin(s[1..], t, pf);
    }
  }

  function Channel(word: nat, shift: byte, max: u16): byte {
    var raw := And(ShiftRight(word, shift), max);
    if raw <= max then Widen(raw, max) else 0
  }

  function WordOf(bs: seq<byte>, bigEndian: bool): nat { LeWord(if bigEndian then Reverse(bs) else bs) }

  /** One pixel of the client's format as the framebuffer's. */
  function Unpack(bs: seq<byte>, pf: PixelFormat): Pixel {
    var word := WordOf(bs, pf.bigEndian);
    Pixel(Channel(word, pf.blueShift, pf.blueMax), Channel(word, pf.greenShift, pf.greenMax),
          Channel(word, pf.redShift, pf.redMax), 0)
  }

  /** What a pixel comes to after a trip through the format, channel by channel. */
  function Through(px: Pixel, pf: PixelFormat): Pixel {
    Pixel(Trip(px.b, pf.blueMax), Trip(px.g, pf.greenMax), Trip(px.r, pf.redMax), 0)
  }

  predicate Apart(s: nat, k: nat, t: nat, m: nat) { s + k <= t || t + m <= s }

  /** No two channels share a bit. Validation does not ask for this. */
  predicate Disjoint(pf: PixelFormat) {
    && Apart(pf.redShift, Width(pf.redMax), pf.greenShift, Width(pf.greenMax))
    && Apart(pf.redShift, Width(pf.redMax), pf.blueShift, Width(pf.blueMax))
    && Apart(pf.greenShift, Width(pf.greenMax), pf.blueShift, Width(pf.blueMax))
  }

  lemma ChannelIsField(word: nat, shift: byte, max: u16, bits: byte)
    requires ChannelFits(max, shift, bits)
    ensures Field(word, shift, Width(max)) <= max
    ensures Channel(word, shift, max) == Widen(Field(word, shift, Width(max)), max)
  {
    AndMask(ShiftRight(word, shift), Width(max));
  }

  lemma PackFits(px: Pixel, pf: PixelFormat)
    requires Valid(pf)
    ensures Pack(px, pf) < Pow2(pf.bitsPerPixel)
  {
    var n := pf.bitsPerPixel;
    ShiftedFits(Scale(px.r, pf.redMax), pf.redMax, pf.redShift, n);
    ShiftedFits(Scale(px.g, pf.greenMax), pf.greenMax, pf.greenShift, n);
    ShiftedFits(Scale(px.b, pf.blueMax), pf.blueMax, pf.blueShift, n);
    var r, g := ShiftLeft(Scale(px.r, pf.redMax), pf.redShift), ShiftLeft(Scale(px.g, pf.greenMax), pf.greenShift);
    OrBelow(r, g, n);
    OrBelow(Or(r, g), ShiftLeft(Scale(px.b, pf.blueMax), pf.blueShift), n);
  }

  lemma ShiftedFits(x: nat, max: u16, shift: byte, n: byte)
    requires x <= max && ChannelFits(max, shift, n)
    ensures ShiftLeft(x, shift) < Pow2(n)
  {
    hide Pow2;
    Pow2Add(Width(max), shift);
    Pow2Order(Width(max) + shift, n);
    MulOrder(x + 1, Pow2(Width(max)), Pow2(shift));
    Distributes(x, Pow2(shift));
  }

  lemma {:induction false} OrBelow(a: nat, b: nat, n: nat)
    requires a < Pow2(n) && b < Pow2(n)
    ensures Or(a, b) < Pow2(n)
  {
    if n > 0 {
      OrBelow(a / 2, b / 2, n - 1);
      OrHalf(a, b);
    }
  }

  /** The packed word holds each channel's value in its own field. */
  lemma PackedFields(px: Pixel, pf: PixelFormat)
    requires Valid(pf) && Disjoint(pf)
    ensures Field(Pack(px, pf), pf.redShift, Width(pf.redMax)) == Scale(px.r, pf.redMax)
    ensures Field(Pack(px, pf), pf.greenShift, Width(pf.greenMax)) == Scale(px.g, pf.greenMax)
    ensures Field(Pack(px, pf), pf.blueShift, Width(pf.blueMax)) == Scale(px.b, pf.blueMax)
  {
    hide Field, ShiftLeft, Or, Width, Pow2, Scale;
    PackedField(px, pf, pf.redShift, Width(pf.redMax));
    PackedField(px, pf, pf.greenShift, Width(pf.greenMax));
    PackedField(px, pf, pf.blueShift, Width(pf.blueMax));
    FieldsApart(Scale(px.r, pf.redMax), pf.redShift, Width(pf.redMax), pf.greenShift, Width(pf.greenMax), pf.blueShift, Width(pf.blueMax));
    FieldsApart(Scale(px.g, pf.greenMax), pf.greenShift, Width(pf.greenMax), pf.redShift, Width(pf.redMax), pf.blueShift, Width(pf.blueMax));
    FieldsApart(Scale(px.b, pf.blueMax), pf.blueShift, Width(pf.blueMax), pf.redShift, Width(pf.redMax), pf.greenShift, Width(pf.greenMax));
    OrZero(Scale(px.r, pf.redMax));
    OrZero(Scale(px.g, pf.greenMax));
    OrZero(Scale(px.b, pf.blueMax));
    OrZero(0);
  }

  lemma OrZero(v: nat)
    ensures Or(v, 0) == v && Or(0, v) == v
  {
  }

  lemma PackedField(px: Pixel, pf: PixelFormat, s: nat, k: nat)
    ensures Field(Pack(px, pf), s, k) ==
            Or(Or(Field(ShiftLeft(Scale(px.r, pf.redMax), pf.redShift), s, k),
                  Field(ShiftLeft(Scale(px.g, pf.greenMax), pf.greenShift), s, k)),
               Field(ShiftLeft(Scale(px.b, pf.blueMax), pf.blueShift), s, k))
  {
    hide Field, Or, ShiftLeft, Scale;
    var r, g := ShiftLeft(Scale(px.r, pf.redMax), pf.redShift), ShiftLeft(Scale(px.g, pf.greenMax), pf.greenShift);
    var b := ShiftLeft(Scale(px.b, pf.blueMax), pf.blueShift);
    assert Pack(px, pf) == Or(Or(r, g), b);
    OrField(r, g, s, k);
    OrField(Or(r, g), b, s, k);
  }

  lemma FieldsApart(x: nat, s: nat, k: nat, t: nat, m: nat, u: nat, n: nat)
    requires x < Pow2(k) && Apart(s, k, t, m) && Apart(s, k, u, n)
    ensures Field(ShiftLeft(x, s), s, k) == x
    ensures Field(ShiftLeft(x, s), t, m) == 0 && Field(ShiftLeft(x, s), u, n) == 0
  {
    OwnField(x, s, k);
    OtherField(x, s, k, t, m);
    OtherField(x, s, k, u, n);
  }

  /** The word read back is the word packed. */
  lemma WordReadBack(px: Pixel, pf: PixelFormat)
    requires Valid(pf) && pf != BGRX32
    ensures |Convert(px, pf)| == pf.BytesPerPixel()
    ensures WordOf(Convert(px, pf), pf.bigEndian) == Pack(px, pf)
  {
    PackFits(px, pf);
    hide Pow2, Pack, WordOf, WordBytesOf, ChannelFits;
    WordTurned(Pack(px, pf), WordLen(pf), pf.bigEndian);
  }

  lemma WordTurned(v: nat, n: nat, bigEndian: bool)
    requires v < Pow2(8 * n)
    ensures WordOf(WordBytesOf(v, n, bigEndian), bigEndian) == v
  {
    hide Pow2, LeBytes, LeWord, Reverse;
    WordFits(v, n);
    ReverseTwice(LeBytes(v, n));
    ReverseOne(LeBytes(v, n));
  }

  lemma WordFits(v: nat, n: nat)
    requires v < Pow2(8 * n)
    ensures LeWord(LeBytes(v, n)) == v
  {
    hide Pow2, LeBytes, LeWord;
    WordBytes(v, n);
    DivUnique(v, Pow2(8 * n), 0);
    DivMod(v, Pow2(8 * n));
  }

  lemma ReverseOne(bs: seq<byte>)
    ensures |bs| <= 1 ==> Reverse(bs) == bs
  {
  }

  /** The framebuffer's own layout packs to the same word, the padding byte on top. */
  lemma NativeWord(px: Pixel)
    ensures LeWord([px.b, px.g, px.r, px.x]) == px.b + 256 * px.g + 65536 * px.r + 16777216 * px.x
  {
    var w := [px.b, px.g, px.r, px.x];
    assert w[1..] == [px.g, px.r, px.x] && w[1..][1..] == [px.r, px.x] && w[1..][1..][1..] == [px.x];
    assert LeWord([px.x]) == px.x;
    assert LeWord([px.r, px.x]) == px.r + 256 * px.x;
    assert LeWord([px.g, px.r, px.x]) == px.g + 256 * (px.r + 256 * px.x);
  }

  lemma NativeFields(px: Pixel)
    ensures var w := px.b + 256 * px.g + 65536 * px.r + 16777216 * px.x;
            Field(w, 0, 8) == px.b && Field(w, 8, 8) == px.g && Field(w, 16, 8) == px.r
  {
    var w := px.b + 256 * px.g + 65536 * px.r + 16777216 * px.x;
    ByteField(w, 0, 1, 0, px.b, px.g + 256 * px.r + 65536 * px.x);
    ByteField(w, 8, 256, px.b, px.g, px.r + 256 * px.x);
    ByteField(w, 16, 65536, px.b + 256 * px.g, px.r, px.x);
    assert Pow2(0) == 1 && Pow2(4) == 16;
    Pow2Add(4, 4);
    Pow2Add(8, 8);
  }

  lemma ByteField(w: nat, s: nat, p: nat, low: nat, mid: byte, high: nat)
    requires low < p && w == low + p * (mid + 256 * high)
    ensures Pow2(s) == p && Pow2(8) == 256 ==> Field(w, s, 8) == mid
  {
    hide Pow2;
    Distributes(mid + 256 * high, p);
    DivUnique(w, p, mid + 256 * high);
  }

  /** For every valid format with disjoint channels, in either byte order and
      any size, unpacking a packed pixel gives each channel's own trip. */
  lemma UnpackPacked(px: Pixel, pf: PixelFormat)
    requires Valid(pf) && Disjoint(pf)
    ensures Unpack(Convert(px, pf), pf) == Through(px, pf)
  {
    hide Field, Or, Pow2;
    if pf == BGRX32 {
      NativeUnpacked(px);
    } else {
      hide Convert;
      WordReadBack(px, pf);
      PackedFields(px, pf);
      ChannelIsField(Pack(px, pf), pf.redShift, pf.redMax, pf.bitsPerPixel);
      ChannelIsField(Pack(px, pf), pf.greenShift, pf.greenMax, pf.bitsPerPixel);
      ChannelIsField(Pack(px, pf), pf.blueShift, pf.blueMax, pf.bitsPerPixel);
    }
  }

  lemma NativeUnpacked(px: Pixel)
    ensures Unpack([px.b, px.g, px.r, px.x], BGRX32) == Through(px, BGRX32)
  {
    var w := LeWord([px.b, px.g, px.r, px.x]);
    NativeWord(px);
    NativeFields(px);
    NativeWidth();
    ChannelIsField(w, 16, 255, 32);
    ChannelIsField(w, 8, 255, 32);
    ChannelIsField(w, 0, 255, 32);
  }

  lemma NativeWidth()
    ensures Width(255) == 8 && ChannelFits(255, 16, 32) && ChannelFits(255, 8, 32) && ChannelFits(255, 0, 32)
  {
    assert TrailingZeros(256) == 8 by {
      assert TrailingZeros(1) == 0 && TrailingZeros(2) == 1 && TrailingZeros(4) == 2 && TrailingZeros(8) == 3;
      assert TrailingZeros(16) == 4 && TrailingZeros(32) == 5 && TrailingZeros(64) == 6 && TrailingZeros(128) == 7;
    }
    assert Pow2(4) == 16 && Pow2(8) == 256;
  }

  lemma OddMax(max: u16, shift: byte, bits: byte)
    requires ChannelFits(max, shift, bits)
    ensures 0 < max && max % 2 == 1
  {
  }

  /** Eight-bit channels and wider lose nothing. */
  lemma WideFormatIsLossless(px: Pixel, pf: PixelFormat)
    requires Valid(pf) && Disjoint(pf)
    requires pf.redMax >= 255 && pf.greenMax >= 255 && pf.blueMax >= 255
    ensures Unpack(Convert(px, pf), pf) == px.(x := 0)
  {
    UnpackPacked(px, pf);
    WideKeeps(px.r, pf.redMax);
    WideKeeps(px.g, pf.greenMax);
    WideKeeps(px.b, pf.blueMax);
  }

  /** A second trip through a format loses nothing: the bytes are the same bytes. */
  lemma SecondTrip(px: Pixel, pf: PixelFormat)
    requires Valid(pf) && Disjoint(pf) && pf != BGRX32
    ensures Convert(Unpack(Convert(px, pf), pf), pf) == Convert(px, pf)
  {
    UnpackPacked(px, pf);
    OddMax(pf.redMax, pf.redShift, pf.bitsPerPixel);
    OddMax(pf.greenMax, pf.greenShift, pf.bitsPerPixel);
    OddMax(pf.blueMax, pf.blueShift, pf.bitsPerPixel);
    TripTwice(px.r, pf.redMax);
    TripTwice(px.g, pf.greenMax);
    TripTwice(px.b, pf.blueMax);
  }

  /** What the decoder unpacks packs back into the same channel fields, for any bytes at all. */
  lemma FieldsKept(bs: seq<byte>, pf: PixelFormat)
    requires Valid(pf) && Disjoint(pf) && pf.redMax <= 255 && pf.greenMax <= 255 && pf.blueMax <= 255
    ensures var was, now := WordOf(bs, pf.bigEndian), Pack(Unpack(bs, pf), pf);
            && Field(now, pf.redShift, Width(pf.redMax)) == Field(was, pf.redShift, Width(pf.redMax))
            && Field(now, pf.greenShift, Width(pf.greenMax)) == Field(was, pf.greenShift, Width(pf.greenMax))
            && Field(now, pf.blueShift, Width(pf.blueMax)) == Field(was, pf.blueShift, Width(pf.blueMax))
  {
    hide Pow2, Field, Pack, Widen, Scale, WordOf;
    PackedFields(Unpack(bs, pf), pf);
    ChannelKept(WordOf(bs, pf.bigEndian), pf.redShift, pf.redMax, pf.bitsPerPixel);
    ChannelKept(WordOf(bs, pf.bigEndian), pf.greenShift, pf.greenMax, pf.bitsPerPixel);
    ChannelKept(WordOf(bs, pf.bigEndian), pf.blueShift, pf.blueMax, pf.bitsPerPixel);
  }

  lemma ChannelKept(word: nat, shift: byte, max: u16, bits: byte)
    requires ChannelFits(max, shift, bits) && max <= 255
    ensures Scale(Channel(word, shift, max), max) == Field(word, shift, Width(max))
  {
    OddMax(max, shift, bits);
    ChannelIsField(word, shift, max, bits);
    NarrowKeepsField(Field(word, shift, Width(max)), max);
  }

  // ---- What the bytes say ----

  // Red, green and blue by number.

  function MaxOf(pf: PixelFormat, i: nat): u16 {
    if i == 0 then pf.redMax else if i == 1 then pf.greenMax else pf.blueMax
  }

  function ShiftOf(pf: PixelFormat, i: nat): byte {
    if i == 0 then pf.redShift else if i == 1 then pf.greenShift else pf.blueShift
  }

  function ValueOf(px: Pixel, i: nat): byte { if i == 0 then px.r else if i == 1 then px.g else px.b }

  /** The bytes of a pixel spell its packed word, low byte first or high byte first as the
      format says. The framebuffer's own layout goes out as it stands, padding and all. */
  lemma WireSpells(px: Pixel, pf: PixelFormat)
    requires Valid(pf)
    ensures |Convert(px, pf)| == pf.BytesPerPixel()
    ensures pf == BGRX32 ==> Convert(px, pf) == [px.b, px.g, px.r, px.x]
    ensures pf != BGRX32 ==> Spells(Convert(px, pf), Pack(px, pf), pf.bigEndian)
  {
    if pf != BGRX32 {
      PackFits(px, pf);
      hide Pack;
      SpellsWord(Pack(px, pf), pf.bitsPerPixel, pf.bigEndian);
    }
  }

  /** One, two or four bytes that make this number, in this order. */
  predicate Spells(bs: seq<byte>, v: nat, bigEndian: bool) {
    if |bs| == 1 then v == bs[0]
    else if |bs| == 2 then v == if bigEndian then ThreeBytes(0, bs[0], bs[1]) else ThreeBytes(0, bs[1], bs[0])
    else |bs| == 4 && v == if bigEndian then 16777216 * bs[0] + ThreeBytes(bs[1], bs[2], bs[3])
                           else 16777216 * bs[3] + ThreeBytes(bs[2], bs[1], bs[0])
  }

  lemma SpellsWord(v: nat, bits: nat, bigEndian: bool)
    requires bits == 8 || bits == 16 || bits == 32
    requires v < Pow2(bits)
    ensures Spells(WordBytesOf(v, bits / 8, bigEndian), v, bigEndian)
  {
    hide LeBytes, Pow2, Spells;
    Pow2Eight();
    Pow2Add(8, 8);
    Pow2Add(16, 16);
    FewBytes(v);
    FourBytes(v);
    if bits == 32 {
      SpellsFour(v, bigEndian);
    } else {
      SpellsFew(v, bits / 8, bigEndian);
    }
  }

  lemma SpellsFew(v: nat, n: nat, bigEndian: bool)
    requires (n == 1 && v < 256) || (n == 2 && v < 65536)
    ensures Spells(WordBytesOf(v, n, bigEndian), v, bigEndian)
  {
    hide LeBytes;
    FewBytes(v);
  }

  lemma SpellsFour(v: nat, bigEndian: bool)
    requires v < 4294967296
    ensures Spells(WordBytesOf(v, 4, bigEndian), v, bigEndian)
  {
    hide LeBytes;
    FourBytes(v);
  }

  /** Every channel in the word sent is the nearest its field can come to the pixel's. */
  lemma WireIsNearest(px: Pixel, pf: PixelFormat, i: nat)
    requires Valid(pf) && Disjoint(pf) && i < 3
    ensures var field := Field(WordOf(Convert(px, pf), pf.bigEndian), ShiftOf(pf, i), Width(MaxOf(pf, i)));
            0 <= field <= MaxOf(pf, i) && -127 <= 255 * field - ValueOf(px, i) * MaxOf(pf, i) <= 127
  {
    hide Field, Pow2, WordOf, Pack;
    ScaleBounds(px.r, pf.redMax);
    ScaleBounds(px.g, pf.greenMax);
    ScaleBounds(px.b, pf.blueMax);
    if pf == BGRX32 {
      NativeSent(px);
    } else {
      hide Convert;
      WordReadBack(px, pf);
      PackedFields(px, pf);
    }
  }

  lemma NativeSent(px: Pixel)
    ensures var w := WordOf(Convert(px, BGRX32), false);
            Width(255) == 8 && Field(w, 0, 8) == px.b && Field(w, 8, 8) == px.g && Field(w, 16, 8) == px.r
  {
    NativeWord(px);
    NativeFields(px);
    NativeWidth();
  }

  /** And what a client shows for any field is the nearest byte to it. */
  lemma ShownIsNearest(bs: seq<byte>, pf: PixelFormat, i: nat)
    requires Valid(pf) && i < 3
    ensures var field, shown := Field(WordOf(bs, pf.bigEndian), ShiftOf(pf, i), Width(MaxOf(pf, i))), ValueOf(Unpack(bs, pf), i);
            && 0 <= field <= MaxOf(pf, i)
            && -(MaxOf(pf, i) as int) <= 2 * (shown * MaxOf(pf, i) - 255 * field) <= MaxOf(pf, i)
  {
    hide Field, Pow2, WordOf, Width;
    var word := WordOf(bs, pf.bigEndian);
    ChannelNearest(word, ShiftOf(pf, i), MaxOf(pf, i), pf.bitsPerPixel);
  }

  lemma ChannelNearest(word: nat, shift: byte, max: u16, bits: byte)
    requires ChannelFits(max, shift, bits)
    ensures var field, shown := Field(word, shift, Width(max)), Channel(word, shift, max);
            0 <= field <= max && -(max as int) <= 2 * (shown * max - 255 * field) <= max
  {
    ChannelIsField(word, shift, max, bits);
    OddMax(max, shift, bits);
    hide Field, Width;
    WidenBounds(Field(word, shift, Width(max)), max);
  }

  // ---- When channels share bits ----

  /** The top bit of one field, under another field that is all ones there. */
  lemma TopBitSet(s: nat, k: nat, t: nat, m: nat)
    requires k > 0 && t < s + k <= t + m
    ensures Field(ShiftLeft(Pow2(m) - 1, t), s, k) >= Pow2(k - 1)
  {
    var c, h := Pow2(t + m - s - k), Pow2(k - 1);
    Pow2Double(k);
    hide Pow2;
    Pow2Add(t, m);
    Pow2Add(s + k, t + m - s - k);
    Pow2Add(s, k);
    Pow2Order(t, s + k - 1);
    Pow2Add(s, k - 1);
    OnesFromBelow(Pow2(m), Pow2(t), Pow2(s), h, c);
  }

  lemma OnesFromBelow(m: nat, t: nat, s: nat, h: nat, c: nat)
    requires m > 0 && t > 0 && s > 0 && h > 0 && c > 0
    requires t * m == (s * (2 * h)) * c && t <= s * h
    ensures ((m - 1) * t) / s % (2 * h) >= h
  {
    var v := (m - 1) * t;
    assert v == t * m - t;
    var u := v / s;
    assert (s * (2 * h)) * c == (2 * c * h) * s && (2 * c * h) * s - s * h == ((2 * c - 1) * h) * s;
    DivAtLeast(v, s, (2 * c - 1) * h);
    DivBounds(v, s);
    MulCancel(u, 2 * c * h, s);
    TopHalf(u, h, c);
  }

  lemma TopHalf(u: nat, h: nat, c: nat)
    requires h > 0 && (2 * c - 1) * h <= u < 2 * c * h
    ensures u % (2 * h) >= h
  {
    assert (c - 1) * (2 * h) == 2 * c * h - 2 * h && ((c - 1) + 1) * (2 * h) == 2 * c * h;
    assert (2 * c - 1) * h == 2 * c * h - h;
    DivUnique(u, 2 * h, c - 1);
    DivMod(u, 2 * h);
  }

  lemma OrAtLeast(a: nat, b: nat)
    ensures Or(a, b) >= a && Or(a, b) >= b
  {
  }

  /** A channel that reads back its top bit set does not read back as zero. */
  lemma TopBitShows(word: nat, shift: byte, max: u16, bits: byte)
    requires ChannelFits(max, shift, bits) && Field(word, shift, Width(max)) >= Pow2(Width(max) - 1)
    ensures Channel(word, shift, max) != 0
  {
    ChannelIsField(word, shift, max, bits);
    var raw := Field(word, shift, Width(max));
    Pow2Double(Width(max));
    if max != 255 {
      DivAtLeast(raw * 255 + max / 2, max, 1);
    }
  }

  lemma FullScale(max: u16)
    ensures Scale(255, max) == max && Scale(0, max) == 0
  {
  }

  lemma TripOfZero(max: u16)
    ensures Trip(0, max) == 0
  {
    FullScale(max);
    if max > 0 {
      DivUnique(max / 2, max, 0);
    }
  }

  /** The brightest value of one colour alone. */
  function Pure(i: nat): Pixel {
    Pixel(if i == 2 then 255 else 0, if i == 1 then 255 else 0, if i == 0 then 255 else 0, 0)
  }

  /** Channel j has its top bit among channel i's. */
  predicate Under(pf: PixelFormat, i: nat, j: nat) {
    && i < 3 && j < 3 && i != j
    && ShiftOf(pf, i) < ShiftOf(pf, j) + Width(MaxOf(pf, j)) <= ShiftOf(pf, i) + Width(MaxOf(pf, i))
  }

  lemma SharedBits(pf: PixelFormat) returns (i: nat, j: nat)
    requires Valid(pf) && !Disjoint(pf)
    ensures Under(pf, i, j)
  {
    hide Width;
    if Under(pf, 0, 1) { return 0, 1; }
    if Under(pf, 1, 0) { return 1, 0; }
    if Under(pf, 0, 2) { return 0, 2; }
    if Under(pf, 2, 0) { return 2, 0; }
    if Under(pf, 1, 2) { return 1, 2; }
    return 2, 1;
  }

  lemma PureField(pf: PixelFormat, i: nat, s: nat, k: nat)
    requires i < 3
    ensures Field(Pack(Pure(i), pf), s, k) >= Field(ShiftLeft(MaxOf(pf, i), ShiftOf(pf, i)), s, k)
  {
    var px := Pure(i);
    hide Field, Pack, Or, ShiftLeft, Scale;
    PackedField(px, pf, s, k);
    FullScale(pf.redMax);
    FullScale(pf.greenMax);
    FullScale(pf.blueMax);
    var r, g := Field(ShiftLeft(Scale(px.r, pf.redMax), pf.redShift), s, k), Field(ShiftLeft(Scale(px.g, pf.greenMax), pf.greenShift), s, k);
    OrAtLeast(r, g);
    OrAtLeast(Or(r, g), Field(ShiftLeft(Scale(px.b, pf.blueMax), pf.blueShift), s, k));
  }

  /** The brightest of one channel shows up in another whose top bit it covers. */
  lemma PureShows(pf: PixelFormat, i: nat, j: nat)
    requires Valid(pf) && pf != BGRX32 && Under(pf, i, j)
    ensures Unpack(Convert(Pure(i), pf), pf) != Through(Pure(i), pf)
  {
    hide Convert, Pack, Pow2, Field, Width, Or, Trip, Channel, ShiftLeft, WordOf;
    var word := Pack(Pure(i), pf);
    WordReadBack(Pure(i), pf);
    PureField(pf, i, ShiftOf(pf, j), Width(MaxOf(pf, j)));
    TopBitSet(ShiftOf(pf, j), Width(MaxOf(pf, j)), ShiftOf(pf, i), Width(MaxOf(pf, i)));
    TopBitShows(word, ShiftOf(pf, j), MaxOf(pf, j), pf.bitsPerPixel);
    TripOfZero(MaxOf(pf, j));
    assert ValueOf(Unpack(Convert(Pure(i), pf), pf), j) == Channel(word, ShiftOf(pf, j), MaxOf(pf, j));
    assert ValueOf(Through(Pure(i), pf), j) == Trip(0, MaxOf(pf, j));
  }

  /** Packing a validated format brings every pixel back channel by channel
      exactly when no two of its channels share a bit. */
  lemma TripsExactlyWhenDisjoint(pf: PixelFormat)
    requires Valid(pf)
    ensures (forall px :: Unpack(Convert(px, pf), pf) == Through(px, pf)) <==> Disjoint(pf)
  {
    hide Unpack, Convert, Through, Disjoint, Valid;
    if Disjoint(pf) {
      forall px ensures Unpack(Convert(px, pf), pf) == Through(px, pf) {
        UnpackPacked(px, pf);
      }
    } else if pf == BGRX32 {
      NativeDisjoint();
    } else {
      var i, j := SharedBits(pf);
      PureShows(pf, i, j);
    }
  }

  lemma NativeDisjoint()
    ensures Disjoint(BGRX32)
  {
    NativeWidth();
  }

  /** A format validation accepts, all three channels on the same bits: red comes back as white. */
  lemma OverlapIsAccepted()
    ensures var pf := PixelFormat(8, 8, false, true, 1, 1, 1, 0, 0, 0);
            && Validate(pf) == [] && !Disjoint(pf)
            && Unpack(Convert(Pixel(0, 0, 255, 0), pf), pf) == Pixel(255, 255, 255, 0)
  {
    var pf := PixelFormat(8, 8, false, true, 1, 1, 1, 0, 0, 0);
    assert TrailingZeros(1) == 0 && TrailingZeros(2) == 1 && Pow2(1) == 2 && Pow2(0) == 1;
    assert Scale(255, 1) == 1 && Scale(0, 1) == 0;
    assert Pack(Pixel(0, 0, 255, 0), pf) == 1;
    assert LeBytes(1, 0) == [] && LeBytes(1, 1) == [1];
    assert LeWord([1]) == 1;
    assert And(1, 1) == 1;
    assert Widen(1, 1) == 255;
  }
}
