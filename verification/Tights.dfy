/** Tight: one method for a whole piece, and four zlib streams that live as long as the session. */
module Tights {
  import opened Geometry
  import opened Arithmetic
  import opened Bits
  import opened Pictures
  import opened PixelFormats
  import opened Blocks
  import opened Palettes
  import opened PackedRows
  import Zlib

  const MIN_TO_COMPRESS := 12
  const MAX_PALETTE := 256
  const STREAMS := 4

  const FILL: byte := 128
  const JPEG: byte := 144
  const EXPLICIT_FILTER: byte := 64

  const FILTER_COPY: byte := 0
  const FILTER_PALETTE: byte := 1

  // Which stream carries what.
  const COPY_STREAM: nat := 0
  const MONO_STREAM: nat := 1
  const PALETTE_STREAM: nat := 2

  // ---- Pixels ----

  /** How a pixel goes into a piece: three bytes, red first, when the format has full range. */
  datatype Tpixel = Tpixel(three: bool, bytes: nat)

  function TpixelOf(pf: PixelFormat): Tpixel {
    if pf.bitsPerPixel == 32 && pf.depth == 24 && pf.redMax == 255 && pf.greenMax == 255 && pf.blueMax == 255
    then Tpixel(true, 3)
    else Tpixel(false, pf.BytesPerPixel())
  }

  function TpixelBytes(px: Pixel, pf: PixelFormat): seq<byte> {
    if TpixelOf(pf).three then [px.r, px.g, px.b] else Convert(px, pf)
  }

  function TpixelPixel(bs: seq<byte>, pf: PixelFormat): Pixel {
    if TpixelOf(pf).three && |bs| == 3 then Pixel(bs[2], bs[1], bs[0], 0) else Unpack(bs, pf)
  }

  /** What a client of this format shows for a pixel sent by Tight. */
  function Shown(px: Pixel, pf: PixelFormat): Pixel {
    if TpixelOf(pf).three then px.(x := 0) else Unpack(Convert(px, pf), pf)
  }

  /** Where channels share no bits that is what any encoding shows. */
  lemma ShownIsThrough(px: Pixel, pf: PixelFormat)
    requires Valid(pf) && Disjoint(pf)
    ensures Shown(px, pf) == Unpack(Convert(px, pf), pf)
  {
    if TpixelOf(pf).three {
      WideFormatIsLossless(px, pf);
    }
  }

  /** What a pixel is on the wire. A 24-bit format of full range gives three bytes, worth
      the same number whatever its shifts and byte order; every other valid format gives
      the client's own pixel: its packed word, in its order, in all its bytes. */
  lemma TpixelWire(px: Pixel, pf: PixelFormat)
    requires Valid(pf)
    ensures var bs := TpixelBytes(px, pf);
            if pf.bitsPerPixel == 32 && pf.depth == 24 && pf.redMax == 255 && pf.greenMax == 255 && pf.blueMax == 255
            then |bs| == 3 && ThreeBytes(bs[0], bs[1], bs[2]) == ThreeBytes(px.r, px.g, px.b)
            else |bs| == pf.BytesPerPixel() && WordOf(bs, pf.bigEndian) == Pack(px, pf)
    ensures |TpixelBytes(px, pf)| == TpixelOf(pf).bytes
  {
    hide Pack, WordOf, Convert;
    if !TpixelOf(pf).three {
      WordReadBack(px, pf);
    }
  }

  function TpixelKey(px: Pixel, pf: PixelFormat): nat { LeWord(TpixelBytes(px, pf)) }

  function TpixelKeys(pixels: seq<Pixel>, pf: PixelFormat): (ks: seq<nat>)
    ensures |ks| == |pixels| && forall i :: 0 <= i < |pixels| ==> ks[i] == TpixelKey(pixels[i], pf)
  {
    seq(|pixels|, i requires 0 <= i < |pixels| => TpixelKey(pixels[i], pf))
  }

  /** The pixel a key stands for. */
  function KeyPixel(key: nat, pf: PixelFormat): Pixel { TpixelPixel(KeyBytes(key, TpixelOf(pf).bytes), pf) }

  function KeyPixels(keys: seq<nat>, pf: PixelFormat): (ps: seq<Pixel>)
    ensures |ps| == |keys| && forall i :: 0 <= i < |keys| ==> ps[i] == KeyPixel(keys[i], pf)
  {
    seq(|keys|, i requires 0 <= i < |keys| => KeyPixel(keys[i], pf))
  }

  lemma KeyShows(px: Pixel, pf: PixelFormat)
    requires Valid(pf)
    ensures |TpixelBytes(px, pf)| == TpixelOf(pf).bytes
    ensures KeyPixel(TpixelKey(px, pf), pf) == Shown(px, pf)
  {
    hide Convert, Unpack, LeBytes, LeWord;
    ConvertSize(px, pf);
    BytesWord(TpixelBytes(px, pf));
  }

  // ---- Lengths ----

  /** A length in one to three bytes, seven bits each, low group first. The third takes eight. */
  function CompactBytes(length: nat): seq<byte> {
    if length <= 127 then [length]
    else if length / 128 <= 127 then [length % 128 + 128, length / 128]
    else [length % 128 + 128, length / 128 % 128 + 128, length / 128 / 128 % 256]
  }

  // ---- A piece ----

  /** The sending side of a session: its level, what each stream has carried, and
      the streams it has still to tell the client to start again. */
  datatype Sender = Sender(level: nat, streams: seq<Zlib.History>, pending: nat) {
    predicate Valid() { |streams| == STREAMS && pending < 16 }
  }

  const FRESH_STREAMS: seq<Zlib.History> := [[], [], [], []]

  function Fresh(level: nat): Sender { Sender(level, FRESH_STREAMS, 0) }

  /** Start every stream again; the client is told with the next piece. */
  function Reset(level: nat): Sender { Sender(level, FRESH_STREAMS, 15) }

  datatype Written = Written(bytes: seq<byte>, sender: Sender)

  /** Deflated on one stream with a length in front, unless it is too short to be worth either. */
  function Compressed(z: Zlib.Codec, s: Sender, id: nat, body: seq<byte>): (w: Written)
    requires s.Valid() && id < STREAMS
    ensures w.sender.Valid()
  {
    if |body| < MIN_TO_COMPRESS then Written(body, s)
    else
      var packed := z.deflate(s.level, s.streams[id], body);
      Written(CompactBytes(|packed|) + packed, s.(streams := s.streams[id := s.streams[id] + [body]]))
  }

  /** A palette piece: control byte, filter, palette, data. */
  function Basic(z: Zlib.Codec, s: Sender, id: nat, palette: seq<nat>, body: seq<byte>, bytes: nat): (w: Written)
    requires s.Valid() && id < STREAMS && 0 < |palette| <= MAX_PALETTE
    ensures w.sender.Valid()
  {
    var data := Compressed(z, s.(pending := 0), id, body);
    Written([EXPLICIT_FILTER + 16 * id + s.pending, FILTER_PALETTE, |palette| - 1] + AllBytes(palette, bytes) + data.bytes, data.sender)
  }

  /** Up to 256 colours, one byte a pixel. */
  function IndexBytes(keys: seq<nat>, palette: seq<nat>): (bs: seq<byte>)
    requires AllIn(keys, palette) && |palette| <= MAX_PALETTE
    ensures |bs| == |keys| && forall i :: 0 <= i < |keys| ==> bs[i] == IndexOf(palette, keys[i])
  {
    seq(|keys|, i requires 0 <= i < |keys| => IndexOf(palette, keys[i]))
  }

  lemma PaletteHolds(keys: seq<nat>)
    ensures var palette := Palette(keys, MAX_PALETTE);
            |palette| <= MAX_PALETTE && (palette != [] ==> AllIn(keys, palette) && NoRepeats(palette))
  {
    hide Palette;
    PaletteIsColours(keys, MAX_PALETTE);
    var palette := Palette(keys, MAX_PALETTE);
    if palette != [] {
      NoRepeatsSize(palette);
      forall i | 0 <= i < |keys| ensures keys[i] in palette {
        assert keys[i] in Distinct(keys);
      }
    }
  }

  lemma TwoIsNarrow(palette: seq<nat>)
    requires |palette| == 2
    ensures Narrow(palette, 1)
  {
    assert Pow2(1) == 2;
  }

  /** One piece: a fill, a bit a pixel, a byte a pixel, or the pixels themselves. */
  function Piece(z: Zlib.Codec, s: Sender, keys: seq<nat>, w: nat, h: nat, bytes: nat): (written: Written)
    requires s.Valid() && |keys| == h * w
    ensures written.sender.Valid()
  {
    PaletteHolds(keys);
    var palette := Palette(keys, MAX_PALETTE);
    if |palette| == 1 then Written([FILL + s.pending] + KeyBytes(palette[0], bytes), s.(pending := 0))
    else if |palette| == 2 then
      TwoIsNarrow(palette);
      Basic(z, s, MONO_STREAM, palette, PackedFrom(keys, w, h, 0, palette, 1), bytes)
    else if palette != [] then Basic(z, s, PALETTE_STREAM, palette, IndexBytes(keys, palette), bytes)
    else
      var data := Compressed(z, s.(pending := 0), COPY_STREAM, AllBytes(keys, bytes));
      Written([EXPLICIT_FILTER + 16 * COPY_STREAM + s.pending, FILTER_COPY] + data.bytes, data.sender)
  }
}
