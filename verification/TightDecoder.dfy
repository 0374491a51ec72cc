/** Reading a Tight piece back: its length from its header, and its pixels. */
module TightDecoder {
  import opened Geometry
  import opened Arithmetic
  import opened Bits
  import opened Pictures
  import opened PixelFormats
  import opened Blocks
  import opened Palettes
  import opened PackedRows
  import opened Readers
  import opened Tights
  import Zlib

  // ---- Lengths ----

  /** Three groups of seven bits at most, the high bit saying another follows. */
  function ReadCompact(s: seq<byte>): (r: Read<nat>)
    ensures Within(r, s)
  {
    var a :- Byte(s);
    if a.value < 128 then a
    else
      var b :- Byte(a.rest);
      if b.value < 128 then Got(a.value % 128 + 128 * b.value, b.rest)
      else
        var c :- Byte(b.rest);
        Got(a.value % 128 + 128 * (b.value % 128) + 16384 * (c.value % 128), c.rest)
  }

  lemma CompactParts(n: nat)
    ensures n % 128 + 128 * (n / 128 % 128) + 16384 * (n / 128 / 128 % 256 % 128) == n % 2097152
  {
    var a, x := n / 128, n % 128;
    var b, y := a / 128, a % 128;
    var c, w := b / 128, b % 128;
    LowSeven(b);
    ThreeGroups(n, a, b, c, x, y, w);
  }

  lemma LowSeven(b: nat)
    ensures b % 256 % 128 == b % 128
  {
  }

  lemma ThreeGroups(n: nat, a: nat, b: nat, c: nat, x: nat, y: nat, w: nat)
    requires n == 128 * a + x && a == 128 * b + y && b == 128 * c + w && x < 128 && y < 128 && w < 128
    ensures n % 2097152 == x + 128 * y + 16384 * w
  {
    Remainder(n, 2097152, c, x + 128 * y + 16384 * w);
  }

  lemma Remainder(n: nat, d: nat, q: nat, r: nat)
    requires n == d * q + r && r < d
    ensures n % d == r
  {
    Distributes(q, d);
    DivUnique(n, d, q);
  }

  lemma BytesInTurn(a: byte, b: byte, c: byte, rest: seq<byte>)
    ensures Byte([a, b, c] + rest) == Got(a, [b, c] + rest) && Byte([b, c] + rest) == Got(b, [c] + rest) && Byte([c] + rest) == Got(c, rest)
  {
    assert ([a, b, c] + rest)[1..] == [b, c] + rest && ([b, c] + rest)[1..] == [c] + rest && ([c] + rest)[1..] == rest;
  }

  lemma CompactReadBack(length: nat, rest: seq<byte>)
    ensures ReadCompact(CompactBytes(length) + rest) == Got(length % 2097152, rest)
  {
    hide Byte;
    if length <= 127 {
      BytesInTurn(0, 0, length, rest);
    } else if length / 128 <= 127 {
      BytesInTurn(0, length % 128 + 128, length / 128, rest);
    } else {
      BytesInTurn(length % 128 + 128, length / 128 % 128 + 128, length / 128 / 128 % 256, rest);
      CompactParts(length);
    }
  }

  /** The reader drops the top bit of the third byte, so a length comes back exactly when it is below 2^21. */
  lemma CompactIff(length: nat, rest: seq<byte>)
    ensures ReadCompact(CompactBytes(length) + rest) == Got(length, rest) <==> length < 2097152
  {
    CompactReadBack(length, rest);
  }

  lemma CompactGrows(s: seq<byte>, more: seq<byte>)
    ensures Grows(ReadCompact(s), ReadCompact(s + more), more)
  {
    hide Byte;
    ByteGrows(s, more);
    var a := Byte(s);
    if a.Got? {
      ByteGrows(a.rest, more);
      if Byte(a.rest).Got? {
        ByteGrows(Byte(a.rest).rest, more);
      }
    }
  }

  // ---- The header alone ----

  /** The data after the filter, unread: as it is if short, else a length and that many bytes. */
  function SkipBody(s: seq<byte>, want: nat): (r: Read<()>)
    ensures Within(r, s)
  {
    if want < MIN_TO_COMPRESS then
      var data :- Take(s, want);
      Got((), data.rest)
    else
      var length :- ReadCompact(s);
      var data :- Take(length.rest, length.value);
      Got((), data.rest)
  }

  /** How much data a palette of this size leaves. */
  function PaletteWant(size: nat, w: nat, h: nat): nat { if size == 2 then RowBytes(w, 1) * h else w * h }

  function CopyWant(w: nat, h: nat, bytes: nat): nat { w * h * bytes }

  function ReadFilter(s: seq<byte>, control: byte): (r: Read<byte>)
    ensures Within(r, s)
  {
    if control / 64 % 2 == 1 then Byte(s) else Got(FILTER_COPY, s)
  }

  function SkipPalette(s: seq<byte>, w: nat, h: nat, bytes: nat): (r: Read<()>)
    ensures Within(r, s)
  {
    var size :- Byte(s);
    var colours :- Take(size.rest, (size.value + 1) * bytes);
    SkipBody(colours.rest, PaletteWant(size.value + 1, w, h))
  }

  function SkipJpeg(s: seq<byte>): (r: Read<()>)
    ensures Within(r, s)
  {
    var length :- ReadCompact(s);
    var data :- Take(length.rest, length.value);
    Got((), data.rest)
  }

  function SkipBasic(s: seq<byte>, control: byte, w: nat, h: nat, bytes: nat): (r: Read<()>)
    ensures Within(r, s)
  {
    var filter :- ReadFilter(s, control);
    if filter.value == FILTER_PALETTE then SkipPalette(filter.rest, w, h, bytes)
    else if filter.value == FILTER_COPY then SkipBody(filter.rest, CopyWant(w, h, bytes))
    else Malformed
  }

  function SkipFill(s: seq<byte>, bytes: nat): (r: Read<()>)
    ensures Within(r, s)
  {
    var px :- Take(s, bytes);
    Got((), px.rest)
  }

  /** Past one piece, touching no stream. */
  function SkipPiece(s: seq<byte>, w: nat, h: nat, pf: PixelFormat): (r: Read<()>)
    ensures Within(r, s)
  {
    var bytes := TpixelOf(pf).bytes;
    var control :- Byte(s);
    if control.value / 16 == 8 then SkipFill(control.rest, bytes)
    else if control.value / 16 == 9 then SkipJpeg(control.rest)
    else SkipBasic(control.rest, control.value, w, h, bytes)
  }

  /** How long a piece is, from its header alone. */
  function PayloadLen(s: seq<byte>, w: nat, h: nat, pf: PixelFormat): Read<nat> {
    var r :- SkipPiece(s, w, h, pf);
    Got(|s| - |r.rest|, r.rest)
  }

  lemma SkipBodyGrows(s: seq<byte>, more: seq<byte>, want: nat)
    ensures Grows(SkipBody(s, want), SkipBody(s + more, want), more)
  {
    hide Take, ReadCompact;
    TakeGrows(s, more, want);
    CompactGrows(s, more);
    var length := ReadCompact(s);
    if length.Got? {
      TakeGrows(length.rest, more, length.value);
    }
  }

  lemma SkipPaletteGrows(s: seq<byte>, more: seq<byte>, w: nat, h: nat, bytes: nat)
    ensures Grows(SkipPalette(s, w, h, bytes), SkipPalette(s + more, w, h, bytes), more)
  {
    hide Take, Byte, SkipBody, PaletteWant;
    ByteGrows(s, more);
    var size := Byte(s);
    if size.Got? {
      TakeGrows(size.rest, more, (size.value + 1) * bytes);
      var colours := Take(size.rest, (size.value + 1) * bytes);
      if colours.Got? {
        SkipBodyGrows(colours.rest, more, PaletteWant(size.value + 1, w, h));
      }
    }
  }

  lemma SkipJpegGrows(s: seq<byte>, more: seq<byte>)
    ensures Grows(SkipJpeg(s), SkipJpeg(s + more), more)
  {
    hide Take, ReadCompact;
    CompactGrows(s, more);
    var length := ReadCompact(s);
    if length.Got? {
      TakeGrows(length.rest, more, length.value);
    }
  }

  lemma SkipBasicGrows(s: seq<byte>, more: seq<byte>, control: byte, w: nat, h: nat, bytes: nat)
    ensures Grows(SkipBasic(s, control, w, h, bytes), SkipBasic(s + more, control, w, h, bytes), more)
  {
    hide Byte, SkipBody, SkipPalette;
    ByteGrows(s, more);
    var filter := ReadFilter(s, control);
    if filter.Got? {
      SkipBodyGrows(filter.rest, more, w * h * bytes);
      SkipPaletteGrows(filter.rest, more, w, h, bytes);
    }
  }

  /** A length once known stands, and a header that has not all come asks for no more than the piece. */
  lemma SkipPieceGrows(s: seq<byte>, more: seq<byte>, w: nat, h: nat, pf: PixelFormat)
    ensures Grows(SkipPiece(s, w, h, pf), SkipPiece(s + more, w, h, pf), more)
  {
    hide Take, SkipJpeg, Byte, SkipBasic, TpixelOf;
    var bytes := TpixelOf(pf).bytes;
    ByteGrows(s, more);
    var control := Byte(s);
    if control.Got? {
      TakeGrows(control.rest, more, bytes);
      SkipJpegGrows(control.rest, more);
      SkipBasicGrows(control.rest, more, control.value, w, h, bytes);
    }
  }

  // ---- Decoding ----

  /** What a client holds of the streams. */
  type Inflaters = c: seq<Zlib.History> | |c| == STREAMS witness FRESH_STREAMS

  /** The low four bits name streams the server has started again. */
  function Restarted(c: Inflaters, control: byte): (c': Inflaters) {
    seq(STREAMS, i requires 0 <= i < STREAMS => if Named(control, i) then [] else c[i])
  }

  predicate Named(control: byte, id: nat)
    requires id < STREAMS
  {
    (if id == 0 then control % 2 else if id == 1 then control / 2 % 2 else if id == 2 then control / 4 % 2 else control / 8 % 2) == 1
  }

  datatype Body = Body(data: seq<byte>, inflaters: Inflaters)

  function ReadBody(z: Zlib.Codec, c: Inflaters, s: seq<byte>, id: nat, want: nat): (r: Read<Body>)
    requires id < STREAMS
    ensures Within(r, s)
  {
    if want < MIN_TO_COMPRESS then
      var data :- Take(s, want);
      Got(Body(data.value, c), data.rest)
    else
      var length :- ReadCompact(s);
      var packed :- Take(length.rest, length.value);
      var plain := z.inflate(c[id], packed.value);
      if plain.Garbled? then Malformed else Got(Body(plain.bytes, c[id := c[id] + [plain.bytes]]), packed.rest)
  }

  function ReadTpixel(s: seq<byte>, pf: PixelFormat): (r: Read<Pixel>)
    ensures Within(r, s)
  {
    var bs :- Take(s, TpixelOf(pf).bytes);
    Got(TpixelPixel(bs.value, pf), bs.rest)
  }

  function ReadTpixels(s: seq<byte>, n: nat, pf: PixelFormat): (r: Read<seq<Pixel>>)
    ensures Within(r, s) && (r.Got? ==> |r.value| == n)
    decreases n
  {
    if n == 0 then Got([], s)
    else
      var px :- ReadTpixel(s, pf);
      var more :- ReadTpixels(px.rest, n - 1, pf);
      Got([px.value] + more.value, more.rest)
  }

  /** A byte a pixel; none if an index is not in the palette. Data that runs out leaves pixels as they were. */
  function IndexedPixels(data: seq<byte>, n: nat, palette: seq<Pixel>): (r: Option<seq<Pixel>>)
    decreases n
  {
    if n == 0 || data == [] then Some([])
    else if data[0] >= |palette| then None
    else
      var more := IndexedPixels(data[1..], n - 1, palette);
      if more.None? then None else Some([palette[data[0]]] + more.value)
  }

  /** A piece's pixels in rows, and the inflaters after it. */
  datatype Told = Told(pixels: seq<Pixel>, inflaters: Inflaters)

  function ReadCopy(z: Zlib.Codec, c: Inflaters, s: seq<byte>, id: nat, w: nat, h: nat, pf: PixelFormat): (r: Read<Told>)
    requires id < STREAMS
    ensures Within(r, s)
  {
    var body :- ReadBody(z, c, s, id, CopyWant(w, h, TpixelOf(pf).bytes));
    var pixels := ReadTpixels(body.value.data, w * h, pf);
    if pixels.IsFailure() then pixels.PropagateFailure() else Got(Told(pixels.value, body.value.inflaters), body.rest)
  }

  function ReadPalette(z: Zlib.Codec, c: Inflaters, s: seq<byte>, id: nat, w: nat, h: nat, pf: PixelFormat): (r: Read<Told>)
    requires id < STREAMS
    ensures Within(r, s)
  {
    var size :- Byte(s);
    var palette :- ReadTpixels(size.rest, size.value + 1, pf);
    var body :- ReadBody(z, c, palette.rest, id, PaletteWant(size.value + 1, w, h));
    if size.value + 1 == 2 then
      var rows := ReadRows(body.value.data, w, h, 1, palette.value);
      if rows.IsFailure() then Malformed else Got(Told(rows.value, body.value.inflaters), body.rest)
    else
      var pixels := IndexedPixels(body.value.data, w * h, palette.value);
      if pixels.None? then Malformed else Got(Told(pixels.value, body.value.inflaters), body.rest)
  }

  function ReadPiece(z: Zlib.Codec, c: Inflaters, s: seq<byte>, w: nat, h: nat, pf: PixelFormat): (r: Read<Told>)
    ensures Within(r, s)
  {
    var control :- Byte(s);
    var begun := Restarted(c, control.value);
    if control.value / 16 == 8 then
      var px :- ReadTpixel(control.rest, pf);
      Got(Told(Uniform(px.value, w * h), begun), px.rest)
    else if control.value / 16 == 9 then Malformed
    else
      var id := control.value / 16 % 4;
      var filter :- ReadFilter(control.rest, control.value);
      if filter.value == FILTER_COPY then ReadCopy(z, begun, filter.rest, id, w, h, pf)
      else if filter.value == FILTER_PALETTE then ReadPalette(z, begun, filter.rest, id, w, h, pf)
      else Malformed
  }

  // ---- The header and the decoder agree ----

  lemma {:induction false} TpixelsAreBytes(s: seq<byte>, n: nat, pf: PixelFormat)
    ensures ReadTpixels(s, n, pf).Got? ==> Take(s, n * TpixelOf(pf).bytes).Got? && Take(s, n * TpixelOf(pf).bytes).rest == ReadTpixels(s, n, pf).rest
    decreases n
  {
    hide TpixelOf, TpixelPixel;
    if n > 0 {
      var bytes := TpixelOf(pf).bytes;
      Distributes(n - 1, bytes);
      if |s| >= bytes {
        TpixelsAreBytes(s[bytes..], n - 1, pf);
        var k := (n - 1) * bytes;
        assert k <= |s[bytes..]| ==> s[bytes..][k..] == s[bytes + k..];
      }
    }
  }

  lemma BodySkipped(z: Zlib.Codec, c: Inflaters, s: seq<byte>, id: nat, want: nat)
    requires id < STREAMS
    ensures ReadBody(z, c, s, id, want).Got? ==> SkipBody(s, want) == Got((), ReadBody(z, c, s, id, want).rest)
  {
  }

  /** What the header says a piece takes is what decoding it takes, whatever the piece. */
  lemma LenIsUsed(z: Zlib.Codec, c: Inflaters, s: seq<byte>, w: nat, h: nat, pf: PixelFormat)
    requires ReadPiece(z, c, s, w, h, pf).Got?
    ensures PayloadLen(s, w, h, pf) == Got(|s| - |ReadPiece(z, c, s, w, h, pf).rest|, ReadPiece(z, c, s, w, h, pf).rest)
  {
    hide TpixelOf, TpixelPixel, ReadBody, SkipBody, ReadRows, IndexedPixels, ReadTpixels, PaletteWant, Restarted, Take, Byte;
    var control := Byte(s);
    var begun := Restarted(c, control.value);
    if control.value / 16 != 8 {
      var id := control.value / 16 % 4;
      var filter := ReadFilter(control.rest, control.value);
      if filter.value == FILTER_COPY {
        BodySkipped(z, begun, filter.rest, id, w * h * TpixelOf(pf).bytes);
      } else {
        var size := Byte(filter.rest);
        var n: nat := size.value as int + 1;
        TpixelsAreBytes(size.rest, n, pf);
        BodySkipped(z, begun, ReadTpixels(size.rest, n, pf).rest, id, PaletteWant(n, w, h));
      }
    }
  }

  lemma NoFilter(control: byte, rest: seq<byte>)
    requires control < 64
    ensures ReadFilter(rest, control) == Got(0, rest) && ReadFilter([0] + rest, control + 64) == Got(0, rest)
    ensures control / 16 != 8 && control / 16 != 9 && (control + 64) / 16 != 8 && (control + 64) / 16 != 9
    ensures (control + 64) / 16 % 4 == control / 16 % 4 && (control + 64) / 64 % 2 == 1
  {
    assert ([0] + rest)[1..] == rest;
  }

  lemma SameBit(control: nat, d: nat, n: nat)
    requires d > 0 && 2 * n * d == 64
    ensures (control + 64) / d % 2 == control / d % 2
  {
    var q := control / d;
    DivBounds(control, d);
    assert (q + 2 * n) * d == q * d + 64 && (q + 2 * n + 1) * d == (q + 1) * d + 64;
    DivUnique(control + 64, d, q + 2 * n);
  }

  lemma SameRestarts(c: Inflaters, control: byte)
    requires control < 64
    ensures Restarted(c, control) == Restarted(c, control + 64)
  {
    SameBit(control, 1, 32);
    SameBit(control, 2, 16);
    SameBit(control, 4, 8);
    SameBit(control, 8, 4);
    hide Named;
    assert Named(control, 0) == Named(control + 64, 0) && Named(control, 1) == Named(control + 64, 1)
        && Named(control, 2) == Named(control + 64, 2) && Named(control, 3) == Named(control + 64, 3) by {
      NamedAlike(control, control + 64);
    }
  }

  lemma NamedAlike(a: byte, b: byte)
    requires a % 2 == b % 2 && a / 2 % 2 == b / 2 % 2 && a / 4 % 2 == b / 4 % 2 && a / 8 % 2 == b / 8 % 2
    ensures Named(a, 0) == Named(b, 0) && Named(a, 1) == Named(b, 1) && Named(a, 2) == Named(b, 2) && Named(a, 3) == Named(b, 3)
  {
  }

  /** A piece with its filter left out is one with the filter that copies. */
  lemma FilterLeftOut(z: Zlib.Codec, c: Inflaters, control: byte, rest: seq<byte>, w: nat, h: nat, pf: PixelFormat)
    requires control < 64
    ensures ReadPiece(z, c, [control] + rest, w, h, pf) == ReadPiece(z, c, [control + 64, 0] + rest, w, h, pf)
    ensures SkipPiece([control] + rest, w, h, pf) == SkipPiece([control + 64, 0] + rest, w, h, pf)
  {
    hide ReadCopy, ReadPalette, SkipBody, SkipPalette, TpixelOf, Restarted, ReadFilter, ReadTpixel, Take;
    NoFilter(control, rest);
    SameRestarts(c, control);
    assert ([control] + rest)[1..] == rest && ([control + 64, 0] + rest)[1..] == [0] + rest;
  }
}
