/** Tight over a whole session: every piece read back, and every stream in step
    with its inflater or about to be started again. */
module TightPictures {
  import opened Geometry
  import opened Arithmetic
  import opened Bits
  import opened Regions
  import opened Pictures
  import opened PixelFormats
  import opened Blocks
  import opened Palettes
  import opened PackedRows
  import opened Readers
  import opened Tilings
  import opened TightPieces
  import opened Tights
  import opened TightDecoder
  import Zlib

  /** Each stream has carried what its inflater has seen, or is fresh with the news of it pending. */
  ghost predicate InStep(s: Sender, c: Inflaters) {
    && s.Valid()
    && forall i :: 0 <= i < STREAMS ==> if Named(s.pending, i) then s.streams[i] == [] else c[i] == s.streams[i]
  }

  /** A control byte whose low bits are the pending ones brings every inflater into step. */
  lemma RestartInStep(s: Sender, c: Inflaters, control: byte)
    requires InStep(s, c) && control % 16 == s.pending
    ensures Restarted(c, control) == s.streams
  {
    forall i | 0 <= i < STREAMS ensures Restarted(c, control)[i] == s.streams[i] {
      NamedLow(control, i);
    }
  }

  lemma NamedLow(control: byte, i: nat)
    requires i < STREAMS
    ensures Named(control, i) == Named(control % 16, i)
  {
    var q, r := control / 16, control % 16;
    assert control == 16 * q + r;
    assert control / 2 == 8 * q + r / 2;
    assert control / 4 == 4 * q + r / 4;
    assert control / 8 == 2 * q + r / 8;
  }

  lemma ControlRead(kind: nat, pending: nat)
    requires kind < 16 && pending < 16
    ensures var control := 16 * kind + pending;
            control / 16 == kind && control % 16 == pending && control / 64 % 2 == kind / 4 % 2
  {
  }

  // ---- The data of a piece ----

  /** Deflated data comes back whole and keeps the streams in step. */
  lemma CompressedReadBack(z: Zlib.Codec, s: Sender, id: nat, body: seq<byte>, rest: seq<byte>)
    requires Zlib.Lossless(z) && Zlib.Modest(z) && s.Valid() && id < STREAMS && |body| <= 4 * MAX_PIXELS
    ensures var w := Compressed(z, s, id, body);
            ReadBody(z, s.streams, w.bytes + rest, id, |body|) == Got(Body(body, w.sender.streams), rest)
  {
    hide ReadCompact, CompactBytes, Take;
    if |body| < MIN_TO_COMPRESS {
      TakeExact(body, rest);
    } else {
      var packed := z.deflate(s.level, s.streams[id], body);
      assert z.inflate(s.streams[id], packed) == Zlib.Inflated(body);
      var code := CompactBytes(|packed|);
      assert Compressed(z, s, id, body).bytes + rest == code + (packed + rest);
      CompactReadBack(|packed|, packed + rest);
      TakeExact(packed, rest);
    }
  }

  lemma {:induction false} TpixelsRead(keys: seq<nat>, pf: PixelFormat, rest: seq<byte>)
    ensures ReadTpixels(AllBytes(keys, TpixelOf(pf).bytes) + rest, |keys|, pf) == Got(KeyPixels(keys, pf), rest)
  {
    hide KeyBytes, TpixelOf, ReadTpixel, KeyPixel;
    if keys == [] {
      assert AllBytes(keys, TpixelOf(pf).bytes) + rest == rest;
      assert KeyPixels(keys, pf) == [];
    } else {
      var first, others := KeyBytes(keys[0], TpixelOf(pf).bytes), AllBytes(keys[1..], TpixelOf(pf).bytes);
      assert AllBytes(keys, TpixelOf(pf).bytes) + rest == first + (others + rest);
      TpixelRead(keys[0], pf, others + rest);
      TpixelsRead(keys[1..], pf, rest);
      assert KeyPixels(keys, pf) == [KeyPixel(keys[0], pf)] + KeyPixels(keys[1..], pf);
    }
  }

  lemma TpixelRead(key: nat, pf: PixelFormat, rest: seq<byte>)
    ensures ReadTpixel(KeyBytes(key, TpixelOf(pf).bytes) + rest, pf) == Got(KeyPixel(key, pf), rest)
  {
    hide TpixelOf, TpixelPixel;
    TakeExact(KeyBytes(key, TpixelOf(pf).bytes), rest);
  }

  lemma {:induction false} IndexedAre(data: seq<byte>, shown: seq<Pixel>)
    requires forall i :: 0 <= i < |data| ==> data[i] < |shown|
    ensures var r := IndexedPixels(data, |data|, shown);
            r.Some? && |r.value| == |data| && forall i :: 0 <= i < |data| ==> r.value[i] == shown[data[i]]
  {
    if data != [] {
      IndexedAre(data[1..], shown);
    }
  }

  lemma IndexedRead(keys: seq<nat>, palette: seq<nat>, pf: PixelFormat)
    requires AllIn(keys, palette) && |palette| <= MAX_PALETTE
    ensures IndexedPixels(IndexBytes(keys, palette), |keys|, KeyPixels(palette, pf)) == Some(KeyPixels(keys, pf))
  {
    hide KeyPixel, IndexedPixels;
    var data, shown := IndexBytes(keys, palette), KeyPixels(palette, pf);
    IndexedAre(data, shown);
    assert KeyPixels(keys, pf) == IndexedPixels(data, |keys|, shown).value;
  }

  lemma LookedIsPixels(keys: seq<nat>, palette: seq<nat>, pf: PixelFormat)
    requires AllIn(keys, palette)
    ensures Looked(keys, palette, KeyPixels(palette, pf)) == KeyPixels(keys, pf)
  {
    hide KeyPixel;
  }

  // ---- A piece ----

  /** The piece is read to its last byte, every pixel its key's, and the inflaters are the streams. */
  ghost predicate ReadBack(r: Read<Told>, keys: seq<nat>, pf: PixelFormat, after: Sender, rest: seq<byte>) {
    && r.Got? && r.rest == rest && r.value.pixels == KeyPixels(keys, pf)
    && r.value.inflaters == after.streams && after.pending == 0
  }

  lemma FillReadBack(z: Zlib.Codec, s: Sender, c: Inflaters, keys: seq<nat>, w: nat, h: nat, key: nat, pf: PixelFormat, rest: seq<byte>)
    requires InStep(s, c) && |keys| == h * w && forall i :: 0 <= i < |keys| ==> keys[i] == key
    ensures ReadBack(ReadPiece(z, c, [FILL + s.pending] + KeyBytes(key, TpixelOf(pf).bytes) + rest, w, h, pf), keys, pf, s.(pending := 0), rest)
  {
    hide KeyBytes, TpixelOf, TpixelPixel, ReadTpixel, InStep, Restarted, Byte, KeyPixel;
    var control := FILL + s.pending;
    StepValid(s, c);
    ControlRead(8, s.pending);
    HeadThen(control, KeyBytes(key, TpixelOf(pf).bytes), rest);
    RestartInStep(s, c, control);
    TpixelRead(key, pf, rest);
    assert Uniform(KeyPixel(key, pf), w * h) == KeyPixels(keys, pf);
  }

  lemma StepValid(s: Sender, c: Inflaters)
    requires InStep(s, c)
    ensures s.Valid() && s.(pending := 0).Valid()
  {
  }

  lemma CopyReadBack(z: Zlib.Codec, s: Sender, c: Inflaters, keys: seq<nat>, w: nat, h: nat, pf: PixelFormat, rest: seq<byte>)
    requires Zlib.Lossless(z) && Zlib.Modest(z) && InStep(s, c) && |keys| == h * w && |keys| * TpixelOf(pf).bytes <= 4 * MAX_PIXELS
    requires s.Valid() && s.(pending := 0).Valid()
    ensures var data := Compressed(z, s.(pending := 0), COPY_STREAM, AllBytes(keys, TpixelOf(pf).bytes));
            ReadBack(ReadPiece(z, c, [EXPLICIT_FILTER + s.pending, FILTER_COPY] + data.bytes + rest, w, h, pf), keys, pf, data.sender, rest)
  {
    hide AllBytes, TpixelOf, ReadTpixels, InStep, Restarted, Byte, Compressed, ReadBody, KeyPixels;
    var control, bytes := EXPLICIT_FILTER + s.pending, TpixelOf(pf).bytes;
    var body := AllBytes(keys, bytes);
    var data := Compressed(z, s.(pending := 0), COPY_STREAM, body);
    AllBytesSize(keys, bytes);
    ControlRead(4, s.pending);
    TwoHeads(control, FILTER_COPY, data.bytes, rest);
    RestartInStep(s, c, control);
    CompressedReadBack(z, s.(pending := 0), COPY_STREAM, body, rest);
    TpixelsRead(keys, pf, []);
    assert body + [] == body && w * h == |keys|;
    KeepsPending(z, s.(pending := 0), COPY_STREAM, body);
  }

  lemma KeepsPending(z: Zlib.Codec, s: Sender, id: nat, body: seq<byte>)
    requires s.Valid() && id < STREAMS
    ensures Compressed(z, s, id, body).sender.pending == s.pending
  {
  }

  lemma TwoHeads(a: byte, b: byte, body: seq<byte>, rest: seq<byte>)
    ensures Byte([a, b] + body + rest) == Got(a, [b] + body + rest) && Byte([b] + body + rest) == Got(b, body + rest)
  {
    HeadThen(a, [b] + body, rest);
    HeadThen(b, body, rest);
    assert [a, b] + body + rest == [a] + ([b] + body) + rest;
  }

  /** The palette and its data, once the filter is read. */
  lemma PaletteReadBack(z: Zlib.Codec, s: Sender, id: nat, keys: seq<nat>, w: nat, h: nat, palette: seq<nat>, body: seq<byte>, pf: PixelFormat, rest: seq<byte>)
    requires Zlib.Lossless(z) && Zlib.Modest(z) && s.Valid() && id < STREAMS
    requires |keys| == h * w && AllIn(keys, palette) && 2 <= |palette| <= MAX_PALETTE
    requires |body| == PaletteWant(|palette|, w, h) && |body| <= 4 * MAX_PIXELS
    requires if |palette| == 2 then Narrow(palette, 1) && body == PackedFrom(keys, w, h, 0, palette, 1) else body == IndexBytes(keys, palette)
    ensures var data := Compressed(z, s, id, body);
            var r := ReadPalette(z, s.streams, [|palette| - 1] + AllBytes(palette, TpixelOf(pf).bytes) + data.bytes + rest, id, w, h, pf);
            r == Got(Told(KeyPixels(keys, pf), data.sender.streams), rest)
  {
    hide AllBytes, TpixelOf, ReadTpixels, Byte, Compressed, ReadBody, KeyPixels, PackedFrom, ReadRows, IndexedPixels, PaletteWant, Narrow, IndexBytes,
         Zlib.Lossless, Zlib.Modest, AllIn, ReadPalette;
    var names, data := AllBytes(palette, TpixelOf(pf).bytes), Compressed(z, s, id, body);
    HeadThen(|palette| - 1, names + data.bytes, rest);
    assert [|palette| - 1] + (names + data.bytes) + rest == [|palette| - 1] + names + data.bytes + rest;
    assert names + data.bytes + rest == names + (data.bytes + rest);
    TpixelsRead(palette, pf, data.bytes + rest);
    CompressedReadBack(z, s, id, body, rest);
    BodyRead(keys, w, h, palette, body, pf);
    PaletteThenBody(z, s.streams, [|palette| - 1] + names + data.bytes + rest, id, w, h, pf);
  }

  /** The data of a palette piece is its pixels. */
  lemma BodyRead(keys: seq<nat>, w: nat, h: nat, palette: seq<nat>, body: seq<byte>, pf: PixelFormat)
    requires |keys| == h * w && AllIn(keys, palette) && 2 <= |palette| <= MAX_PALETTE
    requires if |palette| == 2 then Narrow(palette, 1) && body == PackedFrom(keys, w, h, 0, palette, 1) else body == IndexBytes(keys, palette)
    ensures |palette| == 2 ==> ReadRows(body, w, h, 1, KeyPixels(palette, pf)) == Got(KeyPixels(keys, pf), [])
    ensures |palette| != 2 ==> IndexedPixels(body, w * h, KeyPixels(palette, pf)) == Some(KeyPixels(keys, pf))
  {
    hide KeyPixels, PackedFrom, ReadRows, IndexedPixels, Narrow, IndexBytes, AllIn;
    if |palette| == 2 {
      RowsRead(keys, w, h, 0, palette, 1, KeyPixels(palette, pf), []);
      BelowEnds(keys, w, h);
      LookedIsPixels(keys, palette, pf);
      assert body + [] == body;
    } else {
      IndexedRead(keys, palette, pf);
      assert w * h == |keys|;
    }
  }

  /** Reading a palette piece, once each of its parts is known to read. */
  lemma PaletteThenBody(z: Zlib.Codec, c: Inflaters, s: seq<byte>, id: nat, w: nat, h: nat, pf: PixelFormat)
    requires id < STREAMS
    ensures var size := Byte(s);
            var palette := if size.Got? then ReadTpixels(size.rest, size.value + 1, pf) else Malformed;
            var body := if palette.Got? then ReadBody(z, c, palette.rest, id, PaletteWant(size.value + 1, w, h)) else Malformed;
            if !body.Got? then true
            else if size.value == 1 then
              var rows := ReadRows(body.value.data, w, h, 1, palette.value);
              ReadPalette(z, c, s, id, w, h, pf) == if rows.Got? then Got(Told(rows.value, body.value.inflaters), body.rest) else Malformed
            else
              var pixels := IndexedPixels(body.value.data, w * h, palette.value);
              ReadPalette(z, c, s, id, w, h, pf) == if pixels.Some? then Got(Told(pixels.value, body.value.inflaters), body.rest) else Malformed
  {
    hide Byte, ReadTpixels, ReadBody, PaletteWant, ReadRows, IndexedPixels;
  }

  lemma BasicReadBack(z: Zlib.Codec, s: Sender, c: Inflaters, id: nat, keys: seq<nat>, w: nat, h: nat, palette: seq<nat>, body: seq<byte>, pf: PixelFormat, rest: seq<byte>)
    requires Zlib.Lossless(z) && Zlib.Modest(z) && InStep(s, c) && s.Valid() && id < STREAMS
    requires |keys| == h * w && AllIn(keys, palette) && 2 <= |palette| <= MAX_PALETTE
    requires |body| == PaletteWant(|palette|, w, h) && |body| <= 4 * MAX_PIXELS
    requires if |palette| == 2 then Narrow(palette, 1) && body == PackedFrom(keys, w, h, 0, palette, 1) else body == IndexBytes(keys, palette)
    ensures var written := Basic(z, s, id, palette, body, TpixelOf(pf).bytes);
            ReadBack(ReadPiece(z, c, written.bytes + rest, w, h, pf), keys, pf, written.sender, rest)
  {
    hide AllBytes, TpixelOf, InStep, Restarted, Compressed, ReadPalette, KeyPixels, PackedFrom, IndexBytes, PaletteWant, Narrow, ReadPiece;
    var control, data := EXPLICIT_FILTER + 16 * id + s.pending, Compressed(z, s.(pending := 0), id, body);
    var tail := [|palette| - 1] + AllBytes(palette, TpixelOf(pf).bytes) + data.bytes;
    assert Basic(z, s, id, palette, body, TpixelOf(pf).bytes).bytes + rest == [control, FILTER_PALETTE] + tail + rest;
    PaletteParsed(z, c, id, s.pending, tail, w, h, pf, rest);
    ControlRead(4 + id, s.pending);
    RestartInStep(s, c, control);
    PaletteReadBack(z, s.(pending := 0), id, keys, w, h, palette, body, pf, rest);
    KeepsPending(z, s.(pending := 0), id, body);
  }

  lemma PaletteParsed(z: Zlib.Codec, c: Inflaters, id: nat, pending: nat, tail: seq<byte>, w: nat, h: nat, pf: PixelFormat, rest: seq<byte>)
    requires id < STREAMS && pending < 16
    ensures ReadPiece(z, c, [EXPLICIT_FILTER + 16 * id + pending, FILTER_PALETTE] + tail + rest, w, h, pf)
         == ReadPalette(z, Restarted(c, EXPLICIT_FILTER + 16 * id + pending), tail + rest, id, w, h, pf)
  {
    hide Byte, ReadPalette, Restarted, ReadTpixel, ReadCopy;
    ControlRead(4 + id, pending);
    TwoHeads(EXPLICIT_FILTER + 16 * id + pending, FILTER_PALETTE, tail, rest);
  }

  lemma OneColour(keys: seq<nat>)
    ensures var palette := Palette(keys, MAX_PALETTE);
            |palette| == 1 ==> forall i :: 0 <= i < |keys| ==> keys[i] == palette[0]
  {
    hide Palette;
    PaletteHolds(keys);
  }

  lemma MonoSize(keys: seq<nat>, w: nat, h: nat, palette: seq<nat>)
    requires |keys| == h * w && AllIn(keys, palette) && |palette| == 2 && Narrow(palette, 1)
    ensures |PackedFrom(keys, w, h, 0, palette, 1)| == PaletteWant(2, w, h) <= |keys|
  {
    PackedSize(keys, w, h, 0, palette, 1);
    MulOrder(RowBytes(w, 1), w, h);
    assert w * h == |keys|;
  }

  /** Every piece reads back, and leaves nothing pending and every stream in step. */
  lemma PieceReadBack(z: Zlib.Codec, s: Sender, c: Inflaters, keys: seq<nat>, w: nat, h: nat, pf: PixelFormat, rest: seq<byte>)
    requires Zlib.Lossless(z) && Zlib.Modest(z) && InStep(s, c) && s.Valid() && Valid(pf)
    requires |keys| == h * w && |keys| <= MAX_PIXELS
    ensures var written := Piece(z, s, keys, w, h, TpixelOf(pf).bytes);
            ReadBack(ReadPiece(z, c, written.bytes + rest, w, h, pf), keys, pf, written.sender, rest)
  {
    hide Zlib.Lossless, Zlib.Modest, IndexBytes, AllBytes, KeyBytes, TpixelOf, InStep, ReadBack, ReadPiece, Basic, Compressed, PackedFrom, PaletteWant, Palette, AllIn, NoRepeats, Narrow, Valid;
    var palette, bytes := Palette(keys, MAX_PALETTE), TpixelOf(pf).bytes;
    TpixelSize(pf);
    PaletteHolds(keys);
    MulOrder(bytes, 4, |keys|);
    if |palette| == 1 {
      OneColour(keys);
      FillReadBack(z, s, c, keys, w, h, palette[0], pf, rest);
    } else if |palette| == 2 {
      TwoIsNarrow(palette);
      MonoSize(keys, w, h, palette);
      BasicReadBack(z, s, c, MONO_STREAM, keys, w, h, palette, PackedFrom(keys, w, h, 0, palette, 1), pf, rest);
    } else if palette != [] {
      IndexWant(palette, w, h);
      BasicReadBack(z, s, c, PALETTE_STREAM, keys, w, h, palette, IndexBytes(keys, palette), pf, rest);
    } else {
      CopyReadBack(z, s, c, keys, w, h, pf, rest);
    }
  }

  lemma IndexWant(palette: seq<nat>, w: nat, h: nat)
    requires |palette| != 2
    ensures PaletteWant(|palette|, w, h) == h * w
  {
  }

  lemma TpixelSize(pf: PixelFormat)
    requires Valid(pf)
    ensures 0 < TpixelOf(pf).bytes <= 4
  {
  }

  // ---- Rectangles ----

  ghost function PieceKeys(p: Picture, t: Rect, pf: PixelFormat): (ks: seq<nat>)
    requires Inside(p, t)
    ensures |ks| == t.Height() * t.Width()
  {
    BlockSize(p, t);
    TpixelKeys(Block(p, t), pf)
  }

  /** The picture with a rectangle of another, as Tight can show it. */
  ghost function TightShows(q: Picture, p: Picture, rect: Rect, pf: PixelFormat): (r: Picture)
    requires q.Valid() && Inside(p, rect)
    ensures r.Valid() && r.SameSize(q)
    ensures forall z: Point {:trigger r.At(z)} :: q.Holds(z) ==>
      r.At(z) == if rect.Has(z.x, z.y) then Shown(p.At(z), pf) else q.At(z)
  {
    Build(q.width, q.height, z =>
      if !q.Holds(z) then BLACK
      else if rect.Has(z.x, z.y) then Shown(p.At(z), pf) else q.At(z))
  }

  /** Where channels share no bits, Tight shows what any lossless encoding does. */
  lemma TightShowsTheSame(q: Picture, p: Picture, rect: Rect, pf: PixelFormat)
    requires q.Valid() && Inside(p, rect) && Inside(q, rect) && Valid(pf) && Disjoint(pf)
    ensures TightShows(q, p, rect, pf) == ClientShows(q, p, rect, pf)
  {
    hide Valid, Disjoint, Shown, Unpack, Convert, TightShows, ClientShows, Picture.At;
    forall z: Point | q.Holds(z) ensures TightShows(q, p, rect, pf).At(z) == ClientShows(q, p, rect, pf).At(z) {
      if rect.Has(z.x, z.y) {
        ShownIsThrough(p.At(z), pf);
      }
    }
    Same(TightShows(q, p, rect, pf), ClientShows(q, p, rect, pf));
  }

  lemma PieceAgrees(q: Picture, p: Picture, rect: Rect, t: Rect, pf: PixelFormat)
    requires q.Valid() && Inside(p, rect) && Inside(q, rect) && Inside(p, t) && Valid(pf)
    requires rect.x1 <= t.x1 && t.x2 <= rect.x2 && rect.y1 <= t.y1 && t.y2 <= rect.y2
    ensures Agrees(TightShows(q, p, rect, pf), t, KeyPixels(PieceKeys(p, t, pf), pf))
  {
    hide Block, KeyPixel, Valid, TpixelKey, TightShows, IndexIn, Shown;
    var want, ps := TightShows(q, p, rect, pf), KeyPixels(PieceKeys(p, t, pf), pf);
    BlockSize(p, t);
    forall z: Point | t.Has(z.x, z.y)
      ensures want.Holds(z) && 0 <= IndexIn(t, z.x, z.y) < |ps| && ps[IndexIn(t, z.x, z.y)] == want.At(z)
    {
      BlockAt(p, t, z);
      KeyShows(p.At(z), pf);
      assert q.Holds(z);
    }
  }

  ghost predicate PiecesIn(p: Picture, pieces: seq<Rect>) { forall i :: 0 <= i < |pieces| ==> Inside(p, pieces[i]) }

  predicate AllSmall(pieces: seq<Rect>) {
    forall i :: 0 <= i < |pieces| ==> pieces[i].Width() * pieces[i].Height() <= MAX_PIXELS
  }

  ghost function PieceOf(z: Zlib.Codec, s: Sender, p: Picture, t: Rect, pf: PixelFormat): (w: Written)
    requires s.Valid() && Inside(p, t)
    ensures w.sender.Valid()
  {
    Piece(z, s, PieceKeys(p, t, pf), t.Width(), t.Height(), TpixelOf(pf).bytes)
  }

  /** The bytes of pieces in order, each after the streams the last one left. */
  ghost function WritePieces(z: Zlib.Codec, s: Sender, p: Picture, pieces: seq<Rect>, pf: PixelFormat): (w: Written)
    requires s.Valid() && PiecesIn(p, pieces)
    ensures w.sender.Valid()
    decreases |pieces|
  {
    if pieces == [] then Written([], s)
    else
      var first := PieceOf(z, s, p, pieces[0], pf);
      var others := WritePieces(z, first.sender, p, pieces[1..], pf);
      Written(first.bytes + others.bytes, others.sender)
  }

  lemma RectPiecesIn(p: Picture, rect: Rect)
    requires Inside(p, rect)
    ensures PiecesIn(p, PieceRects(rect)) && AllSmall(PieceRects(rect))
    ensures forall i :: 0 <= i < |PieceRects(rect)| ==>
      rect.x1 <= PieceRects(rect)[i].x1 && PieceRects(rect)[i].x2 <= rect.x2 && rect.y1 <= PieceRects(rect)[i].y1 && PieceRects(rect)[i].y2 <= rect.y2
    ensures forall x, y :: Has(PieceRects(rect), x, y) <==> rect.Has(x, y)
  {
    if rect.IsEmpty() {
      NoPieces(rect);
    } else {
      PiecesTile(rect);
      forall i | 0 <= i < |PieceRects(rect)| ensures rect.Contains(PieceRects(rect)[i]) {
        forall x, y ensures PieceRects(rect)[i].Has(x, y) ==> rect.Has(x, y) {
          assert PieceRects(rect)[i].Has(x, y) ==> Has(PieceRects(rect), x, y);
        }
      }
    }
  }

  /** A rectangle of a session, whole. */
  ghost function Encoded(z: Zlib.Codec, s: Sender, p: Picture, rect: Rect, pf: PixelFormat): (w: Written)
    requires s.Valid() && Inside(p, rect)
    ensures w.sender.Valid()
  {
    RectPiecesIn(p, rect);
    WritePieces(z, s, p, PieceRects(rect), pf)
  }

  datatype Seen = Seen(blocks: seq<seq<Pixel>>, inflaters: Inflaters)

  /** The client's side: one piece after another through its inflaters. */
  function ReadPieces(z: Zlib.Codec, c: Inflaters, s: seq<byte>, pieces: seq<Rect>, pf: PixelFormat): (r: Read<Seen>)
    ensures Within(r, s) && (r.Got? ==> |r.value.blocks| == |pieces|)
    decreases |pieces|
  {
    if pieces == [] then Got(Seen([], c), s)
    else
      var first :- ReadPiece(z, c, s, pieces[0].Width(), pieces[0].Height(), pf);
      var others :- ReadPieces(z, first.value.inflaters, first.rest, pieces[1..], pf);
      Got(Seen([first.value.pixels] + others.value.blocks, others.value.inflaters), others.rest)
  }

  ghost predicate AllShow(p: Picture, pieces: seq<Rect>, blocks: seq<seq<Pixel>>, pf: PixelFormat)
    requires PiecesIn(p, pieces)
  {
    |blocks| == |pieces| && forall i :: 0 <= i < |pieces| ==> blocks[i] == KeyPixels(PieceKeys(p, pieces[i], pf), pf)
  }

  lemma {:induction false} PiecesReadBack(z: Zlib.Codec, s: Sender, c: Inflaters, p: Picture, pieces: seq<Rect>, pf: PixelFormat, rest: seq<byte>)
    requires Zlib.Lossless(z) && Zlib.Modest(z) && InStep(s, c) && s.Valid() && Valid(pf) && PiecesIn(p, pieces) && AllSmall(pieces)
    ensures var w := WritePieces(z, s, p, pieces, pf);
            var r := ReadPieces(z, c, w.bytes + rest, pieces, pf);
            r.Got? && r.rest == rest && AllShow(p, pieces, r.value.blocks, pf) && InStep(w.sender, r.value.inflaters)
    decreases |pieces|
  {
    hide Zlib.Lossless, Zlib.Modest, Valid, Piece, ReadPiece, TpixelOf, KeyPixels, PieceKeys, Inside, InStep;
    if pieces == [] {
      assert WritePieces(z, s, p, pieces, pf).bytes + rest == rest;
    } else {
      var t := pieces[0];
      var keys := PieceKeys(p, t, pf);
      assert PiecesIn(p, pieces[1..]);
      var first := PieceOf(z, s, p, t, pf);
      var others := WritePieces(z, first.sender, p, pieces[1..], pf);
      assert WritePieces(z, s, p, pieces, pf).bytes + rest == first.bytes + (others.bytes + rest);
      assert |keys| <= MAX_PIXELS;
      PieceReadBack(z, s, c, keys, t.Width(), t.Height(), pf, others.bytes + rest);
      var told := ReadPiece(z, c, first.bytes + (others.bytes + rest), t.Width(), t.Height(), pf);
      Settled(first.sender, told.value.inflaters);
      PiecesReadBack(z, first.sender, told.value.inflaters, p, pieces[1..], pf, rest);
    }
  }

  lemma Settled(s: Sender, c: Inflaters)
    requires s.Valid() && s.pending == 0 && c == s.streams
    ensures InStep(s, c)
  {
  }

  /** A whole rectangle: read to its last byte, the picture right, the streams in step. */
  lemma RectReadBack(z: Zlib.Codec, s: Sender, c: Inflaters, p: Picture, rect: Rect, pf: PixelFormat, q: Picture, rest: seq<byte>)
    requires Zlib.Lossless(z) && Zlib.Modest(z) && InStep(s, c) && s.Valid() && Valid(pf) && Inside(p, rect) && Inside(q, rect)
    ensures var w := Encoded(z, s, p, rect, pf);
            var r := ReadPieces(z, c, w.bytes + rest, PieceRects(rect), pf);
            && r.Got? && r.rest == rest && InStep(w.sender, r.value.inflaters)
            && LayAll(q, PieceRects(rect), r.value.blocks) == TightShows(q, p, rect, pf)
  {
    hide Zlib.Lossless, Zlib.Modest, Valid, ReadPieces, PieceRects, LayAll, KeyPixels, PieceKeys, Agrees, TightShows, InStep, WritePieces;
    var pieces := PieceRects(rect);
    RectPiecesIn(p, rect);
    PiecesReadBack(z, s, c, p, pieces, pf, rest);
    var blocks := ReadPieces(z, c, Encoded(z, s, p, rect, pf).bytes + rest, pieces, pf).value.blocks;
    forall i | 0 <= i < |pieces| ensures Agrees(TightShows(q, p, rect, pf), pieces[i], blocks[i]) {
      PieceAgrees(q, p, rect, pieces[i], pf);
    }
    TightShowsElsewhere(q, p, rect, pf);
    LaidIsWanted(q, TightShows(q, p, rect, pf), rect, pieces, blocks);
  }

  lemma TightShowsElsewhere(q: Picture, p: Picture, rect: Rect, pf: PixelFormat)
    requires q.Valid() && Inside(p, rect)
    ensures forall z: Point :: q.Holds(z) && !rect.Has(z.x, z.y) ==> TightShows(q, p, rect, pf).At(z) == q.At(z)
  {
  }

  // ---- A whole session ----

  /** What a session does with its encoder. */
  datatype Op = Send(picture: Picture, rect: Rect) | Restart(level: nat)

  ghost predicate Doable(ops: seq<Op>, q: Picture) {
    forall i :: 0 <= i < |ops| && ops[i].Send? ==> Inside(ops[i].picture, ops[i].rect) && Inside(q, ops[i].rect)
  }

  /** Everything that goes out. */
  ghost function Out(z: Zlib.Codec, s: Sender, ops: seq<Op>, pf: PixelFormat, q: Picture): seq<byte>
    requires s.Valid() && Doable(ops, q)
    decreases |ops|
  {
    if ops == [] then []
    else if ops[0].Restart? then Out(z, Reset(ops[0].level), ops[1..], pf, q)
    else
      var w := Encoded(z, s, ops[0].picture, ops[0].rect, pf);
      w.bytes + Out(z, w.sender, ops[1..], pf, q)
  }

  /** What the client makes of it: it sees rectangles, and never a restart but in a control byte. */
  ghost function Followed(z: Zlib.Codec, c: Inflaters, s: seq<byte>, ops: seq<Op>, pf: PixelFormat, q: Picture): (r: Read<Picture>)
    requires q.Valid()
    decreases |ops|
  {
    if ops == [] then Got(q, s)
    else if ops[0].Restart? then Followed(z, c, s, ops[1..], pf, q)
    else
      var seen :- ReadPieces(z, c, s, PieceRects(ops[0].rect), pf);
      Followed(z, seen.value.inflaters, seen.rest, ops[1..], pf, LayAll(q, PieceRects(ops[0].rect), seen.value.blocks))
  }

  /** The picture the session means the client to have. */
  ghost function Meant(ops: seq<Op>, pf: PixelFormat, q: Picture): (r: Picture)
    requires q.Valid() && Doable(ops, q)
    decreases |ops|
  {
    if ops == [] then q
    else if ops[0].Restart? then Meant(ops[1..], pf, q)
    else
      var next := TightShows(q, ops[0].picture, ops[0].rect, pf);
      assert Doable(ops[1..], next);
      Meant(ops[1..], pf, next)
  }

  /** In every run of encodes and resets, from streams in step, every byte is
      used and the client's picture is the one meant. */
  lemma {:induction false} SessionRoundTrip(z: Zlib.Codec, s: Sender, c: Inflaters, ops: seq<Op>, pf: PixelFormat, q: Picture, rest: seq<byte>)
    requires Zlib.Lossless(z) && Zlib.Modest(z) && InStep(s, c) && s.Valid() && Valid(pf) && q.Valid() && Doable(ops, q)
    ensures Followed(z, c, Out(z, s, ops, pf, q) + rest, ops, pf, q) == Got(Meant(ops, pf, q), rest)
    decreases |ops|
  {
    hide Zlib.Lossless, Zlib.Modest, Valid, ReadPieces, PieceRects, LayAll, TightShows, InStep, Encoded, Inside;
    if ops == [] {
      assert [] + rest == rest;
    } else if ops[0].Restart? {
      RestartStep(s, c, ops[0].level);
      SessionRoundTrip(z, Reset(ops[0].level), c, ops[1..], pf, q, rest);
    } else {
      var op := ops[0];
      var w := Encoded(z, s, op.picture, op.rect, pf);
      var others := Out(z, w.sender, ops[1..], pf, q);
      assert Out(z, s, ops, pf, q) + rest == w.bytes + (others + rest);
      RectReadBack(z, s, c, op.picture, op.rect, pf, q, others + rest);
      var seen := ReadPieces(z, c, w.bytes + (others + rest), PieceRects(op.rect), pf);
      var next := TightShows(q, op.picture, op.rect, pf);
      StillDoable(ops[1..], q, next);
      SameOut(z, w.sender, ops[1..], pf, q, next);
      SessionRoundTrip(z, w.sender, seen.value.inflaters, ops[1..], pf, next, rest);
    }
  }

  /** A reset leaves every stream fresh with its news pending. */
  lemma RestartStep(s: Sender, c: Inflaters, level: nat)
    ensures InStep(Reset(level), c)
  {
  }

  lemma StillDoable(ops: seq<Op>, q: Picture, q': Picture)
    requires Doable(ops, q) && q'.Valid() && q.SameSize(q')
    ensures Doable(ops, q')
  {
  }

  lemma {:induction false} SameOut(z: Zlib.Codec, s: Sender, ops: seq<Op>, pf: PixelFormat, q: Picture, q': Picture)
    requires s.Valid() && Doable(ops, q) && Doable(ops, q')
    ensures Out(z, s, ops, pf, q) == Out(z, s, ops, pf, q')
    decreases |ops|
  {
    hide Encoded, Inside;
    if ops != [] {
      if ops[0].Restart? {
        SameOut(z, Reset(ops[0].level), ops[1..], pf, q, q');
      } else {
        SameOut(z, Encoded(z, s, ops[0].picture, ops[0].rect, pf).sender, ops[1..], pf, q, q');
      }
    }
  }

  /** A new session's streams are in step. */
  lemma FreshInStep(level: nat)
    ensures InStep(Fresh(level), FRESH_STREAMS)
  {
  }
}
