/** The client's side of a Tight piece: its length while it is still arriving,
    then its pixels, once. */
module TightClient {
  import opened Geometry
  import opened Arithmetic
  import opened Bits
  import opened Pictures
  import opened Framebuffers
  import opened PixelFormats
  import opened Blocks
  import opened Readers
  import opened PackedRows
  import opened Painting
  import opened TightPieces
  import opened Tights
  import opened TightDecoder
  import opened TightPictures
  import Zlib

  // ---- The length of a piece ----

  /** A piece's payload is as long as its header says, and no part of it says so. */
  lemma LengthOfPiece(z: Zlib.Codec, s: Sender, c: Inflaters, p: Picture, t: Rect, pf: PixelFormat, n: nat)
    requires Zlib.Lossless(z) && Zlib.Modest(z) && InStep(s, c) && s.Valid() && Valid(pf) && Inside(p, t)
    requires t.Width() * t.Height() <= MAX_PIXELS && n <= |PieceOf(z, s, p, t, pf).bytes|
    ensures var e := PieceOf(z, s, p, t, pf).bytes;
            var len := PayloadLen(e[..n], t.Width(), t.Height(), pf);
            && (n == |e| ==> len == Got(|e|, []))
            && (n < |e| ==> len.Truncated? && 1 <= len.more <= |e| - n)
  {
    hide Zlib.Lossless, Zlib.Modest, InStep, Valid, Inside, Piece, ReadPiece, SkipPiece, PieceKeys, TpixelOf;
    var w, h, e := t.Width(), t.Height(), PieceOf(z, s, p, t, pf).bytes;
    PieceReadBack(z, s, c, PieceKeys(p, t, pf), w, h, pf, []);
    assert e + [] == e;
    LenIsUsed(z, c, e, w, h, pf);
    assert e[..|e|] == e;
    if n < |e| {
      Split(e, n);
      SkipPieceGrows(e[..n], e[n..], w, h, pf);
      PrefixAsks(e, n, SkipPiece(e, w, h, pf), SkipPiece(e[..n], w, h, pf));
    }
  }

  /** The reader's steps, one call each, as the header function reads. */
  method SkipData(reader: Reader, want: nat) returns (r: Result<()>)
    requires reader.Valid()
    modifies reader
    ensures reader.Valid() && r == ResultOf(SkipBody(old(reader.Rest()), want))
    ensures r.Ok? ==> reader.Rest() == SkipBody(old(reader.Rest()), want).rest
  {
    hide ReadCompact, Take;
    var n := want;
    if want >= MIN_TO_COMPRESS {
      var length := NextCompact(reader);
      if length.Err? { return Err(length.error); }
      n := length.value;
    }
    var data := reader.NextBytes(n);
    if data.Err? { return Err(data.error); }
    return Ok(());
  }

  method NextCompact(reader: Reader) returns (r: Result<nat>)
    requires reader.Valid()
    modifies reader
    ensures reader.Valid() && r == ResultOf(ReadCompact(old(reader.Rest())))
    ensures r.Ok? ==> reader.Rest() == ReadCompact(old(reader.Rest())).rest
  {
    hide Byte;
    var a := reader.NextByte();
    if a.Err? { return Err(a.error); }
    var length: nat := a.value % 128;
    if a.value < 128 { return Ok(length); }
    var b := reader.NextByte();
    if b.Err? { return Err(b.error); }
    length := length + 128 * (b.value as int % 128);
    if b.value < 128 { return Ok(length); }
    var c := reader.NextByte();
    if c.Err? { return Err(c.error); }
    return Ok(length + 16384 * (c.value as int % 128));
  }

  method SkipColours(reader: Reader, w: nat, h: nat, bytes: nat) returns (r: Result<()>)
    requires reader.Valid()
    modifies reader
    ensures reader.Valid() && r == ResultOf(SkipPalette(old(reader.Rest()), w, h, bytes))
    ensures r.Ok? ==> reader.Rest() == SkipPalette(old(reader.Rest()), w, h, bytes).rest
  {
    hide Byte, Take, SkipBody, PaletteWant;
    var size := reader.NextByte();
    if size.Err? { return Err(size.error); }
    var n: nat := size.value as int + 1;
    var colours := reader.NextBytes(n * bytes);
    if colours.Err? { return Err(colours.error); }
    r := SkipData(reader, PaletteWant(n, w, h));
  }

  method SkipFiltered(reader: Reader, control: byte, w: nat, h: nat, bytes: nat) returns (r: Result<()>)
    requires reader.Valid()
    modifies reader
    ensures reader.Valid() && r == ResultOf(SkipBasic(old(reader.Rest()), control, w, h, bytes))
    ensures r.Ok? ==> reader.Rest() == SkipBasic(old(reader.Rest()), control, w, h, bytes).rest
  {
    hide Byte, SkipBody, SkipPalette;
    var filter := FILTER_COPY;
    if control / 64 % 2 == 1 {
      var next := reader.NextByte();
      if next.Err? { return Err(next.error); }
      filter := next.value;
    }
    if filter == FILTER_PALETTE {
      r := SkipColours(reader, w, h, bytes);
    } else if filter == FILTER_COPY {
      r := SkipData(reader, CopyWant(w, h, bytes));
    } else {
      r := Err(Bad);
    }
  }

  method SkipPicture(reader: Reader) returns (r: Result<()>)
    requires reader.Valid()
    modifies reader
    ensures reader.Valid() && r == ResultOf(SkipJpeg(old(reader.Rest())))
    ensures r.Ok? ==> reader.Rest() == SkipJpeg(old(reader.Rest())).rest
  {
    hide Take, ReadCompact;
    var length := NextCompact(reader);
    if length.Err? { return Err(length.error); }
    var data := reader.NextBytes(length.value);
    if data.Err? { return Err(data.error); }
    return Ok(());
  }

  method SkipWhole(reader: Reader, w: nat, h: nat, pf: PixelFormat) returns (r: Result<()>)
    requires reader.Valid()
    modifies reader
    ensures reader.Valid() && r == ResultOf(SkipPiece(old(reader.Rest()), w, h, pf))
    ensures r.Ok? ==> reader.Rest() == SkipPiece(old(reader.Rest()), w, h, pf).rest
  {
    hide Byte, Take, SkipBasic, SkipJpeg, TpixelOf;
    var control := reader.NextByte();
    if control.Err? { return Err(control.error); }
    var kind := control.value / 16;
    if kind == 8 {
      var px := reader.NextBytes(TpixelOf(pf).bytes);
      r := if px.Ok? then Ok(()) else Err(px.error);
    } else if kind == 9 {
      r := SkipPicture(reader);
    } else {
      r := SkipFiltered(reader, control.value, w, h, TpixelOf(pf).bytes);
    }
  }

  /** How long this piece is, from its header alone. */
  method Length(payload: seq<byte>, w: nat, h: nat, pf: PixelFormat) returns (r: Result<nat>)
    ensures r == ResultOf(PayloadLen(payload, w, h, pf))
  {
    hide SkipPiece;
    var reader := new Reader(payload);
    var piece := SkipWhole(reader, w, h, pf);
    if piece.Err? { return Err(piece.error); }
    return Ok(reader.at);
  }

  // ---- The parts of a piece ----

  method NextTpixel(reader: Reader, pf: PixelFormat) returns (r: Result<Pixel>)
    requires reader.Valid()
    modifies reader
    ensures reader.Valid() && r == ResultOf(ReadTpixel(old(reader.Rest()), pf))
    ensures r.Ok? ==> reader.Rest() == ReadTpixel(old(reader.Rest()), pf).rest
  {
    hide TpixelPixel, Take, TpixelOf;
    var bs := reader.NextBytes(TpixelOf(pf).bytes);
    if bs.Err? { return Err(bs.error); }
    return Ok(TpixelPixel(bs.value, pf));
  }

  lemma TpixelsStep(s: seq<byte>, n: nat, pf: PixelFormat, done: seq<Pixel>)
    ensures Prepend(done, ReadTpixels(s, n, pf)) ==
            if n == 0 then Got(done, s)
            else
              var px := ReadTpixel(s, pf);
              if px.IsFailure() then px.PropagateFailure() else Prepend(done + [px.value], ReadTpixels(px.rest, n - 1, pf))
  {
    hide ReadTpixel;
    assert done + [] == done;
    if n > 0 && ReadTpixel(s, pf).Got? {
      PrependMore(done, [ReadTpixel(s, pf).value], ReadTpixels(ReadTpixel(s, pf).rest, n - 1, pf));
    }
  }

  method NextColours(reader: Reader, n: nat, pf: PixelFormat) returns (r: Result<seq<Pixel>>)
    requires reader.Valid()
    modifies reader
    ensures reader.Valid() && r == ResultOf(ReadTpixels(old(reader.Rest()), n, pf))
    ensures r.Ok? ==> reader.Rest() == ReadTpixels(old(reader.Rest()), n, pf).rest
  {
    hide ReadTpixel, ReadTpixels;
    ghost var whole := ReadTpixels(reader.Rest(), n, pf);
    var colours := [];
    PrependNone(whole);
    for i := 0 to n
      invariant reader.Valid() && Prepend(colours, ReadTpixels(reader.Rest(), n - i, pf)) == whole
    {
      TpixelsStep(reader.Rest(), n - i, pf, colours);
      var px := NextTpixel(reader, pf);
      if px.Err? { return Err(px.error); }
      colours := colours + [px.value];
    }
    TpixelsStep(reader.Rest(), 0, pf, colours);
    r := Ok(colours);
  }

  /** Every pixel as it is. */
  method PaintCopy(reader: Reader, t: Rect, pf: PixelFormat, fb: Framebuffer) returns (r: Result<()>)
    requires reader.Valid() && fb.Valid() && Inside(fb.Contents(), t)
    modifies reader, fb.data
    ensures reader.Valid()
    ensures PaintDone(ReadTpixels(old(reader.Rest()), t.Width() * t.Height(), pf), t, old(fb.Contents()), fb.Contents(), reader.Rest(), r)
  {
    hide ReadTpixel, ReadTpixels, Lay, SameOutside, Inside, Framebuffer.Contents;
    var n := t.Width() * t.Height();
    ghost var q, whole, done: seq<Pixel> := fb.Contents(), ReadTpixels(reader.Rest(), n, pf), [];
    NothingLaid(q, t);
    PrependNone(whole);
    for i := 0 to n
      invariant reader.Valid() && fb.Valid() && |done| == i && fb.Contents() == Lay(q, t, done)
      invariant Prepend(done, ReadTpixels(reader.Rest(), n - i, pf)) == whole
    {
      TpixelsStep(reader.Rest(), n - i, pf, done);
      LaidOutside(q, t, done);
      var px := NextTpixel(reader, pf);
      if px.Err? { return Err(px.error); }
      PutNext(fb, t, i, px.value, q, done);
      done := done + [px.value];
    }
    TpixelsStep(reader.Rest(), 0, pf, done);
    r := Ok(());
  }

  /** A byte a pixel, as long as there is data; false at an index the palette does not have. */
  method PaintIndexed(data: seq<byte>, t: Rect, palette: seq<Pixel>, fb: Framebuffer) returns (ok: bool)
    requires fb.Valid() && Inside(fb.Contents(), t)
    modifies fb.data
    ensures var pixels := IndexedPixels(data, t.Width() * t.Height(), palette);
            && ok == pixels.Some?
            && if ok then fb.Contents() == Lay(old(fb.Contents()), t, pixels.value) else SameOutside(old(fb.Contents()), fb.Contents(), t)
  {
    hide IndexedPixels, Lay, SameOutside, Inside, Framebuffer.Contents;
    var pixels := t.Width() * t.Height();
    var n := Min(pixels, |data|);
    ghost var q, whole, done: seq<Pixel> := fb.Contents(), IndexedPixels(data, pixels, palette), [];
    NothingLaid(q, t);
    RowJoinNone(whole);
    assert data[0..] == data;
    for i := 0 to n
      invariant |done| == i && fb.Contents() == Lay(q, t, done)
      invariant RowJoin(done, IndexedPixels(data[i..], pixels - i, palette)) == whole
    {
      IndexedStep(data, i, pixels - i, palette, done);
      if data[i] >= |palette| {
        LaidOutside(q, t, done);
        return false;
      }
      PutNext(fb, t, i, palette[data[i]], q, done);
      done := done + [palette[data[i]]];
    }
    IndexedEnd(data, n, pixels - n, palette, done);
    ok := true;
  }

  lemma IndexedStep(data: seq<byte>, i: nat, n: nat, palette: seq<Pixel>, done: seq<Pixel>)
    requires i < |data| && n > 0
    ensures RowJoin(done, IndexedPixels(data[i..], n, palette)) ==
            if data[i] < |palette| then RowJoin(done + [palette[data[i]]], IndexedPixels(data[i + 1..], n - 1, palette)) else None
  {
    assert data[i..][1..] == data[i + 1..];
    var more := IndexedPixels(data[i + 1..], n - 1, palette);
    if data[i] < |palette| && more.Some? {
      assert done + ([palette[data[i]]] + more.value) == done + [palette[data[i]]] + more.value;
    }
  }

  lemma IndexedEnd(data: seq<byte>, i: nat, n: nat, palette: seq<Pixel>, done: seq<Pixel>)
    requires i <= |data| && (n == 0 || i == |data|)
    ensures RowJoin(done, IndexedPixels(data[i..], n, palette)) == Some(done)
  {
    assert done + [] == done;
  }

  /** What one piece leaves. */
  ghost predicate PieceDone(read: Read<Told>, t: Rect, before: Picture, after: Picture, streams: seq<Zlib.History>, rest: seq<byte>, r: Result<()>)
    requires before.Valid()
  {
    && after.Valid()
    && if read.Got? then r == Ok(()) && after == Lay(before, t, read.value.pixels) && streams == read.value.inflaters && rest == read.rest
       else r == ResultOf(read.PropagateFailure<()>()) && SameOutside(before, after, t)
  }

  // ---- The decoder ----

  class TightReader {
    const z: Zlib.Codec
    var streams: seq<Zlib.History>

    ghost predicate Valid()
      reads this
    {
      |streams| == STREAMS
    }

    constructor (z: Zlib.Codec)
      ensures this.z == z && Valid() && streams == FRESH_STREAMS
    {
      this.z, streams := z, FRESH_STREAMS;
    }

    /** One piece into the framebuffer; the bytes used, or why not. */
    method Decode(payload: seq<byte>, t: Rect, pf: PixelFormat, fb: Framebuffer) returns (r: Result<nat>)
      requires Valid() && fb.Valid() && Inside(fb.Contents(), t)
      modifies this, fb.data
      ensures Valid() && SameOutside(old(fb.Contents()), fb.Contents(), t)
      ensures var read := ReadPiece(z, old(streams), payload, t.Width(), t.Height(), pf);
              if read.Got? then
                && |read.rest| <= |payload| && r == Ok(|payload| - |read.rest|) && streams == read.value.inflaters
                && fb.Contents() == Lay(old(fb.Contents()), t, read.value.pixels)
              else r == ResultOf(read.PropagateFailure<nat>())
    {
      hide ReadPiece, Lay, SameOutside, Framebuffer.Contents, Inside;
      ghost var q, read := fb.Contents(), ReadPiece(z, streams, payload, t.Width(), t.Height(), pf);
      var reader := new Reader(payload);
      var done := DecodePiece(reader, t, pf, fb);
      if done.Err? { return Err(done.error); }
      LaidOutside(q, t, read.value.pixels);
      return Ok(reader.at);
    }

    method DecodePiece(reader: Reader, t: Rect, pf: PixelFormat, fb: Framebuffer) returns (r: Result<()>)
      requires Valid() && reader.Valid() && fb.Valid() && Inside(fb.Contents(), t)
      modifies this, reader, fb.data
      ensures Valid() && reader.Valid()
      ensures PieceDone(ReadPiece(z, old(streams), old(reader.Rest()), t.Width(), t.Height(), pf), t,
                        old(fb.Contents()), fb.Contents(), streams, reader.Rest(), r)
    {
      hide Framebuffer.Contents, Inside, Lay, SameOutside, Byte, ReadTpixel, ReadCopy, ReadPalette, FillRect, Restarted;
      ghost var q := fb.Contents();
      Untouched(q, t);
      var control := reader.NextByte();
      if control.Err? { return Err(control.error); }
      StartAgain(control.value);
      var kind := control.value / 16;
      if kind == 8 {
        var px := NextTpixel(reader, pf);
        if px.Err? { return Err(px.error); }
        FilledIsLaid(q, t, px.value);
        fb.Fill(t, px.value);
        r := Ok(());
      } else if kind == 9 {
        r := Err(Bad);
      } else {
        var filter := FILTER_COPY;
        if control.value / 64 % 2 == 1 {
          var next := reader.NextByte();
          if next.Err? { return Err(next.error); }
          filter := next.value;
        }
        if filter == FILTER_COPY {
          r := DecodeCopy(reader, kind % 4, t, pf, fb);
        } else if filter == FILTER_PALETTE {
          r := DecodePalette(reader, kind % 4, t, pf, fb);
        } else {
          r := Err(Bad);
        }
      }
    }

    /** Inflaters for the streams the server has started again. */
    method StartAgain(control: byte)
      requires Valid()
      modifies this
      ensures Valid() && streams == Restarted(old(streams), control)
    {
      for id := 0 to STREAMS
        invariant Valid() && forall i :: 0 <= i < STREAMS ==>
          streams[i] == if i < id && Named(control, i) then [] else old(streams)[i]
      {
        if Named(control, id) {
          streams := streams[id := []];
        }
      }
    }

    /** The data after the filter: short enough to be sent as it is, or a length and a deflated block. */
    method NextBody(reader: Reader, id: nat, want: nat) returns (r: Result<seq<byte>>)
      requires Valid() && reader.Valid() && id < STREAMS
      modifies this, reader
      ensures Valid() && reader.Valid()
      ensures var read := ReadBody(z, old(streams), old(reader.Rest()), id, want);
              if read.Got? then r == Ok(read.value.data) && streams == read.value.inflaters && reader.Rest() == read.rest
              else r == ResultOf(read.PropagateFailure<seq<byte>>())
    {
      hide ReadCompact, Take;
      if want < MIN_TO_COMPRESS {
        r := reader.NextBytes(want);
        return;
      }
      var length := NextCompact(reader);
      if length.Err? { return Err(length.error); }
      var packed := reader.NextBytes(length.value);
      if packed.Err? { return Err(packed.error); }
      var plain := z.inflate(streams[id], packed.value);
      if plain.Garbled? { return Err(Bad); }
      streams := streams[id := streams[id] + [plain.bytes]];
      return Ok(plain.bytes);
    }

    method DecodeCopy(reader: Reader, id: nat, t: Rect, pf: PixelFormat, fb: Framebuffer) returns (r: Result<()>)
      requires Valid() && reader.Valid() && fb.Valid() && Inside(fb.Contents(), t) && id < STREAMS
      modifies this, reader, fb.data
      ensures Valid() && reader.Valid()
      ensures PieceDone(ReadCopy(z, old(streams), old(reader.Rest()), id, t.Width(), t.Height(), pf), t,
                        old(fb.Contents()), fb.Contents(), streams, reader.Rest(), r)
    {
      hide Framebuffer.Contents, Inside, Lay, SameOutside, ReadBody, ReadTpixels, TpixelOf, CopyWant;
      ghost var q := fb.Contents();
      Untouched(q, t);
      var data := NextBody(reader, id, CopyWant(t.Width(), t.Height(), TpixelOf(pf).bytes));
      if data.Err? { return Err(data.error); }
      var source := new Reader(data.value);
      r := PaintCopy(source, t, pf, fb);
    }

    method DecodePalette(reader: Reader, id: nat, t: Rect, pf: PixelFormat, fb: Framebuffer) returns (r: Result<()>)
      requires Valid() && reader.Valid() && fb.Valid() && Inside(fb.Contents(), t) && id < STREAMS
      modifies this, reader, fb.data
      ensures Valid() && reader.Valid()
      ensures PieceDone(ReadPalette(z, old(streams), old(reader.Rest()), id, t.Width(), t.Height(), pf), t,
                        old(fb.Contents()), fb.Contents(), streams, reader.Rest(), r)
    {
      hide Framebuffer.Contents, Inside, Lay, SameOutside, ReadBody, ReadTpixels, Byte, ReadRows, IndexedPixels, PaletteWant;
      ghost var q := fb.Contents();
      Untouched(q, t);
      var last := reader.NextByte();
      if last.Err? { return Err(last.error); }
      var size: nat := last.value as int + 1;
      var palette := NextColours(reader, size, pf);
      if palette.Err? { return Err(palette.error); }
      var data := NextBody(reader, id, PaletteWant(size, t.Width(), t.Height()));
      if data.Err? { return Err(data.error); }
      if size == 2 {
        var rows := new Reader(data.value);
        var painted := PaintRows(rows, t, 1, palette.value, fb);
        r := if painted.Ok? then Ok(()) else Err(Bad);
      } else {
        var painted := PaintIndexed(data.value, t, palette.value, fb);
        r := if painted then Ok(()) else Err(Bad);
      }
    }
  }

  /** The client's loop: fetch until the header says how long the piece is, fetch
      the rest, and only then decode. On an encoder's piece it reads exactly the
      piece, shows it, and leaves its inflaters in step. */
  method Fetch(reader: TightReader, stream: seq<byte>, t: Rect, pf: PixelFormat, fb: Framebuffer, ghost s: Sender, ghost p: Picture)
    returns (ok: bool, payload: seq<byte>)
    requires reader.Valid() && fb.Valid() && Inside(fb.Contents(), t) && Inside(p, t) && Valid(pf)
    requires Zlib.Lossless(reader.z) && Zlib.Modest(reader.z) && InStep(s, reader.streams) && s.Valid() && t.Width() * t.Height() <= MAX_PIXELS
    modifies reader, fb.data
    ensures reader.Valid() && payload <= stream
    ensures PieceOf(reader.z, s, p, t, pf).bytes <= stream ==>
      && ok && payload == PieceOf(reader.z, s, p, t, pf).bytes
      && InStep(PieceOf(reader.z, s, p, t, pf).sender, reader.streams)
      && fb.Contents() == TightShows(old(fb.Contents()), p, t, pf)
  {
    hide Zlib.Lossless, Zlib.Modest, InStep, Valid, Inside, PieceOf, Framebuffer.Contents, PayloadLen, TightShows, Lay, ReadPiece;
    ghost var w := PieceOf(reader.z, s, p, t, pf);
    ghost var e, q, c := w.bytes, fb.Contents(), reader.streams;
    payload := [];
    var need := 0;
    var known := false;
    while !known
      invariant payload <= stream && (e <= stream ==> |payload| <= |e|)
      invariant reader.Valid() && reader.streams == c && fb.Valid() && fb.Contents() == q
      invariant known ==> e <= stream ==> need == |e| == |payload|
      decreases !known, |stream| - |payload|
    {
      var r := Length(payload, t.Width(), t.Height(), pf);
      if e <= stream {
        LengthOfPiece(reader.z, s, c, p, t, pf, |payload|);
        assert payload == e[..|payload|];
      }
      match r
      case Ok(n) => need, known := n, true;
      case Err(Bad) => return false, payload;
      case Err(Short(more)) =>
        var n := |payload| + Max(more, 1);
        if n > |stream| { return false, payload; }
        payload := stream[..n];
    }
    if |payload| < need {
      if need > |stream| { return false, payload; }
      payload := stream[..need];
    }
    if need > |payload| { return false, payload; }
    var used := reader.Decode(payload[..need], t, pf, fb);
    if e <= stream {
      PieceShown(reader.z, s, c, p, t, pf, q);
      assert payload[..need] == e;
    }
    ok := used.Ok?;
  }

  /** Decoding a piece shows it and brings the streams into step. */
  lemma PieceShown(z: Zlib.Codec, s: Sender, c: Inflaters, p: Picture, t: Rect, pf: PixelFormat, q: Picture)
    requires Zlib.Lossless(z) && Zlib.Modest(z) && InStep(s, c) && s.Valid() && Valid(pf) && Inside(p, t) && q.Valid() && Inside(q, t)
    requires t.Width() * t.Height() <= MAX_PIXELS
    ensures var w := PieceOf(z, s, p, t, pf);
            var r := ReadPiece(z, c, w.bytes, t.Width(), t.Height(), pf);
            && r.Got?
            && Lay(q, t, r.value.pixels) == TightShows(q, p, t, pf) && InStep(w.sender, r.value.inflaters)
  {
    hide Zlib.Lossless, Zlib.Modest, InStep, Valid, Inside, Piece, ReadPiece, PieceKeys, TpixelOf, Lay, TightShows, KeyPixels, Agrees;
    var w, keys := PieceOf(z, s, p, t, pf), PieceKeys(p, t, pf);
    PieceReadBack(z, s, c, keys, t.Width(), t.Height(), pf, []);
    assert w.bytes + [] == w.bytes;
    Settled(w.sender, ReadPiece(z, c, w.bytes, t.Width(), t.Height(), pf).value.inflaters);
    PieceAgrees(q, p, t, t, pf);
    OneBlock(q, TightShows(q, p, t, pf), t, KeyPixels(keys, pf));
    TightShowsElsewhere(q, p, t, pf);
  }

  lemma OneBlock(q: Picture, want: Picture, t: Rect, ps: seq<Pixel>)
    requires q.Valid() && want.Valid() && q.SameSize(want) && Agrees(want, t, ps)
    ensures (forall z: Point :: q.Holds(z) && !t.Has(z.x, z.y) ==> want.At(z) == q.At(z)) ==> Lay(q, t, ps) == want
  {
    hide Lay, Picture.At;
    if forall z: Point :: q.Holds(z) && !t.Has(z.x, z.y) ==> want.At(z) == q.At(z) {
      Same(Lay(q, t, ps), want);
    }
  }
}
