/** The Tight encoder as it runs, its four streams and pending resets in place. */
module TightWriter {
  import opened Geometry
  import opened Arithmetic
  import opened Bits
  import opened Pictures
  import opened Framebuffers
  import opened PixelFormats
  import opened Blocks
  import opened Palettes
  import opened PackedRows
  import opened TightPieces
  import opened Tights
  import opened TightPictures
  import Zlib

  // ---- What each loop adds ----

  /** What is out and the pieces still to come make the whole, streams and all. */
  ghost predicate Owing(z: Zlib.Codec, p: Picture, pf: PixelFormat, out: seq<byte>, s: Sender, pieces: seq<Rect>, whole: Written) {
    && s.Valid() && PiecesIn(p, pieces)
    && whole == Written(out + WritePieces(z, s, p, pieces, pf).bytes, WritePieces(z, s, p, pieces, pf).sender)
  }

  lemma AllOwed(z: Zlib.Codec, p: Picture, rect: Rect, pf: PixelFormat, out: seq<byte>, s: Sender)
    requires s.Valid() && Inside(p, rect)
    ensures Owing(z, p, pf, out, s, ColumnsFrom(rect, rect.x1, PieceRows(rect)),
                  Written(out + Encoded(z, s, p, rect, pf).bytes, Encoded(z, s, p, rect, pf).sender))
  {
    hide PiecesIn, WritePieces;
    RectPiecesIn(p, rect);
  }

  lemma NothingOwed(z: Zlib.Codec, p: Picture, pf: PixelFormat, out: seq<byte>, s: Sender, whole: Written)
    requires Owing(z, p, pf, out, s, [], whole)
    ensures whole == Written(out, s)
  {
  }

  lemma FirstOwed(z: Zlib.Codec, p: Picture, pf: PixelFormat, out: seq<byte>, s: Sender, t: Rect, rest: seq<Rect>, whole: Written)
    requires Owing(z, p, pf, out, s, [t] + rest, whole)
    ensures s.Valid() && Inside(p, t)
    ensures var w := PieceOf(z, s, p, t, pf); Owing(z, p, pf, out + w.bytes, w.sender, rest, whole)
  {
    hide PieceOf, Inside;
    var pieces := [t] + rest;
    assert pieces[0] == t && pieces[1..] == rest;
    var w := PieceOf(z, s, p, t, pf);
    assert forall i :: 0 <= i < |rest| ==> rest[i] == pieces[i + 1];
    var others := WritePieces(z, w.sender, p, rest, pf);
    assert WritePieces(z, s, p, pieces, pf) == Written(w.bytes + others.bytes, others.sender);
    assert out + (w.bytes + others.bytes) == (out + w.bytes) + others.bytes;
  }

  lemma NextColumn(rect: Rect, x: int, rows: int)
    requires rows > 0
    ensures x < rect.x2 ==>
      var width := Min(MAX_WIDTH, rect.x2 - x);
      ColumnsFrom(rect, x, rows) == ColumnFrom(x, width, rect.y1, rect.y2, rows) + ColumnsFrom(rect, x + width, rows)
    ensures x >= rect.x2 ==> ColumnsFrom(rect, x, rows) == []
  {
  }

  lemma NextPiece(x: int, width: int, y: int, y2: int, rows: int, right: seq<Rect>)
    requires rows > 0
    ensures y < y2 ==>
      var height := Min(rows, y2 - y);
      ColumnFrom(x, width, y, y2, rows) + right
      == [Rect(x, y, x + width, y + height)] + (ColumnFrom(x, width, y + height, y2, rows) + right)
    ensures y >= y2 ==> ColumnFrom(x, width, y, y2, rows) + right == right
  {
  }

  /** One more pixel is one more key, and its bytes. */
  lemma OneMoreKey(done: seq<Pixel>, px: Pixel, pf: PixelFormat)
    requires Valid(pf)
    ensures TpixelKeys(done + [px], pf) == TpixelKeys(done, pf) + [LeWord(TpixelBytes(px, pf))]
    ensures AllBytes(TpixelKeys(done + [px], pf), TpixelOf(pf).bytes)
         == AllBytes(TpixelKeys(done, pf), TpixelOf(pf).bytes) + TpixelBytes(px, pf)
  {
    hide TpixelBytes, TpixelOf, LeWord, Valid, LeBytes;
    KeyShows(px, pf);
    BytesWord(TpixelBytes(px, pf));
    var key := LeWord(TpixelBytes(px, pf));
    AllBytesJoin(TpixelKeys(done, pf), [key], TpixelOf(pf).bytes);
    assert AllBytes([key], TpixelOf(pf).bytes) == KeyBytes(key, TpixelOf(pf).bytes);
  }

  lemma MonoBit(palette: seq<nat>, key: nat)
    requires |palette| == 2 && key in palette && NoRepeats(palette)
    ensures IndexOf(palette, key) == if key == palette[1] then 1 else 0
  {
  }

  class Tight {
    const z: Zlib.Codec
    var level: nat
    var streams: seq<Zlib.History>
    var pendingReset: nat
    var pixels: seq<byte>
    var keys: seq<nat>
    var palette: seq<nat>

    /** The state that outlives a piece. */
    ghost function State(): Sender
      reads this
    {
      Sender(level, streams, pendingReset)
    }

    constructor (z: Zlib.Codec, level: nat)
      ensures this.z == z && State() == Fresh(level)
    {
      this.z, this.level, streams, pendingReset := z, level, FRESH_STREAMS, 0;
      pixels, keys, palette := [], [], [];
    }

    /** Start every stream again and have the client told with the next piece. */
    method Restart(level: nat)
      modifies this
      ensures State() == Reset(level)
    {
      this.level := level;
      streams := FRESH_STREAMS;
      pendingReset := 15;
    }

    method TakeReset() returns (bits: nat)
      modifies `pendingReset
      ensures bits == old(pendingReset) && pendingReset == 0
    {
      bits := pendingReset;
      pendingReset := 0;
    }

    /** Append the rectangle, split into pieces a decoder can hold. */
    method Encode(fb: Framebuffer, rect: Rect, pf: PixelFormat, out: seq<byte>) returns (out': seq<byte>)
      requires fb.Valid() && Inside(fb.Contents(), rect) && Valid(pf) && State().Valid()
      modifies this
      ensures var w := Encoded(z, old(State()), fb.Contents(), rect, pf);
              out' == out + w.bytes && State() == w.sender
    {
      hide Owing, Inside, Valid, Encoded, Framebuffer.Contents, Framebuffer.Valid, PieceRows, ColumnsFrom, ColumnFrom;
      ghost var p, s := fb.Contents(), State();
      ghost var whole := Written(out + Encoded(z, s, p, rect, pf).bytes, Encoded(z, s, p, rect, pf).sender);
      out' := out;
      var rows := PieceRows(rect);
      AllOwed(z, p, rect, pf, out, s);
      var x := rect.x1;
      while x < rect.x2
        invariant Owing(z, p, pf, out', State(), ColumnsFrom(rect, x, rows), whole)
        decreases rect.x2 - x
      {
        var width := Min(MAX_WIDTH, rect.x2 - x);
        NextColumn(rect, x, rows);
        out' := EncodeColumn(fb, rect, x, width, rows, pf, out', whole);
        x := x + width;
      }
      NextColumn(rect, x, rows);
      NothingOwed(z, p, pf, out', State(), whole);
    }

    method EncodeColumn(fb: Framebuffer, rect: Rect, x: int, width: int, rows: int, pf: PixelFormat, out: seq<byte>, ghost whole: Written)
      returns (out': seq<byte>)
      requires fb.Valid() && Valid(pf) && rows > 0
      requires Owing(z, fb.Contents(), pf, out, State(), ColumnFrom(x, width, rect.y1, rect.y2, rows) + ColumnsFrom(rect, x + width, rows), whole)
      modifies this
      ensures Owing(z, fb.Contents(), pf, out', State(), ColumnsFrom(rect, x + width, rows), whole)
    {
      hide Owing, Inside, Valid, Framebuffer.Contents, Framebuffer.Valid, ColumnsFrom, ColumnFrom, PieceOf;
      ghost var p, right := fb.Contents(), ColumnsFrom(rect, x + width, rows);
      out' := out;
      var y := rect.y1;
      while y < rect.y2
        invariant Owing(z, p, pf, out', State(), ColumnFrom(x, width, y, rect.y2, rows) + right, whole)
        decreases rect.y2 - y
      {
        var height := Min(rows, rect.y2 - y);
        var piece := Rect(x, y, x + width, y + height);
        NextPiece(x, width, y, rect.y2, rows, right);
        FirstOwed(z, p, pf, out', State(), piece, ColumnFrom(x, width, y + height, rect.y2, rows) + right, whole);
        out' := EncodePiece(fb, piece, pf, out');
        y := y + height;
      }
      NextPiece(x, width, y, rect.y2, rows, right);
    }

    /** One piece. */
    method EncodePiece(fb: Framebuffer, piece: Rect, pf: PixelFormat, out: seq<byte>) returns (out': seq<byte>)
      requires fb.Valid() && Inside(fb.Contents(), piece) && Valid(pf) && State().Valid()
      modifies this
      ensures var w := PieceOf(z, old(State()), fb.Contents(), piece, pf);
              out' == out + w.bytes && State() == w.sender
    {
      hide Inside, Valid, Framebuffer.Contents, Framebuffer.Valid, TpixelOf, PieceKeys, AllIn, Palette, NoRepeats, PackedFrom, Compressed, AllBytes, Narrow;
      Read(fb, piece, pf);
      var bytes := TpixelOf(pf).bytes;
      var colours := CountColours();
      PaletteHolds(keys);
      if colours == 1 {
        var bits := TakeReset();
        out' := out + [FILL + bits] + KeyBytes(palette[0], bytes);
      } else if colours == 2 {
        TwoIsNarrow(palette);
        out' := Mono(piece.Width(), piece.Height(), bytes, out);
      } else if 0 < colours <= MAX_PALETTE {
        out' := Indexed(bytes, out);
      } else {
        out' := Copy(bytes, out);
      }
    }

    /** The piece's pixels as they go on the wire, and as keys to compare. */
    method Read(fb: Framebuffer, piece: Rect, pf: PixelFormat)
      requires fb.Valid() && Inside(fb.Contents(), piece) && Valid(pf)
      modifies `pixels, `keys
      ensures keys == PieceKeys(fb.Contents(), piece, pf) && pixels == AllBytes(keys, TpixelOf(pf).bytes)
    {
      hide Block, Inside, Valid, Framebuffer.Contents, TpixelOf, TpixelBytes, AllBytes, TpixelKeys;
      ghost var p := fb.Contents();
      pixels, keys := [], [];
      Beginning(p, piece, pf);
      for y := piece.y1 to piece.y2
        invariant Inside(p, Rect(piece.x1, piece.y1, piece.x2, y))
        invariant keys == TpixelKeys(Block(p, Rect(piece.x1, piece.y1, piece.x2, y)), pf)
        invariant pixels == AllBytes(keys, TpixelOf(pf).bytes)
      {
        RowIn(p, piece, y);
        var span := fb.RowSpan(piece.x1, y, piece.Width());
        ReadRow(span, pf, Block(p, Rect(piece.x1, piece.y1, piece.x2, y)));
        BlockNextRow(p, piece, y);
      }
      assert Rect(piece.x1, piece.y1, piece.x2, piece.y2) == piece;
    }

    /** One row's pixels as the client takes them, after those above it. */
    method ReadRow(span: seq<Pixel>, pf: PixelFormat, ghost above: seq<Pixel>)
      requires Valid(pf) && keys == TpixelKeys(above, pf) && pixels == AllBytes(keys, TpixelOf(pf).bytes)
      modifies `pixels, `keys
      ensures keys == TpixelKeys(above + span, pf) && pixels == AllBytes(keys, TpixelOf(pf).bytes)
    {
      hide Valid, TpixelOf, TpixelBytes, AllBytes, TpixelKeys;
      assert above + span[..0] == above;
      for x := 0 to |span|
        invariant keys == TpixelKeys(above + span[..x], pf)
        invariant pixels == AllBytes(keys, TpixelOf(pf).bytes)
      {
        OneMoreKey(above + span[..x], span[x], pf);
        assert above + span[..x + 1] == above + span[..x] + [span[x]];
        var bytes := TpixelBytes(span[x], pf);
        pixels := pixels + bytes;
        keys := keys + [LeWord(bytes)];
      }
      assert span[..|span|] == span;
    }

    /** The distinct colours, or none when there are more than a palette holds. */
    method CountColours() returns (n: nat)
      modifies `palette
      ensures palette == Palette(keys, MAX_PALETTE) && n == |palette|
    {
      palette := [];
      for i := 0 to |keys|
        invariant PaletteFrom(keys[i..], palette, MAX_PALETTE) == Palette(keys, MAX_PALETTE)
      {
        assert keys[i..][0] == keys[i] && keys[i..][1..] == keys[i + 1..];
        if keys[i] !in palette {
          if |palette| == MAX_PALETTE {
            palette := [];
            return 0;
          }
          palette := palette + [keys[i]];
        }
      }
      n := |palette|;
    }

    /** Two colours, one bit a pixel, rows padded to a byte. */
    method Mono(w: nat, h: nat, bytes: nat, out: seq<byte>) returns (out': seq<byte>)
      requires State().Valid() && |keys| == h * w && AllIn(keys, palette) && NoRepeats(palette) && |palette| == 2 && Narrow(palette, 1)
      modifies `streams, `pendingReset
      ensures var written := Basic(z, old(State()), MONO_STREAM, palette, PackedFrom(keys, w, h, 0, palette, 1), bytes);
              out' == out + written.bytes && State() == written.sender
    {
      hide AllIn, NoRepeats, Row, PackFrom, PackState, Indices, Compressed, AllBytes, Narrow;
      var body: seq<byte> := [];
      for y := 0 to h
        invariant State() == old(State())
        invariant body + PackedFrom(keys, w, h, y, palette, 1) == PackedFrom(keys, w, h, 0, palette, 1)
      {
        RowAllIn(keys, w, h, y, palette);
        IndicesFit(Row(keys, w, h, y), palette, 1);
        var row := MonoRow(Row(keys, w, h, y), palette);
        body := body + row;
      }
      assert body == PackedFrom(keys, w, h, 0, palette, 1);
      out' := WriteBasic(MONO_STREAM, bytes, body, out);
    }

    /** One row, the most significant bit first. */
    static method MonoRow(row: seq<nat>, palette: seq<nat>) returns (out: seq<byte>)
      requires AllIn(row, palette) && |palette| == 2 && NoRepeats(palette) && PackState(Indices(row, palette), 1, 0, 0)
      ensures out == PackFrom(Indices(row, palette), 1, 0, 0)
    {
      hide ShiftLeft, Or, Pow2, NoRepeats;
      ghost var indices := Indices(row, palette);
      out := [];
      var sofar: nat, used: nat := 0, 0;
      for x := 0 to |row|
        invariant PackState(indices[x..], 1, sofar, used)
        invariant out + PackFrom(indices[x..], 1, sofar, used) == PackFrom(indices, 1, 0, 0)
      {
        PackStep(indices[x..], 1, sofar, used);
        MonoBit(palette, row[x]);
        assert indices[x..][0] == indices[x] && indices[x..][1..] == indices[x + 1..];
        sofar := Or(ShiftLeft(sofar, 1), if row[x] == palette[1] then 1 else 0);
        used := used + 1;
        if used == 8 {
          out := out + [sofar];
          sofar, used := 0, 0;
        }
      }
      if used > 0 {
        PackPadded(sofar, used);
        out := out + [ShiftLeft(sofar, 8 - used)];
      }
    }

    /** Up to 256 colours, one byte a pixel. */
    method Indexed(bytes: nat, out: seq<byte>) returns (out': seq<byte>)
      requires State().Valid() && AllIn(keys, palette) && 0 < |palette| <= MAX_PALETTE
      modifies `streams, `pendingReset
      ensures var written := Basic(z, old(State()), PALETTE_STREAM, palette, IndexBytes(keys, palette), bytes);
              out' == out + written.bytes && State() == written.sender
    {
      hide Compressed, AllBytes;
      var body: seq<byte> := [];
      for i := 0 to |keys|
        invariant State() == old(State()) && body == IndexBytes(keys, palette)[..i]
      {
        body := body + [IndexOf(palette, keys[i])];
      }
      assert body == IndexBytes(keys, palette);
      out' := WriteBasic(PALETTE_STREAM, bytes, body, out);
    }

    /** The pixels as they are, deflated. */
    method Copy(bytes: nat, out: seq<byte>) returns (out': seq<byte>)
      requires State().Valid() && pixels == AllBytes(keys, bytes)
      modifies `streams, `pendingReset
      ensures var data := Compressed(z, old(State()).(pending := 0), COPY_STREAM, AllBytes(keys, bytes));
              out' == out + ([EXPLICIT_FILTER + 16 * COPY_STREAM + old(pendingReset), FILTER_COPY] + data.bytes) && State() == data.sender
    {
      hide AllBytes;
      var bits := TakeReset();
      out' := out + [EXPLICIT_FILTER + 16 * COPY_STREAM + bits, FILTER_COPY];
      out' := Compress(COPY_STREAM, pixels, out');
    }

    /** The control byte, the filter, the palette, then the data. */
    method WriteBasic(id: nat, bytes: nat, body: seq<byte>, out: seq<byte>) returns (out': seq<byte>)
      requires State().Valid() && id < STREAMS && 0 < |palette| <= MAX_PALETTE
      modifies `streams, `pendingReset
      ensures var written := Basic(z, old(State()), id, palette, body, bytes);
              out' == out + written.bytes && State() == written.sender
    {
      hide KeyBytes, Compressed;
      var bits := TakeReset();
      out' := out + [EXPLICIT_FILTER + 16 * id + bits, FILTER_PALETTE, |palette| - 1];
      ghost var start := out';
      for i := 0 to |palette|
        invariant State() == old(State()).(pending := 0)
        invariant out' + AllBytes(palette[i..], bytes) == start + AllBytes(palette, bytes)
      {
        assert palette[i..][0] == palette[i] && palette[i..][1..] == palette[i + 1..];
        out' := out' + KeyBytes(palette[i], bytes);
      }
      assert palette[|palette|..] == [] && out' == start + AllBytes(palette, bytes);
      ghost var data := Compressed(z, State(), id, body).bytes;
      out' := Compress(id, body, out');
      assert out' == out + ([EXPLICIT_FILTER + 16 * id + bits, FILTER_PALETTE, |palette| - 1] + AllBytes(palette, bytes) + data);
    }

    /** Deflate on the piece's own stream, with a length in front, unless too short. */
    method Compress(id: nat, body: seq<byte>, out: seq<byte>) returns (out': seq<byte>)
      requires State().Valid() && id < STREAMS
      modifies `streams
      ensures var w := Compressed(z, old(State()), id, body);
              out' == out + w.bytes && State() == w.sender
    {
      hide CompactBytes;
      if |body| < MIN_TO_COMPRESS {
        return out + body;
      }
      var packed := z.deflate(level, streams[id], body);
      streams := streams[id := streams[id] + [body]];
      out' := PushCompact(out, |packed|);
      out' := out' + packed;
    }

    static method PushCompact(out: seq<byte>, length: nat) returns (out': seq<byte>)
      ensures out' == out + CompactBytes(length)
    {
      var left := length;
      out' := out + [left % 128 + (if left > 127 then 128 else 0)];
      if left > 127 {
        left := left / 128;
        out' := out' + [left % 128 + (if left > 127 then 128 else 0)];
        if left > 127 {
          out' := out' + [left / 128 % 256];
        }
      }
    }
  }

  lemma Beginning(p: Picture, piece: Rect, pf: PixelFormat)
    requires Inside(p, piece)
    ensures Inside(p, Rect(piece.x1, piece.y1, piece.x2, piece.y1)) && piece.y1 <= piece.y2
    ensures TpixelKeys(Block(p, Rect(piece.x1, piece.y1, piece.x2, piece.y1)), pf) == []
    ensures AllBytes([], TpixelOf(pf).bytes) == []
  {
  }
}
