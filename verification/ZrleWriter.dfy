/** The ZRLE encoder as it runs: tiles gathered, costed and written in loops,
    then the rectangle through the session's one stream. */
module ZrleWriter {
  import opened Geometry
  import opened Arithmetic
  import opened Bits
  import opened Pictures
  import opened Framebuffers
  import opened PixelFormats
  import opened Blocks
  import opened Tilings
  import opened Cpixels
  import opened Palettes
  import opened PackedRows
  import opened Zrles
  import opened ZrleEncoder
  import opened ZrlePictures
  import Zlib

  // ---- What each loop adds ----

  /** The plain bytes so far, and those of the tiles still to come, make the whole. */
  ghost predicate Owing(p: Picture, pf: PixelFormat, plain: seq<byte>, tiles: seq<Rect>, whole: seq<byte>)
    requires Valid(pf)
  {
    TilesIn(p, tiles) && plain + TilesBytes(p, tiles, pf) == whole
  }

  lemma AllOwed(p: Picture, rect: Rect, pf: PixelFormat)
    requires Inside(p, rect) && Valid(pf)
    ensures Owing(p, pf, [], TilesFrom(rect, rect.y1, TILE), Plain(p, rect, pf))
  {
    hide TilesBytes, TilesFrom, TilesIn, Valid;
    RectTilesIn(p, rect);
    assert [] + Plain(p, rect, pf) == Plain(p, rect, pf);
  }

  lemma NothingOwed(p: Picture, pf: PixelFormat, plain: seq<byte>, rect: Rect, y: int, whole: seq<byte>)
    requires Valid(pf) && y >= rect.y2 && Owing(p, pf, plain, TilesFrom(rect, y, TILE), whole)
    ensures plain == whole
  {
    hide Valid;
  }

  lemma FirstOwed(p: Picture, pf: PixelFormat, plain: seq<byte>, t: Rect, rest: seq<Rect>, whole: seq<byte>)
    requires Valid(pf) && Owing(p, pf, plain, [t] + rest, whole)
    ensures Inside(p, t) && Owing(p, pf, plain + TileBytes(p, t, pf), rest, whole)
  {
    hide Valid, TileBytes, Inside;
    var tiles := [t] + rest;
    assert tiles[0] == t && tiles[1..] == rest;
    assert plain + TilesBytes(p, tiles, pf) == (plain + TileBytes(p, t, pf)) + TilesBytes(p, rest, pf);
  }

  lemma TileBytesAre(p: Picture, t: Rect, pf: PixelFormat)
    requires Inside(p, t) && Valid(pf)
    ensures TileBytes(p, t, pf) == TileCode(TileKeys(p, t, pf), t.Width(), t.Height(), CpixelOf(pf).bytes)
  {
  }

  lemma ReadStart(p: Picture, tile: Rect, pf: PixelFormat)
    requires Inside(p, tile)
    ensures Inside(p, Rect(tile.x1, tile.y1, tile.x2, tile.y1)) && tile.y1 <= tile.y2
    ensures ConvertAll(Block(p, Rect(tile.x1, tile.y1, tile.x2, tile.y1)), pf) == []
  {
  }

  lemma FullSize(pf: PixelFormat)
    requires Valid(pf)
    ensures CpixelOf(pf).full == pf.BytesPerPixel() > 0
  {
  }

  lemma KeyOfKept(px: Pixel, pf: PixelFormat)
    requires Valid(pf)
    ensures |Convert(px, pf)| == CpixelOf(pf).full && Sane(CpixelOf(pf))
    ensures CpixelKey(px, pf) == LeWord(Kept(Convert(px, pf), CpixelOf(pf)))
  {
    hide Convert, CpixelOf, Kept;
    CpixelSane(pf);
    FullSize(pf);
    ConvertSize(px, pf);
  }

  // ---- The encoder ----

  class Zrle {
    const z: Zlib.Codec
    var history: Zlib.History
    var level: nat
    var plain: seq<byte>
    var keys: seq<nat>
    var palette: seq<nat>
    var runs: seq<Run>

    constructor (z: Zlib.Codec, level: nat)
      ensures this.z == z && this.level == level && history == []
    {
      this.z, this.level, history := z, level, [];
      plain, keys, palette, runs := [], [], [], [];
    }

    /** Start the stream again. */
    method Reset(level: nat)
      modifies this
      ensures this.level == level && history == []
    {
      this.level, history := level, [];
    }

    /** Append the rectangle: a length, then the deflated tiles. */
    method Encode(fb: Framebuffer, rect: Rect, pf: PixelFormat, out: seq<byte>) returns (out': seq<byte>)
      requires fb.Valid() && Inside(fb.Contents(), rect) && Valid(pf)
      modifies this
      ensures out' == out + Payload(z, level, old(history), fb.Contents(), rect, pf)
      ensures history == old(history) + [Plain(fb.Contents(), rect, pf)] && level == old(level)
    {
      hide Valid, Inside, TilesFrom, RowOfTiles, Owing, Plain, Framebuffer.Contents, Framebuffer.Valid, BeBytes;
      ghost var p, whole := fb.Contents(), Plain(fb.Contents(), rect, pf);
      plain := [];
      AllOwed(p, rect, pf);
      var y := rect.y1;
      while y < rect.y2
        invariant Owing(p, pf, plain, TilesFrom(rect, y, TILE), whole)
        invariant history == old(history) && level == old(level)
        decreases rect.y2 - y
      {
        EncodeRow(fb, rect, y, pf, whole);
        y := y + TILE;
      }
      NothingOwed(p, pf, plain, rect, y, whole);
      var at := |out|;
      out' := out + [0, 0, 0, 0];
      var packed := z.deflate(level, history, plain);
      history := history + [plain];
      out' := out' + packed;
      var length := |out'| - at - 4;
      out' := out'[..at] + BeBytes(length, 4) + out'[at + 4..];
      assert out' == out + (BeBytes(|packed|, 4) + packed);
    }

    /** One row of tiles. */
    method EncodeRow(fb: Framebuffer, rect: Rect, y: int, pf: PixelFormat, ghost whole: seq<byte>)
      requires fb.Valid() && Valid(pf) && y < rect.y2
      requires Owing(fb.Contents(), pf, plain, TilesFrom(rect, y, TILE), whole)
      modifies this
      ensures Owing(fb.Contents(), pf, plain, TilesFrom(rect, y + TILE, TILE), whole)
      ensures history == old(history) && level == old(level)
    {
      hide Valid, Inside, TilesFrom, RowOfTiles, Owing, Framebuffer.Contents, Framebuffer.Valid, CpixelOf, TileCode, TileBytes, TileKeys;
      ghost var p, below := fb.Contents(), TilesFrom(rect, y + TILE, TILE);
      var x := rect.x1;
      FirstRow(rect, y, TILE);
      while x < rect.x2
        invariant Owing(p, pf, plain, RowOfTiles(rect, x, y, TILE) + below, whole)
        invariant history == old(history) && level == old(level)
        decreases rect.x2 - x
      {
        var tile := Rect(x, y, x + Min(TILE, rect.x2 - x), y + Min(TILE, rect.y2 - y));
        NextInRow(rect, x, y, below, TILE);
        FirstOwed(p, pf, plain, tile, RowOfTiles(rect, x + TILE, y, TILE) + below, whole);
        TileBytesAre(p, tile, pf);
        Read(fb, tile, pf);
        EncodeTile(tile.Width(), tile.Height(), CpixelOf(pf).bytes);
        x := x + TILE;
      }
      NextInRow(rect, x, y, below, TILE);
    }

    /** One tile's pixels, converted, as keys. */
    method Read(fb: Framebuffer, tile: Rect, pf: PixelFormat)
      requires fb.Valid() && Inside(fb.Contents(), tile) && Valid(pf)
      modifies `keys
      ensures keys == TileKeys(fb.Contents(), tile, pf)
    {
      hide Block, Valid, PixelFormat.BytesPerPixel, Inside, Convert, CpixelKey, ConvertAll, Framebuffer.Contents, CpixelOf;
      ghost var p := fb.Contents();
      var bytes: seq<byte> := [];
      ReadStart(p, tile, pf);
      for row := tile.y1 to tile.y2
        invariant Inside(p, Rect(tile.x1, tile.y1, tile.x2, row))
        invariant bytes == ConvertAll(Block(p, Rect(tile.x1, tile.y1, tile.x2, row)), pf)
      {
        RowIn(p, tile, row);
        var span := fb.RowSpan(tile.x1, row, tile.Width());
        bytes := ConvertRow(span, pf, bytes);
        BlockNextRow(p, tile, row);
        ConvertAllJoin(Block(p, Rect(tile.x1, tile.y1, tile.x2, row)), span, pf);
      }
      assert Rect(tile.x1, tile.y1, tile.x2, tile.y2) == tile;
      keys := ChunkKeys(bytes, pf, Block(p, tile));
    }

    /** The bytes a pixel at a time, the kept ones of each as a number. */
    static method ChunkKeys(bytes: seq<byte>, pf: PixelFormat, ghost pixels: seq<Pixel>) returns (keys: seq<nat>)
      requires Valid(pf) && bytes == ConvertAll(pixels, pf)
      ensures keys == CpixelKeys(pixels, pf)
    {
      hide Valid, Convert, ConvertAll, CpixelOf, Kept, CpixelKey;
      CpixelSane(pf);
      FullSize(pf);
      var c := CpixelOf(pf);
      keys := [];
      var at := 0;
      ghost var n := 0;
      ConvertAllSize(pixels, pf);
      while at + c.full <= |bytes|
        invariant n <= |pixels| && at == n * c.full && keys == CpixelKeys(pixels, pf)[..n]
      {
        Distributes(n, c.full);
        MulCancel(n, |pixels|, c.full);
        ConvertedAt(pixels, pf, n);
        var px := bytes[at..at + c.full];
        KeyOfKept(pixels[n], pf);
        keys := keys + [LeWord(Kept(px, c))];
        at := at + c.full;
        n := n + 1;
      }
      Distributes(n, c.full);
      MulCancel(|pixels|, n + 1, c.full);
    }

    /** Describe the tile now in `keys` in whichever way comes out smallest. */
    method EncodeTile(w: nat, h: nat, bytes: nat)
      requires |keys| == h * w
      modifies `palette, `runs, `plain
      ensures plain == old(plain) + TileCode(keys, w, h, bytes)
    {
      hide Palette, Runs, AllIn, RunsIn, RunsWhole, PackedCode, PaletteRleCode, PlainRleCode, AllBytes, PackedBytes, PaletteRunsCost, PlainRunsCost;
      Gather();
      TileParts(keys);
      if |palette| == 1 {
        plain := plain + [SOLID] + KeyBytes(palette[0], bytes);
        return;
      }
      var way := Choose(w, h, bytes, |palette|, runs);
      match way
      case Raw =>
        var all := PushAll(keys, bytes);
        plain := plain + [RAW] + all;
      case Packed => WritePacked(w, h, bytes);
      case PaletteRle => WritePaletteRle(bytes);
      case PlainRle => WritePlainRle(bytes);
    }

    /** Every way costed, and the cheapest. */
    static method Choose(w: nat, h: nat, bytes: nat, palette: nat, runs: seq<Run>) returns (way: Way)
      requires RunsWhole(runs)
      ensures way == Cheapest(w, h, bytes, palette, runs)
    {
      var raw := w * h * bytes;
      var packed := if 2 <= palette <= PACKED_MAX then Some(palette * bytes + PackedBytes(w, h, palette)) else None;
      var paletteRuns, plainRuns := 0, 0;
      for i := 0 to |runs|
        invariant paletteRuns + PaletteRunsCost(runs[i..]) == PaletteRunsCost(runs)
        invariant plainRuns + PlainRunsCost(runs[i..], bytes) == PlainRunsCost(runs, bytes)
      {
        assert runs[i..][0] == runs[i] && runs[i..][1..] == runs[i + 1..];
        paletteRuns := paletteRuns + 1 + (if runs[i].length > 1 then LengthBytes(runs[i].length) else 0);
        plainRuns := plainRuns + bytes + LengthBytes(runs[i].length);
      }
      var paletteRle := if 2 <= palette <= MAX_PALETTE then Some(palette * bytes + paletteRuns) else None;
      way := Raw;
      var best := raw;
      if packed.Some? && packed.value < best { way, best := Packed, packed.value; }
      if paletteRle.Some? && paletteRle.value < best { way, best := PaletteRle, paletteRle.value; }
      if plainRuns < best { way := PlainRle; }
    }

    static method PushAll(keys: seq<nat>, bytes: nat) returns (out: seq<byte>)
      ensures out == AllBytes(keys, bytes)
    {
      hide KeyBytes;
      out := [];
      for i := 0 to |keys|
        invariant out + AllBytes(keys[i..], bytes) == AllBytes(keys, bytes)
      {
        assert keys[i..][0] == keys[i] && keys[i..][1..] == keys[i + 1..];
        out := out + KeyBytes(keys[i], bytes);
      }
    }

    /** The tile's colours, in first-seen order, and its runs. */
    method Gather()
      modifies `palette, `runs
      ensures palette == Palette(keys, MAX_PALETTE) && runs == Runs(keys)
    {
      palette, runs := [], [];
      var over := false;
      for i := 0 to |keys|
        invariant RunsFrom(keys[i..], runs) == Runs(keys)
        invariant over ==> palette == [] == Palette(keys, MAX_PALETTE)
        invariant !over ==> PaletteFrom(keys[i..], palette, MAX_PALETTE) == Palette(keys, MAX_PALETTE)
      {
        var key, n := keys[i], |runs|;
        assert keys[i..][0] == key && keys[i..][1..] == keys[i + 1..];
        if n > 0 && runs[n - 1].colour == key {
          runs := runs[n - 1 := Run(key, runs[n - 1].length + 1)];
        } else {
          runs := runs + [Run(key, 1)];
        }
        if !over && key !in palette {
          if |palette| == MAX_PALETTE {
            over, palette := true, [];
          } else {
            palette := palette + [key];
          }
        }
      }
    }

    method WritePacked(w: nat, h: nat, bytes: nat)
      requires |keys| == h * w && AllIn(keys, palette) && |palette| <= PACKED_MAX
      modifies `plain
      ensures plain == old(plain) + PackedCode(keys, w, h, palette, bytes)
    {
      hide Row, AllIn, Indices, PackFrom, PackState, AllBytes, PaletteBits;
      BitsEnough(palette);
      var bits := PaletteBits(|palette|);
      var names := PushAll(palette, bytes);
      plain := plain + [|palette|] + names;
      ghost var start := plain;
      for y := 0 to h
        invariant plain + PackedFrom(keys, w, h, y, palette, bits) == start + PackedFrom(keys, w, h, 0, palette, bits)
      {
        RowAllIn(keys, w, h, y, palette);
        IndicesFit(Row(keys, w, h, y), palette, bits);
        var packed := PackRow(Row(keys, w, h, y), palette, bits);
        plain := plain + packed;
      }
      assert start + PackedFrom(keys, w, h, 0, palette, bits) == old(plain) + PackedCode(keys, w, h, palette, bytes);
    }

    /** One row, an index shifted in at a time and a byte out as it fills. */
    static method PackRow(row: seq<nat>, palette: seq<nat>, bits: nat) returns (out: seq<byte>)
      requires AllIn(row, palette) && PackState(Indices(row, palette), bits, 0, 0)
      ensures out == PackFrom(Indices(row, palette), bits, 0, 0)
    {
      hide ShiftLeft, Or, Pow2;
      ghost var indices := Indices(row, palette);
      out := [];
      var byte_: nat, used: nat := 0, 0;
      for x := 0 to |row|
        invariant PackState(indices[x..], bits, byte_, used)
        invariant out + PackFrom(indices[x..], bits, byte_, used) == PackFrom(indices, bits, 0, 0)
      {
        PackStep(indices[x..], bits, byte_, used);
        assert indices[x..][0] == indices[x] && indices[x..][1..] == indices[x + 1..];
        var index := IndexOf(palette, row[x]);
        byte_ := Or(ShiftLeft(byte_, bits), index);
        used := used + bits;
        if used == 8 {
          out := out + [byte_];
          byte_, used := 0, 0;
        }
      }
      if used > 0 {
        PackPadded(byte_, used);
        out := out + [ShiftLeft(byte_, 8 - used)];
      }
    }

    method WritePaletteRle(bytes: nat)
      requires RunsIn(runs, palette) && |palette| <= MAX_PALETTE
      modifies `plain
      ensures plain == old(plain) + PaletteRleCode(runs, palette, bytes)
    {
      hide AllBytes, PaletteRun;
      var names := PushAll(palette, bytes);
      plain := plain + [RLE_BASE + |palette|] + names;
      ghost var start := plain;
      for i := 0 to |runs|
        invariant plain + PaletteRuns(runs[i..], palette) == start + PaletteRuns(runs, palette)
      {
        assert runs[i..][0] == runs[i] && runs[i..][1..] == runs[i + 1..];
        var run := RunCode(runs[i], palette);
        plain := plain + run;
      }
      assert start + PaletteRuns(runs, palette) == old(plain) + PaletteRleCode(runs, palette, bytes);
    }

    static method RunCode(run: Run, palette: seq<nat>) returns (out: seq<byte>)
      requires run.length > 0 && run.colour in palette && |palette| <= MAX_PALETTE
      ensures out == PaletteRun(run, palette)
    {
      hide LengthCode;
      var index := IndexOf(palette, run.colour);
      if run.length == 1 {
        out := [index];
      } else {
        var code := PushLength(run.length);
        out := [index + 128] + code;
      }
    }

    method WritePlainRle(bytes: nat)
      requires RunsWhole(runs)
      modifies `plain
      ensures plain == old(plain) + PlainRleCode(runs, bytes)
    {
      hide KeyBytes, LengthCode;
      plain := plain + [PLAIN_RLE];
      ghost var start := plain;
      for i := 0 to |runs|
        invariant plain + PlainRuns(runs[i..], bytes) == start + PlainRuns(runs, bytes)
      {
        assert runs[i..][0] == runs[i] && runs[i..][1..] == runs[i + 1..];
        var code := PushLength(runs[i].length);
        plain := plain + KeyBytes(runs[i].colour, bytes) + code;
      }
      assert start + PlainRuns(runs, bytes) == old(plain) + PlainRleCode(runs, bytes);
    }

    /** A byte of 255 for every whole 255, and one for what is left. */
    static method PushLength(length: nat) returns (out: seq<byte>)
      requires length > 0
      ensures out == LengthCode(length)
    {
      out := [];
      var left := length - 1;
      while left >= 255
        invariant out + LengthCode(left + 1) == LengthCode(length)
      {
        out := out + [255];
        left := left - 255;
      }
      out := out + [left];
    }
  }
}
