/** The ZRLE decoder as it runs: one inflater and one palette for the session,
    tile by tile into a framebuffer. */
module ZrleClient {
  import opened Geometry
  import opened Arithmetic
  import opened Bits
  import opened Pictures
  import opened Framebuffers
  import opened PixelFormats
  import opened Blocks
  import opened Tilings
  import opened Readers
  import opened Cpixels
  import opened Zrles
  import opened ZrleDecoder
  import opened ZrlePictures
  import opened PackedRows
  import opened Painting
  import Zlib

  /** Read and lay one tile after another. */
  datatype Painted = Painted(picture: Picture, palette: seq<Pixel>)

  ghost function DecodeTiles(s: seq<byte>, tiles: seq<Rect>, l: Layout, palette: seq<Pixel>, q: Picture): (r: Read<Painted>)
    requires Sane(l.c) && q.Valid()
    ensures r.Got? ==> r.value.picture.Valid() && r.value.picture.SameSize(q)
    decreases |tiles|
  {
    if tiles == [] then Got(Painted(q, palette), s)
    else
      var t :- ReadTile(s, tiles[0].Width(), tiles[0].Height(), l, palette);
      DecodeTiles(t.rest, tiles[1..], l, t.value.palette, Lay(q, tiles[0], t.value.pixels))
  }

  /** Laying while reading is reading, then laying. */
  lemma {:induction false} DecodeIsLay(s: seq<byte>, tiles: seq<Rect>, l: Layout, palette: seq<Pixel>, q: Picture)
    requires Sane(l.c) && q.Valid()
    ensures var read, done := ReadTiles(s, tiles, l, palette), DecodeTiles(s, tiles, l, palette, q);
            if read.Got? then done == Got(Painted(LayAll(q, tiles, read.value.blocks), read.value.palette), read.rest)
            else done == read.PropagateFailure()
    decreases |tiles|
  {
    hide ReadTile, Lay, Sane;
    if tiles != [] {
      var t := ReadTile(s, tiles[0].Width(), tiles[0].Height(), l, palette);
      if t.Got? {
        DecodeIsLay(t.rest, tiles[1..], l, t.value.palette, Lay(q, tiles[0], t.value.pixels));
      }
    }
  }

  lemma NextDecoded(s: seq<byte>, t: Rect, rest: seq<Rect>, l: Layout, palette: seq<Pixel>, q: Picture)
    requires Sane(l.c) && q.Valid()
    ensures var read := ReadTile(s, t.Width(), t.Height(), l, palette);
            DecodeTiles(s, [t] + rest, l, palette, q) ==
            if read.Got? then DecodeTiles(read.rest, rest, l, read.value.palette, Lay(q, t, read.value.pixels))
            else read.PropagateFailure()
  {
    hide ReadTile, Lay, Sane;
    var tiles := [t] + rest;
    assert tiles[0] == t && tiles[1..] == rest;
  }

  lemma NoneLeft(s: seq<byte>, rect: Rect, y: int, l: Layout, palette: seq<Pixel>, q: Picture)
    requires Sane(l.c) && q.Valid() && y >= rect.y2
    ensures DecodeTiles(s, TilesFrom(rect, y, TILE), l, palette, q) == Got(Painted(q, palette), s)
  {
  }

  /** A tile of the rectangle, over a picture of the same size. */
  lemma TileIn(p: Picture, q: Picture, rect: Rect, t: Rect)
    requires SameOutside(q, p, rect) && Inside(q, rect)
    requires rect.x1 <= t.x1 < t.x2 <= rect.x2 && rect.y1 <= t.y1 < t.y2 <= rect.y2
    ensures Inside(p, t)
  {
  }

  // ---- The parts of a tile ----

  method NextCpixel(reader: Reader, l: Layout) returns (r: Result<Pixel>)
    requires reader.Valid() && Sane(l.c)
    modifies reader
    ensures reader.Valid() && r == ResultOf(ReadCpixel(old(reader.Rest()), l))
    ensures r.Ok? ==> reader.Rest() == ReadCpixel(old(reader.Rest()), l).rest
  {
    hide Widened, Take, Sane;
    var bs := reader.NextBytes(l.c.bytes);
    if bs.Err? { return Err(bs.error); }
    return Ok(Widened(bs.value, l));
  }

  /** Bytes of 255 that add up, then one below. */
  method NextLength(reader: Reader) returns (r: Result<nat>)
    requires reader.Valid()
    modifies reader
    ensures reader.Valid() && r == ResultOf(ReadLength(old(reader.Rest())))
    ensures r.Ok? ==> reader.Rest() == ReadLength(old(reader.Rest())).rest
  {
    hide Byte;
    ghost var whole := ReadLength(reader.Rest());
    var total := 1;
    while true
      invariant reader.Valid() && total > 0
      invariant var more := ReadTotal(reader.Rest());
                if more.Got? then whole == Got(total + more.value, more.rest) else whole == more
      decreases |reader.Rest()|
    {
      ByteShorter(reader.Rest());
      var b := reader.NextByte();
      if b.Err? { return Err(b.error); }
      total := total + b.value;
      if b.value != 255 { return Ok(total); }
    }
  }

  lemma ByteShorter(s: seq<byte>)
    ensures Byte(s).Got? ==> |Byte(s).rest| < |s|
  {
  }

  lemma CpixelsStep(s: seq<byte>, n: nat, l: Layout, done: seq<Pixel>)
    requires Sane(l.c)
    ensures Prepend(done, ReadCpixels(s, n, l)) ==
            if n == 0 then Got(done, s)
            else
              var px := ReadCpixel(s, l);
              if px.IsFailure() then px.PropagateFailure() else Prepend(done + [px.value], ReadCpixels(px.rest, n - 1, l))
  {
    hide ReadCpixel, Sane;
    assert done + [] == done;
    if n > 0 && ReadCpixel(s, l).Got? {
      PrependMore(done, [ReadCpixel(s, l).value], ReadCpixels(ReadCpixel(s, l).rest, n - 1, l));
    }
  }

  /** A palette. */
  method NextColours(reader: Reader, n: nat, l: Layout) returns (r: Result<seq<Pixel>>)
    requires reader.Valid() && Sane(l.c)
    modifies reader
    ensures reader.Valid() && r == ResultOf(ReadCpixels(old(reader.Rest()), n, l))
    ensures r.Ok? ==> reader.Rest() == ReadCpixels(old(reader.Rest()), n, l).rest
  {
    hide ReadCpixel, ReadCpixels, Sane;
    ghost var whole := ReadCpixels(reader.Rest(), n, l);
    var colours := [];
    PrependNone(whole);
    for i := 0 to n
      invariant reader.Valid() && Prepend(colours, ReadCpixels(reader.Rest(), n - i, l)) == whole
    {
      CpixelsStep(reader.Rest(), n - i, l, colours);
      var px := NextCpixel(reader, l);
      if px.Err? { return Err(px.error); }
      colours := colours + [px.value];
    }
    CpixelsStep(reader.Rest(), 0, l, colours);
    r := Ok(colours);
  }

  /** Every pixel as it is. */
  method PaintRaw(reader: Reader, t: Rect, l: Layout, fb: Framebuffer) returns (r: Result<()>)
    requires reader.Valid() && fb.Valid() && Inside(fb.Contents(), t) && Sane(l.c)
    modifies reader, fb.data
    ensures reader.Valid()
    ensures PaintDone(ReadCpixels(old(reader.Rest()), t.Width() * t.Height(), l), t, old(fb.Contents()), fb.Contents(), reader.Rest(), r)
  {
    hide ReadCpixel, ReadCpixels, Sane, Lay, SameOutside, Inside, Framebuffer.Contents;
    var n := t.Width() * t.Height();
    ghost var q, whole, done: seq<Pixel> := fb.Contents(), ReadCpixels(reader.Rest(), n, l), [];
    NothingLaid(q, t);
    PrependNone(whole);
    for i := 0 to n
      invariant reader.Valid() && fb.Valid() && |done| == i && fb.Contents() == Lay(q, t, done)
      invariant Prepend(done, ReadCpixels(reader.Rest(), n - i, l)) == whole
    {
      CpixelsStep(reader.Rest(), n - i, l, done);
      LaidOutside(q, t, done);
      var px := NextCpixel(reader, l);
      if px.Err? { return Err(px.error); }
      PutNext(fb, t, i, px.value, q, done);
      done := done + [px.value];
    }
    CpixelsStep(reader.Rest(), 0, l, done);
    r := Ok(());
  }

  lemma PlainRunsStep(s: seq<byte>, left: nat, l: Layout, done: seq<Pixel>)
    requires Sane(l.c)
    ensures Prepend(done, ReadPlainRuns(s, left, l)) ==
            if left == 0 then Got(done, s)
            else
              var px := ReadCpixel(s, l);
              if px.IsFailure() then px.PropagateFailure()
              else
                var run := ReadLength(px.rest);
                if run.IsFailure() then run.PropagateFailure()
                else
                  var n := Min(run.value, left);
                  Prepend(done + Uniform(px.value, n), ReadPlainRuns(run.rest, left - n, l))
  {
    hide ReadCpixel, ReadLength, Sane;
    assert done + [] == done;
    if left > 0 && ReadCpixel(s, l).Got? && ReadLength(ReadCpixel(s, l).rest).Got? {
      var run := ReadLength(ReadCpixel(s, l).rest);
      var n := Min(run.value, left);
      PrependMore(done, Uniform(ReadCpixel(s, l).value, n), ReadPlainRuns(run.rest, left - n, l));
    }
  }

  /** Colours and their runs until the tile is full. */
  method PaintPlainRuns(reader: Reader, t: Rect, l: Layout, fb: Framebuffer) returns (r: Result<()>)
    requires reader.Valid() && fb.Valid() && Inside(fb.Contents(), t) && Sane(l.c)
    modifies reader, fb.data
    ensures reader.Valid()
    ensures PaintDone(ReadPlainRuns(old(reader.Rest()), t.Width() * t.Height(), l), t, old(fb.Contents()), fb.Contents(), reader.Rest(), r)
  {
    hide ReadCpixel, ReadLength, ReadPlainRuns, Sane, Lay, SameOutside, Inside, Framebuffer.Contents;
    var pixels := t.Width() * t.Height();
    ghost var q, whole, done: seq<Pixel> := fb.Contents(), ReadPlainRuns(reader.Rest(), pixels, l), [];
    NothingLaid(q, t);
    PrependNone(whole);
    var at := 0;
    while at < pixels
      invariant at <= pixels && reader.Valid() && fb.Valid() && |done| == at && fb.Contents() == Lay(q, t, done)
      invariant Prepend(done, ReadPlainRuns(reader.Rest(), pixels - at, l)) == whole
    {
      PlainRunsStep(reader.Rest(), pixels - at, l, done);
      LaidOutside(q, t, done);
      var px := NextCpixel(reader, l);
      if px.Err? { return Err(px.error); }
      var run := NextLength(reader);
      if run.Err? { return Err(run.error); }
      var n := Min(run.value, pixels - at);
      PutRun(fb, t, at, n, px.value, q, done);
      done := done + Uniform(px.value, n);
      at := at + n;
    }
    PlainRunsStep(reader.Rest(), 0, l, done);
    r := Ok(());
  }

  lemma PaletteRunsStep(s: seq<byte>, left: nat, palette: seq<Pixel>, done: seq<Pixel>)
    ensures Prepend(done, ReadPaletteRuns(s, left, palette)) ==
            if left == 0 then Got(done, s)
            else
              var index := Byte(s);
              if index.IsFailure() then index.PropagateFailure()
              else
                var run := if index.value >= 128 then ReadLength(index.rest) else Got(1, index.rest);
                if run.IsFailure() then run.PropagateFailure()
                else if index.value % 128 >= |palette| then Malformed
                else
                  var n := Min(run.value, left);
                  Prepend(done + Uniform(palette[index.value % 128], n), ReadPaletteRuns(run.rest, left - n, palette))
  {
    hide Byte, ReadLength;
    assert done + [] == done;
    if left > 0 && Byte(s).Got? {
      var index := Byte(s);
      var run := if index.value >= 128 then ReadLength(index.rest) else Got(1, index.rest);
      if run.Got? && index.value % 128 < |palette| {
        var n := Min(run.value, left);
        PrependMore(done, Uniform(palette[index.value % 128], n), ReadPaletteRuns(run.rest, left - n, palette));
      }
    }
  }

  /** Indices and their runs until the tile is full. */
  method PaintPaletteRuns(reader: Reader, t: Rect, palette: seq<Pixel>, fb: Framebuffer) returns (r: Result<()>)
    requires reader.Valid() && fb.Valid() && Inside(fb.Contents(), t)
    modifies reader, fb.data
    ensures reader.Valid()
    ensures PaintDone(ReadPaletteRuns(old(reader.Rest()), t.Width() * t.Height(), palette), t, old(fb.Contents()), fb.Contents(), reader.Rest(), r)
  {
    hide Byte, ReadLength, ReadPaletteRuns, Lay, SameOutside, Inside, Framebuffer.Contents;
    var pixels := t.Width() * t.Height();
    ghost var q, whole, done: seq<Pixel> := fb.Contents(), ReadPaletteRuns(reader.Rest(), pixels, palette), [];
    NothingLaid(q, t);
    PrependNone(whole);
    var at := 0;
    while at < pixels
      invariant at <= pixels && reader.Valid() && fb.Valid() && |done| == at && fb.Contents() == Lay(q, t, done)
      invariant Prepend(done, ReadPaletteRuns(reader.Rest(), pixels - at, palette)) == whole
    {
      PaletteRunsStep(reader.Rest(), pixels - at, palette, done);
      LaidOutside(q, t, done);
      var index := reader.NextByte();
      if index.Err? { return Err(index.error); }
      var run := 1;
      if index.value >= 128 {
        var length := NextLength(reader);
        if length.Err? { return Err(length.error); }
        run := length.value;
      }
      if index.value % 128 >= |palette| { return Err(Bad); }
      var n := Min(run, pixels - at);
      PutRun(fb, t, at, n, palette[index.value % 128], q, done);
      done := done + Uniform(palette[index.value % 128], n);
      at := at + n;
    }
    PaletteRunsStep(reader.Rest(), 0, palette, done);
    r := Ok(());
  }

  /** What one tile leaves. */
  ghost predicate TileDone(read: Read<Told>, t: Rect, before: Picture, after: Picture, palette: seq<Pixel>, rest: seq<byte>, r: Result<()>)
    requires before.Valid()
  {
    && after.Valid()
    && if read.Got? then r == Ok(()) && after == Lay(before, t, read.value.pixels) && palette == read.value.palette && rest == read.rest
       else r == ResultOf(read.PropagateFailure<()>()) && SameOutside(before, after, t)
  }

  /** Read or not, a tile touches nothing else. */
  lemma TileOutside(read: Read<Told>, t: Rect, before: Picture, after: Picture, palette: seq<Pixel>, rest: seq<byte>, r: Result<()>)
    requires before.Valid() && TileDone(read, t, before, after, palette, rest, r)
    ensures SameOutside(before, after, t)
  {
    hide Lay, SameOutside;
    if read.Got? {
      LaidOutside(before, t, read.value.pixels);
    }
  }

  // ---- The decoder ----

  class ZrleReader {
    const z: Zlib.Codec
    var history: Zlib.History
    var palette: seq<Pixel>

    /** What is kept between rectangles. */
    ghost function State(): Memory
      reads this
    {
      Memory(history, palette)
    }

    constructor (z: Zlib.Codec)
      ensures this.z == z && history == []
    {
      this.z, history, palette := z, [], [];
    }

    /** One rectangle; the bytes used, or why not. */
    method Decode(payload: seq<byte>, rect: Rect, pf: PixelFormat, fb: Framebuffer) returns (r: Result<nat>)
      requires fb.Valid() && Inside(fb.Contents(), rect) && Valid(pf)
      modifies this, fb.data
      ensures var read := ZrlePictures.Decode(z, old(State()), payload, rect, pf, old(fb.Contents()));
              if read.Got? then
                && |read.rest| <= |payload| && r == Ok(|payload| - |read.rest|)
                && fb.Contents() == read.value.picture && State() == read.value.memory
              else r == ResultOf(read.PropagateFailure<nat>())
      ensures SameOutside(old(fb.Contents()), fb.Contents(), rect)
    {
      hide SameOutside, DecodeTiles, ReadTiles, LayAll, Framebuffer.Contents, Inside, Valid, LayoutOf, Take, BeWord, TilesFrom;
      ghost var q, was := fb.Contents(), State();
      Untouched(q, rect);
      var head := Take(payload, 4);
      if head.IsFailure() { return Err(Short(4)); }
      var packed := Take(head.rest, BeWord(head.value));
      if packed.IsFailure() { return ResultOf(packed.PropagateFailure()); }
      var plain := z.inflate(history, packed.value);
      if plain.Garbled? { return Err(Bad); }
      history := history + [plain.bytes];
      DecodeIsLay(plain.bytes, SquareTiles(rect, TILE), LayoutOf(pf), palette, q);
      var done := DecodeRect(plain.bytes, rect, LayoutOf(pf), fb);
      if done.Err? { return Err(done.error); }
      return Ok(|payload| - |packed.rest|);
    }

    /** The tiles of a rectangle. */
    method DecodeRect(plain: seq<byte>, rect: Rect, l: Layout, fb: Framebuffer) returns (r: Result<()>)
      requires fb.Valid() && Inside(fb.Contents(), rect) && Sane(l.c)
      modifies `palette, fb.data
      ensures var read := DecodeTiles(plain, SquareTiles(rect, TILE), l, old(palette), old(fb.Contents()));
              if read.Got? then r == Ok(()) && fb.Contents() == read.value.picture && palette == read.value.palette
              else r == ResultOf(read.PropagateFailure<()>())
      ensures SameOutside(old(fb.Contents()), fb.Contents(), rect)
    {
      hide DecodeTiles, TilesFrom, RowOfTiles, Framebuffer.Contents, Inside, ReadTile, Lay, Sane, SameOutside;
      ghost var q := fb.Contents();
      ghost var whole := DecodeTiles(plain, SquareTiles(rect, TILE), l, palette, q);
      var reader := new Reader(plain);
      Untouched(q, rect);
      var y := rect.y1;
      while y < rect.y2
        invariant reader.Valid() && fb.Valid() && rect.y1 <= y && SameOutside(q, fb.Contents(), rect)
        invariant DecodeTiles(reader.Rest(), TilesFrom(rect, y, TILE), l, palette, fb.Contents()) == whole
        decreases rect.y2 - y
      {
        ghost var below := TilesFrom(rect, y + TILE, TILE);
        FirstRow(rect, y, TILE);
        var x := rect.x1;
        while x < rect.x2
          invariant reader.Valid() && fb.Valid() && rect.x1 <= x && SameOutside(q, fb.Contents(), rect)
          invariant DecodeTiles(reader.Rest(), RowOfTiles(rect, x, y, TILE) + below, l, palette, fb.Contents()) == whole
          decreases rect.x2 - x
        {
          var t := Rect(x, y, x + Min(TILE, rect.x2 - x), y + Min(TILE, rect.y2 - y));
          NextInRow(rect, x, y, below, TILE);
          NextDecoded(reader.Rest(), t, RowOfTiles(rect, x + TILE, y, TILE) + below, l, palette, fb.Contents());
          TileIn(fb.Contents(), q, rect, t);
          ghost var before, read := fb.Contents(), ReadTile(reader.Rest(), t.Width(), t.Height(), l, palette);
          var tile := DecodeTile(reader, t, l, fb);
          TileOutside(read, t, before, fb.Contents(), palette, reader.Rest(), tile);
          StillOutside(q, before, fb.Contents(), rect, t);
          if tile.Err? { return Err(tile.error); }
          x := x + TILE;
        }
        NextInRow(rect, x, y, below, TILE);
        y := y + TILE;
      }
      NoneLeft(reader.Rest(), rect, y, l, palette, fb.Contents());
      r := Ok(());
    }

    /** One tile. */
    method DecodeTile(reader: Reader, t: Rect, l: Layout, fb: Framebuffer) returns (r: Result<()>)
      requires reader.Valid() && fb.Valid() && Inside(fb.Contents(), t) && Sane(l.c)
      modifies `palette, reader, fb.data
      ensures reader.Valid()
      ensures TileDone(ReadTile(old(reader.Rest()), t.Width(), t.Height(), l, old(palette)), t,
                       old(fb.Contents()), fb.Contents(), palette, reader.Rest(), r)
    {
      hide Framebuffer.Contents, Inside, Lay, Sane, SameOutside, Byte, ReadCpixel, ReadCpixels, ReadRows, ReadPlainRuns, ReadPaletteRuns, FillRect, PaletteBits;
      ghost var q := fb.Contents();
      Untouched(q, t);
      var sub := reader.NextByte();
      if sub.Err? { return Err(sub.error); }
      if sub.value == RAW {
        r := PaintRaw(reader, t, l, fb);
      } else if sub.value == SOLID {
        var px := NextCpixel(reader, l);
        if px.Err? { return Err(px.error); }
        FilledIsLaid(q, t, px.value);
        fb.Fill(t, px.value);
        r := Ok(());
      } else if 2 <= sub.value <= PACKED_MAX || sub.value == PACKED_REUSE {
        if sub.value != PACKED_REUSE {
          var colours := NextColours(reader, sub.value, l);
          if colours.Err? { return Err(colours.error); }
          palette := colours.value;
        }
        BitsAre(|palette|);
        r := PaintRows(reader, t, PaletteBits(|palette|), palette, fb);
      } else if sub.value == PLAIN_RLE {
        r := PaintPlainRuns(reader, t, l, fb);
      } else if sub.value >= RLE_REUSE {
        if sub.value != RLE_REUSE {
          var colours := NextColours(reader, sub.value - RLE_BASE, l);
          if colours.Err? { return Err(colours.error); }
          palette := colours.value;
        }
        r := PaintPaletteRuns(reader, t, palette, fb);
      } else {
        r := Err(Bad);
      }
    }
  }
}
