/** The Hextile decoder as it runs, tile by tile into a framebuffer, and the
    client's loop that fetches more whenever it stops short. */
module HextileClient {
  import opened Geometry
  import opened Arithmetic
  import opened Bits
  import opened Pictures
  import opened Framebuffers
  import opened PixelFormats
  import opened Blocks
  import opened Tilings
  import opened Readers
  import opened Hextiles
  import opened HextileEncoder
  import opened HextileDecoder
  import opened HextilePictures

  // ---- Tiles straight onto a picture ----

  /** Read and paint one tile after another. */
  ghost function DecodeTiles(s: seq<byte>, tiles: seq<Rect>, pf: PixelFormat, sh: Shades, q: Picture): (r: Read<Picture>)
    requires q.Valid()
    ensures r.Got? ==> r.value.Valid() && r.value.SameSize(q)
    decreases tiles
  {
    if tiles == [] then Got(q, s)
    else
      var t :- ReadTile(s, tiles[0].Width(), tiles[0].Height(), pf, sh);
      DecodeTiles(t.rest, tiles[1..], pf, t.value.shades, PaintTile(q, tiles[0], t.value.said))
  }

  /** Painting while reading is reading, then painting. */
  lemma {:induction false} DecodeIsPaint(s: seq<byte>, tiles: seq<Rect>, pf: PixelFormat, sh: Shades, q: Picture)
    requires q.Valid()
    ensures DecodeTiles(s, tiles, pf, sh, q) ==
            match ReadTiles(s, tiles, pf, sh)
            case Got(said, rest) => Got(PaintTiles(q, tiles, said), rest)
            case Truncated(k) => Truncated(k)
            case Malformed => Malformed
    decreases tiles
  {
    hide ReadTile, PaintTile;
    if tiles != [] {
      var t := ReadTile(s, tiles[0].Width(), tiles[0].Height(), pf, sh);
      if t.Got? {
        DecodeIsPaint(t.rest, tiles[1..], pf, t.value.shades, PaintTile(q, tiles[0], t.value.said));
      }
    }
  }

  /** What one tile leaves: painted if it was read, and nothing outside it touched if not. */
  ghost predicate TileDone(read: Read<Told>, t: Rect, before: Picture, after: Picture, r: Result<Shades>)
    requires before.Valid()
  {
    && after.Valid()
    && if read.Got? then r == Ok(read.value.shades) && after == PaintTile(before, t, read.value.said)
       else r == Err(if read.Truncated? then Short(read.more) else Bad) && SameOutside(before, after, t)
  }

  lemma PaintedOutside(q: Picture, t: Rect, said: Said)
    requires q.Valid()
    ensures SameOutside(q, PaintTile(q, t, said), t)
  {
  }

  // ---- One tile ----

  lemma FilledIsPainted(q: Picture, t: Rect, bg: Pixel)
    requires q.Valid()
    ensures FillRect(q, t, bg) == PaintTile(q, t, Filled(bg, []))
  {
    hide FillRect, PaintTile, Picture.At;
    Same(FillRect(q, t, bg), PaintTile(q, t, Filled(bg, [])));
  }

  lemma PatchIsPainted(q: Picture, t: Rect, bg: Pixel, ps: seq<Patch>, p: Patch)
    requires q.Valid() && p.x + p.w <= t.Width() && p.y + p.h <= t.Height()
    ensures FillRect(PaintTile(q, t, Filled(bg, ps)), Sized(t.x1 + p.x, t.y1 + p.y, p.w, p.h), p.px)
         == PaintTile(q, t, Filled(bg, ps + [p]))
  {
    hide FillRect, PaintTile, Picture.At, Picture.Valid;
    var was, block := PaintTile(q, t, Filled(bg, ps)), Sized(t.x1 + p.x, t.y1 + p.y, p.w, p.h);
    var a, b := FillRect(was, block, p.px), PaintTile(q, t, Filled(bg, ps + [p]));
    assert (ps + [p])[..|ps|] == ps;
    Same(a, b);
  }

  lemma SentIsLaid(q: Picture, t: Rect, ps: seq<Pixel>)
    requires q.Valid() && |ps| == t.Width() * t.Height()
    ensures Lay(q, t, ps) == PaintTile(q, t, Sent(ps))
  {
    hide PaintTile, Lay, Picture.At;
    forall z: Point | q.Holds(z) ensures PaintTile(q, t, Sent(ps)).At(z) == Lay(q, t, ps).At(z) {
      if t.Has(z.x, z.y) {
        IndexInBlock(t, z.x, z.y);
      }
    }
    Same(Lay(q, t, ps), PaintTile(q, t, Sent(ps)));
  }

  /** A tile sent whole, pixel by pixel. */
  method PutPixels(px: seq<byte>, t: Rect, pf: PixelFormat, fb: Framebuffer)
    requires fb.Valid() && Inside(fb.Contents(), t) && t.Width() > 0 && pf.BytesPerPixel() > 0
    requires |px| == t.Width() * t.Height() * pf.BytesPerPixel()
    modifies fb.data
    ensures fb.Contents() == PaintTile(old(fb.Contents()), t, Sent(Unpacked(px, t.Width() * t.Height(), pf.BytesPerPixel(), pf)))
  {
    hide Unpacked, Unpack, PaintTile, FillRect, Lay, Inside, Framebuffer.Contents, PixelFormat.BytesPerPixel;
    var bpp, w := pf.BytesPerPixel(), t.Width();
    ghost var n, q := t.Width() * t.Height(), fb.Contents();
    ghost var ps := Unpacked(px, n, bpp, pf);
    SentIsLaid(q, t, ps);
    NothingLaid(q, t);
    var i, at := 0, 0;
    while at + bpp <= |px|
      invariant i <= n && at == i * bpp && fb.Contents() == Lay(q, t, ps[..i])
    {
      Distributes(i, bpp);
      MulCancel(i, n, bpp);
      PlaceOf(t, i);
      UnpackedAt(px, n, bpp, pf, i);
      LaidNext(q, t, ps, i);
      PlaceInside(q, t, i);
      fb.PutPixel(t.x1 + i % w, t.y1 + i / w, Unpack(px[at..at + bpp], pf));
      i, at := i + 1, at + bpp;
    }
    Distributes(i, bpp);
    MulCancel(n, i + 1, bpp);
    assert ps[..i] == ps;
  }

  /** The i-th stretch of bytes is the i-th pixel. */
  lemma {:induction false} UnpackedAt(px: seq<byte>, n: nat, bpp: nat, pf: PixelFormat, i: nat)
    requires |px| == n * bpp && i < n
    ensures 0 <= i * bpp <= (i + 1) * bpp <= |px|
    ensures Unpacked(px, n, bpp, pf)[i] == Unpack(px[i * bpp..(i + 1) * bpp], pf)
  {
    hide Unpack;
    MulOrder(i + 1, n, bpp);
    MulOrder(0, i, bpp);
    Distributes(i, bpp);
    Distributes(n - 1, bpp);
    if i > 0 {
      UnpackedAt(px[bpp..], n - 1, bpp, pf, i - 1);
      Distributes(i - 1, bpp);
      assert px[bpp..][(i - 1) * bpp..i * bpp] == px[i * bpp..(i + 1) * bpp];
    }
  }

  method NextPixel(reader: Reader, news: bool, was: Pixel, pf: PixelFormat) returns (r: Result<Pixel>)
    requires reader.Valid()
    modifies reader
    ensures reader.Valid() && r == ResultOf(Maybe(old(reader.Rest()), news, was, pf))
    ensures r.Ok? ==> reader.Rest() == Maybe(old(reader.Rest()), news, was, pf).rest
  {
    hide Unpack, PixelFormat.BytesPerPixel, Take;
    r := Ok(was);
    if news {
      var bs := reader.NextBytes(pf.BytesPerPixel());
      match bs
      case Ok(bytes) => r := Ok(Unpack(bytes, pf));
      case Err(e) => r := Err(e);
    }
  }

  method NextPatch(reader: Reader, w: nat, h: nat, pf: PixelFormat, coloured: bool, fg: Pixel) returns (r: Result<Patch>)
    requires reader.Valid()
    modifies reader
    ensures reader.Valid() && r == ResultOf(ReadPatch(old(reader.Rest()), w, h, pf, coloured, fg))
    ensures r.Ok? ==> reader.Rest() == ReadPatch(old(reader.Rest()), w, h, pf, coloured, fg).rest
    ensures r.Ok? ==> r.value.x + r.value.w <= w && r.value.y + r.value.h <= h
  {
    hide Maybe, Byte;
    var px := NextPixel(reader, coloured, fg, pf);
    if px.Err? { return Err(px.error); }
    var at := reader.NextByte();
    if at.Err? { return Err(at.error); }
    var size := reader.NextByte();
    if size.Err? { return Err(size.error); }
    var sx, sy := at.value / 16, at.value % 16;
    var sw, sh := size.value / 16 + 1, size.value % 16 + 1;
    if sx + sw > w || sy + sh > h { return Err(Bad); }
    return Ok(Patch(sx, sy, sw, sh, px.value));
  }

  lemma PrependStep(s: seq<byte>, ps: seq<Patch>, n: nat, w: nat, h: nat, pf: PixelFormat, coloured: bool, fg: Pixel)
    requires n > 0
    ensures Prepend(ps, ReadPatches(s, n, w, h, pf, coloured, fg)) ==
            match ReadPatch(s, w, h, pf, coloured, fg)
            case Got(p, rest) => Prepend(ps + [p], ReadPatches(rest, n - 1, w, h, pf, coloured, fg))
            case Truncated(k) => Truncated(k)
            case Malformed => Malformed
  {
    hide ReadPatch;
    var p := ReadPatch(s, w, h, pf, coloured, fg);
    if p.Got? {
      var more := ReadPatches(p.rest, n - 1, w, h, pf, coloured, fg);
      if more.Got? {
        assert ps + ([p.value] + more.value) == ps + [p.value] + more.value;
      }
    }
  }

  lemma NoPatches(s: seq<byte>, w: nat, h: nat, pf: PixelFormat, coloured: bool, fg: Pixel)
    ensures ReadPatches(s, 0, w, h, pf, coloured, fg) == Got([], s)
  {
  }

  /** The blocks of a tile, over its background. */
  method FillPatches(reader: Reader, n: nat, t: Rect, pf: PixelFormat, coloured: bool, bg: Pixel, fg: Pixel, fb: Framebuffer,
                     ghost q: Picture)
    returns (r: Result<()>)
    requires reader.Valid() && fb.Valid() && q.Valid() && fb.Contents() == PaintTile(q, t, Filled(bg, []))
    modifies reader, fb.data
    ensures reader.Valid()
    ensures var read := ReadPatches(old(reader.Rest()), n, t.Width(), t.Height(), pf, coloured, fg);
            if read.Got? then
              r == Ok(()) && reader.Rest() == read.rest && fb.Contents() == PaintTile(q, t, Filled(bg, read.value))
            else
              r == Err(if read.Truncated? then Short(read.more) else Bad) && SameOutside(q, fb.Contents(), t)
  {
    hide PaintTile, ReadPatch, FillRect, SameOutside, Framebuffer.Contents, ReadPatches;
    ghost var s, ps: seq<Patch> := reader.Rest(), [];
    var i := 0;
    PrependNone(ReadPatches(s, n, t.Width(), t.Height(), pf, coloured, fg));
    while i < n
      invariant i <= n && reader.Valid() && fb.Valid() && fb.Contents() == PaintTile(q, t, Filled(bg, ps))
      invariant Prepend(ps, ReadPatches(reader.Rest(), n - i, t.Width(), t.Height(), pf, coloured, fg))
             == ReadPatches(s, n, t.Width(), t.Height(), pf, coloured, fg)
    {
      PrependStep(reader.Rest(), ps, n - i, t.Width(), t.Height(), pf, coloured, fg);
      var patch := NextPatch(reader, t.Width(), t.Height(), pf, coloured, fg);
      if patch.Err? {
        PaintedOutside(q, t, Filled(bg, ps));
        return Err(patch.error);
      }
      var p := patch.value;
      PatchIsPainted(q, t, bg, ps, p);
      fb.Fill(Sized(t.x1 + p.x, t.y1 + p.y, p.w, p.h), p.px);
      ps := ps + [p];
      i := i + 1;
    }
    NoPatches(reader.Rest(), t.Width(), t.Height(), pf, coloured, fg);
    assert ps + [] == ps;
    r := Ok(());
  }

  /** One tile. */
  method DecodeTile(reader: Reader, t: Rect, pf: PixelFormat, sh: Shades, fb: Framebuffer) returns (r: Result<Shades>)
    requires reader.Valid() && fb.Valid() && Inside(fb.Contents(), t) && t.Width() > 0 && pf.BytesPerPixel() > 0
    modifies reader, fb.data
    ensures reader.Valid()
    ensures var read := ReadTile(old(reader.Rest()), t.Width(), t.Height(), pf, sh);
            && TileDone(read, t, old(fb.Contents()), fb.Contents(), r)
            && (read.Got? ==> reader.Rest() == read.rest)
  {
    hide PaintTile, FillRect, Framebuffer.Contents, Maybe, Byte, Inside, PixelFormat.BytesPerPixel, Set, Unpacked, SameOutside, ReadPatches;
    ghost var q := fb.Contents();
    Untouched(q, t);
    var head := reader.NextByte();
    if head.Err? { return Err(head.error); }
    if Set(head.value, RAW) {
      var px := reader.NextBytes(t.Width() * t.Height() * pf.BytesPerPixel());
      if px.Err? { return Err(px.error); }
      PutPixels(px.value, t, pf, fb);
      return Ok(sh);
    }
    var bg := NextPixel(reader, Set(head.value, BACKGROUND), sh.bg, pf);
    if bg.Err? { return Err(bg.error); }
    var fg := NextPixel(reader, Set(head.value, FOREGROUND), sh.fg, pf);
    if fg.Err? { return Err(fg.error); }
    fb.Fill(t, bg.value);
    FilledIsPainted(q, t, bg.value);
    PaintedOutside(q, t, Filled(bg.value, []));
    if !Set(head.value, ANY_SUBRECTS) {
      return Ok(Shades(bg.value, fg.value));
    }
    var count := reader.NextByte();
    if count.Err? { return Err(count.error); }
    var done := FillPatches(reader, count.value, t, pf, Set(head.value, SUBRECTS_COLOURED), bg.value, fg.value, fb, q);
    if done.Err? { return Err(done.error); }
    return Ok(Shades(bg.value, fg.value));
  }

  lemma NextDecoded(s: seq<byte>, t: Rect, rest: seq<Rect>, pf: PixelFormat, sh: Shades, q: Picture)
    requires q.Valid()
    ensures var read := ReadTile(s, t.Width(), t.Height(), pf, sh);
            DecodeTiles(s, [t] + rest, pf, sh, q) ==
            if read.Got? then DecodeTiles(read.rest, rest, pf, read.value.shades, PaintTile(q, t, read.value.said))
            else read.PropagateFailure()
  {
    hide ReadTile, PaintTile;
    var tiles := [t] + rest;
    assert tiles[0] == t && tiles[1..] == rest;
  }

  /** A tile of the rectangle, over a picture of the same size. */
  lemma TileIn(p: Picture, q: Picture, rect: Rect, t: Rect)
    requires SameOutside(q, p, rect) && Inside(q, rect)
    requires rect.x1 <= t.x1 < t.x2 <= rect.x2 && rect.y1 <= t.y1 < t.y2 <= rect.y2
    ensures Inside(p, t) && t.Width() > 0
  {
  }

  /** Read or not, a tile touches nothing else. */
  lemma TileOutside(read: Read<Told>, t: Rect, before: Picture, after: Picture, r: Result<Shades>)
    requires before.Valid() && TileDone(read, t, before, after, r)
    ensures SameOutside(before, after, t)
  {
    hide PaintTile, SameOutside;
    if read.Got? {
      PaintedOutside(before, t, read.value.said);
    }
  }

  /** Hextile into the framebuffer; the bytes used, or why not. */
  method Decode(payload: seq<byte>, rect: Rect, pf: PixelFormat, fb: Framebuffer) returns (r: Result<nat>)
    requires fb.Valid() && Inside(fb.Contents(), rect) && pf.BytesPerPixel() > 0
    modifies fb.data
    ensures var read := DecodeTiles(payload, SquareTiles(rect, TILE), pf, UNSET, old(fb.Contents()));
            if read.Got? then |read.rest| <= |payload| && r == Ok(|payload| - |read.rest|) && fb.Contents() == read.value
            else r == Err(if read.Truncated? then Short(read.more) else Bad)
    ensures SameOutside(old(fb.Contents()), fb.Contents(), rect)
  {
    hide DecodeTiles, TilesFrom, SameOutside, Framebuffer.Contents, Inside, PixelFormat.BytesPerPixel;
    ghost var q := fb.Contents();
    ghost var whole := DecodeTiles(payload, SquareTiles(rect, TILE), pf, UNSET, q);
    var reader := new Reader(payload);
    var shades := UNSET;
    Untouched(q, rect);
    SquareTilesCut(rect, TILE);
    var y := rect.y1;
    while y < rect.y2
      invariant reader.Valid() && reader.data == payload && fb.Valid() && rect.y1 <= y
      invariant DecodeTiles(reader.Rest(), TilesFrom(rect, y, TILE), pf, shades, fb.Contents()) == whole
      invariant SameOutside(q, fb.Contents(), rect)
      decreases rect.y2 - y
    {
      var row := DecodeRow(reader, rect, y, pf, shades, fb, whole, q);
      if row.Err? { return Err(row.error); }
      shades := row.value;
      y := y + TILE;
    }
    NoneLeft(reader.Rest(), rect, y, pf, shades, fb.Contents());
    r := Ok(reader.at);
  }

  lemma NoneLeft(s: seq<byte>, rect: Rect, y: int, pf: PixelFormat, sh: Shades, q: Picture)
    requires q.Valid() && y >= rect.y2
    ensures DecodeTiles(s, TilesFrom(rect, y, TILE), pf, sh, q) == Got(q, s)
  {
  }

  /** One row of tiles. */
  method DecodeRow(reader: Reader, rect: Rect, y: int, pf: PixelFormat, sh: Shades, fb: Framebuffer,
                   ghost whole: Read<Picture>, ghost q: Picture)
    returns (r: Result<Shades>)
    requires reader.Valid() && fb.Valid() && Inside(q, rect) && pf.BytesPerPixel() > 0 && rect.y1 <= y < rect.y2
    requires DecodeTiles(reader.Rest(), TilesFrom(rect, y, TILE), pf, sh, fb.Contents()) == whole
    requires q.Valid() && SameOutside(q, fb.Contents(), rect)
    modifies reader, fb.data
    ensures reader.Valid() && SameOutside(q, fb.Contents(), rect)
    ensures if r.Ok? then DecodeTiles(reader.Rest(), TilesFrom(rect, y + TILE, TILE), pf, r.value, fb.Contents()) == whole
            else !whole.Got? && r.error == if whole.Truncated? then Short(whole.more) else Bad
  {
    hide DecodeTiles, TilesFrom, RowOfTiles, SameOutside, Framebuffer.Contents, Inside, PixelFormat.BytesPerPixel, ReadTile, PaintTile;
    ghost var below := TilesFrom(rect, y + TILE, TILE);
    var x, shades := rect.x1, sh;
    FirstRow(rect, y, TILE);
    while x < rect.x2
      invariant reader.Valid() && fb.Valid() && rect.x1 <= x && SameOutside(q, fb.Contents(), rect)
      invariant DecodeTiles(reader.Rest(), RowOfTiles(rect, x, y, TILE) + below, pf, shades, fb.Contents()) == whole
      decreases rect.x2 - x
    {
      var t := Rect(x, y, x + Min(TILE, rect.x2 - x), y + Min(TILE, rect.y2 - y));
      NextInRow(rect, x, y, below, TILE);
      NextDecoded(reader.Rest(), t, RowOfTiles(rect, x + TILE, y, TILE) + below, pf, shades, fb.Contents());
      TileIn(fb.Contents(), q, rect, t);
      ghost var before, read := fb.Contents(), ReadTile(reader.Rest(), t.Width(), t.Height(), pf, shades);
      var tile := DecodeTile(reader, t, pf, shades, fb);
      TileOutside(read, t, before, fb.Contents(), tile);
      StillOutside(q, before, fb.Contents(), rect, t);
      if tile.Err? { return Err(tile.error); }
      shades := tile.value;
      x := x + TILE;
    }
    NextInRow(rect, x, y, below, TILE);
    r := Ok(shades);
  }

  /** Decoding the whole payload, or part of it. */
  lemma DecodeEncoded(p: Picture, rect: Rect, pf: PixelFormat, q: Picture, n: nat)
    requires Inside(p, rect) && Valid(pf) && q.Valid() && q.Encloses(rect) && n <= |Encoded(p, rect, pf)|
    ensures var e := Encoded(p, rect, pf);
            var read := DecodeTiles(e[..n], SquareTiles(rect, TILE), pf, UNSET, q);
            && (n == |e| ==> read == Got(ClientShows(q, p, rect, pf), []))
            && (n < |e| ==> read.Truncated? && 1 <= read.more <= |e| - n)
  {
    hide Encoded, SquareTiles, ReadTiles, DecodeTiles, PaintTiles, ClientShows, Valid;
    var e := Encoded(p, rect, pf);
    DecodeIsPaint(e[..n], SquareTiles(rect, TILE), pf, UNSET, q);
    if n == |e| {
      HextileRoundTrip(p, rect, pf, q, []);
      assert e[..n] == e && e + [] == e;
    } else {
      HextilePrefix(p, rect, pf, n);
    }
  }

  /** The client's loop: start with nothing, decode, fetch as many bytes as the
      decoder wants, decode again. On an encoder's payload it stops having
      read exactly that payload, with the picture right however often it began again. */
  method Fetch(stream: seq<byte>, rect: Rect, pf: PixelFormat, fb: Framebuffer, ghost p: Picture)
    returns (ok: bool, payload: seq<byte>)
    requires fb.Valid() && Inside(fb.Contents(), rect) && Inside(p, rect) && Valid(pf)
    modifies fb.data
    ensures payload <= stream && SameOutside(old(fb.Contents()), fb.Contents(), rect)
    ensures Encoded(p, rect, pf) <= stream ==>
      ok && payload == Encoded(p, rect, pf) && fb.Contents() == ClientShows(old(fb.Contents()), p, rect, pf)
  {
    ghost var q, e := fb.Contents(), Encoded(p, rect, pf);
    assert pf.BytesPerPixel() > 0;
    hide DecodeTiles, SameOutside, Framebuffer.Contents, Inside, ClientShows, Encoded, Valid, PixelFormat.BytesPerPixel;
    Untouched(q, rect);
    payload := [];
    while true
      invariant payload <= stream && fb.Valid() && SameOutside(q, fb.Contents(), rect)
      invariant e <= stream ==> |payload| <= |e|
      decreases |stream| - |payload|
    {
      ghost var before := fb.Contents();
      InsideStill(q, before, rect);
      var r := Decode(payload, rect, pf, fb);
      if e <= stream {
        DecodeEncoded(p, rect, pf, before, |payload|);
        assert payload == e[..|payload|];
      }
      OutsideStill(q, before, fb.Contents(), rect);
      match r
      case Ok(_) =>
        ShowsAnyway(q, before, p, rect, pf);
        return true, payload;
      case Err(Bad) => return false, payload;
      case Err(Short(more)) =>
        var n := |payload| + Max(more, 1);
        if n > |stream| { return false, payload; }
        payload := stream[..n];
    }
  }

  lemma InsideStill(q: Picture, p: Picture, rect: Rect)
    requires SameOutside(q, p, rect) && Inside(q, rect)
    ensures Inside(p, rect) && p.Encloses(rect)
  {
  }

  /** What was painted before over the rectangle is painted over. */
  lemma ShowsAnyway(q: Picture, q': Picture, p: Picture, rect: Rect, pf: PixelFormat)
    requires SameOutside(q, q', rect) && Inside(p, rect)
    ensures ClientShows(q', p, rect, pf) == ClientShows(q, p, rect, pf)
  {
    hide Unpack, Convert, ClientShows, Picture.At;
    Same(ClientShows(q', p, rect, pf), ClientShows(q, p, rect, pf));
  }
}
