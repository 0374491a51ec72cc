/** Whole rectangles of Hextile: what the client's picture becomes, however
    its bytes arrive. */
module HextilePictures {
  import opened Geometry
  import opened Arithmetic
  import opened Bits
  import opened Regions
  import opened Pictures
  import opened Framebuffers
  import opened PixelFormats
  import opened Blocks
  import opened Tilings
  import opened Readers
  import opened Hextiles
  import opened HextileEncoder
  import opened HextileDecoder

  /** Every tile said what it shows of the picture. */
  ghost predicate AllShow(p: Picture, tiles: seq<Rect>, said: seq<Said>, pf: PixelFormat) {
    && TilesIn(p, tiles) && |said| == |tiles|
    && forall i :: 0 <= i < |tiles| ==> TileShows(p, tiles[i], said[i], pf)
  }

  ghost predicate TileShows(p: Picture, t: Rect, said: Said, pf: PixelFormat) {
    Inside(p, t) && Shows(said, TileKeys(p, t, pf), t.Width(), t.Height(), pf)
  }

  lemma OneReadBack(p: Picture, t: Rect, pf: PixelFormat, c: Carried, sh: Shades, rest: seq<byte>)
    requires TilesIn(p, [t]) && InStep(c, sh, pf)
    ensures var r := ReadTile(TileBytes(p, t, pf, c) + rest, t.Width(), t.Height(), pf, sh);
            && r.Got? && r.rest == rest && TileShows(p, t, r.value.said, pf)
            && InStep(TileForm(p, t, pf, c).After(c), r.value.shades, pf)
  {
    hide ReadTile, Shows, InStep, FormOf, WriteForm, TileKeys;
    TileParts(p, t, pf, c);
    TileReadBack(TileKeys(p, t, pf), t.Width(), t.Height(), pf, c, sh, rest);
  }

  lemma {:induction false} TilesReadBack(p: Picture, tiles: seq<Rect>, pf: PixelFormat, c: Carried, sh: Shades, rest: seq<byte>)
    requires TilesIn(p, tiles) && InStep(c, sh, pf)
    ensures var r := ReadTiles(TilesBytes(p, tiles, pf, c) + rest, tiles, pf, sh);
            r.Got? && r.rest == rest && AllShow(p, tiles, r.value, pf)
    decreases tiles
  {
    hide ReadTile, TileForm, TileBytes, TileShows, InStep, TilesIn;
    if tiles == [] {
      assert [] + rest == rest;
    } else {
      var t := tiles[0];
      OneTileIn(p, tiles);
      var after := TileForm(p, t, pf, c).After(c);
      var others := TilesBytes(p, tiles[1..], pf, after);
      assert TilesBytes(p, tiles, pf, c) + rest == TileBytes(p, t, pf, c) + (others + rest);
      OneReadBack(p, t, pf, c, sh, others + rest);
      var first := ReadTile(TileBytes(p, t, pf, c) + (others + rest), t.Width(), t.Height(), pf, sh);
      TilesReadBack(p, tiles[1..], pf, after, first.value.shades, rest);
    }
  }

  // ---- Painting ----

  /** A tile laid over the picture. */
  ghost function PaintTile(q: Picture, t: Rect, said: Said): (r: Picture)
    requires q.Valid()
    ensures r.Valid() && r.SameSize(q)
    ensures forall z: Point {:trigger r.At(z)} :: q.Holds(z) ==>
      r.At(z) == if t.Has(z.x, z.y) then ShownAt(said, t.Width(), z.x - t.x1, z.y - t.y1) else q.At(z)
  {
    Build(q.width, q.height, z =>
      if !q.Holds(z) then BLACK
      else if t.Has(z.x, z.y) then ShownAt(said, t.Width(), z.x - t.x1, z.y - t.y1) else q.At(z))
  }

  ghost function PaintTiles(q: Picture, tiles: seq<Rect>, said: seq<Said>): (r: Picture)
    requires q.Valid() && |said| == |tiles|
    ensures r.Valid() && r.SameSize(q)
    decreases |tiles|
  {
    if tiles == [] then q else PaintTiles(PaintTile(q, tiles[0], said[0]), tiles[1..], said[1..])
  }

  /** A tile's key is its pixel's. */
  lemma TileKeyAt(p: Picture, t: Rect, pf: PixelFormat, z: Point)
    requires Inside(p, t) && t.Has(z.x, z.y) && Valid(pf)
    ensures Shade(At(TileKeys(p, t, pf), t.Width(), t.Height(), z.x - t.x1, z.y - t.y1), pf) == Unpack(Convert(p.At(z), pf), pf)
  {
    hide Unpack, Convert, Key, Shade, Valid, At, Block;
    BlockAt(p, t, z);
    BlockSize(p, t);
    KeyIsBytes(p.At(z), pf);
  }

  lemma {:induction false} PaintedAt(q: Picture, p: Picture, tiles: seq<Rect>, said: seq<Said>, pf: PixelFormat, z: Point)
    requires q.Valid() && AllShow(p, tiles, said, pf) && q.Holds(z) && Valid(pf)
    ensures Has(tiles, z.x, z.y) ==> p.Holds(z) && PaintTiles(q, tiles, said).At(z) == Unpack(Convert(p.At(z), pf), pf)
    ensures !Has(tiles, z.x, z.y) ==> PaintTiles(q, tiles, said).At(z) == q.At(z)
    decreases |tiles|
  {
    hide Unpack, Convert, Valid, TileKeys, At, Shade, ShownAt, PaintTile, Picture.At;
    if tiles != [] {
      var t := tiles[0];
      assert TileShows(p, tiles[0], said[0], pf);
      assert forall i :: 0 <= i < |tiles| - 1 ==> tiles[1..][i] == tiles[i + 1] && said[1..][i] == said[i + 1];
      OneTileIn(p, tiles);
      PaintedAt(PaintTile(q, t, said[0]), p, tiles[1..], said[1..], pf, z);
      HasFirst(tiles, z.x, z.y);
      if t.Has(z.x, z.y) {
        TileKeyAt(p, t, pf, z);
        assert p.Holds(z);
        assert 0 <= z.x - t.x1 < t.Width() && 0 <= z.y - t.y1 < t.Height();
      }
    }
  }

  /** The round trip: the payload is read to its last byte, and the client's
      picture has every pixel of the rectangle as its format can show it, and
      no other pixel changed. */
  lemma HextileRoundTrip(p: Picture, rect: Rect, pf: PixelFormat, q: Picture, rest: seq<byte>)
    requires Inside(p, rect) && Valid(pf) && q.Valid() && q.Encloses(rect)
    ensures var r := ReadTiles(Encoded(p, rect, pf) + rest, SquareTiles(rect, TILE), pf, UNSET);
            r.Got? && r.rest == rest && PaintTiles(q, SquareTiles(rect, TILE), r.value) == ClientShows(q, p, rect, pf)
  {
    hide Valid, TilesBytes, ReadTiles, SquareTiles, PaintTiles, AllShow;
    var tiles := SquareTiles(rect, TILE);
    RectTilesIn(p, rect);
    SquareTilesCut(rect, TILE);
    TilesReadBack(p, tiles, pf, UNKNOWN, UNSET, rest);
    var r := ReadTiles(Encoded(p, rect, pf) + rest, tiles, pf, UNSET);
    var painted, shown := PaintTiles(q, tiles, r.value), ClientShows(q, p, rect, pf);
    forall z: Point | q.Holds(z) ensures painted.At(z) == shown.At(z) {
      PaintedAt(q, p, tiles, r.value, pf, z);
      assert Has(tiles, z.x, z.y) <==> rect.Has(z.x, z.y);
    }
    Same(painted, shown);
  }

  /** Part of a payload makes the decoder ask for more, never for more than is missing. */
  lemma HextilePrefix(p: Picture, rect: Rect, pf: PixelFormat, n: nat)
    requires Inside(p, rect) && n < |Encoded(p, rect, pf)|
    ensures var r := ReadTiles(Encoded(p, rect, pf)[..n], SquareTiles(rect, TILE), pf, UNSET);
            r.Truncated? && 1 <= r.more <= |Encoded(p, rect, pf)| - n
  {
    hide ReadTiles, TilesBytes, SquareTiles;
    var e, tiles := Encoded(p, rect, pf), SquareTiles(rect, TILE);
    RectTilesIn(p, rect);
    TilesReadBack(p, tiles, pf, UNKNOWN, UNSET, []);
    assert e + [] == e;
    Split(e, n);
    TilesGrow(e[..n], e[n..], tiles, pf, UNSET);
    PrefixAsks(e, n, ReadTiles(e, tiles, pf, UNSET), ReadTiles(e[..n], tiles, pf, UNSET));
  }
}
