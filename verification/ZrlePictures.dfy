/** Whole rectangles of ZRLE, over the life of a stream. */
module ZrlePictures {
  import opened Geometry
  import opened Arithmetic
  import opened Bits
  import opened Regions
  import opened Pictures
  import opened PixelFormats
  import opened Blocks
  import opened Tilings
  import opened Readers
  import opened Cpixels
  import opened Zrles
  import opened ZrleEncoder
  import opened ZrleDecoder
  import Zlib

  // ---- Tiles of a picture ----

  /** A pixel's cpixel bytes as one number. */
  function CpixelKey(px: Pixel, pf: PixelFormat): nat
    requires Valid(pf)
  {
    CpixelSane(pf);
    ConvertSize(px, pf);
    LeWord(Kept(Convert(px, pf), CpixelOf(pf)))
  }

  function CpixelKeys(pixels: seq<Pixel>, pf: PixelFormat): (ks: seq<nat>)
    requires Valid(pf)
    ensures |ks| == |pixels| && forall i :: 0 <= i < |pixels| ==> ks[i] == CpixelKey(pixels[i], pf)
  {
    seq(|pixels|, i requires 0 <= i < |pixels| => CpixelKey(pixels[i], pf))
  }

  function LayoutOf(pf: PixelFormat): (l: Layout)
    requires Valid(pf)
    ensures Sane(l.c)
  {
    CpixelSane(pf);
    Layout(CpixelOf(pf), pf)
  }

  /** A cpixel shows what its pixel would. */
  lemma CpixelShows(px: Pixel, pf: PixelFormat)
    requires Valid(pf)
    ensures CpixelShade(CpixelKey(px, pf), LayoutOf(pf)) == Unpack(Convert(px, pf), pf)
  {
    hide Convert, Unpack, Kept, Restored, CpixelOf;
    CpixelKeepsColour(px, pf);
    BytesWord(Kept(Convert(px, pf), CpixelOf(pf)));
  }

  ghost predicate TilesIn(p: Picture, tiles: seq<Rect>) { forall i :: 0 <= i < |tiles| ==> Inside(p, tiles[i]) }

  ghost function TileKeys(p: Picture, t: Rect, pf: PixelFormat): (ks: seq<nat>)
    requires Inside(p, t) && Valid(pf)
    ensures |ks| == t.Height() * t.Width()
  {
    BlockSize(p, t);
    CpixelKeys(Block(p, t), pf)
  }

  ghost function TileBytes(p: Picture, t: Rect, pf: PixelFormat): seq<byte>
    requires Inside(p, t) && Valid(pf)
  {
    TileCode(TileKeys(p, t, pf), t.Width(), t.Height(), CpixelOf(pf).bytes)
  }

  /** The tiles of a rectangle before compression. */
  ghost function TilesBytes(p: Picture, tiles: seq<Rect>, pf: PixelFormat): seq<byte>
    requires TilesIn(p, tiles) && Valid(pf)
  {
    if tiles == [] then [] else TileBytes(p, tiles[0], pf) + TilesBytes(p, tiles[1..], pf)
  }

  lemma RectTilesIn(p: Picture, rect: Rect)
    requires Inside(p, rect)
    ensures TilesIn(p, SquareTiles(rect, TILE))
  {
    SquareTilesCut(rect, TILE);
    var tiles := SquareTiles(rect, TILE);
    forall i | 0 <= i < |tiles| ensures Inside(p, tiles[i]) {
      assert IsTile(rect, TILE, tiles[i]);
    }
  }

  ghost function Plain(p: Picture, rect: Rect, pf: PixelFormat): seq<byte>
    requires Inside(p, rect) && Valid(pf)
  {
    RectTilesIn(p, rect);
    TilesBytes(p, SquareTiles(rect, TILE), pf)
  }

  // ---- Tiles read back ----

  /** The pixels of each tile, and the palette left at the end. */
  datatype Tiled = Tiled(blocks: seq<seq<Pixel>>, palette: seq<Pixel>)

  function ReadTiles(s: seq<byte>, tiles: seq<Rect>, l: Layout, palette: seq<Pixel>): (r: Read<Tiled>)
    requires Sane(l.c)
    ensures Within(r, s) && (r.Got? ==> |r.value.blocks| == |tiles|)
    decreases |tiles|
  {
    if tiles == [] then Got(Tiled([], palette), s)
    else
      var tile :- ReadTile(s, tiles[0].Width(), tiles[0].Height(), l, palette);
      var more :- ReadTiles(tile.rest, tiles[1..], l, tile.value.palette);
      Got(Tiled([tile.value.pixels] + more.value.blocks, more.value.palette), more.rest)
  }

  ghost predicate AllShow(p: Picture, tiles: seq<Rect>, blocks: seq<seq<Pixel>>, pf: PixelFormat)
    requires TilesIn(p, tiles) && Valid(pf)
  {
    |blocks| == |tiles| && forall i :: 0 <= i < |tiles| ==> blocks[i] == CpixelShades(TileKeys(p, tiles[i], pf), LayoutOf(pf))
  }

  /** The whole rectangle reads back, whatever palette was left from before. */
  lemma {:induction false} TilesReadBack(p: Picture, tiles: seq<Rect>, pf: PixelFormat, palette: seq<Pixel>, rest: seq<byte>)
    requires TilesIn(p, tiles) && Valid(pf)
    ensures var r := ReadTiles(TilesBytes(p, tiles, pf) + rest, tiles, LayoutOf(pf), palette);
            r.Got? && r.rest == rest && AllShow(p, tiles, r.value.blocks, pf)
    decreases |tiles|
  {
    hide ReadTile, CpixelShades, TileKeys, Inside, TileCode, Valid, CpixelOf, LayoutOf;
    if tiles == [] {
      assert [] + rest == rest;
    } else {
      var t, l := tiles[0], LayoutOf(pf);
      LayoutBytes(pf);
      var first, others := TileBytes(p, t, pf), TilesBytes(p, tiles[1..], pf);
      assert TilesBytes(p, tiles, pf) + rest == first + (others + rest);
      TileReadBack(TileKeys(p, t, pf), t.Width(), t.Height(), l, palette, others + rest);
      TilesReadBack(p, tiles[1..], pf, ReadTile(first + (others + rest), t.Width(), t.Height(), l, palette).value.palette, rest);
    }
  }

  lemma LayoutBytes(pf: PixelFormat)
    requires Valid(pf)
    ensures LayoutOf(pf).c == CpixelOf(pf) && LayoutOf(pf).pf == pf
  {
  }

  lemma TileAgrees(q: Picture, p: Picture, rect: Rect, t: Rect, pf: PixelFormat)
    requires q.Valid() && Inside(p, rect) && Inside(q, rect) && Inside(p, t) && Valid(pf)
    requires rect.x1 <= t.x1 && t.x2 <= rect.x2 && rect.y1 <= t.y1 && t.y2 <= rect.y2
    ensures Agrees(ClientShows(q, p, rect, pf), t, CpixelShades(TileKeys(p, t, pf), LayoutOf(pf)))
  {
    hide Block, CpixelShade, LayoutOf, Valid, CpixelKey, ClientShows, IndexIn, Convert, Unpack;
    var want, ps := ClientShows(q, p, rect, pf), CpixelShades(TileKeys(p, t, pf), LayoutOf(pf));
    BlockSize(p, t);
    forall z: Point | t.Has(z.x, z.y)
      ensures want.Holds(z) && 0 <= IndexIn(t, z.x, z.y) < |ps| && ps[IndexIn(t, z.x, z.y)] == want.At(z)
    {
      BlockAt(p, t, z);
      CpixelShows(p.At(z), pf);
      assert q.Holds(z);
    }
  }

  /** Reading a rectangle's plain bytes uses them all and gives the rectangle, as the format shows it. */
  lemma PlainRoundTrip(p: Picture, rect: Rect, pf: PixelFormat, palette: seq<Pixel>, q: Picture, rest: seq<byte>)
    requires Inside(p, rect) && Valid(pf) && Inside(q, rect)
    ensures var r := ReadTiles(Plain(p, rect, pf) + rest, SquareTiles(rect, TILE), LayoutOf(pf), palette);
            r.Got? && r.rest == rest && LayAll(q, SquareTiles(rect, TILE), r.value.blocks) == ClientShows(q, p, rect, pf)
  {
    hide Valid, TilesBytes, ReadTiles, SquareTiles, LayAll, LayoutOf, CpixelShades, TileKeys, Agrees, ClientShows, IndexIn;
    var tiles := SquareTiles(rect, TILE);
    RectTilesIn(p, rect);
    SquareTilesCut(rect, TILE);
    TilesReadBack(p, tiles, pf, palette, rest);
    var blocks := ReadTiles(Plain(p, rect, pf) + rest, tiles, LayoutOf(pf), palette).value.blocks;
    forall i | 0 <= i < |tiles| ensures Agrees(ClientShows(q, p, rect, pf), tiles[i], blocks[i]) {
      assert IsTile(rect, TILE, tiles[i]);
      TileAgrees(q, p, rect, tiles[i], pf);
    }
    ShowsElsewhere(q, p, rect, pf);
    LaidIsWanted(q, ClientShows(q, p, rect, pf), rect, tiles, blocks);
  }

  lemma ShowsElsewhere(q: Picture, p: Picture, rect: Rect, pf: PixelFormat)
    requires q.Valid() && Inside(p, rect)
    ensures forall z: Point :: q.Holds(z) && !rect.Has(z.x, z.y) ==> ClientShows(q, p, rect, pf).At(z) == q.At(z)
  {
  }

  // ---- On the wire, over the life of the stream ----

  /** A rectangle: the length of its deflated tiles, then those. */
  ghost function Payload(z: Zlib.Codec, level: nat, h: Zlib.History, p: Picture, rect: Rect, pf: PixelFormat): seq<byte>
    requires Inside(p, rect) && Valid(pf)
  {
    var packed := z.deflate(level, h, Plain(p, rect, pf));
    BeBytes(|packed|, 4) + packed
  }

  /** What a client keeps between rectangles: its inflater, and the last palette it was told. */
  datatype Memory = Memory(history: Zlib.History, palette: seq<Pixel>)

  /** What a client makes of a rectangle's bytes, and what it keeps. */
  datatype Shown = Shown(picture: Picture, memory: Memory)

  ghost function Decode(z: Zlib.Codec, k: Memory, s: seq<byte>, rect: Rect, pf: PixelFormat, q: Picture): (r: Read<Shown>)
    requires Valid(pf) && q.Valid()
    ensures r.Got? ==> r.value.picture.Valid() && r.value.picture.SameSize(q)
  {
    var head := Take(s, 4);
    if !head.Got? then Truncated(4)
    else
      var packed :- Take(head.rest, BeWord(head.value));
      var plain := z.inflate(k.history, packed.value);
      if plain.Garbled? then Malformed
      else
        var tiles := ReadTiles(plain.bytes, SquareTiles(rect, TILE), LayoutOf(pf), k.palette);
        if tiles.IsFailure() then tiles.PropagateFailure()
        else
          Got(Shown(LayAll(q, SquareTiles(rect, TILE), tiles.value.blocks),
                    Memory(k.history + [plain.bytes], tiles.value.palette)), packed.rest)
  }

  /** One rectangle through streams in step: read to its last byte, the picture
      right, and the streams in step for the next, as long as the length fits its four bytes. */
  lemma RectangleRoundTrip(z: Zlib.Codec, level: nat, k: Memory, p: Picture, rect: Rect, pf: PixelFormat, q: Picture, rest: seq<byte>)
    requires Zlib.Lossless(z) && Inside(p, rect) && Inside(q, rect) && Valid(pf)
    requires |z.deflate(level, k.history, Plain(p, rect, pf))| < Pow2(32)
    ensures var r := Decode(z, k, Payload(z, level, k.history, p, rect, pf) + rest, rect, pf, q);
            && r.Got? && r.rest == rest && r.value.picture == ClientShows(q, p, rect, pf)
            && r.value.memory.history == k.history + [Plain(p, rect, pf)]
  {
    hide Valid, ReadTiles, SquareTiles, LayAll, LayoutOf, ClientShows, Plain, Pow2, BeBytes, BeWord;
    var packed := z.deflate(level, k.history, Plain(p, rect, pf));
    var head := BeBytes(|packed|, 4);
    assert Payload(z, level, k.history, p, rect, pf) + rest == head + (packed + rest);
    TakeExact(head, packed + rest);
    BeReadBack(|packed|, 4);
    SmallMod(|packed|, Pow2(32));
    TakeExact(packed, rest);
    PlainRoundTrip(p, rect, pf, k.palette, q, []);
    assert Plain(p, rect, pf) + [] == Plain(p, rect, pf);
    assert z.inflate(k.history, packed) == Zlib.Inflated(Plain(p, rect, pf));
  }

  /** One rectangle of a session: what it shows, and where. */
  datatype Sent = Sent(picture: Picture, rect: Rect)

  ghost predicate Sendable(sent: seq<Sent>, q: Picture) {
    forall i :: 0 <= i < |sent| ==> Inside(sent[i].picture, sent[i].rect) && Inside(q, sent[i].rect)
  }

  /** The payloads of a run of rectangles, all through one stream. */
  ghost function Stream(z: Zlib.Codec, level: nat, h: Zlib.History, sent: seq<Sent>, pf: PixelFormat, q: Picture): seq<byte>
    requires Valid(pf) && Sendable(sent, q)
    decreases |sent|
  {
    if sent == [] then []
    else
      Payload(z, level, h, sent[0].picture, sent[0].rect, pf)
      + Stream(z, level, h + [Plain(sent[0].picture, sent[0].rect, pf)], sent[1..], pf, q)
  }

  ghost predicate LengthsFit(z: Zlib.Codec, level: nat, h: Zlib.History, sent: seq<Sent>, pf: PixelFormat, q: Picture)
    requires Valid(pf) && Sendable(sent, q)
    decreases |sent|
  {
    sent == [] ||
    (&& |z.deflate(level, h, Plain(sent[0].picture, sent[0].rect, pf))| < Pow2(32)
     && LengthsFit(z, level, h + [Plain(sent[0].picture, sent[0].rect, pf)], sent[1..], pf, q))
  }

  /** What the client's picture should be after them all. */
  ghost function AllShown(q: Picture, sent: seq<Sent>, pf: PixelFormat): (r: Picture)
    requires q.Valid() && Sendable(sent, q)
    ensures r.Valid() && r.SameSize(q)
    decreases |sent|
  {
    if sent == [] then q else AllShown(ClientShows(q, sent[0].picture, sent[0].rect, pf), sent[1..], pf)
  }

  ghost function DecodeAll(z: Zlib.Codec, k: Memory, s: seq<byte>, sent: seq<Sent>, pf: PixelFormat, q: Picture): (r: Read<Picture>)
    requires Valid(pf) && q.Valid()
    decreases |sent|
  {
    if sent == [] then Got(q, s)
    else
      var one :- Decode(z, k, s, sent[0].rect, pf, q);
      DecodeAll(z, one.value.memory, one.rest, sent[1..], pf, one.value.picture)
  }

  /** Any number of rectangles through one stream: every byte is used, and the client's picture is right. */
  lemma {:induction false} StreamRoundTrip(z: Zlib.Codec, level: nat, k: Memory, sent: seq<Sent>, pf: PixelFormat, q: Picture, rest: seq<byte>)
    requires Zlib.Lossless(z) && Valid(pf) && q.Valid() && Sendable(sent, q) && LengthsFit(z, level, k.history, sent, pf, q)
    ensures DecodeAll(z, k, Stream(z, level, k.history, sent, pf, q) + rest, sent, pf, q) == Got(AllShown(q, sent, pf), rest)
    decreases |sent|
  {
    hide Valid, Decode, Payload, ClientShows, Plain, Pow2, Zlib.Lossless;
    if sent == [] {
      assert [] + rest == rest;
    } else {
      var one, h := sent[0], k.history + [Plain(sent[0].picture, sent[0].rect, pf)];
      var first, others := Payload(z, level, k.history, one.picture, one.rect, pf), Stream(z, level, h, sent[1..], pf, q);
      assert Stream(z, level, k.history, sent, pf, q) + rest == first + (others + rest);
      RectangleRoundTrip(z, level, k, one.picture, one.rect, pf, q, others + rest);
      var q' := ClientShows(q, one.picture, one.rect, pf);
      SameSizeSends(z, level, h, sent[1..], pf, q, q');
      StreamRoundTrip(z, level, Decode(z, k, first + (others + rest), one.rect, pf, q).value.memory, sent[1..], pf, q', rest);
    }
  }

  lemma {:induction false} SameSizeSends(z: Zlib.Codec, level: nat, h: Zlib.History, sent: seq<Sent>, pf: PixelFormat, q: Picture, q': Picture)
    requires Valid(pf) && q.Valid() && q'.Valid() && q.SameSize(q') && Sendable(sent, q)
    ensures Sendable(sent, q') && Stream(z, level, h, sent, pf, q') == Stream(z, level, h, sent, pf, q)
    ensures LengthsFit(z, level, h, sent, pf, q') == LengthsFit(z, level, h, sent, pf, q)
    decreases |sent|
  {
    hide Valid, Payload, Plain, Pow2;
    if sent != [] {
      SameSizeSends(z, level, h + [Plain(sent[0].picture, sent[0].rect, pf)], sent[1..], pf, q, q');
    }
  }
}
