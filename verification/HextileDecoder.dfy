/** Reading Hextile back: what a tile's bytes say, and what a client then shows. */
module HextileDecoder {
  import opened Geometry
  import opened Arithmetic
  import opened Bits
  import opened Pictures
  import opened PixelFormats
  import opened Blocks
  import opened Tilings
  import opened Readers
  import opened Hextiles
  import opened HextileEncoder

  /** One block to fill, in its tile's coordinates. */
  datatype Patch = Patch(x: nat, y: nat, w: nat, h: nat, px: Pixel) {
    predicate Has(dx: int, dy: int) { x <= dx < x + w && y <= dy < y + h }
  }

  /** What a tile says: its pixels in rows, or a colour and blocks over it. */
  datatype Said = Sent(pixels: seq<Pixel>) | Filled(bg: Pixel, patches: seq<Patch>)

  /** The colours as the decoder carries them. */
  datatype Shades = Shades(bg: Pixel, fg: Pixel)

  datatype Told = Told(said: Said, shades: Shades)

  predicate Set(head: byte, flag: byte)
    requires flag > 0
  {
    head / flag % 2 == 1
  }

  function ReadPixel(s: seq<byte>, pf: PixelFormat): (r: Read<Pixel>)
    ensures Within(r, s)
  {
    var bs :- Take(s, pf.BytesPerPixel());
    Got(Unpack(bs.value, pf), bs.rest)
  }

  function Maybe(s: seq<byte>, news: bool, px: Pixel, pf: PixelFormat): (r: Read<Pixel>)
    ensures Within(r, s)
  {
    if news then ReadPixel(s, pf) else Got(px, s)
  }

  /** The pixels of a tile sent whole. */
  function Unpacked(bs: seq<byte>, n: nat, bpp: nat, pf: PixelFormat): (ps: seq<Pixel>)
    requires |bs| == n * bpp
    ensures |ps| == n
  {
    if n == 0 then []
    else
      Distributes(n - 1, bpp);
      MulOrder(0, n - 1, bpp);
      [Unpack(bs[..bpp], pf)] + Unpacked(bs[bpp..], n - 1, bpp, pf)
  }

  /** One block's colour, place and size; it must lie in the tile. */
  function ReadPatch(s: seq<byte>, w: nat, h: nat, pf: PixelFormat, coloured: bool, fg: Pixel): (r: Read<Patch>)
    ensures Within(r, s)
  {
    var px :- Maybe(s, coloured, fg, pf);
    var at :- Byte(px.rest);
    var size :- Byte(at.rest);
    var patch := Patch(at.value / 16, at.value % 16, size.value / 16 + 1, size.value % 16 + 1, px.value);
    if patch.x + patch.w > w || patch.y + patch.h > h then Malformed else Got(patch, size.rest)
  }

  function ReadPatches(s: seq<byte>, n: nat, w: nat, h: nat, pf: PixelFormat, coloured: bool, fg: Pixel): (r: Read<seq<Patch>>)
    ensures Within(r, s)
    decreases n
  {
    if n == 0 then Got([], s)
    else
      var patch :- ReadPatch(s, w, h, pf, coloured, fg);
      var patches :- ReadPatches(patch.rest, n - 1, w, h, pf, coloured, fg);
      Got([patch.value] + patches.value, patches.rest)
  }

  function ReadRaw(s: seq<byte>, w: nat, h: nat, pf: PixelFormat, c: Shades): (r: Read<Told>)
    ensures Within(r, s)
  {
    var bs :- Take(s, w * h * pf.BytesPerPixel());
    Got(Told(Sent(Unpacked(bs.value, w * h, pf.BytesPerPixel(), pf)), c), bs.rest)
  }

  function ReadBlocks(s: seq<byte>, head: byte, w: nat, h: nat, pf: PixelFormat, c: Shades): (r: Read<Told>)
    ensures Within(r, s)
  {
    if !Set(head, ANY_SUBRECTS) then Got(Told(Filled(c.bg, []), c), s)
    else
      var n :- Byte(s);
      var patches :- ReadPatches(n.rest, n.value, w, h, pf, Set(head, SUBRECTS_COLOURED), c.fg);
      Got(Told(Filled(c.bg, patches.value), c), patches.rest)
  }

  /** One tile. */
  function ReadTile(s: seq<byte>, w: nat, h: nat, pf: PixelFormat, c: Shades): (r: Read<Told>)
    ensures Within(r, s)
  {
    var head :- Byte(s);
    if Set(head.value, RAW) then ReadRaw(head.rest, w, h, pf, c)
    else
      var bg :- Maybe(head.rest, Set(head.value, BACKGROUND), c.bg, pf);
      var fg :- Maybe(bg.rest, Set(head.value, FOREGROUND), c.fg, pf);
      ReadBlocks(fg.rest, head.value, w, h, pf, Shades(bg.value, fg.value))
  }

  /** The tiles of a rectangle in order, each with the colours the last one left. */
  function ReadTiles(s: seq<byte>, tiles: seq<Rect>, pf: PixelFormat, c: Shades): (r: Read<seq<Said>>)
    ensures Within(r, s) && (r.Got? ==> |r.value| == |tiles|)
    decreases tiles
  {
    if tiles == [] then Got([], s)
    else
      var tile :- ReadTile(s, tiles[0].Width(), tiles[0].Height(), pf, c);
      var rest :- ReadTiles(tile.rest, tiles[1..], pf, tile.value.shades);
      Got([tile.value.said] + rest.value, rest.rest)
  }

  const UNSET := Shades(BLACK, BLACK)

  /** A block that would leave its tile is refused; any other stands at the column and row of
      the first byte with the width and height of the second. */
  lemma BlockOutside(s: seq<byte>, w: nat, h: nat, pf: PixelFormat, fg: Pixel)
    requires |s| >= 2
    ensures var x, y, width, height := s[0] / 16, s[0] % 16, s[1] / 16 + 1, s[1] % 16 + 1;
            ReadPatch(s, w, h, pf, false, fg) ==
              if x + width > w || y + height > h then Malformed else Got(Patch(x, y, width, height, fg), s[2..])
  {
    assert s[1..][1..] == s[2..];
  }

  // ---- More bytes never change what was read ----

  lemma MaybeGrows(s: seq<byte>, more: seq<byte>, news: bool, px: Pixel, pf: PixelFormat)
    ensures Grows(Maybe(s, news, px, pf), Maybe(s + more, news, px, pf), more)
  {
    hide Take, Unpack;
    TakeGrows(s, more, pf.BytesPerPixel());
  }

  lemma PatchGrows(s: seq<byte>, more: seq<byte>, w: nat, h: nat, pf: PixelFormat, coloured: bool, fg: Pixel)
    ensures Grows(ReadPatch(s, w, h, pf, coloured, fg), ReadPatch(s + more, w, h, pf, coloured, fg), more)
  {
    hide Maybe, Byte;
    MaybeGrows(s, more, coloured, fg, pf);
    var px := Maybe(s, coloured, fg, pf);
    if px.Got? {
      ByteGrows(px.rest, more);
      if Byte(px.rest).Got? {
        ByteGrows(Byte(px.rest).rest, more);
      }
    }
  }

  lemma {:induction false} PatchesGrow(s: seq<byte>, more: seq<byte>, n: nat, w: nat, h: nat, pf: PixelFormat, coloured: bool, fg: Pixel)
    ensures Grows(ReadPatches(s, n, w, h, pf, coloured, fg), ReadPatches(s + more, n, w, h, pf, coloured, fg), more)
    decreases n
  {
    hide ReadPatch;
    if n > 0 {
      PatchGrows(s, more, w, h, pf, coloured, fg);
      var patch := ReadPatch(s, w, h, pf, coloured, fg);
      if patch.Got? {
        PatchesGrow(patch.rest, more, n - 1, w, h, pf, coloured, fg);
      }
    }
  }

  lemma RawGrows(s: seq<byte>, more: seq<byte>, w: nat, h: nat, pf: PixelFormat, c: Shades)
    ensures Grows(ReadRaw(s, w, h, pf, c), ReadRaw(s + more, w, h, pf, c), more)
  {
    hide Take, Unpacked;
    TakeGrows(s, more, w * h * pf.BytesPerPixel());
  }

  lemma BlocksGrow(s: seq<byte>, more: seq<byte>, head: byte, w: nat, h: nat, pf: PixelFormat, c: Shades)
    ensures Grows(ReadBlocks(s, head, w, h, pf, c), ReadBlocks(s + more, head, w, h, pf, c), more)
  {
    hide Byte, ReadPatches, Set;
    ByteGrows(s, more);
    var n := Byte(s);
    if n.Got? {
      PatchesGrow(n.rest, more, n.value, w, h, pf, Set(head, SUBRECTS_COLOURED), c.fg);
    }
  }

  lemma TileGrows(s: seq<byte>, more: seq<byte>, w: nat, h: nat, pf: PixelFormat, c: Shades)
    ensures Grows(ReadTile(s, w, h, pf, c), ReadTile(s + more, w, h, pf, c), more)
  {
    hide Byte, ReadRaw, Maybe, ReadBlocks, Set;
    ByteGrows(s, more);
    var head := Byte(s);
    if head.Got? {
      RawGrows(head.rest, more, w, h, pf, c);
      MaybeGrows(head.rest, more, Set(head.value, BACKGROUND), c.bg, pf);
      var bg := Maybe(head.rest, Set(head.value, BACKGROUND), c.bg, pf);
      if bg.Got? {
        MaybeGrows(bg.rest, more, Set(head.value, FOREGROUND), c.fg, pf);
        var fg := Maybe(bg.rest, Set(head.value, FOREGROUND), c.fg, pf);
        if fg.Got? {
          BlocksGrow(fg.rest, more, head.value, w, h, pf, Shades(bg.value, fg.value));
        }
      }
    }
  }

  /** A result on part of a payload stands whatever arrives after it. */
  lemma {:induction false} TilesGrow(s: seq<byte>, more: seq<byte>, tiles: seq<Rect>, pf: PixelFormat, c: Shades)
    ensures Grows(ReadTiles(s, tiles, pf, c), ReadTiles(s + more, tiles, pf, c), more)
    decreases tiles
  {
    hide ReadTile;
    if tiles != [] {
      TileGrows(s, more, tiles[0].Width(), tiles[0].Height(), pf, c);
      var tile := ReadTile(s, tiles[0].Width(), tiles[0].Height(), pf, c);
      if tile.Got? {
        TilesGrow(tile.rest, more, tiles[1..], pf, tile.value.shades);
      }
    }
  }

  // ---- What a tile shows ----

  /** The colour under the last block that covers a pixel, or the background. */
  function Over(bg: Pixel, patches: seq<Patch>, dx: int, dy: int): Pixel {
    if patches == [] then bg
    else
      var n := |patches| - 1;
      if patches[n].Has(dx, dy) then patches[n].px else Over(bg, patches[..n], dx, dy)
  }

  function ShownAt(said: Said, w: nat, dx: nat, dy: nat): Pixel {
    match said
    case Sent(pixels) => if dy * w + dx < |pixels| then pixels[dy * w + dx] else BLACK
    case Filled(bg, patches) => Over(bg, patches, dx, dy)
  }

  /** The tile shows each key's own pixel. */
  ghost predicate Shows(said: Said, keys: seq<nat>, w: nat, h: nat, pf: PixelFormat)
    requires |keys| == h * w
  {
    forall dx, dy {:trigger At(keys, w, h, dx, dy)} :: 0 <= dx < w && 0 <= dy < h ==>
      ShownAt(said, w, dx, dy) == Shade(At(keys, w, h, dx, dy), pf)
  }

  /** What the encoder takes as said is what the decoder remembers. */
  ghost predicate InStep(c: Carried, sh: Shades, pf: PixelFormat) {
    && (c.bg.Some? ==> sh.bg == Shade(c.bg.value, pf))
    && (c.fg.Some? ==> sh.fg == Shade(c.fg.value, pf))
  }

  /** The tile's bytes are read to their end, show the tile, and leave both sides in step. */
  ghost predicate ReadBack(r: Read<Told>, rest: seq<byte>, after: Carried, keys: seq<nat>, w: nat, h: nat, pf: PixelFormat)
    requires |keys| == h * w
  {
    r.Got? && r.rest == rest && InStep(after, r.value.shades, pf) && Shows(r.value.said, keys, w, h, pf)
  }

  // ---- Raw tiles ----

  lemma {:induction false} UnpackedKeys(keys: seq<nat>, bpp: nat, pf: PixelFormat, i: nat)
    requires i < |keys| && bpp == pf.BytesPerPixel() && |AllBytes(keys, bpp)| == |keys| * bpp
    ensures Unpacked(AllBytes(keys, bpp), |keys|, bpp, pf)[i] == Shade(keys[i], pf)
  {
    hide Unpack, KeyBytes, PixelFormat.BytesPerPixel, AllBytes, Unpacked;
    var first, others := KeyBytes(keys[0], bpp), AllBytes(keys[1..], bpp);
    AllBytesSize(keys[1..], bpp);
    AllBytesFirst(keys, bpp);
    UnpackedFirst(first, others, |keys|, bpp, pf);
    if i > 0 {
      UnpackedKeys(keys[1..], bpp, pf, i - 1);
    }
  }

  lemma AllBytesFirst(keys: seq<nat>, bpp: nat)
    requires keys != []
    ensures AllBytes(keys, bpp) == KeyBytes(keys[0], bpp) + AllBytes(keys[1..], bpp) && |KeyBytes(keys[0], bpp)| == bpp
  {
  }

  lemma UnpackedFirst(first: seq<byte>, others: seq<byte>, n: nat, bpp: nat, pf: PixelFormat)
    requires n > 0 && |first| == bpp && |first + others| == n * bpp && |others| == (n - 1) * bpp
    ensures Unpacked(first + others, n, bpp, pf) == [Unpack(first, pf)] + Unpacked(others, n - 1, bpp, pf)
  {
    hide Unpack;
    assert (first + others)[..bpp] == first && (first + others)[bpp..] == others;
  }

  lemma KeyPresent(keys: seq<nat>, w: nat, h: nat, dx: nat, dy: nat)
    requires |keys| == h * w && dx < w && dy < h
    ensures At(keys, w, h, dx, dy) in keys
  {
    var i, key := dy * w + dx, At(keys, w, h, dx, dy);
    assert key == keys[i];
  }

  lemma AllUnpacked(keys: seq<nat>, pf: PixelFormat)
    requires |AllBytes(keys, pf.BytesPerPixel())| == |keys| * pf.BytesPerPixel()
    ensures var ps := Unpacked(AllBytes(keys, pf.BytesPerPixel()), |keys|, pf.BytesPerPixel(), pf);
            forall i :: 0 <= i < |keys| ==> ps[i] == Shade(keys[i], pf)
  {
    hide Unpacked, Shade, AllBytes;
    forall i | 0 <= i < |keys|
      ensures Unpacked(AllBytes(keys, pf.BytesPerPixel()), |keys|, pf.BytesPerPixel(), pf)[i] == Shade(keys[i], pf)
    {
      UnpackedKeys(keys, pf.BytesPerPixel(), pf, i);
    }
  }

  lemma RawShows(ps: seq<Pixel>, keys: seq<nat>, w: nat, h: nat, pf: PixelFormat)
    requires |keys| == h * w && |ps| == |keys| && forall i :: 0 <= i < |ps| ==> ps[i] == Shade(keys[i], pf)
    ensures Shows(Sent(ps), keys, w, h, pf)
  {
    hide Shade;
    forall dx, dy | 0 <= dx < w && 0 <= dy < h ensures ShownAt(Sent(ps), w, dx, dy) == Shade(At(keys, w, h, dx, dy), pf) {
      RawPixel(ps, keys, w, h, pf, dx, dy);
    }
  }

  lemma RawPixel(ps: seq<Pixel>, keys: seq<nat>, w: nat, h: nat, pf: PixelFormat, dx: nat, dy: nat)
    requires |keys| == h * w && |ps| == |keys| && forall i :: 0 <= i < |ps| ==> ps[i] == Shade(keys[i], pf)
    requires dx < w && dy < h
    ensures ShownAt(Sent(ps), w, dx, dy) == Shade(At(keys, w, h, dx, dy), pf)
  {
    hide Shade, At;
    var i, key := dy * w + dx, At(keys, w, h, dx, dy);
    assert ps[i] == Shade(keys[i], pf);
  }

  lemma RawReadBack(keys: seq<nat>, w: nat, h: nat, pf: PixelFormat, c: Carried, sh: Shades, rest: seq<byte>)
    requires |keys| == h * w && InStep(c, sh, pf)
    ensures ReadBack(ReadTile([RAW] + AllBytes(keys, pf.BytesPerPixel()) + rest, w, h, pf, sh), rest, c, keys, w, h, pf)
  {
    hide Unpacked, AllBytes, PixelFormat.BytesPerPixel, Shows, InStep, Byte, Take;
    var bs := AllBytes(keys, pf.BytesPerPixel());
    AllBytesSize(keys, pf.BytesPerPixel());
    AllUnpacked(keys, pf);
    RawShows(Unpacked(bs, |keys|, pf.BytesPerPixel(), pf), keys, w, h, pf);
    HeadThen(RAW, bs, rest);
    TakeExact(bs, rest);
    assert w * h == h * w;
  }

  // ---- Described tiles ----

  function PatchOf(s: Sub, coloured: bool, fg: Pixel, pf: PixelFormat): Patch {
    Patch(s.x, s.y, s.w, s.h, if coloured then Shade(s.colour, pf) else fg)
  }

  lemma MaybeRead(news: bool, key: nat, was: Pixel, pf: PixelFormat, rest: seq<byte>)
    ensures Maybe((if news then KeyBytes(key, pf.BytesPerPixel()) else []) + rest, news, was, pf)
         == Got(if news then Shade(key, pf) else was, rest)
  {
    hide Unpack;
    TakeExact(KeyBytes(key, pf.BytesPerPixel()), rest);
    assert [] + rest == rest;
  }

  lemma PatchRead(s: Sub, w: nat, h: nat, coloured: bool, fg: Pixel, pf: PixelFormat, rest: seq<byte>)
    requires SubFits(s) && s.x + s.w <= w && s.y + s.h <= h
    ensures ReadPatch(SubBytes(s, coloured, pf.BytesPerPixel()) + rest, w, h, pf, coloured, fg) == Got(PatchOf(s, coloured, fg, pf), rest)
  {
    hide KeyBytes, Shade, Maybe, PixelFormat.BytesPerPixel, Byte;
    var at: byte, size: byte := 16 * s.x + s.y, 16 * (s.w - 1) + (s.h - 1);
    var colour := if coloured then KeyBytes(s.colour, pf.BytesPerPixel()) else [];
    assert SubBytes(s, coloured, pf.BytesPerPixel()) + rest == colour + ([at, size] + rest);
    MaybeRead(coloured, s.colour, fg, pf, [at, size] + rest);
    TwoBytes(at, size, rest);
    HalvesOf(s.x, s.y);
    HalvesOf(s.w - 1, s.h - 1);
  }

  lemma TwoBytes(a: byte, b: byte, rest: seq<byte>)
    ensures Byte([a, b] + rest) == Got(a, [b] + rest) && Byte([b] + rest) == Got(b, rest)
  {
    assert ([a, b] + rest)[1..] == [b] + rest && ([b] + rest)[1..] == rest;
  }

  /** Two numbers below sixteen share a byte. */
  lemma HalvesOf(high: nat, low: nat)
    requires high < 16 && low < 16
    ensures (16 * high + low) / 16 == high && (16 * high + low) % 16 == low
  {
  }

  predicate SubsIn(subs: seq<Sub>, w: nat, h: nat) {
    forall i :: 0 <= i < |subs| ==> SubFits(subs[i]) && subs[i].x + subs[i].w <= w && subs[i].y + subs[i].h <= h
  }

  function PatchesOf(subs: seq<Sub>, coloured: bool, fg: Pixel, pf: PixelFormat): (ps: seq<Patch>)
    ensures |ps| == |subs| && forall i :: 0 <= i < |subs| ==> ps[i] == PatchOf(subs[i], coloured, fg, pf)
  {
    if subs == [] then [] else [PatchOf(subs[0], coloured, fg, pf)] + PatchesOf(subs[1..], coloured, fg, pf)
  }

  lemma {:induction false} PatchesRead(subs: seq<Sub>, w: nat, h: nat, coloured: bool, fg: Pixel, pf: PixelFormat, rest: seq<byte>)
    requires AllSubsFit(subs) && SubsIn(subs, w, h)
    ensures ReadPatches(SubsBytes(subs, coloured, pf.BytesPerPixel()) + rest, |subs|, w, h, pf, coloured, fg)
         == Got(PatchesOf(subs, coloured, fg, pf), rest)
  {
    hide ReadPatch, PatchOf, SubBytes;
    if subs == [] {
      assert [] + rest == rest;
    } else {
      var bpp := pf.BytesPerPixel();
      var first, others := SubBytes(subs[0], coloured, bpp), SubsBytes(subs[1..], coloured, bpp);
      assert SubsBytes(subs, coloured, bpp) + rest == first + (others + rest);
      PatchRead(subs[0], w, h, coloured, fg, pf, others + rest);
      PatchesRead(subs[1..], w, h, coloured, fg, pf, rest);
    }
  }

  /** If every block over a pixel has one colour, the pixel shows it; under none, it shows the background. */
  lemma {:induction false} OverAt(bg: Pixel, patches: seq<Patch>, dx: int, dy: int, px: Pixel)
    requires forall i :: 0 <= i < |patches| && patches[i].Has(dx, dy) ==> patches[i].px == px
    ensures Over(bg, patches, dx, dy) == if exists i :: 0 <= i < |patches| && patches[i].Has(dx, dy) then px else bg
  {
    if patches != [] {
      var n := |patches| - 1;
      OverAt(bg, patches[..n], dx, dy, px);
      assert forall i :: 0 <= i < n ==> patches[..n][i] == patches[i];
    }
  }

  /** A description that is right about its tile. */
  ghost predicate Describes(d: Form, keys: seq<nat>, w: nat, h: nat)
    requires |keys| == h * w
  {
    && d.Described? && Partition(keys, w, h, 0, h, d.bg, d.subs)
    && (d.fg.Some? ==> forall key :: key in keys && key != d.bg ==> key == d.fg.value)
  }

  lemma DescribedShows(d: Form, keys: seq<nat>, w: nat, h: nat, fg: Pixel, pf: PixelFormat)
    requires |keys| == h * w && Describes(d, keys, w, h) && (d.fg.Some? ==> fg == Shade(d.fg.value, pf))
    ensures Shows(Filled(Shade(d.bg, pf), PatchesOf(d.subs, d.fg.None?, fg, pf)), keys, w, h, pf)
  {
    hide Shade, Over, PatchesOf, Partition;
    var patches := PatchesOf(d.subs, d.fg.None?, fg, pf);
    forall dx, dy | 0 <= dx < w && 0 <= dy < h
      ensures Over(Shade(d.bg, pf), patches, dx, dy) == Shade(At(keys, w, h, dx, dy), pf)
    {
      var key := At(keys, w, h, dx, dy);
      PatchedPixel(d, keys, w, h, fg, pf, dx, dy);
      OverAt(Shade(d.bg, pf), patches, dx, dy, Shade(key, pf));
    }
  }

  /** The blocks over a pixel all show its key, and there is one unless it is background. */
  lemma PatchedPixel(d: Form, keys: seq<nat>, w: nat, h: nat, fg: Pixel, pf: PixelFormat, dx: nat, dy: nat)
    requires |keys| == h * w && Describes(d, keys, w, h) && (d.fg.Some? ==> fg == Shade(d.fg.value, pf))
    requires dx < w && dy < h
    ensures var patches, key := PatchesOf(d.subs, d.fg.None?, fg, pf), At(keys, w, h, dx, dy);
            && (forall i :: 0 <= i < |patches| && patches[i].Has(dx, dy) ==> patches[i].px == Shade(key, pf))
            && ((exists i :: 0 <= i < |patches| && patches[i].Has(dx, dy)) <==> key != d.bg)
  {
    hide Shade, PatchesOf, At;
    var patches, key := PatchesOf(d.subs, d.fg.None?, fg, pf), At(keys, w, h, dx, dy);
    KeyPresent(keys, w, h, dx, dy);
    forall i | 0 <= i < |patches| && patches[i].Has(dx, dy) ensures patches[i].px == Shade(key, pf) && key != d.bg {
      assert patches[i] == PatchOf(d.subs[i], d.fg.None?, fg, pf);
      assert Sound(keys, w, h, 0, h, d.bg, d.subs[i]) && d.subs[i].Has(dx, dy);
      assert key == d.subs[i].colour;
    }
    if key != d.bg {
      assert Covered(d.subs, dx, dy);
      var i :| 0 <= i < |d.subs| && d.subs[i].Has(dx, dy);
      assert patches[i] == PatchOf(d.subs[i], d.fg.None?, fg, pf);
      assert patches[i].Has(dx, dy);
    }
  }

  // ---- Any tile ----

  lemma OneColour(keys: seq<nat>)
    ensures |Colours(keys)| == 1 ==> forall key :: key in keys ==> key == Colours(keys)[0].key
  {
    hide Colours, Find;
    ColoursAreCounts(keys);
    forall key ensures key in keys && |Colours(keys)| == 1 ==> key == Colours(keys)[0].key {
      assert key in keys && |Colours(keys)| == 1 ==> Find(Colours(keys), key) == 0;
    }
  }

  /** With two colours, what is not the one is the other. */
  lemma OtherColour(keys: seq<nat>, bg: nat)
    ensures var colours := Colours(keys);
            |colours| == 2 && OtherThan(colours, bg).Some? && (colours[0].key == bg || colours[1].key == bg) ==>
              forall key :: key in keys && key != bg ==> key == OtherThan(colours, bg).value
  {
    hide Colours, Find, OtherThan;
    ColoursAreCounts(keys);
    var colours := Colours(keys);
    forall key ensures |colours| == 2 && key in keys ==> key == colours[0].key || key == colours[1].key {
      assert |colours| == 2 && key in keys ==> Find(colours, key) < 2;
    }
  }

  /** What is news is said, and what is described is so. */
  ghost predicate Right(f: Form, keys: seq<nat>, w: nat, h: nat, c: Carried)
    requires |keys| == h * w
  {
    match f
    case Raw => true
    case Solid(newBg, bg) => newBg == (c.bg != Some(bg)) && forall key :: key in keys ==> key == bg
    case Described(newBg, bg, newFg, fg, subs) =>
      Describes(f, keys, w, h) && SubsIn(subs, w, h) && newBg == (c.bg != Some(bg)) && newFg == (fg.Some? && c.fg != fg)
  }

  lemma FormIsRight(keys: seq<nat>, w: nat, h: nat, bpp: nat, c: Carried)
    requires |keys| == h * w && w <= TILE && h <= TILE
    ensures Right(FormOf(keys, w, h, bpp, c), keys, w, h, c)
  {
    hide Colours, Runs, Body, Partition, Commonest, OtherThan;
    var colours := Colours(keys);
    OneColour(keys);
    if |colours| > 1 {
      var bg := Commonest(colours).key;
      RunsPartition(keys, w, h, bg);
      RunsInTile(keys, w, h, bg);
      TwoColours(keys, bg);
      OtherColour(keys, bg);
    }
  }

  lemma RunsInTile(keys: seq<nat>, w: nat, h: nat, bg: nat)
    requires |keys| == h * w && w <= TILE && h <= TILE
    ensures SubsIn(Runs(keys, w, h, bg), w, h)
  {
    hide Runs;
    RunsPartition(keys, w, h, bg);
    var subs := Runs(keys, w, h, bg);
    forall i | 0 <= i < |subs| ensures SubFits(subs[i]) && subs[i].x + subs[i].w <= w && subs[i].y + subs[i].h <= h {
      assert Sound(keys, w, h, 0, h, bg, subs[i]);
    }
  }

  lemma SolidReadBack(f: Form, keys: seq<nat>, w: nat, h: nat, pf: PixelFormat, c: Carried, sh: Shades, rest: seq<byte>)
    requires |keys| == h * w && f.Solid? && Right(f, keys, w, h, c) && InStep(c, sh, pf)
    ensures ReadBack(ReadTile(WriteForm(f, keys, pf.BytesPerPixel()) + rest, w, h, pf, sh), rest, f.After(c), keys, w, h, pf)
  {
    hide Shade, KeyBytes, Maybe, PixelFormat.BytesPerPixel, Byte;
    var body := Body(f, keys, pf.BytesPerPixel());
    HeadThen(Head(f), body, rest);
    MaybeRead(f.newBg, f.bg, sh.bg, pf, rest);
    MaybeKept(rest, sh.fg, pf);
    forall dx, dy | 0 <= dx < w && 0 <= dy < h ensures At(keys, w, h, dx, dy) == f.bg {
      KeyPresent(keys, w, h, dx, dy);
    }
  }

  lemma MaybeKept(s: seq<byte>, px: Pixel, pf: PixelFormat)
    ensures Maybe(s, false, px, pf) == Got(px, s)
  {
  }

  lemma FlagsRead(f: Form)
    requires f.Described?
    ensures !Set(Head(f), RAW) && Set(Head(f), ANY_SUBRECTS)
    ensures Set(Head(f), BACKGROUND) == f.newBg && Set(Head(f), FOREGROUND) == f.newFg && Set(Head(f), SUBRECTS_COLOURED) == f.fg.None?
  {
  }

  /** The blocks after the colours. */
  lemma BlocksRead(f: Form, w: nat, h: nat, pf: PixelFormat, sh: Shades, rest: seq<byte>)
    requires f.Described? && Writable(f) && SubsIn(f.subs, w, h)
    ensures ReadBlocks([|f.subs|] + SubsBytes(f.subs, f.fg.None?, pf.BytesPerPixel()) + rest, Head(f), w, h, pf, sh)
         == Got(Told(Filled(sh.bg, PatchesOf(f.subs, f.fg.None?, sh.fg, pf)), sh), rest)
  {
    hide Byte, SubsBytes, PatchesOf, ReadPatches, Set, Head, PixelFormat.BytesPerPixel;
    FlagsRead(f);
    HeadThen(|f.subs|, SubsBytes(f.subs, f.fg.None?, pf.BytesPerPixel()), rest);
    PatchesRead(f.subs, w, h, f.fg.None?, sh.fg, pf, rest);
  }

  lemma DescribedReadBack(f: Form, keys: seq<nat>, w: nat, h: nat, pf: PixelFormat, c: Carried, sh: Shades, rest: seq<byte>)
    requires |keys| == h * w && f.Described? && Writable(f) && Right(f, keys, w, h, c) && InStep(c, sh, pf)
    ensures ReadBack(ReadTile(WriteForm(f, keys, pf.BytesPerPixel()) + rest, w, h, pf, sh), rest, f.After(c), keys, w, h, pf)
  {
    hide Shade, KeyBytes, Maybe, PixelFormat.BytesPerPixel, Byte, Set, Head, ReadBlocks, SubsBytes, Describes, Shows, SubsIn;
    var bpp := pf.BytesPerPixel();
    var bg, fg := if f.newBg then KeyBytes(f.bg, bpp) else [], if f.newFg then KeyBytes(f.fg.value, bpp) else [];
    var blocks := [|f.subs|] + SubsBytes(f.subs, f.fg.None?, bpp);
    assert Body(f, keys, bpp) + rest == bg + (fg + (blocks + rest));
    HeadThen(Head(f), Body(f, keys, bpp), rest);
    FlagsRead(f);
    MaybeRead(f.newBg, f.bg, sh.bg, pf, fg + (blocks + rest));
    MaybeRead(f.newFg, if f.newFg then f.fg.value else 0, sh.fg, pf, blocks + rest);
    var after := Shades(if f.newBg then Shade(f.bg, pf) else sh.bg, if f.newFg then Shade(f.fg.value, pf) else sh.fg);
    assert blocks + rest == [|f.subs|] + SubsBytes(f.subs, f.fg.None?, bpp) + rest;
    BlocksRead(f, w, h, pf, after, rest);
    assert after.bg == Shade(f.bg, pf);
    DescribedShows(f, keys, w, h, after.fg, pf);
  }

  /** Every tile reads back: to its last byte, every pixel, the two sides still in step. */
  lemma TileReadBack(keys: seq<nat>, w: nat, h: nat, pf: PixelFormat, c: Carried, sh: Shades, rest: seq<byte>)
    requires |keys| == h * w && w <= TILE && h <= TILE && InStep(c, sh, pf)
    ensures var f := FormOf(keys, w, h, pf.BytesPerPixel(), c);
            ReadBack(ReadTile(WriteForm(f, keys, pf.BytesPerPixel()) + rest, w, h, pf, sh), rest, f.After(c), keys, w, h, pf)
  {
    hide FormOf, Right, InStep, ReadBack, ReadTile, PixelFormat.BytesPerPixel;
    var f := FormOf(keys, w, h, pf.BytesPerPixel(), c);
    FormIsRight(keys, w, h, pf.BytesPerPixel(), c);
    match f
    case Raw => RawReadBack(keys, w, h, pf, c, sh, rest);
    case Solid(_, _) => SolidReadBack(f, keys, w, h, pf, c, sh, rest);
    case Described(_, _, _, _, _) => DescribedReadBack(f, keys, w, h, pf, c, sh, rest);
  }
}
