/** Blocks of a picture as their pixels in rows, and as the keys an encoder compares. */
module Blocks {
  import opened Geometry
  import opened Arithmetic
  import opened Bits
  import opened Regions
  import opened Pictures
  import opened Framebuffers
  import opened PixelFormats
  import opened Tilings
  import PixelSets

  ghost predicate Inside(p: Picture, r: Rect) {
    p.Valid() && 0 <= r.x1 <= r.x2 <= p.width && 0 <= r.y1 <= r.y2 <= p.height
  }

  /** The pixels of a block, row after row. */
  ghost function Block(p: Picture, r: Rect): seq<Pixel>
    requires Inside(p, r)
    decreases r.y2 - r.y1
  {
    if r.y1 == r.y2 then []
    else Span(p, r.x1, r.y1, r.Width()) + Block(p, Rect(r.x1, r.y1 + 1, r.x2, r.y2))
  }

  lemma {:induction false} BlockSize(p: Picture, r: Rect)
    requires Inside(p, r)
    ensures |Block(p, r)| == r.Width() * r.Height()
    decreases r.y2 - r.y1
  {
    if r.y1 < r.y2 {
      BlockSize(p, Rect(r.x1, r.y1 + 1, r.x2, r.y2));
      Distributes(r.Height() - 1, r.Width());
    }
  }

  /** Each pixel stands where its row and column put it. */
  lemma {:induction false} BlockAt(p: Picture, r: Rect, z: Point)
    requires Inside(p, r) && r.Has(z.x, z.y)
    ensures 0 <= IndexIn(r, z.x, z.y) < |Block(p, r)| && Block(p, r)[IndexIn(r, z.x, z.y)] == p.At(z)
    decreases r.y2 - r.y1
  {
    hide Span;
    BlockSize(p, r);
    IndexInBlock(r, z.x, z.y);
    if r.y1 < z.y {
      var below := Rect(r.x1, r.y1 + 1, r.x2, r.y2);
      BlockAt(p, below, z);
      Distributes(z.y - r.y1 - 1, r.Width());
    }
  }

  /** Reading rows one by one adds up to the block. */
  lemma {:induction false} BlockNextRow(p: Picture, r: Rect, y: int)
    requires Inside(p, r) && r.y1 <= y < r.y2
    ensures Block(p, Rect(r.x1, r.y1, r.x2, y + 1)) == Block(p, Rect(r.x1, r.y1, r.x2, y)) + Span(p, r.x1, y, r.Width())
    decreases y - r.y1
  {
    hide Block, Span;
    var below := Rect(r.x1, r.y1 + 1, r.x2, r.y2);
    BlockFirst(p, Rect(r.x1, r.y1, r.x2, y + 1));
    BlockFirst(p, Rect(r.x1, r.y1, r.x2, y));
    if r.y1 < y {
      BlockNextRow(p, below, y);
    } else {
      BlockFirst(p, Rect(r.x1, y + 1, r.x2, y + 1));
    }
  }

  lemma BlockFirst(p: Picture, r: Rect)
    requires Inside(p, r)
    ensures r.y1 < r.y2 ==> Block(p, r) == Span(p, r.x1, r.y1, r.Width()) + Block(p, Rect(r.x1, r.y1 + 1, r.x2, r.y2))
    ensures r.y1 == r.y2 ==> Block(p, r) == []
  {
  }

  lemma RowIn(p: Picture, tile: Rect, row: int)
    requires Inside(p, tile) && tile.y1 <= row < tile.y2
    ensures 0 <= tile.x1 && 0 <= row < p.height && tile.x1 + tile.Width() <= p.width
    ensures Inside(p, Rect(tile.x1, tile.y1, tile.x2, row)) && Inside(p, Rect(tile.x1, tile.y1, tile.x2, row + 1))
  {
  }

  /** One thing over and over. */
  function Uniform<T>(v: T, n: nat): (vs: seq<T>)
    ensures |vs| == n && forall i :: 0 <= i < n ==> vs[i] == v
  {
    seq(n, _ => v)
  }

  // ---- Keys ----

  /** A pixel in the client's format, as one number to compare. */
  function Key(px: Pixel, pf: PixelFormat): nat { LeWord(Convert(px, pf)) }

  function Keys(pixels: seq<Pixel>, pf: PixelFormat): (ks: seq<nat>)
    ensures |ks| == |pixels|
  {
    seq(|pixels|, i requires 0 <= i < |pixels| => Key(pixels[i], pf))
  }

  /** The bytes a key is written as. */
  function KeyBytes(key: nat, bpp: nat): seq<byte> { LeBytes(key, bpp) }

  function AllBytes(keys: seq<nat>, bpp: nat): seq<byte> {
    if keys == [] then [] else KeyBytes(keys[0], bpp) + AllBytes(keys[1..], bpp)
  }

  /** The pixel a client shows for a key. */
  function Shade(key: nat, pf: PixelFormat): Pixel { Unpack(KeyBytes(key, pf.BytesPerPixel()), pf) }

  lemma ConvertSize(px: Pixel, pf: PixelFormat)
    requires Valid(pf)
    ensures |Convert(px, pf)| == pf.BytesPerPixel()
  {
  }

  /** A key is its pixel's bytes, so the client shows what packing and unpacking give. */
  lemma KeyIsBytes(px: Pixel, pf: PixelFormat)
    requires Valid(pf)
    ensures KeyBytes(Key(px, pf), pf.BytesPerPixel()) == Convert(px, pf)
    ensures Shade(Key(px, pf), pf) == Unpack(Convert(px, pf), pf)
    ensures Key(px, pf) < Pow2(8 * pf.BytesPerPixel())
  {
    hide Convert, Unpack;
    ConvertSize(px, pf);
    BytesWord(Convert(px, pf));
  }

  lemma {:induction false} ConvertAllSize(pixels: seq<Pixel>, pf: PixelFormat)
    requires Valid(pf)
    ensures |ConvertAll(pixels, pf)| == |pixels| * pf.BytesPerPixel()
  {
    hide Convert, Valid, PixelFormat.BytesPerPixel;
    if pixels != [] {
      ConvertSize(pixels[0], pf);
      ConvertAllSize(pixels[1..], pf);
      Distributes(|pixels| - 1, pf.BytesPerPixel());
    }
  }

  /** The n-th stretch of bytes is the n-th pixel converted. */
  lemma {:induction false} ConvertedAt(pixels: seq<Pixel>, pf: PixelFormat, n: nat)
    requires Valid(pf) && n < |pixels|
    ensures var bpp := pf.BytesPerPixel();
            && 0 <= n * bpp <= n * bpp + bpp <= |ConvertAll(pixels, pf)|
            && ConvertAll(pixels, pf)[n * bpp..n * bpp + bpp] == Convert(pixels[n], pf)
  {
    hide Convert, Valid, PixelFormat.BytesPerPixel;
    var bpp := pf.BytesPerPixel();
    ConvertAllSize(pixels, pf);
    ConvertSize(pixels[0], pf);
    MulOrder(n + 1, |pixels|, bpp);
    Distributes(n, bpp);
    MulOrder(0, n, bpp);
    if n > 0 {
      ConvertedAt(pixels[1..], pf, n - 1);
      Distributes(n - 1, bpp);
      var at := (n - 1) * bpp;
      assert ConvertAll(pixels, pf)[at + bpp..at + bpp + bpp] == ConvertAll(pixels[1..], pf)[at..at + bpp];
    }
  }

  lemma {:induction false} AllBytesSize(keys: seq<nat>, bpp: nat)
    ensures |AllBytes(keys, bpp)| == |keys| * bpp
  {
    if keys != [] {
      AllBytesSize(keys[1..], bpp);
      Distributes(|keys| - 1, bpp);
    }
  }

  lemma {:induction false} AllBytesJoin(s: seq<nat>, t: seq<nat>, bpp: nat)
    ensures AllBytes(s + t, bpp) == AllBytes(s, bpp) + AllBytes(t, bpp)
  {
    if s == [] {
      assert s + t == t;
    } else {
      assert (s + t)[0] == s[0] && (s + t)[1..] == s[1..] + t;
      AllBytesJoin(s[1..], t, bpp);
    }
  }

  /** Converted pixels are their keys' bytes. */
  lemma {:induction false} ConvertedKeys(pixels: seq<Pixel>, pf: PixelFormat)
    requires Valid(pf)
    ensures ConvertAll(pixels, pf) == AllBytes(Keys(pixels, pf), pf.BytesPerPixel())
  {
    hide Convert, Key, KeyBytes;
    if pixels != [] {
      KeyIsBytes(pixels[0], pf);
      ConvertedKeys(pixels[1..], pf);
      assert Keys(pixels, pf)[1..] == Keys(pixels[1..], pf);
    }
  }

  /** The k-th stretch of bpp bytes is the k-th key. */
  lemma {:induction false} KeyAt(keys: seq<nat>, bpp: nat, k: nat)
    requires k < |keys|
    ensures (k + 1) * bpp <= |AllBytes(keys, bpp)|
    ensures k * bpp <= (k + 1) * bpp
    ensures AllBytes(keys, bpp)[k * bpp..(k + 1) * bpp] == KeyBytes(keys[k], bpp)
  {
    AllBytesSize(keys, bpp);
    MulOrder(k + 1, |keys|, bpp);
    Distributes(k, bpp);
    if k > 0 {
      KeyAt(keys[1..], bpp, k - 1);
      Distributes(k - 1, bpp);
      var rest := AllBytes(keys[1..], bpp);
      assert AllBytes(keys, bpp)[k * bpp..(k + 1) * bpp] == rest[(k - 1) * bpp..k * bpp];
    }
  }

  // ---- Rows of keys ----

  /** The key of one pixel of a block. */
  function At(keys: seq<nat>, w: nat, h: nat, px: nat, py: nat): (key: nat)
    requires |keys| == h * w && px < w && py < h
    ensures 0 <= py * w + px < |keys| && key == keys[py * w + px]
  {
    IndexFits(w, h, px, py);
    keys[py * w + px]
  }

  lemma IndexFits(w: nat, h: nat, px: nat, py: nat)
    requires px < w && py < h
    ensures 0 <= py * w + px < h * w
  {
    MulOrder(py + 1, h, w);
    Distributes(py, w);
    MulOrder(0, py, w);
  }

  /** One row of a block. */
  function Row(keys: seq<nat>, w: nat, h: nat, y: nat): (row: seq<nat>)
    requires |keys| == h * w && y < h
    ensures |row| == w && forall x :: 0 <= x < w ==> row[x] == At(keys, w, h, x, y)
  {
    MulOrder(y + 1, h, w);
    Distributes(y, w);
    MulOrder(0, y, w);
    keys[y * w..][..w]
  }

  // ---- What a client's picture becomes ----

  /** The picture with a rectangle of another, as a client of this format can show it. */
  ghost function ClientShows(q: Picture, p: Picture, rect: Rect, pf: PixelFormat): (r: Picture)
    requires q.Valid() && Inside(p, rect)
    ensures r.Valid() && r.SameSize(q)
    ensures forall z: Point {:trigger r.At(z)} :: q.Holds(z) ==>
      r.At(z) == if rect.Has(z.x, z.y) then Unpack(Convert(p.At(z), pf), pf) else q.At(z)
  {
    Build(q.width, q.height, z =>
      if !q.Holds(z) then BLACK
      else if rect.Has(z.x, z.y) then Unpack(Convert(p.At(z), pf), pf) else q.At(z))
  }

  /** Pixels in rows laid over a picture. */
  ghost function Lay(q: Picture, t: Rect, ps: seq<Pixel>): (r: Picture)
    requires q.Valid()
    ensures r.Valid() && r.SameSize(q)
    ensures forall z: Point {:trigger r.At(z)} :: q.Holds(z) ==>
      r.At(z) == if t.Has(z.x, z.y) && 0 <= IndexIn(t, z.x, z.y) < |ps| then ps[IndexIn(t, z.x, z.y)] else q.At(z)
  {
    Build(q.width, q.height, z =>
      if !q.Holds(z) then BLACK
      else if t.Has(z.x, z.y) && 0 <= IndexIn(t, z.x, z.y) < |ps| then ps[IndexIn(t, z.x, z.y)] else q.At(z))
  }

  ghost function LayAll(q: Picture, tiles: seq<Rect>, blocks: seq<seq<Pixel>>): (r: Picture)
    requires q.Valid() && |blocks| == |tiles|
    ensures r.Valid() && r.SameSize(q)
    decreases |tiles|
  {
    if tiles == [] then q else LayAll(Lay(q, tiles[0], blocks[0]), tiles[1..], blocks[1..])
  }

  /** These pixels are what a picture holds there. */
  ghost predicate Agrees(want: Picture, t: Rect, ps: seq<Pixel>) {
    && want.Valid() && |ps| == t.Width() * t.Height()
    && forall z: Point {:trigger want.At(z)} :: t.Has(z.x, z.y) ==>
         want.Holds(z) && 0 <= IndexIn(t, z.x, z.y) < |ps| && ps[IndexIn(t, z.x, z.y)] == want.At(z)
  }

  lemma {:induction false} LaidAt(q: Picture, want: Picture, tiles: seq<Rect>, blocks: seq<seq<Pixel>>, z: Point)
    requires q.Valid() && want.Valid() && q.SameSize(want) && |blocks| == |tiles| && q.Holds(z)
    requires forall i :: 0 <= i < |tiles| ==> Agrees(want, tiles[i], blocks[i])
    ensures LayAll(q, tiles, blocks).At(z) == if Has(tiles, z.x, z.y) then want.At(z) else q.At(z)
    decreases |tiles|
  {
    hide Lay, Picture.At, IndexIn;
    if tiles != [] {
      assert forall i :: 0 <= i < |tiles| - 1 ==> tiles[1..][i] == tiles[i + 1] && blocks[1..][i] == blocks[i + 1];
      LaidAt(Lay(q, tiles[0], blocks[0]), want, tiles[1..], blocks[1..], z);
      HasFirst(tiles, z.x, z.y);
      assert Agrees(want, tiles[0], blocks[0]);
      assert tiles[0].Has(z.x, z.y) ==> want.At(z) == Lay(q, tiles[0], blocks[0]).At(z);
    }
  }

  /** The n-th pixel stands at its column and row. */
  lemma PlaceOf(t: Rect, n: nat)
    requires t.Width() > 0 && n < t.Width() * t.Height()
    ensures var z := Point(t.x1 + n % t.Width(), t.y1 + n / t.Width());
            && t.Has(z.x, z.y) && IndexIn(t, z.x, z.y) == n
            && forall x, y :: t.Has(x, y) && IndexIn(t, x, y) == n ==> Point(x, y) == z
  {
    hide IndexIn;
    var w := t.Width();
    DivBounds(n, w);
    MulCancel(n / w, t.Height(), w);
    DivAtLeast(n, w, 0);
    PlaceIndex(t, n);
    forall x, y | t.Has(x, y) && IndexIn(t, x, y) == n ensures Point(x, y) == Point(t.x1 + n % w, t.y1 + n / w) {
      IndexInBlock(t, x, y);
    }
  }

  lemma PlaceIndex(t: Rect, n: nat)
    requires t.Width() > 0
    ensures IndexIn(t, t.x1 + n % t.Width(), t.y1 + n / t.Width()) == n
  {
    DivMod(n, t.Width());
  }

  lemma NothingLaid(q: Picture, t: Rect)
    requires q.Valid()
    ensures Lay(q, t, []) == q
  {
    hide Lay;
    Same(Lay(q, t, []), q);
  }

  lemma LaidNext(q: Picture, t: Rect, ps: seq<Pixel>, n: nat)
    requires q.Valid() && n < |ps| <= t.Width() * t.Height() && t.Width() > 0
    ensures FillRect(Lay(q, t, ps[..n]), Sized(t.x1 + n % t.Width(), t.y1 + n / t.Width(), 1, 1), ps[n]) == Lay(q, t, ps[..n + 1])
  {
    hide FillRect, Lay, Picture.At, IndexIn;
    PlaceOf(t, n);
    var a := FillRect(Lay(q, t, ps[..n]), Sized(t.x1 + n % t.Width(), t.y1 + n / t.Width(), 1, 1), ps[n]);
    Same(a, Lay(q, t, ps[..n + 1]));
  }

  lemma PlaceInside(q: Picture, t: Rect, n: nat)
    requires t.Width() > 0 && Inside(q, t) && t.Has(t.x1 + n % t.Width(), t.y1 + n / t.Width())
    ensures 0 <= t.x1 + n % t.Width() < q.width && 0 <= t.y1 + n / t.Width() < q.height
  {
  }

  lemma SomeWidth(t: Rect)
    requires t.Width() * t.Height() > 0
    ensures t.Width() > 0
  {
  }

  /** Two pictures that agree everywhere but in a rectangle. */
  ghost predicate SameOutside(p: Picture, q: Picture, rect: Rect) {
    && p.Valid() && q.Valid() && p.SameSize(q)
    && forall z: Point :: p.Holds(z) && !rect.Has(z.x, z.y) ==> p.At(z) == q.At(z)
  }

  lemma Untouched(q: Picture, t: Rect)
    requires q.Valid()
    ensures SameOutside(q, q, t)
  {
  }

  /** What a tile leaves alone, its rectangle does. */
  lemma StillOutside(q: Picture, before: Picture, after: Picture, rect: Rect, t: Rect)
    requires SameOutside(q, before, rect) && SameOutside(before, after, t)
    requires rect.x1 <= t.x1 && t.x2 <= rect.x2 && rect.y1 <= t.y1 && t.y2 <= rect.y2
    ensures SameOutside(q, after, rect)
  {
  }

  lemma OutsideStill(q: Picture, p: Picture, r: Picture, rect: Rect)
    requires SameOutside(q, p, rect) && SameOutside(p, r, rect)
    ensures SameOutside(q, r, rect)
  {
  }

  lemma LaidOutside(q: Picture, t: Rect, ps: seq<Pixel>)
    requires q.Valid()
    ensures SameOutside(q, Lay(q, t, ps), t)
  {
  }

  /** Blocks that tile a rectangle, each right, make the rectangle right. */
  lemma LaidIsWanted(q: Picture, want: Picture, rect: Rect, tiles: seq<Rect>, blocks: seq<seq<Pixel>>)
    requires q.Valid() && want.Valid() && q.SameSize(want) && |blocks| == |tiles|
    requires forall i :: 0 <= i < |tiles| ==> Agrees(want, tiles[i], blocks[i])
    requires forall x, y :: Has(tiles, x, y) <==> rect.Has(x, y)
    requires forall z: Point :: q.Holds(z) && !rect.Has(z.x, z.y) ==> want.At(z) == q.At(z)
    ensures LayAll(q, tiles, blocks) == want
  {
    hide Lay, LayAll, Picture.At, Agrees;
    forall z: Point | q.Holds(z) ensures LayAll(q, tiles, blocks).At(z) == want.At(z) {
      LaidAt(q, want, tiles, blocks, z);
    }
    Same(LayAll(q, tiles, blocks), want);
  }

  // ---- How many different keys ----

  ghost function Distinct(keys: seq<nat>): set<nat> { set key | key in keys }

  lemma MoreDistinct(s: seq<nat>, t: seq<nat>)
    ensures |Distinct(s)| <= |Distinct(s + t)|
  {
    PixelSets.SubsetSize(Distinct(s), Distinct(s + t));
  }
}
