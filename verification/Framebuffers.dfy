/** The captured picture as it is stored: tightly packed rows of four-byte pixels. */
module Framebuffers {
  import opened Geometry
  import opened Bits
  import opened Pictures

  function RowOffset(width: nat, y: nat): nat { y * (4 * width) }

  function Offset(width: nat, x: nat, y: nat): nat { RowOffset(width, y) + 4 * x }

  /** A later row starts at or after the end of an earlier one. */
  lemma RowsApart(width: nat, y: nat, z: nat)
    requires y < z
    ensures RowOffset(width, y) + 4 * width <= RowOffset(width, z)
  {
    assert RowOffset(width, y) + 4 * width == (y + 1) * (4 * width);
    assert (y + 1) * (4 * width) <= z * (4 * width);
  }

  lemma InRange(width: nat, height: nat, x: nat, y: nat, n: nat)
    requires y < height && x + n <= width
    ensures Offset(width, x, y) + 4 * n <= RowOffset(width, height)
  {
    RowsApart(width, y, height);
  }

  lemma OneRow(width: nat)
    ensures RowOffset(width, 0) == 0 && RowOffset(width, 1) == 4 * width
  {
  }

  function PixelFrom(d: seq<byte>, at: nat): Pixel
    requires at + 4 <= |d|
  {
    Pixel(d[at], d[at + 1], d[at + 2], d[at + 3])
  }

  /** The picture these bytes hold. */
  ghost function PictureOf(width: nat, height: nat, d: seq<byte>): (p: Picture)
    requires |d| == RowOffset(width, height)
    ensures p.Valid() && p.width == width && p.height == height
    ensures forall z: Point {:trigger p.At(z)} :: p.Holds(z) ==>
      0 <= Offset(width, z.x, z.y) <= |d| - 4 && p.At(z) == PixelFrom(d, Offset(width, z.x, z.y))
  {
    var p := Build(width, height, (z: Point) =>
      if 0 <= z.x < width && 0 <= z.y < height then
        InRange(width, height, z.x, z.y, 1);
        PixelFrom(d, Offset(width, z.x, z.y))
      else BLACK);
    assert forall z: Point :: p.Holds(z) ==> 0 <= Offset(width, z.x, z.y) <= |d| - 4 by {
      forall z: Point | p.Holds(z) ensures 0 <= Offset(width, z.x, z.y) <= |d| - 4 {
        InRange(width, height, z.x, z.y, 1);
      }
    }
    p
  }

  /** Four bytes a pixel, rows tightly packed: blue, green, red and one to spare. */
  lemma StoredAt(width: nat, height: nat, d: seq<byte>, z: Point)
    requires |d| == RowOffset(width, height) && 0 <= z.x < width && 0 <= z.y < height
    ensures var at, px := 4 * (z.y * width + z.x), PictureOf(width, height, d).At(z);
            0 <= at && at + 4 <= |d| && px.b == d[at] && px.g == d[at + 1] && px.r == d[at + 2] && px.x == d[at + 3]
  {
    InRange(width, height, z.x, z.y, 1);
    assert z.y * (4 * width) == 4 * (z.y * width);
  }

  /** Whole pixels laid end to end: n of them, in place of what stood at `at`. */
  ghost predicate Spliced(d: seq<byte>, d': seq<byte>, at: nat, bytes: seq<byte>) {
    && |d| == |d'| && at + |bytes| <= |d|
    && (forall k :: 0 <= k < |d| && !(at <= k < at + |bytes|) ==> d'[k] == d[k])
    && (forall k :: 0 <= k < |bytes| ==> d'[at + k] == bytes[k])
  }

  /** Overwriting part of one row lays those pixels over the picture. */
  lemma SpliceRow(width: nat, height: nat, d: seq<byte>, d': seq<byte>, x: nat, y: nat, bytes: seq<byte>, n: nat)
    requires |d| == RowOffset(width, height) && |bytes| == RowOffset(n, 1)
    requires y < height && x + n <= width
    requires Spliced(d, d', Offset(width, x, y), bytes)
    ensures PictureOf(width, height, d') == Overlay(PictureOf(width, height, d), PictureOf(n, 1, bytes), x, y)
  {
    hide Build, CopyBlock, Overlay, FillRect, PictureOf, Picture.At, Picture.Valid, RowOffset;
    OneRow(n);
    InRange(width, height, x, y, n);
    var p, q, row := PictureOf(width, height, d), PictureOf(width, height, d'), PictureOf(n, 1, bytes);
    forall z: Point | p.Holds(z) ensures q.At(z) == Overlay(p, row, x, y).At(z) {
      if z.y < y {
        RowsApart(width, z.y, y);
      } else if y < z.y {
        RowsApart(width, y, z.y);
      }
      InRange(width, height, z.x, z.y, 1);
      PixelSpliced(d, d', Offset(width, x, y), bytes, Offset(width, z.x, z.y));
    }
    Same(q, Overlay(p, row, x, y));
  }

  lemma PixelSpliced(d: seq<byte>, d': seq<byte>, at: nat, bytes: seq<byte>, p: nat)
    requires Spliced(d, d', at, bytes) && p + 4 <= |d|
    requires p + 4 <= at || at + |bytes| <= p || (at <= p && p + 4 <= at + |bytes|)
    ensures p + 4 <= at || at + |bytes| <= p ==> PixelFrom(d', p) == PixelFrom(d, p)
    ensures at <= p && p + 4 <= at + |bytes| ==> PixelFrom(d', p) == PixelFrom(bytes, p - at)
  {
    if at <= p && p + 4 <= at + |bytes| {
      var k := p - at;
      assert d'[at + k] == bytes[k] && d'[at + (k + 1)] == bytes[k + 1];
      assert d'[at + (k + 2)] == bytes[k + 2] && d'[at + (k + 3)] == bytes[k + 3];
    }
  }

  /** n pixels of row y from column x. */
  ghost function Span(p: Picture, x: nat, y: nat, n: nat): (s: seq<Pixel>)
    requires p.Valid() && y < p.height && x + n <= p.width
    ensures |s| == n && forall i :: 0 <= i < n ==> s[i] == p.At(Point(x + i, y))
  {
    p.rows[y][x..x + n]
  }

  class Framebuffer {
    var width: nat
    var height: nat
    var data: array<byte>

    ghost predicate Valid()
      reads this
    {
      data.Length == RowOffset(width, height)
    }

    /** What the buffer holds, as a picture. */
    ghost function Contents(): (p: Picture)
      reads this, data
      requires Valid()
      ensures p.Valid() && p.width == width && p.height == height
    {
      PictureOf(width, height, data[..])
    }

    /** A black picture of the given size. */
    constructor (w: nat, h: nat)
      ensures Valid() && fresh(data) && width == w && height == h
      ensures forall z: Point :: Contents().Holds(z) ==> Contents().At(z) == BLACK
    {
      width, height := w, h;
      data := new byte[RowOffset(w, h)](_ => 0);
    }

    /** Reallocate to a new size; the picture is black afterwards. */
    method Resize(w: nat, h: nat)
      requires Valid()
      modifies this
      ensures Valid() && width == w && height == h
      ensures (w, h) == old((width, height)) ==> data == old(data)
      ensures (w, h) != old((width, height)) ==>
        fresh(data) && forall z: Point :: Contents().Holds(z) ==> Contents().At(z) == BLACK
    {
      if w != width || h != height {
        width, height := w, h;
        data := new byte[RowOffset(w, h)](_ => 0);
      }
    }

    /** n pixels of row y from column x. */
    method RowSpan(x: nat, y: nat, n: nat) returns (pixels: seq<Pixel>)
      requires Valid() && y < height && x + n <= width
      ensures pixels == Span(Contents(), x, y, n)
    {
      InRange(width, height, x, y, n);
      var at := Offset(width, x, y);
      pixels := [];
      for i := 0 to n
        invariant pixels == Span(Contents(), x, y, i)
      {
        pixels := pixels + [Pixel(data[at + 4 * i], data[at + 4 * i + 1], data[at + 4 * i + 2], data[at + 4 * i + 3])];
      }
    }

    /** Write whole pixels into one row. */
    method WriteSpan(x: nat, y: nat, n: nat, bytes: seq<byte>)
      requires Valid() && y < height && x + n <= width && |bytes| == RowOffset(n, 1)
      modifies data
      ensures Contents() == Overlay(old(Contents()), PictureOf(n, 1, bytes), x, y)
    {
      InRange(width, height, x, y, n);
      var at := Offset(width, x, y);
      ghost var d := data[..];
      forall k | 0 <= k < |bytes| {
        data[at + k] := bytes[k];
      }
      SpliceRow(width, height, d, data[..], x, y, bytes, n);
    }

    /** Move a run of one row onto another, overlap and all: the bytes are read
        before any is written. */
    method CopySpan(fromX: nat, fromY: nat, x: nat, y: nat, n: nat)
      requires Valid() && y < height && x + n <= width && fromY < height && fromX + n <= width
      modifies data
      ensures Contents() == CopyBlock(old(Contents()), Move(fromX, fromY, Sized(x, y, n, 1)))
    {
      InRange(width, height, x, y, n);
      InRange(width, height, fromX, fromY, n);
      var from, to := Offset(width, fromX, fromY), Offset(width, x, y);
      ghost var d := data[..];
      ghost var bytes := data[from..from + 4 * n];
      forall k | 0 <= k < 4 * n {
        data[to + k] := data[from + k];
      }
      SpliceRow(width, height, d, data[..], x, y, bytes, n);
      SpanIsBlock(width, height, d, fromX, fromY, x, y, n);
    }

    method PutPixel(x: nat, y: nat, px: Pixel)
      requires Valid() && x < width && y < height
      modifies data
      ensures Contents() == FillRect(old(Contents()), Sized(x, y, 1, 1), px)
    {
      ghost var before := Contents();
      WriteSpan(x, y, 1, [px.b, px.g, px.r, px.x]);
      FillIsOverlay(before, x, y, 1, px, [px.b, px.g, px.r, px.x]);
    }

    /** Fill a rectangle, clipped to the picture, with one pixel. */
    method Fill(rect: Rect, px: Pixel)
      requires Valid()
      modifies data
      ensures Contents() == FillRect(old(Contents()), rect, px)
    {
      var r := rect.Intersection(Rect(0, 0, width, height));
      ghost var before := Contents();
      FillClipped(before, rect, px);
      if !r.IsEmpty() {
        var bytes := seq(4 * r.Width(), k requires 0 <= k < 4 * r.Width() => ByteOf(px, k % 4));
        for y := r.y1 to r.y2
          invariant Contents() == FillRect(before, Rect(r.x1, r.y1, r.x2, y), px)
        {
          ghost var sofar := Contents();
          WriteSpan(r.x1, y, r.Width(), bytes);
          FillIsOverlay(sofar, r.x1, y, r.Width(), px, bytes);
          FillNextRow(before, r, y, px);
        }
      }
    }

    /** Copy tightly packed rows into the picture at (x, y); the block must fit. */
    method Blit(x: nat, y: nat, w: nat, h: nat, src: seq<byte>)
      requires Valid() && x + w <= width && y + h <= height
      requires |src| >= RowOffset(w, h)
      modifies data
      ensures Contents() == Overlay(old(Contents()), PictureOf(w, h, src[..RowOffset(w, h)]), x, y)
    {
      hide PictureOf, Overlay;
      ghost var before := Contents();
      BlitFirst(before, w, src, x, y);
      for i := 0 to h
        invariant RowOffset(w, i) <= |src|
        invariant Contents() == Overlay(before, PictureOf(w, i, src[..RowOffset(w, i)]), x, y)
      {
        RowsApart(w, i, i + 1);
        InRange(w, h, 0, i, w);
        var at := RowOffset(w, i);
        var row := src[at..at + 4 * w];
        WriteSpan(x, y + i, w, row);
        BlitNext(before, w, i, src, x, y);
      }
    }

    /** The client side of CopyRect. Whatever the overlap, each destination
        pixel becomes the old source pixel and every other pixel stays: the
        rows are taken in the order that reads each before it is written. */
    method CopyWithin(srcX: nat, srcY: nat, dst: Rect)
      requires Valid()
      requires var d := dst.Intersection(Rect(0, 0, width, height));
               d.IsEmpty() || (srcX + d.Width() <= width && srcY + d.Height() <= height)
      modifies data
      ensures var m := Move(srcX, srcY, dst.Intersection(Rect(0, 0, width, height)));
              if m.dst.IsEmpty() then Contents() == old(Contents())
              else old(Contents()).Fits(m) && Contents() == CopyBlock(old(Contents()), m)
    {
      var d := dst.Intersection(Rect(0, 0, width, height));
      if !d.IsEmpty() {
        CopyRows(srcX, srcY, d);
      }
    }

    method CopyRows(srcX: nat, srcY: nat, d: Rect)
      requires Valid() && !d.IsEmpty() && Contents().Fits(Move(srcX, srcY, d))
      modifies data
      ensures Contents() == CopyBlock(old(Contents()), Move(srcX, srcY, d))
    {
      hide Progress, CopyBlock, RowOffset, RowsFit, PictureOf;
      ghost var before := Contents();
      ghost var m := Move(srcX, srcY, d);
      var rows := d.Height();
      var downwards := srcY < d.y1;
      CopyStart(before, m, downwards);
      for k := 0 to rows
        invariant Contents() == Progress(before, m, k, downwards)
      {
        var i := if downwards then rows - 1 - k else k;
        CopyStep(before, m, k, downwards);
        CopySpan(srcX, srcY + i, d.x1, d.y1 + i, d.Width());
      }
    }
  }

  function ByteOf(px: Pixel, k: nat): byte
    requires k < 4
  {
    if k == 0 then px.b else if k == 1 then px.g else if k == 2 then px.r else px.x
  }

  // ---- What each row loop adds ----

  lemma SpanIsBlock(width: nat, height: nat, d: seq<byte>, fromX: nat, fromY: nat, x: nat, y: nat, n: nat)
    requires |d| == RowOffset(width, height)
    requires y < height && x + n <= width && fromY < height && fromX + n <= width
    ensures Offset(width, fromX, fromY) + 4 * n <= |d|
    ensures var p := PictureOf(width, height, d);
            var m := Move(fromX, fromY, Sized(x, y, n, 1));
            && p.Fits(m)
            && CopyBlock(p, m) == Overlay(p, PictureOf(n, 1, d[Offset(width, fromX, fromY)..Offset(width, fromX, fromY) + 4 * n]), x, y)
  {
    hide Build, CopyBlock, Overlay, FillRect, PictureOf, Picture.At, Picture.Valid, RowOffset;
    OneRow(n);
    InRange(width, height, fromX, fromY, n);
    var p, m := PictureOf(width, height, d), Move(fromX, fromY, Sized(x, y, n, 1));
    var q := Overlay(p, PictureOf(n, 1, d[Offset(width, fromX, fromY)..Offset(width, fromX, fromY) + 4 * n]), x, y);
    forall z: Point | p.Holds(z) ensures q.At(z) == CopyBlock(p, m).At(z) {
      if m.dst.Has(z.x, z.y) {
        SpanPixel(width, height, d, fromX, fromY, n, z.x - x);
        assert p.Holds(m.Origin(z)) && m.Origin(z) == Point(fromX + (z.x - x), fromY);
      }
    }
    Same(q, CopyBlock(p, m));
  }

  /** A stretch of a row's bytes, as a picture of its own, holds that row's pixels. */
  lemma SpanPixel(width: nat, height: nat, d: seq<byte>, fromX: nat, fromY: nat, n: nat, i: nat)
    requires |d| == RowOffset(width, height) && fromY < height && fromX + n <= width && i < n
    ensures var from := Offset(width, fromX, fromY);
            && from + 4 * n <= |d| && |d[from..from + 4 * n]| == RowOffset(n, 1)
            && PictureOf(n, 1, d[from..from + 4 * n]).At(Point(i, 0)) == PictureOf(width, height, d).At(Point(fromX + i, fromY))
  {
    hide PictureOf, Picture.At, RowOffset;
    OneRow(n);
    InRange(width, height, fromX, fromY, n);
    InRange(width, height, fromX + i, fromY, 1);
    InRange(n, 1, i, 0, 1);
    assert PictureOf(n, 1, d[Offset(width, fromX, fromY)..Offset(width, fromX, fromY) + 4 * n]).Holds(Point(i, 0));
    assert PictureOf(width, height, d).Holds(Point(fromX + i, fromY));
  }

  lemma SolidPixel(px: Pixel, bytes: seq<byte>, c: nat)
    requires forall k :: 0 <= k < |bytes| ==> bytes[k] == ByteOf(px, k % 4)
    requires 4 * c + 4 <= |bytes|
    ensures PixelFrom(bytes, 4 * c) == px
  {
    assert (4 * c) % 4 == 0 && (4 * c + 1) % 4 == 1 && (4 * c + 2) % 4 == 2 && (4 * c + 3) % 4 == 3;
  }

  lemma FillIsOverlay(p: Picture, x: nat, y: nat, n: nat, px: Pixel, bytes: seq<byte>)
    requires p.Valid() && |bytes| == RowOffset(n, 1)
    requires forall k :: 0 <= k < |bytes| ==> bytes[k] == ByteOf(px, k % 4)
    ensures Overlay(p, PictureOf(n, 1, bytes), x, y) == FillRect(p, Sized(x, y, n, 1), px)
  {
    hide Build, CopyBlock, Overlay, FillRect, PictureOf, Picture.At, Picture.Valid;
    var q, r := Overlay(p, PictureOf(n, 1, bytes), x, y), FillRect(p, Sized(x, y, n, 1), px);
    OneRow(n);
    forall z: Point | p.Holds(z) ensures q.At(z) == r.At(z) {
      if Sized(x, y, n, 1).Has(z.x, z.y) {
        SolidPixel(px, bytes, z.x - x);
      }
    }
    Same(q, r);
  }

  lemma FillClipped(p: Picture, rect: Rect, px: Pixel)
    requires p.Valid()
    ensures var r := rect.Intersection(p.Bounds());
            && FillRect(p, r, px) == FillRect(p, rect, px)
            && (r.IsEmpty() ==> FillRect(p, rect, px) == p)
            && FillRect(p, Rect(r.x1, r.y1, r.x2, r.y1), px) == p
  {
    hide Build, CopyBlock, Overlay, FillRect, PictureOf, Picture.At, Picture.Valid;
    var r := rect.Intersection(p.Bounds());
    forall z: Point | p.Holds(z) ensures r.Has(z.x, z.y) <==> rect.Has(z.x, z.y) {
      assert p.Bounds().Has(z.x, z.y);
    }
    Same(FillRect(p, r, px), FillRect(p, rect, px));
    Same(FillRect(p, Rect(r.x1, r.y1, r.x2, r.y1), px), p);
    if r.IsEmpty() {
      Same(FillRect(p, r, px), p);
    }
  }

  lemma FillNextRow(p: Picture, r: Rect, y: int, px: Pixel)
    requires p.Valid() && !r.IsEmpty() && r.y1 <= y < r.y2
    ensures FillRect(FillRect(p, Rect(r.x1, r.y1, r.x2, y), px), Sized(r.x1, y, r.Width(), 1), px)
      == FillRect(p, Rect(r.x1, r.y1, r.x2, y + 1), px)
  {
    hide Build, CopyBlock, Overlay, FillRect, PictureOf, Picture.At, Picture.Valid;
    Same(FillRect(FillRect(p, Rect(r.x1, r.y1, r.x2, y), px), Sized(r.x1, y, r.Width(), 1), px),
         FillRect(p, Rect(r.x1, r.y1, r.x2, y + 1), px));
  }

  lemma BlitFirst(p: Picture, w: nat, src: seq<byte>, x: nat, y: nat)
    requires p.Valid()
    ensures Overlay(p, PictureOf(w, 0, src[..0]), x, y) == p
  {
    hide Build, CopyBlock, Overlay, FillRect, PictureOf, Picture.At, Picture.Valid;
    Same(Overlay(p, PictureOf(w, 0, src[..0]), x, y), p);
  }

  lemma BlitNext(p: Picture, w: nat, i: nat, src: seq<byte>, x: nat, y: nat)
    requires p.Valid() && RowOffset(w, i) + 4 * w <= |src| && RowOffset(w, i + 1) == RowOffset(w, i) + 4 * w
    ensures RowOffset(w, 1) == 4 * w
    ensures var at := RowOffset(w, i);
            Overlay(Overlay(p, PictureOf(w, i, src[..at]), x, y), PictureOf(w, 1, src[at..at + 4 * w]), x, y + i)
            == Overlay(p, PictureOf(w, i + 1, src[..RowOffset(w, i + 1)]), x, y)
  {
    hide PictureOf, RowOffset, Overlay;
    OneRow(w);
    var at := RowOffset(w, i);
    var above, row, both := PictureOf(w, i, src[..at]), PictureOf(w, 1, src[at..at + 4 * w]), PictureOf(w, i + 1, src[..at + 4 * w]);
    forall z: Point | both.Holds(z)
      ensures both.At(z) == if z.y < i then above.At(z) else row.At(Point(z.x, 0))
    {
      RowSplit(w, i, src, z);
    }
    Stacked(p, above, row, both, x, y);
  }

  lemma RowSplit(w: nat, i: nat, src: seq<byte>, z: Point)
    requires RowOffset(w, i) + 4 * w <= |src| && RowOffset(w, i + 1) == RowOffset(w, i) + 4 * w && RowOffset(w, 1) == 4 * w
    requires 0 <= z.x < w && 0 <= z.y <= i
    ensures var at := RowOffset(w, i);
            PictureOf(w, i + 1, src[..at + 4 * w]).At(z) ==
            if z.y < i then PictureOf(w, i, src[..at]).At(z) else PictureOf(w, 1, src[at..at + 4 * w]).At(Point(z.x, 0))
  {
    hide PictureOf, RowOffset;
    OneRow(w);
    if z.y < i {
      RowsApart(w, z.y, i);
    }
  }

  /** A block laid below another is the two laid as one. */
  lemma Stacked(p: Picture, above: Picture, row: Picture, both: Picture, x: nat, y: nat)
    requires p.Valid() && above.Valid() && row.Valid() && both.Valid()
    requires above.width == row.width == both.width && row.height == 1 && both.height == above.height + 1
    requires forall z: Point :: both.Holds(z) ==>
      both.At(z) == if z.y < above.height then above.At(z) else row.At(Point(z.x, 0))
    ensures Overlay(Overlay(p, above, x, y), row, x, y + above.height) == Overlay(p, both, x, y)
  {
    hide Overlay;
    Same(Overlay(Overlay(p, above, x, y), row, x, y + above.height), Overlay(p, both, x, y));
  }

  /** Rows lo to hi of a move, as a move of their own. */
  ghost function Rows(m: Move, lo: int, hi: int): Move {
    Move(m.srcX, m.srcY + lo, Rect(m.dst.x1, m.dst.y1 + lo, m.dst.x2, m.dst.y1 + hi))
  }

  ghost predicate RowsFit(p: Picture, m: Move) {
    && p.Valid() && p.Fits(m) && !m.dst.IsEmpty()
    && forall lo, hi :: 0 <= lo <= hi <= m.dst.Height() ==> p.Fits(Rows(m, lo, hi))
  }

  /** The picture once k rows of the move have been made, from the bottom up or the top down. */
  ghost function Progress(p: Picture, m: Move, k: nat, downwards: bool): (q: Picture)
    requires RowsFit(p, m) && k <= m.dst.Height()
    ensures q.Valid() && q.SameSize(p)
  {
    CopyBlock(p, if downwards then Rows(m, m.dst.Height() - k, m.dst.Height()) else Rows(m, 0, k))
  }

  lemma CopyStart(p: Picture, m: Move, downwards: bool)
    requires p.Valid() && p.Fits(m) && !m.dst.IsEmpty()
    ensures RowsFit(p, m)
    ensures Progress(p, m, 0, downwards) == p
    ensures Progress(p, m, m.dst.Height(), downwards) == CopyBlock(p, m)
  {
    hide CopyBlock;
    assert Rows(m, 0, m.dst.Height()) == m;
    Same(Progress(p, m, 0, downwards), p);
  }

  lemma CopyStep(p: Picture, m: Move, k: nat, downwards: bool)
    requires RowsFit(p, m) && k < m.dst.Height() && downwards == (m.srcY < m.dst.y1)
    ensures var i := if downwards then m.dst.Height() - 1 - k else k;
            var row := Move(m.srcX, m.srcY + i, Sized(m.dst.x1, m.dst.y1 + i, m.dst.Width(), 1));
            && Progress(p, m, k, downwards).Fits(row)
            && CopyBlock(Progress(p, m, k, downwards), row) == Progress(p, m, k + 1, downwards)
  {
    hide CopyBlock;
    var h := m.dst.Height();
    if downwards {
      CopyNext(p, m, h - k, h, h - 1 - k);
    } else {
      CopyNext(p, m, 0, k, k);
    }
  }

  lemma CopyNext(p: Picture, m: Move, lo: int, hi: int, i: int)
    requires RowsFit(p, m) && 0 <= lo <= hi <= m.dst.Height() && 0 <= i < m.dst.Height()
    requires (i == hi && m.dst.y1 <= m.srcY) || (i + 1 == lo && m.srcY < m.dst.y1)
    ensures var sofar := CopyBlock(p, Rows(m, lo, hi));
            && sofar.Fits(Rows(m, i, i + 1))
            && CopyBlock(sofar, Rows(m, i, i + 1)) == CopyBlock(p, Rows(m, Min(lo, i), Max(hi, i + 1)))
  {
    hide Build, CopyBlock, Overlay, FillRect, PictureOf, Picture.At, Picture.Valid;
    var sofar := CopyBlock(p, Rows(m, lo, hi));
    assert p.Fits(Rows(m, i, i + 1));
    Same(CopyBlock(sofar, Rows(m, i, i + 1)), CopyBlock(p, Rows(m, Min(lo, i), Max(hi, i + 1))));
  }
}
