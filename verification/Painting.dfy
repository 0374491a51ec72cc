/** Pixels put into a framebuffer one after another, in rows, as they are read. */
module Painting {
  import opened Geometry
  import opened Arithmetic
  import opened Bits
  import opened Pictures
  import opened Framebuffers
  import opened Blocks
  import opened Tilings
  import opened Readers
  import opened PackedRows

  /** What reading a tile's pixels leaves: read to their end and laid over the
      tile, or why not, with nothing outside the tile touched. */
  ghost predicate PaintDone(read: Read<seq<Pixel>>, t: Rect, before: Picture, after: Picture, rest: seq<byte>, r: Result<()>)
    requires before.Valid()
  {
    && after.Valid()
    && if read.Got? then r == Ok(()) && after == Lay(before, t, read.value) && rest == read.rest
       else r == ResultOf(read.PropagateFailure<()>()) && SameOutside(before, after, t)
  }

  /** The next pixel of a tile that is painted so far. */
  method PutNext(fb: Framebuffer, t: Rect, n: nat, px: Pixel, ghost q: Picture, ghost done: seq<Pixel>)
    requires fb.Valid() && q.Valid() && Inside(q, t) && |done| == n < t.Width() * t.Height()
    requires fb.Contents() == Lay(q, t, done)
    modifies fb.data
    ensures fb.Contents() == Lay(q, t, done + [px])
  {
    hide FillRect, Lay, Inside, Framebuffer.Contents;
    ghost var ps := done + [px];
    assert ps[..n] == done && ps[..n + 1] == ps;
    SomeWidth(t);
    PlaceOf(t, n);
    PlaceInside(q, t, n);
    LaidNext(q, t, ps, n);
    fb.PutPixel(t.x1 + n % t.Width(), t.y1 + n / t.Width(), px);
  }

  /** One colour a number of times over. */
  method PutRun(fb: Framebuffer, t: Rect, at: nat, n: nat, px: Pixel, ghost q: Picture, ghost done: seq<Pixel>)
    requires fb.Valid() && q.Valid() && Inside(q, t) && |done| == at && at + n <= t.Width() * t.Height()
    requires fb.Contents() == Lay(q, t, done)
    modifies fb.data
    ensures fb.Contents() == Lay(q, t, done + Uniform(px, n))
  {
    hide Lay, Inside, Framebuffer.Contents;
    assert done + Uniform(px, 0) == done;
    for i := 0 to n
      invariant fb.Contents() == Lay(q, t, done + Uniform(px, i))
    {
      PutNext(fb, t, at + i, px, q, done + Uniform(px, i));
      assert done + Uniform(px, i) + [px] == done + Uniform(px, i + 1);
    }
  }

  lemma FilledIsLaid(q: Picture, t: Rect, px: Pixel)
    requires q.Valid()
    ensures FillRect(q, t, px) == Lay(q, t, Uniform(px, t.Width() * t.Height()))
  {
    hide Lay, FillRect, Picture.At, IndexIn;
    var a, b := FillRect(q, t, px), Lay(q, t, Uniform(px, t.Width() * t.Height()));
    forall z: Point | q.Holds(z) ensures a.At(z) == b.At(z) {
      if t.Has(z.x, z.y) {
        IndexInBlock(t, z.x, z.y);
      }
    }
    Same(a, b);
  }

  // ---- Packed rows ----

  /** One packed row, pixel by pixel; false at an index the palette does not have. */
  method PutPackedRow(fb: Framebuffer, t: Rect, y: nat, packed: seq<byte>, bits: nat, palette: seq<Pixel>,
                      ghost q: Picture, ghost done: seq<Pixel>)
    returns (ok: bool)
    requires fb.Valid() && q.Valid() && Inside(q, t) && y < t.Height() && |done| == y * t.Width()
    requires (bits == 1 || bits == 2 || bits == 4) && |packed| == RowBytes(t.Width(), bits)
    requires fb.Contents() == Lay(q, t, done)
    modifies fb.data
    ensures var row := RowPixels(packed, t.Width(), 0, bits, palette);
            && ok == row.Some?
            && if ok then fb.Contents() == Lay(q, t, done + row.value) else SameOutside(q, fb.Contents(), t)
  {
    hide Lay, Inside, Framebuffer.Contents, RowPixels, SameOutside, Slot;
    var w := t.Width();
    ghost var cells: seq<Pixel> := [];
    ghost var row := RowPixels(packed, w, 0, bits, palette);
    assert done + [] == done;
    RowJoinNone(row);
    for x := 0 to w
      invariant |cells| == x && fb.Contents() == Lay(q, t, done + cells)
      invariant row == RowJoin(cells, RowPixels(packed, w, x, bits, palette))
    {
      SlotInRow(w, x, bits);
      RowStep(packed, w, x, bits, palette, cells);
      var at := x * bits;
      var index := Slot(packed[at / 8], at % 8, bits);
      if index >= |palette| {
        LaidOutside(q, t, done + cells);
        return false;
      }
      InTile(t, y, x);
      PutNext(fb, t, y * w + x, palette[index], q, done + cells);
      assert done + cells + [palette[index]] == done + (cells + [palette[index]]);
      cells := cells + [palette[index]];
    }
    RowEnds(packed, w, bits, palette, cells);
    ok := true;
  }

  lemma InTile(t: Rect, y: nat, x: nat)
    requires y < t.Height() && x < t.Width()
    ensures 0 <= y * t.Width() + x < t.Width() * t.Height()
  {
    IndexFits(t.Width(), t.Height(), x, y);
  }

  function RowJoin(cells: seq<Pixel>, row: Option<seq<Pixel>>): Option<seq<Pixel>> {
    if row.None? then None else Some(cells + row.value)
  }

  lemma RowJoinNone(row: Option<seq<Pixel>>)
    ensures RowJoin([], row) == row
  {
    if row.Some? {
      assert [] + row.value == row.value;
    }
  }

  lemma RowStep(packed: seq<byte>, w: nat, x: nat, bits: nat, palette: seq<Pixel>, cells: seq<Pixel>)
    requires (bits == 1 || bits == 2 || bits == 4) && x < w && |packed| == RowBytes(w, bits)
    ensures 0 <= x * bits / 8 < |packed| && 0 <= x * bits % 8 && x * bits % 8 + bits <= 8
    ensures var index := Slot(packed[x * bits / 8], x * bits % 8, bits);
            RowJoin(cells, RowPixels(packed, w, x, bits, palette)) ==
            if index < |palette| then RowJoin(cells + [palette[index]], RowPixels(packed, w, x + 1, bits, palette)) else None
  {
    hide Slot;
    SlotInRow(w, x, bits);
    var index, more := Slot(packed[x * bits / 8], x * bits % 8, bits), RowPixels(packed, w, x + 1, bits, palette);
    if index < |palette| && more.Some? {
      assert cells + ([palette[index]] + more.value) == cells + [palette[index]] + more.value;
    }
  }

  lemma RowEnds(packed: seq<byte>, w: nat, bits: nat, palette: seq<Pixel>, cells: seq<Pixel>)
    requires (bits == 1 || bits == 2 || bits == 4) && |packed| == RowBytes(w, bits)
    ensures RowJoin(cells, RowPixels(packed, w, w, bits, palette)) == Some(cells)
  {
    assert cells + [] == cells;
  }

  /** Rows of packed indices, each starting on a byte. */
  method PaintRows(reader: Reader, t: Rect, bits: nat, palette: seq<Pixel>, fb: Framebuffer) returns (r: Result<()>)
    requires reader.Valid() && fb.Valid() && Inside(fb.Contents(), t) && (bits == 1 || bits == 2 || bits == 4)
    modifies reader, fb.data
    ensures reader.Valid()
    ensures PaintDone(ReadRows(old(reader.Rest()), t.Width(), t.Height(), bits, palette), t, old(fb.Contents()), fb.Contents(), reader.Rest(), r)
  {
    hide Lay, Inside, Framebuffer.Contents, RowPixels, ReadRows, SameOutside, RowBytes, Take;
    ghost var q := fb.Contents();
    ghost var whole := ReadRows(reader.Rest(), t.Width(), t.Height(), bits, palette);
    ghost var done: seq<Pixel> := [];
    NothingLaid(q, t);
    PrependNone(whole);
    assert |done| == 0 * t.Width();
    for y := 0 to t.Height()
      invariant reader.Valid() && fb.Valid() && |done| == y * t.Width() && fb.Contents() == Lay(q, t, done)
      invariant Prepend(done, ReadRows(reader.Rest(), t.Width(), t.Height() - y, bits, palette)) == whole
    {
      RowsStep(reader.Rest(), t.Width(), t.Height() - y, bits, palette, done);
      LaidOutside(q, t, done);
      var packed := reader.NextBytes(RowBytes(t.Width(), bits));
      if packed.Err? { return Err(packed.error); }
      var ok := PutPackedRow(fb, t, y, packed.value, bits, palette, q, done);
      if !ok { return Err(Bad); }
      done := done + RowPixels(packed.value, t.Width(), 0, bits, palette).value;
      Distributes(y, t.Width());
    }
    RowsEnd(reader.Rest(), t.Width(), bits, palette, done);
    r := Ok(());
  }

  lemma RowsStep(s: seq<byte>, w: nat, h: nat, bits: nat, palette: seq<Pixel>, done: seq<Pixel>)
    requires (bits == 1 || bits == 2 || bits == 4) && h > 0
    ensures Prepend(done, ReadRows(s, w, h, bits, palette)) ==
            var packed := Take(s, RowBytes(w, bits));
            if packed.IsFailure() then packed.PropagateFailure()
            else
              var row := RowPixels(packed.value, w, 0, bits, palette);
              if row.None? then Malformed else Prepend(done + row.value, ReadRows(packed.rest, w, h - 1, bits, palette))
  {
    hide RowPixels, RowBytes, Take;
    var packed := Take(s, RowBytes(w, bits));
    if packed.Got? {
      var row := RowPixels(packed.value, w, 0, bits, palette);
      if row.Some? {
        PrependMore(done, row.value, ReadRows(packed.rest, w, h - 1, bits, palette));
      }
    }
  }

  lemma RowsEnd(s: seq<byte>, w: nat, bits: nat, palette: seq<Pixel>, done: seq<Pixel>)
    requires bits == 1 || bits == 2 || bits == 4
    ensures Prepend(done, ReadRows(s, w, 0, bits, palette)) == Got(done, s)
  {
    assert done + [] == done;
  }
}
