/** Palette indices packed into bytes, each row starting on a byte of its own. */
module PackedRows {
  import opened Geometry
  import opened Arithmetic
  import opened Bits
  import opened Blocks
  import opened Palettes
  import opened Pictures
  import opened Readers

  function RowBytes(w: nat, bits: nat): nat { (w * bits + 7) / 8 }

  // ---- Indices packed into bytes ----

  predicate PackState(indices: seq<nat>, bits: nat, sofar: nat, used: nat) {
    && (bits == 1 || (bits == 2 && used % 2 == 0) || (bits == 4 && used % 4 == 0)) && used < 8 && sofar < Pow2(used)
    && forall i :: 0 <= i < |indices| ==> indices[i] < Pow2(bits)
  }

  /** Room for one more index. */
  lemma PackStep(indices: seq<nat>, bits: nat, sofar: nat, used: nat)
    requires PackState(indices, bits, sofar, used) && indices != []
    ensures var b, u := Or(ShiftLeft(sofar, bits), indices[0]), used + bits;
            && u <= 8 && b == ShiftLeft(sofar, bits) + indices[0] && b < Pow2(u) <= 256
            && (u == 8 ==> PackState(indices[1..], bits, 0, 0))
            && (u < 8 ==> PackState(indices[1..], bits, b, u))
  {
    hide Pow2, ShiftLeft, Or;
    Pow2Eight();
    Pow2Zero();
    OrIsSum(sofar, indices[0], bits);
    Pow2Add(used, bits);
    Pow2Order(used + bits, 8);
    ShiftedRoom(sofar, Pow2(used), bits);
  }

  lemma ShiftedRoom(v: nat, p: nat, bits: nat)
    requires v < p
    ensures ShiftLeft(v, bits) + Pow2(bits) <= p * Pow2(bits)
  {
    Distributes(v, Pow2(bits));
    MulOrder(v + 1, p, Pow2(bits));
  }

  lemma PackPadded(sofar: nat, used: nat)
    requires used <= 8 && sofar < Pow2(used)
    ensures ShiftLeft(sofar, 8 - used) < 256
  {
    hide Pow2, ShiftLeft;
    Pow2Eight();
    Pow2Add(used, 8 - used);
    ShiftedRoom(sofar, Pow2(used), 8 - used);
  }

  /** Indices shifted into a byte from the top, a byte out as it fills, the last one padded below. */
  function PackFrom(indices: seq<nat>, bits: nat, sofar: nat, used: nat): seq<byte>
    requires PackState(indices, bits, sofar, used)
  {
    if indices == [] then
      PackPadded(sofar, used);
      if used > 0 then [ShiftLeft(sofar, 8 - used)] else []
    else
      PackStep(indices, bits, sofar, used);
      var b, u := Or(ShiftLeft(sofar, bits), indices[0]), used + bits;
      if u == 8 then [b] + PackFrom(indices[1..], bits, 0, 0) else PackFrom(indices[1..], bits, b, u)
  }

  lemma {:induction false} PackSize(indices: seq<nat>, bits: nat, sofar: nat, used: nat)
    requires PackState(indices, bits, sofar, used)
    ensures |PackFrom(indices, bits, sofar, used)| == (used + |indices| * bits + 7) / 8
  {
    if indices != [] {
      PackStep(indices, bits, sofar, used);
      var b, u := Or(ShiftLeft(sofar, bits), indices[0]), used + bits;
      Distributes(|indices| - 1, bits);
      if u == 8 {
        PackSize(indices[1..], bits, 0, 0);
      } else {
        PackSize(indices[1..], bits, b, u);
      }
    }
  }

  /** The bits from the top of a byte down. */
  function Slot(b: byte, at: nat, bits: nat): nat
    requires at + bits <= 8
  {
    Field(b, 8 - bits - at, bits)
  }

  lemma ShiftedTop(sofar: nat, index: nat, bits: nat)
    requires index < Pow2(bits)
    ensures ShiftRight(ShiftLeft(sofar, bits) + index, bits) == sofar
    ensures (ShiftLeft(sofar, bits) + index) % Pow2(bits) == index
  {
    hide Pow2;
    Distributes(sofar, Pow2(bits));
    DivUnique(ShiftLeft(sofar, bits) + index, Pow2(bits), sofar);
    DivMod(ShiftLeft(sofar, bits) + index, Pow2(bits));
  }

  lemma PackStart(indices: seq<nat>, bits: nat, sofar: nat, used: nat)
    requires PackState(indices, bits, sofar, used) && indices != []
    ensures indices[0] < Pow2(bits)
    ensures var b, u := ShiftLeft(sofar, bits) + indices[0], used + bits;
            if u == 8 then
              && b < 256 && PackState(indices[1..], bits, 0, 0)
              && PackFrom(indices, bits, sofar, used) == [b] + PackFrom(indices[1..], bits, 0, 0)
            else
              && u < 8 && PackState(indices[1..], bits, b, u)
              && PackFrom(indices, bits, sofar, used) == PackFrom(indices[1..], bits, b, u)
  {
    hide Pow2, ShiftLeft, Or;
    PackStep(indices, bits, sofar, used);
  }

  lemma PackEnd(indices: seq<nat>, bits: nat, sofar: nat, used: nat)
    requires PackState(indices, bits, sofar, used) && indices == [] && used > 0
    ensures PackFrom(indices, bits, sofar, used) == [ShiftLeft(sofar, 8 - used)]
  {
    hide Pow2, ShiftLeft;
  }

  lemma ShiftBack(v: nat, k: nat)
    ensures ShiftRight(ShiftLeft(v, k), k) == v
  {
    hide Pow2;
    DivUnique(v * Pow2(k), Pow2(k), v);
  }

  /** What was shifted in first stays on top. */
  lemma {:induction false} PackTop(indices: seq<nat>, bits: nat, sofar: nat, used: nat)
    requires PackState(indices, bits, sofar, used) && (used > 0 || indices != [])
    ensures PackFrom(indices, bits, sofar, used) != []
    ensures ShiftRight(PackFrom(indices, bits, sofar, used)[0], 8 - used) == sofar
    decreases |indices|
  {
    hide Pow2, ShiftLeft, Or, PackFrom, ShiftRight;
    if indices == [] {
      PackEnd(indices, bits, sofar, used);
      ShiftBack(sofar, 8 - used);
    } else {
      PackStart(indices, bits, sofar, used);
      var b, u := ShiftLeft(sofar, bits) + indices[0], used + bits;
      ShiftedTop(sofar, indices[0], bits);
      if u < 8 {
        PackTop(indices[1..], bits, b, u);
        ShiftTwice(PackFrom(indices[1..], bits, b, u)[0], 8 - u, bits);
      }
    }
  }

  /** Every index comes back from its slot. */
  lemma {:induction false} PackSlots(indices: seq<nat>, bits: nat, sofar: nat, used: nat, i: nat)
    requires PackState(indices, bits, sofar, used) && i < |indices|
    ensures var packed, at := PackFrom(indices, bits, sofar, used), used + i * bits;
            at / 8 < |packed| && at % 8 + bits <= 8 && Slot(packed[at / 8], at % 8, bits) == indices[i]
    decreases |indices|
  {
    hide Pow2, ShiftLeft, Or, PackFrom, ShiftRight, Slot;
    PackStart(indices, bits, sofar, used);
    var b, u := ShiftLeft(sofar, bits) + indices[0], used + bits;
    if i == 0 {
      PackFirst(indices, bits, sofar, used);
    } else {
      Distributes(i - 1, bits);
      if u == 8 {
        PackSlots(indices[1..], bits, 0, 0, i - 1);
        assert (used + i * bits) / 8 == 1 + ((i - 1) * bits) / 8;
      } else {
        PackSlots(indices[1..], bits, b, u, i - 1);
      }
    }
  }

  lemma PackFirst(indices: seq<nat>, bits: nat, sofar: nat, used: nat)
    requires PackState(indices, bits, sofar, used) && indices != []
    ensures used + bits <= 8 && PackFrom(indices, bits, sofar, used) != []
    ensures Slot(PackFrom(indices, bits, sofar, used)[0], used, bits) == indices[0]
  {
    hide Pow2, ShiftLeft, Or, PackFrom, ShiftRight;
    PackStart(indices, bits, sofar, used);
    var b, u := ShiftLeft(sofar, bits) + indices[0], used + bits;
    ShiftedTop(sofar, indices[0], bits);
    if u == 8 {
      NoShift(b);
    } else {
      PackTop(indices[1..], bits, b, u);
    }
  }

  lemma NoShift(v: nat)
    ensures ShiftRight(v, 0) == v
  {
    Pow2Zero();
  }

  // ---- Rows of a block ----

  /** Every place in the palette fits its bits. */
  predicate Narrow(palette: seq<nat>, bits: nat) { (bits == 1 || bits == 2 || bits == 4) && |palette| <= Pow2(bits) }

  /** A row's colours by their places in the palette. */
  function Indices(row: seq<nat>, palette: seq<nat>): (places: seq<nat>)
    requires AllIn(row, palette)
    ensures |places| == |row| && forall i :: 0 <= i < |row| ==> places[i] < |palette| && palette[places[i]] == row[i]
  {
    seq(|row|, i requires 0 <= i < |row| => IndexOf(palette, row[i]))
  }

  /** The packed rows from y down; each starts on a byte of its own. */
  function PackedFrom(keys: seq<nat>, w: nat, h: nat, y: nat, palette: seq<nat>, bits: nat): seq<byte>
    requires |keys| == h * w && y <= h && AllIn(keys, palette) && Narrow(palette, bits)
    decreases h - y
  {
    if y == h then []
    else
      RowAllIn(keys, w, h, y, palette);
      IndicesFit(Row(keys, w, h, y), palette, bits);
      PackFrom(Indices(Row(keys, w, h, y), palette), bits, 0, 0) + PackedFrom(keys, w, h, y + 1, palette, bits)
  }

  lemma RowAllIn(keys: seq<nat>, w: nat, h: nat, y: nat, palette: seq<nat>)
    requires |keys| == h * w && y < h && AllIn(keys, palette)
    ensures AllIn(Row(keys, w, h, y), palette)
  {
    hide At, Row;
    var row := Row(keys, w, h, y);
    forall x | 0 <= x < w ensures row[x] in palette {
      assert row[x] == At(keys, w, h, x, y);
      assert keys[y * w + x] in palette;
    }
  }

  lemma IndicesFit(row: seq<nat>, palette: seq<nat>, bits: nat)
    requires AllIn(row, palette) && Narrow(palette, bits)
    ensures PackState(Indices(row, palette), bits, 0, 0)
  {
    hide Indices;
    Pow2Zero();
  }

  lemma {:induction false} PackedSize(keys: seq<nat>, w: nat, h: nat, y: nat, palette: seq<nat>, bits: nat)
    requires |keys| == h * w && y <= h && AllIn(keys, palette) && Narrow(palette, bits)
    ensures |PackedFrom(keys, w, h, y, palette, bits)| == RowBytes(w, bits) * (h - y)
    decreases h - y
  {
    hide Row, Indices, PackFrom, RowBytes;
    if y < h {
      RowAllIn(keys, w, h, y, palette);
      IndicesFit(Row(keys, w, h, y), palette, bits);
      RowPacked(Indices(Row(keys, w, h, y), palette), bits);
      PackedSize(keys, w, h, y + 1, palette, bits);
      Distributes(h - y - 1, RowBytes(w, bits));
    }
  }

  lemma RowPacked(indices: seq<nat>, bits: nat)
    requires PackState(indices, bits, 0, 0)
    ensures |PackFrom(indices, bits, 0, 0)| == RowBytes(|indices|, bits)
  {
    PackSize(indices, bits, 0, 0);
  }

  // ---- Rows read ----

  /** The pixels of one packed row from a column on; none if an index is not in the palette. */
  function RowPixels(packed: seq<byte>, w: nat, x: nat, bits: nat, palette: seq<Pixel>): (r: Option<seq<Pixel>>)
    requires (bits == 1 || bits == 2 || bits == 4) && x <= w && |packed| == RowBytes(w, bits)
    ensures r.Some? ==> |r.value| == w - x
    decreases w - x
  {
    if x == w then Some([])
    else
      SlotInRow(w, x, bits);
      var at := x * bits;
      var index := Slot(packed[at / 8], at % 8, bits);
      var more := RowPixels(packed, w, x + 1, bits, palette);
      if index < |palette| && more.Some? then Some([palette[index]] + more.value) else None
  }

  lemma SlotInRow(w: nat, x: nat, bits: nat)
    requires (bits == 1 || bits == 2 || bits == 4) && x < w
    ensures 0 <= x * bits / 8 < RowBytes(w, bits) && 0 <= x * bits % 8 && x * bits % 8 + bits <= 8
  {
  }

  function ReadRows(s: seq<byte>, w: nat, h: nat, bits: nat, palette: seq<Pixel>): (r: Read<seq<Pixel>>)
    requires bits == 1 || bits == 2 || bits == 4
    ensures Within(r, s)
    decreases h
  {
    if h == 0 then Got([], s)
    else
      var packed :- Take(s, RowBytes(w, bits));
      var row := RowPixels(packed.value, w, 0, bits, palette);
      if row.None? then Malformed
      else
        var more :- ReadRows(packed.rest, w, h - 1, bits, palette);
        Got(row.value + more.value, more.rest)
  }

  // ---- Rows read back ----

  lemma {:induction false} RowRead(row: seq<nat>, palette: seq<nat>, bits: nat, x: nat, shown: seq<Pixel>)
    requires AllIn(row, palette) && Narrow(palette, bits) && x <= |row| && |shown| == |palette|
    requires PackState(Indices(row, palette), bits, 0, 0)
    requires |PackFrom(Indices(row, palette), bits, 0, 0)| == RowBytes(|row|, bits)
    ensures RowPixels(PackFrom(Indices(row, palette), bits, 0, 0), |row|, x, bits, shown) == Some(Looked(row, palette, shown)[x..])
    decreases |row| - x
  {
    hide PackFrom, PackState, Slot, RowBytes, Pow2, IndexOf;
    var indices := Indices(row, palette);
    if x < |row| {
      RowRead(row, palette, bits, x + 1, shown);
      PackSlots(indices, bits, 0, 0, x);
      assert Looked(row, palette, shown)[x..] == [shown[indices[x]]] + Looked(row, palette, shown)[x + 1..];
    }
  }

  /** The keys from row y down. */
  function Below(keys: seq<nat>, w: nat, h: nat, y: nat): seq<nat>
    requires |keys| == h * w && y <= h
  {
    BelowFits(w, h, y);
    keys[y * w..]
  }

  lemma BelowFits(w: nat, h: nat, y: nat)
    requires y <= h
    ensures 0 <= y * w <= h * w
  {
    MulOrder(y, h, w);
    MulOrder(0, y, w);
  }

  lemma BelowStep(keys: seq<nat>, w: nat, h: nat, y: nat)
    requires |keys| == h * w && y < h
    ensures Below(keys, w, h, y) == Row(keys, w, h, y) + Below(keys, w, h, y + 1)
  {
    hide At;
    BelowFits(w, h, y);
    BelowFits(w, h, y + 1);
    Distributes(y, w);
    var a := y * w;
    assert Below(keys, w, h, y + 1) == keys[a + w..];
    assert Row(keys, w, h, y) == keys[a..][..w];
  }

  lemma BelowEnds(keys: seq<nat>, w: nat, h: nat)
    requires |keys| == h * w
    ensures Below(keys, w, h, 0) == keys && Below(keys, w, h, h) == []
  {
  }

  lemma LookedJoin<T>(s: seq<nat>, t: seq<nat>, palette: seq<nat>, shown: seq<T>)
    requires AllIn(s, palette) && AllIn(t, palette) && |shown| == |palette|
    ensures AllIn(s + t, palette) && Looked(s + t, palette, shown) == Looked(s, palette, shown) + Looked(t, palette, shown)
  {
    hide IndexOf;
  }

  lemma BelowIn(keys: seq<nat>, w: nat, h: nat, y: nat, palette: seq<nat>)
    requires |keys| == h * w && y <= h && AllIn(keys, palette)
    ensures AllIn(Below(keys, w, h, y), palette)
  {
    BelowFits(w, h, y);
  }

  /** The packed rows are read to their end, and every pixel is its key's place in the palette. */
  lemma {:induction false} RowsRead(keys: seq<nat>, w: nat, h: nat, y: nat, palette: seq<nat>, bits: nat, shown: seq<Pixel>, rest: seq<byte>)
    requires |keys| == h * w && y <= h && AllIn(keys, palette) && Narrow(palette, bits) && |shown| == |palette|
    ensures AllIn(Below(keys, w, h, y), palette)
    ensures ReadRows(PackedFrom(keys, w, h, y, palette, bits) + rest, w, h - y, bits, shown)
         == Got(Looked(Below(keys, w, h, y), palette, shown), rest)
    decreases h - y
  {
    hide Indices, PackFrom, PackState, RowBytes, Row, Below, RowPixels, AllIn, Looked, Pow2;
    BelowIn(keys, w, h, y, palette);
    if y == h {
      BelowEnds(keys, w, h);
      assert [] + rest == rest;
      assert |Looked([], palette, shown)| == 0;
    } else {
      var row := Row(keys, w, h, y);
      RowAllIn(keys, w, h, y, palette);
      IndicesFit(row, palette, bits);
      RowPacked(Indices(row, palette), bits);
      var packed, others := PackFrom(Indices(row, palette), bits, 0, 0), PackedFrom(keys, w, h, y + 1, palette, bits);
      assert PackedFrom(keys, w, h, y, palette, bits) + rest == packed + (others + rest);
      TakeExact(packed, others + rest);
      RowRead(row, palette, bits, 0, shown);
      assert Looked(row, palette, shown)[0..] == Looked(row, palette, shown);
      RowsRead(keys, w, h, y + 1, palette, bits, shown, rest);
      BelowStep(keys, w, h, y);
      LookedJoin(row, Below(keys, w, h, y + 1), palette, shown);
    }
  }

  // ---- Where each pixel is ----

  lemma {:induction false} RowPlace(keys: seq<nat>, w: nat, h: nat, from: nat, palette: seq<nat>, bits: nat, y: nat)
    requires |keys| == h * w && from <= y < h && AllIn(keys, palette) && Narrow(palette, bits)
    ensures AllIn(Row(keys, w, h, y), palette) && PackState(Indices(Row(keys, w, h, y), palette), bits, 0, 0)
    ensures var bs, each, at := PackedFrom(keys, w, h, from, palette, bits), RowBytes(w, bits), (y - from) * RowBytes(w, bits);
            && 0 <= at <= at + each <= |bs|
            && bs[at..at + each] == PackFrom(Indices(Row(keys, w, h, y), palette), bits, 0, 0)
    decreases y - from
  {
    hide Row, Indices, PackFrom, RowBytes, PackState, AllIn, Narrow;
    var each := RowBytes(w, bits);
    RowAllIn(keys, w, h, from, palette);
    IndicesFit(Row(keys, w, h, from), palette, bits);
    RowPacked(Indices(Row(keys, w, h, from), palette), bits);
    PackedSize(keys, w, h, from, palette, bits);
    var first, rest := PackFrom(Indices(Row(keys, w, h, from), palette), bits, 0, 0), PackedFrom(keys, w, h, from + 1, palette, bits);
    if from == y {
      assert (first + rest)[0..each] == first;
    } else {
      RowPlace(keys, w, h, from + 1, palette, bits, y);
      Distributes(y - from - 1, each);
      PartAfter(first, rest, (y - from - 1) * each, each, (y - from) * each);
    }
  }

  /** In rows of indices each row starts on a byte, and the pixels of a row fill each byte
      from its top bits down. */
  lemma PixelSlot(keys: seq<nat>, w: nat, h: nat, palette: seq<nat>, bits: nat, x: nat, y: nat)
    requires |keys| == h * w && AllIn(keys, palette) && Narrow(palette, bits) && x < w && y < h
    ensures var bs, at := PackedFrom(keys, w, h, 0, palette, bits), y * ((w * bits + 7) / 8) + x * bits / 8;
            && 0 <= at < |bs| && 0 <= x * bits % 8 && x * bits % 8 + bits <= 8
            && var index := bs[at] / Pow2(8 - bits - x * bits % 8) % Pow2(bits);
               index < |palette| && palette[index] == At(keys, w, h, x, y)
  {
    hide Row, Indices, PackFrom, AllIn, At, PackState, Pow2, RowBytes;
    RowPlace(keys, w, h, 0, palette, bits, y);
    RowIs(w, bits);
    var each, row := RowBytes(w, bits), Row(keys, w, h, y);
    var packed := PackFrom(Indices(row, palette), bits, 0, 0);
    PackSlots(Indices(row, palette), bits, 0, 0, x);
    SlotIs(packed[x * bits / 8], x * bits % 8, bits);
    InPart(PackedFrom(keys, w, h, 0, palette, bits), y * each, each, packed, x * bits / 8);
    RowPacked(Indices(row, palette), bits);
  }

  lemma RowIs(w: nat, bits: nat)
    ensures RowBytes(w, bits) == (w * bits + 7) / 8
  {
  }

  lemma SlotIs(b: byte, at: nat, bits: nat)
    requires at + bits <= 8
    ensures Slot(b, at, bits) == b / Pow2(8 - bits - at) % Pow2(bits)
  {
    hide Pow2;
  }

  lemma InPart(bs: seq<byte>, at: nat, n: nat, part: seq<byte>, i: nat)
    requires at + n <= |bs| && bs[at..at + n] == part && i < n
    ensures bs[at + i] == part[i]
  {
  }
}
