/** Reading a ZRLE tile back. */
module ZrleDecoder {
  import opened Geometry
  import opened Arithmetic
  import opened Bits
  import opened Pictures
  import opened PixelFormats
  import opened Blocks
  import opened Readers
  import opened Cpixels
  import opened Palettes
  import opened PackedRows
  import opened Zrles
  import opened ZrleEncoder

  /** How the pixels of one format go into tiles. */
  datatype Layout = Layout(c: Cpixel, pf: PixelFormat)

  /** The pixel a client shows for the bytes of one cpixel. */
  function Widened(bs: seq<byte>, l: Layout): Pixel
    requires Sane(l.c) && |bs| == l.c.bytes
  {
    Unpack(Restored(bs, l.c), l.pf)
  }

  function ReadCpixel(s: seq<byte>, l: Layout): (r: Read<Pixel>)
    requires Sane(l.c)
    ensures Within(r, s)
  {
    var bs :- Take(s, l.c.bytes);
    Got(Widened(bs.value, l), bs.rest)
  }

  function ReadCpixels(s: seq<byte>, n: nat, l: Layout): (r: Read<seq<Pixel>>)
    requires Sane(l.c)
    ensures Within(r, s) && (r.Got? ==> |r.value| == n)
    decreases n
  {
    if n == 0 then Got([], s)
    else
      var px :- ReadCpixel(s, l);
      var more :- ReadCpixels(px.rest, n - 1, l);
      Got([px.value] + more.value, more.rest)
  }

  /** Bytes of 255 that add up, then one below. */
  function ReadTotal(s: seq<byte>): (r: Read<nat>)
    ensures Within(r, s)
    decreases |s|
  {
    var b :- Byte(s);
    if b.value != 255 then Got(b.value, b.rest)
    else
      var more :- ReadTotal(b.rest);
      Got(255 + more.value, more.rest)
  }

  function ReadLength(s: seq<byte>): (r: Read<nat>)
    ensures Within(r, s) && (r.Got? ==> r.value > 0)
  {
    var total :- ReadTotal(s);
    Got(1 + total.value, total.rest)
  }

  /** Colours and their runs until the tile is full; a run that would overflow it is cut. */
  function ReadPlainRuns(s: seq<byte>, left: nat, l: Layout): (r: Read<seq<Pixel>>)
    requires Sane(l.c)
    ensures Within(r, s) && (r.Got? ==> |r.value| == left)
    decreases left
  {
    if left == 0 then Got([], s)
    else
      var px :- ReadCpixel(s, l);
      var run :- ReadLength(px.rest);
      var n := Min(run.value, left);
      var more :- ReadPlainRuns(run.rest, left - n, l);
      Got(Uniform(px.value, n) + more.value, more.rest)
  }

  function ReadPaletteRuns(s: seq<byte>, left: nat, palette: seq<Pixel>): (r: Read<seq<Pixel>>)
    ensures Within(r, s) && (r.Got? ==> |r.value| == left)
    decreases left
  {
    if left == 0 then Got([], s)
    else
      var index :- Byte(s);
      var run :- if index.value >= 128 then ReadLength(index.rest) else Got(1, index.rest);
      if index.value % 128 >= |palette| then Malformed
      else
        var n := Min(run.value, left);
        var more :- ReadPaletteRuns(run.rest, left - n, palette);
        Got(Uniform(palette[index.value % 128], n) + more.value, more.rest)
  }

  /** A tile's pixels in rows, and the palette the next tile may use again. */
  datatype Told = Told(pixels: seq<Pixel>, palette: seq<Pixel>)

  function ReadPacked(s: seq<byte>, w: nat, h: nat, palette: seq<Pixel>): (r: Read<Told>)
    ensures Within(r, s)
  {
    var pixels :- ReadRows(s, w, h, PaletteBits(|palette|), palette);
    Got(Told(pixels.value, palette), pixels.rest)
  }

  function ReadPaletteRle(s: seq<byte>, w: nat, h: nat, palette: seq<Pixel>): (r: Read<Told>)
    ensures Within(r, s)
  {
    var pixels :- ReadPaletteRuns(s, w * h, palette);
    Got(Told(pixels.value, palette), pixels.rest)
  }

  function ReadTile(s: seq<byte>, w: nat, h: nat, l: Layout, palette: seq<Pixel>): (r: Read<Told>)
    requires Sane(l.c)
    ensures Within(r, s)
  {
    var sub :- Byte(s);
    if sub.value == RAW then
      var pixels :- ReadCpixels(sub.rest, w * h, l);
      Got(Told(pixels.value, palette), pixels.rest)
    else if sub.value == SOLID then
      var px :- ReadCpixel(sub.rest, l);
      Got(Told(Uniform(px.value, w * h), palette), px.rest)
    else if 2 <= sub.value <= PACKED_MAX then
      var colours :- ReadCpixels(sub.rest, sub.value, l);
      ReadPacked(colours.rest, w, h, colours.value)
    else if sub.value == PACKED_REUSE then ReadPacked(sub.rest, w, h, palette)
    else if sub.value == PLAIN_RLE then
      var pixels :- ReadPlainRuns(sub.rest, w * h, l);
      Got(Told(pixels.value, palette), pixels.rest)
    else if sub.value == RLE_REUSE then ReadPaletteRle(sub.rest, w, h, palette)
    else if sub.value >= 130 then
      var colours :- ReadCpixels(sub.rest, sub.value - RLE_BASE, l);
      ReadPaletteRle(colours.rest, w, h, colours.value)
    else Malformed
  }

  lemma BitsAre(size: nat)
    ensures PaletteBits(size) == 1 || PaletteBits(size) == 2 || PaletteBits(size) == 4
  {
  }

  // ---- Colours read back ----

  function CpixelShade(key: nat, l: Layout): Pixel
    requires Sane(l.c)
  {
    Widened(KeyBytes(key, l.c.bytes), l)
  }

  function CpixelShades(keys: seq<nat>, l: Layout): (ps: seq<Pixel>)
    requires Sane(l.c)
    ensures |ps| == |keys| && forall i :: 0 <= i < |keys| ==> ps[i] == CpixelShade(keys[i], l)
  {
    seq(|keys|, i requires 0 <= i < |keys| => CpixelShade(keys[i], l))
  }

  lemma CpixelRead(key: nat, l: Layout, rest: seq<byte>)
    requires Sane(l.c)
    ensures ReadCpixel(KeyBytes(key, l.c.bytes) + rest, l) == Got(CpixelShade(key, l), rest)
  {
    TakeExact(KeyBytes(key, l.c.bytes), rest);
  }

  lemma {:induction false} CpixelsRead(keys: seq<nat>, l: Layout, rest: seq<byte>)
    requires Sane(l.c)
    ensures ReadCpixels(AllBytes(keys, l.c.bytes) + rest, |keys|, l) == Got(CpixelShades(keys, l), rest)
  {
    hide ReadCpixel, KeyBytes, CpixelShade, Sane;
    if keys == [] {
      assert [] + rest == rest;
    } else {
      var first, others := KeyBytes(keys[0], l.c.bytes), AllBytes(keys[1..], l.c.bytes);
      assert AllBytes(keys, l.c.bytes) + rest == first + (others + rest);
      CpixelRead(keys[0], l, others + rest);
      CpixelsRead(keys[1..], l, rest);
      assert CpixelShades(keys, l) == [CpixelShade(keys[0], l)] + CpixelShades(keys[1..], l);
    }
  }

  // ---- Runs read back ----

  lemma {:induction false} TotalRead(length: nat, rest: seq<byte>)
    requires length > 0
    ensures ReadTotal(LengthCode(length) + rest) == Got(length - 1, rest)
  {
    if length - 1 >= 255 {
      TotalRead(length - 255, rest);
      assert (LengthCode(length) + rest)[1..] == LengthCode(length - 255) + rest;
    } else {
      assert (LengthCode(length) + rest)[1..] == rest;
    }
  }

  lemma LengthRead(length: nat, rest: seq<byte>)
    requires length > 0
    ensures ReadLength(LengthCode(length) + rest) == Got(length, rest)
  {
    TotalRead(length, rest);
  }

  lemma {:induction false} ExpandFirst(runs: seq<Run>)
    requires runs != []
    ensures Expand(runs) == Uniform(runs[0].colour, runs[0].length) + Expand(runs[1..])
  {
    var n := |runs| - 1;
    if n > 0 {
      ExpandFirst(runs[..n]);
      assert runs[..n][1..] == runs[1..][..n - 1];
      assert runs[1..][n - 1] == runs[n];
    } else {
      assert runs[..0] == [] && Expand([]) == [];
    }
  }

  lemma RepeatShades(key: nat, n: nat, more: seq<nat>, l: Layout)
    requires Sane(l.c)
    ensures CpixelShades(Uniform(key, n) + more, l) == Uniform(CpixelShade(key, l), n) + CpixelShades(more, l)
  {
    hide CpixelShade;
  }

  lemma {:induction false} PlainRunsRead(runs: seq<Run>, l: Layout, rest: seq<byte>)
    requires Sane(l.c) && RunsWhole(runs)
    ensures ReadPlainRuns(PlainRuns(runs, l.c.bytes) + rest, |Expand(runs)|, l) == Got(CpixelShades(Expand(runs), l), rest)
  {
    hide ReadCpixel, KeyBytes, CpixelShade, Sane, LengthCode, ReadLength, Expand;
    if runs == [] {
      NothingExpands();
      assert [] + rest == rest;
    } else {
      var r, others := runs[0], PlainRuns(runs[1..], l.c.bytes);
      assert PlainRuns(runs, l.c.bytes) + rest
          == KeyBytes(r.colour, l.c.bytes) + (LengthCode(r.length) + (others + rest));
      CpixelRead(r.colour, l, LengthCode(r.length) + (others + rest));
      LengthRead(r.length, others + rest);
      ExpandFirst(runs);
      PlainRunsRead(runs[1..], l, rest);
      RepeatShades(r.colour, r.length, Expand(runs[1..]), l);
    }
  }

  lemma NothingExpands()
    ensures Expand([]) == []
  {
  }

  lemma PaletteRunRead(r: Run, palette: seq<nat>, rest: seq<byte>)
    requires r.length > 0 && r.colour in palette && |palette| <= MAX_PALETTE
    ensures var index := Byte(PaletteRun(r, palette) + rest);
            && index.Got? && index.value % 128 == IndexOf(palette, r.colour)
            && (if index.value >= 128 then ReadLength(index.rest) else Got(1, index.rest)) == Got(r.length, rest)
  {
    hide IndexOf, LengthCode, ReadLength;
    var index := IndexOf(palette, r.colour);
    if r.length == 1 {
      HeadThen(index, [], rest);
      assert [index] + [] + rest == PaletteRun(r, palette) + rest && [] + rest == rest;
    } else {
      HeadThen(index + 128, LengthCode(r.length), rest);
      LengthRead(r.length, rest);
    }
  }

  lemma {:induction false} PaletteRunsRead(runs: seq<Run>, palette: seq<nat>, l: Layout, rest: seq<byte>)
    requires Sane(l.c) && RunsIn(runs, palette) && |palette| <= MAX_PALETTE
    ensures ReadPaletteRuns(PaletteRuns(runs, palette) + rest, |Expand(runs)|, CpixelShades(palette, l)) == Got(CpixelShades(Expand(runs), l), rest)
  {
    hide CpixelShade, Sane, LengthCode, ReadLength, Expand, PaletteRun, Byte;
    if runs == [] {
      NothingExpands();
      assert [] + rest == rest;
    } else {
      var r, others := runs[0], PaletteRuns(runs[1..], palette);
      assert PaletteRuns(runs, palette) + rest == PaletteRun(r, palette) + (others + rest);
      PaletteRunRead(r, palette, others + rest);
      ExpandFirst(runs);
      PaletteRunsRead(runs[1..], palette, l, rest);
      RepeatShades(r.colour, r.length, Expand(runs[1..]), l);
    }
  }

  /** A palette's colours looked up are the keys' own. */
  lemma LookedIsShades(keys: seq<nat>, palette: seq<nat>, l: Layout)
    requires Sane(l.c) && AllIn(keys, palette)
    ensures Looked(keys, palette, CpixelShades(palette, l)) == CpixelShades(keys, l)
  {
    hide CpixelShade;
  }

  // ---- Any tile ----

  /** The tile reads back to its last byte, every pixel its key's. */
  ghost predicate ReadBack(r: Read<Told>, keys: seq<nat>, l: Layout, rest: seq<byte>)
    requires Sane(l.c)
  {
    r.Got? && r.rest == rest && r.value.pixels == CpixelShades(keys, l)
  }

  lemma SolidReadBack(keys: seq<nat>, w: nat, h: nat, key: nat, l: Layout, palette: seq<Pixel>, rest: seq<byte>)
    requires Sane(l.c) && |keys| == h * w && forall i :: 0 <= i < |keys| ==> keys[i] == key
    ensures ReadBack(ReadTile([SOLID] + KeyBytes(key, l.c.bytes) + rest, w, h, l, palette), keys, l, rest)
  {
    hide ReadCpixel, KeyBytes, CpixelShade, Sane, Byte;
    HeadThen(SOLID, KeyBytes(key, l.c.bytes), rest);
    CpixelRead(key, l, rest);
    assert Uniform(CpixelShade(key, l), w * h) == CpixelShades(keys, l);
  }

  lemma RawReadBack(keys: seq<nat>, w: nat, h: nat, l: Layout, palette: seq<Pixel>, rest: seq<byte>)
    requires Sane(l.c) && |keys| == h * w
    ensures ReadBack(ReadTile([RAW] + AllBytes(keys, l.c.bytes) + rest, w, h, l, palette), keys, l, rest)
  {
    hide ReadCpixels, AllBytes, CpixelShades, Sane, Byte;
    HeadThen(RAW, AllBytes(keys, l.c.bytes), rest);
    CpixelsRead(keys, l, rest);
    assert w * h == |keys|;
  }

  lemma PackedReadBack(keys: seq<nat>, w: nat, h: nat, colours: seq<nat>, l: Layout, palette: seq<Pixel>, rest: seq<byte>)
    requires Sane(l.c) && |keys| == h * w && AllIn(keys, colours) && 2 <= |colours| <= PACKED_MAX
    ensures ReadBack(ReadTile(PackedCode(keys, w, h, colours, l.c.bytes) + rest, w, h, l, palette), keys, l, rest)
  {
    hide ReadCpixels, AllBytes, CpixelShades, Sane, Byte, ReadRows, PackedFrom, PaletteBits, AllIn, Below;
    BitsEnough(colours);
    var names, rows := AllBytes(colours, l.c.bytes), PackedFrom(keys, w, h, 0, colours, PaletteBits(|colours|));
    HeadThen(|colours|, names + rows, rest);
    assert PackedCode(keys, w, h, colours, l.c.bytes) + rest == [|colours|] + (names + rows) + rest;
    assert (names + rows) + rest == names + (rows + rest);
    CpixelsRead(colours, l, rows + rest);
    RowsRead(keys, w, h, 0, colours, PaletteBits(|colours|), CpixelShades(colours, l), rest);
    LookedIsShades(keys, colours, l);
    BelowEnds(keys, w, h);
  }

  lemma PaletteRleReadBack(keys: seq<nat>, w: nat, h: nat, runs: seq<Run>, colours: seq<nat>, l: Layout, palette: seq<Pixel>, rest: seq<byte>)
    requires Sane(l.c) && |keys| == h * w && Expand(runs) == keys && RunsIn(runs, colours) && 2 <= |colours| <= MAX_PALETTE
    ensures ReadBack(ReadTile(PaletteRleCode(runs, colours, l.c.bytes) + rest, w, h, l, palette), keys, l, rest)
  {
    hide ReadCpixels, AllBytes, CpixelShades, Sane, Byte, ReadPaletteRuns, PaletteRuns, RunsIn, Expand;
    var names, code := AllBytes(colours, l.c.bytes), PaletteRuns(runs, colours);
    HeadThen(RLE_BASE + |colours|, names + code, rest);
    assert PaletteRleCode(runs, colours, l.c.bytes) + rest == [RLE_BASE + |colours|] + (names + code) + rest;
    assert (names + code) + rest == names + (code + rest);
    CpixelsRead(colours, l, code + rest);
    PaletteRunsRead(runs, colours, l, rest);
    assert w * h == |keys|;
  }

  lemma PlainRleReadBack(keys: seq<nat>, w: nat, h: nat, runs: seq<Run>, l: Layout, palette: seq<Pixel>, rest: seq<byte>)
    requires Sane(l.c) && |keys| == h * w && Expand(runs) == keys && RunsWhole(runs)
    ensures ReadBack(ReadTile(PlainRleCode(runs, l.c.bytes) + rest, w, h, l, palette), keys, l, rest)
  {
    hide ReadPlainRuns, PlainRuns, CpixelShades, Sane, Byte, RunsWhole, Expand;
    HeadThen(PLAIN_RLE, PlainRuns(runs, l.c.bytes), rest);
    PlainRunsRead(runs, l, rest);
    assert w * h == |keys|;
  }

  lemma OneColour(keys: seq<nat>)
    ensures |Palette(keys, MAX_PALETTE)| == 1 ==> forall i :: 0 <= i < |keys| ==> keys[i] == Palette(keys, MAX_PALETTE)[0]
  {
    hide Palette;
    TileParts(keys);
  }

  /** Whatever its form, and whatever palette came before, a tile reads back. */
  lemma TileReadBack(keys: seq<nat>, w: nat, h: nat, l: Layout, palette: seq<Pixel>, rest: seq<byte>)
    requires Sane(l.c) && |keys| == h * w
    ensures ReadBack(ReadTile(TileCode(keys, w, h, l.c.bytes) + rest, w, h, l, palette), keys, l, rest)
  {
    hide ReadTile, ReadBack, Palette, Runs, AllIn, RunsIn, RunsWhole, Sane, Expand, PackedCode, PaletteRleCode, PlainRleCode, AllBytes, KeyBytes, Cheapest;
    TileParts(keys);
    RunsStandForKeys(keys);
    var colours, runs := Palette(keys, MAX_PALETTE), Runs(keys);
    if |colours| == 1 {
      OneColour(keys);
      SolidReadBack(keys, w, h, colours[0], l, palette, rest);
    } else {
      match Cheapest(w, h, l.c.bytes, |colours|, runs)
      case Raw => RawReadBack(keys, w, h, l, palette, rest);
      case Packed => PackedReadBack(keys, w, h, colours, l, palette, rest);
      case PaletteRle => PaletteRleReadBack(keys, w, h, runs, colours, l, palette, rest);
      case PlainRle => PlainRleReadBack(keys, w, h, runs, l, palette, rest);
    }
  }

  // ---- Forms this encoder does not write ----

  /** Rows of indices, or runs of them, into the palette an earlier tile told. */
  lemma PaletteUsedAgain(keys: seq<nat>, w: nat, h: nat, colours: seq<nat>, runs: seq<Run>, l: Layout, rest: seq<byte>)
    requires Sane(l.c) && |keys| == h * w && AllIn(keys, colours)
    ensures Narrow(colours, PaletteBits(|colours|)) ==>
      ReadTile([127] + PackedFrom(keys, w, h, 0, colours, PaletteBits(|colours|)) + rest, w, h, l, CpixelShades(colours, l))
      == Got(Told(CpixelShades(keys, l), CpixelShades(colours, l)), rest)
    ensures |colours| <= 127 && RunsIn(runs, colours) && Expand(runs) == keys ==>
      ReadTile([129] + PaletteRuns(runs, colours) + rest, w, h, l, CpixelShades(colours, l))
      == Got(Told(CpixelShades(keys, l), CpixelShades(colours, l)), rest)
  {
    hide CpixelShades, Sane, Byte, ReadRows, PackedFrom, PaletteBits, AllIn, Below, PaletteRuns, ReadPaletteRuns, RunsIn, Expand, Narrow;
    BitsAre(|colours|);
    if Narrow(colours, PaletteBits(|colours|)) {
      HeadThen(127, PackedFrom(keys, w, h, 0, colours, PaletteBits(|colours|)), rest);
      RowsRead(keys, w, h, 0, colours, PaletteBits(|colours|), CpixelShades(colours, l), rest);
      LookedIsShades(keys, colours, l);
      BelowEnds(keys, w, h);
    }
    if |colours| <= 127 && RunsIn(runs, colours) && Expand(runs) == keys {
      HeadThen(129, PaletteRuns(runs, colours), rest);
      PaletteRunsRead(runs, colours, l, rest);
      assert w * h == |keys|;
    }
  }

  /** A tile read leaves its own palette for the next, if it told one, and otherwise the one it
      was given; first bytes from 17 to 126 mean nothing. */
  lemma PaletteLeft(s: seq<byte>, w: nat, h: nat, l: Layout, palette: seq<Pixel>)
    requires Sane(l.c) && s != []
    ensures 17 <= s[0] <= 126 ==> ReadTile(s, w, h, l, palette) == Malformed
    ensures var r := ReadTile(s, w, h, l, palette);
            r.Got? ==>
              if 2 <= s[0] <= 16 then |r.value.palette| == s[0]
              else if s[0] >= 130 then |r.value.palette| == s[0] - 128
              else r.value.palette == palette
  {
    hide ReadCpixel, ReadCpixels, ReadRows, ReadPaletteRuns, ReadPlainRuns, Sane;
  }

  /** A run longer than what is left of the tile fills what is left; an index past the
      palette is refused. */
  lemma RunsCut(key: nat, length: nat, left: nat, l: Layout, index: byte, palette: seq<Pixel>, rest: seq<byte>)
    requires Sane(l.c) && 0 < left <= length
    ensures ReadPlainRuns(KeyBytes(key, l.c.bytes) + LengthCode(length) + rest, left, l) == Got(Uniform(CpixelShade(key, l), left), rest)
    ensures index < 128 ==>
      ReadPaletteRuns([index + 128] + LengthCode(length) + rest, left, palette)
      == if index < |palette| then Got(Uniform(palette[index], left), rest) else Malformed
    ensures index < 128 && |palette| <= index ==> ReadPaletteRuns([index] + rest, left, palette) == Malformed
  {
    hide ReadCpixel, KeyBytes, CpixelShade, Sane, LengthCode, ReadLength;
    assert KeyBytes(key, l.c.bytes) + LengthCode(length) + rest == KeyBytes(key, l.c.bytes) + (LengthCode(length) + rest);
    CpixelRead(key, l, LengthCode(length) + rest);
    LengthRead(length, rest);
    assert Uniform(CpixelShade(key, l), left) + [] == Uniform(CpixelShade(key, l), left);
    CutIndexed(index, length, left, palette, rest);
    assert ([index] + rest)[1..] == rest;
  }

  lemma CutIndexed(index: byte, length: nat, left: nat, palette: seq<Pixel>, rest: seq<byte>)
    requires 0 < left <= length
    ensures index < 128 ==>
      ReadPaletteRuns([index + 128] + LengthCode(length) + rest, left, palette)
      == if index < |palette| then Got(Uniform(palette[index], left), rest) else Malformed
  {
    hide LengthCode, ReadLength;
    LengthRead(length, rest);
    if index < 128 {
      var s := [index + 128] + LengthCode(length) + rest;
      assert s[0] == index + 128 && s[1..] == LengthCode(length) + rest;
      assert (index + 128) % 128 == index;
      if index < |palette| {
        assert Uniform(palette[index], left) + [] == Uniform(palette[index], left);
      }
    }
  }
}
