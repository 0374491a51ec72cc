/** What ZRLE puts on the wire, byte by byte, and which form a tile takes: the facts a
    decoder written elsewhere relies on (section 7.7.6 of RFC 6143). */
module ZrleWire {
  import opened Geometry
  import opened Arithmetic
  import opened Bits
  import opened Pictures
  import opened PixelFormats
  import opened Blocks
  import opened Tilings
  import opened Cpixels
  import opened Palettes
  import opened PackedRows
  import opened Zrles
  import opened ZrleEncoder
  import opened ZrlePictures
  import Zlib

  // ---- Which form ----

  lemma PaletteSize(keys: seq<nat>)
    requires keys != []
    ensures var n, palette := |Distinct(keys)|, Palette(keys, 127);
            n >= 1 && (n <= 127 ==> |palette| == n && AllIn(keys, palette)) && (n > 127 ==> palette == [])
  {
    hide Palette, Distinct;
    PaletteIsColours(keys, 127);
    TileParts(keys);
    if |Distinct(keys)| <= 127 {
      NoRepeatsSize(Palette(keys, 127));
    }
    SomeColour(keys);
  }

  lemma SomeColour(keys: seq<nat>)
    requires keys != []
    ensures |Distinct(keys)| >= 1
  {
    assert keys[0] in Distinct(keys);
  }

  /** Every form a tile of two colours or more could take, and no other. */
  ghost predicate OneOf(code: seq<byte>, keys: seq<nat>, w: nat, h: nat, bytes: nat)
    requires |keys| == h * w && keys != []
  {
    PaletteSize(keys);
    TileParts(keys);
    var n, palette, runs := |Distinct(keys)|, Palette(keys, 127), Runs(keys);
    || code == [0] + AllBytes(keys, bytes)
    || (2 <= n <= 16 && code == PackedCode(keys, w, h, palette, bytes))
    || (2 <= n <= 127 && code == PaletteRleCode(runs, palette, bytes))
    || code == PlainRleCode(runs, bytes)
  }

  /** None of them is shorter. */
  ghost predicate Shortest(code: seq<byte>, keys: seq<nat>, w: nat, h: nat, bytes: nat)
    requires |keys| == h * w && keys != []
  {
    PaletteSize(keys);
    TileParts(keys);
    var n, palette, runs := |Distinct(keys)|, Palette(keys, 127), Runs(keys);
    && |code| <= |[0] + AllBytes(keys, bytes)|
    && (2 <= n <= 16 ==> |code| <= |PackedCode(keys, w, h, palette, bytes)|)
    && (2 <= n <= 127 ==> |code| <= |PaletteRleCode(runs, palette, bytes)|)
    && |code| <= |PlainRleCode(runs, bytes)|
  }

  /** A tile of one colour is a byte and that colour. Any other takes a form no other open to
      it is shorter than: its pixels; rows of indices for up to sixteen colours; runs of
      indices for up to 127; or runs of colours. */
  lemma TileIsShortest(keys: seq<nat>, w: nat, h: nat, bytes: nat)
    requires |keys| == h * w && keys != []
    ensures if |Distinct(keys)| == 1 then TileCode(keys, w, h, bytes) == [1] + KeyBytes(keys[0], bytes)
            else OneOf(TileCode(keys, w, h, bytes), keys, w, h, bytes) && Shortest(TileCode(keys, w, h, bytes), keys, w, h, bytes)
  {
    hide Palette, Distinct, Runs, PackedCode, PaletteRleCode, PlainRleCode, AllIn, RunsIn, RunsWhole, Cost, KeyBytes;
    PaletteSize(keys);
    TileParts(keys);
    CodeSizes(keys, w, h, bytes);
    if |Distinct(keys)| == 1 {
      OnlyColour(keys);
    }
  }

  lemma OnlyColour(keys: seq<nat>)
    requires keys != [] && |Palette(keys, 127)| == 1 && AllIn(keys, Palette(keys, 127))
    ensures Palette(keys, 127)[0] == keys[0]
  {
    hide Palette;
    assert keys[0] in Palette(keys, 127);
  }

  /** What each form was costed at is its length, less its first byte. */
  lemma CodeSizes(keys: seq<nat>, w: nat, h: nat, bytes: nat)
    requires |keys| == h * w && keys != []
    ensures RunsWhole(Runs(keys))
    ensures var n, palette, runs := |Distinct(keys)|, Palette(keys, 127), Runs(keys);
            && Cost(Raw, w, h, bytes, |palette|, runs) == Some(|AllBytes(keys, bytes)|)
            && (2 <= n <= 127 ==> AllIn(keys, palette) && RunsIn(runs, palette) && |palette| == n)
            && (2 <= n <= 16 ==> Cost(Packed, w, h, bytes, |palette|, runs) == Some(|PackedCode(keys, w, h, palette, bytes)| - 1))
            && (2 <= n <= 127 ==> Cost(PaletteRle, w, h, bytes, |palette|, runs) == Some(|PaletteRleCode(runs, palette, bytes)| - 1))
            && Cost(PlainRle, w, h, bytes, |palette|, runs) == Some(|PlainRleCode(runs, bytes)| - 1)
            && (!(2 <= n <= 16) ==> Cost(Packed, w, h, bytes, |palette|, runs) == None)
            && (!(2 <= n <= 127) ==> Cost(PaletteRle, w, h, bytes, |palette|, runs) == None)
  {
    hide Palette, Distinct, Runs, PackedFrom, PaletteRuns, PlainRuns, PaletteRunsCost, PlainRunsCost, RowBytes, AllIn, RunsIn, RunsWhole;
    PaletteSize(keys);
    TileParts(keys);
    var palette, runs := Palette(keys, 127), Runs(keys);
    AllBytesSize(keys, bytes);
    AllBytesSize(palette, bytes);
    PlainRunsSize(runs, bytes);
    if 2 <= |palette| <= 127 {
      PaletteRunsSize(runs, palette);
    }
    if 2 <= |palette| <= 16 {
      BitsEnough(palette);
      PackedSize(keys, w, h, 0, palette, PaletteBits(|palette|));
    }
  }

  // ---- The bytes of each form ----

  /** The first byte names the form: the number of colours under sixteen for rows of indices,
      128 and that number for runs of them, 128 alone for runs of colours; the colours follow
      in order, low byte first. */
  lemma FormBytes(keys: seq<nat>, w: nat, h: nat, palette: seq<nat>, runs: seq<Run>, bytes: nat)
    requires |keys| == h * w && AllIn(keys, palette) && 2 <= |palette| <= 127 && RunsIn(runs, palette)
    ensures RunsWhole(runs)
    ensures |palette| <= 16 ==> (PackedCode(keys, w, h, palette, bytes)[0] == |palette|
                                 && PackedCode(keys, w, h, palette, bytes)[1..] == AllBytes(palette, bytes)
                                    + PackedRowsOf(keys, w, h, palette, if |palette| == 2 then 1 else if |palette| <= 4 then 2 else 4))
    ensures PaletteRleCode(runs, palette, bytes)[0] == 128 + |palette|
    ensures PaletteRleCode(runs, palette, bytes)[1..] == AllBytes(palette, bytes) + PaletteRuns(runs, palette)
    ensures PlainRleCode(runs, bytes)[0] == 128 && PlainRleCode(runs, bytes)[1..] == PlainRuns(runs, bytes)
  {
    hide AllBytes, PackedFrom, PaletteRuns, PlainRuns, AllIn;
    if |palette| <= 16 {
      BitsEnough(palette);
    }
  }

  /** The rows of indices from the first on, if they fit so many bits. */
  function PackedRowsOf(keys: seq<nat>, w: nat, h: nat, palette: seq<nat>, bits: nat): seq<byte>
    requires |keys| == h * w && AllIn(keys, palette)
  {
    if Narrow(palette, bits) then PackedFrom(keys, w, h, 0, palette, bits) else []
  }

  /** A length less one: bytes of 255 and then what is left, under 255. */
  lemma {:induction false} LengthWire(length: nat)
    requires length > 0
    ensures var code := LengthCode(length);
            && |code| > 0 && (forall i :: 0 <= i < |code| - 1 ==> code[i] == 255) && code[|code| - 1] < 255
            && length - 1 == 255 * (|code| - 1) + code[|code| - 1]
  {
    if length - 1 >= 255 {
      LengthWire(length - 255);
    }
  }

  /** A run of colours starts with the colour and then its length. */
  lemma PlainRunWire(runs: seq<Run>, bytes: nat)
    requires RunsWhole(runs) && runs != []
    ensures var bs, n := PlainRuns(runs, bytes), bytes + |LengthCode(runs[0].length)|;
            && n <= |bs| && bs[..bytes] == KeyBytes(runs[0].colour, bytes)
            && bs[bytes..n] == LengthCode(runs[0].length) && bs[n..] == PlainRuns(runs[1..], bytes)
  {
    hide LengthCode;
  }

  /** A run of indices is a byte under 128 for one pixel; for more, the index with 128 added
      and then the length. */
  lemma PaletteRunWire(runs: seq<Run>, palette: seq<nat>)
    requires RunsIn(runs, palette) && |palette| <= 127 && runs != []
    ensures var bs, r := PaletteRuns(runs, palette), runs[0];
            && bs != [] && bs[0] % 128 < |palette| && palette[bs[0] % 128] == r.colour
            && (bs[0] >= 128 <==> r.length > 1)
            && var n := 1 + if r.length > 1 then |LengthCode(r.length)| else 0;
               && n <= |bs| && (r.length > 1 ==> bs[1..n] == LengthCode(r.length)) && bs[n..] == PaletteRuns(runs[1..], palette)
  {
    hide LengthCode;
    var i := IndexOf(palette, runs[0].colour);
    assert (i + 128) % 128 == i;
  }

  // ---- A rectangle ----

  /** Four bytes of length, high byte first, and then the tiles of 64 by 64 pixels in
      reading order, deflated together. */
  lemma RectangleWire(z: Zlib.Codec, level: nat, h: Zlib.History, p: Picture, rect: Rect, pf: PixelFormat)
    requires Inside(p, rect) && Valid(pf)
    ensures TilesIn(p, SquareTiles(rect, 64))
    ensures var bs, packed := Payload(z, level, h, p, rect, pf), z.deflate(level, h, TilesBytes(p, SquareTiles(rect, 64), pf));
            && |bs| == 4 + |packed| && bs[4..] == packed
            && (|packed| < 4294967296 ==> 16777216 * bs[0] + ThreeBytes(bs[1], bs[2], bs[3]) == |packed|)
  {
    hide TilesBytes, Valid, LeBytes, TilesIn, SquareTiles, BeBytes;
    RectTilesIn(p, rect);
    var packed := z.deflate(level, h, TilesBytes(p, SquareTiles(rect, 64), pf));
    BeFour(|packed|);
    assert Payload(z, level, h, p, rect, pf) == BeBytes(|packed|, 4) + packed;
  }

  lemma BeFour(v: nat)
    ensures v < 4294967296 ==> 16777216 * BeBytes(v, 4)[0] + ThreeBytes(BeBytes(v, 4)[1], BeBytes(v, 4)[2], BeBytes(v, 4)[3]) == v
  {
    hide LeBytes;
    FourBytes(v);
    FourParts(v);
  }

  lemma FourParts(v: nat)
    ensures v < 4294967296 ==>
      (16777216 * (v / 256 / 256 / 256 % 256) + ThreeBytes(v / 256 / 256 % 256, v / 256 % 256, v % 256) == v)
  {
    var a := v / 256;
    var b := a / 256;
    var c := b / 256;
    assert v < 4294967296 ==> c < 256;
  }
}
