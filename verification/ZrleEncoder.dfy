/** The ZRLE encoder: every way a tile could go, costed, and the cheapest taken. */
module ZrleEncoder {
  import opened Geometry
  import opened Arithmetic
  import opened Bits
  import opened Pictures
  import opened Framebuffers
  import opened PixelFormats
  import opened Blocks
  import opened Tilings
  import opened Cpixels
  import opened Palettes
  import opened PackedRows
  import opened Zrles

  // ---- The bytes of each description ----

  lemma BitsEnough(palette: seq<nat>)
    requires |palette| <= PACKED_MAX
    ensures Narrow(palette, PaletteBits(|palette|))
  {
    assert Pow2(1) == 2 && Pow2(2) == 4 && Pow2(4) == 16;
  }

  function PackedCode(keys: seq<nat>, w: nat, h: nat, palette: seq<nat>, bytes: nat): seq<byte>
    requires |keys| == h * w && AllIn(keys, palette) && |palette| <= PACKED_MAX
  {
    BitsEnough(palette);
    [|palette|] + AllBytes(palette, bytes) + PackedFrom(keys, w, h, 0, palette, PaletteBits(|palette|))
  }

  /** One run by its colour's place; the top bit says a length follows. */
  function PaletteRun(r: Run, palette: seq<nat>): seq<byte>
    requires r.length > 0 && r.colour in palette && |palette| <= MAX_PALETTE
  {
    if r.length == 1 then [IndexOf(palette, r.colour)]
    else [IndexOf(palette, r.colour) + 128] + LengthCode(r.length)
  }

  predicate RunsIn(runs: seq<Run>, palette: seq<nat>) {
    forall i :: 0 <= i < |runs| ==> runs[i].length > 0 && runs[i].colour in palette
  }

  predicate RunsWhole(runs: seq<Run>) { forall i :: 0 <= i < |runs| ==> runs[i].length > 0 }

  function PaletteRuns(runs: seq<Run>, palette: seq<nat>): seq<byte>
    requires RunsIn(runs, palette) && |palette| <= MAX_PALETTE
  {
    if runs == [] then [] else PaletteRun(runs[0], palette) + PaletteRuns(runs[1..], palette)
  }

  function PaletteRleCode(runs: seq<Run>, palette: seq<nat>, bytes: nat): seq<byte>
    requires RunsIn(runs, palette) && |palette| <= MAX_PALETTE
  {
    [RLE_BASE + |palette|] + AllBytes(palette, bytes) + PaletteRuns(runs, palette)
  }

  function PlainRuns(runs: seq<Run>, bytes: nat): seq<byte>
    requires RunsWhole(runs)
  {
    if runs == [] then [] else KeyBytes(runs[0].colour, bytes) + LengthCode(runs[0].length) + PlainRuns(runs[1..], bytes)
  }

  function PlainRleCode(runs: seq<Run>, bytes: nat): seq<byte>
    requires RunsWhole(runs)
  {
    [PLAIN_RLE] + PlainRuns(runs, bytes)
  }

  // ---- The choice ----

  datatype Way = Raw | Packed | PaletteRle | PlainRle

  /** What a tile costs each way, a way it cannot go costing nothing at all. */
  function Cost(way: Way, w: nat, h: nat, bytes: nat, palette: nat, runs: seq<Run>): Option<nat>
    requires RunsWhole(runs)
  {
    match way
    case Raw => Some(w * h * bytes)
    case Packed =>
      if 2 <= palette <= PACKED_MAX then Some(palette * bytes + PackedBytes(w, h, palette)) else None
    case PaletteRle =>
      if 2 <= palette <= MAX_PALETTE then Some(palette * bytes + PaletteRunsCost(runs)) else None
    case PlainRle => Some(PlainRunsCost(runs, bytes))
  }

  /** The better of two ways; of equals, the first. */
  function Better(a: Way, b: Way, w: nat, h: nat, bytes: nat, palette: nat, runs: seq<Run>): Way
    requires RunsWhole(runs)
  {
    var x, y := Cost(a, w, h, bytes, palette, runs), Cost(b, w, h, bytes, palette, runs);
    if y.Some? && (x.None? || y.value < x.value) then b else a
  }

  function Cheapest(w: nat, h: nat, bytes: nat, palette: nat, runs: seq<Run>): (way: Way)
    requires RunsWhole(runs)
    ensures Cost(way, w, h, bytes, palette, runs).Some?
    ensures forall other :: Cost(other, w, h, bytes, palette, runs).Some? ==>
      Cost(way, w, h, bytes, palette, runs).value <= Cost(other, w, h, bytes, palette, runs).value
  {
    var one := Better(Raw, Packed, w, h, bytes, palette, runs);
    var two := Better(one, PaletteRle, w, h, bytes, palette, runs);
    Better(two, PlainRle, w, h, bytes, palette, runs)
  }

  lemma TileParts(keys: seq<nat>)
    ensures RunsWhole(Runs(keys))
    ensures Palette(keys, MAX_PALETTE) != [] ==> AllIn(keys, Palette(keys, MAX_PALETTE)) && RunsIn(Runs(keys), Palette(keys, MAX_PALETTE)) && |Palette(keys, MAX_PALETTE)| <= MAX_PALETTE
  {
    hide Runs, Palette, Expand;
    RunsStandForKeys(keys);
    PaletteIsColours(keys, MAX_PALETTE);
    if Palette(keys, MAX_PALETTE) != [] {
      NoRepeatsSize(Palette(keys, MAX_PALETTE));
      forall i | 0 <= i < |keys| ensures keys[i] in Palette(keys, MAX_PALETTE) {
        assert keys[i] in Distinct(keys);
      }
      forall i | 0 <= i < |Runs(keys)| ensures Runs(keys)[i].colour in Palette(keys, MAX_PALETTE) {
        RunColourSeen(Runs(keys), i);
        assert Runs(keys)[i].colour in Distinct(keys);
      }
    }
  }

  lemma {:induction false} RunColourSeen(runs: seq<Run>, i: nat)
    requires i < |runs| && runs[i].length > 0
    ensures runs[i].colour in Expand(runs)
  {
    var n := |runs| - 1;
    if i < n {
      RunColourSeen(runs[..n], i);
    } else {
      assert Uniform(runs[n].colour, runs[n].length)[0] == runs[n].colour;
    }
  }

  /** One tile's bytes before compression. */
  function TileCode(keys: seq<nat>, w: nat, h: nat, bytes: nat): seq<byte>
    requires |keys| == h * w
  {
    TileParts(keys);
    var palette, runs := Palette(keys, MAX_PALETTE), Runs(keys);
    if |palette| == 1 then [SOLID] + KeyBytes(palette[0], bytes)
    else
      match Cheapest(w, h, bytes, |palette|, runs)
      case Raw => [RAW] + AllBytes(keys, bytes)
      case Packed => PackedCode(keys, w, h, palette, bytes)
      case PaletteRle => PaletteRleCode(runs, palette, bytes)
      case PlainRle => PlainRleCode(runs, bytes)
  }

  // ---- The cost model is exact ----

  lemma {:induction false} PaletteRunsSize(runs: seq<Run>, palette: seq<nat>)
    requires RunsIn(runs, palette) && |palette| <= MAX_PALETTE
    ensures |PaletteRuns(runs, palette)| == PaletteRunsCost(runs)
  {
    hide LengthBytes, LengthCode;
    if runs != [] {
      LengthCodeSize(runs[0].length);
      PaletteRunsSize(runs[1..], palette);
    }
  }

  lemma {:induction false} PlainRunsSize(runs: seq<Run>, bytes: nat)
    requires RunsWhole(runs)
    ensures |PlainRuns(runs, bytes)| == PlainRunsCost(runs, bytes)
  {
    hide LengthBytes, LengthCode;
    if runs != [] {
      LengthCodeSize(runs[0].length);
      PlainRunsSize(runs[1..], bytes);
    }
  }

  /** A tile of several colours is one byte and exactly the least of what it
      could cost, so it is never more than its pixels and that byte. */
  lemma TileCodeSize(keys: seq<nat>, w: nat, h: nat, bytes: nat)
    requires |keys| == h * w && keys != []
    ensures RunsWhole(Runs(keys))
    ensures var best := Cheapest(w, h, bytes, |Palette(keys, MAX_PALETTE)|, Runs(keys));
            |Palette(keys, MAX_PALETTE)| != 1 ==> |TileCode(keys, w, h, bytes)| == 1 + Cost(best, w, h, bytes, |Palette(keys, MAX_PALETTE)|, Runs(keys)).value
    ensures |TileCode(keys, w, h, bytes)| <= 1 + w * h * bytes
  {
    hide Palette, Runs, PackedFrom, PaletteRuns, PlainRuns, PaletteRunsCost, PlainRunsCost, RowBytes, AllIn, RunsIn, RunsWhole;
    TileParts(keys);
    var palette, runs := Palette(keys, MAX_PALETTE), Runs(keys);
    AllBytesSize(keys, bytes);
    AllBytesSize(palette, bytes);
    PlainRunsSize(runs, bytes);
    MulOrder(1, |keys|, bytes);
    if |palette| > 1 {
      PaletteRunsSize(runs, palette);
      if |palette| <= PACKED_MAX {
        BitsEnough(palette);
        PackedSize(keys, w, h, 0, palette, PaletteBits(|palette|));
      }
    }
  }
}
