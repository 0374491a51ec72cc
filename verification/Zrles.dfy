/** ZRLE tiles (section 7.7.6 of RFC 6143): each described in whichever of five
    ways comes out smallest. */
module Zrles {
  import opened Geometry
  import opened Arithmetic
  import opened Bits
  import opened Blocks
  import opened Tilings
  import opened Palettes
  import opened PackedRows

  const TILE := 64
  const MAX_PALETTE := 127
  const PACKED_MAX := 16

  // The subencodings.
  const RAW: byte := 0
  const SOLID: byte := 1
  const PACKED_REUSE: byte := 127
  const PLAIN_RLE: byte := 128
  const RLE_REUSE: byte := 129
  const RLE_BASE: byte := 128

  // ---- Colours and runs ----

  datatype Run = Run(colour: nat, length: nat)

  /** A key carries on the last run or starts one. */
  function AddKey(runs: seq<Run>, key: nat): seq<Run> {
    var n := |runs|;
    if n > 0 && runs[n - 1].colour == key then runs[n - 1 := Run(key, runs[n - 1].length + 1)] else runs + [Run(key, 1)]
  }

  function RunsFrom(keys: seq<nat>, runs: seq<Run>): seq<Run> {
    if keys == [] then runs else RunsFrom(keys[1..], AddKey(runs, keys[0]))
  }

  function Runs(keys: seq<nat>): seq<Run> { RunsFrom(keys, []) }

  /** The keys a list of runs stands for. */
  function Expand(runs: seq<Run>): seq<nat> {
    if runs == [] then [] else Expand(runs[..|runs| - 1]) + Uniform(runs[|runs| - 1].colour, runs[|runs| - 1].length)
  }

  /** Runs as long as can be: none is empty, and no two neighbours have one colour. */
  ghost predicate Longest(runs: seq<Run>) {
    && (forall i :: 0 <= i < |runs| ==> runs[i].length > 0)
    && (forall i :: 0 < i < |runs| ==> runs[i - 1].colour != runs[i].colour)
  }

  lemma AddKeyExpands(runs: seq<Run>, key: nat)
    requires Longest(runs)
    ensures Longest(AddKey(runs, key)) && Expand(AddKey(runs, key)) == Expand(runs) + [key]
  {
    var n, after := |runs|, AddKey(runs, key);
    if n > 0 && runs[n - 1].colour == key {
      assert after[..n - 1] == runs[..n - 1];
      assert Uniform(key, runs[n - 1].length + 1) == Uniform(key, runs[n - 1].length) + [key];
    } else {
      assert after[..n] == runs;
      assert Uniform(key, 1) == [key];
    }
  }

  lemma {:induction false} RunsExpand(keys: seq<nat>, runs: seq<Run>)
    requires Longest(runs)
    ensures Longest(RunsFrom(keys, runs)) && Expand(RunsFrom(keys, runs)) == Expand(runs) + keys
  {
    hide AddKey, Expand, Longest;
    if keys != [] {
      AddKeyExpands(runs, keys[0]);
      RunsExpand(keys[1..], AddKey(runs, keys[0]));
      assert Expand(runs) + keys == Expand(runs) + [keys[0]] + keys[1..];
    }
  }

  /** The runs of a tile stand for its keys, and are as long as can be. */
  lemma RunsStandForKeys(keys: seq<nat>)
    ensures Longest(Runs(keys)) && Expand(Runs(keys)) == keys
  {
    RunsExpand(keys, []);
    assert [] + keys == keys;
  }

  // ---- What each description costs ----

  function PaletteBits(size: nat): nat { if size <= 2 then 1 else if size <= 4 then 2 else 4 }

  function PackedBytes(w: nat, h: nat, palette: nat): nat { RowBytes(w, PaletteBits(palette)) * h }

  /** A run length costs one byte per whole 255 and one for the remainder. */
  function LengthBytes(length: nat): nat
    requires length > 0
  {
    (length - 1) / 255 + 1
  }

  function PaletteRunCost(r: Run): nat { 1 + if r.length > 1 then LengthBytes(r.length) else 0 }

  function PaletteRunsCost(runs: seq<Run>): nat {
    if runs == [] then 0 else PaletteRunCost(runs[0]) + PaletteRunsCost(runs[1..])
  }

  function PlainRunsCost(runs: seq<Run>, bytes: nat): nat
    requires forall i :: 0 <= i < |runs| ==> runs[i].length > 0
  {
    if runs == [] then 0 else bytes + LengthBytes(runs[0].length) + PlainRunsCost(runs[1..], bytes)
  }

  // ---- The bytes of each description ----

  function LengthCode(length: nat): seq<byte>
    requires length > 0
  {
    if length - 1 >= 255 then [255] + LengthCode(length - 255) else [length - 1]
  }

  lemma {:induction false} LengthCodeSize(length: nat)
    requires length > 0
    ensures |LengthCode(length)| == LengthBytes(length)
  {
    if length - 1 >= 255 {
      LengthCodeSize(length - 255);
    }
  }
}
