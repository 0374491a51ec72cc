/** The distinct colours of a block, in the order they are met. */
module Palettes {
  import opened Bits
  import opened Blocks

  /** The colours in first-seen order, carried on over more keys; none once there are too many. */
  function PaletteFrom(keys: seq<nat>, palette: seq<nat>, max: nat): seq<nat> {
    if keys == [] then palette
    else if keys[0] in palette then PaletteFrom(keys[1..], palette, max)
    else if |palette| == max then []
    else PaletteFrom(keys[1..], palette + [keys[0]], max)
  }

  function Palette(keys: seq<nat>, max: nat): seq<nat> { PaletteFrom(keys, [], max) }

  ghost predicate NoRepeats(palette: seq<nat>) {
    forall i, j :: 0 <= i < j < |palette| ==> palette[i] != palette[j]
  }

  lemma {:induction false} NoRepeatsSize(palette: seq<nat>)
    requires NoRepeats(palette)
    ensures |Distinct(palette)| == |palette|
  {
    if palette != [] {
      var n := |palette| - 1;
      NoRepeatsSize(palette[..n]);
      assert palette == palette[..n] + [palette[n]];
      assert Distinct(palette) == Distinct(palette[..n]) + {palette[n]};
    }
  }

  lemma {:induction false} PaletteGathers(keys: seq<nat>, palette: seq<nat>, seen: seq<nat>, max: nat)
    requires NoRepeats(palette) && Distinct(palette) == Distinct(seen) && |palette| <= max
    ensures var all := PaletteFrom(keys, palette, max);
            if |Distinct(seen + keys)| <= max then NoRepeats(all) && Distinct(all) == Distinct(seen + keys) && |all| == |Distinct(seen + keys)|
            else all == []
  {
    if keys == [] {
      assert seen + keys == seen;
      NoRepeatsSize(palette);
    } else {
      var seen' := seen + [keys[0]];
      assert seen + keys == seen' + keys[1..];
      if keys[0] in palette {
        assert keys[0] in Distinct(palette);
        assert Distinct(seen') == Distinct(seen);
        PaletteGathers(keys[1..], palette, seen', max);
      } else {
        var palette' := palette + [keys[0]];
        assert Distinct(palette') == Distinct(palette) + {keys[0]};
        assert Distinct(seen') == Distinct(seen) + {keys[0]};
        if |palette| < max {
          PaletteGathers(keys[1..], palette', seen', max);
        } else {
          NoRepeatsSize(palette');
          MoreDistinct(seen', keys[1..]);
        }
      }
    }
  }

  /** The palette holds each colour once, unless there are too many. */
  lemma PaletteIsColours(keys: seq<nat>, max: nat)
    ensures if |Distinct(keys)| <= max then NoRepeats(Palette(keys, max)) && Distinct(Palette(keys, max)) == Distinct(keys)
            else Palette(keys, max) == []
  {
    assert [] + keys == keys;
    PaletteGathers(keys, [], [], max);
  }

  /** Where a colour stands in the palette. */
  function IndexOf(palette: seq<nat>, key: nat): (i: nat)
    requires key in palette
    ensures i < |palette| && palette[i] == key
  {
    if palette[0] == key then 0 else 1 + IndexOf(palette[1..], key)
  }

  /** Every colour is in the palette. */
  predicate AllIn(keys: seq<nat>, palette: seq<nat>) { forall i :: 0 <= i < |keys| ==> keys[i] in palette }

  /** Each colour replaced by what stands at its place in the palette. */
  function Looked<T>(keys: seq<nat>, palette: seq<nat>, shown: seq<T>): (ts: seq<T>)
    requires AllIn(keys, palette) && |shown| == |palette|
    ensures |ts| == |keys| && forall i :: 0 <= i < |keys| ==> ts[i] == shown[IndexOf(palette, keys[i])]
  {
    seq(|keys|, i requires 0 <= i < |keys| => shown[IndexOf(palette, keys[i])])
  }
}
