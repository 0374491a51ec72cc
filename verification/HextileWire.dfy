/** What Hextile puts on the wire, byte by byte, and when each form of a tile is used:
    the facts a decoder written elsewhere relies on (section 7.7.4 of RFC 6143). */
module HextileWire {
  import opened Geometry
  import opened Arithmetic
  import opened Bits
  import opened Pictures
  import opened PixelFormats
  import opened Blocks
  import opened Tilings
  import opened Hextiles
  import opened HextileEncoder

  /** A key that no other key of the tile occurs more often than. */
  ghost predicate MostFrequent(keys: seq<nat>, key: nat) {
    key in keys && forall other :: other in keys ==> multiset(keys)[other] <= multiset(keys)[key]
  }

  lemma CommonestIsMost(keys: seq<nat>)
    requires 0 < |Distinct(keys)| <= 24
    ensures Colours(keys) != [] && MostFrequent(keys, Commonest(Colours(keys)).key)
  {
    hide Colours, Commonest, Find, Distinct;
    ColoursAreCounts(keys);
    var colours := Colours(keys);
    var c := Commonest(colours);
    var i :| 0 <= i < |colours| && colours[i] == c;
    assert Find(colours, colours[i].key) == i;
    forall other | other in keys ensures multiset(keys)[other] <= multiset(keys)[c.key] {
      assert colours[Find(colours, other)].n == multiset(keys)[other];
    }
  }

  /** How many bytes blocks take. */
  lemma {:induction false} SubsSize(subs: seq<Sub>, coloured: bool, bpp: nat)
    requires AllSubsFit(subs)
    ensures |SubsBytes(subs, coloured, bpp)| == |subs| * (if coloured then 2 + bpp else 2)
  {
    if subs != [] {
      SubsSize(subs[1..], coloured, bpp);
      Distributes(|subs| - 1, if coloured then 2 + bpp else 2);
    }
  }

  /** What describing a tile costs: the colours that are news, a count, and two bytes for
      each block, with its colour where there are more than two. */
  function DescriptionSize(newBg: bool, newFg: bool, coloured: bool, blocks: nat, bpp: nat): nat {
    (if newBg then bpp else 0) + (if newFg then bpp else 0) + 1 + blocks * (if coloured then 2 + bpp else 2)
  }

  lemma BodySize(d: Form, keys: seq<nat>, bpp: nat)
    requires d.Described? && AllSubsFit(d.subs) && (d.newFg ==> d.fg.Some?) && |d.subs| <= 255
    ensures |Body(d, keys, bpp)| == DescriptionSize(d.newBg, d.newFg, d.fg.None?, |d.subs|, bpp)
  {
    SubsSize(d.subs, d.fg.None?, bpp);
  }

  /** A tile of two to twenty-four colours is described exactly when its blocks can be
      counted in a byte and describing it is shorter than its pixels; the background is a
      colour no other outnumbers, and only with two colours is there a foreground. */
  lemma DescribedIff(keys: seq<nat>, w: nat, h: nat, bpp: nat, c: Carried)
    requires |keys| == h * w && w <= TILE && h <= TILE && 2 <= |Distinct(keys)| <= 24
    ensures exists bg :: (MostFrequent(keys, bg)
      && IsDescription(FormOf(keys, w, h, bpp, c), bg, Runs(keys, w, h, bg), |Distinct(keys)| > 2, keys, bpp, c))
  {
    hide Colours, Runs, Commonest, OtherThan, AllSubsFit, Body, MostFrequent, Distinct;
    ColoursAreCounts(keys);
    CommonestIsMost(keys);
    var d := Description(keys, w, h, Colours(keys), c);
    RunsFit(keys, w, h, d.bg);
    TwoColours(keys, d.bg);
    SecondColour(keys, d.bg);
    if |d.subs| <= 255 {
      BodySize(d, keys, bpp);
    }
    assert IsDescription(FormOf(keys, w, h, bpp, c), d.bg, Runs(keys, w, h, d.bg), |Distinct(keys)| > 2, keys, bpp, c);
  }

  /** The tile said with this background and these blocks where that pays, or its pixels. */
  ghost predicate IsDescription(f: Form, bg: nat, subs: seq<Sub>, coloured: bool, keys: seq<nat>, bpp: nat, c: Carried) {
    exists fg: nat :: fg in keys && fg != bg && DescribedOr(f, bg, fg, subs, coloured, keys, bpp, c)
  }

  predicate DescribedOr(f: Form, bg: nat, fg: nat, subs: seq<Sub>, coloured: bool, keys: seq<nat>, bpp: nat, c: Carried) {
    var newBg, newFg := c.bg != Some(bg), !coloured && c.fg != Some(fg);
    if |subs| <= 255 && DescriptionSize(newBg, newFg, coloured, |subs|, bpp) < |keys| * bpp
    then f == Described(newBg, bg, newFg, if coloured then None else Some(fg), subs)
    else f == Raw
  }

  lemma SecondColour(keys: seq<nat>, bg: nat)
    requires 2 <= |Distinct(keys)| <= 24
    ensures OtherThan(Colours(keys), bg).Some? ==> OtherThan(Colours(keys), bg).value in keys
    ensures exists fg :: fg in keys && fg != bg
  {
    hide Colours, OtherThan, Find;
    ColoursAreCounts(keys);
    var colours := Colours(keys);
    assert Find(colours, colours[0].key) == 0 && Find(colours, colours[1].key) == 1;
    assert colours[0].key in keys && colours[1].key in keys;
    if OtherThan(colours, bg).Some? {
      var i :| 0 <= i < |colours| && colours[i].key == OtherThan(colours, bg).value;
      assert Find(colours, colours[i].key) == i;
    }
  }

  /** One colour is said in a byte and, where it is news, a pixel; more than twenty-four are
      sent as they are. */
  lemma PlainForms(keys: seq<nat>, w: nat, h: nat, bpp: nat, c: Carried)
    requires |keys| == h * w && w <= TILE && h <= TILE
    ensures var f := FormOf(keys, w, h, bpp, c);
            && (|Distinct(keys)| == 1 ==> f == Solid(c.bg != Some(keys[0]), keys[0]))
            && (|Distinct(keys)| > 24 ==> f == Raw)
  {
    hide Colours, Description, Distinct, Find;
    ColoursAreCounts(keys);
    if |Distinct(keys)| == 1 {
      assert Find(Colours(keys), Colours(keys)[0].key) == 0;
      OneKey(keys);
      assert Find(Colours(keys), keys[0]) == 0;
    }
  }

  lemma OneKey(keys: seq<nat>)
    requires |Distinct(keys)| == 1
    ensures keys != [] && keys[0] in keys
  {
    assert keys == [] ==> Distinct(keys) == {};
  }

  /** The background of a tile is remembered, its foreground where it said one, and neither is
      said again while it stands; a tile sent as pixels forgets nothing. */
  lemma SaidOnce(f: Form, c: Carried, keys: seq<nat>, w: nat, h: nat, bpp: nat)
    requires Writable(f) && |keys| == h * w && w <= TILE && h <= TILE
    ensures f.Raw? ==> f.After(c) == c
    ensures !f.Raw? ==> f.After(c).bg == Some(f.bg)
    ensures f.Described? && f.newFg ==> f.After(c).fg == f.fg
    ensures !(f.Described? && f.newFg) ==> f.After(c).fg == c.fg
    ensures !f.Raw? && |Distinct(keys)| == 1 && keys[0] == f.bg ==> WriteForm(FormOf(keys, w, h, bpp, f.After(c)), keys, bpp) == [0]
  {
    hide FormOf, Distinct;
    PlainForms(keys, w, h, bpp, f.After(c));
    if |Distinct(keys)| == 1 {
      OneKey(keys);
    }
  }

  // ---- The bytes ----

  /** The first byte: 1 for pixels as they are; otherwise 2 and 4 for a new background and
      foreground, 8 for blocks, 16 for a colour with each of them. */
  lemma FirstByte(f: Form, keys: seq<nat>, bpp: nat)
    requires Writable(f)
    ensures WriteForm(f, keys, bpp) != []
    ensures WriteForm(f, keys, bpp)[0] ==
            match f
            case Raw => 1
            case Solid(newBg, _) => (if newBg then 2 else 0)
            case Described(newBg, _, newFg, fg, _) => 8 + (if newBg then 2 else 0) + (if newFg then 4 else 0) + (if fg.None? then 16 else 0)
  {
  }

  /** What comes before the blocks: the background and the foreground, each where it is
      new, and the count. */
  function Front(d: Form, bpp: nat): seq<byte>
    requires d.Described? && |d.subs| <= 255 && (d.newFg ==> d.fg.Some?)
  {
    [Head(d)] + (if d.newBg then KeyBytes(d.bg, bpp) else []) + (if d.newFg then KeyBytes(d.fg.value, bpp) else []) + [|d.subs|]
  }

  lemma FrontWire(d: Form, bpp: nat)
    requires d.Described? && |d.subs| <= 255 && (d.newFg ==> d.fg.Some?)
    ensures var bs, fgAt := Front(d, bpp), if d.newBg then 1 + bpp else 1;
            && |bs| == fgAt + (if d.newFg then bpp else 0) + 1
            && (d.newBg ==> bs[1..1 + bpp] == KeyBytes(d.bg, bpp))
            && (d.newFg ==> bs[fgAt..fgAt + bpp] == KeyBytes(d.fg.value, bpp))
            && bs[|bs| - 1] == |d.subs|
  {
    hide Head;
  }

  /** Then every block in its place. */
  lemma DescribedWire(d: Form, keys: seq<nat>, bpp: nat, i: nat, each: nat)
    requires d.Described? && Writable(d) && i < |d.subs| && each == if d.fg.None? then 2 + bpp else 2
    ensures var bs, n := WriteForm(d, keys, bpp), |Front(d, bpp)|;
            && |bs| == n + |d.subs| * each && bs[..n] == Front(d, bpp)
            && 0 <= i * each <= i * each + each <= |d.subs| * each
            && bs[n + i * each..n + i * each + each] == SubBytes(d.subs[i], d.fg.None?, bpp)
  {
    FrontFirst(d, keys, bpp);
    hide SubBytes, SubsBytes, Front, WriteForm;
    SubsSize(d.subs, d.fg.None?, bpp);
    SubPlace(|d.subs|, i, each);
    SubAt(d.subs, d.fg.None?, bpp, i, each);
    PartOf(Front(d, bpp), SubsBytes(d.subs, d.fg.None?, bpp), i * each, each);
  }

  lemma FrontFirst(d: Form, keys: seq<nat>, bpp: nat)
    requires d.Described? && Writable(d)
    ensures WriteForm(d, keys, bpp) == Front(d, bpp) + SubsBytes(d.subs, d.fg.None?, bpp)
  {
    hide SubsBytes, KeyBytes, AllSubsFit, Head;
  }

  lemma PartOf(a: seq<byte>, b: seq<byte>, at: nat, n: nat)
    requires at + n <= |b|
    ensures (a + b)[|a| + at..|a| + at + n] == b[at..at + n]
  {
  }

  /** A block: its colour where each has one, its column and row in one byte, and its
      width and height less one in another. */
  lemma BlockWire(s: Sub, coloured: bool, bpp: nat)
    requires SubFits(s)
    ensures var bs, n := SubBytes(s, coloured, bpp), if coloured then bpp else 0;
            && |bs| == n + 2 && bs[..n] == (if coloured then KeyBytes(s.colour, bpp) else [])
            && bs[n] / 16 == s.x && bs[n] % 16 == s.y && bs[n + 1] / 16 == s.w - 1 && bs[n + 1] % 16 == s.h - 1
  {
  }

  lemma {:induction false} SubAt(subs: seq<Sub>, coloured: bool, bpp: nat, i: nat, each: nat)
    requires AllSubsFit(subs) && i < |subs| && each == if coloured then 2 + bpp else 2
    ensures 0 <= i * each <= i * each + each <= |SubsBytes(subs, coloured, bpp)|
    ensures SubsBytes(subs, coloured, bpp)[i * each..i * each + each] == SubBytes(subs[i], coloured, bpp)
  {
    hide SubBytes, SubsBytes;
    SubsSize(subs, coloured, bpp);
    SubPlace(|subs|, i, each);
    FirstSub(subs, coloured, bpp, each);
    if i > 0 {
      SubAt(subs[1..], coloured, bpp, i - 1, each);
      NextSub(SubBytes(subs[0], coloured, bpp), SubsBytes(subs[1..], coloured, bpp), i, each);
    }
  }

  lemma NextSub(first: seq<byte>, rest: seq<byte>, i: nat, each: nat)
    requires i > 0 && |first| == each && 0 <= (i - 1) * each <= (i - 1) * each + each <= |rest|
    ensures 0 <= i * each && i * each + each <= |first + rest|
    ensures (first + rest)[i * each..i * each + each] == rest[(i - 1) * each..(i - 1) * each + each]
  {
    Distributes(i - 1, each);
    PartAfter(first, rest, (i - 1) * each, each, i * each);
  }

  lemma FirstSub(subs: seq<Sub>, coloured: bool, bpp: nat, each: nat)
    requires AllSubsFit(subs) && subs != [] && each == if coloured then 2 + bpp else 2
    ensures AllSubsFit(subs[1..]) && |SubBytes(subs[0], coloured, bpp)| == each
    ensures SubsBytes(subs, coloured, bpp) == SubBytes(subs[0], coloured, bpp) + SubsBytes(subs[1..], coloured, bpp)
    ensures each <= |SubsBytes(subs, coloured, bpp)| && SubsBytes(subs, coloured, bpp)[0..each] == SubBytes(subs[0], coloured, bpp)
  {
    BlockWire(subs[0], coloured, bpp);
    hide SubBytes;
  }

  lemma SubPlace(n: nat, i: nat, each: nat)
    requires i < n
    ensures 0 <= i * each <= i * each + each <= n * each && (i == 0 ==> i * each == 0)
  {
    MulOrder(i + 1, n, each);
    Distributes(i, each);
    MulOrder(0, i, each);
  }

  // ---- A rectangle ----

  /** Tiles of 16 by 16 pixels in reading order, nothing remembered before the first. */
  lemma RectangleWire(p: Picture, rect: Rect, pf: PixelFormat)
    requires Inside(p, rect)
    ensures TilesIn(p, SquareTiles(rect, 16)) && Encoded(p, rect, pf) == TilesBytes(p, SquareTiles(rect, 16), pf, Carried(None, None))
  {
    hide TilesBytes, TilesIn, SquareTiles;
    RectTilesIn(p, rect);
  }
}
