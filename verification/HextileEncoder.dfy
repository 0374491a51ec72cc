/** The Hextile encoder: what each tile is sent as, and the bytes of it. */
module HextileEncoder {
  import opened Geometry
  import opened Arithmetic
  import opened Bits
  import opened Pictures
  import opened Framebuffers
  import opened PixelFormats
  import opened Blocks
  import opened Tilings
  import opened Hextiles

  /** The two colours that carry from tile to tile; unknown at first. */
  datatype Carried = Carried(bg: Option<nat>, fg: Option<nat>)

  const UNKNOWN := Carried(None, None)

  /** How a tile goes out. */
  datatype Form =
    | Raw
    | Solid(newBg: bool, bg: nat)
    | Described(newBg: bool, bg: nat, newFg: bool, fg: Option<nat>, subs: seq<Sub>)
  {
    /** What the next tile may take as said. */
    function After(c: Carried): Carried {
      match this
      case Raw => c
      case Solid(_, bg) => c.(bg := Some(bg))
      case Described(_, bg, newFg, fg, _) => Carried(Some(bg), if newFg then fg else c.fg)
    }
  }

  /** One block, with its colour if the blocks differ. */
  function SubBytes(s: Sub, coloured: bool, bpp: nat): seq<byte>
    requires SubFits(s)
  {
    (if coloured then KeyBytes(s.colour, bpp) else []) + [16 * s.x + s.y, 16 * (s.w - 1) + (s.h - 1)]
  }

  predicate SubFits(s: Sub) { s.x < TILE && s.y < TILE && 1 <= s.w <= TILE && 1 <= s.h <= TILE }

  predicate AllSubsFit(subs: seq<Sub>) { forall i :: 0 <= i < |subs| ==> SubFits(subs[i]) }

  function SubsBytes(subs: seq<Sub>, coloured: bool, bpp: nat): seq<byte>
    requires AllSubsFit(subs)
  {
    if subs == [] then [] else SubBytes(subs[0], coloured, bpp) + SubsBytes(subs[1..], coloured, bpp)
  }

  function Head(f: Form): byte {
    match f
    case Raw => RAW
    case Solid(newBg, _) => if newBg then BACKGROUND else 0
    case Described(newBg, _, newFg, fg, _) =>
      ANY_SUBRECTS + (if newBg then BACKGROUND else 0) + (if newFg then FOREGROUND else 0)
      + (if fg.None? then SUBRECTS_COLOURED else 0)
  }

  predicate Writable(f: Form) {
    f.Described? ==> |f.subs| <= MAX_SUBRECTS && AllSubsFit(f.subs) && (f.newFg ==> f.fg.Some?)
  }

  /** What follows the head. */
  function Body(f: Form, keys: seq<nat>, bpp: nat): seq<byte>
    requires Writable(f)
  {
    match f
    case Raw => AllBytes(keys, bpp)
    case Solid(newBg, bg) => if newBg then KeyBytes(bg, bpp) else []
    case Described(newBg, bg, newFg, fg, subs) =>
      (if newBg then KeyBytes(bg, bpp) else []) + (if newFg then KeyBytes(fg.value, bpp) else [])
      + [|subs|] + SubsBytes(subs, fg.None?, bpp)
  }

  function WriteForm(f: Form, keys: seq<nat>, bpp: nat): seq<byte>
    requires Writable(f)
  {
    [Head(f)] + Body(f, keys, bpp)
  }

  /** The tile described by its commonest colour and the runs of the others. */
  function Description(keys: seq<nat>, w: nat, h: nat, colours: seq<Count>, c: Carried): Form
    requires |keys| == h * w && colours != []
  {
    var bg := Commonest(colours).key;
    var fg := if |colours| > 2 then None else OtherThan(colours, bg);
    Described(c.bg != Some(bg), bg, fg.Some? && c.fg != fg, fg, Runs(keys, w, h, bg))
  }

  /** A description stands only if its blocks can be counted and it is smaller than the pixels. */
  function Chosen(d: Form, keys: seq<nat>, bpp: nat): (f: Form)
    requires d.Described? && AllSubsFit(d.subs) && (d.newFg ==> d.fg.Some?)
    ensures Writable(f)
  {
    if |d.subs| > MAX_SUBRECTS then Raw
    else if |Body(d, keys, bpp)| < |keys| * bpp then d
    else Raw
  }

  /** Which form a tile takes: one colour is said, too many are sent, and the rest described if that pays. */
  function FormOf(keys: seq<nat>, w: nat, h: nat, bpp: nat, c: Carried): (f: Form)
    requires |keys| == h * w && w <= TILE && h <= TILE
    ensures Writable(f)
  {
    var colours := Colours(keys);
    if |colours| == 1 then Solid(c.bg != Some(colours[0].key), colours[0].key)
    else if colours == [] then Raw
    else
      var d := Description(keys, w, h, colours, c);
      RunsFit(keys, w, h, d.bg);
      Chosen(d, keys, bpp)
  }

  /** A tile of one colour, as bytes, and what is remembered of it. */
  lemma OneColourForm(keys: seq<nat>, w: nat, h: nat, bpp: nat, c: Carried)
    requires |keys| == h * w && w <= TILE && h <= TILE && |Colours(keys)| == 1
    ensures var f, only := FormOf(keys, w, h, bpp, c), Colours(keys)[0].key;
            if c.bg == Some(only) then WriteForm(f, keys, bpp) == [0] && f.After(c) == c
            else WriteForm(f, keys, bpp) == [BACKGROUND] + KeyBytes(only, bpp) && f.After(c) == c.(bg := Some(only))
  {
    hide Colours, KeyBytes;
  }

  /** A tile of too many colours goes as it is, and what is remembered stays. */
  lemma ManyColoursForm(keys: seq<nat>, w: nat, h: nat, bpp: nat, c: Carried)
    requires |keys| == h * w && w <= TILE && h <= TILE && Colours(keys) == []
    ensures var f := FormOf(keys, w, h, bpp, c);
            WriteForm(f, keys, bpp) == [RAW] + AllBytes(keys, bpp) && f.After(c) == c
  {
    hide Colours, AllBytes;
  }

  lemma RunsFit(keys: seq<nat>, w: nat, h: nat, bg: nat)
    requires |keys| == h * w && w <= TILE && h <= TILE
    ensures AllSubsFit(Runs(keys, w, h, bg))
  {
    RunsPartition(keys, w, h, bg);
    var subs := Runs(keys, w, h, bg);
    forall i | 0 <= i < |subs| ensures SubFits(subs[i]) {
      assert Sound(keys, w, h, 0, h, bg, subs[i]);
    }
  }

  // ---- A rectangle ----

  ghost function TileKeys(p: Picture, t: Rect, pf: PixelFormat): (ks: seq<nat>)
    requires Inside(p, t)
    ensures |ks| == t.Height() * t.Width()
  {
    BlockSize(p, t);
    Keys(Block(p, t), pf)
  }

  ghost predicate TilesIn(p: Picture, tiles: seq<Rect>) {
    forall i :: 0 <= i < |tiles| ==> Inside(p, tiles[i]) && 0 < tiles[i].Width() <= TILE && 0 < tiles[i].Height() <= TILE
  }

  ghost function TileForm(p: Picture, t: Rect, pf: PixelFormat, c: Carried): (f: Form)
    requires TilesIn(p, [t])
    ensures Writable(f)
  {
    assert Inside(p, [t][0]) && [t][0].Width() <= TILE && [t][0].Height() <= TILE;
    FormOf(TileKeys(p, t, pf), t.Width(), t.Height(), pf.BytesPerPixel(), c)
  }

  ghost function TileBytes(p: Picture, t: Rect, pf: PixelFormat, c: Carried): seq<byte>
    requires TilesIn(p, [t])
  {
    assert Inside(p, [t][0]);
    WriteForm(TileForm(p, t, pf, c), TileKeys(p, t, pf), pf.BytesPerPixel())
  }

  /** The tiles' bytes in order, each with the colours carried to it. */
  ghost function TilesBytes(p: Picture, tiles: seq<Rect>, pf: PixelFormat, c: Carried): seq<byte>
    requires TilesIn(p, tiles)
  {
    if tiles == [] then []
    else TileBytes(p, tiles[0], pf, c) + TilesBytes(p, tiles[1..], pf, TileForm(p, tiles[0], pf, c).After(c))
  }

  lemma RectTilesIn(p: Picture, rect: Rect)
    requires Inside(p, rect)
    ensures TilesIn(p, SquareTiles(rect, TILE))
  {
    SquareTilesCut(rect, TILE);
    var tiles := SquareTiles(rect, TILE);
    forall i | 0 <= i < |tiles| ensures Inside(p, tiles[i]) && 0 < tiles[i].Width() <= TILE && 0 < tiles[i].Height() <= TILE {
      assert IsTile(rect, TILE, tiles[i]);
    }
  }

  /** The payload of a rectangle. */
  ghost function Encoded(p: Picture, rect: Rect, pf: PixelFormat): seq<byte>
    requires Inside(p, rect)
  {
    RectTilesIn(p, rect);
    TilesBytes(p, SquareTiles(rect, TILE), pf, UNKNOWN)
  }

  // ---- The bound ----

  lemma FormBound(keys: seq<nat>, w: nat, h: nat, bpp: nat, c: Carried)
    requires |keys| == h * w && 0 < w <= TILE && 0 < h <= TILE
    ensures |WriteForm(FormOf(keys, w, h, bpp, c), keys, bpp)| <= 1 + h * w * bpp
  {
    hide Description, Colours;
    AllBytesSize(keys, bpp);
    MulOrder(1, h, w);
    MulOrder(1, h * w, bpp);
  }

  lemma TileBound(p: Picture, t: Rect, pf: PixelFormat, c: Carried)
    requires TilesIn(p, [t])
    ensures |TileBytes(p, t, pf, c)| <= 1 + t.Width() * t.Height() * pf.BytesPerPixel()
  {
    assert Inside(p, [t][0]) && 0 < [t][0].Width() <= TILE && 0 < [t][0].Height() <= TILE;
    FormBound(TileKeys(p, t, pf), t.Width(), t.Height(), pf.BytesPerPixel(), c);
  }

  /** A payload is never larger than the pixels and one byte a tile. */
  lemma {:induction false} TilesBound(p: Picture, tiles: seq<Rect>, pf: PixelFormat, c: Carried)
    requires TilesIn(p, tiles)
    ensures |TilesBytes(p, tiles, pf, c)| <= Area(tiles) * pf.BytesPerPixel() + |tiles|
  {
    if tiles == [] {
      NoArea();
    } else {
      hide TileBytes, TileForm, TilesIn, Area, PixelFormat.BytesPerPixel;
      assert TilesIn(p, [tiles[0]]) && TilesIn(p, tiles[1..]) by {
        OneTileIn(p, tiles);
      }
      TileBound(p, tiles[0], pf, c);
      TilesBound(p, tiles[1..], pf, TileForm(p, tiles[0], pf, c).After(c));
      AreaStep(tiles, pf.BytesPerPixel());
    }
  }

  lemma AreaStep(tiles: seq<Rect>, bpp: nat)
    requires tiles != []
    ensures Area(tiles) * bpp == tiles[0].Width() * tiles[0].Height() * bpp + Area(tiles[1..]) * bpp
  {
    AreaFirst(tiles);
    hide Area, Rect.Width, Rect.Height;
    Parts(tiles[0].Width() * tiles[0].Height(), Area(tiles[1..]), bpp);
  }

  lemma AreaFirst(tiles: seq<Rect>)
    requires tiles != []
    ensures Area(tiles) == tiles[0].Width() * tiles[0].Height() + Area(tiles[1..])
  {
  }

  lemma OneTileIn(p: Picture, tiles: seq<Rect>)
    requires TilesIn(p, tiles) && tiles != []
    ensures TilesIn(p, [tiles[0]]) && TilesIn(p, tiles[1..])
  {
  }

  lemma EncodedBound(p: Picture, rect: Rect, pf: PixelFormat)
    requires Inside(p, rect)
    ensures |Encoded(p, rect, pf)| <= rect.Height() * rect.Width() * pf.BytesPerPixel()
                                      + CeilDiv(rect.Height(), TILE) * CeilDiv(rect.Width(), TILE)
  {
    RectTilesIn(p, rect);
    SquareTilesCut(rect, TILE);
    TilesBound(p, SquareTiles(rect, TILE), pf, UNKNOWN);
  }

  // ---- What each loop of the encoder adds ----

  /** What is out, and the bytes of the tiles still to come, make the whole. */
  ghost predicate Owing(p: Picture, pf: PixelFormat, out: seq<byte>, c: Carried, tiles: seq<Rect>, whole: seq<byte>) {
    TilesIn(p, tiles) && out + TilesBytes(p, tiles, pf, c) == whole
  }

  lemma FirstOwed(p: Picture, pf: PixelFormat, out: seq<byte>, c: Carried, tile: Rect, rest: seq<Rect>, whole: seq<byte>)
    requires Owing(p, pf, out, c, [tile] + rest, whole)
    ensures TilesIn(p, [tile]) && Inside(p, tile) && 0 < tile.Width() <= TILE && 0 < tile.Height() <= TILE
    ensures Owing(p, pf, out + TileBytes(p, tile, pf, c), TileForm(p, tile, pf, c).After(c), rest, whole)
  {
    var tiles := [tile] + rest;
    assert tiles[0] == tile && tiles[1..] == rest;
    OneTileIn(p, tiles);
    assert Inside(p, tiles[0]) && 0 < tiles[0].Width() <= TILE && 0 < tiles[0].Height() <= TILE;
    hide TilesIn, TileForm, TileBytes;
    assert out + TilesBytes(p, tiles, pf, c)
        == (out + TileBytes(p, tile, pf, c)) + TilesBytes(p, rest, pf, TileForm(p, tile, pf, c).After(c));
  }

  lemma ReadStart(p: Picture, tile: Rect, pf: PixelFormat)
    requires Inside(p, tile) && Valid(pf)
    ensures Inside(p, Rect(tile.x1, tile.y1, tile.x2, tile.y1))
    ensures ConvertAll(Block(p, Rect(tile.x1, tile.y1, tile.x2, tile.y1)), pf) == []
    ensures tile.x1 + tile.Width() == tile.x2 && tile.y1 <= tile.y2
    ensures |Block(p, tile)| == |Keys(Block(p, tile), pf)|
    ensures forall k :: 0 <= k < |Block(p, tile)| ==> Keys(Block(p, tile), pf)[k] < Pow2(8 * pf.BytesPerPixel())
    ensures pf.BytesPerPixel() > 0
  {
    KeysFit(Block(p, tile), pf);
  }

  lemma AllOwed(p: Picture, rect: Rect, pf: PixelFormat, out: seq<byte>)
    requires Inside(p, rect)
    ensures Owing(p, pf, out, UNKNOWN, TilesFrom(rect, rect.y1, TILE), out + Encoded(p, rect, pf))
  {
    hide TilesIn, TilesFrom, TilesBytes;
    RectTilesIn(p, rect);
  }

  lemma NothingOwed(p: Picture, pf: PixelFormat, out: seq<byte>, c: Carried, rect: Rect, y: int, whole: seq<byte>)
    requires y >= rect.y2 && Owing(p, pf, out, c, TilesFrom(rect, y, TILE), whole)
    ensures out == whole
  {
  }

  lemma TileParts(p: Picture, t: Rect, pf: PixelFormat, c: Carried)
    requires TilesIn(p, [t])
    ensures Inside(p, t) && t.Width() <= TILE && t.Height() <= TILE
    ensures TileForm(p, t, pf, c) == FormOf(TileKeys(p, t, pf), t.Width(), t.Height(), pf.BytesPerPixel(), c)
    ensures TileBytes(p, t, pf, c) == WriteForm(TileForm(p, t, pf, c), TileKeys(p, t, pf), pf.BytesPerPixel())
  {
    assert Inside(p, [t][0]) && [t][0].Width() <= TILE && [t][0].Height() <= TILE;
  }

  lemma KeysFit(pixels: seq<Pixel>, pf: PixelFormat)
    requires Valid(pf)
    ensures pf.BytesPerPixel() > 0 && forall k :: 0 <= k < |pixels| ==> Keys(pixels, pf)[k] < Pow2(8 * pf.BytesPerPixel())
  {
    hide Key, Pow2;
    forall k | 0 <= k < |pixels| ensures Keys(pixels, pf)[k] < Pow2(8 * pf.BytesPerPixel()) {
      KeyIsBytes(pixels[k], pf);
    }
  }

  /** Of two colours one is not the background. */
  lemma TwoColours(keys: seq<nat>, bg: nat)
    ensures |Colours(keys)| == 2 ==> OtherThan(Colours(keys), bg).Some?
  {
    hide Colours, OtherThan, Find;
    ColoursAreCounts(keys);
    var colours := Colours(keys);
    assert |colours| == 2 ==> Find(colours, colours[1].key) == 1;
    assert |colours| == 2 ==> colours[0].key != colours[1].key;
  }

  lemma RawBody(keys: seq<nat>, bpp: nat)
    ensures Body(Raw, keys, bpp) == AllBytes(keys, bpp)
  {
  }

  lemma LastAboveStep(subs: seq<Sub>, i: nat, run: Sub)
    requires 0 < i <= |subs| && !subs[i - 1].Continues(run)
    ensures LastAbove(subs[..i], run) == if LastAbove(subs[..i - 1], run) < i - 1 then LastAbove(subs[..i - 1], run) else i
  {
    assert subs[..i][..i - 1] == subs[..i - 1];
  }

  // ---- The encoder as it runs ----

  class Hextile {
    var bytes: seq<byte>
    var keys: seq<nat>
    var colours: seq<Count>
    var subrects: seq<Sub>
    var width: nat
    var height: nat

    constructor ()
    {
      bytes, keys, colours, subrects, width, height := [], [], [], [], 0, 0;
    }

    /** Append the rectangle's payload. */
    method Encode(fb: Framebuffer, rect: Rect, pf: PixelFormat, out: seq<byte>) returns (out': seq<byte>)
      requires fb.Valid() && Inside(fb.Contents(), rect) && Valid(pf)
      modifies this
      ensures out' == out + Encoded(fb.Contents(), rect, pf)
    {
      hide Valid, Inside, TilesFrom, RowOfTiles, Owing, Encoded, Framebuffer.Contents, Framebuffer.Valid;
      ghost var p := fb.Contents();
      ghost var whole := out + Encoded(p, rect, pf);
      out' := out;
      var c := UNKNOWN;
      AllOwed(p, rect, pf, out);
      var y := rect.y1;
      while y < rect.y2
        invariant rect.y1 <= y && Owing(p, pf, out', c, TilesFrom(rect, y, TILE), whole)
        decreases rect.y2 - y
      {
        out', c := EncodeRow(fb, rect, y, pf, c, out', whole);
        y := y + TILE;
      }
      NothingOwed(p, pf, out', c, rect, y, whole);
    }

    /** One row of tiles. */
    method EncodeRow(fb: Framebuffer, rect: Rect, y: int, pf: PixelFormat, c: Carried, out: seq<byte>, ghost whole: seq<byte>)
      returns (out': seq<byte>, c': Carried)
      requires fb.Valid() && Valid(pf) && y < rect.y2
      requires Owing(fb.Contents(), pf, out, c, TilesFrom(rect, y, TILE), whole)
      modifies this
      ensures Owing(fb.Contents(), pf, out', c', TilesFrom(rect, y + TILE, TILE), whole)
    {
      hide TileForm, TilesIn, Valid, TilesFrom, Inside, TileBytes, Owing, RowOfTiles, FormOf, TileKeys, WriteForm;
      hide Framebuffer.Contents, Framebuffer.Valid, PixelFormat.BytesPerPixel, AllBytes;
      ghost var p, below := fb.Contents(), TilesFrom(rect, y + TILE, TILE);
      out', c' := out, c;
      var x := rect.x1;
      var tileHeight := Min(TILE, rect.y2 - y);
      FirstRow(rect, y, TILE);
      while x < rect.x2
        invariant Owing(p, pf, out', c', RowOfTiles(rect, x, y, TILE) + below, whole)
        decreases rect.x2 - x
      {
        var tile := Rect(x, y, x + Min(TILE, rect.x2 - x), y + tileHeight);
        NextInRow(rect, x, y, below, TILE);
        FirstOwed(p, pf, out', c', tile, RowOfTiles(rect, x + TILE, y, TILE) + below, whole);
        Read(fb, tile, pf);
        TileParts(p, tile, pf, c');
        out', c' := EncodeTile(pf.BytesPerPixel(), c', out');
        x := x + TILE;
      }
      NextInRow(rect, x, y, below, TILE);
    }

    /** One tile's pixels out of the framebuffer, converted once. */
    method Read(fb: Framebuffer, tile: Rect, pf: PixelFormat)
      requires fb.Valid() && Inside(fb.Contents(), tile) && Valid(pf)
      modifies this
      ensures width == tile.Width() && height == tile.Height()
      ensures keys == TileKeys(fb.Contents(), tile, pf) && bytes == AllBytes(keys, pf.BytesPerPixel())
    {
      hide Block, Valid, PixelFormat.BytesPerPixel, Inside, Convert, Key, ConvertAll, AllBytes, Framebuffer.Contents;
      ghost var p := fb.Contents();
      width, height := tile.Width(), tile.Height();
      bytes := [];
      ReadStart(p, tile, pf);
      for row := tile.y1 to tile.y2
        invariant Inside(p, Rect(tile.x1, tile.y1, tile.x2, row))
        invariant bytes == ConvertAll(Block(p, Rect(tile.x1, tile.y1, tile.x2, row)), pf)
        invariant width == tile.Width() && height == tile.Height()
      {
        RowIn(p, tile, row);
        var span := fb.RowSpan(tile.x1, row, width);
        bytes := ConvertRow(span, pf, bytes);
        BlockNextRow(p, tile, row);
        ConvertAllJoin(Block(p, Rect(tile.x1, tile.y1, tile.x2, row)), span, pf);
      }
      assert Rect(tile.x1, tile.y1, tile.x2, tile.y2) == tile;
      ConvertedKeys(Block(p, tile), pf);
      BlockSize(p, tile);
      AllBytesSize(Keys(Block(p, tile), pf), pf.BytesPerPixel());
      keys := ChunkKeys(bytes, pf.BytesPerPixel(), Keys(Block(p, tile), pf));
    }

    /** The bytes taken bpp at a time, each stretch as a number. */
    static method ChunkKeys(bytes: seq<byte>, bpp: nat, ghost ks: seq<nat>) returns (keys: seq<nat>)
      requires bpp > 0 && bytes == AllBytes(ks, bpp)
      requires forall i :: 0 <= i < |ks| ==> ks[i] < Pow2(8 * bpp)
      ensures keys == ks
    {
      hide Pow2;
      keys := [];
      var at := 0;
      ghost var n := 0;
      AllBytesSize(ks, bpp);
      while at + bpp <= |bytes|
        invariant n <= |ks| && at == n * bpp && keys == ks[..n]
      {
        Distributes(n, bpp);
        MulCancel(n, |ks|, bpp);
        KeyAt(ks, bpp, n);
        WordFits(ks[n], bpp);
        keys := keys + [LeWord(bytes[at..at + bpp])];
        at := at + bpp;
        n := n + 1;
      }
      Distributes(n, bpp);
      MulCancel(|ks|, n + 1, bpp);
    }

    /** Encode the tile now in `keys`. */
    method EncodeTile(bpp: nat, c: Carried, out: seq<byte>) returns (out': seq<byte>, c': Carried)
      requires |keys| == height * width && 0 < width <= TILE && 0 < height <= TILE && bytes == AllBytes(keys, bpp)
      modifies `colours, `subrects
      ensures out' == out + WriteForm(FormOf(keys, width, height, bpp, c), keys, bpp)
      ensures c' == FormOf(keys, width, height, bpp, c).After(c)
    {
      hide Colours, FormOf, WriteForm, Form.After, AllBytes, KeyBytes;
      var rawLen := |keys| * bpp;
      out', c' := out, c;
      CountColours();
      if |colours| == 1 {
        var only := colours[0].key;
        OneColourForm(keys, width, height, bpp, c);
        var head := if c.bg != Some(only) then BACKGROUND else 0;
        out' := out' + [head];
        if head == BACKGROUND {
          out' := out' + KeyBytes(only, bpp);
          c' := c'.(bg := Some(only));
        }
        assert head == BACKGROUND ==> out' == out + ([head] + KeyBytes(only, bpp));
      } else if colours == [] {
        ManyColoursForm(keys, width, height, bpp, c);
        out' := out' + [RAW] + bytes;
        assert out' == out + ([RAW] + bytes);
      } else {
        out', c' := EncodeDescribed(bpp, rawLen, c, out);
      }
    }

    /** A tile of a few colours: described if that is smaller than its pixels. */
    method EncodeDescribed(bpp: nat, rawLen: nat, c: Carried, out: seq<byte>) returns (out': seq<byte>, c': Carried)
      requires |keys| == height * width && 0 < width <= TILE && 0 < height <= TILE && bytes == AllBytes(keys, bpp)
      requires colours == Colours(keys) && |colours| > 1 && rawLen == |keys| * bpp
      modifies `subrects
      ensures out' == out + WriteForm(FormOf(keys, width, height, bpp, c), keys, bpp)
      ensures c' == FormOf(keys, width, height, bpp, c).After(c)
    {
      hide Colours, Runs, AllBytes, KeyBytes, SubsBytes, AllSubsFit, OtherThan, Commonest, Chosen, Head, Body;
      var bg := Commonest(colours).key;
      var coloured := |colours| > 2;
      var fg := if coloured then None else OtherThan(colours, bg);
      FindRuns(bg);
      RunsFit(keys, width, height, bg);
      var newBg := c.bg != Some(bg);
      var newFg := fg.Some? && c.fg != fg;
      TwoColours(keys, bg);
      assert FormOf(keys, width, height, bpp, c) == Chosen(Described(newBg, bg, newFg, fg, subrects), keys, bpp);
      hide FormOf, Description;
      out', c' := EncodeChosen(newBg, bg, newFg, fg, coloured, bpp, rawLen, c, out);
    }

    /** The description, or the pixels if it is no smaller. */
    method EncodeChosen(newBg: bool, bg: nat, newFg: bool, fg: Option<nat>, coloured: bool, bpp: nat, rawLen: nat, c: Carried,
                        out: seq<byte>)
      returns (out': seq<byte>, c': Carried)
      requires AllSubsFit(subrects) && newBg == (c.bg != Some(bg)) && newFg == (fg.Some? && c.fg != fg) && coloured == fg.None?
      requires bytes == AllBytes(keys, bpp) && rawLen == |keys| * bpp
      ensures var f := Chosen(Described(newBg, bg, newFg, fg, subrects), keys, bpp);
              out' == out + WriteForm(f, keys, bpp) && c' == f.After(c)
    {
      hide AllSubsFit, AllBytes, Body;
      out', c' := out, c;
      RawBody(keys, bpp);
      if |subrects| > MAX_SUBRECTS {
        out' := out' + [RAW] + bytes;
        return;
      }
      var head := ANY_SUBRECTS + (if newBg then BACKGROUND else 0) + (if newFg then FOREGROUND else 0)
                  + (if coloured then SUBRECTS_COLOURED else 0);
      var body := WriteBody(newBg, bg, newFg, fg, coloured, bpp);
      if |body| < rawLen {
        out' := out' + [head] + body;
        if newBg {
          c' := c'.(bg := Some(bg));
        }
        if newFg {
          c' := c'.(fg := fg);
        }
      } else {
        out' := out' + [RAW] + bytes;
      }
    }

    /** The colours that are news, then the blocks. */
    method WriteBody(newBg: bool, bg: nat, newFg: bool, fg: Option<nat>, coloured: bool, bpp: nat) returns (body: seq<byte>)
      requires AllSubsFit(subrects) && |subrects| <= MAX_SUBRECTS && coloured == fg.None? && (newFg ==> fg.Some?)
      ensures body == Body(Described(newBg, bg, newFg, fg, subrects), keys, bpp)
    {
      hide KeyBytes, SubsBytes, AllSubsFit, AllBytes;
      body := [];
      if newBg {
        body := body + KeyBytes(bg, bpp);
      }
      if newFg {
        body := body + KeyBytes(fg.value, bpp);
      }
      body := body + [|subrects|];
      var blocks := WriteSubs(subrects, coloured, bpp);
      body := body + blocks;
    }

    static method WriteSubs(subs: seq<Sub>, coloured: bool, bpp: nat) returns (out: seq<byte>)
      requires AllSubsFit(subs)
      ensures out == SubsBytes(subs, coloured, bpp)
    {
      out := [];
      for i := 0 to |subs|
        invariant out + SubsBytes(subs[i..], coloured, bpp) == SubsBytes(subs, coloured, bpp)
      {
        var sub := subs[i];
        assert subs[i..][0] == sub && subs[i..][1..] == subs[i + 1..];
        var piece: seq<byte> := [16 * sub.x + sub.y, 16 * (sub.w - 1) + (sub.h - 1)];
        if coloured {
          piece := KeyBytes(sub.colour, bpp) + piece;
        }
        out := out + piece;
      }
    }

    /** The tile's distinct colours with their counts, or none if there are too many. */
    method CountColours()
      modifies `colours
      ensures colours == Colours(keys)
    {
      colours := [];
      for i := 0 to |keys|
        invariant CountFrom(keys[i..], colours) == Colours(keys)
      {
        var key, at := keys[i], Find(colours, keys[i]);
        assert keys[i..][0] == key && keys[i..][1..] == keys[i + 1..];
        if at < |colours| {
          colours := colours[at := Count(key, colours[at].n + 1)];
        } else {
          if |colours| == TOO_MANY {
            colours := [];
            return;
          }
          colours := colours + [Count(key, 1)];
        }
      }
    }

    /** Every run of other pixels than the background, joined downwards. */
    method FindRuns(background: nat)
      requires |keys| == height * width
      modifies `subrects
      ensures subrects == Runs(keys, width, height, background)
    {
      hide Row, RowRuns;
      subrects := [];
      for y := 0 to height
        invariant RunsFrom(keys, width, height, y, background, subrects) == Runs(keys, width, height, background)
      {
        FindRowRuns(Row(keys, width, height, y), y, background);
      }
    }

    method FindRowRuns(row: seq<nat>, y: nat, background: nat)
      modifies `subrects
      ensures subrects == RowRuns(row, 0, y, background, old(subrects))
    {
      hide AddRun;
      var x := 0;
      while x < |row|
        invariant x <= |row|
        invariant RowRuns(row, x, y, background, subrects) == RowRuns(row, 0, y, background, old(subrects))
      {
        var colour := row[x];
        if colour == background {
          x := x + 1;
        } else {
          var start := x;
          while x < |row| && row[x] == colour
            invariant start <= x <= |row|
            invariant RunEnd(row, x, colour) == RunEnd(row, start + 1, colour)
          {
            x := x + 1;
          }
          Grow(Sub(start, y, x - start, 1, colour));
        }
      }
    }

    /** The run directly above, if it matches, grows instead. */
    method Grow(run: Sub)
      modifies `subrects
      ensures subrects == AddRun(old(subrects), run)
    {
      var above := subrects;
      var i := |above|;
      assert above[..i] == above;
      while i > 0 && !above[i - 1].Continues(run)
        invariant i <= |above|
        invariant LastAbove(above, run) == (if LastAbove(above[..i], run) < i then LastAbove(above[..i], run) else |above|)
      {
        LastAboveStep(above, i, run);
        i := i - 1;
      }
      if i > 0 {
        subrects := above[i - 1 := above[i - 1].(h := above[i - 1].h + 1)];
      } else {
        subrects := above + [run];
      }
    }
  }
}
