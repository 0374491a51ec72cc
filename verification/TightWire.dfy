/** What Tight puts on the wire, byte by byte, and which form a piece takes: the facts a
    decoder written elsewhere relies on. */
module TightWire {
  import opened Geometry
  import opened Arithmetic
  import opened Bits
  import opened Blocks
  import opened Palettes
  import opened PackedRows
  import opened Tights
  import Zlib

  /** A length: under 128 in one byte; under 16384 in two; else in three. Seven bits a byte,
      low bits first, the top bit of a byte saying another follows. */
  lemma CompactWire(length: nat)
    requires length < 4194304
    ensures var bs := CompactBytes(length);
            if length < 128 then |bs| == 1 && bs[0] == length
            else if length < 16384 then |bs| == 2 && bs[0] >= 128 && bs[1] < 128 && length == Groups(bs[0] - 128, bs[1], 0)
            else |bs| == 3 && bs[0] >= 128 && bs[1] >= 128 && length == Groups(bs[0] - 128, bs[1] - 128, bs[2])
  {
    var a := length / 128;
    assert a / 128 < 256;
  }

  function Groups(low: int, middle: int, high: int): int { low + 128 * middle + 16384 * high }

  /** A piece is this header and its data: under twelve bytes as it is, and otherwise a length
      and what its stream makes of it, which that stream then remembers and no other does. */
  ghost predicate IsPiece(bs: seq<byte>, header: seq<byte>, z: Zlib.Codec, s: Sender, id: nat, body: seq<byte>, s': Sender)
    requires s.Valid() && id < 4
  {
    if |body| < 12 then bs == header + body && s'.streams == s.streams
    else
      var packed := z.deflate(s.level, s.streams[id], body);
      && bs == header + (CompactBytes(|packed|) + packed)
      && |s'.streams| == 4 && s'.streams[id] == s.streams[id] + [body]
      && forall k :: 0 <= k < 4 && k != id ==> s'.streams[k] == s.streams[k]
  }

  /** The colours told are the distinct colours of the piece, each once. */
  ghost predicate ColoursOf(palette: seq<nat>, keys: seq<nat>) {
    NoRepeats(palette) && Distinct(palette) == Distinct(keys) && |palette| == |Distinct(keys)| <= 256 && AllIn(keys, palette)
  }

  lemma PieceColours(keys: seq<nat>)
    requires keys != []
    ensures |Distinct(keys)| >= 1
    ensures if |Distinct(keys)| <= 256 then ColoursOf(Palette(keys, 256), keys) else Palette(keys, 256) == []
    ensures |Distinct(keys)| == 1 ==> Palette(keys, 256) == [keys[0]]
  {
    hide Palette;
    PaletteIsColours(keys, 256);
    PaletteHolds(keys);
    var palette := Palette(keys, 256);
    assert keys[0] in Distinct(keys);
    if |Distinct(keys)| <= 256 {
      NoRepeatsSize(palette);
      assert keys[0] in Distinct(palette);
    }
  }

  /** A piece of one colour: 128 with the streams to start again in the low four bits, and the colour. */
  lemma FillWire(z: Zlib.Codec, s: Sender, keys: seq<nat>, w: nat, h: nat, bytes: nat)
    requires s.Valid() && |keys| == h * w && |Distinct(keys)| == 1 && keys != []
    ensures Piece(z, s, keys, w, h, bytes) == Written([128 + s.pending] + KeyBytes(keys[0], bytes), s.(pending := 0))
  {
    hide Palette, KeyBytes, PackedFrom;
    PieceColours(keys);
  }

  /** Of two colours: 80 and those bits, the filter 1, the colours, and rows of bits on stream 1. */
  lemma MonoWire(z: Zlib.Codec, s: Sender, keys: seq<nat>, w: nat, h: nat, bytes: nat)
    requires s.Valid() && |keys| == h * w && |Distinct(keys)| == 2 && keys != []
    ensures var palette, piece := Palette(keys, 256), Piece(z, s, keys, w, h, bytes);
            && ColoursOf(palette, keys) && Narrow(palette, 1) && piece.sender.pending == 0
            && IsPiece(piece.bytes, [80 + s.pending, 1, 1] + AllBytes(palette, bytes),
                       z, s, 1, PackedFrom(keys, w, h, 0, palette, 1), piece.sender)
  {
    hide Palette, AllBytes, PackedFrom, CompactBytes, ColoursOf;
    PieceColours(keys);
    ColoursHold(keys);
    TwoIsNarrow(Palette(keys, 256));
  }

  /** Of three to 256: 96, the filter 1, how many less one, the colours, and a byte a pixel on stream 2. */
  lemma IndexedWire(z: Zlib.Codec, s: Sender, keys: seq<nat>, w: nat, h: nat, bytes: nat)
    requires s.Valid() && |keys| == h * w && 3 <= |Distinct(keys)| <= 256 && keys != []
    ensures var palette, piece := Palette(keys, 256), Piece(z, s, keys, w, h, bytes);
            && ColoursOf(palette, keys) && AllIn(keys, palette) && piece.sender.pending == 0
            && IsPiece(piece.bytes, [96 + s.pending, 1, |Distinct(keys)| - 1] + AllBytes(palette, bytes),
                       z, s, 2, IndexBytes(keys, palette), piece.sender)
  {
    hide Palette, AllBytes, IndexBytes, CompactBytes, ColoursOf;
    PieceColours(keys);
    ColoursHold(keys);
  }

  /** Of more: 64, the filter 0, and the pixels on stream 0. */
  lemma CopyWire(z: Zlib.Codec, s: Sender, keys: seq<nat>, w: nat, h: nat, bytes: nat)
    requires s.Valid() && |keys| == h * w && |Distinct(keys)| > 256 && keys != []
    ensures var piece := Piece(z, s, keys, w, h, bytes);
            piece.sender.pending == 0 && IsPiece(piece.bytes, [64 + s.pending, 0], z, s, 0, AllBytes(keys, bytes), piece.sender)
  {
    hide Palette, AllBytes, CompactBytes;
    PieceColours(keys);
  }

  lemma ColoursHold(keys: seq<nat>)
    requires ColoursOf(Palette(keys, 256), keys)
    ensures AllIn(keys, Palette(keys, 256)) && |Palette(keys, 256)| == |Distinct(keys)| <= 256
  {
  }
}
