/** How Tight cuts a rectangle into pieces a decoder can hold. */
module TightPieces {
  import opened Geometry
  import opened Regions
  import opened Arithmetic
  import opened Tilings

  const MAX_WIDTH := 2048
  const MAX_PIXELS := 65536

  function Clamp(v: int, low: int, high: int): int
    requires low <= high
  {
    if v < low then low else if v > high then high else v
  }

  /** Rows to a piece: at most 65536 pixels at the width the pieces have. */
  function PieceRows(rect: Rect): (rows: int)
    ensures rows >= 32
  {
    var w := Clamp(rect.Width(), 1, MAX_WIDTH);
    DivAtLeast(MAX_PIXELS, w, 32);
    Max(MAX_PIXELS / w, 1)
  }

  /** One column of pieces, from row y down. */
  function ColumnFrom(x: int, width: int, y: int, y2: int, rows: int): seq<Rect>
    requires rows > 0
    decreases y2 - y
  {
    if y >= y2 then []
    else
      var height := Min(rows, y2 - y);
      [Rect(x, y, x + width, y + height)] + ColumnFrom(x, width, y + height, y2, rows)
  }

  /** Columns of pieces, from column x across. */
  function ColumnsFrom(rect: Rect, x: int, rows: int): seq<Rect>
    requires rows > 0
    decreases rect.x2 - x
  {
    if x >= rect.x2 then []
    else
      var width := Min(MAX_WIDTH, rect.x2 - x);
      ColumnFrom(x, width, rect.y1, rect.y2, rows) + ColumnsFrom(rect, x + width, rows)
  }

  function PieceRects(rect: Rect): seq<Rect> { ColumnsFrom(rect, rect.x1, PieceRows(rect)) }

  /** The rectangles a session writes headers for, in order. */
  method SplitRect(rect: Rect) returns (out: seq<Rect>)
    ensures out == PieceRects(rect)
  {
    var rows := PieceRows(rect);
    hide PieceRows;
    out := [];
    var x := rect.x1;
    while x < rect.x2
      invariant out + ColumnsFrom(rect, x, rows) == PieceRects(rect)
      decreases rect.x2 - x
    {
      var width := Min(MAX_WIDTH, rect.x2 - x);
      var column := SplitColumn(x, width, rect.y1, rect.y2, rows);
      assert out + (column + ColumnsFrom(rect, x + width, rows)) == out + column + ColumnsFrom(rect, x + width, rows);
      out := out + column;
      x := x + width;
    }
  }

  lemma Regrouped(out: seq<Rect>, piece: Rect, rest: seq<Rect>)
    ensures out + [piece] + rest == out + ([piece] + rest)
  {
  }

  method SplitColumn(x: int, width: int, y1: int, y2: int, rows: int) returns (out: seq<Rect>)
    requires rows > 0
    ensures out == ColumnFrom(x, width, y1, y2, rows)
  {
    out := [];
    var y := y1;
    while y < y2
      invariant out + ColumnFrom(x, width, y, y2, rows) == ColumnFrom(x, width, y1, y2, rows)
      decreases y2 - y
    {
      var height := Min(rows, y2 - y);
      var piece := Rect(x, y, x + width, y + height);
      Regrouped(out, piece, ColumnFrom(x, width, y + height, y2, rows));
      out := out + [piece];
      y := y + height;
    }
  }

  /** How many pieces a rectangle becomes. */
  function Pieces(rect: Rect): int {
    CeilDiv(Max(rect.Width(), 1), MAX_WIDTH) * CeilDiv(Max(rect.Height(), 1), PieceRows(rect))
  }

  /** Small enough for any decoder. */
  predicate Small(r: Rect) {
    !r.IsEmpty() && r.Width() <= MAX_WIDTH && r.Width() * r.Height() <= MAX_PIXELS
  }

  lemma {:induction false} ColumnTiles(x: int, width: int, y: int, y2: int, rows: int)
    requires 0 < width <= MAX_WIDTH && rows > 0 && width * rows <= MAX_PIXELS && y <= y2
    ensures var pieces := ColumnFrom(x, width, y, y2, rows);
            && Tiles(pieces, Rect(x, y, x + width, y2))
            && |pieces| == CeilDiv(y2 - y, rows)
            && forall i :: 0 <= i < |pieces| ==> Small(pieces[i])
    decreases y2 - y
  {
    hide CeilDiv, Tiles;
    if y < y2 {
      var h := Min(rows, y2 - y);
      var head, rest := Rect(x, y, x + width, y + h), ColumnFrom(x, width, y + h, y2, rows);
      ColumnTiles(x, width, y + h, y2, rows);
      CeilDivStep(y2 - y, rows);
      MulOrder(h, rows, width);
      TilesOne(head);
      TilesJoin([head], head, rest, Rect(x, y + h, x + width, y2), Rect(x, y, x + width, y2));
    } else {
      CeilDivZero(rows);
      TilesNone(Rect(x, y, x + width, y2));
    }
  }

  lemma {:induction false} ColumnsTile(rect: Rect, x: int, rows: int)
    requires rect.y1 < rect.y2 && x <= rect.x2 && rows > 0
    requires Min(MAX_WIDTH, rect.x2 - x) * rows <= MAX_PIXELS
    ensures var pieces := ColumnsFrom(rect, x, rows);
            && Tiles(pieces, Rect(x, rect.y1, rect.x2, rect.y2))
            && |pieces| == CeilDiv(rect.x2 - x, MAX_WIDTH) * CeilDiv(rect.y2 - rect.y1, rows)
            && forall i :: 0 <= i < |pieces| ==> Small(pieces[i])
    decreases rect.x2 - x
  {
    hide CeilDiv, Tiles;
    if x < rect.x2 {
      var w := Min(MAX_WIDTH, rect.x2 - x);
      MulOrder(Min(MAX_WIDTH, rect.x2 - x - w), w, rows);
      ColumnTiles(x, w, rect.y1, rect.y2, rows);
      ColumnsTile(rect, x + w, rows);
      CeilDivStep(rect.x2 - x, MAX_WIDTH);
      TilesJoin(ColumnFrom(x, w, rect.y1, rect.y2, rows), Rect(x, rect.y1, x + w, rect.y2),
                ColumnsFrom(rect, x + w, rows), Rect(x + w, rect.y1, rect.x2, rect.y2),
                Rect(x, rect.y1, rect.x2, rect.y2));
      Distributes(CeilDiv(rect.x2 - x - w, MAX_WIDTH), CeilDiv(rect.y2 - rect.y1, rows));
    } else {
      CeilDivZero(MAX_WIDTH);
      TilesNone(Rect(x, rect.y1, rect.x2, rect.y2));
    }
  }

  lemma RowsFit(rect: Rect)
    requires !rect.IsEmpty()
    ensures Min(MAX_WIDTH, rect.Width()) * PieceRows(rect) <= MAX_PIXELS
  {
    DivBounds(MAX_PIXELS, Clamp(rect.Width(), 1, MAX_WIDTH));
  }

  /** The pieces of a rectangle tile it exactly, each is small, and there are
      as many as the header was told. */
  lemma PiecesTile(rect: Rect)
    requires !rect.IsEmpty()
    ensures Tiles(PieceRects(rect), rect)
    ensures forall i :: 0 <= i < |PieceRects(rect)| ==> Small(PieceRects(rect)[i])
    ensures |PieceRects(rect)| == Pieces(rect)
  {
    RowsFit(rect);
    ColumnsTile(rect, rect.x1, PieceRows(rect));
  }

  lemma {:induction false} NoColumns(rect: Rect, x: int, rows: int)
    requires rows > 0 && (x >= rect.x2 || rect.y1 >= rect.y2)
    ensures ColumnsFrom(rect, x, rows) == []
    decreases rect.x2 - x
  {
    if x < rect.x2 {
      NoColumns(rect, x + Min(MAX_WIDTH, rect.x2 - x), rows);
    }
  }

  lemma NoPieces(rect: Rect)
    requires rect.IsEmpty()
    ensures PieceRects(rect) == []
  {
    NoColumns(rect, rect.x1, PieceRows(rect));
  }

  /** A small rectangle no taller than its rows allow is one piece. */
  lemma OnePiece(r: Rect)
    requires !r.IsEmpty() && r.Width() <= MAX_WIDTH && r.Height() <= PieceRows(r)
    ensures PieceRects(r) == [r]
  {
    var rows := PieceRows(r);
    assert ColumnFrom(r.x1, r.Width(), r.y2, r.y2, rows) == [];
    assert ColumnFrom(r.x1, r.Width(), r.y1, r.y2, rows) == [r];
    assert ColumnsFrom(r, r.x2, rows) == [];
  }

  /** A narrower rectangle may have at least as many rows to a piece. */
  lemma NarrowerIsTaller(r: Rect, rect: Rect)
    requires !r.IsEmpty() && r.Width() <= rect.Width()
    ensures PieceRows(rect) <= PieceRows(r)
  {
    var w, v := Clamp(rect.Width(), 1, MAX_WIDTH), Clamp(r.Width(), 1, MAX_WIDTH);
    var q := MAX_PIXELS / w;
    DivBounds(MAX_PIXELS, w);
    MulOrder(v, w, q);
    DivAtLeast(MAX_PIXELS, v, q);
  }

  lemma {:induction false} ColumnHeights(x: int, width: int, y: int, y2: int, rows: int)
    requires rows > 0 && width > 0
    ensures forall p :: p in ColumnFrom(x, width, y, y2, rows) ==>
      p.x1 == x && p.x2 == x + width && y <= p.y1 < p.y2 <= y2 && p.Height() <= rows
    decreases y2 - y
  {
    if y < y2 {
      ColumnHeights(x, width, y + Min(rows, y2 - y), y2, rows);
    }
  }

  lemma {:induction false} ColumnsHeights(rect: Rect, x: int, rows: int)
    requires rows > 0
    ensures forall p :: p in ColumnsFrom(rect, x, rows) ==>
      !p.IsEmpty() && x <= p.x1 && p.x2 <= rect.x2 && p.Width() <= MAX_WIDTH && p.Height() <= rows
    decreases rect.x2 - x
  {
    if x < rect.x2 {
      var w := Min(MAX_WIDTH, rect.x2 - x);
      ColumnHeights(x, w, rect.y1, rect.y2, rows);
      ColumnsHeights(rect, x + w, rows);
    }
  }

  /** Splitting a piece again gives the piece: the encoder, handed one piece at
      a time, writes one piece each. */
  lemma PieceSplitsToItself(rect: Rect, p: Rect)
    requires p in PieceRects(rect)
    ensures PieceRects(p) == [p]
  {
    ColumnsHeights(rect, rect.x1, PieceRows(rect));
    NarrowerIsTaller(p, rect);
    OnePiece(p);
  }

  /** Every piece of every rectangle, in order. */
  function AllPieces(rects: seq<Rect>): seq<Rect> {
    if rects == [] then [] else PieceRects(rects[0]) + AllPieces(rects[1..])
  }

  /** Splitting changes no pixel of the list. */
  lemma {:induction false} AllPiecesHave(rects: seq<Rect>, x: int, y: int)
    requires forall i :: 0 <= i < |rects| ==> !rects[i].IsEmpty()
    ensures Has(AllPieces(rects), x, y) <==> Has(rects, x, y)
  {
    if rects != [] {
      PiecesTile(rects[0]);
      AllPiecesHave(rects[1..], x, y);
      HasEither(PieceRects(rects[0]), AllPieces(rects[1..]), x, y);
      HasEither([rects[0]], rects[1..], x, y);
      assert rects == [rects[0]] + rects[1..];
      assert Has([rects[0]], x, y) <==> rects[0].Has(x, y) by {
        assert [rects[0]][0] == rects[0];
      }
    }
  }

  /** How many pieces a list comes to. */
  function PiecesOfAll(rects: seq<Rect>): int {
    if rects == [] then 0 else Pieces(rects[0]) + PiecesOfAll(rects[1..])
  }

  lemma {:induction false} PiecesCounted(rects: seq<Rect>)
    requires forall i :: 0 <= i < |rects| ==> !rects[i].IsEmpty()
    ensures |AllPieces(rects)| == PiecesOfAll(rects)
  {
    hide Pieces, PieceRects;
    if rects != [] {
      PiecesTile(rects[0]);
      PiecesCounted(rects[1..]);
    }
  }

  // ---- No more pieces than it takes ----

  /** A piece as wide as the pieces are, one row taller, would hold more than 65536 pixels. */
  lemma RowsAreMost(rect: Rect)
    requires !rect.IsEmpty()
    ensures var w := Min(rect.Width(), 2048); PieceRows(rect) * w <= 65536 < (PieceRows(rect) + 1) * w
  {
    var w := Clamp(rect.Width(), 1, MAX_WIDTH);
    DivBounds(MAX_PIXELS, w);
    Distributes(PieceRows(rect), w);
  }

  /** How many columns of so many pieces each cover the rectangle: neither one fewer would. */
  lemma PiecesAreFewest(rect: Rect)
    requires !rect.IsEmpty()
    ensures var columns, rows := CeilDiv(rect.Width(), 2048), CeilDiv(rect.Height(), PieceRows(rect));
            && Pieces(rect) == columns * rows
            && (columns - 1) * 2048 < rect.Width() <= columns * 2048
            && (rows - 1) * PieceRows(rect) < rect.Height() <= rows * PieceRows(rect)
  {
    hide PieceRows, CeilDiv;
    CeilDivBounds(rect.Width(), 2048);
    CeilDivBounds(rect.Height(), PieceRows(rect));
  }

  lemma CeilDivBounds(n: int, d: int)
    requires 0 < n && 0 < d
    ensures (CeilDiv(n, d) - 1) * d < n <= CeilDiv(n, d) * d && CeilDiv(n, d) >= 1
  {
    DivBounds(n + d - 1, d);
    Distributes(CeilDiv(n, d) - 1, d);
    DivAtLeast(n + d - 1, d, 1);
  }

  /** The largest pictures there are take 65536 pieces, one more than an update can count;
      every other takes no more than 65504. */
  lemma WholePicturePieces(w: int, h: int)
    requires 0 < w <= 65535 && 0 < h <= 65535
    ensures if w > 63488 && h > 65504 then Pieces(Rect(0, 0, w, h)) == 65536 else 1 <= Pieces(Rect(0, 0, w, h)) <= 65504
  {
    var r := Rect(0, 0, w, h);
    var columns, rows := CeilDiv(w, 2048), CeilDiv(h, PieceRows(r));
    PiecesAreFewest(r);
    RowsAreMost(r);
    CeilDivBounds(w, 2048);
    CeilDivBounds(h, PieceRows(r));
    hide CeilDiv, PieceRows, Pieces;
    RowCount(rows, PieceRows(r), h);
    if columns == 32 {
      assert PieceRows(r) == 32;
      if h > 65504 {
        assert rows == 2048;
      }
    } else if columns > 1 {
      MulOrder(columns, 31, rows);
    }
    MulOrder(1, columns, rows);
  }

  lemma RowCount(rows: int, each: int, h: int)
    requires each >= 32 && h <= 65535 && (rows - 1) * each < h
    ensures rows <= 2048 && (h <= 65504 ==> rows <= 2047)
  {
    if rows > 2047 {
      MulOrder(2047, rows - 1, each);
      MulOrder(32, each, 2047);
      if rows > 2048 {
        MulOrder(2048, rows - 1, each);
        MulOrder(32, each, 2048);
      }
    }
  }
}
