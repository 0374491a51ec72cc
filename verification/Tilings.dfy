/** Rectangles cut into rectangles: rows and columns of pieces that cover exactly what was cut. */
module Tilings {
  import opened Geometry
  import opened Regions
  import opened Arithmetic

  /** These rectangles tile the area: disjoint, and together exactly it. */
  ghost predicate Tiles(pieces: seq<Rect>, area: Rect) {
    && (forall i, j :: 0 <= i < j < |pieces| ==> !pieces[i].Intersects(pieces[j]))
    && (forall x, y :: Has(pieces, x, y) <==> area.Has(x, y))
  }

  lemma TilesNone(area: Rect)
    requires area.IsEmpty()
    ensures Tiles([], area)
  {
  }

  lemma TilesOne(r: Rect)
    ensures Tiles([r], r)
  {
    assert [r][0] == r;
  }

  /** Two tilings of disjoint areas, one after the other. */
  lemma TilesJoin(s: seq<Rect>, a: Rect, t: seq<Rect>, b: Rect, whole: Rect)
    requires Tiles(s, a) && Tiles(t, b) && !a.Intersects(b)
    requires forall x, y :: whole.Has(x, y) <==> a.Has(x, y) || b.Has(x, y)
    ensures Tiles(s + t, whole)
  {
    var all := s + t;
    forall x, y ensures Has(all, x, y) <==> Has(s, x, y) || Has(t, x, y) {
      HasEither(s, t, x, y);
    }
    forall i, j | 0 <= i < j < |all| ensures !all[i].Intersects(all[j]) {
      if i < |s| <= j {
        if x, y :| s[i].Has(x, y) && t[j - |s|].Has(x, y) {
          assert Has(s, x, y) && Has(t, x, y);
        }
      }
    }
  }

  lemma HasEither(s: seq<Rect>, t: seq<Rect>, x: int, y: int)
    ensures Has(s + t, x, y) <==> Has(s, x, y) || Has(t, x, y)
  {
    if Has(s, x, y) {
      var i :| 0 <= i < |s| && s[i].Has(x, y);
      assert (s + t)[i] == s[i];
    }
    if Has(t, x, y) {
      var i :| 0 <= i < |t| && t[i].Has(x, y);
      assert (s + t)[|s| + i] == t[i];
    }
  }

  lemma HasFirst(tiles: seq<Rect>, x: int, y: int)
    requires tiles != []
    ensures Has(tiles, x, y) <==> tiles[0].Has(x, y) || Has(tiles[1..], x, y)
  {
    HasEither([tiles[0]], tiles[1..], x, y);
    assert tiles == [tiles[0]] + tiles[1..];
    assert [tiles[0]][0] == tiles[0];
  }

  /** Rounded-up division. */
  function CeilDiv(n: int, d: int): int
    requires d > 0
  {
    (n + d - 1) / d
  }

  lemma CeilDivStep(n: int, d: int)
    requires n > 0 && d > 0
    ensures CeilDiv(n, d) == CeilDiv(n - Min(d, n), d) + 1
  {
    if n >= d {
      DivPlusOne(n - 1, d);
    } else {
      DivUnique(n + d - 1, d, 1);
      DivUnique(d - 1, d, 0);
    }
  }

  lemma CeilDivZero(d: int)
    requires d > 0
    ensures CeilDiv(0, d) == 0
  {
    DivUnique(d - 1, d, 0);
  }

  // ---- Square tiles, row by row; the last row and column are whatever is left ----

  function TileAt(rect: Rect, x: int, y: int, size: nat): Rect {
    Rect(x, y, x + Min(size, rect.x2 - x), y + Min(size, rect.y2 - y))
  }

  /** The tiles of one row, from column x across. */
  function RowOfTiles(rect: Rect, x: int, y: int, size: nat): seq<Rect>
    requires size > 0
    decreases rect.x2 - x
  {
    if x >= rect.x2 then [] else [TileAt(rect, x, y, size)] + RowOfTiles(rect, x + size, y, size)
  }

  /** The rows of tiles from row y down. */
  function TilesFrom(rect: Rect, y: int, size: nat): seq<Rect>
    requires size > 0
    decreases rect.y2 - y
  {
    if y >= rect.y2 then [] else RowOfTiles(rect, rect.x1, y, size) + TilesFrom(rect, y + size, size)
  }

  function SquareTiles(rect: Rect, size: nat): seq<Rect>
    requires size > 0
  {
    TilesFrom(rect, rect.y1, size)
  }

  lemma FirstRow(rect: Rect, y: int, size: nat)
    requires size > 0 && y < rect.y2
    ensures TilesFrom(rect, y, size) == RowOfTiles(rect, rect.x1, y, size) + TilesFrom(rect, y + size, size)
  {
  }

  lemma NextInRow(rect: Rect, x: int, y: int, below: seq<Rect>, size: nat)
    requires size > 0
    ensures x < rect.x2 ==>
      RowOfTiles(rect, x, y, size) + below == [TileAt(rect, x, y, size)] + (RowOfTiles(rect, x + size, y, size) + below)
    ensures x >= rect.x2 ==> RowOfTiles(rect, x, y, size) + below == below
  {
  }

  predicate IsTile(rect: Rect, size: nat, t: Rect) {
    && rect.x1 <= t.x1 < t.x2 <= rect.x2 && rect.y1 <= t.y1 < t.y2 <= rect.y2
    && t.Width() <= size && t.Height() <= size
  }

  /** How many pixels the tiles hold between them. */
  function Area(tiles: seq<Rect>): nat {
    if tiles == [] then 0 else tiles[0].Width() * tiles[0].Height() + Area(tiles[1..])
  }

  lemma {:induction false} AreaJoin(s: seq<Rect>, t: seq<Rect>)
    ensures Area(s + t) == Area(s) + Area(t)
  {
    if s == [] {
      assert s + t == t;
    } else {
      AreaJoin(s[1..], t);
      assert (s + t)[0] == s[0] && (s + t)[1..] == s[1..] + t;
    }
  }

  /** A row is its first tile and the row after it. */
  lemma RowStarts(rect: Rect, x: int, y: int, size: nat)
    requires size > 0 && rect.x1 <= x < rect.x2 && rect.y1 <= y < rect.y2
    ensures var t, w, h := TileAt(rect, x, y, size), Min(size, rect.x2 - x), Min(size, rect.y2 - y);
            && RowOfTiles(rect, x, y, size) == [t] + RowOfTiles(rect, x + size, y, size)
            && (x + size >= rect.x2 ==> RowOfTiles(rect, x, y, size) == [t] && RowOfTiles(rect, x + size, y, size) == [])
            && t == Rect(x, y, x + w, y + h) && IsTile(rect, size, t) && Area([t]) == w * h
  {
    assert [TileAt(rect, x, y, size)][1..] == [];
  }

  lemma {:induction false} RowTiles(rect: Rect, x: int, y: int, size: nat)
    requires size > 0 && rect.x1 <= x <= rect.x2 && rect.y1 <= y < rect.y2
    ensures var tiles, h := RowOfTiles(rect, x, y, size), Min(size, rect.y2 - y);
            && Tiles(tiles, Rect(x, y, rect.x2, y + h))
            && |tiles| == CeilDiv(rect.x2 - x, size) && Area(tiles) == (rect.x2 - x) * h
            && forall i :: 0 <= i < |tiles| ==> IsTile(rect, size, tiles[i])
    decreases rect.x2 - x
  {
    hide CeilDiv, Tiles;
    var h := Min(size, rect.y2 - y);
    if x < rect.x2 {
      var w := Min(size, rect.x2 - x);
      var t, rest := TileAt(rect, x, y, size), RowOfTiles(rect, x + size, y, size);
      hide RowOfTiles;
      RowStarts(rect, x, y, size);
      CeilDivStep(rect.x2 - x, size);
      TilesOne(t);
      if x + size < rect.x2 {
        RowTiles(rect, x + size, y, size);
        TilesJoin([t], t, rest, Rect(x + size, y, rect.x2, y + h), Rect(x, y, rect.x2, y + h));
        Parts(w, rect.x2 - x - w, h);
      } else {
        CeilDivZero(size);
      }
      AreaJoin([t], rest);
    } else {
      CeilDivZero(size);
      TilesNone(Rect(x, y, rect.x2, y + h));
    }
  }

  lemma Parts(a: int, b: int, h: int)
    ensures (a + b) * h == a * h + b * h
  {
  }

  lemma {:induction false} RowsTile(rect: Rect, y: int, size: nat)
    requires size > 0 && rect.x1 < rect.x2 && rect.y1 <= y <= rect.y2
    ensures var tiles := TilesFrom(rect, y, size);
            && Tiles(tiles, Rect(rect.x1, y, rect.x2, rect.y2))
            && forall i :: 0 <= i < |tiles| ==> IsTile(rect, size, tiles[i])
    decreases rect.y2 - y
  {
    hide CeilDiv, Tiles, Area;
    if y < rect.y2 {
      var h := Min(size, rect.y2 - y);
      var row, rest := RowOfTiles(rect, rect.x1, y, size), TilesFrom(rect, y + size, size);
      RowTiles(rect, rect.x1, y, size);
      if y + size < rect.y2 {
        RowsTile(rect, y + size, size);
        TilesJoin(row, Rect(rect.x1, y, rect.x2, y + h), rest, Rect(rect.x1, y + size, rect.x2, rect.y2),
                  Rect(rect.x1, y, rect.x2, rect.y2));
      } else {
        assert row + rest == row;
      }
    } else {
      TilesNone(Rect(rect.x1, y, rect.x2, rect.y2));
    }
  }

  lemma {:induction false} RowsCount(rect: Rect, y: int, size: nat)
    requires size > 0 && rect.x1 < rect.x2 && rect.y1 <= y
    ensures var tiles, left := TilesFrom(rect, y, size), Max(rect.y2 - y, 0);
            && |tiles| == CeilDiv(left, size) * CeilDiv(rect.x2 - rect.x1, size)
            && Area(tiles) == left * (rect.x2 - rect.x1)
    decreases rect.y2 - y
  {
    hide CeilDiv, Tiles, Area, RowOfTiles;
    if y < rect.y2 {
      var h, left := Min(size, rect.y2 - y), Max(rect.y2 - y - size, 0);
      RowTiles(rect, rect.x1, y, size);
      CeilDivStep(rect.y2 - y, size);
      AreaJoin(RowOfTiles(rect, rect.x1, y, size), TilesFrom(rect, y + size, size));
      Distributes(CeilDiv(left, size), CeilDiv(rect.x2 - rect.x1, size));
      Parts(h, left, rect.x2 - rect.x1);
      RowsCount(rect, y + size, size);
    } else {
      NoArea();
      CeilDivZero(size);
    }
  }

  lemma NoArea()
    ensures Area([]) == 0
  {
  }

  /** Square tiles cut a rectangle exactly, and there are as many as rounding up each side says. */
  lemma SquareTilesCut(rect: Rect, size: nat)
    requires size > 0
    ensures var tiles := SquareTiles(rect, size);
            && Tiles(tiles, rect) && Area(tiles) == rect.Height() * rect.Width()
            && |tiles| == CeilDiv(rect.Height(), size) * CeilDiv(rect.Width(), size)
            && forall i :: 0 <= i < |tiles| ==> IsTile(rect, size, tiles[i])
  {
    hide CeilDiv, Tiles, Area;
    if rect.IsEmpty() {
      NoTiles(rect, rect.y1, size);
      CeilDivZero(size);
      TilesNone(rect);
      NoArea();
    } else {
      RowsTile(rect, rect.y1, size);
      RowsCount(rect, rect.y1, size);
    }
  }

  lemma {:induction false} NoTiles(rect: Rect, y: int, size: nat)
    requires size > 0 && (rect.x1 >= rect.x2 || y >= rect.y2)
    ensures TilesFrom(rect, y, size) == []
    decreases rect.y2 - y
  {
    if y < rect.y2 {
      NoTiles(rect, y + size, size);
    }
  }

  // ---- In what order ----

  /** Above, or in the same row and further left. */
  predicate ReadFirst(t: Rect, u: Rect) { t.y1 < u.y1 || (t.y1 == u.y1 && t.x1 < u.x1) }

  /** A whole number of steps from the start. */
  predicate Aligned(from: int, at: int, size: nat)
    requires size > 0
  {
    (at - from) % size == 0
  }

  /** A tile that starts whole tiles across and down, and is whole but for the edges. */
  predicate OnGrid(rect: Rect, size: nat, t: Rect)
    requires size > 0
  {
    && Aligned(rect.x1, t.x1, size) && Aligned(rect.y1, t.y1, size)
    && t.x2 == Min(t.x1 + size, rect.x2) && t.y2 == Min(t.y1 + size, rect.y2)
  }

  ghost predicate InReadingOrder(tiles: seq<Rect>) { forall i, j :: 0 <= i < j < |tiles| ==> ReadFirst(tiles[i], tiles[j]) }

  ghost predicate AllOnGrid(rect: Rect, size: nat, tiles: seq<Rect>)
    requires size > 0
  {
    forall i :: 0 <= i < |tiles| ==> OnGrid(rect, size, tiles[i])
  }

  lemma AlignedOn(from: int, at: int, size: nat)
    requires size > 0
    ensures Aligned(from, from, size)
    ensures Aligned(from, at, size) ==> Aligned(from, at + size, size)
  {
    SmallMod(0, size);
    DivMod(at - from, size);
    var q := (at - from) / size;
    Distributes(q, size);
    if (at - from) % size == 0 {
      DivUnique(at + size - from, size, q + 1);
      DivMod(at + size - from, size);
    }
  }

  lemma {:induction false} RowInOrder(rect: Rect, x: int, y: int, size: nat)
    requires size > 0 && Aligned(rect.x1, x, size) && Aligned(rect.y1, y, size)
    ensures AllOnGrid(rect, size, RowOfTiles(rect, x, y, size)) && InReadingOrder(RowOfTiles(rect, x, y, size))
    ensures forall t :: t in RowOfTiles(rect, x, y, size) ==> t.y1 == y && t.x1 >= x
    decreases rect.x2 - x
  {
    hide Aligned;
    if x < rect.x2 {
      AlignedOn(rect.x1, x, size);
      RowInOrder(rect, x + size, y, size);
      FirstInOrder(TileAt(rect, x, y, size), RowOfTiles(rect, x + size, y, size));
    }
  }

  lemma FirstInOrder(t: Rect, rest: seq<Rect>)
    requires InReadingOrder(rest) && forall u :: u in rest ==> ReadFirst(t, u)
    ensures InReadingOrder([t] + rest)
  {
  }

  lemma JoinedInOrder(a: seq<Rect>, b: seq<Rect>)
    requires InReadingOrder(a) && InReadingOrder(b) && forall t, u :: t in a && u in b ==> ReadFirst(t, u)
    ensures InReadingOrder(a + b)
  {
  }

  lemma {:induction false} RowsInOrder(rect: Rect, y: int, size: nat)
    requires size > 0 && Aligned(rect.y1, y, size)
    ensures AllOnGrid(rect, size, TilesFrom(rect, y, size)) && InReadingOrder(TilesFrom(rect, y, size))
    ensures forall t :: t in TilesFrom(rect, y, size) ==> t.y1 >= y
    decreases rect.y2 - y
  {
    hide RowOfTiles, OnGrid, Aligned;
    if y < rect.y2 {
      AlignedOn(rect.x1, rect.x1, size);
      AlignedOn(rect.y1, y, size);
      RowInOrder(rect, rect.x1, y, size);
      RowsInOrder(rect, y + size, size);
      JoinedInOrder(RowOfTiles(rect, rect.x1, y, size), TilesFrom(rect, y + size, size));
    }
  }

  /** The tiles come in reading order, each on the grid. */
  lemma SquareTilesInOrder(rect: Rect, size: nat)
    requires size > 0
    ensures AllOnGrid(rect, size, SquareTiles(rect, size)) && InReadingOrder(SquareTiles(rect, size))
  {
    hide OnGrid, Aligned;
    AlignedOn(rect.y1, rect.y1, size);
    RowsInOrder(rect, rect.y1, size);
  }

  /** Where a pixel of a block stands among its pixels in rows. */
  function IndexIn(r: Rect, px: int, py: int): int { (py - r.y1) * r.Width() + (px - r.x1) }

  lemma IndexInBlock(r: Rect, px: int, py: int)
    requires r.Has(px, py)
    ensures 0 <= IndexIn(r, px, py) < r.Width() * r.Height()
    ensures IndexIn(r, px, py) / r.Width() == py - r.y1 && IndexIn(r, px, py) % r.Width() == px - r.x1
  {
    var w, dy, dx := r.Width(), py - r.y1, px - r.x1;
    MulOrder(dy + 1, r.Height(), w);
    MulOrder(0, dy, w);
    Distributes(dy, w);
    DivUnique(dy * w + dx, w, dy);
  }
}
