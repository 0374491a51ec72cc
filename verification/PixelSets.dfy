/** The region operations as operations on sets of pixels, and what the
    normal form being canonical gives: equal sets are equal lists. */
module PixelSets {
  import opened Geometry
  import opened Spans
  import opened Regions
  import opened RegionOps

  /** The region is the normal form of this set of pixels. */
  ghost predicate Denotes(r: Region, pixels: iset<Point>) { NormalForm(r) && Pixels(r) == pixels }

  lemma DenotesUnique(r: Region, s: Region, pixels: iset<Point>)
    requires Denotes(r, pixels) && Denotes(s, pixels)
    ensures r == s
  {
    Canonical(r, s);
  }

  lemma EmptyRegion(r: Region)
    requires NormalForm(r)
    ensures r == [] <==> Pixels(r) == iset{}
  {
    if r != [] {
      assert Point(r[0].x1, r[0].y1) in Pixels(r);
    }
  }

  function FromRect(rect: Rect): (r: Region)
    ensures Denotes(r, rect.Pixels())
  {
    if rect.IsEmpty() then
      NormalEmpty();
      []
    else
      SingleNormal(rect);
      [rect]
  }

  lemma SingleNormal(rect: Rect)
    requires !rect.IsEmpty()
    ensures Denotes([rect], rect.Pixels())
  {
    var rs := [rect];
    RowOutside(rs, rect.y1 - 1);
    RowMember(rs, rect.y1, Span(rect.x1, rect.x2));
    assert rs[0].y1 <= rect.y1 < rs[0].y2;
    forall p: Point ensures p in Pixels(rs) <==> p in rect.Pixels() {
      assert rs[0] == rect;
    }
    assert Pixels(rs) == rect.Pixels();
  }

  method UnionOf(a: Region, b: Region) returns (r: Region)
    requires NormalForm(a) && NormalForm(b)
    ensures Denotes(r, Pixels(a) + Pixels(b))
  {
    r := Apply(a, b, Union);
    hide NormalForm, Has;
  }

  method IntersectionOf(a: Region, b: Region) returns (r: Region)
    requires NormalForm(a) && NormalForm(b)
    ensures Denotes(r, Pixels(a) * Pixels(b))
  {
    r := Apply(a, b, Intersect);
    hide NormalForm, Has;
  }

  method DifferenceOf(a: Region, b: Region) returns (r: Region)
    requires NormalForm(a) && NormalForm(b)
    ensures Denotes(r, Pixels(a) - Pixels(b))
  {
    r := Apply(a, b, Subtract);
    hide NormalForm, Has;
  }

  method IntersectRect(a: Region, rect: Rect) returns (r: Region)
    requires NormalForm(a)
    ensures Denotes(r, Pixels(a) * rect.Pixels())
  {
    r := IntersectionOf(a, FromRect(rect));
  }

  /** Add a rectangle: an empty one changes nothing. */
  method Add(a: Region, rect: Rect) returns (r: Region)
    requires NormalForm(a)
    ensures Denotes(r, Pixels(a) + rect.Pixels())
  {
    if rect.IsEmpty() {
      r := a;
    } else {
      r := UnionOf(a, FromRect(rect));
    }
  }

  method Remove(a: Region, rect: Rect) returns (r: Region)
    requires NormalForm(a)
    ensures Denotes(r, Pixels(a) - rect.Pixels())
  {
    if rect.IsEmpty() || a == [] {
      r := a;
    } else {
      r := DifferenceOf(a, FromRect(rect));
    }
  }

  predicate IntersectsRect(a: Region, rect: Rect)
    ensures IntersectsRect(a, rect) <==> Pixels(a) * rect.Pixels() != iset{}
  {
    IntersectsMeaning(a, rect);
    exists i :: 0 <= i < |a| && a[i].Intersects(rect)
  }

  lemma IntersectsMeaning(a: Region, rect: Rect)
    ensures (exists i :: 0 <= i < |a| && a[i].Intersects(rect)) <==> Pixels(a) * rect.Pixels() != iset{}
  {
    if i :| 0 <= i < |a| && a[i].Intersects(rect) {
      var x, y :| a[i].Has(x, y) && rect.Has(x, y);
      assert Point(x, y) in Pixels(a) * rect.Pixels();
    }
    if p :| p in Pixels(a) * rect.Pixels() {
      var i :| 0 <= i < |a| && a[i].Has(p.x, p.y);
      assert a[i].Intersects(rect);
    }
  }

  /** One rectangle at a time; the list may hold any rectangles in any order. */
  method FromRects(rects: seq<Rect>) returns (r: Region)
    ensures Denotes(r, Pixels(rects))
  {
    NormalEmpty();
    r := [];
    for i := 0 to |rects|
      invariant Denotes(r, Pixels(rects[..i]))
    {
      r := Add(r, rects[i]);
      PixelsSnoc(rects, i);
    }
    assert rects[..|rects|] == rects;
  }

  lemma PixelsSnoc(rects: seq<Rect>, i: nat)
    requires i < |rects|
    ensures Pixels(rects[..i + 1]) == Pixels(rects[..i]) + rects[i].Pixels()
  {
    var s, t := rects[..i], rects[..i + 1];
    forall p: Point ensures p in Pixels(t) <==> p in Pixels(s) || p in rects[i].Pixels() {
      if p in Pixels(s) {
        var k :| 0 <= k < |s| && s[k].Has(p.x, p.y);
        assert t[k] == s[k];
      }
      assert t[i] == rects[i];
    }
  }

  /** The rectangle around all of them: it contains each and is inside any that does. */
  function Bounds(rs: seq<Rect>): (r: Rect)
    ensures forall i :: 0 <= i < |rs| ==> r.Contains(rs[i])
    ensures forall big: Rect :: (forall i :: 0 <= i < |rs| ==> big.Contains(rs[i])) ==> big.Contains(r)
  {
    if rs == [] then EMPTY
    else
      var n := |rs| - 1;
      assert forall i :: 0 <= i < n ==> rs[..n][i] == rs[i];
      Bounds(rs[..n]).UnionBounds(rs[n])
  }

  // ---- From rows ----

  datatype RowOfSpans = RowOfSpans(y: int, spans: seq<Span>)

  /** What the caller promises: rows in increasing order, their spans separated. */
  ghost predicate GoodRows(rows: seq<RowOfSpans>) {
    && (forall i, j :: 0 <= i < j < |rows| ==> rows[i].y < rows[j].y)
    && (forall i :: 0 <= i < |rows| ==> Separated(rows[i].spans))
  }

  /** The pixels of the first n rows. */
  ghost predicate RowsHave(rows: seq<RowOfSpans>, n: nat, x: int, y: int)
    requires n <= |rows|
  {
    exists k :: 0 <= k < n && rows[k].y == y && Covers(rows[k].spans, x)
  }

  ghost function RowPixels(rows: seq<RowOfSpans>): iset<Point> {
    iset p: Point | RowsHave(rows, |rows|, p.x, p.y)
  }

  /** Whether a band's rectangles cover exactly these spans. */
  predicate SameSpans(rects: Region, spans: seq<Span>) {
    |rects| == |spans| && forall i :: 0 <= i < |rects| ==> Span(rects[i].x1, rects[i].x2) == spans[i]
  }

  method Stretch(out: Region, start: nat, y2: int) returns (out': Region)
    requires start <= |out|
    ensures |out'| == |out| && out'[..start] == out[..start]
    ensures forall i :: start <= i < |out| ==> out'[i] == out[i].(y2 := y2)
  {
    out' := out;
    for i := start to |out|
      invariant |out'| == |out| && out'[..start] == out[..start]
      invariant forall k :: start <= k < i ==> out'[k] == out[k].(y2 := y2)
      invariant forall k :: i <= k < |out| ==> out'[k] == out[k]
    {
      out' := out'[i := out[i].(y2 := y2)];
    }
  }

  /** The output holds the finished rectangles and, from band.0 on, the open band. */
  ghost predicate Tail(out: Region, band: Option<(nat, int)>, closed: Region, open: Option<Band>) {
    && out == Built(closed, open)
    && (band.Some? <==> open.Some?)
    && (band.Some? ==> band.value == (|closed|, open.value.y2))
  }

  /** One row joins the output: it stretches the band above it, or starts another. */
  method AddRow(out: Region, band: Option<(nat, int)>, y: int, spans: seq<Span>,
                ghost closed: Region, ghost open: Option<Band>)
    returns (out': Region, band': Option<(nat, int)>)
    requires Tail(out, band, closed, open) && spans != []
    ensures var (closed', open') := Join(closed, open, Band(y, y + 1, spans));
            Tail(out', band', closed', open')
  {
    if band.Some? && band.value.1 == y && SameSpans(out[band.value.0..], spans) {
      assert open.value.spans == spans by {
        assert out[band.value.0..] == BandRects(open.value);
      }
      out' := Stretch(out, band.value.0, y + 1);
      band' := Some((band.value.0, y + 1));
      assert out' == closed + BandRects(open.value.(y2 := y + 1));
    } else {
      if open.Some? && open.value.spans == spans {
        assert out[|closed|..] == BandRects(open.value);
      }
      out' := out;
      for i := 0 to |spans|
        invariant out' == out + BandRects(Band(y, y + 1, spans))[..i]
      {
        out' := out' + [Rect(spans[i].x1, y, spans[i].x2, y + 1)];
      }
      band' := Some((|out|, y + 1));
    }
  }

  lemma BuildingLater(out: Region, open: Option<Band>, top: int, later: int)
    requires Building(out, open, top) && top <= later
    ensures Building(out, open, later)
  {
  }

  lemma RowStep(rows: seq<RowOfSpans>, k: nat, out: Region, out': Region)
    requires GoodRows(rows) && k < |rows|
    requires forall x, y :: Has(out, x, y) <==> RowsHave(rows, k, x, y)
    requires forall y :: Row(out', y) == if y == rows[k].y && rows[k].spans != [] then rows[k].spans else Row(out, y)
    ensures forall x, y :: Has(out', x, y) <==> RowsHave(rows, k + 1, x, y)
  {
    hide Row;
    forall x, y ensures Has(out', x, y) <==> RowsHave(rows, k + 1, x, y) {
      RowCovers(out, y, x);
      RowCovers(out', y, x);
      RowsHaveNext(rows, k, x, y);
    }
  }

  lemma RowsHaveNext(rows: seq<RowOfSpans>, k: nat, x: int, y: int)
    requires GoodRows(rows) && k < |rows|
    ensures RowsHave(rows, k + 1, x, y) <==> RowsHave(rows, k, x, y) || (rows[k].y == y && Covers(rows[k].spans, x))
    ensures y == rows[k].y ==> !RowsHave(rows, k, x, y)
  {
  }

  /** One pass over the rows. The band being built is the tail of the output;
      a row that carries it on stretches it in place. */
  method FromRows(rows: seq<RowOfSpans>) returns (out: Region)
    requires GoodRows(rows)
    ensures Denotes(out, RowPixels(rows))
  {
    hide Row, NormalForm, Has, RowsHave;
    out := [];
    var band: Option<(nat, int)> := None;
    ghost var closed: Region, open: Option<Band> := [], None;
    ghost var top := if rows == [] then 0 else rows[0].y;
    RowsStart(rows, top);
    for k := 0 to |rows|
      invariant Tail(out, band, closed, open)
      invariant Building(closed, open, top)
      invariant forall j :: k <= j < |rows| ==> top <= rows[j].y
      invariant forall x, y :: Has(out, x, y) <==> RowsHave(rows, k, x, y)
    {
      var y, spans := rows[k].y, rows[k].spans;
      ghost var out0 := out;
      if spans != [] {
        BuildingLater(closed, open, top, y);
        JoinBuilds(closed, open, Band(y, y + 1, spans));
        out, band := AddRow(out, band, y, spans, closed, open);
        var joined := Join(closed, open, Band(y, y + 1, spans));
        closed, open, top := joined.0, joined.1, y + 1;
      }
      RowStep(rows, k, out0, out);
    }
    if open.Some? {
      NormalAppend(closed, open.value);
    }
  }

  lemma RowsStart(rows: seq<RowOfSpans>, top: int)
    ensures Building([], None, top)
    ensures forall x, y :: Has([], x, y) <==> RowsHave(rows, 0, x, y)
  {
  }

  // ---- What canonicity gives ----

  /** Union is structurally commutative and associative: the same lists, not
      only the same pixels. */
  lemma UnionLaws(a: Region, b: Region, c: Region, ab: Region, ba: Region, bc: Region, left: Region, right: Region)
    requires Denotes(ab, Pixels(a) + Pixels(b)) && Denotes(ba, Pixels(b) + Pixels(a))
    requires Denotes(bc, Pixels(b) + Pixels(c))
    requires Denotes(left, Pixels(ab) + Pixels(c)) && Denotes(right, Pixels(a) + Pixels(bc))
    ensures ab == ba && left == right
  {
    hide NormalForm, Pixels;
    DenotesUnique(ab, ba, Pixels(a) + Pixels(b));
    UnionAssociates(Pixels(a), Pixels(b), Pixels(c));
    DenotesUnique(left, right, Pixels(a) + Pixels(bc));
  }

  lemma UnionAssociates(s: iset<Point>, t: iset<Point>, u: iset<Point>)
    ensures (s + t) + u == s + (t + u)
  {
  }

  lemma UnionMinus(s: iset<Point>, t: iset<Point>)
    requires s * t == iset{}
    ensures (s + t) - t == s
  {
    forall p ensures p in (s + t) - t <==> p in s {
      assert p !in s * t;
    }
  }

  /** Adding a rectangle and taking it away again leaves the region it left untouched. */
  lemma AddThenRemove(a: Region, rect: Rect, more: Region, back: Region)
    requires NormalForm(a) && Pixels(a) * rect.Pixels() == iset{}
    requires Denotes(more, Pixels(a) + rect.Pixels())
    requires Denotes(back, Pixels(more) - rect.Pixels())
    ensures back == a
  {
    hide NormalForm, Pixels;
    UnionMinus(Pixels(a), rect.Pixels());
    DenotesUnique(back, a, Pixels(a));
  }

  /** The order, and the number of times, rectangles are added does not matter. */
  lemma FromRectsOrder(p: seq<Rect>, q: seq<Rect>, r: Region, s: Region)
    requires forall t :: t in p <==> t in q
    requires Denotes(r, Pixels(p)) && Denotes(s, Pixels(q))
    ensures r == s
  {
    forall z: Point ensures z in Pixels(p) <==> z in Pixels(q) {
      SamePixel(p, q, z);
      SamePixel(q, p, z);
    }
    DenotesUnique(r, s, Pixels(p));
  }

  lemma SamePixel(p: seq<Rect>, q: seq<Rect>, z: Point)
    requires forall t :: t in p ==> t in q
    ensures z in Pixels(p) ==> z in Pixels(q)
  {
    if z in Pixels(p) {
      var i :| 0 <= i < |p| && p[i].Has(z.x, z.y);
      assert p[i] in q;
      var j :| 0 <= j < |q| && q[j] == p[i];
    }
  }

  /** Every span of every row as a rectangle one row high. */
  function RowRects(rows: seq<RowOfSpans>): seq<Rect> {
    if rows == [] then []
    else RowRects(rows[..|rows| - 1]) + BandRects(Band(rows[|rows| - 1].y, rows[|rows| - 1].y + 1, rows[|rows| - 1].spans))
  }

  lemma {:induction false} RowRectsHave(rows: seq<RowOfSpans>, x: int, y: int)
    ensures Has(RowRects(rows), x, y) <==> RowsHave(rows, |rows|, x, y)
  {
    if rows != [] {
      var n := |rows| - 1;
      RowRectsHave(rows[..n], x, y);
      HasConcat(RowRects(rows[..n]), BandRects(Band(rows[n].y, rows[n].y + 1, rows[n].spans)), x, y);
      BandHas(Band(rows[n].y, rows[n].y + 1, rows[n].spans), x, y);
      RowsHaveLast(rows, x, y);
    }
  }

  lemma RowsHaveLast(rows: seq<RowOfSpans>, x: int, y: int)
    requires rows != []
    ensures var n := |rows| - 1;
            RowsHave(rows, |rows|, x, y) <==>
            RowsHave(rows[..n], n, x, y) || (rows[n].y == y && Covers(rows[n].spans, x))
  {
    var n := |rows| - 1;
    assert forall k :: 0 <= k < n ==> rows[..n][k] == rows[k];
    if RowsHave(rows[..n], n, x, y) {
      var k :| 0 <= k < n && rows[..n][k].y == y && Covers(rows[..n][k].spans, x);
      assert rows[k].y == y && Covers(rows[k].spans, x);
    }
  }

  lemma HasConcat(s: Region, t: Region, x: int, y: int)
    ensures Has(s + t, x, y) <==> Has(s, x, y) || Has(t, x, y)
  {
    if Has(s, x, y) {
      var i :| 0 <= i < |s| && s[i].Has(x, y);
      assert (s + t)[i] == s[i];
    }
    if Has(t, x, y) {
      var i :| 0 <= i < |t| && t[i].Has(x, y);
      assert (s + t)[|s| + i] == t[i];
    }
  }

  lemma BandHas(b: Band, x: int, y: int)
    ensures Has(BandRects(b), x, y) <==> b.y1 <= y < b.y2 && Covers(b.spans, x)
  {
    RowOfBand(b, y);
    RowCovers(BandRects(b), y, x);
  }

  /** The one-pass construction gives the list that adding rectangle by rectangle gives. */
  lemma FromRowsIsFromRects(rows: seq<RowOfSpans>, onePass: Region, byRects: Region)
    requires Denotes(onePass, RowPixels(rows))
    requires Denotes(byRects, Pixels(RowRects(rows)))
    ensures onePass == byRects
  {
    forall p: Point ensures p in Pixels(RowRects(rows)) <==> p in RowPixels(rows) {
      RowRectsHave(rows, p.x, p.y);
    }
    DenotesUnique(onePass, byRects, RowPixels(rows));
  }

  // ---- The smallest list ----

  /** Left edge and top: no two rectangles of a banded list share them. */
  function Corners(rs: Region): set<(int, int)> { set i | 0 <= i < |rs| :: (rs[i].x1, rs[i].y1) }

  lemma {:induction false} CornersCount(rs: Region)
    ensures |Corners(rs)| <= |rs|
    ensures Banded(rs) ==> |Corners(rs)| == |rs|
  {
    if rs != [] {
      var n := |rs| - 1;
      var init, corner := rs[..n], (rs[n].x1, rs[n].y1);
      CornersCount(init);
      LastCorner(rs);
      hide Corners, Banded;
      assert |Corners(init) + {corner}| <= |Corners(init)| + 1;
    }
  }

  lemma LastCorner(rs: Region)
    requires rs != []
    ensures var n := |rs| - 1;
            && Corners(rs) == Corners(rs[..n]) + {(rs[n].x1, rs[n].y1)}
            && (Banded(rs) ==> Banded(rs[..n]) && (rs[n].x1, rs[n].y1) !in Corners(rs[..n]))
  {
    var n := |rs| - 1;
    assert forall i :: 0 <= i < n ==> rs[..n][i] == rs[i];
    if Banded(rs) {
      forall i | 0 <= i < n ensures (rs[i].x1, rs[i].y1) != (rs[n].x1, rs[n].y1) {
        Ordered(rs, i, n);
      }
    }
  }

  lemma CornerKept(a: Region, b: Region, i: nat)
    requires NormalForm(a) && Banded(b) && i < |a|
    requires forall y :: Row(a, y) == Row(b, y)
    ensures (a[i].x1, a[i].y1) in Corners(b)
  {
    hide Row, RowChanges;
    RowStartsAt(a, b, i);
    BandCorner(b, Span(a[i].x1, a[i].x2), a[i].y1);
  }

  lemma RowStartsAt(a: Region, b: Region, i: nat)
    requires NormalForm(a) && i < |a| && forall y :: Row(a, y) == Row(b, y)
    ensures Span(a[i].x1, a[i].x2) in Row(b, a[i].y1) && RowChanges(b, a[i].y1)
  {
    hide Row;
    var r := a[i];
    RowMember(a, r.y1, Span(r.x1, r.x2));
    assert RowChanges(a, r.y1);
  }

  /** A span of a row that is not the row above starts a rectangle there. */
  lemma BandCorner(b: Region, sp: Span, y: int)
    requires Banded(b) && sp in Row(b, y) && RowChanges(b, y)
    ensures (sp.x1, y) in Corners(b)
  {
    hide Row, RowChanges, Banded;
    RowMember(b, y, sp);
    var j :| 0 <= j < |b| && b[j].y1 <= y < b[j].y2 && Span(b[j].x1, b[j].x2) == sp;
    BandKeepsRow(b, j, y);
  }

  /** The normal form is the shortest banded list for its shape. */
  lemma NormalIsShortest(a: Region, b: Region)
    requires NormalForm(a) && Banded(b) && Pixels(a) == Pixels(b)
    ensures |a| <= |b|
  {
    SameRows(a, b);
    forall c | c in Corners(a) ensures c in Corners(b) {
      var i :| 0 <= i < |a| && (a[i].x1, a[i].y1) == c;
      CornerKept(a, b, i);
    }
    CornersCount(a);
    CornersCount(b);
    SubsetSize(Corners(a), Corners(b));
  }

  lemma {:induction false} SubsetSize<T>(s: set<T>, t: set<T>)
    requires s <= t
    ensures |s| <= |t|
  {
    assert t == s + (t - s);
  }
}
