/** A set of pixels as y-x banded rectangles, and the operations on it. */
module Regions {
  import opened Geometry
  import opened Spans

  type Region = seq<Rect>

  /** Whether some rectangle of the list holds the pixel. */
  ghost predicate Has(rs: Region, x: int, y: int) {
    exists i :: 0 <= i < |rs| && rs[i].Has(x, y)
  }

  /** What a region means. */
  ghost function Pixels(rs: Region): iset<Point> { iset p: Point | Has(rs, p.x, p.y) }

  /** p comes before q: its band is above, or it is to the left, not touching, in the same band. */
  predicate Before(p: Rect, q: Rect) {
    p.y2 <= q.y1 || (p.y1 == q.y1 && p.y2 == q.y2 && p.x2 < q.x1)
  }

  /** Non-empty rectangles in band order, every band with one top and one bottom. */
  ghost predicate Banded(rs: Region) {
    && (forall i :: 0 <= i < |rs| ==> !rs[i].IsEmpty())
    && (forall i, j :: 0 <= i < j < |rs| ==> Before(rs[i], rs[j]))
  }

  /** The spans covering one row, in list order. */
  function Row(rs: Region, y: int): seq<Span> {
    if rs == [] then []
    else (if rs[0].y1 <= y < rs[0].y2 then [Span(rs[0].x1, rs[0].x2)] else []) + Row(rs[1..], y)
  }

  /** Where a band starts, the row above is different: identical neighbours were merged. */
  ghost predicate Merged(rs: Region) {
    forall i :: 0 <= i < |rs| ==> RowChanges(rs, rs[i].y1)
  }

  predicate RowChanges(rs: Region, y: int) { Row(rs, y - 1) != Row(rs, y) }

  /** The banded normal form every region is kept in. */
  ghost predicate NormalForm(rs: Region) { Banded(rs) && Merged(rs) }

  // ---- Rows of a list ----

  lemma {:induction false} RowConcat(s: Region, t: Region, y: int)
    ensures Row(s + t, y) == Row(s, y) + Row(t, y)
  {
    if s == [] {
      assert s + t == t;
    } else {
      assert (s + t)[1..] == s[1..] + t;
      RowConcat(s[1..], t, y);
    }
  }

  /** A span is in a row exactly when a rectangle with those edges covers the row. */
  lemma {:induction false} RowMember(rs: Region, y: int, sp: Span)
    ensures sp in Row(rs, y) <==>
      exists i :: 0 <= i < |rs| && rs[i].y1 <= y < rs[i].y2 && Span(rs[i].x1, rs[i].x2) == sp
  {
    if rs != [] {
      RowMember(rs[1..], y, sp);
      assert forall i :: 0 < i < |rs| ==> rs[i] == rs[1..][i - 1];
      if sp in Row(rs[1..], y) {
        var i :| 0 <= i < |rs| - 1 && rs[1..][i].y1 <= y < rs[1..][i].y2 && Span(rs[1..][i].x1, rs[1..][i].x2) == sp;
        assert rs[i + 1] == rs[1..][i];
      }
    }
  }

  lemma RowCovers(rs: Region, y: int, x: int)
    ensures Covers(Row(rs, y), x) <==> Has(rs, x, y)
  {
    if Covers(Row(rs, y), x) {
      var k :| 0 <= k < |Row(rs, y)| && Row(rs, y)[k].x1 <= x < Row(rs, y)[k].x2;
      RowMember(rs, y, Row(rs, y)[k]);
    }
    if Has(rs, x, y) {
      var i :| 0 <= i < |rs| && rs[i].Has(x, y);
      RowMember(rs, y, Span(rs[i].x1, rs[i].x2));
    }
  }

  lemma {:induction false} RowSeparated(rs: Region, y: int)
    requires Banded(rs)
    ensures Separated(Row(rs, y))
  {
    if rs != [] {
      RowSeparated(rs[1..], y);
      if rs[0].y1 <= y < rs[0].y2 {
        var rest := Row(rs[1..], y);
        forall k | 0 <= k < |rest| ensures rs[0].x2 < rest[k].x1 {
          RowMember(rs[1..], y, rest[k]);
        }
      }
    }
  }

  /** Rows crossed by the same rectangles are equal. */
  lemma {:induction false} RowSame(rs: Region, y: int, z: int)
    requires forall i :: 0 <= i < |rs| ==> (rs[i].y1 <= y < rs[i].y2 <==> rs[i].y1 <= z < rs[i].y2)
    ensures Row(rs, y) == Row(rs, z)
  {
    if rs != [] {
      RowSame(rs[1..], y, z);
    }
  }

  lemma {:induction false} RowOutside(rs: Region, y: int)
    requires forall i :: 0 <= i < |rs| ==> !(rs[i].y1 <= y < rs[i].y2)
    ensures Row(rs, y) == []
  {
    if rs != [] {
      RowOutside(rs[1..], y);
    }
  }

  // ---- The normal form is canonical ----

  /** Every row of a band is the same row. */
  lemma BandRows(rs: Region, i: nat, y: int, z: int)
    requires Banded(rs) && i < |rs|
    requires rs[i].y1 <= y < rs[i].y2 && rs[i].y1 <= z < rs[i].y2
    ensures Row(rs, y) == Row(rs, z)
  {
    forall j | 0 <= j < |rs| ensures rs[j].y1 <= y < rs[j].y2 <==> rs[j].y1 <= z < rs[j].y2 {
      assert j < i ==> Before(rs[j], rs[i]);
      assert i < j ==> Before(rs[i], rs[j]);
    }
    RowSame(rs, y, z);
  }

  /** A rectangle of a normal form is determined by the rows: where its span
      appears, stays, and the row before and after differ. */
  ghost predicate IsBlock(rs: Region, r: Rect) {
    && !r.IsEmpty()
    && (forall y :: r.y1 <= y < r.y2 ==> InRun(rs, r, y))
    && RowChanges(rs, r.y1)
    && RowChanges(rs, r.y2)
  }

  predicate InRun(rs: Region, r: Rect, y: int) {
    Span(r.x1, r.x2) in Row(rs, y) && Row(rs, y) == Row(rs, r.y1)
  }

  lemma Ordered(rs: Region, i: nat, j: nat)
    requires Banded(rs) && i < |rs| && j < |rs|
    ensures i == j || (i < j && Before(rs[i], rs[j])) || (j < i && Before(rs[j], rs[i]))
  {
  }

  lemma BottomDiffers(rs: Region, i: nat)
    requires NormalForm(rs) && i < |rs|
    ensures RowChanges(rs, rs[i].y2)
  {
    hide Row;
    var r := rs[i];
    var sp := Span(r.x1, r.x2);
    RowMember(rs, r.y2 - 1, sp);
    RowMember(rs, r.y2, sp);
    if sp in Row(rs, r.y2) {
      var j :| 0 <= j < |rs| && rs[j].y1 <= r.y2 < rs[j].y2 && Span(rs[j].x1, rs[j].x2) == sp;
      Ordered(rs, i, j);
      assert rs[j].y1 == r.y2;
    }
  }

  lemma RectIsBlock(rs: Region, i: nat)
    requires NormalForm(rs) && i < |rs|
    ensures IsBlock(rs, rs[i])
  {
    hide Row;
    var r := rs[i];
    forall y | r.y1 <= y < r.y2 ensures InRun(rs, r, y) {
      RowMember(rs, y, Span(r.x1, r.x2));
      BandRows(rs, i, y, r.y1);
    }
    BottomDiffers(rs, i);
  }

  lemma BlockIsRect(rs: Region, r: Rect)
    requires NormalForm(rs) && IsBlock(rs, r)
    ensures r in rs
  {
    hide Row;
    assert InRun(rs, r, r.y1);
    RowMember(rs, r.y1, Span(r.x1, r.x2));
    var i :| 0 <= i < |rs| && rs[i].y1 <= r.y1 < rs[i].y2 && Span(rs[i].x1, rs[i].x2) == Span(r.x1, r.x2);
    BandKeepsRow(rs, i, r.y1);
    BandKeepsRow(rs, i, r.y2);
    BottomDiffers(rs, i);
    RunKeepsRow(rs, r, rs[i].y2);
    assert rs[i] == r;
  }

  /** Strictly inside a band no row changes. */
  lemma BandKeepsRow(rs: Region, i: nat, y: int)
    requires Banded(rs) && i < |rs|
    ensures rs[i].y1 < y < rs[i].y2 ==> !RowChanges(rs, y)
  {
    if rs[i].y1 < y < rs[i].y2 {
      BandRows(rs, i, y - 1, y);
    }
  }

  lemma RunKeepsRow(rs: Region, r: Rect, y: int)
    requires IsBlock(rs, r)
    ensures r.y1 < y < r.y2 ==> !RowChanges(rs, y)
  {
    if r.y1 < y < r.y2 {
      assert InRun(rs, r, y - 1) && InRun(rs, r, y);
    }
  }

  /** Lists in band order with the same rectangles are the same list. */
  lemma {:induction false} SameRects(a: Region, b: Region)
    requires Banded(a) && Banded(b)
    requires forall r :: r in a <==> r in b
    ensures a == b
  {
    if a == [] {
      HeadIn(b);
    } else {
      assert a[0] in b && b[0] in a;
      var k :| 0 <= k < |b| && b[k] == a[0];
      var m :| 0 <= m < |a| && a[m] == b[0];
      Ordered(b, 0, k);
      Ordered(a, 0, m);
      assert a[0] == b[0];
      assert a == [a[0]] + a[1..] && b == [b[0]] + b[1..];
      forall r ensures r in a[1..] <==> r in b[1..] {
        NotInTail(a, r);
        NotInTail(b, r);
      }
      SameRects(a[1..], b[1..]);
    }
  }

  lemma HeadIn(b: Region)
    ensures b != [] ==> b[0] in b
  {
  }

  lemma NotInTail(a: Region, r: Rect)
    requires Banded(a) && a != []
    ensures r in a[1..] <==> r in a && r != a[0]
  {
    if r in a[1..] {
      var j :| 0 <= j < |a| - 1 && a[1..][j] == r;
      assert Before(a[0], a[j + 1]);
    }
  }

  /** Two regions in normal form with the same pixels are the same rectangle list. */
  lemma Canonical(a: Region, b: Region)
    requires NormalForm(a) && NormalForm(b)
    requires Pixels(a) == Pixels(b)
    ensures a == b
  {
    SameRows(a, b);
    forall r ensures r in a <==> r in b {
      SharedRect(a, b, r);
      SharedRect(b, a, r);
    }
    SameRects(a, b);
  }

  /** Banded lists with the same pixels have the same rows. */
  lemma SameRows(a: Region, b: Region)
    requires Banded(a) && Banded(b) && Pixels(a) == Pixels(b)
    ensures forall y :: Row(a, y) == Row(b, y)
  {
    forall y ensures Row(a, y) == Row(b, y) {
      forall x ensures Covers(Row(a, y), x) <==> Covers(Row(b, y), x) {
        RowCovers(a, y, x);
        RowCovers(b, y, x);
        assert Point(x, y) in Pixels(a) <==> Point(x, y) in Pixels(b);
      }
      RowSeparated(a, y);
      RowSeparated(b, y);
      SpansCanonical(Row(a, y), Row(b, y));
    }
  }

  lemma SharedRect(a: Region, b: Region, r: Rect)
    requires NormalForm(a) && NormalForm(b)
    requires forall y :: Row(a, y) == Row(b, y)
    ensures r in a ==> r in b
  {
    hide Row;
    if r in a {
      var i :| 0 <= i < |a| && a[i] == r;
      RectIsBlock(a, i);
      forall y | r.y1 <= y < r.y2 ensures InRun(b, r, y) {
        assert InRun(a, r, y);
      }
      BlockIsRect(b, r);
    }
  }
}
