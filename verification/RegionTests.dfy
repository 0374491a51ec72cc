/** The conditions the region crate's own tests put on a region, and exactly how
    far they reach: what they leave out of the banded form, and that everything
    the operations build meets them. */
module RegionTests {
  import opened Geometry
  import opened Spans
  import opened Regions
  import opened RegionOps
  import opened PixelSets

  datatype TestBand = TestBand(y1: int, y2: int, spans: seq<Span>)

  /** One more rectangle: it goes with the last band if it has that band's top. */
  function PutRect(bands: seq<TestBand>, r: Rect): seq<TestBand> {
    var n := |bands|;
    if n > 0 && bands[n - 1].y1 == r.y1 then bands[n - 1 := bands[n - 1].(spans := bands[n - 1].spans + [Span(r.x1, r.x2)])]
    else bands + [TestBand(r.y1, r.y2, [Span(r.x1, r.x2)])]
  }

  /** Rectangles with one top, put together. */
  function BandsFrom(rs: Region, bands: seq<TestBand>): seq<TestBand> {
    if rs == [] then bands else BandsFrom(rs[1..], PutRect(bands, rs[0]))
  }

  predicate Sorted(p: Rect, q: Rect) {
    && (p.y1 < q.y1 || (p.y1 == q.y1 && p.x1 < q.x1))
    && (p.y1 == q.y1 ==> p.y2 == q.y2 && q.x1 > p.x2)
  }

  ghost predicate NoneEmpty(rs: Region) { forall i :: 0 <= i < |rs| ==> !rs[i].IsEmpty() }

  ghost predicate AllSorted(rs: Region) { forall i :: 0 < i < |rs| ==> Sorted(rs[i - 1], rs[i]) }

  ghost predicate NoOverlap(rs: Region) { forall i, j :: 0 <= i < j < |rs| ==> !rs[i].Intersects(rs[j]) }

  ghost predicate AllMerged(bands: seq<TestBand>) {
    forall i :: 0 < i < |bands| && bands[i - 1].y2 == bands[i].y1 ==> bands[i - 1].spans != bands[i].spans
  }

  /** What the test helper asserts. */
  ghost predicate Checked(rs: Region) {
    NoneEmpty(rs) && AllSorted(rs) && NoOverlap(rs) && AllMerged(BandsFrom(rs, []))
  }

  /** What it does not: a band starts only where the one before it has ended. */
  ghost predicate Stacked(rs: Region) {
    forall i, j :: 0 <= i < j < |rs| ==> rs[i].y1 == rs[j].y1 || rs[i].y2 <= rs[j].y1
  }

  // ---- Sorted and stacked is banded ----

  lemma SortedPair(p: Rect, q: Rect)
    requires !p.IsEmpty() && !q.IsEmpty()
    ensures Before(p, q) <==> Sorted(p, q) && (p.y1 == q.y1 || p.y2 <= q.y1)
    ensures Before(p, q) ==> !p.Intersects(q)
  {
  }

  lemma {:induction false} SortedBefore(rs: Region, i: nat, j: nat)
    requires NoneEmpty(rs) && AllSorted(rs) && Stacked(rs) && i < j < |rs|
    ensures Before(rs[i], rs[j])
    decreases j
  {
    SortedPair(rs[j - 1], rs[j]);
    if i < j - 1 {
      SortedBefore(rs, i, j - 1);
    }
  }

  lemma BandedIff(rs: Region)
    ensures Banded(rs) <==> NoneEmpty(rs) && AllSorted(rs) && Stacked(rs)
    ensures Banded(rs) ==> NoOverlap(rs)
  {
    if Banded(rs) {
      forall i, j | 0 <= i < j < |rs|
        ensures Sorted(rs[i], rs[j]) && (rs[i].y1 == rs[j].y1 || rs[i].y2 <= rs[j].y1) && !rs[i].Intersects(rs[j])
      {
        assert Before(rs[i], rs[j]);
        SortedPair(rs[i], rs[j]);
      }
    }
    if NoneEmpty(rs) && AllSorted(rs) && Stacked(rs) {
      forall i, j | 0 <= i < j < |rs| ensures Before(rs[i], rs[j]) {
        SortedBefore(rs, i, j);
      }
    }
  }

  // ---- The test's bands are the region's rows ----

  /** Some rectangle of the list has this top and bottom. */
  ghost predicate Spanned(rs: Region, y1: int, y2: int) { exists i :: 0 <= i < |rs| && rs[i].y1 == y1 && rs[i].y2 == y2 }

  ghost predicate IsBandOf(rs: Region, b: TestBand) {
    b.y1 < b.y2 && b.spans == Row(rs, b.y1) && Spanned(rs, b.y1, b.y2)
  }

  ghost predicate Listed(bands: seq<TestBand>, r: Rect) { exists k :: 0 <= k < |bands| && bands[k].y1 == r.y1 && bands[k].y2 == r.y2 }

  /** Bands one below another, one for every top, each with its row's spans. */
  ghost predicate BandsOf(rs: Region, bands: seq<TestBand>) {
    && (forall k :: 0 <= k < |bands| ==> IsBandOf(rs, bands[k]))
    && (forall i :: 0 <= i < |rs| ==> Listed(bands, rs[i]))
    && (forall k, m :: 0 <= k < m < |bands| ==> bands[k].y2 <= bands[m].y1)
  }

  /** The next rectangle starts below every band, or belongs to the last. */
  lemma NextRect(done: Region, bands: seq<TestBand>, r: Rect, k: nat)
    requires Banded(done + [r]) && BandsOf(done, bands) && k < |bands|
    ensures bands[k].y2 <= r.y1 || (k == |bands| - 1 && bands[k].y1 == r.y1 && bands[k].y2 == r.y2)
  {
    hide Row;
    var n := |bands| - 1;
    assert IsBandOf(done, bands[k]) && IsBandOf(done, bands[n]);
    var i :| 0 <= i < |done| && done[i].y1 == bands[k].y1 && done[i].y2 == bands[k].y2;
    var j :| 0 <= j < |done| && done[j].y1 == bands[n].y1 && done[j].y2 == bands[n].y2;
    var all := done + [r];
    assert Before(all[i], all[|done|]) && Before(all[j], all[|done|]);
  }

  /** Below every band there is no row yet. */
  lemma NoRowYet(done: Region, bands: seq<TestBand>, y: int)
    requires BandsOf(done, bands) && forall k :: 0 <= k < |bands| ==> bands[k].y2 <= y
    ensures Row(done, y) == []
  {
    hide Row;
    forall i | 0 <= i < |done| ensures !(done[i].y1 <= y < done[i].y2) {
      assert Listed(bands, done[i]);
    }
    RowOutside(done, y);
  }

  lemma RowSnoc(done: Region, r: Rect, y: int)
    ensures Row(done + [r], y) == if r.y1 <= y < r.y2 then Row(done, y) + [Span(r.x1, r.x2)] else Row(done, y)
  {
    RowConcat(done, [r], y);
    assert Row([r], y) == (if r.y1 <= y < r.y2 then [Span(r.x1, r.x2)] else []) + Row([r][1..], y);
    assert Row(done, y) + [] == Row(done, y);
  }

  lemma StillSpanned(done: Region, r: Rect, y1: int, y2: int)
    ensures Spanned(done, y1, y2) ==> Spanned(done + [r], y1, y2)
    ensures Spanned(done + [r], r.y1, r.y2)
  {
    if Spanned(done, y1, y2) {
      var i :| 0 <= i < |done| && done[i].y1 == y1 && done[i].y2 == y2;
      assert (done + [r])[i] == done[i];
    }
    assert (done + [r])[|done|] == r;
  }

  lemma LastNotEmpty(done: Region, r: Rect)
    requires Banded(done + [r])
    ensures !r.IsEmpty()
  {
    assert (done + [r])[|done|] == r;
  }

  lemma PutKeeps(done: Region, bands: seq<TestBand>, r: Rect)
    requires Banded(done + [r]) && BandsOf(done, bands)
    ensures BandsOf(done + [r], PutRect(bands, r))
  {
    hide Row, Spanned, Banded;
    var after, n := PutRect(bands, r), |bands|;
    LastNotEmpty(done, r);
    forall k | 0 <= k < n ensures bands[k].y2 <= r.y1 || (k == n - 1 && bands[k].y1 == r.y1 && bands[k].y2 == r.y2) {
      NextRect(done, bands, r, k);
    }
    forall k | 0 <= k < |after| ensures IsBandOf(done + [r], after[k]) {
      RowSnoc(done, r, after[k].y1);
      StillSpanned(done, r, after[k].y1, after[k].y2);
      if k < n {
        assert IsBandOf(done, bands[k]);
      } else {
        NoRowYet(done, bands, r.y1);
      }
    }
    forall i | 0 <= i < |done + [r]| ensures Listed(after, (done + [r])[i]) {
      if i < |done| {
        assert Listed(bands, done[i]);
        var k :| 0 <= k < |bands| && bands[k].y1 == done[i].y1 && bands[k].y2 == done[i].y2;
        assert after[k].y1 == bands[k].y1 && after[k].y2 == bands[k].y2;
      } else {
        assert after[|after| - 1].y1 == r.y1 && after[|after| - 1].y2 == r.y2;
      }
    }
  }

  lemma {:induction false} BandsKeep(done: Region, rest: Region, bands: seq<TestBand>)
    requires Banded(done + rest) && BandsOf(done, bands)
    ensures BandsOf(done + rest, BandsFrom(rest, bands))
    decreases |rest|
  {
    hide BandsOf, PutRect;
    if rest == [] {
      assert done + rest == done;
    } else {
      var all, more := done + rest, done + [rest[0]];
      assert Banded(more) by {
        assert forall i :: 0 <= i < |more| ==> more[i] == all[i];
      }
      assert more + rest[1..] == all;
      PutKeeps(done, bands, rest[0]);
      BandsKeep(more, rest[1..], PutRect(bands, rest[0]));
    }
  }

  lemma TestBands(rs: Region)
    requires Banded(rs)
    ensures BandsOf(rs, BandsFrom(rs, []))
  {
    assert [] + rs == rs;
    BandsKeep([], rs, []);
  }

  // ---- Merged bands ----

  /** A band's last row is its first. */
  lemma LastRowOfBand(rs: Region, b: TestBand)
    requires Banded(rs) && IsBandOf(rs, b)
    ensures Row(rs, b.y2 - 1) == b.spans
  {
    hide Row;
    var i :| 0 <= i < |rs| && rs[i].y1 == b.y1 && rs[i].y2 == b.y2;
    BandRows(rs, i, b.y1, b.y2 - 1);
  }

  /** Where two bands meet, the spans differ exactly if the row changes. */
  lemma MeetingBands(rs: Region, upper: TestBand, lower: TestBand)
    requires Banded(rs) && IsBandOf(rs, upper) && IsBandOf(rs, lower) && upper.y2 == lower.y1
    ensures RowChanges(rs, lower.y1) <==> upper.spans != lower.spans
  {
    LastRowOfBand(rs, upper);
  }

  /** A band below none that reaches it starts at a row that changes. */
  lemma LooseBand(rs: Region, bands: seq<TestBand>, m: nat)
    requires Banded(rs) && BandsOf(rs, bands) && m < |bands| && (m > 0 ==> bands[m - 1].y2 != bands[m].y1)
    ensures RowChanges(rs, bands[m].y1)
  {
    hide Row;
    var y := bands[m].y1;
    assert IsBandOf(rs, bands[m]);
    var i :| 0 <= i < |rs| && rs[i].y1 == y && rs[i].y2 == bands[m].y2;
    RowMember(rs, y, Span(rs[i].x1, rs[i].x2));
    forall j | 0 <= j < |rs| ensures !(rs[j].y1 <= y - 1 < rs[j].y2) {
      assert Listed(bands, rs[j]);
      var k :| 0 <= k < |bands| && bands[k].y1 == rs[j].y1 && bands[k].y2 == rs[j].y2;
      assert IsBandOf(rs, bands[k]);
      if k < m {
        assert k < m - 1 ==> bands[k].y2 <= bands[m - 1].y1 && IsBandOf(rs, bands[m - 1]);
        assert bands[m - 1].y2 <= bands[m].y1;
      } else {
        assert m < k ==> bands[m].y2 <= bands[k].y1;
      }
    }
    RowOutside(rs, y - 1);
  }

  lemma MergedIff(rs: Region, bands: seq<TestBand>)
    requires Banded(rs) && BandsOf(rs, bands)
    ensures Merged(rs) <==> AllMerged(bands)
  {
    hide RowChanges, IsBandOf;
    if Merged(rs) {
      forall m | 0 < m < |bands| && bands[m - 1].y2 == bands[m].y1 ensures bands[m - 1].spans != bands[m].spans {
        assert IsBandOf(rs, bands[m - 1]) && IsBandOf(rs, bands[m]);
        MeetingBands(rs, bands[m - 1], bands[m]);
        TopOfBand(rs, bands[m]);
      }
    }
    if AllMerged(bands) {
      forall i | 0 <= i < |rs| ensures RowChanges(rs, rs[i].y1) {
        assert Listed(bands, rs[i]);
        var m :| 0 <= m < |bands| && bands[m].y1 == rs[i].y1 && bands[m].y2 == rs[i].y2;
        if m > 0 && bands[m - 1].y2 == bands[m].y1 {
          assert IsBandOf(rs, bands[m - 1]) && IsBandOf(rs, bands[m]);
          MeetingBands(rs, bands[m - 1], bands[m]);
        } else {
          LooseBand(rs, bands, m);
        }
      }
    }
  }

  lemma TopOfBand(rs: Region, b: TestBand)
    requires Merged(rs) && IsBandOf(rs, b)
    ensures RowChanges(rs, b.y1)
  {
    var i :| 0 <= i < |rs| && rs[i].y1 == b.y1 && rs[i].y2 == b.y2;
    assert RowChanges(rs, rs[i].y1);
  }

  // ---- What the tests check, and what they miss ----

  /** A list is in normal form exactly when it passes the test helper and every
      band starts at or below the end of the one before. */
  lemma CheckedNormalIff(rs: Region)
    ensures NormalForm(rs) <==> Checked(rs) && Stacked(rs)
  {
    hide Banded, NoneEmpty, AllSorted, Stacked, NoOverlap, BandsOf, Merged, AllMerged;
    BandedIff(rs);
    if Banded(rs) {
      TestBands(rs);
      MergedIff(rs, BandsFrom(rs, []));
    }
  }

  const STAGGERED: Region := [Rect(0, 0, 10, 10), Rect(20, 5, 30, 15)]

  /** The second half is needed: these two bands overlap in height and still pass. */
  lemma CheckedIsNotNormal()
    ensures Checked(STAGGERED) && !Stacked(STAGGERED) && !NormalForm(STAGGERED)
  {
    var one := [TestBand(0, 10, [Span(0, 10)])];
    assert STAGGERED[1..] == [Rect(20, 5, 30, 15)];
    assert BandsFrom([Rect(20, 5, 30, 15)], one) == BandsFrom([], one + [TestBand(5, 15, [Span(20, 30)])]);
    assert !Before(STAGGERED[0], STAGGERED[1]);
  }

  // ---- The crate's tests, for every input ----

  /** Two regions and what an operation makes of them: all three pass, and the pixels are the operation's. */
  method OpsMatchOracle(p: seq<Rect>, q: seq<Rect>, kind: Op) returns (a: Region, b: Region, r: Region)
    ensures Checked(a) && Checked(b) && Checked(r)
    ensures forall x, y :: Has(r, x, y) <==> Combine(kind, Has(p, x, y), Has(q, x, y))
  {
    hide Has, NormalForm, Checked, Stacked;
    a := FromRects(p);
    b := FromRects(q);
    r := Apply(a, b, kind);
    forall x, y ensures Has(a, x, y) == Has(p, x, y) && Has(b, x, y) == Has(q, x, y) {
      assert Point(x, y) in Pixels(a) <==> Point(x, y) in Pixels(p);
      assert Point(x, y) in Pixels(b) <==> Point(x, y) in Pixels(q);
    }
    CheckedNormalIff(a);
    CheckedNormalIff(b);
    CheckedNormalIff(r);
  }

  /** The one-pass build and the build rectangle by rectangle: the same list, and it passes. */
  method FromRowsMatchesFromRects(rows: seq<RowOfSpans>) returns (byRows: Region, byRects: Region)
    requires GoodRows(rows)
    ensures byRows == byRects && Checked(byRows) && Pixels(byRows) == RowPixels(rows)
  {
    hide Checked, Stacked, NormalForm, GoodRows;
    byRows := FromRows(rows);
    byRects := FromRects(RowRects(rows));
    FromRowsIsFromRects(rows, byRows, byRects);
    CheckedNormalIff(byRows);
  }
}
