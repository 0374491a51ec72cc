/** Union, intersection and subtraction of regions, one walk over the bands
    for all three, and the one-pass construction from rows. */
module RegionOps {
  import opened Geometry
  import opened Spans
  import opened Regions

  datatype Op = Union | Intersect | Subtract

  /** The set operation on one pixel. */
  predicate Combine(kind: Op, inA: bool, inB: bool) {
    match kind
    case Union => inA || inB
    case Intersect => inA && inB
    case Subtract => inA && !inB
  }

  // ---- Building a region band by band ----

  datatype Band = Band(y1: int, y2: int, spans: seq<Span>)

  function BandRects(b: Band): Region {
    seq(|b.spans|, i requires 0 <= i < |b.spans| => Rect(b.spans[i].x1, b.y1, b.spans[i].x2, b.y2))
  }

  /** The finished rectangles and the band still open below them. */
  function Built(out: Region, open: Option<Band>): Region {
    if open.Some? then out + BandRects(open.value) else out
  }

  /** Everything so far ends at or above top, and the open band could be closed now. */
  ghost predicate Building(out: Region, open: Option<Band>, top: int) {
    && NormalForm(out)
    && (forall i :: 0 <= i < |out| ==> out[i].y2 < top)
    && (open.Some? ==> Fits(out, open.value) && open.value.y2 <= top)
  }

  /** A band that may follow these rectangles without touching an identical one. */
  ghost predicate Fits(out: Region, b: Band) {
    && b.y1 < b.y2 && b.spans != [] && Separated(b.spans)
    && (forall i :: 0 <= i < |out| ==> out[i].y2 <= b.y1)
    && Row(out, b.y1 - 1) != b.spans
  }

  lemma {:induction false} RowOfBand(b: Band, y: int)
    ensures Row(BandRects(b), y) == if b.y1 <= y < b.y2 then b.spans else []
    decreases |b.spans|
  {
    if b.spans != [] {
      var tail := Band(b.y1, b.y2, b.spans[1..]);
      assert BandRects(b)[1..] == BandRects(tail);
      RowOfBand(tail, y);
    }
  }

  lemma RowOfBuilt(out: Region, b: Band, y: int)
    ensures Row(out + BandRects(b), y) == if b.y1 <= y < b.y2 then Row(out, y) + b.spans else Row(out, y)
  {
    RowConcat(out, BandRects(b), y);
    RowOfBand(b, y);
    assert Row(out, y) + [] == Row(out, y);
  }

  lemma BandedAppend(out: Region, b: Band)
    requires Banded(out) && Fits(out, b)
    ensures Banded(out + BandRects(b))
  {
    var all := out + BandRects(b);
    forall i, j | 0 <= i < j < |all| ensures Before(all[i], all[j]) {
      if j < |out| {
        assert Before(out[i], out[j]);
      } else {
        assert all[j] == BandRects(b)[j - |out|];
      }
    }
  }

  lemma NormalAppend(out: Region, b: Band)
    requires NormalForm(out) && Fits(out, b)
    ensures NormalForm(out + BandRects(b))
  {
    hide Row, BandRects;
    var all := out + BandRects(b);
    BandedAppend(out, b);
    forall i | 0 <= i < |all| ensures RowChanges(all, all[i].y1) {
      var y := all[i].y1;
      RowOfBuilt(out, b, y - 1);
      RowOfBuilt(out, b, y);
      if i < |out| {
        assert RowChanges(out, out[i].y1);
      } else {
        TopOfBand(b, i - |out|);
        RowOutside(out, y);
      }
    }
  }

  lemma TopOfBand(b: Band, k: nat)
    requires k < |BandRects(b)|
    ensures BandRects(b)[k].y1 == b.y1
  {
  }

  method Flush(open: Option<Band>, out: Region) returns (out': Region)
    requires NormalForm(out) && (open.Some? ==> Fits(out, open.value))
    ensures out' == Built(out, open) && NormalForm(out')
  {
    out' := out;
    if open.Some? {
      NormalAppend(out, open.value);
      out' := out + BandRects(open.value);
    }
  }

  /** Row y once the band's spans are laid over it. */
  function RowWith(b: Band, row: seq<Span>, y: int): seq<Span> {
    if b.y1 <= y < b.y2 then b.spans else row
  }

  /** One band's spans join the list: an empty band closes the open one, a band
      that carries on the open one stretches it, any other starts anew. */
  function Join(out: Region, open: Option<Band>, b: Band): (Region, Option<Band>) {
    if b.spans == [] then (Built(out, open), None)
    else if open.Some? && open.value.y2 == b.y1 && open.value.spans == b.spans then
      (out, Some(open.value.(y2 := b.y2)))
    else (Built(out, open), Some(b))
  }

  /** No spans: the open band is closed. */
  lemma JoinCloses(out: Region, open: Option<Band>, b: Band)
    requires Building(out, open, b.y1) && b.y1 < b.y2 && b.spans == []
    ensures Building(Built(out, open), None, b.y2)
    ensures forall y :: Row(Built(out, open), y) == RowWith(b, Row(Built(out, open), y), y)
  {
    hide Row;
    forall y ensures Row(Built(out, open), y) == RowWith(b, Row(Built(out, open), y), y) {
      hide NormalForm, Fits;
      BuiltRows(out, open, b, y);
    }
    if open.Some? {
      NormalAppend(out, open.value);
    }
  }

  /** The same spans again: the open band grows. */
  lemma JoinStretches(out: Region, open: Option<Band>, b: Band)
    requires Building(out, open, b.y1) && b.y1 < b.y2
    requires open.Some? && open.value.y2 == b.y1 && open.value.spans == b.spans
    ensures var open' := Some(open.value.(y2 := b.y2));
            && Building(out, open', b.y2)
            && forall y :: Row(Built(out, open'), y) == RowWith(b, Row(Built(out, open), y), y)
  {
    hide Row;
    var open' := Some(open.value.(y2 := b.y2));
    forall y ensures Row(Built(out, open'), y) == RowWith(b, Row(Built(out, open), y), y) {
      hide NormalForm, Fits;
      BuiltRows(out, open, b, y);
    }
  }

  /** Other spans, or a gap above: a band of its own. */
  lemma JoinStarts(out: Region, open: Option<Band>, b: Band)
    requires Building(out, open, b.y1) && b.y1 < b.y2 && Separated(b.spans) && b.spans != []
    requires !(open.Some? && open.value.y2 == b.y1 && open.value.spans == b.spans)
    ensures Building(Built(out, open), Some(b), b.y2)
    ensures forall y :: Row(Built(Built(out, open), Some(b)), y) == RowWith(b, Row(Built(out, open), y), y)
  {
    hide Row;
    forall y ensures Row(Built(Built(out, open), Some(b)), y) == RowWith(b, Row(Built(out, open), y), y) {
      hide NormalForm, Fits;
      BuiltRows(out, open, b, y);
    }
    NewBandFits(out, open, b);
    hide NormalForm, Fits;
  }

  /** What is built so far, the open band closed, may be followed by another. */
  lemma NewBandFits(out: Region, open: Option<Band>, b: Band)
    requires Building(out, open, b.y1) && b.y1 < b.y2 && Separated(b.spans) && b.spans != []
    requires !(open.Some? && open.value.y2 == b.y1 && open.value.spans == b.spans)
    ensures NormalForm(Built(out, open)) && Fits(Built(out, open), b)
  {
    hide Row, Banded, Merged, BandRects;
    LastRow(out, open, b.y1);
    if open.Some? {
      NormalAppend(out, open.value);
      BottomOfBand(open.value);
    }
  }

  lemma BottomOfBand(b: Band)
    ensures forall k :: 0 <= k < |BandRects(b)| ==> BandRects(b)[k].y2 == b.y2
  {
  }

  lemma JoinBuilds(out: Region, open: Option<Band>, b: Band)
    requires Building(out, open, b.y1) && b.y1 < b.y2 && Separated(b.spans)
    ensures var (out', open') := Join(out, open, b);
            && Building(out', open', b.y2)
            && forall y :: Row(Built(out', open'), y) == RowWith(b, Row(Built(out, open), y), y)
  {
    hide Building, Built, Row, RowWith;
    if b.spans == [] {
      JoinCloses(out, open, b);
      assert Built(Built(out, open), None) == Built(out, open) by {
        NoneOpen(Built(out, open));
      }
    } else if open.Some? && open.value.y2 == b.y1 && open.value.spans == b.spans {
      JoinStretches(out, open, b);
    } else {
      JoinStarts(out, open, b);
    }
  }

  lemma NoneOpen(out: Region)
    ensures Built(out, None) == out
  {
  }

  method Extend(out: Region, open: Option<Band>, b: Band) returns (out': Region, open': Option<Band>)
    requires Building(out, open, b.y1) && b.y1 < b.y2 && Separated(b.spans)
    ensures (out', open') == Join(out, open, b)
  {
    if b.spans == [] {
      out' := Flush(open, out);
      open' := None;
    } else if open.Some? && open.value.y2 == b.y1 && open.value.spans == b.spans {
      out', open' := out, Some(open.value.(y2 := b.y2));
    } else {
      out' := Flush(open, out);
      open' := Some(b);
    }
  }

  /** Rows of the three outcomes of Extend, all at once. */
  lemma BuiltRows(out: Region, open: Option<Band>, b: Band, y: int)
    requires Building(out, open, b.y1) && b.y1 < b.y2
    ensures b.y1 <= y < b.y2 ==> Row(Built(out, open), y) == []
    ensures Row(Built(out, open) + BandRects(b), y) == RowWith(b, Row(Built(out, open), y), y)
    ensures open.Some? && open.value.y2 == b.y1 && open.value.spans == b.spans ==>
              Row(Built(out, Some(open.value.(y2 := b.y2))), y) == RowWith(b, Row(Built(out, open), y), y)
  {
    hide Row;
    RowOfBuilt(Built(out, open), b, y);
    if open.Some? {
      RowOfBuilt(out, open.value, y);
      RowOfBuilt(out, open.value.(y2 := b.y2), y);
    }
    if b.y1 <= y {
      RowOutside(out, y);
    }
  }

  /** The row just above top is the open band's, if it reaches that far, and empty otherwise. */
  lemma LastRow(out: Region, open: Option<Band>, top: int)
    requires Building(out, open, top)
    ensures Row(Built(out, open), top - 1) == if open.Some? && open.value.y2 == top then open.value.spans else []
  {
    hide Row;
    RowOutside(out, top - 1);
    if open.Some? {
      RowOfBuilt(out, open.value, top - 1);
    }
  }

  // ---- The band edges ----

  ghost predicate StrictlySorted(s: seq<int>) { forall i, j :: 0 <= i < j < |s| ==> s[i] < s[j] }

  /** Into a sorted list without repeats, where it belongs. */
  function InsertEdge(e: int, s: seq<int>): (r: seq<int>)
    requires StrictlySorted(s)
    ensures StrictlySorted(r)
    ensures forall v :: v in r <==> v == e || v in s
  {
    if s == [] || e < s[0] then [e] + s
    else if e == s[0] then s
    else
      var rest := InsertEdge(e, s[1..]);
      assert forall v :: v in s <==> v == s[0] || v in s[1..];
      assert forall i :: 0 <= i < |rest| ==> rest[i] in rest;
      [s[0]] + rest
  }

  /** Every top and bottom of the list, sorted, once each. */
  function EdgesOf(rs: Region): (r: seq<int>)
    ensures StrictlySorted(r)
    ensures forall i :: 0 <= i < |rs| ==> rs[i].y1 in r && rs[i].y2 in r
  {
    if rs == [] then []
    else InsertEdge(rs[0].y1, InsertEdge(rs[0].y2, EdgesOf(rs[1..])))
  }

  /** The spans of the rectangles that cover the whole band y1..y2. */
  function Covering(rs: Region, y1: int, y2: int): seq<Span> {
    if rs == [] then []
    else (if rs[0].y1 <= y1 && rs[0].y2 >= y2 then [Span(rs[0].x1, rs[0].x2)] else []) + Covering(rs[1..], y1, y2)
  }

  function BandSpans(rs: Region, y1: int, y2: int): seq<Span> { Sort(Covering(rs, y1, y2)) }

  /** No rectangle starts or ends inside the band. */
  ghost predicate Unbroken(rs: Region, y1: int, y2: int) {
    forall i :: 0 <= i < |rs| ==> !(y1 < rs[i].y1 < y2) && !(y1 < rs[i].y2 < y2)
  }

  lemma {:induction false} CoveringIsRow(rs: Region, y1: int, y2: int, y: int)
    requires Unbroken(rs, y1, y2) && y1 <= y < y2
    ensures Covering(rs, y1, y2) == Row(rs, y)
  {
    if rs != [] {
      CoveringIsRow(rs[1..], y1, y2, y);
    }
  }

  lemma BandSpansIsRow(rs: Region, y1: int, y2: int, y: int)
    requires Banded(rs) && Unbroken(rs, y1, y2) && y1 <= y < y2
    ensures BandSpans(rs, y1, y2) == Row(rs, y)
  {
    CoveringIsRow(rs, y1, y2, y);
    RowSeparated(rs, y);
    SortOfSeparated(Row(rs, y));
  }

  lemma UnbrokenBand(rs: Region, edges: seq<int>, k: nat)
    requires StrictlySorted(edges) && k + 1 < |edges|
    requires forall i :: 0 <= i < |rs| ==> rs[i].y1 in edges && rs[i].y2 in edges
    ensures Unbroken(rs, edges[k], edges[k + 1])
  {
    forall e | e in edges ensures !(edges[k] < e < edges[k + 1]) {
      var m :| 0 <= m < |edges| && edges[m] == e;
      assert m <= k || m >= k + 1;
    }
  }

  // ---- The operations ----

  method MergeSpans(sa: seq<Span>, sb: seq<Span>, kind: Op) returns (spans: seq<Span>)
    requires Separated(sa) && Separated(sb)
    ensures Separated(spans)
    ensures forall x :: Covers(spans, x) <==> Combine(kind, Covers(sa, x), Covers(sb, x))
  {
    match kind {
      case Union => spans := UnionSpans(sa, sb);
      case Intersect => spans := IntersectSpans(sa, sb);
      case Subtract => spans := SubtractSpans(sa, sb);
    }
  }

  /** The pixels of r are the set operation on the pixels of a and b, up to row top. */
  ghost predicate CombinesTo(r: Region, a: Region, b: Region, kind: Op, top: int) {
    forall x, y :: y < top ==> (Has(r, x, y) <==> Combine(kind, Has(a, x, y), Has(b, x, y)))
  }

  ghost predicate Combines(r: Region, a: Region, b: Region, kind: Op) {
    forall x, y :: Has(r, x, y) <==> Combine(kind, Has(a, x, y), Has(b, x, y))
  }

  /** Every edge of either side cuts the plane into bands; within a band the
      operation is one-dimensional; equal neighbouring bands are joined again. */
  method Apply(a: Region, b: Region, kind: Op) returns (r: Region)
    requires NormalForm(a) && NormalForm(b)
    ensures NormalForm(r)
    ensures Combines(r, a, b, kind)
  {
    hide Row;
    if kind.Union? && a == [] { return b; }
    if kind.Union? && b == [] { return a; }
    if kind.Intersect? && (a == [] || b == []) { NormalEmpty(); return []; }
    if kind.Subtract? && a == [] { NormalEmpty(); return []; }
    if kind.Subtract? && b == [] { return a; }

    r := Walk(a, b, kind, EdgesOf(a + b));
  }

  method Walk(a: Region, b: Region, kind: Op, edges: seq<int>) returns (r: Region)
    requires NormalForm(a) && NormalForm(b) && a + b != []
    requires edges == EdgesOf(a + b)
    ensures NormalForm(r)
    ensures Combines(r, a, b, kind)
  {
    hide Row, NormalForm, Combines, CombinesTo;
    WalkStart(a, b, kind, edges);
    var out: Region := [];
    var open: Option<Band> := None;
    for k := 0 to |edges| - 1
      invariant Building(out, open, edges[k])
      invariant CombinesTo(Built(out, open), a, b, kind, edges[k])
    {
      out, open := NextBand(a, b, kind, edges, k, out, open);
    }
    r := Flush(open, out);
    BelowAll(r, a, b, kind, edges);
  }

  lemma NormalEmpty()
    ensures NormalForm([])
  {
  }

  lemma EdgesCover(a: Region, b: Region, edges: seq<int>)
    requires a + b != [] && edges == EdgesOf(a + b)
    ensures |edges| > 0
    ensures forall i :: 0 <= i < |a| ==> a[i].y1 in edges && a[i].y2 in edges
    ensures forall i :: 0 <= i < |b| ==> b[i].y1 in edges && b[i].y2 in edges
  {
    hide EdgesOf, StrictlySorted;
    var all := a + b;
    assert all[0].y1 in edges;
    forall i | 0 <= i < |a| ensures a[i].y1 in edges && a[i].y2 in edges {
      assert a[i] == all[i];
    }
    forall i | 0 <= i < |b| ensures b[i].y1 in edges && b[i].y2 in edges {
      assert b[i] == all[|a| + i];
    }
  }

  lemma WalkStart(a: Region, b: Region, kind: Op, edges: seq<int>)
    requires NormalForm(a) && NormalForm(b) && a + b != [] && edges == EdgesOf(a + b)
    ensures |edges| > 0 && StrictlySorted(edges)
    ensures forall i :: 0 <= i < |a| ==> a[i].y1 in edges && a[i].y2 in edges
    ensures forall i :: 0 <= i < |b| ==> b[i].y1 in edges && b[i].y2 in edges
    ensures Building([], None, edges[0]) && CombinesTo([], a, b, kind, edges[0])
  {
    EdgesCover(a, b, edges);
    NormalEmpty();
    AboveAll(a, edges);
    AboveAll(b, edges);
  }

  lemma AboveAll(rs: Region, edges: seq<int>)
    requires StrictlySorted(edges) && |edges| > 0
    requires forall i :: 0 <= i < |rs| ==> rs[i].y1 in edges
    ensures forall x, y :: y < edges[0] ==> !Has(rs, x, y)
  {
    forall e | e in edges ensures edges[0] <= e {
      var m :| 0 <= m < |edges| && edges[m] == e;
    }
  }

  method NextBand(a: Region, b: Region, kind: Op, edges: seq<int>, k: nat, out: Region, open: Option<Band>)
    returns (out': Region, open': Option<Band>)
    requires NormalForm(a) && NormalForm(b)
    requires StrictlySorted(edges) && k + 1 < |edges|
    requires forall i :: 0 <= i < |a| ==> a[i].y1 in edges && a[i].y2 in edges
    requires forall i :: 0 <= i < |b| ==> b[i].y1 in edges && b[i].y2 in edges
    requires Building(out, open, edges[k])
    requires CombinesTo(Built(out, open), a, b, kind, edges[k])
    ensures Building(out', open', edges[k + 1])
    ensures CombinesTo(Built(out', open'), a, b, kind, edges[k + 1])
  {
    hide Row;
    var y1, y2 := edges[k], edges[k + 1];
    UnbrokenBand(a, edges, k);
    UnbrokenBand(b, edges, k);
    var sa, sb := BandSpans(a, y1, y2), BandSpans(b, y1, y2);
    BandSpansIsRow(a, y1, y2, y1);
    BandSpansIsRow(b, y1, y2, y1);
    RowSeparated(a, y1);
    RowSeparated(b, y1);
    var spans := MergeSpans(sa, sb, kind);
    out', open' := Extend(out, open, Band(y1, y2, spans));
    JoinBuilds(out, open, Band(y1, y2, spans));
    forall x, y | y < y2
      ensures Has(Built(out', open'), x, y) <==> Combine(kind, Has(a, x, y), Has(b, x, y))
    {
      RowCovers(Built(out', open'), y, x);
      if y < y1 {
        RowCovers(Built(out, open), y, x);
      } else {
        BandSpansIsRow(a, y1, y2, y);
        BandSpansIsRow(b, y1, y2, y);
        RowCovers(a, y, x);
        RowCovers(b, y, x);
      }
    }
  }

  /** Below the last edge there is nothing on either side, and nothing was built. */
  lemma BelowAll(r: Region, a: Region, b: Region, kind: Op, edges: seq<int>)
    requires StrictlySorted(edges) && |edges| > 0
    requires forall i :: 0 <= i < |a| ==> a[i].y2 in edges
    requires forall i :: 0 <= i < |b| ==> b[i].y2 in edges
    requires forall i :: 0 <= i < |r| ==> r[i].y2 <= edges[|edges| - 1]
    requires CombinesTo(r, a, b, kind, edges[|edges| - 1])
    ensures Combines(r, a, b, kind)
  {
    forall e | e in edges ensures e <= edges[|edges| - 1] {
      var m :| 0 <= m < |edges| && edges[m] == e;
    }
  }
}
