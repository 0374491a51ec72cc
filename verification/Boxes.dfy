/** The cells of the damage's bounding box: as they were before a pass, and what
    they match or show after it. */
module Boxes {
  import opened Geometry
  import opened Spans
  import opened Cells

  datatype Box = Box(y1: int, y2: int, first: int, last: int) {

    predicate Inside(g: Grid) { 0 <= y1 <= y2 <= g.height && 0 <= first <= last <= g.Cols() }

    predicate Has(k: Cell) { y1 <= k.y < y2 && first <= k.c < last }

    /** A table of the box's own, up to row y. */
    function Sub(y: int): Grid
      requires y1 <= y && first <= last
    {
      Grid(SEGMENT * (last - first), y - y1)
    }
  }

  lemma SliceFits(y: int, rows: nat, n: nat, last: int)
    requires 0 <= y < rows && last <= n
    ensures 0 <= y * n && y * n + last <= rows * n
  {
    assert (y + 1) * n <= rows * n;
  }

  function RowSlice(h: seq<nat>, g: Grid, box: Box, y: int): (r: seq<nat>)
    requires |h| == g.Size() && box.Inside(g) && box.y1 <= y < box.y2
    ensures |r| == box.last - box.first
    ensures forall c :: 0 <= c < |r| ==> r[c] == Get(h, g, Cell(y, box.first + c))
  {
    SliceFits(y, g.height, g.Cols(), box.last);
    h[y * g.Cols() + box.first..y * g.Cols() + box.last]
  }

  /** The copy holds the box's rows above y, as the table had them. */
  ghost predicate Kept(g: Grid, h: seq<nat>, box: Box, y: int, before: seq<nat>)
    requires |h| == g.Size() && box.Inside(g) && box.y1 <= y <= box.y2
  {
    && |before| == box.Sub(y).Size()
    && forall k: Cell {:trigger Get(before, box.Sub(y), k)} :: box.Sub(y).Has(k) ==>
      Get(before, box.Sub(y), k) == Get(h, g, Cell(k.y + box.y1, k.c + box.first))
  }

  lemma KeptNone(g: Grid, h: seq<nat>, box: Box)
    requires |h| == g.Size() && box.Inside(g)
    ensures Kept(g, h, box, box.y1, [])
  {
  }

  lemma KeptRow(g: Grid, h: seq<nat>, box: Box, y: int, before: seq<nat>, row: seq<nat>)
    requires |h| == g.Size() && box.Inside(g) && box.y1 <= y < box.y2
    requires Kept(g, h, box, y, before) && row == RowSlice(h, g, box, y)
    ensures Kept(g, h, box, y + 1, before + row)
  {
    var sub, next, n := box.Sub(y), box.Sub(y + 1), box.last - box.first;
    assert sub.Cols() == n && next.Cols() == n;
    assert next.Size() == sub.Size() + n;
    forall k: Cell | next.Has(k)
      ensures Get(before + row, next, k) == Get(h, g, Cell(k.y + box.y1, k.c + box.first))
    {
      if k.y < y - box.y1 {
        assert next.Index(k) == sub.Index(k);
        assert Get(before + row, next, k) == Get(before, sub, k);
      } else {
        assert next.Index(k) == |before| + k.c;
        assert Get(before + row, next, k) == row[k.c];
      }
    }
  }

  function Was(before: seq<nat>, box: Box, k: Cell): nat
    requires box.y1 <= box.y2 && box.first <= box.last && |before| == box.Sub(box.y2).Size() && box.Has(k)
  {
    Get(before, box.Sub(box.y2), Cell(k.y - box.y1, k.c - box.first))
  }

  lemma WasKept(g: Grid, h: seq<nat>, box: Box, before: seq<nat>, k: Cell)
    requires |h| == g.Size() && box.Inside(g) && Kept(g, h, box, box.y2, before) && box.Has(k)
    ensures |before| == box.Sub(box.y2).Size() && Was(before, box, k) == Get(h, g, k)
  {
    assert box.Sub(box.y2).Has(Cell(k.y - box.y1, k.c - box.first));
  }

  lemma KeptSize(g: Grid, h: seq<nat>, box: Box, before: seq<nat>)
    requires |h| == g.Size() && box.Inside(g) && Kept(g, h, box, box.y2, before)
    ensures |before| == box.Sub(box.y2).Size()
  {
  }

  /** Whether a cell now holds what the source row held in its column. */
  predicate SameCell(g: Grid, h2: seq<nat>, before: seq<nat>, box: Box, k: Cell, source: int)
    requires |h2| == g.Size() && box.Inside(g) && |before| == box.Sub(box.y2).Size()
    requires box.Has(k) && box.y1 <= source < box.y2
  {
    Get(h2, g, k) == Was(before, box, Cell(source, k.c))
  }

  /** For each column of the box, whether row y now holds what the source row held. */
  function MatchFlags(g: Grid, h2: seq<nat>, before: seq<nat>, box: Box, y: int, source: int): (on: seq<bool>)
    requires |h2| == g.Size() && box.Inside(g) && |before| == box.Sub(box.y2).Size()
    requires box.y1 <= y < box.y2 && box.y1 <= source < box.y2
    ensures |on| == box.last - box.first
    ensures forall i :: 0 <= i < |on| ==> (on[i] <==> SameCell(g, h2, before, box, Cell(y, box.first + i), source))
  {
    seq(box.last - box.first, i requires 0 <= i < box.last - box.first =>
      SameCell(g, h2, before, box, Cell(y, box.first + i), source))
  }

  lemma MatchSpans(g: Grid, h0: seq<nat>, h2: seq<nat>, box: Box, dy: int, before: seq<nat>, y: int, spans: seq<Span>)
    requires |h0| == g.Size() && |h2| == g.Size() && box.Inside(g) && |before| == box.Sub(box.y2).Size()
    requires Kept(g, h0, box, box.y2, before)
    requires box.y1 <= y < box.y2 && box.y1 <= y + dy < box.y2
    requires var on := MatchFlags(g, h2, before, box, y, y + dy);
             forall x :: Covers(spans, x) <==> OnAt(on, box.first, |on|, g, x)
    ensures forall x :: Covers(spans, x) <==> Matches(g, h0, h2, box, dy, Point(x, y))
  {
    hide Get, Was, Kept, Covers;
    var on := MatchFlags(g, h2, before, box, y, y + dy);
    forall x ensures Covers(spans, x) <==> Matches(g, h0, h2, box, dy, Point(x, y)) {
      var c := x / SEGMENT;
      if 0 <= x < g.width && box.first <= c < box.last {
        WasKept(g, h0, box, before, Cell(y + dy, c));
        assert on[c - box.first] <==> Get(h2, g, Cell(y, c)) == Was(before, box, Cell(y + dy, c));
      }
    }
  }

  /** A match lies in the box, and so does its source. */
  lemma MatchesInside(g: Grid, h0: seq<nat>, h2: seq<nat>, box: Box, dy: int)
    requires |h0| == g.Size() && |h2| == g.Size() && box.Inside(g)
    ensures forall x, y :: Matches(g, h0, h2, box, dy, Point(x, y)) ==> box.y1 <= y < box.y2 && box.y1 <= y + dy < box.y2
  {
    hide Get;
  }

  lemma NoSpans(spans: seq<Span>)
    ensures spans == [] ==> forall x :: !Covers(spans, x)
  {
  }

  function ChangedFlags(g: Grid, changed: seq<bool>, box: Box, y: int): (on: seq<bool>)
    requires |changed| == g.Size() && box.Inside(g) && box.y1 <= y < box.y2
    ensures |on| == box.last - box.first
    ensures forall i :: 0 <= i < |on| ==> on[i] == Get(changed, g, Cell(y, box.first + i))
  {
    seq(box.last - box.first, i requires 0 <= i < box.last - box.first => Get(changed, g, Cell(y, box.first + i)))
  }

  lemma ChangedSpans(g: Grid, changed: seq<bool>, box: Box, y: int, spans: seq<Span>)
    requires |changed| == g.Size() && box.Inside(g) && box.y1 <= y < box.y2
    requires var on := ChangedFlags(g, changed, box, y);
             forall x :: Covers(spans, x) <==> OnAt(on, box.first, |on|, g, x)
    ensures forall x :: Covers(spans, x) <==> Shows(g, changed, box, Point(x, y))
  {
    hide Get, Covers;
    var on := ChangedFlags(g, changed, box, y);
    forall x ensures Covers(spans, x) <==> Shows(g, changed, box, Point(x, y)) {
      var c := x / SEGMENT;
      if 0 <= x < g.width && box.first <= c < box.last {
        assert on[c - box.first] == Get(changed, g, Cell(y, c));
      }
    }
  }

  /** The cell over this pixel now holds the hash that sat dy rows away before. */
  ghost predicate Matches(g: Grid, h0: seq<nat>, h2: seq<nat>, box: Box, dy: int, z: Point)
    requires |h0| == g.Size() && |h2| == g.Size() && box.Inside(g)
  {
    && 0 <= z.x < g.width && box.Has(CellOf(z)) && box.y1 <= z.y + dy < box.y2
    && Get(h2, g, CellOf(z)) == Get(h0, g, Cell(z.y + dy, CellOf(z).c))
  }

  /** The cell over this pixel is marked. */
  ghost predicate Shows(g: Grid, changed: seq<bool>, box: Box, z: Point)
    requires |changed| == g.Size() && box.Inside(g)
  {
    0 <= z.x < g.width && box.Has(CellOf(z)) && Get(changed, g, CellOf(z))
  }
}
