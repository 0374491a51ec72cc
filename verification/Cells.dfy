/** The grid the compare pass keeps hashes on: one cell is one row of one
    64-pixel column, the last column narrower when the width asks for it. */
module Cells {
  import opened Geometry
  import opened Spans
  import opened Pictures

  const SEGMENT := 64

  datatype Cell = Cell(y: int, c: int)

  datatype Grid = Grid(width: nat, height: nat) {

    function Cols(): nat { (width + SEGMENT - 1) / SEGMENT }

    function Size(): nat { height * Cols() }

    predicate Has(k: Cell) { 0 <= k.y < height && 0 <= k.c < Cols() }

    /** Where a cell sits in a row-major table. */
    function Index(k: Cell): (i: nat)
      requires Has(k)
      ensures i < Size()
    {
      RowMajor(k.y, k.c, height, Cols());
      k.y * Cols() + k.c
    }
  }

  function CellOf(z: Point): Cell { Cell(z.y, z.x / SEGMENT) }

  lemma CellOfPixel(g: Grid, z: Point)
    requires 0 <= z.x < g.width && 0 <= z.y < g.height
    ensures g.Has(CellOf(z))
  {
  }

  lemma IndexInjective(g: Grid, k: Cell, m: Cell)
    requires g.Has(k) && g.Has(m) && g.Index(k) == g.Index(m)
    ensures k == m
  {
    if k.y < m.y {
      IndexOrder(g, k, m);
    } else if m.y < k.y {
      IndexOrder(g, m, k);
    }
  }

  lemma IndexOrder(g: Grid, k: Cell, m: Cell)
    requires g.Has(k) && g.Has(m) && k.y < m.y
    ensures g.Index(k) < g.Index(m)
  {
    RowMajor(k.y, k.c, m.y, g.Cols());
  }

  lemma RowMajor(y: int, c: int, z: int, n: nat)
    requires 0 <= y < z && 0 <= c < n
    ensures y * n + c < z * n
  {
    assert (y + 1) * n <= z * n;
  }

  function Get<T>(table: seq<T>, g: Grid, k: Cell): T
    requires |table| == g.Size() && g.Has(k)
  {
    table[g.Index(k)]
  }

  function Put<T>(table: seq<T>, g: Grid, k: Cell, v: T): (r: seq<T>)
    requires |table| == g.Size() && g.Has(k)
    ensures |r| == |table|
    ensures forall m: Cell {:trigger Get(r, g, m)} :: g.Has(m) ==> Get(r, g, m) == if m == k then v else Get(table, g, m)
  {
    assert forall m: Cell :: g.Has(m) && g.Index(m) == g.Index(k) ==> m == k by {
      forall m: Cell | g.Has(m) && g.Index(m) == g.Index(k) ensures m == k {
        IndexInjective(g, m, k);
      }
    }
    table[g.Index(k) := v]
  }

  /** The pixels of a cell, left to right. */
  function CellPixels(p: Picture, k: Cell): seq<Pixel>
    requires p.Valid() && Grid(p.width, p.height).Has(k)
  {
    p.rows[k.y][SEGMENT * k.c..Min(SEGMENT * k.c + SEGMENT, p.width)]
  }

  /** Equal cells are equal pixel by pixel. */
  lemma SameCellPixel(p: Picture, q: Picture, z: Point, o: Point)
    requires p.Valid() && q.Valid() && p.SameSize(q)
    requires p.Holds(z) && q.Holds(o) && z.x == o.x
    requires Grid(p.width, p.height).Has(CellOf(z)) && Grid(q.width, q.height).Has(CellOf(o))
    requires CellPixels(p, CellOf(z)) == CellPixels(q, CellOf(o))
    ensures p.At(z) == q.At(o)
  {
    var c := z.x / SEGMENT;
    assert p.At(z) == CellPixels(p, CellOf(z))[z.x - SEGMENT * c];
    assert q.At(o) == CellPixels(q, CellOf(o))[z.x - SEGMENT * c];
  }

  /** A cell none of whose pixels differ is the same cell. */
  lemma UnchangedCell(p: Picture, q: Picture, k: Cell)
    requires p.Valid() && q.Valid() && p.SameSize(q) && Grid(p.width, p.height).Has(k)
    requires forall z: Point :: p.Holds(z) && CellOf(z) == k ==> p.At(z) == q.At(z)
    ensures CellPixels(p, k) == CellPixels(q, k)
  {
    var a, b := CellPixels(p, k), CellPixels(q, k);
    forall i | 0 <= i < |a| ensures a[i] == b[i] {
      var z := Point(SEGMENT * k.c + i, k.y);
      assert CellOf(z) == k;
      assert p.At(z) == a[i] && q.At(z) == b[i];
    }
  }

  // ---- Columns and spans ----

  /** The hash columns one rectangle touches: from first up to last. */
  function FirstColumn(r: Rect): nat { if r.IsEmpty() then 0 else Max(r.x1 / SEGMENT, 0) }

  function LastColumn(g: Grid, r: Rect): nat {
    if r.IsEmpty() then 0 else Max(Min((r.x2 + SEGMENT - 1) / SEGMENT, g.Cols()), FirstColumn(r))
  }

  /** The cells a rectangle touches. */
  ghost function CellsOf(g: Grid, r: Rect): iset<Cell> {
    iset k: Cell | g.Has(k) && r.y1 <= k.y < r.y2 && FirstColumn(r) <= k.c < LastColumn(g, r)
  }

  /** A rectangle inside the picture touches exactly the cells of its pixels. */
  lemma TouchedCells(g: Grid, r: Rect, k: Cell)
    requires 0 <= r.x1 && 0 <= r.y1 && r.x2 <= g.width && r.y2 <= g.height
    ensures k in CellsOf(g, r) <==> exists z: Point :: r.Has(z.x, z.y) && CellOf(z) == k
  {
    if k in CellsOf(g, r) {
      var z := Point(Max(r.x1, SEGMENT * k.c), k.y);
      assert r.Has(z.x, z.y) && CellOf(z) == k;
    }
  }

  /** Whether pixel column x lies in one of the first k columns, and that one is on. */
  ghost predicate OnAt(on: seq<bool>, first: nat, k: nat, g: Grid, x: int)
    requires k <= |on|
  {
    0 <= x < g.width && first <= x / SEGMENT < first + k && on[x / SEGMENT - first]
  }

  /** The spans closed so far and the one still open stand for the first k columns. */
  ghost predicate SpansUpTo(spans: seq<Span>, open: Option<int>, on: seq<bool>, first: nat, k: nat, g: Grid)
    requires k <= |on|
  {
    && Separated(spans)
    && (forall i :: 0 <= i < |spans| ==> spans[i].x2 < SEGMENT * (first + k))
    && (open.Some? ==> 0 <= open.value < g.width && open.value < SEGMENT * (first + k))
    && (open.Some? ==> forall i :: 0 <= i < |spans| ==> spans[i].x2 < open.value)
    && forall x :: OnAt(on, first, k, g, x) <==>
         Covers(spans, x) || (open.Some? && open.value <= x < Min(SEGMENT * (first + k), g.width))
  }

  /** Columns that are on, as pixel spans: one grows until a column that is off ends it. */
  method SpansOf(on: seq<bool>, first: nat, g: Grid) returns (spans: seq<Span>)
    requires first + |on| <= g.Cols()
    ensures Separated(spans)
    ensures forall x :: Covers(spans, x) <==> OnAt(on, first, |on|, g, x)
  {
    hide OnAt, Covers;
    spans := [];
    var open: Option<int> := None;
    NothingOn(on, first, g);
    for k := 0 to |on|
      invariant SpansUpTo(spans, open, on, first, k, g)
    {
      SpansStep(spans, open, on, first, k, g);
      var c := first + k;
      if on[k] && open.None? {
        open := Some(c * SEGMENT);
      } else if !on[k] && open.Some? {
        spans := spans + [Span(open.value, Min(c * SEGMENT, g.width))];
        open := None;
      }
    }
    if open.Some? {
      SpansEnd(spans, open.value, on, first, g);
      spans := spans + [Span(open.value, Min((first + |on|) * SEGMENT, g.width))];
    }
  }

  lemma NothingOn(on: seq<bool>, first: nat, g: Grid)
    ensures SpansUpTo([], None, on, first, 0, g)
  {
  }

  /** The last span, still open at the end of the row. */
  lemma SpansEnd(spans: seq<Span>, open: int, on: seq<bool>, first: nat, g: Grid)
    requires first + |on| <= g.Cols() && SpansUpTo(spans, Some(open), on, first, |on|, g)
    ensures var all := spans + [Span(open, Min((first + |on|) * SEGMENT, g.width))];
            Separated(all) && forall x :: Covers(all, x) <==> OnAt(on, first, |on|, g, x)
  {
    hide OnAt;
    forall x {
      CoversSnoc(spans, Span(open, Min((first + |on|) * SEGMENT, g.width)), x);
    }
  }

  lemma SpansStep(spans: seq<Span>, open: Option<int>, on: seq<bool>, first: nat, k: nat, g: Grid)
    requires k < |on| && first + |on| <= g.Cols()
    requires SpansUpTo(spans, open, on, first, k, g)
    ensures var c := first + k;
            if on[k] && open.None? then SpansUpTo(spans, Some(c * SEGMENT), on, first, k + 1, g)
            else if !on[k] && open.Some? then
              SpansUpTo(spans + [Span(open.value, Min(c * SEGMENT, g.width))], None, on, first, k + 1, g)
            else SpansUpTo(spans, open, on, first, k + 1, g)
  {
    hide OnAt, Covers, Separated;
    var c := first + k;
    assert SEGMENT * c < g.width && SEGMENT * (c + 1) == SEGMENT * c + SEGMENT;
    if !on[k] && open.Some? {
      SpansClose(spans, open.value, on, first, k, g);
    } else {
      SpansGoOn(spans, open, if open.None? && on[k] then Some(c * SEGMENT) else open, on, first, k, g);
    }
  }

  /** No span is closed: one opens at this column, or what is open or not stays so. */
  lemma SpansGoOn(spans: seq<Span>, open: Option<int>, open': Option<int>, on: seq<bool>, first: nat, k: nat, g: Grid)
    requires k < |on| && SpansUpTo(spans, open, on, first, k, g) && (on[k] || open.None?)
    requires SEGMENT * (first + k) < g.width
    requires open' == if open.None? && on[k] then Some((first + k) * SEGMENT) else open
    ensures SpansUpTo(spans, open', on, first, k + 1, g)
  {
    hide OnAt, Covers, Separated;
    var from, to := SEGMENT * (first + k), SEGMENT * (first + k + 1);
    assert to == from + SEGMENT;
    forall x ensures OnAt(on, first, k + 1, g, x) <==> Covers(spans, x) || (open'.Some? && open'.value <= x < Min(to, g.width)) {
      OnAtNext(on, first, k, g, x);
    }
  }

  lemma SpansClose(spans: seq<Span>, open: int, on: seq<bool>, first: nat, k: nat, g: Grid)
    requires k < |on| && first + |on| <= g.Cols() && !on[k]
    requires SpansUpTo(spans, Some(open), on, first, k, g)
    ensures SpansUpTo(spans + [Span(open, Min((first + k) * SEGMENT, g.width))], None, on, first, k + 1, g)
  {
    var last := Span(open, Min((first + k) * SEGMENT, g.width));
    var closed := spans + [last];
    forall x ensures OnAt(on, first, k + 1, g, x) <==> Covers(closed, x) {
      OnAtNext(on, first, k, g, x);
      CoversSnoc(spans, last, x);
    }
    assert forall i :: 0 <= i < |closed| ==> closed[i].x2 < SEGMENT * (first + k + 1);
    assert Separated(closed);
  }

  lemma OnAtNext(on: seq<bool>, first: nat, k: nat, g: Grid, x: int)
    requires k < |on|
    ensures OnAt(on, first, k + 1, g, x) <==>
      OnAt(on, first, k, g, x) || (on[k] && SEGMENT * (first + k) <= x < Min(SEGMENT * (first + k + 1), g.width))
  {
    assert x / SEGMENT == first + k <==> SEGMENT * (first + k) <= x < SEGMENT * (first + k + 1);
  }
}
