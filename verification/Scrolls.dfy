/** A plain scroll is found: where the cells of a box all moved by one distance, and are
    like nothing else there, the pass answers one copy and the rows that came in. */
module Scrolls {
  import opened Arithmetic
  import opened Geometry
  import opened Regions
  import opened PixelSets
  import opened Pictures
  import opened Cells
  import opened Boxes
  import opened Votes
  import opened Tighteners
  import opened TightenReplay

  /** A cell of the box holds what a row of the box held in its column exactly when
      that row is dy away. */
  ghost predicate PureScroll(g: Grid, h0: seq<nat>, h2: seq<nat>, box: Box, dy: int)
    requires |h0| == g.Size() && |h2| == g.Size() && box.Inside(g)
  {
    forall y, s, c {:trigger Get(h2, g, Cell(y, c)), Get(h0, g, Cell(s, c))} ::
      box.y1 <= y < box.y2 && box.y1 <= s < box.y2 && box.first <= c < box.last ==>
        (Get(h2, g, Cell(y, c)) == Get(h0, g, Cell(s, c)) <==> s == y + dy)
  }

  // ---- It gets every vote ----

  lemma {:induction false} AgreeingScroll(g: Grid, h0: seq<nat>, h2: seq<nat>, box: Box, dy: int, row: int, source: int, c: int)
    requires |h0| == g.Size() && |h2| == g.Size() && box.Inside(g) && PureScroll(g, h0, h2, box, dy)
    requires box.y1 <= row < box.y2 && box.y1 <= source < box.y2 && box.first <= c <= box.last
    ensures Agreeing(g, h0, h2, box, row, source, c) == if source == row + dy then c - box.first else 0
    decreases c
  {
    hide Get, Agreeing;
    if c == box.first {
      AgreeingNone(g, h0, h2, box, row, source);
    } else {
      AgreeingScroll(g, h0, h2, box, dy, row, source, c - 1);
      AgreeingNext(g, h0, h2, box, row, source, c - 1);
    }
  }

  lemma {:induction false} NoOtherVotes(g: Grid, h0: seq<nat>, h2: seq<nat>, box: Box, dy: int, probes: seq<int>, n: nat, other: int)
    requires |h0| == g.Size() && |h2| == g.Size() && box.Inside(g) && PureScroll(g, h0, h2, box, dy)
    requires InBox(probes, box) && n <= |probes| && other != dy
    ensures Tally(g, h0, h2, box, probes, n, other, box.y2) == 0
  {
    hide Agreeing, PureScroll;
    if n > 0 {
      NoOtherVotes(g, h0, h2, box, dy, probes, n - 1, other);
      if box.y1 <= probes[n - 1] + other < box.y2 {
        AgreeingScroll(g, h0, h2, box, dy, probes[n - 1], probes[n - 1] + other, box.last);
      }
    }
  }

  /** Four probes in a row whose sources lie in the box bring four cells for every column. */
  lemma {:induction false} VotesForIt(g: Grid, h0: seq<nat>, h2: seq<nat>, box: Box, dy: int, probes: seq<int>, n: nat, from: nat)
    requires |h0| == g.Size() && |h2| == g.Size() && box.Inside(g) && PureScroll(g, h0, h2, box, dy)
    requires InBox(probes, box) && n <= |probes|
    requires forall i :: from <= i < Min(from + 4, n) ==> box.y1 <= probes[i] + dy < box.y2
    ensures Tally(g, h0, h2, box, probes, n, dy, box.y2) >= (box.last - box.first) * Max(0, Min(n - from, 4))
  {
    hide Agreeing, PureScroll;
    if n > 0 {
      VotesForIt(g, h0, h2, box, dy, probes, n - 1, from);
      if from <= n - 1 < from + 4 {
        AgreeingScroll(g, h0, h2, box, dy, probes[n - 1], probes[n - 1] + dy, box.last);
      }
    }
  }

  // ---- The sample of a box that changed throughout ----

  lemma Ordered(rows: seq<int>, i: nat, j: nat)
    requires (forall k, l :: 0 <= k < l < |rows| ==> rows[k] < rows[l]) && i < |rows| && j < |rows|
    ensures i < j ==> rows[i] < rows[j]
  {
  }

  lemma FirstTwo(rows: seq<int>)
    requires forall k, l :: 0 <= k < l < |rows| ==> rows[k] < rows[l]
    ensures |rows| > 1 ==> rows[0] < rows[1]
  {
  }

  lemma {:induction false} RowAt(rows: seq<int>, y1: int, y2: int, i: nat)
    requires forall j, k :: 0 <= j < k < |rows| ==> rows[j] < rows[k]
    requires forall y :: y in rows <==> y1 <= y < y2
    requires i < |rows|
    ensures rows[i] == y1 + i
  {
    assert rows[i] in rows;
    if i == 0 {
      assert y1 in rows;
      var j :| 0 <= j < |rows| && rows[j] == y1;
      assert rows[0] in rows;
    } else {
      RowAt(rows, y1, y2, i - 1);
      assert rows[i - 1] < rows[i];
      assert y1 + i in rows;
      var j :| 0 <= j < |rows| && rows[j] == y1 + i;
      Ordered(rows, j, i - 1);
      Ordered(rows, i, j);
    }
  }

  lemma AllRows(rows: seq<int>, y1: int, y2: int)
    requires forall j, k :: 0 <= j < k < |rows| ==> rows[j] < rows[k]
    requires (forall y :: y in rows <==> y1 <= y < y2) && y1 <= y2
    ensures |rows| == y2 - y1 && forall i :: 0 <= i < |rows| ==> rows[i] == y1 + i
  {
    forall i | 0 <= i < |rows| ensures rows[i] == y1 + i {
      RowAt(rows, y1, y2, i);
    }
    if |rows| > 0 {
      assert rows[|rows| - 1] in rows;
    }
    assert y1 + |rows| < y2 ==> y1 + |rows| in rows;
  }

  lemma UpToThree(k: int, step: int)
    requires 0 < step
    ensures k <= 3 ==> k * step <= 3 * step
  {
  }

  lemma StepIsShort(n: int, step: int, k: int)
    requires n >= 16 && 16 * (step - 1) < n && n <= k * step && 0 < step && 0 <= k
    ensures k >= 4 && 6 * step < n && 2 * ((k - 4) * step) >= n
  {
    UpToThree(k, step);
    assert (k - 4) * step == k * step - 4 * step;
  }

  lemma EarlyProbe(probes: seq<int>, rows: seq<int>, step: int, i: nat)
    requires EveryNth(probes, rows, step) && i < 4 <= |probes| && step > 0
    ensures 0 <= i * step <= 3 * step && i * step < |rows| && probes[i] == rows[i * step]
  {
    MulOrder(i, 3, step);
    ProbeAt(probes, rows, step, i);
  }

  lemma LateProbe(probes: seq<int>, rows: seq<int>, step: int, i: nat)
    requires EveryNth(probes, rows, step) && 0 <= |probes| - 4 <= i < |probes| && step > 0
    ensures (|probes| - 4) * step <= i * step < |rows| && probes[i] == rows[i * step]
  {
    MulOrder(|probes| - 4, i, step);
    ProbeAt(probes, rows, step, i);
  }

  /** Four probes from this one on came from rows of the box. */
  ghost predicate FourInside(probes: seq<int>, from: nat, y1: int, y2: int, dy: int) {
    from + 4 <= |probes| && forall i :: from <= i < from + 4 ==> y1 <= probes[i] + dy < y2
  }

  /** Of a box of at least sixteen rows, moved by no more than half of them, some four
      probes in a row did. */
  lemma FourProbes(probes: seq<int>, rows: seq<int>, y1: int, y2: int, dy: int)
    requires y2 - y1 >= 16 && 2 * dy <= y2 - y1 && 2 * -dy <= y2 - y1
    requires |rows| == y2 - y1 && forall i :: 0 <= i < |rows| ==> rows[i] == y1 + i
    requires Sample(probes, rows)
    ensures exists from :: FourInside(probes, from, y1, y2, dy)
  {
    hide EveryNth;
    var n := y2 - y1;
    var step :| step > 0 && EveryNth(probes, rows, step) && 16 * (step - 1) < Max(|rows|, 1) <= 16 * step;
    AllTaken(probes, rows, step);
    StepIsShort(n, step, |probes|);
    var from: nat := if dy >= 0 then 0 else |probes| - 4;
    forall i | from <= i < from + 4 ensures y1 <= probes[i] + dy < y2 {
      if dy >= 0 {
        EarlyProbe(probes, rows, step, i);
      } else {
        LateProbe(probes, rows, step, i);
      }
    }
    assert FourInside(probes, from, y1, y2, dy);
  }

  lemma AllTaken(probes: seq<int>, rows: seq<int>, step: int)
    requires EveryNth(probes, rows, step)
    ensures |rows| <= |probes| * step
  {
  }

  // ---- One copy ----

  /** The pixels of a box. */
  function BoxRect(g: Grid, box: Box): Rect { Rect(SEGMENT * box.first, box.y1, Min(SEGMENT * box.last, g.width), box.y2) }

  /** The rows of the box whose source lies in it too. */
  function Staying(g: Grid, box: Box, dy: int): Rect {
    Rect(SEGMENT * box.first, Max(box.y1, box.y1 - dy), Min(SEGMENT * box.last, g.width), Min(box.y2, box.y2 - dy))
  }

  lemma MatchIsBlock(g: Grid, h0: seq<nat>, h2: seq<nat>, box: Box, dy: int)
    requires |h0| == g.Size() && |h2| == g.Size() && box.Inside(g) && PureScroll(g, h0, h2, box, dy)
    ensures MatchPixels(g, h0, h2, box, dy) == Staying(g, box, dy).Pixels()
  {
    hide Get;
    forall z: Point ensures Matches(g, h0, h2, box, dy, z) <==> Staying(g, box, dy).Has(z.x, z.y) {
      var c := z.x / SEGMENT;
      assert box.first <= c < box.last <==> SEGMENT * box.first <= z.x < SEGMENT * box.last;
    }
  }

  /** Strictly ordered copies to one destination are one copy. */
  lemma OnlyOne(g: Grid, h0: seq<nat>, h2: seq<nat>, box: Box, dy: int, moves: seq<Move>, r: Rect)
    requires |h0| == g.Size() && |h2| == g.Size() && box.Inside(g) && Found(g, h0, h2, box, dy, moves)
    requires forall d: Rect :: IsDestination(d, moves) <==> d == r
    ensures moves == [Move(r.x1, r.y1 + dy, r)]
  {
    hide Matches;
    assert IsDestination(r, moves);
    assert forall i :: 0 <= i < |moves| ==> IsDestination(moves[i].dst, moves);
    var m := moves[0];
    assert Shift(g, h0, h2, box, dy, m);
    assert |moves| > 1 ==> moves[0].dst == r && moves[1].dst == r;
    assert !Before(r, r);
    assert m == Move(r.x1, r.y1 + dy, r);
  }

  lemma BlockCopied(g: Grid, h0: seq<nat>, h2: seq<nat>, box: Box, shown: iset<Point>, dy: int, moves: seq<Move>)
    requires |h0| == g.Size() && |h2| == g.Size() && box.Inside(g) && PureScroll(g, h0, h2, box, dy)
    requires Copied(g, h0, h2, box, shown, dy, moves) && shown == BoxRect(g, box).Pixels()
    requires Staying(g, box, dy).Height() >= 8 && box.first < box.last
    ensures var r := Staying(g, box, dy); moves == [Move(r.x1, r.y1 + dy, r)]
  {
    hide Matches, NormalForm, Found, PureScroll, Pixels, Get;
    var r := Staying(g, box, dy);
    MatchIsBlock(g, h0, h2, box, dy);
    assert SEGMENT * box.first < g.width;
    SingleNormal(r);
    var region: Region :| Denotes(region, MatchPixels(g, h0, h2, box, dy)) &&
      forall d: Rect :: IsDestination(d, moves) <==> d in region && d.Height() >= 8 && Holds(d, shown);
    DenotesUnique(region, [r], r.Pixels());
    assert r.Has(r.x1, r.y1) && Point(r.x1, r.y1) in shown;
    assert Holds(r, shown);
    OnlyOne(g, h0, h2, box, dy, moves, r);
  }

  lemma ScrollDetected(g: Grid, h0: seq<nat>, h2: seq<nat>, box: Box, shown: iset<Point>, dy: int, moves: seq<Move>)
    requires |h0| == g.Size() && |h2| == g.Size() && box.Inside(g) && PureScroll(g, h0, h2, box, dy) && dy != 0
    requires Detected(g, h0, h2, box, shown, moves) && shown == BoxRect(g, box).Pixels()
    requires box.y2 - box.y1 >= 16 && 2 * dy <= box.y2 - box.y1 && 2 * -dy <= box.y2 - box.y1
    requires box.last - box.first >= 2
    ensures var r := Staying(g, box, dy); moves == [Move(r.x1, r.y1 + dy, r)]
  {
    hide PureScroll, Copied, Sample, Tally, Get;
    var rows, probes :| RowsOf(rows, shown) && Sample(probes, rows) && InBox(probes, box) &&
      if |rows| < 8 || NoneElected(g, h0, h2, box, probes) then moves == []
      else exists dy :: Elected(g, h0, h2, box, probes, dy) && Copied(g, h0, h2, box, shown, dy, moves);
    BoxRows(g, box, rows, shown);
    AllRows(rows, box.y1, box.y2);
    FourProbes(probes, rows, box.y1, box.y2, dy);
    var from :| FourInside(probes, from, box.y1, box.y2, dy);
    VotesForIt(g, h0, h2, box, dy, probes, |probes|, from);
    assert Min(|probes| - from, 4) == 4 && AllVotes(g, h0, h2, box, probes, dy) >= 4 * (box.last - box.first);
    var won :| Elected(g, h0, h2, box, probes, won) && Copied(g, h0, h2, box, shown, won, moves);
    if won != dy {
      NoOtherVotes(g, h0, h2, box, dy, probes, |probes|, won);
    }
    BlockCopied(g, h0, h2, box, shown, dy, moves);
  }

  lemma BoxRows(g: Grid, box: Box, rows: seq<int>, shown: iset<Point>)
    requires box.Inside(g) && box.first < box.last && RowsOf(rows, shown) && shown == BoxRect(g, box).Pixels()
    ensures forall y :: y in rows <==> box.y1 <= y < box.y2
  {
    var x := SEGMENT * box.first;
    assert x < g.width;
    forall y ensures RowIn(y, shown) <==> box.y1 <= y < box.y2 {
      if box.y1 <= y < box.y2 {
        assert BoxRect(g, box).Has(x, y) && Point(x, y) in shown;
      }
    }
  }

  // ---- On the pictures ----

  /** Each cell of the box shows what the cell dy rows away showed, and no other cell
      of its column in the box showed that. */
  ghost predicate Scrolled(g: Grid, old_: Picture, new_: Picture, box: Box, dy: int)
    requires GridOf(g, old_) && GridOf(g, new_) && box.Inside(g)
  {
    forall y, s, c {:trigger CellPixels(new_, Cell(y, c)), CellPixels(old_, Cell(s, c))} ::
      box.y1 <= y < box.y2 && box.y1 <= s < box.y2 && box.first <= c < box.last ==>
        (CellPixels(new_, Cell(y, c)) == CellPixels(old_, Cell(s, c)) <==> s == y + dy)
  }

  lemma ScrolledHashes(hash: Hash, g: Grid, old_: Picture, new_: Picture, h0: seq<nat>, h2: seq<nat>, box: Box, dy: int)
    requires GridOf(g, old_) && GridOf(g, new_) && |h0| == g.Size() && |h2| == g.Size() && box.Inside(g)
    requires Scrolled(g, old_, new_, box, dy) && NoCollision(hash, old_, new_)
    requires forall k: Cell :: box.Has(k) && g.Has(k) ==> InStep(hash, g, old_, h0, k) && InStep(hash, g, new_, h2, k)
    ensures PureScroll(g, h0, h2, box, dy)
  {
    hide CellPixels, Get;
    forall y, s, c | box.y1 <= y < box.y2 && box.y1 <= s < box.y2 && box.first <= c < box.last
      ensures Get(h2, g, Cell(y, c)) == Get(h0, g, Cell(s, c)) <==> s == y + dy
    {
      SameWidth(old_, new_, Cell(s, c), Cell(y, c));
      assert InStep(hash, g, old_, h0, Cell(s, c)) && InStep(hash, g, new_, h2, Cell(y, c));
    }
  }

  lemma BoundsOfOne(r: Rect)
    requires !r.IsEmpty()
    ensures Bounds([r]) == r
  {
    assert [r][..0] == [];
    assert Bounds([]) == EMPTY;
  }

  /** Every cell of the box is touched, and none is what it was. */
  lemma AllChanged(hash: Hash, g: Grid, old_: Picture, new_: Picture, h0: seq<nat>, h2: seq<nat>, band: Rect, dy: int)
    requires GridOf(g, old_) && GridOf(g, new_) && |h0| == g.Size() && |h2| == g.Size() && band == Clip(g, band) && !band.IsEmpty()
    requires var box := BoxOf(g, band);
             && PureScroll(g, h0, h2, box, dy) && dy != 0
             && forall k: Cell :: box.Has(k) && g.Has(k) ==> InStep(hash, g, new_, h2, k)
    ensures ChangedPixels(hash, g, new_, h0, [band], []) == BoxRect(g, BoxOf(g, band)).Pixels()
  {
    hide CellPixels, Get;
    var box := BoxOf(g, band);
    assert Touched(g, [band], 1) == CellsOf(g, band) by {
      assert [band][0] == band;
    }
    forall z: Point ensures z in ChangedPixels(hash, g, new_, h0, [band], []) <==> BoxRect(g, box).Has(z.x, z.y) {
      var k := CellOf(z);
      assert box.first <= k.c < box.last <==> SEGMENT * box.first <= z.x < SEGMENT * box.last;
      if BoxRect(g, box).Has(z.x, z.y) {
        CellOfPixel(g, z);
        assert InStep(hash, g, new_, h2, k);
        assert Get(h2, g, Cell(k.y, k.c)) == Get(h0, g, Cell(k.y, k.c)) <==> k.y == k.y + dy;
      }
    }
  }

  /** The rows of the box that came in from outside. */
  function Arriving(g: Grid, box: Box, dy: int): Rect {
    if dy > 0 then Rect(SEGMENT * box.first, box.y2 - dy, Min(SEGMENT * box.last, g.width), box.y2)
    else Rect(SEGMENT * box.first, box.y1, Min(SEGMENT * box.last, g.width), box.y1 - dy)
  }

  lemma RestArrives(g: Grid, box: Box, dy: int, move: Move, damage: Region)
    requires box.Inside(g) && box.first < box.last && dy != 0 && 2 * dy <= box.y2 - box.y1 && 2 * -dy <= box.y2 - box.y1
    requires move.dst == Staying(g, box, dy) && Denotes(damage, BoxRect(g, box).Pixels() - Written([move]))
    ensures damage == [Arriving(g, box, dy)]
  {
    hide NormalForm, Pixels;
    assert SEGMENT * box.first < g.width;
    SingleNormal(Arriving(g, box, dy));
    assert Written([move]) == move.dst.Pixels() by {
      assert [move][0] == move;
    }
    assert BoxRect(g, box).Pixels() - move.dst.Pixels() == Arriving(g, box, dy).Pixels();
    DenotesUnique(damage, [Arriving(g, box, dy)], Arriving(g, box, dy).Pixels());
  }

  /** A band of the picture at least sixteen rows high and two cells wide scrolls, by no more
      than half its height, and the backend reports no more than the band: the pass answers
      one copy, of all the rows that stayed, and for damage exactly the rows that came in. */
  lemma ScrollIsFound(hash: Hash, g: Grid, old_: Picture, new_: Picture, h0: seq<nat>, h2: seq<nat>,
                      band: Rect, dy: int, out: Tightened)
    requires Frame(hash, g, old_, new_, h0, h2, [band], [], out) && BoxKnown(hash, g, old_, h0, [band])
    requires band == Clip(g, band) && band.Height() >= 16 && LastColumn(g, band) - FirstColumn(band) >= 2
    requires Scrolled(g, old_, new_, BoxOf(g, band), dy)
    requires dy != 0 && 2 * dy <= band.Height() && 2 * -dy <= band.Height()
    ensures var r := Staying(g, BoxOf(g, band), dy);
            out.moves == [Move(r.x1, r.y1 + dy, r)] && out.damage == [Arriving(g, BoxOf(g, band), dy)]
  {
    hide CellPixels, Get, Touched, Detected, ChangedPixels, Scrolled, NoCollision, NeverUnknown, Covers, NormalForm, PureScroll, Pixels, Bounds;
    var box := BoxOf(g, band);
    BoundsOfOne(band);
    TableFollows(hash, g, old_, new_, h0, h2, [band], [], out);
    forall k: Cell | box.Has(k) && g.Has(k) ensures InStep(hash, g, old_, h0, k) && InStep(hash, g, new_, h2, k) {
    }
    ScrolledHashes(hash, g, old_, new_, h0, h2, box, dy);
    AllChanged(hash, g, old_, new_, h0, h2, band, dy);
    ScrollDetected(g, h0, h2, box, BoxRect(g, box).Pixels(), dy, out.moves);
    RestArrives(g, box, dy, out.moves[0], out.damage);
  }

  // ---- One pixel ----

  /** The run of 64 pixels, or what is left of it at the edge, that a pixel is hashed with. */
  function RunOf(g: Grid, z: Point): Rect { Rect(64 * (z.x / 64), z.y, Min(64 * (z.x / 64) + 64, g.width), z.y + 1) }

  /** Two pictures that differ in one pixel. */
  ghost predicate DifferOnlyAt(p: Picture, q: Picture, z: Point)
    requires p.Valid() && q.Valid() && p.SameSize(q)
  {
    q.Holds(z) && forall y: Point :: q.Holds(y) ==> (p.At(y) != q.At(y) <==> y == z)
  }

  lemma CellChangedIff(hash: Hash, g: Grid, old_: Picture, new_: Picture, h0: seq<nat>, z: Point, y: Point)
    requires GridOf(g, old_) && GridOf(g, new_) && |h0| == g.Size() && NoCollision(hash, old_, new_) && DifferOnlyAt(old_, new_, z)
    requires new_.Holds(y) && g.Has(CellOf(y)) && InStep(hash, g, old_, h0, CellOf(y))
    ensures Get(h0, g, CellOf(y)) != hash(CellPixels(new_, CellOf(y))) <==> CellOf(y) == CellOf(z)
  {
    hide CellPixels, Get, Picture.At;
    SameWidth(old_, new_, CellOf(y), CellOf(y));
    CellDiffers(old_, new_, CellOf(y), y);
  }

  lemma OneCellChanged(hash: Hash, g: Grid, old_: Picture, new_: Picture, h0: seq<nat>, damage: Region, z: Point)
    requires GridOf(g, old_) && GridOf(g, new_) && |h0| == g.Size() && NoCollision(hash, old_, new_) && DifferOnlyAt(old_, new_, z)
    requires z in Pixels(damage) && forall k: Cell :: g.Has(k) ==> InStep(hash, g, old_, h0, k)
    ensures ChangedPixels(hash, g, new_, h0, damage, []) == RunOf(g, z).Pixels()
  {
    hide CellPixels, Get, Touched, InStep, NoCollision, DifferOnlyAt, Pixels, Damaged;
    DamagedHere(g, new_, damage, old_, z);
    NoDestinations(g);
    forall y: Point ensures y in ChangedPixels(hash, g, new_, h0, damage, []) <==> RunOf(g, z).Has(y.x, y.y) {
      if new_.Holds(y) {
        CellOfPixel(g, y);
        CellChangedIff(hash, g, old_, new_, h0, z, y);
      }
    }
  }

  lemma DamagedHere(g: Grid, p: Picture, damage: Region, old_: Picture, z: Point)
    requires GridOf(g, p) && GridOf(g, old_) && DifferOnlyAt(old_, p, z) && z in Pixels(damage)
    ensures p.Holds(z) && g.Has(CellOf(z)) && CellOf(z) in Touched(g, damage, |damage|)
  {
    hide Touched, Pixels;
    CellOfPixel(g, z);
    DamagedIsTouched(g, p, damage, z);
  }

  lemma NoDestinations(g: Grid)
    ensures Touched(g, Dsts([]), 0) == iset{}
  {
  }

  lemma OneRow(rows: seq<int>, z: Point, shown: iset<Point>)
    requires RowsOf(rows, shown) && forall y: Point :: y in shown ==> y.y == z.y
    ensures |rows| <= 1
  {
    assert forall i :: 0 <= i < |rows| ==> rows[i] in rows;
    assert forall i :: 0 <= i < |rows| ==> rows[i] == z.y;
    FirstTwo(rows);
  }

  /** One pixel changes in a picture every cell of which is known: whatever the backend claims was
      drawn, its run of 64 pixels is reported, nothing else, and no scroll is seen in it. */
  lemma OnePixelIsOneCell(hash: Hash, g: Grid, old_: Picture, new_: Picture, h0: seq<nat>, h2: seq<nat>, damage: Region, out: Tightened, z: Point)
    requires Frame(hash, g, old_, new_, h0, h2, damage, [], out) && forall k: Cell :: g.Has(k) ==> InStep(hash, g, old_, h0, k)
    requires DifferOnlyAt(old_, new_, z)
    ensures out.moves == [] && out.damage == [RunOf(g, z)]
  {
    hide CellPixels, Get, Touched, Picture.At, ChangedPixels, NoCollision, NeverUnknown, NormalForm, Pixels, Bounds, InStep, DetectedIn;
    assert z in Written([]) || z in Pixels(damage);
    OneCellChanged(hash, g, old_, new_, h0, damage, z);
    CellOfPixel(g, z);
    NonEmptyGrid(g, CellOf(z));
    OneRowIsNoScroll(hash, g, new_, h0, h2, damage, z, out.moves);
    var shown := RunOf(g, z).Pixels();
    assert shown - Written([]) == shown;
    SingleNormal(RunOf(g, z));
    DenotesUnique(out.damage, [RunOf(g, z)], shown);
  }

  lemma OneRowIsNoScroll(hash: Hash, g: Grid, p: Picture, h0: seq<nat>, h2: seq<nat>, damage: Region, z: Point, moves: seq<Move>)
    requires GridOf(g, p) && |h0| == g.Size() && |h2| == g.Size() && DetectedIn(hash, g, p, h0, h2, damage, moves)
    requires ChangedPixels(hash, g, p, h0, damage, []) == RunOf(g, z).Pixels()
    ensures moves == []
  {
    hide ChangedPixels, Bounds, Elected, NoneElected, Copied, RowsOf, Sample, InBox;
    var bounds, shown := Clip(g, Bounds(damage)), RunOf(g, z).Pixels();
    var box := BoxOf(g, bounds);
    if bounds.Height() > 8 && box.first < box.last {
      var rows, probes :| RowsOf(rows, shown) && Sample(probes, rows) && InBox(probes, box) &&
        if |rows| < 8 || NoneElected(g, h0, h2, box, probes) then moves == []
        else exists dy :: Elected(g, h0, h2, box, probes, dy) && Copied(g, h0, h2, box, shown, dy, moves);
      OneRow(rows, z, shown);
    }
  }
}
