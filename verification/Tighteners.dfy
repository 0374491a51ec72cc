/** The compare pass: damage narrowed to the cells whose hash changed, and a
    vertical scroll recognised inside it. */
module Tighteners {
  import opened Geometry
  import opened Spans
  import opened Regions
  import opened RegionOps
  import opened PixelSets
  import opened Pictures
  import opened Cells
  import opened Boxes
  import opened Votes

  /** Rows a detected scroll has to cover before it is worth a copy. */
  const MIN_RUN := 8

  /** No hash recorded yet: every cell reads as this until it is first seen. */
  const UNKNOWN: nat := 0xffff_ffff_ffff_ffff

  type Hash = seq<Pixel> -> nat

  datatype Tightened = Tightened(damage: Region, moves: seq<Move>)

  ghost predicate GridOf(g: Grid, p: Picture) { p.Valid() && g == Grid(p.width, p.height) }

  // ---- What a pass over some cells does to the tables ----

  /** The cells of the set hold the picture's hashes; the others are as they were. */
  ghost predicate Rehashed(hash: Hash, g: Grid, p: Picture, h0: seq<nat>, h1: seq<nat>, s: iset<Cell>)
    requires GridOf(g, p) && |h0| == g.Size() && |h1| == g.Size()
  {
    forall k: Cell {:trigger Get(h1, g, k)} :: g.Has(k) ==>
      Get(h1, g, k) == if k in s then hash(CellPixels(p, k)) else Get(h0, g, k)
  }

  /** Exactly the cells of the set whose hash was different are marked as well. */
  ghost predicate Marked(hash: Hash, g: Grid, p: Picture, h0: seq<nat>, c0: seq<bool>, c1: seq<bool>, s: iset<Cell>)
    requires GridOf(g, p) && |h0| == g.Size() && |c0| == g.Size() && |c1| == g.Size()
  {
    forall k: Cell {:trigger Get(c1, g, k)} :: g.Has(k) ==>
      (Get(c1, g, k) <==> Get(c0, g, k) || (k in s && Get(h0, g, k) != hash(CellPixels(p, k))))
  }

  lemma PassTwice(hash: Hash, g: Grid, p: Picture, h0: seq<nat>, h1: seq<nat>, h2: seq<nat>, s: iset<Cell>, t: iset<Cell>)
    requires GridOf(g, p) && |h0| == g.Size() && |h1| == g.Size() && |h2| == g.Size()
    requires Rehashed(hash, g, p, h0, h1, s) && Rehashed(hash, g, p, h1, h2, t)
    ensures Rehashed(hash, g, p, h0, h2, s + t)
  {
    hide Get, CellPixels, Grid.Has;
  }

  lemma MarkedTwice(hash: Hash, g: Grid, p: Picture, h0: seq<nat>, h1: seq<nat>,
                    c0: seq<bool>, c1: seq<bool>, c2: seq<bool>, s: iset<Cell>, t: iset<Cell>)
    requires GridOf(g, p) && |h0| == g.Size() && |h1| == g.Size()
    requires |c0| == g.Size() && |c1| == g.Size() && |c2| == g.Size()
    requires Rehashed(hash, g, p, h0, h1, s)
    requires Marked(hash, g, p, h0, c0, c1, s) && Marked(hash, g, p, h1, c1, c2, t)
    ensures Marked(hash, g, p, h0, c0, c2, s + t)
  {
    hide CellPixels, Grid.Has;
    forall k: Cell | g.Has(k)
      ensures Get(c2, g, k) <==> Get(c0, g, k) || (k in s + t && Get(h0, g, k) != hash(CellPixels(p, k)))
    {
      assert Get(c1, g, k) <==> Get(c0, g, k) || (k in s && Get(h0, g, k) != hash(CellPixels(p, k)));
      assert Get(h1, g, k) == if k in s then hash(CellPixels(p, k)) else Get(h0, g, k);
    }
  }

  /** The cells touched by the first n rectangles, each clipped to the picture. */
  ghost function Touched(g: Grid, rects: seq<Rect>, n: nat): iset<Cell>
    requires n <= |rects|
  {
    iset k: Cell | TouchedAt(g, rects, n, k)
  }

  ghost predicate TouchedAt(g: Grid, rects: seq<Rect>, n: nat, k: Cell)
    requires n <= |rects|
  {
    exists i :: 0 <= i < n && k in CellsOf(g, Clip(g, rects[i]))
  }

  function Clip(g: Grid, r: Rect): Rect { r.Intersection(Rect(0, 0, g.width, g.height)) }

  function Dsts(moves: seq<Move>): seq<Rect> { seq(|moves|, i requires 0 <= i < |moves| => moves[i].dst) }

  lemma TouchedNext(g: Grid, rects: seq<Rect>, n: nat)
    requires n < |rects|
    ensures Touched(g, rects, n + 1) == Touched(g, rects, n) + CellsOf(g, Clip(g, rects[n]))
  {
  }

  /** Part of a rectangle's cells: whole rows above y, and row y up to column c. */
  ghost function CellsUpTo(g: Grid, r: Rect, y: int, c: int): iset<Cell> {
    iset k: Cell | k in CellsOf(g, r) && (k.y < y || (k.y == y && k.c < c))
  }

  lemma NoCells(g: Grid, r: Rect)
    ensures CellsUpTo(g, r, r.y1, FirstColumn(r)) == iset{}
    ensures r.IsEmpty() ==> CellsOf(g, r) == iset{}
  {
  }

  lemma NextCell(g: Grid, r: Rect, y: int, c: int)
    requires 0 <= r.x1 && 0 <= r.y1 && r.x2 <= g.width && r.y2 <= g.height
    requires !r.IsEmpty() && r.y1 <= y < r.y2 && FirstColumn(r) <= c < LastColumn(g, r)
    ensures CellsUpTo(g, r, y, c) + iset{Cell(y, c)} == CellsUpTo(g, r, y, c + 1)
  {
  }

  lemma NextCellRow(g: Grid, r: Rect, y: int)
    requires !r.IsEmpty() && r.y1 <= y < r.y2
    ensures CellsUpTo(g, r, y, LastColumn(g, r)) == CellsUpTo(g, r, y + 1, FirstColumn(r))
  {
  }

  lemma AllCells(g: Grid, r: Rect)
    requires !r.IsEmpty()
    ensures CellsUpTo(g, r, r.y2, FirstColumn(r)) == CellsOf(g, r)
  {
  }

  class Tightener {
    const hash: Hash
    var grid: Grid
    var hashes: seq<nat>
    var changed: seq<bool>
    var before: seq<nat>

    ghost predicate Valid()
      reads this
    {
      |hashes| == grid.Size() && |changed| == grid.Size()
    }

    constructor (hash: Hash)
      ensures Valid() && this.hash == hash && grid == Grid(0, 0)
    {
      this.hash := hash;
      grid := Grid(0, 0);
      hashes, changed, before := [], [], [];
    }

    /** Forget everything: the next pass reports every damaged cell. */
    method Reset(size: Grid)
      modifies this
      ensures Valid() && grid == size && hashes == seq(size.Size(), _ => UNKNOWN)
    {
      grid := size;
      hashes := seq(size.Size(), _ => UNKNOWN);
      changed := seq(size.Size(), _ => false);
      before := [];
    }

    /** Hash one cell from the picture and store it. Returns whether it moved. */
    method Rehash(p: Picture, k: Cell) returns (moved: bool)
      requires Valid() && GridOf(grid, p) && grid.Has(k)
      modifies this`hashes
      ensures Valid() && moved == (Get(old(hashes), grid, k) != hash(CellPixels(p, k)))
      ensures hashes == Put(old(hashes), grid, k, hash(CellPixels(p, k)))
      ensures Rehashed(hash, grid, p, old(hashes), hashes, iset{k})
    {
      var h := hash(CellPixels(p, k));
      moved := Get(hashes, grid, k) != h;
      hashes := Put(hashes, grid, k, h);
    }

    /** Bring a reported move's destination up to date with the picture. */
    method Follow(p: Picture, m: Move)
      requires Valid() && GridOf(grid, p)
      modifies this`hashes
      ensures Valid() && Rehashed(hash, grid, p, old(hashes), hashes, CellsOf(grid, Clip(grid, m.dst)))
    {
      hide Get, CellPixels, Rehashed, CellsUpTo, CellsOf;
      var dst := Clip(grid, m.dst);
      NoCells(grid, dst);
      ghost var h0 := hashes;
      PassNothing(hash, grid, p, hashes, CellsUpTo(grid, dst, dst.y1, FirstColumn(dst)));
      if dst.IsEmpty() {
        return;
      }
      var y := dst.y1;
      while y < dst.y2
        invariant dst.y1 <= y <= dst.y2 && Valid()
        invariant Rehashed(hash, grid, p, h0, hashes, CellsUpTo(grid, dst, y, FirstColumn(dst)))
      {
        for c := FirstColumn(dst) to LastColumn(grid, dst)
          invariant Valid()
          invariant Rehashed(hash, grid, p, h0, hashes, CellsUpTo(grid, dst, y, c))
        {
          ghost var h1 := hashes;
          var _ := Rehash(p, Cell(y, c));
          PassTwice(hash, grid, p, h0, h1, hashes, CellsUpTo(grid, dst, y, c), iset{Cell(y, c)});
          NextCell(grid, dst, y, c);
        }
        NextCellRow(grid, dst, y);
        y := y + 1;
      }
      AllCells(grid, dst);
    }

    /** Hash every cell one damaged rectangle touches, and mark those that moved. */
    method Compare(p: Picture, rect: Rect)
      requires Valid() && GridOf(grid, p)
      requires !rect.IsEmpty() && rect == Clip(grid, rect)
      modifies this`hashes, this`changed
      ensures Valid()
      ensures Rehashed(hash, grid, p, old(hashes), hashes, CellsOf(grid, rect))
      ensures Marked(hash, grid, p, old(hashes), old(changed), changed, CellsOf(grid, rect))
    {
      hide Get, CellPixels, Rehashed, Marked, CellsUpTo, CellsOf;
      ghost var h0, c0 := hashes, changed;
      NoCells(grid, rect);
      PassNothing(hash, grid, p, hashes, CellsUpTo(grid, rect, rect.y1, FirstColumn(rect)));
      MarkNothing(hash, grid, p, hashes, changed, CellsUpTo(grid, rect, rect.y1, FirstColumn(rect)));
      var y := rect.y1;
      while y < rect.y2
        invariant rect.y1 <= y <= rect.y2 && Valid()
        invariant Rehashed(hash, grid, p, h0, hashes, CellsUpTo(grid, rect, y, FirstColumn(rect)))
        invariant Marked(hash, grid, p, h0, c0, changed, CellsUpTo(grid, rect, y, FirstColumn(rect)))
      {
        for c := FirstColumn(rect) to LastColumn(grid, rect)
          invariant Valid()
          invariant Rehashed(hash, grid, p, h0, hashes, CellsUpTo(grid, rect, y, c))
          invariant Marked(hash, grid, p, h0, c0, changed, CellsUpTo(grid, rect, y, c))
        {
          ghost var h1, c1 := hashes, changed;
          var moved := Rehash(p, Cell(y, c));
          if moved {
            changed := Put(changed, grid, Cell(y, c), true);
          }
          MarkOne(hash, grid, p, h1, c1, changed, Cell(y, c), moved);
          PassTwice(hash, grid, p, h0, h1, hashes, CellsUpTo(grid, rect, y, c), iset{Cell(y, c)});
          MarkedTwice(hash, grid, p, h0, h1, c0, c1, changed, CellsUpTo(grid, rect, y, c), iset{Cell(y, c)});
          NextCell(grid, rect, y, c);
        }
        NextCellRow(grid, rect, y);
        y := y + 1;
      }
      AllCells(grid, rect);
    }

    /** Keep the box's cells as they are now, before the pass overwrites them. */
    method Snapshot(box: Box)
      requires Valid() && box.Inside(grid)
      modifies this`before
      ensures Kept(grid, hashes, box, box.y2, before)
    {
      hide Get;
      before := [];
      KeptNone(grid, hashes, box);
      for y := box.y1 to box.y2
        invariant Kept(grid, hashes, box, y, before)
      {
        var row := RowSlice(hashes, grid, box, y);
        KeptRow(grid, hashes, box, y, before, row);
        before := before + row;
      }
    }

    predicate RowChanged(box: Box, y: int)
      requires Valid() && box.Inside(grid) && box.y1 <= y < box.y2
      reads this
      ensures RowChanged(box, y) <==> RowIn(y, ShownPixels(grid, changed, box))
    {
      RowShows(grid, changed, box, y);
      exists c :: box.first <= c < box.last && Get(changed, grid, Cell(y, c))
    }

    /** The rows of the box in which something changed. */
    method ChangedRowList(box: Box) returns (rows: seq<int>)
      requires Valid() && box.Inside(grid)
      ensures RowsOf(rows, ShownPixels(grid, changed, box))
    {
      hide Shows, RowIn, RowChanged;
      ShowsInside(grid, changed, box);
      rows := [];
      for y := box.y1 to box.y2
        invariant forall i, j :: 0 <= i < j < |rows| ==> rows[i] < rows[j]
        invariant forall row :: row in rows <==> row < y && RowIn(row, ShownPixels(grid, changed, box))
      {
        ghost var was := rows;
        if RowChanged(box, y) {
          rows := rows + [y];
          assert forall i :: 0 <= i < |was| ==> was[i] in was;
          assert forall row :: row in rows <==> row in was || row == y;
        }
      }
    }

    /** Whether anything inside this rectangle actually changed. */
    predicate HoldsChange(box: Box, r: Rect)
      requires Valid() && box.Inside(grid) && box.y1 <= r.y1 && r.y2 <= box.y2
      requires !r.IsEmpty() && 0 <= r.x1 && r.x2 <= grid.width
      reads this
      ensures HoldsChange(box, r) <==> Holds(r, ShownPixels(grid, changed, box))
    {
      HoldsShown(grid, changed, box, r);
      exists y, c :: r.y1 <= y < r.y2
                     && Max(Max(r.x1 / SEGMENT, 0), box.first) <= c < Min((r.x2 + SEGMENT - 1) / SEGMENT, box.last)
                     && Get(changed, grid, Cell(y, c))
    }

    /** The box's cells that now hold what sat dy rows away, as rows of spans. */
    method MatchingRows(box: Box, dy: int, ghost h0: seq<nat>) returns (rows: seq<RowOfSpans>)
      requires Valid() && box.Inside(grid) && |h0| == grid.Size()
      requires Kept(grid, h0, box, box.y2, before)
      ensures GoodRows(rows)
      ensures forall x, y :: RowsHave(rows, |rows|, x, y) <==> Matches(grid, h0, hashes, box, dy, Point(x, y))
    {
      hide Get, RowsHave, Kept, Matches, MatchFlags, Covers;
      rows := [];
      RowsNone();
      MatchesInside(grid, h0, hashes, box, dy);
      for y := box.y1 to box.y2
        invariant GoodRows(rows) && forall i :: 0 <= i < |rows| ==> rows[i].y < y
        invariant forall x, z :: RowsHave(rows, |rows|, x, z) <==> z < y && Matches(grid, h0, hashes, box, dy, Point(x, z))
      {
        var source := y + dy;
        MatchesInside(grid, h0, hashes, box, dy);
        if box.y1 <= source < box.y2 {
          KeptSize(grid, h0, box, before);
          var on := MatchFlags(grid, hashes, before, box, y, source);
          var spans := SpansOf(on, box.first, grid);
          MatchSpans(grid, h0, hashes, box, dy, before, y, spans);
          NoSpans(spans);
          if spans != [] {
            RowsAppend(rows, RowOfSpans(y, spans));
            rows := rows + [RowOfSpans(y, spans)];
          }
        }
      }
    }

    /** The changed cells of the box, as rows of spans. */
    method ChangedRows(box: Box) returns (rows: seq<RowOfSpans>)
      requires Valid() && box.Inside(grid)
      ensures GoodRows(rows)
      ensures forall x, y :: RowsHave(rows, |rows|, x, y) <==> Shows(grid, changed, box, Point(x, y))
    {
      hide Get, RowsHave;
      rows := [];
      RowsNone();
      for y := box.y1 to box.y2
        invariant GoodRows(rows) && forall i :: 0 <= i < |rows| ==> rows[i].y < y
        invariant forall x, z :: RowsHave(rows, |rows|, x, z) <==> z < y && Shows(grid, changed, box, Point(x, z))
      {
        var on := ChangedFlags(grid, changed, box, y);
        var spans := SpansOf(on, box.first, grid);
        ChangedSpans(grid, changed, box, y, spans);
        if spans != [] {
          RowsAppend(rows, RowOfSpans(y, spans));
          rows := rows + [RowOfSpans(y, spans)];
        }
      }
    }

    /** The rectangles worth a copy, as moves from dy rows away. A client
        applies them in order onto one picture, so when the content moves down
        the lowest block goes first. */
    method ShiftMoves(box: Box, region: Region, dy: int, ghost h0: seq<nat>) returns (moves: seq<Move>)
      requires Valid() && box.Inside(grid) && |h0| == grid.Size() && dy != 0
      requires Denotes(region, MatchPixels(grid, h0, hashes, box, dy))
      ensures Found(grid, h0, hashes, box, dy, moves)
      ensures forall r: Rect :: IsDestination(r, moves) <==>
                r in region && r.Height() >= 8 && Holds(r, ShownPixels(grid, changed, box))
    {
      hide Matches, Merged, Found, Pixels, HoldsChange, Holds, ShownPixels, Has, IsDestination;
      var kept: seq<Rect> := [];
      ghost var at: seq<nat> := [];
      for k := 0 to |region|
        invariant Picked(region, k, kept, at)
        invariant forall i :: 0 <= i < |kept| ==> kept[i].Height() >= MIN_RUN
        invariant forall r: Rect :: r in kept <==>
                    r in region[..k] && r.Height() >= 8 && Holds(r, ShownPixels(grid, changed, box))
      {
        var r := region[k];
        RectMatches(grid, h0, hashes, box, dy, region, k);
        assert region[..k + 1] == region[..k] + [r];
        if r.Height() >= MIN_RUN && HoldsChange(box, r) {
          kept := kept + [r];
          at := at + [k];
        }
      }
      assert region[..|region|] == region;
      moves := InCopyOrder(kept, dy);
      FoundFrom(grid, h0, hashes, box, dy, region, kept, at);
      CopiesOf(kept, dy);
    }

    /** How many cells of a row now hold what sat in the source row of the box before. */
    method CountAgreeing(box: Box, row: int, source: int, ghost h0: seq<nat>) returns (n: nat)
      requires Valid() && box.Inside(grid) && |h0| == grid.Size()
      requires Kept(grid, h0, box, box.y2, before)
      requires box.y1 <= row < box.y2 && box.y1 <= source < box.y2
      ensures n == Agreeing(grid, h0, hashes, box, row, source, box.last)
    {
      hide Agreeing, Kept, Get, Was;
      KeptSize(grid, h0, box, before);
      n := 0;
      AgreeingNone(grid, h0, hashes, box, row, source);
      for c := box.first to box.last
        invariant n == Agreeing(grid, h0, hashes, box, row, source, c)
      {
        WasKept(grid, h0, box, before, Cell(source, c));
        AgreeingNext(grid, h0, hashes, box, row, source, c);
        if Get(hashes, grid, Cell(row, c)) == Was(before, box, Cell(source, c)) {
          n := n + 1;
        }
      }
    }

    /** Every row of the old picture against every probe: where they agree, the
        distance between them is a candidate. */
    method CastVotes(box: Box, probes: seq<int>, ghost h0: seq<nat>) returns (votes: map<int, nat>)
      requires Valid() && box.Inside(grid) && |h0| == grid.Size() && InBox(probes, box)
      requires Kept(grid, h0, box, box.y2, before)
      ensures forall dy :: dy in votes ==> dy != 0
      ensures forall dy :: dy != 0 ==> Cast(votes, dy) == AllVotes(grid, h0, hashes, box, probes, dy)
    {
      hide Agreeing, Kept, Tally, Cast;
      votes := map[];
      NoBallots(grid, h0, hashes, box, probes);
      for y := box.y1 to box.y2
        invariant forall dy :: dy in votes ==> dy != 0
        invariant Counted(grid, h0, hashes, box, probes, y, votes)
      {
        RowBegun(grid, h0, hashes, box, probes, y, votes);
        for i := 0 to |probes|
          invariant forall dy :: dy in votes ==> dy != 0
          invariant PartCounted(grid, h0, hashes, box, probes, y, i, votes)
        {
          ghost var was := votes;
          if y != probes[i] {
            var n := CountAgreeing(box, probes[i], y, h0);
            if n > 0 {
              votes := votes[y - probes[i] := Cast(votes, y - probes[i]) + n];
              CastMore(was, y - probes[i], n);
            }
          }
          BallotCounted(grid, h0, hashes, box, probes, y, i, was, votes);
        }
        RowCounted(grid, h0, hashes, box, probes, y, votes);
      }
    }

    /** The shift that explains the most, if it explains enough. */
    method Elect(box: Box, probes: seq<int>, ghost h0: seq<nat>) returns (vote: Option<int>)
      requires Valid() && box.Inside(grid) && |h0| == grid.Size() && InBox(probes, box)
      requires Kept(grid, h0, box, box.y2, before)
      ensures vote.Some? ==> Elected(grid, h0, hashes, box, probes, vote.value)
      ensures vote.None? ==> NoneElected(grid, h0, hashes, box, probes)
    {
      hide AllVotes, Kept;
      var votes := CastVotes(box, probes, h0);
      var best := MostVotes(votes);
      if best.None? || votes[best.value] < MIN_VOTES {
        return None;
      }
      return best;
    }

    /** Find the vertical shift that explains the damage, if one does. A
        handful of the changed rows names a shift; it is then checked cell by cell. */
    method Detect(box: Box, ghost h0: seq<nat>) returns (moves: seq<Move>)
      requires Valid() && box.Inside(grid) && |h0| == grid.Size()
      requires Kept(grid, h0, box, box.y2, before)
      ensures Detected(grid, h0, hashes, box, ShownPixels(grid, changed, box), moves)
    {
      hide Matches, RowsHave, Has, NormalForm, Found, Kept, Elected, NoneElected, Sample, ShownPixels, Holds, IsDestination, Copied, RowsOf;
      ghost var shown := ShownPixels(grid, changed, box);
      var changedRows := ChangedRowList(box);
      ShownRowsInBox(grid, changed, box, changedRows);
      var probes := TakeProbes(changedRows);
      if |changedRows| < MIN_RUN {
        return [];
      }
      var vote := Elect(box, probes, h0);
      if vote.None? {
        return [];
      }
      var rows := MatchingRows(box, vote.value, h0);
      var region := FromRows(rows);
      assert RowPixels(rows) == MatchPixels(grid, h0, hashes, box, vote.value);
      ElectedMoves(grid, h0, hashes, box, probes, vote.value);
      moves := ShiftMoves(box, region, vote.value, h0);
      assert Copied(grid, h0, hashes, box, shown, vote.value, moves) by {
        CopiedFrom(grid, h0, hashes, box, shown, vote.value, region, moves);
      }
    }

    /** Follow every reported move. */
    method FollowAll(p: Picture, moves: seq<Move>)
      requires Valid() && GridOf(grid, p)
      modifies this`hashes
      ensures Valid()
      ensures Rehashed(hash, grid, p, old(hashes), hashes, Touched(grid, Dsts(moves), |moves|))
      ensures moves == [] ==> hashes == old(hashes)
    {
      hide Rehashed;
      PassNothing(hash, grid, p, hashes, Touched(grid, Dsts(moves), 0));
      for i := 0 to |moves|
        invariant Valid()
        invariant Rehashed(hash, grid, p, old(hashes), hashes, Touched(grid, Dsts(moves), i))
        invariant moves == [] ==> hashes == old(hashes)
      {
        ghost var h1 := hashes;
        Follow(p, moves[i]);
        TouchedNext(grid, Dsts(moves), i);
        PassTwice(hash, grid, p, old(hashes), h1, hashes, Touched(grid, Dsts(moves), i), CellsOf(grid, Clip(grid, moves[i].dst)));
      }
    }

    /** Compare every damaged rectangle. Two rectangles can share a cell, which
        costs an extra hash of the same bytes and changes no answer. */
    method CompareAll(p: Picture, damage: Region)
      requires Valid() && GridOf(grid, p)
      modifies this`hashes, this`changed
      ensures Valid()
      ensures Rehashed(hash, grid, p, old(hashes), hashes, Touched(grid, damage, |damage|))
      ensures Marked(hash, grid, p, old(hashes), old(changed), changed, Touched(grid, damage, |damage|))
    {
      hide Rehashed, Marked;
      PassNothing(hash, grid, p, hashes, Touched(grid, damage, 0));
      MarkNothing(hash, grid, p, hashes, changed, Touched(grid, damage, 0));
      for i := 0 to |damage|
        invariant Valid()
        invariant Rehashed(hash, grid, p, old(hashes), hashes, Touched(grid, damage, i))
        invariant Marked(hash, grid, p, old(hashes), old(changed), changed, Touched(grid, damage, i))
      {
        ghost var h1, c1 := hashes, changed;
        var rect := Clip(grid, damage[i]);
        if rect.IsEmpty() {
          PassNothing(hash, grid, p, hashes, CellsOf(grid, rect));
          MarkNothing(hash, grid, p, hashes, changed, CellsOf(grid, rect));
        } else {
          Compare(p, rect);
        }
        TouchedNext(grid, damage, i);
        PassTwice(hash, grid, p, old(hashes), h1, hashes, Touched(grid, damage, i), CellsOf(grid, rect));
        MarkedTwice(hash, grid, p, old(hashes), h1, old(changed), c1, changed, Touched(grid, damage, i), CellsOf(grid, rect));
      }
    }

    /** Narrow the damage to the cells that differ, and find the scroll in it
        when none was reported. */
    method Tighten(p: Picture, damage: Region, moves: seq<Move>) returns (out: Tightened)
      requires Valid() && p.Valid()
      modifies this
      ensures Valid() && GridOf(grid, p)
      ensures TightenedTo(hash, grid, p, Start(old(grid), old(hashes), p), hashes, damage, moves, out)
    {
      if Grid(p.width, p.height) != grid {
        Reset(Grid(p.width, p.height));
      }
      ghost var h0 := hashes;
      if hashes == [] {
        return Tightened([], []);
      }
      out := Narrow(p, damage, moves);
    }

    /** The changed cells as a region, without the blocks that are copied. */
    method ChangedRegion(box: Box, moves: seq<Move>) returns (region: Region)
      requires Valid() && box.Inside(grid)
      ensures Denotes(region, ShownPixels(grid, changed, box) - Written(moves))
    {
      hide Denotes, RowsHave, Shows;
      var rows := ChangedRows(box);
      region := FromRows(rows);
      ghost var all := ShownPixels(grid, changed, box);
      assert RowPixels(rows) == all;
      WithoutNone(all, moves);
      for i := 0 to |moves|
        invariant Denotes(region, all - Written(moves[..i]))
      {
        region := RemoveFrom(region, moves[i].dst, all - Written(moves[..i]));
        WithoutNext(all, moves, i);
      }
      assert moves[..|moves|] == moves;
    }

    method Narrow(p: Picture, damage: Region, moves: seq<Move>) returns (out: Tightened)
      requires Valid() && GridOf(grid, p) && hashes != []
      modifies this`hashes, this`changed, this`before
      ensures Valid()
      ensures TightenedTo(hash, grid, p, old(hashes), hashes, damage, moves, out)
    {
      hide Get, Rehashed, Marked, Detected, Kept, NormalForm, Shows;
      FollowAll(p, moves);
      ghost var h1 := hashes;
      var bounds := Clip(grid, Bounds(damage));
      var box := BoxOf(grid, bounds);
      var detecting := moves == [] && bounds.Height() > MIN_RUN && box.first < box.last;
      if detecting {
        Snapshot(box);
      }
      changed := seq(grid.Size(), _ => false);
      ghost var blank := changed;
      CompareAll(p, damage);
      var found: seq<Move> := [];
      if detecting {
        found := Detect(box, h1);
      }
      var result := if found == [] then moves else found;
      var region := ChangedRegion(box, result);
      out := Tightened(region, result);
      PassTwice(hash, grid, p, old(hashes), h1, hashes,
                Touched(grid, Dsts(moves), |moves|), Touched(grid, damage, |damage|));
      ShownAreChanged(hash, grid, p, old(hashes), h1, blank, changed, damage, moves);
    }
  }

  lemma PassNothing(hash: Hash, g: Grid, p: Picture, h: seq<nat>, s: iset<Cell>)
    requires GridOf(g, p) && |h| == g.Size() && s == iset{}
    ensures Rehashed(hash, g, p, h, h, s)
  {
  }

  lemma MarkNothing(hash: Hash, g: Grid, p: Picture, h: seq<nat>, c: seq<bool>, s: iset<Cell>)
    requires GridOf(g, p) && |h| == g.Size() && |c| == g.Size() && s == iset{}
    ensures Marked(hash, g, p, h, c, c, s)
  {
  }

  lemma MarkOne(hash: Hash, g: Grid, p: Picture, h: seq<nat>, c: seq<bool>, c': seq<bool>, k: Cell, moved: bool)
    requires GridOf(g, p) && |h| == g.Size() && |c| == g.Size() && g.Has(k)
    requires moved == (Get(h, g, k) != hash(CellPixels(p, k)))
    requires c' == if moved then Put(c, g, k, true) else c
    ensures Marked(hash, g, p, h, c, c', iset{k})
  {
  }

  lemma RowsNone()
    ensures forall x, y :: !RowsHave([], 0, x, y)
  {
  }

  lemma RowsAppend(rows: seq<RowOfSpans>, r: RowOfSpans)
    requires GoodRows(rows) && Separated(r.spans) && forall i :: 0 <= i < |rows| ==> rows[i].y < r.y
    ensures GoodRows(rows + [r])
    ensures forall x, y :: RowsHave(rows + [r], |rows + [r]|, x, y) <==>
      RowsHave(rows, |rows|, x, y) || (r.y == y && Covers(r.spans, x))
  {
    var all := rows + [r];
    forall x, y ensures RowsHave(all, |all|, x, y) <==> RowsHave(rows, |rows|, x, y) || (r.y == y && Covers(r.spans, x)) {
      if RowsHave(rows, |rows|, x, y) {
        var k :| 0 <= k < |rows| && rows[k].y == y && Covers(rows[k].spans, x);
        assert all[k] == rows[k];
      }
      assert all[|rows|] == r;
    }
  }

  // ---- What the detector promises ----

  /** A copy of one block from dy rows away, every cell of which matched. */
  ghost predicate Shift(g: Grid, h0: seq<nat>, h2: seq<nat>, box: Box, dy: int, m: Move)
    requires |h0| == g.Size() && |h2| == g.Size() && box.Inside(g)
  {
    && m.dst.Height() >= MIN_RUN && !m.dst.IsEmpty()
    && m.srcX == m.dst.x1 && m.srcY == m.dst.y1 + dy
    && forall z: Point :: m.dst.Has(z.x, z.y) ==> Matches(g, h0, h2, box, dy, z)
  }

  /** Every move is such a copy, and they come in an order that reads each source before it is written. */
  ghost predicate Found(g: Grid, h0: seq<nat>, h2: seq<nat>, box: Box, dy: int, moves: seq<Move>)
    requires |h0| == g.Size() && |h2| == g.Size() && box.Inside(g)
  {
    && dy != 0
    && (forall i :: 0 <= i < |moves| ==> Shift(g, h0, h2, box, dy, moves[i]))
    && (forall i, j :: 0 <= i < j < |moves| ==>
         if dy < 0 then Before(moves[j].dst, moves[i].dst) else Before(moves[i].dst, moves[j].dst))
  }

  // ---- Which blocks are copied ----

  /** The pixels of the box whose cells now hold what sat dy rows away. */
  ghost function MatchPixels(g: Grid, h0: seq<nat>, h2: seq<nat>, box: Box, dy: int): iset<Point>
    requires |h0| == g.Size() && |h2| == g.Size() && box.Inside(g)
  {
    iset z: Point | Matches(g, h0, h2, box, dy, z)
  }

  ghost predicate Holds(r: Rect, shown: iset<Point>) { exists x, y :: r.Has(x, y) && Point(x, y) in shown }

  ghost predicate IsDestination(r: Rect, moves: seq<Move>) { exists i :: 0 <= i < |moves| && moves[i].dst == r }

  ghost predicate RowIn(y: int, shown: iset<Point>) { exists x :: Point(x, y) in shown }

  /** The rows, in order, that show something. */
  ghost predicate RowsOf(rows: seq<int>, shown: iset<Point>) {
    && (forall i, j :: 0 <= i < j < |rows| ==> rows[i] < rows[j])
    && forall y :: y in rows <==> RowIn(y, shown)
  }

  /** Copies from dy rows away, to exactly those rectangles of the matching pixels' normal
      form that are at least eight rows high and hold something that changed. */
  ghost predicate Copied(g: Grid, h0: seq<nat>, h2: seq<nat>, box: Box, shown: iset<Point>, dy: int, moves: seq<Move>)
    requires |h0| == g.Size() && |h2| == g.Size() && box.Inside(g)
  {
    && Found(g, h0, h2, box, dy, moves)
    && exists region: Region ::
         && Denotes(region, MatchPixels(g, h0, h2, box, dy))
         && forall r: Rect :: IsDestination(r, moves) <==> r in region && r.Height() >= 8 && Holds(r, shown)
  }

  /** What detection comes to: nothing where fewer than eight rows changed or the sample of
      them elects no shift, and otherwise the copies from a shift it elects. */
  ghost predicate Detected(g: Grid, h0: seq<nat>, h2: seq<nat>, box: Box, shown: iset<Point>, moves: seq<Move>)
    requires |h0| == g.Size() && |h2| == g.Size() && box.Inside(g)
  {
    exists rows, probes :: RowsOf(rows, shown) && Sample(probes, rows) && InBox(probes, box) &&
      if |rows| < 8 || NoneElected(g, h0, h2, box, probes) then moves == []
      else exists dy :: Elected(g, h0, h2, box, probes, dy) && Copied(g, h0, h2, box, shown, dy, moves)
  }

  lemma CopiedFrom(g: Grid, h0: seq<nat>, h2: seq<nat>, box: Box, shown: iset<Point>, dy: int, region: Region, moves: seq<Move>)
    requires |h0| == g.Size() && |h2| == g.Size() && box.Inside(g)
    requires Found(g, h0, h2, box, dy, moves) && Denotes(region, MatchPixels(g, h0, h2, box, dy))
    requires forall r: Rect :: IsDestination(r, moves) <==> r in region && r.Height() >= 8 && Holds(r, shown)
    ensures Copied(g, h0, h2, box, shown, dy, moves)
  {
    hide Found, Denotes, IsDestination, Holds, MatchPixels;
  }

  lemma ElectedMoves(g: Grid, h0: seq<nat>, h2: seq<nat>, box: Box, probes: seq<int>, dy: int)
    requires |h0| == g.Size() && |h2| == g.Size() && box.Inside(g) && InBox(probes, box)
    requires Elected(g, h0, h2, box, probes, dy)
    ensures dy != 0 && !NoneElected(g, h0, h2, box, probes)
  {
    hide AllVotes;
  }

  lemma RowShows(g: Grid, changed: seq<bool>, box: Box, y: int)
    requires |changed| == g.Size() && box.Inside(g) && box.y1 <= y < box.y2
    ensures (exists c :: box.first <= c < box.last && Get(changed, g, Cell(y, c)))
       <==> RowIn(y, ShownPixels(g, changed, box))
  {
    hide Get;
    if c :| box.first <= c < box.last && Get(changed, g, Cell(y, c)) {
      assert CellOf(Point(SEGMENT * c, y)) == Cell(y, c);
      assert Point(SEGMENT * c, y) in ShownPixels(g, changed, box);
    }
    if x :| Point(x, y) in ShownPixels(g, changed, box) {
      assert Get(changed, g, Cell(y, x / SEGMENT));
    }
  }

  lemma ShowsInside(g: Grid, changed: seq<bool>, box: Box)
    requires |changed| == g.Size() && box.Inside(g)
    ensures forall y :: RowIn(y, ShownPixels(g, changed, box)) ==> box.y1 <= y < box.y2
  {
  }

  lemma ShownRowsInBox(g: Grid, changed: seq<bool>, box: Box, rows: seq<int>)
    requires |changed| == g.Size() && box.Inside(g) && RowsOf(rows, ShownPixels(g, changed, box))
    ensures forall y :: y in rows ==> box.y1 <= y < box.y2
  {
    hide Shows;
    ShowsInside(g, changed, box);
  }

  lemma HoldsShown(g: Grid, changed: seq<bool>, box: Box, r: Rect)
    requires |changed| == g.Size() && box.Inside(g) && box.y1 <= r.y1 && r.y2 <= box.y2
    requires !r.IsEmpty() && 0 <= r.x1 && r.x2 <= g.width
    ensures (exists y, c :: r.y1 <= y < r.y2
                            && Max(Max(r.x1 / SEGMENT, 0), box.first) <= c < Min((r.x2 + SEGMENT - 1) / SEGMENT, box.last)
                            && Get(changed, g, Cell(y, c)))
       <==> Holds(r, ShownPixels(g, changed, box))
  {
    hide Get;
    if y, c :| r.y1 <= y < r.y2
               && Max(Max(r.x1 / SEGMENT, 0), box.first) <= c < Min((r.x2 + SEGMENT - 1) / SEGMENT, box.last)
               && Get(changed, g, Cell(y, c)) {
      var x := Max(r.x1, SEGMENT * c);
      assert CellOf(Point(x, y)) == Cell(y, c);
      assert r.Has(x, y) && Point(x, y) in ShownPixels(g, changed, box);
    }
    if x, y :| r.Has(x, y) && Point(x, y) in ShownPixels(g, changed, box) {
      var c := x / SEGMENT;
      assert Get(changed, g, Cell(y, c));
      assert r.x1 / SEGMENT <= c < (r.x2 + SEGMENT - 1) / SEGMENT;
    }
  }

  lemma CopiesOf(kept: seq<Rect>, dy: int)
    ensures forall r: Rect :: IsDestination(r, InCopyOrder(kept, dy)) <==> r in kept
  {
    var moves := InCopyOrder(kept, dy);
    forall r: Rect ensures IsDestination(r, moves) <==> r in kept {
      if r in kept {
        var i :| 0 <= i < |kept| && kept[i] == r;
        assert moves[if dy < 0 then |kept| - 1 - i else i].dst == r;
      }
    }
  }

  /** Some of the first n rectangles, in their order. */
  ghost predicate Picked(region: Region, n: nat, kept: seq<Rect>, at: seq<nat>)
    requires n <= |region|
  {
    && |at| == |kept|
    && (forall i :: 0 <= i < |at| ==> at[i] < n && kept[i] == region[at[i]])
    && (forall i, j :: 0 <= i < j < |at| ==> at[i] < at[j])
  }

  lemma PickedInOrder(region: Region, kept: seq<Rect>, at: seq<nat>)
    requires Banded(region) && Picked(region, |region|, kept, at)
    ensures forall i, j :: 0 <= i < j < |kept| ==> Before(kept[i], kept[j])
  {
    forall i, j | 0 <= i < j < |kept| ensures Before(kept[i], kept[j]) {
      assert at[i] < at[j];
    }
  }

  lemma RectMatches(g: Grid, h0: seq<nat>, h2: seq<nat>, box: Box, dy: int, region: Region, k: nat)
    requires |h0| == g.Size() && |h2| == g.Size() && box.Inside(g)
    requires Banded(region) && k < |region|
    requires forall z: Point :: z in Pixels(region) <==> Matches(g, h0, h2, box, dy, z)
    ensures !region[k].IsEmpty() && 0 <= region[k].x1 && region[k].x2 <= g.width
    ensures box.y1 <= region[k].y1 && region[k].y2 <= box.y2
    ensures forall z: Point :: region[k].Has(z.x, z.y) ==> Matches(g, h0, h2, box, dy, z)
  {
    var r := region[k];
    forall z: Point | r.Has(z.x, z.y) ensures Matches(g, h0, h2, box, dy, z) {
      assert z in Pixels(region);
    }
    assert Matches(g, h0, h2, box, dy, Point(r.x1, r.y1)) && Matches(g, h0, h2, box, dy, Point(r.x2 - 1, r.y2 - 1));
  }

  function CopyFrom(r: Rect, dy: int): Move { Move(r.x1, r.y1 + dy, r) }

  function InCopyOrder(kept: seq<Rect>, dy: int): seq<Move> {
    seq(|kept|, i requires 0 <= i < |kept| => CopyFrom(kept[if dy < 0 then |kept| - 1 - i else i], dy))
  }

  lemma RectShift(g: Grid, h0: seq<nat>, h2: seq<nat>, box: Box, dy: int, region: Region, k: nat)
    requires |h0| == g.Size() && |h2| == g.Size() && box.Inside(g)
    requires Banded(region) && k < |region| && region[k].Height() >= MIN_RUN
    requires forall z: Point :: z in Pixels(region) <==> Matches(g, h0, h2, box, dy, z)
    ensures Shift(g, h0, h2, box, dy, CopyFrom(region[k], dy))
  {
    hide Matches, Pixels;
    RectMatches(g, h0, h2, box, dy, region, k);
  }

  lemma PickedShift(g: Grid, h0: seq<nat>, h2: seq<nat>, box: Box, dy: int, region: Region, kept: seq<Rect>, at: seq<nat>, i: nat)
    requires |h0| == g.Size() && |h2| == g.Size() && box.Inside(g)
    requires Banded(region) && Picked(region, |region|, kept, at)
    requires forall z: Point :: z in Pixels(region) <==> Matches(g, h0, h2, box, dy, z)
    requires i < |kept| && kept[i].Height() >= MIN_RUN
    ensures Shift(g, h0, h2, box, dy, CopyFrom(kept[i], dy))
  {
    hide Matches, Pixels, Banded, Shift;
    assert kept[i] == region[at[i]];
    RectShift(g, h0, h2, box, dy, region, at[i]);
  }

  /** Rectangles in band order, and the copies to them the other way round when the content moves down. */
  lemma CopiesInOrder(kept: seq<Rect>, dy: int)
    requires forall i, j :: 0 <= i < j < |kept| ==> Before(kept[i], kept[j])
    ensures var moves := InCopyOrder(kept, dy);
            && |moves| == |kept|
            && (forall i :: 0 <= i < |moves| ==> moves[i] == CopyFrom(kept[if dy < 0 then |kept| - 1 - i else i], dy))
            && forall i, j :: 0 <= i < j < |moves| ==>
                 if dy < 0 then Before(moves[j].dst, moves[i].dst) else Before(moves[i].dst, moves[j].dst)
  {
    hide Before;
  }

  lemma FoundFrom(g: Grid, h0: seq<nat>, h2: seq<nat>, box: Box, dy: int, region: Region, kept: seq<Rect>, at: seq<nat>)
    requires |h0| == g.Size() && |h2| == g.Size() && box.Inside(g) && dy != 0
    requires Banded(region) && Picked(region, |region|, kept, at)
    requires forall z: Point :: z in Pixels(region) <==> Matches(g, h0, h2, box, dy, z)
    requires forall i :: 0 <= i < |kept| ==> kept[i].Height() >= MIN_RUN
    ensures Found(g, h0, h2, box, dy, InCopyOrder(kept, dy))
  {
    hide Matches, Pixels, Banded, Shift, Picked, Before, Get, InCopyOrder;
    var moves := InCopyOrder(kept, dy);
    PickedInOrder(region, kept, at);
    CopiesInOrder(kept, dy);
    forall i | 0 <= i < |moves| ensures Shift(g, h0, h2, box, dy, moves[i]) {
      PickedShift(g, h0, h2, box, dy, region, kept, at, if dy < 0 then |kept| - 1 - i else i);
    }
  }

  // ---- What the whole pass promises ----

  /** The table a pass starts from: nothing is known of a picture of another size. */
  function Start(g: Grid, h: seq<nat>, p: Picture): seq<nat> {
    var now := Grid(p.width, p.height);
    if g == now then h else seq(now.Size(), _ => UNKNOWN)
  }

  method RemoveFrom(region: Region, rect: Rect, ghost all: iset<Point>) returns (r: Region)
    requires Denotes(region, all)
    ensures Denotes(r, all - rect.Pixels())
  {
    r := Remove(region, rect);
  }

  ghost function ShownPixels(g: Grid, changed: seq<bool>, box: Box): iset<Point>
    requires |changed| == g.Size() && box.Inside(g)
  {
    iset z: Point | Shows(g, changed, box, z)
  }

  lemma WithoutNone(all: iset<Point>, moves: seq<Move>)
    ensures all - Written(moves[..0]) == all
  {
  }

  lemma WithoutNext(all: iset<Point>, moves: seq<Move>, i: nat)
    requires i < |moves|
    ensures all - Written(moves[..i]) - moves[i].dst.Pixels() == all - Written(moves[..i + 1])
  {
    WrittenNext(moves, i);
  }

  lemma WrittenNext(moves: seq<Move>, i: nat)
    requires i < |moves|
    ensures Written(moves[..i + 1]) == Written(moves[..i]) + moves[i].dst.Pixels()
  {
    var s, t := moves[..i], moves[..i + 1];
    forall z: Point ensures z in Written(t) <==> z in Written(s) || z in moves[i].dst.Pixels() {
      if z in Written(s) {
        var k :| 0 <= k < |s| && s[k].dst.Has(z.x, z.y);
        assert t[k] == s[k];
      }
      assert t[i] == moves[i];
    }
  }

  /** Every touched cell lies in the box around the damage. */
  lemma TouchedInBox(g: Grid, damage: Region, k: Cell)
    requires k in Touched(g, damage, |damage|)
    ensures BoxOf(g, Clip(g, Bounds(damage))).Has(k)
  {
    hide Bounds, CellsOf;
    var i :| 0 <= i < |damage| && k in CellsOf(g, Clip(g, damage[i]));
    var r, b := Clip(g, damage[i]), Clip(g, Bounds(damage));
    ClipInPicture(g, damage[i]);
    ClipInPicture(g, Bounds(damage));
    TouchedCells(g, r, k);
    var z: Point :| r.Has(z.x, z.y) && CellOf(z) == k;
    InBounds(damage, i, z.x, z.y);
    assert b.Has(z.x, z.y);
    TouchedCells(g, b, k);
    BoxHolds(g, b, k);
  }

  lemma ClipInPicture(g: Grid, r: Rect)
    ensures var c := Clip(g, r); 0 <= c.x1 && 0 <= c.y1 && c.x2 <= g.width && c.y2 <= g.height
    ensures forall x, y :: Clip(g, r).Has(x, y) <==> r.Has(x, y) && 0 <= x < g.width && 0 <= y < g.height
  {
  }

  lemma InBounds(damage: Region, i: nat, x: int, y: int)
    requires i < |damage| && damage[i].Has(x, y)
    ensures Bounds(damage).Has(x, y)
  {
    hide Bounds;
    assert Bounds(damage).Contains(damage[i]);
  }

  lemma BoxHolds(g: Grid, b: Rect, k: Cell)
    requires b == Clip(g, b) && k in CellsOf(g, b)
    ensures BoxOf(g, b).Has(k)
  {
  }

  /** The marked cells are the touched ones, not followed, whose hash was not the picture's. */
  lemma ShownAreChanged(hash: Hash, g: Grid, p: Picture, h0: seq<nat>, h1: seq<nat>,
                        blank: seq<bool>, changed: seq<bool>, damage: Region, moves: seq<Move>)
    requires GridOf(g, p) && |h0| == g.Size() && |h1| == g.Size() && |changed| == g.Size()
    requires blank == seq(g.Size(), _ => false)
    requires Rehashed(hash, g, p, h0, h1, Touched(g, Dsts(moves), |moves|))
    requires Marked(hash, g, p, h1, blank, changed, Touched(g, damage, |damage|))
    ensures ShownPixels(g, changed, BoxOf(g, Clip(g, Bounds(damage)))) == ChangedPixels(hash, g, p, h0, damage, moves)
  {
    hide CellPixels, Touched, Shows, ChangedPixels, Rehashed, Marked, Bounds;
    var box := BoxOf(g, Clip(g, Bounds(damage)));
    forall z: Point ensures Shows(g, changed, box, z) <==> z in ChangedPixels(hash, g, p, h0, damage, moves) {
      ShownIsChanged(hash, g, p, h0, h1, blank, changed, damage, moves, z);
    }
  }

  lemma ShownIsChanged(hash: Hash, g: Grid, p: Picture, h0: seq<nat>, h1: seq<nat>,
                       blank: seq<bool>, changed: seq<bool>, damage: Region, moves: seq<Move>, z: Point)
    requires GridOf(g, p) && |h0| == g.Size() && |h1| == g.Size() && |changed| == g.Size()
    requires blank == seq(g.Size(), _ => false)
    requires Rehashed(hash, g, p, h0, h1, Touched(g, Dsts(moves), |moves|))
    requires Marked(hash, g, p, h1, blank, changed, Touched(g, damage, |damage|))
    ensures Shows(g, changed, BoxOf(g, Clip(g, Bounds(damage))), z) <==> z in ChangedPixels(hash, g, p, h0, damage, moves)
  {
    hide CellPixels, Touched, Bounds, Clip, BoxOf, CellsOf;
    var k := CellOf(z);
    if g.Has(k) {
      assert !Get(blank, g, k);
      assert Get(changed, g, k) <==> k in Touched(g, damage, |damage|) && Get(h1, g, k) != hash(CellPixels(p, k));
      assert Get(h1, g, k) == if k in Touched(g, Dsts(moves), |moves|) then hash(CellPixels(p, k)) else Get(h0, g, k);
      if k in Touched(g, damage, |damage|) {
        TouchedInBox(g, damage, k);
      }
    }
  }

  /** The pixels of touched cells whose hash was not the picture's, moved blocks excepted. */
  ghost function ChangedPixels(hash: Hash, g: Grid, p: Picture, h0: seq<nat>, damage: Region, moves: seq<Move>): iset<Point>
    requires GridOf(g, p) && |h0| == g.Size()
  {
    iset z: Point |
      && p.Holds(z) && g.Has(CellOf(z))
      && CellOf(z) in Touched(g, damage, |damage|) && CellOf(z) !in Touched(g, Dsts(moves), |moves|)
      && Get(h0, g, CellOf(z)) != hash(CellPixels(p, CellOf(z)))
  }

  function BoxOf(g: Grid, bounds: Rect): (box: Box)
    requires bounds == Clip(g, bounds)
    ensures box.Inside(g)
  {
    Box(bounds.y1, bounds.y2, FirstColumn(bounds), LastColumn(g, bounds))
  }

  /** Detection runs in the box around all of the damage, where it is more than eight rows high. */
  ghost predicate DetectedIn(hash: Hash, g: Grid, p: Picture, h0: seq<nat>, h2: seq<nat>, damage: Region, moves: seq<Move>)
    requires GridOf(g, p) && |h0| == g.Size() && |h2| == g.Size()
  {
    var bounds := Clip(g, Bounds(damage));
    var box := BoxOf(g, bounds);
    if bounds.Height() > 8 && box.first < box.last
    then Detected(g, h0, h2, box, ChangedPixels(hash, g, p, h0, damage, []), moves)
    else moves == []
  }

  lemma CopiedIsFound(g: Grid, h0: seq<nat>, h2: seq<nat>, box: Box, shown: iset<Point>, dy: int, moves: seq<Move>)
    requires |h0| == g.Size() && |h2| == g.Size() && box.Inside(g) && Copied(g, h0, h2, box, shown, dy, moves)
    ensures Found(g, h0, h2, box, dy, moves)
  {
  }

  /** Whatever is detected was found at some one distance. */
  lemma FoundIfAny(hash: Hash, g: Grid, p: Picture, h0: seq<nat>, h2: seq<nat>, damage: Region, moves: seq<Move>) returns (dy: int)
    requires GridOf(g, p) && |h0| == g.Size() && |h2| == g.Size() && DetectedIn(hash, g, p, h0, h2, damage, moves)
    requires moves != []
    ensures Found(g, h0, h2, BoxOf(g, Clip(g, Bounds(damage))), dy, moves)
  {
    hide Found, Elected, NoneElected, Sample, RowsOf, Bounds, ChangedPixels, InBox, Copied;
    var box, shown := BoxOf(g, Clip(g, Bounds(damage))), ChangedPixels(hash, g, p, h0, damage, []);
    var rows, probes :| RowsOf(rows, shown) && Sample(probes, rows) && InBox(probes, box) &&
      exists dy :: Elected(g, h0, h2, box, probes, dy) && Copied(g, h0, h2, box, shown, dy, moves);
    dy :| Elected(g, h0, h2, box, probes, dy) && Copied(g, h0, h2, box, shown, dy, moves);
    CopiedIsFound(g, h0, h2, box, shown, dy, moves);
  }

  /** The box around a rectangle of the picture holds exactly the cells of its rows that lie in
      columns of cells it touches. */
  lemma BoxAround(g: Grid, bounds: Rect, k: Cell)
    requires bounds == Clip(g, bounds) && g.Has(k)
    ensures BoxOf(g, bounds).Has(k) <==> exists z: Point :: bounds.Has(z.x, z.y) && CellOf(z) == k
  {
    TouchedCells(g, bounds, k);
  }

  /** The pass, as a relation between what went in and what came out. */
  ghost predicate TightenedTo(hash: Hash, g: Grid, p: Picture, h0: seq<nat>, h2: seq<nat>,
                              damage: Region, moves: seq<Move>, out: Tightened)
  {
    && GridOf(g, p) && |h0| == g.Size() && |h2| == g.Size()
    && if g.Size() == 0 then out == Tightened([], []) && h2 == h0
       else
         && Rehashed(hash, g, p, h0, h2, Touched(g, Dsts(moves), |moves|) + Touched(g, damage, |damage|))
         && (if moves == [] then DetectedIn(hash, g, p, h0, h2, damage, out.moves) else out.moves == moves)
         && Denotes(out.damage, ChangedPixels(hash, g, p, h0, damage, moves) - Written(out.moves))
  }
}
