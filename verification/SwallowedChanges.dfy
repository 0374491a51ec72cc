/** Two frames with a reported move whose events leave a pixel out: one changed
    beside the moved block in the same hash cell, one drawn over the moved block. */
module SwallowedChanges {
  import opened Geometry
  import opened Regions
  import opened PixelSets
  import opened Pictures
  import opened Cells
  import opened Boxes
  import opened Tighteners
  import opened TightenReplay

  const A := Pixel(1, 0, 0, 0)
  const B := Pixel(2, 0, 0, 0)
  const X := Pixel(3, 0, 0, 0)

  /** Tells every cell of these pictures from the others. */
  function Number(ps: seq<Pixel>): nat {
    if ps == [A, B] then 1 else if ps == [X, A] then 2 else if ps == [A] then 3 else if ps == [B] then 4 else 5
  }

  lemma OneMove(p: Picture, m: Move)
    requires p.Valid() && p.Fits(m)
    ensures AllFit(p, [m]) && Replay(p, [m]) == CopyBlock(p, m)
    ensures forall z: Point :: z in Written([m]) <==> m.dst.Has(z.x, z.y)
  {
    assert [m][..0] == [];
    assert [m][0] == m;
  }

  lemma MovedPixel(p: Picture, m: Move, z: Point)
    requires p.Valid() && p.Fits(m) && p.Holds(z) && m.dst.Has(z.x, z.y)
    ensures AllFit(p, [m]) && p.Holds(m.Origin(z)) && Replay(p, [m]).At(z) == p.At(m.Origin(z))
  {
    hide Replay;
    OneMove(p, m);
    InsideOrigin(p, m, z);
  }

  /** A move of one pixel is true exactly when the pixel shows what its source showed. */
  lemma OnePixelTrue(p: Picture, q: Picture, m: Move, at: Point)
    requires p.Valid() && q.Valid() && p.SameSize(q) && p.Fits(m) && m.dst == Rect(at.x, at.y, at.x + 1, at.y + 1)
    ensures AllFit(p, [m]) && p.Holds(at) && p.Holds(Point(m.srcX, m.srcY))
    ensures MovesTrue(p, q, [m]) <==> p.At(Point(m.srcX, m.srcY)) == q.At(at)
  {
    hide Replay, CopyBlock, Picture.At, Picture.Valid;
    OneMove(p, m);
    MovedPixel(p, m, at);
    assert m.Origin(at) == Point(m.srcX, m.srcY);
    forall z: Point | m.dst.Has(z.x, z.y) ensures z == at {
    }
  }

  lemma OneRect(g: Grid, r: Rect, k: Cell)
    ensures k in Touched(g, [r], 1) <==> k in CellsOf(g, Clip(g, r))
    ensures Pixels([r]) == r.Pixels() && Pixels([]) == iset{}
  {
    assert [r][0] == r;
  }

  lemma OneDst(m: Move)
    ensures Dsts([m]) == [m.dst]
  {
  }

  // ---- Beside the block ----

  const ROW := Grid(2, 1)
  const WAS := Picture(2, 1, [[A, B]])
  const NOW := Picture(2, 1, [[X, A]])
  const RIGHT := Move(0, 0, Rect(1, 0, 2, 1))
  const FIRST := Rect(0, 0, 1, 1)

  lemma RowCells(k: Cell)
    ensures ROW.Size() == 1
    ensures ROW.Has(k) <==> k == Cell(0, 0)
    ensures ROW.Has(k) ==> CellPixels(WAS, k) == [A, B] && CellPixels(NOW, k) == [X, A] && ROW.Index(k) == 0
    ensures k == Cell(0, 0) ==> k in Touched(ROW, [FIRST], 1) && k in Touched(ROW, Dsts([RIGHT]), 1)
  {
    OneRect(ROW, FIRST, k);
    OneRect(ROW, RIGHT.dst, k);
    OneDst(RIGHT);
    assert WAS.rows[0][0..2] == [A, B] && NOW.rows[0][0..2] == [X, A];
  }

  lemma RowFrame()
    ensures Frame(Number, ROW, WAS, NOW, [1], [2], [FIRST], [RIGHT], Tightened([], [RIGHT]))
  {
    hide CellPixels, Touched, Grid.Size, Grid.Cols, Grid.Index, CellOf;
    forall k: Cell ensures ROW.Has(k) ==> k == Cell(0, 0) {
      RowCells(k);
    }
    RowCells(Cell(0, 0));
    OneMove(WAS, RIGHT);
    OneRect(ROW, FIRST, Cell(0, 0));
    assert [A, B] != [X, A];
    assert Denotes([], ChangedPixels(Number, ROW, NOW, [1], [FIRST], [RIGHT]) - Written([RIGHT])) by {
      assert forall z: Point :: z !in ChangedPixels(Number, ROW, NOW, [1], [FIRST], [RIGHT]);
    }
    assert Rehashed(Number, ROW, NOW, [1], [2], Touched(ROW, Dsts([RIGHT]), 1) + Touched(ROW, [FIRST], 1));
  }

  lemma RowMoves()
    ensures AllFit(WAS, [RIGHT]) && MovesTrue(WAS, NOW, [RIGHT])
  {
    hide MovesTrue, Picture.At;
    OnePixelTrue(WAS, NOW, RIGHT, Point(1, 0));
    RowAt();
  }

  lemma RowAt()
    ensures WAS.At(Point(0, 0)) == A == NOW.At(Point(1, 0)) && NOW.At(Point(0, 0)) == X
  {
  }

  lemma RowSwallows()
    ensures !NothingSwallowed(ROW, WAS, NOW, [RIGHT])
  {
    hide Touched;
    var z := Point(0, 0);
    RowCells(CellOf(z));
    OneMove(WAS, RIGHT);
    assert WAS.At(z) == A && NOW.At(z) == X;
  }

  /** The second pixel shows what the first showed, and the first is drawn anew:
      the move is true, and the drawing is never sent. */
  lemma NeighbourSwallowed()
    ensures Frame(Number, ROW, WAS, NOW, [1], [2], [FIRST], [RIGHT], Tightened([], [RIGHT]))
    ensures MovesTrue(WAS, NOW, [RIGHT]) && !NothingSwallowed(ROW, WAS, NOW, [RIGHT])
    ensures Paint(Replay(WAS, [RIGHT]), NOW, Pixels([])) != NOW
  {
    hide Frame, Replay, MovesTrue, NothingSwallowed, Pixels, Picture.Valid;
    RowFrame();
    RowMoves();
    RowSwallows();
    ReportedReplayIff(Number, ROW, WAS, NOW, [1], [2], [FIRST], [RIGHT], Tightened([], [RIGHT]));
  }

  // ---- Over the block ----

  const COLUMN := Grid(1, 2)
  const BEFORE := Picture(1, 2, [[A], [B]])
  const AFTER := Picture(1, 2, [[X], [B]])
  const UP := Move(0, 1, Rect(0, 0, 1, 1))

  lemma ColumnCells(k: Cell)
    ensures COLUMN.Size() == 2
    ensures COLUMN.Has(k) <==> k == Cell(0, 0) || k == Cell(1, 0)
    ensures COLUMN.Has(k) ==> COLUMN.Index(k) == k.y
  {
  }

  lemma ColumnPixels()
    ensures COLUMN.Has(Cell(0, 0)) && COLUMN.Has(Cell(1, 0))
    ensures CellPixels(BEFORE, Cell(0, 0)) == [A] && CellPixels(AFTER, Cell(0, 0)) == [X]
    ensures CellPixels(BEFORE, Cell(1, 0)) == [B] == CellPixels(AFTER, Cell(1, 0))
  {
    assert BEFORE.rows[0][0..1] == [A] && AFTER.rows[0][0..1] == [X];
    assert BEFORE.rows[1][0..1] == [B] && AFTER.rows[1][0..1] == [B];
  }

  lemma ColumnTouched(k: Cell)
    ensures COLUMN.Has(k) ==> (k in Touched(COLUMN, [FIRST], 1) <==> k == Cell(0, 0))
    ensures Dsts([UP]) == [FIRST]
  {
    OneRect(COLUMN, FIRST, k);
    OneDst(UP);
  }

  lemma ColumnFrame()
    ensures Frame(Number, COLUMN, BEFORE, AFTER, [3, 4], [5, 4], [FIRST], [UP], Tightened([], [UP]))
  {
    hide CellPixels, Touched, Grid.Size, Grid.Cols, Grid.Index, Grid.Has, CellOf, CellsOf, Replay, Picture.At;
    forall k: Cell
      ensures COLUMN.Has(k) ==> k == Cell(0, 0) || k == Cell(1, 0)
      ensures COLUMN.Has(k) ==> COLUMN.Index(k) == k.y && (k in Touched(COLUMN, [FIRST], 1) <==> k == Cell(0, 0))
    {
      ColumnCells(k);
      ColumnTouched(k);
    }
    ColumnCells(Cell(0, 0));
    ColumnPixels();
    ColumnTouched(Cell(0, 0));
    ColumnCovered();
    OneMove(BEFORE, UP);
    assert [A] != [B] && [A] != [X] && [B] != [X];
    ColumnSilent();
    assert Rehashed(Number, COLUMN, AFTER, [3, 4], [5, 4], Touched(COLUMN, Dsts([UP]), 1) + Touched(COLUMN, [FIRST], 1));
  }

  lemma ColumnCovered()
    ensures Covers(BEFORE, AFTER, [FIRST], [UP])
  {
    OneRect(COLUMN, FIRST, Cell(0, 0));
  }

  lemma ColumnSilent()
    ensures COLUMN.Size() == 2
    ensures Denotes([], ChangedPixels(Number, COLUMN, AFTER, [3, 4], [FIRST], [UP]) - Written([UP]))
  {
    hide CellPixels, Touched;
    ColumnCells(Cell(0, 0));
    ColumnTouched(Cell(0, 0));
    OneRect(COLUMN, FIRST, Cell(0, 0));
    assert forall z: Point :: z !in ChangedPixels(Number, COLUMN, AFTER, [3, 4], [FIRST], [UP]);
  }

  lemma ColumnMoves()
    ensures AllFit(BEFORE, [UP]) && !MovesTrue(BEFORE, AFTER, [UP])
  {
    hide MovesTrue, Picture.At;
    OnePixelTrue(BEFORE, AFTER, UP, Point(0, 0));
    ColumnAt();
  }

  lemma ColumnAt()
    ensures BEFORE.At(Point(0, 1)) == B && AFTER.At(Point(0, 0)) == X
  {
  }

  lemma ColumnAligned()
    ensures Aligned(COLUMN, UP.dst) && NothingSwallowed(COLUMN, BEFORE, AFTER, [UP])
  {
    hide Touched;
    OneMove(BEFORE, UP);
    AlignedSwallowsNothing(COLUMN, BEFORE, AFTER, [UP]);
  }

  /** A whole cell moves up and is drawn over in the same frame: nothing beside it
      is swallowed, and the drawing is never sent. */
  lemma DrawnOverSwallowed()
    ensures Frame(Number, COLUMN, BEFORE, AFTER, [3, 4], [5, 4], [FIRST], [UP], Tightened([], [UP]))
    ensures Aligned(COLUMN, UP.dst) && NothingSwallowed(COLUMN, BEFORE, AFTER, [UP]) && !MovesTrue(BEFORE, AFTER, [UP])
    ensures Paint(Replay(BEFORE, [UP]), AFTER, Pixels([])) != AFTER
  {
    hide Frame, Replay, MovesTrue, NothingSwallowed, Pixels, Picture.Valid;
    ColumnFrame();
    ColumnMoves();
    ColumnAligned();
    ReportedReplayIff(Number, COLUMN, BEFORE, AFTER, [3, 4], [5, 4], [FIRST], [UP], Tightened([], [UP]));
  }
}
