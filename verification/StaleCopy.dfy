/** Why the update of a client with CopyRect has to read the picture of the last
    absorbed event: a run of ten steps in which one update reads ahead, and the
    client is left wrong with nothing owed to it. */
module StaleCopy {
  import opened Geometry
  import opened Regions
  import opened Pictures
  import opened Debts
  import opened PictureRuns

  const A := Pixel(1, 0, 0, 0)
  const B := Pixel(2, 0, 0, 0)
  const X := Pixel(3, 0, 0, 0)
  const Y := Pixel(4, 0, 0, 0)

  const WHOLE := Rect(0, 0, 1, 2)
  const BOTTOM := Rect(0, 1, 1, 2)
  const UP := Move(0, 1, Rect(0, 0, 1, 1))

  /** A picture one pixel wide and two high. */
  function Two(top: Pixel, bottom: Pixel): (p: Picture)
    ensures p.Valid()
  {
    Picture(1, 2, [[top], [bottom]])
  }

  /** The bottom pixel is drawn, moved up, and drawn again. */
  const DREW := Change(Event([BOTTOM], [], false, false), Two(A, X))
  const MOVED := Change(Event([], [UP], false, false), Two(X, X))
  const REDREW := Change(Event([BOTTOM], [], false, false), Two(X, Y))

  ghost const NONE: Debt := Debt(iset{}, [])

  lemma Points(z: Point)
    ensures z in WHOLE.Pixels() <==> z == Point(0, 0) || z == Point(0, 1)
    ensures z in BOTTOM.Pixels() <==> z == Point(0, 1)
  {
  }

  lemma OneRect(r: Rect)
    ensures Pixels([r]) == r.Pixels()
  {
    forall z: Point ensures z in Pixels([r]) <==> z in r.Pixels() {
      assert [r][0] == r;
    }
  }

  lemma NoRects()
    ensures Pixels([]) == iset{} && Written([]) == iset{}
  {
  }

  lemma TwoAt(p: Pixel, q: Pixel)
    ensures Two(p, q).At(Point(0, 0)) == p && Two(p, q).At(Point(0, 1)) == q
    ensures forall z: Point :: Two(p, q).Holds(z) <==> z in WHOLE.Pixels()
  {
  }

  /** All three events are what the compare pass may report. */
  lemma AllTruthful()
    ensures Truthful(Two(A, B), DREW) && Truthful(Two(A, X), MOVED) && Truthful(Two(X, X), REDREW)
  {
    DrawnTruthful(A, B, X, DREW);
    DrawnTruthful(X, X, Y, REDREW);
    NoRects();
    CopyUp(A, X);
  }

  lemma CopyUp(top: Pixel, bottom: Pixel)
    ensures AllFit(Two(top, bottom), [UP])
    ensures Replay(Two(top, bottom), [UP]) == Two(bottom, bottom)
  {
    var p := Two(top, bottom);
    assert [UP][..0] == [];
    CopyUpBlock(top, bottom, CopyBlock(p, UP));
  }

  lemma CopyUpBlock(top: Pixel, bottom: Pixel, q: Picture)
    requires q == CopyBlock(Two(top, bottom), UP)
    ensures q == Two(bottom, bottom)
  {
    hide Picture.At, CopyBlock, Build, Two, Picture.Fits;
    CopyUpPixels(top, bottom, q);
    IsTwo(q, bottom, bottom);
  }

  lemma CopyUpPixels(top: Pixel, bottom: Pixel, q: Picture)
    requires q == CopyBlock(Two(top, bottom), UP)
    ensures q.Valid() && q.width == 1 && q.height == 2
    ensures q.At(Point(0, 0)) == bottom && q.At(Point(0, 1)) == bottom
  {
    hide Build, CopyBlock, Picture.At;
    CopyUpPixel(top, bottom, Point(0, 0));
    CopyUpPixel(top, bottom, Point(0, 1));
  }

  lemma CopyUpPixel(top: Pixel, bottom: Pixel, z: Point)
    requires z == Point(0, 0) || z == Point(0, 1)
    ensures CopyBlock(Two(top, bottom), UP).At(z) == bottom
  {
    hide Build, CopyBlock, Picture.At;
    TwoAt(top, bottom);
  }

  lemma IsTwo(q: Picture, top: Pixel, bottom: Pixel)
    requires q.Valid() && q.width == 1 && q.height == 2
    requires q.At(Point(0, 0)) == top && q.At(Point(0, 1)) == bottom
    ensures q == Two(top, bottom)
  {
    assert q.rows[0] == [top] && q.rows[1] == [bottom];
  }

  lemma DrawnTruthful(top: Pixel, bottom: Pixel, ink: Pixel, c: Change)
    requires c == Change(Event([BOTTOM], [], false, false), Two(top, ink))
    ensures Truthful(Two(top, bottom), c)
  {
    OneRect(BOTTOM);
    TwoAt(top, bottom);
    TwoAt(top, ink);
    forall z: Point | c.after.Holds(z) && z !in Pixels(c.ev.damage)
      ensures c.after.At(z) == Replay(Two(top, bottom), []).At(z)
    {
      Points(z);
    }
  }

  // ---- What each absorbed event leaves owing ----

  lemma AbsorbDrawn(d: Debt, c: Change)
    requires c == DREW || c == REDREW
    ensures AbsorbEvent(true, d, c.ev, WHOLE) == Debt(d.pending + BOTTOM.Pixels(), d.copies)
  {
    OneRect(BOTTOM);
  }

  lemma AbsorbMoved()
    ensures AbsorbEvent(true, NONE, MOVED.ev, WHOLE) == Debt(iset{}, [UP])
  {
    NoRects();
    assert [UP][..0] == [];
    assert AbsorbMoves(true, NONE, [UP][..0]) == NONE;
    assert Clean(true, NONE, UP);
    assert iset{} - UP.dst.Pixels() == iset{};
    assert AbsorbMoves(true, NONE, [UP]) == Debt(iset{}, [UP]);
  }

  lemma UpdateWhole(d: Debt)
    requires d.copies == [] || d.copies == [UP]
    requires d.pending <= WHOLE.Pixels()
    ensures Sendable(d.copies, WHOLE) == d.copies && Owed(d, WHOLE) == d.pending
    ensures AfterUpdate(d, WHOLE) == NONE
  {
    NoRects();
    assert [UP][..0] == [] && Sendable([], WHOLE) == [] && Demoted([], WHOLE) == [];
    assert WHOLE.Contains(UP.dst);
    assert Demoted(d.copies, WHOLE) == [];
    assert d.pending + iset{} == d.pending;
  }

  /** The bottom row of one picture over another. */
  lemma PaintBottom(top: Pixel, bottom: Pixel, over: Pixel, ink: Pixel)
    ensures Paint(Two(top, bottom), Two(over, ink), BOTTOM.Pixels()) == Two(top, ink)
    ensures Paint(Two(top, bottom), Two(top, bottom), WHOLE.Pixels()) == Two(top, bottom)
  {
    TwoAt(top, bottom);
    TwoAt(over, ink);
    TwoAt(top, ink);
    var p := Paint(Two(top, bottom), Two(over, ink), BOTTOM.Pixels());
    forall z: Point | p.Holds(z) ensures p.At(z) == Two(top, ink).At(z) {
      Points(z);
    }
    Same(p, Two(top, ink));
    Same(Paint(Two(top, bottom), Two(top, bottom), WHOLE.Pixels()), Two(top, bottom));
  }

  // ---- The run ----

  ghost function Worlds(): seq<World> {
    var start := World(Two(A, B), Two(A, B), [], Two(A, B), Whole(WHOLE), false);
    var shown := start.(copyRect := true, debt := NONE);
    [ start,
      start.(copyRect := true),
      shown,
      shown.(latest := Two(A, X), queue := [DREW]),
      shown.(latest := Two(X, X), queue := [DREW, MOVED]),
      shown.(latest := Two(X, Y), queue := [DREW, MOVED, REDREW]),
      World(Two(X, Y), Two(A, X), [MOVED, REDREW], Two(A, B), Debt(BOTTOM.Pixels(), []), true),
      World(Two(X, Y), Two(A, X), [MOVED, REDREW], Two(A, Y), NONE, true),
      World(Two(X, Y), Two(X, X), [REDREW], Two(A, Y), Debt(iset{}, [UP]), true),
      World(Two(X, Y), Two(X, Y), [], Two(A, Y), Debt(BOTTOM.Pixels(), [UP]), true),
      World(Two(X, Y), Two(X, Y), [], Two(Y, Y), NONE, true) ]
  }

  ghost function Steps(): seq<Step> {
    [ Encodings(true),
      Update(WHOLE, WHOLE.Pixels()),
      Capture(DREW), Capture(MOVED), Capture(REDREW),
      Absorb,
      Update(WHOLE, BOTTOM.Pixels()),
      Absorb, Absorb,
      Update(WHOLE, BOTTOM.Pixels()) ]
  }

  lemma CapturesStep(i: nat)
    requires 2 <= i <= 4
    ensures Next(Worlds()[i], Steps()[i], Worlds()[i + 1])
  {
    AllTruthful();
    hide Truthful;
    assert [DREW] + [MOVED] == [DREW, MOVED] && [DREW, MOVED] + [REDREW] == [DREW, MOVED, REDREW];
  }

  lemma AbsorbsStep(i: nat)
    requires i == 5 || i == 7 || i == 8
    ensures Next(Worlds()[i], Steps()[i], Worlds()[i + 1])
  {
    AbsorbDrawn(NONE, DREW);
    AbsorbMoved();
    AbsorbDrawn(Debt(iset{}, [UP]), REDREW);
    assert iset{} + BOTTOM.Pixels() == BOTTOM.Pixels();
    assert Two(X, Y).Bounds() == WHOLE;
    hide AbsorbEvent, Whole;
    assert Worlds()[i].queue[1..] == Worlds()[i + 1].queue;
  }

  lemma FirstUpdate()
    ensures Next(Worlds()[1], Steps()[1], Worlds()[2])
  {
    UpdateWhole(Whole(WHOLE));
    PaintBottom(A, B, A, B);
  }

  lemma BottomInWhole()
    ensures BOTTOM.Pixels() <= WHOLE.Pixels()
    ensures BOTTOM.Pixels() * WHOLE.Pixels() == BOTTOM.Pixels()
  {
  }

  /** The update that reads ahead: the row is painted from a picture two events later. */
  lemma AheadUpdate()
    ensures Next(Worlds()[6], Steps()[6], Worlds()[7])
  {
    BottomInWhole();
    UpdateWhole(Debt(BOTTOM.Pixels(), []));
    PaintBottom(A, B, X, Y);
  }

  /** The copy then moves up what should never have been there yet. */
  lemma LastUpdate()
    ensures Next(Worlds()[9], Steps()[9], Worlds()[10])
  {
    BottomInWhole();
    UpdateWhole(Debt(BOTTOM.Pixels(), [UP]));
    CopyUp(A, Y);
    PaintBottom(Y, Y, X, Y);
  }

  /** Everything absorbed, nothing owed, and still the wrong picture. */
  ghost predicate Stranded(w: World) {
    && w.queue == [] && w.debt == NONE && w.absorbed == w.latest
    && w.client.SameSize(w.latest) && w.client != w.latest
  }

  ghost predicate GuardedBut(ws: seq<World>, steps: seq<Step>, one: nat)
    requires |ws| == |steps| + 1
  {
    forall k :: 0 <= k < |steps| && k != one ==> Guarded(ws[k], steps[k])
  }

  /** A run, all of whose updates but one read the absorbed picture, strands its client. */
  lemma ReadingAheadStrands()
    ensures exists ws, steps :: Run(ws, steps) && Stranded(ws[|steps|]) && GuardedBut(ws, steps, 6)
  {
    var ws, steps := Worlds(), Steps();
    forall i | 0 <= i < 10 ensures Next(ws[i], steps[i], ws[i + 1]) {
      StepHolds(i);
    }
    assert Two(Y, Y).rows != Two(X, Y).rows by {
      assert Two(Y, Y).rows[0][0] != Two(X, Y).rows[0][0];
    }
    hide Next;
    assert Run(ws, steps) && Stranded(ws[10]) && GuardedBut(ws, steps, 6);
  }

  lemma StepHolds(i: nat)
    requires i < 10
    ensures Next(Worlds()[i], Steps()[i], Worlds()[i + 1])
  {
    if i == 1 {
      FirstUpdate();
    } else if 2 <= i <= 4 {
      CapturesStep(i);
    } else if i == 6 {
      AheadUpdate();
    } else if i == 9 {
      LastUpdate();
    } else if i > 0 {
      AbsorbsStep(i);
    }
  }
}
