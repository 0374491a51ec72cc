/** Runs of a client without CopyRect, where an update may read a framebuffer
    that is ahead of the absorbed events. */
module PixelRuns {
  import opened Geometry
  import opened Regions
  import opened Pictures
  import opened Debts
  import opened PictureRuns

  /** Where client and server differ, the pixel is pending or news of it is on its way. */
  ghost predicate NothingLost(w: World)
    requires w.client.Valid() && w.latest.Valid() && w.client.SameSize(w.latest)
  {
    forall z: Point :: w.client.Holds(z) && w.client.At(z) != w.latest.At(z) ==>
      z in w.debt.pending || Undelivered(w.queue, z)
  }

  ghost predicate PixelInvariant(w: World) {
    && Chained(w) && w.latest.Valid() && w.debt.copies == [] && !w.copyRect
    && (w.client.SameSize(w.latest) ==> NothingLost(w))
  }

  /** Without CopyRect every move is damage. */
  lemma {:induction false} MovesAreDamage(d: Debt, moves: seq<Move>)
    ensures AbsorbMoves(false, d, moves) == Debt(d.pending + Written(moves), d.copies)
  {
    if moves == [] {
      assert d.pending + Written([]) == d.pending;
    } else {
      var n := |moves| - 1;
      MovesAreDamage(d, moves[..n]);
      forall z: Point ensures z in Written(moves) <==> z in Written(moves[..n]) || z in moves[n].dst.Pixels() {
        if z in Written(moves[..n]) {
          var k :| 0 <= k < n && moves[..n][k].dst.Has(z.x, z.y);
          assert moves[k].dst.Has(z.x, z.y);
        }
        if z in Written(moves) {
          var k :| 0 <= k < |moves| && moves[k].dst.Has(z.x, z.y);
          assert k < n ==> moves[..n][k].dst.Has(z.x, z.y);
        }
      }
      assert d.pending + Written(moves[..n]) + moves[n].dst.Pixels() == d.pending + Written(moves);
    }
  }

  lemma CaptureLosesNothing(w: World, c: Change)
    requires w.client.Valid() && Truthful(w.latest, c) && !c.ev.resized
    requires w.client.SameSize(w.latest) && NothingLost(w)
    ensures w.client.SameSize(c.after)
    ensures NothingLost(w.(latest := c.after, queue := w.queue + [c]))
  {
    var w' := w.(latest := c.after, queue := w.queue + [c]);
    forall z: Point | w.client.Holds(z) && w.client.At(z) != c.after.At(z)
      ensures z in w.debt.pending || Undelivered(w'.queue, z)
    {
      assert w'.queue[|w.queue|] == c;
      if Undelivered(w.queue, z) {
        var i :| 0 <= i < |w.queue| && Touches(w.queue[i].ev, z);
        assert w'.queue[i] == w.queue[i];
      } else if !Touches(c.ev, z) {
        ReplayElsewhere(w.latest, c.ev.moves, z);
      }
    }
  }

  lemma AbsorbLosesNothing(w: World, w': World)
    requires PixelInvariant(w) && Next(w, Absorb, w') && w'.client.SameSize(w'.latest)
    requires !w.queue[0].ev.resized ==> NothingLost(w)
    ensures w'.client.Valid() && w'.latest.Valid() && NothingLost(w')
  {
    var c := w.queue[0];
    MovesAreDamage(if c.ev.resized then Whole(w.latest.Bounds()) else w.debt, c.ev.moves);
    forall z: Point | w'.client.Holds(z) && w'.client.At(z) != w'.latest.At(z)
      ensures z in w'.debt.pending || Undelivered(w'.queue, z)
    {
      if !c.ev.resized && z !in w'.debt.pending {
        assert !Touches(c.ev, z);
        var i :| 0 <= i < |w.queue| && Touches(w.queue[i].ev, z);
        assert w'.queue[i - 1] == w.queue[i];
      }
    }
  }

  lemma UpdateLosesNothing(w: World, area: Rect, painted: iset<Point>, w': World)
    requires PixelInvariant(w) && Next(w, Update(area, painted), w')
    requires w'.client.SameSize(w'.latest)
    requires w.client.SameSize(w.latest) ==> NothingLost(w)
    ensures w'.client.Valid() && NothingLost(w') && w'.debt.copies == []
  {
    if w.client.SameSize(w.latest) {
      assert Sendable([], area) == [] && Demoted([], area) == [];
      forall z: Point | w.client.Holds(z) && w'.client.At(z) != w.latest.At(z)
        ensures z in w'.debt.pending || Undelivered(w.queue, z)
      {
        assert z !in painted;
        assert z in w.debt.pending ==> z in Owed(w.debt, area);
      }
    }
  }

  /** Without CopyRect no step queues a copy. */
  lemma NothingQueued(w: World, s: Step, w': World)
    requires w.debt.copies == [] && !w.copyRect && Next(w, s, w')
    requires !(s.Encodings? && s.copyRect)
    ensures w'.debt.copies == [] && !w'.copyRect
  {
    hide Truthful, Shown, Owed, Picture.Valid, Pixels;
    if s.Absorb? {
      MovesAreDamage(if w.queue[0].ev.resized then Whole(w.latest.Bounds()) else w.debt, w.queue[0].ev.moves);
    }
  }

  lemma PixelStep(w: World, s: Step, w': World)
    requires PixelInvariant(w) && Next(w, s, w')
    requires !(s.Encodings? && s.copyRect)
    ensures PixelInvariant(w')
  {
    StaysChained(w, s, w');
    ChainedLatest(w');
    NothingQueued(w, s, w');
    if w'.client.SameSize(w'.latest) {
      if Settled(w') {
        SettledLosesNothing(w, s, w');
      } else {
        ResizeLosesNothing(w');
      }
    }
  }

  /** With a change of size on its way, news of every pixel is. */
  lemma ResizeLosesNothing(w: World)
    requires w.client.Valid() && w.latest.Valid() && w.client.SameSize(w.latest) && !Settled(w)
    ensures NothingLost(w)
  {
    var i :| 0 <= i < |w.queue| && w.queue[i].ev.resized;
    assert forall z: Point :: Touches(w.queue[i].ev, z);
  }

  lemma KeepsSize(before: Picture, c: Change)
    requires Truthful(before, c)
    ensures c.ev.resized || before.SameSize(c.after)
  {
  }

  lemma SettledLosesNothing(w: World, s: Step, w': World)
    requires PixelInvariant(w) && Next(w, s, w') && Settled(w')
    requires w'.client.Valid() && w'.latest.Valid() && w'.client.SameSize(w'.latest)
    ensures NothingLost(w')
  {
    hide Chained, Undelivered, Shown, Owed, AfterUpdate, Truthful, Explained, Picture.At, Picture.Valid;
    if !s.Absorb? && !s.Lag? {
      SettledBefore(w, s, w');
    }
    match s {
      case Capture(c) =>
        assert w'.queue[|w.queue|] == c;
        KeepsSize(w.latest, c);
        CaptureLosesNothing(w, c);
      case Absorb =>
        SettledTail(w, w');
        AbsorbLosesNothing(w, w');
      case Lag(_) =>
      case Request(_, _) =>
      case Encodings(_) =>
      case Update(area, painted) => UpdateLosesNothing(w, area, painted, w');
    }
  }

  lemma SettledTail(w: World, w': World)
    requires Next(w, Absorb, w') && Settled(w')
    ensures !w.queue[0].ev.resized ==> Settled(w)
  {
    forall i | 1 <= i < |w.queue| ensures !w.queue[i].ev.resized {
      assert w'.queue[i - 1] == w.queue[i];
    }
  }

  lemma InitialPixels(w: World)
    requires Initial(w)
    ensures PixelInvariant(w)
  {
    hide Truthful, Undelivered;
    forall z: Point | w.client.Holds(z) ensures z in w.debt.pending {
    }
  }

  /** In every run of a client that never lists CopyRect, whatever the updates
      read and however far the session lags: a pixel where client and server
      differ is pending, or news of it is still queued, a change of size being
      news of every pixel. A client of another size is owed a resize instead. */
  lemma {:induction false} PixelRun(ws: seq<World>, steps: seq<Step>, i: nat)
    requires Run(ws, steps) && i < |ws|
    requires forall k :: 0 <= k < |steps| ==> !(steps[k].Encodings? && steps[k].copyRect)
    ensures PixelInvariant(ws[i])
  {
    hide PixelInvariant, Next, Initial;
    if i == 0 {
      InitialPixels(ws[0]);
    } else {
      PixelRun(ws, steps, i - 1);
      PixelStep(ws[i - 1], steps[i - 1], ws[i]);
    }
  }

  /** Once everything is absorbed and nothing is pending the pictures are equal. */
  lemma QuietIsEqual(ws: seq<World>, steps: seq<Step>, i: nat)
    requires Run(ws, steps) && i < |ws|
    requires forall k :: 0 <= k < |steps| ==> !(steps[k].Encodings? && steps[k].copyRect)
    requires ws[i].queue == [] && ws[i].debt.pending == iset{} && ws[i].client.SameSize(ws[i].latest)
    ensures ws[i].client == ws[i].latest
  {
    PixelRun(ws, steps, i);
    Same(ws[i].client, ws[i].latest);
  }
}
