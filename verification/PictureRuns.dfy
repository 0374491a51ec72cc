/** Whole runs of one session: frames captured, events absorbed or lost to lag,
    areas asked for, updates sent. The framebuffer may be ahead of the events. */
module PictureRuns {
  import opened Geometry
  import opened Regions
  import opened Pictures
  import opened Debts

  /** A captured frame: its news, and the picture once it is in. */
  datatype Change = Change(ev: Event, after: Picture)

  /** latest is the framebuffer; absorbed is the picture of the last event the
      session took in; queue holds the events in between. */
  datatype World = World(latest: Picture, absorbed: Picture, queue: seq<Change>,
                         client: Picture, debt: Debt, copyRect: bool)

  datatype Step =
    | Capture(change: Change)
    | Absorb
    | Lag(skipped: nat)
    | Request(rect: Rect, incremental: bool)
    | Encodings(copyRect: bool)
    | Update(area: Rect, painted: iset<Point>)

  /** What the compare pass guarantees of an event: the moves, then the damage
      from the new picture, turn the old picture into the new one. */
  ghost predicate Truthful(before: Picture, c: Change) {
    && before.Valid() && c.after.Valid()
    && Pixels(c.ev.damage) <= c.after.Bounds().Pixels()
    && AllFit(c.after, c.ev.moves) && (forall i :: 0 <= i < |c.ev.moves| ==> !c.ev.moves[i].dst.IsEmpty())
    && (!c.ev.resized ==> before.SameSize(c.after) && Explained(before, c))
  }

  ghost predicate Explained(before: Picture, c: Change)
    requires before.Valid() && c.after.Valid() && before.SameSize(c.after) && AllFit(c.after, c.ev.moves)
  {
    assert AllFit(before, c.ev.moves);
    forall z: Point :: c.after.Holds(z) && z !in Pixels(c.ev.damage) ==>
      c.after.At(z) == Replay(before, c.ev.moves).At(z)
  }

  /** The client's picture after an update's copies, then its pixels. */
  ghost predicate Shown(w: World, area: Rect, painted: iset<Point>, client': Picture)
    requires w.client.Valid() && w.latest.Valid() && w.client.SameSize(w.latest)
  {
    && client'.Valid() && client'.SameSize(w.client)
    && (AllFit(w.client, Sendable(w.debt.copies, area)) ==>
         client' == Paint(Replay(w.client, Sendable(w.debt.copies, area)), w.latest, painted))
  }

  ghost predicate Next(w: World, s: Step, w': World) {
    match s
    case Capture(c) =>
      Truthful(w.latest, c) && w' == w.(latest := c.after, queue := w.queue + [c])
    case Absorb =>
      && w.queue != []
      && w' == w.(absorbed := w.queue[0].after, queue := w.queue[1..],
                  debt := AbsorbEvent(w.copyRect, w.debt, w.queue[0].ev, w.latest.Bounds()))
    case Lag(n) =>
      && 0 < n <= |w.queue|
      && w' == w.(absorbed := w.queue[n - 1].after, queue := w.queue[n..], debt := Whole(w.latest.Bounds()))
    case Request(r, incremental) =>
      w' == w.(debt := if incremental then w.debt
                       else w.debt.(pending := w.debt.pending + r.Intersection(w.latest.Bounds()).Pixels()))
    case Encodings(copyRect) =>
      w' == w.(copyRect := copyRect)
    case Update(area, painted) =>
      if !w.client.Valid() || !w.latest.Valid() || !w.client.SameSize(w.latest) then
        && w'.client.Valid() && w'.client.SameSize(w.latest)
        && w' == w.(client := w'.client, debt := Whole(w.latest.Bounds()))
      else
        && Owed(w.debt, area) * area.Pixels() <= painted <= area.Pixels()
        && Shown(w, area, painted, w'.client)
        && w' == w.(client := w'.client, debt := AfterUpdate(w.debt, area))
  }

  /** A session starts with everything owed and nothing queued. */
  ghost predicate Initial(w: World) {
    && w.latest.Valid() && w.client.Valid()
    && w.absorbed == w.latest && w.queue == [] && !w.copyRect
    && w.debt == Whole(w.client.Bounds())
  }

  ghost predicate Run(ws: seq<World>, steps: seq<Step>) {
    && |ws| == |steps| + 1 && Initial(ws[0])
    && forall i :: 0 <= i < |steps| ==> Next(ws[i], steps[i], ws[i + 1])
  }

  // ---- The queue ----

  /** The picture before the i-th queued change. */
  function PictureBefore(w: World, i: nat): Picture
    requires i <= |w.queue|
  {
    if i == 0 then w.absorbed else w.queue[i - 1].after
  }

  ghost predicate Chained(w: World) {
    && w.absorbed.Valid() && w.client.Valid()
    && (forall i :: 0 <= i < |w.queue| ==> Truthful(PictureBefore(w, i), w.queue[i]))
    && w.latest == PictureBefore(w, |w.queue|)
  }

  /** No change of size is still to be delivered. */
  ghost predicate Settled(w: World) {
    forall i :: 0 <= i < |w.queue| ==> !w.queue[i].ev.resized
  }

  lemma {:induction false} SettledSize(w: World, i: nat)
    requires Chained(w) && Settled(w) && i <= |w.queue|
    ensures PictureBefore(w, i).Valid() && PictureBefore(w, i).SameSize(w.absorbed)
  {
    hide Truthful;
    if i > 0 {
      SettledSize(w, i - 1);
      SettledStep(w, i - 1);
    }
  }

  lemma SettledStep(w: World, i: nat)
    requires Chained(w) && Settled(w) && i < |w.queue|
    ensures w.queue[i].after.Valid() && PictureBefore(w, i).SameSize(w.queue[i].after)
  {
    assert Truthful(PictureBefore(w, i), w.queue[i]);
  }

  /** How many queued changes a step delivers or skips. */
  function Taken(w: World, s: Step): nat {
    match s
    case Absorb => if w.queue == [] then 0 else 1
    case Lag(n) => if n <= |w.queue| then n else 0
    case _ => 0
  }

  lemma QueueMoves(w: World, s: Step, w': World)
    requires Next(w, s, w')
    ensures Taken(w, s) <= |w.queue|
    ensures w'.queue == w.queue[Taken(w, s)..] + if s.Capture? then [s.change] else []
    ensures w'.absorbed == PictureBefore(w, Taken(w, s))
    ensures w'.latest == if s.Capture? then s.change.after else w.latest
    ensures s.Capture? ==> Truthful(w.latest, s.change)
    ensures w.client.Valid() && w.latest.Valid() ==> w'.client.Valid()
  {
    hide Truthful, Owed, Sendable, AfterUpdate, Picture.Valid;
  }

  lemma StaysChained(w: World, s: Step, w': World)
    requires Chained(w) && Next(w, s, w')
    ensures Chained(w')
  {
    hide Truthful, Next, Picture.Valid;
    QueueMoves(w, s, w');
    ChainedLatest(w);
    var t := Taken(w, s);
    ShiftBefore(w, s, w', t);
    assert t > 0 ==> Truthful(PictureBefore(w, t - 1), w.queue[t - 1]);
    forall i | 0 <= i < |w'.queue| ensures Truthful(PictureBefore(w', i), w'.queue[i]) {
      if i + t < |w.queue| {
        assert Truthful(PictureBefore(w, i + t), w.queue[i + t]);
      }
    }
    TruthfulValid(w, t);
    LatestBefore(w, s, w', t);
  }

  lemma LatestBefore(w: World, s: Step, w': World, t: nat)
    requires t <= |w.queue| && w.latest == PictureBefore(w, |w.queue|) && w'.absorbed == PictureBefore(w, t)
    requires w'.queue == w.queue[t..] + if s.Capture? then [s.change] else []
    requires w'.latest == if s.Capture? then s.change.after else w.latest
    ensures w'.latest == PictureBefore(w', |w'.queue|)
  {
    ShiftBefore(w, s, w', t);
  }

  lemma TruthfulValid(w: World, t: nat)
    requires Chained(w) && t <= |w.queue|
    ensures PictureBefore(w, t).Valid()
  {
    if t > 0 {
      assert Truthful(PictureBefore(w, t - 1), w.queue[t - 1]);
    }
  }

  lemma ChainedLatest(w: World)
    requires Chained(w)
    ensures w.latest.Valid()
  {
    TruthfulValid(w, |w.queue|);
  }

  lemma ShiftBefore(w: World, s: Step, w': World, t: nat)
    requires t <= |w.queue| && w'.absorbed == PictureBefore(w, t)
    requires w'.queue == w.queue[t..] + if s.Capture? then [s.change] else []
    ensures forall i :: 0 <= i <= |w.queue| - t ==> PictureBefore(w', i) == PictureBefore(w, i + t)
    ensures s.Capture? ==> PictureBefore(w', |w'.queue|) == s.change.after
  {
  }

  // ---- Clients that take CopyRect ----

  ghost predicate CopyInvariant(w: World) {
    && Chained(w)
    && (Settled(w) && w.client.SameSize(w.absorbed) ==> Agrees(w.client, w.absorbed, w.debt))
  }

  /** Wherever it paints, the update reads what the last absorbed event left there. */
  ghost predicate Guarded(w: World, s: Step) {
    s.Update? && w.latest.Valid() && w.absorbed.Valid() && w.latest.SameSize(w.absorbed) ==>
      forall z: Point :: w.latest.Holds(z) && z in s.painted ==> w.latest.At(z) == w.absorbed.At(z)
  }

  /** A change of size is news of every pixel. */
  ghost predicate Touches(ev: Event, z: Point) { ev.resized || z in Pixels(ev.damage) || z in Written(ev.moves) }

  /** Some event still queued drew over the pixel or moved something onto it. */
  ghost predicate Undelivered(queue: seq<Change>, z: Point) {
    exists i :: 0 <= i < |queue| && Touches(queue[i].ev, z)
  }

  /** What a server can see for itself: no queued event touches what is painted. */
  lemma UntouchedIsGuarded(w: World, s: Step)
    requires Chained(w)
    requires s.Update? ==> forall z: Point :: w.latest.Holds(z) && z in s.painted ==> !Undelivered(w.queue, z)
    ensures Guarded(w, s)
  {
    if s.Update? && w.latest.Valid() && w.absorbed.Valid() && w.latest.SameSize(w.absorbed) {
      forall z: Point | w.latest.Holds(z) && z in s.painted ensures w.latest.At(z) == w.absorbed.At(z) {
        assert forall i :: 0 <= i < |w.queue| ==> !Touches(w.queue[i].ev, z);
        UntouchedStays(w, |w.queue|, z);
      }
    }
  }

  lemma UntouchedPixel(before: Picture, c: Change, z: Point)
    requires Truthful(before, c) && before.Holds(z) && !Touches(c.ev, z)
    ensures c.after.Holds(z) && c.after.At(z) == before.At(z)
  {
    hide Pixels, Written, Replay, Picture.Valid, Picture.At;
    ReplayElsewhere(before, c.ev.moves, z);
  }

  lemma {:induction false} UntouchedStays(w: World, n: nat, z: Point)
    requires Chained(w) && Settled(w) && n <= |w.queue| && w.absorbed.Holds(z) && !Undelivered(w.queue, z)
    ensures PictureBefore(w, n).Valid() && PictureBefore(w, n).SameSize(w.absorbed)
    ensures PictureBefore(w, n).At(z) == w.absorbed.At(z)
  {
    hide Truthful, Touches, Picture.Valid, Picture.At;
    SettledSize(w, n);
    if n > 0 {
      UntouchedStays(w, n - 1, z);
      assert Truthful(PictureBefore(w, n - 1), w.queue[n - 1]) && !Touches(w.queue[n - 1].ev, z);
      UntouchedPixel(PictureBefore(w, n - 1), w.queue[n - 1], z);
    }
  }

  lemma AbsorbKeeps(copyRect: bool, client: Picture, before: Picture, d: Debt, c: Change, bounds: Rect)
    requires Truthful(before, c) && client.Valid() && client.SameSize(c.after)
    requires bounds == c.after.Bounds()
    requires !c.ev.resized ==> Agrees(client, before, d)
    ensures Agrees(client, c.after, AbsorbEvent(copyRect, d, c.ev, bounds))
  {
    if c.ev.resized {
      WholeStays(copyRect, bounds, c.ev.moves);
      DamageStays(client, c.after, AbsorbMoves(copyRect, Whole(bounds), c.ev.moves), c.ev);
    } else {
      AbsorbMovesKeep(copyRect, client, before, d, c.ev.moves);
      DamageKeeps(client, before, AbsorbMoves(copyRect, d, c.ev.moves), c);
    }
  }

  lemma DamageKeeps(client: Picture, before: Picture, d: Debt, c: Change)
    requires Truthful(before, c) && !c.ev.resized && AllFit(before, c.ev.moves)
    requires Agrees(client, Replay(before, c.ev.moves), d)
    ensures Agrees(client, c.after, d.(pending := d.pending + Pixels(c.ev.damage)))
  {
  }

  lemma DamageStays(client: Picture, server: Picture, d: Debt, ev: Event)
    requires client.Valid() && server.Valid() && client.SameSize(server)
    requires d == Whole(client.Bounds()) && Pixels(ev.damage) <= client.Bounds().Pixels()
    ensures Agrees(client, server, d.(pending := d.pending + Pixels(ev.damage)))
  {
    WholeAgrees(client, server);
    assert d.pending + Pixels(ev.damage) == d.pending;
  }

  /** With everything owed no move is clean, and none changes what is owed. */
  lemma {:induction false} WholeStays(copyRect: bool, bounds: Rect, moves: seq<Move>)
    requires forall i :: 0 <= i < |moves| ==> Inside(bounds, moves[i])
    ensures AbsorbMoves(copyRect, Whole(bounds), moves) == Whole(bounds)
  {
    if moves != [] {
      var n := |moves| - 1;
      WholeStays(copyRect, bounds, moves[..n]);
      var m := moves[n];
      var src := m.Src();
      assert Point(src.x1, src.y1) in bounds.Pixels() * src.Pixels();
      assert bounds.Pixels() + m.dst.Pixels() == bounds.Pixels();
    }
  }

  /** A block and its source inside some bounds, with at least one pixel. */
  predicate Inside(bounds: Rect, m: Move) {
    && !m.dst.IsEmpty() && !bounds.IsEmpty()
    && bounds.x1 <= m.dst.x1 && m.dst.x2 <= bounds.x2 && bounds.y1 <= m.dst.y1 && m.dst.y2 <= bounds.y2
    && bounds.x1 <= m.srcX && m.srcX + m.dst.Width() <= bounds.x2
    && bounds.y1 <= m.srcY && m.srcY + m.dst.Height() <= bounds.y2
  }

  /** After a guarded update for an area the client shows the absorbed picture
      on all of it, and the invariant goes on holding with nothing queued. */
  lemma UpdateAgrees(w: World, area: Rect, painted: iset<Point>, client': Picture)
    requires w.latest.Valid() && w.client.SameSize(w.latest) && Guarded(w, Update(area, painted))
    requires Agrees(w.client, w.absorbed, w.debt)
    requires Owed(w.debt, area) * area.Pixels() <= painted <= area.Pixels()
    requires Shown(w, area, painted, client')
    ensures Agrees(client', w.absorbed, AfterUpdate(w.debt, area))
    ensures forall z: Point :: w.latest.Holds(z) && area.Has(z.x, z.y) ==> client'.At(z) == w.absorbed.At(z)
  {
    var d, d' := w.debt, AfterUpdate(w.debt, area);
    OwedInside(w.client, d, area);
    forall z: Point | w.client.Holds(z) && z !in d'.pending ensures client'.At(z) == w.absorbed.At(z) {
      UpdatePixel(w, area, painted, client', z);
    }
  }

  lemma OwedInside(client: Picture, d: Debt, area: Rect)
    requires AllFit(client, d.copies) && d.pending <= client.Bounds().Pixels()
    ensures Owed(d, area) <= client.Bounds().Pixels()
    ensures AllFit(client, Sendable(d.copies, area))
  {
    SplitCopies(d.copies, area);
    forall z: Point | z in Written(Demoted(d.copies, area)) ensures z in client.Bounds().Pixels() {
      var i :| 0 <= i < |Demoted(d.copies, area)| && Demoted(d.copies, area)[i].dst.Has(z.x, z.y);
      assert Demoted(d.copies, area)[i] in d.copies;
    }
    forall i | 0 <= i < |Sendable(d.copies, area)| ensures client.Fits(Sendable(d.copies, area)[i]) {
      assert Sendable(d.copies, area)[i] in d.copies;
    }
  }

  lemma UpdatePixel(w: World, area: Rect, painted: iset<Point>, client': Picture, z: Point)
    requires w.latest.Valid() && w.client.SameSize(w.latest) && Guarded(w, Update(area, painted))
    requires Agrees(w.client, w.absorbed, w.debt)
    requires Owed(w.debt, area) * area.Pixels() <= painted <= area.Pixels()
    requires Shown(w, area, painted, client')
    requires w.client.Holds(z) && z !in AfterUpdate(w.debt, area).pending
    ensures client'.At(z) == w.absorbed.At(z)
  {
    OwedInside(w.client, w.debt, area);
    if z !in painted {
      assert z !in Owed(w.debt, area);
      DemotingIsSafe(w.client, w.debt.copies, area, z);
    }
  }

  /** One step of a guarded run keeps the invariant. */
  lemma CopyStep(w: World, s: Step, w': World)
    requires CopyInvariant(w) && Next(w, s, w') && Guarded(w, s)
    ensures CopyInvariant(w')
  {
    StaysChained(w, s, w');
    ChainedLatest(w);
    if Settled(w') && w'.client.SameSize(w'.absorbed) {
      SettledSize(w', |w'.queue|);
      match s {
        case Capture(_) => SettledBefore(w, s, w');
        case Absorb => AbsorbStep(w, w');
        case Lag(_) => WholeAgrees(w'.client, w'.absorbed);
        case Request(r, incremental) => RequestStep(w, r, incremental);
        case Encodings(_) =>
        case Update(area, painted) => UpdateStep(w, area, painted, w');
      }
    }
  }

  lemma SettledBefore(w: World, s: Step, w': World)
    requires Next(w, s, w') && !s.Absorb? && !s.Lag? && Settled(w')
    ensures Settled(w)
  {
    QueueMoves(w, s, w');
    hide Next;
    forall i | 0 <= i < |w.queue| ensures !w.queue[i].ev.resized {
      assert w'.queue[i] == w.queue[i];
    }
  }

  lemma AbsorbStep(w: World, w': World)
    requires CopyInvariant(w) && Next(w, Absorb, w') && Chained(w')
    requires Settled(w') && w'.client.SameSize(w'.absorbed) && w'.latest.SameSize(w'.absorbed)
    ensures Agrees(w'.client, w'.absorbed, w'.debt)
  {
    var c := w.queue[0];
    assert Truthful(PictureBefore(w, 0), c);
    if !c.ev.resized {
      forall i | 0 <= i < |w.queue| ensures !w.queue[i].ev.resized {
        assert i > 0 ==> w'.queue[i - 1] == w.queue[i];
      }
    }
    AbsorbKeeps(w.copyRect, w.client, w.absorbed, w.debt, c, w.latest.Bounds());
  }

  lemma RequestStep(w: World, r: Rect, incremental: bool)
    requires Agrees(w.client, w.absorbed, w.debt) && w.latest.SameSize(w.absorbed)
    ensures incremental ||
      Agrees(w.client, w.absorbed, w.debt.(pending := w.debt.pending + r.Intersection(w.latest.Bounds()).Pixels()))
  {
  }

  lemma UpdateStep(w: World, area: Rect, painted: iset<Point>, w': World)
    requires CopyInvariant(w) && Next(w, Update(area, painted), w') && Guarded(w, Update(area, painted))
    requires Settled(w') && w'.client.SameSize(w'.absorbed) && w.latest.Valid() && w.latest.SameSize(w.absorbed)
    ensures Agrees(w'.client, w'.absorbed, w'.debt)
  {
    if w.client.SameSize(w.latest) {
      UpdateAgrees(w, area, painted, w'.client);
    } else {
      WholeAgrees(w'.client, w'.absorbed);
    }
  }

  lemma InitialInvariant(w: World)
    requires Initial(w)
    ensures CopyInvariant(w)
  {
    if w.client.SameSize(w.absorbed) {
      WholeAgrees(w.client, w.absorbed);
    }
  }

  /** In every guarded run, at every moment: with no change of size still on
      its way, the client's picture with the queued copies made is the picture
      of the last absorbed event everywhere outside what is pending. */
  lemma {:induction false} CopyRun(ws: seq<World>, steps: seq<Step>, i: nat)
    requires Run(ws, steps) && i < |ws|
    requires forall k :: 0 <= k < |steps| ==> Guarded(ws[k], steps[k])
    ensures CopyInvariant(ws[i])
  {
    if i == 0 {
      InitialInvariant(ws[0]);
    } else {
      CopyRun(ws, steps, i - 1);
      CopyStep(ws[i - 1], steps[i - 1], ws[i]);
    }
  }

  /** So after an update for an area the client shows the absorbed picture on all
      of it, and the server's wherever the two were the same. */
  lemma UpdateShowsArea(ws: seq<World>, steps: seq<Step>, i: nat, z: Point)
    requires Run(ws, steps) && i < |steps| && steps[i].Update?
    requires forall k :: 0 <= k < |steps| ==> Guarded(ws[k], steps[k])
    requires Settled(ws[i]) && ws[i].client.SameSize(ws[i].latest)
    requires ws[i].latest.Holds(z) && steps[i].area.Has(z.x, z.y)
    ensures ws[i + 1].client.Valid() && ws[i + 1].latest.Valid() && ws[i + 1].client.SameSize(ws[i + 1].latest)
    ensures ws[i].absorbed.Valid() && ws[i].absorbed.SameSize(ws[i].latest)
    ensures ws[i + 1].client.At(z) == ws[i].absorbed.At(z)
    ensures ws[i].absorbed.At(z) == ws[i].latest.At(z) || z in steps[i].painted ==> ws[i + 1].client.At(z) == ws[i + 1].latest.At(z)
  {
    CopyRun(ws, steps, i);
    ChainedLatest(ws[i]);
    SettledSize(ws[i], |ws[i].queue|);
    assert Next(ws[i], steps[i], ws[i + 1]) && Guarded(ws[i], steps[i]);
    UpdateAgrees(ws[i], steps[i].area, steps[i].painted, ws[i + 1].client);
  }

  // ---- Exactly when an update keeps the invariant ----

  /** Reading a picture that may be ahead: the invariant goes on holding for the
      last absorbed event if and only if the picture read is the absorbed one on
      every pixel painted. */
  lemma UpdateKeepsIff(w: World, area: Rect, painted: iset<Point>, client': Picture)
    requires w.latest.Valid() && w.client.SameSize(w.latest)
    requires Agrees(w.client, w.absorbed, w.debt)
    requires Owed(w.debt, area) * area.Pixels() <= painted <= area.Pixels()
    requires Shown(w, area, painted, client')
    ensures Agrees(client', w.absorbed, AfterUpdate(w.debt, area)) <==>
      forall z: Point :: w.latest.Holds(z) && z in painted ==> w.latest.At(z) == w.absorbed.At(z)
  {
    OwedInside(w.client, w.debt, area);
    if Agrees(client', w.absorbed, AfterUpdate(w.debt, area)) {
      forall z: Point | w.latest.Holds(z) && z in painted ensures w.latest.At(z) == w.absorbed.At(z) {
        assert Replay(client', []) == client';
        assert z !in AfterUpdate(w.debt, area).pending;
      }
    }
    if forall z: Point :: w.latest.Holds(z) && z in painted ==> w.latest.At(z) == w.absorbed.At(z) {
      UpdateAgrees(w, area, painted, client');
    }
  }
}
