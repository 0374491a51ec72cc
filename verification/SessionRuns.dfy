/** The session's methods are the steps of its runs: whatever is called on a
    session, in whatever order, is a run, so what holds in every run holds of it. */
module SessionRuns {
  import opened Geometry
  import opened Regions
  import opened PixelSets
  import opened Pictures
  import opened Debts
  import opened PictureRuns
  import opened PixelRuns
  import opened Sessions

  /** The session owes what the world says, and believes the client's picture has the size it has. */
  ghost predicate Mirrors(s: Session, w: World)
    reads s
  {
    && s.Valid() && s.Owes() == w.debt && s.Supports(COPY_RECT) == w.copyRect
    && w.client.Valid() && s.clientSize == (w.client.width, w.client.height)
  }

  // ---- One call, one step ----

  method Begin(client: Picture, latest: Picture) returns (s: Session, ghost w: World)
    requires client.Valid() && latest.Valid()
    ensures s.encodings == [] && !s.tight
    ensures fresh(s) && Initial(w) && Mirrors(s, w) && w.client == client && w.latest == latest
  {
    s := new Session(client.width, client.height);
    w := World(latest, latest, [], client, Whole(client.Bounds()), false);
  }

  method AbsorbNext(s: Session, ev: Event, bounds: Rect, ghost w: World) returns (ghost w': World)
    requires Mirrors(s, w) && w.queue != [] && ev == w.queue[0].ev && bounds == w.latest.Bounds() && NormalForm(ev.damage)
    modifies s
    ensures Next(w, Absorb, w') && Mirrors(s, w')
    ensures s.encodings == old(s.encodings) && s.tight == old(s.tight)
  {
    hide NormalForm, Pixels, AbsorbEvent, Picture.Valid;
    s.Absorb(ev, bounds);
    w' := w.(absorbed := w.queue[0].after, queue := w.queue[1..], debt := AbsorbEvent(w.copyRect, w.debt, ev, bounds));
  }

  method LoseSome(s: Session, n: nat, bounds: Rect, ghost w: World) returns (ghost w': World)
    requires Mirrors(s, w) && 0 < n <= |w.queue| && bounds == w.latest.Bounds()
    modifies s
    ensures Next(w, Lag(n), w') && Mirrors(s, w')
    ensures s.encodings == old(s.encodings) && s.tight == old(s.tight)
  {
    hide NormalForm, Pixels, Picture.Valid;
    s.Lagged(bounds);
    w' := w.(absorbed := w.queue[n - 1].after, queue := w.queue[n..], debt := Whole(bounds));
  }

  method Ask(s: Session, incremental: bool, rect: Rect, bounds: Rect, ghost w: World) returns (ghost w': World)
    requires Mirrors(s, w) && bounds == w.latest.Bounds()
    modifies s
    ensures Next(w, Request(rect, incremental), w') && Mirrors(s, w')
    ensures s.encodings == old(s.encodings) && s.tight == old(s.tight)
  {
    hide NormalForm, Pixels, Picture.Valid;
    s.UpdateRequest(incremental, rect, bounds);
    w' := w.(debt := s.Owes());
  }

  method TakeEncodings(s: Session, list: seq<int>, shape: bool, ghost w: World) returns (ghost w': World)
    requires Mirrors(s, w)
    modifies s
    ensures Next(w, Encodings(COPY_RECT in list), w') && Mirrors(s, w')
    ensures s.encodings == list && (s.tight <==> PrefersTight(list))
  {
    hide NormalForm, Pixels, Picture.Valid;
    s.SetEncodings(list, shape);
    w' := w.(copyRect := COPY_RECT in list);
  }

  /** What a client shows after an update that reads this framebuffer. */
  ghost function ClientAfter(client: Picture, latest: Picture, sent: Sent): Picture
    requires client.Valid() && latest.Valid() && client.SameSize(latest) && sent.Update? && AllFit(client, sent.copies)
  {
    Paint(Replay(client, sent.copies), latest, Pixels(sent.rects))
  }

  ghost function Black(size: Picture): (p: Picture)
    ensures p.Valid() && p.SameSize(size)
  {
    Build(size.width, size.height, _ => BLACK)
  }

  /** The client's picture once this has reached it. A client told of a new size
      may hold anything of that size; here it is black. */
  ghost function Received(w: World, sent: Sent): (client': Picture)
    requires w.client.Valid() && w.latest.Valid() && w.client.SameSize(w.latest)
    ensures client'.Valid() && client'.SameSize(w.client)
  {
    if sent.Update? && AllFit(w.client, sent.copies) then ClientAfter(w.client, w.latest, sent) else w.client
  }

  /** The pixels an answer carries. */
  ghost function PaintedBy(sent: Sent): iset<Point> { if sent.Update? then Pixels(sent.rects) else iset{} }

  ghost predicate Ended(sent: Sent) { sent.CannotFollow? || sent.TooManyRects? }

  /** Sending is an update step that paints the rectangles sent, or the end of the session. */
  method Send(s: Session, area: Rect, bounds: Rect, ghost w: World) returns (sent: Sent, ghost w': World)
    requires Mirrors(s, w) && w.latest.Valid() && bounds == w.latest.Bounds()
    modifies s
    ensures s.encodings == old(s.encodings) && s.tight == old(s.tight)
    ensures sent.CannotFollow? <==> !w.client.SameSize(w.latest) && PSEUDO_DESKTOP_SIZE !in s.encodings && PSEUDO_EXTENDED_DESKTOP_SIZE !in s.encodings
    ensures sent.TooManyRects? <==>
              && w.client.SameSize(w.latest)
              && TooMany(w.debt, area, old(s.layoutPending) && s.Supports(PSEUDO_EXTENDED_DESKTOP_SIZE),
                         old(s.cursorPending) && s.CursorEncoding().Some?, s.tight)
    ensures sent.Update? ==> NormalRects(sent.rects, w.debt, area, s.tight)
    ensures !Ended(sent) ==> Next(w, Step.Update(area, PaintedBy(sent)), w') && Mirrors(s, w')
    ensures sent.Update? ==> w.client.SameSize(w.latest) && sent.copies == Sendable(w.debt.copies, area)
    ensures sent.Update? && AllFit(w.client, sent.copies) ==> w'.client == ClientAfter(w.client, w.latest, sent)
  {
    hide NormalForm, Pixels, Picture.Valid, Idle, AfterUpdate, Owed, Sendable, NormalRects, TooMany, Session.ResizeEncoding, Session.CursorEncoding;
    sent := s.BuildUpdate(area, bounds);
    if w.client.SameSize(w.latest) {
      w' := w.(client := Received(w, sent), debt := AfterUpdate(w.debt, area));
      if !Ended(sent) {
        SentIsStep(w, area, sent, w', s.tight);
      }
    } else {
      w' := w.(client := Black(w.latest), debt := Whole(bounds));
    }
  }

  lemma SentIsStep(w: World, area: Rect, sent: Sent, w': World, tight: bool)
    requires w.client.Valid() && w.latest.Valid() && w.client.SameSize(w.latest)
    requires w' == w.(client := Received(w, sent), debt := AfterUpdate(w.debt, area))
    requires sent.Nothing? || sent.Update?
    requires sent.Nothing? ==> exists cursor, layout :: Idle(w.debt, area, cursor, layout)
    requires sent.Update? ==> exists cursor, layout :: Carries(sent, w.debt, area, layout, cursor, tight)
    ensures Next(w, Step.Update(area, PaintedBy(sent)), w')
  {
    hide Pixels, Picture.Valid, Owed, AfterUpdate, Sendable;
    if sent.Nothing? {
      Same(Paint(Replay(w.client, []), w.latest, iset{}), w.client);
    }
  }

  // ---- Every session is a run ----

  /** What may happen to a session, in any order. */
  datatype Call =
    | Captured(change: Change)
    | Delivered
    | Overran(n: nat)
    | Asked(rect: Rect, incremental: bool)
    | Listed(encodings: seq<int>, shape: bool)
    | Sending(area: Rect)

  /** The frames captured tell the truth, each about the one before it. */
  ghost predicate Told(latest: Picture, calls: seq<Call>)
    decreases |calls|
  {
    calls == [] ||
    if calls[0].Captured? then
      && Truthful(latest, calls[0].change) && NormalForm(calls[0].change.ev.damage)
      && Told(calls[0].change.after, calls[1..])
    else Told(latest, calls[1..])
  }

  ghost predicate AllNormal(queue: seq<Change>) { forall i :: 0 <= i < |queue| ==> NormalForm(queue[i].ev.damage) }

  /** The encodings the client listed last. */
  function LastListed(calls: seq<Call>): seq<int> {
    if calls == [] then []
    else if calls[|calls| - 1].Listed? then calls[|calls| - 1].encodings
    else LastListed(calls[..|calls| - 1])
  }

  /** Sending ends a session only where the size changed for a client that can be told of no
      size, or an update has more rectangles than can be counted. */
  ghost predicate MayEnd(w: World, call: Call, list: seq<int>) {
    && call.Sending?
    && if w.client.SameSize(w.latest) then exists layout, cursor :: TooMany(w.debt, call.area, layout, cursor, PrefersTight(list))
       else PSEUDO_DESKTOP_SIZE !in list && PSEUDO_EXTENDED_DESKTOP_SIZE !in list
  }

  /** A call is one step of the run, or none if there was nothing to take. */
  ghost predicate Took(w: World, call: Call, step: Option<Step>, w': World) {
    && (step.None? ==> w' == w)
    && (step.Some? ==> Next(w, step.value, w'))
    && (step.Some? && step.value.Encodings? ==> call.Listed? && step.value.copyRect == (COPY_RECT in call.encodings))
  }

  method Turn(s: Session, call: Call, latest: Picture, queue: seq<Change>, ghost w: World)
    returns (latest': Picture, queue': seq<Change>, ended: bool, ghost step: Option<Step>, ghost w': World)
    requires Mirrors(s, w) && latest.Valid() && w.latest == latest && w.queue == queue && AllNormal(queue)
    requires call.Captured? ==> Truthful(latest, call.change) && NormalForm(call.change.ev.damage)
    modifies s
    ensures !ended ==> Mirrors(s, w') && Took(w, call, step, w')
    ensures !ended ==> latest'.Valid() && w'.latest == latest' && w'.queue == queue' && AllNormal(queue')
    ensures latest' == if call.Captured? then call.change.after else latest
    ensures s.encodings == (if call.Listed? then call.encodings else old(s.encodings))
    ensures s.tight <==> if call.Listed? then PrefersTight(call.encodings) else old(s.tight)
    ensures ended && (old(s.tight) <==> PrefersTight(old(s.encodings))) ==> MayEnd(w, call, old(s.encodings))
  {
    hide Truthful, NormalForm, Picture.Valid, Mirrors, TooMany;
    latest', queue', ended, step, w' := latest, queue, false, None, w;
    match call {
      case Captured(change) =>
        latest', queue' := change.after, queue + [change];
        step, w' := Some(Capture(change)), w.(latest := change.after, queue := w.queue + [change]);
        StillMirrors(s, w, w', change);
      case Delivered =>
        if queue != [] {
          w' := AbsorbNext(s, queue[0].ev, latest.Bounds(), w);
          queue', step := queue[1..], Some(Absorb);
        }
      case Overran(n) =>
        if 0 < n <= |queue| {
          w' := LoseSome(s, n, latest.Bounds(), w);
          queue', step := queue[n..], Some(Lag(n));
        }
      case Asked(rect, incremental) =>
        w' := Ask(s, incremental, rect, latest.Bounds(), w);
        step := Some(Request(rect, incremental));
      case Listed(encodings, shape) =>
        w' := TakeEncodings(s, encodings, shape, w);
        step := Some(Encodings(COPY_RECT in encodings));
      case Sending(area) =>
        var sent;
        sent, w' := Send(s, area, latest.Bounds(), w);
        ended, step := sent.CannotFollow? || sent.TooManyRects?, Some(Step.Update(area, PaintedBy(sent)));
    }
  }

  lemma StillMirrors(s: Session, w: World, w': World, c: Change)
    requires Mirrors(s, w) && Truthful(w.latest, c) && w' == w.(latest := c.after, queue := w.queue + [c])
    ensures Mirrors(s, w') && c.after.Valid()
  {
  }

  ghost predicate NoCopyRect(calls: seq<Call>) {
    forall i :: 0 <= i < |calls| && calls[i].Listed? ==> COPY_RECT !in calls[i].encodings
  }

  ghost predicate NoneListed(steps: seq<Step>) {
    forall k :: 0 <= k < |steps| ==> !(steps[k].Encodings? && steps[k].copyRect)
  }

  ghost function WithStep(steps: seq<Step>, step: Option<Step>): seq<Step> { if step.Some? then steps + [step.value] else steps }

  ghost function WithWorld(ws: seq<World>, step: Option<Step>, w': World): seq<World> { if step.Some? then ws + [w'] else ws }

  lemma RunGoesOn(ws: seq<World>, steps: seq<Step>, call: Call, step: Option<Step>, w': World)
    requires Run(ws, steps) && Took(ws[|steps|], call, step, w')
    ensures Run(WithWorld(ws, step, w'), WithStep(steps, step))
    ensures WithWorld(ws, step, w')[|WithStep(steps, step)|] == w'
    ensures NoneListed(steps) && (call.Listed? ==> COPY_RECT !in call.encodings) ==> NoneListed(WithStep(steps, step))
  {
    hide Next, Initial;
    var ws', steps' := WithWorld(ws, step, w'), WithStep(steps, step);
    forall i | 0 <= i < |steps'| ensures Next(ws'[i], steps'[i], ws'[i + 1]) {
      if i < |steps| {
        assert Next(ws[i], steps[i], ws[i + 1]);
        assert ws'[i] == ws[i] && ws'[i + 1] == ws[i + 1] && steps'[i] == steps[i];
      }
    }
  }

  /** A session served call by call, until it ends, is a run; and if the client
      never lists CopyRect, then once everything is delivered and nothing is
      pending, client and server show the same. */
  method Serve(calls: seq<Call>, client: Picture, first: Picture)
    returns (s: Session, latest: Picture, ended: bool, ghost ws: seq<World>, ghost steps: seq<Step>)
    requires client.Valid() && first.Valid() && Told(first, calls)
    ensures Run(ws, steps) && ws[0].client == client && ws[0].latest == first
    ensures !ended ==> Mirrors(s, ws[|steps|]) && ws[|steps|].latest == latest
    ensures ended ==> exists i :: 0 <= i < |calls| && MayEnd(ws[|steps|], calls[i], LastListed(calls[..i]))
    ensures !ended && NoCopyRect(calls) && ws[|steps|].queue == [] && s.pending == [] && s.clientSize == (latest.width, latest.height) ==>
              ws[|steps|].client == latest
  {
    hide Next, Initial, Mirrors, Truthful, Picture.Valid, NormalForm, Took, Told, MayEnd;
    ghost var w;
    s, w := Begin(client, first);
    latest, ended, ws, steps := first, false, [w], [];
    var queue: seq<Change> := [];
    assert calls[0..] == calls;
    InitialQueue(w);
    var i := 0;
    while i < |calls| && !ended
      invariant i <= |calls| && fresh(s) && Run(ws, steps) && ws[0].client == client && ws[0].latest == first
      invariant NoCopyRect(calls) ==> NoneListed(steps)
      invariant !ended ==> s.encodings == LastListed(calls[..i]) && (s.tight <==> PrefersTight(s.encodings))
      invariant ended ==> i > 0 && MayEnd(ws[|steps|], calls[i - 1], LastListed(calls[..i - 1]))
      invariant !ended ==> Mirrors(s, ws[|steps|]) && ws[|steps|].latest == latest && ws[|steps|].queue == queue
      invariant !ended ==> latest.Valid() && AllNormal(queue) && Told(latest, calls[i..])
      decreases |calls| - i, !ended
    {
      NextTold(latest, calls, i);
      assert calls[..i + 1][..i] == calls[..i];
      ghost var before, step, w' := ws[|steps|], None, ws[|steps|];
      latest, queue, ended, step, w' := Turn(s, calls[i], latest, queue, before);
      if !ended {
        RunGoesOn(ws, steps, calls[i], step, w');
        ws, steps := WithWorld(ws, step, w'), WithStep(steps, step);
      }
      i := i + 1;
    }
    if !ended && NoCopyRect(calls) && ws[|steps|].queue == [] && s.pending == [] && s.clientSize == (latest.width, latest.height) {
      NothingPending(s, ws[|steps|]);
      QuietIsEqual(ws, steps, |steps|);
    }
  }

  lemma InitialQueue(w: World)
    requires Initial(w)
    ensures Run([w], []) && w.queue == [] && AllNormal([])
  {
  }

  lemma NextTold(latest: Picture, calls: seq<Call>, i: nat)
    requires i < |calls| && Told(latest, calls[i..])
    ensures Told(if calls[i].Captured? then calls[i].change.after else latest, calls[i + 1..])
    ensures calls[i].Captured? ==> Truthful(latest, calls[i].change) && NormalForm(calls[i].change.ev.damage)
  {
    hide Truthful, NormalForm;
    assert calls[i..][1..] == calls[i + 1..];
  }

  lemma NothingPending(s: Session, w: World)
    requires Mirrors(s, w)
    ensures s.pending == [] ==> w.debt.pending == iset{}
    ensures s.clientSize == (w.latest.width, w.latest.height) <==> w.client.SameSize(w.latest)
  {
  }
}
