/** One client's session, as the fields its frame events, requests and updates change. */
module Sessions {
  import opened Geometry
  import opened Regions
  import opened RegionOps
  import opened PixelSets
  import opened Pictures
  import opened Debts
  import opened TightPieces

  const RAW: int := 0
  const COPY_RECT: int := 1
  const HEXTILE: int := 5
  const TIGHT: int := 7
  const ZRLE: int := 16
  const PSEUDO_CURSOR: int := -239
  const PSEUDO_DESKTOP_SIZE: int := -223
  const PSEUDO_EXTENDED_DESKTOP_SIZE: int := -308
  const PSEUDO_CURSOR_WITH_ALPHA: int := -314

  /** The most rectangles the damage may be cut into before its bounds go instead. */
  const MANY_RECTS := 60000
  /** The rectangle count of an update is a 16-bit field. */
  const MAX_COUNT := 65535

  /** What build_update came to: nothing to send, a change of size on its own,
      an update with its rectangles in order, or the end of the session. */
  datatype Sent =
    | Nothing
    | Resize(width: nat, height: nat, extended: bool)
    | Update(layout: bool, cursor: bool, copies: seq<Move>, rects: seq<Rect>)
    | CannotFollow
    | TooManyRects

  class Session {
    var encodings: seq<int>
    /** Whether rectangles go out as Tight, which splits them. */
    var tight: bool
    /** The size the client believes the picture has. */
    var clientSize: (nat, nat)
    /** What has changed since this client last saw it. */
    var pending: Region
    /** Moves the client can still reproduce with CopyRect, in order. */
    var copies: seq<Move>
    var cursorPending: bool
    var layoutPending: bool
    var requested: Option<Rect>
    var continuous: Option<Rect>

    ghost predicate Valid()
      reads this
    {
      NormalForm(pending)
    }

    /** The fields a picture depends on, as the value the runs are about. */
    ghost function Owes(): Debt
      reads this
    {
      Debt(Pixels(pending), copies)
    }

    constructor (width: nat, height: nat)
      ensures Valid() && Owes() == Whole(Rect(0, 0, width, height))
      ensures encodings == [] && !tight && clientSize == (width, height) && requested.None? && continuous.None?
      ensures !layoutPending && !cursorPending
    {
      encodings, tight, clientSize := [], false, (width, height);
      pending, copies := FromRect(Rect(0, 0, width, height)), [];
      cursorPending, layoutPending := false, false;
      requested, continuous := None, None;
    }

    predicate Supports(encoding: int)
      reads this`encodings
    {
      encoding in encodings
    }

    /** The pseudo-encoding the pointer goes out as, if the client takes one. */
    function CursorEncoding(): Option<int>
      reads this`encodings
    {
      if Supports(PSEUDO_CURSOR_WITH_ALPHA) then Some(PSEUDO_CURSOR_WITH_ALPHA)
      else if Supports(PSEUDO_CURSOR) then Some(PSEUDO_CURSOR) else None
    }

    function ResizeEncoding(): Option<int>
      reads this`encodings
    {
      if Supports(PSEUDO_EXTENDED_DESKTOP_SIZE) then Some(PSEUDO_EXTENDED_DESKTOP_SIZE)
      else if Supports(PSEUDO_DESKTOP_SIZE) then Some(PSEUDO_DESKTOP_SIZE) else None
    }

    /** The client says what it takes. What it was owed it still is. */
    method SetEncodings(list: seq<int>, shape: bool)
      modifies this`encodings, this`tight, this`layoutPending, this`cursorPending
      ensures encodings == list && Owes() == old(Owes())
      ensures tight <==> PrefersTight(list)
      ensures layoutPending == (old(layoutPending) || (Supports(PSEUDO_EXTENDED_DESKTOP_SIZE) && !old(Supports(PSEUDO_EXTENDED_DESKTOP_SIZE))))
      ensures cursorPending == (old(cursorPending) || (shape && CursorEncoding().Some?))
    {
      if PSEUDO_EXTENDED_DESKTOP_SIZE in list && !Supports(PSEUDO_EXTENDED_DESKTOP_SIZE) {
        layoutPending := true;
      }
      encodings := list;
      var choice := FirstWritable(list);
      tight := choice == TIGHT;
      if !cursorPending && CursorEncoding().Some? {
        cursorPending := shape;
      }
    }

    /** Where an update may go right now, if anywhere. */
    function DueArea(): (area: Option<Rect>)
      reads this`requested, this`continuous
      ensures area.None? <==> requested.None? && continuous.None?
      ensures area.Some? && requested.Some? ==> area.value.Contains(requested.value)
      ensures area.Some? && continuous.Some? ==> area.value.Contains(continuous.value)
      ensures area.Some? ==> forall big: Rect ::
                (requested.Some? ==> big.Contains(requested.value)) && (continuous.Some? ==> big.Contains(continuous.value)) ==>
                big.Contains(area.value)
    {
      match (requested, continuous)
      case (Some(r), Some(c)) => Some(r.UnionBounds(c))
      case (Some(r), None) => Some(r)
      case (None, Some(c)) => Some(c)
      case (None, None) => None
    }

    /** Fold a frame's changes into what this client still has to see. */
    method Absorb(ev: Event, bounds: Rect)
      requires Valid() && NormalForm(ev.damage)
      modifies this`pending, this`copies, this`layoutPending, this`cursorPending
      ensures Valid()
      ensures Owes() == AbsorbEvent(Supports(COPY_RECT), old(Owes()), ev, bounds)
      ensures layoutPending == (old(layoutPending) || ev.resized)
      ensures cursorPending == (old(cursorPending) || ev.cursor)
    {
      hide NormalForm, Pixels, AbsorbMoves, Whole;
      if ev.resized {
        OweAll(bounds);
        layoutPending := true;
      }
      AbsorbAll(Supports(COPY_RECT), ev.moves);
      pending := UnionOf(pending, ev.damage);
      if ev.cursor {
        cursorPending := true;
      }
    }

    method AbsorbAll(copyRect: bool, moves: seq<Move>)
      requires Valid()
      modifies this`pending, this`copies
      ensures Valid() && Owes() == AbsorbMoves(copyRect, old(Owes()), moves)
    {
      hide NormalForm, Pixels, AbsorbMove;
      for i := 0 to |moves|
        invariant Valid() && Owes() == AbsorbMoves(copyRect, old(Owes()), moves[..i])
      {
        AbsorbOne(copyRect, moves[i]);
        assert moves[..i + 1][..i] == moves[..i];
      }
      assert moves[..|moves|] == moves;
    }

    /** One move: a copy if the client's source is current and no unsent copy
        is involved with it, damage otherwise. */
    method AbsorbOne(copyRect: bool, m: Move)
      requires Valid()
      modifies this`pending, this`copies
      ensures Valid() && Owes() == AbsorbMove(copyRect, old(Owes()), m)
    {
      hide NormalForm, Pixels;
      var src := m.Src();
      var clean := copyRect && !IntersectsRect(pending, src)
        && !exists i :: 0 <= i < |copies| &&
             (copies[i].dst.Intersects(src) || copies[i].dst.Intersects(m.dst) || copies[i].Src().Intersects(m.dst));
      assert clean <==> Clean(copyRect, Owes(), m) by {
        hide Rect.Intersects;
      }
      if clean {
        pending := Remove(pending, m.dst);
        copies := copies + [m];
      } else {
        pending := Add(pending, m.dst);
      }
    }

    /** The whole picture is owed, and nothing can be copied. */
    method OweAll(bounds: Rect)
      modifies this`pending, this`copies
      ensures Valid() && Owes() == Whole(bounds)
    {
      pending, copies := FromRect(bounds), [];
    }

    /** The event channel overran. */
    method Lagged(bounds: Rect)
      modifies this`pending, this`copies
      ensures Valid() && Owes() == Whole(bounds)
    {
      OweAll(bounds);
    }

    method UpdateRequest(incremental: bool, rect: Rect, bounds: Rect)
      requires Valid()
      modifies this`pending, this`requested
      ensures Valid()
      ensures Owes() == if incremental then old(Owes())
                        else Debt(old(Owes()).pending + rect.Intersection(bounds).Pixels(), old(copies))
      ensures requested.Some? && requested.value.Contains(rect.Intersection(bounds))
      ensures old(requested).Some? ==> requested.value.Contains(old(requested).value)
      ensures forall big: Rect ::
                big.Contains(rect.Intersection(bounds)) && (old(requested).Some? ==> big.Contains(old(requested).value)) ==>
                big.Contains(requested.value)
    {
      var r := rect.Intersection(bounds);
      if !incremental {
        pending := Add(pending, r);
      }
      requested := Some(if requested.Some? then requested.value.UnionBounds(r) else r);
    }

    /** Turned on, everything the client named inside the picture is due from now
        on; turned off, only what it asks for is. */
    method EnableContinuous(enable: bool, rect: Rect, bounds: Rect)
      modifies this`continuous
      ensures enable ==> continuous.Some? && bounds.Contains(continuous.value)
      ensures enable ==> forall x, y :: continuous.value.Has(x, y) <==> rect.Has(x, y) && bounds.Has(x, y)
      ensures enable && continuous.value.IsEmpty() ==> continuous.value == EMPTY
      ensures enable ==> DueArea().Some? && forall x, y :: rect.Has(x, y) && bounds.Has(x, y) ==> DueArea().value.Has(x, y)
      ensures !enable ==> continuous.None? && DueArea() == requested
    {
      continuous := if enable then Some(rect.Intersection(bounds)) else None;
    }

    predicate HasSomethingFor(area: Rect)
      reads this
      ensures HasSomethingFor(area) <==>
        Something(Owes(), area, cursorPending && CursorEncoding().Some?, layoutPending)
    {
      || layoutPending
      || (cursorPending && CursorEncoding().Some?)
      || (exists i :: 0 <= i < |copies| && copies[i].dst.Intersects(area))
      || IntersectsRect(pending, area)
    }

    /** Copies the client did not ask for cannot go out now; they become damage for later. */
    method DemoteCopies(area: Rect) returns (sendable: seq<Move>)
      requires Valid()
      modifies this`pending, this`copies
      ensures Valid() && copies == []
      ensures sendable == Sendable(old(copies), area)
      ensures Pixels(pending) == Owed(old(Owes()), area)
    {
      hide NormalForm, Pixels;
      var all := copies;
      copies, sendable := [], [];
      ghost var was := Pixels(pending);
      OwedNone(was, area);
      for i := 0 to |all|
        invariant Valid() && copies == []
        invariant sendable == Sendable(all[..i], area)
        invariant Pixels(pending) == was + Written(Demoted(all[..i], area))
      {
        OwedNext(was, all, i, area);
        if area.Contains(all[i].dst) {
          sendable := sendable + [all[i]];
        } else {
          pending := Add(pending, all[i].dst);
        }
      }
      assert all[..|all|] == all;
    }

    /** The rectangles an update for this damage is cut into. */
    method CutDamage(damage: Region, area: Rect) returns (rects: seq<Rect>)
      requires NormalForm(damage) && Pixels(damage) <= area.Pixels()
      ensures rects == OnWire(damage, tight) && |rects| == WireCount(damage, tight)
      ensures Pixels(damage) <= Pixels(rects) <= area.Pixels()
      ensures |damage| <= MANY_RECTS ==> Pixels(rects) == Pixels(damage)
      ensures tight ==> forall i :: 0 <= i < |rects| ==> PieceRects(rects[i]) == [rects[i]]
    {
      hide AllPieces, PiecesOfAll;
      rects := damage;
      if |damage| > MANY_RECTS {
        BoundsCover(damage, area);
        rects := [Bounds(damage)];
      }
      if tight {
        PiecesCounted(rects);
        rects := SplitAll(rects);
      }
    }

    /** The update proper, for a client whose size is right. */
    method BuildPixels(area: Rect) returns (sent: Sent)
      requires Valid()
      modifies this`pending, this`copies, this`layoutPending, this`cursorPending, this`requested
      ensures Valid()
      ensures !sent.Resize? && !sent.CannotFollow?
      ensures sent.Nothing? <==> Idle(old(Owes()), area, old(cursorPending) && CursorEncoding().Some?,
                                      old(layoutPending) && Supports(PSEUDO_EXTENDED_DESKTOP_SIZE))
      ensures !sent.TooManyRects? ==> Owes() == AfterUpdate(old(Owes()), area)
      ensures !sent.TooManyRects? ==> layoutPending == (old(layoutPending) && !Supports(PSEUDO_EXTENDED_DESKTOP_SIZE))
      ensures cursorPending == (old(cursorPending) && CursorEncoding().None?)
      ensures sent.Nothing? ==> requested == old(requested)
      ensures sent.TooManyRects? <==> TooMany(old(Owes()), area, old(layoutPending) && Supports(PSEUDO_EXTENDED_DESKTOP_SIZE),
                                              old(cursorPending) && CursorEncoding().Some?, tight)
      ensures sent.Update? ==> requested.None? && NormalRects(sent.rects, old(Owes()), area, tight)
      ensures sent.Update? ==> Carries(sent, old(Owes()), area, old(layoutPending) && Supports(PSEUDO_EXTENDED_DESKTOP_SIZE),
                                       old(cursorPending) && CursorEncoding().Some?, tight)
    {
      hide NormalForm, Pixels, Owed, Sendable, Carries, OnWire, WireCount, NormalRects, TooMany;
      ghost var was := Owes();
      var sendable := DemoteCopies(area);
      var damage := IntersectRect(pending, area);
      var cursor := cursorPending && CursorEncoding().Some?;
      if CursorEncoding().Some? {
        cursorPending := false;
      }
      var layout := layoutPending && Supports(PSEUDO_EXTENDED_DESKTOP_SIZE);
      EmptyRegion(damage);
      if sendable == [] && damage == [] && !cursor && !layout {
        NothingToTake(Owed(was, area), area.Pixels());
        NothingIsFew(was, area, tight);
        return Nothing;
      }
      sent := SendPixels(area, layout, cursor, sendable, damage, was);
    }

    /** The rectangles of an update, and what is owed less them. */
    method SendPixels(area: Rect, layout: bool, cursor: bool, sendable: seq<Move>, damage: Region, ghost was: Debt) returns (sent: Sent)
      requires Valid() && copies == [] && sendable == Sendable(was.copies, area) && Pixels(pending) == Owed(was, area)
      requires Denotes(damage, Pixels(pending) * area.Pixels())
      modifies this`pending, this`layoutPending, this`requested
      ensures Valid() && (sent.Update? || sent.TooManyRects?)
      ensures sent.Update? ==> Owes() == AfterUpdate(was, area) && layoutPending == (old(layoutPending) && !layout)
      ensures sent.Update? ==> requested.None? && Carries(sent, was, area, layout, cursor, tight)
      ensures sent.Update? ==> NormalRects(sent.rects, was, area, tight)
      ensures sent.TooManyRects? <==> TooMany(was, area, layout, cursor, tight)
    {
      hide NormalForm, Pixels, Owed, Sendable, OnWire, WireCount, NormalRects, TooMany;
      var rects := CutDamage(damage, area);
      TheDamage(was, area, damage, tight);
      TooManyOf(was, area, damage, layout, cursor, tight);
      sent := Update(layout, cursor, sendable, rects);
      if Count(sent) > MAX_COUNT {
        return TooManyRects;
      }
      if layout {
        layoutPending := false;
      }
      pending := DifferenceOf(pending, damage);
      TakeArea(Owed(was, area), area.Pixels());
      requested := None;
    }

    /** Assemble one update for the area. A change of size goes out on its own;
        otherwise the copies that lie in the area, then the pending pixels of
        the area, are sent, and what was sent is no longer owed. */
    method BuildUpdate(area: Rect, bounds: Rect) returns (sent: Sent)
      requires Valid() && bounds == Rect(0, 0, bounds.Width(), bounds.Height())
      modifies this`pending, this`copies, this`clientSize, this`layoutPending, this`cursorPending, this`requested
      ensures Valid()
      ensures old(clientSize) != (bounds.Width(), bounds.Height()) ==>
                if !Supports(PSEUDO_EXTENDED_DESKTOP_SIZE) && !Supports(PSEUDO_DESKTOP_SIZE) then sent == CannotFollow
                else && sent == Resize(bounds.Width(), bounds.Height(), Supports(PSEUDO_EXTENDED_DESKTOP_SIZE))
                     && clientSize == (bounds.Width(), bounds.Height()) && Owes() == Whole(bounds)
                     && requested.None? && !layoutPending && cursorPending == old(cursorPending)
      ensures old(clientSize) == (bounds.Width(), bounds.Height()) ==>
                && clientSize == old(clientSize) && !sent.Resize? && !sent.CannotFollow?
                && (sent.Nothing? <==> Idle(old(Owes()), area, old(cursorPending) && CursorEncoding().Some?,
                                            old(layoutPending) && Supports(PSEUDO_EXTENDED_DESKTOP_SIZE)))
                && (!sent.TooManyRects? ==> Owes() == AfterUpdate(old(Owes()), area))
                && (!sent.TooManyRects? ==> layoutPending == (old(layoutPending) && !Supports(PSEUDO_EXTENDED_DESKTOP_SIZE)))
                && cursorPending == (old(cursorPending) && CursorEncoding().None?)
                && (sent.Nothing? ==> requested == old(requested))
      ensures sent.TooManyRects? <==>
                && old(clientSize) == (bounds.Width(), bounds.Height())
                && TooMany(old(Owes()), area, old(layoutPending) && Supports(PSEUDO_EXTENDED_DESKTOP_SIZE),
                           old(cursorPending) && CursorEncoding().Some?, tight)
      ensures sent.Update? ==> requested.None? && NormalRects(sent.rects, old(Owes()), area, tight)
      ensures sent.Update? ==> Carries(sent, old(Owes()), area, old(layoutPending) && Supports(PSEUDO_EXTENDED_DESKTOP_SIZE),
                                       old(cursorPending) && CursorEncoding().Some?, tight)
    {
      hide NormalForm, Pixels, Whole, Carries, Idle, AfterUpdate, NormalRects, TooMany;
      if (bounds.Width(), bounds.Height()) != clientSize {
        var encoding := ResizeEncoding();
        if encoding.None? {
          return CannotFollow;
        }
        clientSize := (bounds.Width(), bounds.Height());
        layoutPending := false;
        OweAll(bounds);
        requested := None;
        return Resize(bounds.Width(), bounds.Height(), encoding.value == PSEUDO_EXTENDED_DESKTOP_SIZE);
      }
      sent := BuildPixels(area);
    }
  }

  predicate Writable(encoding: int) { encoding == TIGHT || encoding == ZRLE || encoding == HEXTILE || encoding == RAW }

  /** Tight comes before every other encoding the server can write. */
  ghost predicate PrefersTight(list: seq<int>) {
    exists i :: 0 <= i < |list| && list[i] == TIGHT && forall j :: 0 <= j < i ==> !Writable(list[j])
  }

  /** The first encoding the client named that this server can write. */
  method FirstWritable(list: seq<int>) returns (choice: int)
    ensures Writable(choice)
    ensures (choice == RAW && forall i :: 0 <= i < |list| ==> !Writable(list[i]))
         || exists i :: 0 <= i < |list| && list[i] == choice && forall j :: 0 <= j < i ==> !Writable(list[j])
  {
    for i := 0 to |list|
      invariant forall j :: 0 <= j < i ==> !Writable(list[j])
    {
      if Writable(list[i]) {
        return list[i];
      }
    }
    return RAW;
  }

  /** Nothing is owed in the area, and nothing else waits to be said. */
  ghost predicate Idle(d: Debt, area: Rect, cursor: bool, layout: bool) {
    Sendable(d.copies, area) == [] && Owed(d, area) * area.Pixels() == iset{} && !cursor && !layout
  }

  /** The rectangle count in an update's header. */
  function Count(sent: Sent): nat
    requires sent.Update?
  {
    (if sent.layout then 1 else 0) + (if sent.cursor then 1 else 0) + |sent.copies| + |sent.rects|
  }

  /** An update for an area carries the copies that lie in it, in order, and
      rectangles over all that is owed there and nothing outside. */
  ghost predicate Carries(sent: Sent, d: Debt, area: Rect, layout: bool, cursor: bool, tight: bool) {
    && sent.Update?
    && sent.copies == Sendable(d.copies, area)
    && Owed(d, area) * area.Pixels() <= Pixels(sent.rects) <= area.Pixels()
    && sent.layout == layout && sent.cursor == cursor
    && Count(sent) <= MAX_COUNT
    && (tight ==> forall i :: 0 <= i < |sent.rects| ==> PieceRects(sent.rects[i]) == [sent.rects[i]])
  }

  /** Damage in more than 60000 rectangles goes as the one around them. */
  function Coarse(owed: Region): seq<Rect> { if |owed| > MANY_RECTS then [Bounds(owed)] else owed }

  /** The rectangles damage is sent as, and how many there are: under Tight each
      of them is as many as its pieces. */
  function OnWire(owed: Region, tight: bool): seq<Rect> { if tight then AllPieces(Coarse(owed)) else Coarse(owed) }

  function WireCount(owed: Region, tight: bool): int { if tight then PiecesOfAll(Coarse(owed)) else |Coarse(owed)| }

  /** What is sent is the normal form of what is owed in the area, cut for the wire. */
  ghost predicate NormalRects(rects: seq<Rect>, d: Debt, area: Rect, tight: bool) {
    exists owed: Region :: Denotes(owed, Owed(d, area) * area.Pixels()) &&
      rects == if tight then AllPieces(if |owed| > 60000 then [Bounds(owed)] else owed)
               else if |owed| > 60000 then [Bounds(owed)] else owed
  }

  /** An update for the area would have more rectangles than its count can hold. */
  ghost predicate TooMany(d: Debt, area: Rect, layout: bool, cursor: bool, tight: bool) {
    exists owed: Region :: Denotes(owed, Owed(d, area) * area.Pixels()) &&
      (if layout then 1 else 0) + (if cursor then 1 else 0) + |Sendable(d.copies, area)| + WireCount(owed, tight) > 65535
  }

  lemma TheDamage(d: Debt, area: Rect, damage: Region, tight: bool)
    requires Denotes(damage, Owed(d, area) * area.Pixels())
    ensures NormalRects(OnWire(damage, tight), d, area, tight)
  {
    hide Denotes, Owed, AllPieces;
  }

  lemma TooManyOf(d: Debt, area: Rect, damage: Region, layout: bool, cursor: bool, tight: bool)
    requires Denotes(damage, Owed(d, area) * area.Pixels())
    ensures TooMany(d, area, layout, cursor, tight) <==>
      (if layout then 1 else 0) + (if cursor then 1 else 0) + |Sendable(d.copies, area)| + WireCount(damage, tight) > 65535
  {
    hide Denotes, Owed, WireCount, Sendable;
    forall owed: Region | Denotes(owed, Owed(d, area) * area.Pixels()) ensures owed == damage {
      DenotesUnique(owed, damage, Owed(d, area) * area.Pixels());
    }
  }

  lemma NothingIsFew(d: Debt, area: Rect, tight: bool)
    requires Sendable(d.copies, area) == [] && Owed(d, area) * area.Pixels() == iset{}
    ensures !TooMany(d, area, false, false, tight)
  {
    hide NormalForm, Owed;
    NormalEmpty();
    assert Pixels([]) == iset{};
    TooManyOf(d, area, [], false, false, tight);
  }

  /** Without Tight no damage is too much: the copies alone can be. */
  lemma FewEnough(d: Debt, area: Rect, layout: bool, cursor: bool)
    ensures TooMany(d, area, layout, cursor, false) ==> |Sendable(d.copies, area)| > 5533
  {
  }

  /** With everything pending and nothing to copy, asked for as a whole, an update is refused
      only under Tight, and there exactly for the pictures of over 63488 by over 65504 pixels. */
  lemma WholePictureRefused(w: int, h: int, layout: bool, cursor: bool, tight: bool)
    requires 0 < w <= 65535 && 0 < h <= 65535
    ensures TooMany(Whole(Rect(0, 0, w, h)), Rect(0, 0, w, h), layout, cursor, tight) <==> tight && w > 63488 && h > 65504
  {
    hide NormalForm, Pieces;
    var r := Rect(0, 0, w, h);
    SingleNormal(r);
    OwedNone(r.Pixels(), r);
    assert Owed(Whole(r), r) * r.Pixels() == r.Pixels();
    TooManyOf(Whole(r), r, [r], layout, cursor, tight);
    WholePicturePieces(w, h);
    assert PiecesOfAll([r]) == Pieces(r) + PiecesOfAll([]);
  }

  method SplitAll(rects: seq<Rect>) returns (out: seq<Rect>)
    requires forall i :: 0 <= i < |rects| ==> !rects[i].IsEmpty()
    ensures out == AllPieces(rects) && Pixels(out) == Pixels(rects)
    ensures forall i :: 0 <= i < |out| ==> PieceRects(out[i]) == [out[i]]
  {
    hide PieceRects;
    out := [];
    for k := 0 to |rects|
      invariant out + AllPieces(rects[k..]) == AllPieces(rects)
      invariant forall i :: 0 <= i < |out| ==> PieceRects(out[i]) == [out[i]]
    {
      var pieces := SplitRect(rects[k]);
      forall i | 0 <= i < |pieces| ensures PieceRects(pieces[i]) == [pieces[i]] {
        PieceSplitsToItself(rects[k], pieces[i]);
      }
      assert rects[k..][1..] == rects[k + 1..];
      assert out + (pieces + AllPieces(rects[k + 1..])) == out + pieces + AllPieces(rects[k + 1..]);
      out := out + pieces;
    }
    assert rects[|rects|..] == [] && out + [] == out;
    forall z: Point ensures z in Pixels(out) <==> z in Pixels(rects) {
      AllPiecesHave(rects, z.x, z.y);
    }
  }

  lemma BoundsCover(damage: Region, area: Rect)
    requires NormalForm(damage) && damage != [] && Pixels(damage) <= area.Pixels()
    ensures !Bounds(damage).IsEmpty()
    ensures Pixels(damage) <= Pixels([Bounds(damage)]) <= area.Pixels()
  {
    var b := Bounds(damage);
    assert [b][0] == b;
    forall i | 0 <= i < |damage| ensures area.Contains(damage[i]) {
      forall x, y | damage[i].Has(x, y) ensures area.Has(x, y) {
        assert Point(x, y) in Pixels(damage);
      }
    }
    assert area.Contains(b);
    assert b.Contains(damage[0]) && damage[0].Has(damage[0].x1, damage[0].y1);
    forall z: Point | z in Pixels(damage) ensures z in Pixels([b]) {
      var i :| 0 <= i < |damage| && damage[i].Has(z.x, z.y);
      assert b.Contains(damage[i]);
    }
  }

  lemma NothingToTake(s: iset<Point>, t: iset<Point>)
    requires s * t == iset{}
    ensures s - t == s
  {
    forall z | z in s ensures z !in t {
      assert z !in s * t;
    }
  }

  lemma TakeArea(s: iset<Point>, t: iset<Point>)
    ensures s - s * t == s - t
  {
  }

  lemma OwedNone(was: iset<Point>, area: Rect)
    ensures was == was + Written(Demoted([], area))
  {
  }

  lemma OwedNext(was: iset<Point>, all: seq<Move>, i: nat, area: Rect)
    requires i < |all|
    ensures Sendable(all[..i + 1], area) ==
            if area.Contains(all[i].dst) then Sendable(all[..i], area) + [all[i]] else Sendable(all[..i], area)
    ensures was + Written(Demoted(all[..i + 1], area)) ==
            if area.Contains(all[i].dst) then was + Written(Demoted(all[..i], area))
            else was + Written(Demoted(all[..i], area)) + all[i].dst.Pixels()
  {
    assert all[..i + 1][..i] == all[..i];
    if !area.Contains(all[i].dst) {
      WrittenSnoc(Demoted(all[..i], area), all[i]);
    }
  }

  lemma WrittenSnoc(moves: seq<Move>, m: Move)
    ensures Written(moves + [m]) == Written(moves) + m.dst.Pixels()
  {
    forall z: Point ensures z in Written(moves + [m]) <==> z in Written(moves) || m.dst.Has(z.x, z.y) {
      if z in Written(moves) {
        var i :| 0 <= i < |moves| && moves[i].dst.Has(z.x, z.y);
        assert (moves + [m])[i] == moves[i];
      }
      assert (moves + [m])[|moves|] == m;
    }
  }

  // ---- When an update is asked for and there is nothing in it ----

  /** What the serving loop takes for work: see has_something_for. */
  ghost predicate Something(d: Debt, area: Rect, cursor: bool, layout: bool) {
    || layout || cursor
    || (exists i :: 0 <= i < |d.copies| && d.copies[i].dst.Intersects(area))
    || d.pending * area.Pixels() != iset{}
  }

  /** Setting the layout aside, an update is empty exactly when the loop sees no work. */
  lemma IdleIsNothing(d: Debt, area: Rect, cursor: bool)
    requires forall i :: 0 <= i < |d.copies| ==> !d.copies[i].dst.IsEmpty()
    ensures Idle(d, area, cursor, false) <==> !Something(d, area, cursor, false)
  {
    SplitCopies(d.copies, area);
    if Idle(d, area, cursor, false) {
      forall i | 0 <= i < |d.copies| ensures !d.copies[i].dst.Intersects(area) {
        IdleCopy(d, area, i);
      }
      forall z ensures z !in d.pending * area.Pixels() {
        assert z in d.pending ==> z in Owed(d, area);
        assert z !in Owed(d, area) * area.Pixels();
      }
    }
    if !Something(d, area, cursor, false) {
      NothingIsIdle(d, area);
    }
  }

  lemma IdleCopy(d: Debt, area: Rect, i: nat)
    requires i < |d.copies| && Sendable(d.copies, area) == [] && Owed(d, area) * area.Pixels() == iset{}
    ensures !d.copies[i].dst.Intersects(area)
  {
    SplitCopies(d.copies, area);
    var m := d.copies[i];
    assert m in Demoted(d.copies, area);
    forall x, y | m.dst.Has(x, y) ensures !area.Has(x, y) {
      WrittenMember(Demoted(d.copies, area), Point(x, y));
      assert Point(x, y) in Owed(d, area);
      assert Point(x, y) !in Owed(d, area) * area.Pixels();
    }
  }

  lemma NothingIsIdle(d: Debt, area: Rect)
    requires forall i :: 0 <= i < |d.copies| ==> !d.copies[i].dst.IsEmpty() && !d.copies[i].dst.Intersects(area)
    requires d.pending * area.Pixels() == iset{}
    ensures Sendable(d.copies, area) == [] && Owed(d, area) * area.Pixels() == iset{}
  {
    SplitCopies(d.copies, area);
    if Sendable(d.copies, area) != [] {
      var m := Sendable(d.copies, area)[0];
      assert m in d.copies;
      assert m.dst.Has(m.dst.x1, m.dst.y1);
    }
    forall z ensures z !in Owed(d, area) * area.Pixels() {
      WrittenMember(Demoted(d.copies, area), z);
      assert z !in d.pending * area.Pixels();
    }
  }

  /** The loop sees work and the update comes to nothing exactly when a layout
      is pending for a client that does not take ExtendedDesktopSize, and
      nothing else is. */
  lemma AskedForNothing(d: Debt, area: Rect, cursor: bool, layout: bool, extended: bool)
    requires forall i :: 0 <= i < |d.copies| ==> !d.copies[i].dst.IsEmpty()
    ensures Something(d, area, cursor, layout) && Idle(d, area, cursor, layout && extended)
      <==> layout && !extended && !Something(d, area, cursor, false)
  {
    IdleIsNothing(d, area, cursor);
  }
}
