/** How a session comes to see work in an update that is empty, and why it never
    stops seeing it: a layout is waiting for a client that cannot take one. */
module LayoutWaits {
  import opened Geometry
  import opened Regions
  import opened PixelSets
  import opened Pictures
  import opened Debts
  import opened Sessions

  /** Everything has been sent but a layout the client does not take. */
  ghost predicate Waiting(s: Session, bounds: Rect)
    reads s
  {
    && s.Valid() && s.Owes() == Debt(iset{}, [])
    && s.layoutPending && !s.Supports(PSEUDO_EXTENDED_DESKTOP_SIZE)
    && !(s.cursorPending && s.CursorEncoding().Some?)
    && bounds == Rect(0, 0, bounds.Width(), bounds.Height()) && s.clientSize == (bounds.Width(), bounds.Height())
  }

  /** A client that takes only the plain DesktopSize; the picture changes size, an
      update reads the new size before the frame's event is absorbed, and then
      everything is sent. Whatever the sizes and whatever was drawn. */
  method ResizeOvertakesEvent(width: nat, height: nat, bounds: Rect, ev: Event, area: Rect) returns (s: Session)
    requires bounds == Rect(0, 0, bounds.Width(), bounds.Height()) && (width, height) != (bounds.Width(), bounds.Height())
    requires ev.resized && !ev.cursor && ev.moves == [] && NormalForm(ev.damage) && Pixels(ev.damage) <= bounds.Pixels()
    ensures fresh(s) && Waiting(s, bounds)
  {
    hide NormalForm, Pixels, Carries, Idle;
    s := new Session(width, height);
    s.SetEncodings([PSEUDO_DESKTOP_SIZE], false);
    assert !s.tight;
    var resize := s.BuildUpdate(area, bounds);
    assert resize == Resize(bounds.Width(), bounds.Height(), false);
    s.Absorb(ev, bounds);
    assert s.Owes() == Whole(bounds) by {
      assert bounds.Pixels() + Pixels(ev.damage) == bounds.Pixels();
    }
    assert Sendable([], bounds) == [] && Demoted([], bounds) == [];
    var sent := s.BuildUpdate(bounds, bounds);
    assert Owed(Whole(bounds), bounds) - bounds.Pixels() == iset{};
  }

  /** From then on, whatever areas come due: each time the serving loop sees work,
      each time the update is empty, and nothing has changed. */
  method NeverAnythingToSend(s: Session, areas: seq<Rect>, bounds: Rect) returns (work: seq<bool>, sent: seq<Sent>)
    requires Waiting(s, bounds)
    modifies s
    ensures Waiting(s, bounds) && s.requested == old(s.requested) && s.continuous == old(s.continuous)
    ensures |work| == |sent| == |areas| && forall i :: 0 <= i < |areas| ==> work[i] && sent[i] == Nothing
  {
    hide NormalForm, Pixels, Carries;
    work, sent := [], [];
    for i := 0 to |areas|
      invariant Waiting(s, bounds) && s.requested == old(s.requested) && s.continuous == old(s.continuous)
      invariant |work| == |sent| == i && forall k :: 0 <= k < i ==> work[k] && sent[k] == Nothing
    {
      EmptyDebt(areas[i]);
      work := work + [s.HasSomethingFor(areas[i])];
      var one := s.BuildUpdate(areas[i], bounds);
      sent := sent + [one];
    }
  }

  lemma EmptyDebt(area: Rect)
    ensures Idle(Debt(iset{}, []), area, false, false)
    ensures AfterUpdate(Debt(iset{}, []), area) == Debt(iset{}, [])
  {
    assert Owed(Debt(iset{}, []), area) == iset{};
  }
}
