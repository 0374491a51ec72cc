/** What a session still owes its client: pixels to send and copies it can
    still make. The steps here are on values; the session's methods keep to them. */
module Debts {
  import opened Geometry
  import opened Regions
  import opened PixelSets
  import opened Pictures

  /** A frame's news: what was drawn, what moved, and whether the size changed. */
  datatype Event = Event(damage: Region, moves: seq<Move>, resized: bool, cursor: bool)

  datatype Debt = Debt(pending: iset<Point>, copies: seq<Move>)

  /** Neither move writes what the other reads, nor where the other writes. */
  ghost predicate Apart(c: Move, m: Move) {
    !c.dst.Intersects(m.Src()) && !c.dst.Intersects(m.dst) && !c.Src().Intersects(m.dst)
  }

  ghost predicate Independent(copies: seq<Move>) {
    forall i, j :: 0 <= i < j < |copies| ==> Apart(copies[i], copies[j])
  }

  /** A copy reproduces a move only where the client's source is current. */
  ghost predicate Clean(copyRect: bool, d: Debt, m: Move) {
    && copyRect
    && d.pending * m.Src().Pixels() == iset{}
    && forall i :: 0 <= i < |d.copies| ==> Apart(d.copies[i], m)
  }

  ghost function AbsorbMove(copyRect: bool, d: Debt, m: Move): Debt {
    if Clean(copyRect, d, m) then Debt(d.pending - m.dst.Pixels(), d.copies + [m])
    else Debt(d.pending + m.dst.Pixels(), d.copies)
  }

  ghost function AbsorbMoves(copyRect: bool, d: Debt, moves: seq<Move>): Debt {
    if moves == [] then d
    else AbsorbMove(copyRect, AbsorbMoves(copyRect, d, moves[..|moves| - 1]), moves[|moves| - 1])
  }

  /** Everything is owed, nothing can be copied. */
  ghost function Whole(bounds: Rect): Debt { Debt(bounds.Pixels(), []) }

  ghost function AbsorbEvent(copyRect: bool, d: Debt, ev: Event, bounds: Rect): Debt {
    var moved := AbsorbMoves(copyRect, if ev.resized then Whole(bounds) else d, ev.moves);
    moved.(pending := moved.pending + Pixels(ev.damage))
  }

  /** The copies whose destination lies in the area asked for, in order. */
  function Sendable(copies: seq<Move>, area: Rect): seq<Move> {
    if copies == [] then []
    else
      var n := |copies| - 1;
      if area.Contains(copies[n].dst) then Sendable(copies[..n], area) + [copies[n]] else Sendable(copies[..n], area)
  }

  /** The others, which become damage. */
  function Demoted(copies: seq<Move>, area: Rect): seq<Move> {
    if copies == [] then []
    else
      var n := |copies| - 1;
      if area.Contains(copies[n].dst) then Demoted(copies[..n], area) else Demoted(copies[..n], area) + [copies[n]]
  }

  /** What is owed once the copies an update cannot carry are demoted. */
  ghost function Owed(d: Debt, area: Rect): iset<Point> { d.pending + Written(Demoted(d.copies, area)) }

  /** What an update for the area leaves owing. */
  ghost function AfterUpdate(d: Debt, area: Rect): Debt { Debt(Owed(d, area) - area.Pixels(), []) }

  // ---- Splitting the copies ----

  lemma {:induction false} SplitCopies(copies: seq<Move>, area: Rect)
    ensures forall m :: m in copies <==> m in Sendable(copies, area) || m in Demoted(copies, area)
    ensures forall m :: m in Sendable(copies, area) ==> area.Contains(m.dst)
    ensures forall m :: m in Demoted(copies, area) ==> !area.Contains(m.dst)
  {
    if copies != [] {
      SplitCopies(copies[..|copies| - 1], area);
      assert copies == copies[..|copies| - 1] + [copies[|copies| - 1]];
    }
  }

  /** Any part of an independent list is independent. */
  lemma {:induction false} SendableIndependent(copies: seq<Move>, area: Rect)
    requires Independent(copies)
    ensures Independent(Sendable(copies, area))
  {
    if copies != [] {
      var n := |copies| - 1;
      var init := copies[..n];
      assert Independent(init) by {
        assert forall i :: 0 <= i < n ==> init[i] == copies[i];
      }
      SendableIndependent(init, area);
      SplitCopies(init, area);
      forall m | m in init ensures Apart(m, copies[n]) {
        var i :| 0 <= i < n && init[i] == m;
        assert Apart(copies[i], copies[n]);
      }
    }
  }

  lemma IndependentInOrder(copies: seq<Move>)
    requires Independent(copies)
    ensures InOrder(copies)
  {
    forall i, j | 0 <= i < j < |copies| ensures Undisturbed(copies[i], copies[j]) {
      assert Apart(copies[i], copies[j]);
    }
  }

  lemma WrittenMember(moves: seq<Move>, z: Point)
    ensures z in Written(moves) <==> exists m :: m in moves && m.dst.Has(z.x, z.y)
  {
    if m :| m in moves && m.dst.Has(z.x, z.y) {
      var i :| 0 <= i < |moves| && moves[i] == m;
    }
  }

  /** Off the demoted destinations, replaying only what is sendable leaves what
      replaying everything would: dropping copies disturbs no other copy. */
  lemma DemotingIsSafe(p: Picture, copies: seq<Move>, area: Rect, z: Point)
    requires p.Valid() && AllFit(p, copies) && Independent(copies) && p.Holds(z)
    requires z !in Written(Demoted(copies, area))
    ensures AllFit(p, Sendable(copies, area))
    ensures Replay(p, Sendable(copies, area)).At(z) == Replay(p, copies).At(z)
  {
    var some := Sendable(copies, area);
    SplitCopies(copies, area);
    SendableIndependent(copies, area);
    IndependentInOrder(copies);
    IndependentInOrder(some);
    assert AllFit(p, some) by {
      forall i | 0 <= i < |some| ensures p.Fits(some[i]) {
        assert some[i] in copies;
      }
    }
    WrittenMember(copies, z);
    WrittenMember(some, z);
    WrittenMember(Demoted(copies, area), z);
    if z in Written(some) {
      var i :| 0 <= i < |some| && some[i].dst.Has(z.x, z.y);
      assert some[i] in copies;
      var j :| 0 <= j < |copies| && copies[j] == some[i];
      ReplayParallel(p, some, i, z);
      ReplayParallel(p, copies, j, z);
    } else {
      ReplayElsewhere(p, some, z);
      ReplayElsewhere(p, copies, z);
    }
  }

  // ---- The invariant between the client and the absorbed picture ----

  /** The client's picture, once the queued copies are made, is the server's
      everywhere outside what is pending; and the copies may be made in any
      part, in any order. */
  ghost predicate Agrees(client: Picture, server: Picture, d: Debt) {
    && client.Valid() && server.Valid() && client.SameSize(server)
    && AllFit(client, d.copies) && Independent(d.copies)
    && d.pending <= client.Bounds().Pixels()
    && forall z: Point :: client.Holds(z) && z !in d.pending ==> Replay(client, d.copies).At(z) == server.At(z)
  }

  lemma WholeAgrees(client: Picture, server: Picture)
    requires client.Valid() && server.Valid() && client.SameSize(server)
    ensures Agrees(client, server, Whole(client.Bounds()))
  {
    forall z: Point | client.Holds(z) ensures z in Whole(client.Bounds()).pending {
    }
  }

  lemma AbsorbMoveKeeps(copyRect: bool, client: Picture, server: Picture, d: Debt, m: Move)
    requires Agrees(client, server, d) && server.Fits(m)
    ensures Agrees(client, CopyBlock(server, m), AbsorbMove(copyRect, d, m))
  {
    var d', after := AbsorbMove(copyRect, d, m), CopyBlock(server, m);
    DstInside(client, m);
    if Clean(copyRect, d, m) {
      AppendCopy(client, d.copies, m);
      forall z: Point | client.Holds(z) && z !in d'.pending ensures Replay(client, d'.copies).At(z) == after.At(z) {
        if m.dst.Has(z.x, z.y) {
          InsideOrigin(client, m, z);
          assert m.Origin(z) in m.Src().Pixels();
          assert m.Origin(z) !in d.pending * m.Src().Pixels();
        }
      }
    } else {
      forall z: Point | client.Holds(z) && z !in d'.pending ensures Replay(client, d'.copies).At(z) == after.At(z) {
        assert !m.dst.Has(z.x, z.y);
      }
    }
  }

  lemma DstInside(p: Picture, m: Move)
    requires p.Fits(m)
    ensures m.dst.Pixels() <= p.Bounds().Pixels()
  {
  }

  lemma AppendCopy(client: Picture, copies: seq<Move>, m: Move)
    requires client.Valid() && AllFit(client, copies) && Independent(copies) && client.Fits(m)
    requires forall i :: 0 <= i < |copies| ==> Apart(copies[i], m)
    ensures AllFit(client, copies + [m]) && Independent(copies + [m])
    ensures Replay(client, copies + [m]) == CopyBlock(Replay(client, copies), m)
  {
    var all := copies + [m];
    assert all[..|all| - 1] == copies;
  }

  lemma {:induction false} AbsorbMovesKeep(copyRect: bool, client: Picture, server: Picture, d: Debt, moves: seq<Move>)
    requires Agrees(client, server, d) && AllFit(server, moves)
    ensures Agrees(client, Replay(server, moves), AbsorbMoves(copyRect, d, moves))
  {
    assert server.Valid();
    hide Agrees, AbsorbMove;
    if moves != [] {
      var n := |moves| - 1;
      AbsorbMovesKeep(copyRect, client, server, d, moves[..n]);
      AbsorbMoveKeeps(copyRect, client, Replay(server, moves[..n]), AbsorbMoves(copyRect, d, moves[..n]), moves[n]);
    }
  }

  // ---- What each step owes, pixel by pixel ----

  /** A move is queued as a copy exactly when the client takes copies, none of its source is
      pending, and it shares no pixel with an unsent copy that either of the two writes; what it
      covers is then no longer pending. Otherwise what it covers is pending. */
  lemma AbsorbMoveIff(copyRect: bool, d: Debt, m: Move)
    ensures AbsorbMove(copyRect, d, m).copies == d.copies + [m] <==>
              && copyRect
              && (forall x, y :: m.Src().Has(x, y) ==> Point(x, y) !in d.pending)
              && (forall i, x, y :: 0 <= i < |d.copies| ==>
                    && !(d.copies[i].dst.Has(x, y) && (m.Src().Has(x, y) || m.dst.Has(x, y)))
                    && !(d.copies[i].Src().Has(x, y) && m.dst.Has(x, y)))
    ensures AbsorbMove(copyRect, d, m).copies == d.copies || AbsorbMove(copyRect, d, m).copies == d.copies + [m]
    ensures forall z: Point :: z in AbsorbMove(copyRect, d, m).pending <==>
              if m.dst.Has(z.x, z.y) then AbsorbMove(copyRect, d, m).copies == d.copies else z in d.pending
  {
    CleanIff(copyRect, d, m);
    assert |d.copies + [m]| != |d.copies|;
  }

  lemma CleanIff(copyRect: bool, d: Debt, m: Move)
    ensures Clean(copyRect, d, m) <==>
              && copyRect
              && (forall x, y :: m.Src().Has(x, y) ==> Point(x, y) !in d.pending)
              && (forall i, x, y :: 0 <= i < |d.copies| ==>
                    && !(d.copies[i].dst.Has(x, y) && (m.Src().Has(x, y) || m.dst.Has(x, y)))
                    && !(d.copies[i].Src().Has(x, y) && m.dst.Has(x, y)))
  {
    var src := m.Src();
    assert (forall x, y :: src.Has(x, y) ==> Point(x, y) !in d.pending) <==> d.pending * src.Pixels() == iset{} by {
      if d.pending * src.Pixels() == iset{} {
        forall x, y | src.Has(x, y) ensures Point(x, y) !in d.pending {
          assert Point(x, y) !in d.pending * src.Pixels();
        }
      }
    }
  }

  lemma {:induction false} MovesOwe(copyRect: bool, d: Debt, moves: seq<Move>)
    ensures d.pending - Written(moves) <= AbsorbMoves(copyRect, d, moves).pending <= d.pending + Written(moves)
    ensures !copyRect ==> AbsorbMoves(copyRect, d, moves) == Debt(d.pending + Written(moves), d.copies)
  {
    if moves == [] {
      assert Written(moves) == iset{};
      assert d.pending + iset{} == d.pending;
    } else {
      var n := |moves| - 1;
      MovesOwe(copyRect, d, moves[..n]);
      LastWritten(moves);
      assert !copyRect ==> d.pending + Written(moves[..n]) + moves[n].dst.Pixels() == d.pending + Written(moves);
    }
  }

  lemma LastWritten(moves: seq<Move>)
    requires moves != []
    ensures var n := |moves| - 1; Written(moves) == Written(moves[..n]) + moves[n].dst.Pixels()
  {
    var n := |moves| - 1;
    forall z: Point ensures z in Written(moves) <==> z in Written(moves[..n]) || z in moves[n].dst.Pixels() {
      if z in Written(moves[..n]) {
        var k :| 0 <= k < n && moves[..n][k].dst.Has(z.x, z.y);
        assert moves[k].dst.Has(z.x, z.y);
      }
    }
  }

  /** What a frame's event leaves owing: all of its damage, nothing but that, what was owed and
      what moved, and of what was owed everything the moves do not cover. To a client that takes
      no copies, every pixel that moved. */
  lemma EventOwes(copyRect: bool, d: Debt, ev: Event, bounds: Rect)
    ensures var was, now := if ev.resized then bounds.Pixels() else d.pending, AbsorbEvent(copyRect, d, ev, bounds).pending;
            && Pixels(ev.damage) <= now && was - Written(ev.moves) <= now <= was + Written(ev.moves) + Pixels(ev.damage)
            && (!copyRect ==> now == was + Written(ev.moves) + Pixels(ev.damage))
  {
    MovesOwe(copyRect, if ev.resized then Whole(bounds) else d, ev.moves);
  }

  /** After an update for an area what is owed lies outside it: what was pending there, and
      what the copies not wholly inside the area would have written there. */
  lemma AfterUpdateIff(d: Debt, area: Rect, z: Point)
    ensures AfterUpdate(d, area).copies == []
    ensures z in AfterUpdate(d, area).pending <==>
              && !area.Has(z.x, z.y)
              && (z in d.pending || exists i :: 0 <= i < |d.copies| && !area.Contains(d.copies[i].dst) && d.copies[i].dst.Has(z.x, z.y))
  {
    SplitCopies(d.copies, area);
    WrittenMember(Demoted(d.copies, area), z);
    if i :| 0 <= i < |d.copies| && !area.Contains(d.copies[i].dst) && d.copies[i].dst.Has(z.x, z.y) {
      assert d.copies[i] in Demoted(d.copies, area);
    }
  }

  /** The copies sent are those inside the area, in their order and as often as they come. */
  ghost predicate InOrderAt(some: seq<Move>, all: seq<Move>, at: seq<nat>, area: Rect) {
    && |at| == |some| && (forall k :: 0 <= k < |at| ==> at[k] < |all| && some[k] == all[at[k]])
    && (forall j, k :: 0 <= j < k < |at| ==> at[j] < at[k])
    && (forall i :: 0 <= i < |all| ==> (area.Contains(all[i].dst) <==> i in at))
  }

  lemma OneMoreInOrder(some: seq<Move>, all: seq<Move>, at: seq<nat>, area: Rect, m: Move)
    requires InOrderAt(some, all, at, area)
    ensures if area.Contains(m.dst) then InOrderAt(some + [m], all + [m], at + [|all|], area) else InOrderAt(some, all + [m], at, area)
  {
    hide Rect.Contains;
    var more := at + [|all|];
    assert forall i :: i in more <==> i in at || i == |all|;
    assert forall i :: i in at ==> i < |all|;
  }

  lemma {:induction false} SendableInOrder(copies: seq<Move>, area: Rect)
    ensures exists at: seq<nat> :: InOrderAt(Sendable(copies, area), copies, at, area)
  {
    if copies == [] {
      var none: seq<nat> := [];
      assert InOrderAt(Sendable(copies, area), copies, none, area);
    } else {
      var n := |copies| - 1;
      SendableInOrder(copies[..n], area);
      hide InOrderAt, Rect.Contains;
      var at: seq<nat> :| InOrderAt(Sendable(copies[..n], area), copies[..n], at, area);
      OneMoreInOrder(Sendable(copies[..n], area), copies[..n], at, area, copies[n]);
      assert copies[..n] + [copies[n]] == copies;
      assert InOrderAt(Sendable(copies, area), copies, if area.Contains(copies[n].dst) then at + [n] else at, area);
    }
  }
}
