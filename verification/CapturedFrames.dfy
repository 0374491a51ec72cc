/** From the compare pass to the news a session is told: every frame after a
    first full one leaves the table in step, and its event explains the picture. */
module CapturedFrames {
  import opened Geometry
  import opened Regions
  import opened PixelSets
  import opened Pictures
  import opened Cells
  import opened Boxes
  import opened Tighteners
  import opened TightenReplay
  import opened Debts
  import opened PictureRuns

  /** The frames of one picture size, from the first pass over a fresh table:
      pictures[i + 1] is captured over pictures[i], moves i are what the backend
      reported of it, and damage i with them covers what changed. */
  datatype Capture = Capture(pictures: seq<Picture>, tables: seq<seq<nat>>, damages: seq<Region>, moves: seq<seq<Move>>,
                             outs: seq<Tightened>)
  {
    ghost predicate Shaped() {
      0 < |outs| == |damages| == |moves| && |pictures| == |tables| == |outs| + 1
    }
  }

  ghost predicate Pass(hash: Hash, g: Grid, c: Capture, i: nat)
    requires c.Shaped() && i < |c.outs|
  {
    && GridOf(g, c.pictures[i]) && GridOf(g, c.pictures[i + 1])
    && TightenedTo(hash, g, c.pictures[i + 1], c.tables[i], c.tables[i + 1], c.damages[i], c.moves[i], c.outs[i])
    && Covers(c.pictures[i], c.pictures[i + 1], c.damages[i], c.moves[i])
    && AllFit(c.pictures[i], c.moves[i]) && NoneEmpty(c.moves[i])
    && NoCollision(hash, c.pictures[i], c.pictures[i + 1]) && NeverUnknown(hash, c.pictures[i + 1])
  }

  /** A backend drops a move of which nothing is left in the picture. */
  ghost predicate NoneEmpty(moves: seq<Move>) { forall i :: 0 <= i < |moves| ==> !moves[i].dst.IsEmpty() }

  ghost predicate Captured(hash: Hash, g: Grid, c: Capture) {
    && c.Shaped()
    && (forall i :: 0 <= i < |c.outs| ==> Pass(hash, g, c, i))
    && (forall i :: 0 <= i < |c.tables[0]| ==> c.tables[0][i] == UNKNOWN)
    && (forall z: Point :: c.pictures[0].Holds(z) ==> z in Pixels(c.damages[0]))
  }

  ghost predicate AllInStep(hash: Hash, g: Grid, p: Picture, h: seq<nat>)
    requires GridOf(g, p) && |h| == g.Size()
  {
    forall k: Cell :: g.Has(k) ==> InStep(hash, g, p, h, k)
  }

  /** A fresh table holds nothing stale, and nothing to find a scroll in. */
  lemma FirstPass(hash: Hash, g: Grid, c: Capture)
    requires Captured(hash, g, c)
    ensures Frame(hash, g, c.pictures[0], c.pictures[1], c.tables[0], c.tables[1], c.damages[0], c.moves[0], c.outs[0])
    ensures c.moves[0] == [] ==> c.outs[0].moves == []
    ensures AllInStep(hash, g, c.pictures[1], c.tables[1])
  {
    hide Touched, CellPixels, Pixels, Matches, DetectedIn;
    assert Pass(hash, g, c, 0);
    assert forall k: Cell :: g.Has(k) ==> Get(c.tables[0], g, k) == UNKNOWN;
    TableFollows(hash, g, c.pictures[0], c.pictures[1], c.tables[0], c.tables[1], c.damages[0], c.moves[0], c.outs[0]);
    forall k: Cell | g.Has(k) ensures InStep(hash, g, c.pictures[1], c.tables[1], k) {
      var z := Point(SEGMENT * k.c, k.y);
      assert c.pictures[0].Holds(z) && CellOf(z) == k;
      DamagedIsTouched(g, c.pictures[0], c.damages[0], z);
    }
    if c.moves[0] == [] {
      NothingToFind(hash, g, c);
    }
  }

  lemma NothingToFind(hash: Hash, g: Grid, c: Capture)
    requires Captured(hash, g, c) && Pass(hash, g, c, 0) && AllInStep(hash, g, c.pictures[1], c.tables[1])
    requires c.moves[0] == []
    ensures c.outs[0].moves == []
  {
    hide Touched, CellPixels, Pixels, Bounds, Matches, AllInStep, NeverUnknown, DetectedIn;
    var box := BoxOf(g, Clip(g, Bounds(c.damages[0])));
    if g.Size() > 0 && c.outs[0].moves != [] {
      var dy := FoundIfAny(hash, g, c.pictures[1], c.tables[0], c.tables[1], c.damages[0], c.outs[0].moves);
      FoundMatches(g, c.tables[0], c.tables[1], box, dy, c.outs[0].moves);
      NoMatch(hash, g, c.pictures[1], c.tables[0], c.tables[1], box, dy);
      NoneMatched(g, c.tables[0], c.tables[1], box, dy, c.outs[0].moves);
    }
  }

  lemma FoundMatches(g: Grid, h0: seq<nat>, h2: seq<nat>, box: Box, dy: int, moves: seq<Move>)
    requires |h0| == g.Size() && |h2| == g.Size() && box.Inside(g) && Found(g, h0, h2, box, dy, moves)
    ensures forall i :: 0 <= i < |moves| ==>
      Matches(g, h0, h2, box, dy, Point(moves[i].dst.x1, moves[i].dst.y1))
    ensures forall i :: 0 <= i < |moves| ==> !moves[i].dst.IsEmpty()
  {
    hide Matches;
    forall i | 0 <= i < |moves|
      ensures !moves[i].dst.IsEmpty() && Matches(g, h0, h2, box, dy, Point(moves[i].dst.x1, moves[i].dst.y1))
    {
      assert Shift(g, h0, h2, box, dy, moves[i]);
    }
  }

  lemma NoneMatched(g: Grid, h0: seq<nat>, h2: seq<nat>, box: Box, dy: int, moves: seq<Move>)
    requires |h0| == g.Size() && |h2| == g.Size() && box.Inside(g)
    requires forall i :: 0 <= i < |moves| ==> Matches(g, h0, h2, box, dy, Point(moves[i].dst.x1, moves[i].dst.y1))
    requires forall z: Point :: !Matches(g, h0, h2, box, dy, z)
    ensures moves == []
  {
    assert |moves| > 0 ==> Matches(g, h0, h2, box, dy, Point(moves[0].dst.x1, moves[0].dst.y1));
  }

  lemma NoMatch(hash: Hash, g: Grid, p: Picture, h0: seq<nat>, h2: seq<nat>, box: Box, dy: int)
    requires GridOf(g, p) && |h0| == g.Size() == |h2| && box.Inside(g) && NeverUnknown(hash, p)
    requires (forall i :: 0 <= i < |h0| ==> h0[i] == UNKNOWN) && AllInStep(hash, g, p, h2)
    ensures forall z: Point :: !Matches(g, h0, h2, box, dy, z)
  {
    hide CellPixels;
    assert forall k: Cell :: g.Has(k) ==> Get(h0, g, k) == UNKNOWN;
    forall z: Point ensures !Matches(g, h0, h2, box, dy, z) {
      NoMatchAt(hash, g, p, h0, h2, box, dy, z);
    }
  }

  lemma NoMatchAt(hash: Hash, g: Grid, p: Picture, h0: seq<nat>, h2: seq<nat>, box: Box, dy: int, z: Point)
    requires GridOf(g, p) && |h0| == g.Size() == |h2| && box.Inside(g) && NeverUnknown(hash, p)
    requires (forall k: Cell :: g.Has(k) ==> Get(h0, g, k) == UNKNOWN) && AllInStep(hash, g, p, h2)
    ensures !Matches(g, h0, h2, box, dy, z)
  {
    hide CellPixels, Get;
    assert box.Has(CellOf(z)) ==> g.Has(CellOf(z)) && InStep(hash, g, p, h2, CellOf(z));
  }

  /** After every pass the whole table is in step, whatever the backend reported
      of the frame and whether or not it was true. */
  lemma {:induction false} StaysAllInStep(hash: Hash, g: Grid, c: Capture, i: nat)
    requires Captured(hash, g, c) && i < |c.outs|
    ensures Pass(hash, g, c, i) && AllInStep(hash, g, c.pictures[i + 1], c.tables[i + 1])
    ensures Frame(hash, g, c.pictures[i], c.pictures[i + 1], c.tables[i], c.tables[i + 1], c.damages[i], c.moves[i], c.outs[i])
    ensures c.moves[i] == [] && c.outs[i].moves != [] ==> AllInStep(hash, g, c.pictures[i], c.tables[i])
  {
    hide Pass, AllInStep, Frame, TightenedTo;
    assert Pass(hash, g, c, i);
    if i == 0 {
      FirstPass(hash, g, c);
    } else {
      StaysAllInStep(hash, g, c, i - 1);
      FrameSizes(hash, g, c.pictures[i - 1], c.pictures[i], c.tables[i - 1], c.tables[i], c.damages[i - 1], c.moves[i - 1], c.outs[i - 1]);
      NextPass(hash, g, c, i);
    }
  }

  lemma FrameSizes(hash: Hash, g: Grid, old_: Picture, new_: Picture, h0: seq<nat>, h2: seq<nat>,
                   damage: Region, moves: seq<Move>, out: Tightened)
    requires Frame(hash, g, old_, new_, h0, h2, damage, moves, out)
    ensures |h0| == g.Size() == |h2|
  {
  }

  lemma NextPass(hash: Hash, g: Grid, c: Capture, i: nat)
    requires c.Shaped() && i < |c.outs| && Pass(hash, g, c, i)
    requires |c.tables[i]| == g.Size() && AllInStep(hash, g, c.pictures[i], c.tables[i])
    ensures Frame(hash, g, c.pictures[i], c.pictures[i + 1], c.tables[i], c.tables[i + 1], c.damages[i], c.moves[i], c.outs[i])
    ensures AllInStep(hash, g, c.pictures[i + 1], c.tables[i + 1])
  {
    hide Touched, CellPixels, Pixels, TightenedTo, NoCollision, NeverUnknown, Covers;
    TableFollows(hash, g, c.pictures[i], c.pictures[i + 1], c.tables[i], c.tables[i + 1], c.damages[i], c.moves[i], c.outs[i]);
  }

  /** What a frame's event comes to. */
  function Told(c: Capture, i: nat, cursor: bool): Change
    requires i < |c.outs| && i + 1 < |c.pictures|
  {
    Change(Event(c.outs[i].damage, c.outs[i].moves, false, cursor), c.pictures[i + 1])
  }

  /** In every run of frames, detected and reported ones mixed, an event says
      exactly how the picture changed if and only if the frame's reported moves,
      if any, are true of the new picture and swallow no change beside them. */
  lemma PassIsTruthful(hash: Hash, g: Grid, c: Capture, i: nat, cursor: bool)
    requires Captured(hash, g, c) && i < |c.outs|
    ensures Pass(hash, g, c, i)
    ensures Truthful(c.pictures[i], Told(c, i, cursor)) <==> c.moves[i] == [] || Believable(g, c.pictures[i], c.pictures[i + 1], c.moves[i])
    ensures c.outs[i] == Tightened([], []) ==> c.pictures[i] == c.pictures[i + 1]
  {
    StaysAllInStep(hash, g, c, i);
    hide AllInStep, Frame, Captured, Truthful, Believable;
    FrameIsTruthful(hash, g, c.pictures[i], c.pictures[i + 1], c.tables[i], c.tables[i + 1], c.damages[i], c.moves[i], c.outs[i], cursor);
  }

  ghost predicate Believable(g: Grid, old_: Picture, new_: Picture, moves: seq<Move>) {
    && GridOf(g, old_) && GridOf(g, new_) && AllFit(old_, moves)
    && MovesTrue(old_, new_, moves) && NothingSwallowed(g, old_, new_, moves)
  }

  lemma FrameIsTruthful(hash: Hash, g: Grid, old_: Picture, new_: Picture, h0: seq<nat>, h2: seq<nat>,
                        damage: Region, moves: seq<Move>, out: Tightened, cursor: bool)
    requires Frame(hash, g, old_, new_, h0, h2, damage, moves, out) && NoneEmpty(moves)
    requires moves == [] && out.moves != [] ==> AllInStep(hash, g, old_, h0)
    ensures Truthful(old_, Change(Event(out.damage, out.moves, false, cursor), new_)) <==> moves == [] || Believable(g, old_, new_, moves)
    ensures out == Tightened([], []) ==> old_ == new_
  {
    hide NothingStale, NoCollision, NeverUnknown, Covers, Pixels, TightenedTo, MovesTrue, NothingSwallowed, AllInStep, Truthful;
    DamageInside(hash, g, old_, new_, h0, h2, damage, moves, out);
    FrameSizes(hash, g, old_, new_, h0, h2, damage, moves, out);
    if moves == [] {
      KnownBox(hash, g, old_, h0, damage, out);
      ReplayIsExact(hash, g, old_, new_, h0, h2, damage, out);
    } else {
      ReportedReplayIff(hash, g, old_, new_, h0, h2, damage, moves, out);
    }
    ExactIsTruthful(old_, new_, out, cursor);
    if out == Tightened([], []) {
      SaysNothing(hash, g, old_, new_, h0, h2, damage, moves, out);
    }
  }

  lemma KnownBox(hash: Hash, g: Grid, p: Picture, h: seq<nat>, damage: Region, out: Tightened)
    requires GridOf(g, p) && |h| == g.Size() && (out.moves != [] ==> AllInStep(hash, g, p, h))
    ensures out.moves != [] ==> BoxKnown(hash, g, p, h, damage)
  {
    hide InStep, Bounds;
  }

  /** An event is truthful when replaying it gives the new picture. */
  lemma ExactIsTruthful(old_: Picture, new_: Picture, out: Tightened, cursor: bool)
    requires old_.Valid() && new_.Valid() && old_.SameSize(new_) && AllFit(old_, out.moves) && NoneEmpty(out.moves)
    requires Pixels(out.damage) <= new_.Bounds().Pixels()
    ensures Truthful(old_, Change(Event(out.damage, out.moves, false, cursor), new_))
      <==> Paint(Replay(old_, out.moves), new_, Pixels(out.damage)) == new_
  {
    hide Pixels, Replay;
    var c := Change(Event(out.damage, out.moves, false, cursor), new_);
    var shown := Paint(Replay(old_, out.moves), new_, Pixels(out.damage));
    assert AllFit(new_, out.moves);
    if Truthful(old_, c) {
      Same(shown, new_);
    }
    if shown == new_ {
      forall z: Point | new_.Holds(z) && z !in Pixels(out.damage) ensures new_.At(z) == Replay(old_, out.moves).At(z) {
        assert shown.At(z) == Replay(old_, out.moves).At(z);
      }
    }
  }

  /** A pass that comes to nothing was told of no move, so its silence is exact. */
  lemma SaysNothing(hash: Hash, g: Grid, old_: Picture, new_: Picture, h0: seq<nat>, h2: seq<nat>,
                    damage: Region, moves: seq<Move>, out: Tightened)
    requires Frame(hash, g, old_, new_, h0, h2, damage, moves, out) && out == Tightened([], [])
    ensures old_ == new_
  {
    hide Touched, CellPixels, Bounds, Matches, Found, Pixels, DetectedIn;
    if g.Size() == 0 {
      NoPixels(g, old_);
      Same(old_, new_);
    } else {
      assert moves == [];
      ReplayIsExact(hash, g, old_, new_, h0, h2, damage, out);
      SilentFrame(old_, new_);
    }
  }

  lemma SilentFrame(old_: Picture, new_: Picture)
    requires old_.Valid() && new_.Valid() && old_.SameSize(new_) && Paint(Replay(old_, []), new_, Pixels([])) == new_
    ensures old_ == new_
  {
    Same(Paint(old_, new_, Pixels([])), old_);
  }

  lemma DamageInside(hash: Hash, g: Grid, old_: Picture, new_: Picture, h0: seq<nat>, h2: seq<nat>,
                     damage: Region, moves: seq<Move>, out: Tightened)
    requires Frame(hash, g, old_, new_, h0, h2, damage, moves, out) && NoneEmpty(moves)
    ensures Pixels(out.damage) <= new_.Bounds().Pixels() && NoneEmpty(out.moves)
  {
    hide Touched, CellPixels, Bounds, Matches, Found, DetectedIn;
    if g.Size() > 0 && moves == [] && out.moves != [] {
      var dy := FoundIfAny(hash, g, new_, h0, h2, damage, out.moves);
      FoundMatches(g, h0, h2, BoxOf(g, Clip(g, Bounds(damage))), dy, out.moves);
    }
  }
}
