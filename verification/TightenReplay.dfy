/** What a client holding the old picture ends up with: the copies in order,
    then the pixels. The compare pass is right when that is the new picture. */
module TightenReplay {
  import opened Geometry
  import opened Regions
  import opened PixelSets
  import opened Pictures
  import opened Cells
  import opened Boxes
  import opened Tighteners

  // ---- The bet on the hash, and what the pass is told ----

  /** No two equally wide cells of the two pictures collide. */
  ghost predicate NoCollision(hash: Hash, p: Picture, q: Picture)
    requires p.Valid() && q.Valid()
  {
    forall k: Cell, m: Cell ::
      Grid(p.width, p.height).Has(k) && Grid(q.width, q.height).Has(m) &&
      |CellPixels(p, k)| == |CellPixels(q, m)| && hash(CellPixels(p, k)) == hash(CellPixels(q, m)) ==>
        CellPixels(p, k) == CellPixels(q, m)
  }

  ghost predicate NeverUnknown(hash: Hash, p: Picture)
    requires p.Valid()
  {
    forall k: Cell :: Grid(p.width, p.height).Has(k) ==> hash(CellPixels(p, k)) != UNKNOWN
  }

  ghost predicate InStep(hash: Hash, g: Grid, p: Picture, h: seq<nat>, k: Cell)
    requires GridOf(g, p) && |h| == g.Size() && g.Has(k)
  {
    Get(h, g, k) == hash(CellPixels(p, k))
  }

  /** Every cell is either in step with the picture or has never been seen. */
  ghost predicate NothingStale(hash: Hash, g: Grid, p: Picture, h: seq<nat>)
    requires GridOf(g, p) && |h| == g.Size()
  {
    forall k: Cell :: g.Has(k) ==> InStep(hash, g, p, h, k) || Get(h, g, k) == UNKNOWN
  }

  /** Every cell of the box around the damage has been seen. */
  ghost predicate BoxKnown(hash: Hash, g: Grid, p: Picture, h: seq<nat>, damage: Region)
    requires GridOf(g, p) && |h| == g.Size()
  {
    forall k: Cell :: g.Has(k) && BoxOf(g, Clip(g, Bounds(damage))).Has(k) ==> InStep(hash, g, p, h, k)
  }

  /** Every pixel that differs lies in the damage, or under a reported move. */
  ghost predicate Covers(old_: Picture, new_: Picture, damage: Region, moves: seq<Move>)
    requires old_.Valid() && new_.Valid() && old_.SameSize(new_)
  {
    forall z: Point :: old_.Holds(z) && old_.At(z) != new_.At(z) ==> z in Pixels(damage) || z in Written(moves)
  }

  /** One frame: two pictures of one size, a table that is not stale, and what the pass made of it. */
  ghost predicate Frame(hash: Hash, g: Grid, old_: Picture, new_: Picture, h0: seq<nat>, h2: seq<nat>,
                        damage: Region, moves: seq<Move>, out: Tightened)
  {
    && GridOf(g, old_) && GridOf(g, new_)
    && TightenedTo(hash, g, new_, h0, h2, damage, moves, out)
    && NothingStale(hash, g, old_, h0)
    && NoCollision(hash, old_, new_) && NeverUnknown(hash, new_)
    && Covers(old_, new_, damage, moves)
    && AllFit(old_, moves)
  }

  // ---- Lemmas on single pixels ----

  lemma DamagedIsTouched(g: Grid, p: Picture, damage: Region, z: Point)
    requires GridOf(g, p) && p.Holds(z) && z in Pixels(damage)
    ensures g.Has(CellOf(z)) && CellOf(z) in Touched(g, damage, |damage|)
  {
    CellOfPixel(g, z);
    var i :| 0 <= i < |damage| && damage[i].Has(z.x, z.y);
    var r := Clip(g, damage[i]);
    assert r.Has(z.x, z.y);
    TouchedCells(g, r, CellOf(z));
  }

  /** A pixel that differs, under no followed cell, is never lost. */
  lemma ChangedIsReported(hash: Hash, g: Grid, old_: Picture, new_: Picture, h0: seq<nat>, h2: seq<nat>,
                          damage: Region, moves: seq<Move>, out: Tightened, z: Point)
    requires Frame(hash, g, old_, new_, h0, h2, damage, moves, out)
    requires old_.Holds(z) && old_.At(z) != new_.At(z) && z in Pixels(damage)
    requires g.Has(CellOf(z)) && CellOf(z) !in Touched(g, Dsts(moves), |moves|)
    ensures z in ChangedPixels(hash, g, new_, h0, damage, moves)
  {
    hide CellPixels, Touched, Get, Pixels, DetectedIn;
    DamagedIsTouched(g, new_, damage, z);
    var k := CellOf(z);
    if hash(CellPixels(old_, k)) == hash(CellPixels(new_, k)) {
      SameWidth(old_, new_, k, k);
      SameCellPixel(old_, new_, z, z);
    }
  }

  lemma SameWidth(p: Picture, q: Picture, k: Cell, m: Cell)
    requires p.Valid() && q.Valid() && p.SameSize(q)
    requires Grid(p.width, p.height).Has(k) && Grid(q.width, q.height).Has(m) && k.c == m.c
    ensures |CellPixels(p, k)| == |CellPixels(q, m)|
  {
  }

  /** After the pass a cell that was in step with the old picture is in step with the new one. */
  lemma StaysInStep(hash: Hash, g: Grid, old_: Picture, new_: Picture, h0: seq<nat>, h2: seq<nat>,
                    damage: Region, moves: seq<Move>, out: Tightened, k: Cell)
    requires Frame(hash, g, old_, new_, h0, h2, damage, moves, out)
    requires g.Has(k) && InStep(hash, g, old_, h0, k)
    ensures InStep(hash, g, new_, h2, k)
  {
    hide CellPixels, Get, Pixels, DetectedIn;
    NonEmptyGrid(g, k);
    var seen := Touched(g, Dsts(moves), |moves|) + Touched(g, damage, |damage|);
    assert Get(h2, g, k) == if k in seen then hash(CellPixels(new_, k)) else Get(h0, g, k);
    if k !in seen {
      forall z: Point | old_.Holds(z) && CellOf(z) == k ensures old_.At(z) == new_.At(z) {
        if old_.At(z) != new_.At(z) {
          ChangedIsSeen(g, old_, new_, damage, moves, z);
        }
      }
      UnchangedCell(old_, new_, k);
    }
  }

  lemma NonEmptyGrid(g: Grid, k: Cell)
    requires g.Has(k)
    ensures g.Size() > 0
  {
    assert g.Index(k) < g.Size();
  }

  lemma ChangedIsSeen(g: Grid, old_: Picture, new_: Picture, damage: Region, moves: seq<Move>, z: Point)
    requires GridOf(g, old_) && GridOf(g, new_) && Covers(old_, new_, damage, moves)
    requires old_.Holds(z) && old_.At(z) != new_.At(z)
    ensures CellOf(z) in Touched(g, Dsts(moves), |moves|) + Touched(g, damage, |damage|)
  {
    hide Touched;
    if z in Pixels(damage) {
      DamagedIsTouched(g, new_, damage, z);
    } else {
      WrittenIsTouched(g, old_, moves, z);
    }
  }

  lemma WrittenIsTouched(g: Grid, p: Picture, moves: seq<Move>, z: Point)
    requires GridOf(g, p) && p.Holds(z) && z in Written(moves)
    ensures CellOf(z) in Touched(g, Dsts(moves), |moves|)
  {
    var i :| 0 <= i < |moves| && moves[i].dst.Has(z.x, z.y);
    assert Dsts(moves)[i].Has(z.x, z.y);
    assert z in Pixels(Dsts(moves));
    DamagedIsTouched(g, p, Dsts(moves), z);
  }

  /** The hash table is in step with the new picture afterwards, wherever it was in step before. */
  lemma TableFollows(hash: Hash, g: Grid, old_: Picture, new_: Picture, h0: seq<nat>, h2: seq<nat>,
                     damage: Region, moves: seq<Move>, out: Tightened)
    requires Frame(hash, g, old_, new_, h0, h2, damage, moves, out)
    ensures NothingStale(hash, g, new_, h2)
    ensures forall k: Cell :: g.Has(k) && InStep(hash, g, old_, h0, k) ==> InStep(hash, g, new_, h2, k)
    ensures forall k: Cell :: g.Has(k) && k in Touched(g, damage, |damage|) ==> InStep(hash, g, new_, h2, k)
  {
    hide CellPixels, Touched, Get, Covers, NoCollision, NeverUnknown, Pixels, DetectedIn;
    var seen := Touched(g, Dsts(moves), |moves|) + Touched(g, damage, |damage|);
    forall k: Cell | g.Has(k)
      ensures InStep(hash, g, new_, h2, k) || Get(h2, g, k) == UNKNOWN
      ensures InStep(hash, g, old_, h0, k) ==> InStep(hash, g, new_, h2, k)
      ensures k in seen ==> InStep(hash, g, new_, h2, k)
    {
      NonEmptyGrid(g, k);
      assert Get(h2, g, k) == if k in seen then hash(CellPixels(new_, k)) else Get(h0, g, k);
      if InStep(hash, g, old_, h0, k) {
        StaysInStep(hash, g, old_, new_, h0, h2, damage, moves, out, k);
      }
    }
  }

  // ---- The detected scroll ----

  /** A matched pixel of the new picture is the old pixel dy rows away. */
  lemma MatchedPixel(hash: Hash, g: Grid, old_: Picture, new_: Picture, h0: seq<nat>, h2: seq<nat>,
                     damage: Region, out: Tightened, dy: int, z: Point)
    requires Frame(hash, g, old_, new_, h0, h2, damage, [], out)
    requires BoxKnown(hash, g, old_, h0, damage)
    requires Matches(g, h0, h2, BoxOf(g, Clip(g, Bounds(damage))), dy, z)
    ensures old_.Holds(z) && old_.Holds(Point(z.x, z.y + dy))
    ensures new_.At(z) == old_.At(Point(z.x, z.y + dy))
  {
    hide CellPixels, Get, Pixels, Touched, Covers, Bounds, DetectedIn, ChangedPixels, Denotes;
    var k, m := CellOf(z), Cell(z.y + dy, CellOf(z).c);
    assert InStep(hash, g, old_, h0, k) && InStep(hash, g, old_, h0, m);
    StaysInStep(hash, g, old_, new_, h0, h2, damage, [], out, k);
    SameWidth(old_, new_, m, k);
    SameCellPixel(old_, new_, Point(z.x, z.y + dy), z);
  }

  /** Detected copies fit the picture, do not disturb one another, and land right. */
  lemma FoundMoves(hash: Hash, g: Grid, old_: Picture, new_: Picture, h0: seq<nat>, h2: seq<nat>,
                   damage: Region, out: Tightened, dy: int)
    requires Frame(hash, g, old_, new_, h0, h2, damage, [], out)
    requires BoxKnown(hash, g, old_, h0, damage)
    requires Found(g, h0, h2, BoxOf(g, Clip(g, Bounds(damage))), dy, out.moves)
    ensures AllFit(old_, out.moves) && InOrder(out.moves)
    ensures forall z: Point :: z in Written(out.moves) ==>
      old_.Holds(z) && Replay(old_, out.moves).At(z) == new_.At(z)
  {
    hide Frame, Bounds, Found, BoxKnown, InOrder, Replay, Picture.At;
    FrameSizes(hash, g, old_, new_, h0, h2, damage, [], out);
    FoundInOrder(g, old_, h0, h2, BoxOf(g, Clip(g, Bounds(damage))), dy, out.moves);
    forall z: Point | z in Written(out.moves)
      ensures old_.Holds(z) && Replay(old_, out.moves).At(z) == new_.At(z)
    {
      var i :| 0 <= i < |out.moves| && out.moves[i].dst.Has(z.x, z.y);
      FoundPixel(hash, g, old_, new_, h0, h2, damage, out, dy, i, z);
    }
  }

  lemma FrameSizes(hash: Hash, g: Grid, old_: Picture, new_: Picture, h0: seq<nat>, h2: seq<nat>,
                   damage: Region, moves: seq<Move>, out: Tightened)
    requires Frame(hash, g, old_, new_, h0, h2, damage, moves, out)
    ensures GridOf(g, old_) && GridOf(g, new_) && |h0| == g.Size() && |h2| == g.Size()
  {
  }

  lemma FoundPixel(hash: Hash, g: Grid, old_: Picture, new_: Picture, h0: seq<nat>, h2: seq<nat>,
                   damage: Region, out: Tightened, dy: int, i: nat, z: Point)
    requires Frame(hash, g, old_, new_, h0, h2, damage, [], out) && BoxKnown(hash, g, old_, h0, damage)
    requires GridOf(g, old_) && GridOf(g, new_) && |h0| == g.Size() && |h2| == g.Size()
    requires Found(g, h0, h2, BoxOf(g, Clip(g, Bounds(damage))), dy, out.moves)
    requires AllFit(old_, out.moves) && InOrder(out.moves)
    requires i < |out.moves| && out.moves[i].dst.Has(z.x, z.y)
    ensures old_.Holds(z) && Replay(old_, out.moves).At(z) == new_.At(z)
  {
    hide Frame, Matches, Bounds, Found, BoxKnown, InOrder;
    ShiftAt(g, h0, h2, BoxOf(g, Clip(g, Bounds(damage))), dy, out.moves, i, z);
    MatchedPixel(hash, g, old_, new_, h0, h2, damage, out, dy, z);
    ReplayParallel(old_, out.moves, i, z);
    assert out.moves[i].Origin(z) == Point(z.x, z.y + dy);
  }

  lemma ShiftAt(g: Grid, h0: seq<nat>, h2: seq<nat>, box: Box, dy: int, moves: seq<Move>, i: nat, z: Point)
    requires |h0| == g.Size() && |h2| == g.Size() && box.Inside(g) && Found(g, h0, h2, box, dy, moves)
    requires i < |moves| && moves[i].dst.Has(z.x, z.y)
    ensures Matches(g, h0, h2, box, dy, z)
    ensures moves[i].Origin(z) == Point(z.x, z.y + dy)
  {
    hide Matches;
    assert Shift(g, h0, h2, box, dy, moves[i]);
  }

  /** In the order chosen, no copy lands on a later copy's source. */
  lemma FoundInOrder(g: Grid, p: Picture, h0: seq<nat>, h2: seq<nat>, box: Box, dy: int, moves: seq<Move>)
    requires GridOf(g, p) && |h0| == g.Size() && |h2| == g.Size() && box.Inside(g)
    requires Found(g, h0, h2, box, dy, moves)
    ensures AllFit(p, moves) && InOrder(moves)
  {
    hide Matches;
    forall i | 0 <= i < |moves| ensures p.Fits(moves[i]) {
      ShiftFits(g, p, h0, h2, box, dy, moves[i]);
    }
    forall i, j | 0 <= i < j < |moves| ensures Undisturbed(moves[i], moves[j]) {
      assert Shift(g, h0, h2, box, dy, moves[i]) && Shift(g, h0, h2, box, dy, moves[j]);
      ShiftedApart(moves[i], moves[j], dy);
    }
  }

  lemma ShiftedApart(m: Move, n: Move, dy: int)
    requires !m.dst.IsEmpty() && !n.dst.IsEmpty() && dy != 0
    requires n.srcX == n.dst.x1 && n.srcY == n.dst.y1 + dy
    requires if dy < 0 then Before(n.dst, m.dst) else Before(m.dst, n.dst)
    ensures Undisturbed(m, n)
  {
  }

  lemma ShiftFits(g: Grid, p: Picture, h0: seq<nat>, h2: seq<nat>, box: Box, dy: int, m: Move)
    requires GridOf(g, p) && |h0| == g.Size() && |h2| == g.Size() && box.Inside(g)
    requires Shift(g, h0, h2, box, dy, m)
    ensures p.Fits(m)
  {
    hide Get;
    var d := m.dst;
    assert Matches(g, h0, h2, box, dy, Point(d.x1, d.y1));
    assert Matches(g, h0, h2, box, dy, Point(d.x2 - 1, d.y2 - 1));
  }

  /** Copies then pixels give exactly the new picture: with no reported moves,
      damage covering every change, and every cell of the damage's box known if
      a scroll was found, whatever shift the vote picked. */
  lemma ReplayIsExact(hash: Hash, g: Grid, old_: Picture, new_: Picture, h0: seq<nat>, h2: seq<nat>,
                      damage: Region, out: Tightened)
    requires Frame(hash, g, old_, new_, h0, h2, damage, [], out)
    requires out.moves != [] ==> BoxKnown(hash, g, old_, h0, damage)
    ensures AllFit(old_, out.moves)
    ensures Paint(Replay(old_, out.moves), new_, Pixels(out.damage)) == new_
  {
    hide Pixels, Found, BoxKnown, NormalForm, DetectedIn;
    assert g.Size() == 0 ==> out.moves == [];
    if out.moves != [] {
      var dy := FoundIfAny(hash, g, new_, h0, h2, damage, out.moves);
      FoundMoves(hash, g, old_, new_, h0, h2, damage, out, dy);
    }
    var client := Replay(old_, out.moves);
    forall z: Point | old_.Holds(z) ensures z in Pixels(out.damage) || client.At(z) == new_.At(z) {
      CellOfPixel(g, z);
      NonEmptyGrid(g, CellOf(z));
      if z !in Written(out.moves) {
        ReplayElsewhere(old_, out.moves, z);
        if old_.At(z) != new_.At(z) {
          assert CellOf(z) !in Touched(g, Dsts([]), 0);
          ChangedIsReported(hash, g, old_, new_, h0, h2, damage, [], out, z);
        }
      }
    }
    Same(Paint(client, new_, Pixels(out.damage)), new_);
  }

  // ---- Nothing that stayed is sent ----

  /** Some pixel of the cell is in the damage. */
  ghost predicate Damaged(g: Grid, damage: Region, k: Cell) {
    exists z: Point :: 0 <= z.x < g.width && 0 <= z.y < g.height && CellOf(z) == k && z in Pixels(damage)
  }

  lemma TouchedIsDamaged(g: Grid, p: Picture, damage: Region, k: Cell)
    requires GridOf(g, p) && g.Has(k)
    ensures k in Touched(g, damage, |damage|) <==> Damaged(g, damage, k)
  {
    hide Touched, CellsOf, Pixels;
    if Damaged(g, damage, k) {
      var z: Point :| 0 <= z.x < g.width && 0 <= z.y < g.height && CellOf(z) == k && z in Pixels(damage);
      DamagedIsTouched(g, p, damage, z);
    }
    if k in Touched(g, damage, |damage|) {
      TouchedPixel(g, damage, k);
    }
  }

  lemma TouchedPixel(g: Grid, damage: Region, k: Cell)
    requires k in Touched(g, damage, |damage|)
    ensures Damaged(g, damage, k)
  {
    hide CellsOf, Clip;
    var i :| 0 <= i < |damage| && k in CellsOf(g, Clip(g, damage[i]));
    ClipInPicture(g, damage[i]);
    TouchedCells(g, Clip(g, damage[i]), k);
    var z: Point :| Clip(g, damage[i]).Has(z.x, z.y) && CellOf(z) == k;
    assert damage[i].Has(z.x, z.y) && z in Pixels(damage);
  }

  /** A pixel whose cell was known is reported exactly when some of its cell is in the damage,
      none of it under a reported move, some of it different, and the pixel is not copied. */
  lemma ReportedIff(hash: Hash, g: Grid, old_: Picture, new_: Picture, h0: seq<nat>, h2: seq<nat>,
                    damage: Region, moves: seq<Move>, out: Tightened, z: Point)
    requires Frame(hash, g, old_, new_, h0, h2, damage, moves, out)
    requires new_.Holds(z) && g.Has(CellOf(z)) && InStep(hash, g, old_, h0, CellOf(z))
    ensures z in Pixels(out.damage) <==>
              && Damaged(g, damage, CellOf(z)) && !Damaged(g, Dsts(moves), CellOf(z)) && z !in Written(out.moves)
              && exists y: Point :: new_.Holds(y) && CellOf(y) == CellOf(z) && old_.At(y) != new_.At(y)
  {
    hide CellPixels, Get, Touched, Damaged, Pixels, Covers, DetectedIn, Rehashed, NeverUnknown, Frame;
    var k := CellOf(z);
    ReportedCell(hash, g, old_, new_, h0, h2, damage, moves, out, z);
    TouchedIsDamaged(g, new_, damage, k);
    TouchedIsDamaged(g, new_, Dsts(moves), k);
    CellDiffers(old_, new_, k, z);
  }

  lemma ReportedCell(hash: Hash, g: Grid, old_: Picture, new_: Picture, h0: seq<nat>, h2: seq<nat>,
                     damage: Region, moves: seq<Move>, out: Tightened, z: Point)
    requires Frame(hash, g, old_, new_, h0, h2, damage, moves, out)
    requires new_.Holds(z) && g.Has(CellOf(z)) && InStep(hash, g, old_, h0, CellOf(z))
    ensures GridOf(g, old_) && GridOf(g, new_)
    ensures z in Pixels(out.damage) <==>
              && CellOf(z) in Touched(g, damage, |damage|) && CellOf(z) !in Touched(g, Dsts(moves), |moves|)
              && z !in Written(out.moves) && CellPixels(old_, CellOf(z)) != CellPixels(new_, CellOf(z))
  {
    hide CellPixels, Get, Touched, Pixels, Covers, DetectedIn, Rehashed, NeverUnknown, NormalForm;
    NonEmptyGrid(g, CellOf(z));
    SameWidth(old_, new_, CellOf(z), CellOf(z));
  }

  lemma CellDiffers(p: Picture, q: Picture, k: Cell, z: Point)
    requires p.Valid() && q.Valid() && p.SameSize(q) && Grid(p.width, p.height).Has(k) && q.Holds(z) && CellOf(z) == k
    ensures CellPixels(p, k) != CellPixels(q, k) <==> exists y: Point :: q.Holds(y) && CellOf(y) == k && p.At(y) != q.At(y)
  {
    hide CellPixels, Picture.At;
    if CellPixels(p, k) == CellPixels(q, k) {
      forall y: Point | q.Holds(y) && CellOf(y) == k ensures p.At(y) == q.At(y) {
        SameCellPixel(p, q, y, y);
      }
    } else if forall y: Point :: q.Holds(y) && CellOf(y) == k ==> p.At(y) == q.At(y) {
      UnchangedCell(p, q, k);
    }
  }

  /** A picture that did not change is reported once: while every cell is known a pass over it,
      whatever the backend claims was drawn, reports nothing. */
  lemma StillIsSilent(hash: Hash, g: Grid, p: Picture, h0: seq<nat>, h2: seq<nat>, damage: Region, moves: seq<Move>, out: Tightened)
    requires Frame(hash, g, p, p, h0, h2, damage, moves, out)
    requires forall k: Cell :: g.Has(k) ==> InStep(hash, g, p, h0, k)
    ensures out.damage == []
  {
    hide CellPixels, Get, Touched, Pixels, Covers, DetectedIn, Rehashed, NeverUnknown, NormalForm, ChangedPixels;
    if g.Size() > 0 {
      NothingChanged(hash, g, p, h0, damage, moves);
      EmptyRegion(out.damage);
    }
  }

  lemma NothingChanged(hash: Hash, g: Grid, p: Picture, h0: seq<nat>, damage: Region, moves: seq<Move>)
    requires GridOf(g, p) && |h0| == g.Size() && forall k: Cell :: g.Has(k) ==> InStep(hash, g, p, h0, k)
    ensures ChangedPixels(hash, g, p, h0, damage, moves) == iset{}
  {
    hide CellPixels, Get, Touched;
  }

  // ---- Moves the backend reported ----

  /** The picture shows, under every reported move, exactly what the moves leave there. */
  ghost predicate MovesTrue(old_: Picture, new_: Picture, moves: seq<Move>)
    requires old_.Valid() && new_.Valid() && old_.SameSize(new_) && AllFit(old_, moves)
  {
    forall z: Point :: old_.Holds(z) && z in Written(moves) ==> Replay(old_, moves).At(z) == new_.At(z)
  }

  /** Following a move hashes whole cells. A pixel that changed beside a move,
      in a cell the move reaches into, is taken for up to date. */
  ghost predicate NothingSwallowed(g: Grid, old_: Picture, new_: Picture, moves: seq<Move>)
    requires old_.Valid() && new_.Valid() && old_.SameSize(new_)
  {
    forall z: Point :: old_.Holds(z) && old_.At(z) != new_.At(z) && z !in Written(moves) ==>
      CellOf(z) !in Touched(g, Dsts(moves), |moves|)
  }

  /** With reported moves the replay is exact if and only if the new picture
      shows each moved block as it was moved, and no change beside a move shares
      a cell with it. */
  lemma ReportedReplayIff(hash: Hash, g: Grid, old_: Picture, new_: Picture, h0: seq<nat>, h2: seq<nat>,
                          damage: Region, moves: seq<Move>, out: Tightened)
    requires Frame(hash, g, old_, new_, h0, h2, damage, moves, out)
    requires moves != []
    ensures AllFit(old_, out.moves)
    ensures Paint(Replay(old_, out.moves), new_, Pixels(out.damage)) == new_
      <==> MovesTrue(old_, new_, moves) && NothingSwallowed(g, old_, new_, moves)
  {
    hide Pixels, NormalForm, Touched, Found, NothingStale, NoCollision, NeverUnknown, Rehashed, CellPixels, DetectedIn;
    if g.Size() == 0 {
      NoPixels(g, old_);
      Same(Paint(old_, new_, Pixels(out.damage)), new_);
      return;
    }
    assert out.moves == moves;
    var shown := Paint(Replay(old_, moves), new_, Pixels(out.damage));
    if shown == new_ {
      forall z: Point | old_.Holds(z)
        ensures z in Written(moves) ==> Replay(old_, moves).At(z) == new_.At(z)
        ensures old_.At(z) != new_.At(z) && z !in Written(moves) ==> CellOf(z) !in Touched(g, Dsts(moves), |moves|)
      {
        assert shown.At(z) == new_.At(z);
        if z !in Written(moves) {
          ReplayElsewhere(old_, moves, z);
        }
      }
    }
    if MovesTrue(old_, new_, moves) && NothingSwallowed(g, old_, new_, moves) {
      forall z: Point | old_.Holds(z) ensures shown.At(z) == new_.At(z) {
        CellOfPixel(g, z);
        if z !in Written(moves) {
          ReplayElsewhere(old_, moves, z);
          if old_.At(z) != new_.At(z) {
            ChangedIsReported(hash, g, old_, new_, h0, h2, damage, moves, out, z);
          }
        }
      }
      Same(shown, new_);
    }
  }

  lemma NoPixels(g: Grid, p: Picture)
    requires GridOf(g, p) && g.Size() == 0
    ensures forall z: Point :: !p.Holds(z)
  {
    forall z: Point ensures !p.Holds(z) {
      if p.Holds(z) {
        CellOfPixel(g, z);
        NonEmptyGrid(g, CellOf(z));
      }
    }
  }

  /** Both edges on a column boundary, or the right one on the picture's edge. */
  predicate Aligned(g: Grid, r: Rect) {
    r.x1 % SEGMENT == 0 && (r.x2 % SEGMENT == 0 || r.x2 == g.width)
  }

  /** Aligned moves swallow nothing. */
  lemma AlignedSwallowsNothing(g: Grid, old_: Picture, new_: Picture, moves: seq<Move>)
    requires GridOf(g, old_) && GridOf(g, new_) && AllFit(old_, moves)
    requires forall i :: 0 <= i < |moves| ==> Aligned(g, moves[i].dst)
    ensures NothingSwallowed(g, old_, new_, moves)
  {
    forall z: Point | old_.Holds(z) && CellOf(z) in Touched(g, Dsts(moves), |moves|) ensures z in Written(moves) {
      var i :| 0 <= i < |moves| && CellOf(z) in CellsOf(g, Clip(g, Dsts(moves)[i]));
      AlignedCell(g, old_, moves[i].dst, z);
    }
  }

  lemma AlignedCell(g: Grid, p: Picture, r: Rect, z: Point)
    requires GridOf(g, p) && p.Encloses(r) && Aligned(g, r) && p.Holds(z)
    requires CellOf(z) in CellsOf(g, Clip(g, r))
    ensures r.Has(z.x, z.y)
  {
    assert Clip(g, r) == r.Normalised();
  }
}
