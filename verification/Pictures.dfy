/** Pictures as values: what a framebuffer holds, and what a client ends up seeing. */
module Pictures {
  import opened Geometry
  import opened Bits

  /** One BGRX pixel. */
  datatype Pixel = Pixel(b: byte, g: byte, r: byte, x: byte)

  const BLACK := Pixel(0, 0, 0, 0)

  datatype Picture = Picture(width: nat, height: nat, rows: seq<seq<Pixel>>) {

    ghost predicate Valid() {
      |rows| == height && forall y :: 0 <= y < height ==> |rows[y]| == width
    }

    predicate Holds(z: Point) { 0 <= z.x < width && 0 <= z.y < height }

    function Bounds(): Rect { Rect(0, 0, width, height) }

    function At(z: Point): Pixel
      requires Valid() && Holds(z)
    {
      rows[z.y][z.x]
    }

    predicate SameSize(other: Picture) { width == other.width && height == other.height }

    predicate Encloses(r: Rect) {
      r.IsEmpty() || (0 <= r.x1 && 0 <= r.y1 && r.x2 <= width && r.y2 <= height)
    }

    /** Whether both the block and its source lie in the picture. */
    predicate Fits(m: Move) { Encloses(m.dst) && Encloses(m.Src()) }
  }

  /** The picture of the given size whose pixels a function gives. */
  ghost function Build(width: nat, height: nat, f: Point -> Pixel): (p: Picture)
    ensures p.Valid() && p.width == width && p.height == height
    ensures forall z: Point {:trigger p.At(z)} :: p.Holds(z) ==> p.At(z) == f(z)
  {
    Picture(width, height, seq(height, y => seq(width, x => f(Point(x, y)))))
  }

  /** Pictures are their pixels. */
  lemma Same(p: Picture, q: Picture)
    requires p.Valid() && q.Valid() && p.SameSize(q)
    requires forall z: Point :: p.Holds(z) ==> p.At(z) == q.At(z)
    ensures p == q
  {
    forall y | 0 <= y < p.height ensures p.rows[y] == q.rows[y] {
      forall x | 0 <= x < p.width ensures p.rows[y][x] == q.rows[y][x] {
        assert p.At(Point(x, y)) == q.At(Point(x, y));
      }
    }
  }

  /** CopyRect: every pixel of the destination becomes the old pixel of the
      source, all at once; the rest stays. */
  ghost function CopyBlock(p: Picture, m: Move): (q: Picture)
    requires p.Valid() && p.Fits(m)
    ensures q.Valid() && q.SameSize(p)
    ensures forall z: Point {:trigger q.At(z)} :: p.Holds(z) ==>
      q.At(z) == if m.dst.Has(z.x, z.y) then p.At(m.Origin(z)) else p.At(z)
  {
    Build(p.width, p.height, z =>
      if !p.Holds(z) then BLACK
      else if m.dst.Has(z.x, z.y) then p.At(m.Origin(z)) else p.At(z))
  }

  ghost function FillRect(p: Picture, rect: Rect, px: Pixel): (q: Picture)
    requires p.Valid()
    ensures q.Valid() && q.SameSize(p)
    ensures forall z: Point {:trigger q.At(z)} :: p.Holds(z) ==> q.At(z) == if rect.Has(z.x, z.y) then px else p.At(z)
  {
    Build(p.width, p.height, z =>
      if !p.Holds(z) then BLACK
      else if rect.Has(z.x, z.y) then px else p.At(z))
  }

  /** Another picture laid over this one with its corner at (x, y). */
  ghost function Overlay(p: Picture, block: Picture, x: int, y: int): (q: Picture)
    requires p.Valid() && block.Valid()
    ensures q.Valid() && q.SameSize(p)
    ensures forall z: Point {:trigger q.At(z)} :: p.Holds(z) ==>
      q.At(z) == if block.Holds(Point(z.x - x, z.y - y)) then block.At(Point(z.x - x, z.y - y)) else p.At(z)
  {
    Build(p.width, p.height, z =>
      if !p.Holds(z) then BLACK
      else if block.Holds(Point(z.x - x, z.y - y)) then block.At(Point(z.x - x, z.y - y)) else p.At(z))
  }

  /** The pixels of the set taken from another picture. */
  ghost function Paint(p: Picture, source: Picture, where: iset<Point>): (q: Picture)
    requires p.Valid() && source.Valid() && p.SameSize(source)
    ensures q.Valid() && q.SameSize(p)
    ensures forall z: Point {:trigger q.At(z)} :: p.Holds(z) ==> q.At(z) == if z in where then source.At(z) else p.At(z)
  {
    Build(p.width, p.height, z =>
      if !p.Holds(z) then BLACK
      else if z in where then source.At(z) else p.At(z))
  }

  /** The moves a client applies, one after another onto one picture. */
  ghost function Replay(p: Picture, moves: seq<Move>): (q: Picture)
    requires p.Valid() && forall i :: 0 <= i < |moves| ==> p.Fits(moves[i])
    ensures q.Valid() && q.SameSize(p)
  {
    if moves == [] then p
    else
      var n := |moves| - 1;
      var before := Replay(p, moves[..n]);
      assert p.Fits(moves[n]);
      CopyBlock(before, moves[n])
  }

  // ---- Independent moves ----

  /** An earlier move neither writes what a later one reads nor where it writes. */
  predicate Undisturbed(earlier: Move, later: Move) {
    !earlier.dst.Intersects(later.Src()) && !earlier.dst.Intersects(later.dst)
  }

  ghost predicate InOrder(moves: seq<Move>) {
    forall i, j :: 0 <= i < j < |moves| ==> Undisturbed(moves[i], moves[j])
  }

  ghost predicate AllFit(p: Picture, moves: seq<Move>) {
    forall i :: 0 <= i < |moves| ==> p.Fits(moves[i])
  }

  /** The union of the destinations. */
  ghost function Written(moves: seq<Move>): iset<Point> {
    iset z: Point | exists i :: 0 <= i < |moves| && moves[i].dst.Has(z.x, z.y)
  }

  lemma {:induction false} ReplayElsewhere(p: Picture, moves: seq<Move>, z: Point)
    requires p.Valid() && AllFit(p, moves) && p.Holds(z)
    requires z !in Written(moves)
    ensures Replay(p, moves).At(z) == p.At(z)
  {
    if moves != [] {
      var n := |moves| - 1;
      assert !moves[n].dst.Has(z.x, z.y);
      assert z !in Written(moves[..n]) by {
        assert forall i :: 0 <= i < n ==> moves[..n][i] == moves[i];
      }
      ReplayElsewhere(p, moves[..n], z);
    }
  }

  /** The last move is made on what the others leave. */
  lemma ReplayLast(p: Picture, moves: seq<Move>, z: Point)
    requires p.Valid() && AllFit(p, moves) && moves != [] && p.Holds(z)
    ensures var n := |moves| - 1;
            && AllFit(p, moves[..n]) && (moves[n].dst.Has(z.x, z.y) ==> p.Holds(moves[n].Origin(z)))
            && Replay(p, moves).At(z) == Replay(p, moves[..n]).At(if moves[n].dst.Has(z.x, z.y) then moves[n].Origin(z) else z)
  {
    hide Picture.At;
    var n := |moves| - 1;
    assert p.Fits(moves[n]);
    if moves[n].dst.Has(z.x, z.y) {
      InsideOrigin(p, moves[n], z);
    }
  }

  /** Moves in order act as if all were read from the picture before the first of them. */
  lemma {:induction false} ReplayParallel(p: Picture, moves: seq<Move>, i: nat, z: Point)
    requires p.Valid() && AllFit(p, moves) && InOrder(moves)
    requires i < |moves| && moves[i].dst.Has(z.x, z.y)
    ensures p.Holds(z) && p.Holds(moves[i].Origin(z))
    ensures Replay(p, moves).At(z) == p.At(moves[i].Origin(z))
  {
    hide Replay, Picture.At, Picture.Valid;
    InsideOrigin(p, moves[i], z);
    var n := |moves| - 1;
    var init := moves[..n];
    assert forall k :: 0 <= k < n ==> init[k] == moves[k];
    ReplayLast(p, moves, z);
    if i == n {
      var o := moves[n].Origin(z);
      assert o !in Written(init) by {
        forall k | 0 <= k < n ensures !moves[k].dst.Has(o.x, o.y) {
          assert Undisturbed(moves[k], moves[n]);
          assert moves[n].Src().Has(o.x, o.y);
        }
      }
      ReplayElsewhere(p, init, o);
    } else {
      assert Undisturbed(moves[i], moves[n]);
      assert !moves[n].dst.Has(z.x, z.y);
      ReplayParallel(p, init, i, z);
    }
  }

  lemma InsideOrigin(p: Picture, m: Move, z: Point)
    requires p.Fits(m) && m.dst.Has(z.x, z.y)
    ensures p.Holds(z) && p.Holds(m.Origin(z)) && m.Src().Has(m.Origin(z).x, m.Origin(z).y)
  {
    var o := m.Origin(z);
    assert m.Src().Has(o.x, o.y);
  }
}
