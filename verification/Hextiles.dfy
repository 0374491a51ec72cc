/** Hextile (section 7.7.4 of RFC 6143): each tile described rather than sent. */
module Hextiles {
  import opened Geometry
  import opened Arithmetic
  import opened Bits
  import opened Blocks

  const TILE := 16
  const TOO_MANY := 24
  const MAX_SUBRECTS := 255

  // The subencoding bits.
  const RAW: byte := 1
  const BACKGROUND: byte := 2
  const FOREGROUND: byte := 4
  const ANY_SUBRECTS: byte := 8
  const SUBRECTS_COLOURED: byte := 16

  // ---- Colours of a tile ----

  datatype Count = Count(key: nat, n: nat)

  /** Where a colour was counted, or past the end. */
  function Find(colours: seq<Count>, key: nat): (i: nat)
    ensures i <= |colours| && (i < |colours| ==> colours[i].key == key)
    ensures forall j :: 0 <= j < i ==> colours[j].key != key
  {
    if colours == [] then 0 else if colours[0].key == key then 0 else 1 + Find(colours[1..], key)
  }

  /** The colours counted so far, carried on over more keys; none once there are too many. */
  function CountFrom(keys: seq<nat>, colours: seq<Count>): seq<Count> {
    if keys == [] then colours
    else
      var i := Find(colours, keys[0]);
      if i < |colours| then CountFrom(keys[1..], colours[i := Count(keys[0], colours[i].n + 1)])
      else if |colours| == TOO_MANY then []
      else CountFrom(keys[1..], colours + [Count(keys[0], 1)])
  }

  function Colours(keys: seq<nat>): seq<Count> { CountFrom(keys, []) }

  /** Every key seen is counted once, as often as it was seen. */
  ghost predicate Tally(colours: seq<Count>, seen: seq<nat>) {
    && (forall i :: 0 <= i < |colours| ==> Find(colours, colours[i].key) == i)
    && (forall i :: 0 <= i < |colours| ==> colours[i].n == multiset(seen)[colours[i].key])
    && (forall key :: key in seen <==> Find(colours, key) < |colours|)
  }

  ghost function KeysOf(colours: seq<Count>): set<nat> { set c | c in colours :: c.key }

  lemma {:induction false} KeysOfSize(colours: seq<Count>)
    requires forall i, j :: 0 <= i < j < |colours| ==> colours[i].key != colours[j].key
    ensures |KeysOf(colours)| == |colours|
  {
    if colours != [] {
      var n := |colours| - 1;
      KeysOfSize(colours[..n]);
      assert colours == colours[..n] + [colours[n]];
      assert KeysOf(colours) == KeysOf(colours[..n]) + {colours[n].key};
    }
  }

  lemma TallyDistinct(colours: seq<Count>, seen: seq<nat>)
    requires Tally(colours, seen)
    ensures |Distinct(seen)| == |colours|
  {
    hide Find;
    KeysOfSize(colours);
    forall key ensures key in Distinct(seen) <==> key in KeysOf(colours) {
      if key in KeysOf(colours) {
        var c :| c in colours && c.key == key;
        var i :| 0 <= i < |colours| && colours[i] == c;
        assert Find(colours, colours[i].key) == i;
      }
      if key in seen {
        assert colours[Find(colours, key)] in colours;
      }
    }
    assert Distinct(seen) == KeysOf(colours);
  }

  lemma TallyAgain(colours: seq<Count>, seen: seq<nat>, key: nat)
    requires Tally(colours, seen) && Find(colours, key) < |colours|
    ensures var i := Find(colours, key);
            Tally(colours[i := Count(key, colours[i].n + 1)], seen + [key])
  {
    hide Find;
    var i := Find(colours, key);
    var after := colours[i := Count(key, colours[i].n + 1)];
    forall k ensures Find(after, k) == Find(colours, k) {
      SameFind(colours, after, k);
    }
    assert forall j :: 0 <= j < |colours| ==> Find(colours, colours[j].key) == j && after[j].key == colours[j].key;
  }

  lemma {:induction false} SameFind(a: seq<Count>, b: seq<Count>, key: nat)
    requires |a| == |b| && forall j :: 0 <= j < |a| ==> a[j].key == b[j].key
    ensures Find(a, key) == Find(b, key)
  {
    if a != [] {
      SameFind(a[1..], b[1..], key);
    }
  }

  lemma TallyNew(colours: seq<Count>, seen: seq<nat>, key: nat)
    requires Tally(colours, seen) && Find(colours, key) == |colours|
    ensures Tally(colours + [Count(key, 1)], seen + [key])
  {
    hide Find;
    var after := colours + [Count(key, 1)];
    forall k ensures Find(after, k) == if k == key then |colours| else if Find(colours, k) < |colours| then Find(colours, k) else |after| {
      AppendedFind(colours, Count(key, 1), k);
    }
    assert forall j :: 0 <= j < |colours| ==> Find(colours, colours[j].key) == j && after[j] == colours[j];
    assert multiset(seen)[key] == 0;
  }

  lemma AppendedFind(a: seq<Count>, c: Count, key: nat)
    ensures Find(a + [c], key) ==
            if Find(a, key) < |a| then Find(a, key) else if c.key == key then |a| else |a| + 1
  {
    hide Find;
    var b := a + [c];
    var i, j := Find(a, key), Find(b, key);
    assert forall n :: 0 <= n < |a| ==> b[n] == a[n];
    assert b[|a|] == c;
  }

  lemma {:induction false} CountTallies(keys: seq<nat>, colours: seq<Count>, seen: seq<nat>)
    requires Tally(colours, seen) && |colours| <= TOO_MANY
    ensures var all := CountFrom(keys, colours);
            if |Distinct(seen + keys)| <= TOO_MANY then Tally(all, seen + keys) else all == []
  {
    hide Tally, Find, Distinct;
    if keys == [] {
      assert seen + keys == seen;
      TallyDistinct(colours, seen);
    } else {
      var i := Find(colours, keys[0]);
      assert seen + keys == (seen + [keys[0]]) + keys[1..];
      if i < |colours| {
        TallyAgain(colours, seen, keys[0]);
        CountTallies(keys[1..], colours[i := Count(keys[0], colours[i].n + 1)], seen + [keys[0]]);
      } else {
        TallyNew(colours, seen, keys[0]);
        if |colours| < TOO_MANY {
          CountTallies(keys[1..], colours + [Count(keys[0], 1)], seen + [keys[0]]);
        } else {
          TallyDistinct(colours + [Count(keys[0], 1)], seen + [keys[0]]);
          MoreDistinct(seen + [keys[0]], keys[1..]);
        }
      }
    }
  }

  /** The colours are the distinct keys with their counts, unless there are more than 24. */
  lemma ColoursAreCounts(keys: seq<nat>)
    ensures if |Distinct(keys)| <= TOO_MANY then Tally(Colours(keys), keys) && |Colours(keys)| == |Distinct(keys)|
            else Colours(keys) == []
  {
    assert [] + keys == keys;
    CountTallies(keys, [], []);
    if |Distinct(keys)| <= TOO_MANY {
      TallyDistinct(Colours(keys), keys);
    }
  }

  /** The commonest colour; of equals, the last. */
  function Commonest(colours: seq<Count>): (c: Count)
    requires colours != []
    ensures c in colours && forall i :: 0 <= i < |colours| ==> colours[i].n <= c.n
  {
    var last := colours[|colours| - 1];
    if |colours| == 1 then last
    else
      var c := Commonest(colours[..|colours| - 1]);
      if last.n >= c.n then last else c
  }

  /** The first colour other than the background. */
  function OtherThan(colours: seq<Count>, bg: nat): (o: Option<nat>)
    ensures o.Some? ==> o.value != bg && exists i :: 0 <= i < |colours| && colours[i].key == o.value
    ensures o.None? ==> forall i :: 0 <= i < |colours| ==> colours[i].key == bg
  {
    if colours == [] then None
    else if colours[0].key != bg then Some(colours[0].key)
    else OtherThan(colours[1..], bg)
  }

  // ---- Runs ----

  /** One block of one colour inside a tile. */
  datatype Sub = Sub(x: nat, y: nat, w: nat, h: nat, colour: nat) {
    predicate Has(px: int, py: int) { x <= px < x + w && y <= py < y + h }

    /** Whether the run just below this block continues it. */
    predicate Continues(run: Sub) { x == run.x && w == run.w && colour == run.colour && y + h == run.y }
  }

  /** Where the last block that the run continues stands, or past the end. */
  function LastAbove(subs: seq<Sub>, run: Sub): (i: nat)
    ensures i <= |subs| && (i < |subs| ==> subs[i].Continues(run))
    ensures i == |subs| ==> forall j :: 0 <= j < |subs| ==> !subs[j].Continues(run)
  {
    if subs == [] then 0
    else
      var n := |subs| - 1;
      if subs[n].Continues(run) then n
      else
        var i := LastAbove(subs[..n], run);
        if i < n then i else |subs|
  }

  /** A run joins the block it continues, or starts one. */
  function AddRun(subs: seq<Sub>, run: Sub): seq<Sub> {
    var i := LastAbove(subs, run);
    if i < |subs| then subs[i := subs[i].(h := subs[i].h + 1)] else subs + [run]
  }

  /** Where a run of one colour ends. */
  function RunEnd(row: seq<nat>, x: nat, colour: nat): (end: nat)
    requires x <= |row|
    ensures x <= end <= |row|
    ensures forall i :: x <= i < end ==> row[i] == colour
    ensures end < |row| ==> row[end] != colour
    decreases |row| - x
  {
    if x == |row| || row[x] != colour then x else RunEnd(row, x + 1, colour)
  }

  /** The runs of one row, from column x on. */
  function RowRuns(row: seq<nat>, x: nat, y: nat, bg: nat, subs: seq<Sub>): seq<Sub>
    requires x <= |row|
    decreases |row| - x
  {
    if x == |row| then subs
    else if row[x] == bg then RowRuns(row, x + 1, y, bg, subs)
    else
      var end := RunEnd(row, x + 1, row[x]);
      RowRuns(row, end, y, bg, AddRun(subs, Sub(x, y, end - x, 1, row[x])))
  }

  /** The runs of the rows from y down. */
  function RunsFrom(keys: seq<nat>, w: nat, h: nat, y: nat, bg: nat, subs: seq<Sub>): seq<Sub>
    requires |keys| == h * w && y <= h
    decreases h - y
  {
    if y == h then subs else RunsFrom(keys, w, h, y + 1, bg, RowRuns(Row(keys, w, h, y), 0, y, bg, subs))
  }

  function Runs(keys: seq<nat>, w: nat, h: nat, bg: nat): seq<Sub>
    requires |keys| == h * w
  {
    RunsFrom(keys, w, h, 0, bg, [])
  }

  // ---- What the runs cover ----

  /** Reached by a scan that is about to read (x, y). */
  predicate Scanned(x: nat, y: nat, px: int, py: int) { py < y || (py == y && px < x) }

  /** The block lies in what was scanned of the tile, all one colour, never the background. */
  ghost predicate Sound(keys: seq<nat>, w: nat, h: nat, x: nat, y: nat, bg: nat, s: Sub)
    requires |keys| == h * w
  {
    && s.w > 0 && s.h > 0 && s.x + s.w <= w && s.y + s.h <= h && s.colour != bg
    && forall px, py {:trigger s.Has(px, py)} :: s.Has(px, py) ==> Scanned(x, y, px, py) && At(keys, w, h, px, py) == s.colour
  }

  ghost predicate Covered(subs: seq<Sub>, px: int, py: int) {
    exists i :: 0 <= i < |subs| && subs[i].Has(px, py)
  }

  /** The blocks are disjoint, sound, cover every scanned pixel that is not background,
      and none continues another. */
  ghost predicate Partition(keys: seq<nat>, w: nat, h: nat, x: nat, y: nat, bg: nat, subs: seq<Sub>)
    requires |keys| == h * w
  {
    && (forall i :: 0 <= i < |subs| ==> Sound(keys, w, h, x, y, bg, subs[i]))
    && (forall i, j, px, py :: 0 <= i < j < |subs| && subs[i].Has(px, py) ==> !subs[j].Has(px, py))
    && (forall i, j :: 0 <= i < |subs| && 0 <= j < |subs| ==> !subs[i].Continues(subs[j]))
    && (forall px, py :: 0 <= px < w && 0 <= py < h && Scanned(x, y, px, py) && At(keys, w, h, px, py) != bg ==> Covered(subs, px, py))
  }

  /** Only the block the run joins, or becomes, changes; it gains exactly the run. */
  lemma AddRunHas(subs: seq<Sub>, run: Sub)
    requires run.h == 1
    ensures var i, after := LastAbove(subs, run), AddRun(subs, run);
            && i < |after| && |subs| <= |after| <= |subs| + 1 && (|after| > |subs| ==> i == |subs|)
            && (forall j :: 0 <= j < |subs| && j != i ==> after[j] == subs[j])
            && after[i].x == run.x && after[i].w == run.w && after[i].colour == run.colour
            && after[i].y + after[i].h == run.y + 1 && after[i].y == (if i < |subs| then subs[i].y else run.y)
            && (forall px, py {:trigger after[i].Has(px, py)} ::
                  after[i].Has(px, py) <==> run.Has(px, py) || (i < |subs| && subs[i].Has(px, py)))
  {
    hide LastAbove;
  }

  lemma SoundLater(keys: seq<nat>, w: nat, h: nat, x: nat, y: nat, x': nat, y': nat, bg: nat, s: Sub)
    requires |keys| == h * w && Sound(keys, w, h, x, y, bg, s)
    requires y < y' || (y == y' && x <= x')
    ensures Sound(keys, w, h, x', y', bg, s)
  {
  }

  /** The run from x of one row, as the scan takes it. */
  ghost predicate RunAt(keys: seq<nat>, w: nat, h: nat, x: nat, y: nat, bg: nat, run: Sub)
    requires |keys| == h * w
  {
    && y < h && x < w && run.x == x && run.y == y && run.h == 1 && run.w > 0 && x + run.w <= w && run.colour != bg
    && forall px {:trigger Row(keys, w, h, y)[px]} :: x <= px < x + run.w ==> Row(keys, w, h, y)[px] == run.colour
  }

  lemma AddedSound(keys: seq<nat>, w: nat, h: nat, x: nat, y: nat, bg: nat, subs: seq<Sub>, run: Sub, j: nat)
    requires |keys| == h * w && RunAt(keys, w, h, x, y, bg, run)
    requires forall i :: 0 <= i < |subs| ==> Sound(keys, w, h, x, y, bg, subs[i])
    requires j < |AddRun(subs, run)|
    ensures Sound(keys, w, h, x + run.w, y, bg, AddRun(subs, run)[j])
  {
    hide AddRun, LastAbove, Row;
    AddRunHas(subs, run);
    if j < |subs| {
      assert Sound(keys, w, h, x, y, bg, subs[j]);
      SoundLater(keys, w, h, x, y, x + run.w, y, bg, subs[j]);
    }
    if j == LastAbove(subs, run) {
      var s := AddRun(subs, run)[j];
      assert run.Has(x, y) && s.Has(x, y);
      forall px, py | s.Has(px, py)
        ensures Scanned(x + run.w, y, px, py) && At(keys, w, h, px, py) == s.colour
      {
        if run.Has(px, py) {
          assert Row(keys, w, h, y)[px] == run.colour;
        }
      }
    }
  }

  lemma AddRunKeeps(keys: seq<nat>, w: nat, h: nat, x: nat, y: nat, bg: nat, subs: seq<Sub>, run: Sub)
    requires |keys| == h * w && RunAt(keys, w, h, x, y, bg, run) && Partition(keys, w, h, x, y, bg, subs)
    ensures Partition(keys, w, h, x + run.w, y, bg, AddRun(subs, run))
  {
    hide AddRun, LastAbove, At;
    var after := AddRun(subs, run);
    forall j | 0 <= j < |after| ensures Sound(keys, w, h, x + run.w, y, bg, after[j]) {
      AddedSound(keys, w, h, x, y, bg, subs, run, j);
    }
    AddedApart(keys, w, h, x, y, bg, subs, run);
    AddedMerged(keys, w, h, x, y, bg, subs, run);
    AddedCovers(keys, w, h, x, y, bg, subs, run);
  }

  lemma AddedApart(keys: seq<nat>, w: nat, h: nat, x: nat, y: nat, bg: nat, subs: seq<Sub>, run: Sub)
    requires |keys| == h * w && RunAt(keys, w, h, x, y, bg, run) && Partition(keys, w, h, x, y, bg, subs)
    ensures var after := AddRun(subs, run);
            forall i, j, px, py :: 0 <= i < j < |after| && after[i].Has(px, py) ==> !after[j].Has(px, py)
  {
    hide AddRun, LastAbove, At, Sub.Has;
    AddRunHas(subs, run);
    var after := AddRun(subs, run);
    forall i, px, py | 0 <= i < |subs| ensures subs[i].Has(px, py) ==> Scanned(x, y, px, py) {
      assert Sound(keys, w, h, x, y, bg, subs[i]);
    }
    forall i, j, px, py | 0 <= i < j < |after| && after[i].Has(px, py) ensures !after[j].Has(px, py) {
      RunUnscanned(run, x, y, px, py);
    }
  }

  lemma RunUnscanned(run: Sub, x: nat, y: nat, px: int, py: int)
    requires run.x == x && run.y == y && run.h == 1
    ensures run.Has(px, py) ==> !Scanned(x, y, px, py)
  {
  }

  lemma AddedMerged(keys: seq<nat>, w: nat, h: nat, x: nat, y: nat, bg: nat, subs: seq<Sub>, run: Sub)
    requires |keys| == h * w && RunAt(keys, w, h, x, y, bg, run) && Partition(keys, w, h, x, y, bg, subs)
    ensures var after := AddRun(subs, run);
            forall i, j :: 0 <= i < |after| && 0 <= j < |after| ==> !after[i].Continues(after[j])
  {
    hide AddRun, LastAbove, At;
    AddRunHas(subs, run);
    var after, n := AddRun(subs, run), LastAbove(subs, run);
    forall i | 0 <= i < |subs| ensures subs[i].y <= y && subs[i].w > 0 && subs[i].h > 0 {
      assert Sound(keys, w, h, x, y, bg, subs[i]) && subs[i].Has(subs[i].x, subs[i].y);
    }
    forall i, j | 0 <= i < |after| && 0 <= j < |after| ensures !after[i].Continues(after[j]) {
      if i != n && j == n && n < |subs| {
        assert !subs[i].Continues(subs[j]);
      }
    }
  }

  lemma AddedCovers(keys: seq<nat>, w: nat, h: nat, x: nat, y: nat, bg: nat, subs: seq<Sub>, run: Sub)
    requires |keys| == h * w && RunAt(keys, w, h, x, y, bg, run) && Partition(keys, w, h, x, y, bg, subs)
    ensures forall px, py :: 0 <= px < w && 0 <= py < h && Scanned(x + run.w, y, px, py) && At(keys, w, h, px, py) != bg ==>
      Covered(AddRun(subs, run), px, py)
  {
    hide AddRun, LastAbove, At;
    AddRunHas(subs, run);
    var after, n := AddRun(subs, run), LastAbove(subs, run);
    forall px, py | 0 <= px < w && 0 <= py < h && Scanned(x + run.w, y, px, py) && At(keys, w, h, px, py) != bg
      ensures Covered(after, px, py)
    {
      if Scanned(x, y, px, py) {
        var i :| 0 <= i < |subs| && subs[i].Has(px, py);
        assert after[i].Has(px, py);
      } else {
        assert run.Has(px, py);
        assert after[n].Has(px, py);
      }
    }
  }

  /** A background pixel, or the end of a row, changes nothing. */
  lemma PassOver(keys: seq<nat>, w: nat, h: nat, x: nat, y: nat, x': nat, y': nat, bg: nat, subs: seq<Sub>)
    requires |keys| == h * w && Partition(keys, w, h, x, y, bg, subs)
    requires (y' == y && x' == x + 1 && x < w && y < h && At(keys, w, h, x, y) == bg) || (y' == y + 1 && x' == 0 && x == w)
    ensures Partition(keys, w, h, x', y', bg, subs)
  {
    hide At, Sub.Has;
    forall i | 0 <= i < |subs| ensures Sound(keys, w, h, x', y', bg, subs[i]) {
      SoundLater(keys, w, h, x, y, x', y', bg, subs[i]);
    }
  }

  lemma {:induction false} RowKeeps(keys: seq<nat>, w: nat, h: nat, x: nat, y: nat, bg: nat, subs: seq<Sub>)
    requires |keys| == h * w && y < h && x <= w && Partition(keys, w, h, x, y, bg, subs)
    ensures Partition(keys, w, h, w, y, bg, RowRuns(Row(keys, w, h, y), x, y, bg, subs))
    decreases w - x
  {
    hide Partition, AddRun, Sub.Has;
    var row := Row(keys, w, h, y);
    if x < w {
      if row[x] == bg {
        PassOver(keys, w, h, x, y, x + 1, y, bg, subs);
        RowKeeps(keys, w, h, x + 1, y, bg, subs);
      } else {
        var end := RunEnd(row, x + 1, row[x]);
        var run := Sub(x, y, end - x, 1, row[x]);
        AddRunKeeps(keys, w, h, x, y, bg, subs, run);
        RowKeeps(keys, w, h, end, y, bg, AddRun(subs, run));
      }
    }
  }

  lemma {:induction false} RunsKeep(keys: seq<nat>, w: nat, h: nat, y: nat, bg: nat, subs: seq<Sub>)
    requires |keys| == h * w && y <= h && Partition(keys, w, h, 0, y, bg, subs)
    ensures Partition(keys, w, h, 0, h, bg, RunsFrom(keys, w, h, y, bg, subs))
    decreases h - y
  {
    hide Partition, Row, RowRuns;
    if y < h {
      RowKeeps(keys, w, h, 0, y, bg, subs);
      PassOver(keys, w, h, w, y, 0, y + 1, bg, RowRuns(Row(keys, w, h, y), 0, y, bg, subs));
      RunsKeep(keys, w, h, y + 1, bg, RowRuns(Row(keys, w, h, y), 0, y, bg, subs));
    }
  }

  /** The runs of a tile partition its pixels that are not background into
      blocks of one colour, as few downwards as can be. */
  lemma RunsPartition(keys: seq<nat>, w: nat, h: nat, bg: nat)
    requires |keys| == h * w
    ensures Partition(keys, w, h, 0, h, bg, Runs(keys, w, h, bg))
  {
    RunsKeep(keys, w, h, 0, bg, []);
  }
}
