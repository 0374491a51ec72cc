/** Which vertical shift explains the damage: every row of the old picture against a
    sample of the rows that changed, and a vote for each cell that agrees. */
module Votes {
  import opened Arithmetic
  import opened Geometry
  import opened Cells
  import opened Boxes

  /** Cells a shift has to explain before it is worth checking. */
  const MIN_VOTES := 8
  /** Changed rows sampled. */
  const PROBES := 16

  // ---- The sample ----

  /** Every row up to sixteen; of more, every second, third and so on, as few apart as
      leaves no more than sixteen. */
  ghost predicate Sample(probes: seq<int>, rows: seq<int>) {
    exists step :: step > 0 && EveryNth(probes, rows, step) && 16 * (step - 1) < Max(|rows|, 1) <= 16 * step
  }

  /** Every step-th row, from the first on. */
  ghost predicate Taken(probes: seq<int>, rows: seq<int>, step: int) {
    forall i {:trigger probes[i]} :: 0 <= i < |probes| ==> 0 <= i * step < |rows| && probes[i] == rows[i * step]
  }

  /** Every step-th row from the first, to the last there is. */
  ghost predicate EveryNth(probes: seq<int>, rows: seq<int>, step: int) {
    Taken(probes, rows, step) && |rows| <= |probes| * step
  }

  lemma ProbeAt(probes: seq<int>, rows: seq<int>, step: int, i: nat)
    requires Taken(probes, rows, step) && i < |probes|
    ensures 0 <= i * step < |rows| && probes[i] == rows[i * step]
  {
    var p := probes[i];
  }

  lemma TakeOne(probes: seq<int>, rows: seq<int>, step: int, at: int)
    requires Taken(probes, rows, step) && at == |probes| * step && 0 <= at < |rows|
    ensures Taken(probes + [rows[at]], rows, step)
    ensures at + step == |probes + [rows[at]]| * step
  {
    Distributes(|probes|, step);
    var more := probes + [rows[at]];
    forall i {:trigger more[i]} | 0 <= i < |more| ensures 0 <= i * step < |rows| && more[i] == rows[i * step] {
      if i < |probes| {
        assert more[i] == probes[i];
      } else {
        assert i == |probes| && i * step == at;
      }
    }
  }

  /** The step between them: a sixteenth of the rows, rounded up. */
  lemma StepBounds(n: nat)
    ensures var step := Max((n + 15) / 16, 1); step > 0 && 16 * (step - 1) < Max(n, 1) <= 16 * step
  {
  }

  method TakeProbes(rows: seq<int>) returns (probes: seq<int>)
    ensures Sample(probes, rows) && |probes| <= PROBES
    ensures forall i :: 0 <= i < |probes| ==> probes[i] in rows
  {
    hide Taken;
    var step := Max((|rows| + PROBES - 1) / PROBES, 1);
    StepBounds(|rows|);
    probes := [];
    var at := 0;
    assert Taken(probes, rows, step) by {
      TakenNone(rows, step);
    }
    while at < |rows| && |probes| < PROBES
      invariant at == |probes| * step && |probes| <= PROBES && Taken(probes, rows, step)
      invariant 0 <= at
      decreases |rows| - at
    {
      TakeOne(probes, rows, step, at);
      probes := probes + [rows[at]];
      at := at + step;
    }
    TakenAll(probes, rows, step);
  }

  lemma TakenNone(rows: seq<int>, step: int)
    ensures Taken([], rows, step)
  {
  }

  lemma TakenAll(probes: seq<int>, rows: seq<int>, step: int)
    requires Taken(probes, rows, step) && |rows| <= |probes| * step
    ensures EveryNth(probes, rows, step) && forall i :: 0 <= i < |probes| ==> probes[i] in rows
  {
    forall i | 0 <= i < |probes| ensures probes[i] in rows {
      ProbeAt(probes, rows, step, i);
    }
  }

  // ---- The votes ----

  /** A cell of the row that now holds what the source row held in its column. */
  ghost predicate Agrees(g: Grid, h0: seq<nat>, h2: seq<nat>, box: Box, row: int, source: int, c: int)
    requires |h0| == g.Size() && |h2| == g.Size() && box.Inside(g)
    requires box.y1 <= row < box.y2 && box.y1 <= source < box.y2 && box.first <= c < box.last
  {
    Get(h2, g, Cell(row, c)) == Get(h0, g, Cell(source, c))
  }

  /** How many cells of the row agree, up to column c. */
  ghost function Agreeing(g: Grid, h0: seq<nat>, h2: seq<nat>, box: Box, row: int, source: int, last: int): nat
    requires |h0| == g.Size() && |h2| == g.Size() && box.Inside(g)
    requires box.y1 <= row < box.y2 && box.y1 <= source < box.y2 && box.first <= last <= box.last
  {
    |set c | box.first <= c < last && Agrees(g, h0, h2, box, row, source, c)|
  }

  lemma AgreeingNext(g: Grid, h0: seq<nat>, h2: seq<nat>, box: Box, row: int, source: int, c: int)
    requires |h0| == g.Size() && |h2| == g.Size() && box.Inside(g)
    requires box.y1 <= row < box.y2 && box.y1 <= source < box.y2 && box.first <= c < box.last
    ensures Agreeing(g, h0, h2, box, row, source, c + 1) ==
            Agreeing(g, h0, h2, box, row, source, c) + if Agrees(g, h0, h2, box, row, source, c) then 1 else 0
  {
    hide Agrees;
    var was := set k | box.first <= k < c && Agrees(g, h0, h2, box, row, source, k);
    var now := set k | box.first <= k < c + 1 && Agrees(g, h0, h2, box, row, source, k);
    assert now == if Agrees(g, h0, h2, box, row, source, c) then was + {c} else was;
  }

  ghost predicate InBox(probes: seq<int>, box: Box) { forall i :: 0 <= i < |probes| ==> box.y1 <= probes[i] < box.y2 }

  /** The votes of the first n probes for a shift, from the old rows above y: each agreeing
      cell of the probe with the row that far from it. */
  ghost function Tally(g: Grid, h0: seq<nat>, h2: seq<nat>, box: Box, probes: seq<int>, n: nat, dy: int, y: int): nat
    requires |h0| == g.Size() && |h2| == g.Size() && box.Inside(g)
    requires InBox(probes, box) && n <= |probes| && y <= box.y2
  {
    if n == 0 then 0
    else
      Tally(g, h0, h2, box, probes, n - 1, dy, y)
      + if box.y1 <= probes[n - 1] + dy < y then Agreeing(g, h0, h2, box, probes[n - 1], probes[n - 1] + dy, box.last) else 0
  }

  /** All the votes a shift gets. */
  ghost function AllVotes(g: Grid, h0: seq<nat>, h2: seq<nat>, box: Box, probes: seq<int>, dy: int): nat
    requires |h0| == g.Size() && |h2| == g.Size() && box.Inside(g) && InBox(probes, box)
  {
    Tally(g, h0, h2, box, probes, |probes|, dy, box.y2)
  }

  lemma {:induction false} NoVotes(g: Grid, h0: seq<nat>, h2: seq<nat>, box: Box, probes: seq<int>, n: nat, dy: int)
    requires |h0| == g.Size() && |h2| == g.Size() && box.Inside(g) && InBox(probes, box) && n <= |probes|
    ensures Tally(g, h0, h2, box, probes, n, dy, box.y1) == 0
  {
    if n > 0 {
      NoVotes(g, h0, h2, box, probes, n - 1, dy);
    }
  }

  /** What one old row against one probe adds. */
  lemma OneBallot(g: Grid, h0: seq<nat>, h2: seq<nat>, box: Box, probes: seq<int>, i: nat, dy: int, y: int)
    requires |h0| == g.Size() && |h2| == g.Size() && box.Inside(g) && InBox(probes, box)
    requires i < |probes| && box.y1 <= y < box.y2
    ensures Tally(g, h0, h2, box, probes, i + 1, dy, y + 1) - Tally(g, h0, h2, box, probes, i, dy, y + 1)
         == Tally(g, h0, h2, box, probes, i + 1, dy, y) - Tally(g, h0, h2, box, probes, i, dy, y)
          + if dy == y - probes[i] then Agreeing(g, h0, h2, box, probes[i], y, box.last) else 0
  {
    hide Agreeing;
  }

  function Cast(votes: map<int, nat>, dy: int): nat { if dy in votes then votes[dy] else 0 }

  lemma AgreeingNone(g: Grid, h0: seq<nat>, h2: seq<nat>, box: Box, row: int, source: int)
    requires |h0| == g.Size() && |h2| == g.Size() && box.Inside(g)
    requires box.y1 <= row < box.y2 && box.y1 <= source < box.y2
    ensures Agreeing(g, h0, h2, box, row, source, box.first) == 0
  {
  }

  // ---- Counting them ----

  lemma CastMore(votes: map<int, nat>, d: int, n: nat)
    ensures forall dy :: Cast(votes[d := Cast(votes, d) + n], dy) == Cast(votes, dy) + if dy == d then n else 0
  {
  }

  /** Every old row above y has been held against every probe. */
  ghost predicate Counted(g: Grid, h0: seq<nat>, h2: seq<nat>, box: Box, probes: seq<int>, y: int, votes: map<int, nat>)
    requires |h0| == g.Size() && |h2| == g.Size() && box.Inside(g) && InBox(probes, box) && y <= box.y2
  {
    forall dy :: dy != 0 ==> Cast(votes, dy) == Tally(g, h0, h2, box, probes, |probes|, dy, y)
  }

  /** And row y against the first i of them. */
  ghost predicate PartCounted(g: Grid, h0: seq<nat>, h2: seq<nat>, box: Box, probes: seq<int>, y: int, i: nat, votes: map<int, nat>)
    requires |h0| == g.Size() && |h2| == g.Size() && box.Inside(g) && InBox(probes, box) && y < box.y2 && i <= |probes|
  {
    forall dy :: dy != 0 ==>
      (Cast(votes, dy) + Tally(g, h0, h2, box, probes, i, dy, y)
       == Tally(g, h0, h2, box, probes, |probes|, dy, y) + Tally(g, h0, h2, box, probes, i, dy, y + 1))
  }

  lemma NoBallots(g: Grid, h0: seq<nat>, h2: seq<nat>, box: Box, probes: seq<int>)
    requires |h0| == g.Size() && |h2| == g.Size() && box.Inside(g) && InBox(probes, box)
    ensures Counted(g, h0, h2, box, probes, box.y1, map[])
  {
    hide Tally;
    forall dy ensures Tally(g, h0, h2, box, probes, |probes|, dy, box.y1) == 0 {
      NoVotes(g, h0, h2, box, probes, |probes|, dy);
    }
  }

  lemma RowBegun(g: Grid, h0: seq<nat>, h2: seq<nat>, box: Box, probes: seq<int>, y: int, votes: map<int, nat>)
    requires |h0| == g.Size() && |h2| == g.Size() && box.Inside(g) && InBox(probes, box) && y < box.y2
    requires Counted(g, h0, h2, box, probes, y, votes)
    ensures PartCounted(g, h0, h2, box, probes, y, 0, votes)
  {
    hide Cast, Agreeing;
  }

  lemma RowCounted(g: Grid, h0: seq<nat>, h2: seq<nat>, box: Box, probes: seq<int>, y: int, votes: map<int, nat>)
    requires |h0| == g.Size() && |h2| == g.Size() && box.Inside(g) && InBox(probes, box) && y < box.y2
    requires PartCounted(g, h0, h2, box, probes, y, |probes|, votes)
    ensures Counted(g, h0, h2, box, probes, y + 1, votes)
  {
    hide Cast, Tally;
  }

  lemma BallotCounted(g: Grid, h0: seq<nat>, h2: seq<nat>, box: Box, probes: seq<int>, y: int, i: nat,
                      was: map<int, nat>, votes: map<int, nat>)
    requires |h0| == g.Size() && |h2| == g.Size() && box.Inside(g) && InBox(probes, box)
    requires box.y1 <= y < box.y2 && i < |probes| && PartCounted(g, h0, h2, box, probes, y, i, was)
    requires forall dy :: dy != 0 ==>
               (Cast(votes, dy) == Cast(was, dy) + if dy == y - probes[i] then Agreeing(g, h0, h2, box, probes[i], y, box.last) else 0)
    ensures PartCounted(g, h0, h2, box, probes, y, i + 1, votes)
  {
    hide Cast, Tally, Agreeing;
    forall dy | dy != 0
      ensures Cast(votes, dy) + Tally(g, h0, h2, box, probes, i + 1, dy, y)
           == Tally(g, h0, h2, box, probes, |probes|, dy, y) + Tally(g, h0, h2, box, probes, i + 1, dy, y + 1)
    {
      OneBallot(g, h0, h2, box, probes, i, dy, y);
    }
  }

  lemma SomeShift(s: set<int>)
    ensures s == {} || exists dy :: dy in s
  {
    if forall dy :: dy !in s {
      assert s == {};
    }
  }

  /** The shift with the most votes, any of them where several have as many. */
  method MostVotes(votes: map<int, nat>) returns (best: Option<int>)
    ensures best.None? <==> votes == map[]
    ensures best.Some? ==> best.value in votes && forall dy :: dy in votes ==> votes[dy] <= votes[best.value]
  {
    best := None;
    var left := votes.Keys;
    while left != {}
      invariant left <= votes.Keys
      invariant best.None? ==> left == votes.Keys
      invariant best.Some? ==> best.value in votes && forall dy :: dy in votes && dy !in left ==> votes[dy] <= votes[best.value]
      decreases |left|
    {
      SomeShift(left);
      var dy: int :| dy in left;
      left := left - {dy};
      if best.None? || votes[dy] >= votes[best.value] {
        best := Some(dy);
      }
    }
    assert best.None? ==> votes.Keys == {};
  }

  /** This shift has the most votes of any there is, and enough. */
  ghost predicate Elected(g: Grid, h0: seq<nat>, h2: seq<nat>, box: Box, probes: seq<int>, dy: int)
    requires |h0| == g.Size() && |h2| == g.Size() && box.Inside(g) && InBox(probes, box)
  {
    && dy != 0 && AllVotes(g, h0, h2, box, probes, dy) >= 8
    && forall other :: other != 0 ==> AllVotes(g, h0, h2, box, probes, other) <= AllVotes(g, h0, h2, box, probes, dy)
  }

  /** None has enough. */
  ghost predicate NoneElected(g: Grid, h0: seq<nat>, h2: seq<nat>, box: Box, probes: seq<int>)
    requires |h0| == g.Size() && |h2| == g.Size() && box.Inside(g) && InBox(probes, box)
  {
    forall dy :: dy != 0 ==> AllVotes(g, h0, h2, box, probes, dy) < 8
  }
}
