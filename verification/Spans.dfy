/** One band of a region: sorted horizontal spans, and the three
    one-dimensional merges the region operations are made of. */
module Spans {
  import opened Geometry

  datatype Span = Span(x1: int, x2: int)

  /** Non-empty, sorted, with at least one uncovered column between neighbours. */
  ghost predicate Separated(s: seq<Span>) {
    && (forall i :: 0 <= i < |s| ==> s[i].x1 < s[i].x2)
    && (forall i, j :: 0 <= i < j < |s| ==> s[i].x2 < s[j].x1)
  }

  /** Whether one of the first n spans covers column x. */
  ghost predicate CoversTo(s: seq<Span>, n: nat, x: int)
    requires n <= |s|
  {
    exists i :: 0 <= i < n && s[i].x1 <= x < s[i].x2
  }

  ghost predicate Covers(s: seq<Span>, x: int) { CoversTo(s, |s|, x) }

  /** Separated spans are canonical: the columns they cover determine the list. */
  lemma {:induction false} SpansCanonical(s: seq<Span>, t: seq<Span>)
    requires Separated(s) && Separated(t)
    requires forall x :: Covers(s, x) <==> Covers(t, x)
    ensures s == t
  {
    hide Separated, Covers;
    NonEmptyCovers(s);
    NonEmptyCovers(t);
    NothingCovered();
    if s != [] && t != [] {
      SameStart(s, t);
      SameStart(t, s);
      SameEnd(s, t);
      SameEnd(t, s);
      forall x ensures Covers(s[1..], x) <==> Covers(t[1..], x) {
        TailCovers(s, x);
        TailCovers(t, x);
      }
      TailCovers(s, 0);
      TailCovers(t, 0);
      SpansCanonical(s[1..], t[1..]);
      assert s == [s[0]] + s[1..] && t == [t[0]] + t[1..];
    }
  }

  lemma NothingCovered()
    ensures forall x :: !Covers([], x)
  {
  }

  lemma SameStart(s: seq<Span>, t: seq<Span>)
    requires Separated(s) && Separated(t) && s != [] && t != []
    requires forall x :: Covers(s, x) <==> Covers(t, x)
    ensures t[0].x1 <= s[0].x1
  {
    assert Covers(s, s[0].x1);
  }

  lemma FirstCovers(s: seq<Span>, x: int)
    requires s != []
    ensures s[0].x1 <= x < s[0].x2 ==> Covers(s, x)
  {
  }

  lemma NonEmptyCovers(s: seq<Span>)
    requires Separated(s)
    ensures s != [] ==> exists x :: Covers(s, x)
  {
    if s != [] {
      assert Covers(s, s[0].x1);
    }
  }

  lemma CoversNext(s: seq<Span>, n: nat, x: int)
    requires n < |s|
    ensures CoversTo(s, n + 1, x) <==> CoversTo(s, n, x) || s[n].x1 <= x < s[n].x2
  {
    if CoversTo(s, n, x) {
      var k :| 0 <= k < n && s[k].x1 <= x < s[k].x2;
      assert 0 <= k < n + 1;
    }
  }

  lemma SameEnd(s: seq<Span>, t: seq<Span>)
    requires Separated(s) && Separated(t) && s != [] && t != []
    requires s[0].x1 == t[0].x1
    requires forall x :: Covers(s, x) <==> Covers(t, x)
    ensures t[0].x2 <= s[0].x2
  {
    assert !Covers(s, s[0].x2);
    FirstCovers(t, s[0].x2);
  }

  lemma TailCovers(s: seq<Span>, x: int)
    requires Separated(s) && s != []
    ensures Separated(s[1..])
    ensures Covers(s[1..], x) <==> Covers(s, x) && s[0].x2 <= x
  {
    if Covers(s, x) && s[0].x2 <= x {
      var i :| 0 <= i < |s| && s[i].x1 <= x < s[i].x2;
      assert s[1..][i - 1] == s[i];
    }
  }

  /** Sorting by the left edge, then the right; insertion order is immaterial
      to the result, which is what a library sort promises. */
  function Insert(sp: Span, s: seq<Span>): seq<Span> {
    if s == [] || sp.x1 < s[0].x1 || (sp.x1 == s[0].x1 && sp.x2 <= s[0].x2) then [sp] + s
    else [s[0]] + Insert(sp, s[1..])
  }

  function Sort(s: seq<Span>): seq<Span> {
    if s == [] then [] else Insert(s[0], Sort(s[1..]))
  }

  lemma {:induction false} SortOfSeparated(s: seq<Span>)
    requires Separated(s)
    ensures Sort(s) == s
  {
    if s != [] {
      var tail := s[1..];
      assert tail != [] ==> tail[0] == s[1];
      SortOfSeparated(tail);
      assert Insert(s[0], tail) == [s[0]] + tail;
      assert s == [s[0]] + tail;
    }
  }

  /** Output so far plus the span still growing. */
  ghost function WithOpen(out: seq<Span>, cur: Option<Span>): seq<Span> {
    if cur.Some? then out + [cur.value] else out
  }

  /** Finished spans, and an open one to their right. */
  ghost predicate Growing(out: seq<Span>, cur: Option<Span>) {
    && Separated(out)
    && (cur.None? ==> out == [])
    && (cur.Some? ==> cur.value.x1 < cur.value.x2 && forall k :: 0 <= k < |out| ==> out[k].x2 < cur.value.x1)
  }

  /** Both lists walked in order of their left edges, one span kept growing
      until the next one starts past it. */
  method UnionSpans(a: seq<Span>, b: seq<Span>) returns (out: seq<Span>)
    requires Separated(a) && Separated(b)
    ensures Separated(out)
    ensures forall x :: Covers(out, x) <==> Covers(a, x) || Covers(b, x)
  {
    out := [];
    var i, j := 0, 0;
    var cur: Option<Span> := None;
    while i < |a| || j < |b|
      invariant 0 <= i <= |a| && 0 <= j <= |b|
      invariant Growing(out, cur)
      invariant forall x :: Covers(WithOpen(out, cur), x) <==> SeenTo(a, b, i, j, x)
      invariant cur.Some? && i < |a| ==> cur.value.x1 <= a[i].x1
      invariant cur.Some? && j < |b| ==> cur.value.x1 <= b[j].x1
      decreases |a| - i + |b| - j
    {
      var next;
      next, i, j := Leftmost(a, b, i, j);
      out, cur := Grow(out, cur, next);
    }
    assert forall x :: SeenTo(a, b, i, j, x) <==> Covers(a, x) || Covers(b, x);
    if cur.Some? {
      out := out + [cur.value];
    }
  }

  /** The span that starts furthest left, taken off its list. */
  method Leftmost(a: seq<Span>, b: seq<Span>, i: nat, j: nat) returns (next: Span, i': nat, j': nat)
    requires Separated(a) && Separated(b)
    requires i <= |a| && j <= |b| && (i < |a| || j < |b|)
    ensures i <= i' <= |a| && j <= j' <= |b| && i' + j' == i + j + 1
    ensures (i < |a| && next == a[i]) || (j < |b| && next == b[j])
    ensures next.x1 < next.x2
    ensures i < |a| ==> next.x1 <= a[i].x1
    ensures j < |b| ==> next.x1 <= b[j].x1
    ensures i' < |a| ==> next.x1 <= a[i'].x1
    ensures j' < |b| ==> next.x1 <= b[j'].x1
    ensures forall x :: SeenTo(a, b, i', j', x) <==> SeenTo(a, b, i, j, x) || next.x1 <= x < next.x2
  {
    if i < |a| && (j == |b| || a[i].x1 <= b[j].x1) {
      next, i', j' := a[i], i + 1, j;
      forall x { CoversNext(a, i, x); }
    } else {
      next, i', j' := b[j], i, j + 1;
      forall x { CoversNext(b, j, x); }
    }
  }

  /** The part of the union the walk has accounted for at (i, j). */
  ghost predicate SeenTo(a: seq<Span>, b: seq<Span>, i: nat, j: nat, x: int)
    requires i <= |a| && j <= |b|
  {
    CoversTo(a, i, x) || CoversTo(b, j, x)
  }

  /** One step of the union walk adds exactly the columns of the next span. */
  method Grow(out: seq<Span>, cur: Option<Span>, next: Span) returns (out': seq<Span>, cur': Option<Span>)
    requires Growing(out, cur) && next.x1 < next.x2
    requires cur.Some? ==> cur.value.x1 <= next.x1
    ensures Growing(out', cur') && cur'.Some? && cur'.value.x1 <= next.x1
    ensures forall x :: Covers(WithOpen(out', cur'), x) <==> Covers(WithOpen(out, cur), x) || next.x1 <= x < next.x2
  {
    out' := out;
    if cur.Some? && next.x1 <= cur.value.x2 {
      cur' := Some(Span(cur.value.x1, Max(cur.value.x2, next.x2)));
    } else {
      if cur.Some? {
        out' := out + [cur.value];
      }
      cur' := Some(next);
    }
    forall x ensures Covers(WithOpen(out', cur'), x) <==> Covers(WithOpen(out, cur), x) || next.x1 <= x < next.x2 {
      CoversSnoc(out', cur'.value, x);
      if cur.Some? {
        CoversSnoc(out, cur.value, x);
      }
    }
  }

  lemma CoversSnoc(s: seq<Span>, sp: Span, x: int)
    ensures Covers(s + [sp], x) <==> Covers(s, x) || sp.x1 <= x < sp.x2
  {
    if Covers(s, x) {
      var i :| 0 <= i < |s| && s[i].x1 <= x < s[i].x2;
      assert (s + [sp])[i] == s[i];
    }
    if sp.x1 <= x < sp.x2 {
      assert (s + [sp])[|s|] == sp;
    }
  }

  /** The overlap of the two current spans is kept, and the one that ends first is left behind. */
  method IntersectSpans(a: seq<Span>, b: seq<Span>) returns (out: seq<Span>)
    requires Separated(a) && Separated(b)
    ensures Separated(out)
    ensures forall x :: Covers(out, x) <==> Covers(a, x) && Covers(b, x)
  {
    out := [];
    var i, j := 0, 0;
    while i < |a| && j < |b|
      invariant 0 <= i <= |a| && 0 <= j <= |b|
      invariant Separated(out)
      invariant forall x :: Covers(out, x) <==> OverlapTo(a, b, i, j, x)
      invariant i < |a| && j < |b| ==> forall k :: 0 <= k < |out| ==> out[k].x2 < Max(a[i].x1, b[j].x1)
      decreases |a| - i + |b| - j
    {
      var x1 := Max(a[i].x1, b[j].x1);
      var x2 := Min(a[i].x2, b[j].x2);
      ghost var i0, j0, out0 := i, j, out;
      if x1 < x2 {
        out := out + [Span(x1, x2)];
      }
      if a[i].x2 < b[j].x2 {
        i := i + 1;
      } else {
        j := j + 1;
      }
      forall x ensures Covers(out, x) <==> OverlapTo(a, b, i, j, x) {
        CoversSnoc(out0, Span(x1, x2), x);
        OverlapStep(a, b, i0, j0, x);
      }
    }
  }

  /** The part of the intersection the walk has accounted for at (i, j). */
  ghost predicate OverlapTo(a: seq<Span>, b: seq<Span>, i: nat, j: nat, x: int)
    requires i <= |a| && j <= |b|
  {
    (CoversTo(a, i, x) && Covers(b, x)) || (Covers(a, x) && CoversTo(b, j, x))
  }

  lemma OverlapStep(a: seq<Span>, b: seq<Span>, i: nat, j: nat, x: int)
    requires Separated(a) && Separated(b) && i < |a| && j < |b|
    ensures OverlapTo(a, b, if a[i].x2 < b[j].x2 then i + 1 else i, if a[i].x2 < b[j].x2 then j else j + 1, x)
      <==> OverlapTo(a, b, i, j, x) || Max(a[i].x1, b[j].x1) <= x < Min(a[i].x2, b[j].x2)
  {
    CoversNext(a, i, x);
    CoversNext(b, j, x);
  }

  /** Each span of a, with the spans of b cut out of it. */
  method SubtractSpans(a: seq<Span>, b: seq<Span>) returns (out: seq<Span>)
    requires Separated(a) && Separated(b)
    ensures Separated(out)
    ensures forall x :: Covers(out, x) <==> Covers(a, x) && !Covers(b, x)
  {
    out := [];
    var j := 0;
    for p := 0 to |a|
      invariant 0 <= j <= |b|
      invariant Separated(out)
      invariant forall x :: Covers(out, x) <==> CoversTo(a, p, x) && !Covers(b, x)
      invariant p < |a| ==> forall m :: 0 <= m < j ==> b[m].x2 <= a[p].x1
      invariant p < |a| ==> forall m :: 0 <= m < |out| ==> out[m].x2 < a[p].x1
    {
      j := SkipEnded(b, j, a[p].x1);
      var holes := CutOne(a[p], b, j);
      forall x ensures Covers(out + holes, x) <==> Covers(out, x) || Covers(holes, x) {
        CoversConcat(out, holes, x);
      }
      out := out + holes;
    }
  }

  lemma CoversConcat(s: seq<Span>, t: seq<Span>, x: int)
    ensures Covers(s + t, x) <==> Covers(s, x) || Covers(t, x)
  {
    if Covers(s, x) {
      var i :| 0 <= i < |s| && s[i].x1 <= x < s[i].x2;
      assert (s + t)[i] == s[i];
    }
    if Covers(t, x) {
      var i :| 0 <= i < |t| && t[i].x1 <= x < t[i].x2;
      assert (s + t)[|s| + i] == t[i];
    }
  }

  /** Spans of b that end at or before the column no longer matter. */
  method SkipEnded(b: seq<Span>, start: nat, column: int) returns (j: nat)
    requires start <= |b|
    requires forall m :: 0 <= m < start ==> b[m].x2 <= column
    ensures start <= j <= |b|
    ensures forall m :: 0 <= m < j ==> b[m].x2 <= column
    ensures j < |b| ==> column < b[j].x2
  {
    j := start;
    while j < |b| && b[j].x2 <= column
      invariant start <= j <= |b|
      invariant forall m :: 0 <= m < j ==> b[m].x2 <= column
    {
      j := j + 1;
    }
  }

  /** Between cur and the end of b's k-th span, what is left is what lies before that span. */
  lemma CutStep(sp: Span, b: seq<Span>, k: nat, cur: int, before: seq<Span>, after: seq<Span>)
    requires Separated(b) && k < |b| && sp.x1 <= cur < sp.x2 && b[k].x1 < sp.x2 && cur < b[k].x2
    requires forall m :: 0 <= m < k ==> b[m].x2 <= cur
    requires forall x :: Covers(before, x) <==> sp.x1 <= x < cur && !Covers(b, x)
    requires forall x :: Covers(after, x) <==> Covers(before, x) || cur <= x < b[k].x1
    ensures forall x :: Covers(after, x) <==> sp.x1 <= x < Min(Max(cur, b[k].x2), sp.x2) && !Covers(b, x)
  {
    assert forall m :: k < m < |b| ==> b[k].x2 < b[m].x1;
    forall x ensures cur <= x < b[k].x2 ==> (Covers(b, x) <==> b[k].x1 <= x) {
      assert b[k].x1 <= x < b[k].x2 ==> Covers(b, x);
    }
  }

  /** What is left of one span once the spans of b, from the j-th on, are cut out of it. */
  method CutOne(sp: Span, b: seq<Span>, j: nat) returns (out: seq<Span>)
    requires sp.x1 < sp.x2 && Separated(b) && j <= |b|
    requires forall m :: 0 <= m < j ==> b[m].x2 <= sp.x1
    requires j < |b| ==> sp.x1 < b[j].x2
    ensures Separated(out)
    ensures forall m :: 0 <= m < |out| ==> sp.x1 <= out[m].x1 && out[m].x2 <= sp.x2
    ensures forall x :: Covers(out, x) <==> sp.x1 <= x < sp.x2 && !Covers(b, x)
  {
    hide Covers, Separated;
    out := [];
    var cur := sp.x1;
    var k := j;
    NothingCut(sp, b);
    while k < |b| && b[k].x1 < sp.x2
      invariant j <= k <= |b| && sp.x1 <= cur < sp.x2
      invariant forall m :: 0 <= m < k ==> b[m].x2 <= cur
      invariant k < |b| ==> cur < b[k].x2
      invariant Separated(out)
      invariant forall m :: 0 <= m < |out| ==> sp.x1 <= out[m].x1 && out[m].x2 < cur
      invariant forall x :: Covers(out, x) <==> sp.x1 <= x < cur && !Covers(b, x)
    {
      ghost var out0 := out;
      if b[k].x1 > cur {
        AppendSpan(out, Span(cur, b[k].x1));
        out := out + [Span(cur, b[k].x1)];
      }
      CutStep(sp, b, k, cur, out0, out);
      NextEnds(b, k);
      cur := Max(cur, b[k].x2);
      if cur >= sp.x2 {
        break;
      }
      k := k + 1;
    }
    if cur < sp.x2 {
      AppendSpan(out, Span(cur, sp.x2));
      NoneBefore(b, k, cur, sp.x2);
      out := out + [Span(cur, sp.x2)];
    }
  }

  lemma NothingCut(sp: Span, b: seq<Span>)
    ensures Separated([]) && forall x :: Covers([], x) <==> sp.x1 <= x < sp.x1 && !Covers(b, x)
  {
  }

  /** A span after all others. */
  lemma AppendSpan(s: seq<Span>, sp: Span)
    requires Separated(s) && sp.x1 < sp.x2 && forall m :: 0 <= m < |s| ==> s[m].x2 < sp.x1
    ensures Separated(s + [sp])
    ensures forall x :: Covers(s + [sp], x) <==> Covers(s, x) || sp.x1 <= x < sp.x2
  {
    forall x {
      CoversSnoc(s, sp, x);
    }
  }

  lemma NextEnds(b: seq<Span>, k: nat)
    requires Separated(b) && k < |b|
    ensures b[k].x1 < b[k].x2 && (k + 1 < |b| ==> b[k].x2 < b[k + 1].x1 < b[k + 1].x2)
  {
  }

  /** Between what has ended and what has not begun nothing is covered. */
  lemma NoneBefore(b: seq<Span>, k: nat, from: int, to: int)
    requires Separated(b) && k <= |b| && (k < |b| ==> to <= b[k].x1) && forall m :: 0 <= m < k ==> b[m].x2 <= from
    ensures forall x :: from <= x < to ==> !Covers(b, x)
  {
    assert forall m :: k < m < |b| ==> b[k].x2 < b[m].x1;
  }
}
