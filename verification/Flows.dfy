/** How much a client may be sent before it is heard from: bytes in flight,
    measured by fences the client echoes once it has been through them. */
module Flows {
  import opened Geometry

  const MINIMUM_WINDOW := 16384
  const MAXIMUM_WINDOW := 4194304

  // Times in nanoseconds.
  const CLEAR := 25_000_000
  const QUEUED := 100_000_000
  const MAX_OUTSTANDING := 3
  const PING_BYTES := 16384
  const PING_INTERVAL := 100_000_000
  const PING_TIMEOUT := 5_000_000_000
  const BASE_LIFETIME := 60_000_000_000

  datatype Ping = Ping(seq_: nat, atBytes: nat, at: nat)

  datatype Base = Base(rtt: nat, at: nat)

  /** One client's share of the link. */
  datatype Flow = Flow(measured: bool, growth: nat, window: nat, written: nat, acked: nat, lastUpdate: nat,
                       pings: seq<Ping>, nextSeq: nat, lastPing: Option<nat>, lastPingBytes: nat,
                       base: Option<Base>, rtt: Option<nat>, lost: nat)
  {
    function InFlight(): nat { Since(written, acked) }

    /** The window keeps to its limits; the round trips open are in order, and each
        was started with no less written than has been answered, and no more than has been written. */
    ghost predicate Valid() {
      && MINIMUM_WINDOW <= window <= MAXIMUM_WINDOW && acked <= written
      && (forall i :: 0 <= i < |pings| ==> acked <= pings[i].atBytes <= written && pings[i].seq_ < nextSeq)
      && (forall i, j :: 0 <= i < j < |pings| ==> pings[i].seq_ < pings[j].seq_ && pings[i].atBytes <= pings[j].atBytes)
    }
  }

  /** A difference of times or counts that stops at zero. */
  function Since(now: nat, then_: nat): nat { if now >= then_ then now - then_ else 0 }

  function Clamped(v: nat): nat {
    if v < MINIMUM_WINDOW then MINIMUM_WINDOW else if v > MAXIMUM_WINDOW then MAXIMUM_WINDOW else v
  }

  function Fresh(initial: nat, growth: nat): Flow {
    Flow(false, growth, Clamped(initial), 0, 0, 0, [], 1, None, 0, None, None, 0)
  }

  /** Nothing in flight means go; otherwise the next update has to fit beside what is. */
  predicate MaySend(f: Flow) {
    !f.measured || f.InFlight() == 0 || f.InFlight() + f.lastUpdate <= f.window
  }

  function Wrote(f: Flow, bytes: nat): Flow { f.(written := f.written + bytes, lastUpdate := bytes) }

  predicate PingDue(f: Flow, now: nat) {
    && f.measured && |f.pings| < MAX_OUTSTANDING
    && (Since(f.written, f.lastPingBytes) >= PING_BYTES || f.lastPing.None? || Since(now, f.lastPing.value) >= PING_INTERVAL)
  }

  function Pinged(f: Flow, now: nat): Flow {
    f.(nextSeq := f.nextSeq + 1, pings := f.pings + [Ping(f.nextSeq, f.written, now)],
       lastPing := Some(now), lastPingBytes := f.written)
  }

  /** Where the round trip of this number is, or past the end. */
  function Position(pings: seq<Ping>, seq_: nat): (i: nat)
    ensures i <= |pings| && (i < |pings| ==> pings[i].seq_ == seq_)
    ensures forall j :: 0 <= j < i ==> pings[j].seq_ != seq_
  {
    if pings == [] then 0 else if pings[0].seq_ == seq_ then 0 else 1 + Position(pings[1..], seq_)
  }

  /** The window moved on one measurement. */
  function Resized(f: Flow, sample: nat): Flow {
    var over := Since(sample, if f.base.Some? then f.base.value.rtt else sample);
    f.(window := Clamped(if over < CLEAR then f.window + f.growth else if over > QUEUED then f.window / 2 else f.window))
  }

  /** An echo answers its fence and every one before it; one that is not open changes nothing. */
  function Ponged(f: Flow, seq_: nat, now: nat): Flow {
    var i := Position(f.pings, seq_);
    if i == |f.pings| then f
    else
      var sample := Since(now, f.pings[i].at);
      var stale := f.base.None? || sample < f.base.value.rtt || Since(now, f.base.value.at) > BASE_LIFETIME;
      Resized(f.(pings := f.pings[i + 1..], acked := Max(f.acked, f.pings[i].atBytes),
                 rtt := Some(if f.rtt.Some? then (f.rtt.value * 7 + sample) / 8 else sample),
                 base := if stale then Some(Base(sample, now)) else f.base), sample)
  }

  /** Round trips too old are written off; their bytes stay in flight. */
  function Expired(f: Flow, now: nat): Flow
    decreases |f.pings|
  {
    if f.pings == [] || Since(now, f.pings[0].at) <= PING_TIMEOUT then f
    else Expired(f.(pings := f.pings[1..], lost := f.lost + 1), now)
  }

  // ---- What every call keeps ----

  lemma FreshValid(initial: nat, growth: nat)
    ensures Fresh(initial, growth).Valid() && MaySend(Fresh(initial, growth))
    ensures 16384 <= initial <= 4194304 ==> Fresh(initial, growth).window == initial
  {
  }

  lemma PingedKeeps(f: Flow, now: nat)
    requires f.Valid()
    ensures Pinged(f, now).Valid()
  {
  }

  lemma PongedKeeps(f: Flow, seq_: nat, now: nat)
    requires f.Valid()
    ensures Ponged(f, seq_, now).Valid()
    ensures f.acked <= Ponged(f, seq_, now).acked && Ponged(f, seq_, now).written == f.written
  {
    var i := Position(f.pings, seq_);
    if i < |f.pings| {
      var rest := f.pings[i + 1..];
      assert forall j {:trigger rest[j]} :: 0 <= j < |rest| ==> rest[j] == f.pings[i + 1 + j];
    }
  }

  /** Some of the oldest round trips given up, and nothing else changed that matters here. */
  ghost predicate WrittenOff(f: Flow, g: Flow) {
    g.Valid() && g.acked == f.acked && g.written == f.written && g.nextSeq == f.nextSeq && IsTail(g.pings, f.pings)
  }

  lemma {:induction false} ExpiredKeeps(f: Flow, now: nat)
    requires f.Valid()
    ensures WrittenOff(f, Expired(f, now))
    decreases |f.pings|
  {
    hide WrittenOff, Flow.Valid;
    NoneWrittenOff(f);
    if f.pings != [] && Since(now, f.pings[0].at) > PING_TIMEOUT {
      var g := f.(pings := f.pings[1..], lost := f.lost + 1);
      OneLess(f, g);
      ExpiredKeeps(g, now);
      OneMoreOff(f, g, Expired(g, now));
    }
  }

  lemma NoneWrittenOff(f: Flow)
    requires f.Valid()
    ensures WrittenOff(f, f)
  {
  }

  lemma OneLess(f: Flow, g: Flow)
    requires f.Valid() && f.pings != [] && g == f.(pings := f.pings[1..], lost := f.lost + 1)
    ensures g.Valid()
  {
  }

  lemma OneMoreOff(f: Flow, g: Flow, h: Flow)
    requires f.pings != [] && g == f.(pings := f.pings[1..], lost := f.lost + 1) && WrittenOff(g, h)
    ensures WrittenOff(f, h)
  {
  }

  predicate IsTail(part: seq<Ping>, whole: seq<Ping>) { |part| <= |whole| && part == whole[|whole| - |part|..] }

  /** After an echo, that echo again, or one of any fence before it, changes nothing. */
  lemma LateEchoIsNothing(f: Flow, first: nat, again: nat, now: nat, later: nat)
    requires f.Valid() && Position(f.pings, first) < |f.pings| && again <= first
    ensures Ponged(Ponged(f, first, now), again, later) == Ponged(f, first, now)
  {
    hide Position;
    var i, g := Position(f.pings, first), Ponged(f, first, now);
    assert g.pings == f.pings[i + 1..];
    assert forall k :: 0 <= k < |g.pings| ==> g.pings[k] == f.pings[i + 1 + k] && g.pings[k].seq_ > first;
  }

  /** An update sent when it may be leaves no more than the window and itself in flight. */
  lemma FitsTheWindow(f: Flow, bytes: nat)
    requires f.Valid() && f.measured && MaySend(f)
    ensures Wrote(f, bytes).InFlight() <= f.window + bytes
  {
  }

  /** Only what is in flight holds an update back: a client that has answered for
      everything written may always be sent the next one, whatever its size. */
  lemma CaughtUpMaySend(f: Flow, seq_: nat, now: nat)
    requires f.Valid() && Position(f.pings, seq_) < |f.pings| && f.pings[Position(f.pings, seq_)].atBytes == f.written
    ensures Ponged(f, seq_, now).InFlight() == 0 && MaySend(Ponged(f, seq_, now))
  {
  }

  /** After an update the next waits exactly while something is in flight and another
      of that size would not fit the window beside it. */
  lemma HeldBackIff(f: Flow, bytes: nat)
    requires f.Valid() && f.measured
    ensures !MaySend(Wrote(f, bytes)) <==>
            f.written - f.acked + bytes > 0 && f.written - f.acked + 2 * bytes > f.window
  {
  }

  /** After a round trip is started, the next is worth starting once 16 KiB more have been
      written or a tenth of a second has passed, while fewer than three are open. */
  lemma NextPingDue(f: Flow, now: nat, bytes: nat, later: nat)
    requires f.Valid() && f.measured
    ensures PingDue(Wrote(Pinged(f, now), bytes), later) <==>
            |f.pings| + 1 < 3 && (bytes >= 16384 || later - now >= 100_000_000)
  {
  }

  /** Exactly the round trips at the front open for more than five seconds are written
      off, and each of them is counted. */
  lemma {:induction false} ExpiredCut(f: Flow, now: nat)
    ensures var g := Expired(f, now);
            && IsTail(g.pings, f.pings) && g == f.(pings := g.pings, lost := f.lost + |f.pings| - |g.pings|)
            && (g.pings != [] ==> now - g.pings[0].at <= 5_000_000_000)
            && forall i :: 0 <= i < |f.pings| - |g.pings| ==> now - f.pings[i].at > 5_000_000_000
    decreases |f.pings|
  {
    if f.pings != [] && Since(now, f.pings[0].at) > PING_TIMEOUT {
      var rest := f.(pings := f.pings[1..], lost := f.lost + 1);
      ExpiredCut(rest, now);
      assert forall i :: 0 < i < |f.pings| ==> f.pings[i] == rest.pings[i - 1];
    }
  }

  // ---- Which way the window moves ----

  /** The shortest round trip known once this one is in: one not bettered for a minute is forgotten. */
  function Shortest(f: Flow, sample: nat, now: nat): (shortest: nat)
    ensures shortest <= sample
  {
    if f.base.None? || f.base.value.at + 60_000_000_000 < now then sample else Min(f.base.value.rtt, sample)
  }

  /** A round trip less than 25 ms over the shortest known opens the window by its growth, or to
      4 MiB; one more than 100 ms over shuts it to a half, or to 16 KiB; any other leaves it. */
  ghost predicate Moved(f: Flow, sample: nat, now: nat, window: nat) {
    var over := sample - Shortest(f, sample, now);
    && (over < 25_000_000 ==> window == Min(f.window + f.growth, 4194304))
    && (25_000_000 <= over <= 100_000_000 ==> window == f.window)
    && (over > 100_000_000 ==> window == Max(f.window / 2, 16384))
  }

  lemma PongMoves(f: Flow, seq_: nat, now: nat)
    requires f.Valid() && Position(f.pings, seq_) < |f.pings|
    ensures var sample := Since(now, f.pings[Position(f.pings, seq_)].at);
            Moved(f, sample, now, Ponged(f, seq_, now).window)
  {
    hide Position;
  }

  /** What an echo leaves behind as the shortest round trip known, and as the smoothed
      one: seven eighths of what it was and an eighth of this one. */
  lemma PongMeasures(f: Flow, seq_: nat, now: nat)
    requires f.Valid() && Position(f.pings, seq_) < |f.pings|
    ensures var g, sample := Ponged(f, seq_, now), Since(now, f.pings[Position(f.pings, seq_)].at);
            && g.base.Some? && g.base.value.rtt == Shortest(f, sample, now)
            && g.base.value.at == (if f.base.None? || f.base.value != g.base.value then now else f.base.value.at)
            && g.rtt.Some? && (if f.rtt.None? then g.rtt.value == sample
                               else 8 * g.rtt.value <= 7 * f.rtt.value + sample < 8 * g.rtt.value + 8)
  {
    hide Position;
  }

  // ---- The calls as they run ----

  class Congestion {
    var measured: bool
    const growth: nat
    var window: nat
    var written: nat
    var acked: nat
    var lastUpdate: nat
    var pings: seq<Ping>
    var nextSeq: nat
    var lastPing: Option<nat>
    var lastPingBytes: nat
    var base: Option<Base>
    var rtt: Option<nat>
    var lost: nat

    ghost function State(): Flow
      reads this
    {
      Flow(measured, growth, window, written, acked, lastUpdate, pings, nextSeq, lastPing, lastPingBytes, base, rtt, lost)
    }

    constructor (initial: nat, growth: nat)
      ensures State() == Fresh(initial, growth)
    {
      measured, this.growth, window := false, growth, Clamped(initial);
      written, acked, lastUpdate, pings, nextSeq := 0, 0, 0, [], 1;
      lastPing, lastPingBytes, base, rtt, lost := None, 0, None, None, 0;
    }

    method Measure()
      modifies this
      ensures State() == old(State()).(measured := true)
    {
      measured := true;
    }

    method MaySendNow() returns (may: bool)
      ensures may == MaySend(State())
    {
      if !measured { return true; }
      var flight := Since(written, acked);
      may := flight == 0 || flight + lastUpdate <= window;
    }

    method CountWritten(bytes: nat)
      modifies this
      ensures State() == Wrote(old(State()), bytes)
    {
      written := written + bytes;
      lastUpdate := bytes;
    }

    method PingIsDue(now: nat) returns (due: bool)
      ensures due == PingDue(State(), now)
    {
      if !measured || |pings| >= MAX_OUTSTANDING { return false; }
      var byBytes := Since(written, lastPingBytes) >= PING_BYTES;
      var byTime := lastPing.None? || Since(now, lastPing.value) >= PING_INTERVAL;
      due := byBytes || byTime;
    }

    /** Start a round trip; its number comes back in the client's echo. */
    method StartPing(now: nat) returns (seq_: nat)
      modifies this
      ensures seq_ == old(nextSeq) && State() == Pinged(old(State()), now)
    {
      seq_ := nextSeq;
      nextSeq := nextSeq + 1;
      pings := pings + [Ping(seq_, written, now)];
      lastPing := Some(now);
      lastPingBytes := written;
    }

    /** The client echoed a fence; false if it was not one open here. */
    method Pong(seq_: nat, now: nat) returns (ours: bool)
      modifies this
      ensures ours == (Position(old(pings), seq_) < |old(pings)|)
      ensures ours && old(State()).Valid() ==>
        Moved(old(State()), Since(now, old(pings)[Position(old(pings), seq_)].at), now, window)
      ensures State() == Ponged(old(State()), seq_, now)
    {
      var position := FindPing(seq_);
      if position == |pings| { return false; }
      if State().Valid() {
        PongMoves(State(), seq_, now);
      }
      Answered(position, now);
      return true;
    }

    method FindPing(seq_: nat) returns (position: nat)
      ensures position == Position(pings, seq_)
    {
      position := 0;
      while position < |pings| && pings[position].seq_ != seq_
        invariant position <= |pings| && position + Position(pings[position..], seq_) == Position(pings, seq_)
      {
        assert pings[position..][1..] == pings[position + 1..];
        position := position + 1;
      }
    }

    /** Everything up to this round trip has been through the client. */
    method Answered(position: nat, now: nat)
      requires position < |pings| && position == Position(pings, pings[position].seq_)
      modifies this
      ensures State() == Ponged(old(State()), old(pings)[position].seq_, now)
    {
      hide Position, Resized;
      var ping := pings[position];
      pings := pings[position + 1..];
      acked := Max(acked, ping.atBytes);
      var sample := Since(now, ping.at);
      rtt := Some(if rtt.Some? then (rtt.value * 7 + sample) / 8 else sample);
      if base.None? || sample < base.value.rtt || Since(now, base.value.at) > BASE_LIFETIME {
        base := Some(Base(sample, now));
      }
      Resize(sample);
    }

    /** Move the window on one measurement. */
    method Resize(sample: nat)
      modifies this
      ensures State() == Resized(old(State()), sample)
    {
      var over := Since(sample, if base.Some? then base.value.rtt else sample);
      if over < CLEAR {
        window := window + growth;
      } else if over > QUEUED {
        window := window / 2;
      }
      window := Clamped(window);
    }

    /** Write off round trips nothing came back for. */
    method Expire(now: nat)
      modifies this
      ensures State() == Expired(old(State()), now)
    {
      while pings != [] && Since(now, pings[0].at) > PING_TIMEOUT
        invariant Expired(State(), now) == Expired(old(State()), now)
        decreases |pings|
      {
        pings := pings[1..];
        lost := lost + 1;
      }
    }
  }

  // ---- A run, with the link and the client ----

  /** What is on the way: counted bytes, and fences the server wants echoed. */
  datatype Item = Chunk(bytes: nat) | Fence(seq_: nat)

  /** The session's measure, what is still on the link, the counted bytes the
      client has been through, and the fences it has reached. */
  datatype World = World(flow: Flow, link: seq<Item>, consumed: nat, reached: set<nat>)

  datatype Step =
    | Measure                    // the client lists the extension
    | Control(bytes: nat)        // a control message handed to the writer
    | Update(bytes: nat, now: nat)
    | Consume(bytes: nat)        // the client reads some of what comes next
    | Reach                      // the client reads the fence that comes next
    | Echo(seq_: nat, now: nat)  // the client answers, once or again, a fence it has reached
    | Tick(now: nat)

  ghost predicate Next(w: World, s: Step, w': World) {
    match s
    case Measure => w' == w.(flow := w.flow.(measured := true))
    case Control(n) => w' == w.(flow := Wrote(w.flow, n), link := w.link + [Chunk(n)])
    case Update(n, now) =>
      var f := Wrote(w.flow, n);
      && MaySend(w.flow)
      && w' == if PingDue(f, now) then w.(flow := Pinged(f, now), link := w.link + [Chunk(n), Fence(f.nextSeq)])
               else w.(flow := f, link := w.link + [Chunk(n)])
    case Consume(n) =>
      && w.link != [] && w.link[0].Chunk? && n <= w.link[0].bytes
      && w' == w.(consumed := w.consumed + n, link := [Chunk(w.link[0].bytes - n)] + w.link[1..])
    case Reach =>
      && w.link != [] && (w.link[0] == Chunk(0) || w.link[0].Fence?)
      && w' == w.(link := w.link[1..], reached := if w.link[0].Fence? then w.reached + {w.link[0].seq_} else w.reached)
    case Echo(q, now) => q in w.reached && w' == w.(flow := Ponged(w.flow, q, now))
    case Tick(now) => w' == w.(flow := Expired(w.flow, now))
  }

  /** The counted bytes on a stretch of link. */
  function Bytes(link: seq<Item>): nat {
    if link == [] then 0 else (if link[0].Chunk? then link[0].bytes else 0) + Bytes(link[1..])
  }

  lemma {:induction false} BytesJoin(a: seq<Item>, b: seq<Item>)
    ensures Bytes(a + b) == Bytes(a) + Bytes(b)
  {
    if a == [] {
      assert a + b == b;
    } else {
      assert (a + b)[0] == a[0] && (a + b)[1..] == a[1..] + b;
      BytesJoin(a[1..], b);
    }
  }

  /** The client has been through what this round trip was started after, or its fence
      is still to come, right behind that. */
  ghost predicate Placed(w: World, p: Ping) {
    if p.seq_ in w.reached then p.atBytes <= w.consumed
    else exists j :: 0 <= j < |w.link| && w.link[j] == Fence(p.seq_) && p.atBytes == w.consumed + Bytes(w.link[..j])
  }

  /** Every fence on the link was sent, and comes once. */
  ghost predicate FencesOnce(w: World) {
    && (forall q :: q in w.reached ==> q < w.flow.nextSeq)
    && (forall j :: 0 <= j < |w.link| && w.link[j].Fence? ==> w.link[j].seq_ < w.flow.nextSeq && w.link[j].seq_ !in w.reached)
    && (forall i, j :: 0 <= i < j < |w.link| && w.link[i].Fence? ==> w.link[j] != w.link[i])
  }

  ghost predicate Sound(w: World) {
    && w.flow.Valid() && w.flow.acked <= w.consumed && w.consumed + Bytes(w.link) == w.flow.written
    && FencesOnce(w)
    && forall i :: 0 <= i < |w.flow.pings| ==> Placed(w, w.flow.pings[i])
  }

  // ---- What every step keeps ----

  lemma ChunkAdded(w: World, n: nat, w': World)
    requires Sound(w) && w' == w.(flow := Wrote(w.flow, n), link := w.link + [Chunk(n)])
    ensures Sound(w')
  {
    hide Placed;
    BytesJoin(w.link, [Chunk(n)]);
    forall i | 0 <= i < |w.flow.pings| ensures Placed(w', w.flow.pings[i]) {
      StillPlaced(w, w', w.flow.pings[i]);
    }
  }

  /** More on the end of the link moves no fence. */
  lemma StillPlaced(w: World, w': World, p: Ping)
    requires Placed(w, p) && w'.reached == w.reached && w'.consumed == w.consumed && w.link <= w'.link
    ensures Placed(w', p)
  {
    if p.seq_ !in w.reached {
      var j :| 0 <= j < |w.link| && w.link[j] == Fence(p.seq_) && p.atBytes == w.consumed + Bytes(w.link[..j]);
      assert w'.link[..j] == w.link[..j];
    }
  }

  /** A fence goes out behind everything counted so far. */
  lemma FenceAdded(w: World, now: nat, w': World)
    requires Sound(w) && w' == w.(flow := Pinged(w.flow, now), link := w.link + [Fence(w.flow.nextSeq)])
    ensures Sound(w')
  {
    hide Placed;
    var f := w.flow;
    PingedKeeps(f, now);
    BytesJoin(w.link, [Fence(f.nextSeq)]);
    forall i | 0 <= i < |w'.flow.pings| ensures Placed(w', w'.flow.pings[i]) {
      if i < |f.pings| {
        StillPlaced(w, w', f.pings[i]);
      } else {
        LastPlaced(w, w', w'.flow.pings[i]);
      }
    }
  }

  lemma LastPlaced(w: World, w': World, p: Ping)
    requires Sound(w) && p.seq_ == w.flow.nextSeq && p.atBytes == w.flow.written
    requires w'.link == w.link + [Fence(p.seq_)] && w'.consumed == w.consumed && w'.reached == w.reached
    ensures Placed(w', p)
  {
    assert w'.link[|w.link|] == Fence(p.seq_) && w'.link[..|w.link|] == w.link;
  }

  /** Reading moves the client on and leaves each fence where it was. */
  lemma Consumed(w: World, n: nat, w': World)
    requires Sound(w) && w.link != [] && w.link[0].Chunk? && n <= w.link[0].bytes
    requires w' == w.(consumed := w.consumed + n, link := [Chunk(w.link[0].bytes - n)] + w.link[1..])
    ensures Sound(w')
  {
    hide Placed;
    assert w'.link[1..] == w.link[1..];
    forall i | 0 <= i < |w.flow.pings| ensures Placed(w', w.flow.pings[i]) {
      ConsumedPlaced(w, n, w', w.flow.pings[i]);
    }
  }

  lemma ConsumedPlaced(w: World, n: nat, w': World, p: Ping)
    requires Placed(w, p) && w.link != [] && w.link[0].Chunk? && n <= w.link[0].bytes
    requires w' == w.(consumed := w.consumed + n, link := [Chunk(w.link[0].bytes - n)] + w.link[1..])
    ensures Placed(w', p)
  {
    if p.seq_ !in w.reached {
      var j :| 0 <= j < |w.link| && w.link[j] == Fence(p.seq_) && p.atBytes == w.consumed + Bytes(w.link[..j]);
      assert w.link[..j][1..] == w.link[1..][..j - 1] && w'.link[..j][1..] == w.link[1..][..j - 1];
      assert w'.link[j] == w.link[j];
    }
  }

  /** A fence reached was behind everything counted before it. */
  lemma Reached(w: World, w': World)
    requires Sound(w) && Next(w, Reach, w')
    ensures Sound(w')
  {
    hide Placed;
    forall i | 0 <= i < |w.flow.pings| ensures Placed(w', w.flow.pings[i]) {
      ReachedPlaced(w, w', w.flow.pings[i]);
    }
  }

  lemma ReachedPlaced(w: World, w': World, p: Ping)
    requires FencesOnce(w) && Placed(w, p) && Next(w, Reach, w')
    ensures Placed(w', p)
  {
    if p.seq_ !in w.reached {
      var j :| 0 <= j < |w.link| && w.link[j] == Fence(p.seq_) && p.atBytes == w.consumed + Bytes(w.link[..j]);
      if j > 0 {
        assert w.link[..j][1..] == w.link[1..][..j - 1];
        assert w'.link[j - 1] == w.link[j] && w'.link[..j - 1] == w.link[1..][..j - 1];
        assert w.link[0] != w.link[j];
      }
    }
  }

  /** An echo acknowledges only what its fence was behind, which the client has been through. */
  lemma Echoed(w: World, q: nat, now: nat, w': World)
    requires Sound(w) && q in w.reached && w' == w.(flow := Ponged(w.flow, q, now))
    ensures Sound(w')
  {
    hide Placed, Resized;
    PongedKeeps(w.flow, q, now);
    var i := Position(w.flow.pings, q);
    if i < |w.flow.pings| {
      EchoAcks(w, i);
      var rest := w.flow.pings[i + 1..];
      ResizedKeeps(w.flow, q, now);
      forall k | 0 <= k < |rest| ensures Placed(w', rest[k]) {
        assert rest[k] == w.flow.pings[i + 1 + k];
        SamePlace(w, w', rest[k]);
      }
    }
  }

  lemma EchoAcks(w: World, i: nat)
    requires Sound(w) && i < |w.flow.pings| && w.flow.pings[i].seq_ in w.reached
    ensures w.flow.pings[i].atBytes <= w.consumed
  {
    assert Placed(w, w.flow.pings[i]);
  }

  lemma ResizedKeeps(f: Flow, q: nat, now: nat)
    requires Position(f.pings, q) < |f.pings|
    ensures var i, g := Position(f.pings, q), Ponged(f, q, now);
            g.pings == f.pings[i + 1..] && g.acked == Max(f.acked, f.pings[i].atBytes) && g.nextSeq == f.nextSeq
  {
  }

  lemma SamePlace(w: World, w': World, p: Ping)
    requires Placed(w, p) && w'.link == w.link && w'.consumed == w.consumed && w'.reached == w.reached
    ensures Placed(w', p)
  {
  }

  lemma Ticked(w: World, now: nat, w': World)
    requires Sound(w) && w' == w.(flow := Expired(w.flow, now))
    ensures Sound(w')
  {
    hide Placed, Expired;
    ExpiredKeeps(w.flow, now);
    var rest := w'.flow.pings;
    forall k | 0 <= k < |rest| ensures Placed(w', rest[k]) {
      assert rest[k] == w.flow.pings[|w.flow.pings| - |rest| + k];
      SamePlace(w, w', rest[k]);
    }
  }

  lemma Measured(w: World, w': World)
    requires Sound(w) && w' == w.(flow := w.flow.(measured := true))
    ensures Sound(w')
  {
    hide Placed;
    forall k | 0 <= k < |w.flow.pings| ensures Placed(w', w.flow.pings[k]) {
      SamePlace(w, w', w.flow.pings[k]);
    }
  }

  lemma UpdateSent(w: World, n: nat, now: nat, w': World)
    requires Sound(w) && Next(w, Update(n, now), w')
    ensures Sound(w')
  {
    hide Sound, PingDue;
    var mid := w.(flow := Wrote(w.flow, n), link := w.link + [Chunk(n)]);
    ChunkAdded(w, n, mid);
    if PingDue(mid.flow, now) {
      assert w.link + [Chunk(n), Fence(mid.flow.nextSeq)] == mid.link + [Fence(mid.flow.nextSeq)];
      FenceAdded(mid, now, w');
    }
  }

  lemma StepKeeps(w: World, s: Step, w': World)
    requires Sound(w) && Next(w, s, w')
    ensures Sound(w')
  {
    hide Sound;
    match s
    case Measure => Measured(w, w');
    case Control(n) => ChunkAdded(w, n, w');
    case Update(n, now) => UpdateSent(w, n, now, w');
    case Consume(n) => Consumed(w, n, w');
    case Reach => Reached(w, w');
    case Echo(q, now) => Echoed(w, q, now, w');
    case Tick(now) => Ticked(w, now, w');
  }

  ghost predicate Run(ws: seq<World>, steps: seq<Step>, initial: nat, growth: nat) {
    && |ws| == |steps| + 1 && ws[0] == World(Fresh(initial, growth), [], 0, {})
    && forall i :: 0 <= i < |steps| ==> Next(ws[i], steps[i], ws[i + 1])
  }

  lemma {:induction false} RunKeeps(ws: seq<World>, steps: seq<Step>, initial: nat, growth: nat, i: nat)
    requires Run(ws, steps, initial, growth) && i < |ws|
    ensures Sound(ws[i])
  {
    if i == 0 {
      FreshValid(initial, growth);
    } else {
      RunKeeps(ws, steps, initial, growth, i - 1);
      StepKeeps(ws[i - 1], steps[i - 1], ws[i]);
    }
  }

  /** In every run over a link that keeps order, with a client that echoes only
      fences it has reached: what is acknowledged the client has been through, so
      what is on the link is never more than what is counted in flight, and right
      after an update of a measured session that is at most the window and the update. */
  lemma NeverAhead(ws: seq<World>, steps: seq<Step>, initial: nat, growth: nat, i: nat)
    requires Run(ws, steps, initial, growth) && i < |ws|
    ensures ws[i].flow.Valid() && ws[i].flow.acked <= ws[i].consumed <= ws[i].flow.written
    ensures Bytes(ws[i].link) <= ws[i].flow.InFlight()
    ensures i > 0 && steps[i - 1].Update? && ws[i - 1].flow.measured ==>
      Bytes(ws[i].link) <= ws[i - 1].flow.window + steps[i - 1].bytes
  {
    RunKeeps(ws, steps, initial, growth, i);
    if i > 0 {
      RunKeeps(ws, steps, initial, growth, i - 1);
      assert Next(ws[i - 1], steps[i - 1], ws[i]);
    }
  }

  // ---- Where the window ends up ----

  /** This step is an echo that answers an open round trip, and by how much that
      round trip was longer than the shortest known. */
  ghost predicate Answers(w: World, s: Step) {
    s.Echo? && Position(w.flow.pings, s.seq_) < |w.flow.pings|
  }

  ghost function Over(w: World, s: Step): int
    requires Answers(w, s)
  {
    var sample := Since(s.now, w.flow.pings[Position(w.flow.pings, s.seq_)].at);
    sample - Shortest(w.flow, sample, s.now)
  }

  ghost function AnswersIn(ws: seq<World>, steps: seq<Step>, i: nat, j: nat): nat
    requires i <= j <= |steps| && |ws| == |steps| + 1
    decreases j - i
  {
    if i == j then 0 else AnswersIn(ws, steps, i, j - 1) + if Answers(ws[j - 1], steps[j - 1]) then 1 else 0
  }

  ghost predicate AllClear(ws: seq<World>, steps: seq<Step>, i: nat, j: nat)
    requires i <= j <= |steps| && |ws| == |steps| + 1
  {
    forall k :: i <= k < j && Answers(ws[k], steps[k]) ==> Over(ws[k], steps[k]) < 25_000_000
  }

  ghost predicate AllQueued(ws: seq<World>, steps: seq<Step>, i: nat, j: nat)
    requires i <= j <= |steps| && |ws| == |steps| + 1
  {
    forall k :: i <= k < j && Answers(ws[k], steps[k]) ==> Over(ws[k], steps[k]) > 100_000_000
  }

  lemma StepMoves(w: World, s: Step, w': World)
    requires Sound(w) && Next(w, s, w')
    ensures w'.flow.growth == w.flow.growth
    ensures !Answers(w, s) ==> w'.flow.window == w.flow.window
    ensures Answers(w, s) && Over(w, s) < 25_000_000 ==> w'.flow.window == Min(w.flow.window + w.flow.growth, 4194304)
    ensures Answers(w, s) && Over(w, s) > 100_000_000 ==> w'.flow.window == Max(w.flow.window / 2, 16384)
  {
    hide Position;
    match s
    case Echo(q, now) =>
      if Answers(w, s) {
        PongMoves(w.flow, q, now);
      }
    case Tick(now) => ExpiredCut(w.flow, now);
    case _ =>
  }

  lemma {:induction false} GrowthStays(ws: seq<World>, steps: seq<Step>, initial: nat, growth: nat, i: nat)
    requires Run(ws, steps, initial, growth) && i < |ws|
    ensures ws[i].flow.growth == growth
  {
    hide Next, Sound;
    if i > 0 {
      GrowthStays(ws, steps, initial, growth, i - 1);
      RunKeeps(ws, steps, initial, growth, i - 1);
      StepMoves(ws[i - 1], steps[i - 1], ws[i]);
    }
  }

  /** Along any run whose answers are all clear, whatever else happens in between, the
      window opens by the growth at each of them until it reaches 4 MiB. */
  lemma {:induction false} ClearRunOpens(ws: seq<World>, steps: seq<Step>, initial: nat, growth: nat, i: nat, j: nat)
    requires Run(ws, steps, initial, growth) && i <= j < |ws|
    requires AllClear(ws, steps, i, j)
    ensures ws[j].flow.growth == growth
    ensures ws[j].flow.window == Min(ws[i].flow.window + AnswersIn(ws, steps, i, j) * growth, 4194304)
    decreases j - i
  {
    hide Answers, Over, Next, Sound;
    RunKeeps(ws, steps, initial, growth, j);
    if i == j {
      SoundLimits(ws[i]);
      GrowthStays(ws, steps, initial, growth, i);
    } else {
      ClearRunOpens(ws, steps, initial, growth, i, j - 1);
      RunKeeps(ws, steps, initial, growth, j - 1);
      StepMoves(ws[j - 1], steps[j - 1], ws[j]);
      OneMore(AnswersIn(ws, steps, i, j - 1), growth);
    }
  }

  lemma OneMore(n: nat, growth: nat)
    ensures (n + 1) * growth == n * growth + growth && n * growth >= 0
  {
  }

  lemma SoundLimits(w: World)
    requires Sound(w)
    ensures 16384 <= w.flow.window <= 4194304
  {
  }

  /** The number of halvings between a window and the floor. */
  function Halved(window: nat, times: nat): nat {
    if times == 0 then window else Max(Halved(window, times - 1) / 2, 16384)
  }

  /** Along any run whose answers all show a queue the window halves at each of them. */
  lemma {:induction false} QueuedRunShuts(ws: seq<World>, steps: seq<Step>, initial: nat, growth: nat, i: nat, j: nat)
    requires Run(ws, steps, initial, growth) && i <= j < |ws|
    requires AllQueued(ws, steps, i, j)
    ensures ws[j].flow.window == Halved(ws[i].flow.window, AnswersIn(ws, steps, i, j))
    decreases j - i
  {
    hide Answers, Over, Next, Sound;
    if i < j {
      QueuedRunShuts(ws, steps, initial, growth, i, j - 1);
      RunKeeps(ws, steps, initial, growth, j - 1);
      StepMoves(ws[j - 1], steps[j - 1], ws[j]);
    }
  }

  /** Eight halvings take any window there is to the floor, and it stays there. */
  lemma {:induction false} EightShut(window: nat, times: nat)
    requires 16384 <= window <= 4194304 && times >= 8
    ensures Halved(window, times) == 16384
  {
    if times == 8 {
      assert Halved(window, 1) <= 2097152 && Halved(window, 2) <= 1048576 && Halved(window, 3) <= 524288;
      assert Halved(window, 4) <= 262144 && Halved(window, 5) <= 131072 && Halved(window, 6) <= 65536;
      assert Halved(window, 7) <= 32768;
    } else {
      EightShut(window, times - 1);
    }
  }

  /** So a path that stays clear opens the window all the way, if it grows at all, and
      a queue that lasts eight answers shuts it all the way. */
  lemma WindowEndsUp(ws: seq<World>, steps: seq<Step>, initial: nat, growth: nat, i: nat, j: nat)
    requires Run(ws, steps, initial, growth) && i <= j < |ws|
    ensures AllClear(ws, steps, i, j) && AnswersIn(ws, steps, i, j) * growth >= 4194304 - 16384 ==> ws[j].flow.window == 4194304
    ensures AllQueued(ws, steps, i, j) && AnswersIn(ws, steps, i, j) >= 8 ==> ws[j].flow.window == 16384
  {
    hide AllClear, AllQueued, Next, Sound, Halved, AnswersIn;
    RunKeeps(ws, steps, initial, growth, i);
    SoundLimits(ws[i]);
    if AllClear(ws, steps, i, j) {
      ClearRunOpens(ws, steps, initial, growth, i, j);
    }
    if AllQueued(ws, steps, i, j) {
      QueuedRunShuts(ws, steps, initial, growth, i, j);
      if AnswersIn(ws, steps, i, j) >= 8 {
        EightShut(ws[i].flow.window, AnswersIn(ws, steps, i, j));
      }
    }
  }
}
