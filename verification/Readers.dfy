/** Reading bytes that may not all have arrived yet. */
module Readers {
  import opened Bits

  /** What a reader makes of the bytes it is given: a value and what is left
      over, a wish for more bytes, or a refusal. */
  datatype Read<+T> = Got(value: T, rest: seq<byte>) | Truncated(more: nat) | Malformed
  {
    predicate IsFailure() { !Got? }

    function PropagateFailure<U>(): Read<U>
      requires IsFailure()
    {
      if Truncated? then Truncated(more) else Malformed
    }

    function Extract(): Read<T>
      requires !IsFailure()
    {
      this
    }
  }

  /** What is left over is no longer than what there was. */
  predicate Within<T>(r: Read<T>, s: seq<byte>) { r.Got? ==> |r.rest| <= |s| }

  function Byte(s: seq<byte>): (r: Read<byte>)
    ensures Within(r, s)
  {
    if s == [] then Truncated(1) else Got(s[0], s[1..])
  }

  function Take(s: seq<byte>, n: nat): (r: Read<seq<byte>>)
    ensures Within(r, s) && (r.Got? ==> |r.value| == n)
  {
    if |s| < n then Truncated(n - |s|) else Got(s[..n], s[n..])
  }

  // ---- Success and refusal are final; a wish is never for too much ----

  /** How a result may change when more bytes arrive: a value or a refusal
      stands, and a wish was for at least one byte and for none that a success leaves over. */
  ghost predicate Grows<T>(r: Read<T>, later: Read<T>, more: seq<byte>) {
    match r
    case Got(v, rest) => later == Got(v, rest + more)
    case Malformed => later == Malformed
    case Truncated(k) => k > 0 && (later.Got? ==> k + |later.rest| <= |more|)
  }

  lemma ByteGrows(s: seq<byte>, more: seq<byte>)
    ensures Grows(Byte(s), Byte(s + more), more)
  {
    if s != [] {
      assert (s + more)[1..] == s[1..] + more;
    }
  }

  lemma TakeGrows(s: seq<byte>, more: seq<byte>, n: nat)
    ensures Grows(Take(s, n), Take(s + more, n), more)
  {
    if n <= |s| {
      assert (s + more)[..n] == s[..n] && (s + more)[n..] == s[n..] + more;
    }
  }

  /** Any proper prefix of what a growing reader would use makes it ask for
      more, and for no more than what is missing. */
  lemma PrefixAsks<T>(s: seq<byte>, n: nat, r: Read<T>, part: Read<T>)
    requires r.Got? && n < |s| - |r.rest| && Within(part, s[..n])
    requires Grows(part, r, s[n..])
    ensures part.Truncated? && 1 <= part.more <= |s| - |r.rest| - n
  {
  }

  lemma Split(s: seq<byte>, n: nat)
    requires n <= |s|
    ensures s[..n] + s[n..] == s
  {
  }

  lemma HeadThen(head: byte, body: seq<byte>, rest: seq<byte>)
    ensures Byte([head] + body + rest) == Got(head, body + rest)
  {
    assert ([head] + body + rest)[1..] == body + rest;
  }

  lemma TakeExact(bs: seq<byte>, rest: seq<byte>)
    ensures Take(bs + rest, |bs|) == Got(bs, rest)
  {
    assert (bs + rest)[..|bs|] == bs && (bs + rest)[|bs|..] == rest;
  }

  // ---- A list read piece by piece ----

  /** Values already read, before what a reader makes of the rest. */
  function Prepend<T>(vs: seq<T>, r: Read<seq<T>>): Read<seq<T>> {
    match r
    case Got(more, rest) => Got(vs + more, rest)
    case Truncated(k) => Truncated(k)
    case Malformed => Malformed
  }

  lemma PrependNone<T>(r: Read<seq<T>>)
    ensures Prepend([], r) == r
  {
    if r.Got? {
      assert [] + r.value == r.value;
    }
  }

  lemma PrependMore<T>(vs: seq<T>, ws: seq<T>, r: Read<seq<T>>)
    ensures Prepend(vs, Prepend(ws, r)) == Prepend(vs + ws, r)
  {
    if r.Got? {
      assert vs + (ws + r.value) == (vs + ws) + r.value;
    }
  }

  // ---- The cursor over a payload ----

  datatype Result<+T> = Ok(value: T) | Err(error: Error)

  datatype Error = Short(more: nat) | Bad

  /** A reader's answer, as the cursor gives it. */
  function ResultOf<T>(r: Read<T>): Result<T> {
    match r
    case Got(v, _) => Ok(v)
    case Truncated(k) => Err(Short(k))
    case Malformed => Err(Bad)
  }

  class Reader {
    const data: seq<byte>
    var at: nat

    ghost predicate Valid()
      reads this
    {
      at <= |data|
    }

    /** What has not been read. */
    function Rest(): seq<byte>
      requires Valid()
      reads this
    {
      data[at..]
    }

    constructor (payload: seq<byte>)
      ensures Valid() && data == payload && at == 0 && Rest() == payload
    {
      data, at := payload, 0;
    }

    method NextByte() returns (r: Result<byte>)
      requires Valid()
      modifies this
      ensures Valid() && r == ResultOf(Byte(old(Rest())))
      ensures Rest() == if r.Ok? then Byte(old(Rest())).rest else old(Rest())
    {
      if at < |data| {
        r := Ok(data[at]);
        at := at + 1;
      } else {
        r := Err(Short(1));
      }
    }

    method NextBytes(n: nat) returns (r: Result<seq<byte>>)
      requires Valid()
      modifies this
      ensures Valid() && r == ResultOf(Take(old(Rest()), n))
      ensures Rest() == if r.Ok? then Take(old(Rest()), n).rest else old(Rest())
    {
      var end := at + n;
      if end <= |data| {
        r := Ok(data[at..end]);
        assert data[at..][..n] == data[at..end];
        assert data[at..][n..] == data[end..];
        at := end;
      } else {
        r := Err(Short(end - |data|));
      }
    }
  }
}
