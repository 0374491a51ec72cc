/** Words as numbers: shifts as products, masks as remainders, and bytes in either order. */
module Bits {
  import opened Arithmetic

  type byte = b: int | 0 <= b < 256

  function Pow2(n: nat): (p: nat)
    ensures p > 0
  {
    if n == 0 then 1 else 2 * Pow2(n - 1)
  }

  lemma {:induction false} Pow2Add(m: nat, n: nat)
    ensures Pow2(m + n) == Pow2(m) * Pow2(n)
  {
    if m > 0 {
      Pow2Add(m - 1, n);
      assert Pow2(m + n) == 2 * (Pow2(m - 1) * Pow2(n));
    }
  }

  lemma Pow2Order(m: nat, n: nat)
    requires m <= n
    ensures Pow2(m) <= Pow2(n)
  {
    Pow2Add(m, n - m);
    MulOrder(1, Pow2(n - m), Pow2(m));
  }

  /** Bitwise or of two non-negative numbers. */
  function Or(a: nat, b: nat): nat {
    if a == 0 then b
    else if b == 0 then a
    else 2 * Or(a / 2, b / 2) + (if a % 2 == 1 || b % 2 == 1 then 1 else 0)
  }

  /** Bitwise and of two non-negative numbers. */
  function And(a: nat, b: nat): nat {
    if a == 0 || b == 0 then 0
    else 2 * And(a / 2, b / 2) + (if a % 2 == 1 && b % 2 == 1 then 1 else 0)
  }

  function ShiftLeft(v: nat, s: nat): nat { v * Pow2(s) }

  function ShiftRight(v: nat, s: nat): nat {
    DivAtLeast(v, Pow2(s), 0);
    v / Pow2(s)
  }

  // ---- Dividing by powers of two ----

  lemma HalfThenShift(v: nat, s: nat)
    ensures v / 2 / Pow2(s) == v / Pow2(s + 1)
  {
    var p, q := Pow2(s), v / Pow2(s + 1);
    assert Pow2(s + 1) == 2 * p;
    DivBounds(v, 2 * p);
    assert q * (2 * p) == 2 * (q * p) && (q + 1) * (2 * p) == 2 * ((q + 1) * p);
    DivUnique(v / 2, p, q);
  }

  lemma HalfThenMask(v: nat, k: nat)
    ensures v % Pow2(k + 1) == 2 * (v / 2 % Pow2(k)) + v % 2
  {
    var p := Pow2(k);
    HalfThenShift(v, k);
    DivMod(v, 2 * p);
    DivMod(v / 2, p);
    var q := v / (2 * p);
    assert q * (2 * p) == 2 * (q * p);
  }

  lemma {:induction false} OrShift(a: nat, b: nat, s: nat)
    ensures ShiftRight(Or(a, b), s) == Or(ShiftRight(a, s), ShiftRight(b, s))
  {
    if s > 0 {
      OrHalf(a, b);
      OrShift(a / 2, b / 2, s - 1);
      HalfThenShift(Or(a, b), s - 1);
      HalfThenShift(a, s - 1);
      HalfThenShift(b, s - 1);
    }
  }

  lemma OrHalf(a: nat, b: nat)
    ensures Or(a, b) / 2 == Or(a / 2, b / 2)
    ensures Or(a, b) % 2 == if a % 2 == 1 || b % 2 == 1 then 1 else 0
  {
  }

  /** The k low bits. */
  function Low(v: nat, k: nat): nat { v % Pow2(k) }

  lemma LowBits(v: nat, k: nat)
    ensures Low(v, 0) == 0 && Low(v, k + 1) == 2 * Low(v / 2, k) + v % 2
  {
    HalfThenMask(v, k);
  }

  lemma {:induction false} OrMask(a: nat, b: nat, k: nat)
    ensures Low(Or(a, b), k) == Or(Low(a, k), Low(b, k))
  {
    hide Low, Or;
    if k == 0 {
      LowBits(a, 0);
      LowBits(b, 0);
      LowBits(Or(a, b), 0);
      OrWithNothing(0);
    } else {
      OrMask(a / 2, b / 2, k - 1);
      LowOfOr(a, b, k - 1);
      LowBits(a, k - 1);
      LowBits(b, k - 1);
      OrDouble(Low(a / 2, k - 1), a % 2, Low(b / 2, k - 1), b % 2);
    }
  }

  lemma LowOfOr(a: nat, b: nat, k: nat)
    ensures Low(Or(a, b), k + 1) == 2 * Low(Or(a / 2, b / 2), k) + (if a % 2 == 1 || b % 2 == 1 then 1 else 0)
  {
    hide Low, Or;
    OrHalf(a, b);
    LowBits(Or(a, b), k);
  }

  lemma OrDouble(x: nat, p: nat, y: nat, q: nat)
    requires p < 2 && q < 2
    ensures Or(2 * x + p, 2 * y + q) == 2 * Or(x, y) + (if p == 1 || q == 1 then 1 else 0)
  {
    OrHalf(2 * x + p, 2 * y + q);
  }

  /** Where two numbers share no bits, or is plus. */
  lemma {:induction false} OrIsSum(x: nat, low: nat, k: nat)
    requires low < Pow2(k)
    ensures Or(ShiftLeft(x, k), low) == ShiftLeft(x, k) + low
  {
    hide Or, Pow2, ShiftLeft;
    if k == 0 {
      Pow2Zero();
      OrWithNothing(ShiftLeft(x, k));
    } else {
      Pow2Double(k);
      ShiftDouble(x, k);
      OrIsSum(x, low / 2, k - 1);
      OrDouble(ShiftLeft(x, k - 1), 0, low / 2, low % 2);
    }
  }

  lemma OrWithNothing(a: nat)
    ensures Or(a, 0) == a
  {
  }

  lemma ShiftDouble(x: nat, k: nat)
    requires k > 0
    ensures ShiftLeft(x, k) == 2 * ShiftLeft(x, k - 1)
  {
    hide Pow2;
    Pow2Double(k);
  }

  /** Two shifts are one. */
  lemma ShiftTwice(v: nat, s: nat, t: nat)
    ensures ShiftRight(ShiftRight(v, s), t) == ShiftRight(v, s + t)
  {
    Pow2Add(s, t);
    hide Pow2;
    DivDiv(v, Pow2(s), Pow2(t));
  }

  /** Masking with 2^k - 1 keeps the low k bits. */
  lemma {:induction false} AndMask(v: nat, k: nat)
    ensures And(v, Pow2(k) - 1) == v % Pow2(k)
  {
    if k > 0 {
      var p := Pow2(k - 1);
      assert (2 * p - 1) / 2 == p - 1 && (2 * p - 1) % 2 == 1;
      AndMask(v / 2, k - 1);
      HalfThenMask(v, k - 1);
      if v == 0 {
        DivUnique(0, Pow2(k), 0);
        DivMod(0, Pow2(k));
      }
    }
  }

  // ---- Fields of a word ----

  /** The k bits from bit s up. */
  function Field(v: nat, s: nat, k: nat): nat { ShiftRight(v, s) % Pow2(k) }

  lemma OrField(a: nat, b: nat, s: nat, k: nat)
    ensures Field(Or(a, b), s, k) == Or(Field(a, s, k), Field(b, s, k))
  {
    OrShift(a, b, s);
    OrMask(ShiftRight(a, s), ShiftRight(b, s), k);
  }

  /** A field holds what was put there, and nothing of a field beside it. */
  lemma OwnField(x: nat, s: nat, k: nat)
    requires x < Pow2(k)
    ensures Field(ShiftLeft(x, s), s, k) == x
  {
    DivUnique(x * Pow2(s), Pow2(s), x);
    DivUnique(x, Pow2(k), 0);
    DivMod(x, Pow2(k));
  }

  lemma OtherField(x: nat, s: nat, k: nat, t: nat, m: nat)
    requires x < Pow2(k) && (s + k <= t || t + m <= s)
    ensures Field(ShiftLeft(x, s), t, m) == 0
  {
    if s + k <= t {
      FieldBelow(x, s, k, t, m);
    } else {
      FieldAbove(x, s, t, m);
    }
  }

  lemma FieldBelow(x: nat, s: nat, k: nat, t: nat, m: nat)
    requires x < Pow2(k) && s + k <= t
    ensures Field(ShiftLeft(x, s), t, m) == 0
  {
    hide Pow2;
    Pow2Add(k, s);
    Pow2Order(s + k, t);
    MulOrder(x + 1, Pow2(k), Pow2(s));
    Distributes(x, Pow2(s));
    DivUnique(x * Pow2(s), Pow2(t), 0);
    DivUnique(0, Pow2(m), 0);
    DivMod(0, Pow2(m));
  }

  lemma FieldAbove(x: nat, s: nat, t: nat, m: nat)
    requires t + m <= s
    ensures Field(ShiftLeft(x, s), t, m) == 0
  {
    hide Pow2;
    var a, b, c := Pow2(s - t - m), Pow2(m), Pow2(t);
    Pow2Add(s - t - m, m);
    Pow2Add(s - t, t);
    Regroup(x, a, b, c);
    Distributes(x * a * b, c);
    DivUnique(((x * a) * b) * c, c, (x * a) * b);
    Distributes(x * a, b);
    DivUnique((x * a) * b, b, x * a);
    DivMod((x * a) * b, b);
  }

  lemma Regroup(x: int, a: int, b: int, c: int)
    ensures x * ((a * b) * c) == ((x * a) * b) * c
  {
  }

  // ---- Bytes ----

  /** The n low bytes of a word, low byte first. */
  function LeBytes(v: nat, n: nat): (bs: seq<byte>)
    ensures |bs| == n
  {
    if n == 0 then [] else [v % 256] + LeBytes(v / 256, n - 1)
  }

  function LeWord(bs: seq<byte>): (v: nat)
    ensures v < Pow2(8 * |bs|)
  {
    if bs == [] then 0
    else
      Pow2Add(8, 8 * |bs| - 8);
      assert Pow2(8) == 256;
      bs[0] + 256 * LeWord(bs[1..])
  }

  /** A word of n bytes is its bytes. */
  lemma {:induction false} WordBytes(v: nat, n: nat)
    ensures LeWord(LeBytes(v, n)) == v % Pow2(8 * n)
  {
    if n == 0 {
      assert v % 1 == 0;
    } else {
      WordBytes(v / 256, n - 1);
      assert LeBytes(v, n)[1..] == LeBytes(v / 256, n - 1);
      ByteSplit(v, Pow2(8 * n - 8));
      Pow2Add(8, 8 * n - 8);
      assert Pow2(8) == 256;
    }
  }

  lemma Pow2Zero()
    ensures Pow2(0) == 1
  {
  }

  lemma Pow2Eight()
    ensures Pow2(8) == 256
  {
  }

  lemma Pow2Double(k: nat)
    requires k > 0
    ensures Pow2(k) == 2 * Pow2(k - 1)
  {
  }

  lemma ByteSplit(v: nat, p: nat)
    requires p > 0
    ensures v % (256 * p) == v % 256 + 256 * (v / 256 % p)
  {
    var q := v / 256 / p;
    DivMod(v, 256);
    DivMod(v / 256, p);
    var low := v % 256 + 256 * (v / 256 % p);
    assert v == q * (256 * p) + low by {
      assert 256 * (q * p) == q * (256 * p);
    }
    assert 0 <= low < 256 * p;
    assert (q + 1) * (256 * p) == q * (256 * p) + 256 * p;
    DivUnique(v, 256 * p, q);
    DivMod(v, 256 * p);
  }

  lemma LowByte(b: byte, w: nat)
    ensures (b + 256 * w) % 256 == b && (b + 256 * w) / 256 == w
  {
  }

  /** Bytes are the bytes of their word. */
  lemma {:induction false} BytesWord(bs: seq<byte>)
    ensures LeBytes(LeWord(bs), |bs|) == bs
  {
    if bs != [] {
      BytesWord(bs[1..]);
      LowByte(bs[0], LeWord(bs[1..]));
      assert bs == [bs[0]] + bs[1..];
    }
  }

  lemma FourBytes(v: nat)
    ensures LeBytes(v, 4) == [v % 256, v / 256 % 256, v / 256 / 256 % 256, v / 256 / 256 / 256 % 256]
  {
    var a, b, c := v / 256, v / 256 / 256, v / 256 / 256 / 256;
    assert LeBytes(c, 1) == [c % 256];
    assert LeBytes(b, 2) == [b % 256, c % 256];
    assert LeBytes(a, 3) == [a % 256, b % 256, c % 256];
  }

  lemma FewBytes(v: nat)
    ensures LeBytes(v, 1) == [v % 256] && LeBytes(v, 2) == [v % 256, v / 256 % 256]
  {
    assert LeBytes(v / 256, 1) == [v / 256 % 256];
  }

  /** A part of the second of two stretches, found in both together. */
  lemma PartAfter(a: seq<byte>, b: seq<byte>, at: nat, n: nat, place: nat)
    requires at + n <= |b| && place == at + |a|
    ensures place + n <= |a + b| && (a + b)[place..place + n] == b[at..at + n]
  {
  }

  function Reverse(bs: seq<byte>): (r: seq<byte>)
    ensures |r| == |bs| && forall i :: 0 <= i < |bs| ==> r[i] == bs[|bs| - 1 - i]
  {
    seq(|bs|, i requires 0 <= i < |bs| => bs[|bs| - 1 - i])
  }

  lemma ReverseTwice(bs: seq<byte>)
    ensures Reverse(Reverse(bs)) == bs
  {
  }

  /** The n low bytes of a word, high byte first. */
  function BeBytes(v: nat, n: nat): (bs: seq<byte>)
    ensures |bs| == n
  {
    Reverse(LeBytes(v, n))
  }

  /** The number three bytes make, the highest given first. */
  function ThreeBytes(high: nat, middle: nat, low: nat): nat { 65536 * high + 256 * middle + low }

  function BeWord(bs: seq<byte>): (v: nat)
    ensures v < Pow2(8 * |bs|)
  {
    LeWord(Reverse(bs))
  }

  lemma BeReadBack(v: nat, n: nat)
    ensures BeWord(BeBytes(v, n)) == v % Pow2(8 * n)
  {
    hide LeWord, LeBytes, Reverse, Pow2;
    ReverseTwice(LeBytes(v, n));
    WordBytes(v, n);
  }
}
