/** Where each field of a client's message stands, counted from its first byte
    (section 7.5 of RFC 6143 and the extensions). Numbers come high byte first. */
module MessageWire {
  import opened Arithmetic
  import opened Bits
  import opened Readers
  import opened PixelFormats
  import opened ClientMessages

  function Two(s: seq<byte>, at: nat): u16
    requires at + 2 <= |s|
  {
    Be16(s[at], s[at + 1])
  }

  function Four(s: seq<byte>, at: nat): u32
    requires at + 4 <= |s|
  {
    16777216 * s[at] + ThreeBytes(s[at + 1], s[at + 2], s[at + 3])
  }

  /** The same four bytes as a signed number. */
  function SignedFour(s: seq<byte>, at: nat): i32
    requires at + 4 <= |s|
  {
    if Four(s, at) < 2147483648 then Four(s, at) else Four(s, at) - 4294967296
  }

  function FourTwos(s: seq<byte>, at: nat): Area
    requires at + 8 <= |s|
  {
    Area(Two(s, at), Two(s, at + 2), Two(s, at + 4), Two(s, at + 6))
  }

  lemma WordIsFour(s: seq<byte>, at: nat, bs: seq<byte>)
    requires at + 4 <= |s| && bs == s[at..at + 4]
    ensures Word32(bs) == Four(s, at)
  {
    var r := Reverse(bs);
    assert r[1..][1..][1..] == [r[3]] && r[1..][1..] == [r[2], r[3]] && r[1..] == [r[1], r[2], r[3]];
    assert LeWord([r[3]]) == r[3];
    assert LeWord([r[2], r[3]]) == ThreeBytes(0, r[3], r[2]);
    assert LeWord([r[1], r[2], r[3]]) == ThreeBytes(r[3], r[2], r[1]);
  }

  /** Types 0, 3, 4, 5 and 150, and the types nobody sends. Padding is skipped, whatever it
      holds, and a flag is set by anything but zero. */
  lemma FixedWire(s: seq<byte>)
    requires s != []
    ensures s[0] == 0 && |s| >= 20 ==> ParseClient(s) == Got(Message(SetPixelFormat(ParseFormat(s[4..20]))), s[20..])
    ensures s[0] == 3 && |s| >= 10 ==> ParseClient(s) == Got(Message(UpdateRequest(s[1] != 0, FourTwos(s, 2))), s[10..])
    ensures s[0] == 4 && |s| >= 8 ==> ParseClient(s) == Got(Message(KeyEvent(s[1] != 0, Four(s, 4))), s[8..])
    ensures s[0] == 5 && |s| >= 6 ==> ParseClient(s) == Got(Message(PointerEvent(s[1], Two(s, 2), Two(s, 4))), s[6..])
    ensures s[0] == 150 && |s| >= 10 ==> ParseClient(s) == Got(Message(EnableContinuousUpdates(s[1] != 0, FourTwos(s, 2))), s[10..])
    ensures s[0] !in {0, 2, 3, 4, 5, 6, 150, 248, 251, 255} ==> ParseClient(s) == Got(Refused(UnknownType(s[0])), s[1..])
  {
    hide Word32, Be16, ParseFormat;
    if s[0] == 4 && |s| >= 8 {
      WordIsFour(s, 4, s[1..][..7][3..7]);
    }
    assert s[0] == 0 && |s| >= 20 ==> s[1..][..19][3..] == s[4..20];
    assert s[1..][0..] == s[1..];
  }

  /** Type 2: a count of at most 1024, and as many signed numbers. */
  lemma EncodingsWire(s: seq<byte>)
    requires |s| >= 4 && s[0] == 2
    ensures var n := Two(s, 2);
            && (n > 1024 ==> ParseClient(s) == Got(Refused(TooLong(n, 1024)), s[4..]))
            && (n <= 1024 && |s| >= 4 + 4 * n ==>
                  exists list: seq<i32> :: ParseClient(s) == Got(Message(SetEncodings(list)), s[4 + 4 * n..]) && SignedAt(list, n, s, 4))
  {
    hide EncodingsOf, Be16, Word32;
    var n := Two(s, 2);
    if n <= 1024 && |s| >= 4 + 4 * n {
      var raw := s[4..][..4 * n];
      assert s[1..][3..] == s[4..] && s[4..][4 * n..] == s[4 + 4 * n..];
      EncodingsAt(raw, n, s, 4);
      assert ParseClient(s) == Got(Message(SetEncodings(EncodingsOf(raw, n))), s[4 + 4 * n..]);
    }
  }

  /** So many signed numbers, from there on. */
  ghost predicate SignedAt(list: seq<i32>, n: nat, s: seq<byte>, at: nat)
    requires at + 4 * n <= |s|
  {
    |list| == n && forall i :: 0 <= i < n ==> list[i] == SignedFour(s, at + 4 * i)
  }

  lemma {:induction false} EncodingsAt(bs: seq<byte>, n: nat, s: seq<byte>, at: nat)
    requires |bs| == 4 * n && at + 4 * n <= |s| && bs == s[at..at + 4 * n]
    ensures SignedAt(EncodingsOf(bs, n), n, s, at)
    decreases n
  {
    hide Word32, Four;
    if n > 0 {
      WordIsFour(s, at, bs[..4]);
      assert bs[4..] == s[at + 4..at + 4 * n];
      EncodingsAt(bs[4..], n - 1, s, at + 4);
      var rest := EncodingsOf(bs[4..], n - 1);
      forall i | 0 <= i < n ensures EncodingsOf(bs, n)[i] == SignedFour(s, at + 4 * i) {
        assert i > 0 ==> rest[i - 1] == SignedFour(s, at + 4 + 4 * (i - 1));
      }
    }
  }

  /** Type 6: a signed length. That many bytes of text, or where it is negative that many of an
      extended clipboard; more than a mebibyte is refused. */
  lemma CutTextWire(s: seq<byte>)
    requires |s| >= 8 && s[0] == 6
    ensures var len := SignedFour(s, 4);
            var n := if len < 0 then -(len as int) else len as int;
            && (n > 1048576 ==> ParseClient(s) == Got(Refused(TooLong(n, 1048576)), s[8..]))
            && (n <= 1048576 && |s| >= 8 + n ==>
                  (ParseClient(s) == Got(Message(if len < 0 then ExtendedClipboard(s[8..8 + n]) else CutText(s[8..8 + n])), s[8 + n..])))
  {
    hide Word32, Four;
    WordIsFour(s, 4, s[1..][..7][3..7]);
    assert s[1..][7..] == s[8..];
    var len := SignedFour(s, 4);
    var n := if len < 0 then -(len as int) else len as int;
    if n <= 1048576 && |s| >= 8 + n {
      assert s[8..][..n] == s[8..8 + n] && s[8..][n..] == s[8 + n..];
    }
  }

  /** Type 248: flags, a length of at most 64, and a payload. */
  lemma FenceWire(s: seq<byte>)
    requires |s| >= 9 && s[0] == 248
    ensures var n: nat := s[8];
            && (n > 64 ==> ParseClient(s) == Got(Refused(TooLong(n, 64)), s[9..]))
            && (n <= 64 && |s| >= 9 + n ==> ParseClient(s) == Got(Message(ClientFence(Four(s, 4), s[9..9 + n])), s[9 + n..]))
  {
    hide Word32, Four;
    WordIsFour(s, 4, s[1..][..8][3..7]);
    assert s[1..][8..] == s[9..];
    var n: nat := s[8];
    if n <= 64 && |s| >= 9 + n {
      assert s[9..][..n] == s[9..9 + n] && s[9..][n..] == s[9 + n..];
    }
  }

  /** Type 251: the size, a count of at most 16, and that many screens. */
  lemma DesktopSizeWire(s: seq<byte>)
    requires |s| >= 8 && s[0] == 251
    ensures var n: nat := s[6];
            && (n > 16 ==> ParseClient(s) == Got(Refused(TooLong(n, 16)), s[8..]))
            && (n <= 16 && |s| >= 8 + 16 * n ==>
                  exists screens: seq<Screen> ::
                    (ParseClient(s) == Got(Message(SetDesktopSize(Two(s, 2), Two(s, 4), screens)), s[8 + 16 * n..])
                     && ScreensAt(screens, n, s, 8)))
  {
    hide ScreensOf, Be16, Word32;
    var n: nat := s[6];
    assert s[1..][7..] == s[8..];
    if n <= 16 && |s| >= 8 + 16 * n {
      var raw := s[8..][..16 * n];
      assert s[8..][16 * n..] == s[8 + 16 * n..];
      ScreensParsed(raw, n, s, 8);
      assert ParseClient(s) == Got(Message(SetDesktopSize(Two(s, 2), Two(s, 4), ScreensOf(raw, n))), s[8 + 16 * n..]);
    }
  }

  function ScreenAt(s: seq<byte>, at: nat): Screen
    requires at + 16 <= |s|
  {
    Screen(Four(s, at), Two(s, at + 4), Two(s, at + 6), Two(s, at + 8), Two(s, at + 10), Four(s, at + 12))
  }

  ghost predicate ScreensAt(screens: seq<Screen>, n: nat, s: seq<byte>, at: nat)
    requires at + 16 * n <= |s|
  {
    |screens| == n && forall i :: 0 <= i < n ==> screens[i] == ScreenAt(s, at + 16 * i)
  }

  lemma OneScreen(bs: seq<byte>, s: seq<byte>, at: nat)
    requires at + 16 <= |s| && bs == s[at..at + 16]
    ensures ScreenOf(bs) == ScreenAt(s, at)
  {
    hide Word32, Four;
    WordIsFour(s, at, bs[0..4]);
    WordIsFour(s, at + 12, bs[12..16]);
  }

  lemma {:induction false} ScreensParsed(bs: seq<byte>, n: nat, s: seq<byte>, at: nat)
    requires |bs| == 16 * n && at + 16 * n <= |s| && bs == s[at..at + 16 * n]
    ensures ScreensAt(ScreensOf(bs, n), n, s, at)
    decreases n
  {
    hide ScreenOf, ScreenAt;
    if n > 0 {
      OneScreen(bs[..16], s, at);
      assert bs[16..] == s[at + 16..at + 16 * n];
      ScreensParsed(bs[16..], n - 1, s, at + 16);
      var rest := ScreensOf(bs[16..], n - 1);
      forall i | 0 <= i < n ensures ScreensOf(bs, n)[i] == ScreenAt(s, at + 16 * i) {
        assert i > 0 ==> rest[i - 1] == ScreenAt(s, at + 16 + 16 * (i - 1));
      }
    }
  }

  /** Type 255: only its subtype 0 is known, a key with its keysym and its scancode. */
  lemma QemuWire(s: seq<byte>)
    requires |s| >= 2 && s[0] == 255
    ensures s[1] != 0 ==> ParseClient(s) == Got(Refused(UnknownQemu(s[1])), s[2..])
    ensures s[1] == 0 && |s| >= 12 ==> ParseClient(s) == Got(Message(QemuKeyEvent(Two(s, 2) != 0, Four(s, 4), Four(s, 8))), s[12..])
  {
    hide Word32, Four, Be16;
    assert s[1..][1..] == s[2..];
    if s[1] == 0 && |s| >= 12 {
      var bs := s[2..][..10];
      WordIsFour(s, 4, bs[2..6]);
      WordIsFour(s, 8, bs[6..10]);
      assert s[2..][10..] == s[12..];
    }
  }
}
