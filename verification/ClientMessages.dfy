/** The client's messages (section 7.5 of RFC 6143 and the extensions), read
    from whatever bytes have arrived. */
module ClientMessages {
  import opened Arithmetic
  import opened Bits
  import opened Readers
  import opened PixelFormats

  const MAX_CUT_TEXT := 1048576
  const MAX_ENCODINGS := 1024
  const MAX_FENCE_PAYLOAD := 64
  const MAX_SCREENS := 16

  const SET_PIXEL_FORMAT: byte := 0
  const SET_ENCODINGS: byte := 2
  const FRAMEBUFFER_UPDATE_REQUEST: byte := 3
  const KEY_EVENT: byte := 4
  const POINTER_EVENT: byte := 5
  const CLIENT_CUT_TEXT: byte := 6
  const ENABLE_CONTINUOUS_UPDATES: byte := 150
  const CLIENT_FENCE: byte := 248
  const SET_DESKTOP_SIZE: byte := 251
  const QEMU: byte := 255

  const TWO_31 := 2147483648
  const TWO_32 := 4294967296

  type u32 = v: int | 0 <= v < 4294967296

  type i32 = v: int | -2147483648 <= v < 2147483648

  datatype Screen = Screen(id: u32, x: u16, y: u16, width: u16, height: u16, flags: u32)

  datatype Area = Area(x: u16, y: u16, width: u16, height: u16)

  /** Cut text as its Latin-1 bytes; an extended clipboard's body as it came. */
  datatype ClientMessage =
    | SetPixelFormat(pf: PixelFormat)
    | SetEncodings(encodings: seq<i32>)
    | UpdateRequest(incremental: bool, area: Area)
    | KeyEvent(down: bool, keysym: u32)
    | PointerEvent(buttons: byte, x: u16, y: u16)
    | CutText(text: seq<byte>)
    | ExtendedClipboard(body: seq<byte>)
    | EnableContinuousUpdates(enable: bool, over: Area)
    | ClientFence(flags: u32, payload: seq<byte>)
    | SetDesktopSize(width: u16, height: u16, screens: seq<Screen>)
    | QemuKeyEvent(pressed: bool, sym: u32, code: u32)

  datatype Refusal = TooLong(len: nat, limit: nat) | UnknownQemu(subtype: byte) | UnknownType(kind: byte)

  /** A message, or why the session ends. */
  datatype Outcome = Message(m: ClientMessage) | Refused(why: Refusal)

  // ---- Fields ----

  function Word32(bs: seq<byte>): u32
    requires |bs| == 4
  {
    Pow2Thirtytwo();
    BeWord(bs)
  }

  lemma Pow2Thirtytwo()
    ensures Pow2(32) == TWO_32
  {
    assert Pow2(8) == 256;
    Pow2Add(8, 8);
    Pow2Add(16, 16);
  }

  function Signed(v: u32): i32 { if v < TWO_31 then v else v - TWO_32 }

  function Unsigned(v: i32): u32 { if v < 0 then v + TWO_32 else v }

  function AreaOf(bs: seq<byte>): Area
    requires |bs| == 8
  {
    Area(Be16(bs[0], bs[1]), Be16(bs[2], bs[3]), Be16(bs[4], bs[5]), Be16(bs[6], bs[7]))
  }

  function EncodingsOf(bs: seq<byte>, n: nat): (list: seq<i32>)
    requires |bs| == 4 * n
    ensures |list| == n
  {
    if n == 0 then [] else [Signed(Word32(bs[..4]))] + EncodingsOf(bs[4..], n - 1)
  }

  function ScreenOf(bs: seq<byte>): Screen
    requires |bs| == 16
  {
    Screen(Word32(bs[0..4]), Be16(bs[4], bs[5]), Be16(bs[6], bs[7]), Be16(bs[8], bs[9]), Be16(bs[10], bs[11]), Word32(bs[12..16]))
  }

  function ScreensOf(bs: seq<byte>, n: nat): (screens: seq<Screen>)
    requires |bs| == 16 * n
    ensures |screens| == n
  {
    if n == 0 then [] else [ScreenOf(bs[..16])] + ScreensOf(bs[16..], n - 1)
  }

  // ---- Parsing. Fields of fixed size are taken together: nothing is refused between them. ----

  function ParseEncodings(s: seq<byte>): (r: Read<Outcome>)
    ensures Within(r, s)
  {
    var head :- Take(s, 3);
    var n := Be16(head.value[1], head.value[2]);
    if n > MAX_ENCODINGS then Got(Refused(TooLong(n, MAX_ENCODINGS)), head.rest)
    else
      var raw :- Take(head.rest, 4 * n);
      Got(Message(SetEncodings(EncodingsOf(raw.value, n))), raw.rest)
  }

  /** A length below zero means the clipboard extension; its magnitude is the size. */
  function ParseCutText(s: seq<byte>): (r: Read<Outcome>)
    ensures Within(r, s)
  {
    var head :- Take(s, 7);
    var len := Signed(Word32(head.value[3..7]));
    var n: nat := if len < 0 then -(len as int) else len as int;
    if n > MAX_CUT_TEXT then Got(Refused(TooLong(n, MAX_CUT_TEXT)), head.rest)
    else
      var raw :- Take(head.rest, n);
      Got(Message(if len < 0 then ExtendedClipboard(raw.value) else CutText(raw.value)), raw.rest)
  }

  function ParseFence(s: seq<byte>): (r: Read<Outcome>)
    ensures Within(r, s)
  {
    var head :- Take(s, 8);
    var n := head.value[7];
    if n > MAX_FENCE_PAYLOAD then Got(Refused(TooLong(n, MAX_FENCE_PAYLOAD)), head.rest)
    else
      var raw :- Take(head.rest, n);
      Got(Message(ClientFence(Word32(head.value[3..7]), raw.value)), raw.rest)
  }

  function ParseDesktopSize(s: seq<byte>): (r: Read<Outcome>)
    ensures Within(r, s)
  {
    var head :- Take(s, 7);
    var n := head.value[5];
    if n > MAX_SCREENS then Got(Refused(TooLong(n, MAX_SCREENS)), head.rest)
    else
      var raw :- Take(head.rest, 16 * n);
      Got(Message(SetDesktopSize(Be16(head.value[1], head.value[2]), Be16(head.value[3], head.value[4]), ScreensOf(raw.value, n))),
          raw.rest)
  }

  function ParseQemu(s: seq<byte>): (r: Read<Outcome>)
    ensures Within(r, s)
  {
    var sub :- Byte(s);
    if sub.value != 0 then Got(Refused(UnknownQemu(sub.value)), sub.rest)
    else
      var bs :- Take(sub.rest, 10);
      Got(Message(QemuKeyEvent(Be16(bs.value[0], bs.value[1]) != 0, Word32(bs.value[2..6]), Word32(bs.value[6..10]))), bs.rest)
  }

  /** How long the body of a message of fixed size is. */
  function FixedSize(kind: byte): nat {
    if kind == SET_PIXEL_FORMAT then 3 + WIRE_LEN
    else if kind == FRAMEBUFFER_UPDATE_REQUEST || kind == ENABLE_CONTINUOUS_UPDATES then 9
    else if kind == KEY_EVENT then 7
    else if kind == POINTER_EVENT then 5
    else 0
  }

  function FixedMessage(kind: byte, bs: seq<byte>): Outcome
    requires |bs| == FixedSize(kind)
  {
    if kind == SET_PIXEL_FORMAT then Message(SetPixelFormat(ParseFormat(bs[3..])))
    else if kind == FRAMEBUFFER_UPDATE_REQUEST then Message(UpdateRequest(bs[0] != 0, AreaOf(bs[1..])))
    else if kind == ENABLE_CONTINUOUS_UPDATES then Message(EnableContinuousUpdates(bs[0] != 0, AreaOf(bs[1..])))
    else if kind == KEY_EVENT then Message(KeyEvent(bs[0] != 0, Word32(bs[3..7])))
    else if kind == POINTER_EVENT then Message(PointerEvent(bs[0], Be16(bs[1], bs[2]), Be16(bs[3], bs[4])))
    else Refused(UnknownType(kind))
  }

  function ParseFixed(s: seq<byte>, kind: byte): (r: Read<Outcome>)
    ensures Within(r, s)
  {
    var bs :- Take(s, FixedSize(kind));
    Got(FixedMessage(kind, bs.value), bs.rest)
  }

  /** One message from the front of what has arrived. */
  function ParseClient(s: seq<byte>): (r: Read<Outcome>)
    ensures r.Got? ==> |r.rest| < |s|
  {
    var kind :- Byte(s);
    if kind.value == SET_ENCODINGS then ParseEncodings(kind.rest)
    else if kind.value == CLIENT_CUT_TEXT then ParseCutText(kind.rest)
    else if kind.value == CLIENT_FENCE then ParseFence(kind.rest)
    else if kind.value == SET_DESKTOP_SIZE then ParseDesktopSize(kind.rest)
    else if kind.value == QEMU then ParseQemu(kind.rest)
    else ParseFixed(kind.rest, kind.value)
  }

  // ---- What has been read stands, whatever arrives after ----

  lemma HeadAndBody(s: seq<byte>, more: seq<byte>, h: nat, n: nat)
    ensures Grows(Take(s, h), Take(s + more, h), more)
    ensures Take(s, h).Got? ==> Grows(Take(Take(s, h).rest, n), Take(Take(s, h).rest + more, n), more)
  {
    hide Take;
    TakeGrows(s, more, h);
    if Take(s, h).Got? {
      TakeGrows(Take(s, h).rest, more, n);
    }
  }

  lemma EncodingsGrow(s: seq<byte>, more: seq<byte>)
    ensures Grows(ParseEncodings(s), ParseEncodings(s + more), more)
  {
    hide Take, EncodingsOf;
    var head := Take(s, 3);
    HeadAndBody(s, more, 3, if head.Got? then 4 * Be16(head.value[1], head.value[2]) else 0);
  }

  lemma CutTextGrows(s: seq<byte>, more: seq<byte>)
    ensures Grows(ParseCutText(s), ParseCutText(s + more), more)
  {
    hide Take, Word32;
    var head := Take(s, 7);
    var len := if head.Got? then Signed(Word32(head.value[3..7])) else 0;
    HeadAndBody(s, more, 7, if len < 0 then -(len as int) else len as int);
  }

  lemma FenceGrows(s: seq<byte>, more: seq<byte>)
    ensures Grows(ParseFence(s), ParseFence(s + more), more)
  {
    hide Take, Word32;
    var head := Take(s, 8);
    HeadAndBody(s, more, 8, if head.Got? then head.value[7] else 0);
  }

  lemma DesktopSizeGrows(s: seq<byte>, more: seq<byte>)
    ensures Grows(ParseDesktopSize(s), ParseDesktopSize(s + more), more)
  {
    hide Take, ScreensOf;
    var head := Take(s, 7);
    HeadAndBody(s, more, 7, if head.Got? then 16 * (head.value[5] as int) else 0);
  }

  lemma QemuGrows(s: seq<byte>, more: seq<byte>)
    ensures Grows(ParseQemu(s), ParseQemu(s + more), more)
  {
    hide Take, Byte, Word32;
    ByteGrows(s, more);
    if Byte(s).Got? {
      TakeGrows(Byte(s).rest, more, 10);
    }
  }

  lemma FixedGrows(s: seq<byte>, more: seq<byte>, kind: byte)
    ensures Grows(ParseFixed(s, kind), ParseFixed(s + more, kind), more)
  {
    hide Take, FixedMessage, FixedSize;
    TakeGrows(s, more, FixedSize(kind));
  }

  /** A message or a refusal is unchanged by anything appended; a wait is for at
      least one byte, and never for bytes past the message. */
  lemma ParseGrows(s: seq<byte>, more: seq<byte>)
    ensures Grows(ParseClient(s), ParseClient(s + more), more)
  {
    hide Byte, ParseEncodings, ParseCutText, ParseFence, ParseDesktopSize, ParseQemu, ParseFixed;
    ByteGrows(s, more);
    var kind := Byte(s);
    if kind.Got? {
      EncodingsGrow(kind.rest, more);
      CutTextGrows(kind.rest, more);
      FenceGrows(kind.rest, more);
      DesktopSizeGrows(kind.rest, more);
      QemuGrows(kind.rest, more);
      FixedGrows(kind.rest, more, kind.value);
    }
  }

  // ---- Writing ----

  function Bytes32(v: u32): (bs: seq<byte>)
    ensures |bs| == 4
  {
    BeBytes(v, 4)
  }

  function AreaBytes(a: Area): (bs: seq<byte>)
    ensures |bs| == 8
  {
    BeBytes16(a.x) + BeBytes16(a.y) + BeBytes16(a.width) + BeBytes16(a.height)
  }

  function EncodingsBytes(list: seq<i32>): (bs: seq<byte>)
    ensures |bs| == 4 * |list|
  {
    if list == [] then [] else Bytes32(Unsigned(list[0])) + EncodingsBytes(list[1..])
  }

  function ScreenBytes(c: Screen): (bs: seq<byte>)
    ensures |bs| == 16
  {
    Bytes32(c.id) + BeBytes16(c.x) + BeBytes16(c.y) + BeBytes16(c.width) + BeBytes16(c.height) + Bytes32(c.flags)
  }

  function ScreensBytes(screens: seq<Screen>): (bs: seq<byte>)
    ensures |bs| == 16 * |screens|
  {
    if screens == [] then [] else ScreenBytes(screens[0]) + ScreensBytes(screens[1..])
  }

  /** A message as a client writes it, each count cut to the bytes it has. The
      source writes SetDesktopSize only for one screen; the list is the model's own. */
  function Write(m: ClientMessage): seq<byte> {
    match m
    case SetPixelFormat(pf) => [SET_PIXEL_FORMAT] + ([0, 0, 0] + WriteFormat(pf))
    case SetEncodings(list) => [SET_ENCODINGS] + (([0] + BeBytes16(|list| % 65536)) + EncodingsBytes(list))
    case UpdateRequest(incremental, area) => [FRAMEBUFFER_UPDATE_REQUEST] + ([BoolByte(incremental)] + AreaBytes(area))
    case KeyEvent(down, keysym) => [KEY_EVENT] + ([BoolByte(down), 0, 0] + Bytes32(keysym))
    case PointerEvent(buttons, x, y) => [POINTER_EVENT] + ([buttons] + BeBytes16(x) + BeBytes16(y))
    case CutText(text) => [CLIENT_CUT_TEXT] + (([0, 0, 0] + Bytes32(|text| % TWO_32)) + text)
    case ExtendedClipboard(body) => [CLIENT_CUT_TEXT] + (([0, 0, 0] + Bytes32((TWO_32 - |body| % TWO_32) % TWO_32)) + body)
    case EnableContinuousUpdates(enable, over) => [ENABLE_CONTINUOUS_UPDATES] + ([BoolByte(enable)] + AreaBytes(over))
    case ClientFence(flags, payload) => [CLIENT_FENCE] + (([0, 0, 0] + Bytes32(flags) + [|payload| % 256]) + payload)
    case SetDesktopSize(w, h, screens) =>
      [SET_DESKTOP_SIZE] + (([0] + BeBytes16(w) + BeBytes16(h) + [|screens| % 256, 0]) + ScreensBytes(screens))
    case QemuKeyEvent(pressed, sym, code) =>
      [QEMU] + ([0] + (BeBytes16(if pressed then 1 else 0) + Bytes32(sym) + Bytes32(code)))
  }

  /** What the parser takes: lists within its limits, and a clipboard body that is not empty,
      since an empty one's length has no sign. */
  predicate Fits(m: ClientMessage) {
    match m
    case SetEncodings(list) => |list| <= MAX_ENCODINGS
    case CutText(text) => |text| <= MAX_CUT_TEXT
    case ExtendedClipboard(body) => 0 < |body| <= MAX_CUT_TEXT
    case ClientFence(_, payload) => |payload| <= MAX_FENCE_PAYLOAD
    case SetDesktopSize(_, _, screens) => |screens| <= MAX_SCREENS
    case _ => true
  }

  // ---- Written messages read back ----

  lemma Word32Back(v: u32)
    ensures Word32(Bytes32(v)) == v
  {
    hide BeBytes, BeWord, Pow2;
    Pow2Thirtytwo();
    BeReadBack(v, 4);
    SmallMod(v, TWO_32);
  }

  lemma AreaBack(a: Area)
    ensures AreaOf(AreaBytes(a)) == a
  {
  }

  lemma {:induction false} EncodingsBack(list: seq<i32>)
    ensures EncodingsOf(EncodingsBytes(list), |list|) == list
  {
    hide Bytes32, Word32;
    if list != [] {
      Word32Back(Unsigned(list[0]));
      EncodingsBack(list[1..]);
      var bs := EncodingsBytes(list);
      assert bs[..4] == Bytes32(Unsigned(list[0])) && bs[4..] == EncodingsBytes(list[1..]);
    }
  }

  lemma ScreenBack(c: Screen)
    ensures ScreenOf(ScreenBytes(c)) == c
  {
    hide Bytes32, Word32;
    Word32Back(c.id);
    Word32Back(c.flags);
    var bs := ScreenBytes(c);
    assert bs[0..4] == Bytes32(c.id) && bs[12..16] == Bytes32(c.flags);
  }

  lemma {:induction false} ScreensBack(screens: seq<Screen>)
    ensures ScreensOf(ScreensBytes(screens), |screens|) == screens
  {
    hide ScreenBytes, ScreenOf;
    if screens != [] {
      ScreenBack(screens[0]);
      ScreensBack(screens[1..]);
      var bs := ScreensBytes(screens);
      assert bs[..16] == ScreenBytes(screens[0]) && bs[16..] == ScreensBytes(screens[1..]);
    }
  }

  lemma TwoTakes(head: seq<byte>, body: seq<byte>, rest: seq<byte>)
    ensures Take(head + body + rest, |head|) == Got(head, body + rest) && Take(body + rest, |body|) == Got(body, rest)
  {
    assert head + body + rest == head + (body + rest);
    TakeExact(head, body + rest);
    TakeExact(body, rest);
  }

  lemma Word16Back(v: u16)
    ensures |BeBytes16(v)| == 2 && Be16(BeBytes16(v)[0], BeBytes16(v)[1]) == v
  {
  }

  lemma SetEncodingsBack(list: seq<i32>, rest: seq<byte>)
    requires |list| <= MAX_ENCODINGS
    ensures ParseEncodings(([0] + BeBytes16(|list|)) + EncodingsBytes(list) + rest) == Got(Message(SetEncodings(list)), rest)
  {
    hide Take, EncodingsBytes, EncodingsOf, BeBytes16, Be16;
    var head := [0] + BeBytes16(|list|);
    Word16Back(|list|);
    assert |head| == 3 && head[1] == BeBytes16(|list|)[0] && head[2] == BeBytes16(|list|)[1];
    TwoTakes(head, EncodingsBytes(list), rest);
    EncodingsBack(list);
  }

  lemma CutTextBack(text: seq<byte>, rest: seq<byte>)
    requires |text| <= MAX_CUT_TEXT
    ensures ParseCutText(([0, 0, 0] + Bytes32(|text|)) + text + rest) == Got(Message(CutText(text)), rest)
  {
    hide Take, Bytes32, Word32;
    var head := [0, 0, 0] + Bytes32(|text|);
    TwoTakes(head, text, rest);
    assert head[3..7] == Bytes32(|text|);
    Word32Back(|text|);
  }

  lemma ClipboardBack(body: seq<byte>, rest: seq<byte>)
    requires 0 < |body| <= MAX_CUT_TEXT
    ensures ParseCutText(([0, 0, 0] + Bytes32(TWO_32 - |body|)) + body + rest) == Got(Message(ExtendedClipboard(body)), rest)
  {
    hide Take, Bytes32, Word32;
    var head := [0, 0, 0] + Bytes32(TWO_32 - |body|);
    TwoTakes(head, body, rest);
    assert head[3..7] == Bytes32(TWO_32 - |body|);
    Word32Back(TWO_32 - |body|);
  }

  lemma FenceBack(flags: u32, payload: seq<byte>, rest: seq<byte>)
    requires |payload| <= MAX_FENCE_PAYLOAD
    ensures ParseFence(([0, 0, 0] + Bytes32(flags) + [|payload|]) + payload + rest) == Got(Message(ClientFence(flags, payload)), rest)
  {
    hide Take, Bytes32, Word32;
    var head := [0, 0, 0] + Bytes32(flags) + [|payload|];
    TwoTakes(head, payload, rest);
    assert head[3..7] == Bytes32(flags);
    Word32Back(flags);
  }

  lemma DesktopHead(w: u16, h: u16, n: byte)
    ensures var head := [0] + BeBytes16(w) + BeBytes16(h) + [n, 0];
            |head| == 7 && Be16(head[1], head[2]) == w && Be16(head[3], head[4]) == h && head[5] == n
  {
    hide BeBytes16, Be16;
    var x, y := BeBytes16(w), BeBytes16(h);
    Word16Back(w);
    Word16Back(h);
    var head := [0] + x + y + [n, 0];
    assert head[1] == x[0] && head[2] == x[1] && head[3] == y[0] && head[4] == y[1];
  }

  lemma DesktopParsed(s: seq<byte>, head: seq<byte>, raw: seq<byte>, rest: seq<byte>)
    requires |head| == 7 && head[5] <= MAX_SCREENS && |raw| == 16 * (head[5] as int)
    requires Take(s, 7) == Got(head, raw + rest) && Take(raw + rest, |raw|) == Got(raw, rest)
    ensures ParseDesktopSize(s) == Got(Message(SetDesktopSize(Be16(head[1], head[2]), Be16(head[3], head[4]), ScreensOf(raw, head[5]))), rest)
  {
    hide Take, Be16, ScreensOf;
  }

  lemma DesktopSizeBack(w: u16, h: u16, screens: seq<Screen>, rest: seq<byte>)
    requires |screens| <= MAX_SCREENS
    ensures ParseDesktopSize(([0] + BeBytes16(w) + BeBytes16(h) + [|screens|, 0]) + ScreensBytes(screens) + rest)
         == Got(Message(SetDesktopSize(w, h, screens)), rest)
  {
    hide Take, ScreensBytes, ScreensOf, BeBytes16, Be16, ParseDesktopSize;
    var head := [0] + BeBytes16(w) + BeBytes16(h) + [|screens|, 0];
    DesktopHead(w, h, |screens|);
    TwoTakes(head, ScreensBytes(screens), rest);
    ScreensBack(screens);
    DesktopParsed(head + ScreensBytes(screens) + rest, head, ScreensBytes(screens), rest);
  }

  lemma QemuBack(pressed: bool, sym: u32, code: u32, rest: seq<byte>)
    ensures ParseQemu([0] + (BeBytes16(if pressed then 1 else 0) + Bytes32(sym) + Bytes32(code)) + rest)
         == Got(Message(QemuKeyEvent(pressed, sym, code)), rest)
  {
    hide Take, Byte, Bytes32, Word32;
    var body := BeBytes16(if pressed then 1 else 0) + Bytes32(sym) + Bytes32(code);
    HeadThen(0, body, rest);
    TakeExact(body, rest);
    assert body[2..6] == Bytes32(sym) && body[6..10] == Bytes32(code);
    Word32Back(sym);
    Word32Back(code);
  }

  /** The body of a message of fixed size, or nothing for the others. */
  function FixedBody(m: ClientMessage): seq<byte> {
    match m
    case SetPixelFormat(pf) => [0, 0, 0] + WriteFormat(pf)
    case UpdateRequest(incremental, area) => [BoolByte(incremental)] + AreaBytes(area)
    case KeyEvent(down, keysym) => [BoolByte(down), 0, 0] + Bytes32(keysym)
    case PointerEvent(buttons, x, y) => [buttons] + BeBytes16(x) + BeBytes16(y)
    case EnableContinuousUpdates(enable, over) => [BoolByte(enable)] + AreaBytes(over)
    case _ => []
  }

  function KindOf(m: ClientMessage): byte {
    match m
    case SetPixelFormat(_) => SET_PIXEL_FORMAT
    case SetEncodings(_) => SET_ENCODINGS
    case UpdateRequest(_, _) => FRAMEBUFFER_UPDATE_REQUEST
    case KeyEvent(_, _) => KEY_EVENT
    case PointerEvent(_, _, _) => POINTER_EVENT
    case CutText(_) => CLIENT_CUT_TEXT
    case ExtendedClipboard(_) => CLIENT_CUT_TEXT
    case EnableContinuousUpdates(_, _) => ENABLE_CONTINUOUS_UPDATES
    case ClientFence(_, _) => CLIENT_FENCE
    case SetDesktopSize(_, _, _) => SET_DESKTOP_SIZE
    case QemuKeyEvent(_, _, _) => QEMU
  }

  lemma FixedBack(m: ClientMessage, rest: seq<byte>)
    requires FixedBody(m) != []
    ensures ParseFixed(FixedBody(m) + rest, KindOf(m)) == Got(Message(m), rest)
  {
    hide Take, Bytes32, Word32, AreaBytes, AreaOf, WriteFormat, ParseFormat;
    var body := FixedBody(m);
    TakeExact(body, rest);
    match m
    case SetPixelFormat(pf) =>
      FormatRoundTrip(pf);
      assert body[3..] == WriteFormat(pf);
    case UpdateRequest(_, area) =>
      AreaBack(area);
      assert body[1..] == AreaBytes(area);
    case EnableContinuousUpdates(_, over) =>
      AreaBack(over);
      assert body[1..] == AreaBytes(over);
    case KeyEvent(_, keysym) =>
      Word32Back(keysym);
      assert body[3..7] == Bytes32(keysym);
    case PointerEvent(_, _, _) =>
    case _ =>
  }

  /** Every message within the limits reads back, using exactly its own bytes. */
  lemma WrittenReadsBack(m: ClientMessage, rest: seq<byte>)
    requires Fits(m)
    ensures ParseClient(Write(m) + rest) == Got(Message(m), rest)
  {
    hide Byte, ParseEncodings, ParseCutText, ParseFence, ParseDesktopSize, ParseQemu, ParseFixed;
    hide Bytes32, EncodingsBytes, ScreensBytes, AreaBytes, WriteFormat, BeBytes16;
    var body := Write(m)[1..];
    assert Write(m) == [KindOf(m)] + body;
    HeadThen(KindOf(m), body, rest);
    if FixedBody(m) != [] {
      assert body == FixedBody(m);
      FixedBack(m, rest);
    } else {
      SizedReadsBack(m, rest);
    }
  }

  /** The messages that say their own size. */
  lemma SizedReadsBack(m: ClientMessage, rest: seq<byte>)
    requires Fits(m) && FixedBody(m) == []
    ensures ParseClient(Write(m) + rest) == Got(Message(m), rest)
  {
    hide Byte, ParseEncodings, ParseCutText, ParseFence, ParseDesktopSize, ParseQemu, ParseFixed;
    hide Bytes32, EncodingsBytes, ScreensBytes, AreaBytes, WriteFormat, BeBytes16;
    var body := Write(m)[1..];
    assert Write(m) == [KindOf(m)] + body;
    HeadThen(KindOf(m), body, rest);
    match m
    case SetEncodings(list) => SetEncodingsBack(list, rest);
    case CutText(text) => CutTextBack(text, rest);
    case ExtendedClipboard(clip) => ClipboardBack(clip, rest);
    case ClientFence(flags, payload) => FenceBack(flags, payload, rest);
    case SetDesktopSize(w, h, screens) => DesktopSizeBack(w, h, screens, rest);
    case QemuKeyEvent(pressed, sym, code) => QemuBack(pressed, sym, code, rest);
    case _ =>
  }

  /** Whatever is read is within the limits. */
  lemma ParsedFits(s: seq<byte>)
    ensures ParseClient(s).Got? && ParseClient(s).value.Message? ==> Fits(ParseClient(s).value.m)
  {
    hide Byte, Word32, EncodingsOf, ScreensOf, ParseFormat, AreaOf;
  }

  /** A written message reads back exactly when it is within the limits. */
  lemma ReadsBackIff(m: ClientMessage, rest: seq<byte>)
    ensures ParseClient(Write(m) + rest) == Got(Message(m), rest) <==> Fits(m)
  {
    hide ParseClient, Write, Fits;
    ParsedFits(Write(m) + rest);
    if Fits(m) {
      WrittenReadsBack(m, rest);
    }
  }

  /** Every proper prefix of a written message asks for more, and for no more than the message. */
  lemma PrefixWaits(m: ClientMessage, n: nat)
    requires Fits(m) && n < |Write(m)|
    ensures ParseClient(Write(m)[..n]).Truncated? && 1 <= ParseClient(Write(m)[..n]).more <= |Write(m)| - n
  {
    hide ParseClient, Write, Fits;
    var s := Write(m);
    WrittenReadsBack(m, []);
    assert s + [] == s;
    Split(s, n);
    ParseGrows(s[..n], s[n..]);
    PrefixAsks(s, n, ParseClient(s), ParseClient(s[..n]));
  }

  // ---- The stream, however it is split ----

  /** Everything a stream says: its messages in order, and a refusal if it comes to one. */
  function Messages(s: seq<byte>): seq<Outcome>
    decreases |s|
  {
    var r := ParseClient(s);
    if !r.Got? then []
    else if r.value.Refused? then [r.value]
    else [r.value] + Messages(r.rest)
  }

  /** What a drain leaves unread. */
  function Leftover(s: seq<byte>): seq<byte>
    decreases |s|
  {
    var r := ParseClient(s);
    if !r.Got? then s else if r.value.Refused? then r.rest else Leftover(r.rest)
  }

  /** The session's loop over what has arrived. */
  method Drain(buffer: seq<byte>) returns (done: seq<Outcome>, rest: seq<byte>)
    ensures done == Messages(buffer) && rest == Leftover(buffer)
  {
    hide ParseClient;
    done, rest := [], buffer;
    while true
      invariant done + Messages(rest) == Messages(buffer) && Leftover(rest) == Leftover(buffer)
      decreases |rest|
    {
      var r := ParseClient(rest);
      if !r.Got? { return; }
      ghost var before := rest;
      done := done + [r.value];
      rest := r.rest;
      if r.value.Refused? { return; }
    }
  }

  /** These bytes, whatever follows them, are these outcomes and then what follows. */
  ghost predicate Reads(used: seq<byte>, done: seq<Outcome>) {
    forall after: seq<byte> :: Messages(used + after) == done + Messages(after)
  }

  /** The session between two calls: bytes that came, those not yet read, and
      the messages handled. It may stop handling for a while and take it up again. */
  datatype Session = Session(received: seq<byte>, buffer: seq<byte>, done: seq<Outcome>)

  datatype Step = Receive(bytes: seq<byte>) | HandleOne

  ghost predicate Next(s: Session, step: Step, s': Session) {
    match step
    case Receive(bytes) => s' == s.(received := s.received + bytes, buffer := s.buffer + bytes)
    case HandleOne =>
      var r := ParseClient(s.buffer);
      r.Got? && r.value.Message? && s' == s.(buffer := r.rest, done := s.done + [r.value])
  }

  ghost predicate Faithful(s: Session) {
    exists used: seq<byte> :: s.received == used + s.buffer && Reads(used, s.done)
  }

  /** Bytes that parsed as one message parse so whatever follows. */
  lemma OneMessage(used: seq<byte>, rest: seq<byte>, after: seq<byte>, o: Outcome)
    requires ParseClient(used + rest) == Got(o, rest)
    ensures ParseClient(used + after) == Got(o, after)
  {
    hide ParseClient;
    ParseGrows(used, rest);
    ParseGrows(used, after);
    var alone := ParseClient(used);
    if alone.Got? {
      assert |alone.rest + rest| == |rest|;
      assert alone.rest == [] && [] + after == after;
    }
  }

  lemma StepFaithful(s: Session, step: Step, s': Session)
    requires Faithful(s) && Next(s, step, s')
    ensures Faithful(s')
  {
    hide ParseClient, Reads;
    var used :| s.received == used + s.buffer && Reads(used, s.done);
    match step
    case Receive(bytes) =>
      assert s'.received == used + s'.buffer;
    case HandleOne =>
      var r := ParseClient(s.buffer);
      var k := |s.buffer| - |r.rest|;
      ReadsOneMore(used, s.done, s.buffer);
      assert s'.received == (used + s.buffer[..k]) + s'.buffer;
  }

  /** What a message uses is at the front of the buffer. */
  lemma FrontOf(s: seq<byte>)
    requires ParseClient(s).Got?
    ensures var k := |s| - |ParseClient(s).rest|; 0 < k <= |s| && s == s[..k] + ParseClient(s).rest
  {
    hide ParseClient;
    var rest := ParseClient(s).rest;
    var k := |s| - |rest|;
    Split(s, k);
    ParseGrows(s[..k], s[k..]);
  }

  lemma ReadsOneMore(used: seq<byte>, done: seq<Outcome>, buffer: seq<byte>)
    requires Reads(used, done) && ParseClient(buffer).Got? && ParseClient(buffer).value.Message?
    ensures var r := ParseClient(buffer);
            var k := |buffer| - |r.rest|;
            0 < k <= |buffer| && buffer == buffer[..k] + r.rest && Reads(used + buffer[..k], done + [r.value])
  {
    hide ParseClient;
    FrontOf(buffer);
    var r := ParseClient(buffer);
    var front := buffer[..|buffer| - |r.rest|];
    forall after: seq<byte> ensures Messages((used + front) + after) == (done + [r.value]) + Messages(after) {
      OneMessage(front, r.rest, after, r.value);
      assert (used + front) + after == used + (front + after);
      assert Messages(used + (front + after)) == done + Messages(front + after);
      assert Messages(front + after) == [r.value] + Messages(after);
    }
  }

  ghost predicate Run(ss: seq<Session>, steps: seq<Step>) {
    && |ss| == |steps| + 1 && ss[0] == Session([], [], [])
    && forall i :: 0 <= i < |steps| ==> Next(ss[i], steps[i], ss[i + 1])
  }

  lemma {:induction false} RunFaithful(ss: seq<Session>, steps: seq<Step>, i: nat)
    requires Run(ss, steps) && i < |ss|
    ensures Faithful(ss[i])
  {
    hide Faithful, Next, ParseClient;
    if i == 0 {
      NothingRead(ss[0]);
    } else {
      RunFaithful(ss, steps, i - 1);
      StepFaithful(ss[i - 1], steps[i - 1], ss[i]);
    }
  }

  lemma NothingRead(s: Session)
    requires s == Session([], [], [])
    ensures Faithful(s)
  {
    hide Messages;
    forall after: seq<byte> ensures Messages([] + after) == [] + Messages(after) {
      assert [] + after == after && [] + Messages(after) == Messages(after);
    }
    assert Reads([], []);
    assert s.received == [] + s.buffer;
  }

  /** However a stream is split and whenever handling pauses, what has been
      handled and what the unread bytes say make up what the whole stream says. */
  lemma ChunkingDoesNotMatter(ss: seq<Session>, steps: seq<Step>, i: nat)
    requires Run(ss, steps) && i < |ss|
    ensures Messages(ss[i].received) == ss[i].done + Messages(ss[i].buffer)
    ensures !ParseClient(ss[i].buffer).Got? ==> ss[i].done == Messages(ss[i].received)
  {
    hide ParseClient;
    RunFaithful(ss, steps, i);
    var used :| ss[i].received == used + ss[i].buffer && Reads(used, ss[i].done);
    assert Messages(used + ss[i].buffer) == ss[i].done + Messages(ss[i].buffer);
  }
}
