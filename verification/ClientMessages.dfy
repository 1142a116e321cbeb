/** Client messages (section 7.5 of RFC 6143, and the extended key event of QEMU) and how a server reads them. */
module ClientMessages {
  import opened Bytes
  import opened Feed

  /** A 32-bit signed encoding number. */
  type Encoding = e: int | -0x8000_0000 <= e < 0x8000_0000

  datatype Message =
    | SetEncodings(encodings: seq<Encoding>)
    | UpdateRequest(incremental: bool, x: int, y: int, w: int, h: int)
    | Key(down: bool, keysym: int)
    | ExtendedKey(down: bool, keysym: int, scancode: int)
    | Pointer(buttons: byte, x: int, y: int)
    | CutText(text: seq<byte>)

  const SET_ENCODINGS := 2
  const FRAMEBUFFER_UPDATE_REQUEST := 3
  const KEY_EVENT := 4
  const MOUSE_EVENT := 5
  const CUT_TEXT := 6
  const QEMU := 255
  const QEMU_KEY := 0

  predicate IsU16(n: int)
  {
    0 <= n < 0x1_0000
  }

  predicate IsU32(n: int)
  {
    0 <= n < 0x1_0000_0000
  }

  /** What the C types of the interface allow. */
  predicate Typed(m: Message)
  {
    match m
    case SetEncodings(_) => true
    case UpdateRequest(_, x, y, w, h) => IsU16(x) && IsU16(y) && IsU16(w) && IsU16(h)
    case Key(_, keysym) => IsU32(keysym)
    case ExtendedKey(_, keysym, scancode) => IsU32(keysym) && IsU16(scancode)
    case Pointer(_, x, y) => IsU16(x) && IsU16(y)
    case CutText(_) => true
  }

  predicate AllTyped(ms: seq<Message>)
  {
    forall k :: 0 <= k < |ms| ==> Typed(ms[k])
  }

  /** The lengths that a message announces fit their fields. */
  predicate Countable(m: Message)
  {
    (m.SetEncodings? ==> |m.encodings| < 0x1_0000) && (m.CutText? ==> |m.text| < 0x1_0000_0000)
  }

  function Bit(b: bool): (r: byte)
    ensures r <= 1 && (r == 1 <==> b)
  {
    if b then 1 else 0
  }

  function EncS32(n: Encoding): (r: seq<byte>)
    ensures |r| == 4
  {
    EncU32(if n < 0 then n + 0x1_0000_0000 else n)
  }

  function EncodeList(encodings: seq<Encoding>): seq<byte>
  {
    if encodings == [] then [] else EncS32(encodings[0]) + EncodeList(encodings[1..])
  }

  /** The bytes of a message; counts are cut to the width of their fields. */
  function Encode(m: Message): seq<byte>
    requires Typed(m)
  {
    match m
    case SetEncodings(es) => [SET_ENCODINGS] + ([0] + (EncU16(|es| % 0x1_0000) + EncodeList(es)))
    case UpdateRequest(incremental, x, y, w, h) =>
      [FRAMEBUFFER_UPDATE_REQUEST] + ([Bit(incremental)] + (EncU16(x) + (EncU16(y) + (EncU16(w) + EncU16(h)))))
    case Key(down, keysym) => [KEY_EVENT] + ([Bit(down)] + (Zeros(2) + EncU32(keysym)))
    case ExtendedKey(down, keysym, scancode) =>
      [QEMU] + ([QEMU_KEY] + (EncU16(Bit(down)) + (EncU32(keysym) + EncU32(scancode))))
    case Pointer(buttons, x, y) => [MOUSE_EVENT] + ([buttons] + (EncU16(x) + EncU16(y)))
    case CutText(text) => [CUT_TEXT] + (Zeros(3) + (EncU32(|text| % 0x1_0000_0000) + text))
  }

  function EncodeAll(ms: seq<Message>): seq<byte>
    requires AllTyped(ms)
  {
    if ms == [] then [] else Encode(ms[0]) + EncodeAll(ms[1..])
  }

  /* The server's side. */

  function ReadS32(f: Feed): (Encoding, Feed)
  {
    var (n, g) := TakeU32(f);
    (if 0x8000_0000 <= n then n - 0x1_0000_0000 else n, g)
  }

  function ReadList(f: Feed, n: nat): (seq<Encoding>, Feed)
    decreases n
  {
    if n == 0 then ([], f)
    else
      var (e, g) := ReadS32(f);
      var (es, h) := ReadList(g, n - 1);
      ([e] + es, h)
  }

  /** The next message of a stream, told by the number that the protocol gives it; `Dead` if there is no such message. */
  function Read(f: Feed): (Message, Feed)
  {
    var (kind, s0) := TakeU8(f);
    if kind == 2 then
      var (n, s1) := TakeU16(TakeU8(s0).1);
      var (es, s2) := ReadList(s1, n);
      (SetEncodings(es), s2)
    else if kind == 3 then
      var (incremental, s1) := TakeU8(s0);
      var (x, s2) := TakeU16(s1);
      var (y, s3) := TakeU16(s2);
      var (w, s4) := TakeU16(s3);
      var (h, s5) := TakeU16(s4);
      (UpdateRequest(incremental != 0, x, y, w, h), s5)
    else if kind == 4 then
      var (down, s1) := TakeU8(s0);
      var (keysym, s2) := TakeU32(Take(s1, 2).1);
      (Key(down != 0, keysym), s2)
    else if kind == 5 then
      var (buttons, s1) := TakeU8(s0);
      var (x, s2) := TakeU16(s1);
      var (y, s3) := TakeU16(s2);
      (Pointer(buttons, x, y), s3)
    else if kind == 6 then
      var (n, s1) := TakeU32(Take(s0, 3).1);
      var (text, s2) := Take(s1, n);
      (CutText(text), s2)
    else if kind == 255 then
      var (sub, s1) := TakeU8(s0);
      var (down, s2) := TakeU16(s1);
      var (keysym, s3) := TakeU32(s2);
      var (scancode, s4) := TakeU32(s3);
      (ExtendedKey(down != 0, keysym, scancode), if sub == 0 then s4 else Dead)
    else (CutText([]), Dead)
  }

  function ReadAll(f: Feed, n: nat): (seq<Message>, Feed)
    decreases n
  {
    if n == 0 then ([], f)
    else
      var (m, g) := Read(f);
      var (ms, h) := ReadAll(g, n - 1);
      ([m] + ms, h)
  }

  lemma S32Inverts(e: Encoding, rest: seq<byte>)
    ensures ReadS32(Live(EncS32(e) + rest)) == (e, Live(rest))
  {
    TakeU32Prefix(if e < 0 then e + 0x1_0000_0000 else e, rest);
  }

  lemma {:induction false} ListInverts(es: seq<Encoding>, rest: seq<byte>)
    ensures ReadList(Live(EncodeList(es) + rest), |es|) == (es, Live(rest))
  {
    hide EncS32, ReadS32;
    if es == [] {
      assert EncodeList(es) + rest == rest;
    } else {
      Append(EncS32(es[0]), EncodeList(es[1..]), rest);
      S32Inverts(es[0], EncodeList(es[1..]) + rest);
      ListInverts(es[1..], rest);
      assert [es[0]] + es[1..] == es;
    }
  }

  lemma {:induction false} ListLength(es: seq<Encoding>)
    ensures |EncodeList(es)| == 4 * |es|
  {
    if es != [] {
      ListLength(es[1..]);
    }
  }

  lemma SetEncodingsInverts(es: seq<Encoding>, rest: seq<byte>)
    requires |es| < 0x1_0000
    ensures Read(Live(Encode(SetEncodings(es)) + rest)) == (SetEncodings(es), Live(rest))
  {
    hide EncU16, U16, Take, TakeU8, TakeU16, EncodeList, ReadList;
    var n, list := EncU16(|es|), EncodeList(es);
    Append([SET_ENCODINGS], [0] + (n + list), rest);
    Append([0], n + list, rest);
    Append(n, list, rest);
    TakeU8Prefix(SET_ENCODINGS, [0] + (n + (list + rest)));
    TakeU8Prefix(0, n + (list + rest));
    TakeU16Prefix(|es|, list + rest);
    ListInverts(es, rest);
  }

  lemma UpdateRequestInverts(incremental: bool, x: int, y: int, w: int, h: int, rest: seq<byte>)
    requires IsU16(x) && IsU16(y) && IsU16(w) && IsU16(h)
    ensures Read(Live(Encode(UpdateRequest(incremental, x, y, w, h)) + rest)) == (UpdateRequest(incremental, x, y, w, h), Live(rest))
  {
    hide EncU16, U16, Take, TakeU8, TakeU16, EncodeList, ReadList;
    var e3 := EncU16(w) + EncU16(h);
    var e2 := EncU16(y) + e3;
    var e1 := EncU16(x) + e2;
    Append([FRAMEBUFFER_UPDATE_REQUEST], [Bit(incremental)] + e1, rest);
    Append([Bit(incremental)], e1, rest);
    Append(EncU16(x), e2, rest);
    Append(EncU16(y), e3, rest);
    Append(EncU16(w), EncU16(h), rest);
    TakeU8Prefix(FRAMEBUFFER_UPDATE_REQUEST, [Bit(incremental)] + (e1 + rest));
    TakeU8Prefix(Bit(incremental), e1 + rest);
    TakeU16Prefix(x, e2 + rest);
    TakeU16Prefix(y, e3 + rest);
    TakeU16Prefix(w, EncU16(h) + rest);
    TakeU16Prefix(h, rest);
  }

  lemma KeyInverts(down: bool, keysym: int, rest: seq<byte>)
    requires IsU32(keysym)
    ensures Read(Live(Encode(Key(down, keysym)) + rest)) == (Key(down, keysym), Live(rest))
  {
    hide EncU32, U32, Take, TakeU8, TakeU32;
    var e := EncU32(keysym);
    Append([KEY_EVENT], [Bit(down)] + (Zeros(2) + e), rest);
    Append([Bit(down)], Zeros(2) + e, rest);
    Append(Zeros(2), e, rest);
    TakeU8Prefix(KEY_EVENT, [Bit(down)] + (Zeros(2) + (e + rest)));
    TakeU8Prefix(Bit(down), Zeros(2) + (e + rest));
    TakePrefix(Zeros(2), e + rest);
    TakeU32Prefix(keysym, rest);
  }

  lemma ExtendedKeyInverts(down: bool, keysym: int, scancode: int, rest: seq<byte>)
    requires IsU32(keysym) && IsU16(scancode)
    ensures Read(Live(Encode(ExtendedKey(down, keysym, scancode)) + rest)) == (ExtendedKey(down, keysym, scancode), Live(rest))
  {
    hide EncU16, U16, EncU32, U32, Take, TakeU8, TakeU16, TakeU32;
    var e3 := EncU32(keysym) + EncU32(scancode);
    var e2 := EncU16(Bit(down)) + e3;
    Append([QEMU], [QEMU_KEY] + e2, rest);
    Append([QEMU_KEY], e2, rest);
    Append(EncU16(Bit(down)), e3, rest);
    Append(EncU32(keysym), EncU32(scancode), rest);
    TakeU8Prefix(QEMU, [QEMU_KEY] + (e2 + rest));
    TakeU8Prefix(QEMU_KEY, e2 + rest);
    TakeU16Prefix(Bit(down), e3 + rest);
    TakeU32Prefix(keysym, EncU32(scancode) + rest);
    TakeU32Prefix(scancode, rest);
  }

  lemma PointerInverts(buttons: byte, x: int, y: int, rest: seq<byte>)
    requires IsU16(x) && IsU16(y)
    ensures Read(Live(Encode(Pointer(buttons, x, y)) + rest)) == (Pointer(buttons, x, y), Live(rest))
  {
    hide EncU16, U16, Take, TakeU8, TakeU16;
    var e := EncU16(x) + EncU16(y);
    Append([MOUSE_EVENT], [buttons] + e, rest);
    Append([buttons], e, rest);
    Append(EncU16(x), EncU16(y), rest);
    TakeU8Prefix(MOUSE_EVENT, [buttons] + (e + rest));
    TakeU8Prefix(buttons, e + rest);
    TakeU16Prefix(x, EncU16(y) + rest);
    TakeU16Prefix(y, rest);
  }

  lemma CutTextInverts(text: seq<byte>, rest: seq<byte>)
    requires |text| < 0x1_0000_0000
    ensures Read(Live(Encode(CutText(text)) + rest)) == (CutText(text), Live(rest))
  {
    hide EncU32, U32, Take, TakeU8, TakeU32;
    var n := EncU32(|text|);
    Append([CUT_TEXT], Zeros(3) + (n + text), rest);
    Append(Zeros(3), n + text, rest);
    Append(n, text, rest);
    TakeU8Prefix(CUT_TEXT, Zeros(3) + (n + (text + rest)));
    TakePrefix(Zeros(3), n + (text + rest));
    TakeU32Prefix(|text|, text + rest);
    TakePrefix(text, rest);
  }

  /** Of what servers can read, clients of this kind send all but a scancode of more than 16 bits. */
  lemma ReadTyped(f: Feed)
    ensures var m := Read(f).0;
            Countable(m) && (Typed(m) <==> (m.ExtendedKey? ==> m.scancode < 0x1_0000))
  {
    hide U16, U32;
    var s1 := TakeU8(TakeU8(f).1).1;
    var (n, g) := TakeU16(s1);
    ReadListLength(g, n);
  }

  /** A message is read back as it was meant, exactly if the lengths it announces fit their fields. */
  lemma MessageInverts(m: Message, rest: seq<byte>)
    requires Typed(m)
    ensures Read(Live(Encode(m) + rest)) == (m, Live(rest)) <==> Countable(m)
  {
    hide Encode, Read;
    match m
    case SetEncodings(es) =>
      if |es| < 0x1_0000 {
        SetEncodingsInverts(es, rest);
      } else {
        LongListMisread(es, rest);
      }
    case UpdateRequest(incremental, x, y, w, h) => UpdateRequestInverts(incremental, x, y, w, h, rest);
    case Key(down, keysym) => KeyInverts(down, keysym, rest);
    case ExtendedKey(down, keysym, scancode) => ExtendedKeyInverts(down, keysym, scancode, rest);
    case Pointer(buttons, x, y) => PointerInverts(buttons, x, y, rest);
    case CutText(text) =>
      if |text| < 0x1_0000_0000 {
        CutTextInverts(text, rest);
      } else {
        LongTextMisread(text, rest);
      }
  }

  /** No list read is longer than the count in front of it can say. */
  lemma LongListMisread(es: seq<Encoding>, rest: seq<byte>)
    requires 0x1_0000 <= |es|
    ensures Read(Live(Encode(SetEncodings(es)) + rest)).0 != SetEncodings(es)
  {
    hide EncU16, U16, Take, TakeU16, EncodeList, ReadList;
    var f := Live(Encode(SetEncodings(es)) + rest);
    Append([SET_ENCODINGS], [0] + (EncU16(|es| % 0x1_0000) + EncodeList(es)), rest);
    TakePrefix([SET_ENCODINGS], [0] + (EncU16(|es| % 0x1_0000) + EncodeList(es)) + rest);
    var (n, g) := TakeU16(TakeU8(TakeU8(f).1).1);
    ReadListLength(g, n);
  }

  lemma {:induction false} ReadListLength(f: Feed, n: nat)
    ensures |ReadList(f, n).0| == n
    decreases n
  {
    if n != 0 {
      ReadListLength(ReadS32(f).1, n - 1);
    }
  }

  lemma LongTextMisread(text: seq<byte>, rest: seq<byte>)
    requires 0x1_0000_0000 <= |text|
    ensures Read(Live(Encode(CutText(text)) + rest)).0 != CutText(text)
  {
    hide EncU32, U32, Take, TakeU32;
    var f := Live(Encode(CutText(text)) + rest);
    var body := Zeros(3) + (EncU32(|text| % 0x1_0000_0000) + text);
    Append([CUT_TEXT], body, rest);
    TakePrefix([CUT_TEXT], body + rest);
    var (n, g) := TakeU32(Take(TakeU8(f).1, 3).1);
    assert |Take(g, n).0| == n;
  }

  /** A server reads off the wire the very messages that were sent, one after the other. */
  lemma {:induction false} StreamInverts(ms: seq<Message>, rest: seq<byte>)
    requires AllTyped(ms) && forall k :: 0 <= k < |ms| ==> Countable(ms[k])
    ensures ReadAll(Live(EncodeAll(ms) + rest), |ms|) == (ms, Live(rest))
    decreases |ms|
  {
    hide Encode, Read;
    if ms == [] {
      assert EncodeAll(ms) + rest == rest;
    } else {
      Append(Encode(ms[0]), EncodeAll(ms[1..]), rest);
      MessageInverts(ms[0], EncodeAll(ms[1..]) + rest);
      StreamInverts(ms[1..], rest);
      assert [ms[0]] + ms[1..] == ms;
    }
  }

  lemma {:induction false} EncodeAllAppends(a: seq<Message>, b: seq<Message>)
    requires AllTyped(a) && AllTyped(b)
    ensures EncodeAll(a + b) == EncodeAll(a) + EncodeAll(b)
  {
    hide Encode;
    if a == [] {
      assert a + b == b;
    } else {
      assert (a + b)[1..] == a[1..] + b;
      EncodeAllAppends(a[1..], b);
      Append(Encode(a[0]), EncodeAll(a[1..]), EncodeAll(b));
    }
  }
}
