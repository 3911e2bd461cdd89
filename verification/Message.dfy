/** The binary encoding of the messages on the two data channels. */
module Message {
  import opened Prelude

  type u16 = x: int | 0 <= x < 0x1_0000
  type i16 = x: int | -0x8000 <= x < 0x8000
  type u32 = x: int | 0 <= x < 0x1_0000_0000

  const KEY_CODES: int := 194

  /** A physical key by its wire value. */
  type KeyCode = x: int | 0 <= x < 194

  datatype MouseButton = Left | Right | Middle | Back | Forward

  datatype ControlMessage =
    | Hello(version: u16)
    | Key(code: KeyCode, pressed: bool)
    | Button(button: MouseButton, pressed: bool)
    | Wheel(horizontal: i16, vertical: i16)
    | SetBitrate(kbps: u32)
    | ReleaseAll

  datatype MouseMove = MouseMove(x: u16, y: u16)

  datatype DecodeError =
    | Empty
    | UnknownTag(tag: byte)
    | Truncated(expected: nat, actual: nat)
    | Trailing(count: nat)
    | UnknownKey(key: u16)
    | UnknownButton(number: byte)

  datatype Result<+T> = Ok(value: T) | Err(error: DecodeError)

  const TAG_HELLO: byte := 0x01
  const TAG_KEY: byte := 0x02
  const TAG_BUTTON: byte := 0x03
  const TAG_WHEEL: byte := 0x04
  const TAG_SET_BITRATE: byte := 0x05
  const TAG_RELEASE_ALL: byte := 0x06
  const TAG_MOUSE_MOVE: byte := 0x10

  const MAX_ENCODED_LEN: nat := 5

  // ---- Little-endian fields ----

  function U16Bytes(v: u16): seq<byte> {
    [v % 256, v / 256]
  }

  function U16Of(lo: byte, hi: byte): u16 {
    lo + 256 * hi
  }

  function I16Bytes(v: i16): seq<byte> {
    U16Bytes(if v < 0 then v + 0x1_0000 else v)
  }

  function I16Of(lo: byte, hi: byte): i16 {
    var raw := U16Of(lo, hi);
    if raw < 0x8000 then raw else raw - 0x1_0000
  }

  function U32Bytes(v: u32): seq<byte> {
    U16Bytes(v % 0x1_0000) + U16Bytes(v / 0x1_0000)
  }

  function U32Of(a: byte, b: byte, c: byte, d: byte): u32 {
    U16Of(a, b) + 0x1_0000 * U16Of(c, d)
  }

  function BoolByte(b: bool): byte {
    if b then 1 else 0
  }

  function ButtonByte(b: MouseButton): byte {
    match b
    case Left => 0
    case Right => 1
    case Middle => 2
    case Back => 3
    case Forward => 4
  }

  function ButtonOf(v: byte): Option<MouseButton> {
    match v
    case 0 => Some(Left)
    case 1 => Some(Right)
    case 2 => Some(Middle)
    case 3 => Some(Back)
    case 4 => Some(Forward)
    case _ => None
  }

  // ---- Control channel ----

  function Encode(m: ControlMessage): seq<byte> {
    match m
    case Hello(version) => [TAG_HELLO] + U16Bytes(version)
    case Key(code, pressed) => [TAG_KEY] + U16Bytes(code) + [BoolByte(pressed)]
    case Button(button, pressed) => [TAG_BUTTON, ButtonByte(button), BoolByte(pressed)]
    case Wheel(horizontal, vertical) => [TAG_WHEEL] + I16Bytes(horizontal) + I16Bytes(vertical)
    case SetBitrate(kbps) => [TAG_SET_BITRATE] + U32Bytes(kbps)
    case ReleaseAll => [TAG_RELEASE_ALL]
  }

  /** Appends the encoding to a buffer, field by field. */
  method EncodeInto(m: ControlMessage, buffer: seq<byte>) returns (out: seq<byte>)
    ensures out == buffer + Encode(m)
  {
    out := buffer;
    match m {
      case Hello(version) =>
        out := out + [TAG_HELLO];
        out := out + U16Bytes(version);
      case Key(code, pressed) =>
        out := out + [TAG_KEY];
        out := out + U16Bytes(code);
        out := out + [BoolByte(pressed)];
      case Button(button, pressed) =>
        out := out + [TAG_BUTTON];
        out := out + [ButtonByte(button)];
        out := out + [BoolByte(pressed)];
      case Wheel(horizontal, vertical) =>
        out := out + [TAG_WHEEL];
        out := out + I16Bytes(horizontal);
        out := out + I16Bytes(vertical);
      case SetBitrate(kbps) =>
        out := out + [TAG_SET_BITRATE];
        out := out + U32Bytes(kbps);
      case ReleaseAll =>
        out := out + [TAG_RELEASE_ALL];
    }
  }

  /** The body length each tag demands. */
  function BodyLength(tag: byte): Option<nat> {
    match tag
    case 0x01 => Some(2)
    case 0x02 => Some(3)
    case 0x03 => Some(2)
    case 0x04 => Some(4)
    case 0x05 => Some(4)
    case 0x06 => Some(0)
    case _ => None
  }

  function Decode(buf: seq<byte>): Result<ControlMessage> {
    if buf == [] then Err(Empty)
    else
      var (tag, body) := (buf[0], buf[1..]);
      match BodyLength(tag)
      case None => Err(UnknownTag(tag))
      case Some(n) =>
        if |body| < n then Err(Truncated(n + 1, |buf|))
        else if |body| > n then Err(Trailing(|body| - n))
        else if tag == TAG_HELLO then Ok(Hello(U16Of(body[0], body[1])))
        else if tag == TAG_KEY then
          var raw := U16Of(body[0], body[1]);
          if raw < KEY_CODES then Ok(Key(raw, body[2] != 0)) else Err(UnknownKey(raw))
        else if tag == TAG_BUTTON then
          (match ButtonOf(body[0])
           case Some(b) => Ok(Button(b, body[1] != 0))
           case None => Err(UnknownButton(body[0])))
        else if tag == TAG_WHEEL then Ok(Wheel(I16Of(body[0], body[1]), I16Of(body[2], body[3])))
        else if tag == TAG_SET_BITRATE then Ok(SetBitrate(U32Of(body[0], body[1], body[2], body[3])))
        else Ok(ReleaseAll)
  }

  // ---- Mouse channel ----

  function EncodeMouse(m: MouseMove): seq<byte> {
    [TAG_MOUSE_MOVE] + U16Bytes(m.x) + U16Bytes(m.y)
  }

  function DecodeMouse(buf: seq<byte>): Result<MouseMove> {
    if buf == [] then Err(Empty)
    else if buf[0] != TAG_MOUSE_MOVE then Err(UnknownTag(buf[0]))
    else if |buf| < MAX_ENCODED_LEN then Err(Truncated(MAX_ENCODED_LEN, |buf|))
    else if |buf| > MAX_ENCODED_LEN then Err(Trailing(|buf| - MAX_ENCODED_LEN))
    else Ok(MouseMove(U16Of(buf[1], buf[2]), U16Of(buf[3], buf[4])))
  }

  // ---- Properties ----

  lemma RoundTrip(m: ControlMessage)
    ensures Decode(Encode(m)) == Ok(m) && 1 <= |Encode(m)| <= MAX_ENCODED_LEN
  {
    match m
    case Hello(version) => U16RoundTrip(version);
    case Key(code, _) => U16RoundTrip(code);
    case Wheel(horizontal, vertical) =>
      I16RoundTrip(horizontal);
      I16RoundTrip(vertical);
    case SetBitrate(kbps) => U32RoundTrip(kbps);
    case _ =>
  }

  lemma U16RoundTrip(v: u16)
    ensures U16Of(U16Bytes(v)[0], U16Bytes(v)[1]) == v
  {
  }

  lemma I16RoundTrip(v: i16)
    ensures I16Of(I16Bytes(v)[0], I16Bytes(v)[1]) == v
  {
    U16RoundTrip(if v < 0 then v + 0x1_0000 else v);
  }

  lemma U32RoundTrip(v: u32)
    ensures var b := U32Bytes(v); U32Of(b[0], b[1], b[2], b[3]) == v
  {
    U16RoundTrip(v % 0x1_0000);
    U16RoundTrip(v / 0x1_0000);
    assert v == v % 0x1_0000 + 0x1_0000 * (v / 0x1_0000);
  }

  lemma MouseRoundTrip(m: MouseMove)
    ensures DecodeMouse(EncodeMouse(m)) == Ok(m)
  {
  }

  /** The buffer with the pressed byte of a key or button message reduced to 0 or 1. */
  function Normalised(buf: seq<byte>): seq<byte> {
    if buf != [] && buf[0] in {TAG_KEY, TAG_BUTTON}
    then buf[|buf| - 1 := BoolByte(buf[|buf| - 1] != 0)]
    else buf
  }

  lemma U16Reencodes(v: u16, a: byte, b: byte)
    requires v == U16Of(a, b)
    ensures U16Bytes(v) == [a, b]
  {
  }

  lemma I16Reencodes(a: byte, b: byte)
    ensures I16Bytes(I16Of(a, b)) == [a, b]
  {
  }

  lemma Halves(v: u32, lo: u16, hi: u16)
    requires v == lo + 0x1_0000 * hi
    ensures v % 0x1_0000 == lo && v / 0x1_0000 == hi
  {
  }

  lemma HalvesJoin(v: u32, lo: u16, hi: u16, x: seq<byte>, y: seq<byte>)
    requires v % 0x1_0000 == lo && v / 0x1_0000 == hi && U16Bytes(lo) == x && U16Bytes(hi) == y
    ensures U32Bytes(v) == x + y
  {
  }

  lemma U32Reencodes(v: u32, lo: u16, hi: u16, a: byte, b: byte, c: byte, d: byte)
    requires v == lo + 0x1_0000 * hi && lo == U16Of(a, b) && hi == U16Of(c, d)
    ensures U32Bytes(v) == [a, b] + [c, d]
  {
    Halves(v, lo, hi);
    U16Reencodes(lo, a, b);
    U16Reencodes(hi, c, d);
    HalvesJoin(v, lo, hi, [a, b], [c, d]);
  }

  /** What is accepted re-encodes to itself up to that byte: decoding loses nothing else. */
  lemma AcceptedBytesReencode(buf: seq<byte>)
    requires Decode(buf).Ok?
    ensures Encode(Decode(buf).value) == Normalised(buf)
  {
    var tag := buf[0];
    if tag == TAG_HELLO {
      U16Reencodes(U16Of(buf[1], buf[2]), buf[1], buf[2]);
    } else if tag == TAG_KEY {
      U16Reencodes(U16Of(buf[1], buf[2]), buf[1], buf[2]);
    } else if tag == TAG_BUTTON {
      assert ButtonByte(ButtonOf(buf[1]).value) == buf[1];
    } else if tag == TAG_WHEEL {
      I16Reencodes(buf[1], buf[2]);
      I16Reencodes(buf[3], buf[4]);
    } else if tag == TAG_SET_BITRATE {
      U32Reencodes(U32Of(buf[1], buf[2], buf[3], buf[4]), U16Of(buf[1], buf[2]), U16Of(buf[3], buf[4]), buf[1], buf[2], buf[3], buf[4]);
    }
  }

  lemma AcceptedMouseBytesReencode(buf: seq<byte>)
    requires DecodeMouse(buf).Ok?
    ensures EncodeMouse(DecodeMouse(buf).value) == buf
  {
  }

  /** `b` is a tag and a body of `n` bytes. */
  predicate Tagged(b: seq<byte>, tag: int, n: nat) {
    |b| == n + 1 && b[0] == tag
  }

  /** The number in two bytes, the lower one first. */
  function Short(b: seq<byte>, k: nat): int
    requires k + 2 <= |b|
  {
    var lo: int, hi: int := b[k], b[k + 1];
    lo + 0x100 * hi
  }

  /** The bytes at `k` hold `v` in two's complement. */
  predicate HoldsSigned(b: seq<byte>, k: nat, v: i16)
    requires k + 2 <= |b|
  {
    Short(b, k) == if v < 0 then v + 0x1_0000 else v
  }

  /** The numbers of the buttons on the wire. */
  function Buttons(): seq<MouseButton> {
    [Left, Right, Middle, Back, Forward]
  }

  /** Tags, order and widths of the fields on the wire. */
  predicate LaidOut(m: ControlMessage, b: seq<byte>) {
    match m
    case Hello(version) => Tagged(b, 1, 2) && Short(b, 1) == version
    case Key(code, pressed) => Tagged(b, 2, 3) && Short(b, 1) == code && b[3] == if pressed then 1 else 0
    case Button(button, pressed) => Tagged(b, 3, 2) && b[1] < 5 && Buttons()[b[1]] == button && b[2] == if pressed then 1 else 0
    case Wheel(horizontal, vertical) => Tagged(b, 4, 4) && HoldsSigned(b, 1, horizontal) && HoldsSigned(b, 3, vertical)
    case SetBitrate(kbps) => Tagged(b, 5, 4) && Short(b, 1) + 0x1_0000 * Short(b, 3) == kbps
    case ReleaseAll => Tagged(b, 6, 0)
  }

  /** The encoding of a message is the one sequence of bytes that is laid out so. */
  lemma EncodesExactly(m: ControlMessage, b: seq<byte>)
    ensures b == Encode(m) <==> LaidOut(m, b)
  {
    EncodingIsLaidOut(m);
    if LaidOut(m, b) {
      LaidOutOnce(m, Encode(m), b);
    }
  }

  lemma EncodingIsLaidOut(m: ControlMessage)
    ensures LaidOut(m, Encode(m))
  {
    if m.SetBitrate? {
      U32RoundTrip(m.kbps);
    }
  }

  lemma SameShort(b: seq<byte>, c: seq<byte>, k: nat)
    requires k + 2 <= |b| && k + 2 <= |c| && Short(b, k) == Short(c, k)
    ensures b[k] == c[k] && b[k + 1] == c[k + 1]
  {
  }

  lemma SameHalves(a: int, b: int, c: int, d: int)
    requires 0 <= a < 0x1_0000 && 0 <= c < 0x1_0000 && a + 0x1_0000 * b == c + 0x1_0000 * d
    ensures a == c && b == d
  {
  }

  lemma LaidOutOnce(m: ControlMessage, b: seq<byte>, c: seq<byte>)
    requires LaidOut(m, b) && LaidOut(m, c)
    ensures b == c
  {
    match m
    case Hello(_) => SameShort(b, c, 1);
    case Key(_, _) => SameShort(b, c, 1);
    case Wheel(_, _) =>
      SameShort(b, c, 1);
      SameShort(b, c, 3);
    case SetBitrate(_) =>
      SameHalves(Short(b, 1), Short(b, 3), Short(c, 1), Short(c, 3));
      SameShort(b, c, 1);
      SameShort(b, c, 3);
    case _ =>
  }

  /** A buffer is accepted exactly when it is the encoding of a message, up to the pressed byte of a key or
      button message, and that message is the result. */
  lemma AcceptsExactly(buf: seq<byte>, m: ControlMessage)
    ensures Decode(buf) == Ok(m) <==> Encode(m) == Normalised(buf)
  {
    RoundTrip(m);
    if Decode(buf) == Ok(m) {
      AcceptedBytesReencode(buf);
    } else if Encode(m) == Normalised(buf) {
      NormalisedDecodes(buf);
    }
  }

  /** The pressed byte counts only as zero or not. */
  lemma NormalisedDecodes(buf: seq<byte>)
    requires Decode(Normalised(buf)).Ok?
    ensures Decode(buf) == Decode(Normalised(buf))
  {
  }

  /** Every refusal, exactly: no bytes, a tag that no message has, too few or too many bytes for the tag, or a
      field that is out of range. `n` is the length of the encodings with that tag. */
  lemma RefusesExactly(buf: seq<byte>, tag: byte, m: ControlMessage)
    ensures Decode(buf) == Err(Empty) <==> buf == []
    ensures Decode(buf) == Err(UnknownTag(tag)) <==> buf != [] && buf[0] == tag && !(1 <= tag <= 6)
    ensures buf != [] && buf[0] == Encode(m)[0] && |buf| < |Encode(m)| ==> Decode(buf) == Err(Truncated(|Encode(m)|, |buf|))
    ensures buf != [] && buf[0] == Encode(m)[0] && |buf| > |Encode(m)| ==> Decode(buf) == Err(Trailing(|buf| - |Encode(m)|))
    ensures Tagged(buf, 2, 3) && Short(buf, 1) >= 194 <==> Decode(buf).Err? && Decode(buf).error.UnknownKey?
    ensures Tagged(buf, 3, 2) && buf[1] >= 5 <==> Decode(buf).Err? && Decode(buf).error.UnknownButton?
    ensures Tagged(buf, 2, 3) && Short(buf, 1) >= 194 ==> Decode(buf) == Err(UnknownKey(Short(buf, 1)))
    ensures Tagged(buf, 3, 2) && buf[1] >= 5 ==> Decode(buf) == Err(UnknownButton(buf[1]))
  {
    RoundTrip(m);
    assert BodyLength(Encode(m)[0]) == Some(|Encode(m)| - 1);
  }

  /** The encoding of a pointer move is the one sequence of a tag, the column and the row. */
  lemma EncodesMouseExactly(m: MouseMove, b: seq<byte>)
    ensures b == EncodeMouse(m) <==> Tagged(b, 0x10, 4) && Short(b, 1) == m.x && Short(b, 3) == m.y
  {
    var e := EncodeMouse(m);
    if Tagged(b, 0x10, 4) && Short(b, 1) == m.x && Short(b, 3) == m.y {
      SameShort(b, e, 1);
      SameShort(b, e, 3);
    }
  }

  /** No encoding is a prefix of another. */
  lemma PrefixFree(m: ControlMessage, n: ControlMessage)
    requires Encode(m) <= Encode(n)
    ensures m == n
  {
    RoundTrip(m);
    RoundTrip(n);
    assert Encode(m)[0] == Encode(n)[0];
    assert BodyLength(Encode(m)[0]) == Some(|Encode(m)| - 1);
    assert BodyLength(Encode(n)[0]) == Some(|Encode(n)| - 1);
    assert Encode(m) == Encode(n);
  }

  /** A cut encoding is reported as truncated and an extended one as trailing, with the counts. */
  lemma LengthErrorsAreExact(m: ControlMessage, k: nat, extra: seq<byte>)
    ensures 0 < k < |Encode(m)| ==> Decode(Encode(m)[..k]) == Err(Truncated(|Encode(m)|, k))
    ensures extra != [] ==> Decode(Encode(m) + extra) == Err(Trailing(|extra|))
  {
    RoundTrip(m);
    assert BodyLength(Encode(m)[0]) == Some(|Encode(m)| - 1);
    assert (Encode(m) + extra)[0] == Encode(m)[0];
  }

  /** No bytes are accepted on both channels. */
  lemma ChannelsAreDisjoint(buf: seq<byte>)
    ensures !(Decode(buf).Ok? && DecodeMouse(buf).Ok?)
  {
  }
}
