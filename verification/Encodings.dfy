/** What a sender puts on the line, written down on its own - and that the parse reads it back. */
module Encodings {
  import opened Bytes
  import opened Options
  import opened PyInt
  import opened Frames
  import opened FrameProperties
  import Crc
  import Chunking

  // ------------------------------------------------------------------ the senders

  /** Sync characters, class, id, the length in two bytes with the low one first, payload, checksum. */
  function UbxFrame(cls: byte, id: byte, payload: seq<byte>): seq<byte>
    requires |payload| <= 8192
  {
    var body := [cls, id, |payload| % 256, |payload| / 256] + payload;
    [0xB5, 0x62] + body + Crc.FletcherSpec(body)
  }

  function CrcBytes(crc: nat): (b: seq<byte>)
    ensures |b| == 3
  {
    [crc / 0x10000 % 0x100, crc / 0x100 % 0x100, crc % 0x100]
  }

  /** Preamble, six zero bits, the length in ten, payload, the CRC in three bytes with the high one first. */
  ghost function RtcmFrame(payload: seq<byte>): seq<byte>
    requires |payload| < 1024
  {
    var body := [0xD3, |payload| / 256, |payload| % 256] + payload;
    body + CrcBytes(Crc.Crc24qSpec(body))
  }

  /** `$`, the text, `*`, its exclusive or in two hexadecimal digits, CRLF. */
  function NmeaFrame(text: seq<byte>): seq<byte> {
    var check := Crc.XorAll(text) % 256;
    [0x24] + text + [0x2A, UpperDigit(check / 16), UpperDigit(check % 16), 13, 10]
  }

  datatype Sent = Ubx(cls: byte, id: byte, payload: seq<byte>) | Rtcm(payload: seq<byte>) | Nmea(text: seq<byte>)

  /** What fits its format; a sentence goes on one line. */
  predicate Sendable(m: Sent) {
    match m
    case Ubx(_, _, payload) => |payload| <= 8192
    case Rtcm(payload) => |payload| < 1024
    case Nmea(text) => |text| <= 252 && forall i :: 0 <= i < |text| ==> text[i] != 13
  }

  ghost function FrameOf(m: Sent): Frame
    requires Sendable(m)
  {
    match m
    case Ubx(cls, id, payload) => Frame(UBX, UbxFrame(cls, id, payload))
    case Rtcm(payload) => Frame(RTCM3, RtcmFrame(payload))
    case Nmea(text) => Frame(NMEA, NmeaFrame(text))
  }

  ghost predicate AllSendable(ms: seq<Sent>) {
    forall m | m in ms :: Sendable(m)
  }

  ghost function FramesOf(ms: seq<Sent>): seq<Frame>
    requires AllSendable(ms)
  {
    if ms == [] then [] else [FrameOf(ms[0])] + FramesOf(ms[1..])
  }

  /** All of it, one after the other. */
  ghost function Line(ms: seq<Sent>): seq<byte>
    requires AllSendable(ms)
  {
    if ms == [] then [] else FrameOf(ms[0]).raw + Line(ms[1..])
  }

  // ------------------------------------------------------------------ each is a frame

  lemma UbxFrameIsUbx(cls: byte, id: byte, payload: seq<byte>)
    requires |payload| <= 8192
    ensures var raw := UbxFrame(cls, id, payload);
      |raw| == |payload| + 8 && IsUbx(raw) && raw[2] == cls && raw[3] == id && raw[6..|raw| - 2] == payload
  {
    var body := [cls, id, |payload| % 256, |payload| / 256] + payload;
    var raw := UbxFrame(cls, id, payload);
    assert raw == ([0xB5, 0x62] + body) + Crc.FletcherSpec(body);
    assert raw[2..|raw| - 2] == body && raw[|raw| - 2..] == Crc.FletcherSpec(body);
    assert raw[4] == body[2] && raw[5] == body[3];
  }

  lemma NavEoeChecksum()
    ensures Crc.FletcherSpec([1, 0x61, 4, 0, 0, 0, 0, 0]) == [0x66, 0xC7]
  {
  }

  /** A NAV-EOE of iTOW 0 as it is on the wire. */
  lemma NavEoeOnTheWire()
    ensures var raw := [0xB5, 0x62, 0x01, 0x61, 0x04, 0x00, 0x00, 0x00, 0x00, 0x00, 0x66, 0xC7];
      UbxFrame(1, 0x61, [0, 0, 0, 0]) == raw && IsUbx(raw)
  {
    UbxFrameIsUbx(1, 0x61, [0, 0, 0, 0]);
    NavEoeChecksum();
    hide Crc.FletcherSpec;
    assert [1, 0x61, 4, 0] + [0, 0, 0, 0] == [1, 0x61, 4, 0, 0, 0, 0, 0];
  }

  lemma CrcBytesSpell(crc: nat)
    requires crc < Crc.DEGREE
    ensures Value(CrcBytes(crc)) == crc
  {
    var b := CrcBytes(crc);
    assert b[..2][..1] == b[..1] && b[..1][..0] == [];
    var high: nat, middle: nat := b[0], b[1];
    assert Value(b[..1]) == high && Value(b[..2]) == 256 * high + middle;
  }

  lemma RtcmLayout(payload: seq<byte>, body: seq<byte>, tail: seq<byte>)
    requires |payload| < 1024 && |tail| == 3 && body == [0xD3, |payload| / 256, |payload| % 256] + payload
    ensures var raw := body + tail;
      |raw| == |payload| + 6 && raw[0] == RTCM_PREAMBLE && raw[1] < 4 && RtcmPayloadLength(raw) == |payload|
      && raw[3..|raw| - 3] == payload
  {
    var raw := body + tail;
    assert raw[1] == body[1] && raw[2] == body[2];
    assert raw[3..|raw| - 3] == payload;
  }

  lemma RtcmFrameIsRtcm(payload: seq<byte>)
    requires |payload| < 1024
    ensures var raw := RtcmFrame(payload); |raw| == |payload| + 6 && IsRtcm(raw) && raw[3..|raw| - 3] == payload
  {
    hide Crc.Remainder, Value, Shl, CrcBytes, RtcmPayloadLength, Xor;
    var body := [0xD3, |payload| / 256, |payload| % 256] + payload;
    var crc := Crc.Crc24qSpec(body);
    Crc.RemainderReduced(Shl(Value(body), 24));
    CrcBytesSpell(crc);
    Crc.CodewordRemainder(body, CrcBytes(crc));
    RtcmLayout(payload, body, CrcBytes(crc));
  }

  lemma {:induction false} XorIsByte(text: seq<byte>)
    ensures Crc.XorAll(text) < 256
  {
    if text != [] {
      XorIsByte(text[1..]);
      Crc.XorOfBytes(text[0], Crc.XorAll(text[1..]));
    }
  }

  lemma TwoDigitRun(a: byte, b: byte)
    requires IsHexDigit(a) && IsHexDigit(b)
    ensures DigitRun([a, b]) == 2 && Grouped([a, b]) && HexValue([a, b]) == 16 * HexDigit(a) + HexDigit(b)
  {
    var s := [a, b];
    assert s[1..] == [b] && [b][1..] == [] && DigitRun([b]) == 1;
    assert s[..1] == [a] && [a][..0] == [];
    assert HexValue([a]) == HexDigit(a);
  }

  lemma TwoDigits(n: nat)
    requires n < 256
    ensures Int16([UpperDigit(n / 16), UpperDigit(n % 16)]) == Some(n)
    ensures IsHexDigit(UpperDigit(n / 16)) && IsHexDigit(UpperDigit(n % 16))
  {
    var s := [UpperDigit(n / 16), UpperDigit(n % 16)];
    DigitReadBack(n / 16);
    DigitReadBack(n % 16);
    TwoDigitRun(s[0], s[1]);
    assert IsHexDigit(s[0]) && IsHexDigit(s[1]);
    hide UpperDigit, HexDigit, DigitRun, HexValue, Grouped;
    assert SkipSpace(s) == s && SkipPrefix(s) == s;
    assert s[..2] == s && s[2..] == [];
  }

  lemma OneLineEnd(text: seq<byte>, a: byte, b: byte)
    requires (forall i :: 0 <= i < |text| ==> text[i] != CR) && a != CR && b != CR
    ensures NoCrlfIn([0x24] + text + [0x2A, a, b, 13, 10], |text| + 4)
  {
    var raw := [0x24] + text + [0x2A, a, b, 13, 10];
    assert forall k :: 0 <= k < |text| ==> raw[1 + k] == text[k];
  }

  lemma NmeaLayout(text: seq<byte>, a: byte, b: byte)
    ensures var raw, n := [0x24] + text + [0x2A, a, b, 13, 10], |text| + 6;
      |raw| == n && raw[0] == NMEA_START && raw[n - 5] == STAR && raw[n - 4] == a && raw[n - 3] == b
      && raw[n - 2] == CR && raw[n - 1] == LF && raw[1..n - 5] == text && raw[n - 4..n - 2] == [a, b]
  {
  }

  lemma NmeaFrameIsNmea(text: seq<byte>)
    requires Sendable(Nmea(text))
    ensures var raw := NmeaFrame(text); |raw| == |text| + 6 && IsNmea(raw) && raw[1..|raw| - 5] == text
  {
    var check := Crc.XorAll(text);
    XorIsByte(text);
    TwoDigits(check);
    assert check % 256 == check;
    var a, b := UpperDigit(check / 16), UpperDigit(check % 16);
    OneLineEnd(text, a, b);
    NmeaLayout(text, a, b);
    hide Int16, Crc.XorAll, UpperDigit, NoCrlfIn, Sendable;
  }

  lemma SentIsFrame(m: Sent)
    requires Sendable(m)
    ensures var f := FrameOf(m); IsFrame(f.proto, f.raw) && 6 <= |f.raw|
    ensures IsSync(FrameOf(m).raw[0])
  {
    match m
    case Ubx(cls, id, payload) => UbxFrameIsUbx(cls, id, payload);
    case Rtcm(payload) => RtcmFrameIsRtcm(payload);
    case Nmea(text) => NmeaFrameIsNmea(text);
  }

  // ------------------------------------------------------------------ and is read back

  /** The verdict on a frame as sent is that frame, its length and no more, whatever follows. */
  lemma SentIsFound(m: Sent, more: seq<byte>, giveUp: nat)
    requires Sendable(m)
    ensures var f := FrameOf(m); Head(f.raw + more, giveUp) == Complete(f.proto, |f.raw|)
  {
    var f := FrameOf(m);
    SentIsFrame(m);
    assert (f.raw + more)[..|f.raw|] == f.raw;
    HeadFindsFrames(f.raw + more, giveUp, f.proto, |f.raw|);
  }

  /** As long as part of it is missing, it is waited for - a sentence only so long as the framer waits. */
  lemma PartIsAwaited(m: Sent, k: nat, giveUp: nat)
    requires Sendable(m) && 0 < k < |FrameOf(m).raw|
    ensures var part := FrameOf(m).raw[..k];
      Head(part, giveUp) == if m.Nmea? && k >= giveUp then Invalid(false) else Incomplete
  {
    var raw := FrameOf(m).raw;
    SentIsFrame(m);
    SentIsFound(m, [], giveUp);
    assert raw + [] == raw;
    hide FrameOf, Crc.FletcherSpec, Crc.Crc24qSpec, Sentence;
    Chunking.CompleteNeedsAll(raw, k, giveUp);
  }

  /** A UBX header that announces more than 8192 bytes is rejected at once. */
  lemma TooLongRejected(cls: byte, id: byte, n: nat, more: seq<byte>, giveUp: nat)
    requires 8192 < n < 0x10000
    ensures Head([0xB5, 0x62, cls, id, n % 256, n / 256] + more, giveUp) == Invalid(false)
  {
  }

  /** What was sent comes out, in order, with no byte lost or left; then what follows is parsed. */
  lemma {:induction false} SentReadBack(ms: seq<Sent>, more: seq<byte>, giveUp: nat)
    requires AllSendable(ms)
    ensures Parse(Line(ms) + more, giveUp) == Parsed(FramesOf(ms), 0, 0, []).Then(Parse(more, giveUp))
    decreases |ms|
  {
    hide Head, IsFrame, FrameOf;
    if ms == [] {
      assert [] + more == more;
      assert Parsed([], 0, 0, []).Then(Parse(more, giveUp)) == Parse(more, giveUp);
    } else {
      assert ms[0] in ms && forall m | m in ms[1..] :: m in ms;
      var f, rest := FrameOf(ms[0]), Line(ms[1..]) + more;
      SentReadBack(ms[1..], more, giveUp);
      SentIsFound(ms[0], rest, giveUp);
      SentIsFrame(ms[0]);
      Associate(f.raw, Line(ms[1..]), more);
      assert (f.raw + rest)[..|f.raw|] == f.raw && (f.raw + rest)[|f.raw|..] == rest;
      Chunking.ThenAssociates(Parsed([f], 0, 0, []), Parsed(FramesOf(ms[1..]), 0, 0, []), Parse(more, giveUp));
    }
  }

  /** No sentence of more than 256 bytes. */
  predicate InTime(m: Sent) {
    m.Nmea? ==> |m.text| <= 250
  }

  lemma NotLate(m: Sent, more: seq<byte>, h: nat)
    requires Sendable(m) && InTime(m)
    ensures !Chunking.Exposed(FrameOf(m).raw + more, h, NMEA_MAX_LEN)
  {
    var f := FrameOf(m);
    var buf := f.raw + more;
    SentIsFrame(m);
    SentIsFound(m, more, NMEA_MAX_LEN);
    if m.Nmea? {
      NmeaFrameIsNmea(m.text);
      hide IsFrame;
      assert buf[0] == NMEA_START;
      Chunking.CompleteSentence(buf, NMEA_MAX_LEN);
    }
  }

  lemma OneMoreSafe(m: Sent, rest: seq<byte>, h: nat, h': nat)
    requires Sendable(m) && InTime(m)
    requires var f := FrameOf(m); var n := |f.raw|;
      h' == Chunking.Max(Chunking.Horizon(f.raw + rest, h, NMEA_MAX_LEN), n) - n
    requires Chunking.Safe(rest, h', NMEA_MAX_LEN)
    ensures Chunking.Safe(FrameOf(m).raw + rest, h, NMEA_MAX_LEN)
  {
    hide Head, IsFrame, FrameOf, Chunking.Exposed, Chunking.Horizon, Chunking.Max;
    var f := FrameOf(m);
    SentIsFrame(m);
    SentIsFound(m, rest, NMEA_MAX_LEN);
    NotLate(m, rest, h);
    assert (f.raw + rest)[|f.raw|..] == rest;
  }

  lemma {:induction false} LineIsSafe(ms: seq<Sent>, h: nat)
    requires AllSendable(ms) && forall m | m in ms :: InTime(m)
    ensures Chunking.Safe(Line(ms), h, NMEA_MAX_LEN)
    decreases |ms|
  {
    if ms != [] {
      assert ms[0] in ms && forall m | m in ms[1..] :: m in ms;
      SentIsFrame(ms[0]);
      hide Head, IsFrame, FrameOf, Chunking.Horizon, Chunking.Safe;
      var n := |FrameOf(ms[0]).raw|;
      var h' := Chunking.Max(Chunking.Horizon(Line(ms), h, NMEA_MAX_LEN), n) - n;
      LineIsSafe(ms[1..], h');
      OneMoreSafe(ms[0], Line(ms[1..]), h, h');
    }
  }

  /** And so in any pieces, as long as no sentence is longer than the framer waits for. */
  lemma SentInPieces(ms: seq<Sent>, chunks: seq<seq<byte>>)
    requires AllSendable(ms) && (forall m | m in ms :: InTime(m)) && Flatten(chunks) == Line(ms)
    ensures Chunking.FeedAll(chunks, NMEA_MAX_LEN) == Parsed(FramesOf(ms), 0, 0, [])
  {
    LineIsSafe(ms, 0);
    Chunking.SafeChunksAgree(chunks, NMEA_MAX_LEN);
    SentReadBack(ms, [], NMEA_MAX_LEN);
    assert Line(ms) + [] == Line(ms) && FramesOf(ms) + [] == FramesOf(ms);
    assert Parse([], NMEA_MAX_LEN) == Parsed([], 0, 0, []);
  }
}
