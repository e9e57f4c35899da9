/** `core/frames.py` as a mathematical parse: the verdict on one candidate, the parse of a buffer,
    and what chunking does to it. The class that computes it is in `Framer.dfy`. */
module Frames {
  import opened Bytes
  import opened PyInt
  import Crc

  const UBX_SYNC1: byte := 0xB5
  const UBX_SYNC2: byte := 0x62
  const RTCM_PREAMBLE: byte := 0xD3
  const NMEA_START: byte := 0x24
  const STAR: byte := 0x2A
  const CR: byte := 13
  const LF: byte := 10
  const UBX_MAX_PAYLOAD: nat := 8192
  const NMEA_MAX_LEN: nat := 256
  const NMEA_WINDOW: nat := 258 // NMEA_MAX_LEN + 2, the bytes searched for CRLF

  datatype Proto = UBX | RTCM3 | NMEA
  datatype Frame = Frame(proto: Proto, raw: seq<byte>)

  predicate IsSync(b: byte) {
    b == UBX_SYNC1 || b == RTCM_PREAMBLE || b == NMEA_START
  }

  // ------------------------------------------------------------------ the verdict on one candidate

  /** What the framer makes of the bytes at the start of its buffer. */
  datatype Verdict =
    | Incomplete
    | Invalid(checksumError: bool)
    | Complete(proto: Proto, length: nat)

  function UbxPayloadLength(buf: seq<byte>): nat
    requires |buf| >= 6
  {
    (buf[4] as int) + 256 * (buf[5] as int)
  }

  function TryUbx(buf: seq<byte>): Verdict {
    if |buf| < 2 then Incomplete
    else if buf[1] != UBX_SYNC2 then Invalid(false)
    else if |buf| < 6 then Incomplete
    else
      var length := UbxPayloadLength(buf);
      var total := 6 + length + 2;
      if length > UBX_MAX_PAYLOAD then Invalid(false)
      else if |buf| < total then Incomplete
      else if buf[total - 2..total] != Crc.FletcherSpec(buf[2..total - 2]) then Invalid(true)
      else Complete(UBX, total)
  }

  function RtcmPayloadLength(buf: seq<byte>): nat
    requires |buf| >= 3
  {
    (buf[1] as int % 4) * 256 + buf[2] as int
  }

  ghost function TryRtcm(buf: seq<byte>): Verdict {
    if |buf| < 3 then Incomplete
    else if buf[1] / 4 != 0 then Invalid(false)
    else
      var length := RtcmPayloadLength(buf);
      var total := 3 + length + 3;
      if |buf| < total then Incomplete
      else if Crc.Crc24qSpec(buf[..3 + length]) != Value(buf[3 + length..total]) then Invalid(true)
      else Complete(RTCM3, total)
  }

  /** `buf.find(b"\r\n", 0, NMEA_WINDOW)` from index `i` on; -1 if there is none. */
  function FirstCrlf(buf: seq<byte>, i: nat): (end: int)
    ensures end == -1 || (i <= end <= NMEA_WINDOW - 2 && end + 2 <= |buf| && buf[end] == CR && buf[end + 1] == LF)
    ensures forall k :: i <= k && k + 2 <= |buf| && k + 2 <= NMEA_WINDOW && (end == -1 || k < end) ==>
      !(buf[k] == CR && buf[k + 1] == LF)
    decreases NMEA_WINDOW - i
  {
    if i + 2 > |buf| || i + 2 > NMEA_WINDOW then -1
    else if buf[i] == CR && buf[i + 1] == LF then i
    else FirstCrlf(buf, i + 1)
  }

  /** `text.rfind(b"*")`. */
  function LastStar(text: seq<byte>): (star: int)
    ensures -1 <= star < |text| && (star >= 0 ==> text[star] == STAR)
    ensures forall k :: star < k < |text| ==> text[k] != STAR
  {
    if text == [] then -1
    else if text[|text| - 1] == STAR then |text| - 1
    else LastStar(text[..|text| - 1])
  }

  /** The verdict on a `$` candidate whose first CRLF is at `end`. */
  function Sentence(buf: seq<byte>, end: nat): Verdict
    requires end + 2 <= |buf| && buf[0] == NMEA_START
  {
    var star := LastStar(buf[..end]);
    if star < 0 || end - star != 3 then Invalid(false)
    else match Int16(buf[star + 1..end])
      case None => Invalid(false)
      case Some(given) => if given != Crc.XorAll(buf[1..star]) then Invalid(true) else Complete(NMEA, end + 2)
  }

  /** `giveUp` is how many bytes without CRLF the framer waits for: `NMEA_MAX_LEN` in the code. */
  function TryNmea(buf: seq<byte>, giveUp: nat): Verdict
    requires buf != [] && buf[0] == NMEA_START
  {
    var end := FirstCrlf(buf, 0);
    if end >= 0 then Sentence(buf, end)
    else if |buf| < giveUp then Incomplete
    else Invalid(false)
  }

  ghost function Head(buf: seq<byte>, giveUp: nat): (v: Verdict)
    requires buf != []
    ensures v.Complete? ==> 5 <= v.length <= |buf|
    ensures v.Incomplete? ==> |buf| < 6 + UBX_MAX_PAYLOAD + 2 || |buf| < giveUp
  {
    if buf[0] == UBX_SYNC1 then TryUbx(buf)
    else if buf[0] == RTCM_PREAMBLE then TryRtcm(buf)
    else if buf[0] == NMEA_START then TryNmea(buf, giveUp)
    else Invalid(false)
  }

  /** How many bytes a decided verdict takes off the buffer. */
  ghost function Advance(v: Verdict): (n: nat)
    requires !v.Incomplete?
  {
    if v.Complete? then v.length else 1
  }

  // ------------------------------------------------------------------ the parse of a buffer

  datatype Parsed = Parsed(frames: seq<Frame>, garbage: nat, errors: nat, rest: seq<byte>) {
    /** This parse, followed by one that went on from where it stopped. */
    function Then(next: Parsed): Parsed {
      Parsed(frames + next.frames, garbage + next.garbage, errors + next.errors, next.rest)
    }
  }

  /** What one decided verdict contributes. */
  function Step(buf: seq<byte>, v: Verdict): Parsed
    requires !v.Incomplete? && (v.Complete? ==> v.length <= |buf|)
  {
    match v
    case Complete(proto, n) => Parsed([Frame(proto, buf[..n])], 0, 0, [])
    case Invalid(e) => Parsed([], 1, if e then 1 else 0, [])
  }

  ghost function Parse(buf: seq<byte>, giveUp: nat): Parsed {
    if buf == [] then Parsed([], 0, 0, [])
    else
      var v := Head(buf, giveUp);
      if v.Incomplete? then Parsed([], 0, 0, buf)
      else Step(buf, v).Then(Parse(buf[Advance(v)..], giveUp))
  }
}
