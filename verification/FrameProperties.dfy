/** What the parse of a byte stream means: which frames come out, that every byte is accounted for,
    how much is ever held back, and which damage is noticed. */
module FrameProperties {
  import opened Bytes
  import opened Options
  import opened PyInt
  import opened Frames
  import Crc
  import Chunking

  // ------------------------------------------------------------------ what a frame is

  /** Sync characters and little-endian length. */
  predicate UbxShape(raw: seq<byte>) {
    |raw| >= 8 && raw[0] == UBX_SYNC1 && raw[1] == UBX_SYNC2
    && |raw| == 8 + UbxPayloadLength(raw) && UbxPayloadLength(raw) <= UBX_MAX_PAYLOAD
  }

  /** And the closed-form checksum over class to payload. */
  predicate IsUbx(raw: seq<byte>) {
    UbxShape(raw) && raw[|raw| - 2..] == Crc.FletcherSpec(raw[2..|raw| - 2])
  }

  /** Preamble, six reserved zero bits and length. */
  predicate RtcmShape(raw: seq<byte>) {
    |raw| >= 6 && raw[0] == RTCM_PREAMBLE && raw[1] < 4 && |raw| == 6 + RtcmPayloadLength(raw)
  }

  /** And as a polynomial, a multiple of the generator. */
  ghost predicate IsRtcm(raw: seq<byte>) {
    RtcmShape(raw) && Crc.Remainder(Value(raw)) == 0
  }

  ghost predicate NoCrlfIn(text: seq<byte>, end: nat)
    requires end < |text|
  {
    forall k :: 0 <= k < end ==> !(text[k] == CR && text[k + 1] == LF)
  }

  /** `$`, body, `*`, two characters that Python reads as a number, CRLF - the only one. */
  ghost predicate NmeaShape(raw: seq<byte>) {
    var n := |raw|;
    6 <= n <= NMEA_WINDOW && raw[0] == NMEA_START
    && raw[n - 5] == STAR && raw[n - 4] != STAR && raw[n - 3] != STAR && raw[n - 2] == CR && raw[n - 1] == LF
    && NoCrlfIn(raw, n - 2)
    && Int16(raw[n - 4..n - 2]).Some?
  }

  /** And that number is the XOR of the body. */
  ghost predicate IsNmea(raw: seq<byte>) {
    NmeaShape(raw) && Int16(raw[|raw| - 4..|raw| - 2]) == Some(Crc.XorAll(raw[1..|raw| - 5]))
  }

  ghost predicate IsFrame(proto: Proto, raw: seq<byte>) {
    match proto
    case UBX => IsUbx(raw)
    case RTCM3 => IsRtcm(raw)
    case NMEA => IsNmea(raw)
  }

  /** Of the shape of a frame, but its checksum is another. */
  ghost predicate IsDamaged(proto: Proto, raw: seq<byte>) {
    !IsFrame(proto, raw)
    && match proto
       case UBX => UbxShape(raw)
       case RTCM3 => RtcmShape(raw)
       case NMEA => NmeaShape(raw)
  }

  lemma RtcmChecksum(raw: seq<byte>)
    requires |raw| >= 3
    ensures Crc.Crc24qSpec(raw[..|raw| - 3]) == Value(raw[|raw| - 3..]) <==> Crc.Remainder(Value(raw)) == 0
  {
    assert raw == raw[..|raw| - 3] + raw[|raw| - 3..];
    Crc.CodewordRemainder(raw[..|raw| - 3], raw[|raw| - 3..]);
  }

  lemma UbxFound(buf: seq<byte>, n: nat)
    requires n <= |buf| && buf != [] && buf[0] == UBX_SYNC1
    ensures TryUbx(buf) == Complete(UBX, n) <==> IsUbx(buf[..n])
  {
    if |buf| >= 6 && n >= 8 && n == 8 + UbxPayloadLength(buf) {
      assert buf[..n][n - 2..] == buf[n - 2..n];
      assert buf[..n][2..n - 2] == buf[2..n - 2];
    }
  }

  lemma RtcmFound(buf: seq<byte>, n: nat)
    requires n <= |buf| && buf != [] && buf[0] == RTCM_PREAMBLE
    ensures TryRtcm(buf) == Complete(RTCM3, n) <==> IsRtcm(buf[..n])
  {
    if |buf| >= 3 && n >= 6 && n == 6 + RtcmPayloadLength(buf) {
      assert buf[..n][n - 3..] == buf[n - 3..n];
      assert buf[..n][..n - 3] == buf[..n - 3];
      RtcmChecksum(buf[..n]);
    }
  }

  lemma StarBefore(buf: seq<byte>, end: nat)
    requires 4 <= end <= |buf| && buf[0] == NMEA_START
    ensures LastStar(buf[..end]) == end - 3 <==> buf[end - 3] == STAR && buf[end - 2] != STAR && buf[end - 1] != STAR
  {
    var text := buf[..end];
    assert text[end - 3] == buf[end - 3] && text[end - 2] == buf[end - 2] && text[end - 1] == buf[end - 1];
  }

  lemma SliceOfPrefix(buf: seq<byte>, m: nat, i: nat, j: nat)
    requires i <= j <= m <= |buf|
    ensures buf[..m][i..j] == buf[i..j]
  {
  }

  lemma FirstInPrefix(buf: seq<byte>, end: nat)
    requires end == FirstCrlf(buf, 0)
    ensures end + 2 <= |buf| && end + 2 <= NMEA_WINDOW && buf[end] == CR && buf[end + 1] == LF
    ensures NoCrlfIn(buf[..end + 2], end)
  {
    var raw := buf[..end + 2];
    assert forall k :: 0 <= k < end + 2 ==> raw[k] == buf[k];
  }

  lemma SentenceSound(buf: seq<byte>, end: nat)
    requires buf != [] && buf[0] == NMEA_START && end == FirstCrlf(buf, 0)
    requires Sentence(buf, end) == Complete(NMEA, end + 2)
    ensures IsNmea(buf[..end + 2])
  {
    hide FirstCrlf, LastStar, Int16, Crc.XorAll, NoCrlfIn;
    FirstInPrefix(buf, end);
    var star := LastStar(buf[..end]);
    assert buf[..end][star] == buf[star];
    StarBefore(buf, end);
    SliceOfPrefix(buf, end + 2, star + 1, end);
    SliceOfPrefix(buf, end + 2, 1, star);
  }

  lemma SentenceFound(buf: seq<byte>, end: nat)
    requires buf != [] && buf[0] == NMEA_START && end + 2 <= |buf|
    requires IsNmea(buf[..end + 2])
    ensures Sentence(buf, end) == Complete(NMEA, end + 2)
  {
    hide FirstCrlf, LastStar, Int16, Crc.XorAll, NoCrlfIn;
    StarBefore(buf, end);
    SliceOfPrefix(buf, end + 2, end - 2, end);
    SliceOfPrefix(buf, end + 2, 1, end - 3);
  }

  lemma NmeaFound(buf: seq<byte>, n: nat, giveUp: nat)
    requires n <= |buf| && buf != [] && buf[0] == NMEA_START
    ensures TryNmea(buf, giveUp) == Complete(NMEA, n) <==> IsNmea(buf[..n])
  {
    var raw := buf[..n];
    if IsNmea(raw) {
      assert raw[n - 2] == buf[n - 2] && raw[n - 1] == buf[n - 1];
      var end := FirstCrlf(buf, 0);
      assert 0 <= end <= n - 2;
      assert raw[end] == buf[end] && raw[end + 1] == buf[end + 1];
      assert end == n - 2;
      SentenceFound(buf, end);
    } else if TryNmea(buf, giveUp) == Complete(NMEA, n) {
      SentenceSound(buf, n - 2);
    }
  }

  /** The framer's verdict is `Complete` exactly when a frame starts here, and then it is that frame. */
  lemma HeadFindsFrames(buf: seq<byte>, giveUp: nat, proto: Proto, n: nat)
    requires buf != [] && n <= |buf|
    ensures Head(buf, giveUp) == Complete(proto, n) <==> IsFrame(proto, buf[..n])
  {
    if buf[0] == UBX_SYNC1 {
      UbxFound(buf, n);
    } else if buf[0] == RTCM_PREAMBLE {
      RtcmFound(buf, n);
    } else if buf[0] == NMEA_START {
      NmeaFound(buf, n, giveUp);
    }
  }

  ghost predicate StartsDamaged(buf: seq<byte>, proto: Proto, n: nat) {
    n <= |buf| && IsDamaged(proto, buf[..n])
  }

  lemma UbxDamaged(buf: seq<byte>, n: nat)
    requires buf != [] && buf[0] == UBX_SYNC1
    ensures StartsDamaged(buf, UBX, n) ==> TryUbx(buf) == Invalid(true)
    ensures TryUbx(buf) == Invalid(true) && n == 8 + UbxPayloadLength(buf) ==> StartsDamaged(buf, UBX, n)
  {
    if n <= |buf| {
      UbxFound(buf, n);
      hide Crc.FletcherSpec;
    }
  }

  lemma RtcmDamaged(buf: seq<byte>, n: nat)
    requires buf != [] && buf[0] == RTCM_PREAMBLE
    ensures StartsDamaged(buf, RTCM3, n) ==> TryRtcm(buf) == Invalid(true)
    ensures TryRtcm(buf) == Invalid(true) && n == 6 + RtcmPayloadLength(buf) ==> StartsDamaged(buf, RTCM3, n)
  {
    if n <= |buf| {
      RtcmFound(buf, n);
      hide Crc.Crc24qSpec, Crc.Remainder, Value;
    }
  }

  lemma SentenceShape(buf: seq<byte>, end: nat, v: Verdict)
    requires buf != [] && buf[0] == NMEA_START && end + 2 <= |buf| && v == Sentence(buf, end)
    requires end + 2 <= NMEA_WINDOW && buf[end] == CR && buf[end + 1] == LF && NoCrlfIn(buf[..end + 2], end)
    ensures v == Invalid(true) || v == Complete(NMEA, end + 2) <==> NmeaShape(buf[..end + 2])
  {
    hide LastStar, Int16, Crc.XorAll, NoCrlfIn;
    var star := LastStar(buf[..end]);
    if end >= 4 {
      StarBefore(buf, end);
      SliceOfPrefix(buf, end + 2, end - 2, end);
    }
    if 0 <= star && end - star == 3 {
      assert buf[..end][star] == buf[star];
    }
  }

  lemma NmeaDamaged(buf: seq<byte>, n: nat, giveUp: nat)
    requires buf != [] && buf[0] == NMEA_START
    ensures StartsDamaged(buf, NMEA, n) ==> TryNmea(buf, giveUp) == Invalid(true)
    ensures TryNmea(buf, giveUp) == Invalid(true) && n == FirstCrlf(buf, 0) + 2 ==> StartsDamaged(buf, NMEA, n)
  {
    var end := FirstCrlf(buf, 0);
    if StartsDamaged(buf, NMEA, n) {
      var raw := buf[..n];
      assert raw[n - 2] == buf[n - 2] && raw[n - 1] == buf[n - 1];
      assert 0 <= end <= n - 2;
      assert raw[end] == buf[end] && raw[end + 1] == buf[end + 1];
      assert end == n - 2;
    }
    if end >= 0 {
      FirstInPrefix(buf, end);
      SentenceShape(buf, end, Sentence(buf, end));
      NmeaFound(buf, end + 2, giveUp);
      hide FirstCrlf, Sentence, NmeaShape, IsNmea;
    }
  }

  /** A checksum error is counted exactly where something starts that has the shape of a frame and not its
      checksum. */
  lemma ErrorsExactly(buf: seq<byte>, giveUp: nat)
    requires buf != []
    ensures Head(buf, giveUp) == Invalid(true) <==> exists proto: Proto, n: nat :: StartsDamaged(buf, proto, n)
  {
    forall proto: Proto, n: nat | StartsDamaged(buf, proto, n)
      ensures Head(buf, giveUp) == Invalid(true)
    {
      assert buf[..n][0] == buf[0];
      match proto
      case UBX => UbxDamaged(buf, n);
      case RTCM3 => RtcmDamaged(buf, n);
      case NMEA => NmeaDamaged(buf, n, giveUp);
    }
    if Head(buf, giveUp) == Invalid(true) {
      if buf[0] == UBX_SYNC1 {
        UbxDamaged(buf, 8 + UbxPayloadLength(buf));
      } else if buf[0] == RTCM_PREAMBLE {
        RtcmDamaged(buf, 6 + RtcmPayloadLength(buf));
      } else {
        NmeaDamaged(buf, FirstCrlf(buf, 0) + 2, giveUp);
      }
    }
  }

  // ------------------------------------------------------------------ leftmost, greedy

  ghost predicate StartsFrame(stream: seq<byte>, proto: Proto, n: nat) {
    1 <= n <= |stream| && IsFrame(proto, stream[..n])
  }

  /** The reference: at each position take the frame that starts there, if one does; else go on by a byte. */
  ghost function Greedy(stream: seq<byte>): seq<Frame>
    decreases |stream|
  {
    if stream == [] then []
    else if exists proto: Proto, n: nat :: StartsFrame(stream, proto, n) then
      var proto: Proto, n: nat :| StartsFrame(stream, proto, n);
      [Frame(proto, stream[..n])] + Greedy(stream[n..])
    else Greedy(stream[1..])
  }

  /** The frames that come out are the leftmost-greedy split of the stream, as far as it got: what is
      held back splits into the rest of them. */
  lemma {:induction false} ParseIsGreedy(stream: seq<byte>, giveUp: nat)
    ensures Greedy(stream) == Parse(stream, giveUp).frames + Greedy(Parse(stream, giveUp).rest)
    decreases |stream|
  {
    hide Head, IsFrame;
    if stream != [] {
      var v := Head(stream, giveUp);
      forall proto: Proto, n: nat | StartsFrame(stream, proto, n)
        ensures v == Complete(proto, n)
      {
        HeadFindsFrames(stream, giveUp, proto, n);
      }
      if v.Complete? {
        Chunking.AdvanceWithin(stream, giveUp);
        HeadFindsFrames(stream, giveUp, v.proto, v.length);
        assert StartsFrame(stream, v.proto, v.length);
        ParseIsGreedy(stream[v.length..], giveUp);
        var tail := Parse(stream[v.length..], giveUp);
        assert [Frame(v.proto, stream[..v.length])] + (tail.frames + Greedy(tail.rest))
          == ([Frame(v.proto, stream[..v.length])] + tail.frames) + Greedy(tail.rest);
      } else if v.Invalid? {
        ParseIsGreedy(stream[1..], giveUp);
        assert Parse(stream, giveUp).frames == Parse(stream[1..], giveUp).frames;
      }
    }
  }

  // ------------------------------------------------------------------ accounting

  function Raws(frames: seq<Frame>): seq<seq<byte>> {
    if frames == [] then [] else [frames[0].raw] + Raws(frames[1..])
  }

  ghost predicate OccursAt(piece: seq<byte>, stream: seq<byte>, p: nat) {
    p + |piece| <= |stream| && stream[p..p + |piece|] == piece
  }

  /** The pieces occur in the stream one after the other, without overlap. */
  ghost predicate InOrder(pieces: seq<seq<byte>>, stream: seq<byte>) {
    pieces == [] || exists p: nat :: OccursAt(pieces[0], stream, p) && InOrder(pieces[1..], stream[p + |pieces[0]|..])
  }

  lemma InOrderLater(pieces: seq<seq<byte>>, stream: seq<byte>)
    requires stream != [] && InOrder(pieces, stream[1..])
    ensures InOrder(pieces, stream)
  {
    if pieces != [] {
      var p: nat :| OccursAt(pieces[0], stream[1..], p) && InOrder(pieces[1..], stream[1..][p + |pieces[0]|..]);
      assert stream[1..][p..p + |pieces[0]|] == stream[p + 1..p + 1 + |pieces[0]|];
      assert stream[1..][p + |pieces[0]|..] == stream[p + 1 + |pieces[0]|..];
      assert OccursAt(pieces[0], stream, p + 1);
    }
  }

  /** Pieces in order in one string and pieces in order in the next are in order in both together. */
  lemma {:induction false} InOrderConcat(a: seq<seq<byte>>, s: seq<byte>, b: seq<seq<byte>>, t: seq<byte>)
    requires InOrder(a, s) && InOrder(b, t)
    ensures InOrder(a + b, s + t)
    decreases |a| + |s|
  {
    if a == [] {
      assert a + b == b;
      if s == [] {
        assert s + t == t;
      } else {
        InOrderConcat(a, s[1..], b, t);
        assert (s + t)[1..] == s[1..] + t;
        InOrderLater(b, s + t);
      }
    } else {
      var p: nat :| OccursAt(a[0], s, p) && InOrder(a[1..], s[p + |a[0]|..]);
      var n := p + |a[0]|;
      InOrderConcat(a[1..], s[n..], b, t);
      assert (a + b)[1..] == a[1..] + b && (s + t)[n..] == s[n..] + t;
      assert (s + t)[p..n] == s[p..n];
      assert OccursAt((a + b)[0], s + t, p);
    }
  }

  lemma {:induction false} RawsAppend(a: seq<Frame>, b: seq<Frame>)
    ensures Raws(a + b) == Raws(a) + Raws(b)
  {
    if a == [] {
      assert a + b == b;
    } else {
      RawsAppend(a[1..], b);
      assert (a + b)[1..] == a[1..] + b;
      Associate([a[0].raw], Raws(a[1..]), Raws(b));
    }
  }

  lemma Slices(s: seq<byte>, n: nat, m: nat)
    requires n + m <= |s|
    ensures s[..|s| - m] == s[..n] + s[n..][..|s[n..]| - m]
    ensures s[|s| - m..] == s[n..][|s[n..]| - m..]
  {
  }

  lemma OnePiece(piece: seq<byte>)
    ensures InOrder([piece], piece) && InOrder([], piece)
    ensures Raws([]) == [] && Flatten([]) == []
    ensures forall f: Frame :: f.raw == piece ==> Raws([f]) == [piece]
  {
    var p: nat := 0;
    assert OccursAt([piece][0], piece, p);
    assert [piece][1..] == [] && InOrder([piece][1..], piece[p + |[piece][0]|..]);
  }

  lemma OneStep(stream: seq<byte>, v: Verdict, n: nat, tail: Parsed)
    requires !v.Incomplete? && n == Advance(v) <= |stream|
    requires |stream[n..]| == |Flatten(Raws(tail.frames))| + tail.garbage + |tail.rest|
    requires tail.rest == stream[n..][|stream[n..]| - |tail.rest|..]
    requires InOrder(Raws(tail.frames), stream[n..][..|stream[n..]| - |tail.rest|])
    ensures var p := Step(stream, v).Then(tail);
      |stream| == |Flatten(Raws(p.frames))| + p.garbage + |p.rest|
      && p.rest == stream[|stream| - |p.rest|..]
      && InOrder(Raws(p.frames), stream[..|stream| - |p.rest|])
  {
    hide InOrder, Raws, Flatten;
    var first: seq<Frame> := if v.Complete? then [Frame(v.proto, stream[..n])] else [];
    var gone := stream[n..][..|stream[n..]| - |tail.rest|];
    Slices(stream, n, |tail.rest|);
    RawsAppend(first, tail.frames);
    OnePiece(stream[..n]);
    FlattenAppend(Raws(first), Raws(tail.frames));
    FlattenSingle(stream[..n]);
    InOrderConcat(Raws(first), stream[..n], Raws(tail.frames), gone);
  }

  /** Every byte fed came out in a frame, was counted as garbage, or is still held; and the frames
      are pieces of what is not held any more, in order and disjoint. */
  lemma {:induction false} Accounting(stream: seq<byte>, giveUp: nat)
    ensures var p := Parse(stream, giveUp);
      |stream| == |Flatten(Raws(p.frames))| + p.garbage + |p.rest|
      && p.rest == stream[|stream| - |p.rest|..]
      && InOrder(Raws(p.frames), stream[..|stream| - |p.rest|])
      && p.errors <= p.garbage
    decreases |stream|
  {
    hide Head, InOrder, Raws, Flatten;
    if stream != [] && !Head(stream, giveUp).Incomplete? {
      var v := Head(stream, giveUp);
      var n := Advance(v);
      Chunking.AdvanceWithin(stream, giveUp);
      Chunking.ParseStep(stream, giveUp);
      Accounting(stream[n..], giveUp);
      OneStep(stream, v, n, Parse(stream[n..], giveUp));
    } else {
      OnePiece([]);
      assert stream[..0] == [];
    }
  }

  const MOST_HELD: nat := 6 + UBX_MAX_PAYLOAD + 2 - 1

  /** What is held back is one unfinished candidate: never more than 8199 bytes, and parsing it again
      changes nothing. */
  lemma {:induction false} HeldBack(stream: seq<byte>, giveUp: nat)
    requires giveUp <= MOST_HELD + 1
    ensures var rest := Parse(stream, giveUp).rest;
      |rest| <= MOST_HELD && Parse(rest, giveUp) == Parsed([], 0, 0, rest)
    decreases |stream|
  {
    if stream != [] && !Head(stream, giveUp).Incomplete? {
      HeldBack(stream[Advance(Head(stream, giveUp))..], giveUp);
    }
  }

  // ------------------------------------------------------------------ damage that is noticed

  /** A candidate rejected on its own bytes is rejected whatever follows it. */
  lemma RejectedInStream(raw: seq<byte>, more: seq<byte>, giveUp: nat)
    requires raw != [] && raw[0] != NMEA_START && Head(raw, giveUp) == Invalid(true)
    ensures Head(raw + more, giveUp) == Invalid(true)
  {
    assert (raw + more)[..|raw|] == raw;
    Chunking.HeadOfPrefix(raw + more, |raw|, giveUp);
  }

  /** A UBX frame with one byte changed - any but the sync characters and the length - is rejected. */
  lemma UbxChangeRejected(raw: seq<byte>, i: nat, x: byte, more: seq<byte>, giveUp: nat)
    requires IsUbx(raw) && i < |raw| && i !in {0, 1, 4, 5} && x != raw[i]
    ensures Head(raw[i := x] + more, giveUp) == Invalid(true)
  {
    var bad, n := raw[i := x], |raw|;
    if i < n - 2 {
      assert bad[2..n - 2] == raw[2..n - 2][i - 2 := x];
      assert bad[n - 2..] == raw[n - 2..];
      Crc.FletcherDetectsChange(raw[2..n - 2], i - 2, x);
    } else {
      assert bad[2..n - 2] == raw[2..n - 2];
      assert bad[n - 2..][i - (n - 2)] == x != raw[n - 2..][i - (n - 2)];
    }
    RejectedInStream(bad, more, giveUp);
  }

  lemma UbxParts(raw: seq<byte>)
    requires IsUbx(raw)
    ensures |raw| >= 8 && raw[0] == UBX_SYNC1 && raw[1] == UBX_SYNC2
    ensures |raw| == 8 + UbxPayloadLength(raw) && UbxPayloadLength(raw) <= UBX_MAX_PAYLOAD
    ensures raw[|raw| - 2..] == Crc.FletcherSpec(raw[2..|raw| - 2])
  {
  }

  /** Swapping two neighbours between the header and the checksum leaves both alone. */
  lemma SwapInside(raw: seq<byte>, i: nat)
    requires |raw| >= 8 && (i == 2 || 6 <= i < |raw| - 3)
    ensures var bad, n := Crc.SwapAdjacent(raw, i), |raw|;
      bad[2..n - 2] == Crc.SwapAdjacent(raw[2..n - 2], i - 2) && bad[n - 2..] == raw[n - 2..]
      && bad[0] == raw[0] && bad[1] == raw[1] && UbxPayloadLength(bad) == UbxPayloadLength(raw)
  {
    var bad, n := Crc.SwapAdjacent(raw, i), |raw|;
    var a, b := bad[2..n - 2], Crc.SwapAdjacent(raw[2..n - 2], i - 2);
    forall k | 0 <= k < |a|
      ensures a[k] == b[k]
    {
      assert a[k] == bad[k + 2] && raw[2..n - 2][k] == raw[k + 2];
    }
  }

  lemma UbxRejected(got: seq<byte>, more: seq<byte>, giveUp: nat)
    requires |got| >= 8 && got[0] == UBX_SYNC1 && got[1] == UBX_SYNC2
    requires |got| == 8 + UbxPayloadLength(got) && UbxPayloadLength(got) <= UBX_MAX_PAYLOAD
    requires got[|got| - 2..] != Crc.FletcherSpec(got[2..|got| - 2])
    ensures Head(got + more, giveUp) == Invalid(true)
  {
    hide Crc.FletcherSpec;
    assert got[|got| - 2..|got|] == got[|got| - 2..];
    RejectedInStream(got, more, giveUp);
  }

  /** So is one with two unequal neighbours swapped, within class and id or within the payload. */
  lemma UbxSwapRejected(raw: seq<byte>, i: nat, more: seq<byte>, giveUp: nat)
    requires IsUbx(raw) && (i == 2 || 6 <= i < |raw| - 3) && raw[i] != raw[i + 1]
    ensures Head(Crc.SwapAdjacent(raw, i) + more, giveUp) == Invalid(true)
  {
    hide IsUbx, Head, Crc.FletcherSpec;
    UbxParts(raw);
    var bad, n := Crc.SwapAdjacent(raw, i), |raw|;
    SwapInside(raw, i);
    Crc.FletcherDetectsSwap(raw[2..n - 2], i - 2);
    UbxRejected(bad, more, giveUp);
  }

  lemma RtcmRejected(got: seq<byte>, more: seq<byte>, giveUp: nat)
    requires |got| >= 6 && got[0] == RTCM_PREAMBLE && got[1] < 4 && |got| == 6 + RtcmPayloadLength(got)
    requires Crc.Remainder(Value(got)) != 0
    ensures Head(got + more, giveUp) == Invalid(true)
  {
    hide Crc.Remainder, Value, Crc.Crc24qSpec;
    RtcmChecksum(got);
    assert got[..|got|] == got;
    RejectedInStream(got, more, giveUp);
  }

  /** An RTCM 3 frame hit behind its header by any burst of at most 24 bits is rejected. */
  lemma RtcmBurstRejected(raw: seq<byte>, got: seq<byte>, burst: nat, k: nat, more: seq<byte>, giveUp: nat)
    requires IsRtcm(raw) && |got| == |raw| && got[..3] == raw[..3]
    requires 0 < burst < Crc.DEGREE && Value(got) == Xor(Value(raw), Shl(burst, k))
    ensures Head(got + more, giveUp) == Invalid(true)
  {
    hide Crc.Remainder, Xor, Shl, Value, Head;
    Crc.BurstDetected(raw, got, burst, k);
    assert got[0] == got[..3][0] && got[1] == got[..3][1] && got[2] == got[..3][2];
    assert raw[0] == raw[..3][0] && raw[1] == raw[..3][1] && raw[2] == raw[..3][2];
    RtcmRejected(got, more, giveUp);
  }

  // ------------------------------------------------------------------ the sentence the code can cut

  function As(n: nat): (s: seq<byte>)
    ensures |s| == n && forall i :: 0 <= i < n ==> s[i] == 65
  {
    seq(n, _ => 65)
  }

  /** 257 bytes: `$`, 251 letters A, `*41`, CRLF. */
  function LateSentence(): seq<byte> {
    [NMEA_START] + As(251) + [STAR, 52, 49, CR, LF]
  }

  lemma {:induction false} XorOfAs(n: nat)
    ensures Crc.XorAll(As(n)) == if n % 2 == 0 then 0 else 65
  {
    if n > 0 {
      assert As(n)[1..] == As(n - 1);
      XorOfAs(n - 1);
      XorZero(65);
      XorVanishes(65, 65);
    }
  }

  lemma FortyOne()
    ensures Int16([52, 49]) == Some(65)
  {
    var s: seq<byte> := [52, 49];
    assert SkipSpace(s) == s && SkipPrefix(s) == s;
    assert s[1..] == [49] && [49][1..] == [] && DigitRun([49]) == 1;
    assert DigitRun(s) == 2 && s[..2] == s && s[2..] == [];
    assert s[..1] == [52] && [52][..0] == [];
    assert HexValue([52]) == 4;
  }

  lemma LateSentenceIsFrame()
    ensures var s := LateSentence(); |s| == 257 && s[0] == NMEA_START && IsNmea(s) && FirstCrlf(s, 0) == 255
  {
    var s := LateSentence();
    XorOfAs(251);
    FortyOne();
    hide Int16, Crc.XorAll;
    assert s[1..252] == As(251);
    assert s[253..255] == [52, 49];
    assert s[255] == CR && s[256] == LF;
    assert forall k :: 0 < k < 252 ==> s[k] == 65;
  }

  lemma WholeSentence(s: seq<byte>)
    requires |s| == 257 && Head(s, NMEA_MAX_LEN) == Complete(NMEA, 257)
    ensures Parse(s, NMEA_MAX_LEN).frames == [Frame(NMEA, s)]
  {
    hide Head;
    assert s[..257] == s && s[257..] == [];
  }

  lemma CutLateSentence(s: seq<byte>)
    requires |s| == 257 && s[0] == NMEA_START && FirstCrlf(s, 0) == 255 && Head(s, NMEA_MAX_LEN) == Complete(NMEA, 257)
    ensures Chunking.FeedAll([s[..256], s[256..]], NMEA_MAX_LEN) != Parse(s, NMEA_MAX_LEN)
  {
    assert Chunking.Clipped(s, 256, NMEA_MAX_LEN);
    hide *;
    Chunking.CutSentenceDiverges(s, 256, NMEA_MAX_LEN);
    Chunking.TwoChunks(s[..256], s[256..], NMEA_MAX_LEN);
  }

  lemma WaitedSentence(s: seq<byte>)
    requires |s| == 257
    ensures Chunking.FeedAll([s[..256], s[256..]], NMEA_WINDOW) == Parse(s, NMEA_WINDOW)
  {
    hide Head, Parse, Chunking.Safe, Chunking.FeedAll;
    Chunking.WiderWaitIsSafe(s, 0, NMEA_WINDOW);
    Chunking.TwoChunks(s[..256], s[256..], NMEA_WINDOW);
    assert s[..256] + s[256..] == s;
    Chunking.SafeChunksAgree([s[..256], s[256..]], NMEA_WINDOW);
  }

  /** Fed whole, the sentence is a frame; fed as 256 bytes and one, it is lost. A framer that waited
      for the two bytes more that it searches would find it either way. */
  lemma ChunkingWitness()
    ensures var s := LateSentence();
      IsFrame(NMEA, s) && Parse(s, NMEA_MAX_LEN).frames == [Frame(NMEA, s)]
      && Chunking.FeedAll([s[..256], s[256..]], NMEA_MAX_LEN) != Parse(s, NMEA_MAX_LEN)
      && Chunking.FeedAll([s[..256], s[256..]], NMEA_WINDOW) == Parse(s, NMEA_WINDOW)
  {
    hide Head, Parse, Chunking.FeedAll, FirstCrlf, IsNmea, LateSentence;
    var s := LateSentence();
    LateSentenceIsFrame();
    assert s[..257] == s && s[257..] == [];
    assert s[..256] + s[256..] == s;
    HeadFindsFrames(s, NMEA_MAX_LEN, NMEA, 257);
    WholeSentence(s);
    CutLateSentence(s);
    WaitedSentence(s);
  }
}
