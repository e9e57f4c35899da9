/** The correction stream end to end: the caster's bounded queue and write loop
    (`base/ntrip_caster.py`), and the client that takes the frames out again (`rover/ntrip_client.py`). */
module Ntrip {
  import opened Bytes
  import opened Options
  import opened Frames
  import opened FrameProperties
  import opened Chunking
  import opened FramerModule
  import opened Wire

  type Raw = seq<byte>

  const CLIENT_QUEUE_FRAMES: nat := 64
  const READ_SIZE: nat := 4096
  const TERMINATOR: Raw := [] // the empty frame wakes and ends a stream

  // ------------------------------------------------------------------ the caster

  /** What has become of each frame that has left the queue: sent, or dropped as the oldest. */
  function Sent(offered: seq<Raw>, fates: seq<bool>): seq<Raw>
    requires |fates| <= |offered|
  {
    if fates == [] then []
    else
      var n := |fates| - 1;
      Sent(offered, fates[..n]) + if fates[n] then [offered[n]] else []
  }

  function Dropped(fates: seq<bool>): nat {
    if fates == [] then 0
    else Dropped(fates[..|fates| - 1]) + if fates[|fates| - 1] then 0 else 1
  }

  lemma {:induction false} SentSame(offered: seq<Raw>, more: seq<Raw>, fates: seq<bool>)
    requires |fates| <= |offered|
    ensures Sent(offered + more, fates) == Sent(offered, fates)
  {
    if fates != [] {
      SentSame(offered, more, fates[..|fates| - 1]);
    }
  }

  lemma FateAppend(offered: seq<Raw>, fates: seq<bool>, fate: bool)
    requires |fates| < |offered|
    ensures Sent(offered, fates + [fate]) == Sent(offered, fates) + if fate then [offered[|fates|]] else []
    ensures Dropped(fates + [fate]) == Dropped(fates) + if fate then 0 else 1
  {
    assert (fates + [fate])[..|fates|] == fates;
  }

  lemma EncodeNext(v2: bool, frames: seq<Raw>, raw: Raw)
    ensures Encode(v2, frames + [raw]) == Encode(v2, frames) + WireSpec(v2, raw)
  {
    assert (frames + [raw])[..|frames|] == frames;
  }

  /** One connected rover. */
  class Client {
    const v2: bool
    var queue: seq<Raw>
    var dropped: nat
    var stopReason: Option<string>
    var wire: seq<byte> // what the socket was given
    var bytesSent: nat
    ghost var offered: seq<Raw>  // the frames offered before a stop was asked for
    ghost var fates: seq<bool>   // of those that have left the queue
    ghost var sent: seq<Raw>     // what the write loop has written
    ghost var closed: bool       // the stream was finished

    /** As long as no stop is asked for, the frames offered are those sent, plus those queued - which
        are the newest - plus exactly the `dropped` ones that were the oldest when they went. */
    ghost predicate Valid()
      reads this
    {
      |queue| <= CLIENT_QUEUE_FRAMES
      && bytesSent == |wire|
      && (closed ==> stopReason.Some?)
      && wire == Encode(v2, sent) + (if closed then WireSpec(v2, TERMINATOR) else [])
      && (stopReason.None? ==>
            |fates| + |queue| == |offered| && queue == offered[|fates|..]
            && sent == Sent(offered, fates) && dropped == Dropped(fates))
    }

    constructor (v2: bool)
      ensures Valid() && this.v2 == v2 && stopReason == None && offered == [] && queue == [] && sent == []
      ensures dropped == 0 && wire == []
    {
      this.v2 := v2;
      queue, dropped, stopReason, wire, bytesSent := [], 0, None, [], 0;
      offered, fates, sent, closed := [], [], [], false;
    }

    /** Queue one frame, dropping the oldest when the client cannot keep up. */
    method Offer(raw: Raw)
      requires Valid()
      modifies this`queue, this`dropped, this`offered, this`fates
      ensures Valid()
      ensures queue == (if |old(queue)| < CLIENT_QUEUE_FRAMES then old(queue) else old(queue)[1..]) + [raw]
      ensures dropped == old(dropped) + if |old(queue)| < CLIENT_QUEUE_FRAMES then 0 else 1
      ensures stopReason.None? ==> offered == old(offered) + [raw]
    {
      ghost var was := offered;
      if stopReason.None? {
        offered := offered + [raw];
        SentSame(was, [raw], fates);
      }
      if |queue| < CLIENT_QUEUE_FRAMES {
        queue := queue + [raw];
      } else {
        queue := queue[1..];
        dropped := dropped + 1;
        queue := queue + [raw];
        if stopReason.None? {
          FateAppend(offered, fates, false);
          fates := fates + [false];
        }
      }
    }

    /** Ask the write loop to finish. */
    method EndStream(reason: string)
      requires Valid()
      modifies this`queue, this`dropped, this`offered, this`fates, this`stopReason
      ensures Valid() && stopReason == if old(stopReason).Some? then old(stopReason) else Some(reason)
      ensures queue != [] && queue[|queue| - 1] == TERMINATOR
      ensures queue == (if |old(queue)| < CLIENT_QUEUE_FRAMES then old(queue) else old(queue)[1..]) + [TERMINATOR]
    {
      if stopReason.None? {
        stopReason := Some(reason);
      }
      Offer(TERMINATOR);
    }

    /** Close the body: what is still queued is not sent any more. */
    method FinishStream()
      requires Valid() && stopReason.Some? && !closed
      modifies this`queue, this`wire, this`bytesSent, this`closed
      ensures Valid() && closed && queue == []
    {
      queue := [];
      var closing := WireSpec(v2, TERMINATOR);
      wire := wire + closing;
      bytesSent := bytesSent + |closing|;
      closed := true;
    }

    /** One round of the write loop, when something is queued. `closing` and `slow` are what the socket
        says after the write; true means that the stream has ended. */
    method WriteOne(closing: bool, slow: bool) returns (ended: bool)
      requires Valid() && queue != [] && !closed
      modifies this`queue, this`wire, this`bytesSent, this`closed, this`stopReason, this`fates, this`sent
      ensures Valid()
      ensures old(stopReason).Some? ==> ended && closed && sent == old(sent)
      ensures old(stopReason).None? ==> sent == old(sent) + [old(queue)[0]] && (ended <==> closing || slow)
      ensures !ended ==> queue == old(queue)[1..] && stopReason == None
      ensures old(stopReason).None? && ended ==>
        closed == !closing && stopReason == if closing then None else Some("slow client")
    {
      hide Sent, Dropped, WireSpec, Encode;
      var raw := queue[0];
      queue := queue[1..];
      if stopReason.Some? {
        FinishStream();
        return true;
      }
      FateAppend(offered, fates, true);
      fates := fates + [true];
      var payload := WireSpec(v2, raw);
      wire := wire + payload;
      bytesSent := bytesSent + |payload|;
      EncodeNext(v2, sent, raw);
      sent := sent + [raw];
      if closing {
        return true;
      }
      if slow {
        stopReason := Some("slow client");
        FinishStream();
        return true;
      }
      return false;
    }
  }

  // ------------------------------------------------------------------ the client

  function RtcmOf(frames: seq<Frame>): seq<Raw> {
    if frames == [] then []
    else RtcmOf(frames[..|frames| - 1]) + if frames[|frames| - 1].proto == RTCM3 then [frames[|frames| - 1].raw] else []
  }

  lemma {:induction false} RtcmOfConcat(a: seq<Frame>, b: seq<Frame>)
    ensures RtcmOf(a + b) == RtcmOf(a) + RtcmOf(b)
    decreases |b|
  {
    if b == [] {
      assert a + b == a;
    } else {
      assert (a + b)[..|a + b| - 1] == a + b[..|b| - 1];
      RtcmOfConcat(a, b[..|b| - 1]);
    }
  }

  /** The bytes of one connection that are still to come. */
  class Reader {
    var rest: seq<byte>

    constructor (stream: seq<byte>)
      ensures rest == stream
    {
      rest := stream;
    }

    /** `readline`: up to and with the next line feed, or to the end; `None` when the line is too long. */
    method ReadLine() returns (line: Option<seq<byte>>)
      modifies this
      ensures var s, end := old(rest), FindLf(old(rest));
        if (if end < 0 then |s| else end) > LINE_LIMIT then line == None
        else if end < 0 then line == Some(s) && rest == []
        else line == Some(s[..end + 1]) && rest == s[end + 1..]
    {
      var i := 0;
      while i < |rest| && rest[i] != LF
        invariant i <= |rest| && forall k :: 0 <= k < i ==> rest[k] != LF
      {
        i := i + 1;
      }
      if i > LINE_LIMIT {
        return None;
      }
      var end := if i < |rest| then i + 1 else i;
      assert end == |rest| ==> rest[..end] == rest;
      line := Some(rest[..end]);
      rest := rest[end..];
    }

    /** `readexactly`: the next `n` bytes; `None` when the stream ends before. */
    method ReadExactly(n: nat) returns (data: Option<seq<byte>>)
      modifies this
      ensures |old(rest)| < n ==> data == None
      ensures |old(rest)| >= n ==> data == Some(old(rest)[..n]) && rest == old(rest)[n..]
    {
      if |rest| < n {
        return None;
      }
      data := Some(rest[..n]);
      rest := rest[n..];
    }

    /** Whatever part of the next `n` bytes has arrived - some, unless the stream is at its end. */
    method Read(n: nat) returns (data: seq<byte>)
      requires n > 0
      modifies this
      ensures old(rest) == data + rest && |data| <= n && (data == [] <==> old(rest) == [])
    {
      if rest == [] {
        return [];
      }
      var k: nat :| 1 <= k <= n && k <= |rest|;
      data := rest[..k];
      rest := rest[k..];
    }
  }

  datatype Outcome = Got(data: seq<byte>) | Failed

  lemma NothingYet(framer: Framer)
    requires framer.Valid() && !framer.capped && framer.chunks == []
    ensures RtcmOf(framer.history.frames) == [] && Flatten(framer.chunks) == []
  {
    NothingFed(framer);
  }

  class NtripClient {
    var framer: Framer
    var bytesReceived: nat
    var framesInjected: nat
    var crcDropped: nat
    ghost var injected: seq<Raw> // what the driver was given

    constructor ()
      ensures framesInjected == 0 && bytesReceived == 0 && crcDropped == 0 && injected == [] && fresh(framer)
    {
      framer := new Framer();
      bytesReceived, framesInjected, crcDropped, injected := 0, 0, 0, [];
    }

    method DecodeChunked(reader: Reader) returns (r: Outcome)
      modifies reader
      ensures match DecodeChunk(old(reader.rest))
              case Data(payload, rest) => r == Got(payload) && reader.rest == rest
              case End => r == Got([])
              case _ => r == Failed
    {
      hide FindLf, ChunkSize, Payloads;
      ghost var s := reader.rest;
      var line := reader.ReadLine();
      if line.None? {
        return Failed;
      }
      if line.value == [] {
        return Got([]);
      }
      var size := ChunkSize(line.value);
      if size.None? {
        return Failed;
      }
      ghost var after := reader.rest;
      assert DecodeChunk(s) == DecodeData(size.value, after);
      hide DecodeChunk;
      if size.value == 0 {
        return Got([]);
      }
      if size.value < 0 || size.value > MAX_CHUNK {
        return Failed;
      }
      var data := reader.ReadExactly(size.value);
      if data.None? {
        return Failed;
      }
      var end := reader.ReadExactly(2);
      assert end.Some? ==> end.value == after[size.value..size.value + 2] && reader.rest == after[size.value + 2..];
      if end.None? || end.value != [CR, LF] {
        return Failed;
      }
      return Got(data.value);
    }

    /** Inject what one piece of the stream completes. */
    method Take(data: seq<byte>) returns (ghost frames: seq<Frame>)
      requires framer.Valid() && !framer.capped && |data| <= MAX_CHUNK && framer.maxBuffer == DEFAULT_MAX_BUFFER
      modifies this`bytesReceived, this`framesInjected, this`crcDropped, this`injected, framer
      ensures framer.Valid() && !framer.capped
      ensures framer.chunks == old(framer.chunks) + [data]
      ensures bytesReceived == old(bytesReceived) + |data|
      ensures crcDropped == old(crcDropped) + (framer.checksumErrors - old(framer.checksumErrors))
      ensures framer.history.frames == old(framer.history.frames) + frames
      ensures injected == old(injected) + RtcmOf(frames) && framesInjected == old(framesInjected) + |RtcmOf(frames)|
    {
      hide Framer.Valid, Parse;
      HeldBound(framer);
      var seen := framer.checksumErrors;
      bytesReceived := bytesReceived + |data|;
      var out := framer.Feed(data);
      frames := out;
      for i := 0 to |out|
        modifies this`injected, this`framesInjected
        invariant injected == old(injected) + RtcmOf(out[..i])
        invariant framesInjected == old(framesInjected) + |RtcmOf(out[..i])|
      {
        assert out[..i + 1][..i] == out[..i];
        if out[i].proto != RTCM3 {
          continue;
        }
        injected := injected + [out[i].raw];
        framesInjected := framesInjected + 1;
      }
      assert out[..|out|] == out;
      crcDropped := crcDropped + (framer.checksumErrors - seen);
    }

    /** One session: from the end of the response head until the connection ends or fails. */
    method Stream(reader: Reader, chunked: bool)
      requires reader != this as object
      modifies this, reader, framer
      ensures framer.Valid() && fresh(framer)
      ensures injected == old(injected) + RtcmOf(FeedAll(framer.chunks, NMEA_MAX_LEN).frames)
      ensures if chunked then framer.chunks == Payloads(old(reader.rest))
              else Flatten(framer.chunks) == old(reader.rest)
      ensures bytesReceived == old(bytesReceived) + |Flatten(framer.chunks)|
    {
      hide Framer.Valid, DecodeChunk, FeedAll, RtcmOf, Flatten;
      framer := new Framer();
      ghost var before := injected;
      NothingYet(framer);
      while true
        invariant framer.Valid() && fresh(framer) && !framer.capped && framer.maxBuffer == DEFAULT_MAX_BUFFER
        invariant injected == before + RtcmOf(framer.history.frames)
        invariant if chunked then Payloads(old(reader.rest)) == framer.chunks + Payloads(reader.rest)
                  else old(reader.rest) == Flatten(framer.chunks) + reader.rest
        invariant bytesReceived == old(bytesReceived) + |Flatten(framer.chunks)|
        decreases |reader.rest|
      {
        var data;
        if chunked {
          var r := DecodeChunked(reader);
          if r.Failed? {
            break;
          }
          data := r.data;
        } else {
          data := reader.Read(READ_SIZE);
        }
        if data == [] {
          break;
        }
        ghost var was, chunks := framer.history.frames, framer.chunks;
        ghost var frames := Take(data);
        RtcmOfConcat(was, frames);
        FlattenAppend(chunks, [data]);
        FlattenSingle(data);
      }
      HeldBound(framer);
    }
  }

  // ------------------------------------------------------------------ end to end

  ghost predicate AllRtcm(frames: seq<Raw>) {
    forall f | f in frames :: IsRtcm(f)
  }

  lemma RtcmSize(raw: Raw)
    requires IsRtcm(raw)
    ensures 6 <= |raw| <= 1029 && |raw| <= MAX_CHUNK
  {
  }

  /** A valid frame, whole or cut short, with anything after it when it is whole. */
  lemma RtcmHead(raw: Raw, m: nat, more: seq<byte>)
    requires IsRtcm(raw)
    ensures Head(raw + more, NMEA_MAX_LEN) == Complete(RTCM3, |raw|)
    ensures 0 < m < |raw| ==> Head(raw[..m], NMEA_MAX_LEN).Incomplete?
    ensures raw[0] == RTCM_PREAMBLE
  {
    var s := raw + more;
    assert s[..|raw|] == raw;
    HeadFindsFrames(s, NMEA_MAX_LEN, RTCM3, |raw|);
    if 0 < m < |raw| {
      var cut := raw[..m];
      assert cut[0] == raw[0];
      assert m >= 2 ==> cut[1] == raw[1];
      assert m >= 3 ==> cut[2] == raw[2];
    }
  }

  /** How many of the frames lie whole within the first `m` bytes. */
  function Whole(frames: seq<Raw>, m: nat): (n: nat)
    ensures n <= |frames|
  {
    if frames == [] || m < |frames[0]| then 0 else 1 + Whole(frames[1..], m - |frames[0]|)
  }

  lemma {:induction false} WholeAll(frames: seq<Raw>)
    ensures Whole(frames, |Flatten(frames)|) == |frames|
  {
    if frames != [] {
      WholeAll(frames[1..]);
    }
  }

  function Framed(frames: seq<Raw>): seq<Frame> {
    if frames == [] then [] else [Frame(RTCM3, frames[0])] + Framed(frames[1..])
  }

  lemma {:induction false} RtcmOfFramed(frames: seq<Raw>)
    ensures RtcmOf(Framed(frames)) == frames
  {
    if frames != [] {
      RtcmOfFramed(frames[1..]);
      RtcmOfConcat([Frame(RTCM3, frames[0])], Framed(frames[1..]));
      assert [Frame(RTCM3, frames[0])][..0] == [];
    }
  }

  /** No sentence in it can be cut, whatever bytes are looked at together. */
  ghost predicate AlwaysSafe(s: seq<byte>) {
    forall h: nat :: Safe(s, h, NMEA_MAX_LEN)
  }

  lemma NotDollarIsNotExposed(s: seq<byte>, h: nat)
    requires s != [] && s[0] == RTCM_PREAMBLE
    ensures !Exposed(s, h, NMEA_MAX_LEN)
  {
  }

  /** A valid frame at the front of a stream comes out, and hides nothing of the rest. */
  lemma FrameFirst(f: Raw, more: seq<byte>)
    requires IsRtcm(f)
    ensures Parse(f + more, NMEA_MAX_LEN).frames == [Frame(RTCM3, f)] + Parse(more, NMEA_MAX_LEN).frames
    ensures AlwaysSafe(more) ==> AlwaysSafe(f + more)
  {
    hide Head, IsRtcm, Exposed;
    var s := f + more;
    assert s[|f|..] == more && s[..|f|] == f;
    RtcmSize(f);
    RtcmHead(f, |f|, more);
    ParseStep(s, NMEA_MAX_LEN);
    forall h: nat | AlwaysSafe(more)
      ensures Safe(s, h, NMEA_MAX_LEN)
    {
      NotDollarIsNotExposed(s, h);
    }
  }

  /** Of a frame that came through in part, nothing comes out. */
  lemma FramePart(f: Raw, m: nat)
    requires IsRtcm(f) && m < |f|
    ensures Parse(f[..m], NMEA_MAX_LEN).frames == [] && AlwaysSafe(f[..m])
  {
    hide Head, IsRtcm, Exposed;
    RtcmSize(f);
    if m > 0 {
      RtcmHead(f, m, []);
      ParseIncomplete(f[..m], NMEA_MAX_LEN);
      forall h: nat
        ensures Safe(f[..m], h, NMEA_MAX_LEN)
      {
        NotDollarIsNotExposed(f[..m], h);
      }
    }
  }

  /** Of the first `m` bytes the whole frames come out, and nothing in them can be cut. */
  ghost predicate ComesOut(frames: seq<Raw>, m: nat)
    requires m <= |Flatten(frames)|
  {
    Parse(Flatten(frames)[..m], NMEA_MAX_LEN).frames == Framed(frames[..Whole(frames, m)])
    && AlwaysSafe(Flatten(frames)[..m])
  }

  lemma FramedFirst(f: Raw, frames: seq<Raw>)
    ensures Framed([f] + frames) == [Frame(RTCM3, f)] + Framed(frames) && Framed([]) == []
  {
    assert ([f] + frames)[1..] == frames;
  }

  lemma PartComesOut(frames: seq<Raw>, m: nat)
    requires frames != [] && IsRtcm(frames[0]) && m < |frames[0]| && m <= |Flatten(frames)|
    ensures ComesOut(frames, m)
  {
    hide Parse, AlwaysSafe, IsRtcm, Framed, Flatten;
    FlattenTake(frames, m);
    FramedFirst(frames[0], []);
    FramePart(frames[0], m);
    assert frames[..0] == [];
  }

  lemma OneMoreComesOut(frames: seq<Raw>, m: nat)
    requires frames != [] && IsRtcm(frames[0]) && |frames[0]| <= m <= |Flatten(frames)|
    requires m - |frames[0]| <= |Flatten(frames[1..])| && ComesOut(frames[1..], m - |frames[0]|)
    ensures ComesOut(frames, m)
  {
    hide Parse, AlwaysSafe, IsRtcm, Framed, Flatten;
    var f, tail := frames[0], frames[1..];
    FlattenTake(frames, m);
    FrameFirst(f, Flatten(tail)[..m - |f|]);
    var n := Whole(tail, m - |f|);
    FramedFirst(f, tail[..n]);
    assert frames[..n + 1] == [f] + tail[..n];
  }

  /** That holds however much of a stream of valid frames has come through. */
  lemma {:induction false} ParseRtcmStream(frames: seq<Raw>, m: nat)
    requires AllRtcm(frames) && m <= |Flatten(frames)|
    ensures ComesOut(frames, m)
    decreases |frames|
  {
    if frames == [] {
      assert Flatten(frames)[..m] == [];
    } else {
      hide ComesOut, IsRtcm;
      assert frames[0] in frames && forall f | f in frames[1..] :: f in frames;
      if m < |frames[0]| {
        PartComesOut(frames, m);
      } else {
        ParseRtcmStream(frames[1..], m - |frames[0]|);
        OneMoreComesOut(frames, m);
      }
    }
  }

  lemma OneSkipped(b: byte, s: seq<byte>)
    requires !IsSync(b)
    ensures Parse([b] + s, NMEA_MAX_LEN).frames == Parse(s, NMEA_MAX_LEN).frames
    ensures AlwaysSafe(s) ==> AlwaysSafe([b] + s)
  {
    var all := [b] + s;
    assert all[1..] == s;
    NoSyncIsInvalid(all);
    ParseStep(all, NMEA_MAX_LEN);
    assert forall h :: !Exposed(all, h, NMEA_MAX_LEN);
    hide Head, Exposed;
    forall h: nat | AlwaysSafe(s)
      ensures Safe(all, h, NMEA_MAX_LEN)
    {
    }
  }

  /** Bytes before the stream that start no frame, as a version 1 caster's blank line. */
  lemma {:induction false} PrefaceSkipped(preface: seq<byte>, s: seq<byte>)
    requires forall i :: 0 <= i < |preface| ==> !IsSync(preface[i])
    requires AlwaysSafe(s)
    ensures Parse(preface + s, NMEA_MAX_LEN).frames == Parse(s, NMEA_MAX_LEN).frames
    ensures AlwaysSafe(preface + s)
    decreases |preface|
  {
    hide Parse, AlwaysSafe, IsSync;
    if preface == [] {
      assert preface + s == s;
    } else {
      var tail := preface[1..];
      PrefaceSkipped(tail, s);
      assert preface == [preface[0]] + tail;
      Associate([preface[0]], tail, s);
      OneSkipped(preface[0], tail + s);
    }
  }

  lemma {:induction false} RawEncoding(frames: seq<Raw>)
    ensures Encode(false, frames) == Flatten(frames)
    decreases |frames|
  {
    if frames != [] {
      var init, last := frames[..|frames| - 1], frames[|frames| - 1];
      RawEncoding(init);
      assert frames == init + [last];
      FlattenAppend(init, [last]);
      FlattenSingle(last);
    }
  }

  /** Version 1: whatever the TCP segments, and wherever the connection ends, the frames injected are
      those sent that came through whole, in order. */
  lemma RawEndToEnd(sent: seq<Raw>, preface: seq<byte>, m: nat, segments: seq<seq<byte>>)
    requires AllRtcm(sent) && m <= |Encode(false, sent)|
    requires forall i :: 0 <= i < |preface| ==> !IsSync(preface[i])
    requires Flatten(segments) == preface + Encode(false, sent)[..m]
    ensures RtcmOf(FeedAll(segments, NMEA_MAX_LEN).frames) == sent[..Whole(sent, m)]
    ensures m == |Encode(false, sent)| ==> sent[..Whole(sent, m)] == sent
  {
    RawEncoding(sent);
    var s := Flatten(sent)[..m];
    ParseRtcmStream(sent, m);
    PrefaceSkipped(preface, s);
    SafeChunksAgree(segments, NMEA_MAX_LEN);
    RtcmOfFramed(sent[..Whole(sent, m)]);
    WholeAll(sent);
  }

  lemma {:induction false} EncodeFirst(frames: seq<Raw>)
    requires frames != []
    ensures Encode(true, frames) == WireSpec(true, frames[0]) + Encode(true, frames[1..])
    decreases |frames|
  {
    hide WireSpec;
    var n := |frames| - 1;
    var first := WireSpec(true, frames[0]);
    if n == 0 {
      assert frames[..0] == [] && frames[1..] == [];
      assert [] + first == first + [];
    } else {
      EncodeFirst(frames[..n]);
      assert frames[..n][1..] == frames[1..][..n - 1] && frames[..n][0] == frames[0];
      assert frames[1..][n - 1] == frames[n];
      var middle, last := Encode(true, frames[1..][..n - 1]), WireSpec(true, frames[n]);
      assert (first + middle) + last == first + (middle + last);
    }
  }

  /** How many chunks lie whole within the first `m` bytes of the body. */
  function WholeChunks(frames: seq<Raw>, m: nat): (n: nat)
    ensures n <= |frames|
  {
    if frames == [] || m < |WireSpec(true, frames[0])| then 0
    else 1 + WholeChunks(frames[1..], m - |WireSpec(true, frames[0])|)
  }

  /** That is, the encoding of so many fits, and of one more does not. */
  lemma {:induction false} WholeChunksFit(frames: seq<Raw>, m: nat)
    ensures var n := WholeChunks(frames, m);
      |Encode(true, frames[..n])| <= m && (n < |frames| ==> m < |Encode(true, frames[..n + 1])|)
    decreases |frames|
  {
    hide WireSpec;
    var n := WholeChunks(frames, m);
    if frames != [] {
      var f, tail := frames[0], frames[1..];
      if n == 0 {
        EncodeFirst(frames[..1]);
        assert frames[..1][1..] == frames[..0] == [];
      } else {
        WholeChunksFit(tail, m - |WireSpec(true, f)|);
        EncodeFirst(frames[..n]);
        assert frames[..n][1..] == tail[..n - 1];
        if n < |frames| {
          EncodeFirst(frames[..n + 1]);
          assert frames[..n + 1][1..] == tail[..n];
        }
      }
    } else {
      assert frames[..0] == [];
    }
  }

  lemma {:induction false} EncodeGrows(frames: seq<Raw>, n: nat)
    requires n <= |frames|
    ensures |Encode(true, frames[..n])| <= |Encode(true, frames)|
    decreases |frames|
  {
    if n == |frames| {
      assert frames[..n] == frames;
    } else {
      EncodeGrows(frames[..|frames| - 1], n);
      assert frames[..|frames| - 1][..n] == frames[..n];
    }
  }

  lemma AllChunksFit(frames: seq<Raw>, m: nat)
    requires m >= |Encode(true, frames)|
    ensures WholeChunks(frames, m) == |frames|
  {
    var n := WholeChunks(frames, m);
    WholeChunksFit(frames, m);
    if n < |frames| {
      EncodeGrows(frames, n + 1);
      assert false;
    }
  }

  lemma Cut(a: seq<byte>, b: seq<byte>, m: nat)
    requires m <= |a + b|
    ensures m <= |a| ==> (a + b)[..m] == a[..m]
    ensures m >= |a| ==> (a + b)[..m] == a + b[..m - |a|]
  {
  }

  lemma CutTerminator(got: seq<byte>)
    requires |got| < 5 && got <= [48, 13, 10, 13, 10] && got != []
    ensures !DecodeChunk(got).Data?
  {
    if |got| == 1 {
      assert got == [48];
    } else if |got| == 2 {
      assert got == [48, 13];
    } else if |got| == 3 {
      assert got == [48, 13, 10];
    } else {
      assert got == [48, 13, 10, 13];
    }
  }

  lemma NothingAfterTheEnd(got: seq<byte>, finished: bool)
    requires got <= if finished then WireSpec(true, TERMINATOR) else []
    ensures Payloads(got) == []
  {
    var end := Hex(0) + [CR, LF] + [] + [CR, LF];
    assert WireSpec(true, TERMINATOR) == end == [48, 13, 10, 13, 10];
    if |got| == 5 {
      assert got == end;
      TerminatorReadBack([]);
      assert end + [] == end;
    } else if |got| > 0 {
      CutTerminator(got);
    }
  }

  /** The chunks that came through whole are read back, and nothing else. */
  lemma {:induction false} PayloadsReadBack(frames: seq<Raw>, m: nat, finished: bool)
    requires AllRtcm(frames)
    requires m <= |Encode(true, frames) + if finished then WireSpec(true, TERMINATOR) else []|
    ensures var wire := Encode(true, frames) + if finished then WireSpec(true, TERMINATOR) else [];
      Payloads(wire[..m]) == frames[..WholeChunks(frames, m)]
    decreases |frames|
  {
    hide DecodeChunk, WireSpec, IsRtcm;
    var end := if finished then WireSpec(true, TERMINATOR) else [];
    var wire := Encode(true, frames) + end;
    var got := wire[..m];
    if frames == [] {
      assert wire == end;
      NothingAfterTheEnd(got, finished);
    } else {
      var f, tail := frames[0], frames[1..];
      assert f in frames && AllRtcm(tail);
      RtcmSize(f);
      EncodeFirst(frames);
      var chunk, wire' := WireSpec(true, f), Encode(true, tail) + end;
      Associate(chunk, Encode(true, tail), end);
      hide Encode;
      Cut(chunk, wire', m);
      if m < |chunk| {
        CutChunk(f, m);
      } else {
        ChunkReadBack(f, wire'[..m - |chunk|]);
        PayloadsReadBack(tail, m - |chunk|, finished);
        var n := WholeChunks(tail, m - |chunk|);
        assert frames[..n + 1] == [f] + tail[..n];
      }
    }
  }

  /** Version 2: wherever the connection ends, the frames injected are the chunks that came through
      whole, in order; all that were sent, when all of them came through. */
  lemma ChunkedEndToEnd(sent: seq<Raw>, finished: bool, m: nat)
    requires AllRtcm(sent)
    requires m <= |Encode(true, sent) + if finished then WireSpec(true, TERMINATOR) else []|
    ensures var wire := Encode(true, sent) + if finished then WireSpec(true, TERMINATOR) else [];
      var injected := RtcmOf(FeedAll(Payloads(wire[..m]), NMEA_MAX_LEN).frames);
      injected == sent[..WholeChunks(sent, m)] && (m >= |Encode(true, sent)| ==> injected == sent)
  {
    PayloadsReadBack(sent, m, finished);
    if m >= |Encode(true, sent)| {
      AllChunksFit(sent, m);
      assert sent[..|sent|] == sent;
    }
    hide WholeChunks, Encode;
    var wire := Encode(true, sent) + if finished then WireSpec(true, TERMINATOR) else [];
    var p := Payloads(wire[..m]);
    assert AllRtcm(p) by {
      assert forall f :: f in p ==> f in sent;
    }
    var s := Flatten(p);
    assert s[..|s|] == s;
    ParseRtcmStream(p, |s|);
    WholeAll(p);
    assert p[..|p|] == p;
    SafeChunksAgree(p, NMEA_MAX_LEN);
    RtcmOfFramed(p);
  }
}
