/** The incremental framer of `core/frames.py`: a byte buffer consumed in place. */
module FramerModule {
  import opened Bytes
  import opened PyInt
  import opened Frames
  import opened Chunking
  import opened FrameProperties
  import Crc

  /** What a `_try_*` method reports: None, False or the frame it cut off the buffer. */
  datatype Attempt = Wait | Reject | Emitted(frame: Frame)

  function Count(frames: seq<Frame>, proto: Proto): nat {
    if frames == [] then 0
    else Count(frames[..|frames| - 1], proto) + if frames[|frames| - 1].proto == proto then 1 else 0
  }

  ghost predicate Counted(counters: map<Proto, nat>, frames: seq<Frame>) {
    forall p: Proto :: p in counters && counters[p] == Count(frames, p)
  }

  /** Of all bytes fed, every one came out in a frame, is counted as garbage or is held, cap or no cap;
      the frames are disjoint pieces of the stream, in its order; and what is held is its end. */
  ghost predicate Accounted(stream: seq<byte>, frames: seq<Frame>, garbage: nat, held: seq<byte>) {
    |stream| == |Flatten(Raws(frames))| + garbage + |held|
    && held == stream[|stream| - |held|..]
    && InOrder(Raws(frames), stream[..|stream| - |held|])
  }

  const DEFAULT_MAX_BUFFER: nat := 0x100000

  lemma DrainStart(buf: seq<byte>)
    ensures Parse(buf, NMEA_MAX_LEN) == Parsed([], 0, 0, []).Then(Parse(buf, NMEA_MAX_LEN))
  {
    hide Parse;
    var p := Parse(buf, NMEA_MAX_LEN);
    assert [] + p.frames == p.frames;
  }

  lemma NoSyncIsInvalid(buf: seq<byte>)
    requires buf != [] && !IsSync(buf[0])
    ensures Head(buf, NMEA_MAX_LEN) == Invalid(false)
  {
  }

  /** Skipping to the next sync byte in one go drops what one-byte steps would. */
  lemma {:induction false} SkipGarbage(buf: seq<byte>, i: nat, skip: nat)
    requires i <= skip <= |buf| && forall k :: i <= k < skip ==> !IsSync(buf[k])
    ensures Parse(buf[i..], NMEA_MAX_LEN) == Parsed([], skip - i, 0, []).Then(Parse(buf[skip..], NMEA_MAX_LEN))
    decreases skip - i
  {
    hide Head, Parse, IsSync;
    if i < skip {
      NoSyncIsInvalid(buf[i..]);
      ParseStep(buf[i..], NMEA_MAX_LEN);
      assert buf[i..][1..] == buf[i + 1..];
      SkipGarbage(buf, i + 1, skip);
    }
  }

  lemma DrainSkip(whole: Parsed, done: Parsed, was: seq<byte>, skip: nat)
    requires whole == done.Then(Parse(was, NMEA_MAX_LEN)) && done.rest == []
    requires skip <= |was| && forall k :: 0 <= k < skip ==> !IsSync(was[k])
    ensures whole == Parsed(done.frames, done.garbage + skip, done.errors, []).Then(Parse(was[skip..], NMEA_MAX_LEN))
  {
    hide Parse, IsSync;
    SkipGarbage(was, 0, skip);
    assert was[0..] == was;
    var rest := Parse(was[skip..], NMEA_MAX_LEN);
    ThenAssociates(done, Parsed([], skip, 0, []), rest);
    assert done.Then(Parsed([], skip, 0, [])) == Parsed(done.frames, done.garbage + skip, done.errors, []);
    hide Parsed.Then;
  }

  lemma DrainStep(whole: Parsed, done: Parsed, was: seq<byte>, v: Verdict)
    requires whole == done.Then(Parse(was, NMEA_MAX_LEN)) && done.rest == []
    requires was != [] && v == Head(was, NMEA_MAX_LEN) && !v.Incomplete?
    ensures Advance(v) <= |was| && whole == done.Then(Step(was, v)).Then(Parse(was[Advance(v)..], NMEA_MAX_LEN))
    ensures v.Complete? ==>
      done.Then(Step(was, v)) == Parsed(done.frames + [Frame(v.proto, was[..v.length])], done.garbage, done.errors, [])
    ensures v.Invalid? ==>
      done.Then(Step(was, v))
        == Parsed(done.frames, done.garbage + 1, done.errors + if v.checksumError then 1 else 0, [])
  {
    hide Head, Parse;
    AdvanceWithin(was, NMEA_MAX_LEN);
    ParseStep(was, NMEA_MAX_LEN);
    ThenAssociates(done, Step(was, v), Parse(was[Advance(v)..], NMEA_MAX_LEN));
  }

  lemma DrainEnd(whole: Parsed, done: Parsed, buf: seq<byte>)
    requires whole == done.Then(Parse(buf, NMEA_MAX_LEN)) && done.rest == []
    requires buf == [] || Head(buf, NMEA_MAX_LEN).Incomplete?
    ensures whole == Parsed(done.frames, done.garbage, done.errors, buf)
  {
    hide Head;
  }

  lemma NothingCounted(counters: map<Proto, nat>)
    requires counters == map[UBX := 0, RTCM3 := 0, NMEA := 0]
    ensures Counted(counters, [])
  {
    forall p: Proto
      ensures p in counters && counters[p] == 0
    {
      match p
      case UBX =>
      case RTCM3 =>
      case NMEA =>
    }
  }

  lemma CountAppend(counters: map<Proto, nat>, frames: seq<Frame>, frame: Frame)
    requires Counted(counters, frames) && frame.proto in counters
    ensures Counted(counters[frame.proto := counters[frame.proto] + 1], frames + [frame])
  {
    assert (frames + [frame])[..|frames|] == frames;
  }

  lemma NothingInOrder(s: seq<byte>)
    ensures InOrder([], s)
  {
  }

  /** One call keeps the account. */
  lemma FeedAccounted(stream: seq<byte>, frames: seq<Frame>, garbage: nat, buf: seq<byte>, data: seq<byte>,
                      dropped: nat)
    requires Accounted(stream, frames, garbage, buf) && dropped <= |buf + data|
    ensures var p := Parse((buf + data)[dropped..], NMEA_MAX_LEN);
      Accounted(stream + data, frames + p.frames, garbage + dropped + p.garbage, p.rest)
  {
    hide Parse, InOrder, Raws, Flatten;
    var all, after := buf + data, stream + data;
    var kept := all[dropped..];
    var p := Parse(kept, NMEA_MAX_LEN);
    Accounting(kept, NMEA_MAX_LEN);
    RawsAppend(frames, p.frames);
    FlattenAppend(Raws(frames), Raws(p.frames));
    var done, gone := stream[..|stream| - |buf|], kept[..|kept| - |p.rest|];
    NothingInOrder(all[..dropped]);
    InOrderConcat(Raws(frames), done, [], all[..dropped]);
    assert Raws(frames) + [] == Raws(frames);
    InOrderConcat(Raws(frames), done + all[..dropped], Raws(p.frames), gone);
    assert after == done + all;
    assert after[..|after| - |p.rest|] == (done + all[..dropped]) + gone;
    assert p.rest == kept[|kept| - |p.rest|..];
  }

  class Framer {
    const maxBuffer: nat
    const crcTable: seq<nat> // built once, when the module is loaded
    var buf: seq<byte>
    var frames: map<Proto, nat>
    var garbageBytes: nat
    var checksumErrors: nat
    // every chunk fed, all that came of them, and whether the cap ever dropped a byte
    ghost var chunks: seq<seq<byte>>
    ghost var history: Parsed
    ghost var capped: bool

    ghost predicate Ready()
      reads this
    {
      Crc.IsTable(crcTable) && frames.Keys == {UBX, RTCM3, NMEA}
    }

    /** Between two calls: at most one unfinished candidate is held, the counters tell what came out,
        and unless the cap was hit all of it is what the chunks fed so far make by definition. */
    ghost predicate Valid()
      reads this
    {
      Ready()
      && |buf| <= MOST_HELD
      && Parse(buf, NMEA_MAX_LEN) == Parsed([], 0, 0, buf)
      && history.rest == buf
      && Accounted(Flatten(chunks), history.frames, garbageBytes, buf)
      && Counted(frames, history.frames)
      && garbageBytes == history.garbage
      && checksumErrors == history.errors
      && (!capped ==> history == FeedAll(chunks, NMEA_MAX_LEN))
    }

    constructor (maxBuffer: nat := DEFAULT_MAX_BUFFER)
      ensures Valid() && this.maxBuffer == maxBuffer
      ensures buf == [] && chunks == [] && !capped
    {
      var table := Crc.BuildTable();
      this.maxBuffer := maxBuffer;
      crcTable := table;
      buf := [];
      frames := map[UBX := 0, RTCM3 := 0, NMEA := 0];
      garbageBytes := 0;
      checksumErrors := 0;
      chunks := [];
      history := Parsed([], 0, 0, []);
      capped := false;
      new;
      NothingCounted(frames);
      NothingInOrder([]);
    }

    /** What an attempt on a candidate with verdict `v` does. */
    twostate predicate Tried(r: Attempt, v: Verdict)
      reads this
    {
      chunks == old(chunks) && history == old(history) && capped == old(capped)
      && garbageBytes == old(garbageBytes)
      && match v
         case Incomplete =>
           r == Wait && buf == old(buf) && frames == old(frames) && checksumErrors == old(checksumErrors)
         case Invalid(e) =>
           r == Reject && buf == old(buf) && frames == old(frames)
           && checksumErrors == old(checksumErrors) + (if e then 1 else 0)
         case Complete(proto, n) =>
           n <= |old(buf)| && proto in old(frames)
           && r == Emitted(Frame(proto, old(buf)[..n])) && buf == old(buf)[n..]
           && frames == old(frames)[proto := old(frames)[proto] + 1] && checksumErrors == old(checksumErrors)
    }

    method NextSync() returns (skip: nat)
      requires buf != []
      ensures 1 <= skip <= |buf|
      ensures forall k :: 1 <= k < skip ==> !IsSync(buf[k])
      ensures skip < |buf| ==> IsSync(buf[skip])
    {
      for i := 1 to |buf|
        invariant forall k :: 1 <= k < i ==> !IsSync(buf[k])
      {
        if IsSync(buf[i]) {
          return i;
        }
      }
      return |buf|;
    }

    method Emit(proto: Proto, length: nat) returns (frame: Frame)
      requires proto in frames && length <= |buf|
      modifies this`buf, this`frames
      ensures frame == Frame(proto, old(buf)[..length]) && buf == old(buf)[length..]
      ensures frames == old(frames)[proto := old(frames)[proto] + 1]
    {
      frame := Frame(proto, buf[..length]);
      buf := buf[length..];
      frames := frames[proto := frames[proto] + 1];
    }

    method TryUbx() returns (r: Attempt)
      requires Ready() && buf != [] && buf[0] == UBX_SYNC1
      modifies this`buf, this`frames, this`checksumErrors
      ensures Ready() && Tried(r, Head(old(buf), NMEA_MAX_LEN))
    {
      if |buf| < 2 {
        return Wait;
      }
      if buf[1] != UBX_SYNC2 {
        return Reject;
      }
      if |buf| < 6 {
        return Wait;
      }
      var length := UbxPayloadLength(buf);
      if length > UBX_MAX_PAYLOAD {
        return Reject;
      }
      var total := 6 + length + 2;
      if |buf| < total {
        return Wait;
      }
      var expected := Crc.UbxChecksum(buf[2..total - 2]);
      if buf[total - 2..total] != expected {
        checksumErrors := checksumErrors + 1;
        return Reject;
      }
      var frame := Emit(UBX, total);
      return Emitted(frame);
    }

    method TryRtcm() returns (r: Attempt)
      requires Ready() && buf != [] && buf[0] == RTCM_PREAMBLE
      modifies this`buf, this`frames, this`checksumErrors
      ensures Ready() && Tried(r, Head(old(buf), NMEA_MAX_LEN))
    {
      if |buf| < 3 {
        return Wait;
      }
      if buf[1] / 4 != 0 {
        return Reject;
      }
      var length := RtcmPayloadLength(buf);
      var total := 3 + length + 3;
      if |buf| < total {
        return Wait;
      }
      var expected := Crc.Crc24q(crcTable, buf[..3 + length]);
      if expected != Value(buf[3 + length..total]) {
        checksumErrors := checksumErrors + 1;
        return Reject;
      }
      var frame := Emit(RTCM3, total);
      return Emitted(frame);
    }

    method TryNmea() returns (r: Attempt)
      requires Ready() && buf != [] && buf[0] == NMEA_START
      modifies this`buf, this`frames, this`checksumErrors
      ensures Ready() && Tried(r, Head(old(buf), NMEA_MAX_LEN))
    {
      hide Int16, Crc.XorAll, LastStar, FirstCrlf, Frames.TryUbx, Frames.TryRtcm, Crc.IsTable;
      var end := FirstCrlf(buf, 0);
      if end < 0 {
        return if |buf| < NMEA_MAX_LEN then Wait else Reject;
      }
      var star := LastStar(buf[..end]);
      if star < 0 || end - star != 3 {
        return Reject;
      }
      var given := Int16(buf[star + 1..end]);
      if given.None? {
        return Reject;
      }
      assert buf[..end][star] == buf[star];
      var expected := Crc.NmeaChecksum(buf[1..star]);
      if given.value != expected {
        checksumErrors := checksumErrors + 1;
        return Reject;
      }
      var frame := Emit(NMEA, end + 2);
      return Emitted(frame);
    }

    /** The attempt that the sync byte at the start of the buffer calls for. */
    method TryFirst() returns (r: Attempt)
      requires Ready() && buf != [] && IsSync(buf[0])
      modifies this`buf, this`frames, this`checksumErrors
      ensures Ready() && Tried(r, Head(old(buf), NMEA_MAX_LEN))
    {
      if buf[0] == UBX_SYNC1 {
        r := TryUbx();
      } else if buf[0] == RTCM_PREAMBLE {
        r := TryRtcm();
      } else {
        r := TryNmea();
      }
    }

    /** The loop of `feed`: take everything off the buffer that can be decided. `before` is what has
        come out so far. */
    method Drain(ghost before: seq<Frame>) returns (out: seq<Frame>)
      requires Ready() && Counted(frames, before)
      modifies this`buf, this`frames, this`garbageBytes, this`checksumErrors
      ensures Ready() && Counted(frames, before + out)
      ensures garbageBytes >= old(garbageBytes) && checksumErrors >= old(checksumErrors)
      ensures Parse(old(buf), NMEA_MAX_LEN)
        == Parsed(out, garbageBytes - old(garbageBytes), checksumErrors - old(checksumErrors), buf)
    {
      hide Head, Parse, Parsed.Then, Counted, Count, Crc.IsTable, IsSync;
      ghost var done := Parsed([], 0, 0, []);
      out := [];
      assert before + out == before;
      DrainStart(buf);
      while buf != []
        invariant Ready() && Counted(frames, before + out)
        invariant garbageBytes >= old(garbageBytes) && checksumErrors >= old(checksumErrors)
        invariant done == Parsed(out, garbageBytes - old(garbageBytes), checksumErrors - old(checksumErrors), [])
        invariant Parse(old(buf), NMEA_MAX_LEN) == done.Then(Parse(buf, NMEA_MAX_LEN))
        decreases |buf|
      {
        ghost var was, counters := buf, frames;
        if !IsSync(buf[0]) {
          var skip := NextSync();
          buf := buf[skip..];
          garbageBytes := garbageBytes + skip;
          DrainSkip(Parse(old(buf), NMEA_MAX_LEN), done, was, skip);
          done := Parsed(done.frames, done.garbage + skip, done.errors, []);
          continue;
        }
        var result := TryFirst();
        if result == Wait {
          break;
        }
        DrainStep(Parse(old(buf), NMEA_MAX_LEN), done, was, Head(was, NMEA_MAX_LEN));
        done := done.Then(Step(was, Head(was, NMEA_MAX_LEN)));
        if result == Reject {
          buf := buf[1..];
          garbageBytes := garbageBytes + 1;
          continue;
        }
        assert before + (out + [result.frame]) == (before + out) + [result.frame];
        CountAppend(counters, before + out, result.frame);
        out := out + [result.frame];
      }
      DrainEnd(Parse(old(buf), NMEA_MAX_LEN), done, buf);
    }

    /** Every frame completed by `data` comes out; the rest waits. When buffer and data together pass
        the cap, the oldest bytes are dropped and counted as garbage. */
    method Feed(data: seq<byte>) returns (out: seq<Frame>)
      requires Valid()
      modifies this
      ensures Valid()
      ensures chunks == old(chunks) + [data]
      ensures capped <==> old(capped) || |old(buf)| + |data| > maxBuffer
      ensures |data| + MOST_HELD <= maxBuffer ==> capped == old(capped) // a chunk of this size loses nothing
      ensures var all := old(buf) + data;
        var dropped := if |all| > maxBuffer then |all| - maxBuffer else 0;
        var p := Parse(all[dropped..], NMEA_MAX_LEN);
        out == p.frames && buf == p.rest
        && garbageBytes == old(garbageBytes) + dropped + p.garbage
        && checksumErrors == old(checksumErrors) + p.errors
      ensures history.frames == old(history).frames + out
    {
      hide Head, Parse, Counted, Count, Accounted, Flatten;
      ghost var before := history;
      buf := buf + data;
      var dropped := 0;
      if |buf| > maxBuffer {
        dropped := |buf| - maxBuffer;
        buf := buf[dropped..];
        garbageBytes := garbageBytes + dropped;
      }
      ghost var kept := buf;
      out := Drain(before.frames);
      HeldBack(kept, NMEA_MAX_LEN);
      FeedAccounted(Flatten(chunks), before.frames, old(garbageBytes), old(buf), data, dropped);
      FlattenAppend(chunks, [data]);
      FlattenSingle(data);
      history := Parsed(before.frames + out, garbageBytes, checksumErrors, buf);
      capped := capped || dropped > 0;
      chunks := chunks + [data];
      assert chunks[..|chunks| - 1] == old(chunks);
    }
  }

  lemma NothingFed(framer: Framer)
    requires framer.Valid() && !framer.capped && framer.chunks == []
    ensures framer.history == Parsed([], 0, 0, [])
  {
  }

  lemma HeldBound(framer: Framer)
    requires framer.Valid()
    ensures |framer.buf| <= MOST_HELD
    ensures !framer.capped ==> framer.history == FeedAll(framer.chunks, NMEA_MAX_LEN)
  {
  }

  /** Chunks no longer than the cap less what can be held never reach it, and then everything the
      framer has done is the parse of the stream they make up - if none of it could be cut. */
  lemma WholeStream(framer: Framer)
    requires framer.Valid() && !framer.capped && Safe(Flatten(framer.chunks), 0, NMEA_MAX_LEN)
    ensures framer.history == Parse(Flatten(framer.chunks), NMEA_MAX_LEN)
  {
    SafeChunksAgree(framer.chunks, NMEA_MAX_LEN);
  }
}
