/** File replay (`core/source.py`): a recording is framed piece by piece and handed on an epoch at a
    time, with one frame pushed back when a piece is full. */
module Replay {
  import opened Bytes
  import opened Options
  import opened Frames
  import opened Chunking
  import opened FrameProperties
  import opened FramerModule
  import Encodings
  import Crc

  const REPLAY_READ: nat := 0x10000
  const MAX_REPLAY_CHUNK: nat := 0x40000
  const REPLAY_HEAD_SCAN: nat := 0x10000
  const EOE_HEAD: seq<byte> := [0xB5, 0x62, 0x01, 0x61, 4, 0]
  const EOE_SIZE: nat := 12

  // ------------------------------------------------------------------ what a recording holds

  /** The reads that stream a file. */
  function Cut(file: seq<byte>): seq<seq<byte>> {
    if file == [] then []
    else if |file| <= REPLAY_READ then [file]
    else [file[..REPLAY_READ]] + Cut(file[REPLAY_READ..])
  }

  /** Every frame that streaming the file brings out. */
  ghost function AllFrames(file: seq<byte>): seq<Frame> {
    FeedAll(Cut(file), NMEA_MAX_LEN).frames
  }

  lemma {:induction false} CutJoins(file: seq<byte>)
    ensures Flatten(Cut(file)) == file
  {
    if |file| > REPLAY_READ {
      CutJoins(file[REPLAY_READ..]);
      FlattenAppend([file[..REPLAY_READ]], Cut(file[REPLAY_READ..]));
      FlattenSingle(file[..REPLAY_READ]);
      assert file[..REPLAY_READ] + file[REPLAY_READ..] == file;
    } else if file != [] {
      FlattenSingle(file);
    }
  }

  /** With no late sentence exposed, that is the leftmost-greedy split of the whole file. */
  lemma AllFramesAreGreedy(file: seq<byte>)
    requires Safe(file, 0, NMEA_MAX_LEN)
    ensures AllFrames(file) == Parse(file, NMEA_MAX_LEN).frames
    ensures Greedy(file) == AllFrames(file) + Greedy(Parse(file, NMEA_MAX_LEN).rest)
  {
    CutJoins(file);
    SafeChunksAgree(Cut(file), NMEA_MAX_LEN);
    ParseIsGreedy(file, NMEA_MAX_LEN);
  }

  lemma {:induction false} FeedAllGrows(a: seq<seq<byte>>, b: seq<seq<byte>>, giveUp: nat)
    ensures FeedAll(a, giveUp).frames <= FeedAll(a + b, giveUp).frames
    decreases |b|
  {
    hide Parse;
    if b == [] {
      assert a + b == a;
    } else {
      FeedAllGrows(a, b[..|b| - 1], giveUp);
      assert (a + b)[..|a + b| - 1] == a + b[..|b| - 1];
    }
  }

  ghost predicate Sized(frames: seq<Frame>) {
    forall f | f in frames :: 5 <= |f.raw| <= MOST_HELD + 1
  }

  lemma HeadIsBounded(buf: seq<byte>)
    requires buf != []
    ensures var v := Head(buf, NMEA_MAX_LEN); v.Complete? ==> v.length <= MOST_HELD + 1
  {
  }

  lemma {:induction false} ParseIsSized(buf: seq<byte>)
    ensures Sized(Parse(buf, NMEA_MAX_LEN).frames)
    decreases |buf|
  {
    hide Head;
    if buf != [] && !Head(buf, NMEA_MAX_LEN).Incomplete? {
      HeadIsBounded(buf);
      AdvanceWithin(buf, NMEA_MAX_LEN);
      ParseIsSized(buf[Advance(Head(buf, NMEA_MAX_LEN))..]);
    }
  }

  lemma {:induction false} FeedAllIsSized(chunks: seq<seq<byte>>)
    ensures Sized(FeedAll(chunks, NMEA_MAX_LEN).frames)
    decreases |chunks|
  {
    hide Parse;
    if chunks != [] {
      FeedAllIsSized(chunks[..|chunks| - 1]);
      ParseIsSized(FeedAll(chunks[..|chunks| - 1], NMEA_MAX_LEN).rest + chunks[|chunks| - 1]);
    }
  }

  // ------------------------------------------------------------------ one piece of a replay

  predicate IsNavEoe(f: Frame) {
    f.proto == UBX && |f.raw| >= 4 && f.raw[2] == 0x01 && f.raw[3] == 0x61
  }

  predicate IsNavPvt(f: Frame) {
    f.proto == UBX && |f.raw| >= 4 && f.raw[2] == 0x01 && f.raw[3] == 0x07
  }

  /** Whether the last marker was a NAV-EOE; `before` if there was none. */
  function EoeLast(before: bool, frames: seq<Frame>): bool {
    if frames == [] then before
    else if IsNavEoe(frames[|frames| - 1]) then true
    else if IsNavPvt(frames[|frames| - 1]) then false
    else EoeLast(before, frames[..|frames| - 1])
  }

  /** Frame `i` closes its epoch: a NAV-EOE, or a NAV-PVT after an epoch that had none. */
  predicate Closes(frames: seq<Frame>, i: nat, before: bool)
    requires i < |frames|
  {
    IsNavEoe(frames[i]) || (IsNavPvt(frames[i]) && !EoeLast(before, frames[..i]))
  }

  function Content(frames: seq<Frame>): seq<byte> {
    Flatten(Raws(frames))
  }

  /** The next `n` frames are one piece: they go on to the first that closes an epoch, or to the end,
      or as far as fits. */
  predicate IsPiece(frames: seq<Frame>, n: nat, before: bool) {
    n <= |frames|
    && (n == 0 <==> frames == [])
    && (forall i | 0 <= i < n - 1 :: !Closes(frames, i, before))
    && (n <= 1 || |Content(frames[..n])| <= MAX_REPLAY_CHUNK)
    && (n == |frames| || Closes(frames, n - 1, before) || |Content(frames[..n + 1])| > MAX_REPLAY_CHUNK)
  }

  lemma ContentAppend(a: seq<Frame>, f: Frame)
    ensures Content(a + [f]) == Content(a) + f.raw
    ensures EoeLast(true, a + [f]) == (IsNavEoe(f) || (!IsNavPvt(f) && EoeLast(true, a)))
    ensures EoeLast(false, a + [f]) == (IsNavEoe(f) || (!IsNavPvt(f) && EoeLast(false, a)))
  {
    RawsAppend(a, [f]);
    assert [f][1..] == [];
    assert Raws([f]) == [f.raw];
    FlattenAppend(Raws(a), [f.raw]);
    FlattenSingle(f.raw);
    assert (a + [f])[..|a|] == a;
  }

  lemma {:induction false} ContentGrows(frames: seq<Frame>, i: nat, j: nat)
    requires i <= j <= |frames|
    ensures |Content(frames[..i])| <= |Content(frames[..j])|
    decreases j
  {
    if i < j {
      ContentGrows(frames, i, j - 1);
      ContentAppend(frames[..j - 1], frames[j - 1]);
      assert frames[..j - 1] + [frames[j - 1]] == frames[..j];
    }
  }

  /** There is one way to cut the next piece. */
  lemma PieceIsUnique(frames: seq<Frame>, n: nat, m: nat, before: bool)
    requires IsPiece(frames, n, before) && IsPiece(frames, m, before)
    ensures n == m
  {
    hide Closes, Content;
    if n < m {
      ContentGrows(frames, n + 1, m);
    } else if m < n {
      ContentGrows(frames, m + 1, n);
    }
  }

  lemma {:induction false} AfterPvt(frames: seq<Frame>, i: nat, j: nat, before: bool)
    requires i < j <= |frames| && IsNavPvt(frames[i]) && forall k | i <= k < j :: !IsNavEoe(frames[k])
    ensures !EoeLast(before, frames[..j])
    decreases j
  {
    assert frames[..j][..j - 1] == frames[..j - 1];
    if i < j - 1 {
      AfterPvt(frames, i, j - 1, before);
    }
  }

  /** Until a NAV-EOE comes, the last marker is one only if it was so at the start. */
  lemma {:induction false} StillBefore(frames: seq<Frame>, i: nat, before: bool)
    requires i <= |frames| && EoeLast(before, frames[..i]) && forall k | 0 <= k < i :: !IsNavEoe(frames[k])
    ensures before
    decreases i
  {
    if i > 0 {
      assert frames[..i][..i - 1] == frames[..i - 1];
      StillBefore(frames, i - 1, before);
    }
  }

  /** A piece fits, and holds one epoch: at most one NAV-EOE, its last frame; and a second NAV-PVT only
      as its last frame, when the epoch before it closed with a NAV-EOE and this one did not. */
  lemma PieceIsOneEpoch(frames: seq<Frame>, n: nat, before: bool)
    requires Sized(frames) && IsPiece(frames, n, before)
    ensures |Content(frames[..n])| <= MAX_REPLAY_CHUNK
    ensures forall i | 0 <= i < n - 1 :: !IsNavEoe(frames[i])
    ensures forall i, j | 0 <= i < j < n && IsNavPvt(frames[i]) && IsNavPvt(frames[j]) :: j == n - 1 && before
  {
    if n == 1 {
      ContentAppend([], frames[0]);
      assert frames[..1] == [] + [frames[0]];
      assert frames[0] in frames;
    }
    forall i | 0 <= i < n - 1
      ensures !IsNavEoe(frames[i])
    {
      assert !Closes(frames, i, before);
    }
    forall i, j | 0 <= i < j < n && IsNavPvt(frames[i]) && IsNavPvt(frames[j])
      ensures j == n - 1 && before
    {
      assert !Closes(frames, i, before);
      AfterPvt(frames, i, j, before);
      assert j < n - 1 ==> !Closes(frames, j, before);
      StillBefore(frames, i, before);
    }
  }

  // ------------------------------------------------------------------ the search for a first NAV-EOE

  predicate HeadAt(window: seq<byte>, k: nat) {
    k + 6 <= |window| && window[k..k + 6] == EOE_HEAD
  }

  predicate NavEoeAt(file: seq<byte>, p: nat) {
    p + EOE_SIZE <= |file| && HeadAt(file, p)
    && file[p + 10..p + 12] == Crc.FletcherSpec(file[p + 2..p + 10])
  }

  /** What is looked for is a NAV-EOE as a receiver sends it: class 1, id 0x61, four bytes of payload. */
  lemma NavEoeIsSent(file: seq<byte>, p: nat)
    requires p + EOE_SIZE <= |file|
    ensures var raw := file[p..p + EOE_SIZE];
      (NavEoeAt(file, p) <==> raw == Encodings.UbxFrame(1, 0x61, raw[6..10]))
      && (NavEoeAt(file, p) ==> IsFrame(UBX, raw) && IsNavEoe(Frame(UBX, raw)))
  {
    hide Crc.FletcherSpec;
    var raw := file[p..p + EOE_SIZE];
    var sent := Encodings.UbxFrame(1, 0x61, raw[6..10]);
    Encodings.UbxFrameIsUbx(1, 0x61, raw[6..10]);
    Slice(file, p, p + EOE_SIZE, 0, 6);
    Slice(file, p, p + EOE_SIZE, 2, 10);
    Slice(file, p, p + EOE_SIZE, 10, 12);
    assert raw == raw[..6] + raw[6..10] + raw[10..12];
    assert sent[..6] == EOE_HEAD;
    assert sent[2..10] == [1, 0x61, 4, 0] + raw[6..10];
    assert raw[2..10] == raw[..6][2..] + raw[6..10];
  }

  /** The markers among UBX frames as sent. */
  lemma MarkersAsSent(cls: byte, id: byte, payload: seq<byte>)
    requires |payload| <= 8192
    ensures var f := Frame(UBX, Encodings.UbxFrame(cls, id, payload));
      (IsNavEoe(f) <==> cls == 1 && id == 0x61) && (IsNavPvt(f) <==> cls == 1 && id == 7)
  {
    Encodings.UbxFrameIsUbx(cls, id, payload);
  }

  /** A recording of what was sent replays as just that. */
  lemma RecordingReplayed(ms: seq<Encodings.Sent>)
    requires Encodings.AllSendable(ms) && forall m | m in ms :: Encodings.InTime(m)
    ensures AllFrames(Encodings.Line(ms)) == Encodings.FramesOf(ms)
  {
    CutJoins(Encodings.Line(ms));
    Encodings.SentInPieces(ms, Cut(Encodings.Line(ms)));
  }

  /** `window.find(_EOE_HEAD, from)` */
  method FindHead(window: seq<byte>, from: nat) returns (at: int)
    ensures at == -1 || (from <= at && HeadAt(window, at))
    ensures forall k: nat | from <= k && (at == -1 || k < at) :: !HeadAt(window, k)
  {
    at := from;
    while at + 6 <= |window|
      invariant from <= at
      invariant forall k: nat | from <= k < at :: !HeadAt(window, k)
    {
      if window[at..at + 6] == EOE_HEAD {
        return;
      }
      at := at + 1;
    }
    at := -1;
  }

  lemma Slice(file: seq<byte>, start: nat, end: nat, i: nat, j: nat)
    requires start <= end <= |file| && i <= j <= end - start
    ensures file[start..end][i..j] == file[start + i..start + j]
  {
    assert forall k | 0 <= k < j - i :: file[start..end][i..j][k] == file[start + i..start + j][k];
  }

  lemma NavEoeInWindow(file: seq<byte>, start: nat, end: nat, k: nat)
    requires start <= end <= |file| && k + EOE_SIZE <= end - start
    ensures NavEoeAt(file[start..end], k) <==> NavEoeAt(file, start + k)
  {
    hide Crc.FletcherSpec;
    Slice(file, start, end, k, k + 6);
    Slice(file, start, end, k + 10, k + 12);
    Slice(file, start, end, k + 2, k + 10);
  }

  /** The first checksum-valid NAV-EOE of a window; -1 if there is none. */
  method Search(window: seq<byte>) returns (at: int)
    ensures at == -1 || (at >= 0 && NavEoeAt(window, at))
    ensures at == -1 ==> forall k: nat :: !NavEoeAt(window, k)
  {
    hide Crc.FletcherSpec;
    at := FindHead(window, 0);
    ghost var from := 0;
    while 0 <= at && at + EOE_SIZE <= |window|
      invariant -1 <= at && from <= |window| && (at >= 0 ==> from <= at && HeadAt(window, at))
      invariant forall k: nat | k < from :: !NavEoeAt(window, k)
      invariant forall k: nat | from <= k && (at == -1 || k < at) :: !HeadAt(window, k)
      decreases |window| - from
    {
      var frame := window[at..at + EOE_SIZE];
      Slice(window, at, at + EOE_SIZE, 2, EOE_SIZE - 2);
      Slice(window, at, at + EOE_SIZE, EOE_SIZE - 2, EOE_SIZE);
      var ck := Crc.UbxChecksum(frame[2..EOE_SIZE - 2]);
      if frame[EOE_SIZE - 2..EOE_SIZE] == ck {
        return;
      }
      from := at + 1;
      at := FindHead(window, at + 1);
    }
    at := -1;
  }

  lemma TwoSlices(file: seq<byte>, a: nat, b: nat, c: nat)
    requires a <= b <= c <= |file|
    ensures file[a..b] + file[b..c] == file[a..c]
  {
  }

  lemma Inside(file: seq<byte>)
    ensures forall p: nat :: NavEoeAt(file, p) ==> p + EOE_SIZE <= |file|
  {
  }

  lemma NoneInWindow(file: seq<byte>, start: nat, pos: nat, next: nat)
    requires start <= pos <= next <= |file| && (start == 0 || start + EOE_SIZE - 1 <= pos)
    requires forall k: nat :: !NavEoeAt(file[start..next], k)
    requires forall p: nat | p + EOE_SIZE <= pos :: !NavEoeAt(file, p)
    ensures forall p: nat | p + EOE_SIZE <= next :: !NavEoeAt(file, p)
  {
    forall p: nat | p + EOE_SIZE <= next
      ensures !NavEoeAt(file, p)
    {
      if p + EOE_SIZE > pos {
        assert !NavEoeAt(file[start..next], p - start);
        NavEoeInWindow(file, start, next, p - start);
      }
    }
  }

  /** Whether a NAV-EOE lies within the first `scan` bytes, looked for in reads of `piece` bytes with
      the tail of one carried into the next. */
  method HasNavEoe(file: seq<byte>, piece: nat, scan: nat) returns (found: bool)
    requires piece > 0
    ensures found <==> exists p: nat :: p + EOE_SIZE <= scan && NavEoeAt(file, p)
  {
    hide NavEoeAt;
    assert forall p: nat :: p + EOE_SIZE <= scan && NavEoeAt(file, p) ==> p + EOE_SIZE <= |file| by {
      Inside(file);
    }
    var tail: seq<byte>, pos := [], 0;
    while pos < scan && pos < |file|
      invariant pos <= scan && pos <= |file|
      invariant |tail| <= pos && tail == file[pos - |tail|..pos] && (|tail| == EOE_SIZE - 1 || |tail| == pos < EOE_SIZE)
      invariant forall p: nat | p + EOE_SIZE <= pos :: !NavEoeAt(file, p)
      decreases scan - pos
    {
      var most := if piece < scan - pos then piece else scan - pos;
      var next := if pos + most < |file| then pos + most else |file|;
      var start := pos - |tail|;
      var window := tail + file[pos..next];
      TwoSlices(file, start, pos, next);
      var at := Search(window);
      if at >= 0 {
        Inside(window);
        NavEoeInWindow(file, start, next, at);
        return true;
      }
      NoneInWindow(file, start, pos, next);
      tail := if |window| < EOE_SIZE - 1 then window else window[|window| - (EOE_SIZE - 1)..];
      pos := next;
    }
    return false;
  }

  // ------------------------------------------------------------------ the source

  lemma StartOfPass(source: FileReplaySource)
    requires source.framer.Valid() && !source.framer.capped && source.framer.chunks == []
    requires source.framer.maxBuffer == DEFAULT_MAX_BUFFER
    requires source.pos == 0 && source.pending == [] && !source.eof && source.frames == 0
    requires source.replayed == [] && source.delivered == [] && source.eoeSincePvt == source.markerIsEoe
    ensures source.Valid()
  {
    hide Cut, Framer.Valid, AllFrames;
    NothingFed(source.framer);
    assert [] + Cut(source.file[0..]) == Cut(source.file) by {
      assert source.file[0..] == source.file;
    }
  }

  lemma EndOfPass(source: FileReplaySource)
    requires source.Flowing() && source.pending == [] && source.pos == |source.file|
    ensures source.replayed == AllFrames(source.file)
  {
    hide FeedAll;
    var chunks := source.framer.chunks;
    assert source.file[source.pos..] == [];
    assert chunks + [] == chunks;
  }

  lemma CutFirst(rest: seq<byte>, n: nat)
    requires rest != [] && n == if REPLAY_READ < |rest| then REPLAY_READ else |rest|
    ensures Cut(rest) == [rest[..n]] + Cut(rest[n..])
  {
    if n == |rest| {
      assert rest[..n] == rest && rest[n..] == [];
    }
  }

  lemma CutNext(file: seq<byte>, pos: nat, next: nat, chunks: seq<seq<byte>>)
    requires pos < |file| && next == if pos + REPLAY_READ < |file| then pos + REPLAY_READ else |file|
    requires chunks + Cut(file[pos..]) == Cut(file)
    ensures (chunks + [file[pos..next]]) + Cut(file[next..]) == Cut(file)
  {
    hide Cut;
    CutFirst(file[pos..], next - pos);
    assert file[pos..][..next - pos] == file[pos..next];
    assert file[pos..][next - pos..] == file[next..];
  }

  lemma SoFar(source: FileReplaySource)
    requires source.Flowing()
    ensures source.replayed + source.pending <= AllFrames(source.file)
  {
    hide Cut;
    FeedAllGrows(source.framer.chunks, Cut(source.file[source.pos..]), NMEA_MAX_LEN);
  }

  // ------------------------------------------------------------------ the loop of `Read`

  /** What `chunk` and the flag hold when the first `n` of `todo` are in the chunk. */
  ghost predicate Taken(todo: seq<Frame>, n: nat, before: bool, chunk: seq<byte>, eoe: bool) {
    n <= |todo| && chunk == Content(todo[..n]) && (chunk == [] <==> n == 0)
    && eoe == EoeLast(before, todo[..n])
    && (n <= 1 || |chunk| <= MAX_REPLAY_CHUNK)
  }

  ghost predicate NoneCloses(todo: seq<Frame>, n: nat, before: bool)
    requires n <= |todo|
  {
    forall i | 0 <= i < n :: !Closes(todo, i, before)
  }

  lemma NothingTaken(todo: seq<Frame>, before: bool)
    ensures Taken(todo, 0, before, [], before) && NoneCloses(todo, 0, before) && todo[..0] == []
  {
  }

  lemma AllTaken(todo: seq<Frame>, n: nat, before: bool, chunk: seq<byte>, eoe: bool)
    requires n == |todo| && Taken(todo, n, before, chunk, eoe) && NoneCloses(todo, n, before)
    ensures IsPiece(todo, n, before)
  {
  }

  lemma AllSized(file: seq<byte>)
    ensures Sized(AllFrames(file))
  {
    FeedAllIsSized(Cut(file));
  }

  lemma FrameTaken(file: seq<byte>, done: seq<Frame>, todo: seq<Frame>, n: nat, frame: Frame, before: bool,
                   chunk: seq<byte>, eoe: bool)
    requires done + todo == AllFrames(file) && Taken(todo, n, before, chunk, eoe) && NoneCloses(todo, n, before)
    requires done + todo[..n] + [frame] <= done + todo
    ensures n < |todo| && (done + todo[..n]) + [frame] == done + todo[..n + 1]
    ensures chunk != [] && |chunk| + |frame.raw| > MAX_REPLAY_CHUNK ==> IsPiece(todo, n, before)
    ensures chunk == [] || |chunk| + |frame.raw| <= MAX_REPLAY_CHUNK ==>
      var flag := IsNavEoe(frame) || (!IsNavPvt(frame) && eoe);
      Taken(todo, n + 1, before, chunk + frame.raw, flag)
      && if IsNavEoe(frame) || (IsNavPvt(frame) && !eoe) then IsPiece(todo, n + 1, before)
         else NoneCloses(todo, n + 1, before)
    ensures frame.proto != UBX ==> !IsNavEoe(frame) && !IsNavPvt(frame)
    ensures !(IsNavEoe(frame) && IsNavPvt(frame))
  {
    hide AllFrames, Content, EoeLast;
    assert (done + todo)[|done| + n] == frame == todo[n];
    AllSized(file);
    assert frame in AllFrames(file);
    assert todo[..n + 1] == todo[..n] + [frame];
    ContentAppend(todo[..n], frame);
  }

  lemma Delivered(delivered: seq<seq<byte>>, before: seq<byte>, chunk: seq<byte>)
    requires Flatten(delivered) == before
    ensures Flatten(delivered + if chunk == [] then [] else [chunk]) == before + chunk
  {
    if chunk == [] {
      assert delivered + [] == delivered && before + [] == before;
    } else {
      FlattenAppend(delivered, [chunk]);
      FlattenSingle(chunk);
    }
  }

  lemma {:induction false} Joined(before: bool, a: seq<Frame>, b: seq<Frame>)
    ensures Content(a + b) == Content(a) + Content(b)
    ensures EoeLast(before, a + b) == EoeLast(EoeLast(before, a), b)
    decreases |b|
  {
    hide IsNavEoe, IsNavPvt;
    if b == [] {
      assert a + b == a && Content(b) == [];
    } else {
      var init, last := b[..|b| - 1], b[|b| - 1];
      Joined(before, a, init);
      assert (a + init) + [last] == a + b && init + [last] == b;
      ContentAppend(a + init, last);
      ContentAppend(init, last);
      assert (Content(a) + Content(init)) + last.raw == Content(a) + (Content(init) + last.raw);
    }
  }

  lemma PieceDone(delivered: seq<seq<byte>>, done: seq<Frame>, todo: seq<Frame>, n: nat, marker: bool,
                  chunk: seq<byte>, eoe: bool)
    requires Flatten(delivered) == Content(done)
    requires Taken(todo, n, EoeLast(marker, done), chunk, eoe) && IsPiece(todo, n, EoeLast(marker, done))
    ensures Flatten(delivered + if chunk == [] then [] else [chunk]) == Content(done + todo[..n])
    ensures EoeLast(marker, done + todo[..n]) == eoe
    ensures (done + todo[..n])[|done|..] == todo[..n] && chunk == Content(todo[..n])
    ensures chunk == [] <==> n == 0
    ensures n == 0 <==> todo == []
  {
    hide Content, EoeLast, Flatten;
    Joined(marker, done, todo[..n]);
    Delivered(delivered, Content(done), chunk);
  }

  // ------------------------------------------------------------------ the object

  class FileReplaySource {
    const file: seq<byte>
    const loop: bool
    const markerIsEoe: bool
    var pos: nat
    var framer: Framer
    var pending: seq<Frame>
    var eof: bool
    var eoeSincePvt: bool
    var frames: nat
    ghost var replayed: seq<Frame>        // in this pass
    ghost var delivered: seq<seq<byte>>   // the results of `Read` in this pass

    /** What came out of the framer is what was replayed and then what waits; nothing is lost between. */
    ghost predicate Flowing()
      reads `pos, `framer, `pending, `eof, `frames, `replayed, framer
    {
      framer.Valid() && !framer.capped && framer.maxBuffer == DEFAULT_MAX_BUFFER
      && pos <= |file|
      && framer.chunks + Cut(file[pos..]) == Cut(file)
      && framer.history.frames == replayed + pending
      && frames == |replayed|
      && (eof ==> pos == |file| && pending == [])
    }

    ghost predicate Valid()
      reads this, framer
    {
      Flowing()
      && replayed <= AllFrames(file)
      && Flatten(delivered) == Content(replayed)
      && eoeSincePvt == EoeLast(markerIsEoe, replayed)
    }

    /** As opened: at the first byte, expecting the marker that the file's head shows. */
    constructor (file: seq<byte>, loop: bool)
      ensures Valid() && fresh(framer) && this.file == file && this.loop == loop
      ensures replayed == [] && delivered == []
      ensures markerIsEoe <==> exists p: nat :: p + EOE_SIZE <= REPLAY_HEAD_SCAN && NavEoeAt(file, p)
    {
      var hasEoe := HasNavEoe(file, REPLAY_READ, REPLAY_HEAD_SCAN);
      var f := new Framer();
      this.file := file;
      this.loop := loop;
      markerIsEoe := hasEoe;
      pos, framer, pending, eof, eoeSincePvt, frames := 0, f, [], false, hasEoe, 0;
      replayed, delivered := [], [];
      new;
      StartOfPass(this);
    }

    method Rewind()
      modifies this
      ensures Valid() && fresh(framer) && replayed == [] && delivered == []
    {
      hide Framer.Valid;
      pos := 0;
      framer := new Framer();
      pending := [];
      eof := false;
      eoeSincePvt := markerIsEoe;
      frames := 0;
      replayed, delivered := [], [];
      StartOfPass(this);
    }

    method NextFrame() returns (r: Option<Frame>)
      requires Flowing()
      modifies this`pos, this`pending, this`eof, this`frames, this`replayed, framer
      ensures Flowing()
      ensures match r
              case None => replayed == old(replayed) == AllFrames(file)
              case Some(f) => !eof && replayed == old(replayed) + [f] && replayed <= AllFrames(file)
    {
      hide AllFrames, FeedAll, Framer.Valid, Cut, Parse, Flatten;
      while pending == []
        invariant Flowing() && replayed == old(replayed)
        decreases |file| - pos
      {
        if eof {
          EndOfPass(this);
          return None;
        }
        var next := if pos + REPLAY_READ < |file| then pos + REPLAY_READ else |file|;
        var data := file[pos..next];
        if data == [] {
          eof := true;
          EndOfPass(this);
          return None;
        }
        CutNext(file, pos, next, framer.chunks);
        HeldBound(framer);
        var out := framer.Feed(data);
        pos := next;
        pending := pending + out;
        assert replayed + pending == replayed + out;
      }
      var frame := pending[0];
      frames := frames + 1;
      replayed := replayed + [frame];
      pending := pending[1..];
      assert framer.history.frames == replayed + pending;
      SoFar(this);
      return Some(frame);
    }

    /** `frame` waits for the next piece. */
    method PushBack(frame: Frame)
      requires Flowing() && !eof && replayed != [] && replayed[|replayed| - 1] == frame
      modifies `pending, `frames, `replayed
      ensures Flowing() && replayed == old(replayed)[..|old(replayed)| - 1]
    {
      hide Framer.Valid, Cut;
      assert replayed + pending == replayed[..|replayed| - 1] + ([frame] + pending);
      pending := [frame] + pending;
      frames := frames - 1;
      replayed := replayed[..|replayed| - 1];
    }

    /** The result `chunk` of a read holds the first `n` frames of those that were left. */
    ghost method HandOver(done: seq<Frame>, todo: seq<Frame>, n: nat, chunk: seq<byte>)
      requires Flowing() && done + todo == AllFrames(file) && Flatten(delivered) == Content(done)
      requires n <= |todo| && replayed == done + todo[..n]
      requires Taken(todo, n, EoeLast(markerIsEoe, done), chunk, eoeSincePvt)
      requires IsPiece(todo, n, EoeLast(markerIsEoe, done))
      modifies this`delivered
      ensures Valid()
      ensures done <= replayed && |replayed| - |done| == n && chunk == Content(replayed[|done|..])
      ensures chunk == [] <==> todo == []
      ensures delivered == old(delivered) + if chunk == [] then [] else [chunk]
    {
      hide AllFrames, Flowing, Content, EoeLast, Flatten, IsPiece, Taken;
      PieceDone(delivered, done, todo, n, markerIsEoe, chunk, eoeSincePvt);
      assert replayed <= done + todo;
      delivered := delivered + if chunk == [] then [] else [chunk];
    }

    /** The next piece of this pass; nothing at its end. */
    method ReadOn() returns (chunk: seq<byte>)
      requires Valid()
      modifies this, framer
      ensures Valid() && framer == old(framer)
      ensures old(replayed) <= replayed
      ensures IsPiece(AllFrames(file)[|old(replayed)|..], |replayed| - |old(replayed)|, old(eoeSincePvt))
      ensures chunk == Content(replayed[|old(replayed)|..]) && (chunk == [] <==> old(replayed) == AllFrames(file))
      ensures delivered == old(delivered) + if chunk == [] then [] else [chunk]
    {
      hide AllFrames, Flowing, Content, EoeLast, IsNavEoe, IsNavPvt, Flatten, IsPiece, Taken, NoneCloses;
      ghost var done, todo, before := replayed, AllFrames(file)[|replayed|..], eoeSincePvt;
      ghost var n := 0;
      chunk := [];
      NothingTaken(todo, before);
      while true
        invariant Flowing() && n <= |todo| && replayed == done + todo[..n]
        invariant Taken(todo, n, before, chunk, eoeSincePvt) && NoneCloses(todo, n, before)
        invariant framer == old(framer) && delivered == old(delivered)
        decreases |todo| - n
      {
        var r := NextFrame();
        if r.None? {
          AllTaken(todo, n, before, chunk, eoeSincePvt);
          break;
        }
        var frame := r.value;
        FrameTaken(file, done, todo, n, frame, before, chunk, eoeSincePvt);
        if chunk != [] && |chunk| + |frame.raw| > MAX_REPLAY_CHUNK {
          PushBack(frame);
          break;
        }
        chunk := chunk + frame.raw;
        n := n + 1;
        if frame.proto != UBX {
          continue;
        }
        if IsNavEoe(frame) {
          eoeSincePvt := true;
          break;
        }
        if IsNavPvt(frame) {
          var endsEpoch := !eoeSincePvt;
          eoeSincePvt := false;
          if endsEpoch {
            break;
          }
        }
      }
      HandOver(done, todo, n, chunk);
    }

    /** The next piece; after the last one, nothing - or, looping, the first piece again. */
    method Read() returns (chunk: seq<byte>)
      requires Valid()
      modifies this, framer
      ensures Valid() && (framer == old(framer) || fresh(framer))
      ensures var all := AllFrames(file);
        var again := old(replayed) == all && loop;
        var done := if again then [] else old(replayed);
        done <= replayed
        && IsPiece(all[|done|..], |replayed| - |done|, EoeLast(markerIsEoe, done))
        && chunk == Content(replayed[|done|..])
        && delivered == (if again then [] else old(delivered)) + (if chunk == [] then [] else [chunk])
      ensures chunk == [] ==> replayed == AllFrames(file) && Flatten(delivered) == Content(AllFrames(file))
    {
      hide AllFrames, Flowing, Closes, Content, Flatten;
      chunk := ReadOn();
      if chunk == [] && loop {
        Rewind();
        chunk := ReadOn();
      }
    }
  }
}
