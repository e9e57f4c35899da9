/** Feeding a stream to the framer in pieces: when it makes a difference, and when it cannot. */
module Chunking {
  import opened Bytes
  import opened Frames

  /** Parse `a`, then what it left together with `b`: two calls of `feed`. */
  ghost function ParseTwo(a: seq<byte>, b: seq<byte>, giveUp: nat): Parsed {
    var p := Parse(a, giveUp);
    Parsed(p.frames, p.garbage, p.errors, []).Then(Parse(p.rest + b, giveUp))
  }

  /** A `$` sentence whose CRLF lies beyond the bytes the framer waits for, but inside the window
      it searches, and which is not plainly malformed. */
  ghost predicate Late(buf: seq<byte>, giveUp: nat) {
    buf != [] && buf[0] == NMEA_START
    && FirstCrlf(buf, 0) + 2 > giveUp
    && FirstCrlf(buf, 0) >= 0
    && Sentence(buf, FirstCrlf(buf, 0)) != Invalid(false)
  }

  /** How many bytes must be there before the verdict on this candidate is the final one. */
  ghost function Needed(buf: seq<byte>, giveUp: nat): nat
    requires buf != []
  {
    if buf[0] == UBX_SYNC1 then
      if |buf| < 2 || buf[1] != UBX_SYNC2 then 2
      else if |buf| < 6 || UbxPayloadLength(buf) > UBX_MAX_PAYLOAD then 6
      else 8 + UbxPayloadLength(buf)
    else if buf[0] == RTCM_PREAMBLE then
      if |buf| < 3 || buf[1] / 4 != 0 then 3 else 6 + RtcmPayloadLength(buf)
    else if buf[0] == NMEA_START then
      var end := FirstCrlf(buf, 0);
      if end < 0 then giveUp
      else if Sentence(buf, end) == Invalid(false) && giveUp < end + 2 then giveUp
      else end + 2
    else 1
  }

  lemma FirstCrlfOfPrefix(buf: seq<byte>, m: nat)
    requires m <= |buf|
    ensures FirstCrlf(buf[..m], 0) == if FirstCrlf(buf, 0) + 2 <= m then FirstCrlf(buf, 0) else -1
  {
    var p, q := FirstCrlf(buf[..m], 0), FirstCrlf(buf, 0);
    if p >= 0 {
      assert buf[..m][p] == buf[p] && buf[..m][p + 1] == buf[p + 1];
    }
    if q >= 0 && q + 2 <= m {
      assert buf[..m][q] == buf[q] && buf[..m][q + 1] == buf[q + 1];
    }
  }

  lemma SentenceOfPrefix(buf: seq<byte>, m: nat, end: nat)
    requires end + 2 <= m <= |buf| && buf[0] == NMEA_START
    ensures Sentence(buf[..m], end) == Sentence(buf, end)
  {
    assert buf[..m][..end] == buf[..end];
    var star := LastStar(buf[..end]);
    if star >= 0 && end - star == 3 {
      assert buf[..m][star + 1..end] == buf[star + 1..end];
      if star >= 1 {
        assert buf[..m][1..star] == buf[1..star];
      }
    }
  }

  lemma UbxOfPrefix(buf: seq<byte>, m: nat, giveUp: nat)
    requires 1 <= m <= |buf| && buf[0] == UBX_SYNC1
    ensures m < Needed(buf, giveUp) ==> TryUbx(buf[..m]).Incomplete?
    ensures m >= Needed(buf, giveUp) ==> TryUbx(buf[..m]) == TryUbx(buf) && !TryUbx(buf).Incomplete?
  {
    if m >= Needed(buf, giveUp) > 6 {
      var total := 8 + UbxPayloadLength(buf);
      assert buf[..m][total - 2..total] == buf[total - 2..total];
      assert buf[..m][2..total - 2] == buf[2..total - 2];
    }
  }

  lemma RtcmOfPrefix(buf: seq<byte>, m: nat, giveUp: nat)
    requires 1 <= m <= |buf| && buf[0] == RTCM_PREAMBLE
    ensures m < Needed(buf, giveUp) ==> TryRtcm(buf[..m]).Incomplete?
    ensures m >= Needed(buf, giveUp) ==> TryRtcm(buf[..m]) == TryRtcm(buf) && !TryRtcm(buf).Incomplete?
  {
    if m >= Needed(buf, giveUp) > 3 {
      var total := 6 + RtcmPayloadLength(buf);
      assert buf[..m][total - 3..total] == buf[total - 3..total];
      assert buf[..m][..total - 3] == buf[..total - 3];
    }
  }

  /** The bytes between the moment the framer gives up on a late sentence and its end. */
  ghost predicate Clipped(buf: seq<byte>, m: nat, giveUp: nat) {
    Late(buf, giveUp) && giveUp <= m < FirstCrlf(buf, 0) + 2
  }

  /** The verdict on a candidate does not depend on how much of the stream follows it, once the
      bytes it needs are there - except for a late sentence that is cut inside its last bytes. */
  lemma HeadOfPrefix(buf: seq<byte>, m: nat, giveUp: nat)
    requires 1 <= m <= |buf|
    ensures Clipped(buf, m, giveUp) ==>
      Head(buf[..m], giveUp) == Invalid(false) != Head(buf, giveUp) && !Head(buf, giveUp).Incomplete?
    ensures !Clipped(buf, m, giveUp) && m < Needed(buf, giveUp) ==> Head(buf[..m], giveUp).Incomplete?
    ensures !Clipped(buf, m, giveUp) && m >= Needed(buf, giveUp) ==>
      Head(buf[..m], giveUp) == Head(buf, giveUp) && !Head(buf, giveUp).Incomplete?
  {
    if buf[0] == UBX_SYNC1 {
      UbxOfPrefix(buf, m, giveUp);
    } else if buf[0] == RTCM_PREAMBLE {
      RtcmOfPrefix(buf, m, giveUp);
    } else if buf[0] == NMEA_START {
      var end := FirstCrlf(buf, 0);
      FirstCrlfOfPrefix(buf, m);
      if end >= 0 && end + 2 <= m {
        SentenceOfPrefix(buf, m, end);
      }
    }
  }

  // ------------------------------------------------------------------ two pieces

  /** A frame cut short is waited for, or a sentence given up. */
  lemma CompleteNeedsAll(raw: seq<byte>, k: nat, giveUp: nat)
    requires 0 < k < |raw| && Head(raw, giveUp).Complete? && Head(raw, giveUp).length == |raw|
    ensures Head(raw[..k], giveUp) == if raw[0] == NMEA_START && k >= giveUp then Invalid(false) else Incomplete
  {
    if raw[0] == UBX_SYNC1 {
      UbxOfPrefix(raw, k, giveUp);
    } else if raw[0] == RTCM_PREAMBLE {
      RtcmOfPrefix(raw, k, giveUp);
    } else {
      FirstCrlfOfPrefix(raw, k);
    }
  }

  lemma ParseIncomplete(buf: seq<byte>, giveUp: nat)
    requires buf != [] && Head(buf, giveUp).Incomplete?
    ensures Parse(buf, giveUp) == Parsed([], 0, 0, buf)
  {
  }

  lemma ParseStep(buf: seq<byte>, giveUp: nat)
    requires buf != [] && !Head(buf, giveUp).Incomplete?
    ensures Parse(buf, giveUp) == Step(buf, Head(buf, giveUp)).Then(Parse(buf[Advance(Head(buf, giveUp))..], giveUp))
  {
  }

  lemma ThenAssociates(a: Parsed, b: Parsed, c: Parsed)
    ensures a.Then(b).Then(c) == a.Then(b.Then(c))
  {
  }

  lemma AdvanceWithin(buf: seq<byte>, giveUp: nat)
    requires buf != [] && !Head(buf, giveUp).Incomplete?
    ensures 1 <= Advance(Head(buf, giveUp)) <= |buf|
  {
  }

  lemma ParseTwoStep(buf: seq<byte>, m: nat, giveUp: nat)
    requires 1 <= m <= |buf| && !Head(buf[..m], giveUp).Incomplete?
    ensures var v := Head(buf[..m], giveUp); var n := Advance(v);
      ParseTwo(buf[..m], buf[m..], giveUp) == Step(buf, v).Then(ParseTwo(buf[n..][..m - n], buf[n..][m - n..], giveUp))
  {
    hide Head, Parse;
    var v := Head(buf[..m], giveUp);
    var n := Advance(v);
    AdvanceWithin(buf[..m], giveUp);
    ParseStep(buf[..m], giveUp);
    assert buf[..m][n..] == buf[n..][..m - n];
    assert buf[m..] == buf[n..][m - n..];
    assert buf[..m][..n] == buf[..n];
    var p := Parse(buf[..m][n..], giveUp);
    var q := Parsed(p.frames, p.garbage, p.errors, []);
    ThenAssociates(Step(buf, v), q, Parse(p.rest + buf[m..], giveUp));
  }

  lemma ParseTwoIncomplete(buf: seq<byte>, m: nat, giveUp: nat)
    requires m <= |buf| && (m > 0 ==> Head(buf[..m], giveUp).Incomplete?)
    ensures ParseTwo(buf[..m], buf[m..], giveUp) == Parse(buf, giveUp)
  {
    hide Head;
    var p := Parse(buf[..m], giveUp);
    assert p == Parsed([], 0, 0, buf[..m]) by {
      if m == 0 {
        assert buf[..m] == [];
      }
    }
    assert p.rest + buf[m..] == buf;
    var whole := Parse(buf, giveUp);
    assert ParseTwo(buf[..m], buf[m..], giveUp) == Parsed([], 0, 0, []).Then(whole);
  }

  /** No sentence can be given up on while fewer than `giveUp` bytes are there. */
  lemma {:induction false} ShortPieceAgrees(buf: seq<byte>, m: nat, giveUp: nat)
    requires m <= |buf| && m < giveUp
    ensures ParseTwo(buf[..m], buf[m..], giveUp) == Parse(buf, giveUp)
    decreases m
  {
    if m == 0 || Head(buf[..m], giveUp).Incomplete? {
      ParseTwoIncomplete(buf, m, giveUp);
    } else {
      HeadOfPrefix(buf, m, giveUp);
      var n := Advance(Head(buf, giveUp));
      ParseTwoStep(buf, m, giveUp);
      ParseStep(buf, giveUp);
      ShortPieceAgrees(buf[n..], m - n, giveUp);
    }
  }

  function Max(a: nat, b: nat): nat { if a > b then a else b }

  /** The bytes from here on that must be there before the framer gets past this candidate. */
  ghost function Horizon(buf: seq<byte>, h: nat, giveUp: nat): nat
    requires buf != []
  {
    Max(h, Needed(buf, giveUp))
  }

  /** A late sentence can be cut: it is reached while some of its last bytes are still missing.
      `h` bytes must have arrived for the framer to be here at all. */
  ghost predicate Exposed(buf: seq<byte>, h: nat, giveUp: nat) {
    Late(buf, giveUp) && Max(h, giveUp) < FirstCrlf(buf, 0) + 2
  }

  /** No position where the framer looks for a frame holds a late sentence that can be cut. */
  ghost predicate Safe(buf: seq<byte>, h: nat, giveUp: nat) {
    buf == [] ||
    (!Exposed(buf, h, giveUp) &&
     var v := Head(buf, giveUp);
     v.Incomplete? || (var n := Advance(v); Safe(buf[n..], Max(Horizon(buf, h, giveUp), n) - n, giveUp)))
  }

  lemma NeededCoversAdvance(buf: seq<byte>, giveUp: nat)
    requires buf != [] && giveUp >= 1 && !Head(buf, giveUp).Incomplete?
    ensures Advance(Head(buf, giveUp)) <= Needed(buf, giveUp)
  {
  }

  lemma {:induction false} SafeAgrees(buf: seq<byte>, m: nat, h: nat, giveUp: nat)
    requires giveUp >= 1 && h <= m <= |buf| && Safe(buf, h, giveUp)
    ensures ParseTwo(buf[..m], buf[m..], giveUp) == Parse(buf, giveUp)
    decreases m
  {
    hide Head, Needed, Late, Advance, Parse, ParseTwo;
    if m == 0 || Head(buf[..m], giveUp).Incomplete? {
      ParseTwoIncomplete(buf, m, giveUp);
    } else {
      HeadOfPrefix(buf, m, giveUp);
      var n := Advance(Head(buf, giveUp));
      NeededCoversAdvance(buf, giveUp);
      ParseTwoStep(buf, m, giveUp);
      ParseStep(buf, giveUp);
      SafeAgrees(buf[n..], m - n, Max(Horizon(buf, h, giveUp), n) - n, giveUp);
    }
  }

  // ------------------------------------------------------------------ an exposed sentence does make a difference

  lemma CompleteSentence(buf: seq<byte>, giveUp: nat)
    requires buf != [] && Head(buf, giveUp).Complete?
    ensures Head(buf, giveUp).length <= |buf|
    ensures Head(buf, giveUp).proto == NMEA <==> buf[0] == NMEA_START
    ensures buf[0] == NMEA_START ==> Head(buf, giveUp).length == FirstCrlf(buf, 0) + 2 && FirstCrlf(buf, 0) >= 0
  {
  }

  lemma NoEarlierCrlf(buf: seq<byte>, i: nat)
    requires i + 2 <= |buf| && buf[i] == CR && buf[i + 1] == LF && i + 2 <= NMEA_WINDOW
    ensures 0 <= FirstCrlf(buf, 0) <= i
  {
  }

  lemma SentenceStartsOnce(buf: seq<byte>, k: nat, giveUp: nat)
    requires buf != [] && buf[0] == NMEA_START && Head(buf, giveUp).Complete?
    requires 1 <= k < Head(buf, giveUp).length && k < |buf| && Head(buf[k..], giveUp).Complete?
    ensures var v := Head(buf[k..], giveUp); v.proto != NMEA || v.length != Head(buf, giveUp).length
  {
    hide Head, FirstCrlf;
    CompleteSentence(buf, giveUp);
    CompleteSentence(buf[k..], giveUp);
    var end := FirstCrlf(buf, 0);
    if buf[k] == NMEA_START {
      assert k <= end;
      NoEarlierCrlf(buf[k..], end - k);
    }
  }

  lemma CompleteStep(buf: seq<byte>, giveUp: nat)
    requires buf != [] && Head(buf, giveUp).Complete?
    ensures var v := Head(buf, giveUp);
      v.length <= |buf|
      && Parse(buf, giveUp).frames == [Frame(v.proto, buf[..v.length])] + Parse(buf[v.length..], giveUp).frames
  {
    ParseStep(buf, giveUp);
  }

  /** Once a complete sentence is passed by at its `$`, it does not come out any more. */
  lemma {:induction false} SkippedSentenceIsLost(buf: seq<byte>, k: nat, giveUp: nat)
    requires buf != [] && buf[0] == NMEA_START && Head(buf, giveUp).Complete?
    requires 1 <= k <= Head(buf, giveUp).length <= |buf|
    ensures var n := Head(buf, giveUp).length;
      Parse(buf[k..], giveUp).frames != [Frame(NMEA, buf[..n])] + Parse(buf[n..], giveUp).frames
    decreases |buf| - k
  {
    hide Head, Parse;
    var n := Head(buf, giveUp).length;
    if k < n {
      var tail := buf[k..];
      var v := Head(tail, giveUp);
      if v.Complete? {
        SentenceStartsOnce(buf, k, giveUp);
        CompleteStep(tail, giveUp);
        assert Parse(tail, giveUp).frames[0] == Frame(v.proto, tail[..v.length]);
        assert |tail[..v.length]| != |buf[..n]| || v.proto != NMEA;
      } else if v.Invalid? {
        SkippedSentenceIsLost(buf, k + 1, giveUp);
        assert tail[1..] == buf[k + 1..];
        ParseStep(tail, giveUp);
        assert Parse(tail, giveUp).frames == Parse(tail[1..], giveUp).frames;
      } else {
        ParseIncomplete(tail, giveUp);
      }
    }
  }

  lemma AfterTheCut(buf: seq<byte>, m: nat, giveUp: nat)
    requires giveUp >= 1 && m <= |buf| && m <= giveUp
    ensures var two := ParseTwo(buf[..m], buf[m..], giveUp);
      two == Parse(buf, giveUp)
      || (m > 0 && Clipped(buf, m, giveUp) && two == Step(buf, Invalid(false)).Then(Parse(buf[1..], giveUp)))
  {
    hide Head, Needed, Late, Parse, ParseTwo;
    if m == 0 || Head(buf[..m], giveUp).Incomplete? {
      ParseTwoIncomplete(buf, m, giveUp);
    } else {
      HeadOfPrefix(buf, m, giveUp);
      var v := Head(buf[..m], giveUp);
      var n := Advance(v);
      ParseTwoStep(buf, m, giveUp);
      ShortPieceAgrees(buf[n..], m - n, giveUp);
      if !Clipped(buf, m, giveUp) {
        ParseStep(buf, giveUp);
      }
    }
  }

  /** A late sentence is a frame or a checksum error. */
  lemma LateVerdict(buf: seq<byte>, giveUp: nat)
    requires Late(buf, giveUp)
    ensures var v := Head(buf, giveUp);
      v == Invalid(true) || (v.Complete? && v.proto == NMEA && 5 <= v.length <= |buf|)
    ensures buf[0] == NMEA_START
  {
  }

  lemma InvalidStep(buf: seq<byte>, giveUp: nat)
    requires buf != [] && Head(buf, giveUp) == Invalid(true)
    ensures Parse(buf, giveUp).errors == 1 + Parse(buf[1..], giveUp).errors
  {
    ParseStep(buf, giveUp);
  }

  lemma CutDropsDollar(buf: seq<byte>, m: nat, giveUp: nat)
    requires 2 <= m <= |buf| && Clipped(buf, m, giveUp)
    ensures
      var two := ParseTwo(buf[..m], buf[m..], giveUp);
      var after := ParseTwo(buf[1..][..m - 1], buf[1..][m - 1..], giveUp);
      two.frames == after.frames && two.errors == after.errors
  {
    hide Head, Needed, Late, Clipped, Parse, ParseTwo;
    HeadOfPrefix(buf, m, giveUp);
    ParseTwoStep(buf, m, giveUp);
  }

  lemma StepInvalid(buf: seq<byte>, next: Parsed)
    ensures Step(buf, Invalid(false)).Then(next).frames == next.frames
    ensures Step(buf, Invalid(false)).Then(next).errors == next.errors
  {
  }

  /** Two calls, the first cut inside the late sentence: its `$` is dropped, and perhaps one more. */
  lemma CutSentenceDropped(buf: seq<byte>, m: nat, giveUp: nat)
    requires 2 <= m <= |buf| && 1 <= m - 1 <= giveUp && Clipped(buf, m, giveUp)
    ensures var two, after := ParseTwo(buf[..m], buf[m..], giveUp), buf[1..];
      (two.frames == Parse(after, giveUp).frames && two.errors == Parse(after, giveUp).errors)
      || (Clipped(after, m - 1, giveUp)
          && two.frames == Parse(after[1..], giveUp).frames && two.errors == Parse(after[1..], giveUp).errors)
  {
    hide *;
    CutDropsDollar(buf, m, giveUp);
    AfterTheCut(buf[1..], m - 1, giveUp);
    StepInvalid(buf[1..], Parse(buf[1..][1..], giveUp));
  }

  lemma ClippedBounds(buf: seq<byte>, m: nat, giveUp: nat)
    requires giveUp >= NMEA_MAX_LEN && Clipped(buf, m, giveUp)
    ensures 2 <= m <= |buf| && m <= giveUp + 1 && Late(buf, giveUp)
  {
  }

  lemma CutSentenceDiverges(buf: seq<byte>, m: nat, giveUp: nat)
    requires giveUp >= NMEA_MAX_LEN && Clipped(buf, m, giveUp)
    ensures ParseTwo(buf[..m], buf[m..], giveUp) != Parse(buf, giveUp)
  {
    var after := buf[1..];
    hide Head, Needed, Late, Clipped, Parse, ParseTwo, Step, Advance;
    ClippedBounds(buf, m, giveUp);
    LateVerdict(buf, giveUp);
    assert |buf| >= 2 && after[1..] == buf[2..];
    CutSentenceDropped(buf, m, giveUp);
    if Head(buf, giveUp).Complete? {
      CompleteStep(buf, giveUp);
      SkippedSentenceIsLost(buf, 1, giveUp);
      SkippedSentenceIsLost(buf, 2, giveUp);
    } else {
      InvalidStep(buf, giveUp);
      if Clipped(after, m - 1, giveUp) {
        ClippedBounds(after, m - 1, giveUp);
        LateVerdict(after, giveUp);
        if Head(after, giveUp).Complete? {
          CompleteStep(after, giveUp);
          SkippedSentenceIsLost(after, 1, giveUp);
        } else {
          InvalidStep(after, giveUp);
        }
      }
    }
  }

  lemma ThenCancels(a: Parsed, b: Parsed, c: Parsed)
    requires a.Then(b) == a.Then(c)
    ensures b == c
  {
    assert a.frames + b.frames == a.frames + c.frames;
    assert b.frames == (a.frames + b.frames)[|a.frames|..];
    assert c.frames == (a.frames + c.frames)[|a.frames|..];
  }

  lemma ExposedIsClipped(buf: seq<byte>, h: nat, giveUp: nat)
    requires Exposed(buf, h, giveUp)
    ensures Clipped(buf, Max(h, giveUp), giveUp) && Max(h, giveUp) <= |buf|
  {
  }

  lemma NotExposed(buf: seq<byte>, m: nat, h: nat, giveUp: nat)
    requires h <= m && !Exposed(buf, h, giveUp)
    ensures !Clipped(buf, m, giveUp)
  {
  }

  lemma {:induction false} UnsafeSplit(buf: seq<byte>, h: nat, giveUp: nat) returns (m: nat)
    requires giveUp >= NMEA_MAX_LEN && h <= |buf| && !Safe(buf, h, giveUp)
    ensures h <= m <= |buf| && ParseTwo(buf[..m], buf[m..], giveUp) != Parse(buf, giveUp)
    decreases |buf|
  {
    hide Head, Needed, Late, Advance, Parse, ParseTwo;
    if Exposed(buf, h, giveUp) {
      m := Max(h, giveUp);
      ExposedIsClipped(buf, h, giveUp);
      CutSentenceDiverges(buf, m, giveUp);
    } else {
      HeadOfPrefix(buf, |buf|, giveUp);
      assert buf[..|buf|] == buf;
      NotExposed(buf, |buf|, h, giveUp);
      var n := Advance(Head(buf, giveUp));
      NeededCoversAdvance(buf, giveUp);
      AdvanceWithin(buf, giveUp);
      var rest := UnsafeSplit(buf[n..], Max(Horizon(buf, h, giveUp), n) - n, giveUp);
      m := n + rest;
      NotExposed(buf, m, h, giveUp);
      HeadOfPrefix(buf, m, giveUp);
      ParseTwoStep(buf, m, giveUp);
      ParseStep(buf, giveUp);
      if ParseTwo(buf[..m], buf[m..], giveUp) == Parse(buf, giveUp) {
        var two := ParseTwo(buf[n..][..rest], buf[n..][rest..], giveUp);
        ThenCancels(Step(buf, Head(buf, giveUp)), two, Parse(buf[n..], giveUp));
      }
    }
  }

  // ------------------------------------------------------------------ any number of pieces

  /** The state after one more `feed`: what came out so far, and what is still in the buffer. */
  ghost function FeedOnce(p: Parsed, data: seq<byte>, giveUp: nat): Parsed {
    Parsed(p.frames, p.garbage, p.errors, []).Then(Parse(p.rest + data, giveUp))
  }

  ghost function FeedAll(chunks: seq<seq<byte>>, giveUp: nat): Parsed {
    if chunks == [] then Parsed([], 0, 0, [])
    else FeedOnce(FeedAll(chunks[..|chunks| - 1], giveUp), chunks[|chunks| - 1], giveUp)
  }

  lemma NeededOfPrefix(buf: seq<byte>, m: nat, giveUp: nat)
    requires 1 <= m <= |buf| && Needed(buf, giveUp) <= m
    ensures Needed(buf[..m], giveUp) == Needed(buf, giveUp)
  {
    if buf[0] == NMEA_START {
      FirstCrlfOfPrefix(buf, m);
      var end := FirstCrlf(buf, 0);
      if end >= 0 && end + 2 <= m {
        SentenceOfPrefix(buf, m, end);
      }
    }
  }

  lemma ExposedOfPrefix(buf: seq<byte>, m: nat, h: nat, giveUp: nat)
    requires 1 <= m <= |buf| && Exposed(buf[..m], h, giveUp)
    ensures Exposed(buf, h, giveUp)
  {
    FirstCrlfOfPrefix(buf, m);
    SentenceOfPrefix(buf, m, FirstCrlf(buf, 0));
  }

  lemma {:induction false} SafePrefix(buf: seq<byte>, m: nat, h: nat, giveUp: nat)
    requires giveUp >= 1 && h <= m <= |buf| && Safe(buf, h, giveUp)
    ensures Safe(buf[..m], h, giveUp)
    decreases m
  {
    hide Head, Needed, Advance, Exposed;
    if m > 0 {
      if Exposed(buf[..m], h, giveUp) {
        ExposedOfPrefix(buf, m, h, giveUp);
        assert false;
      }
      if !Head(buf[..m], giveUp).Incomplete? {
        NotExposed(buf, m, h, giveUp);
        HeadOfPrefix(buf, m, giveUp);
        NeededOfPrefix(buf, m, giveUp);
        var n := Advance(Head(buf, giveUp));
        NeededCoversAdvance(buf, giveUp);
        AdvanceWithin(buf, giveUp);
        SafePrefix(buf[n..], m - n, Max(Horizon(buf, h, giveUp), n) - n, giveUp);
        assert buf[..m][n..] == buf[n..][..m - n];
      }
    }
  }

  lemma {:induction false} SafeChunksAgree(chunks: seq<seq<byte>>, giveUp: nat)
    requires giveUp >= 1 && Safe(Flatten(chunks), 0, giveUp)
    ensures FeedAll(chunks, giveUp) == Parse(Flatten(chunks), giveUp)
  {
    if chunks != [] {
      var init, last := chunks[..|chunks| - 1], chunks[|chunks| - 1];
      assert chunks == init + [last];
      FlattenAppend(init, [last]);
      FlattenSingle(last);
      var whole, m := Flatten(chunks), |Flatten(init)|;
      assert whole[..m] == Flatten(init) && whole[m..] == last;
      SafePrefix(whole, m, 0, giveUp);
      SafeChunksAgree(init, giveUp);
      SafeAgrees(whole, m, 0, giveUp);
    }
  }

  lemma TwoChunks(a: seq<byte>, b: seq<byte>, giveUp: nat)
    ensures Flatten([a, b]) == a + b
    ensures FeedAll([a, b], giveUp) == ParseTwo(a, b, giveUp)
  {
    assert [a, b] == [a] + [b];
    FlattenAppend([a], [b]);
    FlattenSingle(a);
    FlattenSingle(b);
    var empty := Parsed([], 0, 0, []);
    assert [a, b][..1] == [a] && [a][..0] == [];
    assert FeedAll([a], giveUp) == FeedOnce(empty, a, giveUp);
    assert empty.rest + a == a;
    assert empty.Then(Parse(a, giveUp)) == Parse(a, giveUp);
  }

  /** Chunking never matters exactly when no late sentence is exposed. */
  lemma ChunkingExact(stream: seq<byte>, giveUp: nat)
    requires giveUp >= NMEA_MAX_LEN
    ensures (forall chunks :: Flatten(chunks) == stream ==> FeedAll(chunks, giveUp) == Parse(stream, giveUp))
      <==> Safe(stream, 0, giveUp)
  {
    hide Parse, FeedAll, Safe, ParseTwo;
    if Safe(stream, 0, giveUp) {
      forall chunks | Flatten(chunks) == stream
        ensures FeedAll(chunks, giveUp) == Parse(stream, giveUp)
      {
        SafeChunksAgree(chunks, giveUp);
      }
    } else {
      var m := UnsafeSplit(stream, 0, giveUp);
      TwoChunks(stream[..m], stream[m..], giveUp);
      assert stream[..m] + stream[m..] == stream;
    }
  }

  /** A framer that waits for as many bytes as it searches is independent of chunking, always. */
  lemma {:induction false} WiderWaitIsSafe(buf: seq<byte>, h: nat, giveUp: nat)
    requires giveUp >= NMEA_WINDOW
    ensures Safe(buf, h, giveUp)
    decreases |buf|
  {
    if buf != [] && !Head(buf, giveUp).Incomplete? {
      var n := Advance(Head(buf, giveUp));
      WiderWaitIsSafe(buf[n..], Max(Horizon(buf, h, giveUp), n) - n, giveUp);
    }
  }

  /** No `$` of the stream, looked at or not, has its first CRLF 255 or 256 bytes on. */
  ghost predicate NoLateCrlf(stream: seq<byte>) {
    forall i | 0 <= i < |stream| && stream[i] == NMEA_START ::
      FirstCrlf(stream[i..], 0) != NMEA_MAX_LEN - 1 && FirstCrlf(stream[i..], 0) != NMEA_MAX_LEN
  }

  lemma {:induction false} NoLateCrlfIsSafe(buf: seq<byte>, h: nat)
    requires NoLateCrlf(buf)
    ensures Safe(buf, h, NMEA_MAX_LEN)
    decreases |buf|
  {
    if buf != [] {
      assert buf[0..] == buf;
      if !Head(buf, NMEA_MAX_LEN).Incomplete? {
        var n := Advance(Head(buf, NMEA_MAX_LEN));
        forall i | 0 <= i < |buf[n..]|
          ensures buf[n..][i] == buf[n + i] && buf[n..][i..] == buf[n + i..]
        {
        }
        assert NoLateCrlf(buf[n..]);
        NoLateCrlfIsSafe(buf[n..], Max(Horizon(buf, h, NMEA_MAX_LEN), n) - n);
      }
    }
  }
}
