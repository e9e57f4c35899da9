/** How one RTCM frame goes over an NTRIP connection: bare for version 1, as an HTTP chunk (section 7.1
    of RFC 9112) for version 2 - and how the client takes it off again. */
module Wire {
  import opened Bytes
  import opened Options
  import opened PyInt
  import opened Frames

  const LINE_LIMIT: nat := 0x10000 // what a StreamReader accepts as one line
  const MAX_CHUNK: nat := 64 * 1024
  const SEMICOLON: byte := 59

  // ------------------------------------------------------------------ the caster's side

  /** `f"{n:X}"` */
  function Hex(n: nat): (s: seq<byte>)
    ensures s != [] && forall i :: 0 <= i < |s| ==> IsHexDigit(s[i])
    ensures n > 0 ==> s[0] != 48
    ensures n == 0 ==> s == [48]
  {
    DigitReadBack(n % 16);
    if n < 16 then [UpperDigit(n)] else Hex(n / 16) + [UpperDigit(n % 16)]
  }

  function WireSpec(v2: bool, raw: seq<byte>): seq<byte> {
    if v2 then Hex(|raw|) + [CR, LF] + raw + [CR, LF] else raw
  }

  function Encode(v2: bool, frames: seq<seq<byte>>): seq<byte> {
    if frames == [] then [] else Encode(v2, frames[..|frames| - 1]) + WireSpec(v2, frames[|frames| - 1])
  }

  // ------------------------------------------------------------------ the client's side

  /** The position of the first line feed, -1 if there is none. */
  function FindLf(s: seq<byte>): (i: int)
    ensures -1 <= i < |s| && (i >= 0 ==> s[i] == LF)
    ensures forall k :: 0 <= k < (if i < 0 then |s| else i) ==> s[k] != LF
  {
    if s == [] then -1
    else if s[0] == LF then 0
    else var i := FindLf(s[1..]); if i < 0 then -1 else i + 1
  }

  /** `line.split(b";", 1)[0]` */
  function BeforeSemicolon(line: seq<byte>): seq<byte> {
    if line == [] || line[0] == SEMICOLON then [] else [line[0]] + BeforeSemicolon(line[1..])
  }

  function TrimRight(s: seq<byte>): seq<byte> {
    if s != [] && IsSpace(s[|s| - 1]) then TrimRight(s[..|s| - 1]) else s
  }

  /** What `decode_chunked` makes of the bytes still to come. */
  datatype Chunk =
    | Data(payload: seq<byte>, rest: seq<byte>)
    | End       // the terminating chunk, or the end of the stream
    | Malformed // ProtocolError
    | Truncated // the stream ends inside the chunk

  function ChunkSize(line: seq<byte>): Option<int> {
    Int16(TrimRight(SkipSpace(BeforeSemicolon(line))))
  }

  /** What follows a size line. */
  function DecodeData(size: int, rest: seq<byte>): (c: Chunk)
    ensures c.Data? ==> 0 < |c.payload| <= MAX_CHUNK && |c.payload| + |c.rest| < |rest|
  {
    if size == 0 then End
    else if size < 0 || size > MAX_CHUNK then Malformed
    else if |rest| < size + 2 then Truncated
    else if rest[size..size + 2] != [CR, LF] then Malformed
    else Data(rest[..size], rest[size + 2..])
  }

  function DecodeChunk(s: seq<byte>): (c: Chunk)
    ensures c.Data? ==> 0 < |c.payload| <= MAX_CHUNK && |c.payload| + |c.rest| < |s|
  {
    var end := FindLf(s);
    if s == [] then End
    else if (if end < 0 then |s| else end) > LINE_LIMIT then Malformed
    else
      var line, rest := if end < 0 then s else s[..end + 1], if end < 0 then [] else s[end + 1..];
      match ChunkSize(line)
      case None => Malformed
      case Some(size) => DecodeData(size, rest)
  }

  /** The payloads read one after the other until the stream ends or fails. */
  function Payloads(s: seq<byte>): seq<seq<byte>>
    decreases |s|
  {
    match DecodeChunk(s)
    case Data(payload, rest) => [payload] + Payloads(rest)
    case _ => []
  }

  // ------------------------------------------------------------------ sizes read back

  lemma {:induction false} HexSpells(n: nat)
    ensures Spells(Hex(n), n)
  {
    if n >= 16 {
      var s, init := Hex(n), Hex(n / 16);
      HexSpells(n / 16);
      assert s[..|s| - 1] == init && s[|s| - 2] == init[|init| - 1];
      assert IsHexDigit(s[|s| - 2]);
    }
  }

  lemma SizeReadBack(s: seq<byte>, n: nat)
    requires Spells(s, n)
    ensures Int16(s) == Some(n)
  {
    hide Spells, Int16;
    assert [] + s + [] == s && [] + ([] + s) == s;
    LiteralRead([], [], [], s, [], n);
  }

  lemma {:induction false} ExtensionCut(line: seq<byte>, tail: seq<byte>)
    requires (forall i :: 0 <= i < |line| ==> line[i] != SEMICOLON) && (tail != [] ==> tail[0] == SEMICOLON)
    ensures BeforeSemicolon(line + tail) == line
  {
    if line == [] {
      assert line + tail == tail;
    } else {
      assert (line + tail)[1..] == line[1..] + tail;
      ExtensionCut(line[1..], tail);
    }
  }

  lemma TrimOne(s: seq<byte>, b: byte)
    requires IsSpace(b)
    ensures TrimRight(s + [b]) == TrimRight(s)
  {
    assert (s + [b])[..|s|] == s;
  }

  /** What `strip` leaves of a size line. */
  lemma Stripped(digits: seq<byte>, tail: seq<byte>)
    requires InRun(digits) && digits != []
    requires tail == [] || tail == [CR] || tail == [CR, LF]
    ensures SkipSpace(digits + tail) == digits + tail && TrimRight(digits + tail) == digits
  {
    assert (digits + tail)[0] == digits[0] && SkipSpace(digits + tail) == digits + tail;
    hide SkipSpace;
    assert TrimRight(digits) == digits;
    TrimOne(digits, CR);
    TrimOne(digits + [CR], LF);
    assert digits + [CR, LF] == (digits + [CR]) + [LF];
    assert digits + [] == digits;
  }

  /** A chunk extension: none, or what follows a semicolon. */
  predicate IsExtension(ext: seq<byte>) {
    (ext != [] ==> ext[0] == 0x3B) && forall i :: 0 <= i < |ext| ==> ext[i] != LF
  }

  /** A size line is read as the size it spells, in either case, with or without an extension and with or
      without the line end. */
  lemma SizeLine(size: seq<byte>, n: nat, ext: seq<byte>, tail: seq<byte>)
    requires Spells(size, n) && IsExtension(ext) && (tail == [] || tail == [CR] || tail == [CR, LF])
    ensures ChunkSize(size + ext + tail) == Some(n)
  {
    SpellsExactly(size, n);
    Stripped(size, if ext == [] then tail else []);
    SizeReadBack(size, n);
    hide Spells, SkipSpace, TrimRight, Int16;
    assert size + [] == size;
    if ext == [] {
      assert size + ext + tail == (size + tail) + [];
      ExtensionCut(size + tail, []);
    } else {
      Associate(size, ext, tail);
      ExtensionCut(size, ext + tail);
    }
  }

  lemma {:induction false} HexShort(n: nat)
    ensures |Hex(n)| <= 1 + n / 16
  {
    if n >= 16 {
      HexShort(n / 16);
    }
  }

  // ------------------------------------------------------------------ one chunk, whole or cut

  lemma FirstLf(line: seq<byte>, rest: seq<byte>)
    requires forall i :: 0 <= i < |line| ==> line[i] != LF
    ensures FindLf(line + [CR, LF] + rest) == |line| + 1
  {
    var s := line + [CR, LF] + rest;
    assert forall i :: 0 <= i < |line| ==> s[i] == line[i] != LF;
    assert s[|line|] == CR && s[|line| + 1] == LF;
    hide FindLf;
  }

  lemma NoLf(line: seq<byte>, end: seq<byte>)
    requires (forall i :: 0 <= i < |line| ==> line[i] != LF) && (end == [] || end == [CR])
    ensures FindLf(line + end) == -1
  {
    hide FindLf;
  }

  lemma LineHasNoLf(size: seq<byte>, n: nat, ext: seq<byte>)
    requires Spells(size, n) && IsExtension(ext)
    ensures forall i :: 0 <= i < |size + ext| ==> (size + ext)[i] != LF
  {
    SpellsExactly(size, n);
  }

  lemma LineDecoded(size: seq<byte>, n: nat, ext: seq<byte>, rest: seq<byte>)
    requires Spells(size, n) && IsExtension(ext) && |size| + |ext| < LINE_LIMIT
    ensures DecodeChunk(size + ext + [CR, LF] + rest) == DecodeData(n, rest)
  {
    hide ChunkSize, Spells, FindLf, DecodeData;
    var line := size + ext;
    var s := line + ([CR, LF] + rest);
    Associate(line, [CR, LF], rest);
    LineHasNoLf(size, n, ext);
    FirstLf(line, rest);
    SizeLine(size, n, ext, [CR, LF]);
    assert s[..|line| + 2] == line + [CR, LF] && s[|line| + 2..] == rest;
  }

  lemma DataRead(raw: seq<byte>, more: seq<byte>)
    requires 0 < |raw| <= MAX_CHUNK
    ensures DecodeData(|raw|, raw + [CR, LF] + more) == Data(raw, more)
  {
    var rest := raw + [CR, LF] + more;
    assert rest[|raw|..|raw| + 2] == [CR, LF] && rest[..|raw|] == raw && rest[|raw| + 2..] == more;
  }

  /** A chunk is decoded as the protocol has it, whatever follows: the size in hexadecimal of either case,
      perhaps an extension, and the data between two line ends. */
  lemma AnyChunk(size: seq<byte>, ext: seq<byte>, raw: seq<byte>, more: seq<byte>)
    requires Spells(size, |raw|) && IsExtension(ext) && |size| + |ext| < LINE_LIMIT && 0 < |raw| <= MAX_CHUNK
    ensures DecodeChunk(size + ext + [CR, LF] + (raw + [CR, LF] + more)) == Data(raw, more)
  {
    LineDecoded(size, |raw|, ext, raw + [CR, LF] + more);
    DataRead(raw, more);
  }

  lemma AnyEnd(size: seq<byte>, ext: seq<byte>, more: seq<byte>)
    requires Spells(size, 0) && IsExtension(ext) && |size| + |ext| < LINE_LIMIT
    ensures DecodeChunk(size + ext + [CR, LF] + more) == End
  {
    LineDecoded(size, 0, ext, more);
  }

  lemma OnlyData(size: int, after: seq<byte>, payload: seq<byte>, rest: seq<byte>)
    requires DecodeData(size, after) == Data(payload, rest)
    ensures size == |payload| && after == payload + [CR, LF] + rest
  {
    assert after == after[..size] + after[size..size + 2] + after[size + 2..];
  }

  lemma LineTaken(s: seq<byte>)
    requires DecodeChunk(s).Data?
    ensures FindLf(s) >= 0
    ensures var line, after := s[..FindLf(s) + 1], s[FindLf(s) + 1..];
      ChunkSize(line).Some? && DecodeChunk(s) == DecodeData(ChunkSize(line).value, after)
  {
    hide ChunkSize, DecodeData, FindLf;
  }

  /** Nothing else is taken for data: a line that says how much follows, and a line end behind it. */
  lemma OnlyChunks(s: seq<byte>, payload: seq<byte>, rest: seq<byte>)
    requires DecodeChunk(s) == Data(payload, rest)
    ensures FindLf(s) >= 0
    ensures var line := s[..FindLf(s) + 1];
      s == line + (payload + [CR, LF] + rest) && ChunkSize(line) == Some(|payload|)
  {
    LineTaken(s);
    hide ChunkSize, DecodeData, FindLf, DecodeChunk;
    var line, after := s[..FindLf(s) + 1], s[FindLf(s) + 1..];
    assert line + after == s;
    OnlyData(ChunkSize(line).value, after, payload, rest);
  }

  /** So decoding undoes encoding. */
  lemma ChunkReadBack(raw: seq<byte>, more: seq<byte>)
    requires 0 < |raw| <= MAX_CHUNK
    ensures DecodeChunk(WireSpec(true, raw) + more) == Data(raw, more)
  {
    hide DecodeChunk, Hex, Spells;
    var size := Hex(|raw|);
    HexSpells(|raw|);
    HexShort(|raw|);
    AnyChunk(size, [], raw, more);
    assert WireSpec(true, raw) + more == size + [] + [CR, LF] + (raw + [CR, LF] + more);
  }

  /** And the empty frame is the terminating chunk. */
  lemma TerminatorReadBack(more: seq<byte>)
    ensures DecodeChunk(WireSpec(true, []) + more) == End
  {
    hide DecodeChunk, Spells;
    HexSpells(0);
    AnyEnd(Hex(0), [], [CR, LF] + more);
    assert WireSpec(true, []) + more == Hex(0) + [] + [CR, LF] + ([CR, LF] + more);
  }

  lemma CutInLine(line: seq<byte>)
    requires FindLf(line) == -1
    ensures !DecodeChunk(line).Data?
  {
    hide ChunkSize;
  }

  lemma CutInBody(raw: seq<byte>, rest: seq<byte>)
    requires 0 < |raw| <= MAX_CHUNK && |rest| < |raw| + 2
    ensures !DecodeChunk(Hex(|raw|) + [CR, LF] + rest).Data?
  {
    hide DecodeChunk, Spells;
    HexSpells(|raw|);
    HexShort(|raw|);
    LineDecoded(Hex(|raw|), |raw|, [], rest);
    assert Hex(|raw|) + [] == Hex(|raw|);
  }

  /** A chunk that the connection cuts short gives nothing. */
  lemma CutChunk(raw: seq<byte>, m: nat)
    requires 0 < |raw| <= MAX_CHUNK && m < |WireSpec(true, raw)|
    ensures !DecodeChunk(WireSpec(true, raw)[..m]).Data?
  {
    hide DecodeChunk, Hex;
    var digits := Hex(|raw|);
    var s := WireSpec(true, raw)[..m];
    if m <= |digits| {
      assert s == digits[..m] && s + [] == s;
      NoLf(s, []);
      CutInLine(s);
    } else if m == |digits| + 1 {
      assert s == digits + [CR];
      NoLf(digits, [CR]);
      CutInLine(s);
    } else {
      var rest := s[|digits| + 2..];
      assert s == digits + [CR, LF] + rest;
      CutInBody(raw, rest);
    }
  }
}
