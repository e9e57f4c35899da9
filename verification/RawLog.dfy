/** The hourly raw logger (`rawlog/writer.py`): frames wait until the receiver tells the time, then go
    to the file of their hour; a sidecar describes each file. The disk is a map from hour to bytes,
    and a digest is the byte sequence that was hashed. */
module RawLog {
  import opened Bytes
  import opened Options

  type Hour = int // hours since the epoch: the file name is a function of it
  type Time = int // microseconds, of receiver UTC or of the monotonic clock

  const HOUR: int := 3_600_000_000
  const PENDING_CAP_BYTES: nat := 8 * 1024 * 1024
  const SIDECAR_UPDATE: int := 60_000_000
  const NAV_PVT: string := "NAV-PVT"

  datatype Clock = Receiver | Host
  datatype Entry = Entry(identity: string, raw: seq<byte>)
  datatype Placed = Placed(hour: Hour, entry: Entry)

  /** A frame off the bus; `reading` is the UTC of a NAV-PVT that vouches for its date and time. */
  datatype LogFrame = LogFrame(ubx: bool, entry: Entry, reading: Option<Time>)

  datatype Sidecar = Sidecar(hour: Hour, startUtc: Option<Time>, endUtc: Option<Time>, bytes: nat,
                             counts: map<string, nat>, sha256: Option<seq<byte>>, keep: bool,
                             timeSource: Clock, complete: bool, recovered: bool)

  /** The file being written: its sidecar as kept in memory, and what the hasher was fed. */
  datatype OpenLog = OpenLog(hour: Hour, sidecar: Sidecar, hashed: seq<byte>)

  datatype Disk = Disk(files: map<Hour, seq<byte>>, sidecars: map<Hour, Sidecar>)

  // ------------------------------------------------------------------ what was written where

  function Content(entries: seq<Entry>): seq<byte> {
    if entries == [] then [] else Content(entries[..|entries| - 1]) + entries[|entries| - 1].raw
  }

  function Tally(entries: seq<Entry>, identity: string): nat {
    if entries == [] then 0
    else Tally(entries[..|entries| - 1], identity) + if entries[|entries| - 1].identity == identity then 1 else 0
  }

  /** The entries written to one hour's file, in write order. */
  function OnHour(log: seq<Placed>, h: Hour): seq<Entry> {
    if log == [] then []
    else OnHour(log[..|log| - 1], h) + if log[|log| - 1].hour == h then [log[|log| - 1].entry] else []
  }

  function EntriesOf(log: seq<Placed>): seq<Entry> {
    if log == [] then [] else EntriesOf(log[..|log| - 1]) + [log[|log| - 1].entry]
  }

  function Place(h: Hour, entries: seq<Entry>): seq<Placed> {
    if entries == [] then [] else Place(h, entries[..|entries| - 1]) + [Placed(h, entries[|entries| - 1])]
  }

  function Get(counts: map<string, nat>, identity: string): nat {
    if identity in counts then counts[identity] else 0
  }

  function FileAt(files: map<Hour, seq<byte>>, h: Hour): seq<byte> {
    if h in files then files[h] else []
  }

  /** The counts a writer starts from when it first opens an hour: those of the file it resumes. */
  function Base(first: Disk, h: Hour): map<string, nat> {
    if FileAt(first.files, h) != [] && h in first.sidecars then first.sidecars[h].counts else map[]
  }

  ghost predicate NonEmpty(entries: seq<Entry>) {
    forall e | e in entries :: e.raw != []
  }

  // ------------------------------------------------------------------ what a sidecar must say

  /** Size and message counts of the whole file: of what it held before, and of all written since. */
  ghost predicate Describes(sc: Sidecar, file: seq<byte>, base: map<string, nat>, entries: seq<Entry>) {
    sc.bytes == |file| && forall id: string :: Get(sc.counts, id) == Get(base, id) + Tally(entries, id)
  }

  ghost predicate Finished(sc: Sidecar, file: seq<byte>, base: map<string, nat>, entries: seq<Entry>) {
    Describes(sc, file, base, entries) && sc.sha256 == Some(file) && sc.complete
  }

  /** A file resumed keeps what only its earlier sidecar can tell: when it began, by which clock it was
      named, and that an operator wants it kept. */
  predicate Carries(first: Disk, h: Hour, sc: Sidecar) {
    FileAt(first.files, h) != [] && h in first.sidecars ==>
      (first.sidecars[h].keep ==> sc.keep)
      && (first.sidecars[h].startUtc.Some? ==> sc.startUtc == first.sidecars[h].startUtc)
      && sc.timeSource == first.sidecars[h].timeSource
  }

  predicate SameMarks(a: Sidecar, b: Sidecar) {
    a.hour == b.hour && a.keep == b.keep && a.startUtc == b.startUtc && a.timeSource == b.timeSource
    && a.recovered == b.recovered
  }

  ghost predicate HourKept(first: Disk, now: Disk, log: seq<Placed>, h: Hour, isOpen: bool) {
    FileAt(now.files, h) == FileAt(first.files, h) + Content(OnHour(log, h))
    && (h in now.sidecars ==> Carries(first, h, now.sidecars[h]))
    && if isOpen then h in now.sidecars && !now.sidecars[h].complete
       else if OnHour(log, h) == [] then
         (h in now.sidecars <==> h in first.sidecars) && (h in first.sidecars ==> now.sidecars[h] == first.sidecars[h])
       else h in now.sidecars && Finished(now.sidecars[h], FileAt(now.files, h), Base(first, h), OnHour(log, h))
  }

  ghost predicate Kept(first: Disk, now: Disk, log: seq<Placed>, open: Option<Hour>) {
    forall h: Hour :: HourKept(first, now, log, h, open == Some(h))
  }

  ghost predicate OpenKept(cur: OpenLog, first: Disk, now: Disk, log: seq<Placed>) {
    var file := FileAt(now.files, cur.hour);
    Describes(cur.sidecar, file, Base(first, cur.hour), OnHour(log, cur.hour))
    && cur.hashed == file && !cur.sidecar.complete && cur.sidecar.hour == cur.hour
    && Carries(first, cur.hour, cur.sidecar)
  }

  // ------------------------------------------------------------------ lemmas about the log

  lemma {:induction false} Concat(a: seq<Entry>, b: seq<Entry>, identity: string)
    ensures Content(a + b) == Content(a) + Content(b)
    ensures Tally(a + b, identity) == Tally(a, identity) + Tally(b, identity)
    decreases |b|
  {
    if b == [] {
      assert a + b == a;
    } else {
      var init := b[..|b| - 1];
      Concat(a, init, identity);
      assert (a + b)[..|a + b| - 1] == a + init;
    }
  }

  lemma LogAppend(log: seq<Placed>, p: Placed, h: Hour)
    ensures OnHour(log + [p], h) == OnHour(log, h) + if p.hour == h then [p.entry] else []
    ensures EntriesOf(log + [p]) == EntriesOf(log) + [p.entry]
  {
    assert (log + [p])[..|log|] == log;
  }

  lemma {:induction false} PlaceOnHour(log: seq<Placed>, at: Hour, entries: seq<Entry>, h: Hour)
    ensures OnHour(log + Place(at, entries), h) == OnHour(log, h) + if at == h then entries else []
    decreases |entries|
  {
    if entries == [] {
      assert log + [] == log;
    } else {
      var init, last := entries[..|entries| - 1], entries[|entries| - 1];
      PlaceOnHour(log, at, init, h);
      LogAppend(log + Place(at, init), Placed(at, last), h);
      Associate(log, Place(at, init), [Placed(at, last)]);
      assert entries == init + [last];
      hide OnHour, EntriesOf, Place;
      Associate(OnHour(log, h), init, [last]);
    }
  }

  lemma {:induction false} PlaceEntries(log: seq<Placed>, at: Hour, entries: seq<Entry>)
    ensures EntriesOf(log + Place(at, entries)) == EntriesOf(log) + entries
    decreases |entries|
  {
    if entries == [] {
      assert log + [] == log;
    } else {
      var init, last := entries[..|entries| - 1], entries[|entries| - 1];
      PlaceEntries(log, at, init);
      LogAppend(log + Place(at, init), Placed(at, last), at);
      Associate(log, Place(at, init), [Placed(at, last)]);
      assert entries == init + [last];
      hide OnHour, EntriesOf, Place;
      Associate(EntriesOf(log), init, [last]);
    }
  }

  lemma LogPlace(log: seq<Placed>, at: Hour, entries: seq<Entry>, h: Hour)
    ensures OnHour(log + Place(at, entries), h) == OnHour(log, h) + if at == h then entries else []
    ensures EntriesOf(log + Place(at, entries)) == EntriesOf(log) + entries
  {
    PlaceOnHour(log, at, entries, h);
    PlaceEntries(log, at, entries);
  }

  lemma {:induction false} OnHourNonEmpty(log: seq<Placed>, h: Hour)
    requires NonEmpty(EntriesOf(log))
    ensures NonEmpty(OnHour(log, h))
  {
    if log != [] {
      var init := log[..|log| - 1];
      assert forall e | e in EntriesOf(init) :: e in EntriesOf(log);
      assert log[|log| - 1].entry in EntriesOf(log);
      OnHourNonEmpty(init, h);
    }
  }

  lemma SomethingWritten(entries: seq<Entry>)
    requires NonEmpty(entries) && entries != []
    ensures Content(entries) != []
  {
    assert entries[|entries| - 1] in entries;
  }

  // ------------------------------------------------------------------ what one step does to an hour

  /** An hour opened again is described by what its sidecar says; a new one by nothing at all. */
  lemma Opened(first: Disk, now: Disk, log: seq<Placed>, cur: OpenLog)
    requires Kept(first, now, log, None) && NonEmpty(EntriesOf(log))
    requires cur.hashed == FileAt(now.files, cur.hour) && cur.sidecar.bytes == |cur.hashed|
    requires cur.sidecar.counts
      == if cur.hashed != [] && cur.hour in now.sidecars then now.sidecars[cur.hour].counts else map[]
    ensures Describes(cur.sidecar, cur.hashed, Base(first, cur.hour), OnHour(log, cur.hour))
  {
    var h := cur.hour;
    var written := OnHour(log, h);
    assert HourKept(first, now, log, h, None == Some(h));
    OnHourNonEmpty(log, h);
    if written != [] {
      SomethingWritten(written);
    }
  }

  lemma Appended(first: Disk, now: Disk, log: seq<Placed>, cur: OpenLog, added: seq<Entry>, now': Disk, cur': OpenLog)
    requires OpenKept(cur, first, now, log)
    requires FileAt(now.files, cur.hour) == FileAt(first.files, cur.hour) + Content(OnHour(log, cur.hour))
    requires cur'.hour == cur.hour == cur'.sidecar.hour
    requires cur'.hashed == cur.hashed + Content(added) && !cur'.sidecar.complete
    requires now'.files == now.files[cur.hour := FileAt(now.files, cur.hour) + Content(added)]
    requires cur'.sidecar.bytes == cur.sidecar.bytes + |Content(added)|
    requires SameMarks(cur'.sidecar, cur.sidecar)
    requires forall id: string :: Get(cur'.sidecar.counts, id) == Get(cur.sidecar.counts, id) + Tally(added, id)
    ensures var log' := log + Place(cur.hour, added);
      OpenKept(cur', first, now', log')
      && FileAt(now'.files, cur.hour) == FileAt(first.files, cur.hour) + Content(OnHour(log', cur.hour))
  {
    hide Content, Tally, Base, Get;
    var h, log' := cur.hour, log + Place(cur.hour, added);
    LogPlace(log, h, added, h);
    Concat(OnHour(log, h), added, "");
    var was := OnHour(log, h);
    forall id: string
      ensures Get(cur'.sidecar.counts, id) == Get(Base(first, h), id) + Tally(was + added, id)
    {
      Concat(was, added, id);
    }
    var before := FileAt(first.files, h);
    assert (before + Content(was)) + Content(added) == before + (Content(was) + Content(added));
    assert FileAt(now'.files, h) == FileAt(now.files, h) + Content(added);
  }

  /** Writing to one hour's file leaves every other hour as it was. */
  lemma OthersKept(first: Disk, now: Disk, log: seq<Placed>, at: Hour, added: seq<Entry>, now': Disk,
                   open: Option<Hour>)
    requires Kept(first, now, log, open) && (open.Some? ==> open.value == at)
    requires now'.files - {at} == now.files - {at} && now'.sidecars - {at} == now.sidecars - {at}
    ensures forall h: Hour | h != at :: HourKept(first, now', log + Place(at, added), h, false)
  {
    hide Finished, Describes;
    forall h: Hour | h != at
      ensures HourKept(first, now', log + Place(at, added), h, false)
    {
      LogPlace(log, at, added, h);
      assert OnHour(log, h) + [] == OnHour(log, h);
      assert HourKept(first, now, log, h, open == Some(h));
      assert h in now.files <==> h in now.files - {at};
      assert h in now'.files <==> h in now'.files - {at};
      assert h in now.files ==> now.files[h] == (now.files - {at})[h];
      assert h in now'.files ==> now'.files[h] == (now'.files - {at})[h];
      assert h in now.sidecars <==> h in now.sidecars - {at};
      assert h in now'.sidecars <==> h in now'.sidecars - {at};
      assert h in now.sidecars ==> now.sidecars[h] == (now.sidecars - {at})[h];
      assert h in now'.sidecars ==> now'.sidecars[h] == (now'.sidecars - {at})[h];
    }
  }

  // ------------------------------------------------------------------ which hours are opened and finalised

  datatype Event = Opening(hour: Hour) | Finalised(hour: Hour) | Moved

  ghost predicate Quiet(events: seq<Event>, i: int, j: int)
    requires 0 <= i < j <= |events|
  {
    forall k | i < k < j :: events[k] != Moved
  }

  /** `Moved` is a reading different from the frozen one. Without it, every hour opened or finalised
      after the ticker has finalised one is a later hour. */
  ghost predicate NoneReopened(events: seq<Event>) {
    forall i, j | 0 <= i < j < |events| && events[i].Finalised? && Quiet(events, i, j) && !events[j].Moved? ::
      events[i].hour < events[j].hour
  }

  /** The guard knows the last hour that the ticker finalised under the frozen reading. */
  ghost predicate Guarded(events: seq<Event>, closed: Option<Hour>) {
    forall i | 0 <= i < |events| && events[i].Finalised? && Quiet(events, i, |events|) ::
      closed.Some? && events[i].hour <= closed.value
  }

  lemma EventAdded(events: seq<Event>, closed: Option<Hour>, e: Event, closed': Option<Hour>)
    requires NoneReopened(events) && Guarded(events, closed)
    requires e.Moved? || closed.None? || closed.value < e.hour
    requires closed' == match e case Opening(_) => closed case Finalised(h) => Some(h) case Moved => None
    ensures NoneReopened(events + [e]) && Guarded(events + [e], closed')
  {
    var after := events + [e];
    forall i, j | 0 <= i < j < |after| && after[i].Finalised? && Quiet(after, i, j) && !after[j].Moved?
      ensures after[i].hour < after[j].hour
    {
      assert Quiet(events, i, j) by {
        assert forall k | i < k < j :: events[k] == after[k];
      }
    }
    forall i | 0 <= i < |after| && after[i].Finalised? && Quiet(after, i, |after|)
      ensures closed'.Some? && after[i].hour <= closed'.value
    {
      if i < |events| {
        assert after[|events|] == e;
        assert Quiet(events, i, |events|) by {
          assert forall k | i < k < |events| :: events[k] == after[k];
        }
      }
    }
  }

  /** The hour a frame is filed under: the receiver's, unless the ticker has already finalised that one
      and the receiver has said nothing new since. */
  function TargetHour(utc: Time, closed: Option<Hour>): (h: Hour)
    ensures closed.Some? ==> h > closed.value
    ensures closed.None? || utc / HOUR > closed.value ==> h * HOUR <= utc < (h + 1) * HOUR
  {
    var hour := utc / HOUR;
    if closed.Some? && hour <= closed.value then closed.value + 1 else hour
  }

  // ------------------------------------------------------------------ the writer

  function CarryOver(sc: Sidecar, previous: Sidecar): Sidecar {
    sc.(counts := previous.counts,
        startUtc := if previous.startUtc.Some? then previous.startUtc else sc.startUtc,
        keep := previous.keep || sc.keep,
        timeSource := previous.timeSource)
  }

  /** A file that has content is hashed again, and its sidecar, if there is one, carried over. */
  function Open(disk: Disk, sc: Sidecar): OpenLog {
    var file := FileAt(disk.files, sc.hour);
    if file == [] then OpenLog(sc.hour, sc, [])
    else
      var resumed := sc.(bytes := |file|, recovered := true);
      OpenLog(sc.hour, if sc.hour in disk.sidecars then CarryOver(resumed, disk.sidecars[sc.hour]) else resumed, file)
  }

  /** The marks of a file when it is opened: those of the sidecar it is resumed with, else its own. */
  predicate BeginsAs(disk: Disk, sc: Sidecar, utc: Option<Time>, source: Clock) {
    var resumed := FileAt(disk.files, sc.hour) != [];
    sc.recovered == resumed && sc.endUtc == None && sc.sha256 == None
    && if resumed && sc.hour in disk.sidecars then
         var previous := disk.sidecars[sc.hour];
         sc.startUtc == (if previous.startUtc == None then utc else previous.startUtc)
         && sc.keep == previous.keep && sc.timeSource == previous.timeSource
       else sc.startUtc == utc && !sc.keep && sc.timeSource == source
  }

  lemma OpenMarks(disk: Disk, sc: Sidecar)
    requires sc.endUtc == None && sc.sha256 == None && !sc.keep && !sc.recovered
    ensures BeginsAs(disk, Open(disk, sc).sidecar, sc.startUtc, sc.timeSource)
  {
  }

  method AddCounts(counts: map<string, nat>, more: map<string, nat>) returns (sum: map<string, nat>)
    ensures forall id: string :: Get(sum, id) == Get(counts, id) + Get(more, id)
  {
    sum := counts;
    var left := more.Keys;
    while left != {}
      invariant left <= more.Keys
      invariant forall id: string :: Get(sum, id) == Get(counts, id) + if id in left then 0 else Get(more, id)
      decreases |left|
    {
      var id :| id in left;
      sum := sum[id := Get(sum, id) + more[id]];
      left := left - {id};
    }
  }

  lemma NothingLeft(waiting: seq<Entry>)
    requires NonEmpty(waiting)
    ensures Content(waiting) == [] <==> waiting == []
    ensures NonEmpty([]) && Content([]) == [] && forall id: string :: Tally([], id) == 0
  {
    if waiting != [] {
      SomethingWritten(waiting);
    }
  }

  /** Open a file and write to it, in one go, what was held while the time was unknown. */
  method OpenWith(disk: Disk, sc: Sidecar, pending: seq<byte>, pendingCounts: map<string, nat>,
                  ghost waiting: seq<Entry>)
    returns (cur: OpenLog, file: seq<byte>)
    requires pending == Content(waiting) && (forall id: string :: Get(pendingCounts, id) == Tally(waiting, id))
    requires NonEmpty(waiting) && !sc.complete
    ensures var start := Open(disk, sc);
      cur.hour == sc.hour == cur.sidecar.hour && cur.hashed == start.hashed + Content(waiting)
      && !cur.sidecar.complete && cur.sidecar.bytes == start.sidecar.bytes + |Content(waiting)|
      && SameMarks(cur.sidecar, start.sidecar)
      && cur.sidecar.endUtc == start.sidecar.endUtc && cur.sidecar.sha256 == start.sidecar.sha256
      && (forall id: string :: Get(cur.sidecar.counts, id) == Get(start.sidecar.counts, id) + Tally(waiting, id))
    ensures file == FileAt(disk.files, sc.hour) + Content(waiting)
  {
    hide Content, Tally;
    cur, file := Open(disk, sc), FileAt(disk.files, sc.hour);
    NothingLeft(waiting);
    if pending != [] {
      var counts := AddCounts(cur.sidecar.counts, pendingCounts);
      file := file + pending;
      var sidecar := cur.sidecar.(bytes := cur.sidecar.bytes + |pending|, counts := counts);
      cur := OpenLog(cur.hour, sidecar, cur.hashed + pending);
    }
  }

  lemma ClosedKept(first: Disk, now: Disk, log: seq<Placed>, cur: OpenLog, sidecar: Sidecar)
    requires Kept(first, now, log, Some(cur.hour)) && OpenKept(cur, first, now, log)
    requires sidecar.bytes == cur.sidecar.bytes && sidecar.counts == cur.sidecar.counts
    requires sidecar.sha256 == Some(cur.hashed) && sidecar.complete && SameMarks(sidecar, cur.sidecar)
    requires OnHour(log, cur.hour) != []
    ensures Kept(first, now.(sidecars := now.sidecars[cur.hour := sidecar]), log, None)
  {
    var now' := now.(sidecars := now.sidecars[cur.hour := sidecar]);
    OthersKept(first, now, log, cur.hour, [], now', Some(cur.hour));
    assert log + Place(cur.hour, []) == log;
    assert HourKept(first, now, log, cur.hour, Some(cur.hour) == Some(cur.hour));
    assert HourKept(first, now', log, cur.hour, false);
  }

  lemma Started(first: Disk, now: Disk, log: seq<Placed>, blank: Sidecar)
    requires Kept(first, now, log, None) && NonEmpty(EntriesOf(log))
    requires blank.counts == map[] && blank.bytes == 0 && !blank.complete
    ensures OpenKept(Open(now, blank), first, now, log) && Open(now, blank).hour == blank.hour
  {
    hide NonEmpty, EntriesOf, Describes, Base;
    Opened(first, now, log, Open(now, blank));
    assert HourKept(first, now, log, blank.hour, None == Some(blank.hour));
  }

  lemma StillNonEmpty(log: seq<Placed>, h: Hour, added: seq<Entry>)
    requires NonEmpty(EntriesOf(log)) && NonEmpty(added)
    ensures NonEmpty(EntriesOf(log + Place(h, added)))
  {
    LogPlace(log, h, added, h);
  }

  lemma RotatedKept(first: Disk, now: Disk, log: seq<Placed>, blank: Sidecar, start: OpenLog,
                    added: seq<Entry>, cur: OpenLog, file: seq<byte>)
    requires Kept(first, now, log, None) && NonEmpty(EntriesOf(log)) && NonEmpty(added)
    requires blank.counts == map[] && blank.bytes == 0 && !blank.complete && start == Open(now, blank)
    requires cur.hour == blank.hour == cur.sidecar.hour && cur.hashed == start.hashed + Content(added)
    requires !cur.sidecar.complete && cur.sidecar.bytes == start.sidecar.bytes + |Content(added)|
    requires SameMarks(cur.sidecar, start.sidecar)
    requires forall id: string :: Get(cur.sidecar.counts, id) == Get(start.sidecar.counts, id) + Tally(added, id)
    requires file == FileAt(now.files, cur.hour) + Content(added)
    ensures var now' := Disk(now.files[cur.hour := file], now.sidecars[cur.hour := cur.sidecar]);
      var log' := log + Place(cur.hour, added);
      Kept(first, now', log', Some(cur.hour)) && OpenKept(cur, first, now', log') && NonEmpty(EntriesOf(log'))
  {
    hide Content, Tally, Describes, EntriesOf, NonEmpty, Base, Open;
    var h := cur.hour;
    var now' := Disk(now.files[h := file], now.sidecars[h := cur.sidecar]);
    var log' := log + Place(h, added);
    Started(first, now, log, blank);
    assert HourKept(first, now, log, h, None == Some(h));
    Appended(first, now, log, start, added, now', cur);
    OthersKept(first, now, log, h, added, now', None);
    assert HourKept(first, now', log', h, true);
    StillNonEmpty(log, h, added);
  }

  lemma OneNonEmpty(entry: Entry)
    requires entry.raw != []
    ensures NonEmpty([entry])
  {
  }

  lemma AppendedToOpen(first: Disk, now: Disk, log: seq<Placed>, cur: OpenLog, added: seq<Entry>, now': Disk,
                       cur': OpenLog)
    requires Kept(first, now, log, Some(cur.hour)) && OpenKept(cur, first, now, log)
    requires cur'.hour == cur.hour == cur'.sidecar.hour
    requires cur'.hashed == cur.hashed + Content(added) && !cur'.sidecar.complete
    requires now' == now.(files := now.files[cur.hour := FileAt(now.files, cur.hour) + Content(added)])
    requires cur'.sidecar.bytes == cur.sidecar.bytes + |Content(added)|
    requires SameMarks(cur'.sidecar, cur.sidecar)
    requires forall id: string :: Get(cur'.sidecar.counts, id) == Get(cur.sidecar.counts, id) + Tally(added, id)
    ensures var log' := log + Place(cur.hour, added);
      Kept(first, now', log', Some(cur.hour)) && OpenKept(cur', first, now', log')
  {
    hide Content, Tally, Describes, EntriesOf, Base;
    var h, log' := cur.hour, log + Place(cur.hour, added);
    assert HourKept(first, now, log, h, Some(h) == Some(h));
    Appended(first, now, log, cur, added, now', cur');
    OthersKept(first, now, log, h, added, now', Some(h));
    assert HourKept(first, now', log', h, true);
  }

  lemma WrittenKept(first: Disk, now: Disk, log: seq<Placed>, cur: OpenLog, entry: Entry, cur': OpenLog)
    requires Kept(first, now, log, Some(cur.hour)) && OpenKept(cur, first, now, log) && NonEmpty(EntriesOf(log))
    requires entry.raw != []
    requires cur'.hour == cur.hour == cur'.sidecar.hour && cur'.hashed == cur.hashed + entry.raw
    requires !cur'.sidecar.complete && cur'.sidecar.bytes == cur.sidecar.bytes + |entry.raw|
    requires SameMarks(cur'.sidecar, cur.sidecar)
    requires cur'.sidecar.counts == cur.sidecar.counts[entry.identity := Get(cur.sidecar.counts, entry.identity) + 1]
    ensures var now' := now.(files := now.files[cur.hour := FileAt(now.files, cur.hour) + entry.raw]);
      var log' := log + [Placed(cur.hour, entry)];
      Kept(first, now', log', Some(cur.hour)) && OpenKept(cur', first, now', log') && NonEmpty(EntriesOf(log'))
      && OnHour(log', cur.hour) != []
  {
    hide Describes, NonEmpty, Base, Kept, OpenKept, EntriesOf;
    var h, added := cur.hour, [entry];
    var now' := now.(files := now.files[h := FileAt(now.files, h) + entry.raw]);
    assert added[..0] == [] && Place(h, added) == [Placed(h, entry)];
    assert [] + entry.raw == entry.raw && Content(added) == entry.raw;
    assert forall id: string :: Tally(added, id) == if id == entry.identity then 1 else 0;
    AppendedToOpen(first, now, log, cur, added, now', cur');
    assert NonEmpty(added) by {
      OneNonEmpty(entry);
    }
    StillNonEmpty(log, h, added);
    LogPlace(log, h, added, h);
  }

  lemma OneMoreWaits(waiting: seq<Entry>, counts: map<string, nat>, entry: Entry)
    ensures Content(waiting + [entry]) == Content(waiting) + entry.raw
    ensures NonEmpty(waiting) && entry.raw != [] ==> NonEmpty(waiting + [entry])
    ensures (forall id: string :: Get(counts, id) == Tally(waiting, id)) ==>
      forall id: string ::
        Get(counts[entry.identity := Get(counts, entry.identity) + 1], id) == Tally(waiting + [entry], id)
  {
    assert (waiting + [entry])[..|waiting|] == waiting;
  }

  lemma BulkIsWritten(log: seq<Placed>, h: Hour, waiting: seq<Entry>)
    ensures OnHour(log + Place(h, waiting), h) == OnHour(log, h) + waiting
    ensures EntriesOf(log + Place(h, waiting)) == EntriesOf(log) + waiting
  {
    LogPlace(log, h, waiting, h);
  }

  lemma PlaceNothing(log: seq<Placed>, h: Hour)
    ensures log + Place(h, []) == log
  {
    assert log + [] == log;
  }

  lemma PlaceOneMore(log: seq<Placed>, h: Hour, waiting: seq<Entry>, entry: Entry)
    ensures log + Place(h, waiting + [entry]) == (log + Place(h, waiting)) + [Placed(h, entry)]
    ensures EntriesOf(log + Place(h, waiting + [entry])) == EntriesOf(log) + (waiting + [entry])
  {
    LogPlace(log, h, waiting + [entry], h);
    assert (waiting + [entry])[..|waiting|] == waiting;
  }

  lemma DumpedKept(first: Disk, now: Disk, log: seq<Placed>, cur: OpenLog)
    requires Kept(first, now, log, Some(cur.hour)) && OpenKept(cur, first, now, log)
    ensures var now' := now.(sidecars := now.sidecars[cur.hour := cur.sidecar]);
      Kept(first, now', log, Some(cur.hour)) && OpenKept(cur, first, now', log)
  {
    var now' := now.(sidecars := now.sidecars[cur.hour := cur.sidecar]);
    OthersKept(first, now, log, cur.hour, [], now', Some(cur.hour));
    assert log + Place(cur.hour, []) == log;
    assert HourKept(first, now, log, cur.hour, Some(cur.hour) == Some(cur.hour));
    assert HourKept(first, now', log, cur.hour, true);
  }

  /** What names the hours: a reading of the receiver's clock, or the host's, and when it was taken by the
      monotonic clock. */
  datatype Told = Told(reading: Time, mono: Time)

  class RawLogWriter {
    const filter: set<string>
    var disk: Disk
    var current: Option<OpenLog>
    var pending: seq<byte>
    var pendingCounts: map<string, nat>
    var utc: Option<Time>
    var utcMono: Time
    var closedHour: Option<Hour>
    var frozenUtc: Option<Time>
    var timeSource: Clock
    var lastSidecar: Time
    ghost const first: Disk          // the disk as this writer found it
    ghost var accepted: seq<Entry>   // every frame that passed the filter
    ghost var waiting: seq<Entry>    // those of them that are pending
    ghost var log: seq<Placed>       // those of them that were written, in write order
    ghost var events: seq<Event>
    ghost var told: Option<Told>     // the last reading given, or the host's clock when it named a file
    ghost var heard: Time            // when that was, or when the ticker last finalised an hour

    /** The clock is what was told last, and the time since. */
    ghost predicate Clocked()
      reads `utc, `utcMono, `told, `heard
    {
      (utc.None? <==> told.None?)
      && (utc.Some? ==> utcMono == heard && utc.value == told.value.reading + (heard - told.value.mono))
    }

    ghost predicate Times()
      reads `utc, `closedHour, `frozenUtc, `current, `events
    {
      (frozenUtc.None? <==> closedHour.None?)
      && (utc.None? ==> closedHour.None? && current.None?)
      && (current.Some? && closedHour.Some? ==> closedHour.value < current.value.hour)
      && NoneReopened(events) && Guarded(events, closedHour)
    }

    ghost predicate Waiting()
      reads `pending, `pendingCounts, `waiting, `current
    {
      pending == Content(waiting) && NonEmpty(waiting)
      && (forall id: string :: Get(pendingCounts, id) == Tally(waiting, id))
      && (current.Some? ==> waiting == [])
    }

    ghost predicate OnDisk()
      reads `disk, `current, `log
    {
      NonEmpty(EntriesOf(log))
      && Kept(first, disk, log, if current.Some? then Some(current.value.hour) else None)
      && (current.Some? ==> OpenKept(current.value, first, disk, log))
    }

    /** An hour is opened in order to write to it. */
    ghost predicate Used()
      reads `current, `log
    {
      current.Some? ==> OnHour(log, current.value.hour) != []
    }

    ghost predicate Core()
      reads this
    {
      Times() && Waiting() && OnDisk()
    }

    /** Nothing is lost or written twice: what was written and then what is pending is all that was
        accepted, in order. */
    ghost predicate Valid()
      reads this
    {
      Core() && Used() && Clocked()
      && EntriesOf(log) + waiting == accepted
      && (utc.None? ==> |pending| <= PENDING_CAP_BYTES)
    }

    constructor (filter: set<string>, disk: Disk, now: Time)
      ensures Valid() && first == disk && accepted == [] && events == [] && utc == None && this.filter == filter
      ensures this.disk == disk && current == None && lastSidecar == now
    {
      this.filter := filter;
      this.disk := disk;
      first := disk;
      current, pending, pendingCounts := None, [], map[];
      utc, utcMono, closedHour, frozenUtc := None, now, None, None;
      timeSource, lastSidecar := Receiver, now;
      accepted, waiting, log, events, told, heard := [], [], [], [], None, now;
    }

    /** Set the receiver clock that rotation keys on. Only a reading other than the frozen one lifts
        the guard. */
    method NoteUtc(dt: Time, mono: Time)
      requires Core()
      modifies `utc, `utcMono, `closedHour, `frozenUtc, `timeSource, `events, `told, `heard
      ensures Core() && Clocked() && utc == Some(dt) && timeSource == Receiver
      ensures told == Some(Told(dt, mono)) && heard == mono
      ensures old(frozenUtc).None? || old(frozenUtc) == Some(dt) ==>
        closedHour == old(closedHour) && frozenUtc == old(frozenUtc) && events == old(events)
      ensures old(frozenUtc).Some? && old(frozenUtc) != Some(dt) ==>
        closedHour == None && events == old(events) + [Moved]
    {
      hide OnDisk, Waiting, NoneReopened, Guarded;
      if frozenUtc.Some? && dt != frozenUtc.value {
        EventAdded(events, closedHour, Moved, None);
        frozenUtc := None;
        closedHour := None;
        events := events + [Moved];
      }
      utc := Some(dt);
      utcMono := mono;
      timeSource := Receiver;
      told, heard := Some(Told(dt, mono)), mono;
    }

    /** Finalise the open file: its sidecar now says all. */
    method CloseCurrent()
      requires Core() && Used() && current.Some?
      modifies `disk, `current
      ensures Core() && current == None
      ensures disk.files == old(disk).files
      ensures var cur := old(current).value;
        disk.sidecars == old(disk).sidecars[
          cur.hour := cur.sidecar.(endUtc := utc, sha256 := Some(cur.hashed), complete := true)]
    {
      hide Kept, NoneReopened, Guarded;
      var cur := current.value;
      current := None;
      var sidecar := cur.sidecar.(endUtc := utc, sha256 := Some(cur.hashed), complete := true);
      ClosedKept(first, disk, log, cur, sidecar);
      disk := disk.(sidecars := disk.sidecars[cur.hour := sidecar]);
    }

    /** Open the file of `hour`, resuming it if it has content, and write what was pending. */
    method Rotate(hour: Hour)
      requires Core() && Used() && utc.Some?
      requires closedHour.Some? ==> closedHour.value < hour
      requires current.None? || current.value.hour != hour
      modifies `disk, `current, `pending, `pendingCounts, `waiting, `log, `events
      ensures Core() && current.Some? && current.value.hour == hour
      ensures log == old(log) + Place(hour, old(waiting)) && waiting == [] && pending == []
      ensures events == old(events) + [Opening(hour)]
      ensures hour in disk.sidecars && current.value.sidecar == disk.sidecars[hour]
      ensures BeginsAs(old(disk), current.value.sidecar, utc, timeSource)
    {
      hide Waiting, OnDisk, NoneReopened, Guarded, OnHour;
      if current.Some? {
        CloseCurrent();
      }
      OpenHour(hour);
      EventAdded(events, closedHour, Opening(hour), closedHour);
      events := events + [Opening(hour)];
    }

    method OpenHour(hour: Hour)
      requires Waiting() && OnDisk() && current.None?
      modifies `disk, `current, `pending, `pendingCounts, `waiting, `log
      ensures Waiting() && OnDisk() && current.Some? && current.value.hour == hour
      ensures log == old(log) + Place(hour, old(waiting)) && waiting == [] && pending == []
      ensures current.value.sidecar.hour == hour && hour in disk.sidecars
      ensures current.value.sidecar == disk.sidecars[hour]
      ensures BeginsAs(old(disk), current.value.sidecar, utc, timeSource)
    {
      hide Kept, OpenKept, Content, Tally, EntriesOf, Open, NonEmpty, Place;
      var sidecar := Sidecar(hour, utc, None, 0, map[], None, false, timeSource, false, false);
      var cur, file := OpenWith(disk, sidecar, pending, pendingCounts, waiting);
      RotatedKept(first, disk, log, sidecar, Open(disk, sidecar), waiting, cur, file);
      OpenMarks(disk, sidecar);
      disk := Disk(disk.files[hour := file], disk.sidecars[hour := cur.sidecar]);
      current := Some(cur);
      log := log + Place(hour, waiting);
      NothingLeft(waiting);
      if pending != [] {
        pending, pendingCounts := [], map[];
      }
      waiting := [];
    }

    /** `_OpenLog.write` */
    method Write(entry: Entry)
      requires Core() && current.Some? && entry.raw != []
      modifies `disk, `current, `log
      ensures Core() && current.Some? && current.value.hour == old(current).value.hour && Used()
      ensures log == old(log) + [Placed(current.value.hour, entry)]
    {
      hide Kept, NoneReopened, Guarded, Describes, Content, Tally, EntriesOf;
      var cur := current.value;
      var counts := cur.sidecar.counts[entry.identity := Get(cur.sidecar.counts, entry.identity) + 1];
      var sidecar := cur.sidecar.(bytes := cur.sidecar.bytes + |entry.raw|, counts := counts);
      var cur' := OpenLog(cur.hour, sidecar, cur.hashed + entry.raw);
      WrittenKept(first, disk, log, cur, entry, cur');
      disk := disk.(files := disk.files[cur.hour := FileAt(disk.files, cur.hour) + entry.raw]);
      current := Some(cur');
      log := log + [Placed(cur.hour, entry)];
    }

    method AddPending(entry: Entry)
      requires Waiting() && current.None? && entry.raw != []
      modifies `pending, `pendingCounts, `waiting
      ensures Waiting() && waiting == old(waiting) + [entry] && pending == old(pending) + entry.raw
    {
      hide Content, Tally, NonEmpty;
      OneMoreWaits(waiting, pendingCounts, entry);
      pending := pending + entry.raw;
      pendingCounts := pendingCounts[entry.identity := Get(pendingCounts, entry.identity) + 1];
      waiting := waiting + [entry];
    }

    /** Hold a frame back; when too much is held, let the host clock name the file. */
    method BufferPending(entry: Entry, mono: Time, host: Time)
      requires Core() && Used() && Clocked() && utc.None? && entry.raw != []
      modifies `disk, `current, `pending, `pendingCounts, `waiting, `log, `events, `utc, `utcMono, `timeSource,
        `told, `heard
      ensures Core() && Used() && Clocked() && (utc.None? ==> |pending| <= PENDING_CAP_BYTES)
      ensures utc.None? ==> log == old(log) && waiting == old(waiting) + [entry]
      ensures told == (if utc.Some? then Some(Told(host, mono)) else None)
      ensures heard == if utc.Some? then mono else old(heard)
      ensures utc.Some? ==>
        utc == Some(host) && timeSource == Host && waiting == []
        && log == old(log) + Place(host / HOUR, old(waiting) + [entry])
        && |old(pending) + entry.raw| > PENDING_CAP_BYTES
    {
      hide OnDisk, NoneReopened, Guarded, Waiting, OnHour, EntriesOf, Place;
      AddPending(entry);
      if |pending| > PENDING_CAP_BYTES {
        utc := Some(host);
        utcMono := mono;
        timeSource := Host;
        told, heard := Some(Told(host, mono)), mono;
        BulkIsWritten(log, host / HOUR, waiting);
        Rotate(host / HOUR);
      }
    }

    /** What `handle` accepts, and the clock it files by. */
    ghost predicate Accepts(frame: LogFrame) {
      frame.ubx && frame.entry.identity in filter
    }

    ghost predicate Reads(frame: LogFrame) {
      frame.ubx && frame.entry.identity == NAV_PVT && frame.reading.Some?
    }

    /** One frame off the bus; `host` is the host clock, should it be needed. */
    method Handle(frame: LogFrame, mono: Time, host: Time)
      requires Valid() && frame.entry.raw != []
      modifies this
      ensures Valid()
      ensures accepted == old(accepted) + if Accepts(frame) then [frame.entry] else []
      ensures Reads(frame) ==> utc == frame.reading
      ensures !Reads(frame) && old(utc).Some? ==> utc == old(utc)
      ensures told == (if Reads(frame) then Some(Told(frame.reading.value, mono))
                       else if old(utc).None? && utc.Some? then Some(Told(host, mono)) else old(told))
      ensures heard == if Reads(frame) || (old(utc).None? && utc.Some?) then mono else old(heard)
      // a frame goes, after all that waited, to the hour of the receiver's time
      ensures Accepts(frame) && (Reads(frame) || old(utc).Some?) ==>
        log == old(log) + Place(TargetHour(utc.value, closedHour), old(waiting) + [frame.entry])
      ensures !Accepts(frame) ==> log == old(log) && waiting == old(waiting)
      // or waits, until there is a time to file it by: the receiver's, or at the cap the host's
      ensures Accepts(frame) && !Reads(frame) && old(utc).None? ==>
        if utc.None? then log == old(log) && waiting == old(waiting) + [frame.entry]
        else
          utc == Some(host) && timeSource == Host
          && log == old(log) + Place(host / HOUR, old(waiting) + [frame.entry])
      // the guard is lifted by a different reading, and by nothing else
      ensures closedHour == if Reads(frame) && frame.reading != old(frozenUtc) then None else old(closedHour)
    {
      hide OnDisk, NoneReopened, Guarded, Waiting, OnHour, Place, EntriesOf, TargetHour;
      if !frame.ubx {
        return;
      }
      var entry := frame.entry;
      if entry.identity == NAV_PVT && frame.reading.Some? {
        NoteUtc(frame.reading.value, mono);
      }
      if entry.identity !in filter {
        return;
      }
      PlaceOneMore(log, host / HOUR, waiting, entry);
      accepted := accepted + [entry];
      assert EntriesOf(log) + (waiting + [entry]) == accepted;
      if utc.None? {
        BufferPending(entry, mono, host);
        return;
      }
      Record(entry);
    }

    /** Write a frame to the file of its hour. */
    method Record(entry: Entry)
      requires Core() && Used() && utc.Some? && entry.raw != []
      modifies `disk, `current, `pending, `pendingCounts, `waiting, `log, `events
      ensures Core() && Used() && waiting == []
      ensures log == old(log) + Place(TargetHour(utc.value, closedHour), old(waiting) + [entry])
      ensures EntriesOf(log) == old(EntriesOf(log)) + (old(waiting) + [entry])
    {
      hide OnDisk, NoneReopened, Guarded, Waiting, OnHour, Place, EntriesOf;
      var hour := TargetHour(utc.value, closedHour);
      PlaceOneMore(log, hour, waiting, entry);
      if current.None? || current.value.hour != hour {
        Rotate(hour);
      } else {
        NothingWaits();
        PlaceNothing(log, hour);
      }
      Write(entry);
    }

    lemma NothingWaits()
      requires Waiting() && current.Some?
      ensures waiting == []
    {
    }

    /** Due when the last reading, projected by the monotonic clock, has left the hour. */
    predicate Due(now: Time, hour: Hour)
      reads `utc, `utcMono
    {
      utc.Some? && now > utcMono && utc.value + (now - utcMono) >= (hour + 1) * HOUR
    }

    /** The open hour is finalised, stamped with the last real reading, which stays frozen; the clock goes
        on by projection. */
    twostate predicate ClosedByTicker(now: Time)
      requires old(current).Some? && old(utc).Some?
      reads this
    {
      var closed := old(current).value.hour;
      current == None && closedHour == Some(closed) && events == old(events) + [Finalised(closed)] && heard == now
      && frozenUtc == (if old(frozenUtc).None? then old(utc) else old(frozenUtc))
      && utc == Some(old(utc).value + (now - old(utcMono)))
      && disk.files == old(disk).files
      && closed in disk.sidecars && disk.sidecars[closed].complete && disk.sidecars[closed].endUtc == old(utc)
    }

    /** Once a second: close an hour that has elapsed, or refresh the sidecar. An hour is finalised exactly
        when the reading last told, and the time since, has left it. */
    method Tick(now: Time)
      requires Valid()
      modifies `disk, `current, `utc, `utcMono, `closedHour, `frozenUtc, `lastSidecar, `events, `heard
      ensures Valid()
      ensures old(current).Some? ==> told.Some? && old(utc).Some?
      ensures old(current).Some? ==>
        (current.None? <==>
           now > old(heard) && told.value.reading + (now - told.value.mono) >= (old(current).value.hour + 1) * HOUR)
      ensures old(current).Some? && current.None? ==> ClosedByTicker(now)
      ensures old(current).None? || current.Some? ==>
        current == old(current) && utc == old(utc) && closedHour == old(closedHour) && frozenUtc == old(frozenUtc)
        && events == old(events) && disk.files == old(disk).files && heard == old(heard)
      ensures current.Some? && now - old(lastSidecar) >= SIDECAR_UPDATE ==>
        current.value.hour in disk.sidecars && disk.sidecars[current.value.hour] == current.value.sidecar
      ensures lastSidecar == if current.Some? && now - old(lastSidecar) >= SIDECAR_UPDATE then now else old(lastSidecar)
    {
      hide NoneReopened, Guarded, Kept, OpenKept;
      if current.None? {
        return;
      }
      CloseElapsedHour(now);
      if current.None? {
        return;
      }
      if now - lastSidecar >= SIDECAR_UPDATE {
        DumpedKept(first, disk, log, current.value);
        disk := disk.(sidecars := disk.sidecars[current.value.hour := current.value.sidecar]);
        lastSidecar := now;
      }
    }

    method CloseElapsedHour(now: Time)
      requires Valid() && current.Some?
      modifies `disk, `current, `utc, `utcMono, `closedHour, `frozenUtc, `events, `heard
      ensures Valid()
      ensures if old(Due(now, current.value.hour)) then ClosedByTicker(now)
              else
                current == old(current) && utc == old(utc) && closedHour == old(closedHour)
                && frozenUtc == old(frozenUtc) && events == old(events) && disk == old(disk) && heard == old(heard)
    {
      hide NoneReopened, Guarded, OnDisk, Waiting, EntriesOf;
      if utc.None? {
        return;
      }
      var elapsed := now - utcMono;
      if elapsed <= 0 || utc.value + elapsed < (current.value.hour + 1) * HOUR {
        return;
      }
      Finalise(now);
    }

    method Finalise(now: Time)
      requires Valid() && current.Some? && Due(now, current.value.hour)
      modifies `disk, `current, `utc, `utcMono, `closedHour, `frozenUtc, `events, `heard
      ensures Valid() && ClosedByTicker(now)
    {
      hide NoneReopened, Guarded, OnDisk, Waiting, EntriesOf;
      var closed := current.value.hour;
      CloseCurrent();
      Project(closed, now);
    }

    /** Go on by projection, with the hour `closed` closed to the reading that is now frozen. */
    method Project(closed: Hour, now: Time)
      requires Times() && Clocked() && utc.Some? && current.None?
      requires closedHour.Some? ==> closedHour.value < closed
      modifies `utc, `utcMono, `closedHour, `frozenUtc, `events, `heard
      ensures Times() && Clocked() && heard == now && closedHour == Some(closed)
      ensures frozenUtc == if old(frozenUtc).None? then old(utc) else old(frozenUtc)
      ensures utc == Some(old(utc).value + (now - old(utcMono))) && events == old(events) + [Finalised(closed)]
    {
      hide NoneReopened, Guarded;
      EventAdded(events, closedHour, Finalised(closed), Some(closed));
      if frozenUtc.None? {
        frozenUtc := utc;
      }
      utc := Some(utc.value + (now - utcMono));
      utcMono := now;
      closedHour := Some(closed);
      events := events + [Finalised(closed)];
      heard := now;
    }

    method Close()
      requires Valid()
      modifies `disk, `current
      ensures Valid() && current == None && disk.files == old(disk).files
    {
      if current.Some? {
        CloseCurrent();
      }
    }
  }

  // ------------------------------------------------------------------ what that means

  /** A finished file holds what it held when this writer found it and all that was written since, and
      its sidecar gives the size and the digest of the whole file. Its message counts are those of the
      whole file exactly when what the resumed sidecar said - nothing, for want of one - was right. */
  lemma WholeFile(writer: RawLogWriter, h: Hour, before: seq<Entry>)
    requires writer.Valid() && (writer.current.None? || writer.current.value.hour != h)
    requires OnHour(writer.log, h) != [] && FileAt(writer.first.files, h) == Content(before)
    ensures h in writer.disk.sidecars
    ensures var sc, file := writer.disk.sidecars[h], FileAt(writer.disk.files, h);
      file == Content(before + OnHour(writer.log, h))
      && sc.complete && sc.bytes == |file| && sc.sha256 == Some(file) && Carries(writer.first, h, sc)
      && ((forall id: string :: Get(sc.counts, id) == Tally(before + OnHour(writer.log, h), id))
          <==> (forall id: string :: Get(Base(writer.first, h), id) == Tally(before, id)))
  {
    hide Content, Tally, Base;
    var open: Option<Hour> := if writer.current.Some? then Some(writer.current.value.hour) else None;
    assert HourKept(writer.first, writer.disk, writer.log, h, open == Some(h));
    var written := OnHour(writer.log, h);
    Concat(before, written, "");
    forall id: string
      ensures Tally(before + written, id) == Tally(before, id) + Tally(written, id)
    {
      Concat(before, written, id);
    }
  }

  /** An hour that the ticker has finalised is opened again only after a reading other than the one it
      was finalised under. */
  lemma NeverReopened(writer: RawLogWriter, i: nat, j: nat, h: Hour)
    requires writer.Valid() && i < j < |writer.events|
    requires writer.events[i] == Finalised(h) && writer.events[j] == Opening(h)
    ensures exists k :: i < k < j && writer.events[k] == Moved
  {
    assert !Quiet(writer.events, i, j);
  }

  lemma OneMessage(log: seq<Placed>, h: Hour, first: Entry, second: Entry)
    requires log == [] + Place(h, [] + [second])
    ensures OnHour(log, h) == [second]
    ensures Content([first]) == first.raw && Content([first] + [second]) == first.raw + second.raw
    ensures [first] + [second] == [first, second]
    ensures Tally([second], second.identity) == 1
    ensures Tally([first, second], second.identity) == if first.identity == second.identity then 2 else 1
  {
    LogPlace([], h, [second], h);
    assert [] + [second] == [second];
    assert [second][..0] == [] && [first][..0] == [];
    Concat([first], [second], second.identity);
    assert [] + first.raw == first.raw && [] + second.raw == second.raw;
    assert Content([second]) == second.raw && Content([first]) == first.raw;
    assert Tally([first], second.identity) == if first.identity == second.identity then 1 else 0;
  }

  lemma CountedSince(writer: RawLogWriter, h: Hour, identity: string)
    requires writer.Valid() && writer.current.None? && OnHour(writer.log, h) != []
    ensures h in writer.disk.sidecars
    ensures Get(writer.disk.sidecars[h].counts, identity)
      == Get(Base(writer.first, h), identity) + Tally(OnHour(writer.log, h), identity)
  {
    var open: Option<Hour> := None;
    assert HourKept(writer.first, writer.disk, writer.log, h, open == Some(h));
  }

  /** What a missing sidecar costs: a file that holds one message is resumed without one, one message is
      written to it, and of the two the finished sidecar counts one. */
  method MissingSidecarForgets(h: Hour) returns (sc: Sidecar)
    ensures sc.complete && sc.bytes == 2 && sc.sha256 == Some([7, 8])
    ensures Get(sc.counts, NAV_PVT) == 1 && Tally([Entry(NAV_PVT, [7]), Entry(NAV_PVT, [8])], NAV_PVT) == 2
  {
    hide Kept, OpenKept, NoneReopened, Guarded;
    var old0, new0 := Entry(NAV_PVT, [7]), Entry(NAV_PVT, [8]);
    var disk := Disk(map[h := [7]], map[]);
    var writer := new RawLogWriter({NAV_PVT}, disk, 0);
    writer.Handle(LogFrame(true, new0, Some(h * HOUR)), 0, 0);
    writer.Close();
    OneMessage(writer.log, h, old0, new0);
    WholeFile(writer, h, [old0]);
    assert old0.raw + new0.raw == [7, 8];
    sc := writer.disk.sidecars[h];
    CountedSince(writer, h, NAV_PVT);
  }
}
