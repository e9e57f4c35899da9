/** Time marks across reconnects (`mtrtk_bridge/convert.py`): which marks of a snapshot are news, which
    updates repeat the snapshot, and what is queued for ROS. */
module Marks {
  import opened Options

  const MARK_COUNT_MOD: nat := 0x10000
  const MAX_PENDING_TIME_MARKS: nat := 256

  type Time = int
  datatype Mark = Mark(channel: int, count: int, rising: Option<Time>)
  datatype Report = Report(mark: Mark, newRising: bool) // one entry of a snapshot's `time_marks`

  function Key(m: Mark): (int, int) { (m.channel, m.count) }

  // ------------------------------------------------------------------ serial numbers

  /** Whether `count` comes after `last`, allowing for the 16-bit wrap. */
  predicate MarkAfter(count: int, last: int) {
    0 < (count - last) % MARK_COUNT_MOD < MARK_COUNT_MOD / 2
  }

  lemma Congruent(x: int, y: int)
    ensures (x % MARK_COUNT_MOD - y % MARK_COUNT_MOD) % MARK_COUNT_MOD == (x - y) % MARK_COUNT_MOD
  {
  }

  /** RFC 1982, section 3.2: numbers less than half the circle apart compare as what they stand for. */
  lemma MarkAfterIsLater(x: int, y: int)
    requires -(MARK_COUNT_MOD / 2) < x - y < MARK_COUNT_MOD / 2
    ensures MarkAfter(x % MARK_COUNT_MOD, y % MARK_COUNT_MOD) <==> x > y
  {
    Congruent(x, y);
  }

  // ------------------------------------------------------------------ the accumulator, on values

  /** `taken` is every mark ever queued. */
  datatype State = State(last: map<int, int>, lastUtc: map<int, Time>, synced: bool, snapshot: set<(int, int)>,
                         taken: seq<Mark>)

  function NoteSpec(s: State, m: Mark): State {
    s.(last := s.last[m.channel := m.count],
       lastUtc := match m.rising case Some(t) => s.lastUtc[m.channel := t] case None => s.lastUtc - {m.channel})
  }

  function TakeSpec(s: State, m: Mark): State {
    NoteSpec(s.(taken := s.taken + [m]), m)
  }

  predicate IsNews(last: map<int, int>, lastUtc: map<int, Time>, m: Mark) {
    m.channel !in last
    || MarkAfter(m.count, last[m.channel])
    || (m.rising.Some? && m.channel in lastUtc && m.rising.value > lastUtc[m.channel])
  }

  function ConsiderSpec(s: State, m: Mark, history: set<int>): State {
    if m.channel in history then NoteSpec(s, m) else if IsNews(s.last, s.lastUtc, m) then TakeSpec(s, m) else s
  }

  function ConsiderAll(s: State, marks: seq<Mark>, history: set<int>): State {
    if marks == [] then s
    else ConsiderSpec(ConsiderAll(s, marks[..|marks| - 1], history), marks[|marks| - 1], history)
  }

  function Rising(reports: seq<Report>): seq<Mark> {
    if reports == [] then []
    else Rising(reports[..|reports| - 1])
         + if reports[|reports| - 1].newRising then [reports[|reports| - 1].mark] else []
  }

  /** Reports of a falling edge alone make no difference, wherever they stand ... */
  lemma {:induction false} FallingIgnored(before: seq<Report>, m: Mark, after: seq<Report>)
    ensures Rising(before + [Report(m, false)] + after) == Rising(before + after)
    decreases |after|
  {
    if after == [] {
      assert before + [Report(m, false)] + after == before + [Report(m, false)] && before + after == before;
      assert (before + [Report(m, false)])[..|before|] == before;
    } else {
      var init, n := after[..|after| - 1], |after| - 1;
      FallingIgnored(before, m, init);
      assert (before + [Report(m, false)] + after)[..|before| + 1 + n] == before + [Report(m, false)] + init;
      assert (before + after)[..|before| + n] == before + init;
    }
  }

  /** ... and of the others every one counts. */
  lemma {:induction false} RisingCount(reports: seq<Report>)
    requires forall r | r in reports :: r.newRising
    ensures |Rising(reports)| == |reports| && forall i | 0 <= i < |reports| :: Rising(reports)[i] == reports[i].mark
    decreases |reports|
  {
    if reports != [] {
      assert reports[|reports| - 1] in reports;
      RisingCount(reports[..|reports| - 1]);
    }
  }

  function Keys(h: seq<Mark>, a: nat, t: nat): set<(int, int)>
    requires a <= t <= |h|
  {
    set m | m in h[a..t] :: Key(m)
  }

  function SnapshotSpec(s: State, rising: seq<Mark>): State {
    var history := if s.synced then {} else (set m | m in rising :: m.channel) - s.last.Keys;
    ConsiderAll(s.(snapshot := set m | m in rising :: Key(m)), rising, history).(synced := true)
  }

  function UpdateSpec(s: State, m: Mark): State {
    if Key(m) in s.snapshot then s else TakeSpec(s.(snapshot := {}), m)
  }

  function Updates(s: State, marks: seq<Mark>): State {
    if marks == [] then s else UpdateSpec(Updates(s, marks[..|marks| - 1]), marks[|marks| - 1])
  }

  method RisingOf(reports: seq<Report>) returns (rising: seq<Mark>)
    ensures rising == Rising(reports)
  {
    rising := [];
    for i := 0 to |reports|
      invariant rising == Rising(reports[..i])
    {
      assert reports[..i + 1][..i] == reports[..i];
      if reports[i].newRising {
        rising := rising + [reports[i].mark];
      }
    }
    assert reports[..|reports|] == reports;
  }

  // ------------------------------------------------------------------ the accumulator

  class EpochAccumulator {
    var lastMark: map<int, int>
    var lastMarkUtc: map<int, Time>
    var synced: bool
    var snapshotMarks: set<(int, int)>
    var marks: seq<Mark>
    var timeMarksDropped: nat
    ghost var taken: seq<Mark>
    ghost var popped: seq<Mark>

    ghost function View(): State
      reads this
    {
      State(lastMark, lastMarkUtc, synced, snapshotMarks, taken)
    }

    /** What is queued is the newest of what was taken; the rest was popped, or dropped and counted. */
    ghost predicate Valid()
      reads this
    {
      |marks| <= MAX_PENDING_TIME_MARKS
      && |taken| == timeMarksDropped + |popped| + |marks|
      && marks == taken[|taken| - |marks|..]
    }

    constructor ()
      ensures Valid() && View() == State(map[], map[], false, {}, []) && marks == []
    {
      lastMark, lastMarkUtc, synced, snapshotMarks := map[], map[], false, {};
      marks, timeMarksDropped, taken, popped := [], 0, [], [];
    }

    method NoteMark(m: Mark)
      modifies `lastMark, `lastMarkUtc
      ensures View() == NoteSpec(old(View()), m)
    {
      lastMark := lastMark[m.channel := m.count];
      if m.rising.Some? {
        lastMarkUtc := lastMarkUtc[m.channel := m.rising.value];
      } else {
        lastMarkUtc := lastMarkUtc - {m.channel};
      }
    }

    /** A full queue loses its oldest mark, and says so. */
    method TakeMark(m: Mark)
      requires Valid()
      modifies `lastMark, `lastMarkUtc, `marks, `timeMarksDropped, `taken
      ensures Valid() && View() == TakeSpec(old(View()), m)
      ensures |old(marks)| < MAX_PENDING_TIME_MARKS ==>
        marks == old(marks) + [m] && timeMarksDropped == old(timeMarksDropped)
      ensures |old(marks)| == MAX_PENDING_TIME_MARKS ==>
        marks == old(marks)[1..] + [m] && timeMarksDropped == old(timeMarksDropped) + 1
    {
      if |marks| == MAX_PENDING_TIME_MARKS {
        timeMarksDropped := timeMarksDropped + 1;
        marks := marks[1..];
      }
      marks := marks + [m];
      taken := taken + [m];
      NoteMark(m);
    }

    method RecoverMarks(reports: seq<Report>)
      requires Valid()
      modifies this
      ensures Valid() && View() == SnapshotSpec(old(View()), Rising(reports)) && popped == old(popped)
    {
      hide IsNews, MarkAfter, Rising, NoteSpec;
      var rising := RisingOf(reports);
      snapshotMarks := set m | m in rising :: Key(m);
      var history := if synced then {} else (set m | m in rising :: m.channel) - lastMark.Keys;
      ghost var start := View();
      for i := 0 to |rising|
        invariant Valid() && View() == ConsiderAll(start, rising[..i], history) && popped == old(popped)
      {
        assert rising[..i + 1][..i] == rising[..i];
        var m := rising[i];
        if m.channel in history {
          NoteMark(m);
        } else if IsNews(lastMark, lastMarkUtc, m) {
          TakeMark(m);
        }
      }
      assert rising[..|rising|] == rising;
      synced := true;
    }

    /** An update of topic `rtk` from `state.time_mark`. */
    method IngestTimeMark(m: Mark)
      requires Valid()
      modifies this
      ensures Valid() && View() == UpdateSpec(old(View()), m) && popped == old(popped)
    {
      if Key(m) in snapshotMarks {
        return;
      }
      snapshotMarks := {};
      TakeMark(m);
    }

    method PopTimeMarks() returns (r: seq<Mark>)
      requires Valid()
      modifies `marks, `popped
      ensures Valid() && r == old(marks) && marks == [] && popped == old(popped) + r
    {
      r := marks;
      popped := popped + marks;
      marks := [];
    }
  }

  // ------------------------------------------------------------------ the daemon's side

  /** All marks that the daemon raises, in order, and the unwrapped count of each: on one channel counts
      rise and times do not go back. */
  ghost predicate Raised(h: seq<Mark>, n: seq<nat>) {
    |h| == |n|
    && (forall i | 0 <= i < |h| :: h[i].count == n[i] % MARK_COUNT_MOD)
    && forall i, j | 0 <= i < j < |h| && h[i].channel == h[j].channel ::
         n[i] < n[j] && (h[i].rising.Some? && h[j].rising.Some? ==> h[i].rising.value <= h[j].rising.value)
  }

  lemma NotNews(s: State, h: seq<Mark>, n: seq<nat>, i: nat, l: nat)
    requires Raised(h, n) && i <= l < |h| && h[i].channel == h[l].channel && n[l] - n[i] < MARK_COUNT_MOD / 2
    requires h[i].channel in s.last && s.last[h[i].channel] == h[l].count
    requires h[i].channel in s.lastUtc ==> h[l].rising == Some(s.lastUtc[h[i].channel])
    ensures !IsNews(s.last, s.lastUtc, h[i])
  {
    MarkAfterIsLater(n[i], n[l]);
  }

  lemma IsLaterNews(s: State, h: seq<Mark>, n: seq<nat>, i: nat, l: nat)
    requires Raised(h, n) && l < i < |h| && h[i].channel == h[l].channel && n[i] - n[l] < MARK_COUNT_MOD / 2
    requires h[i].channel in s.last && s.last[h[i].channel] == h[l].count
    ensures IsNews(s.last, s.lastUtc, h[i])
  {
    MarkAfterIsLater(n[i], n[l]);
  }

  /** How news is told from history, exactly, when marks were missed: a multiple of 2^16 and up to half
      the circle more looks old by its count, and then only a later time shows that it is not. */
  lemma NewsExactly(s: State, h: seq<Mark>, n: seq<nat>, i: nat, l: nat)
    requires Raised(h, n) && l < i < |h| && h[i].channel == h[l].channel
    requires h[i].channel in s.last && s.last[h[i].channel] == h[l].count
    requires if h[l].rising.Some? then h[i].channel in s.lastUtc && s.lastUtc[h[i].channel] == h[l].rising.value
             else h[i].channel !in s.lastUtc
    ensures IsNews(s.last, s.lastUtc, h[i]) <==>
      (0 < (n[i] - n[l]) % MARK_COUNT_MOD < MARK_COUNT_MOD / 2)
      || (h[i].rising.Some? && h[l].rising.Some? && h[i].rising != h[l].rising)
  {
    Congruent(n[i], n[l]);
  }

  // ------------------------------------------------------------------ what ought to be taken

  /** One connection: a snapshot that shows the marks `a..t`, then updates. Those carry marks in the order
      they were raised, none older than the snapshot's first; any of them may have been lost on the way. */
  datatype Session = Session(a: nat, t: nat, updates: seq<nat>)

  /** The reference: which mark was the last known on each channel, and which were taken. */
  datatype Memory = Memory(latest: map<int, nat>, taken: seq<nat>)

  predicate Newer(h: seq<Mark>, m: Memory, i: nat)
    requires i < |h|
  {
    h[i].channel !in m.latest || m.latest[h[i].channel] < i
  }

  function Note(h: seq<Mark>, m: Memory, i: nat): Memory
    requires i < |h|
  {
    m.(latest := m.latest[h[i].channel := i])
  }

  /** A mark is taken if and only if it is newer than the last known on its channel. */
  function Offer(h: seq<Mark>, m: Memory, i: nat): Memory
    requires i < |h|
  {
    if Newer(h, m, i) then Note(h, m.(taken := m.taken + [i]), i) else m
  }

  function ShowHistory(h: seq<Mark>, m: Memory, a: nat, t: nat): Memory
    requires t <= |h|
  {
    if t <= a then m else Note(h, ShowHistory(h, m, a, t - 1), t - 1)
  }

  function ShowWindow(h: seq<Mark>, m: Memory, a: nat, t: nat): Memory
    requires t <= |h|
  {
    if t <= a then m else Offer(h, ShowWindow(h, m, a, t - 1), t - 1)
  }

  predicate Within(ids: seq<nat>, h: seq<Mark>) {
    forall k | 0 <= k < |ids| :: ids[k] < |h|
  }

  function ShowUpdates(h: seq<Mark>, m: Memory, ids: seq<nat>): Memory
    requires Within(ids, h)
  {
    if ids == [] then m else Offer(h, ShowUpdates(h, m, ids[..|ids| - 1]), ids[|ids| - 1])
  }

  function ShowSnapshot(h: seq<Mark>, m: Memory, ses: Session, first: bool): Memory
    requires ses.t <= |h|
  {
    if first then ShowHistory(h, m, ses.a, ses.t) else ShowWindow(h, m, ses.a, ses.t)
  }

  function ShowSession(h: seq<Mark>, m: Memory, ses: Session, first: bool): Memory
    requires ses.t <= |h| && Within(ses.updates, h)
  {
    ShowUpdates(h, ShowSnapshot(h, m, ses, first), ses.updates)
  }

  function MarksAt(h: seq<Mark>, ids: seq<nat>): seq<Mark>
    requires Within(ids, h)
  {
    if ids == [] then [] else MarksAt(h, ids[..|ids| - 1]) + [h[ids[|ids| - 1]]]
  }

  // ------------------------------------------------------------------ what a connection keeps to

  predicate Rises(ids: seq<nat>) {
    forall i, j | 0 <= i < j < |ids| :: ids[i] < ids[j]
  }

  ghost predicate Bounded(latest: map<int, nat>, b: nat) {
    forall c | c in latest :: latest[c] < b
  }

  ghost predicate NearLast(h: seq<Mark>, n: seq<nat>, m: Memory, i: nat)
    requires i < |h| == |n| && h[i].channel in m.latest
  {
    var l := m.latest[h[i].channel];
    l < |h| && -(MARK_COUNT_MOD / 2) < n[i] - n[l] < MARK_COUNT_MOD / 2
  }

  /** The first update beyond the snapshot. */
  predicate FirstFresh(ses: Session, k: int) {
    0 <= k < |ses.updates| && ses.updates[k] >= ses.t && (k == 0 || ses.updates[k - 1] < ses.t)
  }

  /** Time does not go back, and where counts are compared they are less than half the circle apart. */
  ghost predicate Follows(h: seq<Mark>, n: seq<nat>, m: Memory, ses: Session)
    requires |h| == |n|
  {
    ses.a <= ses.t <= |h| && Bounded(m.latest, ses.t)
    && Within(ses.updates, h) && Rises(ses.updates) && (forall k | 0 <= k < |ses.updates| :: ses.a <= ses.updates[k])
    && (forall i, j | ses.a <= i < j < ses.t && h[i].channel == h[j].channel :: n[j] - n[i] < MARK_COUNT_MOD / 2)
    && (forall i | ses.a <= i < ses.t && h[i].channel in m.latest :: NearLast(h, n, m, i))
    && (forall i, k | ses.a <= i < ses.t && FirstFresh(ses, k) && h[i].channel == h[ses.updates[k]].channel ::
          n[ses.updates[k]] - n[i] < MARK_COUNT_MOD)
  }

  // ------------------------------------------------------------------ the accumulator follows the reference

  /** The accumulator's memory is the reference's, by count and time. */
  ghost predicate Remembers(s: State, h: seq<Mark>, m: Memory) {
    m.latest.Keys == s.last.Keys
    && (forall c | c in m.latest ::
          m.latest[c] < |h| && h[m.latest[c]].channel == c && s.last[c] == h[m.latest[c]].count)
    && s.lastUtc.Keys <= m.latest.Keys
    && (forall c | c in m.latest ::
          h[m.latest[c]].rising == if c in s.lastUtc then Some(s.lastUtc[c]) else None)
    && Within(m.taken, h) && s.taken == MarksAt(h, m.taken)
  }

  lemma NoteRemembers(s: State, h: seq<Mark>, m: Memory, i: nat)
    requires Remembers(s, h, m) && i < |h|
    ensures Remembers(NoteSpec(s, h[i]), h, Note(h, m, i))
    ensures Remembers(TakeSpec(s, h[i]), h, Note(h, m.(taken := m.taken + [i]), i))
    ensures NoteSpec(s, h[i]).snapshot == TakeSpec(s, h[i]).snapshot == s.snapshot
    ensures NoteSpec(s, h[i]).synced == TakeSpec(s, h[i]).synced == s.synced
  {
    assert (m.taken + [i])[..|m.taken|] == m.taken;
  }

  /** What counts and times say of a mark near the last known is which came first. */
  lemma NewsIsNewer(s: State, h: seq<Mark>, n: seq<nat>, m: Memory, i: nat)
    requires Raised(h, n) && Remembers(s, h, m) && i < |h|
    requires h[i].channel in m.latest ==> NearLast(h, n, m, i)
    ensures IsNews(s.last, s.lastUtc, h[i]) <==> Newer(h, m, i)
  {
    if h[i].channel in m.latest {
      var l := m.latest[h[i].channel];
      if l < i {
        IsLaterNews(s, h, n, i, l);
      } else {
        NotNews(s, h, n, i, l);
      }
    }
  }

  /** Whatever its count - a daemon that restarts counts anew - a mark later in time is news. */
  lemma LaterInTimeIsNews(s: State, h: seq<Mark>, m: Memory, mark: Mark)
    requires Remembers(s, h, m) && mark.channel in m.latest && mark.rising.Some?
    requires var last := h[m.latest[mark.channel]]; last.rising.Some? && mark.rising.value > last.rising.value
    ensures IsNews(s.last, s.lastUtc, mark) && ConsiderSpec(s, mark, {}).taken == s.taken + [mark]
  {
  }

  lemma ConsiderIsOffer(s: State, h: seq<Mark>, n: seq<nat>, m: Memory, i: nat)
    requires Raised(h, n) && Remembers(s, h, m) && i < |h|
    requires h[i].channel in m.latest ==> NearLast(h, n, m, i)
    ensures var r := ConsiderSpec(s, h[i], {});
      Remembers(r, h, Offer(h, m, i)) && r.snapshot == s.snapshot && r.synced == s.synced
  {
    NewsIsNewer(s, h, n, m, i);
    NoteRemembers(s, h, m, i);
    hide Remembers, Raised, IsNews, NoteSpec, TakeSpec, Note;
  }

  lemma ConsiderNext(s: State, h: seq<Mark>, a: nat, k: nat, history: set<int>)
    requires a <= k < |h|
    ensures ConsiderAll(s, h[a..k + 1], history) == ConsiderSpec(ConsiderAll(s, h[a..k], history), h[k], history)
  {
    assert h[a..k + 1][..k - a] == h[a..k];
  }

  lemma ConsiderNothing(s: State)
    ensures forall history: set<int> :: ConsiderAll(s, [], history) == s
    ensures Updates(s, []) == s
  {
  }

  ghost predicate Grows(m: Memory, m': Memory) {
    forall c | c in m.latest :: c in m'.latest && m.latest[c] <= m'.latest[c]
  }

  /** What is not newer than the memory is never so again. */
  ghost predicate NoneNewer(h: seq<Mark>, m: Memory, a: nat, t: nat)
    requires t <= |h|
  {
    forall i | a <= i < t :: !Newer(h, m, i)
  }

  lemma StillKnown(h: seq<Mark>, m: Memory, m': Memory, a: nat, t: nat)
    requires t <= |h| && NoneNewer(h, m, a, t) && Grows(m, m')
    ensures NoneNewer(h, m', a, t)
  {
    forall i | a <= i < t
      ensures !Newer(h, m', i)
    {
      assert !Newer(h, m, i);
    }
  }

  lemma OneMoreKnown(h: seq<Mark>, m: Memory, a: nat, t: nat)
    requires t < |h| && NoneNewer(h, m, a, t) && !Newer(h, m, t)
    ensures NoneNewer(h, m, a, t + 1)
  {
  }

  lemma OfferGrows(h: seq<Mark>, m: Memory, i: nat)
    requires i < |h|
    ensures Grows(m, Offer(h, m, i)) && !Newer(h, Offer(h, m, i), i)
    ensures Bounded(m.latest, i) ==> Grows(m, Note(h, m, i)) && !Newer(h, Note(h, m, i), i)
  {
  }

  lemma GrowsOn(a: Memory, b: Memory, c: Memory)
    requires Grows(a, b) && Grows(b, c)
    ensures Grows(a, c)
  {
  }

  ghost predicate FromWindow(h: seq<Mark>, m: Memory, a: nat, k: nat, c: int)
    requires c in m.latest && k <= |h|
  {
    a <= m.latest[c] < k && h[m.latest[c]].channel == c
  }

  /** What is known after a window: of each channel, what was known before or a mark of the window; and
      nothing in the window is newer. */
  lemma {:induction false} WindowLatest(h: seq<Mark>, m: Memory, a: nat, k: nat)
    requires k <= |h|
    ensures var r := ShowWindow(h, m, a, k);
      (forall c | c in r.latest :: (c in m.latest && r.latest[c] == m.latest[c]) || FromWindow(h, r, a, k, c))
      && Grows(m, r) && NoneNewer(h, r, a, k)
    decreases k
  {
    if k > a {
      WindowLatest(h, m, a, k - 1);
      var before, r := ShowWindow(h, m, a, k - 1), ShowWindow(h, m, a, k);
      OfferGrows(h, before, k - 1);
      GrowsOn(m, before, r);
      StillKnown(h, before, r, a, k - 1);
      hide NoneNewer, Grows;
      OneMoreKnown(h, r, a, k - 1);
      forall c | c in r.latest
        ensures (c in m.latest && r.latest[c] == m.latest[c]) || FromWindow(h, r, a, k, c)
      {
        assert (r.latest[c] == k - 1 && c == h[k - 1].channel)
            || (c in before.latest && r.latest[c] == before.latest[c]);
      }
    }
  }

  lemma NearInWindow(h: seq<Mark>, n: seq<nat>, m: Memory, ses: Session, i: nat)
    requires Raised(h, n) && Follows(h, n, m, ses) && ses.a <= i < ses.t <= |h|
    ensures var before := ShowWindow(h, m, ses.a, i);
      h[i].channel in before.latest ==> NearLast(h, n, before, i)
  {
    WindowLatest(h, m, ses.a, i);
    hide ShowWindow;
    var before, c := ShowWindow(h, m, ses.a, i), h[i].channel;
    if c in before.latest {
      var l := before.latest[c];
      if c in m.latest && l == m.latest[c] {
        assert NearLast(h, n, m, i);
      } else {
        assert ses.a <= l < i && h[l].channel == h[i].channel;
      }
    }
  }

  lemma {:induction false} WindowIsShown(s: State, h: seq<Mark>, n: seq<nat>, m: Memory, ses: Session, k: nat)
    requires Raised(h, n) && Follows(h, n, m, ses) && Remembers(s, h, m) && ses.a <= k <= ses.t <= |h|
    ensures var r := ConsiderAll(s, h[ses.a..k], {});
      Remembers(r, h, ShowWindow(h, m, ses.a, k)) && r.snapshot == s.snapshot && r.synced == s.synced
    decreases k
  {
    hide Raised, Follows, Remembers, NearLast, Offer, ConsiderAll, ConsiderSpec;
    if k == ses.a {
      assert h[ses.a..k] == [];
      ConsiderNothing(s);
    } else {
      WindowIsShown(s, h, n, m, ses, k - 1);
      ConsiderNext(s, h, ses.a, k - 1, {});
      var before := ShowWindow(h, m, ses.a, k - 1);
      NearInWindow(h, n, m, ses, k - 1);
      ConsiderIsOffer(ConsiderAll(s, h[ses.a..k - 1], {}), h, n, before, k - 1);
    }
  }

  /** The first snapshot is history: noted, not taken. */
  lemma {:induction false} HistoryIsNoted(s: State, h: seq<Mark>, m: Memory, a: nat, k: nat, history: set<int>)
    requires Remembers(s, h, m) && a <= k <= |h| && forall i | a <= i < k :: h[i].channel in history
    ensures var r := ConsiderAll(s, h[a..k], history);
      Remembers(r, h, ShowHistory(h, m, a, k)) && r.snapshot == s.snapshot && r.synced == s.synced
    decreases k
  {
    hide Remembers, NoteSpec, TakeSpec, ConsiderAll, IsNews, Note;
    if k == a {
      assert h[a..k] == [];
      ConsiderNothing(s);
    } else {
      HistoryIsNoted(s, h, m, a, k - 1, history);
      ConsiderNext(s, h, a, k - 1, history);
      assert h[k - 1].channel in history;
      NoteRemembers(ConsiderAll(s, h[a..k - 1], history), h, ShowHistory(h, m, a, k - 1), k - 1);
    }
  }

  lemma {:induction false} HistoryLatest(h: seq<Mark>, m: Memory, a: nat, k: nat)
    requires k <= |h| && m.latest == map[]
    ensures var r := ShowHistory(h, m, a, k);
      r.taken == m.taken && Bounded(r.latest, k) && NoneNewer(h, r, a, k)
    decreases k
  {
    if k > a {
      HistoryLatest(h, m, a, k - 1);
      var before, r := ShowHistory(h, m, a, k - 1), ShowHistory(h, m, a, k);
      OfferGrows(h, before, k - 1);
      StillKnown(h, before, r, a, k - 1);
      OneMoreKnown(h, r, a, k - 1);
    }
  }

  // ------------------------------------------------------------------ updates

  /** How much is known after some of the updates. */
  ghost predicate Reached(h: seq<Mark>, m: Memory, ses: Session, k: nat)
    requires k <= |ses.updates| && ses.t <= |h|
  {
    Bounded(m.latest, if k == 0 || ses.updates[k - 1] < ses.t then ses.t else ses.updates[k - 1] + 1)
    && NoneNewer(h, m, ses.a, ses.t)
  }

  /** An update is newer exactly when it lies beyond the snapshot, and then is the last known. */
  lemma ReachNext(h: seq<Mark>, m: Memory, ses: Session, k: nat)
    requires ses.t <= |h| && Within(ses.updates, h) && Rises(ses.updates) && k < |ses.updates|
    requires ses.a <= ses.updates[k] && Reached(h, m, ses, k)
    ensures Newer(h, m, ses.updates[k]) <==> ses.updates[k] >= ses.t
    ensures Reached(h, Offer(h, m, ses.updates[k]), ses, k + 1)
  {
    var x := ses.updates[k];
    OfferGrows(h, m, x);
    StillKnown(h, m, Offer(h, m, x), ses.a, ses.t);
    assert k > 0 ==> ses.updates[k - 1] < x;
    hide Rises, Grows;
  }

  lemma {:induction false} UpdatesReach(h: seq<Mark>, m: Memory, ses: Session, k: nat)
    requires ses.t <= |h| && Within(ses.updates, h) && Rises(ses.updates) && k <= |ses.updates|
    requires forall j | 0 <= j < |ses.updates| :: ses.a <= ses.updates[j]
    requires Reached(h, m, ses, 0)
    ensures Reached(h, ShowUpdates(h, m, ses.updates[..k]), ses, k)
    ensures k < |ses.updates| ==>
      (Newer(h, ShowUpdates(h, m, ses.updates[..k]), ses.updates[k]) <==> ses.updates[k] >= ses.t)
    decreases k
  {
    hide Reached, Rises, Newer, Offer;
    if k == 0 {
      assert ses.updates[..k] == [];
    } else {
      UpdatesReach(h, m, ses, k - 1);
      assert ses.updates[..k][..k - 1] == ses.updates[..k - 1];
      ReachNext(h, ShowUpdates(h, m, ses.updates[..k - 1]), ses, k - 1);
    }
    if k < |ses.updates| {
      ReachNext(h, ShowUpdates(h, m, ses.updates[..k]), ses, k);
    }
  }

  lemma UpdateNext(s: State, h: seq<Mark>, ids: seq<nat>, k: nat)
    requires Within(ids, h) && k < |ids|
    ensures Updates(s, MarksAt(h, ids[..k + 1])) == UpdateSpec(Updates(s, MarksAt(h, ids[..k])), h[ids[k]])
  {
    assert ids[..k + 1][..k] == ids[..k];
    var marks := MarksAt(h, ids[..k]);
    assert (marks + [h[ids[k]]])[..|marks|] == marks;
  }

  lemma KeyOfWindow(h: seq<Mark>, a: nat, t: nat, i: nat)
    requires a <= i < t <= |h|
    ensures Key(h[i]) in Keys(h, a, t)
  {
    assert h[a..t][i - a] == h[i];
  }

  lemma CountsDiffer(h: seq<Mark>, n: seq<nat>, i: nat, j: nat)
    requires Raised(h, n) && i < j < |h| && h[i].channel == h[j].channel && n[j] - n[i] < MARK_COUNT_MOD
    ensures h[i].count != h[j].count
  {
    Congruent(n[j], n[i]);
  }

  /** The first update beyond the snapshot has a key that the snapshot does not have. */
  lemma FreshKey(h: seq<Mark>, n: seq<nat>, m: Memory, ses: Session, k: nat)
    requires Raised(h, n) && Follows(h, n, m, ses) && FirstFresh(ses, k)
    ensures ses.updates[k] < |h| && Key(h[ses.updates[k]]) !in Keys(h, ses.a, ses.t)
  {
    var x := ses.updates[k];
    forall mark | mark in h[ses.a..ses.t]
      ensures Key(mark) != Key(h[x])
    {
      var i: nat :| i < ses.t - ses.a && h[ses.a..ses.t][i] == mark;
      assert h[ses.a + i] == mark;
      if mark.channel == h[x].channel {
        CountsDiffer(h, n, ses.a + i, x);
      }
    }
  }

  lemma NothingAt(h: seq<Mark>)
    ensures MarksAt(h, []) == []
  {
  }

  /** An update within the snapshot has a key that the snapshot has; the first beyond it has not. */
  lemma KeyIsKnown(h: seq<Mark>, n: seq<nat>, m0: Memory, m: Memory, ses: Session, k: nat)
    requires Raised(h, n) && Follows(h, n, m0, ses) && Reached(h, m, ses, 0) && k < |ses.updates|
    ensures var x := ses.updates[k];
      x < |h| && (k > 0 ==> ses.updates[k - 1] < x)
      && (x < ses.t ==> Key(h[x]) in Keys(h, ses.a, ses.t))
      && (FirstFresh(ses, k) ==> Key(h[x]) !in Keys(h, ses.a, ses.t))
      && (Newer(h, ShowUpdates(h, m, ses.updates[..k]), x) <==> x >= ses.t)
  {
    UpdatesReach(h, m, ses, k);
    if ses.updates[k] < ses.t {
      KeyOfWindow(h, ses.a, ses.t, ses.updates[k]);
    } else if FirstFresh(ses, k) {
      FreshKey(h, n, m0, ses, k);
    }
  }

  lemma Cleared(s: State, h: seq<Mark>, m: Memory)
    requires Remembers(s, h, m)
    ensures forall x, y :: Remembers(s.(snapshot := x, synced := y), h, m)
  {
  }

  /** An update whose key the snapshot does not have is taken; so it is one the reference takes. */
  lemma UpdateIsOffer(s: State, h: seq<Mark>, m: Memory, x: nat)
    requires Remembers(s, h, m) && x < |h| && (Newer(h, m, x) <==> Key(h[x]) !in s.snapshot)
    ensures var r := UpdateSpec(s, h[x]);
      Remembers(r, h, Offer(h, m, x)) && r.synced == s.synced
      && r.snapshot == if Key(h[x]) in s.snapshot then s.snapshot else {}
  {
    Cleared(s, h, m);
    NoteRemembers(s.(snapshot := {}), h, m, x);
    hide Remembers, NoteSpec, TakeSpec;
    assert TakeSpec(s.(snapshot := {}), h[x]).snapshot == {};
  }

  lemma {:induction false} UpdatesAreShown(s: State, h: seq<Mark>, n: seq<nat>, m0: Memory, m: Memory, ses: Session,
                                           k: nat)
    requires Raised(h, n) && Follows(h, n, m0, ses) && Remembers(s, h, m) && Reached(h, m, ses, 0)
    requires ses.a <= ses.t <= |h| && Within(ses.updates, h)
    requires s.snapshot == Keys(h, ses.a, ses.t) && k <= |ses.updates|
    ensures var r := Updates(s, MarksAt(h, ses.updates[..k]));
      Remembers(r, h, ShowUpdates(h, m, ses.updates[..k])) && r.synced == s.synced
      && r.snapshot == (if k == 0 || ses.updates[k - 1] < ses.t then s.snapshot else {})
    decreases k
  {
    hide Raised, Follows, Reached, Updates, MarksAt, NoteSpec, TakeSpec, Keys, Newer, Remembers, Offer;
    if k == 0 {
      assert ses.updates[..k] == [];
      ConsiderNothing(s);
      NothingAt(h);
    } else {
      UpdatesAreShown(s, h, n, m0, m, ses, k - 1);
      UpdateNext(s, h, ses.updates, k - 1);
      KeyIsKnown(h, n, m0, m, ses, k - 1);
      var ids, x := ses.updates[..k - 1], ses.updates[k - 1];
      assert ses.updates[..k][..k - 1] == ids;
      UpdateIsOffer(Updates(s, MarksAt(h, ids)), h, ShowUpdates(h, m, ids), x);
    }
  }

  // ------------------------------------------------------------------ one connection

  function SessionSpec(s: State, h: seq<Mark>, ses: Session): State
    requires ses.a <= ses.t <= |h| && Within(ses.updates, h)
  {
    Updates(SnapshotSpec(s, h[ses.a..ses.t]), MarksAt(h, ses.updates))
  }

  lemma SnapshotIsShown(s: State, h: seq<Mark>, n: seq<nat>, m: Memory, ses: Session)
    requires Raised(h, n) && Follows(h, n, m, ses) && Remembers(s, h, m)
    requires !s.synced ==> m.latest == map[]
    ensures ses.a <= ses.t <= |h|
    ensures var r := SnapshotSpec(s, h[ses.a..ses.t]);
      Remembers(r, h, ShowSnapshot(h, m, ses, !s.synced)) && r.synced && r.snapshot == Keys(h, ses.a, ses.t)
  {
    var rising := h[ses.a..ses.t];
    var s0 := s.(snapshot := Keys(h, ses.a, ses.t));
    var history := if s.synced then {} else (set x | x in rising :: x.channel) - s.last.Keys;
    Cleared(s, h, m);
    if s.synced {
      WindowIsShown(s0, h, n, m, ses, ses.t);
    } else {
      assert s.last.Keys == {};
      forall i | ses.a <= i < ses.t
        ensures h[i].channel in history
      {
        assert rising[i - ses.a] == h[i];
      }
      HistoryIsNoted(s0, h, m, ses.a, ses.t, history);
    }
    Cleared(ConsiderAll(s0, rising, history), h, ShowSnapshot(h, m, ses, !s.synced));
  }

  lemma SnapshotReaches(h: seq<Mark>, n: seq<nat>, m: Memory, ses: Session, first: bool)
    requires |h| == |n| && Follows(h, n, m, ses) && (first ==> m.latest == map[])
    ensures Reached(h, ShowSnapshot(h, m, ses, first), ses, 0)
  {
    if first {
      HistoryLatest(h, m, ses.a, ses.t);
    } else {
      WindowLatest(h, m, ses.a, ses.t);
    }
  }

  /** What the accumulator takes in a connection is what the reference takes. */
  lemma SessionTakes(s: State, h: seq<Mark>, n: seq<nat>, m: Memory, ses: Session)
    requires Raised(h, n) && Follows(h, n, m, ses) && Remembers(s, h, m)
    requires !s.synced ==> m.latest == map[]
    ensures ses.a <= ses.t <= |h| && Within(ses.updates, h)
    ensures var r := SessionSpec(s, h, ses); Remembers(r, h, ShowSession(h, m, ses, !s.synced)) && r.synced
  {
    SnapshotIsShown(s, h, n, m, ses);
    SnapshotReaches(h, n, m, ses, !s.synced);
    var shown := SnapshotSpec(s, h[ses.a..ses.t]);
    UpdatesAreShown(shown, h, n, m, ShowSnapshot(h, m, ses, !s.synced), ses, |ses.updates|);
    assert ses.updates[..|ses.updates|] == ses.updates;
  }

  lemma {:induction false} WindowTakes(h: seq<Mark>, m: Memory, a: nat, k: nat, i: nat)
    requires k <= |h|
    ensures i in ShowWindow(h, m, a, k).taken <==> i in m.taken || (a <= i < k && Newer(h, m, i))
    decreases k
  {
    if k > a {
      WindowTakes(h, m, a, k - 1, i);
      WindowLatest(h, m, a, k - 1);
      var before, c := ShowWindow(h, m, a, k - 1), h[k - 1].channel;
      assert Newer(h, before, k - 1) <==> Newer(h, m, k - 1);
    }
  }

  lemma {:induction false} UpdatesTake(h: seq<Mark>, m: Memory, ses: Session, k: nat, i: nat)
    requires ses.t <= |h| && Within(ses.updates, h) && Rises(ses.updates) && k <= |ses.updates|
    requires forall j | 0 <= j < |ses.updates| :: ses.a <= ses.updates[j]
    requires Reached(h, m, ses, 0)
    ensures i in ShowUpdates(h, m, ses.updates[..k]).taken <==> i in m.taken || (i >= ses.t && i in ses.updates[..k])
    decreases k
  {
    if k == 0 {
      assert ses.updates[..k] == [];
    } else {
      UpdatesTake(h, m, ses, k - 1, i);
      UpdatesReach(h, m, ses, k - 1);
      assert ses.updates[..k][..k - 1] == ses.updates[..k - 1];
      assert ses.updates[..k] == ses.updates[..k - 1] + [ses.updates[k - 1]];
    }
  }

  /** Which marks a connection adds, exactly: of the snapshot those newer than the last known on their
      channel - none of the first snapshot, which is history - and every update beyond the snapshot. */
  lemma SessionExactly(h: seq<Mark>, n: seq<nat>, m: Memory, ses: Session, first: bool, i: nat)
    requires |h| == |n| && Follows(h, n, m, ses) && (first ==> m.latest == map[])
    ensures i in ShowSession(h, m, ses, first).taken <==>
      i in m.taken
      || (!first && ses.a <= i < ses.t && Newer(h, m, i))
      || (i >= ses.t && i in ses.updates)
  {
    SnapshotReaches(h, n, m, ses, first);
    UpdatesTake(h, ShowSnapshot(h, m, ses, first), ses, |ses.updates|, i);
    assert ses.updates[..|ses.updates|] == ses.updates;
    if first {
      HistoryLatest(h, m, ses.a, ses.t);
    } else {
      WindowTakes(h, m, ses.a, ses.t, i);
    }
  }

  // ------------------------------------------------------------------ any number of reconnects

  const START: State := State(map[], map[], false, {}, [])
  const BLANK: Memory := Memory(map[], [])

  ghost predicate RunFollows(h: seq<Mark>, n: seq<nat>, run: seq<Session>)
    requires |h| == |n|
    decreases |run|, 0
  {
    run != [] ==>
      var init, last := run[..|run| - 1], run[|run| - 1];
      RunFollows(h, n, init) && Follows(h, n, Shown(h, n, init), last)
  }

  /** The reference after a run; the first snapshot is history. */
  ghost function Shown(h: seq<Mark>, n: seq<nat>, run: seq<Session>): Memory
    requires |h| == |n| && RunFollows(h, n, run)
    decreases |run|, 1
  {
    if run == [] then BLANK
    else ShowSession(h, Shown(h, n, run[..|run| - 1]), run[|run| - 1], |run| == 1)
  }

  ghost function Run(h: seq<Mark>, n: seq<nat>, run: seq<Session>): State
    requires |h| == |n| && RunFollows(h, n, run)
  {
    if run == [] then START
    else SessionSpec(Run(h, n, run[..|run| - 1]), h, run[|run| - 1])
  }

  /** Over any number of connections, whatever updates are lost, the marks taken are those that the
      reference takes: each mark shown that is newer than the last known on its channel, and no other. */
  lemma {:induction false} ShownIsTaken(h: seq<Mark>, n: seq<nat>, run: seq<Session>)
    requires Raised(h, n) && RunFollows(h, n, run)
    ensures Remembers(Run(h, n, run), h, Shown(h, n, run))
    ensures Run(h, n, run).synced <==> run != []
    decreases |run|
  {
    if run != [] {
      var init := run[..|run| - 1];
      ShownIsTaken(h, n, init);
      SessionTakes(Run(h, n, init), h, n, Shown(h, n, init), run[|run| - 1]);
    }
  }

  // ------------------------------------------------------------------ in order, and once

  /** On each channel the marks were taken in order, up to the last known. */
  ghost predicate Consistent(h: seq<Mark>, m: Memory) {
    Within(m.taken, h)
    && (forall k | 0 <= k < |m.taken| :: !Newer(h, m, m.taken[k]))
    && forall i, j | 0 <= i < j < |m.taken| && h[m.taken[i]].channel == h[m.taken[j]].channel :: m.taken[i] < m.taken[j]
  }

  lemma OfferConsistent(h: seq<Mark>, m: Memory, i: nat)
    requires Consistent(h, m) && i < |h|
    ensures Consistent(h, Offer(h, m, i))
  {
    var r := Offer(h, m, i);
    OfferGrows(h, m, i);
    forall k | 0 <= k < |r.taken|
      ensures r.taken[k] < |h| && !Newer(h, r, r.taken[k])
    {
      assert k < |m.taken| ==> !Newer(h, m, m.taken[k]);
    }
  }

  lemma {:induction false} WindowConsistent(h: seq<Mark>, m: Memory, a: nat, k: nat)
    requires Consistent(h, m) && k <= |h|
    ensures Consistent(h, ShowWindow(h, m, a, k)) && m.taken <= ShowWindow(h, m, a, k).taken
    decreases k
  {
    if k > a {
      WindowConsistent(h, m, a, k - 1);
      OfferConsistent(h, ShowWindow(h, m, a, k - 1), k - 1);
    }
  }

  lemma {:induction false} UpdatesConsistent(h: seq<Mark>, m: Memory, ids: seq<nat>)
    requires Consistent(h, m) && Within(ids, h)
    ensures Consistent(h, ShowUpdates(h, m, ids)) && m.taken <= ShowUpdates(h, m, ids).taken
    decreases |ids|
  {
    if ids != [] {
      UpdatesConsistent(h, m, ids[..|ids| - 1]);
      OfferConsistent(h, ShowUpdates(h, m, ids[..|ids| - 1]), ids[|ids| - 1]);
    }
  }

  lemma SessionConsistent(h: seq<Mark>, n: seq<nat>, m: Memory, ses: Session, first: bool)
    requires |h| == |n| && Follows(h, n, m, ses) && Consistent(h, m) && (first ==> m == BLANK)
    ensures var shown := ShowSnapshot(h, m, ses, first);
      Consistent(h, shown) && m.taken <= shown.taken
      && Consistent(h, ShowSession(h, m, ses, first)) && shown.taken <= ShowSession(h, m, ses, first).taken
  {
    if first {
      HistoryLatest(h, m, ses.a, ses.t);
    } else {
      WindowConsistent(h, m, ses.a, ses.t);
    }
    UpdatesConsistent(h, ShowSnapshot(h, m, ses, first), ses.updates);
  }

  lemma {:induction false} RunConsistent(h: seq<Mark>, n: seq<nat>, run: seq<Session>)
    requires |h| == |n| && RunFollows(h, n, run)
    ensures Consistent(h, Shown(h, n, run))
    decreases |run|
  {
    if run != [] {
      var init := run[..|run| - 1];
      RunConsistent(h, n, init);
      SessionConsistent(h, n, Shown(h, n, init), run[|run| - 1], |run| == 1);
    }
  }

  /** Each mark is taken at most once, and on each channel in order. */
  lemma EachMarkOnce(h: seq<Mark>, n: seq<nat>, run: seq<Session>)
    requires Raised(h, n) && RunFollows(h, n, run)
    ensures var ids := Shown(h, n, run).taken;
      Within(ids, h) && Run(h, n, run).taken == MarksAt(h, ids)
      && (forall i, j | 0 <= i < j < |ids| :: ids[i] != ids[j])
      && forall i, j | 0 <= i < j < |ids| && h[ids[i]].channel == h[ids[j]].channel :: ids[i] < ids[j]
  {
    ShownIsTaken(h, n, run);
    RunConsistent(h, n, run);
  }

  /** A snapshot shows a mark that is newer on its channel, although a later mark was taken already. */
  ghost predicate Overtaken(h: seq<Mark>, m: Memory, ses: Session)
    requires ses.t <= |h|
  {
    exists i, k :: ses.a <= i < ses.t && 0 <= k < |m.taken| && i < m.taken[k] && Newer(h, m, i)
  }

  ghost predicate NoneOvertaken(h: seq<Mark>, n: seq<nat>, run: seq<Session>)
    requires |h| == |n| && RunFollows(h, n, run)
  {
    run != [] ==>
      NoneOvertaken(h, n, run[..|run| - 1]) && !Overtaken(h, Shown(h, n, run[..|run| - 1]), run[|run| - 1])
  }

  lemma RisesAppend(ids: seq<nat>, i: nat)
    requires Rises(ids) && forall k | 0 <= k < |ids| :: ids[k] < i
    ensures Rises(ids + [i])
  {
  }

  lemma NotOvertaken(h: seq<Mark>, m: Memory, ses: Session, i: nat)
    requires ses.a <= i < ses.t <= |h| && Consistent(h, m) && !Overtaken(h, m, ses) && Newer(h, m, i)
    ensures forall x | x in m.taken :: x < i
  {
    forall x | x in m.taken
      ensures x < i
    {
      var q :| 0 <= q < |m.taken| && m.taken[q] == x;
      assert !(i < m.taken[q]) && !Newer(h, m, m.taken[q]);
    }
  }

  lemma {:induction false} WindowRises(h: seq<Mark>, m: Memory, ses: Session, k: nat)
    requires ses.a <= k <= ses.t <= |h| && Consistent(h, m) && Rises(m.taken) && !Overtaken(h, m, ses)
    ensures var r := ShowWindow(h, m, ses.a, k);
      Rises(r.taken) && forall j | 0 <= j < |r.taken| :: r.taken[j] in m.taken || ses.a <= r.taken[j] < k
    decreases k
  {
    if k > ses.a {
      WindowRises(h, m, ses, k - 1);
      var before := ShowWindow(h, m, ses.a, k - 1);
      if Newer(h, before, k - 1) {
        WindowLatest(h, m, ses.a, k - 1);
        NotOvertaken(h, m, ses, k - 1);
        hide Overtaken, Consistent, Newer, NoneNewer, Rises, ShowWindow;
        RisesAppend(before.taken, k - 1);
      }
    }
  }

  lemma {:induction false} UpdatesRise(h: seq<Mark>, m: Memory, ses: Session, k: nat)
    requires ses.t <= |h| && Within(ses.updates, h) && Rises(ses.updates) && k <= |ses.updates|
    requires forall j | 0 <= j < |ses.updates| :: ses.a <= ses.updates[j]
    requires Reached(h, m, ses, 0) && Consistent(h, m) && Rises(m.taken)
    ensures Rises(ShowUpdates(h, m, ses.updates[..k]).taken)
    decreases k
  {
    if k == 0 {
      assert ses.updates[..k] == [];
    } else {
      UpdatesRise(h, m, ses, k - 1);
      UpdatesReach(h, m, ses, k - 1);
      UpdatesConsistent(h, m, ses.updates[..k - 1]);
      assert ses.updates[..k][..k - 1] == ses.updates[..k - 1];
      var before, x := ShowUpdates(h, m, ses.updates[..k - 1]), ses.updates[k - 1];
      if x >= ses.t {
        forall j | 0 <= j < |before.taken|
          ensures before.taken[j] < x
        {
          assert !Newer(h, before, before.taken[j]);
        }
        RisesAppend(before.taken, x);
      }
    }
  }

  lemma OvertakenIsOutOfOrder(h: seq<Mark>, m: Memory, ses: Session)
    requires ses.t <= |h| && Consistent(h, m) && Overtaken(h, m, ses)
    ensures !Rises(ShowWindow(h, m, ses.a, ses.t).taken)
  {
    var i, k :| ses.a <= i < ses.t && 0 <= k < |m.taken| && i < m.taken[k] && Newer(h, m, i);
    WindowTakes(h, m, ses.a, ses.t, i);
    WindowConsistent(h, m, ses.a, ses.t);
    var ids := ShowWindow(h, m, ses.a, ses.t).taken;
    var j :| 0 <= j < |ids| && ids[j] == i;
    assert ids[..|m.taken|] == m.taken;
    assert forall q | 0 <= q < |m.taken| :: ids[q] == m.taken[q] && !Newer(h, m, m.taken[q]);
    assert j > k && ids[k] > ids[j];
  }

  lemma PrefixRises(a: seq<nat>, b: seq<nat>)
    requires a <= b && Rises(b)
    ensures Rises(a)
  {
    assert forall k | 0 <= k < |a| :: a[k] == b[k];
  }

  lemma SessionOrder(h: seq<Mark>, n: seq<nat>, m: Memory, ses: Session, first: bool)
    requires |h| == |n| && Follows(h, n, m, ses) && Consistent(h, m) && (first ==> m == BLANK)
    ensures Rises(ShowSession(h, m, ses, first).taken) <==> Rises(m.taken) && !Overtaken(h, m, ses)
  {
    var shown := ShowSnapshot(h, m, ses, first);
    SessionConsistent(h, n, m, ses, first);
    SnapshotReaches(h, n, m, ses, first);
    assert ses.updates[..|ses.updates|] == ses.updates;
    if Rises(m.taken) && !Overtaken(h, m, ses) {
      if first {
        HistoryLatest(h, m, ses.a, ses.t);
      } else {
        WindowRises(h, m, ses, ses.t);
      }
      UpdatesRise(h, shown, ses, |ses.updates|);
    } else if Rises(ShowSession(h, m, ses, first).taken) {
      PrefixRises(shown.taken, ShowSession(h, m, ses, first).taken);
      PrefixRises(m.taken, shown.taken);
      OvertakenIsOutOfOrder(h, m, ses);
    }
  }

  /** Across channels, the marks are taken in the order they were raised if and only if no snapshot shows
      a mark that was overtaken: lost as an update, with a later mark of another channel taken meanwhile. */
  lemma {:induction false} OrderExactly(h: seq<Mark>, n: seq<nat>, run: seq<Session>)
    requires |h| == |n| && RunFollows(h, n, run)
    ensures Rises(Shown(h, n, run).taken) <==> NoneOvertaken(h, n, run)
    decreases |run|
  {
    if run != [] {
      var init := run[..|run| - 1];
      OrderExactly(h, n, init);
      RunConsistent(h, n, init);
      SessionOrder(h, n, Shown(h, n, init), run[|run| - 1], |run| == 1);
    }
  }

  /** Two connections: marks 0 known from the first snapshot, 1 lost as an update, 2 received; then a
      snapshot that shows 1 and 2. */
  const LOSSY: seq<Session> := [Session(0, 1, [2]), Session(1, 3, [])]

  function AfterFirst(h: seq<Mark>): Memory
    requires |h| == 3
  {
    Note(h, Memory(map[h[0].channel := 0], [2]), 2)
  }

  lemma FirstLossy(h: seq<Mark>)
    requires |h| == 3
    ensures ShowSession(h, BLANK, LOSSY[0], true) == AfterFirst(h)
  {
    var noted := Memory(map[h[0].channel := 0], []);
    assert ShowHistory(h, BLANK, 0, 0) == BLANK;
    assert ShowHistory(h, BLANK, 0, 1) == noted;
    assert [2][..0] == [];
    assert ShowUpdates(h, noted, []) == noted && Newer(h, noted, 2);
    assert ShowUpdates(h, noted, [2]) == Offer(h, noted, 2);
    assert Offer(h, noted, 2) == Note(h, Memory(noted.latest, [] + [2]), 2);
  }

  lemma FirstFollows(h: seq<Mark>, n: seq<nat>)
    requires |h| == 3 && n == [4, 5, 6]
    ensures Follows(h, n, BLANK, Session(0, 1, [2]))
  {
    hide Raised;
  }

  lemma SecondFollows(h: seq<Mark>, n: seq<nat>)
    requires |h| == 3 && n == [4, 5, 6]
    ensures Follows(h, n, AfterFirst(h), Session(1, 3, []))
  {
    var m := AfterFirst(h);
    assert Bounded(m.latest, 3);
    forall i | 1 <= i < 3 && h[i].channel in m.latest
      ensures NearLast(h, n, m, i)
    {
      assert m.latest[h[i].channel] == 0 || m.latest[h[i].channel] == 2;
      assert n[i] == 5 || n[i] == 6;
    }
  }

  lemma LossyRun(h: seq<Mark>, n: seq<nat>)
    requires |h| == 3 && n == [4, 5, 6] && Raised(h, n)
    ensures RunFollows(h, n, LOSSY) && RunFollows(h, n, LOSSY[..1])
    ensures Shown(h, n, LOSSY[..1]) == AfterFirst(h)
    ensures Shown(h, n, LOSSY) == ShowWindow(h, AfterFirst(h), 1, 3)
  {
    FirstLossy(h);
    FirstFollows(h, n);
    SecondFollows(h, n);
    hide Follows, AfterFirst;
    assert LOSSY[..1][..0] == [];
    assert ShowUpdates(h, ShowWindow(h, AfterFirst(h), 1, 3), []) == ShowWindow(h, AfterFirst(h), 1, 3);
  }

  /** An update that was lost is not made up for: on one channel, with 5 lost and 6 taken, a snapshot that
      shows both adds nothing, and 5 is never taken. */
  lemma LostUpdateIsSkipped(h: seq<Mark>, n: seq<nat>)
    requires |h| == 3 && n == [4, 5, 6] && Raised(h, n) && h[0].channel == h[1].channel == h[2].channel
    ensures RunFollows(h, n, LOSSY) && Run(h, n, LOSSY).taken == [h[2]]
  {
    LossyRun(h, n);
    ShownIsTaken(h, n, LOSSY);
    var known := AfterFirst(h);
    assert ShowWindow(h, known, 1, 1) == known;
    assert ShowWindow(h, known, 1, 2) == known && ShowWindow(h, known, 1, 3) == known;
    assert [2][..0] == [] && MarksAt(h, [2]) == MarksAt(h, []) + [h[2]];
  }

  /** With 5 on a channel of its own it is made up for, but out of order: after 6. */
  lemma OvertakenMarkComesLate(h: seq<Mark>, n: seq<nat>)
    requires |h| == 3 && n == [4, 5, 6] && Raised(h, n) && h[0].channel == h[1].channel != h[2].channel
    ensures RunFollows(h, n, LOSSY) && Run(h, n, LOSSY).taken == [h[2], h[1]]
  {
    LossyRun(h, n);
    ShownIsTaken(h, n, LOSSY);
    var known := AfterFirst(h);
    assert ShowWindow(h, known, 1, 1) == known;
    var both := ShowWindow(h, known, 1, 2);
    assert both == Offer(h, known, 1) && both.taken == [2, 1];
    assert ShowWindow(h, known, 1, 3) == both;
    assert [2, 1][..1] == [2] && [2][..0] == [];
    assert MarksAt(h, [2]) == MarksAt(h, []) + [h[2]] && MarksAt(h, [2, 1]) == MarksAt(h, [2]) + [h[1]];
  }

  // ------------------------------------------------------------------ when no update is lost

  function Range(lo: nat, hi: nat): seq<nat> {
    if hi <= lo then [] else Range(lo, hi - 1) + [hi - 1]
  }

  lemma OneMoreAt(h: seq<Mark>, ids: seq<nat>, i: nat)
    requires Within(ids, h) && i < |h|
    ensures Within(ids + [i], h) && MarksAt(h, ids + [i]) == MarksAt(h, ids) + [h[i]]
  {
    assert (ids + [i])[..|ids|] == ids;
  }

  lemma {:induction false} MarksInRange(h: seq<Mark>, lo: nat, hi: nat)
    requires lo <= hi <= |h|
    ensures Within(Range(lo, hi), h) && MarksAt(h, Range(lo, hi)) == h[lo..hi]
    decreases hi
  {
    if lo < hi {
      MarksInRange(h, lo, hi - 1);
      OneMoreAt(h, Range(lo, hi - 1), hi - 1);
      assert Range(lo, hi) == Range(lo, hi - 1) + [hi - 1];
      hide Range, MarksAt, Within;
      assert h[lo..hi] == h[lo..hi - 1] + [h[hi - 1]];
    } else {
      assert h[lo..hi] == [];
    }
  }

  lemma {:induction false} RangeJoin(lo: nat, mid: nat, hi: nat)
    requires lo <= mid <= hi
    ensures Range(lo, mid) + Range(mid, hi) == Range(lo, hi)
    decreases hi
  {
    if mid < hi {
      RangeJoin(lo, mid, hi - 1);
    }
  }

  /** The updates `u..d`, none of them lost. */
  predicate Gapless(ses: Session) {
    (ses.updates != [] ==> ses.updates[0] <= ses.t)
    && forall k | 0 <= k < |ses.updates| :: ses.updates[k] == ses.updates[0] + k
  }

  function End(ses: Session): nat {
    if ses.updates != [] && ses.updates[|ses.updates| - 1] >= ses.t then ses.updates[|ses.updates| - 1] + 1 else ses.t
  }

  /** Everything from `from` up to `seen` is known, and nothing beyond. */
  ghost predicate Complete(h: seq<Mark>, m: Memory, from: nat, seen: nat) {
    seen <= |h| && NoneNewer(h, m, from, seen) && Bounded(m.latest, seen)
  }

  lemma OfferNext(h: seq<Mark>, m: Memory, from: nat, seen: nat)
    requires Complete(h, m, from, seen) && seen < |h|
    ensures Complete(h, Offer(h, m, seen), from, seen + 1) && Offer(h, m, seen).taken == m.taken + [seen]
  {
    OfferGrows(h, m, seen);
    StillKnown(h, m, Offer(h, m, seen), from, seen);
  }

  lemma {:induction false} GaplessWindow(h: seq<Mark>, m: Memory, a: nat, seen: nat, k: nat)
    requires Complete(h, m, a, seen) && a <= k <= |h| && a <= seen
    ensures var r := ShowWindow(h, m, a, k);
      if k <= seen then r == m else r.taken == m.taken + Range(seen, k) && Complete(h, r, a, k)
    decreases k
  {
    if k > a {
      GaplessWindow(h, m, a, seen, k - 1);
      if k <= seen {
        assert !Newer(h, m, k - 1);
      } else {
        var before := ShowWindow(h, m, a, k - 1);
        assert Range(seen, seen) == [] && m.taken + [] == m.taken;
        OfferNext(h, before, a, k - 1);
        assert (m.taken + Range(seen, k - 1)) + [k - 1] == m.taken + (Range(seen, k - 1) + [k - 1]);
      }
    }
  }

  lemma {:induction false} GaplessUpdates(h: seq<Mark>, m: Memory, ses: Session, k: nat)
    requires Complete(h, m, ses.a, ses.t) && Within(ses.updates, h) && Gapless(ses) && k <= |ses.updates|
    requires forall j | 0 <= j < |ses.updates| :: ses.a <= ses.updates[j]
    ensures var r, end := ShowUpdates(h, m, ses.updates[..k]), End(ses.(updates := ses.updates[..k]));
      r.taken == m.taken + Range(ses.t, end) && Complete(h, r, ses.a, end)
    decreases k
  {
    if k == 0 {
      assert ses.updates[..k] == [] && m.taken + [] == m.taken;
    } else {
      GaplessUpdates(h, m, ses, k - 1);
      var ids, x := ses.updates[..k - 1], ses.updates[k - 1];
      assert ses.updates[..k][..k - 1] == ids;
      var before := ShowUpdates(h, m, ids);
      if x < ses.t {
        assert !Newer(h, before, x);
      } else {
        OfferNext(h, before, ses.a, x);
        assert (m.taken + Range(ses.t, x)) + [x] == m.taken + (Range(ses.t, x) + [x]);
      }
    }
  }

  lemma {:induction false} HistoryComplete(h: seq<Mark>, a: nat, t: nat)
    requires a <= t <= |h|
    ensures Complete(h, ShowHistory(h, BLANK, a, t), a, t) && ShowHistory(h, BLANK, a, t).taken == []
  {
    HistoryLatest(h, BLANK, a, t);
  }

  ghost predicate NothingLost(run: seq<Session>) {
    (forall i | 0 <= i < |run| :: Gapless(run[i]))
    && forall i | 0 < i < |run| :: run[i - 1].a <= run[i].a <= End(run[i - 1])
  }

  lemma FirstGapless(h: seq<Mark>, n: seq<nat>, ses: Session)
    requires |h| == |n| && Follows(h, n, BLANK, ses) && Gapless(ses)
    ensures var r := ShowSession(h, BLANK, ses, true);
      ses.t <= End(ses) && r.taken == Range(ses.t, End(ses)) && Complete(h, r, ses.a, End(ses))
  {
    hide ShowUpdates, ShowHistory, Range;
    assert ses.updates[..|ses.updates|] == ses.updates && ses.(updates := ses.updates) == ses;
    HistoryComplete(h, ses.a, ses.t);
    GaplessUpdates(h, ShowHistory(h, BLANK, ses.a, ses.t), ses, |ses.updates|);
    assert [] + Range(ses.t, End(ses)) == Range(ses.t, End(ses));
  }

  lemma WindowFollows(h: seq<Mark>, n: seq<nat>, m: Memory, prev: Session, ses: Session)
    requires |h| == |n| && Follows(h, n, m, ses) && Complete(h, m, prev.a, End(prev))
    requires prev.a <= ses.a <= End(prev)
    ensures End(prev) <= ses.t
    ensures ShowWindow(h, m, ses.a, ses.t).taken == m.taken + Range(End(prev), ses.t)
    ensures Complete(h, ShowWindow(h, m, ses.a, ses.t), ses.a, ses.t)
  {
    if prev.a < End(prev) {
      assert !Newer(h, m, End(prev) - 1);
    }
    GaplessWindow(h, m, ses.a, End(prev), ses.t);
    assert End(prev) == ses.t ==> m.taken + Range(End(prev), ses.t) == m.taken;
  }

  lemma NextGapless(h: seq<Mark>, n: seq<nat>, m: Memory, prev: Session, ses: Session)
    requires |h| == |n| && Follows(h, n, m, ses) && Gapless(ses) && Complete(h, m, prev.a, End(prev))
    requires prev.a <= ses.a <= End(prev)
    ensures var r := ShowSession(h, m, ses, false);
      End(prev) <= End(ses) && r.taken == m.taken + Range(End(prev), End(ses)) && Complete(h, r, ses.a, End(ses))
  {
    hide ShowUpdates, ShowWindow, Range;
    assert ses.updates[..|ses.updates|] == ses.updates && ses.(updates := ses.updates) == ses;
    WindowFollows(h, n, m, prev, ses);
    GaplessUpdates(h, ShowWindow(h, m, ses.a, ses.t), ses, |ses.updates|);
    RangeJoin(End(prev), ses.t, End(ses));
    assert (m.taken + Range(End(prev), ses.t)) + Range(ses.t, End(ses))
      == m.taken + (Range(End(prev), ses.t) + Range(ses.t, End(ses)));
  }

  lemma CompleteIsWithin(h: seq<Mark>, m: Memory, from: nat, seen: nat)
    ensures Complete(h, m, from, seen) ==> seen <= |h|
  {
  }

  lemma {:induction false} AllShown(h: seq<Mark>, n: seq<nat>, run: seq<Session>)
    requires |h| == |n| && RunFollows(h, n, run) && run != [] && NothingLost(run)
    ensures run[0].t <= End(run[|run| - 1]) <= |h|
    ensures var last := run[|run| - 1];
      Shown(h, n, run).taken == Range(run[0].t, End(last)) && Complete(h, Shown(h, n, run), last.a, End(last))
    decreases |run|
  {
    hide Follows, ShowSession, Range, Gapless, End, Complete;
    var init, last := run[..|run| - 1], run[|run| - 1];
    if init == [] {
      FirstGapless(h, n, last);
    } else {
      AllShown(h, n, init);
      var prev := run[|run| - 2];
      assert init[|init| - 1] == prev && init[0] == run[0];
      NextGapless(h, n, Shown(h, n, init), prev, last);
      RangeJoin(run[0].t, End(prev), End(last));
    }
    assert Complete(h, Shown(h, n, run), last.a, End(last)) ==> End(last) <= |h| by {
      CompleteIsWithin(h, Shown(h, n, run), last.a, End(last));
    }
  }

  /** When no update is lost and every snapshot reaches back to what was known, nothing is missed. */
  lemma NoneMissed(h: seq<Mark>, n: seq<nat>, run: seq<Session>)
    requires Raised(h, n) && RunFollows(h, n, run) && run != [] && NothingLost(run)
    ensures run[0].t <= End(run[|run| - 1]) <= |h|
    ensures Run(h, n, run).taken == h[run[0].t..End(run[|run| - 1])]
  {
    ShownIsTaken(h, n, run);
    AllShown(h, n, run);
    MarksInRange(h, run[0].t, End(run[|run| - 1]));
  }
}
