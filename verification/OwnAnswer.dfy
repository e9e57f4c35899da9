/** One configuration write after another under one ACK key, all with one timeout, while anything happens
    under other keys: when whoever gets an answer gets their own. */
module OwnAnswer {
  import opened Link
  import opened LinkRuns

  predicate Started(w: World, id: Id) {
    id in w.live || id in w.retired
  }

  /** The request after `o` is `m`. */
  ghost predicate Follows(w: World, o: Id, m: Id) {
    o < m && Started(w, o) && Started(w, m) && forall i: Id :: o < i < m ==> !Started(w, i)
  }

  function RobbedHere(key: Key, robbed: set<Waiter>): set<Waiter> {
    set x | x in robbed && x.key == key
  }

  function AnsweredHere(key: Key, answered: map<Waiter, Reply>): map<Waiter, Reply> {
    map x | x in answered && x.key == key :: answered[x]
  }

  /** What of the link, and of the world, is about `key`. */
  function LinkHere(key: Key, s: LinkState): LinkState {
    LinkState(
      if key in s.waiters then map[key := s.waiters[key]] else map[],
      RobbedHere(key, s.robbed),
      AnsweredHere(key, s.answered),
      if key in s.stale then map[key := s.stale[key]] else map[])
  }

  function LiveHere(key: Key, live: map<Id, Request>): map<Id, Request> {
    map i | i in live && key in live[i].keys :: live[i]
  }

  function RetiredHere(key: Key, retired: map<Id, Retirement>): map<Id, Retirement> {
    map i | i in retired && key in retired[i].request.keys :: retired[i]
  }

  function Here(key: Key, w: World): World {
    w.(link := LinkHere(key, w.link), live := LiveHere(key, w.live), retired := RetiredHere(key, w.retired))
  }

  /** An event that is not about `key`. */
  predicate Elsewhere(key: Key, w: World, e: Event) {
    match e
    case Start(_, keys, _) => key !in keys
    case Deliver(reply) => reply.key != key
    case Retire(id) => id in w.live && key !in w.live[id].keys
  }

  /** What the caller and the receiver keep to under `key`: requests are numbered and made one at a time,
      wait `timeout` for their answer before they give up, and are answered in the order they were made,
      at most once each; and an answer comes before its request has been given up for as long as it waited. */
  ghost predicate Orderly(key: Key, timeout: Time, w: World, now: Time, e: Event) {
    match e
    case Start(id, keys, t) =>
      keys == [key] && t == timeout && w.live == map[]
      && forall i: Id :: Started(w, i) ==> i < id
    case Deliver(reply) =>
      var i := reply.owner;
      reply.key == key && i > w.last && Started(w, i)
      && (i in w.retired ==> now < w.retired[i].at + timeout)
    case Retire(id) =>
      id in w.live && (Unanswered(w.link, id, w.live[id].keys) ==> now >= w.live[id].start + timeout)
  }

  /** Orderly as far as `key` is concerned; anything may happen elsewhere. */
  ghost predicate OrderlyRun(key: Key, timeout: Time, run: Run)
    requires Possible(key, run)
  {
    run == [] ||
    var w, now, e := After(key, run[..|run| - 1]), run[|run| - 1].0, run[|run| - 1].1;
    OrderlyRun(key, timeout, run[..|run| - 1])
    && (Elsewhere(key, w, e) || Orderly(key, timeout, Here(key, w), now, e))
  }

  /** The late answer of a request that was robbed arrives while another request waits. */
  predicate Misleads(key: Key, w: World, e: Event) {
    e.Deliver? && e.reply.key == key && e.reply.owner in w.retired && e.reply.owner in w.robbed
    && w.link.Queue(key) != []
  }

  ghost predicate NoneMisled(key: Key, run: Run)
    requires Possible(key, run)
  {
    run == [] ||
    (NoneMisled(key, run[..|run| - 1]) && !Misleads(key, After(key, run[..|run| - 1]), run[|run| - 1].1))
  }

  /** No request is answered late right after one that was. */
  ghost predicate NeverTwoLate(key: Key, run: Run)
    requires Possible(key, run)
  {
    run == [] ||
    var w, e := Here(key, After(key, run[..|run| - 1])), run[|run| - 1].1;
    NeverTwoLate(key, run[..|run| - 1])
    && (e.Deliver? && e.reply.key == key && e.reply.owner in w.retired ==>
          forall p: Id :: p in w.late ==> !Follows(w, p, e.reply.owner))
  }

  // ------------------------------------------------------------------ what every such run keeps

  predicate Answered(key: Key, w: World, id: Id) {
    Waiter(id, key) in w.link.answered
  }

  /** Retired without an answer and without having been robbed: it left a credit. */
  predicate Creditor(key: Key, w: World, id: Id) {
    id in w.retired && !Answered(key, w, id) && id !in w.robbed
  }

  /** Only the last of the requests made so far can be live, and then it alone waits. */
  ghost predicate Serial(key: Key, timeout: Time, w: World) {
    w.live.Keys !! w.retired.Keys
    && (forall i: Id, j: Id :: i < j && Started(w, i) && Started(w, j) ==> i in w.retired)
    && (forall i: Id | i in w.live :: w.live[i].keys == [key] && w.live[i].timeout == timeout)
    && (forall i: Id | i in w.live :: w.link.Queue(key) == if Answered(key, w, i) then [] else [Waiter(i, key)])
    && (w.live == map[] ==> w.link.Queue(key) == [])
    && (forall x | x in w.link.answered :: x.key == key && Started(w, x.request))
    && (forall i: Id | i in w.robbed :: Started(w, i))
    && (forall id: Id :: Waiter(id, key) in w.link.robbed <==> id in w.robbed)
  }

  /** Every request starts after the one before retired, and gives up only after the timeout. */
  ghost predicate Timely(key: Key, timeout: Time, w: World) {
    (forall i: Id | i in w.live :: w.live[i].start <= w.now)
    && (forall i: Id | i in w.retired :: w.retired[i].request.start <= w.retired[i].at <= w.now)
    && (forall i: Id | i in w.retired && !Answered(key, w, i) ::
          w.retired[i].at >= w.retired[i].request.start + timeout)
    && (forall i: Id, j: Id | i in w.retired && j in w.retired && i < j ::
          w.retired[i].at <= w.retired[j].request.start)
    && (forall i: Id, j: Id | i in w.retired && j in w.live :: w.retired[i].at <= w.live[j].start)
  }

  /** There is at most one credit, left by a request that gave up. */
  ghost predicate OneCredit(key: Key, timeout: Time, w: World) {
    w.link.Credits(key) == []
    || exists j: Id :: Creditor(key, w, j) && w.link.Credits(key) == [w.retired[j].at + timeout]
  }

  /** It is there for as long as the answer of that request may still come. */
  ghost predicate CreditWaits(key: Key, timeout: Time, w: World) {
    forall i: Id | Creditor(key, w, i) && w.last < i && w.now < w.retired[i].at + timeout ::
      w.link.Credits(key) == [w.retired[i].at + timeout]
  }

  /** Whoever was robbed before its own answer came, was robbed by the late answer of the one before. */
  ghost predicate RobbedByPrevious(w: World) {
    forall i: Id | i in w.robbed && w.last < i :: exists p: Id :: p in w.late && Follows(w, p, i)
  }

  /** Every answer is its owner's. */
  ghost predicate Owners(w: World) {
    forall x | x in w.link.answered :: w.link.answered[x].owner == x.request && w.last >= x.request
  }

  ghost predicate Kept(key: Key, timeout: Time, w: World) {
    Serial(key, timeout, w) && Timely(key, timeout, w)
    && OneCredit(key, timeout, w) && CreditWaits(key, timeout, w) && RobbedByPrevious(w) && Owners(w)
  }

  lemma LapseOne(d: Time, now: Time)
    ensures Lapse([], now) == [] && Lapse([d], now) == if d <= now then [] else [d]
  {
  }

  lemma StartSerial(key: Key, timeout: Time, w: World, w': World, id: Id)
    requires Serial(key, timeout, w) && Timely(key, timeout, w) && w'.now >= w.now
    requires w.live == map[] && (forall i: Id :: Started(w, i) ==> i < id)
    requires w'.live == map[id := Request([key], timeout, w'.now)] && w'.retired == w.retired
    requires w'.link.answered == w.link.answered && w'.link.robbed == w.link.robbed && w'.robbed == w.robbed
    requires w'.link.Queue(key) == w.link.Queue(key) + [Waiter(id, key)]
    ensures Serial(key, timeout, w') && Timely(key, timeout, w')
  {
    hide LinkState.Queue;
    assert forall i: Id :: Started(w', i) <==> Started(w, i) || i == id;
    assert !Started(w, id);
  }

  lemma CreditsOf(s: LinkState, t: LinkState, key: Key)
    requires s.stale == t.stale
    ensures s.Credits(key) == t.Credits(key)
  {
  }

  lemma SameCredits(key: Key, timeout: Time, w: World, w': World)
    requires OneCredit(key, timeout, w) && CreditWaits(key, timeout, w)
    requires w'.link.Credits(key) == w.link.Credits(key) && w'.now >= w.now && w'.last == w.last
    requires w'.link.answered == w.link.answered && w'.robbed == w.robbed
    requires forall i: Id | i in w.retired :: i in w'.retired && w'.retired[i] == w.retired[i]
    requires forall i: Id :: Creditor(key, w', i) ==> i in w.retired
    ensures OneCredit(key, timeout, w') && CreditWaits(key, timeout, w')
  {
    hide LinkState.Credits;
    if w.link.Credits(key) != [] {
      var j: Id :| Creditor(key, w, j) && w.link.Credits(key) == [w.retired[j].at + timeout];
      assert Creditor(key, w', j);
    }
    forall i: Id | Creditor(key, w', i) && w'.last < i && w'.now < w'.retired[i].at + timeout
      ensures w'.link.Credits(key) == [w'.retired[i].at + timeout]
    {
      assert Creditor(key, w, i);
    }
  }

  /** Requests made later do not change whom a robbed request follows. */
  lemma PreviousStays(w: World, w': World)
    requires RobbedByPrevious(w) && w'.robbed == w.robbed && w'.last >= w.last && w.late <= w'.late
    requires forall i: Id :: Started(w, i) ==> Started(w', i)
    requires forall i: Id, m: Id :: m in w.robbed && i < m && Started(w', i) ==> Started(w, i)
    ensures RobbedByPrevious(w')
  {
    hide Started;
    forall m: Id | m in w'.robbed && w'.last < m
      ensures exists p: Id :: p in w'.late && Follows(w', p, m)
    {
      var p: Id :| p in w.late && Follows(w, p, m);
      assert Follows(w', p, m);
    }
  }

  lemma KeptStart(key: Key, timeout: Time, w: World, now: Time, id: Id)
    requires timeout > 0 && Kept(key, timeout, w)
    requires Enabled(w, now, Start(id, [key], timeout)) && Orderly(key, timeout, w, now, Start(id, [key], timeout))
    ensures Kept(key, timeout, Next(key, w, now, Start(id, [key], timeout)))
  {
    RegisterEffect(w.link, id, [key], key);
    var w' := Next(key, w, now, Start(id, [key], timeout));
    assert w'.live == map[id := Request([key], timeout, now)];
    assert forall m: Id | m in w.robbed :: Started(w, m);
    assert forall i: Id :: Started(w', i) <==> Started(w, i) || i == id;
    hide RegisterSpec, LinkState.Queue, LinkState.Credits, Serial, Timely, OneCredit, CreditWaits, RobbedByPrevious;
    StartSerial(key, timeout, w, w', id);
    CreditsOf(w.link, w'.link, key);
    SameCredits(key, timeout, w, w');
    PreviousStays(w, w');
  }

  lemma OnlyLive(key: Key, timeout: Time, w: World, id: Id)
    requires Serial(key, timeout, w) && id in w.live
    ensures w.live.Keys == {id} && w.live - {id} == map[]
    ensures forall i: Id :: i in w.retired ==> i < id
  {
    forall i: Id | i in w.live
      ensures i == id
    {
      assert Started(w, i) && Started(w, id);
      assert i < id ==> i in w.retired;
      assert id < i ==> id in w.retired;
    }
    forall i: Id | i in w.retired
      ensures i < id
    {
      assert Started(w, i);
      assert id < i ==> id in w.retired;
    }
  }

  lemma RetireQueue(queue: seq<Waiter>, w: Waiter)
    requires queue == [] || queue == [w]
    ensures queue == [w] ==> Remove(queue, w) == []
  {
  }

  /** `w'` is `w` with its only live request retired. */
  ghost predicate Retired(key: Key, w: World, w': World, id: Id) {
    w'.now >= w.now && id in w.live
    && w'.live == map[] && w'.retired == w.retired[id := Retirement(w.live[id], w'.now)]
    && w'.link.answered == w.link.answered && w'.link.robbed == w.link.robbed
    && w'.robbed == w.robbed && w'.late == w.late && w'.last == w.last
  }

  lemma RetireTimely(key: Key, timeout: Time, w: World, w': World, id: Id)
    requires Serial(key, timeout, w) && Timely(key, timeout, w) && Retired(key, w, w', id)
    requires !Answered(key, w, id) ==> w'.now >= w.live[id].start + timeout
    ensures Timely(key, timeout, w')
  {
    OnlyLive(key, timeout, w, id);
    hide LinkState.Queue, Serial;
  }

  lemma RetireSerial(key: Key, timeout: Time, w: World, w': World, id: Id)
    requires Serial(key, timeout, w) && Retired(key, w, w', id)
    requires w'.link.Queue(key) == []
    ensures Serial(key, timeout, w')
  {
    hide LinkState.Queue;
    OnlyLive(key, timeout, w, id);
    assert forall i: Id :: Started(w', i) == Started(w, i);
  }

  lemma RetireCredits(key: Key, timeout: Time, w: World, w': World, id: Id)
    requires timeout > 0 && Serial(key, timeout, w) && Timely(key, timeout, w) && OneCredit(key, timeout, w)
    requires Retired(key, w, w', id) && !Answered(key, w, id) && id !in w.robbed
    requires w'.now >= w.live[id].start + timeout
    requires w'.link.Credits(key) == Lapse(w.link.Credits(key), w'.now) + [w'.now + timeout]
    ensures OneCredit(key, timeout, w') && CreditWaits(key, timeout, w')
  {
    hide LinkState.Credits, LinkState.Queue, Lapse, Serial;
    var credits := w.link.Credits(key);
    LapseOne(0, w'.now);
    if credits != [] {
      var j: Id :| Creditor(key, w, j) && credits == [w.retired[j].at + timeout];
      LapseOne(w.retired[j].at + timeout, w'.now);
    }
    assert Lapse(credits, w'.now) == [];
    assert w'.link.Credits(key) == [w'.now + timeout];
    assert Creditor(key, w', id);
    assert forall i: Id | i in w.retired :: w.retired[i].at <= w.live[id].start;
    forall i: Id | Creditor(key, w', i) && w'.last < i && w'.now < w'.retired[i].at + timeout
      ensures i == id
    {
    }
  }

  lemma QueueKeys(key: Key, timeout: Time, w: World)
    requires Serial(key, timeout, w)
    ensures |w.link.Queue(key)| <= 1 && forall x | x in w.link.Queue(key) :: x.key == key
  {
    if w.live != map[] {
      var m: Id :| m in w.live;
    }
  }

  /** What retiring the live request does to the one key. */
  lemma RetireHere(key: Key, timeout: Time, w: World, now: Time, id: Id)
    requires IsAckKey(key) && Serial(key, timeout, w) && id in w.live && now >= w.now
    ensures Enabled(w, now, Retire(id))
    ensures var w' := Next(key, w, now, Retire(id));
      Retired(key, w, w', id) && w'.link.Queue(key) == []
      && w'.link.Credits(key) == if !Answered(key, w, id) && id !in w.robbed
                                 then Lapse(w.link.Credits(key), now) + [now + timeout] else w.link.Credits(key)
  {
    OnlyLive(key, timeout, w, id);
    QueueKeys(key, timeout, w);
    var queue := w.link.Queue(key);
    assert queue == if Answered(key, w, id) then [] else [Waiter(id, key)];
    assert Unanswered(w.link, id, [key]) <==> !Answered(key, w, id);
    assert Distinct([key]);
    RetireEffect(w.link, id, [key], Unanswered(w.link, id, [key]), now + timeout, now, key);
    hide RetireKeys, IsAckKey, Distinct, LinkState.Queue, LinkState.Credits, Lapse;
    RetireQueue(queue, Waiter(id, key));
  }

  lemma AllKept(key: Key, timeout: Time, w: World)
    ensures Kept(key, timeout, w) <==>
      Serial(key, timeout, w) && Timely(key, timeout, w)
      && OneCredit(key, timeout, w) && CreditWaits(key, timeout, w) && RobbedByPrevious(w) && Owners(w)
  {
    hide Serial, Timely, OneCredit, CreditWaits, RobbedByPrevious, Owners;
  }

  lemma CreditsAfterRetire(key: Key, timeout: Time, w: World, w': World, id: Id)
    requires timeout > 0 && Kept(key, timeout, w) && Retired(key, w, w', id)
    requires !Answered(key, w, id) ==> w'.now >= w.live[id].start + timeout
    requires w'.link.Credits(key) == if !Answered(key, w, id) && id !in w.robbed
                                     then Lapse(w.link.Credits(key), w'.now) + [w'.now + timeout]
                                     else w.link.Credits(key)
    ensures OneCredit(key, timeout, w') && CreditWaits(key, timeout, w')
  {
    hide LinkState.Credits, Lapse;
    assert id !in w.retired;
    hide Timely, Serial, OneCredit, CreditWaits, RobbedByPrevious, Owners;
    if !Answered(key, w, id) && id !in w.robbed {
      RetireCredits(key, timeout, w, w', id);
    } else {
      forall i: Id | Creditor(key, w', i)
        ensures i in w.retired
      {
      }
      SameCredits(key, timeout, w, w');
    }
  }

  lemma RetiredKeeps(key: Key, timeout: Time, w: World, w': World, id: Id)
    requires Serial(key, timeout, w) && Retired(key, w, w', id) && RobbedByPrevious(w) && Owners(w)
    ensures RobbedByPrevious(w') && Owners(w')
  {
    OnlyLive(key, timeout, w, id);
    assert forall i: Id :: Started(w', i) == Started(w, i);
    hide Serial;
    PreviousStays(w, w');
  }

  lemma KeptRetire(key: Key, timeout: Time, w: World, now: Time, id: Id)
    requires IsAckKey(key) && timeout > 0 && Kept(key, timeout, w)
    requires Enabled(w, now, Retire(id)) && Orderly(key, timeout, w, now, Retire(id))
    ensures Kept(key, timeout, Next(key, w, now, Retire(id)))
  {
    AllKept(key, timeout, w);
    assert !Answered(key, w, id) ==> now >= w.live[id].start + timeout by {
      assert Unanswered(w.link, id, w.live[id].keys) <==> !Answered(key, w, id);
    }
    RetireHere(key, timeout, w, now, id);
    var w' := Next(key, w, now, Retire(id));
    assert w'.now == now;
    hide *;
    RetireSerial(key, timeout, w, w', id);
    RetireTimely(key, timeout, w, w', id);
    CreditsAfterRetire(key, timeout, w, w', id);
    RetiredKeeps(key, timeout, w, w', id);
    AllKept(key, timeout, w');
  }

  // ------------------------------------------------------------------ an answer arrives

  /** `w'` is `w` after the answer of request `o` was delivered. */
  ghost predicate Delivered(key: Key, w: World, w': World, o: Id) {
    w'.now >= w.now && w'.live == w.live && w'.retired == w.retired
    && w'.last == o && o > w.last
    && w'.late == (if o in w.retired then w.late + {o} else w.late)
    && (forall id: Id :: Waiter(id, key) in w'.link.robbed <==> id in w'.robbed)
  }

  /** Requests between the owner of a late answer and the live one would have had to give up by now. */
  lemma NoOneBetween(key: Key, timeout: Time, w: World, o: Id, m: Id, now: Time)
    requires timeout > 0 && Serial(key, timeout, w) && Timely(key, timeout, w) && Owners(w)
    requires o in w.retired && m in w.live && o > w.last && w.now <= now < w.retired[o].at + timeout
    ensures Follows(w, o, m)
  {
    hide LinkState.Queue;
    OnlyLive(key, timeout, w, m);
    assert forall i: Id | i in w.retired && o < i :: w.retired[o].at <= w.retired[i].request.start;
    assert Started(w, o) && Started(w, m);
    forall i: Id | o < i < m
      ensures !Started(w, i)
    {
      assert Started(w, i) ==> i in w.retired && !Answered(key, w, i);
    }
  }

  /** The owner of a late answer left a credit, and it is still there. */
  lemma CreditForLate(key: Key, timeout: Time, w: World, o: Id, now: Time)
    requires timeout > 0 && Kept(key, timeout, w)
    requires o in w.retired && o > w.last && w.now <= now < w.retired[o].at + timeout
    requires o !in w.robbed
    ensures Creditor(key, w, o) && w.link.Credits(key) == [w.retired[o].at + timeout]
    ensures Lapse(w.link.Credits(key), now) == w.link.Credits(key)
  {
    hide LinkState.Credits, LinkState.Queue;
    assert !Answered(key, w, o);
    assert Creditor(key, w, o);
    LapseOne(w.retired[o].at + timeout, now);
  }

  /** While the answer of one request may still come, no later one can have given up. */
  lemma LaterIsAnswered(key: Key, timeout: Time, w: World, o: Id, i: Id, now: Time)
    requires timeout > 0 && Timely(key, timeout, w)
    requires o in w.retired && i in w.retired && o < i && w.now <= now < w.retired[o].at + timeout
    ensures Answered(key, w, i)
  {
    assert w.retired[o].at <= w.retired[i].request.start;
  }

  /** A request that was robbed left no credit, and no other credit is live when its late answer comes. */
  lemma NoCreditForRobbed(key: Key, timeout: Time, w: World, o: Id, now: Time)
    requires timeout > 0 && Kept(key, timeout, w)
    requires o in w.retired && o > w.last && w.now <= now < w.retired[o].at + timeout && o in w.robbed
    ensures Lapse(w.link.Credits(key), now) == []
  {
    hide LinkState.Credits, LinkState.Queue, Serial, CreditWaits, RobbedByPrevious;
    LapseOne(0, now);
    assert !Answered(key, w, o);
    if w.link.Credits(key) != [] {
      var j: Id :| Creditor(key, w, j) && w.link.Credits(key) == [w.retired[j].at + timeout];
      LapseOne(w.retired[j].at + timeout, now);
      if o < j {
        LaterIsAnswered(key, timeout, w, o, j, now);
      }
      assert j < o;
      assert w.retired[j].at <= w.retired[o].request.start;
    }
  }

  lemma DeliveredTimely(key: Key, timeout: Time, w: World, w': World, o: Id)
    requires Timely(key, timeout, w) && Delivered(key, w, w', o)
    requires forall i: Id :: Answered(key, w, i) ==> Answered(key, w', i)
    ensures Timely(key, timeout, w')
  {
  }

  lemma LateSerial(key: Key, timeout: Time, w: World, w': World, o: Id)
    requires Serial(key, timeout, w) && Timely(key, timeout, w) && Delivered(key, w, w', o) && o in w.retired
    requires w'.link.Queue(key) == w.link.Queue(key) && w'.link.answered == w.link.answered
    requires w'.robbed == if w.link.Queue(key) == [] then w.robbed else w.robbed + {w.link.Queue(key)[0].request}
    ensures Serial(key, timeout, w') && Timely(key, timeout, w')
    ensures forall m: Id | m in w'.robbed && m !in w.robbed :: m in w.live
  {
    DeliveredTimely(key, timeout, w, w', o);
    var queue := w.link.Queue(key);
    hide LinkState.Queue, Timely;
    assert forall i: Id :: Started(w', i) == Started(w, i);
    if queue != [] {
      var m: Id :| m in w.live;
      assert queue == [Waiter(m, key)];
    }
  }

  /** Where nobody waits, such an answer does nothing. */
  lemma KeptIdle(key: Key, timeout: Time, w: World, w': World, o: Id)
    requires timeout > 0 && Kept(key, timeout, w) && Delivered(key, w, w', o)
    requires o in w.retired && w'.now < w.retired[o].at + timeout
    requires w'.link.Credits(key) == [] && w.link.Queue(key) == [] && w'.link.Queue(key) == []
    requires w'.link.answered == w.link.answered && w'.robbed == w.robbed
    ensures Kept(key, timeout, w')
  {
    LateSerial(key, timeout, w, w', o);
    hide LinkState.Credits, LinkState.Queue, Serial;
    forall i: Id | i in w.retired && o < i
      ensures Answered(key, w, i)
    {
      LaterIsAnswered(key, timeout, w, o, i, w'.now);
    }
  }

  /** What delivering does to the one key all requests share. */
  lemma DeliverHere(key: Key, w: World, now: Time, o: Id)
    requires now >= w.now && o > w.last && (forall id: Id :: Waiter(id, key) in w.link.robbed <==> id in w.robbed)
    requires forall x | x in w.link.Queue(key) :: x.key == key
    ensures var w' := Next(key, w, now, Deliver(Reply(key, o)));
      var queue, live := w.link.Queue(key), Lapse(w.link.Credits(key), now);
      Delivered(key, w, w', o)
      && w'.link.Credits(key) == (if live != [] then live[1..] else [])
      && (if live != [] then
            w'.link.answered == w.link.answered && w'.link.Queue(key) == queue
            && w'.robbed == (if queue == [] then w.robbed else w.robbed + {queue[0].request})
          else
            w'.robbed == w.robbed
            && (queue == [] || queue[0] in w.link.answered
                || (w'.link.answered == w.link.answered[queue[0] := Reply(key, o)]
                    && w'.link.Queue(key) == queue[1..])))
  {
    hide Lapse;
    var queue := w.link.Queue(key);
    assert queue != [] ==> queue[0] in queue;
  }

  /** Where somebody waits, it is the next request, and it gets the answer. */
  lemma MisleadsTheNext(key: Key, timeout: Time, w: World, now: Time, o: Id)
    requires timeout > 0 && Kept(key, timeout, w)
    requires Orderly(key, timeout, w, now, Deliver(Reply(key, o))) && now >= w.now
    requires Misleads(key, w, Deliver(Reply(key, o)))
    ensures var w' := Next(key, w, now, Deliver(Reply(key, o)));
      exists m: Id :: m in w.live && Follows(w, o, m)
        && Waiter(m, key) in w'.link.answered && w'.link.answered[Waiter(m, key)] == Reply(key, o)
  {
    NoCreditForRobbed(key, timeout, w, o, now);
    QueueKeys(key, timeout, w);
    DeliverHere(key, w, now, o);
    assert w.live != map[];
    var m: Id :| m in w.live;
    NoOneBetween(key, timeout, w, o, m, now);
    assert !Answered(key, w, m) && w.link.Queue(key) == [Waiter(m, key)];
  }

  lemma KeptLate(key: Key, timeout: Time, w: World, w': World, o: Id)
    requires timeout > 0 && Kept(key, timeout, w) && Delivered(key, w, w', o)
    requires o in w.retired && w'.now < w.retired[o].at + timeout
    requires w'.link.Credits(key) == [] && w'.link.Queue(key) == w.link.Queue(key)
    requires w'.link.answered == w.link.answered
    requires w'.robbed == if w.link.Queue(key) == [] then w.robbed else w.robbed + {w.link.Queue(key)[0].request}
    ensures Kept(key, timeout, w')
  {
    LateSerial(key, timeout, w, w', o);
    hide LinkState.Credits, LinkState.Queue;
    assert RobbedByPrevious(w') by {
      forall m: Id | m in w'.robbed && m !in w.robbed
        ensures Follows(w, o, m)
      {
        NoOneBetween(key, timeout, w, o, m, w'.now);
      }
    }
    hide Serial, RobbedByPrevious;
    forall i: Id | i in w.retired && o < i
      ensures Answered(key, w, i)
    {
      LaterIsAnswered(key, timeout, w, o, i, w'.now);
    }
  }

  /** The answer of the waiting request is taken by a credit, or resolves it. */
  ghost predicate TakenOrGiven(key: Key, w: World, w': World, o: Id) {
    || (w'.link.answered == w.link.answered && w'.link.Queue(key) == w.link.Queue(key) && w'.robbed == w.robbed + {o})
    || (w'.link.answered == w.link.answered[Waiter(o, key) := Reply(key, o)] && w'.link.Queue(key) == []
        && w'.robbed == w.robbed)
  }

  lemma OnTimeSerial(key: Key, timeout: Time, w: World, w': World, o: Id)
    requires Serial(key, timeout, w) && Timely(key, timeout, w) && Delivered(key, w, w', o) && o in w.live
    requires !Answered(key, w, o) && TakenOrGiven(key, w, w', o)
    ensures Serial(key, timeout, w') && Timely(key, timeout, w')
  {
    hide LinkState.Queue;
    DeliveredTimely(key, timeout, w, w', o);
    hide Timely;
    OnlyLive(key, timeout, w, o);
    assert forall i: Id :: Started(w', i) == Started(w, i);
  }

  /** The answer of the live request either resolves it, or is taken by the credit of one before. */
  lemma KeptOnTime(key: Key, timeout: Time, w: World, w': World, o: Id)
    requires Kept(key, timeout, w) && Delivered(key, w, w', o) && o in w.live && !Answered(key, w, o)
    requires w'.link.Credits(key) == []
    requires TakenOrGiven(key, w, w', o)
    ensures Kept(key, timeout, w')
  {
    hide LinkState.Queue, LinkState.Credits;
    OnTimeSerial(key, timeout, w, w', o);
    OnlyLive(key, timeout, w, o);
    hide Timely;
    forall i: Id | i in w'.robbed
      ensures i <= o
    {
      assert Started(w, i);
    }
  }

  lemma IdleQueue(key: Key, w: World, now: Time, o: Id)
    requires now >= w.now && w.link.Queue(key) == [] && Lapse(w.link.Credits(key), now) == []
    ensures var w' := Next(key, w, now, Deliver(Reply(key, o)));
      w'.link.Queue(key) == [] && w'.link.answered == w.link.answered
  {
    hide Lapse;
  }

  lemma CreditsLapse(key: Key, timeout: Time, w: World, now: Time)
    requires OneCredit(key, timeout, w)
    ensures |w.link.Credits(key)| <= 1 && |Lapse(w.link.Credits(key), now)| <= 1
  {
    hide LinkState.Credits;
    LapseOne(0, now);
    if w.link.Credits(key) != [] {
      var j: Id :| Creditor(key, w, j) && w.link.Credits(key) == [w.retired[j].at + timeout];
      LapseOne(w.retired[j].at + timeout, now);
    }
  }

  lemma KeptDeliver(key: Key, timeout: Time, w: World, now: Time, reply: Reply)
    requires timeout > 0 && Kept(key, timeout, w) && !Misleads(key, w, Deliver(reply))
    requires Enabled(w, now, Deliver(reply)) && Orderly(key, timeout, w, now, Deliver(reply))
    ensures Kept(key, timeout, Next(key, w, now, Deliver(reply)))
  {
    var o := reply.owner;
    assert reply == Reply(key, o);
    var w' := Next(key, w, now, Deliver(reply));
    var queue, credits := w.link.Queue(key), w.link.Credits(key);
    QueueKeys(key, timeout, w);
    DeliverHere(key, w, now, o);
    assert |Lapse(credits, now)| <= 1 by {
      CreditsLapse(key, timeout, w, now);
    }
    hide Next, Lapse, LinkState.Queue, LinkState.Credits, Timely;
    if o in w.retired {
      if o in w.robbed {
        NoCreditForRobbed(key, timeout, w, o, now);
        IdleQueue(key, w, now, o);
        KeptIdle(key, timeout, w, w', o);
      } else {
        CreditForLate(key, timeout, w, o, now);
        KeptLate(key, timeout, w, w', o);
      }
    } else {
      assert !Answered(key, w, o);
      KeptOnTime(key, timeout, w, w', o);
    }
  }

  // ------------------------------------------------------------------ whole runs

  lemma {:induction false} RegisterElsewhere(s: LinkState, id: Id, keys: seq<Key>, key: Key)
    requires key !in keys
    ensures LinkHere(key, RegisterSpec(s, id, keys)) == LinkHere(key, s)
    decreases |keys|
  {
    if keys != [] {
      RegisterElsewhere(s, id, keys[..|keys| - 1], key);
    }
  }

  lemma RetireKeyElsewhere(s: LinkState, w: Waiter, unanswered: bool, deadline: Time, now: Time, key: Key)
    requires w.key != key
    ensures LinkHere(key, RetireKey(s, w, unanswered, deadline, now)) == LinkHere(key, s)
  {
    hide Lapse, Remove, IsAckKey, RobbedHere, AnsweredHere;
  }

  lemma {:induction false} RetireElsewhere(s: LinkState, id: Id, keys: seq<Key>, unanswered: bool, deadline: Time,
                                           now: Time, key: Key)
    requires key !in keys
    ensures LinkHere(key, RetireKeys(s, id, keys, unanswered, deadline, now)) == LinkHere(key, s)
    decreases |keys|
  {
    hide LinkHere, RetireKey;
    if keys != [] {
      var init, last := keys[..|keys| - 1], keys[|keys| - 1];
      RetireElsewhere(s, id, init, unanswered, deadline, now, key);
      var before := RetireKeys(s, id, init, unanswered, deadline, now);
      RetireKeyElsewhere(before, Waiter(id, last), unanswered, deadline, now, key);
    }
  }

  lemma OtherAnswer(answered: map<Waiter, Reply>, x: Waiter, reply: Reply, key: Key)
    requires x.key != key
    ensures AnsweredHere(key, answered[x := reply]) == AnsweredHere(key, answered)
  {
  }

  lemma OtherRobbed(robbed: set<Waiter>, x: Waiter, key: Key)
    requires x.key != key
    ensures RobbedHere(key, robbed + {x}) == RobbedHere(key, robbed)
  {
  }

  lemma DeliverElsewhere(s: LinkState, reply: Reply, now: Time, key: Key)
    requires reply.key != key && forall x | x in s.Queue(reply.key) :: x.key == reply.key
    ensures LinkHere(key, DeliverSpec(s, reply, now)) == LinkHere(key, s)
  {
    hide Lapse, RobbedHere, AnsweredHere;
    var queue := s.Queue(reply.key);
    if queue != [] {
      assert queue[0] in queue;
      OtherAnswer(s.answered, queue[0], reply, key);
      OtherRobbed(s.robbed, queue[0], key);
    }
  }

  lemma StartElsewhere(key: Key, w: World, now: Time, id: Id, keys: seq<Key>, timeout: Time)
    requires Enabled(w, now, Start(id, keys, timeout)) && key !in keys
    ensures Here(key, Next(key, w, now, Start(id, keys, timeout))) == Here(key, w).(now := now)
  {
    RegisterElsewhere(w.link, id, keys, key);
    hide LinkHere, RegisterSpec;
  }

  lemma OtherRetired(key: Key, live: map<Id, Request>, retired: map<Id, Retirement>, id: Id, now: Time)
    requires id in live && key !in live[id].keys && id !in retired
    ensures LiveHere(key, live - {id}) == LiveHere(key, live)
    ensures RetiredHere(key, retired[id := Retirement(live[id], now)]) == RetiredHere(key, retired)
  {
  }

  lemma GivenUpElsewhere(key: Key, w: World, now: Time, id: Id)
    requires Enabled(w, now, Retire(id)) && key !in w.live[id].keys && id !in w.retired
    ensures Here(key, Next(key, w, now, Retire(id))) == Here(key, w).(now := now)
  {
    var r := w.live[id];
    OtherRetired(key, w.live, w.retired, id, now);
    RetireElsewhere(w.link, id, r.keys, Unanswered(w.link, id, r.keys), now + r.timeout, now, key);
    hide LinkHere, LiveHere, RetiredHere, RetireKeys, Unanswered;
  }

  /** What happens elsewhere leaves the queue, the credits, the answers and the requests of `key` alone. */
  lemma ElsewhereLeaves(key: Key, w: World, now: Time, e: Event)
    requires Enabled(w, now, e) && InOrder(w) && Elsewhere(key, w, e)
    ensures Here(key, Next(key, w, now, e)) == Here(key, w).(now := now)
  {
    match e
    case Start(id, keys, timeout) => StartElsewhere(key, w, now, id, keys, timeout);
    case Deliver(reply) =>
      assert QueueInOrder(reply.key, w);
      DeliverElsewhere(w.link, reply, now, key);
    case Retire(id) => GivenUpElsewhere(key, w, now, id);
  }

  lemma RegisterHere(s: LinkState, id: Id, key: Key)
    ensures LinkHere(key, RegisterSpec(s, id, [key])) == RegisterSpec(LinkHere(key, s), id, [key])
  {
    assert [key][..0] == [];
  }

  lemma WaiterHere(key: Key, s: LinkState, id: Id)
    ensures Waiter(id, key) in s.answered <==> Waiter(id, key) in LinkHere(key, s).answered
    ensures Waiter(id, key) in s.robbed <==> Waiter(id, key) in LinkHere(key, s).robbed
    ensures Unanswered(s, id, [key]) <==> Unanswered(LinkHere(key, s), id, [key])
    ensures LinkHere(key, s).Credits(key) == s.Credits(key)
  {
    assert Unanswered(s, id, [key]) <==> Waiter(id, key) !in s.answered;
    assert Unanswered(LinkHere(key, s), id, [key]) <==> Waiter(id, key) !in LinkHere(key, s).answered;
  }

  lemma SetHere(key: Key, s: LinkState, queue: seq<Waiter>, credits: seq<Time>)
    ensures LinkHere(key, s.(waiters := s.waiters[key := queue]))
      == LinkHere(key, s).(waiters := LinkHere(key, s).waiters[key := queue])
    ensures LinkHere(key, s.SetCredits(key, credits)) == LinkHere(key, s).SetCredits(key, credits)
    ensures LinkHere(key, s).Credits(key) == s.Credits(key) && LinkHere(key, s).Queue(key) == s.Queue(key)
    ensures key in LinkHere(key, s).waiters <==> key in s.waiters
  {
    hide RobbedHere, AnsweredHere;
  }

  lemma RetireOneHere(s: LinkState, w: Waiter, unanswered: bool, deadline: Time, now: Time)
    ensures LinkHere(w.key, RetireKey(s, w, unanswered, deadline, now))
      == RetireKey(LinkHere(w.key, s), w, unanswered, deadline, now)
  {
    var key, credits := w.key, Lapse(s.Credits(w.key), now) + [deadline];
    WaiterHere(key, s, w.request);
    SetHere(key, s, Remove(s.Queue(key), w), credits);
    var s' := if key in s.waiters then s.(waiters := s.waiters[key := Remove(s.waiters[key], w)]) else s;
    SetHere(key, s', [], credits);
    hide Lapse, Remove, IsAckKey, LinkHere, Unanswered, LinkState.SetCredits, LinkState.Credits;
  }

  lemma RetireAllHere(s: LinkState, id: Id, key: Key, unanswered: bool, deadline: Time, now: Time)
    ensures LinkHere(key, RetireKeys(s, id, [key], unanswered, deadline, now))
      == RetireKeys(LinkHere(key, s), id, [key], unanswered, deadline, now)
  {
    assert [key][..0] == [] && [key][0] == key;
    hide RetireKey, LinkHere;
    RetireOneHere(s, Waiter(id, key), unanswered, deadline, now);
  }

  lemma OneAnswer(answered: map<Waiter, Reply>, x: Waiter, reply: Reply)
    ensures AnsweredHere(x.key, answered[x := reply]) == AnsweredHere(x.key, answered)[x := reply]
    ensures x in AnsweredHere(x.key, answered) <==> x in answered
  {
  }

  lemma OneRobbed(robbed: set<Waiter>, x: Waiter)
    ensures RobbedHere(x.key, robbed + {x}) == RobbedHere(x.key, robbed) + {x}
  {
  }

  lemma DeliverToHere(s: LinkState, reply: Reply, now: Time)
    requires forall x | x in s.Queue(reply.key) :: x.key == reply.key
    ensures LinkHere(reply.key, DeliverSpec(s, reply, now)) == DeliverSpec(LinkHere(reply.key, s), reply, now)
  {
    hide Lapse, RobbedHere, AnsweredHere;
    var key, queue := reply.key, s.Queue(reply.key);
    var live := Lapse(s.Credits(key), now);
    SetHere(key, s, [], []);
    if live != [] {
      SetHere(key, s, [], live[1..]);
    }
    if queue != [] {
      assert queue[0] in queue;
      OneAnswer(s.answered, queue[0], reply);
      OneRobbed(s.robbed, queue[0]);
    }
    hide LinkState.SetCredits;
  }

  lemma StartHere(key: Key, w: World, now: Time, id: Id, timeout: Time)
    requires Enabled(w, now, Start(id, [key], timeout))
    ensures Enabled(Here(key, w), now, Start(id, [key], timeout))
    ensures Here(key, Next(key, w, now, Start(id, [key], timeout)))
      == Next(key, Here(key, w), now, Start(id, [key], timeout))
  {
    RegisterHere(w.link, id, key);
    hide LinkHere, RegisterSpec;
  }

  lemma AnswerHere(key: Key, w: World, now: Time, o: Id)
    requires now >= w.now && InOrder(w) && Started(Here(key, w), o)
    ensures Here(key, Next(key, w, now, Deliver(Reply(key, o)))) == Next(key, Here(key, w), now, Deliver(Reply(key, o)))
  {
    assert QueueInOrder(key, w);
    DeliverToHere(w.link, Reply(key, o), now);
    assert LinkHere(key, w.link).Queue(key) == w.link.Queue(key);
    assert LinkHere(key, w.link).Credits(key) == w.link.Credits(key);
    hide LinkHere, DeliverSpec, LinkState.Queue, LinkState.Credits, Lapse;
  }

  lemma OneRetired(key: Key, live: map<Id, Request>, retired: map<Id, Retirement>, id: Id, now: Time)
    requires id in live && key in live[id].keys
    ensures id in LiveHere(key, live) && LiveHere(key, live)[id] == live[id]
    ensures LiveHere(key, live - {id}) == LiveHere(key, live) - {id}
    ensures var r := Retirement(live[id], now); RetiredHere(key, retired[id := r]) == RetiredHere(key, retired)[id := r]
  {
  }

  lemma GivenUpHere(key: Key, w: World, now: Time, id: Id)
    requires Enabled(w, now, Retire(id)) && w.live[id].keys == [key]
    ensures Enabled(Here(key, w), now, Retire(id))
    ensures Here(key, Next(key, w, now, Retire(id))) == Next(key, Here(key, w), now, Retire(id))
  {
    var r := w.live[id];
    OneRetired(key, w.live, w.retired, id, now);
    WaiterHere(key, w.link, id);
    RetireAllHere(w.link, id, key, Unanswered(w.link, id, r.keys), now + r.timeout, now);
    hide LinkHere, LiveHere, RetiredHere, RetireKeys, LinkState.Queue, LinkState.Credits, Unanswered, Lapse;
  }

  /** And what happens under `key` depends on nothing else. */
  lemma HereFollows(key: Key, timeout: Time, w: World, now: Time, e: Event)
    requires Enabled(w, now, e) && InOrder(w) && Serial(key, timeout, Here(key, w))
    requires Orderly(key, timeout, Here(key, w), now, e)
    ensures Enabled(Here(key, w), now, e)
    ensures Here(key, Next(key, w, now, e)) == Next(key, Here(key, w), now, e)
  {
    hide Next, InOrder, LinkHere;
    match e
    case Start(id, keys, t) => StartHere(key, w, now, id, t);
    case Deliver(reply) => AnswerHere(key, w, now, reply.owner);
    case Retire(id) =>
      GivenUpHere(key, w, now, id);
  }

  lemma SerialLater(key: Key, timeout: Time, w: World, now: Time)
    requires Serial(key, timeout, w)
    ensures Serial(key, timeout, w.(now := now))
  {
    hide LinkState.Queue;
    assert forall i: Id :: Started(w.(now := now), i) == Started(w, i);
  }

  lemma KeptLater(key: Key, timeout: Time, w: World, now: Time)
    requires Kept(key, timeout, w) && now >= w.now
    ensures Kept(key, timeout, w.(now := now))
  {
    var w' := w.(now := now);
    assert forall i: Id :: Started(w', i) == Started(w, i);
    SerialLater(key, timeout, w, now);
    hide LinkState.Credits, Serial, OneCredit, CreditWaits, RobbedByPrevious;
    SameCredits(key, timeout, w, w');
    PreviousStays(w, w');
  }

  lemma {:induction false} RunKept(key: Key, timeout: Time, run: Run)
    requires IsAckKey(key) && timeout > 0 && Possible(key, run) && OrderlyRun(key, timeout, run) && NoneMisled(key, run)
    ensures Kept(key, timeout, Here(key, After(key, run)))
    decreases |run|
  {
    if run != [] {
      var init, w, now, e := run[..|run| - 1], After(key, run[..|run| - 1]), run[|run| - 1].0, run[|run| - 1].1;
      var here := Here(key, w);
      RunKept(key, timeout, init);
      RunBalanced(key, init);
      hide Next, Kept, Enabled, IsAckKey, Here;
      if Elsewhere(key, w, e) {
        ElsewhereLeaves(key, w, now, e);
        KeptLater(key, timeout, here, now);
      } else {
        HereFollows(key, timeout, w, now, e);
        match e
        case Start(id, keys, t) => KeptStart(key, timeout, here, now, id);
        case Deliver(reply) => KeptDeliver(key, timeout, here, now, reply);
        case Retire(id) => KeptRetire(key, timeout, here, now, id);
      }
    }
  }

  /** Every request that is resolved holds the answer to itself. */
  ghost predicate Own(key: Key, w: World) {
    forall id: Id | Waiter(id, key) in w.link.answered :: w.link.answered[Waiter(id, key)].owner == id
  }

  lemma {:induction false} RegisterAnswers(s: LinkState, id: Id, keys: seq<Key>)
    ensures RegisterSpec(s, id, keys).answered == s.answered
    decreases |keys|
  {
    if keys != [] {
      RegisterAnswers(s, id, keys[..|keys| - 1]);
    }
  }

  lemma {:induction false} RetireAnswers(s: LinkState, id: Id, keys: seq<Key>, unanswered: bool, deadline: Time,
                                         now: Time)
    ensures RetireKeys(s, id, keys, unanswered, deadline, now).answered == s.answered
    decreases |keys|
  {
    if keys != [] {
      RetireAnswers(s, id, keys[..|keys| - 1], unanswered, deadline, now);
    }
  }

  /** An answer once given stays. */
  lemma AnsweredStays(key: Key, w: World, now: Time, e: Event, x: Waiter)
    requires Enabled(w, now, e) && x in w.link.answered
    ensures var w' := Next(key, w, now, e); x in w'.link.answered && w'.link.answered[x] == w.link.answered[x]
  {
    match e
    case Start(id, keys, timeout) => RegisterAnswers(w.link, id, keys);
    case Deliver(reply) => DeliverAnswers(w.link, reply, now);
    case Retire(id) =>
      var r := w.live[id];
      RetireAnswers(w.link, id, r.keys, Unanswered(w.link, id, r.keys), now + r.timeout, now);
  }

  lemma OnceWrong(key: Key, w: World, now: Time, e: Event)
    requires Enabled(w, now, e) && !Own(key, w)
    ensures !Own(key, Next(key, w, now, e))
  {
    var id: Id :| Waiter(id, key) in w.link.answered && w.link.answered[Waiter(id, key)].owner != id;
    AnsweredStays(key, w, now, e, Waiter(id, key));
  }

  lemma OwnHere(key: Key, w: World)
    ensures Own(key, Here(key, w)) <==> Own(key, w)
  {
    assert forall id: Id :: Waiter(id, key) in Here(key, w).link.answered <==> Waiter(id, key) in w.link.answered;
  }

  lemma MisleadsHere(key: Key, w: World, e: Event)
    requires e.Deliver? ==> e.reply.key != key || Started(Here(key, w), e.reply.owner)
    requires w.live.Keys !! w.retired.Keys
    ensures Misleads(key, Here(key, w), e) <==> Misleads(key, w, e)
  {
  }

  lemma MisledIsWrong(key: Key, timeout: Time, w: World, now: Time, e: Event)
    requires timeout > 0 && Kept(key, timeout, w) && Misleads(key, w, e)
    requires Enabled(w, now, e) && Orderly(key, timeout, w, now, e)
    ensures !Own(key, Next(key, w, now, e))
  {
    hide Kept, Next;
    assert e.reply == Reply(key, e.reply.owner);
    MisleadsTheNext(key, timeout, w, now, e.reply.owner);
  }

  lemma KeptOwn(key: Key, timeout: Time, w: World)
    requires Kept(key, timeout, w)
    ensures Own(key, w)
  {
  }

  lemma LastMisleads(key: Key, timeout: Time, w: World, now: Time, e: Event)
    requires timeout > 0 && Kept(key, timeout, Here(key, w)) && InOrder(w) && Misleads(key, w, e)
    requires Enabled(w, now, e) && (Elsewhere(key, w, e) || Orderly(key, timeout, Here(key, w), now, e))
    ensures !Own(key, Next(key, w, now, e))
  {
    assert Orderly(key, timeout, Here(key, w), now, e);
    MisleadsHere(key, w, e);
    hide Next, Kept, Own, Misleads, Orderly, Here, InOrder, Enabled;
    AllKept(key, timeout, Here(key, w));
    HereFollows(key, timeout, w, now, e);
    MisledIsWrong(key, timeout, Here(key, w), now, e);
    OwnHere(key, Next(key, w, now, e));
  }

  /** Whoever is resolved is resolved by the answer to its own request, if and only if the late answer of
      a robbed request never came while another request was waiting. */
  lemma {:induction false} OwnAnswersExactly(key: Key, timeout: Time, run: Run)
    requires IsAckKey(key) && timeout > 0 && Possible(key, run) && OrderlyRun(key, timeout, run)
    ensures Own(key, After(key, run)) <==> NoneMisled(key, run)
    decreases |run|
  {
    var all := After(key, run);
    hide Next, Enabled, Kept, Own, Misleads, Orderly, Here, Elsewhere, IsAckKey;
    if NoneMisled(key, run) {
      RunKept(key, timeout, run);
      KeptOwn(key, timeout, Here(key, all));
      OwnHere(key, all);
    } else {
      var init, w, now, e := run[..|run| - 1], After(key, run[..|run| - 1]), run[|run| - 1].0, run[|run| - 1].1;
      OwnAnswersExactly(key, timeout, init);
      if NoneMisled(key, init) {
        RunKept(key, timeout, init);
        RunBalanced(key, init);
        LastMisleads(key, timeout, w, now, e);
      } else {
        OnceWrong(key, w, now, e);
      }
    }
  }

  lemma LastNotTwoLate(key: Key, timeout: Time, w: World, now: Time, e: Event)
    requires Kept(key, timeout, Here(key, w)) && InOrder(w)
    requires Elsewhere(key, w, e) || Orderly(key, timeout, Here(key, w), now, e)
    requires var here := Here(key, w);
      e.Deliver? && e.reply.key == key && e.reply.owner in here.retired ==>
        forall p: Id :: p in here.late ==> !Follows(here, p, e.reply.owner)
    ensures !Misleads(key, w, e)
  {
    assert Orderly(key, timeout, Here(key, w), now, e) || !Misleads(key, w, e);
    if e.Deliver? && e.reply.key == key {
      MisleadsHere(key, w, e);
      hide Here, InOrder, Serial, Timely, OneCredit, CreditWaits, Owners;
    }
  }

  lemma {:induction false} NeverTwoLateMisleads(key: Key, timeout: Time, run: Run)
    requires IsAckKey(key) && timeout > 0 && Possible(key, run) && OrderlyRun(key, timeout, run)
    requires NeverTwoLate(key, run)
    ensures NoneMisled(key, run)
    decreases |run|
  {
    if run != [] {
      hide Next, Enabled, Kept, Orderly, Here, Misleads, Elsewhere, IsAckKey, Follows;
      var init, w, now, e := run[..|run| - 1], After(key, run[..|run| - 1]), run[|run| - 1].0, run[|run| - 1].1;
      NeverTwoLateMisleads(key, timeout, init);
      RunKept(key, timeout, init);
      RunBalanced(key, init);
      LastNotTwoLate(key, timeout, w, now, e);
    }
  }

  /** It never comes so where no two requests in a row are both answered late; and then there is never
      more than one credit. */
  lemma OwnAnswers(key: Key, timeout: Time, run: Run)
    requires IsAckKey(key) && timeout > 0 && Possible(key, run) && OrderlyRun(key, timeout, run)
    requires NeverTwoLate(key, run)
    ensures NoneMisled(key, run) && Own(key, After(key, run)) && |After(key, run).link.Credits(key)| <= 1
  {
    var w := After(key, run);
    NeverTwoLateMisleads(key, timeout, run);
    OwnAnswersExactly(key, timeout, run);
    RunKept(key, timeout, run);
    hide Possible, After, OrderlyRun, NeverTwoLate, NoneMisled, Own, IsAckKey;
    AllKept(key, timeout, Here(key, w));
    hide Kept;
    CreditsLapse(key, timeout, Here(key, w), w.now);
    WaiterHere(key, w.link, 0);
  }

  /** Two late answers in a row do mislead: with a timeout of 2, request 0 gives up at 2, its answer
      comes at 3 and robs request 1, which gives up at 4 without a credit; so the answer to 1, at 5,
      goes to request 2. */
  lemma TwoLateInARow(key: Key)
    requires IsAckKey(key)
    ensures var s0 := RegisterSpec(Init().link, 0, [key]);
      var s1 := RegisterSpec(RetireSpec(s0, 0, [key], 2, 2), 1, [key]);
      var s2 := RetireSpec(DeliverSpec(s1, Reply(key, 0), 3), 1, [key], 2, 4);
      var s3 := DeliverSpec(RegisterSpec(s2, 2, [key]), Reply(key, 1), 5);
      Waiter(2, key) in s3.answered && s3.answered[Waiter(2, key)].owner == 1
  {
    hide RegisterSpec, RetireKeys, IsAckKey;
    var s := Init().link;
    RegisterEffect(s, 0, [key], key);
    var s0 := RegisterSpec(s, 0, [key]);
    RetireEffect(s0, 0, [key], true, 4, 2, key);
    var r0 := RetireSpec(s0, 0, [key], 2, 2);
    RegisterEffect(r0, 1, [key], key);
    var s1 := RegisterSpec(r0, 1, [key]);
    assert s1.Queue(key) == [Waiter(1, key)] && s1.Credits(key) == [4] && s1.robbed == {} && s1.answered == map[];
    var d := DeliverSpec(s1, Reply(key, 0), 3);
    assert d.Queue(key) == [Waiter(1, key)] && d.Credits(key) == [] && d.answered == map[];
    assert d.robbed == {Waiter(1, key)};
    RetireEffect(d, 1, [key], true, 6, 4, key);
    var s2 := RetireSpec(d, 1, [key], 2, 4);
    RegisterEffect(s2, 2, [key], key);
  }
}
