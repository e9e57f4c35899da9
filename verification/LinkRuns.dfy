/** Whole runs of the request/answer link: any number of requests, answers lost, late or on time. */
module LinkRuns {
  import opened Link

  datatype Request = Request(keys: seq<Key>, timeout: Time, start: Time)
  datatype Retirement = Retirement(request: Request, at: Time)

  datatype Event =
    | Start(id: Id, keys: seq<Key>, timeout: Time)
    | Deliver(reply: Reply)
    | Retire(retiree: Id) // answered, timed out or cancelled

  /** The link, and what an onlooker who can tell answers apart records about one ACK key. */
  datatype World = World(
    link: LinkState,
    now: Time,
    live: map<Id, Request>,
    retired: map<Id, Retirement>,
    booked: nat,          // credits left behind
    spent: nat,           // credits that took an answer
    lapsed: nat,          // credits purged unclaimed
    robbed: set<Id>,      // requests marked robbed
    timedOut: set<Id>,    // requests retired with no answer under any key
    unrobbed: set<Id>,    // those of them that were not robbed
    inTime: set<Id>,      // requests whose own answer came while they were live
    late: set<Id>,        // requests whose own answer came after they retired
    last: int)            // the youngest request whose own answer came

  function Init(): World {
    World(LinkState(map[], {}, map[], map[]), 0, map[], map[], 0, 0, 0, {}, {}, {}, {}, {}, -1)
  }

  predicate Distinct(keys: seq<Key>) {
    forall i, j :: 0 <= i < j < |keys| ==> keys[i] != keys[j]
  }

  predicate Enabled(w: World, now: Time, e: Event) {
    now >= w.now
    && match e
       case Start(id, keys, timeout) => id !in w.live && id !in w.retired && Distinct(keys)
       case Deliver(reply) => true
       case Retire(id) => id in w.live
  }

  function LapsedCount(deadlines: seq<Time>, now: Time): (n: nat)
    ensures n + |Lapse(deadlines, now)| == |deadlines|
  {
    if deadlines != [] && deadlines[0] <= now then 1 + LapsedCount(deadlines[1..], now) else 0
  }

  function Next(key: Key, w: World, now: Time, e: Event): World
    requires Enabled(w, now, e)
  {
    match e
    case Start(id, keys, timeout) =>
      w.(now := now, link := RegisterSpec(w.link, id, keys), live := w.live[id := Request(keys, timeout, now)])
    case Deliver(reply) =>
      var w' := w.(now := now, link := DeliverSpec(w.link, reply, now));
      if reply.key != key then w'
      else
        var all, queue := w.link.Credits(key), w.link.Queue(key);
        var live := Lapse(all, now);
        var owner := reply.owner;
        w'.(
          lapsed := w.lapsed + LapsedCount(all, now),
          spent := if live != [] then w.spent + 1 else w.spent,
          robbed := if live != [] && queue != [] then w.robbed + {queue[0].request} else w.robbed,
          inTime := if owner in w.live && key in w.live[owner].keys then w.inTime + {owner} else w.inTime,
          late := if owner in w.retired then w.late + {owner} else w.late,
          last := owner)
    case Retire(id) =>
      var r := w.live[id];
      var gaveUp := key in r.keys && Unanswered(w.link, id, r.keys);
      var books := gaveUp && Waiter(id, key) !in w.link.robbed;
      w.(now := now,
         link := RetireSpec(w.link, id, r.keys, r.timeout, now),
         live := w.live - {id},
         retired := w.retired[id := Retirement(r, now)],
         timedOut := if gaveUp then w.timedOut + {id} else w.timedOut,
         unrobbed := if books then w.unrobbed + {id} else w.unrobbed,
         booked := if books then w.booked + 1 else w.booked,
         lapsed := if books then w.lapsed + LapsedCount(w.link.Credits(key), now) else w.lapsed)
  }

  type Run = seq<(Time, Event)>

  ghost function After(key: Key, run: Run): World
    requires Possible(key, run)
    decreases run, 1
  {
    if run == [] then Init()
    else Next(key, After(key, run[..|run| - 1]), run[|run| - 1].0, run[|run| - 1].1)
  }

  ghost predicate Possible(key: Key, run: Run)
    decreases run, 0
  {
    run == [] ||
    (Possible(key, run[..|run| - 1]) &&
     Enabled(After(key, run[..|run| - 1]), run[|run| - 1].0, run[|run| - 1].1))
  }

  // ------------------------------------------------------------------ what registering and retiring do to one key

  lemma {:induction false} RegisterEffect(s: LinkState, id: Id, keys: seq<Key>, key: Key)
    requires Distinct(keys)
    ensures var r := RegisterSpec(s, id, keys);
      r.robbed == s.robbed && r.answered == s.answered && r.stale == s.stale
      && r.Queue(key) == if key in keys then s.Queue(key) + [Waiter(id, key)] else s.Queue(key)
  {
    if keys != [] {
      RegisterEffect(s, id, keys[..|keys| - 1], key);
      assert keys == keys[..|keys| - 1] + [keys[|keys| - 1]];
    }
  }

  lemma RetireKeyEffect(s: LinkState, w: Waiter, unanswered: bool, deadline: Time, now: Time, key: Key)
    ensures var r := RetireKey(s, w, unanswered, deadline, now);
      r.robbed == s.robbed && r.answered == s.answered
      && r.Queue(key) == (if key == w.key && w !in s.answered then Remove(s.Queue(key), w) else s.Queue(key))
      && r.Credits(key) ==
        if key == w.key && w !in s.answered && unanswered && w !in s.robbed && IsAckKey(key)
        then Lapse(s.Credits(key), now) + [deadline] else s.Credits(key)
  {
    hide Lapse, IsAckKey;
  }

  lemma {:induction false} RetireEffect(s: LinkState, id: Id, keys: seq<Key>, unanswered: bool, deadline: Time,
                                        now: Time, key: Key)
    requires Distinct(keys)
    ensures var r := RetireKeys(s, id, keys, unanswered, deadline, now);
      var w := Waiter(id, key);
      r.robbed == s.robbed && r.answered == s.answered
      && r.Queue(key) == (if key in keys && w !in s.answered then Remove(s.Queue(key), w) else s.Queue(key))
      && r.Credits(key) ==
        if key in keys && w !in s.answered && unanswered && w !in s.robbed && IsAckKey(key)
        then Lapse(s.Credits(key), now) + [deadline] else s.Credits(key)
  {
    hide Lapse, IsAckKey, Remove, RetireKey, LinkState.Queue, LinkState.Credits;
    if keys != [] {
      var init, last := keys[..|keys| - 1], keys[|keys| - 1];
      RetireEffect(s, id, init, unanswered, deadline, now, key);
      assert keys == init + [last];
      var before := RetireKeys(s, id, init, unanswered, deadline, now);
      RetireKeyEffect(before, Waiter(id, last), unanswered, deadline, now, key);
    }
  }

  // ------------------------------------------------------------------ who is in the queues

  ghost predicate NoRepeats(queue: seq<Waiter>) {
    forall i, j :: 0 <= i < j < |queue| ==> queue[i] != queue[j]
  }

  /** A waiter that belongs in the queue of `key`: unanswered, and its request is live. */
  ghost predicate Waiting(key: Key, x: Waiter, w: World) {
    x.key == key && x !in w.link.answered && x.request in w.live && key in w.live[x.request].keys
  }

  ghost predicate QueueInOrder(key: Key, w: World) {
    NoRepeats(w.link.Queue(key)) && forall x | x in w.link.Queue(key) :: Waiting(key, x, w)
  }

  ghost predicate InOrder(w: World) {
    (forall key :: QueueInOrder(key, w))
    && (forall x | x in w.link.answered :: x.request in w.live || x.request in w.retired)
    && (forall id | id in w.live :: Distinct(w.live[id].keys))
    && w.live.Keys !! w.retired.Keys
  }

  lemma {:induction false} RemoveKeeps(queue: seq<Waiter>, w: Waiter)
    ensures forall x :: x in Remove(queue, w) ==> x in queue
    ensures NoRepeats(queue) ==> NoRepeats(Remove(queue, w)) && w !in Remove(queue, w)
  {
    if queue != [] && queue[0] != w {
      RemoveKeeps(queue[1..], w);
      if NoRepeats(queue) {
        assert NoRepeats(queue[1..]);
        assert queue[0] !in queue[1..];
        assert Remove(queue, w) == [queue[0]] + Remove(queue[1..], w);
      }
    }
  }

  lemma NoRepeatsAppend(queue: seq<Waiter>, w: Waiter)
    requires NoRepeats(queue) && w !in queue
    ensures NoRepeats(queue + [w])
  {
  }

  lemma DeliverQueues(s: LinkState, reply: Reply, now: Time, key: Key)
    ensures var s', queue := DeliverSpec(s, reply, now), s.Queue(key);
      s'.Queue(key) == queue || (key == reply.key && queue != [] && s'.Queue(key) == queue[1..])
    ensures reply.key != key ==> DeliverSpec(s, reply, now).Credits(key) == s.Credits(key)
  {
    hide Lapse;
  }

  /** Whoever a delivery answers has left the queue. */
  lemma DeliverAnswers(s: LinkState, reply: Reply, now: Time)
    ensures var s', queue := DeliverSpec(s, reply, now), s.Queue(reply.key);
      s'.answered == s.answered
      || (queue != [] && queue[0] !in s.answered && s'.answered == s.answered[queue[0] := reply]
          && s'.Queue(reply.key) == queue[1..])
  {
    hide Lapse;
  }

  lemma DeliverCredits(s: LinkState, reply: Reply, now: Time)
    ensures var s', queue, live := DeliverSpec(s, reply, now), s.Queue(reply.key), Lapse(s.Credits(reply.key), now);
      s'.Credits(reply.key) == (if live != [] then live[1..] else [])
      && s'.robbed == (if live != [] && queue != [] then s.robbed + {queue[0]} else s.robbed)
  {
    hide Lapse;
  }

  lemma DeliverInOrder(key: Key, w: World, now: Time, reply: Reply)
    requires now >= w.now && InOrder(w)
    ensures InOrder(Next(key, w, now, Deliver(reply)))
  {
    hide DeliverSpec, Distinct;
    var w' := Next(key, w, now, Deliver(reply));
    var head := w.link.Queue(reply.key);
    DeliverAnswers(w.link, reply, now);
    assert head != [] ==> head[0] in head;
    assert QueueInOrder(reply.key, w);
    forall k
      ensures QueueInOrder(k, w')
    {
      assert QueueInOrder(k, w);
      DeliverQueues(w.link, reply, now, k);
      var queue := w.link.Queue(k);
      forall x | x in w'.link.Queue(k)
        ensures Waiting(k, x, w')
      {
        assert x in queue && Waiting(k, x, w);
      }
    }
  }

  lemma StartInOrder(key: Key, w: World, now: Time, id: Id, keys: seq<Key>, timeout: Time)
    requires Enabled(w, now, Start(id, keys, timeout)) && InOrder(w)
    ensures InOrder(Next(key, w, now, Start(id, keys, timeout)))
  {
    hide RegisterSpec, Distinct;
    var w' := Next(key, w, now, Start(id, keys, timeout));
    RegisterEffect(w.link, id, keys, key);
    forall k
      ensures QueueInOrder(k, w')
    {
      assert QueueInOrder(k, w);
      RegisterEffect(w.link, id, keys, k);
      forall x | x in w.link.Queue(k)
        ensures Waiting(k, x, w') && x != Waiter(id, k)
      {
        assert Waiting(k, x, w);
      }
      var queue := w'.link.Queue(k);
      forall x | x in queue
        ensures Waiting(k, x, w')
      {
        if x !in w.link.Queue(k) {
          assert x == Waiter(id, k) && x !in w.link.answered;
        }
      }
      if k in keys {
        NoRepeatsAppend(w.link.Queue(k), Waiter(id, k));
      }
    }
  }

  lemma RetireKeepsOrder(key: Key, w: World, now: Time, id: Id, k: Key)
    requires Enabled(w, now, Retire(id)) && QueueInOrder(k, w) && Distinct(w.live[id].keys)
    ensures var w' := Next(key, w, now, Retire(id)); QueueInOrder(k, w') && w'.link.answered == w.link.answered
  {
    hide RetireKeys, Distinct, IsAckKey, Lapse, NoRepeats, Remove, Unanswered, LinkState.Queue, LinkState.Credits;
    var w', r := Next(key, w, now, Retire(id)), w.live[id];
    RetireEffect(w.link, id, r.keys, Unanswered(w.link, id, r.keys), now + r.timeout, now, k);
    RemoveKeeps(w.link.Queue(k), Waiter(id, k));
    forall x | x in w'.link.Queue(k)
      ensures Waiting(k, x, w')
    {
      assert x in w.link.Queue(k) && Waiting(k, x, w);
    }
  }

  lemma RetireInOrder(key: Key, w: World, now: Time, id: Id)
    requires Enabled(w, now, Retire(id)) && InOrder(w)
    ensures InOrder(Next(key, w, now, Retire(id)))
  {
    hide RetireSpec, Distinct, IsAckKey, Lapse, QueueInOrder;
    forall k
      ensures QueueInOrder(k, Next(key, w, now, Retire(id)))
    {
      assert QueueInOrder(k, w);
      RetireKeepsOrder(key, w, now, id, k);
    }
    RetireKeepsOrder(key, w, now, id, key);
  }

  lemma NextInOrder(key: Key, w: World, now: Time, e: Event)
    requires Enabled(w, now, e) && InOrder(w)
    ensures InOrder(Next(key, w, now, e))
  {
    hide Next, InOrder;
    match e
    case Start(id, keys, timeout) => StartInOrder(key, w, now, id, keys, timeout);
    case Deliver(reply) => DeliverInOrder(key, w, now, reply);
    case Retire(id) => RetireInOrder(key, w, now, id);
  }

  // ------------------------------------------------------------------ the books balance

  ghost predicate Balanced(key: Key, w: World) {
    (forall id :: Waiter(id, key) in w.link.robbed <==> id in w.robbed)
    && w.timedOut <= w.retired.Keys
    && w.unrobbed <= w.timedOut && w.timedOut - w.unrobbed <= w.robbed
    && |w.robbed| <= w.spent
    && w.booked == w.spent + w.lapsed + |w.link.Credits(key)|
    && w.booked == |w.unrobbed|
  }

  lemma DeliverBalanced(key: Key, w: World, now: Time, reply: Reply)
    requires now >= w.now && InOrder(w) && Balanced(key, w)
    ensures Balanced(key, Next(key, w, now, Deliver(reply)))
  {
    hide Lapse, Distinct, DeliverSpec;
    DeliverQueues(w.link, reply, now, key);
    DeliverCredits(w.link, reply, now);
    var queue := w.link.Queue(reply.key);
    assert queue != [] ==> queue[0].key == reply.key by {
      if queue != [] {
        assert queue[0] in queue && QueueInOrder(reply.key, w);
      }
    }
    hide InOrder;
  }

  lemma StartBalanced(key: Key, w: World, now: Time, id: Id, keys: seq<Key>, timeout: Time)
    requires Enabled(w, now, Start(id, keys, timeout)) && Balanced(key, w)
    ensures Balanced(key, Next(key, w, now, Start(id, keys, timeout)))
  {
    hide RegisterSpec, Distinct;
    RegisterEffect(w.link, id, keys, key);
  }

  lemma UnansweredAt(s: LinkState, id: Id, keys: seq<Key>, key: Key)
    requires Unanswered(s, id, keys) && key in keys
    ensures Waiter(id, key) !in s.answered
  {
  }

  /** The books of one key when a request retires that leaves a credit, and when one retires that does not. */
  ghost predicate Books(key: Key, w: World, w': World, id: Id, gaveUp: bool, books: bool) {
    w'.link.robbed == w.link.robbed && w'.robbed == w.robbed && w'.spent == w.spent
    && w'.retired.Keys == w.retired.Keys + {id}
    && w'.timedOut == (if gaveUp then w.timedOut + {id} else w.timedOut)
    && w'.unrobbed == (if books then w.unrobbed + {id} else w.unrobbed)
    && (gaveUp && !books ==> Waiter(id, key) in w.link.robbed) && (books ==> gaveUp)
    && w'.booked == (if books then w.booked + 1 else w.booked)
    && |w'.link.Credits(key)| + w'.lapsed == |w.link.Credits(key)| + w.lapsed + if books then 1 else 0
  }

  lemma RetireBooks(key: Key, w: World, now: Time, id: Id, gaveUp: bool, books: bool)
    requires IsAckKey(key) && Enabled(w, now, Retire(id)) && Distinct(w.live[id].keys)
    requires gaveUp <==> key in w.live[id].keys && Unanswered(w.link, id, w.live[id].keys)
    requires books <==> gaveUp && Waiter(id, key) !in w.link.robbed
    ensures Books(key, w, Next(key, w, now, Retire(id)), id, gaveUp, books)
  {
    hide RetireKeys, Distinct, IsAckKey, Lapse, Remove, Unanswered, LinkState.Queue, LinkState.Credits;
    var r := w.live[id];
    RetireEffect(w.link, id, r.keys, Unanswered(w.link, id, r.keys), now + r.timeout, now, key);
    if gaveUp {
      UnansweredAt(w.link, id, r.keys, key);
    }
  }

  lemma OneMoreGivenUp(retired: set<Id>, timedOut: set<Id>, unrobbed: set<Id>, robbed: set<Id>, id: Id)
    requires unrobbed <= timedOut <= retired && timedOut - unrobbed <= robbed && id !in retired
    ensures unrobbed + {id} <= timedOut + {id} <= retired + {id} && |unrobbed + {id}| == |unrobbed| + 1
    ensures timedOut <= retired + {id} && unrobbed <= timedOut + {id}
    ensures (timedOut + {id}) - (unrobbed + {id}) <= robbed
    ensures id in robbed ==> (timedOut + {id}) - unrobbed <= robbed
  {
  }

  lemma BooksBalance(key: Key, w: World, w': World, id: Id, gaveUp: bool, books: bool)
    requires Balanced(key, w) && Books(key, w, w', id, gaveUp, books) && id !in w.retired
    ensures Balanced(key, w')
  {
    hide LinkState.Queue, LinkState.Credits;
    OneMoreGivenUp(w.retired.Keys, w.timedOut, w.unrobbed, w.robbed, id);
    if !gaveUp {
      assert w'.timedOut == w.timedOut && w'.unrobbed == w.unrobbed;
    } else if books {
      assert w'.timedOut == w.timedOut + {id} && w'.unrobbed == w.unrobbed + {id};
    } else {
      assert w'.timedOut == w.timedOut + {id} && w'.unrobbed == w.unrobbed && id in w.robbed;
    }
  }

  lemma RetireBalanced(key: Key, w: World, now: Time, id: Id)
    requires IsAckKey(key) && Enabled(w, now, Retire(id)) && Balanced(key, w)
    requires Distinct(w.live[id].keys) && id !in w.retired
    ensures Balanced(key, Next(key, w, now, Retire(id)))
  {
    var gaveUp := key in w.live[id].keys && Unanswered(w.link, id, w.live[id].keys);
    var books := gaveUp && Waiter(id, key) !in w.link.robbed;
    hide Next, Distinct, IsAckKey, Unanswered, Balanced, Books;
    RetireBooks(key, w, now, id, gaveUp, books);
    BooksBalance(key, w, Next(key, w, now, Retire(id)), id, gaveUp, books);
  }

  lemma NextBalanced(key: Key, w: World, now: Time, e: Event)
    requires IsAckKey(key) && Enabled(w, now, e) && InOrder(w) && Balanced(key, w)
    ensures InOrder(Next(key, w, now, e)) && Balanced(key, Next(key, w, now, e))
  {
    assert e.Retire? ==> Distinct(w.live[e.retiree].keys) && e.retiree !in w.retired;
    hide Next, InOrder, Balanced;
    NextInOrder(key, w, now, e);
    match e
    case Start(id, keys, timeout) => StartBalanced(key, w, now, id, keys, timeout);
    case Deliver(reply) => DeliverBalanced(key, w, now, reply);
    case Retire(id) => RetireBalanced(key, w, now, id);
  }

  /** Every run, whatever is lost, late or cancelled, keeps the queues in order and every ACK key's
      books balanced: robbed requests <= credits spent <= credits booked = requests retired with no
      answer and not robbed. */
  lemma {:induction false} RunBalanced(key: Key, run: Run)
    requires IsAckKey(key) && Possible(key, run)
    ensures InOrder(After(key, run)) && Balanced(key, After(key, run))
    decreases |run|
  {
    if run != [] {
      hide Next, InOrder, Balanced, Enabled;
      RunBalanced(key, run[..|run| - 1]);
      NextBalanced(key, After(key, run[..|run| - 1]), run[|run| - 1].0, run[|run| - 1].1);
    }
  }

  /** No credit is spent that was not booked, and no request robbed without one being spent; so over
      any run the robbed requests are no more than those that got no answer of their own accord. */
  lemma RobberyIsPaidFor(key: Key, run: Run)
    requires IsAckKey(key) && Possible(key, run)
    ensures var w := After(key, run);
      |w.robbed| <= w.spent <= w.booked == |w.unrobbed|
      && w.booked == w.spent + w.lapsed + |w.link.Credits(key)|
  {
    RunBalanced(key, run);
  }

  // ------------------------------------------------------------------ who was answered, and who left credits

  lemma {:induction false} RunInOrder(key: Key, run: Run)
    requires Possible(key, run)
    ensures InOrder(After(key, run))
    decreases |run|
  {
    if run != [] {
      hide Next, InOrder, Enabled;
      var init, w, now, e := run[..|run| - 1], After(key, run[..|run| - 1]), run[|run| - 1].0, run[|run| - 1].1;
      RunInOrder(key, init);
      NextInOrder(key, w, now, e);
    }
  }

  /** The request that gets this answer: the head of the queue, when no live credit takes it. */
  function Served(s: LinkState, reply: Reply, now: Time): set<Id> {
    var queue := s.Queue(reply.key);
    if queue != [] && Lapse(s.Credits(reply.key), now) == [] then {queue[0].request} else {}
  }

  /** The requests that got an answer under any of their keys. */
  ghost function Resolved(key: Key, run: Run): set<Id>
    requires Possible(key, run)
  {
    if run == [] then {}
    else
      var init, now, e := run[..|run| - 1], run[|run| - 1].0, run[|run| - 1].1;
      Resolved(key, init) + if e.Deliver? then Served(After(key, init).link, e.reply, now) else {}
  }

  ghost predicate MadeWith(w: World, id: Id, k: Key) {
    (id in w.live && k in w.live[id].keys) || (id in w.retired && k in w.retired[id].request.keys)
  }

  /** Who was resolved shows in the waiters; who got nothing under any key, in those that timed out. */
  ghost predicate Told(key: Key, w: World, resolved: set<Id>) {
    (forall x | x in w.link.answered :: x.request in resolved)
    && (forall id | id in resolved :: exists k :: MadeWith(w, id, k) && Waiter(id, k) in w.link.answered)
    && (forall id :: id in w.timedOut <==>
          id in w.retired && key in w.retired[id].request.keys && id !in resolved)
  }

  lemma ToldStart(key: Key, w: World, now: Time, id: Id, keys: seq<Key>, timeout: Time, resolved: set<Id>)
    requires Enabled(w, now, Start(id, keys, timeout)) && Told(key, w, resolved)
    ensures Told(key, Next(key, w, now, Start(id, keys, timeout)), resolved)
  {
    RegisterEffect(w.link, id, keys, key);
    hide RegisterSpec, Distinct;
    var w' := Next(key, w, now, Start(id, keys, timeout));
    forall i | i in resolved
      ensures exists k :: MadeWith(w', i, k) && Waiter(i, k) in w'.link.answered
    {
      var k :| MadeWith(w, i, k) && Waiter(i, k) in w.link.answered;
      assert MadeWith(w', i, k);
    }
  }

  lemma ServedAnswers(w: World, reply: Reply, now: Time)
    requires InOrder(w)
    ensures var s, s', queue := w.link, DeliverSpec(w.link, reply, now), w.link.Queue(reply.key);
      if Served(s, reply, now) == {} then s'.answered == s.answered
      else Served(s, reply, now) == {queue[0].request} && s'.answered == s.answered[queue[0] := reply]
           && MadeWith(w, queue[0].request, reply.key) && queue[0].key == reply.key && queue[0].request in w.live
  {
    var queue := w.link.Queue(reply.key);
    assert QueueInOrder(reply.key, w);
    assert queue != [] ==> queue[0] in queue && Waiting(reply.key, queue[0], w);
    hide Lapse, InOrder;
  }

  lemma ToldDeliver(key: Key, w: World, now: Time, reply: Reply, resolved: set<Id>)
    requires now >= w.now && InOrder(w) && Told(key, w, resolved)
    ensures Told(key, Next(key, w, now, Deliver(reply)), resolved + Served(w.link, reply, now))
  {
    ServedAnswers(w, reply, now);
    assert forall id | id in w.live :: id !in w.retired;
    hide DeliverSpec, Served, InOrder, LinkState.Queue, LinkState.Credits;
    var w', served := Next(key, w, now, Deliver(reply)), Served(w.link, reply, now);
    forall i | i in resolved + served
      ensures exists k :: MadeWith(w', i, k) && Waiter(i, k) in w'.link.answered
    {
      if i in served {
        assert MadeWith(w', i, reply.key);
      } else {
        var k :| MadeWith(w, i, k) && Waiter(i, k) in w.link.answered;
        assert MadeWith(w', i, k);
      }
    }
  }

  /** A live request has an answer under one of its keys exactly when it was resolved. */
  lemma UnansweredExactly(key: Key, w: World, id: Id, resolved: set<Id>)
    requires InOrder(w) && Told(key, w, resolved) && id in w.live
    ensures Unanswered(w.link, id, w.live[id].keys) <==> id !in resolved
  {
    if id in resolved {
      var k :| MadeWith(w, id, k) && Waiter(id, k) in w.link.answered;
      assert k in w.live[id].keys;
    }
  }

  lemma RetireAnswersNobody(key: Key, w: World, now: Time, id: Id)
    requires Enabled(w, now, Retire(id)) && Distinct(w.live[id].keys)
    ensures Next(key, w, now, Retire(id)).link.answered == w.link.answered
  {
    var r := w.live[id];
    RetireEffect(w.link, id, r.keys, Unanswered(w.link, id, r.keys), now + r.timeout, now, key);
    hide RetireKeys, Unanswered, Distinct, LinkState.Queue, LinkState.Credits;
  }

  lemma ToldRetire(key: Key, w: World, now: Time, id: Id, resolved: set<Id>)
    requires Enabled(w, now, Retire(id)) && InOrder(w) && Told(key, w, resolved)
    ensures Told(key, Next(key, w, now, Retire(id)), resolved)
  {
    UnansweredExactly(key, w, id, resolved);
    assert Distinct(w.live[id].keys) && id !in w.retired;
    RetireAnswersNobody(key, w, now, id);
    hide RetireSpec, Unanswered, Distinct, InOrder;
    var w' := Next(key, w, now, Retire(id));
    forall i | i in resolved
      ensures exists k :: MadeWith(w', i, k) && Waiter(i, k) in w'.link.answered
    {
      var k :| MadeWith(w, i, k) && Waiter(i, k) in w.link.answered;
      assert MadeWith(w', i, k);
    }
    hide MadeWith;
  }

  lemma {:induction false} RunTold(key: Key, run: Run)
    requires Possible(key, run)
    ensures InOrder(After(key, run)) && Told(key, After(key, run), Resolved(key, run))
    decreases |run|
  {
    RunInOrder(key, run);
    if run != [] {
      hide Next, InOrder, Told, Enabled, Served;
      var init, w, now, e := run[..|run| - 1], After(key, run[..|run| - 1]), run[|run| - 1].0, run[|run| - 1].1;
      RunTold(key, init);
      var resolved := Resolved(key, init);
      assert resolved + {} == resolved;
      match e
      case Start(id, keys, timeout) => ToldStart(key, w, now, id, keys, timeout, resolved);
      case Deliver(reply) => ToldDeliver(key, w, now, reply, resolved);
      case Retire(id) => ToldRetire(key, w, now, id, resolved);
    }
  }

  /** A retired request of the key has timed out if and only if no answer was given to it under any of its
      keys, however many it has. */
  lemma TimedOutExactly(key: Key, run: Run, id: Id)
    requires Possible(key, run) && id in After(key, run).retired
    ensures id in After(key, run).timedOut <==>
      key in After(key, run).retired[id].request.keys && id !in Resolved(key, run)
  {
    RunTold(key, run);
  }

  /** Retiring leaves one credit under each ACK key of the request, if nothing was answered to it under any
      of its keys and it was not robbed under this one; and no other key's credits change. */
  lemma CreditsExactly(key: Key, run: Run, now: Time, id: Id, k: Key)
    requires Possible(key, run) && Enabled(After(key, run), now, Retire(id))
    ensures var w, r := After(key, run), After(key, run).live[id];
      Next(key, w, now, Retire(id)).link.Credits(k) ==
      if k in r.keys && IsAckKey(k) && id !in Resolved(key, run) && Waiter(id, k) !in w.link.robbed
      then Lapse(w.link.Credits(k), now) + [now + r.timeout] else w.link.Credits(k)
  {
    RunTold(key, run);
    var w, r := After(key, run), After(key, run).live[id];
    UnansweredExactly(key, w, id, Resolved(key, run));
    RetireEffect(w.link, id, r.keys, Unanswered(w.link, id, r.keys), now + r.timeout, now, k);
    if k in r.keys && Unanswered(w.link, id, r.keys) {
      UnansweredAt(w.link, id, r.keys, k);
    }
    hide After, Possible, Resolved, RetireKeys, Unanswered, InOrder, Told, Lapse, IsAckKey, Distinct, LinkState.Credits;
  }

  // ------------------------------------------------------------------ one request at a time on a key

  predicate HasKey(w: World, id: Id, key: Key) {
    id in w.live && key in w.live[id].keys
  }

  ghost predicate Free(w: World, key: Key) {
    forall id :: !HasKey(w, id, key)
  }

  lemma SomeElement<T>(s: seq<T>)
    ensures s != [] ==> exists x :: x in s
  {
    if s != [] {
      assert s[0] in s;
    }
  }

  lemma FreeQueue(w: World, key: Key)
    requires InOrder(w) && Free(w, key)
    ensures w.link.Queue(key) == []
  {
    assert QueueInOrder(key, w);
    var queue := w.link.Queue(key);
    assert forall x | x in queue :: HasKey(w, x.request, key);
    SomeElement(queue);
  }

  ghost predicate OneAtATime(key: Key, run: Run)
    requires Possible(key, run)
  {
    run == [] ||
    (OneAtATime(key, run[..|run| - 1])
     && var e := run[|run| - 1].1;
        e.Start? && key in e.keys ==> Free(After(key, run[..|run| - 1]), key))
  }

  ghost predicate Sole(key: Key, w: World) {
    (forall i, j :: HasKey(w, i, key) && HasKey(w, j, key) ==> i == j)
    && (forall i :: HasKey(w, i, key) ==> Waiter(i, key) in w.link.answered || w.link.Queue(key) == [Waiter(i, key)])
    && (forall i | i in w.inTime :: Waiter(i, key) in w.link.answered || i in w.robbed)
    && w.unrobbed !! w.inTime
  }

  /** An answer is either swallowed by a credit or resolves the head of the queue. */
  lemma DeliverResolves(s: LinkState, reply: Reply, now: Time)
    ensures var s', queue, live := DeliverSpec(s, reply, now), s.Queue(reply.key), Lapse(s.Credits(reply.key), now);
      (live != [] ==> s'.answered == s.answered && s'.Queue(reply.key) == queue)
      && (live == [] && queue != [] ==> queue[0] in s'.answered)
  {
    hide Lapse;
  }

  lemma SoleDeliver(key: Key, w: World, now: Time, reply: Reply)
    requires now >= w.now && InOrder(w) && Balanced(key, w) && Sole(key, w)
    ensures Sole(key, Next(key, w, now, Deliver(reply)))
  {
    hide Lapse, Distinct, DeliverSpec;
    DeliverQueues(w.link, reply, now, key);
    DeliverAnswers(w.link, reply, now);
    DeliverCredits(w.link, reply, now);
    DeliverResolves(w.link, reply, now);
    assert w.unrobbed !! w.live.Keys;
    hide InOrder;
    var w' := Next(key, w, now, Deliver(reply));
    forall i | HasKey(w', i, key)
      ensures Waiter(i, key) in w'.link.answered || w'.link.Queue(key) == [Waiter(i, key)]
    {
      assert HasKey(w, i, key);
    }
    assert forall i :: HasKey(w', i, key) == HasKey(w, i, key);
    forall i | i in w'.inTime
      ensures Waiter(i, key) in w'.link.answered || i in w'.robbed
    {
      assert i in w.inTime || (reply.key == key && i == reply.owner && HasKey(w, i, key));
    }
  }

  lemma SoleStart(key: Key, w: World, now: Time, id: Id, keys: seq<Key>, timeout: Time)
    requires Enabled(w, now, Start(id, keys, timeout)) && InOrder(w) && Sole(key, w)
    requires key in keys ==> Free(w, key)
    ensures Sole(key, Next(key, w, now, Start(id, keys, timeout)))
  {
    hide RegisterSpec, Distinct;
    RegisterEffect(w.link, id, keys, key);
    if key in keys {
      FreeQueue(w, key);
    }
    hide InOrder;
    var w' := Next(key, w, now, Start(id, keys, timeout));
    forall i | HasKey(w', i, key)
      ensures i == id || HasKey(w, i, key)
    {
    }
  }

  lemma SoleRetire(key: Key, w: World, now: Time, id: Id)
    requires Enabled(w, now, Retire(id)) && InOrder(w) && Balanced(key, w) && Sole(key, w)
    ensures Sole(key, Next(key, w, now, Retire(id)))
  {
    hide RetireKeys, Distinct, IsAckKey, Lapse;
    var r := w.live[id];
    RetireEffect(w.link, id, r.keys, Unanswered(w.link, id, r.keys), now + r.timeout, now, key);
    hide InOrder;
    var w' := Next(key, w, now, Retire(id));
    forall i | HasKey(w', i, key)
      ensures i != id && HasKey(w, i, key)
    {
    }
  }

  lemma {:induction false} RunSole(key: Key, run: Run)
    requires IsAckKey(key) && Possible(key, run) && OneAtATime(key, run)
    ensures Sole(key, After(key, run))
    decreases |run|
  {
    if run != [] {
      hide Next, InOrder, Balanced, Enabled, Sole;
      var init, w, now, e := run[..|run| - 1], After(key, run[..|run| - 1]), run[|run| - 1].0, run[|run| - 1].1;
      RunSole(key, init);
      RunBalanced(key, init);
      match e
      case Start(id, keys, timeout) => SoleStart(key, w, now, id, keys, timeout);
      case Deliver(reply) => SoleDeliver(key, w, now, reply);
      case Retire(id) => SoleRetire(key, w, now, id);
    }
  }

  lemma SubsetSize<T>(a: set<T>, b: set<T>)
    requires a <= b
    ensures |a| <= |b|
  {
    assert b == a + (b - a);
  }

  /** With one request at a time on a key, each answer lost or late costs at most two timeouts: the
      request's own and one more. A loss never chains. */
  lemma LossNeverChains(key: Key, run: Run)
    requires IsAckKey(key) && Possible(key, run) && OneAtATime(key, run)
    ensures var w := After(key, run);
      |w.timedOut| <= 2 * |w.timedOut - w.inTime|
      && w.unrobbed <= w.timedOut - w.inTime
  {
    hide IsAckKey, After, OneAtATime, InOrder;
    var w := After(key, run);
    RunBalanced(key, run);
    RunSole(key, run);
    SubsetSize(w.unrobbed, w.timedOut - w.inTime);
    SubsetSize(w.timedOut - w.unrobbed, w.robbed);
    assert w.timedOut == w.unrobbed + (w.timedOut - w.unrobbed);
  }
}
