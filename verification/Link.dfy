/** `core/link.py`: requests to the receiver, the waiters that stand for their answers, and the stale
    credits that absorb answers which come too late. Time is in ticks of the event loop's clock. */
module Link {
  type Key = string
  type Time = int
  type Id = nat // one per request, in the order they were made

  const ACK_KEY_PREFIX: Key := "ack:"

  predicate IsAckKey(key: Key) {
    ACK_KEY_PREFIX <= key
  }

  /** An answer as it arrives. Only `key` can be seen by the link; `owner` is the request the receiver
      really answered with it. */
  datatype Reply = Reply(key: Key, owner: Id)

  /** The expectation of request `request` under `key`. */
  datatype Waiter = Waiter(request: Id, key: Key)

  /** `_waiters`, the `robbed` flags, the resolved futures and `_stale`. */
  datatype LinkState = LinkState(
    waiters: map<Key, seq<Waiter>>,
    robbed: set<Waiter>,
    answered: map<Waiter, Reply>,
    stale: map<Key, seq<Time>>)
  {
    function Queue(key: Key): seq<Waiter> {
      if key in waiters then waiters[key] else []
    }

    function Credits(key: Key): seq<Time> {
      if key in stale then stale[key] else []
    }

    function SetCredits(key: Key, deadlines: seq<Time>): LinkState {
      this.(stale := if deadlines == [] then stale - {key} else stale[key := deadlines])
    }
  }

  /** The credits still live at `now`: the lapsed ones at the front are gone. */
  function Lapse(deadlines: seq<Time>, now: Time): seq<Time> {
    if deadlines != [] && deadlines[0] <= now then Lapse(deadlines[1..], now) else deadlines
  }

  /** A live credit takes the answer, and robs the request at the head of the queue of it; otherwise
      that request gets it. */
  function DeliverSpec(s: LinkState, reply: Reply, now: Time): LinkState {
    var key := reply.key;
    var live := Lapse(s.Credits(key), now);
    var queue := s.Queue(key);
    if live != [] then
      s.SetCredits(key, live[1..]).(robbed := if queue == [] then s.robbed else s.robbed + {queue[0]})
    else if queue != [] then
      s.SetCredits(key, []).(
        waiters := s.waiters[key := queue[1..]],
        answered := if queue[0] in s.answered then s.answered else s.answered[queue[0] := reply])
    else s.SetCredits(key, [])
  }

  /** One waiter per acceptable answer, each at the end of its queue. */
  function RegisterSpec(s: LinkState, id: Id, keys: seq<Key>): LinkState {
    if keys == [] then s
    else
      var s' := RegisterSpec(s, id, keys[..|keys| - 1]);
      var key := keys[|keys| - 1];
      s'.(waiters := s'.waiters[key := s'.Queue(key) + [Waiter(id, key)]])
  }

  function Remove(queue: seq<Waiter>, w: Waiter): seq<Waiter> {
    if queue == [] then []
    else if queue[0] == w then queue[1..]
    else [queue[0]] + Remove(queue[1..], w)
  }

  predicate Unanswered(s: LinkState, id: Id, keys: seq<Key>) {
    forall k | k in keys :: Waiter(id, k) !in s.answered
  }

  /** What retiring does under one key: a waiter with no answer leaves its queue, and leaves a credit
      behind if nothing answered the request, the key is an ACK's and the waiter was not robbed. */
  function RetireKey(s: LinkState, w: Waiter, unanswered: bool, deadline: Time, now: Time): LinkState {
    if w in s.answered then s
    else
      var s' := if w.key in s.waiters then s.(waiters := s.waiters[w.key := Remove(s.waiters[w.key], w)]) else s;
      if unanswered && w !in s.robbed && IsAckKey(w.key)
      then s'.SetCredits(w.key, Lapse(s.Credits(w.key), now) + [deadline])
      else s'
  }

  function RetireKeys(s: LinkState, id: Id, keys: seq<Key>, unanswered: bool, deadline: Time, now: Time): LinkState {
    if keys == [] then s
    else
      RetireKey(RetireKeys(s, id, keys[..|keys| - 1], unanswered, deadline, now),
                Waiter(id, keys[|keys| - 1]), unanswered, deadline, now)
  }

  function RetireSpec(s: LinkState, id: Id, keys: seq<Key>, timeout: Time, now: Time): LinkState {
    RetireKeys(s, id, keys, Unanswered(s, id, keys), now + timeout, now)
  }

  // ------------------------------------------------------------------ the object

  class UbxLink {
    var waiters: map<Key, seq<Waiter>>
    var robbed: set<Waiter>
    var answered: map<Waiter, Reply>
    var stale: map<Key, seq<Time>>

    ghost function State(): LinkState
      reads this
    {
      LinkState(waiters, robbed, answered, stale)
    }

    /** No empty list of credits is ever kept. */
    ghost predicate Valid()
      reads this
    {
      forall k | k in stale :: stale[k] != []
    }

    constructor ()
      ensures Valid() && State() == LinkState(map[], {}, map[], map[])
    {
      waiters, robbed, answered, stale := map[], {}, map[], map[];
    }

    /** Drop the lapsed credits of `key`; say whether a live one is left. */
    method Purge(key: Key, now: Time) returns (live: bool)
      requires Valid()
      modifies this`stale
      ensures Valid()
      ensures live <==> Lapse(old(State()).Credits(key), now) != []
      ensures State() == old(State()).SetCredits(key, Lapse(old(State()).Credits(key), now))
    {
      if key !in stale {
        return false;
      }
      var deadlines := stale[key];
      while deadlines != [] && deadlines[0] <= now
        invariant Lapse(deadlines, now) == Lapse(old(stale)[key], now)
        decreases |deadlines|
      {
        deadlines := deadlines[1..];
      }
      if deadlines == [] {
        stale := stale - {key};
        return false;
      }
      stale := stale[key := deadlines];
      return true;
    }

    method SpendStale(key: Key, now: Time) returns (spent: bool)
      requires Valid()
      modifies this`stale
      ensures Valid()
      ensures var live := Lapse(old(State()).Credits(key), now);
        (spent <==> live != [])
        && State() == old(State()).SetCredits(key, if live == [] then [] else live[1..])
    {
      var live := Purge(key, now);
      if !live {
        return false;
      }
      var deadlines := stale[key][1..];
      if deadlines == [] {
        stale := stale - {key};
      } else {
        stale := stale[key := deadlines];
      }
      return true;
    }

    method Deliver(reply: Reply, now: Time)
      requires Valid()
      modifies this
      ensures Valid() && State() == DeliverSpec(old(State()), reply, now)
    {
      var key := reply.key;
      var queue := if key in waiters then waiters[key] else [];
      var spent := SpendStale(key, now);
      if spent {
        if queue != [] {
          robbed := robbed + {queue[0]};
        }
        return;
      }
      if queue != [] {
        var waiter := queue[0];
        waiters := waiters[key := queue[1..]];
        if waiter !in answered {
          answered := answered[waiter := reply];
        }
      }
    }

    /** The first half of `_request`. */
    method Register(id: Id, keys: seq<Key>)
      requires Valid()
      modifies this`waiters
      ensures Valid() && State() == RegisterSpec(old(State()), id, keys)
    {
      for i := 0 to |keys|
        invariant Valid() && State() == RegisterSpec(old(State()), id, keys[..i])
      {
        var queue := if keys[i] in waiters then waiters[keys[i]] else [];
        waiters := waiters[keys[i] := queue + [Waiter(id, keys[i])]];
        assert keys[..i + 1][..i] == keys[..i];
      }
      assert keys[..|keys|] == keys;
    }

    /** The loop body of `_retire`. */
    method RetireWaiter(waiter: Waiter, unanswered: bool, timeout: Time, now: Time)
      requires Valid()
      modifies this`waiters, this`stale
      ensures Valid() && State() == RetireKey(old(State()), waiter, unanswered, now + timeout, now)
    {
      hide Lapse, Remove, IsAckKey;
      if waiter in answered {
        return;
      }
      var key := waiter.key;
      if key in waiters {
        waiters := waiters[key := Remove(waiters[key], waiter)];
      }
      if unanswered && waiter !in robbed && IsAckKey(key) {
        var live := Purge(key, now);
        var deadlines := if live then stale[key] else [];
        stale := stale[key := deadlines + [now + timeout]];
      }
    }

    method Retire(id: Id, keys: seq<Key>, timeout: Time, now: Time)
      requires Valid()
      modifies this`waiters, this`stale
      ensures Valid() && State() == RetireSpec(old(State()), id, keys, timeout, now)
    {
      var unanswered := forall k | k in keys :: Waiter(id, k) !in answered;
      for i := 0 to |keys|
        invariant Valid()
        invariant State() == RetireKeys(old(State()), id, keys[..i], unanswered, now + timeout, now)
      {
        RetireWaiter(Waiter(id, keys[i]), unanswered, timeout, now);
        assert keys[..i + 1][..i] == keys[..i];
      }
      assert keys[..|keys|] == keys;
    }
  }
}
