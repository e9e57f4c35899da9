/** Writing and reading back the configuration (`core/receiver.py`): rejected keys are isolated by
    halving, against a receiver that applies a CFG-VALSET wholly or not at all. */
module Config {
  type Key = string
  type Value = int
  datatype Item = Item(key: Key, value: Value)

  const MAX_KEYS_PER_VALSET: nat := 64

  // ------------------------------------------------------------------ what ought to come of a list of items

  function Good(items: seq<Item>, bad: set<Item>): seq<Item> {
    if items == [] then []
    else Good(items[..|items| - 1], bad) + if items[|items| - 1] in bad then [] else [items[|items| - 1]]
  }

  /** The keys of the items a receiver refuses, in order. */
  function Refused(items: seq<Item>, bad: set<Item>): seq<Key> {
    if items == [] then []
    else Refused(items[..|items| - 1], bad) + if items[|items| - 1] in bad then [items[|items| - 1].key] else []
  }

  function Applied(held: map<Key, Value>, items: seq<Item>): map<Key, Value> {
    if items == [] then held
    else Applied(held, items[..|items| - 1])[items[|items| - 1].key := items[|items| - 1].value]
  }

  predicate AllGood(items: seq<Item>, bad: set<Item>) {
    forall it | it in items :: it !in bad
  }

  lemma {:induction false} ListsSplit(a: seq<Item>, b: seq<Item>, bad: set<Item>)
    ensures Good(a + b, bad) == Good(a, bad) + Good(b, bad)
    ensures Refused(a + b, bad) == Refused(a, bad) + Refused(b, bad)
    decreases |b|
  {
    if b == [] {
      assert a + b == a;
    } else {
      var init, last := b[..|b| - 1], b[|b| - 1];
      ListsSplit(a, init, bad);
      assert (a + b)[..|a + b| - 1] == a + init;
      var good: seq<Item>, key: seq<Key> := if last in bad then [] else [last], if last in bad then [last.key] else [];
      assert (Good(a, bad) + Good(init, bad)) + good == Good(a, bad) + (Good(init, bad) + good);
      assert (Refused(a, bad) + Refused(init, bad)) + key == Refused(a, bad) + (Refused(init, bad) + key);
    }
  }

  lemma {:induction false} AppliedSplit(held: map<Key, Value>, a: seq<Item>, b: seq<Item>)
    ensures Applied(held, a + b) == Applied(Applied(held, a), b)
    decreases |b|
  {
    if b == [] {
      assert a + b == a;
    } else {
      AppliedSplit(held, a, b[..|b| - 1]);
      assert (a + b)[..|a + b| - 1] == a + b[..|b| - 1];
    }
  }

  lemma GoodSplit(held: map<Key, Value>, a: seq<Item>, b: seq<Item>, bad: set<Item>)
    ensures Applied(held, Good(a + b, bad)) == Applied(Applied(held, Good(a, bad)), Good(b, bad))
    ensures Refused(a + b, bad) == Refused(a, bad) + Refused(b, bad)
  {
    ListsSplit(a, b, bad);
    AppliedSplit(held, Good(a, bad), Good(b, bad));
  }

  lemma {:induction false} WhenAllGood(items: seq<Item>, bad: set<Item>)
    ensures AllGood(items, bad) <==> Refused(items, bad) == []
    ensures AllGood(items, bad) ==> Good(items, bad) == items
  {
    if items != [] {
      var init, last := items[..|items| - 1], items[|items| - 1];
      WhenAllGood(init, bad);
      assert items == init + [last];
      assert last in items && forall it | it in init :: it in items;
    }
  }

  predicate LastGood(items: seq<Item>, bad: set<Item>, k: Key, i: int) {
    0 <= i < |items| && items[i].key == k && items[i] !in bad
    && forall j | i < j < |items| :: items[j].key == k ==> items[j] in bad
  }

  lemma AppliedLast(held: map<Key, Value>, items: seq<Item>, it: Item)
    ensures Applied(held, items + [it]) == Applied(held, items)[it.key := it.value]
    ensures Applied(held, items + []) == Applied(held, items)
  {
    assert (items + [it])[..|items|] == items && items + [] == items;
  }

  lemma GoodNext(items: seq<Item>, bad: set<Item>, held: map<Key, Value>)
    requires items != []
    ensures var init, last := items[..|items| - 1], items[|items| - 1];
      var before := Applied(held, Good(init, bad));
      Applied(held, Good(items, bad)) == if last in bad then before else before[last.key := last.value]
  {
    AppliedLast(held, Good(items[..|items| - 1], bad), items[|items| - 1]);
  }

  /** A key that no good item names keeps its value. */
  lemma {:induction false} Untouched(held: map<Key, Value>, items: seq<Item>, bad: set<Item>, k: Key)
    requires forall it | it in items && it.key == k :: it in bad
    ensures var after := Applied(held, Good(items, bad));
      (k in after <==> k in held) && (k in held ==> after[k] == held[k])
  {
    if items != [] {
      var init, last := items[..|items| - 1], items[|items| - 1];
      assert last in items && forall it | it in init :: it in items;
      Untouched(held, init, bad, k);
      AppliedLast(held, Good(init, bad), last);
    }
  }

  lemma LastGoodBefore(items: seq<Item>, bad: set<Item>, k: Key, i: nat)
    requires LastGood(items, bad, k, i) && i < |items| - 1
    ensures LastGood(items[..|items| - 1], bad, k, i) && (items[|items| - 1].key == k ==> items[|items| - 1] in bad)
  {
  }

  /** A key that good items name has the value of the last of them. */
  lemma {:induction false} LastGoodIsSet(held: map<Key, Value>, items: seq<Item>, bad: set<Item>, k: Key, i: nat)
    requires LastGood(items, bad, k, i)
    ensures var after := Applied(held, Good(items, bad)); k in after && after[k] == items[i].value
  {
    hide Applied, Good;
    var init := items[..|items| - 1];
    GoodNext(items, bad, held);
    if i < |items| - 1 {
      LastGoodBefore(items, bad, k, i);
      LastGoodIsSet(held, init, bad, k, i);
    }
  }

  // ------------------------------------------------------------------ how many writes a bisection takes

  function Pow2(e: nat): nat { if e == 0 then 1 else 2 * Pow2(e - 1) }

  /** How often a list can be halved. */
  function Halvings(n: nat): nat
    requires n >= 1
  {
    if n == 1 then 0 else 1 + Halvings(n - n / 2)
  }

  /** It is the logarithm to base 2, rounded up. */
  lemma {:induction false} HalvingsIsLog(n: nat)
    requires n >= 1
    ensures n <= Pow2(Halvings(n))
    ensures n >= 2 ==> Pow2(Halvings(n) - 1) < n
  {
    if n >= 2 {
      HalvingsIsLog(n - n / 2);
    }
  }

  lemma {:induction false} HalvingsGrows(m: nat, n: nat)
    requires 1 <= m <= n
    ensures Halvings(m) <= Halvings(n)
    decreases n
  {
    if m >= 2 {
      HalvingsGrows(m - m / 2, n - n / 2);
    }
  }

  function Worst(n: nat, k: nat): nat
    requires n >= 1
  {
    2 * k * Halvings(n)
  }

  lemma Bounded(left: nat, right: nat, less: nat, h: nat)
    requires less <= h && left + right >= 1
    ensures 2 + 2 * left * less + 2 * right * h <= 2 * (left + right) * (h + 1)
  {
    var gap := h - less;
    assert left * gap >= 0;
    assert left * h == left * less + left * gap;
    assert (left + right) * (h + 1) == left * h + right * h + left + right;
  }

  /** Two writes and what the refused halves take stay within the bound. */
  lemma HalvesWithinBound(n: nat, left: nat, right: nat)
    requires n >= 2 && left + right >= 1
    ensures 2 + Worst(n / 2, left) + Worst(n - n / 2, right) <= Worst(n, left + right)
  {
    HalvingsGrows(n / 2, n - n / 2);
    var less, h := Halvings(n / 2), Halvings(n - n / 2);
    assert Halvings(n) == h + 1;
    hide Halvings;
    Bounded(left, right, less, h);
  }

  lemma SixHalvings()
    ensures Halvings(MAX_KEYS_PER_VALSET) == 6
  {
    assert Halvings(64) == 1 + Halvings(32) && Halvings(32) == 1 + Halvings(16) && Halvings(16) == 1 + Halvings(8);
    assert Halvings(8) == 1 + Halvings(4) && Halvings(4) == 1 + Halvings(2) && Halvings(2) == 1;
  }

  // ------------------------------------------------------------------ the receiver and its link

  datatype Answer = Values(values: map<Key, Value>) | Nak | NoData

  /** All values that the answers gave; one given twice is the same, or the later. */
  function Given(answers: seq<Answer>): map<Key, Value> {
    if answers == [] then map[]
    else
      var last := answers[|answers| - 1];
      Given(answers[..|answers| - 1]) + if last.Values? then last.values else map[]
  }

  class Link {
    const bad: set<Item>  // what the receiver refuses to be set
    const known: set<Key> // the keys it can be asked for
    var held: map<Key, Value>
    var valsets: nat      // the CFG-VALSETs sent
    ghost var answers: seq<Answer> // to the CFG-VALGETs

    constructor (bad: set<Item>, known: set<Key>, held: map<Key, Value>)
      ensures this.bad == bad && this.known == known && this.held == held && valsets == 0
      ensures answers == []
    {
      this.bad, this.known, this.held, valsets, answers := bad, known, held, 0, [];
    }

    /** A CFG-VALSET is applied as a whole, or refused as a whole. */
    method Valset(items: seq<Item>) returns (ack: bool)
      modifies this`held, this`valsets
      ensures valsets == old(valsets) + 1 && ack == AllGood(items, bad)
      ensures held == if ack then Applied(old(held), items) else old(held)
    {
      valsets := valsets + 1;
      ack := forall it | it in items :: it !in bad;
      if ack {
        var now := held;
        for i := 0 to |items|
          invariant now == Applied(held, items[..i])
        {
          assert items[..i + 1][..i] == items[..i];
          now := now[items[i].key := items[i].value];
        }
        assert items[..|items|] == items;
        held := now;
      }
    }

    /** The answer to a CFG-VALGET: a refusal if any key is unknown; else an ACK, with data that is true
        but may not be the data asked for (another request's late reply), or without any. */
    method Valget(keys: seq<Key>) returns (a: Answer)
      modifies this`answers
      ensures answers == old(answers) + [a]
      ensures a.Nak? <==> exists k | k in keys :: k !in known
      ensures a.Values? ==> forall k | k in a.values :: k in held && a.values[k] == held[k]
    {
      if exists k | k in keys :: k !in known {
        a := Nak;
      } else if * {
        a := NoData;
      } else {
        var some: set<Key> := *;
        a := Values(map k | k in held && k in some :: held[k]);
      }
      answers := answers + [a];
    }
  }

  // ------------------------------------------------------------------ the controller

  lemma OneRefused(held: map<Key, Value>, it: Item, bad: set<Item>)
    requires !AllGood([it], bad)
    ensures Refused([it], bad) == [it.key] && Applied(held, Good([it], bad)) == held
  {
    assert [it][..0] == [];
  }

  /** One round of the loop over the two halves. */
  method SetHalf(link: Link, half: seq<Item>) returns (rejected: seq<Key>)
    requires half != []
    modifies link`held, link`valsets
    ensures rejected == Refused(half, link.bad)
    ensures link.held == Applied(old(link.held), Good(half, link.bad))
    ensures link.valsets - old(link.valsets) <= 1 + Worst(|half|, |rejected|)
    decreases |half|, 1
  {
    hide Applied, Halvings, Worst, Good, Refused, AllGood;
    WhenAllGood(half, link.bad);
    var ack := link.Valset(half);
    rejected := [];
    if !ack {
      rejected := Bisect(link, half);
    }
  }

  /** Isolate what is refused within a list that was refused as a whole: exactly the bad keys come back,
      in order, and all the rest is set. */
  method Bisect(link: Link, items: seq<Item>) returns (rejected: seq<Key>)
    requires items != [] && !AllGood(items, link.bad)
    modifies link`held, link`valsets
    ensures rejected == Refused(items, link.bad)
    ensures link.held == Applied(old(link.held), Good(items, link.bad))
    ensures link.valsets - old(link.valsets) <= Worst(|items|, |rejected|)
    decreases |items|, 0
  {
    hide Applied, Halvings, Worst, Good, Refused, AllGood;
    if |items| == 1 {
      assert items == [items[0]];
      OneRefused(link.held, items[0], link.bad);
      return [items[0].key];
    }
    var mid := |items| / 2;
    var left, right := items[..mid], items[mid..];
    assert left + right == items;
    GoodSplit(link.held, left, right, link.bad);
    WhenAllGood(items, link.bad);
    var first := SetHalf(link, left);
    var second := SetHalf(link, right);
    rejected := first + second;
    HalvesWithinBound(|items|, |first|, |second|);
  }

  lemma NothingToDo(held: map<Key, Value>, bad: set<Item>)
    ensures Refused([], bad) == [] && Applied(held, Good([], bad)) == held
  {
  }

  function Chunks(n: nat): nat {
    (n + (MAX_KEYS_PER_VALSET - 1)) / MAX_KEYS_PER_VALSET
  }

  /** The end of a chunk, and how many chunks there are up to it. */
  function ChunkEnd(i: nat, n: nat): (end: nat)
    requires i < n
    ensures i < end <= n && end - i <= MAX_KEYS_PER_VALSET
    ensures i % MAX_KEYS_PER_VALSET == 0 ==> Chunks(end) == Chunks(i) + 1
    ensures i % MAX_KEYS_PER_VALSET == 0 ==> end == n || end % MAX_KEYS_PER_VALSET == 0
  {
    if i + MAX_KEYS_PER_VALSET < n then i + MAX_KEYS_PER_VALSET else n
  }

  lemma ChunkBound(n: nat, k: nat)
    requires 1 <= n <= MAX_KEYS_PER_VALSET
    ensures Worst(n, k) <= 12 * k
  {
    HalvingsGrows(n, MAX_KEYS_PER_VALSET);
    SixHalvings();
  }

  /** Of a list of any length: the bad keys come back, in order, all else is set, and every refused key
      costs at most twelve writes more. */
  method ApplyWithBisect(link: Link, items: seq<Item>) returns (rejected: seq<Key>)
    modifies link`held, link`valsets
    ensures rejected == Refused(items, link.bad)
    ensures link.held == Applied(old(link.held), Good(items, link.bad))
    ensures link.valsets - old(link.valsets) <= Chunks(|items|) + 12 * |rejected|
  {
    hide Applied, Halvings, Worst, Refused, Good, AllGood;
    rejected := [];
    NothingToDo(link.held, link.bad);
    var i := 0;
    while i < |items|
      invariant i <= |items| && (i == |items| || i % MAX_KEYS_PER_VALSET == 0)
      invariant rejected == Refused(items[..i], link.bad)
      invariant link.held == Applied(old(link.held), Good(items[..i], link.bad))
      invariant link.valsets - old(link.valsets) <= Chunks(i) + 12 * |rejected|
    {
      var end := ChunkEnd(i, |items|);
      var chunk := items[i..end];
      assert items[..i] + chunk == items[..end];
      GoodSplit(old(link.held), items[..i], chunk, link.bad);
      WhenAllGood(chunk, link.bad);
      ChunkBound(|chunk|, |Refused(chunk, link.bad)|);
      var ack := link.Valset(chunk);
      if !ack {
        var r := Bisect(link, chunk);
        rejected := rejected + r;
      }
      i := end;
    }
    assert items[..|items|] == items;
  }

  datatype Reading = Held(value: Value) | NotRead

  function Read(result: map<Key, Value>, k: Key): Reading {
    if k in result then Held(result[k]) else NotRead
  }

  lemma OneMoreAnswer(answers: seq<Answer>, a: Answer)
    ensures Given(answers + [a]) == Given(answers) + if a.Values? then a.values else map[]
  {
    assert (answers + [a])[..|answers|] == answers;
  }

  lemma NoAnswerYet(answers: seq<Answer>)
    ensures answers[|answers|..] == [] && Given([]) == map[]
  {
  }

  /** Isolate unknown keys one by one. */
  method ReadOneByOne(link: Link, names: seq<Key>, result0: map<Key, Value>, lost0: set<Key>, ghost from: nat)
    returns (result: map<Key, Value>, lost: set<Key>)
    requires forall k | k in result0 :: k in link.held && result0[k] == link.held[k]
    requires from <= |link.answers| && result0 == Given(link.answers[from..])
    modifies link`answers
    ensures old(link.answers) <= link.answers && result == Given(link.answers[from..])
    ensures result0.Keys <= result.Keys && lost0 <= lost
    ensures forall k | k in result :: k in link.held && result[k] == link.held[k]
    ensures forall k | k in names && k !in result :: k in lost || k !in link.known
    ensures forall k | k in lost && k !in lost0 :: k in names && k in link.known
  {
    hide Given;
    result, lost := result0, lost0;
    for i := 0 to |names|
      invariant old(link.answers) <= link.answers && result == Given(link.answers[from..])
      invariant result0.Keys <= result.Keys && lost0 <= lost
      invariant forall k | k in result :: k in link.held && result[k] == link.held[k]
      invariant forall k | k in names[..i] && k !in result :: k in lost || k !in link.known
      invariant forall k | k in lost && k !in lost0 :: k in names && k in link.known
    {
      var name := names[i];
      assert names[..i + 1] == names[..i] + [name];
      ghost var before := link.answers;
      var one := link.Valget([name]);
      OneMoreAnswer(before[from..], one);
      assert link.answers[from..] == before[from..] + [one];
      match one
      case NoData => lost := lost + {name};
      case Nak =>
      case Values(values) =>
        result := result + values;
        if name !in values {
          lost := lost + {name};
        }
    }
    assert names[..|names|] == names;
  }

  /** Read keys back. What is read is all that was answered, and true; a key that is not read was refused,
      or is told apart as unheard: known to the receiver, but its answer was lost. */
  method Readback(link: Link, keys: seq<Key>) returns (result: map<Key, Value>, lost: set<Key>)
    modifies link`answers
    ensures old(link.answers) <= link.answers && result == Given(link.answers[|old(link.answers)|..])
    ensures forall k | k in result :: k in link.held && result[k] == link.held[k]
    ensures forall k | k in keys && k !in result :: (k in lost <==> k in link.known)
    ensures forall k | k in lost :: k in keys && k in link.known
  {
    hide Given;
    ghost var from := |link.answers|;
    NoAnswerYet(link.answers);
    result, lost := map[], {};
    var i := 0;
    while i < |keys|
      invariant i <= |keys|
      invariant old(link.answers) <= link.answers && result == Given(link.answers[from..])
      invariant forall k | k in result :: k in link.held && result[k] == link.held[k]
      invariant forall k | k in keys[..i] && k !in result :: k in lost <==> k in link.known
      invariant forall k | k in lost :: k in keys && k in link.known
    {
      var end := ChunkEnd(i, |keys|);
      var names := keys[i..end];
      assert keys[..i] + names == keys[..end];
      assert forall k | k in names :: k in keys;
      ghost var before := link.answers;
      var got := link.Valget(names);
      OneMoreAnswer(before[from..], got);
      assert link.answers[from..] == before[from..] + [got];
      if got.Values? {
        result := result + got.values;
        lost := lost + set k | k in names && k !in got.values;
      } else {
        result, lost := ReadOneByOne(link, names, result, lost, from);
      }
      i := end;
    }
    assert keys[..|keys|] == keys;
  }

  // ------------------------------------------------------------------ writing only what differs

  function KeysOf(items: seq<Item>): seq<Key> {
    if items == [] then [] else KeysOf(items[..|items| - 1]) + [items[|items| - 1].key]
  }

  function Differing(items: seq<Item>, current: map<Key, Value>): seq<Item> {
    if items == [] then []
    else
      var last := items[|items| - 1];
      Differing(items[..|items| - 1], current) + if Read(current, last.key) == Held(last.value) then [] else [last]
  }

  predicate DistinctKeys(items: seq<Item>) {
    forall i, j | 0 <= i < j < |items| :: items[i].key != items[j].key
  }

  /** The value of the last accepted item of a key. */
  function LastGoodValue(items: seq<Item>, bad: set<Item>, k: Key): Reading {
    if items == [] then NotRead
    else
      var last := items[|items| - 1];
      if last.key == k && last !in bad then Held(last.value) else LastGoodValue(items[..|items| - 1], bad, k)
  }

  lemma {:induction false} AppliedAt(held: map<Key, Value>, items: seq<Item>, bad: set<Item>, k: Key)
    ensures var v := LastGoodValue(items, bad, k);
      Read(Applied(held, Good(items, bad)), k) == if v.Held? then v else Read(held, k)
    decreases |items|
  {
    if items == [] {
      NothingToDo(held, bad);
    } else {
      AppliedAt(held, items[..|items| - 1], bad, k);
      GoodNext(items, bad, held);
      hide Applied, Good;
    }
  }

  lemma SameReadings(a: map<Key, Value>, b: map<Key, Value>)
    requires forall k: Key :: Read(a, k) == Read(b, k)
    ensures a == b
  {
    forall k: Key
      ensures (k in a <==> k in b) && (k in a ==> a[k] == b[k])
    {
      assert Read(a, k) == Read(b, k);
    }
  }

  /** A key whose last accepted item asks for what was read, after an accepted item that did not. */
  predicate Unsettled(items: seq<Item>, current: map<Key, Value>, bad: set<Item>, k: Key) {
    LastGoodValue(items, bad, k).Held? && LastGoodValue(items, bad, k) == Read(current, k)
    && exists it | it in items :: it.key == k && it !in bad && Held(it.value) != Read(current, k)
  }

  lemma {:induction false} DifferingValue(items: seq<Item>, current: map<Key, Value>, bad: set<Item>, k: Key)
    ensures var d, all := LastGoodValue(Differing(items, current), bad, k), LastGoodValue(items, bad, k);
      (d.NotRead? <==> forall it | it in items && it.key == k && it !in bad :: Held(it.value) == Read(current, k))
      && (d.Held? ==> d != Read(current, k))
      && (all.Held? && all != Read(current, k) ==> d == all)
      && (all.NotRead? ==> d.NotRead?)
    decreases |items|
  {
    if items != [] {
      var init, last := items[..|items| - 1], items[|items| - 1];
      DifferingValue(init, current, bad, k);
      var d := Differing(init, current);
      assert (d + [last])[..|d|] == d && d + [] == d;
      assert forall it :: it in items <==> it in init || it == last;
      if last.key == k && last !in bad && Held(last.value) != Read(current, k) {
        assert last in items;
      }
    }
  }

  lemma SkippingAt(held: map<Key, Value>, current: map<Key, Value>, items: seq<Item>, bad: set<Item>, k: Key)
    requires forall x | x in current :: x in held && current[x] == held[x]
    ensures Read(Applied(held, Good(Differing(items, current), bad)), k) == Read(Applied(held, Good(items, bad)), k)
      <==> !Unsettled(items, current, bad, k)
  {
    AppliedAt(held, items, bad, k);
    AppliedAt(held, Differing(items, current), bad, k);
    DifferingValue(items, current, bad, k);
    hide Applied, Good, Differing, LastGoodValue;
    assert Read(current, k).Held? ==> Read(held, k) == Read(current, k);
  }

  /** Leaving out what already holds changes nothing in the end if and only if no key is unsettled. */
  lemma SkippingExactly(held: map<Key, Value>, current: map<Key, Value>, items: seq<Item>, bad: set<Item>)
    requires forall k | k in current :: k in held && current[k] == held[k]
    ensures Applied(held, Good(Differing(items, current), bad)) == Applied(held, Good(items, bad))
      <==> forall k: Key :: !Unsettled(items, current, bad, k)
  {
    hide Applied, Good, Differing, Unsettled;
    var some, all := Applied(held, Good(Differing(items, current), bad)), Applied(held, Good(items, bad));
    forall k: Key
      ensures Read(some, k) == Read(all, k) <==> !Unsettled(items, current, bad, k)
    {
      SkippingAt(held, current, items, bad, k);
    }
    if forall k: Key :: !Unsettled(items, current, bad, k) {
      SameReadings(some, all);
    }
  }

  /** A boundary that no profile comes near: a key set to 2 and back to 1, which it holds already. The item
      that sets it back is left out. */
  lemma TwiceNamedIsUnsettled(k: Key)
    ensures var held, items := map[k := 1], [Item(k, 2), Item(k, 1)];
      Unsettled(items, held, {}, k)
      && Applied(held, Good(Differing(items, held), {})) == map[k := 2]
      && Applied(held, Good(items, {})) == map[k := 1]
  {
    var held, items := map[k := 1], [Item(k, 2), Item(k, 1)];
    assert Item(k, 2) in items;
    assert items[..1] == [Item(k, 2)] && items[..1][..0] == [];
    assert Good(items[..1], {}) == items[..1] == Differing(items[..1], held);
    assert Good(items, {}) == items && Differing(items, held) == items[..1];
    assert Applied(held, items[..1]) == map[k := 2];
  }

  lemma {:induction false} OnlyValue(items: seq<Item>, bad: set<Item>, k: Key, i: nat)
    requires DistinctKeys(items) && i < |items| && items[i].key == k && items[i] !in bad
    ensures LastGoodValue(items, bad, k) == Held(items[i].value)
    decreases |items|
  {
    if i < |items| - 1 {
      assert items[i].key != items[|items| - 1].key;
      OnlyValue(items[..|items| - 1], bad, k, i);
    }
  }

  /** In particular where no key is named twice. */
  lemma DistinctIsSettled(items: seq<Item>, current: map<Key, Value>, bad: set<Item>, k: Key)
    requires DistinctKeys(items)
    ensures !Unsettled(items, current, bad, k)
  {
    if Unsettled(items, current, bad, k) {
      var it :| it in items && it.key == k && it !in bad && Held(it.value) != Read(current, k);
      var i :| 0 <= i < |items| && items[i] == it;
      OnlyValue(items, bad, k, i);
      assert false;
    }
  }

  /** What is settled by all that the receiver holds is settled by what was read of it. */
  lemma SettledByWhatIsRead(items: seq<Item>, held: map<Key, Value>, current: map<Key, Value>, bad: set<Item>, k: Key)
    requires (forall x | x in current :: x in held && current[x] == held[x]) && !Unsettled(items, held, bad, k)
    ensures !Unsettled(items, current, bad, k)
  {
    assert Read(current, k).Held? ==> Read(held, k) == Read(current, k);
  }

  lemma {:induction false} NothingDiffers(items: seq<Item>, current: map<Key, Value>)
    requires forall it | it in items :: Read(current, it.key) == Held(it.value)
    ensures Differing(items, current) == []
    decreases |items|
  {
    if items != [] {
      var init, last := items[..|items| - 1], items[|items| - 1];
      assert last in items && forall it | it in init :: it in items;
      NothingDiffers(init, current);
    }
  }

  lemma {:induction false} KeysInOrder(items: seq<Item>)
    ensures forall it | it in items :: it.key in KeysOf(items)
    decreases |items|
  {
    if items != [] {
      var init, last := items[..|items| - 1], items[|items| - 1];
      KeysInOrder(init);
      assert init + [last] == items;
      assert forall it | it in items :: it in init || it == last;
    }
  }

  method PendingItems(core: seq<Item>, current: map<Key, Value>) returns (pending: seq<Item>)
    ensures pending == Differing(core, current)
  {
    pending := [];
    for i := 0 to |core|
      invariant pending == Differing(core[..i], current)
    {
      assert core[..i + 1][..i] == core[..i];
      if Read(current, core[i].key) != Held(core[i].value) {
        pending := pending + [core[i]];
      }
    }
    assert core[..|core|] == core;
  }

  lemma SkippedHarmlessly(held: map<Key, Value>, current: map<Key, Value>, items: seq<Item>, bad: set<Item>)
    requires forall k | k in current :: k in held && current[k] == held[k]
    ensures (forall k: Key :: !Unsettled(items, held, bad, k)) || DistinctKeys(items) ==>
      Applied(held, Good(Differing(items, current), bad)) == Applied(held, Good(items, bad))
  {
    hide Applied, Good, Differing, Unsettled, DistinctKeys;
    SkippingExactly(held, current, items, bad);
    if forall k: Key :: !Unsettled(items, held, bad, k) {
      forall k: Key
        ensures !Unsettled(items, current, bad, k)
      {
        SettledByWhatIsRead(items, held, current, bad, k);
      }
    } else if DistinctKeys(items) {
      forall k: Key
        ensures !Unsettled(items, current, bad, k)
      {
        DistinctIsSettled(items, current, bad, k);
      }
    }
  }

  /** `a` is `b` with some left out. */
  predicate Among(a: seq<Key>, b: seq<Key>) {
    a == [] || (b != [] && (Among(a, b[..|b| - 1])
                            || (a[|a| - 1] == b[|b| - 1] && Among(a[..|a| - 1], b[..|b| - 1]))))
  }

  lemma RefusedNext(items: seq<Item>, last: Item, bad: set<Item>)
    ensures Refused(items + [last], bad) == Refused(items, bad) + if last in bad then [last.key] else []
  {
    assert (items + [last])[..|items|] == items;
  }

  lemma AmongNext(a: seq<Key>, b: seq<Key>, k: Key)
    requires Among(a, b)
    ensures Among(a, b + [k]) && Among(a + [k], b + [k])
  {
    assert (b + [k])[..|b|] == b && (a + [k])[..|a|] == a;
  }

  lemma OneMoreAmong(a: seq<Key>, b: seq<Key>, k: Key, kept: bool, refused: bool)
    requires Among(a, b)
    ensures Among(if kept then a + (if refused then [k] else []) else a, b + if refused then [k] else [])
  {
    assert a + [] == a && b + [] == b;
    AmongNext(a, b, k);
  }

  /** The refused items that were written, in order. */
  lemma {:induction false} RefusedAmong(items: seq<Item>, current: map<Key, Value>, bad: set<Item>)
    ensures Among(Refused(Differing(items, current), bad), Refused(items, bad))
    decreases |items|
  {
    if items != [] {
      var init, last := items[..|items| - 1], items[|items| - 1];
      var d := Differing(init, current);
      RefusedAmong(init, current, bad);
      var kept := Read(current, last.key) != Held(last.value);
      assert init + [last] == items && d + [] == d;
      assert Differing(items, current) == if kept then d + [last] else d;
      hide Differing;
      RefusedNext(init, last, bad);
      RefusedNext(d, last, bad);
      var a, b := Refused(d, bad), Refused(init, bad);
      hide Refused;
      OneMoreAmong(a, b, last.key, kept, last in bad);
    }
  }

  /** They are those whose value was not read as held. */
  lemma {:induction false} RefusedIsReported(items: seq<Item>, current: map<Key, Value>, bad: set<Item>, it: Item)
    requires it in items && it in bad && Read(current, it.key) != Held(it.value)
    ensures it.key in Refused(Differing(items, current), bad)
    decreases |items|
  {
    var init, last := items[..|items| - 1], items[|items| - 1];
    var d := Differing(init, current);
    RefusedNext(d, last, bad);
    assert d + [] == d;
    if it in init {
      RefusedIsReported(init, current, bad, it);
    } else {
      assert it == last;
    }
    hide Refused;
  }

  lemma ReadIsHeld(current: map<Key, Value>, held: map<Key, Value>, items: seq<Item>)
    requires forall x | x in current :: x in held && current[x] == held[x]
    ensures forall it | it in items && Read(held, it.key) != Held(it.value) :: Read(current, it.key) != Held(it.value)
  {
  }

  /** Bring the receiver to the core configuration: the outcome is that of writing all of it, whatever
      the read-back heard - if no key is unsettled, which none is where each is named once. Nothing is
      written where it agrees already and every key was heard. Every item refused is reported, in the order
      of the list, unless the receiver was heard to hold its value. */
  method ApplyCore(link: Link, core: seq<Item>) returns (rejected: seq<Key>, ghost lost: set<Key>)
    modifies link
    ensures (forall k: Key :: !Unsettled(core, old(link.held), link.bad, k)) ==>
      link.held == Applied(old(link.held), Good(core, link.bad))
    ensures DistinctKeys(core) ==> link.held == Applied(old(link.held), Good(core, link.bad))
    ensures old(link.answers) <= link.answers
    ensures var heard := Given(link.answers[|old(link.answers)|..]);
      rejected == Refused(Differing(core, heard), link.bad)
      && forall k | k in heard :: k in old(link.held) && heard[k] == old(link.held)[k]
    ensures Among(rejected, Refused(core, link.bad))
    ensures forall it | it in core && it in link.bad && Read(old(link.held), it.key) != Held(it.value) ::
      it.key in rejected
    ensures lost <= link.known
    ensures (forall it | it in core :: it.key in link.known && it.key !in lost
              && Read(old(link.held), it.key) == Held(it.value)) ==> link.valsets == old(link.valsets) && rejected == []
  {
    hide Applied, Good, Differing, DistinctKeys, Refused, Unsettled, Among, Given;
    var current, unheard := Readback(link, KeysOf(core));
    lost := unheard;
    var pending := PendingItems(core, current);
    SkippedHarmlessly(link.held, current, core, link.bad);
    KeysInOrder(core);
    if forall it | it in core :: it.key in link.known && it.key !in lost && Read(link.held, it.key) == Held(it.value) {
      NothingDiffers(core, current);
    }
    RefusedAmong(core, current, link.bad);
    forall it | it in core && it in link.bad && Read(link.held, it.key) != Held(it.value)
      ensures it.key in Refused(pending, link.bad)
    {
      ReadIsHeld(current, link.held, core);
      RefusedIsReported(core, current, link.bad, it);
    }
    if pending == [] {
      NothingToDo(link.held, link.bad);
      return [], lost;
    }
    rejected := ApplyWithBisect(link, pending);
  }
}
