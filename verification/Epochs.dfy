/** Epoch ends in `core/statestore.py`: closed by NAV-EOE where the stream carries it, inferred from a
    changing iTOW where it does not. */
module Epochs {
  import opened Bytes
  import opened Options

  type Time = int

  const EOE_MISSED_LIMIT: nat := 2

  /** A published epoch: the iTOW it is of, and when its last frame arrived. */
  datatype Epoch = Epoch(itow: int, at: Time)

  datatype Message =
    | Nav(itow: int, isPvt: bool, at: Time) // any of EPOCH_NAV_MESSAGES
    | Eoe(itow: int, at: Time)

  datatype State = State(
    sawEoe: bool,
    eoeItow: Option<int>,
    missedEoe: nat,
    openItow: Option<int>,
    openWhole: bool,
    openMono: Time,
    published: seq<Epoch>)

  function Initial(now: Time): State {
    State(false, None, 0, None, false, now, [])
  }

  function ResetSpec(s: State): State {
    s.(openItow := None, openWhole := false, missedEoe := 0)
  }

  /** What a NAV message with another iTOW makes of the epoch that was open. */
  function CloseOpen(s: State, itow: int): State
    requires s.openItow.Some?
  {
    var closed := s.published + [Epoch(s.openItow.value, s.openMono)];
    if s.sawEoe then
      if s.openItow == s.eoeItow then s.(missedEoe := 0, openWhole := true)
      else if s.missedEoe + 1 < EOE_MISSED_LIMIT then s.(missedEoe := s.missedEoe + 1, openWhole := true)
      else s.(sawEoe := false, missedEoe := 0, openWhole := true,
              published := if s.openWhole then closed else s.published)
    else s.(openWhole := true, published := if s.openWhole then closed else s.published)
  }

  function NavSpec(s: State, itow: int, isPvt: bool, now: Time): State {
    var s' :=
      if s.openItow == Some(itow) then s
      else if s.openItow.None? then s.(openWhole := isPvt, openItow := Some(itow))
      else CloseOpen(s, itow).(openItow := Some(itow));
    s'.(openMono := now)
  }

  function EoeSpec(s: State, itow: int, now: Time): State {
    var s' := if s.sawEoe then s else ResetSpec(s.(sawEoe := true));
    s'.(eoeItow := Some(itow), missedEoe := 0, published := s'.published + [Epoch(itow, now)])
  }

  function EndOfStreamSpec(s: State): State {
    ResetSpec(
      if !s.sawEoe && s.openItow.Some? && s.openWhole
      then s.(published := s.published + [Epoch(s.openItow.value, s.openMono)]) else s)
  }

  function Step(s: State, m: Message): State {
    match m
    case Nav(itow, isPvt, at) => NavSpec(s, itow, isPvt, at)
    case Eoe(itow, at) => EoeSpec(s, itow, at)
  }

  function Run(s: State, messages: seq<Message>): State
    decreases |messages|
  {
    if messages == [] then s else Run(Step(s, messages[0]), messages[1..])
  }

  // ------------------------------------------------------------------ the object

  class StateStore {
    var sawEoe: bool
    var eoeItow: Option<int>
    var missedEoe: nat
    var openItow: Option<int>
    var openWhole: bool
    var openMono: Time
    var nowMono: Time
    var epochCount: nat
    var lastEpochMono: Time
    ghost var published: seq<Epoch>

    ghost function View(): State
      reads this
    {
      State(sawEoe, eoeItow, missedEoe, openItow, openWhole, openMono, published)
    }

    ghost predicate Valid()
      reads this
    {
      epochCount == |published| && (published != [] ==> lastEpochMono == published[|published| - 1].at)
    }

    constructor (now: Time)
      ensures Valid() && View() == Initial(now)
    {
      sawEoe, eoeItow, missedEoe := false, None, 0;
      openItow, openWhole, openMono, nowMono := None, false, now, now;
      epochCount, lastEpochMono, published := 0, now, [];
    }

    method ResetEpochInference()
      requires Valid()
      modifies this`openItow, this`openWhole, this`missedEoe
      ensures Valid() && View() == ResetSpec(old(View()))
    {
      openItow, openWhole := None, false;
      missedEoe := 0;
    }

    /** Publish the finished epoch, which is that of `itow`. */
    method CloseEpoch(ghost itow: int, now: Time)
      requires Valid()
      modifies this`epochCount, this`lastEpochMono, this`published
      ensures Valid() && published == old(published) + [Epoch(itow, now)]
    {
      epochCount := epochCount + 1;
      lastEpochMono := now;
      published := published + [Epoch(itow, now)];
    }

    method NavEoe(itow: int)
      requires Valid()
      modifies this
      ensures Valid() && nowMono == old(nowMono) && View() == EoeSpec(old(View()), itow, nowMono)
    {
      if !sawEoe {
        sawEoe := true;
        ResetEpochInference();
      }
      eoeItow := Some(itow);
      missedEoe := 0;
      CloseEpoch(itow, nowMono);
    }

    method InferEpochEnd(itow: int, isPvt: bool)
      requires Valid()
      modifies this
      ensures Valid() && nowMono == old(nowMono) && View() == NavSpec(old(View()), itow, isPvt, nowMono)
    {
      if openItow != Some(itow) {
        if openItow == None {
          openWhole := isPvt;
        } else if sawEoe {
          if openItow == eoeItow {
            missedEoe := 0;
          } else {
            missedEoe := missedEoe + 1;
            if missedEoe >= EOE_MISSED_LIMIT {
              sawEoe := false;
              missedEoe := 0;
              if openWhole {
                CloseEpoch(openItow.value, openMono);
              }
            }
          }
          openWhole := true;
        } else if openWhole {
          CloseEpoch(openItow.value, openMono);
        } else {
          openWhole := true;
        }
        openItow := Some(itow);
      }
      openMono := nowMono;
    }

    method Apply(m: Message)
      requires Valid()
      modifies this
      ensures Valid() && View() == Step(old(View()), m)
    {
      nowMono := m.at;
      match m
      case Nav(itow, isPvt, _) => InferEpochEnd(itow, isPvt);
      case Eoe(itow, _) => NavEoe(itow);
    }

    method EndOfStream()
      requires Valid()
      modifies this
      ensures Valid() && View() == EndOfStreamSpec(old(View()))
    {
      if !sawEoe && openItow.Some? && openWhole {
        CloseEpoch(openItow.value, openMono);
      }
      ResetEpochInference();
    }
  }

  // ------------------------------------------------------------------ streams of epochs

  datatype NavMessage = NavMessage(isPvt: bool, at: Time)

  /** All a receiver sends for one epoch: its NAV messages, and its NAV-EOE if that comes through. */
  datatype Block = Block(itow: int, navs: seq<NavMessage>, eoe: Option<Time>)

  function NavMessages(itow: int, navs: seq<NavMessage>): seq<Message> {
    if navs == [] then [] else [Nav(itow, navs[0].isPvt, navs[0].at)] + NavMessages(itow, navs[1..])
  }

  function Messages(b: Block): seq<Message> {
    NavMessages(b.itow, b.navs) + if b.eoe.Some? then [Eoe(b.itow, b.eoe.value)] else []
  }

  function Stream(blocks: seq<Block>): seq<Message> {
    if blocks == [] then [] else Stream(blocks[..|blocks| - 1]) + Messages(blocks[|blocks| - 1])
  }

  /** Whether the last block lacks its NAV-EOE. */
  predicate LacksEoe(blocks: seq<Block>) {
    blocks != [] && blocks[|blocks| - 1].eoe.None?
  }

  function EpochOf(b: Block): Epoch
    requires b.navs != [] || b.eoe.Some?
  {
    Epoch(b.itow, if b.eoe.Some? then b.eoe.value else b.navs[|b.navs| - 1].at)
  }

  /** The iTOW of the last block with NAV messages. */
  function LastNav(blocks: seq<Block>): Option<int> {
    if blocks == [] then None
    else
      var b := blocks[|blocks| - 1];
      if b.navs != [] then Some(b.itow) else LastNav(blocks[..|blocks| - 1])
  }

  /** No block is empty, neighbours differ in their iTOW, and so do neighbours among the blocks with NAV
      messages. */
  predicate Contiguous(blocks: seq<Block>) {
    blocks == [] ||
    var init, b := blocks[..|blocks| - 1], blocks[|blocks| - 1];
    Contiguous(init) && (b.navs != [] || b.eoe.Some?)
    && (init != [] ==> b.itow != init[|init| - 1].itow)
    && (b.navs != [] ==> LastNav(init) != Some(b.itow))
  }

  /** The iTOW of the last NAV-EOE; `before` is that of the last one before the blocks. */
  function LastEoe(before: Option<int>, blocks: seq<Block>): Option<int> {
    if blocks == [] then before
    else
      var b := blocks[|blocks| - 1];
      if b.eoe.Some? then Some(b.itow) else LastEoe(before, blocks[..|blocks| - 1])
  }

  /** Whether a NAV-EOE has come: `regime` says whether the stream was taken to carry it at the start. */
  predicate Carries(regime: bool, blocks: seq<Block>) {
    if blocks == [] then regime else blocks[|blocks| - 1].eoe.Some? || Carries(regime, blocks[..|blocks| - 1])
  }

  predicate Taken(regime: bool, before: Option<int>, blocks: seq<Block>)
    decreases |blocks|, 1
  {
    Carries(regime, blocks) && Missing(regime, before, blocks) < EOE_MISSED_LIMIT
  }

  /** The block that is open: a NAV-EOE that changes the regime closes it, any other leaves it open. */
  function OpenItow(regime: bool, before: Option<int>, blocks: seq<Block>): Option<int>
    decreases |blocks|, 1
  {
    if blocks == [] then None
    else
      var init, b := blocks[..|blocks| - 1], blocks[|blocks| - 1];
      if b.navs == [] then if Saw(regime, before, init) then OpenItow(regime, before, init) else None
      else if b.eoe.Some? && !Taken(regime, before, init) then None
      else Some(b.itow)
  }

  /** The blocks in a row, up to the last, that are taken to have missed their NAV-EOE once the next block
      opens. A block with the iTOW of the last NAV-EOE is not, whether that NAV-EOE was its own or not; a
      NAV-EOE that comes alone makes the block that was open one, its own NAV-EOE come or not. */
  function Missing(regime: bool, before: Option<int>, blocks: seq<Block>): nat
    decreases |blocks|, 0
  {
    if blocks == [] then 0
    else
      var init, b := blocks[..|blocks| - 1], blocks[|blocks| - 1];
      if b.navs == [] then
        if Saw(regime, before, init) && OpenItow(regime, before, init) !in {None, Some(b.itow)} then 1 else 0
      else if b.eoe.Some? || (Taken(regime, before, init) && LastEoe(before, init) == Some(b.itow)) then 0
      else 1 + Missing(regime, before, init)
  }

  /** Whether the stream is taken to carry NAV-EOE after the blocks, and once the next block opens. */
  predicate Saw(regime: bool, before: Option<int>, blocks: seq<Block>)
    decreases |blocks|, 1
  {
    Carries(regime, blocks) && Missing(regime, before, blocks) <= EOE_MISSED_LIMIT
  }

  /** The rule for a last block without NAV-EOE, given how many in a row missed it: published where the
      stream carries NAV-EOE, unless among the first EOE_MISSED_LIMIT - 1; and where it does not, unless the
      first block and not opened with NAV-PVT. */
  predicate ByRule(regime: bool, blocks: seq<Block>, missed: nat)
    requires blocks != []
  {
    if Carries(regime, blocks) then missed >= EOE_MISSED_LIMIT
    else |blocks| > 1 || (blocks[0].navs != [] && blocks[0].navs[0].isPvt)
  }

  /** Whether the last block, which has no NAV-EOE, is published when the next block opens. */
  predicate Counts(regime: bool, before: Option<int>, blocks: seq<Block>)
    requires blocks != []
  {
    ByRule(regime, blocks, Missing(regime, before, blocks))
  }

  /** What has been published before it opens: not the last block if that has no NAV-EOE. And so it stays
      if a NAV-EOE comes alone. */
  function Pending(blocks: seq<Block>, fates: seq<bool>): (f: seq<bool>)
    requires |fates| == |blocks|
    ensures |f| == |blocks|
  {
    if LacksEoe(blocks) then fates[..|fates| - 1] + [false] else fates
  }

  /** Which blocks are published when the next block opens. */
  function Fates(regime: bool, before: Option<int>, blocks: seq<Block>): (f: seq<bool>)
    ensures |f| == |blocks|
  {
    if blocks == [] then []
    else
      var init, b := blocks[..|blocks| - 1], blocks[|blocks| - 1];
      if b.navs == [] then Pending(init, Fates(regime, before, init)) + [true]
      else Fates(regime, before, init) + [b.eoe.Some? || Counts(regime, before, blocks)]
  }

  function Epochs(blocks: seq<Block>, fates: seq<bool>): seq<Epoch>
    requires Contiguous(blocks) && |fates| == |blocks|
  {
    if blocks == [] then []
    else
      var n := |blocks| - 1;
      Epochs(blocks[..n], fates[..n]) + if fates[n] then [EpochOf(blocks[n])] else []
  }

  function Over(regime: bool, before: Option<int>, blocks: seq<Block>): seq<Epoch>
    requires Contiguous(blocks)
  {
    Epochs(blocks, Fates(regime, before, blocks))
  }

  function Closed(regime: bool, before: Option<int>, blocks: seq<Block>): seq<Epoch>
    requires Contiguous(blocks)
  {
    Epochs(blocks, Pending(blocks, Fates(regime, before, blocks)))
  }

  lemma OneMore(regime: bool, before: Option<int>, blocks: seq<Block>)
    requires blocks != [] && Contiguous(blocks)
    ensures var init, b := blocks[..|blocks| - 1], blocks[|blocks| - 1];
      Over(regime, before, blocks) ==
        (if b.navs == [] then Closed(regime, before, init) else Over(regime, before, init))
        + (if b.eoe.Some? || Counts(regime, before, blocks) then [EpochOf(b)] else [])
      && Closed(regime, before, blocks) ==
        (if b.navs == [] then Closed(regime, before, init) else Over(regime, before, init))
        + (if b.eoe.Some? then [EpochOf(b)] else [])
  {
    var n := |blocks| - 1;
    var init, b := blocks[..n], blocks[n];
    var f := Fates(regime, before, blocks);
    assert f[..n] == if b.navs == [] then Pending(init, Fates(regime, before, init)) else Fates(regime, before, init);
    assert Pending(blocks, f)[..n] == f[..n];
  }

  lemma {:induction false} RunConcat(s: State, a: seq<Message>, b: seq<Message>)
    ensures Run(s, a + b) == Run(Run(s, a), b)
    decreases |a|
  {
    if a == [] {
      assert a + b == b;
    } else {
      assert (a + b)[1..] == a[1..] + b;
      RunConcat(Step(s, a[0]), a[1..], b);
    }
  }

  /** The NAV messages of one block beyond its first only move the time stamp. */
  lemma {:induction false} RestOfBlock(s: State, itow: int, navs: seq<NavMessage>)
    requires s.openItow == Some(itow)
    ensures Run(s, NavMessages(itow, navs)) == s.(openMono := if navs == [] then s.openMono else navs[|navs| - 1].at)
    decreases |navs|
  {
    if navs != [] {
      var m := NavMessages(itow, navs);
      assert m[1..] == NavMessages(itow, navs[1..]);
      RestOfBlock(Step(s, m[0]), itow, navs[1..]);
    }
  }

  function BlockSpec(s: State, b: Block): State {
    var s' :=
      if b.navs == [] then s
      else NavSpec(s, b.itow, b.navs[0].isPvt, b.navs[0].at).(openMono := b.navs[|b.navs| - 1].at);
    if b.eoe.Some? then EoeSpec(s', b.itow, b.eoe.value) else s'
  }

  lemma OneBlock(s: State, b: Block)
    ensures Run(s, Messages(b)) == BlockSpec(s, b)
  {
    var navs := NavMessages(b.itow, b.navs);
    if b.navs != [] {
      assert navs[1..] == NavMessages(b.itow, b.navs[1..]);
      RestOfBlock(Step(s, navs[0]), b.itow, b.navs[1..]);
    }
    var tail := if b.eoe.Some? then [Eoe(b.itow, b.eoe.value)] else [];
    RunConcat(s, navs, tail);
    assert tail != [] ==> tail[1..] == [];
  }

  /** As `ResetEpochInference` leaves it. */
  predicate Fresh(s: State) {
    s.openItow == None && !s.openWhole && s.missedEoe == 0
  }

  /** The state after blocks that came upon the fresh state `s0`. */
  ghost predicate After(s0: State, blocks: seq<Block>, s: State)
    requires Contiguous(blocks)
  {
    s.eoeItow == LastEoe(s0.eoeItow, blocks)
    && s.sawEoe == Saw(s0.sawEoe, s0.eoeItow, blocks)
    && s.openItow == OpenItow(s0.sawEoe, s0.eoeItow, blocks)
    && s.published == s0.published + Closed(s0.sawEoe, s0.eoeItow, blocks)
    && if !LacksEoe(blocks) then s.missedEoe == 0
       else
         var init, b := blocks[..|blocks| - 1], blocks[|blocks| - 1];
         s.missedEoe == (if s.sawEoe then Missing(s0.sawEoe, s0.eoeItow, init) else 0)
         && s.openMono == b.navs[|b.navs| - 1].at
         && s.openWhole == (OpenItow(s0.sawEoe, s0.eoeItow, init).Some? || b.navs[0].isPvt)
  }

  lemma {:induction false} OpenBlock(regime: bool, before: Option<int>, blocks: seq<Block>)
    ensures OpenItow(regime, before, blocks) in {None, LastNav(blocks)}
    ensures Missing(regime, before, blocks) >= 1 ==> OpenItow(regime, before, blocks).Some?
    ensures Contiguous(blocks) && !Carries(regime, blocks) ==>
      (OpenItow(regime, before, blocks).Some? <==> blocks != [])
    decreases |blocks|
  {
    if blocks != [] {
      OpenBlock(regime, before, blocks[..|blocks| - 1]);
    }
  }

  /** What of the last block is known when the next one opens. */
  lemma LastBlock(regime: bool, before: Option<int>, blocks: seq<Block>)
    requires Contiguous(blocks)
    ensures Taken(regime, before, blocks) <==>
      Saw(regime, before, blocks) && Missing(regime, before, blocks) < EOE_MISSED_LIMIT
    ensures Saw(regime, before, blocks) ==> Missing(regime, before, blocks) <= EOE_MISSED_LIMIT
    ensures blocks == [] ==> Missing(regime, before, blocks) == 0
    ensures LacksEoe(blocks) ==>
      var init, b := blocks[..|blocks| - 1], blocks[|blocks| - 1];
      OpenItow(regime, before, blocks) == Some(b.itow)
      && Missing(regime, before, blocks) ==
         (if Taken(regime, before, init) && LastEoe(before, blocks) == Some(b.itow) then 0
          else 1 + Missing(regime, before, init))
      && (Counts(regime, before, blocks) <==>
          if Saw(regime, before, blocks) then Missing(regime, before, blocks) == EOE_MISSED_LIMIT
          else OpenItow(regime, before, init).Some? || b.navs[0].isPvt)
      && (Missing(regime, before, blocks) >= EOE_MISSED_LIMIT ==> OpenItow(regime, before, init).Some?)
    ensures blocks != [] && !LacksEoe(blocks) ==>
      var o := OpenItow(regime, before, blocks);
      Saw(regime, before, blocks) && Taken(regime, before, blocks)
      && Missing(regime, before, blocks) == if o.Some? && o != LastEoe(before, blocks) then 1 else 0
  {
    if blocks != [] {
      OpenBlock(regime, before, blocks[..|blocks| - 1]);
    }
  }

  lemma OverIsClosed(regime: bool, before: Option<int>, blocks: seq<Block>)
    requires Contiguous(blocks)
    ensures Over(regime, before, blocks) == Closed(regime, before, blocks)
      + if LacksEoe(blocks) && Counts(regime, before, blocks)
        then [EpochOf(blocks[|blocks| - 1])] else []
  {
    if blocks != [] {
      OneMore(regime, before, blocks);
      hide Over, Closed, Missing, Counts;
    }
  }

  /** The state when a NAV message has opened another block: the one before is settled. */
  ghost predicate Opened(s0: State, init: seq<Block>, itow: int, isPvt: bool, m: State)
    requires Contiguous(init)
  {
    m.published == s0.published + Over(s0.sawEoe, s0.eoeItow, init)
    && m.openItow == Some(itow) && m.eoeItow == LastEoe(s0.eoeItow, init)
    && m.sawEoe == Taken(s0.sawEoe, s0.eoeItow, init)
    && m.missedEoe == (if m.sawEoe then Missing(s0.sawEoe, s0.eoeItow, init) else 0)
    && m.openWhole == (OpenItow(s0.sawEoe, s0.eoeItow, init).Some? || isPvt)
  }

  lemma OpensAfterEoe(s0: State, init: seq<Block>, s: State, itow: int, isPvt: bool, at: Time)
    requires Fresh(s0) && Contiguous(init) && After(s0, init, s) && LastNav(init) != Some(itow) && !LacksEoe(init)
    ensures Opened(s0, init, itow, isPvt, NavSpec(s, itow, isPvt, at))
  {
    var closed := Closed(s0.sawEoe, s0.eoeItow, init);
    OpenBlock(s0.sawEoe, s0.eoeItow, init);
    LastBlock(s0.sawEoe, s0.eoeItow, init);
    OverIsClosed(s0.sawEoe, s0.eoeItow, init);
    hide Contiguous, Over, Closed, Carries, Missing, LastEoe, OpenItow, Counts, LastNav, Saw, Taken;
    assert s0.published + (closed + []) == s0.published + closed;
  }

  /** Another iTOW: `missing` blocks in a row are now taken to have missed their NAV-EOE. */
  lemma OpenCloses(s: State, itow: int, isPvt: bool, at: Time, missing: nat)
    requires s.openItow !in {None, Some(itow)}
    requires if s.sawEoe then missing == (if s.openItow == s.eoeItow then 0 else s.missedEoe + 1) <= EOE_MISSED_LIMIT
             else s.missedEoe == 0
    ensures var m, gone := NavSpec(s, itow, isPvt, at), s.sawEoe ==> missing == EOE_MISSED_LIMIT;
      m == State(s.sawEoe && !gone, s.eoeItow, if gone then 0 else missing, Some(itow), true, at,
                 s.published + if gone && s.openWhole then [Epoch(s.openItow.value, s.openMono)] else [])
  {
  }

  lemma OpensAfterMissing(s0: State, init: seq<Block>, s: State, itow: int, isPvt: bool, at: Time)
    requires Contiguous(init) && After(s0, init, s) && LastNav(init) != Some(itow) && LacksEoe(init)
    ensures Opened(s0, init, itow, isPvt, NavSpec(s, itow, isPvt, at))
  {
    LastBlock(s0.sawEoe, s0.eoeItow, init);
    OverIsClosed(s0.sawEoe, s0.eoeItow, init);
    var closed, last := Closed(s0.sawEoe, s0.eoeItow, init), EpochOf(init[|init| - 1]);
    var settled := if Counts(s0.sawEoe, s0.eoeItow, init) then [last] else [];
    Associate(s0.published, closed, settled);
    hide Contiguous, Over, Closed, Carries, Missing, LastEoe, OpenItow, Counts, LastNav, Saw, Taken, NavSpec;
    OpenCloses(s, itow, isPvt, at, Missing(s0.sawEoe, s0.eoeItow, init));
  }

  /** The first NAV message of the next block settles the one before. */
  lemma NextBlockOpens(s0: State, init: seq<Block>, s: State, itow: int, isPvt: bool, at: Time)
    requires Fresh(s0) && Contiguous(init) && After(s0, init, s) && LastNav(init) != Some(itow)
    ensures Opened(s0, init, itow, isPvt, NavSpec(s, itow, isPvt, at))
  {
    hide *;
    if LacksEoe(init) {
      OpensAfterMissing(s0, init, s, itow, isPvt, at);
    } else {
      OpensAfterEoe(s0, init, s, itow, isPvt, at);
    }
  }

  /** What one more block makes of what is known of the stream. */
  lemma Known(regime: bool, before: Option<int>, blocks: seq<Block>)
    requires blocks != [] && Contiguous(blocks)
    ensures var init, b := blocks[..|blocks| - 1], blocks[|blocks| - 1];
      Contiguous(init) && (b.navs != [] ==> LastNav(init) != Some(b.itow))
      && LastEoe(before, blocks) == (if b.eoe.Some? then Some(b.itow) else LastEoe(before, init))
      && Saw(regime, before, blocks) == (b.eoe.Some? || Taken(regime, before, init))
      && OpenItow(regime, before, blocks) ==
         if b.navs == [] then if Saw(regime, before, init) then OpenItow(regime, before, init) else None
         else if b.eoe.Some? && !Taken(regime, before, init) then None
         else Some(b.itow)
  {
  }

  /** A NAV-EOE that comes alone. */
  lemma NextLone(s0: State, blocks: seq<Block>, s: State)
    requires Fresh(s0) && blocks != [] && Contiguous(blocks) && After(s0, blocks[..|blocks| - 1], s)
    requires blocks[|blocks| - 1].navs == []
    ensures After(s0, blocks, Run(s, Messages(blocks[|blocks| - 1])))
  {
    var init, b := blocks[..|blocks| - 1], blocks[|blocks| - 1];
    OneBlock(s, b);
    Known(s0.sawEoe, s0.eoeItow, blocks);
    OneMore(s0.sawEoe, s0.eoeItow, blocks);
    Associate(s0.published, Closed(s0.sawEoe, s0.eoeItow, init), [EpochOf(b)]);
    hide Run, Messages, NavSpec, Over, Closed, Contiguous, Missing, Saw, OpenItow, Taken, LastEoe, LastNav, Counts;
  }

  lemma BlockEnds(s0: State, blocks: seq<Block>, m: State)
    requires blocks != [] && Contiguous(blocks) && blocks[|blocks| - 1].navs != []
    requires var b := blocks[|blocks| - 1]; Opened(s0, blocks[..|blocks| - 1], b.itow, b.navs[0].isPvt, m)
    ensures var b := blocks[|blocks| - 1];
      var s := m.(openMono := b.navs[|b.navs| - 1].at);
      After(s0, blocks, if b.eoe.Some? then EoeSpec(s, b.itow, b.eoe.value) else s)
  {
    var init, b := blocks[..|blocks| - 1], blocks[|blocks| - 1];
    Known(s0.sawEoe, s0.eoeItow, blocks);
    OneMore(s0.sawEoe, s0.eoeItow, blocks);
    var over := Over(s0.sawEoe, s0.eoeItow, init);
    Associate(s0.published, over, [EpochOf(b)]);
    assert over + [] == over;
    hide Over, Closed, Contiguous, Missing, Saw, OpenItow, Taken, LastEoe, LastNav, Counts;
  }

  lemma NextBlock(s0: State, blocks: seq<Block>, s: State)
    requires Fresh(s0) && blocks != [] && Contiguous(blocks) && After(s0, blocks[..|blocks| - 1], s)
    requires blocks[|blocks| - 1].navs != []
    ensures After(s0, blocks, Run(s, Messages(blocks[|blocks| - 1])))
  {
    var b := blocks[|blocks| - 1];
    OneBlock(s, b);
    hide After, Run, Messages, NavSpec;
    NextBlockOpens(s0, blocks[..|blocks| - 1], s, b.itow, b.navs[0].isPvt, b.navs[0].at);
    BlockEnds(s0, blocks, NavSpec(s, b.itow, b.navs[0].isPvt, b.navs[0].at));
  }

  lemma {:induction false} StreamIsFollowed(s0: State, blocks: seq<Block>)
    requires Fresh(s0) && Contiguous(blocks)
    ensures After(s0, blocks, Run(s0, Stream(blocks)))
  {
    if blocks == [] {
      assert Missing(s0.sawEoe, s0.eoeItow, blocks) == 0;
      assert s0.published + Closed(s0.sawEoe, s0.eoeItow, blocks) == s0.published;
    } else {
      var init, b := blocks[..|blocks| - 1], blocks[|blocks| - 1];
      RunConcat(s0, Stream(init), Messages(b));
      StreamIsFollowed(s0, init);
      hide After;
      if b.navs == [] {
        NextLone(s0, blocks, Run(s0, Stream(init)));
      } else {
        NextBlock(s0, blocks, Run(s0, Stream(init)));
      }
    }
  }

  // ------------------------------------------------------------------ streams with reconnects

  function LastEoeOf(parts: seq<seq<Block>>): Option<int> {
    if parts == [] then None else LastEoe(LastEoeOf(parts[..|parts| - 1]), parts[|parts| - 1])
  }

  /** What is known of NAV-EOE after the parts of a stream, each of which follows a reset. */
  function Regime(parts: seq<seq<Block>>): bool {
    if parts == [] then false
    else var init := parts[..|parts| - 1]; Saw(Regime(init), LastEoeOf(init), parts[|parts| - 1])
  }

  predicate AllContiguous(parts: seq<seq<Block>>) {
    forall i: nat :: i < |parts| ==> Contiguous(parts[i])
  }

  function PublishedBy(parts: seq<seq<Block>>): seq<Epoch>
    requires AllContiguous(parts)
  {
    if parts == [] then []
    else
      var init := parts[..|parts| - 1];
      PublishedBy(init) + Closed(Regime(init), LastEoeOf(init), parts[|parts| - 1])
  }

  function RunParts(s: State, parts: seq<seq<Block>>): State {
    if parts == [] then s
    else Run(ResetSpec(RunParts(s, parts[..|parts| - 1])), Stream(parts[|parts| - 1]))
  }

  lemma StreamEnds(s0: State, blocks: seq<Block>, s: State)
    requires Contiguous(blocks) && After(s0, blocks, s)
    ensures EndOfStreamSpec(s).published == s0.published
      + if s.sawEoe then Closed(s0.sawEoe, s0.eoeItow, blocks) else Over(s0.sawEoe, s0.eoeItow, blocks)
  {
    var closed := Closed(s0.sawEoe, s0.eoeItow, blocks);
    LastBlock(s0.sawEoe, s0.eoeItow, blocks);
    OverIsClosed(s0.sawEoe, s0.eoeItow, blocks);
    if LacksEoe(blocks) {
      Associate(s0.published, closed, [EpochOf(blocks[|blocks| - 1])]);
    }
    hide Contiguous, Over, Closed, Carries, Missing, LastEoe, OpenItow, Counts, LastNav, Saw, Taken;
    assert s0.published + (closed + []) == s0.published + closed;
  }

  /** Over any number of parts exactly the blocks that are closed are published, once each and in order;
      one that is open when a part ends is lost. At the end of the stream it is published too if it counts,
      unless the stream is still taken to carry NAV-EOE. */
  lemma {:induction false} PublishedAcrossResets(parts: seq<seq<Block>>, now: Time)
    requires AllContiguous(parts)
    ensures var s := RunParts(Initial(now), parts);
      s.published == PublishedBy(parts) && s.sawEoe == Regime(parts) && s.eoeItow == LastEoeOf(parts)
      && (parts != [] ==>
            var init := parts[..|parts| - 1];
            EndOfStreamSpec(s).published == PublishedBy(init)
              + if Regime(parts) then Closed(Regime(init), LastEoeOf(init), parts[|parts| - 1])
                else Over(Regime(init), LastEoeOf(init), parts[|parts| - 1]))
    decreases |parts|
  {
    if parts != [] {
      var init, last := parts[..|parts| - 1], parts[|parts| - 1];
      PublishedAcrossResets(init, now);
      var s0 := ResetSpec(RunParts(Initial(now), init));
      StreamIsFollowed(s0, last);
      StreamEnds(s0, last, Run(s0, Stream(last)));
    }
  }

  /** Of the first block after a reset, once it is over: published if its NAV-EOE came; without one only
      where epochs are inferred and it opened with NAV-PVT - where NAV-EOE was carried before the reset, it
      is the first to miss it. */
  lemma FirstAfterReset(regime: bool, before: Option<int>, b: Block)
    requires Contiguous([b])
    ensures Over(regime, before, [b]) == if b.eoe.Some? || (!regime && b.navs[0].isPvt) then [EpochOf(b)] else []
  {
    OneMore(regime, before, [b]);
    assert [b][..0] == [];
    assert Over(regime, before, []) == [] && Closed(regime, before, []) == [];
    assert Missing(regime, before, []) == 0 && (Carries(regime, []) <==> regime);
  }

  /** The same of an uninterrupted stream. */
  lemma PublishedExactly(blocks: seq<Block>, now: Time)
    requires Contiguous(blocks)
    ensures var s := Run(Initial(now), Stream(blocks));
      s.published == Closed(false, None, blocks)
      && EndOfStreamSpec(s).published ==
         if Saw(false, None, blocks) then Closed(false, None, blocks) else Over(false, None, blocks)
  {
    StreamIsFollowed(Initial(now), blocks);
    StreamEnds(Initial(now), blocks, Run(Initial(now), Stream(blocks)));
    assert [] + Closed(false, None, blocks) == Closed(false, None, blocks);
    assert [] + Over(false, None, blocks) == Over(false, None, blocks);
    hide Closed, Over;
  }

  // ------------------------------------------------------------------ what is promised

  /** How many blocks in a row, up to the last, came without a NAV-EOE. */
  function Lacking(blocks: seq<Block>): nat {
    if LacksEoe(blocks) then 1 + Lacking(blocks[..|blocks| - 1]) else 0
  }

  /** Whether the last block is to be published: with its NAV-EOE always, without it by the rule, counting
      plainly. */
  predicate Due(regime: bool, blocks: seq<Block>)
    requires blocks != []
  {
    !LacksEoe(blocks) || ByRule(regime, blocks, Lacking(blocks))
  }

  function AllDue(regime: bool, blocks: seq<Block>): (f: seq<bool>)
    ensures |f| == |blocks|
  {
    if blocks == [] then [] else AllDue(regime, blocks[..|blocks| - 1]) + [Due(regime, blocks)]
  }

  /** After every block, the opening of another finds exactly the blocks published that are due. */
  predicate AsPromised(regime: bool, before: Option<int>, blocks: seq<Block>) {
    Fates(regime, before, blocks) == AllDue(regime, blocks)
    && (blocks != [] ==> AsPromised(regime, before, blocks[..|blocks| - 1]))
  }

  /** The last block does not upset the count of those that lack NAV-EOE. Where the stream carries it:
      of the first two in a row without it, neither has the iTOW of the last NAV-EOE, and a block without it
      does not follow a NAV-EOE that came alone while a block was open. And a NAV-EOE does not come alone after a
      block without it that is due. */
  predicate Regular(regime: bool, before: Option<int>, blocks: seq<Block>)
    requires blocks != []
  {
    var init, b := blocks[..|blocks| - 1], blocks[|blocks| - 1];
    init == []
    || var last := init[|init| - 1];
       if b.navs == [] then LacksEoe(init) ==> !Due(regime, init)
       else b.eoe.None? && Carries(regime, init) ==>
         if LacksEoe(init) then Lacking(init) == 1 ==> LastEoe(before, init) !in {Some(b.itow), Some(last.itow)}
         else last.navs == [] ==> OpenItow(regime, before, init) in {None, Some(last.itow)}
  }

  predicate AllRegular(regime: bool, before: Option<int>, blocks: seq<Block>) {
    blocks == [] || (Regular(regime, before, blocks) && AllRegular(regime, before, blocks[..|blocks| - 1]))
  }

  /** Whether a last block without NAV-EOE counts as the rule says, where the block before it did. */
  lemma CountsExactly(regime: bool, before: Option<int>, blocks: seq<Block>)
    requires blocks != [] && Contiguous(blocks) && blocks[|blocks| - 1].navs != []
    requires var init := blocks[..|blocks| - 1]; LacksEoe(init) ==> Counts(regime, before, init) == Due(regime, init)
    ensures (!LacksEoe(blocks) || Counts(regime, before, blocks)) == Due(regime, blocks)
      <==> Regular(regime, before, blocks)
  {
    var init := blocks[..|blocks| - 1];
    if LacksEoe(blocks) && Carries(regime, blocks) {
      assert Carries(regime, init) && LastEoe(before, blocks) == LastEoe(before, init);
      assert Lacking(blocks) == 1 + Lacking(init);
      LastBlock(regime, before, blocks);
      LastBlock(regime, before, init);
      if LacksEoe(init) {
        var first := init[..|init| - 1];
        LastBlock(regime, before, first);
        assert Lacking(init) == 1 + Lacking(first) && (Lacking(first) == 0 <==> !LacksEoe(first));
        assert Carries(regime, first) && LastEoe(before, init) == LastEoe(before, first);
      }
    }
  }

  /** Given that the blocks before were published as promised; here a NAV-EOE that comes alone. */
  lemma LoneDue(regime: bool, before: Option<int>, blocks: seq<Block>)
    requires blocks != [] && Contiguous(blocks) && AsPromised(regime, before, blocks[..|blocks| - 1])
    requires blocks[|blocks| - 1].navs == []
    ensures Fates(regime, before, blocks) == AllDue(regime, blocks) <==> Regular(regime, before, blocks)
  {
    var n := |blocks| - 1;
    var init, f, due := blocks[..n], Fates(regime, before, blocks), AllDue(regime, blocks);
    assert Due(regime, blocks) && due[..n] == AllDue(regime, init) && due[n] && f[n];
    var rest := AllDue(regime, init);
    assert f[..n] == Pending(init, rest);
    assert f == f[..n] + [f[n]] && due == rest + [due[n]];
    assert f == due <==> f[..n] == rest;
    if LacksEoe(init) {
      assert rest[n - 1] == Due(regime, init);
      assert rest == rest[..n - 1] + [rest[n - 1]];
      assert f[..n][n - 1] == false;
    }
  }

  /** The same of a block with NAV messages. */
  lemma BlockDue(regime: bool, before: Option<int>, blocks: seq<Block>)
    requires blocks != [] && Contiguous(blocks) && AsPromised(regime, before, blocks[..|blocks| - 1])
    requires blocks[|blocks| - 1].navs != []
    ensures Fates(regime, before, blocks) == AllDue(regime, blocks) <==> Regular(regime, before, blocks)
  {
    var n := |blocks| - 1;
    var init, f, due := blocks[..n], Fates(regime, before, blocks), AllDue(regime, blocks);
    assert f[..n] == due[..n] == AllDue(regime, init);
    assert f == f[..n] + [f[n]] && due == due[..n] + [due[n]];
    assert f[n] == (!LacksEoe(blocks) || Counts(regime, before, blocks)) && due[n] == Due(regime, blocks);
    if LacksEoe(init) {
      var all := Fates(regime, before, init);
      assert init[n - 1].navs != [] && all[n - 1] == Counts(regime, before, init);
      assert all == AllDue(regime, init) && AllDue(regime, init)[n - 1] == Due(regime, init);
    }
    CountsExactly(regime, before, blocks);
  }

  /** The code keeps its promise - of a run without NAV-EOE only the first EOE_MISSED_LIMIT - 1 blocks are
      lost - exactly where every block is regular. */
  lemma {:induction false} AsPromisedExactly(regime: bool, before: Option<int>, blocks: seq<Block>)
    requires Contiguous(blocks)
    ensures AsPromised(regime, before, blocks) <==> AllRegular(regime, before, blocks)
    decreases |blocks|
  {
    if blocks != [] {
      AsPromisedExactly(regime, before, blocks[..|blocks| - 1]);
      if AsPromised(regime, before, blocks[..|blocks| - 1]) {
        if blocks[|blocks| - 1].navs == [] {
          LoneDue(regime, before, blocks);
        } else {
          BlockDue(regime, before, blocks);
        }
      }
    }
  }

  /** So on a regular stream exactly the blocks that are due have been published, but for one still open. */
  lemma PromiseKept(s0: State, blocks: seq<Block>)
    requires Fresh(s0) && Contiguous(blocks) && AllRegular(s0.sawEoe, s0.eoeItow, blocks)
    ensures var s, due := Run(s0, Stream(blocks)), AllDue(s0.sawEoe, blocks);
      s.published == s0.published + Epochs(blocks, Pending(blocks, due))
      && EndOfStreamSpec(s).published ==
         s0.published + Epochs(blocks, if s.sawEoe then Pending(blocks, due) else due)
  {
    AsPromisedExactly(s0.sawEoe, s0.eoeItow, blocks);
    StreamIsFollowed(s0, blocks);
    StreamEnds(s0, blocks, Run(s0, Stream(blocks)));
    hide Run, Stream, EndOfStreamSpec, Fates, AllDue, Epochs, Pending, Contiguous;
  }

  /** No NAV-EOE comes alone, and no block without one has the iTOW of the last NAV-EOE. */
  predicate Plain(before: Option<int>, blocks: seq<Block>) {
    blocks == [] ||
    var init, b := blocks[..|blocks| - 1], blocks[|blocks| - 1];
    Plain(before, init) && b.navs != [] && (b.eoe.None? ==> LastEoe(before, init) != Some(b.itow))
  }

  lemma {:induction false} PlainIsRegular(regime: bool, before: Option<int>, blocks: seq<Block>)
    requires Plain(before, blocks)
    ensures AllRegular(regime, before, blocks)
    decreases |blocks|
  {
    if blocks != [] {
      PlainIsRegular(regime, before, blocks[..|blocks| - 1]);
    }
  }

  /** A block of one NAV-PVT. */
  function OnePvt(itow: int, at: Time, eoe: Option<Time>): Block {
    Block(itow, [NavMessage(true, at)], eoe)
  }

  /** The state `s` after the first `n` blocks, the last of which with NAV messages is that of `nav`. */
  ghost predicate Reached(blocks: seq<Block>, n: nat, nav: Option<int>, s: State)
    requires n <= |blocks|
  {
    Contiguous(blocks[..n]) && LastNav(blocks[..n]) == nav && Run(Initial(0), Stream(blocks[..n])) == s
  }

  lemma ReachNext(blocks: seq<Block>, n: nat, nav: Option<int>, s: State, s': State)
    requires n < |blocks| && Reached(blocks, n, nav, s)
    requires var b := blocks[n];
      (b.navs != [] || b.eoe.Some?) && (n > 0 ==> blocks[n - 1].itow != b.itow)
      && (b.navs != [] ==> nav != Some(b.itow)) && BlockSpec(s, b) == s'
    ensures Reached(blocks, n + 1, if blocks[n].navs != [] then Some(blocks[n].itow) else nav, s')
  {
    var more := blocks[..n + 1];
    assert more[..n] == blocks[..n];
    RunConcat(Initial(0), Stream(blocks[..n]), Messages(blocks[n]));
    OneBlock(s, blocks[n]);
  }

  lemma ReachAll(blocks: seq<Block>, nav: Option<int>, s: State)
    requires Reached(blocks, |blocks|, nav, s)
    ensures Contiguous(blocks) && Run(Initial(0), Stream(blocks)) == s
  {
    assert blocks[..|blocks|] == blocks;
  }

  /** 10 with its NAV-EOE, then 9, 10, 11, 12 and 13 without, all opened by NAV-PVT. */
  function Joined(): seq<Block> {
    [OnePvt(10, 1, Some(2)), OnePvt(9, 3, None), OnePvt(10, 4, None), OnePvt(11, 5, None),
     OnePvt(12, 6, None), OnePvt(13, 7, None)]
  }

  lemma JoinedStart()
    ensures Reached(Joined(), 3, Some(10), State(true, Some(10), 1, Some(10), true, 4, [Epoch(10, 2)]))
  {
    var s1 := State(true, Some(10), 0, None, false, 1, [Epoch(10, 2)]);
    var s2 := s1.(openItow := Some(9), openWhole := true, openMono := 3);
    assert Reached(Joined(), 0, None, Initial(0));
    hide Reached;
    ReachNext(Joined(), 0, None, Initial(0), s1);
    ReachNext(Joined(), 1, Some(10), s1, s2);
    ReachNext(Joined(), 2, Some(9), s2, s2.(missedEoe := 1, openItow := Some(10), openMono := 4));
  }

  /** The iTOW of the last NAV-EOE comes again before a second block has missed its own: 9, 10 and 11 are
      lost, where only 9 is due to be. */
  lemma RecurringItowLosesMore()
    ensures Contiguous(Joined()) && Run(Initial(0), Stream(Joined())).published == [Epoch(10, 2), Epoch(12, 6)]
  {
    var s3 := State(true, Some(10), 1, Some(10), true, 4, [Epoch(10, 2)]);
    var s4 := s3.(missedEoe := 0, openItow := Some(11), openMono := 5);
    var s5 := s3.(openItow := Some(12), openMono := 6);
    var s6 := State(false, Some(10), 0, Some(13), true, 7, [Epoch(10, 2), Epoch(12, 6)]);
    JoinedStart();
    hide Reached, Contiguous, Run, Stream;
    ReachNext(Joined(), 3, Some(10), s3, s4);
    ReachNext(Joined(), 4, Some(11), s4, s5);
    ReachNext(Joined(), 5, Some(12), s5, s6);
    ReachAll(Joined(), Some(13), s6);
  }

  /** 9 and 10 with their NAV-EOE, only the NAV-EOE of 11, then 12 and 13 without. */
  function Torn(): seq<Block> {
    [OnePvt(9, 1, Some(2)), OnePvt(10, 3, Some(4)), Block(11, [], Some(5)), OnePvt(12, 6, None), OnePvt(13, 7, None)]
  }

  lemma TornStart()
    ensures Reached(Torn(), 3, Some(10),
              State(true, Some(11), 0, Some(10), true, 3, [Epoch(9, 2), Epoch(10, 4), Epoch(11, 5)]))
  {
    var s1 := State(true, Some(9), 0, None, false, 1, [Epoch(9, 2)]);
    var s2 := State(true, Some(10), 0, Some(10), true, 3, [Epoch(9, 2), Epoch(10, 4)]);
    assert Reached(Torn(), 0, None, Initial(0));
    hide Reached;
    ReachNext(Torn(), 0, None, Initial(0), s1);
    ReachNext(Torn(), 1, Some(9), s1, s2);
    var published := [Epoch(9, 2), Epoch(10, 4), Epoch(11, 5)];
    ReachNext(Torn(), 2, Some(10), s2, s2.(eoeItow := Some(11), published := published));
  }

  /** The NAV-EOE of 11 comes alone with 10 still open: 12 is published, though it is the first to miss its
      own. */
  lemma LoneEoeShiftsTheCount()
    ensures Contiguous(Torn())
      && Run(Initial(0), Stream(Torn())).published == [Epoch(9, 2), Epoch(10, 4), Epoch(11, 5), Epoch(12, 6)]
  {
    var s3 := State(true, Some(11), 0, Some(10), true, 3, [Epoch(9, 2), Epoch(10, 4), Epoch(11, 5)]);
    var s4 := s3.(missedEoe := 1, openItow := Some(12), openMono := 6);
    var s5 := State(false, Some(11), 0, Some(13), true, 7, s3.published + [Epoch(12, 6)]);
    TornStart();
    hide Reached, Contiguous, Run, Stream;
    ReachNext(Torn(), 3, Some(10), s3, s4);
    ReachNext(Torn(), 4, Some(12), s4, s5);
    ReachAll(Torn(), Some(13), s5);
  }
}
