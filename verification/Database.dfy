/** The shared connection's transactions (`store/db.py`): tasks interleave at every await; what the
    connection executes is the trace. */
module Database {
  import opened Options

  type Task = nat

  /** What reaches SQLite. A task's plain `commit` and the end of a `transaction` are both a COMMIT. */
  datatype Event =
    | Begin(task: Task)
    | Statement(task: Task, id: nat)
    | EndUnit(task: Task, committed: bool)
    | PlainCommit(task: Task)

  datatype Request = Transaction | Execute(id: nat) | Commit

  /** Where a task stands: not in a call, waiting for the lock, with its statement in flight, or in the
      body of its transaction. */
  datatype Phase = Idle | Waiting(request: Request) | InFlight(request: Request) | Body

  /** `_lock` by its holder, `_tx_task`, the tasks, and what has been executed. */
  datatype State = State(lock: Option<Task>, txTask: Option<Task>, phases: map<Task, Phase>, trace: seq<Event>) {
    function Phase(t: Task): Phase {
      if t in phases then phases[t] else Idle
    }

    function At(t: Task, p: Phase): State {
      this.(phases := phases[t := p])
    }

    predicate OwnsTransaction(t: Task) {
      txTask == Some(t)
    }
  }

  const START: State := State(None, None, map[], [])

  datatype Step =
    | Call(task: Task, request: Request)
    | Acquire(task: Task)
    | GiveUp(task: Task)              // cancelled while it waits
    | Done(task: Task, ok: bool)      // the statement in flight returns, or BEGIN fails
    | Leave(task: Task, ok: bool)     // the body of the transaction returns, or raises
    | Torn(task: Task)                // cancelled with its BEGIN in flight; the connection executes it all the same

  /** Whose unit is open on the connection. */
  function OpenUnit(trace: seq<Event>): Option<Task> {
    if trace == [] then None
    else match trace[|trace| - 1]
      case Begin(t) => Some(t)
      case Statement(_, _) => OpenUnit(trace[..|trace| - 1])
      case EndUnit(_, _) => None
      case PlainCommit(_) => None
  }

  /** A BEGIN cannot succeed while a unit is open; no other statement fails. */
  predicate Possible(s: State, step: Step) {
    var p := s.Phase(step.task);
    match step
    case Call(_, _) => p == Idle || p == Body
    case Acquire(_) => p.Waiting? && s.lock == None
    case GiveUp(_) => p.Waiting?
    case Done(_, ok) => p.InFlight? && (if p.request.Transaction? then ok ==> OpenUnit(s.trace) == None else ok)
    case Leave(_, _) => p == Body
    case Torn(_) => p == InFlight(Transaction)
  }

  function After(s: State, step: Step): State
    requires Possible(s, step)
  {
    var t := step.task;
    match step
    case Call(_, request) =>
      if s.OwnsTransaction(t) then
        match request
        case Transaction => s                    // refused: transactions do not nest
        case Execute(id) => s.(trace := s.trace + [Statement(t, id)])
        case Commit => s                         // only `transaction` ends the unit it began
      else s.At(t, Waiting(request))
    case Acquire(_) => s.(lock := Some(t)).At(t, InFlight(s.Phase(t).request))
    case GiveUp(_) => s.At(t, Idle)
    case Done(_, ok) =>
      (match s.Phase(t).request
       case Transaction =>
         if ok then s.(txTask := Some(t), trace := s.trace + [Begin(t)]).At(t, Body)
         else s.(lock := None).At(t, Idle)
       case Execute(id) => s.(lock := None, trace := s.trace + [Statement(t, id)]).At(t, Idle)
       case Commit => s.(lock := None, trace := s.trace + [PlainCommit(t)]).At(t, Idle))
    case Leave(_, ok) =>
      s.(lock := None, txTask := None, trace := s.trace + [EndUnit(t, ok)]).At(t, Idle)
    case Torn(_) =>
      s.(lock := None, trace := if OpenUnit(s.trace) == None then s.trace + [Begin(t)] else s.trace).At(t, Idle)
  }

  ghost predicate Reaches(s: State, steps: seq<Step>, s': State)
    decreases |steps|
  {
    if steps == [] then s == s'
    else Possible(s, steps[0]) && Reaches(After(s, steps[0]), steps[1..], s')
  }

  // ------------------------------------------------------------------ what the trace must look like

  /** Within a unit there is nothing but statements of the task that began it, up to that task's own end
      of it. */
  ghost predicate Isolated(trace: seq<Event>) {
    forall i | 0 <= i < |trace| ::
      match OpenUnit(trace[..i])
      case Some(t) => (trace[i].Statement? || trace[i].EndUnit?) && trace[i].task == t
      case None => !trace[i].EndUnit?
  }

  /** The statements of the unit that is open. */
  function Uncommitted(trace: seq<Event>): seq<nat> {
    if trace == [] then []
    else
      var before, e := trace[..|trace| - 1], trace[|trace| - 1];
      match e
      case Statement(_, id) => if OpenUnit(before) == None then [] else Uncommitted(before) + [id]
      case _ => []
  }

  /** The statements that have taken effect: outside a unit at once, of a unit when it is committed. */
  function Persisted(trace: seq<Event>): seq<nat> {
    if trace == [] then []
    else
      var before, e := trace[..|trace| - 1], trace[|trace| - 1];
      match e
      case Statement(_, id) => if OpenUnit(before) == None then Persisted(before) + [id] else Persisted(before)
      case EndUnit(_, committed) => if committed then Persisted(before) + Uncommitted(before) else Persisted(before)
      case PlainCommit(_) => Persisted(before) + Uncommitted(before)
      case Begin(_) => Persisted(before)
  }

  // ------------------------------------------------------------------ every run

  /** The lock is held by the one task with a statement in flight or a transaction open. */
  ghost predicate Locked(s: State) {
    (forall t: Task :: s.lock == Some(t) <==> s.Phase(t).InFlight? || s.Phase(t) == Body)
    && (forall t: Task :: s.txTask == Some(t) <==> s.Phase(t) == Body)
  }

  /** And the connection's unit is the transaction of the task that the code believes has one. */
  ghost predicate Sound(s: State) {
    Locked(s) && OpenUnit(s.trace) == s.txTask && Isolated(s.trace)
  }

  lemma TraceAppend(trace: seq<Event>, e: Event)
    requires Isolated(trace)
    requires match OpenUnit(trace)
             case Some(t) => (e.Statement? || e.EndUnit?) && e.task == t
             case None => !e.EndUnit?
    ensures Isolated(trace + [e])
    ensures OpenUnit(trace + [e])
      == match e case Begin(t) => Some(t) case Statement(_, _) => OpenUnit(trace) case _ => None
  {
    var after := trace + [e];
    assert after[..|trace|] == trace;
    forall i | 0 <= i < |after|
      ensures match OpenUnit(after[..i])
              case Some(t) => (after[i].Statement? || after[i].EndUnit?) && after[i].task == t
              case None => !after[i].EndUnit?
    {
      assert i < |trace| ==> after[..i] == trace[..i] && after[i] == trace[i];
    }
  }

  lemma StepKeeps(s: State, step: Step)
    requires Sound(s) && Possible(s, step) && !step.Torn?
    ensures Sound(After(s, step))
  {
    hide Isolated, OpenUnit;
    var after := After(s, step);
    if |after.trace| > |s.trace| {
      TraceAppend(s.trace, after.trace[|s.trace|]);
    }
  }

  lemma SoundIsIsolated(s: State)
    ensures Sound(s) ==> Isolated(s.trace)
  {
  }

  lemma {:induction false} RunKeeps(s: State, steps: seq<Step>, s': State)
    requires Sound(s) && Reaches(s, steps, s') && forall step | step in steps :: !step.Torn?
    ensures Sound(s') && Isolated(s'.trace)
    decreases |steps|
  {
    hide Sound;
    if steps == [] {
      assert Sound(s') ==> Isolated(s'.trace) by {
        SoundIsIsolated(s');
      }
    } else {
      assert steps[0] in steps && forall step | step in steps[1..] :: step in steps;
      StepKeeps(s, steps[0]);
      RunKeeps(After(s, steps[0]), steps[1..], s');
    }
  }

  lemma StartIsSound()
    ensures Sound(START)
  {
  }

  // ------------------------------------------------------------------ exactly when units are isolated

  /** A unit is open on the connection that the code knows nothing of. */
  predicate Unowned(s: State) {
    OpenUnit(s.trace).Some? && s.txTask == None
  }

  /** While such a unit is open, a step executes nothing, or a plain statement of the very task whose
      BEGIN was torn. */
  predicate Harmless(s: State, step: Step)
    requires Possible(s, step)
  {
    Unowned(s) ==>
      After(s, step).trace == s.trace
      || (step.Done? && s.Phase(step.task).request.Execute? && OpenUnit(s.trace) == Some(step.task))
  }

  ghost predicate AllHarmless(s: State, steps: seq<Step>, s': State)
    requires Reaches(s, steps, s')
    decreases |steps|
  {
    steps == [] || (Harmless(s, steps[0]) && AllHarmless(After(s, steps[0]), steps[1..], s'))
  }

  /** What holds on the way, torn or not, as long as nothing went wrong. */
  ghost predicate SoundSoFar(s: State) {
    Locked(s) && (s.txTask.Some? ==> OpenUnit(s.trace) == s.txTask) && Isolated(s.trace)
  }

  lemma TraceBroken(trace: seq<Event>, e: Event)
    requires OpenUnit(trace).Some? && !((e.Statement? || e.EndUnit?) && Some(e.task) == OpenUnit(trace))
    ensures !Isolated(trace + [e])
  {
    var after := trace + [e];
    assert after[..|trace|] == trace && after[|trace|] == e;
  }

  /** A harmless step keeps units isolated, and any other step ends that. */
  lemma StepExactly(s: State, step: Step)
    requires SoundSoFar(s) && Possible(s, step)
    ensures if Harmless(s, step) then SoundSoFar(After(s, step)) else !Isolated(After(s, step).trace)
  {
    hide Isolated, OpenUnit;
    var after := After(s, step);
    if |after.trace| > |s.trace| {
      var e := after.trace[|s.trace|];
      assert after.trace == s.trace + [e];
      if Harmless(s, step) {
        TraceAppend(s.trace, e);
      } else {
        TraceBroken(s.trace, e);
      }
    }
  }

  lemma StaysBroken(a: seq<Event>, b: seq<Event>)
    requires a <= b && Isolated(b)
    ensures Isolated(a)
  {
    forall i | 0 <= i < |a|
      ensures match OpenUnit(a[..i])
              case Some(t) => (a[i].Statement? || a[i].EndUnit?) && a[i].task == t
              case None => !a[i].EndUnit?
    {
      assert a[..i] == b[..i] && a[i] == b[i];
    }
  }

  lemma {:induction false} TraceGrows(s: State, steps: seq<Step>, s': State)
    requires Reaches(s, steps, s')
    ensures s.trace <= s'.trace
    decreases |steps|
  {
    if steps != [] {
      TraceGrows(After(s, steps[0]), steps[1..], s');
    }
  }

  lemma {:induction false} RunExactly(s: State, steps: seq<Step>, s': State)
    requires SoundSoFar(s) && Reaches(s, steps, s')
    ensures Isolated(s'.trace) <==> AllHarmless(s, steps, s')
    decreases |steps|
  {
    if steps != [] {
      var next := After(s, steps[0]);
      StepExactly(s, steps[0]);
      hide Isolated, Harmless, After, Possible;
      if Harmless(s, steps[0]) {
        RunExactly(next, steps[1..], s');
      } else {
        TraceGrows(next, steps[1..], s');
        if Isolated(s'.trace) {
          StaysBroken(next.trace, s'.trace);
        }
      }
    }
  }

  /** In every interleaving, units are isolated if and only if nothing but a plain statement of the task
      whose BEGIN was torn is executed while its unit is open and unowned. */
  lemma IsolatedExactly(steps: seq<Step>, s: State)
    requires Reaches(START, steps, s)
    ensures Isolated(s.trace) <==> AllHarmless(START, steps, s)
  {
    StartIsSound();
    RunExactly(START, steps, s);
  }

  /** In particular when no task is cancelled with its BEGIN in flight: no unit is ever unowned. */
  lemma AlwaysIsolated(steps: seq<Step>, s: State)
    requires Reaches(START, steps, s) && forall step | step in steps :: !step.Torn?
    ensures AllHarmless(START, steps, s) && Isolated(s.trace) && OpenUnit(s.trace) == s.txTask
  {
    StartIsSound();
    RunKeeps(START, steps, s);
    IsolatedExactly(steps, s);
  }

  /** What has taken effect stays. */
  lemma {:induction false} PersistedStays(trace: seq<Event>, i: nat)
    requires i <= |trace|
    ensures Persisted(trace[..i]) <= Persisted(trace)
    decreases |trace|
  {
    if i == |trace| {
      assert trace[..i] == trace;
    } else {
      PersistedStays(trace[..|trace| - 1], i);
      assert trace[..|trace| - 1][..i] == trace[..i];
    }
  }

  function Ids(events: seq<Event>): seq<nat>
    requires forall e | e in events :: e.Statement?
  {
    if events == [] then [] else Ids(events[..|events| - 1]) + [events[|events| - 1].id]
  }

  lemma {:induction false} WithinUnit(trace: seq<Event>, i: nat, j: nat)
    requires i < j <= |trace| && trace[i].Begin?
    requires forall k | i < k < j :: trace[k].Statement?
    ensures OpenUnit(trace[..j]) == Some(trace[i].task)
    ensures Uncommitted(trace[..j]) == Ids(trace[i + 1..j])
    ensures Persisted(trace[..j]) == Persisted(trace[..i])
    decreases j
  {
    var before := trace[..j - 1];
    assert trace[..j][..j - 1] == before && trace[..j][j - 1] == trace[j - 1];
    if j == i + 1 {
      assert trace[i + 1..j] == [];
    } else {
      WithinUnit(trace, i, j - 1);
      var inside := trace[i + 1..j];
      assert inside[..|inside| - 1] == trace[i + 1..j - 1] && inside[|inside| - 1] == trace[j - 1];
    }
  }

  /** A unit takes effect as a whole when it is committed and not at all when it is rolled back; and no
      other task's rollback, or commit, ever decides over a statement. */
  lemma UnitIsAtomic(trace: seq<Event>, i: nat, j: nat)
    requires Isolated(trace) && i < j < |trace| && trace[i].Begin? && trace[j].EndUnit?
    requires forall k | i < k < j :: trace[k].Statement?
    ensures trace[j].task == trace[i].task && forall k | i < k < j :: trace[k].task == trace[i].task
    ensures Persisted(trace[..j + 1])
      == Persisted(trace[..i]) + if trace[j].committed then Ids(trace[i + 1..j]) else []
  {
    WithinUnit(trace, i, j);
    assert trace[..j + 1][..j] == trace[..j];
    forall k | i < k < j
      ensures trace[k].task == trace[i].task
    {
      WithinUnit(trace, i, k);
    }
  }

  /** A statement outside a transaction has taken effect once it is executed, whatever follows. */
  lemma PlainStatementPersists(trace: seq<Event>, i: nat, j: nat)
    requires i < j <= |trace| && trace[i].Statement? && OpenUnit(trace[..i]) == None
    ensures trace[i].id in Persisted(trace[..j])
  {
    assert trace[..i + 1][..i] == trace[..i];
    var done := Persisted(trace[..i + 1]);
    assert done[|done| - 1] == trace[i].id;
    PersistedStays(trace[..j], i + 1);
    assert trace[..j][..i + 1] == trace[..i + 1];
    assert Persisted(trace[..j])[|done| - 1] == trace[i].id;
  }

  // ------------------------------------------------------------------ what becomes of the calls

  lemma StepLocks(s: State, step: Step)
    requires Locked(s) && Possible(s, step)
    ensures Locked(After(s, step))
  {
    hide OpenUnit;
  }

  lemma {:induction false} RunLocks(s: State, steps: seq<Step>, s': State)
    requires Locked(s) && Reaches(s, steps, s')
    ensures Locked(s')
    decreases |steps|
  {
    hide Locked;
    if steps != [] {
      StepLocks(s, steps[0]);
      RunLocks(After(s, steps[0]), steps[1..], s');
    }
  }

  /** What task `t` asked to be executed, in order. */
  function Executed(t: Task, steps: seq<Step>): seq<nat> {
    if steps == [] then []
    else
      (match steps[0] case Call(u, Execute(id)) => if u == t then [id] else [] case _ => [])
      + Executed(t, steps[1..])
  }

  /** In the unit of `t`: `ids` wait for its end, `base` had taken effect before it. */
  ghost predicate Inside(s: State, t: Task, base: seq<nat>, ids: seq<nat>) {
    Locked(s) && s.txTask == Some(t) && OpenUnit(s.trace) == Some(t)
    && Persisted(s.trace) == base && Uncommitted(s.trace) == ids
  }

  lemma Effect(trace: seq<Event>, e: Event)
    ensures OpenUnit(trace + [e])
      == match e case Begin(t) => Some(t) case Statement(_, _) => OpenUnit(trace) case _ => None
    ensures e.Statement? && OpenUnit(trace).Some? ==>
      Persisted(trace + [e]) == Persisted(trace) && Uncommitted(trace + [e]) == Uncommitted(trace) + [e.id]
    ensures e.Statement? && OpenUnit(trace).None? ==> Persisted(trace + [e]) == Persisted(trace) + [e.id]
    ensures e.Begin? ==> Persisted(trace + [e]) == Persisted(trace) && Uncommitted(trace + [e]) == []
    ensures e.EndUnit? ==>
      Persisted(trace + [e]) == Persisted(trace) + if e.committed then Uncommitted(trace) else []
    ensures e.PlainCommit? ==> Persisted(trace + [e]) == Persisted(trace) + Uncommitted(trace)
  {
    assert (trace + [e])[..|trace|] == trace;
    assert Persisted(trace) + [] == Persisted(trace);
  }

  lemma StepInside(s: State, t: Task, base: seq<nat>, ids: seq<nat>, step: Step)
    requires Inside(s, t, base, ids) && Possible(s, step) && !step.Leave?
    ensures Inside(After(s, step), t, base, ids + Executed(t, [step]))
  {
    assert Executed(t, [step][1..]) == [];
    StepLocks(s, step);
    assert ids + [] == ids;
    assert s.lock == Some(t) && s.Phase(t) == Body;
    match step
    case Call(u, Execute(id)) =>
      if u == t {
        Effect(s.trace, Statement(t, id));
      }
    case _ =>
  }

  lemma ExecutedFirst(t: Task, steps: seq<Step>)
    requires steps != []
    ensures Executed(t, steps) == Executed(t, [steps[0]]) + Executed(t, steps[1..])
  {
    assert [steps[0]][1..] == [];
    var one := Executed(t, [steps[0]]);
    assert one + [] == one;
  }

  lemma {:induction false} RunInside(s: State, t: Task, base: seq<nat>, ids: seq<nat>, body: seq<Step>, s': State)
    requires Inside(s, t, base, ids) && Reaches(s, body, s') && forall step | step in body :: !step.Leave?
    ensures Inside(s', t, base, ids + Executed(t, body))
    decreases |body|
  {
    hide Inside, After, Possible;
    if body == [] {
      assert ids + [] == ids;
    } else {
      assert body[0] in body && forall step | step in body[1..] :: step in body;
      StepInside(s, t, base, ids, body[0]);
      ExecutedFirst(t, body);
      var one, rest := Executed(t, [body[0]]), Executed(t, body[1..]);
      RunInside(After(s, body[0]), t, base, ids + one, body[1..], s');
      assert (ids + one) + rest == ids + (one + rest);
    }
  }

  /** In every interleaving: a transaction that is left normally makes everything that its task executed in
      its body take effect, in order, and nothing else; one that is left by an exception, nothing. */
  lemma LeaveDecides(before: seq<Step>, s0: State, t: Task, body: seq<Step>, s1: State, ok: bool)
    requires Reaches(START, before, s0)
    requires s0.Phase(t) == InFlight(Transaction) && Possible(s0, Done(t, true))
    requires Reaches(After(s0, Done(t, true)), body, s1) && (forall step | step in body :: !step.Leave?)
    requires Possible(s1, Leave(t, ok))
    ensures Persisted(After(s1, Leave(t, ok)).trace)
      == Persisted(s0.trace) + if ok then Executed(t, body) else []
  {
    RunLocks(START, before, s0);
    StepLocks(s0, Done(t, true));
    Effect(s0.trace, Begin(t));
    RunInside(After(s0, Done(t, true)), t, Persisted(s0.trace), [], body, s1);
    Effect(s1.trace, EndUnit(t, ok));
    assert [] + Executed(t, body) == Executed(t, body);
  }

  lemma {:induction false} OthersLeavePhase(s: State, t: Task, steps: seq<Step>, s': State)
    requires Reaches(s, steps, s') && forall step | step in steps :: step.task != t
    ensures s'.Phase(t) == s.Phase(t)
    decreases |steps|
  {
    if steps != [] {
      assert steps[0] in steps && forall step | step in steps[1..] :: step in steps;
      OthersLeavePhase(After(s, steps[0]), t, steps[1..], s');
      hide OpenUnit;
    }
  }

  lemma {:induction false} NothingUncommitted(trace: seq<Event>)
    requires OpenUnit(trace) == None
    ensures Uncommitted(trace) == []
    decreases |trace|
  {
  }

  /** A call outside a transaction waits, whatever others do, and then does what was asked: a statement takes
      effect at once and for itself, and a commit ends nobody's unit - unless an unowned unit is open, to
      which the one adds and which the other ends. */
  lemma PlainCallDecides(s: State, t: Task, request: Request, wait: seq<Step>, s1: State, flight: seq<Step>, s2: State)
    requires Possible(s, Call(t, request)) && !s.OwnsTransaction(t) && !request.Transaction?
    requires Reaches(After(s, Call(t, request)), wait, s1) && (forall step | step in wait :: step.task != t)
    requires Possible(s1, Acquire(t)) && Reaches(After(s1, Acquire(t)), flight, s2)
    requires (forall step | step in flight :: step.task != t) && Possible(s2, Done(t, true))
    ensures var after := After(s2, Done(t, true)).trace;
      if request.Commit? then
        OpenUnit(after) == None && Persisted(after) == Persisted(s2.trace) + Uncommitted(s2.trace)
      else if OpenUnit(s2.trace) == None then
        OpenUnit(after) == None && Persisted(after) == Persisted(s2.trace) + [request.id]
      else
        OpenUnit(after) == OpenUnit(s2.trace) && Persisted(after) == Persisted(s2.trace)
        && Uncommitted(after) == Uncommitted(s2.trace) + [request.id]
    ensures OpenUnit(s2.trace) == None ==> Uncommitted(s2.trace) == []
  {
    OthersLeavePhase(After(s, Call(t, request)), t, wait, s1);
    OthersLeavePhase(After(s1, Acquire(t)), t, flight, s2);
    assert s2.Phase(t) == InFlight(request);
    if OpenUnit(s2.trace) == None {
      NothingUncommitted(s2.trace);
    }
    Effect(s2.trace, if request.Execute? then Statement(t, request.id) else PlainCommit(t));
    hide OpenUnit, Persisted, Uncommitted;
  }

  /** In its own transaction a task can neither commit half of it nor begin another. */
  lemma NestedCallsDoNothing(s: State, t: Task)
    requires s.Phase(t) == Body && s.OwnsTransaction(t)
    ensures Possible(s, Call(t, Commit)) && After(s, Call(t, Commit)) == s
    ensures Possible(s, Call(t, Transaction)) && After(s, Call(t, Transaction)) == s
  {
  }

  lemma ThreeSteps(s: State, a: Step, s1: State, b: Step, s2: State, c: Step, s3: State)
    requires Possible(s, a) && After(s, a) == s1 && Possible(s1, b) && After(s1, b) == s2
    requires Possible(s2, c) && After(s2, c) == s3
    ensures Reaches(s, [a, b, c], s3)
  {
    hide After, Possible;
    assert [a, b, c][1..] == [b, c] && [b, c][1..] == [c] && [c][1..] == [];
    assert Reaches(s3, [], s3);
    assert Reaches(s2, [c], s3);
    assert Reaches(s1, [b, c], s3);
  }

  /** One task's transaction of one statement, from the start: it takes effect if the body returns. */
  lemma OneTransaction(ok: bool)
    ensures exists s: State ::
      Reaches(START, [Call(1, Transaction), Acquire(1), Done(1, true)], s)
      && Possible(s, Call(1, Execute(7))) && Possible(After(s, Call(1, Execute(7))), Leave(1, ok))
      && Persisted(After(After(s, Call(1, Execute(7))), Leave(1, ok)).trace) == if ok then [7] else []
  {
    var s1 := State(None, None, map[1 := Waiting(Transaction)], []);
    var s2 := State(Some(1), None, map[1 := InFlight(Transaction)], []);
    var s3 := State(Some(1), Some(1), map[1 := Body], [Begin(1)]);
    ThreeSteps(START, Call(1, Transaction), s1, Acquire(1), s2, Done(1, true), s3);
    Effect([], Begin(1));
    Effect([Begin(1)], Statement(1, 7));
    Effect([Begin(1)] + [Statement(1, 7)], EndUnit(1, ok));
    assert [] + [Begin(1)] == [Begin(1)];
    hide Reaches, Persisted, Uncommitted, OpenUnit;
    assert Persisted([]) == [] && [] + [7] == [7];
  }

  // ------------------------------------------------------------------ a torn BEGIN

  lemma {:induction false} ReachesConcat(s: State, a: seq<Step>, mid: State, b: seq<Step>, s': State)
    requires Reaches(s, a, mid) && Reaches(mid, b, s')
    ensures Reaches(s, a + b, s')
    decreases |a|
  {
    hide After, Possible;
    if a == [] {
      assert a + b == b;
    } else {
      assert (a + b)[1..] == a[1..] + b;
      ReachesConcat(After(s, a[0]), a[1..], mid, b, s');
    }
  }

  lemma NotIsolated(trace: seq<Event>)
    requires trace == [Begin(1), Statement(2, 7)]
    ensures !Isolated(trace)
  {
    assert trace[..1] == [Begin(1)];
    assert OpenUnit(trace[..1]) == Some(1) && trace[1].task == 2;
  }

  const TORN: State := State(None, None, map[1 := Idle], [Begin(1)])

  lemma TearBegin()
    ensures Reaches(START, [Call(1, Transaction), Acquire(1), Torn(1)], TORN)
  {
    var s1 := State(None, None, map[1 := Waiting(Transaction)], []);
    var s2 := State(Some(1), None, map[1 := InFlight(Transaction)], []);
    ThreeSteps(START, Call(1, Transaction), s1, Acquire(1), s2, Torn(1), TORN);
  }

  lemma NextTask(s: State)
    requires s == State(None, None, map[1 := Idle, 2 := Idle], [Begin(1), Statement(2, 7)])
    ensures Reaches(TORN, [Call(2, Execute(7)), Acquire(2), Done(2, true)], s)
  {
    var s1 := State(None, None, map[1 := Idle, 2 := Waiting(Execute(7))], [Begin(1)]);
    var s2 := State(Some(2), None, map[1 := Idle, 2 := InFlight(Execute(7))], [Begin(1)]);
    ThreeSteps(TORN, Call(2, Execute(7)), s1, Acquire(2), s2, Done(2, true), s);
  }

  /** The condition is needed: a task cancelled with its BEGIN in flight leaves a unit that nobody owns,
      and the next task's statement falls into it. */
  lemma TornBeginIsNotIsolated()
    ensures exists steps: seq<Step>, s :: Reaches(START, steps, s) && !Isolated(s.trace)
  {
    hide After, Possible, Reaches, Isolated;
    var s := State(None, None, map[1 := Idle, 2 := Idle], [Begin(1), Statement(2, 7)]);
    TearBegin();
    NextTask(s);
    ReachesConcat(START, [Call(1, Transaction), Acquire(1), Torn(1)], TORN,
                  [Call(2, Execute(7)), Acquire(2), Done(2, true)], s);
    NotIsolated(s.trace);
  }
}
