/**
 * Coroutines as threads under one mutex and one condition variable
 * (src/coroutine_gthread.c).  Thread 0 is the main thread, whose coroutine is
 * `leader`; it creates and resumes the others, which yield or return.  It may
 * also yield itself, which hands its turn to the last one to yield to it.
 * Every access to the shared fields is a step of its own, any thread may take
 * the next step, and a wait may end without a broadcast.
 */
module Coroutine {
  import opened Options

  /** struct coroutine; NULL data is 0. */
  datatype Co = Co(runnable: bool, caller: Option<nat>, data: int, exited: bool)

  /** The way to the lock and past the wait loop, up to `current = ...`. */
  datatype Acquire = Lock | Test | Wait | Adopt

  datatype PC =
    | Idle                                                // no thread
    | Start(at: Acquire)                                  // coroutine_thread, before `entry`
    | Body                                                // the program's own code
    | Init(co: nat, step: nat)                            // coroutine_init, once the thread exists
    | Swap(from: nat, to: nat, arg: int, step: nat)       // coroutine_swap, up to the unlock
    | Resume(from: nat, at: Acquire)                      // coroutine_swap, from the lock on
    | Exit(result: int, step: nat)                        // coroutine_thread, after `entry`

  /** A transfer of control, and the argument it passes. */
  datatype Message = Message(to: nat, value: int)

  datatype State = State(
    cos: seq<Co>,
    pc: seq<PC>,
    lock: Option<nat>,            // the thread that holds run_lock
    current: nat,
    aborted: bool,
    hung: bool,                   // the main thread waits for a thread that has ended
    // what follows only records the run
    baton: nat,                   // whose turn it is
    ready: set<nat>,              // coroutine_init has cleared `runnable`
    yielded: Option<nat>,         // the last coroutine to yield, unless the main thread has yielded since
    sent: seq<Message>,           // transfers begun ...
    got: seq<Message>             // ... and what came out of them
  ) {

    /** Every index is that of a coroutine. */
    ghost predicate Shape()
    {
      && 0 < |pc| && |cos| == |pc|
      && current < |pc| && baton < |pc| && (lock.Some? ==> lock.value < |pc|)
      && (forall t :: 0 <= t < |pc| ==> PCShape(pc[t], |pc|))
      && (yielded.Some? ==> yielded.value < |pc|)
      && (forall t :: 0 <= t < |pc| ==> cos[t].caller.Some? ==> cos[t].caller.value < |pc|)
    }
  }

  predicate Acquiring(p: PC)
  {
    p.Start? || p.Resume?
  }

  predicate PCShape(p: PC, n: nat)
  {
    match p
    case Init(co, step) => co < n && step < 3
    case Swap(from, to, _, step) => from < n && to < n && step < 6
    case Resume(from, _) => from < n
    case Exit(_, step) => step < 5
    case _ => true
  }

  datatype Choice = Go | Spurious | Create(co: nat) | YieldTo(co: nat, arg: int) | Yield(arg: int) | Return(result: int)

  /** Thread `t` goes on, or makes the choice `c` where it has one; None if it cannot. */
  ghost function Step(s: State, t: nat, c: Choice): (r: Option<State>)
    requires s.Shape()
    ensures r.Some? ==> r.value.Shape() && |r.value.pc| == |s.pc|
  {
    if s.aborted || s.hung || |s.pc| <= t then None
    else
      match s.pc[t]
      case Idle => None
      case Start(_) => StepAcquire(s, t, t, c)
      case Resume(from, _) => StepAcquire(s, t, from, c)
      case Body => StepBody(s, t, c)
      case Init(co, step) => if c.Go? then Some(StepInit(s, t, co, step)) else None
      case Swap(from, to, arg, step) => if c.Go? then Some(StepSwap(s, t, from, to, arg, step)) else None
      case Exit(result, step) => if c.Go? then Some(StepExit(s, t, result, step)) else None
  }

  ghost function StepAcquire(s: State, t: nat, who: nat, c: Choice): (r: Option<State>)
    requires s.Shape() && t < |s.pc| && who < |s.pc| && Acquiring(s.pc[t])
    ensures r.Some? ==> r.value.Shape() && |r.value.pc| == |s.pc|
  {
    var p := s.pc[t];
    match p.at
    case Lock =>
      if c.Go? && s.lock.None? then Some(s.(lock := Some(t), pc := s.pc[t := p.(at := Test)])) else None
    case Test =>
      if !c.Go? then None
      else if s.cos[who].runnable then Some(s.(pc := s.pc[t := p.(at := Adopt)]))
      else Some(s.(lock := None, pc := s.pc[t := p.(at := Wait)]))
    case Wait =>
      if c.Spurious? then Some(s.(pc := s.pc[t := p.(at := Lock)])) else None
    case Adopt =>
      if !c.Go? then None
      else Some(s.(current := who, pc := s.pc[t := Body], got := s.got + [Message(t, s.cos[who].data)]))
  }

  ghost function StepBody(s: State, t: nat, c: Choice): (r: Option<State>)
    requires s.Shape() && t < |s.pc|
    ensures r.Some? ==> r.value.Shape() && |r.value.pc| == |s.pc|
  {
    match c
    case Create(co) =>
      if t != 0 || co == 0 || |s.pc| <= co || !s.pc[co].Idle? then None
      else Some(s.(pc := s.pc[co := Start(Lock)][t := Init(co, 0)], ready := s.ready - {co}))
    case YieldTo(co, arg) =>
      if t != 0 || |s.pc| <= co || co !in s.ready then None
      else if s.cos[co].caller.Some? then Some(s.(aborted := true))
      else Some(s.(pc := s.pc[t := Swap(s.current, co, arg, 0)], sent := s.sent + [Message(co, arg)]))
    case Yield(arg) => (
        match s.cos[s.current].caller
        case None => Some(s.(aborted := true))
        case Some(to) =>
          if s.pc[to].Idle? then Some(s.(hung := true))      // no thread will ever run it
          else
            Some(s.(cos := s.cos[s.current := s.cos[s.current].(caller := None)],
                    pc := s.pc[t := Swap(s.current, to, arg, 0)], sent := s.sent + [Message(to, arg)],
                    yielded := if t == 0 then None else Some(t))))
    case Return(result) =>
      if t == 0 then None else Some(s.(pc := s.pc[t := Exit(result, 0)]))
    case _ => None
  }

  ghost function StepInit(s: State, t: nat, co: nat, step: nat): (r: State)
    requires s.Shape() && t < |s.pc| && co < |s.pc| && step < 3
    ensures r.Shape() && |r.pc| == |s.pc|
  {
    if step == 0 then
      s.(cos := s.cos[co := s.cos[co].(exited := false)], pc := s.pc[t := Init(co, 1)])
    else if step == 1 then
      s.(cos := s.cos[co := s.cos[co].(runnable := false)], pc := s.pc[t := Init(co, 2)], ready := s.ready + {co})
    else
      s.(cos := s.cos[co := s.cos[co].(caller := None)], pc := s.pc[t := Body])
  }

  ghost function StepSwap(s: State, t: nat, from: nat, to: nat, arg: int, step: nat): (r: State)
    requires s.Shape() && t < |s.pc| && from < |s.pc| && to < |s.pc| && step < 6
    ensures r.Shape() && |r.pc| == |s.pc|
  {
    var next := s.pc[t := Swap(from, to, arg, step + 1)];
    if step == 0 then s.(cos := s.cos[from := s.cos[from].(runnable := false)], pc := next)
    else if step == 1 then s.(cos := s.cos[to := s.cos[to].(runnable := true)], pc := next, baton := to)
    else if step == 2 then s.(cos := s.cos[to := s.cos[to].(data := arg)], pc := next)
    else if step == 3 then s.(cos := s.cos[to := s.cos[to].(caller := Some(from))], pc := next)
    else if step == 4 then s.(pc := Woken(next))
    else s.(lock := None, pc := s.pc[t := Resume(from, Lock)])
  }

  ghost function StepExit(s: State, t: nat, result: int, step: nat): (r: State)
    requires s.Shape() && t < |s.pc| && step < 5
    ensures r.Shape() && |r.pc| == |s.pc|
  {
    var next := s.pc[t := Exit(result, step + 1)];
    if step == 0 then s.(cos := s.cos[t := s.cos[t].(data := result)], pc := next)
    else if step == 1 then s.(cos := s.cos[t := s.cos[t].(exited := true)], pc := next)
    else if step == 2 then (
      match s.cos[t].caller
      case None => s.(aborted := true)
      case Some(to) =>
        s.(cos := s.cos[to := s.cos[to].(runnable := true)], pc := next, baton := to,
           sent := s.sent + [Message(to, s.cos[to].data)]))
    else if step == 3 then s.(pc := Woken(next))
    else s.(lock := None, pc := s.pc[t := Idle])
  }

  /** g_cond_broadcast */
  ghost function Woken(pc: seq<PC>): (r: seq<PC>)
    ensures |r| == |pc| && forall t :: 0 <= t < |pc| ==> r[t] == Wake(pc[t])
  {
    seq(|pc|, t requires 0 <= t < |pc| => Wake(pc[t]))
  }

  function Wake(p: PC): PC
  {
    match p
    case Start(Wait) => Start(Lock)
    case Resume(from, Wait) => Resume(from, Lock)
    case _ => p
  }

  /** After coroutine_system_init; the other coroutines hold anything. */
  ghost predicate Initial(s: State)
  {
    && s.Shape() && !s.aborted && !s.hung
    && s.pc[0] == Body && (forall t :: 0 < t < |s.pc| ==> s.pc[t] == Idle)
    && s.cos[0] == Co(true, None, 0, false)
    && s.lock == Some(0) && s.current == 0 && s.baton == 0
    && s.ready == {} && s.yielded == None && s.sent == [] && s.got == []
  }

  /** There is such a state for any number of coroutines, whatever the others hold. */
  ghost function Beginning(others: seq<Co>): (s: State)
    requires forall t :: 0 <= t < |others| ==> others[t].caller.None?
    ensures Initial(s) && |s.pc| == 1 + |others| && s.cos[1..] == others
  {
    State([Co(true, None, 0, false)] + others, [Body] + seq(|others|, _ => Idle), Some(0), 0, false, false, 0, {}, None, [], [])
  }

  /** A run: threads take steps in any order; what is not possible has no effect. */
  ghost predicate Runs(s: State, schedule: seq<(nat, Choice)>, end: State): (r: bool)
    requires s.Shape()
    ensures r ==> end.Shape()
    decreases |schedule|
  {
    if schedule == [] then end == s
    else
      var (t, c) := schedule[0];
      match Step(s, t, c)
      case None => Runs(s, schedule[1..], end)
      case Some(s') => Runs(s', schedule[1..], end)
  }

  /* What every step keeps. */

  predicate Holding(p: PC)
  {
    match p
    case Idle => false
    case Start(at) => at.Test? || at.Adopt?
    case Resume(_, at) => at.Test? || at.Adopt?
    case _ => true
  }

  /** Thread `t` is where its role lets it be, and it is its turn where that must be. */
  ghost predicate Placed(s: State, t: nat)
    requires s.Shape() && t < |s.pc|
  {
    match s.pc[t]
    case Idle => t != 0 && s.baton != t
    case Start(at) => t != 0 && (at.Adopt? ==> s.baton == t)
    case Resume(from, at) => from == t && (at.Adopt? ==> s.baton == t)
    case Body => s.baton == t && s.current == t
    case Init(co, _) => t == 0 && s.baton == 0 && s.current == 0 && co != 0 && s.pc[co] == Start(Lock)
    case Swap(from, to, _, step) =>
      && from == t && Acquiring(s.pc[to]) && (if t == 0 then to != 0 && to in s.ready else to == 0)
      && s.baton == if step <= 1 then t else to
    case Exit(_, step) => t != 0 && Acquiring(s.pc[0]) && s.baton == if step <= 2 then t else 0
  }

  /** `coroutine_init` is not through with `t`. */
  ghost predicate Fresh(s: State, t: nat)
    requires s.Shape()
  {
    s.pc[0].Init? && s.pc[0].co == t
  }

  /** While another coroutine has its turn the main thread waits to be swapped back in. */
  ghost predicate Nested(s: State, t: nat)
    requires s.Shape() && t < |s.pc|
  {
    && (t != 0 && s.baton == t ==>
          (s.pc[0].Resume? || (s.pc[0].Swap? && s.pc[0].to == t && 2 <= s.pc[0].step)) && !s.pc[t].Idle? && t in s.ready)
    && (t != 0 && !s.pc[t].Idle? && !Fresh(s, t) ==> t in s.ready)
    && (Fresh(s, t) && s.pc[0].step == 2 ==> t in s.ready)
    && (Fresh(s, t) && s.pc[0].step < 2 ==> t !in s.ready)
    && (t == 0 && t in s.ready ==> false)
  }

  ghost predicate RunnableRight(s: State, t: nat)
    requires s.Shape() && t < |s.pc|
  {
    !s.pc[t].Idle? && !s.pc[t].Exit? && (t == 0 || t in s.ready) ==>
      (s.cos[t].runnable <==> s.baton == t && !(s.pc[t].Swap? && s.pc[t].step == 1))
  }

  /** A coroutine has a caller exactly while it is the one resumed, or has ended. */
  ghost predicate CallerRight(s: State, t: nat)
    requires s.Shape() && t < |s.pc|
  {
    t != 0 && t in s.ready && !Fresh(s, t) ==>
      s.cos[t].caller ==
        match s.pc[t]
        case Swap(_, _, _, _) => None
        case Start(_) => if s.baton == t && !(s.pc[0].Swap? && s.pc[0].step <= 3) then Some(0) else None
        case Resume(_, _) => if s.baton == t && !(s.pc[0].Swap? && s.pc[0].step <= 3) then Some(0) else None
        case _ => Some(0)
  }

  /** A worker is yielding and is not yet the caller of the main thread's coroutine. */
  ghost predicate Yielding(s: State)
    requires s.Shape()
  {
    s.lock.Some? && s.lock.value != 0 && s.pc[s.lock.value].Swap? && s.pc[s.lock.value].step <= 3
  }

  /** The main thread's coroutine has for a caller the last to yield to it. */
  ghost predicate LeaderCaller(s: State)
    requires s.Shape()
  {
    && (s.yielded.Some? ==> s.yielded.value != 0 && (s.yielded.value in s.ready || Fresh(s, s.yielded.value)))
    && (s.lock.Some? && s.lock.value != 0 && s.pc[s.lock.value].Swap? ==> s.yielded == s.lock)
    && (Yielding(s) || s.cos[0].caller == s.yielded)
  }

  /** The thread whose turn it is never waits without a broadcast to come. */
  ghost predicate WakeUpDue(s: State)
    requires s.Shape()
  {
    Acquiring(s.pc[s.baton]) && s.pc[s.baton].at.Wait? ==>
      s.lock.Some? &&
      match s.pc[s.lock.value]
      case Swap(_, _, _, step) => 2 <= step <= 4
      case Exit(_, step) => step == 3
      case _ => false
  }

  /** `exited` is set once a coroutine has ended, and only then. */
  ghost predicate ExitedRight(s: State, t: nat)
    requires s.Shape() && t < |s.pc|
  {
    && (t in s.ready && !Fresh(s, t) ==>
          (s.cos[t].exited <==> s.pc[t].Idle? || (s.pc[t].Exit? && 2 <= s.pc[t].step)))
    && (Fresh(s, t) && 1 <= s.pc[0].step ==> !s.cos[t].exited)
  }

  ghost predicate InvAt(s: State, t: nat)
    requires s.Shape() && t < |s.pc|
  {
    && (Holding(s.pc[t]) <==> s.lock == Some(t))
    && Placed(s, t) && Nested(s, t) && RunnableRight(s, t) && CallerRight(s, t) && ExitedRight(s, t)
  }

  ghost predicate Inv(s: State)
  {
    s.Shape() && (forall t :: 0 <= t < |s.pc| ==> InvAt(s, t)) && WakeUpDue(s) && LeaderCaller(s)
  }

  /** A step of thread `t`, which keeps the state in shape, and what is known where it matters to thread `u`. */
  ghost predicate Seen(s: State, t: nat, c: Choice, u: nat)
  {
    && s.Shape() && t < |s.pc| && u < |s.pc| && Step(s, t, c).Some?
    && InvAt(s, 0) && InvAt(s, t) && InvAt(s, u)
  }

  /** A thread that moves on while it acquires the lock changes no one's role. */
  lemma MoveKeepsRoles(s: State, s': State, t: nat, at: Acquire, u: nat)
    requires s.Shape() && s'.Shape() && t < |s.pc| && u < |s.pc| && Acquiring(s.pc[t])
    requires s' == s.(lock := s'.lock, pc := s.pc[t := s.pc[t].(at := at)])
    ensures Nested(s', u) == Nested(s, u) && RunnableRight(s', u) == RunnableRight(s, u)
    ensures CallerRight(s', u) == CallerRight(s, u) && ExitedRight(s', u) == ExitedRight(s, u)
  {
  }

  lemma LockKeepsInvAt(s: State, t: nat, c: Choice, u: nat)
    requires Seen(s, t, c, u) && Acquiring(s.pc[t]) && s.pc[t].at.Lock?
    ensures InvAt(Step(s, t, c).value, u)
  {
  }

  lemma WaitKeepsInvAt(s: State, t: nat, c: Choice, u: nat)
    requires Seen(s, t, c, u) && Acquiring(s.pc[t]) && s.pc[t].at.Wait?
    ensures InvAt(Step(s, t, c).value, u)
  {
    hide Nested, RunnableRight, CallerRight, ExitedRight, StepBody, StepInit, StepSwap, StepExit;
    MoveKeepsRoles(s, Step(s, t, c).value, t, Lock, u);
  }

  lemma TestKeepsInvAt(s: State, t: nat, c: Choice, u: nat)
    requires Seen(s, t, c, u) && Acquiring(s.pc[t]) && s.pc[t].at.Test?
    ensures InvAt(Step(s, t, c).value, u)
  {
    var who := if s.pc[t].Start? then t else s.pc[t].from;
    var at := if s.cos[who].runnable then Adopt else Wait;
    assert at.Adopt? ==> s.baton == t;
    hide Nested, RunnableRight, CallerRight, ExitedRight, StepBody, StepInit, StepSwap, StepExit;
    MoveKeepsRoles(s, Step(s, t, c).value, t, at, u);
  }

  lemma AdoptKeepsInvAt(s: State, t: nat, c: Choice, u: nat)
    requires Seen(s, t, c, u) && Acquiring(s.pc[t]) && s.pc[t].at.Adopt?
    ensures InvAt(Step(s, t, c).value, u)
  {
  }

  lemma CreateKeepsInvAt(s: State, t: nat, c: Choice, u: nat)
    requires Seen(s, t, c, u) && s.pc[t].Body? && c.Create?
    ensures InvAt(Step(s, t, c).value, u)
  {
    hide StepAcquire, StepInit, StepSwap, StepExit;
  }

  lemma YieldToKeepsInvAt(s: State, t: nat, c: Choice, u: nat)
    requires Seen(s, t, c, u) && s.pc[t].Body? && c.YieldTo? && (c.co < |s.pc| ==> InvAt(s, c.co))
    ensures InvAt(Step(s, t, c).value, u)
  {
    hide StepAcquire, StepInit, StepSwap, StepExit;
  }

  lemma YieldKeepsInvAt(s: State, t: nat, c: Choice, u: nat)
    requires Seen(s, t, c, u) && s.pc[t].Body? && c.Yield? && LeaderCaller(s) && (s.yielded.Some? ==> InvAt(s, s.yielded.value))
    ensures InvAt(Step(s, t, c).value, u)
  {
    hide StepAcquire, StepInit, StepSwap, StepExit;
  }

  lemma ReturnKeepsInvAt(s: State, t: nat, c: Choice, u: nat)
    requires Seen(s, t, c, u) && s.pc[t].Body? && c.Return?
    ensures InvAt(Step(s, t, c).value, u)
  {
    hide StepAcquire, StepInit, StepSwap, StepExit;
  }

  lemma BodyKeepsInvAt(s: State, t: nat, c: Choice, u: nat)
    requires Seen(s, t, c, u) && s.pc[t].Body? && (c.YieldTo? && c.co < |s.pc| ==> InvAt(s, c.co))
    requires LeaderCaller(s) && (c.Yield? && s.yielded.Some? ==> InvAt(s, s.yielded.value))
    ensures InvAt(Step(s, t, c).value, u)
  {
    hide InvAt, LeaderCaller, StepAcquire, StepInit, StepSwap, StepExit;
    match c
    case Create(_) => CreateKeepsInvAt(s, t, c, u);
    case YieldTo(_, _) => YieldToKeepsInvAt(s, t, c, u);
    case Yield(_) => YieldKeepsInvAt(s, t, c, u);
    case Return(_) => ReturnKeepsInvAt(s, t, c, u);
    case Go =>
    case Spurious =>
  }

  lemma InitKeepsInvAt(s: State, t: nat, c: Choice, u: nat)
    requires Seen(s, t, c, u) && s.pc[t].Init?
    ensures InvAt(Step(s, t, c).value, u)
  {
  }

  lemma StopKeepsInvAt(s: State, t: nat, c: Choice, u: nat)
    requires Seen(s, t, c, u) && s.pc[t].Swap? && s.pc[t].step == 0 && InvAt(s, s.pc[t].to)
    ensures InvAt(Step(s, t, c).value, u)
  {
    hide StepBody, StepInit, StepAcquire, StepExit, Woken;
  }

  lemma HandOverKeepsInvAt(s: State, t: nat, c: Choice, u: nat)
    requires Seen(s, t, c, u) && s.pc[t].Swap? && s.pc[t].step == 1 && InvAt(s, s.pc[t].to)
    ensures InvAt(Step(s, t, c).value, u)
  {
    hide StepBody, StepInit, StepAcquire, StepExit, Woken;
  }

  lemma StoreKeepsInvAt(s: State, t: nat, c: Choice, u: nat)
    requires Seen(s, t, c, u) && s.pc[t].Swap? && s.pc[t].step == 2 && InvAt(s, s.pc[t].to)
    ensures InvAt(Step(s, t, c).value, u)
  {
    hide StepBody, StepInit, StepAcquire, StepExit, Woken;
  }

  lemma SetCallerKeepsInvAt(s: State, t: nat, c: Choice, u: nat)
    requires Seen(s, t, c, u) && s.pc[t].Swap? && s.pc[t].step == 3 && InvAt(s, s.pc[t].to)
    ensures InvAt(Step(s, t, c).value, u)
  {
    hide StepBody, StepInit, StepAcquire, StepExit, Woken;
  }

  lemma UnlockKeepsInvAt(s: State, t: nat, c: Choice, u: nat)
    requires Seen(s, t, c, u) && s.pc[t].Swap? && s.pc[t].step == 5 && InvAt(s, s.pc[t].to)
    ensures InvAt(Step(s, t, c).value, u)
  {
    hide StepBody, StepInit, StepAcquire, StepExit, Woken;
  }

  lemma BroadcastKeepsInvAt(s: State, t: nat, c: Choice, u: nat)
    requires Seen(s, t, c, u) && ((s.pc[t].Swap? && s.pc[t].step == 4 && InvAt(s, s.pc[t].to)) || (s.pc[t].Exit? && s.pc[t].step == 3))
    ensures InvAt(Step(s, t, c).value, u)
  {
    hide StepBody, StepInit, StepAcquire;
  }

  lemma ExitKeepsInvAt(s: State, t: nat, c: Choice, u: nat)
    requires Seen(s, t, c, u) && s.pc[t].Exit? && s.pc[t].step != 3
    ensures InvAt(Step(s, t, c).value, u)
  {
  }

  lemma StepKeepsInvAt(s: State, t: nat, c: Choice, u: nat)
    requires Inv(s) && u < |s.pc| && Step(s, t, c).Some?
    ensures InvAt(Step(s, t, c).value, u)
  {
    assert InvAt(s, 0) && InvAt(s, t) && InvAt(s, u);
    assert s.pc[t].Swap? ==> InvAt(s, s.pc[t].to) by { assert PCShape(s.pc[t], |s.pc|); }
    assert c.YieldTo? && c.co < |s.pc| ==> InvAt(s, c.co);
    assert s.yielded.Some? ==> InvAt(s, s.yielded.value);
    hide LeaderCaller;
    hide Inv, InvAt, StepSwap, StepAcquire, StepBody, StepInit, StepExit;
    match s.pc[t]
    case Body => BodyKeepsInvAt(s, t, c, u);
    case Init(_, _) => InitKeepsInvAt(s, t, c, u);
    case Swap(_, _, _, step) =>
      if step == 0 {
        StopKeepsInvAt(s, t, c, u);
      } else if step == 1 {
        HandOverKeepsInvAt(s, t, c, u);
      } else if step == 4 {
        BroadcastKeepsInvAt(s, t, c, u);
      } else if step == 2 {
        StoreKeepsInvAt(s, t, c, u);
      } else if step == 3 {
        SetCallerKeepsInvAt(s, t, c, u);
      } else {
        UnlockKeepsInvAt(s, t, c, u);
      }
    case Exit(_, step) =>
      if step == 3 {
        BroadcastKeepsInvAt(s, t, c, u);
      } else {
        ExitKeepsInvAt(s, t, c, u);
      }
    case Start(at) => AcquiringKeepsInvAt(s, t, c, u);
    case Resume(_, at) => AcquiringKeepsInvAt(s, t, c, u);
  }

  lemma AcquiringKeepsInvAt(s: State, t: nat, c: Choice, u: nat)
    requires Seen(s, t, c, u) && Acquiring(s.pc[t])
    ensures InvAt(Step(s, t, c).value, u)
  {
    hide InvAt, Step;
    match s.pc[t].at
    case Test => TestKeepsInvAt(s, t, c, u);
    case Adopt => AdoptKeepsInvAt(s, t, c, u);
    case Lock => LockKeepsInvAt(s, t, c, u);
    case Wait => WaitKeepsInvAt(s, t, c, u);
  }

  lemma AcquiringKeepsWakeUpDue(s: State, t: nat, c: Choice)
    requires Seen(s, t, c, s.baton) && WakeUpDue(s) && (s.lock.Some? ==> InvAt(s, s.lock.value)) && Acquiring(s.pc[t])
    ensures WakeUpDue(Step(s, t, c).value)
  {
  }

  lemma SwapKeepsWakeUpDue(s: State, t: nat, c: Choice)
    requires Seen(s, t, c, s.baton) && WakeUpDue(s) && s.pc[t].Swap?
    ensures WakeUpDue(Step(s, t, c).value)
  {
    hide StepAcquire, StepBody, StepInit, StepExit;
  }

  lemma ExitKeepsWakeUpDue(s: State, t: nat, c: Choice)
    requires Seen(s, t, c, s.baton) && WakeUpDue(s) && s.pc[t].Exit?
    ensures WakeUpDue(Step(s, t, c).value)
  {
    hide StepAcquire, StepBody, StepInit, StepSwap;
  }

  lemma BodyKeepsWakeUpDue(s: State, t: nat, c: Choice)
    requires Seen(s, t, c, s.baton) && WakeUpDue(s) && (s.pc[t].Body? || s.pc[t].Init?)
    ensures WakeUpDue(Step(s, t, c).value)
  {
    hide StepAcquire, StepSwap, StepExit;
  }

  lemma AcquiringKeepsLeaderCaller(s: State, t: nat, c: Choice)
    requires Watched(s, t, c) && LeaderCaller(s) && Acquiring(s.pc[t])
    ensures LeaderCaller(Step(s, t, c).value)
  {
    hide Placed, Nested, RunnableRight, CallerRight, ExitedRight, StepBody, StepInit, StepSwap, StepExit;
  }

  lemma SwapKeepsLeaderCaller(s: State, t: nat, c: Choice)
    requires Watched(s, t, c) && LeaderCaller(s) && (s.pc[t].Swap? || s.pc[t].Exit?)
    ensures LeaderCaller(Step(s, t, c).value)
  {
    hide Nested, RunnableRight, CallerRight, ExitedRight, StepAcquire, StepBody, StepInit;
  }

  lemma BodyKeepsLeaderCaller(s: State, t: nat, c: Choice)
    requires Watched(s, t, c) && LeaderCaller(s) && (s.pc[t].Body? || s.pc[t].Init?)
    requires s.yielded.Some? ==> InvAt(s, s.yielded.value)
    ensures LeaderCaller(Step(s, t, c).value)
  {
    hide RunnableRight, CallerRight, ExitedRight, StepAcquire, StepSwap, StepExit;
  }

  lemma StepKeepsInv(s: State, t: nat, c: Choice)
    requires Inv(s) && Step(s, t, c).Some?
    ensures Inv(Step(s, t, c).value)
  {
    assert s.yielded.Some? ==> InvAt(s, s.yielded.value);
    assert InvAt(s, 0) && InvAt(s, t) && InvAt(s, s.baton) && (s.lock.Some? ==> InvAt(s, s.lock.value));
    if Acquiring(s.pc[t]) {
      AcquiringKeepsWakeUpDue(s, t, c);
      AcquiringKeepsLeaderCaller(s, t, c);
    } else if s.pc[t].Swap? || s.pc[t].Exit? {
      if s.pc[t].Swap? {
        SwapKeepsWakeUpDue(s, t, c);
      } else {
        ExitKeepsWakeUpDue(s, t, c);
      }
      SwapKeepsLeaderCaller(s, t, c);
    } else {
      BodyKeepsWakeUpDue(s, t, c);
      BodyKeepsLeaderCaller(s, t, c);
    }
    hide InvAt, Step, WakeUpDue, LeaderCaller;
    forall u | 0 <= u < |s.pc|
      ensures InvAt(Step(s, t, c).value, u)
    {
      StepKeepsInvAt(s, t, c, u);
    }
  }

  /* What is delivered. */

  /** What the last transfer to the main thread carried; NULL if there was none. */
  ghost function LastToLeader(sent: seq<Message>): int
  {
    if sent == [] then 0
    else
      var last := sent[|sent| - 1];
      if last.to == 0 then last.value else LastToLeader(sent[..|sent| - 1])
  }

  /** Thread `t` has called coroutine_swap and not yet stored the argument. */
  ghost predicate Unstored(s: State, t: nat)
    requires t < |s.pc|
  {
    s.pc[t].Swap? && s.pc[t].step <= 2
  }

  /** What has come out is what was passed in, in order, but for the transfer under way. */
  ghost predicate Mail(s: State)
    requires s.Shape()
  {
    match s.pc[s.baton]
    case Start(_) => UnderWay(s)
    case Resume(_, _) => UnderWay(s)
    case Swap(_, to, arg, _) => s.sent == s.got + [Message(to, arg)]
    case _ => s.sent == s.got
  }

  ghost predicate UnderWay(s: State)
    requires s.Shape()
  {
    && |s.sent| == |s.got| + 1 && s.sent[..|s.got|] == s.got && s.sent[|s.got|].to == s.baton
    && (if s.lock.Some? && Unstored(s, s.lock.value) then s.pc[s.lock.value].arg == s.sent[|s.got|].value
        else s.cos[s.baton].data == s.sent[|s.got|].value)
  }

  /** The main thread's coroutine keeps the last argument passed to it. */
  ghost predicate LeaderData(s: State)
    requires s.Shape()
  {
    s.cos[0].data == LastToLeader(if ToLeaderUnstored(s) then s.sent[..|s.sent| - 1] else s.sent)
  }

  /** A worker is yielding and its argument is still to be stored. */
  ghost predicate ToLeaderUnstored(s: State)
    requires s.Shape()
  {
    s.lock.Some? && s.sent != [] && Unstored(s, s.lock.value) && s.pc[s.lock.value].to == 0
  }

  ghost predicate Watched(s: State, t: nat, c: Choice)
  {
    Seen(s, t, c, s.baton) && (s.lock.Some? ==> InvAt(s, s.lock.value))
  }

  lemma AcquiringKeepsMail(s: State, t: nat, c: Choice)
    requires Watched(s, t, c) && Mail(s) && Acquiring(s.pc[t]) && !s.pc[t].at.Adopt?
    ensures Mail(Step(s, t, c).value)
  {
    hide Placed, Nested, RunnableRight, CallerRight, ExitedRight;
  }

  lemma AdoptKeepsMail(s: State, t: nat, c: Choice)
    requires Watched(s, t, c) && Mail(s) && Acquiring(s.pc[t]) && s.pc[t].at.Adopt?
    ensures Mail(Step(s, t, c).value)
  {
  }

  lemma HandOverKeepsMail(s: State, t: nat, c: Choice)
    requires Watched(s, t, c) && Mail(s) && s.pc[t].Swap? && s.pc[t].step < 2
    ensures Mail(Step(s, t, c).value)
  {
    hide StepAcquire, StepBody, StepInit, StepExit;
  }

  lemma StoreKeepsMail(s: State, t: nat, c: Choice)
    requires Watched(s, t, c) && Mail(s) && s.pc[t].Swap? && 2 <= s.pc[t].step < 4
    ensures Mail(Step(s, t, c).value)
  {
    hide StepAcquire, StepBody, StepInit, StepExit;
  }

  lemma UnlockKeepsMail(s: State, t: nat, c: Choice)
    requires Watched(s, t, c) && Mail(s) && s.pc[t].Swap? && 4 <= s.pc[t].step
    ensures Mail(Step(s, t, c).value)
  {
    hide StepAcquire, StepBody, StepInit, StepExit;
  }

  lemma SwapKeepsMail(s: State, t: nat, c: Choice)
    requires Watched(s, t, c) && Mail(s) && s.pc[t].Swap?
    ensures Mail(Step(s, t, c).value)
  {
    var step := s.pc[t].step;
    hide Mail, Watched, Step;
    if step < 2 {
      HandOverKeepsMail(s, t, c);
    } else if step < 4 {
      StoreKeepsMail(s, t, c);
    } else {
      UnlockKeepsMail(s, t, c);
    }
  }

  lemma ExitKeepsMail(s: State, t: nat, c: Choice)
    requires Watched(s, t, c) && Mail(s) && s.pc[t].Exit?
    ensures Mail(Step(s, t, c).value)
  {
  }

  lemma RunningKeepsMail(s: State, t: nat, c: Choice)
    requires Watched(s, t, c) && Mail(s) && (s.pc[t].Body? || s.pc[t].Init?)
    ensures Mail(Step(s, t, c).value)
  {
  }

  lemma InitKeepsLeaderData(s: State, t: nat, c: Choice)
    requires Watched(s, t, c) && LeaderData(s) && s.pc[t].Init?
    ensures LeaderData(Step(s, t, c).value)
  {
    hide CallerRight, ExitedRight, StepAcquire, StepBody, StepSwap, StepExit, LastToLeader;
  }

  lemma BodyKeepsLeaderData(s: State, t: nat, c: Choice)
    requires Watched(s, t, c) && LeaderData(s) && s.pc[t].Body?
    ensures LeaderData(Step(s, t, c).value)
  {
    hide LastToLeader, Nested, RunnableRight, CallerRight, ExitedRight, StepAcquire, StepInit, StepSwap, StepExit;
    if c.YieldTo? || c.Yield? {
      var sent := Step(s, t, c).value.sent;
      if sent != s.sent {
        OneMoreToLeader(s.sent, sent[|s.sent|]);
      }
    }
  }

  lemma OneMoreToLeader(sent: seq<Message>, m: Message)
    ensures (sent + [m])[..|sent|] == sent
    ensures LastToLeader(sent + [m]) == if m.to == 0 then m.value else LastToLeader(sent)
  {
    assert (sent + [m])[..|sent|] == sent;
  }

  lemma AcquiringKeepsLeaderData(s: State, t: nat, c: Choice)
    requires Watched(s, t, c) && LeaderData(s) && Acquiring(s.pc[t])
    ensures LeaderData(Step(s, t, c).value)
  {
    hide Placed, Nested, RunnableRight, CallerRight, ExitedRight;
    hide LastToLeader;
  }

  lemma StoreKeepsLeaderData(s: State, t: nat, c: Choice)
    requires Watched(s, t, c) && Mail(s) && LeaderData(s) && s.pc[t].Swap? && s.pc[t].step == 2
    ensures LeaderData(Step(s, t, c).value)
  {
    hide StepAcquire, StepBody, StepInit, StepExit;
  }

  lemma OtherSwapKeepsLeaderData(s: State, t: nat, c: Choice)
    requires Watched(s, t, c) && LeaderData(s) && s.pc[t].Swap? && s.pc[t].step != 2
    ensures LeaderData(Step(s, t, c).value)
  {
    hide StepAcquire, StepBody, StepInit, StepExit, LastToLeader;
  }

  lemma SwapKeepsLeaderData(s: State, t: nat, c: Choice)
    requires Watched(s, t, c) && Mail(s) && LeaderData(s) && s.pc[t].Swap?
    ensures LeaderData(Step(s, t, c).value)
  {
    var step := s.pc[t].step;
    hide Mail, LeaderData, Watched, Step;
    if step == 2 {
      StoreKeepsLeaderData(s, t, c);
    } else {
      OtherSwapKeepsLeaderData(s, t, c);
    }
  }

  lemma ExitKeepsLeaderData(s: State, t: nat, c: Choice)
    requires Watched(s, t, c) && LeaderData(s) && s.pc[t].Exit?
    ensures LeaderData(Step(s, t, c).value)
  {
  }

  ghost predicate Good(s: State)
  {
    Inv(s) && Mail(s) && LeaderData(s)
  }

  lemma InvWatches(s: State, t: nat, c: Choice)
    requires Inv(s) && Step(s, t, c).Some?
    ensures Watched(s, t, c) && t < |s.pc| && !s.pc[t].Idle?
  {
    hide InvAt;
  }

  lemma StepKeepsGood(s: State, t: nat, c: Choice)
    requires Good(s) && Step(s, t, c).Some?
    ensures Good(Step(s, t, c).value)
  {
    hide Inv, Mail, LeaderData, Watched, Step;
    StepKeepsInv(s, t, c);
    InvWatches(s, t, c);
    match s.pc[t]
    case Swap(_, _, _, _) =>
      SwapKeepsMail(s, t, c);
      SwapKeepsLeaderData(s, t, c);
    case Exit(_, _) =>
      ExitKeepsMail(s, t, c);
      ExitKeepsLeaderData(s, t, c);
    case Body =>
      RunningKeepsMail(s, t, c);
      BodyKeepsLeaderData(s, t, c);
    case Init(_, _) =>
      RunningKeepsMail(s, t, c);
      InitKeepsLeaderData(s, t, c);
    case Start(at) => AcquiringKeepsBoth(s, t, c);
    case Resume(_, at) => AcquiringKeepsBoth(s, t, c);
  }

  lemma AcquiringKeepsBoth(s: State, t: nat, c: Choice)
    requires Watched(s, t, c) && Mail(s) && LeaderData(s) && Acquiring(s.pc[t])
    ensures Mail(Step(s, t, c).value) && LeaderData(Step(s, t, c).value)
  {
    hide Mail, LeaderData, Step, InvAt;
    AcquiringKeepsLeaderData(s, t, c);
    if s.pc[t].at.Adopt? {
      AdoptKeepsMail(s, t, c);
    } else {
      AcquiringKeepsMail(s, t, c);
    }
  }

  lemma {:induction false} RunKeepsGood(s: State, schedule: seq<(nat, Choice)>, end: State)
    requires Good(s) && Runs(s, schedule, end)
    ensures Good(end)
    decreases |schedule|
  {
    assert s.Shape();
    hide Good, Step;
    if schedule != [] {
      var (t, c) := schedule[0];
      match Step(s, t, c)
      case None => RunKeepsGood(s, schedule[1..], end);
      case Some(s') =>
        StepKeepsGood(s, t, c);
        RunKeepsGood(s', schedule[1..], end);
    }
  }

  lemma Reached(s: State, schedule: seq<(nat, Choice)>, end: State)
    requires Initial(s) && Runs(s, schedule, end)
    ensures Good(end)
  {
    RunKeepsGood(s, schedule, end);
  }

  /* What follows, for every schedule. */

  /**
   * The program's own code runs in one thread at a time, and that thread
   * holds the lock, is runnable and is `current`.
   */
  lemma OneBodyAtATime(s: State, schedule: seq<(nat, Choice)>, end: State, t: nat)
    requires Initial(s) && Runs(s, schedule, end) && t < |end.pc| && end.pc[t].Body?
    ensures end.lock == Some(t) && end.current == t && end.cos[t].runnable
    ensures forall u :: 0 <= u < |end.pc| && end.pc[u].Body? ==> u == t
  {
    Reached(s, schedule, end);
    assert InvAt(end, t) && InvAt(end, 0);
    forall u | 0 <= u < |end.pc| && end.pc[u].Body?
      ensures u == t
    {
      assert InvAt(end, u);
    }
  }

  /** A new thread does not look at `runnable` before coroutine_init has cleared it. */
  lemma NoEarlyTest(s: State, schedule: seq<(nat, Choice)>, end: State, t: nat)
    requires Initial(s) && Runs(s, schedule, end) && t < |end.pc| && end.pc[t] == Start(Test)
    ensures t in end.ready && !Fresh(end, t)
  {
    Reached(s, schedule, end);
    assert InvAt(end, t) && InvAt(end, 0);
  }

  /**
   * No wake-up is lost, short of the main thread yielding to a coroutine that
   * has ended: while nobody holds the lock, the thread whose turn it
   * is can take it; and whoever holds it can go on, unless it runs the
   * program's own code, which decides what comes next.
   */
  lemma NeverStuck(s: State, schedule: seq<(nat, Choice)>, end: State)
    requires Initial(s) && Runs(s, schedule, end) && !end.aborted && !end.hung
    ensures end.lock.None? ==> Step(end, end.baton, Go).Some?
    ensures end.lock.Some? ==> end.pc[end.lock.value].Body? || Step(end, end.lock.value, Go).Some?
  {
    Reached(s, schedule, end);
    assert InvAt(end, end.baton) && InvAt(end, 0) && (end.lock.Some? ==> InvAt(end, end.lock.value));
  }

  /** How many steps of its own a thread is from the program's code, or from letting the lock go. */
  function Ahead(p: PC): nat
  {
    match p
    case Init(_, step) => if step < 3 then 3 - step else 0
    case Swap(_, _, _, step) => if step < 6 then 6 - step else 0
    case Exit(_, step) => if step < 5 then 5 - step else 0
    case Start(at) => if at.Test? then 2 else if at.Adopt? then 1 else 0
    case Resume(_, at) => if at.Test? then 2 else if at.Adopt? then 1 else 0
    case _ => 0
  }

  /** Nor does the thread that holds the lock go round in circles; a wait ends by itself only spuriously. */
  lemma Advances(s: State, schedule: seq<(nat, Choice)>, end: State, t: nat, c: Choice)
    requires Initial(s) && Runs(s, schedule, end) && !end.aborted && !end.hung && t < |end.pc|
    ensures end.lock == Some(t) && !end.pc[t].Body? ==>
              && Step(end, t, Go).Some?
              && var s' := Step(end, t, Go).value; s'.lock != Some(t) || Ahead(s'.pc[t]) < Ahead(end.pc[t])
    ensures Acquiring(end.pc[t]) && end.pc[t].at.Wait? ==> (Step(end, t, c).Some? <==> c.Spurious?)
  {
    Reached(s, schedule, end);
    assert InvAt(end, t) && InvAt(end, 0);
  }

  /**
   * Resuming a coroutine aborts exactly when it has ended; yielding does when
   * the main thread yields though none has yielded to it since it last did,
   * and hangs when it yields to one that has ended.
   */
  lemma AbortsIffEnded(s: State, schedule: seq<(nat, Choice)>, end: State, t: nat, c: Choice)
    requires Initial(s) && Runs(s, schedule, end) && !end.aborted && !end.hung && Step(end, t, c).Some?
    ensures Step(end, t, c).value.aborted
        <==> end.pc[t].Body? && ((c.YieldTo? && end.cos[c.co].exited) || (c.Yield? && t == 0 && end.yielded.None?))
    ensures Step(end, t, c).value.hung
        <==> end.pc[t].Body? && c.Yield? && t == 0 && end.yielded.Some? && end.cos[end.yielded.value].exited
  {
    Reached(s, schedule, end);
    assert InvAt(end, t) && InvAt(end, 0) && (end.pc[t].Body? && c.YieldTo? ==> InvAt(end, c.co));
    assert end.yielded.Some? ==> InvAt(end, end.yielded.value);
    hide Runs, Good, InvAt, LeaderCaller, StepBody, StepInit, StepSwap, StepExit, StepAcquire;
    if end.pc[t].Body? {
      BodyAborts(end, t, c);
    } else {
      NothingElseAborts(end, t, c);
    }
  }

  lemma BodyAborts(s: State, t: nat, c: Choice)
    requires s.Shape() && !s.aborted && !s.hung && t < |s.pc| && s.pc[t].Body? && StepBody(s, t, c).Some?
    requires InvAt(s, 0) && InvAt(s, t) && (c.YieldTo? ==> InvAt(s, c.co))
    requires LeaderCaller(s) && (s.yielded.Some? ==> InvAt(s, s.yielded.value))
    ensures StepBody(s, t, c).value.aborted
        <==> (c.YieldTo? && s.cos[c.co].exited) || (c.Yield? && t == 0 && s.yielded.None?)
    ensures StepBody(s, t, c).value.hung
        <==> c.Yield? && t == 0 && s.yielded.Some? && s.cos[s.yielded.value].exited
  {
  }

  lemma NothingElseAborts(s: State, t: nat, c: Choice)
    requires s.Shape() && !s.aborted && !s.hung && t < |s.pc| && !s.pc[t].Body? && Step(s, t, c).Some? && InvAt(s, 0) && InvAt(s, t)
    ensures !Step(s, t, c).value.aborted && !Step(s, t, c).value.hung
  {
    hide StepBody, InvAt;
    if s.pc[t].Exit? && s.pc[t].step == 2 {
      EndingHasCaller(s, t);
    }
  }

  lemma EndingHasCaller(s: State, t: nat)
    requires s.Shape() && t < |s.pc| && s.pc[t].Exit? && s.pc[t].step == 2 && InvAt(s, 0) && InvAt(s, t)
    ensures s.cos[t].caller == Some(0)
  {
  }

  /**
   * A coroutine's result is not delivered: the resume that it ends returns
   * what the last yield to the main thread had carried, or NULL.
   */
  lemma ResultNotDelivered(s: State, schedule: seq<(nat, Choice)>, end: State, t: nat)
    requires Initial(s) && Runs(s, schedule, end) && !end.aborted && !end.hung && t < |end.pc| && end.pc[t].Exit? && end.pc[t].step == 2
    ensures Step(end, t, Go).Some?
    ensures Step(end, t, Go).value.sent == end.sent + [Message(0, LastToLeader(end.sent))]
  {
    Reached(s, schedule, end);
    assert InvAt(end, t) && InvAt(end, 0);
  }
}
