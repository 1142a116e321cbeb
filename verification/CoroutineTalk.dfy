/** What the program says to its coroutines, one at a time, and that the threads carry it out (src/coroutine.h). */
module CoroutineTalk {
  import opened Options
  import opened Coroutine

  /** Coroutines without threads: who speaks, and what has been passed to whom. */
  datatype Talk = Talk(
    turn: nat,                    // whose code runs
    created: set<nat>,
    live: set<nat>,               // created and not ended
    yielder: Option<nat>,         // the last to yield, unless the main coroutine has yielded since
    last: int,                    // what was last passed to the main coroutine
    results: map<nat, int>,       // of the ones that have ended
    passed: seq<Message>)

  const OPENING := Talk(0, {}, {}, None, 0, map[], [])

  /** The choice is one the program has: the main coroutine creates and resumes, the others return. */
  predicate Open(p: Talk, count: nat, c: Choice)
  {
    match c
    case Create(co) => p.turn == 0 && 0 < co < count && co !in p.live
    case YieldTo(co, _) => p.turn == 0 && co in p.created
    case Yield(_) => true
    case Return(_) => p.turn != 0
    case _ => false
  }

  /** ... and goes through: an ended coroutine is not resumed, and no one yields to an ended one or to no one. */
  predicate GoesThrough(p: Talk, c: Choice)
  {
    match c
    case YieldTo(co, _) => co in p.live
    case Yield(_) => p.turn != 0 || (p.yielder.Some? && p.yielder.value in p.live)
    case _ => true
  }

  /** Each resume and yield passes its argument on, and an end passes what the main coroutine was last passed. */
  function Say(p: Talk, c: Choice): Talk
  {
    match c
    case Create(co) => p.(created := p.created + {co}, live := p.live + {co}, results := p.results - {co})
    case YieldTo(co, arg) => p.(turn := co, passed := p.passed + [Message(co, arg)])
    case Yield(arg) =>
      if p.turn != 0 then
        p.(turn := 0, yielder := Some(p.turn), last := arg, passed := p.passed + [Message(0, arg)])
      else if p.yielder.Some? then
        p.(turn := p.yielder.value, yielder := None, passed := p.passed + [Message(p.yielder.value, arg)])
      else p
    case Return(result) =>
      p.(turn := 0, live := p.live - {p.turn}, results := p.results[p.turn := result], passed := p.passed + [Message(0, p.last)])
    case _ => p
  }

  /** What has been said after a step of thread `t`: only the program's own code says anything. */
  ghost function Heard(p: Talk, s: State, t: nat, c: Choice): Talk
    requires s.Shape()
  {
    if t < |s.pc| && s.pc[t].Body? && !s.aborted && !s.hung && Open(p, |s.pc|, c) && GoesThrough(p, c) then Say(p, c) else p
  }

  /** ... and after a run. */
  ghost function Said(p: Talk, s: State, schedule: seq<(nat, Choice)>): Talk
    requires s.Shape()
    decreases |schedule|
  {
    if schedule == [] then p
    else
      var (t, c) := schedule[0];
      var after := match Step(s, t, c) case None => s case Some(s') => s';
      Said(Heard(p, s, t, c), after, schedule[1..])
  }

  /* The threads follow. */

  /** A coroutine is handing its turn over and its partner is not yet runnable. */
  ghost function Turn(s: State): nat
    requires s.Shape()
  {
    if s.lock.None? then s.baton
    else
      match s.pc[s.lock.value]
      case Swap(_, to, _, _) => to
      case Exit(_, _) => 0
      case _ => s.baton
  }

  /** It is ending, and has not yet passed anything. */
  ghost predicate Ending(s: State)
    requires s.Shape()
  {
    s.lock.Some? && s.pc[s.lock.value].Exit? && s.pc[s.lock.value].step <= 2
  }

  ghost function Made(s: State): set<nat>
    requires s.Shape()
  {
    s.ready + if s.pc[0].Init? then {s.pc[0].co} else {}
  }

  ghost function Living(s: State): set<nat>
    requires s.Shape()
  {
    set t: nat | 0 < t < |s.pc| && !s.pc[t].Idle? && !s.pc[t].Exit?
  }

  ghost predicate Follows(s: State, p: Talk)
  {
    && s.Shape() && (forall co :: co in s.ready ==> co < |s.pc|) && p.turn == Turn(s) && p.created == Made(s)
      && p.live == Living(s) && p.yielder == s.yielded
    && p.last == LastToLeader(s.sent) && p.passed == s.sent + if Ending(s) then [Message(0, p.last)] else []
  }

  /** Where the program's code runs it is its speaker's, and it is free to choose what the program may. */
  lemma BodySpeaks(s: State, p: Talk, t: nat, c: Choice)
    requires Good(s) && Follows(s, p) && !s.aborted && !s.hung && t < |s.pc| && s.pc[t].Body?
    ensures p.turn == t == s.current && s.lock == Some(t) && p.created == s.ready && p.passed == s.sent == s.got
    ensures Step(s, t, c).Some? <==> Open(p, |s.pc|, c)
    ensures Open(p, |s.pc|, c) ==> (GoesThrough(p, c) <==> !Step(s, t, c).value.aborted && !Step(s, t, c).value.hung)
  {
    assert InvAt(s, t) && InvAt(s, 0);
    match c
    case Create(co) =>
      if co < |s.pc| {
        assert InvAt(s, co);
      }
    case YieldTo(co, _) =>
      if t == 0 && co in s.ready {
        assert co < |s.pc| ==> InvAt(s, co);
      }
    case Yield(_) =>
      if t == 0 && s.yielded.Some? {
        assert InvAt(s, s.yielded.value);
      }
    case _ =>
  }

  predicate Alive(p: PC)
  {
    !p.Idle? && !p.Exit?
  }

  /** Threads that neither begin nor end. */
  lemma LivingStays(s: State, s': State)
    requires s.Shape() && s'.Shape() && |s.pc| == |s'.pc|
    requires forall u :: 0 <= u < |s.pc| ==> (Alive(s.pc[u]) <==> Alive(s'.pc[u]))
    ensures Living(s') == Living(s)
  {
    assert forall u :: 0 <= u < |s.pc| ==> (u in Living(s) <==> u != 0 && Alive(s.pc[u]));
    assert forall u :: 0 <= u < |s.pc| ==> (u in Living(s') <==> u != 0 && Alive(s'.pc[u]));
  }

  lemma CreateFollows(s: State, p: Talk, t: nat, c: Choice)
    requires Good(s) && Follows(s, p) && t < |s.pc| && s.pc[t].Body? && c.Create? && Step(s, t, c).Some?
    ensures Follows(Step(s, t, c).value, Say(p, c))
  {
    BodySpeaks(s, p, t, c);
    var s' := Step(s, t, c).value;
    assert forall u :: 0 <= u < |s.pc| && u != c.co && u != t ==> s'.pc[u] == s.pc[u];
    assert Living(s') == Living(s) + {c.co};
    assert Made(s') == Made(s) + {c.co};
  }

  lemma HandOverFollows(s: State, p: Talk, t: nat, c: Choice)
    requires Good(s) && Follows(s, p) && t < |s.pc| && s.pc[t].Body? && (c.YieldTo? || c.Yield?)
    requires Step(s, t, c).Some? && !Step(s, t, c).value.aborted && !Step(s, t, c).value.hung
    ensures Follows(Step(s, t, c).value, Say(p, c))
  {
    hide Living, LastToLeader, InvAt, Inv, Mail, LeaderData, LeaderCaller, StepAcquire, StepInit, StepSwap, StepExit;
    BodySpeaks(s, p, t, c);
    CallerInBody(s, t);
    var s' := Step(s, t, c).value;
    LivingStays(s, s');
    OneMoreToLeader(s.sent, s'.sent[|s.sent|]);
  }

  /** Whom a coroutine yields to. */
  lemma CallerInBody(s: State, t: nat)
    requires Good(s) && t < |s.pc| && s.pc[t].Body?
    ensures s.lock == Some(t) && s.current == t && s.cos[t].caller == if t != 0 then Some(0) else s.yielded
    ensures 0 !in s.ready && (s.yielded.Some? ==> s.yielded.value != 0)
  {
    assert InvAt(s, t) && InvAt(s, 0);
  }

  /** A step that changes nothing of this. */
  lemma SameFollows(s: State, s': State, p: Talk)
    requires Follows(s, p) && s'.Shape() && |s'.pc| == |s.pc|
    requires Made(s') == Made(s) && Turn(s') == Turn(s) && Living(s') == Living(s)
    requires (forall co :: co in s'.ready ==> co < |s.pc|) && s'.yielded == s.yielded && s'.sent == s.sent && (Ending(s') <==> Ending(s))
    ensures Follows(s', p)
  {
  }

  lemma ReturnFollows(s: State, p: Talk, t: nat, c: Choice)
    requires Good(s) && Follows(s, p) && t < |s.pc| && s.pc[t].Body? && c.Return? && Step(s, t, c).Some?
    ensures Follows(Step(s, t, c).value, Say(p, c))
  {
    BodySpeaks(s, p, t, c);
    var s' := Step(s, t, c).value;
    assert forall u :: 0 <= u < |s.pc| && u != t ==> s'.pc[u] == s.pc[u];
    assert Living(s') == Living(s) - {t};
  }

  /** The steps that are none of the program's. */
  lemma AcquireFollows(s: State, p: Talk, t: nat, c: Choice)
    requires s.Shape() && Good(s) && Follows(s, p) && t < |s.pc| && Acquiring(s.pc[t]) && Step(s, t, c).Some?
    ensures Follows(Step(s, t, c).value, p)
  {
    hide Follows, Living, LastToLeader, Good, Turn, Ending, Made, StepAcquire, StepBody, StepInit, StepSwap, StepExit;
    var s' := Step(s, t, c).value;
    AcquireMovesOne(s, t, c);
    LivingStays(s, s');
    AcquireKeepsTurn(s, t, c);
    ReadyBelow(s, p);
    SameFollows(s, s', p);
  }

  lemma AcquireMovesOne(s: State, t: nat, c: Choice)
    requires s.Shape() && t < |s.pc| && Acquiring(s.pc[t]) && Step(s, t, c).Some?
    ensures var s' := Step(s, t, c).value;
            && (forall u :: 0 <= u < |s.pc| ==> (Alive(s.pc[u]) <==> Alive(s'.pc[u])))
            && Made(s') == Made(s) && s'.ready == s.ready && s'.yielded == s.yielded && s'.sent == s.sent
  {
    hide StepBody, StepInit, StepSwap, StepExit;
  }

  lemma ReadyBelow(s: State, p: Talk)
    requires Follows(s, p)
    ensures forall co :: co in s.ready ==> co < |s.pc|
  {
  }

  lemma AcquireKeepsTurn(s: State, t: nat, c: Choice)
    requires Good(s) && t < |s.pc| && Acquiring(s.pc[t]) && Step(s, t, c).Some?
    ensures var s' := Step(s, t, c).value; Turn(s') == Turn(s) && (Ending(s') <==> Ending(s))
  {
    hide Placed, Nested, RunnableRight, CallerRight, ExitedRight, Mail, LeaderData, LeaderCaller, WakeUpDue, StepBody, StepInit, StepSwap, StepExit;
    assert InvAt(s, t);
  }

  lemma InitFollows(s: State, p: Talk, t: nat, c: Choice)
    requires Good(s) && Follows(s, p) && t < |s.pc| && s.pc[t].Init? && Step(s, t, c).Some?
    ensures Follows(Step(s, t, c).value, p)
  {
    hide Follows, Living, LastToLeader, Mail, LeaderData, LeaderCaller, WakeUpDue, StepBody, StepAcquire, StepSwap, StepExit;
    assert InvAt(s, t) && InvAt(s, 0);
    var s' := Step(s, t, c).value;
    LivingStays(s, s');
    ReadyBelow(s, p);
    assert InvAt(s, s.pc[0].co);
    assert Made(s') == Made(s);
    SameFollows(s, s', p);
  }

  lemma SwapFollows(s: State, p: Talk, t: nat, c: Choice)
    requires s.Shape() && Good(s) && Follows(s, p) && t < |s.pc| && s.pc[t].Swap? && Step(s, t, c).Some?
    ensures Follows(Step(s, t, c).value, p)
  {
    hide Follows, Living, LastToLeader, Good, Turn, Ending, Made;
    var s' := Step(s, t, c).value;
    LivingStays(s, s');
    SwapKeepsTurn(s, t, c);
    ReadyBelow(s, p);
    SameFollows(s, s', p);
  }

  lemma SwapKeepsTurn(s: State, t: nat, c: Choice)
    requires Good(s) && t < |s.pc| && s.pc[t].Swap? && Step(s, t, c).Some?
    ensures var s' := Step(s, t, c).value;
            && Turn(s') == Turn(s) && (Ending(s') <==> Ending(s)) && Made(s') == Made(s)
            && s'.ready == s.ready && s'.yielded == s.yielded && s'.sent == s.sent
  {
    hide Nested, RunnableRight, CallerRight, ExitedRight, Mail, LeaderData, LeaderCaller, WakeUpDue, StepBody, StepInit, StepAcquire, StepExit;
    assert InvAt(s, t);
  }

  lemma ExitFollows(s: State, p: Talk, t: nat, c: Choice)
    requires Good(s) && Follows(s, p) && t < |s.pc| && s.pc[t].Exit? && Step(s, t, c).Some?
    ensures Follows(Step(s, t, c).value, p)
  {
    hide Living, LastToLeader, StepBody, StepInit, StepAcquire, StepSwap, Mail, LeaderCaller, WakeUpDue;
    assert InvAt(s, t) && InvAt(s, 0);
    LivingStays(s, Step(s, t, c).value);
    if s.pc[t].step == 2 {
      EndingHasCaller(s, t);
      OneMoreToLeader(s.sent, Message(0, s.cos[0].data));
    }
  }

  lemma StepFollows(s: State, p: Talk, t: nat, c: Choice)
    requires Good(s) && Follows(s, p) && Step(s, t, c).Some?
    ensures Follows(Step(s, t, c).value, Heard(p, s, t, c))
  {
    hide Follows, Inv, Mail, LeaderData, Say;
    InvWatches(s, t, c);
    match s.pc[t]
    case Body => BodyFollows(s, p, t, c);
    case Init(_, _) => InitFollows(s, p, t, c);
    case Swap(_, _, _, _) => SwapFollows(s, p, t, c);
    case Exit(_, _) => ExitFollows(s, p, t, c);
    case _ => AcquireFollows(s, p, t, c);
  }

  lemma BodyFollows(s: State, p: Talk, t: nat, c: Choice)
    requires Good(s) && Follows(s, p) && t < |s.pc| && s.pc[t].Body? && Step(s, t, c).Some?
    ensures Follows(Step(s, t, c).value, Heard(p, s, t, c))
  {
    BodySpeaks(s, p, t, c);
    var s' := Step(s, t, c).value;
    if s'.aborted || s'.hung {
      LivingStays(s, s');
      hide Living, LastToLeader, InvAt;
    } else {
      hide Follows, Good, Say;
      match c
      case Create(_) => CreateFollows(s, p, t, c);
      case Return(_) => ReturnFollows(s, p, t, c);
      case _ => HandOverFollows(s, p, t, c);
    }
  }

  lemma {:induction false} RunFollows(s: State, p: Talk, schedule: seq<(nat, Choice)>, end: State)
    requires Good(s) && Follows(s, p) && Kept(s, p) && Runs(s, schedule, end)
    ensures Good(end) && Follows(end, Said(p, s, schedule)) && Kept(end, Said(p, s, schedule))
    decreases |schedule|
  {
    assert s.Shape();
    hide Good, Step, Follows, Kept, Heard;
    if schedule != [] {
      var (t, c) := schedule[0];
      match Step(s, t, c)
      case None =>
        NothingHeard(s, p, t, c);
        RunFollows(s, p, schedule[1..], end);
      case Some(s') =>
        StepKeepsGood(s, t, c);
        StepFollows(s, p, t, c);
        StepKeepsResults(s, p, t, c);
        RunFollows(s', Heard(p, s, t, c), schedule[1..], end);
    }
  }

  lemma NothingHeard(s: State, p: Talk, t: nat, c: Choice)
    requires Good(s) && Follows(s, p) && Step(s, t, c).None?
    ensures Heard(p, s, t, c) == p
  {
    if t < |s.pc| && s.pc[t].Body? && !s.aborted && !s.hung {
      BodySpeaks(s, p, t, c);
    }
  }

  lemma Begins(s: State)
    requires Initial(s)
    ensures Good(s) && Follows(s, OPENING) && Kept(s, OPENING)
  {
    assert Living(s) == {};
  }

  /* Results. */

  /** A coroutine that has ended keeps its result, once it has stored it. */
  ghost predicate Kept(s: State, p: Talk)
  {
    s.Shape() && forall co :: co in p.results ==> KeptAt(s, co, p.results[co])
  }

  ghost predicate KeptAt(s: State, co: nat, result: int)
    requires s.Shape()
  {
    && co < |s.pc|
    && (s.pc[co].Idle? || (s.pc[co].Exit? && s.pc[co].result == result))
    && ((s.pc[co].Exit? && s.pc[co].step == 0) || s.cos[co].data == result)
  }

  lemma StepKeepsResult(s: State, p: Talk, t: nat, c: Choice, co: nat)
    requires Good(s) && Follows(s, p) && Kept(s, p) && Step(s, t, c).Some? && co in Heard(p, s, t, c).results
    ensures KeptAt(Step(s, t, c).value, co, Heard(p, s, t, c).results[co])
  {
    hide Inv, Mail, LeaderData, Follows, KeptAt, Step;
    InvWatches(s, t, c);
    if s.pc[t].Body? {
      BodyKeepsResult(s, p, t, c, co);
    } else if s.pc[t].Swap? {
      SwapKeepsResult(s, t, c, co, p.results[co]);
    } else if s.pc[t].Exit? {
      ExitKeepsResult(s, t, c, co, p.results[co]);
    } else {
      OwnStepKeepsResult(s, t, c, co, p.results[co]);
    }
  }

  lemma BodyKeepsResult(s: State, p: Talk, t: nat, c: Choice, co: nat)
    requires Good(s) && Follows(s, p) && Kept(s, p) && t < |s.pc| && s.pc[t].Body? && Step(s, t, c).Some?
    requires co in Heard(p, s, t, c).results
    ensures KeptAt(Step(s, t, c).value, co, Heard(p, s, t, c).results[co])
  {
    hide InvAt, Inv, Mail, LeaderData, Follows, StepAcquire, StepInit, StepSwap, StepExit;
    BodySpeaks(s, p, t, c);
  }

  lemma SwapKeepsResult(s: State, t: nat, c: Choice, co: nat, result: int)
    requires s.Shape() && Good(s) && KeptAt(s, co, result) && t < |s.pc| && s.pc[t].Swap? && Step(s, t, c).Some?
    ensures KeptAt(Step(s, t, c).value, co, result)
  {
    hide Nested, RunnableRight, CallerRight, ExitedRight, Mail, LeaderData, LeaderCaller, WakeUpDue;
    hide StepBody, StepAcquire, StepInit, StepExit;
    assert InvAt(s, t);
  }

  lemma ExitKeepsResult(s: State, t: nat, c: Choice, co: nat, result: int)
    requires s.Shape() && Good(s) && KeptAt(s, co, result) && t < |s.pc| && s.pc[t].Exit? && Step(s, t, c).Some?
    ensures KeptAt(Step(s, t, c).value, co, result)
  {
    hide Nested, RunnableRight, CallerRight, ExitedRight, Mail, LeaderData, LeaderCaller, WakeUpDue;
    hide StepBody, StepAcquire, StepInit, StepSwap;
    assert InvAt(s, t);
  }

  lemma OwnStepKeepsResult(s: State, t: nat, c: Choice, co: nat, result: int)
    requires s.Shape() && Good(s) && KeptAt(s, co, result) && t < |s.pc| && (s.pc[t].Init? || Acquiring(s.pc[t])) && Step(s, t, c).Some?
    ensures KeptAt(Step(s, t, c).value, co, result)
  {
    hide Nested, RunnableRight, CallerRight, ExitedRight, Mail, LeaderData, LeaderCaller, WakeUpDue, StepBody, StepSwap, StepExit;
    assert InvAt(s, t);
  }

  lemma StepKeepsResults(s: State, p: Talk, t: nat, c: Choice)
    requires Good(s) && Follows(s, p) && Kept(s, p) && Step(s, t, c).Some?
    ensures Kept(Step(s, t, c).value, Heard(p, s, t, c))
  {
    hide Good, Follows, Heard, Step, KeptAt;
    forall co | co in Heard(p, s, t, c).results
      ensures KeptAt(Step(s, t, c).value, co, Heard(p, s, t, c).results[co])
    {
      StepKeepsResult(s, p, t, c, co);
    }
  }

  /* For every schedule. */

  /**
   * What comes out is what the program has said, argument for argument and
   * receiver for receiver, in order, none lost and none twice; at most one is
   * under way, and none while the program's own code runs.
   */
  lemma ArgumentsDelivered(s: State, schedule: seq<(nat, Choice)>, end: State)
    requires Initial(s) && Runs(s, schedule, end)
    ensures var passed := Said(OPENING, s, schedule).passed;
            && end.got <= passed && |passed| <= |end.got| + 1
            && ((exists t :: 0 <= t < |end.pc| && end.pc[t].Body?) ==> end.got == passed)
  {
    Begins(s);
    RunFollows(s, OPENING, schedule, end);
    assert InvAt(end, end.baton) && (end.lock.Some? ==> InvAt(end, end.lock.value));
    if t :| 0 <= t < |end.pc| && end.pc[t].Body? {
      assert InvAt(end, t);
    }
  }

  /**
   * The code that runs is that of the coroutine whose turn it is; what it may
   * choose, and whether that goes through, is as if there were no threads.
   */
  lemma RunsAsSaid(s: State, schedule: seq<(nat, Choice)>, end: State, t: nat, c: Choice)
    requires Initial(s) && Runs(s, schedule, end) && !end.aborted && !end.hung && t < |end.pc| && end.pc[t].Body?
    ensures var p := Said(OPENING, s, schedule);
            && t == p.turn
            && (Step(end, t, c).Some? <==> Open(p, |end.pc|, c))
            && (Open(p, |end.pc|, c) ==> (GoesThrough(p, c) <==> !Step(end, t, c).value.aborted && !Step(end, t, c).value.hung))
  {
    Begins(s);
    RunFollows(s, OPENING, schedule, end);
    BodySpeaks(end, Said(OPENING, s, schedule), t, c);
  }

  /** While the program's code runs, each coroutine that has ended holds what its entry function returned. */
  lemma ResultsHeld(s: State, schedule: seq<(nat, Choice)>, end: State, t: nat, co: nat)
    requires Initial(s) && Runs(s, schedule, end) && t < |end.pc| && end.pc[t].Body?
    ensures var p := Said(OPENING, s, schedule);
            co in p.results ==> co < |end.pc| && end.cos[co].data == p.results[co]
  {
    Begins(s);
    RunFollows(s, OPENING, schedule, end);
    if co in Said(OPENING, s, schedule).results {
      assert KeptAt(end, co, Said(OPENING, s, schedule).results[co]);
      assert InvAt(end, t) && InvAt(end, co);
    }
  }
}
