/** The places where the VNC coroutine waits, and what resumes it (src/vncconnection.c). */
module WaitQueues {
  import opened Options

  /** g_io_wait, g_io_wait_interruptable, g_condition_wait, vnc_connection_emit_main_context. */
  datatype Kind = Socket | Interruptible | Condition | MainContext

  /** One suspension, and the main-loop source attached for it. */
  datatype Suspension = Suspension(kind: Kind, source: nat)

  /** What coroutine_yield returns: NULL, or the address of the socket's condition. */
  datatype Value = Null | Ready

  /** What resumes the coroutine: a source, `g_io_wakeup`, or an error that the application has caused in the main coroutine. */
  datatype Cause = Source(id: nat) | WakeUp | MainError

  datatype Event = Parked(at: Suspension) | Resumed(at: Suspension, value: Value, cause: Cause)

  /** Where the coroutine gets to next; the program decides. */
  datatype Next = ParkAt(kind: Kind) | Finish

  /** A source of the main loop: it resumes the coroutine, or signals an error set from the main coroutine. */
  datatype Armed = Wakes(at: Suspension) | Signals

  /** `Lost`: a NULL is followed, or a stack frame that has returned. */
  datatype Fate = Alive | Aborted | Hung | Lost

  /** What the source of a suspension passes when it fires. */
  function Passes(kind: Kind): Value
  {
    if kind.Socket? || kind.Interruptible? then Ready else Null
  }

  datatype State = State(
    sources: map<nat, Armed>,
    nextId: nat,
    waiting: bool,
    started: bool,
    suspended: Option<Suspension>,
    caller: bool,                     // the coroutine has yielded since the main one last did
    running: Option<nat>,             // the emission whose handlers are being called
    fate: Fate,
    log: seq<Event>)

  /** What the main loop, the application and, through `next`, the coroutine do. */
  datatype Act =
    | Begin(next: Next)
    | Fire(id: nat, next: Next)       // a source that resumes the coroutine at once
    | Emit(id: nat)                   // the source of an emission: its handlers are called ...
    | Emitted(next: Next)             // ... and have returned
    | Wake(next: Next)
    | SetError(next: Next)            // vnc_connection_set_error in the main coroutine

  function Start(): State
  {
    State(map[], 0, false, false, None, false, None, Alive, [])
  }

  /* The steps. */

  /** The coroutine attaches a source and yields, or it ends. */
  function Park(s: State, next: Next): State
  {
    match next
    case Finish => s
    case ParkAt(kind) =>
      var at := Suspension(kind, s.nextId);
      s.(nextId := s.nextId + 1, sources := s.sources[at.source := Wakes(at)], waiting := s.waiting || kind.Interruptible?,
         suspended := Some(at), caller := true, log := s.log + [Parked(at)])
  }

  /** The code behind the coroutine_yield that comes back with `v`, up to the next one. */
  function Resume(s: State, v: Value, cause: Cause, next: Next): State
    requires s.suspended.Some?
  {
    var at := s.suspended.value;
    var back := s.(suspended := None, log := s.log + [Resumed(at, v, cause)]);
    if at.kind.Socket? && v.Null? then back.(fate := Lost)          // `*ret`
    else if at.kind.Interruptible? then
      Park(back.(waiting := false, sources := if v.Null? then s.sources - {at.source} else s.sources), next)
    else Park(back, next)
  }

  /** A source calls coroutine_yieldto, returns FALSE, and is removed. */
  function Delivered(s: State, at: Suspension, next: Next): State
  {
    if s.suspended.None? then s.(fate := Aborted)                    // "re-entering itself"
    else
      var r := Resume(s, Passes(at.kind), Source(at.source), next);
      r.(sources := r.sources - {at.source})
  }

  /** coroutine_yield in the main coroutine, once an idle source has been attached with data on its stack. */
  function YieldMain(s: State, next: Next): State
  {
    if !s.caller then s.(fate := Aborted)                            // "yielding to no one"
    else if s.suspended.None? then s.(fate := Hung)                  // the coroutine has ended
    else Resume(s.(caller := false, sources := s.sources[s.nextId := Signals], nextId := s.nextId + 1), Null, MainError, next)
  }

  function Take(s: State, act: Act): State
  {
    if s.fate != Alive then s
    else
      match act
      case Begin(next) => if s.started then s else Park(s.(started := true), next)
      case Fire(id, next) =>
        if s.running.Some? || id !in s.sources then s
        else (
          match s.sources[id]
          case Signals => s.(fate := Lost)                           // its data are gone
          case Wakes(at) => if at.kind.MainContext? then s else Delivered(s, at, next)
        )
      case Emit(id) =>
        if s.running.Some? || id !in s.sources || s.sources[id].Signals? || !s.sources[id].at.kind.MainContext? then s
        else if s.suspended == Some(s.sources[id].at) then s.(running := Some(id))
        else s.(fate := Lost)                                        // its data are gone
      case Emitted(next) =>
        if s.running.None? || s.running.value !in s.sources || s.sources[s.running.value].Signals? then s
        else
          var at := s.sources[s.running.value].at;
          if s.suspended == Some(at) then Delivered(s.(running := None), at, next)
          else s.(fate := Lost)                                      // `data->caller` is gone
      case Wake(next) => if s.waiting && s.suspended.Some? then Resume(s, Null, WakeUp, next) else s
      case SetError(next) => YieldMain(s, next)
  }

  function Run(s: State, acts: seq<Act>): State
    decreases |acts|
  {
    if acts == [] then s else Run(Take(s, acts[0]), acts[1..])
  }

  /* What the log says. */

  /** A suspension is resumed by its own source, an interruptible one by a wake-up as well. */
  predicate Own(e: Event)
  {
    e.Resumed? ==> e.cause == Source(e.at.source) || (e.cause.WakeUp? && e.at.kind.Interruptible?)
  }

  /**
   * What a resumption says: in the wait for the socket that it is ready, in the
   * interruptible one NULL exactly on a wake-up, in the others NULL.
   */
  predicate Tells(e: Event)
  {
    e.Resumed? ==>
      match e.at.kind
      case Socket => e.value == Ready
      case Interruptible => (e.value == Null <==> e.cause == WakeUp)
      case _ => e.value == Null
  }

  /** Suspensions and resumptions alternate, each resumption that of the suspension before it by its own event, and no source serves two. */
  predicate Bracketed(log: seq<Event>, open: Option<Suspension>)
  {
    if log == [] then open.None?
    else
      var e, before := log[|log| - 1], log[..|log| - 1];
      match e
      case Parked(s) => open == Some(s) && Bracketed(before, None) && Resumptions(before, s.source) == 0
      case Resumed(s, _, _) => open.None? && Bracketed(before, Some(s)) && Own(e) && Tells(e)
  }

  function Resumptions(log: seq<Event>, source: nat): nat
  {
    if log == [] then 0
    else
      var e := log[|log| - 1];
      Resumptions(log[..|log| - 1], source) + if e.Resumed? && e.at.source == source then 1 else 0
  }

  lemma LogMore(log: seq<Event>, e: Event, open: Option<Suspension>, source: nat)
    ensures Bracketed(log + [e], open) <==>
              match e
              case Parked(s) => open == Some(s) && Bracketed(log, None) && Resumptions(log, s.source) == 0
              case Resumed(s, _, _) => open.None? && Bracketed(log, Some(s)) && Own(e) && Tells(e)
    ensures Resumptions(log + [e], source) == Resumptions(log, source) + if e.Resumed? && e.at.source == source then 1 else 0
  {
    assert (log + [e])[..|log|] == log;
  }

  lemma BracketedOwn(log: seq<Event>, open: Option<Suspension>, k: nat)
    requires Bracketed(log, open) && k < |log|
    ensures Own(log[k]) && Tells(log[k])
  {
    var before, e := log[..|log| - 1], log[|log| - 1];
    if k < |before| {
      BracketedOwn(before, if e.Parked? then None else Some(e.at), k);
      assert before[k] == log[k];
    }
  }

  /** No suspension is resumed twice, and every one but the open one has been resumed. */
  lemma {:induction false} BracketedOnce(log: seq<Event>, open: Option<Suspension>, k: nat)
    requires Bracketed(log, open) && k < |log|
    ensures Resumptions(log, log[k].at.source) == if open == Some(log[k].at) then 0 else 1
    ensures open.Some? ==> Resumptions(log, open.value.source) == 0 && log[|log| - 1] == Parked(open.value)
  {
    var before, e := log[..|log| - 1], log[|log| - 1];
    if e.Parked? {
      if k < |before| {
        BracketedOnce(before, None, k);
        assert before[k] == log[k];
      }
    } else {
      assert before != [];
      var j := |before| - 1;
      BracketedOnce(before, Some(e.at), j);
      assert before[j] == Parked(e.at);
      if k < |before| {
        BracketedOnce(before, Some(e.at), k);
        assert before[k] == log[k];
        SameSuspension(before, e.at, k);
      }
    }
  }

  /** A source seen in the log with no resumption is that of the open suspension. */
  lemma SameSuspension(log: seq<Event>, s: Suspension, k: nat)
    requires Bracketed(log, Some(s)) && k < |log| && Resumptions(log, log[k].at.source) == if log[k].at == s then 0 else 1
    requires Resumptions(log, s.source) == 0
    ensures log[k].at == s <==> log[k].at.source == s.source
  {
  }

  lemma NotYetResumed(log: seq<Event>, source: nat)
    requires forall k :: 0 <= k < |log| ==> log[k].at.source < source
    ensures Resumptions(log, source) == 0
  {
  }

  /* What every step but an error set from the main coroutine keeps. */

  /** The one source armed is that of the present suspension. */
  ghost predicate Sound(s: State)
  {
    && s.fate == Alive && Bracketed(s.log, s.suspended)
    && (forall k :: 0 <= k < |s.log| ==> s.log[k].at.source < s.nextId)
    && s.sources == (if s.suspended.Some? then map[s.suspended.value.source := Wakes(s.suspended.value)] else map[])
    && (s.suspended.Some? ==> s.started && s.caller && s.log != [] && s.log[|s.log| - 1] == Parked(s.suspended.value))
    && (s.waiting <==> s.suspended.Some? && s.suspended.value.kind.Interruptible?)
    && (s.running.Some? ==> s.suspended == Some(Suspension(MainContext, s.running.value)))
    && (s.caller <==> s.log != []) && (!s.started ==> s.log == [])
  }

  lemma ParkKeepsSound(s: State, next: Next)
    requires Sound(s) && s.suspended.None? && s.started
    ensures Sound(Park(s, next))
  {
    if next.ParkAt? {
      var at := Suspension(next.kind, s.nextId);
      NotYetResumed(s.log, s.nextId);
      LogMore(s.log, Parked(at), Some(at), 0);
    }
  }

  lemma ResumeKeepsSound(s: State, v: Value, cause: Cause, next: Next)
    requires Sound(s) && s.suspended.Some? && s.running.None? && Own(Resumed(s.suspended.value, v, cause))
              && Tells(Resumed(s.suspended.value, v, cause))
    ensures var r := Resume(s, v, cause, next);
            Sound(r.(sources := r.sources - {s.suspended.value.source}))
  {
    hide Bracketed;
    var at := s.suspended.value;
    var e := Resumed(at, v, cause);
    LogMore(s.log, e, None, 0);
    var back := s.(suspended := None, waiting := false, sources := map[], log := s.log + [e]);
    assert Sound(back);
    ParkKeepsSound(back, next);
    var r := Resume(s, v, cause, next);
    assert r.(sources := map[]) == Park(back, next).(sources := map[]);
    assert r.sources - {at.source} == Park(back, next).sources;
  }

  lemma StepKeepsSound(s: State, act: Act)
    requires Sound(s) && !act.SetError?
    ensures Sound(Take(s, act))
  {
    hide Bracketed, Park, Resume;
    match act
    case Begin(next) =>
      if !s.started { ParkKeepsSound(s.(started := true), next); }
    case Fire(id, next) =>
      if s.running.None? && id in s.sources && !s.sources[id].at.kind.MainContext? {
        ResumeKeepsSound(s, Passes(s.suspended.value.kind), Source(id), next);
      }
    case Emit(id) =>
    case Emitted(next) =>
      if s.running.Some? {
        ResumeKeepsSound(s.(running := None), Null, Source(s.running.value), next);
      }
    case Wake(next) =>
      if s.waiting {
        ResumeKeepsSound(s, Null, WakeUp, next);
        WakeUpRemoves(s, next);
      }
  }

  /** The interruptible wait removes its source itself. */
  lemma WakeUpRemoves(s: State, next: Next)
    requires Sound(s) && s.waiting
    ensures var r := Resume(s, Null, WakeUp, next); r.sources - {s.suspended.value.source} == r.sources
  {
    assert s.suspended.value.source < s.nextId;
  }

  /* ... and what such an error leaves for good. */

  /** The program has ended, or some suspension has been resumed by an event that is not its own. */
  ghost predicate Spoilt(s: State)
  {
    s.fate != Alive || exists k :: 0 <= k < |s.log| && !Own(s.log[k])
  }

  lemma ResumeGrows(s: State, v: Value, cause: Cause, next: Next)
    requires s.suspended.Some?
    ensures s.log + [Resumed(s.suspended.value, v, cause)] <= Resume(s, v, cause, next).log
  {
  }

  lemma LogGrows(s: State, act: Act)
    ensures s.log <= Take(s, act).log
  {
    hide Resume;
    if s.suspended.Some? {
      match act
      case Fire(id, next) =>
        if id in s.sources && s.sources[id].Wakes? {
          ResumeGrows(s, Passes(s.sources[id].at.kind), Source(s.sources[id].at.source), next);
        }
      case Emitted(next) =>
        if s.running.Some? && s.running.value in s.sources && s.sources[s.running.value].Wakes? {
          var at := s.sources[s.running.value].at;
          ResumeGrows(s.(running := None), Passes(at.kind), Source(at.source), next);
        }
      case Wake(next) => ResumeGrows(s, Null, WakeUp, next);
      case SetError(next) =>
        ResumeGrows(s.(caller := false, sources := s.sources[s.nextId := Signals], nextId := s.nextId + 1), Null, MainError, next);
      case _ =>
    }
  }

  lemma StaysSpoilt(s: State, act: Act)
    requires Spoilt(s)
    ensures Spoilt(Take(s, act))
  {
    hide Take;
    if s.fate == Alive {
      LogGrows(s, act);
      var k :| 0 <= k < |s.log| && !Own(s.log[k]);
      assert Take(s, act).log[k] == s.log[k];
    } else {
      DeadStays(s, act);
    }
  }

  lemma DeadStays(s: State, act: Act)
    requires s.fate != Alive
    ensures Take(s, act) == s
  {
  }

  /**
   * An error set from the main coroutine: without a coroutine that has yielded
   * it aborts, with one that has ended it hangs, in g_io_wait a NULL is
   * followed; else it resumes whatever suspension is open, of which only the
   * interruptible wait takes that for its own wake-up.
   */
  lemma SetErrorSpoils(s: State, next: Next)
    requires Sound(s)
    ensures var r := Take(s, SetError(next));
            && Spoilt(r)
            && (r.fate == Aborted <==> s.log == [])
            && (r.fate == Hung <==> s.log != [] && s.suspended.None?)
            && (r.fate == Lost <==> s.suspended.Some? && s.suspended.value.kind.Socket?)
            && (s.suspended.Some? ==> s.log + [Resumed(s.suspended.value, Null, MainError)] <= r.log)
  {
    hide Bracketed;
    var r := Take(s, SetError(next));
    if s.suspended.Some? {
      var e := Resumed(s.suspended.value, Null, MainError);
      assert s.log + [e] <= r.log;
      assert r.log[|s.log|] == e && !Own(e);
    }
  }

  lemma {:induction false} RunFromSound(s: State, acts: seq<Act>)
    requires Sound(s)
    ensures (forall k :: 0 <= k < |acts| ==> !acts[k].SetError?) ==> Sound(Run(s, acts))
    ensures (exists k :: 0 <= k < |acts| && acts[k].SetError?) ==> Spoilt(Run(s, acts))
    decreases |acts|
  {
    hide Take, Sound, Spoilt;
    if acts != [] {
      if acts[0].SetError? {
        SetErrorSpoils(s, acts[0].next);
        RunFromSpoilt(Take(s, acts[0]), acts[1..]);
      } else {
        StepKeepsSound(s, acts[0]);
        RunFromSound(Take(s, acts[0]), acts[1..]);
        assert forall k :: 0 <= k < |acts[1..]| ==> acts[1..][k] == acts[k + 1];
        assert forall k :: 1 <= k < |acts| ==> acts[k] == acts[1..][k - 1];
      }
    }
  }

  lemma {:induction false} RunFromSpoilt(s: State, acts: seq<Act>)
    requires Spoilt(s)
    ensures Spoilt(Run(s, acts))
    decreases |acts|
  {
    hide Take, Spoilt;
    if acts != [] {
      StaysSpoilt(s, acts[0]);
      RunFromSpoilt(Take(s, acts[0]), acts[1..]);
    }
  }

  /** In a run every suspension is resumed by its own event, and the program goes on, exactly if no error is set from the main coroutine. */
  lemma OwnEventsIffNoMainError(acts: seq<Act>)
    ensures var end := Run(Start(), acts);
            (end.fate == Alive && forall k :: 0 <= k < |end.log| ==> Own(end.log[k]))
            <==> forall k :: 0 <= k < |acts| ==> !acts[k].SetError?
  {
    var end := Run(Start(), acts);
    RunFromSound(Start(), acts);
    hide Run;
    if forall k :: 0 <= k < |acts| ==> !acts[k].SetError? {
      forall k | 0 <= k < |end.log|
        ensures Own(end.log[k])
      {
        BracketedOwn(end.log, end.suspended, k);
      }
    }
  }

  /** And then each resumption tells what has resumed it, as the code after it takes it. */
  lemma ValuesTellCauses(acts: seq<Act>, k: nat)
    requires forall j :: 0 <= j < |acts| ==> !acts[j].SetError?
    ensures var end := Run(Start(), acts); k < |end.log| ==> Tells(end.log[k])
  {
    var end := Run(Start(), acts);
    RunFromSound(Start(), acts);
    hide Run;
    if k < |end.log| {
      BracketedOwn(end.log, end.suspended, k);
    }
  }

  /** And every suspension but the open one has been resumed exactly once. */
  lemma ResumedOnce(acts: seq<Act>, k: nat)
    requires forall j :: 0 <= j < |acts| ==> !acts[j].SetError?
    ensures var end := Run(Start(), acts);
            k < |end.log| ==> Resumptions(end.log, end.log[k].at.source) == if end.suspended == Some(end.log[k].at) then 0 else 1
  {
    var end := Run(Start(), acts);
    RunFromSound(Start(), acts);
    hide Run;
    if k < |end.log| {
      BracketedOnce(end.log, end.suspended, k);
    }
  }

  /**
   * A handler of the signal that asks for a type sets one that is not
   * supported.  The coroutine leaves its emission before the callback has
   * ended, which then goes on with a stack frame that has returned.
   */
  lemma HandlerMisuse(next: Next, after: Next)
    ensures var end := Run(Start(), [Begin(ParkAt(MainContext)), Emit(0), SetError(next), Emitted(after)]);
            end.fate == Lost && |end.log| >= 2 && end.log[1] == Resumed(Suspension(MainContext, 0), Null, MainError)
  {
    hide Run, Take;
    var begin, emit, misuse, emitted := Begin(ParkAt(MainContext)), Emit(0), SetError(next), Emitted(after);
    assert [begin] + [emit, misuse, emitted] == [begin, emit, misuse, emitted];
    assert [emit] + [misuse, emitted] == [emit, misuse, emitted] && [misuse] + [emitted] == [misuse, emitted] && [emitted] + [] == [emitted];
    var at := Suspension(MainContext, 0);
    var parked := Start().(started := true, nextId := 1, sources := map[0 := Wakes(at)], suspended := Some(at), caller := true, log := [Parked(at)]);
    var called := parked.(running := Some(0));
    var misused := Take(called, misuse);
    AtEmission(parked, called, next, after);
    RunFirst(Start(), begin, [emit, misuse, emitted]);
    RunFirst(parked, emit, [misuse, emitted]);
    RunFirst(called, misuse, [emitted]);
    RunFirst(misused, emitted, []);
  }

  lemma RunFirst(s: State, act: Act, acts: seq<Act>)
    ensures Run(s, [act] + acts) == Run(Take(s, act), acts) && Run(s, []) == s && Run(Take(s, act), []) == Take(s, act)
  {
    hide Take;
    assert ([act] + acts)[1..] == acts;
  }

  lemma AtEmission(parked: State, called: State, next: Next, after: Next)
    requires var at := Suspension(MainContext, 0);
             parked == Start().(started := true, nextId := 1, sources := map[0 := Wakes(at)], suspended := Some(at),
                                  caller := true, log := [Parked(at)])
    requires called == parked.(running := Some(0))
    ensures Take(Start(), Begin(ParkAt(MainContext))) == parked && Take(parked, Emit(0)) == called
    ensures var end := Take(Take(called, SetError(next)), Emitted(after));
            end.fate == Lost && |end.log| >= 2 && end.log[1] == Resumed(Suspension(MainContext, 0), Null, MainError)
  {
    var misused := Take(called, SetError(next));
    assert misused.running == Some(0) && misused.sources[0] == Wakes(Suspension(MainContext, 0));
    assert misused.fate == Alive && misused.suspended != Some(Suspension(MainContext, 0));
  }

  /** One connection's coroutine, its wait queue, and the sources of the main loop. */
  class WaitQueue {
    var sources: map<nat, Armed>
    var nextId: nat
    var waiting: bool
    var started: bool
    var suspended: Option<Suspension>
    var caller: bool
    var running: Option<nat>
    var fate: Fate
    ghost var log: seq<Event>

    ghost function Now(): State
      reads this
    {
      State(sources, nextId, waiting, started, suspended, caller, running, fate, log)
    }

    constructor ()
      ensures Now() == Start() && Sound(Now())
    {
      sources, nextId, waiting, started, suspended := map[], 0, false, false, None;
      caller, running, fate, log := false, None, Alive, [];
    }

    /** Attach a source and yield. */
    method Suspend(kind: Kind)
      requires suspended.None?
      modifies this
      ensures Now() == Park(old(Now()), ParkAt(kind))
    {
      var at := Suspension(kind, nextId);
      nextId := nextId + 1;
      sources := sources[at.source := Wakes(at)];
      if kind.Interruptible? {
        waiting := true;
      }
      suspended, caller := Some(at), true;
      log := log + [Parked(at)];
    }

    /** The code behind the coroutine_yield that comes back with `v`. */
    method Return(at: Suspension, v: Value)
      modifies this`waiting, this`sources, this`fate
      ensures waiting == (old(waiting) && !at.kind.Interruptible?)
      ensures sources == if at.kind.Interruptible? && v.Null? then old(sources) - {at.source} else old(sources)
      ensures fate == if at.kind.Socket? && v.Null? then Lost else old(fate)
    {
      match at.kind
      case Socket =>
        if v.Null? {
          fate := Lost;                 // `*ret` is read
        }
      case Interruptible =>
        waiting := false;
        if v.Null? {
          sources := sources - {at.source};
        }
      case Condition =>
      case MainContext =>
    }

    /** The coroutine runs until it suspends itself again, or ends. */
    method Switch(v: Value, ghost cause: Cause, next: Next)
      requires suspended.Some? && fate == Alive
      modifies this
      ensures Now() == Resume(old(Now()), v, cause, next)
    {
      var at := suspended.value;
      suspended := None;
      log := log + [Resumed(at, v, cause)];
      Return(at, v);
      if fate == Alive && next.ParkAt? {
        Suspend(next.kind);
      }
    }

    /** coroutine_yieldto from the callback of a source, which then returns FALSE. */
    method Deliver(at: Suspension, next: Next)
      requires fate == Alive
      modifies this
      ensures Now() == Delivered(old(Now()), at, next)
    {
      if suspended.None? {
        fate := Aborted;
        return;
      }
      Switch(Passes(at.kind), Source(at.source), next);
      sources := sources - {at.source};
    }

    /** The first coroutine_yieldto, which starts the coroutine. */
    method Begin(next: Next)
      requires !started && suspended.None? && fate == Alive
      modifies this
      ensures Now() == Take(old(Now()), Act.Begin(next)) && (old(Sound(Now())) ==> Sound(Now()))
    {
      if Sound(Now()) { StepKeepsSound(Now(), Act.Begin(next)); }
      started := true;
      if next.ParkAt? {
        Suspend(next.kind);
      }
    }

    /**
     * The main loop dispatches a source that resumes the coroutine: while no
     * error has been set from the main coroutine it is that of the present
     * suspension, and it is gone afterwards.
     */
    method Fire(id: nat, next: Next)
      requires fate == Alive && running.None? && id in sources && (sources[id].Wakes? ==> !sources[id].at.kind.MainContext?)
      modifies this
      ensures Now() == Take(old(Now()), Act.Fire(id, next))
      ensures old(Sound(Now())) ==> Sound(Now()) && id !in sources && old(suspended.Some? && suspended.value.source == id)
      ensures old(Sound(Now())) ==>
                var at := old(suspended.value);
                |log| > |old(log)| && log[|old(log)|] == Resumed(at, if at.kind.Condition? then Null else Ready, Source(id))
    {
      if Sound(Now()) {
        StepKeepsSound(Now(), Act.Fire(id, next));
        SourceGone(Now(), id, next);
      }
      match sources[id]
      case Signals => fate := Lost;
      case Wakes(at) => Deliver(at, next);
    }

    /** `do_vnc_connection_emit_main_context`: it calls the handlers ... */
    method Emit(id: nat)
      requires fate == Alive && running.None? && id in sources && sources[id].Wakes? && sources[id].at.kind.MainContext?
      modifies this`running, this`fate
      ensures Now() == Take(old(Now()), Act.Emit(id)) && (old(Sound(Now())) ==> Sound(Now()))
    {
      if suspended == Some(sources[id].at) {
        running := Some(id);
      } else {
        fate := Lost;
      }
    }

    /** ... and resumes the coroutine that emits. */
    method Emitted(next: Next)
      requires fate == Alive && running.Some? && running.value in sources && sources[running.value].Wakes?
      modifies this
      ensures Now() == Take(old(Now()), Act.Emitted(next)) && (old(Sound(Now())) ==> Sound(Now()))
    {
      if Sound(Now()) { StepKeepsSound(Now(), Act.Emitted(next)); }
      var at := sources[running.value].at;
      if suspended != Some(at) {
        fate := Lost;
        return;
      }
      running := None;
      Deliver(at, next);
    }

    /** `g_io_wakeup`, from any call of the interface: it reaches the coroutine only in the interruptible wait. */
    method WakeUp(next: Next)
      requires fate == Alive && (waiting ==> suspended.Some?)
      modifies this
      ensures Now() == Take(old(Now()), Act.Wake(next)) && (old(Sound(Now())) ==> Sound(Now()))
      ensures !old(waiting) ==> Now() == old(Now())
      ensures old(Sound(Now()) && waiting) ==> old(suspended.value).kind.Interruptible? && old(suspended.value).source !in sources
    {
      if Sound(Now()) {
        StepKeepsSound(Now(), Act.Wake(next));
        if waiting { WakeUpRemoves(Now(), next); }
      }
      if waiting {
        Switch(Null, Cause.WakeUp, next);
      }
    }

    /** `vnc_connection_set_error`, called in the main coroutine. */
    method SetError(next: Next)
      requires fate == Alive
      modifies this
      ensures Now() == Take(old(Now()), Act.SetError(next)) && (old(Sound(Now())) ==> Spoilt(Now()))
    {
      if Sound(Now()) { SetErrorSpoils(Now(), next); }
      if !caller {
        fate := Aborted;
      } else if suspended.None? {
        fate := Hung;
      } else {
        sources, nextId, caller := sources[nextId := Signals], nextId + 1, false;
        Switch(Null, MainError, next);
      }
    }
  }

  lemma SourceGone(s: State, id: nat, next: Next)
    requires Sound(s) && s.running.None? && id in s.sources && !s.sources[id].at.kind.MainContext?
    ensures s.suspended.Some? && s.suspended.value.source == id && id !in Take(s, Fire(id, next)).sources
  {
    hide Bracketed, Resume;
  }
}
