/** What a server makes of the key messages it gets, of which the hardware keycode is no part. */
module KeyServers {
  import opened Keys
  import ClientMessages

  /** What tells one key from another on the wire: its keysym, in extended messages with its scancode. */
  datatype KeyId = Sym(keysym: int) | SymAndScan(keysym: int, scancode: int)

  /** `vnc_connection_key_event`: the message sent for an event; `extended` once the server has said that it knows that form. */
  function Wire(e: Event, extended: bool): ClientMessages.Message
  {
    if extended then ClientMessages.ExtendedKey(e.down, e.keyval, e.scancode) else ClientMessages.Key(e.down, e.keyval)
  }

  /** The keys a server takes for held after one message more. */
  function Hears(held: set<KeyId>, m: ClientMessages.Message): set<KeyId>
  {
    match m
    case Key(down, keysym) => if down then held + {Sym(keysym)} else held - {Sym(keysym)}
    case ExtendedKey(down, keysym, scancode) =>
      if down then held + {SymAndScan(keysym, scancode)} else held - {SymAndScan(keysym, scancode)}
    case _ => held
  }

  /** The keys the server believes are held. */
  function Believed(log: seq<Event>, extended: bool): set<KeyId>
  {
    if log == [] then {} else Hears(Believed(log[..|log| - 1], extended), Wire(log[|log| - 1], extended))
  }

  function Id(s: Slot, keymap: nat -> nat, extended: bool): KeyId
  {
    if extended then SymAndScan(s.keyval, keymap(s.code)) else Sym(s.keyval)
  }

  /** The keys in the occupied slots, as the server knows them. */
  function Shown(slots: seq<Slot>, keymap: nat -> nat, extended: bool): set<KeyId>
  {
    set i | 0 <= i < |slots| && slots[i].code != 0 :: Id(slots[i], keymap, extended)
  }

  ghost predicate InStep(slots: seq<Slot>, log: seq<Event>, keymap: nat -> nat, extended: bool)
  {
    Believed(log, extended) == Shown(slots, keymap, extended)
  }

  /**
   * The events that mislead the server, told from the slots.  With a keycode:
   * the slot it frees holds a key that another slot holds too, so that the
   * server takes both for released, unless the same key is pressed again.
   * With keycode 0, while a slot is free: the slot is used but counts as free.
   */
  predicate Misleads(slots: seq<Slot>, input: Input, keymap: nat -> nat, extended: bool)
  {
    input.Key? &&
    var i := Find(slots, input.code);
    i < |slots| &&
    var released, pressed := Id(slots[i], keymap, extended), Id(Slot(Normal(input.keyval), input.code), keymap, extended);
    if input.code != 0 then Shared(slots, i, keymap, extended) && !(input.press && pressed == released)
    else if input.press then
      pressed !in Shown(slots, keymap, extended) || (released in Shown(slots, keymap, extended) && released != pressed)
    else released in Shown(slots, keymap, extended)
  }

  /** Another slot holds what the server takes for the same key. */
  predicate Shared(slots: seq<Slot>, i: nat, keymap: nat -> nat, extended: bool)
    requires i < |slots|
  {
    exists j :: 0 <= j < |slots| && j != i && slots[j].code != 0 && Id(slots[j], keymap, extended) == Id(slots[i], keymap, extended)
  }

  /* The slots and what they show. */

  lemma ShownWithout(slots: seq<Slot>, i: nat, keymap: nat -> nat, extended: bool)
    requires i < |slots| && slots[i].code != 0
    ensures Shown(slots, keymap, extended) == Shown(slots[i := EMPTY], keymap, extended) + {Id(slots[i], keymap, extended)}
    ensures Id(slots[i], keymap, extended) in Shown(slots[i := EMPTY], keymap, extended) <==> Shared(slots, i, keymap, extended)
  {
    var after := slots[i := EMPTY];
    forall k: KeyId
      ensures k in Shown(slots, keymap, extended) <==> k in Shown(after, keymap, extended) || k == Id(slots[i], keymap, extended)
    {
      if k in Shown(slots, keymap, extended) {
        var j :| 0 <= j < |slots| && slots[j].code != 0 && Id(slots[j], keymap, extended) == k;
        assert j != i ==> after[j] == slots[j];
      }
      if k in Shown(after, keymap, extended) {
        var j :| 0 <= j < |after| && after[j].code != 0 && Id(after[j], keymap, extended) == k;
        assert after[j] == slots[j];
      }
    }
    if Shared(slots, i, keymap, extended) {
      var j :| 0 <= j < |slots| && j != i && slots[j].code != 0 && Id(slots[j], keymap, extended) == Id(slots[i], keymap, extended);
      assert after[j] == slots[j];
    }
  }

  /** A slot that was free is filled, or stays free if the keycode is 0. */
  lemma ShownWith(slots: seq<Slot>, i: nat, s: Slot, keymap: nat -> nat, extended: bool)
    requires i < |slots| && slots[i].code == 0
    ensures Shown(slots[i := s], keymap, extended)
         == Shown(slots, keymap, extended) + if s.code != 0 then {Id(s, keymap, extended)} else {}
  {
    var after := slots[i := s];
    forall k: KeyId
      ensures k in Shown(after, keymap, extended)
          <==> k in Shown(slots, keymap, extended) || (s.code != 0 && k == Id(s, keymap, extended))
    {
      if k in Shown(slots, keymap, extended) {
        var j :| 0 <= j < |slots| && slots[j].code != 0 && Id(slots[j], keymap, extended) == k;
        assert after[j] == slots[j];
      }
      if k in Shown(after, keymap, extended) {
        var j :| 0 <= j < |after| && after[j].code != 0 && Id(after[j], keymap, extended) == k;
        assert j != i ==> after[j] == slots[j];
      }
      if s.code != 0 { assert after[i] == s; }
    }
  }

  /* The events and what they do to the server. */

  lemma HearsMore(log: seq<Event>, e: Event, extended: bool)
    ensures Believed(log + [e], extended) == Hears(Believed(log, extended), Wire(e, extended))
  {
    assert (log + [e])[..|log|] == log;
  }

  /** What the server believes after a key event. */
  lemma BelievedAfterKey(slots: seq<Slot>, log: seq<Event>, press: bool, code: nat, keyval: nat, keymap: nat -> nat, extended: bool)
    ensures var (after, sent) := OnKey(slots, press, code, keyval, keymap);
            var i := Find(slots, code);
            var mid := if i < |slots| then slots[i := EMPTY] else slots;
            var held := Believed(log, extended)
                        - if i < |slots| then {Id(slots[i], keymap, extended)} else {};
            Believed(log + sent, extended)
            == held + if press && Find(mid, 0) < |mid| then {Id(Slot(Normal(keyval), code), keymap, extended)} else {}
  {
    hide Find, Id, Shown, Normal;
    var i := Find(slots, code);
    var (mid, released) := OnRelease(slots, code, keymap);
    NoEvents(log);
    if i < |slots| {
      HearsMore(log, released[0], extended);
      IdOfEvent(released[0], slots[i], keymap, extended);
    }
    if press {
      var f := Find(mid, 0);
      var pressed := OnPress(mid, code, Normal(keyval), keymap).1;
      LogJoin(log, released, pressed);
      if f < |mid| {
        HearsMore(log + released, pressed[0], extended);
        IdOfEvent(pressed[0], Slot(Normal(keyval), code), keymap, extended);
      } else {
        NoEvents(log + released);
      }
    }
  }

  lemma LogJoin(a: seq<Event>, b: seq<Event>, c: seq<Event>)
    ensures a + (b + c) == (a + b) + c
  {
  }

  lemma NoEvents(log: seq<Event>)
    ensures log + [] == log
  {
  }

  lemma IdOfEvent(e: Event, s: Slot, keymap: nat -> nat, extended: bool)
    requires e.keyval == s.keyval && e.scancode == keymap(s.code)
    ensures forall held :: Hears(held, Wire(e, extended))
                        == if e.down then held + {Id(s, keymap, extended)} else held - {Id(s, keymap, extended)}
  {
  }

  /** What the slots show after it. */
  lemma ShownAfterKey(slots: seq<Slot>, press: bool, code: nat, keyval: nat, keymap: nat -> nat, extended: bool)
    ensures var after := OnKey(slots, press, code, keyval, keymap).0;
            var i := Find(slots, code);
            var mid := if i < |slots| then slots[i := EMPTY] else slots;
            Shown(after, keymap, extended)
            == Shown(mid, keymap, extended)
               + if press && code != 0 && Find(mid, 0) < |mid| then {Id(Slot(Normal(keyval), code), keymap, extended)} else {}
  {
    hide Find, Id, Shown, Normal;
    var i := Find(slots, code);
    var mid := if i < |slots| then slots[i := EMPTY] else slots;
    var f := Find(mid, 0);
    if press && f < |mid| {
      ShownWith(mid, f, Slot(Normal(keyval), code), keymap, extended);
    }
  }

  /** One event leaves slots and server in step exactly unless it is a misleading one. */
  lemma EventInStep(slots: seq<Slot>, log: seq<Event>, input: Input, keymap: nat -> nat, extended: bool)
    requires InStep(slots, log, keymap, extended)
    ensures var (after, sent) := On(slots, input, keymap);
            InStep(after, log + sent, keymap, extended) <==> !Misleads(slots, input, keymap, extended)
  {
    hide Find, Id, Shown, Believed, Shared, Normal, OnKey, OnFocusLost;
    match input
    case FocusLost =>
      FocusLostClears(slots, log, 0, keymap, extended);
    case Key(press, code, keyval) =>
      BelievedAfterKey(slots, log, press, code, keyval, keymap, extended);
      ShownAfterKey(slots, press, code, keyval, keymap, extended);
      var i := Find(slots, code);
      if i < |slots| {
        if code != 0 {
          ShownWithout(slots, i, keymap, extended);
          FindsFree(slots, i);
        } else {
          ShownWith(slots, i, EMPTY, keymap, extended);
          FindsFree(slots, i);
        }
      }
  }

  /** Where a slot has been emptied, a free one is found. */
  lemma FindsFree(slots: seq<Slot>, i: nat)
    requires i < |slots|
    ensures Find(slots[i := EMPTY], 0) < |slots|
  {
    var after := slots[i := EMPTY];
    assert after[i].code == 0;
  }

  /** A loss of focus releases what the slots from `i` on show, and the rest of what the server believes stays. */
  lemma {:induction false} FocusLostClears(slots: seq<Slot>, log: seq<Event>, i: nat, keymap: nat -> nat, extended: bool)
    requires i <= |slots| && forall j :: 0 <= j < i ==> slots[j].code == 0
    ensures var (end, sent) := OnFocusLost(slots, i, keymap);
            && Believed(log + sent, extended) == Believed(log, extended) - Shown(slots, keymap, extended)
            && Shown(end, keymap, extended) == {}
    decreases |slots| - i
  {
    hide OnFocusLost, Id, Shown, Believed;
    FocusLostNext(slots, i, keymap);
    if i == |slots| {
      assert log + [] == log;
      NothingShown(slots, keymap, extended);
    } else if slots[i].code == 0 {
      FocusLostClears(slots, log, i + 1, keymap, extended);
    } else {
      var e := Event(false, slots[i].keyval, keymap(slots[i].code), slots[i].code);
      var more := OnFocusLost(slots[i := EMPTY], i + 1, keymap).1;
      FocusLostClears(slots[i := EMPTY], log + [e], i + 1, keymap, extended);
      LogMore(log, e, more);
      HearsMore(log, e, extended);
      IdOfEvent(e, slots[i], keymap, extended);
      ShownWithout(slots, i, keymap, extended);
    }
  }

  lemma NothingShown(slots: seq<Slot>, keymap: nat -> nat, extended: bool)
    requires forall j :: 0 <= j < |slots| ==> slots[j].code == 0
    ensures Shown(slots, keymap, extended) == {}
  {
  }

  /* Runs. */

  /** In step now, and after each of the inputs. */
  ghost predicate StaysInStep(slots: seq<Slot>, log: seq<Event>, inputs: seq<Input>, keymap: nat -> nat, extended: bool)
    decreases |inputs|
  {
    && InStep(slots, log, keymap, extended)
    && (inputs == [] ||
        var (after, sent) := On(slots, inputs[0], keymap);
        StaysInStep(after, log + sent, inputs[1..], keymap, extended))
  }

  predicate NeverMisleads(slots: seq<Slot>, inputs: seq<Input>, keymap: nat -> nat, extended: bool)
    decreases |inputs|
  {
    inputs == [] ||
    (!Misleads(slots, inputs[0], keymap, extended) && NeverMisleads(On(slots, inputs[0], keymap).0, inputs[1..], keymap, extended))
  }

  /** Slots and server are in step throughout a series of events exactly if none of them is a misleading one. */
  lemma {:induction false} RunInStep(slots: seq<Slot>, log: seq<Event>, inputs: seq<Input>, keymap: nat -> nat, extended: bool)
    requires InStep(slots, log, keymap, extended)
    ensures StaysInStep(slots, log, inputs, keymap, extended) <==> NeverMisleads(slots, inputs, keymap, extended)
    decreases |inputs|
  {
    hide On, InStep, Misleads;
    if inputs != [] {
      EventInStep(slots, log, inputs[0], keymap, extended);
      var (after, sent) := On(slots, inputs[0], keymap);
      if InStep(after, log + sent, keymap, extended) {
        RunInStep(after, log + sent, inputs[1..], keymap, extended);
      } else {
        OutOfStep(after, log + sent, inputs[1..], keymap, extended);
      }
    }
  }

  lemma OutOfStep(slots: seq<Slot>, log: seq<Event>, inputs: seq<Input>, keymap: nat -> nat, extended: bool)
    requires !InStep(slots, log, keymap, extended)
    ensures !StaysInStep(slots, log, inputs, keymap, extended)
  {
  }

  /**
   * Misled or not, over every series of events with keycodes the server never
   * takes a key for held that no slot holds, and after a loss of focus none:
   * no key is left stuck.
   */
  lemma {:induction false} NoKeyStuck(slots: seq<Slot>, log: seq<Event>, inputs: seq<Input>, keymap: nat -> nat, extended: bool)
    requires Believed(log, extended) <= Shown(slots, keymap, extended)
    requires forall k :: 0 <= k < |inputs| && inputs[k].Key? ==> inputs[k].code != 0
    ensures var (end, sent) := Run(slots, log, inputs, keymap);
            && Believed(sent, extended) <= Shown(end, keymap, extended)
            && (inputs != [] && inputs[|inputs| - 1].FocusLost? ==> Believed(sent, extended) == {})
    decreases |inputs|
  {
    hide On, Believed, Shown;
    if inputs != [] {
      var (after, sent) := On(slots, inputs[0], keymap);
      NothingExtra(slots, log, inputs[0], keymap, extended);
      NoKeyStuck(after, log + sent, inputs[1..], keymap, extended);
      assert |inputs| == 1 ==> Run(after, log + sent, inputs[1..], keymap) == (after, log + sent);
    }
  }

  lemma NothingExtra(slots: seq<Slot>, log: seq<Event>, input: Input, keymap: nat -> nat, extended: bool)
    requires Believed(log, extended) <= Shown(slots, keymap, extended) && (input.Key? ==> input.code != 0)
    ensures var (after, sent) := On(slots, input, keymap);
            && Believed(log + sent, extended) <= Shown(after, keymap, extended)
            && (input.FocusLost? ==> Believed(log + sent, extended) == {})
  {
    hide Find, Id, Shown, Believed, OnKey, OnFocusLost, Normal;
    match input
    case FocusLost => FocusLostClears(slots, log, 0, keymap, extended);
    case Key(press, code, keyval) =>
      BelievedAfterKey(slots, log, press, code, keyval, keymap, extended);
      ShownAfterKey(slots, press, code, keyval, keymap, extended);
      var i := Find(slots, code);
      if i < |slots| {
        ShownWithout(slots, i, keymap, extended);
      }
  }

  /* Two series that mislead. */

  function NoneHeld(): (slots: seq<Slot>)
    ensures |slots| == 16 && forall i :: 0 <= i < 16 ==> slots[i] == Slot(0, 0)
  {
    seq(SLOTS, _ => EMPTY)
  }

  /**
   * Two keys with one keysym, as Caps Lock (66) remapped to left Control and
   * the left Control key itself (37) are: with the first one released a server told of
   * keysyms alone takes none for held, where the second is still down.
   */
  lemma TwoKeysOneSym(keysym: nat, keymap: nat -> nat)
    requires keysym != ISO_LEFT_TAB
    ensures var inputs := [Input.Key(true, 66, keysym), Input.Key(true, 37, keysym), Input.Key(false, 66, keysym)];
            var (end, sent) := Run(NoneHeld(), [], inputs, keymap);
            && |end| == 16 && end[1] == Slot(keysym, 37) && Believed(sent, false) == {}
            && !InStep(end, sent, keymap, false) && (InStep(end, sent, keymap, true) <==> keymap(66) != keymap(37))
  {
    hide On, Find, Run, Believed, InStep;
    var a, b, c := Input.Key(true, 66, keysym), Input.Key(true, 37, keysym), Input.Key(false, 66, keysym);
    var none := NoneHeld();
    var one := none[0 := Slot(keysym, 66)];
    var two := one[1 := Slot(keysym, 37)];
    var log := [Event(true, keysym, keymap(66), 66)] + [Event(true, keysym, keymap(37), 37)];
    Pressed(none, 0, 66, keysym, keymap);
    Pressed(one, 1, 37, keysym, keymap);
    Released(two, 0, 66, keysym, keymap);
    assert [a] + [b, c] == [a, b, c] && [b] + [c] == [b, c] && [c] + [] == [c];
    assert [] + log[..1] == log[..1] == [Event(true, keysym, keymap(66), 66)];
    RunMore(none, [], a, [b, c], keymap);
    RunMore(one, log[..1], b, [c], keymap);
    RunMore(two, log, c, [], keymap);
    RunDone(two[0 := EMPTY], log + [Event(false, keysym, keymap(66), 66)], keymap);
    TwoPressed(keysym, none, one, two, keymap, false);
    TwoPressed(keysym, none, one, two, keymap, true);
    HearsMore(log, Event(false, keysym, keymap(66), 66), false);
    ReleaseShared(keysym, two, log, keymap, false);
    ReleaseShared(keysym, two, log, keymap, true);
  }

  lemma TwoPressed(keysym: nat, none: seq<Slot>, one: seq<Slot>, two: seq<Slot>, keymap: nat -> nat, extended: bool)
    requires none == NoneHeld() && one == none[0 := Slot(keysym, 66)] && two == one[1 := Slot(keysym, 37)]
    ensures var log := [Event(true, keysym, keymap(66), 66)] + [Event(true, keysym, keymap(37), 37)];
            InStep(two, log, keymap, extended) && (!extended ==> Believed(log, extended) == {Sym(keysym)})
  {
    hide Shown, Believed;
    NothingShown(none, keymap, extended);
    ShownWith(none, 0, Slot(keysym, 66), keymap, extended);
    ShownWith(one, 1, Slot(keysym, 37), keymap, extended);
    var first, second := Event(true, keysym, keymap(66), 66), Event(true, keysym, keymap(37), 37);
    NothingBelieved(extended);
    HearsMore([], first, extended);
    assert [] + [first] == [first];
    HearsMore([first], second, extended);
  }

  lemma NothingBelieved(extended: bool)
    ensures Believed([], extended) == {}
  {
  }

  lemma ReleaseShared(keysym: nat, two: seq<Slot>, log: seq<Event>, keymap: nat -> nat, extended: bool)
    requires keysym != ISO_LEFT_TAB
    requires two == NoneHeld()[0 := Slot(keysym, 66)][1 := Slot(keysym, 37)] && InStep(two, log, keymap, extended)
    ensures InStep(two[0 := EMPTY], log + [Event(false, keysym, keymap(66), 66)], keymap, extended)
        <==> extended && keymap(66) != keymap(37)
  {
    hide On, Find, InStep, Shown, Normal;
    Released(two, 0, 66, keysym, keymap);
    EventInStep(two, log, Input.Key(false, 66, keysym), keymap, extended);
    assert Find(two, 66) == 0;
    assert two[1] == Slot(keysym, 37);
    if extended && keymap(66) != keymap(37) {
      assert !Shared(two, 0, keymap, extended);
    } else {
      assert Id(two[1], keymap, extended) == Id(two[0], keymap, extended);
    }
  }

  lemma Pressed(slots: seq<Slot>, f: nat, code: nat, keyval: nat, keymap: nat -> nat)
    requires f < |slots| && code != 0 && keyval != ISO_LEFT_TAB && slots[f].code == 0
    requires forall j :: 0 <= j < |slots| ==> slots[j].code != code && (j < f ==> slots[j].code != 0)
    ensures On(slots, Input.Key(true, code, keyval), keymap)
         == (slots[f := Slot(keyval, code)], [Event(true, keyval, keymap(code), code)])
  {
    assert Find(slots, 0) == f && Find(slots, code) == |slots|;
    hide Find;
    assert [] + [Event(true, keyval, keymap(code), code)] == [Event(true, keyval, keymap(code), code)];
  }

  lemma Released(slots: seq<Slot>, i: nat, code: nat, keyval: nat, keymap: nat -> nat)
    requires i < |slots| && slots[i].code == code && forall j :: 0 <= j < i ==> slots[j].code != code
    ensures Find(slots, code) == i
    ensures On(slots, Input.Key(false, code, keyval), keymap)
         == (slots[i := EMPTY], [Event(false, slots[i].keyval, keymap(code), code)])
  {
    assert Find(slots, code) == i;
  }

  lemma RunMore(slots: seq<Slot>, log: seq<Event>, input: Input, inputs: seq<Input>, keymap: nat -> nat)
    ensures var (after, sent) := On(slots, input, keymap);
            Run(slots, log, [input] + inputs, keymap) == Run(after, log + sent, inputs, keymap)
  {
    hide On;
    assert ([input] + inputs)[1..] == inputs;
  }

  lemma RunDone(slots: seq<Slot>, log: seq<Event>, keymap: nat -> nat)
    ensures Run(slots, log, [], keymap) == (slots, log)
  {
  }

  /** A key pressed with keycode 0 stays down at the server, no slot being taken for it: a loss of focus does not release it. */
  lemma StuckKey(keyval: nat, keymap: nat -> nat, extended: bool)
    requires keyval != ISO_LEFT_TAB
    ensures var (end, sent) := Run(NoneHeld(), [], [Input.Key(true, 0, keyval), FocusLost], keymap);
            && (forall i :: 0 <= i < |end| ==> end[i].code == 0)
            && Believed(sent, extended) == {Id(Slot(keyval, 0), keymap, extended)}
  {
    hide Find, OnKey, Believed, Shown, Run;
    var none := NoneHeld();
    var press := Input.Key(true, 0, keyval);
    var (after, sent) := On(none, press, keymap);
    RunMore(none, [], press, [FocusLost], keymap);
    assert [] + sent == sent;
    RunMore(after, sent, FocusLost, [], keymap);
    RunDone(after, sent, keymap);
    FreeAfterZero(none, keyval, keymap);
    NothingBelieved(extended);
    BelievedAfterKey(none, [], true, 0, keyval, keymap, extended);
    FocusLostNone(after, 0, keymap);
    assert sent + [] == sent;
    assert [press] + [FocusLost] == [press, FocusLost] && [FocusLost] + [] == [FocusLost];
    assert none[0] == EMPTY;
  }

  lemma FreeAfterZero(slots: seq<Slot>, keyval: nat, keymap: nat -> nat)
    requires 0 < |slots| && forall i :: 0 <= i < |slots| ==> slots[i] == EMPTY
    ensures Find(slots, 0) == 0 && Find(slots[0 := EMPTY], 0) == 0
    ensures var after := OnKey(slots, true, 0, keyval, keymap).0; forall i :: 0 <= i < |after| ==> after[i].code == 0
  {
  }

  lemma {:induction false} FocusLostNone(slots: seq<Slot>, i: nat, keymap: nat -> nat)
    requires i <= |slots| && forall j :: 0 <= j < |slots| ==> slots[j].code == 0
    ensures OnFocusLost(slots, i, keymap) == (slots, [])
    decreases |slots| - i
  {
    if i < |slots| {
      FocusLostNone(slots, i + 1, keymap);
    }
  }
}
