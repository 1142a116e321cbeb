/** The table of held keys (src/vncdisplay.c). */
module Keys {

  const SLOTS := 16
  const ISO_LEFT_TAB := 0xFE20
  const TAB := 0xFF09

  /** A slot with scancode 0 is empty. */
  datatype Slot = Slot(keyval: nat, code: nat)

  const EMPTY := Slot(0, 0)

  /** A key event sent to the server, and the hardware keycode it was sent for, which is not part of the message. */
  datatype Event = Event(down: bool, keyval: nat, scancode: nat, code: nat)

  datatype Input = Key(press: bool, code: nat, keyval: nat) | FocusLost

  /* What is sent for each keycode. */

  /** The keycodes whose press has been sent and not released, and its keyval. */
  function Unreleased(log: seq<Event>): map<nat, nat>
  {
    if log == [] then map[]
    else
      var e, before := log[|log| - 1], Unreleased(log[..|log| - 1]);
      if e.down then before[e.code := e.keyval] else before - {e.code}
  }

  /**
   * For every keycode presses and releases alternate, each release carries
   * the keyval of its press, and both the scancode of the key.
   */
  predicate Alternates(log: seq<Event>, keymap: nat -> nat)
  {
    log == [] ||
    var e, before := log[|log| - 1], log[..|log| - 1];
    && Alternates(before, keymap) && e.scancode == keymap(e.code)
    && if e.down then e.code !in Unreleased(before) else e.code in Unreleased(before) && Unreleased(before)[e.code] == e.keyval
  }

  lemma OneMore(log: seq<Event>, e: Event, keymap: nat -> nat)
    ensures Unreleased(log + [e]) == if e.down then Unreleased(log)[e.code := e.keyval] else Unreleased(log) - {e.code}
    ensures Alternates(log + [e], keymap) <==>
              && Alternates(log, keymap) && e.scancode == keymap(e.code)
              && if e.down then e.code !in Unreleased(log) else e.code in Unreleased(log) && Unreleased(log)[e.code] == e.keyval
  {
    assert (log + [e])[..|log|] == log;
  }

  /* What the event handlers do to the slots. */

  /** The first slot with this scancode, or the number of slots. */
  function Find(slots: seq<Slot>, code: nat): (i: nat)
    ensures i <= |slots| && (i < |slots| ==> slots[i].code == code)
    ensures forall j :: 0 <= j < i ==> slots[j].code != code
  {
    if slots == [] || slots[0].code == code then 0 else 1 + Find(slots[1..], code)
  }

  /** The release handling, which runs for presses too. */
  function OnRelease(slots: seq<Slot>, code: nat, keymap: nat -> nat): (seq<Slot>, seq<Event>)
  {
    var i := Find(slots, code);
    if i == |slots| then (slots, []) else (slots[i := EMPTY], [Event(false, slots[i].keyval, keymap(code), code)])
  }

  function OnPress(slots: seq<Slot>, code: nat, keyval: nat, keymap: nat -> nat): (seq<Slot>, seq<Event>)
  {
    var i := Find(slots, 0);
    if i == |slots| then (slots, []) else (slots[i := Slot(keyval, code)], [Event(true, keyval, keymap(code), code)])
  }

  function Normal(keyval: nat): nat
  {
    if keyval == 0xFE20 then 0xFF09 else keyval
  }

  function OnKey(slots: seq<Slot>, press: bool, code: nat, keyval: nat, keymap: nat -> nat): (seq<Slot>, seq<Event>)
  {
    var (after, released) := OnRelease(slots, code, keymap);
    if press then
      var (end, pressed) := OnPress(after, code, Normal(keyval), keymap);
      (end, released + pressed)
    else (after, released)
  }

  /** `release_keys`, from slot `i` on. */
  function OnFocusLost(slots: seq<Slot>, i: nat, keymap: nat -> nat): (seq<Slot>, seq<Event>)
    requires i <= |slots|
    decreases |slots| - i
  {
    if i == |slots| then (slots, [])
    else if slots[i].code == 0 then OnFocusLost(slots, i + 1, keymap)
    else
      var (end, more) := OnFocusLost(slots[i := EMPTY], i + 1, keymap);
      (end, [Event(false, slots[i].keyval, keymap(slots[i].code), slots[i].code)] + more)
  }

  function On(slots: seq<Slot>, input: Input, keymap: nat -> nat): (seq<Slot>, seq<Event>)
  {
    match input
    case Key(press, code, keyval) => OnKey(slots, press, code, keyval, keymap)
    case FocusLost => OnFocusLost(slots, 0, keymap)
  }

  /* The slots are what is unreleased. */

  predicate Distinct(slots: seq<Slot>)
  {
    forall i, j :: 0 <= i < j < |slots| && slots[i].code == slots[j].code ==> slots[i].code == 0
  }

  /** The keys in the slots. */
  function Held(slots: seq<Slot>): map<nat, nat>
    requires Distinct(slots)
  {
    map i | 0 <= i < |slots| && slots[i].code != 0 :: slots[i].code := slots[i].keyval
  }

  /** Occupied slots are distinct and hold exactly what the events sent have left held. */
  ghost predicate Tracks(slots: seq<Slot>, log: seq<Event>, keymap: nat -> nat)
  {
    |slots| == 16 && Distinct(slots) && Alternates(log, keymap) && Unreleased(log) == Held(slots)
  }

  /** The slot of a held key. */
  lemma SlotOf(slots: seq<Slot>, code: nat) returns (i: nat)
    requires Distinct(slots) && code in Held(slots)
    ensures i < |slots| && slots[i] == Slot(Held(slots)[code], code) && code != 0
  {
    i :| 0 <= i < |slots| && slots[i].code != 0 && slots[i].code == code;
  }

  lemma SlotHeld(slots: seq<Slot>, i: nat)
    requires Distinct(slots) && i < |slots| && slots[i].code != 0
    ensures slots[i].code in Held(slots) && Held(slots)[slots[i].code] == slots[i].keyval
  {
  }

  lemma HeldWithout(slots: seq<Slot>, i: nat)
    requires Distinct(slots) && i < |slots| && slots[i].code != 0
    ensures Distinct(slots[i := EMPTY]) && Held(slots[i := EMPTY]) == Held(slots) - {slots[i].code}
  {
    var after, code := slots[i := EMPTY], slots[i].code;
    forall k | k in Held(after)
      ensures k in Held(slots) && k != code && Held(after)[k] == Held(slots)[k]
    {
      hide Held;
      var j := SlotOf(after, k);
      SlotHeld(slots, j);
    }
    forall k | k in Held(slots) && k != code
      ensures k in Held(after)
    {
      hide Held;
      var j := SlotOf(slots, k);
      SlotHeld(after, j);
    }
    hide Held;
  }

  lemma HeldWith(slots: seq<Slot>, i: nat, code: nat, keyval: nat)
    requires Distinct(slots) && i < |slots| && slots[i].code == 0 && code != 0
    requires forall j :: 0 <= j < |slots| ==> slots[j].code != code
    ensures code !in Held(slots) && Distinct(slots[i := Slot(keyval, code)])
    ensures Held(slots[i := Slot(keyval, code)]) == Held(slots)[code := keyval]
  {
    var after := slots[i := Slot(keyval, code)];
    SlotHeld(after, i);
    assert code !in Held(slots);
    forall k | k in Held(after) && k != code
      ensures k in Held(slots) && Held(after)[k] == Held(slots)[k]
    {
      hide Held;
      var j := SlotOf(after, k);
      SlotHeld(slots, j);
    }
    forall k | k in Held(slots)
      ensures k in Held(after)
    {
      hide Held;
      var j := SlotOf(slots, k);
      SlotHeld(after, j);
    }
    hide Held;
  }

  lemma ReleaseTracks(slots: seq<Slot>, log: seq<Event>, i: nat, keymap: nat -> nat)
    requires Tracks(slots, log, keymap) && i < |slots| && slots[i].code != 0
    ensures Tracks(slots[i := EMPTY], log + [Event(false, slots[i].keyval, keymap(slots[i].code), slots[i].code)], keymap)
    ensures slots[i].code !in Held(slots[i := EMPTY])
  {
    OneMore(log, Event(false, slots[i].keyval, keymap(slots[i].code), slots[i].code), keymap);
    assert slots[i].code in Held(slots) && Held(slots)[slots[i].code] == slots[i].keyval;
    HeldWithout(slots, i);
    hide Held, Distinct;
  }

  lemma PressTracks(slots: seq<Slot>, log: seq<Event>, i: nat, code: nat, keyval: nat, keymap: nat -> nat)
    requires Tracks(slots, log, keymap) && i < |slots| && slots[i].code == 0
    requires code != 0 && forall j :: 0 <= j < |slots| ==> slots[j].code != code
    ensures Tracks(slots[i := Slot(keyval, code)], log + [Event(true, keyval, keymap(code), code)], keymap)
  {
    OneMore(log, Event(true, keyval, keymap(code), code), keymap);
    HeldWith(slots, i, code, keyval);
  }

  lemma FocusLostNext(slots: seq<Slot>, i: nat, keymap: nat -> nat)
    requires i <= |slots|
    ensures i == |slots| ==> OnFocusLost(slots, i, keymap) == (slots, [])
    ensures i < |slots| && slots[i].code == 0 ==> OnFocusLost(slots, i, keymap) == OnFocusLost(slots, i + 1, keymap)
    ensures i < |slots| && slots[i].code != 0 ==>
              var (end, more) := OnFocusLost(slots[i := EMPTY], i + 1, keymap);
              OnFocusLost(slots, i, keymap) == (end, [Event(false, slots[i].keyval, keymap(slots[i].code), slots[i].code)] + more)
  {
  }

  lemma {:induction false} FocusLostTracks(slots: seq<Slot>, log: seq<Event>, i: nat, keymap: nat -> nat)
    requires Tracks(slots, log, keymap) && i <= |slots| && forall j :: 0 <= j < i ==> slots[j].code == 0
    ensures var (end, sent) := OnFocusLost(slots, i, keymap);
            Tracks(end, log + sent, keymap) && forall j :: 0 <= j < |end| ==> end[j].code == 0
    decreases |slots| - i
  {
    assert |slots| == 16;
    hide Tracks, OnFocusLost;
    FocusLostNext(slots, i, keymap);
    if i == |slots| {
      assert log + [] == log;
    } else if slots[i].code == 0 {
      FocusLostTracks(slots, log, i + 1, keymap);
    } else {
      var e := Event(false, slots[i].keyval, keymap(slots[i].code), slots[i].code);
      ReleaseTracks(slots, log, i, keymap);
      FocusLostTracks(slots[i := EMPTY], log + [e], i + 1, keymap);
      LogMore(log, e, OnFocusLost(slots[i := EMPTY], i + 1, keymap).1);
    }
  }

  lemma LogMore(log: seq<Event>, e: Event, more: seq<Event>)
    ensures log + ([e] + more) == log + [e] + more
  {
  }

  /** A key event with no keycode, while a slot is free. */
  predicate Stray(slots: seq<Slot>, input: Input)
  {
    input.Key? && input.code == 0 && exists i :: 0 <= i < |slots| && slots[i].code == 0
  }

  /**
   * One event keeps the slots in step with what has been sent for each keycode,
   * exactly unless it has keycode 0 and finds a free slot: then a release is
   * sent for a key that was never pressed.
   */
  lemma EventTracks(slots: seq<Slot>, log: seq<Event>, input: Input, keymap: nat -> nat)
    requires Tracks(slots, log, keymap)
    ensures var (after, sent) := On(slots, input, keymap);
            Tracks(after, log + sent, keymap) <==> !Stray(slots, input)
  {
    match input
    case FocusLost => FocusLostTracks(slots, log, 0, keymap);
    case Key(press, code, keyval) =>
      var i := Find(slots, code);
      var (mid, released) := OnRelease(slots, code, keymap);
      if code == 0 {
        StrayBreaks(slots, log, press, keyval, keymap);
      } else {
        assert log + [] == log;
        if i < |slots| {
          ReleaseTracks(slots, log, i, keymap);
        }
        assert Tracks(mid, log + released, keymap);
        if press {
          var f := Find(mid, 0);
          var (end, pressed) := OnPress(mid, code, Normal(keyval), keymap);
          assert log + (released + pressed) == log + released + pressed;
          if f < |mid| {
            PressTracks(mid, log + released, f, code, Normal(keyval), keymap);
          } else {
            assert log + released + [] == log + released;
          }
        }
      }
  }

  lemma StrayBreaks(slots: seq<Slot>, log: seq<Event>, press: bool, keyval: nat, keymap: nat -> nat)
    requires Tracks(slots, log, keymap)
    ensures var (after, sent) := OnKey(slots, press, 0, keyval, keymap);
            Tracks(after, log + sent, keymap) <==> Find(slots, 0) == |slots|
  {
    var i := Find(slots, 0);
    assert log + [] == log;
    if i < |slots| {
      var e := Event(false, slots[i].keyval, keymap(0), 0);
      OneMore(log, e, keymap);
      assert 0 !in Held(slots);
      if press {
        var e' := Event(true, Normal(keyval), keymap(0), 0);
        OneMore(log + [e], e', keymap);
        assert log + ([e] + [e']) == log + [e] + [e'];
      }
    }
  }

  /** The slots and the events sent after a series of inputs. */
  function Run(slots: seq<Slot>, log: seq<Event>, inputs: seq<Input>, keymap: nat -> nat): (seq<Slot>, seq<Event>)
    decreases |inputs|
  {
    if inputs == [] then (slots, log)
    else
      var (after, sent) := On(slots, inputs[0], keymap);
      Run(after, log + sent, inputs[1..], keymap)
  }

  /** Over every series of key events with keycodes and losses of focus the slots are what is unreleased. */
  lemma {:induction false} RunTracks(slots: seq<Slot>, log: seq<Event>, inputs: seq<Input>, keymap: nat -> nat)
    requires Tracks(slots, log, keymap) && forall k :: 0 <= k < |inputs| && inputs[k].Key? ==> inputs[k].code != 0
    ensures var (end, sent) := Run(slots, log, inputs, keymap);
            Tracks(end, sent, keymap) && |Unreleased(sent)| <= 16
    decreases |inputs|
  {
    if inputs == [] {
      HeldFits(slots);
    } else {
      hide On, Tracks, Held, Alternates, Unreleased;
      EventTracks(slots, log, inputs[0], keymap);
      var (after, sent) := On(slots, inputs[0], keymap);
      RunTracks(after, log + sent, inputs[1..], keymap);
    }
  }

  lemma FewerKeys(a: set<nat>, b: set<nat>, k: nat)
    requires forall x :: x in a ==> x in b || x == k
    ensures |a| <= |b| + 1
  {
    var c := b + {k};
    Subset(a, c);
  }

  lemma Subset(a: set<nat>, c: set<nat>)
    requires a <= c
    ensures |a| <= |c|
  {
    assert c == a + (c - a) && a !! (c - a);
  }

  /** There are no more keys than slots. */
  lemma {:induction false} HeldFits(slots: seq<Slot>)
    requires Distinct(slots)
    ensures |Held(slots)| <= |slots|
  {
    if slots != [] {
      var front, last := slots[..|slots| - 1], slots[|slots| - 1];
      HeldFits(front);
      forall k | k in Held(slots)
        ensures k in Held(front) || k == last.code
      {
        var i := SlotOf(slots, k);
        assert i < |front| ==> front[i].code == k;
      }
      FewerKeys(Held(slots).Keys, Held(front).Keys, last.code);
    }
  }

  /** The handlers, with their arrays. */
  class KeyTracker {
    const downKeyval: array<nat>
    const downScancode: array<nat>
    const keymap: nat -> nat
    var sent: seq<Event>

    ghost predicate Valid()
      reads this, downKeyval, downScancode
    {
      downKeyval != downScancode && downKeyval.Length == SLOTS && downScancode.Length == SLOTS
    }

    ghost function Slots(): (s: seq<Slot>)
      requires Valid()
      reads this, downKeyval, downScancode
      ensures |s| == SLOTS && forall i :: 0 <= i < SLOTS ==> s[i] == Slot(downKeyval[i], downScancode[i])
    {
      seq(SLOTS, i requires 0 <= i < SLOTS && Valid() reads this, downKeyval, downScancode => Slot(downKeyval[i], downScancode[i]))
    }

    constructor (keymap: nat -> nat)
      ensures Valid() && fresh(downKeyval) && fresh(downScancode) && this.keymap == keymap && sent == []
      ensures Tracks(Slots(), sent, keymap)
    {
      this.keymap := keymap;
      downKeyval := new nat[SLOTS](_ => 0);
      downScancode := new nat[SLOTS](_ => 0);
      sent := [];
      new;
      assert Held(Slots()) == map[];
    }

    method Empty(i: nat)
      requires Valid() && i < SLOTS
      modifies this, downKeyval, downScancode
      ensures Valid() && Slots() == old(Slots())[i := EMPTY]
      ensures sent == old(sent) + [Event(false, old(downKeyval[i]), keymap(old(downScancode[i])), old(downScancode[i]))]
    {
      sent := sent + [Event(false, downKeyval[i], keymap(downScancode[i]), downScancode[i])];
      downKeyval[i], downScancode[i] := 0, 0;
    }

    method Release(code: nat)
      requires Valid()
      modifies this, downKeyval, downScancode
      ensures Valid() && var (after, events) := OnRelease(old(Slots()), code, keymap); Slots() == after && sent == old(sent) + events
    {
      for i := 0 to SLOTS
        invariant Slots() == old(Slots()) && sent == old(sent) && i <= Find(Slots(), code)
      {
        if downScancode[i] == code {
          Empty(i);
          return;
        }
        assert Slots()[i].code != code;
      }
    }

    method Press(code: nat, keyval: nat)
      requires Valid()
      modifies this, downKeyval, downScancode
      ensures Valid() && var (after, events) := OnPress(old(Slots()), code, keyval, keymap); Slots() == after && sent == old(sent) + events
    {
      for i := 0 to SLOTS
        invariant Slots() == old(Slots()) && sent == old(sent) && i <= Find(Slots(), 0)
      {
        if downScancode[i] == 0 {
          downKeyval[i], downScancode[i] := keyval, code;
          sent := sent + [Event(true, keyval, keymap(code), code)];
          assert Slots() == old(Slots())[i := Slot(keyval, code)];
          return;
        }
        assert Slots()[i].code != 0;
      }
    }

    /** `key_event` */
    method KeyEvent(press: bool, code: nat, keyval: nat)
      requires Valid()
      modifies this, downKeyval, downScancode
      ensures Valid()
      ensures var (after, events) := On(old(Slots()), Key(press, code, keyval), keymap);
              Slots() == after && sent == old(sent) + events
    {
      hide Find;
      var normal := if keyval == ISO_LEFT_TAB then TAB else keyval;
      Release(code);
      if press {
        Press(code, normal);
      }
    }

    /** `release_keys` */
    method ReleaseKeys()
      requires Valid()
      modifies this, downKeyval, downScancode
      ensures Valid() && var (after, events) := On(old(Slots()), FocusLost, keymap); Slots() == after && sent == old(sent) + events
    {
      ghost var (end, events) := OnFocusLost(Slots(), 0, keymap);
      for i := 0 to SLOTS
        invariant Valid()
        invariant OnFocusLost(Slots(), i, keymap).0 == end && sent + OnFocusLost(Slots(), i, keymap).1 == old(sent) + events
      {
        if downScancode[i] != 0 {
          ghost var (e, more) := OnFocusLost(Slots()[i := EMPTY], i + 1, keymap);
          ghost var before, slot := sent, Slots()[i];
          Empty(i);
          assert before + ([Event(false, slot.keyval, keymap(slot.code), slot.code)] + more) == sent + more;
        }
      }
    }
  }
}
