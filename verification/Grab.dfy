/** The detector of the key sequence that toggles a grab (src/vncdisplay.c). */
module Grab {
  import opened Options

  datatype Input = Press(keyval: nat) | Release | SetKeys(keys: seq<nat>)

  const CONTROL_L := 0xFFE3
  const ALT_L := 0xFFE9

  /* When a release is to trigger, in terms of what was pressed before it. */

  /** From `i` on nothing but keys of the sequence were pressed. */
  predicate RunFrom(history: seq<Input>, keys: seq<nat>, i: nat)
    requires i <= |history|
  {
    forall m :: i <= m < |history| ==> history[m].Press? && history[m].keyval in keys
  }

  predicate PressedFrom(history: seq<Input>, i: nat, key: nat)
    requires i <= |history|
  {
    exists m :: i <= m < |history| && history[m] == Press(key)
  }

  /** Some uninterrupted run of presses up to now covers the sequence. */
  ghost predicate Triggers(history: seq<Input>, keys: seq<nat>)
  {
    keys != [] &&
    exists i :: 0 <= i <= |history| && RunFrom(history, keys, i) && forall k :: k in keys ==> PressedFrom(history, i, k)
  }

  /** Where the longest such run starts. */
  function RunStart(history: seq<Input>, keys: seq<nat>): (i: nat)
    ensures i <= |history|
  {
    if history == [] then 0
    else
      var last := history[|history| - 1];
      if last.Press? && last.keyval in keys then RunStart(history[..|history| - 1], keys) else |history|
  }

  lemma {:induction false} RunStartIsLeast(history: seq<Input>, keys: seq<nat>, i: nat)
    requires i <= |history|
    ensures RunFrom(history, keys, i) <==> RunStart(history, keys) <= i
  {
    if history != [] {
      var front, last := history[..|history| - 1], history[|history| - 1];
      if i < |history| {
        RunStartIsLeast(front, keys, i);
        if RunFrom(front, keys, i) && last.Press? && last.keyval in keys {
          forall m | i <= m < |history|
            ensures history[m].Press? && history[m].keyval in keys
          {
            assert m < |front| ==> front[m] == history[m];
          }
        }
        if RunFrom(history, keys, i) {
          forall m | i <= m < |front|
            ensures front[m].Press? && front[m].keyval in keys
          {
            assert front[m] == history[m];
          }
          assert history[|history| - 1].Press?;
        }
      }
    }
  }

  /** A run covers the sequence exactly when the longest one does. */
  lemma LongestRunDecides(history: seq<Input>, keys: seq<nat>)
    ensures Triggers(history, keys) <==>
              keys != [] && forall k :: k in keys ==> PressedFrom(history, RunStart(history, keys), k)
  {
    var s := RunStart(history, keys);
    RunStartIsLeast(history, keys, s);
    if Triggers(history, keys) {
      var i :| 0 <= i <= |history| && RunFrom(history, keys, i) && forall k :: k in keys ==> PressedFrom(history, i, k);
      RunStartIsLeast(history, keys, i);
      forall k | k in keys
        ensures PressedFrom(history, s, k)
      {
        assert PressedFrom(history, i, k);
      }
    }
  }

  lemma RunAfter(history: seq<Input>, input: Input, keys: seq<nat>)
    ensures RunStart(history + [input], keys) ==
              if input.Press? && input.keyval in keys then RunStart(history, keys) else |history| + 1
    ensures input.Press? && input.keyval in keys ==>
              forall k :: PressedFrom(history + [input], RunStart(history, keys), k)
                          <==> PressedFrom(history, RunStart(history, keys), k) || k == input.keyval
  {
    var all := history + [input];
    assert all[..|history|] == history && all[|history|] == input;
    if input.Press? && input.keyval in keys {
      var s := RunStart(history, keys);
      forall k
        ensures PressedFrom(all, s, k) <==> PressedFrom(history, s, k) || k == input.keyval
      {
        if PressedFrom(history, s, k) {
          var m :| s <= m < |history| && history[m] == Press(k);
          assert all[m] == Press(k);
        }
      }
    }
  }

  class Detector {
    var keysyms: seq<nat>           // vncgrabseq
    var active: array<bool>         // vncactiveseq
    var pending: bool               // vncgrabpending
    ghost var history: seq<Input>

    /** The flags say which keys the current run has pressed. */
    ghost predicate Valid()
      reads this, active
    {
      && active.Length == |keysyms|
      && (forall i :: 0 <= i < |keysyms| ==> (active[i] <==> PressedFrom(history, RunStart(history, keysyms), keysyms[i])))
      && (pending <==> Triggers(history, keysyms))
    }

    constructor ()
      ensures Valid() && fresh(active) && keysyms == [0xFFE3, 0xFFE9] && history == []
    {
      keysyms := [CONTROL_L, ALT_L];
      active := new bool[2](_ => false);
      pending, history := false, [];
      new;
      LongestRunDecides(history, keysyms);
      assert CONTROL_L in keysyms;
    }

    /** `vnc_display_set_grab_keys` */
    method SetGrabKeys(keys: Option<seq<nat>>)
      requires Valid()
      modifies this
      ensures Valid() && fresh(active) && keysyms == (if keys.Some? then keys.value else [0xFFE3, 0xFFE9])
      ensures history == old(history) + [SetKeys(keysyms)]
    {
      pending := false;
      keysyms := if keys.Some? then keys.value else [CONTROL_L, ALT_L];
      active := new bool[|keysyms|](_ => false);
      history := history + [SetKeys(keysyms)];
      RunEnds();
    }

    /** After an input that ends the run nothing is pressed. */
    lemma RunEnds()
      requires history != [] && !(history[|history| - 1].Press? && history[|history| - 1].keyval in keysyms)
      ensures RunStart(history, keysyms) == |history| && !Triggers(history, keysyms)
      ensures forall k :: !PressedFrom(history, |history|, k)
    {
      LongestRunDecides(history, keysyms);
      assert keysyms != [] ==> keysyms[0] in keysyms;
    }

    method ClearActive()
      modifies active
      ensures forall i :: 0 <= i < active.Length ==> !active[i]
    {
      forall i | 0 <= i < active.Length { active[i] := false; }
    }

    /** `check_for_grab_key` for a key release: it triggers exactly when the presses before it call for that. */
    method KeyReleased() returns (trigger: bool)
      requires Valid()
      modifies this, active
      ensures Valid() && keysyms == old(keysyms) && active == old(active) && history == old(history) + [Release]
      ensures trigger <==> Triggers(old(history), keysyms)
    {
      history := history + [Release];
      RunEnds();
      if |keysyms| == 0 {
        return false;
      }
      trigger := pending;
      ClearActive();
      pending := false;
    }

    /** `check_for_grab_key` for a key press. */
    method KeyPressed(keyval: nat)
      requires Valid()
      modifies this, active
      ensures Valid() && keysyms == old(keysyms) && active == old(active) && history == old(history) + [Press(keyval)]
    {
      ghost var before := history;
      history := history + [Press(keyval)];
      RunAfter(before, Press(keyval), keysyms);
      LongestRunDecides(before, keysyms);
      LongestRunDecides(history, keysyms);
      if |keysyms| == 0 {
        return;
      }
      var setOne := Record(keyval);
      if setOne {
        var i := 0;
        while i < |keysyms|
          invariant i <= |keysyms| && forall j :: 0 <= j < i ==> active[j]
        {
          if !active[i] {
            assert keysyms[i] in keysyms;
            return;
          }
          i := i + 1;
        }
        pending := true;
      } else {
        RunEnds();
        ClearActive();
        pending := false;
      }
    }

    method Record(keyval: nat) returns (setOne: bool)
      requires active.Length == |keysyms|
      modifies active
      ensures setOne <==> keyval in keysyms
      ensures forall i :: 0 <= i < |keysyms| ==> (active[i] <==> old(active[i]) || keysyms[i] == keyval)
    {
      setOne := false;
      for i := 0 to |keysyms|
        invariant setOne <==> keyval in keysyms[..i]
        invariant forall j :: 0 <= j < |keysyms| ==> (active[j] <==> old(active[j]) || (j < i && keysyms[j] == keyval))
      {
        if keysyms[i] == keyval {
          active[i] := true;
          setOne := true;
        }
      }
    }
  }
}
