/** Audio packets gathered into samples and handed to the sink (src/vncconnection.c). */
module Audio {
  import opened Bytes

  const CAPACITY := 1024 * 1024

  /** What arrives from the server, and what the sink is told. */
  datatype Event = Data(bytes: seq<byte>) | Start | Stop

  /** How the read of a payload goes: it is whole, the connection fails on the way, or the timer fires while it waits. */
  datatype Reading = Whole | Fails(arrived: nat) | Fires

  /** A read that has all it wants neither fails nor waits. */
  predicate ArrivesWhole(reading: Reading, size: nat)
  {
    size == 0 || reading.Whole? || (reading.Fails? && size <= reading.arrived)
  }

  /** The data of each stretch up to a stop; the last has not been stopped. */
  function Sessions(events: seq<Event>): (r: seq<seq<byte>>)
    ensures r != []
  {
    if events == [] then [[]]
    else
      var before, e := Sessions(events[..|events| - 1]), events[|events| - 1];
      match e
      case Data(b) => AddLast(before, b)
      case Start => before
      case Stop => before + [[]]
  }

  function AddLast(ss: seq<seq<byte>>, b: seq<byte>): (r: seq<seq<byte>>)
    requires ss != []
    ensures r != []
  {
    ss[|ss| - 1 := ss[|ss| - 1] + b]
  }

  lemma SessionsMore(events: seq<Event>, e: Event)
    ensures Sessions(events + [e]) ==
              match e
              case Data(b) => AddLast(Sessions(events), b)
              case Start => Sessions(events)
              case Stop => Sessions(events) + [[]]
  {
    assert (events + [e])[..|events|] == events;
  }

  lemma AddLastTwice(ss: seq<seq<byte>>, a: seq<byte>, b: seq<byte>)
    requires ss != []
    ensures AddLast(AddLast(ss, a), b) == AddLast(ss, a + b)
    ensures AddLast(ss, []) == ss
  {
    Append(ss[|ss| - 1], a, b);
    assert ss[|ss| - 1] + [] == ss[|ss| - 1];
  }

  class AudioStream {
    var sample: array<byte>          // audio_sample->data
    var pending: bool                // audio_sample != NULL
    var length: nat                  // audio_sample->length
    var timer: bool                  // audio_timer is armed
    var played: seq<Event>           // what the sink has been told
    var stop: bool
    var crashed: bool                // the sample was NULL when its length was to grow
    const sink: bool                 // audio != NULL
    ghost var torn: bool             // a payload did not arrive whole
    ghost var received: seq<Event>   // the messages handled

    ghost function Pending(): seq<byte>
      reads this, sample
    {
      if pending && length <= sample.Length then sample[..length] else []
    }

    /**
     * A timer is armed exactly while a sample is pending, the sample fits, and
     * while all payloads arrive whole nothing is lost, doubled or late.
     */
    ghost predicate Valid()
      reads this, sample
    {
      && (timer <==> pending)
      && (pending ==> sample.Length == CAPACITY && length <= CAPACITY)
      && (torn || AddLast(Sessions(played), Pending()) == Sessions(received))
      && (crashed ==> torn)
    }

    constructor (sink: bool)
      ensures Valid() && fresh(sample) && !pending && played == [] && received == []
      ensures !stop && !crashed && !torn && this.sink == sink
    {
      sample := new byte[0];
      pending, length, timer, played, stop, received := false, 0, false, [], false, [];
      crashed, torn := false, false;
      this.sink := sink;
      new;
      AddLastTwice(Sessions(played), [], []);
    }

    /** The sample goes to the sink and is freed. */
    method Deliver()
      requires Valid() && pending
      modifies this`pending, this`timer, this`played
      ensures Valid() && !pending && played == old(played) + [Data(old(Pending()))]
    {
      hide Sessions, AddLast;
      timer := false;
      SessionsMore(played, Data(sample[..length]));
      played := played + [Data(sample[..length])];
      pending := false;
      AddLastTwice(Sessions(played), [], []);
    }

    /** `vnc_connection_audio_timer`, when the armed timer fires. */
    method TimerFires()
      requires Valid() && timer && sink && !crashed
      modifies this`pending, this`timer, this`played
      ensures Valid() && !pending && !timer && played == old(played) + [Data(old(Pending()))]
    {
      Deliver();
    }

    /**
     * A QEMU audio data message.  The payload is read into the sample: a
     * connection that fails meanwhile leaves bytes in it that never arrived,
     * and a timer that fires meanwhile takes the sample away.
     */
    method OnData(payload: seq<byte>, reading: Reading)
      requires Valid() && !stop && !crashed
      modifies this, sample
      ensures Valid() && (sample == old(sample) || fresh(sample))
      ensures stop <==> 0x10_0000 < |payload| || !sink || (!ArrivesWhole(reading, |payload|) && reading.Fails?)
      ensures crashed <==> |payload| <= 0x10_0000 && sink && !ArrivesWhole(reading, |payload|) && reading.Fires?
      ensures torn <==> old(torn) || (|payload| <= 0x10_0000 && sink && !ArrivesWhole(reading, |payload|))
      ensures 0x10_0000 < |payload| || !sink ==> received == old(received) && played == old(played) && Pending() == old(Pending())
      ensures |payload| <= 0x10_0000 && sink ==>
                var full := old(pending) && 0x10_0000 < old(length) + |payload|;
                var (before, first) := (if full then [] else old(Pending()), if full then [Data(old(Pending()))] else []);
                if ArrivesWhole(reading, |payload|) then
                  && pending && received == old(received) + [Data(payload)]
                  && played == old(played) + first && Pending() == before + payload
                else if reading.Fails? then
                  && pending && received == old(received) && played == old(played) + first
                  && before + payload[..reading.arrived] <= Pending() && |Pending()| == |before| + |payload|
                else received == old(received) && played == old(played) + first + [Data(before)] && !pending
    {
      hide Sessions, AddLast;
      if CAPACITY < |payload| || !sink {
        stop := true;
        return;
      }
      if pending && CAPACITY - length < |payload| {
        Deliver();
      }
      if !pending {
        NewSample();
      }
      if payload == [] {
        AppendPayload(payload);
        return;
      }
      match reading
      case Whole => AppendPayload(payload);
      case Fails(n) =>
        if |payload| <= n {
          AppendPayload(payload);
        } else {
          AppendPart(payload, n);
        }
      case Fires =>
        TimerFires();
        torn, crashed := true, true;
    }

    method NewSample()
      requires Valid() && !pending
      modifies this`sample, this`pending, this`length, this`timer
      ensures Valid() && pending && length == 0 && fresh(sample)
    {
      hide Sessions, AddLast;
      sample := new byte[CAPACITY](_ => 0);
      pending, length, timer := true, 0, true;
      assert Pending() == [];
    }

    method AppendPayload(payload: seq<byte>)
      requires Valid() && pending && length + |payload| <= CAPACITY
      modifies this`length, this`received, sample
      ensures Valid() && received == old(received) + [Data(payload)] && Pending() == old(Pending()) + payload
    {
      hide Sessions, AddLast;
      ghost var was := Pending();
      forall k | 0 <= k < |payload| { sample[length + k] := payload[k]; }
      length := length + |payload|;
      assert Pending() == was + payload;
      AddLastTwice(Sessions(played), was, payload);
      SessionsMore(received, Data(payload));
      received := received + [Data(payload)];
    }

    /** The length grows by that of the payload whatever has arrived of it. */
    method AppendPart(payload: seq<byte>, arrived: nat)
      requires Valid() && pending && length + |payload| <= CAPACITY && arrived < |payload|
      modifies this`length, this`stop, this`torn, sample
      ensures Valid() && stop && torn && |Pending()| == |old(Pending())| + |payload|
      ensures old(Pending()) + payload[..arrived] <= Pending()
    {
      hide Sessions, AddLast;
      forall k | 0 <= k < arrived { sample[length + k] := payload[k]; }
      length, stop, torn := length + |payload|, true, true;
    }

    /** A QEMU audio start message. */
    method OnStart()
      requires Valid() && !stop && !crashed
      modifies this`played, this`received, this`stop
      ensures Valid() && (stop <==> !sink)
      ensures !stop ==> played == old(played) + [Start] && received == old(received) + [Start]
      ensures stop ==> played == old(played) && received == old(received)
    {
      hide Sessions, AddLast;
      if sink {
        SessionsMore(played, Start);
        SessionsMore(received, Start);
        played, received := played + [Start], received + [Start];
      } else {
        stop := true;
      }
    }

    /** A QEMU audio stop message: what is pending is delivered before it. */
    method OnStop()
      requires Valid() && !stop && !crashed
      modifies this`played, this`received, this`stop, this`pending, this`timer
      ensures Valid() && (stop <==> !sink)
      ensures !stop ==>
                && !pending && !timer && received == old(received) + [Stop]
                && played == old(played) + (if old(pending) then [Data(old(Pending()))] else []) + [Stop]
      ensures stop ==> played == old(played) && received == old(received)
    {
      hide Sessions, AddLast;
      if !sink {
        stop := true;
        return;
      }
      if pending {
        Deliver();
      }
      StopBoth();
    }

    method StopBoth()
      requires Valid() && !pending
      modifies this`played, this`received
      ensures Valid() && played == old(played) + [Stop] && received == old(received) + [Stop]
    {
      SessionsMore(played, Stop);
      SessionsMore(received, Stop);
      AddLastTwice(Sessions(played), [], []);
      played, received := played + [Stop], received + [Stop];
      AddLastTwice(Sessions(played), [], []);
      hide Sessions, AddLast;
    }

    /**
     * Conservation, while payloads arrive whole: every stretch that has been stopped was delivered in full
     * before its stop, and of the one under way all but the pending bytes.
     */
    lemma Conserved(k: nat)
      requires Valid() && !torn && k < |Sessions(received)|
      ensures |Sessions(played)| == |Sessions(received)|
      ensures Sessions(received)[k] ==
                if k < |Sessions(played)| - 1 then Sessions(played)[k] else Sessions(played)[k] + Pending()
    {
    }
  }

  /** The sessions together are all the data, in order. */
  lemma {:induction false} SessionsJoin(events: seq<Event>)
    ensures Concat(Sessions(events)) == AllData(events)
  {
    if events == [] {
      assert Concat([[]]) == [] + Concat([]);
    } else {
      var before, e := events[..|events| - 1], events[|events| - 1];
      SessionsJoin(before);
      match e
      case Data(b) => ConcatAddLast(Sessions(before), b);
      case Start =>
      case Stop => ConcatSnoc(Sessions(before), []);
    }
  }

  function AllData(events: seq<Event>): seq<byte>
  {
    if events == [] then []
    else
      var e := events[|events| - 1];
      AllData(events[..|events| - 1]) + if e.Data? then e.bytes else []
  }

  lemma ConcatAddLast(ss: seq<seq<byte>>, b: seq<byte>)
    requires ss != []
    ensures Concat(AddLast(ss, b)) == Concat(ss) + b
  {
    var front, last := ss[..|ss| - 1], ss[|ss| - 1];
    assert ss == front + [last] && AddLast(ss, b) == front + [last + b];
    ConcatSnoc(front, last);
    ConcatSnoc(front, last + b);
    Append(Concat(front), last, b);
  }
}
