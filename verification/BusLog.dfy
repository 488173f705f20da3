/**
 * The log of executed commands against the trace of the bus: the I2C calls of the log cut the trace
 * into consecutive pieces, and what the log says about a call is what its piece shows.
 */
module BusLog {
  import opened Bytes
  import opened I2cBus
  import opened I2cTrace
  import opened I2cEngine
  import opened Protocol

  /** The call occupies the looks from o.from up to o.to, and its observation is the state of the bus there. */
  predicate Recorded(trace: seq<Look>, o: Obs) {
    && o.from < o.to <= |trace|
    && var before, after := trace[..o.from], trace[..o.to];
       && Replay(after).frame == o.frame
       && Replay(after).errors == Replay(before).errors + o.berrs
       && Cancelled(after) == o.cancelled && LoweredAt(after) == Time(before)
       && (o.starved ==> o.timeouts > 0 && Replay(after).waiting >= WAIT_LIMIT)
       && (o.ok || o.timeouts > 0 ==> StartedAt(after) >= Time(before))
  }

  lemma CallIsRecorded(before: seq<Look>, after: seq<Look>, o: Obs)
    requires before < after && o.from == |before| && o.to == |after|
    requires Replay(after).frame == o.frame && Replay(after).errors == Replay(before).errors + o.berrs
    requires Cancelled(after) == o.cancelled && LoweredAt(after) == Time(before)
    requires o.starved ==> o.timeouts > 0 && Replay(after).waiting >= WAIT_LIMIT
    requires o.ok || o.timeouts > 0 ==> StartedAt(after) >= Time(before)
    ensures Recorded(after, o)
  {
    assert after[..o.from] == before && after[..o.to] == after;
  }

  /** The looks up to here belong to calls in a log that begins at `start`. */
  function End(start: nat, events: seq<Event>): nat {
    if events == [] then start
    else if IsCall(events[|events| - 1].cmd) then events[|events| - 1].obs.to
    else End(start, events[..|events| - 1])
  }

  /** The calls of the log lie on the trace one behind the other, from `start` on and without a gap. */
  predicate OnBus(trace: seq<Look>, start: nat, events: seq<Event>) {
    events == [] ||
    var front, e := events[..|events| - 1], events[|events| - 1];
    OnBus(trace, start, front) && (IsCall(e.cmd) ==> e.obs.from == End(start, front) && Recorded(trace, e.obs))
  }

  lemma {:induction false} OnBusGrows(trace: seq<Look>, longer: seq<Look>, start: nat, events: seq<Event>)
    requires OnBus(trace, start, events) && trace <= longer
    ensures OnBus(longer, start, events)
  {
    hide Recorded;
    if events != [] {
      OnBusGrows(trace, longer, start, events[..|events| - 1]);
      if IsCall(events[|events| - 1].cmd) {
        RecordedGrows(trace, longer, events[|events| - 1].obs);
      }
    }
  }

  lemma RecordedGrows(trace: seq<Look>, longer: seq<Look>, o: Obs)
    requires Recorded(trace, o) && trace <= longer
    ensures Recorded(longer, o)
  {
    assert longer[..o.from] == trace[..o.from] && longer[..o.to] == trace[..o.to];
  }

  lemma OneMoreOnBus(trace: seq<Look>, start: nat, events: seq<Event>, e: Event)
    requires OnBus(trace, start, events)
    requires IsCall(e.cmd) ==> e.obs.from == End(start, events) && Recorded(trace, e.obs)
    ensures OnBus(trace, start, events + [e])
    ensures End(start, events + [e]) == if IsCall(e.cmd) then e.obs.to else End(start, events)
  {
    assert (events + [e])[..|events|] == events;
  }

  /** The log of a part of a run, from where the rest ended. */
  lemma {:induction false} OnBusSplits(trace: seq<Look>, start: nat, a: seq<Event>, b: seq<Event>)
    requires OnBus(trace, start, a + b)
    ensures OnBus(trace, End(start, a), b) && End(End(start, a), b) == End(start, a + b)
  {
    hide Recorded;
    if b == [] {
      assert a + b == a;
    } else {
      var n := |b| - 1;
      assert (a + b)[..|a + b| - 1] == a + b[..n] && (a + b)[|a + b| - 1] == b[n];
      OnBusSplits(trace, start, a, b[..n]);
    }
  }

  // ---------- what the environment did during a call ----------

  /**
   * The call in terms of the outside world, in the time it took: every acknowledgement and every
   * byte in the frame of a successful call, an interrupt for a cancellation, 60000 polls that found
   * DONE low for a starved wait, and its frame as the one on the wires when it returned.
   */
  ghost predicate Witnessed(env: Env, trace: seq<Look>, o: Obs) {
    && o.from < o.to <= |trace|
    && var begun, done := Time(trace[..o.from]), Time(trace[..o.to]);
       && begun <= done <= Time(trace)
       && Replay(trace[..o.to]).frame == o.frame
       && Replay(trace[..o.to]).errors == Replay(trace[..o.from]).errors + o.berrs
       && (o.ok ==> forall i :: 0 <= i < |o.frame| ==> Vouched(env, o.frame[i], begun, done))
       && (o.cancelled ==> Raised(env, begun, done))
       && (o.starved ==> Lows(env, begun, done) >= WAIT_LIMIT)
  }

  ghost predicate AllWitnessed(env: Env, trace: seq<Look>, events: seq<Event>) {
    forall e :: e in events && IsCall(e.cmd) ==> Witnessed(env, trace, e.obs)
  }

  lemma RecordedIsWitnessed(env: Env, trace: seq<Look>, o: Obs)
    requires Honest(env, trace) && Recorded(trace, o)
    ensures Witnessed(env, trace, o)
  {
    var before, after := trace[..o.from], trace[..o.to];
    var begun, done := Time(before), Time(after);
    PrefixIsHonest(env, trace, o.to);
    assert after[..o.from] == before;
    PrefixIsHonest(env, after, o.from);
    CancelledWasRaised(env, after);
    if o.ok {
      forall i | 0 <= i < |o.frame| ensures Vouched(env, o.frame[i], begun, done) {
        FrameIsVouched(env, after, i);
        VouchedSooner(env, o.frame[i], StartedAt(after), begun, done);
      }
    }
    if o.starved {
      WaitingWasLow(env, after);
      MoreLows(env, StartedAt(after), begun, done);
    }
  }

  lemma {:induction false} OnBusIsWitnessed(env: Env, trace: seq<Look>, start: nat, events: seq<Event>)
    requires Honest(env, trace) && OnBus(trace, start, events)
    ensures AllWitnessed(env, trace, events)
  {
    hide Recorded, Witnessed, Honest;
    if events != [] {
      var front, e := events[..|events| - 1], events[|events| - 1];
      OnBusIsWitnessed(env, trace, start, front);
      if IsCall(e.cmd) {
        RecordedIsWitnessed(env, trace, e.obs);
      }
      assert events == front + [e];
    }
  }

  lemma VouchedSooner(env: Env, w: Wire, from: nat, sooner: nat, to: nat)
    requires Vouched(env, w, from, to) && sooner <= from
    ensures Vouched(env, w, sooner, to)
  {
  }

  lemma {:induction false} MoreLows(env: Env, from: nat, sooner: nat, to: nat)
    requires sooner <= from
    ensures Lows(env, from, to) <= Lows(env, sooner, to)
  {
    if from < to {
      MoreLows(env, from, sooner, to - 1);
    }
  }

  /** The bytes of a successful read were in I2DAT while the call ran. */
  lemma ReadBytesWereHeld(env: Env, trace: seq<Look>, o: Obs, addr: byte)
    requires Witnessed(env, trace, o) && o.ok && o.data != [] && o.frame == ReadFrame(addr, o.data, true)
    ensures forall k :: 0 <= k < |o.data| ==> Held(env, o.data[k], Time(trace[..o.from]), Time(trace[..o.to]))
  {
    forall k | 0 <= k < |o.data| ensures Held(env, o.data[k], Time(trace[..o.from]), Time(trace[..o.to])) {
      assert o.frame[k + 2].Received? && o.frame[k + 2].b == o.data[k];
      assert Vouched(env, o.frame[k + 2], Time(trace[..o.from]), Time(trace[..o.to]));
    }
  }
}
