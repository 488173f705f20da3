/**
 * The EP1 handshake between host and firmware over every interleaving of their steps
 * (fw/akb_pcr20x_fw.c:114-119 and :305-308).
 */
module Handshake {
  import opened Bytes
  import opened Protocol
  import opened FirmwareLoop

  /** The device, and what was handed over in each direction since power-up. */
  datatype System = System(
    device: Device,
    sent: seq<seq<byte>>,        // packets the device took from the host
    executed: seq<seq<byte>>,    // packets the firmware ran
    runs: seq<seq<Event>>,       // what happened while it ran them
    received: seq<seq<byte>>)    // replies the host took from the device

  datatype Step =
    | HostSends(packet: seq<byte>)
    | HostReceives
    | FirmwarePolls(events: seq<Event>)

  /** Any packet may be sent at any time; a poll goes through events the packet allows. */
  ghost predicate Possible(s: System, step: Step) {
    match step
    case HostSends(packet) => |packet| <= EP1_SIZE
    case HostReceives => true
    case FirmwarePolls(events) => Polls(s.device, events)
  }

  /** A refused OUT packet and a refused IN request leave no trace. */
  function After(s: System, step: Step): System {
    match step
    case HostSends(packet) =>
      if !s.device.outBusy then s
      else s.(device := s.device.(outBusy := false, outBuf := packet), sent := s.sent + [packet])
    case HostReceives =>
      if !s.device.inBusy then s
      else s.(device := s.device.(inBusy := false, reply := []), received := s.received + [s.device.reply])
    case FirmwarePolls(events) =>
      if s.device.outBusy || s.device.inBusy then s
      else s.(device := Poll(s.device, events),
              executed := s.executed + [s.device.outBuf],
              runs := s.runs + [events])
  }

  function Boot(): System {
    System(Device(PoweredUp(), true, [], false, []), [], [], [], [])
  }

  /** Every step of a run is possible where it is taken. */
  ghost predicate IsRun(steps: seq<Step>) {
    steps == [] ||
    (IsRun(steps[..|steps| - 1]) && Possible(Reached(steps[..|steps| - 1]), steps[|steps| - 1]))
  }

  function Reached(steps: seq<Step>): System {
    if steps == [] then Boot() else After(Reached(steps[..|steps| - 1]), steps[|steps| - 1])
  }

  lemma OneMoreStep(steps: seq<Step>, step: Step)
    requires IsRun(steps) && Possible(Reached(steps), step)
    ensures IsRun(steps + [step]) && Reached(steps + [step]) == After(Reached(steps), step)
  {
    assert (steps + [step])[..|steps|] == steps;
  }

  // ---------- what a run is for ----------

  /** The state before packet number k. */
  function StateBefore(runs: seq<seq<Event>>, k: nat): State
    requires k <= |runs|
  {
    if k == 0 then PoweredUp() else Run(StateBefore(runs, k - 1), runs[k - 1])
  }

  function ReplyOf(runs: seq<seq<Event>>, k: nat): seq<byte>
    requires k < |runs|
  {
    Committed(Replies(StateBefore(runs, k), runs[k]))
  }

  /** The non-empty replies of the first k packets, in order. */
  function RepliesTo(runs: seq<seq<Event>>, k: nat): seq<seq<byte>>
    requires k <= |runs|
  {
    if k == 0 then []
    else RepliesTo(runs, k - 1) + (if ReplyOf(runs, k - 1) == [] then [] else [ReplyOf(runs, k - 1)])
  }

  lemma {:induction false} MoreRuns(runs: seq<seq<Event>>, events: seq<Event>, k: nat)
    requires k <= |runs|
    ensures StateBefore(runs + [events], k) == StateBefore(runs, k)
    ensures RepliesTo(runs + [events], k) == RepliesTo(runs, k)
  {
    hide Run, Replies, Committed;
    if k > 0 {
      MoreRuns(runs, events, k - 1);
      assert (runs + [events])[k - 1] == runs[k - 1];
    }
  }

  /**
   * Every packet taken from the host is run exactly once and in order, only the newest may still
   * be waiting; what was run is what the packets say; the replies received are the non-empty
   * replies in order, only the newest may still be waiting.
   */
  ghost predicate Faithful(s: System) {
    && s.executed + (if s.device.outBusy then [] else [s.device.outBuf]) == s.sent
    && |s.runs| == |s.executed|
    && (forall k :: 0 <= k < |s.runs| ==> Cmds(s.runs[k]) == Decode(s.executed[k]).cmds && AllGenuine(s.runs[k]))
    && s.device.state == StateBefore(s.runs, |s.runs|)
    && s.received + (if s.device.inBusy then [s.device.reply] else []) == RepliesTo(s.runs, |s.runs|)
  }

  lemma StaysFaithful(s: System, step: Step)
    requires Faithful(s) && Possible(s, step)
    ensures Faithful(After(s, step))
  {
    hide Replies, Run, Decode, Committed, AllGenuine;
    match step
    case HostSends(_) =>
    case HostReceives =>
    case FirmwarePolls(events) =>
      if !s.device.outBusy && !s.device.inBusy {
        var n := |s.runs|;
        MoreRuns(s.runs, events, n);
        assert (s.runs + [events])[n] == events;
      }
  }

  /** The handshake, over every run. */
  lemma {:induction false} EveryRunIsFaithful(steps: seq<Step>)
    requires IsRun(steps)
    ensures Faithful(Reached(steps))
  {
    if steps != [] {
      EveryRunIsFaithful(steps[..|steps| - 1]);
      StaysFaithful(Reached(steps[..|steps| - 1]), steps[|steps| - 1]);
    }
  }

  /**
   * A reply waits for the host: however many packets it sends and however often the firmware polls,
   * until it fetches the reply nothing is executed, and what it then gets is that reply.
   */
  lemma {:induction false} ReplyWaits(steps: seq<Step>, more: seq<Step>)
    requires IsRun(steps + more) && HostReceives !in more && Reached(steps).device.inBusy
    ensures var s, later := Reached(steps), Reached(steps + more);
      && later.device.inBusy && later.executed == s.executed && later.device.state == s.device.state
      && Reached(steps + more + [HostReceives]).received == s.received + [s.device.reply]
  {
    if more == [] {
      assert steps + more == steps;
    } else {
      var n := |more| - 1;
      assert (steps + more)[..|steps + more| - 1] == steps + more[..n];
      ReplyWaits(steps, more[..n]);
      assert (steps + more[..n] + [HostReceives])[..|steps + more[..n]|] == steps + more[..n];
    }
    assert (steps + more + [HostReceives])[..|steps + more|] == steps + more;
  }

  /** No packet gets stuck: once the host has fetched what is waiting, a poll runs it. */
  lemma NothingGetsStuck(steps: seq<Step>, events: seq<Event>)
    requires IsRun(steps) && !Reached(steps).device.outBusy
    requires Polls(Reached(steps).device.(inBusy := false), events)
    ensures IsRun(steps + [HostReceives, FirmwarePolls(events)])
    ensures Reached(steps + [HostReceives, FirmwarePolls(events)]).executed == Reached(steps).sent
  {
    hide Decode, Replies, Run, Committed, StateBefore, RepliesTo;
    var one := steps + [HostReceives];
    var two := one + [FirmwarePolls(events)];
    assert two == steps + [HostReceives, FirmwarePolls(events)];
    assert one[..|steps|] == steps && two[..|one|] == one;
    EveryRunIsFaithful(steps);
  }
}
