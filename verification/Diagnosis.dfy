/** The diagnostic counters over whole runs (fw/i2c.c:84-141, :170-241; fw/akb_pcr20x_fw.c:150-201). */
module Diagnosis {
  import opened Bytes
  import opened I2cEngine
  import opened Protocol
  import opened FirmwareLoop
  import opened Handshake

  predicate IsCallOf(e: Event, reading: bool) {
    if reading then e.cmd.I2cRead? else e.cmd.I2cWrite?
  }

  /** The calls of one direction, the ones that answered FALSE, and what the engine noted in them. */
  datatype Totals = Totals(calls: nat, failed: nat, berrs: nat, timeouts: nat)

  function Added(t: Totals, e: Event, reading: bool): Totals {
    if !IsCallOf(e, reading) then t
    else Totals(t.calls + 1, t.failed + (if e.obs.ok then 0 else 1), t.berrs + e.obs.berrs, t.timeouts + e.obs.timeouts)
  }

  function Total(events: seq<Event>, reading: bool): Totals {
    if events == [] then Totals(0, 0, 0, 0)
    else Added(Total(events[..|events| - 1], reading), events[|events| - 1], reading)
  }

  /** The six counters of a state are given totals modulo 2^16. */
  predicate Shows(s: State, inbound: Totals, outbound: Totals) {
    && s.readErrCnt == Wrap16(inbound.failed)
    && s.writeErrCnt == Wrap16(outbound.failed)
    && s.diag == Diag(inbound.berrs, outbound.berrs, inbound.timeouts, outbound.timeouts).Wrapped()
  }

  /** A timeout is noted only in a call that fails, and a call notes at most 19 bus errors, 20 if it times out. */
  lemma {:induction false} TotalsAreBounded(events: seq<Event>, reading: bool)
    requires AllGenuine(events)
    ensures var t := Total(events, reading);
      && t.timeouts <= t.failed <= t.calls
      && t.berrs <= 19 * t.calls + t.timeouts
  {
    if events != [] {
      TotalsAreBounded(events[..|events| - 1], reading);
      assert Genuine(events[|events| - 1]);
    }
  }

  lemma OneMoreCall(s: State, e: Event, inbound: Totals, outbound: Totals)
    requires Shows(s, inbound, outbound)
    ensures Shows(Exec(s, e), Added(inbound, e, true), Added(outbound, e, false))
  {
    var exact := Diag(inbound.berrs, outbound.berrs, inbound.timeouts, outbound.timeouts);
    WrapOnce(inbound.failed, 1);
    WrapOnce(outbound.failed, 1);
    WrappedAdd(exact, e.cmd.I2cRead?, e.obs.berrs, e.obs.timeouts);
    hide Wrap16, ExecRegs;
  }

  /** The 16-bit counters after a run are the totals modulo 2^16. */
  lemma {:induction false} CountersAreTotals(events: seq<Event>)
    ensures Shows(Run(PoweredUp(), events), Total(events, true), Total(events, false))
  {
    if events != [] {
      var before := events[..|events| - 1];
      CountersAreTotals(before);
      OneMoreCall(Run(PoweredUp(), before), events[|events| - 1], Total(before, true), Total(before, false));
      hide Exec, Added, Shows;
    }
  }

  function StatusWord(reply: seq<byte>, k: nat): word
    requires 2 * k + 1 < |reply|
  {
    256 * (reply[2 * k] as int) + reply[2 * k + 1] as int
  }

  function AllEvents(runs: seq<seq<Event>>): seq<Event> {
    if runs == [] then [] else AllEvents(runs[..|runs| - 1]) + runs[|runs| - 1]
  }

  lemma {:induction false} StateAfterAll(runs: seq<seq<Event>>)
    ensures StateBefore(runs, |runs|) == Run(PoweredUp(), AllEvents(runs))
  {
    if runs != [] {
      var before := runs[..|runs| - 1];
      StateAfterAll(before);
      assert runs == before + [runs[|runs| - 1]];
      MoreRuns(before, runs[|runs| - 1], |before|);
      RunConcat(PoweredUp(), AllEvents(before), runs[|runs| - 1]);
    }
  }

  /** The twelve bytes of a STATUS reply spell six totals modulo 2^16. */
  predicate Spells(reply: seq<byte>, inbound: Totals, outbound: Totals) {
    && |reply| == 12
    && StatusWord(reply, 0) == Wrap16(inbound.failed) && StatusWord(reply, 1) == Wrap16(outbound.failed)
    && StatusWord(reply, 2) == Wrap16(inbound.berrs) && StatusWord(reply, 3) == Wrap16(outbound.berrs)
    && StatusWord(reply, 4) == Wrap16(inbound.timeouts) && StatusWord(reply, 5) == Wrap16(outbound.timeouts)
  }

  const STATUS_PACKET: seq<byte> := [0x62]

  lemma StatusPacketMeans()
    ensures Decode(STATUS_PACKET).cmds == [I2cStatus]
  {
    EncodedIsTaken(I2cStatus, []);
    assert Encode(I2cStatus) + [] == STATUS_PACKET;
    assert STATUS_PACKET[1..] == [];
  }

  /** Sending the packet, polling, and fetching the reply. */
  function Asking(e: Event): seq<Handshake.Step> {
    [HostSends(STATUS_PACKET), FirmwarePolls([e]), HostReceives]
  }

  /**
   * After any run of host and firmware that left the device idle: a STATUS packet that is sent,
   * executed and answered brings the host twelve bytes that spell the totals of everything executed
   * before.
   */
  lemma StatusTellsTotals(steps: seq<Handshake.Step>, e: Event)
    requires IsRun(steps) && Reached(steps).device.outBusy && !Reached(steps).device.inBusy && e.cmd == I2cStatus
    ensures IsRun(steps + Asking(e))
    ensures var s := Reached(steps);
      var received := Reached(steps + Asking(e)).received;
      && |received| == |s.received| + 1 && received[..|s.received|] == s.received
      && Spells(received[|s.received|], Total(AllEvents(s.runs), true), Total(AllEvents(s.runs), false))
  {
    hide Total, AllEvents, IsRun, Reached, StatusReply, Spells;
    StatusIsSent(steps, e);
    StateTellsTotals(steps);
  }

  lemma StateTellsTotals(steps: seq<Handshake.Step>)
    requires IsRun(steps)
    ensures var s := Reached(steps);
      Spells(StatusReply(s.device.state), Total(AllEvents(s.runs), true), Total(AllEvents(s.runs), false))
  {
    var s := Reached(steps);
    EveryRunIsFaithful(steps);
    StateAfterAll(s.runs);
    CountersAreTotals(AllEvents(s.runs));
    hide Total, AllEvents, Reached, Faithful, StatusReply, Spells;
    StatusDecodes(s.device.state, Total(AllEvents(s.runs), true), Total(AllEvents(s.runs), false));
  }

  lemma StatusIsSent(steps: seq<Handshake.Step>, e: Event)
    requires IsRun(steps) && Reached(steps).device.outBusy && !Reached(steps).device.inBusy && e.cmd == I2cStatus
    ensures IsRun(steps + Asking(e))
    ensures Reached(steps + Asking(e)).received == Reached(steps).received + [StatusReply(Reached(steps).device.state)]
  {
    hide IsRun, Reached, Possible, After;
    var s := Reached(steps);
    AskingIsPossible(s, e);
    var one := steps + [HostSends(STATUS_PACKET)];
    var two := one + [FirmwarePolls([e])];
    assert steps + Asking(e) == two + [HostReceives];
    OneMoreStep(steps, HostSends(STATUS_PACKET));
    OneMoreStep(one, FirmwarePolls([e]));
    OneMoreStep(two, HostReceives);
  }

  lemma AskingIsPossible(s: System, e: Event)
    requires s.device.outBusy && !s.device.inBusy && e.cmd == I2cStatus
    ensures Possible(s, HostSends(STATUS_PACKET))
    ensures var a := After(s, HostSends(STATUS_PACKET));
      Possible(a, FirmwarePolls([e])) &&
      var b := After(a, FirmwarePolls([e]));
      Possible(b, HostReceives) && After(b, HostReceives).received == s.received + [StatusReply(s.device.state)]
  {
    hide Decode, Replies, StatusReply, Cmds, AllGenuine, Run;
    StatusPacketMeans();
    OneStatus(s.device.state, e);
  }

  lemma OneStatus(s: State, e: Event)
    requires e.cmd == I2cStatus
    ensures Replies(s, [e]) == StatusReply(s) && Committed(StatusReply(s)) == StatusReply(s) != []
    ensures Cmds([e]) == [I2cStatus] && AllGenuine([e])
  {
    OneMore(s, [], e);
    assert [] + [e] == [e];
  }

  lemma StatusLayout(a: word, b: word, c: word, d: word, e: word, f: word)
    ensures var reply := TwoBytes(a) + TwoBytes(b) + TwoBytes(c) + TwoBytes(d) + TwoBytes(e) + TwoBytes(f);
      && |reply| == 12
      && StatusWord(reply, 0) == a && StatusWord(reply, 1) == b && StatusWord(reply, 2) == c
      && StatusWord(reply, 3) == d && StatusWord(reply, 4) == e && StatusWord(reply, 5) == f
  {
    WordSplits(a);
    WordSplits(b);
    WordSplits(c);
    WordSplits(d);
    WordSplits(e);
    WordSplits(f);
  }

  lemma StatusDecodes(s: State, inbound: Totals, outbound: Totals)
    requires Shows(s, inbound, outbound)
    ensures Spells(StatusReply(s), inbound, outbound)
  {
    hide Wrap16, StatusWord, TwoBytes;
    WrapTwice(inbound.berrs);
    WrapTwice(outbound.berrs);
    WrapTwice(inbound.timeouts);
    WrapTwice(outbound.timeouts);
    StatusLayout(s.readErrCnt, s.writeErrCnt, Wrap16(s.diag.berrRead), Wrap16(s.diag.berrWrite),
                 Wrap16(s.diag.timeoutRead), Wrap16(s.diag.timeoutWrite));
  }
}
