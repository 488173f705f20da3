/** Port D, the FIFO of EP6 and the stream packets of the driver over whole runs. */
module Streaming {
  import opened Bytes
  import opened Registers
  import opened Protocol
  import opened FirmwareLoop
  import opened HostPackets
  import opened HostI2c
  import opened Handshake

  /** The two mode pins stay outputs and are never masked by a port configuration. */
  predicate ModePinsDriven(r: Regs) {
    r.addrMask * MODE_PINS == {} && MODE_PINS <= r.oed
  }

  lemma ExecKeepsModePins(s: State, e: Event)
    requires ModePinsDriven(s.regs)
    ensures ModePinsDriven(Exec(s, e).regs)
  {
  }

  lemma RunTwo(s: State, events: seq<Event>)
    requires |events| == 2
    ensures Run(s, events) == Exec(Exec(s, events[0]), events[1])
    ensures Cmds(events) == [events[0].cmd, events[1].cmd]
  {
    hide Exec;
    OneMore(s, [], events[0]);
    OneMore(s, [events[0]], events[1]);
    assert [] + [events[0]] == [events[0]] && [events[0]] + [events[1]] == events;
    assert |Cmds(events)| == 2 && Cmds(events)[0] == events[0].cmd && Cmds(events)[1] == events[1].cmd;
  }

  lemma RunThree(s: State, events: seq<Event>)
    requires |events| == 3
    ensures Run(s, events) == Exec(Exec(Exec(s, events[0]), events[1]), events[2])
    ensures Cmds(events) == [events[0].cmd, events[1].cmd, events[2].cmd]
  {
    hide Exec;
    RunTwo(s, events[..2]);
    OneMore(s, events[..2], events[2]);
    assert events[..2] + [events[2]] == events;
    assert |Cmds(events)| == 3 && Cmds(events)[0] == events[0].cmd && Cmds(events)[1] == events[1].cmd
        && Cmds(events)[2] == events[2].cmd;
  }

  /** Whatever packets are executed after power-up. */
  lemma {:induction false} ModePinsAlwaysDriven(events: seq<Event>)
    ensures ModePinsDriven(Run(PoweredUp(), events).regs)
  {
    if events != [] {
      ModePinsAlwaysDriven(events[..|events| - 1]);
      ExecKeepsModePins(Run(PoweredUp(), events[..|events| - 1]), events[|events| - 1]);
      hide Exec, ModePinsDriven;
    }
  }

  // ---------- the packets the driver sends after initialisation ----------

  datatype HostPacket = StreamOn | StreamOff | I2c(addr: byte, data: seq<byte>, rlen: byte)

  predicate Sendable(p: HostPacket) {
    p.I2c? ==> 1 <= |p.data| < 256
  }

  function PacketBytes(p: HostPacket): seq<byte>
    requires Sendable(p)
  {
    match p
    case StreamOn => STREAM_ON
    case StreamOff => STREAM_OFF
    case I2c(addr, data, rlen) => I2cPacket(addr, data, rlen)
  }

  /** EP6 streams exactly while the mode pins say START, over an FD bus that is configured for it. */
  predicate Consistent(r: Regs) {
    && r.addrMask == ADDRESS_PINS && r.oed == MODE_PINS + {5} && r.valIfconfig == 0xe3
    && (r.ep6fifocfg == 0x0c <==> r.iod * MODE_PINS == MODE_START)
    && (r.ep6fifocfg == 0x0c ==> r.ifconfig == 0xe3 && r.iod == RegOf(0xe0))
    && (r.ep6fifocfg != 0x0c ==> r.iod * MODE_PINS == MODE_IDLE)
  }

  /**
   * After transfer_init the device is consistent exactly if EP6 was not streaming before: the
   * packet resets the mode but leaves the FIFO alone.
   */
  lemma InitialisedIsConsistent(s: State, events: seq<Event>)
    requires Cmds(events) == Decode(TRANSFER_INIT).cmds
    ensures Consistent(Run(s, events).regs) <==> s.regs.ep6fifocfg != 0x0c
    ensures Run(s, events).regs.ep6fifocfg == s.regs.ep6fifocfg
  {
    StreamPacketsMean();
    assert |Cmds(events)| == |events| == 3;
    RunThree(s, events);
    var cmds := Cmds(events);
    assert cmds[0] == PortCfg(0, 0x20) && cmds[1] == ModeIdle && cmds[2] == IfConfig(0xe3);
    hide ExecRegs, Consistent, Decode, Cmds;
    InitRegs(s.regs, events[0].obs, events[1].obs, events[2].obs);
  }

  lemma PortValues()
    ensures RegOf(0) == {} && RegOf(0x20) == {5} && RegOf(0xe0) == {5, 6, 7}
  {
    assert !Digit(0, 0) && !Digit(0, 1) && !Digit(0, 2) && !Digit(0, 3)
        && !Digit(0, 4) && !Digit(0, 5) && !Digit(0, 6) && !Digit(0, 7);
    assert !Digit(0x20, 0) && !Digit(0x20, 1) && !Digit(0x20, 2) && !Digit(0x20, 3)
        && !Digit(0x20, 4) && Digit(0x20, 5) && !Digit(0x20, 6) && !Digit(0x20, 7);
    assert !Digit(0xe0, 0) && !Digit(0xe0, 1) && !Digit(0xe0, 2) && !Digit(0xe0, 3)
        && !Digit(0xe0, 4) && Digit(0xe0, 5) && Digit(0xe0, 6) && Digit(0xe0, 7);
  }

  lemma InitRegs(r: Regs, a: Obs, b: Obs, c: Obs)
    ensures Consistent(ExecRegs(ExecRegs(ExecRegs(r, PortCfg(0, 0x20), a), ModeIdle, b), IfConfig(0xe3), c))
      <==> r.ep6fifocfg != 0x0c
    ensures ExecRegs(ExecRegs(ExecRegs(r, PortCfg(0, 0x20), a), ModeIdle, b), IfConfig(0xe3), c).ep6fifocfg
      == r.ep6fifocfg
  {
    hide RegOf, ReadPort;
    PortValues();
  }

  lemma OnRegs(r: Regs, a: Obs, b: Obs)
    requires Consistent(r)
    ensures var q := ExecRegs(ExecRegs(r, Ep6Start, a), PortWrite(0x20), b);
      Consistent(q) && q.ep6fifocfg == 0x0c && 5 in q.iod
  {
    hide RegOf;
    PortValues();
  }

  lemma OffRegs(r: Regs, a: Obs, b: Obs)
    requires Consistent(r)
    ensures var q := ExecRegs(ExecRegs(r, Ep6Stop, a), ModeIdle, b);
      Consistent(q) && q.ep6fifocfg == 0x04 && (5 in q.iod <==> 5 in r.iod)
  {
    hide RegOf;
    PortValues();
  }

  /** One packet of the driver: I2C packets leave the ports alone, the stream packets switch EP6. */
  lemma PacketKeepsConsistency(s: State, p: HostPacket, events: seq<Event>)
    requires Sendable(p) && Cmds(events) == Decode(PacketBytes(p)).cmds
    requires Consistent(s.regs)
    ensures Consistent(Run(s, events).regs)
    ensures p.StreamOn? ==> Run(s, events).regs.ep6fifocfg == 0x0c && 5 in Run(s, events).regs.iod
    ensures p.StreamOff? ==>
      Run(s, events).regs.ep6fifocfg == 0x04 && (5 in Run(s, events).regs.iod <==> 5 in s.regs.iod)
    ensures p.I2c? ==> Run(s, events).regs == s.regs
  {
    assert |Cmds(events)| == |events|;
    match p
    case I2c(addr, data, rlen) =>
      I2cPacketMeans(addr, data, rlen);
      forall k | 0 <= k < |events| ensures events[k].cmd.I2cWrite? || events[k].cmd.I2cRead? {
        assert Cmds(events)[k] == events[k].cmd;
      }
      hide Decode, I2cPacket, ExecRegs, Consistent;
      I2cKeepsRegs(s, events);
    case StreamOn =>
      StreamPacketsMean();
      RunTwo(s, events);
      hide Decode, ExecRegs, Consistent, Run;
      OnRegs(s.regs, events[0].obs, events[1].obs);
    case StreamOff =>
      StreamPacketsMean();
      RunTwo(s, events);
      hide Decode, ExecRegs, Consistent, Run;
      OffRegs(s.regs, events[0].obs, events[1].obs);
  }

  lemma {:induction false} I2cKeepsRegs(s: State, events: seq<Event>)
    requires forall k :: 0 <= k < |events| ==> events[k].cmd.I2cWrite? || events[k].cmd.I2cRead?
    ensures Run(s, events).regs == s.regs
  {
    if events != [] {
      I2cKeepsRegs(s, events[..|events| - 1]);
    }
  }

  /** The reply to a packet of the driver has at most sixteen bytes: it fits the IN buffer. */
  lemma RepliesFit(s: State, p: HostPacket, events: seq<Event>)
    requires Sendable(p) && Cmds(events) == Decode(PacketBytes(p)).cmds && AllGenuine(events)
    ensures |Replies(s, events)| <= I2C_BUF_LEN < EP1_SIZE
    ensures !p.I2c? ==> Replies(s, events) == []
  {
    hide Decode, Exec, Run, I2cPacket;
    match p
    case I2c(addr, data, rlen) => I2cReply(s, events, addr, data, rlen);
    case _ =>
      StreamPacketsMean();
      assert |Cmds(events)| == |events| == 2;
      assert Cmds(events)[0] == events[0].cmd && Cmds(events)[1] == events[1].cmd;
      NoReplies(s, events);
  }

  predicate Replying(c: Cmd) {
    c.I2cRead? || c.I2cStatus? || c.RegRead? || c.PortRead?
  }

  lemma {:induction false} NoReplies(s: State, events: seq<Event>)
    requires forall k :: 0 <= k < |events| ==> !Replying(events[k].cmd)
    ensures Replies(s, events) == []
  {
    if events != [] {
      NoReplies(s, events[..|events| - 1]);
    }
  }

  /** runs[k] are the events of packets[k]. */
  predicate Executes(packets: seq<HostPacket>, runs: seq<seq<Event>>) {
    |packets| == |runs|
    && forall k :: 0 <= k < |packets| ==>
         Sendable(packets[k]) && Cmds(runs[k]) == Decode(PacketBytes(packets[k])).cmds
  }

  function RunAll(s: State, runs: seq<seq<Event>>): State {
    if runs == [] then s else Run(RunAll(s, runs[..|runs| - 1]), runs[|runs| - 1])
  }

  /** EP6 streams after a list of packets if the last stream packet said so. */
  function Streams(packets: seq<HostPacket>): bool {
    if packets == [] then false
    else
      match packets[|packets| - 1]
      case StreamOn => true
      case StreamOff => false
      case I2c(_, _, _) => Streams(packets[..|packets| - 1])
  }

  /** Some stream was switched on: the START pin stays up from then on, in idle mode as well. */
  predicate EverOn(packets: seq<HostPacket>) {
    exists k :: 0 <= k < |packets| && packets[k].StreamOn?
  }

  lemma EverOnGrows(packets: seq<HostPacket>)
    requires packets != []
    ensures EverOn(packets) <==> EverOn(packets[..|packets| - 1]) || packets[|packets| - 1].StreamOn?
  {
    if EverOn(packets) {
      var k :| 0 <= k < |packets| && packets[k].StreamOn?;
      assert k < |packets| - 1 ==> packets[..|packets| - 1][k].StreamOn?;
    }
  }

  /** After power-up nothing has raised the START pin. */
  lemma InitialisedIsLow(init: seq<Event>)
    requires Cmds(init) == Decode(TRANSFER_INIT).cmds
    ensures 5 !in Run(PoweredUp(), init).regs.iod
  {
    hide Decode;
    StreamPacketsMean();
    PortValues();
    assert |Cmds(init)| == |init| == 3;
    RunThree(PoweredUp(), init);
    assert Cmds(init)[0] == init[0].cmd && Cmds(init)[1] == init[1].cmd && Cmds(init)[2] == init[2].cmd;
  }

  /**
   * From power-up, after transfer_init and any list of I2C and stream packets, whatever the pins
   * and the I2C bus do: the device is consistent, EP6 streams exactly if the last stream packet
   * switched it on, and the START pin is up exactly if some packet did.
   */
  lemma {:induction false} AlwaysConsistent(init: seq<Event>, packets: seq<HostPacket>, runs: seq<seq<Event>>)
    requires Cmds(init) == Decode(TRANSFER_INIT).cmds
    requires Executes(packets, runs)
    ensures var r := RunAll(Run(PoweredUp(), init), runs).regs;
      Consistent(r) && (r.ep6fifocfg == 0x0c <==> Streams(packets)) && (5 in r.iod <==> EverOn(packets))
  {
    if runs == [] {
      InitialisedIsConsistent(PoweredUp(), init);
      InitialisedIsLow(init);
    } else {
      EverOnGrows(packets);
      var n := |runs| - 1;
      assert Executes(packets[..n], runs[..n]);
      AlwaysConsistent(init, packets[..n], runs[..n]);
      PacketKeepsConsistency(RunAll(Run(PoweredUp(), init), runs[..n]), packets[n], runs[n]);
      hide Run, Decode, Consistent, PacketBytes, EverOn;
    }
  }

  // ---------- initialising while EP6 streams ----------

  /** The events of commands that do not touch the I2C bus, all pins low. */
  function Plainly(cmds: seq<Cmd>): seq<Event> {
    seq(|cmds|, i requires 0 <= i < |cmds| => Event(cmds[i], Unheard({}, {})))
  }

  lemma PlainlyIsGenuine(cmds: seq<Cmd>)
    requires forall c :: c in cmds ==> !IsCall(c)
    ensures Cmds(Plainly(cmds)) == cmds && AllGenuine(Plainly(cmds))
  {
    assert Cmds(Plainly(cmds)) == cmds;
    forall e | e in Plainly(cmds) ensures Genuine(e) {
      assert e.cmd in cmds;
    }
  }

  /** A packet is sent and polled. */
  function Served(packet: seq<byte>, events: seq<Event>): seq<Handshake.Step> {
    [HostSends(packet), FirmwarePolls(events)]
  }

  lemma PacketServed(steps: seq<Handshake.Step>, packet: seq<byte>, events: seq<Event>)
    requires IsRun(steps) && Reached(steps).device.outBusy && !Reached(steps).device.inBusy && |packet| <= EP1_SIZE
    requires Cmds(events) == Decode(packet).cmds && AllGenuine(events)
    requires Replies(Reached(steps).device.state, events) == []
    ensures IsRun(steps + Served(packet, events))
    ensures var d := Reached(steps + Served(packet, events)).device;
      d.outBusy && !d.inBusy && d.state == Run(Reached(steps).device.state, events)
  {
    hide IsRun, Reached, Decode, Run, Replies, AllGenuine, Cmds;
    var one := steps + [HostSends(packet)];
    OneMoreStep(steps, HostSends(packet));
    OneMoreStep(one, FirmwarePolls(events));
    assert steps + Served(packet, events) == one + [FirmwarePolls(events)];
  }

  const INIT_CMDS: seq<Cmd> := [PortCfg(0, 0x20), ModeIdle, IfConfig(0xe3)]
  const ON_CMDS: seq<Cmd> := [Ep6Start, PortWrite(0x20)]

  /** transfer_init, stream on, transfer_init again. */
  function Reinitialising(): seq<Handshake.Step> {
    Served(TRANSFER_INIT, Plainly(INIT_CMDS)) + Served(STREAM_ON, Plainly(ON_CMDS))
    + Served(TRANSFER_INIT, Plainly(INIT_CMDS))
  }

  /** A run that ends with EP6 streaming while the mode pins say IDLE. */
  lemma ReinitialisedWhileStreaming()
    ensures IsRun(Reinitialising())
    ensures var r := Reached(Reinitialising()).device.state.regs;
      !Consistent(r) && r.ep6fifocfg == 0x0c && r.iod * MODE_PINS == MODE_IDLE
  {
    hide Decode, Run, Replies, Consistent, IsRun, Reached, AllGenuine, Cmds, Plainly;
    var init, on := Plainly(INIT_CMDS), Plainly(ON_CMDS);
    PlainlyIsGenuine(INIT_CMDS);
    PlainlyIsGenuine(ON_CMDS);
    StreamPacketsMean();
    AtBoot();
    var s0 := PoweredUp();
    var s1 := Run(s0, init);
    var s2 := Run(s1, on);
    Quietly(s0, INIT_CMDS);
    Quietly(s1, ON_CMDS);
    Quietly(s2, INIT_CMDS);
    var a := [] + Served(TRANSFER_INIT, init);
    var b := a + Served(STREAM_ON, on);
    PacketServed([], TRANSFER_INIT, init);
    PacketServed(a, STREAM_ON, on);
    PacketServed(b, TRANSFER_INIT, init);
    assert Reinitialising() == b + Served(TRANSFER_INIT, init);
    InitialisedIsConsistent(s0, init);
    PacketKeepsConsistency(s1, StreamOn, on);
    InitialisedIsConsistent(s2, init);
    InitialisedIsIdle(s2, init);
  }

  lemma AtBoot()
    ensures IsRun([]) && Reached([]) == Boot()
  {
  }

  lemma Quietly(s: State, cmds: seq<Cmd>)
    requires forall c :: c in cmds ==> !Replying(c)
    ensures Replies(s, Plainly(cmds)) == []
  {
    NoReplies(s, Plainly(cmds));
  }

  lemma InitialisedIsIdle(s: State, events: seq<Event>)
    requires Cmds(events) == Decode(TRANSFER_INIT).cmds
    ensures Run(s, events).regs.iod * MODE_PINS == MODE_IDLE
  {
    hide Decode, RegOf, ReadPort;
    StreamPacketsMean();
    assert |Cmds(events)| == |events| == 3;
    RunThree(s, events);
    assert Cmds(events)[0] == events[0].cmd && Cmds(events)[1] == events[1].cmd && Cmds(events)[2] == events[2].cmd;
  }
}
