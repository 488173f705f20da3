/**
 * What each command does to the ports, pin by pin, and to the bus and FIFO registers
 * (fw/akb_pcr20x_fw.c:203-301); its bytes; and the state after power-up.
 */
module Ports {
  import opened Bytes
  import opened Registers
  import opened I2cEngine
  import opened Protocol
  import opened FirmwareLoop

  /** Pin b of a port as the firmware reads it: its own latch if the pin is an output, else the level outside. */
  predicate High(latch: Reg, enabled: Reg, pins: Reg, b: int) {
    0 <= b < 8 && (if b in enabled then b in latch else b in pins)
  }

  /** The latches hold eight bits. */
  ghost predicate EightBits(r: Regs) {
    && (forall b :: b in r.iod || b in r.oed || b in r.addrMask ==> 0 <= b < 8)
    && (forall b :: b in r.iob || b in r.oeb ==> 0 <= b < 8)
  }

  lemma ReadsPins(latch: Reg, enabled: Reg, pins: Reg)
    requires forall b :: b in latch ==> 0 <= b < 8
    ensures forall b :: b in ReadPort(latch, enabled, pins) <==> High(latch, enabled, pins, b)
  {
  }

  /** The mode goes to pins 7 and 6; the address pins 0 to 5 are driven as they were read. */
  lemma ModeSwitch(r: Regs, o: Obs, cmd: Cmd)
    requires EightBits(r)
    ensures cmd.Ep6Start? || cmd.Ep4Start? || cmd.Ep2Start? ==>
      forall b :: b in ExecRegs(r, cmd, o).iod <==> b == 6 || b == 7 || (b < 6 && High(r.iod, r.oed, o.pinsD, b))
    ensures cmd.ModeIdle? ==>
      forall b :: b in ExecRegs(r, cmd, o).iod <==> b < 6 && High(r.iod, r.oed, o.pinsD, b)
  {
    ReadsPins(r.iod, r.oed, o.pinsD);
  }

  /** Starting a stream takes the stored bus configuration and switches its FIFO on; stopping only switches it off. */
  lemma StreamSwitch(r: Regs, o: Obs)
    ensures var q := ExecRegs(r, Ep6Start, o);
      q == r.(iod := q.iod, ifconfig := r.valIfconfig, ep6fifocfg := 0x0c)
    ensures var q := ExecRegs(r, Ep4Start, o);
      q == r.(iod := q.iod, ifconfig := r.valIfconfig, ep4fifocfg := 0x0c)
    ensures var q := ExecRegs(r, Ep2Start, o);
      q == r.(iod := q.iod, ifconfig := r.valIfconfig, ep2fifocfg := 0x10)
    ensures ExecRegs(r, Ep6Stop, o) == r.(ep6fifocfg := 0x04)
    ensures ExecRegs(r, Ep4Stop, o) == r.(ep4fifocfg := 0x04)
    ensures ExecRegs(r, Ep2Stop, o) == r.(ep2fifocfg := 0x04)
    ensures ExecRegs(r, ModeIdle, o) == r.(iod := ExecRegs(r, ModeIdle, o).iod)
  {
    hide ReadPort, RegOf;
  }

  /** Register accesses: the mode, the register number, and of the other pins those the mask lets through. */
  lemma RegisterAccess(r: Regs, o: Obs, reg: byte, val: byte)
    requires EightBits(r)
    ensures var q := ExecRegs(r, RegWrite(reg, val), o);
      && (forall b: nat :: b in q.iod <==>
            b < 8 && (b == 7 || Digit(reg, b) || (b in r.addrMask && High(r.iod, r.oed, o.pinsD, b))))
      && (forall b: nat :: b in q.iob <==> b < 8 && Digit(val, b))
      && (forall b: nat :: b in q.oeb <==> b < 8)
      && q == r.(iod := q.iod, iob := q.iob, oeb := q.oeb, ifconfig := 0xe0)
    ensures var q := ExecRegs(r, RegRead(reg), o);
      && (forall b: nat :: b in q.iod <==>
            b < 8 && (b == 6 || Digit(reg, b) || (b in r.addrMask && High(r.iod, r.oed, o.pinsD, b))))
      && q == r.(iod := q.iod, oeb := {}, ifconfig := 0xe0)
  {
    ReadsPins(r.iod, r.oed, o.pinsD);
  }

  /** Writing the port replaces the pins of the mask; of the others it can only raise some. */
  lemma PortAccess(r: Regs, o: Obs, val: byte, keep: byte, enable: byte)
    requires EightBits(r)
    ensures var q := ExecRegs(r, PortWrite(val), o);
      && (forall b: nat :: b in q.iod <==>
            b < 8 && (Digit(val, b) || (b !in r.addrMask && High(r.iod, r.oed, o.pinsD, b))))
      && q == r.(iod := q.iod)
    ensures var q := ExecRegs(r, PortCfg(keep, enable), o);
      && (forall b: nat :: b in q.oed <==> b < 8 && (b == 6 || b == 7 || Digit(keep, b) || Digit(enable, b)))
      && (forall b: nat :: b in q.addrMask <==> b < 6 && !Digit(keep, b))
      && q == r.(oed := q.oed, addrMask := q.addrMask)
    ensures ExecRegs(r, IfConfig(val), o) == r.(valIfconfig := val)
  {
    ReadsPins(r.iod, r.oed, o.pinsD);
  }

  /** Commands that have nothing to do with the ports leave them alone. */
  lemma OthersKeepPorts(r: Regs, o: Obs, cmd: Cmd)
    requires cmd.I2cRead? || cmd.I2cWrite? || cmd.I2cStatus? || cmd.PortRead? || cmd.Skip?
    ensures ExecRegs(r, cmd, o) == r
  {
  }

  lemma {:induction false} StaysEightBits(s: State, events: seq<Event>)
    requires EightBits(s.regs)
    ensures EightBits(Run(s, events).regs)
  {
    if events != [] {
      var before := Run(s, events[..|events| - 1]);
      StaysEightBits(s, events[..|events| - 1]);
      EightBitsStep(before.regs, events[|events| - 1]);
      hide ExecRegs, EightBits;
    }
  }

  lemma EightBitsStep(r: Regs, e: Event)
    requires EightBits(r)
    ensures EightBits(ExecRegs(r, e.cmd, e.obs))
  {
    ReadsPins(r.iod, r.oed, e.obs.pinsD);
    hide ReadPort;
  }

  /** A reading of a port is one byte, bit b of it the level of pin b. */
  lemma PortReplies(s: State, e: Event)
    requires EightBits(s.regs)
    ensures e.cmd.PortRead? ==>
      && |Reply(s, e)| == 1
      && forall b: nat :: b < 8 ==>
           (Digit(Reply(s, e)[0], b) <==> High(s.regs.iod, s.regs.oed, e.obs.pinsD, b))
    ensures e.cmd.RegRead? ==>
      |Reply(s, e)| == 1 && forall b: nat :: b < 8 ==> (Digit(Reply(s, e)[0], b) <==> b in e.obs.pinsB)
  {
    hide ReadPort, ByteOf;
    ReadsPins(s.regs.iod, s.regs.oed, e.obs.pinsD);
    ReadsPins(s.regs.iob, {}, e.obs.pinsB);
    DigitsOf(ReadPort(s.regs.iod, s.regs.oed, e.obs.pinsD));
    DigitsOf(ReadPort(s.regs.iob, {}, e.obs.pinsB));
  }

  lemma DigitsOf(reg: Reg)
    ensures forall b: nat :: b < 8 ==> (Digit(ByteOf(reg), b) <==> b in reg)
  {
    forall b: nat | b < 8 ensures Digit(ByteOf(reg), b) <==> b in reg {
      DigitsOfNumber(reg, 0, 8, b);
    }
  }

  lemma {:induction false} DigitsOfNumber(reg: Reg, off: nat, width: nat, b: nat)
    requires b < width
    ensures Digit(Number(reg, off, width), b) <==> off + b in reg
    decreases width
  {
    if b > 0 {
      DigitsOfNumber(reg, off + 1, width - 1, b - 1);
    }
  }

  /** The commands as bytes. */
  lemma CommandBytes(a: byte, b: byte, data: seq<byte>)
    requires |data| <= 16
    ensures Encode(I2cWrite(a, data)) == [0x61, a, |data|] + data && Encode(I2cStatus) == [0x62]
    ensures b <= 16 ==> Encode(I2cRead(a, b)) == [0x60, a, b]
    ensures Encode(RegWrite(a, b)) == [0x56, a, b] && Encode(RegRead(a)) == [0x55, a]
    ensures Encode(PortWrite(a)) == [0x58, a] && Encode(PortRead) == [0x57]
    ensures Encode(PortCfg(a, b)) == [0x54, a, b] && Encode(IfConfig(a)) == [0x59, a]
    ensures Encode(Ep6Start) == [0x50] && Encode(Ep6Stop) == [0x51]
    ensures Encode(Ep2Start) == [0x52] && Encode(Ep2Stop) == [0x53]
    ensures Encode(Ep4Start) == [0x5b] && Encode(Ep4Stop) == [0x5c] && Encode(ModeIdle) == [0x5a]
  {
  }

  /** No command that is longer than the buffer of sixteen bytes. */
  lemma BufferIsSixteen(a: byte, len: byte, rest: seq<byte>)
    ensures DecodeOne([0x60, a, len] + rest).Cut? <==> len > 16
    ensures DecodeOne([0x61, a, len] + rest).Cut? <==> len > 16 || |rest| < len
  {
    var p, q := [0x60, a, len] + rest, [0x61, a, len] + rest;
    assert p[1..] == [a, len] + rest && q[1..] == [a, len] + rest;
  }

  /** main_init: all low, the mode pins outputs, no FIFO running, no counts. */
  lemma AtPowerUp()
    ensures var s := PoweredUp();
      && s.regs.iod == {} && s.regs.oed == {6, 7} && s.regs.addrMask == {} && s.regs.valIfconfig == 0
      && s.regs.ep2fifocfg == s.regs.ep4fifocfg == s.regs.ep6fifocfg == 0x04
      && s.readErrCnt == s.writeErrCnt == 0 && s.diag == Diag(0, 0, 0, 0)
      && EightBits(s.regs)
  {
  }

  /** What is handed over of a reply: all of it up to 255 bytes, then the count wraps around. */
  lemma HandedOver(replies: seq<byte>)
    ensures Committed(replies) <= replies && |Committed(replies)| == |replies| % 256
    ensures |replies| < 256 ==> Committed(replies) == replies
  {
  }
}
