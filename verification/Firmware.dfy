/** The firmware's main loop (fw/akb_pcr20x_fw.c) on top of the I2C engine. */
module FirmwareLoop {
  import opened Bytes
  import opened Registers
  import opened I2cBus
  import opened I2cEngine
  import opened I2cTrace
  import opened Protocol
  import opened BusLog

  const EP1_SIZE: nat := 64

  /**
   * What host and firmware share: the state behind EP1, the packet in the OUT buffer and the reply
   * in the IN buffer.  A busy buffer belongs to the USB side.
   */
  datatype Device = Device(state: State, outBusy: bool, outBuf: seq<byte>, inBusy: bool, reply: seq<byte>)

  /** The reply that is handed to the host: ret_cnt is a byte, and a reply of zero bytes is not sent. */
  function Committed(replies: seq<byte>): seq<byte> {
    replies[..|replies| % 256]
  }

  /** One call of main_loop; `events` are the commands it executed. */
  function Poll(d: Device, events: seq<Event>): Device {
    if d.outBusy || d.inBusy then d
    else
      var reply := Committed(Replies(d.state, events));
      Device(Run(d.state, events), true, d.outBuf, reply != [], reply)
  }

  /** The events one call of main_loop can go through. */
  ghost predicate Polls(d: Device, events: seq<Event>) {
    if d.outBusy || d.inBusy then events == []
    else Cmds(events) == Decode(d.outBuf).cmds && AllGenuine(events)
  }

  class Firmware {
    const i2c: I2cMaster
    const i2cbf: array<byte>
    const pinsB: nat -> Reg
    const pinsD: nat -> Reg
    var looks: nat

    var regs: Regs
    var readErrCnt: word
    var writeErrCnt: word

    var outBusy: bool        // EP1OUTCS & bmEPBUSY
    var outBuf: seq<byte>    // EP1OUTBUF, of EP1OUTBC bytes
    var inBusy: bool         // EP1INCS & bmEPBUSY
    var inBuf: seq<byte>     // what went through XAUTODAT2 since the autopointer was set
    var inCount: byte        // EP1INBC
    var autoptr1: nat        // offset of autopointer 1 in EP1OUTBUF

    ghost var history: seq<Event>

    ghost predicate Valid()
      reads this, i2c
    {
      && i2cbf.Length == I2C_BUF_LEN
      && |outBuf| <= EP1_SIZE
      && (inBusy ==> 0 < inCount <= |inBuf|)
      && i2c.Valid()
      && i2c.bus.legal
      && i2c.bus.errors == i2c.exact.berrRead + i2c.exact.berrWrite
      && Logged()
    }

    /** The calls in the history are what happened on the bus, all of it and in this order. */
    ghost predicate Logged()
      reads this`history, i2c`trace
    {
      OnBus(i2c.trace, 0, history) && End(0, history) == |i2c.trace|
    }

    ghost function Now(): State
      reads this, i2c
    {
      State(regs, readErrCnt, writeErrCnt, i2c.diag)
    }

    ghost function View(): Device
      requires Valid()
      reads this, i2c
    {
      Device(Now(), outBusy, outBuf, inBusy, if inBusy then inBuf[..inCount] else [])
    }

    /** main_init: the OUT endpoint is armed, nothing is waiting. */
    constructor (env: Env, pinsB: nat -> Reg, pinsD: nat -> Reg)
      ensures Valid() && fresh(i2c) && fresh(i2cbf) && i2c.env == env
      ensures View() == Device(PoweredUp(), true, [], false, []) && history == []
    {
      i2c := new I2cMaster(env);
      i2cbf := new byte[I2C_BUF_LEN];
      this.pinsB, this.pinsD, looks := pinsB, pinsD, 0;
      regs, readErrCnt, writeErrCnt := PoweredUp().regs, 0, 0;
      outBusy, outBuf, inBusy, inBuf, inCount, autoptr1 := true, [], false, [], 0, 0;
      history := [];
    }

    // ---------- the USB side ----------

    method HostSend(packet: seq<byte>) returns (taken: bool)
      requires Valid() && |packet| <= EP1_SIZE
      modifies this`outBusy, this`outBuf
      ensures Valid() && taken == old(outBusy)
      ensures View() == if taken then old(View()).(outBusy := false, outBuf := packet) else old(View())
    {
      taken := outBusy;
      if taken {
        outBuf, outBusy := packet, false;
      }
    }

    method HostReceive() returns (got: bool, reply: seq<byte>)
      requires Valid()
      modifies this`inBusy
      ensures Valid() && got == old(inBusy) && reply == old(View()).reply
      ensures View() == old(View()).(inBusy := false, reply := [])
    {
      got := inBusy;
      reply := if got then inBuf[..inCount] else [];
      inBusy := false;
    }

    // ---------- autopointers ----------

    /** XAUTODAT1 */
    method NextOut() returns (b: byte)
      requires autoptr1 < |outBuf|
      modifies this`autoptr1
      ensures b == outBuf[old(autoptr1)] && autoptr1 == old(autoptr1) + 1
    {
      b := outBuf[autoptr1];
      autoptr1 := autoptr1 + 1;
    }

    /** XAUTODAT2: the IN buffer must not be touched while the host still reads it. */
    method PutIn(b: byte, retCnt: byte) returns (newCnt: byte)
      requires !inBusy && retCnt == |inBuf| % 256
      modifies this`inBuf
      ensures inBuf == old(inBuf) + [b] && newCnt == |inBuf| % 256
    {
      inBuf := inBuf + [b];
      newCnt := (retCnt + 1) % 256;
    }

    method BufferToIn(len: byte, retCount: byte) returns (retCnt: byte)
      requires len <= i2cbf.Length && !inBusy && retCount == |inBuf| % 256
      modifies this`inBuf
      ensures inBuf == old(inBuf) + i2cbf[..len] && retCnt == |inBuf| % 256
    {
      retCnt := retCount;
      for i := 0 to len
        invariant inBuf == old(inBuf) + i2cbf[..i] && retCnt == |inBuf| % 256
      {
        retCnt := PutIn(i2cbf[i], retCnt);
      }
    }

    method OutToBuffer(len: byte)
      requires len <= i2cbf.Length && autoptr1 + len <= |outBuf|
      modifies this`autoptr1, i2cbf
      ensures autoptr1 == old(autoptr1) + len
      ensures i2cbf[..len] == outBuf[old(autoptr1)..autoptr1]
    {
      for i := 0 to len
        invariant autoptr1 == old(autoptr1) + i
        invariant i2cbf[..i] == outBuf[old(autoptr1)..autoptr1]
      {
        i2cbf[i] := NextOut();
      }
    }

    // ---------- one command ----------

    ghost function Last(): Event
      requires |history| > 0
      reads this`history
    {
      history[|history| - 1]
    }

    /** What the engine knows about the call that began with the trace `before`. */
    ghost function Observed(ok: bool, data: seq<byte>, berrs: nat, timeouts: nat, before: seq<Look>): Obs
      reads i2c
    {
      Obs(ok, data, i2c.bus.frame, berrs, timeouts, i2c.cancel, timeouts > 0 && i2c.bus.waiting >= WAIT_LIMIT,
          |before|, |i2c.trace|, {}, {})
    }

    /** A call that began with the trace `before` and in the state `was` ended as `o` says. */
    ghost predicate Called(before: seq<Look>, was: Diag, reading: bool, o: Obs)
      reads i2c
    {
      && i2c.Valid() && i2c.bus.legal && i2c.bus.errors == i2c.exact.berrRead + i2c.exact.berrWrite
      && before < i2c.trace && o.from == |before| && o.to == |i2c.trace| && Recorded(i2c.trace, o)
      && Explained(o) && i2c.diag == was.Add(reading, o.berrs, o.timeouts).Wrapped()
    }

    /** What the two calls have in common, in the words of the log. */
    twostate predicate Ended(reading: bool, ok: bool, berrs: nat, timeouts: nat)
      reads i2c
    {
      && i2c.Valid() && i2c.bus.legal && old(i2c.trace) < i2c.trace && i2c.lowered == old(i2c.now)
      && i2c.exact == old(i2c.exact).Add(reading, berrs, timeouts) && i2c.bus.errors == old(i2c.bus.errors) + berrs
      && timeouts <= 1 && berrs < BERR_MAX_RETRY + timeouts
      && (timeouts == 1 ==> !ok && (berrs == BERR_MAX_RETRY || i2c.cancel || i2c.bus.waiting >= WAIT_LIMIT))
      && (!ok && timeouts == 0 ==> i2c.cancel || Refused(i2c.bus.frame))
      && (ok || timeouts > 0 ==> i2c.started >= old(i2c.now))
      && (i2c.cancel ==> Raised(i2c.env, old(i2c.now), i2c.now))
      && (ok ==> Acknowledged(i2c.env, old(i2c.now), i2c.now)) && (Flawless(i2c.env) ==> ok)
    }

    method Receive(adrs: byte, len: byte) returns (ok: bool, ghost berrs: nat, ghost timeouts: nat)
      requires Valid() && len <= I2C_BUF_LEN
      modifies i2c, i2cbf
      ensures Ended(true, ok, berrs, timeouts)
      ensures ok ==> i2c.bus.frame == ReadFrame(adrs, i2cbf[..Max(len, 1)], len != 0)
    {
      hide I2cMaster.Anchored, Refused, Diag.Wrapped, OnBus, End, Flawless, Acknowledged, Raised, Held, Listen,
        WriteOnWires, ReadOnWires, ReadFrame, WriteFrame, Wrap16;
      ok := i2c.Read(adrs, len, i2cbf);
      berrs := i2c.bus.errors - old(i2c.bus.errors);
      timeouts := if i2c.OutOfTime(true) then 1 else 0;
    }

    method Transmit(adrs: byte, len: byte) returns (ok: bool, ghost berrs: nat, ghost timeouts: nat)
      requires Valid() && len <= I2C_BUF_LEN
      modifies i2c
      ensures Ended(false, ok, berrs, timeouts)
      ensures ok ==> i2c.bus.frame == WriteFrame(adrs, i2cbf[..len])
    {
      hide I2cMaster.Anchored, Refused, Diag.Wrapped, OnBus, End, Flawless, Acknowledged, Raised, Held, Listen,
        WriteOnWires, ReadOnWires, ReadFrame, WriteFrame, Wrap16;
      OneBuffer(i2cbf[..len]);
      ok := i2c.Write(adrs, len, i2cbf, 0, null);
      berrs := i2c.bus.errors - old(i2c.bus.errors);
      timeouts := if i2c.OutOfTime(false) then 1 else 0;
    }

    /** i2c_read, and what there is to be said about the call. */
    method Read(adrs: byte, len: byte) returns (ok: bool, ghost o: Obs)
      requires Valid() && len <= I2C_BUF_LEN
      modifies i2c, i2cbf
      ensures Called(old(i2c.trace), old(i2c.diag), true, o)
      ensures ok == o.ok && o.data == i2cbf[..len] && Genuine(Event(I2cRead(adrs, len), o))
      ensures Conforms(i2c.env, Event(I2cRead(adrs, len), o))
    {
      hide I2cMaster.Anchored, Genuine, Refused, Diag.Wrapped, OnBus, End, Recorded, Conforms, Flawless, Acknowledged,
        Raised, ReadFrame, WriteFrame;
      ghost var before, berrs, timeouts := i2c.trace, 0, 0;
      i2c.TraceTells();
      ok, berrs, timeouts := Receive(adrs, len);
      i2c.TraceTells();
      assert i2cbf[..1] == [i2cbf[0]];
      WrappedAdd(old(i2c.exact), true, berrs, timeouts);
      o := Observed(ok, i2cbf[..len], berrs, timeouts, before);
      CallIsRecorded(before, i2c.trace, o);
      ReadIsGenuine(adrs, len, o, i2cbf[0]);
      CallConforms(i2c.env, Event(I2cRead(adrs, len), o), old(i2c.now), i2c.now);
    }

    /** i2c_write, and what there is to be said about the call. */
    method Write(adrs: byte, len: byte) returns (ok: bool, ghost o: Obs)
      requires Valid() && len <= I2C_BUF_LEN
      modifies i2c
      ensures Called(old(i2c.trace), old(i2c.diag), false, o)
      ensures ok == o.ok && Genuine(Event(I2cWrite(adrs, i2cbf[..len]), o))
      ensures Conforms(i2c.env, Event(I2cWrite(adrs, i2cbf[..len]), o))
    {
      hide I2cMaster.Anchored, Genuine, Refused, Diag.Wrapped, OnBus, End, Recorded, Conforms, Flawless, Acknowledged,
        Raised, ReadFrame, WriteFrame;
      ghost var before, berrs, timeouts := i2c.trace, 0, 0;
      i2c.TraceTells();
      ok, berrs, timeouts := Transmit(adrs, len);
      i2c.TraceTells();
      WrappedAdd(old(i2c.exact), false, berrs, timeouts);
      o := Observed(ok, [], berrs, timeouts, before);
      CallIsRecorded(before, i2c.trace, o);
      WriteIsGenuine(adrs, i2cbf[..len], o);
      CallConforms(i2c.env, Event(I2cWrite(adrs, i2cbf[..len]), o), old(i2c.now), i2c.now);
    }

    /** Logs an I2C call. */
    ghost method Diagnose(cmd: Cmd, o: Obs, before: seq<Look>)
      requires IsCall(cmd) && before <= i2c.trace && OnBus(before, 0, history) && End(0, history) == |before|
      requires o.from == |before| && o.to == |i2c.trace| && Recorded(i2c.trace, o)
      modifies this`history
      ensures history == old(history) + [Event(cmd, o)] && Logged()
    {
      hide Recorded;
      OnBusGrows(before, i2c.trace, 0, history);
      OneMoreOnBus(i2c.trace, 0, history, Event(cmd, o));
      history := history + [Event(cmd, o)];
    }

    /** The call of i2c_read and what it leaves in the counters. */
    method CallRead(adrs: byte, len: byte) returns (ok: bool)
      requires Valid() && len <= I2C_BUF_LEN
      modifies this`readErrCnt, this`history, i2c, i2cbf
      ensures Valid() && |history| > 0 && history == old(history) + [Last()]
      ensures old(i2c.trace) < i2c.trace
      ensures Last().cmd == I2cRead(adrs, len) && Genuine(Last()) && ok == Last().obs.ok
      ensures Now() == Exec(old(Now()), Last())
      ensures ok ==> i2cbf[..len] == Last().obs.data
      ensures Conforms(i2c.env, Last())
    {
      hide I2cMaster.Anchored, Genuine, Conforms, Explained, Diag.Wrapped, OnBus, End, Recorded;
      ghost var o;
      ok, o := Read(adrs, len);
      Diagnose(I2cRead(adrs, len), o, old(i2c.trace));
      if !ok {
        readErrCnt := Wrap16(readErrCnt + 1);
      }
    }

    /** The call of i2c_write; a failure is counted and nothing else. */
    method CallWrite(adrs: byte, len: byte) returns (ok: bool)
      requires Valid() && len <= I2C_BUF_LEN
      modifies this`writeErrCnt, this`history, i2c
      ensures Valid() && |history| > 0 && history == old(history) + [Last()]
      ensures old(i2c.trace) < i2c.trace
      ensures Last().cmd == I2cWrite(adrs, i2cbf[..len]) && Genuine(Last()) && ok == Last().obs.ok
      ensures Now() == Exec(old(Now()), Last())
      ensures Conforms(i2c.env, Last())
    {
      hide I2cMaster.Anchored, Genuine, Conforms, Explained, Diag.Wrapped, OnBus, End, Recorded;
      ghost var o;
      ok, o := Write(adrs, len);
      Diagnose(I2cWrite(adrs, i2cbf[..len]), o, old(i2c.trace));
      if !ok {
        writeErrCnt := Wrap16(writeErrCnt + 1);
      }
    }

    /**
     * What one round of the loop does when the packet is `p` from its command byte on: either
     * execute the command at its front and move behind it, or give the packet up.
     */
    twostate predicate Did(p: seq<byte>, cmdCnt: int, retCnt: int)
      requires p != []
      reads this, i2c
    {
      && Valid()
      && !inBusy && outBuf == old(outBuf) && outBusy == old(outBusy)
      && old(i2c.trace) <= i2c.trace
      && retCnt == |inBuf| % 256
      && match DecodeOne(p)
         case Cut =>
           cmdCnt == 0 && Now() == old(Now()) && inBuf == old(inBuf) && history == old(history)
         case Taken(cmd, size) =>
           && size <= |p|
           && cmdCnt == |p| - size
           && autoptr1 == |outBuf| - cmdCnt
           && |history| > 0 && history == old(history) + [Last()]
           && Last().cmd == cmd && Genuine(Last()) && Conforms(i2c.env, Last())
           && Now() == Exec(old(Now()), Last())
           && inBuf == old(inBuf) + Reply(old(Now()), Last())
    }

    method DoI2cRead(cmdCount: byte, retCount: byte, ghost p: seq<byte>) returns (cmdCnt: byte, retCnt: byte)
      requires Valid() && !inBusy && retCount == |inBuf| % 256
      requires autoptr1 + cmdCount == |outBuf| && autoptr1 >= 1
      requires p == outBuf[autoptr1 - 1..] && p[0] == CMD_I2C_READ
      modifies this, i2c, i2cbf
      ensures Did(p, cmdCnt, retCnt)
    {
      hide I2cMaster.Anchored, OnBus, End, Genuine, Conforms, Exec;
      cmdCnt, retCnt := cmdCount, retCount;
      if cmdCnt < 2 {
        return 0, retCnt;
      }
      var adrs := NextOut();
      var len := NextOut();
      cmdCnt := cmdCnt - 2;
      if len > I2C_BUF_LEN {
        return 0, retCnt;
      }
      var ok := CallRead(adrs, len);
      if ok {
        retCnt := BufferToIn(len, retCnt);
      }
    }

    /** The payload of CMD_I2C_WRITE goes through i2cbf to the bus. */
    method WriteOut(adrs: byte, len: byte)
      requires Valid() && len <= I2C_BUF_LEN && autoptr1 + len <= |outBuf|
      modifies this`autoptr1, this`writeErrCnt, this`history, i2c, i2cbf
      ensures Valid() && autoptr1 == old(autoptr1) + len
      ensures |history| > 0 && history == old(history) + [Last()]
      ensures Last().cmd == I2cWrite(adrs, outBuf[old(autoptr1)..autoptr1])
      ensures Genuine(Last()) && Conforms(i2c.env, Last()) && Now() == Exec(old(Now()), Last())
      ensures old(i2c.trace) < i2c.trace
    {
      hide I2cMaster.Anchored, OnBus, End, Genuine, Conforms, Exec;
      OutToBuffer(len);
      var ok := CallWrite(adrs, len);
    }

    method DoI2cWrite(cmdCount: byte, retCount: byte, ghost p: seq<byte>) returns (cmdCnt: byte, retCnt: byte)
      requires Valid() && !inBusy && retCount == |inBuf| % 256
      requires autoptr1 + cmdCount == |outBuf| && autoptr1 >= 1
      requires p == outBuf[autoptr1 - 1..] && p[0] == CMD_I2C_WRITE
      modifies this, i2c, i2cbf
      ensures Did(p, cmdCnt, retCnt)
    {
      hide I2cMaster.Anchored, OnBus, End, Genuine, Conforms, Exec, DecodeOne;
      DecodesWrite(outBuf, autoptr1 - 1);
      cmdCnt, retCnt := cmdCount, retCount;
      if cmdCnt < 2 {
        return 0, retCnt;
      }
      var adrs := NextOut();
      var len := NextOut();
      cmdCnt := cmdCnt - 2;
      if len > I2C_BUF_LEN || cmdCnt < len {
        return 0, retCnt;
      }
      WriteOut(adrs, len);
      cmdCnt := cmdCnt - len;
    }

    /** Logs a command that does not touch the I2C bus. */
    ghost method Log(cmd: Cmd, pinsB: Reg, pinsD: Reg)
      requires Logged() && !IsCall(cmd)
      modifies this`history
      ensures history == old(history) + [Event(cmd, Unheard(pinsB, pinsD))] && Logged()
    {
      OneMoreOnBus(i2c.trace, 0, history, Event(cmd, Unheard(pinsB, pinsD)));
      history := history + [Event(cmd, Unheard(pinsB, pinsD))];
    }

    method ReadIob() returns (v: Reg, ghost pins: Reg)
      modifies this`looks
      ensures v == ReadPort(regs.iob, regs.oeb, pins)
    {
      v, pins := ReadPort(regs.iob, regs.oeb, pinsB(looks)), pinsB(looks);
      looks := looks + 1;
    }

    method ReadIod() returns (v: Reg, ghost pins: Reg)
      modifies this`looks
      ensures v == ReadPort(regs.iod, regs.oed, pins)
    {
      v, pins := ReadPort(regs.iod, regs.oed, pinsD(looks)), pinsD(looks);
      looks := looks + 1;
    }

    method DoStatus(cmdCount: byte, retCount: byte, ghost p: seq<byte>) returns (cmdCnt: byte, retCnt: byte)
      requires Valid() && !inBusy && retCount == |inBuf| % 256
      requires autoptr1 + cmdCount == |outBuf| && autoptr1 >= 1
      requires p == outBuf[autoptr1 - 1..] && p[0] == CMD_I2C_STATUS
      modifies this`inBuf, this`history
      ensures Did(p, cmdCnt, retCnt)
    {
      hide Exec, Reply, StatusReply, Genuine, DecodeOne, TwoBytes, Wrap16, I2cMaster.Anchored, OnBus, End;
      cmdCnt := cmdCount;
      Log(I2cStatus, {}, {});
      var status :=
        TwoBytes(readErrCnt) + TwoBytes(writeErrCnt)
        + TwoBytes(Wrap16(i2c.diag.berrRead)) + TwoBytes(Wrap16(i2c.diag.berrWrite))
        + TwoBytes(Wrap16(i2c.diag.timeoutRead)) + TwoBytes(Wrap16(i2c.diag.timeoutWrite));
      StatusStep(p, Now(), Last(), status);
      inBuf := inBuf + status;
      retCnt := (retCount + 12) % 256;
    }

    /** CMD_REG_WRITE */
    method DoRegWrite(cmdCount: byte, retCount: byte, ghost p: seq<byte>) returns (cmdCnt: byte, retCnt: byte)
      requires Valid() && !inBusy && retCount == |inBuf| % 256
      requires autoptr1 + cmdCount == |outBuf| && autoptr1 >= 1
      requires p == outBuf[autoptr1 - 1..] && p[0] == CMD_REG_WRITE
      modifies this`autoptr1, this`looks, this`regs, this`history
      ensures Did(p, cmdCnt, retCnt)
    {
      hide RegOf, ByteOf, ReadPort, I2cMaster.Anchored, OnBus, End;
      cmdCnt, retCnt := cmdCount, retCount;
      if cmdCnt < 2 {
        return 0, retCnt;
      }
      var iod, pinsD := ReadIod();
      var reg := NextOut();
      regs := regs.(iod := MODE_REGW + iod * regs.addrMask + RegOf(reg), ifconfig := 0xe0, oeb := ALL_PINS);
      var val := NextOut();
      regs := regs.(iob := RegOf(val));
      cmdCnt := cmdCnt - 2;
      assert DecodeOne(p) == Taken(RegWrite(reg, val), 3);
      Log(RegWrite(reg, val), {}, pinsD);
    }

    /** CMD_REG_READ */
    method DoRegRead(cmdCount: byte, retCount: byte, ghost p: seq<byte>) returns (cmdCnt: byte, retCnt: byte)
      requires Valid() && !inBusy && retCount == |inBuf| % 256
      requires autoptr1 + cmdCount == |outBuf| && autoptr1 >= 1
      requires p == outBuf[autoptr1 - 1..] && p[0] == CMD_REG_READ
      modifies this`autoptr1, this`looks, this`regs, this`inBuf, this`history
      ensures Did(p, cmdCnt, retCnt)
    {
      hide RegOf, ByteOf, ReadPort, I2cMaster.Anchored, OnBus, End;
      cmdCnt, retCnt := cmdCount, retCount;
      if cmdCnt < 1 {
        return 0, retCnt;
      }
      var iod, pinsD := ReadIod();
      var reg := NextOut();
      regs := regs.(iod := MODE_REGR + iod * regs.addrMask + RegOf(reg), ifconfig := 0xe0, oeb := {});
      var iob, pinsB := ReadIob();
      retCnt := PutIn(ByteOf(iob), retCnt);
      cmdCnt := cmdCnt - 1;
      assert DecodeOne(p) == Taken(RegRead(reg), 2);
      Log(RegRead(reg), pinsB, pinsD);
    }

    /** CMD_PORT_WRITE. */
    method DoPortWrite(cmdCount: byte, retCount: byte, ghost p: seq<byte>) returns (cmdCnt: byte, retCnt: byte)
      requires Valid() && !inBusy && retCount == |inBuf| % 256
      requires autoptr1 + cmdCount == |outBuf| && autoptr1 >= 1
      requires p == outBuf[autoptr1 - 1..] && p[0] == CMD_PORT_WRITE
      modifies this`autoptr1, this`looks, this`regs, this`history
      ensures Did(p, cmdCnt, retCnt)
    {
      hide RegOf, ByteOf, ReadPort, I2cMaster.Anchored, OnBus, End;
      cmdCnt, retCnt := cmdCount, retCount;
      if cmdCnt < 1 {
        return 0, retCnt;
      }
      var iod, pinsD := ReadIod();
      var val := NextOut();
      regs := regs.(iod := (iod - regs.addrMask) + RegOf(val));
      cmdCnt := cmdCnt - 1;
      assert DecodeOne(p) == Taken(PortWrite(val), 2);
      Log(PortWrite(val), {}, pinsD);
    }

    /** CMD_PORT_CFG */
    method DoPortCfg(cmdCount: byte, retCount: byte, ghost p: seq<byte>) returns (cmdCnt: byte, retCnt: byte)
      requires Valid() && !inBusy && retCount == |inBuf| % 256
      requires autoptr1 + cmdCount == |outBuf| && autoptr1 >= 1
      requires p == outBuf[autoptr1 - 1..] && p[0] == CMD_PORT_CFG
      modifies this`autoptr1, this`regs, this`history
      ensures Did(p, cmdCnt, retCnt)
    {
      hide RegOf, ByteOf, ReadPort, I2cMaster.Anchored, OnBus, End;
      cmdCnt, retCnt := cmdCount, retCount;
      if cmdCnt < 2 {
        return 0, retCnt;
      }
      var keep := NextOut();
      regs := regs.(addrMask := RegOf(keep) + MODE_PINS);
      var enable := NextOut();
      regs := regs.(oed := RegOf(enable) + regs.addrMask);
      regs := regs.(addrMask := ALL_PINS - regs.addrMask);
      cmdCnt := cmdCnt - 2;
      assert DecodeOne(p) == Taken(PortCfg(keep, enable), 3);
      Log(PortCfg(keep, enable), {}, {});
    }

    /** CMD_IFCONFIG */
    method DoIfConfig(cmdCount: byte, retCount: byte, ghost p: seq<byte>) returns (cmdCnt: byte, retCnt: byte)
      requires Valid() && !inBusy && retCount == |inBuf| % 256
      requires autoptr1 + cmdCount == |outBuf| && autoptr1 >= 1
      requires p == outBuf[autoptr1 - 1..] && p[0] == CMD_IFCONFIG
      modifies this`autoptr1, this`regs, this`history
      ensures Did(p, cmdCnt, retCnt)
    {
      hide RegOf, ByteOf, ReadPort, I2cMaster.Anchored, OnBus, End;
      cmdCnt, retCnt := cmdCount, retCount;
      if cmdCnt < 1 {
        return 0, retCnt;
      }
      var val := NextOut();
      regs := regs.(valIfconfig := val);
      cmdCnt := cmdCnt - 1;
      assert DecodeOne(p) == Taken(IfConfig(val), 2);
      Log(IfConfig(val), {}, {});
    }

    /** IFCONFIG = val_ifconfig and IOD = MODE_START | (IOD & 0x3f). */
    static method Start(iod: Reg, r: Regs, ghost pins: Reg) returns (after: Regs)
      requires iod == ReadPort(r.iod, r.oed, pins)
      ensures after == StartMode(r, pins)
    {
      after := r.(ifconfig := r.valIfconfig, iod := MODE_START + iod * ADDRESS_PINS);
    }

    /** IOD = MODE_IDLE | (IOD & 0x3f). */
    static method Idle(iod: Reg, r: Regs, ghost pins: Reg) returns (after: Regs)
      requires iod == ReadPort(r.iod, r.oed, pins)
      ensures after == IdleMode(r, pins)
    {
      after := r.(iod := MODE_IDLE + iod * ADDRESS_PINS);
    }

    /** The commands that switch the streams and the mode; bytes that are no command do nothing. */
    static method Switch(op: byte, iod: Reg, r: Regs, ghost o: Obs) returns (after: Regs)
      requires iod == ReadPort(r.iod, r.oed, o.pinsD)
      ensures after == ExecRegs(r, Plain(op), o)
    {
      hide ReadPort, StartMode, IdleMode;
      after := r;
      match op
      case 0x50 =>
        after := Start(iod, r, o.pinsD);
        after := after.(ep6fifocfg := 0x0c);
      case 0x51 =>
        after := after.(ep6fifocfg := 0x04);
      case 0x5b =>
        after := Start(iod, r, o.pinsD);
        after := after.(ep4fifocfg := 0x0c);
      case 0x5c =>
        after := after.(ep4fifocfg := 0x04);
      case 0x52 =>
        after := Start(iod, r, o.pinsD);
        after := after.(ep2fifocfg := 0x10);
      case 0x53 =>
        after := after.(ep2fifocfg := 0x04);
      case 0x5a =>
        after := Idle(iod, r, o.pinsD);
      case _ =>
    }

    /** Every command without arguments, and the bytes that are no command. */
    method DoPlain(op: byte, cmdCount: byte, retCount: byte, ghost p: seq<byte>) returns (cmdCnt: byte, retCnt: byte)
      requires Valid() && !inBusy && retCount == |inBuf| % 256
      requires autoptr1 + cmdCount == |outBuf| && autoptr1 >= 1
      requires p == outBuf[autoptr1 - 1..] && p[0] == op && DecodeOne(p) == Taken(Plain(op), 1)
      modifies this`looks, this`regs, this`inBuf, this`history
      ensures Did(p, cmdCnt, retCnt)
    {
      hide I2cMaster.Anchored, OnBus, End;
      PlainRegs(regs, op);
      hide DecodeOne, RegOf, ByteOf, ReadPort, ExecRegs;
      cmdCnt, retCnt := cmdCount, retCount;
      var iod, pinsD := ReadIod();
      Log(Plain(op), {}, pinsD);
      if op == CMD_PORT_READ {
        retCnt := PutIn(ByteOf(iod), retCnt);
      } else {
        regs := Switch(op, iod, regs, Last().obs);
      }
    }

    method Command(op: byte, cmdCount: byte, retCount: byte, ghost p: seq<byte>) returns (cmdCnt: byte, retCnt: byte)
      requires Valid() && !inBusy && retCount == |inBuf| % 256
      requires autoptr1 + cmdCount == |outBuf| && autoptr1 >= 1
      requires p == outBuf[autoptr1 - 1..] && p[0] == op
      modifies this, i2c, i2cbf
      ensures Did(p, cmdCnt, retCnt)
    {
      hide I2cMaster.Anchored, OnBus, End;
      if op == CMD_I2C_READ {
        cmdCnt, retCnt := DoI2cRead(cmdCount, retCount, p);
      } else if op == CMD_I2C_WRITE {
        cmdCnt, retCnt := DoI2cWrite(cmdCount, retCount, p);
      } else if op == CMD_I2C_STATUS {
        cmdCnt, retCnt := DoStatus(cmdCount, retCount, p);
      } else if op == CMD_REG_WRITE {
        cmdCnt, retCnt := DoRegWrite(cmdCount, retCount, p);
      } else if op == CMD_REG_READ {
        cmdCnt, retCnt := DoRegRead(cmdCount, retCount, p);
      } else if op == CMD_PORT_WRITE {
        cmdCnt, retCnt := DoPortWrite(cmdCount, retCount, p);
      } else if op == CMD_PORT_CFG {
        cmdCnt, retCnt := DoPortCfg(cmdCount, retCount, p);
      } else if op == CMD_IFCONFIG {
        cmdCnt, retCnt := DoIfConfig(cmdCount, retCount, p);
      } else {
        cmdCnt, retCnt := DoPlain(op, cmdCount, retCount, p);
      }
    }

    // ---------- the loop ----------

    /** What has been executed since there were `n` events. */
    ghost function Since(n: nat): seq<Event>
      requires n <= |history|
      reads this`history
    {
      history[n..]
    }

    /**
     * The loop's progress: `s` and `n` are the state and the length of the history at its start.
     * What is still to be decoded starts at autopointer 1, unless the packet was given up.
     */
    ghost predicate Progress(s: State, n: nat, cmdCnt: int, retCnt: int, cut: bool)
      reads this, i2c
    {
      && Valid() && !inBusy && !outBusy && n <= |history|
      && (if cut then cmdCnt == 0 else cmdCnt >= 0 && autoptr1 + cmdCnt == |outBuf|)
      && (Decode(outBuf) ==
            if cut then Decoded(Cmds(Since(n)), true)
            else Decoded(Cmds(Since(n)) + Decode(outBuf[autoptr1..]).cmds, Decode(outBuf[autoptr1..]).cut))
      && Now() == Run(s, Since(n))
      && inBuf == Replies(s, Since(n)) && retCnt == |inBuf| % 256
      && AllGenuine(Since(n)) && AllConform(i2c.env, Since(n))
    }

    method Round(cmdCount: byte, retCount: byte, ghost s: State, ghost n: nat)
      returns (cmdCnt: byte, retCnt: byte, ghost cut: bool)
      requires Progress(s, n, cmdCount, retCount, false) && cmdCount != 0
      modifies this, i2c, i2cbf
      ensures Progress(s, n, cmdCnt, retCnt, cut) && cmdCnt < cmdCount
      ensures outBuf == old(outBuf) && history[..n] == old(history[..n]) && old(i2c.trace) <= i2c.trace
    {
      hide DecodeOne, Exec, Reply, Genuine, Conforms, Decode, Run, Replies, Cmds, I2cMaster.Anchored, OnBus, End;
      ghost var p := outBuf[autoptr1..];
      ghost var before := Since(n);
      CutOrTaken(outBuf, autoptr1, before);
      if DecodeOne(p).Taken? {
        TakenFits(p);
      }
      cmdCnt := cmdCount - 1;
      var op := NextOut();
      cmdCnt, retCnt := Command(op, cmdCnt, retCount, p);
      cut := DecodeOne(p).Cut?;
      if !cut {
        OneMore(s, before, Last());
        assert Since(n) == before + [Last()];
      }
    }

    /**
     * main_loop: nothing happens while a reply is still to be fetched or no packet has come.
     * Otherwise the whole packet is executed, its buffer is given back, and the reply is handed
     * over.
     */
    method MainLoop()
      requires Valid()
      modifies this, i2c, i2cbf
      ensures Valid()
      ensures old(history) <= history && old(i2c.trace) <= i2c.trace
      ensures Polls(old(View()), Since(|old(history)|))
      ensures View() == Poll(old(View()), Since(|old(history)|))
      ensures AllConform(i2c.env, Since(|old(history)|))
    {
      hide DecodeOne, Exec, Reply, Genuine, Conforms, I2cMaster.Anchored, OnBus, End;
      if outBusy || inBusy {
        return;
      }
      ghost var s, n := Now(), |history|;
      var cmdCnt: byte := |outBuf|;
      autoptr1, inBuf := 0, [];
      var retCnt: byte := 0;
      ghost var cut := false;
      assert outBuf[0..] == outBuf;

      while cmdCnt != 0
        invariant Progress(s, n, cmdCnt, retCnt, cut) && (cut ==> cmdCnt == 0)
        invariant outBuf == old(outBuf) && history[..n] == old(history) && old(i2c.trace) <= i2c.trace
        decreases cmdCnt
      {
        cmdCnt, retCnt, cut := Round(cmdCnt, retCnt, s, n);
      }

      outBusy := true;
      if retCnt != 0 {
        inCount, inBusy := retCnt, true;
      }
    }
  }

  /** One step of the decoder, seen from the loop. */
  lemma CutOrTaken(packet: seq<byte>, at: nat, before: seq<Event>)
    requires at < |packet|
    requires Decode(packet) == Decoded(Cmds(before) + Decode(packet[at..]).cmds, Decode(packet[at..]).cut)
    ensures DecodeOne(packet[at..]).Cut? ==> Decode(packet) == Decoded(Cmds(before), true)
    ensures DecodeOne(packet[at..]).Taken? ==>
      var next := at + DecodeOne(packet[at..]).size;
      && next <= |packet|
      && Decode(packet) ==
           Decoded(Cmds(before) + [DecodeOne(packet[at..]).cmd] + Decode(packet[next..]).cmds,
                   Decode(packet[next..]).cut)
  {
    hide DecodeOne, Encode, Encodable, Cmds;
    var p := packet[at..];
    if DecodeOne(p).Taken? {
      TakenFits(p);
      var next := at + DecodeOne(p).size;
      assert packet[next..] == p[DecodeOne(p).size..];
      assert Cmds(before) + ([DecodeOne(p).cmd] + Decode(packet[next..]).cmds)
          == Cmds(before) + [DecodeOne(p).cmd] + Decode(packet[next..]).cmds;
    }
  }

  lemma ReadIsGenuine(adrs: byte, len: byte, o: Obs, b: byte)
    requires len <= I2C_BUF_LEN && |o.data| == len && Explained(o)
    requires o.ok ==> o.frame == ReadFrame(adrs, if len == 0 then [b] else o.data, len != 0)
    ensures Genuine(Event(I2cRead(adrs, len), o))
  {
  }

  lemma CallConforms(env: Env, e: Event, from: nat, to: nat)
    requires Flawless(env) ==> e.obs.ok
    requires e.obs.ok ==> Acknowledged(env, from, to)
    requires e.obs.cancelled ==> Raised(env, from, to)
    ensures Conforms(env, e)
  {
  }

  lemma OneBuffer(data: seq<byte>)
    requires |data| <= I2C_BUF_LEN
    ensures Wrap16(|data| + 0) == |data| && (data + [])[..|data|] == data
  {
  }

  lemma WriteIsGenuine(adrs: byte, data: seq<byte>, o: Obs)
    requires |data| <= I2C_BUF_LEN && Explained(o) && (o.ok ==> o.frame == WriteFrame(adrs, data))
    ensures Genuine(Event(I2cWrite(adrs, data), o))
  {
  }

  lemma DecodesWrite(out: seq<byte>, at: nat)
    requires at < |out| && out[at] == CMD_I2C_WRITE
    ensures var n := |out| - at - 1;
      DecodeOne(out[at..]) ==
        if n < 2 || out[at + 2] > I2C_BUF_LEN || n - 2 < out[at + 2] then Cut
        else Taken(I2cWrite(out[at + 1], out[at + 3..at + 3 + out[at + 2]]), 3 + out[at + 2])
  {
    var p := out[at..];
    assert p[1..] == out[at + 1..];
    if |p| >= 3 && |p| - 3 >= p[2] {
      assert p[1..][2..2 + p[2]] == out[at + 3..at + 3 + p[2]];
    }
  }

  lemma StatusStep(p: seq<byte>, s: State, e: Event, status: seq<byte>)
    requires p != [] && p[0] == CMD_I2C_STATUS && e.cmd == I2cStatus
    requires status ==
      TwoBytes(s.readErrCnt) + TwoBytes(s.writeErrCnt)
      + TwoBytes(Wrap16(s.diag.berrRead)) + TwoBytes(Wrap16(s.diag.berrWrite))
      + TwoBytes(Wrap16(s.diag.timeoutRead)) + TwoBytes(Wrap16(s.diag.timeoutWrite))
    ensures DecodeOne(p) == Taken(I2cStatus, 1) && Genuine(e)
    ensures Exec(s, e) == s && Reply(s, e) == status && |status| == 12
  {
  }

  lemma PlainRegs(r: Regs, op: byte)
    ensures op == CMD_PORT_READ ==> forall o: Obs :: ExecRegs(r, Plain(op), o) == r
  {
  }

  // ---------- two packets in one ----------

  /** The bytes of two replies are handed over together as they would be one after the other. */
  predicate RepliesJoin(x: seq<byte>, y: seq<byte>) {
    var m, n := |x| % 256, |y| % 256;
    m + n < 256 && (|x| < 256 || x[m..m + n] == y[..n])
  }

  lemma CommittedJoins(x: seq<byte>, y: seq<byte>)
    ensures Committed(x + y) == Committed(x) + Committed(y) <==> RepliesJoin(x, y)
  {
    var m, n := |x| % 256, |y| % 256;
    if m + n < 256 {
      SumWraps(|x|, |y|);
      assert Committed(x + y) == (x + y)[..m + n];
      if |x| < 256 {
        assert (x + y)[..m + n] == x + y[..n];
      } else {
        assert (x + y)[..m + n] == x[..m] + x[m..m + n];
        assert (x[..m] + x[m..m + n])[m..] == x[m..m + n] && (x[..m] + y[..n])[m..] == y[..n];
      }
    } else {
      assert |Committed(x + y)| < 256 <= |Committed(x) + Committed(y)|;
    }
  }

  lemma SumWraps(a: nat, b: nat)
    requires a % 256 + b % 256 < 256
    ensures (a + b) % 256 == a % 256 + b % 256
  {
  }

  /** The device with a packet in its OUT buffer and nothing in the IN buffer. */
  function Given(d: Device, packet: seq<byte>): Device {
    Device(d.state, false, packet, false, [])
  }

  /**
   * A packet that is not cut short, with a second one behind it, does what the two do one after the
   * other, the first reply fetched in between; the replies are the same bytes exactly while ret_cnt
   * does not wrap around, or by chance.
   */
  lemma PacketsJoin(d: Device, a: seq<byte>, b: seq<byte>, ea: seq<Event>, eb: seq<Event>)
    requires !Decode(a).cut
    requires Polls(Given(d, a), ea) && Polls(Given(Poll(Given(d, a), ea), b), eb)
    ensures var first := Poll(Given(d, a), ea);
      var second, whole := Poll(Given(first, b), eb), Poll(Given(d, a + b), ea + eb);
      && Polls(Given(d, a + b), ea + eb)
      && whole.state == second.state
      && (whole.reply == first.reply + second.reply <==> RepliesJoin(Replies(d.state, ea), Replies(first.state, eb)))
  {
    hide Decode, Run, Replies, Genuine, Committed, RepliesJoin;
    DecodeConcat(a, b);
    RunConcat(d.state, ea, eb);
    CommittedJoins(Replies(d.state, ea), Replies(Run(d.state, ea), eb));
    assert Cmds(ea + eb) == Cmds(ea) + Cmds(eb);
  }
}
