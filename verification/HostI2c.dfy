/**
 * The driver's I2C adapter (src/akb_pcr20x.c:205-386) talking to the firmware: the whole tunnel,
 * from a list of messages to the frames on the bus and back.
 */
module HostI2c {
  import opened Bytes
  import opened I2cBus
  import opened I2cEngine
  import opened I2cTrace
  import opened Protocol
  import opened FirmwareLoop
  import opened BusLog
  import opened HostPackets
  import opened Errno

  /** What USB does with one request/reply exchange. */
  datatype Fault = Delivers | OutFails(code: errno) | InFails(code: errno)

  /** The result of an exchange whose packet reached the firmware and made it reply `reply`. */
  function Verdict(fault: Fault, rlen: nat, reply: seq<byte>): int {
    if rlen == 0 then 0
    else if fault.InFails? then fault.code
    else if reply == [] then ETIMEDOUT
    else if |reply| > rlen then EOVERFLOW
    else 0
  }

  /** USB did its part of an exchange. */
  predicate Carried(fault: Fault, rlen: nat) {
    !fault.OutFails? && (rlen > 0 ==> !fault.InFails?)
  }

  /** The commands of an I2C packet that the firmware executes: nothing, the write, or the write and the read. */
  lemma I2cEvents(events: seq<Event>, addr: byte, data: seq<byte>, rlen: byte)
    requires 1 <= |data| < 256 && Cmds(events) == Decode(I2cPacket(addr, data, rlen)).cmds
    ensures |events| ==
      if |data| > I2C_BUF_LEN then 0 else if rlen == 0 || rlen > I2C_BUF_LEN then 1 else 2
    ensures |events| > 0 ==> events[0].cmd == I2cWrite(addr, data)
    ensures |events| > 1 ==> events[1].cmd == I2cRead(addr, rlen)
  {
    hide Decode, I2cPacket;
    I2cPacketMeans(addr, data, rlen);
    assert |Cmds(events)| == |events|;
    assert |events| > 0 ==> Cmds(events)[0] == events[0].cmd;
    assert |events| > 1 ==> Cmds(events)[1] == events[1].cmd;
  }

  /** The reply to an I2C packet of the driver: nothing, or exactly the bytes asked for. */
  lemma I2cReply(s: State, events: seq<Event>, addr: byte, data: seq<byte>, rlen: byte)
    requires 1 <= |data| < 256
    requires Cmds(events) == Decode(I2cPacket(addr, data, rlen)).cmds && AllGenuine(events)
    ensures var reply := Replies(s, events);
      if |events| == 2 && events[1].obs.ok then
        events[1].cmd == I2cRead(addr, rlen) && reply == events[1].obs.data && 0 < |reply| == rlen <= I2C_BUF_LEN
      else reply == []
    ensures |events| <= 2 && (|events| == 2 ==> rlen > 0)
    ensures ReadsAnswered(events) == if |events| == 2 && events[1].obs.ok then 1 else 0
  {
    hide Decode, I2cPacket, Exec, ReadsAnswered, Replies;
    I2cEvents(events, addr, data, rlen);
    NoEvents(s);
    if |events| == 1 {
      OneEvent(s, [], events[0]);
      assert [] + [events[0]] == events;
    } else if |events| == 2 {
      OneEvent(s, [], events[0]);
      OneEvent(s, [events[0]], events[1]);
      assert [] + [events[0]] == [events[0]] && [events[0]] + [events[1]] == events;
      assert Genuine(events[1]);
    }
  }

  lemma OneEvent(s: State, events: seq<Event>, e: Event)
    ensures Replies(s, events + [e]) == Replies(s, events) + Reply(Run(s, events), e)
    ensures ReadsAnswered(events + [e]) == ReadsAnswered(events) + Answer(e)
  {
    hide Reply, Run;
    assert (events + [e])[..|events|] == events;
  }

  /** The frame a finished message stands for. */
  function OnTheWire(m: Msg): seq<Wire>
    requires m.addr < 256 && m.buf != []
  {
    if m.rd then ReadFrame(m.addr, m.buf, true) else WriteFrame(m.addr, m.buf)
  }

  /**
   * How a message of a successful transfer ends: a read was answered and its buffer holds the
   * bytes; a write left its message alone; and whatever the firmware's call reported as done is on
   * the wires as the message says.
   */
  ghost predicate Finished(before: Msg, after: Msg, e: Event)
    requires before.addr < 256 && before.len < 256
  {
    && e.cmd == Request(before)
    && after == (if before.rd then before.(buf := e.obs.data) else before)
    && (before.rd ==> e.obs.ok)
    && after.buf != []
    && (e.obs.ok ==> e.obs.frame == OnTheWire(after))
  }

  /** Every message before `n` is finished, message by message and command by command. */
  ghost predicate AllFinished(before: seq<Msg>, after: seq<Msg>, events: seq<Event>, n: nat)
    requires WellFormed(before) && |after| == |before|
  {
    && |events| == n <= |before|
    && forall k :: 0 <= k < n ==> Finished(before[k], after[k], events[k])
  }

  /** How many reads were executed and answered. */
  function ReadsAnswered(events: seq<Event>): nat {
    if events == [] then 0
    else ReadsAnswered(events[..|events| - 1]) + Answer(events[|events| - 1])
  }

  function Answer(e: Event): nat {
    if e.cmd.I2cRead? && e.obs.ok then 1 else 0
  }

  lemma {:induction false} ReadsAdd(a: seq<Event>, b: seq<Event>)
    ensures ReadsAnswered(a + b) == ReadsAnswered(a) + ReadsAnswered(b)
  {
    if b == [] {
      assert a + b == a;
    } else {
      ReadsAdd(a, b[..|b| - 1]);
      assert (a + b)[..|a + b| - 1] == a + b[..|b| - 1];
    }
  }

  /** The result of a transfer over a working USB, if so many reads were answered. */
  function Result(msgs: seq<Msg>, answered: nat): int
    requires Sized(msgs)
  {
    if answered < ReadsWanted(msgs, 0) then ETIMEDOUT
    else if Refusal(msgs, 0) < 0 then Refusal(msgs, 0)
    else |msgs|
  }

  /** Every message whose call answered TRUE is heard on the bus: its address, its direction, its bytes. */
  predicate AllHeard(msgs: seq<Msg>, events: seq<Event>) {
    |msgs| == |events| &&
    forall k :: 0 <= k < |msgs| && events[k].obs.ok ==>
      |events[k].obs.frame| >= 3 && Listen(events[k].obs.frame) == Talk(msgs[k].addr, msgs[k].rd, msgs[k].buf)
  }

  lemma FinishedIsHeard(before: seq<Msg>, after: seq<Msg>, events: seq<Event>)
    requires WellFormed(before) && |after| == |before| && AllFinished(before, after, events, |before|)
    ensures AllHeard(after, events)
  {
    hide ReadFrame, WriteFrame, Listen;
    forall k | 0 <= k < |after| && events[k].obs.ok
      ensures |events[k].obs.frame| >= 3
      ensures Listen(events[k].obs.frame) == Talk(after[k].addr, after[k].rd, after[k].buf)
    {
      assert Finished(before[k], after[k], events[k]);
      FramesOnWires(after[k].addr, after[k].buf);
      TalkIsHeard(OnTheWire(after[k]), after[k].addr, after[k].buf);
    }
  }

  /** Every byte of every read was in I2DAT while its call ran. */
  ghost predicate AllHeld(env: Env, trace: seq<Look>, before: seq<Msg>, after: seq<Msg>, events: seq<Event>)
  {
    && |before| == |after| == |events|
    && forall k, j :: 0 <= k < |before| && before[k].rd && 0 <= j < |after[k].buf| ==>
         ReadWithin(env, trace, events[k].obs, after[k].buf[j])
  }

  ghost predicate ReadWithin(env: Env, trace: seq<Look>, o: Obs, b: byte) {
    o.from < o.to <= |trace| && Held(env, b, Time(trace[..o.from]), Time(trace[..o.to]))
  }

  lemma FinishedIsHeld(env: Env, trace: seq<Look>, before: seq<Msg>, after: seq<Msg>, events: seq<Event>)
    requires WellFormed(before) && |after| == |before| && AllFinished(before, after, events, |before|)
    requires AllWitnessed(env, trace, events)
    ensures AllHeld(env, trace, before, after, events)
  {
    hide Witnessed, ReadFrame, WriteFrame, Held, WellFormed;
    forall k, j | 0 <= k < |before| && before[k].rd && 0 <= j < |after[k].buf|
      ensures ReadWithin(env, trace, events[k].obs, after[k].buf[j])
    {
      assert Finished(before[k], after[k], events[k]) && events[k] in events;
      FinishedReadIsHeld(env, trace, before[k], after[k], events[k], j);
    }
  }

  lemma FinishedReadIsHeld(env: Env, trace: seq<Look>, before: Msg, after: Msg, e: Event, j: nat)
    requires before.addr < 256 && before.len < 256 && before.rd && Finished(before, after, e)
    requires Witnessed(env, trace, e.obs) && j < |after.buf|
    ensures ReadWithin(env, trace, e.obs, after.buf[j])
  {
    ReadBytesWereHeld(env, trace, e.obs, after.addr);
  }

  predicate AllAnswered(events: seq<Event>) {
    forall e :: e in events && e.cmd.I2cRead? ==> e.obs.ok
  }

  /** The last thing executed was a read that nobody answered. */
  predicate EndsUnanswered(events: seq<Event>) {
    events != [] && events[|events| - 1].cmd.I2cRead? && !events[|events| - 1].obs.ok
  }

  /** The result of a transfer whose reads are all answered: a matter of the list alone. */
  function Expected(msgs: seq<Msg>): int
    requires Sized(msgs)
  {
    if !PairsFit(msgs, 0) then ETIMEDOUT
    else if Refusal(msgs, 0) < 0 then Refusal(msgs, 0)
    else |msgs|
  }

  /** What a transfer over a working USB comes to. */
  predicate Outcome(msgs: seq<Msg>, ret: int, events: seq<Event>)
    requires Sized(msgs)
  {
    && ret == Result(msgs, ReadsAnswered(events))
    && Cmds(events) <= Requests(msgs, 0)
    && if AllAnswered(events)
       then ret == Expected(msgs) && Cmds(events) == Executes(msgs, 0)
            && (PairsFit(msgs, 0) ==> Cmds(events) == Requests(msgs, 0))
       else ret == -110 && EndsUnanswered(events)
  }

  /** Nothing but buffers of read messages among the first n has changed. */
  predicate Kept(before: seq<Msg>, after: seq<Msg>, n: nat) {
    && |after| == |before|
    && forall k :: 0 <= k < |before| ==>
         after[k] == before[k] || (k < n && before[k].rd && after[k] == before[k].(buf := after[k].buf))
  }

  lemma NothingChanged(msgs: seq<Msg>, n: nat)
    ensures Kept(msgs, msgs, n)
  {
  }

  lemma KeptOn(a: seq<Msg>, b: seq<Msg>, c: seq<Msg>, n: nat)
    requires Kept(a, b, n) && Kept(b, c, n)
    ensures Kept(a, c, n)
  {
  }

  class Adapter {
    const fw: Firmware
    const wbuf: array<byte>
    const rbuf: array<byte>
    const fault: nat -> Fault   // what USB does, exchange by exchange
    var transfers: nat

    ghost predicate Valid()
      reads this, fw, fw.i2c
    {
      && wbuf.Length == MAX_I2C_BUFFER_SIZE && rbuf.Length == MAX_I2C_BUFFER_SIZE
      && wbuf != rbuf && fw.i2cbf != wbuf && fw.i2cbf != rbuf
      && fw.Valid()
    }

    /** No packet and no reply is waiting in the device. */
    ghost predicate Quiet()
      reads fw
    {
      fw.outBusy && !fw.inBusy
    }

    constructor (fw: Firmware, fault: nat -> Fault)
      requires fw.Valid()
      ensures Valid() && this.fw == fw && this.fault == fault
      ensures fresh(wbuf) && fresh(rbuf)
    {
      this.fw, this.fault, transfers := fw, fault, 0;
      wbuf := new byte[MAX_I2C_BUFFER_SIZE];
      rbuf := new byte[MAX_I2C_BUFFER_SIZE];
    }

    /** The packet arrives and the firmware polls. */
    method Deliver(wlen: nat) returns (ghost events: seq<Event>)
      requires Valid() && Quiet() && wlen <= wbuf.Length
      modifies fw, fw.i2c, fw.i2cbf
      ensures old(fw.i2c.trace) <= fw.i2c.trace
      ensures Valid() && fw.outBusy
      ensures fw.history == old(fw.history) + events && AllGenuine(events)
      ensures fw.Now() == Run(old(fw.Now()), events) && Cmds(events) == Decode(old(wbuf[..wlen])).cmds
      ensures fw.View().reply == Committed(Replies(old(fw.Now()), events)) && fw.inBusy == (fw.View().reply != [])
      ensures AllConform(fw.i2c.env, events)
    {
      hide Run, Replies, Decode, Genuine, Conforms;
      var taken := fw.HostSend(wbuf[..wlen]);
      fw.MainLoop();
      events := fw.Since(|old(fw.history)|);
    }

    /** The host takes the reply; the firmware polls again and finds nothing to do. */
    method TakeReply() returns (got: bool, reply: seq<byte>)
      requires Valid() && fw.outBusy
      modifies fw, fw.i2c, fw.i2cbf
      ensures old(fw.i2c.trace) <= fw.i2c.trace
      ensures Valid() && Quiet()
      ensures got == old(fw.inBusy) && reply == old(fw.View()).reply
      ensures fw.history == old(fw.history) && fw.Now() == old(fw.Now())
    {
      hide Run, Replies, Decode, Genuine, Conforms;
      got, reply := fw.HostReceive();
      fw.MainLoop();
      assert fw.history == fw.history[..|old(fw.history)|] + fw.Since(|old(fw.history)|);
      assert fw.View().state == fw.Now();
    }

    /**
     * dvb_usbv2_generic_rw: one packet out and, if rlen is not zero, one reply in.  The firmware
     * runs on its own; what matters here is that it polls after the packet arrived and again after
     * the reply was fetched.
     */
    method GenericRw(wlen: nat, rlen: nat) returns (ret: int, ghost events: seq<Event>)
      requires Valid() && Quiet() && wlen <= wbuf.Length && rlen <= rbuf.Length
      modifies this`transfers, fw, fw.i2c, fw.i2cbf, rbuf
      ensures old(fw.i2c.trace) <= fw.i2c.trace
      ensures Valid() && transfers == old(transfers) + 1
      ensures fw.history == old(fw.history) + events && AllGenuine(events)
      ensures fw.Now() == Run(old(fw.Now()), events)
      ensures AllConform(fw.i2c.env, events)
      ensures fault(old(transfers)).OutFails? ==> events == [] && ret == fault(old(transfers)).code
      ensures !fault(old(transfers)).OutFails? ==>
        var reply := Committed(Replies(old(fw.Now()), events));
        && Cmds(events) == Decode(wbuf[..wlen]).cmds
        && ret == Verdict(fault(old(transfers)), rlen, reply)
        && (ret == 0 && rlen > 0 ==> rbuf[..|reply|] == reply && Quiet())
        && (rlen == 0 && reply == [] ==> Quiet())
        && (rlen > 0 && fault(old(transfers)).Delivers? ==> Quiet())
    {
      hide Run, Replies, Decode, Genuine, Conforms, Committed;
      var f := fault(transfers);
      transfers := transfers + 1;
      if f.OutFails? {
        NoEvents(fw.Now());
        return f.code, [];
      }
      events := Deliver(wlen);
      if rlen == 0 {
        return 0, events;
      }
      if f.InFails? {
        return f.code, events;
      }
      var got, reply := TakeReply();
      if !got {
        return ETIMEDOUT, events;
      }
      if |reply| > rlen {
        return EOVERFLOW, events;
      }
      forall k | 0 <= k < |reply| {
        rbuf[k] := reply[k];
      }
      assert rbuf[..|reply|] == reply;
      assert wbuf[..wlen] == old(wbuf[..wlen]);
      ret := 0;
    }

    /** wbuf = [0x61, addr, len, data...] and, if rlen is not zero, [0x60, addr, rlen] behind it. */
    method Fill(m: Msg, rlen: byte) returns (wlen: nat)
      requires Valid() && |m.buf| == m.len < 256 && m.addr < 256
      requires 3 + m.len + (if rlen == 0 then 0 else 3) <= MAX_I2C_BUFFER_SIZE
      modifies wbuf
      ensures wlen <= wbuf.Length && wbuf[..wlen] == I2cPacket(m.addr, m.buf, rlen)
    {
      var len := m.len;
      wbuf[0], wbuf[1], wbuf[2] := CMD_I2C_WRITE, m.addr, len;
      forall k | 0 <= k < len {
        wbuf[3 + k] := m.buf[k];
      }
      wlen := 3 + len;
      assert wbuf[..wlen] == WritePart(m.addr, m.buf);
      if rlen != 0 {
        wbuf[3 + len], wbuf[4 + len], wbuf[5 + len] := CMD_I2C_READ, wbuf[1], rlen;
        wlen := 3 + len + 3;
        assert wbuf[..3 + len] == WritePart(m.addr, m.buf);
        assert wbuf[..wlen] == wbuf[..3 + len] + [CMD_I2C_READ, m.addr, rlen];
      }
    }

    /** What one exchange leaves behind when nothing went wrong in it. */
    ghost predicate Answered(events: seq<Event>, rlen: nat)
      requires rlen <= rbuf.Length
      reads this, fw, fw.i2c, rbuf
    {
      Quiet() && (rlen > 0 ==> |events| == 2 && events[1].obs.ok && rbuf[..rlen] == events[1].obs.data)
    }

    /**
     * One packet for the message at hand.  It succeeds exactly if USB did its part and the read, if
     * any, was answered.
     */
    method Exchange(m: Msg, rlen: byte) returns (ret: int, ghost events: seq<Event>)
      requires Valid() && Quiet() && 1 <= |m.buf| == m.len < 256 && m.addr < 256
      requires 3 + m.len + (if rlen == 0 then 0 else 3) <= MAX_I2C_BUFFER_SIZE && rlen <= MAX_I2C_BUFFER_SIZE
      modifies this`transfers, wbuf, rbuf, fw, fw.i2c, fw.i2cbf
      ensures old(fw.i2c.trace) <= fw.i2c.trace
      ensures Valid() && transfers == old(transfers) + 1
      ensures fw.history == old(fw.history) + events && AllGenuine(events)
      ensures fw.Now() == Run(old(fw.Now()), events)
      ensures Cmds(events) <= Decode(I2cPacket(m.addr, m.buf, rlen)).cmds
      ensures ret <= 0
      ensures ret == 0 <==> Carried(fault(old(transfers)), rlen) && (rlen > 0 ==> ReadsAnswered(events) == 1)
      ensures ReadsAnswered(events) <= 1 && (rlen == 0 ==> ReadsAnswered(events) == 0)
      ensures ret != 0 && fault(old(transfers)).Delivers? ==> ret == ETIMEDOUT
      ensures ret == 0 ==> Answered(events, rlen)
      ensures fault(old(transfers)).Delivers? ==> Quiet()
      ensures !fault(old(transfers)).OutFails? ==> Cmds(events) == Decode(I2cPacket(m.addr, m.buf, rlen)).cmds
      ensures AllConform(fw.i2c.env, events)
    {
      hide Run, Replies, Decode, Genuine, Conforms, AllGenuine, I2cPacket;
      var wlen := Fill(m, rlen);
      ret, events := GenericRw(wlen, rlen);
      if !fault(old(transfers)).OutFails? {
        I2cReply(old(fw.Now()), events, m.addr, m.buf, rlen);
      }
    }

    /** One round of the loop in akb_pcr20x_i2c_xfer, for the message at i. */
    method TransferOne(msgs: array<Msg>, num: nat, i: nat) returns (ret: int, consumed: nat, ghost events: seq<Event>)
      requires Valid() && Quiet() && i < num <= msgs.Length && Sized(msgs[..num])
      modifies this`transfers, wbuf, rbuf, fw, fw.i2c, fw.i2cbf, msgs
      ensures old(fw.i2c.trace) <= fw.i2c.trace
      ensures Kept(old(msgs[..]), msgs[..], num)
      ensures Valid() && old(transfers) <= transfers
      ensures fw.history == old(fw.history) + events && AllGenuine(events)
      ensures fw.Now() == Run(old(fw.Now()), events)
      ensures AllConform(fw.i2c.env, events)
      ensures transfers == old(transfers) ==> Quiet()
      ensures var plan := PlanOne(old(msgs[..num]), i);
        && (plan.Refuse? ==> ret == plan.code && events == [] && transfers == old(transfers))
        && (plan.Transfer? ==>
              && consumed == plan.consumed && ret <= 0 && transfers == old(transfers) + 1
              && Cmds(events) <= Decode(plan.packet).cmds
              && (!fault(old(transfers)).OutFails? ==> Cmds(events) == Decode(plan.packet).cmds)
              && (ret == 0 <==> Carried(fault(old(transfers)), plan.rlen)
                                && (plan.rlen > 0 ==> ReadsAnswered(events) == 1))
              && ReadsAnswered(events) <= (if plan.rlen > 0 then 1 else 0)
              && (ret != 0 && fault(old(transfers)).Delivers? ==> ret == ETIMEDOUT)
              && (fault(old(transfers)).Delivers? ==> Quiet())
              && (ret == 0 ==> Quiet() && Cmds(events) == Decode(plan.packet).cmds
                               && (consumed == 2 ==> |events| == 2 && events[1].obs.ok)))
      ensures msgs[..num] ==
        if ret == 0 && consumed == 2 then
          old(msgs[..num])[i + 1 := old(msgs[i + 1]).(buf := events[1].obs.data)]
        else old(msgs[..num])
      ensures Sized(msgs[..num])
    {
      hide Run, Replies, Decode, Genuine, Conforms, AllGenuine, I2cPacket;
      NoEvents(fw.Now());
      events, consumed := [], 0;
      var m := msgs[i];
      if m.len == 0 || m.len > 255 {
        return EOPNOTSUPP, 0, [];
      }
      if m.addr > 255 || m.ten {
        return EOPNOTSUPP, 0, [];
      }
      if m.rd {
        return EOPNOTSUPP, 0, [];
      }
      if i + 1 < num && msgs[i + 1].rd && m.addr == msgs[i + 1].addr {
        var rlen := msgs[i + 1].len;
        if rlen == 0 || rlen > 255 {
          return EOPNOTSUPP, 0, [];
        }
        if rlen > MAX_I2C_BUFFER_SIZE {
          return EINVAL, 0, [];
        }
        if 3 + m.len + 3 > MAX_I2C_BUFFER_SIZE {
          return EINVAL, 0, [];
        }
        ret, events := Exchange(m, rlen);
        consumed := 2;
        if ret == 0 {
          msgs[i + 1] := msgs[i + 1].(buf := rbuf[..rlen]);
        }
      } else {
        if 3 + m.len > MAX_I2C_BUFFER_SIZE {
          return EINVAL, 0, [];
        }
        ret, events := Exchange(m, 0);
        consumed := 1;
      }
    }

    /** USB delivered everything in the exchanges from number `first` up to now. */
    ghost predicate AllDelivered(first: nat)
      reads this
    {
      forall t :: first <= t < transfers ==> fault(t).Delivers?
    }

    /**
     * akb_pcr20x_i2c_xfer: the tunnel from end to end.
     *
     * For any list of messages, what reaches the I2C engine is a prefix of what the list asks for,
     * all of it if the transfer succeeds.  For a well-formed list a successful transfer finishes
     * every message in order.  Over a working USB the result of any list is known: the transfer
     * succeeds exactly if no message was refused and all its reads were answered.  A write that the
     * slave refused or the firmware dropped shows nowhere in it.
     */
    method I2cXfer(msgs: array<Msg>, num: nat, interrupted: bool) returns (ret: int, ghost events: seq<Event>)
      requires Valid() && Quiet() && num <= msgs.Length && Sized(msgs[..num])
      modifies this`transfers, wbuf, rbuf, fw, fw.i2c, fw.i2cbf, msgs
      ensures old(fw.i2c.trace) <= fw.i2c.trace
      ensures Kept(old(msgs[..]), msgs[..], num)
      ensures Valid()
      ensures fw.history == old(fw.history) + events && AllGenuine(events)
      ensures fw.Now() == Run(old(fw.Now()), events)
      ensures ret == num || ret < 0
      ensures interrupted ==> ret == -512 && events == []
      ensures Cmds(events) <= Requests(old(msgs[..num]), 0)
      ensures ret == num ==> Quiet() && Cmds(events) == Requests(old(msgs[..num]), 0)
      ensures WellFormed(old(msgs[..num])) && ret == num ==>
        AllFinished(old(msgs[..num]), msgs[..num], events, num)
      ensures AllDelivered(old(transfers)) ==> Quiet()
      ensures !interrupted && AllDelivered(old(transfers)) ==> Outcome(old(msgs[..num]), ret, events)
      ensures !interrupted && AllDelivered(old(transfers)) && WellFormed(old(msgs[..num])) && ret != num ==>
        ret == ETIMEDOUT && EndsUnanswered(events)
      ensures !interrupted && AllDelivered(old(transfers)) && Flawless(fw.i2c.env) ==>
        (ret == num <==> Refusal(old(msgs[..num]), 0) == 0 && PairsFit(old(msgs[..num]), 0))
      ensures AllConform(fw.i2c.env, events)
      ensures OnTheBus(|old(fw.i2c.trace)|, events)
      ensures WellFormed(old(msgs[..num])) && ret == num ==> AllHeard(msgs[..num], events)
      ensures WellFormed(old(msgs[..num])) && ret == num ==>
        AllHeld(fw.i2c.env, fw.i2c.trace, old(msgs[..num]), msgs[..num], events)
    {
      hide Run, Conforms, AllGenuine, AllConform, PlanOne, Requests, WellFormed, AllFinished, Cmds, Ahead, Outcome,
        Refusal, PairsFit, Underway, OnTheBus, AllHeld, AllHeard, Kept, I2cMaster.Anchored, OnBus, End;
      ghost var ms, h0, s0, t0 := msgs[..num], fw.history, fw.Now(), fw.i2c.trace;
      events := [];
      NothingChanged(msgs[..], num);
      StartOfTransfer(fw.i2c.env, s0, ms);
      Starts(msgs, num);
      if interrupted {
        assert h0 + events == h0;
        PutOnTheBus(h0, t0, events);
        return ERESTARTSYS, [];
      }
      var i := 0;
      while i < num
        invariant 0 <= i <= num && Underway(msgs, num, i, ms, events, h0, s0)
        invariant old(fw.i2c.trace) <= fw.i2c.trace
        invariant Kept(old(msgs[..]), msgs[..], num)
        invariant old(transfers) <= transfers
      {
        var consumed;
        ghost var before := msgs[..];
        ret, consumed, events := Round(msgs, num, i, ms, events, h0, s0);
        KeptOn(old(msgs[..]), before, msgs[..], num);
        if ret < 0 {
          Concluded(ms, ret, events, fw.i2c.env);
          PutOnTheBus(h0, t0, events);
          return;
        }
        i := i + consumed;
      }
      Arrives(msgs, num, ms, events, h0, s0);
      Concluded(ms, num, events, fw.i2c.env);
      PutOnTheBus(h0, t0, events);
      if WellFormed(ms) {
        FinishedIsHeld(fw.i2c.env, fw.i2c.trace, ms, msgs[..num], events);
        FinishedIsHeard(ms, msgs[..num], events);
      }
      ret := num;
    }

    /**
     * What the events say happened on the bus, and nothing else since the trace had `start` looks:
     * their calls follow each other without a gap, each is the state of the bus when it returned,
     * and the environment is witness to it.
     */
    ghost predicate OnTheBus(start: nat, events: seq<Event>)
      reads fw, fw.i2c
    {
      && OnBus(fw.i2c.trace, start, events) && End(start, events) == |fw.i2c.trace|
      && AllWitnessed(fw.i2c.env, fw.i2c.trace, events)
    }

    lemma PutOnTheBus(h0: seq<Event>, t0: seq<Look>, events: seq<Event>)
      requires fw.Valid() && fw.history == h0 + events && End(0, h0) == |t0|
      ensures OnTheBus(|t0|, events) && AllWitnessed(fw.i2c.env, fw.i2c.trace, events)
    {
      hide OnBus, End;
      OnBusSplits(fw.i2c.trace, 0, h0, events);
      fw.i2c.TraceTells();
      OnBusIsWitnessed(fw.i2c.env, fw.i2c.trace, |t0|, events);
    }

    /**
     * The transfer stands at message i; `ms`, `h0` and `s0` are the list, the history and the state
     * at its start.
     */
    ghost predicate Underway(msgs: array<Msg>, num: nat, i: nat, ms: seq<Msg>, events: seq<Event>,
                             h0: seq<Event>, s0: State)
      reads this, fw, fw.i2c, msgs
    {
      && Valid() && Quiet()
      && i <= num == |ms| && num <= msgs.Length && Sized(ms)
      && Sized(msgs[..num]) && msgs[i..num] == ms[i..]
      && fw.history == h0 + events && fw.Now() == Run(s0, events)
      && AllGenuine(events) && AllConform(fw.i2c.env, events)
      && Ahead(ms, i, events)
      && (WellFormed(ms) ==> (i < num ==> !ms[i].rd) && AllFinished(ms, msgs[..num], events, i))
    }

    lemma Starts(msgs: array<Msg>, num: nat)
      requires Valid() && Quiet() && num <= msgs.Length && Sized(msgs[..num])
      ensures Underway(msgs, num, 0, msgs[..num], [], fw.history, fw.Now())
    {
      StartOfTransfer(fw.i2c.env, fw.Now(), msgs[..num]);
      hide Run, AllGenuine, AllConform, WellFormed, AllFinished, Ahead;
      assert fw.history + [] == fw.history;
    }

    lemma Arrives(msgs: array<Msg>, num: nat, ms: seq<Msg>, events: seq<Event>, h0: seq<Event>, s0: State)
      requires Underway(msgs, num, num, ms, events, h0, s0)
      ensures Valid() && Quiet() && Sized(ms) && |ms| == num <= msgs.Length
      ensures fw.history == h0 + events && fw.Now() == Run(s0, events)
      ensures AllGenuine(events) && AllConform(fw.i2c.env, events)
      ensures Cmds(events) == Requests(ms, 0) && Outcome(ms, num, events)
      ensures WellFormed(ms) ==> AllFinished(ms, msgs[..num], events, num)
    {
      hide Run, AllGenuine, AllConform, Cmds, Ahead, Outcome, WellFormed, AllFinished, Requests;
      Ends(ms, events);
    }

    /** One round of the loop, with what it means for the whole transfer. */
    method Round(msgs: array<Msg>, num: nat, i: nat, ghost ms: seq<Msg>, ghost events: seq<Event>,
                 ghost h0: seq<Event>, ghost s0: State)
      returns (ret: int, consumed: nat, ghost all: seq<Event>)
      requires Underway(msgs, num, i, ms, events, h0, s0) && i < num
      modifies this`transfers, wbuf, rbuf, fw, fw.i2c, fw.i2cbf, msgs
      ensures old(fw.i2c.trace) <= fw.i2c.trace
      ensures Kept(old(msgs[..]), msgs[..], num)
      ensures old(transfers) <= transfers
      ensures ret >= 0 ==> 1 <= consumed <= num - i && Underway(msgs, num, i + consumed, ms, all, h0, s0)
      ensures ret < 0 ==>
        && Valid() && Sized(ms)
        && fw.history == h0 + all && fw.Now() == Run(s0, all)
        && AllGenuine(all) && AllConform(fw.i2c.env, all) && Cmds(all) <= Requests(ms, 0)
        && (AllDelivered(old(transfers)) ==> Quiet() && Outcome(ms, ret, all))
    {
      hide Run, Decode, Genuine, Conforms, AllGenuine, PlanOne, Requests, WellFormed, AllFinished, Cmds, ReadsAnswered,
        Ahead, Outcome, AllConform, Kept, PairsFit, Refusal, OnBus, End, I2cMaster.Anchored;
      ghost var now := msgs[..num];
      ghost var more;
      ret, consumed, more := TransferOne(msgs, num, i);
      SamePlan(ms, now, i);
      EventsConcat(fw.i2c.env, s0, events, more);
      all := events + more;
      if ret < 0 {
        Stops(ms, i, events, more, ret);
        assert AllDelivered(old(transfers)) && transfers > old(transfers) ==> fault(old(transfers)).Delivers?;
        return;
      }
      GoesOn(ms, i, events, more);
      if WellFormed(ms) {
        WellFormedPlan(ms, i);
        MoreFinished(ms, now, msgs[..num], events, more, i);
      }
    }
  }

  lemma StartOfTransfer(env: Env, s: State, msgs: seq<Msg>)
    requires Sized(msgs)
    ensures Run(s, []) == s && AllGenuine([]) && AllConform(env, []) && Cmds([]) == [] && ReadsAnswered([]) == 0
    ensures WellFormed(msgs) ==> (|msgs| > 0 ==> !msgs[0].rd) && AllFinished(msgs, msgs, [], 0)
    ensures Ahead(msgs, 0, [])
  {
    hide Requests, Refusal, ReadsWanted;
    assert WellFormed(msgs) && |msgs| > 0 ==> Paired(msgs, 0);
  }

  lemma SamePlan(a: seq<Msg>, b: seq<Msg>, i: nat)
    requires Sized(a) && Sized(b) && |a| == |b| && i < |a| && a[i..] == b[i..]
    ensures PlanOne(a, i) == PlanOne(b, i)
  {
  }

  lemma EventsConcat(env: Env, s: State, a: seq<Event>, b: seq<Event>)
    ensures Run(s, a + b) == Run(Run(s, a), b)
    ensures AllGenuine(a) && AllGenuine(b) ==> AllGenuine(a + b)
    ensures AllConform(env, a) && AllConform(env, b) ==> AllConform(env, a + b)
    ensures Cmds(a + b) == Cmds(a) + Cmds(b)
  {
    hide Exec, Reply, Genuine, Run, Replies;
    RunConcat(s, a, b);
  }

  /** The first i messages of a list are dealt with by `events`. */
  predicate Ahead(msgs: seq<Msg>, i: nat, events: seq<Event>)
    requires i <= |msgs| && Sized(msgs)
  {
    && Requests(msgs, 0) == Cmds(events) + Requests(msgs, i)
    && Refusal(msgs, 0) == Refusal(msgs, i)
    && ReadsWanted(msgs, 0) == ReadsAnswered(events) + ReadsWanted(msgs, i)
    && PairsFit(msgs, 0) == PairsFit(msgs, i)
    && Executes(msgs, 0) == Cmds(events) + Executes(msgs, i)
    && AllAnswered(events)
  }

  /** What the events of one packet say about its read. */
  lemma PacketEvents(msgs: seq<Msg>, i: nat, more: seq<Event>)
    requires Sized(msgs) && i < |msgs| && PlanOne(msgs, i).Transfer?
    requires Cmds(more) == Decode(PlanOne(msgs, i).packet).cmds
    ensures var rlen := PlanOne(msgs, i).rlen;
      var fits := msgs[i].len <= I2C_BUF_LEN && rlen <= I2C_BUF_LEN;
      && (rlen == 0 ==> AllAnswered(more))
      && (rlen > 0 && ReadsAnswered(more) > 0 ==> fits && AllAnswered(more))
      && (rlen > 0 && ReadsAnswered(more) == 0 && fits ==> EndsUnanswered(more) && !AllAnswered(more))
      && (rlen > 0 && !fits ==>
            && AllAnswered(more)
            && Cmds(more) == if msgs[i].len > I2C_BUF_LEN then [] else [I2cWrite(msgs[i].addr, msgs[i].buf)])
  {
    var m := msgs[i];
    hide Decode, I2cPacket, ReadsAnswered, AllAnswered;
    I2cEvents(more, m.addr, m.buf, PlanOne(msgs, i).rlen);
    assert |more| == |Cmds(more)|;
    if |more| == 0 {
      NothingRead(more);
    } else if |more| == 1 {
      NothingRead(more);
      assert Cmds(more)[0] == more[0].cmd;
    } else {
      WriteAndRead(more);
    }
  }

  lemma NothingRead(more: seq<Event>)
    requires |more| <= 1 && forall e :: e in more ==> !e.cmd.I2cRead?
    ensures AllAnswered(more) && ReadsAnswered(more) == 0
  {
  }

  lemma WriteAndRead(more: seq<Event>)
    requires |more| == 2 && more[0].cmd.I2cWrite? && more[1].cmd.I2cRead?
    ensures AllAnswered(more) <==> more[1].obs.ok
    ensures ReadsAnswered(more) == Answer(more[1])
  {
    ReadsAdd([more[0]], [more[1]]);
    assert [more[0]] + [more[1]] == more && [more[0]][..0] == [more[1]][..0] == [];
    assert more[1] in more;
  }

  lemma GoesOn(msgs: seq<Msg>, i: nat, events: seq<Event>, more: seq<Event>)
    requires Sized(msgs) && i < |msgs| && Ahead(msgs, i, events)
    requires var plan := PlanOne(msgs, i);
      plan.Transfer? && Cmds(more) == Decode(plan.packet).cmds && ReadsAnswered(more) == if plan.rlen > 0 then 1 else 0
    ensures Ahead(msgs, i + PlanOne(msgs, i).consumed, events + more)
  {
    hide Decode, PlanOne, ReadsAnswered, Cmds;
    CmdsAdd(events, more);
    ReadsAdd(events, more);
    PacketEvents(msgs, i, more);
  }

  /** The message at i is refused, or its packet did not get through or not all of it was answered. */
  lemma Stops(msgs: seq<Msg>, i: nat, events: seq<Event>, more: seq<Event>, ret: int)
    requires Sized(msgs) && i < |msgs| && Ahead(msgs, i, events)
    requires match PlanOne(msgs, i)
             case Refuse(code) => ret == code && more == []
             case Transfer(packet, rlen, _) => Cmds(more) <= Decode(packet).cmds
    ensures Cmds(events + more) <= Requests(msgs, 0)
    ensures PlanOne(msgs, i).Refuse? ==> Outcome(msgs, ret, events + more)
    ensures var plan := PlanOne(msgs, i);
      plan.Transfer? && plan.rlen > 0 && ReadsAnswered(more) == 0 && Cmds(more) == Decode(plan.packet).cmds ==>
        Outcome(msgs, ETIMEDOUT, events + more)
  {
    hide Decode, PlanOne, ReadsAnswered, Cmds;
    CmdsAdd(events, more);
    ReadsAdd(events, more);
    var plan := PlanOne(msgs, i);
    if plan.Refuse? {
      assert events + more == events;
    } else if plan.rlen > 0 && ReadsAnswered(more) == 0 && Cmds(more) == Decode(plan.packet).cmds {
      PacketEvents(msgs, i, more);
      assert forall e :: e in more ==> e in events + more;
    }
  }

  lemma Ends(msgs: seq<Msg>, events: seq<Event>)
    requires Sized(msgs) && Ahead(msgs, |msgs|, events)
    ensures Cmds(events) == Requests(msgs, 0) && Outcome(msgs, |msgs|, events)
  {
  }

  /** The two cases a caller can tell in advance. */
  lemma Concluded(msgs: seq<Msg>, ret: int, events: seq<Event>, env: Env)
    requires Sized(msgs) && AllConform(env, events)
    ensures Outcome(msgs, ret, events) && WellFormed(msgs) && ret != |msgs| ==>
      ret == ETIMEDOUT && EndsUnanswered(events)
    ensures Outcome(msgs, ret, events) && Flawless(env) ==>
      (ret == |msgs| <==> Refusal(msgs, 0) == 0 && PairsFit(msgs, 0))
  {
    hide Requests, Refusal, PairsFit, ReadsWanted, ReadsAnswered, Cmds, Flawless;
    if WellFormed(msgs) {
      assert |msgs| > 0 ==> Paired(msgs, 0);
      WellFormedRequests(msgs, 0);
    }
  }

  lemma CmdsAdd(a: seq<Event>, b: seq<Event>)
    ensures Cmds(a + b) == Cmds(a) + Cmds(b)
  {
  }

  lemma MoreFinished(msgs: seq<Msg>, before: seq<Msg>, after: seq<Msg>, events: seq<Event>, more: seq<Event>, i: nat)
    requires WellFormed(msgs) && i < |msgs| == |before| && PlanOne(msgs, i).Transfer?
    requires AllFinished(msgs, before, events, i) && before[i..] == msgs[i..]
    requires Cmds(more) == Asked(msgs, i, PlanOne(msgs, i).consumed) && AllGenuine(more)
    requires !msgs[i].rd
    requires PlanOne(msgs, i).consumed == 2 ==> msgs[i + 1].rd && |more| == 2 && more[1].obs.ok
    requires after ==
      if PlanOne(msgs, i).consumed == 2 then before[i + 1 := before[i + 1].(buf := more[1].obs.data)] else before
    ensures AllFinished(msgs, after, events + more, i + PlanOne(msgs, i).consumed)
  {
    var n := PlanOne(msgs, i).consumed;
    hide PlanOne;
    assert |Cmds(more)| == |more| == n;
    forall k | 0 <= k < n ensures Finished(msgs[i + k], after[i + k], more[k]) {
      assert before[i + k] == before[i..][k] == msgs[i + k];
      assert more[k].cmd == Cmds(more)[k] == Request(msgs[i + k]);
      assert Genuine(more[k]);
    }
    forall k | 0 <= k < i + n ensures Finished(msgs[k], after[k], (events + more)[k]) {
      if k >= i {
        assert Finished(msgs[i + (k - i)], after[i + (k - i)], more[k - i]);
      }
    }
  }

  lemma NoEvents(s: State)
    ensures Run(s, []) == s && Replies(s, []) == [] && AllGenuine([]) && ReadsAnswered([]) == 0
  {
  }
}
