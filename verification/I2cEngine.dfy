/** The bounded-retry bus engine of the firmware (fw/i2c.c). */
module I2cEngine {
  import opened Bytes
  import opened I2cBus
  import opened I2cTrace

  const BERR_MAX_RETRY: nat := 20
  const WAIT_LIMIT: nat := 60000

  /** The four diagnostic counters of the engine: exact numbers, or their 16-bit images. */
  datatype Diag = Diag(berrRead: nat, berrWrite: nat, timeoutRead: nat, timeoutWrite: nat)
  {
    function Add(reading: bool, berrs: nat, timeouts: nat): Diag {
      if reading then this.(berrRead := berrRead + berrs, timeoutRead := timeoutRead + timeouts)
      else this.(berrWrite := berrWrite + berrs, timeoutWrite := timeoutWrite + timeouts)
    }

    function Wrapped(): Diag {
      Diag(Wrap16(berrRead), Wrap16(berrWrite), Wrap16(timeoutRead), Wrap16(timeoutWrite))
    }
  }

  lemma WrappedAdd(exact: Diag, reading: bool, berrs: nat, timeouts: nat)
    ensures exact.Wrapped().Add(reading, berrs, timeouts).Wrapped() == exact.Add(reading, berrs, timeouts).Wrapped()
  {
    WrapOnce(if reading then exact.berrRead else exact.berrWrite, berrs);
    WrapOnce(if reading then exact.timeoutRead else exact.timeoutWrite, timeouts);
    WrapOnce(if reading then exact.berrWrite else exact.berrRead, 0);
    WrapOnce(if reading then exact.timeoutWrite else exact.timeoutRead, 0);
    hide Wrap16;
  }

  /** What follows a step of an attempt: the next one, a fresh attempt, or FALSE. */
  datatype Step = Go | Again | Fail

  class I2cMaster {
    const env: Env
    var now: nat          // advances with every look at the outside world
    var cancel: bool      // cancel_i2c_trans: raised by interrupts, lowered only at the start of a call
    ghost var bus: Bus    // what the accesses so far did on the wires

    ghost var trace: seq<Look>
    ghost var lowered: nat  // when cancel was lowered last
    ghost var started: nat  // when the last START was requested

    var diag: Diag        // the 16-bit counters
    ghost var exact: Diag // what they would be without wrap-around

    constructor (env: Env)
      ensures this.env == env && trace == [] && bus == PowerUp() && exact == Diag(0, 0, 0, 0) && Valid()
    {
      this.env := env;
      now, bus, cancel := 0, PowerUp(), false;
      trace, lowered, started := [], 0, 0;
      diag, exact := Diag(0, 0, 0, 0), Diag(0, 0, 0, 0);
    }

    /** Nothing is made up: bus and cancel come from a trace whose every answer is the environment's. */
    ghost predicate Anchored()
      reads this`now, this`cancel, this`bus, this`trace, this`lowered, this`started
    {
      && Honest(env, trace) && now == Time(trace)
      && bus == Replay(trace) && cancel == Cancelled(trace)
      && lowered == LoweredAt(trace) && started == StartedAt(trace)
    }

    ghost predicate Valid()
      reads this
    {
      Anchored() && diag == exact.Wrapped()
    }

    /** No byte in flight, none waiting to be fetched, no bus error since the last START. */
    ghost predicate Ready()
      reads this`bus
    {
      bus.phase == Checked && bus.incoming == Nothing && !bus.stopping
    }

    lemma TraceTells()
      requires Valid()
      ensures Honest(env, trace) && now == Time(trace)
      ensures bus == Replay(trace) && cancel == Cancelled(trace)
      ensures lowered == LoweredAt(trace) && started == StartedAt(trace)
    {
    }

    /** What that means for a caller who does not know the trace. */
    lemma NothingIsMadeUp()
      requires Valid()
      ensures cancel ==> Raised(env, lowered, now)
      ensures forall i :: 0 <= i < |bus.frame| ==> Vouched(env, bus.frame[i], started, now)
      ensures bus.waiting <= Lows(env, started, now)
    {
      CancelledWasRaised(env, trace);
      WaitingWasLow(env, trace);
      forall i | 0 <= i < |bus.frame| ensures Vouched(env, bus.frame[i], started, now) {
        FrameIsVouched(env, trace, i);
      }
    }

    lemma WriteWasAnswered(addr: byte, data: seq<byte>, from: nat)
      requires Valid() && bus.frame == WriteFrame(addr, data) && from <= started
      ensures Acknowledged(env, from, now)
    {
      NothingIsMadeUp();
      assert bus.frame[1] == Sent(AddressByte(addr, false), Ack);
      assert Vouched(env, bus.frame[1], started, now);
    }

    lemma ReadWasAnswered(addr: byte, data: seq<byte>, refuseLast: bool, from: nat)
      requires Valid() && data != [] && bus.frame == ReadFrame(addr, data, refuseLast) && from <= started
      ensures Acknowledged(env, from, now)
      ensures forall k :: 0 <= k < |data| ==> Held(env, data[k], from, now)
    {
      NothingIsMadeUp();
      assert bus.frame[1] == Sent(AddressByte(addr, true), Ack);
      assert Vouched(env, bus.frame[1], started, now);
      forall k | 0 <= k < |data| ensures Held(env, data[k], from, now) {
        assert bus.frame[k + 2].Received? && bus.frame[k + 2].b == data[k];
        assert Vouched(env, bus.frame[k + 2], started, now);
      }
    }

    // ---------- single accesses ----------

    /** cancel_i2c_trans = FALSE */
    method Lower()
      requires Valid()
      modifies this`cancel, this`trace, this`lowered
      ensures old(trace) < trace
      ensures Valid() && !cancel && lowered == now
    {
      OneLook(trace, LowerCancel);
      cancel, trace, lowered := false, trace + [LowerCancel], now;
    }

    method Poke(ghost access: Access)
      requires Valid() && !Asks(access) && access != SetStart
      modifies this`bus, this`trace
      ensures old(trace) <= trace
      ensures Valid() && bus == Next(old(bus), access)
    {
      OneLook(trace, On(access));
      bus, trace := Next(bus, access), trace + [On(access)];
    }

    /** I2CS |= bmSTART */
    method Restart()
      requires Valid()
      modifies this`bus, this`trace, this`started
      ensures old(trace) <= trace
      ensures Valid() && bus == Next(old(bus), SetStart) && started == now
    {
      OneLook(trace, On(SetStart));
      bus, trace, started := Next(bus, SetStart), trace + [On(SetStart)], now;
    }

    method TestDone() returns (on: bool)
      requires Valid()
      modifies this`now, this`bus, this`trace
      ensures old(trace) <= trace
      ensures Valid() && now == old(now) + 1
      ensures on == env.done(old(now)) && bus == Next(old(bus), Access.TestDone(on))
    {
      on := env.done(now);
      OneLook(trace, On(Access.TestDone(on)));
      now, bus, trace := now + 1, Next(bus, Access.TestDone(on)), trace + [On(Access.TestDone(on))];
    }

    method TestStop() returns (on: bool)
      requires Valid()
      modifies this`now, this`bus, this`trace
      ensures old(trace) <= trace
      ensures Valid() && now == old(now) + 1
      ensures on == env.stop(old(now)) && bus == Next(old(bus), Access.TestStop(on))
    {
      on := env.stop(now);
      OneLook(trace, On(Access.TestStop(on)));
      now, bus, trace := now + 1, Next(bus, Access.TestStop(on)), trace + [On(Access.TestStop(on))];
    }

    method TestBerr() returns (on: bool)
      requires Valid()
      modifies this`now, this`bus, this`trace
      ensures old(trace) <= trace
      ensures Valid() && now == old(now) + 1
      ensures on == env.berr(old(now)) && bus == Next(old(bus), Access.TestBerr(on))
    {
      on := env.berr(now);
      OneLook(trace, On(Access.TestBerr(on)));
      now, bus, trace := now + 1, Next(bus, Access.TestBerr(on)), trace + [On(Access.TestBerr(on))];
    }

    method TestAck() returns (on: bool)
      requires Valid()
      modifies this`now, this`bus, this`trace
      ensures old(trace) <= trace
      ensures Valid() && now == old(now) + 1
      ensures on == env.ack(old(now)) && bus == Next(old(bus), Access.TestAck(on))
    {
      on := env.ack(now);
      OneLook(trace, On(Access.TestAck(on)));
      now, bus, trace := now + 1, Next(bus, Access.TestAck(on)), trace + [On(Access.TestAck(on))];
    }

    method GetData() returns (b: byte)
      requires Valid()
      modifies this`now, this`bus, this`trace
      ensures old(trace) <= trace
      ensures Valid() && now == old(now) + 1
      ensures b == env.data(old(now)) && bus == Next(old(bus), Access.GetData(b))
    {
      b := env.data(now);
      OneLook(trace, On(Access.GetData(b)));
      now, bus, trace := now + 1, Next(bus, Access.GetData(b)), trace + [On(Access.GetData(b))];
    }

    method LookAtCancel() returns (on: bool)
      requires Valid()
      modifies this`now, this`cancel, this`trace
      ensures old(trace) <= trace
      ensures Valid() && now == old(now) + 1
      ensures on == cancel == (old(cancel) || env.raiseCancel(old(now)))
    {
      ghost var look := TestCancel(env.raiseCancel(now));
      OneLook(trace, look);
      cancel := cancel || env.raiseCancel(now);
      now, trace := now + 1, trace + [look];
      on := cancel;
    }

    // ---------- wait loops ----------

    method WaitDone() returns (ok: bool)
      requires Valid()
      modifies this`now, this`cancel, this`bus, this`trace
      ensures old(trace) <= trace
      ensures Valid() && now > old(now)
      ensures bus == old(bus).(phase := bus.phase, polls := bus.polls, waiting := bus.waiting)
      ensures old(bus.polls) <= bus.polls <= old(bus.polls) + WAIT_LIMIT
      ensures ok && old(bus.phase) == Shifting ==> bus.phase == Unchecked
      ensures ok ==> !cancel
      ensures !ok ==> GaveUp()
      ensures Flawless(env) && !old(cancel) ==> ok
    {
      hide Anchored;
      var limit := WAIT_LIMIT;
      while true
        invariant 0 < limit <= WAIT_LIMIT && Valid() && now >= old(now) && old(trace) <= trace
        invariant bus == old(bus).(polls := old(bus.polls) + WAIT_LIMIT - limit, waiting := bus.waiting)
        invariant bus.waiting >= WAIT_LIMIT - limit
        invariant old(cancel) ==> cancel
        invariant Flawless(env) && !old(cancel) ==> !cancel
        decreases limit
      {
        var done := TestDone();
        if done {
          break;
        }
        var cancelled := LookAtCancel();
        if cancelled {
          break;
        }
        limit := limit - 1;
        if limit == 0 {
          return false;
        }
      }
      var cancelled := LookAtCancel();
      ok := !cancelled;
    }

    /** A wait for DONE was given up: it was cancelled, or DONE was low at the last 60000 polls. */
    ghost predicate GaveUp()
      reads this
    {
      cancel || bus.waiting >= WAIT_LIMIT
    }

    /** Ends when STOP has fallen, when cancelled, or with all polls used up. */
    method WaitStop()
      requires Valid()
      modifies this`now, this`cancel, this`bus, this`trace
      ensures old(trace) <= trace
      ensures Valid() && now > old(now)
      ensures bus == old(bus).(polls := bus.polls, waiting := bus.waiting)
      ensures old(bus.polls) <= bus.polls <= old(bus.polls) + WAIT_LIMIT
      ensures cancel || bus.polls == old(bus.polls) + WAIT_LIMIT || !env.stop(now - 1)
      ensures old(cancel) ==> cancel
      ensures Flawless(env) && !old(cancel) ==> !cancel
    {
      hide Anchored;
      var limit := WAIT_LIMIT;
      while true
        invariant 0 < limit <= WAIT_LIMIT && Valid() && now >= old(now) && old(trace) <= trace
        invariant bus == old(bus).(polls := old(bus.polls) + WAIT_LIMIT - limit, waiting := bus.waiting)
        invariant old(cancel) ==> cancel
        invariant Flawless(env) && !old(cancel) ==> !cancel
        decreases limit
      {
        var stop := TestStop();
        if !stop {
          break;
        }
        var cancelled := LookAtCancel();
        if cancelled {
          break;
        }
        limit := limit - 1;
        if limit == 0 {
          break;
        }
      }
    }

    // ---------- steps shared by reads and writes ----------

    /** The bookkeeping of one step: what it may add to the counters, and what it leaves alone. */
    twostate predicate Booked(reading: bool, berrRetry: nat, step: Step, starts: nat, waits: nat)
      reads this
    {
      && Valid() && now >= old(now) && old(trace) <= trace
      && (old(bus.legal) ==> bus.legal)
      && old(bus.starts) <= bus.starts <= old(bus.starts) + starts
      && old(bus.polls) <= bus.polls <= old(bus.polls) + waits * WAIT_LIMIT
      && match step
         case Go => bus.errors == old(bus.errors) && exact == old(exact) && !cancel
         case Again =>
           bus.errors == old(bus.errors) + 1 && exact == old(exact).Add(reading, 1, 0)
           && berrRetry + 1 < BERR_MAX_RETRY
         case Fail => Failed(reading, berrRetry)
    }

    /**
     * Why an attempt ends the call: cancelled before or after it, refused by the slave, the last bus
     * error that is allowed, or a wait for DONE that was given up.  The last two count as timeouts.
     */
    twostate predicate Failed(reading: bool, berrRetry: nat)
      reads this
    {
      || (exact == old(exact) && bus.errors == old(bus.errors) && (cancel || Refused(bus.frame)))
      || (exact == old(exact).Add(reading, 1, 1) && bus.errors == old(bus.errors) + 1
          && berrRetry + 1 == BERR_MAX_RETRY)
      || (exact == old(exact).Add(reading, 0, 1) && bus.errors == old(bus.errors)
          && GaveUp())
    }

    method Count(reading: bool, berrs: nat, timeouts: nat)
      requires diag == exact.Wrapped()
      modifies this`diag, this`exact
      ensures diag == exact.Wrapped() && exact == old(exact).Add(reading, berrs, timeouts)
    {
      WrappedAdd(exact, reading, berrs, timeouts);
      diag := diag.Add(reading, berrs, timeouts).Wrapped();
      exact := exact.Add(reading, berrs, timeouts);
    }

    /** Looks at BERR; on a bus error counts it and says whether another attempt is allowed. */
    method CheckBerr(reading: bool, berrRetry: nat) returns (step: Step)
      requires Valid() && !cancel && berrRetry < BERR_MAX_RETRY
      modifies this`now, this`bus, this`trace, this`diag, this`exact
      ensures Booked(reading, berrRetry, step, 0, 0)
      ensures bus.refused == old(bus.refused)
      ensures step == Fail ==> exact != old(exact)
      ensures step == Go && old(bus.phase) == Unchecked ==> bus == old(bus).(phase := Checked, waiting := 0)
      ensures Flawless(env) ==> step == Go
    {
      hide Anchored;
      var berr := TestBerr();
      if !berr {
        return Go;
      }
      if berrRetry + 1 >= BERR_MAX_RETRY {
        Count(reading, 1, 1);
        return Fail;
      }
      Count(reading, 1, 0);
      return Again;
    }

    /** Waits for the byte in flight and looks at BERR. */
    method Await(reading: bool, berrRetry: nat) returns (step: Step)
      requires Valid() && bus.phase == Shifting && berrRetry < BERR_MAX_RETRY
      modifies this`now, this`cancel, this`bus, this`trace, this`diag, this`exact
      ensures Booked(reading, berrRetry, step, 0, 1)
      ensures bus.refused == old(bus.refused)
      ensures step == Fail ==> exact != old(exact)
      ensures step == Go ==> bus == old(bus).(phase := Checked, polls := bus.polls, waiting := bus.waiting)
      ensures Flawless(env) && !old(cancel) ==> step == Go
    {
      hide Anchored;
      var done := WaitDone();
      if !done {
        Count(reading, 0, 1);
        return Fail;
      }
      step := CheckBerr(reading, berrRetry);
    }

    /** Puts one byte on the wires and looks at the slave's answer. */
    method Send(reading: bool, b: byte, berrRetry: nat) returns (step: Step, ack: bool)
      requires Valid() && Ready() && InTurn(bus, PutData(b)) && berrRetry < BERR_MAX_RETRY
      modifies this`now, this`cancel, this`bus, this`trace, this`diag, this`exact
      ensures Booked(reading, berrRetry, step, 0, 1)
      ensures step == Fail ==> exact != old(exact)
      ensures step == Go ==>
        bus == old(bus).(frame := old(bus.frame) + [Sent(b, if ack then Ack else Nack)],
                         polls := bus.polls, waiting := bus.waiting, refused := bus.refused)
      ensures bus.refused == old(bus.refused) + (if step == Go && !ack && |old(bus.frame)| == 1 then 1 else 0)
      ensures Flawless(env) && !old(cancel) ==> step == Go && ack
    {
      hide Anchored;
      ack := false;
      Poke(PutData(b));
      step := Await(reading, berrRetry);
      if step == Go {
        ack := TestAck();
      }
    }

    method StopAndWait()
      requires Valid() && InTurn(bus, SetStop) && bus.incoming == Nothing
      modifies this`now, this`cancel, this`bus, this`trace
      ensures old(trace) <= trace
      ensures Valid() && now > old(now)
      ensures bus == old(bus).(frame := old(bus.frame) + [Stop], polls := bus.polls, waiting := bus.waiting)
      ensures old(bus.polls) <= bus.polls <= old(bus.polls) + WAIT_LIMIT
      ensures Flawless(env) && !old(cancel) ==> !cancel
    {
      hide Anchored;
      Poke(SetStop);
      WaitStop();
    }

    /** One attempt up to and including the slave's answer to its address. */
    method Begin(reading: bool, address: byte, berrRetry: nat) returns (step: Step, ack: bool)
      requires Valid() && berrRetry < BERR_MAX_RETRY
      modifies this`now, this`cancel, this`bus, this`trace, this`started, this`diag, this`exact
      ensures Booked(reading, berrRetry, step, 1, 1)
      ensures step != Fail ==> bus.starts == old(bus.starts) + 1 && started >= old(now)
      ensures bus.refused == old(bus.refused) + (if step == Go && !ack then 1 else 0)
      ensures started >= old(now) || (step == Fail && cancel && exact == old(exact) && started == old(started))
      ensures step == Fail && exact == old(exact) ==> cancel
      ensures step == Go ==>
        Ready() && !bus.lastRd && bus.frame == [Start, Sent(address, if ack then Ack else Nack)]
      ensures Flawless(env) && !old(cancel) ==> step == Go && ack
    {
      hide Anchored;
      ack := false;
      var cancelled := LookAtCancel();
      if cancelled {
        return Fail, false;
      }
      Restart();
      step := CheckBerr(reading, berrRetry);
      if step == Go {
        step, ack := Send(reading, address, berrRetry);
      }
    }

    // ---------- i2c_write ----------

    ghost function WritePayload(len: word, addrBuf: array<byte>, len2: word, dataBuf: array?<byte>): (p: seq<byte>)
      requires len <= addrBuf.Length
      requires len2 != 0 ==> dataBuf != null && len2 <= dataBuf.Length
      ensures len + len2 < 0x1_0000 ==> p == addrBuf[..len] + (if len2 == 0 then [] else dataBuf[..len2])
      reads addrBuf, dataBuf
    {
      (addrBuf[..len] + (if len2 == 0 then [] else dataBuf[..len2]))[..Wrap16(len + len2)]
    }

    /** One round of the data loop of i2c_write: byte number n of the payload. */
    method WriteByte(addr: byte, b: byte, ghost payload: seq<byte>, ghost n: nat, berrRetry: nat) returns (step: Step)
      requires n < |payload| && b == payload[n]
      requires Valid() && Ready() && !cancel && berrRetry < BERR_MAX_RETRY
      requires bus.frame == WriteHead(addr, payload[..n])
      modifies this`now, this`cancel, this`bus, this`trace, this`diag, this`exact
      ensures Booked(false, berrRetry, step, 0, if step == Go then 1 else 2)
      ensures bus.refused == old(bus.refused)
      ensures step == Fail && exact == old(exact) ==> |bus.frame| > 3
      ensures step == Go ==> Ready() && bus.frame == WriteHead(addr, payload[..n + 1])
      ensures Flawless(env) ==> step == Go
    {
      hide AckedBytes, WriteHead, Anchored;
      WriteHeadGrows(addr, payload, n);
      var ack;
      step, ack := Send(false, b, berrRetry);
      if step == Go && !ack {
        StopAndWait();
        step := Fail;
      }
    }

    /** The data loop of i2c_write, after the address byte was acknowledged. */
    method WriteBytes(addr: byte, len: word, addrBuf: array<byte>, len2: word, dataBuf: array?<byte>, berrRetry: nat)
      returns (step: Step)
      requires len <= addrBuf.Length
      requires len2 != 0 ==> dataBuf != null && len2 <= dataBuf.Length
      requires Valid() && Ready() && !cancel && berrRetry < BERR_MAX_RETRY
      requires bus.frame == [Start, Sent(AddressByte(addr, false), Ack)]
      modifies this`now, this`cancel, this`bus, this`trace, this`diag, this`exact
      ensures Booked(false, berrRetry, step, 0, Wrap16(len + len2) + 1)
      ensures bus.refused == old(bus.refused)
      ensures step == Fail && exact == old(exact) ==> |bus.frame| > 3
      ensures step == Go ==>
        && Ready()
        && bus.polls <= old(bus.polls) + Wrap16(len + len2) * WAIT_LIMIT
        && bus.frame == WriteHead(addr, WritePayload(len, addrBuf, len2, dataBuf))
      ensures Flawless(env) ==> step == Go
    {
      hide AckedBytes, WriteHead, Next, Anchored;
      ghost var payload := WritePayload(len, addrBuf, len2, dataBuf);
      WriteHeadStarts(addr);
      assert payload[..0] == [];
      var totalBytes: word := Wrap16(len + len2);
      var curByte := 0;
      while curByte < totalBytes
        invariant 0 <= curByte <= totalBytes
        invariant bus.frame == WriteHead(addr, payload[..curByte]) && Ready()
        invariant Booked(false, berrRetry, Go, 0, curByte) && bus.refused == old(bus.refused)
      {
        var b := if curByte < len then addrBuf[curByte] else dataBuf[curByte - len];
        step := WriteByte(addr, b, payload, curByte, berrRetry);
        curByte := curByte + 1;
        if step != Go {
          return step;
        }
      }
      assert payload[..curByte] == payload;
      return Go;
    }

    /** One attempt of i2c_write, from START to STOP; `answered` tells whether a slave was there. */
    method WriteOnce(addr: byte, len: word, addrBuf: array<byte>, len2: word, dataBuf: array?<byte>, berrRetry: nat)
      returns (step: Step, answered: bool)
      requires len <= addrBuf.Length
      requires len2 != 0 ==> dataBuf != null && len2 <= dataBuf.Length
      requires Valid() && berrRetry < BERR_MAX_RETRY
      modifies this`now, this`cancel, this`bus, this`trace, this`started, this`diag, this`exact
      ensures Booked(false, berrRetry, step, 1, Wrap16(len + len2) + 2)
      ensures step != Fail ==> bus.starts == old(bus.starts) + 1 && started >= old(now)
      ensures step == Go ==> bus.refused == old(bus.refused) + (if answered then 0 else 1)
      ensures step == Again ==> bus.refused == old(bus.refused)
      ensures old(bus.refused) <= bus.refused <= old(bus.refused) + 1
      ensures started >= old(now) || (step == Fail && cancel && exact == old(exact) && started == old(started))
      ensures step == Go && !answered ==> Refused(bus.frame)
      ensures step == Fail && exact == old(exact) ==> cancel || |bus.frame| > 3
      ensures step == Go && answered ==> bus.frame == WriteFrame(addr, WritePayload(len, addrBuf, len2, dataBuf))
      ensures Flawless(env) && !old(cancel) ==> step == Go && answered
    {
      hide Anchored;
      step, answered := Begin(false, AddressByte(addr, false), berrRetry);
      if step == Go && answered {
        step := WriteBytes(addr, len, addrBuf, len2, dataBuf, berrRetry);
      }
      if step == Go {
        StopAndWait();
        var cancelled := LookAtCancel();
        if cancelled {
          step := Fail;
        }
      }
    }

    /**
     * i2c_write.  The number of bytes is a 16-bit sum; the payload is what is left of the two
     * buffers.  Whatever the hardware does, the call ends, makes at most 21 START requests and no
     * access out of turn.  An address that is refused is tried twice.  TRUE means that the frame
     * since the last START is exactly the requested one, however many attempts were given up before
     * it.
     */
    method Write(addr: byte, len: word, addrBuf: array<byte>, len2: word, dataBuf: array?<byte>)
      returns (ok: bool)
      requires len <= addrBuf.Length
      requires len2 != 0 ==> dataBuf != null && len2 <= dataBuf.Length
      requires Valid()
      modifies this
      ensures ok ==> bus.frame == WriteFrame(addr, WritePayload(len, addrBuf, len2, dataBuf))
      ensures cancel ==> Raised(env, old(now), now)
      ensures ok ==> Acknowledged(env, old(now), now)
      ensures ok && len + len2 < 0x1_0000 ==>
        WriteOnWires(bus.frame, addr, addrBuf[..len] + (if len2 == 0 then [] else dataBuf[..len2]))
      ensures ok && addr < 128 ==> Listen(bus.frame).addr == addr && !Listen(bus.frame).reading
      ensures Tallied(false, ok, 21, ((len + len2) % 0x1_0000 + 2) * 60000)
      ensures old(bus.refused) <= bus.refused <= old(bus.refused) + 2
      ensures ok ==>
        && bus.refused <= old(bus.refused) + 1
        && bus.starts - old(bus.starts) == 1 + (bus.errors - old(bus.errors)) + (bus.refused - old(bus.refused))
      ensures started >= old(now) || (!ok && cancel && exact == old(exact))
      ensures !ok && !cancel && !OutOfTime(false) && |bus.frame| == 3 ==>
        && bus.refused == old(bus.refused) + 2
        && bus.starts - old(bus.starts) == 2 + (bus.errors - old(bus.errors))
      ensures !ok && !Raised(env, old(now), now) ==>
        || bus.errors - old(bus.errors) == 20 || bus.waiting >= 60000
        || (Refused(bus.frame)
            && (|bus.frame| > 3
                || (bus.refused == old(bus.refused) + 2
                    && bus.starts - old(bus.starts) == 2 + (bus.errors - old(bus.errors)))))
      ensures Flawless(env) ==> ok
    {
      hide Anchored, WriteFrame, WriteOnWires, Listen, WritePayload, Raised, Acknowledged, Lows;
      var retryCount := 2;
      var berrRetry := 0;
      Lower();
      ghost var perTry := (Wrap16(len + len2) + 2) * WAIT_LIMIT;

      while true
        invariant 1 <= retryCount <= 2
        invariant Retrying(false, berrRetry, berrRetry + 2 - retryCount, perTry)
        invariant bus.refused == old(bus.refused) + 2 - retryCount
        invariant berrRetry > 0 || retryCount < 2 ==> started >= old(now)
        invariant Flawless(env) ==> !cancel
        decreases BERR_MAX_RETRY - berrRetry + retryCount
      {
        OneMoreTry(berrRetry + 2 - retryCount, perTry, 21);
        var step, answered := WriteOnce(addr, len, addrBuf, len2, dataBuf, berrRetry);
        NothingIsMadeUp();
        match step {
          case Again => berrRetry := berrRetry + 1;
          case Fail => return false;
          case Go =>
            if answered {
              WriteWasAnswered(addr, WritePayload(len, addrBuf, len2, dataBuf), old(now));
              WriteIsHeard(addr, WritePayload(len, addrBuf, len2, dataBuf));
              return true;
            }
            retryCount := retryCount - 1;
            if retryCount == 0 {
              return false;
            }
        }
      }
    }

    // ---------- i2c_read ----------

    /** How many bytes i2c_read really clocks in and stores: never less than one. */
    static function Clocked(len: word): nat {
      Max(len, 1)
    }

    method RefuseNext()
      requires Valid() && InTurn(bus, SetLastRd)
      modifies this`bus, this`trace
      ensures old(trace) <= trace
      ensures Valid() && bus == old(bus).(lastRd := true, waiting := 0)
    {
      Poke(SetLastRd);
    }

    /** The dummy read of I2DAT that starts the first byte. */
    method ClockIn()
      requires Valid() && Ready() && InTurn(bus, Access.GetData(0))
      modifies this`now, this`bus, this`trace
      ensures old(trace) <= trace
      ensures Valid() && now > old(now)
      ensures bus == old(bus).(incoming := Coming(!old(bus.lastRd)), phase := Shifting, waiting := 0)
    {
      var tmp := GetData();
    }

    /** buf[at] = I2DAT, which also starts the next byte. */
    method Fetch(buf: array<byte>, at: nat)
      requires Valid() && at < buf.Length && bus.phase == Checked && bus.incoming.Coming? && !bus.stopping
      modifies this`now, this`bus, this`trace, buf
      ensures old(trace) <= trace
      ensures Valid() && now > old(now)
      ensures buf[..at] == old(buf[..at]) && buf[at + 1..] == old(buf[at + 1..])
      ensures bus == old(bus).(frame := old(bus.frame) + [Received(buf[at], old(bus.incoming.acknowledged))],
                               incoming := Coming(!old(bus.lastRd)), phase := Shifting, waiting := 0)
    {
      buf[at] := GetData();
    }

    /** STOP first, then buf[at] = I2DAT: the byte fetched is the last one. */
    method StopAndFetch(buf: array<byte>, at: nat)
      requires Valid() && at < buf.Length && InTurn(bus, SetStop) && bus.incoming.Coming?
      modifies this`now, this`bus, this`trace, buf
      ensures old(trace) <= trace
      ensures Valid() && now > old(now)
      ensures buf[..at] == old(buf[..at]) && buf[at + 1..] == old(buf[at + 1..])
      ensures bus == old(bus).(frame := old(bus.frame) + [Received(buf[at], old(bus.incoming.acknowledged)), Stop],
                               incoming := Nothing, waiting := 0)
    {
      Poke(SetStop);
      buf[at] := GetData();
      assert old(bus.frame) + [Received(buf[at], old(bus.incoming.acknowledged)), Stop]
          == old(bus.frame) + [Received(buf[at], old(bus.incoming.acknowledged))] + [Stop];
    }

    /** n bytes are in the buffer, the next one is being clocked in, and only the last one will be refused. */
    ghost predicate Clocking(addr: byte, len: word, buf: array<byte>, n: nat)
      reads this`bus, buf
    {
      && n <= buf.Length
      && bus.phase == Shifting && !bus.stopping && bus.frame == ReadHead(addr, buf[..n])
      && bus.incoming == Coming(len != n + 1) && bus.lastRd == (len == n + 1)
    }

    /** One round of the loop of i2c_read. */
    method ReadByte(addr: byte, len: word, buf: array<byte>, n: nat, berrRetry: nat) returns (step: Step)
      requires n + 1 < len <= buf.Length && Clocking(addr, len, buf, n)
      requires Valid() && berrRetry < BERR_MAX_RETRY
      modifies this`now, this`cancel, this`bus, this`trace, this`diag, this`exact, buf
      ensures Booked(true, berrRetry, step, 0, 1)
      ensures bus.refused == old(bus.refused)
      ensures buf[len..] == old(buf[len..])
      ensures step == Go ==> Clocking(addr, len, buf, n + 1)
      ensures Flawless(env) && !old(cancel) ==> step == Go
    {
      hide Anchored;
      step := Await(true, berrRetry);
      if step != Go {
        return;
      }
      if len == n + 2 {
        RefuseNext();
      }
      ghost var before := buf[..];
      Fetch(buf, n);
      ReadHeadGrows(addr, before, buf[..], n);
      KeepsTail(before, buf[..], n, len);
    }

    /** The end of i2c_read: STOP in front of the fetch of the last byte. */
    method LastByte(addr: byte, len: word, buf: array<byte>, n: nat, berrRetry: nat) returns (step: Step)
      requires n + 1 == Clocked(len) <= buf.Length && Clocking(addr, len, buf, n)
      requires Valid() && berrRetry < BERR_MAX_RETRY
      modifies this`now, this`cancel, this`bus, this`trace, this`diag, this`exact, buf
      ensures Booked(true, berrRetry, step, 0, 1)
      ensures bus.refused == old(bus.refused)
      ensures buf[Clocked(len)..] == old(buf[Clocked(len)..])
      ensures step == Go ==> bus.frame == ReadFrame(addr, buf[..Clocked(len)], len != 0)
      ensures Flawless(env) && !old(cancel) ==> step == Go
    {
      hide Anchored;
      step := Await(true, berrRetry);
      if step != Go {
        return;
      }
      ghost var before := buf[..];
      ReadHeadOpen(addr, buf[..n]);
      StopAndFetch(buf, n);
      ReadHeadGrows(addr, before, buf[..], n);
      KeepsTail(before, buf[..], n, Clocked(len));
    }

    /** The data part of i2c_read, after the address byte was acknowledged. */
    method ReadBytes(addr: byte, len: word, buf: array<byte>, berrRetry: nat) returns (step: Step)
      requires Clocked(len) <= buf.Length
      requires Valid() && Ready() && !bus.lastRd && !cancel && berrRetry < BERR_MAX_RETRY
      requires bus.frame == [Start, Sent(AddressByte(addr, true), Ack)]
      modifies this`now, this`cancel, this`bus, this`trace, this`diag, this`exact, buf
      ensures Booked(true, berrRetry, step, 0, Clocked(len))
      ensures bus.refused == old(bus.refused)
      ensures buf[Clocked(len)..] == old(buf[Clocked(len)..])
      ensures step == Go ==> bus.frame == ReadFrame(addr, buf[..Clocked(len)], len != 0)
      ensures Flawless(env) ==> step == Go
    {
      hide Anchored, ReadHead, TakenBytes;
      ReadHeadAddressed(addr);
      assert buf[..0] == [];
      var curByte := 0;
      if len == 1 {
        RefuseNext();
      }
      ClockIn();

      while len > curByte + 1
        invariant 0 <= curByte < Clocked(len)
        invariant Clocking(addr, len, buf, curByte)
        invariant buf[Clocked(len)..] == old(buf[Clocked(len)..])
        invariant Booked(true, berrRetry, Go, 0, curByte) && bus.refused == old(bus.refused)
      {
        step := ReadByte(addr, len, buf, curByte, berrRetry);
        if step != Go {
          return step;
        }
        curByte := curByte + 1;
      }

      step := LastByte(addr, len, buf, curByte, berrRetry);
    }

    method ReadOnce(addr: byte, len: word, buf: array<byte>, berrRetry: nat) returns (step: Step)
      requires Clocked(len) <= buf.Length
      requires Valid() && berrRetry < BERR_MAX_RETRY
      modifies this`now, this`cancel, this`bus, this`trace, this`started, this`diag, this`exact, buf
      ensures Booked(true, berrRetry, step, 1, Clocked(len) + 2)
      ensures step != Fail ==> bus.starts == old(bus.starts) + 1 && started >= old(now)
      ensures step != Fail ==> bus.refused == old(bus.refused)
      ensures old(bus.refused) <= bus.refused <= old(bus.refused) + 1
      ensures started >= old(now) || (step == Fail && cancel && exact == old(exact) && started == old(started))
      ensures buf[Clocked(len)..] == old(buf[Clocked(len)..])
      ensures step == Go ==> bus.frame == ReadFrame(addr, buf[..Clocked(len)], len != 0)
      ensures Flawless(env) && !old(cancel) ==> step == Go
    {
      hide Anchored;
      var ack;
      step, ack := Begin(true, AddressByte(addr, true), berrRetry);
      if step != Go {
        return step;
      }
      if !ack {
        StopAndWait();
        return Fail;
      }
      step := ReadBytes(addr, len, buf, berrRetry);
      if step == Go {
        WaitStop();
        var cancelled := LookAtCancel();
        if cancelled {
          step := Fail;
        }
      }
    }

    /**
     * i2c_read.  TRUE means that the frame since the last START is the requested one and that
     * `buf` holds the received bytes, whatever aborted attempts left there before.  With a length
     * of zero the engine still clocks in, acknowledges and stores one byte, so that the frame ends
     * without the refusal UM10204 asks for.
     */
    method Read(addr: byte, len: word, buf: array<byte>) returns (ok: bool)
      requires Clocked(len) <= buf.Length
      requires Valid()
      modifies this, buf
      ensures buf[Clocked(len)..] == old(buf[Clocked(len)..])
      ensures ok ==> bus.frame == ReadFrame(addr, buf[..Clocked(len)], len != 0)
      ensures cancel ==> Raised(env, old(now), now)
      ensures ok ==> Acknowledged(env, old(now), now)
      ensures ok ==> forall k :: 0 <= k < Clocked(len) ==> Held(env, buf[k], old(now), now)
      ensures ok && len > 0 ==> ReadOnWires(bus.frame, addr, buf[..len])
      ensures ok && addr < 128 ==> Listen(bus.frame).addr == addr && Listen(bus.frame).reading
      ensures Tallied(true, ok, 20, (Max(len, 1) + 2) * 60000)
      ensures ok ==> bus.refused == old(bus.refused)
      ensures started >= old(now) || (!ok && cancel && exact == old(exact))
      ensures ok ==> bus.starts - old(bus.starts) == 1 + (bus.errors - old(bus.errors))
      ensures !ok && !Raised(env, old(now), now) ==>
        bus.errors - old(bus.errors) == 20 || bus.waiting >= 60000 || Refused(bus.frame)
      ensures Flawless(env) ==> ok
    {
      hide Anchored, ReadFrame, ReadOnWires, Listen, Raised, Acknowledged, Held;
      var berrRetry := 0;
      Lower();
      ghost var perTry := (Clocked(len) + 2) * WAIT_LIMIT;

      while true
        invariant Retrying(true, berrRetry, berrRetry, perTry)
        invariant buf[Clocked(len)..] == old(buf[Clocked(len)..])
        invariant bus.refused == old(bus.refused) && (berrRetry > 0 ==> started >= old(now))
        invariant Flawless(env) ==> !cancel
        decreases BERR_MAX_RETRY - berrRetry
      {
        OneMoreTry(berrRetry, perTry, 20);
        var step := ReadOnce(addr, len, buf, berrRetry);
        NothingIsMadeUp();
        match step {
          case Again => berrRetry := berrRetry + 1;
          case Fail => return false;
          case Go =>
            ReadWasAnswered(addr, buf[..Clocked(len)], len != 0, old(now));
            ReadIsHeard(addr, buf[..Clocked(len)], len != 0);
            return true;
        }
      }
    }

    /** Between two attempts: every bus error was counted once, nothing was given up. */
    twostate predicate Retrying(reading: bool, berrRetry: nat, tries: nat, perTry: nat)
      reads this
    {
      && Valid() && now >= old(now) && lowered == old(now) && old(trace) < trace
      && berrRetry < BERR_MAX_RETRY
      && (old(bus.legal) ==> bus.legal)
      && bus.starts == old(bus.starts) + tries
      && old(bus.polls) <= bus.polls <= old(bus.polls) + tries * perTry
      && bus.errors == old(bus.errors) + berrRetry
      && exact == old(exact).Add(reading, berrRetry, 0)
    }

    /**
     * What a whole call leaves behind: at most `tries` START requests and `tries * perTry` polls,
     * no access out of turn, and every bus error counted once.  TRUE comes after fewer than 20 of
     * them and counts no timeout.  FALSE has one of the causes of `Failed`.
     */
    twostate predicate Tallied(reading: bool, ok: bool, tries: nat, perTry: nat)
      reads this
    {
      && Valid() && now >= old(now) && lowered == old(now) && old(trace) < trace
      && (old(bus.legal) ==> bus.legal)
      && old(bus.starts) <= bus.starts <= old(bus.starts) + tries
      && old(bus.polls) <= bus.polls <= old(bus.polls) + tries * perTry
      && old(bus.errors) <= bus.errors <= old(bus.errors) + BERR_MAX_RETRY
      && var berrs := bus.errors - old(bus.errors);
         && exact == old(exact).Add(reading, berrs, if OutOfTime(reading) then 1 else 0)
         && (berrs == BERR_MAX_RETRY ==> OutOfTime(reading))
         && (OutOfTime(reading) ==>
               !ok && (berrs == BERR_MAX_RETRY || GaveUp()))
         && (!ok && !OutOfTime(reading) ==> cancel || Refused(bus.frame))
    }

    /** The call counted a timeout. */
    twostate predicate OutOfTime(reading: bool)
      reads this`exact
    {
      if reading then exact.timeoutRead > old(exact.timeoutRead) else exact.timeoutWrite > old(exact.timeoutWrite)
    }
  }

  /** The slave answered a byte with NACK, and the transfer was ended. */
  predicate Refused(frame: seq<Wire>) {
    && |frame| >= 3 && frame[|frame| - 1] == Stop
    && frame[|frame| - 2].Sent? && frame[|frame| - 2].answer == Nack
  }

  lemma WriteIsHeard(addr: byte, data: seq<byte>)
    ensures WriteOnWires(WriteFrame(addr, data), addr, data)
    ensures addr < 128 ==> Listen(WriteFrame(addr, data)) == Talk(addr, false, data)
  {
    FramesOnWires(addr, data);
    if addr < 128 {
      TalkIsHeard(WriteFrame(addr, data), addr, data);
    }
  }

  lemma ReadIsHeard(addr: byte, data: seq<byte>, refuseLast: bool)
    requires data != []
    ensures refuseLast ==> ReadOnWires(ReadFrame(addr, data, refuseLast), addr, data)
    ensures |ReadFrame(addr, data, refuseLast)| >= 3
    ensures addr < 128 ==>
      Listen(ReadFrame(addr, data, refuseLast)).addr == addr && Listen(ReadFrame(addr, data, refuseLast)).reading
  {
    FramesOnWires(addr, data);
  }

  lemma OneMoreTry(tries: nat, perTry: nat, limit: nat)
    ensures (tries + 1) * perTry == tries * perTry + perTry
    ensures tries < limit ==> tries * perTry + perTry <= limit * perTry
  {
  }

  lemma WriteHeadStarts(addr: byte)
    ensures WriteHead(addr, []) == [Start, Sent(AddressByte(addr, false), Ack)]
  {
  }

  lemma WriteHeadGrows(addr: byte, payload: seq<byte>, n: nat)
    requires n < |payload|
    ensures Addressed(WriteHead(addr, payload[..n]), false)
    ensures WriteHead(addr, payload[..n + 1]) == WriteHead(addr, payload[..n]) + [Sent(payload[n], Ack)]
  {
  }

  lemma ReadHeadAddressed(addr: byte)
    ensures Addressed([Start, Sent(AddressByte(addr, true), Ack)], true)
    ensures ReadHead(addr, []) == [Start, Sent(AddressByte(addr, true), Ack)]
  {
  }

  lemma ReadHeadOpen(addr: byte, data: seq<byte>)
    ensures var frame := ReadHead(addr, data);
      |frame| >= 2 && frame[|frame| - 1] != Stop
  {
  }

  lemma ReadHeadGrows(addr: byte, before: seq<byte>, after: seq<byte>, n: nat)
    requires n < |before| == |after|
    requires before[..n] == after[..n]
    ensures ReadHead(addr, after[..n + 1]) == ReadHead(addr, before[..n]) + [Received(after[n], true)]
    ensures after[..n + 1][..n] == before[..n]
  {
  }

  lemma KeepsTail(before: seq<byte>, after: seq<byte>, at: nat, n: nat)
    requires at < n <= |before| == |after|
    requires after[at + 1..] == before[at + 1..]
    ensures after[n..] == before[n..]
  {
  }
}
