/** Transfers one after the other over a working USB, and what success does not tell. */
module Transfers {
  import opened Bytes
  import opened Errno
  import opened I2cBus
  import opened I2cTrace
  import opened I2cEngine
  import opened Protocol
  import opened FirmwareLoop
  import opened BusLog
  import opened HostPackets
  import opened HostI2c

  function Joined(logs: seq<seq<Event>>): seq<Event> {
    if logs == [] then [] else Joined(logs[..|logs| - 1]) + logs[|logs| - 1]
  }

  lemma OneMoreLog(logs: seq<seq<Event>>, events: seq<Event>)
    ensures Joined(logs + [events]) == Joined(logs) + events
  {
    assert (logs + [events])[..|logs|] == logs;
  }

  ghost function Contents(lists: seq<array<Msg>>): (c: seq<seq<Msg>>)
    ensures |c| == |lists|
    reads set a | a in lists
  {
    if lists == [] then [] else Contents(lists[..|lists| - 1]) + [lists[|lists| - 1][..]]
  }

  /** How a transfer of `before` that left `after` behind ended. */
  ghost predicate Ended(before: seq<Msg>, after: seq<Msg>, ret: int, events: seq<Event>)
  {
    && Sized(before) && |after| == |before|
    && Outcome(before, ret, events)
    && (WellFormed(before) && ret == |before| ==> AllFinished(before, after, events, |before|))
    && (WellFormed(before) && ret != |before| ==> ret == ETIMEDOUT && EndsUnanswered(events))
  }

  ghost predicate AllEnded(before: seq<seq<Msg>>, after: seq<seq<Msg>>, rets: seq<int>, logs: seq<seq<Event>>) {
    && |before| == |after| == |rets| == |logs|
    && forall k :: 0 <= k < |before| ==> Ended(before[k], after[k], rets[k], logs[k])
  }

  /**
   * Any number of transfers, whatever the bus does: a read that is not answered spoils its own
   * transfer only.  Each one ends as if it were the only one, nothing else is executed, and the
   * device is quiet afterwards.
   */
  method TransferAll(host: Adapter, lists: seq<array<Msg>>) returns (rets: seq<int>, ghost logs: seq<seq<Event>>)
    requires host.Valid() && host.Quiet() && forall t: nat :: host.fault(t).Delivers?
    requires forall c :: c in Contents(lists) ==> Sized(c)
    requires forall j, k :: 0 <= j < k < |lists| ==> lists[j] != lists[k]
    modifies host`transfers, host.wbuf, host.rbuf, host.fw, host.fw.i2c, host.fw.i2cbf
    modifies set a | a in lists
    ensures host.Valid() && host.Quiet()
    ensures host.fw.history == old(host.fw.history) + Joined(logs)
    ensures AllEnded(old(Contents(lists)), Contents(lists), rets, logs)
    ensures old(host.fw.i2c.trace) <= host.fw.i2c.trace
    ensures host.OnTheBus(|old(host.fw.i2c.trace)|, Joined(logs))
    decreases |lists|
  {
    hide Ended, Sized, I2cMaster.Anchored, AllEnded, Contents, OnBus, End, Adapter.OnTheBus, AllWitnessed;
    ghost var h0, t0 := host.fw.history, host.fw.i2c.trace;
    if |lists| == 0 {
      assert host.fw.history == host.fw.history + Joined([]);
      NothingEnded(lists);
      host.PutOnTheBus(h0, t0, Joined([]));
      return [], [];
    }
    var front, last := lists[..|lists| - 1], lists[|lists| - 1];
    assert last !in front;
    ContentsSplit(lists);
    ghost var first, second := Contents(front), last[..];
    rets, logs := TransferAll(host, front);
    var ret;
    ghost var events;
    ret, events := TransferOneOf(host, last);
    OneMoreLog(logs, events);
    ContentsSplit(lists);
    OneMoreEnded(first, Contents(front), rets, logs, second, last[..], ret, events);
    rets, logs := rets + [ret], logs + [events];
    host.PutOnTheBus(h0, t0, Joined(logs));
  }

  lemma ContentsSplit(lists: seq<array<Msg>>)
    requires lists != []
    ensures Contents(lists) == Contents(lists[..|lists| - 1]) + [lists[|lists| - 1][..]]
  {
  }

  lemma NothingEnded(lists: seq<array<Msg>>)
    requires lists == []
    ensures AllEnded(Contents(lists), Contents(lists), [], [])
  {
  }

  lemma OneMoreEnded(before: seq<seq<Msg>>, after: seq<seq<Msg>>, rets: seq<int>, logs: seq<seq<Event>>,
                     was: seq<Msg>, now: seq<Msg>, ret: int, events: seq<Event>)
    requires AllEnded(before, after, rets, logs) && Ended(was, now, ret, events)
    ensures AllEnded(before + [was], after + [now], rets + [ret], logs + [events])
  {
    hide Ended;
  }

  method TransferOneOf(host: Adapter, msgs: array<Msg>) returns (ret: int, ghost events: seq<Event>)
    requires host.Valid() && host.Quiet() && forall t: nat :: host.fault(t).Delivers?
    requires Sized(msgs[..])
    modifies host`transfers, host.wbuf, host.rbuf, host.fw, host.fw.i2c, host.fw.i2cbf, msgs
    ensures host.Valid() && host.Quiet()
    ensures host.fw.history == old(host.fw.history) + events && old(host.fw.i2c.trace) <= host.fw.i2c.trace
    ensures Ended(old(msgs[..]), msgs[..], ret, events)
  {
    hide Outcome, WellFormed, AllFinished, EndsUnanswered, AllConform, AllGenuine, Run;
    assert msgs[..msgs.Length] == msgs[..];
    ret, events := host.I2cXfer(msgs, msgs.Length, false);
    assert msgs[..msgs.Length] == msgs[..];
  }

  /** A write of 17 to 61 bytes: the transfer is a success, the firmware drops it, nothing is on the bus. */
  method LongWriteIsLost(host: Adapter, addr: byte, data: seq<byte>) returns (ret: int, ghost events: seq<Event>)
    requires host.Valid() && host.Quiet() && forall t: nat :: host.fault(t).Delivers?
    requires 16 < |data| <= 61
    modifies host`transfers, host.wbuf, host.rbuf, host.fw, host.fw.i2c, host.fw.i2cbf
    ensures ret == 1 && events == [] && host.fw.history == old(host.fw.history)
    ensures host.fw.i2c.trace == old(host.fw.i2c.trace)
  {
    hide Run, Genuine, I2cMaster.Anchored, OnBus;
    var m := Msg(addr, |data|, false, false, data);
    var msgs := new Msg[1][m];
    assert msgs[..1] == [m];
    LongWriteIsPlanned(m);
    ret, events := host.I2cXfer(msgs, 1, false);
    assert |Cmds(events)| == |events| == 0;
  }

  /** The one packet is sent, and nothing in it is executed. */
  lemma LongWriteIsPlanned(m: Msg)
    requires m.addr < 256 && I2C_BUF_LEN < |m.buf| == m.len <= 61 && !m.ten && !m.rd
    ensures Requests([m], 0) == [] && Refusal([m], 0) == 0 && PairsFit([m], 0) && ReadsWanted([m], 0) == 0
  {
    hide Decode, I2cPacket;
    I2cPacketMeans(m.addr, m.buf, 0);
    assert PlanOne([m], 0) == Transfer(I2cPacket(m.addr, m.buf, 0), 0, 1);
  }

  /** Writing a byte to an address where nobody answers: the transfer is a success. */
  method WriteToNobody(host: Adapter, addr: byte, b: byte) returns (ret: int, ghost events: seq<Event>)
    requires host.Valid() && host.Quiet() && forall t: nat :: host.fault(t).Delivers?
    requires addr < 128 && Silent(host.fw.i2c.env)
    modifies host`transfers, host.wbuf, host.rbuf, host.fw, host.fw.i2c, host.fw.i2cbf
    ensures ret == 1
    ensures |events| == 1 && events[0].cmd == I2cWrite(addr, [b]) && !events[0].obs.ok
  {
    hide Run, Genuine;
    var m := Msg(addr, 1, false, false, [b]);
    var msgs := new Msg[1][m];
    assert msgs[..1] == [m];
    WellFormedRequests([m], 0);
    assert Requests([m], 0) == [I2cWrite(addr, [b])];
    ret, events := host.I2cXfer(msgs, 1, false);
    assert |Cmds(events)| == |events| <= 1;
    assert events != [] ==> Cmds(events)[0] == events[0].cmd == I2cWrite(addr, [b]);
    assert events != [] ==> Conforms(host.fw.i2c.env, events[0]);
  }
}
