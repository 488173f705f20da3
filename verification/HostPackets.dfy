/** The packets the driver sends (src/akb_pcr20x.c), and what the firmware makes of them. */
module HostPackets {
  import opened Bytes
  import opened Errno
  import opened Protocol

  const MAX_I2C_BUFFER_SIZE: nat := 64

  /** One struct i2c_msg with its buffer. */
  datatype Msg = Msg(addr: word, len: word, ten: bool, rd: bool, buf: seq<byte>)

  predicate Sized(msgs: seq<Msg>) {
    forall i :: 0 <= i < |msgs| ==> |msgs[i].buf| == msgs[i].len
  }

  /** [0x61, address, length, data...] */
  function WritePart(addr: byte, data: seq<byte>): seq<byte>
    requires |data| < 256
  {
    [CMD_I2C_WRITE, addr, |data|] + data
  }

  /** ... followed by [0x60, address, length] if something is to be read. */
  function I2cPacket(addr: byte, data: seq<byte>, rlen: byte): seq<byte>
    requires |data| < 256
  {
    if rlen == 0 then WritePart(addr, data) else WritePart(addr, data) + [CMD_I2C_READ, addr, rlen]
  }

  const TRANSFER_INIT: seq<byte> := [CMD_PORT_CFG, 0, 0x20, CMD_MODE_IDLE, CMD_IFCONFIG, 0xe3]
  const STREAM_ON: seq<byte> := [CMD_EP6IN_START, CMD_PORT_WRITE, 0x20]
  const STREAM_OFF: seq<byte> := [CMD_EP6IN_STOP, CMD_MODE_IDLE]

  /**
   * What the firmware understands of an I2C packet, for every length the driver lets through.  It
   * takes no more than 16 bytes in either direction: a longer write is dropped as a whole, with
   * the read behind it, and a longer read is dropped after its write was executed.
   */
  lemma I2cPacketMeans(addr: byte, data: seq<byte>, rlen: byte)
    requires 1 <= |data| < 256
    ensures Decode(I2cPacket(addr, data, rlen)) ==
      if |data| > 16 then Decoded([], true)
      else if rlen == 0 then Decoded([I2cWrite(addr, data)], false)
      else if rlen > 16 then Decoded([I2cWrite(addr, data)], true)
      else Decoded([I2cWrite(addr, data), I2cRead(addr, rlen)], false)
  {
    var rest: seq<byte> := if rlen == 0 then [] else [CMD_I2C_READ, addr, rlen];
    assert I2cPacket(addr, data, rlen) == WritePart(addr, data) + rest;
    if |data| <= I2C_BUF_LEN {
      DecodeFront(I2cWrite(addr, data), rest);
      if 0 < rlen <= I2C_BUF_LEN {
        DecodeFront(I2cRead(addr, rlen), []);
        assert rest + [] == rest;
      }
    }
  }

  lemma DecodeFront(c: Cmd, rest: seq<byte>)
    requires Encodable(c)
    ensures Decode(Encode(c) + rest) == Decoded([c] + Decode(rest).cmds, Decode(rest).cut)
  {
    EncodedIsTaken(c, rest);
    assert (Encode(c) + rest)[|Encode(c)|..] == rest;
    hide DecodeOne, Encode;
  }

  lemma StreamPacketsMean()
    ensures Decode(TRANSFER_INIT) == Decoded([PortCfg(0, 0x20), ModeIdle, IfConfig(0xe3)], false)
    ensures Decode(STREAM_ON) == Decoded([Ep6Start, PortWrite(0x20)], false)
    ensures Decode(STREAM_OFF) == Decoded([Ep6Stop, ModeIdle], false)
  {
    hide Decode;
    TwoMean(Ep6Start, PortWrite(0x20));
    TwoMean(Ep6Stop, ModeIdle);
    TwoMean(ModeIdle, IfConfig(0xe3));
    DecodeFront(PortCfg(0, 0x20), [CMD_MODE_IDLE, CMD_IFCONFIG, 0xe3]);
    assert Encode(ModeIdle) + Encode(IfConfig(0xe3)) == [CMD_MODE_IDLE, CMD_IFCONFIG, 0xe3];
    assert Encode(PortCfg(0, 0x20)) + [CMD_MODE_IDLE, CMD_IFCONFIG, 0xe3] == TRANSFER_INIT;
    assert Encode(Ep6Start) + Encode(PortWrite(0x20)) == STREAM_ON;
    assert Encode(Ep6Stop) + Encode(ModeIdle) == STREAM_OFF;
  }

  lemma TwoMean(a: Cmd, b: Cmd)
    requires Encodable(a) && Encodable(b)
    ensures Decode(Encode(a) + Encode(b)) == Decoded([a, b], false)
  {
    DecodeFront(a, Encode(b));
    DecodeFront(b, []);
    assert Encode(b) + [] == Encode(b);
    hide DecodeOne, Encode;
  }

  /** The bytes of the packets. */
  lemma PacketBytesAre(addr: byte, data: seq<byte>, rlen: byte)
    requires |data| < 256
    ensures I2cPacket(addr, data, rlen) ==
      [0x61, addr, |data|] + data + (if rlen == 0 then [] else [0x60, addr, rlen])
    ensures TRANSFER_INIT == [0x54, 0x00, 0x20, 0x5a, 0x59, 0xe3]
    ensures STREAM_ON == [0x50, 0x58, 0x20] && STREAM_OFF == [0x51, 0x5a]
  {
  }

  // ---------- planning a transfer ----------

  /** What akb_pcr20x_i2c_xfer does with the message at hand: refuse it, or send a packet for it. */
  datatype Plan =
    | Refuse(code: int)
    | Transfer(packet: seq<byte>, rlen: nat, consumed: nat)

  function PlanOne(msgs: seq<Msg>, i: nat): (plan: Plan)
    requires i < |msgs| && Sized(msgs)
    ensures plan.Transfer? ==> 1 <= plan.consumed <= 2 && i + plan.consumed <= |msgs|
    ensures plan.Transfer? ==> |plan.packet| <= MAX_I2C_BUFFER_SIZE && plan.rlen <= MAX_I2C_BUFFER_SIZE
    ensures plan.Refuse? ==> plan.code < 0
  {
    var m := msgs[i];
    if m.len == 0 || m.len > 255 then Refuse(EOPNOTSUPP)
    else if m.addr > 255 || m.ten then Refuse(EOPNOTSUPP)
    else if m.rd then Refuse(EOPNOTSUPP)
    else if i + 1 < |msgs| && msgs[i + 1].rd && m.addr == msgs[i + 1].addr then
      var rlen := msgs[i + 1].len;
      if rlen == 0 || rlen > 255 then Refuse(EOPNOTSUPP)
      else if rlen > MAX_I2C_BUFFER_SIZE then Refuse(EINVAL)
      else if 3 + m.len + 3 > MAX_I2C_BUFFER_SIZE then Refuse(EINVAL)
      else Transfer(I2cPacket(m.addr, m.buf, rlen), rlen, 2)
    else if 3 + m.len > MAX_I2C_BUFFER_SIZE then Refuse(EINVAL)
    else Transfer(I2cPacket(m.addr, m.buf, 0), 0, 1)
  }

  /** A read right behind a write to the same address. */
  predicate Answers(msgs: seq<Msg>, i: nat)
    requires i < |msgs|
  {
    msgs[i].rd && i > 0 && !msgs[i - 1].rd && msgs[i - 1].addr == msgs[i].addr
  }

  /** What the driver asks of one message. */
  predicate Acceptable(msgs: seq<Msg>, i: nat)
    requires i < |msgs|
  {
    if Answers(msgs, i) then 1 <= msgs[i].len <= 64
    else
      && !msgs[i].rd && !msgs[i].ten && msgs[i].addr <= 255
      && 1 <= msgs[i].len <= (if i + 1 < |msgs| && Answers(msgs, i + 1) then 58 else 61)
  }

  /** A list is planned without refusal exactly if every message of it is acceptable. */
  lemma {:induction false} RefusalMeans(msgs: seq<Msg>, i: nat)
    requires i <= |msgs| && Sized(msgs) && (i < |msgs| ==> !Answers(msgs, i))
    ensures Refusal(msgs, i) == 0 <==> forall k :: i <= k < |msgs| ==> Acceptable(msgs, k)
    decreases |msgs| - i
  {
    if i < |msgs| {
      PlanMeans(msgs, i);
      if PlanOne(msgs, i).Transfer? {
        var n := PlanOne(msgs, i).consumed;
        hide PlanOne, Acceptable;
        RefusalMeans(msgs, i + n);
      } else {
        hide Acceptable;
      }
    }
  }

  /** The verdict on the message at hand: EOPNOTSUPP for what the protocol cannot say, EINVAL for what is too long. */
  lemma PlanMeans(msgs: seq<Msg>, i: nat)
    requires i < |msgs| && Sized(msgs) && !Answers(msgs, i)
    ensures var paired := i + 1 < |msgs| && Answers(msgs, i + 1);
      var m, plan := msgs[i], PlanOne(msgs, i);
      var unsayable := m.rd || m.ten || m.addr > 255 || m.len == 0 || m.len > 255
        || (paired && (msgs[i + 1].len == 0 || msgs[i + 1].len > 255));
      && (plan.Transfer? <==> Acceptable(msgs, i) && (paired ==> Acceptable(msgs, i + 1)))
      && (plan.Refuse? ==> plan.code == if unsayable then -95 else -22)
      && (plan.Transfer? ==>
            && plan.consumed == (if paired then 2 else 1) && plan.rlen == (if paired then msgs[i + 1].len else 0)
            && (i + plan.consumed < |msgs| ==> !Answers(msgs, i + plan.consumed)))
  {
    hide I2cPacket;
  }

  /** The commands a message list asks for from message i on, up to the first one refused. */
  function Requests(msgs: seq<Msg>, i: nat): seq<Cmd>
    requires i <= |msgs| && Sized(msgs)
    decreases |msgs| - i
  {
    if i == |msgs| then []
    else
      match PlanOne(msgs, i)
      case Refuse(_) => []
      case Transfer(packet, _, consumed) => Decode(packet).cmds + Requests(msgs, i + consumed)
  }

  /** The error of the first message that is refused, or zero. */
  function Refusal(msgs: seq<Msg>, i: nat): (code: int)
    requires i <= |msgs| && Sized(msgs)
    ensures code <= 0
    decreases |msgs| - i
  {
    if i == |msgs| then 0
    else
      match PlanOne(msgs, i)
      case Refuse(code) => code
      case Transfer(_, _, consumed) => Refusal(msgs, i + consumed)
  }

  /** Up to there, every write with a read behind it has lengths the firmware takes. */
  predicate PairsFit(msgs: seq<Msg>, i: nat)
    requires i <= |msgs| && Sized(msgs)
    decreases |msgs| - i
  {
    i == |msgs| ||
    match PlanOne(msgs, i)
    case Refuse(_) => true
    case Transfer(_, rlen, consumed) =>
      (rlen > 0 ==> msgs[i].len <= I2C_BUF_LEN && rlen <= I2C_BUF_LEN) && PairsFit(msgs, i + consumed)
  }

  /**
   * What is executed while all reads are answered: the commands of every packet up to the first
   * refusal, or up to the first pair that is too long for the firmware, of which only a write of at
   * most sixteen bytes is left.
   */
  function Executes(msgs: seq<Msg>, i: nat): seq<Cmd>
    requires i <= |msgs| && Sized(msgs)
    decreases |msgs| - i
  {
    if i == |msgs| then []
    else
      match PlanOne(msgs, i)
      case Refuse(_) => []
      case Transfer(packet, rlen, consumed) =>
        if rlen > 0 && (msgs[i].len > I2C_BUF_LEN || rlen > I2C_BUF_LEN) then
          if msgs[i].len > I2C_BUF_LEN then [] else [I2cWrite(msgs[i].addr, msgs[i].buf)]
        else Decode(packet).cmds + Executes(msgs, i + consumed)
  }

  /** With pairs that fit, everything is executed. */
  lemma {:induction false} FittingExecutes(msgs: seq<Msg>, i: nat)
    requires i <= |msgs| && Sized(msgs) && PairsFit(msgs, i)
    ensures Executes(msgs, i) == Requests(msgs, i)
    decreases |msgs| - i
  {
    hide Decode, PlanOne;
    if i < |msgs| && PlanOne(msgs, i).Transfer? {
      FittingExecutes(msgs, i + PlanOne(msgs, i).consumed);
    }
  }

  /** How many packets up to there ask for a reply. */
  function ReadsWanted(msgs: seq<Msg>, i: nat): nat
    requires i <= |msgs| && Sized(msgs)
    decreases |msgs| - i
  {
    if i == |msgs| then 0
    else
      match PlanOne(msgs, i)
      case Refuse(_) => 0
      case Transfer(_, rlen, consumed) => (if rlen > 0 then 1 else 0) + ReadsWanted(msgs, i + consumed)
  }

  /** A read is only allowed right after a write to the same address. */
  predicate Paired(msgs: seq<Msg>, i: nat)
    requires i < |msgs|
  {
    msgs[i].rd ==> i > 0 && !msgs[i - 1].rd && msgs[i - 1].addr == msgs[i].addr
  }

  /** The message lists the two ends agree on. */
  predicate WellFormed(msgs: seq<Msg>) {
    forall i :: 0 <= i < |msgs| ==>
      && |msgs[i].buf| == msgs[i].len && 1 <= msgs[i].len <= I2C_BUF_LEN
      && msgs[i].addr < 128 && !msgs[i].ten
      && Paired(msgs, i)
  }

  function Request(m: Msg): Cmd
    requires m.addr < 256 && m.len < 256
  {
    if m.rd then I2cRead(m.addr, m.len) else I2cWrite(m.addr, m.buf)
  }

  /** The messages one packet stands for. */
  function Asked(msgs: seq<Msg>, i: nat, consumed: nat): seq<Cmd>
    requires WellFormed(msgs) && i + consumed <= |msgs|
  {
    seq(consumed, k requires 0 <= k < consumed => Request(msgs[i + k]))
  }

  lemma WellFormedPlan(msgs: seq<Msg>, i: nat)
    requires WellFormed(msgs) && i < |msgs| && !msgs[i].rd
    ensures var plan := PlanOne(msgs, i);
      && plan.Transfer?
      && Decode(plan.packet) == Decoded(Asked(msgs, i, plan.consumed), false)
      && plan.rlen == (if plan.consumed == 2 then msgs[i + 1].len else 0)
      && (plan.consumed == 2 ==> msgs[i + 1].rd && plan.rlen > 0)
      && (i + plan.consumed < |msgs| ==> !msgs[i + plan.consumed].rd)
  {
    var m := msgs[i];
    hide Decode, I2cPacket;
    if i + 1 < |msgs| && msgs[i + 1].rd {
      I2cPacketMeans(m.addr, m.buf, msgs[i + 1].len);
      assert Asked(msgs, i, 2) == [Request(m), Request(msgs[i + 1])];
    } else {
      I2cPacketMeans(m.addr, m.buf, 0);
      assert Asked(msgs, i, 1) == [Request(m)];
    }
  }

  /** A well-formed list is planned without refusal, one command a message and in order. */
  lemma {:induction false} WellFormedRequests(msgs: seq<Msg>, i: nat)
    requires WellFormed(msgs) && i <= |msgs| && (i < |msgs| ==> !msgs[i].rd)
    ensures Requests(msgs, i) == Asked(msgs, i, |msgs| - i)
    ensures Refusal(msgs, i) == 0 && PairsFit(msgs, i)
    decreases |msgs| - i
  {
    hide Decode, PlanOne, Request, Paired;
    if i < |msgs| {
      WellFormedPlan(msgs, i);
      var n := PlanOne(msgs, i).consumed;
      WellFormedRequests(msgs, i + n);
      AskedSplits(msgs, i, n, |msgs| - i);
    }
  }

  lemma AskedSplits(msgs: seq<Msg>, i: nat, n: nat, m: nat)
    requires WellFormed(msgs) && n <= m && i + m <= |msgs|
    ensures Asked(msgs, i, m) == Asked(msgs, i, n) + Asked(msgs, i + n, m - n)
  {
    hide Request, Paired;
  }
}
