/**
 * The command language of the EP1 OUT packets (fw/akb_pcr20x_fw.c): a decoder for packets, an
 * encoder, and the meaning of a command list.
 */
module Protocol {
  import opened Bytes
  import opened Registers
  import opened I2cBus
  import opened I2cTrace
  import opened I2cEngine

  /** Port D: the two upper bits are the mode, the others the address. */
  const MODE_PINS: Reg := {6, 7}       // 0xc0
  const ADDRESS_PINS: Reg := {0, 1, 2, 3, 4, 5}  // 0x3f
  const ALL_PINS: Reg := MODE_PINS + ADDRESS_PINS

  const MODE_IDLE: Reg := {}           // 0x00
  const MODE_REGR: Reg := {6}          // 0x40
  const MODE_REGW: Reg := {7}          // 0x80
  const MODE_START: Reg := {6, 7}      // 0xc0

  const CMD_EP6IN_START: byte := 0x50
  const CMD_EP6IN_STOP: byte := 0x51
  const CMD_EP2OUT_START: byte := 0x52
  const CMD_EP2OUT_STOP: byte := 0x53
  const CMD_PORT_CFG: byte := 0x54
  const CMD_REG_READ: byte := 0x55
  const CMD_REG_WRITE: byte := 0x56
  const CMD_PORT_READ: byte := 0x57
  const CMD_PORT_WRITE: byte := 0x58
  const CMD_IFCONFIG: byte := 0x59
  const CMD_MODE_IDLE: byte := 0x5a
  const CMD_EP4IN_START: byte := 0x5b
  const CMD_EP4IN_STOP: byte := 0x5c
  const CMD_I2C_READ: byte := 0x60
  const CMD_I2C_WRITE: byte := 0x61
  const CMD_I2C_STATUS: byte := 0x62

  const I2C_BUF_LEN: nat := 16

  // ---------- syntax ----------

  datatype Cmd =
    | I2cRead(adrs: byte, len: byte)
    | I2cWrite(adrs: byte, data: seq<byte>)
    | I2cStatus
    | RegWrite(reg: byte, val: byte)
    | RegRead(reg: byte)
    | PortWrite(val: byte)
    | PortRead
    | PortCfg(keep: byte, enable: byte)
    | IfConfig(val: byte)
    | Ep6Start | Ep6Stop | Ep4Start | Ep4Stop | Ep2Start | Ep2Stop
    | ModeIdle
    | Skip(b: byte)   // a byte that is no command: ignored

  predicate IsOpcode(b: byte) {
    0x50 <= b <= 0x5c || 0x60 <= b <= 0x62
  }

  /** The commands a packet can carry. */
  predicate Encodable(c: Cmd) {
    match c
    case I2cRead(_, len) => len <= I2C_BUF_LEN
    case I2cWrite(_, data) => |data| <= I2C_BUF_LEN
    case Skip(b) => !IsOpcode(b)
    case _ => true
  }

  function Encode(c: Cmd): seq<byte>
    requires Encodable(c)
  {
    match c
    case I2cRead(adrs, len) => [CMD_I2C_READ, adrs, len]
    case I2cWrite(adrs, data) => [CMD_I2C_WRITE, adrs, |data|] + data
    case I2cStatus => [CMD_I2C_STATUS]
    case RegWrite(reg, val) => [CMD_REG_WRITE, reg, val]
    case RegRead(reg) => [CMD_REG_READ, reg]
    case PortWrite(val) => [CMD_PORT_WRITE, val]
    case PortRead => [CMD_PORT_READ]
    case PortCfg(keep, enable) => [CMD_PORT_CFG, keep, enable]
    case IfConfig(val) => [CMD_IFCONFIG, val]
    case Ep6Start => [CMD_EP6IN_START]
    case Ep6Stop => [CMD_EP6IN_STOP]
    case Ep4Start => [CMD_EP4IN_START]
    case Ep4Stop => [CMD_EP4IN_STOP]
    case Ep2Start => [CMD_EP2OUT_START]
    case Ep2Stop => [CMD_EP2OUT_STOP]
    case ModeIdle => [CMD_MODE_IDLE]
    case Skip(b) => [b]
  }

  function EncodeAll(cmds: seq<Cmd>): seq<byte>
    requires forall c :: c in cmds ==> Encodable(c)
  {
    if cmds == [] then [] else Encode(cmds[0]) + EncodeAll(cmds[1..])
  }

  /** One command taken from the front of a packet, or the verdict that the packet is cut short. */
  datatype Taken = Taken(cmd: Cmd, size: nat) | Cut

  function TakeIf(enough: bool, cmd: Cmd, size: nat): Taken {
    if enough then Taken(cmd, size) else Cut
  }

  /** The commands without arguments. */
  function Plain(b: byte): Cmd {
    match b
    case 0x57 => PortRead
    case 0x50 => Ep6Start
    case 0x51 => Ep6Stop
    case 0x5b => Ep4Start
    case 0x5c => Ep4Stop
    case 0x52 => Ep2Start
    case 0x53 => Ep2Stop
    case 0x5a => ModeIdle
    case _ => Skip(b)
  }

  function DecodeOne(p: seq<byte>): Taken
    requires p != []
  {
    var args := p[1..];
    var arg0 := if |args| > 0 then args[0] else 0;
    var arg1 := if |args| > 1 then args[1] else 0;
    match p[0]
    case 0x60 =>
      TakeIf(|args| >= 2 && arg1 <= I2C_BUF_LEN, I2cRead(arg0, arg1), 3)
    case 0x61 =>
      if |args| >= 2 && arg1 <= I2C_BUF_LEN && |args| - 2 >= arg1 then
        Taken(I2cWrite(arg0, args[2..2 + arg1]), 3 + arg1)
      else
        Cut
    case 0x62 => Taken(I2cStatus, 1)
    case 0x56 => TakeIf(|args| >= 2, RegWrite(arg0, arg1), 3)
    case 0x55 => TakeIf(|args| >= 1, RegRead(arg0), 2)
    case 0x58 => TakeIf(|args| >= 1, PortWrite(arg0), 2)
    case 0x54 => TakeIf(|args| >= 2, PortCfg(arg0, arg1), 3)
    case 0x59 => TakeIf(|args| >= 1, IfConfig(arg0), 2)
    case b => Taken(Plain(b), 1)
  }

  lemma TakenFits(p: seq<byte>)
    requires p != [] && DecodeOne(p).Taken?
    ensures 1 <= DecodeOne(p).size <= |p|
    ensures Encodable(DecodeOne(p).cmd)
    ensures Encode(DecodeOne(p).cmd) == p[..DecodeOne(p).size]
  {
  }

  lemma EncodedIsTaken(c: Cmd, rest: seq<byte>)
    requires Encodable(c)
    ensures DecodeOne(Encode(c) + rest) == Taken(c, |Encode(c)|)
  {
    var p := Encode(c) + rest;
    match c
    case I2cWrite(adrs, data) =>
      assert p[1..] == [adrs, |data|] + data + rest;
      assert p[1..][2..2 + |data|] == data;
    case I2cRead(a, b) => assert p[1..] == [a, b] + rest;
    case RegWrite(a, b) => assert p[1..] == [a, b] + rest;
    case PortCfg(a, b) => assert p[1..] == [a, b] + rest;
    case RegRead(a) => assert p[1..] == [a] + rest;
    case PortWrite(a) => assert p[1..] == [a] + rest;
    case IfConfig(a) => assert p[1..] == [a] + rest;
    case _ =>
  }

  lemma MoreIsTaken(p: seq<byte>, rest: seq<byte>)
    requires p != [] && DecodeOne(p).Taken?
    ensures DecodeOne(p + rest) == DecodeOne(p)
  {
    assert (p + rest)[1..] == p[1..] + rest;
    if DecodeOne(p).cmd.I2cWrite? {
      var n := DecodeOne(p).size - 3;
      assert (p[1..] + rest)[2..2 + n] == p[1..][2..2 + n];
    }
  }

  /** A whole packet: its commands in order, and whether the last one was cut short. */
  datatype Decoded = Decoded(cmds: seq<Cmd>, cut: bool)

  function Decode(p: seq<byte>): Decoded
    decreases |p|
  {
    if p == [] then Decoded([], false)
    else
      match DecodeOne(p)
      case Cut => Decoded([], true)
      case Taken(cmd, size) =>
        TakenFits(p);
        var rest := Decode(p[size..]);
        Decoded([cmd] + rest.cmds, rest.cut)
  }

  /** Decoding undoes encoding. */
  lemma {:induction false} EncodedIsDecoded(cmds: seq<Cmd>)
    requires forall c :: c in cmds ==> Encodable(c)
    ensures Decode(EncodeAll(cmds)) == Decoded(cmds, false)
  {
    if cmds != [] {
      var rest := EncodeAll(cmds[1..]);
      EncodedIsTaken(cmds[0], rest);
      EncodedIsDecoded(cmds[1..]);
      assert (Encode(cmds[0]) + rest)[|Encode(cmds[0])|..] == rest;
    }
  }

  /**
   * Encoding undoes decoding: the commands account for the packet byte by byte, and for all of it
   * exactly when nothing was cut short.
   */
  lemma {:induction false} DecodedIsEncoded(p: seq<byte>)
    ensures forall c :: c in Decode(p).cmds ==> Encodable(c)
    ensures EncodeAll(Decode(p).cmds) <= p
    ensures Decode(p).cut <==> EncodeAll(Decode(p).cmds) < p
    decreases |p|
  {
    hide DecodeOne, Encode;
    if p != [] && DecodeOne(p).Taken? {
      TakenFits(p);
      var size := DecodeOne(p).size;
      DecodedIsEncoded(p[size..]);
      assert Decode(p).cmds[1..] == Decode(p[size..]).cmds;
      assert p == p[..size] + p[size..];
    }
  }

  lemma DecodeNothing()
    ensures Decode([]) == Decoded([], false)
  {
  }

  lemma DecodeStep(p: seq<byte>)
    requires p != []
    ensures DecodeOne(p).Cut? ==> Decode(p) == Decoded([], true)
    ensures DecodeOne(p).Taken? ==>
      var size := DecodeOne(p).size;
      && 1 <= size <= |p|
      && Decode(p) == Decoded([DecodeOne(p).cmd] + Decode(p[size..]).cmds, Decode(p[size..]).cut)
  {
    hide DecodeOne, Encode, Encodable;
    if DecodeOne(p).Taken? {
      TakenFits(p);
    }
  }

  /** A packet that is not cut short can be followed by another one. */
  lemma {:induction false} DecodeConcat(a: seq<byte>, b: seq<byte>)
    requires !Decode(a).cut
    ensures Decode(a + b) == Decoded(Decode(a).cmds + Decode(b).cmds, Decode(b).cut)
    decreases |a|
  {
    hide DecodeOne, Encode, Encodable, Decode;
    if a == [] {
      DecodeNothing();
      assert a + b == b;
    } else {
      DecodeStep(a);
      DecodeStep(a + b);
      MoreIsTaken(a, b);
      var size := DecodeOne(a).size;
      assert (a + b)[size..] == a[size..] + b;
      DecodeConcat(a[size..], b);
      assert [DecodeOne(a).cmd] + (Decode(a[size..]).cmds + Decode(b).cmds)
          == ([DecodeOne(a).cmd] + Decode(a[size..]).cmds) + Decode(b).cmds;
    }
  }

  // ---------- meaning ----------

  /** The port, bus and FIFO registers the commands work on. */
  datatype Regs = Regs(
    iod: Reg,            // the latch of port D
    oed: Reg,
    iob: Reg,            // the latch of port B
    oeb: Reg,
    addrMask: Reg,
    ifconfig: byte,
    valIfconfig: byte,
    ep2fifocfg: byte,
    ep4fifocfg: byte,
    ep6fifocfg: byte)

  /** Everything a packet can change, apart from the I2C bus. */
  datatype State = State(regs: Regs, readErrCnt: word, writeErrCnt: word, diag: Diag)

  /** main_init. */
  function PoweredUp(): State {
    State(Regs({}, MODE_PINS, {}, {}, {}, 0, 0, 0x04, 0x04, 0x04), 0, 0, Diag(0, 0, 0, 0))
  }

  /**
   * What the outside world answered while a command was executed: the verdict, the data, the bus
   * frame and the diagnosis of an I2C call, whether an interrupt cancelled it, whether its last wait
   * for DONE used up all polls, which part of the trace it took, and the levels at the pins of ports
   * B and D.
   */
  datatype Obs = Obs(
    ok: bool, data: seq<byte>, frame: seq<Wire>, berrs: nat, timeouts: nat,
    cancelled: bool, starved: bool, from: nat, to: nat, pinsB: Reg, pinsD: Reg)

  /** What a command observes that does not touch the I2C bus. */
  function Unheard(pinsB: Reg, pinsD: Reg): Obs {
    Obs(true, [], [], 0, 0, false, false, 0, 0, pinsB, pinsD)
  }

  datatype Event = Event(cmd: Cmd, obs: Obs)

  /** Reading a port gives the latch where the pin is an output and the pin's level elsewhere. */
  function ReadPort(latch: Reg, enabled: Reg, pins: Reg): Reg {
    latch * enabled + (pins * ALL_PINS - enabled)
  }

  function StartMode(r: Regs, pins: Reg): Regs {
    r.(ifconfig := r.valIfconfig, iod := MODE_START + ReadPort(r.iod, r.oed, pins) * ADDRESS_PINS)
  }

  function IdleMode(r: Regs, pins: Reg): Regs {
    r.(iod := MODE_IDLE + ReadPort(r.iod, r.oed, pins) * ADDRESS_PINS)
  }

  function ExecRegs(r: Regs, cmd: Cmd, o: Obs): Regs {
    var iod := ReadPort(r.iod, r.oed, o.pinsD);
    match cmd
    case RegWrite(reg, val) =>
      r.(iod := MODE_REGW + iod * r.addrMask + RegOf(reg), ifconfig := 0xe0, oeb := ALL_PINS, iob := RegOf(val))
    case RegRead(reg) =>
      r.(iod := MODE_REGR + iod * r.addrMask + RegOf(reg), ifconfig := 0xe0, oeb := {})
    case PortWrite(val) => r.(iod := (iod - r.addrMask) + RegOf(val))
    case PortCfg(keep, enable) =>
      r.(oed := RegOf(enable) + (RegOf(keep) + MODE_PINS), addrMask := ALL_PINS - (RegOf(keep) + MODE_PINS))
    case IfConfig(val) => r.(valIfconfig := val)
    case Ep6Start => StartMode(r, o.pinsD).(ep6fifocfg := 0x0c)
    case Ep6Stop => r.(ep6fifocfg := 0x04)
    case Ep4Start => StartMode(r, o.pinsD).(ep4fifocfg := 0x0c)
    case Ep4Stop => r.(ep4fifocfg := 0x04)
    case Ep2Start => StartMode(r, o.pinsD).(ep2fifocfg := 0x10)
    case Ep2Stop => r.(ep2fifocfg := 0x04)
    case ModeIdle => IdleMode(r, o.pinsD)
    case _ => r
  }

  function TwoBytes(w: word): seq<byte> {
    [Msb(w), Lsb(w)]
  }

  function StatusReply(s: State): seq<byte> {
    TwoBytes(s.readErrCnt) + TwoBytes(s.writeErrCnt)
    + TwoBytes(Wrap16(s.diag.berrRead)) + TwoBytes(Wrap16(s.diag.berrWrite))
    + TwoBytes(Wrap16(s.diag.timeoutRead)) + TwoBytes(Wrap16(s.diag.timeoutWrite))
  }

  /** The state after one command. */
  function Exec(s: State, e: Event): State {
    match e.cmd
    case I2cRead(_, _) =>
      s.(diag := s.diag.Add(true, e.obs.berrs, e.obs.timeouts).Wrapped(),
         readErrCnt := if e.obs.ok then s.readErrCnt else Wrap16(s.readErrCnt + 1))
    case I2cWrite(_, _) =>
      s.(diag := s.diag.Add(false, e.obs.berrs, e.obs.timeouts).Wrapped(),
         writeErrCnt := if e.obs.ok then s.writeErrCnt else Wrap16(s.writeErrCnt + 1))
    case _ => s.(regs := ExecRegs(s.regs, e.cmd, e.obs))
  }

  /** The bytes one command adds to the reply; `s` is the state before it. */
  function Reply(s: State, e: Event): seq<byte> {
    match e.cmd
    case I2cRead(_, _) => if e.obs.ok then e.obs.data else []
    case I2cStatus => StatusReply(s)
    case RegRead(_) => [ByteOf(ReadPort(s.regs.iob, {}, e.obs.pinsB))]
    case PortRead => [ByteOf(ReadPort(s.regs.iod, s.regs.oed, e.obs.pinsD))]
    case _ => []
  }

  /** The state after a list of commands, and everything they wrote to the IN buffer. */
  function Run(s: State, events: seq<Event>): State {
    if events == [] then s
    else Exec(Run(s, events[..|events| - 1]), events[|events| - 1])
  }

  function Replies(s: State, events: seq<Event>): seq<byte> {
    if events == [] then []
    else
      var before := events[..|events| - 1];
      Replies(s, before) + Reply(Run(s, before), events[|events| - 1])
  }

  function Cmds(events: seq<Event>): seq<Cmd> {
    seq(|events|, i requires 0 <= i < |events| => events[i].cmd)
  }

  lemma OneMore(s: State, events: seq<Event>, e: Event)
    ensures Run(s, events + [e]) == Exec(Run(s, events), e)
    ensures Replies(s, events + [e]) == Replies(s, events) + Reply(Run(s, events), e)
    ensures Cmds(events + [e]) == Cmds(events) + [e.cmd]
  {
    assert (events + [e])[..|events|] == events;
  }

  /** Executing A and then B is executing A ++ B: state and reply. */
  lemma {:induction false} RunConcat(s: State, a: seq<Event>, b: seq<Event>)
    ensures Run(s, a + b) == Run(Run(s, a), b)
    ensures Replies(s, a + b) == Replies(s, a) + Replies(Run(s, a), b)
  {
    hide Exec, Reply;
    if b == [] {
      assert a + b == a;
    } else {
      var c := b[..|b| - 1];
      RunConcat(s, a, c);
      assert (a + b)[..|a + b| - 1] == a + c;
    }
  }

  // ---------- what an execution may observe ----------

  /**
   * Why a call answers FALSE: twenty bus errors or a wait given up, which count a timeout; a
   * cancellation; or a slave that refused a byte.
   */
  predicate Explained(o: Obs) {
    && o.timeouts <= 1 && o.berrs < BERR_MAX_RETRY + o.timeouts
    && (o.timeouts == 1 ==> !o.ok && (o.berrs == BERR_MAX_RETRY || o.cancelled || o.starved))
    && (!o.ok && o.timeouts == 0 ==> o.cancelled || Refused(o.frame))
  }

  /**
   * The observations the I2C engine can make: a successful call put the requested frame on the
   * wires and, for a read, delivered its bytes; a failed one is explained.
   */
  ghost predicate Genuine(e: Event) {
    match e.cmd
    case I2cRead(adrs, len) =>
      && len <= I2C_BUF_LEN
      && Explained(e.obs)
      && (e.obs.ok ==>
            && |e.obs.data| == len
            && (len != 0 ==> e.obs.frame == ReadFrame(adrs, e.obs.data, true))
            && (len == 0 ==> exists b: byte :: e.obs.frame == ReadFrame(adrs, [b], false)))
    case I2cWrite(adrs, data) =>
      && |data| <= I2C_BUF_LEN
      && Explained(e.obs)
      && (e.obs.ok ==> e.obs.frame == WriteFrame(adrs, data))
    case _ => true
  }

  ghost predicate AllGenuine(events: seq<Event>) {
    forall e :: e in events ==> Genuine(e)
  }

  predicate IsCall(c: Cmd) {
    c.I2cRead? || c.I2cWrite?
  }

  /** What the hardware's behaviour means for a command. */
  ghost predicate Conforms(env: Env, e: Event) {
    && (Flawless(env) ==> e.obs.ok)
    && (Silent(env) && IsCall(e.cmd) ==> !e.obs.ok)
    && (e.obs.cancelled ==> exists t: nat :: env.raiseCancel(t))
  }

  ghost predicate AllConform(env: Env, events: seq<Event>) {
    forall e :: e in events ==> Conforms(env, e)
  }
}
