/**
 * What the FX2 I2C controller puts on the two wires.
 *
 * The firmware touches the controller only through I2CS and I2DAT.  Each access is an `Access`;
 * `Next` is the controller: it turns the accesses made since the last START into the bus frame
 * they produce, in the terms of NXP UM10204: START and STOP conditions (section 3.1.4),
 * acknowledged bytes (section 3.1.6), and an address byte whose low bit is the direction
 * (section 3.1.10).
 */
module I2cBus {
  import opened Bytes

  datatype Access =
    | SetStart                 // I2CS |= bmSTART
    | SetStop                  // I2CS |= bmSTOP
    | SetLastRd                // I2CS |= bmLASTRD
    | TestDone(on: bool)      // I2CS & bmDONE
    | TestStop(on: bool)      // I2CS & bmSTOP
    | TestBerr(on: bool)      // I2CS & bmBERR
    | TestAck(on: bool)       // I2CS & bmACK
    | PutData(b: byte)         // I2DAT = b
    | GetData(b: byte)         // ... = I2DAT, which holds b

  datatype Answer = Unknown | Ack | Nack

  datatype Wire =
    | Start
    | Sent(b: byte, answer: Answer)        // master to slave, answered by the slave
    | Received(b: byte, acknowledged: bool) // slave to master, answered by the master
    | Stop

  /** How far the transfer in progress is known to have come. */
  datatype Phase =
    | Shifting   // a byte is on the wires, DONE not seen yet
    | Unchecked  // finished, BERR not looked at yet
    | Checked    // finished without a bus error
    | Lost       // BERR was seen: only a new START makes sense

  /** A byte being clocked in that the firmware has not fetched yet. */
  datatype Incoming = Nothing | Coming(acknowledged: bool)

  datatype Bus = Bus(
    frame: seq<Wire>,     // since the last START
    phase: Phase,
    incoming: Incoming,
    lastRd: bool,         // the next byte clocked in will be refused
    stopping: bool,       // STOP follows as soon as the incoming byte is fetched
    legal: bool,          // no access was ever made out of turn
    starts: nat,          // START requests so far
    polls: nat,           // reads of I2CS made inside a wait loop
    waiting: nat,         // polls in a row that found DONE low, up to now
    errors: nat,          // bus errors seen
    refused: nat)         // address bytes answered with NACK

  function PowerUp(): Bus {
    Bus([], Lost, Nothing, false, false, true, 0, 0, 0, 0, 0)
  }

  predicate Addressed(frame: seq<Wire>, read: bool) {
    && |frame| >= 2
    && frame[0] == Start
    && frame[1].Sent?
    && (frame[1].b % 2 == 1) == read
    && frame[|frame| - 1].Sent?
    && frame[|frame| - 1].answer == Ack
  }

  /** May the firmware make this access now?  Testing a status bit is always allowed. */
  predicate InTurn(bus: Bus, access: Access) {
    match access
    case PutData(_) =>
      bus.phase == Checked && bus.incoming == Nothing
      && (bus.frame == [Start] || Addressed(bus.frame, false))
    case GetData(_) =>
      bus.phase == Checked
      && (bus.incoming.Coming? || (|bus.frame| == 2 && Addressed(bus.frame, true)))
    case SetLastRd =>
      bus.phase == Checked && !bus.stopping && !bus.lastRd
    case SetStop =>
      bus.phase == Checked && !bus.stopping && |bus.frame| >= 2 && bus.frame[|bus.frame| - 1] != Stop
    case _ => true
  }

  /** The address was sent and its answer not looked at yet. */
  predicate AwaitsAddress(frame: seq<Wire>) {
    |frame| == 2 && frame[1].Sent? && frame[1].answer == Unknown
  }

  function Answered(frame: seq<Wire>, ack: bool): seq<Wire> {
    if frame != [] && frame[|frame| - 1].Sent? && frame[|frame| - 1].answer == Unknown then
      frame[|frame| - 1 := Sent(frame[|frame| - 1].b, if ack then Ack else Nack)]
    else
      frame
  }

  /** The controller's reaction to one access. */
  function Next(bus: Bus, access: Access): (after: Bus)
    ensures after.starts == bus.starts + (if access.SetStart? then 1 else 0)
    ensures after.polls == bus.polls + (if access.TestDone? || access.TestStop? then 1 else 0)
    ensures after.errors == bus.errors + (if access == TestBerr(true) then 1 else 0)
    ensures after.legal == (bus.legal && InTurn(bus, access))
  {
    var b := bus.(legal := bus.legal && InTurn(bus, access),
                  waiting := if access == TestDone(false) then bus.waiting + 1 else 0);
    match access
    case SetStart =>
      b.(frame := [Start], phase := Unchecked, incoming := Nothing, lastRd := false, stopping := false,
         starts := b.starts + 1)
    case SetStop =>
      if b.incoming.Coming? then b.(stopping := true) else b.(frame := b.frame + [Stop])
    case SetLastRd =>
      b.(lastRd := true)
    case TestDone(on) =>
      b.(polls := b.polls + 1, phase := if on && b.phase == Shifting then Unchecked else b.phase)
    case TestStop(_) =>
      b.(polls := b.polls + 1)
    case TestBerr(on) =>
      if on then b.(phase := Lost, errors := b.errors + 1)
      else b.(phase := if b.phase == Unchecked then Checked else b.phase)
    case TestAck(on) =>
      if b.phase == Checked then
        b.(frame := Answered(b.frame, on), refused := b.refused + (if !on && AwaitsAddress(b.frame) then 1 else 0))
      else b
    case PutData(v) =>
      b.(frame := b.frame + [Sent(v, Unknown)], phase := Shifting)
    case GetData(v) =>
      match b.incoming
      case Nothing =>
        b.(incoming := Coming(!b.lastRd), phase := Shifting)
      case Coming(acknowledged) =>
        var got := b.frame + [Received(v, acknowledged)];
        if b.stopping then b.(frame := got + [Stop], incoming := Nothing, stopping := false)
        else b.(frame := got, incoming := Coming(!b.lastRd), phase := Shifting)
  }

  // ---------- frames of UM10204 ----------

  function AckedBytes(data: seq<byte>): seq<Wire> {
    seq(|data|, i requires 0 <= i < |data| => Sent(data[i], Ack))
  }

  /** addr << 1, with the direction in the lowest bit; an eighth address bit falls off. */
  function AddressByte(addr: byte, read: bool): (b: byte)
    ensures (b % 2 == 1) == read
  {
    (2 * addr) % 256 + (if read then 1 else 0)
  }

  /** START, the address with direction "write", the data, every byte acknowledged. */
  function WriteHead(addr: byte, data: seq<byte>): seq<Wire> {
    [Start, Sent(AddressByte(addr, false), Ack)] + AckedBytes(data)
  }

  function WriteFrame(addr: byte, data: seq<byte>): seq<Wire> {
    WriteHead(addr, data) + [Stop]
  }

  function TakenBytes(data: seq<byte>): seq<Wire> {
    seq(|data|, i requires 0 <= i < |data| => Received(data[i], true))
  }

  function ReadHead(addr: byte, data: seq<byte>): seq<Wire> {
    [Start, Sent(AddressByte(addr, true), Ack)] + TakenBytes(data)
  }

  /**
   * START, the address with direction "read", the received bytes, STOP.  The master acknowledges
   * every byte but the last; `refuseLast` says whether it refuses the last one, as UM10204 asks.
   */
  function ReadFrame(addr: byte, data: seq<byte>, refuseLast: bool): seq<Wire>
    requires data != []
  {
    ReadHead(addr, data[..|data| - 1]) + [Received(data[|data| - 1], !refuseLast), Stop]
  }

  /**
   * What a listener makes of a frame: the address in the upper seven bits of the first byte, the
   * direction in its lowest bit.
   */
  datatype Talk = Talk(addr: int, reading: bool, data: seq<byte>)

  function ByteOn(w: Wire): byte {
    match w
    case Sent(b, _) => b
    case Received(b, _) => b
    case _ => 0
  }

  function Listen(frame: seq<Wire>): Talk
    requires |frame| >= 3
  {
    Talk(ByteOn(frame[1]) / 2, ByteOn(frame[1]) % 2 == 1,
         seq(|frame| - 3, k requires 0 <= k < |frame| - 3 => ByteOn(frame[k + 2])))
  }

  /** START, addr << 1, the data, every byte sent by the master and acknowledged, STOP. */
  predicate WriteOnWires(frame: seq<Wire>, addr: byte, data: seq<byte>) {
    && |frame| == |data| + 3
    && frame[0] == Start && frame[1] == Sent(2 * addr % 256, Ack) && frame[|data| + 2] == Stop
    && forall k :: 0 <= k < |data| ==> frame[k + 2] == Sent(data[k], Ack)
  }

  /** START, addr << 1 | 1, the data sent by the slave, all acknowledged but the last one, STOP. */
  predicate ReadOnWires(frame: seq<Wire>, addr: byte, data: seq<byte>) {
    && |frame| == |data| + 3 && data != []
    && frame[0] == Start && frame[1] == Sent(2 * addr % 256 + 1, Ack) && frame[|data| + 2] == Stop
    && (forall k :: 0 <= k < |data| - 1 ==> frame[k + 2] == Received(data[k], true))
    && frame[|data| + 1] == Received(data[|data| - 1], false)
  }

  lemma FramesOnWires(addr: byte, data: seq<byte>)
    ensures WriteOnWires(WriteFrame(addr, data), addr, data)
    ensures data != [] ==> ReadOnWires(ReadFrame(addr, data, true), addr, data)
  {
  }

  /** A 7-bit address is heard as it was meant, with the direction and the data. */
  lemma TalkIsHeard(frame: seq<Wire>, addr: byte, data: seq<byte>)
    requires addr < 128
    ensures WriteOnWires(frame, addr, data) ==> Listen(frame) == Talk(addr, false, data)
    ensures ReadOnWires(frame, addr, data) ==> Listen(frame) == Talk(addr, true, data)
  {
  }

  /** A frame tells a listener the 7-bit address, the direction and every data byte. */
  lemma FramesAreUnambiguous(a: byte, data: seq<byte>, b: byte, other: seq<byte>)
    requires a < 128 && b < 128
    ensures WriteFrame(a, data) == WriteFrame(b, other) ==> a == b && data == other
    ensures data != [] && other != [] && ReadFrame(a, data, true) == ReadFrame(b, other, true) ==>
      a == b && data == other
    ensures other != [] ==> WriteFrame(a, data) != ReadFrame(b, other, true)
  {
    if WriteFrame(a, data) == WriteFrame(b, other) {
      assert |data| + 3 == |WriteFrame(a, data)| == |WriteFrame(b, other)| == |other| + 3;
      forall k | 0 <= k < |data| ensures data[k] == other[k] {
        assert WriteFrame(a, data)[k + 2] == Sent(data[k], Ack);
        assert WriteFrame(b, other)[k + 2] == Sent(other[k], Ack);
      }
      assert WriteFrame(a, data)[1] == WriteFrame(b, other)[1];
    }
    if data != [] && other != [] && ReadFrame(a, data, true) == ReadFrame(b, other, true) {
      assert |data| + 3 == |ReadFrame(a, data, true)| == |ReadFrame(b, other, true)| == |other| + 3;
      forall k | 0 <= k < |data| ensures data[k] == other[k] {
        assert ReadFrame(a, data, true)[k + 2].b == data[k];
        assert ReadFrame(b, other, true)[k + 2].b == other[k];
      }
      assert ReadFrame(a, data, true)[1] == ReadFrame(b, other, true)[1];
    }
    if other != [] {
      assert WriteFrame(a, data)[1] == Sent(AddressByte(a, false), Ack);
      assert ReadFrame(b, other, true)[1] == Sent(AddressByte(b, true), Ack);
    }
  }
}
