/**
 * What the firmware's looks at the outside world told it, in order.  The state of the bus and of
 * cancel_i2c_trans is a function of this trace, and every answer in it is one the environment gave.
 */
module I2cTrace {
  import opened Bytes
  import opened I2cBus

  /**
   * Everything the firmware cannot control, as a function of time: the status bits the controller
   * shows, the bytes it holds, and whether an interrupt has raised cancel_i2c_trans since the last
   * look.  Nothing is assumed about it.
   */
  datatype Env = Env(
    done: nat -> bool,
    stop: nat -> bool,
    berr: nat -> bool,
    ack: nat -> bool,
    data: nat -> byte,
    raiseCancel: nat -> bool)

  /** Hardware that never lets the firmware down. */
  ghost predicate Flawless(env: Env) {
    forall t: nat :: env.done(t) && env.ack(t) && !env.berr(t) && !env.raiseCancel(t)
  }

  /** Nobody on the bus ever acknowledges. */
  ghost predicate Silent(env: Env) {
    forall t: nat :: !env.ack(t)
  }

  datatype Look =
    | On(access: Access)
    | LowerCancel             // cancel_i2c_trans = FALSE
    | TestCancel(on: bool)    // an interrupt has raised it since the last look

  /** Asking the outside world takes one unit of time. */
  function Ticks(l: Look): nat {
    if l.TestCancel? || (l.On? && Asks(l.access)) then 1 else 0
  }

  predicate Asks(a: Access) {
    !a.SetStart? && !a.SetStop? && !a.SetLastRd? && !a.PutData?
  }

  predicate Told(env: Env, t: nat, l: Look) {
    match l
    case On(TestDone(on)) => on == env.done(t)
    case On(TestStop(on)) => on == env.stop(t)
    case On(TestBerr(on)) => on == env.berr(t)
    case On(TestAck(on)) => on == env.ack(t)
    case On(GetData(b)) => b == env.data(t)
    case TestCancel(on) => on == env.raiseCancel(t)
    case _ => true
  }

  function Front(trace: seq<Look>): seq<Look>
    requires trace != []
  {
    trace[..|trace| - 1]
  }

  function Last(trace: seq<Look>): Look
    requires trace != []
  {
    trace[|trace| - 1]
  }

  function Time(trace: seq<Look>): nat {
    if trace == [] then 0 else Time(Front(trace)) + Ticks(Last(trace))
  }

  /** Every answer is the environment's. */
  predicate Honest(env: Env, trace: seq<Look>) {
    trace == [] || (Honest(env, Front(trace)) && Told(env, Time(Front(trace)), Last(trace)))
  }

  /** The bus after the accesses of a trace. */
  function Replay(trace: seq<Look>): Bus {
    if trace == [] then PowerUp()
    else if Last(trace).On? then Next(Replay(Front(trace)), Last(trace).access)
    else Replay(Front(trace))
  }

  /** cancel_i2c_trans after a trace. */
  predicate Cancelled(trace: seq<Look>) {
    trace != [] &&
    match Last(trace)
    case LowerCancel => false
    case TestCancel(on) => on || Cancelled(Front(trace))
    case On(_) => Cancelled(Front(trace))
  }

  /** When cancel_i2c_trans was lowered last. */
  function LoweredAt(trace: seq<Look>): nat {
    if trace == [] then 0
    else if Last(trace).LowerCancel? then Time(trace)
    else LoweredAt(Front(trace))
  }

  /** When the last START was requested. */
  function StartedAt(trace: seq<Look>): nat {
    if trace == [] then 0
    else if Last(trace) == On(SetStart) then Time(trace)
    else StartedAt(Front(trace))
  }

  lemma OneLook(trace: seq<Look>, l: Look)
    ensures Front(trace + [l]) == trace && Last(trace + [l]) == l
  {
  }

  lemma {:induction false} PrefixIsHonest(env: Env, trace: seq<Look>, n: nat)
    requires Honest(env, trace) && n <= |trace|
    ensures Honest(env, trace[..n]) && Time(trace[..n]) <= Time(trace)
  {
    if n < |trace| {
      PrefixIsHonest(env, Front(trace), n);
      assert Front(trace)[..n] == trace[..n];
    } else {
      assert trace[..n] == trace;
    }
  }

  /** An interrupt raised cancel_i2c_trans in this time. */
  ghost predicate Raised(env: Env, from: nat, to: nat) {
    exists t: nat :: from <= t < to && env.raiseCancel(t)
  }

  /** A slave acknowledged in this time. */
  ghost predicate Acknowledged(env: Env, from: nat, to: nat) {
    exists t: nat :: from <= t < to && env.ack(t)
  }

  /** The byte was in I2DAT in this time. */
  ghost predicate Held(env: Env, b: byte, from: nat, to: nat) {
    exists t: nat :: from <= t < to && env.data(t) == b
  }

  /** A raised cancel_i2c_trans was raised by an interrupt after it was lowered last. */
  lemma {:induction false} CancelledWasRaised(env: Env, trace: seq<Look>)
    requires Honest(env, trace)
    ensures LoweredAt(trace) <= Time(trace)
    ensures Cancelled(trace) ==> Raised(env, LoweredAt(trace), Time(trace))
  {
    if trace != [] {
      CancelledWasRaised(env, Front(trace));
      if Last(trace).TestCancel? && Last(trace).on {
        assert env.raiseCancel(Time(Front(trace)));
      }
    }
  }

  /** What the wires say was said: ACKs by a slave, received bytes by the data register, all since START. */
  ghost predicate Vouched(env: Env, w: Wire, from: nat, to: nat) {
    match w
    case Sent(_, Ack) => Acknowledged(env, from, to)
    case Received(b, _) => Held(env, b, from, to)
    case _ => true
  }

  /** Where each wire of a frame comes from: it was there before, or the access has put it there. */
  lemma NewWires(bus: Bus, a: Access, i: nat)
    requires i < |Next(bus, a).frame| && a != SetStart
    ensures var w := Next(bus, a).frame[i];
      || (i < |bus.frame| && w == bus.frame[i])
      || (w.Sent? && (w.answer == Ack ==> a == TestAck(true)))
      || (w.Received? && a == GetData(w.b))
      || w == Stop
  {
  }

  lemma {:induction false} FrameIsVouched(env: Env, trace: seq<Look>, i: nat)
    requires Honest(env, trace) && i < |Replay(trace).frame|
    ensures StartedAt(trace) <= Time(trace)
    ensures Vouched(env, Replay(trace).frame[i], StartedAt(trace), Time(trace))
  {
    hide Next;
    StartIsPast(trace);
    if trace != [] {
      var before, l, t := Replay(Front(trace)), Last(trace), Time(Front(trace));
      StartIsPast(Front(trace));
      if l == On(SetStart) {
        OnlyStart(before);
      } else {
        if l.On? {
          NewWires(before, l.access, i);
        }
        if i < |before.frame| && Replay(trace).frame[i] == before.frame[i] {
          FrameIsVouched(env, Front(trace), i);
          StillVouched(env, before.frame[i], StartedAt(trace), t, Time(trace));
        } else if l.access.TestAck? {
          assert l.access.on == env.ack(t);
        } else if l.access.GetData? {
          assert l.access.b == env.data(t);
        }
      }
    }
  }

  lemma OnlyStart(bus: Bus)
    ensures Next(bus, SetStart).frame == [Start]
  {
  }

  lemma {:induction false} StartIsPast(trace: seq<Look>)
    ensures StartedAt(trace) <= Time(trace)
  {
    if trace != [] {
      StartIsPast(Front(trace));
    }
  }

  lemma StillVouched(env: Env, w: Wire, from: nat, to: nat, later: nat)
    requires Vouched(env, w, from, to) && to <= later
    ensures Vouched(env, w, from, later)
  {
  }

  /** How often DONE was low in this time. */
  function Lows(env: Env, from: nat, to: nat): nat {
    if to <= from then 0 else Lows(env, from, to - 1) + (if env.done(to - 1) then 0 else 1)
  }

  /** The polls of a wait that goes on were all told that DONE is low. */
  lemma {:induction false} WaitingWasLow(env: Env, trace: seq<Look>)
    requires Honest(env, trace)
    ensures StartedAt(trace) <= Time(trace)
    ensures Replay(trace).waiting <= Lows(env, StartedAt(trace), Time(trace))
  {
    if trace != [] {
      WaitingWasLow(env, Front(trace));
      if Last(trace) == On(SetStart) {
        assert Replay(trace).waiting == 0;
      }
    }
  }
}
