/**
 * The two frontends share one device (src/akb_pcr20x.c:498-529 and :531-634). The threads that
 * open, close and tune them interleave step by step; mutex_fe orders their critical sections.
 */
module Arbiter {
  import opened Bytes
  import opened Errno
  import opened Issuing

  datatype Frontend = Satellite | Terrestrial

  function Other(fe: Frontend): Frontend {
    if fe == Satellite then Terrestrial else Satellite
  }

  /** active_fe */
  datatype Holder = Nobody | Held(fe: Frontend)

  /** active_fe and open_count */
  datatype Shared = Shared(active: Holder, opens: u32)

  const INITIAL: Shared := Shared(Nobody, 0)

  datatype Op = Open(fe: Frontend) | Close(fe: Frontend) | Tune(fe: Frontend)

  /** What a tune does to the hardware: a register of a demodulator, or the demodulator's own tuning. */
  datatype Touch = Demod(fe: Frontend, reg: int, val: int) | Retune(fe: Frontend)

  const SLEEP_T: seq<Touch> := [Demod(Terrestrial, 0x0e, 0x77), Demod(Terrestrial, 0x0f, 0x77)]

  const WAKE_S: seq<Touch> :=
    [Demod(Satellite, 0x06, 0x40), Demod(Satellite, 0x07, 0x11), Demod(Satellite, 0x08, 0x11),
     Demod(Satellite, 0x85, 0x7a), Demod(Satellite, 0x8e, 0x26), Demod(Satellite, 0xa3, 0xf7)]

  const WAKE_T: seq<Touch> :=
    [Demod(Terrestrial, 0x0e, 0x11), Demod(Terrestrial, 0x0f, 0x11),
     Demod(Terrestrial, 0x71, 0x20), Demod(Terrestrial, 0x76, 0x08)]

  function Plan(fe: Frontend): seq<Touch> {
    (if fe == Satellite then SLEEP_T + WAKE_S else WAKE_T) + [Retune(fe)]
  }

  /** What the last of some touches has left in a register of a demodulator; -1 if none wrote it. */
  function Latest(touched: seq<Touch>, fe: Frontend, reg: int): int {
    if touched == [] then -1
    else
      match touched[|touched| - 1]
      case Demod(f, r, v) => if f == fe && r == reg then v else Latest(touched[..|touched| - 1], fe, reg)
      case Retune(_) => Latest(touched[..|touched| - 1], fe, reg)
  }

  /** The hardware is set up for the satellite: terrestrial demodulator asleep, its own awake, tuned last. */
  predicate SatelliteUp(touched: seq<Touch>) {
    && Latest(touched, Terrestrial, 0x0e) == 0x77 && Latest(touched, Terrestrial, 0x0f) == 0x77
    && Latest(touched, Satellite, 0x06) == 0x40 && Latest(touched, Satellite, 0x07) == 0x11
    && Latest(touched, Satellite, 0x08) == 0x11 && Latest(touched, Satellite, 0x85) == 0x7a
    && Latest(touched, Satellite, 0x8e) == 0x26 && Latest(touched, Satellite, 0xa3) == 0xf7
    && touched != [] && touched[|touched| - 1] == Retune(Satellite)
  }

  predicate TerrestrialUp(touched: seq<Touch>) {
    && Latest(touched, Terrestrial, 0x0e) == 0x11 && Latest(touched, Terrestrial, 0x0f) == 0x11
    && Latest(touched, Terrestrial, 0x71) == 0x20 && Latest(touched, Terrestrial, 0x76) == 0x08
    && touched != [] && touched[|touched| - 1] == Retune(Terrestrial)
  }

  predicate Writes(t: Touch, fe: Frontend, reg: int) {
    t.Demod? && t.fe == fe && t.reg == reg
  }

  lemma {:induction false} LatestAt(touched: seq<Touch>, i: nat, fe: Frontend, reg: int)
    requires i < |touched| && Writes(touched[i], fe, reg)
    requires forall j :: i < j < |touched| ==> !Writes(touched[j], fe, reg)
    ensures Latest(touched, fe, reg) == touched[i].val
  {
    if i < |touched| - 1 {
      LatestAt(touched[..|touched| - 1], i, fe, reg);
    }
  }

  lemma PlannedAt(before: seq<Touch>, plan: seq<Touch>, i: nat, fe: Frontend, reg: int)
    requires i < |plan| && Writes(plan[i], fe, reg) && forall j :: i < j < |plan| ==> !Writes(plan[j], fe, reg)
    ensures Latest(before + plan, fe, reg) == plan[i].val
  {
    LatestAt(before + plan, |before| + i, fe, reg);
  }

  /** A plan that was carried out leaves the hardware set up for its frontend, whatever was there before. */
  lemma PlanSetsUp(before: seq<Touch>)
    ensures SatelliteUp(before + Plan(Satellite)) && |Plan(Satellite)| == 9
    ensures TerrestrialUp(before + Plan(Terrestrial)) && |Plan(Terrestrial)| == 5
  {
    hide Latest;
    var s, t := Plan(Satellite), Plan(Terrestrial);
    PlannedAt(before, s, 0, Terrestrial, 0x0e);
    PlannedAt(before, s, 1, Terrestrial, 0x0f);
    PlannedAt(before, s, 2, Satellite, 0x06);
    PlannedAt(before, s, 3, Satellite, 0x07);
    PlannedAt(before, s, 4, Satellite, 0x08);
    PlannedAt(before, s, 5, Satellite, 0x85);
    PlannedAt(before, s, 6, Satellite, 0x8e);
    PlannedAt(before, s, 7, Satellite, 0xa3);
    PlannedAt(before, t, 0, Terrestrial, 0x0e);
    PlannedAt(before, t, 1, Terrestrial, 0x0f);
    PlannedAt(before, t, 2, Terrestrial, 0x71);
    PlannedAt(before, t, 3, Terrestrial, 0x76);
  }

  predicate Busy(a: Shared, fe: Frontend) {
    a.active == Held(Other(fe))
  }

  // ---------- one critical section as one step ----------

  function Effect(a: Shared, op: Op): Shared {
    match op
    case Open(fe) => if Busy(a, fe) then a else Shared(Held(fe), (a.opens + 1) % U32)
    case Close(fe) =>
      if a.active == Held(fe) && a.opens > 0
      then Shared(if a.opens == 1 then Nobody else a.active, a.opens - 1)
      else a
    case Tune(fe) => a
  }

  /** A finished call: what it returned and what it did to the hardware. */
  datatype Call = Call(op: Op, ret: int, touched: seq<Touch>)

  /** What a call may have done, given the state it found. */
  predicate Allowed(a: Shared, c: Call) {
    if !c.op.Close? && Busy(a, c.op.fe) then c.ret == EBUSY && c.touched == []
    else if c.op.Tune? then
      && c.touched <= Plan(c.op.fe)
      && (c.ret == 0 ==> c.touched == Plan(c.op.fe))
      && (c.ret != 0 ==> c.ret < 0 && c.touched != [])
    else c.ret == 0 && c.touched == []
  }

  function Front(log: seq<Call>): seq<Call>
    requires log != []
  {
    log[..|log| - 1]
  }

  function Last(log: seq<Call>): Call
    requires log != []
  {
    log[|log| - 1]
  }

  lemma Snoc(log: seq<Call>, c: Call)
    ensures Front(log + [c]) == log && Last(log + [c]) == c
  {
  }

  /** The state after a sequence of calls, each done in one step. */
  function After(log: seq<Call>): Shared {
    if log == [] then INITIAL else Effect(After(Front(log)), Last(log).op)
  }

  /** Each call did what the state it found allows. */
  predicate Legal(log: seq<Call>) {
    log == [] || (Legal(Front(log)) && Allowed(After(Front(log)), Last(log)))
  }

  /** Successful opens minus closes. */
  function Outstanding(log: seq<Call>, fe: Frontend): int {
    if log == [] then 0 else Outstanding(Front(log), fe) + Change(Last(log), fe)
  }

  function Change(c: Call, fe: Frontend): int {
    if c.op == Open(fe) && c.ret == 0 then 1 else if c.op == Close(fe) then -1 else 0
  }

  /** After each call, every close so far has had a successful open of its own. */
  predicate Matched(log: seq<Call>) {
    log == [] || (Matched(Front(log)) && Outstanding(log, Satellite) >= 0 && Outstanding(log, Terrestrial) >= 0)
  }

  /** Nobody holds the device exactly while nobody has it open. */
  predicate Sound(a: Shared) {
    a.active == Nobody <==> a.opens == 0
  }

  /** The one step that breaks this is the open that makes the 32-bit counter wrap around. */
  lemma SoundStep(a: Shared, op: Op)
    requires Sound(a)
    ensures Sound(Effect(a, op)) <==> !(op.Open? && !Busy(a, op.fe) && a.opens == U32 - 1)
  {
  }

  /** After each call fewer than 2^32 opens of a frontend are outstanding. */
  predicate Few(log: seq<Call>) {
    log == [] || (Few(Front(log)) && Outstanding(log, Satellite) < U32 && Outstanding(log, Terrestrial) < U32)
  }

  predicate AlwaysSound(log: seq<Call>) {
    log == [] || (AlwaysSound(Front(log)) && Sound(After(log)))
  }

  /** open_count is the holder's outstanding opens, and the other frontend has none. */
  predicate Tells(a: Shared, s: int, t: int) {
    match a.active
    case Nobody => a.opens == 0 && s == 0 && t == 0
    case Held(Satellite) => a.opens == s > 0 && t == 0
    case Held(Terrestrial) => a.opens == t > 0 && s == 0
  }

  predicate Counted(a: Shared, log: seq<Call>) {
    Tells(a, Outstanding(log, Satellite), Outstanding(log, Terrestrial))
  }

  /**
   * With closes matched to successful opens, the holder is known exactly as long as fewer than
   * 2^32 opens are outstanding, and then the counter tells them.
   */
  lemma {:induction false} CountIsOutstanding(log: seq<Call>)
    requires Legal(log) && Matched(log)
    ensures AlwaysSound(log) <==> Few(log)
    ensures Few(log) ==> Sound(After(log)) && Counted(After(log), log)
  {
    hide Allowed, Effect, Tells, Sound, Change;
    if log == [] {
      NothingYet();
    } else {
      CountIsOutstanding(Front(log));
      if Few(Front(log)) {
        CountStep(After(Front(log)), Last(log),
                  Outstanding(Front(log), Satellite), Outstanding(Front(log), Terrestrial));
      }
    }
  }

  lemma NothingYet()
    ensures Sound(After([])) && Counted(After([]), [])
  {
  }

  lemma CountStep(a: Shared, c: Call, s: nat, t: nat)
    requires Tells(a, s, t) && s < U32 && t < U32 && Allowed(a, c)
    requires s + Change(c, Satellite) >= 0 && t + Change(c, Terrestrial) >= 0
    ensures var s1, t1 := s + Change(c, Satellite), t + Change(c, Terrestrial);
      && (Sound(Effect(a, c.op)) <==> s1 < U32 && t1 < U32)
      && (s1 < U32 && t1 < U32 ==> Tells(Effect(a, c.op), s1, t1))
  {
    hide Plan;
    SoundStep(a, c.op);
  }

  function Opens(fe: Frontend, n: nat): seq<Call> {
    seq(n, i => Call(Open(fe), 0, []))
  }

  /** The limit is real: after 2^32 opens the device is held by a frontend that counts as closed. */
  lemma OpensCanWrap(fe: Frontend)
    ensures Legal(Opens(fe, U32)) && Matched(Opens(fe, U32))
    ensures After(Opens(fe, U32)) == Shared(Held(fe), 0)
    ensures !Sound(After(Opens(fe, U32)))
  {
    ManyOpens(fe, U32);
  }

  lemma {:induction false} ManyOpens(fe: Frontend, n: nat)
    requires n <= U32
    ensures Legal(Opens(fe, n)) && Matched(Opens(fe, n))
    ensures After(Opens(fe, n)) == if n == 0 then INITIAL else Shared(Held(fe), n % U32)
    ensures Outstanding(Opens(fe, n), fe) == n && Outstanding(Opens(fe, n), Other(fe)) == 0
  {
    if n > 0 {
      ManyOpens(fe, n - 1);
      assert Front(Opens(fe, n)) == Opens(fe, n - 1) && Last(Opens(fe, n)) == Call(Open(fe), 0, []);
      OpenedAgain(After(Opens(fe, n - 1)), fe, n - 1);
    }
  }

  lemma OpenedAgain(a: Shared, fe: Frontend, n: nat)
    requires n < U32 && a == if n == 0 then INITIAL else Shared(Held(fe), n % U32)
    ensures Effect(a, Open(fe)) == Shared(Held(fe), (n + 1) % U32)
    ensures Allowed(a, Call(Open(fe), 0, []))
  {
  }

  // ---------- threads ----------

  /** Where a thread is inside a call. */
  datatype Place =
    | Outside
    | Waiting(op: Op)              // called, at mutex_lock
    | Entered(op: Op)              // has the mutex
    | Claimed(op: Op)              // has set active_fe, not counted yet
    | Dropped(op: Op)              // has counted down, not looked for zero yet
    | Touching(op: Op, next: nat)  // has done the first steps of its plan
    | Leaving(op: Op, ret: int)    // at mutex_unlock

  datatype Lock = Free | By(thread: nat)

  /**
   * The driver with its threads: bus is everything done to the hardware so far, ours the part of
   * it since the mutex was taken, log the calls that returned.
   */
  datatype World = World(shared: Shared, mutex: Lock, places: seq<Place>,
                         bus: seq<Touch>, ours: seq<Touch>, log: seq<Call>)

  /** A thread outside starts a call; a thread inside goes on, with the answer the hardware gives it. */
  datatype Choice = Starts(op: Op) | GoesOn(answer: int)

  datatype Turn = Turn(thread: nat, choice: Choice)

  function Moved(w: World, i: nat, p: Place): World
    requires i < |w.places|
  {
    w.(places := w.places[i := p])
  }

  function Touched(w: World, t: Touch): World {
    w.(bus := w.bus + [t], ours := w.ours + [t])
  }

  /** ready says for which frontends the tuning callback was found. */
  function Next(w: World, ready: set<Frontend>, turn: Turn): World {
    var i := turn.thread;
    if i >= |w.places| then w
    else if turn.choice.Starts? then
      if !w.places[i].Outside? || (turn.choice.op.Tune? && turn.choice.op.fe !in ready) then w
      else Moved(w, i, Waiting(turn.choice.op))
    else Going(w, i, turn.choice.answer)
  }

  function Going(w: World, i: nat, answer: int): World
    requires i < |w.places|
  {
    match w.places[i]
    case Outside => w
    case Waiting(op) => if w.mutex.Free? then Moved(w, i, Entered(op)).(mutex := By(i), ours := []) else w
    case Entered(op) =>
      if op.Close? then
        if w.shared.active == Held(op.fe) && w.shared.opens > 0
        then Moved(w, i, Dropped(op)).(shared := w.shared.(opens := w.shared.opens - 1))
        else Moved(w, i, Leaving(op, 0))
      else if Busy(w.shared, op.fe) then Moved(w, i, Leaving(op, EBUSY))
      else if op.Open? then Moved(w, i, Claimed(op)).(shared := w.shared.(active := Held(op.fe)))
      else Moved(w, i, Touching(op, 0))
    case Claimed(op) => Moved(w, i, Leaving(op, 0)).(shared := w.shared.(opens := (w.shared.opens + 1) % U32))
    case Dropped(op) =>
      Moved(w, i, Leaving(op, 0)).(shared := if w.shared.opens == 0 then w.shared.(active := Nobody) else w.shared)
    case Touching(op, k) =>
      if k >= |Plan(op.fe)| then Moved(w, i, Leaving(op, 0))
      else
        Moved(Touched(w, Plan(op.fe)[k]), i, if answer < 0 then Leaving(op, answer) else Touching(op, k + 1))
    case Leaving(op, ret) =>
      Moved(w, i, Outside).(mutex := Free, ours := [], log := w.log + [Call(op, ret, w.ours)])
  }

  function Start(threads: nat): World {
    World(INITIAL, Free, seq(threads, i => Outside), [], [], [])
  }

  function Reached(threads: nat, ready: set<Frontend>, turns: seq<Turn>): World {
    if turns == [] then Start(threads)
    else Next(Reached(threads, ready, turns[..|turns| - 1]), ready, turns[|turns| - 1])
  }

  // ---------- every interleaving is one call after the other ----------

  /** Everything the finished calls did to the hardware, call by call. */
  function AllTouched(log: seq<Call>): seq<Touch> {
    if log == [] then [] else AllTouched(Front(log)) + Last(log).touched
  }

  /** How far the holder of the mutex has got, a being the state it found. */
  predicate Midway(a: Shared, p: Place, now: Shared, ours: seq<Touch>) {
    match p
    case Outside => false
    case Waiting(op) => false
    case Entered(op) => now == a && ours == []
    case Claimed(op) => op.Open? && !Busy(a, op.fe) && now == a.(active := Held(op.fe)) && ours == []
    case Dropped(op) =>
      op.Close? && a.active == Held(op.fe) && a.opens > 0 && now == a.(opens := a.opens - 1) && ours == []
    case Touching(op, k) =>
      op.Tune? && !Busy(a, op.fe) && now == a && k <= |Plan(op.fe)| && ours == Plan(op.fe)[..k]
    case Leaving(op, ret) => now == Effect(a, op) && Allowed(a, Call(op, ret, ours))
  }

  predicate Inside(p: Place) {
    !p.Outside? && !p.Waiting?
  }

  predicate Holds(w: World, i: nat) {
    w.mutex == By(i)
  }

  ghost predicate Inv(w: World) {
    && Legal(w.log)
    && w.bus == AllTouched(w.log) + w.ours
    && (forall i :: 0 <= i < |w.places| ==> (Inside(w.places[i]) <==> Holds(w, i)))
    && match w.mutex
       case Free => w.shared == After(w.log) && w.ours == []
       case By(i) => i < |w.places| && Midway(After(w.log), w.places[i], w.shared, w.ours)
  }

  lemma NextKeepsInv(w: World, ready: set<Frontend>, turn: Turn)
    requires Inv(w)
    ensures Inv(Next(w, ready, turn))
  {
    hide Legal, AllTouched, After, Plan, Allowed, Effect;
    var i := turn.thread;
    if i < |w.places| {
      if turn.choice.Starts? {
      } else if Holds(w, i) {
        assert Inside(w.places[i]);
        if w.places[i].Leaving? {
          LeavingKeepsInv(w, i, turn.choice.answer);
        } else {
          MidwayStep(After(w.log), w, i, turn.choice.answer);
        }
      } else {
        assert !Inside(w.places[i]);
      }
    }
  }

  lemma MidwayStep(a: Shared, w: World, i: nat, answer: int)
    requires i < |w.places| && !w.places[i].Leaving? && Midway(a, w.places[i], w.shared, w.ours)
    ensures var v := Going(w, i, answer);
      && Midway(a, v.places[i], v.shared, v.ours)
      && v.mutex == w.mutex && v.log == w.log && v.places == w.places[i := v.places[i]]
      && exists t :: v.bus == w.bus + t && v.ours == w.ours + t
  {
    hide Plan;
    var v := Going(w, i, answer);
    var p := w.places[i];
    if p.Touching? {
      var k, plan := p.next, Plan(p.op.fe);
      if k < |plan| {
        assert plan[..k] + [plan[k]] == plan[..k + 1];
        assert v.bus == w.bus + [plan[k]] && v.ours == w.ours + [plan[k]];
      } else {
        assert plan[..k] == plan;
        PlanIsNotEmpty(p.op.fe);
        assert v.bus == w.bus + [] && v.ours == w.ours + [];
      }
    } else {
      assert v.bus == w.bus + [] && v.ours == w.ours + [];
    }
  }

  lemma PlanIsNotEmpty(fe: Frontend)
    ensures Plan(fe) != []
  {
  }

  lemma LeavingKeepsInv(w: World, i: nat, answer: int)
    requires Inv(w) && i < |w.places| && Holds(w, i) && w.places[i].Leaving?
    ensures Inv(Going(w, i, answer))
  {
  }

  /**
   * Whatever the interleaving, the calls behave as if each had run alone, in the order in which
   * they left the mutex: their results, their effect on the shared state, and their writes, which
   * never mix on the bus.
   */
  lemma {:induction false} EveryRunIsSerial(threads: nat, ready: set<Frontend>, turns: seq<Turn>)
    ensures Inv(Reached(threads, ready, turns))
  {
    if turns != [] {
      EveryRunIsSerial(threads, ready, turns[..|turns| - 1]);
      NextKeepsInv(Reached(threads, ready, turns[..|turns| - 1]), ready, turns[|turns| - 1]);
    }
  }

  /** No thread touches the hardware for one frontend while the other one is held. */
  lemma NoTouchWhileHeld(threads: nat, ready: set<Frontend>, turns: seq<Turn>, turn: Turn)
    ensures var w := Reached(threads, ready, turns);
      Next(w, ready, turn).bus != w.bus ==>
        && turn.thread < |w.places| && w.places[turn.thread].Touching?
        && !Busy(w.shared, w.places[turn.thread].op.fe)
        && w.mutex == By(turn.thread)
  {
    EveryRunIsSerial(threads, ready, turns);
    var w := Reached(threads, ready, turns);
    if Next(w, ready, turn).bus != w.bus {
      OnlyTouchingTouches(w, ready, turn);
    }
  }

  lemma OnlyTouchingTouches(w: World, ready: set<Frontend>, turn: Turn)
    requires Inv(w) && Next(w, ready, turn).bus != w.bus
    ensures turn.thread < |w.places| && w.places[turn.thread].Touching?
    ensures !Busy(w.shared, w.places[turn.thread].op.fe) && w.mutex == By(turn.thread)
  {
  }

  /** Whose demodulator a touch is about. */
  function Whose(t: Touch): Frontend {
    t.fe
  }

  predicate Asleep(touched: seq<Touch>) {
    Latest(touched, Terrestrial, 0x0e) == 0x77 && Latest(touched, Terrestrial, 0x0f) == 0x77
  }

  predicate Awake(touched: seq<Touch>) {
    Latest(touched, Terrestrial, 0x0e) == 0x11 && Latest(touched, Terrestrial, 0x0f) == 0x11
  }

  /**
   * The terrestrial demodulator is put to sleep before anything else of a satellite tune, and woken
   * first in its own.
   */
  lemma SleepFirst(before: seq<Touch>, fe: Frontend, k: nat)
    requires k < |Plan(fe)|
    ensures fe == Satellite && Whose(Plan(fe)[k]) == Satellite ==> Asleep(before + Plan(fe)[..k])
    ensures fe == Terrestrial && k >= 2 ==> Awake(before + Plan(fe)[..k])
  {
    hide Latest;
    var front := Plan(fe)[..k];
    if k >= 2 {
      assert front[0] == Plan(fe)[0] && front[1] == Plan(fe)[1];
      forall j | 2 <= j < k ensures front[j] == Plan(fe)[j] {}
      PlannedAt(before, front, 0, Terrestrial, 0x0e);
      PlannedAt(before, front, 1, Terrestrial, 0x0f);
    }
  }

  /**
   * In every run: a touch of the satellite demodulator finds the terrestrial one asleep, and a
   * terrestrial tuning finds it awake.
   */
  lemma NeverBothAwake(threads: nat, ready: set<Frontend>, turns: seq<Turn>, turn: Turn)
    ensures var w := Reached(threads, ready, turns);
      var v := Next(w, ready, turn);
      v.bus != w.bus ==>
        && |v.bus| == |w.bus| + 1
        && (Whose(v.bus[|w.bus|]) == Satellite ==> Asleep(w.bus))
        && (v.bus[|w.bus|] == Retune(Terrestrial) ==> Awake(w.bus))
  {
    EveryRunIsSerial(threads, ready, turns);
    var w := Reached(threads, ready, turns);
    if Next(w, ready, turn).bus != w.bus {
      OnlyTouchingTouches(w, ready, turn);
      TouchedInOrder(w, ready, turn);
    }
  }

  lemma TouchedInOrder(w: World, ready: set<Frontend>, turn: Turn)
    requires Inv(w) && Next(w, ready, turn).bus != w.bus
    requires w.mutex == By(turn.thread) && turn.thread < |w.places| && w.places[turn.thread].Touching?
    ensures var v := Next(w, ready, turn);
      && |v.bus| == |w.bus| + 1
      && (Whose(v.bus[|w.bus|]) == Satellite ==> Asleep(w.bus))
      && (v.bus[|w.bus|] == Retune(Terrestrial) ==> Awake(w.bus))
  {
    hide Plan, Legal, AllTouched, After, Allowed, Effect, Latest, Asleep, Awake;
    var p := w.places[turn.thread];
    assert w.bus == AllTouched(w.log) + Plan(p.op.fe)[..p.next];
    SleepFirst(AllTouched(w.log), p.op.fe, p.next);
    OwnTouches(p.op.fe, p.next);
  }

  lemma OwnTouches(fe: Frontend, k: nat)
    requires k < |Plan(fe)|
    ensures fe == Terrestrial ==> Whose(Plan(fe)[k]) == Terrestrial && (k < 2 ==> Plan(fe)[k].Demod?)
    ensures fe == Satellite ==> Plan(fe)[k] != Retune(Terrestrial)
  {
  }

  // ---------- nobody waits for ever ----------

  /** The steps a thread has left before it gives up the mutex. */
  function Left(p: Place): nat {
    match p
    case Outside => 0
    case Waiting(op) => 0
    case Entered(op) => |Plan(op.fe)| + 3
    case Claimed(op) => 2
    case Dropped(op) => 2
    case Touching(op, k) => if k <= |Plan(op.fe)| then |Plan(op.fe)| - k + 2 else 2
    case Leaving(op, ret) => 1
  }

  /**
   * In every reachable state: with the mutex free, a waiting thread enters at its next step;
   * otherwise its holder is at most 12 steps from the unlock, each of its steps brings it nearer,
   * and the steps of the others do not disturb it.
   */
  lemma HolderGetsOut(threads: nat, ready: set<Frontend>, turns: seq<Turn>, turn: Turn)
    ensures Advances(Reached(threads, ready, turns), ready, turn)
  {
    EveryRunIsSerial(threads, ready, turns);
    InvAdvances(Reached(threads, ready, turns), ready, turn);
  }

  predicate Advances(w: World, ready: set<Frontend>, turn: Turn) {
    var i, v := turn.thread, Next(w, ready, turn);
    match w.mutex
    case Free => i < |w.places| && w.places[i].Waiting? && turn.choice.GoesOn? ==> v.mutex == By(i)
    case By(h) =>
      && h < |w.places| && |v.places| == |w.places|
      && 1 <= Left(w.places[h]) <= 12
      && if i == h && turn.choice.GoesOn?
         then Left(v.places[h]) < Left(w.places[h]) && (v.mutex == Free <==> Left(v.places[h]) == 0)
         else v.mutex == By(h) && v.places[h] == w.places[h]
  }

  lemma InvAdvances(w: World, ready: set<Frontend>, turn: Turn)
    requires Inv(w)
    ensures Advances(w, ready, turn)
  {
    hide Plan, Legal, AllTouched, After, Allowed, Effect;
    PlanIsShort();
    if w.mutex.By? {
      assert Holds(w, w.mutex.thread);
      assert Inside(w.places[w.mutex.thread]);
      if turn.thread != w.mutex.thread && turn.thread < |w.places| {
        assert !Holds(w, turn.thread);
        assert !Inside(w.places[turn.thread]);
      }
    }
  }

  lemma PlanIsShort()
    ensures forall fe :: |Plan(fe)| <= 9
  {
  }

  // ---------- callers that close what they opened ----------

  function One(p: Place, fe: Frontend): nat {
    if !p.Outside? && p.op == Close(fe) then 1 else 0
  }

  /** The closes of a frontend that are on their way. */
  function Closing(places: seq<Place>, fe: Frontend): nat {
    if places == [] then 0
    else One(places[0], fe) + Closing(places[1..], fe)
  }

  /** A close is only started for an open that succeeded and has not been closed yet. */
  predicate Polite(w: World, turn: Turn) {
    turn.choice.Starts? && turn.choice.op.Close? ==>
      Closing(w.places, turn.choice.op.fe) < Outstanding(w.log, turn.choice.op.fe)
  }

  predicate AllPolite(threads: nat, ready: set<Frontend>, turns: seq<Turn>) {
    forall k :: 0 <= k < |turns| ==> Polite(Reached(threads, ready, turns[..k]), turns[k])
  }

  lemma {:induction false} ClosingMoved(places: seq<Place>, i: nat, p: Place, fe: Frontend)
    requires i < |places|
    ensures Closing(places[i := p], fe) == Closing(places, fe) - One(places[i], fe) + One(p, fe)
  {
    if i > 0 {
      ClosingMoved(places[1..], i - 1, p, fe);
      assert places[i := p][1..] == places[1..][i - 1 := p];
    } else {
      assert places[i := p][1..] == places[1..];
    }
  }

  ghost predicate Covered(w: World) {
    && Matched(w.log)
    && Closing(w.places, Satellite) <= Outstanding(w.log, Satellite)
    && Closing(w.places, Terrestrial) <= Outstanding(w.log, Terrestrial)
  }

  /** A close is on its way until it is logged. */
  lemma OneMoves(w: World, ready: set<Frontend>, turn: Turn, fe: Frontend)
    requires turn.thread < |w.places|
    ensures var i, v := turn.thread, Next(w, ready, turn);
      && v.places == w.places[i := v.places[i]]
      && if v.log == w.log
         then One(v.places[i], fe) <= One(w.places[i], fe) + (if turn.choice == Starts(Close(fe)) then 1 else 0)
         else
           && v.log != [] && Front(v.log) == w.log
           && One(v.places[i], fe) - One(w.places[i], fe) <= Change(Last(v.log), fe)
    ensures turn.choice.Starts? ==> Next(w, ready, turn).log == w.log
  {
    hide Plan;
    var p := w.places[turn.thread];
    if turn.choice.GoesOn? && p.Leaving? {
      Snoc(w.log, Call(p.op, p.ret, w.ours));
    }
  }

  lemma PoliteStep(w: World, ready: set<Frontend>, turn: Turn, fe: Frontend)
    requires Polite(w, turn) && Closing(w.places, fe) <= Outstanding(w.log, fe)
    ensures var v := Next(w, ready, turn);
      Closing(v.places, fe) <= Outstanding(v.log, fe)
  {
    hide Going, Closing, One, Change;
    var i, v := turn.thread, Next(w, ready, turn);
    if i < |w.places| {
      OneMoves(w, ready, turn, fe);
      ClosingMoved(w.places, i, v.places[i], fe);
    }
  }

  lemma PoliteKeepsCovered(w: World, ready: set<Frontend>, turn: Turn)
    requires Covered(w) && Polite(w, turn)
    ensures Covered(Next(w, ready, turn))
  {
    hide Going, Outstanding, Closing, Polite, One, Change;
    PoliteStep(w, ready, turn, Satellite);
    PoliteStep(w, ready, turn, Terrestrial);
    if turn.thread < |w.places| {
      OneMoves(w, ready, turn, Satellite);
    }
  }

  lemma {:induction false} PoliteIsMatched(threads: nat, ready: set<Frontend>, turns: seq<Turn>)
    requires AllPolite(threads, ready, turns)
    ensures Covered(Reached(threads, ready, turns))
  {
    if turns == [] {
      NoneClosing(threads, Satellite);
      NoneClosing(threads, Terrestrial);
    } else {
      var n := |turns| - 1;
      assert forall k :: 0 <= k < n ==> turns[..n][..k] == turns[..k];
      PoliteIsMatched(threads, ready, turns[..n]);
      PoliteKeepsCovered(Reached(threads, ready, turns[..n]), ready, turns[n]);
    }
  }

  lemma {:induction false} NoneClosing(threads: nat, fe: Frontend)
    ensures Closing(Start(threads).places, fe) == 0
  {
    if threads > 0 {
      NoneClosing(threads - 1, fe);
      assert Start(threads).places[1..] == Start(threads - 1).places;
    }
  }

  /**
   * The whole claim: over every interleaving of polite callers with fewer than 2^32 opens
   * outstanding, whenever the mutex is free the counter is what the holder has open, the other
   * frontend has nothing open, and nobody holds the device exactly while nothing is open.
   */
  lemma ArbitrationHolds(threads: nat, ready: set<Frontend>, turns: seq<Turn>)
    requires AllPolite(threads, ready, turns) && Few(Reached(threads, ready, turns).log)
    ensures var w := Reached(threads, ready, turns);
      w.mutex == Free ==> Sound(w.shared) && Counted(w.shared, w.log)
  {
    var w := Reached(threads, ready, turns);
    EveryRunIsSerial(threads, ready, turns);
    PoliteIsMatched(threads, ready, turns);
    CountIsOutstanding(w.log);
  }

  // ---------- the driver's functions ----------

  /** struct akb_pcr20x: the fields the frontends share. */
  class Device {
    var active: Holder
    var opens: u32
    var bus: seq<Touch>
    const ready: set<Frontend>
    const answers: nat -> int

    constructor (ready: set<Frontend>, answers: nat -> int)
      ensures Now() == INITIAL && bus == [] && this.ready == ready && this.answers == answers
    {
      active, opens, bus := Nobody, 0, [];
      this.ready, this.answers := ready, answers;
    }

    function Now(): Shared
      reads this
    {
      Shared(active, opens)
    }

    method TsBusControl(fe: Frontend, acquire: bool) returns (ret: int)
      modifies this`active, this`opens
      ensures var op := if acquire then Open(fe) else Close(fe);
        Now() == Effect(old(Now()), op) && Allowed(old(Now()), Call(op, ret, []))
      ensures ret == if acquire && old(active) == Held(Other(fe)) then -16 else 0
    {
      if acquire {
        if active != Nobody && active != Held(fe) {
          return EBUSY;
        }
        active := Held(fe);
        opens := (opens + 1) % U32;
      } else {
        if active == Held(fe) && opens > 0 {
          opens := opens - 1;
          if opens == 0 {
            active := Nobody;
          }
        }
      }
      ret := 0;
    }

    method Put(t: Touch) returns (ret: int)
      modifies this`bus
      ensures bus == old(bus) + [t] && ret == At(answers, |old(bus)|)
    {
      ret := answers(|bus|);
      bus := bus + [t];
    }

    /** Writes a list of registers until one write fails. */
    method I2cWrite(regval: seq<Touch>) returns (ret: int)
      modifies this`bus
      ensures regval == [] ==> ret == EINVAL && bus == old(bus)
      ensures regval != [] ==> Went(regval, old(bus), ret)
    {
      hide Issue;
      if |regval| == 0 {
        return EINVAL;
      }
      ghost var n0 := |bus|;
      IssueNone<Touch>(answers, n0);
      for i := 0 to |regval|
        invariant bus == old(bus) + regval[..i]
        invariant Issue(answers, n0, regval[..i]) == Outcome(i, 0)
      {
        ret := Put(regval[i]);
        assert regval[..i + 1] == regval[..i] + [regval[i]];
        IssueConcat(answers, n0, regval[..i], [regval[i]]);
        IssueOne(answers, n0 + i, regval[i]);
        if ret < 0 {
          assert regval == regval[..i + 1] + regval[i + 1..];
          IssueConcat(answers, n0, regval[..i + 1], regval[i + 1..]);
          return;
        }
      }
      assert regval[..|regval|] == regval;
      ret := 0;
    }

    /** The plan was carried out up to its first failure. */
    ghost predicate Went(plan: seq<Touch>, before: seq<Touch>, ret: int)
      reads this
    {
      var o := Issue(answers, |before|, plan);
      o.done <= |plan| && bus == before + plan[..o.done] && ret == o.code
    }

    /** What a tune comes to: refused without a callback, busy, or the plan up to the first failure. */
    ghost predicate Tuned(fe: Frontend, was: Shared, before: seq<Touch>, ret: int)
      reads this
    {
      && Now() == was
      && if fe !in ready then ret == EINVAL && bus == before
         else if Busy(was, fe) then ret == EBUSY && bus == before
         else Went(Plan(fe), before, ret)
    }

    method SetFrontendS(fe: Frontend) returns (ret: int)
      requires fe == Satellite
      modifies this`bus
      ensures Tuned(fe, old(Now()), old(bus), ret)
      ensures ret == 0 ==> SatelliteUp(bus) && |bus| == |old(bus)| + 9
      ensures Satellite !in ready ==> ret == -22
      ensures Satellite in ready && old(active) == Held(Terrestrial) ==> ret == -16 && bus == old(bus)
    {
      hide Issue, SLEEP_T, WAKE_S, WAKE_T, SatelliteUp, TerrestrialUp;
      if Satellite !in ready {
        return EINVAL;
      }
      if active != Nobody && active != Held(fe) {
        return EBUSY;
      }
      ghost var n, retune := |bus|, [Retune(fe)];
      PlansAreWrites();
      IssueConcat(answers, n, SLEEP_T, WAKE_S);
      IssueConcat(answers, n, SLEEP_T + WAKE_S, retune);
      ret := I2cWrite(SLEEP_T);
      if ret < 0 {
        return;
      }
      ret := I2cWrite(WAKE_S);
      if ret < 0 {
        return;
      }
      IssueOne(answers, |bus|, Retune(fe));
      ret := Put(Retune(fe));
      if ret < 0 {
        return;
      }
      ret := 0;
      CarriedOut(answers, old(bus), bus, fe);
    }

    method SetFrontendT(fe: Frontend) returns (ret: int)
      requires fe == Terrestrial
      modifies this`bus
      ensures Tuned(fe, old(Now()), old(bus), ret)
      ensures ret == 0 ==> TerrestrialUp(bus) && |bus| == |old(bus)| + 5
      ensures Terrestrial !in ready ==> ret == -22
      ensures Terrestrial in ready && old(active) == Held(Satellite) ==> ret == -16 && bus == old(bus)
    {
      hide Issue, SLEEP_T, WAKE_S, WAKE_T, SatelliteUp, TerrestrialUp;
      if Terrestrial !in ready {
        return EINVAL;
      }
      if active != Nobody && active != Held(fe) {
        return EBUSY;
      }
      ghost var n, retune := |bus|, [Retune(fe)];
      PlansAreWrites();
      IssueConcat(answers, n, WAKE_T, retune);
      ret := I2cWrite(WAKE_T);
      if ret < 0 {
        return;
      }
      IssueOne(answers, |bus|, Retune(fe));
      ret := Put(Retune(fe));
      if ret < 0 {
        return;
      }
      ret := 0;
      CarriedOut(answers, old(bus), bus, fe);
    }
  }

  lemma CarriedOut(answers: nat -> int, before: seq<Touch>, after: seq<Touch>, fe: Frontend)
    requires var o := Issue(answers, |before|, Plan(fe));
      o.code == 0 && o.done <= |Plan(fe)| && after == before + Plan(fe)[..o.done]
    ensures if fe == Satellite then SatelliteUp(after) && |after| == |before| + 9
            else TerrestrialUp(after) && |after| == |before| + 5
  {
    hide Plan, SatelliteUp, TerrestrialUp, Issue;
    IssuedIsPrefix(answers, |before|, Plan(fe));
    assert Plan(fe)[..|Plan(fe)|] == Plan(fe);
    PlanSetsUp(before);
  }

  lemma PlansAreWrites()
    ensures SLEEP_T != [] && WAKE_S != [] && WAKE_T != []
  {
  }

  /** A tune through the driver's function is a tune of the step-by-step model. */
  lemma TunedIsAllowed(fe: Frontend, a: Shared, answers: nat -> int, at: nat)
    requires !Busy(a, fe)
    ensures var o := Issue(answers, at, Plan(fe));
      o.done <= |Plan(fe)| && Allowed(a, Call(Tune(fe), o.code, Plan(fe)[..o.done]))
  {
    hide Plan;
    IssuedIsPrefix(answers, at, Plan(fe));
  }
}
