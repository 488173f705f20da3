/** The STV6110 tuner driver: register shadow, chip, and the I2C path between them (src/stv6110x.c). */
module Stv6110 {
  import opened Bytes
  import opened Errno
  import opened Registers
  import opened Pll

  const CTRL1: nat := 0
  const CTRL2: nat := 1
  const TNG0: nat := 2
  const TNG1: nat := 3
  const CTRL3: nat := 4
  const STAT1: nat := 5

  const CTRL1_K: Field := Field(3, 5)
  const CTRL1_LPT: Field := Field(2, 1)
  const CTRL1_RX: Field := Field(1, 1)
  const CTRL1_SYN: Field := Field(0, 1)
  const CTRL2_CO_DIV: Field := Field(6, 2)
  const CTRL2_BBGAIN: Field := Field(0, 4)
  const TNG0_N_DIV_7_0: Field := Field(0, 8)
  const TNG1_R_DIV: Field := Field(6, 2)
  const TNG1_PRESC32_ON: Field := Field(5, 1)
  const TNG1_DIV4SEL: Field := Field(4, 1)
  const TNG1_N_DIV_11_8: Field := Field(0, 4)
  const CTRL3_RCCLK_OFF: Field := Field(6, 1)
  const CTRL3_CF: Field := Field(0, 5)
  const STAT1_CALVCO_STRT: Field := Field(2, 1)
  const STAT1_CALRC_STRT: Field := Field(1, 1)
  const STAT1_LOCK: Field := Field(0, 1)

  const TRIALS: nat := 10
  const MAX_XFER_SIZE: nat := 64

  /** What the tuner's registers say, eight of them. */
  type File = s: seq<Reg> | |s| == 8 witness [{}, {}, {}, {}, {}, {}, {}, {}]

  // ---------- what the setters compute ----------

  /** REFCLOCK_MHz - 16, in unsigned 32-bit arithmetic. */
  function KValue(refclk: nat): nat {
    (refclk / 1000000 + U32 - 16) % U32
  }

  /** The registers set_params starts from: the defaults with the output divider of the configuration. */
  function Fresh(clkDiv: nat): File {
    var s: File := [RegOf(0x07), RegOf(0x11), RegOf(0xdc), RegOf(0x85),
                    RegOf(0x17), RegOf(0x01), RegOf(0xe6), RegOf(0x1e)];
    s[CTRL2 := SetField(s[CTRL2], CTRL2_CO_DIV, CoDiv(clkDiv))]
  }

  /** The registers after set_frequency chose r, before anything is written to the chip. */
  function Tuned(s: File, refclk: nat, frequency: nat, r: nat): File
    requires refclk >= 1000
  {
    var n := Divider(frequency, refclk / 1000, r);
    var band := SetField(SetField(s[TNG1], TNG1_DIV4SEL, Div4(frequency)), TNG1_PRESC32_ON, Presc32(frequency));
    s[CTRL1 := SetField(s[CTRL1], CTRL1_K, KValue(refclk))]
     [TNG1 := SetField(SetField(band, TNG1_R_DIV, r), TNG1_N_DIV_11_8, n / 256 % 256)]
     [TNG0 := SetField(s[TNG0], TNG0_N_DIV_7_0, n % 256)]
     [STAT1 := SetField(s[STAT1], STAT1_CALVCO_STRT, 1)]
  }

  /** The frequency the tuning registers stand for, as get_frequency computes it. */
  function FrequencyIn(s: File, refclk: nat): nat {
    FrequencyOf(GetField(TNG1_N_DIV_11_8, s[TNG1]) * 256 + GetField(TNG0_N_DIV_7_0, s[TNG0]), refclk / 1000,
                GetField(TNG1_R_DIV, s[TNG1]), GetField(TNG1_DIV4SEL, s[TNG1]))
  }

  lemma Tng1Fields(t: Reg, d: nat, p: nat, r: nat, n: nat)
    requires d < 2 && p < 2 && r < 4 && n < 16
    ensures var a := SetField(SetField(t, TNG1_DIV4SEL, d), TNG1_PRESC32_ON, p);
      var q := SetField(SetField(a, TNG1_R_DIV, r), TNG1_N_DIV_11_8, n);
      && GetField(TNG1_DIV4SEL, q) == d && GetField(TNG1_PRESC32_ON, q) == p
      && GetField(TNG1_R_DIV, q) == r && GetField(TNG1_N_DIV_11_8, q) == n
  {
    hide SetField, GetField;
    Powers();
    var a := SetField(t, TNG1_DIV4SEL, d);
    var b := SetField(a, TNG1_PRESC32_ON, p);
    var c := SetField(b, TNG1_R_DIV, r);
    SetThenGet(t, TNG1_DIV4SEL, d);
    SetThenGet(a, TNG1_PRESC32_ON, p);
    SetThenGet(b, TNG1_R_DIV, r);
    SetThenGet(c, TNG1_N_DIV_11_8, n);
    OtherFieldKept(a, TNG1_PRESC32_ON, p, TNG1_DIV4SEL);
    OtherFieldKept(b, TNG1_R_DIV, r, TNG1_DIV4SEL);
    OtherFieldKept(b, TNG1_R_DIV, r, TNG1_PRESC32_ON);
    OtherFieldKept(c, TNG1_N_DIV_11_8, n, TNG1_DIV4SEL);
    OtherFieldKept(c, TNG1_N_DIV_11_8, n, TNG1_PRESC32_ON);
    OtherFieldKept(c, TNG1_N_DIV_11_8, n, TNG1_R_DIV);
  }

  lemma TunedFields(s: File, refclk: nat, frequency: nat, r: nat)
    requires 16000000 <= refclk < 48000000 && r < 4 && Divider(frequency, refclk / 1000, r) < 4096
    ensures var t := Tuned(s, refclk, frequency, r);
      && GetField(CTRL1_K, t[CTRL1]) == refclk / 1000000 - 16
      && t[CTRL1] - Span(CTRL1_K) == s[CTRL1] - Span(CTRL1_K)
      && GetField(TNG1_DIV4SEL, t[TNG1]) == Div4(frequency) && GetField(TNG1_PRESC32_ON, t[TNG1]) == Presc32(frequency)
      && GetField(TNG1_R_DIV, t[TNG1]) == r
      && GetField(TNG1_N_DIV_11_8, t[TNG1]) == Divider(frequency, refclk / 1000, r) / 256
      && GetField(TNG0_N_DIV_7_0, t[TNG0]) == Divider(frequency, refclk / 1000, r) % 256
      && GetField(STAT1_CALVCO_STRT, t[STAT1]) == 1
      && t[STAT1] - Span(STAT1_CALVCO_STRT) == s[STAT1] - Span(STAT1_CALVCO_STRT)
      && t[CTRL2] == s[CTRL2] && t[CTRL3] == s[CTRL3]
  {
    hide SetField, GetField, Divider, Span;
    var n := Divider(frequency, refclk / 1000, r);
    FieldLimits();
    assert KValue(refclk) == refclk / 1000000 - 16;
    SetThenGet(s[CTRL1], CTRL1_K, KValue(refclk));
    assert n / 256 % 256 == n / 256 < 16;
    Tng1Fields(s[TNG1], Div4(frequency), Presc32(frequency), r, n / 256);
    SetThenGet(s[TNG0], TNG0_N_DIV_7_0, n % 256);
    SetThenGet(s[STAT1], STAT1_CALVCO_STRT, 1);
  }

  /**
   * For the clocks and frequencies the tuner is made for, every value set_frequency puts into a
   * field fits it: the fields read back as set, the other bits of CTRL1 and STAT1 survive, and the
   * registers stand for the frequency to within half a PLL step and a kilohertz.
   */
  lemma TunedReadsBack(s: File, refclk: nat, frequency: nat, r: nat)
    requires 16000000 <= refclk < 48000000 && InBand(frequency, refclk / 1000)
    requires FirstClosest(refclk / 1000, PVal(frequency), r, 4)
    ensures var t := Tuned(s, refclk, frequency, r);
      var k := Scale(frequency, r);
      && GetField(CTRL1_K, t[CTRL1]) == refclk / 1000000 - 16
      && t[CTRL1] - Span(CTRL1_K) == s[CTRL1] - Span(CTRL1_K)
      && GetField(TNG1_DIV4SEL, t[TNG1]) == Div4(frequency) && GetField(TNG1_PRESC32_ON, t[TNG1]) == Presc32(frequency)
      && GetField(TNG1_R_DIV, t[TNG1]) == r
      && GetField(TNG1_N_DIV_11_8, t[TNG1]) * 256 + GetField(TNG0_N_DIV_7_0, t[TNG0])
         == Divider(frequency, refclk / 1000, r)
      && GetField(STAT1_CALVCO_STRT, t[STAT1]) == 1
      && t[STAT1] - Span(STAT1_CALVCO_STRT) == s[STAT1] - Span(STAT1_CALVCO_STRT)
      && t[CTRL2] == s[CTRL2] && t[CTRL3] == s[CTRL3]
      && 2 * (FrequencyIn(t, refclk) * k) - 2 * (frequency * k) <= refclk / 1000
      && 2 * (frequency * k) - 2 * (FrequencyIn(t, refclk) * k) < refclk / 1000 + 2 * k
  {
    hide Tuned, SetField, GetField, FirstClosest, Divider, FrequencyOf, Scale, PVal, Span, Div4, Presc32;
    ROf(frequency, refclk / 1000, r);
    DividerIsRounded(frequency, refclk / 1000, r);
    RoundTrip(frequency, refclk / 1000, r);
    TunedFields(s, refclk, frequency, r);
  }

  lemma ROf(frequency: nat, refKHz: nat, r: nat)
    requires FirstClosest(refKHz, PVal(frequency), r, 4)
    ensures r < 4
  {
  }

  lemma FieldLimits()
    ensures Pow2(CTRL1_K.width) == 32 && Pow2(TNG0_N_DIV_7_0.width) == 256 && Pow2(CTRL3_CF.width) == 32
    ensures Pow2(STAT1_CALVCO_STRT.width) == 2 && Pow2(CTRL3_RCCLK_OFF.width) == 2
      && Pow2(CTRL2_BBGAIN.width) == 16 && Pow2(CTRL2_CO_DIV.width) == 4
  {
  }

  // ---------- the low-pass filter ----------

  /** The value of CTRL3_CF for a bandwidth. */
  function CfFor(bandwidth: nat): nat {
    var halfbw := bandwidth / 2;
    if halfbw > 36000000 then 31
    else if halfbw < 5000000 then 0
    else halfbw / 1000000 - 5
  }

  function BandwidthIn(s: File): nat {
    (GetField(CTRL3_CF, s[CTRL3]) + 5) * 2000000
  }

  function Filtered(s: File, bandwidth: nat): File {
    s[CTRL3 := SetField(SetField(s[CTRL3], CTRL3_CF, CfFor(bandwidth)), CTRL3_RCCLK_OFF, 0)]
     [STAT1 := SetField(s[STAT1], STAT1_CALRC_STRT, 1)]
  }

  /** ... and after the calibration, with its clock switched off. */
  function Calibrated(s: File, bandwidth: nat): File {
    var t := Filtered(s, bandwidth);
    t[CTRL3 := SetField(t[CTRL3], CTRL3_RCCLK_OFF, 1)]
  }

  /** The bandwidth is clamped to 10 to 72 MHz and rounded down to an even number of MHz. */
  lemma BandwidthReadsBack(s: File, bandwidth: nat)
    requires bandwidth < U32
    ensures BandwidthIn(Calibrated(s, bandwidth)) ==
      2000000 * (if bandwidth < 10000000 then 5 else if bandwidth >= 72000000 then 36 else bandwidth / 2000000)
    ensures GetField(CTRL3_RCCLK_OFF, Filtered(s, bandwidth)[CTRL3]) == 0
    ensures GetField(CTRL3_RCCLK_OFF, Calibrated(s, bandwidth)[CTRL3]) == 1
    ensures Calibrated(s, bandwidth)[CTRL3] - Span(CTRL3_CF) - Span(CTRL3_RCCLK_OFF)
         == s[CTRL3] - Span(CTRL3_CF) - Span(CTRL3_RCCLK_OFF)
  {
    hide SetField, GetField, Span;
    FieldLimits();
    var a := SetField(s[CTRL3], CTRL3_CF, CfFor(bandwidth));
    var b := SetField(a, CTRL3_RCCLK_OFF, 0);
    var c := SetField(b, CTRL3_RCCLK_OFF, 1);
    SetThenGet(s[CTRL3], CTRL3_CF, CfFor(bandwidth));
    SetThenGet(a, CTRL3_RCCLK_OFF, 0);
    SetThenGet(b, CTRL3_RCCLK_OFF, 1);
    OtherFieldKept(a, CTRL3_RCCLK_OFF, 0, CTRL3_CF);
    OtherFieldKept(b, CTRL3_RCCLK_OFF, 1, CTRL3_CF);
    TwoDiffs(s[CTRL3], a, c, Span(CTRL3_CF), Span(CTRL3_RCCLK_OFF));
  }

  lemma TwoDiffs(a: Reg, b: Reg, c: Reg, f: Reg, g: Reg)
    requires b - f == a - f && c - g == b - g
    ensures c - f - g == a - f - g
  {
    forall k | k in c - f - g ensures k in a - f - g {
      assert k in b - g;
      assert k in a - f;
    }
    forall k | k in a - f - g ensures k in c - f - g {
      assert k in b - f;
      assert k in c - g;
    }
  }

  function CoDiv(divisor: nat): nat {
    if divisor == 2 then 1 else if divisor == 4 then 2 else if divisor == 8 || divisor == 0 then 3 else 0
  }

  // ---------- the I2C path ----------

  /**
   * What happens to the transfers, one by one: whether success is reported, whether the bytes
   * really reach the register, and what is read when they come from somewhere else.
   */
  datatype Path = Path(reported: nat -> bool, landed: nat -> bool, other: nat -> Reg)

  predicate Reported(p: Path, t: nat) {
    p.reported(t)
  }

  predicate Landed(p: Path, t: nat) {
    p.landed(t)
  }

  function Other(p: Path, t: nat): Reg {
    p.other(t)
  }

  /** Transfer t writes v to register r of the chip, if it gets there. */
  function Land(chip: File, p: Path, t: nat, r: nat, v: Reg): File
    requires r < 8
  {
    if Landed(p, t) then chip[r := v] else chip
  }

  /** The four writes of set_frequency, beginning with transfer t. */
  function TuneLands(chip: File, p: Path, t: nat, s: File): File {
    Land(Land(Land(Land(chip, p, t, CTRL1, s[CTRL1]), p, t + 1, TNG1, s[TNG1]),
              p, t + 2, TNG0, s[TNG0]), p, t + 3, STAT1, s[STAT1])
  }

  /** The three writes of set_bandwidth: two beginning with transfer t, and the last one. */
  function FilterLands(chip: File, p: Path, t: nat, last: nat, s: File, off: Reg): File {
    Land(Land(Land(chip, p, t, CTRL3, s[CTRL3]), p, t + 1, STAT1, s[STAT1]), p, last, CTRL3, off)
  }

  /** Transfer t reads register r of the chip, which holds v, into a shadow that holds s. */
  function ReadInto(p: Path, t: nat, r: nat, v: Reg, s: Reg): Reg {
    if !Reported(p, t) then s else if Landed(p, t) && r < STAT1 then v else Other(p, t)
  }

  /** No transfer from number `first` on went wrong. */
  ghost predicate Clean(p: Path, first: nat, last: nat) {
    forall t: nat :: first <= t < last ==> Reported(p, t) && Landed(p, t)
  }

  predicate Same(a: File, b: File) {
    a[..STAT1] == b[..STAT1]
  }

  class Tuner {
    const refclk: nat
    const clkDiv: nat
    const path: Path
    const regs: array<Reg>   // the shadow
    var chip: File           // the registers of the chip; those from STAT1 on change by themselves
    var time: nat            // transfers so far

    ghost predicate Valid() {
      regs.Length == 8 && 1000 <= refclk < U32
    }

    ghost function Shadow(): File
      requires Valid()
      reads regs
    {
      regs[..]
    }

    /** The control registers 0 to 4 of the shadow are those of the chip. */
    ghost predicate Agrees()
      requires Valid()
      reads this, regs
    {
      Same(Shadow(), chip)
    }

    /** Nothing but successful transfers since number `first`. */
    ghost predicate CleanSince(first: nat)
      reads this
    {
      first <= time && Clean(path, first, time)
    }

    constructor (refclk: nat, clkDiv: nat, path: Path, chip: File)
      requires 1000 <= refclk < U32
      ensures Valid() && fresh(regs)
      ensures Shadow() == Fresh(clkDiv)
      ensures this.refclk == refclk && this.clkDiv == clkDiv && this.path == path && this.chip == chip
    {
      this.refclk, this.clkDiv, this.path, this.chip, time := refclk, clkDiv, path, chip, 0;
      regs := new Reg[8](_ => {});
      new;
      Restart();
    }

    /** STV6110x_SETFIELD on the shadow. */
    method Set(r: nat, f: Field, val: nat)
      requires Valid() && r < 8
      modifies regs
      ensures Shadow() == old(Shadow())[r := SetField(old(regs[r]), f, val)]
    {
      regs[r] := SetField(regs[r], f, val);
    }

    method WriteRegs(start: nat, data: seq<Reg>) returns (ret: int)
      requires Valid()
      modifies this`chip, this`time
      ensures |data| + 1 > 64 || start + |data| > 8 ==>
        ret == -22 && chip == old(chip) && time == old(time)
      ensures !(|data| + 1 > 64 || start + |data| > 8) ==>
        && time == old(time) + 1
        && ret == (if Reported(path, old(time)) then 0 else -121)
        && chip == if Landed(path, old(time)) then old(chip)[..start] + data + old(chip)[start + |data|..]
                   else old(chip)
    {
      if |data| + 1 > MAX_XFER_SIZE {
        return EINVAL;
      }
      if start + |data| > 8 {
        return EINVAL;
      }
      if Landed(path, time) {
        chip := chip[..start] + data + chip[start + |data|..];
      }
      ret := if Reported(path, time) then 0 else EREMOTEIO;
      time := time + 1;
    }

    method WriteReg(r: nat) returns (ret: int)
      requires Valid() && r < 8
      modifies this`chip, this`time
      ensures time == old(time) + 1 && chip == Land(old(chip), path, old(time), r, regs[r])
      ensures ret == if Reported(path, old(time)) then 0 else -121
    {
      ret := WriteRegs(r, [regs[r]]);
      assert old(chip)[..r] + [regs[r]] + old(chip)[r + 1..] == old(chip)[r := regs[r]];
    }

    /** read_reg into the shadow; a failed transfer leaves it alone. */
    method ReadReg(r: nat) returns (ret: int)
      requires Valid() && r < 8
      modifies regs, this`time
      ensures time == old(time) + 1 && ret == if Reported(path, old(time)) then 0 else -121
      ensures Shadow() == old(Shadow())[r := regs[r]]
      ensures regs[r] == ReadInto(path, old(time), r, chip[r], old(regs[r]))
    {
      if Reported(path, time) {
        regs[r] := if r < STAT1 && Landed(path, time) then chip[r] else Other(path, time);
        ret := 0;
      } else {
        ret := EREMOTEIO;
      }
      time := time + 1;
    }

    /** init_regs and setup_divider. */
    method Restart()
      requires Valid()
      modifies regs
      ensures Shadow() == Fresh(clkDiv)
    {
      hide RegOf, SetField;
      regs[0], regs[1], regs[2], regs[3] := RegOf(0x07), RegOf(0x11), RegOf(0xdc), RegOf(0x85);
      regs[4], regs[5], regs[6], regs[7] := RegOf(0x17), RegOf(0x01), RegOf(0xe6), RegOf(0x1e);
      assert Shadow() == [RegOf(0x07), RegOf(0x11), RegOf(0xdc), RegOf(0x85),
                          RegOf(0x17), RegOf(0x01), RegOf(0xe6), RegOf(0x1e)];
      Set(CTRL2, CTRL2_CO_DIV, CoDiv(clkDiv));
    }

    /** Writes the whole shadow. */
    method Init() returns (ret: int)
      requires Valid()
      modifies this`chip, this`time
      ensures time == old(time) + 1
      ensures ret == if Reported(path, old(time)) then 0 else -1
      ensures chip == if Landed(path, old(time)) then Shadow() else old(chip)
    {
      ret := WriteRegs(0, regs[..]);
      assert old(chip)[..0] + regs[..] + old(chip)[8..] == regs[..];
      if ret < 0 {
        ret := -1;
      }
    }

    /** Waits for a calibration bit of STAT1 to fall: at most ten reads, fewer only if it has fallen. */
    method Calibrate(f: Field)
      requires Valid()
      modifies regs, this`time
      ensures old(time) + 1 <= time <= old(time) + 10
      ensures time < old(time) + 10 ==> GetField(f, regs[STAT1]) == 0
      ensures Shadow() == old(Shadow())[STAT1 := regs[STAT1]]
    {
      var i := 0;
      while i < TRIALS
        invariant 0 <= i <= TRIALS && time == old(time) + i
        invariant Shadow() == old(Shadow())[STAT1 := regs[STAT1]]
      {
        var ret := ReadReg(STAT1);
        if GetField(f, regs[STAT1]) == 0 {
          return;
        }
        i := i + 1;
      }
    }

    /**
     * set_frequency.  It always reports success.  The shadow is the tuned one, and the chip has
     * exactly those of its four writes that landed.
     */
    method SetFrequency(frequency: nat) returns (ret: int, ghost r: nat)
      requires Valid() && frequency < U32
      modifies regs, this`chip, this`time
      ensures ret == 0 && FirstClosest(refclk / 1000, PVal(frequency), r, 4)
      ensures old(time) + 5 <= time <= old(time) + 14
      ensures Shadow() == Tuned(old(Shadow()), refclk, frequency, r)[STAT1 := regs[STAT1]]
      ensures var t := Tuned(old(Shadow()), refclk, frequency, r);
        chip == TuneLands(old(chip), path, old(time), t)
      ensures Landed(path, old(time) + 3) ==> 2 in chip[5]
      ensures time < old(time) + 14 ==> 2 !in regs[5]
      ensures old(Agrees()) && CleanSince(old(time)) ==> Agrees()
    {
      hide SetField, GetField, FirstClosest, Divider;
      Set(CTRL1, CTRL1_K, KValue(refclk));
      Set(TNG1, TNG1_DIV4SEL, Div4(frequency));
      Set(TNG1, TNG1_PRESC32_ON, Presc32(frequency));
      var rDiv := SearchRDiv(refclk / 1000, PVal(frequency));
      r := rDiv;
      var divider := Divider(frequency, refclk / 1000, rDiv);
      Set(TNG1, TNG1_R_DIV, rDiv);
      Set(TNG1, TNG1_N_DIV_11_8, divider / 256 % 256);
      Set(TNG0, TNG0_N_DIV_7_0, divider % 256);
      Set(STAT1, STAT1_CALVCO_STRT, 1);
      assert Shadow() == Tuned(old(Shadow()), refclk, frequency, r);
      var ignored := WriteReg(CTRL1);
      ignored := WriteReg(TNG1);
      ignored := WriteReg(TNG0);
      ignored := WriteReg(STAT1);
      StartBits(old(regs[STAT1]));
      Calibrate(STAT1_CALVCO_STRT);
      StartBits(regs[STAT1]);
      ret := 0;
    }

    /** get_frequency. */
    method GetFrequency() returns (frequency: nat)
      requires Valid()
      modifies regs, this`time
      ensures time == old(time) + 2
      ensures frequency == FrequencyIn(Shadow(), refclk)
      ensures Shadow() == old(Shadow())
        [TNG1 := ReadInto(path, old(time), TNG1, chip[TNG1], old(regs[TNG1]))]
        [TNG0 := ReadInto(path, old(time) + 1, TNG0, chip[TNG0], old(regs[TNG0]))]
      ensures CleanSince(old(time)) ==>
        regs[TNG1] == chip[TNG1] && regs[TNG0] == chip[TNG0] && frequency == FrequencyIn(chip, refclk)
    {
      var ret := ReadReg(TNG1);
      ret := ReadReg(TNG0);
      frequency := FrequencyIn(regs[..], refclk);
    }

    /** set_bandwidth: the filter is calibrated with its clock running, which is switched off again. */
    method SetBandwidth(bandwidth: nat) returns (ret: int)
      requires Valid() && bandwidth < U32
      modifies regs, this`chip, this`time
      ensures ret == 0 && old(time) + 4 <= time <= old(time) + 13
      ensures var t := Filtered(old(Shadow()), bandwidth);
        var off := Calibrated(old(Shadow()), bandwidth)[CTRL3];
        && Shadow() == Calibrated(old(Shadow()), bandwidth)[STAT1 := regs[STAT1]]
        && chip == FilterLands(old(chip), path, old(time), time - 1, t, off)
      ensures Landed(path, old(time) + 1) ==> 1 in chip[5]
      ensures time < old(time) + 13 ==> 1 !in regs[5]
      ensures old(Agrees()) && CleanSince(old(time)) ==> Agrees()
    {
      hide SetField, GetField, CfFor;
      Set(CTRL3, CTRL3_CF, CfFor(bandwidth));
      Set(CTRL3, CTRL3_RCCLK_OFF, 0);
      Set(STAT1, STAT1_CALRC_STRT, 1);
      var ignored := WriteReg(CTRL3);
      ignored := WriteReg(STAT1);
      StartBits(old(regs[STAT1]));
      Calibrate(STAT1_CALRC_STRT);
      StartBits(regs[STAT1]);
      Set(CTRL3, CTRL3_RCCLK_OFF, 1);
      ignored := WriteReg(CTRL3);
      ret := 0;
    }

    method GetBandwidth() returns (bandwidth: nat)
      requires Valid()
      modifies regs, this`time
      ensures time == old(time) + 1 && bandwidth == BandwidthIn(Shadow())
      ensures Shadow() == old(Shadow())[CTRL3 := ReadInto(path, old(time), CTRL3, chip[CTRL3], old(regs[CTRL3]))]
      ensures CleanSince(old(time)) ==> regs[CTRL3] == chip[CTRL3]
    {
      var ret := ReadReg(CTRL3);
      bandwidth := BandwidthIn(regs[..]);
    }

    method SetRefclock(divisor: nat) returns (ret: int)
      requires Valid()
      modifies regs, this`chip, this`time
      ensures ret == 0 && time == old(time) + 1
      ensures Shadow() == old(Shadow())[CTRL2 := SetField(old(regs[CTRL2]), CTRL2_CO_DIV, CoDiv(divisor))]
      ensures chip == Land(old(chip), path, old(time), CTRL2, regs[CTRL2])
    {
      hide SetField;
      Set(CTRL2, CTRL2_CO_DIV, CoDiv(divisor));
      var ignored := WriteReg(CTRL2);
      ret := 0;
    }

    method SetBbgain(gain: nat) returns (ret: int)
      requires Valid()
      modifies regs, this`chip, this`time
      ensures ret == 0 && time == old(time) + 1
      ensures Shadow() == old(Shadow())[CTRL2 := SetField(old(regs[CTRL2]), CTRL2_BBGAIN, gain / 2)]
      ensures chip == Land(old(chip), path, old(time), CTRL2, regs[CTRL2])
    {
      hide SetField;
      Set(CTRL2, CTRL2_BBGAIN, gain / 2);
      var ignored := WriteReg(CTRL2);
      ret := 0;
    }

    method GetBbgain() returns (gain: nat)
      requires Valid()
      modifies regs, this`time
      ensures time == old(time) + 1 && gain == 2 * Number(regs[1], 0, 4)
      ensures Shadow() == old(Shadow())[CTRL2 := ReadInto(path, old(time), CTRL2, chip[CTRL2], old(regs[CTRL2]))]
      ensures CleanSince(old(time)) ==> regs[CTRL2] == chip[CTRL2]
    {
      hide Number;
      var ret := ReadReg(CTRL2);
      gain := 2 * GetField(CTRL2_BBGAIN, regs[CTRL2]);
    }

    /** set_mode: 1 is TUNER_SLEEP, 2 is TUNER_WAKE; any other mode only rewrites CTRL1. */
    method SetMode(mode: int) returns (ret: int)
      requires Valid()
      modifies regs, this`chip, this`time
      ensures time == old(time) + 1 && ret == (if Reported(path, old(time)) then 0 else -5)
      ensures Shadow() == old(Shadow())[CTRL1 := ModeSet(old(regs[CTRL1]), mode)]
      ensures chip == Land(old(chip), path, old(time), CTRL1, regs[CTRL1])
    {
      hide SetField;
      if mode == 1 {
        Set(CTRL1, CTRL1_SYN, 0);
        Set(CTRL1, CTRL1_RX, 0);
        Set(CTRL1, CTRL1_LPT, 0);
      } else if mode == 2 {
        Set(CTRL1, CTRL1_SYN, 1);
        Set(CTRL1, CTRL1_RX, 1);
        Set(CTRL1, CTRL1_LPT, 1);
      }
      ret := WriteReg(CTRL1);
      if ret < 0 {
        ret := EIO;
      }
    }

    /** set_params: defaults, output clock, init, frequency, bandwidth.  Nothing has to agree before. */
    method SetParams(frequency: nat, bandwidth: nat) returns (ret: int, ghost r: nat, ghost mid: nat)
      requires Valid() && frequency < U32 && bandwidth < U32
      modifies regs, this`chip, this`time
      ensures old(time) < time
      ensures ret == if Reported(path, old(time)) then 0 else -1
      ensures CleanSince(old(time)) ==> Agrees()
      ensures var first := if Landed(path, old(time)) then Fresh(clkDiv) else old(chip);
        if ret != 0 then Shadow() == Fresh(clkDiv) && chip == first
        else
          && FirstClosest(refclk / 1000, PVal(frequency), r, 4)
          && old(time) < mid < time
          && var tuned := Tuned(Fresh(clkDiv), refclk, frequency, r);
             && Same(Shadow(), Calibrated(tuned, bandwidth))
             && Same(chip, FilterLands(TuneLands(first, path, old(time) + 1, tuned),
                                       path, mid, time - 1, Filtered(tuned, bandwidth),
                                       Calibrated(tuned, bandwidth)[CTRL3]))
             && chip[6] == first[6] && chip[7] == first[7]
    {
      hide SetField, GetField, FirstClosest, Tuned, Fresh, Calibrated, Filtered, TuneLands, FilterLands;
      r, mid := 0, 0;
      ghost var t := time;
      Restart();
      ret := Init();
      if ret < 0 {
        return;
      }
      ghost var first := chip;
      ret, r := SetFrequency(frequency);
      mid := time;
      ghost var tuned := Tuned(Fresh(clkDiv), refclk, frequency, r);
      ghost var x := regs[STAT1];
      ret := SetBandwidth(bandwidth);
      LandsKeep(first, path, t + 1, mid, time - 1, Tuned(Fresh(clkDiv), refclk, frequency, r),
                Filtered(tuned[STAT1 := x], bandwidth), Calibrated(tuned[STAT1 := x], bandwidth)[CTRL3]);
      Stat1IsApart(tuned, x, regs[STAT1], TuneLands(first, path, t + 1, tuned), path, mid, time - 1, bandwidth);
    }

    method GetStatus() returns (locked: bool)
      requires Valid()
      modifies regs, this`time
      ensures time == old(time) + 1 && locked == (0 in regs[5])
      ensures Shadow() == old(Shadow())[STAT1 := regs[STAT1]]
    {
      var ret := ReadReg(STAT1);
      OneBit(regs[STAT1], 0);
      locked := GetField(STAT1_LOCK, regs[STAT1]) != 0;
    }
  }

  lemma LandsKeep(chip: File, p: Path, t: nat, mid: nat, last: nat, s: File, on: File, off: Reg)
    ensures var tuned := TuneLands(chip, p, t, s);
      var after := FilterLands(tuned, p, mid, last, on, off);
      after[6] == tuned[6] == chip[6] && after[7] == tuned[7] == chip[7]
  {
  }

  lemma StartBits(reg: Reg)
    ensures 2 in SetField(reg, STAT1_CALVCO_STRT, 1) && 1 in SetField(reg, STAT1_CALRC_STRT, 1)
    ensures GetField(STAT1_CALVCO_STRT, reg) == 0 <==> 2 !in reg
    ensures GetField(STAT1_CALRC_STRT, reg) == 0 <==> 1 !in reg
  {
    assert Digit(1, 0);
    OneBit(reg, 2);
    OneBit(reg, 1);
  }

  /** What STAT1 holds does not matter for the other registers. */
  lemma Stat1IsApart(s: File, x: Reg, y: Reg, chip: File, p: Path, t: nat, last: nat, bandwidth: nat)
    ensures var u := s[STAT1 := x];
      var off := Calibrated(s, bandwidth)[CTRL3];
      && Calibrated(u, bandwidth)[CTRL3] == off
      && Same(Calibrated(u, bandwidth)[STAT1 := y], Calibrated(s, bandwidth))
      && Same(FilterLands(chip, p, t, last, Filtered(u, bandwidth), off),
              FilterLands(chip, p, t, last, Filtered(s, bandwidth), off))
  {
    hide SetField, CfFor;
  }

  function ModeSet(ctrl1: Reg, mode: int): Reg {
    if mode == 1 then SetField(SetField(SetField(ctrl1, CTRL1_SYN, 0), CTRL1_RX, 0), CTRL1_LPT, 0)
    else if mode == 2 then SetField(SetField(SetField(ctrl1, CTRL1_SYN, 1), CTRL1_RX, 1), CTRL1_LPT, 1)
    else ctrl1
  }

  // ---------- shadow and chip over whole runs ----------

  /** Everything the driver can be asked to do. */
  datatype Op =
    | OpInit
    | OpSetFrequency(frequency: nat) | OpGetFrequency
    | OpSetBandwidth(bandwidth: nat) | OpGetBandwidth
    | OpSetRefclock(divisor: nat)
    | OpSetBbgain(gain: nat) | OpGetBbgain
    | OpSetMode(mode: int)
    | OpGetStatus
    | OpSetParams(frequency: nat, bandwidth: nat)

  predicate InWord(op: Op) {
    match op
    case OpSetFrequency(f) => f < U32
    case OpSetBandwidth(b) => b < U32
    case OpSetParams(f, b) => f < U32 && b < U32
    case _ => true
  }

  /** One write of v into a register that held `before`, and whether the chip then holds `now`. */
  predicate WriteSettles(p: Path, t: nat, before: Reg, now: Reg) {
    Landed(p, t) || before == now
  }

  predicate ReadSettles(p: Path, t: nat, chip: Reg, shadow: Reg) {
    if Reported(p, t) then Landed(p, t) || Other(p, t) == chip else chip == shadow
  }

  predicate TuneSettles(p: Path, t: nat, r: nat, before: File, shadow: File, now: File)
    requires r < STAT1
  {
    if r == CTRL1 then WriteSettles(p, t, before[r], now[r])
    else if r == TNG1 then WriteSettles(p, t + 1, before[r], now[r])
    else if r == TNG0 then WriteSettles(p, t + 2, before[r], now[r])
    else before[r] == shadow[r]
  }

  /** The last write switches the calibration clock off; the first one, if it landed, had switched it on. */
  predicate FilterSettles(p: Path, t: nat, last: nat, r: nat, before: File, shadow: File, now: File)
    requires r < STAT1
  {
    if r == CTRL3 then Landed(p, last) || (!Landed(p, t) && before[r] == now[r])
    else before[r] == shadow[r]
  }

  /**
   * Exactly when shadow and chip agree in register r after a request: the last write to r landed,
   * or was lost where it would have changed nothing; a register that was read agrees if the read
   * came through; one that was not touched agrees if it did before.  `shadow` and `before` are the
   * two before the request, `now` is the shadow after it; the request took the transfers from
   * `first` up to `last`, its set_bandwidth those from `mid` on.
   */
  predicate Settled(op: Op, p: Path, first: nat, mid: nat, last: nat, r: nat,
                      before: File, shadow: File, now: File, defaults: File)
    requires r < STAT1 && last > 0
  {
    match op
    case OpInit => WriteSettles(p, first, before[r], now[r])
    case OpSetFrequency(_) => TuneSettles(p, first, r, before, shadow, now)
    case OpSetBandwidth(_) => FilterSettles(p, first, last - 1, r, before, shadow, now)
    case OpSetRefclock(_) => if r == CTRL2 then WriteSettles(p, first, before[r], now[r]) else before[r] == shadow[r]
    case OpSetBbgain(_) => if r == CTRL2 then WriteSettles(p, first, before[r], now[r]) else before[r] == shadow[r]
    case OpSetMode(_) => if r == CTRL1 then WriteSettles(p, first, before[r], now[r]) else before[r] == shadow[r]
    case OpGetFrequency =>
      if r == TNG1 then ReadSettles(p, first, before[r], shadow[r])
      else if r == TNG0 then ReadSettles(p, first + 1, before[r], shadow[r])
      else before[r] == shadow[r]
    case OpGetBandwidth => if r == CTRL3 then ReadSettles(p, first, before[r], shadow[r]) else before[r] == shadow[r]
    case OpGetBbgain => if r == CTRL2 then ReadSettles(p, first, before[r], shadow[r]) else before[r] == shadow[r]
    case OpGetStatus => before[r] == shadow[r]
    case OpSetParams(_, _) =>
      if !Reported(p, first) then WriteSettles(p, first, before[r], now[r])
      else
        var loaded := if Landed(p, first) then defaults else before;
        if r == CTRL3 then FilterSettles(p, mid, last - 1, r, loaded, defaults, now)
        else TuneSettles(p, first + 1, r, loaded, defaults, now)
  }

  lemma TuneAgrees(before: File, shadow: File, p: Path, t: nat, tuned: File, r: nat)
    requires r < STAT1 && tuned[CTRL2] == shadow[CTRL2] && tuned[CTRL3] == shadow[CTRL3]
    ensures TuneLands(before, p, t, tuned)[r] == tuned[r] <==> TuneSettles(p, t, r, before, shadow, tuned)
  {
  }

  lemma FilterAgrees(before: File, shadow: File, p: Path, t: nat, last: nat, bandwidth: nat, r: nat)
    requires r < STAT1 && bandwidth < U32
    ensures var on, off := Filtered(shadow, bandwidth), Calibrated(shadow, bandwidth);
      FilterLands(before, p, t, last, on, off[CTRL3])[r] == off[r] <==>
        FilterSettles(p, t, last, r, before, shadow, off)
  {
    hide SetField, GetField, CfFor, Span;
    BandwidthReadsBack(shadow, bandwidth);
  }

  lemma TunedKeeps(s: File, refclk: nat, frequency: nat, r: nat)
    requires refclk >= 1000
    ensures Tuned(s, refclk, frequency, r)[CTRL2] == s[CTRL2] && Tuned(s, refclk, frequency, r)[CTRL3] == s[CTRL3]
  {
  }

  lemma LoadAgrees(loaded: File, defaults: File, p: Path, t: nat, mid: nat, last: nat,
                     tuned: File, bandwidth: nat, r: nat)
    requires r < STAT1 && bandwidth < U32 && tuned[CTRL2] == defaults[CTRL2] && tuned[CTRL3] == defaults[CTRL3]
    ensures var off := Calibrated(tuned, bandwidth);
      FilterLands(TuneLands(loaded, p, t, tuned), p, mid, last, Filtered(tuned, bandwidth),
                  off[CTRL3])[r] == off[r] <==>
        if r == CTRL3 then FilterSettles(p, mid, last, r, loaded, defaults, off)
        else TuneSettles(p, t, r, loaded, defaults, off)
  {
    FilterAgrees(TuneLands(loaded, p, t, tuned), tuned, p, mid, last, bandwidth, r);
    TuneAgrees(loaded, defaults, p, t, tuned, r);
  }

  ghost predicate AllSettled(d: Tuner, op: Op, first: nat, mid: nat, before: File, shadow: File)
    requires d.Valid() && d.time > 0
    reads d, d.regs
  {
    forall r :: 0 <= r < STAT1 ==>
      (d.Shadow()[r] == d.chip[r] <==>
       Settled(op, d.path, first, mid, d.time, r, before, shadow, d.Shadow(), Fresh(d.clkDiv)))
  }

  method Tune(d: Tuner, frequency: nat)
    requires d.Valid() && frequency < U32
    modifies d`chip, d`time, d.regs
    ensures old(d.time) < d.time
    ensures old(d.Agrees()) && d.CleanSince(old(d.time)) ==> d.Agrees()
    ensures AllSettled(d, OpSetFrequency(frequency), old(d.time), 0, old(d.chip), old(d.Shadow()))
  {
    hide Fresh, FirstClosest, Tuned, TuneLands;
    ghost var before, shadow, t := d.chip, d.Shadow(), d.time;
    var ret;
    ghost var r;
    ret, r := d.SetFrequency(frequency);
    ghost var tuned := Tuned(shadow, d.refclk, frequency, r);
    TunedKeeps(shadow, d.refclk, frequency, r);
    forall q | 0 <= q < STAT1
      ensures d.Shadow()[q] == d.chip[q] <==> TuneSettles(d.path, t, q, before, shadow, d.Shadow())
    {
      TuneAgrees(before, shadow, d.path, t, tuned, q);
    }
  }

  method Filter(d: Tuner, bandwidth: nat)
    requires d.Valid() && bandwidth < U32
    modifies d`chip, d`time, d.regs
    ensures old(d.time) < d.time
    ensures old(d.Agrees()) && d.CleanSince(old(d.time)) ==> d.Agrees()
    ensures AllSettled(d, OpSetBandwidth(bandwidth), old(d.time), 0, old(d.chip), old(d.Shadow()))
  {
    hide Fresh, Calibrated, Filtered, FilterLands;
    ghost var before, shadow, t := d.chip, d.Shadow(), d.time;
    var ret := d.SetBandwidth(bandwidth);
    forall q | 0 <= q < STAT1
      ensures d.Shadow()[q] == d.chip[q] <==> FilterSettles(d.path, t, d.time - 1, q, before, shadow, d.Shadow())
    {
      FilterAgrees(before, shadow, d.path, t, d.time - 1, bandwidth, q);
    }
  }

  method Load(d: Tuner, frequency: nat, bandwidth: nat) returns (ghost mid: nat)
    requires d.Valid() && frequency < U32 && bandwidth < U32
    modifies d`chip, d`time, d.regs
    ensures old(d.time) < d.time
    ensures d.CleanSince(old(d.time)) ==> d.Agrees()
    ensures AllSettled(d, OpSetParams(frequency, bandwidth), old(d.time), mid, old(d.chip), old(d.Shadow()))
  {
    hide Fresh, FirstClosest, Tuned, Calibrated, Filtered, TuneLands, FilterLands;
    ghost var before, t, defaults := d.chip, d.time, Fresh(d.clkDiv);
    var ret;
    ghost var r;
    ret, r, mid := d.SetParams(frequency, bandwidth);
    if ret == 0 {
      ghost var tuned := Tuned(defaults, d.refclk, frequency, r);
      ghost var loaded := if Landed(d.path, t) then defaults else before;
      TunedKeeps(defaults, d.refclk, frequency, r);
      forall q | 0 <= q < STAT1
        ensures d.Shadow()[q] == d.chip[q] <==>
          if q == CTRL3 then FilterSettles(d.path, mid, d.time - 1, q, loaded, defaults, d.Shadow())
          else TuneSettles(d.path, t + 1, q, loaded, defaults, d.Shadow())
      {
        LoadAgrees(loaded, defaults, d.path, t + 1, mid, d.time - 1, tuned, bandwidth, q);
        assert d.Shadow()[q] == d.Shadow()[..STAT1][q] && d.chip[q] == d.chip[..STAT1][q];
      }
    }
  }

  method Perform(d: Tuner, op: Op) returns (ghost mid: nat)
    requires d.Valid() && InWord(op)
    modifies d`chip, d`time, d.regs
    ensures old(d.time) < d.time
    ensures (op.OpInit? || op.OpSetParams? || old(d.Agrees())) && d.CleanSince(old(d.time)) ==> d.Agrees()
    ensures AllSettled(d, op, old(d.time), mid, old(d.chip), old(d.Shadow()))
  {
    hide SetField, GetField, CfFor, Fresh, FirstClosest, Tuned, Calibrated, Filtered;
    mid := 0;
    match op
    case OpInit => var ret := d.Init();
    case OpSetFrequency(frequency) => Tune(d, frequency);
    case OpGetFrequency => var f := d.GetFrequency();
    case OpSetBandwidth(bandwidth) => Filter(d, bandwidth);
    case OpGetBandwidth => var b := d.GetBandwidth();
    case OpSetRefclock(divisor) => var ret := d.SetRefclock(divisor);
    case OpSetBbgain(gain) => var ret := d.SetBbgain(gain);
    case OpGetBbgain => var g := d.GetBbgain();
    case OpSetMode(mode) => var ret := d.SetMode(mode);
    case OpGetStatus => var locked := d.GetStatus();
    case OpSetParams(frequency, bandwidth) => mid := Load(d, frequency, bandwidth);
  }

  /**
   * Any sequence of requests, with any arguments: from the first init on, over a path that does
   * what it reports, the shadow agrees with the chip whenever the driver returns.
   */
  method PerformAll(d: Tuner, ops: seq<Op>)
    requires d.Valid() && forall op :: op in ops ==> InWord(op)
    modifies d`chip, d`time, d.regs
    ensures ops != [] && (ops[0].OpInit? || ops[0].OpSetParams?) && d.CleanSince(old(d.time)) ==> d.Agrees()
  {
    for i := 0 to |ops|
      invariant old(d.time) <= d.time
      invariant i > 0 && (ops[0].OpInit? || ops[0].OpSetParams?) && d.CleanSince(old(d.time)) ==> d.Agrees()
    {
      ghost var now := d.time;
      ghost var mid := Perform(d, ops[i]);
      assert d.CleanSince(old(d.time)) ==> d.CleanSince(now) && Clean(d.path, old(d.time), now);
    }
  }

  /**
   * What a caller sees: over a clean path the frequency read back is the one set, to within half a
   * PLL step and a kilohertz.
   */
  method SetAndGetFrequency(d: Tuner, frequency: nat) returns (got: nat, ghost r: nat)
    requires d.Valid() && 16000000 <= d.refclk < 48000000 && InBand(frequency, d.refclk / 1000)
    modifies d`chip, d`time, d.regs
    ensures d.CleanSince(old(d.time)) ==>
      && 2 * (got * Scale(frequency, r)) - 2 * (frequency * Scale(frequency, r)) <= d.refclk / 1000
      && 2 * (frequency * Scale(frequency, r)) - 2 * (got * Scale(frequency, r))
         < d.refclk / 1000 + 2 * Scale(frequency, r)
  {
    hide SetField, GetField, FirstClosest, Divider, FrequencyOf, Scale, Span;
    ghost var before := d.Shadow();
    var ret;
    ret, r := d.SetFrequency(frequency);
    ghost var between := d.time;
    got := d.GetFrequency();
    TunedReadsBack(before, d.refclk, frequency, r);
    assert d.CleanSince(old(d.time)) ==> d.CleanSince(between) && Clean(d.path, old(d.time), between);
  }

  /** The defaults leave the 4-divider off. */
  lemma DefaultBand(clkDiv: nat)
    ensures GetField(TNG1_DIV4SEL, Fresh(clkDiv)[TNG1]) == 0
  {
    assert !Digit(0x85, 4);
    assert 4 !in RegOf(0x85);
    assert Fresh(clkDiv)[TNG1] == RegOf(0x85);
    assert Number(RegOf(0x85), 5, 0) == 0;
  }

  /** Every write is lost and reported as lost: set_frequency answers 0, and what agreed before disagrees. */
  method LostWrites() returns (d: Tuner, agreed: bool, ret: int)
    ensures agreed && ret == 0 && d.Valid() && !d.Agrees()
    ensures forall t: nat :: !Reported(d.path, t) && !Landed(d.path, t)
  {
    hide SetField, GetField, FirstClosest, Tuned, FrequencyIn, Scale, Span, Fresh;
    d := new Tuner(16000000, 1, Path(t => false, t => false, t => {}), Fresh(1));
    agreed := d.regs[..STAT1] == d.chip[..STAT1];
    ghost var shadow, r := d.Shadow(), 0;
    ret, r := d.SetFrequency(1000000);
    TunedReadsBack(shadow, d.refclk, 1000000, r);
    DefaultBand(1);
    assert d.chip == shadow;
    assert d.regs[TNG1] == d.regs[..STAT1][TNG1] && d.chip[TNG1] == d.chip[..STAT1][TNG1];
  }
}
