/** The MxL5007T tuner driver: initialisation tables and the frequency word (src/mxl5007t.c). */
module Mxl5007t {
  import opened Bytes
  import opened Registers
  import opened RegTables

  // ISDB-T is mode 0, DVB-T is mode 1
  const MODE_ATSC: nat := 2
  const MODE_CABLE: nat := 0x10

  // ---------- the frequency word ----------

  /** The nearest multiple of 15625 Hz, as a 10.6 fixed-point number of MHz. */
  function FrequencyWord(rfFreq: nat): nat {
    (rfFreq + 7812) / 15625
  }

  /** The conversion loop of calc_rf_tune_regs. */
  method ConvertFrequency(rfFreq: nat) returns (digRfFreq: nat)
    ensures digRfFreq == FrequencyWord(rfFreq)
  {
    digRfFreq := rfFreq / 1000000;
    var temp := rfFreq % 1000000;
    var fracDivider := 1000000;
    var i := 0;
    while i < 6
      invariant 0 <= i <= 6
      invariant fracDivider == [1000000, 500000, 250000, 125000, 62500, 31250, 15625][i]
      invariant digRfFreq * fracDivider + temp == rfFreq
      invariant 0 <= temp <= fracDivider
    {
      digRfFreq := digRfFreq * 2;
      fracDivider := fracDivider / 2;
      if temp > fracDivider {
        temp := temp - fracDivider;
        digRfFreq := digRfFreq + 1;
      }
      i := i + 1;
    }
    if temp > 7812 {
      digRfFreq := digRfFreq + 1;
    }
  }

  /** The word is the only multiple of 15625 Hz within 7812 Hz, the nearest one; it grows with the frequency. */
  lemma WordIsNearest(rfFreq: nat, other: nat)
    ensures Abs(FrequencyWord(rfFreq) * 15625 - rfFreq) <= 7812
    ensures other != FrequencyWord(rfFreq) ==> Abs(other * 15625 - rfFreq) > 7812
  {
  }

  lemma WordIsMonotone(a: nat, b: nat)
    requires a <= b
    ensures FrequencyWord(a) <= FrequencyWord(b)
  {
  }

  /** The word fits the two registers exactly up to 1023.992187 MHz. */
  lemma WordFits(rfFreq: nat)
    ensures FrequencyWord(rfFreq) < WORD_LIMIT <==> rfFreq <= 1023992187
  {
  }

  // ---------- tables, register by register ----------

  ghost predicate Has(s: seq<Pair>, reg: byte) {
    exists i :: 0 <= i < Len(s) && s[i].reg == reg
  }

  function At(s: seq<Pair>, reg: byte): Reg {
    Lookup(Entries(s), reg, {})
  }

  /** set_reg_bits on a register the table has: that register's bits change, everything else stays. */
  lemma OneRegister(s: seq<Pair>, reg: byte, mask: Reg, val: Reg)
    requires Terminated(s) && reg != 0 && Has(s, reg)
    ensures var t := SetBits(s, reg, mask, val);
      && Terminated(t) && Column(t) == Column(s) && Len(t) == Len(s)
      && (forall q: byte :: Has(s, q) ==> Has(t, q))
      && At(t, reg) == (At(s, reg) - mask) + val
      && (forall q: byte :: q != reg ==> At(t, q) == At(s, q))
  {
    var t := SetBits(s, reg, mask, val);
    SetBitsKeepsColumn(s, reg, mask, val);
    forall q: byte | Has(s, q) ensures Has(t, q) {
      var i :| 0 <= i < Len(s) && s[i].reg == q;
      assert t[i].reg == q;
    }
    SetBitsLooksUp(s, reg, mask, val, reg, {});
    forall q: byte | q != reg ensures At(t, q) == At(s, q) {
      SetBitsLooksUp(s, reg, mask, val, q, {});
    }
  }

  // ---------- the tuning table ----------

  const RFTUNE: seq<Pair> := [
    Pair(0x0f, RegOf(0x00)), Pair(0x0c, RegOf(0x15)), Pair(0x0d, RegOf(0x40)), Pair(0x0e, RegOf(0x0e)),
    Pair(0x1f, RegOf(0x87)), Pair(0x20, RegOf(0x1f)), Pair(0x21, RegOf(0x87)), Pair(0x22, RegOf(0x1f)),
    Pair(0x80, RegOf(0x01)), Pair(0x0f, RegOf(0x01)), END ]

  const BW_INDEX: Field := Field(0, 6)
  const WHOLE: Field := Field(0, 8)

  /** The bandwidth index for 6, 7 and 8 MHz. */
  function BwIndex(bw: nat): nat {
    if bw == 6 then 0x15 else if bw == 7 then 0x2a else 0x3f
  }

  function WithBandwidth(s: seq<Pair>, bw: nat): seq<Pair> {
    if 6 <= bw <= 8 then SetBits(s, 0x0c, Span(BW_INDEX), RegOf(BwIndex(bw))) else s
  }

  function WithWord(s: seq<Pair>, word: nat): seq<Pair> {
    SetBits(SetBits(s, 0x0d, Span(WHOLE), RegOf(word % 256)), 0x0e, Span(WHOLE), RegOf(word / 256 % 256))
  }

  function RfTuned(rfFreq: nat, bw: nat): seq<Pair> {
    var s := WithWord(WithBandwidth(RFTUNE, bw), FrequencyWord(rfFreq));
    if rfFreq >= 333000000 then SetBits(s, 0x80, {6}, {6}) else s
  }

  lemma RfTuneTable()
    ensures Terminated(RFTUNE) && Len(RFTUNE) == 10
    ensures Has(RFTUNE, 0x0c) && Has(RFTUNE, 0x0d) && Has(RFTUNE, 0x0e) && Has(RFTUNE, 0x80)
  {
    hide RegOf;
    LenIs(RFTUNE, 10);
    assert RFTUNE[1].reg == 0x0c && RFTUNE[2].reg == 0x0d && RFTUNE[3].reg == 0x0e && RFTUNE[8].reg == 0x80;
  }

  /** calc_rf_tune_regs. */
  method CalcRfTuneRegs(tab: array<Pair>, rfFreq: nat, bw: nat)
    requires tab.Length == |RFTUNE|
    modifies tab
    ensures tab[..] == RfTuned(rfFreq, bw)
  {
    hide RegOf, SetBits, FrequencyWord;
    RfTuneTable();
    CopyTable(tab, RFTUNE);
    if 6 <= bw <= 8 {
      OneRegister(tab[..], 0x0c, Span(BW_INDEX), RegOf(BwIndex(bw)));
      SetRegBits(tab, 0x0c, Span(BW_INDEX), RegOf(BwIndex(bw)));
    }
    var word := ConvertFrequency(rfFreq);
    OneRegister(tab[..], 0x0d, Span(WHOLE), RegOf(word % 256));
    SetRegBits(tab, 0x0d, Span(WHOLE), RegOf(word % 256));
    OneRegister(tab[..], 0x0e, Span(WHOLE), RegOf(word / 256 % 256));
    SetRegBits(tab, 0x0e, Span(WHOLE), RegOf(word / 256 % 256));
    if rfFreq >= 333000000 {
      SetRegBits(tab, 0x80, {6}, {6});
    }
  }

  /** memcpy */
  method CopyTable(tab: array<Pair>, s: seq<Pair>)
    requires tab.Length == |s|
    modifies tab
    ensures tab[..] == s
  {
    for i := 0 to |s|
      invariant tab[..i] == s[..i]
    {
      tab[i] := s[i];
    }
  }

  /**
   * The tuning table spells the word in registers 0x0e and 0x0d, so that the frequency can be read
   * back to the nearest 15625 Hz exactly as long as the word has sixteen bits.
   */
  lemma WordIsReadBack(rfFreq: nat, bw: nat)
    ensures var t := RfTuned(rfFreq, bw);
      && Terminated(t) && Column(t) == Column(RFTUNE) && Len(t) == 10
      && ByteOf(At(t, 0x0e)) * 256 + ByteOf(At(t, 0x0d)) == FrequencyWord(rfFreq) % WORD_LIMIT
      && (ByteOf(At(t, 0x0e)) * 256 + ByteOf(At(t, 0x0d)) == FrequencyWord(rfFreq) <==> rfFreq <= 1023992187)
      && (6 <= bw <= 8 ==> GetField(BW_INDEX, At(t, 0x0c)) == BwIndex(bw))
      && (6 in At(t, 0x80) <==> rfFreq >= 333000000)
      && (forall q: byte :: q !in {0x0c, 0x0d, 0x0e, 0x80} ==> At(t, q) == At(RFTUNE, q))
      && At(t, 0x80) == (if rfFreq >= 333000000 then At(RFTUNE, 0x80) + {6} else At(RFTUNE, 0x80))
      && (6 <= bw <= 8 ==> At(t, 0x0c) == SetField(At(RFTUNE, 0x0c), BW_INDEX, BwIndex(bw)))
      && (!(6 <= bw <= 8) ==> At(t, 0x0c) == At(RFTUNE, 0x0c))
  {
    hide SetBits, At, Has, FrequencyWord, ByteOf, RegOf, GetField, Column, WithWord, Span;
    var word := FrequencyWord(rfFreq);
    RfTuneTable();
    Register80();
    var s1 := WithBandwidth(RFTUNE, bw);
    if 6 <= bw <= 8 {
      OneRegister(RFTUNE, 0x0c, Span(BW_INDEX), RegOf(BwIndex(bw)));
      BwReadsBack(At(RFTUNE, 0x0c), bw);
    }
    WithWordAt(s1, word);
    OneRegister(WithWord(s1, word), 0x80, {6}, {6});
    assert (At(RFTUNE, 0x80) - {6}) + {6} == At(RFTUNE, 0x80) + {6};
    WordFits(rfFreq);
    TwoBytes(word);
  }

  lemma WithWordAt(s: seq<Pair>, word: nat)
    requires Terminated(s) && Has(s, 0x0d) && Has(s, 0x0e)
    ensures var t := WithWord(s, word);
      && Terminated(t) && Column(t) == Column(s) && Len(t) == Len(s)
      && (forall q: byte :: Has(s, q) ==> Has(t, q))
      && ByteOf(At(t, 0x0d)) == word % 256 && ByteOf(At(t, 0x0e)) == word / 256 % 256
      && (forall q: byte :: q != 0x0d && q != 0x0e ==> At(t, q) == At(s, q))
  {
    hide SetBits, At, Has, ByteOf, RegOf, Column, Span;
    var t := SetBits(s, 0x0d, Span(WHOLE), RegOf(word % 256));
    OneRegister(s, 0x0d, Span(WHOLE), RegOf(word % 256));
    OneRegister(t, 0x0e, Span(WHOLE), RegOf(word / 256 % 256));
    WholeByte(At(s, 0x0d), word % 256);
    WholeByte(At(t, 0x0e), word / 256 % 256);
  }

  lemma TwoBytes(word: nat)
    ensures word / 256 % 256 * 256 + word % 256 == word % WORD_LIMIT
  {
  }

  lemma WholeByte(before: Reg, n: byte)
    ensures ByteOf((before - Span(WHOLE)) + RegOf(n)) == n
  {
    assert Pow2(8) == 256;
    SetThenGet(before, WHOLE, n);
  }

  lemma BwReadsBack(before: Reg, bw: nat)
    requires 6 <= bw <= 8
    ensures GetField(BW_INDEX, (before - Span(BW_INDEX)) + RegOf(BwIndex(bw))) == BwIndex(bw)
    ensures (before - Span(BW_INDEX)) + RegOf(BwIndex(bw)) == SetField(before, BW_INDEX, BwIndex(bw))
  {
    assert Pow2(6) == 64;
    SetThenGet(before, BW_INDEX, BwIndex(bw));
  }

  /** The frequency-dependent bit of register 0x80 is clear in the table's original. */
  lemma Register80()
    ensures 6 !in At(RFTUNE, 0x80)
  {
    RfTuneTable();
    var e := Entries(RFTUNE);
    LookupOnce(e, 8);
    assert !Digit(0x01, 6);
  }

  lemma RfTuneColumn(t: seq<Pair>)
    requires Column(t) == Column(RFTUNE) && Len(t) == 10
    ensures |t| == 11 && t[2].reg == 0x0d && t[3].reg == 0x0e
    ensures forall j :: 0 <= j < 10 ==> (j != 2 ==> t[j].reg != 0x0d) && (j != 3 ==> t[j].reg != 0x0e)
  {
    hide RFTUNE, RFTUNE_REGS, Column, Len;
    RfTuneRegs();
    ColumnTells(t);
  }

  const RFTUNE_REGS: seq<byte> := [0x0f, 0x0c, 0x0d, 0x0e, 0x1f, 0x20, 0x21, 0x22, 0x80, 0x0f, 0x00]

  lemma RfTuneRegs()
    ensures Column(RFTUNE) == RFTUNE_REGS && |RFTUNE_REGS| == 11
    ensures RFTUNE_REGS[2] == 0x0d && RFTUNE_REGS[3] == 0x0e
    ensures forall j :: 0 <= j < 10 ==> (j != 2 ==> RFTUNE_REGS[j] != 0x0d) && (j != 3 ==> RFTUNE_REGS[j] != 0x0e)
  {
  }

  /** Once the table is written without an error, the chip holds the word. */
  lemma ChipHoldsWord(chip: map<byte, Reg>, rfFreq: nat, bw: nat)
    ensures var c := Landed(chip, Entries(RfTuned(rfFreq, bw)));
      && 0x0d in c && 0x0e in c
      && ByteOf(c[0x0e]) * 256 + ByteOf(c[0x0d]) == FrequencyWord(rfFreq) % WORD_LIMIT
  {
    hide RegOf, ByteOf, RfTuned, FrequencyWord, Landed, Lookup, GetField;
    var t := RfTuned(rfFreq, bw);
    WordIsReadBack(rfFreq, bw);
    RfTuneColumn(t);
    LandedAt(chip, Entries(t), 2);
    LandedAt(chip, Entries(t), 3);
  }

  // ---------- the initialisation tables ----------

  const INIT: seq<Pair> := [
    Pair(0x02, RegOf(0x06)), Pair(0x03, RegOf(0x48)), Pair(0x05, RegOf(0x04)), Pair(0x06, RegOf(0x10)),
    Pair(0x2e, RegOf(0x15)), Pair(0x30, RegOf(0x10)), Pair(0x45, RegOf(0x58)), Pair(0x48, RegOf(0x19)),
    Pair(0x52, RegOf(0x03)), Pair(0x53, RegOf(0x44)), Pair(0x6a, RegOf(0x4b)), Pair(0x76, RegOf(0x00)),
    Pair(0x78, RegOf(0x18)), Pair(0x7a, RegOf(0x17)), Pair(0x85, RegOf(0x06)), Pair(0x01, RegOf(0x01)), END ]

  const INIT_CABLE: seq<Pair> := [
    Pair(0x02, RegOf(0x06)), Pair(0x03, RegOf(0x48)), Pair(0x05, RegOf(0x04)), Pair(0x06, RegOf(0x10)),
    Pair(0x09, RegOf(0x3f)), Pair(0x0a, RegOf(0x3f)), Pair(0x0b, RegOf(0x3f)),
    Pair(0x2e, RegOf(0x15)), Pair(0x30, RegOf(0x10)), Pair(0x45, RegOf(0x58)), Pair(0x48, RegOf(0x19)),
    Pair(0x52, RegOf(0x03)), Pair(0x53, RegOf(0x44)), Pair(0x6a, RegOf(0x4b)), Pair(0x76, RegOf(0x00)),
    Pair(0x78, RegOf(0x18)), Pair(0x7a, RegOf(0x17)), Pair(0x85, RegOf(0x06)), Pair(0x01, RegOf(0x01)), END ]

  /** The part of struct mxl5007t_config that goes into the tables; the enumerations by their index. */
  datatype Config = Config(
    ifDiffOutLevel: int, clkOutAmp: nat, xtal: nat, ifFreq: nat, invertIf: bool, clkOutEnable: bool)

  predicate Valid(c: Config) {
    c.clkOutAmp < 8 && c.xtal < 14 && c.ifFreq < 11
  }

  const MODE_BITS: Field := Field(0, 5)      // of register 0x06
  const IF_FREQ: Field := Field(0, 4)        // of register 0x02
  const IF_INVERTED: Field := Field(4, 1)    // of register 0x02
  const XTAL: Field := Field(4, 4)           // of register 0x03
  const XTAL_REF: Field := Field(0, 4)       // of register 0x05
  const CLK_ENABLE: Field := Field(3, 1)     // of register 0x03
  const CLK_AMP: Field := Field(0, 3)        // of register 0x03

  const UPPER_3: Field := Field(5, 3)
  const UPPER_4: Field := Field(4, 4)

  function IfCode(ifFreq: nat): nat {
    if ifFreq == 0 then 0 else ifFreq + 1
  }

  function Bit(b: bool): nat {
    if b then 1 else 0
  }

  /** set_reg_bits with the mask and the shifted value of a field. */
  function Put(s: seq<Pair>, reg: byte, f: Field, val: nat): seq<Pair> {
    SetBits(s, reg, Span(f), Shifted(val, f.off))
  }

  method PutField(t: array<Pair>, reg: byte, f: Field, val: nat)
    requires Terminated(t[..]) && reg != 0 && Has(t[..], reg)
    modifies t
    ensures t[..] == Put(old(t[..]), reg, f, val)
    ensures Terminated(t[..]) && forall q: byte :: old(Has(t[..], q)) ==> Has(t[..], q)
  {
    OneRegister(t[..], reg, Span(f), Shifted(val, f.off));
    SetRegBits(t, reg, Span(f), Shifted(val, f.off));
  }

  lemma PutAt(s: seq<Pair>, reg: byte, f: Field, val: nat)
    requires Terminated(s) && reg != 0 && Has(s, reg)
    ensures var t := Put(s, reg, f, val);
      && Terminated(t) && Column(t) == Column(s) && Len(t) == Len(s)
      && (forall q: byte :: Has(s, q) ==> Has(t, q))
      && At(t, reg) == SetField(At(s, reg), f, val)
      && (forall q: byte :: q != reg ==> At(t, q) == At(s, q))
  {
    OneRegister(s, reg, Span(f), Shifted(val, f.off));
  }

  /** tab_init after the mode, IF, crystal and clock settings. */
  function WithMode(s: seq<Pair>, mode: nat): seq<Pair> {
    if mode <= MODE_ATSC then Put(s, 0x06, MODE_BITS, 0x10 + mode) else s
  }

  function WithIf(s: seq<Pair>, c: Config): seq<Pair> {
    if c.ifFreq < 11 then Put(Put(s, 0x02, IF_FREQ, IfCode(c.ifFreq)), 0x02, IF_INVERTED, Bit(c.invertIf)) else s
  }

  function WithXtal(s: seq<Pair>, c: Config): seq<Pair> {
    if c.xtal < 14 then Put(Put(s, 0x03, XTAL, c.xtal), 0x05, XTAL_REF, c.xtal) else s
  }

  function WithClock(s: seq<Pair>, c: Config): seq<Pair> {
    Put(Put(s, 0x03, CLK_ENABLE, Bit(c.clkOutEnable)), 0x03, CLK_AMP, c.clkOutAmp)
  }

  function InitTable(c: Config, mode: nat): seq<Pair> {
    WithClock(WithXtal(WithIf(WithMode(INIT, mode), c), c), c)
  }

  /** tab_init_cable before the copy. */
  function CableTable(c: Config, mode: nat): seq<Pair> {
    if mode == MODE_CABLE then
      Put(Put(Put(INIT_CABLE, 0x09, WHOLE, 0xc1), 0x0a, WHOLE, (8 - c.ifDiffOutLevel) % 256), 0x0b, WHOLE, 0x17)
    else INIT_CABLE
  }

  lemma InitTables()
    ensures Terminated(INIT) && Len(INIT) == 16 && Terminated(INIT_CABLE) && Len(INIT_CABLE) == 19
    ensures Has(INIT, 0x02) && Has(INIT, 0x03) && Has(INIT, 0x05) && Has(INIT, 0x06)
    ensures Has(INIT_CABLE, 0x09) && Has(INIT_CABLE, 0x0a) && Has(INIT_CABLE, 0x0b)
    ensures Has(INIT_CABLE, 0x02) && Has(INIT_CABLE, 0x03) && Has(INIT_CABLE, 0x05) && Has(INIT_CABLE, 0x06)
  {
    hide RegOf;
    LenIs(INIT, 16);
    LenIs(INIT_CABLE, 19);
    assert INIT[0].reg == 2 && INIT[1].reg == 3 && INIT[2].reg == 5 && INIT[3].reg == 6;
    assert INIT_CABLE[0].reg == 2 && INIT_CABLE[1].reg == 3 && INIT_CABLE[2].reg == 5 && INIT_CABLE[3].reg == 6;
    assert INIT_CABLE[4].reg == 9 && INIT_CABLE[5].reg == 0x0a && INIT_CABLE[6].reg == 0x0b;
  }

  /** calc_init_regs; the answer says which of the two tables is returned. */
  method CalcInitRegs(tabInit: array<Pair>, tabInitCable: array<Pair>, c: Config, mode: nat) returns (cable: bool)
    requires tabInit != tabInitCable && tabInit.Length == |INIT| && tabInitCable.Length == |INIT_CABLE|
    modifies tabInit, tabInitCable
    ensures cable == (mode >= 0x10)
    ensures tabInit[..] == InitTable(c, mode)
    ensures !cable ==> tabInitCable[..] == CableTable(c, mode)
    ensures cable ==>
      var t := CableTable(c, mode);
      tabInitCable[..] == Walk(Entries(InitTable(c, mode)), Entries(t)) + t[Len(t)..]
  {
    hide RegOf, Put, Has;
    InitTables();
    CopyTable(tabInit, INIT);
    CopyTable(tabInitCable, INIT_CABLE);
    SetMode(tabInit, tabInitCable, c, mode);
    SetIfAndClock(tabInit, c);
    cable := mode >= MODE_CABLE;
    if cable {
      CopyRegBits(tabInit, tabInitCable);
    }
  }

  method SetMode(tabInit: array<Pair>, tabInitCable: array<Pair>, c: Config, mode: nat)
    requires tabInit != tabInitCable && tabInit[..] == INIT && tabInitCable[..] == INIT_CABLE
    modifies tabInit, tabInitCable
    ensures tabInit[..] == WithMode(INIT, mode) && tabInitCable[..] == CableTable(c, mode)
    ensures Terminated(tabInit[..]) && Terminated(tabInitCable[..])
    ensures forall q: byte :: Has(INIT, q) ==> Has(tabInit[..], q)
  {
    hide RegOf, Put, Has;
    InitTables();
    if mode <= MODE_ATSC {
      PutField(tabInit, 0x06, MODE_BITS, 0x10 + mode);
    } else if mode == MODE_CABLE {
      PutField(tabInitCable, 0x09, WHOLE, 0xc1);
      PutField(tabInitCable, 0x0a, WHOLE, (8 - c.ifDiffOutLevel) % 256);
      PutField(tabInitCable, 0x0b, WHOLE, 0x17);
    }
  }

  method SetIfAndClock(tab: array<Pair>, c: Config)
    requires Terminated(tab[..]) && Has(tab[..], 0x02) && Has(tab[..], 0x03) && Has(tab[..], 0x05)
    modifies tab
    ensures tab[..] == WithClock(WithXtal(WithIf(old(tab[..]), c), c), c) && Terminated(tab[..])
  {
    hide RegOf, Put, Has;
    if c.ifFreq < 11 {
      PutField(tab, 0x02, IF_FREQ, IfCode(c.ifFreq));
      PutField(tab, 0x02, IF_INVERTED, Bit(c.invertIf));
    }
    if c.xtal < 14 {
      PutField(tab, 0x03, XTAL, c.xtal);
      PutField(tab, 0x05, XTAL_REF, c.xtal);
    }
    PutField(tab, 0x03, CLK_ENABLE, Bit(c.clkOutEnable));
    PutField(tab, 0x03, CLK_AMP, c.clkOutAmp);
  }

  // ---------- what the tables say ----------

  /** The IF, crystal and clock settings, read back from a table. */
  predicate Says(s: seq<Pair>, c: Config) {
    && GetField(IF_FREQ, At(s, 0x02)) == IfCode(c.ifFreq) && GetField(IF_INVERTED, At(s, 0x02)) == Bit(c.invertIf)
    && GetField(XTAL, At(s, 0x03)) == c.xtal && GetField(XTAL_REF, At(s, 0x05)) == c.xtal
    && GetField(CLK_ENABLE, At(s, 0x03)) == Bit(c.clkOutEnable) && GetField(CLK_AMP, At(s, 0x03)) == c.clkOutAmp
  }

  /** Different configurations make different tables. */
  lemma SaysEverything(s: seq<Pair>, c: Config, d: Config)
    requires Valid(c) && Valid(d) && Says(s, c) && Says(s, d)
    ensures c == d.(ifDiffOutLevel := c.ifDiffOutLevel)
  {
  }

  lemma Widths()
    ensures Pow2(1) == 2 && Pow2(3) == 8 && Pow2(4) == 16 && Pow2(5) == 32 && Pow2(8) == 256
  {
  }

  lemma IfReadsBack(s: seq<Pair>, c: Config)
    requires Terminated(s) && Has(s, 0x02) && Valid(c)
    ensures var t := WithIf(s, c);
      && Terminated(t) && Column(t) == Column(s) && Len(t) == Len(s) && (forall q: byte :: Has(s, q) ==> Has(t, q))
      && GetField(IF_FREQ, At(t, 0x02)) == IfCode(c.ifFreq) && GetField(IF_INVERTED, At(t, 0x02)) == Bit(c.invertIf)
      && GetField(UPPER_3, At(t, 0x02)) == GetField(UPPER_3, At(s, 0x02))
      && (forall q: byte :: q != 0x02 ==> At(t, q) == At(s, q))
  {
    hide Put, At, GetField, SetField, Has, Column;
    Widths();
    var a := Put(s, 0x02, IF_FREQ, IfCode(c.ifFreq));
    PutAt(s, 0x02, IF_FREQ, IfCode(c.ifFreq));
    PutAt(a, 0x02, IF_INVERTED, Bit(c.invertIf));
    SetThenGet(At(s, 0x02), IF_FREQ, IfCode(c.ifFreq));
    SetThenGet(At(a, 0x02), IF_INVERTED, Bit(c.invertIf));
    OtherFieldKept(At(a, 0x02), IF_INVERTED, Bit(c.invertIf), IF_FREQ);
    OtherFieldKept(At(s, 0x02), IF_FREQ, IfCode(c.ifFreq), UPPER_3);
    OtherFieldKept(At(a, 0x02), IF_INVERTED, Bit(c.invertIf), UPPER_3);
  }

  lemma XtalReadsBack(s: seq<Pair>, c: Config)
    requires Terminated(s) && Has(s, 0x03) && Has(s, 0x05) && Valid(c)
    ensures var t := WithXtal(s, c);
      && Terminated(t) && Column(t) == Column(s) && Len(t) == Len(s) && (forall q: byte :: Has(s, q) ==> Has(t, q))
      && GetField(XTAL, At(t, 0x03)) == c.xtal && GetField(XTAL_REF, At(t, 0x05)) == c.xtal
      && GetField(UPPER_4, At(t, 0x05)) == GetField(UPPER_4, At(s, 0x05))
      && (forall q: byte :: q != 0x03 && q != 0x05 ==> At(t, q) == At(s, q))
  {
    hide Put, At, GetField, SetField, Has, Column;
    Widths();
    var a := Put(s, 0x03, XTAL, c.xtal);
    PutAt(s, 0x03, XTAL, c.xtal);
    PutAt(a, 0x05, XTAL_REF, c.xtal);
    SetThenGet(At(s, 0x03), XTAL, c.xtal);
    SetThenGet(At(a, 0x05), XTAL_REF, c.xtal);
    OtherFieldKept(At(a, 0x05), XTAL_REF, c.xtal, UPPER_4);
  }

  lemma ClockReadsBack(s: seq<Pair>, c: Config)
    requires Terminated(s) && Has(s, 0x03) && Valid(c)
    ensures var t := WithClock(s, c);
      && Terminated(t) && Column(t) == Column(s) && Len(t) == Len(s) && (forall q: byte :: Has(s, q) ==> Has(t, q))
      && GetField(CLK_ENABLE, At(t, 0x03)) == Bit(c.clkOutEnable) && GetField(CLK_AMP, At(t, 0x03)) == c.clkOutAmp
      && GetField(XTAL, At(t, 0x03)) == GetField(XTAL, At(s, 0x03))
      && (forall q: byte :: q != 0x03 ==> At(t, q) == At(s, q))
  {
    hide Put, At, GetField, SetField, Has, Column;
    Widths();
    var a := Put(s, 0x03, CLK_ENABLE, Bit(c.clkOutEnable));
    PutAt(s, 0x03, CLK_ENABLE, Bit(c.clkOutEnable));
    PutAt(a, 0x03, CLK_AMP, c.clkOutAmp);
    SetThenGet(At(s, 0x03), CLK_ENABLE, Bit(c.clkOutEnable));
    SetThenGet(At(a, 0x03), CLK_AMP, c.clkOutAmp);
    OtherFieldKept(At(s, 0x03), CLK_ENABLE, Bit(c.clkOutEnable), XTAL);
    OtherFieldKept(At(a, 0x03), CLK_AMP, c.clkOutAmp, CLK_ENABLE);
    OtherFieldKept(At(a, 0x03), CLK_AMP, c.clkOutAmp, XTAL);
  }

  lemma ModeReadsBack(mode: nat)
    ensures var t := WithMode(INIT, mode);
      && Terminated(t) && Column(t) == Column(INIT) && Len(t) == 16 && (forall q: byte :: Has(INIT, q) ==> Has(t, q))
      && (mode <= MODE_ATSC ==> GetField(MODE_BITS, At(t, 0x06)) == 0x10 + mode)
      && GetField(UPPER_3, At(t, 0x06)) == GetField(UPPER_3, At(INIT, 0x06))
      && (forall q: byte :: q != 0x06 || mode > MODE_ATSC ==> At(t, q) == At(INIT, q))
  {
    hide Put, At, GetField, SetField, Has, Column, RegOf;
    Widths();
    InitTables();
    if mode <= MODE_ATSC {
      PutAt(INIT, 0x06, MODE_BITS, 0x10 + mode);
      SetThenGet(At(INIT, 0x06), MODE_BITS, 0x10 + mode);
      OtherFieldKept(At(INIT, 0x06), MODE_BITS, 0x10 + mode, UPPER_3);
    }
  }

  /**
   * The table for the air modes says the mode and the whole configuration; every other register
   * keeps its default.
   */
  lemma InitTableSays(c: Config, mode: nat)
    requires Valid(c)
    ensures var t := InitTable(c, mode);
      && Terminated(t) && Column(t) == Column(INIT) && Len(t) == 16
      && Has(t, 0x02) && Has(t, 0x03) && Has(t, 0x05)
      && Says(t, c)
      && (mode <= MODE_ATSC ==> GetField(MODE_BITS, At(t, 0x06)) == 0x10 + mode)
    ensures forall q: byte :: q !in {0x02, 0x03, 0x05, 0x06} ==> At(InitTable(c, mode), q) == At(INIT, q)
    ensures mode > MODE_ATSC ==> At(InitTable(c, mode), 0x06) == At(INIT, 0x06)
    ensures var t := InitTable(c, mode);
      && GetField(UPPER_3, At(t, 0x02)) == GetField(UPPER_3, At(INIT, 0x02))
      && GetField(UPPER_4, At(t, 0x05)) == GetField(UPPER_4, At(INIT, 0x05))
      && GetField(UPPER_3, At(t, 0x06)) == GetField(UPPER_3, At(INIT, 0x06))
  {
    hide WithMode, WithIf, WithXtal, WithClock, At, GetField, Has, Column, RegOf;
    InitTables();
    ModeReadsBack(mode);
    var a := WithMode(INIT, mode);
    IfReadsBack(a, c);
    var b := WithIf(a, c);
    XtalReadsBack(b, c);
    ClockReadsBack(WithXtal(b, c), c);
  }

  // ---------- the cable table ----------

  lemma CableTableSays(c: Config)
    ensures var t := CableTable(c, MODE_CABLE);
      && Terminated(t) && Column(t) == Column(INIT_CABLE) && Len(t) == 19
      && ByteOf(At(t, 0x09)) == 0xc1 && ByteOf(At(t, 0x0a)) == (8 - c.ifDiffOutLevel) % 256
      && ByteOf(At(t, 0x0b)) == 0x17
  {
    hide Put, At, ByteOf, Has, Column, RegOf;
    InitTables();
    var a := Put(INIT_CABLE, 0x09, WHOLE, 0xc1);
    PutByte(INIT_CABLE, 0x09, 0xc1);
    var b := Put(a, 0x0a, WHOLE, (8 - c.ifDiffOutLevel) % 256);
    PutByte(a, 0x0a, (8 - c.ifDiffOutLevel) % 256);
    PutByte(b, 0x0b, 0x17);
  }

  lemma PutByte(s: seq<Pair>, reg: byte, val: byte)
    requires Terminated(s) && reg != 0 && Has(s, reg)
    ensures var t := Put(s, reg, WHOLE, val);
      && Terminated(t) && Column(t) == Column(s) && Len(t) == Len(s)
      && (forall q: byte :: Has(s, q) ==> Has(t, q))
      && ByteOf(At(t, reg)) == val
      && (forall q: byte :: q != reg ==> At(t, q) == At(s, q))
  {
    hide At, Has, Column, RegOf;
    Widths();
    PutAt(s, reg, WHOLE, val);
    SetThenGet(At(s, reg), WHOLE, val);
  }

  const HEAD: seq<byte> := [0x02, 0x03, 0x05, 0x06]
  const CABLE_ONLY: seq<byte> := [0x09, 0x0a, 0x0b]
  const TAIL: seq<byte> := [0x2e, 0x30, 0x45, 0x48, 0x52, 0x53, 0x6a, 0x76, 0x78, 0x7a, 0x85, 0x01]

  lemma Columns(s: seq<Pair>, t: seq<Pair>)
    requires Column(s) == Column(INIT) && Len(s) == 16 && Column(t) == Column(INIT_CABLE) && Len(t) == 19
    ensures Column(Entries(s)) == HEAD + TAIL && Column(Entries(t)) == HEAD + CABLE_ONLY + TAIL
    ensures Distinct(Entries(s)) && Distinct(Entries(t))
  {
    hide Column;
    FirstColumn(s);
    CableColumn(t);
    DistinctByColumn(Entries(s));
    DistinctByColumn(Entries(t));
  }

  lemma FirstColumn(s: seq<Pair>)
    requires Column(s) == Column(INIT) && Len(s) == 16
    ensures Column(Entries(s)) == HEAD + TAIL
  {
    hide RegOf;
    assert |s| == |Column(s)| == 17;
    forall i | 0 <= i < 16 ensures Entries(s)[i].reg == (HEAD + TAIL)[i] {
      assert Column(s)[i] == s[i].reg && Column(INIT)[i] == INIT[i].reg;
    }
  }

  lemma CableColumn(t: seq<Pair>)
    requires Column(t) == Column(INIT_CABLE) && Len(t) == 19
    ensures Column(Entries(t)) == HEAD + CABLE_ONLY + TAIL
  {
    hide RegOf;
    assert |t| == |Column(t)| == 20;
    forall i | 0 <= i < 19 ensures Entries(t)[i].reg == (HEAD + CABLE_ONLY + TAIL)[i] {
      assert Column(t)[i] == t[i].reg && Column(INIT_CABLE)[i] == INIT_CABLE[i].reg;
    }
  }

  lemma DistinctByColumn(e: seq<Pair>)
    requires forall i, j :: 0 <= i < j < |e| ==> Column(e)[i] != Column(e)[j]
    ensures Distinct(e)
  {
    forall i, j | 0 <= i < j < |e| ensures e[i].reg != e[j].reg {
      assert Column(e)[i] == e[i].reg && Column(e)[j] == e[j].reg;
    }
  }

  lemma CableCopyIsOverride(s: seq<Pair>, t: seq<Pair>)
    requires Column(s) == Column(INIT) && Len(s) == 16 && Column(t) == Column(INIT_CABLE) && Len(t) == 19
    ensures Walk(Entries(s), Entries(t)) == Override(Entries(s), Entries(t))
  {
    hide Walk, Override;
    Columns(s, t);
    InsertedIsInOrder(HEAD, CABLE_ONLY, TAIL);
    InOrderIsMatched(Entries(s), Entries(t));
    CopyIsOverride(Entries(s), Entries(t));
  }

  /**
   * The table for the cable mode, after the copy: the shared registers are those of the first
   * table and say its configuration, its own three hold the output level and two constants.
   */
  lemma CopiedTableSays(c: Config)
    requires Valid(c)
    ensures var s, t := InitTable(c, MODE_CABLE), CableTable(c, MODE_CABLE);
      var out := Walk(Entries(s), Entries(t)) + t[Len(t)..];
      && Entries(out) == Override(Entries(s), Entries(t))
      && Says(out, c)
      && (forall q :: q in HEAD + TAIL ==> At(out, q) == At(s, q))
      && ByteOf(At(out, 0x09)) == 0xc1 && ByteOf(At(out, 0x0b)) == 0x17
      && ByteOf(At(out, 0x0a)) == (8 - c.ifDiffOutLevel) % 256
  {
    hide InitTable, CableTable, Walk, Override, GetField, ByteOf, RegOf, Has, Lookup;
    var s, t := InitTable(c, MODE_CABLE), CableTable(c, MODE_CABLE);
    var out := Walk(Entries(s), Entries(t)) + t[Len(t)..];
    InitTableSays(c, MODE_CABLE);
    CableTableSays(c);
    CableCopyIsOverride(s, t);
    OverriddenEntries(s, t);
    forall q | q in HEAD + TAIL ensures At(out, q) == At(s, q) {
      SharedAt(s, t, q);
    }
    assert (HEAD + TAIL)[0] == 0x02 && (HEAD + TAIL)[1] == 0x03 && (HEAD + TAIL)[2] == 0x05;
    OwnAt(s, t, 0x09, 4);
    OwnAt(s, t, 0x0a, 5);
    OwnAt(s, t, 0x0b, 6);
  }

  lemma NoneIsZero()
    ensures var c := HEAD + CABLE_ONLY + TAIL;
      |c| == 19 && forall i :: 0 <= i < 19 ==> c[i] != 0
  {
  }

  lemma OverriddenEntries(s: seq<Pair>, t: seq<Pair>)
    requires Column(t) == Column(INIT_CABLE) && Len(t) == 19 && Terminated(t)
    ensures Entries(Override(Entries(s), Entries(t)) + t[19..]) == Override(Entries(s), Entries(t))
  {
    hide RegOf, Lookup, INIT_CABLE, INIT, Column;
    CableColumn(t);
    NoneIsZero();
    ColumnTells(Entries(t));
    var o := Override(Entries(s), Entries(t));
    assert |t| > 19 && t[19] == END;
    forall i | 0 <= i < 19 ensures (o + t[19..])[i] != END {
      assert o[i].reg == Entries(t)[i].reg;
    }
    LenIs(o + t[19..], 19);
    assert (o + t[19..])[..19] == o;
  }

  lemma SharedAt(s: seq<Pair>, t: seq<Pair>, q: byte)
    requires Column(s) == Column(INIT) && Len(s) == 16 && Column(t) == Column(INIT_CABLE) && Len(t) == 19
    requires q in HEAD + TAIL
    ensures Lookup(Override(Entries(s), Entries(t)), q, {}) == Lookup(Entries(s), q, {})
  {
    hide Lookup, Override, Column, INIT, INIT_CABLE;
    Columns(s, t);
    var e, r := Entries(s), Entries(t);
    ColumnTells(e);
    ColumnTells(r);
    var i :| 0 <= i < |HEAD + TAIL| && (HEAD + TAIL)[i] == q;
    assert e[i].reg == q;
    var k := if i < 4 then i else i + 3;
    assert (HEAD + CABLE_ONLY + TAIL)[k] == (HEAD + TAIL)[i];
    assert r[k].reg == q;
    OverrideTakesFirst(e, r, q, {});
  }

  /** A register only the second table has keeps its value. */
  lemma OwnAt(s: seq<Pair>, t: seq<Pair>, q: byte, i: nat)
    requires Column(s) == Column(INIT) && Len(s) == 16 && Column(t) == Column(INIT_CABLE) && Len(t) == 19
    requires 4 <= i < 7 && CABLE_ONLY[i - 4] == q
    ensures Lookup(Override(Entries(s), Entries(t)), q, {}) == Lookup(Entries(t), q, {})
  {
    hide Lookup, Override;
    Columns(s, t);
    var e, r := Entries(s), Entries(t);
    assert r[i].reg == Column(r)[i] == (HEAD + CABLE_ONLY + TAIL)[i] == q;
    OverrideLooksUp(e, r, q, {});
    forall k | 0 <= k < |e| ensures e[k].reg != q {
      assert e[k].reg == Column(e)[k] == (HEAD + TAIL)[k];
    }
    LookupAbsent(e, q, Lookup(r, q, {}));
  }
}
