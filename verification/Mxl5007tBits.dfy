/**
 * The tables the MxL5007T driver writes, byte by byte (src/mxl5007t.c:78-137 and :199-363), and the
 * intermediate frequencies they stand for (src/mxl5007t.c:715-757).
 */
module Mxl5007tBits {
  import opened Bytes
  import opened Registers
  import opened RegTables
  import opened Mxl5007t

  /** The frequencies of enum mxl5007t_if_freq, in its order. */
  const IF_HZ: seq<nat> :=
    [4000000, 4500000, 4570000, 5000000, 5380000, 6000000, 6280000, 9191500, 35250000, 36150000, 44000000]

  /** The frequency a code of the chip stands for. */
  function HzOfCode(code: nat): nat {
    match code
    case 0x00 => 4000000
    case 0x02 => 4500000
    case 0x03 => 4570000
    case 0x04 => 5000000
    case 0x05 => 5380000
    case 0x06 => 6000000
    case 0x07 => 6280000
    case 0x08 => 9191500
    case 0x09 => 35250000
    case 0x0a => 36150000
    case 0x0b => 44000000
    case _ => 0
  }

  lemma CodeIsDecoded(ifFreq: nat)
    requires ifFreq < 11
    ensures HzOfCode(IfCode(ifFreq)) == IF_HZ[ifFreq] && IfCode(ifFreq) < 16
  {
  }

  const INIT_REGS: seq<byte> :=
    [0x02, 0x03, 0x05, 0x06, 0x2e, 0x30, 0x45, 0x48, 0x52, 0x53, 0x6a, 0x76, 0x78, 0x7a, 0x85, 0x01]

  const CABLE_REGS: seq<byte> :=
    [0x02, 0x03, 0x05, 0x06, 0x09, 0x0a, 0x0b, 0x2e, 0x30, 0x45, 0x48, 0x52, 0x53, 0x6a, 0x76, 0x78, 0x7a, 0x85, 0x01]

  /** The registers that no setting touches. */
  predicate DefaultsIn(s: seq<Pair>) {
    && ByteOf(At(s, 0x2e)) == 0x15 && ByteOf(At(s, 0x30)) == 0x10 && ByteOf(At(s, 0x45)) == 0x58
    && ByteOf(At(s, 0x48)) == 0x19 && ByteOf(At(s, 0x52)) == 0x03 && ByteOf(At(s, 0x53)) == 0x44
    && ByteOf(At(s, 0x6a)) == 0x4b && ByteOf(At(s, 0x76)) == 0x00 && ByteOf(At(s, 0x78)) == 0x18
    && ByteOf(At(s, 0x7a)) == 0x17 && ByteOf(At(s, 0x85)) == 0x06 && ByteOf(At(s, 0x01)) == 0x01
  }

  /** The bytes a configuration is written as. */
  predicate Written(s: seq<Pair>, c: Config)
    requires Valid(c)
  {
    && HzOfCode(ByteOf(At(s, 0x02)) % 16) == IF_HZ[c.ifFreq]
    && ByteOf(At(s, 0x02)) / 16 == (if c.invertIf then 1 else 0)
    && ByteOf(At(s, 0x03)) == 16 * c.xtal + (if c.clkOutEnable then 8 else 0) + c.clkOutAmp
    && ByteOf(At(s, 0x05)) == c.xtal
  }

  /** The whole table of the air modes: its registers in order, and every byte of it. */
  lemma InitBytes(c: Config, mode: nat)
    requires Valid(c)
    ensures var t := InitTable(c, mode);
      && Column(Entries(t)) == INIT_REGS
      && Written(t, c) && DefaultsIn(t)
      && ByteOf(At(t, 0x06)) == if mode <= 2 then 0x10 + mode else 0x10
  {
    hide InitTable, At, ByteOf, RegOf, Number, HzOfCode, IF_HZ, Has, Column, INIT_REGS;
    var t := InitTable(c, mode);
    InitRegisters();
    InitTableSays(c, mode);
    InitDefaults();
    FirstColumn(t);
    CodeIsDecoded(c.ifFreq);
    assert Pow2(1) == 2 && Pow2(3) == 8 && Pow2(4) == 16 && Pow2(5) == 32;
    ThreeParts(At(t, 0x02));
    ThreeParts(At(INIT, 0x02));
    ClockParts(At(t, 0x03));
    TwoNibbles(At(t, 0x05));
    TwoNibbles(At(INIT, 0x05));
    FivePlusThree(At(t, 0x06));
    FivePlusThree(At(INIT, 0x06));
  }

  /** The whole table of the cable mode. */
  lemma CableBytes(c: Config)
    requires Valid(c)
    ensures var s, t := InitTable(c, 0x10), CableTable(c, 0x10);
      var out := Walk(Entries(s), Entries(t)) + t[Len(t)..];
      && Column(Entries(out)) == CABLE_REGS
      && Written(out, c) && DefaultsIn(out)
      && ByteOf(At(out, 0x06)) == 0x10
      && ByteOf(At(out, 0x09)) == 0xc1 && ByteOf(At(out, 0x0a)) == (8 - c.ifDiffOutLevel) % 256
      && ByteOf(At(out, 0x0b)) == 0x17
  {
    hide InitTable, CableTable, Walk, ByteOf, At, HzOfCode, IF_HZ, INIT_REGS, CABLE_REGS, Override;
    var s, t := InitTable(c, MODE_CABLE), CableTable(c, MODE_CABLE);
    CopiedTableSays(c);
    InitBytes(c, MODE_CABLE);
    CableTableSays(c);
    CableColumn(t);
    OverrideKeepsColumn(Entries(s), Entries(t));
    CableRegisters();
    InitRegisters();
    SharedRegisters();
  }

  lemma OverrideKeepsColumn(e: seq<Pair>, r: seq<Pair>)
    ensures Column(Override(e, r)) == Column(r)
  {
    hide Lookup;
  }

  lemma InitRegisters()
    ensures HEAD + TAIL == INIT_REGS
  {
    assert |HEAD + TAIL| == |INIT_REGS| == 16;
  }

  lemma CableRegisters()
    ensures HEAD + CABLE_ONLY + TAIL == CABLE_REGS
  {
    assert |HEAD + CABLE_ONLY + TAIL| == |CABLE_REGS| == 19;
  }

  lemma SharedRegisters()
    ensures 0x02 in INIT_REGS && 0x03 in INIT_REGS && 0x05 in INIT_REGS && 0x06 in INIT_REGS
    ensures 0x2e in INIT_REGS && 0x30 in INIT_REGS && 0x45 in INIT_REGS && 0x48 in INIT_REGS
    ensures 0x52 in INIT_REGS && 0x53 in INIT_REGS && 0x6a in INIT_REGS && 0x76 in INIT_REGS
    ensures 0x78 in INIT_REGS && 0x7a in INIT_REGS && 0x85 in INIT_REGS && 0x01 in INIT_REGS
  {
  }

  lemma InitDefaults()
    ensures DefaultsIn(INIT)
    ensures ByteOf(At(INIT, 0x02)) == 0x06 && ByteOf(At(INIT, 0x05)) == 0x04 && ByteOf(At(INIT, 0x06)) == 0x10
  {
    hide ByteOf, RegOf, Lookup;
    InitTables();
    DefaultAt(0, 0x06);
    DefaultAt(2, 0x04);
    DefaultAt(3, 0x10);
    DefaultAt(4, 0x15);
    DefaultAt(5, 0x10);
    DefaultAt(6, 0x58);
    DefaultAt(7, 0x19);
    DefaultAt(8, 0x03);
    DefaultAt(9, 0x44);
    DefaultAt(10, 0x4b);
    DefaultAt(11, 0x00);
    DefaultAt(12, 0x18);
    DefaultAt(13, 0x17);
    DefaultAt(14, 0x06);
    DefaultAt(15, 0x01);
  }

  lemma DefaultAt(i: nat, n: byte)
    requires i < 16 && INIT[i].val == RegOf(n)
    ensures ByteOf(At(INIT, INIT_REGS[i])) == n
  {
    hide RegOf, ByteOf, INIT, INIT_REGS, Column, Lookup, Len;
    InitTables();
    FirstColumn(INIT);
    InitRegisters();
    ColumnTells(Entries(INIT));
    RegistersDiffer();
    LookupOnce(Entries(INIT), i);
    ByteReadsBack(n);
  }

  lemma RegistersDiffer()
    ensures forall i, j :: 0 <= i < j < 16 ==> INIT_REGS[i] != INIT_REGS[j]
  {
  }

  // ---------- the tuning table ----------

  const TUNE_REGS: seq<byte> := [0x0f, 0x0c, 0x0d, 0x0e, 0x1f, 0x20, 0x21, 0x22, 0x80, 0x0f]

  /** The whole tuning table: abort, bandwidth, the frequency in units of 15625 Hz, four constants, band, start. */
  lemma RfTuneBytes(rfFreq: nat, bw: nat)
    ensures var t, word := RfTuned(rfFreq, bw), (rfFreq + 7812) / 15625;
      && Column(Entries(t)) == TUNE_REGS
      && ByteOf(t[0].val) == 0x00 && ByteOf(t[9].val) == 0x01
      && ByteOf(At(t, 0x0c)) == (match bw case 7 => 0x2a case 8 => 0x3f case _ => 0x15)
      && 256 * ByteOf(At(t, 0x0e)) + ByteOf(At(t, 0x0d)) == word % 0x1_0000
      && ByteOf(At(t, 0x1f)) == 0x87 && ByteOf(At(t, 0x20)) == 0x1f
      && ByteOf(At(t, 0x21)) == 0x87 && ByteOf(At(t, 0x22)) == 0x1f
      && ByteOf(At(t, 0x80)) == if rfFreq >= 333000000 then 0x41 else 0x01
  {
    hide RfTuned, At, ByteOf, RegOf, Number, Column, SetField, TUNE_REGS, RFTUNE, Len;
    WordIsReadBack(rfFreq, bw);
    TuneRegisters(RfTuned(rfFreq, bw));
    TuneDefaults();
    TuneEnds(rfFreq, bw);
    BandwidthByte(bw);
    BandByte();
  }

  lemma TuneRegisters(t: seq<Pair>)
    requires Column(t) == Column(RFTUNE) && Len(t) == 10
    ensures |t| == 11 && Column(Entries(t)) == TUNE_REGS
  {
    hide RFTUNE, Len;
    RfTuneRegs();
    ColumnTells(t);
    ColumnTells(Entries(t));
    assert Column(Entries(t)) == RFTUNE_REGS[..10];
    TenOfEleven();
  }

  lemma TenOfEleven()
    ensures |RFTUNE_REGS| == 11 && RFTUNE_REGS[..10] == TUNE_REGS
  {
  }

  lemma TuneDefaults()
    ensures ByteOf(At(RFTUNE, 0x1f)) == 0x87 && ByteOf(At(RFTUNE, 0x20)) == 0x1f
    ensures ByteOf(At(RFTUNE, 0x21)) == 0x87 && ByteOf(At(RFTUNE, 0x22)) == 0x1f
    ensures At(RFTUNE, 0x80) == RegOf(0x01) && At(RFTUNE, 0x0c) == RegOf(0x15)
    ensures RFTUNE[0].val == RegOf(0x00) && RFTUNE[9].val == RegOf(0x01)
  {
    hide ByteOf, RegOf, Lookup, Column;
    RfTuneTable();
    LookupOnce(Entries(RFTUNE), 1);
    LookupOnce(Entries(RFTUNE), 4);
    LookupOnce(Entries(RFTUNE), 5);
    LookupOnce(Entries(RFTUNE), 6);
    LookupOnce(Entries(RFTUNE), 7);
    LookupOnce(Entries(RFTUNE), 8);
    ByteReadsBack(0x87);
    ByteReadsBack(0x1f);
  }

  /** The first and the last entry belong to the same register; nothing sets it. */
  lemma TuneEnds(rfFreq: nat, bw: nat)
    ensures |RfTuned(rfFreq, bw)| == 11
    ensures ByteOf(RfTuned(rfFreq, bw)[0].val) == 0 && ByteOf(RfTuned(rfFreq, bw)[9].val) == 1
  {
    hide ByteOf, RegOf, At, Len, FrequencyWord;
    RfTuneTable();
    TuneDefaults();
    assert RFTUNE[0].reg == RFTUNE[9].reg == 0x0f && |RFTUNE| == 11;
    hide RFTUNE;
    ByteReadsBack(0x00);
    ByteReadsBack(0x01);
  }

  lemma BandwidthByte(bw: nat)
    ensures 6 <= bw <= 8 ==>
      ByteOf(SetField(RegOf(0x15), BW_INDEX, BwIndex(bw))) == (match bw case 7 => 0x2a case 8 => 0x3f case _ => 0x15)
    ensures ByteOf(RegOf(0x15)) == 0x15
  {
    hide SetField, RegOf, ByteOf, Number;
    ByteReadsBack(0x15);
    if 6 <= bw <= 8 {
      assert Pow2(6) == 64 && Pow2(2) == 4;
      SixPlusTwo(RegOf(0x15));
      SixPlusTwo(SetField(RegOf(0x15), BW_INDEX, BwIndex(bw)));
      SetThenGet(RegOf(0x15), BW_INDEX, BwIndex(bw));
      OtherFieldKept(RegOf(0x15), BW_INDEX, BwIndex(bw), Field(6, 2));
    }
  }

  lemma BandByte()
    ensures ByteOf(RegOf(0x01)) == 0x01 && ByteOf(RegOf(0x01) + {6}) == 0x41
  {
    ByteReadsBack(0x01);
    ByteReadsBack(0x41);
    forall b | 0 <= b < 8 ensures b in RegOf(0x41) <==> b in RegOf(0x01) + {6} {
      assert Digit(0x01, b) <==> b == 0;
      assert Digit(0x41, b) <==> b == 0 || b == 6;
    }
    SameNumber(RegOf(0x41), RegOf(0x01) + {6}, 0, 8);
  }

  // ---------- a byte and its fields ----------

  lemma ThreeParts(reg: Reg)
    ensures ByteOf(reg) == Number(reg, 0, 4) + 16 * Number(reg, 4, 1) + 32 * Number(reg, 5, 3)
  {
    assert Pow2(4) == 16 && Pow2(1) == 2;
    NumberSplits(reg, 0, 4, 4);
    NumberSplits(reg, 4, 1, 3);
  }

  lemma ClockParts(reg: Reg)
    ensures ByteOf(reg) == Number(reg, 0, 3) + 8 * Number(reg, 3, 1) + 16 * Number(reg, 4, 4)
  {
    assert Pow2(3) == 8 && Pow2(1) == 2;
    NumberSplits(reg, 0, 3, 5);
    NumberSplits(reg, 3, 1, 4);
  }

  lemma TwoNibbles(reg: Reg)
    ensures ByteOf(reg) == Number(reg, 0, 4) + 16 * Number(reg, 4, 4)
  {
    assert Pow2(4) == 16;
    NumberSplits(reg, 0, 4, 4);
  }

  lemma FivePlusThree(reg: Reg)
    ensures ByteOf(reg) == Number(reg, 0, 5) + 32 * Number(reg, 5, 3)
  {
    assert Pow2(5) == 32;
    NumberSplits(reg, 0, 5, 3);
  }

  lemma SixPlusTwo(reg: Reg)
    ensures ByteOf(reg) == Number(reg, 0, 6) + 64 * Number(reg, 6, 2)
  {
    assert Pow2(6) == 64;
    NumberSplits(reg, 0, 6, 2);
  }
}
