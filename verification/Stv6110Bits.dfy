/**
 * The registers of the STV6110 bit by bit (src/stv6110x_reg.h:14-68): what the setters leave in
 * them, by register number and bit number.
 */
module Stv6110Bits {
  import opened Bytes
  import opened Registers
  import opened Pll
  import opened Stv6110

  /** The other bits of a register survive in the bits outside a field. */
  lemma OutsideKept(before: Reg, after: Reg, f: Field, b: int)
    requires after - Span(f) == before - Span(f) && !(f.off <= b < f.off + f.width)
    ensures b in after <==> b in before
  {
    assert b in after - Span(f) <==> b in before - Span(f);
  }

  /**
   * After set_frequency: bits 3 to 7 of register 0 hold the clock in MHz less 16; of register 3, bits
   * 6 and 7 hold r, bit 5 the prescaler, bit 4 the divider by four, and bits 0 to 3 with register 2
   * the PLL divider; bit 2 of register 5 starts the calibration.
   */
  lemma TunedBits(s: File, refclk: nat, frequency: nat, r: nat)
    requires 16000000 <= refclk < 48000000 && InBand(frequency, refclk / 1000)
    requires FirstClosest(refclk / 1000, PVal(frequency), r, 4)
    ensures var t, ref := Tuned(s, refclk, frequency, r), refclk / 1000;
      var n := 256 * Number(t[3], 0, 4) + Number(t[2], 0, 8);
      var x := frequency * Pow2(r + (if frequency <= 1300000 then 3 else 2));
      && Number(t[0], 3, 5) == refclk / 1000000 - 16
      && (forall b :: 0 <= b < 3 ==> (b in t[0] <==> b in s[0]))
      && (4 in t[3] <==> frequency <= 1300000)
      && (5 in t[3] <==> 1023000 < frequency <= 1300000 || frequency > 2046000)
      && Number(t[3], 6, 2) == r
      && 2 * (n * ref) - ref <= 2 * x < 2 * (n * ref) + ref
      && 2 in t[5] && (forall b :: 0 <= b < 8 && b != 2 ==> (b in t[5] <==> b in s[5]))
      && t[1] == s[1] && t[4] == s[4] && t[6] == s[6] && t[7] == s[7]
  {
    hide SetField, FirstClosest, Divider, FrequencyOf, Scale, PVal, Span, Number, InBand, Pow2, FrequencyIn;
    var t := Tuned(s, refclk, frequency, r);
    TunedReadsBack(s, refclk, frequency, r);
    DividerIsRounded(frequency, refclk / 1000, r);
    ScaledBy(frequency, r);
    OneBit(t[3], 4);
    OneBit(t[3], 5);
    OneBit(t[5], 2);
    forall b | 0 <= b < 3 ensures b in t[0] <==> b in s[0] {
      OutsideKept(s[0], t[0], CTRL1_K, b);
    }
    forall b | 0 <= b < 8 && b != 2 ensures b in t[5] <==> b in s[5] {
      OutsideKept(s[5], t[5], STAT1_CALVCO_STRT, b);
    }
  }

  lemma ScaledBy(frequency: nat, r: nat)
    ensures Scale(frequency, r) == Pow2(r + (if frequency <= 1300000 then 3 else 2))
  {
    hide Pow2;
  }

  /**
   * After set_bandwidth: bits 0 to 4 of register 4 hold half the bandwidth in MHz less 5, from 0 to
   * 31.  While the filter is calibrated bit 6 of register 4 is clear and bit 1 of register 5 set;
   * afterwards bit 6 is set.
   */
  lemma FilteredBits(s: File, bandwidth: nat)
    requires bandwidth < U32
    ensures var on, off := Filtered(s, bandwidth), Calibrated(s, bandwidth);
      && Number(off[4], 0, 5) ==
           (if bandwidth < 10000000 then 0 else if bandwidth >= 72000000 then 31 else bandwidth / 2000000 - 5)
      && 6 !in on[4] && 1 in on[5] && 6 in off[4]
      && (forall b :: b == 5 || b == 7 ==> (b in off[4] <==> b in s[4]))
      && (forall b :: 0 <= b < 8 && b != 1 ==> (b in on[5] <==> b in s[5]))
      && on == s[4 := on[4]][5 := on[5]] && off == on[4 := off[4]]
  {
    hide SetField, Span, CfFor, Number;
    var on, off := Filtered(s, bandwidth), Calibrated(s, bandwidth);
    BandwidthReadsBack(s, bandwidth);
    FieldLimits();
    OneBit(on[4], 6);
    OneBit(off[4], 6);
    SetThenGet(s[5], STAT1_CALRC_STRT, 1);
    OneBit(on[5], 1);
    forall b | b == 5 || b == 7 ensures b in off[4] <==> b in s[4] {
      TwoOutside(s[4], off[4], b);
    }
    forall b | 0 <= b < 8 && b != 1 ensures b in on[5] <==> b in s[5] {
      OutsideKept(s[5], on[5], STAT1_CALRC_STRT, b);
    }
  }

  lemma TwoOutside(before: Reg, after: Reg, b: int)
    requires after - Span(CTRL3_CF) - Span(CTRL3_RCCLK_OFF) == before - Span(CTRL3_CF) - Span(CTRL3_RCCLK_OFF)
    requires b == 5 || b == 7
    ensures b in after <==> b in before
  {
    assert b in after - Span(CTRL3_CF) - Span(CTRL3_RCCLK_OFF)
      <==> b in before - Span(CTRL3_CF) - Span(CTRL3_RCCLK_OFF);
  }

  /** Bits 6 and 7 of register 1 hold the output divider, bits 0 to 3 half the gain. */
  lemma Ctrl2Bits(reg: Reg, divisor: nat, gain: nat)
    ensures var q := SetField(reg, CTRL2_CO_DIV, CoDiv(divisor));
      && Number(q, 6, 2) ==
           (match divisor case 2 => 1 case 4 => 2 case 8 => 3 case 0 => 3 case _ => 0)
      && forall b :: 0 <= b < 6 ==> (b in q <==> b in reg)
    ensures gain < 32 ==>
      var q := SetField(reg, CTRL2_BBGAIN, gain / 2);
      && Number(q, 0, 4) == gain / 2
      && forall b :: 4 <= b < 8 ==> (b in q <==> b in reg)
  {
    hide SetField, Number, Span;
    FieldLimits();
    SetThenGet(reg, CTRL2_CO_DIV, CoDiv(divisor));
    var q := SetField(reg, CTRL2_CO_DIV, CoDiv(divisor));
    forall b | 0 <= b < 6 ensures b in q <==> b in reg {
      OutsideKept(reg, q, CTRL2_CO_DIV, b);
    }
    if gain < 32 {
      SetThenGet(reg, CTRL2_BBGAIN, gain / 2);
      var p := SetField(reg, CTRL2_BBGAIN, gain / 2);
      forall b | 4 <= b < 8 ensures b in p <==> b in reg {
        OutsideKept(reg, p, CTRL2_BBGAIN, b);
      }
    }
  }

  /** Sleep clears bits 0 to 2 of register 0, wake sets them, any other mode leaves the register alone. */
  lemma ModeBits(reg: Reg, mode: int)
    ensures forall b :: 0 <= b < 3 ==>
      (b in ModeSet(reg, mode) <==> mode == 2 || (mode != 1 && b in reg))
    ensures forall b :: 3 <= b < 8 ==> (b in ModeSet(reg, mode) <==> b in reg)
  {
    hide Number;
    if mode == 1 || mode == 2 {
      var v := mode - 1;
      var a := SetField(reg, CTRL1_SYN, v);
      var b := SetField(a, CTRL1_RX, v);
      ThreeBits(reg, v);
    }
  }

  lemma ThreeBits(reg: Reg, v: nat)
    requires v < 2
    ensures var q := SetField(SetField(SetField(reg, CTRL1_SYN, v), CTRL1_RX, v), CTRL1_LPT, v);
      forall b :: 0 <= b < 8 ==> (b in q <==> if b < 3 then v == 1 else b in reg)
  {
    var a := SetField(reg, CTRL1_SYN, v);
    var c := SetField(a, CTRL1_RX, v);
    var q := SetField(c, CTRL1_LPT, v);
    forall b | 0 <= b < 8 ensures b in q <==> if b < 3 then v == 1 else b in reg {
      SingleBit(reg, 0, v, b);
      SingleBit(a, 1, v, b);
      SingleBit(c, 2, v, b);
    }
  }

  lemma SingleBit(reg: Reg, off: nat, v: nat, b: int)
    requires v < 2 && off < 8 && 0 <= b < 8
    ensures b in SetField(reg, Field(off, 1), v) <==> if b == off then v == 1 else b in reg
  {
    assert Pow2(1) == 2;
    SetThenGet(reg, Field(off, 1), v);
    OneBit(SetField(reg, Field(off, 1), v), off);
    if b != off {
      OutsideKept(reg, SetField(reg, Field(off, 1), v), Field(off, 1), b);
    }
  }

  /** The registers set_params starts from; bits 6 and 7 of register 1 are the configured divider. */
  lemma DefaultBytes(clkDiv: nat)
    ensures var s := Fresh(clkDiv);
      && ByteOf(s[0]) == 0x07 && ByteOf(s[2]) == 0xdc && ByteOf(s[3]) == 0x85 && ByteOf(s[4]) == 0x17
      && ByteOf(s[5]) == 0x01 && ByteOf(s[6]) == 0xe6 && ByteOf(s[7]) == 0x1e
      && Number(s[1], 6, 2) == (match clkDiv case 2 => 1 case 4 => 2 case 8 => 3 case 0 => 3 case _ => 0)
      && forall b :: 0 <= b < 6 ==> (b in s[1] <==> b == 0 || b == 4)
  {
    hide SetField, ByteOf, Number;
    ByteReadsBack(0x07);
    ByteReadsBack(0xdc);
    ByteReadsBack(0x85);
    ByteReadsBack(0x17);
    ByteReadsBack(0x01);
    ByteReadsBack(0xe6);
    ByteReadsBack(0x1e);
    Ctrl2Bits(RegOf(0x11), clkDiv, 0);
    assert Digit(0x11, 0) && !Digit(0x11, 1) && !Digit(0x11, 2) && !Digit(0x11, 3) && Digit(0x11, 4) && !Digit(0x11, 5);
  }

  /** What the getters make of the registers: the frequency in kHz, rounded down, and the bandwidth in Hz. */
  lemma Readings(s: File, refclk: nat)
    ensures BandwidthIn(s) == 2000000 * (Number(s[4], 0, 5) + 5)
    ensures var n, ref := 256 * Number(s[3], 0, 4) + Number(s[2], 0, 8), refclk / 1000;
      var k := 4 * Pow2(Number(s[3], 6, 2) + (if 4 in s[3] then 1 else 0));
      n * ref < 0x1_0000_0000 ==>
        FrequencyIn(s, refclk) * k <= n * ref < FrequencyIn(s, refclk) * k + k
  {
    hide Number, Over, Pow2, FrequencyOf;
    OneBit(s[3], 4);
    var n, ref := 256 * Number(s[3], 0, 4) + Number(s[2], 0, 8), refclk / 1000;
    var d := if 4 in s[3] then 1 else 0;
    if n * ref < 0x1_0000_0000 {
      ReadBack(n, ref, Number(s[3], 6, 2), d, 4 * Pow2(Number(s[3], 6, 2) + d));
    }
  }
}
