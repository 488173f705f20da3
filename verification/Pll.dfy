/** The PLL arithmetic of the STV6110 (src/stv6110x.c:109-153 and :173-189). */
module Pll {
  import opened Bytes

  /** Unsigned division. */
  function Over(a: nat, b: nat): (q: nat)
    requires b > 0
    ensures q * b <= a < q * b + b
  {
    DivisionBounds(a, b);
    a / b
  }

  lemma DivisionBounds(a: nat, b: nat)
    requires b > 0
    ensures a / b >= 0 && a / b * b <= a < a / b * b + b
  {
  }

  function RDiv(r: nat): nat {
    Pow2(r + 1)
  }

  /** The settings that depend on the frequency band. */
  function Div4(frequency: nat): nat {
    if frequency <= 1300000 then 1 else 0
  }

  function Presc32(frequency: nat): nat {
    if frequency <= 1023000 then 0
    else if frequency <= 1300000 then 1
    else if frequency <= 2046000 then 0
    else 1
  }

  function PVal(frequency: nat): nat {
    if Div4(frequency) == 1 then 40 else 20
  }

  // ---------- the search for R ----------

  function PCalc(refKHz: nat, r: nat): nat {
    Over(refKHz / 100, RDiv(r))
  }

  function Distance(refKHz: nat, pVal: nat, r: nat): nat {
    Abs(PCalc(refKHz, r) - pVal)
  }

  /** r is the first of 0, 1, ..., n - 1 that comes closest to pVal. */
  ghost predicate FirstClosest(refKHz: nat, pVal: nat, r: nat, n: nat) {
    && r < n
    && (forall k :: 0 <= k < n ==> Distance(refKHz, pVal, r) <= Distance(refKHz, pVal, k))
    && (forall k :: 0 <= k < r ==> Distance(refKHz, pVal, r) < Distance(refKHz, pVal, k))
  }

  /** The loop of set_frequency, with its seed of 1000 and its refresh of pCalcOpt in every round. */
  method SearchRDiv(refKHz: nat, pVal: nat) returns (rDivOpt: nat)
    ensures FirstClosest(refKHz, pVal, rDivOpt, 4)
  {
    hide PCalc;
    rDivOpt := 0;
    var pCalcOpt := 1000;
    var rDiv := 0;
    while rDiv <= 3
      invariant 0 <= rDiv <= 4
      invariant rDiv == 0 ==> rDivOpt == 0
      invariant rDiv > 0 ==> pCalcOpt == PCalc(refKHz, rDivOpt) && FirstClosest(refKHz, pVal, rDivOpt, rDiv)
    {
      var pCalc := PCalc(refKHz, rDiv);
      if Abs(pCalc - pVal) < Abs(pCalcOpt - pVal) {
        rDivOpt := rDiv;
      }
      pCalcOpt := PCalc(refKHz, rDivOpt);
      rDiv := rDiv + 1;
    }
  }

  lemma FirstClosestIsUnique(refKHz: nat, pVal: nat, r: nat, s: nat, n: nat)
    requires FirstClosest(refKHz, pVal, r, n) && FirstClosest(refKHz, pVal, s, n)
    ensures r == s
  {
    hide Distance;
    assert Distance(refKHz, pVal, r) == Distance(refKHz, pVal, s);
  }

  // ---------- setting and reading back ----------

  /** The divider as set_frequency computes it in 32 bits. */
  function Divider(frequency: nat, refKHz: nat, r: nat): nat
    requires refKHz > 0
  {
    (Over((frequency * RDiv(r) * PVal(frequency)) % U32, refKHz) + 5) / 10
  }

  /** The frequency get_frequency computes in 32 bits. */
  function FrequencyOf(n: nat, refKHz: nat, r: nat, div4: nat): nat {
    Over((n * refKHz) % U32, Pow2(r + div4)) / 4
  }

  /** The ratio of the divider to the frequency, in units of the reference. */
  function Scale(frequency: nat, r: nat): nat {
    Pow2(r + Div4(frequency) + 2)
  }

  lemma Powers()
    ensures Pow2(0) == 1 && Pow2(1) == 2 && Pow2(2) == 4 && Pow2(3) == 8
      && Pow2(4) == 16 && Pow2(5) == 32 && Pow2(6) == 64
  {
  }

  /** The reference clocks and frequencies the tuner is made for. */
  predicate InBand(frequency: nat, refKHz: nat) {
    950000 <= frequency <= 2150000 && 16000 <= refKHz <= 47999
  }

  /** Which R the search picks depends on the clock and the band only. */
  lemma ChosenR(frequency: nat, refKHz: nat, r: nat)
    requires InBand(frequency, refKHz) && FirstClosest(refKHz, PVal(frequency), r, 4)
    ensures Div4(frequency) == 1 ==> 1 <= r <= 3 && (r == 2 ==> refKHz >= 21300) && (r == 3 ==> refKHz >= 42600)
    ensures Div4(frequency) == 0 ==> 2 <= r <= 3 && (r == 3 ==> refKHz >= 21300)
  {
    hide PCalc, Distance, RDiv;
    FourChoices(refKHz, PVal(frequency));
    var d := Distance(refKHz, PVal(frequency), r);
    assert d <= Distance(refKHz, PVal(frequency), 0) && d <= Distance(refKHz, PVal(frequency), 1)
        && d <= Distance(refKHz, PVal(frequency), 2) && d <= Distance(refKHz, PVal(frequency), 3);
  }

  lemma FourChoices(refKHz: nat, pVal: nat)
    ensures var c := refKHz / 100;
      && Distance(refKHz, pVal, 0) == Abs(c / 2 - pVal)
      && Distance(refKHz, pVal, 1) == Abs(c / 4 - pVal)
      && Distance(refKHz, pVal, 2) == Abs(c / 8 - pVal)
      && Distance(refKHz, pVal, 3) == Abs(c / 16 - pVal)
  {
    Powers();
  }

  lemma Times(a: int, b: int, m: nat)
    ensures (a - b) * m == a * m - b * m && (a + b) * m == a * m + b * m
    ensures a <= b ==> a * m <= b * m
  {
  }

  /** Rounding a tenfold quotient is rounding the quotient itself, half up. */
  lemma RoundsHalfUp(x: nat, refKHz: nat, q: nat, n: nat)
    requires q * refKHz <= 10 * x < q * refKHz + refKHz
    requires 10 * n <= q + 5 < 10 * n + 10
    ensures 2 * (n * refKHz) - refKHz <= 2 * x < 2 * (n * refKHz) + refKHz
  {
    var u, v := q * refKHz, n * refKHz;
    Times(10 * n, q + 5, refKHz);
    Times(q, 10 * n + 4, refKHz);
    Times(q, 5, refKHz);
    Times(10 * n, 4, refKHz);
    assert 10 * n * refKHz == 10 * v;
  }

  /** Two divisions in a row are one division. */
  lemma DividesTwice(x: nat, p: nat, q: nat, g: nat)
    requires q * p <= x < q * p + p && 4 * g <= q < 4 * g + 4
    ensures 4 * (g * p) <= x < 4 * (g * p) + 4 * p
  {
    Times(4 * g, q, p);
    Times(q, 4 * g + 3, p);
    Times(4 * g, 3, p);
    assert 4 * g * p == 4 * (g * p);
  }

  lemma ScaleIs(frequency: nat, refKHz: nat, r: nat)
    requires InBand(frequency, refKHz) && FirstClosest(refKHz, PVal(frequency), r, 4)
    ensures RDiv(r) * PVal(frequency) == 10 * Scale(frequency, r)
    ensures Scale(frequency, r) == 4 * Pow2(r + Div4(frequency))
    ensures Scale(frequency, r) in {16, 32, 64}
    ensures Scale(frequency, r) == 32 ==> refKHz >= 21300
    ensures Scale(frequency, r) == 64 ==> refKHz >= 42600 && frequency <= 1300000
  {
    hide FirstClosest;
    ChosenR(frequency, refKHz, r);
    Powers();
  }

  /**
   * The divider is frequency * scale / reference, rounded half up; nothing overflows 32 bits on
   * the way, and it fits its twelve bits.
   */
  lemma DividerIsRounded(frequency: nat, refKHz: nat, r: nat)
    requires InBand(frequency, refKHz) && FirstClosest(refKHz, PVal(frequency), r, 4)
    ensures var n, x := Divider(frequency, refKHz, r), frequency * Scale(frequency, r);
      && frequency * RDiv(r) * PVal(frequency) < U32 && n * refKHz < U32
      && 2 * (n * refKHz) - refKHz <= 2 * x < 2 * (n * refKHz) + refKHz
      && n < 4096
  {
    hide FirstClosest, RDiv, PVal, Scale, Over;
    ScaleIs(frequency, refKHz, r);
    var x := frequency * Scale(frequency, r);
    Tenfold(frequency, RDiv(r), PVal(frequency), Scale(frequency, r));
    ProductBound(frequency, refKHz, Scale(frequency, r));
    var q := Over(10 * x, refKHz);
    var n := (q + 5) / 10;
    assert n == Divider(frequency, refKHz, r);
    RoundsHalfUp(x, refKHz, q, n);
    Small(n, refKHz, x);
  }

  lemma Tenfold(f: nat, a: nat, b: nat, k: nat)
    requires a * b == 10 * k
    ensures f * a * b == 10 * (f * k)
  {
  }

  lemma ProductBound(frequency: nat, refKHz: nat, k: nat)
    requires InBand(frequency, refKHz) && k in {16, 32, 64}
    requires (k == 32 ==> refKHz >= 21300) && (k == 64 ==> refKHz >= 42600 && frequency <= 1300000)
    ensures frequency * k <= 83200000 && 2 * (frequency * k) <= 7000 * refKHz
  {
  }

  lemma Small(n: nat, refKHz: nat, x: nat)
    requires 16000 <= refKHz <= 47999 && 2 * (n * refKHz) - refKHz <= 2 * x <= 7000 * refKHz && x <= 83200000
    ensures n < 4096 && n * refKHz < U32
  {
    Times(4096, n, refKHz);
  }

  /**
   * What get_frequency reads back after set_frequency: less than half a step of the PLL above the
   * frequency that was set, and less than half a step and a kilohertz below it.
   */
  lemma RoundTrip(frequency: nat, refKHz: nat, r: nat)
    requires InBand(frequency, refKHz) && FirstClosest(refKHz, PVal(frequency), r, 4)
    ensures var g := FrequencyOf(Divider(frequency, refKHz, r), refKHz, r, Div4(frequency));
      var k := Scale(frequency, r);
      && 2 * (g * k) - 2 * (frequency * k) <= refKHz
      && 2 * (frequency * k) - 2 * (g * k) < refKHz + 2 * k
  {
    hide FirstClosest, RDiv, PVal, Divider, Scale, Over, FrequencyOf, Pow2;
    DividerIsRounded(frequency, refKHz, r);
    ScaleIs(frequency, refKHz, r);
    ReadBack(Divider(frequency, refKHz, r), refKHz, r, Div4(frequency), Scale(frequency, r));
  }

  lemma ReadBack(n: nat, refKHz: nat, r: nat, div4: nat, k: nat)
    requires n * refKHz < U32 && k == 4 * Pow2(r + div4)
    ensures var g := FrequencyOf(n, refKHz, r, div4);
      g * k <= n * refKHz < g * k + k
  {
    hide Over, Pow2;
    DividesAndShifts(n * refKHz, Pow2(r + div4));
    FourTimes(FrequencyOf(n, refKHz, r, div4), Pow2(r + div4));
  }

  lemma DividesAndShifts(x: nat, p: nat)
    requires x < U32 && p > 0
    ensures var g := Over(x % U32, p) / 4;
      4 * (g * p) <= x < 4 * (g * p) + 4 * p
  {
    hide Over;
    assert x % U32 == x;
    var q := Over(x, p);
    DividesTwice(x, p, q, q / 4);
  }

  lemma FourTimes(g: nat, p: nat)
    ensures g * (4 * p) == 4 * (g * p)
  {
  }

  /** With the 16 MHz clock of this receiver: never more than 500 kHz. */
  lemma RoundTripAt16MHz(frequency: nat, r: nat)
    requires InBand(frequency, 16000) && FirstClosest(16000, PVal(frequency), r, 4)
    ensures Abs(FrequencyOf(Divider(frequency, 16000, r), 16000, r, Div4(frequency)) - frequency) <= 500
  {
    hide FirstClosest, FrequencyOf, Divider;
    RoundTrip(frequency, 16000, r);
    ScaleIs(frequency, 16000, r);
  }
}
