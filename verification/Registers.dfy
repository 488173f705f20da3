/**
 * Eight-bit device registers as sets of bit numbers, and the bit-field macros of the STV6110 driver
 * on them (src/stv6110x_priv.h:37-49).
 */
module Registers {
  import opened Bytes

  /** The bits that are set, of 0 to 7. */
  type Reg = set<int>

  /** The n numbers from lo on. */
  function Range(lo: int, n: nat): (r: Reg)
    ensures forall b :: b in r <==> lo <= b < lo + n
    decreases n
  {
    if n == 0 then {} else {lo} + Range(lo + 1, n - 1)
  }

  /** Binary digit number k of n. */
  predicate Digit(n: nat, k: nat) {
    if k == 0 then n % 2 == 1 else Digit(n / 2, k - 1)
  }

  /** The register that holds n, truncated to eight bits. */
  function RegOf(n: nat): Reg {
    Shifted(n, 0)
  }

  function Room(off: nat): Reg {
    Range(off, if off < 8 then 8 - off else 0)
  }

  /** n << off, truncated to eight bits. */
  function Shifted(n: nat, off: nat): Reg {
    set b | b in Room(off) && Digit(n, b - off)
  }

  /** The number that bits off, off + 1, ... spell in binary. */
  function Number(reg: Reg, off: nat, width: nat): (n: nat)
    ensures n < Pow2(width)
    decreases width
  {
    if width == 0 then 0 else (if off in reg then 1 else 0) + 2 * Number(reg, off + 1, width - 1)
  }

  function ByteOf(reg: Reg): byte {
    assert Pow2(8) == 256;
    Number(reg, 0, 8)
  }

  lemma {:induction false} NumberOfDigits(reg: Reg, off: nat, width: nat, n: nat)
    requires n < Pow2(width)
    requires forall b :: off <= b < off + width ==> (b in reg <==> Digit(n, b - off))
    ensures Number(reg, off, width) == n
    decreases width
  {
    if width > 0 {
      assert off in reg <==> Digit(n, off - off);
      forall b | off + 1 <= b < off + width ensures b in reg <==> Digit(n / 2, b - (off + 1)) {
        assert Digit(n, b - off) == Digit(n / 2, b - off - 1);
      }
      NumberOfDigits(reg, off + 1, width - 1, n / 2);
    }
  }

  lemma {:induction false} SameNumber(a: Reg, b: Reg, off: nat, width: nat)
    requires forall k :: off <= k < off + width ==> (k in a <==> k in b)
    ensures Number(a, off, width) == Number(b, off, width)
    decreases width
  {
    if width > 0 {
      SameNumber(a, b, off + 1, width - 1);
    }
  }

  lemma {:induction false} NoHighDigits(n: nat, width: nat, k: nat)
    requires n < Pow2(width) && width <= k
    ensures !Digit(n, k)
    decreases k
  {
    if k > 0 {
      NoHighDigits(n / 2, if width == 0 then 0 else width - 1, k - 1);
    }
  }

  // ---------- fields ----------

  /** `width` bits from bit `off` on. */
  datatype Field = Field(off: nat, width: nat)

  predicate InRegister(f: Field) {
    f.off + f.width <= 8
  }

  function Span(f: Field): Reg {
    Range(f.off, f.width)
  }

  /** STV6110x_SETFIELD: the field is cleared, the value is shifted in without being masked. */
  function SetField(reg: Reg, f: Field, val: nat): Reg {
    (reg - Span(f)) + Shifted(val, f.off)
  }

  /** STV6110x_GETFIELD. */
  function GetField(f: Field, reg: Reg): nat {
    Number(reg, f.off, f.width)
  }

  /** A value that fits its field is read back, and every bit outside the field is kept. */
  lemma SetThenGet(reg: Reg, f: Field, val: nat)
    requires InRegister(f) && val < Pow2(f.width)
    ensures GetField(f, SetField(reg, f, val)) == val
    ensures SetField(reg, f, val) - Span(f) == reg - Span(f)
  {
    NumberOfDigits(SetField(reg, f, val), f.off, f.width, val);
    forall b | b in Shifted(val, f.off) ensures b in Span(f) {
      if b >= f.off + f.width {
        NoHighDigits(val, f.width, b - f.off);
      }
    }
  }

  /** The bits outside a field survive exactly if the overhang of the value was set there already. */
  lemma NeighboursKept(reg: Reg, f: Field, val: nat)
    ensures SetField(reg, f, val) - Span(f) == reg - Span(f) <==> Shifted(val, f.off) - Span(f) <= reg
  {
    if SetField(reg, f, val) - Span(f) == reg - Span(f) {
      forall b | b in Shifted(val, f.off) - Span(f) ensures b in reg {
        assert b in SetField(reg, f, val) - Span(f);
      }
    }
  }

  /** Setting one field leaves the others of the register alone. */
  lemma OtherFieldKept(reg: Reg, f: Field, val: nat, other: Field)
    requires InRegister(f) && val < Pow2(f.width)
    requires f.off + f.width <= other.off || other.off + other.width <= f.off
    ensures GetField(other, SetField(reg, f, val)) == GetField(other, reg)
  {
    SetThenGet(reg, f, val);
    forall b | other.off <= b < other.off + other.width ensures b in SetField(reg, f, val) <==> b in reg {
      assert b in SetField(reg, f, val) - Span(f) <==> b in reg - Span(f);
    }
    SameNumber(SetField(reg, f, val), reg, other.off, other.width);
  }

  // ---------- bytes ----------

  /** A byte put into a register is read back. */
  lemma ByteReadsBack(n: byte)
    ensures ByteOf(RegOf(n)) == n
  {
    assert Pow2(8) == 256;
    NumberOfDigits(RegOf(n), 0, 8, n);
  }

  /** A number is its lower part and its upper part. */
  lemma {:induction false} NumberSplits(reg: Reg, off: nat, low: nat, high: nat)
    ensures Number(reg, off, low + high) == Number(reg, off, low) + Pow2(low) * Number(reg, off + low, high)
    decreases low
  {
    if low > 0 {
      NumberSplits(reg, off + 1, low - 1, high);
      Twice(Pow2(low - 1), Number(reg, off + low, high));
      hide Pow2;
    }
  }

  lemma Twice(a: nat, b: nat)
    ensures 2 * a * b == 2 * (a * b)
  {
  }

  lemma OneBit(reg: Reg, b: nat)
    ensures Number(reg, b, 1) == if b in reg then 1 else 0
  {
    assert Number(reg, b + 1, 0) == 0;
  }
}
