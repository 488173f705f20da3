/** Bytes and 16-bit words as the firmware and the driver see them. */
module Bytes {

  type byte = b: int | 0 <= b < 256

  const WORD_LIMIT: int := 0x1_0000

  /** A 16-bit unsigned integer (WORD in the firmware, u16 in the driver). */
  type word = w: int | 0 <= w < 0x1_0000

  const U32: int := 0x1_0000_0000

  type u32 = n: int | 0 <= n < 0x1_0000_0000

  /** Unsigned 16-bit arithmetic wraps around. */
  function Wrap16(n: nat): word {
    n % WORD_LIMIT
  }

  lemma WrapOnce(a: nat, b: nat)
    ensures Wrap16(Wrap16(a) + b) == Wrap16(a + b)
  {
  }

  lemma WrapTwice(a: nat)
    ensures Wrap16(Wrap16(a)) == Wrap16(a)
  {
  }

  function Msb(w: word): byte {
    w / 256
  }

  function Lsb(w: word): byte {
    w % 256
  }

  function MakeWord(high: byte, low: byte): word {
    high * 256 + low
  }

  lemma WordSplits(w: word)
    ensures MakeWord(Msb(w), Lsb(w)) == w
  {
  }

  lemma BytesOfWord(high: byte, low: byte)
    ensures Msb(MakeWord(high, low)) == high && Lsb(MakeWord(high, low)) == low
  {
  }

  function Max(a: int, b: int): int {
    if a < b then b else a
  }

  function Abs(x: int): nat {
    if x < 0 then -x else x
  }

  function Pow2(k: nat): (p: nat)
    ensures p >= 1
  {
    if k == 0 then 1 else 2 * Pow2(k - 1)
  }
}
