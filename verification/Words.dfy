/** 32-bit words as numbers below 2^32, and the numbers they are in two's complement. */
module Words {
  import opened Bits
  import opened PowersOfTwo

  const WORD := 0x1_0000_0000
  const HALF := 0x8000_0000

  predicate IsWord(x: int) {
    0 <= x < WORD
  }

  function Signed(x: int): int {
    if x >= HALF then x - WORD else x
  }

  lemma WordIsPow2()
    ensures WORD == Pow2(32) && HALF == Pow2(31)
  {
    assert Pow2(8) == 256;
    assert Pow2(16) == 65536;
    assert Pow2(24) == 16777216;
  }

  lemma ModBits(x: int, i: nat)
    ensures Bit(x % WORD, i) == (i < 32 && Bit(x, i))
  {
    WordIsPow2();
    BitMod(x, 32, i);
  }

  /** A number without bits from the 32nd on is a word. */
  lemma WordOf(x: int)
    requires forall i: nat :: i >= 32 ==> !Bit(x, i)
    ensures IsWord(x) && x % WORD == x
  {
    forall i: nat
      ensures Bit(x % WORD, i) == Bit(x, i)
    {
      ModBits(x, i);
    }
    BitsDetermine(x % WORD, x);
  }

  /** The sign bit. */
  lemma TopBit(x: int)
    requires IsWord(x)
    ensures x / HALF == (if x >= HALF then 1 else 0)
    ensures Bit(x, 31) == (x >= HALF)
  {
    WordIsPow2();
    BitShr(x, 31, 0);
    assert Shr(x, 31) == x / HALF;
  }

  lemma WordItself(x: int)
    requires IsWord(x)
    ensures x % WORD == x
  {
  }

  lemma HighBits(x: int, i: nat)
    requires IsWord(x) && i >= 32
    ensures !Bit(x, i)
  {
    WordItself(x);
    ModBits(x, i);
  }
}
