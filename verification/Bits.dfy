/**
 * Arbitrary-precision integers read as infinite two's-complement bit strings, as
 * Python's `&`, `|`, `^`, `~`, `<<`, `>>` and `bit_length` read them.
 */
module Bits {

  function Pow2(n: nat): (p: nat)
    ensures p > 0
  {
    if n == 0 then 1 else 2 * Pow2(n - 1)
  }

  function Shl(x: int, n: nat): int {
    x * Pow2(n)
  }

  /** Python's `x >> n`: division that rounds towards minus infinity. */
  function Shr(x: int, n: nat): int {
    x / Pow2(n)
  }

  predicate Bit(x: int, i: nat)
    decreases i
  {
    if i == 0 then x % 2 == 1 else Bit(x / 2, i - 1)
  }

  function Abs(x: int): nat {
    if x < 0 then -x else x
  }

  function Neg(x: int): int {
    -x
  }

  function Not(x: int): int {
    -x - 1
  }

  function And(x: int, y: int): int
    decreases Abs(x)
  {
    if x == 0 then 0
    else if x == -1 then y
    else 2 * And(x / 2, y / 2) + (if x % 2 == 1 && y % 2 == 1 then 1 else 0)
  }

  function Or(x: int, y: int): int {
    Not(And(Not(x), Not(y)))
  }

  function Xor(x: int, y: int): int {
    And(Or(x, y), Not(And(x, y)))
  }

  function BitLength(x: nat): nat {
    if x == 0 then 0 else 1 + BitLength(x / 2)
  }

  // ----- each operator, bit by bit -----

  lemma {:induction false} BitZero(i: nat)
    ensures !Bit(0, i)
    ensures Bit(-1, i)
    decreases i
  {
    if i > 0 { BitZero(i - 1); }
  }

  lemma {:induction false} BitNot(x: int, i: nat)
    ensures Bit(Not(x), i) == !Bit(x, i)
    decreases i
  {
    if i > 0 {
      assert Not(x) / 2 == Not(x / 2);
      BitNot(x / 2, i - 1);
    }
  }

  lemma {:induction false} BitAnd(x: int, y: int, i: nat)
    ensures Bit(And(x, y), i) == (Bit(x, i) && Bit(y, i))
    decreases i
  {
    BitZero(i);
    if x != 0 && x != -1 && i > 0 {
      assert And(x, y) / 2 == And(x / 2, y / 2);
      BitAnd(x / 2, y / 2, i - 1);
    }
  }

  lemma BitOr(x: int, y: int, i: nat)
    ensures Bit(Or(x, y), i) == (Bit(x, i) || Bit(y, i))
  {
    BitNot(x, i);
    BitNot(y, i);
    BitAnd(Not(x), Not(y), i);
    BitNot(And(Not(x), Not(y)), i);
  }

  lemma BitXor(x: int, y: int, i: nat)
    ensures Bit(Xor(x, y), i) == (Bit(x, i) != Bit(y, i))
  {
    BitOr(x, y, i);
    BitAnd(x, y, i);
    BitNot(And(x, y), i);
    BitAnd(Or(x, y), Not(And(x, y)), i);
  }

  lemma {:induction false} BitShl(x: int, n: nat, i: nat)
    ensures Bit(Shl(x, n), i) == (i >= n && Bit(x, i - n))
    decreases n
  {
    if n > 0 {
      assert Shl(x, n) == 2 * Shl(x, n - 1);
      if i > 0 { BitShl(x, n - 1, i - 1); }
    }
  }

  lemma {:induction false} ShrHalf(x: int, n: nat)
    ensures Shr(x, n + 1) == Shr(x / 2, n)
  {
    var p := Pow2(n);
    assert Pow2(n + 1) == 2 * p;
    var q := (x / 2) / p;
    var r := (x / 2) % p;
    assert x / 2 == q * p + r;
    var e := x % 2;
    assert x == 2 * (q * p + r) + e == q * (2 * p) + (2 * r + e);
    assert 0 <= 2 * r + e < 2 * p;
    DivUnique(x, 2 * p, q, 2 * r + e);
  }

  lemma DivUnique(x: int, m: nat, q: int, r: int)
    requires m > 0 && x == q * m + r && 0 <= r < m
    ensures x / m == q && x % m == r
  {
    var q', r' := x / m, x % m;
    var k := q - q';
    assert k * m == r' - r by {
      assert x == q' * m + r';
      assert (q - q') * m == q * m - q' * m;
    }
    if k > 0 {
      MulAtLeast(k, m);
    } else if k < 0 {
      MulAtLeast(-k, m);
    }
  }

  lemma MulAtLeast(k: int, m: int)
    requires k > 0 && m > 0
    ensures k * m >= m
  {
    assert k * m == m + (k - 1) * m;
  }

  lemma {:induction false} BitShr(x: int, n: nat, i: nat)
    ensures Bit(Shr(x, n), i) == Bit(x, i + n)
    decreases n
  {
    if n > 0 {
      ShrHalf(x, n - 1);
      BitShr(x / 2, n - 1, i);
    } else {
      assert Shr(x, 0) == x;
    }
  }

  lemma BitPow2(n: nat, i: nat)
    ensures Bit(Pow2(n), i) == (i == n)
  {
    assert Shl(1, n) == Pow2(n);
    BitShl(1, n, i);
    if i > n { BitZero(i - n - 1); }
  }

  /** `(1 << n) - 1` has exactly the bits below `n`. */
  lemma {:induction false} BitOnes(n: nat, i: nat)
    ensures Bit(Pow2(n) - 1, i) == (i < n)
    decreases n
  {
    if n == 0 {
      BitZero(i);
    } else {
      assert (Pow2(n) - 1) / 2 == Pow2(n - 1) - 1;
      if i > 0 { BitOnes(n - 1, i - 1); }
    }
  }

  /** Two integers with the same bits are equal. */
  lemma {:induction false} BitsDetermine(x: int, y: int)
    requires forall i: nat :: Bit(x, i) == Bit(y, i)
    ensures x == y
    decreases Abs(x) + Abs(y)
  {
    assert Bit(x, 0) == Bit(y, 0);
    forall i: nat
      ensures Bit(x / 2, i) == Bit(y / 2, i)
    {
      assert Bit(x, i + 1) == Bit(y, i + 1);
    }
    if (x == 0 || x == -1) && (y == 0 || y == -1) {
      BitZero(0);
    } else {
      BitsDetermine(x / 2, y / 2);
    }
  }

  /** A submask that differs is smaller. */
  lemma {:induction false} AndShrinks(x: nat, y: nat)
    ensures 0 <= And(x, y) <= y
    decreases x
  {
    if x != 0 { AndShrinks(x / 2, y / 2); }
  }

  lemma {:induction false} AndNotSelf(x: int)
    ensures And(x, Not(x)) == 0
    decreases Abs(x)
  {
    if x != 0 && x != -1 {
      assert Not(x) / 2 == Not(x / 2);
      AndNotSelf(x / 2);
    }
  }

  function LowestBit(x: nat): (k: nat)
    requires x > 0
    ensures Bit(x, k)
    ensures forall i: nat :: i < k ==> !Bit(x, i)
  {
    if x % 2 == 1 then 0
    else
      var k := LowestBit(x / 2);
      assert forall i: nat :: 0 < i < k + 1 ==> Bit(x, i) == Bit(x / 2, i - 1);
      k + 1
  }

  /** `x & -x` isolates the lowest set bit of `x`. */
  lemma {:induction false} IsolateLowest(x: nat)
    requires x > 0
    ensures And(x, Neg(x)) == Pow2(LowestBit(x))
    decreases x
  {
    var m := x / 2;
    if x % 2 == 1 {
      assert Neg(x) == 2 * Not(m) + 1;
      AndNotSelf(m);
    } else {
      assert Neg(x) / 2 == Neg(m);
      IsolateLowest(m);
    }
  }

  lemma {:induction false} BitLengthPow2(n: nat)
    ensures BitLength(Pow2(n)) == n + 1
  {
    if n > 0 {
      BitLengthPow2(n - 1);
      assert Pow2(n) / 2 == Pow2(n - 1);
    }
  }
}
