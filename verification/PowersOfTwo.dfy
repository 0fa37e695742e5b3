/** Powers of two as masks and as divisors. */
module PowersOfTwo {
  import opened Bits

  ghost predicate IsPow2(a: int) {
    exists k: nat :: a == Pow2(k)
  }

  lemma MultipleOf(q: int, a: nat)
    requires a > 0
    ensures q * a % a == 0
  {
    DivUnique(q * a, a, q, 0);
  }

  lemma ModPlus(a: int, k: int, m: int)
    requires m > 0
    ensures (a + k * m) % m == a % m
  {
    var q, r := a / m, a % m;
    assert a + k * m == (q + k) * m + r;
    DivUnique(a + k * m, m, q + k, r);
  }

  lemma {:induction false} AndMinusOne(x: int)
    ensures And(x, -1) == x
    decreases Abs(x)
  {
    if x != 0 && x != -1 {
      AndMinusOne(x / 2);
    }
  }

  lemma {:induction false} AndZero(x: int)
    ensures And(x, 0) == 0
    decreases Abs(x)
  {
    if x != 0 && x != -1 {
      AndZero(x / 2);
    }
  }

  lemma Doubled(q: int, p: nat, r: int, e: int)
    ensures 2 * (q * p + r) + e == q * (2 * p) + (2 * r + e)
  {
  }

  /** Halving a number and a divisor. */
  lemma HalfDivision(x: int, p: nat)
    requires p > 0
    ensures x / (2 * p) == x / 2 / p && x % (2 * p) == 2 * (x / 2 % p) + x % 2
  {
    var h, e := x / 2, x % 2;
    var q, r := h / p, h % p;
    assert h == q * p + r;
    Doubled(q, p, r, e);
    DivUnique(x, 2 * p, q, 2 * r + e);
  }

  /** `x & -(1 << k)` clears the low bits. */
  lemma {:induction false} AndNegPow2(x: int, k: nat)
    ensures And(x, Neg(Pow2(k))) == x / Pow2(k) * Pow2(k)
    decreases k
  {
    if k == 0 {
      AndMinusOne(x);
    } else if x == 0 || x == -1 {
      DivUnique(x, Pow2(k), x, if x == 0 then 0 else Pow2(k) - 1);
    } else {
      var p := Pow2(k - 1);
      assert Neg(Pow2(k)) / 2 == Neg(p) && Neg(Pow2(k)) % 2 == 0;
      AndNegPow2(x / 2, k - 1);
      HalfDivision(x, p);
      Doubled(x / 2 / p, p, 0, 0);
    }
  }

  /** `x & ((1 << k) - 1)` keeps the low bits. */
  lemma {:induction false} AndOnes(x: int, k: nat)
    ensures And(x, Pow2(k) - 1) == x % Pow2(k)
    decreases k
  {
    if k == 0 {
      AndZero(x);
    } else if x == -1 {
      DivUnique(-1, Pow2(k), -1, Pow2(k) - 1);
    } else {
      var p := Pow2(k - 1);
      assert (Pow2(k) - 1) / 2 == p - 1 && (Pow2(k) - 1) % 2 == 1;
      AndOnes(x / 2, k - 1);
      HalfDivision(x, p);
      if x == 0 {
        DivUnique(0, Pow2(k), 0, 0);
      }
    }
  }

  /** The smaller of two powers of two divides the larger. */
  lemma {:induction false} Pow2Divides(j: nat, k: nat)
    requires j <= k
    ensures Pow2(k) % Pow2(j) == 0 && Pow2(j) <= Pow2(k)
    decreases k
  {
    if j < k {
      Pow2Divides(j, k - 1);
      DividesTimes(Pow2(k - 1), 2, Pow2(j));
    } else {
      MultipleOf(1, Pow2(j));
    }
  }

  lemma Pow2Order(j: nat, k: nat)
    requires Pow2(j) <= Pow2(k)
    ensures j <= k
  {
    if k < j {
      Pow2Grows(k, j);
    }
  }

  lemma Pow2Grows(j: nat, k: nat)
    requires j < k
    ensures Pow2(j) < Pow2(k)
  {
    Pow2Divides(j, k - 1);
  }

  lemma Divides(a: nat, b: nat)
    requires IsPow2(a) && IsPow2(b) && a <= b
    ensures a > 0 && b % a == 0
  {
    var j: nat :| a == Pow2(j);
    var k: nat :| b == Pow2(k);
    Pow2Order(j, k);
    Pow2Divides(j, k);
  }

  lemma DividesSum(x: nat, y: nat, a: nat)
    requires a > 0 && x % a == 0 && y % a == 0
    ensures (x + y) % a == 0
  {
    assert x + y == (x / a + y / a) * a;
    MultipleOf(x / a + y / a, a);
  }

  lemma DividesThrough(x: nat, b: nat, a: nat)
    requires a > 0 && b > 0 && x % b == 0 && b % a == 0
    ensures x % a == 0
  {
    var q, r := x / b, b / a;
    assert x == q * b && b == r * a;
    assert x == (q * r) * a;
    MultipleOf(q * r, a);
  }

  lemma DividesTimes(x: nat, n: nat, a: nat)
    requires a > 0 && x % a == 0
    ensures (n * x) % a == 0
  {
    var q := x / a;
    assert x == q * a;
    assert n * x == (n * q) * a;
    MultipleOf(n * q, a);
  }

  /** The low bits of a number. */
  lemma BitMod(x: int, k: nat, i: nat)
    ensures Bit(x % Pow2(k), i) == (i < k && Bit(x, i))
  {
    AndOnes(x, k);
    BitAnd(x, Pow2(k) - 1, i);
    BitOnes(k, i);
  }

  /** `(1 << a) - (1 << b)` has exactly the bits from `b` up to `a`. */
  lemma BitsBetween(a: nat, b: nat, i: nat)
    requires b <= a
    ensures Bit(Pow2(a) - Pow2(b), i) == (b <= i < a)
  {
    Pow2Adds(a - b, b);
    assert Pow2(a) - Pow2(b) == Shl(Pow2(a - b) - 1, b) by {
      assert (Pow2(a - b) - 1) * Pow2(b) == Pow2(a - b) * Pow2(b) - Pow2(b);
    }
    BitShl(Pow2(a - b) - 1, b, i);
    if i >= b {
      BitOnes(a - b, i - b);
    }
  }

  lemma {:induction false} Pow2Adds(j: nat, k: nat)
    ensures Pow2(j) * Pow2(k) == Pow2(j + k)
    decreases j
  {
    if j > 0 {
      Pow2Adds(j - 1, k);
      assert Pow2(j) * Pow2(k) == 2 * (Pow2(j - 1) * Pow2(k));
    }
  }

  /** A number with one bit is that power of two. */
  lemma {:induction false} OneBit(n: nat)
    requires n > 0 && And(n, n - 1) == 0
    ensures BitLength(n) > 0 && n == Pow2(BitLength(n) - 1)
    decreases n
  {
    if n % 2 == 1 {
      assert And(n, n - 1) == 2 * And(n / 2, n / 2);
      AndSelf(n / 2);
    } else {
      assert (n - 1) / 2 == n / 2 - 1;
      OneBit(n / 2);
    }
  }

  lemma {:induction false} AndSelf(n: int)
    ensures And(n, n) == n
    decreases Abs(n)
  {
    if n != 0 && n != -1 {
      AndSelf(n / 2);
    }
  }
}
