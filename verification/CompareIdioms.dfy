/** Comparisons that PowerPC compilers compute without branches (the `Cmp*Pattern` classes of m2c/arch_ppc.py). */
module CompareIdioms {
  import opened Bits
  import opened PowersOfTwo
  import opened Words
  import Rotates

  // ----- instructions -----

  function One(b: bool): int {
    if b then 1 else 0
  }

  /** The one's complement of a word. */
  function Complement(x: int): int {
    WORD - 1 - x
  }

  function RotateLeft(x: int, n: nat): int
    requires n < 32
  {
    Shl(x, n) % WORD + Shr(x, 32 - n)
  }

  function ShiftedLeft(x: int, n: nat): int {
    if n < 32 then Shl(x, n) else 0
  }

  function LeadingZeros(x: int): int {
    if x < 0 then 0 else 32 - BitLength(x)
  }

  /** A sum, as a word and a carry out. */
  datatype Sum = Sum(word: int, carry: bool)

  function SumOf(sum: int): Sum {
    Sum(sum % WORD, sum >= WORD)
  }

  // Each instruction is a function of its source operands, in the order in which they are written, and of the carry
  // in if it reads it; an instruction that writes the carry also says what it becomes.

  function Addic(a: int, imm: int): Sum { SumOf(a + imm % WORD) }

  function Adde(a: int, b: int, carry: bool): Sum { SumOf(a + b + One(carry)) }

  function Addze(a: int, carry: bool): Sum { SumOf(a + One(carry)) }

  function Subf(a: int, b: int): int { (b - a) % WORD }

  function Subfc(a: int, b: int): Sum { SumOf(Complement(a) + b + 1) }

  function Subfe(a: int, b: int, carry: bool): Sum { SumOf(Complement(a) + b + One(carry)) }

  function Subfze(a: int, carry: bool): Sum { SumOf(Complement(a) + One(carry)) }

  function NegW(a: int): int { -a % WORD }

  function AndW(a: int, b: int): int { And(a, b) % WORD }

  function Andc(a: int, b: int): int { And(a, Not(b)) % WORD }

  function OrW(a: int, b: int): int { Or(a, b) % WORD }

  function Orc(a: int, b: int): int { Or(a, Not(b)) % WORD }

  function XorW(a: int, b: int): int { Xor(a, b) % WORD }

  function Eqv(a: int, b: int): int { Not(Xor(a, b)) % WORD }

  function Li(imm: int): int { imm % WORD }

  function Srwi(a: int, n: nat): int { Shr(a, n) % WORD }

  function Srawi(a: int, n: nat): Sum {
    Sum(Shr(Signed(a), n) % WORD, Signed(a) < 0 && a % Pow2(n) != 0)
  }

  function Clrlwi(a: int, n: nat): int
    requires n <= 32
  {
    a % Pow2(32 - n)
  }

  function Slw(a: int, b: int): int { ShiftedLeft(a, b % 64) % WORD }

  function Rlwnm(a: int, b: int, maskBegin: nat, maskEnd: nat): int
    requires maskBegin < 32 && maskEnd < 32
  {
    And(RotateLeft(a, b % 32), Rotates.RlwiMask(maskBegin, maskEnd)) % WORD
  }

  function Cntlzw(a: int): int { LeadingZeros(a) % WORD }

  // ----- idioms -----

  // A pattern is matched as a graph of values, each used by the instructions that name it, so it is a function of its
  // inputs: each variable is a register of the pattern, and the result is the pattern's `$o`.

  function Nez1(i: int): int {
    var a := Addic(i, -1);
    Subfe(a.word, i, a.carry).word
  }

  function Nez2(i: int): int {
    var a := NegW(i);
    var b := OrW(a, i);
    Srwi(b, 31)
  }

  function Lez(i: int): int {
    var a := Cntlzw(i);
    var b := Li(1);
    Rlwnm(b, a, 31, 31)
  }

  function Gtz(i: int): int {
    var a := NegW(i);
    var b := Andc(a, i);
    Srwi(b, 31)
  }

  function Ne(x: int, y: int): int {
    var a := Subf(x, y);
    var b := Subf(y, x);
    var c := OrW(a, b);
    Srwi(c, 31)
  }

  function Le(x: int, y: int): int {
    var a := Srawi(y, 31).word;
    var b := Srwi(x, 31);
    var c := Subfc(x, y);
    Adde(a, b, c.carry).word
  }

  function Lt1(x: int, y: int): int {
    var a := Eqv(y, x);
    var b := Subfc(y, x);
    var c := Srwi(a, 31);
    var d := Addze(c, b.carry).word;
    Clrlwi(d, 31)
  }

  function Lt2(x: int, y: int): int {
    var a := XorW(y, x);
    var b := Srawi(a, 1).word;
    var c := AndW(a, y);
    var d := Subf(c, b);
    Srwi(d, 31)
  }

  function Leu1(x: int, y: int): int {
    var a := Subf(x, y);
    var b := Orc(y, x);
    var c := Srwi(a, 1);
    var d := Subf(c, b);
    Srwi(d, 31)
  }

  function Leu2(x: int, y: int): int {
    var a := Li(-1);
    var b := Subfc(x, y);
    Subfze(a, b.carry).word
  }

  function Ltu1(x: int, y: int): int {
    var a := Subfc(y, x);
    var b := Subfe(a.word, a.word, a.carry).word;
    NegW(b)
  }

  function Ltu2(x: int, y: int): int {
    var a := XorW(y, x);
    var b := Cntlzw(a);
    var c := Slw(y, b);
    Srwi(c, 31)
  }

  // ----- bits -----

  lemma AndHalf(x: int, y: int)
    ensures And(x, y) == 2 * And(x / 2, y / 2) + One(x % 2 == 1 && y % 2 == 1)
  {
  }

  lemma XorHalf(x: int, y: int)
    ensures Xor(x, y) == 2 * Xor(x / 2, y / 2) + One(x % 2 != y % 2)
  {
    var xor, half := Xor(x, y), Xor(x / 2, y / 2);
    forall i: nat
      ensures Bit(xor / 2, i) == Bit(half, i)
    {
      BitXor(x, y, i + 1);
      BitXor(x / 2, y / 2, i);
      assert Bit(xor, i + 1) == Bit(xor / 2, i);
    }
    BitsDetermine(xor / 2, half);
    BitXor(x, y, 0);
  }

  lemma NotHalf(x: int)
    ensures Not(x) / 2 == Not(x / 2) && Not(x) % 2 == 1 - x % 2
  {
  }

  lemma AndNotHalf(x: int, y: int)
    ensures And(x, Not(y)) == 2 * And(x / 2, Not(y / 2)) + One(x % 2 == 1 && y % 2 == 0)
  {
    NotHalf(y);
    AndHalf(x, Not(y));
  }

  /** The bits two numbers do not share make up both their difference and their exclusive disjunction. */
  lemma {:induction false} Unshared(x: int, y: int)
    ensures x - y == And(x, Not(y)) - And(y, Not(x))
    ensures Xor(x, y) == And(x, Not(y)) + And(y, Not(x))
    decreases Abs(x) + Abs(y)
  {
    if (x == 0 || x == -1) && (y == 0 || y == -1) {
      assert Xor(0, 0) == 0 && Xor(0, -1) == -1 && Xor(-1, 0) == -1 && Xor(-1, -1) == 0;
    } else {
      Unshared(x / 2, y / 2);
      AndNotHalf(x, y);
      AndNotHalf(y, x);
      XorHalf(x, y);
    }
  }

  lemma DoubledLength(h: nat, e: nat)
    requires e <= 1 && 2 * h + e > 0
    ensures BitLength(2 * h + e) == 1 + BitLength(h)
  {
    assert (2 * h + e) / 2 == h;
  }

  /** The leftmost difference, when `half` and `xor` are the differences of the halves and of the numbers. */
  lemma LeftmostOfHalves(x: nat, y: nat, half: nat, xor: int)
    requires xor == 2 * half + One(x % 2 != y % 2)
    requires half == 0 <==> x / 2 == y / 2
    requires x / 2 != y / 2 ==> BitLength(half) > 0 && Bit(x / 2, BitLength(half) - 1) == (y / 2 < x / 2)
    ensures xor >= 0
    ensures xor == 0 <==> x == y
    ensures x != y ==> BitLength(xor) > 0 && Bit(x, BitLength(xor) - 1) == (y < x)
  {
    if x != y {
      DoubledLength(half, One(x % 2 != y % 2));
      if half == 0 {
        assert BitLength(0) == 0;
      } else {
        var n: nat := BitLength(half);
        assert Bit(x, n) == Bit(x / 2, n - 1);
      }
    }
  }

  /** The leftmost bit in which two numbers differ tells which is smaller. */
  lemma {:induction false} LeftmostDifference(x: nat, y: nat)
    ensures Xor(x, y) >= 0
    ensures Xor(x, y) == 0 <==> x == y
    ensures x != y ==> BitLength(Xor(x, y)) > 0 && Bit(x, BitLength(Xor(x, y)) - 1) == (y < x)
    decreases x + y
  {
    if x == 0 && y == 0 {
      assert Xor(0, 0) == 0;
    } else {
      LeftmostDifference(x / 2, y / 2);
      XorHalf(x, y);
      LeftmostOfHalves(x, y, Xor(x / 2, y / 2), Xor(x, y));
    }
  }

  /** A word is a number of at most 32 bits. */
  lemma {:induction false} LengthBound(x: nat, n: nat)
    requires x < Pow2(n)
    ensures BitLength(x) <= n
    ensures BitLength(x) == n > 0 ==> x >= Pow2(n - 1)
    ensures n > 0 && x >= Pow2(n - 1) ==> BitLength(x) == n
  {
    if n > 0 && x > 0 {
      LengthBound(x / 2, n - 1);
    }
  }

  /** Is the sign bit of a word set? */
  predicate Top(v: int) {
    v % WORD >= HALF
  }

  /** Shifting a word right by 31 leaves its sign bit. */
  lemma SignBit(v: int)
    ensures Shr(v % WORD, 31) % WORD == One(Top(v))
  {
    WordIsPow2();
  }

  lemma TopIsBit(v: int, n: nat)
    requires n == 31
    ensures Top(v) == Bit(v, n)
  {
    ModBits(v, n);
    TopBit(v % WORD);
  }

  lemma TopOr(x: int, y: int)
    ensures Top(Or(x, y)) == (Top(x) || Top(y))
  {
    var n: nat :| n == 31;
    TopIsBit(Or(x, y), n);
    TopIsBit(x, n);
    TopIsBit(y, n);
    BitOr(x, y, n);
  }

  lemma TopAndNot(x: int, y: int)
    ensures Top(And(x, Not(y))) == (Top(x) && !Top(y))
  {
    var n: nat :| n == 31;
    TopIsBit(And(x, Not(y)), n);
    TopIsBit(x, n);
    TopIsBit(y, n);
    BitAnd(x, Not(y), n);
    BitNot(y, n);
  }

  lemma TopXor(x: int, y: int)
    ensures Top(Xor(x, y)) == (Top(x) != Top(y))
    ensures Top(Not(Xor(x, y))) == (Top(x) == Top(y))
  {
    var n: nat :| n == 31;
    TopIsBit(Xor(x, y), n);
    TopIsBit(Not(Xor(x, y)), n);
    TopIsBit(x, n);
    TopIsBit(y, n);
    BitXor(x, y, n);
    BitNot(Xor(x, y), n);
  }

  lemma TopOfWord(x: int)
    requires IsWord(x)
    ensures Top(x) == (x >= HALF)
  {
  }

  lemma XorHighBits(x: int, y: int, i: nat)
    requires IsWord(x) && IsWord(y) && i >= 32
    ensures !Bit(Xor(y, x), i)
  {
    BitXor(y, x, i);
    HighBits(x, i);
    HighBits(y, i);
  }

  lemma XorRange(x: int, y: int)
    requires IsWord(x) && IsWord(y)
    ensures IsWord(Xor(y, x)) && XorW(y, x) == Xor(y, x)
  {
    forall i: nat | i >= 32
      ensures !Bit(Xor(y, x), i)
    {
      XorHighBits(x, y, i);
    }
    WordOf(Xor(y, x));
  }

  lemma XorWord(x: int, y: int)
    requires IsWord(x) && IsWord(y)
    ensures IsWord(Xor(y, x))
    ensures Xor(y, x) >= HALF <==> (x >= HALF) != (y >= HALF)
  {
    XorRange(x, y);
    TopOfWord(x);
    TopOfWord(y);
    TopOfWord(Xor(y, x));
    TopXor(y, x);
  }

  /** The sign bits of the words that the idioms shift right by 31. */
  lemma SignOfOr(x: int, y: int)
    requires IsWord(x) && IsWord(y)
    ensures Shr(Or(x, y) % WORD, 31) % WORD == One(x >= HALF || y >= HALF)
  {
    SignBit(Or(x, y));
    TopOfWord(x);
    TopOfWord(y);
    TopOr(x, y);
  }

  lemma SignOfAndNot(x: int, y: int)
    requires IsWord(x) && IsWord(y)
    ensures Shr(And(x, Not(y)) % WORD, 31) % WORD == One(x >= HALF && y < HALF)
  {
    SignBit(And(x, Not(y)));
    TopOfWord(x);
    TopOfWord(y);
    TopAndNot(x, y);
  }

  lemma SignOfEqv(x: int, y: int)
    requires IsWord(x) && IsWord(y)
    ensures Shr(Not(Xor(y, x)) % WORD, 31) % WORD == One((x >= HALF) == (y >= HALF))
  {
    SignBit(Not(Xor(y, x)));
    TopOfWord(x);
    TopOfWord(y);
    TopXor(y, x);
  }

  lemma AndCommutes(x: int, y: int)
    ensures And(x, y) == And(y, x)
  {
    forall i: nat
      ensures Bit(And(x, y), i) == Bit(And(y, x), i)
    {
      BitAnd(x, y, i);
      BitAnd(y, x, i);
    }
    BitsDetermine(And(x, y), And(y, x));
  }

  lemma {:induction false} AndBelow(x: nat, y: int)
    ensures 0 <= And(x, y) <= x
  {
    if x > 0 {
      AndBelow(x / 2, y / 2);
      AndHalf(x, y);
    }
  }

  /** The unshared bits of two words, in the form the idioms compute them. */
  lemma UnsharedWords(x: int, y: int)
    requires IsWord(x) && IsWord(y)
    ensures var p, q := And(x, Not(y)), And(y, Not(x));
      && IsWord(p) && IsWord(q) && p - q == x - y && Xor(y, x) == p + q && IsWord(p + q)
      && And(Xor(y, x), y) == q
      && Or(y, Not(x)) == -1 - p
      && (p + q >= HALF <==> (x >= HALF) != (y >= HALF))
  {
    var p, q, xor := And(x, Not(y)), And(y, Not(x)), Xor(y, x);
    Unshared(x, y);
    Unshared(y, x);
    AndBelow(x, Not(y));
    AndBelow(y, Not(x));
    forall i: nat
      ensures Bit(And(xor, y), i) == Bit(q, i)
    {
      BitAnd(xor, y, i);
      BitXor(y, x, i);
      BitAnd(y, Not(x), i);
      BitNot(x, i);
    }
    BitsDetermine(And(xor, y), q);
    AndCommutes(Not(y), x);
    assert Not(Not(x)) == x;
    XorWord(x, y);
  }

  /** The signs of a word and its negation, or of two opposite differences, tell whether it is zero. */
  lemma NegationSigns(i: int)
    requires IsWord(i)
    ensures IsWord(-i % WORD)
    ensures (-i % WORD >= HALF || i >= HALF) == (i != 0)
    ensures (-i % WORD >= HALF && i < HALF) == (Signed(i) > 0)
  {
  }

  lemma DifferenceSigns(x: int, y: int)
    requires IsWord(x) && IsWord(y)
    ensures IsWord((y - x) % WORD) && IsWord((x - y) % WORD)
    ensures ((y - x) % WORD >= HALF || (x - y) % WORD >= HALF) == (x != y)
  {
  }

  lemma ComplementWord(v: int, p: int)
    requires v == -1 - p && IsWord(p)
    ensures v % WORD == WORD - 1 - p
  {
  }

  lemma SrwiSign(v: int)
    requires IsWord(v)
    ensures Srwi(v, 31) == One(v >= HALF)
  {
    WordIsPow2();
  }

  // ----- each idiom -----

  /** `cmpnez` */
  lemma Nez1IsExact(i: int)
    requires IsWord(i)
    ensures Nez1(i) == One(i != 0)
  {
    assert -1 % WORD == WORD - 1;
  }

  lemma Nez2IsExact(i: int)
    requires IsWord(i)
    ensures Nez2(i) == One(i != 0)
  {
    NegationSigns(i);
    SignOfOr(NegW(i), i);
  }

  lemma ZerosOfWord(x: int)
    requires IsWord(x)
    ensures 0 <= LeadingZeros(x) <= 32
    ensures LeadingZeros(x) % 32 == 0 <==> x == 0 || x >= HALF
  {
    WordIsPow2();
    LengthBound(x, 32);
  }

  /** The lowest bit of a rotated one. */
  lemma RotatedOne(n: nat, m: nat)
    requires n < 32 && m == 31
    ensures And(RotateLeft(1, n), Rotates.RlwiMask(m, m)) == One(n == 0)
  {
    OneBitMask(m);
    LeftOne(n);
    RightOne(32 - n);
    AndOnes(Pow2(n), 1);
    assert Pow2(1) == 2;
    Parity(n);
  }

  lemma OneBitMask(m: nat)
    requires m == 31
    ensures Rotates.RlwiMask(m, m) == Pow2(1) - 1
  {
    assert Rotates.BitsUpto(31) == Shl(1, 1) - 1 && Rotates.BitsUpto(32) == Shl(1, 0) - 1;
  }

  lemma Parity(k: nat)
    ensures Pow2(k) % 2 == One(k == 0)
  {
    if k > 0 {
      assert Pow2(k) == 2 * Pow2(k - 1);
    }
  }

  lemma LeftOne(k: nat)
    requires k < 32
    ensures Shl(1, k) % WORD == Pow2(k)
  {
    WordIsPow2();
    Pow2Grows(k, 32);
    assert Shl(1, k) == Pow2(k);
  }

  lemma RightOne(k: nat)
    requires k > 0
    ensures Shr(1, k) == 0
  {
    Pow2Divides(1, k);
    assert Pow2(1) == 2;
    DivUnique(1, Pow2(k), 0, 1);
  }

  lemma LezRest(n: int, m: nat)
    requires 0 <= n <= 32 && m == 31
    ensures Rlwnm(1, n, m, m) == One(n % 32 == 0)
  {
    RotatedOne(n % 32, m);
  }

  lemma CountIs(i: int)
    requires IsWord(i)
    ensures 0 <= Cntlzw(i) <= 32 && (Cntlzw(i) % 32 == 0 <==> Signed(i) <= 0)
    ensures Li(1) == 1
  {
    ZerosOfWord(i);
    WordItself(LeadingZeros(i));
  }

  /** `cmplez` */
  lemma LezIsExact(i: int)
    requires IsWord(i)
    ensures Lez(i) == One(Signed(i) <= 0)
  {
    CountIs(i);
    LezRest(Cntlzw(i), 31);
  }

  /** `cmpgtz` */
  lemma GtzIsExact(i: int)
    requires IsWord(i)
    ensures Gtz(i) == One(Signed(i) > 0)
  {
    NegationSigns(i);
    SignOfAndNot(NegW(i), i);
  }

  /** `cmpne` */
  lemma NeIsExact(x: int, y: int)
    requires IsWord(x) && IsWord(y)
    ensures Ne(x, y) == One(x != y)
  {
    DifferenceSigns(x, y);
    SignOfOr(Subf(x, y), Subf(y, x));
  }

  /** A word shifted right by 31, keeping its sign. */
  lemma SignMask(x: int)
    requires IsWord(x)
    ensures Shr(Signed(x), 31) % WORD == if x >= HALF then WORD - 1 else 0
    ensures Shr(x, 31) % WORD == One(x >= HALF)
  {
    WordIsPow2();
  }

  /** `cmple` */
  lemma LeIsExact(x: int, y: int)
    requires IsWord(x) && IsWord(y)
    ensures Le(x, y) == One(Signed(x) <= Signed(y))
  {
    SignMask(x);
    SignMask(y);
    SubtractionCarries(x, y);
    LeValue(x, y);
    var a := if y >= HALF then WORD - 1 else 0;
    assert Srawi(y, 31).word == a && Srwi(x, 31) == One(x >= HALF);
    assert Adde(a, One(x >= HALF), y >= x).word == (a + One(x >= HALF) + One(y >= x)) % WORD;
  }

  /** Subtraction carries when it does not borrow. */
  lemma SubtractionCarries(x: int, y: int)
    requires IsWord(x) && IsWord(y)
    ensures Subfc(x, y).carry == (y >= x)
  {
  }

  lemma LeValue(x: int, y: int)
    requires IsWord(x) && IsWord(y)
    ensures ((if y >= HALF then WORD - 1 else 0) + One(x >= HALF) + One(y >= x)) % WORD == One(Signed(x) <= Signed(y))
  {
  }

  lemma Lt1Value(x: int, y: int)
    requires IsWord(x) && IsWord(y)
    ensures (One((x >= HALF) == (y >= HALF)) + One(x >= y)) % 2 == One(Signed(x) < Signed(y))
  {
  }

  lemma Lt1Rest(x: int, y: int, c: int)
    requires IsWord(x) && IsWord(y) && c == One((x >= HALF) == (y >= HALF))
    ensures Clrlwi(Addze(c, Subfc(y, x).carry).word, 31) == One(Signed(x) < Signed(y))
  {
    SubtractionCarries(y, x);
    Lt1Value(x, y);
    assert Addze(c, x >= y).word == c + One(x >= y);
    assert Pow2(1) == 2;
  }

  /** `cmplt` */
  lemma Lt1IsExact(x: int, y: int)
    requires IsWord(x) && IsWord(y)
    ensures Lt1(x, y) == One(Signed(x) < Signed(y))
  {
    SignOfEqv(x, y);
    Lt1Rest(x, y, Srwi(Eqv(y, x), 31));
  }

  /** Half the difference of two words, rounded down, from their unshared bits. */
  lemma HalfDifference(p: int, q: int)
    ensures (p + q) / 2 - q == (p - q) / 2
  {
  }

  /** With equal signs the half difference has the sign of the difference; with different signs, the opposite one. */
  lemma Lt2Value(x: int, y: int, p: int, q: int)
    requires IsWord(x) && IsWord(y) && IsWord(q) && IsWord(p + q) && p - q == x - y
    requires p + q >= HALF <==> (x >= HALF) != (y >= HALF)
    ensures ((Signed(p + q) / 2 % WORD - q) % WORD >= HALF) == (Signed(x) < Signed(y))
  {
    var a, h := p + q, (x - y) / 2;
    HalfDifference(p, q);
    if a < HALF {
      assert Signed(a) / 2 % WORD - q == h;
    } else {
      assert Signed(a) / 2 % WORD - q == h + HALF;
    }
  }

  lemma Lt2Rest(x: int, y: int, p: int, q: int)
    requires IsWord(x) && IsWord(y) && IsWord(q) && IsWord(p + q) && p - q == x - y
    requires p + q >= HALF <==> (x >= HALF) != (y >= HALF)
    ensures Srwi(Subf(q, Srawi(p + q, 1).word), 31) == One(Signed(x) < Signed(y))
  {
    var b := Signed(p + q) / 2 % WORD;
    assert Pow2(1) == 2;
    assert Srawi(p + q, 1).word == b;
    SrwiSign((b - q) % WORD);
    Lt2Value(x, y, p, q);
  }

  lemma Lt2Inputs(x: int, y: int, p: int, q: int)
    requires IsWord(x) && IsWord(y) && IsWord(q)
    requires Xor(y, x) == p + q && And(Xor(y, x), y) == q
    ensures XorW(y, x) == p + q && AndW(p + q, y) == q
  {
    XorRange(x, y);
    WordItself(q);
  }

  lemma Lt2IsExact(x: int, y: int)
    requires IsWord(x) && IsWord(y)
    ensures Lt2(x, y) == One(Signed(x) < Signed(y))
  {
    UnsharedWords(x, y);
    var p, q := And(x, Not(y)), And(y, Not(x));
    Lt2Inputs(x, y, p, q);
    Lt2Rest(x, y, p, q);
  }

  lemma Leu1Value(x: int, y: int, p: int, q: int)
    requires IsWord(x) && IsWord(y) && IsWord(p) && IsWord(q) && IsWord(p + q) && p - q == x - y
    ensures var d := WORD - 1 - p - (y - x) % WORD / 2; IsWord(d) && (d >= HALF) == (x <= y)
  {
    HalfDifference(q, p);
    if x <= y {
      assert (y - x) % WORD == y - x;
    } else {
      assert (y - x) % WORD == y - x + WORD;
    }
  }

  lemma Leu1Rest(x: int, y: int, p: int, q: int)
    requires IsWord(x) && IsWord(y) && IsWord(p) && IsWord(q) && IsWord(p + q) && p - q == x - y
    ensures Srwi(Subf(Srwi(Subf(x, y), 1), WORD - 1 - p), 31) == One(x <= y)
  {
    var a := Subf(x, y);
    assert Pow2(1) == 2;
    assert Srwi(a, 1) == a / 2;
    Leu1Value(x, y, p, q);
    var d := WORD - 1 - p - a / 2;
    assert Subf(a / 2, WORD - 1 - p) == d;
    SrwiSign(d);
  }

  /** `cmpleu` */
  lemma Leu1IsExact(x: int, y: int)
    requires IsWord(x) && IsWord(y)
    ensures Leu1(x, y) == One(x <= y)
  {
    var p := And(x, Not(y));
    UnsharedWords(x, y);
    ComplementWord(Or(y, Not(x)), p);
    assert Orc(y, x) == WORD - 1 - p;
    Leu1Rest(x, y, p, And(y, Not(x)));
  }

  lemma Leu2IsExact(x: int, y: int)
    requires IsWord(x) && IsWord(y)
    ensures Leu2(x, y) == One(x <= y)
  {
    assert -1 % WORD == WORD - 1;
  }

  /** `cmpltu` */
  lemma Ltu1IsExact(x: int, y: int)
    requires IsWord(x) && IsWord(y)
    ensures Ltu1(x, y) == One(x < y)
  {
    var a := Subfc(y, x);
    assert Subfe(a.word, a.word, a.carry).word == if x < y then WORD - 1 else 0;
  }

  /** Bringing the leftmost difference of two words to the top. */
  lemma Ltu2Value(x: int, y: int)
    requires IsWord(x) && IsWord(y)
    ensures IsWord(Xor(y, x)) && 0 <= LeadingZeros(Xor(y, x)) <= 32
    ensures Top(ShiftedLeft(y, LeadingZeros(Xor(y, x)))) == (x < y)
  {
    var xor := Xor(y, x);
    XorWord(x, y);
    LeftmostDifference(y, x);
    ZerosOfWord(xor);
    var n: nat := LeadingZeros(xor);
    assert n == 32 - BitLength(xor);
    if x != y {
      var top: nat :| top == 31;
      TopIsBit(Shl(y, n), top);
      BitShl(y, n, top);
    }
  }

  lemma SlwWithin(y: int, n: int)
    requires 0 <= n <= 32
    ensures n % WORD == n && Slw(y, n) == ShiftedLeft(y, n) % WORD
  {
  }

  lemma Ltu2IsExact(x: int, y: int)
    requires IsWord(x) && IsWord(y)
    ensures Ltu2(x, y) == One(x < y)
  {
    XorRange(x, y);
    Ltu2Value(x, y);
    var n := LeadingZeros(Xor(y, x));
    SlwWithin(y, n);
    SignBit(ShiftedLeft(y, n));
  }
}
