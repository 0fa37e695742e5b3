/**
 * Division and remainder by powers of two as MIPS compilers write them (the `ModP2*`, `DivP2*` and `Div2S*` patterns
 * of m2c/arch_mips.py), on a machine with delay slots.
 */
module PowerIdioms {
  import opened Wrappers
  import opened Bits
  import opened PowersOfTwo
  import opened Words

  // ----- machine -----

  type Reg = r: nat | r < 32

  const ZERO: Reg := 0
  const AT: Reg := 1

  /** The registers; the first is always zero. */
  predicate Wf(r: seq<int>) {
    |r| == 32 && r[ZERO] == 0 && forall k :: 0 <= k < 32 ==> IsWord(r[k])
  }

  function Get(r: seq<int>, k: Reg): int {
    if k < |r| then r[k] else 0
  }

  function Set(r: seq<int>, d: Reg, v: int): (t: seq<int>)
    ensures Wf(r) ==> Wf(t)
  {
    if d == ZERO || d >= |r| then r else r[d := v % WORD]
  }

  lemma SetWord(r: seq<int>, d: Reg, v: int)
    requires Wf(r) && d != ZERO && IsWord(v)
    ensures Get(Set(r, d, v), d) == v
  {
  }

  /** An instruction computes a register, or is a branch forward over its delay slot; a likely branch annuls the slot. */
  datatype Item =
    | Op(d: Reg, value: seq<int> -> int)
    | Branch(taken: seq<int> -> bool, likely: bool, target: nat)

  /** Branches lead forward and have an instruction that is no branch after them. */
  predicate Runnable(code: seq<Item>) {
    forall k :: 0 <= k < |code| && code[k].Branch? ==> k + 1 < |code| && code[k + 1].Op? && k + 1 < code[k].target <= |code|
  }

  function After(item: Item, r: seq<int>): seq<int>
    requires item.Op?
  {
    Set(r, item.d, item.value(r))
  }

  function Exec(code: seq<Item>, pc: nat, r: seq<int>): seq<int>
    requires Runnable(code) && pc <= |code|
    decreases |code| - pc
  {
    if pc == |code| then r
    else if code[pc].Op? then Exec(code, pc + 1, After(code[pc], r))
    else if code[pc].taken(r) then Exec(code, code[pc].target, After(code[pc + 1], r))
    else Exec(code, pc + 2, if code[pc].likely then r else After(code[pc + 1], r))
  }

  function Run(code: seq<Item>, r: seq<int>): seq<int>
    requires Runnable(code)
  {
    Exec(code, 0, r)
  }

  predicate Fits16(imm: int) {
    -0x8000 <= imm < 0x8000
  }

  function Nop(): Item { Op(ZERO, r => 0) }

  function Li(d: Reg, imm: int): Item { Op(d, r => imm) }

  function Move(d: Reg, s: Reg): Item { Op(d, r => Get(r, s)) }

  function Addiu(d: Reg, s: Reg, imm: int): Item { Op(d, r => Get(r, s) + imm) }

  function Addu(d: Reg, s: Reg, t: Reg): Item { Op(d, r => Get(r, s) + Get(r, t)) }

  function Subu(d: Reg, s: Reg, t: Reg): Item { Op(d, r => Get(r, s) - Get(r, t)) }

  function AndR(d: Reg, s: Reg, t: Reg): Item { Op(d, r => And(Get(r, s), Get(r, t))) }

  function Andi(d: Reg, s: Reg, imm: int): Item { Op(d, r => And(Get(r, s), imm)) }

  /** An instruction that applies a function to an unsigned register. */
  function ApplyUnsigned(d: Reg, s: Reg, f: int -> int): Item { Op(d, r => f(Get(r, s))) }

  function LeftBy(n: int): int -> int {
    a => Shl(a, n % 32)
  }

  function ShiftBy(n: int): int -> int {
    a => Shr(a, n % 32)
  }

  function Bgez(s: Reg, target: nat): Item { Branch(r => Get(r, s) < HALF, false, target) }

  function Beqz(s: Reg, target: nat): Item { Branch(r => Get(r, s) == 0, false, target) }

  function Bltzl(s: Reg, target: nat): Item { Branch(r => Get(r, s) >= HALF, true, target) }

  // ----- division in C -----

  /** Section 6.5.5 of ISO/IEC 9899:1999: the quotient is truncated towards zero, and the remainder goes with it. */
  function Quotient(a: int, b: int): int
    requires b > 0
  {
    if a >= 0 then a / b else -(-a / b)
  }

  function Remainder(a: int, b: int): int
    requires b > 0
  {
    a - b * Quotient(a, b)
  }

  function QuotientBy(divisor: int): int -> int
    requires divisor > 0
  {
    a => Quotient(a, divisor)
  }

  function RemainderBy(divisor: int): int -> int
    requires divisor > 0
  {
    a => Remainder(a, divisor)
  }

  /** An instruction that applies a function to a signed register. */
  function Apply(d: Reg, s: Reg, f: int -> int): Item { Op(d, r => f(Signed(Get(r, s)))) }

  function DivFictive(d: Reg, s: Reg, divisor: int): Item
    requires divisor > 0
  {
    Apply(d, s, QuotientBy(divisor))
  }

  function ModFictive(d: Reg, s: Reg, divisor: int): Item
    requires divisor > 0
  {
    Apply(d, s, RemainderBy(divisor))
  }

  // ----- replacing -----

  function Written(code: seq<Item>): set<Reg> {
    set k: nat | k < |code| && code[k].Op? && code[k].d < 32 :: code[k].d
  }

  /** Registers that the old code writes and the new code does not are marked as clobbered. */
  function Clobbered(old': seq<Item>, new': seq<Item>): set<Reg> {
    Written(old') - Written(new')
  }

  /** Whatever the registers hold, the new code leaves in every register that is not clobbered what the old code does. */
  ghost predicate Replaces(new': seq<Item>, old': seq<Item>)
    requires Runnable(old') && Runnable(new')
  {
    forall r: seq<int>, k: Reg {:trigger Get(Run(old', r), k)} ::
      Wf(r) && k !in Clobbered(old', new') ==> Get(Run(old', r), k) == Get(Run(new', r), k)
  }

  // ----- division by powers of two -----

  lemma QuotientIs(a: int, p: nat)
    requires p > 0
    ensures Quotient(a, p) == if a >= 0 then a / p else (a + (p - 1)) / p
  {
    if a < 0 {
      var q, r := -a / p, -a % p;
      assert -a == q * p + r;
      assert a + (p - 1) == -q * p + (p - 1 - r);
      DivUnique(a + (p - 1), p, -q, p - 1 - r);
    }
  }

  lemma RemainderIs(a: int, p: nat)
    requires p > 0
    ensures Remainder(a, p) == if a >= 0 || a % p == 0 then a % p else a % p - p
  {
    var q, r := a / p, a % p;
    assert a == q * p + r;
    if a >= 0 {
      assert a - p * q == r;
    } else {
      QuotientIs(a, p);
      if r == 0 {
        DivUnique(a + (p - 1), p, q, p - 1);
        assert a - p * q == 0;
      } else {
        assert a + (p - 1) == (q + 1) * p + (r - 1);
        DivUnique(a + (p - 1), p, q + 1, r - 1);
        assert p * (q + 1) == p * q + p;
      }
    }
  }

  lemma LessMultiple(v: int, q: int, p: int, w: int)
    requires p > 0 && w == q * p
    ensures (v - w) % p == v % p
  {
    assert Neg(q) * p == -w;
    ModPlus(v, Neg(q), p);
  }

  /** The low bits of a word are those of the number it stands for. */
  lemma LowBits(v: int, k: nat)
    requires IsWord(v) && k <= 32
    ensures v % Pow2(k) == Signed(v) % Pow2(k)
  {
    var p, q := Pow2(k), Pow2(32 - k);
    assert WORD == q * p by {
      WordIsPow2();
      Pow2Adds(32 - k, k);
    }
    LessMultiple(v, q, p, WORD);
  }

  lemma PowerWithin(v: int) returns (k: nat)
    requires IsPow2(v) && v < 2 * WORD
    ensures v == Pow2(k) && k <= 32
  {
    WordIsPow2();
    k :| v == Pow2(k);
    if k > 32 {
      Pow2Divides(33, k);
    }
  }

  lemma PowerBound(k: nat)
    requires k <= 32
    ensures 0 < Pow2(k) <= WORD
  {
    WordIsPow2();
    Pow2Divides(k, 32);
  }

  /** The test that the patterns make for powers of two. */
  lemma PowerTest(v: int)
    requires v > 0
    ensures And(v, v - 1) == 0 <==> IsPow2(v)
  {
    if And(v, v - 1) == 0 {
      OneBit(v);
    }
    if IsPow2(v) {
      var k: nat :| v == Pow2(k);
      AndOnes(v, k);
      MultipleOf(1, Pow2(k));
    }
  }

  // ----- remainders -----

  function ModP2Listing1(o: Reg, i: Reg, n: int): seq<Item> {
    [Bgez(i, 5), Andi(o, i, n), Beqz(o, 5), Nop(), Addiu(o, o, -1 - n)]
  }

  lemma Low16(n: int)
    ensures And(n, 0xFFFF) == n % 0x1_0000
  {
    assert Pow2(8) == 256;
    assert Pow2(16) == 65536;
    AndOnes(n, 16);
  }

  function ModP2Value1(n: int): (val: int)
    ensures 0 < val
    ensures 0 <= n <= 0xFFFF ==> val == n + 1
  {
    Low16(n);
    And(n, 0xFFFF) + 1
  }

  function ModP2Replacement1(o: Reg, i: Reg, n: int): Option<seq<Item>> {
    var val := ModP2Value1(n);
    if And(val, val - 1) != 0 then None else Some([ModFictive(o, i, val)])
  }

  /** Masking a word computes `f`, up to one more than the mask for negative numbers. */
  ghost predicate ByMask(f: int -> int, mask: int) {
    forall v: int :: IsWord(v) ==>
      var m := And(v, mask); IsWord(m) && f(Signed(v)) == if v < HALF || m == 0 then m else m - (mask + 1)
  }

  lemma MaskedRemainder(k: nat)
    requires k <= 32
    ensures ByMask(RemainderBy(Pow2(k)), Pow2(k) - 1)
  {
    forall v: int | IsWord(v)
      ensures var m := And(v, Pow2(k) - 1);
        IsWord(m) && RemainderBy(Pow2(k))(Signed(v)) == if v < HALF || m == 0 then m else m - Pow2(k)
    {
      MaskedWord(v, k);
    }
  }

  lemma MaskedWord(v: int, k: nat)
    requires IsWord(v) && k <= 32
    ensures var m := And(v, Pow2(k) - 1);
      IsWord(m) && Remainder(Signed(v), Pow2(k)) == if v < HALF || m == 0 then m else m - Pow2(k)
  {
    PowerBound(k);
    AndOnes(v, k);
    LowBits(v, k);
    RemainderIs(Signed(v), Pow2(k));
  }

  lemma Single(item: Item, r: seq<int>)
    requires item.Op?
    ensures Exec([item], 0, r) == After(item, r)
  {
    assert Exec([item], 0, r) == Exec([item], 1, After(item, r));
  }

  lemma ModP2Finish1(o: Reg, i: Reg, n: int, r: seq<int>)
    requires Wf(r)
    ensures Exec(ModP2Listing1(o, i, n), 2, r) == if Get(r, o) == 0 then r else Set(r, o, Get(r, o) - (n + 1))
  {
    var code := ModP2Listing1(o, i, n);
    assert After(code[3], r) == r;
    if Get(r, o) == 0 {
      assert Exec(code, 2, r) == Exec(code, 5, r);
    } else {
      assert Exec(code, 2, r) == Exec(code, 4, r);
      assert Exec(code, 4, r) == Exec(code, 5, Set(r, o, Get(r, o) - (n + 1)));
    }
  }

  lemma SetTwice(r: seq<int>, o: Reg, m: int, f: int, n: int)
    requires Wf(r) && IsWord(m) && f == if m == 0 then m else m - (n + 1)
    ensures var t := Set(r, o, m); Set(r, o, f) == if Get(t, o) == 0 then t else Set(t, o, Get(t, o) - (n + 1))
  {
    if o != ZERO {
      assert Get(Set(r, o, m), o) == m;
    }
  }

  lemma ModP2Run1(o: Reg, i: Reg, n: int, r: seq<int>, f: int -> int)
    requires Wf(r) && ByMask(f, n)
    ensures Run(ModP2Listing1(o, i, n), r) == Set(r, o, f(Signed(Get(r, i))))
  {
    var code := ModP2Listing1(o, i, n);
    var v, m := Get(r, i), And(Get(r, i), n);
    var r1 := Set(r, o, m);
    assert After(code[1], r) == r1;
    if v < HALF {
      assert Exec(code, 0, r) == Exec(code, 5, r1);
    } else {
      assert Exec(code, 0, r) == Exec(code, 2, r1);
      ModP2Finish1(o, i, n, r1);
      SetTwice(r, o, m, f(Signed(v)), n);
    }
  }

  lemma ModP2ExactFor(o: Reg, i: Reg, n: int, f: int -> int)
    requires ByMask(f, n)
    ensures Replaces([Apply(o, i, f)], ModP2Listing1(o, i, n))
  {
    forall r: seq<int> | Wf(r)
      ensures Run(ModP2Listing1(o, i, n), r) == Run([Apply(o, i, f)], r)
    {
      ModP2Run1(o, i, n, r, f);
      Single(Apply(o, i, f), r);
    }
  }

  /** Remainder by a power of two: every replacement is exact, and there is one exactly for powers of two. */
  lemma ModP2Pattern1IsExact(o: Reg, i: Reg, n: int)
    requires n >= 0 && Fits16(-1 - n)
    ensures ModP2Replacement1(o, i, n).Some? <==> IsPow2(n + 1)
    ensures ModP2Replacement1(o, i, n).Some? ==> Replaces(ModP2Replacement1(o, i, n).value, ModP2Listing1(o, i, n))
  {
    var val := n + 1;
    assert ModP2Value1(n) == val;
    PowerTest(val);
    if IsPow2(val) {
      var k := PowerWithin(val);
      MaskedRemainder(k);
      ModP2ExactFor(o, i, n, RemainderBy(val));
    }
  }

  function ModP2Short(o: Reg, i: Reg, hi: int): (code: seq<Item>)
    ensures Runnable(code)
  {
    [Li(AT, hi), Bgez(i, 6), AndR(o, i, AT), Beqz(o, 6), Addiu(AT, AT, 1), Subu(o, o, AT)]
  }

  function ModP2Long(o: Reg, i: Reg, hi: int, lo: int): (code: seq<Item>)
    ensures Runnable(code)
  {
    [Li(AT, hi), Addiu(AT, AT, lo), Bgez(i, 7), AndR(o, i, AT), Beqz(o, 7), Addiu(AT, AT, 1), Subu(o, o, AT)]
  }

  /** The mask is put together from a high and, maybe, a low half. */
  function ModP2Listing2(o: Reg, i: Reg, hi: int, lo: Option<int>): (code: seq<Item>)
    ensures Runnable(code)
  {
    if lo.None? then ModP2Short(o, i, hi) else ModP2Long(o, i, hi, lo.value)
  }

  lemma Low32(n: int)
    ensures And(n, 0xFFFF_FFFF) == n % WORD
  {
    WordIsPow2();
    AndOnes(n, 32);
  }

  function LowHalf(lo: Option<int>): int {
    if lo.Some? then lo.value else 0
  }

  function ModP2Value2(hi: int, lo: Option<int>): (val: int)
    ensures lo.None? || Fits16(lo.value) ==> val == hi % WORD + 1 + LowHalf(lo)
  {
    Low32(hi);
    Low16(LowHalf(lo) + 0x8000);
    And(hi, 0xFFFF_FFFF) + 1 + if lo.Some? then And(lo.value + 0x8000, 0xFFFF) - 0x8000 else 0
  }

  function ModP2Replacement2(o: Reg, i: Reg, hi: int, lo: Option<int>): Option<seq<Item>> {
    var val := ModP2Value2(hi, lo);
    if val == 0 || And(val, val - 1) != 0 then None
    else
      NegativeTest(val);
      Some([ModFictive(o, i, val)])
  }

  /** No negative number passes the test for powers of two. */
  lemma {:induction false} NegativeTest(v: int)
    requires And(v, v - 1) == 0
    ensures v >= 0
    decreases Abs(v)
  {
    if v < -1 {
      if v % 2 == 1 {
        assert And(v, v - 1) == 2 * And(v / 2, v / 2);
        AndSelf(v / 2);
      } else {
        assert (v - 1) / 2 == v / 2 - 1;
        NegativeTest(v / 2);
      }
    }
  }

  /** What the sequence leaves, once the mask is in `$at`. */
  function ModP2Left2(o: Reg, i: Reg, r: seq<int>): seq<int> {
    ModP2LeftWith(o, i, r, And(Get(r, i), Get(r, AT)))
  }

  function ModP2LeftWith(o: Reg, i: Reg, r: seq<int>, m: int): seq<int> {
    var r1 := Set(r, o, m);
    var r2 := Set(r1, AT, Get(r1, AT) + 1);
    if Get(r, i) < HALF then r1
    else if Get(r1, o) == 0 then r2
    else Set(r2, o, Get(r2, o) - Get(r2, AT))
  }

  lemma ModP2Tail2(code: seq<Item>, at: nat, o: Reg, i: Reg, r: seq<int>)
    requires Runnable(code) && |code| == at + 5
    requires code[at] == Bgez(i, at + 5) && code[at + 1] == AndR(o, i, AT) && code[at + 2] == Beqz(o, at + 5)
    requires code[at + 3] == Addiu(AT, AT, 1) && code[at + 4] == Subu(o, o, AT)
    ensures Exec(code, at, r) == ModP2Left2(o, i, r)
  {
    var r1 := After(code[at + 1], r);
    var r2 := After(code[at + 3], r1);
    if Get(r, i) < HALF {
      assert Exec(code, at, r) == Exec(code, at + 5, r1);
    } else {
      assert Exec(code, at, r) == Exec(code, at + 2, r1);
      if Get(r1, o) == 0 {
        assert Exec(code, at + 2, r1) == Exec(code, at + 5, r2);
      } else {
        assert Exec(code, at + 2, r1) == Exec(code, at + 4, r2);
        assert Exec(code, at + 4, r2) == Exec(code, at + 5, After(code[at + 4], r2));
      }
    }
  }

  lemma OneOp(code: seq<Item>, r: seq<int>)
    requires Runnable(code) && |code| >= 1 && code[0].Op?
    ensures Exec(code, 0, r) == Exec(code, 1, After(code[0], r))
  {
  }

  lemma LoadMask(hi: int, r: seq<int>)
    ensures After(Li(AT, hi), r) == Set(r, AT, hi % WORD)
  {
  }

  lemma ModP2ShortRun(o: Reg, i: Reg, hi: int, r: seq<int>)
    requires Wf(r)
    ensures Exec(ModP2Short(o, i, hi), 0, r) == ModP2Left2(o, i, Set(r, AT, hi % WORD))
  {
    var code := ModP2Short(o, i, hi);
    OneOp(code, r);
    LoadMask(hi, r);
    ModP2Tail2(code, 1, o, i, Set(r, AT, hi % WORD));
  }

  lemma TwoOps(code: seq<Item>, r: seq<int>)
    requires Runnable(code) && |code| >= 2 && code[0].Op? && code[1].Op?
    ensures Exec(code, 0, r) == Exec(code, 2, After(code[1], After(code[0], r)))
  {
    assert Exec(code, 0, r) == Exec(code, 1, After(code[0], r));
  }

  lemma BuildMask(hi: int, lo: int, r: seq<int>)
    requires Wf(r)
    ensures After(Addiu(AT, AT, lo), After(Li(AT, hi), r)) == Set(r, AT, hi % WORD + lo)
  {
    var t := Set(r, AT, hi);
    assert Get(t, AT) == hi % WORD;
    assert Set(t, AT, hi % WORD + lo) == Set(r, AT, hi % WORD + lo);
  }

  lemma ModP2LongRun(o: Reg, i: Reg, hi: int, lo: int, r: seq<int>)
    requires Wf(r)
    ensures Exec(ModP2Long(o, i, hi, lo), 0, r) == ModP2Left2(o, i, Set(r, AT, hi % WORD + lo))
  {
    var code := ModP2Long(o, i, hi, lo);
    TwoOps(code, r);
    BuildMask(hi, lo, r);
    ModP2Tail2(code, 2, o, i, Set(r, AT, hi % WORD + lo));
  }

  /** Registers with which the sequence is not misled by its own use of `$at`. */
  predicate ModP2Operands(o: Reg, i: Reg, val: int) {
    if i == AT then val == 1 || o == ZERO else o != AT || i == ZERO
  }

  lemma ModP2LeavesWith(o: Reg, i: Reg, mask: int, r: seq<int>, m: int, f: int, k: Reg)
    requires Wf(r) && IsWord(mask) && IsWord(m) && f == if Get(r, i) < HALF || m == 0 then m else m - (mask + 1)
    requires i != AT && (o != AT || i == ZERO) && (k != AT || o == AT)
    ensures Get(ModP2LeftWith(o, i, Set(r, AT, mask), m), k) == Get(Set(r, o, f), k)
  {
    var s := Set(r, AT, mask);
    var r1 := Set(s, o, m);
    if o != AT && Get(r, i) >= HALF && o != ZERO {
      assert Get(r1, o) == m && Get(r1, AT) == mask;
      var r2 := Set(r1, AT, mask + 1);
      assert Get(r2, o) == m;
      assert (m - (mask + 1) % WORD) % WORD == (m - (mask + 1)) % WORD;
    }
  }

  lemma ModP2Leaves(o: Reg, i: Reg, mask: int, r: seq<int>, f: int -> int, k: Reg)
    requires Wf(r) && IsWord(mask) && ByMask(f, mask)
    requires i != AT && (o != AT || i == ZERO) && (k != AT || o == AT)
    ensures Get(ModP2Left2(o, i, Set(r, AT, mask)), k) == Get(Set(r, o, f(Signed(Get(r, i)))), k)
  {
    var s := Set(r, AT, mask);
    assert Get(s, i) == Get(r, i) && Get(s, AT) == mask;
    ModP2LeavesWith(o, i, mask, r, And(Get(r, i), mask), f(Signed(Get(r, i))), k);
  }

  /** `code` computes what the sequence for a mask computes. */
  ghost predicate ModP2Computes(code: seq<Item>, o: Reg, i: Reg, mask: int)
    requires Runnable(code)
  {
    && Written(code) == {AT, o}
    && forall r: seq<int> {:trigger Run(code, r)} :: Wf(r) ==> Run(code, r) == ModP2Left2(o, i, Set(r, AT, mask))
  }

  lemma NewRun(o: Reg, i: Reg, f: int -> int, r: seq<int>)
    ensures Run([Apply(o, i, f)], r) == Set(r, o, f(Signed(Get(r, i))))
    ensures Written([Apply(o, i, f)]) == {o}
  {
    var new' := [Apply(o, i, f)];
    Single(new'[0], r);
    assert new'[0].d == o;
  }

  ghost predicate LeavesOne(code: seq<Item>, o: Reg, i: Reg, f: int -> int)
    requires Runnable(code)
  {
    forall r: seq<int>, t: Reg {:trigger Get(Run(code, r), t)} :: Wf(r) && (t == o || t !in Written(code)) ==>
      Get(Run(code, r), t) == Get(Set(r, o, f(Signed(Get(r, i)))), t)
  }

  /** To replace code by one instruction that writes `o` it is enough to leave its result there and keep the rest. */
  lemma ReplacesByOne(code: seq<Item>, o: Reg, i: Reg, f: int -> int)
    requires Runnable(code)
    requires LeavesOne(code, o, i, f)
    ensures Replaces([Apply(o, i, f)], code)
  {
    var new' := [Apply(o, i, f)];
    forall r: seq<int>, t: Reg {:trigger Get(Run(code, r), t)} | Wf(r) && t !in Clobbered(code, new')
      ensures Get(Run(code, r), t) == Get(Run(new', r), t)
    {
      NewRun(o, i, f, r);
      assert t == o || t !in Written(code);
    }
  }

  lemma ModP2Holds(code: seq<Item>, o: Reg, i: Reg, mask: int, f: int -> int)
    requires Runnable(code) && ModP2Computes(code, o, i, mask) && IsWord(mask) && ByMask(f, mask)
    requires i != AT && (o != AT || i == ZERO)
    ensures Replaces([Apply(o, i, f)], code)
  {
    forall r: seq<int>, t: Reg {:trigger Get(Run(code, r), t)} | Wf(r) && (t == o || t !in Written(code))
      ensures Get(Run(code, r), t) == Get(Set(r, o, f(Signed(Get(r, i)))), t)
    {
      ModP2Leaves(o, i, mask, r, f, t);
    }
    ReplacesByOne(code, o, i, f);
  }

  function Holding(i: Reg, x: int): (r: seq<int>)
    requires i != ZERO && IsWord(x)
    ensures Wf(r) && Get(r, i) == x
  {
    seq(32, _ => 0)[i := x]
  }

  lemma LeftOnMask(o: Reg, s: seq<int>, mask: int)
    requires Wf(s) && Get(s, AT) == mask && o != ZERO && mask != 0
    ensures Get(ModP2LeftWith(o, AT, s, mask), o) == if mask < HALF then mask else if o == AT then 0 else WORD - 1
  {
    var r1 := Set(s, o, mask);
    var r2 := Set(r1, AT, mask + 1);
    WordItself(mask);
    assert Get(r1, o) == mask && Get(r1, AT) == mask;
    if mask >= HALF {
      assert ModP2LeftWith(o, AT, s, mask) == Set(r2, o, Get(r2, o) - Get(r2, AT));
      if o != AT {
        assert Get(r2, o) == mask;
        BelowZero(mask);
      }
    }
  }

  lemma BelowZero(x: int)
    ensures (x - (x + 1) % WORD) % WORD == WORD - 1
  {
  }

  /** One state in which the result differs refutes the replacement. */
  lemma Refutes(code: seq<Item>, o: Reg, i: Reg, f: int -> int, r: seq<int>)
    requires Runnable(code) && Wf(r) && o != ZERO && Get(Run(code, r), o) != f(Signed(Get(r, i))) % WORD
    ensures !Replaces([Apply(o, i, f)], code)
  {
    NewRun(o, i, f, r);
    assert Get(Run(code, r), o) != Get(Run([Apply(o, i, f)], r), o);
    assert o !in Clobbered(code, [Apply(o, i, f)]);
  }

  /** When the input is `$at`, it is overwritten by the mask. */
  lemma ModP2FailsOnMask(code: seq<Item>, o: Reg, mask: int, f: int -> int, r: seq<int>)
    requires Runnable(code) && ModP2Computes(code, o, AT, mask) && IsWord(mask) && And(mask, mask) == mask
    requires o != ZERO && mask != 0 && Wf(r)
    requires f(Signed(Get(r, AT))) == if mask < HALF then 0 else 1
    ensures !Replaces([Apply(o, AT, f)], code)
  {
    var s := Set(r, AT, mask);
    SetWord(r, AT, mask);
    LeftOnMask(o, s, mask);
    Refutes(code, o, AT, f, r);
  }

  lemma MaskOfZero(mask: int, f: int -> int)
    requires IsWord(mask) && ByMask(f, mask)
    ensures f(0) == 0
  {
    assert And(0, mask) == 0;
    assert f(Signed(0)) == 0;
  }

  lemma LeftOnResult(i: Reg, s: seq<int>, m: int)
    requires Wf(s) && i != AT && Get(s, i) == WORD - 1 && IsWord(m)
    ensures Get(ModP2LeftWith(AT, i, s, m), AT) == if m == 0 then 1 else 0
  {
    var r1 := Set(s, AT, m);
    assert Get(r1, AT) == m;
  }

  lemma MinusOne(x: int, mask: int, f: int -> int)
    requires x == WORD - 1 && IsWord(mask) && ByMask(f, mask)
    ensures IsWord(And(x, mask)) && f(Signed(x)) % WORD != if And(x, mask) == 0 then 1 else 0
  {
    var m := And(x, mask);
    AndShrinks(x, mask);
    assert f(Signed(x)) == if m == 0 then m else m - (mask + 1);
  }

  /** When the result is `$at`, the mask is overwritten by it. */
  lemma ModP2FailsOnResult(code: seq<Item>, i: Reg, x: int, mask: int, f: int -> int, r: seq<int>)
    requires Runnable(code) && ModP2Computes(code, AT, i, mask) && IsWord(mask)
    requires IsWord(And(x, mask)) && f(Signed(x)) % WORD != if And(x, mask) == 0 then 1 else 0
    requires x == WORD - 1 && i != AT && i != ZERO && Wf(r) && Get(r, i) == x
    ensures !Replaces([Apply(AT, i, f)], code)
  {
    var s := Set(r, AT, mask);
    SetWord(r, AT, mask);
    assert Get(s, i) == x;
    LeftOnResult(i, s, And(x, mask));
    Refutes(code, AT, i, f, r);
  }

  lemma ModP2Listed(o: Reg, i: Reg, hi: int, lo: Option<int>)
    ensures ModP2Computes(ModP2Listing2(o, i, hi, lo), o, i, hi % WORD + LowHalf(lo))
  {
    if lo.None? {
      ModP2ShortListed(o, i, hi);
    } else {
      ModP2LongListed(o, i, hi, lo.value);
    }
  }

  lemma ModP2ShortListed(o: Reg, i: Reg, hi: int)
    ensures ModP2Computes(ModP2Short(o, i, hi), o, i, hi % WORD)
  {
    var code := ModP2Short(o, i, hi);
    assert code[0].d == AT && code[2].d == o;
    forall r: seq<int> | Wf(r)
      ensures Run(code, r) == ModP2Left2(o, i, Set(r, AT, hi % WORD))
    {
      ModP2ShortRun(o, i, hi, r);
    }
  }

  lemma ModP2LongListed(o: Reg, i: Reg, hi: int, lo: int)
    ensures ModP2Computes(ModP2Long(o, i, hi, lo), o, i, hi % WORD + lo)
  {
    var code := ModP2Long(o, i, hi, lo);
    assert code[0].d == AT && code[3].d == o;
    forall r: seq<int> | Wf(r)
      ensures Run(code, r) == ModP2Left2(o, i, Set(r, AT, hi % WORD + lo))
    {
      ModP2LongRun(o, i, hi, lo, r);
    }
  }

  lemma ModP2Decides(code: seq<Item>, o: Reg, i: Reg, k: nat)
    requires Runnable(code) && k <= 32 && ModP2Computes(code, o, i, Pow2(k) - 1)
    ensures Replaces([ModFictive(o, i, Pow2(k))], code) <==> ModP2Operands(o, i, Pow2(k))
  {
    var mask, f := Pow2(k) - 1, RemainderBy(Pow2(k));
    PowerBound(k);
    MaskedRemainder(k);
    if i != AT && (o != AT || i == ZERO) {
      ModP2Holds(code, o, i, mask, f);
    } else if i != AT {
      var x: int :| x == WORD - 1;
      MinusOne(x, mask, f);
      ModP2FailsOnResult(code, i, x, mask, f, Holding(i, x));
    } else if o == ZERO {
      ModP2HoldsInZero(code, mask, f);
    } else if mask == 0 {
      forall v: int | IsWord(v)
        ensures f(Signed(v)) == 0
      {
        MaskedToZero(v, f);
      }
      ModP2HoldsOfZero(code, o, f);
    } else {
      RemainderOfOne(k);
      AndSelf(mask);
      MaskOfZero(mask, f);
      ModP2FailsOnMask(code, o, mask, f, Holding(AT, if mask < HALF then 0 else 1));
    }
  }

  lemma RemainderOfOne(k: nat)
    requires k > 0
    ensures Remainder(1, Pow2(k)) == 1
  {
    assert Pow2(k) == 2 * Pow2(k - 1);
    RemainderIs(1, Pow2(k));
    DivUnique(1, Pow2(k), 0, 1);
  }

  lemma LeftInZero(s: seq<int>, m: int, t: Reg)
    requires Wf(s) && t != AT
    ensures Get(ModP2LeftWith(ZERO, AT, s, m), t) == Get(s, t)
  {
  }

  lemma LeftOfZero(o: Reg, s: seq<int>)
    requires Wf(s) && Get(s, AT) == 0
    ensures ModP2Left2(o, AT, s) == Set(s, o, 0)
  {
    assert And(0, 0) == 0;
  }

  lemma ModP2HoldsInZero(code: seq<Item>, mask: int, f: int -> int)
    requires Runnable(code) && ModP2Computes(code, ZERO, AT, mask)
    ensures Replaces([Apply(ZERO, AT, f)], code)
  {
    forall r: seq<int>, t: Reg {:trigger Get(Run(code, r), t)} | Wf(r) && (t == ZERO || t !in Written(code))
      ensures Get(Run(code, r), t) == Get(Set(r, ZERO, f(Signed(Get(r, AT)))), t)
    {
      var s := Set(r, AT, mask);
      LeftInZero(s, And(Get(s, AT), Get(s, AT)), t);
    }
    ReplacesByOne(code, ZERO, AT, f);
  }

  lemma MaskedToZero(v: int, f: int -> int)
    requires IsWord(v) && ByMask(f, 0)
    ensures f(Signed(v)) == 0
  {
    AndZero(v);
    assert f(Signed(v)) == if v < HALF || And(v, 0) == 0 then And(v, 0) else And(v, 0) - 1;
  }

  lemma ModP2HoldsOfZero(code: seq<Item>, o: Reg, f: int -> int)
    requires Runnable(code) && ModP2Computes(code, o, AT, 0)
    requires forall v: int :: IsWord(v) ==> f(Signed(v)) == 0
    ensures Replaces([Apply(o, AT, f)], code)
  {
    forall r: seq<int>, t: Reg {:trigger Get(Run(code, r), t)} | Wf(r) && (t == o || t !in Written(code))
      ensures Get(Run(code, r), t) == Get(Set(r, o, f(Signed(Get(r, AT)))), t)
    {
      LeftOfZero(o, Set(r, AT, 0));
      assert f(Signed(Get(r, AT))) == 0;
    }
    ReplacesByOne(code, o, AT, f);
  }

  /**
   * Remainder by a power of two with a mask too large for an immediate: there is a replacement exactly for powers of two,
   * and it is exact if and only if the sequence's use of `$at` does not disturb its operands.
   */
  lemma ModP2Pattern2IsExact(o: Reg, i: Reg, hi: int, lo: Option<int>)
    requires lo.Some? ==> Fits16(lo.value)
    ensures var new' := ModP2Replacement2(o, i, hi, lo);
      && (new'.Some? <==> ModP2Value2(hi, lo) > 0 && IsPow2(ModP2Value2(hi, lo)))
      && (new'.Some? ==>
            (Replaces(new'.value, ModP2Listing2(o, i, hi, lo)) <==> ModP2Operands(o, i, ModP2Value2(hi, lo))))
  {
    var val := ModP2Value2(hi, lo);
    if val != 0 && And(val, val - 1) == 0 {
      NegativeTest(val);
      PowerTest(val);
      var k := PowerWithin(val);
      ModP2Listed(o, i, hi, lo);
      ModP2Decides(ModP2Listing2(o, i, hi, lo), o, i, k);
    } else if val > 0 {
      PowerTest(val);
    }
  }

  // ----- quotients -----

  /** `f` is the shift `g` of the number itself or, if it is negative, of the number plus `bias`. */
  ghost predicate ByShift(f: int -> int, g: int -> int, bias: int) {
    forall a: int :: -HALF <= a < HALF ==> f(a) == g(if a < 0 then a + bias else a)
  }

  lemma ShiftedQuotient(n: int)
    ensures ByShift(QuotientBy(Pow2(n % 32)), ShiftBy(n), Pow2(n % 32) - 1)
  {
    var p := Pow2(n % 32);
    forall a: int | -HALF <= a < HALF
      ensures QuotientBy(p)(a) == ShiftBy(n)(if a < 0 then a + (p - 1) else a)
    {
      QuotientIs(a, p);
    }
  }

  lemma BiasBound(n: int)
    ensures 0 <= Pow2(n % 32) - 1 < HALF
  {
    WordIsPow2();
    Pow2Divides(n % 32, 31);
  }

  /** Adding the bias to a negative number does not overflow. */
  lemma Biased(v: int, bias: int)
    requires IsWord(v) && v >= HALF && 0 <= bias <= HALF
    ensures Signed((v + bias) % WORD) == Signed(v) + bias
  {
  }

  function DivCode1(o: Reg, i: Reg, g: int -> int, bias: int): (code: seq<Item>)
    ensures Runnable(code)
  {
    [Bgez(i, 4), Apply(o, i, g), Addiu(AT, i, bias), Apply(o, AT, g)]
  }

  function DivLeft1(o: Reg, i: Reg, g: int -> int, bias: int, r: seq<int>): seq<int> {
    var r1 := Set(r, o, g(Signed(Get(r, i))));
    var r2 := Set(r1, AT, Get(r1, i) + bias);
    if Get(r, i) < HALF then r1 else Set(r2, o, g(Signed(Get(r2, AT))))
  }

  lemma DivRun1(o: Reg, i: Reg, g: int -> int, bias: int, r: seq<int>)
    ensures Run(DivCode1(o, i, g, bias), r) == DivLeft1(o, i, g, bias, r)
  {
    var code := DivCode1(o, i, g, bias);
    var r1 := After(code[1], r);
    var r2 := After(code[2], r1);
    if Get(r, i) < HALF {
      assert Exec(code, 0, r) == Exec(code, 4, r1);
    } else {
      assert Exec(code, 0, r) == Exec(code, 2, r1);
      assert Exec(code, 2, r1) == Exec(code, 3, r2);
      assert Exec(code, 3, r2) == Exec(code, 4, After(code[3], r2));
    }
  }

  lemma DivWritten1(o: Reg, i: Reg, g: int -> int, bias: int)
    ensures Written(DivCode1(o, i, g, bias)) == {o, AT}
  {
    var code := DivCode1(o, i, g, bias);
    assert code[1].d == o && code[2].d == AT;
  }

  lemma DivLeaves1(o: Reg, i: Reg, f: int -> int, g: int -> int, bias: int, r: seq<int>, t: Reg)
    requires Wf(r) && ByShift(f, g, bias) && 0 <= bias < HALF && (t == o || t != AT)
    requires o != i || o == ZERO || (bias == 0 && g(Signed(Get(r, i))) == Signed(Get(r, i)))
    ensures Get(DivLeft1(o, i, g, bias, r), t) == Get(Set(r, o, f(Signed(Get(r, i)))), t)
  {
    var v := Get(r, i);
    if v >= HALF {
      var r1 := Set(r, o, g(Signed(v)));
      assert Get(r1, i) == v;
      SetGets(r1, AT, v + bias);
      Biased(v, bias);
    }
  }

  lemma SetGets(r: seq<int>, d: Reg, v: int)
    requires Wf(r) && d != ZERO
    ensures Get(Set(r, d, v), d) == v % WORD
  {
  }

  lemma DivHolds1(o: Reg, i: Reg, f: int -> int, g: int -> int, bias: int)
    requires ByShift(f, g, bias) && 0 <= bias < HALF
    requires o != i || o == ZERO || (bias == 0 && forall a: int :: g(a) == a)
    ensures Replaces([Apply(o, i, f)], DivCode1(o, i, g, bias))
  {
    var code := DivCode1(o, i, g, bias);
    DivWritten1(o, i, g, bias);
    forall r: seq<int>, t: Reg {:trigger Get(Run(code, r), t)} | Wf(r) && (t == o || t !in Written(code))
      ensures Get(Run(code, r), t) == Get(Set(r, o, f(Signed(Get(r, i)))), t)
    {
      DivRun1(o, i, g, bias, r);
      DivLeaves1(o, i, f, g, bias, r, t);
    }
    ReplacesByOne(code, o, i, f);
  }

  /** If the result overwrites the input before the bias is added to it, minus the divisor becomes zero. */
  lemma DivFails1(o: Reg, f: int -> int, g: int -> int, bias: int, r: seq<int>)
    requires o != ZERO && 0 < bias < HALF && Wf(r) && Get(r, o) == WORD - 1 - bias
    requires g(-1 - bias) == -1 && g(bias - 1) == 0 && f(-1 - bias) == -1
    ensures !Replaces([Apply(o, o, f)], DivCode1(o, o, g, bias))
  {
    DivRun1(o, o, g, bias, r);
    var r1 := Set(r, o, -1);
    SetGets(r, o, -1);
    SetGets(r1, AT, WORD - 1 + bias);
    var r2 := Set(r1, AT, WORD - 1 + bias);
    SetGets(r2, o, 0);
    Refutes(DivCode1(o, o, g, bias), o, o, f, r);
  }

  lemma Low5(n: int)
    ensures And(n, 0x1F) == n % 32
  {
    assert Pow2(5) == 32;
    AndOnes(n, 5);
  }

  function DivP2Listing1(o: Reg, i: Reg, n: nat): (code: seq<Item>)
    ensures Runnable(code)
  {
    DivCode1(o, i, ShiftBy(n), Shl(1, n) - 1)
  }

  /** The divisor that a pattern reads off a shift amount. */
  function Divisor(n: int): (d: nat)
    ensures d == Pow2(n % 32) > 0
  {
    Low5(n);
    Pow2(And(n, 0x1F))
  }

  lemma QuotientsOf(p: int)
    requires p > 1
    ensures -p / p == -1 && (p - 2) / p == 0 && Quotient(-p, p) == -1
  {
    DivUnique(-p, p, -1, 0);
    DivUnique(p - 2, p, 0, p - 2);
    DivUnique(p, p, 1, 0);
  }

  lemma ShiftIsDivision(n: int, a: int, p: int)
    requires 0 <= n < 32 && p == Pow2(n)
    ensures ShiftBy(n)(a) == a / p
  {
    assert n % 32 == n;
  }

  lemma DivP2Fails(o: Reg, n: nat, p: int)
    requires 0 < n < 32 && p == Pow2(n) && o != ZERO
    ensures !Replaces([Apply(o, o, QuotientBy(p))], DivCode1(o, o, ShiftBy(n), p - 1))
  {
    assert n % 32 == n;
    BiasBound(n);
    assert p == 2 * Pow2(n - 1);
    QuotientsOf(p);
    ShiftIsDivision(n, -p, p);
    ShiftIsDivision(n, p - 2, p);
    DivFails1(o, QuotientBy(p), ShiftBy(n), p - 1, Holding(o, WORD - p));
  }

  lemma DivP2Holds(o: Reg, i: Reg, n: nat, p: int)
    requires n < 32 && p == Pow2(n) && (o != i || o == ZERO || n == 0)
    ensures Replaces([Apply(o, i, QuotientBy(p))], DivCode1(o, i, ShiftBy(n), p - 1))
  {
    assert n % 32 == n;
    BiasBound(n);
    ShiftedQuotient(n);
    DivHolds1(o, i, QuotientBy(p), ShiftBy(n), p - 1);
  }

  /** Division by a power of two is exact if and only if the result does not overwrite an input that is still needed. */
  lemma DivP2Pattern1IsExact(o: Reg, i: Reg, n: nat)
    requires n < 32
    ensures Replaces([DivFictive(o, i, Divisor(n))], DivP2Listing1(o, i, n)) <==> (o != i || o == ZERO || n == 0)
  {
    var p: int := Pow2(n);
    assert Divisor(n) == p && Shl(1, n) == p;
    if o != i || o == ZERO || n == 0 {
      DivP2Holds(o, i, n, p);
    } else {
      DivP2Fails(o, n, p);
    }
  }

  datatype Form = Moved | Padded | Likely

  /** The three forms in which compilers divide a register in place. */
  function DivCode2(form: Form, x: Reg, g: int -> int, bias: int): (code: seq<Item>)
    ensures Runnable(code)
  {
    match form
    case Moved => [Bgez(x, 3), Move(AT, x), Addiu(AT, x, bias), Apply(x, AT, g)]
    case Padded => [Bgez(x, 3), Nop(), Addiu(x, x, bias), Apply(x, x, g)]
    case Likely => [Bltzl(x, 2), Addiu(x, x, bias), Apply(x, x, g)]
  }

  lemma DivMoved(x: Reg, f: int -> int, g: int -> int, bias: int, r: seq<int>, t: Reg)
    requires Wf(r) && ByShift(f, g, bias) && 0 <= bias < HALF && (t == x || t != AT)
    ensures Get(Run(DivCode2(Moved, x, g, bias), r), t) == Get(Set(r, x, f(Signed(Get(r, x)))), t)
  {
    var code, v := DivCode2(Moved, x, g, bias), Get(r, x);
    var r1 := Set(r, AT, v);
    SetGets(r, AT, v);
    assert After(code[1], r) == r1 && Get(r1, x) == v && Get(r1, AT) == v;
    if v < HALF {
      assert Exec(code, 0, r) == Exec(code, 3, r1);
      assert Exec(code, 3, r1) == Exec(code, 4, Set(r1, x, g(Signed(v))));
    } else {
      var r2 := Set(r1, AT, v + bias);
      SetGets(r1, AT, v + bias);
      Biased(v, bias);
      assert Exec(code, 0, r) == Exec(code, 2, r1);
      assert Exec(code, 2, r1) == Exec(code, 3, r2);
      assert Exec(code, 3, r2) == Exec(code, 4, Set(r2, x, g(Signed(v) + bias)));
    }
  }

  lemma DivPadded(x: Reg, f: int -> int, g: int -> int, bias: int, r: seq<int>)
    requires Wf(r) && ByShift(f, g, bias) && 0 <= bias < HALF
    ensures Run(DivCode2(Padded, x, g, bias), r) == Set(r, x, f(Signed(Get(r, x))))
  {
    var code, v := DivCode2(Padded, x, g, bias), Get(r, x);
    assert After(code[1], r) == r;
    if v < HALF {
      assert Exec(code, 0, r) == Exec(code, 3, r);
      assert Exec(code, 3, r) == Exec(code, 4, Set(r, x, g(Signed(v))));
    } else {
      var r2 := Set(r, x, v + bias);
      SetGets(r, x, v + bias);
      Biased(v, bias);
      assert Exec(code, 0, r) == Exec(code, 2, r);
      assert Exec(code, 2, r) == Exec(code, 3, r2);
      assert Exec(code, 3, r2) == Exec(code, 4, Set(r2, x, g(Signed(v) + bias)));
    }
  }

  lemma DivLikely(x: Reg, f: int -> int, g: int -> int, bias: int, r: seq<int>)
    requires Wf(r) && ByShift(f, g, bias) && 0 <= bias < HALF
    ensures Run(DivCode2(Likely, x, g, bias), r) == Set(r, x, f(Signed(Get(r, x))))
  {
    var code, v := DivCode2(Likely, x, g, bias), Get(r, x);
    if v < HALF {
      assert Exec(code, 0, r) == Exec(code, 2, r);
      assert Exec(code, 2, r) == Exec(code, 3, Set(r, x, g(Signed(v))));
    } else {
      var r2 := Set(r, x, v + bias);
      SetGets(r, x, v + bias);
      Biased(v, bias);
      assert Exec(code, 0, r) == Exec(code, 2, r2);
      assert Exec(code, 2, r2) == Exec(code, 3, Set(r2, x, g(Signed(v) + bias)));
    }
  }

  lemma DivWritten2(form: Form, x: Reg, g: int -> int, bias: int)
    ensures x in Written(DivCode2(form, x, g, bias))
    ensures form == Moved ==> AT in Written(DivCode2(form, x, g, bias))
  {
    var code := DivCode2(form, x, g, bias);
    assert code[|code| - 1].d == x;
    assert form == Moved ==> code[1].d == AT;
  }

  lemma DivHolds2(form: Form, x: Reg, f: int -> int, g: int -> int, bias: int)
    requires ByShift(f, g, bias) && 0 <= bias < HALF
    ensures Replaces([Apply(x, x, f)], DivCode2(form, x, g, bias))
  {
    var code := DivCode2(form, x, g, bias);
    DivWritten2(form, x, g, bias);
    forall r: seq<int>, t: Reg {:trigger Get(Run(code, r), t)} | Wf(r) && (t == x || t !in Written(code))
      ensures Get(Run(code, r), t) == Get(Set(r, x, f(Signed(Get(r, x)))), t)
    {
      match form
      case Moved => DivMoved(x, f, g, bias, r, t);
      case Padded => DivPadded(x, f, g, bias, r);
      case Likely => DivLikely(x, f, g, bias, r);
    }
    ReplacesByOne(code, x, x, f);
  }

  function DivP2Listing2(form: Form, x: Reg, m: int, n: int): (code: seq<Item>)
    ensures Runnable(code)
  {
    DivCode2(form, x, ShiftBy(n), m)
  }

  function DivP2Replacement2(x: Reg, m: int, n: int): Option<seq<Item>> {
    if m != Divisor(n) - 1 then None else Some([DivFictive(x, x, Divisor(n))])
  }

  /** Dividing a register in place is always exact. */
  lemma DivP2Pattern2IsExact(form: Form, x: Reg, m: int, n: int)
    ensures DivP2Replacement2(x, m, n).Some? ==> Replaces(DivP2Replacement2(x, m, n).value, DivP2Listing2(form, x, m, n))
  {
    if m == Divisor(n) - 1 {
      ShiftedQuotient(n);
      BiasBound(n);
      DivHolds2(form, x, QuotientBy(Divisor(n)), ShiftBy(n), m);
    }
  }

  // ----- halves -----

  /** `h` gives the sign bit. */
  ghost predicate BySign(h: int -> int) {
    forall v: int :: IsWord(v) ==> h(v) == if v >= HALF then 1 else 0
  }

  lemma ShiftedSign()
    ensures BySign(ShiftBy(31))
  {
    WordIsPow2();
  }

  /** Adding the sign bit to a word makes its shift round towards zero. */
  lemma Rounded(v: int, f: int -> int, g: int -> int)
    requires IsWord(v) && ByShift(f, g, 1)
    ensures g(Signed((v + if v >= HALF then 1 else 0) % WORD)) == f(Signed(v))
  {
    if v >= HALF {
      Biased(v, 1);
    }
  }

  lemma ThreeOps(code: seq<Item>, r: seq<int>)
    requires |code| == 3 && code[0].Op? && code[1].Op? && code[2].Op?
    ensures Run(code, r) == After(code[2], After(code[1], After(code[0], r)))
  {
    TwoOps(code, r);
    var s := After(code[1], After(code[0], r));
    assert Exec(code, 2, s) == Exec(code, 3, After(code[2], s));
  }

  /** The sum goes to `t` or back to `i`. */
  function HalfCode(o: Reg, i: Reg, t: Reg, sum: Reg, h: int -> int, g: int -> int): (code: seq<Item>)
    ensures Runnable(code)
  {
    [ApplyUnsigned(t, i, h), Addu(sum, i, t), Apply(o, sum, g)]
  }

  lemma HalfRun(o: Reg, i: Reg, t: Reg, sum: Reg, h: int -> int, g: int -> int, r: seq<int>)
    ensures var code := HalfCode(o, i, t, sum, h, g);
      var r1 := Set(r, t, h(Get(r, i)));
      var r2 := Set(r1, sum, Get(r1, i) + Get(r1, t));
      Run(code, r) == Set(r2, o, g(Signed(Get(r2, sum))))
    ensures var code := HalfCode(o, i, t, sum, h, g); o in Written(code) && t in Written(code) && sum in Written(code)
  {
    var code := HalfCode(o, i, t, sum, h, g);
    ThreeOps(code, r);
    assert code[0].d == t && code[1].d == sum && code[2].d == o;
  }

  lemma HalfLeaves(o: Reg, i: Reg, t: Reg, sum: Reg, f: int -> int, g: int -> int, h: int -> int, r: seq<int>, k: Reg)
    requires Wf(r) && ByShift(f, g, 1) && BySign(h) && t != i && (sum == t || sum == i) && (t != ZERO || o == ZERO)
    requires k == o || (k != t && k != sum)
    ensures Get(Run(HalfCode(o, i, t, sum, h, g), r), k) == Get(Set(r, o, f(Signed(Get(r, i)))), k)
  {
    HalfRun(o, i, t, sum, h, g, r);
    var v := Get(r, i);
    var sign := if v >= HALF then 1 else 0;
    var r1 := Set(r, t, h(v));
    if t != ZERO {
      SetGets(r, t, sign);
      assert Get(r1, i) == v && Get(r1, t) == sign;
      Rounded(v, f, g);
      if sum != ZERO {
        SetGets(r1, sum, v + sign);
      }
    }
  }

  /** Without a register for the sign bit, halving rounds down. */
  lemma HalfFails(o: Reg, i: Reg, sum: Reg, f: int -> int, g: int -> int, h: int -> int, r: seq<int>)
    requires i != ZERO && o != ZERO && (sum == ZERO || sum == i) && Wf(r)
    requires sum == ZERO ==> Get(r, i) == 2 && g(0) == 0 && f(2) == 1
    requires sum == i ==> Get(r, i) == WORD - 1 && g(-1) == -1 && f(-1) == 0
    ensures !Replaces([Apply(o, i, f)], HalfCode(o, i, ZERO, sum, h, g))
  {
    HalfRun(o, i, ZERO, sum, h, g, r);
    if sum == i {
      SetGets(r, i, WORD - 1);
    }
    var r2 := Set(r, sum, Get(r, i));
    SetGets(r2, o, g(Signed(Get(r2, sum))));
    Refutes(HalfCode(o, i, ZERO, sum, h, g), o, i, f, r);
  }

  function HalfListing(o: Reg, i: Reg, t: Reg, sum: Reg): (code: seq<Item>)
    ensures Runnable(code)
  {
    HalfCode(o, i, t, sum, ShiftBy(31), ShiftBy(1))
  }

  lemma HalfValues()
    ensures ByShift(QuotientBy(2), ShiftBy(1), 1)
    ensures Quotient(2, 2) == 1 && Quotient(-1, 2) == 0
    ensures ShiftBy(1)(0) == 0 && ShiftBy(1)(-1) == -1 && ShiftBy(1)(2) == 1
  {
    assert Pow2(1) == 2;
    ShiftedQuotient(1);
  }

  function Div2S32Replacement(o: Reg, i: Reg, t: Reg): Option<seq<Item>> {
    if t == i then None else Some([DivFictive(o, i, 2)])
  }

  /** Halving a register: the sum is in the temporary (`sum == t`) or in the input (`sum == i`). */
  lemma Div2S32IsExact(o: Reg, i: Reg, t: Reg, sum: Reg)
    requires sum == t || sum == i
    ensures var new' := Div2S32Replacement(o, i, t);
      new'.Some? ==> (Replaces(new'.value, HalfListing(o, i, t, sum)) <==> t != ZERO || o == ZERO)
  {
    if t != i {
      HalvingIsExact(o, i, t, sum);
    }
  }

  lemma HalvingIsExact(o: Reg, i: Reg, t: Reg, sum: Reg)
    requires t != i && (sum == t || sum == i)
    ensures Replaces([DivFictive(o, i, 2)], HalfListing(o, i, t, sum)) <==> (t != ZERO || o == ZERO)
  {
    var code, f, g, h := HalfListing(o, i, t, sum), QuotientBy(2), ShiftBy(1), ShiftBy(31);
    HalfValues();
    ShiftedSign();
    if t != ZERO || o == ZERO {
      forall r: seq<int>, k: Reg {:trigger Get(Run(code, r), k)} | Wf(r) && (k == o || k !in Written(code))
        ensures Get(Run(code, r), k) == Get(Set(r, o, f(Signed(Get(r, i)))), k)
      {
        HalfRun(o, i, t, sum, h, g, r);
        HalfLeaves(o, i, t, sum, f, g, h, r, k);
      }
      ReplacesByOne(code, o, i, f);
    } else {
      HalfFails(o, i, sum, f, g, h, Holding(i, if sum == i then WORD - 1 else 2));
    }
  }

  // ----- halving a 16-bit number -----

  /** The instructions that extend the sign, which the replacement keeps. */
  function Extend(o: Reg, i: Reg, left: int -> int, right: int -> int, r: seq<int>): seq<int> {
    var r1 := Set(r, i, left(Get(r, i)));
    Set(r1, o, right(Signed(Get(r1, i))))
  }

  function ShortCode(o: Reg, i: Reg, left: int -> int, right: int -> int, g: int -> int, h: int -> int): (code: seq<Item>)
    ensures Runnable(code)
  {
    [ApplyUnsigned(i, i, left), Apply(o, i, right), ApplyUnsigned(i, i, h), Addu(o, o, i), Apply(o, o, g)]
  }

  function ShortReplacement(o: Reg, i: Reg, left: int -> int, right: int -> int, f: int -> int): (code: seq<Item>)
    ensures Runnable(code)
  {
    [ApplyUnsigned(i, i, left), Apply(o, i, right), Apply(o, o, f)]
  }

  lemma ShortRun(o: Reg, i: Reg, left: int -> int, right: int -> int, g: int -> int, h: int -> int, r: seq<int>)
    ensures var s := Extend(o, i, left, right, r);
      var r3 := Set(s, i, h(Get(s, i)));
      var r4 := Set(r3, o, Get(r3, o) + Get(r3, i));
      Run(ShortCode(o, i, left, right, g, h), r) == Set(r4, o, g(Signed(Get(r4, o))))
  {
    var code := ShortCode(o, i, left, right, g, h);
    TwoOps(code, r);
    var s := After(code[1], After(code[0], r));
    var r3 := After(code[2], s);
    var r4 := After(code[3], r3);
    assert Exec(code, 2, s) == Exec(code, 3, r3);
    assert Exec(code, 3, r3) == Exec(code, 4, r4);
    assert Exec(code, 4, r4) == Exec(code, 5, After(code[4], r4));
  }

  lemma ShortNewRun(o: Reg, i: Reg, left: int -> int, right: int -> int, f: int -> int, r: seq<int>)
    ensures var s := Extend(o, i, left, right, r);
      Run(ShortReplacement(o, i, left, right, f), r) == Set(s, o, f(Signed(Get(s, o))))
  {
    ThreeOps(ShortReplacement(o, i, left, right, f), r);
  }

  /** A shift that extends a sign keeps it. */
  ghost predicate KeepsSign(right: int -> int) {
    forall a: int :: -HALF <= a < HALF ==> -HALF <= right(a) < HALF && (right(a) < 0 <==> a < 0)
  }

  /** All registers but the input agree, when the result is another register. */
  lemma ShortAgrees(o: Reg, i: Reg, left: int -> int, right: int -> int, f: int -> int, g: int -> int, h: int -> int,
                    r: seq<int>, k: Reg)
    requires Wf(r) && ByShift(f, g, 1) && BySign(h) && KeepsSign(right) && o != i && k != i
    ensures Get(Run(ShortCode(o, i, left, right, g, h), r), k) == Get(Run(ShortReplacement(o, i, left, right, f), r), k)
  {
    ShortRun(o, i, left, right, g, h, r);
    ShortNewRun(o, i, left, right, f, r);
    var s := Extend(o, i, left, right, r);
    var r3 := Set(s, i, h(Get(s, i)));
    var r4 := Set(r3, o, Get(r3, o) + Get(r3, i));
    if k == o != ZERO {
      var w, v := Get(s, i), Get(s, o);
      ExtendedSign(o, i, left, right, r);
      assert Get(r3, o) == v;
      assert Get(r3, i) == if v >= HALF then 1 else 0;
      SetGets(r3, o, v + Get(r3, i));
      Rounded(v, f, g);
    }
  }

  lemma ExtendedSign(o: Reg, i: Reg, left: int -> int, right: int -> int, r: seq<int>)
    requires Wf(r) && KeepsSign(right) && o != i && o != ZERO
    ensures var s := Extend(o, i, left, right, r); Get(s, o) >= HALF <==> Get(s, i) >= HALF
  {
    var r1 := Set(r, i, left(Get(r, i)));
    var w := Get(r1, i);
    SetGets(r1, o, right(Signed(w)));
  }

  lemma ShortWritten(o: Reg, i: Reg, left: int -> int, right: int -> int, f: int -> int, g: int -> int, h: int -> int)
    ensures Clobbered(ShortCode(o, i, left, right, g, h), ShortReplacement(o, i, left, right, f)) == {}
    ensures Written(ShortCode(o, i, left, right, g, h)) == {o, i}
  {
    var old', new' := ShortCode(o, i, left, right, g, h), ShortReplacement(o, i, left, right, f);
    assert old'[0].d == i && old'[1].d == o;
    assert new'[0].d == i && new'[1].d == o;
    assert Written(old') == {o, i} && Written(new') == {o, i};
  }

  /** If the result overwrites the input, minus one is halved to one. */
  lemma ShortFailsInPlace(o: Reg, left: int -> int, right: int -> int, f: int -> int, g: int -> int, h: int -> int, r: seq<int>)
    requires o != ZERO && Wf(r) && BySign(h) && right(Signed(left(Get(r, o)) % WORD)) == -1
    requires f(-1) == 0 && g(2) == 1
    ensures Get(Run(ShortCode(o, o, left, right, g, h), r), o) != Get(Run(ShortReplacement(o, o, left, right, f), r), o)
  {
    ShortRun(o, o, left, right, g, h, r);
    ShortNewRun(o, o, left, right, f, r);
    var s := Extend(o, o, left, right, r);
    SetGets(r, o, left(Get(r, o)));
    assert Get(s, o) == WORD - 1;
    var r3 := Set(s, o, h(Get(s, o)));
    SetGets(s, o, 1);
    SetGets(r3, o, 2);
    var r4 := Set(r3, o, 2);
    SetGets(r4, o, 1);
    SetGets(s, o, 0);
  }

  /** The input itself ends up as a sign bit, where the replacement leaves it shifted. */
  lemma ShortChangesInput(o: Reg, i: Reg, left: int -> int, right: int -> int, f: int -> int, g: int -> int, h: int -> int,
                          r: seq<int>, w: int)
    requires i != ZERO && o != i && Wf(r) && BySign(h) && w == left(Get(r, i)) && IsWord(w)
    ensures Get(Run(ShortCode(o, i, left, right, g, h), r), i) == if w >= HALF then 1 else 0
    ensures Get(Run(ShortReplacement(o, i, left, right, f), r), i) == w
  {
    ShortRun(o, i, left, right, g, h, r);
    ShortNewRun(o, i, left, right, f, r);
    SetGets(r, i, w);
    var s := Extend(o, i, left, right, r);
    assert Get(s, i) == w;
    SetGets(s, i, h(w));
  }

  lemma FloorSign(a: int, p: int)
    requires -HALF <= a < HALF && p > 0
    ensures -HALF <= a / p < HALF && (a / p < 0 <==> a < 0)
  {
    var q, r := a / p, a % p;
    assert a == q * p + r;
    if q > 0 {
      assert q * p >= q by { MulAtLeast(p, q); }
    } else if q < 0 {
      assert Neg(q) * p >= Neg(q) by { MulAtLeast(p, Neg(q)); }
      assert q * p == -(Neg(q) * p);
      MulAtLeast(Neg(q), p);
    }
  }

  lemma ShiftKeepsSign(n: int)
    ensures KeepsSign(ShiftBy(n))
  {
    forall a: int | -HALF <= a < HALF
      ensures -HALF <= ShiftBy(n)(a) < HALF && (ShiftBy(n)(a) < 0 <==> a < 0)
    {
      FloorSign(a, Pow2(n % 32));
    }
  }

  /** Shifting minus one left and back. */
  lemma MinusOneExtended(n: int, x: int)
    requires x == WORD - 1
    ensures ShiftBy(n)(Signed(LeftBy(n)(x) % WORD)) == -1
  {
    var p: int := Pow2(n % 32);
    BiasBound(n);
    assert LeftBy(n)(x) == x * p;
    assert x * p == (p - 1) * WORD + (WORD - p);
    DivUnique(x * p, WORD, p - 1, WORD - p);
    assert Signed(WORD - p) == -p;
    DivUnique(-p, p, -1, 0);
  }

  function Div2S16Listing(o: Reg, i: Reg, n: int): (code: seq<Item>)
    ensures Runnable(code)
  {
    ShortCode(o, i, LeftBy(n), ShiftBy(n), ShiftBy(1), ShiftBy(31))
  }

  function Div2S16Replacement(o: Reg, i: Reg, n: int): (code: seq<Item>)
    ensures Runnable(code)
  {
    ShortReplacement(o, i, LeftBy(n), ShiftBy(n), QuotientBy(2))
  }

  ghost predicate AgreeIn(old': seq<Item>, new': seq<Item>, k: Reg)
    requires Runnable(old') && Runnable(new')
  {
    forall r: seq<int> {:trigger Run(old', r)} :: Wf(r) ==> Get(Run(old', r), k) == Get(Run(new', r), k)
  }

  lemma Div2S16Agrees(o: Reg, i: Reg, n: int, k: Reg)
    requires o != i && k != i
    ensures AgreeIn(Div2S16Listing(o, i, n), Div2S16Replacement(o, i, n), k)
  {
    var old', new' := Div2S16Listing(o, i, n), Div2S16Replacement(o, i, n);
    HalfValues();
    ShiftedSign();
    ShiftKeepsSign(n);
    forall r: seq<int> {:trigger Run(old', r)} | Wf(r)
      ensures Get(Run(old', r), k) == Get(Run(new', r), k)
    {
      ShortAgrees(o, i, LeftBy(n), ShiftBy(n), QuotientBy(2), ShiftBy(1), ShiftBy(31), r, k);
    }
  }

  /** Writing to the first register has no effect, so zero stays in it. */
  lemma Div2S16InZero(o: Reg, i: Reg, n: int)
    ensures AgreeIn(Div2S16Listing(o, i, n), Div2S16Replacement(o, i, n), ZERO)
  {
    var old', new' := Div2S16Listing(o, i, n), Div2S16Replacement(o, i, n);
    forall r: seq<int> {:trigger Run(old', r)} | Wf(r)
      ensures Get(Run(old', r), ZERO) == Get(Run(new', r), ZERO)
    {
      ShortRun(o, i, LeftBy(n), ShiftBy(n), ShiftBy(1), ShiftBy(31), r);
      ShortNewRun(o, i, LeftBy(n), ShiftBy(n), QuotientBy(2), r);
    }
  }

  lemma Div2S16FailsInPlace(o: Reg, n: int)
    requires o != ZERO
    ensures !AgreeIn(Div2S16Listing(o, o, n), Div2S16Replacement(o, o, n), o)
  {
    var old', new' := Div2S16Listing(o, o, n), Div2S16Replacement(o, o, n);
    HalfValues();
    ShiftedSign();
    var x: int :| x == WORD - 1;
    MinusOneExtended(n, x);
    var r := Holding(o, x);
    ShortFailsInPlace(o, LeftBy(n), ShiftBy(n), QuotientBy(2), ShiftBy(1), ShiftBy(31), r);
    assert Get(Run(old', r), o) != Get(Run(new', r), o);
  }

  /** Halving a 16-bit number leaves the right result if and only if the result does not overwrite the input. */
  lemma Div2S16ResultIsExact(o: Reg, i: Reg, n: int)
    ensures AgreeIn(Div2S16Listing(o, i, n), Div2S16Replacement(o, i, n), o) <==> (o != i || o == ZERO)
    ensures o != i ==> forall k: Reg :: k != i ==> AgreeIn(Div2S16Listing(o, i, n), Div2S16Replacement(o, i, n), k)
  {
    forall k: Reg | o != i && k != i
      ensures AgreeIn(Div2S16Listing(o, i, n), Div2S16Replacement(o, i, n), k)
    {
      Div2S16Agrees(o, i, n, k);
    }
    if o == ZERO {
      Div2S16InZero(o, i, n);
    } else if o == i {
      Div2S16FailsInPlace(o, n);
    }
  }

  lemma Div2S16ChangesInput(o: Reg, i: Reg, n: int)
    requires i != ZERO && o != i
    ensures !AgreeIn(Div2S16Listing(o, i, n), Div2S16Replacement(o, i, n), i)
  {
    var old', new' := Div2S16Listing(o, i, n), Div2S16Replacement(o, i, n);
    var r := Holding(i, 1);
    var w: int := Pow2(n % 32);
    BiasBound(n);
    ShiftedSign();
    assert LeftBy(n)(1) == w;
    ShortChangesInput(o, i, LeftBy(n), ShiftBy(n), QuotientBy(2), ShiftBy(1), ShiftBy(31), r, w);
    assert Get(Run(old', r), i) != Get(Run(new', r), i);
  }

  /**
   * The replacement shifts the input register and leaves it shifted, where the sequence leaves its sign bit. No register
   * is marked as clobbered, so the replacement is only exact as a whole for the register that is always zero.
   */
  lemma Div2S16LosesInput(o: Reg, i: Reg, n: int)
    ensures Replaces(Div2S16Replacement(o, i, n), Div2S16Listing(o, i, n)) <==> i == ZERO
  {
    var old', new' := Div2S16Listing(o, i, n), Div2S16Replacement(o, i, n);
    ShortWritten(o, i, LeftBy(n), ShiftBy(n), QuotientBy(2), ShiftBy(1), ShiftBy(31));
    Div2S16ResultIsExact(o, i, n);
    if i != ZERO {
      if o == i {
        assert !AgreeIn(old', new', o);
      } else {
        Div2S16ChangesInput(o, i, n);
      }
    } else {
      forall r: seq<int>, k: Reg {:trigger Get(Run(old', r), k)} | Wf(r)
        ensures Get(Run(old', r), k) == Get(Run(new', r), k)
      {
        Div2S16InZero(o, i, n);
        if o == i {
          ShortRun(o, i, LeftBy(n), ShiftBy(n), ShiftBy(1), ShiftBy(31), r);
          ShortNewRun(o, i, LeftBy(n), ShiftBy(n), QuotientBy(2), r);
        }
      }
    }
  }
}
