/** `fold_mul_chains` of m2c/evaluate.py: chains of `+`, `-`, `*` and `<<` become one multiplication. */
module MulChains {
  import opened Bits
  import opened PowersOfTwo
  import opened Expressions
  import opened Words

  /** No shift by a negative literal. */
  predicate WfShifts(e: Expr) {
    match e
    case Literal(_) => true
    case Variable(_) => true
    case EvalOnce(_, wrapped, _) => WfShifts(wrapped)
    case Unary(_, operand) => WfShifts(operand)
    case Binary(left, op, right) =>
      WfShifts(left) && WfShifts(right) && (op == ShiftLeft && right.Literal? ==> right.value >= 0)
  }

  datatype Product = Product(base: Expr, num: int)

  /** A base and a factor whose product the expression is. */
  function Fold(e: Expr, toplevel: bool, allowSll: bool, chains: bool): (p: Product)
    requires WfShifts(e)
    ensures WfShifts(p.base)
    decreases e
  {
    var scaled := e.Binary? && e.op in {ShiftLeft, Mul} && e.right.Literal?;
    var allowed := allowSll || chains;
    if scaled && e.op == ShiftLeft && allowed then
      var l := Fold(e.left, false, false, chains);
      var rhs := e.right.value;
      // At top level, keep left shifts other than small ones.
      if toplevel && l.num == 1 && !(1 <= rhs <= 4) then Product(e, 1) else Product(l.base, Shl(l.num, rhs))
    else if scaled && e.op == Mul && (allowed || e.right.value % 2 != 0) then
      var l := Fold(e.left, false, true, chains);
      Product(l.base, l.num * e.right.value)
    else
      var sum := FoldSum(e, toplevel, chains);
      if sum.num != 1 || sum.base != e then sum
      else if e.Unary? && e.unaryOp == Negate && !toplevel then
        var p := Fold(e.operand, false, true, chains);
        Product(p.base, -p.num)
      else
        var unwrapped := EarlyUnwrap(e);
        if unwrapped == e then Product(e, 1)
        else
          UnwrappedShifts(e);
          var p := Fold(unwrapped, false, allowSll, chains);
          if p.num != 1 then p else Product(e, 1)
  }

  /** A sum or difference of multiples of one base, at top level; otherwise the expression itself. */
  function FoldSum(e: Expr, toplevel: bool, chains: bool): (p: Product)
    requires WfShifts(e)
    ensures WfShifts(p.base)
    decreases e, 0
  {
    if e.Binary? && e.op in {Add, Sub} && toplevel then
      var l, r := Fold(e.left, false, true, chains), Fold(e.right, false, true, chains);
      if EarlyUnwrap(l.base) != EarlyUnwrap(r.base) then Product(e, 1)
      else if e.op == Add then Product(l.base, l.num + r.num)
      else Product(l.base, l.num - r.num)
    else Product(e, 1)
  }

  lemma {:induction false} UnwrappedShifts(e: Expr)
    requires WfShifts(e)
    ensures WfShifts(EarlyUnwrap(e))
    decreases e
  {
    if e.EvalOnce? && !e.forced {
      UnwrappedShifts(e.wrapped);
    }
  }

  function FoldMulChains(e: Expr, chains: bool): Expr
    requires WfShifts(e)
  {
    var p := Fold(e, true, true, chains);
    if p.num == 1 then e
    else if chains && p.num > 16 && And(p.num, p.num - 1) == 0 then Binary(p.base, ShiftLeft, Literal(BitLength(p.num) - 1))
    else Binary(p.base, Mul, Literal(p.num))
  }

  // ----- arithmetic modulo the word -----

  /** Reducing a factor first makes no difference. */
  lemma ModTimes(a: int, b: int, m: int)
    requires m > 0
    ensures (a % m * b) % m == (a * b) % m
  {
    var q := a / m;
    assert a == a % m + q * m;
    assert a * b == a % m * b + (q * b) * m;
    ModPlus(a % m * b, q * b, m);
  }

  lemma ModSum(a: int, b: int, c: int, m: int)
    requires m > 0 && (c == 1 || c == -1)
    ensures (a % m + c * (b % m)) % m == (a + c * b) % m
  {
    var p, q := a / m, b / m;
    assert a == a % m + p * m && b == b % m + q * m;
    assert a + c * b == a % m + c * (b % m) + (p + c * q) * m;
    ModPlus(a % m + c * (b % m), p + c * q, m);
  }

  /** `base * num` for a product that stands for an expression. */
  function Worth(p: Product, env: Env): int {
    (Value(p.base, env) * p.num) % WORD
  }

  lemma ScaledValue(v: int, num: int, factor: int, value: int)
    requires v == (value * num) % WORD
    ensures (v * factor) % WORD == (value * (num * factor)) % WORD
  {
    ModTimes(value * num, factor, WORD);
    assert value * num * factor == value * (num * factor);
  }

  lemma {:induction false} FoldKeepsValue(e: Expr, toplevel: bool, allowSll: bool, chains: bool, env: Env)
    requires WfShifts(e)
    ensures Worth(Fold(e, toplevel, allowSll, chains), env) == Value(e, env)
    decreases e, 1
  {
    Itself(e, env);
    var p := Fold(e, toplevel, allowSll, chains);
    if p == Product(e, 1) {
    } else if e.Binary? && e.op == ShiftLeft && e.right.Literal? {
      ShiftKeepsValue(e, chains, env);
    } else if e.Binary? && e.op == Mul && e.right.Literal? {
      TimesKeepsValue(e, chains, env);
    } else if e.Binary? && e.op in {Add, Sub} {
      SumKeepsValue(e, chains, env);
    } else if e.Unary? {
      FoldKeepsValue(e.operand, false, true, chains, env);
      var q := Fold(e.operand, false, true, chains);
      ScaledValue(Value(e.operand, env), q.num, -1, Value(q.base, env));
    } else if EarlyUnwrap(e) != e {
      UnwrappedShifts(e);
      FoldKeepsValue(EarlyUnwrap(e), false, allowSll, chains, env);
    }
  }

  lemma Itself(e: Expr, env: Env)
    ensures Worth(Product(e, 1), env) == Value(e, env)
  {
  }

  lemma {:induction false} ShiftKeepsValue(e: Expr, chains: bool, env: Env)
    requires WfShifts(e) && e.Binary? && e.op == ShiftLeft && e.right.Literal?
    ensures var l := Fold(e.left, false, false, chains); Worth(Product(l.base, Shl(l.num, e.right.value)), env) == Value(e, env)
    decreases e, 0
  {
    FoldKeepsValue(e.left, false, false, chains, env);
    var l := Fold(e.left, false, false, chains);
    ScaledValue(Value(e.left, env), l.num, Pow2(e.right.value), Value(l.base, env));
  }

  lemma {:induction false} TimesKeepsValue(e: Expr, chains: bool, env: Env)
    requires WfShifts(e) && e.Binary? && e.op == Mul && e.right.Literal?
    ensures var l := Fold(e.left, false, true, chains); Worth(Product(l.base, l.num * e.right.value), env) == Value(e, env)
    decreases e, 0
  {
    FoldKeepsValue(e.left, false, true, chains, env);
    var l, v := Fold(e.left, false, true, chains), Value(e.left, env);
    ScaledValue(v, l.num, e.right.value, Value(l.base, env));
    ModTimes(e.right.value, v, WORD);
    assert e.right.value % WORD * v == v * (e.right.value % WORD);
  }

  lemma CommonFactor(v: int, a: int, b: int, c: int)
    requires c == 1 || c == -1
    ensures ((v * a) % WORD + c * ((v * b) % WORD)) % WORD == (v * (a + c * b)) % WORD
  {
    ModSum(v * a, v * b, c, WORD);
    assert v * a + c * (v * b) == v * (a + c * b);
  }

  lemma {:induction false} SumKeepsValue(e: Expr, chains: bool, env: Env)
    requires WfShifts(e) && e.Binary? && e.op in {Add, Sub}
    ensures Worth(FoldSum(e, true, chains), env) == Value(e, env)
    decreases e, 0
  {
    Itself(e, env);
    var l, r := Fold(e.left, false, true, chains), Fold(e.right, false, true, chains);
    FoldKeepsValue(e.left, false, true, chains, env);
    FoldKeepsValue(e.right, false, true, chains, env);
    if EarlyUnwrap(l.base) == EarlyUnwrap(r.base) {
      var v := Value(EarlyUnwrap(l.base), env);
      assert Value(l.base, env) == v && Value(r.base, env) == v;
      var c := if e.op == Add then 1 else -1;
      CommonFactor(v, l.num, r.num, c);
    }
  }

  /** Folding keeps the value of every expression, modulo the word; `chains` only changes how it is written. */
  lemma FoldingKeepsValue(e: Expr, chains: bool, env: Env)
    requires WfShifts(e)
    ensures Value(FoldMulChains(e, chains), env) == Value(e, env)
  {
    FoldKeepsValue(e, true, true, chains, env);
    var p := Fold(e, true, true, chains);
    var v := Value(p.base, env);
    if p.num == 1 {
    } else if chains && p.num > 16 && And(p.num, p.num - 1) == 0 {
      OneBit(p.num);
    } else {
      ModTimes(p.num, v, WORD);
      assert p.num % WORD * v == v * (p.num % WORD);
    }
  }

  // ----- what is folded -----

  lemma VariableFolds(id: nat, allowSll: bool, chains: bool)
    ensures Fold(Variable(id), false, allowSll, chains) == Product(Variable(id), 1)
  {
    var x := Variable(id);
    assert FoldSum(x, false, chains) == Product(x, 1) && EarlyUnwrap(x) == x;
  }

  lemma ShiftFolds(id: nat, shift: nat, chains: bool)
    ensures var shifted := Binary(Variable(id), ShiftLeft, Literal(shift));
      && WfShifts(shifted)
      && Fold(shifted, false, true, chains) == Product(Variable(id), Pow2(shift))
      && Fold(shifted, false, false, chains) == (if chains then Product(Variable(id), Pow2(shift)) else Product(shifted, 1))
      && Fold(shifted, true, true, chains) == (if 1 <= shift <= 4 then Product(Variable(id), Pow2(shift)) else Product(shifted, 1))
  {
    var shifted := Binary(Variable(id), ShiftLeft, Literal(shift));
    VariableFolds(id, false, chains);
    assert Shl(1, shift) == Pow2(shift);
    assert FoldSum(shifted, false, chains) == Product(shifted, 1) && EarlyUnwrap(shifted) == shifted;
  }

  /** `(x << n) + x` and `(x << n) - x` become multiplications of `x`, unless the factor is one. */
  lemma ShiftAndAddFolds(id: nat, shift: nat, op: BinaryOperator)
    requires 1 <= shift && op in {Add, Sub}
    ensures var x := Variable(id);
      var e := Binary(Binary(x, ShiftLeft, Literal(shift)), op, x);
      var factor := if op == Add then Pow2(shift) + 1 else Pow2(shift) - 1;
      && Fold(e, true, true, false) == Product(x, factor)
      && FoldMulChains(e, false) == (if op == Sub && shift == 1 then e else Binary(x, Mul, Literal(factor)))
  {
    var x := Variable(id);
    var e := Binary(Binary(x, ShiftLeft, Literal(shift)), op, x);
    ShiftFolds(id, shift, false);
    VariableFolds(id, true, false);
    var factor := if op == Add then Pow2(shift) + 1 else Pow2(shift) - 1;
    assert FoldSum(e, true, false) == Product(x, factor);
    assert Pow2(shift) == 2 * Pow2(shift - 1);
    if shift > 1 {
      assert Pow2(shift - 1) == 2 * Pow2(shift - 2);
    }
  }

  /** A shift of a shift stays two shifts, unless the architecture builds large shifts from small ones. */
  lemma ShiftsFold(id: nat, shift: nat, outer: nat)
    ensures var shifted := Binary(Variable(id), ShiftLeft, Literal(shift));
      var twice := Binary(shifted, ShiftLeft, Literal(outer));
      && WfShifts(shifted) && WfShifts(twice)
      && Fold(twice, false, true, false) == Product(shifted, Pow2(outer))
      && Fold(twice, false, true, true) == Product(Variable(id), Pow2(shift + outer))
  {
    ShiftFolds(id, shift, false);
    ShiftFolds(id, shift, true);
    Pow2Adds(shift, outer);
    assert Shl(1, outer) == Pow2(outer) && Shl(Pow2(shift), outer) == Pow2(shift + outer);
  }
}
