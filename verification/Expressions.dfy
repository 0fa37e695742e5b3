/** Integer expressions of m2c/translate.py, and what they are worth on a 32-bit machine. */
module Expressions {
  import opened Bits
  import opened Words

  datatype BinaryOperator = Add | Sub | Mul | ShiftLeft | ShiftRight | AndBits | OrBits | OtherOperator(id: nat)

  datatype UnaryOperator = Negate | Invert | OtherUnary(id: nat)

  /**
   * `EvalOnce` is an expression with a temporary of its own; unless it is forced to be emitted, pattern
   * matching may look through it.
   */
  datatype Expr =
    | Literal(value: int)
    | Variable(id: nat)
    | EvalOnce(id: nat, wrapped: Expr, forced: bool)
    | Unary(unaryOp: UnaryOperator, operand: Expr)
    | Binary(left: Expr, op: BinaryOperator, right: Expr)

  /** The values of variables, and of operators that are not arithmetic. */
  datatype Env = Env(variable: nat -> int, unary: (nat, int) -> int, binary: (nat, int, int) -> int)

  /** The unsigned value of an expression, modulo the size of a word. */
  function Value(e: Expr, env: Env): (v: int)
    ensures 0 <= v < WORD
  {
    match e
    case Literal(value) => value % WORD
    case Variable(id) => env.variable(id) % WORD
    case EvalOnce(_, wrapped, _) => Value(wrapped, env)
    case Unary(op, operand) =>
      var v := Value(operand, env);
      (match op case Negate => -v case Invert => Not(v) case OtherUnary(id) => env.unary(id, v)) % WORD
    case Binary(left, op, right) =>
      // The amount of a shift by a literal is the literal itself.
      var l, r := Value(left, env),
                  if op in {ShiftLeft, ShiftRight} && right.Literal? && right.value >= 0 then right.value else Value(right, env);
      Operate(op, l, r, env) % WORD
  }

  function Operate(op: BinaryOperator, l: int, r: int, env: Env): int
    requires r >= 0
  {
    match op
    case Add => l + r
    case Sub => l - r
    case Mul => l * r
    case ShiftLeft => Shl(l, r)
    case ShiftRight => Shr(l, r)
    case AndBits => And(l, r)
    case OrBits => Or(l, r)
    case OtherOperator(id) => env.binary(id, l, r)
  }

  /** `early_unwrap`: looks through temporaries that need not be emitted. */
  function EarlyUnwrap(e: Expr): (r: Expr)
    ensures r == e || r < e
    ensures r.EvalOnce? ==> r.forced
    ensures !e.EvalOnce? || e.forced ==> r == e
    ensures forall env :: Value(r, env) == Value(e, env)
  {
    if e.EvalOnce? && !e.forced then EarlyUnwrap(e.wrapped) else e
  }
}
