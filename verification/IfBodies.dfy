/**
 * Statement bodies of m2c/if_statements.py: `rewrite_if_ands` moves comma statements out of
 * conditions into nested ifs, and `Body.add_if_else` lifts an else body out when the if body jumps.
 */
module IfBodies {
  import opened Wrappers
  import opened Conditions

  datatype Statement =
    | Simple(contents: Option<nat>, hasComments: bool, isJump: bool)
    | IfElse(condition: Cond, ifBody: Block, elseBody: Option<Block>)
    | Label(written: bool)
    | Compound(id: nat)  // a switch or a do-while loop

  datatype Block = Block(printNodeComment: bool, statements: seq<Statement>)

  datatype Exit = Falls | Jumps(target: nat)

  /** How tests come out, and what switches and loops do, given everything that ran before. */
  datatype World = World(test: Machine, compound: (History, nat) -> (History, Exit))

  function ExecStatement(s: Statement, w: World, h: History): (History, Exit)
    decreases s, 1
  {
    match s
    case Simple(None, _, _) => (h, Falls)
    case Simple(Some(c), _, isJump) => (h + [Ran(c)], if isJump then Jumps(c) else Falls)
    case Label(_) => (h, Falls)
    case Compound(id) => w.compound(h, id)
    case IfElse(condition, ifBody, elseBody) =>
      var (b, h') := Eval(condition, w.test, h);
      if b then Exec(ifBody.statements, w, h')
      else if elseBody.Some? then Exec(elseBody.value.statements, w, h')
      else (h', Falls)
  }

  /** Runs statements in order until one jumps. */
  function Exec(ss: seq<Statement>, w: World, h: History): (History, Exit)
    decreases ss, 0
  {
    if ss == [] then (h, Falls)
    else
      var (h', exit) := ExecStatement(ss[0], w, h);
      if exit.Jumps? then (h', exit) else Exec(ss[1..], w, h')
  }

  lemma {:induction false} ExecJoin(a: seq<Statement>, b: seq<Statement>, w: World, h: History)
    ensures Exec(a + b, w, h) == var (h', exit) := Exec(a, w, h); if exit.Jumps? then (h', exit) else Exec(b, w, h')
    decreases |a|
  {
    if a == [] {
      assert a + b == b;
    } else {
      var (h', exit) := ExecStatement(a[0], w, h);
      assert (a + b)[1..] == a[1..] + b;
      ExecJoin(a[1..], b, w, h');
    }
  }

  lemma ExecOne(s: Statement, w: World, h: History)
    ensures Exec([s], w, h) == ExecStatement(s, w, h)
  {
    assert [s][1..] == [];
  }

  /** Two statement lists that do the same in every world, from every history. */
  ghost predicate SameEffect(a: seq<Statement>, b: seq<Statement>) {
    forall w: World, h: History :: Exec(a, w, h) == Exec(b, w, h)
  }

  predicate ShouldWrite(s: Statement) {
    match s
    case Simple(contents, hasComments, _) => contents.Some? || hasComments
    case IfElse(_, _, _) => true
    case Label(written) => written
    case Compound(_) => true
  }

  /** A jump that is still written still has its text: only `clear` takes it, comments and all. */
  predicate JumpsIntact(ss: seq<Statement>) {
    forall i :: 0 <= i < |ss| && ss[i].Simple? && ss[i].isJump && ShouldWrite(ss[i]) ==> ss[i].contents.Some?
  }

  /** The last written statement is a jump. */
  predicate EndsInJump(ss: seq<Statement>)
    decreases |ss|
  {
    if ss == [] then false
    else
      var last := ss[|ss| - 1];
      if ShouldWrite(last) then last.Simple? && last.isJump else EndsInJump(ss[..|ss| - 1])
  }

  /** Statement `i` is a jump, it is written, and none after it is. */
  predicate JumpsLast(ss: seq<Statement>, i: nat) {
    && i < |ss| && ss[i].Simple? && ss[i].isJump && (ss[i].contents.Some? || ss[i].hasComments)
    && forall j :: i < j < |ss| ==> !ShouldWrite(ss[j])
  }

  /** The last statement that is written decides. */
  lemma {:induction false} EndsInJumpIs(ss: seq<Statement>)
    ensures EndsInJump(ss) <==> exists i: nat :: JumpsLast(ss, i)
    decreases |ss|
  {
    if ss != [] {
      var init, last := ss[..|ss| - 1], |ss| - 1;
      if ShouldWrite(ss[last]) {
        assert EndsInJump(ss) ==> JumpsLast(ss, last);
      } else {
        EndsInJumpIs(init);
        if i: nat :| JumpsLast(init, i) {
          assert JumpsLast(ss, i);
        }
        if i: nat :| JumpsLast(ss, i) {
          assert JumpsLast(init, i);
        }
      }
    }
  }

  /** A body that ends in a jump never falls through. */
  lemma {:induction false} EndsInJumpNeverFalls(ss: seq<Statement>, w: World, h: History)
    requires EndsInJump(ss) && JumpsIntact(ss)
    ensures Exec(ss, w, h).1.Jumps?
    decreases |ss|
  {
    var init, last := ss[..|ss| - 1], ss[|ss| - 1];
    assert ss == init + [last];
    ExecJoin(init, [last], w, h);
    ExecOne(last, w, Exec(init, w, h).0);
    if !ShouldWrite(last) {
      EndsInJumpNeverFalls(init, w, h);
    }
  }

  // ----- splitting a chain of && -----

  function Size(c: Cond): nat {
    match c
    case Test(_, _) => 1
    case Comma(_, condition) => 1 + Size(condition)
    case And(left, right) => 1 + Size(left) + Size(right)
    case Or(left, right) => 1 + Size(left) + Size(right)
  }

  /** `c` joined with `inner` from its last element on, left-heavy. */
  function Rejoin(c: Cond, inner: seq<Cond>): Cond
    decreases |inner|
  {
    if inner == [] then c else Rejoin(And(c, inner[|inner| - 1]), inner[..|inner| - 1])
  }

  /** Evaluates `inner` from its last element on, as long as the outcome is true. */
  function EvalRest(inner: seq<Cond>, m: Machine, h: History): (bool, History)
    decreases |inner|
  {
    if inner == [] then (true, h)
    else
      var (b, h') := Eval(inner[|inner| - 1], m, h);
      if b then EvalRest(inner[..|inner| - 1], m, h') else (false, h')
  }

  lemma {:induction false} RejoinEval(c: Cond, inner: seq<Cond>, m: Machine, h: History)
    ensures Eval(Rejoin(c, inner), m, h) == var (b, h') := Eval(c, m, h); if b then EvalRest(inner, m, h') else (false, h')
    decreases |inner|
  {
    if inner != [] {
      RejoinEval(And(c, inner[|inner| - 1]), inner[..|inner| - 1], m, h);
    }
  }

  lemma {:induction false} RejoinSize(c: Cond, d: Cond, inner: seq<Cond>)
    requires Size(c) < Size(d)
    ensures Size(Rejoin(c, inner)) < Size(Rejoin(d, inner))
    decreases |inner|
  {
    if inner != [] {
      RejoinSize(And(c, inner[|inner| - 1]), And(d, inner[|inner| - 1]), inner[..|inner| - 1]);
    }
  }

  lemma {:induction false} RejoinGrows(c: Cond, inner: seq<Cond>)
    ensures Size(c) <= Size(Rejoin(c, inner))
    decreases |inner|
  {
    if inner != [] { RejoinGrows(And(c, inner[|inner| - 1]), inner[..|inner| - 1]); }
  }

  /** No right operand along the left-nested `&&` chain is a comma condition. */
  predicate NoCommaOnRight(c: Cond) {
    c.And? ==> !c.right.Comma? && NoCommaOnRight(c.left)
  }

  lemma {:induction false} RejoinNoComma(c: Cond, inner: seq<Cond>)
    requires NoCommaOnRight(c) && forall i :: 0 <= i < |inner| ==> !inner[i].Comma?
    ensures NoCommaOnRight(Rejoin(c, inner))
    decreases |inner|
  {
    if inner != [] { RejoinNoComma(And(c, inner[|inner| - 1]), inner[..|inner| - 1]); }
  }

  function Plain(statements: seq<nat>): seq<Statement> {
    seq(|statements|, i requires 0 <= i < |statements| => Simple(Some(statements[i]), false, false))
  }

  lemma {:induction false} ExecPlain(statements: seq<nat>, w: World, h: History)
    ensures Exec(Plain(statements), w, h) == (RunAll(statements, h), Falls)
    decreases |statements|
  {
    var ss := Plain(statements);
    if statements != [] {
      var rest := statements[1..];
      assert ss[1..] == Plain(rest);
      var h' := h + [Ran(statements[0])];
      ExecPlain(rest, w, h');
      assert RunAll(rest, h') == RunAll(statements, h);
    } else {
      assert RunAll(statements, h) == h;
    }
  }

  /** Moving a comma condition, and what follows it, into an inner if. */
  lemma SplitAtComma(outer: Cond, statements: seq<nat>, condition: Cond, inner: seq<Cond>, body: Block, split: Block)
    requires SameEffect(Plain(statements) + [IfElse(Rejoin(condition, inner), body, None)], split.statements)
    ensures SameEffect([IfElse(Rejoin(And(outer, Comma(statements, condition)), inner), body, None)], [IfElse(outer, split, None)])
  {
    var before := IfElse(Rejoin(And(outer, Comma(statements, condition)), inner), body, None);
    var after := IfElse(outer, split, None);
    var nested := IfElse(Rejoin(condition, inner), body, None);
    forall w: World, h: History
      ensures Exec([before], w, h) == Exec([after], w, h)
    {
      ExecOne(before, w, h);
      ExecOne(after, w, h);
      RejoinEval(And(outer, Comma(statements, condition)), inner, w.test, h);
      var (b, h1) := Eval(outer, w.test, h);
      if b {
        var h2 := RunAll(statements, h1);
        RejoinEval(condition, inner, w.test, h2);
        ExecJoin(Plain(statements), [nested], w, h1);
        ExecPlain(statements, w, h1);
        ExecOne(nested, w, h2);
        assert Exec(split.statements, w, h1) == Exec(Plain(statements) + [nested], w, h1);
      }
    }
  }

  lemma SameEffectTransitive(a: seq<Statement>, b: seq<Statement>, c: seq<Statement>)
    requires SameEffect(a, b) && SameEffect(b, c)
    ensures SameEffect(a, c)
  {
  }

  /** Equal effects stay equal between the same statements. */
  lemma SameEffectAround(prefix: seq<Statement>, a: seq<Statement>, b: seq<Statement>, suffix: seq<Statement>)
    requires SameEffect(a, b)
    ensures SameEffect(prefix + a + suffix, prefix + b + suffix)
  {
    forall w: World, h: History
      ensures Exec(prefix + a + suffix, w, h) == Exec(prefix + b + suffix, w, h)
    {
      ExecJoin(prefix, a, w, h);
      ExecJoin(prefix, b, w, h);
      ExecJoin(prefix + a, suffix, w, h);
      ExecJoin(prefix + b, suffix, w, h);
      var h' := Exec(prefix, w, h).0;
      assert Exec(a, w, h') == Exec(b, w, h');
    }
  }

  /** After an if body that always jumps, the else body may as well follow the if. */
  lemma LiftElse(condition: Cond, ifBody: Block, elseBody: Block)
    requires EndsInJump(ifBody.statements) && JumpsIntact(ifBody.statements)
    ensures SameEffect([IfElse(condition, ifBody, Some(elseBody))], [IfElse(condition, ifBody, None)] + elseBody.statements)
  {
    var before, alone := IfElse(condition, ifBody, Some(elseBody)), IfElse(condition, ifBody, None);
    forall w: World, h: History
      ensures Exec([before], w, h) == Exec([alone] + elseBody.statements, w, h)
    {
      ExecOne(before, w, h);
      ExecOne(alone, w, h);
      ExecJoin([alone], elseBody.statements, w, h);
      var (b, h') := Eval(condition, w.test, h);
      if b {
        EndsInJumpNeverFalls(ifBody.statements, w, h');
      }
    }
  }

  /** The joining loop: takes the collected conditions from the end of the list. */
  method JoinInner(condition: Cond, innerConds: seq<Cond>) returns (joined: Cond)
    ensures joined == Rejoin(condition, innerConds)
  {
    joined := condition;
    var rest := innerConds;
    while rest != []
      invariant Rejoin(joined, rest) == Rejoin(condition, innerConds)
      decreases |rest|
    {
      joined, rest := And(joined, rest[|rest| - 1]), rest[..|rest| - 1];
    }
  }

  /** `if (condition) { if_body }` with comma conditions turned into nested ifs, for an if with no else. */
  method RewriteIfAnds(condition: Cond, ifBody: Block) returns (s: Statement)
    ensures s.IfElse? && s.elseBody.None? && NoCommaOnRight(s.condition)
    ensures SameEffect([IfElse(condition, ifBody, None)], [s])
    ensures NoCommaOnRight(condition) ==> s == IfElse(condition, ifBody, None)
    decreases Size(condition), 0
  {
    var current, body := condition, ifBody;
    var outerCond := condition;
    var innerConds: seq<Cond> := [];
    while outerCond.And?
      invariant current == Rejoin(outerCond, innerConds) && Size(current) <= Size(condition)
      invariant forall i :: 0 <= i < |innerConds| ==> !innerConds[i].Comma?
      invariant NoCommaOnRight(condition) ==> current == condition && body == ifBody && NoCommaOnRight(outerCond)
      invariant SameEffect([IfElse(condition, ifBody, None)], [IfElse(current, body, None)])
      decreases outerCond
    {
      var cond := outerCond.right;
      ghost var joined := outerCond;
      outerCond := outerCond.left;
      if !cond.Comma? {
        assert (innerConds + [cond])[..|innerConds|] == innerConds;
        innerConds := innerConds + [cond];
      } else {
        var innerCond := JoinInner(cond.condition, innerConds);
        RejoinSize(cond.condition, joined, innerConds);
        RejoinGrows(joined, innerConds);
        var newBody := new Body(body.printNodeComment);
        newBody.AddPlain(cond.statements);
        assert newBody.statements == Plain(cond.statements);
        newBody.AddIfElse(innerCond, body, None);
        SplitAtComma(outerCond, cond.statements, cond.condition, innerConds, body, newBody.Value());
        SameEffectTransitive([IfElse(condition, ifBody, None)], [IfElse(current, body, None)],
                             [IfElse(outerCond, newBody.Value(), None)]);
        body := newBody.Value();
        current, innerConds := outerCond, [];
      }
    }
    RejoinNoComma(outerCond, innerConds);
    s := IfElse(current, body, None);
  }

  class Body {
    var printNodeComment: bool
    var statements: seq<Statement>

    function Value(): Block
      reads this
    {
      Block(printNodeComment, statements)
    }

    constructor (printNodeComment: bool)
      ensures Value() == Block(printNodeComment, [])
    {
      this.printNodeComment, statements := printNodeComment, [];
    }

    method AddStatement(s: Statement)
      modifies this
      ensures Value() == Block(old(printNodeComment), old(statements) + [s])
    {
      statements := statements + [s];
    }

    method AddPlain(plain: seq<nat>)
      modifies this
      ensures Value() == Block(old(printNodeComment), old(statements) + Plain(plain))
    {
      for k := 0 to |plain|
        invariant Value() == Block(old(printNodeComment), old(statements) + Plain(plain[..k]))
      {
        AddStatement(Simple(Some(plain[k]), false, false));
        assert Plain(plain[..k + 1]) == Plain(plain[..k]) + [Simple(Some(plain[k]), false, false)];
      }
      assert plain[..|plain|] == plain;
    }

    method Extend(other: Block)
      modifies this
      ensures Value() == Block(old(printNodeComment) || other.printNodeComment, old(statements) + other.statements)
    {
      printNodeComment := printNodeComment || other.printNodeComment;
      statements := statements + other.statements;
    }

    /** Appends an if-else; the body does what it would have done with the if-else appended as it is. */
    method AddIfElse(condition: Cond, ifBody: Block, elseBody: Option<Block>)
      requires elseBody.Some? ==> JumpsIntact(ifBody.statements)
      modifies this
      ensures SameEffect(old(statements) + [IfElse(condition, ifBody, elseBody)], statements)
      ensures old(statements) < statements && statements[|old(statements)|].IfElse?
      ensures elseBody.None? || (exists i: nat :: JumpsLast(ifBody.statements, i)) ==>
        && statements[|old(statements)|].elseBody.None? && NoCommaOnRight(statements[|old(statements)|].condition)
        && statements[|old(statements)| + 1..] == if elseBody.Some? then elseBody.value.statements else []
      ensures elseBody.Some? && (forall i: nat :: !JumpsLast(ifBody.statements, i)) ==>
        statements == old(statements) + [IfElse(condition, ifBody, elseBody)]
      decreases Size(condition), 1
    {
      EndsInJumpIs(ifBody.statements);
      if elseBody.None? || EndsInJump(ifBody.statements) {
        var s := RewriteIfAnds(condition, ifBody);
        ghost var before := statements;
        ghost var alone := IfElse(condition, ifBody, None);
        statements := statements + [s];
        if elseBody.Some? {
          Extend(elseBody.value);
          Lifted(before, condition, ifBody, elseBody.value, s);
        } else {
          SameEffectAround(before, [alone], [s], []);
          assert before + [alone] + [] == before + [alone] && before + [s] + [] == before + [s];
        }
      } else {
        statements := statements + [IfElse(condition, ifBody, elseBody)];
      }
    }
  }

  lemma Lifted(before: seq<Statement>, condition: Cond, ifBody: Block, elseBody: Block, s: Statement)
    requires EndsInJump(ifBody.statements) && JumpsIntact(ifBody.statements)
    requires SameEffect([IfElse(condition, ifBody, None)], [s])
    ensures SameEffect(before + [IfElse(condition, ifBody, Some(elseBody))], before + [s] + elseBody.statements)
  {
    var whole, alone, tail := IfElse(condition, ifBody, Some(elseBody)), IfElse(condition, ifBody, None), elseBody.statements;
    LiftElse(condition, ifBody, elseBody);
    SameEffectAround(before, [whole], [alone] + tail, []);
    assert before + [whole] + [] == before + [whole];
    assert before + ([alone] + tail) + [] == before + [alone] + tail;
    SameEffectAround(before, [alone], [s], tail);
    SameEffectTransitive(before + [whole], before + [alone] + tail, before + [s] + tail);
  }
}
