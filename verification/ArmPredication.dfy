/**
 * `ConditionalInstrPattern` of m2c/arch_arm.py: a run of conditionally executed instructions
 * becomes an if/else of branches, and unrelated instructions in between move to the front or the
 * back. Meaning is preserved on every machine that honours the declared reads, writes, loads and
 * effects.
 */
module ArmPredication {
  import opened Wrappers

  // ----- condition codes -----

  datatype Cc = EQ | NE | CS | CC | MI | PL | VS | VC | HI | LS | GE | LT | GT | LE

  type Location = string

  function NegateCond(cc: Cc): Cc {
    match cc
    case EQ => NE
    case NE => EQ
    case CS => CC
    case CC => CS
    case MI => PL
    case PL => MI
    case VS => VC
    case VC => VS
    case HI => LS
    case LS => HI
    case GE => LT
    case LT => GE
    case GT => LE
    case LE => GT
  }

  /** The condition whose flag decides `cc`, and whether the flag is read negated. */
  function FactorCond(cc: Cc): (Cc, bool) {
    match cc
    case EQ => (EQ, false)
    case NE => (EQ, true)
    case CS => (CS, false)
    case CC => (CS, true)
    case MI => (MI, false)
    case PL => (MI, true)
    case VS => (VS, false)
    case VC => (VS, true)
    case HI => (HI, false)
    case LS => (HI, true)
    case GE => (GE, false)
    case LT => (GE, true)
    case GT => (GT, false)
    case LE => (GT, true)
  }

  /** The flag register of a condition; the negated conditions share it. */
  function FlagOf(cc: Cc): Location {
    match FactorCond(cc).0
    case EQ => "z"
    case CS => "c"
    case MI => "n"
    case VS => "v"
    case HI => "hi"
    case GE => "ge"
    case _ => "gt"
  }

  // ----- instructions and machines -----

  /** An instruction; `op` stands for its mnemonic without condition, and its arguments. */
  datatype Instr = Instr(op: nat, cc: Option<Cc>, uses: seq<Location>, outputs: seq<Location>, clobbers: seq<Location>,
                         isEffectful: bool, isLoad: bool, isJump: bool, isPlainBranch: bool)

  /** Declared inputs: a condition adds its flag. */
  function Inputs(i: Instr): set<Location> {
    (set l | l in i.uses) + (if i.cc.Some? then {FlagOf(i.cc.value)} else {})
  }

  function Writes(i: Instr): set<Location> {
    (set l | l in i.outputs) + (set l | l in i.clobbers)
  }

  datatype Event = Effect(op: nat, args: seq<int>)

  datatype State = State(regs: map<Location, int>, history: seq<Event>)

  function Read(s: State, l: Location): int {
    if l in s.regs then s.regs[l] else 0
  }

  function ReadAll(s: State, locs: seq<Location>): seq<int> {
    seq(|locs|, k requires 0 <= k < |locs| => Read(s, locs[k]))
  }

  /**
   * What an operation writes to a location, given the values it reads and, if it is a load or
   * effectful, everything that happened to memory before.
   */
  type Cpu = (nat, seq<int>, seq<Event>, Location) -> int

  datatype Outcome = Running(state: State) | Exited(state: State, op: nat, args: seq<int>)

  function Visible(i: Instr, s: State): seq<Event> {
    if i.isLoad || i.isEffectful then s.history else []
  }

  function After(i: Instr, cpu: Cpu, s: State): State {
    var args, seen := ReadAll(s, i.uses), Visible(i, s);
    State(map l | l in s.regs.Keys + Writes(i) :: if l in Writes(i) then cpu(i.op, args, seen, l) else s.regs[l],
          if i.isEffectful then s.history + [Effect(i.op, args)] else s.history)
  }

  predicate Holds(cc: Cc, s: State) {
    (Read(s, FlagOf(cc)) != 0) != FactorCond(cc).1
  }

  predicate Enabled(i: Instr, s: State) {
    i.cc.Some? ==> Holds(i.cc.value, s)
  }

  function Step(i: Instr, cpu: Cpu, s: State): Outcome {
    if !Enabled(i, s) then Running(s)
    else if i.isJump then Exited(After(i, cpu, s), i.op, ReadAll(s, i.uses))
    else Running(After(i, cpu, s))
  }

  function Exec(instrs: seq<Instr>, cpu: Cpu, s: State): Outcome {
    if instrs == [] then Running(s)
    else
      var o := Step(instrs[0], cpu, s);
      if o.Running? then Exec(instrs[1..], cpu, o.state) else o
  }

  lemma NegatedHolds(cc: Cc, s: State)
    ensures Holds(NegateCond(cc), s) == !Holds(cc, s)
    ensures FlagOf(NegateCond(cc)) == FlagOf(cc)
  {
  }

  lemma {:induction false} ExecJoin(a: seq<Instr>, b: seq<Instr>, cpu: Cpu, s: State)
    ensures Exec(a + b, cpu, s) == var o := Exec(a, cpu, s); if o.Running? then Exec(b, cpu, o.state) else o
    decreases |a|
  {
    if a == [] {
      assert a + b == b;
    } else {
      assert (a + b)[1..] == a[1..] + b;
      var o := Step(a[0], cpu, s);
      if o.Running? {
        ExecJoin(a[1..], b, cpu, o.state);
      }
    }
  }

  ghost predicate SameMeaning(a: seq<Instr>, b: seq<Instr>) {
    forall cpu: Cpu, s: State :: Exec(a, cpu, s) == Exec(b, cpu, s)
  }

  // ----- moving instructions past each other -----

  ghost predicate Summary(inputs: set<Location>, outputs: set<Location>, isEffectful: bool, hasLoad: bool, instrs: seq<Instr>) {
    && (forall l :: l in inputs <==> exists k :: 0 <= k < |instrs| && l in Inputs(instrs[k]))
    && (forall l :: l in outputs <==> exists k :: 0 <= k < |instrs| && l in Writes(instrs[k]))
    && (isEffectful <==> exists k :: 0 <= k < |instrs| && instrs[k].isEffectful)
    && (hasLoad <==> exists k :: 0 <= k < |instrs| && instrs[k].isLoad)
  }

  class InstructionEffects {
    var inputs: set<Location>
    var outputs: set<Location>
    var isEffectful: bool
    var hasLoad: bool

    constructor ()
      ensures inputs == {} && outputs == {} && !isEffectful && !hasLoad
      ensures Summarizes([])
    {
      inputs, outputs, isEffectful, hasLoad := {}, {}, false, false;
    }

    /** The fields are everything the instructions declare. */
    ghost predicate Summarizes(instrs: seq<Instr>)
      reads this
    {
      Summary(inputs, outputs, isEffectful, hasLoad, instrs)
    }

    function CanMoveBefore(i: Instr): (can: bool)
      reads this
    {
      && (Inputs(i) + Writes(i)) * outputs == {}
      && Writes(i) * inputs == {}
      && !(isEffectful && (i.isEffectful || i.isLoad))
      && !(hasLoad && i.isEffectful)
    }

    /** What may move before the summary is what may move before each instruction that it is of. */
    lemma Separates(i: Instr, instrs: seq<Instr>)
      requires Summarizes(instrs)
      ensures CanMoveBefore(i) <==> forall k :: 0 <= k < |instrs| ==> Independent(instrs[k], i)
    {
      if CanMoveBefore(i) {
        forall k | 0 <= k < |instrs|
          ensures Independent(instrs[k], i)
        {
          assert forall l :: l in Writes(instrs[k]) ==> l in outputs;
          assert forall l :: l in Inputs(instrs[k]) ==> l in inputs;
          assert forall l :: l in Writes(i) && l in inputs ==> l in Writes(i) * inputs;
          assert forall l :: l in Inputs(i) + Writes(i) && l in outputs ==> l in (Inputs(i) + Writes(i)) * outputs;
        }
      } else {
        Blocked(i, instrs);
      }
    }

    lemma Blocked(i: Instr, instrs: seq<Instr>)
      requires Summarizes(instrs) && !CanMoveBefore(i)
      ensures exists k :: 0 <= k < |instrs| && !Independent(instrs[k], i)
    {
      if l :| l in (Inputs(i) + Writes(i)) * outputs {
        var k :| 0 <= k < |instrs| && l in Writes(instrs[k]);
        assert !Independent(instrs[k], i);
      } else if l :| l in Writes(i) * inputs {
        var k :| 0 <= k < |instrs| && l in Inputs(instrs[k]);
        assert !Independent(instrs[k], i);
      } else if isEffectful && (i.isEffectful || i.isLoad) {
        var k :| 0 <= k < |instrs| && instrs[k].isEffectful;
        assert !Independent(instrs[k], i);
      } else {
        var k :| 0 <= k < |instrs| && instrs[k].isLoad;
        assert !Independent(instrs[k], i);
      }
    }

    method Add(i: Instr)
      modifies this
      ensures inputs == old(inputs) + Inputs(i) && outputs == old(outputs) + Writes(i)
      ensures isEffectful == (old(isEffectful) || i.isEffectful) && hasLoad == (old(hasLoad) || i.isLoad)
      ensures forall instrs :: old(Summarizes(instrs)) ==> Summarizes(instrs + [i])
    {
      outputs := outputs + Writes(i);
      inputs := inputs + Inputs(i);
      if i.isEffectful {
        isEffectful := true;
      }
      if i.isLoad {
        hasLoad := true;
      }
      forall instrs | old(Summarizes(instrs))
        ensures Summarizes(instrs + [i])
      {
        SummaryOfMore(old(inputs), old(outputs), old(isEffectful), old(hasLoad), instrs, i);
      }
    }
  }

  lemma SummaryOfMore(inputs: set<Location>, outputs: set<Location>, isEffectful: bool, hasLoad: bool, instrs: seq<Instr>, i: Instr)
    requires Summary(inputs, outputs, isEffectful, hasLoad, instrs)
    ensures Summary(inputs + Inputs(i), outputs + Writes(i), isEffectful || i.isEffectful, hasLoad || i.isLoad, instrs + [i])
  {
    var more := instrs + [i];
    assert more[|instrs|] == i && forall k :: 0 <= k < |instrs| ==> more[k] == instrs[k];
  }

  /** `b` may be swapped with `a`, which runs before it. */
  predicate Independent(a: Instr, b: Instr) {
    && (Inputs(b) + Writes(b)) !! Writes(a) && Writes(b) !! Inputs(a)
    && !(a.isEffectful && (b.isEffectful || b.isLoad)) && !(a.isLoad && b.isEffectful)
  }

  /** An independent instruction does not change what another one reads. */
  lemma Unaffected(a: Instr, b: Instr, cpu: Cpu, s: State)
    requires Writes(a) !! Inputs(b) && !(a.isEffectful && (b.isEffectful || b.isLoad))
    ensures var t := After(a, cpu, s);
      Enabled(b, t) == Enabled(b, s) && ReadAll(t, b.uses) == ReadAll(s, b.uses) && Visible(b, t) == Visible(b, s)
  {
    var t := After(a, cpu, s);
    forall l | l in Inputs(b)
      ensures Read(t, l) == Read(s, l)
    {
      assert l !in Writes(a);
    }
    assert forall k :: 0 <= k < |b.uses| ==> b.uses[k] in Inputs(b);
  }

  lemma Commute(a: Instr, b: Instr, cpu: Cpu, s: State)
    requires Independent(a, b)
    ensures After(b, cpu, After(a, cpu, s)) == After(a, cpu, After(b, cpu, s))
  {
    Unaffected(a, b, cpu, s);
    Unaffected(b, a, cpu, s);
    var x, y := After(b, cpu, After(a, cpu, s)), After(a, cpu, After(b, cpu, s));
    assert x.regs.Keys == y.regs.Keys;
    forall l | l in x.regs
      ensures x.regs[l] == y.regs[l]
    {
    }
    assert x.regs == y.regs;
  }

  lemma Swap(a: Instr, b: Instr, cpu: Cpu, s: State)
    requires Independent(a, b) && !a.isJump && !b.isJump
    ensures Exec([a, b], cpu, s) == Exec([b, a], cpu, s)
  {
    ExecTwo(a, b, cpu, s);
    ExecTwo(b, a, cpu, s);
    Unaffected(a, b, cpu, s);
    Unaffected(b, a, cpu, s);
    if Enabled(a, s) && Enabled(b, s) {
      Commute(a, b, cpu, s);
    }
  }

  lemma ExecTwo(a: Instr, b: Instr, cpu: Cpu, s: State)
    requires !a.isJump
    ensures Exec([a, b], cpu, s) == Step(b, cpu, Step(a, cpu, s).state)
  {
    assert [a, b][1..] == [b];
    ExecOne(b, cpu, Step(a, cpu, s).state);
  }

  lemma ExecOne(a: Instr, cpu: Cpu, s: State)
    ensures Exec([a], cpu, s) == Step(a, cpu, s)
  {
    assert [a][1..] == [];
  }

  /** An instruction independent of a list moves from behind it to the front of it. */
  lemma {:induction false} MoveToFront(list: seq<Instr>, x: Instr, cpu: Cpu, s: State)
    requires !x.isJump && forall k :: 0 <= k < |list| ==> !list[k].isJump && Independent(list[k], x)
    ensures Exec(list + [x], cpu, s) == Exec([x] + list, cpu, s)
    decreases |list|
  {
    if list == [] {
      assert list + [x] == [x] + list;
    } else {
      var a, rest := list[0], list[1..];
      var t := Step(a, cpu, s).state;
      assert (list + [x])[1..] == rest + [x];
      MoveToFront(rest, x, cpu, t);
      assert ([a, x] + rest) == [a] + ([x] + rest) && [x, a] + rest == [x] + list;
      ExecJoin([a], [x] + rest, cpu, s);
      assert Exec([a], cpu, s) == Running(t) by { assert [a][1..] == []; }
      ExecJoin([a, x], rest, cpu, s);
      ExecJoin([x, a], rest, cpu, s);
      Swap(a, x, cpu, s);
    }
  }

  // ----- the replacement: a little program with forward branches -----

  datatype Label = Else | End

  datatype Item = Op(instr: Instr) | BranchIf(cc: Cc, target: Label) | Branch(target: Label) | LabelDef(name: Label)

  /** What follows the first definition of `wanted`. */
  function AfterLabel(items: seq<Item>, wanted: Label): (r: seq<Item>)
    ensures |r| <= |items|
  {
    if items == [] then [] else if items[0] == LabelDef(wanted) then items[1..] else AfterLabel(items[1..], wanted)
  }

  function Run(items: seq<Item>, cpu: Cpu, s: State): Outcome
    decreases |items|
  {
    if items == [] then Running(s)
    else match items[0]
         case Op(i) => var o := Step(i, cpu, s); if o.Running? then Run(items[1..], cpu, o.state) else o
         case BranchIf(cc, target) => Run(if Holds(cc, s) then AfterLabel(items[1..], target) else items[1..], cpu, s)
         case Branch(target) => Run(AfterLabel(items[1..], target), cpu, s)
         case LabelDef(_) => Run(items[1..], cpu, s)
  }

  function Ops(instrs: seq<Instr>): seq<Item> {
    seq(|instrs|, k requires 0 <= k < |instrs| => Op(instrs[k]))
  }

  lemma {:induction false} RunOps(instrs: seq<Instr>, rest: seq<Item>, cpu: Cpu, s: State)
    ensures Run(Ops(instrs) + rest, cpu, s) == var o := Exec(instrs, cpu, s); if o.Running? then Run(rest, cpu, o.state) else o
    decreases |instrs|
  {
    var items := Ops(instrs) + rest;
    if instrs == [] {
      assert items == rest;
    } else {
      assert items[0] == Op(instrs[0]);
      assert items[1..] == Ops(instrs[1..]) + rest;
      var o := Step(instrs[0], cpu, s);
      if o.Running? {
        RunOps(instrs[1..], rest, cpu, o.state);
      }
    }
  }

  lemma {:induction false} LabelAfterOps(instrs: seq<Instr>, rest: seq<Item>, wanted: Label)
    ensures AfterLabel(Ops(instrs) + rest, wanted) == AfterLabel(rest, wanted)
    decreases |instrs|
  {
    var items := Ops(instrs) + rest;
    if instrs == [] {
      assert items == rest;
    } else {
      assert items[0] == Op(instrs[0]);
      assert items[1..] == Ops(instrs[1..]) + rest;
      LabelAfterOps(instrs[1..], rest, wanted);
    }
  }

  // ----- the if part, with its re-checks of the flag -----

  /** How the if part ends: at its end, by a re-check that jumps to the else part, or by a jump. */
  datatype IfOutcome = Completed(state: State) | Bailed(state: State) | Left(outcome: Outcome)

  function RunIf(ifs: seq<Item>, cpu: Cpu, s: State): (r: IfOutcome)
    ensures r.Left? ==> r.outcome.Exited?
    decreases |ifs|
  {
    if ifs == [] then Completed(s)
    else match ifs[0]
         case Op(i) => var o := Step(i, cpu, s); if o.Running? then RunIf(ifs[1..], cpu, o.state) else Left(o)
         case BranchIf(cc, _) => if Holds(cc, s) then Bailed(s) else RunIf(ifs[1..], cpu, s)
         case _ => Completed(s)
  }

  /** The if part holds instructions and branches to the else label. */
  predicate IfItems(ifs: seq<Item>) {
    forall k :: 0 <= k < |ifs| ==> ifs[k].Op? || (ifs[k].BranchIf? && ifs[k].target == Else)
  }

  lemma {:induction false} RunIfJoin(ifs: seq<Item>, more: seq<Item>, cpu: Cpu, s: State)
    requires IfItems(ifs)
    ensures RunIf(ifs + more, cpu, s) == var o := RunIf(ifs, cpu, s); if o.Completed? then RunIf(more, cpu, o.state) else o
    decreases |ifs|
  {
    if ifs == [] {
      assert ifs + more == more;
    } else {
      assert (ifs + more)[1..] == ifs[1..] + more;
      match ifs[0] {
        case Op(i) =>
          var o := Step(i, cpu, s);
          if o.Running? { RunIfJoin(ifs[1..], more, cpu, o.state); }
        case BranchIf(cc, _) => RunIfJoin(ifs[1..], more, cpu, s);
      }
    }
  }

  lemma {:induction false} LabelAfterIf(ifs: seq<Item>, rest: seq<Item>, wanted: Label)
    requires IfItems(ifs)
    ensures AfterLabel(ifs + rest, wanted) == AfterLabel(rest, wanted)
    decreases |ifs|
  {
    if ifs == [] {
      assert ifs + rest == rest;
    } else {
      assert (ifs + rest)[1..] == ifs[1..] + rest;
      LabelAfterIf(ifs[1..], rest, wanted);
    }
  }

  lemma {:induction false} RunIfItems(ifs: seq<Item>, rest: seq<Item>, cpu: Cpu, s: State)
    requires IfItems(ifs)
    ensures Run(ifs + rest, cpu, s) ==
      var o := RunIf(ifs, cpu, s);
      if o.Completed? then Run(rest, cpu, o.state)
      else if o.Bailed? then Run(AfterLabel(rest, Else), cpu, o.state)
      else o.outcome
    decreases |ifs|
  {
    if ifs == [] {
      assert ifs + rest == rest;
    } else {
      assert (ifs + rest)[1..] == ifs[1..] + rest;
      match ifs[0] {
        case Op(i) =>
          var o := Step(i, cpu, s);
          if o.Running? { RunIfItems(ifs[1..], rest, cpu, o.state); }
        case BranchIf(cc, _) =>
          LabelAfterIf(ifs[1..], rest, Else);
          RunIfItems(ifs[1..], rest, cpu, s);
      }
    }
  }

  /** What the branches make of one state: the if part where the condition holds, the else part otherwise. */
  function RunBranches(matched: Cc, ifs: seq<Item>, elses: seq<Instr>, cpu: Cpu, s: State): Outcome {
    if !Holds(matched, s) then Exec(elses, cpu, s)
    else
      var o := RunIf(ifs, cpu, s);
      if o.Completed? then Running(o.state)
      else if o.Bailed? then Exec(elses, cpu, o.state)
      else o.outcome
  }

  /** The conditional part of the replacement, in the two forms the source builds. */
  function BranchForm(matched: Cc, ifs: seq<Item>, elses: seq<Instr>): seq<Item> {
    if elses != [] then
      [BranchIf(NegateCond(matched), Else)] + ifs + [Branch(End), LabelDef(Else)] + Ops(elses) + [LabelDef(End)]
    else
      [BranchIf(NegateCond(matched), Else)] + ifs + [LabelDef(Else)]
  }

  /** What follows the if part. */
  function Middle(elses: seq<Instr>, after: seq<Instr>): seq<Item> {
    (if elses != [] then [Branch(End), LabelDef(Else)] else [LabelDef(Else)]) + Tail(elses, after)
  }

  lemma FormSplits(matched: Cc, ifs: seq<Item>, elses: seq<Instr>, after: seq<Instr>)
    ensures BranchForm(matched, ifs, elses) + Ops(after) == [BranchIf(NegateCond(matched), Else)] + (ifs + Middle(elses, after))
  {
    var first := [BranchIf(NegateCond(matched), Else)];
    if elses != [] {
      var a, b, c, d := [Branch(End), LabelDef(Else)], Ops(elses), [LabelDef(End)], Ops(after);
      assert first + ifs + a + b + c + d == first + (ifs + (a + (b + (c + d))));
    } else {
      var a, d := [LabelDef(Else)], Ops(after);
      assert first + ifs + a + d == first + (ifs + (a + d));
    }
  }

  /** Entering at the if part. */
  lemma RunFromIf(ifs: seq<Item>, elses: seq<Instr>, after: seq<Instr>, cpu: Cpu, s: State)
    requires IfItems(ifs)
    ensures Run(ifs + Middle(elses, after), cpu, s) ==
      var o := RunIf(ifs, cpu, s);
      if o.Completed? then Exec(after, cpu, o.state)
      else if o.Bailed? then Run(Tail(elses, after), cpu, o.state)
      else o.outcome
  {
    RunIfItems(ifs, Middle(elses, after), cpu, s);
    ElseLabel(elses, Tail(elses, after), Middle(elses, after));
    var o := RunIf(ifs, cpu, s);
    if o.Completed? { SkipElse(elses, after, cpu, o.state); }
  }

  lemma RunBranchForm(matched: Cc, ifs: seq<Item>, elses: seq<Instr>, after: seq<Instr>, cpu: Cpu, s: State)
    requires IfItems(ifs)
    ensures Run(BranchForm(matched, ifs, elses) + Ops(after), cpu, s) ==
      var o := RunBranches(matched, ifs, elses, cpu, s); if o.Running? then Exec(after, cpu, o.state) else o
  {
    var body := ifs + Middle(elses, after);
    var items := [BranchIf(NegateCond(matched), Else)] + body;
    FormSplits(matched, ifs, elses, after);
    assert items[1..] == body;
    NegatedHolds(matched, s);
    if Holds(matched, s) {
      RunFromIf(ifs, elses, after, cpu, s);
      var o := RunIf(ifs, cpu, s);
      if o.Bailed? { RunTail(elses, after, cpu, o.state); }
    } else {
      LabelAfterIf(ifs, Middle(elses, after), Else);
      ElseLabel(elses, Tail(elses, after), Middle(elses, after));
      RunTail(elses, after, cpu, s);
    }
  }

  function Tail(elses: seq<Instr>, after: seq<Instr>): seq<Item> {
    if elses != [] then Ops(elses) + ([LabelDef(End)] + Ops(after)) else Ops(after)
  }

  lemma ElseLabel(elses: seq<Instr>, tail: seq<Item>, middle: seq<Item>)
    requires middle == if elses != [] then [Branch(End), LabelDef(Else)] + tail else [LabelDef(Else)] + tail
    ensures AfterLabel(middle, Else) == tail
  {
    if elses != [] {
      assert middle[1..] == [LabelDef(Else)] + tail;
      assert middle[1..][1..] == tail;
    } else {
      assert middle[1..] == tail;
    }
  }

  lemma RunOpsOnly(instrs: seq<Instr>, cpu: Cpu, s: State)
    ensures Run(Ops(instrs), cpu, s) == Exec(instrs, cpu, s)
  {
    RunOps(instrs, [], cpu, s);
    assert Ops(instrs) + [] == Ops(instrs);
  }

  /** From the else label on: the else part, then what comes after. */
  lemma RunTail(elses: seq<Instr>, after: seq<Instr>, cpu: Cpu, s: State)
    ensures Run(Tail(elses, after), cpu, s) == var o := Exec(elses, cpu, s); if o.Running? then Exec(after, cpu, o.state) else o
  {
    if elses != [] {
      var rest := [LabelDef(End)] + Ops(after);
      RunOps(elses, rest, cpu, s);
      var o := Exec(elses, cpu, s);
      assert rest[1..] == Ops(after);
      if o.Running? { RunOpsOnly(after, cpu, o.state); }
    } else {
      RunOpsOnly(after, cpu, s);
    }
  }

  /** At the end of the if part: on to what comes after the else part. */
  lemma SkipElse(elses: seq<Instr>, after: seq<Instr>, cpu: Cpu, s: State)
    ensures Run((if elses != [] then [Branch(End), LabelDef(Else)] else [LabelDef(Else)]) + Tail(elses, after), cpu, s) == Exec(after, cpu, s)
  {
    var tail := Tail(elses, after);
    RunOpsOnly(after, cpu, s);
    if elses != [] {
      var items := [Branch(End), LabelDef(Else)] + tail;
      var rest := [LabelDef(End)] + Ops(after);
      assert items[1..] == [LabelDef(Else)] + tail;
      assert items[1..][1..] == tail;
      LabelAfterOps(elses, rest, End);
      assert rest[1..] == Ops(after);
    } else {
      var items := [LabelDef(Else)] + tail;
      assert items[1..] == Ops(after);
    }
  }

  // ----- the branches do what the predicated instructions do -----

  /** An instruction stripped of its condition. */
  function Bare(i: Instr): Instr {
    i.(cc := None)
  }

  predicate Matches(matched: Cc, i: Instr) {
    i.cc.Some? && (i.cc.value == matched || i.cc.value == NegateCond(matched))
  }

  /** Whether running on keeps the condition as it is in `holds`. */
  predicate Keeps(matched: Cc, live: bool, holds: bool, o: Outcome) {
    live && o.Running? ==> Holds(matched, o.state) == holds
  }

  /** Where the else part starts, if control gets there from `s`. */
  function ElseStart(matched: Cc, ifs: seq<Item>, cpu: Cpu, s: State): Option<State> {
    if !Holds(matched, s) then Some(s)
    else
      var o := RunIf(ifs, cpu, s);
      if o.Bailed? then Some(o.state) else None
  }

  /** Control runs the if part to its end. */
  predicate OnIfSide(matched: Cc, ifs: seq<Item>, cpu: Cpu, s: State) {
    Holds(matched, s) && RunIf(ifs, cpu, s).Completed?
  }

  /**
   * From `s`, the branches do what the predicated instructions `mid` do; and while the run may go on
   * (`live`), the side control is on is the side the flag says, unless a re-check is pending.
   */
  predicate AgreesAt(matched: Cc, mid: seq<Instr>, ifs: seq<Item>, elses: seq<Instr>, live: bool, pending: bool, cpu: Cpu, s: State) {
    && Exec(mid, cpu, s) == RunBranches(matched, ifs, elses, cpu, s)
    && (OnIfSide(matched, ifs, cpu, s) ==> Keeps(matched, live && !pending, true, Exec(mid, cpu, s)))
    && (ElseStart(matched, ifs, cpu, s).Some? ==> Keeps(matched, live, false, Exec(mid, cpu, s)))
  }

  ghost predicate Agrees(matched: Cc, mid: seq<Instr>, ifs: seq<Item>, elses: seq<Instr>, live: bool, pending: bool) {
    && IfItems(ifs)
    && forall cpu: Cpu, s: State :: AgreesAt(matched, mid, ifs, elses, live, pending, cpu, s)
  }

  lemma AgreesAtStart(matched: Cc)
    ensures Agrees(matched, [], [], [], true, false)
  {
  }

  /** Emitting the pending re-check settles which side control is on. */
  lemma EmitCheck(matched: Cc, mid: seq<Instr>, ifs: seq<Item>)
    requires Agrees(matched, mid, ifs, [], true, true)
    ensures Agrees(matched, mid, ifs + [BranchIf(NegateCond(matched), Else)], [], true, false)
  {
    var check := [BranchIf(NegateCond(matched), Else)];
    forall cpu: Cpu, s: State
      ensures AgreesAt(matched, mid, ifs + check, [], true, false, cpu, s)
    {
      assert AgreesAt(matched, mid, ifs, [], true, true, cpu, s);
      RunIfJoin(ifs, check, cpu, s);
      var o := RunIf(ifs, cpu, s);
      if o.Completed? {
        NegatedHolds(matched, o.state);
        assert check[1..] == [];
        assert RunIf([], cpu, o.state) == Completed(o.state);
      }
    }
  }

  /** The flag is not written. */
  predicate KeepsFlag(matched: Cc, i: Instr) {
    FlagOf(matched) !in Writes(i)
  }

  lemma FlagKept(matched: Cc, i: Instr, cpu: Cpu, s: State)
    requires KeepsFlag(matched, i)
    ensures Holds(matched, After(i, cpu, s)) == Holds(matched, s)
  {
  }

  /** One predicated instruction at the end, and what the bare one does on the enabled side. */
  lemma LastPredicated(mid: seq<Instr>, c: Instr, cpu: Cpu, s: State)
    ensures Exec(mid + [c], cpu, s) == var o := Exec(mid, cpu, s); if o.Running? then Step(c, cpu, o.state) else o
  {
    ExecJoin(mid, [c], cpu, s);
    var o := Exec(mid, cpu, s);
    if o.Running? { ExecOne(c, cpu, o.state); }
  }

  lemma BareStep(matched: Cc, c: Instr, cpu: Cpu, t: State)
    requires Matches(matched, c)
    ensures Step(c, cpu, t) == if Holds(matched, t) == (c.cc.value == matched) then Step(Bare(c), cpu, t) else Running(t)
  {
    NegatedHolds(matched, t);
    assert After(c, cpu, t) == After(Bare(c), cpu, t);
  }

  /** An instruction of the if side is appended to the if part. */
  lemma AppendIf(matched: Cc, mid: seq<Instr>, ifs: seq<Item>, elses: seq<Instr>, c: Instr, live: bool, pending: bool)
    requires Agrees(matched, mid, ifs, elses, true, false) && c.cc == Some(matched)
    requires KeepsFlag(matched, c) || !live || pending
    ensures Agrees(matched, mid + [c], ifs + [Op(Bare(c))], elses, live, pending)
  {
    forall cpu: Cpu, s: State
      ensures AgreesAt(matched, mid + [c], ifs + [Op(Bare(c))], elses, live, pending, cpu, s)
    {
      assert AgreesAt(matched, mid, ifs, elses, true, false, cpu, s);
      LastPredicated(mid, c, cpu, s);
      RunIfJoin(ifs, [Op(Bare(c))], cpu, s);
      var o := Exec(mid, cpu, s);
      if o.Running? {
        BareStep(matched, c, cpu, o.state);
        if KeepsFlag(matched, c) { FlagKept(matched, Bare(c), cpu, o.state); }
        assert [Op(Bare(c))][1..] == [];
      }
    }
  }

  lemma AppendElseAt(matched: Cc, mid: seq<Instr>, ifs: seq<Item>, elses: seq<Instr>, c: Instr, live: bool, cpu: Cpu, s: State)
    requires AgreesAt(matched, mid, ifs, elses, true, false, cpu, s) && c.cc == Some(NegateCond(matched))
    requires KeepsFlag(matched, c) || !live
    ensures AgreesAt(matched, mid + [c], ifs, elses + [Bare(c)], live, false, cpu, s)
  {
    LastPredicated(mid, c, cpu, s);
    var o := Exec(mid, cpu, s);
    var start := ElseStart(matched, ifs, cpu, s);
    if o.Running? {
      StepElse(matched, c, live, cpu, o.state);
    }
    if start.Some? {
      LastPredicated(elses, Bare(c), cpu, start.value);
    }
  }

  /** On the else side the instruction runs bare; on the if side it does not run. */
  lemma StepElse(matched: Cc, c: Instr, live: bool, cpu: Cpu, t: State)
    requires c.cc == Some(NegateCond(matched)) && (KeepsFlag(matched, c) || !live)
    ensures Holds(matched, t) ==> Step(c, cpu, t) == Running(t)
    ensures !Holds(matched, t) ==> Step(c, cpu, t) == Step(Bare(c), cpu, t) && Keeps(matched, live, false, Step(c, cpu, t))
  {
    NegatedHolds(matched, t);
    BareStep(matched, c, cpu, t);
    if KeepsFlag(matched, c) { FlagKept(matched, Bare(c), cpu, t); }
  }

  /** An instruction of the else side is appended to the else part. */
  lemma AppendElse(matched: Cc, mid: seq<Instr>, ifs: seq<Item>, elses: seq<Instr>, c: Instr, live: bool)
    requires Agrees(matched, mid, ifs, elses, true, false) && c.cc == Some(NegateCond(matched))
    requires KeepsFlag(matched, c) || !live
    ensures Agrees(matched, mid + [c], ifs, elses + [Bare(c)], live, false)
  {
    forall cpu: Cpu, s: State
      ensures AgreesAt(matched, mid + [c], ifs, elses + [Bare(c)], live, false, cpu, s)
    {
      AppendElseAt(matched, mid, ifs, elses, c, live, cpu, s);
    }
  }

  // ----- the pattern -----

  datatype Part = Ins(instr: Instr) | Lab

  /** The instructions of the `n` parts from `index` on. */
  ghost function Taken(input: seq<Part>, index: nat, n: nat): (r: seq<Instr>)
    requires index + n <= |input| && forall k :: index <= k < index + n ==> input[k].Ins?
    ensures |r| == n
  {
    seq(n, k requires 0 <= k < n => input[index + k].instr)
  }

  predicate NoJumps(instrs: seq<Instr>) {
    forall k :: 0 <= k < |instrs| ==> !instrs[k].isJump
  }

  /** The local variables of the matching loop. */
  datatype Progress = Progress(i: nat, ifs: seq<Item>, elses: seq<Instr>, before: seq<Instr>, after: seq<Instr>,
                               movedBefore: nat, movedAfter: nat, flagCheck: bool)

  /** Up to the last conditional instruction taken, the rearrangement means what the input means. */
  ghost predicate Committed(input: seq<Part>, index: nat, matched: Cc, mid: seq<Instr>, p: Progress) {
    && p.movedBefore <= |p.before| && p.movedAfter <= |p.after| && p.movedBefore + p.movedAfter < p.i
    && index + p.i <= |input| && (forall k :: index <= k < index + p.i ==> input[k].Ins?)
    && SameMeaning(Taken(input, index, p.i - p.movedBefore - p.movedAfter),
                   p.before[..|p.before| - p.movedBefore] + mid + p.after[..|p.after| - p.movedAfter])
    && exists live, pending :: Agrees(matched, mid, p.ifs, p.elses, live, pending)
  }

  /** Everything looked at so far is rearranged, and the flag is where it should be. */
  ghost predicate Arranged(input: seq<Part>, index: nat, matched: Cc, mid: seq<Instr>, p: Progress) {
    && index + p.i <= |input| && (forall k :: index <= k < index + p.i ==> input[k].Ins?)
    && SameMeaning(Taken(input, index, p.i), p.before + mid + p.after)
    && NoJumps(mid) && NoJumps(p.before) && NoJumps(p.after)
    && Agrees(matched, mid, p.ifs, p.elses, true, p.flagCheck)
    && (p.flagCheck ==> p.elses == [])
  }

  ghost predicate Ongoing(input: seq<Part>, index: nat, matched: Cc, mid: seq<Instr>, p: Progress) {
    Committed(input, index, matched, mid, p) && Arranged(input, index, matched, mid, p)
  }

  lemma SameMeaningAppend(a: seq<Instr>, b: seq<Instr>, x: Instr)
    requires SameMeaning(a, b)
    ensures SameMeaning(a + [x], b + [x])
  {
    forall cpu: Cpu, s: State
      ensures Exec(a + [x], cpu, s) == Exec(b + [x], cpu, s)
    {
      ExecJoin(a, [x], cpu, s);
      ExecJoin(b, [x], cpu, s);
    }
  }

  /** An instruction that can move before a stretch may stand in front of it. */
  lemma MovePast(before: seq<Instr>, list: seq<Instr>, x: Instr)
    requires !x.isJump && forall k :: 0 <= k < |list| ==> !list[k].isJump && Independent(list[k], x)
    ensures SameMeaning(before + list + [x], before + [x] + list)
  {
    forall cpu: Cpu, s: State
      ensures Exec(before + list + [x], cpu, s) == Exec(before + [x] + list, cpu, s)
    {
      assert before + list + [x] == before + (list + [x]) && before + [x] + list == before + ([x] + list);
      ExecJoin(before, list + [x], cpu, s);
      ExecJoin(before, [x] + list, cpu, s);
      var o := Exec(before, cpu, s);
      if o.Running? { MoveToFront(list, x, cpu, o.state); }
    }
  }

  lemma TakenMore(input: seq<Part>, index: nat, n: nat)
    requires index + n < |input| && forall k :: index <= k <= index + n ==> input[k].Ins?
    ensures Taken(input, index, n + 1) == Taken(input, index, n) + [input[index + n].instr]
  {
  }

  /** An unconditional instruction joins the front. */
  lemma JoinFront(input: seq<Part>, index: nat, matched: Cc, mid: seq<Instr>, p: Progress, x: Instr)
    requires Ongoing(input, index, matched, mid, p)
    requires index + p.i < |input| && input[index + p.i] == Ins(x) && !x.isJump && p.after == []
    requires forall k :: 0 <= k < |mid| ==> Independent(mid[k], x)
    ensures Ongoing(input, index, matched, mid, p.(i := p.i + 1, before := p.before + [x], movedBefore := p.movedBefore + 1))
  {
    var p' := p.(i := p.i + 1, before := p.before + [x], movedBefore := p.movedBefore + 1);
    assert p'.before[..|p'.before| - p'.movedBefore] == p.before[..|p.before| - p.movedBefore];
    FrontMeans(input, index, mid, p, x);
  }

  lemma FrontMeans(input: seq<Part>, index: nat, mid: seq<Instr>, p: Progress, x: Instr)
    requires index + p.i < |input| && input[index + p.i] == Ins(x) && forall k :: index <= k < index + p.i ==> input[k].Ins?
    requires SameMeaning(Taken(input, index, p.i), p.before + mid + p.after) && p.after == []
    requires !x.isJump && NoJumps(mid) && forall k :: 0 <= k < |mid| ==> Independent(mid[k], x)
    ensures SameMeaning(Taken(input, index, p.i + 1), (p.before + [x]) + mid + p.after)
  {
    TakenMore(input, index, p.i);
    SameMeaningAppend(Taken(input, index, p.i), p.before + mid + p.after, x);
    MovePast(p.before, mid, x);
    assert p.before + mid + p.after + [x] == p.before + mid + [x];
    assert (p.before + [x]) + mid + p.after == p.before + [x] + mid;
  }

  /** An unconditional instruction joins the back. */
  lemma JoinBack(input: seq<Part>, index: nat, matched: Cc, mid: seq<Instr>, p: Progress, x: Instr)
    requires Ongoing(input, index, matched, mid, p)
    requires index + p.i < |input| && input[index + p.i] == Ins(x) && !x.isJump
    ensures Ongoing(input, index, matched, mid, p.(i := p.i + 1, after := p.after + [x], movedAfter := p.movedAfter + 1))
  {
    var p' := p.(i := p.i + 1, after := p.after + [x], movedAfter := p.movedAfter + 1);
    assert p'.after[..|p'.after| - p'.movedAfter] == p.after[..|p.after| - p.movedAfter];
    BackMeans(input, index, mid, p, x);
  }

  lemma BackMeans(input: seq<Part>, index: nat, mid: seq<Instr>, p: Progress, x: Instr)
    requires index + p.i < |input| && input[index + p.i] == Ins(x) && forall k :: index <= k < index + p.i ==> input[k].Ins?
    requires SameMeaning(Taken(input, index, p.i), p.before + mid + p.after)
    ensures SameMeaning(Taken(input, index, p.i + 1), p.before + mid + (p.after + [x]))
  {
    TakenMore(input, index, p.i);
    SameMeaningAppend(Taken(input, index, p.i), p.before + mid + p.after, x);
    assert p.before + mid + p.after + [x] == p.before + mid + (p.after + [x]);
  }

  /** A conditional instruction moves before what was put at the back. */
  lemma JoinMiddle(input: seq<Part>, index: nat, matched: Cc, mid: seq<Instr>, p: Progress, c: Instr)
    requires Arranged(input, index, matched, mid, p)
    requires index + p.i < |input| && input[index + p.i] == Ins(c)
    requires c.isJump ==> p.after == []
    requires forall k :: 0 <= k < |p.after| ==> Independent(p.after[k], c)
    ensures SameMeaning(Taken(input, index, p.i + 1), p.before + (mid + [c]) + p.after)
  {
    TakenMore(input, index, p.i);
    SameMeaningAppend(Taken(input, index, p.i), p.before + mid + p.after, c);
    assert p.before + mid + p.after + [c] == (p.before + mid) + p.after + [c];
    assert p.before + mid + [c] + p.after == p.before + (mid + [c]) + p.after;
    if p.after == [] {
      assert p.before + mid + p.after + [c] == p.before + mid + [c] + p.after;
    } else {
      MovePast(p.before + mid, p.after, c);
    }
  }

  /** The progress after the conditional instruction `c` was taken. */
  function Accepted(matched: Cc, p: Progress, c: Instr): Progress {
    var ifs := if p.flagCheck then p.ifs + [BranchIf(NegateCond(matched), Else)] else p.ifs;
    var onIf := c.cc == Some(matched);
    Progress(p.i + 1, if onIf then ifs + [Op(Bare(c))] else ifs, if onIf then p.elses else p.elses + [Bare(c)],
             p.before, p.after, 0, 0, onIf && p.elses == [] && !KeepsFlag(matched, c) && !c.isJump)
  }

  /** Whether the source goes on after taking `c`. */
  predicate GoesOn(matched: Cc, p: Progress, c: Instr) {
    !c.isJump && (KeepsFlag(matched, c) || (c.cc == Some(matched) && p.elses == []))
  }

  lemma AcceptAgrees(matched: Cc, mid: seq<Instr>, p: Progress, c: Instr)
    requires Agrees(matched, mid, p.ifs, p.elses, true, p.flagCheck) && (p.flagCheck ==> p.elses == [])
    requires Matches(matched, c)
    ensures var p' := Accepted(matched, p, c);
      Agrees(matched, mid + [c], p'.ifs, p'.elses, GoesOn(matched, p, c), p'.flagCheck)
  {
    var ifs := if p.flagCheck then p.ifs + [BranchIf(NegateCond(matched), Else)] else p.ifs;
    if p.flagCheck {
      EmitCheck(matched, mid, p.ifs);
    }
    if c.cc == Some(matched) {
      AppendIf(matched, mid, ifs, p.elses, c, GoesOn(matched, p, c), Accepted(matched, p, c).flagCheck);
    } else {
      AppendElse(matched, mid, ifs, p.elses, c, GoesOn(matched, p, c));
    }
  }

  lemma Accept(input: seq<Part>, index: nat, matched: Cc, mid: seq<Instr>, p: Progress, c: Instr)
    requires Arranged(input, index, matched, mid, p) && Matches(matched, c)
    requires index + p.i < |input| && input[index + p.i] == Ins(c)
    requires c.isJump ==> p.after == []
    requires forall k :: 0 <= k < |p.after| ==> Independent(p.after[k], c)
    ensures Committed(input, index, matched, mid + [c], Accepted(matched, p, c))
    ensures GoesOn(matched, p, c) ==> Ongoing(input, index, matched, mid + [c], Accepted(matched, p, c))
  {
    var p' := Accepted(matched, p, c);
    JoinMiddle(input, index, matched, mid, p, c);
    AcceptAgrees(matched, mid, p, c);
    assert p'.before[..|p'.before| - p'.movedBefore] == p.before;
    assert p'.after[..|p'.after| - p'.movedAfter] == p.after;
  }

  /** The replacement list the source returns. */
  function Replaced(matched: Cc, before: seq<Instr>, ifs: seq<Item>, elses: seq<Instr>, after: seq<Instr>): seq<Item> {
    Ops(before) + BranchForm(matched, ifs, elses) + Ops(after)
  }

  /** On every machine and from every state the replacement runs as the instructions it replaces. */
  ghost predicate Replaces(items: seq<Item>, instrs: seq<Instr>) {
    forall cpu: Cpu, s: State :: Run(items, cpu, s) == Exec(instrs, cpu, s)
  }

  lemma ReplacedMeans(matched: Cc, before: seq<Instr>, mid: seq<Instr>, ifs: seq<Item>, elses: seq<Instr>, after: seq<Instr>, live: bool, pending: bool)
    requires Agrees(matched, mid, ifs, elses, live, pending)
    ensures Replaces(Replaced(matched, before, ifs, elses, after), before + mid + after)
  {
    forall cpu: Cpu, s: State
      ensures Run(Replaced(matched, before, ifs, elses, after), cpu, s) == Exec(before + mid + after, cpu, s)
    {
      var form := BranchForm(matched, ifs, elses) + Ops(after);
      assert Replaced(matched, before, ifs, elses, after) == Ops(before) + form;
      RunOps(before, form, cpu, s);
      assert before + mid + after == before + (mid + after);
      ExecJoin(before, mid + after, cpu, s);
      var o := Exec(before, cpu, s);
      if o.Running? {
        RunBranchForm(matched, ifs, elses, after, cpu, o.state);
        ExecJoin(mid, after, cpu, o.state);
        assert AgreesAt(matched, mid, ifs, elses, live, pending, cpu, o.state);
      }
    }
  }

  lemma CommittedMeans(input: seq<Part>, index: nat, matched: Cc, mid: seq<Instr>, p: Progress)
    requires Committed(input, index, matched, mid, p)
    ensures Replaces(Finished(matched, p).items, Taken(input, index, Finished(matched, p).consumed))
  {
    var live, pending :| Agrees(matched, mid, p.ifs, p.elses, live, pending);
    var before, after := p.before[..|p.before| - p.movedBefore], p.after[..|p.after| - p.movedAfter];
    ReplacedMeans(matched, before, mid, p.ifs, p.elses, after, live, pending);
    SameReplaced(Finished(matched, p).items, before + mid + after, Taken(input, index, Finished(matched, p).consumed));
  }

  lemma SameReplaced(items: seq<Item>, a: seq<Instr>, b: seq<Instr>)
    requires Replaces(items, a) && SameMeaning(b, a)
    ensures Replaces(items, b)
  {
    forall cpu: Cpu, s: State
      ensures Run(items, cpu, s) == Exec(b, cpu, s)
    {
      assert Exec(b, cpu, s) == Exec(a, cpu, s);
    }
  }

  datatype Replacement = Replacement(items: seq<Item>, consumed: nat)

  /** The pattern starts at a conditional instruction that is more than a branch. */
  predicate StartsAt(input: seq<Part>, index: nat) {
    index < |input| && input[index].Ins? && input[index].instr.cc.Some? && !input[index].instr.isPlainBranch
  }

  /** Nothing conditional before position `k` keeps the unconditional instruction there from moving to the front. */
  predicate MovesToFront(input: seq<Part>, index: nat, k: nat)
    requires index <= k < |input|
  {
    && input[k].Ins? && input[k].instr.cc.None? && !input[k].instr.isJump
    && forall j :: index <= j < k && input[j].Ins? && input[j].instr.cc.Some? ==> Independent(input[j].instr, input[k].instr)
  }

  /**
   * The `n` instructions from `index` on have one condition or its inverse, and all but the last leave its flag alone;
   * in between there may be others that can move to the front.
   */
  predicate RunOf(input: seq<Part>, index: nat, n: nat) {
    && 0 < n <= |input| - index && StartsAt(input, index) && input[index + n - 1].Ins? && input[index + n - 1].instr.cc.Some?
    && (forall k {:trigger MovesToFront(input, index, k)} {:trigger input[k]} :: index <= k < index + n ==>
         MovesToFront(input, index, k) || (input[k].Ins? && Matches(input[index].instr.cc.value, input[k].instr)))
    && (forall k :: index <= k < index + n - 1 && input[k].Ins? && input[k].instr.cc.Some? ==>
         !input[k].instr.isJump && KeepsFlag(input[index].instr.cc.value, input[k].instr))
  }

  /** How much of the input is replaced if nothing more is found. */
  function Settled(p: Progress): int {
    p.i - p.movedBefore - p.movedAfter
  }

  /** All of the run is taken, or the part of it looked at so far and nothing else. */
  predicate RunTaken(p: Progress, stop: bool, n: nat) {
    n <= Settled(p) || (!stop && p.i < n && p.after == [])
  }

  ghost predicate RunsTaken(input: seq<Part>, index: nat, p: Progress, stop: bool) {
    forall n: nat {:trigger RunOf(input, index, n)} :: RunOf(input, index, n) ==> RunTaken(p, stop, n)
  }

  predicate Unconditional(instrs: seq<Instr>) {
    forall k :: 0 <= k < |instrs| ==> instrs[k].cc.None?
  }

  /** No instruction among the items has a condition, other than the branches made here. */
  predicate BareItems(items: seq<Item>) {
    forall k :: 0 <= k < |items| && items[k].Op? ==> items[k].instr.cc.None?
  }

  predicate AllBare(p: Progress) {
    BareItems(p.ifs) && Unconditional(p.elses) && Unconditional(p.before) && Unconditional(p.after)
  }

  lemma ReplacedIsBare(matched: Cc, p: Progress, before: seq<Instr>, after: seq<Instr>)
    requires AllBare(p) && before <= p.before && after <= p.after
    ensures BareItems(Replaced(matched, before, p.ifs, p.elses, after))
  {
    BareJoin(Ops(before), BranchForm(matched, p.ifs, p.elses));
    BareJoin(Ops(before) + BranchForm(matched, p.ifs, p.elses), Ops(after));
  }

  lemma BareJoin(a: seq<Item>, b: seq<Item>)
    requires BareItems(a) && BareItems(b)
    ensures BareItems(a + b)
  {
  }

  /** What one look at a conditional instruction leads to. */
  method TakeConditional(input: seq<Part>, index: nat, matched: Option<Cc>, ghost mid: seq<Instr>, p: Progress, c: Instr,
                         midSet: InstructionEffects, afterSet: InstructionEffects)
    returns (matched': Option<Cc>, ghost mid': seq<Instr>, p': Progress, stop: bool)
    requires midSet != afterSet && midSet.Summarizes(mid) && afterSet.Summarizes(p.after)
    requires index + p.i < |input| && input[index + p.i] == Ins(c) && c.cc.Some?
    requires matched.Some? ==> Ongoing(input, index, matched.value, mid, p)
    requires matched.None? ==> mid == [] && p == Progress(0, [], [], [], [], 0, 0, false)
    modifies midSet
    ensures matched'.Some? ==> Committed(input, index, matched'.value, mid', p')
    ensures !stop ==> matched'.Some? && Ongoing(input, index, matched'.value, mid', p') && midSet.Summarizes(mid')
    ensures !stop ==> p'.i == p.i + 1 && p'.after == p.after
    ensures matched'.None? ==> stop && c.isPlainBranch
    ensures matched.None? ==> (matched'.None? <==> c.isPlainBranch) && (matched'.Some? ==> matched' == c.cc)
    ensures matched.Some? ==> matched' == matched
    ensures (p' == p && mid' == mid) || (matched'.Some? && p' == Accepted(matched'.value, p, c) && mid' == mid + [c])
    ensures p.after == [] && matched'.Some? && Matches(matched'.value, c) ==>
      p' == Accepted(matched'.value, p, c) && stop == !GoesOn(matched'.value, p, c)
  {
    matched', mid', p', stop := matched, mid, p, true;
    afterSet.Separates(c, p.after);
    if !afterSet.CanMoveBefore(c) {
      return;
    }
    if p.after != [] && c.isJump {
      return;
    }
    midSet.Add(c);
    if matched.None? {
      if c.isPlainBranch {
        return;
      }
      matched' := c.cc;
      StartArranged(input, index, c.cc.value);
    }
    var cc := matched'.value;
    if c.cc != Some(cc) && c.cc != Some(NegateCond(cc)) {
      return;
    }
    Accept(input, index, cc, mid, p, c);
    mid', p' := mid + [c], Accepted(cc, p, c);
    stop := !GoesOn(cc, p, c);
  }

  lemma StartArranged(input: seq<Part>, index: nat, matched: Cc)
    requires index <= |input|
    ensures Arranged(input, index, matched, [], Progress(0, [], [], [], [], 0, 0, false))
  {
    AgreesAtStart(matched);
    assert Taken(input, index, 0) == [] + [] + [];
  }

  /** Places an unconditional instruction before or after the run. */
  method Move(ghost input: seq<Part>, ghost index: nat, ghost matched: Cc, ghost mid: seq<Instr>, p: Progress, x: Instr,
              midSet: InstructionEffects, afterSet: InstructionEffects)
    returns (p': Progress)
    requires midSet != afterSet && midSet.Summarizes(mid) && afterSet.Summarizes(p.after)
    requires index + p.i < |input| && input[index + p.i] == Ins(x) && !x.isJump
    requires Ongoing(input, index, matched, mid, p)
    modifies afterSet
    ensures Ongoing(input, index, matched, mid, p') && afterSet.Summarizes(p'.after) && p'.i == p.i + 1
    ensures Settled(p') == Settled(p) && (AllBare(p) && x.cc.None? ==> AllBare(p'))
    ensures p.after == [] && (forall k :: 0 <= k < |mid| ==> Independent(mid[k], x)) ==> p'.after == []
  {
    midSet.Separates(x, mid);
    if midSet.CanMoveBefore(x) && p.after == [] {
      JoinFront(input, index, matched, mid, p, x);
      p' := p.(i := p.i + 1, before := p.before + [x], movedBefore := p.movedBefore + 1);
    } else {
      afterSet.Add(x);
      JoinBack(input, index, matched, mid, p, x);
      p' := p.(i := p.i + 1, after := p.after + [x], movedAfter := p.movedAfter + 1);
    }
  }

  /** After the conditional instruction `c` was taken. */
  lemma AcceptedKeeps(input: seq<Part>, index: nat, matched: Cc, p: Progress, c: Instr)
    ensures AllBare(p) ==> AllBare(Accepted(matched, p, c))
    ensures p.movedBefore + p.movedAfter <= p.i ==> Settled(Accepted(matched, p, c)) > Settled(p)
  {
    var p' := Accepted(matched, p, c);
    if AllBare(p) {
      BareJoin(p.ifs, [BranchIf(NegateCond(matched), Else)]);
      BareJoin(if p.flagCheck then p.ifs + [BranchIf(NegateCond(matched), Else)] else p.ifs, [Op(Bare(c))]);
    }
  }

  /** What holds whenever the loop looks at the next part. */
  ghost predicate LoopHolds(input: seq<Part>, index: nat, matched: Option<Cc>, mid: seq<Instr>, p: Progress, stop: bool) {
    && (matched.Some? ==> Committed(input, index, matched.value, mid, p))
    && (matched.Some? ==> StartsAt(input, index) && matched == input[index].instr.cc)
    && (!stop && matched.Some? ==> Ongoing(input, index, matched.value, mid, p))
    && (!stop && matched.None? ==> mid == [] && p == Progress(0, [], [], [], [], 0, 0, false))
    && (stop && matched.None? ==> !StartsAt(input, index))
    && AllBare(p) && RunsTaken(input, index, p, stop) && MidFrom(input, index, mid, p.i)
  }

  /** What is in the middle is conditional and comes from the parts looked at. */
  ghost predicate MidFrom(input: seq<Part>, index: nat, mid: seq<Instr>, i: nat) {
    forall m :: m in mid ==> m.cc.Some? && exists j :: index <= j < index + i && j < |input| && input[j] == Ins(m)
  }

  /** A label, a jump without condition, or the end of the input ends every run. */
  lemma RunsDone(input: seq<Part>, index: nat, p: Progress, stop: bool)
    requires RunsTaken(input, index, p, stop)
    requires stop || index + p.i >= |input| || input[index + p.i].Lab? || (input[index + p.i].instr.cc.None? && input[index + p.i].instr.isJump)
    ensures forall n: nat {:trigger RunOf(input, index, n)} :: RunOf(input, index, n) ==> n <= Settled(p)
  {
    forall n: nat {:trigger RunOf(input, index, n)} | RunOf(input, index, n)
      ensures n <= Settled(p)
    {
      assert RunTaken(p, stop, n);
      InRun(input, index, n, p.i);
    }
  }

  lemma InRun(input: seq<Part>, index: nat, n: nat, i: nat)
    requires RunOf(input, index, n)
    ensures i < n ==> index + i < |input| && input[index + i].Ins? && (input[index + i].instr.cc.None? ==> !input[index + i].instr.isJump)
  {
    assert i < n ==> index <= index + i < index + n;
  }

  /** An unconditional instruction within a run goes to the front. */
  lemma FrontRuns(input: seq<Part>, index: nat, mid: seq<Instr>, p: Progress, p': Progress, x: Instr)
    requires RunsTaken(input, index, p, false) && MidFrom(input, index, mid, p.i) && Settled(p') == Settled(p) && p'.i == p.i + 1
    requires index + p.i < |input| && input[index + p.i] == Ins(x) && x.cc.None?
    requires p.after == [] && (forall k :: 0 <= k < |mid| ==> Independent(mid[k], x)) ==> p'.after == []
    ensures RunsTaken(input, index, p', false)
  {
    forall n: nat {:trigger RunOf(input, index, n)} | RunOf(input, index, n)
      ensures RunTaken(p', false, n)
    {
      assert RunTaken(p, false, n);
      if p.i < n && p.after == [] {
        assert MovesToFront(input, index, index + p.i);
        forall k | 0 <= k < |mid|
          ensures Independent(mid[k], x)
        {
          assert mid[k] in mid;
        }
      }
    }
  }

  method TakeUnconditional(input: seq<Part>, index: nat, matched: Cc, ghost mid: seq<Instr>, p: Progress, x: Instr,
                           midSet: InstructionEffects, afterSet: InstructionEffects)
    returns (p': Progress)
    requires midSet != afterSet && midSet.Summarizes(mid) && afterSet.Summarizes(p.after)
    requires index + p.i < |input| && input[index + p.i] == Ins(x) && !x.isJump && x.cc.None?
    requires LoopHolds(input, index, Some(matched), mid, p, false)
    modifies afterSet
    ensures LoopHolds(input, index, Some(matched), mid, p', false) && afterSet.Summarizes(p'.after) && p'.i == p.i + 1
  {
    p' := Move(input, index, matched, mid, p, x, midSet, afterSet);
    FrontRuns(input, index, mid, p, p', x);
  }

  method Take(input: seq<Part>, index: nat, matched: Option<Cc>, ghost mid: seq<Instr>, p: Progress, c: Instr,
              midSet: InstructionEffects, afterSet: InstructionEffects)
    returns (matched': Option<Cc>, ghost mid': seq<Instr>, p': Progress, stop: bool)
    requires midSet != afterSet && midSet.Summarizes(mid) && afterSet.Summarizes(p.after)
    requires index + p.i < |input| && input[index + p.i] == Ins(c) && c.cc.Some?
    requires LoopHolds(input, index, matched, mid, p, false)
    modifies midSet
    ensures LoopHolds(input, index, matched', mid', p', stop)
    ensures !stop ==> p'.i == p.i + 1 && midSet.Summarizes(mid') && afterSet.Summarizes(p'.after)
  {
    assert matched.None? ==> p.i == 0 && p.movedBefore == 0 && p.movedAfter == 0;
    assert matched.Some? ==> p.movedBefore + p.movedAfter <= p.i;
    assert p.i == 0 ==> input[index] == Ins(c);
    matched', mid', p', stop := TakeConditional(input, index, matched, mid, p, c, midSet, afterSet);
    if matched'.Some? {
      assert StartsAt(input, index) && input[index].instr.cc == matched';
      AcceptedKeeps(input, index, matched'.value, p, c);
      TakenRuns(input, index, matched'.value, p, p', c, stop);
    }
  }

  lemma TakenRuns(input: seq<Part>, index: nat, matched: Cc, p: Progress, p': Progress, c: Instr, stop: bool)
    requires RunsTaken(input, index, p, false) && StartsAt(input, index) && input[index].instr.cc == Some(matched)
    requires index + p.i < |input| && input[index + p.i] == Ins(c) && c.cc.Some? && p.movedBefore + p.movedAfter <= p.i
    requires p' == p || p' == Accepted(matched, p, c)
    requires p.after == [] && Matches(matched, c) ==> p' == Accepted(matched, p, c) && stop == !GoesOn(matched, p, c)
    ensures RunsTaken(input, index, p', stop)
  {
    AcceptedKeeps(input, index, matched, p, c);
    forall n: nat {:trigger RunOf(input, index, n)} | RunOf(input, index, n)
      ensures RunTaken(p', stop, n)
    {
      assert RunTaken(p, false, n);
      if p.i < n && p.after == [] {
        assert !MovesToFront(input, index, index + p.i);
      }
    }
  }

  method Match(input: seq<Part>, index: nat) returns (r: Option<Replacement>)
    requires index <= |input|
    ensures r.Some? <==> StartsAt(input, index)
    ensures r.Some? ==> forall n: nat {:trigger RunOf(input, index, n)} :: RunOf(input, index, n) ==> n <= r.value.consumed
    ensures r.Some? ==> BareItems(r.value.items)
    ensures r.Some? ==>
      && 0 < r.value.consumed <= |input| - index
      && (forall k :: index <= k < index + r.value.consumed ==> input[k].Ins?)
      && Replaces(r.value.items, Taken(input, index, r.value.consumed))
  {
    var matched: Option<Cc> := None;
    ghost var mid: seq<Instr> := [];
    var p := Progress(0, [], [], [], [], 0, 0, false);
    var midSet := new InstructionEffects();
    var afterSet := new InstructionEffects();
    var stop := false;
    while index + p.i < |input| && !stop
      invariant fresh(midSet) && fresh(afterSet) && midSet != afterSet
      invariant LoopHolds(input, index, matched, mid, p, stop)
      invariant !stop ==> midSet.Summarizes(mid) && afterSet.Summarizes(p.after)
      decreases !stop, |input| - index - p.i
    {
      if input[index + p.i].Lab? {
        break;
      }
      var instr := input[index + p.i].instr;
      if instr.cc.None? {
        if matched.None? {
          return None;
        }
        if instr.isJump {
          break;
        }
        p := TakeUnconditional(input, index, matched.value, mid, p, instr, midSet, afterSet);
      } else {
        matched, mid, p, stop := Take(input, index, matched, mid, p, instr, midSet, afterSet);
      }
    }
    if matched.None? {
      return None;
    }
    RunsDone(input, index, p, stop);
    r := Some(Finished(matched.value, p));
    CommittedMeans(input, index, matched.value, mid, p);
    ReplacedIsBare(matched.value, p, p.before[..|p.before| - p.movedBefore], p.after[..|p.after| - p.movedAfter]);
  }

  /** Gives back what was moved since the last conditional instruction. */
  function Finished(matched: Cc, p: Progress): Replacement
    requires p.movedBefore <= |p.before| && p.movedAfter <= |p.after| && p.movedBefore + p.movedAfter <= p.i
  {
    Replacement(Replaced(matched, p.before[..|p.before| - p.movedBefore], p.ifs, p.elses, p.after[..|p.after| - p.movedAfter]),
                p.i - p.movedBefore - p.movedAfter)
  }
}
