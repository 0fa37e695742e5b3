/**
 * How lowered code keeps up with a machine with delay slots: a relation between places in both that is kept
 * by every step of the machine is kept by whole runs.
 */
module BranchSimulation {
  import opened Wrappers
  import opened DelaySlots

  /** The code gets from `c` to `out` in one step or more. */
  ghost predicate Reaches(code: seq<Cmd>, cpu: Cpu, c: Config, out: CodeNext)
    requires c.pos <= |code|
  {
    exists n: nat :: n >= 1 && CodeRun(code, cpu, c, n) == out
  }

  lemma ReachesNow(code: seq<Cmd>, cpu: Cpu, c: Config)
    requires c.pos <= |code|
    ensures Reaches(code, cpu, c, CodeStep(code, cpu, c))
  {
    assert CodeRun(code, cpu, c, 1) == CodeStep(code, cpu, c);
  }

  lemma ReachesLater(code: seq<Cmd>, cpu: Cpu, c: Config, out: CodeNext)
    requires c.pos <= |code| && CodeStep(code, cpu, c).Running?
    requires Reaches(code, cpu, CodeStep(code, cpu, c).config, out)
    ensures Reaches(code, cpu, c, out)
  {
    var c' := CodeStep(code, cpu, c).config;
    var n: nat :| n >= 1 && CodeRun(code, cpu, c', n) == out;
    assert CodeRun(code, cpu, c, n + 1) == out;
  }

  /** Which item of the program a position of the code stands for. */
  type Relation = (nat, nat) -> bool

  /** The outcome of a machine step, reached by the code. */
  ghost predicate Matches(code: seq<Cmd>, cpu: Cpu, rel: Relation, c: Config, next: Next)
    requires c.pos <= |code|
  {
    if next.Stop? then Reaches(code, cpu, c, Halted(next.why, next.state))
    else exists pos: nat :: LandsAt(code, cpu, rel, c, next.pc, next.state, pos)
  }

  ghost predicate LandsAt(code: seq<Cmd>, cpu: Cpu, rel: Relation, c: Config, pc: nat, s: State, pos: nat)
    requires c.pos <= |code|
  {
    pos <= |code| && rel(pc, pos) && Reaches(code, cpu, c, Running(Config(pos, s, Fall)))
  }

  lemma MatchesLater(code: seq<Cmd>, cpu: Cpu, rel: Relation, c: Config, c': Config, next: Next)
    requires c.pos <= |code| && CodeStep(code, cpu, c) == Running(c')
    requires Matches(code, cpu, rel, c', next)
    ensures Matches(code, cpu, rel, c, next)
  {
    if next.Stop? {
      ReachesLater(code, cpu, c, Halted(next.why, next.state));
    } else {
      var pos: nat :| LandsAt(code, cpu, rel, c', next.pc, next.state, pos);
      ReachesLater(code, cpu, c, Running(Config(pos, next.state, Fall)));
      assert LandsAt(code, cpu, rel, c, next.pc, next.state, pos);
    }
  }

  /** The last step of a fragment. */
  lemma Arrives(code: seq<Cmd>, cpu: Cpu, rel: Relation, c: Config, pc: nat, pos: nat, s: State)
    requires c.pos <= |code| && CodeStep(code, cpu, c) == Running(Config(pos, s, Fall)) && pos <= |code| && rel(pc, pos)
    ensures Matches(code, cpu, rel, c, Go(pc, s))
  {
    ReachesNow(code, cpu, c);
    assert LandsAt(code, cpu, rel, c, pc, s, pos);
  }

  // ----- jumps -----

  predicate JumpKept(body: seq<Item>, code: seq<Cmd>, rel: Relation, n: Name) {
    var k, m := Find(body, n), FindMark(code, n, 0);
    if k.Some? then m.Some? && rel(k.value, m.value) else m.None?
  }

  /** Labels are found in both, at related places, or in neither. */
  ghost predicate JumpsKept(body: seq<Item>, code: seq<Cmd>, rel: Relation) {
    forall n: Name {:trigger JumpKept(body, code, rel, n)} :: n.User? ==> JumpKept(body, code, rel, n)
  }

  /** What a branch decides, where it stands in a block. */
  function Decision(i: Instr, cpu: Cpu, s: State): Pending {
    match i.kind
    case Goto(target) => To(target)
    case If(test, target) => if Taken(test, ReadAll(s, i.uses)) then To(target) else Fall
    case Switch => To(User(cpu.table(i.op, ReadAll(s, i.uses))))
    case Return => Leave
    case _ => Fall
  }

  /** Where a decided branch leads in the program. */
  function Resolved(body: seq<Item>, decided: Pending, s: State, after: nat): Next {
    if decided.To? then Jump(body, decided.name, s) else if decided.Leave? then Stop(Returned, s) else Go(after, s)
  }

  /** Where a block that ends at `pos` goes on. */
  lemma BlockEnds(body: seq<Item>, code: seq<Cmd>, cpu: Cpu, rel: Relation, pos: nat, decided: Pending, s: State, after: nat)
    requires JumpsKept(body, code, rel) && pos < |code| && code[pos].End? && (decided.To? ==> decided.name.User?)
    requires decided.Fall? ==> Matches(code, cpu, rel, Config(pos, s, Fall), Go(after, s))
    ensures Matches(code, cpu, rel, Config(pos, s, decided), Resolved(body, decided, s, after))
  {
    if decided.To? {
      assert JumpKept(body, code, rel, decided.name);
      var k, c := Find(body, decided.name), Config(pos, s, decided);
      if k.Some? {
        Arrives(code, cpu, rel, c, k.value, FindMark(code, decided.name, 0).value, s);
      } else {
        ReachesNow(code, cpu, c);
      }
    } else if decided.Leave? {
      ReachesNow(code, cpu, Config(pos, s, Leave));
    }
  }

  predicate InOrder(i: Instr) {
    i.kind.Goto? || i.kind.If? || i.kind.Switch? || i.kind.Return?
  }

  /** The branch, the delay slot and the end of their block. */
  lemma RunBranch(code: seq<Cmd>, cpu: Cpu, rel: Relation, p: nat, i: Instr, slot: Instr, s: State, next: Next)
    requires p + 2 < |code| && code[p] == Do(i) && code[p + 1] == Do(slot) && InOrder(i) && slot.kind.Plain?
    requires Matches(code, cpu, rel, Config(p + 2, After(slot, cpu, s), Decision(i, cpu, s)), next)
    ensures Matches(code, cpu, rel, Config(p, s, Fall), next)
  {
    var decided := Decision(i, cpu, s);
    var c1 := Config(p + 1, s, decided);
    MatchesLater(code, cpu, rel, c1, Config(p + 2, After(slot, cpu, s), decided), next);
    MatchesLater(code, cpu, rel, Config(p, s, Fall), c1, next);
  }

  /** A block of a branch and a nop. */
  lemma RunAround(code: seq<Cmd>, cpu: Cpu, rel: Relation, p: nat, i: Instr, s: State, next: Next)
    requires p + 2 < |code| && code[p] == Do(i) && code[p + 1] == Do(NOP) && (i.kind.Goto? || i.kind.If?)
    requires Matches(code, cpu, rel, Config(p + 2, s, Decision(i, cpu, s)), next)
    ensures Matches(code, cpu, rel, Config(p, s, Fall), next)
  {
    NopDoesNothing(cpu, s);
    RunBranch(code, cpu, rel, p, i, NOP, s, next);
  }

  /** The end of a block that jumps to the mark at `m`, and one plain instruction after it. */
  lemma JumpAndRun(code: seq<Cmd>, cpu: Cpu, rel: Relation, p: nat, n: Name, m: nat, i: Instr, s: State, pc: nat)
    requires p < |code| && code[p].End? && FindMark(code, n, 0) == Some(m) && m + 1 < |code|
    requires code[m].Mark? && code[m + 1] == Do(i) && i.kind.Plain? && rel(pc, m + 2)
    ensures Matches(code, cpu, rel, Config(p, s, To(n)), Go(pc, After(i, cpu, s)))
  {
    var next, c1, c2 := Go(pc, After(i, cpu, s)), Config(m, s, Fall), Config(m + 1, s, Fall);
    Arrives(code, cpu, rel, c2, pc, m + 2, After(i, cpu, s));
    MatchesLater(code, cpu, rel, c1, c2, next);
    MatchesLater(code, cpu, rel, Config(p, s, To(n)), c1, next);
  }

  // ----- the fragments -----

  /** A branch and its delay slot, in their order. */
  lemma SimulateBranch(body: seq<Item>, code: seq<Cmd>, cpu: Cpu, rel: Relation, p: nat, i: Instr, slot: Instr, s: State, after: nat)
    requires p + 2 < |code| && code[p] == Do(i) && code[p + 1] == Do(slot) && code[p + 2] == End
    requires InOrder(i) && slot.kind.Plain? && JumpsKept(body, code, rel)
    requires Decision(i, cpu, s).To? ==> Decision(i, cpu, s).name.User?
    requires Decision(i, cpu, s).Fall? ==>
      Matches(code, cpu, rel, Config(p + 2, After(slot, cpu, s), Fall), Go(after, After(slot, cpu, s)))
    ensures Matches(code, cpu, rel, Config(p, s, Fall), Resolved(body, Decision(i, cpu, s), After(slot, cpu, s), after))
  {
    var t := After(slot, cpu, s);
    BlockEnds(body, code, cpu, rel, p + 2, Decision(i, cpu, s), t, after);
    RunBranch(code, cpu, rel, p, i, slot, s, Resolved(body, Decision(i, cpu, s), t, after));
  }

  /** After falling through a delay slot with a label, the slot runs again, to no effect. */
  lemma FallThroughSlot(code: seq<Cmd>, cpu: Cpu, rel: Relation, p: nat, slot: Instr, s: State, pc: nat)
    requires p + 2 < |code| && code[p] == End && code[p + 1].Mark? && code[p + 2] == Do(slot)
    requires slot.kind.Plain? && Repeatable(slot) && Harmless(slot) && rel(pc, p + 3)
    ensures Matches(code, cpu, rel, Config(p, After(slot, cpu, s), Fall), Go(pc, After(slot, cpu, s)))
  {
    var t := After(slot, cpu, s);
    TwiceIsOnce(slot, cpu, s);
    var c0, c1, c2 := Config(p, t, Fall), Config(p + 1, t, Fall), Config(p + 2, t, Fall);
    Arrives(code, cpu, rel, c2, pc, p + 3, t);
    MatchesLater(code, cpu, rel, c1, c2, Go(pc, t));
    MatchesLater(code, cpu, rel, c0, c1, Go(pc, t));
  }

  /** The rest of a branch-likely that is taken: the delay slot, then the jump. */
  lemma LikelyTaken(body: seq<Item>, code: seq<Cmd>, cpu: Cpu, rel: Relation, p: nat, slot: Instr, target: Name, s: State)
    requires JumpsKept(body, code, rel) && target.User? && slot.kind.Plain? && p + 4 < |code| && code[p] == End
    requires code[p + 1] == Do(slot) && code[p + 2] == Do(Branch(target)) && code[p + 3] == Do(NOP) && code[p + 4] == End
    ensures Matches(code, cpu, rel, Config(p, s, Fall), Jump(body, target, After(slot, cpu, s)))
  {
    var t := After(slot, cpu, s);
    var next, c0, c1, c2 := Jump(body, target, t), Config(p, s, Fall), Config(p + 1, s, Fall), Config(p + 2, t, Fall);
    BlockEnds(body, code, cpu, rel, p + 4, To(target), t, 0);
    RunAround(code, cpu, rel, p + 2, Branch(target), t, next);
    MatchesLater(code, cpu, rel, c1, c2, next);
    MatchesLater(code, cpu, rel, c0, c1, next);
  }

  lemma LikelyShape(code: seq<Cmd>, p: nat, i: Instr, slot: Instr, index: nat)
    requires i.kind.Likely? && p + 9 <= |code| && code[p..p + 9] == LikelyCode(i, slot, index)
    ensures code[p] == Do(Retargeted(i, LikelyOf(index, i.kind.target))) && code[p + 1] == Do(NOP) && code[p + 2] == End
    ensures code[p + 3] == Do(slot) && code[p + 4] == Do(Branch(i.kind.target)) && code[p + 5] == Do(NOP) && code[p + 6] == End
    ensures code[p + 7] == Mark([LikelyOf(index, i.kind.target)]) && code[p + 8] == Do(NOP)
  {
    var f := code[p..p + 9];
    assert forall k :: 0 <= k < 9 ==> code[p + k] == f[k];
  }

  /** An inverted branch that skips the delay slot of a branch-likely. */
  lemma SimulateLikely(body: seq<Item>, code: seq<Cmd>, cpu: Cpu, rel: Relation, p: nat, i: Instr, slot: Instr, index: nat,
                       s: State, after: nat)
    requires i.kind.Likely? && i.kind.target.User? && slot.kind.Plain? && JumpsKept(body, code, rel)
    requires p + 9 <= |code| && code[p..p + 9] == LikelyCode(i, slot, index)
    requires FindMark(code, LikelyOf(index, i.kind.target), 0) == Some(p + 7) && rel(after, p + 9)
    ensures Matches(code, cpu, rel, Config(p, s, Fall),
      if Taken(i.kind.test, ReadAll(s, i.uses)) then Jump(body, i.kind.target, After(slot, cpu, s)) else Go(after, s))
  {
    LikelyShape(code, p, i, slot, index);
    InvertedBranch(i.kind.test, ReadAll(s, i.uses));
    var n := LikelyOf(index, i.kind.target);
    if Taken(i.kind.test, ReadAll(s, i.uses)) {
      LikelyTaken(body, code, cpu, rel, p + 2, slot, i.kind.target, s);
      RunAround(code, cpu, rel, p, Retargeted(i, n), s, Jump(body, i.kind.target, After(slot, cpu, s)));
    } else {
      NopDoesNothing(cpu, s);
      JumpAndRun(code, cpu, rel, p + 2, n, p + 7, NOP, s, after);
      RunAround(code, cpu, rel, p, Retargeted(i, n), s, Go(after, s));
    }
  }

  lemma SkipShape(code: seq<Cmd>, p: nat, i: Instr, slot: Instr, names: seq<Name>)
    requires (i.kind.Goto? || i.kind.If?) && names != [] && p + 12 <= |code| && code[p..p + 12] == SkipCode(i, slot, names)
    ensures code[p] == Do(Retargeted(i, SkipOf(names[0]))) && code[p + 1] == Do(NOP) && code[p + 2] == End
    ensures code[p + 3] == Do(Branch(names[0])) && code[p + 4] == Do(NOP) && code[p + 5] == End
    ensures code[p + 6] == Mark([SkipOf(names[0])]) && code[p + 7] == Do(Branch(i.kind.target)) && code[p + 8] == Do(slot)
    ensures code[p + 9] == End && code[p + 10] == Mark(names) && code[p + 11] == Do(slot)
  {
    var f := code[p..p + 12];
    assert forall k :: 0 <= k < 12 ==> code[p + k] == f[k];
  }

  /** A block that only jumps. */
  lemma OnlyJumps(code: seq<Cmd>, cpu: Cpu, rel: Relation, p: nat, target: Name, s: State, next: Next)
    requires p + 3 < |code| && code[p] == End && code[p + 1] == Do(Branch(target)) && code[p + 2] == Do(NOP) && code[p + 3] == End
    requires Matches(code, cpu, rel, Config(p + 3, s, To(target)), next)
    ensures Matches(code, cpu, rel, Config(p, s, Fall), next)
  {
    RunAround(code, cpu, rel, p + 1, Branch(target), s, next);
    MatchesLater(code, cpu, rel, Config(p, s, Fall), Config(p + 1, s, Fall), next);
  }

  /** Taken: a jump to the skip label, whose block runs the delay slot and goes to the target. */
  lemma SkipTaken(body: seq<Item>, code: seq<Cmd>, cpu: Cpu, rel: Relation, p: nat, n: Name, target: Name, slot: Instr, s: State)
    requires JumpsKept(body, code, rel) && target.User? && slot.kind.Plain?
    requires p + 7 < |code| && code[p] == End && FindMark(code, n, 0) == Some(p + 4) && code[p + 4].Mark?
    requires code[p + 5] == Do(Branch(target)) && code[p + 6] == Do(slot) && code[p + 7] == End
    ensures Matches(code, cpu, rel, Config(p, s, To(n)), Jump(body, target, After(slot, cpu, s)))
  {
    var t, c := After(slot, cpu, s), Config(p + 4, s, Fall);
    var next := Jump(body, target, t);
    BlockEnds(body, code, cpu, rel, p + 7, To(target), t, 0);
    RunBranch(code, cpu, rel, p + 5, Branch(target), slot, s, next);
    MatchesLater(code, cpu, rel, c, Config(p + 5, s, Fall), next);
    MatchesLater(code, cpu, rel, Config(p, s, To(n)), c, next);
  }

  /** A branch around a delay slot that has a label. */
  lemma SimulateSkip(body: seq<Item>, code: seq<Cmd>, cpu: Cpu, rel: Relation, p: nat, i: Instr, slot: Instr, names: seq<Name>,
                     s: State, after: nat)
    requires (i.kind.Goto? || i.kind.If?) && i.kind.target.User? && slot.kind.Plain? && JumpsKept(body, code, rel) && names != []
    requires p + 12 <= |code| && code[p..p + 12] == SkipCode(i, slot, names)
    requires FindMark(code, SkipOf(names[0]), 0) == Some(p + 6) && FindMark(code, names[0], 0) == Some(p + 10)
    requires rel(after, p + 12)
    ensures Matches(code, cpu, rel, Config(p, s, Fall), Resolved(body, Decision(i, cpu, s), After(slot, cpu, s), after))
  {
    SkipShape(code, p, i, slot, names);
    var n, next := SkipOf(names[0]), Resolved(body, Decision(i, cpu, s), After(slot, cpu, s), after);
    if Decision(i, cpu, s).To? {
      SkipTaken(body, code, cpu, rel, p + 2, n, i.kind.target, slot, s);
    } else {
      JumpAndRun(code, cpu, rel, p + 5, names[0], p + 10, slot, s, after);
      OnlyJumps(code, cpu, rel, p + 2, names[0], s, next);
    }
    RunAround(code, cpu, rel, p, Retargeted(i, n), s, next);
  }

  /** The safeguard return at the end of the code. */
  lemma SimulateEnd(code: seq<Cmd>, cpu: Cpu, rel: Relation, p: nat, s: State)
    requires p + 2 < |code| && code[p] == Do(RETURN) && code[p + 1] == Do(NOP) && code[p + 2] == End
    ensures Matches(code, cpu, rel, Config(p, s, Fall), Stop(Returned, s))
  {
    NopDoesNothing(cpu, s);
    ReachesNow(code, cpu, Config(p + 2, s, Leave));
    RunBranch(code, cpu, rel, p, RETURN, NOP, s, Stop(Returned, s));
  }

  /** A call after its delay slot still finds its source. */
  lemma SimulateCall(code: seq<Cmd>, cpu: Cpu, rel: Relation, p: nat, i: Instr, slot: Instr, s: State, after: nat)
    requires p + 2 <= |code| && code[p] == Do(slot) && code[p + 1] == Do(i) && slot.kind.Plain? && i.kind.Call? && rel(after, p + 2)
    requires i.kind.source.Some? ==> i.kind.source.value !in Writes(slot)
    ensures Matches(code, cpu, rel, Config(p, s, Fall), Go(after, AfterCall(i, cpu, SourceValue(i, s), After(slot, cpu, s))))
  {
    var t := After(slot, cpu, s);
    assert SourceValue(i, t) == SourceValue(i, s);
    var c1, u := Config(p + 1, t, Fall), AfterCall(i, cpu, SourceValue(i, s), t);
    Arrives(code, cpu, rel, c1, after, p + 2, u);
    MatchesLater(code, cpu, rel, Config(p, s, Fall), c1, Go(after, u));
  }

  // ----- whole runs -----

  lemma {:induction false} CodeRunJoin(code: seq<Cmd>, cpu: Cpu, c: Config, m: nat, n: nat)
    requires c.pos <= |code| && CodeRun(code, cpu, c, m).Running?
    ensures CodeRun(code, cpu, c, m + n) == CodeRun(code, cpu, CodeRun(code, cpu, c, m).config, n)
    decreases m
  {
    if m > 0 {
      CodeRunJoin(code, cpu, CodeStep(code, cpu, c).config, m - 1, n);
    }
  }

  lemma {:induction false} CodeStaysHalted(code: seq<Cmd>, cpu: Cpu, c: Config, m: nat, n: nat)
    requires c.pos <= |code| && m <= n && CodeRun(code, cpu, c, m).Halted?
    ensures CodeRun(code, cpu, c, n) == CodeRun(code, cpu, c, m)
    decreases m
  {
    var next := CodeStep(code, cpu, c);
    if next.Running? {
      CodeStaysHalted(code, cpu, next.config, m - 1, n - 1);
    }
  }

  /** Both have ended, alike, or both are still running, in the same state and at related places. */
  predicate Agree(rel: Relation, next: Next, out: CodeNext) {
    if next.Stop? then out == Halted(next.why, next.state)
    else out.Running? && out.config == Config(out.config.pos, next.state, Fall) && rel(next.pc, out.config.pos)
  }

  ghost predicate StepKept(body: seq<Item>, code: seq<Cmd>, cpu: Cpu, rel: Relation, pc: nat, pos: nat, s: State)
    requires pc <= |body| && pos <= |code|
  {
    Matches(code, cpu, rel, Config(pos, s, Fall), MachineStep(body, cpu, pc, s))
  }

  /** Every machine step from related places is matched, and leads to related places. */
  ghost predicate Kept(body: seq<Item>, code: seq<Cmd>, cpu: Cpu, rel: Relation) {
    forall pc: nat, pos: nat, s: State {:trigger StepKept(body, code, cpu, rel, pc, pos, s)} ::
      pc <= |body| && pos <= |code| && rel(pc, pos) ==> StepKept(body, code, cpu, rel, pc, pos, s)
  }

  /** Any number of machine steps is matched by at least as many steps of the code. */
  lemma {:induction false} RunMatches(body: seq<Item>, code: seq<Cmd>, cpu: Cpu, rel: Relation, pc: nat, pos: nat, s: State,
                                      n: nat) returns (k: nat)
    requires pc <= |body| && pos <= |code| && rel(pc, pos) && Kept(body, code, cpu, rel)
    ensures Agree(rel, MachineRun(body, cpu, pc, s, n), CodeRun(code, cpu, Config(pos, s, Fall), k))
    ensures MachineRun(body, cpu, pc, s, n).Go? ==> k >= n
    decreases n
  {
    if n == 0 {
      k := 0;
    } else {
      assert StepKept(body, code, cpu, rel, pc, pos, s);
      var c, next := Config(pos, s, Fall), MachineStep(body, cpu, pc, s);
      if next.Stop? {
        k :| k >= 1 && CodeRun(code, cpu, c, k) == Halted(next.why, next.state);
      } else {
        var pos': nat :| LandsAt(code, cpu, rel, c, next.pc, next.state, pos');
        var m: nat :| m >= 1 && CodeRun(code, cpu, c, m) == Running(Config(pos', next.state, Fall));
        var rest := RunMatches(body, code, cpu, rel, next.pc, pos', next.state, n - 1);
        CodeRunJoin(code, cpu, Config(pos, s, Fall), m, rest);
        k := m + rest;
      }
    }
  }

  ghost predicate MachineEnds(body: seq<Item>, cpu: Cpu, s: State, why: Exit, t: State) {
    exists n: nat :: MachineRun(body, cpu, 0, s, n) == Stop(why, t)
  }

  ghost predicate CodeEnds(code: seq<Cmd>, cpu: Cpu, s: State, why: Exit, t: State) {
    exists n: nat :: CodeRun(code, cpu, Config(0, s, Fall), n) == Halted(why, t)
  }

  // ----- memory events of runs that may never end -----

  function MachineTrace(body: seq<Item>, cpu: Cpu, s: State): nat -> seq<Event> {
    (n: nat) => MachineRun(body, cpu, 0, s, n).state.memory
  }

  function Memory(out: CodeNext): seq<Event> {
    if out.Running? then out.config.state.memory else out.state.memory
  }

  function CodeTrace(code: seq<Cmd>, cpu: Cpu, s: State): nat -> seq<Event> {
    (n: nat) => Memory(CodeRun(code, cpu, Config(0, s, Fall), n))
  }

  ghost predicate Emitted(trace: nat -> seq<Event>, events: seq<Event>) {
    exists n: nat :: trace(n) == events
  }

  ghost predicate Foreseen(trace: nat -> seq<Event>, events: seq<Event>) {
    exists n: nat :: events <= trace(n)
  }

  /** What `a` has emitted at time `n`, `b` emits at some time, and what `b` has emitted, `a` emits in the end. */
  ghost predicate AlikeAt(a: nat -> seq<Event>, b: nat -> seq<Event>, n: nat) {
    Emitted(b, a(n)) && Foreseen(a, b(n))
  }

  /** Whatever one emits the other emits, and it emits nothing else, at any time. */
  ghost predicate SameEvents(a: nat -> seq<Event>, b: nat -> seq<Event>) {
    forall n: nat {:trigger AlikeAt(a, b, n)} :: AlikeAt(a, b, n)
  }

  lemma SameEventsJoin(a: nat -> seq<Event>, b: nat -> seq<Event>, c: nat -> seq<Event>)
    requires SameEvents(a, b) && SameEvents(b, c)
    ensures SameEvents(a, c)
  {
    forall n: nat {:trigger AlikeAt(a, c, n)}
      ensures AlikeAt(a, c, n)
    {
      assert AlikeAt(a, b, n);
      var m: nat :| b(m) == a(n);
      assert AlikeAt(b, c, m) && AlikeAt(b, c, n);
      var k: nat :| c(n) <= b(k);
      assert AlikeAt(a, b, k);
    }
  }

  lemma {:induction false} MemoryGrows(code: seq<Cmd>, cpu: Cpu, c: Config, m: nat, n: nat)
    requires c.pos <= |code| && m <= n
    ensures Memory(CodeRun(code, cpu, c, m)) <= Memory(CodeRun(code, cpu, c, n))
    decreases n
  {
    var next := CodeStep(code, cpu, c);
    assert c.state.memory <= Memory(next);
    if n > 0 && next.Running? {
      if m > 0 {
        MemoryGrows(code, cpu, next.config, m - 1, n - 1);
      } else {
        MemoryGrows(code, cpu, next.config, 0, n - 1);
      }
    }
  }

  /** A kept relation keeps the memory events, in runs that end and in runs that do not. */
  lemma RunsEmitAlike(body: seq<Item>, code: seq<Cmd>, cpu: Cpu, rel: Relation, s: State)
    requires rel(0, 0) && Kept(body, code, cpu, rel)
    ensures SameEvents(MachineTrace(body, cpu, s), CodeTrace(code, cpu, s))
  {
    var a, b, start := MachineTrace(body, cpu, s), CodeTrace(code, cpu, s), Config(0, s, Fall);
    forall n: nat {:trigger AlikeAt(a, b, n)}
      ensures AlikeAt(a, b, n)
    {
      var k := RunMatches(body, code, cpu, rel, 0, 0, s, n);
      assert b(k) == a(n);
      if n <= k {
        MemoryGrows(code, cpu, start, n, k);
      } else {
        CodeStaysHalted(code, cpu, start, k, n);
      }
      assert b(n) <= a(n);
    }
  }

  lemma RunsEndAlike(body: seq<Item>, code: seq<Cmd>, cpu: Cpu, rel: Relation, s: State, why: Exit, t: State)
    requires rel(0, 0) && Kept(body, code, cpu, rel)
    ensures MachineEnds(body, cpu, s, why, t) <==> CodeEnds(code, cpu, s, why, t)
  {
    if MachineEnds(body, cpu, s, why, t) {
      var n: nat :| MachineRun(body, cpu, 0, s, n) == Stop(why, t);
      var k := RunMatches(body, code, cpu, rel, 0, 0, s, n);
    }
    if CodeEnds(code, cpu, s, why, t) {
      var n: nat :| CodeRun(code, cpu, Config(0, s, Fall), n) == Halted(why, t);
      var k := RunMatches(body, code, cpu, rel, 0, 0, s, n);
      CodeStaysHalted(code, cpu, Config(0, s, Fall), n, if k > n then k else n);
      if MachineRun(body, cpu, 0, s, n).Stop? && k < n {
        CodeStaysHalted(code, cpu, Config(0, s, Fall), k, n);
      }
    }
  }
}
