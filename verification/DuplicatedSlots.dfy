/**
 * When a delay slot under a label may be duplicated (`process_delay_slots` of m2c/flow_graph.py): the source's test
 * lets through instructions that read what they clobber, and those do not survive being run twice.
 */
module DuplicatedSlots {
  import opened Wrappers
  import opened DelaySlots
  import opened BranchSimulation
  import opened LoweringProof

  const FIRST := User("L")

  const LAST := User("T")

  const BRANCH := Instr(1, [0], [], [], false, If(Bnez, LAST))

  /** A conditional branch over nothing but its delay slot, which has a label. */
  function Guarded(i: Instr): seq<Item> {
    [Ins(BRANCH), Label([FIRST]), Ins(i), Label([LAST])]
  }

  function GuardedCode(i: Instr): seq<Cmd> {
    [Do(BRANCH), Do(i), End, Mark([FIRST]), Do(i), End, Mark([LAST]), Do(RETURN), Do(NOP), End]
  }

  lemma GuardedWf(i: Instr)
    requires i.kind.Plain?
    ensures Wf(Guarded(i))
  {
    var body := Guarded(i);
    assert FIRST != LAST;
    forall k: nat {:trigger SlotIndex(body, k)} | k < |body| && body[k].Ins? && HasSlot(body[k].instr)
      ensures SlotIndex(body, k) == 2
    {
      assert k == 0;
    }
  }

  /** The slot comes twice in the code. */
  lemma GuardedLowered(i: Instr)
    requires i.kind.Plain? && Repeatable(i)
    ensures Wf(Guarded(i)) && Lower(Guarded(i)) == Ok(GuardedCode(i))
  {
    GuardedWf(i);
    var body, code := Guarded(i), GuardedCode(i);
    var b0 := Built([], map[]);
    var b1 := b0.(code := code[..3]);
    var b2 := b0.(code := code[..4]);
    var b3 := b0.(code := code[..5]);
    var b4 := b0.(code := code[..7]);
    assert LowerItem(body, 0, b0) == Ok((b1, 1)) by {
      assert b0.code + [Do(BRANCH), Do(i), End] == b1.code;
    }
    assert LowerItem(body, 1, b1) == Ok((b2, 2)) by {
      assert Close(b1.code) + [Mark([FIRST])] == b2.code;
    }
    assert LowerItem(body, 2, b2) == Ok((b3, 3)) by {
      assert b2.code + [Do(i)] == b3.code;
    }
    assert LowerItem(body, 3, b3) == Ok((b4, 4)) by {
      assert Close(b3.code) + [Mark([LAST])] == b4.code;
    }
    assert LowerAll(body, 4, b4) == Ok(code) by {
      assert b4.code + SAFEGUARD == code;
    }
    assert LowerAll(body, 3, b3) == Ok(code);
    assert LowerAll(body, 2, b2) == Ok(code);
    assert LowerAll(body, 1, b1) == Ok(code);
    assert LowerAll(body, 0, b0) == Ok(code);
  }

  /** Not taken, the branch runs its slot once on the machine. */
  lemma MachineRunsOnce(i: Instr, cpu: Cpu)
    requires i.kind.Plain?
    ensures MachineEnds(Guarded(i), cpu, ZEROS, Returned, After(i, cpu, ZEROS))
  {
    var body, t := Guarded(i), After(i, cpu, ZEROS);
    assert MachineStep(body, cpu, 0, ZEROS) == Go(3, t) by {
      assert SlotIndex(body, 0) == 2;
      assert ReadAll(ZEROS, BRANCH.uses) == [0];
    }
    assert MachineStep(body, cpu, 3, t) == Go(4, t);
    assert MachineRun(body, cpu, 4, t, 1) == Stop(Returned, t);
    assert MachineRun(body, cpu, 3, t, 2) == Stop(Returned, t);
    assert MachineRun(body, cpu, 0, ZEROS, 3) == Stop(Returned, t);
  }

  /** The code runs it twice. */
  lemma CodeRunsTwice(i: Instr, cpu: Cpu)
    requires i.kind.Plain?
    ensures CodeEnds(GuardedCode(i), cpu, ZEROS, Returned, After(i, cpu, After(i, cpu, ZEROS)))
  {
    var code, t := GuardedCode(i), After(i, cpu, ZEROS);
    var u := After(i, cpu, t);
    NopDoesNothing(cpu, u);
    assert ReadAll(ZEROS, BRANCH.uses) == [0];
    assert CodeStep(code, cpu, Config(9, u, Leave)) == Halted(Returned, u);
    assert CodeRun(code, cpu, Config(8, u, Leave), 2) == Halted(Returned, u);
    assert CodeRun(code, cpu, Config(7, u, Fall), 3) == Halted(Returned, u);
    assert CodeRun(code, cpu, Config(6, u, Fall), 4) == Halted(Returned, u);
    assert CodeRun(code, cpu, Config(5, u, Fall), 5) == Halted(Returned, u);
    assert CodeRun(code, cpu, Config(4, t, Fall), 6) == Halted(Returned, u);
    assert CodeRun(code, cpu, Config(3, t, Fall), 7) == Halted(Returned, u);
    assert CodeRun(code, cpu, Config(2, t, Fall), 8) == Halted(Returned, u);
    assert CodeRun(code, cpu, Config(1, ZEROS, Fall), 9) == Halted(Returned, u);
    assert CodeRun(code, cpu, Config(0, ZEROS, Fall), 10) == Halted(Returned, u);
  }

  /** Code ends in one way only. */
  lemma EndsOnce(code: seq<Cmd>, cpu: Cpu, s: State, why: Exit, t: State, why': Exit, t': State)
    requires CodeEnds(code, cpu, s, why, t) && CodeEnds(code, cpu, s, why', t')
    ensures why == why' && t == t'
  {
    var m: nat :| CodeRun(code, cpu, Config(0, s, Fall), m) == Halted(why, t);
    var n: nat :| CodeRun(code, cpu, Config(0, s, Fall), n) == Halted(why', t');
    if m <= n {
      CodeStaysHalted(code, cpu, Config(0, s, Fall), m, n);
    } else {
      CodeStaysHalted(code, cpu, Config(0, s, Fall), n, m);
    }
  }

  ghost predicate EndsAlways(body: seq<Item>, code: seq<Cmd>) {
    forall cpu: Cpu, s: State, why: Exit, t: State :: MachineEnds(body, cpu, s, why, t) <==> CodeEnds(code, cpu, s, why, t)
  }

  /**
   * For every instruction that passes the source's test, a branch with that instruction under a label in its delay slot
   * is lowered faithfully if and only if the instruction does not read what it clobbers.
   */
  lemma DuplicationIsExact(i: Instr)
    requires i.kind.Plain? && Repeatable(i)
    ensures EndsAlways(Guarded(i), GuardedCode(i)) <==> Harmless(i)
  {
    var body, code := Guarded(i), GuardedCode(i);
    GuardedLowered(i);
    if Harmless(i) {
      forall k: nat {:trigger RunsTwice(body, k)} | k < |body| && RunsTwice(body, k)
        ensures Harmless(body[k + 2].instr)
      {
        assert k == 0;
      }
      forall cpu: Cpu, s: State, why: Exit, t: State
        ensures MachineEnds(body, cpu, s, why, t) <==> CodeEnds(code, cpu, s, why, t)
      {
        LoweringSimulates(body, code, cpu, s, why, t);
      }
    } else {
      var x :| x in i.clobbers && x in i.uses;
      var k :| 0 <= k < |i.uses| && i.uses[k] == x;
      var cpu := Counting(k);
      var once := After(i, cpu, ZEROS);
      TwiceIsTwo(i, k);
      MachineRunsOnce(i, cpu);
      CodeRunsTwice(i, cpu);
      if CodeEnds(code, cpu, ZEROS, Returned, once) {
        EndsOnce(code, cpu, ZEROS, Returned, once, Returned, After(i, cpu, once));
      }
    }
  }

  /** A division of register 2 into register 1 that replaced three instructions, which also wrote registers 2 and 3. */
  const HALF := Instr(7, [2], [1], [3, 2], false, Plain)

  /** With `HALF` in its delay slot, a branch that is not taken leaves 1 in register 1 on the machine, and 2 in the code. */
  lemma HalvedTwice()
    ensures Wf(Guarded(HALF)) && Repeatable(HALF) && Lower(Guarded(HALF)) == Ok(GuardedCode(HALF))
    ensures exists t: State :: MachineEnds(Guarded(HALF), Counting(0), ZEROS, Returned, t) && Read(t, 1) == 1
    ensures exists t: State :: CodeEnds(GuardedCode(HALF), Counting(0), ZEROS, Returned, t) && Read(t, 1) == 2
  {
    var cpu := Counting(0);
    assert HALF.clobbers[1] == 2;
    GuardedLowered(HALF);
    TwiceIsTwo(HALF, 0);
    MachineRunsOnce(HALF, cpu);
    CodeRunsTwice(HALF, cpu);
    var t := After(HALF, cpu, ZEROS);
    assert Writes(HALF) == {1, 2, 3};
    assert Read(t, 1) == Read(t, 2) == 1;
    assert Read(After(HALF, cpu, t), 1) == Read(After(HALF, cpu, t), 2) == 2;
  }
}
