/**
 * `normalize_gcc_likely_branches` of m2c/flow_graph.py: a branch-likely that crosses one instruction becomes
 * an inverted branch over it.
 */
module GccLikely {
  import opened Wrappers
  import opened DelaySlots
  import opened BranchSimulation
  import opened LoweringProof

  /** A branch-likely that crosses just its delay slot. */
  predicate CrossesOne(body: seq<Item>, k: nat)
    requires k < |body|
  {
    && body[k].Ins? && body[k].instr.kind.Likely? && k + 2 < |body| && body[k + 1].Ins? && body[k + 2].Label?
    && body[k].instr.kind.target in body[k + 2].names
  }

  function NormalizeItem(body: seq<Item>, k: nat): (r: seq<Item>)
    requires k < |body|
    ensures 1 <= |r| <= 2
  {
    if CrossesOne(body, k) then [Ins(Retargeted(body[k].instr, body[k].instr.kind.target)), Ins(NOP)] else [body[k]]
  }

  /** The normalized form of the first `k` items. */
  function Normalized(body: seq<Item>, k: nat): seq<Item>
    requires k <= |body|
  {
    if k == 0 then [] else Normalized(body, k - 1) + NormalizeItem(body, k - 1)
  }

  method NormalizeGccLikelyBranches(body: seq<Item>) returns (newBody: seq<Item>)
    ensures newBody == Normalized(body, |body|)
  {
    newBody := [];
    for i := 0 to |body|
      invariant newBody == Normalized(body, i)
    {
      var item := body[i];
      if item.Ins? && item.instr.kind.Likely? && i + 2 < |body| {
        if body[i + 1].Ins? && body[i + 2].Label? && item.instr.kind.target in body[i + 2].names {
          newBody := newBody + [Ins(item.instr.(kind := If(InvertMnemonic(item.instr.kind.test), item.instr.kind.target)))];
          newBody := newBody + [Ins(NOP)];
          continue;
        }
      }
      newBody := newBody + [item];
    }
  }

  /** Where item `k` went. */
  function Place(body: seq<Item>, k: nat): nat
    requires k <= |body|
  {
    |Normalized(body, k)|
  }

  lemma {:induction false} NormalizedGrows(body: seq<Item>, k: nat, n: nat)
    requires k <= n <= |body|
    ensures Normalized(body, k) <= Normalized(body, n)
    decreases n
  {
    if k < n {
      NormalizedGrows(body, k, n - 1);
    }
  }

  /** What stands at the place of item `k`. */
  lemma PlaceOf(body: seq<Item>, k: nat)
    requires k < |body|
    ensures Place(body, k) < Place(body, k + 1) <= Place(body, |body|)
    ensures var norm := Normalized(body, |body|);
      if CrossesOne(body, k) then
        Place(body, k + 1) == Place(body, k) + 2 && norm[Place(body, k) + 1] == Ins(NOP) &&
        norm[Place(body, k)] == Ins(Retargeted(body[k].instr, body[k].instr.kind.target))
      else Place(body, k + 1) == Place(body, k) + 1 && norm[Place(body, k)] == body[k]
  {
    NormalizedGrows(body, k + 1, |body|);
    var norm, p, upTo := Normalized(body, |body|), Place(body, k), Normalized(body, k + 1);
    assert upTo == Normalized(body, k) + NormalizeItem(body, k);
    assert norm[p] == upTo[p];
    if CrossesOne(body, k) {
      assert norm[p + 1] == upTo[p + 1];
    }
  }

  /** Every item of the normalized body comes from one of the original. */
  lemma {:induction false} Origin(body: seq<Item>, n: nat, q: nat) returns (k: nat)
    requires n <= |body| && q < Place(body, n)
    ensures k < n && (q == Place(body, k) || (CrossesOne(body, k) && q == Place(body, k) + 1))
    decreases n
  {
    if q < Place(body, n - 1) {
      k := Origin(body, n - 1, q);
    } else {
      k := n - 1;
    }
  }

  lemma LabelStays(body: seq<Item>, q: nat) returns (k: nat)
    requires q < |Normalized(body, |body|)| && Normalized(body, |body|)[q].Label?
    ensures k < |body| && q == Place(body, k) && body[k] == Normalized(body, |body|)[q]
  {
    k := Origin(body, |body|, q);
    PlaceOf(body, k);
  }

  lemma FindPlace(body: seq<Item>, n: Name)
    requires UniqueLabels(body)
    ensures var norm := Normalized(body, |body|);
      if Find(body, n).Some? then Find(norm, n) == Some(Place(body, Find(body, n).value)) else Find(norm, n) == None
  {
    var norm := Normalized(body, |body|);
    if Find(body, n).Some? {
      PlaceOf(body, Find(body, n).value);
    }
    if Find(norm, n).Some? {
      var k := LabelStays(body, Find(norm, n).value);
    }
  }

  /** Normalizing keeps the delay slot of every other branch. */
  lemma SlotStays(body: seq<Item>, k: nat)
    requires Wf(body) && k < |body| && body[k].Ins? && HasSlot(body[k].instr) && !CrossesOne(body, k)
    ensures var norm := Normalized(body, |body|);
      SlotIndex(norm, Place(body, k)) == Place(body, SlotIndex(body, k)) < |norm| &&
      norm[Place(body, SlotIndex(body, k))] == body[SlotIndex(body, k)] &&
      Place(body, SlotIndex(body, k) + 1) == Place(body, SlotIndex(body, k)) + 1
  {
    var j := SlotIndex(body, k);
    assert body[j].instr.kind.Plain?;
    PlaceOf(body, k);
    PlaceOf(body, k + 1);
    PlaceOf(body, j);
  }

  lemma PlaceInside(body: seq<Item>, k: nat)
    requires k <= |body|
    ensures Place(body, k) <= |Normalized(body, |body|)|
  {
    if k < |body| {
      PlaceOf(body, k);
    }
  }

  // ----- one program that keeps up with another -----

  function Moved(next: Next, place: nat -> nat): Next {
    if next.Go? then Go(place(next.pc), next.state) else next
  }

  /** Labels are found at their new places. */
  ghost predicate LabelsMove(body: seq<Item>, norm: seq<Item>, place: nat -> nat) {
    forall n: Name {:trigger Find(body, n)} ::
      Find(norm, n) == if Find(body, n).Some? then Some(place(Find(body, n).value)) else None
  }

  /** The same item does the same thing. */
  lemma SameStep(body: seq<Item>, norm: seq<Item>, cpu: Cpu, place: nat -> nat, k: nat, s: State)
    requires k < |body| && place(k) < |norm| && norm[place(k)] == body[k] && place(k + 1) == place(k) + 1
    requires LabelsMove(body, norm, place)
    requires body[k].Ins? && HasSlot(body[k].instr) ==>
      var j := SlotIndex(body, k);
      j < |body| && SlotIndex(norm, place(k)) == place(j) < |norm| && norm[place(j)] == body[j] && place(j + 1) == place(j) + 1
    ensures MachineStep(norm, cpu, place(k), s) == Moved(MachineStep(body, cpu, k, s), place)
  {
    if body[k].Ins? && body[k].instr.kind.Switch? {
      var n := User(cpu.table(body[k].instr.op, ReadAll(s, body[k].instr.uses)));
      assert Find(body, n) == Find(body, n);
    }
  }

  /** One step is matched by one step or two. */
  ghost predicate StepMoved(body: seq<Item>, norm: seq<Item>, cpu: Cpu, place: nat -> nat, k: nat, s: State)
    requires k <= |body| && place(k) <= |norm|
  {
    exists m: nat :: m >= 1 && MachineRun(norm, cpu, place(k), s, m) == Moved(MachineStep(body, cpu, k, s), place)
  }

  ghost predicate StepsMove(body: seq<Item>, norm: seq<Item>, cpu: Cpu, place: nat -> nat) {
    && (forall k :: 0 <= k <= |body| ==> place(k) <= |norm|)
    && (forall k: nat, s: State {:trigger StepMoved(body, norm, cpu, place, k, s)} ::
      k <= |body| ==> StepMoved(body, norm, cpu, place, k, s))
  }

  lemma {:induction false} MachineStays(body: seq<Item>, cpu: Cpu, pc: nat, s: State, m: nat, n: nat)
    requires pc <= |body| && m <= n && MachineRun(body, cpu, pc, s, m).Stop?
    ensures MachineRun(body, cpu, pc, s, n) == MachineRun(body, cpu, pc, s, m)
    decreases m
  {
    var next := MachineStep(body, cpu, pc, s);
    if next.Go? {
      MachineStays(body, cpu, next.pc, next.state, m - 1, n - 1);
    }
  }

  lemma OneStep(body: seq<Item>, cpu: Cpu, pc: nat, s: State)
    requires pc <= |body|
    ensures MachineRun(body, cpu, pc, s, 1) == MachineStep(body, cpu, pc, s)
  {
  }

  lemma TwoSteps(body: seq<Item>, cpu: Cpu, p: nat, q: nat, s: State)
    requires p <= |body| && q <= |body| && MachineStep(body, cpu, p, s) == Go(q, s)
    ensures MachineRun(body, cpu, p, s, 2) == MachineStep(body, cpu, q, s)
  {
    OneStep(body, cpu, q, s);
  }

  /** A step, then the rest. */
  lemma StepThen(body: seq<Item>, cpu: Cpu, pc: nat, s: State, n: nat)
    requires pc <= |body| && n >= 1
    ensures var next := MachineStep(body, cpu, pc, s);
      MachineRun(body, cpu, pc, s, n) == if next.Stop? then next else MachineRun(body, cpu, next.pc, next.state, n - 1)
  {
  }

  lemma {:induction false} MachineRunJoin(body: seq<Item>, cpu: Cpu, pc: nat, s: State, m: nat, n: nat)
    requires pc <= |body| && MachineRun(body, cpu, pc, s, m).Go?
    ensures MachineRun(body, cpu, pc, s, m + n) ==
      MachineRun(body, cpu, MachineRun(body, cpu, pc, s, m).pc, MachineRun(body, cpu, pc, s, m).state, n)
    decreases m
  {
    if m > 0 {
      var next := MachineStep(body, cpu, pc, s);
      StepThen(body, cpu, pc, s, m);
      StepThen(body, cpu, pc, s, m + n);
      MachineRunJoin(body, cpu, next.pc, next.state, m - 1, n);
    }
  }

  /** Any number of steps. */
  lemma {:induction false} RunMoves(body: seq<Item>, norm: seq<Item>, cpu: Cpu, place: nat -> nat, k: nat, s: State, n: nat)
      returns (m: nat)
    requires k <= |body| && StepsMove(body, norm, cpu, place)
    ensures m >= n && place(k) <= |norm|
    ensures MachineRun(norm, cpu, place(k), s, m) == Moved(MachineRun(body, cpu, k, s, n), place)
    decreases n
  {
    if n == 0 {
      m := 0;
    } else {
      assert StepMoved(body, norm, cpu, place, k, s);
      var next := MachineStep(body, cpu, k, s);
      StepThen(body, cpu, k, s, n);
      var a: nat :| a >= 1 && MachineRun(norm, cpu, place(k), s, a) == Moved(next, place);
      if next.Stop? {
        m := if a > n then a else n;
        MachineStays(norm, cpu, place(k), s, a, m);
      } else {
        var b := RunMoves(body, norm, cpu, place, next.pc, next.state, n - 1);
        MachineRunJoin(norm, cpu, place(k), s, a, b);
        m := a + b;
      }
    }
  }

  // ----- what normalizing does to a step -----

  lemma NormalizedLabels(body: seq<Item>, place: nat -> nat)
    requires UniqueLabels(body) && forall k: nat :: k <= |body| ==> place(k) == Place(body, k)
    ensures LabelsMove(body, Normalized(body, |body|), place)
  {
    forall n: Name
      ensures Find(Normalized(body, |body|), n) == if Find(body, n).Some? then Some(place(Find(body, n).value)) else None
    {
      FindPlace(body, n);
    }
  }

  /** Everything but a crossing branch-likely does what it did. */
  lemma OtherStep(body: seq<Item>, cpu: Cpu, place: nat -> nat, k: nat, s: State)
    requires Wf(body) && k < |body| && !CrossesOne(body, k)
    requires forall j: nat :: j <= |body| ==> place(j) == Place(body, j)
    ensures place(k) <= |Normalized(body, |body|)|
    ensures MachineStep(Normalized(body, |body|), cpu, place(k), s) == Moved(MachineStep(body, cpu, k, s), place)
  {
    PlaceOf(body, k);
    if body[k].Ins? && HasSlot(body[k].instr) {
      SlotOf(body, k);
      SlotStays(body, k);
    }
    NormalizedLabels(body, place);
    SameStep(body, Normalized(body, |body|), cpu, place, k, s);
  }

  /** Taken or not, the machine gets to the label. */
  lemma CrossingBefore(body: seq<Item>, cpu: Cpu, k: nat, s: State)
    requires Wf(body) && k < |body| && CrossesOne(body, k)
    ensures var i := body[k].instr;
      MachineStep(body, cpu, k, s) ==
        Go(k + 2, if Taken(i.kind.test, ReadAll(s, i.uses)) then After(body[k + 1].instr, cpu, s) else s)
  {
    assert SlotIndex(body, k) == k + 1 && body[k + 1].instr.kind.Plain?;
    LabelOnce(body, k + 2, body[k].instr.kind.target);
  }

  /** What stands where a crossing branch-likely stood. */
  lemma CrossingPlaces(body: seq<Item>, k: nat)
    requires Wf(body) && k < |body| && CrossesOne(body, k)
    ensures Place(body, k) + 3 == Place(body, k + 2) <= |Normalized(body, |body|)|
    ensures var (norm, p, i) := (Normalized(body, |body|), Place(body, k), body[k].instr);
      && p + 2 < |norm| && norm[p] == Ins(Retargeted(i, i.kind.target)) && norm[p + 1] == Ins(NOP) && norm[p + 2] == body[k + 1]
      && Find(norm, i.kind.target) == Some(p + 3) && body[k + 1].instr.kind.Plain?
  {
    PlaceOf(body, k);
    PlaceOf(body, k + 1);
    PlaceOf(body, k + 2);
    assert SlotIndex(body, k) == k + 1 && body[k + 1].instr.kind.Plain?;
    LabelOnce(body, k + 2, body[k].instr.kind.target);
    FindPlace(body, body[k].instr.kind.target);
  }

  lemma BranchOverNop(body: seq<Item>, cpu: Cpu, p: nat, i: Instr, to: nat, s: State)
    requires p + 1 < |body| && body[p] == Ins(i) && body[p + 1] == Ins(NOP) && i.kind.If? && Find(body, i.kind.target) == Some(to)
    ensures MachineStep(body, cpu, p, s) == Go(if Taken(i.kind.test, ReadAll(s, i.uses)) then to else p + 2, s)
  {
    NopDoesNothing(cpu, s);
    assert SlotIndex(body, p) == p + 1;
  }

  /** The inverted branch skips the instruction, or runs into it. */
  lemma CrossingAfter(body: seq<Item>, cpu: Cpu, k: nat, s: State)
    requires Wf(body) && k < |body| && CrossesOne(body, k)
    ensures Place(body, k) + 3 == Place(body, k + 2) <= |Normalized(body, |body|)|
    ensures var (norm, p, i) := (Normalized(body, |body|), Place(body, k), body[k].instr);
      && MachineStep(norm, cpu, p, s) == Go(if Taken(i.kind.test, ReadAll(s, i.uses)) then p + 2 else p + 3, s)
      && MachineStep(norm, cpu, p + 2, s) == Go(p + 3, After(body[k + 1].instr, cpu, s))
  {
    var norm, p, i := Normalized(body, |body|), Place(body, k), body[k].instr;
    CrossingPlaces(body, k);
    InvertedBranch(i.kind.test, ReadAll(s, i.uses));
    BranchOverNop(norm, cpu, p, Retargeted(i, i.kind.target), p + 3, s);
  }

  lemma CrossingStep(body: seq<Item>, cpu: Cpu, place: nat -> nat, k: nat, s: State)
    requires Wf(body) && k < |body| && CrossesOne(body, k)
    requires forall j: nat :: j <= |body| ==> place(j) == Place(body, j)
    ensures place(k) <= |Normalized(body, |body|)| && StepMoved(body, Normalized(body, |body|), cpu, place, k, s)
  {
    var norm, p, i := Normalized(body, |body|), Place(body, k), body[k].instr;
    CrossingBefore(body, cpu, k, s);
    CrossingAfter(body, cpu, k, s);
    var next := Moved(MachineStep(body, cpu, k, s), place);
    OneStep(norm, cpu, p, s);
    if Taken(i.kind.test, ReadAll(s, i.uses)) {
      TwoSteps(norm, cpu, p, p + 2, s);
      assert MachineRun(norm, cpu, place(k), s, 2) == next;
    } else {
      assert MachineRun(norm, cpu, place(k), s, 1) == next;
    }
  }

  /** One machine step is one step of the normalized program, or two. */
  lemma NormalizedSteps(body: seq<Item>, cpu: Cpu, place: nat -> nat)
    requires Wf(body) && forall k: nat :: k <= |body| ==> place(k) == Place(body, k)
    ensures StepsMove(body, Normalized(body, |body|), cpu, place)
  {
    var norm := Normalized(body, |body|);
    forall k | 0 <= k <= |body|
      ensures place(k) <= |norm|
    {
      PlaceInside(body, k);
    }
    forall k: nat, s: State | k <= |body|
      ensures StepMoved(body, norm, cpu, place, k, s)
    {
      if k < |body| && CrossesOne(body, k) {
        CrossingStep(body, cpu, place, k, s);
      } else {
        if k < |body| {
          OtherStep(body, cpu, place, k, s);
        }
        OneStep(norm, cpu, place(k), s);
        assert MachineRun(norm, cpu, place(k), s, 1) == Moved(MachineStep(body, cpu, k, s), place);
      }
    }
  }

  // ----- the normalized program is well-formed -----

  lemma NormalizedWf(body: seq<Item>)
    requires Wf(body)
    ensures Wf(Normalized(body, |body|))
  {
    NormalizedNames(body);
    NormalizedSlots(body);
    NormalizedUnique(body);
  }

  /** No branch-likely that crosses just one instruction is left. */
  lemma NoCrossingLeft(body: seq<Item>, q: nat)
    requires Wf(body) && q < |Normalized(body, |body|)|
    ensures !CrossesOne(Normalized(body, |body|), q)
  {
    var norm := Normalized(body, |body|);
    var k := Origin(body, |body|, q);
    PlaceOf(body, k);
    if CrossesOne(norm, q) && !CrossesOne(body, k) {
      var j := SlotIndex(body, k);
      assert body[j].Ins? && body[j].instr.kind.Plain?;
      PlaceOf(body, k + 1);
      if k + 2 < |body| {
        PlaceOf(body, k + 2);
      }
    }
  }

  predicate ItemNamed(body: seq<Item>, q: nat)
    requires q < |body|
  {
    if body[q].Label? then body[q].names != [] && (q + 1 < |body| ==> body[q + 1].Ins?) && forall n :: n in body[q].names ==> n.User?
    else UserTarget(body[q].instr)
  }

  lemma NormalizedNames(body: seq<Item>)
    requires Wf(body)
    ensures var norm := Normalized(body, |body|); Named(norm) && NoAdjacentLabels(norm) && UserNames(norm)
  {
    var norm := Normalized(body, |body|);
    forall q: nat | q < |norm|
      ensures ItemNamed(norm, q)
    {
      NormalizedItem(body, q);
    }
    AllNamed(norm);
  }

  lemma AllNamed(body: seq<Item>)
    requires forall q: nat {:trigger ItemNamed(body, q)} :: q < |body| ==> ItemNamed(body, q)
    ensures Named(body) && NoAdjacentLabels(body) && UserNames(body)
  {
    forall k | 0 <= k < |body| && body[k].Label?
      ensures body[k].names != [] && (k < |body| - 1 ==> body[k + 1].Ins?) && forall n :: n in body[k].names ==> n.User?
    {
      assert ItemNamed(body, k);
    }
    forall k | 0 <= k < |body| && body[k].Ins?
      ensures UserTarget(body[k].instr)
    {
      assert ItemNamed(body, k);
    }
  }

  lemma NormalizedItem(body: seq<Item>, q: nat)
    requires Wf(body) && q < |Normalized(body, |body|)|
    ensures ItemNamed(Normalized(body, |body|), q)
  {
    var k := Origin(body, |body|, q);
    PlaceOf(body, k);
    if body[k].Label? {
      if k + 1 < |body| {
        PlaceOf(body, k + 1);
      }
    } else {
      assert UserTarget(body[k].instr);
    }
  }

  lemma NormalizedSlots(body: seq<Item>)
    requires Wf(body)
    ensures SlotsPresent(Normalized(body, |body|)) && SlotsPlain(Normalized(body, |body|))
  {
    var norm := Normalized(body, |body|);
    forall q: nat | q < |norm| && norm[q].Ins? && HasSlot(norm[q].instr)
      ensures SlotIndex(norm, q) < |norm| && norm[SlotIndex(norm, q)].Ins? && norm[SlotIndex(norm, q)].instr.kind.Plain?
    {
      var k := Origin(body, |body|, q);
      PlaceOf(body, k);
      if CrossesOne(body, k) {
        assert SlotIndex(norm, q) == q + 1;
      } else {
        SlotStays(body, k);
        assert body[SlotIndex(body, k)].instr.kind.Plain?;
      }
    }
  }

  /** Normalizing adds no instruction that may run twice. */
  lemma NormalizedHarmless(body: seq<Item>)
    requires Wf(body) && RepeatsHarmless(body)
    ensures RepeatsHarmless(Normalized(body, |body|))
  {
    var norm := Normalized(body, |body|);
    forall q: nat {:trigger RunsTwice(norm, q)} | RunsTwice(norm, q)
      ensures Harmless(norm[q + 2].instr)
    {
      var k := Origin(body, |body|, q);
      PlaceOf(body, k);
      assert !CrossesOne(body, k);
      SlotStays(body, k);
      if k + 1 < |body| {
        PlaceOf(body, k + 1);
      }
      assert RunsTwice(body, k);
    }
  }

  lemma NormalizedUnique(body: seq<Item>)
    requires Wf(body)
    ensures UniqueLabels(Normalized(body, |body|))
  {
    var norm := Normalized(body, |body|);
    forall p: nat, q: nat, n | p < q < |norm| && norm[p].Label? && norm[q].Label? && n in norm[p].names
      ensures n !in norm[q].names
    {
      var j := LabelStays(body, p);
      var k := LabelStays(body, q);
      assert j != k;
    }
  }

  /** Normalizing GCC's branch-likelies changes no run, whether it ends or not. */
  lemma NormalizingSimulates(body: seq<Item>, cpu: Cpu, s: State, why: Exit, t: State)
    requires Wf(body)
    ensures MachineEnds(body, cpu, s, why, t) <==> MachineEnds(Normalized(body, |body|), cpu, s, why, t)
    ensures SameEvents(MachineTrace(body, cpu, s), MachineTrace(Normalized(body, |body|), cpu, s))
  {
    var place := (k: nat) => if k <= |body| then Place(body, k) else 0;
    NormalizedSteps(body, cpu, place);
    assert Place(body, 0) == 0;
    RunsMoveAlike(body, Normalized(body, |body|), cpu, place, s, why, t);
    EventsMoveAlike(body, Normalized(body, |body|), cpu, place, s);
  }

  lemma StepKeepsMemory(body: seq<Item>, cpu: Cpu, pc: nat, s: State)
    requires pc <= |body|
    ensures s.memory <= MachineStep(body, cpu, pc, s).state.memory
  {
  }

  lemma {:induction false} MachineMemoryGrows(body: seq<Item>, cpu: Cpu, pc: nat, s: State, m: nat, n: nat)
    requires pc <= |body| && m <= n
    ensures MachineRun(body, cpu, pc, s, m).state.memory <= MachineRun(body, cpu, pc, s, n).state.memory
    decreases n
  {
    if n > 0 {
      var next := MachineStep(body, cpu, pc, s);
      StepKeepsMemory(body, cpu, pc, s);
      StepThen(body, cpu, pc, s, n);
      if m > 0 {
        StepThen(body, cpu, pc, s, m);
      }
      if next.Go? {
        MachineMemoryGrows(body, cpu, next.pc, next.state, if m > 0 then m - 1 else 0, n - 1);
      }
    }
  }

  lemma EventsMoveAlike(body: seq<Item>, norm: seq<Item>, cpu: Cpu, place: nat -> nat, s: State)
    requires StepsMove(body, norm, cpu, place) && place(0) == 0
    ensures SameEvents(MachineTrace(body, cpu, s), MachineTrace(norm, cpu, s))
  {
    var a, b := MachineTrace(body, cpu, s), MachineTrace(norm, cpu, s);
    forall n: nat {:trigger AlikeAt(a, b, n)}
      ensures AlikeAt(a, b, n)
    {
      var m := RunMoves(body, norm, cpu, place, 0, s, n);
      assert b(m) == a(n);
      MachineMemoryGrows(norm, cpu, 0, s, n, m);
      assert b(n) <= a(n);
    }
  }

  lemma RunsMoveAlike(body: seq<Item>, norm: seq<Item>, cpu: Cpu, place: nat -> nat, s: State, why: Exit, t: State)
    requires StepsMove(body, norm, cpu, place) && place(0) == 0
    ensures MachineEnds(body, cpu, s, why, t) <==> MachineEnds(norm, cpu, s, why, t)
  {
    if MachineEnds(body, cpu, s, why, t) {
      var n: nat :| MachineRun(body, cpu, 0, s, n) == Stop(why, t);
      var m := RunMoves(body, norm, cpu, place, 0, s, n);
    }
    if MachineEnds(norm, cpu, s, why, t) {
      var n: nat :| MachineRun(norm, cpu, 0, s, n) == Stop(why, t);
      var m := RunMoves(body, norm, cpu, place, 0, s, n);
      MachineStays(norm, cpu, 0, s, n, m);
      assert MachineRun(body, cpu, 0, s, n) == Stop(why, t);
    }
  }

  /** From assembly to blocks: normalizing and lowering together. */
  lemma BlocksSimulate(body: seq<Item>, code: seq<Cmd>, cpu: Cpu, s: State, why: Exit, t: State)
    requires RepeatsHarmless(body)
    requires Wf(body)
    ensures Wf(Normalized(body, |body|))
    ensures Lower(Normalized(body, |body|)) == Ok(code) ==>
      && (MachineEnds(body, cpu, s, why, t) <==> CodeEnds(code, cpu, s, why, t))
      && SameEvents(MachineTrace(body, cpu, s), CodeTrace(code, cpu, s))
  {
    var norm := Normalized(body, |body|);
    NormalizedWf(body);
    NormalizedHarmless(body);
    if Lower(norm) == Ok(code) {
      NormalizingSimulates(body, cpu, s, why, t);
      LoweringSimulates(norm, code, cpu, s, why, t);
      SameEventsJoin(MachineTrace(body, cpu, s), MachineTrace(norm, cpu, s), CodeTrace(code, cpu, s));
    }
  }
}
