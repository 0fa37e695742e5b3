/**
 * The blocks that `process_delay_slots` emits behave as the machine with delay slots does: every position of
 * the lowered code stands for an item of the program, and generated labels never collide.
 */
module LoweringProof {
  import opened Wrappers
  import opened DelaySlots
  import opened BranchSimulation

  // ----- labels of lowered code -----

  predicate LabelBefore(body: seq<Item>, pc: nat, n: Name)
    requires pc <= |body|
  {
    exists k :: 0 <= k < pc && body[k].Label? && n in body[k].names
  }

  predicate NameBefore(body: seq<Item>, pc: nat, b: Built, n: Name)
    requires pc <= |body|
  {
    match n
    case User(_) => LabelBefore(body, pc, n)
    case SkipOf(base) => LabelBefore(body, pc, base)
    case LikelyOf(index, base) => index <= Count(b, base)
  }

  /** All names marked so far come from items already lowered. */
  predicate Fresh(body: seq<Item>, pc: nat, b: Built)
    requires pc <= |body|
  {
    forall p, n :: 0 <= p < |b.code| && b.code[p].Mark? && n in b.code[p].names ==> NameBefore(body, pc, b, n)
  }

  lemma NameLater(body: seq<Item>, pc: nat, pc': nat, b: Built, b': Built, n: Name)
    requires pc <= pc' <= |body| && NameBefore(body, pc, b, n) && forall t :: Count(b, t) <= Count(b', t)
    ensures NameBefore(body, pc', b', n)
  {
  }

  lemma FreshStep(body: seq<Item>, pc: nat, b: Built)
    requires pc < |body| && Wf(body) && Fresh(body, pc, b) && LowerItem(body, pc, b).Ok?
    ensures var (b', pc') := LowerItem(body, pc, b).value; Fresh(body, pc', b')
  {
    var (b', pc') := LowerItem(body, pc, b).value;
    forall t
      ensures Count(b, t) <= Count(b', t)
    {
    }
    forall p, n | 0 <= p < |b'.code| && b'.code[p].Mark? && n in b'.code[p].names
      ensures NameBefore(body, pc', b', n)
    {
      if p < |b.code| {
        assert b'.code[p] == b.code[p];
        NameLater(body, pc, pc', b, b', n);
      } else if body[pc].Label? {
        assert n in body[pc].names;
      } else if SlotIndex(body, pc) == pc + 2 {
        var names := body[pc + 1].names;
        assert names[0] in names;
      }
    }
  }

  /** The code so far is `b.code`, and lowering the rest gives the rest. */
  ghost predicate Here(body: seq<Item>, code: seq<Cmd>, pc: nat, b: Built) {
    Wf(body) && pc <= |body| && LowerAll(body, pc, b) == Ok(code) && Fresh(body, pc, b)
  }

  lemma HereStart(body: seq<Item>, code: seq<Cmd>)
    requires Wf(body) && Lower(body) == Ok(code)
    ensures Here(body, code, 0, Built([], map[]))
  {
  }

  lemma HereNext(body: seq<Item>, code: seq<Cmd>, pc: nat, b: Built)
    requires Here(body, code, pc, b) && pc < |body|
    ensures LowerItem(body, pc, b).Ok?
    ensures var (b', pc') := LowerItem(body, pc, b).value; Here(body, code, pc', b') && b.code <= b'.code <= code
  {
    FreshStep(body, pc, b);
  }

  /** The label at `k` is marked once in the code, and after the mark comes what follows the label. */
  ghost predicate MarkAt(body: seq<Item>, code: seq<Cmd>, k: nat, b: Built) {
    && k < |body| && body[k].Label? && Here(body, code, k + 1, b) && b.code != []
    && b.code[|b.code| - 1] == Mark(body[k].names)
    && forall n :: n in body[k].names ==> FindMark(code, n, 0) == Some(|b.code| - 1)
  }

  lemma {:induction false} FirstMark(code: seq<Cmd>, n: Name, m: nat, from: nat)
    requires from <= m < |code| && code[m].Mark? && n in code[m].names
    requires forall p :: from <= p < m && code[p].Mark? ==> n !in code[p].names
    ensures FindMark(code, n, from) == Some(m)
    decreases m - from
  {
    if from < m {
      FirstMark(code, n, m, from + 1);
    }
  }

  lemma NotYet(body: seq<Item>, pc: nat, k: nat, b: Built, n: Name)
    requires Wf(body) && pc <= k < |body| && body[k].Label? && n in body[k].names
    ensures n.User? && !NameBefore(body, pc, b, n)
  {
  }

  lemma NotMarked(body: seq<Item>, pc: nat, b: Built, n: Name, p: nat)
    requires pc <= |body| && Fresh(body, pc, b) && !NameBefore(body, pc, b, n) && p < |b.code| && b.code[p].Mark?
    ensures n !in b.code[p].names
  {
  }

  /** A mark of the label at `k` right after fresh code is the first with its names. */
  lemma MarkIsFirst(body: seq<Item>, code: seq<Cmd>, pc: nat, k: nat, b: Built, m: nat)
    requires Wf(body) && pc <= k < |body| && body[k].Label? && Fresh(body, pc, b)
    requires m < |code| && code[m] == Mark(body[k].names)
    requires forall p :: 0 <= p < m && code[p].Mark? ==>
      (p < |b.code| && code[p] == b.code[p]) || (forall n :: n in code[p].names ==> !n.User?)
    ensures forall n :: n in body[k].names ==> FindMark(code, n, 0) == Some(m)
  {
    forall n | n in body[k].names
      ensures FindMark(code, n, 0) == Some(m)
    {
      NotYet(body, pc, k, b, n);
      forall p | 0 <= p < m && code[p].Mark?
        ensures n !in code[p].names
      {
        if p < |b.code| && code[p] == b.code[p] {
          NotMarked(body, pc, b, n, p);
        }
      }
      FirstMark(code, n, m, 0);
    }
  }

  /** Every label of the program is found in the code. */
  lemma {:induction false} LabelIsMarked(body: seq<Item>, code: seq<Cmd>, pc: nat, b: Built, k: nat) returns (at: Built)
    requires Here(body, code, pc, b) && pc <= k < |body| && body[k].Label?
    ensures MarkAt(body, code, k, at)
    decreases |body| - pc
  {
    HereNext(body, code, pc, b);
    var (b', pc') := LowerItem(body, pc, b).value;
    if pc' <= k {
      at := LabelIsMarked(body, code, pc', b', k);
    } else if pc == k {
      at := b';
      var m := |b'.code| - 1;
      assert forall p :: 0 <= p < m ==> code[p] == b'.code[p];
      MarkIsFirst(body, code, pc, k, b, m);
    } else {
      at := MarkedInSkip(body, code, pc, b, k);
    }
  }

  /** The label of a delay slot that was not simply repeated. */
  lemma MarkedInSkip(body: seq<Item>, code: seq<Cmd>, pc: nat, b: Built, k: nat) returns (at: Built)
    requires Here(body, code, pc, b) && pc < k < |body| && body[k].Label? && LowerItem(body, pc, b).Ok?
    requires k < LowerItem(body, pc, b).value.1
    ensures MarkAt(body, code, k, at)
  {
    HereNext(body, code, pc, b);
    var (b', pc') := LowerItem(body, pc, b).value;
    var i, slot, names := body[pc].instr, body[pc + 2].instr, body[pc + 1].names;
    assert k == pc + 1 && SlotIndex(body, pc) == pc + 2;
    assert slot.kind.Plain?;
    var skip := SkipCode(i, slot, names);
    assert b'.code == b.code + skip;
    at := b.(code := b.code + skip[..11]);
    assert b.code + skip == at.code + [Do(slot)];
    assert LowerItem(body, pc + 2, at) == Ok((b', pc + 3));
    forall p, n | 0 <= p < |at.code| && at.code[p].Mark? && n in at.code[p].names
      ensures NameBefore(body, k + 1, at, n)
    {
      assert names[0] in names;
      if p < |b.code| {
        assert at.code[p] == b.code[p];
        NameLater(body, pc, k + 1, b, at, n);
      }
    }
    MarkIsFirst(body, code, pc, k, b, |at.code| - 1);
  }

  /** No label of the code pretends to be one of the program. */
  lemma {:induction false} UserMarksKnown(body: seq<Item>, code: seq<Cmd>, pc: nat, b: Built, n: Name)
    requires Here(body, code, pc, b) && n.User? && FindMark(code, n, 0).Some?
    ensures Find(body, n).Some?
    decreases |body| - pc
  {
    var p := FindMark(code, n, 0).value;
    if pc == |body| {
      assert code == b.code + SAFEGUARD;
      assert p < |b.code| && code[p] == b.code[p];
      assert NameBefore(body, pc, b, n);
    } else {
      HereNext(body, code, pc, b);
      var (b', pc') := LowerItem(body, pc, b).value;
      UserMarksKnown(body, code, pc', b', n);
    }
  }

  /** A generated label that is marked at `m`, right after code that cannot have it yet. */
  lemma GeneratedMark(body: seq<Item>, code: seq<Cmd>, pc: nat, b: Built, n: Name, m: nat)
    requires pc <= |body| && Fresh(body, pc, b) && !n.User? && !NameBefore(body, pc, b, n)
    requires |b.code| <= m < |code| && b.code <= code && code[m] == Mark([n])
    requires forall p :: |b.code| <= p < m ==> !code[p].Mark?
    ensures FindMark(code, n, 0) == Some(m)
  {
    forall p | 0 <= p < m && code[p].Mark?
      ensures n !in code[p].names
    {
      assert code[p] == b.code[p];
      NotMarked(body, pc, b, n, p);
    }
    FirstMark(code, n, m, 0);
  }

  lemma SkipIsNew(body: seq<Item>, pc: nat, b: Built)
    requires Wf(body) && pc + 1 < |body| && body[pc].Ins? && body[pc + 1].Label?
    ensures body[pc + 1].names != [] && !NameBefore(body, pc, b, SkipOf(body[pc + 1].names[0]))
  {
    var n := body[pc + 1].names[0];
    assert n in body[pc + 1].names;
    LabelOnce(body, pc + 1, n);
  }

  /** Only two of the commands are marks. */
  lemma SkipUnmarked(code: seq<Cmd>, p: nat, i: Instr, slot: Instr, names: seq<Name>)
    requires (i.kind.Goto? || i.kind.If?) && names != [] && p + 12 <= |code| && code[p..p + 12] == SkipCode(i, slot, names)
    ensures forall q :: p <= q < p + 10 && q != p + 6 ==> !code[q].Mark?
    ensures code[p + 6] == Mark([SkipOf(names[0])]) && code[p + 10] == Mark(names)
  {
    SkipShape(code, p, i, slot, names);
    forall q | p <= q < p + 10 && q != p + 6
      ensures !code[q].Mark?
    {
      assert q == p || q == p + 1 || q == p + 2 || q == p + 3 || q == p + 4 || q == p + 5 || q == p + 7 || q == p + 8 || q == p + 9;
    }
  }

  lemma SkipMarks(body: seq<Item>, code: seq<Cmd>, pc: nat, b: Built)
    requires Wf(body) && pc + 2 < |body| && body[pc].Ins? && body[pc + 1].Label? && body[pc + 2].Ins?
    requires (body[pc].instr.kind.Goto? || body[pc].instr.kind.If?) && Fresh(body, pc, b) && b.code <= code
    requires |b.code| + 12 <= |code| && body[pc + 1].names != []
    requires code[|b.code|..|b.code| + 12] == SkipCode(body[pc].instr, body[pc + 2].instr, body[pc + 1].names)
    ensures FindMark(code, SkipOf(body[pc + 1].names[0]), 0) == Some(|b.code| + 6)
    ensures FindMark(code, body[pc + 1].names[0], 0) == Some(|b.code| + 10)
  {
    var names := body[pc + 1].names;
    SkipUnmarked(code, |b.code|, body[pc].instr, body[pc + 2].instr, names);
    SkipIsNew(body, pc, b);
    GeneratedMark(body, code, pc, b, SkipOf(names[0]), |b.code| + 6);
    SkipMarkFirst(body, code, pc, b, SkipOf(names[0]));
  }

  lemma SkipMarkFirst(body: seq<Item>, code: seq<Cmd>, pc: nat, b: Built, n: Name)
    requires pc + 1 < |body| && Wf(body) && Fresh(body, pc, b) && body[pc + 1].Label? && b.code <= code && !n.User?
    requires |b.code| + 10 < |code| && code[|b.code| + 10] == Mark(body[pc + 1].names) && code[|b.code| + 6] == Mark([n])
    requires forall q :: |b.code| <= q < |b.code| + 10 && q != |b.code| + 6 ==> !code[q].Mark?
    ensures FindMark(code, body[pc + 1].names[0], 0) == Some(|b.code| + 10)
  {
    var m := |b.code| + 10;
    forall q | 0 <= q < m && code[q].Mark?
      ensures (q < |b.code| && code[q] == b.code[q]) || (forall x :: x in code[q].names ==> !x.User?)
    {
    }
    MarkIsFirst(body, code, pc, pc + 1, b, m);
    assert body[pc + 1].names[0] in body[pc + 1].names;
  }

  lemma LabelOnce(body: seq<Item>, k: nat, n: Name)
    requires Wf(body) && k < |body| && body[k].Label? && n in body[k].names
    ensures !LabelBefore(body, k, n) && Find(body, n) == Some(k)
  {
  }

  // ----- simulation -----

  /** Position `pos` of the code stands for item `pc`; a label may be about to be passed. */
  ghost predicate Stands(body: seq<Item>, code: seq<Cmd>, pc: nat, pos: nat) {
    || (exists b :: Here(body, code, pc, b) && |b.code| == pos)
    || (exists b :: MarkAt(body, code, pc, b) && |b.code| == pos + 1)
  }

  lemma StandsHere(body: seq<Item>, code: seq<Cmd>, pc: nat, b: Built)
    requires Here(body, code, pc, b)
    ensures |b.code| <= |code| && Stands(body, code, pc, |b.code|)
  {
  }

  lemma StandsAtMark(body: seq<Item>, code: seq<Cmd>, k: nat, b: Built)
    requires MarkAt(body, code, k, b)
    ensures Stands(body, code, k, |b.code| - 1)
  {
  }

  /** All labels are found, at places that stand for them. */
  lemma LabelsStand(body: seq<Item>, code: seq<Cmd>, rel: Relation)
    requires Wf(body) && Lower(body) == Ok(code) && Includes(body, code, rel)
    ensures JumpsKept(body, code, rel)
  {
    var start := Built([], map[]);
    HereStart(body, code);
    forall n: Name | n.User?
      ensures JumpKept(body, code, rel, n)
    {
      var k := Find(body, n);
      if k.Some? {
        var at := LabelIsMarked(body, code, 0, start, k.value);
        StandsAtMark(body, code, k.value, at);
        assert rel(k.value, |at.code| - 1);
      } else if FindMark(code, n, 0).Some? {
        UserMarksKnown(body, code, 0, start, n);
      }
    }
  }

  ghost predicate Includes(body: seq<Item>, code: seq<Cmd>, rel: Relation) {
    forall pc, pos :: rel(pc, pos) <==> Stands(body, code, pc, pos)
  }

  lemma Related(body: seq<Item>, code: seq<Cmd>, rel: Relation, pc: nat, b: Built)
    requires Includes(body, code, rel) && Here(body, code, pc, b)
    ensures |b.code| <= |code| && rel(pc, |b.code|)
  {
    StandsHere(body, code, pc, b);
  }

  // ----- what each item became -----

  lemma Fragment(code: seq<Cmd>, before: seq<Cmd>, fragment: seq<Cmd>)
    requires before + fragment <= code
    ensures |before| + |fragment| <= |code| && code[|before|..|before| + |fragment|] == fragment
    ensures forall k :: 0 <= k < |fragment| ==> code[|before| + k] == fragment[k]
  {
    assert code[|before|..|before| + |fragment|] == (before + fragment)[|before|..];
    forall k | 0 <= k < |fragment|
      ensures code[|before| + k] == fragment[k]
    {
      assert (before + fragment)[|before| + k] == fragment[k];
    }
  }

  /** One item lowered, seen from the code alone. */
  lemma HereAfter(body: seq<Item>, code: seq<Cmd>, rel: Relation, pc: nat, b: Built, b': Built, pc': nat, fragment: seq<Cmd>)
    requires Here(body, code, pc, b) && pc < |body| && Includes(body, code, rel)
    requires LowerItem(body, pc, b) == Ok((b', pc')) && b'.code == b.code + fragment
    ensures |b.code| + |fragment| <= |code| && code[|b.code|..|b.code| + |fragment|] == fragment
    ensures rel(pc', |b.code| + |fragment|)
  {
    HereNext(body, code, pc, b);
    Fragment(code, b.code, fragment);
    Related(body, code, rel, pc', b');
  }

  lemma Lowered(body: seq<Item>, code: seq<Cmd>, pc: nat, b: Built)
    requires Here(body, code, pc, b) && pc < |body|
    ensures Wf(body) && LowerItem(body, pc, b).Ok? && Fresh(body, pc, b) && b.code <= code
  {
    HereNext(body, code, pc, b);
  }

  lemma StepEnd(body: seq<Item>, code: seq<Cmd>, cpu: Cpu, rel: Relation, b: Built, s: State)
    requires Here(body, code, |body|, b)
    ensures |b.code| <= |code| && Matches(code, cpu, rel, Config(|b.code|, s, Fall), Stop(Returned, s))
  {
    Fragment(code, b.code, SAFEGUARD);
    var f := SAFEGUARD;
    assert code[|b.code|] == f[0] && code[|b.code| + 1] == f[1] && code[|b.code| + 2] == f[2];
    SimulateEnd(code, cpu, rel, |b.code|, s);
  }

  lemma StepLabel(body: seq<Item>, code: seq<Cmd>, cpu: Cpu, rel: Relation, pc: nat, b: Built, s: State)
    requires Here(body, code, pc, b) && Includes(body, code, rel) && pc < |body| && body[pc].Label?
    ensures |b.code| <= |code| && Matches(code, cpu, rel, Config(|b.code|, s, Fall), Go(pc + 1, s))
  {
    HereNext(body, code, pc, b);
    var b' := b.(code := Close(b.code) + [Mark(body[pc].names)]);
    Related(body, code, rel, pc + 1, b');
    var p := |b'.code| - 1;
    assert code[p] == b'.code[p];
    Arrives(code, cpu, rel, Config(p, s, Fall), pc + 1, p + 1, s);
    if p != |b.code| {
      assert code[|b.code|] == b'.code[|b.code|] == End;
      MatchesLater(code, cpu, rel, Config(|b.code|, s, Fall), Config(p, s, Fall), Go(pc + 1, s));
    }
  }

  lemma StepFromMark(body: seq<Item>, code: seq<Cmd>, cpu: Cpu, rel: Relation, pc: nat, b: Built, s: State)
    requires MarkAt(body, code, pc, b) && Includes(body, code, rel)
    ensures |b.code| <= |code| && Matches(code, cpu, rel, Config(|b.code| - 1, s, Fall), Go(pc + 1, s))
  {
    Related(body, code, rel, pc + 1, b);
    assert b.code <= code && code[|b.code| - 1] == b.code[|b.code| - 1];
    Arrives(code, cpu, rel, Config(|b.code| - 1, s, Fall), pc + 1, |b.code|, s);
  }

  lemma StepPlain(body: seq<Item>, code: seq<Cmd>, cpu: Cpu, rel: Relation, pc: nat, b: Built, s: State)
    requires Here(body, code, pc, b) && Includes(body, code, rel)
    requires pc < |body| && body[pc].Ins? && body[pc].instr.kind.Plain?
    ensures |b.code| <= |code| && Matches(code, cpu, rel, Config(|b.code|, s, Fall), MachineStep(body, cpu, pc, s))
  {
    HereNext(body, code, pc, b);
    var i := body[pc].instr;
    Fragment(code, b.code, [Do(i)]);
    Related(body, code, rel, pc + 1, b.(code := b.code + [Do(i)]));
    Arrives(code, cpu, rel, Config(|b.code|, s, Fall), pc + 1, |b.code| + 1, After(i, cpu, s));
  }

  /** The delay slot of a branch, which holds an ordinary instruction. */
  lemma SlotOf(body: seq<Item>, pc: nat)
    requires Wf(body) && pc < |body| && body[pc].Ins? && HasSlot(body[pc].instr)
    ensures SlotIndex(body, pc) < |body| && body[SlotIndex(body, pc)].Ins? && body[SlotIndex(body, pc)].instr.kind.Plain?
    ensures UserTarget(body[pc].instr)
  {
    assert body[SlotIndex(body, pc)].instr.kind.Plain?;
  }

  lemma LowerCall(body: seq<Item>, code: seq<Cmd>, rel: Relation, pc: nat, b: Built)
    requires Here(body, code, pc, b) && Includes(body, code, rel)
    requires pc < |body| && body[pc].Ins? && body[pc].instr.kind.Call?
    ensures SlotIndex(body, pc) == pc + 1 < |body| && body[pc + 1].Ins? && body[pc + 1].instr.kind.Plain?
    ensures |b.code| + 2 <= |code| && code[|b.code|] == Do(body[pc + 1].instr) && code[|b.code| + 1] == Do(body[pc].instr)
    ensures rel(pc + 2, |b.code| + 2)
    ensures var source := body[pc].instr.kind.source; source.Some? ==> source.value !in Writes(body[pc + 1].instr)
  {
    SlotOf(body, pc);
    HereNext(body, code, pc, b);
    var f := [Do(body[pc + 1].instr), Do(body[pc].instr)];
    Fragment(code, b.code, f);
    assert code[|b.code|] == f[0] && code[|b.code| + 1] == f[1];
    Related(body, code, rel, pc + 2, b.(code := b.code + f));
  }

  lemma MachineCalls(body: seq<Item>, cpu: Cpu, pc: nat, s: State)
    requires pc + 1 < |body| && body[pc].Ins? && body[pc].instr.kind.Call? && body[pc + 1].Ins? && body[pc + 1].instr.kind.Plain?
    ensures MachineStep(body, cpu, pc, s) ==
      Go(pc + 2, AfterCall(body[pc].instr, cpu, SourceValue(body[pc].instr, s), After(body[pc + 1].instr, cpu, s)))
  {
  }

  lemma StepCall(body: seq<Item>, code: seq<Cmd>, cpu: Cpu, rel: Relation, pc: nat, b: Built, s: State)
    requires Here(body, code, pc, b) && Includes(body, code, rel)
    requires pc < |body| && body[pc].Ins? && body[pc].instr.kind.Call?
    ensures |b.code| <= |code| && Matches(code, cpu, rel, Config(|b.code|, s, Fall), MachineStep(body, cpu, pc, s))
  {
    LowerCall(body, code, rel, pc, b);
    MachineCalls(body, cpu, pc, s);
    SimulateCall(code, cpu, rel, |b.code|, body[pc].instr, body[pc + 1].instr, s, pc + 2);
  }

  lemma LikelyItem(body: seq<Item>, pc: nat, b: Built)
    requires Wf(body) && pc < |body| && body[pc].Ins? && body[pc].instr.kind.Likely? && LowerItem(body, pc, b).Ok?
    ensures SlotIndex(body, pc) == pc + 1 < |body| && body[pc + 1].Ins?
    ensures var (i, r) := (body[pc].instr, LowerItem(body, pc, b).value);
      r.1 == pc + 2 && r.0.code == b.code + LikelyCode(i, body[pc + 1].instr, Count(b, i.kind.target) + 1)
  {
    SlotOf(body, pc);
  }

  lemma LikelyMark(body: seq<Item>, code: seq<Cmd>, pc: nat, b: Built)
    requires pc + 1 < |body| && body[pc].Ins? && body[pc].instr.kind.Likely? && body[pc + 1].Ins?
    requires Fresh(body, pc, b) && b.code <= code && |b.code| + 9 <= |code|
    requires var i := body[pc].instr;
      code[|b.code|..|b.code| + 9] == LikelyCode(i, body[pc + 1].instr, Count(b, i.kind.target) + 1)
    ensures var target := body[pc].instr.kind.target;
      FindMark(code, LikelyOf(Count(b, target) + 1, target), 0) == Some(|b.code| + 7)
  {
    var i := body[pc].instr;
    var index := Count(b, i.kind.target) + 1;
    var p := |b.code|;
    LikelyShape(code, p, i, body[pc + 1].instr, index);
    forall q | p <= q < p + 7
      ensures !code[q].Mark?
    {
      assert q == p || q == p + 1 || q == p + 2 || q == p + 3 || q == p + 4 || q == p + 5 || q == p + 6;
    }
    GeneratedMark(body, code, pc, b, LikelyOf(index, i.kind.target), p + 7);
  }

  lemma LowerLikely(body: seq<Item>, code: seq<Cmd>, rel: Relation, pc: nat, b: Built) returns (index: nat)
    requires Here(body, code, pc, b) && Includes(body, code, rel)
    requires pc < |body| && body[pc].Ins? && body[pc].instr.kind.Likely?
    ensures SlotIndex(body, pc) == pc + 1 < |body| && body[pc + 1].Ins? && body[pc + 1].instr.kind.Plain?
    ensures UserTarget(body[pc].instr) && |b.code| + 9 <= |code| && rel(pc + 2, |b.code| + 9)
    ensures code[|b.code|..|b.code| + 9] == LikelyCode(body[pc].instr, body[pc + 1].instr, index)
    ensures FindMark(code, LikelyOf(index, body[pc].instr.kind.target), 0) == Some(|b.code| + 7)
  {
    Lowered(body, code, pc, b);
    SlotOf(body, pc);
    LikelyItem(body, pc, b);
    var (b', pc') := LowerItem(body, pc, b).value;
    index := Count(b, body[pc].instr.kind.target) + 1;
    HereAfter(body, code, rel, pc, b, b', pc', LikelyCode(body[pc].instr, body[pc + 1].instr, index));
    LikelyMark(body, code, pc, b);
  }

  lemma StepLikely(body: seq<Item>, code: seq<Cmd>, cpu: Cpu, rel: Relation, pc: nat, b: Built, s: State)
    requires Here(body, code, pc, b) && Includes(body, code, rel) && JumpsKept(body, code, rel)
    requires pc < |body| && body[pc].Ins? && body[pc].instr.kind.Likely?
    ensures |b.code| <= |code| && Matches(code, cpu, rel, Config(|b.code|, s, Fall), MachineStep(body, cpu, pc, s))
  {
    var index := LowerLikely(body, code, rel, pc, b);
    SimulateLikely(body, code, cpu, rel, |b.code|, body[pc].instr, body[pc + 1].instr, index, s, pc + 2);
  }

  /** What a branch in order decides is what the machine does. */
  lemma BranchDecides(body: seq<Item>, cpu: Cpu, pc: nat, s: State)
    requires Wf(body) && pc < |body| && body[pc].Ins? && InOrder(body[pc].instr)
    ensures SlotIndex(body, pc) < |body| && body[SlotIndex(body, pc)].Ins? && body[SlotIndex(body, pc)].instr.kind.Plain?
    ensures Decision(body[pc].instr, cpu, s).To? ==> Decision(body[pc].instr, cpu, s).name.User?
    ensures MachineStep(body, cpu, pc, s) ==
      Resolved(body, Decision(body[pc].instr, cpu, s), After(body[SlotIndex(body, pc)].instr, cpu, s), SlotIndex(body, pc) + 1)
  {
    SlotOf(body, pc);
  }

  lemma SkipItem(body: seq<Item>, pc: nat, b: Built)
    requires Wf(body) && pc < |body| && body[pc].Ins? && InOrder(body[pc].instr) && LowerItem(body, pc, b).Ok?
    requires SlotIndex(body, pc) == pc + 2 && !Repeatable(body[pc + 2].instr)
    ensures pc + 2 < |body| && body[pc + 1].Label? && body[pc + 2].Ins? && body[pc + 1].names != []
    ensures body[pc].instr.kind.Goto? || body[pc].instr.kind.If?
    ensures LowerItem(body, pc, b).value ==
      (b.(code := b.code + SkipCode(body[pc].instr, body[pc + 2].instr, body[pc + 1].names)), pc + 3)
  {
    SlotOf(body, pc);
  }

  lemma LowerSkip(body: seq<Item>, code: seq<Cmd>, rel: Relation, pc: nat, b: Built)
    requires Here(body, code, pc, b) && Includes(body, code, rel)
    requires pc < |body| && body[pc].Ins? && InOrder(body[pc].instr)
    requires SlotIndex(body, pc) == pc + 2 && !Repeatable(body[pc + 2].instr)
    ensures pc + 2 < |body| && body[pc + 1].Label? && body[pc + 2].Ins? && body[pc + 1].names != []
    ensures (body[pc].instr.kind.Goto? || body[pc].instr.kind.If?) && UserTarget(body[pc].instr)
    ensures |b.code| + 12 <= |code| && rel(pc + 3, |b.code| + 12)
    ensures code[|b.code|..|b.code| + 12] == SkipCode(body[pc].instr, body[pc + 2].instr, body[pc + 1].names)
    ensures FindMark(code, SkipOf(body[pc + 1].names[0]), 0) == Some(|b.code| + 6)
    ensures FindMark(code, body[pc + 1].names[0], 0) == Some(|b.code| + 10)
  {
    Lowered(body, code, pc, b);
    SlotOf(body, pc);
    SkipItem(body, pc, b);
    var (b', pc') := LowerItem(body, pc, b).value;
    HereAfter(body, code, rel, pc, b, b', pc', SkipCode(body[pc].instr, body[pc + 2].instr, body[pc + 1].names));
    SkipMarks(body, code, pc, b);
  }

  lemma StepSkip(body: seq<Item>, code: seq<Cmd>, cpu: Cpu, rel: Relation, pc: nat, b: Built, s: State)
    requires Here(body, code, pc, b) && Includes(body, code, rel) && JumpsKept(body, code, rel)
    requires pc < |body| && body[pc].Ins? && InOrder(body[pc].instr)
    requires SlotIndex(body, pc) == pc + 2 && !Repeatable(body[pc + 2].instr)
    ensures |b.code| <= |code| && Matches(code, cpu, rel, Config(|b.code|, s, Fall), MachineStep(body, cpu, pc, s))
  {
    LowerSkip(body, code, rel, pc, b);
    BranchDecides(body, cpu, pc, s);
    SimulateSkip(body, code, cpu, rel, |b.code|, body[pc].instr, body[pc + 2].instr, body[pc + 1].names, s, pc + 3);
  }

  /** A branch that keeps its place, and where the code goes on if it is not taken. */
  lemma LowerBranch(body: seq<Item>, code: seq<Cmd>, pc: nat, b: Built) returns (b': Built)
    requires Here(body, code, pc, b) && pc < |body| && body[pc].Ins? && InOrder(body[pc].instr)
    requires SlotIndex(body, pc) == pc + 2 ==> Repeatable(body[pc + 2].instr)
    ensures SlotIndex(body, pc) < |body| && body[SlotIndex(body, pc)].Ins? && body[SlotIndex(body, pc)].instr.kind.Plain?
    ensures Here(body, code, if SlotIndex(body, pc) == pc + 2 then pc + 1 else pc + 2, b')
    ensures |b'.code| == |b.code| + 3 <= |code| && b'.code[|b'.code| - 1] == End
    ensures code[|b.code|] == Do(body[pc].instr) && code[|b.code| + 1] == Do(body[SlotIndex(body, pc)].instr)
    ensures code[|b.code| + 2] == End
  {
    SlotOf(body, pc);
    HereNext(body, code, pc, b);
    var f := [Do(body[pc].instr), Do(body[SlotIndex(body, pc)].instr), End];
    b' := b.(code := b.code + f);
    Fragment(code, b.code, f);
    assert code[|b.code|] == f[0] && code[|b.code| + 1] == f[1] && code[|b.code| + 2] == f[2];
  }

  /** The label and the instruction of a delay slot, as a block of their own. */
  lemma LowerSlot(body: seq<Item>, code: seq<Cmd>, rel: Relation, pc: nat, b: Built)
    requires Here(body, code, pc, b) && Includes(body, code, rel) && pc + 1 < |body| && body[pc].Label?
    requires body[pc + 1].Ins? && body[pc + 1].instr.kind.Plain? && b.code != [] && b.code[|b.code| - 1] == End
    ensures |b.code| + 2 <= |code| && code[|b.code|].Mark? && code[|b.code| + 1] == Do(body[pc + 1].instr)
    ensures rel(pc + 2, |b.code| + 2)
  {
    HereNext(body, code, pc, b);
    var b1 := b.(code := b.code + [Mark(body[pc].names)]);
    HereNext(body, code, pc + 1, b1);
    var b2 := b1.(code := b1.code + [Do(body[pc + 1].instr)]);
    Fragment(code, b.code, [Mark(body[pc].names)]);
    Fragment(code, b1.code, [Do(body[pc + 1].instr)]);
    Related(body, code, rel, pc + 2, b2);
  }

  /** A branch that is not taken goes on after its delay slot. */
  lemma FallsThrough(body: seq<Item>, code: seq<Cmd>, cpu: Cpu, rel: Relation, pc: nat, b: Built, s: State)
    requires RepeatsHarmless(body)
    requires Here(body, code, pc, b) && Includes(body, code, rel) && pc < |body| && body[pc].Ins? && body[pc].instr.kind.If?
    requires SlotIndex(body, pc) == pc + 2 ==> Repeatable(body[pc + 2].instr)
    ensures SlotIndex(body, pc) < |body| && body[SlotIndex(body, pc)].Ins? && |b.code| + 2 <= |code|
    ensures var after := After(body[SlotIndex(body, pc)].instr, cpu, s);
      Matches(code, cpu, rel, Config(|b.code| + 2, after, Fall), Go(SlotIndex(body, pc) + 1, after))
  {
    var b' := LowerBranch(body, code, pc, b);
    var slot := body[SlotIndex(body, pc)].instr;
    if SlotIndex(body, pc) == pc + 2 {
      assert RunsTwice(body, pc);
      LowerSlot(body, code, rel, pc + 1, b');
      FallThroughSlot(code, cpu, rel, |b.code| + 2, slot, s, pc + 3);
    } else {
      Related(body, code, rel, pc + 2, b');
      Arrives(code, cpu, rel, Config(|b.code| + 2, After(slot, cpu, s), Fall), pc + 2, |b.code| + 3, After(slot, cpu, s));
    }
  }

  lemma StepBranch(body: seq<Item>, code: seq<Cmd>, cpu: Cpu, rel: Relation, pc: nat, b: Built, s: State)
    requires RepeatsHarmless(body)
    requires Here(body, code, pc, b) && Includes(body, code, rel) && JumpsKept(body, code, rel)
    requires pc < |body| && body[pc].Ins? && InOrder(body[pc].instr)
    requires SlotIndex(body, pc) == pc + 2 ==> Repeatable(body[pc + 2].instr)
    ensures |b.code| <= |code| && Matches(code, cpu, rel, Config(|b.code|, s, Fall), MachineStep(body, cpu, pc, s))
  {
    var b' := LowerBranch(body, code, pc, b);
    if Decision(body[pc].instr, cpu, s).Fall? {
      FallsThrough(body, code, cpu, rel, pc, b, s);
    }
    BranchDecides(body, cpu, pc, s);
    var j := SlotIndex(body, pc);
    SimulateBranch(body, code, cpu, rel, |b.code|, body[pc].instr, body[j].instr, s, j + 1);
  }

  // ----- every step, and whole runs -----

  lemma StepFromHere(body: seq<Item>, code: seq<Cmd>, cpu: Cpu, rel: Relation, pc: nat, b: Built, s: State)
    requires RepeatsHarmless(body)
    requires Here(body, code, pc, b) && Includes(body, code, rel) && JumpsKept(body, code, rel)
    ensures |b.code| <= |code| && Matches(code, cpu, rel, Config(|b.code|, s, Fall), MachineStep(body, cpu, pc, s))
  {
    if pc == |body| {
      StepEnd(body, code, cpu, rel, b, s);
    } else if body[pc].Label? {
      StepLabel(body, code, cpu, rel, pc, b, s);
    } else if body[pc].instr.kind.Plain? {
      StepPlain(body, code, cpu, rel, pc, b, s);
    } else if body[pc].instr.kind.Call? {
      StepCall(body, code, cpu, rel, pc, b, s);
    } else if body[pc].instr.kind.Likely? {
      StepLikely(body, code, cpu, rel, pc, b, s);
    } else if SlotIndex(body, pc) == pc + 2 && !Repeatable(body[pc + 2].instr) {
      StepSkip(body, code, cpu, rel, pc, b, s);
    } else {
      StepBranch(body, code, cpu, rel, pc, b, s);
    }
  }

  /** One machine step is matched by one step or more of the code. */
  lemma StandingIsKept(body: seq<Item>, code: seq<Cmd>, cpu: Cpu, rel: Relation)
    requires RepeatsHarmless(body)
    requires Wf(body) && Lower(body) == Ok(code) && Includes(body, code, rel)
    ensures Kept(body, code, cpu, rel)
  {
    LabelsStand(body, code, rel);
    forall pc: nat, pos: nat, s: State | pc <= |body| && pos <= |code| && rel(pc, pos)
      ensures StepKept(body, code, cpu, rel, pc, pos, s)
    {
      assert Stands(body, code, pc, pos);
      if b :| MarkAt(body, code, pc, b) && |b.code| == pos + 1 {
        StepFromMark(body, code, cpu, rel, pc, b, s);
      } else {
        var b :| Here(body, code, pc, b) && |b.code| == pos;
        StepFromHere(body, code, cpu, rel, pc, b, s);
      }
    }
  }

  /**
   * The lowered blocks end as the machine with delay slots does, in the same state and with the same memory events in
   * the same order; a run that does not end has the same memory events all along.
   */
  lemma LoweringSimulates(body: seq<Item>, code: seq<Cmd>, cpu: Cpu, s: State, why: Exit, t: State)
    requires RepeatsHarmless(body)
    requires Wf(body) && Lower(body) == Ok(code)
    ensures MachineEnds(body, cpu, s, why, t) <==> CodeEnds(code, cpu, s, why, t)
    ensures SameEvents(MachineTrace(body, cpu, s), CodeTrace(code, cpu, s))
  {
    HereStart(body, code);
    StandsHere(body, code, 0, Built([], map[]));
    var rel := (pc: nat, pos: nat) => Stands(body, code, pc, pos);
    StandingIsKept(body, code, cpu, rel);
    RunsEndAlike(body, code, cpu, rel, s, why, t);
    RunsEmitAlike(body, code, cpu, rel, s);
  }

  /** Wherever the machine has got to, the code gets to a place that stands for it, in the same state. */
  lemma LoweringFollows(body: seq<Item>, code: seq<Cmd>, cpu: Cpu, s: State, n: nat) returns (k: nat)
    requires RepeatsHarmless(body)
    requires Wf(body) && Lower(body) == Ok(code)
    ensures var next, out := MachineRun(body, cpu, 0, s, n), CodeRun(code, cpu, Config(0, s, Fall), k);
      if next.Stop? then out == Halted(next.why, next.state)
      else k >= n && out.Running? && out.config.state == next.state && Stands(body, code, next.pc, out.config.pos)
  {
    HereStart(body, code);
    StandsHere(body, code, 0, Built([], map[]));
    var rel := (pc: nat, pos: nat) => Stands(body, code, pc, pos);
    StandingIsKept(body, code, cpu, rel);
    k := RunMatches(body, code, cpu, rel, 0, 0, s, n);
  }

  predicate WithoutLikely(code: seq<Cmd>) {
    forall k :: 0 <= k < |code| && code[k].Do? ==> !code[k].instr.kind.Likely?
  }

  lemma ItemWithoutLikely(body: seq<Item>, pc: nat, b: Built)
    requires pc < |body| && Wf(body) && LowerItem(body, pc, b).Ok? && WithoutLikely(b.code)
    ensures WithoutLikely(LowerItem(body, pc, b).value.0.code)
  {
    if body[pc].Ins? && HasSlot(body[pc].instr) {
      SlotOf(body, pc);
    }
  }

  /** No branch-likely is left. */
  lemma {:induction false} NoLikelyLeft(body: seq<Item>, pc: nat, b: Built)
    requires pc <= |body| && Wf(body) && LowerAll(body, pc, b).Ok? && WithoutLikely(b.code)
    ensures WithoutLikely(LowerAll(body, pc, b).value)
    decreases |body| - pc
  {
    if pc < |body| {
      ItemWithoutLikely(body, pc, b);
      var (b', pc') := LowerItem(body, pc, b).value;
      NoLikelyLeft(body, pc', b');
    }
  }
}
