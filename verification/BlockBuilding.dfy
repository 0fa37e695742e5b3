/**
 * `BlockBuilder` and `build_blocks` of m2c/flow_graph.py for MIPS: assembly becomes a list of numbered,
 * nonempty blocks that behave as the machine with delay slots does.
 */
module BlockBuilding {
  import opened Wrappers
  import opened DelaySlots
  import opened BranchSimulation
  import opened LoweringProof
  import opened GccLikely
  import opened RefusedSlots

  datatype Block = Block(index: nat, names: Option<seq<Name>>, instrs: seq<Instr>)

  function Does(instrs: seq<Instr>): seq<Cmd> {
    seq(|instrs|, k requires 0 <= k < |instrs| => Do(instrs[k]))
  }

  function Marked(names: Option<seq<Name>>): seq<Cmd> {
    if names.Some? then [Mark(names.value)] else []
  }

  /** The blocks as one list. */
  function Flatten(blocks: seq<Block>): (code: seq<Cmd>)
    ensures blocks != [] ==> code != [] && code[|code| - 1] == End
  {
    if blocks == [] then []
    else
      var last := blocks[|blocks| - 1];
      Flatten(blocks[..|blocks| - 1]) + Marked(last.names) + Does(last.instrs) + [End]
  }

  lemma SkipParts(start: seq<Cmd>, i: Instr, slot: Instr, names: seq<Name>)
    requires (i.kind.Goto? || i.kind.If?) && names != []
    ensures start + [Do(Retargeted(i, SkipOf(names[0]))), Do(NOP), End, Do(Branch(names[0])), Do(NOP), End] +
      [Mark([SkipOf(names[0])]), Do(Branch(i.kind.target)), Do(slot), End] + [Mark(names), Do(slot)]
      == start + SkipCode(i, slot, names)
  {
    var a := [Do(Retargeted(i, SkipOf(names[0]))), Do(NOP), End, Do(Branch(names[0])), Do(NOP), End];
    var b := [Mark([SkipOf(names[0])]), Do(Branch(i.kind.target)), Do(slot), End];
    var c := [Mark(names), Do(slot)];
    assert a + b + c == SkipCode(i, slot, names);
    assert start + a + b + c == start + (a + b + c);
  }

  lemma LikelyParts(start: seq<Cmd>, i: Instr, slot: Instr, index: nat)
    requires i.kind.Likely?
    ensures start + [Do(Retargeted(i, LikelyOf(index, i.kind.target))), Do(NOP), End] + [Do(slot)] +
      [Do(Branch(i.kind.target)), Do(NOP), End] + [Mark([LikelyOf(index, i.kind.target)])] + [Do(NOP)]
      == start + LikelyCode(i, slot, index)
  {
    var a := [Do(Retargeted(i, LikelyOf(index, i.kind.target))), Do(NOP), End];
    var b := [Do(Branch(i.kind.target)), Do(NOP), End];
    var c := [Mark([LikelyOf(index, i.kind.target)])];
    assert a + [Do(slot)] + b + c + [Do(NOP)] == LikelyCode(i, slot, index);
    assert start + a + [Do(slot)] + b + c + [Do(NOP)] == start + (a + [Do(slot)] + b + c + [Do(NOP)]);
  }

  class BlockBuilder {
    var currIndex: nat
    var currLabel: Option<seq<Name>>
    var currInstructions: seq<Instr>
    var blocks: seq<Block>

    constructor ()
      ensures Valid() && Code() == [] && blocks == []
    {
      currIndex, currLabel, currInstructions, blocks := 0, None, [], [];
    }

    /** Blocks are numbered in order, and none is empty. */
    ghost predicate Valid()
      reads this
    {
      currIndex == |blocks| && forall k :: 0 <= k < |blocks| ==> blocks[k].index == k && blocks[k].instrs != []
    }

    ghost function Code(): seq<Cmd>
      reads this
    {
      Flatten(blocks) + Marked(currLabel) + Does(currInstructions)
    }

    lemma LastOfCode()
      ensures currInstructions != [] ==> Code() != [] && Code()[|Code()| - 1].Do?
      ensures currInstructions == [] && currLabel.Some? ==> Code() != [] && Code()[|Code()| - 1].Mark?
      ensures currInstructions == [] && currLabel.None? ==> Code() == Flatten(blocks)
    {
    }

    method NewBlock()
      requires Valid()
      modifies this
      ensures Valid() && Code() == Close(old(Code())) && currInstructions == []
      ensures old(currInstructions) == [] ==> unchanged(this)
      ensures old(currInstructions) != [] ==>
        blocks == old(blocks) + [Block(|old(blocks)|, old(currLabel), old(currInstructions))] && currLabel == None
    {
      LastOfCode();
      if currInstructions == [] {
        return;
      }
      ghost var before := blocks;
      var made := Block(currIndex, currLabel, currInstructions);
      blocks := blocks + [made];
      assert blocks[..|blocks| - 1] == before;
      currIndex := currIndex + 1;
      currLabel := None;
      currInstructions := [];
    }

    method AddInstruction(i: Instr)
      requires Valid()
      modifies this
      ensures Valid() && Code() == old(Code()) + [Do(i)] && blocks == old(blocks)
    {
      currInstructions := currInstructions + [i];
    }

    /** The source's assertion that no label is waiting holds: the code so far does not end in a mark. */
    method SetLabel(names: seq<Name>)
      requires Valid() && currInstructions == [] && (Code() != [] ==> !Code()[|Code()| - 1].Mark?)
      modifies this
      ensures Valid() && Code() == old(Code()) + [Mark(names)] && blocks == old(blocks)
    {
      LastOfCode();
      assert currLabel.None?;
      currLabel := Some(names);
    }

    method AddAll(instrs: seq<Instr>)
      requires Valid()
      modifies this
      ensures Valid() && Code() == old(Code()) + Does(instrs) && blocks == old(blocks)
    {
      for k := 0 to |instrs|
        invariant Valid() && Code() == old(Code()) + Does(instrs[..k]) && blocks == old(blocks)
      {
        assert Does(instrs[..k + 1]) == Does(instrs[..k]) + [Do(instrs[k])];
        AddInstruction(instrs[k]);
      }
      assert instrs[..|instrs|] == instrs;
    }

    /** One block of instructions, ended. */
    method AddBlock(instrs: seq<Instr>)
      requires Valid() && instrs != []
      modifies this
      ensures Valid() && Code() == old(Code()) + Does(instrs) + [End] && currInstructions == []
    {
      AddAll(instrs);
      NewBlock();
    }

    /** A block of two instructions, ended. */
    method AddPair(a: Instr, b: Instr)
      requires Valid()
      modifies this
      ensures Valid() && Code() == old(Code()) + [Do(a), Do(b), End] && currInstructions == []
    {
      AddBlock([a, b]);
      assert Does([a, b]) + [End] == [Do(a), Do(b), End];
    }

    /** Two blocks that only jump. */
    method EmitJumps(first: Instr, second: Instr)
      requires Valid()
      modifies this
      ensures Valid() && Code() == old(Code()) + [Do(first), Do(NOP), End, Do(second), Do(NOP), End]
      ensures currInstructions == []
    {
      ghost var start := Code();
      AddPair(first, NOP);
      AddPair(second, NOP);
      assert Code() == start + [Do(first), Do(NOP), End, Do(second), Do(NOP), End];
    }

    method EmitSkip(i: Instr, slot: Instr, names: seq<Name>)
      requires Valid() && (i.kind.Goto? || i.kind.If?) && names != []
      modifies this
      ensures Valid() && Code() == old(Code()) + SkipCode(i, slot, names)
    {
      ghost var start := Code();
      EmitJumps(Retargeted(i, SkipOf(names[0])), Branch(names[0]));
      ghost var middle := Code();
      SetLabel([SkipOf(names[0])]);
      AddPair(Branch(i.kind.target), slot);
      assert Code() == middle + [Mark([SkipOf(names[0])]), Do(Branch(i.kind.target)), Do(slot), End];
      EmitSlot(names, slot);
      SkipParts(start, i, slot, names);
    }

    method EmitLikely(i: Instr, slot: Instr, index: nat)
      requires Valid() && i.kind.Likely?
      modifies this
      ensures Valid() && Code() == old(Code()) + LikelyCode(i, slot, index)
    {
      ghost var start := Code();
      AddPair(Retargeted(i, LikelyOf(index, i.kind.target)), NOP);
      AddInstruction(slot);
      AddPair(Branch(i.kind.target), NOP);
      SetLabel([LikelyOf(index, i.kind.target)]);
      AddInstruction(NOP);
      LikelyParts(start, i, slot, index);
    }

    /** An extra return at the very end. */
    method AddSafeguard()
      requires Valid()
      modifies this
      ensures Valid() && blocks != [] && Flatten(blocks) == old(Code()) + SAFEGUARD
    {
      ghost var before := Code();
      AddPair(RETURN, NOP);
      assert Code() == before + SAFEGUARD;
      LastOfCode();
    }

    /** A block for a delay slot of its own, after its label. */
    method EmitSlot(names: seq<Name>, slot: Instr)
      requires Valid() && Code() != [] && Code()[|Code()| - 1].End?
      modifies this
      ensures Valid() && Code() == old(Code()) + [Mark(names), Do(slot)]
    {
      NewBlock();
      SetLabel(names);
      AddInstruction(slot);
    }
  }

  /** Code that a label may follow. */
  predicate Ready(body: seq<Item>, pc: nat, code: seq<Cmd>) {
    pc < |body| && body[pc].Label? && code != [] ==> !code[|code| - 1].Mark?
  }

  /** Two plain steps of the lowering. */
  lemma LowerTwice(body: seq<Item>, pc: nat, b: Built)
    requires Wf(body) && pc + 1 < |body| && body[pc].Label? && body[pc + 1].Ins? && body[pc + 1].instr.kind.Plain?
    requires b.code != [] && b.code[|b.code| - 1] == End
    ensures LowerAll(body, pc, b) ==
      LowerAll(body, pc + 2, b.(code := b.code + [Mark(body[pc].names), Do(body[pc + 1].instr)]))
  {
    var b1 := b.(code := b.code + [Mark(body[pc].names)]);
    assert LowerItem(body, pc, b) == Ok((b1, pc + 1));
    assert b1.code + [Do(body[pc + 1].instr)] == b.code + [Mark(body[pc].names), Do(body[pc + 1].instr)];
  }

  /** Lowers one item with its delay slot; `next` is where to go on. */
  method ProcessDelaySlots(body: seq<Item>, pc: nat, builder: BlockBuilder, counts: map<Name, nat>)
    returns (r: Result<nat, Failure>, newCounts: map<Name, nat>)
    requires Wf(body) && pc < |body| && builder.Valid() && Ready(body, pc, builder.Code())
    modifies builder
    ensures builder.Valid()
    ensures r.Err? ==> LowerAll(body, pc, Built(old(builder.Code()), counts)) == Err(r.error)
    ensures r.Ok? ==> pc < r.value <= |body| && Ready(body, r.value, builder.Code())
    ensures r.Ok? ==>
      LowerAll(body, pc, Built(old(builder.Code()), counts)) == LowerAll(body, r.value, Built(builder.Code(), newCounts))
  {
    ghost var b := Built(builder.Code(), counts);
    newCounts := counts;
    if body[pc].Label? {
      // Split blocks at labels.
      builder.NewBlock();
      builder.SetLabel(body[pc].names);
      return Ok(pc + 1), newCounts;
    }
    var i := body[pc].instr;
    if i.kind.Plain? {
      builder.AddInstruction(i);
      return Ok(pc + 1), newCounts;
    }
    if SlotIndex(body, pc) == pc + 2 {
      r := ProcessLabelledSlot(body, pc, builder, counts);
    } else {
      r, newCounts := ProcessSlot(body, pc, builder, counts);
    }
  }

  /** What becomes of a branch and a slot right after it. */
  lemma SlotItem(body: seq<Item>, pc: nat, b: Built)
    requires Wf(body) && pc < |body| && body[pc].Ins? && HasSlot(body[pc].instr) && SlotIndex(body, pc) == pc + 1
    ensures pc + 1 < |body| && body[pc + 1].Ins?
    ensures var i, slot := body[pc].instr, body[pc + 1].instr;
      LowerItem(body, pc, b) ==
        if i.kind.Likely? then
          var index := Count(b, i.kind.target) + 1;
          Ok((Built(b.code + LikelyCode(i, slot, index), b.counts[i.kind.target := index]), pc + 2))
        else if i.kind.Call? then
          if i.kind.source.Some? && i.kind.source.value in Writes(slot) then Err(ClobberedSource)
          else Ok((b.(code := b.code + [Do(slot), Do(i)]), pc + 2))
        else Ok((b.(code := b.code + [Do(i), Do(slot), End]), pc + 2))
  {
    assert body[SlotIndex(body, pc)].instr.kind.Plain?;
  }

  /** A branch-likely and its slot. */
  method ProcessLikely(body: seq<Item>, pc: nat, builder: BlockBuilder, counts: map<Name, nat>)
    returns (newCounts: map<Name, nat>)
    requires Wf(body) && pc < |body| && builder.Valid() && body[pc].Ins? && body[pc].instr.kind.Likely?
    requires SlotIndex(body, pc) == pc + 1
    modifies builder
    ensures builder.Valid() && pc + 2 <= |body| && Ready(body, pc + 2, builder.Code())
    ensures LowerItem(body, pc, Built(old(builder.Code()), counts)) == Ok((Built(builder.Code(), newCounts), pc + 2))
  {
    SlotItem(body, pc, Built(builder.Code(), counts));
    var i, slot := body[pc].instr, body[pc + 1].instr;
    var index := (if i.kind.target in counts then counts[i.kind.target] else 0) + 1;
    newCounts := counts[i.kind.target := index];
    builder.EmitLikely(i, slot, index);
  }

  /** A delay slot right after its branch. */
  method ProcessSlot(body: seq<Item>, pc: nat, builder: BlockBuilder, counts: map<Name, nat>)
    returns (r: Result<nat, Failure>, newCounts: map<Name, nat>)
    requires Wf(body) && pc < |body| && builder.Valid() && body[pc].Ins? && HasSlot(body[pc].instr)
    requires SlotIndex(body, pc) == pc + 1
    modifies builder
    ensures builder.Valid()
    ensures r.Err? ==> LowerAll(body, pc, Built(old(builder.Code()), counts)) == Err(r.error)
    ensures r.Ok? ==> r.value == pc + 2 <= |body| && Ready(body, pc + 2, builder.Code())
    ensures r.Ok? ==>
      LowerAll(body, pc, Built(old(builder.Code()), counts)) == LowerAll(body, pc + 2, Built(builder.Code(), newCounts))
  {
    ghost var b := Built(builder.Code(), counts);
    newCounts := counts;
    r := Ok(pc + 2);
    if body[pc].instr.kind.Likely? {
      newCounts := ProcessLikely(body, pc, builder, counts);
      return;
    }
    SlotItem(body, pc, b);
    var i, slot := body[pc].instr, body[pc + 1].instr;
    if i.kind.Call? {
      if i.kind.source.Some? && i.kind.source.value in Writes(slot) {
        return Err(ClobberedSource), newCounts;
      }
      builder.AddAll([slot, i]);
      assert Does([slot, i]) == [Do(slot), Do(i)];
    } else {
      builder.AddPair(i, slot);
      assert builder.Code() == b.code + [Do(i), Do(slot), End];
    }
  }

  /** A delay slot that is also a jump target. */
  method ProcessLabelledSlot(body: seq<Item>, pc: nat, builder: BlockBuilder, ghost counts: map<Name, nat>)
    returns (r: Result<nat, Failure>)
    requires Wf(body) && pc < |body| && builder.Valid() && body[pc].Ins? && HasSlot(body[pc].instr)
    requires SlotIndex(body, pc) == pc + 2
    modifies builder
    ensures builder.Valid()
    ensures r.Err? ==> LowerAll(body, pc, Built(old(builder.Code()), counts)) == Err(r.error)
    ensures r.Ok? ==> r.value == pc + 3 <= |body| && Ready(body, pc + 3, builder.Code())
    ensures r.Ok? ==>
      LowerAll(body, pc, Built(old(builder.Code()), counts)) == LowerAll(body, pc + 3, Built(builder.Code(), counts))
  {
    ghost var b := Built(builder.Code(), counts);
    var i, slot, names := body[pc].instr, body[pc + 2].instr, body[pc + 1].names;
    assert body[SlotIndex(body, pc)].instr.kind.Plain?;
    if i.kind.Likely? || i.kind.Call? {
      return Err(LabelInSlot);
    }
    if Repeatable(slot) {
      builder.AddPair(i, slot);
      ghost var b1 := b.(code := b.code + [Do(i), Do(slot), End]);
      assert builder.Code() == b1.code;
      assert LowerItem(body, pc, b) == Ok((b1, pc + 1));
      LowerTwice(body, pc + 1, b1);
      builder.EmitSlot(names, slot);
      return Ok(pc + 3);
    }
    if !(i.kind.Goto? || i.kind.If?) {
      return Err(NotStatic);
    }
    builder.EmitSkip(i, slot, names);
    r := Ok(pc + 3);
  }

  /** Lowers all items. */
  method ProcessAll(body: seq<Item>, builder: BlockBuilder) returns (r: Result<nat, Failure>)
    requires Wf(body) && builder.Valid() && builder.Code() == []
    modifies builder
    ensures builder.Valid()
    ensures r.Err? ==> Lower(body) == Err(r.error)
    ensures r.Ok? ==> Lower(body) == Ok(builder.Code() + SAFEGUARD)
  {
    var counts: map<Name, nat> := map[];
    var pc := 0;
    while pc < |body|
      invariant 0 <= pc <= |body| && builder.Valid() && Ready(body, pc, builder.Code())
      invariant LowerAll(body, pc, Built(builder.Code(), counts)) == Lower(body)
      decreases |body| - pc
    {
      var step;
      step, counts := ProcessDelaySlots(body, pc, builder, counts);
      if step.Err? {
        return Err(step.error);
      }
      pc := step.value;
    }
    r := Ok(pc);
  }

  ghost predicate EndsAs(code: seq<Cmd>, body: seq<Item>, cpu: Cpu, s: State) {
    forall why: Exit, t: State :: MachineEnds(body, cpu, s, why, t) <==> CodeEnds(code, cpu, s, why, t)
  }

  /** The code runs as the program does, for every meaning of the instructions and from every state. */
  ghost predicate RunsAs(code: seq<Cmd>, body: seq<Item>) {
    forall cpu: Cpu, s: State {:trigger EndsAs(code, body, cpu, s)} ::
      EndsAs(code, body, cpu, s) && SameEvents(MachineTrace(body, cpu, s), CodeTrace(code, cpu, s))
  }

  lemma RunSimulates(body: seq<Item>, code: seq<Cmd>, cpu: Cpu, s: State)
    requires RepeatsHarmless(body)
    requires Wf(body) && Wf(Normalized(body, |body|)) && Lower(Normalized(body, |body|)) == Ok(code)
    ensures EndsAs(code, body, cpu, s) && SameEvents(MachineTrace(body, cpu, s), CodeTrace(code, cpu, s))
  {
    forall why: Exit, t: State
      ensures MachineEnds(body, cpu, s, why, t) <==> CodeEnds(code, cpu, s, why, t)
    {
      BlocksSimulate(body, code, cpu, s, why, t);
    }
    BlocksSimulate(body, code, cpu, s, Stuck, s);
  }

  lemma AllRunsSimulate(body: seq<Item>, code: seq<Cmd>)
    requires RepeatsHarmless(body)
    requires Wf(body) && Wf(Normalized(body, |body|)) && Lower(Normalized(body, |body|)) == Ok(code)
    ensures RunsAs(code, body)
  {
    forall cpu: Cpu, s: State {:trigger EndsAs(code, body, cpu, s)}
      ensures EndsAs(code, body, cpu, s) && SameEvents(MachineTrace(body, cpu, s), CodeTrace(code, cpu, s))
    {
      RunSimulates(body, code, cpu, s);
    }
  }

  /** Assembly to blocks: they behave as the machine with delay slots does. */
  method BuildBlocks(body: seq<Item>) returns (r: Result<seq<Block>, Failure>)
    requires Wf(body)
    ensures Wf(Normalized(body, |body|))
    ensures r.Err? ==> Lower(Normalized(body, |body|)) == Err(r.error)
    ensures r.Ok? <==> NoneRefused(body, 0)
    ensures r.Err? ==> exists k: nat :: FirstRefused(body, 0, k, r.error)
    ensures r.Ok? ==> Lower(Normalized(body, |body|)) == Ok(Flatten(r.value))
    ensures r.Ok? ==> r.value != [] && forall k :: 0 <= k < |r.value| ==> r.value[k].index == k && r.value[k].instrs != []
    ensures r.Ok? && RepeatsHarmless(body) ==> RunsAs(Flatten(r.value), body)
  {
    NormalizedWf(body);
    ProgramRefused(body);
    var norm := NormalizeGccLikelyBranches(body);
    var builder := new BlockBuilder();
    var done := ProcessAll(norm, builder);
    if done.Err? {
      return Err(done.error);
    }
    builder.AddSafeguard();
    r := Ok(builder.blocks);
    if RepeatsHarmless(body) {
      AllRunsSimulate(body, Flatten(r.value));
    }
  }
}
