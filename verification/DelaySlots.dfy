/**
 * Lowering of MIPS delay slots (`process_delay_slots` in `build_blocks` of m2c/flow_graph.py): a program
 * whose branches run the next instruction first, and whose branch-likelies annul it when not taken, becomes
 * a list of blocks that run front to back and jump at their end.
 */
module DelaySlots {
  import opened Wrappers

  // ----- instructions -----

  type Location = nat

  /** A label of the assembly, or one made up while lowering. */
  datatype Name = User(name: string) | SkipOf(base: Name) | LikelyOf(index: nat, base: Name)

  datatype Mnemonic = Beq | Bne | Beqz | Bnez | Bgez | Bltz | Bgtz | Blez | Bc1t | Bc1f

  function InvertMnemonic(m: Mnemonic): Mnemonic {
    match m
    case Beq => Bne
    case Bne => Beq
    case Beqz => Bnez
    case Bnez => Beqz
    case Bgez => Bltz
    case Bgtz => Blez
    case Blez => Bgtz
    case Bltz => Bgez
    case Bc1t => Bc1f
    case Bc1f => Bc1t
  }

  function Arg(args: seq<int>, k: nat): int {
    if k < |args| then args[k] else 0
  }

  /** Whether a branch is taken, from the signed values it reads. */
  predicate Taken(m: Mnemonic, args: seq<int>) {
    match m
    case Beq => Arg(args, 0) == Arg(args, 1)
    case Bne => Arg(args, 0) != Arg(args, 1)
    case Beqz => Arg(args, 0) == 0
    case Bnez => Arg(args, 0) != 0
    case Bgez => Arg(args, 0) >= 0
    case Bltz => Arg(args, 0) < 0
    case Bgtz => Arg(args, 0) > 0
    case Blez => Arg(args, 0) <= 0
    case Bc1t => Arg(args, 0) != 0
    case Bc1f => Arg(args, 0) == 0
  }

  lemma InvertedBranch(m: Mnemonic, args: seq<int>)
    ensures Taken(InvertMnemonic(m), args) == !Taken(m, args)
    ensures InvertMnemonic(InvertMnemonic(m)) == m
  {
  }

  /** All but plain instructions have a delay slot. A call through a register reads its source. */
  datatype Kind =
    | Plain
    | Goto(target: Name)
    | If(test: Mnemonic, target: Name)
    | Likely(test: Mnemonic, target: Name)
    | Switch
    | Return
    | Call(source: Option<Location>)

  datatype Instr = Instr(op: nat, uses: seq<Location>, outputs: seq<Location>, clobbers: seq<Location>,
                         isStore: bool, kind: Kind)

  const NOP := Instr(0, [], [], [], false, Plain)

  const RETURN := Instr(0, [], [], [], false, Return)

  function Branch(target: Name): Instr {
    Instr(0, [], [], [], false, Goto(target))
  }

  function Writes(i: Instr): set<Location> {
    (set l | l in i.outputs) + (set l | l in i.clobbers)
  }

  datatype Event = Event(op: nat, args: seq<int>)

  datatype State = State(regs: map<Location, int>, memory: seq<Event>)

  /** What instructions compute, and where jump tables lead. */
  datatype Cpu = Cpu(value: (nat, seq<int>, seq<Event>, Location) -> int, table: (nat, seq<int>) -> string)

  function Read(s: State, l: Location): int {
    if l in s.regs then s.regs[l] else 0
  }

  function ReadAll(s: State, locs: seq<Location>): seq<int> {
    seq(|locs|, k requires 0 <= k < |locs| => Read(s, locs[k]))
  }

  function Written(i: Instr, cpu: Cpu, args: seq<int>, s: State, touchesMemory: bool): State {
    State(map l | l in s.regs.Keys + Writes(i) :: if l in Writes(i) then cpu.value(i.op, args, s.memory, l) else s.regs[l],
          if touchesMemory then s.memory + [Event(i.op, args)] else s.memory)
  }

  function After(i: Instr, cpu: Cpu, s: State): State {
    Written(i, cpu, ReadAll(s, i.uses), s, i.isStore)
  }

  function SourceValue(i: Instr, s: State): int {
    if i.kind.Call? && i.kind.source.Some? then Read(s, i.kind.source.value) else 0
  }

  /** A call of what was found in its source register; the arguments are read when the callee starts. */
  function AfterCall(i: Instr, cpu: Cpu, source: int, s: State): State {
    Written(i, cpu, [source] + ReadAll(s, i.uses), s, true)
  }

  // ----- the machine -----

  datatype Item = Label(names: seq<Name>) | Ins(instr: Instr)

  datatype Exit = Returned | Missing(name: Name) | Stuck

  datatype Next = Go(pc: nat, state: State) | Stop(why: Exit, state: State)

  predicate HasSlot(i: Instr) {
    !i.kind.Plain?
  }

  function Find(body: seq<Item>, n: Name): (k: Option<nat>)
    ensures k.Some? ==> k.value < |body| && body[k.value].Label? && n in body[k.value].names
    ensures k.None? ==> forall j :: 0 <= j < |body| && body[j].Label? ==> n !in body[j].names
  {
    FindFrom(body, n, 0)
  }

  function FindFrom(body: seq<Item>, n: Name, from: nat): (k: Option<nat>)
    requires from <= |body|
    ensures k.Some? ==> from <= k.value < |body| && body[k.value].Label? && n in body[k.value].names
    ensures k.None? ==> forall j :: from <= j < |body| && body[j].Label? ==> n !in body[j].names
    decreases |body| - from
  {
    if from == |body| then None
    else if body[from].Label? && n in body[from].names then Some(from)
    else FindFrom(body, n, from + 1)
  }

  /** The delay slot is the next instruction, even if a label stands in between. */
  function SlotIndex(body: seq<Item>, pc: nat): nat {
    if pc + 1 < |body| && body[pc + 1].Label? then pc + 2 else pc + 1
  }

  function Jump(body: seq<Item>, target: Name, s: State): (next: Next)
    ensures next.Go? ==> next.pc <= |body|
  {
    var k := Find(body, target);
    if k.Some? then Go(k.value, s) else Stop(Missing(target), s)
  }

  /** One step of a machine with delay slots. A branch inside a delay slot is undefined. */
  function MachineStep(body: seq<Item>, cpu: Cpu, pc: nat, s: State): (next: Next)
    requires pc <= |body|
    ensures next.Go? ==> next.pc <= |body|
  {
    if pc == |body| then Stop(Returned, s)
    else if body[pc].Label? then Go(pc + 1, s)
    else
      var i := body[pc].instr;
      if i.kind.Plain? then Go(pc + 1, After(i, cpu, s))
      else
        var j := SlotIndex(body, pc);
        if j >= |body| || body[j].Label? || HasSlot(body[j].instr) then Stop(Stuck, s)
        else
          var args, after := ReadAll(s, i.uses), After(body[j].instr, cpu, s);
          match i.kind
          case Goto(target) => Jump(body, target, after)
          case If(test, target) => if Taken(test, args) then Jump(body, target, after) else Go(j + 1, after)
          case Likely(test, target) => if Taken(test, args) then Jump(body, target, after) else Go(j + 1, s)
          case Switch => Jump(body, User(cpu.table(i.op, args)), after)
          case Return => Stop(Returned, after)
          case Call(_) => Go(j + 1, AfterCall(i, cpu, SourceValue(i, s), after))
  }

  function MachineRun(body: seq<Item>, cpu: Cpu, pc: nat, s: State, n: nat): (next: Next)
    requires pc <= |body|
    ensures next.Go? ==> next.pc <= |body|
    decreases n
  {
    if n == 0 then Go(pc, s)
    else
      var next := MachineStep(body, cpu, pc, s);
      if next.Stop? then next else MachineRun(body, cpu, next.pc, next.state, n - 1)
  }

  // ----- lowered code -----

  /** Blocks as one list: `Mark` starts a labelled block, `End` closes one. */
  datatype Cmd = Mark(names: seq<Name>) | Do(instr: Instr) | End

  /** Where a block will go when it ends. */
  datatype Pending = Fall | To(name: Name) | Leave

  datatype Config = Config(pos: nat, state: State, pending: Pending)

  datatype CodeNext = Running(config: Config) | Halted(why: Exit, state: State)

  function FindMark(code: seq<Cmd>, n: Name, from: nat): (k: Option<nat>)
    requires from <= |code|
    ensures k.Some? ==> from <= k.value < |code| && code[k.value].Mark? && n in code[k.value].names
    ensures k.None? ==> forall j :: from <= j < |code| && code[j].Mark? ==> n !in code[j].names
    decreases |code| - from
  {
    if from == |code| then None
    else if code[from].Mark? && n in code[from].names then Some(from)
    else FindMark(code, n, from + 1)
  }

  /** Instructions run in order; a branch only decides where its block goes in the end. */
  function CodeStep(code: seq<Cmd>, cpu: Cpu, c: Config): (next: CodeNext)
    requires c.pos <= |code|
    ensures next.Running? ==> next.config.pos <= |code|
  {
    if c.pos == |code| then Halted(Stuck, c.state)
    else if code[c.pos].Mark? then Running(Config(c.pos + 1, c.state, c.pending))
    else if code[c.pos].End? then
      match c.pending
      case Fall => Running(Config(c.pos + 1, c.state, Fall))
      case Leave => Halted(Returned, c.state)
      case To(name) =>
        var k := FindMark(code, name, 0);
        if k.Some? then Running(Config(k.value, c.state, Fall)) else Halted(Missing(name), c.state)
    else
      var i := code[c.pos].instr;
      match i.kind
      case Plain => Running(Config(c.pos + 1, After(i, cpu, c.state), c.pending))
      case Goto(target) => Running(Config(c.pos + 1, c.state, To(target)))
      case If(test, target) =>
        Running(Config(c.pos + 1, c.state, if Taken(test, ReadAll(c.state, i.uses)) then To(target) else c.pending))
      case Switch => Running(Config(c.pos + 1, c.state, To(User(cpu.table(i.op, ReadAll(c.state, i.uses))))))
      case Return => Running(Config(c.pos + 1, c.state, Leave))
      case Call(_) => Running(Config(c.pos + 1, AfterCall(i, cpu, SourceValue(i, c.state), c.state), c.pending))
      case Likely(_, _) => Halted(Stuck, c.state)
  }

  function CodeRun(code: seq<Cmd>, cpu: Cpu, c: Config, n: nat): (next: CodeNext)
    requires c.pos <= |code|
    ensures next.Running? ==> next.config.pos <= |code|
    decreases n
  {
    if n == 0 then Running(c)
    else
      var next := CodeStep(code, cpu, c);
      if next.Halted? then next else CodeRun(code, cpu, next.config, n - 1)
  }

  // ----- lowering, as a function -----

  /** The code so far, and how often each target has been the target of a branch-likely. */
  datatype Built = Built(code: seq<Cmd>, counts: map<Name, nat>)

  datatype Failure = LabelInSlot | TwoSlots | ClobberedSource | NotStatic

  function Count(b: Built, n: Name): nat {
    if n in b.counts then b.counts[n] else 0
  }

  /** Ends the current block if it holds an instruction. */
  function Close(code: seq<Cmd>): seq<Cmd> {
    if code != [] && code[|code| - 1].Do? then code + [End] else code
  }

  /** It should be fine to run the instruction twice in a row. */
  predicate Repeatable(i: Instr) {
    (forall x :: x in i.outputs ==> x !in i.uses) && !i.isStore
  }

  /** The branch without its delay slot, going elsewhere. */
  function Retargeted(i: Instr, target: Name): Instr
    requires i.kind.Goto? || i.kind.If? || i.kind.Likely?
  {
    match i.kind
    case Goto(_) => i.(kind := Goto(target))
    case If(test, _) => i.(kind := If(test, target))
    case Likely(test, _) => i.(kind := If(InvertMnemonic(test), target))
  }

  /** The delay slot is a jump target and must not run twice: taken branches run a copy of it. */
  function SkipCode(i: Instr, slot: Instr, names: seq<Name>): seq<Cmd>
    requires (i.kind.Goto? || i.kind.If?) && names != []
  {
    [Do(Retargeted(i, SkipOf(names[0]))), Do(NOP), End,
     Do(Branch(names[0])), Do(NOP), End,
     Mark([SkipOf(names[0])]), Do(Branch(i.kind.target)), Do(slot), End,
     Mark(names), Do(slot)]
  }

  /** A branch-likely runs its delay slot only when taken: the inverted branch skips it. */
  function LikelyCode(i: Instr, slot: Instr, index: nat): seq<Cmd>
    requires i.kind.Likely?
  {
    [Do(Retargeted(i, LikelyOf(index, i.kind.target))), Do(NOP), End,
     Do(slot), Do(Branch(i.kind.target)), Do(NOP), End,
     Mark([LikelyOf(index, i.kind.target)]), Do(NOP)]
  }

  predicate SlotsPresent(body: seq<Item>) {
    forall k: nat {:trigger SlotIndex(body, k)} :: k < |body| && body[k].Ins? && HasSlot(body[k].instr) ==>
      SlotIndex(body, k) < |body| && body[SlotIndex(body, k)].Ins?
  }

  predicate Named(body: seq<Item>) {
    forall k :: 0 <= k < |body| && body[k].Label? ==> body[k].names != []
  }

  /** Lowers the item at `pc`, and what belongs to it; returns where to go on. */
  function LowerItem(body: seq<Item>, pc: nat, b: Built): (r: Result<(Built, nat), Failure>)
    requires pc < |body| && SlotsPresent(body) && Named(body)
    ensures r.Ok? ==> pc < r.value.1 <= |body| && b.code <= r.value.0.code
  {
    if body[pc].Label? then Ok((b.(code := Close(b.code) + [Mark(body[pc].names)]), pc + 1))
    else
      var i := body[pc].instr;
      if i.kind.Plain? then Ok((b.(code := b.code + [Do(i)]), pc + 1))
      else
        var j := SlotIndex(body, pc);
        var slot := body[j].instr;
        var labelled := j == pc + 2;
        if labelled && (i.kind.Likely? || i.kind.Call?) then Err(LabelInSlot)
        else if labelled && !Repeatable(slot) then
          if i.kind.Goto? || i.kind.If? then
            Ok((b.(code := b.code + SkipCode(i, slot, body[pc + 1].names)), j + 1))
          else Err(NotStatic)
        else if HasSlot(slot) then Err(TwoSlots)
        else if i.kind.Likely? then
          var index := Count(b, i.kind.target) + 1;
          Ok((Built(b.code + LikelyCode(i, slot, index), b.counts[i.kind.target := index]), j + 1))
        else if i.kind.Call? then
          if i.kind.source.Some? && i.kind.source.value in Writes(slot) then Err(ClobberedSource)
          else Ok((b.(code := b.code + [Do(slot), Do(i)]), j + 1))
        else
          // With a label in the slot, label and slot come again, as a block of their own.
          Ok((b.(code := b.code + [Do(i), Do(slot), End]), if labelled then pc + 1 else j + 1))
  }

  const SAFEGUARD: seq<Cmd> := [Do(RETURN), Do(NOP), End]

  function LowerAll(body: seq<Item>, pc: nat, b: Built): (r: Result<seq<Cmd>, Failure>)
    requires pc <= |body| && SlotsPresent(body) && Named(body)
    ensures r.Ok? ==> b.code <= r.value
    decreases |body| - pc
  {
    if pc == |body| then Ok(b.code + SAFEGUARD)
    else
      var r := LowerItem(body, pc, b);
      if r.Err? then Err(r.error) else LowerAll(body, r.value.1, r.value.0)
  }

  function Lower(body: seq<Item>): Result<seq<Cmd>, Failure>
    requires SlotsPresent(body) && Named(body)
  {
    LowerAll(body, 0, Built([], map[]))
  }

  // ----- running an instruction for nothing, and running it twice -----

  lemma NopDoesNothing(cpu: Cpu, s: State)
    ensures After(NOP, cpu, s) == s
  {
    assert Writes(NOP) == {};
    assert After(NOP, cpu, s).regs == s.regs;
  }

  /**
   * The instruction clobbers nothing that it reads. Calls do not, but an instruction that stands for several others
   * clobbers what any of them wrote, and may read it too.
   */
  predicate Harmless(i: Instr) {
    forall x :: x in i.clobbers ==> x !in i.uses
  }

  lemma TwiceIsOnce(i: Instr, cpu: Cpu, s: State)
    requires Repeatable(i) && Harmless(i)
    ensures After(i, cpu, After(i, cpu, s)) == After(i, cpu, s)
  {
    var t := After(i, cpu, s);
    forall k | 0 <= k < |i.uses|
      ensures Read(t, i.uses[k]) == Read(s, i.uses[k])
    {
      assert i.uses[k] in i.uses && i.uses[k] !in Writes(i);
    }
    assert ReadAll(t, i.uses) == ReadAll(s, i.uses);
    assert After(i, cpu, t).regs == t.regs;
  }

  ghost predicate Idempotent(i: Instr) {
    forall cpu: Cpu, s: State :: After(i, cpu, After(i, cpu, s)) == After(i, cpu, s)
  }

  /** A machine on which every written location becomes one more than the `k`th value read, and the state of all zeros. */
  function Counting(k: nat): Cpu {
    Cpu((op, args, memory, l) => Arg(args, k) + 1, (op, args) => "")
  }

  const ZEROS := State(map[], [])

  /** Reading what it clobbers, an instruction counts how often it runs. */
  lemma TwiceIsTwo(i: Instr, k: nat)
    requires k < |i.uses| && i.uses[k] in i.clobbers
    ensures var cpu := Counting(k);
      && Read(After(i, cpu, ZEROS), i.uses[k]) == 1
      && Read(After(i, cpu, After(i, cpu, ZEROS)), i.uses[k]) == 2
  {
    var cpu, x := Counting(k), i.uses[k];
    var t := After(i, cpu, ZEROS);
    assert x in Writes(i);
    assert Arg(ReadAll(ZEROS, i.uses), k) == Read(ZEROS, x) == 0;
    assert Arg(ReadAll(t, i.uses), k) == Read(t, x);
  }

  /**
   * The source's test looks at outputs only. An instruction that passes it does the same twice as once, on every machine
   * and from every state, if and only if it does not read what it clobbers either.
   */
  lemma RepeatableIsIdempotent(i: Instr)
    requires Repeatable(i)
    ensures Idempotent(i) <==> Harmless(i)
  {
    if Harmless(i) {
      forall cpu: Cpu, s: State
        ensures After(i, cpu, After(i, cpu, s)) == After(i, cpu, s)
      {
        TwiceIsOnce(i, cpu, s);
      }
    } else {
      var x :| x in i.clobbers && x in i.uses;
      var k :| 0 <= k < |i.uses| && i.uses[k] == x;
      TwiceIsTwo(i, k);
    }
  }

  // ----- what is asked of a program -----

  /** A branch in a delay slot is undefined. */
  predicate SlotsPlain(body: seq<Item>)
    requires SlotsPresent(body)
  {
    forall k: nat {:trigger SlotIndex(body, k)} :: k < |body| && body[k].Ins? && HasSlot(body[k].instr) ==>
      body[SlotIndex(body, k)].instr.kind.Plain?
  }

  /** The slot of the branch at `k` has a label and is simply repeated, so falling through the branch runs it twice. */
  predicate RunsTwice(body: seq<Item>, k: nat) {
    && k + 2 < |body| && body[k].Ins? && body[k].instr.kind.If?
    && body[k + 1].Label? && body[k + 2].Ins? && Repeatable(body[k + 2].instr)
  }

  /** Instructions that may run twice do not read what they clobber. */
  predicate RepeatsHarmless(body: seq<Item>) {
    forall k: nat {:trigger RunsTwice(body, k)} :: k < |body| && RunsTwice(body, k) ==> Harmless(body[k + 2].instr)
  }

  /** Labels are merged: `minimize_labels` leaves no two in a row. */
  predicate NoAdjacentLabels(body: seq<Item>) {
    forall k :: 0 <= k < |body| - 1 && body[k].Label? ==> body[k + 1].Ins?
  }

  predicate UniqueLabels(body: seq<Item>) {
    forall j, k, n :: 0 <= j < k < |body| && body[j].Label? && body[k].Label? && n in body[j].names ==> n !in body[k].names
  }

  predicate UserNames(body: seq<Item>) {
    && (forall k, n :: 0 <= k < |body| && body[k].Label? && n in body[k].names ==> n.User?)
    && (forall k :: 0 <= k < |body| && body[k].Ins? ==> UserTarget(body[k].instr))
  }

  predicate UserTarget(i: Instr) {
    i.kind.Goto? || i.kind.If? || i.kind.Likely? ==> i.kind.target.User?
  }

  /** What the architecture and the earlier steps guarantee. */
  predicate Wf(body: seq<Item>) {
    && Named(body) && SlotsPresent(body) && SlotsPlain(body) && NoAdjacentLabels(body) && UniqueLabels(body)
    && UserNames(body)
  }

  lemma MachineNeverStuck(body: seq<Item>, cpu: Cpu, pc: nat, s: State)
    requires Wf(body) && pc <= |body|
    ensures MachineStep(body, cpu, pc, s) != Stop(Stuck, MachineStep(body, cpu, pc, s).state)
  {
    if pc < |body| && body[pc].Ins? && HasSlot(body[pc].instr) {
      var j := SlotIndex(body, pc);
      assert body[j].instr.kind.Plain?;
    }
  }
}
