/**
 * `compute_flowgraph_inputs_uses` of m2c/flow_graph.py: for every instruction input, the
 * instructions its value can come from. The specification looks at all paths from the entry;
 * the code walks the dominator tree and searches back no further than the immediate dominator.
 */
module ReachingDefs {
  import opened Digraph
  import opened Dominators
  import opened Loops
  import opened Wrappers

  datatype Location = Register(name: string) | StackLocation(offset: int)

  datatype Instruction = Instruction(inputs: seq<Location>, outputs: seq<Location>, clobbers: seq<Location>, isCall: bool)

  datatype Reference =
    | PrologueRef(location: Location)
    | InstrRef(node: nat, index: nat)
    | EpilogueRef(location: Location)

  /** The function being analysed: its graph, the code of its nodes, and the registers of the architecture. */
  datatype Code = Code(g: Graph, blocks: seq<seq<Instruction>>, allRegs: seq<Location>,
                       returnRegs: seq<Location>, argumentRegs: seq<Location>)

  ghost predicate WfCode(code: Code) {
    && Wf(code.g) && |code.blocks| == |code.g| > 0
    && code.blocks[|code.g| - 1] == []
  }

  // ----- the specification: last writers along paths -----

  datatype Touch = Untouched | Clobbered | Writes(index: nat)

  /** What the last of the first `n` instructions of `block` that touches `loc` does to it. */
  function LastTouch(block: seq<Instruction>, n: nat, loc: Location): (t: Touch)
    requires n <= |block|
    ensures t.Writes? ==> t.index < n
  {
    if n == 0 then Untouched
    else if loc in block[n - 1].outputs then Writes(n - 1)
    else if loc in block[n - 1].clobbers then Clobbered
    else LastTouch(block, n - 1, loc)
  }

  function NodeTouch(code: Code, v: nat, loc: Location): Touch
    requires v < |code.blocks|
  {
    LastTouch(code.blocks[v], |code.blocks[v]|, loc)
  }

  datatype Origin = Unset | From(ref: Reference)

  /** Where the value of `loc` comes from after running the nodes of `p` in order. */
  function OriginAfter(code: Code, p: seq<nat>, loc: Location): Origin
    requires forall k :: 0 <= k < |p| ==> p[k] < |code.blocks|
  {
    if p == [] then (if loc in code.allRegs then From(PrologueRef(loc)) else Unset)
    else
      var last := p[|p| - 1];
      match NodeTouch(code, last, loc)
      case Writes(i) => From(InstrRef(last, i))
      case Clobbered => Unset
      case Untouched => OriginAfter(code, p[..|p| - 1], loc)
  }

  /** The same after running `p` up to the first `i` instructions of its last node. */
  function OriginAt(code: Code, p: seq<nat>, i: nat, loc: Location): Origin
    requires p != [] && forall k :: 0 <= k < |p| ==> p[k] < |code.blocks|
    requires i <= |code.blocks[p[|p| - 1]]|
  {
    var last := p[|p| - 1];
    match LastTouch(code.blocks[last], i, loc)
    case Writes(k) => From(InstrRef(last, k))
    case Clobbered => Unset
    case Untouched => OriginAfter(code, p[..|p| - 1], loc)
  }

  ghost predicate Inside(code: Code, v: nat, i: nat) {
    v < |code.g| == |code.blocks| && i <= |code.blocks[v]|
  }

  /** A path from the entry that never comes back to it. */
  ghost predicate OncePath(g: Graph, p: seq<nat>, v: nat) {
    PathFromTo(g, p, 0, v) && 0 !in p[1..]
  }

  lemma OnceReaches(g: Graph, v: nat) returns (p: seq<nat>)
    requires Reaches(g, 0, v)
    ensures OncePath(g, p, v)
  {
    var q :| PathFromTo(g, q, 0, v);
    var j := LastOccurrence(q, 0);
    PathSuffix(g, q, j);
    p := q[j..];
    assert p[1..] == q[j + 1..];
  }

  /** On the path `p` from the entry, `loc` has origin `o` at instruction `i` of `v`. */
  ghost predicate Arrives(code: Code, p: seq<nat>, v: nat, i: nat, loc: Location, o: Origin)
    requires Inside(code, v, i)
  {
    OncePath(code.g, p, v) && OriginAt(code, p, i, loc) == o
  }

  /** On some path the last touch is a clobber, or nothing ever set the location. */
  ghost predicate SometimesUnset(code: Code, v: nat, i: nat, loc: Location)
    requires Inside(code, v, i)
  {
    exists p :: Arrives(code, p, v, i, loc, Unset)
  }

  ghost predicate Supplies(code: Code, v: nat, i: nat, loc: Location, r: Reference)
    requires Inside(code, v, i)
  {
    exists p :: Arrives(code, p, v, i, loc, From(r))
  }

  /** `s` lists the last writers of `loc` over all paths to the point, or nothing if some path leaves it unset. */
  ghost predicate ExactSources(code: Code, v: nat, i: nat, loc: Location, s: seq<Reference>)
    requires Inside(code, v, i)
  {
    if SometimesUnset(code, v, i, loc) then s == []
    else forall r :: r in s <==> Supplies(code, v, i, loc, r)
  }

  // ----- RefSet and LocationRefSetDict -----

  type RefSet = seq<Reference>
  type Sources = map<Location, RefSet>

  function AddRef(s: RefSet, ref: Reference): RefSet {
    if ref in s then s else s + [ref]
  }

  function Get(m: Sources, loc: Location): RefSet {
    if loc in m then m[loc] else []
  }

  function AddSource(m: Sources, loc: Location, ref: Reference): (r: Sources)
    ensures forall l, x :: x in Get(r, l) <==> x in Get(m, l) || (l == loc && x == ref)
  {
    m[loc := AddRef(Get(m, loc), ref)]
  }

  function Remove(m: Sources, loc: Location): Sources {
    m - {loc}
  }

  ghost predicate ExactAt(code: Code, v: nat, i: nat, m: Sources) {
    Inside(code, v, i) && forall loc :: ExactSources(code, v, i, loc, Get(m, loc))
  }

  // ----- one instruction -----

  /** The sources of `loc` after `ins`, given the sources before it. */
  function AfterInstruction(ins: Instruction, ref: Reference, loc: Location, before: RefSet): RefSet {
    if loc in ins.outputs then [ref] else if loc in ins.clobbers then [] else before
  }

  method RemoveAll(touched: seq<Location>, m: Sources) returns (m': Sources)
    ensures forall loc :: Get(m', loc) == if loc in touched then [] else Get(m, loc)
  {
    m' := m;
    for k := 0 to |touched|
      invariant forall loc :: Get(m', loc) == if loc in touched[..k] then [] else Get(m, loc)
    {
      assert touched[..k + 1] == touched[..k] + [touched[k]];
      if Get(m', touched[k]) != [] {
        m' := Remove(m', touched[k]);
      }
    }
    assert touched[..|touched|] == touched;
  }

  /** The source's step: drop clobbered and written locations, then record the written ones. */
  method StepInstruction(ins: Instruction, ref: Reference, m: Sources) returns (m': Sources)
    ensures forall loc :: Get(m', loc) == AfterInstruction(ins, ref, loc, Get(m, loc))
  {
    m' := RemoveAll(ins.clobbers + ins.outputs, m);
    ghost var cleared := m';
    for k := 0 to |ins.outputs|
      invariant forall loc :: Get(m', loc) == if loc in ins.outputs[..k] then [ref] else Get(cleared, loc)
    {
      assert ins.outputs[..k + 1] == ins.outputs[..k] + [ins.outputs[k]];
      m' := m'[ins.outputs[k] := AddRef(Get(m', ins.outputs[k]), ref)];
    }
    assert ins.outputs[..|ins.outputs|] == ins.outputs;
  }

  /** Running instruction `i` takes the exact sources before it to the exact sources after it, at `j == i + 1`. */
  lemma StepExact(code: Code, v: nat, i: nat, j: nat, loc: Location, s: seq<Reference>, s': seq<Reference>)
    requires Inside(code, v, j) && j == i + 1 && Reaches(code.g, 0, v)
    requires ExactSources(code, v, i, loc, s)
    requires s' == AfterInstruction(code.blocks[v][i], InstrRef(v, i), loc, s)
    ensures ExactSources(code, v, j, loc, s')
  {
    var ins := code.blocks[v][i];
    var p0 := OnceReaches(code.g, v);
    if loc in ins.outputs {
      assert Arrives(code, p0, v, j, loc, From(InstrRef(v, i)));
    } else if loc in ins.clobbers {
      assert Arrives(code, p0, v, j, loc, Unset);
    } else {
      forall p, o
        ensures Arrives(code, p, v, j, loc, o) <==> Arrives(code, p, v, i, loc, o)
      {
      }
    }
  }

  // ----- searching back through nodes of a set -----

  /** `u` reaches `v` in one or more steps, with every node in between in `pass`. */
  ghost predicate Via(g: Graph, pass: set<nat>, u: nat, v: nat) {
    exists q :: ViaPath(g, pass, q, u, v)
  }

  ghost predicate ViaPath(g: Graph, pass: set<nat>, q: seq<nat>, u: nat, v: nat) {
    PathFromTo(g, q, u, v) && |q| >= 2 && forall i :: 0 < i < |q| - 1 ==> q[i] in pass
  }

  ghost predicate ViaState(g: Graph, par: Graph, pass: set<nat>, v: nat, seen: set<nat>, pending: set<nat>)
    requires |par| == |g| && v < |g|
  {
    && (forall x: nat :: x in seen || x in pending ==> x < |g| && Via(g, pass, x, v))
    && (forall u: nat :: u in par[v] ==> u in seen || u in pending)
    && (forall y: nat, u: nat :: y in seen && y in pass && y < |g| && u in par[y] ==> u in seen || u in pending)
  }

  lemma ViaStart(g: Graph, par: Graph, pass: set<nat>, v: nat)
    requires Reversed(g, par) && Wf(par) && v < |g|
    ensures ViaState(g, par, pass, v, {}, Elements(par[v]))
  {
    forall u: nat | u in par[v]
      ensures u < |g| && Via(g, pass, u, v)
    {
      assert ViaPath(g, pass, [u, v], u, v);
    }
  }

  function Onward(par: Graph, pass: set<nat>, n: nat): set<nat>
    requires n < |par|
  {
    if n in pass then Elements(par[n]) else {}
  }

  lemma ViaVisit(g: Graph, par: Graph, pass: set<nat>, v: nat, seen: set<nat>, pending: set<nat>, n: nat)
    requires Reversed(g, par) && Wf(par) && v < |g|
    requires ViaState(g, par, pass, v, seen, pending + {n})
    ensures n < |g| && Via(g, pass, n, v)
    ensures ViaState(g, par, pass, v, seen + {n}, pending + Onward(par, pass, n))
  {
    assert n in pending + {n};
    if n in pass {
      var q :| ViaPath(g, pass, q, n, v);
      forall u: nat | u in par[n]
        ensures u < |g| && Via(g, pass, u, v)
      {
        var q' := [u] + q;
        assert PathFromTo(g, q', u, v);
        assert ViaPath(g, pass, q', u, v);
      }
    }
  }

  lemma ViaSkip(g: Graph, par: Graph, pass: set<nat>, v: nat, seen: set<nat>, pending: set<nat>, n: nat)
    requires |par| == |g| && v < |g| && n in seen
    requires ViaState(g, par, pass, v, seen, pending + {n})
    ensures ViaState(g, par, pass, v, seen, pending)
  {
  }

  lemma {:induction false} ViaFound(g: Graph, par: Graph, pass: set<nat>, v: nat, seen: set<nat>, q: seq<nat>, u: nat)
    requires Reversed(g, par) && v < |g| && ViaState(g, par, pass, v, seen, {})
    requires ViaPath(g, pass, q, u, v)
    ensures u in seen
    decreases |q|
  {
    assert q[0 + 1] in g[q[0]];
    if |q| == 2 {
      assert u in par[v];
    } else {
      var w := q[1];
      PathSuffix(g, q, 1);
      assert ViaPath(g, pass, q[1..], w, v);
      ViaFound(g, par, pass, v, seen, q[1..], w);
      assert u in par[w];
    }
  }

  lemma ViaDone(g: Graph, par: Graph, pass: set<nat>, v: nat, seen: set<nat>)
    requires Reversed(g, par) && v < |g| && ViaState(g, par, pass, v, seen, {})
    ensures forall u: nat :: u in seen <==> Via(g, pass, u, v)
  {
    forall u: nat | Via(g, pass, u, v)
      ensures u in seen
    {
      var q :| ViaPath(g, pass, q, u, v);
      ViaFound(g, par, pass, v, seen, q, u);
    }
  }

  // ----- phi sources -----

  ghost function SilentNodes(code: Code, loc: Location, stop: nat): (s: set<nat>)
    ensures forall u: nat :: u in s <==> u < |code.blocks| && u != stop && NodeTouch(code, u, loc) == Untouched
  {
    set u | u in NodesBelow(|code.blocks|) && u != stop && NodeTouch(code, u, loc) == Untouched
  }

  /** A search from `v` that stays off `loc` meets `u`. */
  ghost predicate Meets(code: Code, stop: nat, loc: Location, u: nat, v: nat) {
    Via(code.g, SilentNodes(code, loc, stop), u, v)
  }

  /** The search meets a clobber, or the immediate dominator without a source. */
  ghost predicate PhiBlocked(code: Code, stop: nat, loc: Location, v: nat, imdomSrcs: RefSet) {
    exists u: nat :: u < |code.blocks| && Meets(code, stop, loc, u, v) &&
      (if u == stop then imdomSrcs == [] else NodeTouch(code, u, loc) == Clobbered)
  }

  ghost predicate PhiSource(code: Code, stop: nat, loc: Location, v: nat, imdomSrcs: RefSet, r: Reference) {
    || (Meets(code, stop, loc, stop, v) && r in imdomSrcs)
    || (r.InstrRef? && r.node < |code.blocks| && r.node != stop && Meets(code, stop, loc, r.node, v)
        && NodeTouch(code, r.node, loc) == Writes(r.index))
  }

  /** What the backwards search from `v` up to `stop` returns. */
  ghost predicate PhiResult(code: Code, stop: nat, loc: Location, v: nat, imdomSrcs: RefSet, s: RefSet) {
    if PhiBlocked(code, stop, loc, v, imdomSrcs) then s == []
    else forall r :: r in s <==> PhiSource(code, stop, loc, v, imdomSrcs, r)
  }

  /** A path extended through silent nodes keeps its origin. */
  lemma {:induction false} SilentTail(code: Code, loc: Location, p: seq<nat>, q: seq<nat>)
    requires forall k :: 0 <= k < |p| ==> p[k] < |code.blocks|
    requires forall k :: 0 <= k < |q| ==> q[k] < |code.blocks| && NodeTouch(code, q[k], loc) == Untouched
    ensures forall k :: 0 <= k < |p + q| ==> (p + q)[k] < |code.blocks|
    ensures OriginAfter(code, p + q, loc) == OriginAfter(code, p, loc)
    decreases |q|
  {
    if q == [] {
      assert p + q == p;
    } else {
      var q' := q[..|q| - 1];
      assert (p + q)[..|p + q| - 1] == p + q';
      assert forall k :: 0 <= k < |q'| ==> q'[k] == q[k];
      SilentTail(code, loc, p, q');
    }
  }

  /** Going through `a` to `u`, then over silent nodes to `v`: the origin at `v` is the origin after `u`. */
  lemma OriginThrough(code: Code, stop: nat, loc: Location, a: seq<nat>, q: seq<nat>, u: nat, v: nat) returns (p: seq<nat>)
    requires WfCode(code) && OncePath(code.g, a, u) && Strict(code.g, 0, stop, v)
    requires ViaPath(code.g, SilentNodes(code, loc, stop), q, u, v)
    ensures OncePath(code.g, p, v)
    ensures forall k :: 0 <= k < |a| ==> a[k] < |code.blocks|
    ensures OriginAt(code, p, 0, loc) == OriginAfter(code, a, loc)
  {
    PathJoin(code.g, a, q);
    p := a + q[1..];
    forall i | 1 <= i < |q|
      ensures q[i] != 0
    {
      PathSuffix(code.g, q, i);
      var tail := q[i..];
      assert tail[0] == 0 ==> stop in tail;
    }
    assert p[1..] == a[1..] + q[1..];
    var mid := q[1..|q| - 1];
    assert p[..|p| - 1] == a + mid;
    forall k | 0 <= k < |mid|
      ensures mid[k] < |code.blocks| && NodeTouch(code, mid[k], loc) == Untouched
    {
      assert mid[k] == q[k + 1];
    }
    SilentTail(code, loc, a, mid);
  }

  /** The last node of `p`, before its end, that is not in `silent`. */
  lemma {:induction false} LastOutside(p: seq<nat>, silent: set<nat>, stop: nat) returns (j: nat)
    requires p != [] && stop in p[..|p| - 1] && stop !in silent
    ensures j < |p| - 1 && p[j] !in silent && forall k :: j < k < |p| - 1 ==> p[k] in silent
  {
    var init := p[..|p| - 1];
    if init[|init| - 1] !in silent {
      j := |p| - 2;
    } else {
      assert stop in init[..|init| - 1] by {
        assert init == init[..|init| - 1] + [init[|init| - 1]];
      }
      j := LastOutside(init, silent, stop);
    }
  }

  /** Along a path into `v`, the search meets the last node that touches `loc` or is `stop`. */
  lemma LastStop(code: Code, stop: nat, loc: Location, p: seq<nat>, v: nat) returns (j: nat)
    requires WfCode(code) && PathFromTo(code.g, p, 0, v) && stop in p[..|p| - 1]
    ensures j < |p| - 1 && p[j] < |code.blocks|
    ensures p[j] == stop || NodeTouch(code, p[j], loc) != Untouched
    ensures ViaPath(code.g, SilentNodes(code, loc, stop), p[j..], p[j], v)
    ensures OriginAt(code, p, 0, loc) == OriginAfter(code, p[..j + 1], loc)
  {
    var silent := SilentNodes(code, loc, stop);
    j := LastOutside(p, silent, stop);
    PathSuffix(code.g, p, j);
    var q := p[j..];
    assert forall i :: 0 < i < |q| - 1 ==> q[i] == p[j + i];
    LastStopOrigin(code, stop, loc, p, j);
  }

  lemma LastStopOrigin(code: Code, stop: nat, loc: Location, p: seq<nat>, j: nat)
    requires WfCode(code) && IsPath(code.g, p) && j < |p| - 1
    requires forall k :: j < k < |p| - 1 ==> p[k] in SilentNodes(code, loc, stop)
    ensures OriginAt(code, p, 0, loc) == OriginAfter(code, p[..j + 1], loc)
  {
    var mid := p[j + 1..|p| - 1];
    assert p[..|p| - 1] == p[..j + 1] + mid;
    forall k | 0 <= k < |mid|
      ensures mid[k] < |code.blocks| && NodeTouch(code, mid[k], loc) == Untouched
    {
      assert mid[k] == p[j + 1 + k];
    }
    SilentTail(code, loc, p[..j + 1], mid);
  }

  /** The end of node `d`: all of its instructions have run. */
  ghost predicate ExactAfter(code: Code, d: nat, loc: Location, s: RefSet) {
    d < |code.g| == |code.blocks| && ExactSources(code, d, |code.blocks[d]|, loc, s)
  }

  lemma OriginAtEnd(code: Code, a: seq<nat>, d: nat, loc: Location)
    requires WfCode(code) && PathFromTo(code.g, a, 0, d)
    ensures forall k :: 0 <= k < |a| ==> a[k] < |code.blocks|
    ensures OriginAt(code, a, |code.blocks[d]|, loc) == OriginAfter(code, a, loc)
  {
  }

  /** The origin along any path into `v` is one the search reports, or the search is blocked. */
  lemma PathIsReported(code: Code, d: nat, loc: Location, v: nat, imdomSrcs: RefSet, p: seq<nat>)
    requires WfCode(code) && v < |code.g| && Strict(code.g, 0, d, v)
    requires ExactAfter(code, d, loc, imdomSrcs)
    requires OncePath(code.g, p, v) && !PhiBlocked(code, d, loc, v, imdomSrcs)
    ensures OriginAt(code, p, 0, loc).From?
    ensures PhiSource(code, d, loc, v, imdomSrcs, OriginAt(code, p, 0, loc).ref)
  {
    assert d in p && p[|p| - 1] != d;
    assert p == p[..|p| - 1] + [p[|p| - 1]];
    var j := LastStop(code, d, loc, p, v);
    assert Meets(code, d, loc, p[j], v);
    var a := p[..j + 1];
    PathPrefix(code.g, p, j);
    assert a[1..] <= p[1..];
    var o := OriginAt(code, p, 0, loc);
    if p[j] == d {
      OriginAtEnd(code, a, d, loc);
      assert !SometimesUnset(code, d, |code.blocks[d]|, loc);
      assert Arrives(code, a, d, |code.blocks[d]|, loc, o);
      assert Supplies(code, d, |code.blocks[d]|, loc, o.ref);
    }
  }

  /** Each source the search reports is the origin along some path into `v`. */
  lemma ReportedHasPath(code: Code, d: nat, loc: Location, v: nat, imdomSrcs: RefSet, r: Reference)
    requires WfCode(code) && v < |code.g| && AllReachable(code.g, 0) && Strict(code.g, 0, d, v)
    requires ExactAfter(code, d, loc, imdomSrcs)
    requires PhiSource(code, d, loc, v, imdomSrcs, r)
    ensures Supplies(code, v, 0, loc, r)
  {
    if Meets(code, d, loc, d, v) && r in imdomSrcs {
      var q :| ViaPath(code.g, SilentNodes(code, loc, d), q, d, v);
      assert Supplies(code, d, |code.blocks[d]|, loc, r);
      var a :| Arrives(code, a, d, |code.blocks[d]|, loc, From(r));
      OriginAtEnd(code, a, d, loc);
      var p := OriginThrough(code, d, loc, a, q, d, v);
      assert Arrives(code, p, v, 0, loc, From(r));
    } else {
      var u := r.node;
      var q :| ViaPath(code.g, SilentNodes(code, loc, d), q, u, v);
      assert Reaches(code.g, 0, u);
      var a := OnceReaches(code.g, u);
      var p := OriginThrough(code, d, loc, a, q, u, v);
      assert Arrives(code, p, v, 0, loc, From(r));
    }
  }

  /** If the search is blocked, some path into `v` leaves the location unset. */
  lemma BlockedHasPath(code: Code, d: nat, loc: Location, v: nat, imdomSrcs: RefSet)
    requires WfCode(code) && v < |code.g| && AllReachable(code.g, 0) && Strict(code.g, 0, d, v)
    requires ExactAfter(code, d, loc, imdomSrcs)
    requires PhiBlocked(code, d, loc, v, imdomSrcs)
    ensures SometimesUnset(code, v, 0, loc)
  {
    var u: nat :| u < |code.blocks| && Meets(code, d, loc, u, v) &&
      (if u == d then imdomSrcs == [] else NodeTouch(code, u, loc) == Clobbered);
    var q :| ViaPath(code.g, SilentNodes(code, loc, d), q, u, v);
    assert Reaches(code.g, 0, u);
    var a := OnceReaches(code.g, u);
    if u == d {
      var n := |code.blocks[d]|;
      OriginAtEnd(code, a, d, loc);
      var o := OriginAfter(code, a, loc);
      assert Arrives(code, a, d, n, loc, o);
      if o.From? {
        assert Supplies(code, d, n, loc, o.ref);
        assert SometimesUnset(code, d, n, loc);
      }
      a :| Arrives(code, a, d, n, loc, Unset);
      OriginAtEnd(code, a, d, loc);
    }
    var p := OriginThrough(code, d, loc, a, q, u, v);
    assert Arrives(code, p, v, 0, loc, Unset);
  }

  /** The search cut off at a strict dominator agrees with the all-paths definition. */
  lemma PhiExact(code: Code, d: nat, loc: Location, v: nat, imdomSrcs: RefSet, s: RefSet)
    requires WfCode(code) && v < |code.g| && AllReachable(code.g, 0)
    requires Strict(code.g, 0, d, v) && ExactAfter(code, d, loc, imdomSrcs)
    requires PhiResult(code, d, loc, v, imdomSrcs, s)
    ensures ExactSources(code, v, 0, loc, s)
  {
    if PhiBlocked(code, d, loc, v, imdomSrcs) {
      BlockedHasPath(code, d, loc, v, imdomSrcs);
    } else {
      forall p | OncePath(code.g, p, v)
        ensures OriginAt(code, p, 0, loc).From?
        ensures PhiSource(code, d, loc, v, imdomSrcs, OriginAt(code, p, 0, loc).ref)
      {
        PathIsReported(code, d, loc, v, imdomSrcs, p);
      }
      forall r
        ensures r in s <==> Supplies(code, v, 0, loc, r)
      {
        if r in s {
          ReportedHasPath(code, d, loc, v, imdomSrcs, r);
        }
      }
    }
  }

  /** Scans a block from its end for the last instruction that writes or clobbers `loc`. */
  method ScanBack(block: seq<Instruction>, loc: Location) returns (t: Touch)
    ensures t == LastTouch(block, |block|, loc)
  {
    var n: nat := |block|;
    while n > 0
      invariant n <= |block|
      invariant LastTouch(block, |block|, loc) == LastTouch(block, n, loc)
    {
      n := n - 1;
      if loc in block[n].outputs {
        return Writes(n);
      }
      if loc in block[n].clobbers {
        return Clobbered;
      }
    }
    t := Untouched;
  }

  ghost predicate Blocks(code: Code, stop: nat, loc: Location, imdomSrcs: RefSet, u: nat) {
    u < |code.blocks| && if u == stop then imdomSrcs == [] else NodeTouch(code, u, loc) == Clobbered
  }

  ghost predicate FoundSource(code: Code, stop: nat, loc: Location, imdomSrcs: RefSet, seen: set<nat>, r: Reference) {
    || (stop in seen && r in imdomSrcs)
    || (r.InstrRef? && r.node < |code.blocks| && r.node != stop && r.node in seen
        && NodeTouch(code, r.node, loc) == Writes(r.index))
  }

  /** `sources` is what the visited nodes contribute, and none of them blocks the phi. */
  ghost predicate PhiFound(code: Code, stop: nat, loc: Location, imdomSrcs: RefSet, seen: set<nat>, sources: RefSet) {
    && (forall u: nat :: u in seen ==> !Blocks(code, stop, loc, imdomSrcs, u))
    && (forall r :: r in sources <==> FoundSource(code, stop, loc, imdomSrcs, seen, r))
  }

  function Union(a: RefSet, b: RefSet): (r: RefSet)
    ensures forall x :: x in r <==> x in a || x in b
  {
    if b == [] then a
    else
      assert b == b[..|b| - 1] + [b[|b| - 1]];
      AddRef(Union(a, b[..|b| - 1]), b[|b| - 1])
  }

  /** What visiting `n` adds to the sources. */
  function Contribution(code: Code, stop: nat, loc: Location, imdomSrcs: RefSet, n: nat): RefSet
    requires n < |code.blocks|
  {
    if n == stop then imdomSrcs
    else match NodeTouch(code, n, loc)
         case Writes(i) => [InstrRef(n, i)]
         case _ => []
  }

  lemma PhiVisit(code: Code, stop: nat, loc: Location, imdomSrcs: RefSet, seen: set<nat>, sources: RefSet, n: nat)
    requires PhiFound(code, stop, loc, imdomSrcs, seen, sources)
    requires n < |code.blocks| && !Blocks(code, stop, loc, imdomSrcs, n)
    ensures PhiFound(code, stop, loc, imdomSrcs, seen + {n}, Union(sources, Contribution(code, stop, loc, imdomSrcs, n)))
  {
  }

  lemma PhiComplete(code: Code, par: Graph, stop: nat, loc: Location, v: nat, imdomSrcs: RefSet, seen: set<nat>, sources: RefSet)
    requires WfCode(code) && Reversed(code.g, par) && v < |code.g|
    requires ViaState(code.g, par, SilentNodes(code, loc, stop), v, seen, {})
    requires PhiFound(code, stop, loc, imdomSrcs, seen, sources)
    ensures PhiResult(code, stop, loc, v, imdomSrcs, sources)
  {
    ViaDone(code.g, par, SilentNodes(code, loc, stop), v, seen);
    forall u: nat
      ensures u in seen <==> Meets(code, stop, loc, u, v)
    {
    }
  }

  /** Phi sources of `loc` at `v`, searching back to its immediate dominator `stop`. */
  method PhiLocSources(code: Code, par: Graph, stop: nat, loc: Location, v: nat, imdomSrcs: RefSet) returns (sources: RefSet)
    requires WfCode(code) && Reversed(code.g, par) && Wf(par) && v < |code.g|
    ensures PhiResult(code, stop, loc, v, imdomSrcs, sources)
  {
    ghost var silent := SilentNodes(code, loc, stop);
    var seen: set<nat> := {};
    var stack: seq<nat> := par[v];
    sources := [];
    ViaStart(code.g, par, silent, v);
    while stack != []
      invariant ViaState(code.g, par, silent, v, seen, Elements(stack))
      invariant PhiFound(code, stop, loc, imdomSrcs, seen, sources)
      decreases |NodesBelow(|code.g|) - seen|, |stack|
    {
      var n: nat := stack[|stack| - 1];
      PopElements(stack);
      stack := stack[..|stack| - 1];
      if n in seen {
        ViaSkip(code.g, par, silent, v, seen, Elements(stack), n);
        continue;
      }
      ViaVisit(code.g, par, silent, v, seen, Elements(stack), n);
      LeftToSee(seen, n, |code.g|);
      var blocked, more, onward := VisitNode(code, par, stop, loc, imdomSrcs, n);
      if blocked {
        assert Meets(code, stop, loc, n, v);
        return [];
      }
      PhiVisit(code, stop, loc, imdomSrcs, seen, sources, n);
      seen := seen + {n};
      sources := Union(sources, more);
      PushElements(stack, onward);
      stack := stack + onward;
    }
    NoElements();
    PhiComplete(code, par, stop, loc, v, imdomSrcs, seen, sources);
  }

  /** What the source does at one visited node: give up, add sources, or go on to the parents. */
  method VisitNode(code: Code, par: Graph, stop: nat, loc: Location, imdomSrcs: RefSet, n: nat)
    returns (blocked: bool, more: RefSet, onward: seq<nat>)
    requires WfCode(code) && |par| == |code.g| && n < |code.g|
    ensures blocked <==> Blocks(code, stop, loc, imdomSrcs, n)
    ensures !blocked ==> more == Contribution(code, stop, loc, imdomSrcs, n)
    ensures !blocked ==> Elements(onward) == Onward(par, SilentNodes(code, loc, stop), n)
  {
    if n == stop {
      return imdomSrcs == [], imdomSrcs, [];
    }
    var t := ScanBack(code.blocks[n], loc);
    match t
    case Writes(i) => return false, [InstrRef(n, i)], [];
    case Clobbered => return true, [], [];
    case Untouched => return false, [], par[n];
  }

  lemma PopElements(stack: seq<nat>)
    requires stack != []
    ensures Elements(stack) == Elements(stack[..|stack| - 1]) + {stack[|stack| - 1]}
  {
    assert stack == stack[..|stack| - 1] + [stack[|stack| - 1]];
  }

  lemma PushElements(stack: seq<nat>, more: seq<nat>)
    ensures Elements(stack + more) == Elements(stack) + Elements(more)
  {
  }

  lemma NoElements()
    ensures Elements([]) == {}
  {
  }

  // ----- which locations can change below the immediate dominator -----

  predicate Touches(block: seq<Instruction>, loc: Location) {
    exists i :: 0 <= i < |block| && (loc in block[i].outputs || loc in block[i].clobbers)
  }

  lemma {:induction false} TouchesLast(block: seq<Instruction>, n: nat, loc: Location)
    requires n <= |block|
    ensures LastTouch(block, n, loc) != Untouched <==>
      exists i :: 0 <= i < n && (loc in block[i].outputs || loc in block[i].clobbers)
  {
    if n > 0 { TouchesLast(block, n - 1, loc); }
  }

  ghost function NodesBut(code: Code, stop: nat): set<nat> {
    NodesBelow(|code.g|) - {stop}
  }

  method BlockLocations(block: seq<Instruction>) returns (locs: set<Location>)
    ensures forall loc :: loc in locs <==> Touches(block, loc)
  {
    locs := {};
    for i := 0 to |block|
      invariant forall loc :: loc in locs <==> Touches(block[..i], loc)
    {
      ghost var b := block[..i + 1];
      assert b == block[..i] + [block[i]];
      var more := (set l | l in block[i].outputs) + (set l | l in block[i].clobbers);
      forall loc
        ensures Touches(b, loc) <==> Touches(block[..i], loc) || loc in more
      {
        assert b[i] == block[i];
        if Touches(block[..i], loc) {
          var k :| 0 <= k < i && (loc in block[..i][k].outputs || loc in block[..i][k].clobbers);
          assert b[k] == block[..i][k];
        }
        if Touches(b, loc) {
          var k :| 0 <= k < i + 1 && (loc in b[k].outputs || loc in b[k].clobbers);
          assert k < i ==> b[k] == block[..i][k];
        }
      }
      locs := locs + more;
    }
    assert block[..|block|] == block;
  }

  ghost predicate TouchedWithin(code: Code, nodes: set<nat>, stop: nat, loc: Location) {
    exists u: nat :: u in nodes && u < |code.blocks| && u != stop && Touches(code.blocks[u], loc)
  }

  ghost predicate AllTouched(code: Code, nodes: set<nat>, stop: nat, locs: set<Location>) {
    forall loc :: loc in locs <==> TouchedWithin(code, nodes, stop, loc)
  }

  lemma TouchMore(code: Code, nodes: set<nat>, stop: nat, locs: set<Location>, n: nat, more: set<Location>)
    requires AllTouched(code, nodes, stop, locs) && n < |code.blocks|
    requires n == stop ==> more == {}
    requires n != stop ==> forall loc :: loc in more <==> Touches(code.blocks[n], loc)
    ensures AllTouched(code, nodes + {n}, stop, locs + more)
  {
    forall loc
      ensures loc in locs + more <==> TouchedWithin(code, nodes + {n}, stop, loc)
    {
      if TouchedWithin(code, nodes, stop, loc) {
        var u: nat :| u in nodes && u < |code.blocks| && u != stop && Touches(code.blocks[u], loc);
        assert u in nodes + {n};
      }
      if loc in more {
        assert n in nodes + {n};
      }
    }
  }

  /** Locations touched by some node that reaches `v` in one or more steps without passing `stop`. */
  ghost predicate ChangedBelow(code: Code, stop: nat, v: nat, loc: Location) {
    exists u: nat :: u < |code.blocks| && u != stop && Via(code.g, NodesBut(code, stop), u, v) && Touches(code.blocks[u], loc)
  }

  /** Where the search stands: `met` are the nodes it has come across, the dominator included if it has. */
  ghost predicate LocationSearch(code: Code, par: Graph, stop: nat, v: nat, met: set<nat>, pending: set<nat>, locs: set<Location>)
    requires |par| == |code.g| && v < |code.g|
  {
    ViaState(code.g, par, NodesBut(code, stop), v, met, pending) && AllTouched(code, met, stop, locs)
  }

  /** A node already seen, or the dominator, adds nothing. */
  lemma PassBy(code: Code, par: Graph, stop: nat, v: nat, met: set<nat>, pending: set<nat>, locs: set<Location>, n: nat)
    returns (met': set<nat>)
    requires WfCode(code) && Reversed(code.g, par) && Wf(par) && v < |code.g|
    requires LocationSearch(code, par, stop, v, met, pending + {n}, locs) && n in met + {stop}
    ensures LocationSearch(code, par, stop, v, met', pending, locs) && met' + {stop} == met + {stop}
  {
    var pass := NodesBut(code, stop);
    if n in met {
      ViaSkip(code.g, par, pass, v, met, pending, n);
      met' := met;
    } else {
      ViaVisit(code.g, par, pass, v, met, pending, n);
      TouchMore(code, met, stop, locs, n, {});
      met' := met + {n};
      assert pending + Onward(par, pass, n) == pending;
      assert locs + {} == locs;
    }
  }

  lemma Meet(code: Code, par: Graph, stop: nat, v: nat, met: set<nat>, pending: set<nat>, locs: set<Location>,
             n: nat, more: set<Location>)
    requires WfCode(code) && Reversed(code.g, par) && Wf(par) && v < |code.g|
    requires LocationSearch(code, par, stop, v, met, pending + {n}, locs) && n != stop && n < |code.g|
    requires forall loc :: loc in more <==> Touches(code.blocks[n], loc)
    ensures LocationSearch(code, par, stop, v, met + {n}, pending + Elements(par[n]), locs + more)
  {
    ViaVisit(code.g, par, NodesBut(code, stop), v, met, pending, n);
    TouchMore(code, met, stop, locs, n, more);
  }

  lemma ClobberedDone(code: Code, par: Graph, stop: nat, v: nat, met: set<nat>, locs: set<Location>)
    requires WfCode(code) && Reversed(code.g, par) && v < |code.g|
    requires ViaState(code.g, par, NodesBut(code, stop), v, met, {}) && AllTouched(code, met, stop, locs)
    ensures forall loc :: loc in locs <==> ChangedBelow(code, stop, v, loc)
  {
    ViaDone(code.g, par, NodesBut(code, stop), v, met);
    forall loc
      ensures TouchedWithin(code, met, stop, loc) <==> ChangedBelow(code, stop, v, loc)
    {
    }
  }

  /** Takes one node off the stack. */
  method SearchLocations(code: Code, par: Graph, stop: nat, ghost v: nat, seen: set<nat>, ghost met: set<nat>,
                         stack: seq<nat>, locs: set<Location>)
    returns (seen': set<nat>, ghost met': set<nat>, stack': seq<nat>, locs': set<Location>)
    requires WfCode(code) && Reversed(code.g, par) && Wf(par) && v < |code.g| && stack != []
    requires LocationSearch(code, par, stop, v, met, Elements(stack), locs) && seen == met + {stop}
    ensures LocationSearch(code, par, stop, v, met', Elements(stack'), locs') && seen' == met' + {stop}
    ensures (seen' == seen && |stack'| < |stack|) || |NodesBelow(|code.g|) - seen'| < |NodesBelow(|code.g|) - seen|
  {
    var n: nat := stack[|stack| - 1];
    var rest := stack[..|stack| - 1];
    PopElements(stack);
    if n in seen {
      met' := PassBy(code, par, stop, v, met, Elements(rest), locs, n);
      return seen, met', rest, locs;
    }
    assert n in Elements(stack) && n < |code.g|;
    var more := BlockLocations(code.blocks[n]);
    Meet(code, par, stop, v, met, Elements(rest), locs, n, more);
    LeftToSee(seen, n, |code.g|);
    PushElements(rest, par[n]);
    seen', met', stack', locs' := seen + {n}, met + {n}, rest + par[n], locs + more;
  }

  method LocsClobberedUntilDominator(code: Code, par: Graph, stop: nat, v: nat) returns (clobbered: set<Location>)
    requires WfCode(code) && Reversed(code.g, par) && Wf(par) && v < |code.g|
    ensures forall loc :: loc in clobbered <==> ChangedBelow(code, stop, v, loc)
  {
    var seen: set<nat> := {stop};
    ghost var met: set<nat> := {};
    var stack: seq<nat> := par[v];
    clobbered := {};
    ViaStart(code.g, par, NodesBut(code, stop), v);
    while stack != []
      invariant LocationSearch(code, par, stop, v, met, Elements(stack), clobbered)
      invariant seen == met + {stop}
      decreases |NodesBelow(|code.g|) - seen|, |stack|
    {
      seen, met, stack, clobbered := SearchLocations(code, par, stop, v, seen, met, stack, clobbered);
    }
    NoElements();
    ClobberedDone(code, par, stop, v, met, clobbered);
  }

  lemma ViaMonotone(g: Graph, small: set<nat>, large: set<nat>, u: nat, v: nat)
    requires Via(g, small, u, v) && small <= large
    ensures Via(g, large, u, v)
  {
    var q :| ViaPath(g, small, q, u, v);
    assert ViaPath(g, large, q, u, v);
  }

  /** A node the phi search meets, other than the dominator, does not touch an unchanged location. */
  lemma UnchangedMeets(code: Code, d: nat, loc: Location, v: nat, u: nat)
    requires WfCode(code) && !ChangedBelow(code, d, v, loc)
    requires u < |code.blocks| && u != d && Meets(code, d, loc, u, v)
    ensures NodeTouch(code, u, loc) == Untouched
  {
    assert SilentNodes(code, loc, d) <= NodesBut(code, d);
    ViaMonotone(code.g, SilentNodes(code, loc, d), NodesBut(code, d), u, v);
    TouchesLast(code.blocks[u], |code.blocks[u]|, loc);
  }

  /** A location nothing touches between the dominator and `v` keeps the dominator's sources. */
  lemma UnchangedExact(code: Code, d: nat, loc: Location, v: nat, s: RefSet)
    requires WfCode(code) && v < |code.g| && AllReachable(code.g, 0)
    requires Strict(code.g, 0, d, v) && ExactAfter(code, d, loc, s) && !ChangedBelow(code, d, v, loc)
    ensures ExactSources(code, v, 0, loc, s)
  {
    forall u: nat | u < |code.blocks| && u != d && Meets(code, d, loc, u, v)
      ensures NodeTouch(code, u, loc) == Untouched
    {
      UnchangedMeets(code, d, loc, v, u);
    }
    assert Reaches(code.g, 0, v);
    var p :| PathFromTo(code.g, p, 0, v);
    assert p == p[..|p| - 1] + [p[|p| - 1]] && d in p;
    var j := LastStop(code, d, loc, p, v);
    assert Meets(code, d, loc, p[j], v);
    assert p[j] == d;
    assert PhiResult(code, d, loc, v, s, s);
    PhiExact(code, d, loc, v, s, s);
  }

  ghost predicate ExactAfterAll(code: Code, d: nat, m: Sources) {
    forall loc :: ExactAfter(code, d, loc, Get(m, loc))
  }

  /** A phi with no sources is no phi: the location cannot be used. */
  function SetPhi(m: Sources, loc: Location, phi: RefSet): (r: Sources)
    ensures forall l :: Get(r, l) == if l == loc then phi else Get(m, l)
  {
    if phi != [] then m[loc := phi]
    else if Get(m, loc) != [] then Remove(m, loc)
    else m
  }

  lemma UnchangedAll(code: Code, d: nat, v: nat, clobbered: set<Location>, srcs: Sources)
    requires WfCode(code) && AllReachable(code.g, 0) && v < |code.g|
    requires Strict(code.g, 0, d, v) && ExactAfterAll(code, d, srcs)
    requires forall loc :: loc in clobbered <==> ChangedBelow(code, d, v, loc)
    ensures forall loc :: loc !in clobbered ==> ExactSources(code, v, 0, loc, Get(srcs, loc))
  {
    forall loc | loc !in clobbered
      ensures ExactSources(code, v, 0, loc, Get(srcs, loc))
    {
      UnchangedExact(code, d, loc, v, Get(srcs, loc));
    }
  }

  /** `done` locations have their exact sources at `v`, the rest still have the dominator's. */
  ghost predicate Adjusted(code: Code, v: nat, srcs: Sources, child: Sources, done: set<Location>)
    requires Inside(code, v, 0)
  {
    forall loc :: if loc in done then ExactSources(code, v, 0, loc, Get(child, loc)) else Get(child, loc) == Get(srcs, loc)
  }

  method AdjustOne(code: Code, par: Graph, d: nat, v: nat, srcs: Sources, child: Sources, ghost done: set<Location>, loc: Location)
    returns (child': Sources)
    requires WfCode(code) && Reversed(code.g, par) && Wf(par) && AllReachable(code.g, 0)
    requires v < |code.g| && Strict(code.g, 0, d, v) && ExactAfterAll(code, d, srcs)
    requires Adjusted(code, v, srcs, child, done)
    ensures Adjusted(code, v, srcs, child', done + {loc})
  {
    var phi := PhiLocSources(code, par, d, loc, v, Get(srcs, loc));
    PhiExact(code, d, loc, v, Get(srcs, loc), phi);
    child' := SetPhi(child, loc, phi);
  }

  /** The sources a dominated child starts with: the dominator's, adjusted where something changed in between. */
  method ChildSources(code: Code, par: Graph, d: nat, v: nat, srcs: Sources) returns (child: Sources)
    requires WfCode(code) && Reversed(code.g, par) && Wf(par) && AllReachable(code.g, 0)
    requires v < |code.g| && Strict(code.g, 0, d, v) && ExactAfterAll(code, d, srcs)
    ensures ExactAt(code, v, 0, child)
  {
    child := srcs;
    var clobbered := LocsClobberedUntilDominator(code, par, d, v);
    var todo := clobbered;
    ghost var done: set<Location> := {};
    while todo != {}
      invariant todo + done == clobbered
      invariant Adjusted(code, v, srcs, child, done)
      decreases todo
    {
      var loc :| loc in todo;
      todo := todo - {loc};
      child := AdjustOne(code, par, d, v, srcs, child, done, loc);
      done := done + {loc};
    }
    UnchangedAll(code, d, v, clobbered, srcs);
  }

  // ----- the recorded inputs and uses -----

  type RefMap = map<Reference, Sources>

  function Lookup(m: RefMap, r: Reference, loc: Location): RefSet {
    if r in m then Get(m[r], loc) else []
  }

  function AddTo(m: RefMap, r: Reference, loc: Location, x: Reference): (m': RefMap)
    ensures forall r', l', x' {:trigger x' in Lookup(m', r', l')} :: x' in Lookup(m', r', l') <==> x' in Lookup(m, r', l') || (r' == r && l' == loc && x' == x)
  {
    m[r := AddSource(if r in m then m[r] else map[], loc, x)]
  }

  datatype Uses = Uses(inputs: RefMap, uses: RefMap, missing: set<Location>)

  /** `instr_uses` is `instr_inputs` read the other way. */
  ghost predicate Mirrored(s: Uses) {
    forall r, loc, x :: x in Lookup(s.inputs, r, loc) <==> r in Lookup(s.uses, x, loc)
  }

  /** The specification of one recorded input: `x` is a last writer of `loc` where `r` reads it. */
  ghost predicate SourceOf(code: Code, r: Reference, loc: Location, x: Reference)
    requires |code.blocks| == |code.g| > 0
  {
    match r
    case PrologueRef(_) => false
    case InstrRef(v, i) =>
      && v < |code.g| && i < |code.blocks[v]| && loc in code.blocks[v][i].inputs
      && !SometimesUnset(code, v, i, loc) && Supplies(code, v, i, loc, x)
    case EpilogueRef(reg) =>
      var t := |code.g| - 1;
      loc == reg && reg in code.returnRegs && !SometimesUnset(code, t, 0, reg) && Supplies(code, t, 0, reg, x)
  }

  /** A register read where some path leaves it unset, other than a possible argument of a call. */
  ghost predicate MissingAt(code: Code, v: nat, i: nat, loc: Location)
    requires |code.blocks| == |code.g|
  {
    && v < |code.g| && i < |code.blocks[v]| && loc in code.blocks[v][i].inputs && loc.Register?
    && (!code.blocks[v][i].isCall || loc !in code.argumentRegs)
    && SometimesUnset(code, v, i, loc)
  }

  function Home(code: Code, r: Reference): nat
    requires |code.g| > 0
  {
    if r.InstrRef? then r.node else |code.g| - 1
  }

  /** `b` has everything `a` has, and exactly what the specification says for the references in `nodes`. */
  ghost predicate Grown(code: Code, a: Uses, b: Uses, nodes: set<nat>)
    requires |code.blocks| == |code.g| > 0
  {
    && (forall r, loc, x {:trigger x in Lookup(b.inputs, r, loc)} :: x in Lookup(b.inputs, r, loc) <==>
         x in Lookup(a.inputs, r, loc) || (Home(code, r) in nodes && SourceOf(code, r, loc, x)))
    && (forall reg :: reg in b.missing <==> reg in a.missing || MissingIn(code, nodes, reg))
  }

  ghost predicate MissingIn(code: Code, nodes: set<nat>, reg: Location)
    requires |code.blocks| == |code.g|
  {
    exists v: nat, i: nat :: v in nodes && MissingAt(code, v, i, reg)
  }

  lemma GrownTwice(code: Code, a: Uses, b: Uses, c: Uses, s: set<nat>, t: set<nat>)
    requires |code.blocks| == |code.g| > 0
    requires Grown(code, a, b, s) && Grown(code, b, c, t)
    ensures Grown(code, a, c, s + t)
  {
    forall reg
      ensures MissingIn(code, s + t, reg) <==> MissingIn(code, s, reg) || MissingIn(code, t, reg)
    {
      if MissingIn(code, s, reg) {
        var v: nat, i: nat :| v in s && MissingAt(code, v, i, reg);
        assert v in s + t;
      }
      if MissingIn(code, t, reg) {
        var v: nat, i: nat :| v in t && MissingAt(code, v, i, reg);
        assert v in s + t;
      }
    }
  }

  /** Growth by the first `i` instructions of node `v`. */
  ghost predicate GrownInBlock(code: Code, a: Uses, b: Uses, v: nat, i: nat)
    requires |code.blocks| == |code.g| > 0
  {
    && (forall r, loc, x {:trigger x in Lookup(b.inputs, r, loc)} :: x in Lookup(b.inputs, r, loc) <==>
         x in Lookup(a.inputs, r, loc) || (r.InstrRef? && r.node == v && r.index < i && SourceOf(code, r, loc, x)))
    && (forall reg :: reg in b.missing <==> reg in a.missing || exists k: nat :: k < i && MissingAt(code, v, k, reg))
  }

  /** Growth by instruction `i` of `v` alone. */
  ghost predicate GrownByInstruction(code: Code, a: Uses, b: Uses, v: nat, i: nat)
    requires |code.blocks| == |code.g| > 0
  {
    && (forall r, loc, x {:trigger x in Lookup(b.inputs, r, loc)} :: x in Lookup(b.inputs, r, loc) <==>
         x in Lookup(a.inputs, r, loc) || (r == InstrRef(v, i) && SourceOf(code, r, loc, x)))
    && (forall reg :: reg in b.missing <==> reg in a.missing || MissingAt(code, v, i, reg))
  }

  lemma BlockOneMore(code: Code, a: Uses, b: Uses, c: Uses, v: nat, i: nat)
    requires |code.blocks| == |code.g| > 0
    requires GrownInBlock(code, a, b, v, i) && GrownByInstruction(code, b, c, v, i)
    ensures GrownInBlock(code, a, c, v, i + 1)
  {
  }

  /** A node's references are its instructions', and the epilogue's for the terminal. */
  lemma BlockIsNode(code: Code, a: Uses, b: Uses, v: nat)
    requires WfCode(code) && v < |code.g| - 1
    requires GrownInBlock(code, a, b, v, |code.blocks[v]|)
    ensures Grown(code, a, b, {v})
  {
    forall reg
      ensures MissingIn(code, {v}, reg) <==> exists k: nat :: k < |code.blocks[v]| && MissingAt(code, v, k, reg)
    {
      if exists k: nat :: k < |code.blocks[v]| && MissingAt(code, v, k, reg) {
        var k: nat :| k < |code.blocks[v]| && MissingAt(code, v, k, reg);
        assert v in {v};
      }
    }
  }

  ghost predicate GrownByReturns(code: Code, a: Uses, b: Uses, regs: seq<Location>)
    requires |code.blocks| == |code.g| > 0
  {
    && b.missing == a.missing
    && (forall r, loc, x {:trigger x in Lookup(b.inputs, r, loc)} :: x in Lookup(b.inputs, r, loc) <==>
         x in Lookup(a.inputs, r, loc) || (r.EpilogueRef? && r.location in regs && SourceOf(code, r, loc, x)))
  }

  lemma ReturnsAreTerminal(code: Code, a: Uses, b: Uses)
    requires WfCode(code)
    requires GrownByReturns(code, a, b, code.returnRegs)
    ensures Grown(code, a, b, {|code.g| - 1})
  {
  }

  /** Where a node can be reached, only an unset location has no sources. */
  lemma NoSourcesMeansUnset(code: Code, v: nat, i: nat, loc: Location, s: RefSet)
    requires Inside(code, v, i) && Reaches(code.g, 0, v) && WfCode(code)
    requires ExactSources(code, v, i, loc, s)
    ensures s == [] <==> SometimesUnset(code, v, i, loc)
  {
    if !SometimesUnset(code, v, i, loc) {
      var p := OnceReaches(code.g, v);
      var o := OriginAt(code, p, i, loc);
      assert Arrives(code, p, v, i, loc, o);
      assert Supplies(code, v, i, loc, o.ref);
    }
  }

  ghost function Below(code: Code, v: nat): (s: set<nat>)
    ensures forall w: nat :: w in s <==> w < |code.g| && Dominates(code.g, 0, v, w)
  {
    set w | w in NodesBelow(|code.g|) && Dominates(code.g, 0, v, w)
  }

  /** Each node once, each after its immediate dominator, starting at `v`. */
  ghost predicate TreeOrder(imdom: seq<Option<nat>>, visited: seq<nat>, v: nat) {
    && visited != [] && visited[0] == v
    && (forall i, j :: 0 <= i < j < |visited| ==> visited[i] != visited[j])
    && (forall j :: 0 < j < |visited| ==> visited[j] < |imdom| && imdom[visited[j]].Some? && imdom[visited[j]].value in visited[..j])
  }

  class UseGraph {
    const code: Code
    const par: Graph
    const dominators: seq<set<nat>>
    const imdom: seq<Option<nat>>
    const imdominates: seq<seq<nat>>
    var instrInputs: RefMap
    var instrUses: RefMap
    var missingRegs: set<Location>

    /** The relations are those of the graph, and every node can be reached. */
    ghost predicate Valid() {
      && WfCode(code) && Reversed(code.g, par) && Wf(par) && AllReachable(code.g, 0)
      && DominatorSets(code.g, 0, dominators) && ImmediateTree(code.g, 0, imdom, imdominates)
    }

    ghost function Recorded(): Uses
      reads this
    {
      Uses(instrInputs, instrUses, missingRegs)
    }

    constructor (code: Code, par: Graph, dominators: seq<set<nat>>, imdom: seq<Option<nat>>, imdominates: seq<seq<nat>>)
      ensures this.code == code && this.par == par && this.dominators == dominators
      ensures this.imdom == imdom && this.imdominates == imdominates
      ensures Recorded() == Uses(map[], map[], {})
    {
      this.code, this.par, this.dominators, this.imdom, this.imdominates := code, par, dominators, imdom, imdominates;
      instrInputs, instrUses, missingRegs := map[], map[], {};
    }

    /** Records that `use` reads `loc` from each of `sources`. */
    method AddUseSources(use: Reference, loc: Location, sources: RefSet)
      requires Mirrored(Recorded())
      modifies `instrInputs, `instrUses
      ensures Mirrored(Recorded())
      ensures Fed(old(instrInputs), instrInputs, use, loc, sources)
    {
      ghost var before := instrInputs;
      for k := 0 to |sources|
        invariant Mirrored(Recorded())
        invariant Fed(before, instrInputs, use, loc, sources[..k])
      {
        FedOneMore(before, instrInputs, use, loc, sources, k);
        instrInputs := AddTo(instrInputs, use, loc, sources[k]);
        instrUses := AddTo(instrUses, sources[k], loc, use);
      }
      assert sources[..|sources|] == sources;
    }

    /** The reads of one instruction. */
    method ReadInputs(v: nat, i: nat, srcs: Sources)
      requires Valid() && Mirrored(Recorded())
      requires v < |code.g| && i < |code.blocks[v]| && ExactAt(code, v, i, srcs)
      modifies `instrInputs, `instrUses, `missingRegs
      ensures Mirrored(Recorded())
      ensures GrownByInstruction(code, old(Recorded()), Recorded(), v, i)
    {
      var ins := code.blocks[v][i];
      ghost var before := Recorded();
      for k := 0 to |ins.inputs|
        invariant Mirrored(Recorded())
        invariant GrownByReads(code, before, Recorded(), v, i, ins.inputs[..k])
      {
        var inp := ins.inputs[k];
        ghost var middle := Recorded();
        var sources := Get(srcs, inp);
        AddUseSources(InstrRef(v, i), inp, sources);
        if inp.Register? && sources == [] && (!ins.isCall || inp !in code.argumentRegs) {
          missingRegs := missingRegs + {inp};
        }
        ReadExact(code, v, i, inp, sources, middle, Recorded());
        ReadOneMore(code, before, middle, Recorded(), v, i, ins.inputs, k);
      }
      assert ins.inputs[..|ins.inputs|] == ins.inputs;
      ReadsAreInstruction(code, before, Recorded(), v, i);
    }

    /** All instructions of one node, in order. */
    method ProcessBlock(v: nat, srcs: Sources) returns (after: Sources)
      requires Valid() && Mirrored(Recorded())
      requires v < |code.g| && ExactAt(code, v, 0, srcs)
      modifies `instrInputs, `instrUses, `missingRegs
      ensures Mirrored(Recorded())
      ensures ExactAt(code, v, |code.blocks[v]|, after)
      ensures GrownInBlock(code, old(Recorded()), Recorded(), v, |code.blocks[v]|)
    {
      after := srcs;
      ghost var before := Recorded();
      for i := 0 to |code.blocks[v]|
        invariant Mirrored(Recorded())
        invariant ExactAt(code, v, i, after)
        invariant GrownInBlock(code, before, Recorded(), v, i)
      {
        ghost var middle := Recorded();
        ReadInputs(v, i, after);
        BlockOneMore(code, before, middle, Recorded(), v, i);
        var next := StepInstruction(code.blocks[v][i], InstrRef(v, i), after);
        StepExactAll(code, v, i, i + 1, after, next);
        after := next;
      }
    }

    /** The terminal reads the registers a function may return. */
    method ReadReturns(srcs: Sources)
      requires Valid() && Mirrored(Recorded()) && ExactAt(code, |code.g| - 1, 0, srcs)
      modifies `instrInputs, `instrUses
      ensures Mirrored(Recorded())
      ensures GrownByReturns(code, old(Recorded()), Recorded(), code.returnRegs)
    {
      ghost var before := Recorded();
      for k := 0 to |code.returnRegs|
        invariant Mirrored(Recorded())
        invariant GrownByReturns(code, before, Recorded(), code.returnRegs[..k])
      {
        var reg := code.returnRegs[k];
        ghost var middle := Recorded();
        AddUseSources(EpilogueRef(reg), reg, Get(srcs, reg));
        ReturnOneMore(code, before, middle, Recorded(), k, Get(srcs, reg));
      }
      assert code.returnRegs[..|code.returnRegs|] == code.returnRegs;
    }

    /** One node by itself. */
    method ProcessOwn(v: nat, srcs: Sources) returns (after: Sources)
      requires Valid() && Mirrored(Recorded()) && v < |code.g| && ExactAt(code, v, 0, srcs)
      modifies `instrInputs, `instrUses, `missingRegs
      ensures Mirrored(Recorded())
      ensures ExactAt(code, v, |code.blocks[v]|, after)
      ensures Grown(code, old(Recorded()), Recorded(), {v})
    {
      ghost var before := Recorded();
      after := ProcessBlock(v, srcs);
      if v == |code.g| - 1 {
        ghost var middle := Recorded();
        TerminalBlockEmpty(code, before, middle);
        ReadReturns(after);
        ReturnsAreTerminal(code, before, Recorded());
      } else {
        BlockIsNode(code, before, Recorded(), v);
      }
    }

    /** One node, then everything it dominates, by recursion over the dominator tree. */
    method ProcessNode(v: nat, srcs: Sources) returns (ghost visited: seq<nat>)
      requires Valid() && Mirrored(Recorded()) && v < |code.g| && ExactAt(code, v, 0, srcs)
      modifies `instrInputs, `instrUses, `missingRegs
      ensures Mirrored(Recorded())
      ensures Grown(code, old(Recorded()), Recorded(), Below(code, v))
      ensures VisitsExactly(code, imdom, visited, v, Below(code, v))
      decreases Below(code, v), 1
    {
      ghost var before := Recorded();
      var after := ProcessOwn(v, srcs);
      var children := imdominates[v];
      visited := [v];
      assert {v} + BelowAll(code, children[..0]) == {v};
      for k := 0 to |children|
        invariant Mirrored(Recorded())
        invariant Grown(code, before, Recorded(), {v} + BelowAll(code, children[..k]))
        invariant VisitsExactly(code, imdom, visited, v, {v} + BelowAll(code, children[..k]))
      {
        ghost var middle := Recorded();
        ChildFacts(code, dominators, imdom, imdominates, v, k);
        ghost var sub := ProcessChild(v, children[k], after);
        GrownTwice(code, before, middle, Recorded(), {v} + BelowAll(code, children[..k]), Below(code, children[k]));
        VisitOneMore(code, dominators, imdom, imdominates, v, k, visited, sub);
        BelowOneMore(code, children, k, {v});
        visited := visited + sub;
      }
      assert children[..|children|] == children;
      BelowIsChildren(code, dominators, imdom, imdominates, v);
    }

    method ProcessChild(v: nat, c: nat, after: Sources) returns (ghost visited: seq<nat>)
      requires Valid() && Mirrored(Recorded()) && v < |code.g| && c < |code.g|
      requires ExactAt(code, v, |code.blocks[v]|, after)
      requires Strict(code.g, 0, v, c) && Below(code, c) < Below(code, v)
      modifies `instrInputs, `instrUses, `missingRegs
      ensures Mirrored(Recorded())
      ensures Grown(code, old(Recorded()), Recorded(), Below(code, c))
      ensures VisitsExactly(code, imdom, visited, c, Below(code, c))
      decreases Below(code, v), 0
    {
      var child := ChildSources(code, par, v, c, after);
      visited := ProcessNode(c, child);
    }

    /** The whole analysis, from the registers that are set when the function starts. */
    method ComputeInputsUses() returns (ghost visited: seq<nat>)
      requires Valid() && Recorded() == Uses(map[], map[], {})
      modifies `instrInputs, `instrUses, `missingRegs
      ensures Mirrored(Recorded())
      ensures forall r, loc, x :: x in Lookup(instrInputs, r, loc) <==> SourceOf(code, r, loc, x)
      ensures forall reg :: reg in missingRegs <==> exists v: nat, i: nat :: MissingAt(code, v, i, reg)
      ensures forall r, loc :: Reads(code, r, loc) ==> ExactIffHarmless(code, r, loc, Lookup(instrInputs, r, loc))
      ensures TreeOrder(imdom, visited, 0) && forall w: nat :: w in visited <==> w < |code.g|
    {
      var srcs: Sources := map[];
      for k := 0 to |code.allRegs|
        invariant forall loc :: Get(srcs, loc) == if loc in code.allRegs[..k] then [PrologueRef(loc)] else []
      {
        assert code.allRegs[..k + 1] == code.allRegs[..k] + [code.allRegs[k]];
        srcs := srcs[code.allRegs[k] := [PrologueRef(code.allRegs[k])]];
      }
      assert code.allRegs[..|code.allRegs|] == code.allRegs;
      EntryExact(code, srcs);
      ghost var before := Recorded();
      assert forall r, loc, x :: x !in Lookup(before.inputs, r, loc);
      visited := ProcessNode(0, srcs);
      EntryIsAbove(code);
      WholeGraphGrown(code, before, Recorded(), Below(code, 0));
      RecordedExact(code, instrInputs);
    }
  }

  function EntrySources(code: Code, loc: Location): RefSet {
    if loc in code.allRegs then [PrologueRef(loc)] else []
  }

  /** A path that never comes back to the entry reaches the entry only by standing still. */
  lemma OnlyTrivialPath(g: Graph, p: seq<nat>)
    requires OncePath(g, p, 0)
    ensures p == [0]
  {
    assert p == [0] + p[1..];
  }

  lemma EntryExactAt(code: Code, loc: Location)
    requires WfCode(code)
    ensures ExactSources(code, 0, 0, loc, EntrySources(code, loc))
  {
    forall p | OncePath(code.g, p, 0)
      ensures p == [0]
    {
      OnlyTrivialPath(code.g, p);
    }
    assert OncePath(code.g, [0], 0);
    assert [0][..0] == [];
    assert Arrives(code, [0], 0, 0, loc, OriginAfter(code, [], loc));
  }

  lemma EntryExact(code: Code, srcs: Sources)
    requires WfCode(code)
    requires forall loc :: Get(srcs, loc) == EntrySources(code, loc)
    ensures ExactAt(code, 0, 0, srcs)
  {
    forall loc
      ensures ExactSources(code, 0, 0, loc, Get(srcs, loc))
    {
      EntryExactAt(code, loc);
    }
  }

  lemma EntryIsAbove(code: Code)
    requires WfCode(code)
    ensures forall w: nat :: w in Below(code, 0) <==> w < |code.g|
  {
    forall w: nat
      ensures Dominates(code.g, 0, 0, w)
    {
      EntryDominates(code.g, 0, w);
    }
  }

  lemma WholeGraphGrown(code: Code, a: Uses, b: Uses, nodes: set<nat>)
    requires WfCode(code) && Grown(code, a, b, nodes)
    requires forall w: nat :: w in nodes <==> w < |code.g|
    requires a == Uses(map[], map[], {})
    ensures forall r, loc, x :: x in Lookup(b.inputs, r, loc) <==> SourceOf(code, r, loc, x)
    ensures forall reg :: reg in b.missing <==> exists v: nat, i: nat :: MissingAt(code, v, i, reg)
  {
    forall reg
      ensures MissingIn(code, nodes, reg) <==> exists v: nat, i: nat :: MissingAt(code, v, i, reg)
    {
      if v: nat, i: nat :| MissingAt(code, v, i, reg) {
        assert v in nodes;
      }
    }
  }

  // ----- paths that come back to the entry -----

  /** The definition over all paths, whether or not they come back to the entry. */
  ghost predicate ArrivesAnyhow(code: Code, p: seq<nat>, v: nat, i: nat, loc: Location, o: Origin)
    requires Inside(code, v, i)
  {
    PathFromTo(code.g, p, 0, v) && OriginAt(code, p, i, loc) == o
  }

  ghost predicate UnsetAnyhow(code: Code, v: nat, i: nat, loc: Location)
    requires Inside(code, v, i)
  {
    exists p :: ArrivesAnyhow(code, p, v, i, loc, Unset)
  }

  ghost predicate SuppliesAnyhow(code: Code, v: nat, i: nat, loc: Location, r: Reference)
    requires Inside(code, v, i)
  {
    exists p :: ArrivesAnyhow(code, p, v, i, loc, From(r))
  }

  ghost predicate ExactOverAllPaths(code: Code, v: nat, i: nat, loc: Location, s: RefSet)
    requires Inside(code, v, i)
  {
    if UnsetAnyhow(code, v, i, loc) then s == []
    else forall r :: r in s <==> SuppliesAnyhow(code, v, i, loc, r)
  }

  /** No node that leads back to the entry touches a register. */
  ghost predicate EntryQuiet(code: Code) {
    forall u: nat, loc :: u < |code.blocks| && loc in code.allRegs && Via(code.g, NodesBelow(|code.g|), u, 0) ==>
      NodeTouch(code, u, loc) == Untouched
  }

  lemma LeadsBack(code: Code, p: seq<nat>, j: nat, k: nat)
    requires WfCode(code) && IsPath(code.g, p) && k < j < |p| && p[j] == 0
    ensures Via(code.g, NodesBelow(|code.g|), p[k], 0)
  {
    PathPrefix(code.g, p, j);
    PathSuffix(code.g, p[..j + 1], k);
    var q := p[..j + 1][k..];
    assert ViaPath(code.g, NodesBelow(|code.g|), q, p[k], 0);
  }

  /** What happened before the last visit of a quiet entry does not matter to a register. */
  lemma {:induction false} CutAtEntry(code: Code, p: seq<nat>, j: nat, n: nat, loc: Location)
    requires WfCode(code) && EntryQuiet(code) && loc in code.allRegs
    requires IsPath(code.g, p) && j < |p| && p[0] == 0 && p[j] == 0 && n <= |p| && 0 !in p[j + 1..]
    ensures OriginAfter(code, p[..n], loc) == if n <= j then From(PrologueRef(loc)) else OriginAfter(code, p[j..n], loc)
    decreases n
  {
    if n > 0 {
      assert p[..n][..n - 1] == p[..n - 1];
      CutAtEntry(code, p, j, n - 1, loc);
      if n <= j {
        LeadsBack(code, p, j, n - 1);
      } else {
        assert p[j..n][..n - 1 - j] == p[j..n - 1];
        assert n - 1 == j ==> p[j..n - 1] == [];
      }
    }
  }

  /** A path cut at its last visit of a quiet entry keeps its origin, or is left without one. */
  lemma CutPath(code: Code, p: seq<nat>, v: nat, i: nat, loc: Location) returns (q: seq<nat>)
    requires WfCode(code) && EntryQuiet(code) && Inside(code, v, i) && PathFromTo(code.g, p, 0, v)
    ensures OncePath(code.g, q, v)
    ensures OriginAt(code, q, i, loc) == OriginAt(code, p, i, loc) || OriginAt(code, q, i, loc) == Unset
  {
    assert p[0] == 0;
    var j := LastOccurrence(p, 0);
    PathSuffix(code.g, p, j);
    q := p[j..];
    assert q[1..] == p[j + 1..];
    CutOrigin(code, p, j, |p| - 1, loc);
    assert q[..|q| - 1] == p[j..|p| - 1];
  }

  lemma CutOrigin(code: Code, p: seq<nat>, j: nat, n: nat, loc: Location)
    requires WfCode(code) && EntryQuiet(code)
    requires IsPath(code.g, p) && j <= n == |p| - 1 && p[0] == 0 && p[j] == 0 && 0 !in p[j + 1..]
    ensures OriginAfter(code, p[j..n], loc) == OriginAfter(code, p[..n], loc) || OriginAfter(code, p[j..n], loc) == Unset
  {
    if loc in code.allRegs {
      CutAtEntry(code, p, j, n, loc);
      assert n <= j ==> p[j..n] == [];
    } else {
      CutUnset(code, p, j, n, loc);
    }
  }

  /** With a quiet entry the analysis agrees with the definition over all paths. */
  lemma QuietEntryIsExact(code: Code, v: nat, i: nat, loc: Location, s: RefSet)
    requires WfCode(code) && EntryQuiet(code) && Inside(code, v, i)
    ensures ExactSources(code, v, i, loc, s) <==> ExactOverAllPaths(code, v, i, loc, s)
  {
    QuietUnset(code, v, i, loc);
    if !SometimesUnset(code, v, i, loc) {
      forall r
        ensures Supplies(code, v, i, loc, r) <==> SuppliesAnyhow(code, v, i, loc, r)
      {
        QuietSupplies(code, v, i, loc, r);
      }
    }
  }

  lemma QuietUnset(code: Code, v: nat, i: nat, loc: Location)
    requires WfCode(code) && EntryQuiet(code) && Inside(code, v, i)
    ensures SometimesUnset(code, v, i, loc) <==> UnsetAnyhow(code, v, i, loc)
  {
    if SometimesUnset(code, v, i, loc) {
      var p :| Arrives(code, p, v, i, loc, Unset);
      assert ArrivesAnyhow(code, p, v, i, loc, Unset);
    }
    if UnsetAnyhow(code, v, i, loc) {
      var p :| ArrivesAnyhow(code, p, v, i, loc, Unset);
      var q := CutPath(code, p, v, i, loc);
      assert Arrives(code, q, v, i, loc, Unset);
    }
  }

  lemma QuietSupplies(code: Code, v: nat, i: nat, loc: Location, r: Reference)
    requires WfCode(code) && EntryQuiet(code) && Inside(code, v, i) && !SometimesUnset(code, v, i, loc)
    ensures Supplies(code, v, i, loc, r) <==> SuppliesAnyhow(code, v, i, loc, r)
  {
    if Supplies(code, v, i, loc, r) {
      var p :| Arrives(code, p, v, i, loc, From(r));
      assert ArrivesAnyhow(code, p, v, i, loc, From(r));
    }
    if SuppliesAnyhow(code, v, i, loc, r) {
      var p :| ArrivesAnyhow(code, p, v, i, loc, From(r));
      var q := CutPath(code, p, v, i, loc);
      assert Arrives(code, q, v, i, loc, OriginAt(code, q, i, loc));
    }
  }

  /** For anything but a register, cutting the path short can only lose the value. */
  lemma {:induction false} CutUnset(code: Code, p: seq<nat>, j: nat, n: nat, loc: Location)
    requires WfCode(code) && loc !in code.allRegs && IsPath(code.g, p) && j <= n <= |p|
    ensures OriginAfter(code, p[j..n], loc) == OriginAfter(code, p[..n], loc) || OriginAfter(code, p[j..n], loc) == Unset
    decreases n
  {
    if j < n {
      assert p[j..n][..n - 1 - j] == p[j..n - 1];
      assert p[..n][..n - 1] == p[..n - 1];
      CutUnset(code, p, j, n - 1, loc);
    }
  }

  lemma {:induction false} TouchedIsNotPrologue(code: Code, p: seq<nat>, k: nat, loc: Location)
    requires k < |p| && (forall x :: 0 <= x < |p| ==> p[x] < |code.blocks|) && NodeTouch(code, p[k], loc) != Untouched
    ensures OriginAfter(code, p, loc) != From(PrologueRef(loc))
  {
    if k < |p| - 1 {
      TouchedIsNotPrologue(code, p[..|p| - 1], k, loc);
    }
  }

  /**
   * The analysis starts the entry from the caller's registers alone. That is exact over all paths
   * if and only if no node that leads back to the entry touches a register.
   */
  lemma EntryExactIffQuiet(code: Code)
    requires WfCode(code) && AllReachable(code.g, 0)
    ensures EntryQuiet(code) <==> forall loc :: ExactOverAllPaths(code, 0, 0, loc, EntrySources(code, loc))
  {
    if EntryQuiet(code) {
      forall loc
        ensures ExactOverAllPaths(code, 0, 0, loc, EntrySources(code, loc))
      {
        EntryExactAt(code, loc);
        QuietEntryIsExact(code, 0, 0, loc, EntrySources(code, loc));
      }
    } else {
      var u: nat, loc :| u < |code.blocks| && loc in code.allRegs && Via(code.g, NodesBelow(|code.g|), u, 0)
        && NodeTouch(code, u, loc) != Untouched;
      NoisyEntryWrong(code, u, loc);
      assert !ExactOverAllPaths(code, 0, 0, loc, EntrySources(code, loc));
    }
  }

  lemma NoisyEntryWrong(code: Code, u: nat, loc: Location)
    requires WfCode(code) && AllReachable(code.g, 0)
    requires u < |code.blocks| && Via(code.g, NodesBelow(|code.g|), u, 0) && NodeTouch(code, u, loc) != Untouched
    ensures !ExactOverAllPaths(code, 0, 0, loc, [PrologueRef(loc)])
  {
    assert Reaches(code.g, 0, u);
    var a :| PathFromTo(code.g, a, 0, u);
    var q :| ViaPath(code.g, NodesBelow(|code.g|), q, u, 0);
    PathJoin(code.g, a, q);
    var p := a + q[1..];
    var before := p[..|p| - 1];
    assert before[|a| - 1] == u;
    TouchedIsNotPrologue(code, before, |a| - 1, loc);
    var o := OriginAt(code, p, 0, loc);
    assert ArrivesAnyhow(code, p, 0, 0, loc, o);
    if o.From? {
      assert SuppliesAnyhow(code, 0, 0, loc, o.ref);
    }
  }

  // ----- when a use is exact over all paths -----

  /** A path that does not come back to the entry and leaves `loc` alone up to the point. */
  ghost predicate CleanPath(code: Code, p: seq<nat>, v: nat, i: nat, loc: Location)
    requires Inside(code, v, i)
  {
    && OncePath(code.g, p, v) && LastTouch(code.blocks[v], i, loc) == Untouched
    && forall k :: 0 <= k < |p| - 1 ==> NodeTouch(code, p[k], loc) == Untouched
  }

  ghost predicate EntryValueArrives(code: Code, v: nat, i: nat, loc: Location)
    requires Inside(code, v, i)
  {
    exists p :: CleanPath(code, p, v, i, loc)
  }

  /** A node that touches `loc` and leads back to the entry without a further touch. */
  ghost predicate ComesBack(code: Code, loc: Location, u: nat) {
    u < |code.blocks| && NodeTouch(code, u, loc) != Untouched && Meets(code, |code.blocks|, loc, u, 0)
  }

  /** All that comes back to the entry is a source of the point anyway. */
  ghost predicate ReturnsKnown(code: Code, v: nat, i: nat, loc: Location)
    requires Inside(code, v, i)
  {
    forall u: nat :: ComesBack(code, loc, u) ==>
      NodeTouch(code, u, loc).Writes? && Supplies(code, v, i, loc, InstrRef(u, NodeTouch(code, u, loc).index))
  }

  function Left(code: Code, u: nat, loc: Location): Origin
    requires u < |code.blocks|
  {
    match NodeTouch(code, u, loc)
    case Writes(k) => From(InstrRef(u, k))
    case _ => Unset
  }

  /** The last node of `p` that touches the location decides. */
  lemma {:induction false} LastTouching(code: Code, p: seq<nat>, loc: Location) returns (t: nat)
    requires forall k :: 0 <= k < |p| ==> p[k] < |code.blocks|
    ensures t <= |p| && forall k :: t <= k < |p| ==> NodeTouch(code, p[k], loc) == Untouched
    ensures OriginAfter(code, p, loc) == if t == 0 then OriginAfter(code, [], loc) else Left(code, p[t - 1], loc)
    ensures t > 0 ==> NodeTouch(code, p[t - 1], loc) != Untouched
  {
    t := |p|;
    if p != [] && NodeTouch(code, p[|p| - 1], loc) == Untouched {
      t := LastTouching(code, p[..|p| - 1], loc);
    }
  }

  /** What comes before a part that touches the location does not matter. */
  lemma {:induction false} OriginOfTail(code: Code, a: seq<nat>, b: seq<nat>, k: nat, loc: Location)
    requires forall k :: 0 <= k < |a| ==> a[k] < |code.blocks|
    requires forall k :: 0 <= k < |b| ==> b[k] < |code.blocks|
    requires k < |b| && NodeTouch(code, b[k], loc) != Untouched
    ensures forall k :: 0 <= k < |a + b| ==> (a + b)[k] < |code.blocks|
    ensures OriginAfter(code, a + b, loc) == OriginAfter(code, b, loc)
    decreases |b|
  {
    var init := b[..|b| - 1];
    assert (a + b)[..|a + b| - 1] == a + init;
    if k < |init| {
      OriginOfTail(code, a, init, k, loc);
    }
  }

  lemma TailDecides(code: Code, a: seq<nat>, b: seq<nat>, loc: Location)
    requires forall k :: 0 <= k < |a + b| ==> (a + b)[k] < |code.blocks|
    ensures forall k :: 0 <= k < |a| ==> a[k] < |code.blocks|
    ensures forall k :: 0 <= k < |b| ==> b[k] < |code.blocks|
    ensures OriginAfter(code, a + b, loc) ==
      if forall k :: 0 <= k < |b| ==> NodeTouch(code, b[k], loc) == Untouched then OriginAfter(code, a, loc) else OriginAfter(code, b, loc)
  {
    assert forall k :: 0 <= k < |a| ==> a[k] == (a + b)[k];
    assert forall k :: 0 <= k < |b| ==> b[k] == (a + b)[|a| + k];
    if forall k :: 0 <= k < |b| ==> NodeTouch(code, b[k], loc) == Untouched {
      SilentTail(code, loc, a, b);
    } else {
      var k :| 0 <= k < |b| && NodeTouch(code, b[k], loc) != Untouched;
      OriginOfTail(code, a, b, k, loc);
    }
  }

  lemma CleanOrigin(code: Code, p: seq<nat>, v: nat, i: nat, loc: Location)
    requires Inside(code, v, i) && CleanPath(code, p, v, i, loc)
    ensures OriginAt(code, p, i, loc) == OriginAfter(code, [], loc)
  {
    var init := p[..|p| - 1];
    SilentTail(code, loc, [], init);
    assert [] + init == init;
  }

  /** After its last visit of the entry, a path is clean, or what happened before does not matter. */
  lemma AfterLastVisit(code: Code, p: seq<nat>, v: nat, i: nat, loc: Location) returns (j: nat)
    requires WfCode(code) && Inside(code, v, i) && PathFromTo(code.g, p, 0, v)
    ensures j < |p| && p[j] == 0 && OncePath(code.g, p[j..], v)
    ensures if CleanPath(code, p[j..], v, i, loc) then OriginAt(code, p, i, loc) == OriginAfter(code, p[..j], loc)
      else OriginAt(code, p, i, loc) == OriginAt(code, p[j..], i, loc)
  {
    j := LastOccurrence(p, 0);
    PathSuffix(code.g, p, j);
    var q := p[j..];
    assert q[1..] == p[j + 1..];
    assert p[..|p| - 1] == p[..j] + q[..|q| - 1];
    if LastTouch(code.blocks[v], i, loc) == Untouched {
      TailDecides(code, p[..j], q[..|q| - 1], loc);
      assert forall k :: 0 <= k < |q| - 1 ==> q[..|q| - 1][k] == q[k];
    }
  }

  /** What a path brings back to the entry. */
  lemma BroughtBack(code: Code, p: seq<nat>, j: nat, loc: Location) returns (t: nat)
    requires WfCode(code) && IsPath(code.g, p) && j < |p| && p[0] == p[j] == 0
    ensures t <= j
    ensures t == 0 ==> OriginAfter(code, p[..j], loc) == OriginAfter(code, [], loc)
    ensures t > 0 ==> ComesBack(code, loc, p[t - 1]) && OriginAfter(code, p[..j], loc) == Left(code, p[t - 1], loc)
  {
    t := LastTouching(code, p[..j], loc);
    if t > 0 {
      PathPrefix(code.g, p, j);
      PathSuffix(code.g, p[..j + 1], t - 1);
      var q := p[..j + 1][t - 1..];
      forall k | 0 < k < |q| - 1
        ensures q[k] in SilentNodes(code, loc, |code.blocks|)
      {
        assert q[k] == p[..j][t - 1 + k];
      }
      assert ViaPath(code.g, SilentNodes(code, loc, |code.blocks|), q, p[t - 1], 0);
    }
  }

  /** What comes back to the entry arrives wherever the entry's value does. */
  lemma ReturnArrives(code: Code, u: nat, v: nat, i: nat, loc: Location) returns (p: seq<nat>)
    requires WfCode(code) && AllReachable(code.g, 0) && Inside(code, v, i)
    requires ComesBack(code, loc, u) && EntryValueArrives(code, v, i, loc)
    ensures ArrivesAnyhow(code, p, v, i, loc, Left(code, u, loc))
  {
    var silent := SilentNodes(code, loc, |code.blocks|);
    assert Reaches(code.g, 0, u);
    var a :| PathFromTo(code.g, a, 0, u);
    var q :| ViaPath(code.g, silent, q, u, 0);
    var c :| CleanPath(code, c, v, i, loc);
    PathJoin(code.g, a, q);
    var b := a + q[1..];
    PathJoin(code.g, b, c);
    p := b + c[1..];
    var mid := q[1..|q| - 1] + c[..|c| - 1];
    JoinedAt(a, q, c);
    forall k | 0 <= k < |mid|
      ensures mid[k] < |code.blocks| && NodeTouch(code, mid[k], loc) == Untouched
    {
      if k < |q| - 2 {
        assert mid[k] == q[k + 1] && q[k + 1] in silent;
      }
    }
    SilentTail(code, loc, a, mid);
  }

  lemma JoinedAt(a: seq<nat>, q: seq<nat>, c: seq<nat>)
    requires |q| >= 2 && c != [] && c[0] == q[|q| - 1]
    ensures var p := a + q[1..] + c[1..]; p[..|p| - 1] == a + (q[1..|q| - 1] + c[..|c| - 1])
  {
    assert q[1..] == q[1..|q| - 1] + c[..1];
    assert c[..|c| - 1] + [c[|c| - 1]] == c == c[..1] + c[1..];
  }

  lemma KnownAnyhow(code: Code, p: seq<nat>, v: nat, i: nat, loc: Location)
    requires WfCode(code) && Inside(code, v, i) && PathFromTo(code.g, p, 0, v)
    requires !SometimesUnset(code, v, i, loc) && (!EntryValueArrives(code, v, i, loc) || ReturnsKnown(code, v, i, loc))
    ensures OriginAt(code, p, i, loc).From? && Supplies(code, v, i, loc, OriginAt(code, p, i, loc).ref)
  {
    var o := OriginAt(code, p, i, loc);
    var j := AfterLastVisit(code, p, v, i, loc);
    var q := p[j..];
    assert Arrives(code, q, v, i, loc, OriginAt(code, q, i, loc));
    if CleanPath(code, q, v, i, loc) {
      CleanOrigin(code, q, v, i, loc);
      var t := BroughtBack(code, p, j, loc);
    }
  }

  lemma UnknownReturn(code: Code, u: nat, v: nat, i: nat, loc: Location, s: RefSet)
    requires WfCode(code) && AllReachable(code.g, 0) && Inside(code, v, i) && ExactSources(code, v, i, loc, s)
    requires !SometimesUnset(code, v, i, loc) && EntryValueArrives(code, v, i, loc) && ComesBack(code, loc, u)
    requires !(NodeTouch(code, u, loc).Writes? && Supplies(code, v, i, loc, InstrRef(u, NodeTouch(code, u, loc).index)))
    ensures !ExactOverAllPaths(code, v, i, loc, s)
  {
    var p := ReturnArrives(code, u, v, i, loc);
    assert Reaches(code.g, 0, v);
    NoSourcesMeansUnset(code, v, i, loc, s);
    if Left(code, u, loc).From? {
      assert SuppliesAnyhow(code, v, i, loc, Left(code, u, loc).ref);
    }
  }

  /** What the entry's predecessors leave makes no difference to `loc` at the point. */
  ghost predicate EntryHarmless(code: Code, v: nat, i: nat, loc: Location)
    requires Inside(code, v, i)
  {
    SometimesUnset(code, v, i, loc) || !EntryValueArrives(code, v, i, loc) || ReturnsKnown(code, v, i, loc)
  }

  /**
   * The sources over the paths that do not come back to the entry are those over all paths if and only if one of three
   * holds: on some of these paths the location is unset; none of them leaves it alone; or whatever comes back to the
   * entry is a source already.
   */
  lemma ExactOverAllPathsIff(code: Code, v: nat, i: nat, loc: Location, s: RefSet)
    requires WfCode(code) && AllReachable(code.g, 0) && Inside(code, v, i) && ExactSources(code, v, i, loc, s)
    ensures ExactOverAllPaths(code, v, i, loc, s) <==> EntryHarmless(code, v, i, loc)
  {
    if SometimesUnset(code, v, i, loc) {
      var p :| Arrives(code, p, v, i, loc, Unset);
      assert ArrivesAnyhow(code, p, v, i, loc, Unset);
    } else if EntryHarmless(code, v, i, loc) {
      forall p | PathFromTo(code.g, p, 0, v)
        ensures OriginAt(code, p, i, loc).From? && Supplies(code, v, i, loc, OriginAt(code, p, i, loc).ref)
      {
        KnownAnyhow(code, p, v, i, loc);
      }
      forall r
        ensures Supplies(code, v, i, loc, r) <==> SuppliesAnyhow(code, v, i, loc, r)
      {
        if Supplies(code, v, i, loc, r) {
          var p :| Arrives(code, p, v, i, loc, From(r));
          assert ArrivesAnyhow(code, p, v, i, loc, From(r));
        }
      }
    } else {
      var u: nat :| ComesBack(code, loc, u)
        && !(NodeTouch(code, u, loc).Writes? && Supplies(code, v, i, loc, InstrRef(u, NodeTouch(code, u, loc).index)));
      UnknownReturn(code, u, v, i, loc, s);
    }
  }

  /** `r` reads `loc`. */
  predicate Reads(code: Code, r: Reference, loc: Location)
    requires |code.blocks| == |code.g| > 0
  {
    match r
    case PrologueRef(_) => false
    case InstrRef(v, i) => v < |code.g| && i < |code.blocks[v]| && loc in code.blocks[v][i].inputs
    case EpilogueRef(reg) => loc == reg && reg in code.returnRegs
  }

  function Index(r: Reference): nat {
    if r.InstrRef? then r.index else 0
  }

  lemma SomeSource(s: RefSet)
    requires s != []
    ensures exists x :: x in s
  {
    assert s[0] in s;
  }

  /** `r` reads `loc` from `s` over the paths that do not come back to the entry, and over all paths if that is harmless. */
  ghost predicate ExactIffHarmless(code: Code, r: Reference, loc: Location, s: RefSet)
    requires WfCode(code) && Reads(code, r, loc)
  {
    var v, i := Home(code, r), Index(r);
    && ExactSources(code, v, i, loc, s)
    && (ExactOverAllPaths(code, v, i, loc, s) <==> EntryHarmless(code, v, i, loc))
  }

  lemma InputExactIff(code: Code, r: Reference, loc: Location, s: RefSet)
    requires WfCode(code) && AllReachable(code.g, 0) && Reads(code, r, loc)
    requires forall x :: x in s <==> SourceOf(code, r, loc, x)
    ensures ExactIffHarmless(code, r, loc, s)
  {
    if s != [] {
      SomeSource(s);
    }
    ExactOverAllPathsIff(code, Home(code, r), Index(r), loc, s);
  }

  /** The same for all that is recorded. */
  lemma RecordedExact(code: Code, inputs: RefMap)
    requires WfCode(code) && AllReachable(code.g, 0)
    requires forall r, loc, x :: x in Lookup(inputs, r, loc) <==> SourceOf(code, r, loc, x)
    ensures forall r, loc :: Reads(code, r, loc) ==> ExactIffHarmless(code, r, loc, Lookup(inputs, r, loc))
  {
    forall r, loc | Reads(code, r, loc)
      ensures ExactIffHarmless(code, r, loc, Lookup(inputs, r, loc))
    {
      InputExactIff(code, r, loc, Lookup(inputs, r, loc));
    }
  }

  const COUNTER := Register("a0")

  /** A function that counts a register up in a loop, with its entry as loop head. */
  const LOOP := Code([[0, 1], []], [[Instruction([COUNTER], [COUNTER], [], false)], []], [COUNTER], [], [])

  /** The count read comes from the caller or from the instruction itself; only the caller is recorded. */
  lemma LoopCounterWrong()
    ensures WfCode(LOOP) && AllReachable(LOOP.g, 0) && Reads(LOOP, InstrRef(0, 0), COUNTER)
    ensures forall x :: SourceOf(LOOP, InstrRef(0, 0), COUNTER, x) <==> x == PrologueRef(COUNTER)
    ensures SuppliesAnyhow(LOOP, 0, 0, COUNTER, InstrRef(0, 0))
    ensures !ExactOverAllPaths(LOOP, 0, 0, COUNTER, [PrologueRef(COUNTER)])
  {
    EntryExactAt(LOOP, COUNTER);
    assert LOOP.g[0][0] == 0 && LOOP.g[0][1] == 1;
    assert PathFromTo(LOOP.g, [0, 0], 0, 0) && PathFromTo(LOOP.g, [0, 1], 0, 1) && PathFromTo(LOOP.g, [0], 0, 0);
    assert [0, 0][..1] == [0];
    assert OriginAfter(LOOP, [0], COUNTER) == From(InstrRef(0, 0));
    assert ArrivesAnyhow(LOOP, [0, 0], 0, 0, COUNTER, From(InstrRef(0, 0)));
    assert SuppliesAnyhow(LOOP, 0, 0, COUNTER, InstrRef(0, 0)) && InstrRef(0, 0) !in [PrologueRef(COUNTER)];
  }

  // ----- the recursion covers the tree -----

  ghost predicate VisitsExactly(code: Code, imdom: seq<Option<nat>>, visited: seq<nat>, v: nat, nodes: set<nat>) {
    TreeOrder(imdom, visited, v) && forall w: nat :: w in visited <==> w in nodes
  }

  ghost function BelowAll(code: Code, s: seq<nat>): set<nat> {
    if s == [] then {} else BelowAll(code, s[..|s| - 1]) + Below(code, s[|s| - 1])
  }

  lemma BelowOneMore(code: Code, s: seq<nat>, k: nat, base: set<nat>)
    requires k < |s|
    ensures base + BelowAll(code, s[..k + 1]) == base + BelowAll(code, s[..k]) + Below(code, s[k])
  {
    assert s[..k + 1][..k] == s[..k];
  }

  lemma {:induction false} InBelowAll(code: Code, s: seq<nat>, w: nat)
    ensures w in BelowAll(code, s) <==> w < |code.g| && exists i :: 0 <= i < |s| && Dominates(code.g, 0, s[i], w)
  {
    if s != [] {
      var init := s[..|s| - 1];
      InBelowAll(code, init, w);
      if w in BelowAll(code, init) {
        var i :| 0 <= i < |init| && Dominates(code.g, 0, init[i], w);
        assert Dominates(code.g, 0, s[i], w);
      }
      if exists i :: 0 <= i < |s| && Dominates(code.g, 0, s[i], w) {
        var i :| 0 <= i < |s| && Dominates(code.g, 0, s[i], w);
        assert i < |init| ==> Dominates(code.g, 0, init[i], w);
      }
    }
  }

  /** The relations hold and every node can be reached. */
  ghost predicate Tree(code: Code, dominators: seq<set<nat>>, imdom: seq<Option<nat>>, imdominates: seq<seq<nat>>) {
    && AllReachable(code.g, 0) && DominatorSets(code.g, 0, dominators) && ImmediateTree(code.g, 0, imdom, imdominates)
  }

  lemma ChildFacts(code: Code, dominators: seq<set<nat>>, imdom: seq<Option<nat>>, imdominates: seq<seq<nat>>, v: nat, k: nat)
    requires Tree(code, dominators, imdom, imdominates) && v < |code.g| && k < |imdominates[v]|
    ensures var c := imdominates[v][k];
      && c < |code.g| && c != 0 && c != v && imdom[c] == Some(v) && Strict(code.g, 0, v, c)
      && !Dominates(code.g, 0, c, v) && Below(code, c) < Below(code, v)
  {
    var c := imdominates[v][k];
    assert c in imdominates[v] && Increasing(imdominates[v], |code.g|);
    assert Reaches(code.g, 0, c) && Reaches(code.g, 0, v);
    OnlyEntryHasNoStrict(code.g, 0, imdom, imdominates, c, v);
    if Dominates(code.g, 0, c, v) {
      DominatesAntisymmetric(code.g, 0, v, c);
    }
    forall w | w in Below(code, c)
      ensures w in Below(code, v)
    {
      DominatesTransitive(code.g, 0, v, c, w);
    }
    DominatesSelf(code.g, 0, v);
    assert v in Below(code, v) && v !in Below(code, c);
  }

  /** The nodes below two children, and the parent itself, do not overlap. */
  lemma SubtreesApart(code: Code, dominators: seq<set<nat>>, imdom: seq<Option<nat>>, imdominates: seq<seq<nat>>, v: nat, k: nat, w: nat)
    requires Tree(code, dominators, imdom, imdominates) && v < |code.g| && k < |imdominates[v]|
    requires w in Below(code, imdominates[v][k])
    ensures w !in {v} + BelowAll(code, imdominates[v][..k])
  {
    var children := imdominates[v];
    ChildFacts(code, dominators, imdom, imdominates, v, k);
    InBelowAll(code, children[..k], w);
    if w in BelowAll(code, children[..k]) {
      var i :| 0 <= i < k && Dominates(code.g, 0, children[..k][i], w);
      ChildFacts(code, dominators, imdom, imdominates, v, i);
      assert Reaches(code.g, 0, w);
      assert children[i] in children && children[k] in children;
      assert Increasing(children, |code.g|);
      BelowOneChild(code.g, 0, imdom, imdominates, v, children[i], children[k], w);
    }
  }

  lemma VisitOneMore(code: Code, dominators: seq<set<nat>>, imdom: seq<Option<nat>>, imdominates: seq<seq<nat>>, v: nat, k: nat,
                     visited: seq<nat>, sub: seq<nat>)
    requires Tree(code, dominators, imdom, imdominates) && v < |code.g| && k < |imdominates[v]|
    requires VisitsExactly(code, imdom, visited, v, {v} + BelowAll(code, imdominates[v][..k]))
    requires VisitsExactly(code, imdom, sub, imdominates[v][k], Below(code, imdominates[v][k]))
    ensures VisitsExactly(code, imdom, visited + sub, v, {v} + BelowAll(code, imdominates[v][..k + 1]))
  {
    var c := imdominates[v][k];
    ChildFacts(code, dominators, imdom, imdominates, v, k);
    forall w | w in sub
      ensures w !in visited
    {
      SubtreesApart(code, dominators, imdom, imdominates, v, k, w);
    }
    BelowOneMore(code, imdominates[v], k, {v});
    TreeOrderJoin(imdom, visited, sub, v, c);
  }

  lemma TreeOrderJoin(imdom: seq<Option<nat>>, visited: seq<nat>, sub: seq<nat>, v: nat, c: nat)
    requires TreeOrder(imdom, visited, v) && TreeOrder(imdom, sub, c)
    requires c < |imdom| && imdom[c] == Some(v) && forall w :: w in sub ==> w !in visited
    ensures TreeOrder(imdom, visited + sub, v)
  {
    var all := visited + sub;
    forall i, j | 0 <= i < j < |all|
      ensures all[i] != all[j]
    {
      if i < |visited| <= j {
        assert all[i] in visited && all[j] in sub;
      }
    }
    forall j | 0 < j < |all|
      ensures all[j] < |imdom| && imdom[all[j]].Some? && imdom[all[j]].value in all[..j]
    {
      if j < |visited| {
        assert all[..j] == visited[..j];
      } else if j == |visited| {
        assert all[..j] == visited && v in visited;
      } else {
        assert all[..j] == visited + sub[..j - |visited|];
      }
    }
  }

  /** Everything below `v` is `v` itself or below a node it immediately dominates. */
  lemma BelowIsChildren(code: Code, dominators: seq<set<nat>>, imdom: seq<Option<nat>>, imdominates: seq<seq<nat>>, v: nat)
    requires Tree(code, dominators, imdom, imdominates) && v < |code.g|
    ensures {v} + BelowAll(code, imdominates[v]) == Below(code, v)
  {
    var children := imdominates[v];
    DominatesSelf(code.g, 0, v);
    forall w: nat
      ensures w in {v} + BelowAll(code, children) <==> w in Below(code, v)
    {
      InBelowAll(code, children, w);
      if w in BelowAll(code, children) {
        var i :| 0 <= i < |children| && Dominates(code.g, 0, children[i], w);
        ChildFacts(code, dominators, imdom, imdominates, v, i);
        DominatesTransitive(code.g, 0, v, children[i], w);
      }
      if w in Below(code, v) && w != v {
        assert Reaches(code.g, 0, w);
        var c := BelowSomeChild(code.g, 0, dominators, imdom, imdominates, v, w);
        var i :| 0 <= i < |children| && children[i] == c;
        assert Dominates(code.g, 0, children[i], w);
      }
    }
  }

  ghost predicate Fed(a: RefMap, b: RefMap, use: Reference, loc: Location, sources: RefSet) {
    forall r, l, x {:trigger x in Lookup(b, r, l)} :: x in Lookup(b, r, l) <==> x in Lookup(a, r, l) || (r == use && l == loc && x in sources)
  }

  lemma FedOneMore(a: RefMap, b: RefMap, use: Reference, loc: Location, sources: RefSet, k: nat)
    requires k < |sources| && Fed(a, b, use, loc, sources[..k])
    ensures Fed(a, AddTo(b, use, loc, sources[k]), use, loc, sources[..k + 1])
  {
    assert sources[..k + 1] == sources[..k] + [sources[k]];
  }

  /** Growth by the reads of `locs` at instruction `i` of `v`. */
  ghost predicate GrownByReads(code: Code, a: Uses, b: Uses, v: nat, i: nat, locs: seq<Location>)
    requires |code.blocks| == |code.g| > 0
  {
    && (forall r, loc, x {:trigger x in Lookup(b.inputs, r, loc)} :: x in Lookup(b.inputs, r, loc) <==>
         x in Lookup(a.inputs, r, loc) || (r == InstrRef(v, i) && loc in locs && SourceOf(code, r, loc, x)))
    && (forall reg :: reg in b.missing <==> reg in a.missing || (reg in locs && MissingAt(code, v, i, reg)))
  }

  lemma ReadsAreInstruction(code: Code, a: Uses, b: Uses, v: nat, i: nat)
    requires |code.blocks| == |code.g| > 0 && v < |code.g| && i < |code.blocks[v]|
    requires GrownByReads(code, a, b, v, i, code.blocks[v][i].inputs)
    ensures GrownByInstruction(code, a, b, v, i)
  {
  }

  /** Reading one input from its exact sources records what the specification says. */
  lemma ReadExact(code: Code, v: nat, i: nat, inp: Location, sources: RefSet, a: Uses, b: Uses)
    requires WfCode(code) && v < |code.g| && i < |code.blocks[v]| && Reaches(code.g, 0, v)
    requires ExactSources(code, v, i, inp, sources)
    requires var ins := code.blocks[v][i];
      && inp in ins.inputs && Fed(a.inputs, b.inputs, InstrRef(v, i), inp, sources)
      && b.missing == if inp.Register? && sources == [] && (!ins.isCall || inp !in code.argumentRegs)
                      then a.missing + {inp} else a.missing
    ensures GrownByReads(code, a, b, v, i, [inp])
  {
    NoSourcesMeansUnset(code, v, i, inp, sources);
  }

  lemma ReadOneMore(code: Code, a: Uses, b: Uses, c: Uses, v: nat, i: nat, locs: seq<Location>, k: nat)
    requires |code.blocks| == |code.g| > 0 && k < |locs|
    requires GrownByReads(code, a, b, v, i, locs[..k]) && GrownByReads(code, b, c, v, i, [locs[k]])
    ensures GrownByReads(code, a, c, v, i, locs[..k + 1])
  {
    assert locs[..k + 1] == locs[..k] + [locs[k]];
  }

  lemma StepExactAll(code: Code, v: nat, i: nat, j: nat, m: Sources, m': Sources)
    requires Inside(code, v, j) && j == i + 1 && Reaches(code.g, 0, v) && ExactAt(code, v, i, m)
    requires forall loc :: Get(m', loc) == AfterInstruction(code.blocks[v][i], InstrRef(v, i), loc, Get(m, loc))
    ensures ExactAt(code, v, j, m')
  {
    forall loc
      ensures ExactSources(code, v, j, loc, Get(m', loc))
    {
      StepExact(code, v, i, j, loc, Get(m, loc), Get(m', loc));
    }
  }

  lemma ReturnOneMore(code: Code, a: Uses, b: Uses, c: Uses, k: nat, sources: RefSet)
    requires WfCode(code) && k < |code.returnRegs| && Reaches(code.g, 0, |code.g| - 1)
    requires GrownByReturns(code, a, b, code.returnRegs[..k])
    requires ExactSources(code, |code.g| - 1, 0, code.returnRegs[k], sources)
    requires c.missing == b.missing && Fed(b.inputs, c.inputs, EpilogueRef(code.returnRegs[k]), code.returnRegs[k], sources)
    ensures GrownByReturns(code, a, c, code.returnRegs[..k + 1])
  {
    var reg := code.returnRegs[k];
    assert code.returnRegs[..k + 1] == code.returnRegs[..k] + [reg];
    NoSourcesMeansUnset(code, |code.g| - 1, 0, reg, sources);
  }

  lemma TerminalBlockEmpty(code: Code, a: Uses, b: Uses)
    requires WfCode(code) && GrownInBlock(code, a, b, |code.g| - 1, 0)
    ensures forall r, loc, x {:trigger x in Lookup(b.inputs, r, loc)} :: x in Lookup(b.inputs, r, loc) <==> x in Lookup(a.inputs, r, loc)
    ensures b.missing == a.missing
  {
  }
}
