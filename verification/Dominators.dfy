/**
 * `compute_dominators` of m2c/flow_graph.py: a bitset fixpoint, decoding of the bitsets,
 * and the immediate-dominator relation.
 */
module Dominators {
  import opened Bits
  import opened Digraph
  import opened Wrappers

  ghost predicate Strict(g: Graph, entry: nat, d: nat, v: nat) {
    d != v && Dominates(g, entry, d, v)
  }

  /** `doms[v]` holds a bit for every dominator of `v`, and none at or above the node count. */
  ghost predicate CoversDominators(g: Graph, entry: nat, doms: seq<nat>) {
    && |doms| == |g|
    && (forall v: nat, d: nat :: v < |g| && d < |g| && Dominates(g, entry, d, v) ==> Bit(doms[v], d))
    && (forall v: nat, d: nat :: v < |g| && d >= |g| ==> !Bit(doms[v], d))
  }

  /** The bits of `doms[v]` are exactly the dominators of `v`. */
  ghost predicate ExactDominators(g: Graph, entry: nat, doms: seq<nat>) {
    && CoversDominators(g, entry, doms)
    && (forall v: nat, d: nat :: v < |g| && d < |g| && Bit(doms[v], d) ==> Dominates(g, entry, d, v))
  }

  /** The dataflow equation at `v`: a bit other than `v`'s own is also set for every parent. */
  ghost predicate Settled(g: Graph, entry: nat, par: Graph, doms: seq<nat>, v: nat)
    requires |doms| == |g| == |par| && v < |g|
  {
    v == entry
    || forall u: nat, d: nat :: u < |g| && u in par[v] && d != v && Bit(doms[v], d) ==> Bit(doms[u], d)
  }

  function Total(doms: seq<nat>): nat {
    if doms == [] then 0 else doms[0] + Total(doms[1..])
  }

  lemma {:induction false} TotalUpdate(doms: seq<nat>, i: nat, x: nat)
    requires i < |doms|
    ensures Total(doms[i := x]) == Total(doms) - doms[i] + x
  {
    if i == 0 {
      assert doms[i := x][1..] == doms[1..];
    } else {
      assert doms[i := x][1..] == doms[1..][i - 1 := x];
      TotalUpdate(doms[1..], i - 1, x);
    }
  }

  /** A solution that still covers every dominator has no bit too many. */
  lemma {:induction false} SettledBitsDominate(g: Graph, entry: nat, par: Graph, doms: seq<nat>, p: seq<nat>, v: nat, d: nat)
    requires Reversed(g, par) && CoversDominators(g, entry, doms) && entry < |g| && d < |g|
    requires forall x :: 0 <= x < |g| ==> Settled(g, entry, par, doms, x)
    requires forall i: nat :: Bit(doms[entry], i) ==> i == entry
    requires PathFromTo(g, p, entry, v) && Bit(doms[v], d)
    ensures d in p
    decreases |p|
  {
    if d != v {
      assert v != entry;
      var u := p[|p| - 2];
      var q := p[..|p| - 1];
      assert p[|p| - 2 + 1] in g[p[|p| - 2]];
      assert u in par[v];
      assert Settled(g, entry, par, doms, v);
      PathPrefix(g, p, |p| - 2);
      SettledBitsDominate(g, entry, par, doms, q, u, d);
    }
  }

  /** What reaches a node's parents avoiding `d` reaches the node avoiding `d`. */
  lemma DominatesParent(g: Graph, entry: nat, d: nat, v: nat, u: nat)
    requires Dominates(g, entry, d, v) && d != v && Edge(g, u, v) && v < |g|
    ensures Dominates(g, entry, d, u)
  {
    forall p | PathFromTo(g, p, entry, u)
      ensures d in p
    {
      PathExtend(g, p, v);
      assert d in p + [v];
    }
  }

  lemma InitialSets(g: Graph, entry: nat, doms: seq<nat>)
    requires |doms| == |g| && entry < |g|
    requires forall v :: 0 <= v < |g| ==> doms[v] == if v == entry then Pow2(entry) else Pow2(|g|) - 1
    ensures CoversDominators(g, entry, doms)
    ensures forall i: nat :: Bit(doms[entry], i) ==> i == entry
  {
    forall v: nat, d: nat | v < |g|
      ensures Bit(doms[v], d) == if v == entry then d == entry else d < |g|
    {
      BitOnes(|g|, d);
      BitPow2(entry, d);
    }
    forall d: nat | d < |g| && Dominates(g, entry, d, entry)
      ensures d == entry
    {
      assert PathFromTo(g, [entry], entry, entry);
    }
  }

  method Fixpoint(ghost g: Graph, par: Graph, entry: nat) returns (doms: seq<nat>)
    requires Wf(par) && Reversed(g, par) && entry < |g|
    ensures ExactDominators(g, entry, doms)
  {
    var n := |par|;
    var all := Shl(1, n) - 1;
    doms := seq(n, i requires 0 <= i < n => if i == entry then Shl(1, i) else all);
    InitialSets(g, entry, doms);
    var changes := true;
    while changes
      invariant CoversDominators(g, entry, doms)
      invariant forall i: nat :: Bit(doms[entry], i) ==> i == entry
      invariant !changes ==> forall v: nat :: v < n ==> Settled(g, entry, par, doms, v)
      decreases Total(doms), changes
    {
      changes := false;
      ghost var before := doms;
      for i := 0 to n
        invariant CoversDominators(g, entry, doms)
        invariant forall i: nat :: Bit(doms[entry], i) ==> i == entry
        invariant Total(doms) <= Total(before)
        invariant changes ==> Total(doms) < Total(before)
        invariant !changes ==> doms == before && forall v: nat :: v < i ==> Settled(g, entry, par, doms, v)
      {
        if i == entry {
          continue;
        }
        var nset := Meet(g, entry, par, doms, i);
        if nset != doms[i] {
          // The assertion in the source: a set only ever loses members.
          assert And(nset, doms[i]) == nset by { SubsetAnd(nset, doms[i]); }
          SubsetSmaller(nset, doms[i]);
          TotalUpdate(doms, i, nset);
          doms := doms[i := nset];
          changes := true;
        }
      }
    }
    forall v: nat, d: nat, p | v < n && d < n && Bit(doms[v], d) && PathFromTo(g, p, entry, v)
      ensures d in p
    {
      SettledBitsDominate(g, entry, par, doms, p, v, d);
    }
  }

  lemma SubsetAnd(x: nat, y: nat)
    requires forall i: nat :: Bit(x, i) ==> Bit(y, i)
    ensures And(x, y) == x
  {
    forall i: nat
      ensures Bit(And(x, y), i) == Bit(x, i)
    {
      BitAnd(x, y, i);
    }
    BitsDetermine(And(x, y), x);
  }

  lemma SubsetSmaller(x: nat, y: nat)
    requires forall i: nat :: Bit(x, i) ==> Bit(y, i)
    requires x != y
    ensures x < y
  {
    SubsetAnd(x, y);
    AndShrinks(x, y);
  }

  /** One visit to node `i`: its set met with its parents' sets, plus itself. */
  method Meet(ghost g: Graph, ghost entry: nat, par: Graph, doms: seq<nat>, i: nat) returns (nset: nat)
    requires Wf(par) && Reversed(g, par) && i < |g|
    requires CoversDominators(g, entry, doms)
    ensures forall d: nat ::
      Bit(nset, d) <==> d == i || (Bit(doms[i], d) && forall u: nat :: u < |g| && u in par[i] ==> Bit(doms[u], d))
    ensures forall d: nat :: Bit(nset, d) ==> Bit(doms[i], d)
    ensures CoversDominators(g, entry, doms[i := nset])
  {
    var acc := doms[i];
    forall j | 0 <= j < |par[i]|
      ensures par[i][j] < |doms|
    {
      assert par[i][j] in par[i];
    }
    for k := 0 to |par[i]|
      invariant acc >= 0
      invariant forall d: nat :: Bit(acc, d) <==>
        Bit(doms[i], d) && forall u: nat :: u in par[i][..k] ==> Bit(doms[u], d)
    {
      var u := par[i][k];
      assert par[i][..k + 1] == par[i][..k] + [u];
      AndShrinks(acc, doms[u]);
      forall d: nat
        ensures Bit(And(acc, doms[u]), d) == (Bit(acc, d) && Bit(doms[u], d))
      {
        BitAnd(acc, doms[u], d);
      }
      acc := And(acc, doms[u]);
    }
    assert par[i][..|par[i]|] == par[i];
    var r := Or(acc, Shl(1, i));
    forall d: nat
      ensures Bit(r, d) == (Bit(acc, d) || d == i)
    {
      BitOr(acc, Shl(1, i), d);
      BitPow2(i, d);
    }
    OrNonNegative(acc, Shl(1, i));
    nset := r;
    DominatesSelf(g, entry, i);
    forall d: nat | d < |g| && Dominates(g, entry, d, i)
      ensures Bit(nset, d)
    {
      if d != i {
        forall u: nat | u < |g| && u in par[i]
          ensures Bit(doms[u], d)
        {
          DominatesParent(g, entry, d, i, u);
        }
      }
    }
  }

  lemma OrNonNegative(x: nat, y: nat)
    ensures Or(x, y) >= 0
  {
    AndNegative(Not(x), Not(y));
  }

  lemma {:induction false} AndNegative(x: int, y: int)
    requires x < 0 && y < 0
    ensures And(x, y) < 0
    decreases Abs(x)
  {
    if x != -1 { AndNegative(x / 2, y / 2); }
  }

  // ----- decoding the bitsets -----

  /** The set `x` stands for: take the lowest bit, clear it, record its index. */
  method Decode(x: nat) returns (members: set<nat>)
    ensures forall i: nat :: i in members <==> Bit(x, i)
  {
    var bitset: nat := x;
    members := {};
    while bitset != 0
      invariant forall i: nat :: Bit(x, i) <==> i in members || Bit(bitset, i)
      decreases bitset
    {
      var p2 := And(bitset, Neg(bitset));
      ghost var k := LowestBit(bitset);
      IsolateLowest(bitset);
      BitLengthPow2(k);
      var cleared := And(bitset, Not(p2));
      forall i: nat
        ensures Bit(cleared, i) == (Bit(bitset, i) && i != k)
      {
        BitAnd(bitset, Not(p2), i);
        BitNot(p2, i);
        BitPow2(k, i);
      }
      ClearedNonNegative(bitset, Not(p2));
      assert Bit(bitset, k) && !Bit(cleared, k);
      SubsetSmaller(cleared, bitset);
      bitset := cleared;
      members := members + {BitLength(p2) - 1};
    }
    forall i: nat
      ensures !Bit(0, i)
    {
      BitZero(i);
    }
  }

  lemma {:induction false} ClearedNonNegative(x: nat, y: int)
    ensures And(x, y) >= 0
    decreases x
  {
    if x != 0 { ClearedNonNegative(x / 2, y / 2); }
  }

  // ----- immediate dominators -----

  /** `d` is the closest strict dominator of `v`: all the others dominate it. */
  ghost predicate Immediate(g: Graph, entry: nat, d: nat, v: nat) {
    && Strict(g, entry, d, v)
    && (forall e: nat :: Strict(g, entry, e, v) ==> Dominates(g, entry, e, d))
  }

  ghost predicate DominatorSets(g: Graph, entry: nat, dominators: seq<set<nat>>) {
    && |dominators| == |g|
    && (forall v: nat, d: nat :: v < |g| ==> (d in dominators[v] <==> d < |g| && Dominates(g, entry, d, v)))
  }

  /** The sort key of the source: number of dominators, then block index. */
  predicate KeyAtMost(dominators: seq<set<nat>>, blockIndex: seq<int>, a: nat, b: nat)
    requires a < |dominators| == |blockIndex| && b < |dominators|
  {
    |dominators[a]| < |dominators[b]|
    || (|dominators[a]| == |dominators[b]| && blockIndex[a] <= blockIndex[b])
  }

  method MaxByKey(candidates: set<nat>, dominators: seq<set<nat>>, blockIndex: seq<int>) returns (best: nat)
    requires candidates != {} && |blockIndex| == |dominators|
    requires forall d :: d in candidates ==> d < |dominators|
    ensures best in candidates
    ensures forall d :: d in candidates ==> KeyAtMost(dominators, blockIndex, d, best)
  {
    best :| best in candidates;
    var rest := candidates - {best};
    while rest != {}
      invariant best in candidates && rest <= candidates
      invariant forall d :: d in candidates && d !in rest ==> KeyAtMost(dominators, blockIndex, d, best)
      decreases rest
    {
      var d :| d in rest;
      rest := rest - {d};
      if !KeyAtMost(dominators, blockIndex, d, best) {
        best := d;
      }
    }
  }

  /** Along strict dominance between reachable nodes the dominator count grows. */
  lemma StrictCountsGrow(g: Graph, entry: nat, dominators: seq<set<nat>>, a: nat, b: nat)
    requires DominatorSets(g, entry, dominators)
    requires a < |g| && b < |g| && Reaches(g, entry, b) && Strict(g, entry, a, b)
    ensures |dominators[a]| < |dominators[b]|
  {
    forall d | d in dominators[a]
      ensures d in dominators[b]
    {
      DominatesTransitive(g, entry, d, a, b);
    }
    DominatesSelf(g, entry, b);
    if Dominates(g, entry, b, a) {
      DominatorReachable(g, entry, a, b);
      DominatesAntisymmetric(g, entry, a, b);
    }
    assert b in dominators[b] && b !in dominators[a];
    ProperSubsetSmaller(dominators[a], dominators[b]);
  }

  /** Two different strict dominators of a reachable node never tie on the dominator count. */
  lemma NoTie(g: Graph, entry: nat, dominators: seq<set<nat>>, a: nat, b: nat, v: nat)
    requires DominatorSets(g, entry, dominators)
    requires v < |g| && Reaches(g, entry, v) && a != b
    requires Strict(g, entry, a, v) && Strict(g, entry, b, v)
    ensures a < |g| && b < |g|
    ensures |dominators[a]| != |dominators[b]|
    ensures |dominators[a]| < |dominators[b]| <==> Dominates(g, entry, a, b)
  {
    DominatorReachable(g, entry, a, v);
    DominatorReachable(g, entry, b, v);
    DominatorsLinear(g, entry, a, b, v);
    if Dominates(g, entry, a, b) {
      StrictCountsGrow(g, entry, dominators, a, b);
    } else {
      StrictCountsGrow(g, entry, dominators, b, a);
    }
  }

  /** What the source calls immediate dominator is the closest one, for every reachable node. */
  lemma LargestKeyIsImmediate(g: Graph, entry: nat, dominators: seq<set<nat>>, blockIndex: seq<int>, best: nat, v: nat)
    requires DominatorSets(g, entry, dominators) && |blockIndex| == |g|
    requires v < |g| && Reaches(g, entry, v) && best in dominators[v] - {v}
    requires forall d :: d in dominators[v] - {v} ==> KeyAtMost(dominators, blockIndex, d, best)
    ensures Immediate(g, entry, best, v)
  {
    forall e: nat | Strict(g, entry, e, v)
      ensures Dominates(g, entry, e, best)
    {
      DominatorReachable(g, entry, e, v);
      assert e in dominators[v] - {v};
      if e == best {
        DominatesSelf(g, entry, e);
      } else {
        NoTie(g, entry, dominators, e, best, v);
      }
    }
  }

  ghost predicate ImmediateTree(g: Graph, entry: nat, imdom: seq<Option<nat>>, imdominates: seq<seq<nat>>) {
    && |imdom| == |imdominates| == |g|
    && (forall v: nat :: v < |g| && Reaches(g, entry, v) && v != entry ==>
         imdom[v].Some? && imdom[v].value < |g| && Immediate(g, entry, imdom[v].value, v))
    && (forall v: nat :: v < |g| ==> (imdom[v].None? <==> forall d: nat :: d < |g| ==> !Strict(g, entry, d, v)))
    && (forall v: nat, d: nat :: v < |g| && d < |g| ==> (v in imdominates[d] <==> imdom[v] == Some(d)))
    && (forall d: nat :: d < |g| ==> Increasing(imdominates[d], |g|))
  }

  predicate Increasing(s: seq<nat>, bound: nat) {
    && (forall i, j :: 0 <= i < j < |s| ==> s[i] < s[j])
    && (forall i :: 0 <= i < |s| ==> s[i] < bound)
  }

  /** Each node's immediate dominator is the key-largest of its dominators other than itself, if any. */
  ghost predicate ChosenByKey(dominators: seq<set<nat>>, blockIndex: seq<int>, imdom: seq<Option<nat>>) {
    && |blockIndex| == |dominators| && |imdom| <= |dominators|
    && (forall v: nat, d: nat :: v < |dominators| && d in dominators[v] ==> d < |dominators|)
    && (forall v: nat :: v < |imdom| ==> (imdom[v].None? <==> dominators[v] - {v} == {}))
    && (forall v: nat :: v < |imdom| && imdom[v].Some? ==> imdom[v].value in dominators[v] - {v})
    && (forall v: nat, d: nat :: v < |imdom| && imdom[v].Some? && d in dominators[v] - {v} ==>
         KeyAtMost(dominators, blockIndex, d, imdom[v].value))
  }

  /** `imdominates` is the inverse of `imdom`. */
  ghost predicate Inverse(imdom: seq<Option<nat>>, imdominates: seq<seq<nat>>) {
    && (forall v: nat, d: nat :: d < |imdominates| ==> (v in imdominates[d] <==> v < |imdom| && imdom[v] == Some(d)))
    && (forall d: nat :: d < |imdominates| ==> Increasing(imdominates[d], |imdom|))
  }

  function Recorded(imdominates: seq<seq<nat>>, v: nat, choice: Option<nat>): seq<seq<nat>> {
    if choice.Some? && choice.value < |imdominates|
    then imdominates[choice.value := imdominates[choice.value] + [v]]
    else imdominates
  }

  lemma InverseExtends(imdom: seq<Option<nat>>, imdominates: seq<seq<nat>>, choice: Option<nat>)
    requires Inverse(imdom, imdominates)
    ensures Inverse(imdom + [choice], Recorded(imdominates, |imdom|, choice))
  {
    var m' := imdom + [choice];
    var r := Recorded(imdominates, |imdom|, choice);
    forall v: nat, d: nat | d < |r|
      ensures v in r[d] <==> v < |m'| && m'[v] == Some(d)
    {
      assert v in imdominates[d] <==> v < |imdom| && imdom[v] == Some(d);
    }
    forall d: nat | d < |r|
      ensures Increasing(r[d], |m'|)
    {
      assert Increasing(imdominates[d], |imdom|);
    }
  }

  lemma ChosenExtends(dominators: seq<set<nat>>, blockIndex: seq<int>, imdom: seq<Option<nat>>, choice: Option<nat>)
    requires ChosenByKey(dominators, blockIndex, imdom) && |imdom| < |dominators|
    requires choice.None? <==> dominators[|imdom|] - {|imdom|} == {}
    requires choice.Some? ==> choice.value in dominators[|imdom|] - {|imdom|}
    requires forall d :: choice.Some? && d in dominators[|imdom|] - {|imdom|} ==> KeyAtMost(dominators, blockIndex, d, choice.value)
    ensures ChosenByKey(dominators, blockIndex, imdom + [choice])
  {
  }

  method ImmediateDominators(dominators: seq<set<nat>>, blockIndex: seq<int>)
    returns (imdom: seq<Option<nat>>, imdominates: seq<seq<nat>>)
    requires |blockIndex| == |dominators|
    requires forall v: nat, d: nat :: v < |dominators| && d in dominators[v] ==> d < |dominators|
    ensures |imdom| == |imdominates| == |dominators|
    ensures ChosenByKey(dominators, blockIndex, imdom)
    ensures Inverse(imdom, imdominates)
  {
    imdominates := seq(|dominators|, i => []);
    imdom := [];
    for v := 0 to |dominators|
      invariant |imdom| == v && |imdominates| == |dominators|
      invariant ChosenByKey(dominators, blockIndex, imdom)
      invariant Inverse(imdom, imdominates)
    {
      var candidates := dominators[v] - {v};
      var choice := None;
      if candidates != {} {
        var best := MaxByKey(candidates, dominators, blockIndex);
        choice := Some(best);
      }
      ChosenExtends(dominators, blockIndex, imdom, choice);
      InverseExtends(imdom, imdominates, choice);
      imdominates := Recorded(imdominates, v, choice);
      imdom := imdom + [choice];
    }
  }

  lemma ChosenFormTree(g: Graph, entry: nat, dominators: seq<set<nat>>, blockIndex: seq<int>,
                       imdom: seq<Option<nat>>, imdominates: seq<seq<nat>>)
    requires DominatorSets(g, entry, dominators) && |imdom| == |imdominates| == |g|
    requires ChosenByKey(dominators, blockIndex, imdom) && Inverse(imdom, imdominates)
    ensures ImmediateTree(g, entry, imdom, imdominates)
  {
    forall v: nat | v < |g| && Reaches(g, entry, v) && v != entry
      ensures imdom[v].Some? && imdom[v].value < |g| && Immediate(g, entry, imdom[v].value, v)
    {
      EntryDominates(g, entry, v);
      DominatorReachable(g, entry, entry, v);
      assert entry in dominators[v] - {v};
      LargestKeyIsImmediate(g, entry, dominators, blockIndex, imdom[v].value, v);
    }
    forall v: nat | v < |g|
      ensures imdom[v].None? <==> forall d: nat :: d < |g| ==> !Strict(g, entry, d, v)
    {
      if imdom[v].Some? {
        assert Strict(g, entry, imdom[v].value, v);
      } else {
        forall d: nat | d < |g|
          ensures !Strict(g, entry, d, v)
        {
          assert d !in dominators[v] - {v};
        }
      }
    }
  }

  method ComputeDominators(ghost g: Graph, par: Graph, entry: nat, blockIndex: seq<int>)
    returns (dominators: seq<set<nat>>, imdom: seq<Option<nat>>, imdominates: seq<seq<nat>>)
    requires Wf(par) && Reversed(g, par) && entry < |g| && |blockIndex| == |g|
    ensures DominatorSets(g, entry, dominators)
    ensures ImmediateTree(g, entry, imdom, imdominates)
  {
    var doms := Fixpoint(g, par, entry);
    dominators := [];
    for v := 0 to |par|
      invariant |dominators| == v
      invariant forall w: nat, d: nat :: w < v ==> (d in dominators[w] <==> Bit(doms[w], d))
    {
      var members := Decode(doms[v]);
      dominators := dominators + [members];
    }
    imdom, imdominates := ImmediateDominators(dominators, blockIndex);
    ChosenFormTree(g, entry, dominators, blockIndex, imdom, imdominates);
  }

  // ----- the tree the immediate dominators form -----

  /** Below `v`, every other node lies below exactly one of the nodes `v` immediately dominates. */
  lemma {:induction false} BelowSomeChild(g: Graph, entry: nat, dominators: seq<set<nat>>, imdom: seq<Option<nat>>,
                         imdominates: seq<seq<nat>>, v: nat, w: nat) returns (c: nat)
    requires DominatorSets(g, entry, dominators) && ImmediateTree(g, entry, imdom, imdominates)
    requires v < |g| && w < |g| && Reaches(g, entry, w) && Strict(g, entry, v, w)
    ensures c in imdominates[v] && c < |g| && Dominates(g, entry, c, w)
    decreases |dominators[w]|
  {
    if w == entry {
      assert PathFromTo(g, [entry], entry, entry);
      assert false;
      return;
    }
    var d := imdom[w].value;
    if d == v {
      c := w;
      DominatesSelf(g, entry, w);
    } else {
      StrictCountsGrow(g, entry, dominators, d, w);
      DominatorReachable(g, entry, d, w);
      c := BelowSomeChild(g, entry, dominators, imdom, imdominates, v, d);
      DominatesTransitive(g, entry, c, d, w);
    }
  }

  lemma BelowOneChild(g: Graph, entry: nat, imdom: seq<Option<nat>>, imdominates: seq<seq<nat>>,
                      v: nat, c1: nat, c2: nat, w: nat)
    requires ImmediateTree(g, entry, imdom, imdominates)
    requires v < |g| && c1 < |g| && c2 < |g| && c1 in imdominates[v] && c2 in imdominates[v]
    requires Reaches(g, entry, w) && Dominates(g, entry, c1, w) && Dominates(g, entry, c2, w)
    ensures c1 == c2
  {
    if c1 != c2 {
      DominatorsLinear(g, entry, c1, c2, w);
      if Dominates(g, entry, c1, c2) {
        ChildNotBelowSibling(g, entry, imdom, imdominates, v, c1, c2, w);
      } else {
        ChildNotBelowSibling(g, entry, imdom, imdominates, v, c2, c1, w);
      }
    }
  }

  lemma ChildNotBelowSibling(g: Graph, entry: nat, imdom: seq<Option<nat>>, imdominates: seq<seq<nat>>,
                             v: nat, c1: nat, c2: nat, w: nat)
    requires ImmediateTree(g, entry, imdom, imdominates)
    requires v < |g| && c1 < |g| && c2 < |g| && c1 != c2 && c1 in imdominates[v] && c2 in imdominates[v]
    requires Reaches(g, entry, w) && Dominates(g, entry, c1, w) && Dominates(g, entry, c2, w)
    ensures !Dominates(g, entry, c1, c2)
  {
    DominatorReachable(g, entry, c1, w);
    DominatorReachable(g, entry, c2, w);
    if Dominates(g, entry, c1, c2) {
      OnlyEntryHasNoStrict(g, entry, imdom, imdominates, c1, v);
      OnlyEntryHasNoStrict(g, entry, imdom, imdominates, c2, v);
      assert Strict(g, entry, c1, c2);
      assert Dominates(g, entry, c1, v);
      DominatesAntisymmetric(g, entry, c1, v);
    }
  }

  lemma OnlyEntryHasNoStrict(g: Graph, entry: nat, imdom: seq<Option<nat>>, imdominates: seq<seq<nat>>, c: nat, v: nat)
    requires ImmediateTree(g, entry, imdom, imdominates)
    requires v < |g| && c < |g| && c in imdominates[v] && Reaches(g, entry, c)
    ensures c != entry && Immediate(g, entry, v, c)
  {
    var p :| PathFromTo(g, p, entry, c);
    assert entry < |g|;
    forall d: nat
      ensures !Strict(g, entry, d, entry)
    {
      NoneAboveEntry(g, entry, d);
    }
    assert imdom[entry].None?;
    assert imdom[c] == Some(v);
  }

  lemma NoneAboveEntry(g: Graph, entry: nat, d: nat)
    requires entry < |g|
    ensures !Strict(g, entry, d, entry)
  {
    assert PathFromTo(g, [entry], entry, entry);
    assert d in [entry] ==> d == entry;
  }
}
