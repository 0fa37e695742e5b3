/**
 * Finite directed graphs given by child lists, their paths, and dominance: the
 * definitions that m2c/flow_graph.py's algorithms are measured against.
 */
module Digraph {

  /** `g[u]` lists the children of node `u`. */
  type Graph = seq<seq<nat>>

  ghost predicate Wf(g: Graph) {
    forall u, v :: 0 <= u < |g| && v in g[u] ==> v < |g|
  }

  predicate Edge(g: Graph, u: nat, v: nat) {
    u < |g| && v in g[u]
  }

  predicate IsPath(g: Graph, p: seq<nat>) {
    && |p| > 0
    && (forall i :: 0 <= i < |p| ==> p[i] < |g|)
    && (forall i :: 0 <= i < |p| - 1 ==> p[i + 1] in g[p[i]])
  }

  predicate PathFromTo(g: Graph, p: seq<nat>, a: nat, b: nat) {
    IsPath(g, p) && p[0] == a && p[|p| - 1] == b
  }

  ghost predicate Reaches(g: Graph, a: nat, b: nat) {
    exists p :: PathFromTo(g, p, a, b)
  }

  /** Every path from `entry` to `n` contains `d`. */
  ghost predicate Dominates(g: Graph, entry: nat, d: nat, n: nat) {
    forall p :: PathFromTo(g, p, entry, n) ==> d in p
  }

  ghost predicate AllReachable(g: Graph, entry: nat) {
    forall v :: 0 <= v < |g| ==> Reaches(g, entry, v)
  }

  /** `h` has exactly the edges of `g`, turned around. */
  ghost predicate Reversed(g: Graph, h: Graph) {
    |h| == |g| && forall u, v :: 0 <= u < |g| && 0 <= v < |g| ==> (u in h[v] <==> v in g[u])
  }

  lemma ReversedSymmetric(g: Graph, h: Graph)
    requires Reversed(g, h)
    ensures Reversed(h, g)
  {
  }

  ghost function NodesBelow(n: nat): (s: set<nat>)
    ensures forall x: nat :: x in s <==> x < n
    ensures |s| == n
  {
    if n == 0 then {} else NodesBelow(n - 1) + {n - 1}
  }

  lemma ProperSubsetSmaller<T>(a: set<T>, b: set<T>)
    requires a < b
    ensures |a| < |b|
  {
    assert b == a + (b - a);
    assert |b| == |a| + |b - a|;
  }

  lemma LeftToSee(seen: set<nat>, n: nat, count: nat)
    requires n < count && n !in seen
    ensures |NodesBelow(count) - (seen + {n})| < |NodesBelow(count) - seen|
  {
    assert n in NodesBelow(count) - seen;
    ProperSubsetSmaller(NodesBelow(count) - (seen + {n}), NodesBelow(count) - seen);
  }

  // ----- building and cutting paths -----

  lemma PathSuffix(g: Graph, p: seq<nat>, i: nat)
    requires IsPath(g, p) && i < |p|
    ensures PathFromTo(g, p[i..], p[i], p[|p| - 1])
  {
  }

  lemma PathPrefix(g: Graph, p: seq<nat>, i: nat)
    requires IsPath(g, p) && i < |p|
    ensures PathFromTo(g, p[..i + 1], p[0], p[i])
  {
  }

  /** Glues `q`, which starts where `p` ends. */
  lemma PathJoin(g: Graph, p: seq<nat>, q: seq<nat>)
    requires IsPath(g, p) && IsPath(g, q) && p[|p| - 1] == q[0]
    ensures PathFromTo(g, p + q[1..], p[0], q[|q| - 1])
  {
    var r := p + q[1..];
    forall i | 0 <= i < |r| - 1
      ensures r[i + 1] in g[r[i]]
    {
      if i >= |p| - 1 {
        var j := i - (|p| - 1);
        assert r[i + 1] == q[j + 1] && r[i] == q[j];
      }
    }
  }

  lemma PathExtend(g: Graph, p: seq<nat>, v: nat)
    requires IsPath(g, p) && v in g[p[|p| - 1]] && v < |g|
    ensures PathFromTo(g, p + [v], p[0], v)
  {
  }

  lemma ReachesStep(g: Graph, a: nat, u: nat, v: nat)
    requires Reaches(g, a, u) && Edge(g, u, v) && v < |g|
    ensures Reaches(g, a, v)
  {
    var p :| PathFromTo(g, p, a, u);
    PathExtend(g, p, v);
  }

  lemma ReachesSelf(g: Graph, a: nat)
    requires a < |g|
    ensures Reaches(g, a, a)
  {
    assert PathFromTo(g, [a], a, a);
  }

  function ReverseSeq(p: seq<nat>): (r: seq<nat>)
    ensures |r| == |p|
    ensures forall i :: 0 <= i < |p| ==> r[i] == p[|p| - 1 - i]
  {
    seq(|p|, i requires 0 <= i < |p| => p[|p| - 1 - i])
  }

  lemma PathReverse(g: Graph, h: Graph, p: seq<nat>, a: nat, b: nat)
    requires Reversed(g, h) && PathFromTo(g, p, a, b)
    ensures PathFromTo(h, ReverseSeq(p), b, a)
    ensures forall x :: x in ReverseSeq(p) <==> x in p
  {
    var r := ReverseSeq(p);
    forall i | 0 <= i < |r| - 1
      ensures r[i + 1] in h[r[i]]
    {
      var j := |p| - 2 - i;
      assert p[j + 1] in g[p[j]];
    }
    forall x | x in p
      ensures x in r
    {
      var i :| 0 <= i < |p| && p[i] == x;
      assert r[|p| - 1 - i] == x;
    }
  }

  /** Dominance in the reversed graph is postdominance: every path from `n` to `exit` contains `d`. */
  lemma ReverseDominates(g: Graph, h: Graph, exit: nat, d: nat, n: nat)
    requires Reversed(g, h)
    ensures Dominates(h, exit, d, n) <==> (forall p :: PathFromTo(g, p, n, exit) ==> d in p)
  {
    if Dominates(h, exit, d, n) {
      forall p | PathFromTo(g, p, n, exit)
        ensures d in p
      {
        PathReverse(g, h, p, n, exit);
      }
    }
    if forall p :: PathFromTo(g, p, n, exit) ==> d in p {
      forall p | PathFromTo(h, p, exit, n)
        ensures d in p
      {
        PathReverse(h, g, p, exit, n);
      }
    }
  }

  // ----- first and last occurrences -----

  lemma {:induction false} FirstOccurrence(p: seq<nat>, v: nat) returns (i: nat)
    requires v in p
    ensures i < |p| && p[i] == v && v !in p[..i]
  {
    if p[0] == v {
      i := 0;
    } else {
      i := FirstOccurrence(p[1..], v);
      assert p[..i + 1] == [p[0]] + p[1..][..i];
      i := i + 1;
    }
  }

  lemma {:induction false} LastOccurrence(p: seq<nat>, v: nat) returns (i: nat)
    requires v in p
    ensures i < |p| && p[i] == v && v !in p[i + 1..]
  {
    if p[|p| - 1] == v {
      i := |p| - 1;
    } else {
      var q := p[..|p| - 1];
      i := LastOccurrence(q, v);
      assert p[i + 1..] == q[i + 1..] + [p[|p| - 1]];
    }
  }

  // ----- dominance is a tree order on the reachable nodes -----

  lemma DominatesSelf(g: Graph, entry: nat, v: nat)
    ensures Dominates(g, entry, v, v)
  {
    forall p | PathFromTo(g, p, entry, v)
      ensures v in p
    {
      assert p[|p| - 1] == v;
    }
  }

  lemma EntryDominates(g: Graph, entry: nat, v: nat)
    ensures Dominates(g, entry, entry, v)
  {
    forall p | PathFromTo(g, p, entry, v)
      ensures entry in p
    {
      assert p[0] == entry;
    }
  }

  lemma DominatesTransitive(g: Graph, entry: nat, a: nat, b: nat, c: nat)
    requires Dominates(g, entry, a, b) && Dominates(g, entry, b, c)
    ensures Dominates(g, entry, a, c)
  {
    forall p | PathFromTo(g, p, entry, c)
      ensures a in p
    {
      var i :| 0 <= i < |p| && p[i] == b;
      PathPrefix(g, p, i);
      assert a in p[..i + 1];
    }
  }

  lemma DominatorReachable(g: Graph, entry: nat, d: nat, v: nat)
    requires Dominates(g, entry, d, v) && Reaches(g, entry, v)
    ensures d < |g| && Reaches(g, entry, d)
  {
    var p :| PathFromTo(g, p, entry, v);
    var i :| 0 <= i < |p| && p[i] == d;
    PathPrefix(g, p, i);
  }

  /** A node is reached by a path that visits it only at its end. */
  lemma SimpleArrival(g: Graph, p: seq<nat>, a: nat, v: nat) returns (q: seq<nat>)
    requires PathFromTo(g, p, a, v)
    ensures PathFromTo(g, q, a, v) && v !in q[..|q| - 1]
    ensures forall x :: x in q ==> x in p
  {
    var i := FirstOccurrence(p, v);
    PathPrefix(g, p, i);
    q := p[..i + 1];
    assert q[..|q| - 1] == p[..i];
  }

  lemma DominatesAntisymmetric(g: Graph, entry: nat, a: nat, b: nat)
    requires Reaches(g, entry, a)
    requires Dominates(g, entry, a, b) && Dominates(g, entry, b, a)
    ensures a == b
  {
    if a != b {
      var p0 :| PathFromTo(g, p0, entry, a);
      var p := SimpleArrival(g, p0, entry, a);
      var j :| 0 <= j < |p| && p[j] == b;
      PathPrefix(g, p, j);
      assert false;
    }
  }

  /** Of two nodes on a path, one is seen last. */
  lemma LastOfTwo(p: seq<nat>, a: nat, b: nat) returns (i: nat)
    requires a in p && b in p && a != b
    ensures i < |p| && (p[i] == a || p[i] == b) && a !in p[i + 1..] && b !in p[i + 1..]
  {
    var i1 := LastOccurrence(p, a);
    var i2 := LastOccurrence(p, b);
    i := if i1 > i2 then i1 else i2;
    if i1 > i2 {
      assert p[i1 + 1..] == p[i2 + 1..][i1 - i2..];
    } else {
      assert p[i2 + 1..] == p[i1 + 1..][i2 - i1..];
    }
  }

  /** The dominators of a reachable node are totally ordered, in reducible graphs or not. */
  lemma DominatorsLinear(g: Graph, entry: nat, a: nat, b: nat, n: nat)
    requires Reaches(g, entry, n)
    requires Dominates(g, entry, a, n) && Dominates(g, entry, b, n)
    ensures Dominates(g, entry, a, b) || Dominates(g, entry, b, a)
  {
    if a == b {
      DominatesSelf(g, entry, a);
    } else if !Dominates(g, entry, a, b) && !Dominates(g, entry, b, a) {
      var p :| PathFromTo(g, p, entry, n);
      var i := LastOfTwo(p, a, b);
      var q :| PathFromTo(g, q, entry, p[i]) && ((p[i] == a && b !in q) || (p[i] == b && a !in q));
      PathSuffix(g, p, i);
      assert p[i..][1..] == p[i + 1..];
      PathJoin(g, q, p[i..]);
      assert false;
    }
  }
}
