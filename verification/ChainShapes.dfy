/**
 * Which pairs of conditional nodes `try_make_if_condition` of m2c/if_statements.py may collapse, by their edges alone, and
 * that the order of the collapses does not matter.
 */
module ChainShapes {

  /** The two nodes that the edges of a node go to, the smaller first. */
  datatype Ends = Ends(low: nat, high: nat)

  function EndsOf(a: nat, b: nat): Ends {
    if a <= b then Ends(a, b) else Ends(b, a)
  }

  predicate EndsAt(e: Ends, x: nat) {
    e.low == x || e.high == x
  }

  function Other(e: Ends, x: nat): nat {
    if e.low == x then e.high else e.low
  }

  /** The nodes left. */
  type Shape = map<nat, Ends>

  predicate OnlyFrom(s: Shape, p: nat, c: nat) {
    forall x :: x in s && EndsAt(s[x], c) ==> x == p
  }

  /** `c` is no exit, and only one edge goes to it: one of `p`, whose other edge goes to a node that `c` goes to as well. */
  predicate Reducible(s: Shape, exits: set<nat>, p: nat, c: nat) {
    && p in s && c in s && c !in exits && EndsAt(s[p], c) && OnlyFrom(s, p, c)
    && Other(s[p], c) != c && EndsAt(s[c], Other(s[p], c))
  }

  ghost predicate Irreducible(s: Shape, exits: set<nat>) {
    forall p, c :: !Reducible(s, exits, p, c)
  }

  /** The parent takes over the edges of the child. */
  function Collapsed(s: Shape, p: nat, c: nat): Shape
    requires c in s
  {
    s[p := s[c]] - {c}
  }

  /** `t` is what `n` collapses can make of `s`. */
  ghost predicate Reduces(s: Shape, exits: set<nat>, t: Shape, n: nat)
    decreases n, 0
  {
    if n == 0 then s == t else exists p, c :: Begins(s, exits, t, n, p, c)
  }

  /** The same with a collapse of this pair first. */
  ghost predicate Begins(s: Shape, exits: set<nat>, t: Shape, n: nat, p: nat, c: nat)
    requires n > 0
    decreases n - 1, 1
  {
    Reducible(s, exits, p, c) && Reduces(Collapsed(s, p, c), exits, t, n - 1)
  }

  /** Who has the edge into the child `c`, once `d` was collapsed into `q`. */
  function Heir(p: nat, q: nat, d: nat): nat {
    if p == d then q else p
  }

  lemma StillReducible(s: Shape, exits: set<nat>, p: nat, c: nat, q: nat, d: nat)
    requires Reducible(s, exits, p, c) && Reducible(s, exits, q, d) && c != d
    ensures Reducible(Collapsed(s, q, d), exits, Heir(p, q, d), c)
  {
  }

  lemma SameOutcome(s: Shape, p: nat, c: nat, q: nat, d: nat)
    requires p in s && c in s && q in s && d in s && c != d && p != q
    ensures c in Collapsed(s, q, d) && d in Collapsed(s, p, c)
    ensures Collapsed(Collapsed(s, q, d), Heir(p, q, d), c) == Collapsed(Collapsed(s, p, c), Heir(q, p, c), d)
  {
  }

  /** Two collapses can be made in either order, with the same outcome. */
  lemma Diamond(s: Shape, exits: set<nat>, p: nat, c: nat, q: nat, d: nat)
    requires Reducible(s, exits, p, c) && Reducible(s, exits, q, d) && c != d
    ensures Reducible(Collapsed(s, q, d), exits, Heir(p, q, d), c) && Reducible(Collapsed(s, p, c), exits, Heir(q, p, c), d)
    ensures Collapsed(Collapsed(s, q, d), Heir(p, q, d), c) == Collapsed(Collapsed(s, p, c), Heir(q, p, c), d)
  {
    StillReducible(s, exits, p, c, q, d);
    StillReducible(s, exits, q, d, p, c);
    assert p != q;
    SameOutcome(s, p, c, q, d);
  }

  /** Any first collapse is on the way to what is irreducible. */
  lemma {:induction false} AnyStep(s: Shape, exits: set<nat>, t: Shape, n: nat, q: nat, d: nat)
    requires Reduces(s, exits, t, n) && Irreducible(t, exits) && Reducible(s, exits, q, d)
    ensures n > 0 && Reduces(Collapsed(s, q, d), exits, t, n - 1)
    decreases n
  {
    assert n > 0;
    var p, c :| Begins(s, exits, t, n, p, c);
    if c != d {
      var s' := Collapsed(s, p, c);
      var q' := Heir(q, p, c);
      StillReducible(s, exits, q, d, p, c);
      AnyStep(s', exits, t, n - 1, q', d);
      Diamond(s, exits, p, c, q, d);
      assert Begins(Collapsed(s, q, d), exits, t, n - 1, Heir(p, q, d), c);
    } else {
      assert p == q;
    }
  }

  /** What is left in the end, and the number of collapses, do not depend on the pairs picked. */
  lemma {:induction false} Confluent(s: Shape, exits: set<nat>, t: Shape, n: nat, u: Shape, m: nat)
    requires Reduces(s, exits, t, n) && Irreducible(t, exits) && Reduces(s, exits, u, m) && Irreducible(u, exits)
    ensures t == u && n == m
    decreases m
  {
    if m > 0 {
      var q, d :| Begins(s, exits, u, m, q, d);
      AnyStep(s, exits, t, n, q, d);
      Confluent(Collapsed(s, q, d), exits, t, n - 1, u, m - 1);
    }
  }

  lemma {:induction false} OneMoreStep(s: Shape, exits: set<nat>, t: Shape, n: nat, p: nat, c: nat)
    requires Reduces(s, exits, t, n) && Reducible(t, exits, p, c)
    ensures Reduces(s, exits, Collapsed(t, p, c), n + 1)
    decreases n
  {
    if n == 0 {
      assert Reduces(Collapsed(s, p, c), exits, Collapsed(t, p, c), 0);
      assert Begins(s, exits, Collapsed(t, p, c), 1, p, c);
    } else {
      var q, d :| Begins(s, exits, t, n, q, d);
      OneMoreStep(Collapsed(s, q, d), exits, t, n - 1, p, c);
      assert Begins(s, exits, Collapsed(t, p, c), n + 1, q, d);
    }
  }

  ghost predicate CanReduce(s: Shape, exits: set<nat>, t: Shape) {
    exists n: nat :: Reduces(s, exits, t, n)
  }

  /** Whether one shape is left in the end depends on whether it can be left, for one that is irreducible. */
  lemma LeftIfPossible(s: Shape, exits: set<nat>, t: Shape, u: Shape)
    requires CanReduce(s, exits, t) && Irreducible(t, exits) && Irreducible(u, exits)
    ensures t == u <==> CanReduce(s, exits, u)
  {
    if CanReduce(s, exits, u) {
      var n: nat :| Reduces(s, exits, t, n);
      var m: nat :| Reduces(s, exits, u, m);
      Confluent(s, exits, t, n, u, m);
    }
  }

  lemma CanReduceOnce(s: Shape, exits: set<nat>, t: Shape, p: nat, c: nat)
    requires CanReduce(s, exits, t) && Reducible(t, exits, p, c)
    ensures CanReduce(s, exits, Collapsed(t, p, c))
  {
    var n: nat :| Reduces(s, exits, t, n);
    OneMoreStep(s, exits, t, n, p, c);
  }

  // ----- chains that join -----

  ghost predicate Distinct(chain: seq<nat>) {
    forall i, j :: 0 <= i < j < |chain| ==> chain[i] != chain[j]
  }

  /** Every node but the last goes to the next one or out, and the last one out or to somewhere else. */
  ghost predicate BranchesOut(s: Shape, exits: set<nat>, chain: seq<nat>, out: nat, last: Ends) {
    && chain != [] && Distinct(chain) && (forall x :: x in s <==> x in chain) && (forall x :: x in chain ==> x !in exits)
    && out !in chain && EndsAt(last, out) && Other(last, out) !in chain
    && s[chain[|chain| - 1]] == last
    && forall i :: 0 <= i < |chain| - 1 ==> s[chain[i]] == EndsOf(out, chain[i + 1])
  }

  lemma LastIsReducible(s: Shape, exits: set<nat>, chain: seq<nat>, out: nat, last: Ends)
    requires BranchesOut(s, exits, chain, out, last) && |chain| > 1
    ensures Reducible(s, exits, chain[|chain| - 2], chain[|chain| - 1])
  {
    var p, c := chain[|chain| - 2], chain[|chain| - 1];
    assert chain[|chain| - 2 + 1] == c;
    forall x | x in s && EndsAt(s[x], c)
      ensures x == p
    {
      var i :| 0 <= i < |chain| && chain[i] == x;
      assert i < |chain| - 1 ==> s[x] == EndsOf(out, chain[i + 1]);
    }
  }

  lemma ShorterBranchesOut(s: Shape, exits: set<nat>, chain: seq<nat>, out: nat, last: Ends)
    requires BranchesOut(s, exits, chain, out, last) && |chain| > 1
    ensures var n := |chain| - 1; BranchesOut(Collapsed(s, chain[n - 1], chain[n]), exits, chain[..n], out, last)
  {
    var n := |chain| - 1;
    var t, shorter := Collapsed(s, chain[n - 1], chain[n]), chain[..n];
    ShorterDistinct(chain);
    assert forall x :: x in t <==> x in s && x != chain[n];
    assert t[shorter[n - 1]] == last;
    forall i | 0 <= i < n - 1
      ensures t[shorter[i]] == EndsOf(out, shorter[i + 1])
    {
      assert s[chain[i]] == EndsOf(out, chain[i + 1]) && chain[i] != chain[n] && chain[i] != chain[n - 1];
    }
  }

  lemma ShorterDistinct(chain: seq<nat>)
    requires chain != [] && Distinct(chain)
    ensures var n := |chain| - 1; Distinct(chain[..n]) && forall x :: x in chain[..n] <==> x in chain && x != chain[n]
  {
    var n := |chain| - 1;
    assert chain == chain[..n] + [chain[n]];
    forall x | x in chain[..n]
      ensures x != chain[n]
    {
      var i :| 0 <= i < n && chain[..n][i] == x;
      assert chain[i] != chain[n];
    }
  }

  lemma {:induction false} BranchesOutJoin(s: Shape, exits: set<nat>, chain: seq<nat>, out: nat, last: Ends)
    requires BranchesOut(s, exits, chain, out, last)
    ensures CanReduce(s, exits, map[chain[0] := last])
    decreases |chain|
  {
    if |chain| == 1 {
      assert s == map[chain[0] := last];
      assert Reduces(s, exits, s, 0);
    } else {
      var k := |chain| - 1;
      LastIsReducible(s, exits, chain, out, last);
      ShorterBranchesOut(s, exits, chain, out, last);
      BranchesOutJoin(Collapsed(s, chain[k - 1], chain[k]), exits, chain[..k], out, last);
      var n: nat :| Reduces(Collapsed(s, chain[k - 1], chain[k]), exits, map[chain[0] := last], n);
      assert Begins(s, exits, map[chain[0] := last], n + 1, chain[k - 1], chain[k]);
      assert Reduces(s, exits, map[chain[0] := last], n + 1);
    }
  }
}
