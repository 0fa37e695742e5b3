/**
 * Natural loops (the end of `compute_relations` in m2c/flow_graph.py) and the backwards
 * reachability searches used by them and by the termination and reducibility checks.
 */
module Loops {
  import opened Digraph
  import opened Dominators
  import opened Wrappers

  ghost predicate ReachesAvoiding(g: Graph, a: nat, b: nat, without: nat) {
    exists p :: PathFromTo(g, p, a, b) && without !in p
  }

  /** An edge to a node that dominates its source. */
  ghost predicate Backedge(g: Graph, entry: nat, tail: nat, head: nat) {
    tail < |g| && head < |g| && Edge(g, tail, head) && Dominates(g, entry, head, tail)
  }

  /** The natural loop of `head`: the head and whatever reaches one of its backedges without it. */
  ghost predicate InLoop(g: Graph, entry: nat, head: nat, x: nat) {
    x == head || exists tail: nat :: Backedge(g, entry, tail, head) && ReachesAvoiding(g, x, tail, head)
  }

  datatype NaturalLoop = NaturalLoop(nodes: set<nat>, backedges: set<nat>)

  /** A record that claims no more than the loop of `head`. */
  ghost predicate PartOfLoop(g: Graph, entry: nat, head: nat, loop: Option<NaturalLoop>) {
    loop.Some? ==>
      && (exists tail: nat :: Backedge(g, entry, tail, head))
      && (forall x :: x in loop.value.nodes ==> InLoop(g, entry, head, x))
      && (forall t :: t in loop.value.backedges ==> Backedge(g, entry, t, head))
  }

  ghost predicate ExactLoop(g: Graph, entry: nat, head: nat, loop: Option<NaturalLoop>) {
    && PartOfLoop(g, entry, head, loop)
    && (loop.None? ==> forall tail: nat :: !Backedge(g, entry, tail, head))
    && (loop.Some? ==> forall t: nat :: Backedge(g, entry, t, head) ==> t in loop.value.backedges)
    && (loop.Some? ==> forall x: nat :: InLoop(g, entry, head, x) ==> x in loop.value.nodes)
  }

  ghost predicate ExactLoops(g: Graph, entry: nat, loops: seq<Option<NaturalLoop>>) {
    |loops| == |g| && forall h: nat :: h < |g| ==> ExactLoop(g, entry, h, loops[h])
  }

  ghost predicate PartialLoops(g: Graph, entry: nat, loops: seq<Option<NaturalLoop>>) {
    |loops| == |g| && forall h: nat :: h < |g| ==> PartOfLoop(g, entry, h, loops[h])
  }

  /** Every loop node that can be reached at all is dominated by the head. */
  lemma LoopDominatedByHead(g: Graph, entry: nat, head: nat, x: nat)
    requires InLoop(g, entry, head, x)
    ensures Dominates(g, entry, head, x)
  {
    if x == head {
      DominatesSelf(g, entry, head);
    } else {
      var tail: nat :| Backedge(g, entry, tail, head) && ReachesAvoiding(g, x, tail, head);
      var q :| PathFromTo(g, q, x, tail) && head !in q;
      forall p | PathFromTo(g, p, entry, x)
        ensures head in p
      {
        PathJoin(g, p, q);
        assert head in p + q[1..];
      }
    }
  }

  // ----- backwards search -----

  lemma {:induction false} ClosedUnderParents(g: Graph, par: Graph, found: set<nat>, without: nat, p: seq<nat>, a: nat, b: nat)
    requires Reversed(g, par) && PathFromTo(g, p, a, b) && without !in p && b in found
    requires forall y, u :: y in found && y < |g| && u in par[y] && u != without ==> u in found
    ensures a in found
    decreases |p|
  {
    if |p| > 1 {
      var u := p[|p| - 2];
      assert p[|p| - 2 + 1] in g[p[|p| - 2]];
      assert u in par[b] && u in p;
      PathPrefix(g, p, |p| - 2);
      ClosedUnderParents(g, par, found, without, p[..|p| - 1], a, u);
    } else {
      assert a == b;
    }
  }

  function Elements(s: seq<nat>): (r: set<nat>)
    ensures forall x: nat :: x in r <==> x in s
  {
    set x | x in s
  }

  /** Where a backwards search stands: what it found is right, and nothing it passed is lost. */
  ghost predicate SearchState(g: Graph, par: Graph, end: nat, without: nat, found: set<nat>, pending: set<nat>)
    requires |par| == |g|
  {
    && (forall x: nat :: x in pending && x != without ==> ReachesAvoiding(g, x, end, without))
    && (forall x: nat :: x in pending ==> x < |g|)
    && (forall x: nat :: x in found ==> x < |g| && x != without && ReachesAvoiding(g, x, end, without))
    && (end == without || end in found || end in pending)
    && (forall y: nat, u: nat :: y in found && y < |g| && u in par[y] && u != without ==> u in found || u in pending)
  }

  lemma SearchVisit(g: Graph, par: Graph, end: nat, without: nat, found: set<nat>, pending: set<nat>, node: nat)
    requires Reversed(g, par) && Wf(par)
    requires SearchState(g, par, end, without, found, pending + {node})
    requires node != without
    ensures node < |g|
    ensures SearchState(g, par, end, without, found + {node}, pending + Elements(par[node]))
  {
    assert node in pending + {node};
    forall u: nat | u in par[node] && u != without
      ensures ReachesAvoiding(g, u, end, without)
    {
      var p :| PathFromTo(g, p, node, end) && without !in p;
      assert PathFromTo(g, [u, node], u, node);
      PathJoin(g, [u, node], p);
      assert without !in [u, node] + p[1..];
    }
    assert forall u: nat :: u in par[node] ==> u < |g|;
  }

  lemma SearchSkip(g: Graph, par: Graph, end: nat, without: nat, found: set<nat>, pending: set<nat>, node: nat)
    requires |par| == |g| && SearchState(g, par, end, without, found, pending + {node})
    requires node == without || node in found
    ensures SearchState(g, par, end, without, found, pending)
  {
  }

  lemma SearchStart(g: Graph, par: Graph, end: nat, without: nat)
    requires |par| == |g| && end < |g|
    ensures SearchState(g, par, end, without, {}, {end})
  {
    assert PathFromTo(g, [end], end, end);
  }

  lemma SearchDone(g: Graph, par: Graph, end: nat, without: nat, found: set<nat>)
    requires Reversed(g, par) && SearchState(g, par, end, without, found, {})
    ensures forall x: nat :: x in found <==> ReachesAvoiding(g, x, end, without)
  {
    forall x: nat | ReachesAvoiding(g, x, end, without)
      ensures x in found
    {
      var p :| PathFromTo(g, p, x, end) && without !in p;
      assert p[|p| - 1] in p;
      ClosedUnderParents(g, par, found, without, p, x, end);
    }
  }

  /** The nodes that reach `end` when `without` is taken out. */
  method InvReachableWithout(ghost g: Graph, par: Graph, end: nat, without: nat) returns (reachable: set<nat>)
    requires Reversed(g, par) && Wf(par) && end < |g|
    ensures forall x: nat :: x in reachable <==> ReachesAvoiding(g, x, end, without)
  {
    reachable := {};
    var stack: seq<nat> := [end];
    SearchStart(g, par, end, without);
    assert Elements(stack) == {end};
    while stack != []
      invariant SearchState(g, par, end, without, reachable, Elements(stack))
      decreases |NodesBelow(|g|) - reachable|, |stack|
    {
      var node: nat := stack[|stack| - 1];
      ghost var before := stack;
      stack := stack[..|stack| - 1];
      assert before == stack + [node];
      assert Elements(before) == Elements(stack) + {node};
      if node == without || node in reachable {
        SearchSkip(g, par, end, without, reachable, Elements(stack), node);
        continue;
      }
      SearchVisit(g, par, end, without, reachable, Elements(stack), node);
      LeftToSee(reachable, node, |g|);
      reachable := reachable + {node};
      assert Elements(stack + par[node]) == Elements(stack) + Elements(par[node]);
      stack := stack + par[node];
    }
    assert Elements(stack) == {};
    SearchDone(g, par, end, without, reachable);
  }

  /** Nothing is avoided by avoiding a node that does not exist. */
  lemma AvoidingNothing(g: Graph, a: nat, b: nat)
    ensures ReachesAvoiding(g, a, b, |g|) <==> Reaches(g, a, b)
  {
    if Reaches(g, a, b) {
      var p :| PathFromTo(g, p, a, b);
      assert |g| !in p;
    }
  }

  /** The nodes that reach `end`, by the queue search the termination and reducibility checks use. */
  method InvReachable(ghost g: Graph, par: Graph, end: nat) returns (seen: set<nat>)
    requires Reversed(g, par) && Wf(par) && end < |g|
    ensures forall x: nat :: x in seen <==> Reaches(g, x, end)
  {
    seen := {};
    var queue: set<nat> := {end};
    SearchStart(g, par, end, |g|);
    while queue != {}
      invariant SearchState(g, par, end, |g|, seen, queue) && seen !! queue
      decreases |NodesBelow(|g|) - seen|
    {
      var n: nat :| n in queue;
      ghost var before := queue;
      queue := queue - {n};
      assert before == queue + {n};
      SearchVisit(g, par, end, |g|, seen, queue, n);
      LeftToSee(seen, n, |g|);
      seen := seen + {n};
      SearchForget(g, par, end, |g|, seen, queue, Elements(par[n]));
      queue := queue + (Elements(par[n]) - seen);
    }
    SearchDone(g, par, end, |g|, seen);
    forall x: nat
      ensures x in seen <==> Reaches(g, x, end)
    {
      AvoidingNothing(g, x, end);
    }
  }

  /** What was found need not be queued again. */
  lemma SearchForget(g: Graph, par: Graph, end: nat, without: nat, found: set<nat>, pending: set<nat>, more: set<nat>)
    requires |par| == |g| && SearchState(g, par, end, without, found, pending + more)
    ensures SearchState(g, par, end, without, found, pending + (more - found))
  {
  }

  // ----- collecting the loops -----

  function WithBackedge(loop: Option<NaturalLoop>, head: nat, tail: nat, body: set<nat>): NaturalLoop {
    var was := if loop.Some? then loop.value else NaturalLoop({}, {});
    NaturalLoop(was.nodes + {head, tail} + body, was.backedges + {tail})
  }

  /** The backedges of the child-list prefix `k` of nodes up to `u` are in the records. */
  ghost predicate Collected(g: Graph, entry: nat, loops: seq<Option<NaturalLoop>>, tail: nat, head: nat) {
    && head < |loops| && loops[head].Some?
    && tail in loops[head].value.backedges && head in loops[head].value.nodes
    && forall x: nat :: ReachesAvoiding(g, x, tail, head) ==> x in loops[head].value.nodes
  }

  /** Adds one backedge to its head's loop. */
  method AddBackedge(ghost g: Graph, par: Graph, ghost entry: nat, loops: seq<Option<NaturalLoop>>, tail: nat, head: nat)
    returns (loops': seq<Option<NaturalLoop>>)
    requires Reversed(g, par) && Wf(par) && PartialLoops(g, entry, loops)
    requires Backedge(g, entry, tail, head)
    ensures PartialLoops(g, entry, loops')
    ensures Collected(g, entry, loops', tail, head)
    ensures forall t: nat, h: nat :: Collected(g, entry, loops, t, h) ==> Collected(g, entry, loops', t, h)
  {
    var body := InvReachableWithout(g, par, tail, head);
    loops' := loops[head := Some(WithBackedge(loops[head], head, tail, body))];
    if tail != head {
      assert PathFromTo(g, [tail], tail, tail);
      assert head !in [tail];
    }
    forall h: nat | h < |g|
      ensures PartOfLoop(g, entry, h, loops'[h])
    {
      assert PartOfLoop(g, entry, h, loops[h]);
    }
  }

  /** Visits every edge and collects the backedges, on top of whatever earlier visits recorded. */
  method CollectLoops(g: Graph, par: Graph, ghost entry: nat, dominators: seq<set<nat>>, loops: seq<Option<NaturalLoop>>)
    returns (loops': seq<Option<NaturalLoop>>)
    requires Wf(g) && Reversed(g, par) && Wf(par) && DominatorSets(g, entry, dominators)
    requires PartialLoops(g, entry, loops)
    ensures ExactLoops(g, entry, loops')
  {
    loops' := loops;
    for u := 0 to |g|
      invariant PartialLoops(g, entry, loops')
      invariant forall t: nat, h: nat :: t < u && Backedge(g, entry, t, h) ==> Collected(g, entry, loops', t, h)
    {
      for k := 0 to |g[u]|
        invariant PartialLoops(g, entry, loops')
        invariant forall t: nat, h: nat :: t < u && Backedge(g, entry, t, h) ==> Collected(g, entry, loops', t, h)
        invariant forall h: nat :: h in g[u][..k] && Backedge(g, entry, u, h) ==> Collected(g, entry, loops', u, h)
      {
        var child := g[u][k];
        assert child in g[u];
        assert g[u][..k + 1] == g[u][..k] + [child];
        if child !in dominators[u] {
          continue;
        }
        loops' := AddBackedge(g, par, entry, loops', u, child);
      }
      assert g[u][..|g[u]|] == g[u];
    }
    forall h: nat | h < |g|
      ensures ExactLoop(g, entry, h, loops'[h])
    {
      assert PartOfLoop(g, entry, h, loops'[h]);
      forall t: nat | Backedge(g, entry, t, h)
        ensures Collected(g, entry, loops', t, h)
      {
      }
    }
  }
}
