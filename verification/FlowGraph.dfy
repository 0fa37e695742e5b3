/**
 * The node list of m2c/flow_graph.py with its relations: `compute_relations`,
 * `terminate_infinite_loops` and `FlowGraph.is_reducible`. A node is named by its position
 * in the list, as the bitsets of the source name it.
 */
module FlowGraphs {
  import opened Digraph
  import opened Dominators
  import opened Loops
  import opened Wrappers

  datatype Node =
    | Basic(successor: nat, fakeSuccessor: Option<nat>)
    | Conditional(conditionalEdge: nat, fallthroughEdge: nat)
    | Return(terminal: nat)
    | Switch(cases: seq<nat>)
    | Terminal

  /** First occurrences, in order. */
  function Dedup(s: seq<nat>): (r: seq<nat>)
    ensures forall x :: x in r <==> x in s
    ensures forall i, j :: 0 <= i < j < |r| ==> r[i] != r[j]
  {
    if s == [] then []
    else
      var init := s[..|s| - 1];
      assert s == init + [s[|s| - 1]];
      var r := Dedup(init);
      if s[|s| - 1] in r then r else r + [s[|s| - 1]]
  }

  /** Control can go from the node to `v`, or is said to. */
  predicate GoesTo(node: Node, v: nat) {
    || (node.Basic? && (v == node.successor || node.fakeSuccessor == Some(v)))
    || (node.Conditional? && (v == node.conditionalEdge || v == node.fallthroughEdge))
    || (node.Return? && v == node.terminal)
    || (node.Switch? && v in node.cases)
  }

  function Children(node: Node): seq<nat> {
    match node
    case Basic(succ, Some(fake)) => [succ, fake]
    case Basic(succ, None) => [succ]
    case Conditional(a, b) => if a == b then [a] else [a, b]
    case Return(t) => [t]
    case Switch(cases) => Dedup(cases)
    case Terminal => []
  }

  lemma ChildrenAre(node: Node, v: nat)
    ensures v in Children(node) <==> GoesTo(node, v)
  {
  }

  function ChildLists(nodes: seq<Node>): (g: Graph)
    ensures |g| == |nodes|
  {
    seq(|nodes|, i requires 0 <= i < |nodes| => Children(nodes[i]))
  }

  /** What `build_nodes` delivers: edges stay in the list, whose last node is the terminal. */
  ghost predicate WfNodes(nodes: seq<Node>) {
    && |nodes| > 0
    && nodes[|nodes| - 1] == Terminal
    && (forall i :: 0 <= i < |nodes| - 1 ==> nodes[i] != Terminal)
    && (forall i, v: nat :: 0 <= i < |nodes| && GoesTo(nodes[i], v) ==> v < |nodes|)
    && (forall i :: 0 <= i < |nodes| && nodes[i].Basic? && nodes[i].fakeSuccessor.Some? ==>
         nodes[i].fakeSuccessor.value == |nodes| - 1 && nodes[i].successor != |nodes| - 1)
  }

  /** A list with no repetitions. */
  predicate Distinct(s: seq<nat>) {
    forall i, j :: 0 <= i < j < |s| ==> s[i] != s[j]
  }

  lemma ChildrenDistinct(nodes: seq<Node>, i: nat)
    requires WfNodes(nodes) && i < |nodes|
    ensures Distinct(Children(nodes[i]))
  {
  }

  lemma AllChildrenDistinct(nodes: seq<Node>)
    requires WfNodes(nodes)
    ensures forall v: nat :: v < |nodes| ==> Distinct(ChildLists(nodes)[v])
  {
    forall v: nat | v < |nodes|
      ensures Distinct(ChildLists(nodes)[v])
    {
      ChildrenDistinct(nodes, v);
    }
  }

  /** The graph has exactly the edges that the fields of the nodes say, each once. */
  ghost predicate Draws(g: Graph, nodes: seq<Node>) {
    && |g| == |nodes|
    && (forall u: nat, v: nat :: Edge(g, u, v) <==> u < |nodes| && GoesTo(nodes[u], v))
    && (forall u: nat :: u < |g| ==> Distinct(g[u]))
  }

  lemma EdgesDrawn(nodes: seq<Node>)
    requires WfNodes(nodes)
    ensures Draws(ChildLists(nodes), nodes)
  {
    AllChildrenDistinct(nodes);
    var g := ChildLists(nodes);
    forall u: nat, v: nat
      ensures Edge(g, u, v) <==> u < |nodes| && GoesTo(nodes[u], v)
    {
      if u < |nodes| {
        ChildrenAre(nodes[u], v);
      }
    }
  }

  method ComputeParents(g: Graph) returns (par: Graph)
    requires Wf(g)
    ensures Reversed(g, par) && Wf(par)
  {
    par := seq(|g|, i => []);
    for u := 0 to |g|
      invariant |par| == |g| && Wf(par)
      invariant forall v: nat, w: nat :: v < |g| ==> (w in par[v] <==> w < u && v in g[w])
    {
      for k := 0 to |g[u]|
        invariant |par| == |g| && Wf(par)
        invariant forall v: nat, w: nat :: v < |g| ==> (w in par[v] <==> (w < u && v in g[w]) || (w == u && v in g[u][..k]))
      {
        var child := g[u][k];
        assert child in g[u];
        assert g[u][..k + 1] == g[u][..k] + [child];
        par := par[child := par[child] + [u]];
      }
      assert g[u][..|g[u]|] == g[u];
    }
  }

  // ----- a fake edge into the terminal -----

  /** `g'` is `g` with one more edge, from `u` to the childless node `t`. */
  ghost predicate EdgeAdded(g: Graph, g': Graph, u: nat, t: nat) {
    && |g| == |g'| && u < |g| && t < |g| && u != t && g[t] == []
    && g' == g[u := g[u] + [t]]
  }

  /** Paths that do not end in the childless node cannot use the new edge. */
  lemma SamePaths(g: Graph, g': Graph, u: nat, t: nat, p: seq<nat>, a: nat, b: nat)
    requires EdgeAdded(g, g', u, t) && b != t
    ensures PathFromTo(g, p, a, b) <==> PathFromTo(g', p, a, b)
  {
    if PathFromTo(g', p, a, b) {
      forall i | 0 <= i < |p| - 1
        ensures p[i + 1] in g[p[i]]
      {
        assert i + 1 < |p| - 1 ==> p[i + 1 + 1] in g'[p[i + 1]];
      }
    }
  }

  lemma SameDominators(g: Graph, g': Graph, u: nat, t: nat, entry: nat, d: nat, v: nat)
    requires EdgeAdded(g, g', u, t) && v != t
    ensures Dominates(g, entry, d, v) <==> Dominates(g', entry, d, v)
  {
    forall p
      ensures PathFromTo(g, p, entry, v) <==> PathFromTo(g', p, entry, v)
    {
      SamePaths(g, g', u, t, p, entry, v);
    }
  }

  lemma SameAvoiding(g: Graph, g': Graph, u: nat, t: nat, x: nat, v: nat, without: nat)
    requires EdgeAdded(g, g', u, t) && v != t
    ensures ReachesAvoiding(g, x, v, without) <==> ReachesAvoiding(g', x, v, without)
  {
    forall p
      ensures PathFromTo(g, p, x, v) <==> PathFromTo(g', p, x, v)
    {
      SamePaths(g, g', u, t, p, x, v);
    }
  }

  lemma SameBackedges(g: Graph, g': Graph, u: nat, t: nat, entry: nat, tail: nat, head: nat)
    requires EdgeAdded(g, g', u, t)
    ensures Backedge(g, entry, tail, head) ==> Backedge(g', entry, tail, head)
    ensures head != t && Backedge(g', entry, tail, head) ==> Backedge(g, entry, tail, head)
    ensures Backedge(g', entry, tail, head) ==> tail != t
  {
    if tail != t {
      SameDominators(g, g', u, t, entry, head, tail);
    }
  }

  lemma SameLoop(g: Graph, g': Graph, u: nat, t: nat, entry: nat, head: nat, x: nat)
    requires EdgeAdded(g, g', u, t)
    ensures InLoop(g, entry, head, x) ==> InLoop(g', entry, head, x)
    ensures head != t && InLoop(g', entry, head, x) ==> InLoop(g, entry, head, x)
  {
    forall tail: nat
      ensures Backedge(g, entry, tail, head) ==> Backedge(g', entry, tail, head)
      ensures head != t && Backedge(g', entry, tail, head) ==> Backedge(g, entry, tail, head)
      ensures Backedge(g', entry, tail, head) ==> (ReachesAvoiding(g, x, tail, head) <==> ReachesAvoiding(g', x, tail, head))
    {
      SameBackedges(g, g', u, t, entry, tail, head);
      if tail != t {
        SameAvoiding(g, g', u, t, x, tail, head);
      }
    }
  }

  /** Loop records of the old graph stay right, and complete except at the childless node. */
  lemma LoopsSurvive(g: Graph, g': Graph, u: nat, t: nat, entry: nat, loops: seq<Option<NaturalLoop>>)
    requires EdgeAdded(g, g', u, t) && ExactLoops(g, entry, loops)
    ensures PartialLoops(g', entry, loops)
    ensures forall h: nat :: h < |g| && h != t ==> ExactLoop(g', entry, h, loops[h])
  {
    forall h: nat | h < |g|
      ensures PartOfLoop(g', entry, h, loops[h])
      ensures h != t ==> ExactLoop(g', entry, h, loops[h])
    {
      forall x: nat
        ensures InLoop(g, entry, h, x) ==> InLoop(g', entry, h, x)
        ensures h != t && InLoop(g', entry, h, x) ==> InLoop(g, entry, h, x)
      {
        SameLoop(g, g', u, t, entry, h, x);
      }
      forall tail: nat
        ensures Backedge(g, entry, tail, h) ==> Backedge(g', entry, tail, h)
        ensures h != t && Backedge(g', entry, tail, h) ==> Backedge(g, entry, tail, h)
      {
        SameBackedges(g, g', u, t, entry, tail, h);
      }
      assert ExactLoop(g, entry, h, loops[h]);
    }
  }

  /** There is only one exact record of a loop. */
  lemma ExactLoopUnique(g: Graph, entry: nat, h: nat, a: Option<NaturalLoop>, b: Option<NaturalLoop>)
    requires ExactLoop(g, entry, h, a) && ExactLoop(g, entry, h, b)
    ensures a == b
  {
    if a.Some? {
      assert a.value.nodes == b.value.nodes;
      assert a.value.backedges == b.value.backedges;
    }
  }

  // ----- forward edges and cycles -----

  /** An edge that is not a backedge. */
  ghost predicate Forward(g: Graph, entry: nat, u: nat, v: nat) {
    u < |g| && v < |g| && Edge(g, u, v) && !Dominates(g, entry, v, u)
  }

  ghost predicate ForwardWalk(g: Graph, entry: nat, p: seq<nat>) {
    forall i :: 0 <= i < |p| - 1 ==> Forward(g, entry, p[i], p[i + 1])
  }

  /** With all backedges removed, no walk returns to its start. */
  ghost predicate ForwardAcyclic(g: Graph, entry: nat) {
    forall p :: |p| > 1 && ForwardWalk(g, entry, p) ==> p[0] != p[|p| - 1]
  }

  ghost predicate Reducible(g: Graph, entry: nat, exit: nat) {
    && ForwardAcyclic(g, entry)
    && AllReachable(g, entry)
    && forall v :: 0 <= v < |g| ==> Reaches(g, v, exit)
  }

  lemma {:induction false} Repetition(p: seq<nat>, s: set<nat>) returns (i: nat, j: nat)
    requires |p| > |s| && forall x :: x in p ==> x in s
    ensures i < j < |p| && p[i] == p[j]
    decreases |s|
  {
    var last := p[|p| - 1];
    var init := p[..|p| - 1];
    if last in init {
      j := |p| - 1;
      i :| 0 <= i < |init| && init[i] == last;
    } else {
      forall x | x in init
        ensures x in s - {last}
      {
        assert x in p;
      }
      assert last in s;
      i, j := Repetition(init, s - {last});
    }
  }

  ghost predicate HasParentIn(g: Graph, entry: nat, s: set<nat>, v: nat) {
    exists u :: u in s && Forward(g, entry, u, v)
  }

  ghost predicate NoSource(g: Graph, entry: nat, s: set<nat>) {
    forall x {:trigger HasParentIn(g, entry, s, x)} :: x in s ==> HasParentIn(g, entry, s, x)
  }

  /** Walks backwards inside `s` for `k` steps. */
  lemma {:induction false} WalkInto(g: Graph, entry: nat, s: set<nat>, k: nat) returns (p: seq<nat>)
    requires s != {} && NoSource(g, entry, s)
    ensures |p| == k + 1 && ForwardWalk(g, entry, p) && forall x :: x in p ==> x in s
  {
    if k == 0 {
      var v :| v in s;
      p := [v];
    } else {
      var q := WalkInto(g, entry, s, k - 1);
      assert q[0] in q;
      assert HasParentIn(g, entry, s, q[0]);
      var w :| w in s && Forward(g, entry, w, q[0]);
      p := [w] + q;
    }
  }

  /** If every node of a nonempty set has a forward parent in the set, there is a forward cycle. */
  lemma NoSourceMeansCycle(g: Graph, entry: nat, s: set<nat>)
    requires s != {} && NoSource(g, entry, s)
    ensures !ForwardAcyclic(g, entry)
  {
    var p := WalkInto(g, entry, s, |s|);
    var i, j := Repetition(p, s);
    var c := p[i..j + 1];
    assert |c| > 1 && ForwardWalk(g, entry, c) && c[0] == c[|c| - 1];
  }

  /** A reachable node other than the entry is entered by some edge that is not a backedge. */
  lemma HasForwardParent(g: Graph, entry: nat, v: nat)
    requires v != entry && Reaches(g, entry, v)
    ensures exists u: nat :: Forward(g, entry, u, v)
  {
    var p0 :| PathFromTo(g, p0, entry, v);
    var p := SimpleArrival(g, p0, entry, v);
    var u := p[|p| - 2];
    assert p[|p| - 2 + 1] in g[p[|p| - 2]];
    PathPrefix(g, p, |p| - 2);
    assert v !in p[..|p| - 1];
    assert Forward(g, entry, u, v);
  }

  // ----- Kahn's algorithm on the forward edges -----

  /** The tails of the forward edges into each node. */
  ghost predicate ForwardParents(g: Graph, entry: nat, original: seq<set<nat>>) {
    && |original| == |g|
    && forall v: nat, u: nat :: v < |g| ==> (u in original[v] <==> Forward(g, entry, u, v))
  }

  /** Where the topological sort stands after the nodes of `seen` were popped. */
  ghost predicate SortState(g: Graph, entry: nat, original: seq<set<nat>>, seen: set<nat>, queue: set<nat>)
    requires |original| == |g|
  {
    && seen !! queue
    && (forall v: nat :: v in seen || v in queue ==> v < |g| && Reaches(g, entry, v) && original[v] <= seen)
    && (entry in seen || entry in queue)
    && (forall v: nat :: v < |g| && v !in seen && v !in queue ==> original[v] == {} || !(original[v] <= seen))
  }

  /** Popped nodes are numbered in the order of popping, after their forward parents. */
  ghost predicate Ranked(g: Graph, original: seq<set<nat>>, seen: set<nat>, rank: map<nat, nat>)
    requires |original| == |g|
  {
    && rank.Keys == seen
    && (forall v: nat :: v in seen ==> v < |g| && rank[v] < |seen|)
    && (forall v: nat, u: nat :: v in seen && u in original[v] ==> u in rank && rank[u] < rank[v])
  }

  lemma RankStep(g: Graph, original: seq<set<nat>>, seen: set<nat>, rank: map<nat, nat>, n: nat)
    requires |original| == |g| && n < |g| && n !in seen && original[n] <= seen
    requires Ranked(g, original, seen, rank)
    ensures Ranked(g, original, seen + {n}, rank[n := |seen|])
  {
    assert |seen + {n}| == |seen| + 1;
    var rank' := rank[n := |seen|];
    forall v: nat, u: nat | v in seen + {n} && u in original[v]
      ensures u in rank' && rank'[u] < rank'[v]
    {
      if v == n {
        assert u in seen && u != n;
      } else {
        assert u in rank && u != n;
      }
    }
  }

  lemma SortStart(g: Graph, entry: nat, original: seq<set<nat>>)
    requires entry < |g| && ForwardParents(g, entry, original)
    ensures SortState(g, entry, original, {}, {entry})
  {
    ReachesSelf(g, entry);
    forall u: nat
      ensures !Forward(g, entry, u, entry)
    {
      EntryDominates(g, entry, u);
    }
  }

  /** The nodes that become free once `n` has been popped. */
  ghost predicate Freed(g: Graph, original: seq<set<nat>>, seen: set<nat>, n: nat, freed: set<nat>)
    requires |original| == |g|
  {
    forall v: nat :: v in freed <==> v < |g| && n in original[v] && original[v] <= seen + {n}
  }

  lemma SortStep(g: Graph, entry: nat, original: seq<set<nat>>, seen: set<nat>, queue: set<nat>, n: nat, freed: set<nat>)
    requires ForwardParents(g, entry, original)
    requires SortState(g, entry, original, seen, queue + {n}) && n !in queue
    requires Freed(g, original, seen, n, freed)
    ensures n < |g| && n !in seen && original[n] <= seen
    ensures SortState(g, entry, original, seen + {n}, queue + freed)
  {
    assert n in queue + {n};
    forall v: nat | v in freed
      ensures v !in seen && v != n && v !in queue && Reaches(g, entry, v)
    {
      assert n in original[v] && n !in seen;
      ReachesStep(g, entry, n, v);
      DominatesSelf(g, entry, n);
    }
  }

  /** Ranks that grow along forward edges rule out forward cycles. */
  lemma {:induction false} RanksGrow(g: Graph, entry: nat, original: seq<set<nat>>, rank: map<nat, nat>, p: seq<nat>)
    requires ForwardParents(g, entry, original)
    requires forall v: nat, u: nat :: v < |g| && u in original[v] ==> u in rank && v in rank && rank[u] < rank[v]
    requires |p| > 1 && ForwardWalk(g, entry, p)
    ensures p[0] in rank && p[|p| - 1] in rank && rank[p[0]] < rank[p[|p| - 1]]
  {
    assert Forward(g, entry, p[0], p[1]);
    assert p[0] in original[p[1]];
    if |p| > 2 {
      var q := p[1..];
      forall i | 0 <= i < |q| - 1
        ensures Forward(g, entry, q[i], q[i + 1])
      {
        assert Forward(g, entry, p[i + 1], p[i + 1 + 1]);
      }
      RanksGrow(g, entry, original, rank, q);
    }
  }

  /** The sort swallows the whole graph exactly when the forward edges are acyclic and everything is reachable. */
  lemma SortDone(g: Graph, entry: nat, original: seq<set<nat>>, seen: set<nat>, rank: map<nat, nat>)
    requires ForwardParents(g, entry, original)
    requires SortState(g, entry, original, seen, {}) && Ranked(g, original, seen, rank)
    ensures (forall v: nat :: v < |g| ==> v in seen) <==> ForwardAcyclic(g, entry) && AllReachable(g, entry)
  {
    if forall v: nat :: v < |g| ==> v in seen {
      forall p | |p| > 1 && ForwardWalk(g, entry, p)
        ensures p[0] != p[|p| - 1]
      {
        RanksGrow(g, entry, original, rank, p);
      }
    } else if AllReachable(g, entry) {
      var rest := NodesBelow(|g|) - seen;
      forall v | v in rest
        ensures HasParentIn(g, entry, rest, v)
      {
        HasForwardParent(g, entry, v);
        var w: nat :| Forward(g, entry, w, v);
        assert w in original[v];
        var u: nat :| u in original[v] && u !in seen;
        assert Forward(g, entry, u, v);
      }
      var v: nat :| v < |g| && v !in seen;
      assert v in rest;
      NoSourceMeansCycle(g, entry, rest);
    }
  }

  ghost predicate Remaining(g: Graph, original: seq<set<nat>>, seen: set<nat>, incoming: seq<set<nat>>) {
    |incoming| == |original| == |g| && forall v: nat :: v < |g| ==> incoming[v] == original[v] - seen
  }

  ghost predicate Sorting(g: Graph, entry: nat, original: seq<set<nat>>, seen: set<nat>, queue: set<nat>, rank: map<nat, nat>)
    requires |original| == |g|
  {
    SortState(g, entry, original, seen, queue) && Ranked(g, original, seen, rank)
  }

  lemma SortingStep(g: Graph, entry: nat, original: seq<set<nat>>, seen: set<nat>, queue: set<nat>, rank: map<nat, nat>,
                    n: nat, freed: set<nat>)
    requires ForwardParents(g, entry, original)
    requires Sorting(g, entry, original, seen, queue + {n}, rank) && n !in queue
    requires Freed(g, original, seen, n, freed)
    ensures Sorting(g, entry, original, seen + {n}, queue + freed, rank[n := |seen|])
    ensures |NodesBelow(|g|) - (seen + {n})| < |NodesBelow(|g|) - seen|
  {
    SortStep(g, entry, original, seen, queue, n, freed);
    RankStep(g, original, seen, rank, n);
    LeftToSee(seen, n, |g|);
  }

  /** `set(n.parents)` without the backedges recorded for `n`. */
  method IncomingEdges(g: Graph, par: Graph, ghost entry: nat, loops: seq<Option<NaturalLoop>>)
    returns (incoming: seq<set<nat>>)
    requires Wf(par) && Reversed(g, par) && ExactLoops(g, entry, loops)
    ensures ForwardParents(g, entry, incoming)
  {
    incoming := [];
    for v := 0 to |g|
      invariant |incoming| == v
      invariant forall w: nat, u: nat :: w < v ==> (u in incoming[w] <==> Forward(g, entry, u, w))
    {
      var backedges := if loops[v].Some? then loops[v].value.backedges else {};
      assert ExactLoop(g, entry, v, loops[v]);
      assert forall u: nat :: u in backedges <==> Backedge(g, entry, u, v);
      incoming := incoming + [(set u | u in par[v]) - backedges];
    }
  }

  /** Takes the edges out of `n` away, and collects the nodes that have no other incoming edge left. */
  method RemoveEdges(g: Graph, ghost entry: nat, loops: seq<Option<NaturalLoop>>, ghost original: seq<set<nat>>,
                     incoming: seq<set<nat>>, ghost seen: set<nat>, n: nat)
    returns (incoming': seq<set<nat>>, freed: set<nat>)
    requires Wf(g) && ExactLoops(g, entry, loops) && ForwardParents(g, entry, original)
    requires n < |g| && Distinct(g[n]) && n !in seen
    requires Remaining(g, original, seen, incoming)
    ensures Remaining(g, original, seen + {n}, incoming')
    ensures Freed(g, original, seen, n, freed)
  {
    incoming', freed := incoming, {};
    for k := 0 to |g[n]|
      invariant |incoming'| == |g|
      invariant forall v: nat :: v < |g| ==>
        incoming'[v] == if v in g[n][..k] then original[v] - (seen + {n}) else original[v] - seen
      invariant forall v: nat :: v in freed <==> v < |g| && v in g[n][..k] && n in original[v] && original[v] <= seen + {n}
    {
      var s := g[n][k];
      assert s in g[n];
      assert g[n][..k + 1] == g[n][..k] + [s];
      assert s !in g[n][..k];
      assert ExactLoop(g, entry, s, loops[s]);
      assert n in original[s] <==> Forward(g, entry, n, s);
      assert Backedge(g, entry, n, s) <==> loops[s].Some? && n in loops[s].value.backedges;
      if loops[s].Some? && n in loops[s].value.backedges {
        assert Backedge(g, entry, n, s);
        continue;
      }
      // `remove` finds the edge: it has not been taken away before.
      assert n in incoming'[s];
      incoming' := incoming'[s := incoming'[s] - {n}];
      if incoming'[s] == {} {
        freed := freed + {s};
      }
    }
    assert g[n][..|g[n]|] == g[n];
    forall v: nat | v < |g| && n in original[v]
      ensures v in g[n]
    {
      assert Forward(g, entry, n, v);
    }
  }

  /** One round: `n` leaves the queue and frees some of its children. */
  method PopNode(g: Graph, ghost entry: nat, loops: seq<Option<NaturalLoop>>, ghost edges: seq<set<nat>>,
                 incoming: seq<set<nat>>, seen: set<nat>, queue: set<nat>, ghost rank: map<nat, nat>, n: nat)
    returns (incoming': seq<set<nat>>, queue': set<nat>)
    requires Wf(g) && ExactLoops(g, entry, loops) && ForwardParents(g, entry, edges)
    requires forall v: nat :: v < |g| ==> Distinct(g[v])
    requires Remaining(g, edges, seen, incoming) && Sorting(g, entry, edges, seen, queue, rank) && n in queue
    ensures Remaining(g, edges, seen + {n}, incoming')
    ensures Sorting(g, entry, edges, seen + {n}, queue', rank[n := |seen|])
    ensures |NodesBelow(|g|) - (seen + {n})| < |NodesBelow(|g|) - seen|
  {
    var rest := queue - {n};
    assert queue == rest + {n};
    assert n < |g| && n !in seen;
    var freed;
    incoming', freed := RemoveEdges(g, entry, loops, edges, incoming, seen, n);
    SortingStep(g, entry, edges, seen, rest, rank, n, freed);
    queue' := rest + freed;
  }

  lemma SortingEnds(g: Graph, entry: nat, edges: seq<set<nat>>, seen: set<nat>, rank: map<nat, nat>)
    requires ForwardParents(g, entry, edges) && Sorting(g, entry, edges, seen, {}, rank)
    ensures forall v :: v in seen ==> v < |g|
    ensures (forall v: nat :: v < |g| ==> v in seen) <==> ForwardAcyclic(g, entry) && AllReachable(g, entry)
  {
    SortDone(g, entry, edges, seen, rank);
  }

  /** Pops nodes whose incoming forward edges are all gone, in any order, until none is left. */
  method TopologicalSort(g: Graph, entry: nat, loops: seq<Option<NaturalLoop>>, edges: seq<set<nat>>)
    returns (incoming: seq<set<nat>>, seen: set<nat>)
    requires Wf(g) && entry < |g|
    requires ExactLoops(g, entry, loops) && ForwardParents(g, entry, edges)
    requires forall v: nat :: v < |g| ==> Distinct(g[v])
    ensures Remaining(g, edges, seen, incoming)
    ensures forall v :: v in seen ==> v < |g|
    ensures (forall v: nat :: v < |g| ==> v in seen) <==> ForwardAcyclic(g, entry) && AllReachable(g, entry)
  {
    incoming, seen := edges, {};
    var queue: set<nat> := {entry};
    ghost var rank: map<nat, nat> := map[];
    SortStart(g, entry, edges);
    while queue != {}
      invariant Remaining(g, edges, seen, incoming)
      invariant Sorting(g, entry, edges, seen, queue, rank)
      decreases |NodesBelow(|g|) - seen|
    {
      var n: nat :| n in queue;
      incoming, queue := PopNode(g, entry, loops, edges, incoming, seen, queue, rank, n);
      rank := rank[n := |seen|];
      seen := seen + {n};
    }
    SortingEnds(g, entry, edges, seen, rank);
  }

  method CheckReducible(g: Graph, par: Graph, entry: nat, exit: nat, loops: seq<Option<NaturalLoop>>) returns (reducible: bool)
    requires Wf(g) && Wf(par) && Reversed(g, par) && entry < |g| && exit < |g|
    requires ExactLoops(g, entry, loops)
    requires forall v: nat :: v < |g| ==> Distinct(g[v])
    ensures reducible <==> Reducible(g, entry, exit)
  {
    var edges := IncomingEdges(g, par, entry, loops);
    var incoming, seen := TopologicalSort(g, entry, loops, edges);
    CountNodes(seen, |g|);
    var k := 0;
    while k < |incoming|
      invariant k <= |incoming|
    {
      if incoming[k] != {} {
        var u :| u in incoming[k];
        assert Forward(g, entry, u, k);
        return false;
      }
      k := k + 1;
    }
    if |seen| != |g| {
      return false;
    }
    var back := InvReachable(g, par, exit);
    forall x: nat | x in back
      ensures x < |g|
    {
      var p :| PathFromTo(g, p, x, exit);
    }
    CountNodes(back, |g|);
    reducible := |back| == |g|;
  }

  /** A set of node names is complete exactly when it has as many members as there are nodes. */
  lemma CountNodes(s: set<nat>, n: nat)
    requires forall x :: x in s ==> x < n
    ensures |s| == n <==> forall v: nat :: v < n ==> v in s
  {
    var all := NodesBelow(n);
    if forall v: nat :: v < n ==> v in s {
      assert s == all;
    } else {
      assert s < all;
      ProperSubsetSmaller(s, all);
    }
  }

  // ----- the node list and its mutable relations -----

  /** The number of basic nodes without a fake edge. */
  function OpenBasics(nodes: seq<Node>): nat {
    if nodes == [] then 0
    else (if nodes[0].Basic? && nodes[0].fakeSuccessor.None? then 1 else 0) + OpenBasics(nodes[1..])
  }

  lemma {:induction false} CloseBasic(nodes: seq<Node>, i: nat, t: nat)
    requires i < |nodes| && nodes[i].Basic? && nodes[i].fakeSuccessor.None?
    ensures OpenBasics(nodes[i := nodes[i].(fakeSuccessor := Some(t))]) == OpenBasics(nodes) - 1
  {
    var nodes' := nodes[i := nodes[i].(fakeSuccessor := Some(t))];
    if i == 0 {
      assert nodes'[1..] == nodes[1..];
    } else {
      assert nodes'[1..] == nodes[1..][i - 1 := nodes[i].(fakeSuccessor := Some(t))];
      CloseBasic(nodes[1..], i - 1, t);
    }
  }

  /** `nodes'` is `nodes` with fake edges to the terminal given to some basic nodes. */
  predicate OnlyFakesAdded(nodes: seq<Node>, nodes': seq<Node>) {
    && |nodes'| == |nodes|
    && forall i :: 0 <= i < |nodes| ==>
         || nodes'[i] == nodes[i]
         || (nodes[i].Basic? && nodes[i].fakeSuccessor.None? && nodes'[i] == nodes[i].(fakeSuccessor := Some(|nodes| - 1)))
  }

  lemma FakeEdge(nodes: seq<Node>, i: nat)
    requires WfNodes(nodes) && i < |nodes| && nodes[i].Basic? && nodes[i].fakeSuccessor.None?
    requires nodes[i].successor != |nodes| - 1
    ensures var nodes' := nodes[i := nodes[i].(fakeSuccessor := Some(|nodes| - 1))];
      WfNodes(nodes') && EdgeAdded(ChildLists(nodes), ChildLists(nodes'), i, |nodes| - 1)
  {
    var t := |nodes| - 1;
    var nodes' := nodes[i := nodes[i].(fakeSuccessor := Some(t))];
    var g, g' := ChildLists(nodes), ChildLists(nodes');
    forall j | 0 <= j < |nodes|
      ensures g'[j] == g[i := g[i] + [t]][j]
    {
    }
    forall j, v: nat | 0 <= j < |nodes'| && GoesTo(nodes'[j], v)
      ensures v < |nodes'|
    {
      assert j != i ==> GoesTo(nodes[j], v);
      assert j == i ==> v == t || GoesTo(nodes[i], v);
    }
  }

  /** The reversed edges, the dominators and the dominator tree of a graph. */
  ghost predicate Relations(g: Graph, par: Graph, entry: nat, dominators: seq<set<nat>>, imdom: seq<Option<nat>>,
                            imdominates: seq<seq<nat>>) {
    && Wf(par) && Reversed(g, par)
    && DominatorSets(g, entry, dominators) && ImmediateTree(g, entry, imdom, imdominates)
  }

  class FlowGraph {
    const blockIndex: seq<int>
    var nodes: seq<Node>
    var parents: seq<seq<nat>>
    var dominators: seq<set<nat>>
    var immediateDominator: seq<Option<nat>>
    var immediatelyDominates: seq<seq<nat>>
    var postdominators: seq<set<nat>>
    var immediatePostdominator: seq<Option<nat>>
    var immediatelyPostdominates: seq<seq<nat>>
    var loops: seq<Option<NaturalLoop>>

    ghost predicate Valid()
      reads this
    {
      WfNodes(nodes) && |blockIndex| == |nodes|
    }

    function Edges(): Graph
      reads this
    {
      ChildLists(nodes)
    }

    /** Every relation field holds what its name says of the current edges. */
    ghost predicate Related()
      reads this
    {
      && Valid()
      && Relations(Edges(), parents, 0, dominators, immediateDominator, immediatelyDominates)
      && Relations(parents, Edges(), |nodes| - 1, postdominators, immediatePostdominator, immediatelyPostdominates)
      && ExactLoops(Edges(), 0, loops)
    }

    constructor (nodes: seq<Node>, blockIndex: seq<int>)
      requires WfNodes(nodes) && |blockIndex| == |nodes|
      ensures Valid() && this.nodes == nodes
      ensures PartialLoops(Edges(), 0, loops)
    {
      this.nodes, this.blockIndex := nodes, blockIndex;
      parents := [];
      dominators, immediateDominator, immediatelyDominates := [], [], [];
      postdominators, immediatePostdominator, immediatelyPostdominates := [], [], [];
      loops := seq(|nodes|, i => None);
    }

    /** Recomputes every relation. Loop records from an earlier run are added to, not cleared. */
    method ComputeRelations()
      requires Valid() && PartialLoops(Edges(), 0, loops)
      modifies this
      ensures Related() && nodes == old(nodes)
      ensures Draws(Edges(), nodes)
    {
      var g := ChildLists(nodes);
      EdgesInside(nodes);
      var par := ComputeParents(g);
      ReversedSymmetric(g, par);
      var doms, imdom, imdominates := ComputeDominators(g, par, 0, blockIndex);
      var postdoms, impdom, impdominates := ComputeDominators(par, g, |nodes| - 1, blockIndex);
      var found := CollectLoops(g, par, 0, doms, loops);
      EdgesDrawn(nodes);
      SetDominators(par, doms, imdom, imdominates);
      SetPostdominators(postdoms, impdom, impdominates, found);
    }

    method SetDominators(par: Graph, doms: seq<set<nat>>, imdom: seq<Option<nat>>, imdominates: seq<seq<nat>>)
      requires Relations(Edges(), par, 0, doms, imdom, imdominates)
      modifies this
      ensures unchanged(`nodes)
      ensures Relations(Edges(), parents, 0, dominators, immediateDominator, immediatelyDominates) && parents == par
    {
      parents, dominators, immediateDominator, immediatelyDominates := par, doms, imdom, imdominates;
    }

    method SetPostdominators(postdoms: seq<set<nat>>, impdom: seq<Option<nat>>, impdominates: seq<seq<nat>>,
                             found: seq<Option<NaturalLoop>>)
      requires Valid() && Relations(Edges(), parents, 0, dominators, immediateDominator, immediatelyDominates)
      requires Relations(parents, Edges(), |nodes| - 1, postdoms, impdom, impdominates) && ExactLoops(Edges(), 0, found)
      modifies this
      ensures unchanged(`nodes) && Related()
    {
      postdominators, immediatePostdominator, immediatelyPostdominates, loops := postdoms, impdom, impdominates, found;
    }

    /** What dominates a node that control goes to from another is that node or dominates the other. */
    lemma DominatedThroughEdge(u: nat, v: nat, d: nat)
      requires Related() && u < |nodes| && GoesTo(nodes[u], v) && d in dominators[v]
      ensures d == v || d in dominators[u]
    {
      assert Edge(Edges(), u, v);
      if d != v {
        forall p | PathFromTo(Edges(), p, 0, u)
          ensures d in p
        {
          PathExtend(Edges(), p, v);
        }
      }
    }

    /** The last basic node that has not been seen. */
    method LastUnterminated(seen: set<nat>) returns (found: Option<nat>)
      ensures found.None? ==> forall i: nat :: i < |nodes| && nodes[i].Basic? ==> i in seen
      ensures found.Some? ==> found.value < |nodes| && nodes[found.value].Basic? && found.value !in seen
      ensures found.Some? ==> forall i: nat :: found.value < i < |nodes| && nodes[i].Basic? ==> i in seen
    {
      found := None;
      for i := 0 to |nodes|
        invariant found.None? ==> forall j: nat :: j < i && nodes[j].Basic? ==> j in seen
        invariant found.Some? ==> found.value < i && nodes[found.value].Basic? && found.value !in seen
        invariant found.Some? ==> forall j: nat :: found.value < j < i && nodes[j].Basic? ==> j in seen
      {
        if i !in seen && nodes[i].Basic? {
          found := Some(i);
        }
      }
    }

    /** The last basic node from which no path leads to the terminal. */
    method FindUnterminated() returns (found: Option<nat>)
      requires Related()
      ensures found.None? ==> forall i: nat :: i < |nodes| && nodes[i].Basic? ==> Reaches(Edges(), i, |nodes| - 1)
      ensures found.Some? ==>
        found.value < |nodes| && nodes[found.value].Basic? && !Reaches(Edges(), found.value, |nodes| - 1)
    {
      var seen := InvReachable(Edges(), parents, |nodes| - 1);
      found := LastUnterminated(seen);
    }

    method TerminateInfiniteLoops()
      requires Related()
      modifies this
      ensures Related() && OnlyFakesAdded(old(nodes), nodes)
      ensures forall i: nat :: i < |nodes| && nodes[i].Basic? ==> Reaches(Edges(), i, |nodes| - 1)
      ensures SameBelow(|nodes| - 1, old(dominators), dominators) && SameBelow(|nodes| - 1, old(loops), loops)
    {
      ghost var t := |nodes| - 1;
      while true
        invariant Related() && |nodes| == t + 1 && OnlyFakesAdded(old(nodes), nodes)
        invariant SameBelow(t, old(dominators), dominators) && SameBelow(t, old(loops), loops)
        decreases OpenBasics(nodes)
      {
        var found := FindUnterminated();
        if found.None? {
          return;
        }
        ghost var before, dominatorsBefore, loopsBefore := nodes, dominators, loops;
        AddFakeEdge(found.value);
        MoreFakes(old(nodes), before, nodes, found.value);
        SameBelowTwice(t, old(dominators), dominatorsBefore, dominators);
        SameBelowTwice(t, old(loops), loopsBefore, loops);
      }
    }

    method IsReducible() returns (reducible: bool)
      requires Related()
      ensures reducible <==> Reducible(Edges(), 0, |nodes| - 1)
    {
      var g := ChildLists(nodes);
      EdgesInside(nodes);
      AllChildrenDistinct(nodes);
      reducible := CheckReducible(g, parents, 0, |nodes| - 1, loops);
    }

    /** Links one dead-end basic node to the terminal and recomputes the relations. */
    method AddFakeEdge(i: nat)
      requires Related() && i < |nodes| && nodes[i].Basic?
      requires !Reaches(Edges(), i, |nodes| - 1)
      modifies this
      ensures Related() && nodes == old(nodes)[i := old(nodes[i]).(fakeSuccessor := Some(|nodes| - 1))]
      ensures old(nodes[i]).fakeSuccessor.None? && OpenBasics(nodes) < OpenBasics(old(nodes))
      ensures SameBelow(|nodes| - 1, old(dominators), dominators) && SameBelow(|nodes| - 1, old(loops), loops)
    {
      var t := |nodes| - 1;
      ghost var g := Edges();
      DeadEnd(nodes, i);
      FakeEdge(nodes, i);
      CloseBasic(nodes, i, t);
      nodes := nodes[i := nodes[i].(fakeSuccessor := Some(t))];
      LoopsSurvive(g, Edges(), i, t, 0, loops);
      ComputeRelations();
      DominatorsSurvive(g, Edges(), i, t, old(dominators), dominators);
      forall v: nat | v < t
        ensures loops[v] == old(loops)[v]
      {
        ExactLoopUnique(Edges(), 0, v, loops[v], old(loops)[v]);
      }
    }
  }

  /** `if` without `else`: the branch jumps over node 1, so node 1 does not dominate node 2. */
  lemma IfWithoutElse(f: FlowGraph)
    requires f.Related() && f.nodes == [Conditional(2, 1), Basic(2, None), Return(3), Terminal]
    ensures 1 !in f.dominators[2] && f.immediateDominator[2] == Some(0)
  {
    assert Edge(f.Edges(), 0, 2);
    assert PathFromTo(f.Edges(), [0], 0, 0) && PathFromTo(f.Edges(), [0, 2], 0, 2);
    forall d: nat | d in f.dominators[2] && d != 2
      ensures d == 0
    {
      f.DominatedThroughEdge(0, 2, d);
      assert PathFromTo(f.Edges(), [0], 0, 0) ==> d in [0];
    }
    assert forall d: nat :: Strict(f.Edges(), 0, d, 2) ==> d in f.dominators[2];
  }

  ghost predicate SameBelow<T>(t: nat, before: seq<T>, after: seq<T>) {
    t <= |before| && t <= |after| && forall v: nat :: v < t ==> after[v] == before[v]
  }

  lemma SameBelowTwice<T>(t: nat, first: seq<T>, second: seq<T>, third: seq<T>)
    requires SameBelow(t, first, second) && SameBelow(t, second, third)
    ensures SameBelow(t, first, third)
  {
  }

  lemma MoreFakes(first: seq<Node>, second: seq<Node>, third: seq<Node>, i: nat)
    requires OnlyFakesAdded(first, second) && i < |second| && second[i].Basic? && second[i].fakeSuccessor.None?
    requires third == second[i := second[i].(fakeSuccessor := Some(|second| - 1))] && |second| > 0
    ensures OnlyFakesAdded(first, third)
  {
  }

  lemma EdgesInside(nodes: seq<Node>)
    requires WfNodes(nodes)
    ensures Wf(ChildLists(nodes))
  {
    EdgesDrawn(nodes);
    var g := ChildLists(nodes);
    forall u: nat, v: nat | u < |g| && v in g[u]
      ensures v < |g|
    {
      assert Edge(g, u, v);
    }
  }

  /** A basic node with an edge to the terminal reaches it. */
  lemma DeadEnd(nodes: seq<Node>, i: nat)
    requires WfNodes(nodes) && i < |nodes| && nodes[i].Basic?
    requires !Reaches(ChildLists(nodes), i, |nodes| - 1)
    ensures nodes[i].fakeSuccessor.None? && nodes[i].successor != |nodes| - 1
  {
    var g, t := ChildLists(nodes), |nodes| - 1;
    if t in g[i] {
      assert PathFromTo(g, [i, t], i, t);
    }
  }

  lemma DominatorsSurvive(g: Graph, g': Graph, u: nat, t: nat, before: seq<set<nat>>, after: seq<set<nat>>)
    requires EdgeAdded(g, g', u, t) && DominatorSets(g, 0, before) && DominatorSets(g', 0, after)
    ensures forall v: nat :: v < |g| && v != t ==> after[v] == before[v]
  {
    forall v: nat | v < |g| && v != t
      ensures after[v] == before[v]
    {
      forall d: nat
        ensures d in after[v] <==> d in before[v]
      {
        SameDominators(g, g', u, t, 0, d, v);
      }
    }
  }

  /** The postdominator sets, read without turning the graph around. */
  lemma PostdominatorsExact(g: Graph, par: Graph, exit: nat, postdominators: seq<set<nat>>, d: nat, v: nat)
    requires Reversed(g, par) && DominatorSets(par, exit, postdominators) && v < |g|
    ensures d in postdominators[v] <==> d < |g| && forall p :: PathFromTo(g, p, v, exit) ==> d in p
  {
    ReverseDominates(g, par, exit, d, v);
  }
}
