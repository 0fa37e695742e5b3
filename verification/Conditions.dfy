/**
 * Condition recovery of m2c/if_statements.py: `try_make_if_condition` collapses a chain of
 * conditional nodes into one `&&`/`||` condition, and `build_conditional_subgraph` shortens the
 * chain until that succeeds.
 */
module Conditions {
  import opened Wrappers
  import opened ChainShapes

  // ----- conditions and what evaluating them does -----

  datatype Cond =
    | Test(id: nat, flipped: bool)
    | Comma(statements: seq<nat>, condition: Cond)
    | And(left: Cond, right: Cond)
    | Or(left: Cond, right: Cond)

  datatype Event = Ran(statement: nat) | Tested(id: nat)

  type History = seq<Event>

  /** The truth of a test, which may depend on everything that ran before it. */
  type Machine = (History, nat) -> bool

  function RunAll(statements: seq<nat>, h: History): History {
    h + seq(|statements|, i requires 0 <= i < |statements| => Ran(statements[i]))
  }

  /** Short-circuit evaluation, with the statements and tests it runs appended to the history. */
  function Eval(c: Cond, m: Machine, h: History): (bool, History) {
    match c
    case Test(id, flipped) => (m(h, id) != flipped, h + [Tested(id)])
    case Comma(statements, condition) => Eval(condition, m, RunAll(statements, h))
    case And(left, right) =>
      var (b, h') := Eval(left, m, h);
      if b then Eval(right, m, h') else (false, h')
    case Or(left, right) =>
      var (b, h') := Eval(left, m, h);
      if b then (true, h') else Eval(right, m, h')
  }

  /** Negation as m2c/translate.py builds it: De Morgan's laws, keeping comma statements in place. */
  function Negated(c: Cond): Cond {
    match c
    case Test(id, flipped) => Test(id, !flipped)
    case Comma(statements, condition) => Comma(statements, Negated(condition))
    case And(left, right) => Or(Negated(left), Negated(right))
    case Or(left, right) => And(Negated(left), Negated(right))
  }

  /** Negating flips the outcome and changes nothing that runs. */
  lemma {:induction false} NegatedEval(c: Cond, m: Machine, h: History)
    ensures Eval(Negated(c), m, h) == (!Eval(c, m, h).0, Eval(c, m, h).1)
  {
    match c
    case Test(_, _) =>
    case Comma(statements, condition) => NegatedEval(condition, m, RunAll(statements, h));
    case And(left, right) =>
      NegatedEval(left, m, h);
      NegatedEval(right, m, Eval(left, m, h).1);
    case Or(left, right) =>
      NegatedEval(left, m, h);
      NegatedEval(right, m, Eval(left, m, h).1);
  }

  // ----- walking the chain -----

  /** A conditional node: its pending statements, its branch condition and its two successors. */
  datatype CondNode = CondNode(statements: seq<nat>, test: Cond, conditionalEdge: nat, fallthroughEdge: nat)

  type Nodes = map<nat, CondNode>

  function GatherAnyCommaConditions(node: CondNode): Cond {
    if node.statements != [] then Comma(node.statements, node.test) else node.test
  }

  /**
   * Runs the chain node by node from `x` until it leaves for one of `exits`. The statements of the
   * node the walk starts with were emitted before, so they do not run again.
   */
  function WalkChain(nodes: Nodes, exits: set<nat>, x: nat, first: bool, m: Machine, h: History, fuel: nat): Option<(nat, History)>
    decreases fuel
  {
    if fuel == 0 || x !in nodes then None
    else
      var h1 := if first then h else RunAll(nodes[x].statements, h);
      var (b, h2) := Eval(nodes[x].test, m, h1);
      var next := if b then nodes[x].conditionalEdge else nodes[x].fallthroughEdge;
      if next in exits then Some((next, h2)) else WalkChain(nodes, exits, next, false, m, h2, fuel - 1)
  }

  /** A condition with the successors for true and for false. */
  datatype Entry = Entry(cond: Cond, ifEdge: nat, elseEdge: nat)

  type Edges = map<nat, Entry>

  function WalkEdges(edges: Edges, exits: set<nat>, x: nat, m: Machine, h: History, fuel: nat): Option<(nat, History)>
    decreases fuel
  {
    if fuel == 0 || x !in edges then None
    else
      var (b, h2) := Eval(edges[x].cond, m, h);
      var next := if b then edges[x].ifEdge else edges[x].elseEdge;
      if next in exits then Some((next, h2)) else WalkEdges(edges, exits, next, m, h2, fuel - 1)
  }

  lemma {:induction false} MoreFuel(edges: Edges, exits: set<nat>, x: nat, m: Machine, h: History, fuel: nat, fuel': nat)
    requires WalkEdges(edges, exits, x, m, h, fuel).Some? && fuel <= fuel'
    ensures WalkEdges(edges, exits, x, m, h, fuel') == WalkEdges(edges, exits, x, m, h, fuel)
    decreases fuel
  {
    var (b, h2) := Eval(edges[x].cond, m, h);
    var next := if b then edges[x].ifEdge else edges[x].elseEdge;
    if next !in exits {
      MoreFuel(edges, exits, next, m, h2, fuel - 1, fuel' - 1);
    }
  }

  ghost predicate WalksTo(edges: Edges, exits: set<nat>, x: nat, m: Machine, h: History, r: (nat, History)) {
    exists fuel: nat :: WalkEdges(edges, exits, x, m, h, fuel) == Some(r)
  }

  /** Whatever a walk of `small` reaches, a walk of `large` from the same node reaches too, doing the same. */
  ghost predicate Simulates(large: Edges, small: Edges, exits: set<nat>) {
    forall x: nat, m: Machine, h: History, r: (nat, History) {:trigger WalksTo(small, exits, x, m, h, r)} ::
      WalksTo(small, exits, x, m, h, r) ==> WalksTo(large, exits, x, m, h, r)
  }

  // ----- collapsing a pair -----

  /** The four reducible shapes: the parent's other edge is one of the child's. */
  function Combine(parent: Entry, child: Entry, name: nat): Option<Entry> {
    if parent.ifEdge == child.ifEdge && parent.elseEdge == name then
      Some(Entry(Or(parent.cond, child.cond), parent.ifEdge, child.elseEdge))
    else if parent.ifEdge == child.elseEdge && parent.elseEdge == name then
      Some(Entry(Or(parent.cond, Negated(child.cond)), parent.ifEdge, child.ifEdge))
    else if parent.ifEdge == name && parent.elseEdge == child.ifEdge then
      Some(Entry(And(parent.cond, Negated(child.cond)), child.elseEdge, parent.elseEdge))
    else if parent.ifEdge == name && parent.elseEdge == child.elseEdge then
      Some(Entry(And(parent.cond, child.cond), child.ifEdge, parent.elseEdge))
    else None
  }

  predicate PointsTo(e: Entry, c: nat) {
    e.ifEdge == c || e.elseEdge == c
  }

  /** `c` is entered from `p` only, by exactly one of its edges. */
  predicate OnlyParent(edges: Edges, exits: set<nat>, p: nat, c: nat) {
    && p in edges && c in edges && c !in exits
    && PointsTo(edges[p], c) && edges[p].ifEdge != edges[p].elseEdge
    && forall x :: x in edges && PointsTo(edges[x], c) ==> x == p
  }

  function Collapse(edges: Edges, p: nat, c: nat, e: Entry): Edges {
    edges[p := e] - {c}
  }

  /** One step from the merged parent is one or two steps from the parent before. */
  lemma MergedStep(edges: Edges, exits: set<nat>, p: nat, c: nat, m: Machine, h: History)
    requires OnlyParent(edges, exits, p, c) && Combine(edges[p], edges[c], c).Some?
    ensures var e := Combine(edges[p], edges[c], c).value;
      var (b, h2) := Eval(e.cond, m, h);
      var (b1, h1) := Eval(edges[p].cond, m, h);
      var next := if b1 then edges[p].ifEdge else edges[p].elseEdge;
      if next != c then next == (if b then e.ifEdge else e.elseEdge) && h2 == h1
      else
        var (b', h') := Eval(edges[c].cond, m, h1);
        (if b' then edges[c].ifEdge else edges[c].elseEdge) == (if b then e.ifEdge else e.elseEdge) && h2 == h'
  {
    NegatedEval(edges[c].cond, m, Eval(edges[p].cond, m, h).1);
  }

  lemma {:induction false} CollapsedWalk(edges: Edges, exits: set<nat>, p: nat, c: nat, x: nat, m: Machine, h: History, fuel: nat)
    requires OnlyParent(edges, exits, p, c) && Combine(edges[p], edges[c], c).Some?
    requires WalkEdges(Collapse(edges, p, c, Combine(edges[p], edges[c], c).value), exits, x, m, h, fuel).Some?
    ensures WalkEdges(edges, exits, x, m, h, 2 * fuel) ==
      WalkEdges(Collapse(edges, p, c, Combine(edges[p], edges[c], c).value), exits, x, m, h, fuel)
    decreases fuel
  {
    var small := Collapse(edges, p, c, Combine(edges[p], edges[c], c).value);
    var (b, h2) := Eval(small[x].cond, m, h);
    var next := if b then small[x].ifEdge else small[x].elseEdge;
    if next !in exits {
      CollapsedWalk(edges, exits, p, c, next, m, h2, fuel - 1);
      MoreFuel(edges, exits, next, m, h2, 2 * (fuel - 1), 2 * fuel - 1);
    }
    if x == p {
      MergedStep(edges, exits, p, c, m, h);
    }
  }

  lemma CollapseSimulated(edges: Edges, exits: set<nat>, p: nat, c: nat)
    requires OnlyParent(edges, exits, p, c) && Combine(edges[p], edges[c], c).Some?
    ensures Simulates(edges, Collapse(edges, p, c, Combine(edges[p], edges[c], c).value), exits)
  {
    var small := Collapse(edges, p, c, Combine(edges[p], edges[c], c).value);
    forall x: nat, m: Machine, h: History, r: (nat, History) | WalksTo(small, exits, x, m, h, r)
      ensures WalksTo(edges, exits, x, m, h, r)
    {
      var fuel: nat :| WalkEdges(small, exits, x, m, h, fuel) == Some(r);
      CollapsedWalk(edges, exits, p, c, x, m, h, fuel);
      assert WalkEdges(edges, exits, x, m, h, 2 * fuel) == Some(r);
    }
  }

  // ----- which pairs can be collapsed, by edges alone -----

  function ShapeOf(edges: Edges): Shape {
    map x | x in edges :: EndsOf(edges[x].ifEdge, edges[x].elseEdge)
  }

  /** The four shapes are all there are. */
  lemma CombineIsComplete(edges: Edges, exits: set<nat>, p: nat, c: nat)
    ensures Reducible(ShapeOf(edges), exits, p, c) <==>
      OnlyParent(edges, exits, p, c) && Combine(edges[p], edges[c], c).Some?
  {
    var s := ShapeOf(edges);
    if OnlyParent(edges, exits, p, c) {
      forall x | x in s && EndsAt(s[x], c)
        ensures x == p
      {
        assert PointsTo(edges[x], c);
      }
    }
    if Reducible(s, exits, p, c) {
      forall x | x in edges && PointsTo(edges[x], c)
        ensures x == p
      {
        assert EndsAt(s[x], c);
      }
    }
  }

  lemma CollapsedShape(edges: Edges, p: nat, c: nat)
    requires p in edges && c in edges && Combine(edges[p], edges[c], c).Some?
    ensures ShapeOf(Collapse(edges, p, c, Combine(edges[p], edges[c], c).value)) == Collapsed(ShapeOf(edges), p, c)
  {
  }

  // ----- what every collapse keeps -----

  predicate HasExits(e: Entry, ifNode: nat, elseNode: nat) {
    (e.ifEdge == ifNode && e.elseEdge == elseNode) || (e.ifEdge == elseNode && e.elseEdge == ifNode)
  }

  /** Some remaining node has exactly the exits of the last chain node. */
  ghost predicate ExitsKept(edges: Edges, ifNode: nat, elseNode: nat) {
    exists x :: x in edges && HasExits(edges[x], ifNode, elseNode)
  }

  /** Edges stay among the remaining nodes and the exits. */
  ghost predicate Closed(edges: Edges, exits: set<nat>) {
    forall x :: x in edges ==>
      && (edges[x].ifEdge in edges || edges[x].ifEdge in exits)
      && (edges[x].elseEdge in edges || edges[x].elseEdge in exits)
  }

  /** Nothing leads to the start node but possibly itself; a start that loops on itself keeps doing so. */
  ghost predicate StartKept(edges: Edges, start: nat, loops: bool) {
    && (forall x :: x in edges && x != start ==> !PointsTo(edges[x], start))
    && (loops && start in edges ==> PointsTo(edges[start], start))
  }

  /** The merged node has the child's two edges. */
  lemma MergedEdges(parent: Entry, child: Entry, name: nat)
    requires Combine(parent, child, name).Some?
    ensures var e := Combine(parent, child, name).value;
      HasExits(child, e.ifEdge, e.elseEdge) && (parent.ifEdge == name || parent.elseEdge == name)
  {
  }

  lemma CollapseKeepsExits(edges: Edges, ifNode: nat, elseNode: nat, p: nat, c: nat)
    requires OnlyParent(edges, {ifNode, elseNode}, p, c) && Combine(edges[p], edges[c], c).Some?
    requires ExitsKept(edges, ifNode, elseNode)
    ensures ExitsKept(Collapse(edges, p, c, Combine(edges[p], edges[c], c).value), ifNode, elseNode)
  {
    var small := Collapse(edges, p, c, Combine(edges[p], edges[c], c).value);
    var x :| x in edges && HasExits(edges[x], ifNode, elseNode);
    MergedEdges(edges[p], edges[c], c);
    var y := if x == c then p else x;
    assert y in small && HasExits(small[y], ifNode, elseNode);
  }

  lemma CollapseKeepsClosed(edges: Edges, exits: set<nat>, p: nat, c: nat)
    requires OnlyParent(edges, exits, p, c) && Combine(edges[p], edges[c], c).Some?
    requires Closed(edges, exits)
    ensures Closed(Collapse(edges, p, c, Combine(edges[p], edges[c], c).value), exits)
  {
    var small := Collapse(edges, p, c, Combine(edges[p], edges[c], c).value);
    MergedEdges(edges[p], edges[c], c);
    forall x | x in small
      ensures small[x].ifEdge in small || small[x].ifEdge in exits
      ensures small[x].elseEdge in small || small[x].elseEdge in exits
    {
      assert x != p ==> !PointsTo(edges[x], c);
      assert p != c ==> !PointsTo(edges[c], c);
    }
  }

  lemma CollapseKeepsStart(edges: Edges, exits: set<nat>, start: nat, loops: bool, p: nat, c: nat)
    requires OnlyParent(edges, exits, p, c) && Combine(edges[p], edges[c], c).Some?
    requires StartKept(edges, start, loops)
    ensures StartKept(Collapse(edges, p, c, Combine(edges[p], edges[c], c).value), start, loops)
  {
    MergedEdges(edges[p], edges[c], c);
  }

  // ----- the parents of each remaining node -----

  /** `parents[c]` lists the nodes of `done` with an edge into `c`, twice for two edges; exits have no list. */
  ghost predicate ParentLists(edges: Edges, exits: set<nat>, done: set<nat>, parents: map<nat, seq<nat>>) {
    && parents.Keys == edges.Keys && done <= edges.Keys
    && (forall c, x {:trigger x in parents[c]} :: c in edges ==> (x in parents[c] <==> c !in exits && x in done && PointsTo(edges[x], c)))
    && (forall c, x :: c in edges && c !in exits && x in done && edges[x].ifEdge == c && edges[x].elseEdge == c ==> |parents[c]| > 1)
  }

  /** Only a node with both edges into `c` is listed twice. */
  ghost predicate ListedOnce(edges: Edges, c: nat, list: seq<nat>) {
    forall i, j :: 0 <= i < j < |list| && list[i] == list[j] ==>
      list[i] in edges && edges[list[i]].ifEdge == c && edges[list[i]].elseEdge == c
  }

  ghost predicate AllListedOnce(edges: Edges, parents: map<nat, seq<nat>>) {
    forall c {:trigger parents[c]} :: c in parents ==> ListedOnce(edges, c, parents[c])
  }

  function Append(parents: map<nat, seq<nat>>, c: nat, x: nat): (r: map<nat, seq<nat>>)
    requires c in parents
    ensures r.Keys == parents.Keys
    ensures forall d :: d in parents ==> r[d] == if d == c then parents[d] + [x] else parents[d]
  {
    parents[c := parents[c] + [x]]
  }

  /** The lists after the edges of one more node. */
  ghost predicate OneMore(e: Entry, exits: set<nat>, parents: map<nat, seq<nat>>, after: map<nat, seq<nat>>, x: nat) {
    && after.Keys == parents.Keys
    && forall c :: c in parents ==> after[c] == parents[c] + Entries(e.ifEdge, exits, c, x) + Entries(e.elseEdge, exits, c, x)
  }

  function Entries(edge: nat, exits: set<nat>, c: nat, x: nat): seq<nat> {
    if edge == c && c !in exits then [x] else []
  }

  method AddEdges(e: Entry, exits: set<nat>, parents: map<nat, seq<nat>>, x: nat) returns (after: map<nat, seq<nat>>)
    requires (e.ifEdge in parents || e.ifEdge in exits) && (e.elseEdge in parents || e.elseEdge in exits)
    ensures OneMore(e, exits, parents, after, x)
  {
    after := parents;
    if e.ifEdge !in exits {
      after := Append(after, e.ifEdge, x);
    }
    if e.elseEdge !in exits {
      after := Append(after, e.elseEdge, x);
    }
  }

  /** What one more node does to the list of `c`. */
  lemma ListOneMore(e: Entry, exits: set<nat>, c: nat, list: seq<nat>, x: nat, y: nat)
    ensures var after := list + Entries(e.ifEdge, exits, c, x) + Entries(e.elseEdge, exits, c, x);
      && (y in after <==> y in list || (c !in exits && y == x && PointsTo(e, c)))
      && (c !in exits && e.ifEdge == c && e.elseEdge == c ==> |after| > 1)
      && |after| >= |list|
  {
  }

  lemma ListedOnceMore(edges: Edges, exits: set<nat>, c: nat, list: seq<nat>, x: nat)
    requires x !in list && x in edges && ListedOnce(edges, c, list)
    ensures ListedOnce(edges, c, list + Entries(edges[x].ifEdge, exits, c, x) + Entries(edges[x].elseEdge, exits, c, x))
  {
  }

  lemma AllListedOnceMore(edges: Edges, exits: set<nat>, done: set<nat>, parents: map<nat, seq<nat>>, after: map<nat, seq<nat>>, x: nat)
    requires ParentLists(edges, exits, done, parents) && x in edges && x !in done
    requires OneMore(edges[x], exits, parents, after, x) && AllListedOnce(edges, parents)
    ensures AllListedOnce(edges, after)
  {
    forall c {:trigger after[c]} | c in after
      ensures ListedOnce(edges, c, after[c])
    {
      assert x !in parents[c];
      ListedOnceMore(edges, exits, c, parents[c], x);
    }
  }

  lemma ParentsOneMore(edges: Edges, exits: set<nat>, done: set<nat>, parents: map<nat, seq<nat>>, after: map<nat, seq<nat>>, x: nat)
    requires ParentLists(edges, exits, done, parents) && x in edges
    requires OneMore(edges[x], exits, parents, after, x)
    ensures ParentLists(edges, exits, done + {x}, after)
  {
    forall c, y | c in edges
      ensures y in after[c] <==> c !in exits && y in done + {x} && PointsTo(edges[y], c)
      ensures c !in exits && y in done + {x} && edges[y].ifEdge == c && edges[y].elseEdge == c ==> |after[c]| > 1
    {
      assert y in parents[c] <==> c !in exits && y in done && PointsTo(edges[y], c);
      ListOneMore(edges[x], exits, c, parents[c], x, y);
    }
  }

  method AddNode(edges: Edges, exits: set<nat>, parents: map<nat, seq<nat>>, ghost done: set<nat>, x: nat)
    returns (after: map<nat, seq<nat>>)
    requires Closed(edges, exits) && x in edges && x !in done
    requires ParentLists(edges, exits, done, parents) && AllListedOnce(edges, parents)
    ensures ParentLists(edges, exits, done + {x}, after) && AllListedOnce(edges, after)
  {
    after := AddEdges(edges[x], exits, parents, x);
    ParentsOneMore(edges, exits, done, parents, after, x);
    AllListedOnceMore(edges, exits, done, parents, after, x);
  }

  method NoParents(edges: Edges, exits: set<nat>) returns (parents: map<nat, seq<nat>>)
    ensures ParentLists(edges, exits, {}, parents) && AllListedOnce(edges, parents)
  {
    parents := map c | c in edges :: [];
  }

  method ComputeNodeParents(edges: Edges, exits: set<nat>) returns (parents: map<nat, seq<nat>>)
    requires Closed(edges, exits)
    ensures ParentLists(edges, exits, edges.Keys, parents) && AllListedOnce(edges, parents)
  {
    parents := NoParents(edges, exits);
    var todo := edges.Keys;
    assert edges.Keys - todo == {};
    while todo != {}
      invariant todo <= edges.Keys
      invariant ParentLists(edges, exits, edges.Keys - todo, parents) && AllListedOnce(edges, parents)
      decreases todo
    {
      var x: nat :| x in todo;
      assert edges.Keys - todo + {x} == edges.Keys - (todo - {x});
      parents := AddNode(edges, exits, parents, edges.Keys - todo, x);
      todo := todo - {x};
    }
  }

  /** A list of length one names the only parent. */
  lemma OneParent(edges: Edges, exits: set<nat>, parents: map<nat, seq<nat>>, c: nat)
    requires ParentLists(edges, exits, edges.Keys, parents) && c in edges && |parents[c]| == 1
    ensures OnlyParent(edges, exits, parents[c][0], c)
  {
    assert parents[c][0] in parents[c];
    forall x | x in edges && PointsTo(edges[x], c)
      ensures x == parents[c][0]
    {
      assert x in parents[c];
    }
  }

  /** The only parent is in a list of length one. */
  lemma OnlyParentListed(edges: Edges, exits: set<nat>, parents: map<nat, seq<nat>>, p: nat, c: nat)
    requires ParentLists(edges, exits, edges.Keys, parents) && AllListedOnce(edges, parents)
    requires OnlyParent(edges, exits, p, c)
    ensures parents[c] == [p]
  {
    var list := parents[c];
    assert p in list && ListedOnce(edges, c, list);
    forall i | 0 <= i < |list|
      ensures list[i] == p
    {
      assert list[i] in list;
    }
    var last := |list| - 1;
    assert list[0] == list[last];
  }

  /**
   * One round: looks for a node with a single parent and one of the four shapes, and collapses the
   * pair. The source takes the first in dictionary order; any choice meets this contract.
   */
  method CollapseOne(edges: Edges, exits: set<nat>) returns (found: bool, ghost p: nat, ghost c: nat, edges': Edges)
    requires Closed(edges, exits)
    ensures found ==> OnlyParent(edges, exits, p, c) && Combine(edges[p], edges[c], c).Some?
    ensures found ==> edges' == Collapse(edges, p, c, Combine(edges[p], edges[c], c).value)
    ensures !found ==> edges' == edges
    ensures found ==> Reducible(ShapeOf(edges), exits, p, c) && ShapeOf(edges') == Collapsed(ShapeOf(edges), p, c)
    ensures !found ==> Irreducible(ShapeOf(edges), exits)
  {
    var parents := ComputeNodeParents(edges, exits);
    var todo := edges.Keys;
    found, edges', p, c := false, edges, 0, 0;
    while todo != {}
      invariant todo <= edges.Keys
      invariant forall x, y :: y in edges && y !in todo ==> !Reducible(ShapeOf(edges), exits, x, y)
      decreases todo
    {
      var child: nat :| child in todo;
      todo := todo - {child};
      if |parents[child]| == 1 {
        OneParent(edges, exits, parents, child);
        var parent := parents[child][0];
        var e := Combine(edges[parent], edges[child], child);
        CombineIsComplete(edges, exits, parent, child);
        if e.Some? {
          CollapsedShape(edges, parent, child);
          return true, parent, child, Collapse(edges, parent, child, e.value);
        }
      }
      NotReducible(edges, exits, parents, child);
    }
  }

  lemma NotReducible(edges: Edges, exits: set<nat>, parents: map<nat, seq<nat>>, c: nat)
    requires ParentLists(edges, exits, edges.Keys, parents) && AllListedOnce(edges, parents) && c in edges
    requires |parents[c]| == 1 ==> !Reducible(ShapeOf(edges), exits, parents[c][0], c)
    ensures forall p :: !Reducible(ShapeOf(edges), exits, p, c)
  {
    forall p
      ensures !Reducible(ShapeOf(edges), exits, p, c)
    {
      CombineIsComplete(edges, exits, p, c);
      if OnlyParent(edges, exits, p, c) {
        OnlyParentListed(edges, exits, parents, p, c);
      }
    }
  }

  // ----- the chain -----

  /** Each chain node falls through to the next; branch conditions carry no comma statements of their own. */
  ghost predicate WfChain(nodes: Nodes, chain: seq<nat>) {
    && chain != []
    && (forall i :: 0 <= i < |chain| ==> chain[i] in nodes && !nodes[chain[i]].test.Comma?)
    && (forall i :: 0 <= i < |chain| - 1 ==> nodes[chain[i]].fallthroughEdge == chain[i + 1])
  }

  /** Every edge of the node at position `j` goes to a node from `j` on, or to an exit not yet passed. */
  ghost predicate ForwardFrom(nodes: Nodes, chain: seq<nat>, exits: set<nat>, j: nat)
    requires j < |chain| && chain[j] in nodes
  {
    var n := nodes[chain[j]];
    && (n.conditionalEdge in chain[j..] || n.conditionalEdge in exits) && n.conditionalEdge !in chain[..j]
    && (n.fallthroughEdge in chain[j..] || n.fallthroughEdge in exits) && n.fallthroughEdge !in chain[..j]
  }

  function InitialEntry(nodes: Nodes, start: nat, x: nat): Entry
    requires x in nodes
  {
    Entry(if x == start then nodes[x].test else GatherAnyCommaConditions(nodes[x]),
          nodes[x].conditionalEdge, nodes[x].fallthroughEdge)
  }

  ghost predicate Translated(nodes: Nodes, chain: seq<nat>, k: nat, edges: Edges)
    requires WfChain(nodes, chain) && k <= |chain|
  {
    && (forall x :: x in edges <==> x in chain[..k])
    && (forall x :: x in edges ==> x in nodes && edges[x] == InitialEntry(nodes, chain[0], x))
  }

  /** The source's `allowed_nodes` before position `j`. */
  ghost predicate AllowedAt(chain: seq<nat>, exits: set<nat>, allowed: set<nat>, j: nat)
    requires j <= |chain|
  {
    forall x :: x in allowed <==> (x in chain[j..] || x in exits) && x !in chain[..j]
  }

  lemma AllowedAfter(chain: seq<nat>, exits: set<nat>, allowed: set<nat>, j: nat)
    requires j < |chain| && AllowedAt(chain, exits, allowed, j)
    ensures AllowedAt(chain, exits, allowed - {chain[j]}, j + 1)
  {
    assert chain[j..] == [chain[j]] + chain[j + 1..];
    assert chain[..j + 1] == chain[..j] + [chain[j]];
  }

  /** A chain node that passes the check has not been seen earlier in the chain. */
  lemma NotSeenBefore(nodes: Nodes, chain: seq<nat>, exits: set<nat>, j: nat)
    requires WfChain(nodes, chain) && j < |chain|
    requires forall i :: 0 <= i <= j ==> ForwardFrom(nodes, chain, exits, i)
    ensures chain[j] !in chain[..j]
  {
    if j > 0 {
      var last := j - 1;
      assert ForwardFrom(nodes, chain, exits, last) && ForwardFrom(nodes, chain, exits, j);
      assert nodes[chain[last]].fallthroughEdge == chain[last + 1];
      assert chain[..j] == chain[..last] + [chain[last]];
    }
  }

  lemma TranslateOneMore(nodes: Nodes, chain: seq<nat>, j: nat, edges: Edges)
    requires WfChain(nodes, chain) && j < |chain| && Translated(nodes, chain, j, edges)
    ensures Translated(nodes, chain, j + 1, edges[chain[j] := InitialEntry(nodes, chain[0], chain[j])])
  {
    assert chain[..j + 1] == chain[..j] + [chain[j]];
  }

  /** Checks that all edges point forward and translates the chain, or gives up. */
  method TranslateChain(nodes: Nodes, chain: seq<nat>, ifNode: nat, elseNode: nat) returns (edges: Option<Edges>)
    requires WfChain(nodes, chain)
    requires ifNode == nodes[chain[|chain| - 1]].fallthroughEdge && elseNode == nodes[chain[|chain| - 1]].conditionalEdge
    ensures edges.Some? ==> Translated(nodes, chain, |chain|, edges.value)
    ensures edges.Some? ==> forall j :: 0 <= j < |chain| ==> ForwardFrom(nodes, chain, {ifNode, elseNode}, j)
    ensures edges.None? ==> exists j :: 0 <= j < |chain| && !ForwardFrom(nodes, chain, {ifNode, elseNode}, j)
  {
    var exits := {ifNode, elseNode};
    var allowed := (set x | x in chain) + exits;
    var r: Edges := map[];
    assert chain[0..] == chain;
    for j := 0 to |chain|
      invariant AllowedAt(chain, exits, allowed, j)
      invariant Translated(nodes, chain, j, r)
      invariant forall i :: 0 <= i < j ==> ForwardFrom(nodes, chain, exits, i)
    {
      var node := chain[j];
      var info := nodes[node];
      if info.conditionalEdge !in allowed || info.fallthroughEdge !in allowed {
        assert !ForwardFrom(nodes, chain, exits, j);
        return None;
      }
      assert ForwardFrom(nodes, chain, exits, j);
      NotSeenBefore(nodes, chain, exits, j);
      // `remove` finds the node.
      assert node in allowed by { assert chain[j..][0] == node; }
      AllowedAfter(chain, exits, allowed, j);
      TranslateOneMore(nodes, chain, j, r);
      allowed := allowed - {node};
      r := r[node := InitialEntry(nodes, chain[0], node)];
    }
    edges := Some(r);
  }

  lemma TranslatedStart(nodes: Nodes, chain: seq<nat>, exits: set<nat>, edges: Edges)
    requires WfChain(nodes, chain) && Translated(nodes, chain, |chain|, edges)
    requires forall j :: 0 <= j < |chain| ==> ForwardFrom(nodes, chain, exits, j)
    ensures Closed(edges, exits) && chain[0] in edges
    ensures StartKept(edges, chain[0], PointsTo(edges[chain[0]], chain[0]))
  {
    assert chain[..|chain|] == chain;
    forall x | x in edges
      ensures edges[x].ifEdge in edges || edges[x].ifEdge in exits
      ensures edges[x].elseEdge in edges || edges[x].elseEdge in exits
      ensures x != chain[0] ==> !PointsTo(edges[x], chain[0])
    {
      var j :| 0 <= j < |chain| && chain[j] == x;
      assert ForwardFrom(nodes, chain, exits, j);
      assert j > 0 ==> chain[..j][0] == chain[0];
    }
  }

  /** A walk of the translated chain is a walk of the chain, as long as the start is not entered again. */
  lemma {:induction false} TranslatedWalk(nodes: Nodes, chain: seq<nat>, exits: set<nat>, edges: Edges, x: nat, m: Machine, h: History, fuel: nat)
    requires WfChain(nodes, chain) && Translated(nodes, chain, |chain|, edges)
    requires StartKept(edges, chain[0], false) && (chain[0] in exits || (chain[0] in edges && !PointsTo(edges[chain[0]], chain[0])))
    requires WalkEdges(edges, exits, x, m, h, fuel).Some?
    ensures WalkChain(nodes, exits, x, x == chain[0], m, h, fuel) == WalkEdges(edges, exits, x, m, h, fuel)
    decreases fuel
  {
    assert RunAll([], h) == h;
    var (b, h2) := Eval(edges[x].cond, m, h);
    var next := if b then edges[x].ifEdge else edges[x].elseEdge;
    if next !in exits {
      assert PointsTo(edges[x], next);
      TranslatedWalk(nodes, chain, exits, edges, next, m, h2, fuel - 1);
    }
  }

  datatype IfCondition = IfCondition(cond: Cond, ifNode: nat, elseNode: Option<nat>)

  /** The node `if (cond) goto if_node; else goto else_node;` goes to; no else node means `end`. */
  function Target(r: IfCondition, end: nat, b: bool): nat {
    if b then r.ifNode else if r.elseNode.Some? then r.elseNode.value else end
  }

  function Exits(nodes: Nodes, chain: seq<nat>): set<nat>
    requires chain != [] && chain[|chain| - 1] in nodes
  {
    {nodes[chain[|chain| - 1]].fallthroughEdge, nodes[chain[|chain| - 1]].conditionalEdge}
  }

  /** Walking the chain from its first node ends at `target`, having run `h'`. */
  ghost predicate ChainGoes(nodes: Nodes, chain: seq<nat>, m: Machine, h: History, target: nat, h': History)
    requires chain != [] && chain[|chain| - 1] in nodes
  {
    exists fuel: nat :: WalkChain(nodes, Exits(nodes, chain), chain[0], true, m, h, fuel) == Some((target, h'))
  }

  /** The condition runs what the chain runs and selects the successor the chain selects, on every machine. */
  ghost predicate SameBranching(nodes: Nodes, chain: seq<nat>, end: nat, r: IfCondition)
    requires chain != [] && chain[|chain| - 1] in nodes
  {
    forall m: Machine, h: History ::
      ChainGoes(nodes, chain, m, h, Target(r, end, Eval(r.cond, m, h).0), Eval(r.cond, m, h).1)
  }

  /** The single entry left selects what the chain selects. */
  lemma CollapsedIsChain(nodes: Nodes, chain: seq<nat>, exits: set<nat>, initial: Edges, edges: Edges, m: Machine, h: History)
    requires WfChain(nodes, chain) && exits == Exits(nodes, chain)
    requires Translated(nodes, chain, |chain|, initial)
    requires forall j :: 0 <= j < |chain| ==> ForwardFrom(nodes, chain, exits, j)
    requires Simulates(initial, edges, exits)
    requires edges.Keys == {chain[0]} && edges[chain[0]].ifEdge in exits && edges[chain[0]].elseEdge in exits
    requires chain[0] in initial && StartKept(edges, chain[0], PointsTo(initial[chain[0]], chain[0]))
    ensures var e := edges[chain[0]];
      ChainGoes(nodes, chain, m, h, if Eval(e.cond, m, h).0 then e.ifEdge else e.elseEdge, Eval(e.cond, m, h).1)
  {
    var x := chain[0];
    var e := edges[x];
    var r := (if Eval(e.cond, m, h).0 then e.ifEdge else e.elseEdge, Eval(e.cond, m, h).1);
    assert WalkEdges(edges, exits, x, m, h, 1) == Some(r);
    assert WalksTo(edges, exits, x, m, h, r);
    assert WalksTo(initial, exits, x, m, h, r);
    var fuel: nat :| WalkEdges(initial, exits, x, m, h, fuel) == Some(r);
    TranslatedStart(nodes, chain, exits, initial);
    TranslatedWalk(nodes, chain, exits, initial, x, m, h, fuel);
  }

  /** Collapses pairs until no shape is left. */
  method Reduce(initial: Edges, ifNode: nat, elseNode: nat, ghost start: nat) returns (edges: Edges)
    requires ExitsKept(initial, ifNode, elseNode) && Closed(initial, {ifNode, elseNode}) && start in initial
    requires StartKept(initial, start, PointsTo(initial[start], start))
    ensures ExitsKept(edges, ifNode, elseNode) && Simulates(initial, edges, {ifNode, elseNode})
    ensures StartKept(edges, start, PointsTo(initial[start], start))
    ensures Irreducible(ShapeOf(edges), {ifNode, elseNode})
    ensures CanReduce(ShapeOf(initial), {ifNode, elseNode}, ShapeOf(edges))
  {
    ghost var loops := PointsTo(initial[start], start);
    edges := initial;
    assert Reduces(ShapeOf(initial), {ifNode, elseNode}, ShapeOf(edges), 0);
    while true
      invariant ExitsKept(edges, ifNode, elseNode) && Closed(edges, {ifNode, elseNode}) && StartKept(edges, start, loops)
      invariant Simulates(initial, edges, {ifNode, elseNode})
      invariant CanReduce(ShapeOf(initial), {ifNode, elseNode}, ShapeOf(edges))
      decreases |edges|
    {
      var found, p, c, edges' := CollapseOne(edges, {ifNode, elseNode});
      if !found {
        return;
      }
      CollapseKeepsExits(edges, ifNode, elseNode, p, c);
      CollapseKeepsClosed(edges, {ifNode, elseNode}, p, c);
      CollapseKeepsStart(edges, {ifNode, elseNode}, start, loops, p, c);
      CollapseSimulated(edges, {ifNode, elseNode}, p, c);
      CollapseShrinks(edges, p, c, Combine(edges[p], edges[c], c).value);
      CanReduceOnce(ShapeOf(initial), {ifNode, elseNode}, ShapeOf(edges), p, c);
      edges := edges';
    }
  }

  lemma CollapseShrinks(edges: Edges, p: nat, c: nat, e: Entry)
    requires p in edges && c in edges
    ensures |Collapse(edges, p, c, e)| < |edges|
  {
    assert edges[p := e].Keys == edges.Keys;
    assert Collapse(edges, p, c, e).Keys == edges.Keys - {c};
  }

  // ----- which chains become one condition -----

  /** The edges of the chain. */
  ghost function ChainShape(nodes: Nodes, chain: seq<nat>): Shape
    requires WfChain(nodes, chain)
  {
    map x | x in chain :: EndsOf(nodes[x].conditionalEdge, nodes[x].fallthroughEdge)
  }

  /**
   * All edges point forward, and some sequence of collapses leaves the first node alone, with the edges of the last one.
   */
  ghost predicate Joinable(nodes: Nodes, chain: seq<nat>)
    requires WfChain(nodes, chain)
  {
    var last := nodes[chain[|chain| - 1]];
    && (forall j :: 0 <= j < |chain| ==> ForwardFrom(nodes, chain, Exits(nodes, chain), j))
    && CanReduce(ChainShape(nodes, chain), Exits(nodes, chain), map[chain[0] := EndsOf(last.conditionalEdge, last.fallthroughEdge)])
  }

  /** Whichever pairs were collapsed, one node is left if and only if some sequence of collapses leaves one. */
  lemma OneLeftIffJoinable(nodes: Nodes, chain: seq<nat>, initial: Edges, edges: Edges)
    requires WfChain(nodes, chain) && Translated(nodes, chain, |chain|, initial)
    requires forall j :: 0 <= j < |chain| ==> ForwardFrom(nodes, chain, Exits(nodes, chain), j)
    requires ExitsKept(edges, nodes[chain[|chain| - 1]].fallthroughEdge, nodes[chain[|chain| - 1]].conditionalEdge)
    requires Irreducible(ShapeOf(edges), Exits(nodes, chain))
    requires CanReduce(ShapeOf(initial), Exits(nodes, chain), ShapeOf(edges))
    ensures edges.Keys == {chain[0]} <==> Joinable(nodes, chain)
  {
    var exits, last := Exits(nodes, chain), nodes[chain[|chain| - 1]];
    var one: Shape := map[chain[0] := EndsOf(last.conditionalEdge, last.fallthroughEdge)];
    assert chain[..|chain|] == chain;
    assert ShapeOf(initial) == ChainShape(nodes, chain);
    LeftIfPossible(ShapeOf(initial), exits, ShapeOf(edges), one);
    OneIsLeft(edges, chain[0], last.fallthroughEdge, last.conditionalEdge);
  }

  lemma OneIsLeft(edges: Edges, start: nat, ifNode: nat, elseNode: nat)
    requires ExitsKept(edges, ifNode, elseNode)
    ensures edges.Keys == {start} <==> ShapeOf(edges) == map[start := EndsOf(elseNode, ifNode)]
  {
    assert ShapeOf(edges).Keys == edges.Keys;
  }

  /** A chain whose nodes all have an edge to one exit, as those of `a && b && c` do, becomes one condition. */
  lemma SharedExitJoins(nodes: Nodes, chain: seq<nat>, out: nat)
    requires WfChain(nodes, chain) && Distinct(chain) && out !in chain
    requires forall i :: 0 <= i < |chain| - 1 ==> nodes[chain[i]].conditionalEdge == out
    requires var last := nodes[chain[|chain| - 1]];
      (last.conditionalEdge == out && last.fallthroughEdge !in chain) || (last.fallthroughEdge == out && last.conditionalEdge !in chain)
    ensures Joinable(nodes, chain)
  {
    var exits, last := Exits(nodes, chain), nodes[chain[|chain| - 1]];
    forall j | 0 <= j < |chain|
      ensures ForwardFrom(nodes, chain, exits, j)
    {
      if j < |chain| - 1 {
        assert nodes[chain[j]].fallthroughEdge == chain[j..][1];
      }
    }
    BranchesOutJoin(ChainShape(nodes, chain), exits, chain, out, EndsOf(last.conditionalEdge, last.fallthroughEdge));
  }

  /** Two nodes, the first with an edge to the second and one to where the second goes as well. */
  lemma TwoNodesJoin(nodes: Nodes, chain: seq<nat>)
    requires WfChain(nodes, chain) && |chain| == 2 && chain[0] != chain[1]
    requires var a, b := nodes[chain[0]], nodes[chain[1]];
      && (a.conditionalEdge == b.conditionalEdge || a.conditionalEdge == b.fallthroughEdge)
      && b.conditionalEdge !in chain && b.fallthroughEdge !in chain
    ensures Joinable(nodes, chain)
  {
    SharedExitJoins(nodes, chain, nodes[chain[0]].conditionalEdge);
  }

  method TryMakeIfCondition(nodes: Nodes, chain: seq<nat>, end: nat) returns (result: Option<IfCondition>)
    requires WfChain(nodes, chain)
    ensures result.Some? <==> Joinable(nodes, chain)
    ensures result.Some? ==> SameBranching(nodes, chain, end, result.value)
    ensures result.Some? ==> Oriented(nodes, chain, end, result.value)
    ensures |chain| == 1 ==> result.Some?
  {
    var start := chain[0];
    var ifNode := nodes[chain[|chain| - 1]].fallthroughEdge;
    var elseNode := nodes[chain[|chain| - 1]].conditionalEdge;
    OneNodeJoins(nodes, chain);
    var translated := TranslateChain(nodes, chain, ifNode, elseNode);
    if translated.None? {
      return None;
    }
    var initial := translated.value;
    TranslatedStart(nodes, chain, {ifNode, elseNode}, initial);
    LastHasExits(nodes, chain, initial);
    var edges := Reduce(initial, ifNode, elseNode, start);
    OneLeftIffJoinable(nodes, chain, initial, edges);
    SingletonKeys(edges, start);
    if |edges| != 1 || start !in edges {
      return None;
    }
    var r := Orient(nodes, chain, end, edges[start], ifNode, elseNode, initial, edges);
    result := Some(r);
  }

  lemma OneNodeJoins(nodes: Nodes, chain: seq<nat>)
    requires WfChain(nodes, chain)
    ensures |chain| == 1 ==> Joinable(nodes, chain)
  {
    if |chain| == 1 {
      var last := nodes[chain[0]];
      assert ForwardFrom(nodes, chain, Exits(nodes, chain), 0);
      assert ChainShape(nodes, chain) == map[chain[0] := EndsOf(last.conditionalEdge, last.fallthroughEdge)];
      assert Reduces(ChainShape(nodes, chain), Exits(nodes, chain), ChainShape(nodes, chain), 0);
    }
  }

  /** The if node is where the last node falls through to, unless only the else node is not the end. */
  predicate Oriented(nodes: Nodes, chain: seq<nat>, end: nat, r: IfCondition)
    requires chain != [] && chain[|chain| - 1] in nodes
  {
    var last := nodes[chain[|chain| - 1]];
    if last.conditionalEdge == end then r.ifNode == last.fallthroughEdge && r.elseNode.None?
    else if last.fallthroughEdge == end then r.ifNode == last.conditionalEdge && r.elseNode.None?
    else r.ifNode == last.fallthroughEdge && r.elseNode == Some(last.conditionalEdge)
  }

  /** Turns the one condition left towards the if node and leaves out an empty branch. */
  method Orient(nodes: Nodes, chain: seq<nat>, end: nat, e: Entry, ifNode: nat, elseNode: nat, ghost initial: Edges, ghost edges: Edges)
    returns (result: IfCondition)
    requires WfChain(nodes, chain) && Translated(nodes, chain, |chain|, initial)
    requires ifNode == nodes[chain[|chain| - 1]].fallthroughEdge && elseNode == nodes[chain[|chain| - 1]].conditionalEdge
    requires forall j :: 0 <= j < |chain| ==> ForwardFrom(nodes, chain, {ifNode, elseNode}, j)
    requires Simulates(initial, edges, {ifNode, elseNode}) && edges.Keys == {chain[0]} && chain[0] in initial
    requires StartKept(edges, chain[0], PointsTo(initial[chain[0]], chain[0]))
    requires e == edges[chain[0]] && ExitsKept(edges, ifNode, elseNode)
    ensures SameBranching(nodes, chain, end, result) && Oriented(nodes, chain, end, result)
  {
    var cond := e.cond;
    if e.ifEdge == elseNode && e.elseEdge == ifNode {
      cond := Negated(cond);
    } else {
      // The final edge assertion of the source.
      assert e.ifEdge == ifNode && e.elseEdge == elseNode;
    }
    ghost var straight := IfCondition(cond, ifNode, Some(elseNode));
    StraightBranches(nodes, chain, end, initial, edges, straight);
    if elseNode == end {
      result := IfCondition(cond, ifNode, None);
    } else if ifNode == end {
      result := IfCondition(Negated(cond), elseNode, None);
    } else {
      result := IfCondition(cond, ifNode, Some(elseNode));
    }
    SameEnd(nodes, chain, end, straight, result);
  }

  lemma LastHasExits(nodes: Nodes, chain: seq<nat>, initial: Edges)
    requires WfChain(nodes, chain) && Translated(nodes, chain, |chain|, initial)
    ensures var n := nodes[chain[|chain| - 1]]; ExitsKept(initial, n.fallthroughEdge, n.conditionalEdge)
  {
    var x := chain[|chain| - 1];
    assert chain[..|chain|] == chain;
    assert x in initial && HasExits(initial[x], nodes[x].fallthroughEdge, nodes[x].conditionalEdge);
  }

  lemma SingletonKeys(edges: Edges, start: nat)
    ensures |edges| == 1 && start in edges <==> edges.Keys == {start}
  {
    if |edges| == 1 && start in edges {
      assert edges.Keys == {start} + (edges.Keys - {start});
      assert |edges.Keys - {start}| == 0;
    }
    if edges.Keys == {start} {
      assert |edges| == |edges.Keys|;
    }
  }

  /** The condition turned towards the if node branches as the chain does. */
  lemma StraightBranches(nodes: Nodes, chain: seq<nat>, end: nat, initial: Edges, edges: Edges, r: IfCondition)
    requires WfChain(nodes, chain) && Translated(nodes, chain, |chain|, initial)
    requires forall j :: 0 <= j < |chain| ==> ForwardFrom(nodes, chain, Exits(nodes, chain), j)
    requires Simulates(initial, edges, Exits(nodes, chain)) && edges.Keys == {chain[0]} && chain[0] in initial
    requires StartKept(edges, chain[0], PointsTo(initial[chain[0]], chain[0]))
    requires r.ifNode == nodes[chain[|chain| - 1]].fallthroughEdge && r.elseNode == Some(nodes[chain[|chain| - 1]].conditionalEdge)
    requires var e := edges[chain[0]];
      if e.ifEdge == r.elseNode.value && e.elseEdge == r.ifNode then r.cond == Negated(e.cond)
      else e.ifEdge == r.ifNode && e.elseEdge == r.elseNode.value && r.cond == e.cond
    ensures SameBranching(nodes, chain, end, r)
  {
    forall m: Machine, h: History
      ensures ChainGoes(nodes, chain, m, h, Target(r, end, Eval(r.cond, m, h).0), Eval(r.cond, m, h).1)
    {
      CollapsedIsChain(nodes, chain, Exits(nodes, chain), initial, edges, m, h);
      NegatedEval(edges[chain[0]].cond, m, h);
    }
  }

  /** Dropping an else node that is `end`, or negating to drop an if node that is `end`, changes nothing. */
  lemma SameEnd(nodes: Nodes, chain: seq<nat>, end: nat, r: IfCondition, r': IfCondition)
    requires chain != [] && chain[|chain| - 1] in nodes && SameBranching(nodes, chain, end, r) && r.elseNode.Some?
    requires r' == (if r.elseNode.value == end then IfCondition(r.cond, r.ifNode, None)
                    else if r.ifNode == end then IfCondition(Negated(r.cond), r.elseNode.value, None)
                    else r)
    ensures SameBranching(nodes, chain, end, r')
  {
    forall m: Machine, h: History
      ensures ChainGoes(nodes, chain, m, h, Target(r', end, Eval(r'.cond, m, h).0), Eval(r'.cond, m, h).1)
    {
      NegatedEval(r.cond, m, h);
      assert ChainGoes(nodes, chain, m, h, Target(r, end, Eval(r.cond, m, h).0), Eval(r.cond, m, h).1);
    }
  }

  lemma PrefixWf(nodes: Nodes, chain: seq<nat>, k: nat)
    requires WfChain(nodes, chain) && 0 < k <= |chain|
    ensures WfChain(nodes, chain[..k])
  {
    assert forall i :: 0 <= i < k ==> chain[..k][i] == chain[i];
  }

  /** The first `k` nodes become one condition. */
  ghost predicate PrefixJoinable(nodes: Nodes, chain: seq<nat>, k: nat)
    requires WfChain(nodes, chain) && 0 < k <= |chain|
  {
    PrefixWf(nodes, chain, k);
    Joinable(nodes, chain[..k])
  }

  /** Shortens the chain from its end until a condition is found, which is before it runs empty. */
  method LongestCondition(nodes: Nodes, chain: seq<nat>, end: nat) returns (k: nat, result: IfCondition)
    requires WfChain(nodes, chain)
    ensures 0 < k <= |chain| && SameBranching(nodes, chain[..k], end, result)
    ensures PrefixJoinable(nodes, chain, k) && forall j :: k < j <= |chain| ==> !PrefixJoinable(nodes, chain, j)
  {
    k := |chain|;
    while true
      invariant 0 < k <= |chain|
      invariant forall j :: k < j <= |chain| ==> !PrefixJoinable(nodes, chain, j)
      decreases k
    {
      PrefixWf(nodes, chain, k);
      var attempt := TryMakeIfCondition(nodes, chain[..k], end);
      if attempt.Some? {
        return k, attempt.value;
      }
      k := k - 1;
    }
  }
}
