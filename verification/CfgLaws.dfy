/**
  The layout of `engine/cfg.py` said for each kind of statement: how many slots a body takes, which
  indices become partition points, and which edges there are.
 */
module CfgLaws {
  import opened Wrappers
  import opened CfgLayout
  import opened CfgPaths

  // ---------- slots ----------

  /** The branches without a statement. */
  function EmptyBranches(b: Body): nat
    decreases b, 0
  {
    match b
    case NoBody => 0
    case Many(items) => EmptyBranchesAll(items)
    case One(n) => EmptyBranchesNode(n)
  }

  function EmptyBranchesAll(items: seq<Node>): nat
    decreases items, 0
  {
    if items == [] then 0 else EmptyBranchesNode(items[0]) + EmptyBranchesAll(items[1..])
  }

  function EmptyBranchesNode(n: Node): nat
    decreases n, 1
  {
    match n
    case Simple(_) => 0
    case Cond(_, t, e) => EmptyBranch(t) + EmptyBranch(e)
    case Case(_, b) => EmptyBranches(b)
    case CaseItem(b) => EmptyBranches(b)
    case For(_, b) => EmptyBranches(b)
    case Block(b) => EmptyBranches(b)
    case Proc(_, b) => EmptyBranches(b)
    case Timing(_, b) => EmptyBranches(b)
  }

  /** A branch counts itself if it has no statement. */
  function EmptyBranch(b: Body): nat
    decreases b, 1
  {
    if Preorder(b) == [] then 1 else EmptyBranches(b)
  }

  /** The slots of a branch: one at least. */
  function BranchLength(b: Body): (k: nat)
    ensures k > 0
  {
    if |Flatten(b)| == 0 then 1 else |Flatten(b)|
  }

  /** One slot for every statement and one dummy for every empty branch. */
  lemma {:induction false} SlotsExactly(b: Body)
    ensures |Flatten(b)| == |Preorder(b)| + EmptyBranches(b)
    ensures Preorder(b) == [] ==> Flatten(b) == []
    decreases b, 0
  {
    match b
    case NoBody =>
    case Many(items) => SlotsAll(items);
    case One(n) => SlotsNode(n);
  }

  lemma {:induction false} SlotsAll(items: seq<Node>)
    ensures |FlattenAll(items)| == |PreorderAll(items)| + EmptyBranchesAll(items)
    ensures PreorderAll(items) == [] ==> FlattenAll(items) == []
    decreases items, 0
  {
    if items != [] {
      SlotsNode(items[0]);
      SlotsAll(items[1..]);
    }
  }

  lemma {:induction false} SlotsNode(n: Node)
    ensures |FlattenNode(n)| == |PreorderNode(n)| + EmptyBranchesNode(n)
    ensures PreorderNode(n) == [] ==> FlattenNode(n) == []
    decreases n, 1
  {
    match n
    case Simple(_) =>
    case Cond(_, t, e) =>
      SlotsBranch(t);
      SlotsBranch(e);
    case Case(_, b) => SlotsExactly(b);
    case CaseItem(b) => SlotsExactly(b);
    case For(_, b) => SlotsExactly(b);
    case Block(b) => SlotsExactly(b);
    case Proc(_, b) => SlotsExactly(b);
    case Timing(_, b) => SlotsExactly(b);
  }

  lemma {:induction false} SlotsBranch(b: Body)
    ensures |OrDummy(Flatten(b))| == |Preorder(b)| + EmptyBranch(b)
    decreases b, 1
  {
    SlotsExactly(b);
  }

  // ---------- partition points ----------

  /** A conditional calls for its own index and both branch starts; a case and a loop for their own; nothing else. */
  predicate CallsFor(n: Slot, p: int, x: int) {
    n.Some? &&
    match n.value
    case Cond(_, t, _) => x == p || x == p + 1 || x == p + 1 + BranchLength(t)
    case Case(_, _) => x == p
    case For(_, _) => x == p
    case _ => false
  }

  ghost predicate CalledFor(nodes: seq<Slot>, x: int) {
    exists p :: 0 <= p < |nodes| && CallsFor(nodes[p], p, x)
  }

  lemma CallsForExactly(n: Slot, p: int, x: int)
    ensures x in PointsAt(n, p) <==> CallsFor(n, p, x)
  {
  }

  /** The partition points: 0, the last index, and what the statements call for. */
  lemma PointsExactly(nodes: seq<Slot>, x: int)
    ensures x in AllPoints(nodes) <==> x == 0 || x == |nodes| - 1 || CalledFor(nodes, x)
  {
    PointsMember(nodes, 0, x);
    if x in PointsOf(nodes, 0) {
      var p :| 0 <= p < |nodes| && x in PointsAt(nodes[p], 0 + p);
      CallsForExactly(nodes[p], p, x);
    }
    if CalledFor(nodes, x) {
      var p :| 0 <= p < |nodes| && CallsFor(nodes[p], p, x);
      CallsForExactly(nodes[p], p, x);
      assert x in PointsAt(nodes[p], 0 + p);
    }
  }

  // ---------- edges ----------

  /** The edge leads from a conditional to the start of one of its branches. */
  predicate IsBranchEdge(nodes: seq<Slot>, e: seq<int>) {
    && |e| == 2 && 0 <= e[0] < |nodes| && nodes[e[0]].Some? && nodes[e[0]].value.Cond?
    && (e[1] == e[0] + 1 || e[1] == e[0] + 1 + BranchLength(nodes[e[0]].value.thenBody))
  }

  lemma EdgesAtExactly(n: Slot, p: int, e: seq<int>)
    requires |e| == 2 && e[0] == p
    ensures EdgesAt(n, p)[e] ==
              if n.Some? && n.value.Cond? && (e[1] == p + 1 || e[1] == p + 1 + BranchLength(n.value.thenBody))
              then 1 else 0
  {
    if n.Some? && n.value.Cond? {
      assert e == [p, e[1]];
    }
  }

  /** Besides the tuples of independent points, exactly these edges, once each. */
  lemma EdgesExactly(nodes: seq<Slot>, e: seq<int>)
    ensures EdgesOf(nodes, 0)[e] == if IsBranchEdge(nodes, e) then 1 else 0
  {
    EdgesCount(nodes, 0, e);
    if |e| == 2 && 0 <= e[0] < |nodes| {
      EdgesAtExactly(nodes[e[0]], e[0], e);
    }
  }

  // ---------- paths ----------

  /** A run may end where some edge leads and none goes on, or at block 0 if there are no edges at all. */
  ghost predicate EndsAt(edges: Edges, b: int) {
    || (edges == [] && b == 0)
    || ((exists i :: 0 <= i < |edges| && edges[i].1 == b) && forall i | 0 <= i < |edges| :: edges[i].0 != b)
  }

  /** From block 0 along block edges, no block twice, as far as it goes. */
  ghost predicate FullRun(edges: Edges, blocks: seq<int>) {
    && blocks != [] && blocks[0] == 0 && EndsAt(edges, blocks[|blocks| - 1])
    && (forall i | 0 <= i < |blocks| - 1 :: (blocks[i], blocks[i + 1]) in edges)
    && (forall i, j | 0 <= i < j < |blocks| :: blocks[i] != blocks[j])
  }

  ghost predicate BlockNumbers(edges: Edges) {
    forall i | 0 <= i < |edges| :: edges[i].0 >= 0 && edges[i].1 >= 0
  }

  lemma LeafEnds(edges: Edges, b: int)
    ensures EndsAt(edges, b) <==> b in Ends(edges) - Starts(edges) || (b == 0 && edges == [])
  {
    LeavesAreEnds(edges);
  }

  /** In the graph with the two dummies, a block is followed by blocks along its edges, or by the end. */
  lemma StepExactly(edges: Edges, u: int, v: int)
    requires BlockNumbers(edges)
    ensures GraphEdge(edges, -1, v) <==> v == 0
    ensures u >= 0 && v >= 0 ==> (GraphEdge(edges, u, v) <==> (u, v) in edges)
    ensures u >= 0 ==> (GraphEdge(edges, u, -2) <==> EndsAt(edges, u))
    ensures u >= 0 && v == -1 ==> !GraphEdge(edges, u, v)
    ensures !GraphEdge(edges, -2, v)
  {
    LeafEnds(edges, u);
    LeafEnds(edges, -1);
    LeafEnds(edges, -2);
  }

  lemma PathOfRun(edges: Edges, path: seq<int>, blocks: seq<int>)
    requires BlockNumbers(edges) && FullRun(edges, blocks) && path == [-1] + blocks + [-2]
    ensures SimplePath(edges, path)
  {
    RunIsBlocks(edges, blocks);
    forall i | 0 <= i < |path| - 1
      ensures GraphEdge(edges, path[i], path[i + 1])
    {
      StepExactly(edges, path[i], path[i + 1]);
      assert 0 < i < |path| - 2 ==> path[i] == blocks[i - 1] && path[i + 1] == blocks[i];
    }
  }

  lemma RunIsBlocks(edges: Edges, blocks: seq<int>)
    requires BlockNumbers(edges) && FullRun(edges, blocks)
    ensures forall i | 0 <= i < |blocks| :: blocks[i] >= 0
  {
    forall i | 0 < i < |blocks|
      ensures blocks[i] >= 0
    {
      assert (blocks[i - 1], blocks[i - 1 + 1]) in edges;
    }
  }

  lemma {:induction false} InnerIsBlock(edges: Edges, path: seq<int>, i: nat)
    requires BlockNumbers(edges) && SimplePath(edges, path) && 0 < i < |path| - 1
    ensures path[i] >= 0 && path[1] == 0
  {
    StepExactly(edges, -1, path[1]);
    if i > 1 {
      InnerIsBlock(edges, path, i - 1);
      assert GraphEdge(edges, path[i - 1], path[i - 1 + 1]);
      StepExactly(edges, path[i - 1], path[i]);
    }
  }

  lemma RunOfPath(edges: Edges, path: seq<int>, blocks: seq<int>)
    requires BlockNumbers(edges) && SimplePath(edges, path) && |path| >= 3 && blocks == path[1..|path| - 1]
    ensures FullRun(edges, blocks)
  {
    var last := |blocks| - 1;
    forall i | 0 <= i < last
      ensures (blocks[i], blocks[i + 1]) in edges
    {
      InnerIsBlock(edges, path, i + 1);
      InnerIsBlock(edges, path, i + 2);
      assert GraphEdge(edges, path[i + 1], path[i + 1 + 1]);
      StepExactly(edges, blocks[i], blocks[i + 1]);
    }
    InnerIsBlock(edges, path, last + 1);
    assert GraphEdge(edges, path[last + 1], path[last + 1 + 1]);
    StepExactly(edges, blocks[last], -2);
  }

  /** The simple paths between the dummies are exactly the full runs. */
  lemma SimplePathsExactly(edges: Edges, path: seq<int>)
    requires BlockNumbers(edges)
    ensures SimplePath(edges, path) <==>
              |path| >= 3 && path[0] == -1 && path[|path| - 1] == -2 && FullRun(edges, path[1..|path| - 1])
  {
    if SimplePath(edges, path) {
      StepExactly(edges, -1, path[1]);
      assert GraphEdge(edges, path[0], path[0 + 1]);
      RunOfPath(edges, path, path[1..|path| - 1]);
    }
    if |path| >= 3 && path[0] == -1 && path[|path| - 1] == -2 && FullRun(edges, path[1..|path| - 1]) {
      assert path == [-1] + path[1..|path| - 1] + [-2];
      PathOfRun(edges, path, path[1..|path| - 1]);
    }
  }
}
