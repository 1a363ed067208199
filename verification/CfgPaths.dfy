/**
  From edges between nodes to edges between blocks: what a branch direction read off two block
  numbers means, and why an if/else body always has a path from the dummy start to the dummy end.
 */
module CfgPaths {
  import opened CfgLayout
  import opened CfgBlocks

  /** All partition points of a finished walk, after `partition` added the last index. */
  function AllPoints(nodes: seq<Slot>): set<int> {
    {0} + PointsOf(nodes, 0) + {|nodes| - 1}
  }

  lemma PointOfSlot(nodes: seq<Slot>, p: nat, x: int)
    requires p < |nodes| && x in PointsAt(nodes[p], p)
    ensures x in AllPoints(nodes)
  {
    assert x in PointsAt(nodes[p], 0 + p);
    PointsMember(nodes, 0, x);
  }

  /** Every point but the two fixed ones belongs to a branching slot at or before it. */
  lemma SlotOfPoint(nodes: seq<Slot>, x: int) returns (p: nat)
    requires x in PointsOf(nodes, 0)
    ensures p < |nodes| && IsBranch(nodes[p]) && x in PointsAt(nodes[p], p) && p <= x
  {
    PointsMember(nodes, 0, x);
    p :| 0 <= p < |nodes| && x in PointsAt(nodes[p], 0 + p);
  }

  /** What the layout lemmas give for a conditional at p, in terms of node indices. */
  lemma CondPoints(nodes: seq<Slot>, p: nat)
    requires AllBranchesInPlace(nodes) && p < |nodes| && IsCond(nodes[p])
    ensures p in AllPoints(nodes) && p + 1 in AllPoints(nodes) && ElseStart(nodes[p].value, p) in AllPoints(nodes)
    ensures p + 1 < ElseStart(nodes[p].value, p) < |nodes|
  {
    assert BranchesInPlace(nodes, p);
    PointOfSlot(nodes, p, p);
    PointOfSlot(nodes, p, p + 1);
    PointOfSlot(nodes, p, ElseStart(nodes[p].value, p));
  }

  lemma PointsInRange(nodes: seq<Slot>, x: int)
    requires AllBranchesInPlace(nodes) && nodes != [] && x in AllPoints(nodes)
    ensures 0 <= x < |nodes|
  {
    if x in PointsOf(nodes, 0) {
      var p := SlotOfPoint(nodes, x);
      if IsCond(nodes[p]) {
        CondPoints(nodes, p);
      }
    }
  }

  lemma RankZero(nodes: seq<Slot>)
    requires AllBranchesInPlace(nodes) && nodes != []
    ensures Rank(AllPoints(nodes), 0) == 0
  {
    forall y | y in AllPoints(nodes)
      ensures y >= 0
    {
      PointsInRange(nodes, y);
    }
    assert (set y | y in AllPoints(nodes) && y < 0) == {};
  }

  /** Which block numbers the two edges of a conditional get. */
  lemma ConditionalBlocks(nodes: seq<Slot>, p: nat)
    requires AllBranchesInPlace(nodes) && p < |nodes| && IsCond(nodes[p])
    ensures var points := AllPoints(nodes);
            var b := BlockOf(points, p);
            var q := ElseStart(nodes[p].value, p);
            && (p > 0 ==> BlockOf(points, p + 1) == b + 1 && BlockOf(points, q) >= b + 2)
            && (p == 0 ==> BlockOf(points, p + 1) == b == 0 && BlockOf(points, q) >= 1)
  {
    var points := AllPoints(nodes);
    CondPoints(nodes, p);
    RankZero(nodes);
    RankNext(points, p);
    RankStrict(points, p + 1, ElseStart(nodes[p].value, p));
    if p > 0 {
      RankStrict(points, 0, p);
    }
  }

  /** The direction that `compute_direction` reads off two consecutive block numbers. */
  function Direction(from: int, to: int): int {
    if from + 1 == to then 1 else 0
  }

  /**
    Whatever edge leaves the block of a conditional above index 0, it is read as direction 1 exactly
    when it leads to the start of the then-branch.
   */
  lemma DirectionIsTrueEdge(nodes: seq<Slot>, p: nat, x: int)
    requires AllBranchesInPlace(nodes) && 0 < p < |nodes| && IsCond(nodes[p])
    requires x in AllPoints(nodes)
    ensures Direction(BlockOf(AllPoints(nodes), p), BlockOf(AllPoints(nodes), x)) == 1 <==> x == p + 1
  {
    var points := AllPoints(nodes);
    CondPoints(nodes, p);
    RankZero(nodes);
    RankStrict(points, 0, p);
    NextRankIsNextIndex(points, p, x);
  }

  /** At any index: the true edge is read as 1 exactly when the conditional is not the first node. */
  lemma TrueEdgeReadExactly(nodes: seq<Slot>, p: nat)
    requires AllBranchesInPlace(nodes) && p < |nodes| && IsCond(nodes[p])
    ensures Direction(BlockOf(AllPoints(nodes), p), BlockOf(AllPoints(nodes), p + 1)) == 1 <==> p > 0
  {
    ConditionalBlocks(nodes, p);
  }

  /** The false edge is read as 0, unless the conditional is the first node and its then-branch has no further point. */
  lemma FalseEdgeReadExactly(nodes: seq<Slot>, p: nat)
    requires AllBranchesInPlace(nodes) && p < |nodes| && IsCond(nodes[p])
    ensures var points := AllPoints(nodes);
            var q := ElseStart(nodes[p].value, p);
            Direction(BlockOf(points, p), BlockOf(points, q)) == 0 <==>
              (p > 0 || exists x :: x in points && 1 < x < q)
  {
    var points := AllPoints(nodes);
    var q := ElseStart(nodes[p].value, p);
    ConditionalBlocks(nodes, p);
    if p == 0 {
      CondPoints(nodes, p);
      RankZero(nodes);
      RankNext(points, 0);
      RankNext(points, 1);
      if x :| x in points && 1 < x < q {
        RankMonotone(points, 2, x);
        RankStrict(points, x, q);
      } else {
        assert (set y | y in points && y < q) == (set y | y in points && y < 2);
      }
    }
  }

  // ---------- statements that no block holds ----------

  /** Of two neighbouring points before the last, the second is covered only if the first is 0. */
  lemma SecondKept(list: seq<int>, n: nat, p: nat)
    requires Increasing(list) && list != [] && list[0] == 0 && list[|list| - 1] == n - 1
    requires p in list && p + 1 in list && p + 1 < n - 1
    ensures Covered(Slices(list, n), p + 1) <==> p == 0
  {
    SlicesCover(list, n, p + 1);
    var i :| 0 <= i < |list| && list[i] == p;
    var j :| 0 <= j < |list| && list[j] == p + 1;
    assert i < j;
    assert p == 0 ==> i == 0;
  }

  /** The first statement of a then-branch is in some block exactly when its conditional is the first node. */
  lemma ThenStartKept(nodes: seq<Slot>, list: seq<int>, p: nat)
    requires AllBranchesInPlace(nodes) && p < |nodes| && IsCond(nodes[p])
    requires Lists(list, AllPoints(nodes))
    ensures Covered(Slices(list, |nodes|), p + 1) <==> p == 0
  {
    CondBeforeEnd(nodes, list, AllPoints(nodes), p);
    assert p in list && p + 1 in list;
    SecondKept(list, |nodes|, p);
  }

  /** The first statement of an else-branch is in some block exactly when it is the last node. */
  lemma ElseStartKept(nodes: seq<Slot>, list: seq<int>, p: nat)
    requires AllBranchesInPlace(nodes) && p < |nodes| && IsCond(nodes[p])
    requires Lists(list, AllPoints(nodes))
    ensures var q := ElseStart(nodes[p].value, p);
            Covered(Slices(list, |nodes|), q) <==> q == |nodes| - 1
  {
    CondPoints(nodes, p);
    EndsOfList(nodes, list);
    SlicesCover(list, |nodes|, ElseStart(nodes[p].value, p));
    var i := IndexInList(list, AllPoints(nodes), p);
    var j := IndexInList(list, AllPoints(nodes), p + 1);
  }

  lemma EndsOfList(nodes: seq<Slot>, list: seq<int>)
    requires AllBranchesInPlace(nodes) && nodes != [] && Lists(list, AllPoints(nodes))
    ensures list != [] && list[0] == 0 && list[|list| - 1] == |nodes| - 1
  {
    assert 0 in list && |nodes| - 1 in list;
    assert list[0] in list && list[|list| - 1] in list;
    PointsInRange(nodes, list[0]);
    PointsInRange(nodes, list[|list| - 1]);
  }

  lemma NeighboursInList(list: seq<int>, i: nat, j: nat)
    requires Increasing(list) && 0 < i < |list| && j < |list| && list[j] == list[i] + 1 && list[j] < list[|list| - 1]
    ensures NeighbouringPoints(list)
  {
    assert i < j;
    assert list[i] < list[i + 1];
    assert j == i + 1;
    assert 2 <= j < |list| - 1 && list[j] == list[j - 1] + 1;
  }

  lemma NeighboursLoseBlock(list: seq<int>, points: set<int>, n: nat, x: int)
    requires Lists(list, points) && x in points && x + 1 in points
    requires list != [] && list[0] < x && x + 1 < list[|list| - 1]
    ensures BlockOf(points, list[|list| - 1]) >= |Slices(list, n)|
  {
    var i := IndexInList(list, points, x);
    var j := IndexInList(list, points, x + 1);
    NeighboursInList(list, i, j);
    BlockCount(list, points, n);
  }

  lemma CondBeforeEnd(nodes: seq<Slot>, list: seq<int>, points: set<int>, p: nat)
    requires AllBranchesInPlace(nodes) && p < |nodes| && IsCond(nodes[p])
    requires points == AllPoints(nodes) && Lists(list, points)
    ensures p in points && p + 1 in points && list != [] && list[0] == 0 && p + 1 < list[|list| - 1] == |nodes| - 1
  {
    CondPoints(nodes, p);
    EndsOfList(nodes, list);
  }

  /** One conditional above index 0 already leaves the last block number without a block. */
  lemma ConditionalLosesBlock(nodes: seq<Slot>, list: seq<int>, p: nat)
    requires AllBranchesInPlace(nodes) && 0 < p < |nodes| && IsCond(nodes[p])
    requires Lists(list, AllPoints(nodes))
    ensures BlockOf(AllPoints(nodes), |nodes| - 1) >= |Slices(list, |nodes|)|
  {
    CondBeforeEnd(nodes, list, AllPoints(nodes), p);
    NeighboursLoseBlock(list, AllPoints(nodes), |nodes|, p);
  }

  lemma IndexInList(list: seq<int>, points: set<int>, x: int) returns (i: nat)
    requires Lists(list, points) && x in points
    ensures i < |list| && list[i] == x
  {
    assert x in list;
    i :| 0 <= i < |list| && list[i] == x;
  }

  // ---------- paths ----------

  type Edges = seq<(int, int)>

  function Starts(edges: Edges): set<int> {
    set i | 0 <= i < |edges| :: edges[i].0
  }

  function Ends(edges: Edges): set<int> {
    set i | 0 <= i < |edges| :: edges[i].1
  }

  /** The blocks that some edge enters and none leaves. */
  ghost predicate Leaves(edges: Edges, leaves: set<int>) {
    forall b :: b in leaves <==>
      (exists i :: 0 <= i < |edges| && edges[i].1 == b) && forall i | 0 <= i < |edges| :: edges[i].0 != b
  }

  lemma LeavesAreEnds(edges: Edges)
    ensures Leaves(edges, Ends(edges) - Starts(edges))
  {
    forall b
      ensures b in Ends(edges) - Starts(edges) <==>
        (exists i :: 0 <= i < |edges| && edges[i].1 == b) && forall i | 0 <= i < |edges| :: edges[i].0 != b
    {
      assert b in Starts(edges) <==> exists i :: 0 <= i < |edges| && edges[i].0 == b;
    }
  }

  /** The graph that `build_cfg` makes: -1 is the dummy start, -2 the dummy end. */
  predicate GraphEdge(edges: Edges, u: int, v: int) {
    || (u == -1 && v == 0)
    || (u, v) in edges
    || (v == -2 && u in Ends(edges) - Starts(edges))
    || (v == -2 && u == 0 && edges == [])
  }

  ghost predicate IsGraph(graph: set<(int, int)>, edges: Edges) {
    forall u, v :: (u, v) in graph <==> GraphEdge(edges, u, v)
  }

  ghost predicate SimplePath(edges: Edges, path: seq<int>) {
    && |path| >= 2 && path[0] == -1 && path[|path| - 1] == -2
    && (forall i | 0 <= i < |path| - 1 :: GraphEdge(edges, path[i], path[i + 1]))
    && (forall i, j | 0 <= i < j < |path| :: path[i] != path[j])
  }

  /** The block edges are the images of the node edges. */
  ghost predicate BlockEdges(edges: Edges, edgelist: seq<seq<int>>, points: set<int>) {
    && |edges| == |edgelist|
    && forall i | 0 <= i < |edges| ::
         |edgelist[i]| >= 2 && edges[i] == (BlockOf(points, edgelist[i][0]), BlockOf(points, edgelist[i][1]))
  }

  /** What the walk guarantees about its edges. */
  ghost predicate WalkEdges(nodes: seq<Slot>, edgelist: seq<seq<int>>, independent: multiset<seq<int>>) {
    && multiset(edgelist) == EdgesOf(nodes, 0) + independent
    && forall e | e in independent :: IndependentEdge(nodes, e)
  }

  ghost predicate OnlyIfElse(nodes: seq<Slot>) {
    forall p | 0 <= p < |nodes| && nodes[p].Some? :: !nodes[p].value.Case? && !nodes[p].value.For?
  }

  lemma EdgeSource(nodes: seq<Slot>, edgelist: seq<seq<int>>, independent: multiset<seq<int>>, e: seq<int>)
    requires WalkEdges(nodes, edgelist, independent) && OnlyIfElse(nodes) && e in edgelist
    ensures |e| >= 2 && 0 <= e[0] < |nodes| && IsCond(nodes[e[0]])
  {
    assert e in multiset(edgelist);
    if e !in independent {
      EdgesCount(nodes, 0, e);
    }
  }

  lemma FalseEdgePresent(nodes: seq<Slot>, edgelist: seq<seq<int>>, independent: multiset<seq<int>>, p: nat)
    requires WalkEdges(nodes, edgelist, independent) && p < |nodes| && IsCond(nodes[p])
    ensures [p, ElseStart(nodes[p].value, p)] in edgelist
  {
    var e := [p, ElseStart(nodes[p].value, p)];
    EdgesCount(nodes, 0, e);
    assert e in multiset(edgelist);
  }

  /** A block that some edge leaves has an edge to a later block. */
  lemma StepForward(nodes: seq<Slot>, edgelist: seq<seq<int>>, independent: multiset<seq<int>>, edges: Edges, b: int)
      returns (next: int)
    requires AllBranchesInPlace(nodes) && OnlyIfElse(nodes) && WalkEdges(nodes, edgelist, independent)
    requires BlockEdges(edges, edgelist, AllPoints(nodes)) && b in Starts(edges)
    ensures next > b && (b, next) in edges && next <= Rank(AllPoints(nodes), |nodes|)
  {
    var points := AllPoints(nodes);
    var i :| 0 <= i < |edges| && edges[i].0 == b;
    var e := edgelist[i];
    assert e in edgelist;
    EdgeSource(nodes, edgelist, independent, e);
    var p := e[0];
    var q := ElseStart(nodes[p].value, p);
    FalseEdgePresent(nodes, edgelist, independent, p);
    var j :| 0 <= j < |edgelist| && edgelist[j] == [p, q];
    next := BlockOf(points, q);
    assert edges[j] == (b, next);
    ConditionalBlocks(nodes, p);
    CondPoints(nodes, p);
    RankMonotone(points, q, |nodes|);
  }

  /** From any block that is the dummy start's successor or the end of an edge, climb to a leaf. */
  lemma {:induction false} ClimbToLeaf(nodes: seq<Slot>, edgelist: seq<seq<int>>, independent: multiset<seq<int>>,
                                       edges: Edges, b: int) returns (climb: seq<int>)
    requires AllBranchesInPlace(nodes) && OnlyIfElse(nodes) && WalkEdges(nodes, edgelist, independent)
    requires BlockEdges(edges, edgelist, AllPoints(nodes)) && b in Starts(edges) + Ends(edges) && b >= 0
    ensures climb != [] && climb[0] == b && climb[|climb| - 1] in Ends(edges) - Starts(edges)
    ensures forall i | 0 <= i < |climb| - 1 :: (climb[i], climb[i + 1]) in edges
    ensures forall i | 0 <= i < |climb| :: climb[i] >= b
    ensures Increasing(climb)
    decreases Rank(AllPoints(nodes), |nodes|) - b
  {
    if b in Starts(edges) {
      var next := StepForward(nodes, edgelist, independent, edges, b);
      var j :| 0 <= j < |edges| && edges[j] == (b, next);
      assert edges[j].1 in Ends(edges);
      var rest := ClimbToLeaf(nodes, edgelist, independent, edges, next);
      climb := [b] + rest;
    } else {
      climb := [b];
    }
  }

  lemma {:induction false} FirstCond(nodes: seq<Slot>, p: nat) returns (first: nat)
    requires p < |nodes| && IsCond(nodes[p])
    ensures first < |nodes| && IsCond(nodes[first]) && forall i | 0 <= i < first :: !IsCond(nodes[i])
  {
    if i :| 0 <= i < p && IsCond(nodes[i]) {
      first := FirstCond(nodes, i);
    } else {
      first := p;
    }
  }

  /** The first conditional lies in block 0. */
  lemma FirstCondInBlockZero(nodes: seq<Slot>, first: nat)
    requires AllBranchesInPlace(nodes) && OnlyIfElse(nodes)
    requires first < |nodes| && IsCond(nodes[first]) && forall i | 0 <= i < first :: !IsCond(nodes[i])
    ensures BlockOf(AllPoints(nodes), first) == 0
  {
    var points := AllPoints(nodes);
    CondPoints(nodes, first);
    forall y | y in points
      ensures y == 0 || y >= first
    {
      if y in PointsOf(nodes, 0) {
        var p := SlotOfPoint(nodes, y);
        assert IsCond(nodes[p]);
      }
    }
    assert forall y | y in points && y < first :: y == 0;
    SubsetCard(set y | y in points && y < first, {0});
  }

  /**
    For every body whose only branching is if/else, in whatever order the independent branch points
    are listed, the graph has a simple path from the dummy start to the dummy end.
   */
  lemma PathExists(nodes: seq<Slot>, edgelist: seq<seq<int>>, independent: multiset<seq<int>>, edges: Edges)
      returns (path: seq<int>)
    requires AllBranchesInPlace(nodes) && OnlyIfElse(nodes) && WalkEdges(nodes, edgelist, independent)
    requires BlockEdges(edges, edgelist, AllPoints(nodes))
    ensures SimplePath(edges, path)
  {
    if edges == [] {
      path := [-1, 0, -2];
    } else {
      assert edgelist[0] in edgelist;
      EdgeSource(nodes, edgelist, independent, edgelist[0]);
      var first := FirstCond(nodes, edgelist[0][0]);
      FirstCondInBlockZero(nodes, first);
      FalseEdgePresent(nodes, edgelist, independent, first);
      var j :| 0 <= j < |edgelist| && edgelist[j] == [first, ElseStart(nodes[first].value, first)];
      assert edges[j].0 == 0;
      var climb := ClimbToLeaf(nodes, edgelist, independent, edges, 0);
      path := [-1] + climb + [-2];
      ClimbIsPath(edges, climb);
    }
  }

  lemma ClimbIsPath(edges: Edges, climb: seq<int>)
    requires climb != [] && climb[0] == 0 && climb[|climb| - 1] in Ends(edges) - Starts(edges)
    requires forall i | 0 <= i < |climb| - 1 :: (climb[i], climb[i + 1]) in edges
    requires (forall i | 0 <= i < |climb| :: climb[i] >= 0) && Increasing(climb)
    ensures SimplePath(edges, [-1] + climb + [-2])
  {
    var path := [-1] + climb + [-2];
    forall i | 0 <= i < |path| - 1
      ensures GraphEdge(edges, path[i], path[i + 1])
    {
      if 0 < i < |climb| {
        assert path[i] == climb[i - 1] && path[i + 1] == climb[i];
      }
    }
  }

  // ---------- directions along a path ----------

  /** Both ends of an edge are partition points. */
  ghost predicate EdgeAtPoints(e: seq<int>, points: set<int>) {
    |e| >= 2 && e[0] in points && e[1] in points
  }

  lemma WalkEdgeAtPoints(nodes: seq<Slot>, edgelist: seq<seq<int>>, independent: multiset<seq<int>>, e: seq<int>)
    requires AllBranchesInPlace(nodes) && WalkEdges(nodes, edgelist, independent) && e in edgelist
    ensures EdgeAtPoints(e, AllPoints(nodes))
  {
    assert e in multiset(edgelist);
    if e in independent {
      PointOfSlot(nodes, e[0], e[0]);
      PointOfSlot(nodes, e[1], e[1]);
    } else {
      OwnEdgeAtPoints(nodes, e);
    }
  }

  lemma OwnEdgeAtPoints(nodes: seq<Slot>, e: seq<int>)
    requires AllBranchesInPlace(nodes) && e in EdgesOf(nodes, 0)
    ensures EdgeAtPoints(e, AllPoints(nodes))
  {
    EdgesCount(nodes, 0, e);
    CondPoints(nodes, e[0]);
  }

  lemma WalkEdgesAtPoints(nodes: seq<Slot>, edgelist: seq<seq<int>>, independent: multiset<seq<int>>)
    requires AllBranchesInPlace(nodes) && WalkEdges(nodes, edgelist, independent)
    ensures forall i | 0 <= i < |edgelist| :: EdgeAtPoints(edgelist[i], AllPoints(nodes))
  {
    forall i | 0 <= i < |edgelist|
      ensures EdgeAtPoints(edgelist[i], AllPoints(nodes))
    {
      WalkEdgeAtPoints(nodes, edgelist, independent, edgelist[i]);
    }
  }

  /** The step from block u to block v is the image of an edge to the start of a then-branch. */
  ghost predicate TrueStep(nodes: seq<Slot>, edgelist: seq<seq<int>>, u: int, v: int) {
    exists e :: e in edgelist && IsTrueEdge(nodes, e, u, v)
  }

  ghost predicate IsTrueEdge(nodes: seq<Slot>, e: seq<int>, u: int, v: int) {
    && |e| >= 2 && 0 <= e[0] < |nodes| && IsCond(nodes[e[0]]) && e[1] == e[0] + 1
    && u == BlockOf(AllPoints(nodes), e[0]) && v == BlockOf(AllPoints(nodes), e[1])
  }

  /** An inner step of a path is an edge, or the last step, which is read as 0. */
  lemma InnerStep(edges: Edges, path: seq<int>, j: nat)
    requires SimplePath(edges, path) && 0 < j < |path| - 1
    requires forall i | 0 <= i < |edges| :: edges[i].0 >= 0 && edges[i].1 >= 0
    ensures (path[j], path[j + 1]) in edges || (path[j] >= 0 && path[j + 1] == -2)
  {
    assert GraphEdge(edges, path[j], path[j + 1]);
    assert path[j] != path[0];
  }

  /**
    Every step of a path is read as direction 1 exactly when it takes a true edge.  Whether the number
    it leads to selects the block of that branch is another matter (CfgSelection).
   */
  lemma PathDirections(nodes: seq<Slot>, edgelist: seq<seq<int>>, independent: multiset<seq<int>>, edges: Edges,
                       path: seq<int>, j: nat)
    requires AllBranchesInPlace(nodes) && OnlyIfElse(nodes) && (nodes != [] ==> !IsCond(nodes[0]))
    requires WalkEdges(nodes, edgelist, independent) && BlockEdges(edges, edgelist, AllPoints(nodes))
    requires SimplePath(edges, path) && 0 < j < |path| - 1
    ensures Direction(path[j], path[j + 1]) == 1 <==> TrueStep(nodes, edgelist, path[j], path[j + 1])
  {
    var u, v := path[j], path[j + 1];
    if TrueStep(nodes, edgelist, u, v) {
      TrueStepRead(nodes, edgelist, u, v);
    }
    if Direction(u, v) == 1 {
      InnerStep(edges, path, j);
      StepRead(nodes, edgelist, independent, edges, u, v);
    }
  }

  lemma TrueStepRead(nodes: seq<Slot>, edgelist: seq<seq<int>>, u: int, v: int)
    requires AllBranchesInPlace(nodes) && (nodes != [] ==> !IsCond(nodes[0])) && TrueStep(nodes, edgelist, u, v)
    ensures Direction(u, v) == 1
  {
    var e: seq<int> :| e in edgelist && IsTrueEdge(nodes, e, u, v);
    TrueEdgeReadExactly(nodes, e[0]);
  }

  lemma StepRead(nodes: seq<Slot>, edgelist: seq<seq<int>>, independent: multiset<seq<int>>, edges: Edges,
                 u: int, v: int)
    requires AllBranchesInPlace(nodes) && OnlyIfElse(nodes) && (nodes != [] ==> !IsCond(nodes[0]))
    requires WalkEdges(nodes, edgelist, independent) && BlockEdges(edges, edgelist, AllPoints(nodes))
    requires (u, v) in edges && Direction(u, v) == 1
    ensures TrueStep(nodes, edgelist, u, v)
  {
    var i :| 0 <= i < |edges| && edges[i] == (u, v);
    EdgeRead(nodes, edgelist, independent, edgelist[i], u, v);
  }

  lemma EdgeRead(nodes: seq<Slot>, edgelist: seq<seq<int>>, independent: multiset<seq<int>>, e: seq<int>,
                 u: int, v: int)
    requires AllBranchesInPlace(nodes) && OnlyIfElse(nodes) && (nodes != [] ==> !IsCond(nodes[0]))
    requires WalkEdges(nodes, edgelist, independent) && e in edgelist && |e| >= 2
    requires u == BlockOf(AllPoints(nodes), e[0]) && v == BlockOf(AllPoints(nodes), e[1]) && Direction(u, v) == 1
    ensures IsTrueEdge(nodes, e, u, v)
  {
    EdgeSource(nodes, edgelist, independent, e);
    WalkEdgeAtPoints(nodes, edgelist, independent, e);
    DirectionIsTrueEdge(nodes, e[0], e[1]);
  }

  /** If the first node is a conditional, no path takes its true edge. */
  lemma FirstTrueEdgeOnNoPath(nodes: seq<Slot>, edges: Edges, path: seq<int>, j: nat)
    requires AllBranchesInPlace(nodes) && nodes != [] && IsCond(nodes[0])
    requires SimplePath(edges, path) && j < |path| - 1
    ensures !IsTrueEdge(nodes, [0, 1], path[j], path[j + 1])
  {
    ConditionalBlocks(nodes, 0);
    assert path[j] != path[j + 1];
  }
}
