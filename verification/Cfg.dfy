/**
  The CFG object of `engine/cfg.py`.  The recursive walk fills the node list, the partition points
  and the edge list in place while it keeps an index counter and a stack of block flags; the later
  stages cut blocks, renumber edges and read branch directions back from block numbers.
 */
module Cfg {
  import opened Wrappers
  import opened CfgLayout
  import opened CfgMarks
  import opened CfgRecord
  import opened CfgBlocks
  import opened CfgPaths

  /** Exactly the members of a set, each once. */
  ghost predicate IsListOf<T(!new)>(order: seq<T>, s: set<T>) {
    && |order| == |s|
    && (forall x :: x in order <==> x in s)
    && forall i, j | 0 <= i < j < |order| :: order[i] != order[j]
  }

  /** Some order of a finite set, as iterating a Python set gives. */
  method ListOf<T(==, !new)>(s: set<T>) returns (order: seq<T>)
    ensures IsListOf(order, s)
  {
    order := [];
    var rest := s;
    while rest != {}
      invariant rest <= s && |order| + |rest| == |s|
      invariant forall x :: x in s <==> x in order || x in rest
      invariant forall x | x in order :: x !in rest
      invariant forall i, j | 0 <= i < j < |order| :: order[i] != order[j]
      decreases rest
    {
      var x :| x in rest;
      order := order + [x];
      rest := rest - {x};
    }
  }

  /** A Python slice s[lo:hi]: negative bounds count from the end, and both are clipped. */
  function PySlice<T>(s: seq<T>, lo: int, hi: int): (r: seq<T>)
    ensures 0 <= lo <= hi <= |s| ==> r == s[lo..hi]
    ensures s == [] ==> r == []
  {
    var a := if lo < 0 then (if lo + |s| < 0 then 0 else lo + |s|) else if lo > |s| then |s| else lo;
    var b := if hi < 0 then (if hi + |s| < 0 then 0 else hi + |s|) else if hi > |s| then |s| else hi;
    if a <= b then s[a..b] else []
  }

  /** Independent edges and remembered points join branching slots. */
  ghost predicate BranchFacts(nodes: seq<Slot>, independent: multiset<seq<int>>, points: map<int, set<int>>) {
    && (forall e | e in independent :: IndependentEdge(nodes, e))
    && (forall d | d in points :: BranchSlots(nodes, points[d]))
  }

  /** The tuples in the edge list are lists of these sets, in some order each. */
  ghost predicate ListsOf(lists: seq<seq<int>>, tuples: seq<Tuple>) {
    |lists| == |tuples| && forall i | 0 <= i < |lists| :: IsListOf(lists[i], tuples[i].members)
  }

  lemma OneMoreSlot(nodes: seq<Slot>, n: Slot, independent: multiset<seq<int>>, points: map<int, set<int>>)
    requires BranchFacts(nodes, independent, points)
    ensures BranchFacts(nodes + [n], independent, points)
  {
  }

  class Cfg {
    var allNodes: seq<Slot>
    var currIdx: int
    var partitionPoints: set<int>
    var edgelist: seq<seq<int>>
    var indBranchPoints: map<int, set<int>>
    var blockSmt: seq<bool>
    var blockStmtDepth: int
    var basicBlockList: seq<seq<Slot>>
    var cfgEdges: Edges
    var leaves: set<int>
    ghost var branchEdges: multiset<seq<int>>   // the edges that conditionals own
    ghost var independent: multiset<seq<int>>   // the edges between independent branch points
    ghost var lists: seq<seq<int>>              // the same, in the order in which they were made
    ghost var tuples: seq<Tuple>                // their members, and where they were made

    ghost predicate Valid()
      reads this
    {
      && currIdx == |allNodes|
      && 0 <= blockStmtDepth && |blockSmt| == blockStmtDepth + 1
      && multiset(edgelist) == branchEdges + independent
      && BranchFacts(allNodes, independent, indBranchPoints)
      && independent == multiset(lists) && ListsOf(lists, tuples)
    }

    ghost function MarksNow(): Marks
      reads this
    {
      Marks(indBranchPoints, tuples)
    }

    /** Whether a list of nodes is visited as the list of a block. */
    predicate InBlock()
      requires 0 <= blockStmtDepth < |blockSmt|
      reads this
    {
      blockSmt[blockStmtDepth]
    }

    ghost function Recorded(): Record
      reads this
    {
      Record(allNodes, partitionPoints, branchEdges)
    }

    /** The walk leaves the block stack as it found it, and touches nothing of the later stages. */
    twostate predicate StackRestored()
      reads this
    {
      && blockSmt == old(blockSmt) && blockStmtDepth == old(blockStmtDepth)
      && basicBlockList == old(basicBlockList) && cfgEdges == old(cfgEdges)
    }

    constructor ()
      ensures Valid() && Recorded() == Record([], {0}, multiset{})
      ensures basicBlockList == [] && cfgEdges == []
      ensures MarksNow() == Marks(map[1 := {}], []) && blockStmtDepth == 0 && !InBlock()
    {
      allNodes, currIdx, partitionPoints, edgelist := [], 0, {0}, [];
      indBranchPoints, blockSmt, blockStmtDepth := map[1 := {}], [false], 0;
      basicBlockList, cfgEdges, leaves := [], [], {};
      branchEdges, independent, lists, tuples := multiset{}, multiset{}, [], [];
    }

    method AppendPlain(n: Slot)
      requires Valid() && !IsBranch(n)
      modifies this
      ensures Valid() && Recorded() == After(old(Recorded()), [n]) && MarksNow() == old(MarksNow())
      ensures StackRestored()
    {
      AfterPlain(Recorded(), n);
      OneMoreSlot(allNodes, n, independent, indBranchPoints);
      allNodes := allNodes + [n];
      currIdx := currIdx + 1;
    }

    /** A branching node: appended as a partition point, and remembered as independent if a block lists it. */
    method AppendBranch(n: Node, listed: bool)
      requires Valid() && IsBranch(Some(n))
      modifies this
      ensures Valid() && StackRestored()
      ensures n.Cond? ==> Recorded() == Entered(old(Recorded()), n)
      ensures !n.Cond? ==> Recorded() == After(old(Recorded()), [Some(n)])
      ensures MarksNow() == Own(n, old(currIdx), blockStmtDepth, InBlock(), listed, old(MarksNow()))
    {
      AppendPoint(n);
      if listed && blockSmt[blockStmtDepth] {
        Remember();
      }
    }

    method AppendPoint(n: Node)
      requires Valid() && IsBranch(Some(n))
      modifies this
      ensures Valid() && StackRestored() && MarksNow() == old(MarksNow())
      ensures currIdx == old(currIdx) + 1 && IsBranch(allNodes[currIdx - 1])
      ensures n.Cond? ==> Recorded() == Entered(old(Recorded()), n)
      ensures !n.Cond? ==> Recorded() == After(old(Recorded()), [Some(n)])
    {
      if !n.Cond? {
        AfterBranch(Recorded(), Some(n));
      }
      OneMoreSlot(allNodes, Some(n), independent, indBranchPoints);
      allNodes := allNodes + [Some(n)];
      partitionPoints := partitionPoints + {currIdx};
      currIdx := currIdx + 1;
    }

    /** The last slot is remembered under the block depth. */
    method Remember()
      requires Valid() && currIdx > 0 && IsBranch(allNodes[currIdx - 1])
      modifies this
      ensures Valid() && StackRestored() && Recorded() == old(Recorded()) && tuples == old(tuples)
      ensures indBranchPoints == Marked(old(indBranchPoints), blockStmtDepth, currIdx - 1)
    {
      indBranchPoints := Marked(indBranchPoints, blockStmtDepth, currIdx - 1);
    }

    /** `resolve_independent_branch_pts`: one tuple of all points of this depth, in any order. */
    method Resolve(idx: int, ghost start: int)
      requires Valid() && idx in indBranchPoints
      modifies this
      ensures Valid() && StackRestored() && Recorded() == old(Recorded()) && indBranchPoints == old(indBranchPoints)
      ensures |indBranchPoints[idx]| <= 1 ==> edgelist == old(edgelist)
      ensures |indBranchPoints[idx]| > 1 ==>
                |edgelist| == |old(edgelist)| + 1 && edgelist[..|old(edgelist)|] == old(edgelist)
                && IsListOf(edgelist[|old(edgelist)|], indBranchPoints[idx])
      ensures MarksNow() == Closed(old(MarksNow()), idx, start, currIdx)
    {
      if |indBranchPoints[idx]| <= 1 {
        return;
      }
      var points := ListOf(indBranchPoints[idx]);
      AddTuple(points, Tuple(idx, start, currIdx, indBranchPoints[idx]));
    }

    method AddTuple(points: seq<int>, ghost t: Tuple)
      requires Valid() && IsListOf(points, t.members) && BranchSlots(allNodes, t.members) && |t.members| > 1
      modifies this
      ensures Valid() && StackRestored() && Recorded() == old(Recorded()) && indBranchPoints == old(indBranchPoints)
      ensures edgelist == old(edgelist) + [points] && tuples == old(tuples) + [t]
    {
      ListedEdge(allNodes, points, t.members);
      TupleAdded(allNodes, independent, indBranchPoints, edgelist, branchEdges, points);
      ListsAdded(lists, tuples, points, t);
      edgelist := edgelist + [points];
      independent := independent + multiset{points};
      lists, tuples := lists + [points], tuples + [t];
    }

    static lemma TupleAdded(nodes: seq<Slot>, independent: multiset<seq<int>>, marked: map<int, set<int>>,
                            edges: seq<seq<int>>, own: multiset<seq<int>>, points: seq<int>)
      requires BranchFacts(nodes, independent, marked) && IndependentEdge(nodes, points)
      requires multiset(edges) == own + independent
      ensures BranchFacts(nodes, independent + multiset{points}, marked)
      ensures multiset(edges + [points]) == own + (independent + multiset{points})
    {
    }

    static lemma ListsAdded(lists: seq<seq<int>>, tuples: seq<Tuple>, points: seq<int>, t: Tuple)
      requires ListsOf(lists, tuples) && IsListOf(points, t.members)
      ensures ListsOf(lists + [points], tuples + [t])
      ensures multiset(lists + [points]) == multiset(lists) + multiset{points}
    {
    }

    static lemma ListedEdge(nodes: seq<Slot>, points: seq<int>, members: set<int>)
      requires IsListOf(points, members) && BranchSlots(nodes, members) && |members| > 1
      ensures IndependentEdge(nodes, points)
    {
      assert forall i | 0 <= i < |points| :: points[i] in points;
    }

    method AddEdge(e: seq<int>)
      requires Valid()
      modifies this
      ensures Valid() && Recorded() == old(Recorded()).(edges := old(branchEdges) + multiset{e})
      ensures StackRestored() && MarksNow() == old(MarksNow())
    {
      edgelist := edgelist + [e];
      branchEdges := branchEdges + multiset{e};
    }

    /** `basic_blocks_sv`. */
    method BasicBlocks(b: Body)
      requires Valid()
      modifies this
      ensures Valid() && Recorded() == After(old(Recorded()), Flatten(b))
      ensures StackRestored()
      ensures MarksNow() == MarksOf(b, old(currIdx), blockStmtDepth, old(InBlock()), old(MarksNow()))
      decreases b, 0
    {
      match b
      case NoBody => AfterNothing(Recorded());
      case One(n) => VisitNode(n, false);
      case Many(items) => VisitItems(items);
    }

    static lemma ItemStep(r: Record, items: seq<Node>, i: nat, base: int, depth: int, inBlock: bool, m: Marks)
      requires i < |items|
      ensures After(After(r, FlattenAll(items[..i])), FlattenNode(items[i])) == After(r, FlattenAll(items[..i + 1]))
      ensures |FlattenAll(items[..i + 1])| == |FlattenAll(items[..i])| + |FlattenNode(items[i])|
      ensures MarksNode(items[i], base + |FlattenAll(items[..i])|, depth, inBlock, true,
                        MarksAll(items[..i], base, depth, inBlock, m)) ==
                MarksAll(items[..i + 1], base, depth, inBlock, m)
    {
      assert items[..i + 1] == items[..i] + [items[i]];
      FlattenAppend(items[..i], items[i]);
      AfterConcat(r, FlattenAll(items[..i]), FlattenNode(items[i]));
      MarksAppend(items[..i], items[i], base, depth, inBlock, m);
    }

    /** An iterable of nodes, one after another. */
    method VisitItems(items: seq<Node>)
      requires Valid()
      modifies this
      ensures Valid() && Recorded() == After(old(Recorded()), FlattenAll(items))
      ensures StackRestored()
      ensures MarksNow() == MarksAll(items, old(currIdx), blockStmtDepth, old(InBlock()), old(MarksNow()))
      decreases items, 0
    {
      ghost var r, m, base, depth, inBlock := Recorded(), MarksNow(), currIdx, blockStmtDepth, InBlock();
      AfterNothing(r);
      for i := 0 to |items|
        invariant Valid() && Recorded() == After(r, FlattenAll(items[..i]))
        invariant currIdx == base + |FlattenAll(items[..i])|
        invariant MarksNow() == MarksAll(items[..i], base, depth, inBlock, m)
        invariant StackRestored()
      {
        VisitItem(items, i, r, base, m);
      }
      assert items[..|items|] == items;
    }

    /** The i-th of them, behind those before it. */
    method VisitItem(items: seq<Node>, i: nat, ghost r: Record, ghost base: int, ghost m: Marks)
      requires Valid() && i < |items| && Recorded() == After(r, FlattenAll(items[..i]))
      requires currIdx == base + |FlattenAll(items[..i])|
      requires MarksNow() == MarksAll(items[..i], base, blockStmtDepth, InBlock(), m)
      modifies this
      ensures Valid() && Recorded() == After(r, FlattenAll(items[..i + 1]))
      ensures currIdx == base + |FlattenAll(items[..i + 1])|
      ensures MarksNow() == MarksAll(items[..i + 1], base, blockStmtDepth, old(InBlock()), m)
      ensures StackRestored()
      decreases items[i], 4
    {
      ItemStep(r, items, i, base, blockStmtDepth, InBlock(), m);
      VisitNode(items[i], true);
    }

    /** The cases of the walk for one node; listed says it is an item of an iterable. */
    method VisitNode(n: Node, listed: bool)
      requires Valid()
      modifies this
      ensures Valid() && Recorded() == After(old(Recorded()), FlattenNode(n))
      ensures StackRestored()
      ensures MarksNow() == MarksNode(n, old(currIdx), blockStmtDepth, old(InBlock()), listed, old(MarksNow()))
      decreases n, 3
    {
      match n
      case Cond(_, _, _) =>
        AppendBranch(n, listed);
        ProcessConditional(currIdx - 1, n, old(Recorded()));
      case Case(_, b) => VisitHeaded(n, b, listed);
      case For(_, b) => VisitHeaded(n, b, listed);
      case Proc(_, b) => VisitHeaded(n, b, listed);
      case CaseItem(b) => BasicBlocks(b);
      case Block(b) => if listed { BasicBlocks(b); } else { VisitBlock(b); }
      case Timing(_, b) => if b.NoBody? { AppendPlain(Some(n)); } else { BasicBlocks(b); }
      case Simple(_) => AppendPlain(Some(n));
    }

    /** The slot of such a node; only a procedural block is no branch point. */
    method AppendHead(n: Node, listed: bool)
      requires Valid() && (n.Case? || n.For? || n.Proc?)
      modifies this
      ensures Valid() && Recorded() == After(old(Recorded()), [Some(n)]) && StackRestored()
      ensures MarksNow() == Own(n, old(currIdx), blockStmtDepth, old(InBlock()), listed, old(MarksNow()))
    {
      if n.Proc? {
        AppendPlain(Some(n));
      } else {
        AppendBranch(n, listed);
      }
    }

    /** A node with its own slot, followed by its body. */
    method VisitHeaded(n: Node, b: Body, listed: bool)
      requires Valid() && (n.Case? || n.For? || n.Proc?)
      requires b == HeadedBody(n)
      modifies this
      ensures Valid() && Recorded() == After(old(Recorded()), FlattenNode(n))
      ensures StackRestored()
      ensures MarksNow() == MarksNode(n, old(currIdx), blockStmtDepth, old(InBlock()), listed, old(MarksNow()))
      decreases n, 2
    {
      ghost var base, m, r := currIdx, MarksNow(), Recorded();
      AppendHead(n, listed);
      assert currIdx == |After(r, [Some(n)]).nodes| == base + 1;
      MarksHeaded(n, b, base, blockStmtDepth, InBlock(), listed, m, MarksNow());
      BasicBlocks(b);
      AfterConcat(r, [Some(n)], Flatten(b));
    }

    /** A block statement visited on its own: one deeper, and its independent points are resolved. */
    method VisitBlock(b: Body)
      requires Valid()
      modifies this
      ensures Valid() && Recorded() == After(old(Recorded()), Flatten(b))
      ensures StackRestored()
      ensures var deeper := blockStmtDepth + 1;
              MarksNow() == Closed(MarksOf(b, old(currIdx), deeper, true, old(MarksNow())), deeper,
                                   old(currIdx), currIdx)
      decreases b, 2
    {
      ghost var start := currIdx;
      EnterBlock();
      BasicBlocks(b);
      if blockStmtDepth in indBranchPoints {
        Resolve(blockStmtDepth, start);
      }
      LeaveBlock();
    }

    method EnterBlock()
      requires Valid()
      modifies this
      ensures Valid() && InBlock() && Recorded() == old(Recorded()) && MarksNow() == old(MarksNow())
      ensures basicBlockList == old(basicBlockList) && cfgEdges == old(cfgEdges)
      ensures blockStmtDepth == old(blockStmtDepth) + 1 && blockSmt == old(blockSmt) + [true]
    {
      blockStmtDepth := blockStmtDepth + 1;
      blockSmt := blockSmt + [true];
    }

    method LeaveBlock()
      requires Valid() && blockStmtDepth > 0
      modifies this
      ensures Valid() && Recorded() == old(Recorded()) && MarksNow() == old(MarksNow())
      ensures basicBlockList == old(basicBlockList) && cfgEdges == old(cfgEdges)
      ensures blockStmtDepth == old(blockStmtDepth) - 1 && blockSmt == old(blockSmt)[..|blockSmt|]
      ensures |blockSmt| == |old(blockSmt)| - 1
    {
      blockSmt := blockSmt[..|blockSmt| - 1];
      blockStmtDepth := blockStmtDepth - 1;
    }

    /** A branch: its slots, or one dummy if it has none. */
    method VisitBranch(b: Body) returns (start: int)
      requires Valid()
      modifies this
      ensures Valid() && start == |old(allNodes)|
      ensures Recorded() == After(old(Recorded()).(points := old(partitionPoints) + {start}), OrDummy(Flatten(b)))
      ensures StackRestored()
      ensures MarksNow() == MarksOf(b, old(currIdx), blockStmtDepth, old(InBlock()), old(MarksNow()))
      decreases b, 1
    {
      start := currIdx;
      partitionPoints := partitionPoints + {currIdx};
      ghost var r := Recorded();
      BasicBlocks(b);
      assert |allNodes| == start + |Flatten(b)|;
      if currIdx == start {
        assert Flatten(b) == [];
        AfterNothing(r);
        AppendPlain(None);
      }
    }

    /** `_process_conditional_sv`, entered with the conditional as the last slot. */
    method ProcessConditional(parent: int, c: Node, ghost r: Record)
      requires Valid() && c.Cond? && parent == |r.nodes| && Recorded() == Entered(r, c)
      modifies this
      ensures Valid() && Recorded() == After(r, FlattenNode(c))
      ensures StackRestored()
      ensures MarksNow() == MarksOf(c.elseBody, ElseStart(c, parent), blockStmtDepth, old(InBlock()),
                                    MarksOf(c.thenBody, parent + 1, blockStmtDepth, old(InBlock()), old(MarksNow())))
      decreases c, 1
    {
      ghost var t, e := OrDummy(Flatten(c.thenBody)), OrDummy(Flatten(c.elseBody));
      var start := VisitBranch(c.thenBody);
      assert currIdx == ElseStart(c, parent);
      AddEdge([parent, start]);
      ghost var mid := Recorded();
      start := VisitElse(parent, c);
      CondSteps(r, c, t, e, mid, Recorded());
    }

    /** The false branch: nothing at all, a nested else-if, or any other statement. */
    method VisitElse(parent: int, c: Node) returns (start: int)
      requires Valid() && c.Cond?
      modifies this
      ensures Valid() && start == |old(allNodes)|
      ensures var r := old(Recorded());
              Recorded() == After(Record(r.nodes, r.points + {start}, r.edges + multiset{[parent, start]}),
                                  OrDummy(Flatten(c.elseBody)))
      ensures StackRestored()
      ensures MarksNow() == MarksOf(c.elseBody, old(currIdx), blockStmtDepth, old(InBlock()), old(MarksNow()))
      decreases c, 0
    {
      ghost var r := Recorded();
      if c.elseBody.One? && c.elseBody.node.Cond? {
        start := currIdx;
        var nested := c.elseBody.node;
        AppendBranch(nested, false);
        AddEdge([parent, start]);
        ProcessConditional(start, nested, Record(r.nodes, r.points + {start}, r.edges + multiset{[parent, start]}));
      } else {
        start := VisitBranch(c.elseBody);
        AddEdge([parent, start]);
        AfterExtra(r.(points := r.points + {start}), {}, multiset{[parent, start]}, OrDummy(Flatten(c.elseBody)));
      }
    }

    // ---------- the later stages ----------

    /** `sorted(list(points))`. */
    static method Sorted(points: set<int>) returns (list: seq<int>)
      ensures Lists(list, points)
    {
      var order := ListOf(points);
      list := [];
      for i := 0 to |order|
        invariant Increasing(list) && forall x :: x in list <==> x in order[..i]
      {
        assert order[..i + 1] == order[..i] + [order[i]];
        InsertKeepsIncreasing(list, order[i]);
        forall x
          ensures x in InsertSorted(list, order[i]) <==> x in order[..i + 1]
        {
          InsertedMembers(list, order[i], x);
        }
        list := InsertSorted(list, order[i]);
      }
      assert order[..|order|] == order;
    }

    /** `partition`: cut the node list at the sorted points; empty slices are left out. */
    method Partition()
      requires AllBranchesInPlace(allNodes)
      requires partitionPoints == {0} + PointsOf(allNodes, 0) && basicBlockList == []
      modifies this`partitionPoints, this`basicBlockList
      ensures partitionPoints == AllPoints(allNodes)
      ensures allNodes == [] ==> basicBlockList == [[]]
      ensures allNodes != [] ==> Partitioned(basicBlockList, allNodes, partitionPoints)
    {
      var points := partitionPoints + {|allNodes| - 1};
      var list := Sorted(points);
      var blocks := Blocks(allNodes, list);
      BlocksAreSlices(allNodes, list);
      partitionPoints, basicBlockList := points, blocks;
    }

    /** The blocks behind the first one. */
    static function LaterBlocks(nodes: seq<Slot>, list: seq<int>, i: nat): seq<seq<Slot>>
      requires i >= 2
      decreases |list| - i
    {
      if i >= |list| then []
      else
        var block := BlockAt(nodes, list, i);
        (if block != [] then [block] else []) + LaterBlocks(nodes, list, i + 1)
    }

    static function BlockAt(nodes: seq<Slot>, list: seq<int>, i: nat): seq<Slot>
      requires 2 <= i < |list|
    {
      var start, end := list[i - 1] + 1, list[i];
      if i == |list| - 1 then PySlice(nodes, start, end + 1) else PySlice(nodes, start, end)
    }

    static function BlocksOf(nodes: seq<Slot>, list: seq<int>): seq<seq<Slot>> {
      if |list| >= 2 then [PySlice(nodes, list[0], list[1] + 1)] + LaterBlocks(nodes, list, 2) else [nodes]
    }

    static method Blocks(nodes: seq<Slot>, list: seq<int>) returns (blocks: seq<seq<Slot>>)
      ensures blocks == BlocksOf(nodes, list)
    {
      if |list| >= 2 {
        blocks := [PySlice(nodes, list[0], list[1] + 1)];
        for i := 2 to |list|
          invariant blocks + LaterBlocks(nodes, list, i) == BlocksOf(nodes, list)
        {
          LaterStep(nodes, list, i, blocks);
          blocks := AddBlock(blocks, BlockAt(nodes, list, i));
        }
      } else {
        blocks := [nodes];
      }
    }

    static lemma BlocksAreSlices(nodes: seq<Slot>, list: seq<int>)
      requires AllBranchesInPlace(nodes) && Lists(list, AllPoints(nodes))
      ensures nodes == [] ==> BlocksOf(nodes, list) == [[]]
      ensures nodes != [] ==> Partitioned(BlocksOf(nodes, list), nodes, AllPoints(nodes))
    {
      if nodes == [] {
        NothingToCut(list, 2);
      } else {
        EndsOfList(nodes, list);
        if |list| >= 2 {
          assert list[0] < list[1] <= list[|list| - 1];
          LaterBlocksAreSlices(nodes, list, 2);
          CutCons(PySlice(nodes, list[0], list[1] + 1), (list[0], list[1] + 1),
                  LaterBlocks(nodes, list, 2), SlicesFrom(list, 2), nodes);
        }
        assert CutAt(BlocksOf(nodes, list), nodes, Slices(list, |nodes|));
      }
    }

    /** Only non-empty blocks are added. */
    static function AddBlock(blocks: seq<seq<Slot>>, block: seq<Slot>): seq<seq<Slot>> {
      if block != [] then blocks + [block] else blocks
    }

    static lemma LaterStep(nodes: seq<Slot>, list: seq<int>, i: nat, blocks: seq<seq<Slot>>)
      requires 2 <= i < |list|
      ensures AddBlock(blocks, BlockAt(nodes, list, i)) + LaterBlocks(nodes, list, i + 1)
           == blocks + LaterBlocks(nodes, list, i)
    {
      var block, rest := BlockAt(nodes, list, i), LaterBlocks(nodes, list, i + 1);
      assert LaterBlocks(nodes, list, i) == (if block != [] then [block] else []) + rest;
      assert (blocks + [block]) + rest == blocks + ([block] + rest);
    }

    static lemma {:induction false} NothingToCut(list: seq<int>, i: nat)
      requires i >= 2
      ensures LaterBlocks([], list, i) == []
      decreases |list| - i
    {
      if i < |list| {
        NothingToCut(list, i + 1);
      }
    }

    static lemma CutCons(block: seq<Slot>, s: (int, int),
                         blocks: seq<seq<Slot>>, slices: seq<(int, int)>, nodes: seq<Slot>)
      requires CutAt(blocks, nodes, slices) && 0 <= s.0 <= s.1 <= |nodes| && block == nodes[s.0..s.1]
      ensures CutAt([block] + blocks, nodes, [s] + slices)
    {
    }

    static lemma {:induction false} LaterBlocksAreSlices(nodes: seq<Slot>, list: seq<int>, i: nat)
      requires Increasing(list) && list != [] && list[0] == 0 && list[|list| - 1] == |nodes| - 1 && 2 <= i <= |list|
      ensures CutAt(LaterBlocks(nodes, list, i), nodes, SlicesFrom(list, i))
      decreases |list| - i
    {
      if i < |list| {
        assert list[0] < list[i - 1] < list[i] <= list[|list| - 1];
        LaterBlocksAreSlices(nodes, list, i + 1);
        var block, s := BlockAt(nodes, list, i), Slice(list, i);
        CutCons(block, s, LaterBlocks(nodes, list, i + 1), SlicesFrom(list, i + 1), nodes);
        assert block != [] <==> s.0 < s.1;
      }
    }

    /** `find_basic_block`: search the sorted points for the one at or below the index. */
    method FindBasicBlock(idx: int) returns (block: int)
      ensures idx in partitionPoints ==> block == BlockOf(partitionPoints, idx)
      ensures idx !in partitionPoints ==>
                block == if Rank(partitionPoints, idx) <= 1 then 0
                         else if Rank(partitionPoints, idx) == 2 then |basicBlockList| - 1
                         else Rank(partitionPoints, idx) - 2
    {
      var list := Sorted(partitionPoints);
      if |list| < 2 {
        RankLow(list, partitionPoints, idx);
        return 0;
      }
      if idx <= list[1] {
        RankLow(list, partitionPoints, idx);
        return 0;
      }
      for i := 2 to |list|
        invariant list[1] < idx
        invariant i > 2 && i < |list| ==> idx < list[2] || list[i] <= idx
        invariant i > 2 && i == |list| ==> idx < list[2]
      {
        if i == |list| - 1 {
          if idx >= list[i] {
            RankFound(list, partitionPoints, i, idx);
            return i - 1;
          }
        } else {
          if list[i] <= idx <= list[i + 1] - 1 {
            RankFound(list, partitionPoints, i, idx);
            return i - 1;
          }
        }
      }
      RankFound(list, partitionPoints, 1, idx);
      return |basicBlockList| - 1;
    }

    /** `make_paths`: every node edge becomes an edge between block numbers. */
    method MakePaths()
      requires cfgEdges == [] && forall i | 0 <= i < |edgelist| :: EdgeAtPoints(edgelist[i], partitionPoints)
      modifies this`cfgEdges
      ensures BlockEdges(cfgEdges, edgelist, partitionPoints)
    {
      for i := 0 to |edgelist|
        invariant BlockEdges(cfgEdges, edgelist[..i], partitionPoints)
      {
        var block1 := FindBasicBlock(edgelist[i][0]);
        var block2 := FindBasicBlock(edgelist[i][1]);
        assert edgelist[..i + 1] == edgelist[..i] + [edgelist[i]];
        cfgEdges := cfgEdges + [(block1, block2)];
      }
      assert edgelist[..|edgelist|] == edgelist;
    }

    /** `find_leaves`. */
    method FindLeaves()
      modifies this`leaves
      ensures Leaves(cfgEdges, leaves)
    {
      leaves := Ends(cfgEdges) - Starts(cfgEdges);
      LeavesAreEnds(cfgEdges);
    }

    /** `compute_direction`, on a path that starts and ends with the dummies. */
    method ComputeDirection(path: seq<int>) returns (directions: seq<int>)
      ensures |directions| == if |path| < 2 then 0 else |path| - 2
      ensures forall i | 0 <= i < |directions| :: directions[i] == Direction(path[i + 1], path[i + 2])
    {
      directions := [];
      var i := 1;
      while i < |path| - 1
        invariant if |path| >= 2 then 1 <= i <= |path| - 1 else i == 1
        invariant |directions| == i - 1
        invariant forall j | 0 <= j < i - 1 :: directions[j] == Direction(path[j + 1], path[j + 2])
      {
        if path[i] + 1 == path[i + 1] {
          directions := directions + [1];
        } else {
          directions := directions + [0];
        }
        i := i + 1;
      }
    }

    /** `build_cfg`: block edges, leaves, and the graph with its two dummies. */
    method BuildCfg() returns (graph: set<(int, int)>)
      requires cfgEdges == [] && AllBranchesInPlace(allNodes) && partitionPoints == AllPoints(allNodes)
      requires WalkEdges(allNodes, edgelist, independent)
      modifies this`cfgEdges, this`leaves
      ensures BlockEdges(cfgEdges, edgelist, partitionPoints)
      ensures Leaves(cfgEdges, leaves)
      ensures IsGraph(graph, cfgEdges)
    {
      WalkEdgesAtPoints(allNodes, edgelist, independent);
      MakePaths();
      FindLeaves();
      graph := Graph();
    }

    /** The edges of the graph, added one after another. */
    method Graph() returns (graph: set<(int, int)>)
      requires Leaves(cfgEdges, leaves) && |cfgEdges| == |edgelist|
      ensures IsGraph(graph, cfgEdges)
    {
      graph := {};
      for i := 0 to |cfgEdges|
        invariant forall u, v :: (u, v) in graph <==> (u, v) in cfgEdges[..i]
      {
        graph := graph + {(cfgEdges[i].0, cfgEdges[i].1)};
        assert cfgEdges[..i + 1] == cfgEdges[..i] + [cfgEdges[i]];
      }
      assert cfgEdges[..|cfgEdges|] == cfgEdges;
      if edgelist == [] {
        graph := graph + {(0, -2)};
      }
      graph := graph + {(-1, 0)};
      ghost var before := graph;
      var order := ListOf(leaves);
      for i := 0 to |order|
        invariant forall u, v :: (u, v) in graph <==> (u, v) in before || (v == -2 && u in order[..i])
      {
        graph := graph + {(order[i], -2)};
        assert order[..i + 1] == order[..i] + [order[i]];
      }
      assert order[..|order|] == order;
      LeavesAreEnds(cfgEdges);
    }
  }

  /**
    The pipeline of the execution engine for one always block: walk, partition, build.  Whatever the
    order in which independent branch points are listed, an if/else body has a path to execute.
   */
  method BuildFor(b: Body) returns (c: Cfg, graph: set<(int, int)>, ghost path: seq<int>)
    ensures c.allNodes == Flatten(b) && c.partitionPoints == AllPoints(c.allNodes)
    ensures Flatten(b) == [] ==> c.basicBlockList == [[]]
    ensures Flatten(b) != [] ==> Partitioned(c.basicBlockList, c.allNodes, c.partitionPoints)
    ensures WalkEdges(c.allNodes, c.edgelist, c.independent)
    ensures c.independent == multiset(c.lists) && ListsOf(c.lists, WalkMarks(b).tuples)
    ensures BlockEdges(c.cfgEdges, c.edgelist, c.partitionPoints)
    ensures Leaves(c.cfgEdges, c.leaves)
    ensures IsGraph(graph, c.cfgEdges)
    ensures OnlyIfElse(Flatten(b)) ==> SimplePath(c.cfgEdges, path)
  {
    c := CutFor(b);
    graph := c.BuildCfg();
    path := PathIfAny(c.allNodes, c.edgelist, c.independent, c.cfgEdges);
  }

  /** Walk and partition. */
  method CutFor(b: Body) returns (c: Cfg)
    ensures fresh(c) && c.allNodes == Flatten(b) && AllBranchesInPlace(c.allNodes)
    ensures c.partitionPoints == AllPoints(c.allNodes)
    ensures Flatten(b) == [] ==> c.basicBlockList == [[]]
    ensures Flatten(b) != [] ==> Partitioned(c.basicBlockList, c.allNodes, c.partitionPoints)
    ensures WalkEdges(c.allNodes, c.edgelist, c.independent) && c.cfgEdges == []
    ensures c.independent == multiset(c.lists) && ListsOf(c.lists, WalkMarks(b).tuples)
  {
    c := WalkFor(b);
    LayoutInPlace(b);
    c.Partition();
  }

  method WalkFor(b: Body) returns (c: Cfg)
    ensures fresh(c) && c.allNodes == Flatten(b) && c.partitionPoints == {0} + PointsOf(Flatten(b), 0)
    ensures WalkEdges(c.allNodes, c.edgelist, c.independent)
    ensures c.independent == multiset(c.lists) && ListsOf(c.lists, WalkMarks(b).tuples)
    ensures c.basicBlockList == [] && c.cfgEdges == []
  {
    c := new Cfg();
    c.BasicBlocks(b);
    FreshRecord(Flatten(b));
  }

  lemma PathIfAny(nodes: seq<Slot>, edgelist: seq<seq<int>>, independent: multiset<seq<int>>, edges: Edges)
      returns (path: seq<int>)
    requires AllBranchesInPlace(nodes) && WalkEdges(nodes, edgelist, independent)
    requires BlockEdges(edges, edgelist, AllPoints(nodes))
    ensures OnlyIfElse(nodes) ==> SimplePath(edges, path)
  {
    path := [];
    if OnlyIfElse(nodes) {
      path := PathExists(nodes, edgelist, independent, edges);
    }
  }

  /**
    Along any path of an if/else body that does not start with its conditional, the directions handed
    to the visitor are 1 exactly at the steps that take a true edge.
   */
  method DirectionsOf(c: Cfg, path: seq<int>) returns (directions: seq<int>)
    requires AllBranchesInPlace(c.allNodes) && OnlyIfElse(c.allNodes)
    requires c.allNodes != [] ==> !IsCond(c.allNodes[0])
    requires WalkEdges(c.allNodes, c.edgelist, c.independent)
    requires BlockEdges(c.cfgEdges, c.edgelist, AllPoints(c.allNodes)) && SimplePath(c.cfgEdges, path)
    ensures |directions| == |path| - 2
    ensures forall i | 0 <= i < |directions| ::
              directions[i] == 1 <==> TrueStep(c.allNodes, c.edgelist, path[i + 1], path[i + 2])
  {
    directions := c.ComputeDirection(path);
    forall i | 0 <= i < |directions|
      ensures directions[i] == 1 <==> TrueStep(c.allNodes, c.edgelist, path[i + 1], path[i + 2])
    {
      PathDirections(c.allNodes, c.edgelist, c.independent, c.cfgEdges, path, i + 1);
    }
  }

  lemma FreshRecord(nodes: seq<Slot>)
    ensures After(Record([], {0}, multiset{}), nodes) == Record(nodes, {0} + PointsOf(nodes, 0), EdgesOf(nodes, 0))
  {
    assert [] + nodes == nodes && multiset{} + EdgesOf(nodes, 0) == EdgesOf(nodes, 0);
  }
}
