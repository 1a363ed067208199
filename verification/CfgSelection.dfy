/**
  Which block a block number selects.  The engine runs `basic_block_list[number]` for every number of
  a path; empty slices are left out of that list and partition points in the middle belong to no
  slice, so a number may select the stretch of another branch.  When it does not is stated exactly.
 */
module CfgSelection {
  import opened Wrappers
  import opened CfgLayout
  import opened CfgBlocks
  import opened CfgPaths

  // ---------- counting the slices that are left out ----------

  predicate IsEmptySlice(list: seq<int>, i: nat)
    requires 2 <= i < |list|
  {
    Slice(list, i).0 >= Slice(list, i).1
  }

  /** How many of the slices from i up to, but without, j are empty. */
  function Empties(list: seq<int>, i: nat, j: nat): nat
    requires 2 <= i && j <= |list|
    decreases j - i
  {
    if i >= j then 0 else (if IsEmptySlice(list, i) then 1 else 0) + Empties(list, i + 1, j)
  }

  lemma {:induction false} EmptiesZero(list: seq<int>, i: nat, j: nat)
    requires 2 <= i && j <= |list|
    ensures Empties(list, i, j) == 0 <==> forall k | i <= k < j :: !IsEmptySlice(list, k)
    decreases j - i
  {
    if i < j {
      EmptiesZero(list, i + 1, j);
    }
  }

  /** Exactly one slice from i up to, but without, j is empty. */
  ghost predicate OneEmpty(list: seq<int>, i: nat, j: nat)
    requires 2 <= i && j <= |list|
  {
    exists k :: i <= k < j && IsEmptySlice(list, k) && OthersKept(list, i, j, k)
  }

  ghost predicate OthersKept(list: seq<int>, i: nat, j: nat, k: nat)
    requires 2 <= i && j <= |list|
  {
    forall k' | i <= k' < j && k' != k :: !IsEmptySlice(list, k')
  }

  lemma {:induction false} EmptiesOne(list: seq<int>, i: nat, j: nat)
    requires 2 <= i && j <= |list|
    ensures Empties(list, i, j) == 1 <==> OneEmpty(list, i, j)
    decreases j - i
  {
    if i < j {
      EmptiesOne(list, i + 1, j);
      EmptiesZero(list, i + 1, j);
      if IsEmptySlice(list, i) {
        assert Empties(list, i + 1, j) == 0 ==> OthersKept(list, i, j, i);
        if OneEmpty(list, i, j) {
          var k :| i <= k < j && IsEmptySlice(list, k) && OthersKept(list, i, j, k);
          assert k == i;
        }
      } else {
        if OneEmpty(list, i, j) {
          var k :| i <= k < j && IsEmptySlice(list, k) && OthersKept(list, i, j, k);
          assert OthersKept(list, i + 1, j, k);
        }
        if OneEmpty(list, i + 1, j) {
          var k :| i + 1 <= k < j && IsEmptySlice(list, k) && OthersKept(list, i + 1, j, k);
          assert OthersKept(list, i, j, k);
        }
      }
    }
  }

  /** A slice that is kept moves forward by the number of empty slices before it. */
  lemma {:induction false} SliceAt(list: seq<int>, i: nat, j: nat)
    requires 2 <= i <= j < |list| && !IsEmptySlice(list, j)
    ensures var k := j - i - Empties(list, i, j);
      0 <= k < |SlicesFrom(list, i)| && SlicesFrom(list, i)[k] == Slice(list, j)
    decreases j - i
  {
    if i < j {
      SliceAt(list, i + 1, j);
    }
  }

  lemma {:induction false} SlicesFromLength(list: seq<int>, i: nat)
    requires 2 <= i <= |list|
    ensures |SlicesFrom(list, i)| == |list| - i - Empties(list, i, |list|)
    decreases |list| - i
  {
    if i < |list| {
      SlicesFromLength(list, i + 1);
    }
  }

  lemma SelectedSlice(list: seq<int>, n: nat, j: nat)
    requires 2 <= j < |list| && !IsEmptySlice(list, j)
    ensures var k := j - 1 - Empties(list, 2, j);
      0 <= k < |Slices(list, n)| && Slices(list, n)[k] == Slice(list, j)
  {
    SliceAt(list, 2, j);
    Behind((list[0], list[1] + 1), SlicesFrom(list, 2), j - 2 - Empties(list, 2, j));
  }

  lemma Behind<T>(x: T, rest: seq<T>, k: nat)
    requires k < |rest|
    ensures ([x] + rest)[k + 1] == rest[k] && |[x] + rest| == |rest| + 1
  {
  }

  lemma SameStart(slices: seq<(int, int)>, a: nat, b: nat)
    requires Ordered(slices) && a < |slices| && b < |slices| && slices[a].0 == slices[b].0
    ensures a == b
  {
  }

  // ---------- the number of a point and the block it selects ----------

  /** The sorted points of a node list of n slots. */
  ghost predicate PointList(list: seq<int>, points: set<int>, n: nat) {
    Lists(list, points) && list != [] && list[0] == 0 && list[|list| - 1] == n - 1
  }

  /** The block with this number begins right behind x. */
  ghost predicate BeginsBehind(slices: seq<(int, int)>, number: nat, x: int) {
    number < |slices| && slices[number].0 == x + 1
  }

  ghost predicate Holds(slices: seq<(int, int)>, number: nat, x: int) {
    number < |slices| && slices[number].0 <= x < slices[number].1
  }

  /** An interior point selects the slice behind it exactly if one slice before that one is empty. */
  lemma SelectsNextSliceExactly(list: seq<int>, points: set<int>, n: nat, r: nat)
    requires PointList(list, points, n) && 2 <= r < |list| - 1
    ensures BeginsBehind(Slices(list, n), BlockOf(points, list[r]), list[r]) <==>
              !IsEmptySlice(list, r + 1) && Empties(list, 2, r + 1) == 1
  {
    RankAt(list, points, r);
    SlicesOrdered(list, n);
    if IsEmptySlice(list, r + 1) {
      SkippedStart(list, n, r, r - 1);
    } else {
      SelectedSlice(list, n, r + 1);
      if BeginsBehind(Slices(list, n), r - 1, list[r]) {
        SameStart(Slices(list, n), r - 1, r - Empties(list, 2, r + 1));
      }
    }
  }

  lemma BeginsCovers(slices: seq<(int, int)>, number: nat, x: int)
    requires Ordered(slices)
    ensures BeginsBehind(slices, number, x) ==> Covered(slices, x + 1)
  {
  }

  /** No block begins at an interior point. */
  lemma SkippedStart(list: seq<int>, n: nat, r: nat, number: nat)
    requires Increasing(list) && list != [] && list[0] == 0 && list[|list| - 1] == n - 1
    requires 2 <= r < |list| - 1 && IsEmptySlice(list, r + 1)
    ensures !BeginsBehind(Slices(list, n), number, list[r])
  {
    assert list[r + 1] in list && list[r + 1] == list[r] + 1;
    SlicesCover(list, n, list[r + 1]);
    SlicesOrdered(list, n);
    BeginsCovers(Slices(list, n), number, list[r]);
  }

  /**
    A point lies in the block with its own number exactly if it is one of the first two, or the last and
    no slice is empty.
   */
  lemma HoldsPointExactly(list: seq<int>, points: set<int>, n: nat, r: nat)
    requires PointList(list, points, n) && r < |list|
    ensures Holds(Slices(list, n), BlockOf(points, list[r]), list[r]) <==>
              r <= 1 || (r == |list| - 1 && Empties(list, 2, |list|) == 0)
  {
    RankAt(list, points, r);
    if 2 <= r < |list| - 1 {
      assert list[r] in list;
      SlicesCover(list, n, list[r]);
      HoldsCovers(Slices(list, n), r - 1, list[r]);
    } else if r >= 2 {
      SlicesFromLength(list, 2);
      LastIsKept(list, n);
    }
  }

  lemma HoldsCovers(slices: seq<(int, int)>, number: nat, x: int)
    ensures Holds(slices, number, x) ==> Covered(slices, x)
  {
  }

  /** The last slice is never empty; with no empty slice before it, its number is its own. */
  lemma LastIsKept(list: seq<int>, n: nat)
    requires Increasing(list) && |list| >= 3
    ensures Empties(list, 2, |list|) == 0 ==>
              |list| - 2 < |Slices(list, n)| && Slices(list, n)[|list| - 2] == Slice(list, |list| - 1)
    ensures !IsEmptySlice(list, |list| - 1)
  {
    var last := |list| - 1;
    assert list[last - 1] < list[last];
    EmptiesZero(list, 2, |list|);
    EmptiesZero(list, 2, last);
    SelectedSlice(list, n, last);
  }

  // ---------- the same in terms of partition points ----------

  /** Two neighbouring points, with y above 0. */
  predicate IsPair(points: set<int>, y: int) {
    0 < y && y in points && y + 1 in points
  }

  ghost predicate OnlyPairBelow(points: set<int>, x: int, y: int) {
    IsPair(points, y) && y < x && forall z | IsPair(points, z) && z < x :: z == y
  }

  ghost predicate OnePairBelow(points: set<int>, x: int) {
    exists y :: OnlyPairBelow(points, x, y)
  }

  /** An empty slice is a pair of neighbouring points. */
  lemma EmptySliceIsPair(list: seq<int>, points: set<int>, k: nat)
    requires Lists(list, points) && list != [] && list[0] == 0 && 2 <= k < |list| - 1
    ensures IsEmptySlice(list, k) <==> IsPair(points, list[k - 1])
  {
    assert list[0] < list[k - 1] < list[k];
    assert list[k - 1] in list && list[k] in list;
    if list[k - 1] + 1 in points {
      var j := IndexInList(list, points, list[k - 1] + 1);
      assert k - 1 < j;
    }
  }

  lemma PairIsEmptySlice(list: seq<int>, points: set<int>, r: nat, y: int) returns (k: nat)
    requires Lists(list, points) && list != [] && list[0] == 0 && r < |list| - 1
    requires IsPair(points, y) && y < list[r]
    ensures 2 <= k <= r && list[k - 1] == y && IsEmptySlice(list, k)
  {
    var i := IndexInList(list, points, y);
    assert 0 < i < r;
    k := i + 1;
    EmptySliceIsPair(list, points, k);
  }

  lemma OneEmptyGivesPair(list: seq<int>, points: set<int>, r: nat, k: nat)
    requires Lists(list, points) && list != [] && list[0] == 0 && 2 <= k <= r < |list| - 1
    requires IsEmptySlice(list, k) && OthersKept(list, 2, r + 1, k)
    ensures OnlyPairBelow(points, list[r], list[k - 1])
  {
    EmptySliceIsPair(list, points, k);
    forall z | IsPair(points, z) && z < list[r]
      ensures z == list[k - 1]
    {
      var k' := PairIsEmptySlice(list, points, r, z);
    }
  }

  lemma OnePairGivesEmpty(list: seq<int>, points: set<int>, r: nat, y: int)
    requires Lists(list, points) && list != [] && list[0] == 0 && 2 <= r < |list| - 1
    requires OnlyPairBelow(points, list[r], y)
    ensures OneEmpty(list, 2, r + 1)
  {
    var k := PairIsEmptySlice(list, points, r, y);
    forall k' | 2 <= k' < r + 1 && k' != k
      ensures !IsEmptySlice(list, k')
    {
      EmptySliceIsPair(list, points, k');
    }
    assert OthersKept(list, 2, r + 1, k);
  }

  lemma OneEmptyIsOnePair(list: seq<int>, points: set<int>, r: nat)
    requires Lists(list, points) && list != [] && list[0] == 0 && 2 <= r < |list| - 1
    ensures OneEmpty(list, 2, r + 1) <==> OnePairBelow(points, list[r])
  {
    if OneEmpty(list, 2, r + 1) {
      var k :| 2 <= k < r + 1 && IsEmptySlice(list, k) && OthersKept(list, 2, r + 1, k);
      OneEmptyGivesPair(list, points, r, k);
    }
    if OnePairBelow(points, list[r]) {
      var y :| OnlyPairBelow(points, list[r], y);
      OnePairGivesEmpty(list, points, r, y);
    }
  }

  /** The point behind x is not in its way, or is the last one. */
  predicate HasStretch(points: set<int>, n: nat, x: int) {
    x + 1 in points ==> x + 1 == n - 1
  }

  lemma StretchIsKept(list: seq<int>, points: set<int>, n: nat, r: nat)
    requires PointList(list, points, n) && 2 <= r < |list| - 1
    ensures !IsEmptySlice(list, r + 1) <==> HasStretch(points, n, list[r])
  {
    assert list[r] < list[r + 1] && list[r + 1] in list;
    if list[r] + 1 in points {
      var j := IndexInList(list, points, list[r] + 1);
      assert j == r + 1;
    }
  }

  /**
    The number of a point that no block holds selects the block that begins right behind it exactly if
    there is one and exactly one pair of neighbouring points lies below.
   */
  lemma NumberSelectsExactly(list: seq<int>, points: set<int>, n: nat, x: int)
    requires PointList(list, points, n) && |list| >= 2 && x in points && list[1] < x < n - 1
    ensures BeginsBehind(Slices(list, n), BlockOf(points, x), x) <==>
              OnePairBelow(points, x) && HasStretch(points, n, x)
  {
    var r := IndexInList(list, points, x);
    assert 1 < r < |list| - 1;
    SelectsNextSliceExactly(list, points, n, r);
    EmptiesOne(list, 2, r + 1);
    OneEmptyIsOnePair(list, points, r);
    StretchIsKept(list, points, n, r);
  }

  // ---------- the edges of a conditional ----------

  /** A conditional above index 0 makes a pair, and its true edge leads to an interior point. */
  lemma PairOfCond(nodes: seq<Slot>, list: seq<int>, p: nat)
    requires AllBranchesInPlace(nodes) && 0 < p < |nodes| && IsCond(nodes[p]) && Lists(list, AllPoints(nodes))
    ensures IsPair(AllPoints(nodes), p) && PointList(list, AllPoints(nodes), |nodes|)
    ensures |list| >= 2 && list[1] <= p && p + 1 < ElseStart(nodes[p].value, p) < |nodes|
  {
    CondPoints(nodes, p);
    EndsOfList(nodes, list);
    var i := IndexInList(list, AllPoints(nodes), p);
  }

  /**
    The true edge of a conditional above index 0 selects the block behind its target exactly if no pair
    of neighbouring points lies below the conditional and the then-branch leaves something to hold.  At
    index 0 it selects block 0, which holds the conditional and its target.
   */
  lemma TrueEdgeSelectsExactly(nodes: seq<Slot>, list: seq<int>, p: nat)
    requires AllBranchesInPlace(nodes) && p < |nodes| && IsCond(nodes[p]) && Lists(list, AllPoints(nodes))
    ensures var points, slices := AllPoints(nodes), Slices(list, |nodes|);
      if p > 0 then
        BeginsBehind(slices, BlockOf(points, p + 1), p + 1) <==>
          (forall y | IsPair(points, y) :: y >= p) && HasStretch(points, |nodes|, p + 1)
      else BlockOf(points, p + 1) == 0 && slices[0] == (0, 2)
  {
    var points := AllPoints(nodes);
    if p > 0 {
      PairOfCond(nodes, list, p);
      NumberSelectsExactly(list, points, |nodes|, p + 1);
      PairsBelowNext(points, p);
    } else {
      ConditionalBlocks(nodes, 0);
      FirstPoints(nodes, list);
    }
  }

  lemma PairsBelowNext(points: set<int>, p: int)
    requires IsPair(points, p)
    ensures OnePairBelow(points, p + 1) <==> forall y | IsPair(points, y) :: y >= p
  {
    if forall y | IsPair(points, y) :: y >= p {
      assert OnlyPairBelow(points, p + 1, p);
    }
    if OnePairBelow(points, p + 1) {
      var y :| OnlyPairBelow(points, p + 1, y);
      assert y == p;
    }
  }

  /** If the first node is a conditional, the first two points are 0 and 1. */
  lemma FirstPoints(nodes: seq<Slot>, list: seq<int>)
    requires AllBranchesInPlace(nodes) && nodes != [] && IsCond(nodes[0]) && Lists(list, AllPoints(nodes))
    ensures PointList(list, AllPoints(nodes), |nodes|) && |list| >= 2 && list[1] == 1
  {
    CondPoints(nodes, 0);
    EndsOfList(nodes, list);
    var i := IndexInList(list, AllPoints(nodes), 1);
    assert i > 0 && list[0] < list[1];
  }

  lemma FirstTwoPoints(nodes: seq<Slot>, list: seq<int>, p: nat)
    requires AllBranchesInPlace(nodes) && p < |nodes| && IsCond(nodes[p]) && Lists(list, AllPoints(nodes))
    ensures PointList(list, AllPoints(nodes), |nodes|) && |list| >= 2 && list[1] <= p + 1
  {
    if p > 0 {
      PairOfCond(nodes, list, p);
    } else {
      FirstPoints(nodes, list);
    }
  }

  /**
    The false edge, at any index: it selects the block behind its target exactly if one pair lies below
    and the else-branch leaves something to hold; above index 0 that pair is the conditional's own.  A
    target that is the last node is held by its block exactly if no pair lies below it.
   */
  lemma FalseEdgeSelectsExactly(nodes: seq<Slot>, list: seq<int>, p: nat, q: int)
    requires AllBranchesInPlace(nodes) && p < |nodes| && IsCond(nodes[p]) && Lists(list, AllPoints(nodes))
    requires q == ElseStart(nodes[p].value, p)
    ensures var points, slices, n := AllPoints(nodes), Slices(list, |nodes|), |nodes|;
      if q < n - 1 then
        && (BeginsBehind(slices, BlockOf(points, q), q) <==> OnePairBelow(points, q) && HasStretch(points, n, q))
        && !Holds(slices, BlockOf(points, q), q)
      else
        && !BeginsBehind(slices, BlockOf(points, q), q)
        && (Holds(slices, BlockOf(points, q), q) <==> forall y | IsPair(points, y) :: y + 1 == n - 1)
    ensures p > 0 ==> (OnePairBelow(AllPoints(nodes), q) <==> OnlyPairBelow(AllPoints(nodes), q, p))
  {
    FirstTwoPoints(nodes, list, p);
    CondPoints(nodes, p);
    TargetSelectsExactly(list, AllPoints(nodes), |nodes|, q);
    if p > 0 {
      PairOfCond(nodes, list, p);
      OwnPairBelow(AllPoints(nodes), p, q);
    }
  }

  /** Any point behind the first two, the last included. */
  lemma TargetSelectsExactly(list: seq<int>, points: set<int>, n: nat, q: int)
    requires PointList(list, points, n) && |list| >= 2 && q in points && list[1] < q < n
    ensures var slices := Slices(list, n);
      if q < n - 1 then
        && (BeginsBehind(slices, BlockOf(points, q), q) <==> OnePairBelow(points, q) && HasStretch(points, n, q))
        && !Holds(slices, BlockOf(points, q), q)
      else
        && !BeginsBehind(slices, BlockOf(points, q), q)
        && (Holds(slices, BlockOf(points, q), q) <==> forall y | IsPair(points, y) :: y + 1 == n - 1)
  {
    if q < n - 1 {
      NumberSelectsExactly(list, points, n, q);
      InteriorNotHeld(list, points, n, q);
    } else {
      SlicesInside(list, n, BlockOf(points, q));
      HoldsLastExactly(list, points, n);
    }
  }

  lemma OwnPairBelow(points: set<int>, p: int, q: int)
    requires IsPair(points, p) && p < q
    ensures OnePairBelow(points, q) <==> OnlyPairBelow(points, q, p)
  {
    if OnePairBelow(points, q) {
      var y :| OnlyPairBelow(points, q, y);
      assert y == p;
    }
  }

  lemma InteriorNotHeld(list: seq<int>, points: set<int>, n: nat, x: int)
    requires PointList(list, points, n) && |list| >= 2 && x in points && list[1] < x < n - 1
    ensures !Holds(Slices(list, n), BlockOf(points, x), x)
  {
    var r := IndexInList(list, points, x);
    assert 1 < r < |list| - 1;
    HoldsPointExactly(list, points, n, r);
  }

  /** The last node lies in the block with its number exactly if no pair lies below it. */
  lemma HoldsLastExactly(list: seq<int>, points: set<int>, n: nat)
    requires PointList(list, points, n) && |list| >= 3
    ensures Holds(Slices(list, n), BlockOf(points, n - 1), n - 1) <==> forall y | IsPair(points, y) :: y + 1 == n - 1
  {
    HoldsPointExactly(list, points, n, |list| - 1);
    EmptiesZero(list, 2, |list|);
    LastIsKept(list, n);
    if forall k | 2 <= k < |list| :: !IsEmptySlice(list, k) {
      forall y | IsPair(points, y)
        ensures y + 1 == n - 1
      {
        PairIsSlice(list, points, n, y);
      }
    }
    if k :| 2 <= k < |list| && IsEmptySlice(list, k) {
      EmptySliceIsPair(list, points, k);
      assert list[k] == list[k - 1] + 1 && list[k] < list[|list| - 1];
    }
  }

  lemma PairIsSlice(list: seq<int>, points: set<int>, n: nat, y: int)
    requires PointList(list, points, n) && |list| >= 3 && IsPair(points, y)
    requires forall k | 2 <= k < |list| :: !IsEmptySlice(list, k)
    ensures y + 1 == n - 1
  {
    var i := IndexInList(list, points, y);
    var j := IndexInList(list, points, y + 1);
    assert 0 < i < j;
    if i + 1 < |list| - 1 {
      EmptySliceIsPair(list, points, i + 1);
    }
  }

  /** Above a pair no number selects the block that holds its point. */
  lemma NeverHeld(list: seq<int>, points: set<int>, n: nat, y: int, x: int)
    requires PointList(list, points, n) && IsPair(points, y) && x in points && y + 1 < x
    ensures !Holds(Slices(list, n), BlockOf(points, x), x)
  {
    var r := IndexInList(list, points, x);
    var i := IndexInList(list, points, y);
    var j := IndexInList(list, points, y + 1);
    assert 0 < i < j < r;
    HoldsPointExactly(list, points, n, r);
    EmptySliceIsPair(list, points, i + 1);
    EmptiesZero(list, 2, |list|);
  }

  /**
    Behind a first conditional above index 0 every further one goes wrong: neither edge selects the block
    behind its target, nor the one that holds it.
   */
  lemma LaterConditionalSelectsWrong(nodes: seq<Slot>, list: seq<int>, first: nat, p: nat, x: int)
    requires AllBranchesInPlace(nodes) && Lists(list, AllPoints(nodes))
    requires 0 < first < p < |nodes| && IsCond(nodes[first]) && IsCond(nodes[p])
    requires x == p + 1 || x == ElseStart(nodes[p].value, p)
    ensures !BeginsBehind(Slices(list, |nodes|), BlockOf(AllPoints(nodes), x), x)
    ensures !Holds(Slices(list, |nodes|), BlockOf(AllPoints(nodes), x), x)
  {
    PairOfCond(nodes, list, first);
    PairOfCond(nodes, list, p);
    TargetIsPoint(nodes, p, x);
    TwoPairsSelectWrong(list, AllPoints(nodes), |nodes|, first, p, x);
  }

  lemma TargetIsPoint(nodes: seq<Slot>, p: nat, x: int)
    requires AllBranchesInPlace(nodes) && p < |nodes| && IsCond(nodes[p])
    requires x == p + 1 || x == ElseStart(nodes[p].value, p)
    ensures x in AllPoints(nodes) && p < x < |nodes|
  {
    CondPoints(nodes, p);
  }

  lemma TwoPairsSelectWrong(list: seq<int>, points: set<int>, n: nat, y: int, z: int, x: int)
    requires PointList(list, points, n) && |list| >= 2 && IsPair(points, y) && IsPair(points, z)
    requires list[1] <= y < z < x && x in points && x < n
    ensures !BeginsBehind(Slices(list, n), BlockOf(points, x), x) && !Holds(Slices(list, n), BlockOf(points, x), x)
  {
    NeverHeld(list, points, n, y, x);
    if x == n - 1 {
      SlicesInside(list, n, BlockOf(points, x));
    } else {
      NumberSelectsExactly(list, points, n, x);
    }
  }

  lemma SlicesInside(list: seq<int>, n: nat, number: nat)
    requires Increasing(list) && n > 0 && list != [] && list[0] == 0 && list[|list| - 1] == n - 1
    ensures !BeginsBehind(Slices(list, n), number, n - 1)
  {
    SlicesOrdered(list, n);
    SlicesCover(list, n, n);
    HoldsCovers(Slices(list, n), number, n);
  }

  /** The statement of a conditional lies in some block exactly if no point lies between the first node and it. */
  lemma ConditionalKept(nodes: seq<Slot>, list: seq<int>, p: nat)
    requires AllBranchesInPlace(nodes) && p < |nodes| && IsCond(nodes[p]) && Lists(list, AllPoints(nodes))
    ensures Covered(Slices(list, |nodes|), p) <==> forall x | x in AllPoints(nodes) && 0 < x :: p <= x
  {
    var points := AllPoints(nodes);
    CondPoints(nodes, p);
    EndsOfList(nodes, list);
    SlicesCover(list, |nodes|, p);
    var i := IndexInList(list, points, p);
    if list[1] >= p {
      forall x | x in points && 0 < x ensures p <= x {
        var j := IndexInList(list, points, x);
      }
    } else {
      assert list[1] in list && 0 < list[1];
    }
  }

  // ---------- if/else bodies ----------

  /** Nothing but if/else, and the first node is no conditional. */
  ghost predicate PlainStart(nodes: seq<Slot>) {
    AllBranchesInPlace(nodes) && OnlyIfElse(nodes) && (nodes != [] ==> !IsCond(nodes[0]))
  }

  /** The conditional that an inner point belongs to. */
  lemma CondOfPoint(nodes: seq<Slot>, x: int) returns (p: nat)
    requires PlainStart(nodes) && x in AllPoints(nodes) && 0 < x < |nodes| - 1
    ensures 0 < p < |nodes| && IsCond(nodes[p]) && p <= x
    ensures x == p || x == p + 1 || x == ElseStart(nodes[p].value, p)
  {
    p := SlotOfPoint(nodes, x);
  }

  /** Then the first conditional, and only it, has its true edge select the block behind its target, if there is one. */
  lemma TrueEdgeOfIfElse(nodes: seq<Slot>, list: seq<int>, p: nat)
    requires PlainStart(nodes) && p < |nodes| && IsCond(nodes[p]) && Lists(list, AllPoints(nodes))
    ensures var points := AllPoints(nodes);
      BeginsBehind(Slices(list, |nodes|), BlockOf(points, p + 1), p + 1) <==>
        (forall i | 0 <= i < p :: !IsCond(nodes[i])) && HasStretch(points, |nodes|, p + 1)
  {
    var points := AllPoints(nodes);
    TrueEdgeSelectsExactly(nodes, list, p);
    CondPoints(nodes, p);
    if i :| 0 <= i < p && IsCond(nodes[i]) {
      CondPoints(nodes, i);
      assert IsPair(points, i);
    } else {
      forall y | IsPair(points, y) ensures y >= p {
        if y < p {
          var i := CondOfPoint(nodes, y);
        }
      }
    }
  }

  /**
    And its false edge does if that conditional is the only one up to a longer then-branch.  In a body
    that starts with a conditional one pair of neighbouring points must lie below the else-branch.
   */
  lemma FalseEdgeOfIfElse(nodes: seq<Slot>, list: seq<int>, p: nat, q: int)
    requires AllBranchesInPlace(nodes) && OnlyIfElse(nodes)
    requires p < |nodes| && IsCond(nodes[p]) && Lists(list, AllPoints(nodes))
    requires q == ElseStart(nodes[p].value, p) && q < |nodes| - 1
    ensures var points := AllPoints(nodes);
      BeginsBehind(Slices(list, |nodes|), BlockOf(points, q), q) <==>
        && HasStretch(points, |nodes|, q)
        && if IsCond(nodes[0]) then OnePairBelow(points, q)
           else (forall i | 0 <= i < q && IsCond(nodes[i]) :: i == p) && p + 2 < q
  {
    FalseEdgeSelectsExactly(nodes, list, p, q);
    CondPoints(nodes, p);
    if !IsCond(nodes[0]) {
      OnlyPairOfIfElse(nodes, p, q);
    }
  }

  lemma OnlyPairOfIfElse(nodes: seq<Slot>, p: nat, q: int)
    requires PlainStart(nodes) && p < |nodes| && IsCond(nodes[p]) && q == ElseStart(nodes[p].value, p) < |nodes|
    ensures OnlyPairBelow(AllPoints(nodes), q, p) <==>
              (forall i | 0 <= i < q && IsCond(nodes[i]) :: i == p) && p + 2 < q
  {
    var points := AllPoints(nodes);
    CondPoints(nodes, p);
    if i :| 0 <= i < q && IsCond(nodes[i]) && i != p {
      CondPoints(nodes, i);
      assert IsPair(points, i);
    } else if q == p + 2 {
      assert IsPair(points, p + 1);
    } else {
      forall z | IsPair(points, z) && z < q ensures z == p {
        var i := CondOfPoint(nodes, z);
        if z == p + 1 {
          var j := CondOfPoint(nodes, z + 1);
        }
      }
    }
  }

  /** The block behind a true edge's target ends no later than the then-branch exactly if some inner point follows. */
  lemma TrueBlockEndsExactly(nodes: seq<Slot>, list: seq<int>, p: nat, q: int)
    requires PlainStart(nodes) && p < |nodes| && IsCond(nodes[p]) && Lists(list, AllPoints(nodes))
    requires q == ElseStart(nodes[p].value, p)
    requires BeginsBehind(Slices(list, |nodes|), BlockOf(AllPoints(nodes), p + 1), p + 1)
    ensures Slices(list, |nodes|)[BlockOf(AllPoints(nodes), p + 1)].1 <= q <==>
              exists z :: z in AllPoints(nodes) && p + 1 < z < |nodes| - 1
  {
    var points, n := AllPoints(nodes), |nodes|;
    PairOfCond(nodes, list, p);
    CondPoints(nodes, p);
    var r := IndexInList(list, points, p + 1);
    var j := IndexInList(list, points, q);
    NextSliceSelected(list, points, n, r);
    assert r < j && list[r + 1] <= q && list[r + 1] in list;
    if z :| z in points && p + 1 < z < n - 1 {
      var i := IndexInList(list, points, z);
      assert r < i < |list| - 1;
    }
  }

  lemma NextSliceSelected(list: seq<int>, points: set<int>, n: nat, r: nat)
    requires PointList(list, points, n) && 2 <= r < |list| - 1
    requires BeginsBehind(Slices(list, n), BlockOf(points, list[r]), list[r])
    ensures Slices(list, n)[BlockOf(points, list[r])] == Slice(list, r + 1)
  {
    SelectsNextSliceExactly(list, points, n, r);
    RankAt(list, points, r);
    SelectedSlice(list, n, r + 1);
  }

  /** The block with this number holds some slot from lo on, before hi. */
  ghost predicate HoldsSome(slices: seq<(int, int)>, number: nat, lo: int, hi: int) {
    exists x :: lo <= x < hi && Holds(slices, number, x)
  }

  /**
    Both edges select a block of their own branch: the true one begins behind its target and ends no
    later than the then-branch, the false one holds its target or begins behind it, and holds some slot
    of the else-branch.
   */
  ghost predicate RunsBothBranches(nodes: seq<Slot>, list: seq<int>, p: nat)
    requires p < |nodes| && IsCond(nodes[p])
  {
    var points, slices, q := AllPoints(nodes), Slices(list, |nodes|), ElseStart(nodes[p].value, p);
    && BeginsBehind(slices, BlockOf(points, p + 1), p + 1) && slices[BlockOf(points, p + 1)].1 <= q
    && (BeginsBehind(slices, BlockOf(points, q), q) || Holds(slices, BlockOf(points, q), q))
    && HoldsSome(slices, BlockOf(points, q), q, q + ElseLength(nodes[p].value))
  }

  /** The only conditional, not the first node, with two slots or more in either branch. */
  ghost predicate OnlyRoomy(nodes: seq<Slot>, p: nat)
    requires p < |nodes| && IsCond(nodes[p])
  {
    && p > 0 && (forall i | 0 <= i < |nodes| && IsCond(nodes[i]) :: i == p)
    && ThenLength(nodes[p].value) > 1 && ElseLength(nodes[p].value) > 1
  }

  lemma BranchEnds(nodes: seq<Slot>, p: nat, q: int)
    requires AllBranchesInPlace(nodes) && p < |nodes| && IsCond(nodes[p]) && q == ElseStart(nodes[p].value, p)
    ensures q == p + 1 + ThenLength(nodes[p].value) && q + ElseLength(nodes[p].value) <= |nodes|
  {
    assert BranchesInPlace(nodes, p);
  }

  /** The points of a body with one conditional. */
  lemma OneConditionalPoints(nodes: seq<Slot>, list: seq<int>, p: nat, q: int)
    requires PlainStart(nodes) && p < |nodes| && IsCond(nodes[p]) && Lists(list, AllPoints(nodes))
    requires forall i | 0 <= i < |nodes| && IsCond(nodes[i]) :: i == p
    requires q == ElseStart(nodes[p].value, p) < |nodes| - 1
    ensures 0 < p && p + 1 < q && list == [0, p, p + 1, q, |nodes| - 1]
  {
    var points, sorted := AllPoints(nodes), [0, p, p + 1, q, |nodes| - 1];
    CondPoints(nodes, p);
    forall x
      ensures x in sorted <==> x in points
    {
      if x in points && 0 < x < |nodes| - 1 {
        var i := CondOfPoint(nodes, x);
      } else if x in points {
        PointsInRange(nodes, x);
      }
    }
    ListsUnique(list, sorted, points);
  }

  /** The three blocks, and the numbers of the conditional and of its targets. */
  ghost predicate CutInThree(slices: seq<(int, int)>, points: set<int>, n: nat, p: int, q: int) {
    && slices == [(0, p + 1), (p + 2, q), (q + 1, n)]
    && BlockOf(points, p) == 0 && BlockOf(points, p + 1) == 1 && BlockOf(points, q) == 2
  }

  /**
    A body with one conditional and room in both branches is cut into three blocks: what comes before
    the branches, the then-branch, and the else-branch with everything behind it, each branch without
    its first slot.  So what follows the conditional is run behind its else-branch only.
   */
  lemma OneConditionalBlocks(nodes: seq<Slot>, list: seq<int>, p: nat, q: int)
    requires PlainStart(nodes) && p < |nodes| && IsCond(nodes[p]) && Lists(list, AllPoints(nodes))
    requires OnlyRoomy(nodes, p) && q == ElseStart(nodes[p].value, p)
    ensures CutInThree(Slices(list, |nodes|), AllPoints(nodes), |nodes|, p, q)
  {
    RoomInBoth(nodes, p, q);
    OneConditionalPoints(nodes, list, p, q);
    FiveBlocks(list, AllPoints(nodes), |nodes|, p, q);
  }

  lemma RoomInBoth(nodes: seq<Slot>, p: nat, q: int)
    requires AllBranchesInPlace(nodes) && p < |nodes| && IsCond(nodes[p]) && q == ElseStart(nodes[p].value, p)
    requires ThenLength(nodes[p].value) > 1 && ElseLength(nodes[p].value) > 1
    ensures p + 2 < q < |nodes| - 1
  {
    BranchEnds(nodes, p, q);
  }

  lemma FiveBlocks(list: seq<int>, points: set<int>, n: nat, p: int, q: int)
    requires Lists(list, points) && list == [0, p, p + 1, q, n - 1] && p + 2 < q < n - 1
    ensures CutInThree(Slices(list, n), points, n, p, q)
  {
    FiveNumbers(list, points, n, p, q);
    FiveSlices(list, n, p, q);
  }

  lemma FiveNumbers(list: seq<int>, points: set<int>, n: nat, p: int, q: int)
    requires Lists(list, points) && list == [0, p, p + 1, q, n - 1]
    ensures BlockOf(points, p) == 0 && BlockOf(points, p + 1) == 1 && BlockOf(points, q) == 2
  {
    RankAt(list, points, 1);
    RankAt(list, points, 2);
    RankAt(list, points, 3);
  }

  lemma FiveSlices(list: seq<int>, n: nat, p: int, q: int)
    requires list == [0, p, p + 1, q, n - 1] && p + 2 < q < n - 1
    ensures Slices(list, n) == [(0, p + 1), (p + 2, q), (q + 1, n)]
  {
    assert SlicesFrom(list, 5) == [];
    assert SlicesFrom(list, 4) == [(q + 1, n)];
    assert SlicesFrom(list, 3) == [(p + 2, q), (q + 1, n)];
    assert SlicesFrom(list, 2) == SlicesFrom(list, 3);
  }

  lemma OnlyRoomyRuns(nodes: seq<Slot>, list: seq<int>, p: nat, q: int)
    requires PlainStart(nodes) && p < |nodes| && IsCond(nodes[p]) && Lists(list, AllPoints(nodes))
    requires OnlyRoomy(nodes, p) && q == ElseStart(nodes[p].value, p)
    ensures RunsBothBranches(nodes, list, p)
  {
    BranchEnds(nodes, p, q);
    OneConditionalBlocks(nodes, list, p, q);
    assert Holds(Slices(list, |nodes|), 2, q + 1);
  }

  /** The true edge of a first node never begins a block behind its target. */
  lemma RunsAboveZero(nodes: seq<Slot>, list: seq<int>, p: nat)
    requires AllBranchesInPlace(nodes) && p < |nodes| && IsCond(nodes[p]) && Lists(list, AllPoints(nodes))
    requires RunsBothBranches(nodes, list, p)
    ensures p > 0
  {
    TrueEdgeSelectsExactly(nodes, list, p);
  }

  lemma RunsOnlyRoomy(nodes: seq<Slot>, list: seq<int>, p: nat, q: int)
    requires PlainStart(nodes) && p < |nodes| && IsCond(nodes[p]) && Lists(list, AllPoints(nodes))
    requires forall i | 0 <= i < |nodes| && IsCond(nodes[i]) :: RunsBothBranches(nodes, list, i)
    requires q == ElseStart(nodes[p].value, p)
    ensures OnlyRoomy(nodes, p)
  {
    forall i | 0 <= i < |nodes| && IsCond(nodes[i]) ensures i == p {
      TrueEdgeOfIfElse(nodes, list, i);
      TrueEdgeOfIfElse(nodes, list, p);
    }
    BranchEnds(nodes, p, q);
    RunsRoomyElse(nodes, list, p, q);
    FalseEdgeOfIfElse(nodes, list, p, q);
  }

  /** Only an else-branch of two slots or more leaves its block something to hold. */
  lemma RunsRoomyElse(nodes: seq<Slot>, list: seq<int>, p: nat, q: int)
    requires AllBranchesInPlace(nodes) && 0 < p < |nodes| && IsCond(nodes[p]) && Lists(list, AllPoints(nodes))
    requires q == ElseStart(nodes[p].value, p) && RunsBothBranches(nodes, list, p)
    ensures ElseLength(nodes[p].value) > 1 && q < |nodes| - 1
    ensures BeginsBehind(Slices(list, |nodes|), BlockOf(AllPoints(nodes), q), q)
  {
    PairOfCond(nodes, list, p);
    TargetIsPoint(nodes, p, q);
    NeverHeld(list, AllPoints(nodes), |nodes|, p, q);
    BranchEnds(nodes, p, q);
    var x :| q <= x < q + ElseLength(nodes[p].value) && Holds(Slices(list, |nodes|), BlockOf(AllPoints(nodes), q), x);
  }

  /**
    An if/else body has all its branches run exactly if it has one conditional at most, which is not the
    first node and has two slots or more in either branch.
   */
  lemma BranchesRunExactly(nodes: seq<Slot>, list: seq<int>)
    requires AllBranchesInPlace(nodes) && OnlyIfElse(nodes) && Lists(list, AllPoints(nodes))
    ensures (forall p | 0 <= p < |nodes| && IsCond(nodes[p]) :: RunsBothBranches(nodes, list, p)) <==>
              forall p | 0 <= p < |nodes| && IsCond(nodes[p]) :: OnlyRoomy(nodes, p)
  {
    if forall p | 0 <= p < |nodes| && IsCond(nodes[p]) :: RunsBothBranches(nodes, list, p) {
      if nodes != [] && IsCond(nodes[0]) {
        RunsAboveZero(nodes, list, 0);
      }
      forall p | 0 <= p < |nodes| && IsCond(nodes[p]) ensures OnlyRoomy(nodes, p) {
        RunsOnlyRoomy(nodes, list, p, ElseStart(nodes[p].value, p));
      }
    }
    if forall p | 0 <= p < |nodes| && IsCond(nodes[p]) :: OnlyRoomy(nodes, p) {
      assert nodes != [] ==> !IsCond(nodes[0]);
      forall p | 0 <= p < |nodes| && IsCond(nodes[p]) ensures RunsBothBranches(nodes, list, p) {
        OnlyRoomyRuns(nodes, list, p, ElseStart(nodes[p].value, p));
      }
    }
  }

  // ---------- a body that starts with its conditional ----------

  /** Below the else-branch of a lone conditional at index 0 lie the points 0 and 1 only. */
  lemma PointsOfFirst(nodes: seq<Slot>, q: int, x: int)
    requires AllBranchesInPlace(nodes) && OnlyIfElse(nodes) && nodes != [] && IsCond(nodes[0])
    requires q == ElseStart(nodes[0].value, 0) < |nodes| - 1
    requires forall i | 0 < i < q :: !IsCond(nodes[i])
    ensures x in AllPoints(nodes) && x < q ==> x == 0 || x == 1
  {
    if x in AllPoints(nodes) && x < q {
      PointsInRange(nodes, x);
      if x > 0 {
        var p := SlotOfPoint(nodes, x);
      }
    }
  }

  /**
    If the first node is the only conditional before its else-branch, its false edge has number 1: the
    rest of the then-branch, unless that has one slot only.
   */
  lemma FirstFalseEdgeRunsThen(nodes: seq<Slot>, list: seq<int>, q: int)
    requires AllBranchesInPlace(nodes) && OnlyIfElse(nodes) && nodes != [] && IsCond(nodes[0])
    requires Lists(list, AllPoints(nodes)) && q == ElseStart(nodes[0].value, 0) < |nodes| - 1
    requires forall i | 0 < i < q :: !IsCond(nodes[i])
    ensures BlockOf(AllPoints(nodes), q) == 1
    ensures q > 2 ==> |Slices(list, |nodes|)| > 1 && Slices(list, |nodes|)[1] == (2, q)
    ensures BeginsBehind(Slices(list, |nodes|), 1, q) <==> q == 2 && HasStretch(AllPoints(nodes), |nodes|, q)
  {
    var points := AllPoints(nodes);
    FirstPoints(nodes, list);
    CondPoints(nodes, 0);
    var r := IndexInList(list, points, q);
    PointsOfFirst(nodes, q, list[2]);
    assert list[1] < list[2] && list[2] in list && r == 2;
    RankAt(list, points, 2);
    EmptySliceIsPair(list, points, 2);
    if q > 2 {
      SelectedSlice(list, |nodes|, 2);
    } else {
      FirstPairBelow(nodes, q);
      NumberSelectsExactly(list, points, |nodes|, q);
    }
  }

  lemma FirstPairBelow(nodes: seq<Slot>, q: int)
    requires AllBranchesInPlace(nodes) && nodes != [] && IsCond(nodes[0]) && q == ElseStart(nodes[0].value, 0) == 2
    ensures OnePairBelow(AllPoints(nodes), q)
  {
    CondPoints(nodes, 0);
    assert OnlyPairBelow(AllPoints(nodes), q, 1);
  }

  // ---------- two conditionals in a row ----------

  const THEN_A: Body := Many([Simple(2), Simple(3)])
  const ELSE_A: Body := Many([Simple(4), Simple(5)])
  const THEN_B: Body := Many([Simple(7), Simple(8)])
  const ELSE_B: Body := Many([Simple(9), Simple(10)])
  const IF_A: Node := Cond(1, THEN_A, ELSE_A)
  const IF_B: Node := Cond(6, THEN_B, ELSE_B)

  /** `s0; if (a) {t1; t2} else {e1; e2} if (b) {u1; u2} else {v1; v2} end`, statements numbered by their index. */
  const TWO_IFS: Body := Many([Simple(0), IF_A, IF_B, Simple(11)])

  function Plain(i: int): Slot {
    Some(Simple(i))
  }

  const TWO_IFS_NODES: seq<Slot> :=
    [Plain(0), Some(IF_A), Plain(2), Plain(3), Plain(4), Plain(5),
     Some(IF_B), Plain(7), Plain(8), Plain(9), Plain(10), Plain(11)]

  const TWO_IFS_POINTS: seq<int> := [0, 1, 2, 4, 6, 7, 9, 11]

  lemma FlattenTwo(a: int, b: int)
    ensures Flatten(Many([Simple(a), Simple(b)])) == [Plain(a), Plain(b)]
  {
    var items := [Simple(a), Simple(b)];
    var rest := items[1..];
    assert rest == [Simple(b)] && rest[1..] == [];
    assert FlattenAll(rest) == [Plain(b)] + FlattenAll(rest[1..]) == [Plain(b)];
    assert FlattenAll(items) == [Plain(a)] + FlattenAll(rest);
  }

  lemma FlattenIf(c: Node, a: int, b: int, d: int, e: int)
    requires c.Cond? && c == Cond(c.id, Many([Simple(a), Simple(b)]), Many([Simple(d), Simple(e)]))
    ensures FlattenNode(c) == [Some(c), Plain(a), Plain(b), Plain(d), Plain(e)]
  {
    FlattenTwo(a, b);
    FlattenTwo(d, e);
  }

  lemma FlattenTwoIfs()
    ensures Flatten(TWO_IFS) == TWO_IFS_NODES
  {
    var items := TWO_IFS.items;
    FlattenIf(IF_A, 2, 3, 4, 5);
    FlattenIf(IF_B, 7, 8, 9, 10);
    assert items[1..] == [IF_A, IF_B, Simple(11)];
    assert items[2..] == items[1..][1..] == [IF_B, Simple(11)];
    assert items[3..] == items[2..][1..] == [Simple(11)];
    assert FlattenAll(items[3..]) == [Plain(11)];
    assert FlattenAll(items[2..]) == FlattenNode(IF_B) + [Plain(11)];
    assert FlattenAll(items[1..]) == FlattenNode(IF_A) + FlattenAll(items[2..]);
    assert FlattenAll(items) == [Plain(0)] + FlattenAll(items[1..]);
  }

  lemma TwoIfsPointsAt(p: nat)
    requires p < 12
    ensures PointsAt(TWO_IFS_NODES[p], p) == if p == 1 then {1, 2, 4} else if p == 6 then {6, 7, 9} else {}
  {
    FlattenTwo(2, 3);
    FlattenTwo(7, 8);
  }

  lemma TwoIfsPointsOf(x: int)
    ensures x in PointsOf(TWO_IFS_NODES, 0) <==> x in {1, 2, 4, 6, 7, 9}
  {
    PointsMember(TWO_IFS_NODES, 0, x);
    TwoIfsPointsAt(1);
    TwoIfsPointsAt(6);
    if x in {1, 2, 4} {
      assert x in PointsAt(TWO_IFS_NODES[1], 0 + 1);
    }
    if x in {6, 7, 9} {
      assert x in PointsAt(TWO_IFS_NODES[6], 0 + 6);
    }
    if p :| 0 <= p < |TWO_IFS_NODES| && x in PointsAt(TWO_IFS_NODES[p], 0 + p) {
      TwoIfsPointsAt(p);
    }
  }

  lemma TwoIfsPoints()
    ensures Lists(TWO_IFS_POINTS, AllPoints(TWO_IFS_NODES))
  {
    forall x
      ensures x in TWO_IFS_POINTS <==> x in AllPoints(TWO_IFS_NODES)
    {
      TwoIfsPointsOf(x);
    }
  }

  lemma TwoIfsEmpties()
    ensures Empties(TWO_IFS_POINTS, 2, 7) == 2 && Empties(TWO_IFS_POINTS, 2, 8) == 2
  {
    var l := TWO_IFS_POINTS;
    assert Empties(l, 7, 7) == 0 && Empties(l, 8, 8) == 0 && Empties(l, 7, 8) == 0;
    assert Empties(l, 6, 7) == 0 && Empties(l, 6, 8) == 0;
    assert Empties(l, 5, 7) == 1 && Empties(l, 5, 8) == 1;
    assert Empties(l, 4, 7) == 1 && Empties(l, 4, 8) == 1;
    assert Empties(l, 3, 7) == 1 && Empties(l, 3, 8) == 1;
  }

  /**
    Of two conditionals in a row the second goes wrong: its true edge selects the block of nodes 10 and
    11, the end of its else-branch, and its false edge the block behind the last one.
   */
  lemma SecondConditionalGoesWrong(list: seq<int>, points: set<int>)
    requires points == AllPoints(Flatten(TWO_IFS)) && Lists(list, points)
    ensures var slices := Slices(list, 12);
      && |slices| == 5
      && BlockOf(points, 7) == 4 && slices[4] == (10, 12)
      && BlockOf(points, 9) == 5
  {
    FlattenTwoIfs();
    TwoIfsPoints();
    ListsUnique(list, TWO_IFS_POINTS, points);
    RankAt(list, points, 5);
    RankAt(list, points, 6);
    TwoIfsEmpties();
    SelectedSlice(list, 12, 7);
    SlicesFromLength(list, 2);
  }
}
