/**
  Block numbers.  `partition` cuts the node list at the sorted partition points and
  `find_basic_block` turns a node index into a block number; both are characterised here, and when
  the last number is out of range.  Which block a number selects is the subject of CfgSelection.
 */
module CfgBlocks {
  import opened CfgLayout

  // ---------- ranks ----------

  /** How many partition points lie below x. */
  function Rank(points: set<int>, x: int): nat {
    |set y | y in points && y < x|
  }

  /** The block number of a partition point: the first two share block 0. */
  function BlockOf(points: set<int>, x: int): nat {
    if Rank(points, x) <= 1 then 0 else Rank(points, x) - 1
  }

  lemma RankNext(points: set<int>, p: int)
    requires p in points
    ensures Rank(points, p + 1) == Rank(points, p) + 1
  {
    var below := set y | y in points && y < p;
    assert (set y | y in points && y < p + 1) == below + {p};
  }

  lemma SubsetCard<T>(a: set<T>, b: set<T>)
    requires a <= b
    ensures |a| <= |b|
  {
    assert b == a + (b - a);
  }

  lemma RankMonotone(points: set<int>, x: int, y: int)
    requires x <= y
    ensures Rank(points, x) <= Rank(points, y)
  {
    SubsetCard(set z | z in points && z < x, set z | z in points && z < y);
  }

  lemma RankStrict(points: set<int>, x: int, y: int)
    requires x in points && x < y
    ensures Rank(points, x) < Rank(points, y)
  {
    RankNext(points, x);
    RankMonotone(points, x + 1, y);
  }

  /** The next rank up belongs to p + 1, if that is a point, and to nothing else. */
  lemma NextRankIsNextIndex(points: set<int>, p: int, x: int)
    requires p in points && p + 1 in points && x in points
    ensures Rank(points, x) == Rank(points, p) + 1 <==> x == p + 1
  {
    RankNext(points, p);
    if x > p + 1 {
      RankStrict(points, p + 1, x);
    } else if x < p + 1 {
      RankStrict(points, x, p + 1);
    }
  }

  // ---------- sorted lists of points ----------

  ghost predicate Increasing(list: seq<int>) {
    forall i, j | 0 <= i < j < |list| :: list[i] < list[j]
  }

  ghost predicate Lists(list: seq<int>, points: set<int>) {
    Increasing(list) && forall x :: x in list <==> x in points
  }

  function Elements(list: seq<int>): set<int> {
    set y | y in list
  }

  lemma {:induction false} RankOfIndex(list: seq<int>, points: set<int>, r: nat)
    requires Lists(list, points) && r <= |list|
    ensures |Elements(list[..r])| == r
  {
    if r > 0 {
      RankOfIndex(list, points, r - 1);
      assert list[..r] == list[..r - 1] + [list[r - 1]];
      var low := list[..r - 1];
      assert forall y | y in low :: y < list[r - 1];
      assert Elements(list[..r]) == Elements(list[..r - 1]) + {list[r - 1]};
    }
  }

  /** x lies above exactly r of the listed points. */
  ghost predicate SitsAt(list: seq<int>, r: nat, x: int)
    requires r <= |list|
  {
    (forall i | 0 <= i < r :: list[i] < x) && (forall i | r <= i < |list| :: x <= list[i])
  }

  lemma RankBySorting(list: seq<int>, points: set<int>, r: nat, x: int)
    requires Lists(list, points) && r <= |list| && SitsAt(list, r, x)
    ensures Rank(points, x) == r
  {
    RankOfIndex(list, points, r);
    var below := set y | y in points && y < x;
    forall y
      ensures y in below <==> y in Elements(list[..r])
    {
      if y in below {
        assert y in list;
        var i :| 0 <= i < |list| && list[i] == y;
        assert i < r && list[..r][i] == y;
      }
      if y in list[..r] {
        assert y in list;
      }
    }
    assert below == Elements(list[..r]);
  }

  lemma RankAt(list: seq<int>, points: set<int>, r: nat)
    requires Lists(list, points) && r < |list|
    ensures Rank(points, list[r]) == r
  {
    RankBySorting(list, points, r, list[r]);
  }

  lemma ListedAll(list: seq<int>, points: set<int>)
    requires Lists(list, points)
    ensures |list| == |points|
  {
    RankOfIndex(list, points, |list|);
    assert list[..|list|] == list;
    assert forall y :: y in Elements(list) <==> y in points;
    assert Elements(list) == points;
  }

  /** There is one sorted list of the points. */
  lemma ListsUnique(list: seq<int>, list': seq<int>, points: set<int>)
    requires Lists(list, points) && Lists(list', points)
    ensures list == list'
  {
    ListedAll(list, points);
    ListedAll(list', points);
    forall r | 0 <= r < |list|
      ensures list[r] == list'[r]
    {
      RankAt(list, points, r);
      RankAt(list', points, r);
      assert list[r] in list && list'[r] in list';
      if list[r] < list'[r] {
        RankStrict(points, list[r], list'[r]);
      } else if list'[r] < list[r] {
        RankStrict(points, list'[r], list[r]);
      }
    }
  }

  /** Low indices, and every index when there are fewer than two points, have rank 0 or 1. */
  lemma RankLow(list: seq<int>, points: set<int>, x: int)
    requires Lists(list, points) && (|list| < 2 || x <= list[1])
    ensures Rank(points, x) <= 1
  {
    if |list| >= 2 {
      RankAt(list, points, 1);
      RankMonotone(points, x, list[1]);
    } else {
      RankOfIndex(list, points, |list|);
      assert list[..|list|] == list;
      SubsetCard((set y | y in points && y < x), Elements(list));
    }
  }

  /** The point with index r is the last one at or below x. */
  lemma RankFound(list: seq<int>, points: set<int>, r: nat, x: int)
    requires Lists(list, points) && r < |list| && list[r] <= x && (r == |list| - 1 || x < list[r + 1])
    ensures x in points <==> x == list[r]
    ensures Rank(points, x) == if x == list[r] then r else r + 1
  {
    assert x in list <==> x in points;
    assert list[r] in list;
    if x == list[r] {
      RankAt(list, points, r);
    } else {
      assert SitsAt(list, r + 1, x);
      RankBySorting(list, points, r + 1, x);
    }
  }

  function InsertSorted(list: seq<int>, x: int): seq<int> {
    if list == [] || x < list[0] then [x] + list else [list[0]] + InsertSorted(list[1..], x)
  }

  lemma {:induction false} InsertedMembers(list: seq<int>, x: int, y: int)
    ensures y in InsertSorted(list, x) <==> y in list || y == x
  {
    if list != [] && x >= list[0] {
      InsertedMembers(list[1..], x, y);
      assert y in list <==> y == list[0] || y in list[1..];
    }
  }

  lemma {:induction false} InsertKeepsIncreasing(list: seq<int>, x: int)
    requires Increasing(list) && x !in list
    ensures Increasing(InsertSorted(list, x))
  {
    if list != [] && x >= list[0] {
      var rest := InsertSorted(list[1..], x);
      InsertKeepsIncreasing(list[1..], x);
      forall j | 0 <= j < |rest|
        ensures list[0] < rest[j]
      {
        InsertedMembers(list[1..], x, rest[j]);
      }
    }
  }

  // ---------- the slices that partition cuts ----------

  /** The i-th slice behind the first block, as half-open node indices. */
  function Slice(list: seq<int>, i: nat): (int, int)
    requires 2 <= i < |list|
  {
    (list[i - 1] + 1, if i == |list| - 1 then list[i] + 1 else list[i])
  }

  function SlicesFrom(list: seq<int>, i: nat): seq<(int, int)>
    requires 2 <= i
    decreases |list| - i
  {
    if i >= |list| then []
    else
      var s := Slice(list, i);
      (if s.0 < s.1 then [s] else []) + SlicesFrom(list, i + 1)
  }

  /** The basic blocks, as half-open node indices; n is the number of nodes. */
  function Slices(list: seq<int>, n: nat): seq<(int, int)> {
    if |list| >= 2 then [(list[0], list[1] + 1)] + SlicesFrom(list, 2) else [(0, n)]
  }

  /** The blocks are these slices of the node list. */
  ghost predicate CutAt(blocks: seq<seq<Slot>>, nodes: seq<Slot>, slices: seq<(int, int)>) {
    && |blocks| == |slices|
    && forall i | 0 <= i < |slices| ::
         0 <= slices[i].0 <= slices[i].1 <= |nodes| && blocks[i] == nodes[slices[i].0..slices[i].1]
  }

  /** The blocks are the slices at the sorted points. */
  ghost predicate Partitioned(blocks: seq<seq<Slot>>, nodes: seq<Slot>, points: set<int>) {
    exists list :: Lists(list, points) && CutAt(blocks, nodes, Slices(list, |nodes|))
  }

  ghost predicate Covered(slices: seq<(int, int)>, x: int) {
    exists i :: 0 <= i < |slices| && slices[i].0 <= x < slices[i].1
  }

  /** Non-empty, ordered and disjoint. */
  ghost predicate Ordered(slices: seq<(int, int)>) {
    && (forall i | 0 <= i < |slices| :: slices[i].0 < slices[i].1)
    && (forall i, j | 0 <= i < j < |slices| :: slices[i].1 <= slices[j].0)
  }

  lemma CoveredCons(s: (int, int), rest: seq<(int, int)>, x: int)
    ensures Covered([s] + rest, x) <==> s.0 <= x < s.1 || Covered(rest, x)
  {
    var all := [s] + rest;
    if s.0 <= x < s.1 {
      assert all[0] == s;
    }
    if Covered(rest, x) {
      var i :| 0 <= i < |rest| && rest[i].0 <= x < rest[i].1;
      assert all[i + 1] == rest[i];
    }
  }

  lemma {:induction false} SlicesFromCover(list: seq<int>, i: nat, x: int)
    requires Increasing(list) && 2 <= i <= |list|
    ensures Covered(SlicesFrom(list, i), x) <==>
              list[i - 1] < x <= list[|list| - 1] && (x in list ==> x == list[|list| - 1])
    decreases |list| - i
  {
    if i < |list| {
      var s := Slice(list, i);
      SlicesFromCover(list, i + 1, x);
      if s.0 < s.1 {
        CoveredCons(s, SlicesFrom(list, i + 1), x);
      } else {
        assert SlicesFrom(list, i) == SlicesFrom(list, i + 1);
      }
      if x in list {
        var k :| 0 <= k < |list| && list[k] == x;
        assert !(list[i - 1] < x < list[i]);
      }
      assert list[i] in list;
    }
  }

  lemma {:induction false} SlicesFromOrdered(list: seq<int>, i: nat)
    requires Increasing(list) && 2 <= i <= |list|
    ensures Ordered(SlicesFrom(list, i))
    ensures forall k | 0 <= k < |SlicesFrom(list, i)| :: list[i - 1] < SlicesFrom(list, i)[k].0
    decreases |list| - i
  {
    if i < |list| {
      SlicesFromOrdered(list, i + 1);
      var s, rest := Slice(list, i), SlicesFrom(list, i + 1);
      assert i == |list| - 1 ==> rest == [];
      assert forall k | 0 <= k < |rest| :: s.1 <= rest[k].0;
    }
  }

  /** The basic blocks are non-empty, ordered and disjoint. */
  lemma SlicesOrdered(list: seq<int>, n: nat)
    requires Increasing(list) && n > 0
    ensures Ordered(Slices(list, n))
  {
    if |list| >= 2 {
      SlicesFromOrdered(list, 2);
    }
  }

  /**
    Together the basic blocks hold every node except the partition points strictly between the
    second and the last.
   */
  lemma SlicesCover(list: seq<int>, n: nat, x: int)
    requires Increasing(list) && n > 0 && list != [] && list[0] == 0 && list[|list| - 1] == n - 1
    ensures Covered(Slices(list, n), x) <==>
              0 <= x < n && !(|list| >= 3 && x in list && list[1] < x < n - 1)
  {
    if |list| >= 2 {
      SlicesFromCover(list, 2, x);
      CoveredCons((list[0], list[1] + 1), SlicesFrom(list, 2), x);
      assert list[|list| - 1] in list;
    } else {
      assert Slices(list, n)[0] == (0, n);
    }
  }

  /** Two neighbouring interior points leave an empty slice, which is not kept. */
  predicate NeighbouringPoints(list: seq<int>) {
    exists i :: 2 <= i < |list| - 1 && list[i] == list[i - 1] + 1
  }

  lemma {:induction false} SlicesFromCount(list: seq<int>, i: nat)
    requires Increasing(list) && 2 <= i <= |list|
    ensures |SlicesFrom(list, i)| <= |list| - i
    ensures |SlicesFrom(list, i)| == |list| - i <==>
              forall k | i <= k < |list| - 1 :: list[k] != list[k - 1] + 1
    decreases |list| - i
  {
    if i < |list| {
      SlicesFromCount(list, i + 1);
    }
  }

  /** There are as many blocks as block numbers exactly when no two interior points are neighbours. */
  lemma BlockCount(list: seq<int>, points: set<int>, n: nat)
    requires Lists(list, points) && |list| >= 2
    ensures |Slices(list, n)| <= |list| - 1
    ensures BlockOf(points, list[|list| - 1]) == |list| - 2
    ensures BlockOf(points, list[|list| - 1]) < |Slices(list, n)| <==> !NeighbouringPoints(list)
  {
    SlicesFromCount(list, 2);
    RankAt(list, points, |list| - 1);
  }
}
