/**
  The branch points that the walk remembers by block depth, and the tuples that it makes of them when
  it leaves a block: read off the statement tree, without the walk's counters and stack.
 */
module CfgMarks {
  import opened Wrappers
  import opened CfgLayout

  /** A tuple: the depth of the block that made it, the indices where that block began and ended, and the members. */
  datatype Tuple = Tuple(depth: int, start: int, end: int, members: set<int>)

  /** The remembered indices by depth, and the tuples made so far. */
  datatype Marks = Marks(points: map<int, set<int>>, tuples: seq<Tuple>)

  /** One more point for a depth. */
  function Marked(points: map<int, set<int>>, depth: int, idx: int): map<int, set<int>> {
    points[depth := (if depth in points then points[depth] else {}) + {idx}]
  }

  /** Leaving a block: its depth's points become a tuple, if there are two at least. */
  function Closed(m: Marks, depth: int, start: int, end: int): Marks {
    if depth in m.points && |m.points[depth]| > 1
    then m.(tuples := m.tuples + [Tuple(depth, start, end, m.points[depth])])
    else m
  }

  /** Only a branching node that a block lists is marked. */
  function Own(n: Node, base: int, depth: int, inBlock: bool, listed: bool, m: Marks): Marks {
    if listed && inBlock && IsBranch(Some(n)) then m.(points := Marked(m.points, depth, base)) else m
  }

  /** The marks after a body whose first slot is base, `depth` blocks deep; `inBlock` says that its lists mark. */
  function MarksOf(b: Body, base: int, depth: int, inBlock: bool, m: Marks): Marks
    decreases b, 0
  {
    match b
    case NoBody => m
    case Many(items) => MarksAll(items, base, depth, inBlock, m)
    case One(n) => MarksNode(n, base, depth, inBlock, false, m)
  }

  function MarksAll(items: seq<Node>, base: int, depth: int, inBlock: bool, m: Marks): Marks
    decreases items, 0
  {
    if items == [] then m
    else
      var next := MarksNode(items[0], base, depth, inBlock, true, m);
      MarksAll(items[1..], base + |FlattenNode(items[0])|, depth, inBlock, next)
  }

  /** Only a block on its own goes one deeper. */
  function MarksNode(n: Node, base: int, depth: int, inBlock: bool, listed: bool, m: Marks): Marks
    decreases n, 0
  {
    var own := Own(n, base, depth, inBlock, listed, m);
    match n
    case Cond(_, t, e) =>
      MarksOf(e, ElseStart(n, base), depth, inBlock, MarksOf(t, base + 1, depth, inBlock, own))
    case Case(_, b) => MarksOf(b, base + 1, depth, inBlock, own)
    case For(_, b) => MarksOf(b, base + 1, depth, inBlock, own)
    case Proc(_, b) => MarksOf(b, base + 1, depth, inBlock, own)
    case CaseItem(b) => MarksOf(b, base, depth, inBlock, own)
    case Block(b) =>
      if listed then MarksOf(b, base, depth, inBlock, own)
      else Closed(MarksOf(b, base, depth + 1, true, own), depth + 1, base, base + |Flatten(b)|)
    case Timing(_, b) => MarksOf(b, base, depth, inBlock, own)
    case Simple(_) => own
  }

  lemma {:induction false} MarksAppend(items: seq<Node>, n: Node, base: int, depth: int, inBlock: bool, m: Marks)
    ensures MarksAll(items + [n], base, depth, inBlock, m) ==
              MarksNode(n, base + |FlattenAll(items)|, depth, inBlock, true, MarksAll(items, base, depth, inBlock, m))
    decreases items
  {
    var all := items + [n];
    if items == [] {
      assert all == [n] && all[1..] == [];
    } else {
      assert all[1..] == items[1..] + [n] && all[0] == items[0];
      MarksAppend(items[1..], n, base + |FlattenNode(items[0])|, depth, inBlock,
                  MarksNode(items[0], base, depth, inBlock, true, m));
    }
  }

  /** The body of a node with a slot of its own, if it is no conditional. */
  function HeadedBody(n: Node): Body
    requires n.Case? || n.For? || n.Proc?
  {
    match n
    case Case(_, items) => items
    case For(_, body) => body
    case Proc(_, body) => body
  }

  lemma MarksHeaded(n: Node, b: Body, base: int, depth: int, inBlock: bool, listed: bool, m: Marks, own: Marks)
    requires (n.Case? || n.For? || n.Proc?) && b == HeadedBody(n)
    requires own == Own(n, base, depth, inBlock, listed, m)
    ensures MarksNode(n, base, depth, inBlock, listed, m) == MarksOf(b, base + 1, depth, inBlock, own)
    ensures FlattenNode(n) == [Some(n)] + Flatten(b) && b < n
  {
  }

  // ---------- which statements a tuple joins ----------

  /**
    The slot x holds a branching statement that is listed by a block, with d blocks on their own around
    it; base, depth and inBlock place the body.
   */
  predicate MarkedIn(b: Body, base: int, depth: int, inBlock: bool, x: int, d: int)
    decreases b, 0
  {
    match b
    case NoBody => false
    case Many(items) => MarkedAmong(items, base, depth, inBlock, x, d)
    case One(n) => MarkedNode(n, base, depth, inBlock, false, x, d)
  }

  predicate MarkedAmong(items: seq<Node>, base: int, depth: int, inBlock: bool, x: int, d: int)
    decreases items, 0
  {
    items != [] &&
    (|| MarkedNode(items[0], base, depth, inBlock, true, x, d)
     || MarkedAmong(items[1..], base + |FlattenNode(items[0])|, depth, inBlock, x, d))
  }

  predicate MarkedItself(n: Node, base: int, depth: int, inBlock: bool, listed: bool, x: int, d: int) {
    listed && inBlock && (n.Cond? || n.Case? || n.For?) && x == base && d == depth
  }

  predicate MarkedNode(n: Node, base: int, depth: int, inBlock: bool, listed: bool, x: int, d: int)
    decreases n, 0
  {
    || MarkedItself(n, base, depth, inBlock, listed, x, d)
    || match n
       case Cond(_, t, e) =>
         MarkedIn(t, base + 1, depth, inBlock, x, d) || MarkedIn(e, ElseStart(n, base), depth, inBlock, x, d)
       case Case(_, b) => MarkedIn(b, base + 1, depth, inBlock, x, d)
       case For(_, b) => MarkedIn(b, base + 1, depth, inBlock, x, d)
       case Proc(_, b) => MarkedIn(b, base + 1, depth, inBlock, x, d)
       case CaseItem(b) => MarkedIn(b, base, depth, inBlock, x, d)
       case Block(b) =>
         if listed then MarkedIn(b, base, depth, inBlock, x, d) else MarkedIn(b, base, depth + 1, true, x, d)
       case Timing(_, b) => MarkedIn(b, base, depth, inBlock, x, d)
       case Simple(_) => false
  }

  function PointsFor(m: Marks, d: int): set<int> {
    if d in m.points then m.points[d] else {}
  }

  /** What a tuple joins at its depth: the points there were, and x if it is marked before the tuple's end. */
  predicate Joins(t: Tuple, m: Marks, lo: int, hi: int, x: int, d: int, marked: bool) {
    && lo <= t.start <= t.end <= hi
    && (t.depth == d ==> (x in t.members <==> x in PointsFor(m, d) || (marked && x < t.end)))
  }

  /** The slots from lo to hi take the marks from m to r; `marked` says that x is marked there, at depth d. */
  ghost predicate Extends(m: Marks, r: Marks, lo: int, hi: int, x: int, d: int, marked: bool) {
    && (x in PointsFor(r, d) <==> x in PointsFor(m, d) || marked)
    && (marked ==> lo <= x < hi)
    && m.tuples <= r.tuples
    && forall i | |m.tuples| <= i < |r.tuples| :: Joins(r.tuples[i], m, lo, hi, x, d, marked)
  }

  lemma ExtendsOn(m: Marks, r: Marks, s: Marks, lo: int, mid: int, hi: int, x: int, d: int, f: bool, g: bool)
    requires Extends(m, r, lo, mid, x, d, f) && Extends(r, s, mid, hi, x, d, g) && lo <= mid <= hi
    ensures Extends(m, s, lo, hi, x, d, f || g)
  {
    forall i | |m.tuples| <= i < |s.tuples|
      ensures Joins(s.tuples[i], m, lo, hi, x, d, f || g)
    {
      if i < |r.tuples| {
        assert s.tuples[i] == r.tuples[i];
        assert Joins(r.tuples[i], m, lo, mid, x, d, f);
      } else {
        assert Joins(s.tuples[i], r, mid, hi, x, d, g);
      }
    }
  }

  lemma ExtendsWider(m: Marks, r: Marks, lo: int, hi: int, hi': int, x: int, d: int, f: bool)
    requires Extends(m, r, lo, hi, x, d, f) && hi <= hi'
    ensures Extends(m, r, lo, hi', x, d, f)
  {
    forall i | |m.tuples| <= i < |r.tuples|
      ensures Joins(r.tuples[i], m, lo, hi', x, d, f)
    {
      assert Joins(r.tuples[i], m, lo, hi, x, d, f);
    }
  }

  lemma ClosedExtends(m: Marks, r: Marks, lo: int, hi: int, depth: int, x: int, d: int, f: bool)
    requires Extends(m, r, lo, hi, x, d, f) && lo <= hi
    ensures Extends(m, Closed(r, depth, lo, hi), lo, hi, x, d, f)
  {
    var s := Closed(r, depth, lo, hi);
    forall i | |m.tuples| <= i < |s.tuples|
      ensures Joins(s.tuples[i], m, lo, hi, x, d, f)
    {
      if i < |r.tuples| {
        assert s.tuples[i] == r.tuples[i];
      }
    }
  }

  // ---------- every walk ----------

  lemma OwnExtends(n: Node, base: int, depth: int, inBlock: bool, listed: bool, m: Marks, x: int, d: int)
    ensures Extends(m, Own(n, base, depth, inBlock, listed, m), base, base + 1, x, d,
                    MarkedItself(n, base, depth, inBlock, listed, x, d))
  {
  }

  lemma {:induction false} BodyExtends(b: Body, base: int, depth: int, inBlock: bool, m: Marks, x: int, d: int)
    ensures Extends(m, MarksOf(b, base, depth, inBlock, m), base, base + |Flatten(b)|, x, d,
                    MarkedIn(b, base, depth, inBlock, x, d))
    decreases b, 0
  {
    match b
    case NoBody =>
    case Many(items) => AllExtends(items, base, depth, inBlock, m, x, d);
    case One(n) => NodeExtends(n, base, depth, inBlock, false, m, x, d);
  }

  lemma {:induction false} AllExtends(items: seq<Node>, base: int, depth: int, inBlock: bool, m: Marks, x: int, d: int)
    ensures Extends(m, MarksAll(items, base, depth, inBlock, m), base, base + |FlattenAll(items)|, x, d,
                    MarkedAmong(items, base, depth, inBlock, x, d))
    decreases items, 0
  {
    if items != [] {
      var mid := base + |FlattenNode(items[0])|;
      var r := MarksNode(items[0], base, depth, inBlock, true, m);
      NodeExtends(items[0], base, depth, inBlock, true, m, x, d);
      AllExtends(items[1..], mid, depth, inBlock, r, x, d);
      ExtendsOn(m, r, MarksAll(items[1..], mid, depth, inBlock, r), base, mid, base + |FlattenAll(items)|, x, d,
                MarkedNode(items[0], base, depth, inBlock, true, x, d),
                MarkedAmong(items[1..], mid, depth, inBlock, x, d));
    }
  }

  lemma {:induction false} NodeExtends(n: Node, base: int, depth: int, inBlock: bool, listed: bool, m: Marks,
                                       x: int, d: int)
    ensures Extends(m, MarksNode(n, base, depth, inBlock, listed, m), base, base + |FlattenNode(n)|, x, d,
                    MarkedNode(n, base, depth, inBlock, listed, x, d))
    decreases n, 1
  {
    match n
    case Cond(_, t, e) => CondExtends(n, base, depth, inBlock, listed, m, x, d);
    case Case(_, b) => HeadedExtends(n, b, base, depth, inBlock, listed, m, x, d);
    case For(_, b) => HeadedExtends(n, b, base, depth, inBlock, listed, m, x, d);
    case Proc(_, b) => HeadedExtends(n, b, base, depth, inBlock, listed, m, x, d);
    case CaseItem(b) => BareExtends(n, b, base, depth, inBlock, listed, m, x, d);
    case Block(b) =>
      if listed {
        BareExtends(n, b, base, depth, inBlock, listed, m, x, d);
      } else {
        BlockExtends(n, b, base, depth, inBlock, m, x, d);
      }
    case Timing(_, b) => BareExtends(n, b, base, depth, inBlock, listed, m, x, d);
    case Simple(_) =>
  }

  /** A node that marks and opens nothing: no more than its body, and the slot that an empty one has. */
  lemma {:induction false} BareExtends(n: Node, b: Body, base: int, depth: int, inBlock: bool, listed: bool, m: Marks,
                                       x: int, d: int)
    requires n == CaseItem(b) || (n == Block(b) && listed) || (n.Timing? && n.body == b)
    ensures Extends(m, MarksNode(n, base, depth, inBlock, listed, m), base, base + |FlattenNode(n)|, x, d,
                    MarkedNode(n, base, depth, inBlock, listed, x, d))
    decreases n, 0
  {
    BodyExtends(b, base, depth, inBlock, m, x, d);
    ExtendsWider(m, MarksOf(b, base, depth, inBlock, m), base, base + |Flatten(b)|, base + |FlattenNode(n)|, x, d,
                 MarkedIn(b, base, depth, inBlock, x, d));
  }

  lemma {:induction false} BlockExtends(n: Node, b: Body, base: int, depth: int, inBlock: bool, m: Marks,
                                        x: int, d: int)
    requires n == Block(b)
    ensures Extends(m, MarksNode(n, base, depth, inBlock, false, m), base, base + |FlattenNode(n)|, x, d,
                    MarkedNode(n, base, depth, inBlock, false, x, d))
    decreases n, 0
  {
    BodyExtends(b, base, depth + 1, true, m, x, d);
    ClosedExtends(m, MarksOf(b, base, depth + 1, true, m), base, base + |Flatten(b)|, depth + 1, x, d,
                  MarkedIn(b, base, depth + 1, true, x, d));
  }

  lemma {:induction false} HeadedExtends(n: Node, b: Body, base: int, depth: int, inBlock: bool, listed: bool, m: Marks,
                                         x: int, d: int)
    requires (n.Case? || n.For? || n.Proc?) && b == HeadedBody(n)
    ensures Extends(m, MarksNode(n, base, depth, inBlock, listed, m), base, base + |FlattenNode(n)|, x, d,
                    MarkedNode(n, base, depth, inBlock, listed, x, d))
    decreases n, 0
  {
    var own := Own(n, base, depth, inBlock, listed, m);
    OwnExtends(n, base, depth, inBlock, listed, m, x, d);
    BodyExtends(b, base + 1, depth, inBlock, own, x, d);
    ExtendsOn(m, own, MarksOf(b, base + 1, depth, inBlock, own), base, base + 1, base + |FlattenNode(n)|, x, d,
              MarkedItself(n, base, depth, inBlock, listed, x, d), MarkedIn(b, base + 1, depth, inBlock, x, d));
  }

  lemma {:induction false} CondExtends(n: Node, base: int, depth: int, inBlock: bool, listed: bool, m: Marks,
                                       x: int, d: int)
    requires n.Cond?
    ensures Extends(m, MarksNode(n, base, depth, inBlock, listed, m), base, base + |FlattenNode(n)|, x, d,
                    MarkedNode(n, base, depth, inBlock, listed, x, d))
    decreases n, 0
  {
    var t, e, q, end := n.thenBody, n.elseBody, ElseStart(n, base), base + |FlattenNode(n)|;
    var own := Own(n, base, depth, inBlock, listed, m);
    var r := MarksOf(t, base + 1, depth, inBlock, own);
    var s := MarksOf(e, q, depth, inBlock, r);
    var f0, f1, f2 := MarkedItself(n, base, depth, inBlock, listed, x, d), MarkedIn(t, base + 1, depth, inBlock, x, d),
      MarkedIn(e, q, depth, inBlock, x, d);
    OwnExtends(n, base, depth, inBlock, listed, m, x, d);
    BodyExtends(t, base + 1, depth, inBlock, own, x, d);
    ExtendsWider(own, r, base + 1, base + 1 + |Flatten(t)|, q, x, d, f1);
    BodyExtends(e, q, depth, inBlock, r, x, d);
    ExtendsWider(r, s, q, q + |Flatten(e)|, end, x, d, f2);
    ExtendsOn(m, own, r, base, base + 1, q, x, d, f0, f1);
    ExtendsOn(m, r, s, base, q, end, x, d, f0 || f1, f2);
  }

  /** The marks of a whole walk. */
  function WalkMarks(b: Body): Marks {
    MarksOf(b, 0, 0, false, Marks(map[1 := {}], []))
  }

  /**
    A tuple joins exactly the branching statements that a block lists at the tuple's depth and that were
    laid out before the tuple's block ended: those of that block, and those of every earlier block as deep.
   */
  lemma TupleMembersExactly(b: Body, i: nat, x: int)
    requires i < |WalkMarks(b).tuples|
    ensures var t := WalkMarks(b).tuples[i];
      x in t.members <==> MarkedIn(b, 0, 0, false, x, t.depth) && x < t.end
  {
    var m: Marks := Marks(map[1 := {}], []);
    var t := WalkMarks(b).tuples[i];
    BodyExtends(b, 0, 0, false, m, x, t.depth);
    assert Joins(t, m, 0, |Flatten(b)|, x, t.depth, MarkedIn(b, 0, 0, false, x, t.depth));
  }

  ghost predicate OwnPointsOnly(t: Tuple) {
    forall x | x in t.members :: x >= t.start
  }

  /** No block before the tuple's own lists a branching statement as deep. */
  ghost predicate NoneBefore(b: Body, t: Tuple) {
    forall x | MarkedIn(b, 0, 0, false, x, t.depth) :: x >= t.start
  }

  /** A tuple holds points of its own block only exactly if no earlier block as deep lists a branching statement. */
  lemma TupleIsOwnExactly(b: Body, i: nat)
    requires i < |WalkMarks(b).tuples|
    ensures OwnPointsOnly(WalkMarks(b).tuples[i]) <==> NoneBefore(b, WalkMarks(b).tuples[i])
  {
    var t := WalkMarks(b).tuples[i];
    TupleSpan(b, i);
    if OwnPointsOnly(t) {
      forall x | MarkedIn(b, 0, 0, false, x, t.depth)
        ensures x >= t.start
      {
        TupleMembersExactly(b, i, x);
      }
    }
    if NoneBefore(b, t) {
      forall x | x in t.members
        ensures x >= t.start
      {
        TupleMembersExactly(b, i, x);
      }
    }
  }

  lemma TupleSpan(b: Body, i: nat)
    requires i < |WalkMarks(b).tuples|
    ensures 0 <= WalkMarks(b).tuples[i].start <= WalkMarks(b).tuples[i].end
  {
    var m: Marks := Marks(map[1 := {}], []);
    var t := WalkMarks(b).tuples[i];
    BodyExtends(b, 0, 0, false, m, 0, t.depth);
    assert Joins(t, m, 0, |Flatten(b)|, 0, t.depth, MarkedIn(b, 0, 0, false, 0, t.depth));
  }

  // ---------- a tuple across two branches ----------

  const LOOPS_A: Body := Many([For(1, NoBody), For(2, NoBody)])
  const LOOPS_B: Body := Many([For(3, NoBody), For(4, NoBody)])
  const BLOCK_A: Body := One(Block(LOOPS_A))
  const BLOCK_B: Body := One(Block(LOOPS_B))

  /** `begin if (a) begin for ..; for ..; end else begin for ..; for ..; end end`. */
  const TWO_BLOCKS: Body := One(Block(Many([Cond(0, BLOCK_A, BLOCK_B)])))

  lemma LoopMarks(a: int, base: int, m: Marks)
    ensures FlattenNode(For(a, NoBody)) == [Some(For(a, NoBody))]
    ensures MarksNode(For(a, NoBody), base, 2, true, true, m) == m.(points := Marked(m.points, 2, base))
  {
  }

  lemma TwoLoopMarks(a: int, b: int, base: int, m: Marks, items: seq<Node>)
    requires items == [For(a, NoBody), For(b, NoBody)]
    ensures |FlattenAll(items)| == 2
    ensures MarksAll(items, base, 2, true, m) == m.(points := Marked(Marked(m.points, 2, base), 2, base + 1))
  {
    var rest := items[1..];
    var m1 := MarksNode(items[0], base, 2, true, true, m);
    LoopMarks(a, base, m);
    LoopMarks(b, base + 1, m1);
    assert rest == [For(b, NoBody)] && rest[1..] == [];
    assert FlattenAll(rest) == FlattenNode(rest[0]) + FlattenAll(rest[1..]);
    assert MarksAll(rest, base + 1, 2, true, m1) == MarksNode(rest[0], base + 1, 2, true, true, m1);
  }

  /** A block of two loops adds them to what its depth already has, and joins all of it. */
  lemma BlockMarks(a: int, b: int, base: int, m: Marks, body: Body, all: set<int>)
    requires body == One(Block(Many([For(a, NoBody), For(b, NoBody)]))) && all == PointsFor(m, 2) + {base, base + 1}
    ensures |Flatten(body)| == 2
    ensures MarksOf(body, base, 1, true, m) == Marks(m.points[2 := all], m.tuples + [Tuple(2, base, base + 2, all)])
  {
    var items := [For(a, NoBody), For(b, NoBody)];
    var inner := Many(items);
    TwoLoopMarks(a, b, base, m, items);
    MarkedTwice(m.points, base, all, PointsFor(m, 2));
    assert MarksOf(inner, base, 2, true, m) == MarksAll(items, base, 2, true, m);
    assert |Flatten(inner)| == |FlattenAll(items)|;
    assert MarksOf(body, base, 1, true, m) == MarksNode(Block(inner), base, 1, true, false, m);
    assert |{base, base + 1}| == 2 && {base, base + 1} <= all;
    AtLeastTwo(all, {base, base + 1});
  }

  lemma MarkedTwice(points: map<int, set<int>>, x: int, all: set<int>, old2: set<int>)
    requires old2 == (if 2 in points then points[2] else {}) && all == old2 + {x, x + 1}
    ensures Marked(Marked(points, 2, x), 2, x + 1) == points[2 := all]
  {
    assert old2 + {x} + {x + 1} == all;
  }

  lemma AtLeastTwo(all: set<int>, two: set<int>)
    requires two <= all && |two| == 2
    ensures |all| > 1
  {
    assert all == two + (all - two);
  }

  /** The tuple of the else-block names the loops of the then-block, 1 and 2, as well. */
  lemma BranchesShareTuple()
    ensures WalkMarks(TWO_BLOCKS).tuples == [Tuple(2, 1, 3, {1, 2}), Tuple(2, 3, 5, {1, 2, 3, 4})]
  {
    var m0: Marks := Marks(map[1 := {}], []);
    var m1 := m0.(points := Marked(m0.points, 1, 0));
    var m2 := MarksOf(BLOCK_A, 1, 1, true, m1);
    BlockMarks(1, 2, 1, m1, BLOCK_A, {1, 2});
    BlockMarks(3, 4, 3, m2, BLOCK_B, {1, 2, 3, 4});
    OuterMarks(m0, m1, MarksOf(BLOCK_B, 3, 1, true, m2));
  }

  /** The outer block lists one conditional, so it makes no tuple of its own. */
  lemma OuterMarks(m0: Marks, m1: Marks, m3: Marks)
    requires m0 == Marks(map[1 := {}], []) && m1 == m0.(points := Marked(m0.points, 1, 0)) && |Flatten(BLOCK_A)| == 2
    requires m3 == MarksOf(BLOCK_B, 3, 1, true, MarksOf(BLOCK_A, 1, 1, true, m1)) && PointsFor(m3, 1) == {0}
    ensures WalkMarks(TWO_BLOCKS).tuples == m3.tuples
  {
    var c := Cond(0, BLOCK_A, BLOCK_B);
    var items := [c];
    assert items[1..] == [] && ElseStart(c, 0) == 3;
    assert MarksNode(c, 0, 1, true, true, m0) == m3;
    assert MarksAll(items, 0, 1, true, m0) == m3;
    assert MarksOf(TWO_BLOCKS, 0, 0, false, m0) == MarksNode(Block(Many(items)), 0, 0, false, false, m0);
    assert MarksOf(Many(items), 0, 1, true, m0) == m3;
  }
}
