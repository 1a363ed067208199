/**
  Which tuples of independent branch points there are: one for every block on its own at whose end two
  branching statements of its depth, or more, have been laid out.
 */
module CfgTuples {
  import opened Wrappers
  import opened CfgLayout
  import opened CfgMarks

  // ---------- blocks on their own ----------

  /** A block on its own, d deep, takes the slots from lo to hi; base and depth place the body. */
  predicate SpanIn(b: Body, base: int, depth: int, d: int, lo: int, hi: int)
    decreases b, 0
  {
    match b
    case NoBody => false
    case Many(items) => SpanAmong(items, base, depth, d, lo, hi)
    case One(n) => SpanNode(n, base, depth, false, d, lo, hi)
  }

  predicate SpanAmong(items: seq<Node>, base: int, depth: int, d: int, lo: int, hi: int)
    decreases items, 0
  {
    items != [] &&
    (|| SpanNode(items[0], base, depth, true, d, lo, hi)
     || SpanAmong(items[1..], base + |FlattenNode(items[0])|, depth, d, lo, hi))
  }

  predicate SpanNode(n: Node, base: int, depth: int, listed: bool, d: int, lo: int, hi: int)
    decreases n, 0
  {
    match n
    case Simple(_) => false
    case Cond(_, t, e) => SpanIn(t, base + 1, depth, d, lo, hi) || SpanIn(e, ElseStart(n, base), depth, d, lo, hi)
    case Case(_, b) => SpanIn(b, base + 1, depth, d, lo, hi)
    case For(_, b) => SpanIn(b, base + 1, depth, d, lo, hi)
    case Proc(_, b) => SpanIn(b, base + 1, depth, d, lo, hi)
    case CaseItem(b) => SpanIn(b, base, depth, d, lo, hi)
    case Timing(_, b) => SpanIn(b, base, depth, d, lo, hi)
    case Block(b) =>
      if listed then SpanIn(b, base, depth, d, lo, hi)
      else SpanIn(b, base, depth + 1, d, lo, hi) || (d == depth + 1 && lo == base && hi == base + |Flatten(b)|)
  }

  // ---------- tuples with that key ----------

  ghost predicate HasTuple(tuples: seq<Tuple>, k: nat, d: int, lo: int, hi: int) {
    exists i :: k <= i < |tuples| && tuples[i].depth == d && tuples[i].start == lo && tuples[i].end == hi
  }

  /** The points of a depth that lie before an index. */
  function Early(m: Marks, d: int, hi: int): set<int> {
    set x | x in PointsFor(m, d) && x < hi
  }

  ghost predicate Below(m: Marks, d: int, base: int) {
    forall x | x in PointsFor(m, d) :: x < base
  }

  /** From m to r, the slots from lo to hi add points among themselves. */
  ghost predicate GrowsWithin(m: Marks, r: Marks, lo: int, hi: int, d: int) {
    && PointsFor(m, d) <= PointsFor(r, d)
    && (forall x | x in PointsFor(r, d) && x !in PointsFor(m, d) :: lo <= x < hi)
    && m.tuples <= r.tuples
  }

  /** Tuples with the key are made from m to r exactly if `span` says there is a block, with two early points. */
  ghost predicate Makes(m: Marks, r: Marks, lo: int, hi: int, d: int, s: int, e: int, span: bool) {
    && lo <= hi && GrowsWithin(m, r, lo, hi, d) && (span ==> lo <= s <= e <= hi)
    && (HasTuple(r.tuples, |m.tuples|, d, s, e) <==> span && |Early(r, d, e)| > 1)
  }

  lemma HasTupleConcat(a: seq<Tuple>, b: seq<Tuple>, k: nat, d: int, lo: int, hi: int)
    requires a <= b && k <= |a|
    ensures HasTuple(b, k, d, lo, hi) <==> HasTuple(a, k, d, lo, hi) || HasTuple(b, |a|, d, lo, hi)
  {
    if HasTuple(a, k, d, lo, hi) {
      var i :| k <= i < |a| && a[i].depth == d && a[i].start == lo && a[i].end == hi;
      assert b[i] == a[i];
    }
    if HasTuple(b, k, d, lo, hi) {
      var i :| k <= i < |b| && b[i].depth == d && b[i].start == lo && b[i].end == hi;
      assert i < |a| ==> a[i] == b[i];
    }
  }

  lemma GrowsOn(m: Marks, r: Marks, t: Marks, lo: int, mid: int, hi: int, d: int)
    requires lo <= mid <= hi && GrowsWithin(m, r, lo, mid, d) && GrowsWithin(r, t, mid, hi, d)
    ensures GrowsWithin(m, t, lo, hi, d)
    ensures forall e | e <= mid :: Early(t, d, e) == Early(r, d, e)
  {
  }

  lemma MakesOn(m: Marks, r: Marks, t: Marks, lo: int, mid: int, hi: int, d: int, s: int, e: int, f: bool, g: bool)
    requires Makes(m, r, lo, mid, d, s, e, f) && Makes(r, t, mid, hi, d, s, e, g)
    ensures Makes(m, t, lo, hi, d, s, e, f || g)
  {
    HasTupleConcat(r.tuples, t.tuples, |m.tuples|, d, s, e);
    GrowsOn(m, r, t, lo, mid, hi, d);
  }

  lemma MakesWider(m: Marks, r: Marks, lo: int, hi: int, hi': int, d: int, s: int, e: int, f: bool)
    requires Makes(m, r, lo, hi, d, s, e, f) && hi <= hi'
    ensures Makes(m, r, lo, hi', d, s, e, f)
  {
  }

  lemma MakesNothing(m: Marks, lo: int, d: int, s: int, e: int)
    ensures Makes(m, m, lo, lo, d, s, e, false)
  {
  }

  lemma BelowOn(m: Marks, r: Marks, lo: int, hi: int, d: int)
    requires Below(m, d, lo) && GrowsWithin(m, r, lo, hi, d) && lo <= hi
    ensures Below(r, d, hi)
  {
  }

  /** Leaving a block of its own. */
  lemma ClosedMakes(m: Marks, r: Marks, lo: int, hi: int, depth: int, d: int, s: int, e: int, f: bool)
    requires Makes(m, r, lo, hi, d, s, e, f) && Below(r, d, hi)
    ensures Makes(m, Closed(r, depth, lo, hi), lo, hi, d, s, e, f || (d == depth && s == lo && e == hi))
  {
    var c := Closed(r, depth, lo, hi);
    HasTupleConcat(r.tuples, c.tuples, |m.tuples|, d, s, e);
    assert PointsFor(c, d) == PointsFor(r, d) && Early(c, d, e) == Early(r, d, e);
    assert e >= hi ==> Early(r, d, e) == PointsFor(r, d);
    if |c.tuples| > |r.tuples| {
      assert c.tuples[|r.tuples|] == Tuple(depth, lo, hi, r.points[depth]);
    }
  }

  // ---------- every walk ----------

  lemma OwnMakes(n: Node, base: int, depth: int, inBlock: bool, listed: bool, m: Marks, d: int, s: int, e: int)
    ensures Makes(m, Own(n, base, depth, inBlock, listed, m), base, base + 1, d, s, e, false)
  {
  }

  lemma {:induction false} BodyMakes(b: Body, base: int, depth: int, inBlock: bool, m: Marks, d: int, s: int, e: int)
    requires Below(m, d, base)
    ensures Makes(m, MarksOf(b, base, depth, inBlock, m), base, base + |Flatten(b)|, d, s, e,
                  SpanIn(b, base, depth, d, s, e))
    decreases b, 0
  {
    match b
    case NoBody => MakesNothing(m, base, d, s, e);
    case Many(items) => AllMake(items, base, depth, inBlock, m, d, s, e);
    case One(n) => NodeMakes(n, base, depth, inBlock, false, m, d, s, e);
  }

  lemma {:induction false} AllMake(items: seq<Node>, base: int, depth: int, inBlock: bool, m: Marks,
                                   d: int, s: int, e: int)
    requires Below(m, d, base)
    ensures Makes(m, MarksAll(items, base, depth, inBlock, m), base, base + |FlattenAll(items)|, d, s, e,
                  SpanAmong(items, base, depth, d, s, e))
    decreases items, 0
  {
    if items == [] {
      MakesNothing(m, base, d, s, e);
    } else {
      var mid := base + |FlattenNode(items[0])|;
      var r := MarksNode(items[0], base, depth, inBlock, true, m);
      NodeMakes(items[0], base, depth, inBlock, true, m, d, s, e);
      BelowOn(m, r, base, mid, d);
      AllMake(items[1..], mid, depth, inBlock, r, d, s, e);
      MakesOn(m, r, MarksAll(items[1..], mid, depth, inBlock, r), base, mid, base + |FlattenAll(items)|, d, s, e,
              SpanNode(items[0], base, depth, true, d, s, e), SpanAmong(items[1..], mid, depth, d, s, e));
    }
  }

  lemma {:induction false} NodeMakes(n: Node, base: int, depth: int, inBlock: bool, listed: bool, m: Marks,
                                     d: int, s: int, e: int)
    requires Below(m, d, base)
    ensures Makes(m, MarksNode(n, base, depth, inBlock, listed, m), base, base + |FlattenNode(n)|, d, s, e,
                  SpanNode(n, base, depth, listed, d, s, e))
    decreases n, 1
  {
    match n
    case Cond(_, t, el) => CondMakes(n, base, depth, inBlock, listed, m, d, s, e);
    case Case(_, b) => HeadedMakes(n, b, base, depth, inBlock, listed, m, d, s, e);
    case For(_, b) => HeadedMakes(n, b, base, depth, inBlock, listed, m, d, s, e);
    case Proc(_, b) => HeadedMakes(n, b, base, depth, inBlock, listed, m, d, s, e);
    case CaseItem(b) => BareMakes(n, b, base, depth, inBlock, listed, m, d, s, e);
    case Timing(_, b) => BareMakes(n, b, base, depth, inBlock, listed, m, d, s, e);
    case Block(b) =>
      if listed {
        BareMakes(n, b, base, depth, inBlock, listed, m, d, s, e);
      } else {
        BlockMakes(n, b, base, depth, inBlock, m, d, s, e);
      }
    case Simple(_) =>
      MakesNothing(m, base, d, s, e);
      MakesWider(m, m, base, base, base + 1, d, s, e, false);
  }

  lemma {:induction false} BareMakes(n: Node, b: Body, base: int, depth: int, inBlock: bool, listed: bool, m: Marks,
                                     d: int, s: int, e: int)
    requires Below(m, d, base) && (n == CaseItem(b) || (n == Block(b) && listed) || (n.Timing? && n.body == b))
    ensures Makes(m, MarksNode(n, base, depth, inBlock, listed, m), base, base + |FlattenNode(n)|, d, s, e,
                  SpanNode(n, base, depth, listed, d, s, e))
    decreases n, 0
  {
    BodyMakes(b, base, depth, inBlock, m, d, s, e);
    MakesWider(m, MarksOf(b, base, depth, inBlock, m), base, base + |Flatten(b)|, base + |FlattenNode(n)|, d, s, e,
               SpanIn(b, base, depth, d, s, e));
  }

  lemma {:induction false} BlockMakes(n: Node, b: Body, base: int, depth: int, inBlock: bool, m: Marks,
                                      d: int, s: int, e: int)
    requires Below(m, d, base) && n == Block(b)
    ensures Makes(m, MarksNode(n, base, depth, inBlock, false, m), base, base + |FlattenNode(n)|, d, s, e,
                  SpanNode(n, base, depth, false, d, s, e))
    decreases n, 0
  {
    var r, hi := MarksOf(b, base, depth + 1, true, m), base + |Flatten(b)|;
    var f := SpanIn(b, base, depth + 1, d, s, e);
    BodyMakes(b, base, depth + 1, true, m, d, s, e);
    InnerBlock(m, r, base, hi, depth + 1, d, s, e, f);
    BlockUnfolds(n, b, base, depth, inBlock, m, d, s, e);
  }

  lemma InnerBlock(m: Marks, r: Marks, lo: int, hi: int, depth: int, d: int, s: int, e: int, f: bool)
    requires Below(m, d, lo) && Makes(m, r, lo, hi, d, s, e, f)
    ensures Makes(m, Closed(r, depth, lo, hi), lo, hi, d, s, e, f || (d == depth && s == lo && e == hi))
  {
    BelowOn(m, r, lo, hi, d);
    ClosedMakes(m, r, lo, hi, depth, d, s, e, f);
  }

  lemma BlockUnfolds(n: Node, b: Body, base: int, depth: int, inBlock: bool, m: Marks, d: int, s: int, e: int)
    requires n == Block(b)
    ensures |FlattenNode(n)| == |Flatten(b)|
    ensures MarksNode(n, base, depth, inBlock, false, m)
         == Closed(MarksOf(b, base, depth + 1, true, m), depth + 1, base, base + |Flatten(b)|)
    ensures SpanNode(n, base, depth, false, d, s, e) <==>
              SpanIn(b, base, depth + 1, d, s, e) || (d == depth + 1 && s == base && e == base + |Flatten(b)|)
  {
  }

  lemma {:induction false} HeadedMakes(n: Node, b: Body, base: int, depth: int, inBlock: bool, listed: bool, m: Marks,
                                       d: int, s: int, e: int)
    requires Below(m, d, base) && (n.Case? || n.For? || n.Proc?) && b == HeadedBody(n)
    ensures Makes(m, MarksNode(n, base, depth, inBlock, listed, m), base, base + |FlattenNode(n)|, d, s, e,
                  SpanNode(n, base, depth, listed, d, s, e))
    decreases n, 0
  {
    var own := Own(n, base, depth, inBlock, listed, m);
    OwnMakes(n, base, depth, inBlock, listed, m, d, s, e);
    BelowOn(m, own, base, base + 1, d);
    BodyMakes(b, base + 1, depth, inBlock, own, d, s, e);
    MakesOn(m, own, MarksOf(b, base + 1, depth, inBlock, own), base, base + 1, base + |FlattenNode(n)|, d, s, e,
            false, SpanIn(b, base + 1, depth, d, s, e));
  }

  lemma {:induction false} CondMakes(n: Node, base: int, depth: int, inBlock: bool, listed: bool, m: Marks,
                                     d: int, s: int, e: int)
    requires Below(m, d, base) && n.Cond?
    ensures Makes(m, MarksNode(n, base, depth, inBlock, listed, m), base, base + |FlattenNode(n)|, d, s, e,
                  SpanNode(n, base, depth, listed, d, s, e))
    decreases n, 0
  {
    var t, el, q, end := n.thenBody, n.elseBody, ElseStart(n, base), base + |FlattenNode(n)|;
    var own := Own(n, base, depth, inBlock, listed, m);
    var r := MarksOf(t, base + 1, depth, inBlock, own);
    var f, g := SpanIn(t, base + 1, depth, d, s, e), SpanIn(el, q, depth, d, s, e);
    OwnMakes(n, base, depth, inBlock, listed, m, d, s, e);
    BelowOn(m, own, base, base + 1, d);
    BodyMakes(t, base + 1, depth, inBlock, own, d, s, e);
    MakesWider(own, r, base + 1, base + 1 + |Flatten(t)|, q, d, s, e, f);
    BelowOn(own, r, base + 1, q, d);
    BodyMakes(el, q, depth, inBlock, r, d, s, e);
    MakesWider(r, MarksOf(el, q, depth, inBlock, r), q, q + |Flatten(el)|, end, d, s, e, g);
    MakesOn(m, own, r, base, base + 1, q, d, s, e, false, f);
    MakesOn(m, r, MarksOf(el, q, depth, inBlock, r), base, q, end, d, s, e, f, g);
  }

  // ---------- the tuples of a whole walk ----------

  /** Two branching statements that blocks list at this depth lie before the index. */
  ghost predicate TwoBefore(b: Body, d: int, hi: int) {
    exists x, y :: x < y < hi && MarkedIn(b, 0, 0, false, x, d) && MarkedIn(b, 0, 0, false, y, d)
  }

  lemma Member<T>(s: set<T>) returns (x: T)
    requires |s| > 0
    ensures x in s
  {
    x :| x in s;
  }

  lemma TwoMembers(s: set<int>)
    ensures |s| > 1 <==> exists x, y :: x < y && x in s && y in s
  {
    if |s| > 1 {
      var x := Member(s);
      var y := Member(s - {x});
      assert x < y || y < x;
    }
    if x, y :| x < y && x in s && y in s {
      assert s == {x, y} + (s - {x, y}) && |{x, y}| == 2;
    }
  }

  lemma EarlyMarked(b: Body, d: int, hi: int, x: int)
    ensures x in Early(WalkMarks(b), d, hi) <==> MarkedIn(b, 0, 0, false, x, d) && x < hi
  {
    BodyExtends(b, 0, 0, false, Marks(map[1 := {}], []), x, d);
  }

  /**
    A tuple with this depth, start and end is made exactly if there is such a block on its own and two
    branching statements that blocks list at its depth lie before its end.
   */
  lemma TupleMadeExactly(b: Body, d: int, lo: int, hi: int)
    ensures HasTuple(WalkMarks(b).tuples, 0, d, lo, hi) <==> SpanIn(b, 0, 0, d, lo, hi) && TwoBefore(b, d, hi)
  {
    var m: Marks := Marks(map[1 := {}], []);
    BodyMakes(b, 0, 0, false, m, d, lo, hi);
    TwoMembers(Early(WalkMarks(b), d, hi));
    TwoEarlyExactly(b, d, hi);
  }

  lemma TwoEarlyExactly(b: Body, d: int, hi: int)
    ensures (exists x, y :: x < y && x in Early(WalkMarks(b), d, hi) && y in Early(WalkMarks(b), d, hi))
       <==> TwoBefore(b, d, hi)
  {
    forall x
      ensures x in Early(WalkMarks(b), d, hi) <==> MarkedIn(b, 0, 0, false, x, d) && x < hi
    {
      EarlyMarked(b, d, hi, x);
    }
    if TwoBefore(b, d, hi) {
      var x, y :| x < y < hi && MarkedIn(b, 0, 0, false, x, d) && MarkedIn(b, 0, 0, false, y, d);
      assert x in Early(WalkMarks(b), d, hi) && y in Early(WalkMarks(b), d, hi);
    }
  }
}
