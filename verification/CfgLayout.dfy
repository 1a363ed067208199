/**
  Statement trees of `engine/cfg.py` and the layout the walk is meant to give them: the preorder of
  the statements with a dummy for every empty branch, and, read off that list alone, the partition
  points and the two edges of every conditional.
 */
module CfgLayout {
  import opened Wrappers

  /** What a statement attribute may hold: nothing, an iterable of nodes, or one node. */
  datatype Body = NoBody | Many(items: seq<Node>) | One(node: Node)

  datatype Node =
    | Simple(id: int)
    | Cond(id: int, thenBody: Body, elseBody: Body)
    | Case(id: int, items: Body)
    | CaseItem(body: Body)
    | For(id: int, body: Body)
    | Block(items: Body)
    | Proc(id: int, body: Body)
    | Timing(id: int, body: Body)

  /** A slot of all_nodes: a statement, or the dummy of an empty branch. */
  type Slot = Option<Node>

  predicate IsBranch(n: Slot) {
    n.Some? && (n.value.Cond? || n.value.Case? || n.value.For?)
  }

  predicate IsCond(n: Slot) {
    n.Some? && n.value.Cond?
  }

  function OrDummy(nodes: seq<Slot>): (r: seq<Slot>)
    ensures r != []
  {
    if nodes == [] then [None] else nodes
  }

  function Flatten(b: Body): seq<Slot>
    decreases b, 0
  {
    match b
    case NoBody => []
    case Many(items) => FlattenAll(items)
    case One(n) => FlattenNode(n)
  }

  function FlattenAll(items: seq<Node>): seq<Slot>
    decreases items, 0
  {
    if items == [] then [] else FlattenNode(items[0]) + FlattenAll(items[1..])
  }

  function FlattenNode(n: Node): seq<Slot>
    decreases n, 0
  {
    match n
    case Simple(_) => [Some(n)]
    case Cond(_, t, e) => [Some(n)] + OrDummy(Flatten(t)) + OrDummy(Flatten(e))
    case Case(_, items) => [Some(n)] + Flatten(items)
    case CaseItem(body) => Flatten(body)
    case For(_, body) => [Some(n)] + Flatten(body)
    case Block(items) => Flatten(items)
    case Proc(_, body) => [Some(n)] + Flatten(body)
    case Timing(_, body) => if body.NoBody? then [Some(n)] else Flatten(body)
  }

  /** The number of slots of a conditional's then-branch. */
  function ThenLength(c: Node): (k: nat)
    requires c.Cond?
    ensures k > 0
  {
    |OrDummy(Flatten(c.thenBody))|
  }

  /** The number of slots of its else-branch. */
  function ElseLength(c: Node): (k: nat)
    requires c.Cond?
    ensures k > 0
  {
    |OrDummy(Flatten(c.elseBody))|
  }

  /** The index of the else-branch of a conditional at p. */
  function ElseStart(c: Node, p: int): int
    requires c.Cond?
  {
    p + 1 + ThenLength(c)
  }

  /** The partition points that the node at index p is responsible for. */
  function PointsAt(n: Slot, p: int): set<int> {
    if IsCond(n) then {p, p + 1, ElseStart(n.value, p)}
    else if IsBranch(n) then {p}
    else {}
  }

  function PointsOf(nodes: seq<Slot>, base: int): set<int> {
    if nodes == [] then {} else PointsAt(nodes[0], base) + PointsOf(nodes[1..], base + 1)
  }

  /** A conditional at p owns exactly the edges (p, p + 1) and (p, q); nothing else owns any. */
  function EdgesAt(n: Slot, p: int): multiset<seq<int>> {
    if IsCond(n) then multiset{[p, p + 1], [p, ElseStart(n.value, p)]} else multiset{}
  }

  /** The sum of f over the slots, counted from base. */
  function Sum<T>(f: (Slot, int) -> multiset<T>, nodes: seq<Slot>, base: int): multiset<T> {
    if nodes == [] then multiset{} else f(nodes[0], base) + Sum(f, nodes[1..], base + 1)
  }

  function EdgesOf(nodes: seq<Slot>, base: int): multiset<seq<int>> {
    Sum(EdgesAt, nodes, base)
  }

  lemma {:induction false} PointsConcat(a: seq<Slot>, b: seq<Slot>, base: int)
    ensures PointsOf(a + b, base) == PointsOf(a, base) + PointsOf(b, base + |a|)
  {
    if a == [] {
      assert a + b == b;
    } else {
      assert (a + b)[1..] == a[1..] + b && (a + b)[0] == a[0];
      PointsConcat(a[1..], b, base + 1);
      assert PointsOf(a + b, base) == PointsAt(a[0], base) + PointsOf(a[1..] + b, base + 1);
    }
  }

  lemma MultisetAssociative<T>(a: multiset<T>, b: multiset<T>, c: multiset<T>)
    ensures a + b + c == a + (b + c)
  {
  }

  lemma {:induction false} SumConcat<T>(f: (Slot, int) -> multiset<T>, a: seq<Slot>, b: seq<Slot>, base: int)
    ensures Sum(f, a + b, base) == Sum(f, a, base) + Sum(f, b, base + |a|)
  {
    if a == [] {
      assert a + b == b;
    } else {
      assert (a + b)[1..] == a[1..] + b && (a + b)[0] == a[0];
      SumConcat(f, a[1..], b, base + 1);
      MultisetAssociative(f(a[0], base), Sum(f, a[1..], base + 1), Sum(f, b, base + |a|));
    }
  }

  lemma EdgesConcat(a: seq<Slot>, b: seq<Slot>, base: int)
    ensures EdgesOf(a + b, base) == EdgesOf(a, base) + EdgesOf(b, base + |a|)
  {
    SumConcat(EdgesAt, a, b, base);
  }

  lemma {:induction false} PointsMember(nodes: seq<Slot>, base: int, x: int)
    ensures x in PointsOf(nodes, base) <==> exists p :: 0 <= p < |nodes| && x in PointsAt(nodes[p], base + p)
  {
    if nodes != [] {
      var rest := nodes[1..];
      PointsMember(rest, base + 1, x);
      if x in PointsAt(nodes[0], base) {
        assert x in PointsAt(nodes[0], base + 0);
      }
      if x in PointsOf(rest, base + 1) {
        var p :| 0 <= p < |rest| && x in PointsAt(rest[p], base + 1 + p);
        assert x in PointsAt(nodes[p + 1], base + (p + 1));
      }
      if p :| 0 < p < |nodes| && x in PointsAt(nodes[p], base + p) {
        assert x in PointsAt(rest[p - 1], base + 1 + (p - 1));
      }
    }
  }

  lemma {:induction false} SumCount(f: (Slot, int) -> multiset<seq<int>>, nodes: seq<Slot>, base: int, e: seq<int>)
    requires forall n, p :: f(n, p)[e] > 0 ==> |e| == 2 && e[0] == p
    ensures Sum(f, nodes, base)[e] ==
              if |e| == 2 && base <= e[0] < base + |nodes| then f(nodes[e[0] - base], e[0])[e] else 0
  {
    if nodes != [] {
      SumCount(f, nodes[1..], base + 1, e);
    }
  }

  /** The edges that leave index p are exactly those of the slot at p, each as often as it has it. */
  lemma EdgesCount(nodes: seq<Slot>, base: int, e: seq<int>)
    ensures EdgesOf(nodes, base)[e] ==
              if |e| == 2 && base <= e[0] < base + |nodes| then EdgesAt(nodes[e[0] - base], e[0])[e] else 0
  {
    forall n, p
      ensures EdgesAt(n, p)[e] > 0 ==> |e| == 2 && e[0] == p
    {
    }
    SumCount(EdgesAt, nodes, base, e);
  }

  lemma {:induction false} FlattenAppend(items: seq<Node>, n: Node)
    ensures FlattenAll(items + [n]) == FlattenAll(items) + FlattenNode(n)
    decreases |items|
  {
    if items == [] {
      assert ([n] + [])[1..] == [] && items + [n] == [n];
      assert [n][1..] == [];
    } else {
      assert (items + [n])[1..] == items[1..] + [n];
      FlattenAppend(items[1..], n);
    }
  }

  // ---------- the layout without its dummies is the preorder ----------

  function Statements(nodes: seq<Slot>): seq<Node> {
    if nodes == [] then [] else StatementIn(nodes[0]) + Statements(nodes[1..])
  }

  function StatementIn(n: Slot): seq<Node> {
    if n.Some? then [n.value] else []
  }

  lemma Associative<T>(a: seq<T>, b: seq<T>, c: seq<T>)
    ensures a + b + c == a + (b + c)
  {
  }

  /** The statements of a tree in preorder; containers without a slot of their own are skipped. */
  function Preorder(b: Body): seq<Node>
    decreases b, 0
  {
    match b
    case NoBody => []
    case Many(items) => PreorderAll(items)
    case One(n) => PreorderNode(n)
  }

  function PreorderAll(items: seq<Node>): seq<Node>
    decreases items, 0
  {
    if items == [] then [] else PreorderNode(items[0]) + PreorderAll(items[1..])
  }

  function PreorderNode(n: Node): seq<Node>
    decreases n, 0
  {
    match n
    case Simple(_) => [n]
    case Cond(_, t, e) => [n] + Preorder(t) + Preorder(e)
    case Case(_, b) => [n] + Preorder(b)
    case For(_, b) => [n] + Preorder(b)
    case Proc(_, b) => [n] + Preorder(b)
    case CaseItem(b) => Preorder(b)
    case Block(b) => Preorder(b)
    case Timing(_, b) => if b.NoBody? then [n] else Preorder(b)
  }

  lemma {:induction false} StatementsConcat(a: seq<Slot>, b: seq<Slot>)
    ensures Statements(a + b) == Statements(a) + Statements(b)
  {
    if a == [] {
      assert a + b == b;
    } else {
      assert (a + b)[1..] == a[1..] + b && (a + b)[0] == a[0];
      StatementsConcat(a[1..], b);
      Associative(StatementIn(a[0]), Statements(a[1..]), Statements(b));
    }
  }

  lemma StatementsOrDummy(nodes: seq<Slot>)
    ensures Statements(OrDummy(nodes)) == Statements(nodes)
  {
  }

  /** Every statement appears exactly once, in preorder; only dummies are added. */
  lemma {:induction false} LayoutIsPreorder(b: Body)
    ensures Statements(Flatten(b)) == Preorder(b)
    decreases b, 0
  {
    match b
    case NoBody =>
    case Many(items) => LayoutIsPreorderAll(items);
    case One(n) => LayoutIsPreorderNode(n);
  }

  lemma {:induction false} LayoutIsPreorderAll(items: seq<Node>)
    ensures Statements(FlattenAll(items)) == PreorderAll(items)
    decreases items, 0
  {
    if items != [] {
      LayoutIsPreorderNode(items[0]);
      LayoutIsPreorderAll(items[1..]);
      StatementsConcat(FlattenNode(items[0]), FlattenAll(items[1..]));
    }
  }

  lemma {:induction false} LayoutIsPreorderNode(n: Node)
    ensures Statements(FlattenNode(n)) == PreorderNode(n)
    decreases n, 0
  {
    match n
    case Simple(_) =>
    case Cond(_, t, e) =>
      LayoutIsPreorder(t);
      LayoutIsPreorder(e);
      StatementsOrDummy(Flatten(t));
      StatementsOrDummy(Flatten(e));
      StatementsConcat([Some(n)] + OrDummy(Flatten(t)), OrDummy(Flatten(e)));
      StatementsConcat([Some(n)], OrDummy(Flatten(t)));
    case Case(_, b) =>
      LayoutIsPreorder(b);
      StatementsConcat([Some(n)], Flatten(b));
    case For(_, b) =>
      LayoutIsPreorder(b);
      StatementsConcat([Some(n)], Flatten(b));
    case Proc(_, b) =>
      LayoutIsPreorder(b);
      StatementsConcat([Some(n)], Flatten(b));
    case CaseItem(b) => LayoutIsPreorder(b);
    case Block(b) => LayoutIsPreorder(b);
    case Timing(_, b) => LayoutIsPreorder(b);
  }

  // ---------- where a conditional's branches lie ----------

  /** The slots from p + 1 up to the else start are exactly the then-branch. */
  ghost predicate BranchesInPlace(nodes: seq<Slot>, p: nat)
    requires p < |nodes| && IsCond(nodes[p])
  {
    var c := nodes[p].value;
    var q := ElseStart(c, p);
    && q < |nodes|
    && nodes[p + 1..q] == OrDummy(Flatten(c.thenBody))
    && q + |OrDummy(Flatten(c.elseBody))| <= |nodes|
    && nodes[q..q + |OrDummy(Flatten(c.elseBody))|] == OrDummy(Flatten(c.elseBody))
  }

  ghost predicate AllBranchesInPlace(nodes: seq<Slot>) {
    forall p | 0 <= p < |nodes| && IsCond(nodes[p]) :: BranchesInPlace(nodes, p)
  }

  lemma InPlaceConcat(a: seq<Slot>, b: seq<Slot>)
    requires AllBranchesInPlace(a) && AllBranchesInPlace(b)
    ensures AllBranchesInPlace(a + b)
  {
    forall p | 0 <= p < |a + b| && IsCond((a + b)[p])
      ensures BranchesInPlace(a + b, p)
    {
      if p < |a| {
        InPlaceLeft(a, b, p);
      } else {
        InPlaceRight(a, b, p - |a|);
      }
    }
  }

  lemma InPlaceLeft(a: seq<Slot>, b: seq<Slot>, p: nat)
    requires p < |a| && IsCond(a[p]) && BranchesInPlace(a, p)
    ensures BranchesInPlace(a + b, p)
  {
    assert (a + b)[0..0 + |a|] == a;
    InPlaceShift(a, a + b, p, 0);
  }

  lemma InPlaceRight(a: seq<Slot>, b: seq<Slot>, p: nat)
    requires p < |b| && IsCond(b[p]) && BranchesInPlace(b, p)
    ensures BranchesInPlace(a + b, |a| + p)
  {
    assert (a + b)[|a|..|a| + |b|] == b;
    InPlaceShift(b, a + b, p, |a|);
  }

  lemma SubShift(part: seq<Slot>, nodes: seq<Slot>, k: nat, i: nat, j: nat)
    requires k + |part| <= |nodes| && nodes[k..k + |part|] == part
    requires i <= j <= |part|
    ensures nodes[i + k..j + k] == part[i..j]
  {
    forall x | 0 <= x < j - i
      ensures nodes[i + k..j + k][x] == part[i..j][x]
    {
      assert nodes[k..k + |part|][i + x] == nodes[k + (i + x)];
    }
  }

  lemma InPlaceShift(part: seq<Slot>, nodes: seq<Slot>, p: nat, k: nat)
    requires k + |part| <= |nodes| && nodes[k..k + |part|] == part
    requires p < |part| && IsCond(part[p]) && BranchesInPlace(part, p)
    ensures nodes[p + k] == part[p] && BranchesInPlace(nodes, p + k)
  {
    assert nodes[k..k + |part|][p] == nodes[p + k];
    var c := part[p].value;
    var q := ElseStart(c, p);
    var r := q + |OrDummy(Flatten(c.elseBody))|;
    SubShift(part, nodes, k, p + 1, q);
    SubShift(part, nodes, k, q, r);
  }

  /** In the layout of any tree every conditional has its two branches right behind it. */
  lemma {:induction false} LayoutInPlace(b: Body)
    ensures AllBranchesInPlace(Flatten(b))
    decreases b, 0
  {
    match b
    case NoBody =>
    case Many(items) => LayoutInPlaceAll(items);
    case One(n) => LayoutInPlaceNode(n);
  }

  lemma {:induction false} LayoutInPlaceAll(items: seq<Node>)
    ensures AllBranchesInPlace(FlattenAll(items))
    decreases items, 0
  {
    if items != [] {
      LayoutInPlaceNode(items[0]);
      LayoutInPlaceAll(items[1..]);
      InPlaceConcat(FlattenNode(items[0]), FlattenAll(items[1..]));
    }
  }

  lemma HeadInPlace(n: Node, rest: seq<Slot>)
    requires !n.Cond? && AllBranchesInPlace(rest)
    ensures AllBranchesInPlace([Some(n)] + rest)
  {
    InPlaceConcat([Some(n)], rest);
  }

  lemma CondHeadInPlace(n: Node, t: seq<Slot>, e: seq<Slot>)
    requires n.Cond? && t == OrDummy(Flatten(n.thenBody)) && e == OrDummy(Flatten(n.elseBody))
    ensures BranchesInPlace([Some(n)] + (t + e), 0)
  {
    var nodes := [Some(n)] + (t + e);
    assert nodes[1..1 + |t|] == t;
    assert nodes[1 + |t|..1 + |t| + |e|] == e;
  }

  lemma CondInPlace(n: Node, rest: seq<Slot>)
    requires n.Cond? && AllBranchesInPlace(rest) && BranchesInPlace([Some(n)] + rest, 0)
    ensures AllBranchesInPlace([Some(n)] + rest)
  {
    var nodes := [Some(n)] + rest;
    assert nodes[1..1 + |rest|] == rest;
    forall p | 0 < p < |nodes| && IsCond(nodes[p])
      ensures BranchesInPlace(nodes, p)
    {
      assert nodes[p] == rest[p - 1];
      assert BranchesInPlace(rest, p - 1);
      InPlaceShift(rest, nodes, p - 1, 1);
    }
  }

  lemma {:induction false} LayoutInPlaceNode(n: Node)
    ensures AllBranchesInPlace(FlattenNode(n))
    decreases n, 0
  {
    match n
    case Simple(_) =>
    case Cond(_, t, e) =>
      LayoutInPlace(t);
      LayoutInPlace(e);
      var t', e' := OrDummy(Flatten(t)), OrDummy(Flatten(e));
      InPlaceConcat(t', e');
      CondHeadInPlace(n, t', e');
      CondInPlace(n, t' + e');
      assert FlattenNode(n) == [Some(n)] + (t' + e');
    case Case(_, b) => LayoutInPlace(b); HeadInPlace(n, Flatten(b));
    case For(_, b) => LayoutInPlace(b); HeadInPlace(n, Flatten(b));
    case Proc(_, b) => LayoutInPlace(b); HeadInPlace(n, Flatten(b));
    case CaseItem(b) => LayoutInPlace(b);
    case Block(b) => LayoutInPlace(b);
    case Timing(_, b) => LayoutInPlace(b);
  }

  /** An edge between independent branch points: at least two different branching slots. */
  ghost predicate IndependentEdge(nodes: seq<Slot>, e: seq<int>) {
    && |e| >= 2
    && (forall i | 0 <= i < |e| :: 0 <= e[i] < |nodes| && IsBranch(nodes[e[i]]))
    && (forall i, j | 0 <= i < j < |e| :: e[i] != e[j])
  }

  ghost predicate BranchSlots(nodes: seq<Slot>, s: set<int>) {
    forall x | x in s :: 0 <= x < |nodes| && IsBranch(nodes[x])
  }
}
