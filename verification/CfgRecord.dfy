/**
  How the record of the walk (slots, partition points, conditional edges) grows: laying out one
  stretch of slots after another is laying out their concatenation.
 */
module CfgRecord {
  import opened Wrappers
  import opened CfgLayout

  /** What the walk has recorded: slots, partition points, and the edges owned by conditionals. */
  datatype Record = Record(nodes: seq<Slot>, points: set<int>, edges: multiset<seq<int>>)

  /** The record after laying out further slots behind it. */
  function After(r: Record, nodes: seq<Slot>): Record {
    var base := |r.nodes|;
    Record(r.nodes + nodes, r.points + PointsOf(nodes, base), r.edges + EdgesOf(nodes, base))
  }

  lemma AfterConcat(r: Record, a: seq<Slot>, b: seq<Slot>)
    ensures After(After(r, a), b) == After(r, a + b)
  {
    var base := |r.nodes|;
    assert |r.nodes + a| == base + |a|;
    assert r.nodes + a + b == r.nodes + (a + b);
    AfterEdges(r.edges, a, b, base);
    AfterPoints(r.points, a, b, base);
  }

  lemma AfterEdges(edges: multiset<seq<int>>, a: seq<Slot>, b: seq<Slot>, base: int)
    ensures edges + EdgesOf(a, base) + EdgesOf(b, base + |a|) == edges + EdgesOf(a + b, base)
  {
    EdgesConcat(a, b, base);
    MultisetAssociative(edges, EdgesOf(a, base), EdgesOf(b, base + |a|));
  }

  lemma AfterPoints(points: set<int>, a: seq<Slot>, b: seq<Slot>, base: int)
    ensures points + PointsOf(a, base) + PointsOf(b, base + |a|) == points + PointsOf(a + b, base)
  {
    PointsConcat(a, b, base);
  }

  /** Points and edges recorded before a stretch of slots might as well be recorded after it. */
  lemma AfterExtra(r: Record, s: set<int>, m: multiset<seq<int>>, nodes: seq<Slot>)
    ensures var a := After(r, nodes);
            After(Record(r.nodes, r.points + s, r.edges + m), nodes) == Record(a.nodes, a.points + s, a.edges + m)
  {
    var base := |r.nodes|;
    assert r.points + s + PointsOf(nodes, base) == r.points + PointsOf(nodes, base) + s;
    assert r.edges + m + EdgesOf(nodes, base) == r.edges + EdgesOf(nodes, base) + m;
  }

  lemma AfterNothing(r: Record)
    ensures After(r, []) == r
  {
  }

  lemma SingleSlot(n: Slot, base: int)
    ensures PointsOf([n], base) == PointsAt(n, base) && EdgesOf([n], base) == EdgesAt(n, base)
  {
    assert [n][1..] == [];
    assert Sum(EdgesAt, [n], base) == EdgesAt(n, base) + Sum(EdgesAt, [], base + 1);
    assert EdgesAt(n, base) + multiset{} == EdgesAt(n, base);
  }

  lemma AfterPlain(r: Record, n: Slot)
    requires !IsBranch(n)
    ensures After(r, [n]) == Record(r.nodes + [n], r.points, r.edges)
  {
    SingleSlot(n, |r.nodes|);
    assert r.points + {} == r.points && r.edges + multiset{} == r.edges;
  }

  lemma AfterBranch(r: Record, n: Slot)
    requires IsBranch(n) && !IsCond(n)
    ensures After(r, [n]) == Record(r.nodes + [n], r.points + {|r.nodes|}, r.edges)
  {
    SingleSlot(n, |r.nodes|);
    assert r.edges + multiset{} == r.edges;
  }

  /** A record that has the conditional c as its last slot, without c's own edges and branch starts. */
  function Entered(r: Record, c: Node): Record
    requires c.Cond?
  {
    Record(r.nodes + [Some(c)], r.points + {|r.nodes|}, r.edges)
  }

  /** Laying out both branches behind an entered conditional and recording its two edges completes it. */
  lemma CondComplete(r: Record, c: Node, t: seq<Slot>, e: seq<Slot>)
    requires c.Cond? && t == OrDummy(Flatten(c.thenBody)) && e == OrDummy(Flatten(c.elseBody))
    ensures var p := |r.nodes|;
            var q := ElseStart(c, p);
            var inner := After(Entered(r, c), t + e);
            After(r, FlattenNode(c)) ==
              Record(inner.nodes, inner.points + {p + 1, q}, inner.edges + multiset{[p, p + 1], [p, q]})
  {
    var p := |r.nodes|;
    var q := ElseStart(c, p);
    assert FlattenNode(c) == [Some(c)] + (t + e);
    OwnPoints(r.points, c, t + e, p);
    OwnEdges(r.edges, c, t + e, p);
    assert r.nodes + [Some(c)] + (t + e) == r.nodes + ([Some(c)] + (t + e));
  }

  /** The points of a conditional and what lies behind it. */
  lemma OwnPoints(points: set<int>, c: Node, rest: seq<Slot>, p: int)
    requires c.Cond?
    ensures points + PointsOf([Some(c)] + rest, p)
         == points + {p} + PointsOf(rest, p + 1) + {p + 1, ElseStart(c, p)}
  {
    PointsConcat([Some(c)], rest, p);
    SingleSlot(Some(c), p);
  }

  /** The edges of a conditional and of what lies behind it. */
  lemma OwnEdges(edges: multiset<seq<int>>, c: Node, rest: seq<Slot>, p: int)
    requires c.Cond?
    ensures edges + EdgesOf([Some(c)] + rest, p)
         == edges + EdgesOf(rest, p + 1) + multiset{[p, p + 1], [p, ElseStart(c, p)]}
  {
    EdgesConcat([Some(c)], rest, p);
    SingleSlot(Some(c), p);
    var own, tail := multiset{[p, p + 1], [p, ElseStart(c, p)]}, EdgesOf(rest, p + 1);
    assert edges + (own + tail) == edges + tail + own;
  }

  /** An entered conditional after its then-branch t and its true edge. */
  function ThenDone(r: Record, c: Node, t: seq<Slot>): Record
    requires c.Cond?
  {
    var p := |r.nodes|;
    var a := After(Record(r.nodes + [Some(c)], r.points + {p} + {p + 1}, r.edges), t);
    a.(edges := a.edges + multiset{[p, p + 1]})
  }

  /** The start of the then-branch might as well be recorded behind the then-branch. */
  lemma ThenPart(r: Record, c: Node, t: seq<Slot>)
    requires c.Cond?
    ensures var p, inner := |r.nodes|, After(Entered(r, c), t);
            ThenDone(r, c, t) == Record(inner.nodes, inner.points + {p + 1}, inner.edges + multiset{[p, p + 1]})
  {
    var p, entered := |r.nodes|, Entered(r, c);
    AfterExtra(entered, {p + 1}, multiset{}, t);
    assert entered.edges + multiset{} == entered.edges;
    assert After(entered, t).edges + multiset{} == After(entered, t).edges;
  }

  /** The steps of one conditional add up to its part of the layout. */
  lemma CondSteps(r: Record, c: Node, t: seq<Slot>, e: seq<Slot>, mid: Record, end: Record)
    requires c.Cond? && t == OrDummy(Flatten(c.thenBody)) && e == OrDummy(Flatten(c.elseBody))
    requires mid == ThenDone(r, c, t)
    requires end == After(Record(mid.nodes, mid.points + {ElseStart(c, |r.nodes|)},
                                 mid.edges + multiset{[|r.nodes|, ElseStart(c, |r.nodes|)]}), e)
    ensures end == After(r, FlattenNode(c))
  {
    var p := |r.nodes|;
    var q := ElseStart(c, p);
    var inner := After(Entered(r, c), t);
    var one, two := multiset{[p, p + 1]}, multiset{[p, q]};
    ThenPart(r, c, t);
    ExtraTwice(inner, {p + 1}, one, {q}, two, e);
    AfterConcat(Entered(r, c), t, e);
    CondComplete(r, c, t, e);
    TwoEdges(p, q);
  }

  lemma TwoEdges(p: int, q: int)
    ensures multiset{[p, p + 1]} + multiset{[p, q]} == multiset{[p, p + 1], [p, q]} && {p + 1} + {q} == {p + 1, q}
  {
  }

  lemma ExtraTwice(r: Record, s: set<int>, m: multiset<seq<int>>,
                   s': set<int>, m': multiset<seq<int>>, nodes: seq<Slot>)
    ensures After(Record(r.nodes, r.points + s + s', r.edges + m + m'), nodes)
         == Record(After(r, nodes).nodes, After(r, nodes).points + (s + s'), After(r, nodes).edges + (m + m'))
  {
    assert r.points + s + s' == r.points + (s + s');
    MultisetAssociative(r.edges, m, m');
    AfterExtra(r, s + s', m + m', nodes);
  }
}
