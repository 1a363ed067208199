/**
  The symbol graph that `SymbolicDFS.dfs` of `helpers/slang_helpers.py` walks.  Symbols have an
  identity and may refer to each other in cycles.
 */
module SymbolGraph {
  import opened Wrappers

  type Id = nat

  /** A child slot may hold something that is not a symbol. */
  datatype Ref = NotSymbol | Sym(id: Id)

  datatype Kind = Variable | Parameter | Port | Net | ProceduralBlock | ContinuousAssign | OtherKind

  /** Statements of procedural blocks; an expression is only known by its number. */
  datatype Stmt =
    | ExpressionStmt(e: int)
    | BlockStmt(body: Option<Stmt>)
    | ConditionalStmt(cond: Option<int>, ifTrue: Option<Stmt>, ifFalse: Option<Stmt>)
    | ListStmt(stmts: seq<Stmt>)
    | OtherStmt

  /** Children come from `members` or from iterating the symbol; some symbols have a `body` symbol besides. */
  datatype Symbol = Symbol(
    name: Option<string>, kind: Kind, stmt: Option<Stmt>, children: seq<Ref>, body: Option<Ref>)

  type Graph = map<Id, Symbol>

  /** One symbol refers to another: as a child, or as its body unless it is a procedural block. */
  predicate IsEdge(g: Graph, a: Id, b: Id) {
    a in g && (Sym(b) in g[a].children || (g[a].body == Some(Sym(b)) && g[a].kind != ProceduralBlock))
  }

  ghost predicate Closed(g: Graph) {
    forall a, b | IsEdge(g, a, b) :: b in g
  }

  /** Where dfs goes from a symbol: its children, then its body unless it is a procedural block. */
  function Targets(s: Symbol): seq<Ref> {
    s.children + (if s.body.Some? && s.kind != ProceduralBlock then [s.body.value] else [])
  }

  /** The walk takes exactly the edges of the graph. */
  lemma TargetsExactly(g: Graph, a: Id, b: Id)
    requires a in g
    ensures Sym(b) in Targets(g[a]) <==> IsEdge(g, a, b)
  {
    var s := g[a];
    var last := if s.body.Some? && s.kind != ProceduralBlock then [s.body.value] else [];
    assert Sym(b) in s.children + last <==> Sym(b) in s.children || Sym(b) in last;
  }

  /** A variable, parameter, port or net that has this name. */
  predicate Declares(s: Symbol, x: string) {
    s.name == Some(x) && s.kind in {Variable, Parameter, Port, Net}
  }

  // ---------- depth-first order ----------

  /** Everything that a refers to is in the list. */
  ghost predicate Exhausted(g: Graph, a: Id, order: seq<Id>) {
    forall b | IsEdge(g, a, b) :: b in order
  }

  predicate AllListed(refs: seq<Ref>, order: seq<Id>) {
    forall r | r in refs && r.Sym? :: r.id in order
  }

  /** b is what a refers to first among what is not listed: children in their order, then the body. */
  ghost predicate FirstUnlisted(g: Graph, a: Id, order: seq<Id>, b: Id) {
    && a in g && b !in order
    && if AllListed(g[a].children, order) then g[a].body == Some(Sym(b)) && g[a].kind != ProceduralBlock
       else exists j :: 0 <= j < |g[a].children| && g[a].children[j] == Sym(b) && AllListed(g[a].children[..j], order)
  }

  /** b comes next: the first reference that is left of the last symbol with any left. */
  ghost predicate ComesNext(g: Graph, order: seq<Id>, b: Id) {
    order == [] || exists i :: LastOpen(g, order, i) && FirstUnlisted(g, order[i], order, b)
  }

  ghost predicate LastOpen(g: Graph, order: seq<Id>, i: int) {
    0 <= i < |order| && forall k | i < k < |order| :: Exhausted(g, order[k], order)
  }

  /** The list is made in depth-first order: every symbol comes next behind those before it. */
  ghost predicate DepthFirst(g: Graph, order: seq<Id>) {
    order == [] ||
    var last := |order| - 1;
    ComesNext(g, order[..last], order[last]) && DepthFirst(g, order[..last])
  }

  lemma DepthFirstOn(g: Graph, order: seq<Id>, b: Id)
    requires DepthFirst(g, order) && ComesNext(g, order, b)
    ensures DepthFirst(g, order + [b])
  {
    assert (order + [b])[..|order|] == order;
  }

  /** Going through the targets in their order finds what is referred to first. */
  lemma TargetIsFirst(g: Graph, a: Id, order: seq<Id>, j: nat, b: Id)
    requires a in g && j < |Targets(g[a])| && Targets(g[a])[j] == Sym(b)
    requires AllListed(Targets(g[a])[..j], order) && b !in order
    ensures FirstUnlisted(g, a, order, b)
  {
    var s, children := g[a], g[a].children;
    if j < |children| {
      assert Targets(s)[..j] == children[..j];
      assert children[j] in children;
    } else {
      assert Targets(s)[..j] == children;
    }
  }

  // ---------- reachable symbols ----------

  ghost predicate IsPath(g: Graph, path: seq<Id>) {
    path != [] && path[0] in g && forall i | 0 <= i < |path| - 1 :: IsEdge(g, path[i], path[i + 1])
  }

  ghost predicate Reaches(g: Graph, a: Id, b: Id) {
    exists path :: IsPath(g, path) && path[0] == a && path[|path| - 1] == b
  }

  lemma ReachesSelf(g: Graph, a: Id)
    requires a in g
    ensures Reaches(g, a, a)
  {
    assert IsPath(g, [a]) && [a][0] == a && [a][|[a]| - 1] == a;
  }

  lemma ReachesStep(g: Graph, a: Id, b: Id, c: Id)
    requires IsEdge(g, a, b) && Reaches(g, b, c)
    ensures Reaches(g, a, c)
  {
    var path :| IsPath(g, path) && path[0] == b && path[|path| - 1] == c;
    var longer := [a] + path;
    assert IsPath(g, longer) && longer[0] == a && longer[|longer| - 1] == c;
  }

  /** A set that holds a symbol and every target of its members holds everything the symbol reaches. */
  lemma {:induction false} ClosedSetHoldsPath(g: Graph, s: set<Id>, path: seq<Id>, i: nat)
    requires IsPath(g, path) && path[0] in s && i < |path|
    requires forall a, b | a in s && IsEdge(g, a, b) :: b in s
    ensures path[i] in s
  {
    if i > 0 {
      ClosedSetHoldsPath(g, s, path, i - 1);
      assert IsEdge(g, path[i - 1], path[i]);
    }
  }

  lemma ClosedSetHoldsReachable(g: Graph, s: set<Id>, a: Id, b: Id)
    requires a in s && Reaches(g, a, b)
    requires forall x, y | x in s && IsEdge(g, x, y) :: y in s
    ensures b in s
  {
    var path :| IsPath(g, path) && path[0] == a && path[|path| - 1] == b;
    ClosedSetHoldsPath(g, s, path, |path| - 1);
  }
}
