/**
  `SymbolicDFS.dfs` and `dfs_stmt` of `helpers/slang_helpers.py`: a depth-first walk that records
  the declared symbols by name while a path condition is pushed and popped along the way.
 */
module SymbolDfs {
  import opened Wrappers
  import opened SymbolGraph

  /**
    A walk over refs has taken the visited set from v0 to v1: the references are visited, everything
    added is reachable from one of them, and all targets of what was added are visited.
   */
  ghost predicate Walked(g: Graph, v0: set<Id>, v1: set<Id>, refs: seq<Ref>) {
    && v0 <= v1
    && (forall r | r in refs && r.Sym? :: r.id in v1)
    && (forall n | n in v1 - v0 :: exists r :: r in refs && r.Sym? && Reaches(g, r.id, n))
    && (forall a, b | a in v1 - v0 && IsEdge(g, a, b) :: b in v1)
  }

  lemma WalkedAppend(g: Graph, v0: set<Id>, v1: set<Id>, v2: set<Id>, refs: seq<Ref>, r: Ref)
    requires Walked(g, v0, v1, refs) && Walked(g, v1, v2, [r])
    ensures Walked(g, v0, v2, refs + [r])
  {
    forall n | n in v2 - v0
      ensures exists q :: q in refs + [r] && q.Sym? && Reaches(g, q.id, n)
    {
      if n in v1 {
        assert n in v1 - v0;
        var q :| q in refs && q.Sym? && Reaches(g, q.id, n);
        assert q in refs + [r];
      } else {
        assert n in v2 - v1;
        var q :| q in [r] && q.Sym? && Reaches(g, q.id, n);
        assert q in refs + [r];
      }
    }
    forall q | q in refs + [r] && q.Sym?
      ensures q.id in v2
    {
      assert q in refs || q in [r];
    }
    forall a, b | a in v2 - v0 && IsEdge(g, a, b)
      ensures b in v2
    {
      assert a in v1 - v0 || a in v2 - v1;
    }
  }

  /** Once all targets of n have been walked, the walk of n itself is complete. */
  lemma FinishSymbol(g: Graph, n: Id, v0: set<Id>, v1: set<Id>, v2: set<Id>)
    requires n in g && v1 == v0 + {n} && Walked(g, v1, v2, Targets(g[n]))
    ensures Walked(g, v0, v2, [Sym(n)])
  {
    assert Sym(n) in [Sym(n)];
    forall m | m in v2 - v0
      ensures Reaches(g, n, m)
    {
      if m == n {
        ReachesSelf(g, n);
      } else {
        assert m in v2 - v1;
        var r :| r in Targets(g[n]) && r.Sym? && Reaches(g, r.id, m);
        TargetsExactly(g, n, r.id);
        ReachesStep(g, n, r.id, m);
      }
    }
    forall a, b | a in v2 - v0 && IsEdge(g, a, b)
      ensures b in v2
    {
      assert a == n || a in v2 - v1;
      if a == n {
        TargetsExactly(g, n, b);
      }
    }
  }

  lemma TargetsInside(g: Graph, n: Id)
    requires Closed(g) && n in g
    ensures forall r | r in Targets(g[n]) && r.Sym? :: r.id in g
  {
    forall r | r in Targets(g[n]) && r.Sym?
      ensures r.id in g
    {
      TargetsExactly(g, n, r.id);
    }
  }

  lemma FewerLeft<T>(all: set<T>, visited: set<T>, n: T)
    requires n in all && n !in visited
    ensures all - (visited + {n}) < all - visited
  {
    assert n in all - visited && n !in all - (visited + {n});
  }

  /** The list has every member of the set, each once, and nothing else. */
  ghost predicate ListsOnce(order: seq<Id>, s: set<Id>) {
    && (forall i, j | 0 <= i < j < |order| :: order[i] != order[j])
    && forall n :: n in order <==> n in s
  }

  /** Before the i-th target of n is looked at: what was handled behind n is exhausted, so n is the last one open. */
  lemma NextTarget(g: Graph, n: Id, i: nat, v0: set<Id>, v1: set<Id>, p0: seq<Id>, p1: seq<Id>)
    requires n in g && i < |Targets(g[n])| && Walked(g, v0, v1, Targets(g[n])[..i])
    requires p0 <= p1 && p0 != [] && p0[|p0| - 1] == n
    requires ListsOnce(p0, v0) && ListsOnce(p1, v1)
    ensures Targets(g[n])[i].Sym? && Targets(g[n])[i].id !in v1 ==> ComesNext(g, p1, Targets(g[n])[i].id)
  {
    var refs, last := Targets(g[n]), |p0| - 1;
    assert p1[last] == n;
    forall k | last < k < |p1|
      ensures Exhausted(g, p1[k], p1)
    {
      assert p1[k] in p1;
      assert p1[k] !in p0;
    }
    assert LastOpen(g, p1, last);
    assert AllListed(refs[..i], p1);
    if refs[i].Sym? && refs[i].id !in v1 {
      TargetIsFirst(g, n, p1, i, refs[i].id);
    }
  }

  /** The symbol that x stands for: the last one listed that declares it. */
  ghost predicate LastDeclares(g: Graph, order: seq<Id>, x: string, n: Id) {
    exists i :: 0 <= i < |order| && order[i] == n && n in g && Declares(g[n], x) && NoneDeclares(g, order[i + 1..], x)
  }

  ghost predicate NoneDeclares(g: Graph, order: seq<Id>, x: string) {
    forall n | n in order && n in g :: !Declares(g[n], x)
  }

  /** The store holds exactly the declared names, each with the last symbol that declares it. */
  ghost predicate StoreIs(g: Graph, order: seq<Id>, store: map<string, Id>) {
    forall x :: if x in store then LastDeclares(g, order, x, store[x]) else NoneDeclares(g, order, x)
  }

  lemma StoreIsOn(g: Graph, order: seq<Id>, store: map<string, Id>, n: Id, store': map<string, Id>)
    requires n in g && StoreIs(g, order, store)
    requires store' == if g[n].name.Some? && Declares(g[n], g[n].name.value) then store[g[n].name.value := n] else store
    ensures StoreIs(g, order + [n], store')
  {
    forall x
      ensures if x in store' then LastDeclares(g, order + [n], x, store'[x]) else NoneDeclares(g, order + [n], x)
    {
      StoredName(g, order, store, n, x);
    }
  }

  /** A symbol that is listed last decides the names that it declares, and no others. */
  lemma StoredName(g: Graph, order: seq<Id>, store: map<string, Id>, n: Id, x: string)
    requires n in g && (if x in store then LastDeclares(g, order, x, store[x]) else NoneDeclares(g, order, x))
    ensures Declares(g[n], x) ==> LastDeclares(g, order + [n], x, n)
    ensures !Declares(g[n], x) ==>
      if x in store then LastDeclares(g, order + [n], x, store[x]) else NoneDeclares(g, order + [n], x)
  {
    var longer := order + [n];
    if Declares(g[n], x) {
      assert longer[|order|] == n && longer[|order| + 1..] == [];
    } else if x in store {
      var i :| 0 <= i < |order| && order[i] == store[x] && NoneDeclares(g, order[i + 1..], x);
      assert longer[i + 1..] == order[i + 1..] + [n] && longer[i] == store[x];
    }
  }

  /**
    The expression e stands in the statement where the conditions around it extend base to path.  Both
    branches of a conditional are under the condition itself; it is not negated for the second.
   */
  ghost predicate SeenUnder(stmt: Stmt, base: seq<int>, e: int, path: seq<int>)
    decreases stmt
  {
    match stmt
    case ExpressionStmt(x) => e == x && path == base
    case BlockStmt(body) => body.Some? && SeenUnder(body.value, base, e, path)
    case ConditionalStmt(cond, ifTrue, ifFalse) =>
      var inner := if cond.Some? then base + [cond.value] else base;
      || (cond == Some(e) && path == base)
      || (ifTrue.Some? && SeenUnder(ifTrue.value, inner, e, path))
      || (ifFalse.Some? && SeenUnder(ifFalse.value, inner, e, path))
    case ListStmt(stmts) => SeenAmong(stmts, base, e, path)
    case OtherStmt => false
  }

  ghost predicate SeenAmong(stmts: seq<Stmt>, base: seq<int>, e: int, path: seq<int>)
    decreases stmts
  {
    exists i :: 0 <= i < |stmts| && SeenUnder(stmts[i], base, e, path)
  }

  class SymbolicDFS {
    var symbolicStore: map<string, Id>
    var pathCondition: seq<int>
    var visited: set<Id>
    ghost var processed: seq<Id>           // the symbols handled so far, in order
    ghost var seen: set<(int, seq<int>)>   // the expressions seen, each with the path condition of the moment

    constructor ()
      ensures symbolicStore == map[] && pathCondition == [] && visited == {} && processed == []
    {
      symbolicStore, pathCondition, visited, processed, seen := map[], [], {}, [], {};
    }

    /** Every visited symbol was handled exactly once, in depth-first order; the store has what they declare. */
    ghost predicate Valid(g: Graph)
      reads this
    {
      && ListsOnce(processed, visited) && visited <= g.Keys
      && DepthFirst(g, processed) && StoreIs(g, processed, symbolicStore)
    }

    /** A symbol is marked, and entered in the store if it is a declaration. */
    method Enter(g: Graph, n: Id)
      requires n in g && n !in visited && Valid(g) && ComesNext(g, processed, n)
      modifies this
      ensures Valid(g) && visited == old(visited) + {n} && processed == old(processed) + [n]
      ensures pathCondition == old(pathCondition)
    {
      DepthFirstOn(g, processed, n);
      ghost var before := symbolicStore;
      if g[n].name.Some? && g[n].kind in {Variable, Parameter, Port, Net} {
        symbolicStore := symbolicStore[g[n].name.value := n];
      }
      StoreIsOn(g, processed, before, n, symbolicStore);
      visited := visited + {n};
      processed := processed + [n];
    }

    /** What happens to a symbol before its targets are walked. */
    method Begin(g: Graph, n: Id)
      requires n in g && n !in visited && Valid(g) && ComesNext(g, processed, n)
      modifies this
      ensures Valid(g) && visited == old(visited) + {n} && processed == old(processed) + [n]
      ensures pathCondition == old(pathCondition)
    {
      Enter(g, n);
      if g[n].kind == ProceduralBlock && g[n].stmt.Some? {
        DfsStmt(g[n].stmt.value);
      }
    }

    /** `dfs`, called for a symbol whose turn it is, or that was visited. */
    method Dfs(g: Graph, symbol: Ref)
      requires Closed(g) && (symbol.Sym? ==> symbol.id in g) && Valid(g)
      requires symbol.Sym? && symbol.id !in visited ==> ComesNext(g, processed, symbol.id)
      modifies this
      ensures Valid(g) && Walked(g, old(visited), visited, [symbol])
      ensures pathCondition == old(pathCondition) && old(processed) <= processed
      decreases g.Keys - visited, 1
    {
      if symbol.NotSymbol? || symbol.id in visited {
        return;
      }
      Process(g, symbol.id);
    }

    /** A symbol that was not visited yet: mark it, visit its statement, then walk its targets. */
    method Process(g: Graph, n: Id)
      requires Closed(g) && n in g && n !in visited && Valid(g) && ComesNext(g, processed, n)
      modifies this
      ensures Valid(g) && Walked(g, old(visited), visited, [Sym(n)])
      ensures pathCondition == old(pathCondition) && old(processed) <= processed
      decreases g.Keys - visited, 0
    {
      FewerLeft(g.Keys, visited, n);
      TargetsInside(g, n);
      Begin(g, n);
      ghost var before := visited;
      DfsAll(g, n, Targets(g[n]));
      FinishSymbol(g, n, old(visited), before, visited);
    }

    /** The loop over the targets of the symbol that was marked last. */
    method DfsAll(g: Graph, ghost n: Id, refs: seq<Ref>)
      requires Closed(g) && n in g && refs == Targets(g[n]) && (forall r | r in refs && r.Sym? :: r.id in g)
      requires Valid(g) && processed != [] && processed[|processed| - 1] == n
      modifies this
      ensures Valid(g) && Walked(g, old(visited), visited, refs)
      ensures pathCondition == old(pathCondition) && old(processed) <= processed
      decreases g.Keys - visited, 3
    {
      for i := 0 to |refs|
        invariant Valid(g) && Walked(g, old(visited), visited, refs[..i])
        invariant pathCondition == old(pathCondition) && old(processed) <= processed
      {
        DfsTarget(g, n, refs, i, old(visited), old(processed));
      }
      assert refs[..|refs|] == refs;
    }

    /** The i-th target; v0 and p0 are what was visited and handled up to n itself. */
    method DfsTarget(g: Graph, ghost n: Id, refs: seq<Ref>, i: nat, ghost v0: set<Id>, ghost p0: seq<Id>)
      requires Closed(g) && n in g && refs == Targets(g[n]) && i < |refs| && (refs[i].Sym? ==> refs[i].id in g)
      requires Valid(g) && Walked(g, v0, visited, refs[..i])
      requires p0 <= processed && p0 != [] && p0[|p0| - 1] == n && ListsOnce(p0, v0)
      modifies this
      ensures Valid(g) && Walked(g, v0, visited, refs[..i + 1])
      ensures pathCondition == old(pathCondition) && old(processed) <= processed
      decreases g.Keys - visited, 2
    {
      NextTarget(g, n, i, v0, visited, p0, processed);
      Dfs(g, refs[i]);
      WalkedAppend(g, v0, old(visited), visited, refs[..i], refs[i]);
      assert refs[..i + 1] == refs[..i] + [refs[i]];
    }

    /**
      `dfs_stmt`: expressions are seen under the conditions around them, and the path condition is what
      it was.
     */
    method DfsStmt(stmt: Stmt)
      modifies this`pathCondition, this`seen
      ensures pathCondition == old(pathCondition)
      ensures forall e, path :: (e, path) in seen <==>
                (e, path) in old(seen) || SeenUnder(stmt, old(pathCondition), e, path)
      decreases stmt
    {
      match stmt
      case ExpressionStmt(e) =>
        DfsExpr(e);
      case BlockStmt(body) =>
        if body.Some? {
          DfsStmt(body.value);
        }
      case ConditionalStmt(cond, ifTrue, ifFalse) =>
        if cond.Some? {
          DfsExpr(cond.value);
          pathCondition := pathCondition + [cond.value];
        }
        if ifTrue.Some? {
          DfsStmt(ifTrue.value);
        }
        if ifFalse.Some? {
          DfsStmt(ifFalse.value);
        }
        if cond.Some? {
          pathCondition := pathCondition[..|pathCondition| - 1];
        }
      case ListStmt(stmts) =>
        for i := 0 to |stmts|
          invariant pathCondition == old(pathCondition)
          invariant forall e, path :: (e, path) in seen <==>
                      (e, path) in old(seen) || SeenAmong(stmts[..i], old(pathCondition), e, path)
        {
          DfsStmt(stmts[i]);
          assert stmts[..i + 1] == stmts[..i] + [stmts[i]];
        }
        assert stmts[..|stmts|] == stmts;
      case OtherStmt =>
    }

    /** `dfs_expr` only records that it was called. */
    method DfsExpr(e: int)
      modifies this`seen
      ensures seen == old(seen) + {(e, pathCondition)}
    {
      seen := seen + {(e, pathCondition)};
    }
  }

  /**
    Started with nothing visited, the walk ends on every graph, cyclic or not; it handles exactly the
    symbols that the root reaches, each once and in depth-first order; a name is in the store exactly if
    one of them declares it, with the last that does; and the path condition is what it was.
   */
  method Discover(g: Graph, root: Id) returns (d: SymbolicDFS)
    requires Closed(g) && root in g
    ensures forall n :: n in d.visited <==> Reaches(g, root, n)
    ensures forall n :: n in d.processed <==> Reaches(g, root, n)
    ensures forall i, j | 0 <= i < j < |d.processed| :: d.processed[i] != d.processed[j]
    ensures DepthFirst(g, d.processed)
    ensures StoreIs(g, d.processed, d.symbolicStore)
    ensures d.pathCondition == []
  {
    d := new SymbolicDFS();
    d.Dfs(g, Sym(root));
    WholeWalk(g, root, d.visited);
  }

  /** A walk from nothing has visited exactly what the root reaches. */
  lemma WholeWalk(g: Graph, root: Id, visited: set<Id>)
    requires root in g && Walked(g, {}, visited, [Sym(root)])
    ensures forall n :: n in visited <==> Reaches(g, root, n)
  {
    forall n | n in visited
      ensures Reaches(g, root, n)
    {
      assert n in visited - {};
      var r :| r in [Sym(root)] && r.Sym? && Reaches(g, r.id, n);
    }
    forall n | Reaches(g, root, n)
      ensures n in visited
    {
      WalkIsClosed(g, root, visited);
      ClosedSetHoldsReachable(g, visited, root, n);
    }
  }

  lemma WalkIsClosed(g: Graph, root: Id, visited: set<Id>)
    requires Walked(g, {}, visited, [Sym(root)])
    ensures root in visited && forall a, b | a in visited && IsEdge(g, a, b) :: b in visited
  {
    assert Sym(root) in [Sym(root)] && visited - {} == visited;
  }
}
