/**
  `SymbolicDFS.visit_stmt` on the object whose fields it updates in place, proved against the
  function on states.
 */
module StatementVisitor {
  import opened StatementVisits
  import opened Wrappers

  lemma WhileVisit(cond: Option<Expr>, body: Option<Stmt>, st: State, env: Setting)
    requires !st.ignore
    ensures Visit(WhileLoop(cond, body), st, env)
         == if cond.Some? then VisitGuarded(cond.value, body, Count(st), env) else VisitOptional(body, Count(st), env)
  {
  }

  /** The fields of the execution manager and the symbolic state that a visit updates. */
  class Visitor {
    const env: Setting
    var scopes: Scopes
    var assertionCounter: nat
    var ignore: bool
    var abandon: bool
    var branchCount: nat
    var violatedAssertions: seq<int>
    var store: map<string, string>
    ghost var writes: nat
    ghost var asked: seq<Scopes>
    ghost var frozen: map<string, string>
    ghost var written: nat

    ghost function Now(): State
      reads this
    {
      State(scopes, assertionCounter, ignore, abandon, branchCount, violatedAssertions,
            store, writes, asked, frozen, written)
    }

    constructor (env: Setting, store: map<string, string>)
      ensures this.env == env && Now() == State([[]], 0, false, false, 0, [], store, 0, [], store, 0)
    {
      this.env, this.store, this.frozen := env, store, store;
      scopes, assertionCounter, ignore, abandon := [[]], 0, false, false;
      branchCount, violatedAssertions, writes, asked, written := 0, [], 0, [], 0;
    }

    /** `solve_pc`. */
    method Solve() returns (sat: bool)
      modifies this`asked
      ensures sat == env.sat(scopes) && asked == old(asked) + [scopes]
    {
      sat := env.sat(scopes);
      asked := asked + [scopes];
    }

    /** `push`. */
    method OpenScope()
      modifies this`scopes
      ensures scopes == old(scopes) + [[]]
    {
      scopes := scopes + [[]];
    }

    /** `add` and `assert_and_track`, into the innermost scope. */
    method AddEntry(e: Entry)
      requires scopes != [] && scopes[|scopes| - 1] == []
      modifies this`scopes
      ensures scopes == old(scopes)[..|old(scopes)| - 1] + [[e]]
    {
      var innermost := scopes[|scopes| - 1] + [e];
      assert innermost == [e];
      scopes := scopes[|scopes| - 1 := innermost];
    }

    method PushWith(e: Entry) returns (sat: bool)
      modifies this`asked, this`scopes
      ensures Now() == Open(old(Now()), e) && sat == env.sat(scopes)
    {
      OpenScope();
      AddEntry(e);
      assert scopes == old(scopes) + [[e]];
      sat := Solve();
    }

    method PopScope()
      requires scopes != []
      modifies this`scopes
      ensures Now() == Pop(old(Now()))
    {
      scopes := scopes[..|scopes| - 1];
    }

    /** The first answer, from before the guard is tracked, is not used. */
    method TrackGuard(c: Constraint) returns (sat: bool)
      modifies this
      ensures Now() == Guard(old(Now()), c) && sat == env.sat(scopes)
    {
      OpenScope();
      assertionCounter := assertionCounter + 1;
      var _ := Solve();
      AddEntry(Tracked(assertionCounter, c));
      assert scopes == old(scopes) + [[Tracked(assertionCounter, c)]];
      sat := Solve();
    }

    method Stop()
      requires scopes != []
      modifies this
      ensures Now() == SwitchOff(old(Now()))
    {
      PopScope();
      if !ignore {
        frozen, written := store, writes;
      }
      abandon, ignore := true, true;
    }

    method CountBranch()
      modifies this`branchCount
      ensures Now() == Count(old(Now()))
    {
      branchCount := branchCount + 1;
    }

    method DoExpr(e: Expr)
      modifies this`store, this`writes
      ensures Now() == VisitExpr(e, old(Now()))
    {
      if e.Assigns? {
        store, writes := store[e.lhs := e.text], writes + 1;
      }
    }

    method DoOptionalExpr(e: Option<Expr>)
      modifies this`store, this`writes
      ensures Now() == VisitOptionalExpr(e, old(Now()))
    {
      if e.Some? {
        DoExpr(e.value);
      }
    }

    /** The assertion handlers up to their action blocks. */
    method CheckAssertion(e: Expr, conversion: Conversion)
      modifies this
      ensures Now() == Check(e, conversion, old(Now()), env)
    {
      DoExpr(e);
      if conversion.Formula? {
        var sat := PushWith(Plain(Negated(e.id)));
        if sat {
          violatedAssertions := violatedAssertions + [e.id];
        }
        PopScope();
      }
    }

    method DoConditional(cond: Expr)
      modifies this
      ensures Now() == VisitConditional(cond, old(Now()), env)
    {
      DoExpr(cond);
      var sat := TrackGuard(Holds(cond.id));
      if !sat {
        Stop();
        return;
      }
      PopScope();
    }

    method DoFor(init: Option<Stmt>, cond: Option<Expr>, body: Option<Stmt>, incr: Option<Stmt>)
      requires !ignore
      modifies this
      ensures Now() == Visit(ForLoop(init, cond, body, incr), old(Now()), env)
      decreases ForLoop(init, cond, body, incr), 1
    {
      DoOptional(init);
      DoOptionalExpr(cond);
      DoOptional(body);
      DoOptional(incr);
    }

    method DoAssign(left: Expr, right: Expr, target: Option<string>, text: string)
      requires !ignore
      modifies this`store, this`writes
      ensures Now() == Visit(ProceduralAssign(left, right, target, text), old(Now()), env)
    {
      DoExpr(left);
      DoExpr(right);
      if target.Some? {
        store, writes := store[target.value := text], writes + 1;
      }
    }

    method DoGuarded(cond: Expr, body: Option<Stmt>)
      modifies this
      ensures Now() == VisitGuarded(cond, body, old(Now()), env)
      decreases body, 1
    {
      DoExpr(cond);
      var sat := TrackGuard(WhileGuard(cond, env));
      if !sat {
        Stop();
        return;
      }
      DoOptional(body);
      PopScope();
    }

    method DoWhile(cond: Option<Expr>, body: Option<Stmt>)
      requires !ignore
      modifies this
      ensures Now() == Visit(WhileLoop(cond, body), old(Now()), env)
      decreases WhileLoop(cond, body), 1
    {
      WhileVisit(cond, body, Now(), env);
      CountBranch();
      if cond.Some? {
        DoGuarded(cond.value, body);
      } else {
        DoOptional(body);
      }
    }

    method DoDoWhile(body: Option<Stmt>, cond: Option<Expr>)
      requires !ignore
      modifies this
      ensures Now() == Visit(DoWhileLoop(body, cond), old(Now()), env)
      decreases DoWhileLoop(body, cond), 1
    {
      CountBranch();
      DoOptional(body);
      DoOptionalExpr(cond);
    }

    method DoCase(e: Expr, items: seq<CaseItem>)
      requires !ignore
      modifies this
      ensures Now() == Visit(CaseStmt(e, items), old(Now()), env)
      decreases CaseStmt(e, items), 1
    {
      CountBranch();
      DoExpr(e);
      DoItems(e, items);
    }

    method DoImmediate(cond: Option<Expr>, conversion: Conversion, ifTrue: Option<Stmt>, ifFalse: Option<Stmt>)
      requires !ignore
      modifies this
      ensures Now() == Visit(Immediate(cond, conversion, ifTrue, ifFalse), old(Now()), env)
      decreases Immediate(cond, conversion, ifTrue, ifFalse), 1
    {
      if cond.Some? {
        CheckAssertion(cond.value, conversion);
        if conversion.Formula? {
          DoOptional(ifTrue);
          DoOptional(ifFalse);
        }
      }
    }

    method DoOptional(stmt: Option<Stmt>)
      modifies this
      ensures Now() == VisitOptional(stmt, old(Now()), env)
      decreases stmt, 0
    {
      if stmt.Some? {
        DoStmt(stmt.value);
      }
    }

    /** `visit_stmt`. */
    method DoStmt(stmt: Stmt)
      modifies this
      ensures Now() == Visit(stmt, old(Now()), env)
      decreases stmt, 2
    {
      if ignore {
        return;
      }
      match stmt
      case ExpressionStmt(e) => DoExpr(e);
      case Block(stmts) => DoAll(stmts);
      case Conditional(cond) =>
        CountBranch();
        if cond.Some? {
          DoConditional(cond.value);
        }
      case ForLoop(init, cond, body, incr) => DoFor(init, cond, body, incr);
      case WhileLoop(cond, body) => DoWhile(cond, body);
      case DoWhileLoop(body, cond) => DoDoWhile(body, cond);
      case CaseStmt(e, items) => DoCase(e, items);
      case ProceduralAssign(left, right, target, text) => DoAssign(left, right, target, text);
      case Immediate(cond, conversion, ifTrue, ifFalse) => DoImmediate(cond, conversion, ifTrue, ifFalse);
      case Concurrent(expr, conversion) =>
        if expr.Some? {
          CheckAssertion(expr.value, conversion);
        }
      case OtherStmt =>
    }

    method DoAll(stmts: seq<Stmt>)
      modifies this
      ensures Now() == VisitAll(stmts, old(Now()), env)
      decreases stmts, 0
    {
      for i := 0 to |stmts|
        invariant VisitAll(stmts[i..], Now(), env) == VisitAll(stmts, old(Now()), env)
      {
        assert stmts[i..][1..] == stmts[i + 1..];
        DoStmt(stmts[i]);
      }
    }

    method DoLabels(subject: Expr, item: CaseItem) returns (on: bool)
      modifies this
      ensures (Now(), on) == VisitLabels(subject, item, 0, old(Now()), env)
      decreases item, 1
    {
      for i := 0 to |item.labels|
        invariant VisitLabels(subject, item, i, Now(), env) == VisitLabels(subject, item, 0, old(Now()), env)
      {
        DoExpr(item.labels[i]);
        var sat := TrackGuard(CaseGuard(subject, item.labels[i], env));
        if !sat {
          Stop();
          return false;
        }
        DoAll(item.body);
        PopScope();
      }
      return true;
    }

    method DoItems(subject: Expr, items: seq<CaseItem>)
      modifies this
      ensures Now() == VisitItems(subject, items, old(Now()), env)
      decreases items, 1
    {
      for i := 0 to |items|
        invariant VisitItems(subject, items[i..], Now(), env) == VisitItems(subject, items, old(Now()), env)
      {
        assert items[i..][1..] == items[i + 1..];
        var on := DoLabels(subject, items[i]);
        if !on {
          return;
        }
      }
    }
  }
}
