/**
  What a visit of a statement comes to when every formula has a value and the solver tells the truth
  about it: which guards let the visitor go on, what is then executed, and what is reported.
 */
module StatementMeaning {
  import opened StatementVisits
  import opened Wrappers

  // ---------- constraints under a valuation ----------

  predicate IsTrue(c: Constraint, val: int -> int) {
    match c
    case Holds(e) => val(e) != 0
    case Negated(e) => val(e) == 0
    case Matches(subject, pattern) => val(subject) == val(pattern)
    case Differs(subject, pattern) => val(subject) != val(pattern)
    case Always => true
  }

  predicate ScopeIsTrue(scope: seq<Entry>, val: int -> int) {
    forall i | 0 <= i < |scope| :: IsTrue(scope[i].c, val)
  }

  predicate AllTrue(q: Scopes, val: int -> int) {
    forall i | 0 <= i < |q| :: ScopeIsTrue(q[i], val)
  }

  /** The solver answers whether everything on its stack is true under the valuation. */
  ghost predicate Truthful(env: Setting, val: int -> int) {
    forall q :: env.sat(q) <==> AllTrue(q, val)
  }

  lemma OneMoreEntry(q: Scopes, e: Entry, val: int -> int)
    requires AllTrue(q, val)
    ensures AllTrue(q + [[e]], val) <==> IsTrue(e.c, val)
  {
    var longer := q + [[e]];
    assert longer[|q|] == [e] && [e][0] == e;
    assert forall i | 0 <= i < |q| :: longer[i] == q[i];
  }

  // ---------- what is executed ----------

  /** What decides: the values and sorts of the formulas, and the direction of this visit. */
  datatype Facts = Facts(val: int -> int, sort: int -> Sort, direction: bool)

  /** The store, whether the visitor is still on, what was reported, and how many branches were counted. */
  datatype World = World(store: map<string, string>, on: bool, abandoned: bool, violated: seq<int>, branches: nat)

  function Off(w: World): World {
    w.(on := false, abandoned := true)
  }

  /** Go on exactly if the test succeeds. */
  function Test(success: bool, w: World): World {
    if success then w else Off(w)
  }

  function Branch(w: World): World {
    w.(branches := w.branches + 1)
  }

  function ExecExpr(e: Expr, w: World): World {
    if e.Assigns? then w.(store := w.store[e.lhs := e.text]) else w
  }

  function ExecOptionalExpr(e: Option<Expr>, w: World): World {
    if e.Some? then ExecExpr(e.value, w) else w
  }

  /** An assertion is reported exactly if its condition is zero. */
  function ExecCheck(e: Expr, conversion: Conversion, f: Facts, w: World): World {
    var w := ExecExpr(e, w);
    if conversion.Formula? && f.val(e.id) == 0 then w.(violated := w.violated + [e.id]) else w
  }

  /**
    A loop's condition, and a case label against its subject, must come out as the direction says; the
    condition of a conditional must hold in either direction.
   */
  function Exec(stmt: Stmt, f: Facts, w: World): World
    decreases stmt, 2
  {
    if !w.on then w
    else
      match stmt
      case ExpressionStmt(e) => ExecExpr(e, w)
      case Block(stmts) => ExecAll(stmts, f, w)
      case Conditional(cond) =>
        if cond.None? then Branch(w) else Test(f.val(cond.value.id) != 0, ExecExpr(cond.value, Branch(w)))
      case ForLoop(init, cond, body, incr) =>
        var w := ExecOptionalExpr(cond, ExecOptional(init, f, w));
        ExecOptional(incr, f, ExecOptional(body, f, w))
      case WhileLoop(cond, body) =>
        if cond.None? then ExecOptional(body, f, Branch(w))
        else
          var w := Test(f.direction == (f.val(cond.value.id) != 0), ExecExpr(cond.value, Branch(w)));
          ExecOptional(body, f, w)
      case DoWhileLoop(body, cond) => ExecOptionalExpr(cond, ExecOptional(body, f, Branch(w)))
      case CaseStmt(e, items) => ExecItems(e, items, f, ExecExpr(e, Branch(w)))
      case ProceduralAssign(left, right, target, text) =>
        var w := ExecExpr(right, ExecExpr(left, w));
        if target.Some? then w.(store := w.store[target.value := text]) else w
      case Immediate(cond, conversion, ifTrue, ifFalse) =>
        if cond.None? then w
        else
          var w := ExecCheck(cond.value, conversion, f, w);
          if conversion.Formula? then ExecOptional(ifFalse, f, ExecOptional(ifTrue, f, w))
          else w
      case Concurrent(expr, conversion) => if expr.Some? then ExecCheck(expr.value, conversion, f, w) else w
      case OtherStmt => w
  }

  function ExecOptional(stmt: Option<Stmt>, f: Facts, w: World): World
    decreases stmt, 0
  {
    if stmt.Some? then Exec(stmt.value, f, w) else w
  }

  function ExecAll(stmts: seq<Stmt>, f: Facts, w: World): World
    decreases stmts, 0
  {
    if stmts == [] then w else ExecAll(stmts[1..], f, Exec(stmts[0], f, w))
  }

  /** Labels are compared with the subject, unless it is a truth value or they have no formula. */
  predicate LabelFits(subject: Expr, pattern: Expr, f: Facts) {
    var holds, equal := f.val(subject.id) != 0, f.val(subject.id) == f.val(pattern.id);
    match f.sort(subject.id)
    case Truth => f.direction == holds
    case BitVector => f.direction == if f.sort(pattern.id) == Unconverted then holds else equal
    case OtherSort => f.sort(pattern.id) == Unconverted || f.direction == equal
    case Unconverted => true
  }

  /** A label that fails ends the whole statement; labels behind a body that was switched off are still looked at. */
  function ExecLabels(subject: Expr, item: CaseItem, i: nat, f: Facts, w: World): (World, bool)
    requires i <= |item.labels|
    decreases item, 0, |item.labels| - i
  {
    if i == |item.labels| then (w, true)
    else
      var w := ExecExpr(item.labels[i], w);
      if LabelFits(subject, item.labels[i], f)
      then ExecLabels(subject, item, i + 1, f, ExecAll(item.body, f, w))
      else (Off(w), false)
  }

  function ExecItems(subject: Expr, items: seq<CaseItem>, f: Facts, w: World): World
    decreases items, 1
  {
    if items == [] then w
    else
      var (next, on) := ExecLabels(subject, items[0], 0, f, w);
      if on then ExecItems(subject, items[1..], f, next) else next
  }

  lemma OffStays(stmt: Option<Stmt>, f: Facts, w: World)
    requires !w.on
    ensures ExecOptional(stmt, f, w) == w
  {
  }

  // ---------- the visit comes to that ----------

  function WorldOf(st: State): World {
    World(st.store, !st.ignore, st.abandon, st.violated, st.branchCount)
  }

  function FactsOf(env: Setting, val: int -> int): Facts {
    Facts(val, env.sort, env.direction)
  }

  ghost predicate Sound(st: State, env: Setting, val: int -> int) {
    Truthful(env, val) && AllTrue(st.scopes, val)
  }

  lemma ExprMeans(e: Expr, st: State)
    ensures WorldOf(VisitExpr(e, st)) == ExecExpr(e, WorldOf(st)) && VisitExpr(e, st).scopes == st.scopes
  {
  }

  /** A guard is accepted exactly if it is true. */
  lemma GuardMeans(st: State, e: Expr, c: Constraint, env: Setting, val: int -> int)
    requires Sound(st, env, val)
    ensures var g := Guard(VisitExpr(e, st), c);
      && (env.sat(g.scopes) <==> IsTrue(c, val)) && (env.sat(g.scopes) ==> Sound(g, env, val))
      && WorldOf(g) == ExecExpr(e, WorldOf(st)) && WorldOf(SwitchOff(g)) == Off(WorldOf(g))
      && SwitchOff(g).scopes == st.scopes
  {
    var s := VisitExpr(e, st);
    OneMoreEntry(s.scopes, Tracked(s.counter + 1, c), val);
  }

  lemma CheckMeans(e: Expr, conversion: Conversion, st: State, env: Setting, val: int -> int)
    requires Sound(st, env, val)
    ensures WorldOf(Check(e, conversion, st, env)) == ExecCheck(e, conversion, FactsOf(env, val), WorldOf(st))
  {
    var s := VisitExpr(e, st);
    OneMoreEntry(s.scopes, Plain(Negated(e.id)), val);
  }

  /**
    Under a truthful solver, in a stack that is true, a visit comes to what executing the statement
    under the valuation gives: store, switch, reports and branch count.
   */
  lemma {:induction false} VisitMeans(stmt: Stmt, st: State, env: Setting, val: int -> int)
    requires Sound(st, env, val)
    ensures WorldOf(Visit(stmt, st, env)) == Exec(stmt, FactsOf(env, val), WorldOf(st))
    decreases stmt, 2
  {
    if !st.ignore {
      match stmt
      case ExpressionStmt(e) => ExprMeans(e, st);
      case Block(stmts) => AllMean(stmts, st, env, val);
      case Conditional(cond) => ConditionalMeans(stmt, st, env, val);
      case ForLoop(init, cond, body, incr) => ForMeans(stmt, st, env, val);
      case WhileLoop(cond, body) => WhileMeans(stmt, st, env, val);
      case DoWhileLoop(body, cond) => DoWhileMeans(stmt, st, env, val);
      case CaseStmt(e, items) => CaseMeans(stmt, st, env, val);
      case ProceduralAssign(left, right, target, text) => AssignMeans(stmt, st, env, val);
      case Immediate(cond, conversion, ifTrue, ifFalse) => ImmediateMeans(stmt, st, env, val);
      case Concurrent(expr, conversion) => ConcurrentMeans(stmt, st, env, val);
      case OtherStmt =>
    }
  }

  lemma ConditionalMeans(stmt: Stmt, st: State, env: Setting, val: int -> int)
    requires Sound(st, env, val) && !st.ignore && stmt.Conditional?
    ensures WorldOf(Visit(stmt, st, env)) == Exec(stmt, FactsOf(env, val), WorldOf(st))
  {
    if stmt.cond.Some? {
      GuardMeans(Count(st), stmt.cond.value, Holds(stmt.cond.value.id), env, val);
    }
  }

  lemma AssignMeans(stmt: Stmt, st: State, env: Setting, val: int -> int)
    requires Sound(st, env, val) && !st.ignore && stmt.ProceduralAssign?
    ensures WorldOf(Visit(stmt, st, env)) == Exec(stmt, FactsOf(env, val), WorldOf(st))
  {
    var s1 := VisitExpr(stmt.left, st);
    ExprMeans(stmt.left, st);
    ExprMeans(stmt.right, s1);
  }

  lemma ConcurrentMeans(stmt: Stmt, st: State, env: Setting, val: int -> int)
    requires Sound(st, env, val) && !st.ignore && stmt.Concurrent?
    ensures WorldOf(Visit(stmt, st, env)) == Exec(stmt, FactsOf(env, val), WorldOf(st))
  {
    if stmt.expr.Some? {
      CheckMeans(stmt.expr.value, stmt.conversion, st, env, val);
    }
  }

  lemma {:induction false} DoWhileMeans(stmt: Stmt, st: State, env: Setting, val: int -> int)
    requires Sound(st, env, val) && !st.ignore && stmt.DoWhileLoop?
    ensures WorldOf(Visit(stmt, st, env)) == Exec(stmt, FactsOf(env, val), WorldOf(st))
    decreases stmt, 1
  {
    OptionalMeans(stmt.body, Count(st), env, val);
  }

  lemma {:induction false} CaseMeans(stmt: Stmt, st: State, env: Setting, val: int -> int)
    requires Sound(st, env, val) && !st.ignore && stmt.CaseStmt?
    ensures WorldOf(Visit(stmt, st, env)) == Exec(stmt, FactsOf(env, val), WorldOf(st))
    decreases stmt, 1
  {
    ItemsMean(stmt.e, stmt.items, VisitExpr(stmt.e, Count(st)), env, val);
  }

  lemma {:induction false} OptionalMeans(stmt: Option<Stmt>, st: State, env: Setting, val: int -> int)
    requires Sound(st, env, val)
    ensures WorldOf(VisitOptional(stmt, st, env)) == ExecOptional(stmt, FactsOf(env, val), WorldOf(st))
    decreases stmt, 0
  {
    if stmt.Some? {
      VisitMeans(stmt.value, st, env, val);
    }
  }

  lemma {:induction false} ForMeans(stmt: Stmt, st: State, env: Setting, val: int -> int)
    requires Sound(st, env, val) && !st.ignore && stmt.ForLoop?
    ensures WorldOf(Visit(stmt, st, env)) == Exec(stmt, FactsOf(env, val), WorldOf(st))
    decreases stmt, 1
  {
    var s1 := VisitOptional(stmt.init, st, env);
    var s2 := VisitOptionalExpr(stmt.cond, s1);
    OptionalMeans(stmt.init, st, env, val);
    OptionalMeans(stmt.body, s2, env, val);
    OptionalMeans(stmt.incr, VisitOptional(stmt.body, s2, env), env, val);
  }

  lemma {:induction false} WhileMeans(stmt: Stmt, st: State, env: Setting, val: int -> int)
    requires Sound(st, env, val) && !st.ignore && stmt.WhileLoop?
    ensures WorldOf(Visit(stmt, st, env)) == Exec(stmt, FactsOf(env, val), WorldOf(st))
    decreases stmt, 1
  {
    if stmt.cond.None? {
      OptionalMeans(stmt.body, Count(st), env, val);
    } else {
      var e := stmt.cond.value;
      var c := WhileGuard(e, env);
      GuardMeans(Count(st), e, c, env, val);
      assert IsTrue(c, val) <==> env.direction == (val(e.id) != 0);
      if IsTrue(c, val) {
        OptionalMeans(stmt.body, Guard(VisitExpr(e, Count(st)), c), env, val);
      } else {
        OffStays(stmt.body, FactsOf(env, val), Off(ExecExpr(e, Branch(WorldOf(st)))));
      }
    }
  }

  lemma {:induction false} ImmediateMeans(stmt: Stmt, st: State, env: Setting, val: int -> int)
    requires Sound(st, env, val) && !st.ignore && stmt.Immediate?
    ensures WorldOf(Visit(stmt, st, env)) == Exec(stmt, FactsOf(env, val), WorldOf(st))
    decreases stmt, 1
  {
    if stmt.cond.Some? {
      var s := Check(stmt.cond.value, stmt.conversion, st, env);
      CheckMeans(stmt.cond.value, stmt.conversion, st, env, val);
      OptionalMeans(stmt.ifTrue, s, env, val);
      OptionalMeans(stmt.ifFalse, VisitOptional(stmt.ifTrue, s, env), env, val);
    }
  }

  lemma {:induction false} AllMean(stmts: seq<Stmt>, st: State, env: Setting, val: int -> int)
    requires Sound(st, env, val)
    ensures WorldOf(VisitAll(stmts, st, env)) == ExecAll(stmts, FactsOf(env, val), WorldOf(st))
    decreases stmts, 0
  {
    if stmts != [] {
      VisitMeans(stmts[0], st, env, val);
      AllMean(stmts[1..], Visit(stmts[0], st, env), env, val);
    }
  }

  lemma {:induction false} LabelsMean(subject: Expr, item: CaseItem, i: nat, st: State, env: Setting, val: int -> int)
    requires i <= |item.labels| && Sound(st, env, val)
    ensures var (r, on) := VisitLabels(subject, item, i, st, env);
      (WorldOf(r), on) == ExecLabels(subject, item, i, FactsOf(env, val), WorldOf(st))
    decreases item, 0, |item.labels| - i
  {
    if i < |item.labels| {
      var pattern := item.labels[i];
      var c := CaseGuard(subject, pattern, env);
      var g := Guard(VisitExpr(pattern, st), c);
      GuardMeans(st, pattern, c, env, val);
      assert IsTrue(c, val) <==> LabelFits(subject, pattern, FactsOf(env, val));
      if IsTrue(c, val) {
        AllMean(item.body, g, env, val);
        LabelsMean(subject, item, i + 1, Pop(VisitAll(item.body, g, env)), env, val);
      }
    }
  }

  lemma {:induction false} ItemsMean(subject: Expr, items: seq<CaseItem>, st: State, env: Setting, val: int -> int)
    requires Sound(st, env, val)
    ensures WorldOf(VisitItems(subject, items, st, env)) == ExecItems(subject, items, FactsOf(env, val), WorldOf(st))
    decreases items, 1
  {
    if items != [] {
      var (next, on) := VisitLabels(subject, items[0], 0, st, env);
      LabelsMean(subject, items[0], 0, st, env, val);
      if on {
        ItemsMean(subject, items[1..], next, env, val);
      }
    }
  }

  // ---------- single guards ----------

  /** The visitor is switched off, and nothing else has happened. */
  ghost predicate Refuses(stmt: Stmt, st: State, env: Setting) {
    var r := Visit(stmt, st, env);
    r.ignore && r.abandon && r.store == st.store && r.violated == st.violated
  }

  lemma OneLabel(subject: Expr, item: CaseItem, f: Facts, w: World)
    requires |item.labels| == 1 && item.labels[0].Pure?
    ensures ExecItems(subject, [item], f, w) ==
              if LabelFits(subject, item.labels[0], f)
              then ExecAll(item.body, f, w) else Off(w)
  {
    assert [item][1..] == [];
    assert ExecLabels(subject, item, 1, f, ExecAll(item.body, f, w))
        == (ExecAll(item.body, f, w), true);
  }

  /** A case label with a body, in a visit that is on: the body is executed exactly if the label fits. */
  lemma CaseLabelVisited(stmt: Stmt, subject: Expr, item: CaseItem, st: State, env: Setting, val: int -> int)
    requires Sound(st, env, val) && !st.ignore && stmt == CaseStmt(subject, [item])
    requires |item.labels| == 1 && item.labels[0].Pure? && subject.Pure?
    ensures if LabelFits(subject, item.labels[0], FactsOf(env, val))
            then WorldOf(Visit(stmt, st, env)) == ExecAll(item.body, FactsOf(env, val), Branch(WorldOf(st)))
            else Refuses(stmt, st, env)
  {
    VisitMeans(stmt, st, env, val);
    OneLabel(subject, item, FactsOf(env, val), Branch(WorldOf(st)));
    assert Exec(stmt, FactsOf(env, val), WorldOf(st))
        == ExecItems(subject, [item], FactsOf(env, val), Branch(WorldOf(st)));
  }

  /** Both are formulas, and the subject is no truth value. */
  predicate Comparable(subject: Expr, pattern: Expr, env: Setting) {
    var s, p := env.sort(subject.id), env.sort(pattern.id);
    s != Truth && s != Unconverted && p != Unconverted
  }

  /**
    Then the body is executed exactly if subject and label have equal values in direction true, and
    different ones in direction false.
   */
  lemma CaseLabelExactly(stmt: Stmt, subject: Expr, item: CaseItem, st: State, env: Setting, val: int -> int)
    requires Sound(st, env, val) && !st.ignore && stmt == CaseStmt(subject, [item])
    requires |item.labels| == 1 && item.labels[0].Pure? && subject.Pure? && Comparable(subject, item.labels[0], env)
    ensures if env.direction == (val(subject.id) == val(item.labels[0].id))
            then WorldOf(Visit(stmt, st, env)) == ExecAll(item.body, FactsOf(env, val), Branch(WorldOf(st)))
            else Refuses(stmt, st, env)
  {
    CaseLabelVisited(stmt, subject, item, st, env, val);
  }

  ghost predicate AlwaysCompared(subject: Expr, pattern: Expr, env: Setting) {
    forall val: int -> int ::
      LabelFits(subject, pattern, FactsOf(env, val)) <==> env.direction == (val(subject.id) == val(pattern.id))
  }

  /** A label counts for what it is exactly for those, or where there is nothing to tell apart. */
  lemma LabelsComparedExactly(subject: Expr, pattern: Expr, env: Setting)
    ensures AlwaysCompared(subject, pattern, env) <==>
              Comparable(subject, pattern, env)
              || (env.sort(subject.id) == Unconverted && subject.id == pattern.id && env.direction)
  {
    if AlwaysCompared(subject, pattern, env) {
      Witness(subject, pattern, env, (e: int) => 0);
      Witness(subject, pattern, env, (e: int) => 1);
      Witness(subject, pattern, env, (e: int) => if e == subject.id then 1 else 0);
      Witness(subject, pattern, env, (e: int) => if e == subject.id then 0 else 1);
      Witness(subject, pattern, env, (e: int) => if e == subject.id then 2 else 1);
    }
  }

  lemma Witness(subject: Expr, pattern: Expr, env: Setting, val: int -> int)
    requires AlwaysCompared(subject, pattern, env)
    ensures LabelFits(subject, pattern, FactsOf(env, val)) <==> env.direction == (val(subject.id) == val(pattern.id))
  {
  }

  /** A while loop likewise: its body is executed once, exactly if its condition holds as the direction says. */
  lemma WhileExactly(stmt: Stmt, cond: Expr, body: Stmt, st: State, env: Setting, val: int -> int)
    requires Sound(st, env, val) && !st.ignore && stmt == WhileLoop(Some(cond), Some(body)) && cond.Pure?
    ensures if env.direction == (val(cond.id) != 0)
            then WorldOf(Visit(stmt, st, env)) == Exec(body, FactsOf(env, val), Branch(WorldOf(st)))
            else Refuses(stmt, st, env)
  {
    VisitMeans(stmt, st, env, val);
    OffStays(Some(body), FactsOf(env, val), Off(Branch(WorldOf(st))));
    assert Exec(stmt, FactsOf(env, val), WorldOf(st))
        == ExecOptional(Some(body), FactsOf(env, val), Test(env.direction == (val(cond.id) != 0), Branch(WorldOf(st))));
  }

  /** A conditional goes on exactly if its condition holds, also on the path on which it does not. */
  lemma ConditionalExactly(stmt: Stmt, cond: Expr, st: State, env: Setting, val: int -> int)
    requires Sound(st, env, val) && !st.ignore && stmt == Conditional(Some(cond)) && cond.Pure?
    ensures if val(cond.id) != 0 then !Visit(stmt, st, env).ignore else Refuses(stmt, st, env)
  {
    VisitMeans(stmt, st, env, val);
    assert Exec(stmt, FactsOf(env, val), WorldOf(st)) == Test(val(cond.id) != 0, Branch(WorldOf(st)));
  }

  // ---------- branches counted, for any solver ----------

  /** The branching statements that a statement holds, a case item's body once for each label. */
  function Branches(stmt: Stmt): nat
    decreases stmt, 2
  {
    match stmt
    case Block(stmts) => BranchesAll(stmts)
    case Conditional(_) => 1
    case ForLoop(init, _, body, incr) => BranchesOptional(init) + BranchesOptional(body) + BranchesOptional(incr)
    case WhileLoop(_, body) => 1 + BranchesOptional(body)
    case DoWhileLoop(body, _) => 1 + BranchesOptional(body)
    case CaseStmt(_, items) => 1 + BranchesItems(items)
    case Immediate(cond, conversion, ifTrue, ifFalse) =>
      if cond.Some? && conversion.Formula? then BranchesOptional(ifTrue) + BranchesOptional(ifFalse) else 0
    case _ => 0
  }

  function BranchesOptional(stmt: Option<Stmt>): nat
    decreases stmt, 0
  {
    if stmt.Some? then Branches(stmt.value) else 0
  }

  function BranchesAll(stmts: seq<Stmt>): nat
    decreases stmts, 0
  {
    if stmts == [] then 0 else Branches(stmts[0]) + BranchesAll(stmts[1..])
  }

  function BranchesItems(items: seq<CaseItem>): nat
    decreases items, 1
  {
    if items == [] then 0 else BranchesLabels(items[0], 0) + BranchesItems(items[1..])
  }

  function BranchesLabels(item: CaseItem, i: nat): nat
    requires i <= |item.labels|
    decreases item, 0, |item.labels| - i
  {
    if i == |item.labels| then 0 else BranchesAll(item.body) + BranchesLabels(item, i + 1)
  }

  /** So many were counted on the way from a to b, or fewer if the visitor was switched off. */
  ghost predicate Counted(a: State, b: State, n: nat) {
    && a.branchCount <= b.branchCount <= a.branchCount + n
    && (!b.ignore ==> !a.ignore && b.branchCount == a.branchCount + n)
  }

  lemma CountedOn(a: State, b: State, c: State, m: nat, n: nat)
    requires Counted(a, b, m) && Counted(b, c, n)
    ensures Counted(a, c, m + n)
  {
  }

  lemma CountedGuard(st: State, e: Expr, c: Constraint)
    ensures var g := Guard(VisitExpr(e, st), c);
      Counted(st, g, 0) && SwitchOff(g).ignore && SwitchOff(g).branchCount == st.branchCount
  {
  }

  /** Whatever the solver answers: a visit that is not switched off counts every branching statement. */
  lemma {:induction false} BranchesCounted(stmt: Stmt, st: State, env: Setting)
    ensures Counted(st, Visit(stmt, st, env), Branches(stmt))
    decreases stmt, 2
  {
    if !st.ignore {
      match stmt
      case Block(stmts) => CountedAll(stmts, st, env);
      case Conditional(cond) =>
        if cond.Some? {
          CountedGuard(Count(st), cond.value, Holds(cond.value.id));
        }
      case ForLoop(init, cond, body, incr) => CountedFor(stmt, st, env);
      case WhileLoop(cond, body) => CountedWhile(stmt, st, env);
      case DoWhileLoop(body, cond) => CountedOptional(body, Count(st), env);
      case CaseStmt(e, items) => CountedItems(e, items, VisitExpr(e, Count(st)), env);
      case Immediate(cond, conversion, ifTrue, ifFalse) => CountedImmediate(stmt, st, env);
      case _ =>
    }
  }

  lemma {:induction false} CountedOptional(stmt: Option<Stmt>, st: State, env: Setting)
    ensures Counted(st, VisitOptional(stmt, st, env), BranchesOptional(stmt))
    decreases stmt, 0
  {
    if stmt.Some? {
      BranchesCounted(stmt.value, st, env);
    }
  }

  lemma {:induction false} CountedFor(stmt: Stmt, st: State, env: Setting)
    requires !st.ignore && stmt.ForLoop?
    ensures Counted(st, Visit(stmt, st, env), Branches(stmt))
    decreases stmt, 1
  {
    var s1 := VisitOptionalExpr(stmt.cond, VisitOptional(stmt.init, st, env));
    var s2 := VisitOptional(stmt.body, s1, env);
    CountedOptional(stmt.init, st, env);
    CountedOptional(stmt.body, s1, env);
    CountedOptional(stmt.incr, s2, env);
    CountedOn(st, s1, s2, BranchesOptional(stmt.init), BranchesOptional(stmt.body));
  }

  lemma {:induction false} CountedImmediate(stmt: Stmt, st: State, env: Setting)
    requires !st.ignore && stmt.Immediate?
    ensures Counted(st, Visit(stmt, st, env), Branches(stmt))
    decreases stmt, 1
  {
    if stmt.cond.Some? && stmt.conversion.Formula? {
      var s := Check(stmt.cond.value, stmt.conversion, st, env);
      CountedOptional(stmt.ifTrue, s, env);
      CountedOptional(stmt.ifFalse, VisitOptional(stmt.ifTrue, s, env), env);
    }
  }

  lemma {:induction false} CountedWhile(stmt: Stmt, st: State, env: Setting)
    requires !st.ignore && stmt.WhileLoop?
    ensures Counted(st, Visit(stmt, st, env), Branches(stmt))
    decreases stmt, 1
  {
    if stmt.cond.None? {
      CountedOptional(stmt.body, Count(st), env);
    } else {
      var c := WhileGuard(stmt.cond.value, env);
      CountedGuard(Count(st), stmt.cond.value, c);
      CountedOptional(stmt.body, Guard(VisitExpr(stmt.cond.value, Count(st)), c), env);
    }
  }

  lemma {:induction false} CountedAll(stmts: seq<Stmt>, st: State, env: Setting)
    ensures Counted(st, VisitAll(stmts, st, env), BranchesAll(stmts))
    decreases stmts, 0
  {
    if stmts != [] {
      var s := Visit(stmts[0], st, env);
      BranchesCounted(stmts[0], st, env);
      CountedAll(stmts[1..], s, env);
      CountedOn(st, s, VisitAll(stmts[1..], s, env), Branches(stmts[0]), BranchesAll(stmts[1..]));
    }
  }

  lemma {:induction false} CountedLabels(subject: Expr, item: CaseItem, i: nat, st: State, env: Setting)
    requires i <= |item.labels|
    ensures var (r, on) := VisitLabels(subject, item, i, st, env);
      Counted(st, r, BranchesLabels(item, i)) && (!on ==> r.ignore)
    decreases item, 0, |item.labels| - i
  {
    if i < |item.labels| {
      var n, c := BranchesAll(item.body), CaseGuard(subject, item.labels[i], env);
      var g := Guard(VisitExpr(item.labels[i], st), c);
      CountedGuard(st, item.labels[i], c);
      if env.sat(g.scopes) {
        var s := Pop(VisitAll(item.body, g, env));
        CountedAll(item.body, g, env);
        assert Counted(st, s, n);
        CountedLabels(subject, item, i + 1, s, env);
        CountedOn(st, s, VisitLabels(subject, item, i + 1, s, env).0, n, BranchesLabels(item, i + 1));
      }
    }
  }

  lemma {:induction false} CountedItems(subject: Expr, items: seq<CaseItem>, st: State, env: Setting)
    ensures Counted(st, VisitItems(subject, items, st, env), BranchesItems(items))
    decreases items, 1
  {
    if items != [] {
      var (next, on) := VisitLabels(subject, items[0], 0, st, env);
      CountedLabels(subject, items[0], 0, st, env);
      if on {
        CountedItems(subject, items[1..], next, env);
        CountedOn(st, next, VisitItems(subject, items[1..], next, env),
                  BranchesLabels(items[0], 0), BranchesItems(items[1..]));
      }
    }
  }
}
