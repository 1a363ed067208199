/**
  `SymbolicDFS.visit_stmt` and the assertion handlers of `helpers/slang_helpers.py` as a function on
  states: a recursive visitor that opens and closes solver scopes, numbers its tracked guards, and
  can switch itself off. The solver is any predicate on its scope stack.
 */
module StatementVisits {
  import opened Wrappers

  /** An expression has a formula, known by its number, and may be an assignment to a name. */
  datatype Expr = Pure(id: int) | Assigns(id: int, lhs: string, text: string)

  /** What converting an assertion's condition gives: an exception, None, no Z3 formula, or a formula. */
  datatype Conversion = Raises | Nothing | NoFormula | Formula

  datatype CaseItem = CaseItem(labels: seq<Expr>, body: seq<Stmt>)

  datatype Stmt =
    | ExpressionStmt(e: Expr)
    | Block(stmts: seq<Stmt>)
    | Conditional(cond: Option<Expr>)
    | ForLoop(init: Option<Stmt>, cond: Option<Expr>, body: Option<Stmt>, incr: Option<Stmt>)
    | WhileLoop(cond: Option<Expr>, body: Option<Stmt>)
    | DoWhileLoop(body: Option<Stmt>, cond: Option<Expr>)
    | CaseStmt(e: Expr, items: seq<CaseItem>)
    | ProceduralAssign(left: Expr, right: Expr, target: Option<string>, text: string)
    | Immediate(cond: Option<Expr>, conversion: Conversion, ifTrue: Option<Stmt>, ifFalse: Option<Stmt>)
    | Concurrent(expr: Option<Expr>, conversion: Conversion)
    | OtherStmt

  // ---------- the solver ----------

  /** What is asserted: a condition as it stands, negated, or as the guard of a case label. */
  datatype Constraint =
    | Holds(e: int)
    | Negated(e: int)
    | Matches(subject: int, pattern: int)
    | Differs(subject: int, pattern: int)
    | Always

  /** What a scope holds: tracked guards with their label, and the plain negation an assertion is checked by. */
  datatype Entry = Tracked(tag: nat, c: Constraint) | Plain(c: Constraint)

  type Scopes = seq<seq<Entry>>

  /** The sort of an expression's formula; Unconverted is no formula at all. */
  datatype Sort = Truth | BitVector | OtherSort | Unconverted

  /** The answers of the solver, the branch direction of this visit, and the sorts of the formulas. */
  datatype Setting = Setting(sat: Scopes -> bool, direction: bool, sort: int -> Sort)

  /**
    `asked` lists the scope stacks the solver was asked about, and `writes` counts assignments to the
    store; `frozen` and `written` are the store and that count when `ignore` was set.
   */
  datatype State = State(
    scopes: Scopes, counter: nat, ignore: bool, abandon: bool, branchCount: nat, violated: seq<int>,
    store: map<string, string>, writes: nat, asked: seq<Scopes>, frozen: map<string, string>, written: nat)

  function Count(st: State): State {
    st.(branchCount := st.branchCount + 1)
  }

  function Write(st: State, lhs: string, text: string): State {
    st.(store := st.store[lhs := text], writes := st.writes + 1)
  }

  /** Ask about the open scopes and one more, which holds these entries. */
  function Ask(st: State, entries: seq<Entry>): State {
    st.(asked := st.asked + [st.scopes + [entries]])
  }

  /** Open a scope holding one entry and ask. */
  function Open(st: State, e: Entry): (r: State)
    ensures r.scopes == st.scopes + [[e]] && r.asked == st.asked + [r.scopes]
  {
    Ask(st, [e]).(scopes := st.scopes + [[e]])
  }

  /** Open a scope, count, ask once before the guard is tracked under the new count, and once after. */
  function Guard(st: State, c: Constraint): (r: State)
    ensures |r.scopes| == |st.scopes| + 1 && r.scopes[..|st.scopes|] == st.scopes
  {
    Open(Ask(st.(counter := st.counter + 1), []), Tracked(st.counter + 1, c))
  }

  function Pop(st: State): State
    requires st.scopes != []
  {
    st.(scopes := st.scopes[..|st.scopes| - 1])
  }

  /** An unsatisfiable guard: close its scope and switch the visitor off. */
  function SwitchOff(st: State): State
    requires st.scopes != []
  {
    var off := Pop(st).(abandon := true, ignore := true);
    if st.ignore then off else off.(frozen := st.store, written := st.writes)
  }

  // ---------- visiting ----------

  function VisitExpr(e: Expr, st: State): State {
    if e.Assigns? then Write(st, e.lhs, e.text) else st
  }

  function VisitOptionalExpr(e: Option<Expr>, st: State): State {
    if e.Some? then VisitExpr(e.value, st) else st
  }

  /** The common part of the assertion handlers: a scope of its own for the negated condition. */
  function Check(e: Expr, conversion: Conversion, st: State, env: Setting): (r: State)
    ensures r.scopes == st.scopes
  {
    var st := VisitExpr(e, st);
    if !conversion.Formula? then st
    else
      var q := Open(st, Plain(Negated(e.id)));
      Pop(if env.sat(q.scopes) then q.(violated := q.violated + [e.id]) else q)
  }

  /** The guard of a conditional is asserted as it stands, whatever the direction, and popped at once. */
  function VisitConditional(e: Expr, st: State, env: Setting): (r: State)
    ensures r.scopes == st.scopes
  {
    var g := Guard(VisitExpr(e, st), Holds(e.id));
    if env.sat(g.scopes) then Pop(g) else SwitchOff(g)
  }

  function WhileGuard(e: Expr, env: Setting): Constraint {
    if env.direction then Holds(e.id) else Negated(e.id)
  }

  /** A subject that is a truth value, or a label without a formula, takes the label out of the guard. */
  function CaseGuard(subject: Expr, pattern: Expr, env: Setting): Constraint {
    var sort, labelled := env.sort(subject.id), !env.sort(pattern.id).Unconverted?;
    if sort.Unconverted? then Always
    else if sort.Truth? || (sort.BitVector? && !labelled) then
      if env.direction then Holds(subject.id) else Negated(subject.id)
    else if !labelled then Always
    else if env.direction then Matches(subject.id, pattern.id) else Differs(subject.id, pattern.id)
  }

  /** `visit_stmt`. Every visit leaves the scope stack as it found it. */
  function Visit(stmt: Stmt, st: State, env: Setting): (r: State)
    ensures r.scopes == st.scopes
    decreases stmt, 2
  {
    if st.ignore then st
    else
      match stmt
      case ExpressionStmt(e) => VisitExpr(e, st)
      case Block(stmts) => VisitAll(stmts, st, env)
      case Conditional(cond) => if cond.Some? then VisitConditional(cond.value, Count(st), env) else Count(st)
      case ForLoop(init, cond, body, incr) =>
        var st := VisitOptionalExpr(cond, VisitOptional(init, st, env));
        VisitOptional(incr, VisitOptional(body, st, env), env)
      case WhileLoop(cond, body) =>
        if cond.None? then VisitOptional(body, Count(st), env)
        else VisitGuarded(cond.value, body, Count(st), env)
      case DoWhileLoop(body, cond) => VisitOptionalExpr(cond, VisitOptional(body, Count(st), env))
      case CaseStmt(e, items) => VisitItems(e, items, VisitExpr(e, Count(st)), env)
      case ProceduralAssign(left, right, target, text) =>
        var st := VisitExpr(right, VisitExpr(left, st));
        if target.Some? then Write(st, target.value, text) else st
      case Immediate(cond, conversion, ifTrue, ifFalse) =>
        if cond.None? then st
        else
          var st := Check(cond.value, conversion, st, env);
          if conversion.Formula? then VisitOptional(ifFalse, VisitOptional(ifTrue, st, env), env) else st
      case Concurrent(expr, conversion) => if expr.Some? then Check(expr.value, conversion, st, env) else st
      case OtherStmt => st
  }

  /** The guard's scope stays open while the body is visited. */
  function VisitGuarded(cond: Expr, body: Option<Stmt>, st: State, env: Setting): (r: State)
    ensures r.scopes == st.scopes
    decreases body, 1
  {
    var g := Guard(VisitExpr(cond, st), WhileGuard(cond, env));
    if env.sat(g.scopes) then Pop(VisitOptional(body, g, env)) else SwitchOff(g)
  }

  function VisitOptional(stmt: Option<Stmt>, st: State, env: Setting): (r: State)
    ensures r.scopes == st.scopes
    decreases stmt, 0
  {
    if stmt.Some? then Visit(stmt.value, st, env) else st
  }

  function VisitAll(stmts: seq<Stmt>, st: State, env: Setting): (r: State)
    ensures r.scopes == st.scopes
    decreases stmts, 0
  {
    if stmts == [] then st else VisitAll(stmts[1..], Visit(stmts[0], st, env), env)
  }

  /** The labels of one case item from the i-th on: each guards a visit of the body; false stops the statement. */
  function VisitLabels(subject: Expr, item: CaseItem, i: nat, st: State, env: Setting): (r: (State, bool))
    requires i <= |item.labels|
    ensures r.0.scopes == st.scopes
    decreases item, 0, |item.labels| - i
  {
    if i == |item.labels| then (st, true)
    else
      var pattern := item.labels[i];
      var g := Guard(VisitExpr(pattern, st), CaseGuard(subject, pattern, env));
      if env.sat(g.scopes) then VisitLabels(subject, item, i + 1, Pop(VisitAll(item.body, g, env)), env)
      else (SwitchOff(g), false)
  }

  function VisitItems(subject: Expr, items: seq<CaseItem>, st: State, env: Setting): (r: State)
    ensures r.scopes == st.scopes
    decreases items, 1
  {
    if items == [] then st
    else
      var (next, on) := VisitLabels(subject, items[0], 0, st, env);
      if on then VisitItems(subject, items[1..], next, env) else next
  }

  // ---------- the script of a statement ----------

  /** An assignment, the question before a guard is tracked, or a question about one constraint. */
  datatype Action = Assign(lhs: string, text: string) | Probe | Question(c: Constraint, tracked: bool)

  function ExprScript(e: Expr): seq<Action> {
    if e.Assigns? then [Assign(e.lhs, e.text)] else []
  }

  function OptionalExprScript(e: Option<Expr>): seq<Action> {
    if e.Some? then ExprScript(e.value) else []
  }

  function GuardScript(e: Expr, c: Constraint): seq<Action> {
    ExprScript(e) + [Probe, Question(c, true)]
  }

  function CheckScript(e: Expr, conversion: Conversion): seq<Action> {
    ExprScript(e) + (if conversion.Formula? then [Question(Negated(e.id), false)] else [])
  }

  /** What a statement does when no guard is refused, read off the statement alone. */
  function Script(stmt: Stmt, env: Setting): seq<Action>
    decreases stmt, 2
  {
    match stmt
    case ExpressionStmt(e) => ExprScript(e)
    case Block(stmts) => ScriptAll(stmts, env)
    case Conditional(cond) => if cond.Some? then GuardScript(cond.value, Holds(cond.value.id)) else []
    case ForLoop(init, cond, body, incr) =>
      ScriptOptional(init, env) + OptionalExprScript(cond) + (ScriptOptional(body, env) + ScriptOptional(incr, env))
    case WhileLoop(cond, body) =>
      (if cond.Some? then GuardScript(cond.value, WhileGuard(cond.value, env)) else []) + ScriptOptional(body, env)
    case DoWhileLoop(body, cond) => ScriptOptional(body, env) + OptionalExprScript(cond)
    case CaseStmt(e, items) => ExprScript(e) + ScriptItems(e, items, env)
    case ProceduralAssign(left, right, target, text) =>
      ExprScript(left) + ExprScript(right) + (if target.Some? then [Assign(target.value, text)] else [])
    case Immediate(cond, conversion, ifTrue, ifFalse) =>
      var action := if conversion.Formula? then ScriptOptional(ifTrue, env) + ScriptOptional(ifFalse, env) else [];
      if cond.None? then [] else CheckScript(cond.value, conversion) + action
    case Concurrent(expr, conversion) => if expr.Some? then CheckScript(expr.value, conversion) else []
    case OtherStmt => []
  }

  function ScriptOptional(stmt: Option<Stmt>, env: Setting): seq<Action>
    decreases stmt, 0
  {
    if stmt.Some? then Script(stmt.value, env) else []
  }

  function ScriptAll(stmts: seq<Stmt>, env: Setting): seq<Action>
    decreases stmts, 0
  {
    if stmts == [] then [] else Script(stmts[0], env) + ScriptAll(stmts[1..], env)
  }

  function ScriptLabels(subject: Expr, item: CaseItem, i: nat, env: Setting): seq<Action>
    requires i <= |item.labels|
    decreases item, 0, |item.labels| - i
  {
    if i == |item.labels| then []
    else
      GuardScript(item.labels[i], CaseGuard(subject, item.labels[i], env)) + ScriptAll(item.body, env)
      + ScriptLabels(subject, item, i + 1, env)
  }

  function ScriptItems(subject: Expr, items: seq<CaseItem>, env: Setting): seq<Action>
    decreases items, 1
  {
    if items == [] then [] else ScriptLabels(subject, items[0], 0, env) + ScriptItems(subject, items[1..], env)
  }

  /** The store after the assignments of a script. */
  function Play(script: seq<Action>, store: map<string, string>): map<string, string> {
    if script == [] then store
    else Play(script[1..], if script[0].Assign? then store[script[0].lhs := script[0].text] else store)
  }

  function Questions(script: seq<Action>): seq<Action> {
    if script == [] then []
    else (if script[0].Assign? then [] else [script[0]]) + Questions(script[1..])
  }

  /** The number of guards. */
  function Tally(script: seq<Action>): nat {
    if script == [] then 0
    else (if script[0].Question? && script[0].tracked then 1 else 0) + Tally(script[1..])
  }
}
