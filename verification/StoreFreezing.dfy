/**
  What the visitor writes after a guard has switched it off. `visit_stmt` looks at `ignore` on entry
  only, while `visit_expr` never looks at it: the statements for which the store stays frozen in
  every state and under every solver are described exactly.
 */
module StoreFreezing {
  import opened Wrappers
  import opened StatementVisits
  import opened VisitReports

  // ---------- the guards of a statement ----------

  function Guards(stmt: Stmt): nat
    decreases stmt, 2
  {
    match stmt
    case Block(stmts) => GuardsAll(stmts)
    case Conditional(cond) => if cond.Some? then 1 else 0
    case ForLoop(init, _, body, incr) => GuardsOptional(init) + (GuardsOptional(body) + GuardsOptional(incr))
    case WhileLoop(cond, body) => (if cond.Some? then 1 else 0) + GuardsOptional(body)
    case DoWhileLoop(body, _) => GuardsOptional(body)
    case CaseStmt(_, items) => GuardsItems(items)
    case Immediate(cond, conversion, ifTrue, ifFalse) =>
      if cond.Some? && conversion.Formula? then GuardsOptional(ifTrue) + GuardsOptional(ifFalse) else 0
    case _ => 0
  }

  function GuardsOptional(stmt: Option<Stmt>): nat
    decreases stmt, 0
  {
    if stmt.Some? then Guards(stmt.value) else 0
  }

  function GuardsAll(stmts: seq<Stmt>): nat
    decreases stmts, 0
  {
    if stmts == [] then 0 else Guards(stmts[0]) + GuardsAll(stmts[1..])
  }

  function GuardsLabels(item: CaseItem, i: nat): nat
    requires i <= |item.labels|
    decreases item, 0, |item.labels| - i
  {
    if i == |item.labels| then 0 else 1 + GuardsAll(item.body) + GuardsLabels(item, i + 1)
  }

  function GuardsItems(items: seq<CaseItem>): nat
    decreases items, 1
  {
    if items == [] then 0 else GuardsLabels(items[0], 0) + GuardsItems(items[1..])
  }

  lemma TallyConcat(p: seq<Action>, q: seq<Action>)
    ensures Tally(p + q) == Tally(p) + Tally(q)
  {
    ScriptConcat(p, q, map[]);
  }

  lemma TallyExpr(e: Expr)
    ensures Tally(ExprScript(e)) == 0
  {
    assert e.Assigns? ==> ExprScript(e)[1..] == [];
  }

  lemma TallyGuard(e: Expr, c: Constraint)
    ensures Tally(GuardScript(e, c)) == 1
  {
    var ask := [Probe, Question(c, true)];
    TallyExpr(e);
    TallyConcat(ExprScript(e), ask);
    assert ask[1..] == [Question(c, true)] && ask[1..][1..] == [];
  }

  lemma TallyCheck(e: Expr, conversion: Conversion)
    ensures Tally(CheckScript(e, conversion)) == 0
  {
    var ask := if conversion.Formula? then [Question(Negated(e.id), false)] else [];
    TallyExpr(e);
    TallyConcat(ExprScript(e), ask);
    assert ask != [] ==> ask[1..] == [];
  }

  /** The script asks about exactly these guards. */
  lemma {:induction false} TallyScript(stmt: Stmt, env: Setting)
    ensures Tally(Script(stmt, env)) == Guards(stmt)
    decreases stmt, 2
  {
    match stmt
    case ExpressionStmt(e) => TallyExpr(e);
    case Block(stmts) => TallyAll(stmts, env);
    case Conditional(cond) =>
      if cond.Some? {
        TallyGuard(cond.value, Holds(cond.value.id));
      }
    case ForLoop(init, cond, body, incr) => TallyFor(stmt, env);
    case WhileLoop(cond, body) =>
      var p := if cond.Some? then GuardScript(cond.value, WhileGuard(cond.value, env)) else [];
      if cond.Some? {
        TallyGuard(cond.value, WhileGuard(cond.value, env));
      }
      TallyOptional(body, env);
      TallyConcat(p, ScriptOptional(body, env));
    case DoWhileLoop(body, cond) =>
      TallyOptional(body, env);
      TallyOptionalExpr(cond);
      TallyConcat(ScriptOptional(body, env), OptionalExprScript(cond));
    case CaseStmt(e, items) =>
      TallyExpr(e);
      TallyItems(e, items, env);
      TallyConcat(ExprScript(e), ScriptItems(e, items, env));
    case ProceduralAssign(left, right, target, text) => TallyAssign(stmt, env);
    case Immediate(cond, conversion, ifTrue, ifFalse) => TallyImmediate(stmt, env);
    case Concurrent(expr, conversion) =>
      if expr.Some? {
        TallyCheck(expr.value, conversion);
      }
    case OtherStmt =>
  }

  lemma TallyOptionalExpr(e: Option<Expr>)
    ensures Tally(OptionalExprScript(e)) == 0
  {
    if e.Some? {
      TallyExpr(e.value);
    }
  }

  lemma {:induction false} TallyFor(stmt: Stmt, env: Setting)
    requires stmt.ForLoop?
    ensures Tally(Script(stmt, env)) == Guards(stmt)
    decreases stmt, 1
  {
    var p1, p2 := ScriptOptional(stmt.init, env), OptionalExprScript(stmt.cond);
    var p3, p4 := ScriptOptional(stmt.body, env), ScriptOptional(stmt.incr, env);
    TallyOptional(stmt.init, env);
    TallyOptionalExpr(stmt.cond);
    TallyOptional(stmt.body, env);
    TallyOptional(stmt.incr, env);
    TallyConcat(p1, p2);
    TallyConcat(p3, p4);
    TallyConcat(p1 + p2, p3 + p4);
  }

  lemma TallyAssign(stmt: Stmt, env: Setting)
    requires stmt.ProceduralAssign?
    ensures Tally(Script(stmt, env)) == 0
  {
    var p1, p2 := ExprScript(stmt.left), ExprScript(stmt.right);
    var last := if stmt.target.Some? then [Assign(stmt.target.value, stmt.text)] else [];
    TallyExpr(stmt.left);
    TallyExpr(stmt.right);
    TallyConcat(p1, p2);
    TallyConcat(p1 + p2, last);
    assert last != [] ==> last[1..] == [];
  }

  lemma {:induction false} TallyImmediate(stmt: Stmt, env: Setting)
    requires stmt.Immediate?
    ensures Tally(Script(stmt, env)) == Guards(stmt)
    decreases stmt, 1
  {
    if stmt.cond.Some? {
      var p, q := ScriptOptional(stmt.ifTrue, env), ScriptOptional(stmt.ifFalse, env);
      TallyCheck(stmt.cond.value, stmt.conversion);
      TallyOptional(stmt.ifTrue, env);
      TallyOptional(stmt.ifFalse, env);
      TallyConcat(p, q);
      TallyConcat(CheckScript(stmt.cond.value, stmt.conversion), if stmt.conversion.Formula? then p + q else []);
    }
  }

  lemma {:induction false} TallyOptional(stmt: Option<Stmt>, env: Setting)
    ensures Tally(ScriptOptional(stmt, env)) == GuardsOptional(stmt)
    decreases stmt, 0
  {
    if stmt.Some? {
      TallyScript(stmt.value, env);
    }
  }

  lemma {:induction false} TallyAll(stmts: seq<Stmt>, env: Setting)
    ensures Tally(ScriptAll(stmts, env)) == GuardsAll(stmts)
    decreases stmts, 0
  {
    if stmts != [] {
      TallyScript(stmts[0], env);
      TallyAll(stmts[1..], env);
      TallyConcat(Script(stmts[0], env), ScriptAll(stmts[1..], env));
    }
  }

  lemma {:induction false} TallyLabels(subject: Expr, item: CaseItem, i: nat, env: Setting)
    requires i <= |item.labels|
    ensures Tally(ScriptLabels(subject, item, i, env)) == GuardsLabels(item, i)
    decreases item, 0, |item.labels| - i
  {
    if i < |item.labels| {
      var c := CaseGuard(subject, item.labels[i], env);
      var p, q := GuardScript(item.labels[i], c), ScriptAll(item.body, env);
      var rest := ScriptLabels(subject, item, i + 1, env);
      TallyGuard(item.labels[i], c);
      TallyAll(item.body, env);
      TallyLabels(subject, item, i + 1, env);
      TallyConcat(p, q);
      TallyConcat(p + q, rest);
    }
  }

  lemma {:induction false} TallyItems(subject: Expr, items: seq<CaseItem>, env: Setting)
    ensures Tally(ScriptItems(subject, items, env)) == GuardsItems(items)
    decreases items, 1
  {
    if items != [] {
      TallyLabels(subject, items[0], 0, env);
      TallyItems(subject, items[1..], env);
      TallyConcat(ScriptLabels(subject, items[0], 0, env), ScriptItems(subject, items[1..], env));
    }
  }

  // ---------- when the store stays frozen ----------

  predicate OptionalPure(e: Option<Expr>) {
    e.Some? ==> e.value.Pure?
  }

  predicate PureLabels(item: CaseItem, i: nat)
    requires i <= |item.labels|
    decreases |item.labels| - i
  {
    i == |item.labels| || (item.labels[i].Pure? && PureLabels(item, i + 1))
  }

  predicate PureItems(items: seq<CaseItem>) {
    items == [] || (PureLabels(items[0], 0) && PureItems(items[1..]))
  }

  /** No expression that assigns is visited, without a look at `ignore`, behind a part that holds a guard. */
  predicate Safe(stmt: Stmt)
    decreases stmt, 2
  {
    match stmt
    case Block(stmts) => SafeAll(stmts)
    case ForLoop(init, cond, body, incr) =>
      && SafeOptional(init) && SafeOptional(body) && SafeOptional(incr)
      && (OptionalPure(cond) || GuardsOptional(init) == 0)
    case WhileLoop(_, body) => SafeOptional(body)
    case DoWhileLoop(body, cond) => SafeOptional(body) && (OptionalPure(cond) || GuardsOptional(body) == 0)
    case CaseStmt(_, items) => SafeItems(items)
    case Immediate(cond, conversion, ifTrue, ifFalse) =>
      cond.Some? && conversion.Formula? ==> SafeOptional(ifTrue) && SafeOptional(ifFalse)
    case _ => true
  }

  predicate SafeOptional(stmt: Option<Stmt>)
    decreases stmt, 0
  {
    stmt.Some? ==> Safe(stmt.value)
  }

  predicate SafeAll(stmts: seq<Stmt>)
    decreases stmts, 0
  {
    stmts == [] || (Safe(stmts[0]) && SafeAll(stmts[1..]))
  }

  /** A label is visited behind the body under the label before it, in its own item or in an earlier one. */
  predicate SafeItems(items: seq<CaseItem>)
    decreases items, 1
  {
    items == []
    || (&& (items[0].labels == [] || SafeAll(items[0].body))
        && (items[0].labels == [] || GuardsAll(items[0].body) == 0
            || (PureLabels(items[0], 1) && PureItems(items[1..])))
        && SafeItems(items[1..]))
  }

  ghost predicate Frozen(st: State) {
    st.ignore ==> st.store == st.frozen && st.writes == st.written
  }

  lemma {:induction false} HeardQuiet(rep: Report, qs: seq<Scopes>, sat: Scopes -> bool)
    requires HearAll(rep, qs, sat).inOrder && HearAll(rep, qs, sat).counter <= rep.counter
    ensures HearAll(rep, qs, sat).ignore == rep.ignore
    decreases |qs|
  {
    if qs != [] {
      HeardLabel(Hear(rep, qs[0], sat), qs[1..], sat, 0);
      HeardQuiet(Hear(rep, qs[0], sat), qs[1..], sat);
    }
  }

  /** A part without guards cannot switch the visitor off. */
  lemma LeadsQuiet(base: Scopes, a: State, b: State, env: Setting, script: seq<Action>)
    requires Leads(base, a, b, env, script) && Tally(script) == 0
    ensures b.ignore == a.ignore
  {
    HeardQuiet(ReportOf(a), New(a, b), env.sat);
  }

  lemma OptionalQuiet(stmt: Option<Stmt>, st: State, env: Setting)
    requires GuardsOptional(stmt) == 0
    ensures VisitOptional(stmt, st, env).ignore == st.ignore
  {
    OptionalLeads(stmt, st, env);
    TallyOptional(stmt, env);
    LeadsQuiet(st.scopes, st, VisitOptional(stmt, st, env), env, ScriptOptional(stmt, env));
  }

  lemma AllQuiet(stmts: seq<Stmt>, st: State, env: Setting)
    requires GuardsAll(stmts) == 0
    ensures VisitAll(stmts, st, env).ignore == st.ignore
  {
    VisitAllLeads(stmts, st, env);
    TallyAll(stmts, env);
    LeadsQuiet(st.scopes, st, VisitAll(stmts, st, env), env, ScriptAll(stmts, env));
  }

  lemma {:induction false} StoreKept(stmt: Stmt, st: State, env: Setting)
    requires Safe(stmt) && Frozen(st)
    ensures Frozen(Visit(stmt, st, env))
    decreases stmt, 2
  {
    if !st.ignore {
      match stmt
      case Block(stmts) => AllKept(stmts, st, env);
      case ForLoop(init, cond, body, incr) => ForKept(stmt, st, env);
      case WhileLoop(cond, body) => WhileKept(cond, body, Count(st), env);
      case DoWhileLoop(body, cond) =>
        OptionalKept(body, Count(st), env);
        if GuardsOptional(body) == 0 {
          OptionalQuiet(body, Count(st), env);
        }
      case CaseStmt(e, items) => ItemsKept(e, items, VisitExpr(e, Count(st)), env);
      case Immediate(cond, conversion, ifTrue, ifFalse) =>
        if cond.Some? && conversion.Formula? {
          var s := Check(cond.value, conversion, st, env);
          OptionalKept(ifTrue, s, env);
          OptionalKept(ifFalse, VisitOptional(ifTrue, s, env), env);
        }
      case _ =>
    }
  }

  lemma {:induction false} ForKept(stmt: Stmt, st: State, env: Setting)
    requires stmt.ForLoop? && Safe(stmt) && !st.ignore
    ensures Frozen(Visit(stmt, st, env))
    decreases stmt, 1
  {
    var s1 := VisitOptional(stmt.init, st, env);
    var s2 := VisitOptionalExpr(stmt.cond, s1);
    OptionalKept(stmt.init, st, env);
    if GuardsOptional(stmt.init) == 0 {
      OptionalQuiet(stmt.init, st, env);
    }
    OptionalKept(stmt.body, s2, env);
    OptionalKept(stmt.incr, VisitOptional(stmt.body, s2, env), env);
  }

  lemma {:induction false} WhileKept(cond: Option<Expr>, body: Option<Stmt>, st: State, env: Setting)
    requires SafeOptional(body) && !st.ignore
    ensures Frozen(if cond.None? then VisitOptional(body, st, env) else VisitGuarded(cond.value, body, st, env))
    decreases body, 1
  {
    if cond.None? {
      OptionalKept(body, st, env);
    } else {
      OptionalKept(body, Guard(VisitExpr(cond.value, st), WhileGuard(cond.value, env)), env);
    }
  }

  lemma {:induction false} OptionalKept(stmt: Option<Stmt>, st: State, env: Setting)
    requires SafeOptional(stmt) && Frozen(st)
    ensures Frozen(VisitOptional(stmt, st, env))
    decreases stmt, 0
  {
    if stmt.Some? {
      StoreKept(stmt.value, st, env);
    }
  }

  lemma {:induction false} AllKept(stmts: seq<Stmt>, st: State, env: Setting)
    requires SafeAll(stmts) && Frozen(st)
    ensures Frozen(VisitAll(stmts, st, env))
    decreases stmts, 0
  {
    if stmts != [] {
      StoreKept(stmts[0], st, env);
      AllKept(stmts[1..], Visit(stmts[0], st, env), env);
    }
  }

  lemma {:induction false} LabelsKept(subject: Expr, item: CaseItem, i: nat, st: State, env: Setting)
    requires i <= |item.labels| && SafeAll(item.body) && Frozen(st)
    requires i < |item.labels| && GuardsAll(item.body) > 0 ==> PureLabels(item, i + 1)
    requires st.ignore ==> PureLabels(item, i)
    ensures var r := VisitLabels(subject, item, i, st, env);
      Frozen(r.0) && (r.1 && r.0.ignore ==> st.ignore || (i < |item.labels| && GuardsAll(item.body) > 0))
    decreases item, 0, |item.labels| - i
  {
    if i < |item.labels| {
      var pattern := item.labels[i];
      var g := Guard(VisitExpr(pattern, st), CaseGuard(subject, pattern, env));
      if env.sat(g.scopes) {
        AllKept(item.body, g, env);
        if GuardsAll(item.body) == 0 {
          AllQuiet(item.body, g, env);
        }
        LabelsKept(subject, item, i + 1, Pop(VisitAll(item.body, g, env)), env);
      }
    }
  }

  lemma {:induction false} ItemsKept(subject: Expr, items: seq<CaseItem>, st: State, env: Setting)
    requires SafeItems(items) && Frozen(st) && (st.ignore ==> PureItems(items))
    ensures Frozen(VisitItems(subject, items, st, env))
    decreases items, 1
  {
    if items != [] {
      var (next, on) := VisitLabels(subject, items[0], 0, st, env);
      if items[0].labels != [] {
        LabelsKept(subject, items[0], 0, st, env);
      }
      if on {
        ItemsKept(subject, items[1..], next, env);
      }
    }
  }

  // ---------- when it does not ----------

  ghost predicate Exposed(st: State) {
    st.ignore && st.written < st.writes
  }

  /** A solver that refuses the guard with this label only. */
  function RefuseAt(target: nat, direction: bool): Setting {
    Setting((q: Scopes) => !(IsGuard(q) && Tag(q) == target), direction, (e: int) => BitVector)
  }

  /** Which guard of an unsafe statement to refuse: so many guards are accepted before it. */
  function Offset(stmt: Stmt): nat
    requires !Safe(stmt)
    decreases stmt, 2
  {
    match stmt
    case Block(stmts) => OffsetAll(stmts)
    case ForLoop(init, cond, body, incr) =>
      if !SafeOptional(init) then OffsetOptional(init)
      else if !OptionalPure(cond) && GuardsOptional(init) > 0 then 0
      else if !SafeOptional(body) then GuardsOptional(init) + OffsetOptional(body)
      else GuardsOptional(init) + GuardsOptional(body) + OffsetOptional(incr)
    case WhileLoop(cond, body) => (if cond.Some? then 1 else 0) + OffsetOptional(body)
    case DoWhileLoop(body, _) => if !SafeOptional(body) then OffsetOptional(body) else 0
    case CaseStmt(_, items) => OffsetItems(items)
    case Immediate(_, _, ifTrue, ifFalse) =>
      if !SafeOptional(ifTrue) then OffsetOptional(ifTrue) else GuardsOptional(ifTrue) + OffsetOptional(ifFalse)
  }

  function OffsetOptional(stmt: Option<Stmt>): nat
    requires !SafeOptional(stmt)
    decreases stmt, 0
  {
    Offset(stmt.value)
  }

  function OffsetAll(stmts: seq<Stmt>): nat
    requires !SafeAll(stmts)
    decreases stmts, 0
  {
    if !Safe(stmts[0]) then Offset(stmts[0]) else Guards(stmts[0]) + OffsetAll(stmts[1..])
  }

  function OffsetItems(items: seq<CaseItem>): nat
    requires !SafeItems(items)
    decreases items, 1
  {
    if items[0].labels == [] then OffsetItems(items[1..])
    else if !SafeAll(items[0].body) then 1 + OffsetAll(items[0].body)
    else if GuardsAll(items[0].body) > 0 && !(PureLabels(items[0], 1) && PureItems(items[1..])) then 1
    else GuardsLabels(items[0], 0) + OffsetItems(items[1..])
  }

  lemma {:induction false} HeardTarget(rep: Report, qs: seq<Scopes>, env: Setting, target: nat)
    requires env == RefuseAt(target, env.direction) && HearAll(rep, qs, env.sat).inOrder
    ensures var r := HearAll(rep, qs, env.sat); r.ignore <==> rep.ignore || rep.counter < target <= r.counter
    decreases |qs|
  {
    if qs != [] {
      HeardLabel(Hear(rep, qs[0], env.sat), qs[1..], env.sat, 0);
      HeardTarget(Hear(rep, qs[0], env.sat), qs[1..], env, target);
    }
  }

  /** A part with so many guards, visited under such a solver. */
  ghost predicate Walked(a: State, b: State, target: nat, guards: nat) {
    && Grows(a, b)
    && (b.ignore <==> a.counter < target <= a.counter + guards)
    && (b.ignore ==> target <= b.counter)
    && (!b.ignore ==> b.counter == a.counter + guards)
  }

  lemma LeadsWalked(base: Scopes, a: State, b: State, env: Setting, script: seq<Action>, target: nat)
    requires Leads(base, a, b, env, script) && !a.ignore && env == RefuseAt(target, env.direction)
    ensures Walked(a, b, target, Tally(script))
  {
    HeardTarget(ReportOf(a), New(a, b), env, target);
  }

  lemma StmtWalked(stmt: Stmt, st: State, env: Setting, target: nat)
    requires !st.ignore && env == RefuseAt(target, env.direction)
    ensures Walked(st, Visit(stmt, st, env), target, Guards(stmt))
  {
    VisitLeads(stmt, st, env);
    TallyScript(stmt, env);
    LeadsWalked(st.scopes, st, Visit(stmt, st, env), env, Script(stmt, env), target);
  }

  lemma OptionalWalked(stmt: Option<Stmt>, st: State, env: Setting, target: nat)
    requires !st.ignore && env == RefuseAt(target, env.direction)
    ensures Walked(st, VisitOptional(stmt, st, env), target, GuardsOptional(stmt))
  {
    OptionalLeads(stmt, st, env);
    TallyOptional(stmt, env);
    LeadsWalked(st.scopes, st, VisitOptional(stmt, st, env), env, ScriptOptional(stmt, env), target);
  }

  lemma AllWalked(stmts: seq<Stmt>, st: State, env: Setting, target: nat)
    requires !st.ignore && env == RefuseAt(target, env.direction)
    ensures Walked(st, VisitAll(stmts, st, env), target, GuardsAll(stmts))
  {
    VisitAllLeads(stmts, st, env);
    TallyAll(stmts, env);
    LeadsWalked(st.scopes, st, VisitAll(stmts, st, env), env, ScriptAll(stmts, env), target);
  }

  lemma LabelsWalked(subject: Expr, item: CaseItem, st: State, env: Setting, target: nat)
    requires !st.ignore && env == RefuseAt(target, env.direction)
    ensures var r := VisitLabels(subject, item, 0, st, env);
      Walked(st, r.0, target, GuardsLabels(item, 0)) && (!r.1 ==> r.0.ignore)
  {
    LabelsLead(subject, item, 0, st, env);
    TallyLabels(subject, item, 0, env);
    var next, script := VisitLabels(subject, item, 0, st, env).0, ScriptLabels(subject, item, 0, env);
    LeadsWalked(st.scopes, st, next, env, script, target);
  }

  // ---------- a visitor that is switched off ----------

  lemma {:induction false} AllSkipped(stmts: seq<Stmt>, st: State, env: Setting)
    requires st.ignore
    ensures VisitAll(stmts, st, env) == st
    decreases stmts
  {
    if stmts != [] {
      AllSkipped(stmts[1..], st, env);
    }
  }

  lemma OptionalSkipped(stmt: Option<Stmt>, st: State, env: Setting)
    requires st.ignore
    ensures VisitOptional(stmt, st, env) == st
  {
  }

  /** Behind the refused guard every label is visited and accepted. */
  lemma {:induction false} LabelsBehind(subject: Expr, item: CaseItem, i: nat, st: State, env: Setting, target: nat)
    requires i <= |item.labels| && env == RefuseAt(target, env.direction)
    requires st.ignore && target <= st.counter
    ensures var r := VisitLabels(subject, item, i, st, env);
      && r.1 && r.0.ignore && target <= r.0.counter && r.0.written == st.written
      && (if PureLabels(item, i) then st.writes <= r.0.writes else st.writes < r.0.writes)
    decreases |item.labels| - i
  {
    if i < |item.labels| {
      var pattern := item.labels[i];
      var g := Guard(VisitExpr(pattern, st), CaseGuard(subject, pattern, env));
      AllSkipped(item.body, g, env);
      LabelsBehind(subject, item, i + 1, Pop(g), env, target);
    }
  }

  lemma {:induction false} ItemsBehind(subject: Expr, items: seq<CaseItem>, st: State, env: Setting, target: nat)
    requires env == RefuseAt(target, env.direction) && st.ignore && target <= st.counter
    ensures var r := VisitItems(subject, items, st, env);
      && r.ignore && r.written == st.written
      && (if PureItems(items) then st.writes <= r.writes else st.writes < r.writes)
    decreases items
  {
    if items != [] {
      LabelsBehind(subject, items[0], 0, st, env, target);
      ItemsBehind(subject, items[1..], VisitLabels(subject, items[0], 0, st, env).0, env, target);
    }
  }

  // ---------- the write that is not stopped ----------

  lemma {:induction false} StoreExposed(stmt: Stmt, st: State, env: Setting, target: nat)
    requires !Safe(stmt) && !st.ignore
    requires target == st.counter + Offset(stmt) + 1 && env == RefuseAt(target, env.direction)
    ensures Exposed(Visit(stmt, st, env))
    decreases stmt, 2
  {
    match stmt
    case Block(stmts) => AllExposed(stmts, st, env, target);
    case ForLoop(init, cond, body, incr) => ForExposed(stmt, st, env, target);
    case WhileLoop(cond, body) => WhileExposed(cond, body, Count(st), env, target);
    case DoWhileLoop(body, cond) =>
      if SafeOptional(body) {
        OptionalWalked(body, Count(st), env, target);
      } else {
        OptionalExposed(body, Count(st), env, target);
      }
    case CaseStmt(e, items) => ItemsExposed(e, items, VisitExpr(e, Count(st)), env, target);
    case Immediate(cond, conversion, ifTrue, ifFalse) => ImmediateExposed(stmt, st, env, target);
  }

  lemma {:induction false} ForExposed(stmt: Stmt, st: State, env: Setting, target: nat)
    requires stmt.ForLoop? && !Safe(stmt) && !st.ignore
    requires target == st.counter + Offset(stmt) + 1 && env == RefuseAt(target, env.direction)
    ensures Exposed(Visit(stmt, st, env))
    decreases stmt, 1
  {
    var s1 := VisitOptional(stmt.init, st, env);
    var s2 := VisitOptionalExpr(stmt.cond, s1);
    var s3 := VisitOptional(stmt.body, s2, env);
    OptionalWalked(stmt.init, st, env, target);
    if !SafeOptional(stmt.init) {
      OptionalExposed(stmt.init, st, env, target);
    } else if OptionalPure(stmt.cond) || GuardsOptional(stmt.init) == 0 {
      OptionalWalked(stmt.body, s2, env, target);
      if SafeOptional(stmt.body) {
        OptionalExposed(stmt.incr, s3, env, target);
      } else {
        OptionalExposed(stmt.body, s2, env, target);
      }
    }
    if s2.ignore {
      OptionalSkipped(stmt.body, s2, env);
    }
    if s3.ignore {
      OptionalSkipped(stmt.incr, s3, env);
    }
  }

  lemma GuardTag(st: State, c: Constraint)
    ensures var g := Guard(st, c); IsGuard(g.scopes) && Tag(g.scopes) == g.counter == st.counter + 1
  {
  }

  lemma {:induction false} WhileExposed(cond: Option<Expr>, body: Option<Stmt>, st: State, env: Setting, target: nat)
    requires !SafeOptional(body) && !st.ignore
    requires target == st.counter + (if cond.Some? then 1 else 0) + OffsetOptional(body) + 1
    requires env == RefuseAt(target, env.direction)
    ensures Exposed(if cond.None? then VisitOptional(body, st, env) else VisitGuarded(cond.value, body, st, env))
    decreases body, 1
  {
    if cond.None? {
      OptionalExposed(body, st, env, target);
    } else {
      GuardTag(VisitExpr(cond.value, st), WhileGuard(cond.value, env));
      OptionalExposed(body, Guard(VisitExpr(cond.value, st), WhileGuard(cond.value, env)), env, target);
    }
  }

  lemma {:induction false} ImmediateExposed(stmt: Stmt, st: State, env: Setting, target: nat)
    requires stmt.Immediate? && !Safe(stmt) && !st.ignore
    requires target == st.counter + Offset(stmt) + 1 && env == RefuseAt(target, env.direction)
    ensures Exposed(Visit(stmt, st, env))
    decreases stmt, 1
  {
    var s := Check(stmt.cond.value, stmt.conversion, st, env);
    if SafeOptional(stmt.ifTrue) {
      OptionalWalked(stmt.ifTrue, s, env, target);
      OptionalExposed(stmt.ifFalse, VisitOptional(stmt.ifTrue, s, env), env, target);
    } else {
      OptionalExposed(stmt.ifTrue, s, env, target);
      OptionalSkipped(stmt.ifFalse, VisitOptional(stmt.ifTrue, s, env), env);
    }
  }

  lemma {:induction false} OptionalExposed(stmt: Option<Stmt>, st: State, env: Setting, target: nat)
    requires !SafeOptional(stmt) && !st.ignore
    requires target == st.counter + OffsetOptional(stmt) + 1 && env == RefuseAt(target, env.direction)
    ensures Exposed(VisitOptional(stmt, st, env))
    decreases stmt, 0
  {
    StoreExposed(stmt.value, st, env, target);
  }

  lemma {:induction false} AllExposed(stmts: seq<Stmt>, st: State, env: Setting, target: nat)
    requires !SafeAll(stmts) && !st.ignore
    requires target == st.counter + OffsetAll(stmts) + 1 && env == RefuseAt(target, env.direction)
    ensures Exposed(VisitAll(stmts, st, env))
    decreases stmts, 0
  {
    var s := Visit(stmts[0], st, env);
    if Safe(stmts[0]) {
      StmtWalked(stmts[0], st, env, target);
      AllExposed(stmts[1..], s, env, target);
    } else {
      StoreExposed(stmts[0], st, env, target);
      AllSkipped(stmts[1..], s, env);
    }
  }

  /** The body under the first label is exposed, or it is switched off at its first guard and a later label assigns. */
  lemma {:induction false} FirstExposed(subject: Expr, items: seq<CaseItem>, st: State, env: Setting, target: nat)
    requires items != [] && items[0].labels != [] && !st.ignore && env == RefuseAt(target, env.direction)
    requires if SafeAll(items[0].body)
      then && target == st.counter + 2 && GuardsAll(items[0].body) > 0
           && !(PureLabels(items[0], 1) && PureItems(items[1..]))
      else target == st.counter + OffsetAll(items[0].body) + 2
    ensures Exposed(VisitItems(subject, items, st, env))
    decreases items, 0
  {
    var item := items[0];
    var c := CaseGuard(subject, item.labels[0], env);
    var g := Guard(VisitExpr(item.labels[0], st), c);
    var b := VisitAll(item.body, g, env);
    GuardTag(VisitExpr(item.labels[0], st), c);
    AllWalked(item.body, g, env, target);
    if !SafeAll(item.body) {
      AllExposed(item.body, g, env, target);
    }
    LabelsBehind(subject, item, 1, Pop(b), env, target);
    ItemsBehind(subject, items[1..], VisitLabels(subject, item, 1, Pop(b), env).0, env, target);
  }

  lemma {:induction false} ItemsExposed(subject: Expr, items: seq<CaseItem>, st: State, env: Setting, target: nat)
    requires !SafeItems(items) && !st.ignore
    requires target == st.counter + OffsetItems(items) + 1 && env == RefuseAt(target, env.direction)
    ensures Exposed(VisitItems(subject, items, st, env))
    decreases items, 1
  {
    var item, rest := items[0], items[1..];
    if item.labels == [] {
      ItemsExposed(subject, rest, st, env, target);
    } else if SafeAll(item.body) && (GuardsAll(item.body) == 0 || (PureLabels(item, 1) && PureItems(rest))) {
      LabelsWalked(subject, item, st, env, target);
      ItemsExposed(subject, rest, VisitLabels(subject, item, 0, st, env).0, env, target);
    } else {
      FirstExposed(subject, items, st, env, target);
    }
  }

  /** However the visit of this statement goes, nothing is written once the visitor is switched off. */
  ghost predicate KeepsStore(stmt: Stmt) {
    forall st: State, env: Setting :: !st.ignore ==> Frozen(Visit(stmt, st, env))
  }

  lemma StoreKeptExactly(stmt: Stmt)
    ensures KeepsStore(stmt) <==> Safe(stmt)
  {
    if Safe(stmt) {
      forall st: State, env: Setting | !st.ignore ensures Frozen(Visit(stmt, st, env)) {
        StoreKept(stmt, st, env);
      }
    } else {
      var st := State([], 0, false, false, 0, [], map[], 0, [], map[], 0);
      var target := Offset(stmt) + 1;
      StoreExposed(stmt, st, RefuseAt(target, true), target);
    }
  }

  /** So the store that such a statement leaves is that after some first part of its script. */
  lemma StorePlaysPart(stmt: Stmt, st: State, env: Setting)
    requires Safe(stmt) && !st.ignore
    ensures PlaysPart(Script(stmt, env), st.store, Visit(stmt, st, env).store)
  {
    var script := Script(stmt, env);
    VisitLeads(stmt, st, env);
    StoreKept(stmt, st, env);
    assert script[..|script|] == script;
  }
}
