/**
  What a visit of a statement promises: solver scopes, labels, reports and the store, for every
  statement and every solver.
 */
module VisitReports {
  import opened Wrappers
  import opened StatementVisits

  // ---------- what the solver's answers determine ----------

  /** The one entry of the innermost scope, if there is exactly one. */
  function Top(q: Scopes): Option<Entry> {
    if q != [] && |q[|q| - 1]| == 1 then Some(q[|q| - 1][0]) else None
  }

  predicate IsGuard(q: Scopes) {
    Top(q).Some? && Top(q).value.Tracked?
  }

  function Tag(q: Scopes): nat {
    if IsGuard(q) then Top(q).value.tag else 0
  }

  /** What a question was about. */
  function Topic(q: Scopes): Action {
    match Top(q)
    case None => Probe
    case Some(e) => Question(e.c, e.Tracked?)
  }

  function Topics(qs: seq<Scopes>): seq<Action> {
    seq(|qs|, i requires 0 <= i < |qs| => Topic(qs[i]))
  }

  /** `inOrder` says that every label so far was the count of the moment. */
  datatype Report = Report(inOrder: bool, counter: nat, ignore: bool, violated: seq<int>)

  function ReportOf(st: State): Report {
    Report(true, st.counter, st.ignore, st.violated)
  }

  /** One question and its answer. */
  function Hear(rep: Report, q: Scopes, sat: Scopes -> bool): Report {
    match Top(q)
    case None => rep
    case Some(Tracked(tag, _)) =>
      Report(rep.inOrder && tag == rep.counter + 1, rep.counter + 1, rep.ignore || !sat(q), rep.violated)
    case Some(Plain(c)) =>
      if c.Negated? then rep.(violated := if sat(q) then rep.violated + [c.e] else rep.violated)
      else rep.(inOrder := false)
  }

  function HearAll(rep: Report, qs: seq<Scopes>, sat: Scopes -> bool): Report
    decreases |qs|
  {
    if qs == [] then rep else HearAll(Hear(rep, qs[0], sat), qs[1..], sat)
  }

  function New(a: State, b: State): seq<Scopes>
    requires |a.asked| <= |b.asked|
  {
    b.asked[|a.asked|..]
  }

  /** Every stack in qs has base underneath and at least one scope more. */
  ghost predicate Above(base: Scopes, qs: seq<Scopes>) {
    forall i | 0 <= i < |qs| :: base < qs[i]
  }

  /** Writes add up, being switched off is for good, and whoever is switched off is abandoned. */
  ghost predicate Grows(a: State, b: State) {
    && a.writes <= b.writes
    && (a.abandon == a.ignore ==> b.abandon == b.ignore)
    && (a.ignore ==> b.ignore && b.written == a.written && b.frozen == a.frozen)
    && (!a.ignore && b.ignore ==> b.written <= b.writes)
  }

  /** The store after some first part of a script. */
  ghost predicate PlaysPart(script: seq<Action>, from: map<string, string>, to: map<string, string>) {
    exists k :: 0 <= k <= |script| && to == Play(script[..k], from)
  }

  /** The part of a visit that leads from a to b, with everything it asked above base. */
  ghost predicate Leads(base: Scopes, a: State, b: State, env: Setting, script: seq<Action>) {
    && a.asked <= b.asked
    && Above(base, New(a, b))
    && ReportOf(b) == HearAll(ReportOf(a), New(a, b), env.sat)
    && Grows(a, b)
    && (!a.ignore && b.ignore ==> PlaysPart(script, a.store, b.frozen))
    && b.counter <= a.counter + Tally(script)
    && (!b.ignore ==>
          && b.store == Play(script, a.store) && Topics(New(a, b)) == Questions(script)
          && b.counter == a.counter + Tally(script))
  }

  lemma {:induction false} HearConcat(rep: Report, p: seq<Scopes>, q: seq<Scopes>, sat: Scopes -> bool)
    ensures HearAll(rep, p + q, sat) == HearAll(HearAll(rep, p, sat), q, sat)
    decreases |p|
  {
    if p == [] {
      assert p + q == q;
    } else {
      assert (p + q)[1..] == p[1..] + q;
      HearConcat(Hear(rep, p[0], sat), p[1..], q, sat);
    }
  }

  lemma {:induction false} ScriptConcat(p: seq<Action>, q: seq<Action>, store: map<string, string>)
    ensures Play(p + q, store) == Play(q, Play(p, store))
    ensures Questions(p + q) == Questions(p) + Questions(q) && Tally(p + q) == Tally(p) + Tally(q)
    decreases |p|
  {
    if p == [] {
      assert p + q == q;
    } else {
      assert (p + q)[1..] == p[1..] + q;
      ScriptConcat(p[1..], q, if p[0].Assign? then store[p[0].lhs := p[0].text] else store);
    }
  }

  lemma PlaysFirst(p: seq<Action>, q: seq<Action>, from: map<string, string>, to: map<string, string>)
    requires PlaysPart(p, from, to)
    ensures PlaysPart(p + q, from, to)
  {
    var k :| 0 <= k <= |p| && to == Play(p[..k], from);
    assert (p + q)[..k] == p[..k];
  }

  lemma PlaysSecond(p: seq<Action>, q: seq<Action>, from: map<string, string>, to: map<string, string>)
    requires PlaysPart(q, Play(p, from), to)
    ensures PlaysPart(p + q, from, to)
  {
    var k :| 0 <= k <= |q| && to == Play(q[..k], Play(p, from));
    ScriptConcat(p, q[..k], from);
    assert (p + q)[..|p| + k] == p + q[..k];
  }

  lemma TopicsConcat(p: seq<Scopes>, q: seq<Scopes>)
    ensures Topics(p + q) == Topics(p) + Topics(q)
  {
  }

  lemma NewConcat(a: State, b: State, c: State)
    requires a.asked <= b.asked <= c.asked
    ensures a.asked <= c.asked && New(a, c) == New(a, b) + New(b, c)
  {
  }

  lemma LeadsOn(base: Scopes, a: State, b: State, c: State, env: Setting, p: seq<Action>, q: seq<Action>)
    requires Leads(base, a, b, env, p) && Leads(base, b, c, env, q)
    ensures Leads(base, a, c, env, p + q)
  {
    NewConcat(a, b, c);
    HearConcat(ReportOf(a), New(a, b), New(b, c), env.sat);
    ScriptConcat(p, q, a.store);
    TopicsConcat(New(a, b), New(b, c));
    if !a.ignore && b.ignore {
      PlaysFirst(p, q, a.store, b.frozen);
    } else if !b.ignore && c.ignore {
      PlaysSecond(p, q, a.store, c.frozen);
    }
  }

  lemma LeadsBelow(base: Scopes, base': Scopes, a: State, b: State, env: Setting, p: seq<Action>)
    requires Leads(base', a, b, env, p) && base <= base'
    ensures Leads(base, a, b, env, p)
  {
  }

  /** Steps that ask nothing. */
  lemma LeadsSilently(base: Scopes, a: State, b: State, env: Setting, p: seq<Action>)
    requires a.asked == b.asked && ReportOf(a) == ReportOf(b) && a.writes <= b.writes
    requires a.written == b.written && a.frozen == b.frozen && a.abandon == b.abandon
    requires !b.ignore ==> b.store == Play(p, a.store) && Questions(p) == [] && Tally(p) == 0
    ensures Leads(base, a, b, env, p)
  {
    assert New(a, b) == [];
  }

  lemma LeadsExpr(base: Scopes, e: Expr, st: State, env: Setting)
    ensures Leads(base, st, VisitExpr(e, st), env, ExprScript(e))
  {
    assert ExprScript(e) != [] ==> ExprScript(e)[1..] == [];
    LeadsSilently(base, st, VisitExpr(e, st), env, ExprScript(e));
  }

  lemma LeadsWherever(base: Scopes, a: State, b: State, c: State, env: Setting, p: seq<Action>)
    requires Leads(base, a, b, env, p) && c == b.(scopes := c.scopes)
    ensures Leads(base, a, c, env, p)
  {
    assert New(a, c) == New(a, b) && ReportOf(c) == ReportOf(b);
  }

  /** Once switched off, nothing more is claimed about the script. */
  lemma LeadsOff(base: Scopes, a: State, b: State, env: Setting, p: seq<Action>, q: seq<Action>)
    requires Leads(base, a, b, env, p) && b.ignore
    ensures Leads(base, a, b, env, p + q)
  {
    ScriptConcat(p, q, a.store);
    if !a.ignore {
      PlaysFirst(p, q, a.store, b.frozen);
    }
  }

  lemma LeadsCounted(base: Scopes, st: State, env: Setting)
    ensures Leads(base, st, Count(st), env, [])
  {
    LeadsSilently(base, st, Count(st), env, []);
  }

  /** One question about base with one more scope. */
  lemma LeadsAsked(st: State, entries: seq<Entry>, b: State, env: Setting)
    requires |entries| <= 1
    requires b == Ask(st, entries).(
      scopes := b.scopes, counter := b.counter, violated := b.violated, ignore := b.ignore,
      abandon := b.abandon, frozen := b.frozen, written := b.written)
    requires ReportOf(b) == Hear(ReportOf(st), st.scopes + [entries], env.sat) && Grows(st, b)
    requires !st.ignore && b.ignore ==> b.frozen == st.store
    ensures Leads(st.scopes, st, b, env, [Topic(st.scopes + [entries])])
  {
    var q: Scopes := st.scopes + [entries];
    var asked: seq<Scopes>, script: seq<Action> := [q], [Topic(q)];
    assert New(st, b) == asked && |asked[1..]| == |script[1..]| == 0;
    assert q[|q| - 1] == entries && Topics(asked) == script == Questions(script);
    assert HearAll(ReportOf(st), asked, env.sat) == Hear(ReportOf(st), q, env.sat);
    assert st.store == Play(script[..0], st.store);
  }

  lemma LeadsProbe(st: State, env: Setting)
    ensures Leads(st.scopes, st, Ask(st, []), env, [Probe])
  {
    var none: seq<Entry> := [];
    assert Top(st.scopes + [none]) == Option<Entry>.None;
    LeadsAsked(st, none, Ask(st, none), env);
  }

  /** Counting a guard and tracking it under the count. */
  lemma LeadsTracked(st: State, c: Constraint, b: State, env: Setting)
    requires var g := Open(st.(counter := st.counter + 1), Tracked(st.counter + 1, c));
      b == if env.sat(g.scopes) then g else SwitchOff(g)
    ensures Leads(st.scopes, st, b, env, [Question(c, true)])
  {
    var e := Tracked(st.counter + 1, c);
    var q := st.scopes + [[e]];
    assert Top(q) == Some(e) && Topic(q) == Question(c, true);
    LeadsAsked(st, [e], b, env);
  }

  lemma LeadsGuard(st: State, e: Expr, c: Constraint, env: Setting)
    ensures var g := Guard(VisitExpr(e, st), c);
      Leads(st.scopes, st, if env.sat(g.scopes) then g else SwitchOff(g), env, GuardScript(e, c))
  {
    var s := VisitExpr(e, st);
    var probed := Ask(s, []);
    var g := Guard(s, c);
    var b := if env.sat(g.scopes) then g else SwitchOff(g);
    LeadsExpr(st.scopes, e, st, env);
    LeadsProbe(s, env);
    LeadsTracked(probed, c, b, env);
    LeadsOn(st.scopes, s, probed, b, env, [Probe], [Question(c, true)]);
    assert [Probe] + [Question(c, true)] == [Probe, Question(c, true)];
    LeadsOn(st.scopes, st, s, b, env, ExprScript(e), [Probe, Question(c, true)]);
  }

  lemma LeadsCheck(st: State, e: Expr, conversion: Conversion, env: Setting)
    ensures Leads(st.scopes, st, Check(e, conversion, st, env), env, CheckScript(e, conversion))
  {
    var s := VisitExpr(e, st);
    LeadsExpr(st.scopes, e, st, env);
    if conversion.Formula? {
      var entry, r := Plain(Negated(e.id)), Check(e, conversion, st, env);
      assert Top(s.scopes + [[entry]]) == Some(entry);
      LeadsAsked(s, [entry], r, env);
      LeadsOn(st.scopes, st, s, r, env, ExprScript(e), [Question(Negated(e.id), false)]);
    } else {
      assert ExprScript(e) + [] == ExprScript(e);
    }
  }

  /** A guard that is accepted, and a visit under it. */
  lemma LeadsUnderGuard(st: State, e: Expr, c: Constraint, b: State, env: Setting, p: seq<Action>)
    requires env.sat(Guard(VisitExpr(e, st), c).scopes) && b.scopes == Guard(VisitExpr(e, st), c).scopes
    requires Leads(b.scopes, Guard(VisitExpr(e, st), c), b, env, p)
    ensures Leads(st.scopes, st, Pop(b), env, GuardScript(e, c) + p)
  {
    var g := Guard(VisitExpr(e, st), c);
    LeadsGuard(st, e, c, env);
    LeadsBelow(st.scopes, b.scopes, g, b, env, p);
    LeadsOn(st.scopes, st, g, b, env, GuardScript(e, c), p);
    LeadsWherever(st.scopes, st, b, Pop(b), env, GuardScript(e, c) + p);
  }

  // ---------- every visit ----------

  /**
    Everything a visit reports follows from what the solver answered about stacks that hold the
    caller's scopes; and a visit that is not switched off has followed the script.
   */
  lemma {:induction false} VisitLeads(stmt: Stmt, st: State, env: Setting)
    ensures Leads(st.scopes, st, Visit(stmt, st, env), env, Script(stmt, env))
    decreases stmt, 2
  {
    if st.ignore {
      LeadsSilently(st.scopes, st, st, env, Script(stmt, env));
    } else {
      match stmt
      case ExpressionStmt(e) => LeadsExpr(st.scopes, e, st, env);
      case Block(stmts) => VisitAllLeads(stmts, st, env);
      case Conditional(cond) => ConditionalLeads(cond, st, env);
      case ForLoop(init, cond, body, incr) => ForLeads(stmt, st, env);
      case WhileLoop(cond, body) => WhileLeads(stmt, st, env);
      case DoWhileLoop(body, cond) => DoWhileLeads(stmt, st, env);
      case CaseStmt(e, items) => CaseLeads(stmt, st, env);
      case ProceduralAssign(left, right, target, text) => AssignLeads(stmt, st, env);
      case Immediate(cond, conversion, ifTrue, ifFalse) => ImmediateLeads(stmt, st, env);
      case Concurrent(expr, conversion) =>
        if expr.Some? {
          LeadsCheck(st, expr.value, conversion, env);
        } else {
          LeadsSilently(st.scopes, st, st, env, []);
        }
      case OtherStmt => LeadsSilently(st.scopes, st, st, env, []);
    }
  }

  lemma ConditionalLeads(cond: Option<Expr>, st: State, env: Setting)
    requires !st.ignore
    ensures Leads(st.scopes, st, Visit(Conditional(cond), st, env), env, Script(Conditional(cond), env))
  {
    var n := Count(st);
    LeadsCounted(st.scopes, st, env);
    if cond.Some? {
      var script := GuardScript(cond.value, Holds(cond.value.id));
      var r := VisitConditional(cond.value, n, env);
      LeadsGuard(n, cond.value, Holds(cond.value.id), env);
      var g := Guard(VisitExpr(cond.value, n), Holds(cond.value.id));
      if env.sat(g.scopes) {
        LeadsWherever(n.scopes, n, g, r, env, script);
      }
      LeadsOn(st.scopes, st, n, r, env, [], script);
      assert [] + script == script;
    }
  }

  lemma {:induction false} OptionalLeads(stmt: Option<Stmt>, st: State, env: Setting)
    ensures Leads(st.scopes, st, VisitOptional(stmt, st, env), env, ScriptOptional(stmt, env))
    decreases stmt, 0
  {
    if stmt.Some? {
      VisitLeads(stmt.value, st, env);
    } else {
      LeadsSilently(st.scopes, st, st, env, []);
    }
  }

  lemma OptionalExprLeads(e: Option<Expr>, st: State, env: Setting)
    ensures Leads(st.scopes, st, VisitOptionalExpr(e, st), env, OptionalExprScript(e))
  {
    if e.Some? {
      LeadsExpr(st.scopes, e.value, st, env);
    } else {
      LeadsSilently(st.scopes, st, st, env, []);
    }
  }

  lemma {:induction false} ForLeads(stmt: Stmt, st: State, env: Setting)
    requires !st.ignore && stmt.ForLoop?
    ensures Leads(st.scopes, st, Visit(stmt, st, env), env, Script(stmt, env))
    decreases stmt, 1
  {
    var base := st.scopes;
    var s1 := VisitOptional(stmt.init, st, env);
    var s2 := VisitOptionalExpr(stmt.cond, s1);
    var s3 := VisitOptional(stmt.body, s2, env);
    var s4 := VisitOptional(stmt.incr, s3, env);
    var p1, p2 := ScriptOptional(stmt.init, env), OptionalExprScript(stmt.cond);
    var p3, p4 := ScriptOptional(stmt.body, env), ScriptOptional(stmt.incr, env);
    OptionalLeads(stmt.init, st, env);
    OptionalExprLeads(stmt.cond, s1, env);
    OptionalLeads(stmt.body, s2, env);
    OptionalLeads(stmt.incr, s3, env);
    LeadsOn(base, st, s1, s2, env, p1, p2);
    LeadsOn(base, s2, s3, s4, env, p3, p4);
    LeadsOn(base, st, s2, s4, env, p1 + p2, p3 + p4);
  }

  lemma {:induction false} GuardedLeads(e: Expr, body: Option<Stmt>, st: State, env: Setting)
    ensures Leads(st.scopes, st, VisitGuarded(e, body, st, env), env,
                  GuardScript(e, WhileGuard(e, env)) + ScriptOptional(body, env))
    decreases body, 1
  {
    var c, p := WhileGuard(e, env), ScriptOptional(body, env);
    var g := Guard(VisitExpr(e, st), c);
    if env.sat(g.scopes) {
      OptionalLeads(body, g, env);
      LeadsUnderGuard(st, e, c, VisitOptional(body, g, env), env, p);
    } else {
      LeadsGuard(st, e, c, env);
      LeadsOff(st.scopes, st, SwitchOff(g), env, GuardScript(e, c), p);
    }
  }

  lemma {:induction false} WhileLeads(stmt: Stmt, st: State, env: Setting)
    requires !st.ignore && stmt.WhileLoop?
    ensures Leads(st.scopes, st, Visit(stmt, st, env), env, Script(stmt, env))
    decreases stmt, 1
  {
    var n := Count(st);
    LeadsCounted(st.scopes, st, env);
    if stmt.cond.Some? {
      GuardedLeads(stmt.cond.value, stmt.body, n, env);
    } else {
      OptionalLeads(stmt.body, n, env);
      assert [] + ScriptOptional(stmt.body, env) == ScriptOptional(stmt.body, env);
    }
    LeadsOn(st.scopes, st, n, Visit(stmt, st, env), env, [], Script(stmt, env));
    assert [] + Script(stmt, env) == Script(stmt, env);
  }

  lemma {:induction false} DoWhileLeads(stmt: Stmt, st: State, env: Setting)
    requires !st.ignore && stmt.DoWhileLoop?
    ensures Leads(st.scopes, st, Visit(stmt, st, env), env, Script(stmt, env))
    decreases stmt, 1
  {
    var base, n := st.scopes, Count(st);
    var s1 := VisitOptional(stmt.body, n, env);
    LeadsCounted(base, st, env);
    OptionalLeads(stmt.body, n, env);
    OptionalExprLeads(stmt.cond, s1, env);
    LeadsOn(base, n, s1, VisitOptionalExpr(stmt.cond, s1), env,
            ScriptOptional(stmt.body, env), OptionalExprScript(stmt.cond));
    LeadsOn(base, st, n, Visit(stmt, st, env), env, [], Script(stmt, env));
    assert [] + Script(stmt, env) == Script(stmt, env);
  }

  lemma {:induction false} CaseLeads(stmt: Stmt, st: State, env: Setting)
    requires !st.ignore && stmt.CaseStmt?
    ensures Leads(st.scopes, st, Visit(stmt, st, env), env, Script(stmt, env))
    decreases stmt, 1
  {
    var base, n := st.scopes, Count(st);
    var s1 := VisitExpr(stmt.e, n);
    LeadsCounted(base, st, env);
    LeadsExpr(base, stmt.e, n, env);
    ItemsLead(stmt.e, stmt.items, s1, env);
    LeadsOn(base, n, s1, Visit(stmt, st, env), env, ExprScript(stmt.e), ScriptItems(stmt.e, stmt.items, env));
    LeadsOn(base, st, n, Visit(stmt, st, env), env, [], Script(stmt, env));
    assert [] + Script(stmt, env) == Script(stmt, env);
  }

  lemma AssignLeads(stmt: Stmt, st: State, env: Setting)
    requires !st.ignore && stmt.ProceduralAssign?
    ensures Leads(st.scopes, st, Visit(stmt, st, env), env, Script(stmt, env))
  {
    var base, r := st.scopes, Visit(stmt, st, env);
    var s1 := VisitExpr(stmt.left, st);
    var s2 := VisitExpr(stmt.right, s1);
    var p1, p2 := ExprScript(stmt.left), ExprScript(stmt.right);
    var last := if stmt.target.Some? then [Assign(stmt.target.value, stmt.text)] else [];
    LeadsExpr(base, stmt.left, st, env);
    LeadsExpr(base, stmt.right, s1, env);
    assert last != [] ==> last[1..] == [];
    LeadsSilently(base, s2, r, env, last);
    LeadsOn(base, st, s1, s2, env, p1, p2);
    LeadsOn(base, st, s2, r, env, p1 + p2, last);
  }

  lemma {:induction false} ActionLeads(stmt: Stmt, st: State, env: Setting)
    requires stmt.Immediate?
    ensures Leads(st.scopes, st, VisitOptional(stmt.ifFalse, VisitOptional(stmt.ifTrue, st, env), env), env,
                  ScriptOptional(stmt.ifTrue, env) + ScriptOptional(stmt.ifFalse, env))
    decreases stmt, 0
  {
    var s := VisitOptional(stmt.ifTrue, st, env);
    OptionalLeads(stmt.ifTrue, st, env);
    OptionalLeads(stmt.ifFalse, s, env);
    LeadsOn(st.scopes, st, s, VisitOptional(stmt.ifFalse, s, env), env,
            ScriptOptional(stmt.ifTrue, env), ScriptOptional(stmt.ifFalse, env));
  }

  lemma {:induction false} ImmediateLeads(stmt: Stmt, st: State, env: Setting)
    requires !st.ignore && stmt.Immediate?
    ensures Leads(st.scopes, st, Visit(stmt, st, env), env, Script(stmt, env))
    decreases stmt, 1
  {
    if stmt.cond.None? {
      LeadsSilently(st.scopes, st, st, env, []);
    } else {
      var base, e := st.scopes, stmt.cond.value;
      var s1 := Check(e, stmt.conversion, st, env);
      var p1 := CheckScript(e, stmt.conversion);
      LeadsCheck(st, e, stmt.conversion, env);
      if stmt.conversion.Formula? {
        var p2 := ScriptOptional(stmt.ifTrue, env) + ScriptOptional(stmt.ifFalse, env);
        ActionLeads(stmt, s1, env);
        LeadsOn(base, st, s1, Visit(stmt, st, env), env, p1, p2);
      } else {
        assert p1 + [] == p1;
      }
    }
  }

  lemma {:induction false} VisitAllLeads(stmts: seq<Stmt>, st: State, env: Setting)
    ensures Leads(st.scopes, st, VisitAll(stmts, st, env), env, ScriptAll(stmts, env))
    decreases stmts, 0
  {
    if stmts == [] {
      LeadsSilently(st.scopes, st, st, env, []);
    } else {
      var s1 := Visit(stmts[0], st, env);
      VisitLeads(stmts[0], st, env);
      VisitAllLeads(stmts[1..], s1, env);
      LeadsOn(st.scopes, st, s1, VisitAll(stmts[1..], s1, env), env, Script(stmts[0], env), ScriptAll(stmts[1..], env));
    }
  }

  lemma {:induction false} LabelsLead(subject: Expr, item: CaseItem, i: nat, st: State, env: Setting)
    requires i <= |item.labels|
    ensures var r := VisitLabels(subject, item, i, st, env);
      Leads(st.scopes, st, r.0, env, ScriptLabels(subject, item, i, env)) && (!r.1 ==> r.0.ignore)
    decreases item, 0, |item.labels| - i
  {
    if i == |item.labels| {
      LeadsSilently(st.scopes, st, st, env, []);
    } else {
      var pattern := item.labels[i];
      var c := CaseGuard(subject, pattern, env);
      var g := Guard(VisitExpr(pattern, st), c);
      var p, q, rest := GuardScript(pattern, c), ScriptAll(item.body, env), ScriptLabels(subject, item, i + 1, env);
      if env.sat(g.scopes) {
        var b := VisitAll(item.body, g, env);
        VisitAllLeads(item.body, g, env);
        LeadsUnderGuard(st, pattern, c, b, env, q);
        LabelsLead(subject, item, i + 1, Pop(b), env);
        LeadsOn(st.scopes, st, Pop(b), VisitLabels(subject, item, i + 1, Pop(b), env).0, env, p + q, rest);
      } else {
        LeadsGuard(st, pattern, c, env);
        LeadsOff(st.scopes, st, SwitchOff(g), env, p, q);
        LeadsOff(st.scopes, st, SwitchOff(g), env, p + q, rest);
      }
    }
  }

  lemma {:induction false} ItemsLead(subject: Expr, items: seq<CaseItem>, st: State, env: Setting)
    ensures Leads(st.scopes, st, VisitItems(subject, items, st, env), env, ScriptItems(subject, items, env))
    decreases items, 1
  {
    if items == [] {
      LeadsSilently(st.scopes, st, st, env, []);
    } else {
      var (next, on) := VisitLabels(subject, items[0], 0, st, env);
      var p, q := ScriptLabels(subject, items[0], 0, env), ScriptItems(subject, items[1..], env);
      LabelsLead(subject, items[0], 0, st, env);
      if on {
        ItemsLead(subject, items[1..], next, env);
        LeadsOn(st.scopes, st, next, VisitItems(subject, items[1..], next, env), env, p, q);
      } else {
        LeadsOff(st.scopes, st, next, env, p, q);
      }
    }
  }

  // ---------- what a run reports ----------

  ghost predicate SomeRefused(qs: seq<Scopes>, sat: Scopes -> bool) {
    exists i :: 0 <= i < |qs| && IsGuard(qs[i]) && !sat(qs[i])
  }

  /** The conditions whose negation the solver accepted. */
  function Refuted(qs: seq<Scopes>, sat: Scopes -> bool): seq<int> {
    if qs == [] then []
    else
      var topic := Topic(qs[0]);
      (if topic.Question? && !topic.tracked && topic.c.Negated? && sat(qs[0]) then [topic.c.e] else [])
      + Refuted(qs[1..], sat)
  }

  lemma {:induction false} HeardRefusal(rep: Report, qs: seq<Scopes>, sat: Scopes -> bool)
    ensures HearAll(rep, qs, sat).ignore <==> rep.ignore || SomeRefused(qs, sat)
    decreases |qs|
  {
    if qs != [] {
      HeardRefusal(Hear(rep, qs[0], sat), qs[1..], sat);
      if SomeRefused(qs[1..], sat) {
        var i :| 0 <= i < |qs[1..]| && IsGuard(qs[1..][i]) && !sat(qs[1..][i]);
        assert qs[i + 1] == qs[1..][i];
      }
      if SomeRefused(qs, sat) {
        var i :| 0 <= i < |qs| && IsGuard(qs[i]) && !sat(qs[i]);
        assert i > 0 ==> qs[1..][i - 1] == qs[i];
      }
    }
  }

  lemma {:induction false} HeardRefutations(rep: Report, qs: seq<Scopes>, sat: Scopes -> bool)
    ensures HearAll(rep, qs, sat).violated == rep.violated + Refuted(qs, sat)
    decreases |qs|
  {
    if qs != [] {
      HeardRefutations(Hear(rep, qs[0], sat), qs[1..], sat);
    }
  }

  lemma {:induction false} HeardLabel(rep: Report, qs: seq<Scopes>, sat: Scopes -> bool, j: nat)
    requires HearAll(rep, qs, sat).inOrder
    ensures rep.inOrder && rep.counter <= HearAll(rep, qs, sat).counter
    ensures j < |qs| && IsGuard(qs[j]) ==> rep.counter < Tag(qs[j]) <= HearAll(rep, qs, sat).counter
    decreases |qs|
  {
    if qs != [] {
      HeardLabel(Hear(rep, qs[0], sat), qs[1..], sat, if j == 0 then 0 else j - 1);
      assert 0 < j < |qs| ==> qs[1..][j - 1] == qs[j];
    }
  }

  lemma {:induction false} HeardLabels(rep: Report, qs: seq<Scopes>, sat: Scopes -> bool, i: nat, j: nat)
    requires HearAll(rep, qs, sat).inOrder
    requires i < j < |qs| && IsGuard(qs[i]) && IsGuard(qs[j])
    ensures Tag(qs[i]) < Tag(qs[j])
    decreases |qs|
  {
    var next := Hear(rep, qs[0], sat);
    assert qs[1..][j - 1] == qs[j];
    if i == 0 {
      HeardLabel(next, qs[1..], sat, j - 1);
    } else {
      assert qs[1..][i - 1] == qs[i];
      HeardLabels(next, qs[1..], sat, i - 1, j - 1);
    }
  }

  /** Labels of the guards asked about, in order: above the old count, up to the new one, and never the same twice. */
  ghost predicate LabelsGrow(qs: seq<Scopes>, from: nat, to: nat) {
    && (forall i | 0 <= i < |qs| && IsGuard(qs[i]) :: from < Tag(qs[i]) <= to)
    && (forall i, j | 0 <= i < j < |qs| && IsGuard(qs[i]) && IsGuard(qs[j]) ::
          Tag(qs[i]) < Tag(qs[j]))
  }

  /**
    For every statement and every solver: the visitor is switched off exactly if some guard was
    refused, it reports exactly the assertions whose negation was accepted, no label is used twice,
    and the caller's scopes lie under everything that was asked.
   */
  lemma VisitReports(stmt: Stmt, st: State, env: Setting)
    ensures var r := Visit(stmt, st, env);
      && st.asked <= r.asked && Above(st.scopes, New(st, r))
      && (r.ignore <==> st.ignore || SomeRefused(New(st, r), env.sat))
      && (st.abandon == st.ignore ==> r.abandon == r.ignore)
      && r.violated == st.violated + Refuted(New(st, r), env.sat)
      && st.counter <= r.counter && LabelsGrow(New(st, r), st.counter, r.counter)
  {
    var r := Visit(stmt, st, env);
    VisitLeads(stmt, st, env);
    var qs, rep := New(st, r), ReportOf(st);
    HeardRefusal(rep, qs, env.sat);
    HeardRefutations(rep, qs, env.sat);
    HeardLabel(rep, qs, env.sat, 0);
    forall i | 0 <= i < |qs| && IsGuard(qs[i]) ensures st.counter < Tag(qs[i]) <= r.counter {
      HeardLabel(rep, qs, env.sat, i);
    }
    forall i, j | 0 <= i < j < |qs| && IsGuard(qs[i]) && IsGuard(qs[j])
      ensures Tag(qs[i]) < Tag(qs[j])
    {
      HeardLabels(rep, qs, env.sat, i, j);
    }
  }

  /** A visit that is not switched off makes the script's assignments and asks the script's questions, in order. */
  lemma ScriptFollowed(stmt: Stmt, st: State, env: Setting)
    requires !Visit(stmt, st, env).ignore
    ensures var r := Visit(stmt, st, env);
      && r.store == Play(Script(stmt, env), st.store)
      && |st.asked| <= |r.asked| && Topics(New(st, r)) == Questions(Script(stmt, env))
  {
    VisitLeads(stmt, st, env);
  }
}
