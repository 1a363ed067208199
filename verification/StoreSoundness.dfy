/**
  Assignments on the textual store: the visitor object, its step relation, and when, after any run,
  every text in the store means what concrete execution computed.
 */
module StoreSoundness {
  import opened StoreSubstitution
  import opened SymbolicStore
  import opened WordText

  /** Left-hand sides without an identifier are skipped by the visitor. */
  datatype Target = Ident(name: string) | NoIdentifier

  /** A blocking or non-blocking assignment: both are applied at once. */
  datatype Assignment = Assign(lhs: Target, rhs: Expr)

  // ---------- the visitor ----------

  /** A literal is stored without the white space in front of it. */
  function AssignText(store: Store, lhs: string, rhs: Expr, order: seq<string>): Store
    requires NamesOf(order, store)
  {
    if rhs.Name? && rhs.id in store then store[lhs := store[rhs.id]]
    else if rhs.Lit? then store[lhs := rhs.digits]
    else store[lhs := SubstituteAll(Print(rhs), store, order)]
  }

  /** One visited assignment, whatever way the sort breaks its ties. */
  ghost predicate Step(store: Store, a: Assignment, store': Store)
  {
    match a.lhs
    case NoIdentifier => store' == store
    case Ident(x) =>
      exists order :: LongestFirst(order, store.Keys) && NamesOf(order, store)
        && store' == AssignText(store, x, a.rhs, order)
  }

  ghost predicate Run(stores: seq<Store>, program: seq<Assignment>) {
    && |stores| == |program| + 1
    && forall i | 0 <= i < |program| :: Step(stores[i], program[i], stores[i + 1])
  }

  class Visitor {
    var store: Store

    constructor (initial: Store)
      ensures store == initial
    {
      store := initial;
    }

    /** The assignment cases of `visit_expr`. */
    method VisitAssignment(a: Assignment)
      requires forall k | k in store :: IsName(k)
      modifies this
      ensures Step(old(store), a, store)
    {
      match a.lhs
      case NoIdentifier =>
      case Ident(x) =>
        ghost var order := SortedByLength(store.Keys);
        if a.rhs.Name? && a.rhs.id in store {
          store := store[x := store[a.rhs.id]];
        } else if a.rhs.Lit? {
          store := store[x := a.rhs.digits];
        } else {
          var text;
          text, order := SubstituteSymbols(Print(a.rhs), store);
          store := store[x := text];
        }
        assert store == AssignText(old(store), x, a.rhs, order);
    }

    /** A basic block of assignments, visited in order. */
    method VisitBlock(program: seq<Assignment>) returns (ghost stores: seq<Store>)
      requires forall k | k in store :: IsName(k)
      requires forall a | a in program :: a.lhs.Ident? ==> IsName(a.lhs.name)
      modifies this
      ensures Run(stores, program) && stores[0] == old(store) && stores[|program|] == store
    {
      stores := [store];
      for i := 0 to |program|
        invariant Run(stores, program[..i]) && stores[0] == old(store) && stores[i] == store
        invariant forall k | k in store :: IsName(k)
      {
        VisitAssignment(program[i]);
        stores := stores + [store];
        assert program[i] in program && program[..i + 1] == program[..i] + [program[i]];
      }
      assert program[..|program|] == program;
    }
  }

  // ---------- concrete execution ----------

  /** One assignment, executed concretely; a name that is not set has its initial value. */
  function ExecStep<V>(env: map<string, V>, a: Assignment, sem: Sem<V>, sigma: string -> V): map<string, V> {
    match a.lhs
    case NoIdentifier => env
    case Ident(x) => env[x := Eval(a.rhs, sem, env, sigma)]
  }

  /** Concrete execution, one assignment at a time. */
  function Exec<V>(env: map<string, V>, program: seq<Assignment>, sem: Sem<V>, sigma: string -> V): map<string, V>
    decreases |program|
  {
    if program == [] then env else Exec(ExecStep(env, program[0], sem, sigma), program[1..], sem, sigma)
  }

  /** The characters of a text read as an expression over initial values, and its value is v. */
  ghost predicate TextDenotes<V>(text: string, sem: Sem<V>, sigma: string -> V, v: V) {
    exists e :: Reads(text, e) && Eval(e, sem, map[], sigma) == v
  }

  /** A printed expression denotes its value, and nothing else. */
  lemma PrintDenotesExactly<V>(e: Expr, sem: Sem<V>, sigma: string -> V, v: V)
    requires WellFormed(e)
    ensures TextDenotes(Print(e), sem, sigma, v) <==> v == Eval(e, sem, map[], sigma)
  {
    ReadsExactly(Print(e), e);
  }

  /** Every text of the store denotes the concrete value of its variable. */
  ghost predicate Denotes<V>(store: Store, sem: Sem<V>, sigma: string -> V, env: map<string, V>) {
    && store.Keys == env.Keys
    && forall x | x in store :: TextDenotes(store[x], sem, sigma, env[x])
  }

  lemma {:induction false} EvalSubst<V>(e: Expr, trees: map<string, Expr>,
                                        sem: Sem<V>, sigma: string -> V, env: map<string, V>)
    requires trees.Keys == env.Keys && forall x | x in trees :: Eval(trees[x], sem, map[], sigma) == env[x]
    ensures Eval(Subst(e, trees), sem, map[], sigma) == Eval(e, sem, env, sigma)
  {
    match e
    case Unary(_, a) =>
      EvalSubst(a, trees, sem, sigma, env);
    case Binary(a, _, _, b) =>
      EvalSubst(a, trees, sem, sigma, env);
      EvalSubst(b, trees, sem, sigma, env);
    case _ =>
  }

  // ---------- soundness of a run ----------

  /** Copies and literals never look at other entries. */
  predicate IsCompound(a: Assignment) {
    a.lhs.Ident? && (a.rhs.Unary? || a.rhs.Binary?)
  }

  ghost predicate SettledStore(store: Store) {
    exists trees :: Represents(store, trees) && Settled(trees)
  }

  lemma TreesDenote<V>(store: Store, trees: map<string, Expr>, sem: Sem<V>, sigma: string -> V, env: map<string, V>)
    requires Represents(store, trees) && Denotes(store, sem, sigma, env)
    ensures forall x | x in trees :: Eval(trees[x], sem, map[], sigma) == env[x]
  {
    forall x | x in trees ensures Eval(trees[x], sem, map[], sigma) == env[x] {
      PrintDenotesExactly(trees[x], sem, sigma, env[x]);
    }
  }

  lemma DenotesUpdate<V>(store: Store, x: string, e: Expr, sem: Sem<V>, sigma: string -> V, env: map<string, V>)
    requires Denotes(store, sem, sigma, env) && WellFormed(e)
    ensures Denotes(store[x := Print(e)], sem, sigma, env[x := Eval(e, sem, map[], sigma)])
  {
    PrintDenotesExactly(e, sem, sigma, Eval(e, sem, map[], sigma));
  }

  /** A name without an entry is left alone. */
  lemma {:induction false} UnknownNameStays(name: string, store: Store, order: seq<string>)
    requires IsName(name) && name !in store && NamesOf(order, store)
    ensures SubstituteAll(name, store, order) == name
    decreases |order|
  {
    if order != [] {
      ReplaceInWord(name, order[0], store[order[0]]);
      UnknownNameStays(name, store, order[1..]);
    }
  }

  /** Copying a name or storing a literal is right whatever the store holds. */
  lemma SimpleStepSound<V>(store: Store, a: Assignment, store': Store,
                           sem: Sem<V>, sigma: string -> V, env: map<string, V>)
    requires WellFormed(a.rhs) && !IsCompound(a)
    requires Denotes(store, sem, sigma, env) && Step(store, a, store')
    ensures Denotes(store', sem, sigma, ExecStep(env, a, sem, sigma))
  {
    if a.lhs.Ident? {
      var order :| LongestFirst(order, store.Keys) && NamesOf(order, store)
        && store' == AssignText(store, a.lhs.name, a.rhs, order);
      if a.rhs.Lit? {
        var plain := Lit("", a.rhs.digits);
        assert Print(plain) == a.rhs.digits;
        DenotesUpdate(store, a.lhs.name, plain, sem, sigma, env);
      } else if a.rhs.id !in store {
        UnknownNameStays(a.rhs.id, store, order);
        DenotesUpdate(store, a.lhs.name, a.rhs, sem, sigma, env);
      }
    }
  }

  lemma CompoundStepSound<V>(store: Store, a: Assignment, store': Store, trees: map<string, Expr>,
                             sem: Sem<V>, sigma: string -> V, env: map<string, V>)
    requires WellFormed(a.rhs) && IsCompound(a) && Represents(store, trees) && Settled(trees)
    requires Denotes(store, sem, sigma, env) && Step(store, a, store')
    ensures Denotes(store', sem, sigma, ExecStep(env, a, sem, sigma))
  {
    var order :| LongestFirst(order, store.Keys) && NamesOf(order, store)
      && store' == AssignText(store, a.lhs.name, a.rhs, order);
    LongestFirstSubstitutes(Print(a.rhs), store, order);
    var e := Subst(a.rhs, trees);
    SubstWellFormed(a.rhs, trees);
    TreesDenote(store, trees, sem, sigma, env);
    EvalSubst(a.rhs, trees, sem, sigma, env);
    DenotesUpdate(store, a.lhs.name, e, sem, sigma, env);
  }

  /** A single assignment keeps the store's meaning in step with concrete execution. */
  lemma StepSound<V>(store: Store, a: Assignment, store': Store, sem: Sem<V>, sigma: string -> V, env: map<string, V>)
    requires WellFormed(a.rhs) && (IsCompound(a) ==> SettledStore(store))
    requires Denotes(store, sem, sigma, env) && Step(store, a, store')
    ensures Denotes(store', sem, sigma, ExecStep(env, a, sem, sigma))
  {
    if IsCompound(a) {
      var trees :| Represents(store, trees) && Settled(trees);
      CompoundStepSound(store, a, store', trees, sem, sigma, env);
    } else {
      SimpleStepSound(store, a, store', sem, sigma, env);
    }
  }

  /** Every store that a compound assignment reads is settled. */
  ghost predicate SettledRun(stores: seq<Store>, program: seq<Assignment>)
    requires |stores| == |program| + 1
  {
    forall i | 0 <= i < |program| && IsCompound(program[i]) :: SettledStore(stores[i])
  }

  lemma {:induction false} RunSoundFrom<V>(stores: seq<Store>, program: seq<Assignment>, i: nat,
                                           sem: Sem<V>, sigma: string -> V, env: map<string, V>)
    requires i <= |program| && Run(stores, program) && SettledRun(stores, program)
    requires forall a | a in program :: WellFormed(a.rhs)
    requires Denotes(stores[i], sem, sigma, env)
    ensures Denotes(stores[|program|], sem, sigma, Exec(env, program[i..], sem, sigma))
    decreases |program| - i
  {
    if i < |program| {
      var a := program[i];
      assert a in program;
      assert program[i..][0] == a && program[i..][1..] == program[i + 1..];
      StepSound(stores[i], a, stores[i + 1], sem, sigma, env);
      RunSoundFrom(stores, program, i + 1, sem, sigma, ExecStep(env, a, sem, sigma));
    }
  }

  /**
    Soundness of the symbolic store. If every store that a compound assignment reads is settled, then
    after the run each text is the print of an expression over initial values, and under every
    valuation of these and every interpretation of the operators it evaluates to what running the
    assignments one by one gives.
   */
  lemma RunSound<V>(stores: seq<Store>, program: seq<Assignment>, sem: Sem<V>, sigma: string -> V, env: map<string, V>)
    requires Run(stores, program) && SettledRun(stores, program)
    requires forall a | a in program :: WellFormed(a.rhs)
    requires Denotes(stores[0], sem, sigma, env)
    ensures Denotes(stores[|program|], sem, sigma, Exec(env, program, sem, sigma))
  {
    assert program[0..] == program;
    RunSoundFrom(stores, program, 0, sem, sigma, env);
  }

  // ---------- runs that start from fresh symbols ----------

  /** Every assignment reads only names that have an entry by then. */
  predicate Defined(keys: set<string>, program: seq<Assignment>)
    decreases |program|
  {
    program == [] ||
    var a := program[0];
    && (a.lhs.Ident? ==> Names(a.rhs) <= keys)
    && Defined(keys + (if a.lhs.Ident? then {a.lhs.name} else {}), program[1..])
  }

  predicate Avoids(e: Expr, vars: set<string>) {
    forall n | n in Names(e) :: n !in vars
  }

  /** No text mentions a variable. */
  ghost predicate OverSymbols(store: Store, trees: map<string, Expr>, vars: set<string>) {
    && Represents(store, trees)
    && store.Keys <= vars
    && forall k | k in trees :: Avoids(trees[k], vars)
  }

  lemma {:induction false} SubstOverSymbols(e: Expr, trees: map<string, Expr>, vars: set<string>)
    requires Names(e) <= trees.Keys && forall k | k in trees :: Avoids(trees[k], vars)
    ensures Avoids(Subst(e, trees), vars)
  {
    match e
    case Unary(_, a) =>
      SubstOverSymbols(a, trees, vars);
    case Binary(a, _, _, b) =>
      SubstOverSymbols(a, trees, vars);
      SubstOverSymbols(b, trees, vars);
    case _ =>
  }

  lemma FreshIsSettled(store: Store, trees: map<string, Expr>, vars: set<string>)
    requires OverSymbols(store, trees, vars)
    ensures Settled(trees)
  {
  }

  /** What an assignment stores, as a tree. */
  function Stored(rhs: Expr, trees: map<string, Expr>): Expr {
    if rhs.Lit? then Lit("", rhs.digits) else Subst(rhs, trees)
  }

  lemma StoredText(store: Store, x: string, rhs: Expr, order: seq<string>, trees: map<string, Expr>)
    requires WellFormed(rhs) && Names(rhs) <= store.Keys && Represents(store, trees) && Settled(trees)
    requires LongestFirst(order, store.Keys) && NamesOf(order, store)
    ensures WellFormed(Stored(rhs, trees))
    ensures AssignText(store, x, rhs, order) == store[x := Print(Stored(rhs, trees))]
  {
    LongestFirstSubstitutes(Print(rhs), store, order);
    SubstWellFormed(rhs, trees);
    assert rhs.Lit? ==> "" + rhs.digits == rhs.digits;
  }

  lemma RepresentsUpdate(store: Store, trees: map<string, Expr>, x: string, e: Expr)
    requires Represents(store, trees) && IsName(x) && WellFormed(e)
    ensures Represents(store[x := Print(e)], trees[x := e])
  {
    var store', trees' := store[x := Print(e)], trees[x := e];
    assert store'.Keys == store.Keys + {x} && trees'.Keys == trees.Keys + {x};
    forall k | k in store' ensures IsName(k) && WellFormed(trees'[k]) && store'[k] == Print(trees'[k]) {
      assert k == x || (k in store && store'[k] == store[k] && trees'[k] == trees[k]);
    }
  }

  lemma OverSymbolsUpdate(store: Store, trees: map<string, Expr>, vars: set<string>, x: string, e: Expr)
    requires OverSymbols(store, trees, vars) && x in vars && IsName(x) && WellFormed(e) && Avoids(e, vars)
    ensures OverSymbols(store[x := Print(e)], trees[x := e], vars)
  {
    RepresentsUpdate(store, trees, x, e);
    var trees' := trees[x := e];
    forall k | k in trees' ensures Avoids(trees'[k], vars) {
      assert k == x || trees'[k] == trees[k];
    }
  }

  /** The invariant that keeps a store settled. */
  lemma FreshStep(store: Store, a: Assignment, store': Store, trees: map<string, Expr>, vars: set<string>)
      returns (trees': map<string, Expr>)
    requires OverSymbols(store, trees, vars) && Step(store, a, store')
    requires a.lhs.Ident? ==>
      WellFormed(a.rhs) && a.lhs.name in vars && IsName(a.lhs.name) && Names(a.rhs) <= store.Keys
    ensures OverSymbols(store', trees', vars)
    ensures store'.Keys == store.Keys + (if a.lhs.Ident? then {a.lhs.name} else {})
  {
    trees' := trees;
    if a.lhs.Ident? {
      var order :| LongestFirst(order, store.Keys) && NamesOf(order, store)
        && store' == AssignText(store, a.lhs.name, a.rhs, order);
      FreshAssigned(store, a.lhs.name, a.rhs, order, trees, vars);
      trees' := trees[a.lhs.name := Stored(a.rhs, trees)];
    }
  }

  lemma FreshAssigned(store: Store, x: string, rhs: Expr, order: seq<string>,
                      trees: map<string, Expr>, vars: set<string>)
    requires OverSymbols(store, trees, vars) && LongestFirst(order, store.Keys) && NamesOf(order, store)
    requires WellFormed(rhs) && x in vars && IsName(x) && Names(rhs) <= store.Keys
    ensures OverSymbols(AssignText(store, x, rhs, order), trees[x := Stored(rhs, trees)], vars)
    ensures AssignText(store, x, rhs, order).Keys == store.Keys + {x}
  {
    FreshIsSettled(store, trees, vars);
    StoredText(store, x, rhs, order, trees);
    SubstOverSymbols(rhs, trees, vars);
    OverSymbolsUpdate(store, trees, vars, x, Stored(rhs, trees));
  }

  lemma {:induction false} FreshRunSettled(stores: seq<Store>, program: seq<Assignment>, vars: set<string>,
                                           i: nat, trees: map<string, Expr>)
    requires i <= |program| && Run(stores, program) && OverSymbols(stores[i], trees, vars)
    requires forall a | a in program :: WellFormed(a.rhs) && (a.lhs.Ident? ==> a.lhs.name in vars && IsName(a.lhs.name))
    requires Defined(stores[i].Keys, program[i..])
    ensures forall j | i <= j <= |program| :: SettledStore(stores[j])
    decreases |program| - i
  {
    FreshIsSettled(stores[i], trees, vars);
    if i < |program| {
      var a := program[i];
      assert a in program;
      assert program[i..][0] == a && program[i..][1..] == program[i + 1..];
      var trees' := FreshStep(stores[i], a, stores[i + 1], trees, vars);
      FreshRunSettled(stores, program, vars, i + 1, trees');
    }
  }

  /** The concrete start: every variable has the value of its symbol. */
  function InitialEnv<V>(store: Store, sigma: string -> V): (env: map<string, V>)
    ensures env.Keys == store.Keys
  {
    map x | x in store :: sigma(store[x])
  }

  /**
    Started with every variable at a fresh symbol, and reading only names that have an entry, a run
    keeps every store settled, and so the store is sound after it.
   */
  lemma FreshRunSound<V>(stores: seq<Store>, program: seq<Assignment>, vars: set<string>,
                         sem: Sem<V>, sigma: string -> V)
    requires Run(stores, program) && stores[0].Keys <= vars && (forall x | x in vars :: IsName(x))
    requires forall x | x in stores[0] :: IsName(stores[0][x]) && stores[0][x] !in vars
    requires forall a | a in program :: WellFormed(a.rhs) && (a.lhs.Ident? ==> a.lhs.name in vars)
    requires Defined(stores[0].Keys, program)
    ensures Denotes(stores[|program|], sem, sigma, Exec(InitialEnv(stores[0], sigma), program, sem, sigma))
  {
    var store := stores[0];
    var trees := map x | x in store :: Name(store[x]);
    assert program[0..] == program;
    FreshRunSettled(stores, program, vars, 0, trees);
    forall x | x in store ensures TextDenotes(store[x], sem, sigma, InitialEnv(store, sigma)[x]) {
      PrintDenotesExactly(trees[x], sem, sigma, sigma(store[x]));
    }
    RunSound(stores, program, sem, sigma, InitialEnv(store, sigma));
  }

  // ---------- stores that are not settled ----------

  /** The meaning that forgets nothing but white space: expressions stand for themselves. */
  const FREE: Sem<Expr> := Sem(d => Lit("", d), (op, v) => Unary(op, v), (op, v, w) => Binary(v, "", op, w))

  const ITSELF: string -> Expr := n => Name(n)

  lemma FreeOperators(op: string, v: Expr, w: Expr)
    ensures FREE.unary(op, v) == Unary(op, v) && FREE.binary(op, v, w) == Binary(v, "", op, w)
  {
  }

  function Plain(e: Expr): Expr {
    match e
    case Name(_) => e
    case Lit(_, digits) => Lit("", digits)
    case Unary(op, a) => Unary(op, Plain(a))
    case Binary(a, _, op, b) => Binary(Plain(a), "", op, Plain(b))
  }

  function PlainEnv(trees: map<string, Expr>): (env: map<string, Expr>)
    ensures env.Keys == trees.Keys
  {
    map k | k in trees :: Plain(trees[k])
  }

  lemma {:induction false} PlainIsFree(e: Expr)
    ensures Eval(e, FREE, map[], ITSELF) == Plain(e)
  {
    match e
    case Unary(_, a) =>
      PlainIsFree(a);
    case Binary(a, _, _, b) =>
      PlainIsFree(a);
      PlainIsFree(b);
    case _ =>
  }

  lemma {:induction false} PlainChanges(e: Expr, m: map<string, Expr>, n: string)
    requires n in Names(e) && n in m && m[n] != Name(n)
    ensures Plain(Subst(e, m)) != Plain(e)
  {
    match e
    case Unary(_, a) =>
      PlainChanges(a, m, n);
    case Binary(a, _, _, b) =>
      if n in Names(a) {
        PlainChanges(a, m, n);
      } else {
        PlainChanges(b, m, n);
      }
    case _ =>
  }

  lemma {:induction false} SubstituteInUnary(op: string, text: string, store: Store, order: seq<string>)
    requires IsOperator(op) && NamesOf(order, store)
    ensures SubstituteAll("(" + op + text + ")", store, order) == "(" + op + SubstituteAll(text, store, order) + ")"
    decreases |order|
  {
    if order != [] {
      ReplaceUnary(op, text, order[0], store[order[0]]);
      SubstituteInUnary(op, ReplaceWord(text, order[0], store[order[0]]), store, order[1..]);
    }
  }

  /** The assignment that shows it: `x = !k`. */
  function Negation(x: string, k: string): Assignment {
    Assign(Ident(x), Unary("!", Name(k)))
  }

  /** The text that this assignment gets when k is replaced before a name in its value. */
  lemma NegatedText(store: Store, k: string, order: seq<string>, e: Expr)
    requires NamesOf(order, store) && SubstituteAll(k, store, order) == Print(e)
    ensures SubstituteAll(Print(Negation("", k).rhs), store, order) == Print(Unary("!", e))
  {
    SubstituteInUnary("!", k, store, order);
  }

  lemma NegatedCapture(store: Store, trees: map<string, Expr>, order: seq<string>, i: nat, n: string)
    requires Represents(store, trees) && Distinct(order) && NamesOf(order, store)
    requires i < |order| && SettledAlong(trees, order[i + 1..]) && order[i] in trees
    requires n in order[i + 1..] && n in Names(trees[order[i]]) && n in trees && trees[n] != Name(n)
    ensures !TextDenotes(SubstituteAll(Print(Negation("", order[i]).rhs), store, order), FREE, ITSELF,
                         Unary("!", Plain(trees[order[i]])))
  {
    var tree, m := trees[order[i]], Restrict(trees, order[i + 1..]);
    CapturedText(store, trees, order, i);
    NegatedText(store, order[i], order, Subst(tree, m));
    RestrictWellFormed(store, trees, order[i + 1..]);
    SubstWellFormed(tree, m);
    PlainChanges(tree, m, n);
    WrongNegation(SubstituteAll(Print(Negation("", order[i]).rhs), store, order), Subst(tree, m), tree);
  }

  lemma RestrictWellFormed(store: Store, trees: map<string, Expr>, order: seq<string>)
    requires Represents(store, trees)
    ensures forall k | k in Restrict(trees, order) :: WellFormed(Restrict(trees, order)[k])
  {
  }

  lemma WrongNegation(text: string, e: Expr, f: Expr)
    requires WellFormed(e) && text == Print(Unary("!", e)) && Plain(e) != Plain(f)
    ensures !TextDenotes(text, FREE, ITSELF, Unary("!", Plain(f)))
  {
    WrongValue(text, Unary("!", e), Unary("!", Plain(f)));
  }

  /** In a store that is not settled some next assignment gets a text with another value. */
  lemma UnsettledGoesWrong(store: Store, trees: map<string, Expr>, x: string) returns (k: string, store': Store)
    requires Represents(store, trees) && !Settled(trees)
    ensures k in store && Step(store, Negation(x, k), store') && x in store'
    ensures !TextDenotes(store'[x], FREE, ITSELF, Unary("!", Plain(trees[k])))
  {
    var order := UnsettledInOrder(trees);
    OrderIsOfNames(store, trees, order);
    var i, n := LastCapture(trees, order);
    k := order[i];
    assert n in order;
    NegatedCapture(store, trees, order, i, n);
    store' := AssignText(store, x, Negation(x, k).rhs, order);
  }

  lemma WrongValue(text: string, e: Expr, v: Expr)
    requires WellFormed(e) && text == Print(e) && Plain(e) != v
    ensures !TextDenotes(text, FREE, ITSELF, v)
  {
    PlainIsFree(e);
    PrintDenotesExactly(e, FREE, ITSELF, v);
  }

  /** Whatever is assigned next, and however ties are broken, the store keeps its meaning. */
  ghost predicate NextStepsRight(store: Store, env: map<string, Expr>) {
    forall a: Assignment, store' | WellFormed(a.rhs) && Step(store, a, store') ::
      Denotes(store', FREE, ITSELF, ExecStep(env, a, FREE, ITSELF))
  }

  lemma RepresentedDenotes(store: Store, trees: map<string, Expr>)
    requires Represents(store, trees)
    ensures Denotes(store, FREE, ITSELF, PlainEnv(trees))
  {
    forall x | x in store ensures TextDenotes(store[x], FREE, ITSELF, Plain(trees[x])) {
      PlainIsFree(trees[x]);
      PrintDenotesExactly(trees[x], FREE, ITSELF, Plain(trees[x]));
    }
  }

  lemma SettledNextRight(store: Store, trees: map<string, Expr>)
    requires Represents(store, trees) && Settled(trees)
    ensures NextStepsRight(store, PlainEnv(trees))
  {
    var env := PlainEnv(trees);
    RepresentedDenotes(store, trees);
    forall a: Assignment, store' | WellFormed(a.rhs) && Step(store, a, store')
      ensures Denotes(store', FREE, ITSELF, ExecStep(env, a, FREE, ITSELF))
    {
      StepSound(store, a, store', FREE, ITSELF, env);
    }
  }

  lemma NegationValue(x: string, k: string, trees: map<string, Expr>)
    requires k in trees
    ensures ExecStep(PlainEnv(trees), Negation(x, k), FREE, ITSELF) == PlainEnv(trees)[x := Unary("!", Plain(trees[k]))]
  {
    FreeOperators("!", Plain(trees[k]), Plain(trees[k]));
    assert Eval(Name(k), FREE, PlainEnv(trees), ITSELF) == Plain(trees[k]);
  }

  lemma NegationFormed(x: string, k: string)
    requires IsName(k)
    ensures WellFormed(Negation(x, k).rhs)
  {
  }

  lemma UnsettledNextWrong(store: Store, trees: map<string, Expr>, x: string)
    requires Represents(store, trees) && !Settled(trees)
    ensures !NextStepsRight(store, PlainEnv(trees))
  {
    var k, store' := UnsettledGoesWrong(store, trees, x);
    NegationValue(x, k, trees);
    NegationFormed(x, k);
    WrongStep(store, PlainEnv(trees), Negation(x, k), x, store');
  }

  lemma WrongStep(store: Store, env: map<string, Expr>, a: Assignment, x: string, store': Store)
    requires WellFormed(a.rhs) && Step(store, a, store')
    requires x in store' && x in ExecStep(env, a, FREE, ITSELF)
    requires !TextDenotes(store'[x], FREE, ITSELF, ExecStep(env, a, FREE, ITSELF)[x])
    ensures !NextStepsRight(store, env)
  {
    NotDenoted(store', x, ExecStep(env, a, FREE, ITSELF));
  }

  lemma NotDenoted(store: Store, x: string, env: map<string, Expr>)
    requires x in store && x in env && !TextDenotes(store[x], FREE, ITSELF, env[x])
    ensures !Denotes(store, FREE, ITSELF, env)
  {
  }

  /** Exactly the settled stores are safe for every next assignment. */
  lemma NextStepsRightExactly(store: Store, trees: map<string, Expr>)
    requires Represents(store, trees)
    ensures NextStepsRight(store, PlainEnv(trees)) <==> Settled(trees)
  {
    if Settled(trees) {
      SettledNextRight(store, trees);
    } else {
      UnsettledNextWrong(store, trees, "x");
    }
  }

  // ---------- a program that goes wrong ----------

  const FIVE: Expr := Lit("", "5")
  const NEXT: Expr := Binary(Name("xx"), " ", "+", Lit(" ", "1"))
  const CAPTURED: Expr := Binary(FIVE, " ", "+", Lit(" ", "1"))
  const INTENDED: Expr := Binary(Name("y"), "", "+", Lit("", "1"))
  const CAPTURING: seq<Assignment> :=
    [Assign(Ident("xx"), Name("y")), Assign(Ident("y"), FIVE), Assign(Ident("z"), NEXT)]

  lemma OnlyOrder(order: seq<string>)
    requires LongestFirst(order, {"xx", "y"})
    ensures order == ["xx", "y"]
  {
    assert "xx" in order && "y" in order;
    var i :| 0 <= i < |order| && order[i] == "xx";
    var j :| 0 <= j < |order| && order[j] == "y";
    assert forall m | 0 <= m < |order| :: order[m] in order;
    DistinctFits(order, {"xx", "y"});
    assert |{"xx", "y"}| == 2 && i < j;
  }

  lemma {:induction false} DistinctFits(order: seq<string>, s: set<string>)
    requires Distinct(order) && forall i | 0 <= i < |order| :: order[i] in s
    ensures |order| <= |s|
    decreases |order|
  {
    if order != [] {
      DistinctFits(order[1..], s - {order[0]});
    }
  }

  lemma CapturedSum(store: Store, order: seq<string>)
    requires store == map["xx" := "y", "y" := "5"] && order == ["xx", "y"]
    ensures NamesOf(order, store)
    ensures SubstituteAll(Print(NEXT), store, order) == Print(CAPTURED)
  {
    assert !IsDigit("xx"[0]) && !IsDigit("y"[0]);
    var trees := map["xx" := Name("y"), "y" := FIVE];
    assert Represents(store, trees);
    assert order[1..] == ["y"] && ["y"][1..] == [];
    ReplaceFirst(NEXT, store, trees, order);
    ReplaceFirst(Binary(Name("y"), " ", "+", Lit(" ", "1")), store, trees, ["y"]);
  }

  /**
    Reading a name before it has an entry: after `xx = y; y = 5` the text of xx is still the word y, so
    `z = xx + 1` becomes a sum with 5, although xx was copied before y was set.
   */
  lemma ReadBeforeSetIsCaptured(stores: seq<Store>)
    requires Run(stores, CAPTURING) && stores[0] == map[]
    ensures "z" in stores[3] && "z" in Exec(map[], CAPTURING, FREE, ITSELF)
    ensures !TextDenotes(stores[3]["z"], FREE, ITSELF, Exec(map[], CAPTURING, FREE, ITSELF)["z"])
  {
    assert Step(stores[0], CAPTURING[0], stores[1]);
    assert Step(stores[1], CAPTURING[1], stores[2]);
    assert Step(stores[2], CAPTURING[2], stores[3]);
    CaptureFirst(stores[0], stores[1], stores[2]);
    CaptureLast(stores[2], stores[3]);
    ConcreteSum();
  }

  lemma CaptureLast(store2: Store, store3: Store)
    requires store2 == map["xx" := "y", "y" := "5"] && Step(store2, CAPTURING[2], store3)
    ensures "z" in store3
    ensures !TextDenotes(store3["z"], FREE, ITSELF, INTENDED)
  {
    var order :| LongestFirst(order, store2.Keys) && NamesOf(order, store2)
      && store3 == AssignText(store2, "z", NEXT, order);
    OnlyOrder(order);
    CapturedSum(store2, order);
    WrongSum(store3["z"]);
  }

  lemma WrongSum(text: string)
    requires text == Print(CAPTURED)
    ensures !TextDenotes(text, FREE, ITSELF, INTENDED)
  {
    assert Plain(CAPTURED) != INTENDED && IsDigit("1"[0]) && IsDigit("5"[0]);
    WrongValue(text, CAPTURED, INTENDED);
  }

  lemma CaptureFirst(store0: Store, store1: Store, store2: Store)
    requires store0 == map[] && Step(store0, CAPTURING[0], store1) && Step(store1, CAPTURING[1], store2)
    ensures store2 == map["xx" := "y", "y" := "5"]
  {
    assert !IsDigit("y"[0]);
    var order :| LongestFirst(order, store0.Keys) && NamesOf(order, store0)
      && store1 == AssignText(store0, "xx", Name("y"), order);
    UnknownNameStays("y", store0, order);
  }

  lemma ConcreteSum()
    ensures "z" in Exec(map[], CAPTURING, FREE, ITSELF)
    ensures Exec(map[], CAPTURING, FREE, ITSELF)["z"] == INTENDED
  {
    var env1, env2 := map["xx" := Name("y")], map["xx" := Name("y"), "y" := FIVE];
    assert ExecStep(map[], CAPTURING[0], FREE, ITSELF) == env1;
    assert ExecStep(env1, CAPTURING[1], FREE, ITSELF) == env2;
    SumValue(env2);
    ExecThree(CAPTURING, map[], env1, env2);
  }

  lemma SumValue(env: map<string, Expr>)
    requires "xx" in env && env["xx"] == Name("y")
    ensures Eval(NEXT, FREE, env, ITSELF) == INTENDED
  {
    var l, r := Eval(Name("xx"), FREE, env, ITSELF), Eval(Lit(" ", "1"), FREE, env, ITSELF);
    FreeOperators("+", Name("y"), Lit("", "1"));
    assert l == Name("y") && r == FREE.lit("1") == Lit("", "1");
    assert Eval(Binary(Name("xx"), " ", "+", Lit(" ", "1")), FREE, env, ITSELF) == FREE.binary("+", l, r);
  }

  lemma ExecThree(program: seq<Assignment>, env0: map<string, Expr>, env1: map<string, Expr>, env2: map<string, Expr>)
    requires |program| == 3
    requires env1 == ExecStep(env0, program[0], FREE, ITSELF) && env2 == ExecStep(env1, program[1], FREE, ITSELF)
    ensures Exec(env0, program, FREE, ITSELF) == ExecStep(env2, program[2], FREE, ITSELF)
  {
    var rest, last := program[1..], program[2..];
    assert rest[0] == program[1] && rest[1..] == last && last[0] == program[2] && last[1..] == [];
    assert Exec(env0, program, FREE, ITSELF) == Exec(env1, rest, FREE, ITSELF);
    assert Exec(env1, rest, FREE, ITSELF) == Exec(env2, last, FREE, ITSELF);
    assert Exec(env2, last, FREE, ITSELF) == Exec(ExecStep(env2, program[2], FREE, ITSELF), last[1..], FREE, ITSELF);
  }
}
