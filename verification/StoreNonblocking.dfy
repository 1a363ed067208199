/**
  Non-blocking assignments.  The visitor applies them at once, like blocking ones; a clocked block
  reads every right-hand side before it writes any target.  When the two agree is stated exactly.
 */
module StoreNonblocking {
  import opened StoreSoundness
  import opened StoreSubstitution
  import opened SymbolicStore
  import opened WordText

  // ---------- a clocked block ----------

  /** A write whose right-hand side has the value that the start gives it. */
  function WriteStep<V>(start: map<string, V>, env: map<string, V>, a: Assignment,
                        sem: Sem<V>, sigma: string -> V): map<string, V>
  {
    match a.lhs
    case NoIdentifier => env
    case Ident(x) => env[x := Eval(a.rhs, sem, start, sigma)]
  }

  /** Every right-hand side reads the start; the writes happen in order, so the last one to a target survives. */
  function AtOnce<V>(start: map<string, V>, env: map<string, V>, program: seq<Assignment>,
                     sem: Sem<V>, sigma: string -> V): map<string, V>
    decreases |program|
  {
    if program == [] then env
    else AtOnce(start, WriteStep(start, env, program[0], sem, sigma), program[1..], sem, sigma)
  }

  predicate IsTarget(x: string, program: seq<Assignment>) {
    exists i :: 0 <= i < |program| && program[i].lhs == Ident(x)
  }

  /** What a name stands for; without an entry it stands for itself. */
  function Stands(env: map<string, Expr>, n: string): Expr {
    if n in env then env[n] else Name(n)
  }

  /** Every name that e reads stands for what it stood for at the start. */
  ghost predicate ReadsAsBefore(e: Expr, start: map<string, Expr>, env: map<string, Expr>) {
    forall n | n in Names(e) :: Stands(env, n) == Stands(start, n)
  }

  /** Every write that survives reads only names that, at its turn, stand for what they stood for at the start. */
  ghost predicate ReadsStart(start: map<string, Expr>, env: map<string, Expr>, program: seq<Assignment>)
    decreases |program|
  {
    program == [] ||
    (&& (program[0].lhs.Ident? && !IsTarget(program[0].lhs.name, program[1..]) ==>
           ReadsAsBefore(program[0].rhs, start, env))
     && ReadsStart(start, ExecStep(env, program[0], FREE, ITSELF), program[1..]))
  }

  // ---------- symbolically ----------

  lemma {:induction false} EvalAsBefore(e: Expr, start: map<string, Expr>, env: map<string, Expr>)
    ensures Eval(e, FREE, env, ITSELF) == Eval(e, FREE, start, ITSELF) <==> ReadsAsBefore(e, start, env)
  {
    match e
    case Name(id) =>
      assert ITSELF(id) == Name(id) && id in Names(e);
    case Lit(_, _) =>
    case Unary(op, a) =>
      EvalAsBefore(a, start, env);
      FreeOperators(op, Eval(a, FREE, env, ITSELF), Name(""));
      FreeOperators(op, Eval(a, FREE, start, ITSELF), Name(""));
    case Binary(a, _, op, b) =>
      EvalAsBefore(a, start, env);
      EvalAsBefore(b, start, env);
      FreeOperators(op, Eval(a, FREE, env, ITSELF), Eval(b, FREE, env, ITSELF));
      FreeOperators(op, Eval(a, FREE, start, ITSELF), Eval(b, FREE, start, ITSELF));
  }

  lemma TargetOfRest(x: string, program: seq<Assignment>)
    requires program != []
    ensures IsTarget(x, program) <==> program[0].lhs == Ident(x) || IsTarget(x, program[1..])
  {
    if IsTarget(x, program[1..]) {
      var i :| 0 <= i < |program[1..]| && program[1..][i].lhs == Ident(x);
      assert program[i + 1].lhs == Ident(x);
    }
    if i :| 0 < i < |program| && program[i].lhs == Ident(x) {
      assert program[1..][i - 1].lhs == Ident(x);
    }
  }

  /** What is no target keeps its entry, or has none. */
  lemma {:induction false} UntouchedNames<V>(start: map<string, V>, env: map<string, V>, other: map<string, V>,
                                             program: seq<Assignment>, sem: Sem<V>, sigma: string -> V, x: string)
    ensures var r, s := Exec(env, program, sem, sigma), AtOnce(start, other, program, sem, sigma);
      && (x in r <==> x in env || IsTarget(x, program)) && (x in s <==> x in other || IsTarget(x, program))
      && (!IsTarget(x, program) ==> (x in env ==> r[x] == env[x]) && (x in other ==> s[x] == other[x]))
    decreases |program|
  {
    if program != [] {
      var a := program[0];
      TargetOfRest(x, program);
      UntouchedNames(start, ExecStep(env, a, sem, sigma), WriteStep(start, other, a, sem, sigma), program[1..],
                     sem, sigma, x);
    }
  }

  /** The two runs give x the same value. */
  ghost predicate SameAt(start: map<string, Expr>, env: map<string, Expr>, other: map<string, Expr>,
                         program: seq<Assignment>, x: string)
  {
    var r, s := Exec(env, program, FREE, ITSELF), AtOnce(start, other, program, FREE, ITSELF);
    x in r && x in s && r[x] == s[x]
  }

  lemma {:induction false} TargetsAgreeExactly(start: map<string, Expr>, env: map<string, Expr>,
                                               other: map<string, Expr>, program: seq<Assignment>)
    ensures (forall x | IsTarget(x, program) :: SameAt(start, env, other, program, x)) <==>
              ReadsStart(start, env, program)
    decreases |program|
  {
    if program != [] {
      var a, rest := program[0], program[1..];
      var env', other' := ExecStep(env, a, FREE, ITSELF), WriteStep(start, other, a, FREE, ITSELF);
      TargetsAgreeExactly(start, env', other', rest);
      forall x
        ensures IsTarget(x, program) <==> a.lhs == Ident(x) || IsTarget(x, rest)
        ensures SameAt(start, env, other, program, x) <==> SameAt(start, env', other', rest, x)
      {
        TargetOfRest(x, program);
      }
      if a.lhs.Ident? && !IsTarget(a.lhs.name, rest) {
        UntouchedNames(start, env', other', rest, FREE, ITSELF, a.lhs.name);
        EvalAsBefore(a.rhs, start, env);
        assert SameAt(start, env', other', rest, a.lhs.name) <==> ReadsAsBefore(a.rhs, start, env);
      }
    }
  }

  /** Running the assignments one by one is running them at once exactly if every surviving write reads the start. */
  lemma OneByOneIsAtOnceExactly(env: map<string, Expr>, program: seq<Assignment>)
    ensures Exec(env, program, FREE, ITSELF) == AtOnce(env, env, program, FREE, ITSELF) <==>
              ReadsStart(env, env, program)
  {
    var r, s := Exec(env, program, FREE, ITSELF), AtOnce(env, env, program, FREE, ITSELF);
    TargetsAgreeExactly(env, env, env, program);
    forall x
      ensures x in r <==> x in s
      ensures x in r && !IsTarget(x, program) ==> r[x] == s[x]
    {
      UntouchedNames(env, env, env, program, FREE, ITSELF, x);
    }
    if r == s {
      forall x | IsTarget(x, program) ensures SameAt(env, env, env, program, x) {
        UntouchedNames(env, env, env, program, FREE, ITSELF, x);
      }
    }
    if ReadsStart(env, env, program) {
      forall x | x in r ensures r[x] == s[x] {
        assert IsTarget(x, program) ==> SameAt(env, env, env, program, x);
      }
    }
  }

  // ---------- in every meaning ----------

  /** cur is what the symbolic entries mean when the names have the values of env. */
  ghost predicate Means<V>(sym: map<string, Expr>, cur: map<string, V>, env: map<string, V>,
                           sem: Sem<V>, sigma: string -> V)
  {
    && cur.Keys == env.Keys + sym.Keys
    && (forall n | n in sym :: cur[n] == Eval(sym[n], sem, env, sigma))
    && (forall n | n in env && n !in sym :: cur[n] == env[n])
  }

  lemma {:induction false} EvalMeans<V>(e: Expr, sym: map<string, Expr>, cur: map<string, V>, env: map<string, V>,
                                        sem: Sem<V>, sigma: string -> V)
    requires Means(sym, cur, env, sem, sigma)
    ensures Eval(e, sem, cur, sigma) == Eval(Eval(e, FREE, sym, ITSELF), sem, env, sigma)
  {
    match e
    case Unary(op, a) =>
      EvalMeans(a, sym, cur, env, sem, sigma);
      FreeOperators(op, Eval(a, FREE, sym, ITSELF), Name(""));
    case Binary(a, _, op, b) =>
      EvalMeans(a, sym, cur, env, sem, sigma);
      EvalMeans(b, sym, cur, env, sem, sigma);
      FreeOperators(op, Eval(a, FREE, sym, ITSELF), Eval(b, FREE, sym, ITSELF));
    case _ =>
  }

  lemma {:induction false} ExecMeans<V>(sym: map<string, Expr>, cur: map<string, V>, env: map<string, V>,
                                        program: seq<Assignment>, sem: Sem<V>, sigma: string -> V)
    requires Means(sym, cur, env, sem, sigma)
    ensures Means(Exec(sym, program, FREE, ITSELF), Exec(cur, program, sem, sigma), env, sem, sigma)
    decreases |program|
  {
    if program != [] {
      var a := program[0];
      EvalMeans(a.rhs, sym, cur, env, sem, sigma);
      ExecMeans(ExecStep(sym, a, FREE, ITSELF), ExecStep(cur, a, sem, sigma), env, program[1..], sem, sigma);
    }
  }

  lemma {:induction false} AtOnceMeans<V>(sym: map<string, Expr>, cur: map<string, V>, env: map<string, V>,
                                          program: seq<Assignment>, sem: Sem<V>, sigma: string -> V)
    requires Means(sym, cur, env, sem, sigma)
    ensures Means(AtOnce(map[], sym, program, FREE, ITSELF), AtOnce(env, cur, program, sem, sigma), env, sem, sigma)
    decreases |program|
  {
    if program != [] {
      var a := program[0];
      EvalMeans(a.rhs, map[], env, env, sem, sigma);
      AtOnceMeans(WriteStep(map[], sym, a, FREE, ITSELF), WriteStep(env, cur, a, sem, sigma), env, program[1..],
                  sem, sigma);
    }
  }

  lemma MeansOne<V>(sym: map<string, Expr>, cur: map<string, V>, cur': map<string, V>, env: map<string, V>,
                    sem: Sem<V>, sigma: string -> V)
    requires Means(sym, cur, env, sem, sigma) && Means(sym, cur', env, sem, sigma)
    ensures cur == cur'
  {
    assert forall n | n in cur :: n in sym || n in env;
  }

  /**
    If every surviving write reads only names that are unset by then or still stand for themselves, the
    two ways agree for every meaning of the operators, every valuation and every start.
   */
  lemma OneByOneIsAtOnce<V>(env: map<string, V>, program: seq<Assignment>, sem: Sem<V>, sigma: string -> V)
    requires ReadsStart(map[], map[], program)
    ensures Exec(env, program, sem, sigma) == AtOnce(env, env, program, sem, sigma)
  {
    var none: map<string, Expr> := map[];
    OneByOneIsAtOnceExactly(none, program);
    ExecMeans(none, env, env, program, sem, sigma);
    AtOnceMeans(none, env, env, program, sem, sigma);
    MeansOne(Exec(none, program, FREE, ITSELF), Exec(env, program, sem, sigma),
             AtOnce(env, env, program, sem, sigma), env, sem, sigma);
  }

  // ---------- runs of the visitor ----------

  /** Then the store after a run of a clocked block is right. */
  lemma NonblockingRunSound<V>(stores: seq<Store>, program: seq<Assignment>, sem: Sem<V>, sigma: string -> V,
                               env: map<string, V>)
    requires Run(stores, program) && SettledRun(stores, program)
    requires forall a | a in program :: WellFormed(a.rhs)
    requires Denotes(stores[0], sem, sigma, env) && ReadsStart(map[], map[], program)
    ensures Denotes(stores[|program|], sem, sigma, AtOnce(env, env, program, sem, sigma))
  {
    RunSound(stores, program, sem, sigma, env);
    OneByOneIsAtOnce(env, program, sem, sigma);
  }

  lemma DenotesOne<V>(store: Store, sem: Sem<V>, sigma: string -> V, env: map<string, V>, env': map<string, V>)
    requires Denotes(store, sem, sigma, env) && Denotes(store, sem, sigma, env')
    ensures env == env'
  {
    forall x | x in env ensures env[x] == env'[x] {
      assert x in store;
    }
  }

  /** A run over settled stores is right for a clocked block exactly if every surviving write reads the start. */
  lemma NonblockingRunExactly(stores: seq<Store>, program: seq<Assignment>, env: map<string, Expr>)
    requires Run(stores, program) && SettledRun(stores, program)
    requires forall a | a in program :: WellFormed(a.rhs)
    requires Denotes(stores[0], FREE, ITSELF, env)
    ensures Denotes(stores[|program|], FREE, ITSELF, AtOnce(env, env, program, FREE, ITSELF)) <==>
              ReadsStart(env, env, program)
  {
    RunSound(stores, program, FREE, ITSELF, env);
    OneByOneIsAtOnceExactly(env, program);
    if Denotes(stores[|program|], FREE, ITSELF, AtOnce(env, env, program, FREE, ITSELF)) {
      DenotesOne(stores[|program|], FREE, ITSELF, Exec(env, program, FREE, ITSELF),
                 AtOnce(env, env, program, FREE, ITSELF));
    }
  }

  // ---------- a swap ----------

  const SWAP: seq<Assignment> := [Assign(Ident("a"), Name("b")), Assign(Ident("b"), Name("a"))]
  const SWAP_STORE: Store := map["a" := "s1", "b" := "s2"]
  const SWAP_START: map<string, Expr> := map["a" := Name("s1"), "b" := Name("s2")]

  /** `a <= b; b <= a` exchanges the two; in the store both end with the text of b. */
  lemma SwapIsLost(stores: seq<Store>)
    requires Run(stores, SWAP) && stores[0] == SWAP_STORE
    ensures |stores| == 3 && stores[2] == map["a" := "s2", "b" := "s2"]
    ensures AtOnce(SWAP_START, SWAP_START, SWAP, FREE, ITSELF) == map["a" := Name("s2"), "b" := Name("s1")]
    ensures !TextDenotes(stores[2]["b"], FREE, ITSELF, Name("s1"))
  {
    CopyStep(stores[0], "a", "b", stores[1]);
    CopyStep(stores[1], "b", "a", stores[2]);
    SwapAtOnce();
    WrongSymbol();
  }

  lemma CopyStep(store: Store, x: string, y: string, store': Store)
    requires y in store && Step(store, Assign(Ident(x), Name(y)), store')
    ensures store' == store[x := store[y]]
  {
  }

  lemma SwapAtOnce()
    ensures AtOnce(SWAP_START, SWAP_START, SWAP, FREE, ITSELF) == map["a" := Name("s2"), "b" := Name("s1")]
  {
    var rest := SWAP[1..];
    var env := WriteStep(SWAP_START, SWAP_START, SWAP[0], FREE, ITSELF);
    assert rest[0] == SWAP[1] && rest[1..] == [];
    assert AtOnce(SWAP_START, SWAP_START, SWAP, FREE, ITSELF) == AtOnce(SWAP_START, env, rest, FREE, ITSELF);
    assert AtOnce(SWAP_START, env, rest, FREE, ITSELF) == WriteStep(SWAP_START, env, rest[0], FREE, ITSELF);
  }

  lemma WrongSymbol()
    ensures !TextDenotes("s2", FREE, ITSELF, Name("s1"))
  {
    var e := Name("s2");
    assert !IsDigit("s2"[0]) && IsWordChar("s2"[0]) && IsWordChar("s2"[1]);
    assert WellFormed(e) && Print(e) == "s2";
    WrongValue("s2", e, Name("s1"));
  }
}
