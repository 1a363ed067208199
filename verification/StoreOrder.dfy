/**
  The order in which the code replaces the names of a store: longest first, and names of one length in
  the order in which they were first assigned, because Python's sort is stable.  For this one order the
  store's meaning and its failures are exact.
 */
module StoreOrder {
  import opened StoreSoundness
  import opened StoreSubstitution
  import opened SymbolicStore
  import opened WordText

  // ---------- the stable sort ----------

  /** x, which was inserted before all of s, goes in front of the names that are not longer. */
  function Place(x: string, s: seq<string>): seq<string> {
    if s == [] || |x| >= |s[0]| then [x] + s else [s[0]] + Place(x, s[1..])
  }

  /** `sorted(names, key=len, reverse=True)`. */
  function Stable(inserted: seq<string>): seq<string> {
    if inserted == [] then [] else Place(inserted[0], Stable(inserted[1..]))
  }

  ghost predicate Shrinking(s: seq<string>) {
    forall i, j | 0 <= i < j < |s| :: |s[i]| >= |s[j]|
  }

  lemma {:induction false} PlaceMembers(x: string, s: seq<string>, y: string)
    ensures y in Place(x, s) <==> y == x || y in s
  {
    if s != [] && |x| < |s[0]| {
      PlaceMembers(x, s[1..], y);
      assert y in s <==> y == s[0] || y in s[1..];
    }
  }

  lemma {:induction false} PlaceSorts(x: string, s: seq<string>)
    requires Shrinking(s) && Distinct(s) && x !in s
    ensures Shrinking(Place(x, s)) && Distinct(Place(x, s))
  {
    if s != [] && |x| < |s[0]| {
      var rest := Place(x, s[1..]);
      PlaceSorts(x, s[1..]);
      forall j | 0 <= j < |rest|
        ensures |s[0]| >= |rest[j]| && s[0] != rest[j]
      {
        PlaceMembers(x, s[1..], rest[j]);
        assert rest[j] in rest;
      }
    }
  }

  lemma {:induction false} StableMembers(inserted: seq<string>, y: string)
    ensures y in Stable(inserted) <==> y in inserted
  {
    if inserted != [] {
      PlaceMembers(inserted[0], Stable(inserted[1..]), y);
      StableMembers(inserted[1..], y);
    }
  }

  lemma {:induction false} StableSorts(inserted: seq<string>)
    requires Distinct(inserted)
    ensures Shrinking(Stable(inserted)) && Distinct(Stable(inserted))
  {
    if inserted != [] {
      StableSorts(inserted[1..]);
      StableMembers(inserted[1..], inserted[0]);
      PlaceSorts(inserted[0], Stable(inserted[1..]));
    }
  }

  /** The order in which two names of one length stand. */
  ghost predicate Before(s: seq<string>, x: string, y: string) {
    exists i, j :: 0 <= i < j < |s| && s[i] == x && s[j] == y
  }

  lemma BeforeCons(h: string, s: seq<string>, x: string, y: string)
    ensures Before([h] + s, x, y) <==> (h == x && y in s) || Before(s, x, y)
  {
    var t := [h] + s;
    if h == x && y in s {
      var j :| 0 <= j < |s| && s[j] == y;
      assert t[0] == x && t[j + 1] == y;
    }
    if Before(s, x, y) {
      var i, j :| 0 <= i < j < |s| && s[i] == x && s[j] == y;
      assert t[i + 1] == x && t[j + 1] == y;
    }
    if Before(t, x, y) {
      var i, j :| 0 <= i < j < |t| && t[i] == x && t[j] == y;
      assert s[j - 1] == y && (i > 0 ==> s[i - 1] == x);
    }
  }

  /** A new name stands before those of its length, and changes nothing among the others. */
  lemma {:induction false} PlaceBefore(h: string, s: seq<string>, x: string, y: string)
    requires |x| == |y|
    ensures Before(Place(h, s), x, y) <==> (h == x && y in s) || Before(s, x, y)
  {
    if s == [] || |h| >= |s[0]| {
      BeforeCons(h, s, x, y);
    } else {
      PlaceBefore(h, s[1..], x, y);
      BeforeCons(s[0], Place(h, s[1..]), x, y);
      BeforeCons(s[0], s[1..], x, y);
      PlaceMembers(h, s[1..], y);
      assert s == [s[0]] + s[1..];
      assert y in s <==> y == s[0] || y in s[1..];
    }
  }

  /** The sort is stable. */
  lemma {:induction false} StableKeepsTies(inserted: seq<string>, x: string, y: string)
    requires |x| == |y|
    ensures Before(Stable(inserted), x, y) <==> Before(inserted, x, y)
  {
    if inserted != [] {
      var h, rest := inserted[0], inserted[1..];
      assert inserted == [h] + rest;
      PlaceBefore(h, Stable(rest), x, y);
      StableKeepsTies(rest, x, y);
      StableMembers(rest, y);
      BeforeCons(h, rest, x, y);
    }
  }

  // ---------- the visitor's store with its order ----------

  /** A store as the code holds it: its items, and its keys in the order of their first assignment. */
  datatype Ordered = Ordered(store: Store, inserted: seq<string>)

  ghost predicate ValidOrder(d: Ordered) {
    && Distinct(d.inserted) && Lists(d.inserted, d.store.Keys)
    && forall k | k in d.store :: IsName(k)
  }

  lemma StableOrder(d: Ordered)
    requires ValidOrder(d)
    ensures LongestFirst(Stable(d.inserted), d.store.Keys) && NamesOf(Stable(d.inserted), d.store)
  {
    StableSorts(d.inserted);
    forall k
      ensures k in Stable(d.inserted) <==> k in d.store.Keys
    {
      StableMembers(d.inserted, k);
    }
    assert forall i | 0 <= i < |Stable(d.inserted)| :: Stable(d.inserted)[i] in Stable(d.inserted);
  }

  ghost predicate NamesTarget(a: Assignment) {
    a.lhs.Ident? ==> IsName(a.lhs.name)
  }

  /** One visited assignment, in the code's own order. */
  ghost function Visit(d: Ordered, a: Assignment): (r: Ordered)
    requires ValidOrder(d) && NamesTarget(a)
    ensures ValidOrder(r)
  {
    StableOrder(d);
    match a.lhs
    case NoIdentifier => d
    case Ident(x) =>
      Ordered(AssignText(d.store, x, a.rhs, Stable(d.inserted)), if x in d.store then d.inserted else d.inserted + [x])
  }

  ghost function VisitAll(d: Ordered, program: seq<Assignment>): (r: Ordered)
    requires ValidOrder(d) && forall a | a in program :: NamesTarget(a)
    ensures ValidOrder(r)
    decreases |program|
  {
    if program == [] then d else VisitAll(Visit(d, program[0]), program[1..])
  }

  /** The code takes one of the steps that some tie-break allows. */
  lemma VisitIsStep(d: Ordered, a: Assignment)
    requires ValidOrder(d) && NamesTarget(a)
    ensures Step(d.store, a, Visit(d, a).store)
  {
    StableOrder(d);
  }

  // ---------- soundness in that order ----------

  /** No value mentions a name that the code still replaces by something else behind it. */
  ghost predicate SettledStably(d: Ordered) {
    exists trees :: Represents(d.store, trees) && SettledAlong(trees, Stable(d.inserted))
  }

  lemma CompoundVisitSound<V>(d: Ordered, a: Assignment, trees: map<string, Expr>, order: seq<string>,
                              sem: Sem<V>, sigma: string -> V, env: map<string, V>)
    requires ValidOrder(d) && NamesTarget(a) && WellFormed(a.rhs) && IsCompound(a) && order == Stable(d.inserted)
    requires Represents(d.store, trees) && SettledAlong(trees, order) && Denotes(d.store, sem, sigma, env)
    ensures Denotes(Visit(d, a).store, sem, sigma, ExecStep(env, a, sem, sigma))
  {
    StableOrder(d);
    SimultaneousExactlyAlong(d.store, trees, order);
    SubstWellFormed(a.rhs, trees);
    TreesDenote(d.store, trees, sem, sigma, env);
    EvalSubst(a.rhs, trees, sem, sigma, env);
    DenotesUpdate(d.store, a.lhs.name, Subst(a.rhs, trees), sem, sigma, env);
  }

  lemma VisitSound<V>(d: Ordered, a: Assignment, sem: Sem<V>, sigma: string -> V, env: map<string, V>)
    requires ValidOrder(d) && NamesTarget(a) && WellFormed(a.rhs) && (IsCompound(a) ==> SettledStably(d))
    requires Denotes(d.store, sem, sigma, env)
    ensures Denotes(Visit(d, a).store, sem, sigma, ExecStep(env, a, sem, sigma))
  {
    if IsCompound(a) {
      var trees :| Represents(d.store, trees) && SettledAlong(trees, Stable(d.inserted));
      CompoundVisitSound(d, a, trees, Stable(d.inserted), sem, sigma, env);
    } else {
      VisitIsStep(d, a);
      SimpleStepSound(d.store, a, Visit(d, a).store, sem, sigma, env);
    }
  }

  /** Every store that a compound assignment reads is settled in the code's order. */
  ghost predicate SettledVisits(d: Ordered, program: seq<Assignment>)
    requires ValidOrder(d) && forall a | a in program :: NamesTarget(a)
    decreases |program|
  {
    program == [] ||
    ((IsCompound(program[0]) ==> SettledStably(d)) && SettledVisits(Visit(d, program[0]), program[1..]))
  }

  /** Soundness of a run of the code, for every meaning of the operators and every valuation. */
  lemma {:induction false} VisitAllSound<V>(d: Ordered, program: seq<Assignment>, sem: Sem<V>, sigma: string -> V,
                                            env: map<string, V>)
    requires ValidOrder(d) && forall a | a in program :: NamesTarget(a) && WellFormed(a.rhs)
    requires SettledVisits(d, program) && Denotes(d.store, sem, sigma, env)
    ensures Denotes(VisitAll(d, program).store, sem, sigma, Exec(env, program, sem, sigma))
    decreases |program|
  {
    if program != [] {
      VisitSound(d, program[0], sem, sigma, env);
      VisitAllSound(Visit(d, program[0]), program[1..], sem, sigma, ExecStep(env, program[0], sem, sigma));
    }
  }

  // ---------- and its limit ----------

  /** Whatever is assigned next, the store keeps its meaning. */
  ghost predicate NextVisitsRight(d: Ordered, env: map<string, Expr>)
    requires ValidOrder(d)
  {
    forall a: Assignment | NamesTarget(a) && WellFormed(a.rhs) ::
      Denotes(Visit(d, a).store, FREE, ITSELF, ExecStep(env, a, FREE, ITSELF))
  }

  lemma UnsettledVisitWrong(d: Ordered, trees: map<string, Expr>, x: string)
    requires ValidOrder(d) && Represents(d.store, trees) && !SettledAlong(trees, Stable(d.inserted)) && IsName(x)
    ensures !NextVisitsRight(d, PlainEnv(trees))
  {
    StableOrder(d);
    var order := Stable(d.inserted);
    assert forall i | 0 <= i < |order| :: order[i] in order;
    var i, n := LastCapture(trees, order);
    var k := order[i];
    NegatedCapture(d.store, trees, order, i, n);
    NegationValue(x, k, trees);
    NegationFormed(x, k);
    WrongVisit(d, Negation(x, k), x, PlainEnv(trees));
  }

  lemma WrongVisit(d: Ordered, a: Assignment, x: string, env: map<string, Expr>)
    requires ValidOrder(d) && NamesTarget(a) && WellFormed(a.rhs)
    requires x in Visit(d, a).store && x in ExecStep(env, a, FREE, ITSELF)
    requires !TextDenotes(Visit(d, a).store[x], FREE, ITSELF, ExecStep(env, a, FREE, ITSELF)[x])
    ensures !NextVisitsRight(d, env)
  {
    NotDenoted(Visit(d, a).store, x, ExecStep(env, a, FREE, ITSELF));
  }

  /** Exactly the stores that are settled in the code's order are safe for every next assignment. */
  lemma NextVisitsRightExactly(d: Ordered, trees: map<string, Expr>)
    requires ValidOrder(d) && Represents(d.store, trees)
    ensures NextVisitsRight(d, PlainEnv(trees)) <==> SettledAlong(trees, Stable(d.inserted))
  {
    if SettledAlong(trees, Stable(d.inserted)) {
      RepresentedDenotes(d.store, trees);
      forall a: Assignment | NamesTarget(a) && WellFormed(a.rhs)
        ensures Denotes(Visit(d, a).store, FREE, ITSELF, ExecStep(PlainEnv(trees), a, FREE, ITSELF))
      {
        VisitSound(d, a, FREE, ITSELF, PlainEnv(trees));
      }
    } else {
      assert IsWordChar("x"[0]) && !IsDigit("x"[0]);
      UnsettledVisitWrong(d, trees, "x");
    }
  }

  // ---------- a store that only its order makes safe ----------

  /** Three names of one length, and two numbers. */
  predicate Tied(a: string, b: string, c: string, m: string, n: string) {
    && IsName(a) && IsName(b) && IsName(c) && a != b && b != c && a != c && |a| == |b| == |c|
    && m != "" && AllDigits(m) && n != "" && AllDigits(n)
  }

  /** `c = a; a = m; b = c; c = n`. */
  function TiedProgram(a: string, b: string, c: string, m: string, n: string): seq<Assignment> {
    [Assign(Ident(c), Name(a)), Assign(Ident(a), Lit("", m)), Assign(Ident(b), Name(c)), Assign(Ident(c), Lit("", n))]
  }

  function TiedStore(a: string, b: string, c: string, m: string, n: string): Ordered {
    Ordered(map[c := n, a := m, b := a], [c, a, b])
  }

  function TiedTrees(a: string, b: string, c: string, m: string, n: string): map<string, Expr> {
    map[c := Lit("", n), a := Lit("", m), b := Name(a)]
  }

  lemma TiedSorts(a: string, b: string, c: string)
    requires |a| == |b| == |c|
    ensures Stable([c, a, b]) == [c, a, b]
  {
    var l := [c, a, b];
    assert l[1..] == [a, b] && l[1..][1..] == [b] && l[1..][1..][1..] == [];
    assert Stable([b]) == [b];
    assert Stable([a, b]) == [a, b];
  }

  lemma TiedRepresents(a: string, b: string, c: string, m: string, n: string, d: Ordered, trees: map<string, Expr>)
    requires Tied(a, b, c, m, n) && d == TiedStore(a, b, c, m, n) && trees == TiedTrees(a, b, c, m, n)
    ensures ValidOrder(d) && Represents(d.store, trees)
  {
    PlainDigits(m);
    PlainDigits(n);
    assert d.store.Keys == {c, a, b} == trees.Keys;
    assert forall k :: k in [c, a, b] <==> k == c || k == a || k == b;
  }

  lemma PlainDigits(m: string)
    requires m != "" && AllDigits(m)
    ensures WellFormed(Lit("", m)) && Print(Lit("", m)) == m
  {
  }

  lemma TiedSettled(a: string, b: string, c: string, m: string, n: string, trees: map<string, Expr>)
    requires Tied(a, b, c, m, n) && trees == TiedTrees(a, b, c, m, n)
    ensures SettledAlong(trees, [c, a, b]) && !Settled(trees)
  {
    assert a in trees && b in trees && a in Names(trees[b]) && trees[a] != Name(a);
  }

  /**
    After `c = a; a = m; b = c; c = n` the text of b is the old a, and as the code replaces b last nothing
    captures it; had it broken the tie the other way, the entry of a would.
   */
  lemma TieIsSafe(a: string, b: string, c: string, m: string, n: string)
    requires Tied(a, b, c, m, n)
    ensures var d := TiedStore(a, b, c, m, n);
      && VisitAll(Ordered(map[], []), TiedProgram(a, b, c, m, n)) == d
      && SettledStably(d) && !Settled(TiedTrees(a, b, c, m, n))
  {
    TiedRepresents(a, b, c, m, n, TiedStore(a, b, c, m, n), TiedTrees(a, b, c, m, n));
    TiedSorts(a, b, c);
    TiedSettled(a, b, c, m, n, TiedTrees(a, b, c, m, n));
    TiedRun(a, b, c, m, n, TiedProgram(a, b, c, m, n), Ordered(map[], []));
  }

  lemma TiedRun(a: string, b: string, c: string, m: string, n: string, program: seq<Assignment>, d0: Ordered)
    requires Tied(a, b, c, m, n) && program == TiedProgram(a, b, c, m, n) && d0 == Ordered(map[], [])
    ensures ValidOrder(d0) && (forall s | s in program :: NamesTarget(s))
    ensures VisitAll(d0, program) == TiedStore(a, b, c, m, n)
  {
    TiedFirst(a, c, m, program[0], program[1], d0);
    TiedLast(a, b, c, m, n, program[2], program[3], Ordered(map[c := a, a := m], [c, a]));
    VisitFour(d0, program);
  }

  lemma TiedFirst(a: string, c: string, m: string, p0: Assignment, p1: Assignment, d0: Ordered)
    requires IsName(a) && IsName(c) && a != c && d0 == Ordered(map[], [])
    requires p0 == Assign(Ident(c), Name(a)) && p1 == Assign(Ident(a), Lit("", m))
    ensures ValidOrder(d0) && NamesTarget(p0) && NamesTarget(p1)
    ensures Visit(Visit(d0, p0), p1) == Ordered(map[c := a, a := m], [c, a])
  {
    VisitUnset(d0, c, a, p0);
    VisitLiteral(Visit(d0, p0), a, m, p1);
    assert Set(d0, c, a) == Ordered(map[c := a], [c]);
    assert [c] + [a] == [c, a] && map[c := a][a := m] == map[c := a, a := m];
  }

  lemma TiedLast(a: string, b: string, c: string, m: string, n: string, p2: Assignment, p3: Assignment, d2: Ordered)
    requires IsName(b) && IsName(c) && a != b && b != c && a != c
    requires d2 == Ordered(map[c := a, a := m], [c, a]) && ValidOrder(d2)
    requires p2 == Assign(Ident(b), Name(c)) && p3 == Assign(Ident(c), Lit("", n))
    ensures NamesTarget(p2) && NamesTarget(p3) && Visit(Visit(d2, p2), p3) == TiedStore(a, b, c, m, n)
  {
    var d3 := Ordered(map[c := a, a := m, b := a], [c, a, b]);
    TiedCopy(a, b, c, m, p2, d2, d3);
    TiedLiteral(a, b, c, m, n, p3, d3);
  }

  lemma TiedCopy(a: string, b: string, c: string, m: string, p2: Assignment, d2: Ordered, d3: Ordered)
    requires IsName(b) && a != b && b != c && a != c
    requires d2 == Ordered(map[c := a, a := m], [c, a]) && d3 == Ordered(map[c := a, a := m, b := a], [c, a, b])
    requires ValidOrder(d2) && p2 == Assign(Ident(b), Name(c))
    ensures NamesTarget(p2) && Visit(d2, p2) == d3
  {
    VisitCopy(d2, b, c, p2);
    assert d2.inserted + [b] == [c, a, b] && d2.store[b := a] == d3.store;
  }

  lemma TiedLiteral(a: string, b: string, c: string, m: string, n: string, p3: Assignment, d3: Ordered)
    requires IsName(c) && a != b && b != c && a != c
    requires d3 == Ordered(map[c := a, a := m, b := a], [c, a, b]) && ValidOrder(d3)
    requires p3 == Assign(Ident(c), Lit("", n))
    ensures NamesTarget(p3) && Visit(d3, p3) == TiedStore(a, b, c, m, n)
  {
    VisitLiteral(d3, c, n, p3);
    assert d3.store[c := n] == map[c := n, a := m, b := a];
  }

  /** An entry is overwritten in place or added behind the others. */
  function Set(d: Ordered, x: string, text: string): Ordered {
    Ordered(d.store[x := text], if x in d.store then d.inserted else d.inserted + [x])
  }

  lemma VisitLiteral(d: Ordered, x: string, m: string, a: Assignment)
    requires ValidOrder(d) && IsName(x) && a == Assign(Ident(x), Lit("", m))
    ensures NamesTarget(a) && Visit(d, a) == Set(d, x, m)
  {
  }

  lemma VisitCopy(d: Ordered, x: string, y: string, a: Assignment)
    requires ValidOrder(d) && IsName(x) && y in d.store && a == Assign(Ident(x), Name(y))
    ensures NamesTarget(a) && Visit(d, a) == Set(d, x, d.store[y])
  {
  }

  lemma VisitUnset(d: Ordered, x: string, y: string, a: Assignment)
    requires ValidOrder(d) && IsName(x) && IsName(y) && y !in d.store && a == Assign(Ident(x), Name(y))
    ensures NamesTarget(a) && Visit(d, a) == Set(d, x, y)
  {
    StableOrder(d);
    UnknownNameStays(y, d.store, Stable(d.inserted));
  }

  lemma VisitFour(d: Ordered, program: seq<Assignment>)
    requires ValidOrder(d) && |program| == 4 && forall a | a in program :: NamesTarget(a)
    ensures VisitAll(d, program) == Visit(Visit(Visit(Visit(d, program[0]), program[1]), program[2]), program[3])
  {
    var p1, p2, p3 := program[1..], program[2..], program[3..];
    assert p1[0] == program[1] && p1[1..] == p2 && p2[0] == program[2] && p2[1..] == p3;
    assert p3[0] == program[3] && p3[1..] == [];
    var d1 := Visit(d, program[0]);
    var d2 := Visit(d1, program[1]);
    var d3 := Visit(d2, program[2]);
    assert VisitAll(d, program) == VisitAll(d1, p1);
    assert VisitAll(d1, p1) == VisitAll(d2, p2);
    assert VisitAll(d2, p2) == VisitAll(d3, p3);
    assert VisitAll(d3, p3) == VisitAll(Visit(d3, program[3]), p3[1..]);
  }
}
