/**
  `substitute_symbols` of `helpers/slang_helpers.py`: replacing the variables of a store in a text one
  at a time, longest name first, and exactly when that is simultaneous substitution.
 */
module StoreSubstitution {
  import opened SymbolicStore
  import opened WordText

  type Store = map<string, string>

  predicate NamesOf(order: seq<string>, store: Store) {
    forall i | 0 <= i < |order| :: order[i] in store && IsName(order[i])
  }

  function SubstituteAll(text: string, store: Store, order: seq<string>): string
    requires NamesOf(order, store)
    decreases |order|
  {
    if order == [] then text
    else SubstituteAll(ReplaceWord(text, order[0], store[order[0]]), store, order[1..])
  }

  ghost predicate Distinct(order: seq<string>) {
    forall i, j | 0 <= i < j < |order| :: order[i] != order[j]
  }

  ghost predicate Lists(order: seq<string>, keys: set<string>) {
    forall k :: k in order <==> k in keys
  }

  /** What `sorted(store.keys(), key=len, reverse=True)` promises, ties broken either way. */
  ghost predicate LongestFirst(order: seq<string>, keys: set<string>) {
    && Distinct(order)
    && Lists(order, keys)
    && forall i, j | 0 <= i < j < |order| :: |order[i]| >= |order[j]|
  }

  /** The text store is the print of a store of well-formed trees. */
  ghost predicate Represents(store: Store, trees: map<string, Expr>) {
    && store.Keys == trees.Keys
    && forall k | k in store :: IsName(k) && WellFormed(trees[k]) && store[k] == Print(trees[k])
  }

  /** No value inserted along the order mentions a variable that is still to be replaced by something else. */
  ghost predicate SettledAlong(trees: map<string, Expr>, order: seq<string>) {
    && (forall i | 0 <= i < |order| :: order[i] in trees)
    && forall i, j | 0 <= i < j < |order| :: order[j] in Names(trees[order[i]]) ==> trees[order[j]] == Name(order[j])
  }

  /** No value mentions another variable with no longer a name whose own value would still change it. */
  ghost predicate Settled(trees: map<string, Expr>) {
    forall k, n | k in trees && n in trees && n != k && |n| <= |k| && n in Names(trees[k]) :: trees[n] == Name(n)
  }

  function Restrict(trees: map<string, Expr>, order: seq<string>): map<string, Expr> {
    map k | k in trees && k in order :: trees[k]
  }

  lemma RestrictCons(trees: map<string, Expr>, order: seq<string>)
    requires order != [] && Distinct(order) && order[0] in trees
    ensures var m := Restrict(trees, order[1..]);
            order[0] !in m && Restrict(trees, order) == m[order[0] := trees[order[0]]]
  {
    assert forall k :: k in order <==> k == order[0] || k in order[1..];
  }

  lemma SubstWellFormed(e: Expr, m: map<string, Expr>)
    requires WellFormed(e) && forall k | k in m :: WellFormed(m[k])
    ensures WellFormed(Subst(e, m))
  {
  }

  // ---------- one replacement ----------

  /** One textual replacement is one substitution on the tree. */
  lemma {:induction false} ReplacePrint(e: Expr, name: string, v: Expr)
    requires WellFormed(e) && WellFormed(v) && IsName(name)
    ensures ReplaceWord(Print(e), name, Print(v)) == Print(Subst(e, map[name := v]))
  {
    match e
    case Name(id) =>
      ReplaceInWord(id, name, Print(v));
    case Lit(gap, digits) =>
      ReplaceConcat(gap, digits, name, Print(v));
      ReplaceInSeparator(gap, name, Print(v));
      ReplaceInWord(digits, name, Print(v));
    case Unary(op, a) =>
      ReplacePrint(a, name, v);
      ReplaceUnary(op, Print(a), name, Print(v));
    case Binary(a, gap, op, b) =>
      ReplacePrint(a, name, v);
      ReplacePrint(b, name, v);
      ReplaceBinary(Print(a), gap + op, Print(b), name, Print(v));
  }

  lemma ReplaceUnary(op: string, a: string, name: string, value: string)
    requires IsName(name) && IsOperator(op)
    ensures ReplaceWord("(" + op + a + ")", name, value) == "(" + op + ReplaceWord(a, name, value) + ")"
  {
    ReplaceConcat("(" + op + a, ")", name, value);
    ReplaceConcat("(" + op, a, name, value);
    ReplaceInSeparator("(" + op, name, value);
    ReplaceInSeparator(")", name, value);
  }

  lemma ReplaceBinary(a: string, op: string, b: string, name: string, value: string)
    requires IsName(name) && NoWord(op)
    ensures ReplaceWord("(" + a + " " + op + " " + b + ")", name, value)
         == "(" + ReplaceWord(a, name, value) + " " + op + " " + ReplaceWord(b, name, value) + ")"
  {
    var mid := " " + op + " ";
    assert "(" + a + " " + op + " " + b + ")" == "(" + a + mid + b + ")";
    ReplaceConcat("(" + a + mid + b, ")", name, value);
    ReplaceConcat("(" + a + mid, b, name, value);
    ReplaceConcat("(" + a, mid, name, value);
    ReplaceConcat("(", a, name, value);
    ReplaceInSeparator("(", name, value);
    ReplaceInSeparator(mid, name, value);
    ReplaceInSeparator(")", name, value);
  }

  // ---------- all replacements, settled ----------

  lemma {:induction false} SubstIdentity(e: Expr, m: map<string, Expr>)
    requires forall n | n in Names(e) && n in m :: m[n] == Name(n)
    ensures Subst(e, m) == e
  {
    match e
    case Unary(_, a) =>
      SubstIdentity(a, m);
    case Binary(a, _, _, b) =>
      SubstIdentity(a, m);
      SubstIdentity(b, m);
    case _ =>
  }

  lemma {:induction false} SubstCompose(e: Expr, k: string, v: Expr, m: map<string, Expr>)
    requires k !in m && Subst(v, m) == v
    ensures Subst(Subst(e, map[k := v]), m) == Subst(e, m[k := v])
  {
    match e
    case Unary(_, a) =>
      SubstCompose(a, k, v, m);
    case Binary(a, _, _, b) =>
      SubstCompose(a, k, v, m);
      SubstCompose(b, k, v, m);
    case _ =>
  }

  lemma RestMakesNoChange(trees: map<string, Expr>, order: seq<string>)
    requires order != [] && SettledAlong(trees, order)
    ensures Subst(trees[order[0]], Restrict(trees, order[1..])) == trees[order[0]]
    ensures SettledAlong(trees, order[1..])
  {
    var v, m := trees[order[0]], Restrict(trees, order[1..]);
    forall n | n in Names(v) && n in m ensures m[n] == Name(n) {
      var j :| 0 <= j < |order[1..]| && order[1..][j] == n;
      assert order[j + 1] == n;
    }
    SubstIdentity(v, m);
  }

  /** Along a settled order, one-at-a-time replacement is simultaneous substitution. */
  lemma {:induction false} OneAtATimeIsSimultaneous(
      e: Expr, store: Store, trees: map<string, Expr>, order: seq<string>)
    requires WellFormed(e) && Represents(store, trees) && SettledAlong(trees, order)
    requires Distinct(order) && NamesOf(order, store)
    ensures SubstituteAll(Print(e), store, order) == Print(Subst(e, Restrict(trees, order)))
    decreases |order|
  {
    if order == [] {
      SubstIdentity(e, Restrict(trees, []));
    } else {
      var k, rest := order[0], order[1..];
      var v, m := trees[k], Restrict(trees, rest);
      RestrictCons(trees, order);
      RestMakesNoChange(trees, order);
      SubstCompose(e, k, v, m);
      ReplaceFirst(e, store, trees, order);
      SubstWellFormed(e, map[k := v]);
      OneAtATimeIsSimultaneous(Subst(e, map[k := v]), store, trees, rest);
    }
  }

  lemma ReplaceFirst(e: Expr, store: Store, trees: map<string, Expr>, order: seq<string>)
    requires WellFormed(e) && Represents(store, trees) && NamesOf(order, store) && order != []
    ensures SubstituteAll(Print(e), store, order)
         == SubstituteAll(Print(Subst(e, map[order[0] := trees[order[0]]])), store, order[1..])
  {
    ReplacePrint(e, order[0], trees[order[0]]);
  }

  // ---------- all replacements, not settled ----------

  ghost predicate SimultaneousAlong(store: Store, trees: map<string, Expr>, order: seq<string>)
    requires NamesOf(order, store)
  {
    forall e | WellFormed(e) :: SubstituteAll(Print(e), store, order) == Print(Subst(e, trees))
  }

  lemma SettledCons(trees: map<string, Expr>, order: seq<string>)
    requires order != [] && order[0] in trees && SettledAlong(trees, order[1..])
    requires forall j | 0 < j < |order| :: order[j] in Names(trees[order[0]]) ==> trees[order[j]] == Name(order[j])
    ensures SettledAlong(trees, order)
  {
  }

  /** The last place along the order at which a value is inserted that a later replacement changes. */
  lemma {:induction false} LastCapture(trees: map<string, Expr>, order: seq<string>) returns (i: nat, n: string)
    requires !SettledAlong(trees, order) && forall i | 0 <= i < |order| :: order[i] in trees
    ensures i < |order| && SettledAlong(trees, order[i + 1..])
    ensures n in order[i + 1..] && n in Names(trees[order[i]]) && trees[n] != Name(n)
    decreases |order|
  {
    var rest := order[1..];
    if SettledAlong(trees, rest) {
      i := 0;
      if forall j | 0 < j < |order| :: order[j] in Names(trees[order[0]]) ==> trees[order[j]] == Name(order[j]) {
        SettledCons(trees, order);
        assert false;
      }
      var j :| 0 < j < |order| && order[j] in Names(trees[order[0]]) && trees[order[j]] != Name(order[j]);
      n := order[j];
      assert rest[j - 1] == n;
    } else {
      var i', n' := LastCapture(trees, rest);
      i, n := i' + 1, n';
      assert rest[i' + 1..] == order[i + 1..] && rest[i'] == order[i];
    }
  }

  lemma {:induction false} SkipOthers(name: string, store: Store, order: seq<string>, n: nat)
    requires IsName(name) && n <= |order| && NamesOf(order, store)
    requires forall i | 0 <= i < n :: order[i] != name
    ensures SubstituteAll(name, store, order) == SubstituteAll(name, store, order[n..])
  {
    if n > 0 {
      ReplaceInWord(name, order[0], store[order[0]]);
      SkipOthers(name, store, order[1..], n - 1);
      assert order[1..][n - 1..] == order[n..];
    } else {
      assert order[n..] == order;
    }
  }

  /** A lone variable ends as its own value with the later replacements made in it. */
  lemma CapturedText(store: Store, trees: map<string, Expr>, order: seq<string>, i: nat)
    requires Represents(store, trees) && Distinct(order) && NamesOf(order, store)
    requires i < |order| && SettledAlong(trees, order[i + 1..])
    ensures order[i] in trees
    ensures SubstituteAll(order[i], store, order) == Print(Subst(trees[order[i]], Restrict(trees, order[i + 1..])))
  {
    var k, tail := order[i], order[i..];
    SkipOthers(k, store, order, i);
    assert tail[1..] == order[i + 1..] && tail[0] == k;
    ReplaceFirst(Name(k), store, trees, tail);
    OneAtATimeIsSimultaneous(trees[k], store, trees, order[i + 1..]);
  }

  lemma {:induction false} SubstChanges(e: Expr, m: map<string, Expr>, n: string)
    requires n in Names(e) && n in m && m[n] != Name(n)
    ensures Subst(e, m) != e
  {
    match e
    case Unary(_, a) =>
      SubstChanges(a, m, n);
    case Binary(a, _, _, b) =>
      if n in Names(a) {
        SubstChanges(a, m, n);
      } else {
        SubstChanges(b, m, n);
      }
    case _ =>
  }

  /** Along an order of all variables: every expression is substituted at once exactly when the order is settled. */
  lemma SimultaneousExactlyAlong(store: Store, trees: map<string, Expr>, order: seq<string>)
    requires Represents(store, trees) && Distinct(order) && Lists(order, store.Keys) && NamesOf(order, store)
    ensures SimultaneousAlong(store, trees, order) <==> SettledAlong(trees, order)
  {
    if SettledAlong(trees, order) {
      forall e | WellFormed(e) ensures SubstituteAll(Print(e), store, order) == Print(Subst(e, trees)) {
        OneAtATimeIsSimultaneous(e, store, trees, order);
        assert Restrict(trees, order) == trees;
      }
    } else {
      var i, n := LastCapture(trees, order);
      var k, m := order[i], Restrict(trees, order[i + 1..]);
      CapturedText(store, trees, order, i);
      SubstChanges(trees[k], m, n);
      SubstWellFormed(trees[k], m);
      if Print(Subst(trees[k], m)) == Print(trees[k]) {
        PrintUnique(Subst(trees[k], m), trees[k]);
      }
      assert Print(Name(k)) == k && Subst(Name(k), trees) == trees[k] && WellFormed(Name(k));
    }
  }

  // ---------- longest first ----------

  lemma {:induction false} LongestExists(keys: set<string>) returns (k: string)
    requires keys != {}
    ensures k in keys && forall k' | k' in keys :: |k'| <= |k|
  {
    k :| k in keys;
    if keys != {k} {
      var k' := LongestExists(keys - {k});
      k := if |k| >= |k'| then k else k';
    }
  }

  lemma {:induction false} SortedByLength(keys: set<string>) returns (order: seq<string>)
    ensures LongestFirst(order, keys)
  {
    if keys == {} {
      order := [];
    } else {
      var k := LongestExists(keys);
      var rest := SortedByLength(keys - {k});
      order := [k] + rest;
      SortedCons(k, rest, keys);
    }
  }

  lemma SortedCons(k: string, rest: seq<string>, keys: set<string>)
    requires k in keys && (forall k' | k' in keys :: |k'| <= |k|) && LongestFirst(rest, keys - {k})
    ensures LongestFirst([k] + rest, keys)
  {
    assert forall i | 0 <= i < |rest| :: rest[i] in rest;
  }

  lemma LateCons(k: string, rest: seq<string>, n: string)
    requires if k == n then forall k' | k' in rest :: |k'| < |n| else Late(rest, n)
    ensures Late([k] + rest, n)
  {
  }

  /** n stands behind every other name that is not shorter. */
  ghost predicate Late(order: seq<string>, n: string) {
    forall i, j | 0 <= i < |order| && 0 <= j < |order| && order[j] == n && i != j && |order[i]| >= |n| :: i < j
  }

  /** Ties can be broken so that n comes late. */
  lemma {:induction false} SortedWithLate(keys: set<string>, n: string) returns (order: seq<string>)
    requires n in keys
    ensures LongestFirst(order, keys) && Late(order, n)
  {
    var others := keys - {n};
    if others == {} {
      order := [n];
      forall k | k in keys
        ensures k == n
      {
        assert k != n ==> k in others;
      }
    } else {
      var k := LongestExists(others);
      if |k| < |n| {
        var rest := SortedByLength(others);
        order := [n] + rest;
        SortedCons(n, rest, keys);
        LateCons(n, rest, n);
      } else {
        var rest := SortedWithLate(keys - {k}, n);
        order := [k] + rest;
        SortedCons(k, rest, keys);
        LateCons(k, rest, n);
      }
    }
  }

  ghost predicate SimultaneousAlways(store: Store, trees: map<string, Expr>) {
    forall order | LongestFirst(order, store.Keys) && NamesOf(order, store) :: SimultaneousAlong(store, trees, order)
  }

  lemma SettledInOrder(trees: map<string, Expr>, order: seq<string>)
    requires Settled(trees) && LongestFirst(order, trees.Keys)
    ensures SettledAlong(trees, order)
  {
    forall i | 0 <= i < |order| ensures order[i] in trees {
      assert order[i] in order;
    }
  }

  lemma UnsettledInOrder(trees: map<string, Expr>) returns (order: seq<string>)
    requires !Settled(trees)
    ensures LongestFirst(order, trees.Keys) && !SettledAlong(trees, order)
  {
    var k, n :| k in trees && n in trees && n != k && |n| <= |k| && n in Names(trees[k]) && trees[n] != Name(n);
    order := SortedWithLate(trees.Keys, n);
    assert k in order && n in order;
    var i :| 0 <= i < |order| && order[i] == k;
    var j :| 0 <= j < |order| && order[j] == n;
  }

  lemma OrderIsOfNames(store: Store, trees: map<string, Expr>, order: seq<string>)
    requires Represents(store, trees) && Lists(order, store.Keys)
    ensures NamesOf(order, store)
  {
    assert forall i | 0 <= i < |order| :: order[i] in order;
  }

  /**
    Longest name first, however ties are broken: every expression is substituted at once exactly when
    no value mentions another variable, of a name no longer than its own, whose value would change it.
   */
  lemma SimultaneousExactlyWhenSettled(store: Store, trees: map<string, Expr>)
    requires Represents(store, trees)
    ensures SimultaneousAlways(store, trees) <==> Settled(trees)
  {
    if Settled(trees) {
      forall order | LongestFirst(order, store.Keys) && NamesOf(order, store)
        ensures SimultaneousAlong(store, trees, order)
      {
        SettledInOrder(trees, order);
        SimultaneousExactlyAlong(store, trees, order);
      }
    } else {
      var order := UnsettledInOrder(trees);
      OrderIsOfNames(store, trees, order);
      SimultaneousExactlyAlong(store, trees, order);
    }
  }

  /** On the text of an expression, over a settled store, the result is simultaneous substitution. */
  ghost predicate SubstitutesAtOnce(text: string, store: Store, result: string) {
    forall e, trees | WellFormed(e) && text == Print(e) && Represents(store, trees) && Settled(trees) ::
      result == Print(Subst(e, trees))
  }

  lemma LongestFirstSubstitutes(text: string, store: Store, order: seq<string>)
    requires LongestFirst(order, store.Keys) && NamesOf(order, store)
    ensures SubstitutesAtOnce(text, store, SubstituteAll(text, store, order))
  {
    forall e, trees | WellFormed(e) && text == Print(e) && Represents(store, trees) && Settled(trees)
      ensures SubstituteAll(text, store, order) == Print(Subst(e, trees))
    {
      SettledInOrder(trees, order);
      SimultaneousExactlyAlong(store, trees, order);
    }
  }

  /** `substitute_symbols`: the loop over the names, longest first. */
  method SubstituteSymbols(text: string, store: Store) returns (result: string, ghost order: seq<string>)
    requires forall k | k in store :: IsName(k)
    ensures LongestFirst(order, store.Keys)
    ensures NamesOf(order, store) && result == SubstituteAll(text, store, order)
    ensures SubstitutesAtOnce(text, store, result)
  {
    result, order := ReplaceLongestFirst(text, store);
    LongestFirstSubstitutes(text, store, order);
  }

  method ReplaceLongestFirst(text: string, store: Store) returns (result: string, ghost order: seq<string>)
    requires forall k | k in store :: IsName(k)
    ensures LongestFirst(order, store.Keys)
    ensures NamesOf(order, store) && result == SubstituteAll(text, store, order)
  {
    if store == map[] {
      return text, [];
    }
    result, order := text, [];
    var rest := store.Keys;
    while rest != {}
      invariant rest <= store.Keys && LongestFirst(order, store.Keys - rest)
      invariant Ahead(order, rest)
      invariant NamesOf(order, store) && result == SubstituteAll(text, store, order)
      decreases rest
    {
      ghost var _ := LongestExists(rest);
      var name :| name in rest && forall k | k in rest :: |k| <= |name|;
      result := ReplaceWord(result, name, store[name]);
      SubstituteAppend(text, store, order, name);
      NextLongest(order, store.Keys, rest, name);
      order := order + [name];
      rest := rest - {name};
    }
  }

  ghost predicate Ahead(order: seq<string>, rest: set<string>) {
    forall i, k | 0 <= i < |order| && k in rest :: |order[i]| >= |k|
  }

  /** One more name of those that are left. */
  lemma NextLongest(order: seq<string>, keys: set<string>, rest: set<string>, name: string)
    requires rest <= keys && LongestFirst(order, keys - rest) && Ahead(order, rest)
    requires name in rest && forall k | k in rest :: |k| <= |name|
    ensures LongestFirst(order + [name], keys - (rest - {name})) && Ahead(order + [name], rest - {name})
  {
    LongestFirstAppend(order, keys - rest, name);
    assert keys - rest + {name} == keys - (rest - {name});
  }

  lemma LongestFirstAppend(order: seq<string>, keys: set<string>, name: string)
    requires LongestFirst(order, keys) && name !in keys
    requires forall i | 0 <= i < |order| :: |order[i]| >= |name|
    ensures LongestFirst(order + [name], keys + {name})
  {
    assert forall i | 0 <= i < |order| :: order[i] in order;
  }

  lemma {:induction false} SubstituteAppend(text: string, store: Store, order: seq<string>, name: string)
    requires NamesOf(order, store) && name in store && IsName(name)
    ensures SubstituteAll(text, store, order + [name])
         == ReplaceWord(SubstituteAll(text, store, order), name, store[name])
    decreases |order|
  {
    assert (order + [name])[|order|] == name;
    if order != [] {
      assert (order + [name])[1..] == order[1..] + [name];
      SubstituteAppend(ReplaceWord(text, order[0], store[order[0]]), store, order[1..], name);
    } else {
      assert (order + [name])[1..] == [];
    }
  }
}
