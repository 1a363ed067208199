/**
  What an insertion-ordered dictionary means: a list of (key, value) pairs with distinct keys, and
  a second, independent reading of it as a plain map that stamps every key with its time of birth.
 */
module AssocList {

  type Items<K, V> = seq<(K, V)>

  ghost predicate HasKey<K, V>(items: Items<K, V>, k: K) {
    exists i :: 0 <= i < |items| && items[i].0 == k
  }

  ghost predicate DistinctKeys<K, V>(items: Items<K, V>) {
    forall i, j | 0 <= i < j < |items| :: items[i].0 != items[j].0
  }

  /** d[k] = v: overwrite in place, or append. */
  function Put<K(==), V>(items: Items<K, V>, k: K, v: V): Items<K, V> {
    if items == [] then [(k, v)]
    else if items[0].0 == k then [(k, v)] + items[1..]
    else [items[0]] + Put(items[1..], k, v)
  }

  /** del d[k]; a missing key changes nothing (the caller reports the KeyError). */
  function Remove<K(==), V>(items: Items<K, V>, k: K): Items<K, V> {
    if items == [] then []
    else if items[0].0 == k then items[1..]
    else [items[0]] + Remove(items[1..], k)
  }

  function PutAll<K(==), V>(items: Items<K, V>, more: Items<K, V>): Items<K, V>
    decreases |more|
  {
    if more == [] then items else PutAll(Put(items, more[0].0, more[0].1), more[1..])
  }

  function Reverse<T>(s: seq<T>): seq<T> {
    if s == [] then [] else Reverse(s[1..]) + [s[0]]
  }

  function Keys<K, V>(items: Items<K, V>): seq<K> {
    seq(|items|, i requires 0 <= i < |items| => items[i].0)
  }

  lemma {:induction false} PutAbsent<K, V>(items: Items<K, V>, k: K, v: V)
    requires !HasKey(items, k)
    ensures Put(items, k, v) == items + [(k, v)]
  {
    if items != [] {
      assert items[0].0 != k;
      assert forall i | 0 <= i < |items[1..]| :: items[1..][i] == items[i + 1];
      PutAbsent(items[1..], k, v);
    }
  }

  lemma {:induction false} PutPresent<K, V>(items: Items<K, V>, k: K, v: V, i: nat)
    requires DistinctKeys(items) && i < |items| && items[i].0 == k
    ensures Put(items, k, v) == items[i := (k, v)]
  {
    if i > 0 {
      assert items[0].0 != k;
      PutPresent(items[1..], k, v, i - 1);
    }
  }

  lemma {:induction false} RemoveAbsent<K, V>(items: Items<K, V>, k: K)
    requires !HasKey(items, k)
    ensures Remove(items, k) == items
  {
    if items != [] {
      assert items[0].0 != k;
      assert forall i | 0 <= i < |items[1..]| :: items[1..][i] == items[i + 1];
      RemoveAbsent(items[1..], k);
    }
  }

  lemma {:induction false} RemovePresent<K, V>(items: Items<K, V>, k: K, i: nat)
    requires DistinctKeys(items) && i < |items| && items[i].0 == k
    ensures Remove(items, k) == items[..i] + items[i + 1..]
  {
    if i > 0 {
      assert items[0].0 != k;
      RemovePresent(items[1..], k, i - 1);
    }
  }

  /** Re-inserting distinct pairs one by one rebuilds the same list. */
  lemma {:induction false} PutAllFresh<K, V>(items: Items<K, V>, more: Items<K, V>)
    requires DistinctKeys(items + more)
    ensures PutAll(items, more) == items + more
    decreases |more|
  {
    if more == [] {
      assert items + more == items;
    } else {
      var all := items + more;
      assert all[|items|] == more[0];
      assert forall i | 0 <= i < |items| :: all[i] == items[i];
      PutAbsent(items, more[0].0, more[0].1);
      assert items + [(more[0].0, more[0].1)] + more[1..] == all;
      PutAllFresh(items + [(more[0].0, more[0].1)], more[1..]);
    }
  }

  lemma {:induction false} PutAllAppend<K, V>(items: Items<K, V>, more: Items<K, V>, k: K, v: V)
    ensures PutAll(items, more + [(k, v)]) == Put(PutAll(items, more), k, v)
    decreases |more|
  {
    if more == [] {
      assert ([] + [(k, v)])[1..] == [];
    } else {
      assert (more + [(k, v)])[1..] == more[1..] + [(k, v)];
      PutAllAppend(Put(items, more[0].0, more[0].1), more[1..], k, v);
    }
  }

  /** Delete-then-set moves the key to the end and leaves the order of the others. */
  lemma DeleteThenSetMovesToEnd<K, V>(items: Items<K, V>, k: K, v: V)
    requires DistinctKeys(items)
    ensures Put(Remove(items, k), k, v) == Remove(items, k) + [(k, v)]
  {
    if HasKey(items, k) {
      var i :| 0 <= i < |items| && items[i].0 == k;
      RemovePresent(items, k, i);
    } else {
      RemoveAbsent(items, k);
    }
    PutAbsent(Remove(items, k), k, v);
  }

  /** `popitem` removes the item at one end, whose key it looks up first. */
  lemma RemoveEnd<K, V>(items: Items<K, V>, k: K, last: bool)
    requires DistinctKeys(items) && items != [] && k == items[if last then |items| - 1 else 0].0
    ensures Remove(items, k) == Apply(items, Op<K, V>.PopItem(last))
  {
    RemovePresent(items, k, if last then |items| - 1 else 0);
  }

  // ---------- repeated keys ----------

  /** Where a key first occurs. */
  function First<K(==)>(keys: seq<K>, k: K): (i: nat)
    requires k in keys
    ensures i < |keys| && keys[i] == k && k !in keys[..i]
  {
    if keys[0] == k then 0
    else
      var i := 1 + First(keys[1..], k);
      assert keys[..i] == [keys[0]] + keys[1..][..i - 1];
      i
  }

  /** Exactly the keys that occur, in the order of their first occurrence. */
  ghost predicate FirstOccurrences<K>(order: seq<K>, keys: seq<K>) {
    && (forall k | k in order :: k in keys)
    && (forall k | k in keys :: k in order)
    && forall i, j | 0 <= i < j < |order| :: First(keys, order[i]) < First(keys, order[j])
  }

  lemma {:induction false} FirstIs<K>(keys: seq<K>, k: K, i: nat)
    requires i < |keys| && keys[i] == k && k !in keys[..i]
    ensures First(keys, k) == i
  {
    if i > 0 {
      assert keys[..i] == [keys[0]] + keys[1..][..i - 1];
      FirstIs(keys[1..], k, i - 1);
    }
  }

  lemma FirstAppend<K>(keys: seq<K>, x: K, k: K)
    requires k in keys + [x]
    ensures First(keys + [x], k) == if k in keys then First(keys, k) else |keys|
  {
    var i := if k in keys then First(keys, k) else |keys|;
    assert (keys + [x])[..i] == keys[..i] && keys[..|keys|] == keys;
    FirstIs(keys + [x], k, i);
  }

  lemma FirstOccurrencesAppend<K>(order: seq<K>, keys: seq<K>, x: K)
    requires FirstOccurrences(order, keys)
    ensures FirstOccurrences(if x in keys then order else order + [x], keys + [x])
  {
    var order' := if x in keys then order else order + [x];
    forall i, j | 0 <= i < j < |order'|
      ensures First(keys + [x], order'[i]) < First(keys + [x], order'[j])
    {
      FirstAppend(keys, x, order'[i]);
      FirstAppend(keys, x, order'[j]);
    }
  }

  lemma DistinctOrder<K, V>(items: Items<K, V>, keys: seq<K>)
    requires FirstOccurrences(Keys(items), keys)
    ensures DistinctKeys(items)
  {
    forall i, j | 0 <= i < j < |items|
      ensures items[i].0 != items[j].0
    {
      assert Keys(items)[i] == items[i].0 && Keys(items)[j] == items[j].0;
    }
  }

  ghost predicate SameValue<K, V>(items: Items<K, V>, v: V) {
    forall i | 0 <= i < |items| :: items[i].1 == v
  }

  lemma PutOldKey<K, V>(items: Items<K, V>, x: K, v: V)
    requires DistinctKeys(items) && SameValue(items, v) && x in Keys(items)
    ensures Put(items, x, v) == items
  {
    var i :| 0 <= i < |Keys(items)| && Keys(items)[i] == x;
    PutPresent(items, x, v, i);
  }

  lemma PutNewKey<K, V>(items: Items<K, V>, x: K, v: V)
    requires SameValue(items, v) && x !in Keys(items)
    ensures Keys(Put(items, x, v)) == Keys(items) + [x] && SameValue(Put(items, x, v), v)
  {
    forall i | 0 <= i < |items|
      ensures items[i].0 != x
    {
      assert Keys(items)[i] in Keys(items);
    }
    PutAbsent(items, x, v);
  }

  /** One more key, with the value that all keys have. */
  lemma PutSameValue<K, V>(items: Items<K, V>, keys: seq<K>, x: K, v: V)
    requires FirstOccurrences(Keys(items), keys) && SameValue(items, v)
    ensures FirstOccurrences(Keys(Put(items, x, v)), keys + [x]) && SameValue(Put(items, x, v), v)
  {
    FirstOccurrencesAppend(Keys(items), keys, x);
    if x in keys {
      DistinctOrder(items, keys);
      PutOldKey(items, x, v);
    } else {
      PutNewKey(items, x, v);
    }
  }

  // ---------- runs ----------

  datatype Op<K, V> =
    | Set(k: K, v: V)
    | Delete(k: K)
    | PopItem(last: bool)
    | Clear

  function Apply<K(==), V>(items: Items<K, V>, op: Op<K, V>): Items<K, V> {
    match op
    case Set(k, v) => Put(items, k, v)
    case Delete(k) => Remove(items, k)
    case PopItem(last) =>
      if items == [] then items
      else if last then items[..|items| - 1]
      else items[1..]
    case Clear => []
  }

  function Run<K(==), V>(items: Items<K, V>, ops: seq<Op<K, V>>): Items<K, V>
    decreases |ops|
  {
    if ops == [] then items else Run(Apply(items, ops[0]), ops[1..])
  }

  /** A plain map in which every key carries its value and the time at which it became present. */
  type Stamped<!K, V> = map<K, (V, nat)>

  ghost predicate IsOldest<K, V>(m: Stamped<K, V>, k: K) {
    k in m && forall j | j in m :: m[k].1 <= m[j].1
  }

  ghost predicate IsYoungest<K, V>(m: Stamped<K, V>, k: K) {
    k in m && forall j | j in m :: m[j].1 <= m[k].1
  }

  /** The same operations on stamps, with no order kept anywhere. */
  ghost predicate StampStep<K, V>(m: Stamped<K, V>, op: Op<K, V>, now: nat, m': Stamped<K, V>) {
    match op
    case Set(k, v) => m' == m[k := (v, if k in m then m[k].1 else now)]
    case Delete(k) => m' == m - {k}
    case PopItem(last) =>
      if m == map[] then m' == m
      else exists k :: k in m && (if last then IsYoungest(m, k) else IsOldest(m, k)) && m' == m - {k}
    case Clear => m' == map[]
  }

  ghost predicate StampRun<K, V>(ms: seq<Stamped<K, V>>, ops: seq<Op<K, V>>) {
    && |ms| == |ops| + 1
    && forall i | 0 <= i < |ops| :: StampStep(ms[i], ops[i], i, ms[i + 1])
  }

  ghost predicate IsFirstBorn<K, V>(m: Stamped<K, V>, k: K) {
    k in m && forall j | j in m && j != k :: m[k].1 < m[j].1
  }

  /** The list is the map, sorted by time of birth: the first pair is the first born, and so on. */
  ghost predicate SortedByBirth<K, V>(items: Items<K, V>, m: Stamped<K, V>)
    decreases |items|
  {
    if items == [] then m == map[]
    else
      && IsFirstBorn(m, items[0].0)
      && m[items[0].0].0 == items[0].1
      && SortedByBirth(items[1..], m - {items[0].0})
  }

  ghost predicate BornBefore<K, V>(m: Stamped<K, V>, now: nat) {
    forall k | k in m :: m[k].1 < now
  }

  lemma {:induction false} SetKeepsSorted<K, V>(items: Items<K, V>, m: Stamped<K, V>, k: K, v: V, now: nat)
    requires SortedByBirth(items, m) && BornBefore(m, now)
    ensures SortedByBirth(Put(items, k, v), m[k := (v, if k in m then m[k].1 else now)])
    decreases |items|
  {
    var m' := m[k := (v, if k in m then m[k].1 else now)];
    if items == [] {
      assert m' - {k} == map[];
    } else {
      var k0, rest := items[0].0, items[1..];
      if k0 == k {
        assert m' - {k} == m - {k};
        assert Put(items, k, v)[1..] == rest;
      } else {
        SetKeepsSorted(rest, m - {k0}, k, v, now);
        assert m' - {k0} == (m - {k0})[k := m'[k]];
        assert Put(items, k, v)[1..] == Put(rest, k, v);
      }
    }
  }

  lemma {:induction false} DeleteKeepsSorted<K, V>(items: Items<K, V>, m: Stamped<K, V>, k: K)
    requires SortedByBirth(items, m)
    ensures SortedByBirth(Remove(items, k), m - {k})
    decreases |items|
  {
    if items != [] && items[0].0 != k {
      var k0 := items[0].0;
      DeleteKeepsSorted(items[1..], m - {k0}, k);
      assert m - {k0} - {k} == m - {k} - {k0};
      assert Remove(items, k)[1..] == Remove(items[1..], k);
    }
  }

  lemma PopFirstKeepsSorted<K, V>(items: Items<K, V>, m: Stamped<K, V>, k: K)
    requires SortedByBirth(items, m) && items != [] && IsOldest(m, k)
    ensures SortedByBirth(items[1..], m - {k})
  {
  }

  lemma {:induction false} PopLastKeepsSorted<K, V>(items: Items<K, V>, m: Stamped<K, V>, k: K)
    requires SortedByBirth(items, m) && items != [] && IsYoungest(m, k)
    ensures SortedByBirth(items[..|items| - 1], m - {k})
    decreases |items|
  {
    var k0, rest := items[0].0, items[1..];
    if rest == [] {
      assert k in m - {k0} || k == k0;
    } else {
      assert rest[0].0 in m - {k0};
      PopLastKeepsSorted(rest, m - {k0}, k);
      assert m - {k0} - {k} == m - {k} - {k0};
      assert items[..|items| - 1][1..] == rest[..|rest| - 1];
    }
  }

  lemma StepKeepsSorted<K, V>(items: Items<K, V>, m: Stamped<K, V>, op: Op<K, V>, now: nat, m': Stamped<K, V>)
    requires SortedByBirth(items, m) && BornBefore(m, now)
    requires StampStep(m, op, now, m')
    ensures SortedByBirth(Apply(items, op), m') && BornBefore(m', now + 1)
  {
    match op
    case Set(k, v) => SetKeepsSorted(items, m, k, v, now);
    case Delete(k) => DeleteKeepsSorted(items, m, k);
    case PopItem(last) =>
      if m != map[] {
        var k :| k in m && (if last then IsYoungest(m, k) else IsOldest(m, k)) && m' == m - {k};
        if last {
          PopLastKeepsSorted(items, m, k);
        } else {
          PopFirstKeepsSorted(items, m, k);
        }
      }
    case Clear =>
  }

  lemma {:induction false} RunFrom<K, V>(items: Items<K, V>, ops: seq<Op<K, V>>, ms: seq<Stamped<K, V>>, i: nat)
    requires i <= |ops| && StampRun(ms, ops)
    requires SortedByBirth(items, ms[i]) && BornBefore(ms[i], i)
    ensures SortedByBirth(Run(items, ops[i..]), ms[|ops|])
    decreases |ops| - i
  {
    if i < |ops| {
      StepKeepsSorted(items, ms[i], ops[i], i, ms[i + 1]);
      assert ops[i..][0] == ops[i] && ops[i..][1..] == ops[i + 1..];
      RunFrom(Apply(items, ops[i]), ops, ms, i + 1);
    }
  }

  /**
    After ANY sequence of operations on an empty dictionary the item list is the plain map of the
    same run sorted by the time each key last became present, with its last written value.
   */
  lemma RunIsSortedByBirth<K, V>(ops: seq<Op<K, V>>, ms: seq<Stamped<K, V>>)
    requires StampRun(ms, ops) && ms[0] == map[]
    ensures SortedByBirth(Run([], ops), ms[|ops|])
  {
    assert ops[0..] == ops;
    RunFrom([], ops, ms, 0);
  }

  /** At most one list is sorted by birth, so the two readings determine each other. */
  lemma {:induction false} SortedByBirthUnique<K, V>(items: Items<K, V>, items': Items<K, V>, m: Stamped<K, V>)
    requires SortedByBirth(items, m) && SortedByBirth(items', m)
    ensures items == items'
    decreases |items|
  {
    if items != [] && items' != [] {
      SortedByBirthUnique(items[1..], items'[1..], m - {items[0].0});
      assert items == [items[0]] + items[1..] && items' == [items'[0]] + items'[1..];
    }
  }

  lemma {:induction false} LastIsYoungest<K, V>(items: Items<K, V>, m: Stamped<K, V>)
    requires SortedByBirth(items, m) && items != []
    ensures IsYoungest(m, items[|items| - 1].0)
    decreases |items|
  {
    var rest, m' := items[1..], m - {items[0].0};
    if rest != [] {
      LastIsYoungest(rest, m');
      assert forall j | j in m :: j == items[0].0 || j in m';
    } else {
      assert forall j | j in m :: j == items[0].0 || j in m';
    }
  }

  lemma StampStepExists<K, V>(items: Items<K, V>, m: Stamped<K, V>, op: Op<K, V>, now: nat) returns (m': Stamped<K, V>)
    requires SortedByBirth(items, m)
    ensures StampStep(m, op, now, m')
  {
    match op
    case Set(k, v) => m' := m[k := (v, if k in m then m[k].1 else now)];
    case Delete(k) => m' := m - {k};
    case PopItem(last) =>
      if m == map[] {
        m' := m;
      } else {
        var k := items[if last then |items| - 1 else 0].0;
        if last {
          LastIsYoungest(items, m);
        }
        assert if last then IsYoungest(m, k) else IsOldest(m, k);
        m' := m - {k};
      }
    case Clear => m' := map[];
  }

  /** Every sequence of operations has a stamped run, so the theorem above speaks of all of them. */
  lemma StampRunExists<K, V>(ops: seq<Op<K, V>>) returns (ms: seq<Stamped<K, V>>)
    ensures StampRun(ms, ops) && ms[0] == map[]
  {
    ms := [map[]];
    var items: Items<K, V> := [];
    for i := 0 to |ops|
      invariant StampRun(ms, ops[..i]) && ms[0] == map[]
      invariant SortedByBirth(items, ms[i]) && BornBefore(ms[i], i)
    {
      var m' := StampStepExists(items, ms[i], ops[i], i);
      StepKeepsSorted(items, ms[i], ops[i], i, m');
      items := Apply(items, ops[i]);
      ms := ms + [m'];
    }
    assert ops[..|ops|] == ops;
  }
}
