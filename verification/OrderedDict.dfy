/**
  `ipstools/ordereddict.py`: a built-in dict for the values, a circular doubly linked ring with a
  sentinel for the order, and a map from each key to its ring node.
 */
module OrderedDict {
  import opened Wrappers
  import opened AssocList

  /** A ring node `[key, prev, next]`; the sentinel's key is None. */
  class Node<K> {
    const key: Option<K>
    var prev: Node<K>
    var next: Node<K>

    constructor Sentinel()
      ensures key == None && prev == this && next == this
    {
      key := None;
      prev, next := this, this;
    }

    constructor (key: K, prev: Node<K>, next: Node<K>)
      ensures this.key == Some(key) && this.prev == prev && this.next == next
    {
      this.key := Some(key);
      this.prev, this.next := prev, next;
    }
  }

  lemma TailAppend<T>(s: seq<T>, x: T)
    requires s != []
    ensures (s + [x])[1..] == s[1..] + [x]
  {
  }

  lemma TailCut<T>(s: seq<T>, j: nat)
    requires 0 < j < |s|
    ensures (s[..j] + s[j + 1..])[1..] == s[1..][..j - 1] + s[1..][j..]
  {
  }

  /** Neighbours in the ring point at each other, and the ring closes at the sentinel. */
  ghost predicate Linked<K>(ring: seq<Node<K>>)
    requires ring != []
    reads ring
  {
    && (forall i | 0 <= i < |ring| - 1 :: ring[i].next == ring[i + 1])
    && (forall i | 0 < i < |ring| :: ring[i].prev == ring[i - 1])
    && ring[|ring| - 1].next == ring[0]
    && ring[0].prev == ring[|ring| - 1]
  }

  ghost predicate NoRepeats<K>(ring: seq<Node<K>>) {
    forall i, j | 0 <= i < j < |ring| :: ring[i] != ring[j]
  }

  /** Every data key has its own node behind the sentinel, found through links. */
  ghost predicate Indexed<K, V>(ring: seq<Node<K>>, links: map<K, Node<K>>, data: map<K, V>) {
    && links.Keys == data.Keys
    && (forall i | 0 < i < |ring| ::
          ring[i].key.Some? && ring[i].key.value in links && links[ring[i].key.value] == ring[i])
    && (forall k | k in links :: links[k].key == Some(k) && links[k] in ring)
  }

  ghost function PairsOf<K, V>(nodes: seq<Node<K>>, data: map<K, V>): (items: Items<K, V>)
    requires forall i | 0 <= i < |nodes| :: nodes[i].key.Some? && nodes[i].key.value in data
  {
    seq(|nodes|, i requires 0 <= i < |nodes| => (nodes[i].key.value, data[nodes[i].key.value]))
  }

  lemma PairsDistinct<K, V>(ring: seq<Node<K>>, links: map<K, Node<K>>, data: map<K, V>)
    requires ring != [] && ring[0].key == None && NoRepeats(ring) && Indexed(ring, links, data)
    ensures DistinctKeys(PairsOf(ring[1..], data))
    ensures forall k :: k in data <==> HasKey(PairsOf(ring[1..], data), k)
  {
    var items := PairsOf(ring[1..], data);
    forall i, j | 0 <= i < j < |items|
      ensures items[i].0 != items[j].0
    {
      assert ring[i + 1] != ring[j + 1];
    }
    forall k | k in data
      ensures HasKey(items, k)
    {
      var i :| 0 <= i < |ring| && ring[i] == links[k];
      assert items[i - 1].0 == k;
    }
  }

  lemma PairsOverwrite<K, V>(nodes: seq<Node<K>>, data: map<K, V>, k: K, v: V, j: nat)
    requires j < |nodes|
    requires forall i | 0 <= i < |nodes| :: nodes[i].key.Some? && nodes[i].key.value in data
    requires DistinctKeys(PairsOf(nodes, data)) && nodes[j].key.value == k
    ensures PairsOf(nodes, data[k := v]) == PairsOf(nodes, data)[j := (k, v)]
  {
    var items := PairsOf(nodes, data);
    forall i | 0 <= i < |nodes| && i != j
      ensures nodes[i].key.value != k
    {
      assert items[i].0 != items[j].0;
    }
  }

  lemma Overwrite<K, V>(ring: seq<Node<K>>, links: map<K, Node<K>>, data: map<K, V>, k: K, v: V)
    requires ring != [] && ring[0].key == None && NoRepeats(ring) && Indexed(ring, links, data) && k in data
    ensures Indexed(ring, links, data[k := v])
    ensures PairsOf(ring[1..], data[k := v]) == Put(PairsOf(ring[1..], data), k, v)
  {
    PairsDistinct(ring, links, data);
    var items := PairsOf(ring[1..], data);
    var i :| 0 <= i < |items| && items[i].0 == k;
    PutPresent(items, k, v, i);
    PairsOverwrite(ring[1..], data, k, v, i);
  }

  lemma AppendIndexed<K, V>(ring: seq<Node<K>>, links: map<K, Node<K>>, data: map<K, V>, node: Node<K>, k: K, v: V)
    requires ring != [] && ring[0].key == None && NoRepeats(ring) && Indexed(ring, links, data)
    requires k !in data && node.key == Some(k)
    ensures Indexed(ring + [node], links[k := node], data[k := v])
  {
  }

  lemma AppendPairs<K, V>(ring: seq<Node<K>>, links: map<K, Node<K>>, data: map<K, V>, node: Node<K>, k: K, v: V)
    requires ring != [] && ring[0].key == None && NoRepeats(ring) && Indexed(ring, links, data)
    requires k !in data && node.key == Some(k)
    ensures PairsOf(ring[1..] + [node], data[k := v]) == Put(PairsOf(ring[1..], data), k, v)
  {
    PairsDistinct(ring, links, data);
    PutAbsent(PairsOf(ring[1..], data), k, v);
  }

  lemma Appended<K, V>(ring: seq<Node<K>>, links: map<K, Node<K>>, data: map<K, V>, node: Node<K>, k: K, v: V)
    requires ring != [] && ring[0].key == None && NoRepeats(ring) && Indexed(ring, links, data)
    requires k !in data && node.key == Some(k)
    ensures Indexed(ring + [node], links[k := node], data[k := v])
    ensures (ring + [node])[0] == ring[0]
    ensures forall n | n in ring + [node] :: n in ring || n == node
    ensures PairsOf((ring + [node])[1..], data[k := v]) == Put(PairsOf(ring[1..], data), k, v)
  {
    AppendIndexed(ring, links, data, node, k, v);
    AppendPairs(ring, links, data, node, k, v);
    TailAppend(ring, node);
  }

  lemma RemoveIndexed<K, V>(ring: seq<Node<K>>, links: map<K, Node<K>>, data: map<K, V>, k: K, j: nat)
    requires ring != [] && ring[0].key == None && NoRepeats(ring) && Indexed(ring, links, data)
    requires 0 < j < |ring| && ring[j].key == Some(k)
    ensures Indexed(ring[..j] + ring[j + 1..], links - {k}, data - {k})
  {
    var ring' := ring[..j] + ring[j + 1..];
    forall i | 0 < i < |ring'|
      ensures ring'[i].key.Some? && ring'[i].key.value in links - {k} && links[ring'[i].key.value] == ring'[i]
    {
      var n := if i < j then i else i + 1;
      assert ring'[i] == ring[n] && ring[n] != ring[j];
    }
    forall l | l in links - {k}
      ensures links[l] in ring'
    {
      var n :| 0 <= n < |ring| && ring[n] == links[l];
      assert n != j;
      assert ring'[if n < j then n else n - 1] == links[l];
    }
  }

  lemma RemovePairs<K, V>(ring: seq<Node<K>>, links: map<K, Node<K>>, data: map<K, V>, k: K, j: nat)
    requires ring != [] && ring[0].key == None && NoRepeats(ring) && Indexed(ring, links, data)
    requires 0 < j < |ring| && ring[j].key == Some(k)
    requires Indexed(ring[..j] + ring[j + 1..], links - {k}, data - {k})
    ensures PairsOf((ring[..j] + ring[j + 1..])[1..], data - {k}) == Remove(PairsOf(ring[1..], data), k)
  {
    PairsDistinct(ring, links, data);
    var items := PairsOf(ring[1..], data);
    TailCut(ring, j);
    RemovePresent(items, k, j - 1);
    PairsCut(ring[1..], data, k, j - 1);
  }

  lemma PairsCut<K, V>(nodes: seq<Node<K>>, data: map<K, V>, k: K, j: nat)
    requires j < |nodes|
    requires forall i | 0 <= i < |nodes| :: nodes[i].key.Some? && nodes[i].key.value in data
    requires forall i | 0 <= i < |nodes| && i != j :: nodes[i].key.value != k
    ensures PairsOf(nodes[..j] + nodes[j + 1..], data - {k})
         == PairsOf(nodes, data)[..j] + PairsOf(nodes, data)[j + 1..]
  {
  }

  lemma Removed<K, V>(ring: seq<Node<K>>, links: map<K, Node<K>>, data: map<K, V>, k: K, j: nat)
    requires ring != [] && ring[0].key == None && NoRepeats(ring) && Indexed(ring, links, data)
    requires 0 < j < |ring| && ring[j].key == Some(k)
    ensures Indexed(ring[..j] + ring[j + 1..], links - {k}, data - {k})
    ensures PairsOf((ring[..j] + ring[j + 1..])[1..], data - {k}) == Remove(PairsOf(ring[1..], data), k)
    ensures (ring[..j] + ring[j + 1..])[0] == ring[0]
    ensures forall n | n in ring[..j] + ring[j + 1..] :: n in ring
  {
    RemoveIndexed(ring, links, data, k, j);
    RemovePairs(ring, links, data, k, j);
  }

  class Dict<K(==), V> {
    var data: map<K, V>            // the underlying dict
    var links: map<K, Node<K>>     // __map
    var end: Node<K>               // __end
    ghost var ring: seq<Node<K>>   // end, followed by the nodes in ring order

    ghost predicate Valid()
      reads this, ring
    {
      && ring != [] && ring[0] == end && end.key == None
      && NoRepeats(ring) && Linked(ring) && Indexed(ring, links, data)
    }

    /** The (key, value) pairs in ring order. */
    ghost function Contents(): (items: Items<K, V>)
      requires Valid()
      reads this, ring
      ensures |items| == |ring| - 1
    {
      PairsOf(ring[1..], data)
    }

    /** `curr[2] = end[1] = node` for a new node between the last one, curr, and the sentinel. */
    method LinkLast(node: Node<K>, ghost ring0: seq<Node<K>>)
      requires ring0 != [] && NoRepeats(ring0) && Linked(ring0)
      requires node !in ring0 && node.prev == ring0[|ring0| - 1] && node.next == ring0[0]
      modifies ring0
      ensures unchanged(this)
      ensures NoRepeats(ring0 + [node]) && Linked(ring0 + [node])
    {
      var curr, end := node.prev, node.next;
      curr.next := node;
      end.prev := node;
    }

    /** `prev[2] = next; next[1] = prev`. */
    method Unlink(node: Node<K>, ghost ring0: seq<Node<K>>, ghost j: nat)
      requires 0 < j < |ring0| && ring0[j] == node && NoRepeats(ring0) && Linked(ring0)
      modifies ring0
      ensures unchanged(this)
      ensures NoRepeats(ring0[..j] + ring0[j + 1..]) && Linked(ring0[..j] + ring0[j + 1..])
    {
      var prev, next := node.prev, node.next;
      assert prev == ring0[j - 1] && next == if j + 1 < |ring0| then ring0[j + 1] else ring0[0];
      prev.next := next;
      next.prev := prev;
    }

    /** Store the two maps that go with a freshly linked ring. */
    method Commit(links': map<K, Node<K>>, data': map<K, V>, ghost ring': seq<Node<K>>, ghost items: Items<K, V>)
      requires ring' != [] && ring'[0] == end && end.key == None
      requires NoRepeats(ring')
      requires Linked(ring')
      requires Indexed(ring', links', data')
      requires PairsOf(ring'[1..], data') == items
      modifies this
      ensures Valid() && Contents() == items && ring == ring'
    {
      links, data, ring := links', data', ring';
    }

    constructor ()
      ensures Valid() && Contents() == [] && fresh(ring)
    {
      var e := new Node<K>.Sentinel();
      data, links, end, ring := map[], map[], e, [e];
    }

    /** `clear`: a new sentinel; the old ring is dropped. */
    method Clear()
      modifies this
      ensures Valid() && Contents() == [] && fresh(ring)
    {
      var e := new Node<K>.Sentinel();
      data, links, end, ring := map[], map[], e, [e];
    }

    /** `__setitem__`: a new key is linked in before the sentinel; an old one only changes its value. */
    method SetItem(k: K, v: V)
      requires Valid()
      modifies this, ring
      ensures Valid() && fresh((set n | n in ring) - (set n | n in old(ring)))
      ensures Contents() == Put(old(Contents()), k, v)
    {
      if k !in data {
        AddKey(k, v);
      } else {
        Overwrite(ring, links, data, k, v);
        data := data[k := v];
      }
    }

    /** Make the node of a new key and link it in as the last one. */
    method NewLast(k: K) returns (node: Node<K>)
      requires Valid()
      modifies ring
      ensures unchanged(this) && fresh(node) && node.key == Some(k)
      ensures NoRepeats(ring + [node]) && Linked(ring + [node])
    {
      node := new Node<K>(k, end.prev, end);
      LinkLast(node, ring);
    }

    method AddKey(k: K, v: V)
      requires Valid() && k !in data
      modifies this, ring
      ensures Valid() && fresh((set n | n in ring) - (set n | n in old(ring)))
      ensures Contents() == Put(old(Contents()), k, v)
    {
      var node := NewLast(k);
      Appended(ring, links, data, node, k, v);
      Commit(links[k := node], data[k := v], ring + [node], Put(old(Contents()), k, v));
    }

    /** `__delitem__`: reports the KeyError of a missing key. */
    method DelItem(k: K) returns (ok: bool)
      requires Valid()
      modifies this, ring
      ensures Valid() && forall n | n in ring :: n in old(ring)
      ensures ok <==> k in old(data)
      ensures Contents() == Remove(old(Contents()), k)
    {
      if k !in data {
        PairsDistinct(ring, links, data);
        RemoveAbsent(Contents(), k);
        return false;
      }
      DropKey(k);
      return true;
    }

    method DropKey(k: K)
      requires Valid() && k in data
      modifies this, ring
      ensures Valid() && forall n | n in ring :: n in old(ring)
      ensures Contents() == Remove(old(Contents()), k)
    {
      ghost var j :| 0 <= j < |ring| && ring[j] == links[k];
      Removed(ring, links, data, k, j);
      var node := links[k];
      Unlink(node, ring, j);
      Commit(links - {k}, data - {k}, ring[..j] + ring[j + 1..], Remove(old(Contents()), k));
    }

    /** `__iter__`: follow the next links from the sentinel until they come back to it. */
    method Iter() returns (keys: seq<K>)
      requires Valid()
      ensures keys == Keys(Contents())
    {
      keys := [];
      var curr := end.next;
      ghost var i := 1;
      while curr != end
        invariant 1 <= i <= |ring| && curr == if i < |ring| then ring[i] else end
        invariant keys == Keys(Contents())[..i - 1]
        decreases |ring| - i
      {
        keys := keys + [curr.key.value];
        curr := curr.next;
        i := i + 1;
      }
    }

    /** `__reversed__`: the same walk along the prev links. */
    method Reversed() returns (keys: seq<K>)
      requires Valid()
      ensures keys == Reverse(Keys(Contents()))
    {
      keys := [];
      var curr := end.prev;
      ghost var i := |ring| - 1;
      ghost var all := Keys(Contents());
      while curr != end
        invariant 0 <= i < |ring| && curr == ring[i]
        invariant keys == Reverse(all[i..])
        decreases i
      {
        assert all[i - 1..] == [all[i - 1]] + all[i..];
        keys := keys + [curr.key.value];
        curr := curr.prev;
        i := i - 1;
      }
      assert all[0..] == all;
    }

    /** The first key of a walk in either direction. */
    method EndKey(last: bool) returns (k: K)
      requires Valid() && Contents() != []
      ensures k in data
      ensures (k, data[k]) == if last then Contents()[|Contents()| - 1] else Contents()[0]
    {
      var node := if last then end.prev else end.next;
      assert node == ring[if last then |ring| - 1 else 1];
      k := node.key.value;
    }

    lemma EmptyWhenNoData()
      requires Valid()
      ensures data == map[] <==> Contents() == []
    {
      PairsDistinct(ring, links, data);
      assert Contents() != [] ==> HasKey(Contents(), Contents()[0].0);
    }

    /** `popitem`: the item at either end; None is the KeyError of an empty dict. */
    method PopItem(last: bool) returns (item: Option<(K, V)>)
      requires Valid()
      modifies this, ring
      ensures Valid() && forall n | n in ring :: n in old(ring)
      ensures old(Contents()) == [] ==> item == None
      ensures old(Contents()) != [] ==>
                item == Some(if last then old(Contents())[|old(Contents())| - 1] else old(Contents())[0])
      ensures Contents() == Apply(old(Contents()), Op.PopItem(last))
    {
      ghost var items := Contents();
      EmptyWhenNoData();
      if data == map[] {
        return None;
      }
      var k := EndKey(last);
      item := Some((k, data[k]));
      PairsDistinct(ring, links, data);
      RemoveEnd(items, k, last);
      DropKey(k);
    }

    /** One operation, in place. */
    method Perform(op: Op<K, V>)
      requires Valid()
      modifies this, ring
      ensures Valid() && fresh((set n | n in ring) - (set n | n in old(ring)))
      ensures Contents() == Apply(old(Contents()), op)
    {
      match op
      case Set(k, v) => SetItem(k, v);
      case Delete(k) => var _ := DelItem(k);
      case PopItem(last) => var _ := PopItem(last);
      case Clear => Clear();
    }

    /** Any sequence of operations, in place. */
    method PerformAll(ops: seq<Op<K, V>>)
      requires Valid()
      modifies this, ring
      ensures Valid() && Contents() == Run(old(Contents()), ops)
      decreases |ops|
    {
      if ops != [] {
        Perform(ops[0]);
        PerformAll(ops[1..]);
      }
    }

    /** `items`: the pairs in iteration order. */
    method GetItems() returns (items: Items<K, V>)
      requires Valid()
      ensures items == Contents()
    {
      var keys := Iter();
      items := [];
      for i := 0 to |keys|
        invariant items == Contents()[..i]
      {
        assert Contents()[i] == (keys[i], data[keys[i]]);
        items := items + [(keys[i], data[keys[i]])];
      }
    }

    /** `update`: the given pairs are set one by one. */
    method Update(more: Items<K, V>)
      requires Valid()
      modifies this, ring
      ensures Valid() && fresh((set n | n in ring) - (set n | n in old(ring)))
      ensures Contents() == PutAll(old(Contents()), more)
    {
      ghost var items := Contents();
      for i := 0 to |more|
        invariant Valid() && fresh((set n | n in ring) - (set n | n in old(ring)))
        invariant Contents() == PutAll(items, more[..i])
      {
        PutAllAppend(items, more[..i], more[i].0, more[i].1);
        assert more[..i + 1] == more[..i] + [(more[i].0, more[i].1)];
        SetItem(more[i].0, more[i].1);
      }
      assert more[..|more|] == more;
    }

    /** `copy`: a new dictionary with the same item sequence; this one is untouched. */
    method Copy() returns (d: Dict<K, V>)
      requires Valid()
      ensures d.Valid() && fresh(d) && fresh(d.ring)
      ensures d.Contents() == Contents()
    {
      var items := GetItems();
      PairsDistinct(ring, links, data);
      PutAllFresh([], items);
      assert [] + items == items;
      d := new Dict<K, V>();
      d.Update(items);
    }

    /** `fromkeys`: every key once, in the order of the first occurrences, and all with the same value. */
    static method FromKeys(keys: seq<K>, v: V) returns (d: Dict<K, V>)
      ensures d.Valid() && fresh(d) && fresh(d.ring)
      ensures FirstOccurrences(Keys(d.Contents()), keys)
      ensures SameValue(d.Contents(), v)
    {
      d := new Dict<K, V>();
      for i := 0 to |keys|
        invariant d.Valid() && fresh(d) && fresh(d.ring)
        invariant FirstOccurrences(Keys(d.Contents()), keys[..i])
        invariant SameValue(d.Contents(), v)
      {
        PutSameValue(d.Contents(), keys[..i], keys[i], v);
        assert keys[..i + 1] == keys[..i] + [keys[i]];
        d.SetItem(keys[i], v);
      }
      assert keys[..|keys|] == keys;
    }
  }

  /** `__eq__` between two ordered dictionaries compares lengths, then items pairwise. */
  method Equal<K(==), V(==)>(a: Dict<K, V>, b: Dict<K, V>) returns (same: bool)
    requires a.Valid() && b.Valid()
    ensures same <==> a.Contents() == b.Contents()
  {
    var items := a.GetItems();
    var items' := b.GetItems();
    same := SameItems(items, items');
  }

  method SameItems<K(==), V(==)>(items: Items<K, V>, items': Items<K, V>) returns (same: bool)
    ensures same <==> items == items'
  {
    if |items| != |items'| {
      return false;
    }
    for i := 0 to |items|
      invariant items[..i] == items'[..i]
    {
      if items[i] != items'[i] {
        return false;
      }
    }
    return true;
  }
}
