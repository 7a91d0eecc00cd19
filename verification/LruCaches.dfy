/** LruCache and HashLruCache as objects: list nodes, an index of iterators, shards. */
module LruCaches {
  import opened Lru
  import opened Options
  import opened Sequences

  // A list node; an iterator is a reference to one.
  class Node<K, V> {
    const key: K
    var value: V

    constructor (key: K, value: V)
      ensures this.key == key && this.value == value
    {
      this.key, this.value := key, value;
    }
  }

  ghost function Entries<K, V>(nodes: seq<Node<K, V>>): (s: seq<Entry<K, V>>)
    reads nodes
    ensures |s| == |nodes| && forall i :: 0 <= i < |s| ==> s[i] == Entry(nodes[i].key, nodes[i].value)
  {
    if nodes == [] then [] else [Entry(nodes[0].key, nodes[0].value)] + Entries(nodes[1..])
  }

  // out is what kept lacks of full, the last entry first.
  ghost predicate PrunedFrom<K, V>(full: seq<Entry<K, V>>, kept: seq<Entry<K, V>>, out: seq<Entry<K, V>>)
  {
    && kept <= full && |kept| + |out| == |full|
    && forall i :: 0 <= i < |out| ==> out[i] == full[|full| - 1 - i]
  }

  // m_cache.erase(key)
  function Erased<K(==), V>(m: map<K, V>, k: K): map<K, V> { map x | x in m && x != k :: m[x] }

  // The index holds each node of the list under the node's key, and nothing else.
  ghost predicate Indexed<K, V>(cache: map<K, Node<K, V>>, nodes: seq<Node<K, V>>)
  {
    && (forall i, j :: 0 <= i < j < |nodes| ==> nodes[i].key != nodes[j].key)
    && (forall n :: n in nodes ==> n.key in cache && cache[n.key] == n)
    && (forall k :: k in cache ==> cache[k] in nodes && cache[k].key == k)
  }

  lemma WithoutIndexed<K, V>(cache: map<K, Node<K, V>>, nodes: seq<Node<K, V>>, at: nat)
    requires Indexed(cache, nodes) && at < |nodes|
    ensures Indexed(Erased(cache, nodes[at].key), Without(nodes, at))
    ensures forall n :: n in Without(nodes, at) ==> n in nodes && n != nodes[at]
  {
    var r, c := Without(nodes, at), Erased(cache, nodes[at].key);
    forall i | 0 <= i < |r| ensures r[i] in nodes && r[i].key != nodes[at].key {
      assert r[i] == nodes[if i < at then i else i + 1];
    }
    forall k | k in c ensures c[k] in r {
      var j :| 0 <= j < |nodes| && nodes[j] == cache[k];
      assert r[if j < at then j else j - 1] == c[k];
    }
  }

  lemma FrontIndexed<K, V>(cache: map<K, Node<K, V>>, nodes: seq<Node<K, V>>, n: Node<K, V>)
    requires Indexed(cache, nodes) && n.key !in cache
    ensures Indexed(cache[n.key := n], [n] + nodes)
  {
    var c, r := cache[n.key := n], [n] + nodes;
    assert r[0] == n;
    forall m | m in nodes ensures m.key != n.key { assert m.key in cache; }
    forall k | k in c ensures c[k] in r { if k != n.key { assert c[k] in nodes; } }
    forall i, j | 0 <= i < j < |r| ensures r[i].key != r[j].key {
      if i == 0 { assert r[j] in nodes; } else { assert r[i] == nodes[i - 1] && r[j] == nodes[j - 1]; }
    }
  }

  lemma MoveIndexed<K, V>(cache: map<K, Node<K, V>>, nodes: seq<Node<K, V>>, at: nat)
    requires Indexed(cache, nodes) && at < |nodes|
    ensures Indexed(cache, [nodes[at]] + Without(nodes, at))
    ensures forall n :: n in [nodes[at]] + Without(nodes, at) <==> n in nodes
  {
    hide Without;
    var n := nodes[at];
    WithoutIndexed(cache, nodes, at);
    assert n in nodes;
    FrontIndexed(Erased(cache, n.key), Without(nodes, at), n);
    assert Erased(cache, n.key)[n.key := n] == cache;
    forall m | m in nodes ensures m in [n] + Without(nodes, at) {
      if m != n { WithoutMembers(nodes, at, m); }
    }
  }

  lemma EntriesWithout<K, V>(nodes: seq<Node<K, V>>, at: nat)
    requires at < |nodes|
    ensures Entries(Without(nodes, at)) == Without(Entries(nodes), at)
  {
    hide Entries;
    var a, b := Entries(Without(nodes, at)), Without(Entries(nodes), at);
    forall i | 0 <= i < |a| ensures a[i] == b[i] {
      var j := if i < at then i else i + 1;
      assert Without(nodes, at)[i] == nodes[j];
      assert b[i] == Entries(nodes)[j];
    }
  }

  lemma EntriesFront<K, V>(n: Node<K, V>, nodes: seq<Node<K, V>>)
    ensures Entries([n] + nodes) == [Entry(n.key, n.value)] + Entries(nodes)
  {
    assert ([n] + nodes)[1..] == nodes;
  }

  lemma EntriesPrefix<K, V>(nodes: seq<Node<K, V>>, n: nat)
    requires n <= |nodes|
    ensures Entries(nodes[..n]) == Entries(nodes)[..n]
  {
    hide Entries;
  }

  lemma {:induction false} CountKeys<T>(s: seq<T>, m: set<T>)
    requires forall i, j :: 0 <= i < j < |s| ==> s[i] != s[j]
    requires forall x :: x in m <==> x in s
    ensures |m| == |s|
    decreases |s|
  {
    if s == [] {
      assert m == {};
    } else {
      assert s == [s[0]] + s[1..];
      forall x | x in s[1..] ensures x != s[0] {}
      CountKeys(s[1..], m - {s[0]});
    }
  }

  class LruCache<K(==), V> {
    var cache: map<K, Node<K, V>>
    var keys: seq<Node<K, V>>
    var maxSize: nat
    var elasticity: nat

    ghost predicate Valid()
      reads this
    {
      Indexed(cache, keys)
    }

    ghost function Repr(): set<object>
      reads this
    {
      {this as object} + set o: object | o in keys
    }

    ghost function List(): seq<Entry<K, V>>
      reads this, Repr()
    {
      Entries(keys)
    }

    constructor (maxSize: nat, elasticity: nat)
      ensures Valid() && List() == [] && keys == []
      ensures this.maxSize == maxSize && this.elasticity == elasticity
    {
      this.maxSize, this.elasticity := maxSize, elasticity;
      cache, keys := map[], [];
    }

    lemma Counts()
      requires Valid()
      ensures |cache| == |keys|
    {
      var ks := seq(|keys|, i requires 0 <= i < |keys| reads this => keys[i].key);
      assert forall i :: 0 <= i < |keys| ==> ks[i] == keys[i].key;
      forall k | k in cache.Keys ensures k in ks {
        var i :| 0 <= i < |keys| && keys[i] == cache[k];
        assert ks[i] == k;
      }
      CountKeys(ks, cache.Keys);
    }

    // The index and the list agree on where a key is.
    lemma Located(k: K)
      requires Valid()
      ensures k in cache <==> Find(List(), k) < |keys|
      ensures k in cache ==> keys[Find(List(), k)] == cache[k]
      ensures Distinct(List())
    {
      var i := Find(List(), k);
      if i < |keys| { assert keys[i] in keys; }
      if k in cache {
        var j :| 0 <= j < |keys| && keys[j] == cache[k];
        assert List()[j].key == k && List()[j] in List();
        FindIn(List(), k);
      }
    }

    // The place an iterator stands for.
    method Position(n: Node<K, V>, ghost at: nat) returns (i: nat)
      requires Valid() && at < |keys| && keys[at] == n
      ensures i == at
    {
      i :| i < |keys| && keys[i] == n;
      assert keys[i].key == keys[at].key;
    }

    // m_keys.splice(m_keys.begin(), m_keys, it)
    method Splice(n: Node<K, V>, ghost at: nat)
      requires Valid() && at < |keys| && keys[at] == n
      modifies `keys
      ensures Valid()
      ensures List() == MoveToFront(old(List()), at, n.value)
      ensures Repr() == old(Repr())
    {
      hide Indexed, Entries, Without;
      var i := Position(n, at);
      MoveIndexed(cache, keys, at);
      EntriesWithout(keys, at);
      EntriesFront(n, Without(keys, at));
      keys := [n] + Without(keys, i);
    }

    // Writes the node's value through the iterator.
    method Store(n: Node<K, V>, v: V, ghost at: nat)
      requires Valid() && at < |keys| && keys[at] == n
      modifies n
      ensures n.value == v && List() == old(List())[at := Entry(n.key, v)]
    {
      assert forall i :: 0 <= i < |keys| && i != at ==> keys[i].key != n.key;
      n.value := v;
    }

    // prune(): the entries are handed to the callback from the back.
    method Prune() returns (pruned: seq<Entry<K, V>>)
      requires Valid()
      modifies `cache, `keys
      ensures Valid() && Repr() <= old(Repr())
      ensures List() == Pruned(old(List()), maxSize, elasticity)
      ensures PrunedFrom(old(List()), List(), pruned)
      ensures var n := |old(keys)|;
        |pruned| == if maxSize == 0 || n < maxSize + elasticity || n <= maxSize then 0 else n - maxSize
    {
      hide Indexed, Entries;
      Counts();
      pruned := [];
      if maxSize == 0 || |cache| < maxSize + elasticity {
        return;
      }
      ghost var nodes, full := keys, List();
      pruned := PruneAll();
      assert keys == nodes[..|keys|];
      EntriesPrefix(nodes, |keys|);
      assert full[..|full|] == full && forall n :: n in keys ==> n in nodes;
    }

    method PruneAll() returns (pruned: seq<Entry<K, V>>)
      requires Valid()
      modifies `cache, `keys
      ensures Valid() && keys <= old(keys)
      ensures |keys| == if |old(keys)| <= maxSize then |old(keys)| else maxSize
      ensures |keys| + |pruned| == |old(keys)|
      ensures forall i :: 0 <= i < |pruned| ==> pruned[i] == old(List())[|old(keys)| - 1 - i]
    {
      hide Indexed, Entries;
      Counts();
      pruned := [];
      ghost var nodes := keys;
      while |cache| > maxSize
        invariant Valid() && |cache| == |keys| && keys <= nodes
        invariant |keys| >= maxSize || keys == nodes
        invariant |keys| + |pruned| == |nodes|
        invariant forall i :: 0 <= i < |pruned| ==> pruned[i] == old(List())[|nodes| - 1 - i]
      {
        var back := keys[|keys| - 1];
        pruned := pruned + [Entry(back.key, back.value)];
        Drop(back);
        Counts();
      }
    }

    method Drop(back: Node<K, V>)
      requires Valid() && keys != [] && keys[|keys| - 1] == back
      modifies `cache, `keys
      ensures Valid() && keys == old(keys)[..|old(keys)| - 1]
    {
      hide Indexed;
      WithoutIndexed(cache, keys, |keys| - 1);
      cache := Erased(cache, back.key);
      assert Without(keys, |keys| - 1) == keys[..|keys| - 1];
      keys := keys[..|keys| - 1];
    }

    method Set(k: K, v: V) returns (pruned: seq<Entry<K, V>>)
      requires Valid()
      modifies Repr()
      ensures Valid() && fresh(Repr() - old(Repr()))
      ensures maxSize == old(maxSize) && elasticity == old(elasticity)
      ensures List() == SetList(old(List()), k, v, maxSize, elasticity)
      ensures if Find(old(List()), k) < |old(List())| then pruned == []
              else PrunedFrom([Entry(k, v)] + old(List()), List(), pruned)
      ensures var n := |old(keys)| + 1;
        |pruned| == if k in old(cache) || maxSize == 0 || n < maxSize + elasticity || n <= maxSize then 0 else n - maxSize
    {
      Located(k);
      ghost var at, was := Find(List(), k), List();
      if k in cache {
        Store(cache[k], v, at);
        Splice(cache[k], at);
        return [];
      }
      PushFront(k, v);
      assert List() == [Entry(k, v)] + was;
      pruned := Prune();
    }

    method PushFront(k: K, v: V)
      requires Valid() && k !in cache
      modifies `cache, `keys
      ensures Valid() && List() == [Entry(k, v)] + old(List())
      ensures fresh(Repr() - old(Repr()))
    {
      hide Indexed, Entries;
      var n := new Node(k, v);
      FrontIndexed(cache, keys, n);
      EntriesFront(n, keys);
      keys := [n] + keys;
      cache := cache[k := n];
    }

    method Get(k: K) returns (v: Option<V>)
      requires Valid()
      modifies this
      ensures Valid() && Repr() == old(Repr())
      ensures (List(), v) == old(GetList(List(), k))
      ensures maxSize == old(maxSize) && elasticity == old(elasticity)
    {
      Located(k);
      if k !in cache {
        return None;
      }
      ghost var at := Find(List(), k);
      Splice(cache[k], at);
      v := Some(cache[k].value);
    }

    method Del(k: K) returns (ok: bool)
      requires Valid()
      modifies this
      ensures Valid() && Repr() <= old(Repr())
      ensures (List(), ok) == old(DelList(List(), k))
      ensures maxSize == old(maxSize) && elasticity == old(elasticity)
    {
      Located(k);
      if k !in cache {
        return false;
      }
      Unlink(cache[k], Find(List(), k));
      return true;
    }

    method Unlink(n: Node<K, V>, ghost at: nat)
      requires Valid() && at < |keys| && keys[at] == n
      modifies `cache, `keys
      ensures Valid() && Repr() <= old(Repr())
      ensures List() == Without(old(List()), at)
    {
      hide Indexed, Entries;
      var i := Position(n, at);
      WithoutIndexed(cache, keys, at);
      EntriesWithout(keys, at);
      keys := Without(keys, i);
      cache := Erased(cache, n.key);
    }

    method Clear()
      requires Valid()
      modifies this
      ensures Valid() && Repr() <= old(Repr()) && List() == []
      ensures maxSize == old(maxSize) && elasticity == old(elasticity)
    {
      cache, keys := map[], [];
    }

    method Size() returns (n: nat)
      requires Valid()
      ensures n == |List()|
    {
      Counts();
      n := |cache|;
    }
  }
}
