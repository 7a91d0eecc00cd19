/** HashLruCache: one recency list for each residue of the hash. */
module LruShards {
  import opened Lru
  import opened LruCaches
  import opened Options
  import opened Sequences

  type Hash<!K> = K -> nat

  // ceil(x * 1.0 / n), taken exactly
  function CeilDiv(x: nat, n: nat): nat
    requires n > 0
  {
    (x + n - 1) / n
  }

  function Shard<K>(h: Hash<K>, k: K, n: nat): (i: nat)
    requires n > 0
    ensures i < n
  {
    h(k) % n
  }

  function ShardsApply<K(==), V>(ss: seq<seq<Entry<K, V>>>, h: Hash<K>, op: Op<K, V>, maxSize: nat, elasticity: nat): (r: seq<seq<Entry<K, V>>>)
    requires ss != []
    ensures |r| == |ss|
  {
    if op.Clear? then seq(|ss|, _ => [])
    else
      var i := Shard(h, op.k, |ss|);
      ss[i := Apply(ss[i], op, maxSize, elasticity).0]
  }

  function ShardsRun<K(==), V>(ss: seq<seq<Entry<K, V>>>, h: Hash<K>, ops: seq<Op<K, V>>, maxSize: nat, elasticity: nat): (r: seq<seq<Entry<K, V>>>)
    requires ss != []
    ensures |r| == |ss|
    decreases |ops|
  {
    if ops == [] then ss else ShardsRun(ShardsApply(ss, h, ops[0], maxSize, elasticity), h, ops[1..], maxSize, elasticity)
  }

  // A call on one key reaches the shard numbered by the hash modulo their number, and no other;
  // clear reaches all of them.
  lemma ShardsApplyExactly<K, V>(ss: seq<seq<Entry<K, V>>>, h: Hash<K>, op: Op<K, V>, maxSize: nat, elasticity: nat, i: nat)
    requires i < |ss|
    ensures var r := ShardsApply(ss, h, op, maxSize, elasticity)[i];
      && (op.Clear? ==> r == [])
      && (!op.Clear? && i == h(op.k) % |ss| ==> r == Apply(ss[i], op, maxSize, elasticity).0)
      && (!op.Clear? && i != h(op.k) % |ss| ==> r == ss[i])
  {
  }

  // The calls that reach shard i.
  function Mine<K, V>(ops: seq<Op<K, V>>, h: Hash<K>, n: nat, i: nat): seq<Op<K, V>>
    requires n > 0
  {
    if ops == [] then []
    else
      var rest := Mine(ops[1..], h, n, i);
      if ops[0].Clear? || Shard(h, ops[0].k, n) == i then [ops[0]] + rest else rest
  }

  // Each shard lives through a run as a cache of its own, seeing only the calls that reach it.
  lemma {:induction false} ShardIsCache<K, V>(ss: seq<seq<Entry<K, V>>>, h: Hash<K>, ops: seq<Op<K, V>>, maxSize: nat, elasticity: nat, i: nat)
    requires i < |ss|
    ensures ShardsRun(ss, h, ops, maxSize, elasticity)[i] == Run(ss[i], Mine(ops, h, |ss|, i), maxSize, elasticity)
    decreases |ops|
  {
    hide Apply;
    if ops != [] {
      var op, next := ops[0], ShardsApply(ss, h, ops[0], maxSize, elasticity);
      ShardIsCache(next, h, ops[1..], maxSize, elasticity, i);
      var rest := Mine(ops[1..], h, |ss|, i);
      if op.Clear? || Shard(h, op.k, |ss|) == i {
        assert next[i] == Apply(ss[i], op, maxSize, elasticity).0 by { ClearEmpties(ss[i], op, maxSize, elasticity); }
        assert ([op] + rest)[1..] == rest;
      }
    }
  }

  lemma ClearEmpties<K, V>(s: seq<Entry<K, V>>, op: Op<K, V>, maxSize: nat, elasticity: nat)
    ensures op.Clear? ==> Apply(s, op, maxSize, elasticity).0 == []
  {
  }

  ghost predicate Apart<K, V>(ss: seq<seq<Entry<K, V>>>, h: Hash<K>)
    requires ss != []
  {
    forall i :: 0 <= i < |ss| ==> Distinct(ss[i]) && OnlyHere(ss[i], h, |ss|, i)
  }

  ghost predicate OnlyHere<K, V>(s: seq<Entry<K, V>>, h: Hash<K>, n: nat, i: nat)
    requires n > 0
  {
    forall e :: e in s ==> Shard(h, e.key, n) == i
  }

  lemma ApplyKeeps<K, V>(s: seq<Entry<K, V>>, h: Hash<K>, op: Op<K, V>, maxSize: nat, elasticity: nat, n: nat, i: nat)
    requires n > 0 && Distinct(s) && OnlyHere(s, h, n, i)
    requires op.Clear? || Shard(h, op.k, n) == i
    ensures var r := Apply(s, op, maxSize, elasticity).0; Distinct(r) && OnlyHere(r, h, n, i)
  {
    hide Distinct, Remove, Find, MoveToFront;
    match op
    case Set(k, v) =>
      RemoveKeeps(s, k);
      SetMeaning(s, k, v, maxSize, elasticity);
    case Get(k) =>
      RemoveKeeps(s, k);
      GetMeaning(s, k);
    case Del(k) =>
      RemoveKeeps(s, k);
      DelMeaning(s, k);
    case Clear =>
      PrefixDistinct(s, 0);
      assert s[..0] == [];
  }

  // Over every run, a key is never found outside its own shard.
  lemma {:induction false} ShardsStayApart<K, V>(ss: seq<seq<Entry<K, V>>>, h: Hash<K>, ops: seq<Op<K, V>>, maxSize: nat, elasticity: nat)
    requires ss != [] && Apart(ss, h)
    ensures Apart(ShardsRun(ss, h, ops, maxSize, elasticity), h)
    decreases |ops|
  {
    hide Distinct, Apply, OnlyHere;
    if ops != [] {
      var op, next := ops[0], ShardsApply(ss, h, ops[0], maxSize, elasticity);
      forall i | 0 <= i < |ss| ensures Distinct(next[i]) && OnlyHere(next[i], h, |ss|, i) {
        if op.Clear? || Shard(h, op.k, |ss|) == i {
          ApplyKeeps(ss[i], h, op, maxSize, elasticity, |ss|, i);
          ClearEmpties(ss[i], op, maxSize, elasticity);
        }
      }
      ShardsStayApart(next, h, ops[1..], maxSize, elasticity);
    }
  }

  function Total<T>(ss: seq<seq<T>>): nat
  {
    if ss == [] then 0 else Total(ss[..|ss| - 1]) + |ss[|ss| - 1]|
  }

  // Total counts every entry of every shard once.
  lemma TotalOne<T>(s: seq<T>)
    ensures Total([s]) == |s|
  {
    assert [s][..0] == [] && Total<T>([]) == 0;
  }

  lemma {:induction false} TotalJoin<T>(a: seq<seq<T>>, b: seq<seq<T>>)
    ensures Total(a + b) == Total(a) + Total(b)
    decreases |b|
  {
    if b == [] {
      assert a + b == a;
    } else {
      assert (a + b)[..|a + b| - 1] == a + b[..|b| - 1];
      TotalJoin(a, b[..|b| - 1]);
    }
  }

  lemma {:induction false} TotalAtMost<T>(ss: seq<seq<T>>, b: nat)
    requires forall i :: 0 <= i < |ss| ==> |ss[i]| <= b
    ensures Total(ss) <= |ss| * b
  {
    if ss != [] {
      TotalAtMost(ss[..|ss| - 1], b);
      assert |ss| * b == (|ss| - 1) * b + b;
    }
  }

  // The bound on the whole: bucket times the bound of one shard.
  lemma TotalBound<K, V>(n: nat, h: Hash<K>, ops: seq<Op<K, V>>, maxSize: nat, elasticity: nat)
    requires n > 0 && maxSize > 0
    ensures var per := CeilDiv(maxSize, n);
      Total(ShardsRun(seq(n, _ => []), h, ops, per, CeilDiv(elasticity, n))) <= n * Bound(per, CeilDiv(elasticity, n))
  {
    hide Run, ShardsRun, CeilDiv;
    var per, el := CeilDiv(maxSize, n), CeilDiv(elasticity, n);
    CeilMeaning(maxSize, n);
    var start: seq<seq<Entry<K, V>>> := seq(n, _ => []);
    var r := ShardsRun(start, h, ops, per, el);
    forall i | 0 <= i < |r| ensures |r[i]| <= Bound(per, el) {
      ShardIsCache(start, h, ops, per, el, i);
      RunBound(start[i], Mine(ops, h, n, i), per, el);
    }
    TotalAtMost(r, Bound(per, el));
  }

  // n shards of the rounded-up size hold maxSize entries, and less than n more.
  lemma CeilMeaning(x: nat, n: nat)
    requires n > 0
    ensures x <= CeilDiv(x, n) * n < x + n
    ensures CeilDiv(x, n) == 0 <==> x == 0
  {
    var q := CeilDiv(x, n);
    assert x + n - 1 == q * n + (x + n - 1) % n;
  }

  class HashLruCache<K(==), V> {
    const datas: seq<LruCache<K, V>>
    const hash: Hash<K>
    const maxSize: nat
    const elasticity: nat
    ghost const per: nat
    ghost const slack: nat

    ghost function Repr(): set<object>
      reads this, datas
    {
      {this as object} + set i: nat, o: object | i < |datas| && o in datas[i].Repr() :: o
    }

    // Every shard has the same limits, and the whole has their multiples.
    ghost predicate Valid()
      reads this, datas
    {
      && datas != [] && maxSize == per * |datas| && elasticity == slack * |datas|
      && (forall i :: 0 <= i < |datas| ==> this !in datas[i].Repr() && datas[i].Valid())
      && (forall i :: 0 <= i < |datas| ==> datas[i].maxSize == per && datas[i].elasticity == slack)
      && (forall i, j :: 0 <= i < j < |datas| ==> datas[i].Repr() !! datas[j].Repr())
    }

    ghost function Lists(): (ss: seq<seq<Entry<K, V>>>)
      reads this, datas, Repr()
      ensures |ss| == |datas|
    {
      seq(|datas|, i requires 0 <= i < |datas| reads this, datas, Repr() => datas[i].List())
    }

    constructor (bucket: nat, maxSize: nat, elasticity: nat, hash: Hash<K>)
      requires bucket > 0
      ensures Valid() && |datas| == bucket && this.hash == hash
      ensures per == CeilDiv(maxSize, bucket) && slack == CeilDiv(elasticity, bucket)
      ensures Lists() == seq(bucket, _ => [])
    {
      var per, slack := CeilDiv(maxSize, bucket), CeilDiv(elasticity, bucket);
      var shards := NewShards(bucket, per, slack);
      this.per, this.slack := per, slack;
      this.maxSize, this.elasticity, this.hash, this.datas := per * bucket, slack * bucket, hash, shards;
    }

    static method NewShards(bucket: nat, per: nat, el: nat) returns (shards: seq<LruCache<K, V>>)
      ensures |shards| == bucket
      ensures forall i :: 0 <= i < bucket ==> fresh(shards[i]) && shards[i].Valid() && shards[i].keys == []
      ensures forall i :: 0 <= i < bucket ==> shards[i].maxSize == per && shards[i].elasticity == el
      ensures forall i, j :: 0 <= i < j < bucket ==> shards[i] != shards[j]
    {
      shards := [];
      for i := 0 to bucket
        invariant |shards| == i
        invariant forall j :: 0 <= j < i ==> fresh(shards[j]) && shards[j].Valid() && shards[j].keys == []
        invariant forall j :: 0 <= j < i ==> shards[j].maxSize == per && shards[j].elasticity == el
        invariant forall j, l :: 0 <= j < l < i ==> shards[j] != shards[l]
      {
        var shard := new LruCache<K, V>(per, el);
        shards := shards + [shard];
      }
    }

    method Set(k: K, v: V) returns (pruned: seq<Entry<K, V>>)
      requires Valid()
      modifies Repr()
      ensures Valid() && fresh(Repr() - old(Repr()))
      ensures Lists() == ShardsApply(old(Lists()), hash, Op.Set(k, v), per, slack)
      ensures var i := Shard(hash, k, |datas|);
        var was := old(Lists())[i];
        if Find(was, k) < |was| then pruned == [] else PrunedFrom([Entry(k, v)] + was, Lists()[i], pruned)
    {
      hide LruCache.Valid, LruCache.List, PrunedFrom, SetList, Find;
      var i := Shard(hash, k, |datas|);
      pruned := datas[i].Set(k, v);
      forall j | 0 <= j < |datas| && j != i
        ensures datas[j].Repr() == old(datas[j].Repr()) && datas[j].Valid() && datas[j].List() == old(datas[j].List())
      {
      }
    }

    method Get(k: K) returns (v: Option<V>)
      requires Valid()
      modifies Repr()
      ensures Valid() && Repr() == old(Repr())
      ensures Lists() == ShardsApply(old(Lists()), hash, Op.Get(k), per, slack)
      ensures v == GetList(old(Lists())[Shard(hash, k, |datas|)], k).1
    {
      hide LruCache.Valid, LruCache.List, GetList, Find;
      var i := Shard(hash, k, |datas|);
      v := datas[i].Get(k);
      forall j | 0 <= j < |datas| && j != i
        ensures datas[j].Repr() == old(datas[j].Repr()) && datas[j].Valid() && datas[j].List() == old(datas[j].List())
      {
      }
    }

    method Del(k: K) returns (ok: bool)
      requires Valid()
      modifies Repr()
      ensures Valid() && Repr() <= old(Repr())
      ensures Lists() == ShardsApply(old(Lists()), hash, Op.Del(k), per, slack)
      ensures ok == DelList(old(Lists())[Shard(hash, k, |datas|)], k).1
    {
      hide LruCache.Valid, LruCache.List, DelList, Find;
      var i := Shard(hash, k, |datas|);
      ok := datas[i].Del(k);
      forall j | 0 <= j < |datas| && j != i
        ensures datas[j].Repr() == old(datas[j].Repr()) && datas[j].Valid() && datas[j].List() == old(datas[j].List())
      {
      }
    }

    method Clear()
      requires Valid()
      modifies Repr()
      ensures Valid() && Repr() <= old(Repr())
      ensures Lists() == ShardsApply(old(Lists()), hash, Op.Clear, per, slack)
    {
      for i := 0 to |datas|
        invariant Valid() && Repr() <= old(Repr())
        invariant forall j :: 0 <= j < i ==> datas[j].List() == []
      {
        ClearOne(i);
      }
    }

    method ClearOne(i: nat)
      requires Valid() && i < |datas|
      modifies Repr()
      ensures Valid() && Repr() <= old(Repr())
      ensures datas[i].List() == []
      ensures forall j :: 0 <= j < |datas| && j != i ==> datas[j].List() == old(datas[j].List())
    {
      hide LruCache.Valid, LruCache.List;
      datas[i].Clear();
      forall j | 0 <= j < |datas| && j != i
        ensures datas[j].Repr() == old(datas[j].Repr()) && datas[j].Valid() && datas[j].List() == old(datas[j].List())
      {
      }
    }

    method Size() returns (total: nat)
      requires Valid()
      ensures total == Total(Lists())
    {
      hide LruCache.Valid, LruCache.List;
      total := 0;
      ghost var ss := Lists();
      for i := 0 to |datas|
        invariant total == Total(ss[..i])
      {
        var n := datas[i].Size();
        assert ss[..i + 1][..i] == ss[..i] && n == |ss[i]|;
        total := total + n;
      }
      assert ss[..|ss|] == ss;
      assert Lists() == ss;
    }
  }
}
