/** LruCache: a recency list with an index into it. */
module Lru {
  import opened Options
  import opened Sequences

  datatype Entry<K, V> = Entry(key: K, value: V)

  /* ---------- the cache as a recency list, most recent first ---------- */

  predicate Distinct<K(==), V>(s: seq<Entry<K, V>>)
  {
    forall i, j :: 0 <= i < j < |s| ==> s[i].key != s[j].key
  }

  ghost predicate Has<K, V>(s: seq<Entry<K, V>>, k: K) { exists e :: e in s && e.key == k }

  // Where a key is, or the length of the list.
  function Find<K(==), V>(s: seq<Entry<K, V>>, k: K): (i: nat)
    ensures i <= |s|
    ensures i < |s| ==> s[i].key == k
  {
    if s == [] || s[0].key == k then 0 else 1 + Find(s[1..], k)
  }

  // m_keys.splice(m_keys.begin(), m_keys, it), with a new value for the moved node
  function MoveToFront<K, V>(s: seq<Entry<K, V>>, i: nat, v: V): seq<Entry<K, V>>
    requires i < |s|
  {
    [Entry(s[i].key, v)] + Without(s, i)
  }

  // prune(): nothing is dropped below the allowed size; then everything beyond m_maxSize.
  function Pruned<T>(s: seq<T>, maxSize: nat, elasticity: nat): seq<T>
  {
    if maxSize == 0 || |s| < maxSize + elasticity || |s| <= maxSize then s else s[..maxSize]
  }

  function SetList<K(==), V>(s: seq<Entry<K, V>>, k: K, v: V, maxSize: nat, elasticity: nat): seq<Entry<K, V>>
  {
    var i := Find(s, k);
    if i < |s| then MoveToFront(s, i, v) else Pruned([Entry(k, v)] + s, maxSize, elasticity)
  }

  function GetList<K(==), V>(s: seq<Entry<K, V>>, k: K): (seq<Entry<K, V>>, Option<V>)
  {
    var i := Find(s, k);
    if i < |s| then (MoveToFront(s, i, s[i].value), Some(s[i].value)) else (s, None)
  }

  function DelList<K(==), V>(s: seq<Entry<K, V>>, k: K): (seq<Entry<K, V>>, bool)
  {
    var i := Find(s, k);
    if i < |s| then (Without(s, i), true) else (s, false)
  }

  datatype Op<K, V> = Set(k: K, v: V) | Get(k: K) | Del(k: K) | Clear

  // One call; the answer is the value a get finds.
  function Apply<K(==), V>(s: seq<Entry<K, V>>, op: Op<K, V>, maxSize: nat, elasticity: nat): (seq<Entry<K, V>>, Option<V>)
  {
    match op
    case Set(k, v) => (SetList(s, k, v, maxSize, elasticity), None)
    case Get(k) => GetList(s, k)
    case Del(k) => (DelList(s, k).0, None)
    case Clear => ([], None)
  }

  function Run<K(==), V>(s: seq<Entry<K, V>>, ops: seq<Op<K, V>>, maxSize: nat, elasticity: nat): seq<Entry<K, V>>
    decreases |ops|
  {
    if ops == [] then s else Run(Apply(s, ops[0], maxSize, elasticity).0, ops[1..], maxSize, elasticity)
  }

  /* ---------- a key-value map that forgets only its oldest entries ---------- */

  function Remove<K(==), V>(s: seq<Entry<K, V>>, k: K): (r: seq<Entry<K, V>>)
    ensures |r| <= |s|
  {
    if s == [] then [] else if s[0].key == k then s[1..] else [s[0]] + Remove(s[1..], k)
  }

  lemma {:induction false} WithoutIsRemove<K, V>(s: seq<Entry<K, V>>, k: K)
    ensures Remove(s, k) == if Find(s, k) < |s| then Without(s, Find(s, k)) else s
  {
    hide Without;
    if s != [] {
      var t := s[1..];
      assert s == [s[0]] + t;
      if s[0].key == k {
        assert Without(s, 0) == t by { WithoutFront(s[0], t); }
      } else {
        WithoutIsRemove(t, k);
        assert Find(s, k) == Find(t, k) + 1;
        if Find(t, k) < |t| { WithoutNext(s[0], t, Find(t, k)); }
      }
    }
  }

  lemma {:induction false} RemoveKeeps<K, V>(s: seq<Entry<K, V>>, k: K)
    requires Distinct(s)
    ensures Distinct(Remove(s, k))
    ensures forall e :: e in Remove(s, k) ==> e in s && e.key != k
    ensures forall e :: e in s && e.key != k ==> e in Remove(s, k)
  {
    if s != [] {
      RemoveKeeps(s[1..], k);
      var r := Remove(s[1..], k);
      assert s == [s[0]] + s[1..];
      forall e | e in s[1..] ensures e.key != s[0].key {
        var i :| 0 <= i < |s[1..]| && s[1..][i] == e;
        assert s[0].key != s[i + 1].key;
      }
      assert forall e :: e in r ==> e in s[1..];
      if s[0].key != k { FrontDistinct(s[0], r); }
    }
  }

  lemma FrontDistinct<K, V>(e: Entry<K, V>, s: seq<Entry<K, V>>)
    requires Distinct(s) && forall x :: x in s ==> x.key != e.key
    ensures Distinct([e] + s)
  {
    forall i, j | 0 <= i < j < |s| + 1 ensures ([e] + s)[i].key != ([e] + s)[j].key {
      if i == 0 { assert s[j - 1] in s; }
    }
  }

  lemma {:induction false} FindIn<K, V>(s: seq<Entry<K, V>>, k: K)
    ensures Find(s, k) < |s| <==> Has(s, k)
  {
    if s != [] {
      assert s == [s[0]] + s[1..];
      FindIn(s[1..], k);
      if Find(s, k) < |s| { assert s[Find(s, k)] in s; }
    }
  }

  // What a set or a get of k leaves in front of everything else.
  lemma FrontMeaning<K, V>(s: seq<Entry<K, V>>, k: K, v: V)
    requires Distinct(s)
    ensures Distinct([Entry(k, v)] + Remove(s, k))
    ensures var i := Find(s, k);
      if i < |s| then MoveToFront(s, i, v) == [Entry(k, v)] + Remove(s, k) else Remove(s, k) == s
  {
    hide Remove, Distinct;
    WithoutIsRemove(s, k);
    RemoveKeeps(s, k);
    FrontDistinct(Entry(k, v), Remove(s, k));
  }

  lemma SetCases<K, V>(s: seq<Entry<K, V>>, k: K, v: V, maxSize: nat, elasticity: nat)
    requires Distinct(s)
    ensures SetList(s, k, v, maxSize, elasticity) ==
      if Find(s, k) < |s| then [Entry(k, v)] + Remove(s, k)
      else Pruned([Entry(k, v)] + s, maxSize, elasticity)
  {
    hide Remove, Distinct, MoveToFront, Find;
    FrontMeaning(s, k, v);
  }

  // After set(k, v): k is the most recent entry, with v; every other entry is one of the old
  // ones; and only the least recently used ones have been dropped.
  lemma SetMeaning<K, V>(s: seq<Entry<K, V>>, k: K, v: V, maxSize: nat, elasticity: nat)
    requires Distinct(s)
    ensures var r := SetList(s, k, v, maxSize, elasticity);
      && r != [] && r[0] == Entry(k, v) && Distinct(r)
      && r <= [Entry(k, v)] + Remove(s, k)
      && (Find(s, k) < |s| ==> r == [Entry(k, v)] + Remove(s, k))
  {
    hide Remove, Distinct, Find, SetList, Pruned;
    SetCases(s, k, v, maxSize, elasticity);
    FrontMeaning(s, k, v);
    if Find(s, k) == |s| { PrunedMeaning([Entry(k, v)] + s, maxSize, elasticity); }
  }

  // How far pruning goes: a key that was present only moves; one that was not makes the list
  // longer by one while there is room, and otherwise leaves it at exactly maxSize.
  lemma SetLength<K, V>(s: seq<Entry<K, V>>, k: K, v: V, maxSize: nat, elasticity: nat)
    requires Distinct(s)
    ensures var n := |SetList(s, k, v, maxSize, elasticity)|;
      && (Has(s, k) ==> n == |s|)
      && (!Has(s, k) && (maxSize == 0 || |s| + 1 < maxSize + elasticity || |s| + 1 <= maxSize) ==> n == |s| + 1)
      && (!Has(s, k) && !(maxSize == 0 || |s| + 1 < maxSize + elasticity || |s| + 1 <= maxSize) ==> n == maxSize)
  {
    hide Distinct, Find;
    FindIn(s, k);
  }

  lemma PrunedMeaning<K, V>(s: seq<Entry<K, V>>, maxSize: nat, elasticity: nat)
    requires Distinct(s) && s != []
    ensures var r := Pruned(s, maxSize, elasticity);
      r != [] && r <= s && r[0] == s[0] && Distinct(r)
  {
    hide Distinct;
    PrefixDistinct(s, |Pruned(s, maxSize, elasticity)|);
    assert s[..|s|] == s;
  }

  lemma PrefixDistinct<K, V>(s: seq<Entry<K, V>>, n: nat)
    requires Distinct(s) && n <= |s|
    ensures Distinct(s[..n])
  {
  }

  // A get changes nothing but the order.
  lemma GetMeaning<K, V>(s: seq<Entry<K, V>>, k: K)
    requires Distinct(s)
    ensures var (r, v) := GetList(s, k);
      && Distinct(r) && |r| == |s|
      && (v.Some? <==> Has(s, k))
      && (v.Some? ==> Entry(k, v.value) in s && r == [Entry(k, v.value)] + Remove(s, k))
      && (v.None? ==> r == s)
  {
    hide Remove, Distinct, Find;
    FindIn(s, k);
    var i := Find(s, k);
    if i < |s| {
      assert s[i] in s;
      FrontMeaning(s, k, s[i].value);
    }
  }

  lemma DelMeaning<K, V>(s: seq<Entry<K, V>>, k: K)
    requires Distinct(s)
    ensures var (r, ok) := DelList(s, k);
      && r == Remove(s, k) && Distinct(r) && (ok <==> Has(s, k))
  {
    WithoutIsRemove(s, k);
    RemoveKeeps(s, k);
    FindIn(s, k);
  }

  /* ---------- size ---------- */

  // m_maxSize + max(m_elasticity, 1) - 1
  function Bound(maxSize: nat, elasticity: nat): (b: int)
    ensures b >= maxSize
  {
    maxSize + (if elasticity > 0 then elasticity else 1) - 1
  }

  lemma ApplyBound<K, V>(s: seq<Entry<K, V>>, op: Op<K, V>, maxSize: nat, elasticity: nat)
    requires maxSize > 0 && |s| <= Bound(maxSize, elasticity)
    ensures |Apply(s, op, maxSize, elasticity).0| <= Bound(maxSize, elasticity)
  {
  }

  // No run exceeds the bound.
  lemma {:induction false} RunBound<K, V>(s: seq<Entry<K, V>>, ops: seq<Op<K, V>>, maxSize: nat, elasticity: nat)
    requires maxSize > 0 && |s| <= Bound(maxSize, elasticity)
    ensures |Run(s, ops, maxSize, elasticity)| <= Bound(maxSize, elasticity)
    decreases |ops|
  {
    if ops != [] {
      ApplyBound(s, ops[0], maxSize, elasticity);
      RunBound(Apply(s, ops[0], maxSize, elasticity).0, ops[1..], maxSize, elasticity);
    }
  }

  // Setting the keys from lo up to hi.
  function SetsFrom(lo: nat, hi: nat): seq<Op<nat, nat>>
    requires lo <= hi
    decreases hi - lo
  {
    if lo == hi then [] else [Set(lo, 0)] + SetsFrom(lo + 1, hi)
  }

  lemma FreshKeyFits(s: seq<Entry<nat, nat>>, k: nat, maxSize: nat, elasticity: nat)
    requires |s| < Bound(maxSize, elasticity) && forall e :: e in s ==> e.key < k
    ensures Apply(s, Set(k, 0), maxSize, elasticity).0 == [Entry(k, 0)] + s
  {
    hide Find;
    FindIn(s, k);
  }

  lemma {:induction false} FreshKeysStay(s: seq<Entry<nat, nat>>, lo: nat, hi: nat, maxSize: nat, elasticity: nat)
    requires maxSize > 0 && lo <= hi && |s| + (hi - lo) <= Bound(maxSize, elasticity)
    requires forall e :: e in s ==> e.key < lo
    ensures |Run(s, SetsFrom(lo, hi), maxSize, elasticity)| == |s| + (hi - lo)
    decreases hi - lo
  {
    hide Run, Apply, Bound;
    if lo == hi {
      RunNone(s, maxSize, elasticity);
    } else {
      FreshKeyFits(s, lo, maxSize, elasticity);
      RunOne(s, Set(lo, 0), SetsFrom(lo + 1, hi), maxSize, elasticity);
      FreshKeysStay([Entry(lo, 0)] + s, lo + 1, hi, maxSize, elasticity);
    }
  }

  lemma RunNone<K, V>(s: seq<Entry<K, V>>, maxSize: nat, elasticity: nat)
    ensures Run(s, [], maxSize, elasticity) == s
  {
  }

  lemma RunOne<K, V>(s: seq<Entry<K, V>>, op: Op<K, V>, ops: seq<Op<K, V>>, maxSize: nat, elasticity: nat)
    ensures Run(s, [op] + ops, maxSize, elasticity) == Run(Apply(s, op, maxSize, elasticity).0, ops, maxSize, elasticity)
  {
    assert ([op] + ops)[1..] == ops;
  }

  // The bound is reached: by setting that many different keys.
  lemma BoundReached(maxSize: nat, elasticity: nat)
    requires maxSize > 0
    ensures |Run([], SetsFrom(0, Bound(maxSize, elasticity)), maxSize, elasticity)| == Bound(maxSize, elasticity)
  {
    FreshKeysStay([], 0, Bound(maxSize, elasticity), maxSize, elasticity);
  }

  /* ---------- a smaller cache is contained in a larger one ---------- */

  // a is b with some entries left out.
  predicate Subseq<T(==)>(a: seq<T>, b: seq<T>)
    decreases |b|
  {
    a == [] || (b != [] && if a[0] == b[0] then Subseq(a[1..], b[1..]) else Subseq(a, b[1..]))
  }

  lemma {:induction false} SubseqCons<T>(a: seq<T>, c: T, b: seq<T>)
    requires Subseq(a, b)
    ensures Subseq(a, [c] + b)
    decreases |b|, 1
  {
    assert ([c] + b)[1..] == b;
    if a != [] && a[0] == c { SubseqDropFirst(a, b); }
  }

  lemma {:induction false} SubseqDropFirst<T>(a: seq<T>, b: seq<T>)
    requires Subseq(a, b) && a != []
    ensures Subseq(a[1..], b)
    decreases |b|, 0
  {
    assert [b[0]] + b[1..] == b;
    if a[0] != b[0] { SubseqDropFirst(a, b[1..]); }
    SubseqCons(a[1..], b[0], b[1..]);
  }

  lemma {:induction false} SubseqMembers<T>(a: seq<T>, b: seq<T>)
    requires Subseq(a, b)
    ensures |a| <= |b| && forall e :: e in a ==> e in b
    decreases |b|
  {
    if a != [] {
      if a[0] == b[0] {
        SubseqMembers(a[1..], b[1..]);
        assert a == [a[0]] + a[1..];
      } else {
        SubseqMembers(a, b[1..]);
      }
    }
  }

  lemma {:induction false} SubseqPrefix<T>(a: seq<T>, b: seq<T>, n: nat)
    requires Subseq(a, b) && n <= |a|
    ensures Subseq(a[..n], b)
    decreases |b|
  {
    if n > 0 {
      if a[0] == b[0] {
        SubseqPrefix(a[1..], b[1..], n - 1);
        assert a[..n][1..] == a[1..][..n - 1];
      } else {
        SubseqPrefix(a, b[1..], n);
      }
    }
  }

  lemma {:induction false} SubseqDropLast<T>(a: seq<T>, b: seq<T>)
    requires Subseq(a, b) && a != []
    ensures b != [] && Subseq(a[..|a| - 1], b[..|b| - 1])
    decreases |b|
  {
    SubseqMembers(a, b);
    var x, y := a[..|a| - 1], b[..|b| - 1];
    if a[0] == b[0] {
      if |a| > 1 {
        SubseqDropLast(a[1..], b[1..]);
        assert x[1..] == a[1..][..|a| - 2] && y[1..] == b[1..][..|b| - 2];
      }
    } else {
      SubseqDropLast(a, b[1..]);
      SubseqCons(x, b[0], b[1..][..|b| - 2]);
      assert y == [b[0]] + b[1..][..|b| - 2];
    }
  }

  lemma {:induction false} RemoveAbsent<K, V>(s: seq<Entry<K, V>>, k: K)
    requires forall e :: e in s ==> e.key != k
    ensures Remove(s, k) == s
  {
    if s != [] {
      assert s[0] in s;
      RemoveAbsent(s[1..], k);
    }
  }

  lemma {:induction false} SubseqRemove<K, V>(a: seq<Entry<K, V>>, b: seq<Entry<K, V>>, k: K)
    requires Subseq(a, b) && Distinct(b)
    ensures Subseq(Remove(a, k), Remove(b, k))
    decreases |b|
  {
    if a != [] {
      if a[0] == b[0] {
        SubseqRemove(a[1..], b[1..], k);
        if a[0].key != k {
          assert Remove(b, k) == [b[0]] + Remove(b[1..], k);
          assert Remove(a, k) == [a[0]] + Remove(a[1..], k);
          SubseqFront(a[0], Remove(a[1..], k), Remove(b[1..], k));
        }
      } else if b[0].key == k {
        SubseqMembers(a, b[1..]);
        forall e | e in a ensures e.key != k {
          var i :| 0 <= i < |b[1..]| && b[1..][i] == e;
          assert b[0].key != b[i + 1].key;
        }
        RemoveAbsent(a, k);
      } else {
        SubseqRemove(a, b[1..], k);
        SubseqCons(Remove(a, k), b[0], Remove(b[1..], k));
      }
    }
  }

  lemma SubseqFront<T>(e: T, a: seq<T>, b: seq<T>)
    requires Subseq(a, b)
    ensures Subseq([e] + a, [e] + b)
  {
    assert ([e] + a)[1..] == a && ([e] + b)[1..] == b;
  }

  // The small cache holds some of the large one's entries, in the same order and with the same
  // values, and falls short of it by no more than their sizes differ.
  ghost predicate Contained<K, V>(a: seq<Entry<K, V>>, b: seq<Entry<K, V>>, n: nat, m: nat)
  {
    Subseq(a, b) && Distinct(a) && Distinct(b) && |a| <= n && |b| <= m && |b| - |a| <= m - n
  }

  // Every hit in the small cache is a hit in the large one, on the same value.
  lemma HitIncluded<K, V>(a: seq<Entry<K, V>>, b: seq<Entry<K, V>>, k: K)
    requires Subseq(a, b) && Distinct(b)
    ensures var v := GetList(a, k).1; v.Some? ==> GetList(b, k).1 == v
  {
    SubseqMembers(a, b);
    var i := Find(a, k);
    if i < |a| {
      assert a[i] in b;
      FindIn(b, k);
      var j :| 0 <= j < |b| && b[j] == a[i];
      var l := Find(b, k);
      assert b[l].key == b[j].key;
    }
  }

  // With elasticity 0 a set puts its entry first and keeps at most maxSize entries.
  lemma SetCuts<K, V>(s: seq<Entry<K, V>>, k: K, v: V, maxSize: nat)
    requires maxSize >= 1 && Distinct(s) && |s| <= maxSize
    ensures var full := [Entry(k, v)] + Remove(s, k);
      && SetList(s, k, v, maxSize, 0) == (if |full| <= maxSize then full else full[..maxSize])
      && |full| == if Find(s, k) < |s| then |s| else |s| + 1
  {
    hide Remove, Distinct, Find, SetList;
    SetCases(s, k, v, maxSize, 0);
    FrontMeaning(s, k, v);
    WithoutIsRemove(s, k);
  }

  lemma SetContained<K, V>(a: seq<Entry<K, V>>, b: seq<Entry<K, V>>, k: K, v: V, n: nat, m: nat)
    requires 1 <= n <= m && Contained(a, b, n, m)
    ensures Contained(SetList(a, k, v, n, 0), SetList(b, k, v, m, 0), n, m)
  {
    hide Remove, Distinct, Find, SetList, Subseq;
    SetCuts(a, k, v, n);
    SetCuts(b, k, v, m);
    SetMeaning(a, k, v, n, 0);
    SetMeaning(b, k, v, m, 0);
    HitIncluded(a, b, k);
    SubseqRemove(a, b, k);
    var e := Entry(k, v);
    SubseqFront(e, Remove(a, k), Remove(b, k));
    CutContained([e] + Remove(a, k), [e] + Remove(b, k), n, m);
  }

  lemma CutContained<T>(a: seq<T>, b: seq<T>, n: nat, m: nat)
    requires Subseq(a, b) && 1 <= n <= m && |a| <= n + 1 && |b| <= m + 1 && |b| - |a| <= m - n
    ensures var ra, rb := if |a| <= n then a else a[..n], if |b| <= m then b else b[..m];
      Subseq(ra, rb) && |rb| - |ra| <= m - n
  {
    hide Subseq;
    if |b| > m { SubseqDropLast(a, b); } else if |a| > n { SubseqPrefix(a, b, n); }
  }

  lemma ApplyContained<K, V>(a: seq<Entry<K, V>>, b: seq<Entry<K, V>>, op: Op<K, V>, n: nat, m: nat)
    requires 1 <= n <= m && Contained(a, b, n, m)
    ensures Contained(Apply(a, op, n, 0).0, Apply(b, op, m, 0).0, n, m)
    ensures Apply(a, op, n, 0).1.Some? ==> Apply(b, op, m, 0).1 == Apply(a, op, n, 0).1
  {
    match op
    case Set(k, v) => SetContained(a, b, k, v, n, m);
    case Get(k) =>
      HitIncluded(a, b, k);
      GetMeaning(a, k);
      GetMeaning(b, k);
      SubseqRemove(a, b, k);
      var x, y := GetList(a, k), GetList(b, k);
      if x.1.Some? {
        SubseqFront(Entry(k, x.1.value), Remove(a, k), Remove(b, k));
      } else if y.1.Some? {
        FindIn(a, k);
        RemoveAbsent(a, k);
        SubseqCons(a, Entry(k, y.1.value), Remove(b, k));
      }
    case Del(k) =>
      DelMeaning(a, k);
      DelMeaning(b, k);
      SubseqRemove(a, b, k);
      HitIncluded(a, b, k);
      WithoutIsRemove(a, k);
      WithoutIsRemove(b, k);
    case Clear =>
  }

  // LRU inclusion: the same calls on two caches with elasticity 0 and sizes n <= m keep the
  // smaller one's entries inside the larger one's.
  lemma {:induction false} Inclusion<K, V>(a: seq<Entry<K, V>>, b: seq<Entry<K, V>>, ops: seq<Op<K, V>>, n: nat, m: nat)
    requires 1 <= n <= m && Contained(a, b, n, m)
    ensures Contained(Run(a, ops, n, 0), Run(b, ops, m, 0), n, m)
    decreases |ops|
  {
    if ops != [] {
      ApplyContained(a, b, ops[0], n, m);
      Inclusion(Apply(a, ops[0], n, 0).0, Apply(b, ops[0], m, 0).0, ops[1..], n, m);
    }
  }

  lemma InclusionFromEmpty<K, V>(ops: seq<Op<K, V>>, op: Op<K, V>, n: nat, m: nat)
    requires 1 <= n <= m
    ensures var a, b := Run([], ops, n, 0), Run([], ops, m, 0);
      && Contained(a, b, n, m)
      && (Apply(a, op, n, 0).1.Some? ==> Apply(b, op, m, 0).1 == Apply(a, op, n, 0).1)
  {
    Inclusion<K, V>([], [], ops, n, m);
    ApplyContained(Run([], ops, n, 0), Run([], ops, m, 0), op, n, m);
  }

  /* ---------- against a map that forgets nothing ---------- */

  function MapApply<K(==), V>(m: map<K, V>, op: Op<K, V>): map<K, V>
  {
    match op
    case Set(k, v) => m[k := v]
    case Get(_) => m
    case Del(k) => m - {k}
    case Clear => map[]
  }

  function MapRun<K(==), V>(m: map<K, V>, ops: seq<Op<K, V>>): map<K, V>
    decreases |ops|
  {
    if ops == [] then m else MapRun(MapApply(m, ops[0]), ops[1..])
  }

  // Every entry of the list is the map's.
  ghost predicate Agrees<K, V>(s: seq<Entry<K, V>>, m: map<K, V>)
  {
    Distinct(s) && forall e :: e in s ==> e.key in m && m[e.key] == e.value
  }

  ghost predicate Covers<K, V>(s: seq<Entry<K, V>>, m: map<K, V>)
  {
    forall k :: k in m ==> Has(s, k)
  }

  lemma FrontCovers<K, V>(s: seq<Entry<K, V>>, m: map<K, V>, k: K, v: V)
    requires Distinct(s) && Covers(s, m)
    ensures Covers([Entry(k, v)] + Remove(s, k), m[k := v])
  {
    hide Distinct, Remove;
    RemoveKeeps(s, k);
    var r := [Entry(k, v)] + Remove(s, k);
    forall x | x in m[k := v] ensures Has(r, x) {
      if x == k {
        assert r[0] in r;
      } else {
        var e :| e in s && e.key == x;
        assert e in r;
      }
    }
  }

  lemma RemoveCovers<K, V>(s: seq<Entry<K, V>>, m: map<K, V>, k: K)
    requires Distinct(s) && Covers(s, m)
    ensures Covers(Remove(s, k), m - {k})
  {
    hide Distinct, Remove;
    RemoveKeeps(s, k);
    forall x | x in m - {k} ensures Has(Remove(s, k), x) {
      var e :| e in s && e.key == x;
      assert e in Remove(s, k);
    }
  }

  lemma ApplyAgrees<K, V>(s: seq<Entry<K, V>>, m: map<K, V>, op: Op<K, V>, maxSize: nat, elasticity: nat)
    requires Agrees(s, m)
    ensures Agrees(Apply(s, op, maxSize, elasticity).0, MapApply(m, op))
    ensures maxSize == 0 && Covers(s, m) ==> Covers(Apply(s, op, maxSize, elasticity).0, MapApply(m, op))
  {
    hide Distinct, Remove, Find, MoveToFront;
    match op
    case Set(k, v) =>
      RemoveKeeps(s, k);
      SetMeaning(s, k, v, maxSize, elasticity);
      if maxSize == 0 && Covers(s, m) {
        SetCases(s, k, v, maxSize, elasticity);
        FrontMeaning(s, k, v);
        FrontCovers(s, m, k, v);
      }
    case Get(k) =>
      RemoveKeeps(s, k);
      GetMeaning(s, k);
      var (r, v) := GetList(s, k);
      if v.Some? && Covers(s, m) {
        FrontCovers(s, m, k, v.value);
        assert m[k := v.value] == m;
      }
    case Del(k) =>
      RemoveKeeps(s, k);
      DelMeaning(s, k);
      if Covers(s, m) { RemoveCovers(s, m, k); }
    case Clear =>
      PrefixDistinct(s, 0);
      assert s[..0] == [];
  }

  // Whatever a run answers, the map answers; and a cache with m_maxSize 0 is that map.
  lemma {:induction false} RunAgrees<K, V>(s: seq<Entry<K, V>>, m: map<K, V>, ops: seq<Op<K, V>>, maxSize: nat, elasticity: nat)
    requires Agrees(s, m)
    ensures Agrees(Run(s, ops, maxSize, elasticity), MapRun(m, ops))
    ensures maxSize == 0 && Covers(s, m) ==> Covers(Run(s, ops, maxSize, elasticity), MapRun(m, ops))
    decreases |ops|
  {
    if ops != [] {
      ApplyAgrees(s, m, ops[0], maxSize, elasticity);
      RunAgrees(Apply(s, ops[0], maxSize, elasticity).0, MapApply(m, ops[0]), ops[1..], maxSize, elasticity);
    }
  }

  lemma AnswersLastSet<K, V>(ops: seq<Op<K, V>>, k: K, maxSize: nat, elasticity: nat)
    ensures var m, v := MapRun(map[], ops), GetList(Run([], ops, maxSize, elasticity), k).1;
      && (v.Some? ==> k in m && v.value == m[k])
      && (maxSize == 0 && k in m ==> v.Some?)
  {
    hide Distinct, Find, MoveToFront;
    RunAgrees<K, V>([], map[], ops, maxSize, elasticity);
    GetMeaning(Run([], ops, maxSize, elasticity), k);
  }
}
