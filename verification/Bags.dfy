/** Multisets gathered from the elements of a sequence. */
module Bags {
  function Sum<T, U>(s: seq<T>, f: T -> multiset<U>): multiset<U>
  {
    if s == [] then multiset{} else f(s[0]) + Sum(s[1..], f)
  }

  lemma JoinMoved<T>(w: multiset<T>, a: multiset<T>, b: multiset<T>, x: multiset<T>, y: multiset<T>)
    requires a + x == b + y
    ensures (w + a) + x == (w + b) + y
  {
    forall e | true ensures ((w + a) + x)[e] == ((w + b) + y)[e] {
      assert (a + x)[e] == (b + y)[e];
    }
  }

  lemma Moved<T>(a: multiset<T>, b: multiset<T>, x: multiset<T>, y: multiset<T>, m: multiset<T>)
    requires b + x == a + y && x == y + m
    ensures a == b + m
  {
    forall e | true ensures a[e] == (b + m)[e] {
      assert (b + x)[e] == (a + y)[e] && (y + m)[e] == x[e];
    }
  }

  // Replacing one element trades its part of the sum for the new one's.
  lemma {:induction false} SumUpdate<T, U>(s: seq<T>, i: nat, x: T, f: T -> multiset<U>)
    requires i < |s|
    ensures Sum(s[i := x], f) + f(s[i]) == Sum(s, f) + f(x)
  {
    if i == 0 {
      assert s[0 := x][1..] == s[1..];
      assert Sum(s[0 := x], f) == f(x) + Sum(s[1..], f);
    } else {
      var t := s[1..][i - 1 := x];
      assert s[i := x][1..] == t && s[1..][i - 1] == s[i];
      SumUpdate(s[1..], i - 1, x, f);
      assert Sum(s[i := x], f) == f(s[0]) + Sum(t, f);
      JoinMoved(f(s[0]), Sum(t, f), Sum(s[1..], f), f(s[i]), f(x));
    }
  }

  // What one element brings is in the sum, and what is in the sum some element brought.
  lemma {:induction false} SumHas<T, U>(s: seq<T>, i: nat, u: U, f: T -> multiset<U>)
    requires i < |s| && u in f(s[i])
    ensures u in Sum(s, f)
  {
    if i > 0 { SumHas(s[1..], i - 1, u, f); }
  }

  lemma {:induction false} SumFrom<T, U>(s: seq<T>, u: U, f: T -> multiset<U>) returns (i: nat)
    requires u in Sum(s, f)
    ensures i < |s| && u in f(s[i])
  {
    if u in f(s[0]) {
      i := 0;
    } else {
      i := SumFrom(s[1..], u, f);
      i := i + 1;
    }
  }

  lemma {:induction false} SumNothing<T, U>(s: seq<T>, f: T -> multiset<U>)
    requires forall i :: 0 <= i < |s| ==> f(s[i]) == multiset{}
    ensures Sum(s, f) == multiset{}
  {
    if s != [] { SumNothing(s[1..], f); }
  }

  lemma {:induction false} SumAppend<T, U>(a: seq<T>, b: seq<T>, f: T -> multiset<U>)
    ensures Sum(a + b, f) == Sum(a, f) + Sum(b, f)
  {
    if a == [] {
      assert a + b == b;
    } else {
      SumAppend(a[1..], b, f);
      assert (a + b)[1..] == a[1..] + b;
    }
  }
}
