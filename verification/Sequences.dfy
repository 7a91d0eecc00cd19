/** Sequences without one element, and joining. */
module Sequences {
  function Without<T>(s: seq<T>, i: nat): seq<T>
    requires i < |s|
  {
    s[..i] + s[i + 1..]
  }

  lemma WithoutFront<T>(e: T, s: seq<T>)
    ensures Without([e] + s, 0) == s
  {
  }

  lemma WithoutNext<T>(e: T, s: seq<T>, i: nat)
    requires i < |s|
    ensures Without([e] + s, i + 1) == [e] + Without(s, i)
  {
  }

  lemma WithoutMembers<T>(s: seq<T>, at: nat, x: T)
    requires at < |s| && x in s && x != s[at]
    ensures x in Without(s, at)
  {
    var j :| 0 <= j < |s| && s[j] == x;
    assert Without(s, at)[if j < at then j else j - 1] == x;
  }

  lemma JoinAssoc<T>(a: seq<T>, b: seq<T>, c: seq<T>)
    ensures a + (b + c) == (a + b) + c
  {
  }
}
