/** The timer set as values: what each locked section of timer.cc does to it. */
module Timers {
  import opened Options

  const U64: nat := 0x1_0000_0000_0000_0000
  const HOUR: nat := 60 * 60 * 1000

  // uint64_t arithmetic
  function Wrap(x: int): nat { x % U64 }

  // One timer. `live` records whether it was given a callback to begin with.
  datatype Rec = Rec(addr: nat, recurring: bool, live: bool, ms: nat, next: nat, cb: Option<int>)

  // recs: every timer ever made, by address; queue: m_timers in its iteration order.
  datatype State = State(recs: map<nat, Rec>, queue: seq<nat>, tickled: bool, previous: nat)

  // Timer::Comparator: by deadline, then by address.
  predicate Before(n1: nat, a1: nat, n2: nat, a2: nat) { n1 < n2 || (n1 == n2 && a1 < a2) }

  predicate Known(recs: map<nat, Rec>, queue: seq<nat>)
  {
    forall a :: a in queue ==> a in recs && recs[a].addr == a
  }

  // Strictly ascending in the comparator, under the keys the timers have now.
  predicate Sorted(recs: map<nat, Rec>, queue: seq<nat>)
    requires Known(recs, queue)
  {
    forall i, j :: 0 <= i < j < |queue| ==> Before(recs[queue[i]].next, queue[i], recs[queue[j]].next, queue[j])
  }

  // std::set::lower_bound: how many leading entries come before the key.
  function Rank(recs: map<nat, Rec>, queue: seq<nat>, next: nat, addr: nat): (r: nat)
    requires Known(recs, queue)
    ensures r <= |queue|
  {
    if queue == [] || !Before(recs[queue[0]].next, queue[0], next, addr) then 0
    else 1 + Rank(recs, queue[1..], next, addr)
  }

  // std::set::insert of a timer that is not in the set.
  function Insert(recs: map<nat, Rec>, queue: seq<nat>, a: nat): seq<nat>
    requires Known(recs, queue) && a in recs
  {
    var r := Rank(recs, queue, recs[a].next, a);
    queue[..r] + [a] + queue[r..]
  }

  // std::set::erase
  function Erase(queue: seq<nat>, a: nat): seq<nat>
  {
    if queue == [] then [] else if queue[0] == a then queue[1..] else [queue[0]] + Erase(queue[1..], a)
  }

  // A timer with a callback is in the set exactly as long as it still has it, and the set's
  // order agrees with the deadlines the timers have now.
  ghost predicate Inv(s: State)
  {
    && Known(s.recs, s.queue) && Sorted(s.recs, s.queue)
    && (forall a :: a in s.recs ==> s.recs[a].addr == a)
    && (forall a :: a in s.recs && s.recs[a].live ==> (a in s.queue <==> s.recs[a].cb.Some?))
    && (forall a :: a in s.recs && !s.recs[a].live ==> s.recs[a].cb.None?)
  }

  /* ---------- the operations ---------- */

  // TimerManager::addTimer(val, lock); the flag says that onTimerInsertedAtFront is called.
  function Put(s: State, a: nat): (State, bool)
    requires Known(s.recs, s.queue) && a in s.recs
  {
    var atFront := Rank(s.recs, s.queue, s.recs[a].next, a) == 0 && !s.tickled;
    (s.(queue := Insert(s.recs, s.queue, a), tickled := s.tickled || atFront), atFront)
  }

  function Add(s: State, a: nat, ms: nat, cb: Option<int>, recurring: bool, now: nat): (State, bool)
    requires Known(s.recs, s.queue) && a !in s.recs
  {
    Put(s.(recs := s.recs[a := Rec(a, recurring, cb.Some?, ms, Wrap(now + ms), cb)]), a)
  }

  function Cancel(s: State, a: nat): (State, bool)
    requires a in s.recs
  {
    if s.recs[a].cb.None? then (s, false)
    else (s.(recs := s.recs[a := s.recs[a].(cb := None)], queue := Erase(s.queue, a)), true)
  }

  // The timer leaves the set, gets its new key, and only then goes back in.
  function Rekey(s: State, a: nat, ms: nat, next: nat): (r: State)
    requires a in s.recs
  {
    s.(recs := s.recs[a := s.recs[a].(ms := ms, next := next)], queue := Erase(s.queue, a))
  }

  lemma {:induction false} EraseMembers(queue: seq<nat>, a: nat)
    requires forall i, j :: 0 <= i < j < |queue| ==> queue[i] != queue[j]
    ensures forall x :: x in Erase(queue, a) <==> x in queue && x != a
    ensures a !in queue ==> Erase(queue, a) == queue
  {
    if queue != [] {
      EraseMembers(queue[1..], a);
      assert queue == [queue[0]] + queue[1..];
      if queue[0] != a { assert forall x :: x in Erase(queue, a) <==> x == queue[0] || x in Erase(queue[1..], a); }
    }
  }

  lemma {:induction false} EraseSubset(queue: seq<nat>, a: nat)
    ensures forall x :: x in Erase(queue, a) ==> x in queue
  {
    if queue != [] { EraseSubset(queue[1..], a); }
  }

  function Refresh(s: State, a: nat, now: nat): (State, bool)
    requires Known(s.recs, s.queue) && a in s.recs
  {
    if s.recs[a].cb.None? || a !in s.queue then (s, false)
    else
      var s1 := Rekey(s, a, s.recs[a].ms, Wrap(now + s.recs[a].ms));
      RekeyKnown(s, a, s.recs[a].ms, Wrap(now + s.recs[a].ms));
      (s1.(queue := Insert(s1.recs, s1.queue, a)), true)
  }

  // The results: what reset returns, and whether onTimerInsertedAtFront is called.
  function Reset(s: State, a: nat, ms: nat, fromNow: bool, now: nat): (State, bool, bool)
    requires Known(s.recs, s.queue) && a in s.recs
  {
    var t := s.recs[a];
    if ms == t.ms && !fromNow then (s, true, false)
    else if t.cb.None? || a !in s.queue then (s, false, false)
    else
      var start := if fromNow then now else Wrap(t.next - t.ms);
      RekeyKnown(s, a, ms, Wrap(start + ms));
      var (s1, woke) := Put(Rekey(s, a, ms, Wrap(start + ms)), a);
      (s1, true, woke)
  }

  lemma RekeyKnown(s: State, a: nat, ms: nat, next: nat)
    requires Known(s.recs, s.queue) && a in s.recs
    ensures Known(Rekey(s, a, ms, next).recs, Rekey(s, a, ms, next).queue)
  {
    EraseSubset(s.queue, a);
  }

  // getNextTimer: the wait until the first deadline, ~0 when there is none.
  function NextTimer(s: State, now: nat): (State, nat)
    requires Known(s.recs, s.queue)
  {
    var s1 := s.(tickled := false);
    if s.queue == [] then (s1, U64 - 1)
    else
      var next := s.recs[s.queue[0]].next;
      (s1, if now >= next then 0 else next - now)
  }

  // detectClockRollover, with the wrap-around of the subtraction
  predicate Rollover(previous: nat, now: nat) { now < previous && now < Wrap(previous - HOUR) }

  // How many timers listExpiredCb takes: everything after a rollover, otherwise up to the
  // lower bound of (now, probe) and on over the timers due exactly now.
  function Taken(recs: map<nat, Rec>, queue: seq<nat>, now: nat, probe: nat, rollover: bool): (n: nat)
    requires Known(recs, queue)
    ensures n <= |queue|
  {
    if rollover then |queue| else SkipEqual(recs, queue, Rank(recs, queue, now, probe), now)
  }

  function SkipEqual(recs: map<nat, Rec>, queue: seq<nat>, i: nat, now: nat): (n: nat)
    requires Known(recs, queue) && i <= |queue|
    ensures i <= n <= |queue|
    decreases |queue| - i
  {
    if i < |queue| && recs[queue[i]].next == now then SkipEqual(recs, queue, i + 1, now) else i
  }

  // One expired timer: its callback is handed out; it goes back into the set or dies.
  function Expire(s: State, a: nat, now: nat): (r: State)
    requires Known(s.recs, s.queue) && a in s.recs && s.recs[a].addr == a && a !in s.queue
    ensures Known(r.recs, r.queue) && r.recs.Keys == s.recs.Keys
    ensures forall x :: x in s.recs && x != a ==> r.recs[x] == s.recs[x]
    ensures r.recs[a].addr == a
    ensures forall x :: x in r.queue ==> x in s.queue || x == a
  {
    var t := s.recs[a];
    if t.recurring then
      var s1 := s.(recs := s.recs[a := t.(next := Wrap(now + t.ms))]);
      s1.(queue := Insert(s1.recs, s1.queue, a))
    else s.(recs := s.recs[a := t.(cb := None)])
  }

  predicate Distinct(queue: seq<nat>) { forall i, j :: 0 <= i < j < |queue| ==> queue[i] != queue[j] }

  // Timers that have been taken out of the set.
  predicate InHand(s: State, hand: seq<nat>)
  {
    && Known(s.recs, s.queue) && Distinct(hand)
    && forall a :: a in hand ==> a in s.recs && s.recs[a].addr == a && a !in s.queue
  }

  function ExpireAll(s: State, expired: seq<nat>, now: nat): (r: State)
    requires InHand(s, expired)
    decreases |expired|
  {
    if expired == [] then s else ExpireAll(Expire(s, expired[0], now), expired[1..], now)
  }

  function Callbacks(recs: map<nat, Rec>, queue: seq<nat>): (cbs: seq<Option<int>>)
    requires Known(recs, queue)
    ensures |cbs| == |queue| && forall i :: 0 <= i < |queue| ==> cbs[i] == recs[queue[i]].cb
  {
    seq(|queue|, i requires 0 <= i < |queue| => recs[queue[i]].cb)
  }

  lemma SortedDistinct(recs: map<nat, Rec>, queue: seq<nat>)
    requires Known(recs, queue) && Sorted(recs, queue)
    ensures Distinct(queue)
  {
  }

  function ListExpired(s: State, now: nat, probe: nat): (State, seq<Option<int>>)
    requires Known(s.recs, s.queue) && Sorted(s.recs, s.queue)
  {
    if s.queue == [] then (s, [])
    else
      var rollover := Rollover(s.previous, now);
      var s1 := s.(previous := now);
      if !rollover && s.recs[s.queue[0]].next > now then (s1, [])
      else
        var n := Taken(s.recs, s.queue, now, probe, rollover);
        SortedDistinct(s.recs, s.queue);
        (ExpireAll(s1.(queue := s.queue[n..]), s.queue[..n], now), Callbacks(s.recs, s.queue[..n]))
  }

  /* ---------- the ordered set ---------- */

  // Everything before the rank comes before the key, everything behind it does not.
  lemma {:induction false} RankSplits(recs: map<nat, Rec>, queue: seq<nat>, next: nat, addr: nat)
    requires Known(recs, queue) && Sorted(recs, queue)
    ensures var r := Rank(recs, queue, next, addr);
      && (forall i :: 0 <= i < r ==> Before(recs[queue[i]].next, queue[i], next, addr))
      && (forall i :: r <= i < |queue| ==> !Before(recs[queue[i]].next, queue[i], next, addr))
  {
    if queue != [] && Before(recs[queue[0]].next, queue[0], next, addr) {
      var tail := queue[1..];
      RankSplits(recs, tail, next, addr);
      var r := Rank(recs, tail, next, addr);
      forall i | 0 < i < |queue|
        ensures i <= r ==> Before(recs[queue[i]].next, queue[i], next, addr)
        ensures i > r ==> !Before(recs[queue[i]].next, queue[i], next, addr)
      {
        assert queue[i] == tail[i - 1];
      }
    }
  }

  // std::set::find lands on the timer itself, because its key has not changed in the set.
  lemma FindByKey(recs: map<nat, Rec>, queue: seq<nat>, a: nat)
    requires Known(recs, queue) && Sorted(recs, queue) && a in queue
    ensures var r := Rank(recs, queue, recs[a].next, a); r < |queue| && queue[r] == a
  {
    RankSplits(recs, queue, recs[a].next, a);
    var i :| 0 <= i < |queue| && queue[i] == a;
  }

  lemma InsertSorted(recs: map<nat, Rec>, queue: seq<nat>, a: nat)
    requires Known(recs, queue) && Sorted(recs, queue)
    requires a in recs && recs[a].addr == a && a !in queue
    ensures var q := Insert(recs, queue, a);
      && Known(recs, q) && Sorted(recs, q) && |q| == |queue| + 1
      && (forall x :: x in q <==> x in queue || x == a)
  {
    hide Rank, Sorted;
    var next := recs[a].next;
    RankSplits(recs, queue, next, a);
    InsertedAt(recs, queue, Rank(recs, queue, next, a), a);
  }

  lemma InsertedAt(recs: map<nat, Rec>, queue: seq<nat>, r: nat, a: nat)
    requires Known(recs, queue) && Sorted(recs, queue) && a in recs && recs[a].addr == a && r <= |queue|
    requires forall i :: 0 <= i < r ==> Before(recs[queue[i]].next, queue[i], recs[a].next, a)
    requires forall i :: r <= i < |queue| && queue[i] != a ==> Before(recs[a].next, a, recs[queue[i]].next, queue[i])
    requires a !in queue
    ensures var q := queue[..r] + [a] + queue[r..];
      && Known(recs, q) && Sorted(recs, q) && (forall x :: x in q <==> x in queue || x == a)
  {
    var q := queue[..r] + [a] + queue[r..];
    MembersAround(queue, r, a);
    forall i, j | 0 <= i < j < |q| ensures Before(recs[q[i]].next, q[i], recs[q[j]].next, q[j]) {
      assert q[i] == (if i < r then queue[i] else if i == r then a else queue[i - 1]);
      assert q[j] == (if j < r then queue[j] else if j == r then a else queue[j - 1]);
    }
  }

  lemma MembersAround(queue: seq<nat>, r: nat, a: nat)
    requires r <= |queue|
    ensures forall x :: x in queue[..r] + [a] + queue[r..] <==> x in queue || x == a
  {
    assert queue == queue[..r] + queue[r..];
  }

  lemma {:induction false} EraseSorted(recs: map<nat, Rec>, queue: seq<nat>, a: nat)
    requires Known(recs, queue) && Sorted(recs, queue)
    ensures var q := Erase(queue, a);
      && Known(recs, q) && Sorted(recs, q)
      && (forall x :: x in q <==> x in queue && x != a)
  {
    EraseSubset(queue, a);
    SortedDistinct(recs, queue);
    EraseMembers(queue, a);
    if queue != [] && queue[0] != a {
      HeadFirst(recs, queue);
      EraseSorted(recs, queue[1..], a);
      hide Sorted, Erase;
      SortedCons(recs, queue[0], Erase(queue[1..], a));
    }
  }

  lemma HeadFirst(recs: map<nat, Rec>, queue: seq<nat>)
    requires Known(recs, queue) && Sorted(recs, queue) && queue != []
    ensures Known(recs, queue[1..]) && Sorted(recs, queue[1..])
    ensures forall x :: x in queue[1..] ==> Before(recs[queue[0]].next, queue[0], recs[x].next, x)
  {
    var tail := queue[1..];
    forall x | x in tail ensures Before(recs[queue[0]].next, queue[0], recs[x].next, x) {
      var k :| 0 <= k < |tail| && tail[k] == x;
      assert queue[k + 1] == x;
    }
  }

  lemma SortedCons(recs: map<nat, Rec>, a: nat, queue: seq<nat>)
    requires Known(recs, queue) && Sorted(recs, queue) && a in recs && recs[a].addr == a
    requires forall x :: x in queue ==> Before(recs[a].next, a, recs[x].next, x)
    ensures Known(recs, [a] + queue) && Sorted(recs, [a] + queue)
  {
    var q := [a] + queue;
    forall i, j | 0 <= i < j < |q| ensures Before(recs[q[i]].next, q[i], recs[q[j]].next, q[j]) {
      assert q[j] == queue[j - 1] && q[j] in queue;
      if i > 0 { assert q[i] == queue[i - 1]; }
    }
  }

  // Changing the key of a timer outside the set does not disturb it.
  lemma OutsideUndisturbed(recs: map<nat, Rec>, queue: seq<nat>, a: nat, t: Rec)
    requires Known(recs, queue) && Sorted(recs, queue) && a !in queue
    ensures Known(recs[a := t], queue) && Sorted(recs[a := t], queue)
  {
    forall i | 0 <= i < |queue| ensures queue[i] in recs && recs[a := t][queue[i]] == recs[queue[i]] {
      assert queue[i] in queue;
    }
  }

  /* ---------- every operation keeps the invariant ---------- */

  lemma AddInv(s: State, a: nat, ms: nat, cb: Option<int>, recurring: bool, now: nat)
    requires Inv(s) && a !in s.recs
    ensures Inv(Add(s, a, ms, cb, recurring, now).0)
  {
    hide Sorted, Rank, Insert, Wrap;
    var t := Rec(a, recurring, cb.Some?, ms, Wrap(now + ms), cb);
    assert a !in s.queue;
    OutsideUndisturbed(s.recs, s.queue, a, t);
    InsertSorted(s.recs[a := t], s.queue, a);
  }

  lemma CancelInv(s: State, a: nat)
    requires Inv(s) && a in s.recs
    ensures Inv(Cancel(s, a).0)
  {
    hide Sorted, Erase;
    if s.recs[a].cb.Some? {
      EraseSorted(s.recs, s.queue, a);
      OutsideUndisturbed(s.recs, Erase(s.queue, a), a, s.recs[a].(cb := None));
    }
  }

  lemma RekeyInsert(s: State, a: nat, ms: nat, next: nat)
    requires Inv(s) && a in s.recs && a in s.queue
    ensures var s1 := Rekey(s, a, ms, next);
      && Known(s1.recs, s1.queue) && Sorted(s1.recs, s1.queue) && a !in s1.queue
      && Inv(s1.(queue := Insert(s1.recs, s1.queue, a)))
      && (forall x :: x in Insert(s1.recs, s1.queue, a) <==> x in s.queue)
  {
    hide Sorted, Rank, Insert, Erase;
    EraseSorted(s.recs, s.queue, a);
    var s1 := Rekey(s, a, ms, next);
    OutsideUndisturbed(s.recs, s1.queue, a, s1.recs[a]);
    InsertSorted(s1.recs, s1.queue, a);
  }

  lemma RefreshInv(s: State, a: nat, now: nat)
    requires Inv(s) && a in s.recs
    ensures Inv(Refresh(s, a, now).0)
  {
    hide Sorted, Rank, Insert, Erase, Wrap, Inv;
    if a in s.queue { RekeyInsert(s, a, s.recs[a].ms, Wrap(now + s.recs[a].ms)); }
  }

  lemma ResetInv(s: State, a: nat, ms: nat, fromNow: bool, now: nat)
    requires Inv(s) && a in s.recs
    ensures Inv(Reset(s, a, ms, fromNow, now).0)
  {
    hide Sorted, Rank, Insert, Erase, Wrap;
    if a in s.queue {
      var start := if fromNow then now else Wrap(s.recs[a].next - s.recs[a].ms);
      RekeyInsert(s, a, ms, Wrap(start + ms));
    }
  }

  // The invariant while some expired timers are still in hand, neither in the set nor dead.
  ghost predicate InvExcept(s: State, hand: seq<nat>)
  {
    && InHand(s, hand) && Sorted(s.recs, s.queue)
    && (forall a :: a in s.recs ==> s.recs[a].addr == a)
    && (forall a :: a in hand ==> a in s.recs && a !in s.queue && (s.recs[a].live ==> s.recs[a].cb.Some?))
    && (forall a :: a in s.recs && s.recs[a].live && a !in hand ==> (a in s.queue <==> s.recs[a].cb.Some?))
    && (forall a :: a in s.recs && !s.recs[a].live ==> s.recs[a].cb.None?)
  }

  lemma ExpireStep(s: State, hand: seq<nat>, now: nat)
    requires InvExcept(s, hand) && hand != []
    ensures InvExcept(Expire(s, hand[0], now), hand[1..])
    ensures forall x :: x in Expire(s, hand[0], now).queue <==> x in s.queue || (x == hand[0] && s.recs[x].recurring)
  {
    hide Sorted, Rank, Insert, Wrap, Known;
    var a := hand[0];
    var t := s.recs[a];
    HandHead(hand);
    if t.recurring {
      var t1 := t.(next := Wrap(now + t.ms));
      OutsideUndisturbed(s.recs, s.queue, a, t1);
      InsertSorted(s.recs[a := t1], s.queue, a);
    } else {
      OutsideUndisturbed(s.recs, s.queue, a, t.(cb := None));
    }
  }

  lemma HandHead(hand: seq<nat>)
    requires hand != [] && Distinct(hand)
    ensures hand[0] in hand && hand[0] !in hand[1..] && Distinct(hand[1..])
    ensures forall x :: x in hand <==> x == hand[0] || x in hand[1..]
  {
    assert hand == [hand[0]] + hand[1..];
  }

  // What becomes of one expired timer.
  function Fate(t: Rec, now: nat): Rec
  {
    if t.recurring then t.(next := Wrap(now + t.ms)) else t.(cb := None)
  }

  // r is s after the timers in hand have met their fate.
  ghost predicate Settled(r: State, s: State, hand: seq<nat>, now: nat)
  {
    && r.recs.Keys == s.recs.Keys && r.tickled == s.tickled && r.previous == s.previous
    && (forall x :: x in s.recs ==> r.recs[x] == if x in hand then Fate(s.recs[x], now) else s.recs[x])
    && (forall x :: x in s.recs ==> (x in r.queue <==> x in s.queue || (x in hand && s.recs[x].recurring)))
  }

  // One pass of the loop over the expired timers.
  lemma ExpireAllStep(s: State, hand: seq<nat>, now: nat)
    requires InHand(s, hand) && hand != []
    ensures hand[0] in s.recs && Expire.requires(s, hand[0], now)
    ensures var r := Expire(s, hand[0], now);
      && InHand(r, hand[1..]) && ExpireAll(s, hand, now) == ExpireAll(r, hand[1..], now)
      && r.recs.Keys == s.recs.Keys
      && forall a :: a in hand[1..] ==> r.recs[a] == s.recs[a]
  {
    hide Insert;
    assert hand[0] in hand;
    assert forall x :: x in hand[1..] ==> x in hand;
    assert hand[0] !in hand[1..];
  }

  lemma ExpireSettles(s: State, hand: seq<nat>, now: nat)
    requires InvExcept(s, hand) && hand != []
    ensures Settled(Expire(s, hand[0], now), s, [hand[0]], now)
  {
    hide Sorted, Rank, Insert, Wrap, InvExcept, Expire, Known;
    ExpireStep(s, hand, now);
    ExpireEffect(s, hand, now);
  }

  lemma ExpireEffect(s: State, hand: seq<nat>, now: nat)
    requires InvExcept(s, hand) && hand != []
    ensures var a := hand[0]; var r := Expire(s, a, now);
      a in s.recs && r.recs == s.recs[a := Fate(s.recs[a], now)] && r.tickled == s.tickled && r.previous == s.previous
  {
    hide Sorted, Rank, Insert;
    assert hand[0] in hand;
  }

  lemma SettledTwice(r: State, s1: State, s: State, hand: seq<nat>, now: nat)
    requires Distinct(hand) && hand != []
    requires Settled(s1, s, [hand[0]], now) && Settled(r, s1, hand[1..], now)
    ensures Settled(r, s, hand, now)
  {
    assert forall x :: x in hand <==> x == hand[0] || x in hand[1..];
    assert hand[0] !in hand[1..];
    forall x | x in s.recs
      ensures r.recs[x] == if x in hand then Fate(s.recs[x], now) else s.recs[x]
      ensures x in r.queue <==> x in s.queue || (x in hand && s.recs[x].recurring)
    {
      assert s1.recs[x] == if x in [hand[0]] then Fate(s.recs[x], now) else s.recs[x];
      assert x in s1.recs;
    }
  }

  // All expired timers: one-shots are dead, recurring ones are back in the set with the new
  // deadline, and nothing else has changed.
  lemma {:induction false} ExpireAllMeaning(s: State, hand: seq<nat>, now: nat)
    requires InvExcept(s, hand)
    ensures InvExcept(ExpireAll(s, hand, now), [])
    ensures Settled(ExpireAll(s, hand, now), s, hand, now)
    decreases |hand|
  {
    hide Sorted, Known, Rank, Insert, Wrap, Expire, Settled;
    if hand == [] {
      NothingSettled(s, now);
    } else {
      ExpireStep(s, hand, now);
      ExpireSettles(s, hand, now);
      var s1 := Expire(s, hand[0], now);
      ExpireAllMeaning(s1, hand[1..], now);
      SettledTwice(ExpireAll(s1, hand[1..], now), s1, s, hand, now);
    }
  }

  lemma NothingSettled(s: State, now: nat)
    ensures Settled(s, s, [], now)
  {
  }

  /* ---------- expiry ---------- */

  // Without a rollover exactly the timers that are due are taken, wherever the probe lies.
  lemma TakenExactly(recs: map<nat, Rec>, queue: seq<nat>, now: nat, probe: nat)
    requires Known(recs, queue) && Sorted(recs, queue)
    ensures var n := Taken(recs, queue, now, probe, false);
      && (forall i :: 0 <= i < n ==> recs[queue[i]].next <= now)
      && (forall i :: n <= i < |queue| ==> recs[queue[i]].next > now)
  {
    RankSplits(recs, queue, now, probe);
    SkipEqualExactly(recs, queue, Rank(recs, queue, now, probe), now);
  }

  lemma {:induction false} SkipEqualExactly(recs: map<nat, Rec>, queue: seq<nat>, i: nat, now: nat)
    requires Known(recs, queue) && Sorted(recs, queue) && i <= |queue|
    requires forall k :: i <= k < |queue| ==> recs[queue[k]].next >= now
    ensures var n := SkipEqual(recs, queue, i, now);
      && (forall k :: i <= k < n ==> recs[queue[k]].next == now)
      && (forall k :: n <= k < |queue| ==> recs[queue[k]].next > now)
    decreases |queue| - i
  {
    if i < |queue| && recs[queue[i]].next == now {
      SkipEqualExactly(recs, queue, i + 1, now);
    }
  }

  // The clock counts as set back exactly when it is behind by more than an hour, or behind at
  // all while the previous time is within the first hour of the epoch.
  lemma RolloverExactly(previous: nat, now: nat)
    requires previous < U64
    ensures Rollover(previous, now) <==> now < previous && (previous < 3600000 || now < previous - 3600000)
  {
    if previous < HOUR {
      assert Wrap(previous - HOUR) == previous - HOUR + U64;
    } else {
      assert Wrap(previous - HOUR) == previous - HOUR;
    }
  }

  // Is this timer taken by a listExpiredCb at `now`?
  predicate Due(s: State, a: nat, now: nat)
    requires a in s.recs
  {
    a in s.queue && (Rollover(s.previous, now) || s.recs[a].next <= now)
  }

  lemma SplitHand(s: State, n: nat)
    requires Inv(s) && n <= |s.queue|
    ensures InvExcept(s.(queue := s.queue[n..]), s.queue[..n])
    ensures forall x :: x in s.queue <==> x in s.queue[..n] || x in s.queue[n..]
    ensures forall x :: x in s.queue[..n] ==> x !in s.queue[n..]
  {
    SortedDistinct(s.recs, s.queue);
    SplitMembers(s.queue, n);
    SortedRest(s.recs, s.queue, n);
    hide Sorted, Distinct;
  }

  lemma SplitMembers(queue: seq<nat>, n: nat)
    requires Distinct(queue) && n <= |queue|
    ensures Distinct(queue[..n])
    ensures forall x :: x in queue <==> x in queue[..n] || x in queue[n..]
    ensures forall x :: x in queue[..n] ==> x !in queue[n..]
  {
    assert queue == queue[..n] + queue[n..];
    forall x | x in queue[..n] ensures x !in queue[n..] {
      var i :| 0 <= i < n && queue[i] == x;
    }
  }

  lemma SortedRest(recs: map<nat, Rec>, queue: seq<nat>, n: nat)
    requires Known(recs, queue) && Sorted(recs, queue) && n <= |queue|
    ensures Known(recs, queue[n..]) && Sorted(recs, queue[n..])
  {
  }

  // What listExpiredCb leaves behind.
  ghost predicate AfterExpiry(r: State, s: State, now: nat)
  {
    && r.recs.Keys == s.recs.Keys && r.tickled == s.tickled
    && r.previous == (if s.queue == [] then s.previous else now)
    && (forall x :: x in s.recs ==> r.recs[x] == if Due(s, x, now) then Fate(s.recs[x], now) else s.recs[x])
    && (forall x :: x in s.recs ==> (x in r.queue <==> x in s.queue && (Due(s, x, now) ==> s.recs[x].recurring)))
  }

  // The due timers are the first n of the set.
  ghost predicate DuePrefix(s: State, now: nat, n: nat)
    requires Known(s.recs, s.queue)
  {
    n <= |s.queue| && forall i :: 0 <= i < |s.queue| ==> (i < n <==> Due(s, s.queue[i], now))
  }

  // listExpiredCb hands out exactly the callbacks of the timers that are due, in deadline
  // order; one-shots are dead afterwards, recurring ones wait from now on, the rest is as before.
  lemma ListExpiredExactly(s: State, now: nat, probe: nat) returns (n: nat)
    requires Inv(s)
    ensures DuePrefix(s, now, n) && ListExpired(s, now, probe).1 == Callbacks(s.recs, s.queue[..n])
    ensures Inv(ListExpired(s, now, probe).0) && AfterExpiry(ListExpired(s, now, probe).0, s, now)
  {
    hide Sorted, Rank, Insert, Wrap, Expire, Rollover, Taken, ExpireAll;
    n := if s.queue == [] then 0 else Taken(s.recs, s.queue, now, probe, Rollover(s.previous, now));
    if s.queue == [] {
      assert Callbacks(s.recs, s.queue[..0]) == [];
    } else {
      DueIsPrefix(s, now, probe);
      if !Rollover(s.previous, now) && s.recs[s.queue[0]].next > now {
        FirstNotDue(s, now, probe);
        assert Callbacks(s.recs, s.queue[..0]) == [];
      } else {
        ExpiryStep(s, now, n);
      }
    }
  }

  lemma DueIsPrefix(s: State, now: nat, probe: nat)
    requires Inv(s)
    ensures DuePrefix(s, now, Taken(s.recs, s.queue, now, probe, Rollover(s.previous, now)))
  {
    TakenExactly(s.recs, s.queue, now, probe);
  }

  // With the first timer not due, none is.
  lemma FirstNotDue(s: State, now: nat, probe: nat)
    requires Inv(s) && s.queue != [] && !Rollover(s.previous, now) && s.recs[s.queue[0]].next > now
    ensures Taken(s.recs, s.queue, now, probe, Rollover(s.previous, now)) == 0
    ensures AfterExpiry(s.(previous := now), s, now)
  {
    TakenExactly(s.recs, s.queue, now, probe);
    forall x | x in s.queue ensures !Due(s, x, now) {
      var i :| 0 <= i < |s.queue| && s.queue[i] == x;
    }
  }

  lemma ExpiryStep(s: State, now: nat, n: nat)
    requires Inv(s) && s.queue != [] && DuePrefix(s, now, n)
    ensures InvExcept(s.(previous := now, queue := s.queue[n..]), s.queue[..n])
    ensures var r := ExpireAll(s.(previous := now, queue := s.queue[n..]), s.queue[..n], now);
      Inv(r) && AfterExpiry(r, s, now)
  {
    hide Sorted, Rank, Insert, Wrap, Expire, Rollover, ExpireAll, Settled, AfterExpiry;
    var s1 := s.(previous := now);
    SplitHand(s1, n);
    ExpireAllMeaning(s1.(queue := s.queue[n..]), s.queue[..n], now);
    HandIsDue(s, now, n);
    SettledIsExpiry(ExpireAll(s1.(queue := s.queue[n..]), s.queue[..n], now), s, now, n);
  }

  lemma HandIsDue(s: State, now: nat, n: nat)
    requires Inv(s) && DuePrefix(s, now, n)
    ensures forall x :: x in s.recs ==> (x in s.queue[..n] <==> Due(s, x, now))
  {
    hide Sorted, Rollover;
    forall x | x in s.recs ensures x in s.queue[..n] <==> Due(s, x, now) {
      if x in s.queue {
        var i :| 0 <= i < |s.queue| && s.queue[i] == x;
        if i < n { assert s.queue[..n][i] == x; }
      }
    }
  }

  lemma SettledIsExpiry(r: State, s: State, now: nat, n: nat)
    requires n <= |s.queue| && s.queue != []
    requires Settled(r, s.(previous := now, queue := s.queue[n..]), s.queue[..n], now)
    requires forall x :: x in s.recs ==> (x in s.queue[..n] <==> Due(s, x, now))
    requires forall x :: x in s.queue <==> x in s.queue[..n] || x in s.queue[n..]
    requires forall x :: x in s.queue[..n] ==> x !in s.queue[n..]
    ensures AfterExpiry(r, s, now)
  {
    hide Due;
  }

  /* ---------- whole runs: no wake-up is lost ---------- */

  // The addresses stand for the timer objects; `now` is what the clock shows at the call.
  datatype Op =
    | AddOp(a: nat, ms: nat, cb: Option<int>, recurring: bool)
    | CancelOp(a: nat)
    | RefreshOp(a: nat)
    | ResetOp(a: nat, ms: nat, fromNow: bool)
    | ExpireOp(probe: nat)
    | NextOp

  // What the idle loop does after getNextTimer: it asked at one time, to be back at another.
  datatype Sleep = Sleep(asked: nat, until: nat)

  // seen: the sleep the last getNextTimer led to, None if it found no timer;
  // woken: onTimerInsertedAtFront has been called since.
  datatype Watch = Watch(s: State, seen: Option<Sleep>, woken: bool, clock: nat)

  predicate Enabled(w: Watch, op: Op, now: nat)
  {
    && w.clock <= now < U64
    && match op
       case AddOp(a, _, _, _) => a !in w.s.recs
       case CancelOp(a) => a in w.s.recs
       case RefreshOp(a) => a in w.s.recs
       case ResetOp(a, _, _) => a in w.s.recs
       case ExpireOp(_) => true
       case NextOp => true
  }

  // refresh and listExpiredCb re-insert without the check at the front of the set. The deadlines
  // they compute do not exceed 64 bits; those of the other calls may.
  predicate NoWrap(w: Watch, op: Op, now: nat)
    requires Enabled(w, op, now)
  {
    match op
    case RefreshOp(a) => now + w.s.recs[a].ms < U64
    case ExpireOp(_) => forall a :: a in w.s.queue && a in w.s.recs ==> now + w.s.recs[a].ms < U64
    case _ => true
  }

  lemma ListExpiredInv(s: State, now: nat, probe: nat)
    requires Inv(s)
    ensures Inv(ListExpired(s, now, probe).0)
  {
    var n := ListExpiredExactly(s, now, probe);
  }

  // One call; the set and the callbacks stay in agreement whatever it is.
  function Step(w: Watch, op: Op, now: nat): (r: Watch)
    requires Inv(w.s) && Enabled(w, op, now)
    ensures Inv(r.s)
  {
    match op
    case AddOp(a, ms, cb, recurring) =>
      AddInv(w.s, a, ms, cb, recurring, now);
      var (s, woke) := Add(w.s, a, ms, cb, recurring, now);
      Watch(s, w.seen, w.woken || woke, now)
    case CancelOp(a) =>
      CancelInv(w.s, a);
      Watch(Cancel(w.s, a).0, w.seen, w.woken, now)
    case RefreshOp(a) =>
      RefreshInv(w.s, a, now);
      Watch(Refresh(w.s, a, now).0, w.seen, w.woken, now)
    case ResetOp(a, ms, fromNow) =>
      ResetInv(w.s, a, ms, fromNow, now);
      var (s, _, woke) := Reset(w.s, a, ms, fromNow, now);
      Watch(s, w.seen, w.woken || woke, now)
    case ExpireOp(probe) =>
      ListExpiredInv(w.s, now, probe);
      Watch(ListExpired(w.s, now, probe).0, w.seen, w.woken, now)
    case NextOp =>
      var (s, wait) := NextTimer(w.s, now);
      Watch(s, if w.s.queue == [] then None else Some(Sleep(now, now + wait)), false, now)
  }

  // The sleeper is back by that deadline, or did not go to sleep at all.
  predicate BackBy(seen: Option<Sleep>, next: nat)
  {
    seen.Some? && (seen.value.until <= next || seen.value.until <= seen.value.asked)
  }

  // The sleeper is back by every deadline in the set.
  ghost predicate Floor(s: State, seen: Option<Sleep>)
  {
    forall a :: a in s.queue && a in s.recs ==> BackBy(seen, s.recs[a].next)
  }

  // No wake-up is lost: either the sleeper has been woken, or nothing is due before it wakes.
  ghost predicate NoLostWakeup(w: Watch) { w.woken || Floor(w.s, w.seen) }

  // Each deadline lies one period, under wrap-around, after a time the clock has shown.
  ghost predicate Anchored(s: State, clock: nat)
  {
    forall a :: a in s.queue && a in s.recs ==> s.recs[a].next < U64 && Wrap(s.recs[a].next - s.recs[a].ms) <= clock
  }

  ghost predicate Sane(w: Watch)
  {
    && Inv(w.s) && w.s.tickled == w.woken
    && Anchored(w.s, w.clock) && w.s.previous <= w.clock < U64
  }

  ghost predicate WatchInv(w: Watch) { Sane(w) && NoLostWakeup(w) }

  lemma AnchorOfStart(start: nat, ms: nat)
    requires start < U64
    ensures Wrap(Wrap(start + ms) - ms) == start
  {
    var q := (start + ms) / U64;
    assert start + ms == U64 * q + Wrap(start + ms);
    ModOfShift(start, -q);
    assert Wrap(start + ms) - ms == U64 * (-q) + start;
  }

  lemma ModOfShift(r: nat, q: int)
    requires r < U64
    ensures Wrap(U64 * q + r) == r
  {
    var x := U64 * q + r;
    assert x == U64 * (x / U64) + Wrap(x);
  }

  lemma AnchorBound(next: nat, ms: nat)
    requires next < U64
    ensures Wrap(next - ms) < U64 && next <= Wrap(next - ms) + ms
  {
    var x := next - ms;
    assert x == U64 * (x / U64) + Wrap(x);
  }

  // Inserting a timer: at the front the sleeper is woken, elsewhere the deadline is no earlier.
  lemma PutKeeps(s: State, a: nat, seen: Option<Sleep>)
    requires Known(s.recs, s.queue) && Sorted(s.recs, s.queue)
    requires a in s.recs && s.recs[a].addr == a && a !in s.queue
    requires s.tickled || Floor(s, seen)
    ensures var (r, woke) := Put(s, a); r.tickled == (s.tickled || woke) && (r.tickled || Floor(r, seen))
  {
    hide Insert, Rank;
    InsertSorted(s.recs, s.queue, a);
    RankSplits(s.recs, s.queue, s.recs[a].next, a);
    if Rank(s.recs, s.queue, s.recs[a].next, a) > 0 { assert s.queue[0] in s.queue; }
  }

  lemma AddKeeps(w: Watch, op: Op, now: nat)
    requires WatchInv(w) && op.AddOp? && Enabled(w, op, now)
    ensures WatchInv(Step(w, op, now))
  {
    hide Sorted, Insert, Rank, Put, Wrap;
    AddInv(w.s, op.a, op.ms, op.cb, op.recurring, now);
    AnchorOfStart(now, op.ms);
    WrapBound(now + op.ms);
    var t := Rec(op.a, op.recurring, op.cb.Some?, op.ms, Wrap(now + op.ms), op.cb);
    var s1 := w.s.(recs := w.s.recs[op.a := t]);
    assert op.a !in w.s.queue;
    OutsideUndisturbed(w.s.recs, w.s.queue, op.a, t);
    PutKeeps(s1, op.a, w.seen);
    PutRecs(s1, op.a);
    PutMembers(s1, op.a);
  }

  lemma WrapBound(x: int)
    ensures Wrap(x) < U64
  {
  }

  lemma PutRecs(s: State, a: nat)
    requires Known(s.recs, s.queue) && a in s.recs
    ensures Put(s, a).0.recs == s.recs && Put(s, a).0.previous == s.previous
  {
  }

  lemma PutMembers(s: State, a: nat)
    requires Known(s.recs, s.queue) && Sorted(s.recs, s.queue)
    requires a in s.recs && s.recs[a].addr == a && a !in s.queue
    ensures forall x :: x in Put(s, a).0.queue <==> x in s.queue || x == a
  {
    hide Insert, Rank;
    InsertSorted(s.recs, s.queue, a);
  }

  lemma CancelKeeps(w: Watch, op: Op, now: nat)
    requires WatchInv(w) && op.CancelOp? && Enabled(w, op, now)
    ensures WatchInv(Step(w, op, now))
  {
    hide Sorted, Erase, Wrap;
    CancelInv(w.s, op.a);
    EraseSubset(w.s.queue, op.a);
  }

  // A timer that had the deadline `was`, counted from now on. Only a wrap-around makes it earlier.
  lemma FromNow(was: nat, ms: nat, clock: nat, now: nat)
    requires was < U64 && Wrap(was - ms) <= clock <= now < U64
    ensures now + ms < U64 ==> Wrap(now + ms) == now + ms >= was
    ensures Wrap(now + ms) < U64 && Wrap(Wrap(now + ms) - ms) == now
  {
    AnchorBound(was, ms);
    AnchorOfStart(now, ms);
  }

  // Whether a timer counted from now on is still no earlier than what the sleeper waits for.
  predicate NotBefore(seen: Option<Sleep>, ms: nat, now: nat)
  {
    now + ms < U64 || BackBy(seen, Wrap(now + ms))
  }

  // What refresh does to the set, when it does anything.
  lemma Refreshed(w: Watch, a: nat, now: nat)
    requires Sane(w) && Enabled(w, RefreshOp(a), now) && w.s.recs[a].cb.Some? && a in w.s.queue
    ensures var t, r := w.s.recs[a], Step(w, RefreshOp(a), now).s;
      && Inv(r) && r.tickled == w.s.tickled && r.previous == w.s.previous
      && (forall x :: x in r.queue <==> x in w.s.queue)
      && r.recs == w.s.recs[a := t.(next := Wrap(now + t.ms))]
  {
    hide Sorted, Erase, Insert, Rank, Wrap;
    RefreshInv(w.s, a, now);
    RekeyInsert(w.s, a, w.s.recs[a].ms, Wrap(now + w.s.recs[a].ms));
  }

  lemma RefreshExactly(w: Watch, a: nat, now: nat)
    requires WatchInv(w) && Enabled(w, RefreshOp(a), now)
    ensures Sane(Step(w, RefreshOp(a), now))
    ensures var t := w.s.recs[a];
      NoLostWakeup(Step(w, RefreshOp(a), now)) <==>
        w.woken || t.cb.None? || a !in w.s.queue || NotBefore(w.seen, t.ms, now)
  {
    assert Known(w.s.recs, w.s.queue);
    hide Wrap, Inv, Known, Refresh, Floor, Anchored;
    var t := w.s.recs[a];
    AnchoredLater(w.s, w.clock, now);
    if t.cb.None? || a !in w.s.queue {
      RefreshNothing(w.s, a, now);
    } else {
      FromNowIn(w, a, now);
      Refreshed(w, a, now);
      OneMoved(w, a, Step(w, RefreshOp(a), now).s, now);
    }
  }

  lemma RefreshNothing(s: State, a: nat, now: nat)
    requires Known(s.recs, s.queue) && a in s.recs && (s.recs[a].cb.None? || a !in s.queue)
    ensures Refresh(s, a, now).0 == s
  {
  }

  lemma AnchoredLater(s: State, clock: nat, now: nat)
    requires Anchored(s, clock) && clock <= now
    ensures Anchored(s, now)
  {
    hide Wrap;
  }

  lemma FromNowIn(w: Watch, a: nat, now: nat)
    requires Sane(w) && a in w.s.queue && a in w.s.recs && w.clock <= now < U64
    ensures var t := w.s.recs[a];
      && (now + t.ms < U64 ==> Wrap(now + t.ms) == now + t.ms >= t.next)
      && Wrap(now + t.ms) < U64 && Wrap(Wrap(now + t.ms) - t.ms) == now
  {
    hide Wrap;
    FromNow(w.s.recs[a].next, w.s.recs[a].ms, w.clock, now);
  }

  // One timer's deadline moves to one period from now.
  lemma OneMoved(w: Watch, a: nat, r: State, now: nat)
    requires a in w.s.queue && a in w.s.recs && now < U64 && Anchored(w.s, now)
    requires var t := w.s.recs[a];
      && r.recs == w.s.recs[a := t.(next := Wrap(now + t.ms))]
      && (now + t.ms < U64 ==> Wrap(now + t.ms) >= t.next)
      && Wrap(now + t.ms) < U64 && Wrap(Wrap(now + t.ms) - t.ms) == now
    requires forall x :: x in r.queue <==> x in w.s.queue
    ensures Anchored(r, now)
    ensures Floor(w.s, w.seen) ==> (Floor(r, w.seen) <==> NotBefore(w.seen, w.s.recs[a].ms, now))
  {
    hide Wrap;
    assert a in r.queue;
  }

  lemma ResetKeeps(w: Watch, op: Op, now: nat)
    requires WatchInv(w) && op.ResetOp? && Enabled(w, op, now)
    ensures WatchInv(Step(w, op, now))
  {
    hide Sorted, Erase, Insert, Rank, Put, Wrap;
    var t := w.s.recs[op.a];
    if (op.ms != t.ms || op.fromNow) && t.cb.Some? && op.a in w.s.queue {
      var start := if op.fromNow then now else Wrap(t.next - t.ms);
      RekeyKeeps(w, op.a, op.ms, start, now);
    }
  }

  // Moving a timer to one period after `start`, with the check at the front of the set.
  lemma RekeyKeeps(w: Watch, a: nat, ms: nat, start: nat, now: nat)
    requires WatchInv(w) && a in w.s.recs && a in w.s.queue
    requires w.clock <= now < U64 && start <= now
    ensures var s1 := Rekey(w.s, a, ms, Wrap(start + ms));
      && Known(s1.recs, s1.queue)
      && var (s, woke) := Put(s1, a); WatchInv(Watch(s, w.seen, w.woken || woke, now))
  {
    hide Sorted, Erase, Insert, Rank, Put, Wrap;
    AnchorOfStart(start, ms);
    WrapBound(start + ms);
    var s1 := Rekey(w.s, a, ms, Wrap(start + ms));
    RekeyInsert(w.s, a, ms, Wrap(start + ms));
    EraseSubset(w.s.queue, a);
    PutKeeps(s1, a, w.seen);
    PutRecs(s1, a);
    PutMembers(s1, a);
    PutInv(s1, a);
  }

  lemma PutInv(s: State, a: nat)
    requires Known(s.recs, s.queue) && a in s.recs && Inv(s.(queue := Insert(s.recs, s.queue, a)))
    ensures Inv(Put(s, a).0)
  {
  }

  // The timers listExpiredCb puts back.
  predicate PutBack(w: Watch, a: nat, now: nat)
  {
    a in w.s.queue && a in w.s.recs && w.s.recs[a].recurring && w.s.recs[a].next <= now
  }

  // What listExpiredCb does to the set while the clock does not go back.
  lemma Expired(w: Watch, probe: nat, now: nat)
    requires Sane(w) && Enabled(w, ExpireOp(probe), now)
    ensures var r := Step(w, ExpireOp(probe), now).s;
      && Inv(r) && r.tickled == w.s.tickled && r.previous <= now
      && (forall x :: x in r.queue ==> x in w.s.queue)
      && (forall x :: x in w.s.queue && x in w.s.recs ==> x in r.recs && (x in r.queue <==> w.s.recs[x].next > now || w.s.recs[x].recurring))
      && (forall x :: PutBack(w, x, now) ==> r.recs[x] == w.s.recs[x].(next := Wrap(now + w.s.recs[x].ms)))
      && (forall x :: x in r.queue && x in w.s.recs && !PutBack(w, x, now) ==> r.recs[x] == w.s.recs[x])
  {
    hide Sorted, ListExpired, Wrap;
    var n := ListExpiredExactly(w.s, now, probe);
    RolloverExactly(w.s.previous, now);
    hide Rollover;
  }

  lemma ExpireExactly(w: Watch, probe: nat, now: nat)
    requires WatchInv(w) && Enabled(w, ExpireOp(probe), now)
    ensures Sane(Step(w, ExpireOp(probe), now))
    ensures NoLostWakeup(Step(w, ExpireOp(probe), now)) <==>
      w.woken || forall a :: PutBack(w, a, now) ==> NotBefore(w.seen, w.s.recs[a].ms, now)
  {
    hide ListExpired, Wrap;
    Expired(w, probe, now);
    assert Known(w.s.recs, w.s.queue);
    hide Inv, Known;
    forall a | a in w.s.queue && a in w.s.recs
      ensures now + w.s.recs[a].ms < U64 ==> Wrap(now + w.s.recs[a].ms) >= w.s.recs[a].next
      ensures Wrap(now + w.s.recs[a].ms) < U64 && Wrap(Wrap(now + w.s.recs[a].ms) - w.s.recs[a].ms) == now
    {
      FromNow(w.s.recs[a].next, w.s.recs[a].ms, w.clock, now);
    }
  }

  lemma NextKeeps(w: Watch, op: Op, now: nat)
    requires WatchInv(w) && op.NextOp? && Enabled(w, op, now)
    ensures WatchInv(Step(w, op, now))
  {
    hide Wrap;
    var s := w.s;
    forall a | a in s.queue ensures s.queue != [] && s.recs[a].next >= s.recs[s.queue[0]].next {
      var i :| 0 <= i < |s.queue| && s.queue[i] == a;
    }
  }

  // When a call loses no wake-up: add, cancel, reset and getNextTimer always; refresh and expiry
  // unless a deadline wraps around to one before the sleeper's and nobody has been woken.
  ghost predicate Wakes(w: Watch, op: Op, now: nat)
    requires Enabled(w, op, now)
  {
    match op
    case RefreshOp(a) =>
      w.woken || w.s.recs[a].cb.None? || a !in w.s.queue || NotBefore(w.seen, w.s.recs[a].ms, now)
    case ExpireOp(_) =>
      w.woken || forall a :: PutBack(w, a, now) ==> NotBefore(w.seen, w.s.recs[a].ms, now)
    case _ => true
  }

  lemma StepExactly(w: Watch, op: Op, now: nat)
    requires WatchInv(w) && Enabled(w, op, now)
    ensures Sane(Step(w, op, now))
    ensures NoLostWakeup(Step(w, op, now)) <==> Wakes(w, op, now)
  {
    hide Sane, NoLostWakeup, Step;
    match op
    case AddOp(_, _, _, _) => AddKeeps(w, op, now);
    case CancelOp(_) => CancelKeeps(w, op, now);
    case RefreshOp(a) => RefreshExactly(w, a, now);
    case ResetOp(_, _, _) => ResetKeeps(w, op, now);
    case ExpireOp(probe) => ExpireExactly(w, probe, now);
    case NextOp => NextKeeps(w, op, now);
  }

  datatype Call = Call(op: Op, now: nat)

  // Each call is on an existing timer, at a time not before the last one, and refresh and expiry
  // come without wrap-around.
  ghost predicate Possible(w: Watch, calls: seq<Call>)
    requires Inv(w.s)
    decreases |calls|
  {
    calls == [] ||
    (&& Enabled(w, calls[0].op, calls[0].now) && NoWrap(w, calls[0].op, calls[0].now)
     && Possible(Step(w, calls[0].op, calls[0].now), calls[1..]))
  }

  function Run(w: Watch, calls: seq<Call>): (r: Watch)
    requires Inv(w.s) && Possible(w, calls)
    ensures Inv(r.s)
    decreases |calls|
  {
    if calls == [] then w else Run(Step(w, calls[0].op, calls[0].now), calls[1..])
  }

  // Over any run with a clock that never goes back, in which refresh and expiry do not wrap
  // around, no wake-up is lost.
  lemma {:induction false} RunNeverLosesWakeup(w: Watch, calls: seq<Call>)
    requires WatchInv(w) && Possible(w, calls)
    ensures WatchInv(Run(w, calls)) && NoLostWakeup(Run(w, calls))
    decreases |calls|
  {
    assert Inv(w.s);
    hide Step, Sane, NoLostWakeup;
    if calls != [] {
      StepExactly(w, calls[0].op, calls[0].now);
      RunNeverLosesWakeup(Step(w, calls[0].op, calls[0].now), calls[1..]);
    }
  }

  // A fresh manager.
  function Initial(now: nat): Watch { Watch(State(map[], [], false, now), None, false, now) }

  lemma InitialInv(now: nat)
    requires now < U64
    ensures WatchInv(Initial(now))
  {
  }

  /* ---------- whole runs: no deadline lies before its period ---------- */

  ghost predicate PastPeriod(s: State) { forall a :: a in s.queue && a in s.recs ==> s.recs[a].ms <= s.recs[a].next }

  // No deadline computed by this call exceeds 64 bits.
  predicate NoOverflow(w: Watch, op: Op, now: nat)
    requires Enabled(w, op, now)
  {
    match op
    case AddOp(_, ms, _, _) => now + ms < U64
    case ResetOp(_, ms, _) => now + ms < U64
    case _ => NoWrap(w, op, now)
  }

  lemma AddPastPeriod(w: Watch, op: Op, now: nat)
    requires WatchInv(w) && PastPeriod(w.s) && op.AddOp? && Enabled(w, op, now) && now + op.ms < U64
    ensures PastPeriod(Step(w, op, now).s)
  {
    hide Sorted, Insert, Rank, Put;
    AddInv(w.s, op.a, op.ms, op.cb, op.recurring, now);
    var t := Rec(op.a, op.recurring, op.cb.Some?, op.ms, Wrap(now + op.ms), op.cb);
    var s1 := w.s.(recs := w.s.recs[op.a := t]);
    assert op.a !in w.s.queue;
    OutsideUndisturbed(w.s.recs, w.s.queue, op.a, t);
    PutRecs(s1, op.a);
    PutMembers(s1, op.a);
  }

  lemma ResetPastPeriod(w: Watch, op: Op, now: nat)
    requires WatchInv(w) && PastPeriod(w.s) && op.ResetOp? && Enabled(w, op, now) && now + op.ms < U64
    ensures PastPeriod(Step(w, op, now).s)
  {
    hide Sorted, Erase, Insert, Rank, Put, Wrap;
    ResetInv(w.s, op.a, op.ms, op.fromNow, now);
    var t := w.s.recs[op.a];
    if (op.ms != t.ms || op.fromNow) && t.cb.Some? && op.a in w.s.queue {
      var start := if op.fromNow then now else Wrap(t.next - t.ms);
      NoWrapHere(start + op.ms);
      var s1 := Rekey(w.s, op.a, op.ms, Wrap(start + op.ms));
      RekeyInsert(w.s, op.a, op.ms, Wrap(start + op.ms));
      EraseSubset(w.s.queue, op.a);
      PutRecs(s1, op.a);
      PutMembers(s1, op.a);
    }
  }

  lemma NoWrapHere(x: nat)
    ensures x < U64 ==> Wrap(x) == x
  {
  }

  lemma RefreshPastPeriod(w: Watch, a: nat, now: nat)
    requires WatchInv(w) && PastPeriod(w.s) && Enabled(w, RefreshOp(a), now) && now + w.s.recs[a].ms < U64
    ensures PastPeriod(Step(w, RefreshOp(a), now).s)
  {
    hide Sorted, Erase, Insert, Rank, Wrap;
    var ms := w.s.recs[a].ms;
    RefreshInv(w.s, a, now);
    NoWrapHere(now + ms);
    if a in w.s.queue { RekeyInsert(w.s, a, ms, Wrap(now + ms)); }
  }

  // m_next >= m_ms, so reset's subtraction gives the time the timer was started.
  lemma StepPastPeriod(w: Watch, op: Op, now: nat)
    requires WatchInv(w) && PastPeriod(w.s) && Enabled(w, op, now) && NoOverflow(w, op, now)
    ensures PastPeriod(Step(w, op, now).s)
  {
    hide Sorted, Erase, ListExpired, Refresh, Add, Reset;
    match op
    case AddOp(_, _, _, _) => AddPastPeriod(w, op, now);
    case CancelOp(a) => EraseSubset(w.s.queue, a);
    case RefreshOp(a) => RefreshPastPeriod(w, a, now);
    case ResetOp(_, _, _) => ResetPastPeriod(w, op, now);
    case ExpireOp(probe) =>
      var n := ListExpiredExactly(w.s, now, probe);
    case NextOp =>
  }

  ghost predicate AllNoOverflow(w: Watch, calls: seq<Call>)
    requires Inv(w.s) && Possible(w, calls)
    decreases |calls|
  {
    calls == [] || (NoOverflow(w, calls[0].op, calls[0].now) && AllNoOverflow(Step(w, calls[0].op, calls[0].now), calls[1..]))
  }

  lemma {:induction false} RunPastPeriod(w: Watch, calls: seq<Call>)
    requires WatchInv(w) && PastPeriod(w.s) && Possible(w, calls) && AllNoOverflow(w, calls)
    ensures PastPeriod(Run(w, calls).s)
    decreases |calls|
  {
    assert Inv(w.s);
    hide Step, Sane, NoLostWakeup, PastPeriod, NoOverflow;
    if calls != [] {
      StepExactly(w, calls[0].op, calls[0].now);
      StepPastPeriod(w, calls[0].op, calls[0].now);
      RunPastPeriod(Step(w, calls[0].op, calls[0].now), calls[1..]);
    }
  }

  // Both ways to lose one: a timer whose period wraps its new deadline around to one before
  // the deadline the idle loop sleeps for, refreshed or put back by listExpiredCb.
  lemma WrappedDeadlineLosesWakeup(op: Op)
    requires op == RefreshOp(1) || op.ExpireOp?
    ensures exists w: Watch, now ::
      WatchInv(w) && Enabled(w, op, now) && !NoWrap(w, op, now) && !NoLostWakeup(Step(w, op, now))
  {
    var ms := U64 - 10;
    var t := Rec(1, true, true, ms, U64 - 5, Some(0));
    var w := Watch(State(map[1 := t], [1], false, 5), Some(Sleep(5, U64 - 5)), false, 5);
    var now := U64 - 5;
    assert WatchInv(w);
    assert Wrap(now + ms) == U64 - 15;
    assert PutBack(w, 1, now);
    assert !Wakes(w, op, now);
    StepExactly(w, op, now);
  }
}
