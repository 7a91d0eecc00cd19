/** What each timer operation comes to, in terms of clocks, deadlines and callbacks alone. */
module TimerLaws {
  import opened Options
  import opened Timers

  ghost predicate Least(s: State, next: nat)
  {
    && (exists a :: a in s.queue && a in s.recs && s.recs[a].next == next)
    && (forall a :: a in s.queue && a in s.recs ==> s.recs[a].next >= next)
  }

  // getNextTimer: ~0 without a timer; else now + wait is the least deadline, or now itself if
  // that has passed. Only the flag changes.
  lemma NextTimerExactly(s: State, now: nat)
    requires Inv(s)
    ensures var (r, wait) := NextTimer(s, now);
      && r == State(s.recs, s.queue, false, s.previous)
      && (s.queue == [] ==> wait == 0xFFFF_FFFF_FFFF_FFFF)
      && (s.queue != [] ==> exists next: nat :: Least(s, next) && now + wait == if next > now then next else now)
  {
    if s.queue != [] {
      var first := s.queue[0];
      assert first in s.queue;
      forall a | a in s.queue ensures s.recs[a].next >= s.recs[first].next {
        var i :| 0 <= i < |s.queue| && s.queue[i] == a;
      }
      assert Least(s, s.recs[first].next);
    }
  }

  // The set is in the order of the deadlines, then of the addresses.
  lemma OrderExactly(s: State)
    requires Inv(s)
    ensures forall i, j :: 0 <= i < j < |s.queue| ==>
      && s.recs[s.queue[i]].next <= s.recs[s.queue[j]].next
      && (s.recs[s.queue[i]].next == s.recs[s.queue[j]].next ==> s.queue[i] < s.queue[j])
  {
  }

  // Every other timer is as it was, in the set or out of it.
  ghost predicate OthersKept(r: State, s: State, a: nat)
  {
    && r.previous == s.previous && r.recs.Keys == s.recs.Keys + {a}
    && (forall x :: x in s.recs && x != a ==> r.recs[x] == s.recs[x])
    && (forall x :: x != a ==> (x in r.queue <==> x in s.queue))
  }

  // Whether the timer comes first of those in the set.
  ghost predicate First(r: State, a: nat)
  {
    r.queue != [] && r.queue[0] == a
  }

  lemma PutFirst(s: State, a: nat)
    requires Known(s.recs, s.queue) && Sorted(s.recs, s.queue)
    requires a in s.recs && s.recs[a].addr == a && a !in s.queue
    ensures var (r, woke) := Put(s, a);
      && (woke <==> First(r, a) && !s.tickled) && r.tickled == (s.tickled || First(r, a))
      && r.recs == s.recs && r.previous == s.previous
  {
    hide Rank;
    var n := Rank(s.recs, s.queue, s.recs[a].next, a);
    if n > 0 { assert s.queue[..n][0] == s.queue[0] && s.queue[0] in s.queue; }
  }

  // addTimer: the timer has what it was given and a deadline ms from now, is in the set, and
  // wakes the sleeper exactly when it comes first and nobody has been woken.
  lemma AddExactly(s: State, a: nat, ms: nat, cb: Option<int>, recurring: bool, now: nat)
    requires Inv(s) && a !in s.recs
    ensures var (r, woke) := Add(s, a, ms, cb, recurring, now);
      && OthersKept(r, s, a) && a in r.queue && a in r.recs
      && r.recs[a].ms == ms && r.recs[a].cb == cb && r.recs[a].recurring == recurring
      && (now + ms < 0x1_0000_0000_0000_0000 ==> r.recs[a].next == now + ms)
      && (woke <==> First(r, a) && !s.tickled) && r.tickled == (s.tickled || First(r, a))
  {
    hide Sorted, Rank, Insert, Put;
    AddInv(s, a, ms, cb, recurring, now);
    var t := Rec(a, recurring, cb.Some?, ms, Wrap(now + ms), cb);
    var s1 := s.(recs := s.recs[a := t]);
    assert a !in s.queue;
    OutsideUndisturbed(s.recs, s.queue, a, t);
    PutFirst(s1, a);
    PutMembers(s1, a);
    assert s1.recs.Keys == s.recs.Keys + {a};
  }

  // Whether a call of listExpiredCb hands out the timer's callback: its place in the list is
  // that of the timer in the set.
  ghost predicate HandedOut(s: State, a: nat, cb: int, now: nat, probe: nat)
    requires Inv(s)
  {
    exists i :: 0 <= i < |s.queue| && s.queue[i] == a
      && i < |ListExpired(s, now, probe).1| && ListExpired(s, now, probe).1[i] == Some(cb)
  }

  // A timer in the set with a callback is handed out at exactly the times at or past its deadline,
  // unless the clock has gone back by an hour.
  lemma HandedOutExactly(s: State, a: nat, cb: int, now: nat, probe: nat)
    requires Inv(s) && a in s.queue && s.recs[a].cb == Some(cb) && now >= s.previous && s.previous < 0x1_0000_0000_0000_0000
    ensures HandedOut(s, a, cb, now, probe) <==> now >= s.recs[a].next
  {
    hide Sorted, ListExpired;
    var n := ListExpiredExactly(s, now, probe);
    RolloverExactly(s.previous, now);
    hide Rollover;
    var i :| 0 <= i < |s.queue| && s.queue[i] == a;
    assert i < n <==> Due(s, a, now);
    SortedDistinct(s.recs, s.queue);
    if i < n { assert s.queue[..n][i] == a; }
  }

  // Whether a timer expires: it is in the set, and its deadline has come or the clock has gone
  // back by an hour, or at all within the first hour.
  ghost predicate Expires(s: State, a: nat, now: nat)
  {
    a in s.queue && a in s.recs &&
    (s.recs[a].next <= now || (now < s.previous && (s.previous < 3600000 || now < s.previous - 3600000)))
  }

  // listExpiredCb hands out, from the front of the set, the callbacks of the timers that expire.
  lemma CallbacksExactly(s: State, now: nat, probe: nat)
    requires Inv(s) && s.previous < 0x1_0000_0000_0000_0000
    ensures var cbs := ListExpired(s, now, probe).1;
      && |cbs| <= |s.queue|
      && (forall i :: 0 <= i < |s.queue| ==> (i < |cbs| <==> Expires(s, s.queue[i], now)))
      && (forall i :: 0 <= i < |cbs| ==> cbs[i] == s.recs[s.queue[i]].cb)
  {
    hide Sorted, ListExpired;
    var n := ListExpiredExactly(s, now, probe);
    RolloverExactly(s.previous, now);
    hide Rollover;
  }

  // Afterwards a recurring one counts from now, a one-shot is out of the set without its callback,
  // and a timer that did not expire is as it was.
  lemma ExpiredExactly(s: State, a: nat, now: nat, probe: nat)
    requires Inv(s) && a in s.recs && s.previous < 0x1_0000_0000_0000_0000
    ensures var t, r := s.recs[a], ListExpired(s, now, probe).0;
      && r.recs.Keys == s.recs.Keys && r.tickled == s.tickled
      && r.previous == (if s.queue == [] then s.previous else now)
      && (!Expires(s, a, now) ==> r.recs[a] == t && (a in r.queue <==> a in s.queue))
      && (Expires(s, a, now) && t.recurring ==> a in r.queue && r.recs[a].cb == t.cb && r.recs[a].ms == t.ms)
      && (Expires(s, a, now) && t.recurring && now + t.ms < 0x1_0000_0000_0000_0000 ==> r.recs[a].next == now + t.ms)
      && (Expires(s, a, now) && !t.recurring ==> a !in r.queue && r.recs[a] == t.(cb := None))
  {
    hide Sorted, ListExpired;
    var n := ListExpiredExactly(s, now, probe);
    RolloverExactly(s.previous, now);
    hide Rollover;
  }

  // A one-shot or recurring timer added at now with a delay of ms fires at t exactly when
  // t >= now + ms.
  lemma AddedFiresExactly(s: State, a: nat, ms: nat, cb: int, recurring: bool, now: nat, t: nat, probe: nat)
    requires Inv(s) && a !in s.recs && now + ms < 0x1_0000_0000_0000_0000 && s.previous <= t < 0x1_0000_0000_0000_0000 && s.previous < 0x1_0000_0000_0000_0000
    ensures Inv(Add(s, a, ms, Some(cb), recurring, now).0)
    ensures HandedOut(Add(s, a, ms, Some(cb), recurring, now).0, a, cb, t, probe) <==> t >= now + ms
  {
    hide Sorted, Add, Put, ListExpired;
    AddInv(s, a, ms, Some(cb), recurring, now);
    AddExactly(s, a, ms, Some(cb), recurring, now);
    HandedOutExactly(Add(s, a, ms, Some(cb), recurring, now).0, a, cb, t, probe);
  }

  // cancel: true exactly when there was a callback; it is gone, and the timer with it.
  lemma CancelExactly(s: State, a: nat)
    requires Inv(s) && a in s.recs
    ensures var (r, ok) := Cancel(s, a);
      && OthersKept(r, s, a) && r.tickled == s.tickled
      && (ok <==> s.recs[a].cb.Some?) && (!ok ==> r == s)
      && (ok ==> a !in r.queue && r.recs[a] == s.recs[a].(cb := None))
  {
    hide Sorted, Erase;
    if s.recs[a].cb.Some? { EraseSorted(s.recs, s.queue, a); }
    assert s.recs.Keys == s.recs.Keys + {a};
  }

  // refresh: true exactly for a timer still in the set with its callback, which then counts from now.
  lemma RefreshMeaning(s: State, a: nat, now: nat)
    requires Inv(s) && a in s.recs
    ensures var (r, ok) := Refresh(s, a, now);
      && OthersKept(r, s, a) && r.tickled == s.tickled
      && (ok <==> s.recs[a].cb.Some? && a in s.queue) && (!ok ==> r == s)
      && (ok ==> a in r.queue && r.recs[a].ms == s.recs[a].ms && r.recs[a].cb == s.recs[a].cb && r.recs[a].recurring == s.recs[a].recurring)
      && (ok && now + s.recs[a].ms < 0x1_0000_0000_0000_0000 ==> r.recs[a].next == now + s.recs[a].ms)
  {
    hide Sorted, Rank, Insert, Erase;
    if a in s.queue { RekeyInsert(s, a, s.recs[a].ms, Wrap(now + s.recs[a].ms)); }
    assert s.recs.Keys == s.recs.Keys + {a};
  }

  // reset: true without any change if there is nothing to change; false without any change for a
  // timer that is out of the set; else the timer counts ms from now, or from when it was started.
  lemma ResetMeaning(s: State, a: nat, ms: nat, fromNow: bool, now: nat)
    requires Inv(s) && a in s.recs
    ensures var (r, ok, woke) := Reset(s, a, ms, fromNow, now);
      && OthersKept(r, s, a)
      && (ok <==> (ms == s.recs[a].ms && !fromNow) || (s.recs[a].cb.Some? && a in s.queue))
      && (!ok || (ms == s.recs[a].ms && !fromNow) ==> r == s && !woke)
  {
    hide Sorted, Rank, Insert, Erase, Put, Wrap;
    var t := s.recs[a];
    if !(ms == t.ms && !fromNow) && t.cb.Some? && a in s.queue { ResetChanges(s, a, ms, fromNow, now); }
    assert s.recs.Keys == s.recs.Keys + {a};
  }

  lemma ResetChanges(s: State, a: nat, ms: nat, fromNow: bool, now: nat)
    requires Inv(s) && a in s.recs && s.recs[a].cb.Some? && a in s.queue && !(ms == s.recs[a].ms && !fromNow)
    ensures var t := s.recs[a];
      var (r, ok, woke) := Reset(s, a, ms, fromNow, now);
      && ok && OthersKept(r, s, a) && a in r.queue
      && r.recs[a].ms == ms && r.recs[a].cb == t.cb && r.recs[a].recurring == t.recurring
      && (fromNow && now + ms < 0x1_0000_0000_0000_0000 ==> r.recs[a].next == now + ms)
      && (!fromNow && t.ms <= t.next && t.next - t.ms + ms < 0x1_0000_0000_0000_0000 ==> r.recs[a].next == t.next - t.ms + ms)
      && (woke <==> First(r, a) && !s.tickled) && r.tickled == (s.tickled || First(r, a))
  {
    hide Sorted, Rank, Insert, Erase, Put, Wrap;
    var t := s.recs[a];
    var start := if fromNow then now else Wrap(t.next - t.ms);
    if t.ms <= t.next { NoWrapHere(t.next - t.ms); }
    NoWrapHere(start + ms);
    var s1 := Rekey(s, a, ms, Wrap(start + ms));
    RekeyInsert(s, a, ms, Wrap(start + ms));
    EraseSorted(s.recs, s.queue, a);
    PutFirst(s1, a);
    PutMembers(s1, a);
    assert s.recs.Keys == s.recs.Keys + {a};
  }
}
