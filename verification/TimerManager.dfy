/** The timer objects and their manager, each method checked against its step on values. */
module TimerManagers {
  import opened Options
  import opened Timers

  class Timer {
    const addr: nat
    const recurring: bool
    ghost const live: bool
    var ms: nat
    var next: nat
    var cb: Option<int>

    constructor (addr: nat, ms: nat, cb: Option<int>, recurring: bool, now: nat)
      ensures Fields() == Rec(addr, recurring, cb.Some?, ms, Wrap(now + ms), cb)
    {
      this.addr, this.recurring, this.live := addr, recurring, cb.Some?;
      this.ms, this.cb := ms, cb;
      next := Wrap(now + ms);
    }

    ghost function Fields(): Rec
      reads this
    {
      Rec(addr, recurring, live, ms, next, cb)
    }
  }

  function AddrsOf(ts: seq<Timer>): (q: seq<nat>)
    ensures |q| == |ts| && forall i :: 0 <= i < |q| ==> q[i] == ts[i].addr
  {
    seq(|ts|, i requires 0 <= i < |ts| => ts[i].addr)
  }

  class TimerManager {
    var timers: seq<Timer>
    var tickled: bool
    var previous: nat
    // Every timer made so far, by address.
    ghost var all: map<nat, Timer>

    ghost predicate Owned()
      reads `timers, `all, all.Values
    {
      && (forall a :: a in all ==> all[a].addr == a)
      && (forall t :: t in timers ==> t.addr in all && all[t.addr] == t)
    }

    ghost function Recs(): map<nat, Rec>
      reads `all, all.Values
    {
      map a | a in all :: all[a].Fields()
    }

    ghost function Addrs(): seq<nat>
      reads `timers
    {
      AddrsOf(timers)
    }

    ghost function View(): State
      reads this, all.Values
    {
      State(Recs(), Addrs(), tickled, previous)
    }

    ghost predicate Valid()
      reads this, all.Values
    {
      Owned() && Inv(View())
    }

    constructor (now: nat)
      ensures Valid() && View() == State(map[], [], false, now) && fresh(all.Values)
    {
      timers, tickled, previous, all := [], false, now, map[];
      new;
      assert View() == State(map[], [], false, now);
    }

    // A tree descent in the original; the place it finds is determined by the order.
    method LowerBound(next: nat, addr: nat) returns (r: nat)
      requires Owned() && Known(Recs(), Addrs())
      ensures r == Rank(Recs(), Addrs(), next, addr)
    {
      r := 0;
      ghost var q := Addrs();
      assert q[0..] == q;
      while r < |timers| && Before(timers[r].next, timers[r].addr, next, addr)
        invariant r <= |timers|
        invariant Rank(Recs(), q, next, addr) == r + Rank(Recs(), q[r..], next, addr)
      {
        assert timers[r] in timers;
        assert q[r..][1..] == q[r + 1..];
        r := r + 1;
      }
      if r < |timers| { assert timers[r] in timers; }
    }

    // m_timers.insert(t)
    method InsertTimer(t: Timer) returns (front: bool)
      requires Owned() && t.addr in all && all[t.addr] == t
      requires Known(Recs(), Addrs())
      modifies `timers
      ensures Owned() && View() == old(View()).(queue := Insert(old(Recs()), old(Addrs()), t.addr))
      ensures front == (Rank(Recs(), old(Addrs()), t.next, t.addr) == 0)
      ensures t in timers && forall u :: u in old(timers) ==> u in timers
    {
      hide Rank;
      ghost var q := Addrs();
      var r := LowerBound(t.next, t.addr);
      timers := timers[..r] + [t] + timers[r..];
      assert Addrs() == q[..r] + [t.addr] + q[r..];
      front := r == 0;
    }

    // m_timers.erase(m_timers.find(t)): the find succeeds because no key changes in the set.
    method EraseTimer(t: Timer)
      requires Owned() && t.addr in all && all[t.addr] == t
      requires Known(Recs(), Addrs()) && Sorted(Recs(), Addrs()) && t.addr in Addrs()
      modifies `timers
      ensures Owned() && Addrs() == Erase(old(Addrs()), t.addr)
    {
      hide Rank, Sorted, AddrsOf;
      ghost var q, ts := Addrs(), timers;
      FieldsOf(t);
      FindByKey(Recs(), q, t.addr);
      SortedDistinct(Recs(), q);
      var r := LowerBound(t.next, t.addr);
      hide Known;
      AddrsWithout(ts, r);
      EraseAt(q, r);
      timers := timers[..r] + timers[r + 1..];
    }

    lemma FieldsOf(t: Timer)
      requires Owned() && Mine(t)
      ensures t.addr in Recs() && Recs()[t.addr] == t.Fields()
    {
    }

    // Assigns m_ms, m_next and m_cb of one timer; no other timer changes.
    method Assign(t: Timer, ms: nat, next: nat, cb: Option<int>)
      requires Owned() && Mine(t)
      modifies t
      ensures Owned() && t.ms == ms && t.next == next && t.cb == cb
      ensures Recs() == old(Recs())[t.addr := old(t.Fields()).(ms := ms, next := next, cb := cb)]
    {
      ghost var recs := Recs();
      t.ms, t.next, t.cb := ms, next, cb;
      forall a | a in all && a != t.addr ensures all[a] != t { }
      assert forall a :: a in all && a != t.addr ==> all[a].Fields() == recs[a];
    }

    ghost predicate Mine(t: Timer)
      reads `all
    {
      t.addr in all && all[t.addr] == t
    }

    method AddTimer(addr: nat, ms: nat, cb: Option<int>, recurring: bool, now: nat) returns (t: Timer, woke: bool)
      requires Valid() && addr !in all
      modifies this
      ensures Valid() && fresh(t) && all == old(all)[addr := t]
      ensures (View(), woke) == Add(old(View()), addr, ms, cb, recurring, now)
      ensures t.addr == addr && t.ms == ms && t.cb == cb && t.recurring == recurring
      ensures now + ms < 0x1_0000_0000_0000_0000 ==> t.next == now + ms
      ensures t in timers && forall u :: u in old(timers) ==> u in timers
    {
      hide Sorted, Rank, Insert, Put;
      ghost var s := View();
      AddInv(s, addr, ms, cb, recurring, now);
      assert Known(s.recs, s.queue);
      hide Inv, Recs, Addrs, Known;
      t := Make(addr, ms, cb, recurring, now);
      woke := PutTimer(t);
    }

    // A timer that is not in the set yet.
    method Make(addr: nat, ms: nat, cb: Option<int>, recurring: bool, now: nat) returns (t: Timer)
      requires Owned() && addr !in all && Known(Recs(), Addrs())
      modifies `all
      ensures Owned() && Mine(t) && fresh(t) && all == old(all)[addr := t]
      ensures t.addr == addr && t.ms == ms && t.cb == cb && t.recurring == recurring && t.next == Wrap(now + ms)
      ensures Recs() == old(Recs())[addr := Rec(addr, recurring, cb.Some?, ms, Wrap(now + ms), cb)]
      ensures Addrs() == old(Addrs()) && Known(Recs(), Addrs())
    {
      hide Wrap;
      t := new Timer(addr, ms, cb, recurring, now);
      all := all[addr := t];
      assert Recs() == old(Recs())[addr := t.Fields()];
      KnownAlso(old(Recs()), addr, t.Fields(), Addrs());
    }

    lemma KnownAlso(recs: map<nat, Rec>, addr: nat, rec: Rec, queue: seq<nat>)
      requires Known(recs, queue) && rec.addr == addr
      ensures Known(recs[addr := rec], queue)
    {
    }

    // A timer that still has its callback is in the set.
    lemma LiveInSet(s: State, a: nat)
      requires Inv(s) && a in s.recs
      ensures Known(s.recs, s.queue) && Sorted(s.recs, s.queue)
      ensures s.recs[a].cb.Some? ==> a in s.queue
    {
      hide Sorted;
      if s.recs[a].cb.Some? { assert s.recs[a].live; }
    }

    // addTimer(val, lock)
    method PutTimer(t: Timer) returns (woke: bool)
      requires Owned() && Mine(t) && Known(Recs(), Addrs())
      modifies `timers, `tickled
      ensures t in timers && forall u :: u in old(timers) ==> u in timers
      ensures Owned() && (View(), woke) == Put(old(View()), t.addr)
    {
      hide Rank, Insert;
      var front := InsertTimer(t);
      woke := front && !tickled;
      if woke { tickled := true; }
    }

    method Cancel(t: Timer) returns (ok: bool)
      requires Valid() && Mine(t)
      modifies `timers, t
      ensures Valid() && (View(), ok) == Timers.Cancel(old(View()), t.addr)
    {
      hide Inv, Sorted, Erase;
      ghost var s := View();
      FieldsOf(t);
      hide Recs, Addrs, Owned;
      CancelInv(s, t.addr);
      LiveInSet(s, t.addr);
      ok := t.cb.Some?;
      if ok {
        EraseTimer(t);
        Assign(t, t.ms, t.next, None);
      }
    }

    // Takes the timer out of the set and gives it a new period and deadline.
    method Rekey(t: Timer, ms: nat, next: nat)
      requires Owned() && Mine(t) && Known(Recs(), Addrs()) && Sorted(Recs(), Addrs()) && t.addr in Addrs()
      modifies `timers, t
      ensures Owned() && View() == Timers.Rekey(old(View()), t.addr, ms, next)
      ensures t.next == next && t.ms == ms && t.cb == old(t.cb)
    {
      hide Sorted, Erase, Known;
      FieldsOf(t);
      hide Recs, Addrs, Owned;
      EraseTimer(t);
      Assign(t, ms, next, t.cb);
    }

    lemma RefreshCases(s: State, a: nat, now: nat)
      requires Known(s.recs, s.queue) && a in s.recs
      ensures var t := s.recs[a];
        if t.cb.None? || a !in s.queue then Timers.Refresh(s, a, now) == (s, false)
        else
          var s1 := Timers.Rekey(s, a, t.ms, Wrap(now + t.ms));
          Known(s1.recs, s1.queue) && Timers.Refresh(s, a, now) == (s1.(queue := Insert(s1.recs, s1.queue, a)), true)
    {
      RekeyKnown(s, a, s.recs[a].ms, Wrap(now + s.recs[a].ms));
    }

    lemma ResetCases(s: State, a: nat, ms: nat, fromNow: bool, now: nat)
      requires Known(s.recs, s.queue) && a in s.recs
      ensures var t := s.recs[a];
        if ms == t.ms && !fromNow then Timers.Reset(s, a, ms, fromNow, now) == (s, true, false)
        else if t.cb.None? || a !in s.queue then Timers.Reset(s, a, ms, fromNow, now) == (s, false, false)
        else
          var s1 := Timers.Rekey(s, a, ms, Wrap((if fromNow then now else Wrap(t.next - t.ms)) + ms));
          Known(s1.recs, s1.queue) && Timers.Reset(s, a, ms, fromNow, now) == (Put(s1, a).0, true, Put(s1, a).1)
    {
      RekeyKnown(s, a, ms, Wrap((if fromNow then now else Wrap(s.recs[a].next - s.recs[a].ms)) + ms));
    }

    method Refresh(t: Timer, now: nat) returns (ok: bool)
      requires Valid() && Mine(t)
      modifies `timers, t
      ensures Valid() && (View(), ok) == Timers.Refresh(old(View()), t.addr, now)
    {
      hide Inv, Sorted, Insert, Rank, Wrap, Timers.Refresh;
      ghost var s := View();
      FieldsOf(t);
      RefreshInv(s, t.addr, now);
      LiveInSet(s, t.addr);
      RefreshCases(s, t.addr, now);
      hide Recs, Addrs, Owned, Timers.Rekey, Known;
      if t.cb.None? { return false; }
      Rekey(t, t.ms, Wrap(now + t.ms));
      var front := InsertTimer(t);
      ok := true;
    }

    method Reset(t: Timer, ms: nat, fromNow: bool, now: nat) returns (ok: bool, woke: bool)
      requires Valid() && Mine(t)
      modifies `timers, `tickled, t
      ensures Valid() && (View(), ok, woke) == Timers.Reset(old(View()), t.addr, ms, fromNow, now)
    {
      hide Inv, Sorted, Insert, Rank, Put, Wrap, Timers.Reset;
      ghost var s := View();
      FieldsOf(t);
      ResetInv(s, t.addr, ms, fromNow, now);
      LiveInSet(s, t.addr);
      ResetCases(s, t.addr, ms, fromNow, now);
      hide Recs, Addrs, Owned, Timers.Rekey, Known;
      if ms == t.ms && !fromNow { return true, false; }
      if t.cb.None? { return false, false; }
      var start := if fromNow then now else Wrap(t.next - t.ms);
      Rekey(t, ms, Wrap(start + ms));
      woke := PutTimer(t);
      ok := true;
    }

    lemma FirstIsLeast()
      requires Valid()
      ensures forall t :: t in timers ==> t.next >= timers[0].next
    {
      forall t | t in timers ensures t.next >= timers[0].next {
        var i :| 0 <= i < |timers| && timers[i] == t;
        assert View().queue[i] == t.addr && View().queue[0] == timers[0].addr;
      }
    }

    method GetNextTimer(now: nat) returns (wait: nat)
      requires Valid()
      modifies `tickled
      ensures Valid() && (View(), wait) == NextTimer(old(View()), now)
      ensures timers == [] ==> wait == 0xFFFF_FFFF_FFFF_FFFF
      ensures timers != [] && wait > 0 ==> exists t :: t in timers && t.next == now + wait
      ensures timers != [] && wait > 0 ==> forall t :: t in timers ==> t.next >= now + wait
      ensures timers != [] && wait == 0 ==> exists t :: t in timers && t.next <= now
    {
      tickled := false;
      if timers == [] { return U64 - 1; }
      assert timers[0] in timers;
      FirstIsLeast();
      var next := timers[0].next;
      wait := if now >= next then 0 else next - now;
    }

    lemma ListExpiredCases(s: State, now: nat, probe: nat)
      requires Inv(s)
      ensures var rollover := Rollover(s.previous, now);
        && Known(s.recs, s.queue)
        && if s.queue == [] then ListExpired(s, now, probe) == (s, [])
           else if !rollover && s.recs[s.queue[0]].next > now then ListExpired(s, now, probe) == (s.(previous := now), [])
           else
             var n := Taken(s.recs, s.queue, now, probe, rollover);
             var s1 := s.(previous := now, queue := s.queue[n..]);
             && InHand(s1, s.queue[..n]) && Known(s.recs, s.queue[..n])
             && ListExpired(s, now, probe) == (ExpireAll(s1, s.queue[..n], now), Callbacks(s.recs, s.queue[..n]))
    {
      hide Sorted, Insert, Rank, ExpireAll, Taken, Rollover, Callbacks;
      if s.queue != [] {
        var n := Taken(s.recs, s.queue, now, probe, Rollover(s.previous, now));
        HandOk(s, now, n);
        HandKnown(s.(previous := now, queue := s.queue[n..]), s.queue[..n]);
      }
    }

    // The probe stands for the address of the temporary timer that marks `now`.
    method ListExpiredCb(now: nat, probe: nat) returns (cbs: seq<Option<int>>)
      requires Valid()
      modifies this, timers
      ensures Valid() && all == old(all) && (View(), cbs) == ListExpired(old(View()), now, probe)
    {
      hide Inv, ListExpired, Rank, ExpireAll, InHand, Taken, Rollover, Callbacks;
      ghost var s := View();
      ListExpiredInv(s, now, probe);
      ListExpiredCases(s, now, probe);
      cbs := [];
      if timers == [] { return; }
      assert timers[0] in timers && s.recs[s.queue[0]].next == timers[0].next;
      hide Recs, Addrs, Owned, Known;
      var rollover := Rollover(previous, now);
      previous := now;
      if rollover || timers[0].next <= now {
        var n := CountTaken(now, probe, rollover);
        cbs := TakeExpired(n, now);
      }
    }

    // Moves the first n timers out of the set and expires them.
    method TakeExpired(n: nat, now: nat) returns (cbs: seq<Option<int>>)
      requires Owned() && n <= |Addrs()| && Known(Recs(), Addrs())
      requires InHand(View().(queue := Addrs()[n..]), Addrs()[..n])
      modifies `timers, timers
      ensures Owned() && View() == ExpireAll(old(View()).(queue := old(Addrs())[n..]), old(Addrs())[..n], now)
      ensures Known(old(Recs()), old(Addrs())[..n]) && cbs == Callbacks(old(Recs()), old(Addrs())[..n])
    {
      hide ExpireAll, InHand;
      ghost var q := Addrs();
      var expired := timers[..n];
      timers := timers[n..];
      assert Addrs() == q[n..];
      assert forall i :: 0 <= i < n ==> expired[i] in old(timers);
      cbs := ExpireTimers(expired, q[..n], now);
    }

    // The expired timers: known, distinct, and no longer in the set.
    lemma HandOk(s: State, now: nat, n: nat)
      requires Inv(s) && n <= |s.queue|
      ensures InHand(s.(previous := now, queue := s.queue[n..]), s.queue[..n])
    {
      SplitHand(s, n);
    }

    method CountTaken(now: nat, probe: nat, rollover: bool) returns (n: nat)
      requires Owned() && Known(Recs(), Addrs())
      ensures n == Taken(Recs(), Addrs(), now, probe, rollover)
    {
      hide Rank;
      if rollover { return |timers|; }
      n := LowerBound(now, probe);
      while n < |timers| && timers[n].next == now
        invariant n <= |timers|
        invariant SkipEqual(Recs(), Addrs(), n, now) == Taken(Recs(), Addrs(), now, probe, rollover)
      {
        assert timers[n] in timers;
        n := n + 1;
      }
      if n < |timers| { assert timers[n] in timers; }
    }

    lemma KnownSame(a: map<nat, Rec>, b: map<nat, Rec>, queue: seq<nat>)
      requires Known(a, queue) && a.Keys <= b.Keys && forall x :: x in a ==> b[x].addr == a[x].addr
      ensures Known(b, queue)
    {
    }

    // One pass of the loop over the expired timers.
    method ExpireOne(t: Timer, now: nat)
      requires Owned() && Mine(t) && Known(Recs(), Addrs()) && t.addr !in Addrs()
      modifies `timers, t
      ensures Owned() && View() == Expire(old(View()), t.addr, now)
    {
      hide Insert;
      ghost var s := View();
      ghost var rec := t.Fields();
      assert Recs()[t.addr] == rec;
      hide Recs, Addrs, Owned, Wrap, Known;
      assert Expire(s, t.addr, now).recs == s.recs[t.addr := if t.recurring then rec.(next := Wrap(now + t.ms)) else rec.(cb := None)];
      if t.recurring {
        Assign(t, t.ms, Wrap(now + t.ms), t.cb);
        KnownSame(s.recs, Recs(), s.queue);
        var front := InsertTimer(t);
      } else {
        Assign(t, t.ms, t.next, None);
      }
    }

    method ExpireTimers(expired: seq<Timer>, ghost hand: seq<nat>, now: nat) returns (cbs: seq<Option<int>>)
      requires Owned() && |hand| == |expired|
      requires forall i :: 0 <= i < |expired| ==> Mine(expired[i]) && hand[i] == expired[i].addr
      requires InHand(View(), hand)
      modifies `timers, expired
      ensures Owned() && View() == ExpireAll(old(View()), hand, now)
      ensures Known(old(View()).recs, hand) && cbs == Callbacks(old(View()).recs, hand)
    {
      hide Expire, Insert, InHand, ExpireAll, Recs, Addrs, Owned;
      ghost var s := View();
      HandKnown(s, hand);
      cbs := [];
      assert hand[0..] == hand;
      for i := 0 to |expired|
        invariant Owned() && |cbs| == i && InHand(View(), hand[i..])
        invariant ExpireAll(View(), hand[i..], now) == ExpireAll(s, hand, now)
        invariant Recs().Keys == s.recs.Keys
        invariant forall j :: i <= j < |hand| ==> Recs()[hand[j]] == s.recs[hand[j]]
        invariant forall j :: 0 <= j < i ==> cbs[j] == s.recs[hand[j]].cb
      {
        var t := expired[i];
        FieldsOf(t);
        cbs := cbs + [t.cb];
        assert hand[i..][0] == hand[i] && hand[i..][1..] == hand[i + 1..];
        ExpireAllStep(View(), hand[i..], now);
        ExpireOne(t, now);
        assert forall j :: i + 1 <= j < |hand| ==> hand[j] in hand[i + 1..];
      }
      assert hand[|hand|..] == [];
      NoneExpired(View(), now);
    }

    lemma HandKnown(s: State, hand: seq<nat>)
      requires InHand(s, hand)
      ensures Known(s.recs, hand)
    {
    }

    lemma NoneExpired(s: State, now: nat)
      ensures InHand(s, []) ==> ExpireAll(s, [], now) == s
    {
    }
  }

  lemma AddrsWithout(ts: seq<Timer>, r: nat)
    requires r < |ts|
    ensures AddrsOf(ts[..r] + ts[r + 1..]) == AddrsOf(ts)[..r] + AddrsOf(ts)[r + 1..]
    ensures forall t :: t in ts[..r] + ts[r + 1..] ==> t in ts
  {
  }

  lemma {:induction false} EraseAt(q: seq<nat>, r: nat)
    requires r < |q| && Distinct(q)
    ensures Erase(q, q[r]) == q[..r] + q[r + 1..]
  {
    if r > 0 {
      EraseAt(q[1..], r - 1);
      assert q[1..][..r - 1] == q[1..r] && q[1..][r..] == q[r + 1..];
    }
  }
}
