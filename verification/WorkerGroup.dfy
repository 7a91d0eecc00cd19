/** FiberSemaphore, and WorkerGroup as a step system over it. */
module WorkerGroups {
  import opened Options

  // Who waits for a permit: a call of schedule, or the loop of waitAll.
  datatype Who = Call(id: nat) | Closer

  // m_concurrency and m_waiters
  datatype Sem = Sem(free: nat, waiters: seq<Who>)

  function SemWait(m: Sem, who: Who): Sem
  {
    if m.free > 0 then Sem(m.free - 1, m.waiters) else Sem(0, m.waiters + [who])
  }

  function SemNotify(m: Sem): Sem
  {
    if m.waiters != [] then Sem(m.free, m.waiters[1..]) else Sem(m.free + 1, [])
  }

  class FiberSemaphore {
    var concurrency: nat
    var waiters: seq<Who>

    function View(): Sem
      reads this
    {
      Sem(concurrency, waiters)
    }

    constructor (initial: nat)
      ensures View() == Sem(initial, [])
    {
      concurrency, waiters := initial, [];
    }

    method TryWait() returns (ok: bool)
      modifies this
      ensures ok <==> old(concurrency) > 0
      ensures View() == if ok then Sem(old(concurrency) - 1, old(waiters)) else old(View())
    {
      if concurrency > 0 {
        concurrency := concurrency - 1;
        return true;
      }
      return false;
    }

    // The locked part; parked tells that the caller then yields until a notify schedules it.
    method Wait(who: Who) returns (parked: bool)
      modifies this
      ensures parked <==> old(concurrency) == 0
      ensures View() == SemWait(old(View()), who)
      ensures parked ==> concurrency == 0 && waiters == old(waiters) + [who]
      ensures !parked ==> concurrency == old(concurrency) - 1 && waiters == old(waiters)
    {
      if concurrency > 0 {
        concurrency := concurrency - 1;
        return false;
      }
      waiters := waiters + [who];
      return true;
    }

    // The waiter that goes back to its scheduler, if any.
    method Notify() returns (woken: Option<Who>)
      modifies this
      ensures View() == SemNotify(old(View()))
      ensures woken == if old(waiters) == [] then None else Some(old(waiters)[0])
      ensures old(waiters) == [] ==> concurrency == old(concurrency) + 1 && waiters == []
      ensures old(waiters) != [] ==> concurrency == old(concurrency) && [woken.value] + waiters == old(waiters)
    {
      if waiters != [] {
        woken := Some(waiters[0]);
        waiters := waiters[1..];
      } else {
        woken := None;
        concurrency := concurrency + 1;
      }
    }
  }

  /* ---------- the group ---------- */

  // granted: calls of schedule past m_sem.wait() and not yet past m_scheduler->schedule().
  // queued and running: tasks in the scheduler, and inside doWork.
  // taken: permits that waitAll's loop has got. asked and served: everybody who was ever parked,
  // and everybody a notify has woken, in order.
  datatype State = State(batch: nat, sem: Sem, granted: multiset<nat>, queued: multiset<nat>, running: multiset<nat>,
                         finish: bool, taken: nat, asked: seq<Who>, served: seq<Who>)

  datatype Step = Schedule(id: nat) | Enqueue(id: nat) | Start(id: nat) | Finish(id: nat) | WaitAll | CloserWait

  predicate Enabled(s: State, step: Step)
  {
    match step
    case Schedule(_) => true
    case Enqueue(id) => id in s.granted
    case Start(id) => id in s.queued
    case Finish(id) => id in s.running
    case WaitAll => true
    case CloserWait => s.finish && s.taken < s.batch && Closer !in s.sem.waiters
  }

  // who has got a permit, at once or from a notify.
  function Grant(s: State, who: Who): State
  {
    match who
    case Call(id) => s.(granted := s.granted + multiset{id})
    case Closer => s.(taken := s.taken + 1)
  }

  // m_sem.wait()
  function Wait(s: State, who: Who): State
  {
    var t := s.(sem := SemWait(s.sem, who));
    if s.sem.free > 0 then Grant(t, who) else t.(asked := s.asked + [who])
  }

  // m_sem.notify()
  function Notify(s: State): State
  {
    var t := s.(sem := SemNotify(s.sem));
    if s.sem.waiters == [] then t
    else Grant(t.(served := s.served + [s.sem.waiters[0]]), s.sem.waiters[0])
  }

  function Next(s: State, step: Step): State
    requires Enabled(s, step)
  {
    match step
    case Schedule(id) => Wait(s, Call(id))
    case Enqueue(id) => s.(granted := s.granted - multiset{id}, queued := s.queued + multiset{id})
    case Start(id) => s.(queued := s.queued - multiset{id}, running := s.running + multiset{id})
    case Finish(id) => Notify(s.(running := s.running - multiset{id}))
    case WaitAll => s.(finish := true)
    case CloserWait => Wait(s, Closer)
  }

  predicate Possible(s: State, steps: seq<Step>)
    decreases |steps|
  {
    steps == [] || (Enabled(s, steps[0]) && Possible(Next(s, steps[0]), steps[1..]))
  }

  function Run(s: State, steps: seq<Step>): State
    requires Possible(s, steps)
    decreases |steps|
  {
    if steps == [] then s else Run(Next(s, steps[0]), steps[1..])
  }

  // A call of schedule goes through with a free permit, and else lines up at the back.
  lemma CallExactly(s: State, id: nat)
    ensures var t := Next(s, Schedule(id));
      && (s.sem.free > 0 ==> t == s.(sem := Sem(s.sem.free - 1, s.sem.waiters), granted := s.granted + multiset{id}))
      && (s.sem.free == 0 ==>
            t == s.(sem := Sem(0, s.sem.waiters + [Call(id)]), asked := s.asked + [Call(id)]))
  {
  }

  // A task that ends hands its permit to whoever has waited longest: a call goes through, or the
  // loop of waitAll is one permit further. With nobody waiting the permit is free.
  lemma FinishExactly(s: State, id: nat)
    requires id in s.running
    ensures var t := Next(s, Finish(id));
      && t.running == s.running - multiset{id} && t.queued == s.queued && t.finish == s.finish && t.asked == s.asked
      && (s.sem.waiters == [] ==> t.sem == Sem(s.sem.free + 1, []) && t.granted == s.granted && t.taken == s.taken && t.served == s.served)
      && (s.sem.waiters != [] ==>
            && t.sem.free == s.sem.free && [s.sem.waiters[0]] + t.sem.waiters == s.sem.waiters
            && t.served == s.served + [s.sem.waiters[0]]
            && t.taken == (if s.sem.waiters[0] == Closer then s.taken + 1 else s.taken)
            && t.granted == (match s.sem.waiters[0] case Call(c) => s.granted + multiset{c} case Closer => s.granted))
  {
  }

  function Initial(batch: nat): State
  {
    State(batch, Sem(batch, []), multiset{}, multiset{}, multiset{}, false, 0, [], [])
  }

  // Tasks let in and not yet finished.
  function Admitted(s: State): nat { |s.granted| + |s.queued| + |s.running| }

  function Closers(ws: seq<Who>): nat
  {
    if ws == [] then 0 else (if ws[0] == Closer then 1 else 0) + Closers(ws[1..])
  }

  ghost predicate Inv(s: State)
  {
    && s.sem.free + Admitted(s) + s.taken == s.batch
    && (s.sem.free > 0 ==> s.sem.waiters == [])
    && s.asked == s.served + s.sem.waiters
    && Closers(s.sem.waiters) <= (if s.finish && s.taken < s.batch then 1 else 0)
    && (s.taken > 0 ==> s.finish)
  }

  lemma {:induction false} ClosersAppend(ws: seq<Who>, w: Who)
    ensures Closers(ws + [w]) == Closers(ws) + if w == Closer then 1 else 0
  {
    if ws != [] {
      assert (ws + [w])[1..] == ws[1..] + [w];
      ClosersAppend(ws[1..], w);
    } else {
      assert ws + [w] == [w];
    }
  }

  lemma {:induction false} CloserIn(ws: seq<Who>)
    ensures Closer in ws <==> Closers(ws) > 0
  {
    if ws != [] {
      assert ws == [ws[0]] + ws[1..];
      CloserIn(ws[1..]);
    }
  }

  lemma WaitKeeps(s: State, who: Who)
    requires Inv(s) && (who == Closer ==> Enabled(s, CloserWait))
    ensures Inv(Wait(s, who))
  {
    ClosersAppend(s.sem.waiters, who);
    CloserIn(s.sem.waiters);
    assert s.served + (s.sem.waiters + [who]) == (s.served + s.sem.waiters) + [who];
  }

  lemma FinishKeeps(s: State, id: nat)
    requires Inv(s) && id in s.running
    ensures Inv(Next(s, Finish(id)))
  {
    var ws := s.sem.waiters;
    CloserIn(ws);
    if ws != [] {
      assert s.served + ws == (s.served + [ws[0]]) + ws[1..];
      if ws[0] == Closer { CloserIn(ws[1..]); }
    }
  }

  lemma StepKeeps(s: State, step: Step)
    requires Inv(s) && Enabled(s, step)
    ensures Inv(Next(s, step))
  {
    match step
    case Schedule(id) => WaitKeeps(s, Call(id));
    case Finish(id) => FinishKeeps(s, id);
    case CloserWait => WaitKeeps(s, Closer);
    case _ =>
  }

  // Over every run: free permits, permits of admitted tasks and permits taken by waitAll add up to
  // the batch; a permit is free only when nobody waits; and waiters are served in their order.
  lemma {:induction false} RunKeeps(s: State, steps: seq<Step>)
    requires Inv(s) && Possible(s, steps)
    ensures Inv(Run(s, steps)) && Run(s, steps).batch == s.batch
    decreases |steps|
  {
    hide Inv;
    if steps != [] {
      StepKeeps(s, steps[0]);
      RunKeeps(Next(s, steps[0]), steps[1..]);
    }
  }

  lemma BoundedAndFifo(batch: nat, steps: seq<Step>)
    requires Possible(Initial(batch), steps)
    ensures var t := Run(Initial(batch), steps);
      && t.sem.free + Admitted(t) + t.taken == batch
      && (t.sem.free > 0 ==> t.sem.waiters == [])
      && t.served <= t.asked
  {
    RunKeeps(Initial(batch), steps);
  }

  /* ---------- the barrier ---------- */

  // The loop of waitAll has had its last permit.
  predicate Returned(s: State) { s.finish && s.taken == s.batch }

  // When it has, nothing that was let in is left, and no run lets anything in again: every later
  // call of schedule waits for ever.
  lemma {:induction false} BarrierHolds(s: State, steps: seq<Step>)
    requires Inv(s) && Returned(s) && Possible(s, steps)
    ensures var t := Run(s, steps);
      && Returned(t) && Admitted(t) == 0 && t.sem.free == 0
      && s.sem.waiters <= t.sem.waiters
    decreases |steps|
  {
    if steps != [] {
      StepKeeps(s, steps[0]);
      BarrierHolds(Next(s, steps[0]), steps[1..]);
    }
  }

  /* ---------- waitAll comes to an end ---------- */

  // What is left to do without a new call, weighted by the steps each thing still takes.
  function Work(s: State): int
  {
    4 * |s.sem.waiters| + 3 * |s.granted| + 2 * |s.queued| + |s.running|
    + 5 * (s.batch - s.taken - Closers(s.sem.waiters))
  }

  predicate Inner(step: Step) { !step.Schedule? && !step.WaitAll? }

  lemma StepWorks(s: State, step: Step)
    requires Inv(s) && Enabled(s, step) && Inner(step)
    ensures Work(Next(s, step)) < Work(s)
  {
    hide Closers, Inv;
    match step
    case Finish(id) => FinishWorks(s, id);
    case CloserWait =>
      ClosersAppend(s.sem.waiters, Closer);
    case _ =>
  }

  lemma FinishWorks(s: State, id: nat)
    requires id in s.running
    ensures Work(Next(s, Finish(id))) < Work(s)
  {
    var ws := s.sem.waiters;
    if ws != [] {
      assert Closers(ws) == (if ws[0] == Closer then 1 else 0) + Closers(ws[1..]);
      hide Closers;
      var t := Next(s, Finish(id));
      assert t.sem.waiters == ws[1..] && |t.running| == |s.running| - 1;
      match ws[0]
      case Call(c) => assert |t.granted| == |s.granted| + 1;
      case Closer => assert t.taken == s.taken + 1;
    }
  }

  // No run without new calls is longer than the work left.
  lemma {:induction false} RunEnds(s: State, steps: seq<Step>)
    requires Inv(s) && Possible(s, steps) && forall i :: 0 <= i < |steps| ==> Inner(steps[i])
    ensures |steps| <= Work(s)
    decreases |steps|
  {
    if steps == [] {
      assert Closers(s.sem.waiters) <= s.batch - s.taken;
    } else {
      StepKeeps(s, steps[0]);
      StepWorks(s, steps[0]);
      RunEnds(Next(s, steps[0]), steps[1..]);
    }
  }

  // And where no step is left to take, waitAll has returned: it never waits for nothing.
  lemma StuckMeansReturned(s: State)
    requires Inv(s) && s.finish
    requires forall step :: Inner(step) ==> !Enabled(s, step)
    ensures Returned(s) && Admitted(s) == 0
  {
    assert !Enabled(s, CloserWait);
    if s.granted != multiset{} { var id :| id in s.granted; assert Enabled(s, Enqueue(id)); }
    if s.queued != multiset{} { var id :| id in s.queued; assert Enabled(s, Start(id)); }
    if s.running != multiset{} { var id :| id in s.running; assert Enabled(s, Finish(id)); }
    assert s.taken < s.batch ==> Closer in s.sem.waiters;
    assert |s.granted| == 0 && |s.queued| == 0 && |s.running| == 0;
  }

  /* ---------- a second waitAll ---------- */

  // A call that finds m_finish set returns at once and changes nothing.
  predicate ReturnsAtOnce(s: State) { s.finish && Next(s, WaitAll) == s }

  // Somewhere in some run, with t permits taken by the first waitAll, such a call returns.
  ghost predicate SecondReturns(batch: nat, t: nat, s: State)
  {
    exists steps :: Possible(Initial(batch), steps) && s == Run(Initial(batch), steps) && ReturnsAtOnce(s) && s.taken == t
  }

  // It finds the group quiet, wherever it comes, exactly when the first waitAll has had its last
  // permit: for every smaller number of permits there is a run in which something is still admitted.
  lemma SecondWaitAllExactly(batch: nat, t: nat)
    requires t <= batch
    ensures (forall s :: SecondReturns(batch, t, s) ==> Admitted(s) == 0) <==> t == batch
  {
    if t == batch {
      forall s | SecondReturns(batch, t, s) ensures Admitted(s) == 0 {
        var steps :| Possible(Initial(batch), steps) && s == Run(Initial(batch), steps) && ReturnsAtOnce(s) && s.taken == t;
        RunKeeps(Initial(batch), steps);
      }
    } else {
      var s := StillAdmitted(batch, t);
      assert SecondReturns(batch, t, s);
    }
  }

  lemma StillAdmitted(batch: nat, t: nat) returns (s: State)
    requires t < batch
    ensures SecondReturns(batch, t, s) && Admitted(s) == 1
  {
    var s1 := Next(Initial(batch), WaitAll);
    var s2 := Next(s1, Schedule(7));
    var rest := Waits(t);
    ClosersTake(s2, t);
    s := s2.(sem := Sem(s2.sem.free - t, []), taken := t);
    var steps := [WaitAll, Schedule(7)] + rest;
    assert steps[1..] == [Schedule(7)] + rest && steps[1..][1..] == rest;
    assert Possible(s1, steps[1..]) && Run(s1, steps[1..]) == s;
    assert Possible(Initial(batch), steps) && Run(Initial(batch), steps) == s;
  }

  function Waits(k: nat): seq<Step> { if k == 0 then [] else [CloserWait] + Waits(k - 1) }

  lemma {:induction false} ClosersTake(s: State, k: nat)
    requires s.finish && s.sem.waiters == [] && k <= s.sem.free && s.taken + k <= s.batch
    ensures Possible(s, Waits(k))
    ensures Run(s, Waits(k)) == s.(sem := Sem(s.sem.free - k, []), taken := s.taken + k)
    decreases k
  {
    if k > 0 {
      ClosersTake(Next(s, CloserWait), k - 1);
      assert Waits(k)[1..] == Waits(k - 1);
    }
  }

  // It may return while a task is still to run.
  lemma SecondWaitAllTooEarly()
    ensures var steps := [Schedule(7), Enqueue(7), WaitAll, CloserWait];
      && Possible(Initial(1), steps)
      && ReturnsAtOnce(Run(Initial(1), steps)) && 7 in Run(Initial(1), steps).queued
  {
    var s1 := Next(Initial(1), Schedule(7));
    var s2 := Next(s1, Enqueue(7));
    var s3 := Next(s2, WaitAll);
    var s4 := Next(s3, CloserWait);
    var steps := [Schedule(7), Enqueue(7), WaitAll, CloserWait];
    assert Possible(s3, [CloserWait]) && Run(s3, [CloserWait]) == s4;
    assert steps[1..][1..] == [WaitAll, CloserWait] && steps[1..][1..][1..] == [CloserWait];
    assert Possible(s2, [WaitAll, CloserWait]) && Run(s2, [WaitAll, CloserWait]) == s4;
  }
}
