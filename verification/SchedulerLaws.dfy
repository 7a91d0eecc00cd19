/** What each step of the scheduler comes to, entry by entry, and who may run a scheduled job. */
module SchedulerLaws {
  import opened Bags
  import opened Schedulers
  import opened Sequences

  // schedule: the queue is longer by one entry for each job, in order and with the thread given.
  lemma PushExactly(q: seq<Entry>, next: nat, jobs: seq<Job>, thread: int)
    ensures var r := Push(q, next, jobs, thread);
      && |r| == |q| + |jobs| && r[..|q|] == q
      && forall i :: 0 <= i < |jobs| ==>
           var e := r[|q| + i];
           e.ticket == next + i && e.job == jobs[i] && e.thread == thread
  {
  }

  lemma ScheduleExactly(s: State, c: int, jobs: seq<Job>, thread: int)
    requires Enabled(s, Schedule(c, jobs, thread))
    ensures var t := Next(s, Schedule(c, jobs, thread));
      && |t.queue| == |s.queue| + |jobs| && t.queue[..|s.queue|] == s.queue && t.next == s.next + |jobs|
      && (forall i :: 0 <= i < |jobs| ==> t.queue[|s.queue| + i] == Entry(s.next + i, jobs[i], thread))
      && t == s.(queue := t.queue, next := t.next)
  {
  }

  // May a worker of this thread run the entry now: any thread's or its own, and not a fiber that
  // is executing.
  predicate Fits(e: Entry, tid: int, exec: set<nat>)
  {
    (e.thread == -1 || e.thread == tid) && (e.job.Coroutine? ==> e.job.id !in exec)
  }

  // The locked section of run: the first entry that fits leaves the queue for the worker and the
  // count goes up by one; when none fits the worker goes idle, or leaves if its idle fiber ended.
  lemma LookExactly(s: State, w: nat, exec: set<nat>)
    requires Enabled(s, Look(w, exec))
    ensures var t, worker := Next(s, Look(w, exec)), s.workers[w];
      if exists i :: 0 <= i < |s.queue| && Fits(s.queue[i], worker.tid, exec) then
        exists i :: 0 <= i < |s.queue| && Fits(s.queue[i], worker.tid, exec)
          && (forall j :: 0 <= j < i ==> !Fits(s.queue[j], worker.tid, exec))
          && t == s.(queue := s.queue[..i] + s.queue[i + 1..], active := s.active + 1,
                     workers := s.workers[w := Worker(worker.tid, Holding(s.queue[i]), worker.idleTerm)])
      else
        t == s.(workers := s.workers[w := Worker(worker.tid, if worker.idleTerm then Gone else Idling, worker.idleTerm)],
                idle := if worker.idleTerm then s.idle else s.idle + 1)
  {
    hide FirstFit;
    var i := FirstFit(s.queue, s.workers[w].tid, exec);
    assert forall e :: Fits(e, s.workers[w].tid, exec) <==> MayTake(e, s.workers[w].tid, exec);
  }

  // On leaving an entry the count goes down by one; a fiber that ran and yielded READY is about to
  // be scheduled again: the entry's own fiber, or the one its callback ran in.
  lemma LeaveExactly(s: State, w: nat, found: FiberState, left: FiberState, fiber: nat)
    requires Enabled(s, Leave(w, found, left, fiber))
    ensures var t, e := Next(s, Leave(w, found, left, fiber)), s.workers[w].phase.e;
      var ran := match e.job case Callback(_) => true case Coroutine(_) => found !in {TERM, EXCEPT};
      && t.queue == s.queue && t.next == s.next && t.active == s.active - 1 && t.idle == s.idle
      && t.workers == s.workers[w := s.workers[w].(phase := t.workers[w].phase)]
      && (t.workers[w].phase.Requeue? <==> ran && left == READY)
      && (ran && left == READY ==> t.workers[w].phase.fiber == match e.job case Callback(_) => fiber case Coroutine(id) => id)
      && (!(ran && left == READY) ==> t.workers[w].phase == Looking)
  {
  }

  // Such a fiber goes to the back of the queue, for any thread.
  lemma AgainExactly(s: State, w: nat)
    requires Enabled(s, Again(w))
    ensures var t := Next(s, Again(w));
      && t.queue == s.queue + [Entry(s.next, Coroutine(s.workers[w].phase.fiber), -1)]
      && t == s.(queue := t.queue, next := s.next + 1, workers := s.workers[w := s.workers[w].(phase := Looking)])
  {
  }

  // A turn of the idle fiber ends it exactly when both flags are set, nothing is queued and
  // nobody holds an entry.
  lemma IdleTurnExactly(s: State, w: nat)
    requires Inv(s) && Enabled(s, IdleTurn(w))
    ensures var t, worker := Next(s, IdleTurn(w)), s.workers[w];
      && t == s.(idle := s.idle - 1, workers := s.workers[w := Worker(worker.tid, Looking, t.workers[w].idleTerm)])
      && (t.workers[w].idleTerm <==>
            worker.idleTerm || (s.autoStop && s.stopFlag && s.queue == [] && forall v :: v in s.workers ==> !v.phase.Holding?))
  {
    hide Inv;
    ActiveExactly(s);
  }

  /* ---------- over every run ---------- */

  // The job and the thread of this ticket, wherever it is.
  ghost predicate Carries(s: State, n: nat, job: Job, thread: int)
  {
    && n < s.next
    && (forall e :: e in s.queue && e.ticket == n ==> e.job == job && e.thread == thread)
    && (forall w :: w in s.workers && w.phase.Holding? && w.phase.e.ticket == n ==>
          w.phase.e.job == job && w.phase.e.thread == thread && (thread == -1 || w.tid == thread))
  }

  lemma PushCarries(s: State, t: State, jobs: seq<Job>, thread: int, n: nat, job: Job, pinned: int)
    requires Carries(s, n, job, pinned)
    requires t.queue == Push(s.queue, s.next, jobs, thread) && t.next == s.next + |jobs|
    requires forall w :: w in t.workers && w.phase.Holding? ==> w in s.workers
    ensures Carries(t, n, job, pinned)
  {
    forall e | e in t.queue && e.ticket == n ensures e in s.queue {
      var i :| 0 <= i < |t.queue| && t.queue[i] == e;
    }
  }

  lemma WithoutSubset(q: seq<Entry>, i: nat)
    requires i < |q|
    ensures forall e :: e in Without(q, i) ==> e in q
  {
    forall e | e in Without(q, i) ensures e in q {
      var j :| 0 <= j < |q| - 1 && Without(q, i)[j] == e;
      assert e == q[if j < i then j else j + 1];
    }
  }

  lemma LookCarries(s: State, w: nat, exec: set<nat>, n: nat, job: Job, thread: int)
    requires Carries(s, n, job, thread) && Enabled(s, Look(w, exec))
    ensures Carries(Next(s, Look(w, exec)), n, job, thread)
  {
    hide FirstFit, Without, Stopping, Push;
    var t, i := Next(s, Look(w, exec)), FirstFit(s.queue, s.workers[w].tid, exec);
    WorkersFrom(s.workers, w, t.workers);
    if i < |s.queue| {
      assert s.queue[i] in s.queue;
      WithoutSubset(s.queue, i);
    }
  }

  lemma StepCarries(s: State, step: Step, n: nat, job: Job, thread: int)
    requires Carries(s, n, job, thread) && Enabled(s, step)
    ensures Carries(Next(s, step), n, job, thread)
  {
    hide FirstFit, Push, Stopping;
    var t := Next(s, step);
    match step
    case Schedule(_, jobs, pin) => PushCarries(s, t, jobs, pin, n, job, thread);
    case Look(w, exec) => LookCarries(s, w, exec, n, job, thread);
    case Again(w) =>
      WorkersFrom(s.workers, w, t.workers);
      PushCarries(s, t, [Coroutine(s.workers[w].phase.fiber)], -1, n, job, thread);
    case Leave(w, _, _, _) => WorkersFrom(s.workers, w, t.workers);
    case IdleTurn(w) => WorkersFrom(s.workers, w, t.workers);
    case Stop =>
  }

  lemma {:induction false} RunCarries(s: State, steps: seq<Step>, n: nat, job: Job, thread: int)
    requires Carries(s, n, job, thread) && Possible(s, steps)
    ensures Carries(Run(s, steps), n, job, thread)
    decreases |steps|
  {
    hide Carries, Next, Enabled;
    if steps != [] {
      StepCarries(s, steps[0], n, job, thread);
      RunCarries(Next(s, steps[0]), steps[1..], n, job, thread);
    }
  }

  lemma StepTids(s: State, step: Step)
    requires Enabled(s, step)
    ensures forall i :: 0 <= i < |s.workers| ==> Next(s, step).workers[i].tid == s.workers[i].tid
  {
    hide FirstFit, Push, Without, Stopping;
  }

  // The worker of a thread is the same one throughout.
  lemma {:induction false} TidsStay(s: State, steps: seq<Step>)
    requires Possible(s, steps)
    ensures var t := Run(s, steps);
      |t.workers| == |s.workers| && forall i :: 0 <= i < |s.workers| ==> t.workers[i].tid == s.workers[i].tid
    decreases |steps|
  {
    hide Next, Enabled;
    if steps != [] {
      StepTids(s, steps[0]);
      TidsStay(Next(s, steps[0]), steps[1..]);
    }
  }

  // No ticket is anywhere before it is handed out.
  lemma TicketsBelow(s: State)
    requires Inv(s)
    ensures forall e :: e in s.queue ==> e.ticket < s.next
    ensures forall w :: w in s.workers && w.phase.Holding? ==> w.phase.e.ticket < s.next
  {
    hide Sum;
    forall w | w in s.workers && w.phase.Holding? ensures w.phase.e.ticket < s.next {
      var i :| 0 <= i < |s.workers| && s.workers[i] == w;
      var n := w.phase.e.ticket;
      SumHas(s.workers, i, n, Held);
      assert Places(s)[n] >= 1;
    }
  }

  lemma PushNames(q: seq<Entry>, next: nat, jobs: seq<Job>, thread: int, i: nat)
    requires i < |jobs| && forall e :: e in q ==> e.ticket < next
    ensures forall e :: e in Push(q, next, jobs, thread) && e.ticket == next + i ==> e.job == jobs[i] && e.thread == thread
  {
    var r := Push(q, next, jobs, thread);
    assert forall j :: 0 <= j < |q| ==> q[j] in q && r[j] == q[j];
    forall e | e in r && e.ticket == next + i ensures e == r[|q| + i] {
      var j :| 0 <= j < |r| && r[j] == e;
    }
  }

  lemma ScheduleCarries(s: State, c: int, jobs: seq<Job>, thread: int, i: nat)
    requires Inv(s) && i < |jobs| && Enabled(s, Schedule(c, jobs, thread))
    ensures Carries(Next(s, Schedule(c, jobs, thread)), s.next + i, jobs[i], thread)
  {
    TicketsBelow(s);
    hide Inv, Push;
    PushNames(s.queue, s.next, jobs, thread, i);
  }

  // Whatever happens after a schedule, the i-th job it names is never run as another one, and with
  // a thread given it is held by a worker of that thread only.
  lemma ScheduledStays(s: State, c: int, jobs: seq<Job>, thread: int, rest: seq<Step>, i: nat)
    requires Inv(s) && i < |jobs| && Enabled(s, Schedule(c, jobs, thread))
    requires Possible(Next(s, Schedule(c, jobs, thread)), rest)
    ensures var t := Run(Next(s, Schedule(c, jobs, thread)), rest);
      && (forall e :: e in t.queue && e.ticket == s.next + i ==> e.job == jobs[i] && e.thread == thread)
      && (forall w :: w in t.workers && w.phase.Holding? && w.phase.e.ticket == s.next + i ==>
            w.phase.e.job == jobs[i] && (thread == -1 || w.tid == thread))
  {
    var t := Next(s, Schedule(c, jobs, thread));
    ScheduleCarries(s, c, jobs, thread, i);
    RunCarries(t, rest, s.next + i, jobs[i], thread);
    hide Inv, Next, Enabled, Run, Possible;
  }
}
