/** Scheduler as a step system: each locked section of run, schedule and stopping is one step. */
module Schedulers {
  import opened Bags
  import opened Sequences

  datatype Job = Coroutine(id: nat) | Callback(id: nat)

  // FiberAndThread, with the number of the push that queued it; thread -1 is any thread.
  datatype Entry = Entry(ticket: nat, job: Job, thread: int)

  datatype FiberState = INIT | HOLD | EXEC | TERM | READY | EXCEPT

  // Where the loop of run is: before the locked section; with an entry in ft; after the
  // decrement, about to schedule a fiber that came back READY; in the idle fiber; out of the loop.
  datatype Phase = Looking | Holding(e: Entry) | Requeue(fiber: nat) | Idling | Gone

  datatype Worker = Worker(tid: int, phase: Phase, idleTerm: bool)

  // done is the history of tickets whose worker has let go of them.
  datatype State = State(queue: seq<Entry>, workers: seq<Worker>, active: int, idle: int,
                         autoStop: bool, stopFlag: bool, next: nat, done: multiset<nat>)

  /* ---------- the locked section of run ---------- */

  predicate Elsewhere(e: Entry, tid: int) { e.thread != -1 && e.thread != tid }

  predicate MayTake(e: Entry, tid: int, exec: set<nat>)
  {
    !Elsewhere(e, tid) && !(e.job.Coroutine? && e.job.id in exec)
  }

  // The place of the first entry this thread may take, or the length of the queue.
  function FirstFit(q: seq<Entry>, tid: int, exec: set<nat>): (i: nat)
    ensures i <= |q|
    ensures i < |q| ==> MayTake(q[i], tid, exec)
    ensures forall j :: 0 <= j < i ==> !MayTake(q[j], tid, exec)
  {
    if q == [] || MayTake(q[0], tid, exec) then 0 else 1 + FirstFit(q[1..], tid, exec)
  }

  /* ---------- schedule ---------- */

  // scheduleNoLock for each job in turn
  function Push(q: seq<Entry>, next: nat, jobs: seq<Job>, thread: int): seq<Entry>
  {
    q + seq(|jobs|, i requires 0 <= i < |jobs| => Entry(next + i, jobs[i], thread))
  }

  /* ---------- the steps ---------- */

  predicate Stopping(s: State) { s.autoStop && s.stopFlag && s.queue == [] && s.active == 0 }

  // caller: the worker whose job calls schedule, or -1 for a caller outside the scheduler.
  datatype Step =
    | Schedule(caller: int, jobs: seq<Job>, thread: int)
    | Look(w: nat, exec: set<nat>)
    | Leave(w: nat, found: FiberState, left: FiberState, fiber: nat)
    | Again(w: nat)
    | IdleTurn(w: nat)
    | Stop

  predicate Enabled(s: State, step: Step)
  {
    match step
    case Schedule(c, _, _) => c == -1 || (0 <= c < |s.workers| && s.workers[c].phase.Holding?)
    case Look(w, _) => w < |s.workers| && s.workers[w].phase.Looking?
    case Leave(w, _, _, _) => w < |s.workers| && s.workers[w].phase.Holding?
    case Again(w) => w < |s.workers| && s.workers[w].phase.Requeue?
    case IdleTurn(w) => w < |s.workers| && s.workers[w].phase.Idling?
    case Stop => true
  }

  function At(s: State, w: nat, p: Phase): seq<Worker>
    requires w < |s.workers|
  {
    s.workers[w := s.workers[w].(phase := p)]
  }

  // Whether the entry is run, by the state its fiber is found in; else it is dropped.
  predicate Runs(job: Job, found: FiberState)
  {
    job.Callback? || (found != TERM && found != EXCEPT)
  }

  // The fiber that goes back in the queue: the entry's own, or the one the callback ran in.
  function Comeback(job: Job, found: FiberState, left: FiberState, fiber: nat): Phase
  {
    if Runs(job, found) && left == READY then Requeue(if job.Coroutine? then job.id else fiber) else Looking
  }

  function Next(s: State, step: Step): (t: State)
    requires Enabled(s, step)
    ensures |t.workers| == |s.workers|
  {
    match step
    case Schedule(_, jobs, thread) =>
      s.(queue := Push(s.queue, s.next, jobs, thread), next := s.next + |jobs|)
    case Look(w, exec) =>
      var i := FirstFit(s.queue, s.workers[w].tid, exec);
      if i < |s.queue| then
        s.(queue := Without(s.queue, i), workers := At(s, w, Holding(s.queue[i])), active := s.active + 1)
      else if s.workers[w].idleTerm then s.(workers := At(s, w, Gone))
      else s.(workers := At(s, w, Idling), idle := s.idle + 1)
    case Leave(w, found, left, fiber) =>
      var e := s.workers[w].phase.e;
      s.(workers := At(s, w, Comeback(e.job, found, left, fiber)), active := s.active - 1, done := s.done + multiset{e.ticket})
    case Again(w) =>
      s.(queue := Push(s.queue, s.next, [Coroutine(s.workers[w].phase.fiber)], -1), workers := At(s, w, Looking), next := s.next + 1)
    case IdleTurn(w) =>
      var worker := s.workers[w];
      s.(workers := s.workers[w := Worker(worker.tid, Looking, worker.idleTerm || Stopping(s))], idle := s.idle - 1)
    case Stop => s.(autoStop := true, stopFlag := true)
  }

  // What a run may take: each step enabled where it comes.
  predicate Possible(s: State, steps: seq<Step>)
    decreases |steps|
  {
    steps == [] || (Enabled(s, steps[0]) && Possible(Next(s, steps[0]), steps[1..]))
  }

  function Run(s: State, steps: seq<Step>): State
    requires Possible(s, steps)
    decreases |steps|
  {
    if steps == [] then s else Run(Next(s, steps[0]), steps[1..])
  }

  /* ---------- every entry in one place ---------- */

  function Queued(e: Entry): multiset<nat> { multiset{e.ticket} }

  function Held(w: Worker): multiset<nat> { if w.phase.Holding? then multiset{w.phase.e.ticket} else multiset{} }

  function Idles(w: Worker): multiset<nat> { if w.phase.Idling? then multiset{0} else multiset{} }

  // Each ticket handed out, counted once for each place it is in.
  function Places(s: State): multiset<nat>
  {
    Sum(s.queue, Queued) + Sum(s.workers, Held) + s.done
  }

  // Each ticket handed out is in exactly one place, and no other is anywhere.
  ghost predicate OnePlace(s: State)
  {
    forall t: nat :: Places(s)[t] == if t < s.next then 1 else 0
  }

  predicate Counts(s: State)
  {
    s.active == |Sum(s.workers, Held)| && s.idle == |Sum(s.workers, Idles)|
  }

  // The queue is in the order of the pushes, and a pinned entry is only ever held by its thread.
  predicate Ordered(s: State)
  {
    && (forall i, j :: 0 <= i < j < |s.queue| ==> s.queue[i].ticket < s.queue[j].ticket)
    && (forall e :: e in s.queue ==> e.ticket < s.next)
    && (forall w :: w in s.workers && w.phase.Holding? ==> !Elsewhere(w.phase.e, w.tid))
  }

  ghost predicate Inv(s: State) { OnePlace(s) && Counts(s) && Ordered(s) }

  /* ---------- what each part of a step does to the sums ---------- */

  lemma {:induction false} QueueWithout(q: seq<Entry>, i: nat)
    requires i < |q|
    ensures Sum(q, Queued) == Sum(Without(q, i), Queued) + multiset{q[i].ticket}
  {
    var r := Without(q, i);
    if i == 0 {
      assert r == q[1..];
    } else {
      assert r[0] == q[0] && r[1..] == Without(q[1..], i - 1);
      QueueWithout(q[1..], i - 1);
    }
  }

  // A push hands out the next tickets, each once.
  lemma {:induction false} PushSum(q: seq<Entry>, next: nat, jobs: seq<Job>, thread: int, t: nat)
    ensures Sum(Push(q, next, jobs, thread), Queued)[t] == Sum(q, Queued)[t] + if next <= t < next + |jobs| then 1 else 0
    decreases |jobs|
  {
    hide Sum;
    if jobs == [] {
      assert Push(q, next, jobs, thread) == q;
    } else {
      var n := |jobs| - 1;
      var before, last := Push(q, next, jobs[..n], thread), Entry(next + n, jobs[n], thread);
      PushSum(q, next, jobs[..n], thread, t);
      assert Push(q, next, jobs, thread) == before + [last];
      SumAppend(before, [last], Queued);
      SumOne(last);
    }
  }

  lemma SumOne(e: Entry)
    ensures Sum([e], Queued) == multiset{e.ticket}
  {
  }

  // A worker moves on: its own part of each sum is exchanged.
  lemma WorkerMoves(ws: seq<Worker>, w: nat, v: Worker)
    requires w < |ws|
    ensures Sum(ws[w := v], Held) + Held(ws[w]) == Sum(ws, Held) + Held(v)
    ensures |Sum(ws[w := v], Held)| == |Sum(ws, Held)| + |Held(v)| - |Held(ws[w])|
    ensures |Sum(ws[w := v], Idles)| == |Sum(ws, Idles)| + |Idles(v)| - |Idles(ws[w])|
  {
    hide Sum;
    SumUpdate(ws, w, v, Held);
    SumUpdate(ws, w, v, Idles);
    assert |Sum(ws[w := v], Held) + Held(ws[w])| == |Sum(ws, Held) + Held(v)|;
    assert |Sum(ws[w := v], Idles) + Idles(ws[w])| == |Sum(ws, Idles) + Idles(v)|;
  }

  /* ---------- every step keeps the invariant ---------- */

  // One worker moves and the queue and the history follow: enough for the places and counts.
  lemma MoveKeeps(s: State, w: nat, v: Worker, t: State)
    requires OnePlace(s) && Counts(s) && w < |s.workers|
    requires t.workers == s.workers[w := v] && t.next == s.next
    requires Sum(t.queue, Queued) + Held(v) + t.done == Sum(s.queue, Queued) + Held(s.workers[w]) + s.done
    requires t.active == s.active + |Held(v)| - |Held(s.workers[w])|
    requires t.idle == s.idle + |Idles(v)| - |Idles(s.workers[w])|
    ensures OnePlace(t) && Counts(t)
  {
    hide Sum;
    WorkerMoves(s.workers, w, v);
    var q, q', b, b' := Sum(s.queue, Queued), Sum(t.queue, Queued), Sum(s.workers, Held), Sum(t.workers, Held);
    Exchanged(q, q', b, b', Held(s.workers[w]), Held(v), s.done, t.done);
    var p, p' := Places(s), Places(t);
    assert p == p';
    forall x: nat ensures p'[x] == if x < t.next then 1 else 0 { assert p[x] == if x < s.next then 1 else 0; }
  }

  lemma Exchanged(q: multiset<nat>, q': multiset<nat>, b: multiset<nat>, b': multiset<nat>, h: multiset<nat>, h': multiset<nat>, d: multiset<nat>, d': multiset<nat>)
    requires b' + h == b + h' && q' + h' + d' == q + h + d
    ensures q' + b' + d' == q + b + d
  {
    forall x | true ensures (q' + b' + d')[x] == (q + b + d)[x] {
      assert (b' + h)[x] == (b + h')[x] && (q' + h' + d')[x] == (q + h + d)[x];
    }
  }

  lemma ScheduleKeeps(s: State, jobs: seq<Job>, thread: int)
    requires Inv(s)
    ensures Inv(s.(queue := Push(s.queue, s.next, jobs, thread), next := s.next + |jobs|))
  {
    hide Sum;
    var t := s.(queue := Push(s.queue, s.next, jobs, thread), next := s.next + |jobs|);
    forall x: nat ensures Places(t)[x] == if x < t.next then 1 else 0 {
      PushSum(s.queue, s.next, jobs, thread, x);
      assert Places(s)[x] == if x < s.next then 1 else 0;
    }
    forall e | e in t.queue ensures e.ticket < t.next {
      var i :| 0 <= i < |t.queue| && t.queue[i] == e;
      if i < |s.queue| { assert e in s.queue; }
    }
    forall i, j | 0 <= i < j < |t.queue| ensures t.queue[i].ticket < t.queue[j].ticket {
      if i < |s.queue| { assert s.queue[i] in s.queue; }
    }
  }

  lemma WithoutOrdered(s: State, i: nat, w: nat, v: Worker)
    requires Ordered(s) && i < |s.queue| && w < |s.workers|
    requires v.phase.Holding? ==> !Elsewhere(v.phase.e, v.tid)
    ensures Ordered(s.(queue := Without(s.queue, i), workers := s.workers[w := v]))
    ensures Ordered(s.(workers := s.workers[w := v]))
  {
    var r := Without(s.queue, i);
    assert forall j :: 0 <= j < |r| ==> r[j] == s.queue[if j < i then j else j + 1];
    forall e | e in r ensures e in s.queue {
      var j :| 0 <= j < |r| && r[j] == e;
    }
  }

  lemma WorkerOrdered(s: State, w: nat, v: Worker)
    requires Ordered(s) && w < |s.workers|
    requires v.phase.Holding? ==> !Elsewhere(v.phase.e, v.tid)
    ensures Ordered(s.(workers := s.workers[w := v]))
  {
  }

  lemma LookKeeps(s: State, w: nat, exec: set<nat>)
    requires Inv(s) && Enabled(s, Look(w, exec))
    ensures Inv(Next(s, Look(w, exec)))
  {
    hide Inv, FirstFit;
    var t, worker := Next(s, Look(w, exec)), s.workers[w];
    var i := FirstFit(s.queue, worker.tid, exec);
    if i < |s.queue| {
      TakeKeeps(s, w, i, exec);
    } else {
      RestKeeps(s, w, t.workers[w], t);
    }
  }

  lemma TakeKeeps(s: State, w: nat, i: nat, exec: set<nat>)
    requires Inv(s) && w < |s.workers| && s.workers[w].phase.Looking?
    requires i < |s.queue| && MayTake(s.queue[i], s.workers[w].tid, exec)
    ensures Inv(s.(queue := Without(s.queue, i), workers := At(s, w, Holding(s.queue[i])), active := s.active + 1))
  {
    hide Sum, OnePlace, Counts, Ordered, Queued, Without;
    var t := s.(queue := Without(s.queue, i), workers := At(s, w, Holding(s.queue[i])), active := s.active + 1);
    QueueWithout(s.queue, i);
    WithoutOrdered(s, i, w, t.workers[w]);
    OrderedSame(s.(queue := Without(s.queue, i), workers := t.workers), t);
    MoveKeeps(s, w, t.workers[w], t);
  }

  lemma RestKeeps(s: State, w: nat, v: Worker, t: State)
    requires Inv(s) && w < |s.workers| && s.workers[w].phase.Looking? && !v.phase.Holding?
    requires t == s.(workers := s.workers[w := v], idle := s.idle + |Idles(v)|)
    ensures Inv(t)
  {
    hide Sum, OnePlace, Counts, Ordered, Queued;
    WorkerOrdered(s, w, v);
    OrderedSame(s.(workers := t.workers), t);
    MoveKeeps(s, w, v, t);
  }

  lemma OrderedSame(s: State, t: State)
    requires Ordered(s) && t.queue == s.queue && t.workers == s.workers && t.next == s.next
    ensures Ordered(t)
  {
  }

  // On every way out of the loop body the count goes down by the one it went up.
  lemma LeaveKeeps(s: State, step: Step)
    requires Inv(s) && step.Leave? && Enabled(s, step)
    ensures Inv(Next(s, step))
  {
    hide Sum, OnePlace, Counts, Ordered, Queued;
    var t := Next(s, step);
    MoveKeeps(s, step.w, t.workers[step.w], t);
    WorkerOrdered(s, step.w, t.workers[step.w]);
    OrderedSame(s.(workers := t.workers), t);
  }

  lemma StepKeeps(s: State, step: Step)
    requires Inv(s) && Enabled(s, step)
    ensures Inv(Next(s, step))
  {
    hide Sum, OnePlace, Counts, Ordered, Queued, Inv;
    match step
    case Schedule(_, jobs, thread) => ScheduleKeeps(s, jobs, thread);
    case Look(w, exec) => LookKeeps(s, w, exec);
    case Leave(_, _, _, _) => LeaveKeeps(s, step);
    case Again(w) =>
      SettleKeeps(s, w, Worker(s.workers[w].tid, Looking, s.workers[w].idleTerm), s.idle);
      var u := s.(workers := At(s, w, Looking));
      ScheduleKeeps(u, [Coroutine(s.workers[w].phase.fiber)], -1);
    case IdleTurn(w) =>
      var worker := s.workers[w];
      SettleKeeps(s, w, Worker(worker.tid, Looking, worker.idleTerm || Stopping(s)), s.idle - 1);
    case Stop => StopKeeps(s);
  }

  lemma SettleKeeps(s: State, w: nat, v: Worker, idle: int)
    requires Inv(s) && w < |s.workers| && v.phase == Looking && !s.workers[w].phase.Holding?
    requires idle == s.idle - |Idles(s.workers[w])|
    ensures Inv(s.(workers := s.workers[w := v], idle := idle))
  {
    hide Sum, OnePlace, Counts, Ordered, Queued;
    var t := s.(workers := s.workers[w := v], idle := idle);
    MoveKeeps(s, w, v, t);
    WorkerOrdered(s, w, v);
    OrderedSame(s.(workers := t.workers), t);
  }

  lemma StopKeeps(s: State)
    requires Inv(s)
    ensures Inv(Next(s, Stop))
  {
    assert Places(Next(s, Stop)) == Places(s);
  }

  lemma {:induction false} RunKeeps(s: State, steps: seq<Step>)
    requires Inv(s) && Possible(s, steps)
    ensures Inv(Run(s, steps))
    decreases |steps|
  {
    hide Inv, Next, Enabled;
    if steps != [] {
      StepKeeps(s, steps[0]);
      RunKeeps(Next(s, steps[0]), steps[1..]);
    }
  }

  function Initial(tids: seq<int>): State
  {
    State([], seq(|tids|, i requires 0 <= i < |tids| => Worker(tids[i], Looking, false)), 0, 0, false, false, 0, multiset{})
  }

  lemma InitialInv(tids: seq<int>)
    ensures Inv(Initial(tids))
  {
    SumNothing(Initial(tids).workers, Held);
    SumNothing(Initial(tids).workers, Idles);
  }

  /* ---------- what the invariant means ---------- */

  predicate HeldBy(s: State, w: nat, t: nat)
  {
    w < |s.workers| && s.workers[w].phase.Holding? && s.workers[w].phase.e.ticket == t
  }

  // Each ticket handed out is queued, held or finished; no two of these at once; and no two
  // workers hold the same one.
  lemma EachInOnePlace(s: State)
    requires Inv(s)
    ensures forall t: nat | t < s.next :: t in s.done || t in Sum(s.queue, Queued) || t in Sum(s.workers, Held)
    ensures forall i, w: nat, t :: 0 <= i < |s.queue| && s.queue[i].ticket == t ==> !HeldBy(s, w, t) && t !in s.done
    ensures forall w: nat, t :: HeldBy(s, w, t) ==> t !in s.done
    ensures forall v: nat, w: nat, t :: HeldBy(s, v, t) && HeldBy(s, w, t) ==> v == w
  {
    hide Sum;
    var q, b := Sum(s.queue, Queued), Sum(s.workers, Held);
    forall t: nat ensures q[t] + b[t] + s.done[t] == if t < s.next then 1 else 0 { assert Places(s)[t] == q[t] + b[t] + s.done[t]; }
    hide Inv;
    forall i, w: nat, t | 0 <= i < |s.queue| && s.queue[i].ticket == t ensures !HeldBy(s, w, t) && t !in s.done {
      SumHas(s.queue, i, t, Queued);
      if HeldBy(s, w, t) { SumHas(s.workers, w, t, Held); }
    }
    forall w: nat, t | HeldBy(s, w, t) ensures t !in s.done { SumHas(s.workers, w, t, Held); }
    forall v: nat, w: nat, t | HeldBy(s, v, t) && HeldBy(s, w, t) ensures v == w {
      if v != w { HeldTwice(s.workers, v, w, t); }
    }
  }

  lemma HeldTwice(ws: seq<Worker>, v: nat, w: nat, t: nat)
    requires v < |ws| && w < |ws| && v != w && t in Held(ws[v]) && t in Held(ws[w])
    ensures Sum(ws, Held)[t] >= 2
  {
    var idle := Worker(0, Looking, false);
    var us := ws[v := idle];
    WorkerMoves(ws, v, idle);
    SumHas(us, w, t, Held);
    var a, b := Sum(us, Held) + Held(ws[v]), Sum(ws, Held) + Held(idle);
    assert a == b && a[t] == b[t];
  }

  // A worker takes the oldest entry it may take, and nothing only when there is none.
  lemma OldestFirst(s: State, w: nat, exec: set<nat>)
    requires Inv(s) && Enabled(s, Look(w, exec))
    ensures var tid, p := s.workers[w].tid, Next(s, Look(w, exec)).workers[w].phase;
      if p.Holding? then
        p.e in s.queue && MayTake(p.e, tid, exec)
        && forall x :: x in s.queue && x.ticket < p.e.ticket ==> !MayTake(x, tid, exec)
      else forall x :: x in s.queue ==> !MayTake(x, tid, exec)
  {
    assert Ordered(s);
    hide FirstFit, MayTake, Inv, Next;
    LookTakes(s, w, exec);
    FirstFitOldest(s.queue, s.workers[w].tid, exec);
  }

  lemma LookTakes(s: State, w: nat, exec: set<nat>)
    requires Enabled(s, Look(w, exec))
    ensures var i, p := FirstFit(s.queue, s.workers[w].tid, exec), Next(s, Look(w, exec)).workers[w].phase;
      p == if i < |s.queue| then Holding(s.queue[i]) else if s.workers[w].idleTerm then Gone else Idling
  {
    hide FirstFit;
  }

  lemma FirstFitOldest(q: seq<Entry>, tid: int, exec: set<nat>)
    requires forall i, j :: 0 <= i < j < |q| ==> q[i].ticket < q[j].ticket
    ensures var i := FirstFit(q, tid, exec);
      forall x :: x in q && (i < |q| ==> x.ticket < q[i].ticket) ==> !MayTake(x, tid, exec)
  {
    hide FirstFit, MayTake;
    var i := FirstFit(q, tid, exec);
    forall x | x in q && (i < |q| ==> x.ticket < q[i].ticket) ensures !MayTake(x, tid, exec) {
      var j :| 0 <= j < |q| && q[j] == x;
    }
  }

  ghost predicate NoneHolds(s: State) { forall w :: w in s.workers ==> !w.phase.Holding? }

  ghost predicate NoneReturns(s: State) { forall w :: w in s.workers ==> !w.phase.Requeue? }

  // The count that stopping() reads is zero exactly when no worker holds an entry.
  lemma ActiveExactly(s: State)
    requires Inv(s)
    ensures s.active == 0 <==> NoneHolds(s)
  {
    if s.active == 0 {
      forall w | w in s.workers ensures !w.phase.Holding? {
        var i :| 0 <= i < |s.workers| && s.workers[i] == w;
        if w.phase.Holding? { SumHas(s.workers, i, w.phase.e.ticket, Held); }
      }
    } else {
      var t :| t in Sum(s.workers, Held);
      var i := SumFrom(s.workers, t, Held);
      assert s.workers[i] in s.workers;
    }
  }

  /* ---------- shutting down ---------- */

  predicate Closed(steps: seq<Step>) { forall i :: 0 <= i < |steps| ==> !(steps[i].Schedule? && steps[i].caller == -1) }

  // Stopped, with nobody about to schedule a fiber that came back READY.
  ghost predicate Finished(s: State) { Inv(s) && Stopping(s) && NoneReturns(s) }

  lemma FinishedStays(s: State, step: Step)
    requires Finished(s) && Enabled(s, step) && !(step.Schedule? && step.caller == -1)
    ensures Finished(Next(s, step)) && Next(s, step).next == s.next
  {
    hide Inv;
    StepKeeps(s, step);
    ActiveExactly(s);
    if step.Look? || step.IdleTurn? { WorkersFrom(s.workers, step.w, Next(s, step).workers); }
  }

  lemma WorkersFrom(ws: seq<Worker>, w: nat, us: seq<Worker>)
    requires w < |ws| && |us| == |ws| && us == ws[w := us[w]]
    ensures forall x :: x in us ==> x in ws || x == us[w]
  {
  }

  lemma {:induction false} RunFinishedStays(s: State, steps: seq<Step>)
    requires Finished(s) && Possible(s, steps) && Closed(steps)
    ensures Finished(Run(s, steps)) && Run(s, steps).next == s.next
    decreases |steps|
  {
    hide Finished, Next, Enabled;
    if steps != [] {
      FinishedStays(s, steps[0]);
      RunFinishedStays(Next(s, steps[0]), steps[1..]);
    }
  }

  // Once stopping() holds it holds for good, whatever the workers do, exactly when no worker is
  // between the decrement of the count and the schedule of a fiber that came back READY.
  lemma StoppingIsFinalExactly(s: State)
    requires Inv(s) && Stopping(s)
    ensures (forall steps :: Possible(s, steps) && Closed(steps) ==> Stopping(Run(s, steps))) <==> NoneReturns(s)
  {
    if NoneReturns(s) {
      forall steps | Possible(s, steps) && Closed(steps) ensures Stopping(Run(s, steps)) { RunFinishedStays(s, steps); }
    } else {
      var x :| x in s.workers && x.phase.Requeue?;
      var w: nat :| w < |s.workers| && s.workers[w] == x;
      var t := Next(s, Again(w));
      assert Possible(s, [Again(w)]) && Closed([Again(w)]) && Run(s, [Again(w)]) == t by { OneStep(s, Again(w)); }
      assert |t.queue| == 1;
    }
  }

  lemma OneStep(s: State, step: Step)
    requires Enabled(s, step)
    ensures Possible(s, [step]) && Run(s, [step]) == Next(s, step)
  {
    assert [step][1..] == [];
  }

  /* ---------- what a worker leaves behind ---------- */

  // No fiber yields READY, and nobody outside schedules once stop() has set its flags.
  predicate Polite(s: State, step: Step)
  {
    match step
    case Schedule(c, _, _) => c == -1 ==> !(s.autoStop && s.stopFlag)
    case Leave(_, _, left, _) => left != READY
    case _ => true
  }

  predicate AllPolite(s: State, steps: seq<Step>)
    requires Possible(s, steps)
    decreases |steps|
  {
    steps == [] || (Polite(s, steps[0]) && AllPolite(Next(s, steps[0]), steps[1..]))
  }

  // The idle fiber of a worker ends only when there is nothing left, and that stays so.
  ghost predicate Orderly(s: State)
  {
    && Inv(s) && NoneReturns(s)
    && forall w :: w in s.workers ==> (w.idleTerm ==> Stopping(s)) && (w.phase.Gone? ==> w.idleTerm)
  }

  lemma OrderlyStays(s: State, step: Step)
    requires Orderly(s) && Enabled(s, step) && Polite(s, step)
    ensures Orderly(Next(s, step))
  {
    hide Inv, Stopping, NoneReturns, FirstFit;
    StepKeeps(s, step);
    NoneReturn(s, step);
    if Stopping(s) { StoppingStays(s, step); }
    var t := Next(s, step);
    forall x | x in t.workers ensures (x.idleTerm ==> Stopping(s)) && (x.phase.Gone? ==> x.idleTerm) {
      var i :| 0 <= i < |t.workers| && t.workers[i] == x;
      assert s.workers[i] in s.workers;
    }
  }

  lemma StoppingStays(s: State, step: Step)
    requires Inv(s) && Stopping(s) && NoneReturns(s) && Enabled(s, step) && Polite(s, step)
    ensures Stopping(Next(s, step))
  {
    FinishedStays(s, step);
  }

  lemma NoneReturn(s: State, step: Step)
    requires NoneReturns(s) && Enabled(s, step) && Polite(s, step)
    ensures NoneReturns(Next(s, step))
  {
    hide FirstFit, Stopping;
    var t := Next(s, step);
    forall x | x in t.workers ensures !x.phase.Requeue? {
      var i :| 0 <= i < |t.workers| && t.workers[i] == x;
      assert s.workers[i] in s.workers;
    }
  }

  lemma {:induction false} RunOrderly(s: State, steps: seq<Step>)
    requires Orderly(s) && Possible(s, steps) && AllPolite(s, steps)
    ensures Orderly(Run(s, steps))
    decreases |steps|
  {
    hide Orderly, Next, Enabled, Polite;
    if steps != [] {
      OrderlyStays(s, steps[0]);
      RunOrderly(Next(s, steps[0]), steps[1..]);
    }
  }

  // When a worker has left its loop, nothing is queued and nobody holds anything.
  lemma NothingLeftBehind(tids: seq<int>, steps: seq<Step>)
    requires Possible(Initial(tids), steps) && AllPolite(Initial(tids), steps)
    ensures var t := Run(Initial(tids), steps);
      (exists w :: w in t.workers && w.phase.Gone?) ==> t.queue == [] && NoneHolds(t)
  {
    hide Inv;
    InitialInv(tids);
    RunOrderly(Initial(tids), steps);
    ActiveExactly(Run(Initial(tids), steps));
  }

  predicate ThreadGone(s: State, tid: int)
  {
    forall i :: 0 <= i < |s.workers| && s.workers[i].tid == tid ==> s.workers[i].phase.Gone?
  }

  // An entry pinned to a thread that has left stays queued for ever, and stopping() stays false.
  lemma {:induction false} PinnedStays(s: State, e: Entry, steps: seq<Step>)
    requires e in s.queue && e.thread != -1 && ThreadGone(s, e.thread) && Possible(s, steps)
    ensures e in Run(s, steps).queue && !Stopping(Run(s, steps))
    decreases |steps|
  {
    if steps != [] {
      PinnedStep(s, e, steps[0]);
      PinnedStays(Next(s, steps[0]), e, steps[1..]);
    }
  }

  lemma PinnedStep(s: State, e: Entry, step: Step)
    requires e in s.queue && e.thread != -1 && ThreadGone(s, e.thread) && Enabled(s, step)
    ensures e in Next(s, step).queue && ThreadGone(Next(s, step), e.thread)
  {
    hide FirstFit;
    if step.Look? {
      var i := FirstFit(s.queue, s.workers[step.w].tid, step.exec);
      if i < |s.queue| {
        assert s.queue[i] != e;
        var j :| 0 <= j < |s.queue| && s.queue[j] == e;
        assert Without(s.queue, i)[if j < i then j else j - 1] == e;
      }
    }
  }

  /* ---------- the window after the decrement ---------- */

  // Fiber 7 yields READY on worker 0. Before it is back in the queue, worker 1 sees stopping()
  // and leaves. Run again, the fiber schedules a callback pinned to worker 1.
  function Window(): seq<Step>
  {
    [Schedule(-1, [Coroutine(7)], -1), Look(0, {}), Stop, Leave(0, HOLD, READY, 7),
     Look(1, {}), IdleTurn(1), Look(1, {}), Again(0), Look(0, {}), Schedule(0, [Callback(8)], 2)]
  }

  lemma WindowStrands()
    ensures Possible(Initial([1, 2]), Window())
    ensures var t := Run(Initial([1, 2]), Window());
      t.queue == [Entry(2, Callback(8), 2)] && ThreadGone(t, 2)
  {
    hide Next, Enabled, Possible, Run;
    var s := WindowOpens();
    var s5, s6, s7 := WindowLeaves(s[4]);
    var s8, s9, s10 := WindowCloses(s7);
    StepByStep(s[0], Window(), s + [s5, s6, s7, s8, s9, s10]);
  }

  // Worker 0 holds fiber 7.
  function WindowHeld(): State
  {
    State([], [Worker(1, Holding(Entry(0, Coroutine(7), -1)), false), Worker(2, Looking, false)], 1, 0, false, false, 1, multiset{})
  }

  lemma WindowTakes() returns (s1: State)
    ensures Steps(Initial([1, 2]), Window()[0], s1) && Steps(s1, Window()[1], WindowHeld())
  {
    s1 := Next(Initial([1, 2]), Window()[0]);
    assert s1.queue == [Entry(0, Coroutine(7), -1)];
    var t := Next(s1, Window()[1]);
    assert t.queue == [] && t.workers == WindowHeld().workers;
  }

  // Up to the fourth step: worker 0 still has fiber 7 to schedule, and stopping() holds.
  lemma WindowOpens() returns (s: seq<State>)
    ensures |s| == 5 && s[0] == Initial([1, 2])
    ensures forall i :: 0 <= i < 4 ==> Steps(s[i], Window()[i], s[i + 1])
    ensures s[4] == State([], [Worker(1, Requeue(7), false), Worker(2, Looking, false)], 0, 0, true, true, 1, multiset{0})
  {
    var s0, s2 := Initial([1, 2]), WindowHeld();
    var s1 := WindowTakes();
    var s3 := Next(s2, Window()[2]);
    var s4 := Next(s3, Window()[3]);
    assert s4.workers == [Worker(1, Requeue(7), false), Worker(2, Looking, false)];
    s := [s0, s1, s2, s3, s4];
    hide Next, Enabled, Initial;
    assert Steps(s0, Window()[0], s1);
  }

  // Up to the seventh: worker 1 is gone.
  lemma WindowLeaves(s: State) returns (s5: State, s6: State, t: State)
    requires s == State([], [Worker(1, Requeue(7), false), Worker(2, Looking, false)], 0, 0, true, true, 1, multiset{0})
    ensures Steps(s, Window()[4], s5) && Steps(s5, Window()[5], s6) && Steps(s6, Window()[6], t)
    ensures t == State([], [Worker(1, Requeue(7), false), Worker(2, Gone, true)], 0, 0, true, true, 1, multiset{0})
  {
    s5 := Next(s, Window()[4]);
    s6 := Next(s5, Window()[5]);
    t := Next(s6, Window()[6]);
  }

  lemma WindowCloses(t: State) returns (s8: State, s9: State, s10: State)
    requires t == State([], [Worker(1, Requeue(7), false), Worker(2, Gone, true)], 0, 0, true, true, 1, multiset{0})
    ensures Steps(t, Window()[7], s8) && Steps(s8, Window()[8], s9) && Steps(s9, Window()[9], s10)
    ensures s10.queue == [Entry(2, Callback(8), 2)] && ThreadGone(s10, 2)
  {
    s8 := Next(t, Window()[7]);
    assert s8.queue == [Entry(1, Coroutine(7), -1)];
    s9 := Next(s8, Window()[8]);
    assert s9.queue == [];
    s10 := Next(s9, Window()[9]);
  }

  predicate Steps(s: State, step: Step, t: State) { Enabled(s, step) && t == Next(s, step) }

  lemma {:induction false} StepByStep(s: State, steps: seq<Step>, trace: seq<State>)
    requires |trace| == |steps| + 1 && trace[0] == s
    requires forall i :: 0 <= i < |steps| ==> Steps(trace[i], steps[i], trace[i + 1])
    ensures Possible(s, steps) && Run(s, steps) == trace[|steps|]
    decreases |steps|
  {
    hide Next, Enabled;
    if steps != [] {
      assert Steps(trace[0], steps[0], trace[1]);
      forall i | 0 <= i < |steps[1..]| ensures Steps(trace[1..][i], steps[1..][i], trace[1..][i + 1]) {
        assert Steps(trace[i + 1], steps[i + 1], trace[i + 2]);
      }
      StepByStep(trace[1], steps[1..], trace[1..]);
    }
  }
}
