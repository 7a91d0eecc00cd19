/** The queue of a Scheduler as an object: schedule, and the locked section of run. */
module SchedulerQueues {
  import opened Options
  import opened Schedulers
  import opened Sequences

  // The jobs that are there, in order.
  function Present(jobs: seq<Option<Job>>): seq<Job>
  {
    if jobs == [] then []
    else (if jobs[0].Some? then [jobs[0].value] else []) + Present(jobs[1..])
  }

  // Some entry before place n is pinned to another thread.
  predicate PassesOver(q: seq<Entry>, n: nat, tid: int)
  {
    exists j :: 0 <= j < n && j < |q| && Elsewhere(q[j], tid)
  }

  // The walk over the queue: up to the first entry that fits, noting those for other threads.
  method Scan(fibers: seq<Entry>, tid: int, exec: set<nat>) returns (it: nat, tickleMe: bool)
    ensures it == FirstFit(fibers, tid, exec)
    ensures tickleMe <==> PassesOver(fibers, it, tid)
  {
    it, tickleMe := 0, false;
    assert fibers[0..] == fibers;
    while it < |fibers|
      invariant it <= |fibers|
      invariant FirstFit(fibers, tid, exec) == it + FirstFit(fibers[it..], tid, exec)
      invariant tickleMe <==> PassesOver(fibers, it, tid)
    {
      var e := fibers[it];
      FirstFitNext(fibers, it, tid, exec);
      if e.thread != -1 && e.thread != tid {
        it := it + 1;
        tickleMe := true;
        continue;
      }
      if e.job.Coroutine? && e.job.id in exec {
        it := it + 1;
        continue;
      }
      break;
    }
  }

  class Queue {
    var fibers: seq<Entry>
    var active: int
    var autoStop: bool
    var stopFlag: bool
    // not in the program: numbers the pushes
    var next: nat

    constructor ()
      ensures fibers == [] && active == 0 && next == 0 && !autoStop && stopFlag
    {
      fibers, active, next, autoStop, stopFlag := [], 0, 0, false, true;
    }

    // Takes the job out of where it came from; an empty one is not queued.
    method ScheduleNoLock(job: Option<Job>, thread: int) returns (needTickle: bool)
      modifies `fibers, `next
      ensures needTickle == (old(fibers) == [])
      ensures fibers == Push(old(fibers), old(next), Present([job]), thread)
      ensures next == old(next) + |Present([job])|
      ensures job.None? ==> fibers == old(fibers) && next == old(next)
      ensures job.Some? ==> fibers == old(fibers) + [Entry(old(next), job.value, thread)] && next == old(next) + 1
    {
      needTickle := fibers == [];
      if job.Some? {
        fibers := fibers + [Entry(next, job.value, thread)];
        next := next + 1;
      }
    }

    // schedule(begin, end): the callers' callbacks are swapped out one by one.
    method ScheduleAll(jobs: array<Option<Job>>) returns (needTickle: bool)
      modifies `fibers, `next, jobs
      ensures forall i :: 0 <= i < jobs.Length ==> jobs[i].None?
      ensures fibers == Push(old(fibers), old(next), Present(old(jobs[..])), -1)
      ensures next == old(next) + |Present(old(jobs[..]))|
      ensures var js, n := Present(old(jobs[..])), |old(fibers)|;
        && |fibers| == n + |js| && fibers[..n] == old(fibers)
        && forall i :: 0 <= i < |js| ==> fibers[n + i] == Entry(old(next) + i, js[i], -1)
      ensures needTickle <==> old(fibers) == [] && jobs.Length > 0
    {
      needTickle := false;
      ghost var all := jobs[..];
      for i := 0 to jobs.Length
        invariant forall j :: 0 <= j < i ==> jobs[j].None?
        invariant forall j :: i <= j < jobs.Length ==> jobs[j] == all[j]
        invariant fibers == Push(old(fibers), old(next), Present(all[..i]), -1)
        invariant next == old(next) + |Present(all[..i])|
        invariant needTickle <==> old(fibers) == [] && i > 0
      {
        var job := jobs[i];
        jobs[i] := None;
        ghost var done := Present(all[..i]);
        var first := ScheduleNoLock(job, -1);
        needTickle := first || needTickle;
        assert all[..i + 1] == all[..i] + [job];
        PresentAppend(all[..i], [job]);
        PushAppend(old(fibers), old(next), done, Present([job]), -1);
      }
      assert all[..jobs.Length] == all;
    }

    // The locked section of run: ft is the entry taken, if any.
    method Take(tid: int, exec: set<nat>) returns (ft: Option<Entry>, tickleMe: bool)
      modifies `fibers, `active
      ensures var q := old(fibers);
        var i := FirstFit(q, tid, exec);
        && (i < |q| ==> ft == Some(q[i]) && fibers == Without(q, i) && active == old(active) + 1)
        && (i == |q| ==> ft == None && fibers == q && active == old(active))
        && (tickleMe <==> i + 1 < |q| || PassesOver(q, i, tid))
      ensures ft.Some? ==>
        && (ft.value.thread == -1 || ft.value.thread == tid)
        && (ft.value.job.Coroutine? ==> ft.value.job.id !in exec)
      ensures ft.None? ==> forall e :: e in fibers ==>
        (e.thread != -1 && e.thread != tid) || (e.job.Coroutine? && e.job.id in exec)
    {
      var it, passed := Scan(fibers, tid, exec);
      ft := None;
      tickleMe := passed || it + 1 < |fibers|;
      if it < |fibers| {
        ft := Some(fibers[it]);
        fibers := Without(fibers, it);
        active := active + 1;
      }
    }

    method Stopping() returns (r: bool)
      ensures r <==> autoStop && stopFlag && fibers == [] && active == 0
    {
      r := autoStop && stopFlag && fibers == [] && active == 0;
    }
  }

  lemma {:induction false} PresentAppend(a: seq<Option<Job>>, b: seq<Option<Job>>)
    ensures Present(a + b) == Present(a) + Present(b)
  {
    if a == [] {
      assert a + b == b && Present(a) == [];
    } else {
      assert (a + b)[1..] == a[1..] + b;
      PresentAppend(a[1..], b);
      var first := if a[0].Some? then [a[0].value] else [];
      hide Present;
      PresentFirst(a);
      PresentFirst(a + b);
      JoinAssoc(first, Present(a[1..]), Present(b));
    }
  }

  lemma PresentFirst(a: seq<Option<Job>>)
    requires a != []
    ensures Present(a) == (if a[0].Some? then [a[0].value] else []) + Present(a[1..])
  {
  }

  // With PresentAppend this says all there is about what a sequence of jobs leaves.
  lemma PresentOne(job: Option<Job>)
    ensures Present([]) == []
    ensures job.None? ==> Present([job]) == []
    ensures job.Some? ==> Present([job]) == [job.value]
  {
  }

  lemma PushAppend(q: seq<Entry>, next: nat, a: seq<Job>, b: seq<Job>, thread: int)
    ensures Push(Push(q, next, a, thread), next + |a|, b, thread) == Push(q, next, a + b, thread)
  {
  }

  lemma FirstFitNext(q: seq<Entry>, it: nat, tid: int, exec: set<nat>)
    requires it < |q|
    ensures FirstFit(q[it..], tid, exec) == if MayTake(q[it], tid, exec) then 0 else 1 + FirstFit(q[it + 1..], tid, exec)
  {
    assert q[it..][1..] == q[it + 1..];
  }
}
