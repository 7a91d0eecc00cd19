/** The event table of IOManager, one step for each locked section. */
module IoEvents {
  import opened Options
  import opened Bags

  datatype Event = READ | WRITE

  // What waits: a parked fiber or a callback, and the scheduler it goes back to.
  datatype Waiter = Parked(fiber: nat) | Callback(cb: nat)
  datatype Task = Task(scheduler: nat, waiter: Waiter)

  datatype EventContext = EventContext(scheduler: Option<nat>, fiber: Option<nat>, cb: Option<nat>)
  datatype FdContext = FdContext(read: EventContext, write: EventContext, events: set<Event>)

  // ctxs is m_fdContexts, pending m_pendingEventCount, kernel the interest list behind m_epfd,
  // scheduled the calls of Scheduler::schedule in order.
  datatype State = State(ctxs: seq<FdContext>, pending: int, kernel: map<nat, set<Event>>, scheduled: seq<Task>)

  // Abort: a failed assertion, or a null or out-of-range access.
  datatype Outcome = Next(s: State, rt: bool) | Abort

  const IDLE := EventContext(None, None, None)
  const FRESH := FdContext(IDLE, IDLE, {})

  function GetContext(c: FdContext, ev: Event): EventContext { if ev.READ? then c.read else c.write }

  function SetContext(c: FdContext, ev: Event, e: EventContext): FdContext
  {
    if ev.READ? then c.(read := e) else c.(write := e)
  }

  function ContextOf(t: Task): EventContext
  {
    match t.waiter
    case Parked(f) => EventContext(Some(t.scheduler), Some(f), None)
    case Callback(f) => EventContext(Some(t.scheduler), None, Some(f))
  }

  /* ---------- epoll_ctl ---------- */

  datatype CtlOp = ADD | MOD | DEL

  // None is an error return: the wrong operation for the kernel's list, or some other fault.
  function EpollCtl(kernel: map<nat, set<Event>>, op: CtlOp, fd: nat, mask: set<Event>, fault: bool): Option<map<nat, set<Event>>>
  {
    if fault || (op.ADD? <==> fd in kernel) then None
    else if op.DEL? then Some(kernel - {fd})
    else Some(kernel[fd := mask])
  }

  /* ---------- the operations ---------- */

  // contextResize
  function Resize(ctxs: seq<FdContext>, n: nat): (r: seq<FdContext>)
    ensures |r| == n
  {
    if n <= |ctxs| then ctxs[..n] else ctxs + seq(n - |ctxs|, _ => FRESH)
  }

  // FdContext::triggerEvent: the callback is swapped out if there is one, else the fiber.
  function TriggerFd(c: FdContext, ev: Event): Option<(FdContext, Task)>
  {
    var e := GetContext(c, ev);
    if ev !in c.events || e.scheduler.None? || (e.cb.None? && e.fiber.None?) then None
    else
      var w := if e.cb.Some? then Callback(e.cb.value) else Parked(e.fiber.value);
      var e' := EventContext(None, if e.cb.Some? then e.fiber else None, None);
      Some((SetContext(c, ev, e').(events := c.events - {ev}), Task(e.scheduler.value, w)))
  }

  // The trigger and the decrement that follows each one
  function Trigger(s: State, fd: nat, ev: Event): Option<State>
    requires fd < |s.ctxs|
  {
    match TriggerFd(s.ctxs[fd], ev)
    case None => None
    case Some((c, task)) => Some(State(s.ctxs[fd := c], s.pending - 1, s.kernel, s.scheduled + [task]))
  }

  function TriggerIf(s: State, fd: nat, ev: Event, really: bool): Option<State>
    requires fd < |s.ctxs|
  {
    if really then Trigger(s, fd, ev) else Some(s)
  }

  // The two conditional triggers, READ before WRITE.
  function TriggerBoth(s: State, fd: nat, evs: set<Event>): Option<State>
    requires fd < |s.ctxs|
  {
    match TriggerIf(s, fd, READ, READ in evs)
    case None => None
    case Some(t) => if fd < |t.ctxs| then TriggerIf(t, fd, WRITE, WRITE in evs) else None
  }

  function AddEvent(s: State, fd: nat, ev: Event, t: Task, fault: bool): Outcome
  {
    var ctxs := if |s.ctxs| > fd then s.ctxs else Resize(s.ctxs, fd * 3 / 2);
    if |ctxs| <= fd || ev in ctxs[fd].events then Abort
    else
      var c := ctxs[fd];
      match EpollCtl(s.kernel, if c.events != {} then MOD else ADD, fd, c.events + {ev}, fault)
      case None => Next(s.(ctxs := ctxs), false)
      case Some(k) =>
        if GetContext(c, ev) != IDLE then Abort
        else Next(State(ctxs[fd := SetContext(c, ev, ContextOf(t)).(events := c.events + {ev})], s.pending + 1, k, s.scheduled), true)
  }

  function DelEvent(s: State, fd: nat, ev: Event, fault: bool): Outcome
  {
    if |s.ctxs| <= fd || ev !in s.ctxs[fd].events then Next(s, false)
    else
      var c := s.ctxs[fd];
      var left := c.events - {ev};
      match EpollCtl(s.kernel, if left != {} then MOD else DEL, fd, left, fault)
      case None => Next(s, false)
      case Some(k) =>
        Next(State(s.ctxs[fd := SetContext(c, ev, IDLE).(events := left)], s.pending - 1, k, s.scheduled), true)
  }

  function CancelEvent(s: State, fd: nat, ev: Event, fault: bool): Outcome
  {
    if |s.ctxs| <= fd || ev !in s.ctxs[fd].events then Next(s, false)
    else
      var left := s.ctxs[fd].events - {ev};
      match EpollCtl(s.kernel, if left != {} then MOD else DEL, fd, left, fault)
      case None => Next(s, false)
      case Some(k) =>
        match Trigger(s.(kernel := k), fd, ev)
        case None => Abort
        case Some(t) => Next(t, true)
  }

  function CancelAll(s: State, fd: nat, fault: bool): Outcome
  {
    if |s.ctxs| <= fd || s.ctxs[fd].events == {} then Next(s, false)
    else
      match EpollCtl(s.kernel, DEL, fd, {}, fault)
      case None => Next(s, false)
      case Some(k) =>
        match TriggerBoth(s.(kernel := k), fd, s.ctxs[fd].events)
        case None => Abort
        case Some(t) => Next(t, true)
  }

  // One entry filled in by epoll_wait; err stands for EPOLLERR or EPOLLHUP.
  datatype Delivery = Delivery(fd: nat, bits: set<Event>, err: bool)

  // real_events: an error stands for everything that is waited for.
  function RealEvents(events: set<Event>, d: Delivery): set<Event>
  {
    if d.err then d.bits + events else d.bits
  }

  // One pass of the dispatch loop of idle()
  function Deliver(s: State, d: Delivery, fault: bool): Outcome
  {
    if |s.ctxs| <= d.fd then Abort
    else
      var events := s.ctxs[d.fd].events;
      var really := RealEvents(events, d);
      if events * really == {} then Next(s, false)
      else
        var left := events - really;
        match EpollCtl(s.kernel, if left != {} then MOD else DEL, d.fd, left, fault)
        case None => Next(s, false)
        case Some(k) =>
          match TriggerBoth(s.(kernel := k), d.fd, really)
          case None => Abort
          case Some(t) => Next(t, true)
  }

  datatype Op =
    | Add(fd: nat, ev: Event, task: Task, fault: bool)
    | Del(fd: nat, ev: Event, fault: bool)
    | Cancel(fd: nat, ev: Event, fault: bool)
    | All(fd: nat, fault: bool)
    | Dispatch(d: Delivery, fault: bool)

  function Step(s: State, op: Op): Outcome
  {
    match op
    case Add(fd, ev, t, fault) => AddEvent(s, fd, ev, t, fault)
    case Del(fd, ev, fault) => DelEvent(s, fd, ev, fault)
    case Cancel(fd, ev, fault) => CancelEvent(s, fd, ev, fault)
    case All(fd, fault) => CancelAll(s, fd, fault)
    case Dispatch(d, fault) => Deliver(s, d, fault)
  }

  /* ---------- the invariant ---------- */

  // A bit is set exactly when its context holds a scheduler and one of fiber and callback.
  predicate Held(c: FdContext, ev: Event)
  {
    var e := GetContext(c, ev);
    if ev in c.events then e.scheduler.Some? && e.fiber.Some? != e.cb.Some? else e == IDLE
  }

  predicate Good(c: FdContext) { Held(c, READ) && Held(c, WRITE) }

  function TaskOf(e: EventContext): Task
  {
    Task(if e.scheduler.Some? then e.scheduler.value else 0,
         if e.cb.Some? then Callback(e.cb.value) else if e.fiber.Some? then Parked(e.fiber.value) else Parked(0))
  }

  function WaitingFor(c: FdContext, ev: Event): multiset<Task>
  {
    if ev in c.events then multiset{TaskOf(GetContext(c, ev))} else multiset{}
  }

  function WaitingAt(c: FdContext): multiset<Task> { WaitingFor(c, READ) + WaitingFor(c, WRITE) }

  // Everything registered and not yet scheduled or deleted.
  function Waiting(ctxs: seq<FdContext>): multiset<Task>
  {
    Sum(ctxs, WaitingAt)
  }

  ghost predicate Contexts(s: State)
  {
    (forall c :: c in s.ctxs ==> Good(c)) && s.pending == |Waiting(s.ctxs)|
  }

  // The kernel listens for exactly the stored masks.
  ghost predicate KernelAgrees(ctxs: seq<FdContext>, kernel: map<nat, set<Event>>)
  {
    && (forall fd: nat :: fd in kernel <==> fd < |ctxs| && ctxs[fd].events != {})
    && (forall fd: nat :: fd in kernel ==> kernel[fd] == ctxs[fd].events)
  }

  ghost predicate Inv(s: State)
  {
    |s.ctxs| >= 32 && Contexts(s) && KernelAgrees(s.ctxs, s.kernel)
  }

  /* ---------- what is waiting ---------- */

  lemma WaitingUpdate(ctxs: seq<FdContext>, fd: nat, c: FdContext)
    requires fd < |ctxs|
    ensures Waiting(ctxs[fd := c]) + WaitingAt(ctxs[fd]) == Waiting(ctxs) + WaitingAt(c)
  {
    SumUpdate(ctxs, fd, c, WaitingAt);
  }

  lemma {:induction false} WaitingFresh(ctxs: seq<FdContext>, n: nat)
    requires n >= |ctxs|
    ensures Waiting(Resize(ctxs, n)) == Waiting(ctxs)
    decreases n
  {
    var r := Resize(ctxs, n);
    if ctxs == [] {
      if n > 0 {
        assert r[1..] == Resize([], n - 1);
        WaitingFresh([], n - 1);
      }
    } else {
      assert r[1..] == Resize(ctxs[1..], n - 1);
      WaitingFresh(ctxs[1..], n - 1);
    }
  }

  // From s to t, added came in and dropped went out, and every other waiter is still waiting or
  // has been scheduled.
  ghost predicate Conserves(s: State, t: State, added: multiset<Task>, dropped: multiset<Task>)
  {
    Waiting(t.ctxs) + multiset(t.scheduled) + dropped == Waiting(s.ctxs) + multiset(s.scheduled) + added
  }

  // t differs from s at fd only, where its mask is now events.
  ghost predicate At(s: State, t: State, fd: nat, events: set<Event>)
  {
    && |t.ctxs| == |s.ctxs| && fd < |s.ctxs|
    && t.ctxs[fd].events == events
    && t.ctxs == s.ctxs[fd := t.ctxs[fd]]
  }

  // Replacing one context, with the count moved by the difference.
  lemma PutKeeps(s: State, fd: nat, c: FdContext, t: State)
    requires Contexts(s) && fd < |s.ctxs| && Good(c)
    requires t.ctxs == s.ctxs[fd := c]
    requires t.pending - s.pending == |WaitingAt(c)| - |WaitingAt(s.ctxs[fd])|
    ensures Contexts(t)
  {
    hide Good, Waiting, WaitingAt;
    WaitingUpdate(s.ctxs, fd, c);
    assert |Waiting(t.ctxs)| + |WaitingAt(s.ctxs[fd])| == |Waiting(t.ctxs) + WaitingAt(s.ctxs[fd])|;
    assert |Waiting(s.ctxs)| + |WaitingAt(c)| == |Waiting(s.ctxs) + WaitingAt(c)|;
    forall x | x in t.ctxs ensures Good(x) {
      var i :| 0 <= i < |t.ctxs| && t.ctxs[i] == x;
      if i != fd { assert x == s.ctxs[i] && x in s.ctxs; }
    }
  }

  // From s to t the waiters of evs at fd went to their schedulers, and nothing else happened.
  ghost predicate Triggered(s: State, t: State, fd: nat, evs: set<Event>)
  {
    && fd < |s.ctxs| && At(s, t, fd, s.ctxs[fd].events - evs)
    && Contexts(t) && t.kernel == s.kernel && Conserves(s, t, multiset{}, multiset{})
  }

  // triggerEvent succeeds exactly on a set bit, and hands that bit's waiter to its scheduler.
  lemma TriggerExactly(s: State, fd: nat, ev: Event)
    requires Contexts(s) && fd < |s.ctxs|
    ensures Trigger(s, fd, ev).Some? <==> ev in s.ctxs[fd].events
    ensures Trigger(s, fd, ev).Some? ==> Triggered(s, Trigger(s, fd, ev).value, fd, {ev})
    ensures Trigger(s, fd, ev).Some? ==> Trigger(s, fd, ev).value.scheduled == s.scheduled + [TaskOf(GetContext(s.ctxs[fd], ev))]
  {
    hide Waiting, Contexts, WaitingAt, Conserves;
    GoodAt(s, fd);
    if ev in s.ctxs[fd].events {
      var t := Trigger(s, fd, ev).value;
      TriggerOne(s.ctxs[fd], ev, t.ctxs[fd]);
      PutKeeps(s, fd, t.ctxs[fd], t);
      TriggerConserves(s, fd, t.ctxs[fd], t, TaskOf(GetContext(s.ctxs[fd], ev)));
    }
  }

  lemma TriggerConserves(s: State, fd: nat, c: FdContext, t: State, task: Task)
    requires fd < |s.ctxs| && t.ctxs == s.ctxs[fd := c] && t.scheduled == s.scheduled + [task]
    requires WaitingAt(s.ctxs[fd]) == WaitingAt(c) + multiset{task}
    ensures Conserves(s, t, multiset{}, multiset{})
  {
    hide Waiting, WaitingAt;
    WaitingUpdate(s.ctxs, fd, c);
    ScheduledOne(s.scheduled, task);
    Moved(Waiting(s.ctxs), Waiting(t.ctxs), WaitingAt(s.ctxs[fd]), WaitingAt(c), multiset{task});
  }

  lemma GoodAt(s: State, fd: nat)
    requires Contexts(s) && fd < |s.ctxs|
    ensures Good(s.ctxs[fd])
  {
    assert s.ctxs[fd] in s.ctxs;
  }

  lemma TriggerOne(c: FdContext, ev: Event, d: FdContext)
    requires Good(c) && ev in c.events && d == SetContext(c, ev, IDLE).(events := c.events - {ev})
    ensures Good(d)
    ensures WaitingAt(c) == WaitingAt(d) + multiset{TaskOf(GetContext(c, ev))}
    ensures |WaitingAt(c)| == |WaitingAt(d)| + 1
  {
    hide TaskOf;
    var other := if ev == READ then WRITE else READ;
    assert WaitingFor(d, ev) == multiset{} && WaitingFor(d, other) == WaitingFor(c, other);
    assert WaitingAt(c) == WaitingFor(c, other) + multiset{TaskOf(GetContext(c, ev))};
    assert WaitingAt(d) == WaitingFor(c, other);
  }

  lemma ScheduledOne(q: seq<Task>, t: Task)
    ensures multiset(q + [t]) == multiset(q) + multiset{t}
  {
  }

  lemma EventSets(a: set<Event>, b: set<Event>)
    ensures a <= b <==> (READ in a ==> READ in b) && (WRITE in a ==> WRITE in b)
  {
    forall e | e in a && e !in b ensures (e == READ && READ in a) || (e == WRITE && WRITE in a) {}
  }

  lemma TriggerBothExactly(s: State, fd: nat, evs: set<Event>)
    requires Contexts(s) && fd < |s.ctxs|
    ensures TriggerBoth(s, fd, evs).Some? <==> evs <= s.ctxs[fd].events
    ensures TriggerBoth(s, fd, evs).Some? ==> Triggered(s, TriggerBoth(s, fd, evs).value, fd, evs)
  {
    hide Trigger, Waiting, Contexts;
    var events := s.ctxs[fd].events;
    EventSets(evs, events);
    TriggerExactly(s, fd, READ);
    var r := TriggerIf(s, fd, READ, READ in evs);
    if r.Some? {
      TriggerExactly(r.value, fd, WRITE);
      if TriggerBoth(s, fd, evs).Some? {
        var t := TriggerBoth(s, fd, evs).value;
        EventSets(t.ctxs[fd].events, events - evs);
        EventSets(events - evs, t.ctxs[fd].events);
      }
    }
  }

  /* ---------- each operation ---------- */

  lemma KernelPut(ctxs: seq<FdContext>, kernel: map<nat, set<Event>>, fd: nat, c: FdContext)
    requires KernelAgrees(ctxs, kernel) && fd < |ctxs|
    ensures KernelAgrees(ctxs[fd := c], if c.events == {} then kernel - {fd} else kernel[fd := c.events])
  {
  }

  lemma KernelFresh(ctxs: seq<FdContext>, kernel: map<nat, set<Event>>, n: nat)
    requires KernelAgrees(ctxs, kernel) && n >= |ctxs|
    ensures KernelAgrees(Resize(ctxs, n), kernel)
  {
  }

  // The operation that addEvent, delEvent, cancelEvent, cancelAll and idle pick from the mask
  // before and after is never the wrong one.
  lemma CtlLegal(ctxs: seq<FdContext>, kernel: map<nat, set<Event>>, fd: nat, mask: set<Event>, fault: bool)
    requires KernelAgrees(ctxs, kernel) && fd < |ctxs| && (ctxs[fd].events != {} || mask != {})
    ensures var op := if ctxs[fd].events == {} then ADD else if mask != {} then MOD else DEL;
      EpollCtl(kernel, op, fd, mask, fault)
      == if fault then None else Some(if mask == {} then kernel - {fd} else kernel[fd := mask])
  {
  }

  function Size(s: State, fd: nat): nat { if |s.ctxs| > fd then |s.ctxs| else fd * 3 / 2 }

  lemma Grown(s: State, fd: nat)
    requires Inv(s)
    ensures fd < Size(s, fd) && |s.ctxs| <= Size(s, fd)
    ensures var t := s.(ctxs := Resize(s.ctxs, Size(s, fd)));
      Inv(t) && Waiting(t.ctxs) == Waiting(s.ctxs)
    ensures fd < |s.ctxs| ==> Resize(s.ctxs, Size(s, fd)) == s.ctxs
    ensures fd >= |s.ctxs| ==> Resize(s.ctxs, Size(s, fd))[fd] == FRESH
  {
    hide Good, Waiting;
    WaitingFresh(s.ctxs, Size(s, fd));
    KernelFresh(s.ctxs, s.kernel, Size(s, fd));
    var r := Resize(s.ctxs, Size(s, fd));
    forall c | c in r ensures Good(c) {
      var i :| 0 <= i < |r| && r[i] == c;
      if i < |s.ctxs| { assert c in s.ctxs; } else { assert c == FRESH; FreshGood(); }
    }
  }

  lemma FreshGood()
    ensures Good(FRESH) && WaitingAt(FRESH) == multiset{}
  {
  }

  predicate Set(s: State, fd: nat, ev: Event) { fd < |s.ctxs| && ev in s.ctxs[fd].events }

  // addEvent aborts exactly on an event that is already waited for, fails exactly on a fault, and
  // otherwise registers the task and nothing else.
  lemma AddExactly(s: State, fd: nat, ev: Event, task: Task, fault: bool)
    requires Inv(s)
    ensures AddEvent(s, fd, ev, task, fault).Abort? <==> Set(s, fd, ev)
    ensures match AddEvent(s, fd, ev, task, fault) {
      case Abort => true
      case Next(t, rt) =>
        && Inv(t) && (rt <==> !fault) && t.scheduled == s.scheduled
        && Conserves(s, t, if rt then multiset{task} else multiset{}, multiset{})
        && var grown := s.(ctxs := Resize(s.ctxs, Size(s, fd)));
        && (!rt ==> t == grown)
        && (rt ==> fd < |grown.ctxs| && At(grown, t, fd, grown.ctxs[fd].events + {ev}))
        && (rt ==> Set(t, fd, ev) && GetContext(t.ctxs[fd], ev) == ContextOf(task)) }
  {
    hide Contexts, KernelAgrees, Waiting, WaitingAt, Good;
    Grown(s, fd);
    var u := s.(ctxs := Resize(s.ctxs, Size(s, fd)));
    if !Set(s, fd, ev) {
      var c := u.ctxs[fd];
      var mask := c.events + {ev};
      CtlLegal(u.ctxs, u.kernel, fd, mask, fault);
      GoodAt(u, fd);
      var d := SetContext(c, ev, ContextOf(task)).(events := mask);
      AddOne(c, ev, task, d);
      if !fault {
        var t := AddEvent(s, fd, ev, task, fault).s;
        PutKeeps(u, fd, d, t);
        KernelPut(u.ctxs, u.kernel, fd, d);
        WaitingUpdate(u.ctxs, fd, d);
        Moved(Waiting(t.ctxs), Waiting(u.ctxs), WaitingAt(d), WaitingAt(c), multiset{task});
      }
    }
  }

  lemma AddOne(c: FdContext, ev: Event, task: Task, d: FdContext)
    requires Good(c) && ev !in c.events && d == SetContext(c, ev, ContextOf(task)).(events := c.events + {ev})
    ensures GetContext(c, ev) == IDLE && Good(d)
    ensures WaitingAt(d) == WaitingAt(c) + multiset{task}
    ensures |WaitingAt(d)| == |WaitingAt(c)| + 1
  {
    hide WaitingAt;
    assert TaskOf(ContextOf(task)) == task;
    assert d.events - {ev} == c.events;
    TriggerOne(d, ev, c);
  }

  // delEvent drops the waiter without scheduling it.
  lemma DelExactly(s: State, fd: nat, ev: Event, fault: bool)
    requires Inv(s)
    ensures match DelEvent(s, fd, ev, fault) {
      case Abort => false
      case Next(t, rt) =>
        && Inv(t) && (rt <==> Set(s, fd, ev) && !fault) && t.scheduled == s.scheduled && (!rt ==> t == s)
        && (rt ==> At(s, t, fd, s.ctxs[fd].events - {ev}))
        && Conserves(s, t, multiset{}, if rt then multiset{TaskOf(GetContext(s.ctxs[fd], ev))} else multiset{}) }
  {
    hide Contexts, KernelAgrees, Waiting, WaitingAt, Good;
    if Set(s, fd, ev) {
      var c := s.ctxs[fd];
      var left := c.events - {ev};
      CtlLegal(s.ctxs, s.kernel, fd, left, fault);
      GoodAt(s, fd);
      if !fault {
        var t := DelEvent(s, fd, ev, fault).s;
        var d := t.ctxs[fd];
        var task := TaskOf(GetContext(c, ev));
        TriggerOne(c, ev, d);
        PutKeeps(s, fd, d, t);
        KernelPut(s.ctxs, s.kernel, fd, d);
        WaitingUpdate(s.ctxs, fd, d);
        Moved(Waiting(s.ctxs), Waiting(t.ctxs), WaitingAt(c), WaitingAt(d), multiset{task});
      }
    }
  }

  // cancelEvent schedules exactly the waiter of that event.
  lemma CancelExactly(s: State, fd: nat, ev: Event, fault: bool)
    requires Inv(s)
    ensures match CancelEvent(s, fd, ev, fault) {
      case Abort => false
      case Next(t, rt) =>
        && Inv(t) && (rt <==> Set(s, fd, ev) && !fault) && (!rt ==> t == s)
        && Conserves(s, t, multiset{}, multiset{})
        && (rt ==> At(s, t, fd, s.ctxs[fd].events - {ev}))
        && (rt ==> t.scheduled == s.scheduled + [TaskOf(GetContext(s.ctxs[fd], ev))]) }
  {
    hide KernelAgrees, Waiting, Good, Trigger;
    if Set(s, fd, ev) {
      var left := s.ctxs[fd].events - {ev};
      CtlLegal(s.ctxs, s.kernel, fd, left, fault);
      if !fault {
        var u := s.(kernel := if left == {} then s.kernel - {fd} else s.kernel[fd := left]);
        TriggerExactly(u, fd, ev);
        KernelPut(s.ctxs, s.kernel, fd, Trigger(u, fd, ev).value.ctxs[fd]);
      }
    }
  }

  // cancelAll leaves nothing waiting at fd.
  lemma CancelAllExactly(s: State, fd: nat, fault: bool)
    requires Inv(s)
    ensures match CancelAll(s, fd, fault) {
      case Abort => false
      case Next(t, rt) =>
        && Inv(t) && (rt <==> (Set(s, fd, READ) || Set(s, fd, WRITE)) && !fault) && (!rt ==> t == s)
        && Conserves(s, t, multiset{}, multiset{})
        && (rt ==> At(s, t, fd, {})) }
  {
    hide KernelAgrees, Waiting, Good, TriggerBoth;
    if fd < |s.ctxs| {
      MaskHas(s, fd);
      if s.ctxs[fd].events != {} {
        CtlLegal(s.ctxs, s.kernel, fd, {}, fault);
        if !fault {
          var u := s.(kernel := s.kernel - {fd});
          TriggerBothExactly(u, fd, s.ctxs[fd].events);
          KernelPut(s.ctxs, s.kernel, fd, TriggerBoth(u, fd, s.ctxs[fd].events).value.ctxs[fd]);
        }
      }
    }
  }

  predicate Ready(s: State, d: Delivery)
  {
    d.fd < |s.ctxs| && s.ctxs[d.fd].events * RealEvents(s.ctxs[d.fd].events, d) != {}
  }

  // A delivery aborts exactly when it is for some of what waits and for something that does not.
  predicate Straddles(s: State, d: Delivery)
  {
    Ready(s, d) && !(d.bits <= s.ctxs[d.fd].events)
  }

  lemma DeliverExactly(s: State, d: Delivery, fault: bool)
    requires Inv(s) && d.fd < |s.ctxs|
    ensures Deliver(s, d, fault).Abort? <==> Straddles(s, d) && !fault
    ensures match Deliver(s, d, fault) {
      case Abort => true
      case Next(t, rt) =>
        && Inv(t) && (rt <==> Ready(s, d) && !fault) && (!rt ==> t == s)
        && Conserves(s, t, multiset{}, multiset{})
        && (rt ==> At(s, t, d.fd, s.ctxs[d.fd].events - RealEvents(s.ctxs[d.fd].events, d))) }
  {
    hide KernelAgrees, Waiting, Good, TriggerBoth;
    var fd, events := d.fd, s.ctxs[d.fd].events;
    var really := RealEvents(events, d);
    if events * really != {} {
      var left := events - really;
      CtlLegal(s.ctxs, s.kernel, fd, left, fault);
      if !fault {
        var u := s.(kernel := if left == {} then s.kernel - {fd} else s.kernel[fd := left]);
        TriggerBothExactly(u, fd, really);
        if TriggerBoth(u, fd, really).Some? {
          KernelPut(s.ctxs, s.kernel, fd, TriggerBoth(u, fd, really).value.ctxs[fd]);
        }
      }
    }
  }

  /* ---------- whole runs ---------- */

  // The calls that end the program: registering an event twice, and a delivery that straddles
  // what waits (or names no context at all).
  predicate Aborts(s: State, op: Op)
  {
    match op
    case Add(fd, ev, _, _) => Set(s, fd, ev)
    case Dispatch(d, fault) => d.fd >= |s.ctxs| || (Straddles(s, d) && !fault)
    case _ => false
  }

  function Added(op: Op): multiset<Task>
  {
    if op.Add? && !op.fault then multiset{op.task} else multiset{}
  }

  function Dropped(s: State, op: Op): multiset<Task>
  {
    if op.Del? && !op.fault && Set(s, op.fd, op.ev) then multiset{TaskOf(GetContext(s.ctxs[op.fd], op.ev))}
    else multiset{}
  }

  lemma StepExactly(s: State, op: Op)
    requires Inv(s)
    ensures Step(s, op).Abort? <==> Aborts(s, op)
    ensures Step(s, op).Next? ==> Inv(Step(s, op).s) && Conserves(s, Step(s, op).s, Added(op), Dropped(s, op))
  {
    hide Inv, Conserves, AddEvent, DelEvent, CancelEvent, CancelAll, Straddles, Set;
    match op
    case Add(fd, ev, t, fault) => AddExactly(s, fd, ev, t, fault);
    case Del(fd, ev, fault) => DelExactly(s, fd, ev, fault);
    case Cancel(fd, ev, fault) => CancelExactly(s, fd, ev, fault);
    case All(fd, fault) => CancelAllExactly(s, fd, fault);
    case Dispatch(d, fault) => if d.fd < |s.ctxs| { DeliverExactly(s, d, fault); }
  }

  function Run(s: State, ops: seq<Op>): Outcome
    decreases |ops|
  {
    if ops == [] then Next(s, true)
    else match Step(s, ops[0])
      case Abort => Abort
      case Next(t, _) => Run(t, ops[1..])
  }

  function RunAdded(ops: seq<Op>): multiset<Task>
  {
    if ops == [] then multiset{} else Added(ops[0]) + RunAdded(ops[1..])
  }

  function RunDropped(s: State, ops: seq<Op>): multiset<Task>
    decreases |ops|
  {
    if ops == [] then multiset{}
    else match Step(s, ops[0])
      case Abort => multiset{}
      case Next(t, _) => Dropped(s, ops[0]) + RunDropped(t, ops[1..])
  }

  lemma ConservesJoin(s: State, t: State, u: State, a: multiset<Task>, b: multiset<Task>, c: multiset<Task>, d: multiset<Task>)
    requires Conserves(s, t, a, b) && Conserves(t, u, c, d)
    ensures Conserves(s, u, a + c, b + d)
  {
    var x, y, z := Waiting(s.ctxs) + multiset(s.scheduled), Waiting(t.ctxs) + multiset(t.scheduled), Waiting(u.ctxs) + multiset(u.scheduled);
    forall e | true ensures (z + (b + d))[e] == (x + (a + c))[e] {
      assert (y + b)[e] == (x + a)[e] && (z + d)[e] == (y + c)[e];
    }
  }

  // Over every run that does not abort the invariant holds, and what was registered is what was
  // scheduled, plus what was deleted, plus what still waits.
  lemma {:induction false} RunKeeps(s: State, ops: seq<Op>)
    requires Inv(s) && Run(s, ops).Next?
    ensures Inv(Run(s, ops).s) && Conserves(s, Run(s, ops).s, RunAdded(ops), RunDropped(s, ops))
    decreases |ops|
  {
    hide Inv, Conserves, Step, Added, Dropped;
    if ops == [] {
      ConservesSelf(s);
    } else {
      StepExactly(s, ops[0]);
      var t := Step(s, ops[0]).s;
      RunKeeps(t, ops[1..]);
      ConservesJoin(s, t, Run(t, ops[1..]).s, Added(ops[0]), Dropped(s, ops[0]), RunAdded(ops[1..]), RunDropped(t, ops[1..]));
    }
  }

  lemma ConservesSelf(s: State)
    ensures Conserves(s, s, multiset{}, multiset{})
  {
  }

  function Initial(): State { State(seq(32, _ => FRESH), 0, map[], []) }

  lemma InitialInv()
    ensures Inv(Initial()) && Waiting(Initial().ctxs) == multiset{}
  {
    hide Waiting;
    assert Initial().ctxs == Resize([], 32);
    WaitingFresh([], 32);
    assert Waiting([]) == multiset{} by { WaitingNothing(); }
  }

  lemma WaitingNothing()
    ensures Waiting([]) == multiset{}
  {
  }

  lemma {:induction false} Conservation(ops: seq<Op>)
    requires Run(Initial(), ops).Next?
    ensures var t := Run(Initial(), ops).s;
      && Inv(t)
      && RunAdded(ops) == multiset(t.scheduled) + RunDropped(Initial(), ops) + Waiting(t.ctxs)
      && t.pending == |Waiting(t.ctxs)|
  {
    hide Waiting, Good, KernelAgrees, Run, RunAdded, RunDropped;
    InitialInv();
    RunKeeps(Initial(), ops);
    var t, d := Run(Initial(), ops).s, RunDropped(Initial(), ops);
    assert Initial().scheduled == [];
    forall x | true ensures RunAdded(ops)[x] == (multiset(t.scheduled) + d + Waiting(t.ctxs))[x] {
      assert (Waiting(t.ctxs) + multiset(t.scheduled) + d)[x] == (multiset{} + multiset([]) + RunAdded(ops))[x];
    }
  }

  // The count is zero exactly when no bit is set, and then the kernel listens for nothing: the
  // test by which stopping() lets the idle fiber leave.
  lemma NothingPendingExactly(s: State)
    requires Inv(s)
    ensures s.pending == 0 <==> s.kernel == map[]
    ensures s.pending == 0 <==> forall fd: nat, ev :: !Set(s, fd, ev)
  {
    hide Good;
    if s.pending == 0 {
      forall fd: nat, ev | Set(s, fd, ev) ensures false {
        SumHas(s.ctxs, fd, TaskOf(GetContext(s.ctxs[fd], ev)), WaitingAt);
      }
      forall fd: nat | fd in s.kernel ensures false { MaskHas(s, fd); }
    } else {
      var task :| task in Waiting(s.ctxs);
      var fd := SumFrom(s.ctxs, task, WaitingAt);
      MaskHas(s, fd);
      assert fd in s.kernel;
    }
  }

  lemma MaskHas(s: State, fd: nat)
    requires fd < |s.ctxs|
    ensures s.ctxs[fd].events != {} <==> Set(s, fd, READ) || Set(s, fd, WRITE)
  {
    EventSets(s.ctxs[fd].events, {});
  }

  /* ---------- one batch of deliveries ---------- */

  // What epoll_wait reports of a descriptor lies inside the mask the kernel holds for it.
  predicate Inside(s: State, d: Delivery)
  {
    d.fd in s.kernel && d.bits <= s.kernel[d.fd]
  }

  predicate FromOneWait(s: State, ds: seq<Delivery>)
  {
    && (forall d :: d in ds ==> Inside(s, d))
    && (forall i, j :: 0 <= i < j < |ds| ==> ds[i].fd != ds[j].fd)
  }

  function Batch(ds: seq<Delivery>, faults: seq<bool>): seq<Op>
    requires |ds| == |faults|
  {
    if ds == [] then [] else [Dispatch(ds[0], faults[0])] + Batch(ds[1..], faults[1..])
  }

  // With no call in between, a batch never aborts, and every event it delivers is taken off the
  // mask of its descriptor unless epoll_ctl failed for that one.
  lemma {:induction false} BatchNeverAborts(s: State, ds: seq<Delivery>, faults: seq<bool>)
    requires Inv(s) && FromOneWait(s, ds) && |ds| == |faults|
    ensures Run(s, Batch(ds, faults)).Next?
    ensures var t := Run(s, Batch(ds, faults)).s;
      && |t.ctxs| == |s.ctxs|
      && (forall fd: nat :: fd < |s.ctxs| && (forall d :: d in ds ==> d.fd != fd) ==> t.ctxs[fd] == s.ctxs[fd])
      && (forall i :: 0 <= i < |ds| && !faults[i] ==> ds[i].fd < |t.ctxs| && ds[i].bits !! t.ctxs[ds[i].fd].events)
    decreases |ds|
  {
    hide Inv, FromOneWait, Deliver;
    if ds != [] {
      BatchStep(s, ds, faults[0]);
      var t := Deliver(s, ds[0], faults[0]).s;
      var ops := Batch(ds, faults);
      assert ops[0] == Dispatch(ds[0], faults[0]) && ops[1..] == Batch(ds[1..], faults[1..]);
      BatchNeverAborts(t, ds[1..], faults[1..]);
      var u := Run(s, ops).s;
      assert u == Run(t, ops[1..]).s;
      forall fd: nat | fd < |s.ctxs| && (forall d :: d in ds ==> d.fd != fd) ensures u.ctxs[fd] == s.ctxs[fd] {
        assert ds[0] in ds && forall d :: d in ds[1..] ==> d in ds;
      }
      assert u.ctxs[ds[0].fd] == t.ctxs[ds[0].fd];
      forall i | 0 <= i < |ds| && !faults[i] ensures ds[i].fd < |u.ctxs| && ds[i].bits !! u.ctxs[ds[i].fd].events {
        if i > 0 { assert ds[i] == ds[1..][i - 1] && faults[i] == faults[1..][i - 1]; }
      }
    }
  }

  lemma BatchStep(s: State, ds: seq<Delivery>, fault: bool)
    requires Inv(s) && FromOneWait(s, ds) && ds != []
    ensures Deliver(s, ds[0], fault).Next?
    ensures var t, fd := Deliver(s, ds[0], fault).s, ds[0].fd;
      && Inv(t) && FromOneWait(t, ds[1..]) && fd < |s.ctxs| == |t.ctxs|
      && (forall f: nat :: f < |s.ctxs| && f != fd ==> t.ctxs[f] == s.ctxs[f])
      && (!fault ==> ds[0].bits !! t.ctxs[fd].events)
      && (forall d :: d in ds[1..] ==> d.fd != fd)
  {
    hide Contexts, Deliver, KernelAgrees;
    assert ds[0] in ds;
    InsideNeverAborts(s, ds[0], fault);
    var t := Deliver(s, ds[0], fault).s;
    forall e | e in ds[1..] ensures Inside(t, e) && e.fd != ds[0].fd {
      var i :| 0 <= i < |ds[1..]| && ds[1..][i] == e;
      assert ds[i + 1] == e && e in ds;
      StillInside(s, t, e);
    }
  }

  lemma StillInside(s: State, t: State, e: Delivery)
    requires KernelAgrees(s.ctxs, s.kernel) && KernelAgrees(t.ctxs, t.kernel) && Inside(s, e)
    requires |t.ctxs| == |s.ctxs| && (e.fd < |s.ctxs| ==> t.ctxs[e.fd] == s.ctxs[e.fd])
    ensures Inside(t, e)
  {
  }

  // A delivery inside the kernel's mask never aborts, changes its own descriptor only, and leaves
  // nothing of what it delivered.
  lemma InsideNeverAborts(s: State, d: Delivery, fault: bool)
    requires Inv(s) && Inside(s, d)
    ensures Deliver(s, d, fault).Next?
    ensures var t := Deliver(s, d, fault).s;
      && Inv(t) && d.fd < |s.ctxs| == |t.ctxs|
      && (forall f: nat :: f < |s.ctxs| && f != d.fd ==> t.ctxs[f] == s.ctxs[f])
      && (!fault ==> d.bits !! t.ctxs[d.fd].events)
  {
    hide Contexts, Deliver;
    DeliverExactly(s, d, fault);
    var t, events := Deliver(s, d, fault).s, s.ctxs[d.fd].events;
    forall e | e in d.bits && !fault ensures e !in t.ctxs[d.fd].events {
      assert e in RealEvents(events, d);
      if e in events { assert e in events * RealEvents(events, d); }
    }
  }

  // A cancelEvent between epoll_wait and the dispatch: the delivery then aborts exactly when it
  // carried the cancelled event and the descriptor's other event, by bit or by error, too.
  lemma StaleDeliveryExactly(s: State, d: Delivery, ev: Event)
    requires Inv(s) && Inside(s, d) && Set(s, d.fd, ev)
    ensures var other := if ev == READ then WRITE else READ;
      var o := CancelEvent(s, d.fd, ev, false);
      && o.Next?
      && (Deliver(o.s, d, false).Abort? <==>
          ev in d.bits && Set(s, d.fd, other) && (d.err || other in d.bits))
  {
    hide Contexts;
    var other := if ev == READ then WRITE else READ;
    CancelExactly(s, d.fd, ev, false);
    var t := CancelEvent(s, d.fd, ev, false).s;
    DeliverExactly(t, d, false);
    var events := t.ctxs[d.fd].events;
    assert events == s.ctxs[d.fd].events - {ev};
    EventSets(d.bits, events);
    EventSets(events * RealEvents(events, d), {});
  }

  /* ---------- what undoes an addEvent ---------- */

  // delEvent takes back an addEvent completely, but for the room made in the table; cancelEvent
  // does too, but for the waiter it schedules.
  lemma AddUndone(s: State, fd: nat, ev: Event, task: Task)
    requires Inv(s) && !Set(s, fd, ev)
    ensures var t := AddEvent(s, fd, ev, task, false);
      var back := s.(ctxs := Resize(s.ctxs, Size(s, fd)));
      && t.Next?
      && DelEvent(t.s, fd, ev, false) == Next(back, true)
      && CancelEvent(t.s, fd, ev, false) == Next(back.(scheduled := s.scheduled + [task]), true)
  {
    hide Waiting, WaitingAt, Contexts, Resize;
    Grown(s, fd);
    AddExactly(s, fd, ev, task, false);
    var back := s.(ctxs := Resize(s.ctxs, Size(s, fd)));
    CtlLegal(back.ctxs, back.kernel, fd, back.ctxs[fd].events + {ev}, false);
    GoodAt(back, fd);
    AddedUndone(back, fd, ev, task, AddEvent(s, fd, ev, task, false).s);
  }

  lemma AddedUndone(s: State, fd: nat, ev: Event, task: Task, t: State)
    requires KernelAgrees(s.ctxs, s.kernel) && fd < |s.ctxs| && Good(s.ctxs[fd]) && ev !in s.ctxs[fd].events
    requires KernelAgrees(t.ctxs, t.kernel)
    requires var c := s.ctxs[fd];
      t == State(s.ctxs[fd := SetContext(c, ev, ContextOf(task)).(events := c.events + {ev})], s.pending + 1,
                 s.kernel[fd := c.events + {ev}], s.scheduled)
    ensures DelEvent(t, fd, ev, false) == Next(s, true)
    ensures CancelEvent(t, fd, ev, false) == Next(s.(scheduled := s.scheduled + [task]), true)
  {
    var c, left := s.ctxs[fd], t.ctxs[fd].events - {ev};
    assert left == c.events;
    CtlLegal(t.ctxs, t.kernel, fd, left, false);
    assert (if left == {} then t.kernel - {fd} else t.kernel[fd := left]) == s.kernel;
    hide KernelAgrees, EpollCtl;
    assert t.ctxs[fd := c] == s.ctxs;
    assert SetContext(t.ctxs[fd], ev, IDLE).(events := left) == c;
  }
}
