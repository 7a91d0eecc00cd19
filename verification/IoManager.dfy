/** IOManager as an object: descriptor contexts updated in place. */
module IoManagers {
  import opened Options
  import opened IoEvents

  class FdSlot {
    const fd: nat
    var read: EventContext
    var write: EventContext
    var events: set<Event>

    constructor (fd: nat)
      ensures this.fd == fd && View() == FRESH
    {
      this.fd, read, write, events := fd, IDLE, IDLE, {};
    }

    ghost function View(): FdContext
      reads this
    {
      FdContext(read, write, events)
    }

    // getContext(event) = e
    method Put(ev: Event, e: EventContext)
      modifies `read, `write
      ensures View() == SetContext(old(View()), ev, e)
    {
      if ev.READ? {
        read := e;
      } else {
        write := e;
      }
    }

    // None stands for a failed assertion or a null scheduler.
    method TriggerEvent(ev: Event) returns (t: Option<Task>)
      modifies this
      ensures match TriggerFd(old(View()), ev) {
        case None => t.None?
        case Some((c, task)) => t == Some(task) && View() == c }
    {
      if ev !in events {
        return None;
      }
      events := events - {ev};
      var ctx := Get(ev);
      if ctx.scheduler.None? || (ctx.cb.None? && ctx.fiber.None?) {
        return None;
      }
      if ctx.cb.Some? {
        t := Some(Task(ctx.scheduler.value, Callback(ctx.cb.value)));
        ctx := ctx.(cb := None);
      } else {
        t := Some(Task(ctx.scheduler.value, Parked(ctx.fiber.value)));
        ctx := ctx.(fiber := None);
      }
      Put(ev, ctx.(scheduler := None));
    }

    function Get(ev: Event): (e: EventContext)
      reads this
      ensures e == GetContext(View(), ev)
    {
      if ev.READ? then read else write
    }
  }

  ghost function Views(slots: seq<FdSlot>): (r: seq<FdContext>)
    reads slots
    ensures |r| == |slots| && forall i :: 0 <= i < |r| ==> r[i] == slots[i].View()
  {
    if slots == [] then [] else [slots[0].View()] + Views(slots[1..])
  }

  class IOManager {
    var slots: seq<FdSlot>
    var pending: int
    var kernel: map<nat, set<Event>>
    var scheduled: seq<Task>

    ghost predicate Valid()
      reads this, slots
    {
      forall i :: 0 <= i < |slots| ==> slots[i].fd == i
    }

    ghost function View(): State
      reads this, slots
    {
      State(Views(slots), pending, kernel, scheduled)
    }

    constructor ()
      ensures Valid() && fresh(slots) && View() == Initial()
    {
      slots, pending, kernel, scheduled := [], 0, map[], [];
      new;
      assert Views(slots) == [];
      hide Views;
      ContextResize(32);
      assert slots[0..] == slots;
      assert View().ctxs == Initial().ctxs;
    }

    method ContextResize(n: nat)
      requires Valid() && n >= |slots|
      modifies `slots
      ensures Valid() && Views(slots) == Resize(old(Views(slots)), n)
      ensures old(slots) <= slots && fresh(slots[|old(slots)|..])
    {
      ghost var was := slots;
      while |slots| < n
        invariant was <= slots && |slots| <= n && Valid()
        invariant fresh(slots[|was|..])
        invariant forall i :: |was| <= i < |slots| ==> slots[i].View() == FRESH
      {
        var slot := new FdSlot(|slots|);
        slots := slots + [slot];
      }
    }

    method EpollCtl(op: CtlOp, fd: nat, mask: set<Event>, fault: bool) returns (rt: int)
      modifies `kernel
      ensures var r := IoEvents.EpollCtl(old(kernel), op, fd, mask, fault);
        if r.None? then rt == -1 && kernel == old(kernel) else rt == 0 && kernel == r.value
    {
      if fault || (op.ADD? <==> fd in kernel) {
        return -1;
      }
      kernel := if op.DEL? then kernel - {fd} else kernel[fd := mask];
      return 0;
    }

    // One slot changed; the others did not.
    method Fire(slot: FdSlot, ev: Event) returns (ok: bool)
      requires Valid() && slot in slots
      modifies slot, `pending, `scheduled
      ensures Valid()
      ensures match Trigger(old(View()), slot.fd, ev) {
        case None => !ok
        case Some(t) => ok && View() == t }
    {
      hide TriggerFd;
      ghost var fd, was := slot.fd, Views(slots);
      assert slots[fd] == slot;
      var t := slot.TriggerEvent(ev);
      if t.None? {
        return false;
      }
      assert Views(slots) == was[fd := slot.View()];
      scheduled := scheduled + [t.value];
      pending := pending - 1;
      ok := true;
    }

    // How a call ended: None for a failed assertion, else what it returned.
    ghost predicate Ends(o: Outcome, r: Option<bool>)
      reads this, slots
    {
      match o
      case Abort => r.None?
      case Next(t, rt) => r == Some(rt) && View() == t
    }

    method Install(fd: nat, ev: Event, e: EventContext, mask: set<Event>)
      requires Valid() && fd < |slots|
      modifies slots[fd]
      ensures Valid()
      ensures Views(slots) == old(Views(slots))[fd := SetContext(old(Views(slots))[fd], ev, e).(events := mask)]
    {
      ghost var was := Views(slots);
      slots[fd].events := mask;
      slots[fd].Put(ev, e);
      assert Views(slots) == was[fd := slots[fd].View()];
    }

    method AddEvent(fd: nat, ev: Event, task: Task, fault: bool) returns (r: Option<bool>)
      requires Valid() && |slots| >= 32
      modifies this, slots
      ensures Valid() && Ends(IoEvents.AddEvent(old(View()), fd, ev, task, fault), r)
    {
      hide Views, Resize, SetContext, ContextOf, IoEvents.EpollCtl;
      if fd >= |slots| {
        ContextResize(fd * 3 / 2);
      }
      ghost var n := |old(slots)|;
      assert fd >= n ==> slots[fd] == slots[n..][fd - n];
      r := Register(fd, ev, task, fault);
    }

    // addEvent from its descriptor lock on
    method Register(fd: nat, ev: Event, task: Task, fault: bool) returns (r: Option<bool>)
      requires Valid() && fd < |slots|
      modifies `pending, `kernel, slots[fd]
      ensures Valid() && Ends(IoEvents.AddEvent(old(View()), fd, ev, task, fault), r)
    {
      hide Views, SetContext, ContextOf;
      var slot := slots[fd];
      if ev in slot.events {
        return None;
      }
      var rt := EpollCtl(if slot.events != {} then MOD else ADD, fd, slot.events + {ev}, fault);
      if rt != 0 {
        return Some(false);
      }
      pending := pending + 1;
      if slot.Get(ev) != IDLE {
        return None;
      }
      Install(fd, ev, ContextOf(task), slot.events + {ev});
      r := Some(true);
    }

    method DelEvent(fd: nat, ev: Event, fault: bool) returns (r: Option<bool>)
      requires Valid()
      modifies this, slots
      ensures Valid() && Ends(IoEvents.DelEvent(old(View()), fd, ev, fault), r)
    {
      hide Views, SetContext;
      if |slots| <= fd || ev !in slots[fd].events {
        return Some(false);
      }
      var slot := slots[fd];
      var left := slot.events - {ev};
      var rt := EpollCtl(if left != {} then MOD else DEL, fd, left, fault);
      if rt != 0 {
        return Some(false);
      }
      pending := pending - 1;
      Install(fd, ev, IDLE, left);
      r := Some(true);
    }

    method CancelEvent(fd: nat, ev: Event, fault: bool) returns (r: Option<bool>)
      requires Valid()
      modifies this, slots
      ensures Valid() && Ends(IoEvents.CancelEvent(old(View()), fd, ev, fault), r)
    {
      if |slots| <= fd || ev !in slots[fd].events {
        return Some(false);
      }
      var left := slots[fd].events - {ev};
      var rt := EpollCtl(if left != {} then MOD else DEL, fd, left, fault);
      if rt != 0 {
        return Some(false);
      }
      var ok := Fire(slots[fd], ev);
      r := if ok then Some(true) else None;
    }

    method CancelAll(fd: nat, fault: bool) returns (r: Option<bool>)
      requires Valid()
      modifies this, slots
      ensures Valid() && Ends(IoEvents.CancelAll(old(View()), fd, fault), r)
    {
      if |slots| <= fd || slots[fd].events == {} {
        return Some(false);
      }
      var rt := EpollCtl(DEL, fd, {}, fault);
      if rt != 0 {
        return Some(false);
      }
      var ok := FireBoth(fd, slots[fd].events);
      r := if ok then Some(true) else None;
    }

    // The two conditional triggers at the end of cancelAll and of the dispatch
    method FireBoth(fd: nat, evs: set<Event>) returns (ok: bool)
      requires Valid() && fd < |slots|
      modifies slots[fd], `pending, `scheduled
      ensures Valid()
      ensures match TriggerBoth(old(View()), fd, evs) {
        case None => !ok
        case Some(t) => ok && View() == t }
    {
      hide Trigger, Views;
      ok := true;
      if READ in evs {
        ok := Fire(slots[fd], READ);
      }
      if ok && WRITE in evs {
        ok := Fire(slots[fd], WRITE);
      }
    }

    // One entry of the dispatch loop
    method Deliver(d: Delivery, fault: bool) returns (r: Option<bool>)
      requires Valid() && d.fd < |slots|
      modifies this, slots
      ensures Valid() && slots == old(slots)
      ensures Ends(IoEvents.Deliver(old(View()), d, fault), r)
    {
      var slot := slots[d.fd];
      var bits := d.bits;
      if d.err {
        bits := bits + slot.events;
      }
      if slot.events * bits == {} {
        return Some(false);
      }
      var left := slot.events - bits;
      var rt := EpollCtl(if left != {} then MOD else DEL, d.fd, left, fault);
      if rt != 0 {
        return Some(false);
      }
      var ok := FireBoth(d.fd, bits);
      r := if ok then Some(true) else None;
    }

    // The loop over what epoll_wait returned; true when it got through without a failed assertion.
    method Dispatch(ds: seq<Delivery>, faults: seq<bool>) returns (ok: bool)
      requires Valid() && |ds| == |faults|
      requires forall d :: d in ds ==> d.fd < |slots|
      modifies this, slots
      ensures Valid()
      ensures match Run(old(View()), Batch(ds, faults)) {
        case Abort => !ok
        case Next(t, _) => ok && View() == t }
    {
      hide IoEvents.Deliver, Views;
      var i: nat := 0;
      assert ds[0..] == ds && faults[0..] == faults;
      while i < |ds|
        invariant i <= |ds| && Valid() && slots == old(slots)
        invariant Run(old(View()), Batch(ds, faults)) == Run(View(), Batch(ds[i..], faults[i..]))
      {
        ghost var ops := Batch(ds[i..], faults[i..]);
        assert ds[i] in ds;
        assert ds[i..][1..] == ds[i + 1..] && faults[i..][1..] == faults[i + 1..];
        assert ops[0] == IoEvents.Dispatch(ds[i], faults[i]) && ops[1..] == Batch(ds[i + 1..], faults[i + 1..]);
        var r := Deliver(ds[i], faults[i]);
        if r.None? {
          return false;
        }
        i := i + 1;
      }
      ok := true;
    }
  }
}
