/** Who is woken by each call of IOManager and in which order, and how the table grows. */
module IoLaws {
  import opened IoEvents
  import opened Options
  import opened Sequences

  // What waits for an event at this descriptor, as it was registered.
  ghost predicate Waits(c: FdContext, ev: Event, t: Task)
  {
    var e := if ev == READ then c.read else c.write;
    ev in c.events && e.scheduler == Some(t.scheduler) &&
    match t.waiter
    case Parked(f) => e.fiber == Some(f) && e.cb == None
    case Callback(f) => e.cb == Some(f) && e.fiber == None
  }

  // Those woken for a set of events: the reader before the writer.
  ghost predicate WokenInOrder(more: seq<Task>, c: FdContext, evs: set<Event>)
  {
    var r, w := READ in evs, WRITE in evs;
    && |more| == (if r then 1 else 0) + (if w then 1 else 0)
    && (r ==> Waits(c, READ, more[0]))
    && (w ==> Waits(c, WRITE, more[|more| - 1]))
  }

  lemma RegisteredWaits(c: FdContext, ev: Event, task: Task)
    ensures var d := SetContext(c, ev, ContextOf(task)).(events := c.events + {ev});
      && Waits(d, ev, task)
      && forall e: Event, t: Task :: e != ev ==> (Waits(d, e, t) <==> Waits(c, e, t))
  {
  }

  // Once registered, that is who waits, and nobody else has come or gone.
  lemma AddWaits(s: State, fd: nat, ev: Event, task: Task)
    requires Inv(s) && !Set(s, fd, ev)
    ensures var o := AddEvent(s, fd, ev, task, false);
      && o.Next? && o.rt && fd < |o.s.ctxs| && Waits(o.s.ctxs[fd], ev, task)
      && forall f: nat, e: Event, t: Task :: f < |o.s.ctxs| && (f != fd || e != ev) ==>
           (Waits(o.s.ctxs[f], e, t) <==> f < |s.ctxs| && Waits(s.ctxs[f], e, t))
  {
    AddExactly(s, fd, ev, task, false);
    hide Inv;
    var ctxs := if |s.ctxs| > fd then s.ctxs else Resize(s.ctxs, fd * 3 / 2);
    assert forall f: nat :: |s.ctxs| <= f < |ctxs| ==> ctxs[f] == FRESH;
    assert forall e: Event, t: Task :: !Waits(FRESH, e, t);
    RegisteredWaits(ctxs[fd], ev, task);
    hide Waits, SetContext, ContextOf, Resize;
  }

  // The table grows to one and a half times the descriptor, rounded down, and only for one that
  // is not in it yet; what is new is empty.
  lemma TableGrows(s: State, fd: nat, ev: Event, task: Task, fault: bool)
    requires Inv(s) && !Set(s, fd, ev)
    ensures var o := AddEvent(s, fd, ev, task, fault);
      && o.Next?
      && (fd < |s.ctxs| ==> |o.s.ctxs| == |s.ctxs|)
      && (fd >= |s.ctxs| ==> 2 * |o.s.ctxs| <= 3 * fd < 2 * |o.s.ctxs| + 2)
      && (forall f: nat :: |s.ctxs| <= f < |o.s.ctxs| && f != fd ==> o.s.ctxs[f].events == {})
  {
    AddExactly(s, fd, ev, task, fault);
    hide Inv;
  }

  lemma TaskWaits(c: FdContext, ev: Event)
    requires Good(c) && ev in c.events
    ensures Waits(c, ev, TaskOf(GetContext(c, ev)))
  {
  }

  lemma OtherKept(s: State, fd: nat, ev: Event)
    requires fd < |s.ctxs| && Trigger(s, fd, ev).Some?
    ensures ev == READ ==> Trigger(s, fd, ev).value.ctxs[fd].write == s.ctxs[fd].write
  {
  }

  lemma TriggerWakes(s: State, fd: nat, ev: Event) returns (task: Task)
    requires Contexts(s) && fd < |s.ctxs| && ev in s.ctxs[fd].events
    ensures Trigger(s, fd, ev).Some? && Waits(s.ctxs[fd], ev, task)
    ensures var t := Trigger(s, fd, ev).value;
      && Contexts(t) && |t.ctxs| == |s.ctxs| && t.ctxs[fd].events == s.ctxs[fd].events - {ev}
      && t.scheduled == s.scheduled + [task]
      && (ev == READ ==> t.ctxs[fd].write == s.ctxs[fd].write)
  {
    hide Contexts, Waiting, Conserves;
    TriggerExactly(s, fd, ev);
    GoodAt(s, fd);
    task := TaskOf(GetContext(s.ctxs[fd], ev));
    TaskWaits(s.ctxs[fd], ev);
    OtherKept(s, fd, ev);
    hide Good, Trigger, Waits;
  }

  lemma BothWake(s: State, fd: nat, evs: set<Event>)
    requires Contexts(s) && fd < |s.ctxs| && evs <= s.ctxs[fd].events
    ensures TriggerBoth(s, fd, evs).Some?
    ensures var t := TriggerBoth(s, fd, evs).value;
      && s.scheduled <= t.scheduled
      && WokenInOrder(t.scheduled[|s.scheduled|..], s.ctxs[fd], evs)
  {
    hide Contexts, Trigger, Waits;
    var u, more := s, [];
    if READ in evs {
      var r := TriggerWakes(s, fd, READ);
      u, more := Trigger(s, fd, READ).value, [r];
    }
    var t := u;
    if WRITE in evs {
      var w := TriggerWakes(u, fd, WRITE);
      SameWriter(s.ctxs[fd], u.ctxs[fd], w);
      t := Trigger(u, fd, WRITE).value;
      JoinAssoc(s.scheduled, more, [w]);
      more := more + [w];
    }
    assert TriggerBoth(s, fd, evs) == Some(t);
    assert t.scheduled == s.scheduled + more && t.scheduled[|s.scheduled|..] == more;
  }

  lemma SameWriter(c: FdContext, d: FdContext, t: Task)
    requires c.write == d.write && WRITE in c.events
    ensures Waits(d, WRITE, t) ==> Waits(c, WRITE, t)
  {
  }

  // cancelAll wakes everyone at the descriptor, the reader first.
  lemma CancelAllWakes(s: State, fd: nat)
    requires Inv(s) && fd < |s.ctxs| && s.ctxs[fd].events != {}
    ensures var o := CancelAll(s, fd, false);
      && o.Next? && o.rt && o.s.ctxs[fd].events == {} && s.scheduled <= o.s.scheduled
      && WokenInOrder(o.s.scheduled[|s.scheduled|..], s.ctxs[fd], s.ctxs[fd].events)
  {
    CancelAllExactly(s, fd, false);
    hide WokenInOrder, TriggerBoth, Good;
    MaskHas(s, fd);
    CtlLegal(s.ctxs, s.kernel, fd, {}, false);
    BothWake(s.(kernel := s.kernel - {fd}), fd, s.ctxs[fd].events);
  }

  // A delivery for events that are waited for wakes exactly their waiters, the reader first; an
  // error wakes everyone at the descriptor.
  lemma DeliveryWakes(s: State, d: Delivery)
    requires Inv(s) && d.fd < |s.ctxs| && d.bits <= s.ctxs[d.fd].events
    requires d.bits != {} || (d.err && s.ctxs[d.fd].events != {})
    ensures var o, c := Deliver(s, d, false), s.ctxs[d.fd];
      var evs := if d.err then c.events else d.bits;
      && o.Next? && o.rt && o.s.ctxs[d.fd].events == c.events - evs && s.scheduled <= o.s.scheduled
      && WokenInOrder(o.s.scheduled[|s.scheduled|..], c, evs)
  {
    var fd, c := d.fd, s.ctxs[d.fd];
    var evs := if d.err then c.events else d.bits;
    assert RealEvents(c.events, d) == evs && c.events * evs == evs;
    var left := c.events - evs;
    DeliverExactly(s, d, false);
    hide WokenInOrder, TriggerBoth, Good;
    CtlLegal(s.ctxs, s.kernel, fd, left, false);
    BothWake(s.(kernel := if left == {} then s.kernel - {fd} else s.kernel[fd := left]), fd, evs);
  }
}
