/** multiprocess_logging.LoggingThread and the GDM logger as objects that change in place, tied to the two step
    systems. */
module MultiprocessLogging {
  import opened Common
  import opened LogDelivery
  import opened LogSync
  import opened HandlerOrder

  /** The consuming thread with its queue and event. The ghost fields record the protocol's history. */
  class LoggingThread {
    var handlers: seq<Handler>
    var propagate: bool
    var parent: seq<Ancestor>          // the parent and its ancestors; empty when there is none
    var queue: seq<Item<Record>>
    var event: bool
    var started: bool
    var alive: bool
    ghost var main: Main
    ghost var emitted: seq<Record>
    ghost var handled: seq<Record>

    ghost function View(): State<Record>
      reads this
    {
      State(queue, event, started, alive, main, emitted, handled)
    }

    constructor ()
      ensures handlers == [] && !propagate && parent == []
      ensures View() == Init().(started := false, alive := false)
    {
      handlers, propagate, parent := [], false, [];
      queue, event, started, alive := [], false, false, false;
      main, emitted, handled := Idle, [], [];
    }

    method AddHandler(h: Handler)
      modifies this`handlers
      ensures handlers == old(handlers) + [h]
    {
      handlers := handlers + [h];
    }

    method RemoveHandler(h: Handler)
      modifies this`handlers
      ensures handlers == DeleteFirst(old(handlers), h)
    {
      handlers := DeleteFirst(handlers, h);
    }

    method ConfigurePropagate(propagate: bool, parent: seq<Ancestor>)
      modifies this`propagate, this`parent
      ensures this.propagate == propagate && this.parent == parent
    {
      this.propagate, this.parent := propagate, parent;
    }

    method Start()
      requires !started
      modifies this`started, this`alive
      ensures View() == old(View()).(started := true, alive := true)
    {
      started, alive := true, true;
    }

    /** QueueHandler.emit */
    method Emit(f: Percent, r: Record)
      modifies this`queue, this`emitted
      ensures Next(old(View()), Step.Emit(Rendered(f, r))) == Some(View())
    {
      queue := queue + [Entry(Rendered(f, r))];
      emitted := emitted + [Rendered(f, r)];
    }

    /** sync, its three parts: put the sentinel, look at the event when the wait ends, clear the event. */
    method PutSync() returns (waits: bool)
      requires main.Idle?
      modifies this`queue, this`main
      ensures waits == (started && alive)
      ensures if waits then Next(old(View()), SyncPut) == Some(View()) else View() == old(View())
    {
      waits := started && alive;
      if waits {
        queue := queue + [Sync];
        main := Waiting(|emitted|);
      }
    }

    method EndWait() returns (reached: bool)
      requires main.Waiting?
      modifies this`main
      ensures Next(old(View()), if reached then SyncWoken else SyncTimedOut) == Some(View())
    {
      reached := event;
      main := Clearing(main.mark, reached);
    }

    method ClearEvent()
      requires main.Clearing?
      modifies this`event, this`main
      ensures Next(old(View()), SyncClear) == Some(View())
    {
      event := false;
      main := Idle;
    }

    /** stop, its two parts; a thread still alive after the join is a RuntimeError. */
    method PutTerminate()
      requires main.Idle? && started
      modifies this`queue, this`main
      ensures Next(old(View()), StopPut) == Some(View())
    {
      queue := queue + [Terminate];
      main := Joining(|emitted|);
    }

    method EndJoin() returns (ok: bool)
      requires main.Joining?
      modifies this`started, this`main
      ensures Next(old(View()), if ok then StopJoined else StopFailed) == Some(View())
    {
      ok := !alive;
      if ok {
        started := false;
      }
      main := Idle;
    }

    /** One iteration of _run: what the handlers of the thread and of its ancestors receive. */
    method RunOnce(f: Percent) returns (out: seq<Delivery>)
      requires alive && queue != []
      modifies this`queue, this`event, this`alive, this`handled
      ensures Next(old(View()), Step.Consume) == Some(View())
      ensures out == if old(queue)[0].Entry? then Call(f, handlers, Chain(propagate, parent), old(queue)[0].record)
                     else []
    {
      out := [];
      var item := queue[0];
      queue := queue[1..];
      match item {
        case Terminate =>
          alive := false;
        case Sync =>
          event := true;
        case Entry(r) =>
          handled := handled + [r];
          out := CallHandlers(f, r);
      }
    }

    /** The loop over the thread and its ancestors. */
    method CallHandlers(f: Percent, r: Record) returns (out: seq<Delivery>)
      ensures out == Call(f, handlers, Chain(propagate, parent), r)
      ensures Delivered(f, handlers, Chain(propagate, parent), r, out)
    {
      CallDelivers(f, handlers, Chain(propagate, parent), r);
      out := HandleAll(f, handlers, r);
      var k, more := 0, propagate;
      ghost var all := Call(f, handlers, Chain(propagate, parent), r);
      assert parent[0..] == parent;
      while more && k < |parent|
        invariant k <= |parent|
        invariant all == out + if more then Above(f, parent[k..], r) else []
      {
        assert parent[k..][0] == parent[k] && parent[k..][1..] == parent[k + 1..];
        var fired := HandleAll(f, parent[k].handlers, r);
        AppendTwice(out, fired, if parent[k].propagate then Above(f, parent[k + 1..], r) else []);
        out := out + fired;
        more := parent[k].propagate;
        k := k + 1;
      }
      assert k == |parent| ==> parent[k..] == [];
      assert out + [] == out;
    }
  }

  lemma AppendTwice<T>(a: seq<T>, b: seq<T>, c: seq<T>)
    ensures a + (b + c) == (a + b) + c
  {
  }

  /** The loop over the handlers of one logger. */
  method HandleAll(f: Percent, handlers: seq<Handler>, r: Record) returns (out: seq<Delivery>)
    ensures out == Fired(f, handlers, r)
  {
    out := [];
    var i := 0;
    assert handlers[0..] == handlers;
    while i < |handlers|
      invariant 0 <= i <= |handlers|
      invariant Fired(f, handlers, r) == out + Fired(f, handlers[i..], r)
    {
      assert handlers[i..][1..] == handlers[i + 1..];
      if r.level >= handlers[i].level {
        var one := [Delivery(handlers[i], r.level, Message(f, r))];
        AppendTwice(out, one, Fired(f, handlers[i + 1..], r));
        out := out + one;
      } else {
        assert [] + Fired(f, handlers[i + 1..], r) == Fired(f, handlers[i + 1..], r);
      }
      i := i + 1;
    }
    assert out + [] == out;
  }

  /** A handler of the GDM logger itself: an ordinary one, or the queue handler with its level. */
  datatype Sink = Plain(handler: Handler) | ToQueue(level: int)

  function Handlers(sinks: seq<Sink>): (r: seq<Handler>)
    requires forall s | s in sinks :: s.Plain?
    ensures |r| == |sinks| && forall i | 0 <= i < |sinks| :: r[i] == sinks[i].handler
  {
    if sinks == [] then []
    else
      assert sinks[0] in sinks;
      [sinks[0].handler] + Handlers(sinks[1..])
  }

  /** The globals of gdm_logger and the top-level logger. */
  class GdmLogger {
    var sinks: seq<Sink>
    var propagate: bool
    const ancestors: seq<Ancestor>
    var thread: LoggingThread?
    var delivered: seq<Delivery>       // everything any handler has received

    ghost predicate Valid()
      reads this, thread
    {
      if thread == null then forall s | s in sinks :: s.Plain?
      else
        && sinks == [ToQueue(DEBUG)] && !propagate
        && Conserved(thread.View()) && thread.started && thread.alive
    }

    /** Where records go beyond the logger's own handlers, in either mode. */
    ghost function Beyond(): Chain
      reads this, thread
    {
      var up := if thread == null then propagate else thread.propagate;
      Chain(up, if !up then [] else if thread == null then ancestors else thread.parent)
    }

    ghost function AsDirect(): Direct
      requires Valid() && thread == null
      reads this, thread
    {
      Direct(Handlers(sinks), delivered)
    }

    ghost function AsQueued(): Queued
      requires Valid() && thread != null
      reads this, thread
    {
      Queued(thread.handlers, Entries(thread.queue), delivered)
    }

    /** switch_to_multiprocess_logging */
    method SwitchToMultiprocessLogging()
      requires Valid()
      modifies this`sinks, this`propagate, this`thread
      ensures Valid() && thread != null
      ensures old(thread) == null ==>
                && fresh(thread) && AsQueued() == Switched(old(AsDirect())) && Beyond() == old(Beyond())
                && thread.View() == Init()
      ensures old(thread) != null ==> unchanged(this)
    {
      if thread != null {
        return;
      }
      var t := new LoggingThread();
      var i := 0;
      while i < |sinks|
        modifies t
        invariant 0 <= i <= |sinks| && t.handlers == Handlers(sinks)[..i]
        invariant !t.propagate && t.parent == [] && t.View() == Init().(started := false, alive := false)
      {
        assert sinks[i] in sinks;
        t.AddHandler(sinks[i].handler);
        i := i + 1;
      }
      assert t.handlers == Handlers(sinks);
      if propagate {
        t.ConfigurePropagate(propagate, ancestors);
        propagate := false;
      }
      sinks := [ToQueue(DEBUG)];
      t.Start();
      thread := t;
    }

    /** gdm_logger.add_handler */
    method AddHandler(f: Percent, h: Handler)
      requires Valid()
      modifies this`sinks, thread
      ensures Valid() && thread == old(thread) && Beyond() == old(Beyond())
      ensures if thread == null then AsDirect() == DirectNext(f, Beyond(), old(AsDirect()), Add(h))
              else AsQueued() == QueuedNext(f, Beyond(), old(AsQueued()), Add(h))
    {
      if thread != null {
        thread.AddHandler(h);
      } else if Plain(h) !in sinks {
        NewHandler(sinks, h);
        sinks := sinks + [Plain(h)];
      } else {
        KnownHandler(sinks, h);
      }
    }

    /** gdm_logger.remove_handler */
    method RemoveHandler(f: Percent, h: Handler)
      requires Valid()
      modifies this`sinks, thread
      ensures Valid() && thread == old(thread) && Beyond() == old(Beyond())
      ensures if thread == null then AsDirect() == DirectNext(f, Beyond(), old(AsDirect()), Remove(h))
              else AsQueued() == QueuedNext(f, Beyond(), old(AsQueued()), Remove(h))
    {
      if thread != null {
        thread.RemoveHandler(h);
      } else {
        var rest := DeleteFirst(sinks, Plain(h));
        DeleteHandler(sinks, h, rest);
        sinks := rest;
      }
    }

    /** A record logged in the main process, at the GDM logger or at a component's, with this effective level. */
    method Log(f: Percent, r: Record, threshold: int)
      requires Valid()
      modifies this`delivered, thread
      ensures Valid() && thread == old(thread) && Beyond() == old(Beyond())
      ensures if thread == null then AsDirect() == DirectNext(f, Beyond(), old(AsDirect()), Op.Log(r, threshold))
              else AsQueued() == QueuedNext(f, Beyond(), old(AsQueued()), Op.Log(r, threshold))
    {
      if r.level < threshold {
        return;
      }
      if thread == null {
        delivered := delivered + Call(f, Handlers(sinks), Chain(propagate, if propagate then ancestors else []), r);
      } else if r.level >= sinks[0].level {
        EntriesAppend(thread.queue, [Entry(Rendered(f, r))]);
        EntriesOne(Entry(Rendered(f, r)));
        NextConserves(thread.View(), Step.Emit(Rendered(f, r)));
        thread.Emit(f, r);
      }
    }

    /** The consumer takes one record. */
    method Deliver(f: Percent)
      requires Valid() && thread != null && thread.queue != [] && thread.queue[0].Entry?
      modifies this`delivered, thread
      ensures Valid() && thread == old(thread) && Beyond() == old(Beyond())
      ensures AsQueued() == QueuedNext(f, Beyond(), old(AsQueued()), Op.Consume)
    {
      NextConserves(thread.View(), Step.Consume);
      SameCall(f, thread.handlers, thread.propagate, thread.parent, thread.queue[0].record);
      var out := thread.RunOnce(f);
      delivered := delivered + out;
    }
  }

  lemma SameCall(f: Percent, own: seq<Handler>, up: bool, ancestors: seq<Ancestor>, r: Record)
    ensures Call(f, own, Chain(up, ancestors), r) == Call(f, own, Chain(up, if up then ancestors else []), r)
  {
  }

  lemma NewHandler(sinks: seq<Sink>, h: Handler)
    requires (forall s | s in sinks :: s.Plain?) && Plain(h) !in sinks
    ensures h !in Handlers(sinks)
    ensures (forall s | s in sinks + [Plain(h)] :: s.Plain?) && Handlers(sinks + [Plain(h)]) == Handlers(sinks) + [h]
  {
    forall i | 0 <= i < |sinks| ensures Handlers(sinks)[i] != h {
      assert sinks[i] in sinks;
    }
  }

  lemma KnownHandler(sinks: seq<Sink>, h: Handler)
    requires (forall s | s in sinks :: s.Plain?) && Plain(h) in sinks
    ensures h in Handlers(sinks)
  {
    var i :| 0 <= i < |sinks| && sinks[i] == Plain(h);
    assert Handlers(sinks)[i] == h;
  }

  lemma {:induction false} DeleteHandler(sinks: seq<Sink>, h: Handler, rest: seq<Sink>)
    requires forall s | s in sinks :: s.Plain?
    requires rest == DeleteFirst(sinks, Plain(h))
    ensures forall s | s in rest :: s.Plain?
    ensures Handlers(rest) == DeleteFirst(Handlers(sinks), h)
  {
    if sinks != [] {
      assert sinks[0] in sinks;
      assert Handlers(sinks)[1..] == Handlers(sinks[1..]);
      if sinks[0] != Plain(h) { DeleteHandler(sinks[1..], h, rest[1..]); }
    }
  }
}
