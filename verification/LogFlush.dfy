/** flush_queue_messages: what a successful sync has delivered, whatever other processes log meanwhile. */
module LogFlush {
  import opened Common
  import opened LogSync
  import LogDelivery

  type Record = LogDelivery.Record
  type Handler = LogDelivery.Handler
  type Delivery = LogDelivery.Delivery

  /** The queue and the threads, with the handlers of the logging thread and everything they have received. */
  datatype Logging = Logging(sync: State<Record>, handlers: seq<Handler>, delivered: seq<Delivery>)

  /** One step of LogSync: the consumer delivers the record that it takes. */
  function FlushNext(f: LogDelivery.Percent, chain: LogDelivery.Chain, s: Logging, step: Step<Record>)
      : Option<Logging> {
    match Next(s.sync, step)
    case None => None
    case Some(sync) =>
      var out := if step.Consume? && s.sync.queue[0].Entry?
                 then LogDelivery.Call(f, s.handlers, chain, s.sync.queue[0].record) else [];
      Some(Logging(sync, s.handlers, s.delivered + out))
  }

  function FlushRun(f: LogDelivery.Percent, chain: LogDelivery.Chain, s: Logging, steps: seq<Step<Record>>)
      : Option<Logging> {
    if steps == [] then Some(s)
    else
      match FlushRun(f, chain, s, steps[..|steps| - 1])
      case None => None
      case Some(t) => FlushNext(f, chain, t, steps[|steps| - 1])
  }

  /** The same logger as LogDelivery sees it. */
  function Queued(s: Logging): LogDelivery.Queued {
    LogDelivery.Queued(s.handlers, Entries(s.sync.queue), s.delivered)
  }

  /** What the handlers receive of the records, one after the other. */
  function Deliveries(f: LogDelivery.Percent, chain: LogDelivery.Chain, s: Logging, records: seq<Record>)
      : seq<Delivery> {
    LogDelivery.Pending(f, s.handlers, chain, records)
  }

  lemma {:induction false} PendingSplits(f: LogDelivery.Percent, handlers: seq<Handler>, chain: LogDelivery.Chain,
                                         a: seq<Record>, b: seq<Record>)
    ensures LogDelivery.Pending(f, handlers, chain, a + b)
         == LogDelivery.Pending(f, handlers, chain, a) + LogDelivery.Pending(f, handlers, chain, b)
  {
    if a == [] {
      assert a + b == b;
    } else {
      PendingSplits(f, handlers, chain, a[1..], b);
      HeadOfBoth(a, b);
      Regroup(LogDelivery.Call(f, handlers, chain, a[0]), LogDelivery.Pending(f, handlers, chain, a[1..]),
              LogDelivery.Pending(f, handlers, chain, b));
    }
  }

  /** The run does what the queue's steps do, leaves the handlers alone, and has delivered exactly what was handled. */
  lemma {:induction false} RunDelivers(f: LogDelivery.Percent, chain: LogDelivery.Chain, s: Logging,
                                       steps: seq<Step<Record>>)
    requires Conserved(s.sync) && FlushRun(f, chain, s, steps).Some?
    ensures Exec(s.sync, steps).Some?
    ensures var t := FlushRun(f, chain, s, steps).value;
            && Exec(s.sync, steps).value == t.sync && Conserved(t.sync) && t.handlers == s.handlers
            && s.sync.emitted <= t.sync.emitted && s.sync.handled <= t.sync.handled
            && t.delivered == s.delivered + Deliveries(f, chain, s, t.sync.handled[|s.sync.handled|..])
  {
    if steps == [] {
      assert Deliveries(f, chain, s, []) == [];
      assert s.delivered + [] == s.delivered && s.sync.handled[|s.sync.handled|..] == [];
    } else {
      var n := |steps| - 1;
      RunDelivers(f, chain, s, steps[..n]);
      StepDelivers(f, chain, s, FlushRun(f, chain, s, steps[..n]).value, steps[n]);
    }
  }

  lemma StepDelivers(f: LogDelivery.Percent, chain: LogDelivery.Chain, s: Logging, t: Logging, step: Step<Record>)
    requires Conserved(t.sync) && FlushNext(f, chain, t, step).Some? && t.handlers == s.handlers
    requires s.sync.emitted <= t.sync.emitted && s.sync.handled <= t.sync.handled
    requires t.delivered == s.delivered + Deliveries(f, chain, s, t.sync.handled[|s.sync.handled|..])
    ensures var u := FlushNext(f, chain, t, step).value;
            && Conserved(u.sync) && u.handlers == s.handlers
            && s.sync.emitted <= u.sync.emitted && s.sync.handled <= u.sync.handled
            && u.delivered == s.delivered + Deliveries(f, chain, s, u.sync.handled[|s.sync.handled|..])
  {
    NextConserves(t.sync, step);
    if step.Consume? && t.sync.queue[0].Entry? {
      RecordDelivered(f, chain, s, t, t.sync.queue[0].record);
    } else {
      assert t.delivered + [] == t.delivered;
    }
  }

  lemma RecordDelivered(f: LogDelivery.Percent, chain: LogDelivery.Chain, s: Logging, t: Logging, r: Record)
    requires |s.sync.handled| <= |t.sync.handled|
    requires t.delivered == s.delivered + Deliveries(f, chain, s, t.sync.handled[|s.sync.handled|..])
    ensures t.delivered + LogDelivery.Call(f, s.handlers, chain, r)
         == s.delivered + Deliveries(f, chain, s, (t.sync.handled + [r])[|s.sync.handled|..])
  {
    var before := t.sync.handled[|s.sync.handled|..];
    assert (t.sync.handled + [r])[|s.sync.handled|..] == before + [r];
    PendingSplits(f, s.handlers, chain, before, [r]);
    OneRecord(f, s.handlers, chain, r);
    Regroup(s.delivered, Deliveries(f, chain, s, before), LogDelivery.Call(f, s.handlers, chain, r));
  }

  lemma OneRecord(f: LogDelivery.Percent, handlers: seq<Handler>, chain: LogDelivery.Chain, r: Record)
    ensures LogDelivery.Pending(f, handlers, chain, [r]) == LogDelivery.Call(f, handlers, chain, r)
  {
    assert [r][1..] == [];
    assert LogDelivery.Pending(f, handlers, chain, []) == [];
    var out := LogDelivery.Call(f, handlers, chain, r);
    assert out + [] == out;
  }

  /** A sync whose wait succeeds has delivered everything that was queued when it was called: whatever is logged
      meanwhile, the handlers have received at least what direct logging had given them by then. A handler that is
      removed next misses nothing of it. */
  lemma SyncFlushes(f: LogDelivery.Percent, chain: LogDelivery.Chain, s: Logging, steps: seq<Step<Record>>,
                    d: LogDelivery.Direct)
    requires Conserved(s.sync) && !Premature(s.sync)
    requires OneSync(steps) && FlushRun(f, chain, s, steps).Some?
    requires FlushRun(f, chain, s, steps).value.sync.main == Clearing(|s.sync.emitted|, true)
    requires LogDelivery.Simulates(f, chain, Queued(s), d)
    ensures d.delivered <= FlushRun(f, chain, s, steps).value.delivered
  {
    RunDelivers(f, chain, s, steps);
    OneSyncRun(s.sync, steps);
    var t := FlushRun(f, chain, s, steps).value;
    HandledFirst(s.sync, t.sync);
    WaitingDelivered(f, chain, s, t.sync.handled[|s.sync.handled|..]);
  }

  lemma WaitingDelivered(f: LogDelivery.Percent, chain: LogDelivery.Chain, s: Logging, handled: seq<Record>)
    requires Entries(s.sync.queue) <= handled
    ensures s.delivered + Deliveries(f, chain, s, Entries(s.sync.queue))
        <= s.delivered + Deliveries(f, chain, s, handled)
  {
    var waiting := Entries(s.sync.queue);
    assert handled == waiting + handled[|waiting|..];
    PendingSplits(f, s.handlers, chain, waiting, handled[|waiting|..]);
    Regroup(s.delivered, Deliveries(f, chain, s, waiting), Deliveries(f, chain, s, handled[|waiting|..]));
  }

  /** First in, first out: what was waiting is handled before anything else. */
  lemma HandledFirst(s: State<Record>, t: State<Record>)
    requires Conserved(s) && Conserved(t) && s.emitted <= t.emitted && s.handled <= t.handled
    requires |t.handled| >= |s.emitted|
    ensures Entries(s.queue) <= t.handled[|s.handled|..]
  {
    var k := |s.handled|;
    assert t.emitted[..|s.emitted|] == s.emitted && t.handled == t.emitted[..|t.handled|];
    assert Entries(s.queue) == s.emitted[k..] == t.handled[k..|s.emitted|];
  }

  /** And if nothing is logged meanwhile, the queue holds no record any more, so handlers may come and go. */
  lemma SyncEmpties(f: LogDelivery.Percent, chain: LogDelivery.Chain, s: Logging, steps: seq<Step<Record>>, h: Handler)
    requires Conserved(s.sync) && !Premature(s.sync)
    requires OneSync(steps) && FlushRun(f, chain, s, steps).Some?
    requires FlushRun(f, chain, s, steps).value.sync.main == Clearing(|s.sync.emitted|, true)
    requires forall i | 0 <= i < |steps| :: !steps[i].Emit?
    ensures var t := FlushRun(f, chain, s, steps).value;
            Queued(t).queue == [] && LogDelivery.Harmless(f, chain, Queued(t), LogDelivery.Remove(h))
  {
    RunDelivers(f, chain, s, steps);
    OneSyncRun(s.sync, steps);
    NothingEmitted(s.sync, steps);
    var t := FlushRun(f, chain, s, steps).value;
    assert |t.sync.emitted| == |t.sync.handled| + |Entries(t.sync.queue)|;
    LogDelivery.HarmlessWhen(f, chain, Queued(t), LogDelivery.Record(0, "", None), 0, h);
  }

  lemma {:induction false} NothingEmitted(s: State<Record>, steps: seq<Step<Record>>)
    requires Exec(s, steps).Some? && forall i | 0 <= i < |steps| :: !steps[i].Emit?
    ensures Exec(s, steps).value.emitted == s.emitted
  {
    if steps != [] {
      NothingEmitted(s, steps[..|steps| - 1]);
      assert !steps[|steps| - 1].Emit?;
    }
  }
}
