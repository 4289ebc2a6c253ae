/** What the handlers of the GDM logger and of its ancestors receive: directly, or through the logging queue. */
module LogDelivery {
  import opened Common

  const DEBUG := 10

  /** A log record; `args` are still to be merged into the message. */
  datatype Record = Record(level: int, msg: string, args: Option<string>)

  /** A handler object, with its level. */
  datatype Handler = Handler(id: nat, level: int)

  /** An ancestor of the GDM logger. */
  datatype Ancestor = Ancestor(handlers: seq<Handler>, propagate: bool)

  /** Where records go beyond the logger itself. */
  datatype Chain = Chain(propagate: bool, ancestors: seq<Ancestor>)

  /** One handler has handled one record. */
  datatype Delivery = Delivery(handler: Handler, level: int, message: string)

  /** The % operator on a message and its arguments. */
  type Percent = (string, string) -> string

  function Message(f: Percent, r: Record): string {
    if r.args.None? then r.msg else f(r.msg, r.args.value)
  }

  /** What QueueHandler.emit turns a record into before it puts it on the queue. */
  function Rendered(f: Percent, r: Record): Record {
    Record(r.level, Message(f, r), None)
  }

  function Fired(f: Percent, handlers: seq<Handler>, r: Record): seq<Delivery> {
    if handlers == [] then []
    else (if r.level >= handlers[0].level then [Delivery(handlers[0], r.level, Message(f, r))] else [])
         + Fired(f, handlers[1..], r)
  }

  function Above(f: Percent, ancestors: seq<Ancestor>, r: Record): seq<Delivery> {
    if ancestors == [] then []
    else Fired(f, ancestors[0].handlers, r) + if ancestors[0].propagate then Above(f, ancestors[1..], r) else []
  }

  /** Logger.callHandlers */
  function Call(f: Percent, own: seq<Handler>, chain: Chain, r: Record): seq<Delivery> {
    Fired(f, own, r) + if chain.propagate then Above(f, chain.ancestors, r) else []
  }

  lemma {:induction false} FiredRendered(f: Percent, handlers: seq<Handler>, r: Record)
    ensures Fired(f, handlers, Rendered(f, r)) == Fired(f, handlers, r)
  {
    if handlers != [] { FiredRendered(f, handlers[1..], r); }
  }

  lemma {:induction false} AboveRendered(f: Percent, ancestors: seq<Ancestor>, r: Record)
    ensures Above(f, ancestors, Rendered(f, r)) == Above(f, ancestors, r)
  {
    if ancestors != [] {
      FiredRendered(f, ancestors[0].handlers, r);
      AboveRendered(f, ancestors[1..], r);
    }
  }

  /** A record that went through the queue is delivered like the original. */
  lemma CallRendered(f: Percent, own: seq<Handler>, chain: Chain, r: Record)
    ensures Call(f, own, chain, Rendered(f, r)) == Call(f, own, chain, r)
  {
    FiredRendered(f, own, r);
    AboveRendered(f, chain.ancestors, r);
  }

  // ---------------------------------------------------------------------------------------------------------------
  // The two modes as step systems
  // ---------------------------------------------------------------------------------------------------------------

  /** What happens to the GDM logger: a record is logged, there or at a component's logger, whose effective level is
      `threshold`; a handler comes or goes; the consumer thread takes a record. */
  datatype Op = Log(record: Record, threshold: int) | Add(handler: Handler) | Remove(handler: Handler) | Consume

  datatype Direct = Direct(handlers: seq<Handler>, delivered: seq<Delivery>)

  datatype Queued = Queued(handlers: seq<Handler>, queue: seq<Record>, delivered: seq<Delivery>)

  /** Single process mode. Logger.addHandler ignores a handler it already has. */
  function DirectNext(f: Percent, chain: Chain, d: Direct, op: Op): Direct {
    match op
    case Log(r, threshold) =>
      if r.level >= threshold then d.(delivered := d.delivered + Call(f, d.handlers, chain, r)) else d
    case Add(h) => if h in d.handlers then d else d.(handlers := d.handlers + [h])
    case Remove(h) => d.(handlers := DeleteFirst(d.handlers, h))
    case Consume => d
  }

  /** Multiprocess mode. The queue handler has level DEBUG; LoggingThread.add_handler appends always. */
  function QueuedNext(f: Percent, chain: Chain, q: Queued, op: Op): Queued {
    match op
    case Log(r, threshold) =>
      if r.level >= threshold && r.level >= DEBUG then q.(queue := q.queue + [Rendered(f, r)]) else q
    case Add(h) => q.(handlers := q.handlers + [h])
    case Remove(h) => q.(handlers := DeleteFirst(q.handlers, h))
    case Consume =>
      if q.queue == [] then q
      else q.(queue := q.queue[1..], delivered := q.delivered + Call(f, q.handlers, chain, q.queue[0]))
  }

  function DirectRun(f: Percent, chain: Chain, d: Direct, ops: seq<Op>): Direct {
    if ops == [] then d else DirectNext(f, chain, DirectRun(f, chain, d, ops[..|ops| - 1]), ops[|ops| - 1])
  }

  function QueuedRun(f: Percent, chain: Chain, q: Queued, ops: seq<Op>): Queued {
    if ops == [] then q else QueuedNext(f, chain, QueuedRun(f, chain, q, ops[..|ops| - 1]), ops[|ops| - 1])
  }

  /** switch_to_multiprocess_logging: the thread takes over the handlers; nothing is queued yet. */
  function Switched(d: Direct): Queued {
    Queued(d.handlers, [], d.delivered)
  }

  /** What the thread will still deliver, if the handlers stay as they are. */
  function Pending(f: Percent, handlers: seq<Handler>, chain: Chain, queue: seq<Record>): seq<Delivery> {
    if queue == [] then [] else Call(f, handlers, chain, queue[0]) + Pending(f, handlers, chain, queue[1..])
  }

  lemma {:induction false} PendingAppend(f: Percent, handlers: seq<Handler>, chain: Chain, queue: seq<Record>,
      r: Record)
    ensures Pending(f, handlers, chain, queue + [r]) == Pending(f, handlers, chain, queue) + Call(f, handlers, chain, r)
  {
    if queue == [] {
      assert queue + [r] == [r] && [r][1..] == [];
    } else {
      PendingAppend(f, handlers, chain, queue[1..], r);
      HeadOfBoth(queue, [r]);
    }
  }

  /** No queued record is for the handler. */
  predicate Ignores(h: Handler, queue: seq<Record>) {
    forall i | 0 <= i < |queue| :: queue[i].level < h.level
  }

  /** The step is within the limits of the queue: the record is stopped by its logger, at DEBUG or above, or wanted by
      nobody; and a handler comes only if it is not there already, and comes or goes only while nothing queued is for
      it. */
  predicate Harmless(f: Percent, chain: Chain, q: Queued, op: Op) {
    match op
    case Log(r, threshold) => r.level < threshold || r.level >= DEBUG || Call(f, q.handlers, chain, r) == []
    case Add(h) => h !in q.handlers && Ignores(h, q.queue)
    case Remove(h) => h !in q.handlers || Ignores(h, q.queue)
    case Consume => true
  }

  /** The GDM logger itself is at DEBUG, so only a component logger with a lower level of its own can pass a record that
      the queue handler drops; and after a flush handlers may come and go. */
  lemma HarmlessWhen(f: Percent, chain: Chain, q: Queued, r: Record, threshold: int, h: Handler)
    ensures threshold >= DEBUG ==> Harmless(f, chain, q, Log(r, threshold))
    ensures q.queue == [] ==> Harmless(f, chain, q, Remove(h)) && (Harmless(f, chain, q, Add(h)) <==> h !in q.handlers)
  {
  }

  predicate HarmlessRun(f: Percent, chain: Chain, q: Queued, ops: seq<Op>) {
    ops == [] || (HarmlessRun(f, chain, q, ops[..|ops| - 1])
                  && Harmless(f, chain, QueuedRun(f, chain, q, ops[..|ops| - 1]), ops[|ops| - 1]))
  }

  /** The queued logger is the direct one with some deliveries still to come. */
  predicate Simulates(f: Percent, chain: Chain, q: Queued, d: Direct) {
    q.handlers == d.handlers && q.delivered + Pending(f, q.handlers, chain, q.queue) == d.delivered
  }

  lemma {:induction false} FiredWith(f: Percent, handlers: seq<Handler>, h: Handler, r: Record)
    ensures Fired(f, handlers + [h], r)
         == Fired(f, handlers, r) + if r.level >= h.level then [Delivery(h, r.level, Message(f, r))] else []
  {
    if handlers == [] {
      assert [] + [h] == [h] && [h][1..] == [];
      assert Fired(f, [], r) == [];
    } else {
      FiredWith(f, handlers[1..], h, r);
      assert (handlers + [h])[1..] == handlers[1..] + [h];
    }
  }

  /** One handler fewer: one delivery fewer of each record that is for it, and no difference else. */
  lemma {:induction false} FiredWithout(f: Percent, handlers: seq<Handler>, h: Handler, r: Record)
    requires h in handlers
    ensures var less := Fired(f, DeleteFirst(handlers, h), r);
            if r.level >= h.level then |Fired(f, handlers, r)| == |less| + 1 else Fired(f, handlers, r) == less
  {
    if handlers[0] != h {
      assert h in handlers[1..];
      FiredWithout(f, handlers[1..], h, r);
      assert ([handlers[0]] + DeleteFirst(handlers[1..], h))[1..] == DeleteFirst(handlers[1..], h);
    }
  }

  /** `more` delivers one thing more than `less` of each record that is for h, and the same of any other. */
  ghost predicate OneMore(f: Percent, more: seq<Handler>, less: seq<Handler>, h: Handler) {
    forall r: Record ::
      if r.level >= h.level then |Fired(f, more, r)| == |Fired(f, less, r)| + 1
      else Fired(f, more, r) == Fired(f, less, r)
  }

  lemma AddedIsOneMore(f: Percent, handlers: seq<Handler>, h: Handler)
    ensures OneMore(f, handlers + [h], handlers, h)
  {
    forall r: Record
      ensures if r.level >= h.level then |Fired(f, handlers + [h], r)| == |Fired(f, handlers, r)| + 1
              else Fired(f, handlers + [h], r) == Fired(f, handlers, r)
    {
      FiredWith(f, handlers, h, r);
    }
  }

  lemma RemovedIsOneLess(f: Percent, handlers: seq<Handler>, h: Handler)
    requires h in handlers
    ensures OneMore(f, handlers, DeleteFirst(handlers, h), h)
  {
    forall r: Record
      ensures if r.level >= h.level then |Fired(f, handlers, r)| == |Fired(f, DeleteFirst(handlers, h), r)| + 1
              else Fired(f, handlers, r) == Fired(f, DeleteFirst(handlers, h), r)
    {
      FiredWithout(f, handlers, h, r);
    }
  }

  /** What is pending is the same with one handler more exactly when nothing queued is for it. */
  lemma {:induction false} PendingOneMore(f: Percent, more: seq<Handler>, less: seq<Handler>, h: Handler, chain: Chain,
                                          queue: seq<Record>)
    requires OneMore(f, more, less, h)
    ensures |Pending(f, more, chain, queue)| >= |Pending(f, less, chain, queue)|
    ensures if Ignores(h, queue) then Pending(f, more, chain, queue) == Pending(f, less, chain, queue)
            else |Pending(f, more, chain, queue)| > |Pending(f, less, chain, queue)|
  {
    if queue != [] {
      PendingOneMore(f, more, less, h, chain, queue[1..]);
      assert Ignores(h, queue) <==> queue[0].level < h.level && Ignores(h, queue[1..]) by {
        assert forall i | 1 <= i < |queue| :: queue[i] == queue[1..][i - 1];
      }
    }
  }

  lemma LogSimulates(f: Percent, chain: Chain, q: Queued, d: Direct, r: Record, threshold: int)
    requires Simulates(f, chain, q, d)
    ensures Simulates(f, chain, QueuedNext(f, chain, q, Log(r, threshold)), DirectNext(f, chain, d, Log(r, threshold)))
            <==> Harmless(f, chain, q, Log(r, threshold))
  {
    if r.level >= threshold {
      PendingAppend(f, q.handlers, chain, q.queue, Rendered(f, r));
      CallRendered(f, q.handlers, chain, r);
      Regroup(q.delivered, Pending(f, q.handlers, chain, q.queue), Call(f, q.handlers, chain, r));
      Lengthens(d.delivered, Call(f, q.handlers, chain, r));
    }
  }

  lemma AddSimulates(f: Percent, chain: Chain, q: Queued, d: Direct, h: Handler)
    requires Simulates(f, chain, q, d)
    ensures Simulates(f, chain, QueuedNext(f, chain, q, Add(h)), DirectNext(f, chain, d, Add(h)))
            <==> Harmless(f, chain, q, Add(h))
  {
    AddedIsOneMore(f, q.handlers, h);
    PendingOneMore(f, q.handlers + [h], q.handlers, h, chain, q.queue);
  }

  lemma RemoveSimulates(f: Percent, chain: Chain, q: Queued, d: Direct, h: Handler)
    requires Simulates(f, chain, q, d)
    ensures Simulates(f, chain, QueuedNext(f, chain, q, Remove(h)), DirectNext(f, chain, d, Remove(h)))
            <==> Harmless(f, chain, q, Remove(h))
  {
    DeleteAbsent(q.handlers, h);
    if h in q.handlers {
      RemovedIsOneLess(f, q.handlers, h);
      PendingOneMore(f, q.handlers, DeleteFirst(q.handlers, h), h, chain, q.queue);
    }
  }

  /** The step keeps the two modes together exactly when it is harmless. */
  lemma StepSimulatesExactlyWhen(f: Percent, chain: Chain, q: Queued, d: Direct, op: Op)
    requires Simulates(f, chain, q, d)
    ensures Simulates(f, chain, QueuedNext(f, chain, q, op), DirectNext(f, chain, d, op)) <==> Harmless(f, chain, q, op)
  {
    match op
    case Log(r, threshold) => LogSimulates(f, chain, q, d, r, threshold);
    case Add(h) => AddSimulates(f, chain, q, d, h);
    case Remove(h) => RemoveSimulates(f, chain, q, d, h);
    case Consume =>
      if q.queue != [] {
        Regroup(q.delivered, Call(f, q.handlers, chain, q.queue[0]), Pending(f, q.handlers, chain, q.queue[1..]));
      }
  }

  lemma {:induction false} DeleteAbsent<T>(s: seq<T>, x: T)
    ensures x !in s ==> DeleteFirst(s, x) == s
  {
    if s != [] { DeleteAbsent(s[1..], x); }
  }

  lemma {:induction false} RunSimulates(f: Percent, chain: Chain, d: Direct, ops: seq<Op>)
    requires HarmlessRun(f, chain, Switched(d), ops)
    ensures Simulates(f, chain, QueuedRun(f, chain, Switched(d), ops), DirectRun(f, chain, d, ops))
  {
    if ops == [] {
      assert d.delivered + [] == d.delivered;
    } else {
      RunSimulates(f, chain, d, ops[..|ops| - 1]);
      StepSimulatesExactlyWhen(f, chain, QueuedRun(f, chain, Switched(d), ops[..|ops| - 1]),
                               DirectRun(f, chain, d, ops[..|ops| - 1]), ops[|ops| - 1]);
    }
  }

  /** At every point of the run the queued logger has delivered, or will deliver, what the direct one has. */
  predicate Alongside(f: Percent, chain: Chain, d: Direct, ops: seq<Op>) {
    && (ops == [] || Alongside(f, chain, d, ops[..|ops| - 1]))
    && Simulates(f, chain, QueuedRun(f, chain, Switched(d), ops), DirectRun(f, chain, d, ops))
  }

  /** The modes stay together through a run exactly when each of its steps is harmless where it is taken. */
  lemma {:induction false} AlongsideExactlyWhen(f: Percent, chain: Chain, d: Direct, ops: seq<Op>)
    ensures Alongside(f, chain, d, ops) <==> HarmlessRun(f, chain, Switched(d), ops)
  {
    if ops == [] {
      RunSimulates(f, chain, d, []);
    } else {
      var n := |ops| - 1;
      AlongsideExactlyWhen(f, chain, d, ops[..n]);
      if Alongside(f, chain, d, ops[..n]) {
        StepSimulatesExactlyWhen(f, chain, QueuedRun(f, chain, Switched(d), ops[..n]), DirectRun(f, chain, d, ops[..n]),
                                 ops[n]);
      }
    }
  }

  /** The deliveries are the same once the queue is drained. */
  predicate SameLog(f: Percent, chain: Chain, q: Queued, d: Direct) {
    q.delivered + Pending(f, q.handlers, chain, q.queue) == d.delivered
  }

  /** A step that is not harmless is heard: the logs differ when the queue is drained, at once or after one more
      record. */
  lemma HarmlessIsUnheard(f: Percent, chain: Chain, q: Queued, d: Direct, op: Op)
    requires Simulates(f, chain, q, d)
    ensures var q1, d1 := QueuedNext(f, chain, q, op), DirectNext(f, chain, d, op);
            Harmless(f, chain, q, op)
            <==> && SameLog(f, chain, q1, d1)
                 && forall r: Record | r.level >= DEBUG ::
                      SameLog(f, chain, QueuedNext(f, chain, q1, Log(r, DEBUG)),
                              DirectNext(f, chain, d1, Log(r, DEBUG)))
  {
    var q1, d1 := QueuedNext(f, chain, q, op), DirectNext(f, chain, d, op);
    StepSimulatesExactlyWhen(f, chain, q, d, op);
    if Harmless(f, chain, q, op) {
      forall r: Record | r.level >= DEBUG
        ensures SameLog(f, chain, QueuedNext(f, chain, q1, Log(r, DEBUG)), DirectNext(f, chain, d1, Log(r, DEBUG)))
      {
        StepSimulatesExactlyWhen(f, chain, q1, d1, Log(r, DEBUG));
      }
    } else if SameLog(f, chain, q1, d1) {
      assert op.Add? && op.handler in q.handlers;
      SecondCopyIsHeard(f, chain, q1, d1, op.handler);
    }
  }

  /** With a handler more than the direct logger has, the next record for it is delivered once more. */
  lemma SecondCopyIsHeard(f: Percent, chain: Chain, q: Queued, d: Direct, h: Handler)
    requires SameLog(f, chain, q, d) && q.handlers == d.handlers + [h]
    ensures exists r: Record :: r.level >= DEBUG
              && !SameLog(f, chain, QueuedNext(f, chain, q, Log(r, DEBUG)), DirectNext(f, chain, d, Log(r, DEBUG)))
  {
    var r := Record(if h.level < DEBUG then DEBUG else h.level, "", None);
    PendingAppend(f, q.handlers, chain, q.queue, Rendered(f, r));
    CallRendered(f, q.handlers, chain, r);
    FiredWith(f, d.handlers, h, r);
    assert |Call(f, q.handlers, chain, r)| == |Call(f, d.handlers, chain, r)| + 1;
    var q1, d1 := QueuedNext(f, chain, q, Log(r, DEBUG)), DirectNext(f, chain, d, Log(r, DEBUG));
    assert |q1.delivered + Pending(f, q1.handlers, chain, q1.queue)| == |d1.delivered| + 1;
  }

  /** What one handler has received. */
  function Received(delivered: seq<Delivery>, h: Handler): seq<Delivery> {
    Filter((x: Delivery) => x.handler == h, delivered)
  }

  /** Switching to multiprocess logging changes nobody's log: in every interleaving of harmless steps, each handler has
      received what direct logging would have given it, up to what is still queued; and once the queue is empty,
      exactly that. */
  lemma SwitchPreservesDelivery(f: Percent, chain: Chain, d: Direct, ops: seq<Op>, h: Handler)
    requires HarmlessRun(f, chain, Switched(d), ops)
    ensures var q, direct := QueuedRun(f, chain, Switched(d), ops), DirectRun(f, chain, d, ops);
            && Received(q.delivered, h) <= Received(direct.delivered, h)
            && (q.queue == [] ==> q.delivered == direct.delivered)
  {
    RunSimulates(f, chain, d, ops);
    var q := QueuedRun(f, chain, Switched(d), ops);
    var rest := Pending(f, q.handlers, chain, q.queue);
    FilterAppend((x: Delivery) => x.handler == h, q.delivered, rest);
    assert q.queue == [] ==> q.delivered + rest == q.delivered;
  }

  /** Draining the queue ends in exactly the direct log. */
  lemma {:induction false} DrainingCompletes(f: Percent, chain: Chain, q: Queued, d: Direct, ops: seq<Op>)
    requires Simulates(f, chain, q, d)
    requires |ops| == |q.queue| && forall i | 0 <= i < |ops| :: ops[i] == Consume
    ensures QueuedRun(f, chain, q, ops).queue == [] && QueuedRun(f, chain, q, ops).delivered == d.delivered
  {
    DrainedSoFar(f, chain, q, d, ops);
    var r := QueuedRun(f, chain, q, ops);
    assert Pending(f, r.handlers, chain, []) == [];
    assert r.delivered + [] == r.delivered;
  }

  lemma {:induction false} DrainedSoFar(f: Percent, chain: Chain, q: Queued, d: Direct, ops: seq<Op>)
    requires Simulates(f, chain, q, d)
    requires |ops| <= |q.queue| && forall i | 0 <= i < |ops| :: ops[i] == Consume
    ensures QueuedRun(f, chain, q, ops).queue == q.queue[|ops|..]
    ensures Simulates(f, chain, QueuedRun(f, chain, q, ops), d)
  {
    if ops != [] {
      var n := |ops| - 1;
      DrainedSoFar(f, chain, q, d, ops[..n]);
      StepSimulatesExactlyWhen(f, chain, QueuedRun(f, chain, q, ops[..n]), d, Consume);
    }
  }

  // ---------------------------------------------------------------------------------------------------------------
  // Each limit is needed
  // ---------------------------------------------------------------------------------------------------------------

  lemma RunsMore(f: Percent, chain: Chain, d: Direct, q: Queued, ops: seq<Op>, op: Op)
    ensures DirectRun(f, chain, d, ops + [op]) == DirectNext(f, chain, DirectRun(f, chain, d, ops), op)
    ensures QueuedRun(f, chain, q, ops + [op]) == QueuedNext(f, chain, QueuedRun(f, chain, q, ops), op)
  {
    assert (ops + [op])[..|ops|] == ops;
  }

  lemma ThreeSteps(f: Percent, chain: Chain, d: Direct, q: Queued, a: Op, b: Op, c: Op)
    ensures DirectRun(f, chain, d, [a, b, c])
            == DirectNext(f, chain, DirectNext(f, chain, DirectNext(f, chain, d, a), b), c)
    ensures QueuedRun(f, chain, q, [a, b, c])
            == QueuedNext(f, chain, QueuedNext(f, chain, QueuedNext(f, chain, q, a), b), c)
  {
    RunsMore(f, chain, d, q, [], a);
    RunsMore(f, chain, d, q, [] + [a], b);
    RunsMore(f, chain, d, q, [] + [a] + [b], c);
    assert [] + [a] + [b] + [c] == [a, b, c];
  }

  lemma FiredOnce(f: Percent, h: Handler, r: Record)
    requires r.level >= h.level
    ensures Fired(f, [h], r) == [Delivery(h, r.level, Message(f, r))]
    ensures |Fired(f, [h, h], r)| == 2
  {
    assert [h][1..] == [] && [h, h][1..] == [h];
    assert Fired(f, [], r) == [];
  }

  /** A handler added twice, as reenable_progress_messages may do, hears everything twice in multiprocess mode. */
  lemma AddedTwiceHearsTwice(f: Percent, r: Record, h: Handler)
    requires r.level >= DEBUG && r.level >= h.level
    ensures var chain, d, ops := Chain(false, []), Direct([h], []), [Add(h), Log(r, DEBUG), Consume];
            && |DirectRun(f, chain, d, ops).delivered| == 1
            && QueuedRun(f, chain, Switched(d), ops).queue == []
            && |QueuedRun(f, chain, Switched(d), ops).delivered| == 2
  {
    var d := Direct([h], []);
    ThreeSteps(f, Chain(false, []), d, Switched(d), Add(h), Log(r, DEBUG), Consume);
    assert [h] + [h] == [h, h];
    FiredOnce(f, h, r);
    FiredOnce(f, h, Rendered(f, r));
    assert [] + [Rendered(f, r)] == [Rendered(f, r)];
  }

  /** A handler removed before the flush misses what was logged while it was still there. */
  lemma RemovedTooEarlyMisses(f: Percent, r: Record, h: Handler)
    requires r.level >= DEBUG && r.level >= h.level
    ensures var chain, d, ops := Chain(false, []), Direct([h], []), [Log(r, DEBUG), Remove(h), Consume];
            && |DirectRun(f, chain, d, ops).delivered| == 1
            && QueuedRun(f, chain, Switched(d), ops).queue == []
            && QueuedRun(f, chain, Switched(d), ops).delivered == []
  {
    var d := Direct([h], []);
    ThreeSteps(f, Chain(false, []), d, Switched(d), Log(r, DEBUG), Remove(h), Consume);
    assert DeleteFirst([h], h) == [];
    FiredOnce(f, h, r);
    assert [] + [Rendered(f, r)] == [Rendered(f, r)];
  }

  /** A record below DEBUG from a component whose log level was lowered, which a handler would take, is lost. */
  lemma BelowDebugIsLost(f: Percent, r: Record, h: Handler, threshold: int)
    requires threshold <= r.level < DEBUG && h.level <= r.level
    ensures var chain, d, ops := Chain(false, []), Direct([h], []), [Log(r, threshold)];
            && |DirectRun(f, chain, d, ops).delivered| == 1
            && QueuedRun(f, chain, Switched(d), ops) == Switched(d)
  {
    var d := Direct([h], []);
    RunsMore(f, Chain(false, []), d, Switched(d), [], Log(r, threshold));
    assert [] + [Log(r, threshold)] == [Log(r, threshold)];
    FiredOnce(f, h, r);
  }
}
