/** The logging queue as a step system: any process puts records, the main thread puts SYNC and TERMINATE and waits, and
    the consumer thread takes one item after the other. */
module LogSync {
  import opened Common

  datatype Item<R> = Entry(record: R) | Sync | Terminate

  /** What the main thread is doing. `mark` counts the records put before its sentinel. */
  datatype Main = Idle | Waiting(mark: nat) | Clearing(mark: nat, reached: bool) | Joining(mark: nat)

  /** `emitted` and `handled` are the records ever put on the queue and ever passed to the handlers, in order. */
  datatype State<R> = State(queue: seq<Item<R>>, event: bool, started: bool, alive: bool, main: Main,
                            emitted: seq<R>, handled: seq<R>)

  datatype Step<R> =
    | Emit(record: R)      // QueueHandler.emit, in any process
    | Consume              // one iteration of LoggingThread._run
    | SyncPut              // sync: puts the sentinel
    | SyncWoken            // sync: wait() returns True
    | SyncTimedOut         // sync: wait() returns False
    | SyncClear            // sync: clears the event and returns
    | StopPut              // stop: puts the sentinel
    | StopJoined           // stop: the thread has ended
    | StopFailed           // stop: the thread is still alive, RuntimeError

  function Init<R>(): State<R> {
    State([], false, true, true, Idle, [], [])
  }

  /** The records among the items. */
  function Entries<R>(q: seq<Item<R>>): seq<R> {
    if q == [] then [] else (if q[0].Entry? then [q[0].record] else []) + Entries(q[1..])
  }

  /** What the consumer does with an item. */
  function Take<R>(s: State<R>, item: Item<R>): State<R> {
    match item
    case Terminate => s.(alive := false)
    case Sync => s.(event := true)
    case Entry(r) => s.(handled := s.handled + [r])
  }

  /** The state after a step, or None when the step cannot be taken. */
  function Next<R>(s: State<R>, step: Step<R>): Option<State<R>> {
    match step
    case Emit(r) => Some(s.(queue := s.queue + [Entry(r)], emitted := s.emitted + [r]))
    case Consume =>
      if !s.alive || s.queue == [] then None else Some(Take(s.(queue := s.queue[1..]), s.queue[0]))
    case SyncPut =>
      if !s.main.Idle? || !s.started || !s.alive then None
      else Some(s.(queue := s.queue + [Sync], main := Waiting(|s.emitted|)))
    case SyncWoken =>
      if !s.main.Waiting? || !s.event then None else Some(s.(main := Clearing(s.main.mark, true)))
    case SyncTimedOut =>
      if !s.main.Waiting? || s.event then None else Some(s.(main := Clearing(s.main.mark, false)))
    case SyncClear =>
      if !s.main.Clearing? then None else Some(s.(event := false, main := Idle))
    case StopPut =>
      if !s.main.Idle? || !s.started then None
      else Some(s.(queue := s.queue + [Terminate], main := Joining(|s.emitted|)))
    case StopJoined =>
      if !s.main.Joining? || s.alive then None else Some(s.(started := false, main := Idle))
    case StopFailed =>
      if !s.main.Joining? || !s.alive then None else Some(s.(main := Idle))
  }

  /** The state after all the steps, if each can be taken. */
  function Exec<R>(s: State<R>, steps: seq<Step<R>>): Option<State<R>> {
    if steps == [] then Some(s)
    else
      match Exec(s, steps[..|steps| - 1])
      case None => None
      case Some(t) => Next(t, steps[|steps| - 1])
  }

  // ---------------------------------------------------------------------------------------------------------------
  // Conservation: the queue is first in, first out and loses nothing
  // ---------------------------------------------------------------------------------------------------------------

  lemma {:induction false} EntriesAppend<R>(a: seq<Item<R>>, b: seq<Item<R>>)
    ensures Entries(a + b) == Entries(a) + Entries(b)
  {
    if a == [] {
      assert a + b == b;
    } else {
      EntriesAppend(a[1..], b);
      HeadOfBoth(a, b);
    }
  }

  lemma EntriesOne<R>(x: Item<R>)
    ensures Entries([x]) == if x.Entry? then [x.record] else []
  {
    assert [x][1..] == [];
  }

  /** What was emitted is what was handled, followed by what is still queued. */
  predicate Conserved<R(==)>(s: State<R>) {
    s.emitted == s.handled + Entries(s.queue)
  }

  lemma NextConserves<R>(s: State<R>, step: Step<R>)
    requires Conserved(s) && Next(s, step).Some?
    ensures Conserved(Next(s, step).value)
  {
    match step
    case Emit(r) => PutConserves(s, Entry(r));
    case SyncPut => PutConserves(s, Sync);
    case StopPut => PutConserves(s, Terminate);
    case Consume => TakeConserves(s.handled, s.queue);
    case _ =>
  }

  lemma PutConserves<R>(s: State<R>, x: Item<R>)
    requires Conserved(s)
    ensures s.emitted + (if x.Entry? then [x.record] else []) == s.handled + Entries(s.queue + [x])
  {
    EntriesAppend(s.queue, [x]);
    EntriesOne(x);
    assert s.emitted + [] == s.emitted;
  }

  lemma TakeConserves<R>(handled: seq<R>, queue: seq<Item<R>>)
    requires queue != []
    ensures handled + Entries(queue)
            == (if queue[0].Entry? then handled + [queue[0].record] else handled) + Entries(queue[1..])
  {
  }

  // ---------------------------------------------------------------------------------------------------------------
  // Sync is a barrier as long as no sync has timed out
  // ---------------------------------------------------------------------------------------------------------------

  function Syncs<R>(q: seq<Item<R>>): nat {
    if q == [] then 0 else (if q[0].Sync? then 1 else 0) + Syncs(q[1..])
  }

  lemma {:induction false} SyncsAppend<R>(a: seq<Item<R>>, b: seq<Item<R>>)
    ensures Syncs(a + b) == Syncs(a) + Syncs(b)
  {
    if a == [] {
      assert a + b == b;
    } else {
      SyncsAppend(a[1..], b);
      HeadOfBoth(a, b);
    }
  }

  lemma SyncsOne<R>(x: Item<R>)
    ensures Syncs([x]) == if x.Sync? then 1 else 0
  {
    assert [x][1..] == [];
  }

  /** The sentinels on the way: SYNCs in the queue, and the event if it is set. */
  function Outstanding<R>(s: State<R>): nat {
    Syncs(s.queue) + if s.event then 1 else 0
  }

  /** The main thread's sentinels: one while it waits, none otherwise. */
  predicate Orderly<R>(s: State<R>) {
    Outstanding(s) == match s.main
                      case Waiting(_) => 1
                      case Clearing(_, reached) => if reached then 1 else Outstanding(s)
                      case _ => 0
  }

  lemma NextOrderly<R>(s: State<R>, step: Step<R>)
    requires Orderly(s) && Next(s, step).Some? && step != SyncTimedOut
    requires s.main.Clearing? ==> s.main.reached && s.event
    ensures var t := Next(s, step).value;
            Orderly(t) && (t.main.Clearing? ==> t.main.reached && t.event)
  {
    match step
    case Emit(r) => SyncsAppend(s.queue, [Entry(r)]); SyncsOne(Entry(r));
    case SyncPut => SyncsAppend(s.queue, [Sync]); SyncsOne<R>(Sync);
    case StopPut => SyncsAppend(s.queue, [Terminate]); SyncsOne<R>(Terminate);
    case _ =>
  }

  // ---------------------------------------------------------------------------------------------------------------
  // When the next wake-up comes
  // ---------------------------------------------------------------------------------------------------------------

  /** The queue that is left when the consumer takes the first SYNC; None if it never takes one from this queue. */
  function AfterFirstSync<R>(q: seq<Item<R>>): Option<seq<Item<R>>> {
    if q == [] then None
    else
      match q[0]
      case Entry(_) => AfterFirstSync(q[1..])
      case Sync => Some(q[1..])
      case Terminate => None
  }

  /** A waiting main thread cannot be woken before the `mark` first records are handled. */
  predicate Guarded<R>(s: State<R>, mark: nat) {
    if s.event then |s.handled| >= mark
    else s.alive && AfterFirstSync(s.queue).Some? ==> |s.emitted| >= mark + |Entries(AfterFirstSync(s.queue).value)|
  }

  lemma {:induction false} AfterFirstSyncAppend<R>(q: seq<Item<R>>, x: Item<R>)
    ensures AfterFirstSync(q).Some? ==> AfterFirstSync(q + [x]) == Some(AfterFirstSync(q).value + [x])
    ensures AfterFirstSync(q).None? ==>
              AfterFirstSync(q + [x]).None? || (x == Sync && AfterFirstSync(q + [x]) == Some([]))
  {
    if q == [] {
      assert q + [x] == [x] && [x][1..] == [];
    } else {
      AfterFirstSyncAppend(q[1..], x);
      assert (q + [x])[1..] == q[1..] + [x] && (q + [x])[0] == q[0];
    }
  }

  /** While the main thread waits, it stays guarded, whatever the producers and the consumer do. */
  lemma NextGuarded<R>(s: State<R>, step: Step<R>)
    requires Conserved(s) && s.main.Waiting? && Guarded(s, s.main.mark) && Next(s, step).Some?
    ensures var t := Next(s, step).value;
            if t.main.Waiting? then t.main.mark == s.main.mark && Guarded(t, t.main.mark)
            else && t.main == Clearing(s.main.mark, step == SyncWoken)
                 && (step == SyncWoken ==> |t.handled| >= s.main.mark)
  {
    match step
    case Emit(r) =>
      AfterFirstSyncAppend(s.queue, Entry(r));
      if AfterFirstSync(s.queue).Some? {
        EntriesAppend(AfterFirstSync(s.queue).value, [Entry(r)]);
        EntriesOne(Entry(r));
      }
    case Consume =>
      NextConserves(s, step);
    case _ =>
  }

  lemma {:induction false} NoSyncNoWake<R>(q: seq<Item<R>>)
    ensures Syncs(q) == 0 ==> AfterFirstSync(q).None?
  {
    if q != [] { NoSyncNoWake(q[1..]); }
  }

  /** sync starts guarded unless an older SYNC, queued or already turned into the event, can wake it too early. */
  predicate Premature<R(==)>(s: State<R>) {
    if s.event then Entries(s.queue) != []
    else AfterFirstSync(s.queue).Some? && Entries(AfterFirstSync(s.queue).value) != []
  }

  lemma StartsGuarded<R>(s: State<R>)
    requires Conserved(s) && Next(s, SyncPut).Some? && !Premature(s)
    ensures Guarded(Next(s, SyncPut).value, |s.emitted|)
  {
    AfterFirstSyncAppend(s.queue, Sync);
    if !s.event && AfterFirstSync(s.queue).Some? {
      EntriesAppend(AfterFirstSync(s.queue).value, [Sync]);
      EntriesOne<R>(Sync);
    }
  }

  // ---------------------------------------------------------------------------------------------------------------
  // The same for TERMINATE and stop
  // ---------------------------------------------------------------------------------------------------------------

  /** The queue that is left when the consumer takes the first TERMINATE. */
  function AfterTerminate<R>(q: seq<Item<R>>): Option<seq<Item<R>>> {
    if q == [] then None else if q[0].Terminate? then Some(q[1..]) else AfterTerminate(q[1..])
  }

  lemma {:induction false} AfterTerminateAppend<R>(q: seq<Item<R>>, x: Item<R>)
    ensures AfterTerminate(q + [x])
            == match AfterTerminate(q)
               case Some(rest) => Some(rest + [x])
               case None => if x.Terminate? then Some([]) else None
  {
    if q == [] {
      assert q + [x] == [x] && [x][1..] == [];
    } else {
      AfterTerminateAppend(q[1..], x);
      assert (q + [x])[1..] == q[1..] + [x] && (q + [x])[0] == q[0];
    }
  }

  /** The thread is told to end only by a stop that is under way, and then not before the marked records. */
  predicate Ending<R>(s: State<R>) {
    match s.main
    case Joining(mark) =>
      if s.alive then
        AfterTerminate(s.queue).Some? && |s.emitted| >= mark + |Entries(AfterTerminate(s.queue).value)|
      else |s.handled| >= mark
    case _ => s.started ==> s.alive && AfterTerminate(s.queue).None?
  }

  lemma NextEnding<R>(s: State<R>, step: Step<R>)
    requires Conserved(s) && Ending(s) && (s.started || s.main.Idle?) && Next(s, step).Some? && step != StopFailed
    ensures var t := Next(s, step).value; Ending(t) && (t.started || t.main.Idle?)
  {
    match step
    case Emit(r) => PutEnding(s.queue, Entry(r));
    case SyncPut => PutEnding<R>(s.queue, Sync);
    case StopPut => PutEnding<R>(s.queue, Terminate);
    case Consume => NextConserves(s, step);
    case _ =>
  }

  lemma PutEnding<R>(q: seq<Item<R>>, x: Item<R>)
    ensures AfterTerminate(q + [x])
            == match AfterTerminate(q)
               case Some(rest) => Some(rest + [x])
               case None => if x.Terminate? then Some([]) else None
    ensures AfterTerminate(q).Some? ==>
              |Entries(AfterTerminate(q).value + [x])| == |Entries(AfterTerminate(q).value)| + if x.Entry? then 1 else 0
  {
    AfterTerminateAppend(q, x);
    if AfterTerminate(q).Some? {
      EntriesAppend(AfterTerminate(q).value, [x]);
      EntriesOne(x);
    }
  }

  // ---------------------------------------------------------------------------------------------------------------
  // Whole runs
  // ---------------------------------------------------------------------------------------------------------------

  /** No sync has timed out and no stop has failed. */
  predicate Untroubled<R(==)>(steps: seq<Step<R>>) {
    forall i | 0 <= i < |steps| :: steps[i] != SyncTimedOut && steps[i] != StopFailed
  }

  predicate Good<R(==)>(s: State<R>) {
    && Conserved(s) && Orderly(s) && Ending(s) && (s.started || s.main.Idle?)
    && (s.main.Waiting? ==> Guarded(s, s.main.mark))
    && (s.main.Clearing? ==> s.main.reached && s.event && |s.handled| >= s.main.mark)
  }

  lemma NextGood<R>(s: State<R>, step: Step<R>)
    requires Good(s) && Next(s, step).Some? && step != SyncTimedOut && step != StopFailed
    ensures Good(Next(s, step).value)
  {
    NextConserves(s, step);
    NextOrderly(s, step);
    NextEnding(s, step);
    if s.main.Waiting? {
      NextGuarded(s, step);
    } else if step == SyncPut {
      NoSyncNoWake(s.queue);
      StartsGuarded(s);
    }
  }

  lemma {:induction false} RunsAreGood<R>(steps: seq<Step<R>>)
    requires Untroubled(steps) && Exec(Init(), steps).Some?
    ensures Good(Exec(Init(), steps).value)
  {
    if steps != [] {
      RunsAreGood(steps[..|steps| - 1]);
      NextGood(Exec(Init(), steps[..|steps| - 1]).value, steps[|steps| - 1]);
    }
  }

  /** In every interleaving without a timed-out sync: when sync stops waiting, every record put before its sentinel has
      been handled, and there is never more than one SYNC or set event on the way. */
  lemma SyncIsBarrier<R>(steps: seq<Step<R>>)
    requires Untroubled(steps) && Exec(Init(), steps).Some?
    ensures var s: State<R> := Exec(Init(), steps).value;
            && Outstanding(s) <= 1
            && (s.main.Clearing? ==>
                  s.main.reached && s.main.mark <= |s.emitted| && s.emitted[..s.main.mark] <= s.handled)
  {
    RunsAreGood(steps);
  }

  /** And when stop has joined the thread, every record put before TERMINATE has been handled. */
  lemma StopIsBarrier<R>(steps: seq<Step<R>>)
    requires Untroubled(steps) && Exec(Init(), steps).Some?
    ensures var s: State<R> := Exec(Init(), steps).value;
            Next(s, StopJoined).Some? ==> s.main.mark <= |s.emitted| && s.emitted[..s.main.mark] <= s.handled
  {
    RunsAreGood(steps);
  }

  // ---------------------------------------------------------------------------------------------------------------
  // Exactly when a call of sync is a barrier
  // ---------------------------------------------------------------------------------------------------------------

  /** The run is one call of sync, up to the end of its wait, among steps of producers and the consumer. */
  predicate OneSync<R(==)>(steps: seq<Step<R>>) {
    steps != [] && steps[0] == SyncPut && forall i | 0 <= i < |steps| :: steps[i] != SyncClear
  }

  /** However the call goes on: if its wait succeeds, all records put before the call have been handled. */
  ghost predicate Barrier<R(!new)>(s: State<R>) {
    forall steps | OneSync(steps) && Exec(s, steps).Some? ::
      Exec(s, steps).value.main == Clearing(|s.emitted|, true) ==> |Exec(s, steps).value.handled| >= |s.emitted|
  }

  /** After a run of one sync the thread still waits, guarded, or its wait ended, rightly. */
  lemma {:induction false} OneSyncRun<R>(s: State<R>, steps: seq<Step<R>>)
    requires Conserved(s) && !Premature(s) && OneSync(steps) && Exec(s, steps).Some?
    ensures var t := Exec(s, steps).value;
            && Conserved(t)
            && match t.main
               case Waiting(mark) => mark == |s.emitted| && Guarded(t, mark)
               case Clearing(mark, reached) => mark == |s.emitted| && (reached ==> |t.handled| >= mark)
               case _ => false
    decreases |steps|
  {
    var n := |steps| - 1;
    if n == 0 {
      assert steps == [SyncPut] && Exec(s, steps[..0]) == Some(s);
      StartsGuarded(s);
      NextConserves(s, SyncPut);
    } else {
      OneSyncRun(s, steps[..n]);
      var t := Exec(s, steps[..n]).value;
      NextConserves(t, steps[n]);
      if t.main.Waiting? { NextGuarded(t, steps[n]); }
    }
  }

  function Consumes<R>(n: nat): (r: seq<Step<R>>)
    ensures |r| == n && forall i | 0 <= i < n :: r[i] == Consume
  {
    seq(n, _ => Consume)
  }

  lemma {:induction false} ExecAppend<R>(s: State<R>, a: seq<Step<R>>, b: seq<Step<R>>)
    requires Exec(s, a).Some?
    ensures Exec(s, a + b) == Exec(Exec(s, a).value, b)
    decreases |b|
  {
    if b == [] {
      assert a + b == a;
    } else {
      ExecAppend(s, a, b[..|b| - 1]);
      assert (a + b)[..|a + b| - 1] == a + b[..|b| - 1];
    }
  }

  lemma ExecOne<R>(s: State<R>, step: Step<R>)
    ensures Exec(s, [step]) == Next(s, step)
  {
    assert [step][..0] == [];
    assert Exec(s, []) == Some(s);
  }

  /** The consumer alone can run up to the first SYNC. */
  lemma {:induction false} DrainToSync<R>(s: State<R>) returns (n: nat)
    requires s.alive && AfterFirstSync(s.queue).Some? && Conserved(s)
    ensures Exec(s, Consumes(n)).Some?
    ensures var t := Exec(s, Consumes(n)).value;
            && t.queue == AfterFirstSync(s.queue).value
            && t.event && t.main == s.main && t.emitted == s.emitted && Conserved(t)
    decreases |s.queue|
  {
    var t := Next(s, Consume).value;
    NextConserves(s, Consume);
    ExecOne(s, Consume);
    if s.queue[0].Sync? {
      n := 1;
      assert Consumes<R>(1) == [Consume];
    } else {
      var m := DrainToSync(t);
      n := m + 1;
      ExecAppend(s, [Consume], Consumes(m));
      assert Consumes<R>(n) == [Consume] + Consumes(m);
    }
  }

  /** After SYNC is put on a premature state, the consumer can set the event while a record is pending. */
  lemma EarlyEvent<R>(s: State<R>) returns (n: nat)
    requires Conserved(s) && Next(s, SyncPut).Some? && Premature(s)
    ensures Exec(s, [SyncPut] + Consumes(n)).Some?
    ensures var u := Exec(s, [SyncPut] + Consumes(n)).value;
            u.event && u.main == Waiting(|s.emitted|) && |u.handled| < |s.emitted|
  {
    var t := Next(s, SyncPut).value;
    NextConserves(s, SyncPut);
    ExecOne(s, SyncPut);
    EntriesOne<R>(Sync);
    n := 0;
    if s.event {
      EntriesAppend(s.queue, [Sync]);
      assert Exec(t, Consumes(0)) == Some(t);
    } else {
      AfterFirstSyncAppend(s.queue, Sync);
      EntriesAppend(AfterFirstSync(s.queue).value, [Sync]);
      n := DrainToSync(t);
    }
    ExecAppend(s, [SyncPut], Consumes(n));
  }

  /** A premature state has a run in which sync returns too early. */
  lemma PrematureBreaks<R(!new)>(s: State<R>)
    requires Conserved(s) && Next(s, SyncPut).Some? && Premature(s)
    ensures !Barrier(s)
  {
    var n := EarlyEvent(s);
    var first := [SyncPut] + Consumes(n);
    ExecAppend(s, first, [SyncWoken]);
    ExecOne(Exec(s, first).value, SyncWoken);
    assert OneSync(first + [SyncWoken]) && Exec(s, first + [SyncWoken]).Some?;
  }

  /** sync is a barrier exactly when no record is pending behind an older SYNC, or behind an event already set. */
  lemma BarrierExactlyWhen<R(!new)>(s: State<R>)
    requires Conserved(s) && Next(s, SyncPut).Some?
    ensures Barrier(s) <==> !Premature(s)
  {
    if Premature(s) {
      PrematureBreaks(s);
    } else {
      forall steps | OneSync(steps) && Exec(s, steps).Some?
        ensures Exec(s, steps).value.main == Clearing(|s.emitted|, true) ==>
                  |Exec(s, steps).value.handled| >= |s.emitted|
      {
        OneSyncRun(s, steps);
      }
    }
  }

  lemma ExecMore<R>(s: State<R>, steps: seq<Step<R>>, step: Step<R>, t: State<R>)
    requires Exec(s, steps) == Some(t)
    ensures Exec(s, steps + [step]) == Next(t, step)
  {
    assert (steps + [step])[..|steps|] == steps;
  }

  /** A timed-out sync leaves such a state behind, as soon as another record is logged. */
  lemma TimeoutSpoilsNextSync(a: nat, b: nat)
    ensures var steps := [Emit(a), SyncPut, SyncTimedOut, SyncClear, Emit(b)];
            && Exec(Init(), steps).Some? && Conserved(Exec(Init(), steps).value)
            && Next(Exec(Init(), steps).value, SyncPut).Some? && Premature(Exec(Init(), steps).value)
  {
    var s0: State<nat> := Init();
    var s1 := Next(s0, Emit(a)).value;
    var s2 := Next(s1, SyncPut).value;
    var s3 := Next(s2, SyncTimedOut).value;
    var s4 := Next(s3, SyncClear).value;
    var s5 := Next(s4, Emit(b)).value;
    assert s5.queue == [Entry(a), Sync, Entry(b)];
    var steps := [Emit(a), SyncPut, SyncTimedOut, SyncClear, Emit(b)];
    var p1, p2 := [Emit(a)], [Emit(a)] + [SyncPut];
    var p3 := p2 + [SyncTimedOut];
    var p4 := p3 + [SyncClear];
    ExecOne(s0, Emit(a));
    ExecMore(s0, p1, SyncPut, s1);
    ExecMore(s0, p2, SyncTimedOut, s2);
    ExecMore(s0, p3, SyncClear, s3);
    ExecMore(s0, p4, Emit(b), s4);
    assert steps == p4 + [Emit(b)];
    NextConserves(s0, Emit(a));
    NextConserves(s1, SyncPut);
    NextConserves(s4, Emit(b));
    assert s5.queue[1..] == [Sync, Entry(b)] && s5.queue[1..][1..] == [Entry(b)];
    EntriesOne(Entry(b));
  }
}
