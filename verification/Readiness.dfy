/** make_device_ready: checking, recovering and reflashing a device that may answer every action in any way. */
module Readiness {
  import opened Common

  /** Which of errors.CheckDeviceReadyError, errors.DeviceError (but not the former) or neither an exception is. */
  datatype Kind = CheckDeviceReady | DeviceFailure | Foreign

  /** An exception; `cls` is its Python type. */
  datatype Error = Error(cls: nat, kind: Kind, text: string)

  datatype Setting = On | Off | CheckOnly | FlashBuild

  datatype Action = Check | Recover(error: Error) | Reflash

  /** An action together with the exception it raised, if any. */
  datatype Event = Event(action: Action, raised: Option<Error>)

  /** The device: what an action raises, after everything that has happened. */
  type World = (seq<Event>, Action) -> Option<Error>

  datatype Params = Params(setting: Setting, attempts: nat, hasFlashBuild: bool)

  // ---------------------------------------------------------------------------------------------------------------
  // The policy: what to do next, from the history alone
  // ---------------------------------------------------------------------------------------------------------------

  datatype Decision = Do(action: Action) | Finish(raise: Option<Error>)

  function Recovers(h: seq<Event>): nat {
    if h == [] then 0 else Recovers(h[..|h| - 1]) + if h[|h| - 1].action.Recover? then 1 else 0
  }

  function Checks(h: seq<Event>): nat {
    if h == [] then 0 else Checks(h[..|h| - 1]) + if h[|h| - 1].action.Check? then 1 else 0
  }

  function Reflashes(h: seq<Event>): nat {
    if h == [] then 0 else Reflashes(h[..|h| - 1]) + if h[|h| - 1].action.Reflash? then 1 else 0
  }

  /** The error passed to the latest recover. */
  function LastRecovered(h: seq<Event>): Option<Error> {
    if h == [] then None
    else if h[|h| - 1].action.Recover? then Some(h[|h| - 1].action.error)
    else LastRecovered(h[..|h| - 1])
  }

  /** Recovery has failed with `e`: the last resort is a reflash. */
  function GiveUp(p: Params, e: Error): Decision {
    if p.setting == FlashBuild && p.hasFlashBuild then Do(Reflash) else Finish(Some(e))
  }

  /** A readiness check raised `e`. */
  function AfterFailedCheck(p: Params, h: seq<Event>, e: Error): Decision {
    if Reflashes(h) > 0 || e.kind == Foreign then Finish(Some(e))
    else if Recovers(h) == p.attempts then (if e.kind == CheckDeviceReady then GiveUp(p, e) else Finish(Some(e)))
    else if p.setting == CheckOnly then Finish(Some(e))
    else if LastRecovered(h).Some? && LastRecovered(h).value.cls == e.cls then GiveUp(p, e)
    else Do(Recover(e))
  }

  function Decide(p: Params, h: seq<Event>): Decision {
    if p.setting == Off then Finish(None)
    else if h == [] then Do(Check)
    else
      var last := h[|h| - 1];
      if last.raised.None? then (if last.action.Check? then Finish(None) else Do(Check))
      else
        var e := last.raised.value;
        match last.action
        case Check => AfterFailedCheck(p, h, e)
        case Recover(_) => if e.kind == Foreign then Finish(Some(e)) else GiveUp(p, e)
        case Reflash => Finish(Some(e))
  }

  /** Each event is the action the policy asks for at that point. */
  predicate Follows(p: Params, h: seq<Event>) {
    h == [] || (Follows(p, h[..|h| - 1]) && Decide(p, h[..|h| - 1]) == Do(h[|h| - 1].action))
  }

  /** Each event's outcome is the world's answer. */
  predicate Answered(w: World, h: seq<Event>) {
    h == [] || (Answered(w, h[..|h| - 1]) && h[|h| - 1].raised == w(h[..|h| - 1], h[|h| - 1].action))
  }

  lemma {:induction false} FollowsAt(p: Params, h: seq<Event>, i: nat)
    requires Follows(p, h) && i < |h|
    ensures Decide(p, h[..i]) == Do(h[i].action)
  {
    if i < |h| - 1 {
      FollowsAt(p, h[..|h| - 1], i);
      assert h[..|h| - 1][..i] == h[..i];
    }
  }

  lemma {:induction false} AnsweredAt(w: World, h: seq<Event>, i: nat)
    requires Answered(w, h) && i < |h|
    ensures h[i].raised == w(h[..i], h[i].action)
  {
    if i < |h| - 1 {
      AnsweredAt(w, h[..|h| - 1], i);
      assert h[..|h| - 1][..i] == h[..i];
    }
  }

  /** Performs an action and records it. */
  method Perform(p: Params, w: World, h: seq<Event>, a: Action) returns (raised: Option<Error>, t: seq<Event>)
    requires Follows(p, h) && Answered(w, h) && Decide(p, h) == Do(a)
    ensures t == h + [Event(a, raised)] && Follows(p, t) && Answered(w, t)
    ensures Recovers(t) == Recovers(h) + if a.Recover? then 1 else 0
    ensures Reflashes(t) == Reflashes(h) + if a.Reflash? then 1 else 0
    ensures LastRecovered(t) == if a.Recover? then Some(a.error) else LastRecovered(h)
  {
    raised := w(h, a);
    t := h + [Event(a, raised)];
    assert t[..|t| - 1] == h;
  }

  /** One recover. A DeviceError ends the loop and leaves the last resort; any other exception ends the whole call. */
  method RecoverFrom(p: Params, w: World, h: seq<Event>, e: Error)
    returns (finished: bool, raised: Option<Error>, t: seq<Event>)
    requires Follows(p, h) && Answered(w, h) && Decide(p, h) == Do(Recover(e))
    ensures Follows(p, t) && Answered(w, t)
    ensures Recovers(t) == Recovers(h) + 1 && Reflashes(t) == Reflashes(h) && LastRecovered(t) == Some(e)
    ensures Decide(p, t) == if finished then Finish(raised)
                            else if raised.Some? then GiveUp(p, raised.value)
                            else Do(Check)
  {
    raised, t := Perform(p, w, h, Recover(e));
    finished := raised.Some? && raised.value.kind == Foreign;
  }

  /** The for loop of make_device_ready. It may finish the whole call; otherwise it ends with an unrecoverable error, or
      with None after running out of attempts. */
  method TryToRecover(p: Params, w: World)
    returns (finished: bool, raise: Option<Error>, unrecoverable: Option<Error>, trace: seq<Event>)
    requires p.setting != Off
    ensures Follows(p, trace) && Answered(w, trace)
    ensures finished ==> Decide(p, trace) == Finish(raise)
    ensures !finished ==>
              && Reflashes(trace) == 0
              && match unrecoverable
                 case Some(e) => Decide(p, trace) == GiveUp(p, e)
                 case None => Decide(p, trace) == Do(Check) && Recovers(trace) == p.attempts
  {
    trace, unrecoverable, raise := [], None, None;
    var recoverable: Option<Error> := None;
    var attempt := 0;
    while attempt < p.attempts
      invariant 0 <= attempt <= p.attempts && unrecoverable.None?
      invariant Follows(p, trace) && Answered(w, trace) && Decide(p, trace) == Do(Check)
      invariant Recovers(trace) == attempt && Reflashes(trace) == 0 && LastRecovered(trace) == recoverable
    {
      raise, trace := Perform(p, w, trace, Check);
      if raise.None? || raise.value.kind == Foreign || p.setting == CheckOnly {
        return true, raise, None, trace;
      }
      if recoverable.Some? && recoverable.value.cls == raise.value.cls {
        return false, None, raise, trace;
      }
      recoverable := raise;
      finished, unrecoverable, trace := RecoverFrom(p, w, trace, raise.value);
      if finished || unrecoverable.Some? {
        raise := if finished then unrecoverable else None;
        return;
      }
      attempt := attempt + 1;
    }
    finished := false;
  }

  /** make_device_ready; `trace` is what it did to the device, `raise` the exception it ends with. */
  method MakeDeviceReady(p: Params, w: World) returns (raise: Option<Error>, trace: seq<Event>)
    ensures Follows(p, trace) && Answered(w, trace)
    ensures Decide(p, trace) == Finish(raise)
    ensures IsWholeRun(p, trace) && raise == if trace == [] then None else trace[|trace| - 1].raised
  {
    raise, trace := CheckAndRecover(p, w);
    FollowsExactlyWhen(p, trace);
    FinishedExactlyWhen(p, trace, raise);
  }

  /** The body of make_device_ready. */
  method CheckAndRecover(p: Params, w: World) returns (raise: Option<Error>, trace: seq<Event>)
    ensures Follows(p, trace) && Answered(w, trace)
    ensures Decide(p, trace) == Finish(raise)
  {
    if p.setting == Off {
      return None, [];
    }
    var finished, unrecoverable;
    finished, raise, unrecoverable, trace := TryToRecover(p, w);
    if finished {
      return;
    }
    if unrecoverable.None? {
      raise, trace := Perform(p, w, trace, Check);
      if raise.None? || raise.value.kind != CheckDeviceReady {
        return;
      }
      unrecoverable := raise;
    }
    raise, trace := LastResort(p, w, trace, unrecoverable.value);
  }

  /** The end of make_device_ready, once recovery has failed. */
  method LastResort(p: Params, w: World, h: seq<Event>, unrecoverable: Error)
    returns (raise: Option<Error>, trace: seq<Event>)
    requires Follows(p, h) && Answered(w, h) && Reflashes(h) == 0 && p.setting != Off
    requires Decide(p, h) == GiveUp(p, unrecoverable)
    ensures Follows(p, trace) && Answered(w, trace) && Decide(p, trace) == Finish(raise)
  {
    if p.setting != FlashBuild || !p.hasFlashBuild {
      return Some(unrecoverable), h;
    }
    raise, trace := Perform(p, w, h, Reflash);
    if raise.Some? {
      return;
    }
    raise, trace := Perform(p, w, trace, Check);
  }

  // ---------------------------------------------------------------------------------------------------------------
  // What the policy guarantees
  // ---------------------------------------------------------------------------------------------------------------

  /** How far a run can have got. */
  predicate Bounded(p: Params, h: seq<Event>) {
    && (Reflashes(h) == 0 ==>
          && Recovers(h) <= p.attempts
          && Checks(h) == Recovers(h) + if h != [] && h[|h| - 1].action.Check? then 1 else 0)
    && (Reflashes(h) > 0 ==>
          && Reflashes(h) == 1 && h != [] && p.setting == FlashBuild && p.hasFlashBuild
          && Recovers(h) <= p.attempts && !h[|h| - 1].action.Recover?
          && Checks(h) <= p.attempts + 1 + if h[|h| - 1].action.Check? then 1 else 0)
    && (p.setting == CheckOnly ==> Recovers(h) == 0)
    && (p.setting == Off ==> h == [])
  }

  lemma {:induction false} FollowsIsBounded(p: Params, h: seq<Event>)
    requires Follows(p, h)
    ensures Bounded(p, h)
  {
    if h != [] {
      var n := |h| - 1;
      FollowsIsBounded(p, h[..n]);
      assert Decide(p, h[..n]) == Do(h[n].action);
    }
  }

  /** Each recover is called with the error of the check just before it, and that error's type is not the type of the
      error recovered before. */
  lemma RecoversANewError(p: Params, h: seq<Event>, i: nat)
    requires Follows(p, h) && i < |h| && h[i].action.Recover?
    ensures i > 0 && h[i - 1] == Event(Check, Some(h[i].action.error))
    ensures LastRecovered(h[..i]).Some? ==> LastRecovered(h[..i]).value.cls != h[i].action.error.cls
  {
    FollowsAt(p, h, i);
    assert i > 0;
    assert h[..i][i - 1] == h[i - 1];
  }

  /** For every way the device may answer, a finished run of make_device_ready has these properties. */
  lemma ReadinessGuarantees(p: Params, trace: seq<Event>, raise: Option<Error>)
    requires Follows(p, trace) && Decide(p, trace) == Finish(raise)
    // it returns only if switched off or after a successful check, and else raises the error of its last action
    ensures raise.None? ==> p.setting == Off || (trace != [] && trace[|trace| - 1] == Event(Check, None))
    ensures raise.Some? ==> trace != [] && trace[|trace| - 1].raised == raise
    // how often it acts
    ensures Recovers(trace) <= p.attempts && Checks(trace) <= p.attempts + 2 && Reflashes(trace) <= 1
    ensures p.setting == CheckOnly ==> Recovers(trace) == 0
    ensures Reflashes(trace) == 1 ==> p.setting == FlashBuild && p.hasFlashBuild
    ensures p.setting == Off <==> trace == []
  {
    FollowsIsBounded(p, trace);
  }

  /** It raises a device's error only when nothing is left to try: after a reflash, without attempts left, when only
      checking, or when the last recovery failed or did not help; and then only if it must not reflash, except for an
      error of the final check that is not a CheckDeviceReadyError. */
  lemma RaisesOnlyWhen(p: Params, trace: seq<Event>, e: Error)
    requires Follows(p, trace) && Decide(p, trace) == Finish(Some(e)) && e.kind != Foreign && Reflashes(trace) == 0
    ensures trace != []
    ensures var n := |trace| - 1;
      || p.setting == CheckOnly
      || (Recovers(trace) == p.attempts && trace[n].action == Check && e.kind == DeviceFailure)
      || (!(p.setting == FlashBuild && p.hasFlashBuild)
          && (|| Recovers(trace) == p.attempts
              || trace[n].action.Recover?
              || (LastRecovered(trace).Some? && LastRecovered(trace).value.cls == e.cls)))
  {
  }

  lemma {:induction false} EveryActionCounts(h: seq<Event>)
    ensures |h| == Checks(h) + Recovers(h) + Reflashes(h)
  {
    if h != [] { EveryActionCounts(h[..|h| - 1]); }
  }

  /** No run is longer than this, however the device answers. */
  lemma RunsEnd(p: Params, h: seq<Event>)
    requires Follows(p, h)
    ensures |h| <= 2 * p.attempts + 3
  {
    FollowsIsBounded(p, h);
    EveryActionCounts(h);
  }

  /** The policy leaves no choice: against one device two finished runs are the same. */
  lemma RunIsUnique(p: Params, w: World, h: seq<Event>, t: seq<Event>)
    requires Follows(p, h) && Answered(w, h) && Decide(p, h).Finish?
    requires Follows(p, t) && Answered(w, t) && Decide(p, t).Finish?
    ensures h == t
  {
    if |h| <= |t| { NoLongerRun(p, w, h, t); } else { NoLongerRun(p, w, t, h); }
  }

  lemma NoLongerRun(p: Params, w: World, h: seq<Event>, t: seq<Event>)
    requires Follows(p, h) && Answered(w, h) && Decide(p, h).Finish?
    requires Follows(p, t) && Answered(w, t) && |h| <= |t|
    ensures h == t
  {
    if |h| < |t| { FollowsAt(p, t, |h|); }
    assert h[..|h|] == h && t[..|t|] == t;
    SamePrefix(p, w, h, t, |h|);
  }

  lemma {:induction false} SamePrefix(p: Params, w: World, h: seq<Event>, t: seq<Event>, k: nat)
    requires Follows(p, h) && Answered(w, h) && Follows(p, t) && Answered(w, t)
    requires k <= |h| && k <= |t|
    ensures h[..k] == t[..k]
  {
    if k > 0 {
      SamePrefix(p, w, h, t, k - 1);
      FollowsAt(p, h, k - 1);
      FollowsAt(p, t, k - 1);
      AnsweredAt(w, h, k - 1);
      AnsweredAt(w, t, k - 1);
      assert h[k - 1] == t[k - 1];
      assert h[..k] == h[..k - 1] + [h[k - 1]] && t[..k] == t[..k - 1] + [t[k - 1]];
    }
  }

  // ---------------------------------------------------------------------------------------------------------------
  // The policy read backwards: what must have happened before each action. The order of events alone decides it,
  // without the counters and the decision function that drive the loop.
  // ---------------------------------------------------------------------------------------------------------------

  /** The places at which the run recovered. */
  function RecoverySteps(h: seq<Event>): set<nat> {
    set i: nat | i < |h| && h[i].action.Recover?
  }

  predicate NoReflash(h: seq<Event>) {
    forall i | 0 <= i < |h| :: !h[i].action.Reflash?
  }

  /** The run ends with an exception of this kind, raised by a check or by a recovery. */
  predicate Failed(h: seq<Event>) {
    h != [] && h[|h| - 1].raised.Some? && h[|h| - 1].raised.value.kind != Foreign
  }

  /** The event before the last one is a recovery from an error of the same type as the last one's. */
  predicate RecoveredInVain(h: seq<Event>) {
    && |h| >= 2 && h[|h| - 2].action.Recover? && h[|h| - 1].raised.Some?
    && h[|h| - 2].action.error.cls == h[|h| - 1].raised.value.cls
  }

  /** A check at the start, and after everything that succeeded. */
  predicate MayCheck(h: seq<Event>) {
    h == [] || (h[|h| - 1].raised.None? && !h[|h| - 1].action.Check?)
  }

  /** A recovery from a device error that a check has just raised, while attempts are left, unless the recovery before
      was from an error of the same type. */
  predicate MayRecover(p: Params, h: seq<Event>, e: Error) {
    && p.setting != CheckOnly && Failed(h) && h[|h| - 1] == Event(Check, Some(e))
    && NoReflash(h) && |RecoverySteps(h)| < p.attempts && !RecoveredInVain(h)
  }

  /** A reflash after a recovery that failed, after a check that fails as before the last recovery, or after a
      CheckDeviceReadyError when all attempts are used up. */
  predicate MayReflash(p: Params, h: seq<Event>) {
    && p.setting == FlashBuild && p.hasFlashBuild && Failed(h) && NoReflash(h)
    && (|| h[|h| - 1].action.Recover?
        || (|RecoverySteps(h)| < p.attempts && RecoveredInVain(h))
        || (|RecoverySteps(h)| == p.attempts && h[|h| - 1].raised.value.kind == CheckDeviceReady))
  }

  predicate MayFollow(p: Params, h: seq<Event>, a: Action) {
    && p.setting != Off
    && match a
       case Check => MayCheck(h)
       case Recover(e) => MayRecover(p, h, e)
       case Reflash => MayReflash(p, h)
  }

  /** Each action is allowed where it stands, and none is allowed at the end. */
  ghost predicate IsWholeRun(p: Params, h: seq<Event>) {
    (forall i | 0 <= i < |h| :: MayFollow(p, h[..i], h[i].action)) && forall a :: !MayFollow(p, h, a)
  }

  lemma {:induction false} CountersMean(h: seq<Event>)
    ensures Recovers(h) == |RecoverySteps(h)|
    ensures Reflashes(h) == 0 <==> NoReflash(h)
  {
    if h != [] {
      var n := |h| - 1;
      CountersMean(h[..n]);
      assert forall i | 0 <= i < n :: h[..n][i] == h[i];
      assert RecoverySteps(h) == RecoverySteps(h[..n]) + if h[n].action.Recover? then {n} else {};
    }
  }

  /** In a run without a reflash checks and recoveries take turns, so what a failed check is compared with stands just
      before it. */
  lemma JustRecovered(p: Params, h: seq<Event>)
    requires Follows(p, h) && NoReflash(h) && h != [] && h[|h| - 1].action.Check?
    ensures |h| == 1 ==> LastRecovered(h).None?
    ensures |h| >= 2 ==> h[|h| - 2].action.Recover? && LastRecovered(h) == Some(h[|h| - 2].action.error)
  {
    var before := h[..|h| - 1];
    assert LastRecovered(h) == LastRecovered(before);
    if |h| >= 2 {
      assert before[|before| - 1] == h[|h| - 2] && !h[|h| - 2].action.Reflash?;
    }
  }

  /** The policy takes an action exactly when the order of events allows it. */
  lemma DoesExactlyWhen(p: Params, h: seq<Event>, a: Action)
    requires Follows(p, h)
    ensures Decide(p, h) == Do(a) <==> MayFollow(p, h, a)
  {
    CountersMean(h);
    FollowsIsBounded(p, h);
    if h != [] && NoReflash(h) && h[|h| - 1].action.Check? {
      JustRecovered(p, h);
    }
    if h != [] && h[|h| - 1].action.Reflash? {
      assert !NoReflash(h);
    }
  }

  /** So a sequence of events is a run exactly when each action is allowed where it stands. */
  lemma {:induction false} FollowsExactlyWhen(p: Params, h: seq<Event>)
    ensures Follows(p, h) <==> forall i | 0 <= i < |h| :: MayFollow(p, h[..i], h[i].action)
  {
    if h != [] {
      var n := |h| - 1;
      FollowsExactlyWhen(p, h[..n]);
      assert forall i | 0 <= i < n :: h[..n][..i] == h[..i] && h[..n][i] == h[i];
      if Follows(p, h[..n]) {
        DoesExactlyWhen(p, h[..n], h[n].action);
      }
    }
  }

  /** And it is finished exactly when nothing is allowed any more; it then ends with what its last action raised. */
  lemma FinishedExactlyWhen(p: Params, h: seq<Event>, raise: Option<Error>)
    requires Follows(p, h)
    ensures Decide(p, h) == Finish(raise)
            <==> && (forall a :: !MayFollow(p, h, a))
                 && raise == if h == [] then None else h[|h| - 1].raised
  {
    forall a ensures Decide(p, h) == Do(a) <==> MayFollow(p, h, a) { DoesExactlyWhen(p, h, a); }
    if Decide(p, h).Do? {
      assert MayFollow(p, h, Decide(p, h).action);
    }
  }

  /** Before a reflash recovery was tried: it failed, it did not help, or all attempts were used up. */
  lemma RecoveryBeforeReflash(p: Params, h: seq<Event>, i: nat)
    requires Follows(p, h) && i < |h| && h[i].action.Reflash?
    ensures i > 0 && p.setting == FlashBuild && p.hasFlashBuild && NoReflash(h[..i])
    ensures h[i - 1].raised.Some? && h[i - 1].raised.value.kind != Foreign
    ensures var e := h[i - 1].raised.value;
            || h[i - 1].action.Recover?
            || (i > 1 && h[i - 2].action.Recover? && h[i - 2].action.error.cls == e.cls)
            || (e.kind == CheckDeviceReady && |RecoverySteps(h[..i])| == p.attempts)
  {
    FollowsExactlyWhen(p, h);
    assert MayReflash(p, h[..i]);
  }

  /** A check that raises a device error is answered by recovering from that error, while attempts are left and unless
      the recovery before was from an error of the same type. */
  lemma FailedCheckIsRecovered(p: Params, h: seq<Event>, i: nat, e: Error)
    requires Follows(p, h) && i < |h| && h[i] == Event(Check, Some(e)) && e.kind != Foreign
    requires p.setting != CheckOnly && NoReflash(h[..i]) && |RecoverySteps(h[..i])| < p.attempts
    requires i > 0 ==> h[i - 1].action.Recover? && h[i - 1].action.error.cls != e.cls
    ensures if i + 1 < |h| then h[i + 1].action == Recover(e) else Decide(p, h) == Do(Recover(e))
  {
    var before := h[..i + 1];
    FollowsPrefix(p, h, i + 1);
    CountersMean(h[..i]);
    CountersMean(before);
    assert before[..i] == h[..i];
    DoesExactlyWhen(p, before, Recover(e));
    if i + 1 < |h| { FollowsAt(p, h, i + 1); } else { assert before == h; }
  }

  lemma {:induction false} FollowsPrefix(p: Params, h: seq<Event>, n: nat)
    requires Follows(p, h) && n <= |h|
    ensures Follows(p, h[..n])
  {
    if n == |h| {
      assert h[..n] == h;
    } else {
      FollowsPrefix(p, h[..|h| - 1], n);
      assert h[..|h| - 1][..n] == h[..n];
    }
  }

  /** An exception that is no DeviceError ends the run at once. */
  lemma ForeignEnds(p: Params, h: seq<Event>, i: nat)
    requires Follows(p, h) && i < |h| && h[i].raised.Some? && h[i].raised.value.kind == Foreign
    ensures i == |h| - 1 && Decide(p, h) == Finish(h[i].raised)
  {
    FollowsPrefix(p, h, i + 1);
    NextFollows(p, h, i + 1);
    assert h[..i + 1][i] == h[i] && h[..|h|] == h;
  }

  lemma NextFollows(p: Params, h: seq<Event>, n: nat)
    requires Follows(p, h) && n <= |h|
    ensures n < |h| ==> Decide(p, h[..n]) == Do(h[n].action)
  {
    if n < |h| { FollowsAt(p, h, n); }
  }
}
