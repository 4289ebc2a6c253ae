/** What the newest-first order of the effects is worth: the pairing loop stops at the first effect without an earlier
    cause, and only in that order nothing after it can be paired. */
module EffectOrder {
  import opened Common
  import opened UnmatchedEvents
  import opened OptimalPairing

  /** Whatever the causes, no pairing has more pairs than causes are removed. */
  ghost predicate AlwaysMaximum(effects: seq<Event>) {
    forall causes | SameTimeSameEvent(causes) :: RemovesMost(causes, effects)
  }

  ghost predicate RemovesMost(causes: seq<Event>, effects: seq<Event>) {
    var r := Unmatched(ParserResult(false, causes), ParserResult(false, effects));
    forall p | IsPairing(p, Times(causes), Times(effects)) :: |p| <= |causes| - |r.0|
  }

  /** Whatever the causes, no returned cause is earlier than a returned effect. */
  ghost predicate AlwaysExhaustive(effects: seq<Event>) {
    forall causes | SameTimeSameEvent(causes) :: NothingPairable(causes, effects)
  }

  /** The first effect at the time t or before. */
  lemma FirstUpTo(effects: seq<int>, t: int, i: nat) returns (m: nat)
    requires i < |effects| && effects[i] <= t
    ensures m <= i && effects[m] <= t && forall k | 0 <= k < m :: effects[k] > t
  {
    m := 0;
    while effects[m] > t
      decreases i - m
      invariant m <= i && forall k | 0 <= k < m :: effects[k] > t
    {
      m := m + 1;
    }
  }

  /** Causes at one time go to the effects before the first one that is not later, and the loop ends there. */
  lemma {:induction false} CopiesPicked(n: nat, t: int, effects: seq<int>, m: nat)
    requires m <= n && m < |effects|
    requires effects[m] <= t && forall k | 0 <= k < m :: effects[k] > t
    ensures |Picks(Copies(n, t), effects)| == m
    decreases m
  {
    if m > 0 {
      OneCopyLess(n, t, effects[0]);
      CopiesPicked(n - 1, t, effects[1..], m - 1);
    }
  }

  lemma OneCopyLess(n: nat, t: int, effect: int)
    requires n > 0 && effect > t
    ensures NearestDatetime(Copies(n, t), effect) == Some(t)
    ensures DeleteFirst(Copies(n, t), t) == Copies(n - 1, t)
  {
    assert Copies(n, t)[0] in Copies(n, t);
  }

  function Identity(m: nat): (r: map<nat, nat>)
    ensures |r| == m && forall e: nat :: e in r <==> e < m
    ensures forall e | e in r :: r[e] == e
  {
    if m == 0 then map[] else Identity(m - 1)[m - 1 := m - 1]
  }

  /** One cause more than the loop uses, for the later effect j. */
  lemma OnePairMore(times: seq<int>, t: int, m: nat, j: nat)
    requires m < j < |times| && times[j] > t && forall k | 0 <= k < m :: times[k] > t
    ensures exists p :: IsPairing(p, Copies(m + 1, t), times) && |p| == m + 1
  {
    var p := Identity(m)[j := m];
    assert IsPairing(p, Copies(m + 1, t), times);
    assert |p| == m + 1;
  }

  /** A later effect j after an earlier one i: enough causes at the time of i, one of which only j could use. */
  lemma LaterAfterEarlier(effects: seq<Event>, i: nat, j: nat) returns (causes: seq<Event>)
    requires i < j < |effects| && effects[i].systemTimestamp < effects[j].systemTimestamp
    ensures SameTimeSameEvent(causes) && !RemovesMost(causes, effects) && !NothingPairable(causes, effects)
  {
    var times := Times(effects);
    var t := times[i];
    var m := FirstUpTo(times, t, i);
    causes := EqualCauses(m + 1, t);
    CopiesPicked(m + 1, t, times, m);
    OnePairMore(times, t, m, j);
    StaysPairable(causes, effects, m, j);
  }

  lemma EqualCauses(n: nat, t: int) returns (causes: seq<Event>)
    ensures Times(causes) == Copies(n, t) && SameTimeSameEvent(causes)
    ensures forall c | c in causes :: c.systemTimestamp == t
  {
    causes := seq(n, _ => Event(t, "", map[]));
  }

  lemma StaysPairable(causes: seq<Event>, effects: seq<Event>, m: nat, j: nat)
    requires |Picks(Times(causes), Times(effects))| == m < |causes| && m <= j < |effects|
    requires forall c | c in causes :: c.systemTimestamp < effects[j].systemTimestamp
    ensures |causes| - |Unmatched(ParserResult(false, causes), ParserResult(false, effects)).0| <= m
    ensures !NothingPairable(causes, effects)
  {
    var r := Unmatched(ParserResult(false, causes), ParserResult(false, effects));
    DeletedFrom(causes, MatchedCauses(causes, Picks(Times(causes), Times(effects))));
    assert r.0[0] in r.0 && r.1[j - m] in r.1 && r.1[j - m] == effects[j];
  }

  lemma {:induction false} DeletedFrom<T>(s: seq<T>, ds: seq<T>)
    ensures forall x | x in DeleteAll(s, ds) :: x in s
    decreases |ds|
  {
    if ds != [] { DeletedFrom(DeleteFirst(s, ds[0]), ds[1..]); }
  }

  /** The removals are a maximum for all causes, and nothing pairable is returned for all causes, exactly when the
      effects come newest first. */
  lemma NewestFirstExactlyWhen(effects: seq<Event>)
    ensures AlwaysMaximum(effects) <==> Descending(Times(effects))
    ensures AlwaysExhaustive(effects) <==> Descending(Times(effects))
  {
    if Descending(Times(effects)) {
      forall causes | SameTimeSameEvent(causes)
        ensures RemovesMost(causes, effects) && NothingPairable(causes, effects)
      {
        UnmatchedIsOptimal(causes, effects);
      }
    } else {
      var i, j :| 0 <= i < j < |effects| && Times(effects)[i] < Times(effects)[j];
      var causes := LaterAfterEarlier(effects, i, j);
    }
  }
}
