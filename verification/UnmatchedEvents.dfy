/** Pairing of cause events (reboot triggers) with effect events (bootups): the newest effect is served first and takes
    the nearest strictly earlier cause that is still free. */
module UnmatchedEvents {
  import opened Common

  /** One entry of the event history; a Python dictionary, compared by value. */
  datatype Event = Event(systemTimestamp: int, rawLogLine: string, labels: map<string, seq<string>>)

  datatype ParserResult = ParserResult(timedout: bool, results: seq<Event>)

  datatype EventMatch = EventMatch(delta: int, cause: Event, effect: Event)

  // ---------------------------------------------------------------------------------------------------------------
  // Python list operations
  // ---------------------------------------------------------------------------------------------------------------

  function Times(events: seq<Event>): (r: seq<int>)
    ensures |r| == |events|
    ensures forall i | 0 <= i < |events| :: r[i] == events[i].systemTimestamp
  {
    seq(|events|, i requires 0 <= i < |events| => events[i].systemTimestamp)
  }

  /** `s.index(x)`: the first position holding `x`. */
  function IndexOf<T(==)>(s: seq<T>, x: T): (i: nat)
    requires x in s
    ensures i < |s| && s[i] == x
  {
    if s[0] == x then 0 else 1 + IndexOf(s[1..], x)
  }

  lemma {:induction false} DeleteFirstBag<T>(s: seq<T>, x: T)
    ensures multiset(DeleteFirst(s, x)) == multiset(s) - multiset{x}
  {
    if s != [] {
      assert s == [s[0]] + s[1..];
      if s[0] != x { DeleteFirstBag(s[1..], x); }
    }
  }

  function Distance(a: int, b: int): nat {
    if a < b then b - a else a - b
  }

  /** `min(s, key=...)`: the first element at the least distance from `target`. */
  function MinByDistance(s: seq<int>, target: int): (r: int)
    requires s != []
    ensures r in s && forall t | t in s :: Distance(r, target) <= Distance(t, target)
  {
    if |s| == 1 then s[0]
    else
      var rest := MinByDistance(s[1..], target);
      if Distance(s[0], target) <= Distance(rest, target) then s[0] else rest
  }

  /** The nearest strictly earlier time; None stands for either ParserError. */
  function NearestDatetime(times: seq<int>, target: int): (r: Option<int>)
    ensures r.None? <==> forall t | t in times :: t >= target
    ensures r.Some? ==> r.value in times && r.value < target
                        && forall t | t in times && t < target :: t <= r.value
  {
    var earlier := (t: int) => t < target;
    var work := Filter(earlier, times);
    FilterMembers(earlier, times);
    if work == [] then
      assert forall t | t in times :: t < target ==> t in work;
      None
    else
      assert work[0] in work;
      Some(MinByDistance(work, target))
  }

  function InsertByDelta(m: EventMatch, s: seq<EventMatch>): (r: seq<EventMatch>)
    ensures |r| == |s| + 1
  {
    if s == [] || m.delta <= s[0].delta then [m] + s else [s[0]] + InsertByDelta(m, s[1..])
  }

  /** `matches.sort(key=delta)`, a stable sort. */
  function SortByDelta(s: seq<EventMatch>): (r: seq<EventMatch>)
    ensures |r| == |s|
  {
    if s == [] then [] else InsertByDelta(s[0], SortByDelta(s[1..]))
  }

  // ---------------------------------------------------------------------------------------------------------------
  // The greedy pairing and the method
  // ---------------------------------------------------------------------------------------------------------------

  /** The cause times taken by effects[0], effects[1], ... until the first effect that finds none. */
  function Picks(work: seq<int>, effects: seq<int>): (r: seq<int>)
    ensures |r| <= |work| && |r| <= |effects|
    ensures forall i | 0 <= i < |r| :: r[i] in work
    decreases |effects|
  {
    if effects == [] then []
    else
      match NearestDatetime(work, effects[0])
      case None => []
      case Some(t) => [t] + Picks(DeleteFirst(work, t), effects[1..])
  }

  lemma {:induction false} PicksFit(work: seq<int>, effects: seq<int>)
    ensures multiset(Picks(work, effects)) <= multiset(work)
    decreases |effects|
  {
    if effects != [] {
      var nearest := NearestDatetime(work, effects[0]);
      if nearest.Some? {
        var rest := DeleteFirst(work, nearest.value);
        PicksFit(rest, effects[1..]);
        DeleteFirstBag(work, nearest.value);
        assert nearest.value in multiset(work);
      }
    }
  }

  /** The cause events recorded for the picked times: for each time, always the first event carrying it. */
  function MatchedCauses(causes: seq<Event>, picks: seq<int>): (r: seq<Event>)
    requires forall i | 0 <= i < |picks| :: picks[i] in Times(causes)
    ensures |r| == |picks|
    ensures forall i | 0 <= i < |r| :: r[i] == causes[IndexOf(Times(causes), picks[i])]
  {
    seq(|picks|, i requires 0 <= i < |picks| => causes[IndexOf(Times(causes), picks[i])])
  }

  /** Deleting the values `ds` from `s` one after the other. */
  function DeleteAll<T(==)>(s: seq<T>, ds: seq<T>): (r: seq<T>)
    ensures |r| >= |s| - |ds|
    decreases |ds|
  {
    if ds == [] then s else DeleteAll(DeleteFirst(s, ds[0]), ds[1..])
  }

  lemma {:induction false} DeleteAllAppend<T>(s: seq<T>, ds: seq<T>, d: T)
    ensures DeleteAll(s, ds + [d]) == DeleteFirst(DeleteAll(s, ds), d)
    decreases |ds|
  {
    if ds == [] {
      assert [d] == ds + [d] && [d][1..] == [];
    } else {
      DeleteAllAppend(DeleteFirst(s, ds[0]), ds[1..], d);
      assert (ds + [d])[1..] == ds[1..] + [d];
    }
  }

  /** `s` without the first m[x] occurrences of each x. */
  function RemoveFirsts<T(==)>(s: seq<T>, m: multiset<T>): (r: seq<T>) {
    if s == [] then []
    else if s[0] in m then RemoveFirsts(s[1..], m - multiset{s[0]})
    else [s[0]] + RemoveFirsts(s[1..], m)
  }

  lemma {:induction false} RemoveFirstsNone<T>(s: seq<T>)
    ensures RemoveFirsts(s, multiset{}) == s
  {
    if s != [] { RemoveFirstsNone(s[1..]); }
  }

  /** Deleting one value first, and a bag of values later, is deleting the larger bag. */
  lemma {:induction false} DeleteThenRemove<T>(s: seq<T>, x: T, m: multiset<T>)
    ensures RemoveFirsts(DeleteFirst(s, x), m) == RemoveFirsts(s, m + multiset{x})
  {
    if s == [] {
    } else if s[0] == x {
      assert DeleteFirst(s, x) == s[1..];
      assert m + multiset{x} - multiset{x} == m;
    } else {
      DeleteThenRemove(s[1..], x, if s[0] in m then m - multiset{s[0]} else m);
      assert DeleteFirst(s, x) == [s[0]] + DeleteFirst(s[1..], x);
      if s[0] in m {
        assert m + multiset{x} - multiset{s[0]} == m - multiset{s[0]} + multiset{x};
      }
    }
  }

  /** The order of the deletions does not matter: only the bag of deleted values does. */
  lemma {:induction false} DeleteAllIsRemoveFirsts<T>(s: seq<T>, ds: seq<T>)
    ensures DeleteAll(s, ds) == RemoveFirsts(s, multiset(ds))
    decreases |ds|
  {
    if ds == [] {
      RemoveFirstsNone(s);
    } else {
      DeleteAllIsRemoveFirsts(DeleteFirst(s, ds[0]), ds[1..]);
      DeleteThenRemove(s, ds[0], multiset(ds[1..]));
      assert ds == [ds[0]] + ds[1..];
      assert multiset(ds) == multiset(ds[1..]) + multiset{ds[0]};
    }
  }

  lemma {:induction false} RemovePrefix<T>(s: seq<T>, k: nat)
    requires k <= |s|
    ensures RemoveFirsts(s, multiset(s[..k])) == s[k..]
  {
    if k == 0 {
      RemoveFirstsNone(s);
    } else {
      assert s[..k] == [s[0]] + s[1..][..k - 1];
      assert multiset(s[..k]) - multiset{s[0]} == multiset(s[1..][..k - 1]);
      RemovePrefix(s[1..], k - 1);
    }
  }

  /** The two lists get_unmatched_events returns, in closed form. */
  function Unmatched(causeHist: ParserResult, effectHist: ParserResult): (r: (seq<Event>, seq<Event>))
  {
    var causes := if causeHist.timedout then [] else causeHist.results;
    if effectHist.timedout then
      (causes, [])
    else
      var picks := Picks(Times(causes), Times(effectHist.results));
      (DeleteAll(causes, MatchedCauses(causes, picks)), effectHist.results[|picks|..])
  }

  /** A history that timed out counts as empty: then no cause is matched, and no effect either. */
  lemma TimedOutUnmatched(causeHist: ParserResult, effectHist: ParserResult)
    requires causeHist.timedout || effectHist.timedout
    ensures Unmatched(causeHist, effectHist)
         == (if causeHist.timedout then [] else causeHist.results,
             if effectHist.timedout then [] else effectHist.results)
  {
    if causeHist.timedout && !effectHist.timedout {
      assert Times([]) == [];
      assert effectHist.results[0..] == effectHist.results;
    }
  }

  /** The events that `side` selects from the matches. */
  function Project(side: EventMatch -> Event, ms: seq<EventMatch>): (r: seq<Event>)
    ensures |r| == |ms| && forall i | 0 <= i < |ms| :: r[i] == side(ms[i])
  {
    seq(|ms|, i requires 0 <= i < |ms| => side(ms[i]))
  }

  const CAUSE: EventMatch -> Event := (m: EventMatch) => m.cause
  const EFFECT: EventMatch -> Event := (m: EventMatch) => m.effect

  lemma {:induction false} InsertKeepsEvents(side: EventMatch -> Event, m: EventMatch, s: seq<EventMatch>)
    ensures multiset(Project(side, InsertByDelta(m, s))) == multiset{side(m)} + multiset(Project(side, s))
  {
    if s == [] || m.delta <= s[0].delta {
      ProjectHead(side, m, s);
    } else {
      InsertKeepsEvents(side, m, s[1..]);
      assert s == [s[0]] + s[1..];
      ProjectHead(side, s[0], s[1..]);
      ProjectHead(side, s[0], InsertByDelta(m, s[1..]));
    }
  }

  lemma ProjectHead(side: EventMatch -> Event, m: EventMatch, s: seq<EventMatch>)
    ensures multiset(Project(side, [m] + s)) == multiset{side(m)} + multiset(Project(side, s))
  {
    assert Project(side, [m] + s) == [side(m)] + Project(side, s);
  }

  lemma {:induction false} SortKeepsEvents(side: EventMatch -> Event, ms: seq<EventMatch>)
    ensures multiset(Project(side, SortByDelta(ms))) == multiset(Project(side, ms))
  {
    if ms != [] {
      SortKeepsEvents(side, ms[1..]);
      InsertKeepsEvents(side, ms[0], SortByDelta(ms[1..]));
      assert ms == [ms[0]] + ms[1..];
      ProjectHead(side, ms[0], ms[1..]);
    }
  }

  /** What is left after deleting the matched events does not depend on the sort by time delta. */
  lemma SortIsIrrelevant(side: EventMatch -> Event, ms: seq<EventMatch>, s: seq<Event>)
    ensures DeleteAll(s, Project(side, SortByDelta(ms))) == DeleteAll(s, Project(side, ms))
  {
    SortKeepsEvents(side, ms);
    DeleteAllIsRemoveFirsts(s, Project(side, SortByDelta(ms)));
    DeleteAllIsRemoveFirsts(s, Project(side, ms));
  }

  lemma DeletePrefix<T>(s: seq<T>, k: nat)
    requires k <= |s|
    ensures DeleteAll(s, s[..k]) == s[k..]
  {
    DeleteAllIsRemoveFirsts(s, s[..k]);
    RemovePrefix(s, k);
  }

  lemma PicksStep(work: seq<int>, times: seq<int>, n: nat)
    requires n < |times|
    ensures Picks(work, times[n..])
            == match NearestDatetime(work, times[n])
               case None => []
               case Some(t) => [t] + Picks(DeleteFirst(work, t), times[n + 1..])
  {
    assert times[n..][1..] == times[n + 1..];
  }

  /** The loop continues with the n-th pick exactly when the n-th effect finds a cause. */
  lemma NextPick(picks: seq<int>, work: seq<int>, times: seq<int>, n: nat)
    requires n < |times| && n <= |picks| && picks[n..] == Picks(work, times[n..])
    ensures var nearest := NearestDatetime(work, times[n]);
      if nearest.None? then |picks| == n
      else n < |picks| && picks[n] == nearest.value
           && picks[n + 1..] == Picks(DeleteFirst(work, nearest.value), times[n + 1..])
  {
    PicksStep(work, times, n);
    var nearest := NearestDatetime(work, times[n]);
    if nearest.None? {
      assert |picks[n..]| == 0;
    } else {
      assert picks[n..][0] == nearest.value && picks[n..][1..] == picks[n + 1..];
    }
  }

  /** The matches found so far name these causes and these effects, position by position. */
  predicate Names(matches: seq<EventMatch>, causes: seq<Event>, effects: seq<Event>)
    requires |matches| <= |causes| && |matches| <= |effects|
  {
    forall i | 0 <= i < |matches| :: matches[i].cause == causes[i] && matches[i].effect == effects[i]
  }

  lemma NamesOneMore(matches: seq<EventMatch>, causes: seq<Event>, effects: seq<Event>, delta: int)
    requires |matches| < |causes| && |matches| < |effects|
    requires Names(matches, causes, effects)
    ensures Names(matches + [EventMatch(delta, causes[|matches|], effects[|matches|])], causes, effects)
  {
  }

  /** The pairing loop of get_unmatched_events. */
  method FindMatches(causes: seq<Event>, effects: seq<Event>) returns (matches: seq<EventMatch>)
    ensures |matches| == |Picks(Times(causes), Times(effects))|
    ensures Project(CAUSE, matches) == MatchedCauses(causes, Picks(Times(causes), Times(effects)))
    ensures Project(EFFECT, matches) == effects[..|matches|]
  {
    matches := [];
    var causeTimes := Times(causes);
    var work := causeTimes;
    ghost var times := Times(effects);
    ghost var picks := Picks(causeTimes, times);
    ghost var wanted := MatchedCauses(causes, picks);
    assert times[0..] == times;

    var n := 0;
    while n < |effects|
      invariant 0 <= n <= |effects|
      invariant n <= |picks| && picks[n..] == Picks(work, times[n..])
      invariant |matches| == n
      invariant Names(matches, wanted, effects)
    {
      var effectTime := effects[n].systemTimestamp;
      NextPick(picks, work, times, n);
      var nearest := NearestDatetime(work, effectTime);
      if nearest.None? {
        break;
      }
      var cause := causes[IndexOf(causeTimes, nearest.value)];
      NamesOneMore(matches, wanted, effects, effectTime - nearest.value);
      matches := matches + [EventMatch(effectTime - nearest.value, cause, effects[n])];
      work := DeleteFirst(work, nearest.value);
      n := n + 1;
    }
    assert |picks| == n by { assert |picks[n..]| == 0; }
    ProjectNames(matches, wanted, effects);
  }

  lemma ProjectNames(matches: seq<EventMatch>, causes: seq<Event>, effects: seq<Event>)
    requires |matches| == |causes| && |matches| <= |effects| && Names(matches, causes, effects)
    ensures Project(CAUSE, matches) == causes && Project(EFFECT, matches) == effects[..|matches|]
  {
  }

  method GetUnmatchedEvents(causeHist: ParserResult, effectHist: ParserResult)
    returns (remainingCauses: seq<Event>, remainingEffects: seq<Event>)
    ensures (remainingCauses, remainingEffects) == Unmatched(causeHist, effectHist)
  {
    var causes: seq<Event>, matches: seq<EventMatch> := [], [];
    remainingCauses, remainingEffects := [], [];
    if !causeHist.timedout {
      remainingCauses := causeHist.results;
      causes := causeHist.results;
    }
    if !effectHist.timedout {
      remainingEffects := effectHist.results;
    }
    var effects := effectHist.results;
    matches := FindMatches(causes, effects);
    ghost var picks := Picks(Times(causes), Times(effects));

    if |matches| > 1 {
      SortIsIrrelevant(CAUSE, matches, causes);
      SortIsIrrelevant(EFFECT, matches, effects);
      matches := SortByDelta(matches);
    }
    remainingCauses, remainingEffects := DeleteMatched(matches, remainingCauses, remainingEffects);
    DeletePrefix(effects, |picks|);
  }

  /** The final loop of get_unmatched_events. With at most as many matches as there are events, the guard that both
      lists be non-empty never skips a match. */
  method DeleteMatched(matches: seq<EventMatch>, causes: seq<Event>, effects: seq<Event>)
    returns (remainingCauses: seq<Event>, remainingEffects: seq<Event>)
    requires |matches| <= |causes|
    ensures effects == [] ==> remainingCauses == causes && remainingEffects == []
    ensures |matches| <= |effects| ==>
              && remainingCauses == DeleteAll(causes, Project(CAUSE, matches))
              && remainingEffects == DeleteAll(effects, Project(EFFECT, matches))
  {
    remainingCauses, remainingEffects := causes, effects;
    var i := 0;
    while i < |matches|
      invariant 0 <= i <= |matches|
      invariant effects == [] ==> remainingCauses == causes && remainingEffects == []
      invariant |matches| <= |effects| ==>
                  && remainingCauses == DeleteAll(causes, Project(CAUSE, matches)[..i])
                  && remainingEffects == DeleteAll(effects, Project(EFFECT, matches)[..i])
    {
      DeleteAllAppend(causes, Project(CAUSE, matches)[..i], matches[i].cause);
      DeleteAllAppend(effects, Project(EFFECT, matches)[..i], matches[i].effect);
      assert Project(CAUSE, matches)[..i + 1] == Project(CAUSE, matches)[..i] + [matches[i].cause];
      assert Project(EFFECT, matches)[..i + 1] == Project(EFFECT, matches)[..i] + [matches[i].effect];
      if remainingCauses != [] && remainingEffects != [] {
        remainingCauses := DeleteFirst(remainingCauses, matches[i].cause);
        remainingEffects := DeleteFirst(remainingEffects, matches[i].effect);
      }
      i := i + 1;
    }
    assert Project(CAUSE, matches)[..i] == Project(CAUSE, matches);
    assert Project(EFFECT, matches)[..i] == Project(EFFECT, matches);
  }
}
