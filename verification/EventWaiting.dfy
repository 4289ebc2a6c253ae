/** Waiting for events: wait_for_event_labels polls an event file that grows while it runs. */
module EventWaiting {
  import opened Common
  import opened UnmatchedEvents
  import opened EventHistory
  import opened SampleLogs

  /** One run of the outside world, observed once per query: `log` is every line ever written, `visible(q)` how many of
      them the q-th query sees (None while the file does not exist), `cut(q)` whether it is killed by its timeout,
      `clock(q)` the time when it starts. */
  datatype World = World(tools: Tools, log: seq<string>, visible: nat -> Option<nat>, cut: nat -> Option<nat>,
                         clock: nat -> int)
  {
    /** A query sees a beginning of the log, and time passes. */
    ghost predicate Valid() {
      && (forall q: nat :: visible(q).Some? ==> visible(q).value <= |log|)
      && (forall q: nat :: clock(q) < clock(q + 1))
    }

    /** get_last_event([name]) as the q-th query. */
    function Query(q: nat, name: string): Last
      requires visible(q).Some? ==> visible(q).value <= |log|
    {
      LastEvent(tools, if visible(q).None? then None else Some(log[..visible(q).value]), Some(name), cut(q))
    }
  }

  datatype Found = Found(all: bool, found: set<string>, missed: set<string>, time: int)

  /** Line p of the log mentions `name` and is an event of time `time`. */
  ghost predicate EventAt(w: World, p: nat, name: string, time: int) {
    && p < |w.log| && name != "" && w.tools.mentions(name, w.log[p])
    && Decodes(w.tools, w.log[p]) && w.tools.parse(w.log[p]).event.systemTimestamp == time
  }

  ghost predicate Logged(w: World, name: string, time: int) {
    exists p :: EventAt(w, p, name, time)
  }

  lemma {:induction false} GrepMaxFinds(t: Tools, n: nat, names: seq<string>, lines: seq<string>)
    ensures forall l | l in GrepMax(t, n, names, lines) :: l in lines && Mentions(t, names, l)
  {
    if n > 0 && lines != [] {
      GrepMaxFinds(t, if Mentions(t, names, lines[0]) then n - 1 else n, names, lines[1..]);
    }
  }

  /** What a query returns is an event in the log, on a line that mentions the label. */
  lemma QueryIsLogged(w: World, q: nat, name: string)
    requires w.Valid() && w.Query(q, name).event.Success? && w.Query(q, name).event.value.Some?
    ensures Logged(w, name, w.Query(q, name).event.value.value.systemTimestamp)
  {
    var file := w.log[..w.visible(q).value];
    var found := Emitted(w.cut(q), GrepMax(w.tools, 1, [name], Reverse(file)));
    GrepMaxFinds(w.tools, 1, [name], Reverse(file));
    assert Decode(w.tools, [""][1..], Some([name]), None) == Success([]);
    assert found != [];
    var line := found[0];
    assert line in GrepMax(w.tools, 1, [name], Reverse(file));
    var i :| 0 <= i < |file| && Reverse(file)[i] == line;
    assert w.log[|file| - 1 - i] == line;
    assert [line][1..] == [];
    assert EventAt(w, |file| - 1 - i, name, w.Query(q, name).event.value.value.systemTimestamp);
  }

  /** All of `names` are logged with times between `from` and `to`. */
  ghost predicate AllLogged(w: World, names: set<string>, from: int, to: int) {
    forall n | n in names :: exists time | from <= time <= to :: Logged(w, n, time)
  }

  /** The time is that of one of the labels. */
  ghost predicate SomeLogged(w: World, names: seq<string>, time: int) {
    exists n | n in names :: Logged(w, n, time)
  }

  function Names(names: seq<string>): set<string> {
    set n | n in names
  }

  /** The labels whose newest event is recent enough. */
  function Recent(w: World, names: set<string>, start: int): set<string> {
    set n | n in names && NewestFrom(w, n, start)
  }

  /** The latest of `maxTime` and the times of the recent newest events. */
  function LatestOf(w: World, names: seq<string>, start: int, maxTime: int): int {
    if names == [] then maxTime
    else
      var k := |names| - 1;
      var before := LatestOf(w, names[..k], start, maxTime);
      if NewestFrom(w, names[k], start) then Max(before, Newest(w, names[k]).value.value.systemTimestamp) else before
  }

  lemma OneMoreRecent(w: World, names: seq<string>, i: nat, start: int, maxTime: int)
    requires i < |names|
    ensures var before, recent := LatestOf(w, names[..i], start, maxTime), NewestFrom(w, names[i], start);
      && Recent(w, Names(names[..i + 1]), start)
         == Recent(w, Names(names[..i]), start) + (if recent then {names[i]} else {})
      && LatestOf(w, names[..i + 1], start, maxTime)
         == if recent then Max(before, Newest(w, names[i]).value.value.systemTimestamp) else before
  {
    OneMoreName(names, i);
    assert names[..i + 1][..i] == names[..i];
  }

  /** One pass over the labels: the body of the while loop of `_find_all_event_labels`. */
  method OnePass(w: World, names: seq<string>, start: int, maxTime: int, q0: nat)
    returns (failed: bool, timedOut: bool, found: set<string>, missed: set<string>, time: int, q: nat)
    requires w.Valid() && start <= maxTime
    ensures q0 <= q <= q0 + |names| && (!failed ==> q == q0 + |names|)
    ensures maxTime <= time
    ensures names == [] ==> !failed && !timedOut
    ensures !failed ==> found + missed == Names(names)
    ensures AllLogged(w, found, start, time)
    ensures time == maxTime || SomeLogged(w, names, time)
    ensures Settled(w) ==>
              if failed then exists n | n in names :: Newest(w, n).Failure?
              else !timedOut && found == Recent(w, Names(names), start) && time == LatestOf(w, names, start, maxTime)
  {
    ghost var settled := Settled(w);
    failed, timedOut, found, missed, time, q := false, false, {}, {}, maxTime, q0;
    for i := 0 to |names|
      invariant !failed && q == q0 + i && maxTime <= time
      invariant found + missed == Names(names[..i])
      invariant AllLogged(w, found, start, time)
      invariant time == maxTime || SomeLogged(w, names, time)
      invariant i == 0 ==> !timedOut
      invariant settled ==> !timedOut && found == Recent(w, Names(names[..i]), start)
                            && time == LatestOf(w, names[..i], start, maxTime)
    {
      var last := w.Query(q, names[i]);
      if settled {
        SettledQuery(w, q, names[i]);
        OneMoreRecent(w, names, i, start, maxTime);
      }
      if last.event.Failure? {
        failed := true;
        return;
      }
      timedOut := timedOut || last.timedout;
      OneMoreName(names, i);
      if last.event.value.Some? && last.event.value.value.systemTimestamp >= start {
        QueryIsLogged(w, q, names[i]);
        time := Max(time, last.event.value.value.systemTimestamp);
        found := found + {names[i]};
      } else {
        missed := missed + {names[i]};
      }
      q := q + 1;
    }
    assert names[..|names|] == names;
  }

  function Max(a: int, b: int): int {
    if a < b then b else a
  }

  lemma {:induction false} DistinctSize(names: seq<string>)
    ensures |Names(names)| <= |names|
    ensures |Names(names)| == |names| <==> Distinct(names)
  {
    if names != [] {
      var n := |names| - 1;
      DistinctSize(names[..n]);
      assert names == names[..n] + [names[n]];
      assert Names(names) == Names(names[..n]) + {names[n]};
    }
  }

  predicate Distinct(names: seq<string>) {
    forall i, j | 0 <= i < j < |names| :: names[i] != names[j]
  }

  predicate AllRecent(w: World, names: seq<string>, start: int) {
    forall i | 0 <= i < |names| :: NewestFrom(w, names[i], start)
  }

  /** The log is complete and can be decoded. */
  ghost predicate Decodable(w: World, names: seq<string>) {
    Settled(w) && forall i | 0 <= i < |names| :: Newest(w, names[i]).Success?
  }

  /** As many labels are recent as were given exactly when all are, and none was given twice. */
  lemma RecentSize(w: World, names: seq<string>, start: int)
    ensures |Recent(w, Names(names), start)| == |names| <==> Distinct(names) && AllRecent(w, names, start)
  {
    var recent := Recent(w, Names(names), start);
    DistinctSize(names);
    if AllRecent(w, names, start) {
      assert recent == Names(names);
    } else {
      var i :| 0 <= i < |names| && !NewestFrom(w, names[i], start);
      assert names[i] in Names(names) && names[i] !in recent;
      SubsetSize(recent, Names(names) - {names[i]});
    }
  }

  /** `_find_all_event_labels` */
  method FindAllEventLabels(w: World, names: seq<string>, start: int, timeout: int, q0: nat)
    returns (r: Result<Found, Error>, q: nat)
    requires w.Valid()
    ensures r.Success? ==> start <= r.value.time
    ensures r.Success? && r.value.all ==>
              && r.value.found == Names(names)
              && AllLogged(w, Names(names), start, r.value.time)
              && (names != [] ==> SomeLogged(w, names, r.value.time))
              && Distinct(names)
    ensures Decodable(w, names) ==>
              && r.Success? && (r.value.all ==> Distinct(names) && AllRecent(w, names, start))
              && (timeout > 0 && Distinct(names) && AllRecent(w, names, start) ==> r.value.all)
              && (r.value.all ==> q == q0 + |names| && r.value.time == LatestOf(w, names, start, start))
  {
    ghost var decodable := Decodable(w, names);
    ghost var goal := Distinct(names) && AllRecent(w, names, start);
    q := q0;
    var endTime := w.clock(q) + timeout;
    var all, found, missed, time := false, {}, {}, start;
    while !all && w.clock(q) < endTime
      invariant start <= time
      invariant all ==>
                  && found == Names(names) && |found| == |names|
                  && AllLogged(w, Names(names), start, time)
      invariant time == start || SomeLogged(w, names, time)
      invariant decodable ==>
                  if all then goal && q == q0 + |names| && time == LatestOf(w, names, start, start)
                  else !goal || (q == q0 && time == start)
      decreases !all, endTime - w.clock(q)
    {
      var failed, timedOut;
      ghost var q1 := q;
      failed, timedOut, found, missed, time, q := OnePass(w, names, start, time, q);
      if failed {
        r := Failure(ParserError);
        return;
      }
      if decodable { RecentSize(w, names, start); }
      all := !timedOut && |found| == |names|;
      AllFound(names, found);
      if !all { ClockGrows(w, q1, q); }
    }
    DistinctSize(names);
    if all && names != [] { EndIsLogged(w, names, start, time); }
    r := Success(Found(all, found, missed, time));
  }

  lemma SettledQuery(w: World, q: nat, name: string)
    requires w.Valid() && Settled(w)
    ensures w.Query(q, name).event == Newest(w, name)
    ensures !w.Query(q, name).timedout
  {
    assert w.log[..|w.log|] == w.log;
  }

  lemma EndIsLogged(w: World, names: seq<string>, start: int, time: int)
    requires names != [] && AllLogged(w, Names(names), start, time)
    requires time == start || SomeLogged(w, names, time)
    ensures SomeLogged(w, names, time)
  {
    assert names[0] in Names(names);
  }

  /** As many labels found as were given are all of them. */
  lemma AllFound(names: seq<string>, found: set<string>)
    requires found <= Names(names)
    ensures |found| == |names| ==> found == Names(names)
    ensures found == Names(names) && names != [] ==> names[0] in found
    ensures names == [] ==> |found| == |names|
  {
    DistinctSize(names);
    if |found| == |names| {
      SubsetOfSameSize(found, Names(names));
    }
    if names == [] {
      assert found == {};
    }
  }

  lemma SubsetOfSameSize<T>(a: set<T>, b: set<T>)
    requires a <= b && |b| <= |a|
    ensures a == b
  {
    if x :| x in b && x !in a {
      assert a <= b - {x};
      SubsetSize(a, b - {x});
    }
  }

  lemma {:induction false} SubsetSize<T>(a: set<T>, b: set<T>)
    requires a <= b
    ensures |a| <= |b|
  {
    if x :| x in a {
      SubsetSize(a - {x}, b - {x});
    }
  }

  lemma {:induction false} ClockGrows(w: World, a: nat, b: nat)
    requires w.Valid() && a <= b
    ensures w.clock(a) <= w.clock(b)
    ensures a < b ==> w.clock(a) < w.clock(b)
    decreases b
  {
    if a < b { ClockGrows(w, a, b - 1); }
  }

  /** The log is complete and no query is killed. */
  ghost predicate Settled(w: World) {
    forall q: nat :: w.visible(q) == Some(|w.log|) && w.cut(q) == None
  }

  /** The newest event of a label in the complete log. */
  function Newest(w: World, name: string): Result<Option<Event>, Error> {
    LastEvent(w.tools, Some(w.log), Some(name), None).event
  }

  predicate NewestFrom(w: World, name: string, from: int) {
    var e := Newest(w, name);
    e.Success? && e.value.Some? && e.value.value.systemTimestamp >= from
  }

  // ---------------------------------------------------------------------------------------------------------------
  // Waiting in order
  // ---------------------------------------------------------------------------------------------------------------

  predicate Ascending(from: int, times: seq<int>) {
    && (times != [] ==> from <= times[0])
    && forall i, j | 0 <= i < j < |times| :: times[i] <= times[j]
  }

  /** Events for the labels, one each and in the given order, with non-decreasing times from `from` on. */
  ghost predicate InOrder(w: World, names: seq<string>, from: int, times: seq<int>) {
    && |times| == |names| && Ascending(from, times)
    && forall i | 0 <= i < |names| :: Logged(w, names[i], times[i])
  }

  /** For a settled log: each label's newest event is no older than the newest event of the label before it. */
  predicate NewestInOrder(w: World, names: seq<string>, from: int) {
    names == []
    || (NewestFrom(w, names[0], from)
        && NewestInOrder(w, names[1..], Newest(w, names[0]).value.value.systemTimestamp))
  }

  /** The settled log can be decoded, and the clock leaves time for one query per label. */
  ghost predicate Patient(w: World, names: seq<string>, timeout: int, q0: nat) {
    && Decodable(w, names)
    && w.clock(q0 + |names|) < w.clock(q0) + timeout
  }

  /** The search for one label, as `_find_event_labels_in_order` asks for it. */
  method FindOneLabel(w: World, name: string, start: int, timeout: int, q0: nat)
    returns (r: Result<Found, Error>, q: nat)
    requires w.Valid()
    ensures r.Success? && r.value.all ==> start <= r.value.time && Logged(w, name, r.value.time)
    ensures Settled(w) && Newest(w, name).Success? ==>
              && r.Success? && (timeout > 0 ==> (r.value.all <==> NewestFrom(w, name, start)))
              && (r.value.all ==> q == q0 + 1 && NewestFrom(w, name, start)
                                  && r.value.time == Newest(w, name).value.value.systemTimestamp)
  {
    var names := [name];
    r, q := FindAllEventLabels(w, names, start, timeout, q0);
    assert names[0] == name && names[..0] == [];
    assert LatestOf(w, [], start, start) == start;
  }

  lemma NextInOrder(w: World, names: seq<string>, i: nat, from: int)
    requires i < |names|
    ensures NewestInOrder(w, names[i..], from)
            <==> NewestFrom(w, names[i], from)
                 && NewestInOrder(w, names[i + 1..], Newest(w, names[i]).value.value.systemTimestamp)
  {
    assert names[i..][0] == names[i] && names[i..][1..] == names[i + 1..];
  }

  lemma TimeLeft(w: World, names: seq<string>, timeout: int, q0: nat, i: nat, q: nat)
    requires w.Valid() && i <= |names|
    ensures Patient(w, names, timeout, q0) && q == q0 + i ==> timeout - (w.clock(q) - w.clock(q0)) > 0
  {
    ClockGrows(w, q0 + i, q0 + |names|);
  }

  lemma OneMoreName(names: seq<string>, i: nat)
    requires i < |names|
    ensures names[..i + 1] == names[..i] + [names[i]]
    ensures Names(names[..i + 1]) == Names(names[..i]) + {names[i]}
  {
  }

  /** `_find_event_labels_in_order` */
  method FindEventLabelsInOrder(w: World, names: seq<string>, start: int, timeout: int, q0: nat)
    returns (r: Result<Found, Error>, q: nat)
    requires w.Valid()
    ensures r.Success? && r.value.all ==> exists times :: InOrder(w, names, start, times)
    ensures r.Success? && r.value.all ==> r.value.found == Names(names) && r.value.missed == {}
    ensures Patient(w, names, timeout, q0) ==> r.Success? && (r.value.all <==> NewestInOrder(w, names, start))
  {
    ghost var patient := Patient(w, names, timeout, q0);
    q := q0;
    var time := start;
    var startTime := w.clock(q);
    var found: set<string> := {};
    ghost var times: seq<int> := [];
    assert names[0..] == names;
    for i := 0 to |names|
      invariant |times| == i && InOrder(w, names[..i], start, times)
      invariant time == if i == 0 then start else times[i - 1]
      invariant found == Names(names[..i])
      invariant patient ==>
                  q == q0 + i && (NewestInOrder(w, names, start) <==> NewestInOrder(w, names[i..], time))
    {
      NextInOrder(w, names, i, time);
      TimeLeft(w, names, timeout, q0, i, q);
      var remaining := timeout - (w.clock(q) - startTime);
      var step;
      step, q := FindOneLabel(w, names[i], time, remaining, q);
      if step.Failure? {
        r := step;
        return;
      }
      if !step.value.all {
        assert patient ==> !NewestFrom(w, names[i], time);
        assert patient ==> !NewestInOrder(w, names, start);
        r := Success(Found(false, found, Names(names[i..]), time));
        return;
      }
      InOrderGrows(w, names, i, start, times, step.value.time);
      found := found + {names[i]};
      time := step.value.time;
      times := times + [time];
    }
    assert names[..|names|] == names && names[|names|..] == [];
    assert InOrder(w, names, start, times) && NewestInOrder(w, names[|names|..], time);
    assert patient ==> NewestInOrder(w, names, start);
    r := Success(Found(true, found, {}, time));
  }

  lemma InOrderGrows(w: World, names: seq<string>, i: nat, from: int, times: seq<int>, time: int)
    requires i < |names| && InOrder(w, names[..i], from, times) && Logged(w, names[i], time)
    requires (if times == [] then from else times[|times| - 1]) <= time
    ensures InOrder(w, names[..i + 1], from, times + [time])
    ensures Names(names[..i + 1]) == Names(names[..i]) + {names[i]}
  {
    OneMoreName(names, i);
  }

  /** wait_for_event_labels; `known` are the labels of the loaded filters. */
  method WaitForEventLabels(w: World, known: set<string>, names: seq<string>, raiseError: bool, timeout: int,
                            start: int, inOrder: bool)
    returns (r: Result<bool, Error>)
    requires w.Valid()
    ensures r == Success(true) && inOrder ==> exists times :: InOrder(w, names, start, times)
    ensures r == Success(true) && !inOrder ==> exists to :: AllLogged(w, Names(names), start, to)
    ensures r == Success(true) && !inOrder ==> Distinct(names)
    ensures r.Success? ==> Names(names) <= known
    ensures r == Success(false) ==> !raiseError
    ensures Names(names) <= known && inOrder && Patient(w, names, timeout, 0) ==>
              if NewestInOrder(w, names, start) then r == Success(true)
              else r == if raiseError then Failure(ParserError) else Success(false)
    ensures Names(names) <= known && !inOrder && Decodable(w, names) && timeout > 0 ==>
              if Distinct(names) && AllRecent(w, names, start) then r == Success(true)
              else r == if raiseError then Failure(ParserError) else Success(false)
  {
    if n :| n in names && n !in known {
      assert n in Names(names);
      r := Failure(ParserError);
      return;
    }
    var results, q;
    if inOrder {
      results, q := FindEventLabelsInOrder(w, names, start, timeout, 0);
    } else {
      results, q := FindAllEventLabels(w, names, start, timeout, 0);
    }
    if results.Failure? {
      r := Failure(ParserError);
    } else if !results.value.all && raiseError {
      r := Failure(ParserError);
    } else {
      r := Success(results.value.all);
    }
  }

  /** The newest event of `next` is no older than that of `name`. */
  predicate NotOlder(w: World, name: string, next: string) {
    var e := Newest(w, name);
    e.Success? && e.value.Some? && NewestFrom(w, next, e.value.value.systemTimestamp)
  }

  /** On a settled log the answer is True exactly when the newest events themselves are in order. */
  lemma {:induction false} NewestInOrderMeans(w: World, names: seq<string>, from: int)
    ensures NewestInOrder(w, names, from) <==>
            && (names != [] ==> NewestFrom(w, names[0], from))
            && forall i | 0 < i < |names| :: NotOlder(w, names[i - 1], names[i])
  {
    if names != [] && NewestFrom(w, names[0], from) {
      var tail := names[1..];
      NewestInOrderMeans(w, tail, Newest(w, names[0]).value.value.systemTimestamp);
      if NewestInOrder(w, names, from) {
        forall i | 0 < i < |names| ensures NotOlder(w, names[i - 1], names[i]) {
          if i > 1 { assert tail[i - 2] == names[i - 1] && tail[i - 1] == names[i]; }
        }
      } else if tail != [] && NotOlder(w, names[0], tail[0]) {
        var i :| 0 < i < |tail| && !NotOlder(w, tail[i - 1], tail[i]);
        assert names[i] == tail[i - 1] && names[i + 1] == tail[i];
      }
    }
  }

  /** A settled log with an A at 1, a B at 2 and another A at 3. */
  function LaterA(): World {
    World(LETTERS, ["a1", "b2", "a3"], (q: nat) => Some(3), (q: nat) => None, (q: nat) => q)
  }

  lemma NewestOfLaterA()
    ensures LaterA().Valid()
    ensures Newest(LaterA(), "a") == Success(Some(Narrow(Some(["a"]), EventOf("a3"))))
    ensures Newest(LaterA(), "b") == Success(Some(Narrow(Some(["b"]), EventOf("b2"))))
  {
    var w := LaterA();
    assert Reverse(w.log) == ["a3", "b2", "a1"];
    NewestLine(w, "a", 0);
    NewestLine(w, "b", 1);
  }

  lemma LaterAInOrder()
    ensures InOrder(LaterA(), ["a", "b"], 0, [1, 2])
  {
    assert EventAt(LaterA(), 0, "a", 1) && EventAt(LaterA(), 1, "b", 2);
  }

  /** So events in the right order can be overlooked: waiting for A and then B fails there. */
  lemma LaterRepeatHidesOrder()
    ensures LaterA().Valid() && Patient(LaterA(), ["a", "b"], 3, 0)
    ensures exists times :: InOrder(LaterA(), ["a", "b"], 0, times)
    ensures !NewestInOrder(LaterA(), ["a", "b"], 0)
  {
    NewestOfLaterA();
    LaterAInOrder();
    assert ["a", "b"][1..] == ["b"];
  }

  /** The newest event of a label is in the k-th newest line if no newer line mentions it. */
  lemma NewestLine(w: World, name: string, k: nat)
    requires name != "" && k < |w.log|
    requires var line := Reverse(w.log)[k];
             line != "" && w.tools.mentions(name, line) && w.tools.parse(line).Record?
    requires forall i | 0 <= i < k :: !w.tools.mentions(name, Reverse(w.log)[i])
    ensures Newest(w, name) == Success(Some(Narrow(Some([name]), w.tools.parse(Reverse(w.log)[k]).event)))
  {
    var lines := Reverse(w.log);
    GrepMaxSkips(w.tools, name, lines, k);
    var line := lines[k];
    assert [line][1..] == [];
    assert Decode(w.tools, [], Some([name]), None) == Success([]);
    assert DecodeLine(w.tools, line, Some([name]), None) == Success([Narrow(Some([name]), w.tools.parse(line).event)]);
  }

  lemma {:induction false} GrepMaxSkips(t: Tools, name: string, lines: seq<string>, k: nat)
    requires name != "" && k < |lines| && t.mentions(name, lines[k])
    requires forall i | 0 <= i < k :: !t.mentions(name, lines[i])
    ensures GrepMax(t, 1, [name], lines) == [lines[k]]
  {
    assert name in [name];
    if k > 0 {
      assert !t.mentions(name, lines[0]);
      GrepMaxSkips(t, name, lines[1..], k - 1);
    }
  }
}
