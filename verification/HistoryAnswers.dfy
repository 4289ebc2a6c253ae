/** What get_event_history answers about a file that is read to its end: which of its lines the events come from, how
    many there are at most, and in which order. */
module HistoryAnswers {
  import opened Common
  import opened UnmatchedEvents
  import opened EventHistory

  // ---------------------------------------------------------------------------------------------------------------
  // The lines of the file that the events come from
  // ---------------------------------------------------------------------------------------------------------------

  /** The line mentions a label that was asked for. */
  predicate AskedFor(t: Tools, labels: Option<seq<string>>, line: string) {
    labels.Some? ==> exists l | l in labels.value :: l != "" && t.mentions(l, line)
  }

  /** `r` consists of the elements of `s` at which `keep` holds, from the last to the first. */
  predicate BackwardsAt<T(==)>(keep: T -> bool, s: seq<T>, r: seq<T>, at: seq<nat>) {
    && |at| == |r| && Decreasing(at)
    && (forall k | 0 <= k < |at| :: at[k] < |s| && keep(s[at[k]]) && r[k] == s[at[k]])
    && forall i {:trigger i in at} | 0 <= i < |s| && keep(s[i]) :: i in at
  }

  /** `lines` are the lines of the file that were asked for, from the last to the first. */
  predicate AskedForAt(t: Tools, file: seq<string>, labels: Option<seq<string>>, lines: seq<string>, at: seq<nat>) {
    BackwardsAt((line: string) => AskedFor(t, labels, line), file, lines, at)
  }

  lemma RelevantAt(t: Tools, file: seq<string>, labels: Option<seq<string>>) returns (at: seq<nat>)
    ensures AskedForAt(t, file, labels, Relevant(t, file, labels), at)
  {
    RelevantIsFilter(t, labels, Reverse(file));
    at := PickedBackwards((line: string) => AskedFor(t, labels, line), file, Reverse(file));
  }

  lemma PickedBackwards<T>(keep: T -> bool, s: seq<T>, reversed: seq<T>) returns (at: seq<nat>)
    requires |reversed| == |s| && forall i | 0 <= i < |s| :: reversed[i] == s[|s| - 1 - i]
    ensures BackwardsAt(keep, s, Filter(keep, reversed), at)
  {
    var picked := FilterPicks(keep, reversed);
    at := MirroredPicks(keep, s, reversed, Filter(keep, reversed), picked);
  }

  /** What is picked from a reversed sequence, as positions in the sequence. */
  lemma MirroredPicks<T>(keep: T -> bool, s: seq<T>, reversed: seq<T>, r: seq<T>, picked: seq<nat>)
    returns (at: seq<nat>)
    requires |reversed| == |s| && forall i | 0 <= i < |s| :: reversed[i] == s[|s| - 1 - i]
    requires PickedAt(keep, reversed, r, picked)
    ensures BackwardsAt(keep, s, r, at)
  {
    at := Mirrored(|s|, picked);
    MirroredPositions(|s|, picked);
    forall i | 0 <= i < |s| && keep(s[i]) ensures i in at {
      var k := |s| - 1 - i;
      assert reversed[k] == s[i] && k in picked;
    }
    forall k | 0 <= k < |at| ensures at[k] < |s| && keep(s[at[k]]) && r[k] == s[at[k]] {
      assert reversed[picked[k]] == s[at[k]];
    }
  }

  lemma {:induction false} RelevantIsFilter(t: Tools, labels: Option<seq<string>>, s: seq<string>)
    ensures (if labels.None? then s else Grep(t, labels.value, s))
            == Filter((line: string) => AskedFor(t, labels, line), s)
  {
    if s != [] {
      RelevantIsFilter(t, labels, s[1..]);
    }
  }

  /** The events are those of the lines that were asked for and give one from the start time on, latest line first. */
  ghost predicate AnswersAt(t: Tools, file: seq<string>, labels: Option<seq<string>>, start: Option<int>,
                            events: seq<Event>, at: seq<nat>)
  {
    && |at| == |events| && Decreasing(at)
    && (forall k | 0 <= k < |at| ::
          && at[k] < |file| && AskedFor(t, labels, file[at[k]]) && Gives(t, file[at[k]], start)
          && IsEventOf(t, labels, file[at[k]], events[k]))
    && forall i {:trigger i in at} | 0 <= i < |file| && AskedFor(t, labels, file[i]) && Gives(t, file[i], start) ::
         i in at
  }

  ghost predicate Answers(t: Tools, file: seq<string>, labels: Option<seq<string>>, start: Option<int>,
                          events: seq<Event>)
  {
    exists at :: AnswersAt(t, file, labels, start, events, at)
  }

  /** What the relevant lines show is what the file answers. */
  lemma ShownIsAnswered(t: Tools, file: seq<string>, labels: Option<seq<string>>, start: Option<int>,
                        events: seq<Event>)
    requires Shown(t, Relevant(t, file, labels), labels, start, events)
    ensures Answers(t, file, labels, start, events)
  {
    var lines := Relevant(t, file, labels);
    var asked := RelevantAt(t, file, labels);
    var shown :| ShownAt(t, lines, labels, start, events, shown);
    ComposedPositions(asked, shown);
    EveryoneAnswers(t, file, labels, start, events, asked, shown);
    assert AnswersAt(t, file, labels, start, events, Composed(asked, shown));
  }

  lemma EveryoneAnswers(t: Tools, file: seq<string>, labels: Option<seq<string>>, start: Option<int>,
                        events: seq<Event>, asked: seq<nat>, shown: seq<nat>)
    requires AskedForAt(t, file, labels, Relevant(t, file, labels), asked)
    requires ShownAt(t, Relevant(t, file, labels), labels, start, events, shown)
    ensures forall i | 0 <= i < |file| && AskedFor(t, labels, file[i]) && Gives(t, file[i], start) ::
              i in Composed(asked, shown)
  {
    ComposedPositions(asked, shown);
    forall i | 0 <= i < |file| && AskedFor(t, labels, file[i]) && Gives(t, file[i], start)
      ensures i in Composed(asked, shown)
    {
      assert i in asked;
      var j :| 0 <= j < |asked| && asked[j] == i;
      assert Relevant(t, file, labels)[j] == file[i] && j in shown;
    }
  }

  // ---------------------------------------------------------------------------------------------------------------
  // get_event_history on a complete log
  // ---------------------------------------------------------------------------------------------------------------

  /** What get_event_history answers about a file that is read to its end, given all events, newest first: an error for
      an unknown label, the events from the start time on, at most `count` of the newest, or all. The events are those
      of the lines that mention a label, the latest line first, with the values of the labels asked for. */
  lemma GetEventHistoryMeans(t: Tools, known: set<string>, file: seq<string>, labels: Option<seq<string>>,
                             count: Option<nat>, start: Option<int>)
    requires Searchable(labels) && WellFormed(t, Relevant(t, file, labels))
    ensures var full := Decode(t, Relevant(t, file, labels), labels, None);
            var answer := GetEventHistory(t, known, Some(file), labels, count, start, None);
            && full.Success? && Answers(t, file, labels, None, full.value) && !answer.timedout
            && if Unknown(known, labels) then answer.events.Failure?
               else if start.Some? then
                 && answer.events == Success(Filter((e: Event) => e.systemTimestamp >= start.value, full.value))
                 && Answers(t, file, labels, start, answer.events.value)
               else if count.Some? then
                 answer.events.Success? && answer.events.value <= full.value && |answer.events.value| <= count.value
               else answer.events == full
  {
    var lines := Relevant(t, file, labels);
    WellFormedDecodes(t, lines, labels, None);
    DecodeShows(t, lines, labels, None);
    ShownIsAnswered(t, file, labels, None, Decode(t, lines, labels, None).value);
    QueriesDecodeOneList(t, file, labels, start, if count.Some? then count.value else 0);
    QueriesDecodeOneList(t, file, labels, None, 0);
    if start.Some? {
      StartTimeFilters(t, lines, labels, start.value);
      DecodeShows(t, lines, labels, start);
      ShownIsAnswered(t, file, labels, start, Decode(t, lines, labels, start).value);
    } else if count.Some? {
      TakeDecodes(t, lines, labels, count.value);
      DecodedLength(t, Take(count.value, lines), labels);
      DecodableBounds(t, Take(count.value, lines));
    }
  }

  predicate Breaks(t: Tools, line: string) {
    line != "" && t.parse(line).Malformed?
  }

  /** A history without a limit raises exactly when a line that was asked for is JSON without a usable timestamp. */
  lemma HistoryFailsExactlyWhen(t: Tools, file: seq<string>, labels: Option<seq<string>>, start: Option<int>)
    requires Searchable(labels)
    ensures AllEventHistory(t, Some(file), labels, start, None).events.Failure?
            <==> exists i | 0 <= i < |file| :: AskedFor(t, labels, file[i]) && Breaks(t, file[i])
  {
    var lines := Relevant(t, file, labels);
    QueriesDecodeOneList(t, file, labels, start, 0);
    DecodeShows(t, lines, labels, start);
    var at := RelevantAt(t, file, labels);
    assert (exists k | 0 <= k < |lines| :: lines[k] != "" && t.parse(lines[k]).Malformed?)
           <==> exists k | 0 <= k < |lines| :: Breaks(t, lines[k]);
    if i :| 0 <= i < |file| && AskedFor(t, labels, file[i]) && Breaks(t, file[i]) {
      assert i in at;
      var k :| 0 <= k < |at| && at[k] == i;
      assert lines[k] == file[i];
    }
  }

  /** Without an event file every query answers that it found nothing and timed out; only unknown labels come first. */
  lemma NoFile(t: Tools, known: set<string>, labels: Option<seq<string>>, count: Option<nat>, start: Option<int>,
               eventLabel: Option<string>, cut: Option<nat>)
    ensures var answer := GetEventHistory(t, known, None, labels, count, start, cut);
            if labels.Some? && exists l | l in labels.value :: l !in known then answer.events.Failure?
            else answer.events == Success([]) && answer.timedout
    ensures var last := LastEvent(t, None, eventLabel, cut); last.event == Success(None) && last.timedout
  {
  }

  /** With only empty labels there is nothing to grep for: the unlimited history is about what grep then reads from
      standard input, the other two queries find nothing. */
  lemma NothingToGrepFor(t: Tools, file: seq<string>, labels: seq<string>, start: Option<int>, limit: nat,
                         cut: Option<nat>)
    requires forall l | l in labels :: l == ""
    ensures var all := AllEventHistory(t, Some(file), Some(labels), start, None).events;
            && (all.Failure? <==> exists line | line in t.stray :: Breaks(t, line))
            && (all.Success? ==> Shown(t, Reverse(t.stray), Some(labels), start, all.value))
    ensures LimitedEventHistory(t, Some(file), Some(labels), limit, cut) == Answer(Success([]), cut.Some?)
    ensures LastEvent(t, Some(file), Some(""), cut) == Last(Success(None), false)
  {
    var lines := Reverse(t.stray);
    DecodeShows(t, lines, Some(labels), start);
    ReverseMembers(t.stray);
    if i :| 0 <= i < |lines| && lines[i] != "" && t.parse(lines[i]).Malformed? {
      assert Breaks(t, lines[i]) && lines[i] in lines;
    }
    if line :| line in t.stray && Breaks(t, line) {
      assert line in lines;
    }
  }

  /** What is left of the other queries when their command is killed: a history of all events and a count lose
      everything, the last event is lost only if the killed grep had not printed it yet. */
  lemma KilledQueries(t: Tools, file: seq<string>, start: Option<int>, eventLabel: string, cut: nat)
    requires eventLabel != "" && WellFormed(t, Relevant(t, file, Some([eventLabel])))
    ensures AllEventHistory(t, Some(file), None, start, Some(cut)) == Answer(Success([]), true)
    ensures LastEvent(t, Some(file), None, Some(cut)) == Last(Success(None), true)
    ensures var last := LastEvent(t, Some(file), Some(eventLabel), Some(cut));
            && last.timedout && last.event.Success?
            && if cut == 0 then last.event.value.None?
               else IsLast(t, file, Some([eventLabel]), last.event.value)
    ensures EventHistoryCount(t, Some(file), eventLabel, Some(cut)) == (0, true)
  {
    DecodeOutput(t, [], None);
    DecodeOutput(t, [], Some([eventLabel]));
    LastMeans(t, file, Some(eventLabel));
    var found := GrepMax(t, 1, [eventLabel], Reverse(file));
    GrepMaxIsTake(t, 1, [eventLabel], Reverse(file));
    assert cut > 0 ==> Emitted(Some(cut), found) == found;
  }

  /** The limited query shows the `limit` latest of the lines that were asked for. */
  lemma LimitedMeans(t: Tools, file: seq<string>, labels: Option<seq<string>>, limit: nat) returns (at: seq<nat>)
    requires Searchable(labels) && WellFormed(t, Relevant(t, file, labels))
    ensures var lines := Relevant(t, file, labels);
            var answer := LimitedEventHistory(t, Some(file), labels, limit, None);
            && AskedForAt(t, file, labels, lines, at) && answer.events.Success?
            && Shown(t, if limit < |lines| then lines[..limit] else lines, labels, None, answer.events.value)
  {
    var lines := Relevant(t, file, labels);
    at := RelevantAt(t, file, labels);
    QueriesDecodeOneList(t, file, labels, None, limit);
    WellFormedDecodes(t, Take(limit, lines), labels, None);
    DecodeShows(t, Take(limit, lines), labels, None);
    assert limit == |lines| ==> lines[..limit] == lines;
  }

  predicate IsLatestAskedFor(t: Tools, file: seq<string>, labels: Option<seq<string>>, i: nat) {
    i < |file| && AskedFor(t, labels, file[i]) && forall j | i < j < |file| :: !AskedFor(t, labels, file[j])
  }

  /** The last event is that of the latest line that was asked for, and missing if that line does not decode or there
      is none. */
  ghost predicate IsLast(t: Tools, file: seq<string>, labels: Option<seq<string>>, last: Option<Event>) {
    if last.None? then forall i: nat | IsLatestAskedFor(t, file, labels, i) :: !Gives(t, file[i], None)
    else
      exists i: nat | IsLatestAskedFor(t, file, labels, i) ::
        Gives(t, file[i], None) && IsEventOf(t, labels, file[i], last.value)
  }

  lemma LastMeans(t: Tools, file: seq<string>, eventLabel: Option<string>)
    requires eventLabel != Some("")
    requires var labels := if eventLabel.None? then None else Some([eventLabel.value]);
             WellFormed(t, Relevant(t, file, labels))
    ensures var labels := if eventLabel.None? then None else Some([eventLabel.value]);
            var last := LastEvent(t, Some(file), eventLabel, None);
            !last.timedout && last.event.Success? && IsLast(t, file, labels, last.event.value)
  {
    var labels := if eventLabel.None? then None else Some([eventLabel.value]);
    var lines := Relevant(t, file, labels);
    if eventLabel.Some? {
      GrepMaxIsTake(t, 1, labels.value, Reverse(file));
    }
    DecodeOutput(t, Take(1, lines), labels);
    WellFormedDecodes(t, Take(1, lines), labels, None);
    FirstIsLast(t, file, labels);
  }

  lemma FirstIsLast(t: Tools, file: seq<string>, labels: Option<seq<string>>)
    requires WellFormed(t, Relevant(t, file, labels))
    ensures var head := Decode(t, Take(1, Relevant(t, file, labels)), labels, None);
            head.Success? && IsLast(t, file, labels, FirstOf(head).value)
  {
    var lines := Relevant(t, file, labels);
    var at := RelevantAt(t, file, labels);
    if lines != [] {
      assert Take(1, lines) == [lines[0]] && [lines[0]][1..] == [];
      LatestIsFirst(t, file, labels, lines, at);
      assert IsLatestAskedFor(t, file, labels, at[0]);
    } else {
      forall i: nat | i < |file| ensures !AskedFor(t, labels, file[i]) {
        assert AskedFor(t, labels, file[i]) ==> i in at;
      }
    }
  }

  lemma LatestIsFirst(t: Tools, file: seq<string>, labels: Option<seq<string>>, lines: seq<string>, at: seq<nat>)
    requires AskedForAt(t, file, labels, lines, at) && lines != []
    ensures forall i: nat :: IsLatestAskedFor(t, file, labels, i) <==> i == at[0]
  {
    assert forall i | i in at :: i <= at[0];
    forall i: nat | i < |file| && AskedFor(t, labels, file[i]) ensures i <= at[0] { assert i in at; }
    assert AskedFor(t, labels, file[at[0]]);
  }

  /** The line gives an event that a query with these labels and this start time returns. */
  predicate Wanted(t: Tools, labels: Option<seq<string>>, from: int, line: string) {
    && Decodes(t, line) && t.parse(line).event.systemTimestamp >= from
    && (labels.Some? ==> Mentions(t, labels.value, line))
  }

  /** No file makes get_event_history return more than `count` events. */
  ghost predicate CountBounds(t: Tools, known: set<string>, labels: Option<seq<string>>, count: nat,
      start: Option<int>) {
    forall file :: AtMost(count, GetEventHistory(t, known, Some(file), labels, Some(count), start, None).events)
  }

  predicate AtMost(count: nat, r: Events) {
    r.Success? ==> |r.value| <= count
  }

  /** The documented bound holds for all files exactly when no start time is given, the call fails anyway, or no line
      at all can be an event from the start time on. */
  lemma CountBoundsExactlyWhen(t: Tools, known: set<string>, labels: Option<seq<string>>, count: nat,
      start: Option<int>)
    requires Searchable(labels)
    ensures CountBounds(t, known, labels, count, start)
            <==> start.None? || Unknown(known, labels) || forall line :: !Wanted(t, labels, start.value, line)
  {
    if start.Some? && !Unknown(known, labels) {
      if line :| Wanted(t, labels, start.value, line) {
        CountIsIgnored(t, known, labels, count, start.value, line);
      } else {
        forall file
          ensures AtMost(count, GetEventHistory(t, known, Some(file), labels, Some(count), start, None).events)
        {
          NoWantedEvents(t, file, labels, start.value);
        }
      }
    } else {
      forall file
        ensures AtMost(count, GetEventHistory(t, known, Some(file), labels, Some(count), start, None).events)
      {
        QueriesDecodeOneList(t, file, labels, None, count);
        NoMoreEventsThanLines(t, Take(count, Relevant(t, file, labels)), labels, None);
      }
    }
  }

  lemma NoWantedEvents(t: Tools, file: seq<string>, labels: Option<seq<string>>, start: int)
    requires Searchable(labels) && forall line :: !Wanted(t, labels, start, line)
    ensures AtMost(0, AllEventHistory(t, Some(file), labels, Some(start), None).events)
  {
    QueriesDecodeOneList(t, file, labels, Some(start), 0);
    RelevantLines(t, file, labels);
    NothingWanted(t, Relevant(t, file, labels), labels, start);
  }

  /** A file of more than `count` copies of one line that is wanted. */
  lemma CountIsIgnored(t: Tools, known: set<string>, labels: Option<seq<string>>, count: nat, start: int, line: string)
    requires Searchable(labels) && !Unknown(known, labels) && Wanted(t, labels, start, line)
    ensures !CountBounds(t, known, labels, count, Some(start))
  {
    var file := Copies(count + 1, line);
    QueriesDecodeOneList(t, file, labels, Some(start), 0);
    CopiesRelevant(t, labels, line, count + 1, start);
    assert !AtMost(count, GetEventHistory(t, known, Some(file), labels, Some(count), Some(start), None).events);
  }

  lemma CopiesRelevant(t: Tools, labels: Option<seq<string>>, line: string, n: nat, from: int)
    requires Wanted(t, labels, from, line)
    ensures Relevant(t, Copies(n, line), labels) == Copies(n, line)
    ensures Decode(t, Copies(n, line), labels, Some(from)).Success?
    ensures |Decode(t, Copies(n, line), labels, Some(from)).value| == n
  {
    assert Reverse(Copies(n, line)) == Copies(n, line);
    CopiesDecoded(t, labels, line, n, from);
  }

  lemma {:induction false} CopiesDecoded(t: Tools, labels: Option<seq<string>>, line: string, n: nat, from: int)
    requires Wanted(t, labels, from, line)
    ensures labels.Some? ==> Grep(t, labels.value, Copies(n, line)) == Copies(n, line)
    ensures Decode(t, Copies(n, line), labels, Some(from)).Success?
    ensures |Decode(t, Copies(n, line), labels, Some(from)).value| == n
  {
    if n > 0 {
      assert Copies(n, line)[1..] == Copies(n - 1, line);
      assert Copies(n, line) == [line] + Copies(n - 1, line);
      CopiesDecoded(t, labels, line, n - 1, from);
    }
  }

  lemma {:induction false} NoMoreEventsThanLines(t: Tools, lines: seq<string>, labels: Option<seq<string>>,
      start: Option<int>)
    ensures Decode(t, lines, labels, start).Success? ==> |Decode(t, lines, labels, start).value| <= |lines|
  {
    if lines != [] { NoMoreEventsThanLines(t, lines[1..], labels, start); }
  }

  lemma RelevantLines(t: Tools, file: seq<string>, labels: Option<seq<string>>)
    ensures labels.Some? ==> forall line | line in Relevant(t, file, labels) :: Mentions(t, labels.value, line)
  {
    if labels.Some? {
      FilterMembers((line: string) => Mentions(t, labels.value, line), Reverse(file));
    }
  }

  lemma {:induction false} NothingWanted(t: Tools, lines: seq<string>, labels: Option<seq<string>>, from: int)
    requires forall line | line in lines :: !Wanted(t, labels, from, line)
    requires labels.Some? ==> forall line | line in lines :: Mentions(t, labels.value, line)
    ensures AtMost(0, Decode(t, lines, labels, Some(from)))
  {
    if lines != [] {
      assert lines[0] in lines;
      NothingWanted(t, lines[1..], labels, from);
    }
  }

  function TimeOf(t: Tools, line: string): int
    requires Decodes(t, line)
  {
    t.parse(line).event.systemTimestamp
  }

  /** Events were appended with non-decreasing times. */
  predicate InLogOrder(t: Tools, file: seq<string>) {
    forall i, j | 0 <= i < j < |file| && Decodes(t, file[i]) && Decodes(t, file[j]) ::
      TimeOf(t, file[i]) <= TimeOf(t, file[j])
  }

  predicate NewestFirst(t: Tools, lines: seq<string>) {
    forall i, j | 0 <= i < j < |lines| && Decodes(t, lines[i]) && Decodes(t, lines[j]) ::
      TimeOf(t, lines[i]) >= TimeOf(t, lines[j])
  }

  lemma {:induction false} GrepKeepsOrder(t: Tools, labels: seq<string>, lines: seq<string>)
    requires NewestFirst(t, lines)
    ensures NewestFirst(t, Grep(t, labels, lines))
  {
    if lines != [] {
      GrepKeepsOrder(t, labels, lines[1..]);
      var rest := Grep(t, labels, lines[1..]);
      FilterMembers((line: string) => Mentions(t, labels, line), lines[1..]);
      if Mentions(t, labels, lines[0]) {
        forall j | 0 <= j < |rest| && Decodes(t, lines[0]) && Decodes(t, rest[j])
          ensures TimeOf(t, lines[0]) >= TimeOf(t, rest[j])
        {
          assert rest[j] in lines[1..];
        }
      }
    }
  }

  predicate HasTime(t: Tools, lines: seq<string>, time: int) {
    exists i :: 0 <= i < |lines| && Decodes(t, lines[i]) && TimeOf(t, lines[i]) == time
  }

  lemma LaterTime(t: Tools, lines: seq<string>, time: int)
    requires lines != [] && HasTime(t, lines[1..], time)
    ensures HasTime(t, lines, time)
    ensures NewestFirst(t, lines) && Decodes(t, lines[0]) ==> TimeOf(t, lines[0]) >= time
  {
    var i :| 0 <= i < |lines[1..]| && Decodes(t, lines[1..][i]) && TimeOf(t, lines[1..][i]) == time;
    assert lines[i + 1] == lines[1..][i];
  }

  lemma DecodedHead(t: Tools, lines: seq<string>, labels: Option<seq<string>>)
    requires WellFormed(t, lines) && lines != []
    ensures Decode(t, lines, labels, None).Success? && Decode(t, lines[1..], labels, None).Success?
    ensures Times(Decode(t, lines, labels, None).value)
         == (if Decodes(t, lines[0]) then [TimeOf(t, lines[0])] else [])
            + Times(Decode(t, lines[1..], labels, None).value)
  {
    WellFormedDecodes(t, lines[1..], labels, None);
  }

  lemma {:induction false} DecodeKeepsOrder(t: Tools, lines: seq<string>, labels: Option<seq<string>>)
    requires WellFormed(t, lines) && NewestFirst(t, lines)
    ensures Decode(t, lines, labels, None).Success?
    ensures var times := Times(Decode(t, lines, labels, None).value);
            Descending(times) && forall k | 0 <= k < |times| :: HasTime(t, lines, times[k])
  {
    if lines != [] {
      DecodeKeepsOrder(t, lines[1..], labels);
      DecodedHead(t, lines, labels);
      var rest := Times(Decode(t, lines[1..], labels, None).value);
      forall k | 0 <= k < |rest|
        ensures HasTime(t, lines, rest[k])
        ensures Decodes(t, lines[0]) ==> TimeOf(t, lines[0]) >= rest[k]
      {
        LaterTime(t, lines, rest[k]);
      }
    }
  }

  /** In a log in order, every history is newest-first. */
  lemma HistoryIsNewestFirst(t: Tools, file: seq<string>, labels: Option<seq<string>>)
    requires Searchable(labels) && WellFormed(t, Relevant(t, file, labels)) && InLogOrder(t, file)
    ensures var full := AllEventHistory(t, Some(file), labels, None, None).events;
            full.Success? && Descending(Times(full.value))
  {
    QueriesDecodeOneList(t, file, labels, None, 0);
    if labels.Some? { GrepKeepsOrder(t, labels.value, Reverse(file)); }
    DecodeKeepsOrder(t, Relevant(t, file, labels), labels);
  }
}
