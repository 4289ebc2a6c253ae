/** History queries over the event file. Each query is a fast form, assembled from tac, grep, head and tail, of one
    simple list: the decoded lines that mention a label, newest first. */
module EventHistory {
  import opened Common
  import opened UnmatchedEvents

  /** What a non-empty line of the event file holds: no JSON, JSON that lacks a usable timestamp, or an event. */
  datatype Line = Garbled | Malformed | Record(event: Event)

  /** `mentions` is grep's word match, `parse` the JSON and timestamp decoding, `stray` what a grep without any pattern
      reads from standard input. */
  datatype Tools = Tools(mentions: (string, string) -> bool, parse: string -> Line, stray: seq<string>)

  datatype Error = ParserError

  type Events = Result<seq<Event>, Error>

  /** A finished query: the events, and whether the tool was killed by the timeout. */
  datatype Answer = Answer(events: Events, timedout: bool)

  // ---------------------------------------------------------------------------------------------------------------
  // The command line tools, on lists of lines
  // ---------------------------------------------------------------------------------------------------------------

  /** tac */
  function Reverse<T>(s: seq<T>): (r: seq<T>)
    ensures |r| == |s|
    ensures forall i | 0 <= i < |s| :: r[i] == s[|s| - 1 - i]
  {
    if s == [] then [] else Reverse(s[1..]) + [s[0]]
  }

  /** head -n */
  function Take<T>(n: nat, s: seq<T>): seq<T> {
    if n <= |s| then s[..n] else s
  }

  predicate HasPattern(labels: seq<string>) {
    exists l | l in labels :: l != ""
  }

  /** The patterns passed with -e: the non-empty labels. */
  predicate Mentions(t: Tools, labels: seq<string>, line: string) {
    exists l | l in labels :: l != "" && t.mentions(l, line)
  }

  /** grep -w */
  function Grep(t: Tools, labels: seq<string>, lines: seq<string>): seq<string> {
    Filter((line: string) => Mentions(t, labels, line), lines)
  }

  /** grep -m n -w: stops reading at the n-th match. */
  function GrepMax(t: Tools, n: nat, labels: seq<string>, lines: seq<string>): seq<string> {
    if n == 0 || lines == [] then []
    else if Mentions(t, labels, lines[0]) then [lines[0]] + GrepMax(t, n - 1, labels, lines[1..])
    else GrepMax(t, n, labels, lines[1..])
  }

  /** The output of a tool that `timeout` kills after `cut` lines, or lets finish. */
  function Emitted<T>(cut: Option<nat>, s: seq<T>): seq<T> {
    if cut.None? then s else Take(cut.value, s)
  }

  // ---------------------------------------------------------------------------------------------------------------
  // Decoding
  // ---------------------------------------------------------------------------------------------------------------

  predicate Starts(start: Option<int>, e: Event) {
    start.None? || e.systemTimestamp >= start.value
  }

  /** With labels given, only those keys are kept. */
  function Narrow(labels: Option<seq<string>>, e: Event): (r: Event)
    ensures r.systemTimestamp == e.systemTimestamp && r.rawLogLine == e.rawLogLine
  {
    if labels.None? then e
    else Event(e.systemTimestamp, e.rawLogLine, map l | l in e.labels && l in labels.value :: e.labels[l])
  }

  /** A line contributes its event, nothing (None), or an exception. */
  function DecodeLine(t: Tools, line: string, labels: Option<seq<string>>, start: Option<int>)
    : Result<seq<Event>, Error>
  {
    if line == "" then Success([])
    else
      match t.parse(line)
      case Garbled => Success([])
      case Malformed => Failure(ParserError)
      case Record(e) => Success(if Starts(start, e) then [Narrow(labels, e)] else [])
  }

  function Decode(t: Tools, lines: seq<string>, labels: Option<seq<string>>, start: Option<int>): Events {
    if lines == [] then Success([])
    else
      var first, rest := DecodeLine(t, lines[0], labels, start), Decode(t, lines[1..], labels, start);
      if first.Failure? then Failure(ParserError) else Prepend(first.value, rest)
  }

  function Prepend(events: seq<Event>, r: Events): Events {
    if r.Failure? then r else Success(events + r.value)
  }

  /** The line decodes to an event from the start time on. */
  predicate Gives(t: Tools, line: string, start: Option<int>) {
    && line != "" && t.parse(line).Record?
    && (start.Some? ==> t.parse(line).event.systemTimestamp >= start.value)
  }

  /** `e` is the line's event; with labels given, it has those of the line's labels that were asked for, with their
      values. */
  ghost predicate IsEventOf(t: Tools, labels: Option<seq<string>>, line: string, e: Event)
    requires t.parse(line).Record?
  {
    var own := t.parse(line).event;
    && e.systemTimestamp == own.systemTimestamp && e.rawLogLine == own.rawLogLine
    && (labels.None? ==> e.labels == own.labels)
    && (labels.Some? ==>
          && (forall l :: l in e.labels <==> l in own.labels && l in labels.value)
          && forall l | l in e.labels :: e.labels[l] == own.labels[l])
  }

  /** The events are those of the lines at these positions, one each, and no other line gives one. */
  ghost predicate ShownAt(t: Tools, lines: seq<string>, labels: Option<seq<string>>, start: Option<int>,
                          events: seq<Event>, at: seq<nat>)
  {
    && |at| == |events| && Increasing(at)
    && (forall k | 0 <= k < |at| ::
          && at[k] < |lines| && Gives(t, lines[at[k]], start)
          && IsEventOf(t, labels, lines[at[k]], events[k]))
    && forall i {:trigger i in at} | 0 <= i < |lines| && Gives(t, lines[i], start) :: i in at
  }

  ghost predicate Shown(t: Tools, lines: seq<string>, labels: Option<seq<string>>, start: Option<int>,
                        events: seq<Event>)
  {
    exists at :: ShownAt(t, lines, labels, start, events, at)
  }

  /** Decoding fails on a malformed line and otherwise shows the lines that give events, in their order. */
  lemma {:induction false} DecodeShows(t: Tools, lines: seq<string>, labels: Option<seq<string>>, start: Option<int>)
    ensures var r := Decode(t, lines, labels, start);
            && (r.Failure? <==> exists i | 0 <= i < |lines| :: lines[i] != "" && t.parse(lines[i]).Malformed?)
            && (r.Success? ==> Shown(t, lines, labels, start, r.value))
  {
    if lines == [] {
      assert ShownAt(t, lines, labels, start, [], []);
    } else {
      var rest := Decode(t, lines[1..], labels, start);
      DecodeShows(t, lines[1..], labels, start);
      assert forall i | 1 <= i < |lines| :: lines[i] == lines[1..][i - 1];
      if Decode(t, lines, labels, start).Success? {
        var at :| ShownAt(t, lines[1..], labels, start, rest.value, at);
        ShowsOneMore(t, lines, labels, start, at);
      }
    }
  }

  lemma ShowsOneMore(t: Tools, lines: seq<string>, labels: Option<seq<string>>, start: Option<int>, at: seq<nat>)
    requires lines != [] && Decode(t, lines, labels, start).Success? && Decode(t, lines[1..], labels, start).Success?
    requires ShownAt(t, lines[1..], labels, start, Decode(t, lines[1..], labels, start).value, at)
    ensures Shown(t, lines, labels, start, Decode(t, lines, labels, start).value)
  {
    var rest := Decode(t, lines[1..], labels, start).value;
    LaterShown(t, lines, labels, start, rest, at);
    if Gives(t, lines[0], start) {
      FirstShown(t, lines, labels, start, rest, at);
      assert ShownAt(t, lines, labels, start, [Narrow(labels, t.parse(lines[0]).event)] + rest, [0] + Shifted(at));
    } else {
      assert [] + rest == rest;
      assert ShownAt(t, lines, labels, start, rest, Shifted(at));
    }
  }

  lemma LaterShown(t: Tools, lines: seq<string>, labels: Option<seq<string>>, start: Option<int>, rest: seq<Event>,
                   at: seq<nat>)
    requires lines != [] && ShownAt(t, lines[1..], labels, start, rest, at)
    ensures !Gives(t, lines[0], start) ==> ShownAt(t, lines, labels, start, rest, Shifted(at))
    ensures forall i {:trigger i in Shifted(at)} | 1 <= i < |lines| && Gives(t, lines[i], start) :: i in Shifted(at)
  {
    ShiftedPositions(at);
    forall i | 1 <= i < |lines| && Gives(t, lines[i], start) ensures i in Shifted(at) {
      assert lines[1..][i - 1] == lines[i] && i - 1 in at;
    }
  }

  lemma FirstShown(t: Tools, lines: seq<string>, labels: Option<seq<string>>, start: Option<int>, rest: seq<Event>,
                   at: seq<nat>)
    requires lines != [] && Gives(t, lines[0], start) && ShownAt(t, lines[1..], labels, start, rest, at)
    ensures ShownAt(t, lines, labels, start, [Narrow(labels, t.parse(lines[0]).event)] + rest, [0] + Shifted(at))
  {
    var first := Narrow(labels, t.parse(lines[0]).event);
    ShiftedPositions(at);
    FirstAndLater(Shifted(at));
    LaterShown(t, lines, labels, start, rest, at);
    forall k | 0 <= k < |rest| ensures Shifted(at)[k] < |lines| && lines[Shifted(at)[k]] == lines[1..][at[k]] {}
    OneShownMore(t, lines, labels, start, rest, Shifted(at), [first] + rest, [0] + Shifted(at));
  }

  lemma OneShownMore(t: Tools, lines: seq<string>, labels: Option<seq<string>>, start: Option<int>, rest: seq<Event>,
                     later: seq<nat>, events: seq<Event>, at: seq<nat>)
    requires lines != [] && Gives(t, lines[0], start) && |later| == |rest| && Increasing(at)
    requires forall k | 0 <= k < |later| ::
               later[k] < |lines| && Gives(t, lines[later[k]], start) && IsEventOf(t, labels, lines[later[k]], rest[k])
    requires forall i {:trigger i in later} | 1 <= i < |lines| && Gives(t, lines[i], start) :: i in later
    requires |events| == |rest| + 1 && events[0] == Narrow(labels, t.parse(lines[0]).event)
    requires forall k | 1 <= k < |events| :: events[k] == rest[k - 1]
    requires |at| == |later| + 1 && at[0] == 0 && forall k | 1 <= k < |at| :: at[k] == later[k - 1]
    requires 0 in at && forall i | i in later :: i in at
    ensures ShownAt(t, lines, labels, start, events, at)
  {
    forall i | 0 <= i < |lines| && Gives(t, lines[i], start) ensures i in at {
      assert i == 0 || i in later;
    }
  }

  method GetEventsFromJsonOutput(t: Tools, jsonEvents: seq<string>, labels: Option<seq<string>>, start: Option<int>)
    returns (r: Events)
    ensures r == Decode(t, jsonEvents, labels, start)
    ensures r.Failure?
            <==> exists i | 0 <= i < |jsonEvents| :: jsonEvents[i] != "" && t.parse(jsonEvents[i]).Malformed?
    ensures r.Success? ==> Shown(t, jsonEvents, labels, start, r.value)
  {
    DecodeShows(t, jsonEvents, labels, start);
    var result := [];
    var i := 0;
    assert jsonEvents[0..] == jsonEvents;
    PrependNone(Decode(t, jsonEvents, labels, start));
    while i < |jsonEvents|
      invariant 0 <= i <= |jsonEvents|
      invariant Decode(t, jsonEvents, labels, start) == Prepend(result, Decode(t, jsonEvents[i..], labels, start))
    {
      ghost var rest := Decode(t, jsonEvents[i + 1..], labels, start);
      assert jsonEvents[i..][1..] == jsonEvents[i + 1..];
      PrependNone(rest);
      if jsonEvents[i] != "" {
        match t.parse(jsonEvents[i]) {
          case Garbled =>
          case Malformed =>
            return Failure(ParserError);
          case Record(e) =>
            if Starts(start, e) {
              PrependTwice(result, [Narrow(labels, e)], rest);
              result := result + [Narrow(labels, e)];
            }
        }
      }
      i := i + 1;
    }
    assert result + [] == result;
    r := Success(result);
  }

  lemma PrependTwice(a: seq<Event>, b: seq<Event>, r: Events)
    ensures Prepend(a, Prepend(b, r)) == Prepend(a + b, r)
  {
    if r.Success? {
      assert a + (b + r.value) == a + b + r.value;
    }
  }

  lemma PrependNone(r: Events)
    ensures Prepend([], r) == r
  {
    if r.Success? {
      assert [] + r.value == r.value;
    }
  }

  // ---------------------------------------------------------------------------------------------------------------
  // The queries; `file` is None when it does not appear before the timeout
  // ---------------------------------------------------------------------------------------------------------------

  function AllEventHistory(t: Tools, file: Option<seq<string>>, labels: Option<seq<string>>, start: Option<int>,
                           cut: Option<nat>): Answer
  {
    if file.None? then Answer(Success([]), true)
    else
      var lines :=
        if labels.None? then (if cut.None? then Reverse(file.value) else [])
        else if HasPattern(labels.value) then Reverse(Emitted(cut, Grep(t, labels.value, file.value)))
        else Reverse(Emitted(cut, t.stray));
      Answer(Decode(t, lines, labels, start), cut.Some?)
  }

  function LimitedEventHistory(t: Tools, file: Option<seq<string>>, labels: Option<seq<string>>, limit: nat,
                               cut: Option<nat>): Answer
  {
    if file.None? then Answer(Success([]), true)
    else
      var lines :=
        if labels.None? then Emitted(cut, Take(limit, Reverse(file.value)))
        else if HasPattern(labels.value) then Emitted(cut, GrepMax(t, limit, labels.value, Reverse(file.value)))
        else [];
      Answer(Decode(t, lines, labels, None), cut.Some?)
  }

  datatype Last = Last(event: Result<Option<Event>, Error>, timedout: bool)

  function FirstOf(events: Events): Result<Option<Event>, Error> {
    if events.Failure? then Failure(ParserError)
    else Success(if events.value == [] then None else Some(events.value[0]))
  }

  function LastEvent(t: Tools, file: Option<seq<string>>, eventLabel: Option<string>, cut: Option<nat>): Last {
    if file.None? then Last(Success(None), true)
    else if eventLabel == Some("") then Last(Success(None), false)
    else
      var found :=
        if eventLabel.None? then (if cut.None? then Take(1, Reverse(file.value)) else [])
        else Emitted(cut, GrepMax(t, 1, [eventLabel.value], Reverse(file.value)));
      var out := if found == [] then "" else found[0];
      Last(FirstOf(Decode(t, [out], if eventLabel.None? then None else Some([eventLabel.value]), None)), cut.Some?)
  }

  /** The count, and whether the command timed out. */
  function EventHistoryCount(t: Tools, file: Option<seq<string>>, eventLabel: string, cut: Option<nat>): (nat, bool) {
    if file.None? then (0, true)
    else if cut.Some? then (0, true)
    else (|Filter((line: string) => t.mentions(eventLabel, line), file.value)|, false)
  }

  /** verify_event_labels raises. */
  predicate Unknown(known: set<string>, labels: Option<seq<string>>) {
    labels.Some? && exists l | l in labels.value :: l !in known
  }

  /** get_event_history: which of the queries answers. */
  function GetEventHistory(t: Tools, known: set<string>, file: Option<seq<string>>, labels: Option<seq<string>>,
                           count: Option<nat>, start: Option<int>, cut: Option<nat>): Answer
  {
    if Unknown(known, labels) then Answer(Failure(ParserError), false)
    else if start.Some? then AllEventHistory(t, file, labels, start, cut)
    else if count.Some? then LimitedEventHistory(t, file, labels, count.value, cut)
    else AllEventHistory(t, file, labels, None, cut)
  }

  // ---------------------------------------------------------------------------------------------------------------
  // The one list behind the queries
  // ---------------------------------------------------------------------------------------------------------------

  /** The lines a query is about, newest first. */
  function Relevant(t: Tools, file: seq<string>, labels: Option<seq<string>>): seq<string> {
    if labels.None? then Reverse(file) else Grep(t, labels.value, Reverse(file))
  }

  /** No line makes the decoding raise. */
  predicate WellFormed(t: Tools, lines: seq<string>) {
    forall i | 0 <= i < |lines| :: lines[i] == "" || !t.parse(lines[i]).Malformed?
  }

  /** The line decodes to an event. */
  predicate Decodes(t: Tools, line: string) {
    line != "" && t.parse(line).Record?
  }

  /** The queries make sense of `labels`: there is something to grep for. */
  predicate Searchable(labels: Option<seq<string>>) {
    labels.None? || HasPattern(labels.value)
  }

  /** tac then grep is grep then tac. */
  lemma {:induction false} GrepReverse(t: Tools, labels: seq<string>, s: seq<string>)
    ensures Grep(t, labels, Reverse(s)) == Reverse(Grep(t, labels, s))
  {
    if s != [] {
      var keep := (line: string) => Mentions(t, labels, line);
      FilterAppend(keep, Reverse(s[1..]), [s[0]]);
      GrepReverse(t, labels, s[1..]);
      ReverseCons(t, labels, s);
    }
  }

  lemma ReverseCons(t: Tools, labels: seq<string>, s: seq<string>)
    requires s != []
    ensures Reverse(Grep(t, labels, s)) == Reverse(Grep(t, labels, s[1..])) + Grep(t, labels, [s[0]])
  {
    var g := Grep(t, labels, s[1..]);
    FilterOne((line: string) => Mentions(t, labels, line), s[0]);
    if Mentions(t, labels, s[0]) {
      assert Grep(t, labels, s) == [s[0]] + g && ([s[0]] + g)[1..] == g;
    }
  }

  /** Stopping at the n-th match yields the first n matches. */
  lemma {:induction false} GrepMaxIsTake(t: Tools, n: nat, labels: seq<string>, s: seq<string>)
    ensures GrepMax(t, n, labels, s) == Take(n, Grep(t, labels, s))
  {
    if n > 0 && s != [] {
      GrepMaxIsTake(t, if Mentions(t, labels, s[0]) then n - 1 else n, labels, s[1..]);
    }
  }

  lemma {:induction false} DecodeAppend(t: Tools, a: seq<string>, b: seq<string>, labels: Option<seq<string>>,
                                        start: Option<int>)
    requires WellFormed(t, a) && WellFormed(t, b)
    ensures Decode(t, a, labels, start).Success? && Decode(t, b, labels, start).Success?
    ensures Decode(t, a + b, labels, start)
            == Success(Decode(t, a, labels, start).value + Decode(t, b, labels, start).value)
  {
    WellFormedDecodes(t, a, labels, start);
    WellFormedDecodes(t, b, labels, start);
    PrependNone(Decode(t, b, labels, start));
    if a == [] {
      assert a + b == b;
    } else {
      PrependTwice(DecodeLine(t, a[0], labels, start).value, Decode(t, a[1..], labels, start).value,
                   Decode(t, b, labels, start));
      DecodeAppend(t, a[1..], b, labels, start);
      HeadOfBoth(a, b);
    }
  }

  lemma {:induction false} WellFormedDecodes(t: Tools, s: seq<string>, labels: Option<seq<string>>, start: Option<int>)
    requires WellFormed(t, s)
    ensures Decode(t, s, labels, start).Success?
  {
    if s != [] {
      WellFormedDecodes(t, s[1..], labels, start);
    }
  }

  /** As many events as there are decodable lines. */
  lemma {:induction false} DecodedLength(t: Tools, s: seq<string>, labels: Option<seq<string>>)
    requires WellFormed(t, s)
    ensures Decode(t, s, labels, None).Success?
    ensures |Decode(t, s, labels, None).value| == Decodable(t, s)
  {
    if s != [] {
      DecodedLength(t, s[1..], labels);
    }
  }

  function Decodable(t: Tools, s: seq<string>): nat {
    if s == [] then 0 else (if Decodes(t, s[0]) then 1 else 0) + Decodable(t, s[1..])
  }

  lemma {:induction false} DecodableBounds(t: Tools, s: seq<string>)
    ensures Decodable(t, s) <= |s|
    ensures Decodable(t, s) == |s| <==> forall i | 0 <= i < |s| :: Decodes(t, s[i])
    ensures Decodable(t, s) == 0 <==> forall i | 0 <= i < |s| :: !Decodes(t, s[i])
  {
    if s != [] {
      DecodableBounds(t, s[1..]);
      assert forall i | 1 <= i < |s| :: s[1..][i - 1] == s[i];
    }
  }

  // ---------------------------------------------------------------------------------------------------------------
  // How the queries agree
  // ---------------------------------------------------------------------------------------------------------------

  /** Both history queries decode the same list of lines, or its beginning. */
  lemma QueriesDecodeOneList(t: Tools, file: seq<string>, labels: Option<seq<string>>, start: Option<int>, limit: nat)
    requires Searchable(labels)
    ensures AllEventHistory(t, Some(file), labels, start, None)
            == Answer(Decode(t, Relevant(t, file, labels), labels, start), false)
    ensures LimitedEventHistory(t, Some(file), labels, limit, None)
            == Answer(Decode(t, Take(limit, Relevant(t, file, labels)), labels, None), false)
  {
    if labels.Some? {
      GrepReverse(t, labels.value, file);
      GrepMaxIsTake(t, limit, labels.value, Reverse(file));
    }
  }

  /** The limited history is always the beginning of the full one. It is the first `limit` events of it exactly when no
      undecodable line uses up the limit, or nothing decodable is older. */
  lemma LimitedIsPrefix(t: Tools, file: seq<string>, labels: Option<seq<string>>, limit: nat)
    requires Searchable(labels) && WellFormed(t, Relevant(t, file, labels))
    ensures var full := AllEventHistory(t, Some(file), labels, None, None).events;
            var limited := LimitedEventHistory(t, Some(file), labels, limit, None).events;
            var lines := Relevant(t, file, labels);
            && full.Success? && limited.Success? && limited.value <= full.value
            && (limited.value == Take(limit, full.value) <==>
                  || (forall i | 0 <= i < limit && i < |lines| :: Decodes(t, lines[i]))
                  || (forall i | limit <= i < |lines| :: !Decodes(t, lines[i])))
  {
    QueriesDecodeOneList(t, file, labels, None, limit);
    TakeDecodes(t, Relevant(t, file, labels), labels, limit);
  }

  /** The same, of any list of lines and its beginning. */
  lemma TakeDecodes(t: Tools, lines: seq<string>, labels: Option<seq<string>>, limit: nat)
    requires WellFormed(t, lines)
    ensures var full, limited := Decode(t, lines, labels, None), Decode(t, Take(limit, lines), labels, None);
            && full.Success? && limited.Success? && limited.value <= full.value
            && (limited.value == Take(limit, full.value) <==>
                  || (forall i | 0 <= i < limit && i < |lines| :: Decodes(t, lines[i]))
                  || (forall i | limit <= i < |lines| :: !Decodes(t, lines[i])))
  {
    var head := Take(limit, lines);
    var tail := lines[|head|..];
    assert lines == head + tail;
    DecodeAppend(t, head, tail, labels, None);
    DecodedLength(t, head, labels);
    DecodedLength(t, tail, labels);
    TakeDecodable(t, lines, limit);
    TakePrefix(Decode(t, head, labels, None).value, Decode(t, tail, labels, None).value, limit);
  }

  lemma TakePrefix<T>(h: seq<T>, r: seq<T>, limit: nat)
    requires |h| <= limit
    ensures h <= h + r && (h == Take(limit, h + r) <==> |h| == limit || r == [])
  {
    assert (h + r)[..|h|] == h;
  }

  lemma TakeDecodable(t: Tools, lines: seq<string>, limit: nat)
    ensures var head := Take(limit, lines); var tail := lines[|head|..];
            && Decodable(t, head) <= |head| <= limit
            && (Decodable(t, head) == |head| <==> forall i | 0 <= i < limit && i < |lines| :: Decodes(t, lines[i]))
            && (Decodable(t, tail) == 0 <==> forall i | limit <= i < |lines| :: !Decodes(t, lines[i]))
  {
    var head := Take(limit, lines);
    var tail := lines[|head|..];
    DecodableBounds(t, head);
    DecodableBounds(t, tail);
    assert forall i | |head| <= i < |lines| :: lines[i] == tail[i - |head|];
    assert forall i | 0 <= i < |tail| :: tail[i] == lines[i + |head|];
  }

  /** The last event is the newest one of the full history exactly when the newest relevant line decodes, or none
      does. */
  lemma LastIsHead(t: Tools, file: seq<string>, eventLabel: Option<string>)
    requires eventLabel != Some("")
    requires var labels := if eventLabel.None? then None else Some([eventLabel.value]);
             WellFormed(t, Relevant(t, file, labels))
    ensures var labels := if eventLabel.None? then None else Some([eventLabel.value]);
            var lines := Relevant(t, file, labels);
            LastEvent(t, Some(file), eventLabel, None).event
                == FirstOf(AllEventHistory(t, Some(file), labels, None, None).events)
            <==> lines == [] || Decodes(t, lines[0]) || forall i | 0 <= i < |lines| :: !Decodes(t, lines[i])
  {
    var labels := if eventLabel.None? then None else Some([eventLabel.value]);
    var lines := Relevant(t, file, labels);
    assert labels.Some? ==> eventLabel.value in labels.value;
    LimitedIsPrefix(t, file, labels, 1);
    QueriesDecodeOneList(t, file, labels, None, 1);
    DecodedLength(t, lines, labels);
    DecodableBounds(t, lines);
    if eventLabel.Some? {
      GrepMaxIsTake(t, 1, [eventLabel.value], Reverse(file));
    }
    DecodeOutput(t, Take(1, lines), labels);
  }

  /** The output of a tool that prints at most one line, decoded as one string. */
  lemma DecodeOutput(t: Tools, lines: seq<string>, labels: Option<seq<string>>)
    requires |lines| <= 1
    ensures Decode(t, [if lines == [] then "" else lines[0]], labels, None) == Decode(t, lines, labels, None)
  {
    if lines == [] {
      PrependNone(Decode(t, [], labels, None));
      assert [""][1..] == [];
    } else {
      assert lines == [lines[0]];
    }
  }

  /** The count is the length of the full history exactly when every line that mentions the label decodes. */
  lemma CountIsLength(t: Tools, file: seq<string>, eventLabel: string)
    requires eventLabel != "" && WellFormed(t, Relevant(t, file, Some([eventLabel])))
    ensures var full := AllEventHistory(t, Some(file), Some([eventLabel]), None, None).events;
            && full.Success?
            && (EventHistoryCount(t, Some(file), eventLabel, None).0 == |full.value|
                <==> forall line | line in file && t.mentions(eventLabel, line) :: Decodes(t, line))
  {
    var labels := Some([eventLabel]);
    var lines := Relevant(t, file, labels);
    assert eventLabel in labels.value;
    QueriesDecodeOneList(t, file, labels, None, 0);
    DecodedLength(t, lines, labels);
    DecodableBounds(t, lines);
    CountIsRelevant(t, file, eventLabel);
    RelevantMention(t, file, eventLabel);
    EveryIndex(t, lines);
    assert (forall line | line in lines :: Decodes(t, line))
           <==> forall line | line in file && t.mentions(eventLabel, line) :: Decodes(t, line);
  }

  lemma CountIsRelevant(t: Tools, file: seq<string>, eventLabel: string)
    requires eventLabel != ""
    ensures EventHistoryCount(t, Some(file), eventLabel, None).0 == |Relevant(t, file, Some([eventLabel]))|
  {
    GrepOne(t, eventLabel, file);
    GrepReverse(t, [eventLabel], file);
  }

  lemma EveryIndex(t: Tools, lines: seq<string>)
    ensures (forall i | 0 <= i < |lines| :: Decodes(t, lines[i])) <==> forall line | line in lines :: Decodes(t, line)
  {
  }

  /** The relevant lines are the ones that mention the label. */
  lemma RelevantMention(t: Tools, file: seq<string>, eventLabel: string)
    requires eventLabel != ""
    ensures forall line ::
      line in Relevant(t, file, Some([eventLabel])) <==> line in file && t.mentions(eventLabel, line)
  {
    GrepOne(t, eventLabel, Reverse(file));
    FilterMembers((line: string) => t.mentions(eventLabel, line), Reverse(file));
    ReverseMembers(file);
  }

  lemma {:induction false} ReverseMembers<T>(s: seq<T>)
    ensures forall x :: x in Reverse(s) <==> x in s
  {
    if s != [] {
      ReverseMembers(s[1..]);
      assert s == [s[0]] + s[1..];
    }
  }

  lemma {:induction false} GrepOne(t: Tools, eventLabel: string, s: seq<string>)
    requires eventLabel != ""
    ensures Grep(t, [eventLabel], s) == Filter((line: string) => t.mentions(eventLabel, line), s)
  {
    if s != [] {
      GrepOne(t, eventLabel, s[1..]);
      assert eventLabel in [eventLabel];
    }
  }

  /** A start time keeps the events from that time on, and nothing else. */
  lemma {:induction false} StartTimeFilters(t: Tools, lines: seq<string>, labels: Option<seq<string>>, from: int)
    requires WellFormed(t, lines)
    ensures Decode(t, lines, labels, None).Success?
    ensures Decode(t, lines, labels, Some(from))
            == Success(Filter((e: Event) => e.systemTimestamp >= from, Decode(t, lines, labels, None).value))
  {
    if lines != [] {
      StartTimeFilters(t, lines[1..], labels, from);
      var keep := (e: Event) => e.systemTimestamp >= from;
      var first, rest := DecodeLine(t, lines[0], labels, None).value, Decode(t, lines[1..], labels, None).value;
      FilterAppend(keep, first, rest);
    }
  }

  /** A killed limited query returns the newest events of the full history. */
  lemma LimitedTimeoutKeepsNewest(t: Tools, file: seq<string>, labels: seq<string>, limit: nat, cut: nat)
    requires HasPattern(labels) && WellFormed(t, Relevant(t, file, Some(labels)))
    ensures var full := AllEventHistory(t, Some(file), Some(labels), None, None).events;
            var limited := LimitedEventHistory(t, Some(file), Some(labels), limit, Some(cut));
            var lines := Relevant(t, file, Some(labels));
            && full.Success? && limited.events.Success?
            && limited.timedout && limited.events.value <= full.value
            && (limited.events == LimitedEventHistory(t, Some(file), Some(labels), limit, None).events
                <==> forall i | cut <= i < limit && i < |lines| :: !Decodes(t, lines[i]))
  {
    var lines := Relevant(t, file, Some(labels));
    QueriesDecodeOneList(t, file, Some(labels), None, limit);
    GrepMaxIsTake(t, limit, labels, Reverse(file));
    CutTwice(t, lines, limit, cut, Some(labels));
  }

  /** Of the first `limit` lines, those that are printed before the kill. */
  lemma CutTwice(t: Tools, lines: seq<string>, limit: nat, cut: nat, labels: Option<seq<string>>)
    requires WellFormed(t, lines)
    ensures var asked := Take(limit, lines);
            var full, all, printed := Decode(t, lines, labels, None), Decode(t, asked, labels, None),
                                      Decode(t, Take(cut, asked), labels, None);
            && full.Success? && printed.Success? && printed.value <= full.value
            && (printed == all <==> forall i | cut <= i < limit && i < |lines| :: !Decodes(t, lines[i]))
  {
    var asked := Take(limit, lines);
    var k := |Take(cut, asked)|;
    assert Take(cut, asked) == lines[..k] == asked[..k];
    DecodePrefix(t, lines, k, labels);
    DecodePrefix(t, asked, k, labels);
    assert forall i | cut <= i < |asked| :: asked[i] == lines[i];
  }

  lemma DecodePrefix(t: Tools, lines: seq<string>, k: nat, labels: Option<seq<string>>)
    requires WellFormed(t, lines) && k <= |lines|
    ensures Decode(t, lines[..k], labels, None).Success? && Decode(t, lines, labels, None).Success?
    ensures Decode(t, lines[..k], labels, None).value <= Decode(t, lines, labels, None).value
    ensures Decode(t, lines[..k], labels, None) == Decode(t, lines, labels, None)
            <==> forall i | k <= i < |lines| :: !Decodes(t, lines[i])
  {
    assert lines == lines[..k] + lines[k..];
    DecodeAppend(t, lines[..k], lines[k..], labels, None);
    NothingDecoded(t, lines[k..], labels);
    Lengthens(Decode(t, lines[..k], labels, None).value, Decode(t, lines[k..], labels, None).value);
    assert forall i | k <= i < |lines| :: lines[i] == lines[k..][i - k];
    assert forall i | 0 <= i < |lines[k..]| :: lines[k..][i] == lines[i + k];
  }

  lemma NothingDecoded(t: Tools, lines: seq<string>, labels: Option<seq<string>>)
    requires WellFormed(t, lines)
    ensures Decode(t, lines, labels, None).Success?
    ensures Decode(t, lines, labels, None).value == [] <==> forall i | 0 <= i < |lines| :: !Decodes(t, lines[i])
  {
    DecodedLength(t, lines, labels);
    DecodableBounds(t, lines);
  }

  /** A killed unlimited query, which greps oldest first, returns the oldest events of the full history. */
  lemma UnlimitedTimeoutKeepsOldest(t: Tools, file: seq<string>, labels: seq<string>, cut: nat)
    requires HasPattern(labels) && WellFormed(t, Relevant(t, file, Some(labels)))
    ensures var full := AllEventHistory(t, Some(file), Some(labels), None, None).events;
            var all := AllEventHistory(t, Some(file), Some(labels), None, Some(cut));
            var lines := Relevant(t, file, Some(labels));
            && full.Success? && all.events.Success?
            && all.timedout && (exists newest :: full.value == newest + all.events.value)
            && (all.events == full <==> forall i | 0 <= i < |lines| - cut :: !Decodes(t, lines[i]))
  {
    var lines := Relevant(t, file, Some(labels));
    QueriesDecodeOneList(t, file, Some(labels), None, 0);
    GrepReverse(t, labels, file);
    var kept := Reverse(Take(cut, Grep(t, labels, file)));
    var k := |lines| - |kept|;
    assert lines[k..] == kept;
    DecodeSuffix(t, lines, k, Some(labels));
  }

  lemma DecodeSuffix(t: Tools, lines: seq<string>, k: nat, labels: Option<seq<string>>)
    requires WellFormed(t, lines) && k <= |lines|
    ensures Decode(t, lines[k..], labels, None).Success? && Decode(t, lines, labels, None).Success?
    ensures exists newer :: Decode(t, lines, labels, None).value == newer + Decode(t, lines[k..], labels, None).value
    ensures Decode(t, lines[k..], labels, None) == Decode(t, lines, labels, None)
            <==> forall i | 0 <= i < k :: !Decodes(t, lines[i])
  {
    assert lines == lines[..k] + lines[k..];
    DecodeAppend(t, lines[..k], lines[k..], labels, None);
    NothingDecoded(t, lines[..k], labels);
    Lengthens(Decode(t, lines[k..], labels, None).value, Decode(t, lines[..k], labels, None).value);
    assert forall i | 0 <= i < k :: lines[i] == lines[..k][i];
  }
}
