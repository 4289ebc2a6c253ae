/** The queries look for lines that mention a label. Exactly when the events that they return carry it, and what is
    left of the answers if some lines do not decode. */
module EventLabels {
  import opened Common
  import opened UnmatchedEvents
  import opened EventHistory
  import opened EventWaiting
  import opened SampleLogs

  // ---------------------------------------------------------------------------------------------------------------
  // Mentioned, but not carried
  // ---------------------------------------------------------------------------------------------------------------

  /** Every line of the file that mentions the label and decodes is an event of that label. */
  predicate Carried(t: Tools, file: seq<string>, eventLabel: string) {
    forall line | line in file && t.mentions(eventLabel, line) && Decodes(t, line) ::
      eventLabel in t.parse(line).event.labels
  }

  lemma {:induction false} DecodedLabels(t: Tools, lines: seq<string>, eventLabel: string)
    ensures var r := Decode(t, lines, Some([eventLabel]), None);
            r.Success? ==>
              ((forall e | e in r.value :: eventLabel in e.labels)
               <==> forall line | line in lines && Decodes(t, line) :: eventLabel in t.parse(line).event.labels)
  {
    if lines != [] {
      DecodedLabels(t, lines[1..], eventLabel);
      assert lines == [lines[0]] + lines[1..];
      if Decode(t, lines, Some([eventLabel]), None).Success? {
        assert eventLabel in [eventLabel];
        DecodedFirst(t, lines, eventLabel);
      }
    }
  }

  lemma DecodedFirst(t: Tools, lines: seq<string>, eventLabel: string)
    requires lines != [] && Decode(t, lines, Some([eventLabel]), None).Success?
    ensures Decode(t, lines[1..], Some([eventLabel]), None).Success?
    ensures Decode(t, lines, Some([eventLabel]), None).value
         == (if Decodes(t, lines[0]) then [Narrow(Some([eventLabel]), t.parse(lines[0]).event)] else [])
            + Decode(t, lines[1..], Some([eventLabel]), None).value
  {
  }

  /** All events in the history of a label carry it exactly when every line that mentions it is an event of that
      label. */
  lemma EventsCarryLabelExactlyWhen(t: Tools, file: seq<string>, eventLabel: string)
    requires eventLabel != ""
    ensures var full := AllEventHistory(t, Some(file), Some([eventLabel]), None, None).events;
            full.Success? ==> ((forall e | e in full.value :: eventLabel in e.labels) <==> Carried(t, file, eventLabel))
  {
    assert eventLabel in [eventLabel];
    QueriesDecodeOneList(t, file, Some([eventLabel]), None, 0);
    RelevantMention(t, file, eventLabel);
    DecodedLabels(t, Relevant(t, file, Some([eventLabel])), eventLabel);
  }

  /** Line p of the log is an event of that time that carries the label. */
  ghost predicate CarriedAt(w: World, p: nat, name: string, time: int) {
    EventAt(w, p, name, time) && name in w.tools.parse(w.log[p]).event.labels
  }

  ghost predicate CarriedLog(w: World, name: string, time: int) {
    exists p: nat :: CarriedAt(w, p, name, time)
  }

  /** So if all lines that mention the labels carry them, waiting in order finds events of the labels in order. */
  lemma WaitedForCarry(w: World, names: seq<string>, from: int, times: seq<int>)
    requires InOrder(w, names, from, times) && forall i | 0 <= i < |names| :: Carried(w.tools, w.log, names[i])
    ensures |times| == |names| && Ascending(from, times)
    ensures forall i | 0 <= i < |names| :: CarriedLog(w, names[i], times[i])
  {
    forall i | 0 <= i < |names| ensures CarriedLog(w, names[i], times[i]) {
      assert Logged(w, names[i], times[i]);
      LoggedIsCarried(w, names[i], times[i]);
    }
  }

  lemma LoggedIsCarried(w: World, name: string, time: int)
    requires Logged(w, name, time) && Carried(w.tools, w.log, name)
    ensures CarriedLog(w, name, time)
  {
    var p: nat :| EventAt(w, p, name, time);
    assert w.log[p] in w.log;
    assert CarriedAt(w, p, name, time);
  }

  /** A dot ends a word, so a label is mentioned where a longer one ends in it. */
  predicate EndsWith(eventLabel: string, line: string) {
    line == eventLabel || line == "os." + eventLabel
  }

  function LineAsLabel(line: string): Line {
    Record(Event(0, line, map[line := []]))
  }

  const DOTTED := Tools(EndsWith, LineAsLabel, [])

  function DottedWorld(): World {
    World(DOTTED, ["os.boot"], (q: nat) => Some(1), (q: nat) => None, (q: nat) => q)
  }

  /** The history of "boot" consists of an event that is not one. */
  lemma MentionIsNotLabel()
    ensures var full := AllEventHistory(DOTTED, Some(["os.boot"]), Some(["boot"]), None, None).events;
            full.Success? && exists e | e in full.value :: "boot" !in e.labels
  {
    var file := ["os.boot"];
    assert "boot" in ["boot"] && Decodes(DOTTED, "os.boot") && DOTTED.mentions("boot", "os.boot");
    assert "os.boot" in file && !Carried(DOTTED, file, "boot");
    QueriesDecodeOneList(DOTTED, file, Some(["boot"]), None, 0);
    WellFormedDecodes(DOTTED, Relevant(DOTTED, file, Some(["boot"])), Some(["boot"]), None);
    EventsCarryLabelExactlyWhen(DOTTED, file, "boot");
  }

  /** And waiting for "boot" succeeds, by the contract of WaitForEventLabels, in a log without such an event. */
  lemma WaitsForWrongEvent()
    ensures var w := DottedWorld();
            && w.Valid() && Patient(w, ["boot"], 2, 0) && NewestInOrder(w, ["boot"], 0)
            && forall time :: !CarriedLog(w, "boot", time)
  {
    NewestBoot();
    NoBoot();
    assert ["boot"][1..] == [];
  }

  lemma NewestBoot()
    ensures DottedWorld().Valid()
    ensures Newest(DottedWorld(), "boot")
         == Success(Some(Narrow(Some(["boot"]), Event(0, "os.boot", map["os.boot" := []]))))
  {
    var w := DottedWorld();
    assert Reverse(w.log) == ["os.boot"];
    NewestLine(w, "boot", 0);
  }

  lemma NoBoot()
    ensures forall time :: !CarriedLog(DottedWorld(), "boot", time)
  {
    assert DottedWorld().log[0] == "os.boot";
  }

  // ---------------------------------------------------------------------------------------------------------------
  // Mentioned, but not decoded
  // ---------------------------------------------------------------------------------------------------------------

  /** The newest line is no JSON. */
  const GARBLED_LOG := ["e5", "e7", "e?"]

  lemma GarbledLines()
    ensures Relevant(LETTERS, GARBLED_LOG, Some(["e"])) == ["e?", "e7", "e5"]
    ensures !Decodes(LETTERS, "e?") && Decodes(LETTERS, "e7")
    ensures WellFormed(LETTERS, ["e?", "e7", "e5"])
  {
    assert Reverse(GARBLED_LOG) == ["e?", "e7", "e5"];
    GrepThree(LETTERS, "e", "e?", "e7", "e5");
    assert LETTERS.parse("e?") == Garbled;
    assert LETTERS.parse("e7") == Record(EventOf("e7")) && LETTERS.parse("e5") == Record(EventOf("e5"));
  }

  /** The limited history, the last event and the count disagree with the full history. */
  lemma GarbledLineMisleads()
    ensures var full := AllEventHistory(LETTERS, Some(GARBLED_LOG), Some(["e"]), None, None).events;
            && full.Success?
            && LimitedEventHistory(LETTERS, Some(GARBLED_LOG), Some(["e"]), 1, None).events
               != Success(Take(1, full.value))
            && LastEvent(LETTERS, Some(GARBLED_LOG), Some("e"), None).event != FirstOf(full)
            && EventHistoryCount(LETTERS, Some(GARBLED_LOG), "e", None).0 != |full.value|
  {
    GarbledLines();
    var lines := Relevant(LETTERS, GARBLED_LOG, Some(["e"]));
    assert !Decodes(LETTERS, lines[0]) && Decodes(LETTERS, lines[1]);
    assert "e" in ["e"];
    LimitedIsPrefix(LETTERS, GARBLED_LOG, Some(["e"]), 1);
    LastIsHead(LETTERS, GARBLED_LOG, Some("e"));
    CountIsLength(LETTERS, GARBLED_LOG, "e");
    assert GARBLED_LOG[2] == "e?" && LETTERS.mentions("e", "e?");
  }
}
