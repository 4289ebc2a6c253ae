/** get_unmatched_events on a log file: the queries and the matching together. */
module RebootMatching {
  import opened Common
  import opened UnmatchedEvents
  import opened EventHistory
  import opened HistoryAnswers
  import opened OptimalPairing
  import opened SampleLogs

  /** The complete history of one label. */
  function History(t: Tools, file: seq<string>, eventLabel: string): Events {
    GetEventHistory(t, {eventLabel}, Some(file), Some([eventLabel]), None, None, None).events
  }

  /** A file whose events were appended in the order of their times, and whose causes differ in their times: what is
      returned leaves out a maximum matching, and nothing in it could be matched. */
  lemma UnmatchedInLog(t: Tools, file: seq<string>, cause: string, effect: string)
    requires cause != "" && effect != "" && InLogOrder(t, file)
    requires WellFormed(t, Relevant(t, file, Some([cause]))) && WellFormed(t, Relevant(t, file, Some([effect])))
    requires var causes := History(t, file, cause); causes.Success? ==> SameTimeSameEvent(causes.value)
    ensures History(t, file, cause).Success? && History(t, file, effect).Success?
    ensures var causes, effects := History(t, file, cause).value, History(t, file, effect).value;
            var r := Unmatched(ParserResult(false, causes), ParserResult(false, effects));
            && |causes| - |r.0| == |effects| - |r.1|
            && (exists p :: IsPairing(p, Times(causes), Times(effects)) && |p| == |causes| - |r.0|)
            && (forall p | IsPairing(p, Times(causes), Times(effects)) :: |p| <= |causes| - |r.0|)
            && forall c, e | c in r.0 && e in r.1 :: c.systemTimestamp >= e.systemTimestamp
  {
    HistoryIs(t, file, cause);
    HistoryIs(t, file, effect);
    UnmatchedIsOptimal(History(t, file, cause).value, History(t, file, effect).value);
  }

  lemma HistoryIs(t: Tools, file: seq<string>, eventLabel: string)
    requires eventLabel != "" && InLogOrder(t, file) && WellFormed(t, Relevant(t, file, Some([eventLabel])))
    ensures History(t, file, eventLabel).Success? && Descending(Times(History(t, file, eventLabel).value))
  {
    assert eventLabel in [eventLabel];
    HistoryIsNewestFirst(t, file, Some([eventLabel]));
  }

  // ---------------------------------------------------------------------------------------------------------------
  // A log that is not in order
  // ---------------------------------------------------------------------------------------------------------------

  /** The clock was set back after the effect at 7 and the cause at 5. */
  const SET_BACK := ["e7", "c5", "e3"]

  /** The loop stops at the effect at 3, and the cause and both effects are returned although one of the effects is
      later than the cause. */
  lemma OutOfOrderLogLosesAPair()
    ensures !InLogOrder(LETTERS, SET_BACK)
    ensures WellFormed(LETTERS, Relevant(LETTERS, SET_BACK, Some(["c"])))
    ensures WellFormed(LETTERS, Relevant(LETTERS, SET_BACK, Some(["e"])))
    ensures History(LETTERS, SET_BACK, "c").Success? && History(LETTERS, SET_BACK, "e").Success?
    ensures var causes, effects := History(LETTERS, SET_BACK, "c").value, History(LETTERS, SET_BACK, "e").value;
            var r := Unmatched(ParserResult(false, causes), ParserResult(false, effects));
            && r == (causes, effects)
            && IsPairing(map[1 := 0], Times(causes), Times(effects))
  {
    SetBackIsOutOfOrder();
    CauseHistory();
    EffectHistory();
    NothingPicked(History(LETTERS, SET_BACK, "c").value, History(LETTERS, SET_BACK, "e").value);
  }

  lemma SetBackIsOutOfOrder()
    ensures !InLogOrder(LETTERS, SET_BACK)
  {
    assert SET_BACK[0] == "e7" && SET_BACK[2] == "e3";
    assert TimeOf(LETTERS, SET_BACK[0]) == 7 && TimeOf(LETTERS, SET_BACK[2]) == 3;
  }

  lemma NothingPicked(causes: seq<Event>, effects: seq<Event>)
    requires Times(causes) == [5] && Times(effects) == [3, 7]
    ensures Unmatched(ParserResult(false, causes), ParserResult(false, effects)) == (causes, effects)
    ensures IsPairing(map[1 := 0], Times(causes), Times(effects))
  {
    assert NearestDatetime([5], 3).None?;
    assert Picks([5], [3, 7]) == [];
    assert effects[0..] == effects;
  }

  lemma CauseHistory()
    ensures WellFormed(LETTERS, Relevant(LETTERS, SET_BACK, Some(["c"])))
    ensures History(LETTERS, SET_BACK, "c").Success? && Times(History(LETTERS, SET_BACK, "c").value) == [5]
  {
    LinesOf("c");
    assert LETTERS.parse("c5") == Record(EventOf("c5"));
    DecodeLast(LETTERS, "c5", "c");
  }

  lemma EffectHistory()
    ensures WellFormed(LETTERS, Relevant(LETTERS, SET_BACK, Some(["e"])))
    ensures History(LETTERS, SET_BACK, "e").Success? && Times(History(LETTERS, SET_BACK, "e").value) == [3, 7]
  {
    LinesOf("e");
    assert LETTERS.parse("e3") == Record(EventOf("e3")) && LETTERS.parse("e7") == Record(EventOf("e7"));
    DecodeLast(LETTERS, "e7", "e");
    DecodeOne(LETTERS, "e3", "e", ["e7"]);
    assert ["e3"] + ["e7"] == ["e3", "e7"];
    var first, last := Narrow(Some(["e"]), EventOf("e3")), Narrow(Some(["e"]), EventOf("e7"));
    assert Times([first] + [last]) == [3, 7];
  }

  /** The lines the query of one label decodes, newest first. */
  lemma LinesOf(eventLabel: string)
    requires eventLabel == "c" || eventLabel == "e"
    ensures Relevant(LETTERS, SET_BACK, Some([eventLabel])) == if eventLabel == "c" then ["c5"] else ["e3", "e7"]
    ensures History(LETTERS, SET_BACK, eventLabel)
         == Decode(LETTERS, Relevant(LETTERS, SET_BACK, Some([eventLabel])), Some([eventLabel]), None)
  {
    assert Reverse(SET_BACK) == ["e3", "c5", "e7"];
    GrepThree(LETTERS, eventLabel, "e3", "c5", "e7");
    assert eventLabel in [eventLabel];
    QueriesDecodeOneList(LETTERS, SET_BACK, Some([eventLabel]), None, 0);
  }

  /** A query for at most one event since time 1 of such a log can return more. */
  lemma CountIsExceeded()
    ensures !CountBounds(LETTERS, {"e"}, Some(["e"]), 1, Some(1))
  {
    assert "e" in ["e"] && SameLetter("e", "e7");
    CountBoundsExactlyWhen(LETTERS, {"e"}, Some(["e"]), 1, Some(1));
    assert Wanted(LETTERS, Some(["e"]), 1, "e7");
  }
}
