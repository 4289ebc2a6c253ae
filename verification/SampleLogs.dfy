/** Small logs on which queries go wrong. A line is a letter, which is what a label mentions, and a digit, the time. */
module SampleLogs {
  import opened Common
  import opened UnmatchedEvents
  import opened EventHistory

  predicate SameLetter(eventLabel: string, line: string) {
    eventLabel != "" && line != "" && eventLabel[0] == line[0]
  }

  function EventOf(line: string): Event
    requires |line| == 2
  {
    Event(line[1] as int - '0' as int, line, map[[line[0]] := []])
  }

  function ParseLine(line: string): Line {
    if |line| == 2 && '0' <= line[1] <= '9' then Record(EventOf(line)) else Garbled
  }

  const LETTERS := Tools(SameLetter, ParseLine, [])

  lemma GrepThree(t: Tools, eventLabel: string, a: string, b: string, c: string)
    requires eventLabel != ""
    ensures Grep(t, [eventLabel], [a, b, c])
         == (if t.mentions(eventLabel, a) then [a] else []) + (if t.mentions(eventLabel, b) then [b] else [])
            + (if t.mentions(eventLabel, c) then [c] else [])
  {
    var m := (line: string) => t.mentions(eventLabel, line);
    GrepOne(t, eventLabel, [a, b, c]);
    assert [a, b, c][1..] == [b, c] && [b, c][1..] == [c] && [c][1..] == [];
    assert Filter(m, []) == [];
    assert Filter(m, [c]) == if m(c) then [c] else [];
    assert Filter(m, [b, c]) == (if m(b) then [b] else []) + Filter(m, [c]);
    assert Filter(m, [a, b, c]) == (if m(a) then [a] else []) + Filter(m, [b, c]);
  }

  lemma DecodeOne(t: Tools, line: string, eventLabel: string, rest: seq<string>)
    requires line != "" && t.parse(line).Record? && Decode(t, rest, Some([eventLabel]), None).Success?
    ensures Decode(t, [line] + rest, Some([eventLabel]), None)
         == Success([Narrow(Some([eventLabel]), t.parse(line).event)] + Decode(t, rest, Some([eventLabel]), None).value)
  {
    assert ([line] + rest)[1..] == rest;
  }

  lemma DecodeLast(t: Tools, line: string, eventLabel: string)
    requires line != "" && t.parse(line).Record?
    ensures Decode(t, [line], Some([eventLabel]), None) == Success([Narrow(Some([eventLabel]), t.parse(line).event)])
  {
    assert Decode(t, [], Some([eventLabel]), None) == Success([]);
    DecodeOne(t, line, eventLabel, []);
    var e := Narrow(Some([eventLabel]), t.parse(line).event);
    assert [line] + [] == [line] && [e] + [] == [e];
  }
}
