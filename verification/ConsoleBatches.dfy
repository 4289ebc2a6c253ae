/** The console's windows, and the log lines that reach them in batches. */
module ConsoleBatches {
  import opened Common
  import opened TextBuffer
  import opened TextPieces

  /** A window's text area: the kind that drops old lines, or a plain one. */
  datatype Window = Window(appendable: bool, doc: Document)

  type Screen = map<int, Window>

  /** Which window a line is for, and what is substituted in it on the way there. */
  datatype Routing = Routing(windowOf: string -> int, transforms: seq<string -> string>)

  datatype Event = Batch(lines: seq<string>) | CursorMoved(window: int, to: nat)

  predicate ValidScreen(screen: Screen) {
    forall id | id in screen :: screen[id].doc.Valid()
  }

  // ---------------------------------------------------------------------------------------------------------------
  // What reaches a window
  // ---------------------------------------------------------------------------------------------------------------

  function Transformed(transforms: seq<string -> string>, line: string): string {
    if transforms == [] then line else Transformed(transforms[1..], transforms[0](line))
  }

  function TransformAll(transforms: seq<string -> string>, lines: seq<string>): (r: seq<string>)
    ensures |r| == |lines|
  {
    if lines == [] then [] else [Transformed(transforms, lines[0])] + TransformAll(transforms, lines[1..])
  }

  function Routed(windowOf: string -> int, id: int, lines: seq<string>): seq<string> {
    if lines == [] then []
    else if windowOf(lines[0]) == id then [lines[0]] + Routed(windowOf, id, lines[1..])
    else Routed(windowOf, id, lines[1..])
  }

  function ForWindow(r: Routing, id: int, lines: seq<string>): seq<string> {
    TransformAll(r.transforms, Routed(r.windowOf, id, lines))
  }

  /** The line and what each substitution has made of it. */
  predicate AreSteps(transforms: seq<string -> string>, line: string, result: string, steps: seq<string>) {
    && |steps| == |transforms| + 1 && steps[0] == line && steps[|transforms|] == result
    && forall i | 0 <= i < |transforms| :: steps[i + 1] == transforms[i](steps[i])
  }

  ghost predicate IsTransformed(transforms: seq<string -> string>, line: string, result: string) {
    exists steps :: AreSteps(transforms, line, result, steps)
  }

  lemma {:induction false} TransformedSteps(transforms: seq<string -> string>, line: string)
    ensures IsTransformed(transforms, line, Transformed(transforms, line))
  {
    if transforms == [] {
      assert AreSteps(transforms, line, line, [line]);
    } else {
      TransformedSteps(transforms[1..], transforms[0](line));
      var result := Transformed(transforms, line);
      var rest :| AreSteps(transforms[1..], transforms[0](line), result, rest);
      var steps := [line] + rest;
      forall i | 0 <= i < |transforms| ensures steps[i + 1] == transforms[i](steps[i]) {
        if i > 0 { assert transforms[1..][i - 1] == transforms[i] && steps[i] == rest[i - 1]; }
      }
      assert AreSteps(transforms, line, result, steps);
    }
  }

  /** A window's lines are those that are for it, in their order, each transformed. */
  ghost predicate AreForWindow(r: Routing, id: int, lines: seq<string>, shown: seq<string>, at: seq<nat>) {
    && |at| == |shown| && Increasing(at)
    && (forall k | 0 <= k < |at| ::
          && at[k] < |lines| && r.windowOf(lines[at[k]]) == id
          && IsTransformed(r.transforms, lines[at[k]], shown[k]))
    && forall i {:trigger i in at} | 0 <= i < |lines| && r.windowOf(lines[i]) == id :: i in at
  }

  lemma ForWindowMeans(r: Routing, id: int, lines: seq<string>) returns (at: seq<nat>)
    ensures AreForWindow(r, id, lines, ForWindow(r, id, lines), at)
  {
    at := FilterPicks((line: string) => r.windowOf(line) == id, lines);
    RoutedIsFilter(r.windowOf, id, lines);
    var mine := Routed(r.windowOf, id, lines);
    forall k | 0 <= k < |at| ensures IsTransformed(r.transforms, lines[at[k]], ForWindow(r, id, lines)[k]) {
      TransformedAt(r.transforms, mine, k);
      TransformedSteps(r.transforms, mine[k]);
    }
  }

  lemma {:induction false} RoutedIsFilter(windowOf: string -> int, id: int, lines: seq<string>)
    ensures Routed(windowOf, id, lines) == Filter((line: string) => windowOf(line) == id, lines)
  {
    if lines != [] { RoutedIsFilter(windowOf, id, lines[1..]); }
  }

  lemma {:induction false} TransformedAt(transforms: seq<string -> string>, lines: seq<string>, k: nat)
    requires k < |lines|
    ensures TransformAll(transforms, lines)[k] == Transformed(transforms, lines[k])
  {
    if k > 0 { TransformedAt(transforms, lines[1..], k - 1); }
  }

  lemma {:induction false} RoutedAppend(windowOf: string -> int, id: int, a: seq<string>, b: seq<string>)
    ensures Routed(windowOf, id, a + b) == Routed(windowOf, id, a) + Routed(windowOf, id, b)
  {
    if a == [] {
      assert a + b == b;
    } else {
      RoutedAppend(windowOf, id, a[1..], b);
      HeadOfBoth(a, b);
    }
  }

  lemma {:induction false} TransformAppend(transforms: seq<string -> string>, a: seq<string>, b: seq<string>)
    ensures TransformAll(transforms, a + b) == TransformAll(transforms, a) + TransformAll(transforms, b)
  {
    if a == [] {
      assert a + b == b;
    } else {
      TransformAppend(transforms, a[1..], b);
      HeadOfBoth(a, b);
      Regroup([Transformed(transforms, a[0])], TransformAll(transforms, a[1..]), TransformAll(transforms, b));
    }
  }

  lemma ForWindowAppend(r: Routing, id: int, a: seq<string>, b: seq<string>)
    ensures ForWindow(r, id, a + b) == ForWindow(r, id, a) + ForWindow(r, id, b)
  {
    RoutedAppend(r.windowOf, id, a, b);
    TransformAppend(r.transforms, Routed(r.windowOf, id, a), Routed(r.windowOf, id, b));
  }

  // ---------------------------------------------------------------------------------------------------------------
  // Showing text
  // ---------------------------------------------------------------------------------------------------------------

  /** _add_text_to_window, for a window that exists. */
  function Added(w: Window, text: string): (r: Window)
    requires w.doc.Valid()
    ensures r.doc.Valid()
  {
    if w.appendable then w.(doc := AppendText(MAX_TEXT_AREA_LINES, w.doc, text))
    else w.(doc := Document(w.doc.text + text, |w.doc.text + text|))
  }

  function AddedAll(w: Window, pieces: seq<string>): (r: Window)
    requires w.doc.Valid()
    ensures r.doc.Valid()
    decreases |pieces|
  {
    if pieces == [] then w else AddedAll(Added(w, pieces[0]), pieces[1..])
  }

  /** The simple form: each line goes to its window by itself, when it comes. */
  function ShowLine(r: Routing, screen: Screen, line: string): (s: Screen)
    requires ValidScreen(screen)
    ensures ValidScreen(s)
  {
    var id := r.windowOf(line);
    if id in screen then screen[id := Added(screen[id], Transformed(r.transforms, line))] else screen
  }

  function ShowLines(r: Routing, screen: Screen, lines: seq<string>): (s: Screen)
    requires ValidScreen(screen)
    ensures ValidScreen(s)
    decreases |lines|
  {
    if lines == [] then screen else ShowLines(r, ShowLine(r, screen, lines[0]), lines[1..])
  }

  /** A window's part of a batch is added in one piece, unless there is none. */
  function AddedBatch(w: Window, pieces: seq<string>): (r: Window)
    requires w.doc.Valid()
    ensures r.doc.Valid()
  {
    if pieces == [] then w else Added(w, Concat(pieces))
  }

  /** The fast form, _process_device_logs. */
  function ShowBatch(r: Routing, screen: Screen, lines: seq<string>): (s: Screen)
    requires ValidScreen(screen)
    ensures ValidScreen(s)
  {
    map id | id in screen :: AddedBatch(screen[id], ForWindow(r, id, lines))
  }

  /** The user moves the cursor to somewhere in the text. */
  function MoveCursor(screen: Screen, id: int, to: nat): (s: Screen)
    requires ValidScreen(screen)
    ensures ValidScreen(s)
  {
    if id in screen && to <= |screen[id].doc.text|
    then screen[id := screen[id].(doc := Document(screen[id].doc.text, to))]
    else screen
  }

  function RunEvents(r: Routing, screen: Screen, events: seq<Event>): (s: Screen)
    requires ValidScreen(screen)
    ensures ValidScreen(s)
    decreases |events|
  {
    if events == [] then screen
    else
      var next := match events[0]
        case Batch(lines) => ShowBatch(r, screen, lines)
        case CursorMoved(id, to) => MoveCursor(screen, id, to);
      RunEvents(r, next, events[1..])
  }

  /** All lines, in the order they came in. */
  function Stream(events: seq<Event>): seq<string> {
    if events == [] then []
    else (if events[0].Batch? then events[0].lines else []) + Stream(events[1..])
  }

  // ---------------------------------------------------------------------------------------------------------------
  // The texts do not depend on the batches, nor on where the user has the cursors
  // ---------------------------------------------------------------------------------------------------------------

  predicate SameText(a: Window, b: Window) {
    a.appendable == b.appendable && a.doc.text == b.doc.text
  }

  predicate SameTexts(a: Screen, b: Screen) {
    a.Keys == b.Keys && forall id | id in a :: SameText(a[id], b[id])
  }

  lemma {:induction false} AddedAllText(w: Window, pieces: seq<string>)
    requires w.doc.Valid() && pieces != []
    ensures SameText(AddedAll(w, pieces), Added(w, Concat(pieces)))
    ensures AddedAll(w, pieces).doc.text ==
            if w.appendable then KeepLast(MAX_TEXT_AREA_LINES, w.doc.text + Concat(pieces))
            else w.doc.text + Concat(pieces)
    ensures !w.appendable ==> AddedAll(w, pieces) == Added(w, Concat(pieces))
    decreases |pieces|
  {
    ConcatHead(w.doc.text, pieces);
    var next := Added(w, pieces[0]);
    if w.appendable {
      AppendedText(MAX_TEXT_AREA_LINES, w.doc, pieces[0]);
      AppendedText(MAX_TEXT_AREA_LINES, w.doc, Concat(pieces));
      if |pieces| > 1 {
        AddedAllText(next, pieces[1..]);
        KeepLastEarly(MAX_TEXT_AREA_LINES, w.doc.text + pieces[0], Concat(pieces[1..]));
      }
    } else if |pieces| > 1 {
      AddedAllText(next, pieces[1..]);
    }
  }

  /** Line by line, a window gets its own transformed lines in order, and nothing else. */
  lemma {:induction false} ShowLinesAt(r: Routing, screen: Screen, lines: seq<string>, id: int)
    requires ValidScreen(screen) && id in screen
    ensures id in ShowLines(r, screen, lines)
    ensures ShowLines(r, screen, lines)[id] == AddedAll(screen[id], ForWindow(r, id, lines))
    decreases |lines|
  {
    if lines != [] {
      ShowLinesAt(r, ShowLine(r, screen, lines[0]), lines[1..], id);
      var own := Routed(r.windowOf, id, lines);
      if r.windowOf(lines[0]) == id {
        assert own[1..] == Routed(r.windowOf, id, lines[1..]);
        var pieces := ForWindow(r, id, lines);
        assert pieces[0] == Transformed(r.transforms, lines[0]) && pieces[1..] == ForWindow(r, id, lines[1..]);
      }
    }
  }

  lemma {:induction false} ShowLinesKeys(r: Routing, screen: Screen, lines: seq<string>)
    requires ValidScreen(screen)
    ensures ShowLines(r, screen, lines).Keys == screen.Keys
    decreases |lines|
  {
    if lines != [] { ShowLinesKeys(r, ShowLine(r, screen, lines[0]), lines[1..]); }
  }

  lemma {:induction false} ShowLinesAppend(r: Routing, screen: Screen, a: seq<string>, b: seq<string>)
    requires ValidScreen(screen)
    ensures ShowLines(r, screen, a + b) == ShowLines(r, ShowLines(r, screen, a), b)
    decreases |a|
  {
    if a == [] {
      assert a + b == b;
    } else {
      ShowLinesAppend(r, ShowLine(r, screen, a[0]), a[1..], b);
      HeadOfBoth(a, b);
    }
  }

  lemma BatchText(w: Window, v: Window, pieces: seq<string>)
    requires w.doc.Valid() && v.doc.Valid() && SameText(w, v)
    ensures SameText(AddedBatch(w, pieces), AddedAll(v, pieces))
  {
    if pieces != [] {
      AddedAllText(v, pieces);
      AddedAllText(w, pieces);
    }
  }

  lemma BatchTexts(r: Routing, a: Screen, b: Screen, lines: seq<string>)
    requires ValidScreen(a) && ValidScreen(b) && SameTexts(a, b)
    ensures SameTexts(ShowBatch(r, a, lines), ShowLines(r, b, lines))
  {
    ShowLinesKeys(r, b, lines);
    forall id | id in a
      ensures SameText(ShowBatch(r, a, lines)[id], ShowLines(r, b, lines)[id])
    {
      ShowLinesAt(r, b, lines, id);
      BatchText(a[id], b[id], ForWindow(r, id, lines));
    }
  }

  /**
   * Whatever the batches, and wherever the user puts the cursors in between, every window ends up with the text that
   * it would have had if each line had been added by itself.
   */
  lemma {:induction false} BatchesShowTheStream(r: Routing, a: Screen, b: Screen, events: seq<Event>)
    requires ValidScreen(a) && ValidScreen(b) && SameTexts(a, b)
    ensures SameTexts(RunEvents(r, a, events), ShowLines(r, b, Stream(events)))
    decreases |events|
  {
    if events != [] {
      match events[0]
      case Batch(lines) =>
        BatchTexts(r, a, b, lines);
        BatchesShowTheStream(r, ShowBatch(r, a, lines), ShowLines(r, b, lines), events[1..]);
        ShowLinesAppend(r, b, lines, Stream(events[1..]));
      case CursorMoved(id, to) =>
        BatchesShowTheStream(r, MoveCursor(a, id, to), b, events[1..]);
        assert Stream(events) == Stream(events[1..]);
    }
  }

  /** And that text is the last lines of everything that was ever for the window. */
  lemma WindowShowsLastLines(r: Routing, screen: Screen, events: seq<Event>, id: int)
    requires ValidScreen(screen) && id in screen
    requires screen[id].appendable && ForWindow(r, id, Stream(events)) != []
    ensures id in RunEvents(r, screen, events)
    ensures RunEvents(r, screen, events)[id].doc.text
         == KeepLast(MAX_TEXT_AREA_LINES, screen[id].doc.text + Concat(ForWindow(r, id, Stream(events))))
  {
    BatchesShowTheStream(r, screen, screen, events);
    ShowLinesAt(r, screen, Stream(events), id);
    AddedAllText(screen[id], ForWindow(r, id, Stream(events)));
  }

  // ---------------------------------------------------------------------------------------------------------------
  // The cursors, when the user leaves them alone
  // ---------------------------------------------------------------------------------------------------------------

  lemma {:induction false} AddedAllIsAppendAll(w: Window, pieces: seq<string>)
    requires w.doc.Valid()
    ensures w.appendable ==> AddedAll(w, pieces) == w.(doc := AppendAll(MAX_TEXT_AREA_LINES, w.doc, pieces))
    decreases |pieces|
  {
    if pieces != [] { AddedAllIsAppendAll(Added(w, pieces[0]), pieces[1..]); }
  }

  /** What a window gets at each batch that has something for it. */
  function BatchPieces(r: Routing, id: int, events: seq<Event>): seq<string> {
    if events == [] then []
    else
      var own := if events[0].Batch? then ForWindow(r, id, events[0].lines) else [];
      (if own == [] then [] else [Concat(own)]) + BatchPieces(r, id, events[1..])
  }

  /** The batches bring the same text as the lines. */
  lemma {:induction false} BatchesAreTheStream(r: Routing, id: int, events: seq<Event>)
    ensures Concat(BatchPieces(r, id, events)) == Concat(ForWindow(r, id, Stream(events)))
    ensures BatchPieces(r, id, events) == [] <==> ForWindow(r, id, Stream(events)) == []
  {
    if events != [] {
      var lines := if events[0].Batch? then events[0].lines else [];
      var own, rest := ForWindow(r, id, lines), ForWindow(r, id, Stream(events[1..]));
      BatchesAreTheStream(r, id, events[1..]);
      ForWindowAppend(r, id, lines, Stream(events[1..]));
      ConcatAppend(own, rest);
      var pieces := BatchPieces(r, id, events[1..]);
      if own == [] {
        assert [] + rest == rest && [] + pieces == pieces;
      } else {
        OneConcat(Concat(own));
        ConcatAppend([Concat(own)], pieces);
      }
    }
  }

  lemma {:induction false} RunEventsAt(r: Routing, screen: Screen, events: seq<Event>, id: int)
    requires ValidScreen(screen) && id in screen && forall e | e in events :: e.Batch?
    ensures id in RunEvents(r, screen, events)
    ensures RunEvents(r, screen, events)[id] == AddedAll(screen[id], BatchPieces(r, id, events))
    decreases |events|
  {
    if events != [] {
      assert events[0] in events;
      var own := ForWindow(r, id, events[0].lines);
      RunEventsAt(r, ShowBatch(r, screen, events[0].lines), events[1..], id);
      var pieces := BatchPieces(r, id, events[1..]);
      if own == [] {
        assert [] + pieces == pieces;
      } else {
        HeadOfBoth([Concat(own)], pieces);
      }
    }
  }

  /** Two ways of adding one text leave the same window exactly when the area is a plain one, the cursor follows the
      text, or the columns agree. */
  lemma WindowsAgreeExactlyWhen(w: Window, pieces: seq<string>, other: seq<string>)
    requires w.doc.Valid() && Concat(pieces) == Concat(other) && (pieces == [] <==> other == [])
    ensures AddedAll(w, pieces) == AddedAll(w, other)
            <==> || !w.appendable || w.doc.OnLastLine()
                 || ColumnAfter(MAX_TEXT_AREA_LINES, w.doc, pieces) == ColumnAfter(MAX_TEXT_AREA_LINES, w.doc, other)
  {
    if pieces != [] {
      if w.appendable {
        AddedAllIsAppendAll(w, pieces);
        AddedAllIsAppendAll(w, other);
        SplittingsAgreeExactlyWhen(MAX_TEXT_AREA_LINES, w.doc, pieces, other);
      } else {
        AddedAllText(w, pieces);
        AddedAllText(w, other);
      }
    }
  }

  /** Batches leave a window in every respect as single lines do exactly when it is a plain one, its cursor follows the
      text, or the lines move the cursor to no column before the one to which the batches move it. */
  lemma BatchesKeepCursorExactlyWhen(r: Routing, screen: Screen, events: seq<Event>, id: int)
    requires ValidScreen(screen) && id in screen && forall e | e in events :: e.Batch?
    ensures id in RunEvents(r, screen, events) && id in ShowLines(r, screen, Stream(events))
    ensures var w, lines := screen[id], ForWindow(r, id, Stream(events));
            var column := ColumnAfter(MAX_TEXT_AREA_LINES, w.doc, BatchPieces(r, id, events));
            RunEvents(r, screen, events)[id] == ShowLines(r, screen, Stream(events))[id]
            <==> || !w.appendable || w.doc.OnLastLine()
                 || forall i | 1 <= i <= |lines| :: LongEnough(MAX_TEXT_AREA_LINES, w.doc, lines, i, column)
  {
    var w, lines := screen[id], ForWindow(r, id, Stream(events));
    var batches := BatchPieces(r, id, events);
    RunEventsAt(r, screen, events, id);
    ShowLinesAt(r, screen, Stream(events), id);
    BatchesAreTheStream(r, id, events);
    WindowsAgreeExactlyWhen(w, batches, lines);
    ColumnIsLeast(MAX_TEXT_AREA_LINES, w.doc, lines, ColumnAfter(MAX_TEXT_AREA_LINES, w.doc, batches));
    ColumnIsLeast(MAX_TEXT_AREA_LINES, w.doc, batches, ColumnAfter(MAX_TEXT_AREA_LINES, w.doc, batches));
    LinesMoveFurther(r, id, events, w.doc);
  }

  /** One batch: exactly when every line to which a log line but the last moves the cursor has its final column. */
  lemma BatchKeepsCursorExactlyWhen(r: Routing, screen: Screen, lines: seq<string>, id: int)
    requires ValidScreen(screen) && id in screen
    ensures id in ShowLines(r, screen, lines)
    ensures var w, own := screen[id], ForWindow(r, id, lines);
            var t := w.doc.text + Concat(own);
            var column := Min(w.doc.Col(), FirstKept(MAX_TEXT_AREA_LINES, t));
            ShowBatch(r, screen, lines)[id] == ShowLines(r, screen, lines)[id]
            <==> || !w.appendable || w.doc.OnLastLine()
                 || forall i | 1 <= i < |own| :: LongEnough(MAX_TEXT_AREA_LINES, w.doc, own, i, column)
  {
    var w, own := screen[id], ForWindow(r, id, lines);
    ShowLinesAt(r, screen, lines, id);
    if own != [] {
      AddedAllIsAppendAll(w, own);
      AddedAllText(w, own);
      PiecesAgreeExactlyWhen(MAX_TEXT_AREA_LINES, w.doc, own);
    }
  }

  /** A batch ends where one of its lines ends. */
  lemma {:induction false} BatchEnds(r: Routing, id: int, events: seq<Event>, i: nat) returns (j: nat)
    requires 1 <= i <= |BatchPieces(r, id, events)|
    ensures 1 <= j <= |ForWindow(r, id, Stream(events))|
    ensures Concat(BatchPieces(r, id, events)[..i]) == Concat(ForWindow(r, id, Stream(events))[..j])
  {
    var lines := if events[0].Batch? then events[0].lines else [];
    var own, rest := ForWindow(r, id, lines), ForWindow(r, id, Stream(events[1..]));
    var pieces := BatchPieces(r, id, events[1..]);
    ForWindowAppend(r, id, lines, Stream(events[1..]));
    if own == [] {
      j := BatchEnds(r, id, events[1..], i);
      assert [] + pieces == pieces && [] + rest == rest;
    } else if i == 1 {
      j := |own|;
      OneConcat(Concat(own));
      assert ([Concat(own)] + pieces)[..1] == [Concat(own)] && (own + rest)[..j] == own;
    } else {
      var k := BatchEnds(r, id, events[1..], i - 1);
      j := |own| + k;
      assert ([Concat(own)] + pieces)[..i] == [Concat(own)] + pieces[..i - 1];
      assert (own + rest)[..j] == own + rest[..k];
      OneConcat(Concat(own));
      ConcatAppend([Concat(own)], pieces[..i - 1]);
      ConcatAppend(own, rest[..k]);
    }
  }

  /** Single lines move the cursor at least as far to the left as batches do. */
  lemma LinesMoveFurther(r: Routing, id: int, events: seq<Event>, doc: Document)
    requires doc.Valid()
    ensures ColumnAfter(MAX_TEXT_AREA_LINES, doc, ForWindow(r, id, Stream(events)))
         <= ColumnAfter(MAX_TEXT_AREA_LINES, doc, BatchPieces(r, id, events))
  {
    var lines, batches := ForWindow(r, id, Stream(events)), BatchPieces(r, id, events);
    var x := ColumnAfter(MAX_TEXT_AREA_LINES, doc, lines);
    ColumnIsLeast(MAX_TEXT_AREA_LINES, doc, lines, x);
    forall i | 1 <= i <= |batches| ensures LongEnough(MAX_TEXT_AREA_LINES, doc, batches, i, x) {
      var j := BatchEnds(r, id, events, i);
      assert TextAfter(doc, batches, i) == TextAfter(doc, lines, j);
      assert LongEnough(MAX_TEXT_AREA_LINES, doc, lines, j, x);
    }
    ColumnIsLeast(MAX_TEXT_AREA_LINES, doc, batches, x);
  }

  /** Two empty log lines in one batch and one by one, in a full window with the cursor at the end of its first line. */
  lemma BatchMovesCursor()
    ensures var r := Routing((line: string) => 0, []);
            var screen := map[0 := Window(true, Document(Join(FullArea(MAX_TEXT_AREA_LINES)), 1))];
            && ValidScreen(screen)
            && 0 in ShowLines(r, screen, ["\n", "\n"])
            && ShowBatch(r, screen, ["\n", "\n"])[0] != ShowLines(r, screen, ["\n", "\n"])[0]
  {
    var r := Routing((line: string) => 0, []);
    var doc := Document(Join(FullArea(MAX_TEXT_AREA_LINES)), 1);
    ShortLineLosesColumn(MAX_TEXT_AREA_LINES);
    TwoNewlines(doc);
    AllForWindow(r, ["\n", "\n"]);
    ShowLinesAt(r, map[0 := Window(true, doc)], ["\n", "\n"], 0);
    AddedAllIsAppendAll(Window(true, doc), ["\n", "\n"]);
  }

  lemma {:induction false} AllForWindow(r: Routing, lines: seq<string>)
    requires r.transforms == [] && forall line :: r.windowOf(line) == 0
    ensures ForWindow(r, 0, lines) == lines
  {
    if lines != [] { AllForWindow(r, lines[1..]); }
  }
}
