/** The console application's objects, proved against the functions of TextBuffer and ConsoleBatches. */
module Console {
  import opened Common
  import opened TextBuffer
  import opened ConsoleBatches

  class TextArea {
    const appendable: bool
    var document: Document

    /** A new area is empty. */
    constructor (appendable: bool)
      ensures View() == Window(appendable, Document("", 0))
    {
      this.appendable := appendable;
      document := Document("", 0);
    }

    function View(): Window
      reads this
    {
      Window(appendable, document)
    }

    method TruncateText()
      requires document.Valid()
      modifies this`document
      ensures document == Truncate(MAX_TEXT_AREA_LINES, old(document))
    {
      var lines := Lines(document.text);
      if |lines| > MAX_TEXT_AREA_LINES {
        var drop := |lines| - MAX_TEXT_AREA_LINES;
        var newText := Join(lines[drop..]);
        var cursorOffset := TotalLength(lines[..drop]) + drop;
        var newCursor;
        if document.cursor >= cursorOffset {
          newCursor := document.cursor - cursorOffset;
        } else {
          TruncateInRange(MAX_TEXT_AREA_LINES, document);
          newCursor := document.cursor + document.CursorDown(drop - document.Row()) - cursorOffset;
        }
        document := Document(newText, newCursor);
      }
    }

    method AppendText(more: string)
      requires document.Valid()
      modifies this`document
      ensures document == TextBuffer.AppendText(MAX_TEXT_AREA_LINES, old(document), more)
    {
      var newText := document.text + more;
      var newCursor;
      if !document.OnLastLine() {
        newCursor := document.cursor;
      } else {
        newCursor := |newText|;
      }
      document := Document(newText, newCursor);
      TruncateText();
    }
  }

  class ConsoleApp {
    const routing: Routing
    const areas: map<int, TextArea>

    /** The windows that the configuration lists, each with an area of its own. */
    constructor (routing: Routing, areas: map<int, TextArea>)
      requires forall id | id in areas :: areas[id].document.Valid()
      requires forall i, j | i in areas && j in areas && i != j :: areas[i] != areas[j]
      ensures Valid() && this.routing == routing && this.areas == areas
    {
      this.routing := routing;
      this.areas := areas;
    }

    ghost predicate Valid()
      reads this, areas.Values
    {
      && (forall i, j | i in areas && j in areas && i != j :: areas[i] != areas[j])
      && (forall id | id in areas :: areas[id].document.Valid())
    }

    ghost function View(): Screen
      reads this, areas.Values
    {
      map id | id in areas :: areas[id].View()
    }

    /** _add_text_to_window: text for a window that does not exist is dropped. */
    method AddTextToWindow(text: string, id: int)
      requires Valid()
      modifies areas.Values
      ensures Valid()
      ensures View() == if id in old(View()) then old(View())[id := Added(old(View())[id], text)] else old(View())
    {
      if id !in areas {
        return;
      }
      var area := areas[id];
      if area.appendable {
        area.AppendText(text);
      } else {
        var newText := area.document.text + text;
        area.document := Document(newText, |newText|);
      }
      assert area.View() == Added(old(area.View()), text);
      assert forall other | other in areas && other != id :: areas[other].View() == old(areas[other].View());
    }

    method TransformLine(line: string) returns (r: string)
      ensures r == Transformed(routing.transforms, line) && IsTransformed(routing.transforms, line, r)
    {
      TransformedSteps(routing.transforms, line);
      r := line;
      var i := 0;
      while i < |routing.transforms|
        invariant 0 <= i <= |routing.transforms|
        invariant Transformed(routing.transforms[i..], r) == Transformed(routing.transforms, line)
      {
        r := routing.transforms[i](r);
        i := i + 1;
      }
    }

    method TransformLines(lines: seq<string>) returns (r: seq<string>)
      ensures r == TransformAll(routing.transforms, lines)
    {
      r := [];
      var i := 0;
      assert lines[..0] == [];
      while i < |lines|
        invariant 0 <= i <= |lines|
        invariant r == TransformAll(routing.transforms, lines[..i])
      {
        var line := TransformLine(lines[i]);
        assert lines[..i + 1] == lines[..i] + [lines[i]];
        TransformAppend(routing.transforms, lines[..i], [lines[i]]);
        assert TransformAll(routing.transforms, [lines[i]]) == [line];
        r := r + [line];
        i := i + 1;
      }
      assert lines[..i] == lines;
    }

    /** The first loop of _process_device_logs. */
    method SortIntoWindows(lines: seq<string>) returns (windowToLines: map<int, seq<string>>)
      ensures forall id :: Routed(routing.windowOf, id, lines) == if id in windowToLines then windowToLines[id] else []
      ensures forall id | id in windowToLines :: windowToLines[id] != []
    {
      windowToLines := map[];
      var i := 0;
      assert lines[..0] == [];
      while i < |lines|
        invariant 0 <= i <= |lines|
        invariant forall id ::
          Routed(routing.windowOf, id, lines[..i]) == if id in windowToLines then windowToLines[id] else []
        invariant forall id | id in windowToLines :: windowToLines[id] != []
      {
        var id := routing.windowOf(lines[i]);
        RoutedOneMore(routing.windowOf, lines, i);
        if id !in windowToLines {
          windowToLines := windowToLines[id := []];
        }
        windowToLines := windowToLines[id := windowToLines[id] + [lines[i]]];
        i := i + 1;
      }
      assert lines[..i] == lines;
    }

    /** The body of the second loop of _process_device_logs. */
    method ShowInWindow(lines: seq<string>, id: int)
      requires Valid()
      modifies areas.Values
      ensures Valid()
      ensures View() == if id in old(View())
                        then old(View())[id := Added(old(View())[id], Concat(TransformAll(routing.transforms, lines)))]
                        else old(View())
    {
      var transformedLines := TransformLines(lines);
      AddTextToWindow(Concat(transformedLines), id);
    }

    /** _process_device_logs; the second loop may take the windows in any order. */
    method ProcessDeviceLogs(lines: seq<string>)
      requires Valid()
      modifies areas.Values
      ensures Valid()
      ensures View() == ShowBatch(routing, old(View()), lines)
    {
      var windowToLines := SortIntoWindows(lines);
      var todo := windowToLines.Keys;
      ghost var before := View();
      assert forall id | id !in todo :: Routed(routing.windowOf, id, lines) == [];
      NothingShown(routing, before, lines, todo);
      while todo != {}
        invariant Valid() && todo <= windowToLines.Keys
        invariant View() == PartlyShown(routing, before, lines, todo)
        decreases |todo|
      {
        HasElement(todo);
        var id :| id in todo;
        ShowInWindow(windowToLines[id], id);
        OneMoreShown(routing, before, lines, todo, id);
        todo := todo - {id};
      }
    }
  }

  /** The screen in the middle of a batch, with some windows still to be done. */
  ghost function PartlyShown(r: Routing, screen: Screen, lines: seq<string>, todo: set<int>): Screen
    requires ValidScreen(screen)
  {
    map id | id in screen :: if id in todo then screen[id] else AddedBatch(screen[id], ForWindow(r, id, lines))
  }

  lemma NothingShown(r: Routing, screen: Screen, lines: seq<string>, todo: set<int>)
    requires ValidScreen(screen)
    requires forall id | id !in todo :: Routed(r.windowOf, id, lines) == []
    ensures PartlyShown(r, screen, lines, todo) == screen
    ensures PartlyShown(r, screen, lines, {}) == ShowBatch(r, screen, lines)
  {
  }

  lemma OneMoreShown(r: Routing, screen: Screen, lines: seq<string>, todo: set<int>, id: int)
    requires ValidScreen(screen) && id in todo && Routed(r.windowOf, id, lines) != []
    ensures var partly := PartlyShown(r, screen, lines, todo); var pieces := ForWindow(r, id, lines);
      PartlyShown(r, screen, lines, todo - {id})
      == if id in screen then partly[id := Added(screen[id], Concat(pieces))] else partly
  {
  }

  lemma HasElement(s: set<int>)
    requires s != {}
    ensures exists x :: x in s
  {
    assert (forall x :: x !in s) ==> s == {};
  }

  lemma RoutedOneMore(windowOf: string -> int, lines: seq<string>, i: nat)
    requires i < |lines|
    ensures forall id :: Routed(windowOf, id, lines[..i + 1])
                      == Routed(windowOf, id, lines[..i]) + if windowOf(lines[i]) == id then [lines[i]] else []
  {
    forall id
      ensures Routed(windowOf, id, lines[..i + 1])
           == Routed(windowOf, id, lines[..i]) + if windowOf(lines[i]) == id then [lines[i]] else []
    {
      assert lines[..i + 1] == lines[..i] + [lines[i]];
      RoutedAppend(windowOf, id, lines[..i], [lines[i]]);
      assert [lines[i]][1..] == [] && Routed(windowOf, id, []) == [];
    }
  }
}
