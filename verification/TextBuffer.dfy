/** The console's bounded text area: a text, a cursor, and at most so many lines. */
module TextBuffer {
  import opened Common

  const MAX_TEXT_AREA_LINES := 100000

  /** prompt_toolkit's Document: the cursor is an offset into the text. */
  datatype Document = Document(text: string, cursor: nat)
  {
    predicate Valid() {
      cursor <= |text|
    }

    /** cursor_position_row and cursor_position_col */
    function Row(): nat
      requires Valid()
    {
      |Lines(text[..cursor])| - 1
    }

    function Col(): nat
      requires Valid()
    {
      var before := Lines(text[..cursor]);
      |before[|before| - 1]|
    }

    predicate OnLastLine()
      requires Valid()
    {
      Row() == |Lines(text)| - 1
    }

    /** get_cursor_down_position: the way to the row `count` further down. */
    function CursorDown(count: int): int
      requires Valid() && count >= 1
    {
      RowColToIndex(text, Row() + count, Col()) - cursor
    }
  }

  // ---------------------------------------------------------------------------------------------------------------
  // Lines and offsets
  // ---------------------------------------------------------------------------------------------------------------

  /** `text.split("\n")` */
  function Lines(t: string): (r: seq<string>)
    ensures 1 <= |r| <= |t| + 1
  {
    if t == "" then [""]
    else
      var rest := Lines(t[1..]);
      if t[0] == '\n' then [""] + rest else [[t[0]] + rest[0]] + rest[1..]
  }

  /** `"\n".join(lines)` */
  function Join(lines: seq<string>): string {
    if lines == [] then ""
    else if |lines| == 1 then lines[0]
    else lines[0] + "\n" + Join(lines[1..])
  }

  /** The total length of the lines, and of one newline after each: the offset where the next line starts. */
  function Extent(lines: seq<string>): nat {
    if lines == [] then 0 else |lines[0]| + 1 + Extent(lines[1..])
  }

  /** `sum(len(line) for line in lines)` */
  function TotalLength(lines: seq<string>): nat {
    if lines == [] then 0 else |lines[0]| + TotalLength(lines[1..])
  }

  lemma {:induction false} ExtentIsSum(lines: seq<string>)
    ensures Extent(lines) == TotalLength(lines) + |lines|
  {
    if lines != [] { ExtentIsSum(lines[1..]); }
  }

  function Min(a: int, b: int): int {
    if a < b then a else b
  }

  /** translate_row_col_to_index, for a row that may lie beyond the last one. */
  function RowColToIndex(t: string, row: nat, col: nat): int {
    var lines := Lines(t);
    var r := if row < |lines| then row else |lines| - 1;
    Min(Extent(lines[..r]) + Min(col, |lines[r]|), |t|)
  }

  lemma {:induction false} JoinLines(t: string)
    ensures Join(Lines(t)) == t
  {
    if t != "" {
      JoinLines(t[1..]);
      var rest := Lines(t[1..]);
      if t[0] == '\n' {
        assert ([""] + rest)[1..] == rest;
        assert t == "\n" + t[1..];
      } else {
        assert ([[t[0]] + rest[0]] + rest[1..])[1..] == rest[1..];
        assert t == [t[0]] + t[1..];
      }
    }
  }

  /** The lines hold no newline; with JoinLines that leaves only one way to split the text. */
  lemma {:induction false} NoNewlineInLines(t: string)
    ensures forall line | line in Lines(t) :: '\n' !in line
  {
    if t != "" {
      NoNewlineInLines(t[1..]);
      assert Lines(t[1..])[0] in Lines(t[1..]);
    }
  }

  lemma Cons<T>(x: T, s: seq<T>, d: nat)
    requires 1 <= d <= |s| + 1
    ensures ([x] + s)[d..] == s[d - 1..] && ([x] + s)[..d] == [x] + s[..d - 1]
  {
  }

  lemma ExtentCons(line: string, lines: seq<string>)
    ensures Extent([line] + lines) == |line| + 1 + Extent(lines)
  {
    assert ([line] + lines)[1..] == lines;
  }

  /** A first character more: the lines from d on, and where they start. */
  lemma LinesTail(t: string, d: nat)
    requires t != "" && 1 <= d <= |Lines(t)|
    ensures var rest, k := Lines(t[1..]), if t[0] == '\n' then d - 1 else d;
      k <= |rest| && Lines(t)[d..] == rest[k..] && Extent(Lines(t)[..d]) == 1 + Extent(rest[..k])
  {
    var rest := Lines(t[1..]);
    if t[0] == '\n' {
      Cons("", rest, d);
      ExtentCons("", rest[..d - 1]);
    } else {
      Cons([t[0]] + rest[0], rest[1..], d);
      ExtentCons([t[0]] + rest[0], rest[1..][..d - 1]);
      Cons(rest[0], rest[1..], d);
      ExtentCons(rest[0], rest[1..][..d - 1]);
      assert rest == [rest[0]] + rest[1..];
    }
  }

  /** Cutting a text at the start of line d leaves exactly the lines from d on, also when more text follows. */
  lemma {:induction false} LinesFrom(t: string, more: string, d: nat)
    requires d < |Lines(t)|
    ensures Extent(Lines(t)[..d]) <= |t|
    ensures d <= |Lines(t + more)|
    ensures Lines(t[Extent(Lines(t)[..d])..] + more) == Lines(t + more)[d..]
  {
    if d > 0 {
      HeadOfBoth(t, more);
      LinesTail(t, d);
      var k := if t[0] == '\n' then d - 1 else d;
      LinesFrom(t[1..], more, k);
      LinesTail(t + more, d);
      assert t[Extent(Lines(t)[..d])..] == t[1..][Extent(Lines(t[1..])[..k])..];
    }
  }

  /** More text means more lines, and does not change the finished ones. */
  lemma {:induction false} LinesGrow(t: string, more: string)
    ensures |Lines(t)| <= |Lines(t + more)|
    ensures forall i | 0 <= i < |Lines(t)| - 1 :: Lines(t + more)[i] == Lines(t)[i]
    ensures |Lines(t)[|Lines(t)| - 1]| <= |Lines(t + more)[|Lines(t)| - 1]|
  {
    if t == "" {
      assert t + more == more;
    } else {
      LinesGrow(t[1..], more);
      HeadOfBoth(t, more);
      var rest, all := Lines(t[1..]), Lines(t + more);
      var k := if t[0] == '\n' then 1 else 0;
      forall i | 0 <= i < |Lines(t)| - 1
        ensures all[i] == Lines(t)[i]
      {
        if i > 0 {
          assert Lines(t[1..] + more)[i - k] == rest[i - k];
        }
      }
    }
  }

  lemma {:induction false} ExtentOfLines(t: string)
    ensures Extent(Lines(t)) == |t| + 1
  {
    if t != "" {
      ExtentOfLines(t[1..]);
      var rest := Lines(t[1..]);
      if t[0] == '\n' {
        assert ([""] + rest)[1..] == rest;
      } else {
        assert ([[t[0]] + rest[0]] + rest[1..])[1..] == rest[1..];
      }
    }
  }

  lemma {:induction false} ExtentAppend(a: seq<string>, b: seq<string>)
    ensures Extent(a + b) == Extent(a) + Extent(b)
  {
    if a == [] {
      assert a + b == b;
    } else {
      ExtentAppend(a[1..], b);
      HeadOfBoth(a, b);
    }
  }

  lemma ExtentGrows(lines: seq<string>, i: nat, j: nat)
    requires i < j <= |lines|
    ensures Extent(lines[..i]) + |lines[i]| + 1 <= Extent(lines[..j])
  {
    assert lines[..j] == lines[..i] + ([lines[i]] + lines[i + 1..j]);
    ExtentAppend(lines[..i], [lines[i]] + lines[i + 1..j]);
  }

  /** A line lies within its text. */
  lemma LineFits(t: string, d: nat)
    requires d < |Lines(t)|
    ensures Extent(Lines(t)[..d]) + |Lines(t)[d]| <= |t|
  {
    ExtentGrows(Lines(t), d, |Lines(t)|);
    assert Lines(t)[..|Lines(t)|] == Lines(t);
    ExtentOfLines(t);
  }

  /** The lines before the cursor's are the text's own lines, and its own line reaches at least up to it. */
  lemma BeforeCursor(doc: Document)
    requires doc.Valid()
    ensures doc.Row() < |Lines(doc.text)| && doc.Col() <= |Lines(doc.text)[doc.Row()]|
    ensures Lines(doc.text[..doc.cursor])[..doc.Row()] == Lines(doc.text)[..doc.Row()]
    ensures doc.cursor == Extent(Lines(doc.text)[..doc.Row()]) + doc.Col()
  {
    var before := doc.text[..doc.cursor];
    assert before + doc.text[doc.cursor..] == doc.text;
    LinesGrow(before, doc.text[doc.cursor..]);
    var row := doc.Row();
    assert Lines(before) == Lines(before)[..row] + [Lines(before)[row]];
    ExtentAppend(Lines(before)[..row], [Lines(before)[row]]);
    assert Extent([Lines(before)[row]]) == doc.Col() + 1 + Extent([]);
    ExtentOfLines(before);
  }

  /** The cursor has passed the start of a line exactly when its row is that line's or a later one. */
  lemma RowAtLeast(doc: Document, d: nat)
    requires doc.Valid() && d < |Lines(doc.text)|
    ensures doc.Row() >= d <==> doc.cursor >= Extent(Lines(doc.text)[..d])
  {
    BeforeCursor(doc);
    if doc.Row() > d {
      ExtentGrows(Lines(doc.text), d, doc.Row());
    } else if doc.Row() < d {
      ExtentGrows(Lines(doc.text), doc.Row(), d);
    }
  }

  // ---------------------------------------------------------------------------------------------------------------
  // Truncation
  // ---------------------------------------------------------------------------------------------------------------

  /** How many lines are too many. */
  function Excess(max: nat, t: string): nat {
    if |Lines(t)| > max then |Lines(t)| - max else 0
  }

  /** Where the first line that stays begins. */
  function Cut(max: nat, t: string): nat {
    Extent(Lines(t)[..Excess(max, t)])
  }

  /** The last `max` lines. */
  function KeepLast(max: nat, t: string): string {
    Join(Lines(t)[Excess(max, t)..])
  }

  lemma KeepLastIsSuffix(max: nat, t: string)
    requires max >= 1
    ensures Cut(max, t) <= |t|
    ensures KeepLast(max, t) == t[Cut(max, t)..]
    ensures Lines(KeepLast(max, t)) == Lines(t)[Excess(max, t)..]
  {
    var d := Excess(max, t);
    LinesFrom(t, "", d);
    assert t + "" == t && t[Cut(max, t)..] + "" == t[Cut(max, t)..];
    JoinLines(t[Cut(max, t)..]);
  }

  lemma Slices<T>(s: seq<T>, d: nat, e: nat)
    requires d + e <= |s|
    ensures s[d..][e..] == s[d + e..] && s[..d + e] == s[..d] + s[d..][..e]
  {
  }

  lemma LinesAfterCut(max: nat, t: string, more: string)
    requires max >= 1
    ensures var d := Excess(max, t); var all := Lines(t + more);
      d < |Lines(t)| <= |all| && all[..d] == Lines(t)[..d] && Lines(KeepLast(max, t) + more) == all[d..]
  {
    KeepLastIsSuffix(max, t);
    LinesFrom(t, more, Excess(max, t));
    LinesGrow(t, more);
  }

  /** Cutting early, before the rest of the text has arrived, does not change what is kept in the end. */
  lemma KeepLastEarly(max: nat, t: string, more: string)
    requires max >= 1
    ensures KeepLast(max, KeepLast(max, t) + more) == KeepLast(max, t + more)
    ensures Excess(max, t + more) == Excess(max, t) + Excess(max, KeepLast(max, t) + more)
  {
    LinesAfterCut(max, t, more);
    var d := Excess(max, t);
    var e := Excess(max, KeepLast(max, t) + more);
    Slices(Lines(t + more), d, e);
  }

  /** With the cursor in what is dropped, "down" is pressed at least once, and leads to the first line that stays. */
  lemma DownPresses(max: nat, doc: Document)
    requires max >= 1 && doc.Valid() && |Lines(doc.text)| > max
    requires doc.cursor < TotalLength(Lines(doc.text)[..Excess(max, doc.text)]) + Excess(max, doc.text)
    ensures TotalLength(Lines(doc.text)[..Excess(max, doc.text)]) + Excess(max, doc.text) == Cut(max, doc.text)
    ensures Excess(max, doc.text) - doc.Row() >= 1
    ensures doc.cursor + doc.CursorDown(Excess(max, doc.text) - doc.Row())
         == Cut(max, doc.text) + Min(doc.Col(), |Lines(doc.text)[Excess(max, doc.text)]|)
  {
    var d := Excess(max, doc.text);
    ExtentIsSum(Lines(doc.text)[..d]);
    RowAtLeast(doc, d);
    LineFits(doc.text, d);
  }

  lemma TruncateInRange(max: nat, doc: Document)
    requires max >= 1 && doc.Valid() && |Lines(doc.text)| > max
    ensures var drop := |Lines(doc.text)| - max;
      var cursorOffset := TotalLength(Lines(doc.text)[..drop]) + drop;
      |Join(Lines(doc.text)[drop..])| == |doc.text| - cursorOffset
      && (doc.cursor < cursorOffset ==>
        && drop - doc.Row() >= 1
        && cursorOffset <= doc.cursor + doc.CursorDown(drop - doc.Row()) <= |doc.text|)
  {
    KeepLastIsSuffix(max, doc.text);
    ExtentIsSum(Lines(doc.text)[..Excess(max, doc.text)]);
    if doc.cursor < Cut(max, doc.text) {
      DownInRange(max, doc);
    }
  }

  lemma DownInRange(max: nat, doc: Document)
    requires max >= 1 && doc.Valid() && |Lines(doc.text)| > max && doc.cursor < Cut(max, doc.text)
    ensures Excess(max, doc.text) - doc.Row() >= 1
    ensures var down := doc.cursor + doc.CursorDown(Excess(max, doc.text) - doc.Row());
      Cut(max, doc.text) <= down <= |doc.text|
  {
    ExtentIsSum(Lines(doc.text)[..Excess(max, doc.text)]);
    DownPresses(max, doc);
    LineFits(doc.text, Excess(max, doc.text));
  }

  /** truncate_text, with the maximum as a parameter. */
  function Truncate(max: nat, doc: Document): (r: Document)
    requires max >= 1 && doc.Valid()
    ensures r.Valid()
  {
    var lines := Lines(doc.text);
    if |lines| > max then
      TruncateInRange(max, doc);
      var drop := |lines| - max;
      var newText := Join(lines[drop..]);
      var cursorOffset := TotalLength(lines[..drop]) + drop;
      if doc.cursor >= cursorOffset then
        Document(newText, doc.cursor - cursorOffset)
      else
        Document(newText, doc.cursor + doc.CursorDown(drop - doc.Row()) - cursorOffset)
    else
      doc
  }

  /** Within the first line, the row is 0 and the column is the offset. */
  lemma InFirstLine(doc: Document)
    requires doc.Valid() && doc.cursor <= |Lines(doc.text)[0]|
    ensures doc.Row() == 0 && doc.Col() == doc.cursor
  {
    BeforeCursor(doc);
    if |Lines(doc.text)| > 1 {
      RowAtLeast(doc, 1);
      assert Lines(doc.text)[..1] == [Lines(doc.text)[0]];
    }
    assert Lines(doc.text)[..0] == [];
  }

  /** What is kept are exactly the last lines, and the cursor that is moved back still points at its character. */
  lemma TruncateKeeps(max: nat, doc: Document)
    requires max >= 1 && doc.Valid()
    ensures var r := Truncate(max, doc); var cut := Cut(max, doc.text);
      && cut <= |doc.text|
      && r.text == KeepLast(max, doc.text) == doc.text[cut..]
      && (doc.cursor >= cut ==> r.cursor == doc.cursor - cut && r.text[r.cursor..] == doc.text[doc.cursor..])
  {
    KeepLastIsSuffix(max, doc.text);
    TruncateShifts(max, doc);
    if doc.cursor >= Cut(max, doc.text) {
      Slices(doc.text, Cut(max, doc.text), doc.cursor - Cut(max, doc.text));
    }
  }

  /** No more than the maximum stays, and what stays are the last of the lines. */
  lemma TruncateKeepsLastLines(max: nat, doc: Document)
    requires max >= 1 && doc.Valid()
    ensures var before, after := Lines(doc.text), Lines(Truncate(max, doc).text);
            && |after| == (if |before| <= max then |before| else max)
            && forall i | 0 <= i < |after| :: after[i] == before[i + |before| - |after|]
  {
    TruncateShifts(max, doc);
    KeepLastIsSuffix(max, doc.text);
  }

  lemma TruncateShifts(max: nat, doc: Document)
    requires max >= 1 && doc.Valid()
    ensures Truncate(max, doc).text == KeepLast(max, doc.text)
    ensures doc.cursor >= Cut(max, doc.text) ==> Truncate(max, doc).cursor == doc.cursor - Cut(max, doc.text)
  {
    ExtentIsSum(Lines(doc.text)[..Excess(max, doc.text)]);
    if |Lines(doc.text)| <= max {
      JoinLines(doc.text);
      assert Lines(doc.text)[0..] == Lines(doc.text) && Extent(Lines(doc.text)[..0]) == 0;
    }
  }

  lemma TruncateMoved(max: nat, doc: Document)
    requires max >= 1 && doc.Valid() && doc.cursor < Cut(max, doc.text)
    ensures Truncate(max, doc)
         == Document(KeepLast(max, doc.text), Min(doc.Col(), |Lines(doc.text)[Excess(max, doc.text)]|))
  {
    ExtentIsSum(Lines(doc.text)[..Excess(max, doc.text)]);
    DownPresses(max, doc);
  }

  /** A cursor in what is dropped moves to the first line kept, to its old column or to the end of a shorter line. */
  lemma TruncateMovesDown(max: nat, doc: Document)
    requires max >= 1 && doc.Valid() && doc.cursor < Cut(max, doc.text)
    ensures var r := Truncate(max, doc);
      && r.text == KeepLast(max, doc.text) && r.Row() == 0
      && r.Col() == r.cursor == Min(doc.Col(), |Lines(doc.text)[Excess(max, doc.text)]|)
  {
    KeepLastIsSuffix(max, doc.text);
    TruncateMoved(max, doc);
    InFirstLine(Truncate(max, doc));
  }

  // ---------------------------------------------------------------------------------------------------------------
  // Appending
  // ---------------------------------------------------------------------------------------------------------------

  /** append_text, with the maximum as a parameter. */
  function AppendText(max: nat, doc: Document, more: string): (r: Document)
    requires max >= 1 && doc.Valid()
    ensures r.Valid()
  {
    var newText := doc.text + more;
    var newCursor := if !doc.OnLastLine() then doc.cursor else |newText|;
    Truncate(max, Document(newText, newCursor))
  }

  /** Text after the cursor's does not move it; and a cursor that is not on the last line is not on a later last line.
      */
  lemma CursorStays(doc: Document, more: string)
    requires doc.Valid()
    ensures var r := Document(doc.text + more, doc.cursor);
      r.Row() == doc.Row() && r.Col() == doc.Col() && (!doc.OnLastLine() ==> !r.OnLastLine())
  {
    assert (doc.text + more)[..doc.cursor] == doc.text[..doc.cursor];
    LinesGrow(doc.text, more);
    BeforeCursor(doc);
  }

  lemma EndIsOnLastLine(doc: Document)
    requires doc.cursor == |doc.text|
    ensures doc.OnLastLine()
  {
    assert doc.text[..doc.cursor] == doc.text;
  }

  /** A cursor that survives the cut keeps its column, and its distance from the first and from the last line. */
  lemma CursorShifts(doc: Document, d: nat)
    requires doc.Valid() && d <= doc.Row()
    ensures d < |Lines(doc.text)| && Extent(Lines(doc.text)[..d]) <= doc.cursor
    ensures var cut := Extent(Lines(doc.text)[..d]); var r := Document(doc.text[cut..], doc.cursor - cut);
      r.Row() == doc.Row() - d && r.Col() == doc.Col()
  {
    BeforeCursor(doc);
    RowAtLeast(doc, d);
    var before := doc.text[..doc.cursor];
    var cut := Extent(Lines(doc.text)[..d]);
    assert Lines(before)[..d] == Lines(before)[..doc.Row()][..d] == Lines(doc.text)[..d];
    assert Lines(before[cut..]) == Lines(before)[d..] by {
      LinesFrom(before, "", d);
      assert before + "" == before && before[cut..] + "" == before[cut..];
    }
    assert doc.text[cut..][..doc.cursor - cut] == before[cut..];
  }

  /** On the last line, the cursor follows the text to its end. */
  lemma AppendFollows(max: nat, doc: Document, more: string)
    requires max >= 1 && doc.Valid() && doc.OnLastLine()
    ensures var r := AppendText(max, doc, more);
      r.text == KeepLast(max, doc.text + more) && r.cursor == |r.text| && r.OnLastLine()
  {
    var all := Document(doc.text + more, |doc.text + more|);
    TruncateKeeps(max, all);
    EndIsOnLastLine(AppendText(max, doc, more));
  }

  /** Elsewhere, the cursor stays at its character, or goes to its column of the first line kept. */
  lemma AppendHolds(max: nat, doc: Document, more: string)
    requires max >= 1 && doc.Valid() && !doc.OnLastLine()
    ensures var r, t := AppendText(max, doc, more), doc.text + more;
      var cut, d := Cut(max, t), Excess(max, t);
      && r.text == KeepLast(max, doc.text + more)
      && (doc.cursor >= cut ==> r.cursor == doc.cursor - cut && r.Row() == doc.Row() - d && r.Col() == doc.Col())
      && (doc.cursor < cut ==> r.Row() == 0 && r.Col() == r.cursor == Min(doc.Col(), |Lines(doc.text + more)[d]|))
  {
    var all := Document(doc.text + more, doc.cursor);
    var d := Excess(max, all.text);
    TruncateKeeps(max, all);
    CursorStays(doc, more);
    RowAtLeast(all, d);
    if doc.cursor >= Cut(max, all.text) {
      CursorShifts(all, d);
    } else {
      TruncateMovesDown(max, all);
    }
  }

  function Concat(pieces: seq<string>): string {
    if pieces == [] then "" else pieces[0] + Concat(pieces[1..])
  }

  lemma {:induction false} ConcatAppend(a: seq<string>, b: seq<string>)
    ensures Concat(a + b) == Concat(a) + Concat(b)
  {
    if a == [] {
      assert a + b == b;
    } else {
      ConcatAppend(a[1..], b);
      HeadOfBoth(a, b);
      Regroup(a[0], Concat(a[1..]), Concat(b));
    }
  }

  /** One piece after the other. */
  function AppendAll(max: nat, doc: Document, pieces: seq<string>): (r: Document)
    requires max >= 1 && doc.Valid()
    ensures r.Valid()
    decreases |pieces|
  {
    if pieces == [] then doc else AppendAll(max, AppendText(max, doc, pieces[0]), pieces[1..])
  }

  lemma AppendedText(max: nat, doc: Document, more: string)
    requires max >= 1 && doc.Valid()
    ensures AppendText(max, doc, more).text == KeepLast(max, doc.text + more)
  {
    if doc.OnLastLine() { AppendFollows(max, doc, more); } else { AppendHolds(max, doc, more); }
  }

  lemma ConcatHead(t: string, pieces: seq<string>)
    requires pieces != []
    ensures t + Concat(pieces) == (t + pieces[0]) + Concat(pieces[1..])
    ensures |pieces| == 1 ==> t + Concat(pieces) == t + pieces[0] && pieces[1..] == []
  {
    Regroup(t, pieces[0], Concat(pieces[1..]));
    if |pieces| == 1 {
      assert pieces[1..] == [] && t + pieces[0] + "" == t + pieces[0];
    }
  }

  /** However many pieces the text comes in, what is shown are the last lines of all of it. */
  lemma {:induction false} AppendAllText(max: nat, doc: Document, pieces: seq<string>)
    requires max >= 1 && doc.Valid() && pieces != []
    ensures AppendAll(max, doc, pieces).text == KeepLast(max, doc.text + Concat(pieces))
    decreases |pieces|
  {
    AppendedText(max, doc, pieces[0]);
    ConcatHead(doc.text, pieces);
    if |pieces| > 1 {
      AppendAllText(max, AppendText(max, doc, pieces[0]), pieces[1..]);
      KeepLastEarly(max, doc.text + pieces[0], Concat(pieces[1..]));
    }
  }

  /** The cut for all of the text is the first piece's cut and then the cut for the rest. */
  lemma CutsAdd(max: nat, t: string, more: string)
    requires max >= 1
    ensures Cut(max, t + more) == Cut(max, t) + Cut(max, KeepLast(max, t) + more)
  {
    LinesAfterCut(max, t, more);
    KeepLastEarly(max, t, more);
    CutIs(max, t, Lines(t + more), Excess(max, t));
    CutIs(max, t + more, Lines(t + more), Excess(max, t + more));
    CutIs(max, KeepLast(max, t) + more, Lines(t + more)[Excess(max, t)..], Excess(max, KeepLast(max, t) + more));
    ExtentSplits(Lines(t + more), Excess(max, t), Excess(max, KeepLast(max, t) + more));
  }

  /** The cut is known from any lines that begin like the text's. */
  lemma CutIs(max: nat, t: string, lines: seq<string>, d: nat)
    requires d == Excess(max, t) && d <= |lines| && lines[..d] == Lines(t)[..d]
    ensures Cut(max, t) == Extent(lines[..d])
  {
  }

  lemma ExtentSplits(lines: seq<string>, d: nat, e: nat)
    requires d + e <= |lines|
    ensures Extent(lines[..d + e]) == Extent(lines[..d]) + Extent(lines[d..][..e])
  {
    Slices(lines, d, e);
    ExtentAppend(lines[..d], lines[d..][..e]);
  }

  /** On the last line, the whole document is the same whether the text comes in pieces or at once. */
  lemma {:induction false} PiecesFollow(max: nat, doc: Document, pieces: seq<string>)
    requires max >= 1 && doc.Valid() && doc.OnLastLine() && pieces != []
    ensures AppendAll(max, doc, pieces) == AppendText(max, doc, Concat(pieces))
    decreases |pieces|
  {
    AppendFollows(max, doc, pieces[0]);
    AppendFollows(max, doc, Concat(pieces));
    ConcatHead(doc.text, pieces);
    if |pieces| > 1 {
      var next := AppendText(max, doc, pieces[0]);
      PiecesFollow(max, next, pieces[1..]);
      AppendFollows(max, next, Concat(pieces[1..]));
      KeepLastEarly(max, doc.text + pieces[0], Concat(pieces[1..]));
    }
  }

  lemma StillHolds(max: nat, doc: Document, first: string, rest: string)
    requires max >= 1 && doc.Valid() && !doc.OnLastLine()
    requires doc.cursor >= Cut(max, doc.text + first + rest)
    ensures var next := AppendText(max, doc, first);
      !next.OnLastLine() && next.cursor == doc.cursor - Cut(max, doc.text + first)
      && next.cursor >= Cut(max, next.text + rest)
      && Cut(max, doc.text + first + rest) == Cut(max, doc.text + first) + Cut(max, next.text + rest)
  {
    AppendHolds(max, doc, first);
    CutsAdd(max, doc.text + first, rest);
    KeepLastIsSuffix(max, doc.text + first);
    LinesGrow(doc.text, first);
    BeforeCursor(doc);
  }

  lemma {:induction false} PiecesHoldCursor(max: nat, doc: Document, pieces: seq<string>)
    requires max >= 1 && doc.Valid() && !doc.OnLastLine() && pieces != []
    requires doc.cursor >= Cut(max, doc.text + Concat(pieces))
    ensures AppendAll(max, doc, pieces).cursor == doc.cursor - Cut(max, doc.text + Concat(pieces))
    decreases |pieces|
  {
    ConcatHead(doc.text, pieces);
    if |pieces| > 1 {
      StillHolds(max, doc, pieces[0], Concat(pieces[1..]));
      PiecesHoldCursor(max, AppendText(max, doc, pieces[0]), pieces[1..]);
    } else {
      AppendHolds(max, doc, pieces[0]);
    }
  }

  /** And so it is elsewhere, while the cursor's line stays. */
  lemma PiecesHold(max: nat, doc: Document, pieces: seq<string>)
    requires max >= 1 && doc.Valid() && !doc.OnLastLine() && pieces != []
    requires doc.cursor >= Cut(max, doc.text + Concat(pieces))
    ensures AppendAll(max, doc, pieces) == AppendText(max, doc, Concat(pieces))
  {
    PiecesHoldCursor(max, doc, pieces);
    AppendHolds(max, doc, Concat(pieces));
    AppendAllText(max, doc, pieces);
  }
}
