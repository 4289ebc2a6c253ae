/** A text area that gets its text in pieces: where a cursor ends up whose line is dropped, and exactly when that
    depends on how the text is cut into pieces. */
module TextPieces {
  import opened Common
  import opened TextBuffer

  /** The length of the first line that stays. */
  function FirstKept(max: nat, t: string): nat
    requires max >= 1
  {
    |Lines(t)[Excess(max, t)]|
  }

  /** The text after the first i pieces. */
  function TextAfter(doc: Document, pieces: seq<string>, i: nat): string
    requires i <= |pieces|
  {
    doc.text + Concat(pieces[..i])
  }

  /** The cursor's column after the pieces: the least of its own and of the lengths of the lines it was moved to. */
  function ColumnAfter(max: nat, doc: Document, pieces: seq<string>): nat
    requires max >= 1 && doc.Valid()
    decreases |pieces|
  {
    if pieces == [] then doc.Col()
    else
      var before := ColumnAfter(max, doc, pieces[..|pieces| - 1]);
      var t := doc.text + Concat(pieces);
      if doc.cursor < Cut(max, t) then Min(before, FirstKept(max, t)) else before
  }

  lemma FirstCut(t: string, d: nat)
    requires d <= |Lines(t)|
    ensures if d == 0 then Extent(Lines(t)[..d]) == 0 else Extent(Lines(t)[..d]) > |Lines(t)[0]|
  {
    if d > 0 {
      ExtentGrows(Lines(t), 0, d);
    }
  }

  // ---------------------------------------------------------------------------------------------------------------
  // One piece after the other
  // ---------------------------------------------------------------------------------------------------------------

  /** `r` is what has become of `doc` after its text has grown to `t`, with the cursor at `column` if it was moved. */
  predicate Reached(max: nat, doc: Document, t: string, column: nat, r: Document)
    requires max >= 1 && doc.Valid()
  {
    && r.Valid() && r.text == KeepLast(max, t) && !r.OnLastLine()
    && (doc.cursor >= Cut(max, t) ==>
          && r.cursor == doc.cursor - Cut(max, t)
          && r.Row() == doc.Row() - Excess(max, t) && r.Col() == doc.Col() == column)
    && (doc.cursor < Cut(max, t) ==>
          r.Row() == 0 && r.Col() == r.cursor == column && column <= FirstKept(max, t))
  }

  lemma ReachedFirst(max: nat, doc: Document, piece: string)
    requires max >= 2 && doc.Valid() && !doc.OnLastLine()
    ensures var t := doc.text + piece;
      Reached(max, doc, t, if doc.cursor < Cut(max, t) then Min(doc.Col(), FirstKept(max, t)) else doc.Col(),
              AppendText(max, doc, piece))
  {
    AppendHolds(max, doc, piece);
    KeepLastIsSuffix(max, doc.text + piece);
    LinesGrow(doc.text, piece);
    BeforeCursor(doc);
  }

  /** What the next piece does, in terms of the text that was cut already and of the whole one. */
  lemma NextCut(max: nat, t: string, more: string)
    requires max >= 2
    ensures var kept := KeepLast(max, t) + more;
      && KeepLast(max, kept) == KeepLast(max, t + more)
      && Excess(max, t + more) == Excess(max, t) + Excess(max, kept)
      && Cut(max, t + more) == Cut(max, t) + Cut(max, kept)
      && FirstKept(max, kept) == FirstKept(max, t + more)
      && |Lines(KeepLast(max, t))| <= |Lines(kept)|
      && |Lines(KeepLast(max, t + more))| == |Lines(t + more)| - Excess(max, t + more)
  {
    KeepLastEarly(max, t, more);
    CutsAdd(max, t, more);
    LinesAfterCut(max, t, more);
    KeepLastIsSuffix(max, t + more);
    LinesGrow(KeepLast(max, t), more);
  }

  lemma ReachedNext(max: nat, doc: Document, t: string, column: nat, r: Document, more: string)
    requires max >= 2 && doc.Valid() && Reached(max, doc, t, column, r)
    ensures Reached(max, doc, t + more,
                    if doc.cursor < Cut(max, t + more) then Min(column, FirstKept(max, t + more)) else column,
                    AppendText(max, r, more))
  {
    NextCut(max, t, more);
    AppendHolds(max, r, more);
    BeforeCursor(r);
    if doc.cursor < Cut(max, t) {
      FirstLineStays(max, t, more);
      FirstCut(r.text + more, Excess(max, r.text + more));
    }
  }

  /** A first kept line that is finished stays what it is while it stays at all. */
  lemma FirstLineStays(max: nat, t: string, more: string)
    requires max >= 2 && |Lines(KeepLast(max, t))| >= 2
    ensures |Lines(KeepLast(max, t) + more)[0]| == FirstKept(max, t)
  {
    KeepLastIsSuffix(max, t);
    LinesGrow(KeepLast(max, t), more);
  }

  lemma {:induction false} AppendLast(max: nat, doc: Document, pieces: seq<string>)
    requires max >= 1 && doc.Valid() && pieces != []
    ensures var n := |pieces| - 1;
      AppendAll(max, doc, pieces) == AppendText(max, AppendAll(max, doc, pieces[..n]), pieces[n])
    decreases |pieces|
  {
    var n := |pieces| - 1;
    if n == 0 {
      assert pieces[..0] == [] && pieces[1..] == [];
    } else {
      AppendLast(max, AppendText(max, doc, pieces[0]), pieces[1..]);
      Middle(pieces);
    }
  }

  lemma Middle<T>(s: seq<T>)
    requires |s| >= 2
    ensures var n := |s| - 1; s[1..][..n - 1] == s[..n][1..] && s[..n][0] == s[0] && s[1..][n - 1] == s[n]
  {
  }

  lemma OneConcat(piece: string)
    ensures Concat([piece]) == piece
  {
    assert [piece][1..] == [];
    assert piece + Concat([]) == piece;
  }

  lemma ConcatLast(t: string, pieces: seq<string>)
    requires pieces != []
    ensures var n := |pieces| - 1; t + Concat(pieces) == (t + Concat(pieces[..n])) + pieces[n]
  {
    var n := |pieces| - 1;
    assert pieces == pieces[..n] + [pieces[n]];
    ConcatAppend(pieces[..n], [pieces[n]]);
    OneConcat(pieces[n]);
    Regroup(t, Concat(pieces[..n]), pieces[n]);
  }

  lemma {:induction false} ReachedAfter(max: nat, doc: Document, pieces: seq<string>)
    requires max >= 2 && doc.Valid() && !doc.OnLastLine() && pieces != []
    ensures Reached(max, doc, doc.text + Concat(pieces), ColumnAfter(max, doc, pieces), AppendAll(max, doc, pieces))
    decreases |pieces|
  {
    var n := |pieces| - 1;
    AppendLast(max, doc, pieces);
    if n == 0 {
      assert pieces == [pieces[0]];
      OnePiece(max, doc, pieces[0]);
      ReachedFirst(max, doc, pieces[0]);
    } else {
      ConcatLast(doc.text, pieces);
      ReachedAfter(max, doc, pieces[..n]);
      ReachedNext(max, doc, doc.text + Concat(pieces[..n]), ColumnAfter(max, doc, pieces[..n]),
                  AppendAll(max, doc, pieces[..n]), pieces[n]);
    }
  }

  // ---------------------------------------------------------------------------------------------------------------
  // Exactly when the pieces do not matter
  // ---------------------------------------------------------------------------------------------------------------

  /** If the first i pieces drop the cursor's line, the first line kept then has at least x characters. */
  predicate LongEnough(max: nat, doc: Document, pieces: seq<string>, i: nat, x: nat)
    requires max >= 1 && i <= |pieces|
  {
    doc.cursor < Cut(max, TextAfter(doc, pieces, i)) ==> FirstKept(max, TextAfter(doc, pieces, i)) >= x
  }

  /** The column is at least x exactly when the cursor's own is, and so are the lengths of all lines it was moved to. */
  lemma {:induction false} ColumnIsLeast(max: nat, doc: Document, pieces: seq<string>, x: nat)
    requires max >= 1 && doc.Valid()
    ensures ColumnAfter(max, doc, pieces) >= x
            <==> doc.Col() >= x && forall i | 1 <= i <= |pieces| :: LongEnough(max, doc, pieces, i, x)
    decreases |pieces|
  {
    if pieces != [] {
      var n := |pieces| - 1;
      ColumnIsLeast(max, doc, pieces[..n], x);
      assert pieces[..n + 1] == pieces;
      forall i | 1 <= i <= n ensures LongEnough(max, doc, pieces[..n], i, x) <==> LongEnough(max, doc, pieces, i, x) {
        assert pieces[..n][..i] == pieces[..i];
      }
      assert (forall i | 1 <= i <= n + 1 :: LongEnough(max, doc, pieces, i, x))
             <==> && LongEnough(max, doc, pieces, n + 1, x)
                  && forall i | 1 <= i <= n :: LongEnough(max, doc, pieces, i, x);
    }
  }

  /** Two ways of cutting a text into pieces leave the same document exactly when the cursor follows the text or the
      columns agree. */
  lemma SplittingsAgreeExactlyWhen(max: nat, doc: Document, pieces: seq<string>, other: seq<string>)
    requires max >= 2 && doc.Valid() && pieces != [] && other != [] && Concat(pieces) == Concat(other)
    ensures AppendAll(max, doc, pieces) == AppendAll(max, doc, other)
            <==> doc.OnLastLine() || ColumnAfter(max, doc, pieces) == ColumnAfter(max, doc, other)
  {
    if doc.OnLastLine() {
      PiecesFollow(max, doc, pieces);
      PiecesFollow(max, doc, other);
    } else {
      ReachedAfter(max, doc, pieces);
      ReachedAfter(max, doc, other);
    }
  }

  /**
   * Pieces and one append leave the same document exactly when the cursor follows the text, or every line to which a
   * piece but the last moves it is long enough for its final column.
   */
  lemma PiecesAgreeExactlyWhen(max: nat, doc: Document, pieces: seq<string>)
    requires max >= 2 && doc.Valid() && pieces != []
    ensures AppendAll(max, doc, pieces) == AppendText(max, doc, Concat(pieces))
            <==> || doc.OnLastLine()
                 || forall i | 1 <= i < |pieces| ::
                      LongEnough(max, doc, pieces, i, Min(doc.Col(), FirstKept(max, doc.text + Concat(pieces))))
  {
    var whole := Concat(pieces);
    OnePiece(max, doc, whole);
    SplittingsAgreeExactlyWhen(max, doc, pieces, [whole]);
    if doc.cursor >= Cut(max, doc.text + whole) {
      NeverMoved(max, doc, pieces);
    } else {
      MovedInTheEnd(max, doc, pieces);
    }
  }

  lemma MovedInTheEnd(max: nat, doc: Document, pieces: seq<string>)
    requires max >= 1 && doc.Valid() && pieces != [] && doc.cursor < Cut(max, doc.text + Concat(pieces))
    ensures var column := Min(doc.Col(), FirstKept(max, doc.text + Concat(pieces)));
      ColumnAfter(max, doc, pieces) == column
      <==> forall i | 1 <= i < |pieces| :: LongEnough(max, doc, pieces, i, column)
  {
    var column := Min(doc.Col(), FirstKept(max, doc.text + Concat(pieces)));
    ColumnIsLeast(max, doc, pieces, column);
    ColumnIsLeast(max, doc, pieces, ColumnAfter(max, doc, pieces));
    assert pieces[..|pieces|] == pieces;
    assert LongEnough(max, doc, pieces, |pieces|, column);
    assert LongEnough(max, doc, pieces, |pieces|, ColumnAfter(max, doc, pieces));
  }

  lemma OnePiece(max: nat, doc: Document, piece: string)
    requires max >= 1 && doc.Valid()
    ensures Concat([piece]) == piece && AppendAll(max, doc, [piece]) == AppendText(max, doc, piece)
    ensures var t := doc.text + piece;
      ColumnAfter(max, doc, [piece])
      == if doc.cursor < Cut(max, t) then Min(doc.Col(), FirstKept(max, t)) else doc.Col()
  {
    OneConcat(piece);
    assert [piece][1..] == [] && [piece][..0] == [];
    assert AppendAll(max, AppendText(max, doc, piece), []) == AppendText(max, doc, piece);
    assert ColumnAfter(max, doc, []) == doc.Col();
  }

  lemma TextSplits(doc: Document, pieces: seq<string>, i: nat)
    requires i <= |pieces|
    ensures doc.text + Concat(pieces) == TextAfter(doc, pieces, i) + Concat(pieces[i..])
  {
    assert pieces == pieces[..i] + pieces[i..];
    ConcatAppend(pieces[..i], pieces[i..]);
    Regroup(doc.text, Concat(pieces[..i]), Concat(pieces[i..]));
  }

  /** The cuts only move on. */
  lemma CutsGrow(max: nat, doc: Document, pieces: seq<string>, i: nat)
    requires max >= 1 && i <= |pieces|
    ensures Cut(max, TextAfter(doc, pieces, i)) <= Cut(max, doc.text + Concat(pieces))
  {
    TextSplits(doc, pieces, i);
    CutsAdd(max, TextAfter(doc, pieces, i), Concat(pieces[i..]));
  }

  lemma NeverMoved(max: nat, doc: Document, pieces: seq<string>)
    requires max >= 1 && doc.Valid() && doc.cursor >= Cut(max, doc.text + Concat(pieces))
    ensures ColumnAfter(max, doc, pieces) == doc.Col()
    ensures forall i | 0 <= i <= |pieces| :: doc.cursor >= Cut(max, TextAfter(doc, pieces, i))
  {
    forall i | 0 <= i <= |pieces| ensures doc.cursor >= Cut(max, TextAfter(doc, pieces, i)) {
      CutsGrow(max, doc, pieces, i);
    }
    forall i | 1 <= i <= |pieces| ensures LongEnough(max, doc, pieces, i, doc.Col()) {}
    ColumnIsLeast(max, doc, pieces, doc.Col());
    ColumnIsLeast(max, doc, pieces, doc.Col() + 1);
  }

  // ---------------------------------------------------------------------------------------------------------------
  // A text for which they do
  // ---------------------------------------------------------------------------------------------------------------

  lemma {:induction false} OneLine(line: string)
    requires '\n' !in line
    ensures Lines(line) == [line]
  {
    if line != "" {
      OneLine(line[1..]);
      assert [line[0]] + line[1..] == line;
    }
  }

  /** The lines of a text whose first line is known. */
  lemma {:induction false} LineThen(line: string, rest: string)
    requires '\n' !in line
    ensures Lines(line + "\n" + rest) == [line] + Lines(rest)
  {
    if line == "" {
      assert line + "\n" + rest == "\n" + rest;
    } else {
      LineThen(line[1..], rest);
      assert (line + "\n" + rest)[1..] == line[1..] + "\n" + rest;
      assert ([line[1..]] + Lines(rest))[0] == line[1..] && line == [line[0]] + line[1..];
    }
  }

  /** split is the inverse of join, on lines that are lines. */
  lemma {:induction false} LinesOfJoin(lines: seq<string>)
    requires lines != [] && forall line | line in lines :: '\n' !in line
    ensures Lines(Join(lines)) == lines
  {
    assert lines[0] in lines;
    if |lines| == 1 {
      OneLine(lines[0]);
    } else {
      LinesOfJoin(lines[1..]);
      LineThen(lines[0], Join(lines[1..]));
    }
  }

  lemma {:induction false} NewlineEndsLine(t: string)
    ensures Lines(t + "\n") == Lines(t) + [""]
  {
    if t == "" {
      assert t + "\n" == "\n" && "\n"[1..] == "";
    } else {
      NewlineEndsLine(t[1..]);
      HeadOfBoth(t, "\n");
    }
  }

  /** A full text area: a line, an empty line, and as many lines more as there is room for. */
  function FullArea(max: nat): (r: seq<string>)
    requires max >= 3
    ensures |r| == max && r[0] == "a" && r[1] == "" && forall i | 2 <= i < max :: r[i] == "b"
  {
    ["a", ""] + Copies(max - 2, "b")
  }

  /** At the end of its first line, the cursor loses its column to the empty line if two newlines come one by one. */
  lemma ShortLineLosesColumn(max: nat)
    requires max >= 3
    ensures var doc := Document(Join(FullArea(max)), 1);
      && doc.Valid() && |Lines(doc.text)| == max
      && AppendAll(max, doc, ["\n", "\n"]) != AppendText(max, doc, "\n\n")
  {
    var doc, pieces := Document(Join(FullArea(max)), 1), ["\n", "\n"];
    LinesOfJoin(FullArea(max));
    LineFits(doc.text, 0);
    InFirstLine(doc);
    AfterNewlines(max, doc.text);
    TwoNewlines(doc);
    PiecesAgreeExactlyWhen(max, doc, pieces);
    assert !LongEnough(max, doc, pieces, 1, 1);
  }

  lemma TwoNewlines(doc: Document)
    ensures Concat(["\n", "\n"]) == "\n\n"
    ensures TextAfter(doc, ["\n", "\n"], 1) == doc.text + "\n"
  {
    assert ["\n", "\n"][1..] == ["\n"] && ["\n", "\n"][..1] == ["\n"];
    OneConcat("\n");
  }

  lemma AfterNewlines(max: nat, t: string)
    requires max >= 3 && Lines(t) == FullArea(max)
    ensures Cut(max, t + "\n") == 2 && FirstKept(max, t + "\n") == 0
    ensures Cut(max, t + "\n\n") >= 2 && FirstKept(max, t + "\n\n") == 1
  {
    NewlineEndsLine(t);
    NewlineEndsLine(t + "\n");
    assert t + "\n" + "\n" == t + "\n\n";
    var one, two := Lines(t + "\n"), Lines(t + "\n\n");
    assert one[..1] == ["a"] && Extent(["a"]) == 2 + Extent([]);
    ExtentGrows(two, 0, 2);
  }
}
