/** What a write of the specification leaves behind, judged from the file it is given
  (`checkSpec` with `write` in scripts/check-audience-route-parity.ts). */
module SpecWrite {
  import opened Options
  import opened Text
  import opened MarkedBlock
  import opened SpecTable
  import opened SpecRows

  /** No row carries another cell than the table's, and the block is there and current. */
  predicate IsClean(t: Table, text: string) {
    && AllCurrent(t, Split(text))
    && HasMarkers(PublicMarkers(t), text) && !MarkedBlock.IsStale(PublicMarkers(t), text)
  }

  /** The reports a write is to mend. */
  predicate IsMendable(v: Violation) {
    v.EndpointsDiffer? || v.MarkersMissing? || v.PublicBlockDiffers?
  }

  /** Clean is what the check, run without writing, has no such report about. */
  lemma CleanMeansSilent(t: Table, text: string)
    ensures IsClean(t, text) <==> forall v :: IsMendable(v) ==> !IsReported(t, text, false, v)
  {
    hide SpecTable.IsStale, MarkedBlock.IsStale, HasMarkers, PublicMarkers;
    if forall v :: IsMendable(v) ==> !IsReported(t, text, false, v) {
      forall i | 0 <= i < |Split(text)|
        ensures !SpecTable.IsStale(t, Split(text)[i])
      {
        assert !IsReported(t, text, false, EndpointsDiffer(i + 1));
      }
      assert !IsReported(t, text, false, MarkersMissing);
      assert !IsReported(t, text, false, PublicBlockDiffers);
    }
  }

  // ----- The markers of a row -----

  /** The characters that separate the parts of a row, and lines, are in no marker. */
  lemma SeparatorsAreInNoMarker(t: Table)
    ensures Avoids(PublicMarkers(t), '`') && Avoids(PublicMarkers(t), '|') && Avoids(PublicMarkers(t), NEWLINE)
  {
    MarkersStartWithMarkup();
    assert forall i :: 0 < i < |BEGIN| ==> BEGIN[i] == BEGIN[1..][i - 1];
    assert forall i :: 0 < i < |END| ==> END[i] == END[1..][i - 1];
  }

  ghost predicate SeparatesRows(m: Markers) {
    AreProper(m) && Avoids(m, '`') && Avoids(m, '|') && Avoids(m, NEWLINE)
  }

  lemma SpaceHoldsNoMarkup(space: string)
    requires IsAllSpace(space)
    ensures Lacks(space, '<')
  {
  }

  /** The cell with the two spaces that set it off. */
  function Padded(cell: string): string {
    " " + cell + " "
  }

  lemma TraceOfAudience(m: Markers, audience: string, after: string)
    requires SeparatesRows(m)
    ensures Firsts(m, ROW_START + audience + TICK + after) == Then(Firsts(m, audience), Firsts(m, after))
  {
    assert ROW_START + audience + TICK + after == "| " + ['`'] + (audience + ['`'] + after);
    NoMarkupNoMarker(m, "| ");
    FirstsAcross(m, "| ", '`', audience + ['`'] + after);
    FirstsAcross(m, audience, '`', after);
  }

  lemma TraceOfTail(m: Markers, rest: string, tail: string)
    requires SeparatesRows(m) && TrimRight(tail) == rest + "|"
    ensures Firsts(m, tail) == Firsts(m, rest)
  {
    var space := TrimRightDropsSpace(tail);
    SpaceHoldsNoMarkup(space);
    assert tail == rest + ['|'] + space;
    NoMarkupNoMarker(m, space);
    FirstsAcross(m, rest, '|', space);
  }

  lemma TraceOfCells(m: Markers, cell: string, tail: string, after: string)
    requires SeparatesRows(m) && TrimLeft(after) == CELL_START + (cell + CELL_END + tail)
    ensures Firsts(m, after) == Then(Firsts(m, Padded(cell)), Firsts(m, tail))
  {
    hide Firsts, TrimLeft;
    var space := TrimLeftDropsSpace(after);
    SpaceHoldsNoMarkup(space);
    assert after == space + ['|'] + (Padded(cell) + ['|'] + tail);
    NoMarkupNoMarker(m, space);
    FirstsAcross(m, space, '|', Padded(cell) + ['|'] + tail);
    FirstsAcross(m, Padded(cell), '|', tail);
  }

  /** A row's line holds the markers of its audience, its cell and what follows the cell. */
  lemma TraceOfRow(m: Markers, line: string)
    requires SeparatesRows(m) && ParseRow(line).Some?
    ensures var row := ParseRow(line).value;
      Firsts(m, line) == Then(Firsts(m, row.audience), Then(Firsts(m, Padded(row.cell)), Firsts(m, row.rest)))
  {
    hide *;
    var row := ParseRow(line).value;
    var after, tail := PartsOfRow(line);
    TraceOfAudience(m, row.audience, after);
    TraceOfCells(m, row.cell, tail, after);
    TraceOfTail(m, row.rest, tail);
  }

  // ----- The markers the row loop keeps -----

  /** The first markers of a line, those in the cell of a stale row left out. */
  function TraceKept(t: Table, line: string): Trace {
    var m := PublicMarkers(t);
    if SpecTable.IsStale(t, line) then
      var row := ParseRow(line).value;
      Then(Firsts(m, row.audience), Firsts(m, row.rest))
    else Firsts(m, line)
  }

  /** The first markers of a file, those in the cells of stale rows left out. */
  function FileTrace(t: Table, lines: seq<string>): Trace {
    if lines == [] then Nothing else Then(TraceKept(t, lines[0]), FileTrace(t, lines[1..]))
  }

  lemma MarkersSeparateRows(t: Table)
    requires IsPlainTable(t)
    ensures SeparatesRows(PublicMarkers(t))
  {
    PublicMarkersAreProper(t);
    SeparatorsAreInNoMarker(t);
  }

  lemma TraceOfFittingCell(m: Markers, cell: string)
    requires AreProper(m) && FitsCell(cell)
    ensures Firsts(m, Padded(cell)) == Nothing
  {
    NoMarkupNoMarker(m, Padded(cell));
  }

  /** A stale line reads, once rewritten, as its row with the table's cell. */
  lemma RewrittenRow(t: Table, line: string)
    requires IsPlainTable(t) && SpecTable.IsStale(t, line)
    ensures var row := ParseRow(line).value;
      && EndpointCell(t, row.audience).Some? && FitsCell(EndpointCell(t, row.audience).value)
      && ParseRow(RewriteLine(t, line)) == Some(row.(cell := EndpointCell(t, row.audience).value))
  {
    ParsedRow(line);
    var row := ParseRow(line).value;
    EndpointCellFits(t, row.audience);
    RowRoundTripIsExact(row.(cell := EndpointCell(t, row.audience).value));
  }

  /** Rewriting a line loses exactly the markers of a stale cell. */
  lemma RewritingKeepsTrace(t: Table, line: string)
    requires IsPlainTable(t)
    ensures Firsts(PublicMarkers(t), RewriteLine(t, line)) == TraceKept(t, line)
  {
    hide ParseRow, Firsts, PublicMarkers, AreProper, SeparatesRows, FitsCell, EndpointCell, Avoids;
    if SpecTable.IsStale(t, line) {
      var m := PublicMarkers(t);
      RewrittenRow(t, line);
      MarkersSeparateRows(t);
      PublicMarkersAreProper(t);
      TraceOfRow(m, RewriteLine(t, line));
      TraceOfFittingCell(m, EndpointCell(t, ParseRow(line).value.audience).value);
    }
  }

  /** The first markers of joined lines are those of the lines in order. */
  lemma {:induction false} TraceOfJoin(t: Table, lines: seq<string>)
    requires IsPlainTable(t)
    ensures Firsts(PublicMarkers(t), Join(RewriteLines(t, lines))) == FileTrace(t, lines)
  {
    hide ParseRow, Firsts, PublicMarkers, AreProper, SeparatesRows, TraceKept, RewriteLine;
    var m := PublicMarkers(t);
    MarkersSeparateRows(t);
    PublicMarkersAreProper(t);
    if lines == [] {
      NoMarkupNoMarker(m, "");
    } else {
      RewritingKeepsTrace(t, lines[0]);
      TraceOfJoin(t, lines[1..]);
      assert RewriteLines(t, lines)[1..] == RewriteLines(t, lines[1..]);
      JoinTrace(m, RewriteLines(t, lines));
    }
  }

  lemma JoinTrace(m: Markers, lines: seq<string>)
    requires SeparatesRows(m) && lines != []
    ensures Firsts(m, Join(lines)) == Then(Firsts(m, lines[0]), Firsts(m, Join(lines[1..])))
  {
    hide Firsts;
    if |lines| == 1 {
      NoMarkupNoMarker(m, "");
    } else {
      FirstsAcross(m, lines[0], NEWLINE, Join(lines[1..]));
    }
  }

  /** What the row loop does to the markers of a file. */
  lemma RowLoopTrace(t: Table, text: string)
    requires IsPlainTable(t)
    ensures Firsts(PublicMarkers(t), RowsWritten(t, text)) == FileTrace(t, Split(text))
  {
    TraceOfJoin(t, Split(text));
  }

  // ----- Write, then check -----

  /** A write leaves every row current. */
  lemma WrittenRowsAreCurrent(t: Table, text: string)
    requires IsPlainTable(t)
    ensures AllCurrent(t, Split(Written(t, text)))
  {
    hide SpecTable.IsStale, RowsWritten, PublicMarkers;
    RowsWrittenAreCurrent(t, text);
    if MarkedBlock.IsStale(PublicMarkers(t), RowsWritten(t, text)) {
      PutBlockKeepsRowsCurrent(t, RowsWritten(t, text));
    }
  }

  /** On a text without stale rows a write is the block step alone. */
  lemma CurrentRowsAreKept(t: Table, text: string)
    requires AllCurrent(t, Split(text))
    ensures RowsWritten(t, text) == text && Written(t, text) == Rewrite(PublicMarkers(t), text)
  {
    assert RewriteLines(t, Split(text)) == Split(text);
    JoinSplit(text);
  }

  /** Exactly, for every file: a check right after a write is clean if and only if the markers
      outside the cells of stale rows are in order, and a second write changes nothing if and only
      if they are not in the wrong order. */
  lemma WriteIsExact(t: Table, text: string)
    requires IsPlainTable(t)
    ensures IsClean(t, Written(t, text)) <==> FileTrace(t, Split(text)) == InOrder
    ensures Written(t, Written(t, text)) == Written(t, text) <==> FileTrace(t, Split(text)) != OutOfOrder
  {
    hide SpecTable.IsStale, MarkedBlock.IsStale, RowsWritten, PublicMarkers, FileTrace, Firsts, Rewrite, HasMarkers;
    var m, rows := PublicMarkers(t), RowsWritten(t, text);
    PublicMarkersAreProper(t);
    RowLoopTrace(t, text);
    SettlesUnlessMisordered(m, rows);
    WrittenRowsAreCurrent(t, text);
    CurrentRowsAreKept(t, Written(t, text));
  }

  // ----- Files whose stale cells hold no marker -----

  /** What a caller can check first: no stale row's cell holds a marker. */
  predicate StaleCellsAreUnmarked(t: Table, lines: seq<string>) {
    forall i :: 0 <= i < |lines| && SpecTable.IsStale(t, lines[i]) ==>
      Firsts(PublicMarkers(t), ParseRow(lines[i]).value.cell) == Nothing
  }

  lemma OccursInPadded(cell: string, needle: string, i: int)
    requires needle != "" && needle[0] != ' ' && needle[|needle| - 1] != ' ' && OccursAt(Padded(cell), needle, i)
    ensures OccursAt(cell, needle, i - 1)
  {
    var s, n := Padded(cell), |needle|;
    assert s[i..i + n][0] == s[i] && s[i..i + n][n - 1] == s[i + n - 1];
    assert s[i..i + n] == cell[i - 1..i - 1 + n];
  }

  lemma PaddingHoldsNoMarker(m: Markers, cell: string)
    requires AreProper(m) && m.begin[|m.begin| - 1] != ' ' && m.end[|m.end| - 1] != ' '
    requires Firsts(m, cell) == Nothing
    ensures Firsts(m, Padded(cell)) == Nothing
  {
    var b, e := IndexOf(Padded(cell), m.begin, 0), IndexOf(Padded(cell), m.end, 0);
    if b != -1 {
      OccursInPadded(cell, m.begin, b);
    }
    if e != -1 {
      OccursInPadded(cell, m.end, e);
    }
  }

  lemma MarkersEndAngled()
    ensures BEGIN[|BEGIN| - 1] == '>' == END[|END| - 1]
  {
  }

  lemma UnmarkedCellKeepsTrace(t: Table, line: string)
    requires IsPlainTable(t) && SpecTable.IsStale(t, line)
    requires Firsts(PublicMarkers(t), ParseRow(line).value.cell) == Nothing
    ensures TraceKept(t, line) == Firsts(PublicMarkers(t), line)
  {
    hide ParseRow, Firsts, AreProper, SeparatesRows, EndpointCell, Avoids, IsPlainTable, PublicLine;
    MarkersSeparateRows(t);
    PublicMarkersAreProper(t);
    MarkersEndAngled();
    TraceOfRow(PublicMarkers(t), line);
    PaddingHoldsNoMarker(PublicMarkers(t), ParseRow(line).value.cell);
  }

  lemma {:induction false} UnmarkedCellsKeepTrace(t: Table, lines: seq<string>)
    requires IsPlainTable(t) && StaleCellsAreUnmarked(t, lines)
    ensures FileTrace(t, lines) == Firsts(PublicMarkers(t), Join(lines))
  {
    hide ParseRow, Firsts, PublicMarkers, AreProper, SeparatesRows, SpecTable.IsStale, IsPlainTable;
    var m := PublicMarkers(t);
    MarkersSeparateRows(t);
    PublicMarkersAreProper(t);
    if lines == [] {
      NoMarkupNoMarker(m, "");
    } else {
      if SpecTable.IsStale(t, lines[0]) {
        UnmarkedCellKeepsTrace(t, lines[0]);
      }
      UnmarkedCellsKeepTrace(t, lines[1..]);
      JoinTrace(m, lines);
    }
  }

  /** The row loop keeps the marker order of a file whose stale cells hold no marker. */
  lemma RowLoopKeepsOrder(t: Table, text: string)
    requires IsPlainTable(t) && StaleCellsAreUnmarked(t, Split(text))
    ensures FileTrace(t, Split(text)) == Firsts(PublicMarkers(t), text)
    ensures Firsts(PublicMarkers(t), RowsWritten(t, text)) == Firsts(PublicMarkers(t), text)
  {
    UnmarkedCellsKeepTrace(t, Split(text));
    JoinSplit(text);
    RowLoopTrace(t, text);
  }

  /** After a write of a file whose markers are in order and whose stale cells hold none, a check
      finds no stale endpoint cell and no stale block, and a second write changes nothing. */
  lemma WriteThenCheckIsClean(t: Table, text: string)
    requires IsPlainTable(t) && StaleCellsAreUnmarked(t, Split(text))
    requires HasOrderedMarkers(PublicMarkers(t), text)
    ensures IsClean(t, Written(t, text))
    ensures Written(t, Written(t, text)) == Written(t, text)
  {
    RowLoopKeepsOrder(t, text);
    WriteIsExact(t, text);
  }

  /** For such files the order of the markers is exactly what a clean write needs. */
  lemma FileOrderIsExact(t: Table, text: string)
    requires IsPlainTable(t) && StaleCellsAreUnmarked(t, Split(text))
    ensures IsClean(t, Written(t, text)) <==> HasOrderedMarkers(PublicMarkers(t), text)
  {
    RowLoopKeepsOrder(t, text);
    WriteIsExact(t, text);
  }

  /** The generated block alone is such a file. */
  lemma GeneratedBlockIsInOrder(t: Table)
    requires IsPlainTable(t)
    ensures var text := Block(PublicMarkers(t));
      StaleCellsAreUnmarked(t, Split(text)) && HasOrderedMarkers(PublicMarkers(t), text)
  {
    hide SpecTable.IsStale;
    PublicMarkersAreProper(t);
    BlockAloneIsInOrder(PublicMarkers(t));
    BlockLines(t);
    forall i | 0 <= i < 5
      ensures !SpecTable.IsStale(t, [BEGIN, "", PublicLine(t), "", END][i])
    {
      BlockOwnLine(t, i);
    }
  }

  lemma BlockOwnLine(t: Table, i: nat)
    requires IsPlainTable(t) && i < 5
    ensures !SpecTable.IsStale(t, [BEGIN, "", PublicLine(t), "", END][i])
  {
    var line := [BEGIN, "", PublicLine(t), "", END][i];
    assert "" + BEGIN == BEGIN && END + "" == END;
    BlockLineIsNoRow(t, line);
  }

  // ----- A marker in a stale cell -----

  /** A row of `audience` whose cell holds the begin marker, then an end and a begin marker. */
  function LostMarker(audience: string): string {
    Join([WriteRow(Row(audience, BEGIN, "")), END, BEGIN])
  }

  predicate IsNamed(audience: string) {
    audience != "" && forall i :: 0 <= i < |audience| ==> audience[i] !in {'`', '<', NEWLINE}
  }

  lemma BeginIsACell()
    ensures BEGIN != "" && BEGIN[0] == '<' && BEGIN[|BEGIN| - 1] == '>'
    ensures IsDotText(BEGIN) && Lacks(BEGIN, '|')
  {
    MarkersStartWithMarkup();
    MarkersEndAngled();
    assert forall i :: 0 < i < |BEGIN| ==> BEGIN[i] == BEGIN[1..][i - 1];
  }

  lemma NoBarNoSeparator(cell: string)
    requires Lacks(cell, '|')
    ensures HasNoSeparator(cell)
  {
    SeparatorAt(cell, IndexOf(cell, CELL_END, 0));
  }

  /** A row whose cell opens with markup is stale: cells of the table open with a tick. */
  lemma MarkupRowIsStale(t: Table, row: Row)
    requires IsPlainTable(t) && row.audience in t.audiences && EndpointCell(t, row.audience).Some?
    requires IsWritable(row) && Lacks(row.cell, '|')
    requires row.cell != "" && row.cell[0] == '<' && row.cell[|row.cell| - 1] == '>'
    ensures ParseRow(WriteRow(row)) == Some(row) && SpecTable.IsStale(t, WriteRow(row))
  {
    hide ParseRow, WriteRow;
    NoBarNoSeparator(row.cell);
    RowRoundTripIsExact(row);
    EndpointCellFits(t, row.audience);
    assert Trim(row.cell) == row.cell;
  }

  lemma TraceOfPaddedBegin(m: Markers)
    requires AreProper(m) && m.begin[|m.begin| - 1] != ' ' && m.end[|m.end| - 1] != ' '
    ensures Firsts(m, Padded(m.begin)) == Begins
  {
    var s := Padded(m.begin);
    assert OccursAt(s, m.begin, 1) by {
      assert s[1..1 + |m.begin|] == m.begin;
    }
    if IndexOf(s, m.end, 0) != -1 {
      OccursInPadded(m.begin, m.end, IndexOf(s, m.end, 0));
    }
  }

  lemma LostMarkerRow(t: Table, audience: string)
    requires IsPlainTable(t) && IsNamed(audience)
    requires audience in t.audiences && EndpointCell(t, audience).Some?
    ensures var line := WriteRow(Row(audience, BEGIN, ""));
      && Lacks(line, NEWLINE) && SpecTable.IsStale(t, line)
      && Firsts(PublicMarkers(t), line) == Begins && TraceKept(t, line) == Nothing
  {
    hide ParseRow, WriteRow, Firsts, AreProper, SeparatesRows, EndpointCell, IsPlainTable, PublicLine;
    var m, row := PublicMarkers(t), Row(audience, BEGIN, "");
    BeginIsACell();
    MarkupRowIsStale(t, row);
    WrittenRowIsOneLine(row);
    MarkersEndAngled();
    PublicMarkersAreProper(t);
    MarkersSeparateRows(t);
    TraceOfRow(m, WriteRow(row));
    TraceOfPaddedBegin(m);
    NoMarkupNoMarker(m, audience);
    NoMarkupNoMarker(m, "");
  }

  lemma TraceOfThree(m: Markers, a: string, b: string, c: string)
    requires SeparatesRows(m)
    ensures Firsts(m, Join([a, b, c])) == Then(Firsts(m, a), Then(Firsts(m, b), Firsts(m, c)))
  {
    hide Firsts;
    assert [a, b, c][1..] == [b, c] && [b, c][1..] == [c];
    JoinTrace(m, [a, b, c]);
    JoinTrace(m, [b, c]);
  }

  lemma KeptOfThree(t: Table, a: string, b: string, c: string)
    ensures FileTrace(t, [a, b, c]) == Then(TraceKept(t, a), Then(TraceKept(t, b), TraceKept(t, c)))
  {
    hide TraceKept;
    assert [a, b, c][1..] == [b, c] && [b, c][1..] == [c];
    assert FileTrace(t, [c]) == TraceKept(t, c);
    assert FileTrace(t, [b, c]) == Then(TraceKept(t, b), TraceKept(t, c));
  }

  lemma KeptOfMarkers(t: Table)
    requires IsPlainTable(t)
    ensures TraceKept(t, END) == Ends == Firsts(PublicMarkers(t), END)
    ensures TraceKept(t, BEGIN) == Begins == Firsts(PublicMarkers(t), BEGIN)
  {
    hide Firsts, SpecTable.IsStale;
    BlockOwnLine(t, 0);
    BlockOwnLine(t, 4);
    PublicMarkersAreProper(t);
    MarkersTrace(PublicMarkers(t));
  }

  lemma LostMarkerLines(line: string)
    requires Lacks(line, NEWLINE)
    ensures Split(Join([line, END, BEGIN])) == [line, END, BEGIN]
  {
    BeginIsACell();
    MarkersStartWithMarkup();
    assert END == [END[0]] + END[1..];
    SplitJoin([line, END, BEGIN]);
  }

  /** Markers in order in the file are not enough: the row loop rewrites away the one in the cell,
      and the block it leaves is stale. */
  lemma StaleCellLosesTheOrder(t: Table, audience: string)
    requires IsPlainTable(t) && IsNamed(audience)
    requires audience in t.audiences && EndpointCell(t, audience).Some?
    ensures HasOrderedMarkers(PublicMarkers(t), LostMarker(audience))
    ensures MarkedBlock.IsStale(PublicMarkers(t), Written(t, LostMarker(audience)))
  {
    hide Firsts, PublicMarkers, SpecTable.IsStale, MarkedBlock.IsStale, Join, AreProper, SeparatesRows, RowsWritten,
      HasMarkers, HasOrderedMarkers, WriteRow, FileTrace, TraceKept;
    var m, line, text := PublicMarkers(t), WriteRow(Row(audience, BEGIN, "")), LostMarker(audience);
    LostMarkerRow(t, audience);
    MarkersSeparateRows(t);
    PublicMarkersAreProper(t);
    KeptOfMarkers(t);
    TraceOfThree(m, line, END, BEGIN);
    InOrderMeansOrdered(m, text);
    LostMarkerLines(line);
    KeptOfThree(t, line, END, BEGIN);
    RowLoopTrace(t, text);
    InOrderMeansOrdered(m, RowsWritten(t, text));
    MisorderedBlockStaysStale(m, RowsWritten(t, text));
  }

  /** Such a table and file exist. */
  lemma OrderedMarkersCanLeaveAStaleBlock()
    ensures exists t: Table, text: string ::
      && IsPlainTable(t) && HasOrderedMarkers(PublicMarkers(t), text)
      && MarkedBlock.IsStale(PublicMarkers(t), Written(t, text))
  {
    hide PublicMarkers, Written, HasOrderedMarkers, MarkedBlock.IsStale, LostMarker;
    var t := Table({"a"}, [Route("a", "GET /x")], []);
    NoBarNoSeparator("GET /x");
    assert RoutesOf(t.routes, "a") == RoutesOf([], "a") + ["GET /x"];
    StaleCellLosesTheOrder(t, "a");
    assert HasOrderedMarkers(PublicMarkers(t), LostMarker("a"));
  }
}
