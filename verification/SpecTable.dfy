/** The generated endpoint table of the auth-token specification
  (scripts/check-audience-route-parity.ts): rewriting it from the route table, and checking it. */
module SpecTable {
  import opened Options
  import opened Collections
  import opened Text
  import MarkedBlock

  /** A route as the specification spells it, `METHOD /path/{param}`. */
  datatype Route = Route(audience: string, spelled: string)

  datatype Table = Table(audiences: set<string>, routes: seq<Route>, publicRoutes: seq<string>)

  // ----- Characters -----

  /** The characters `.` does not match. */
  predicate IsLineEnd(c: char) {
    c == NEWLINE || c as nat == 13 || c as nat == 0x2028 || c as nat == 0x2029
  }

  predicate IsDotText(s: string) {
    forall i :: 0 <= i < |s| ==> !IsLineEnd(s[i])
  }

  function TrimRight(s: string): (t: string)
    ensures t <= s
    ensures t != "" ==> !IsSpace(t[|t| - 1])
    ensures s != "" && !IsSpace(s[|s| - 1]) ==> t == s
  {
    if s == "" then "" else
    var n := |s| - 1;
    if IsSpace(s[n]) then TrimRight(s[..n]) else s
  }

  function TrimLeft(s: string): (t: string)
    ensures s != "" && !IsSpace(s[0]) ==> t == s
  {
    if s != "" && IsSpace(s[0]) then TrimLeft(s[1..]) else s
  }

  lemma {:induction false} TrimLeftKeepsTheEnd(s: string)
    ensures TrimLeft(s) != "" ==> s != "" && TrimLeft(s)[|TrimLeft(s)| - 1] == s[|s| - 1]
  {
    if s != "" && IsSpace(s[0]) {
      TrimLeftKeepsTheEnd(s[1..]);
    }
  }

  function Trim(s: string): string {
    TrimRight(TrimLeft(s))
  }

  // ----- What the table generates -----

  const TICK := "`"

  function Cells(spelled: seq<string>): string {
    if spelled == [] then ""
    else TICK + spelled[0] + TICK + if |spelled| == 1 then "" else ", " + Cells(spelled[1..])
  }

  /** The routes of an audience, as spelled. */
  function RoutesOf(routes: seq<Route>, audience: string): seq<string> {
    if routes == [] then [] else
    var n := |routes| - 1;
    RoutesOf(routes[..n], audience) + if routes[n].audience == audience then [routes[n].spelled] else []
  }

  ghost function PlacesOf(routes: seq<Route>, audience: string): set<nat> {
    set i: nat | i < |routes| && routes[i].audience == audience
  }

  ghost predicate AreSpelledAt(spelled: seq<string>, routes: seq<Route>, places: seq<nat>) {
    && |spelled| == |places|
    && forall k :: 0 <= k < |places| ==> places[k] < |routes| && spelled[k] == routes[places[k]].spelled
  }

  /** Exactly the routes of the audience, in the order of the table. */
  lemma {:induction false} RoutesAreExact(routes: seq<Route>, audience: string) returns (places: seq<nat>)
    ensures Lists(places, PlacesOf(routes, audience)) && AreSpelledAt(RoutesOf(routes, audience), routes, places)
  {
    places := [];
    if routes != [] {
      var n := |routes| - 1;
      places := RoutesAreExact(routes[..n], audience);
      if routes[n].audience == audience {
        ListsOneMore(places, PlacesOf(routes[..n], audience), n);
        assert PlacesOf(routes, audience) == PlacesOf(routes[..n], audience) + {n};
        places := places + [n];
      } else {
        assert PlacesOf(routes, audience) == PlacesOf(routes[..n], audience);
      }
    }
  }

  /** A cell is its routes, each between ticks, with a comma and a space between two. */
  lemma {:induction false} CellsOfConcat(xs: seq<string>, ys: seq<string>)
    requires xs != [] && ys != []
    ensures Cells(xs + ys) == Cells(xs) + ", " + Cells(ys)
  {
    assert (xs + ys)[1..] == xs[1..] + ys;
    if |xs| == 1 {
      assert xs[1..] + ys == ys;
      assert Cells(xs) == TICK + xs[0] + TICK;
    } else {
      CellsOfConcat(xs[1..], ys);
    }
  }

  lemma CellsOfOne(x: string)
    ensures Cells([x]) == "`" + x + "`"
  {
  }

  /** The endpoint cell an audience must carry, if the relay verifies it at all. */
  function EndpointCell(t: Table, audience: string): Option<string> {
    var spelled := RoutesOf(t.routes, audience);
    if spelled == [] then None else Some(Cells(spelled))
  }

  /** The cell of an audience: none exactly when no route of the table has it, and else the cell of
      all its routes in the order of the table. */
  lemma EndpointCellIsExact(t: Table, audience: string) returns (places: seq<nat>, spelled: seq<string>)
    ensures EndpointCell(t, audience).None? <==> forall i :: 0 <= i < |t.routes| ==> t.routes[i].audience != audience
    ensures Lists(places, PlacesOf(t.routes, audience)) && AreSpelledAt(spelled, t.routes, places)
    ensures EndpointCell(t, audience).Some? ==> EndpointCell(t, audience).value == Cells(spelled)
  {
    places := RoutesAreExact(t.routes, audience);
    spelled := RoutesOf(t.routes, audience);
    if spelled == [] {
      forall i | 0 <= i < |t.routes|
        ensures t.routes[i].audience != audience
      {
        assert i !in places;
      }
    } else {
      assert places[0] in places;
    }
  }

  // The script's literals, in pieces: the verifier unfolds a string literal character by character,
  // which is cheap for short ones only.
  const MARKER := "!-- relay-public-routes:"
  const BEGIN_REST := "begin (generated from " + "RELAY_PUBLIC_ROUTES) -->"
  const END_REST := "end -->"
  const BEGIN := "<" + (MARKER + BEGIN_REST)
  const END := "<" + (MARKER + END_REST)
  const INTRO_FIRST := "Routes in the same families " + "that take no token (public "
  const INTRO_SECOND := "reads, and requests that " + "authenticate themselves): "
  const INTRO := INTRO_FIRST + INTRO_SECOND

  function PublicLine(t: Table): string {
    INTRO + Cells(t.publicRoutes) + "."
  }

  /** The block: the sentence between its markers, with blank lines around it. */
  function PublicMarkers(t: Table): MarkedBlock.Markers {
    MarkedBlock.Markers(BEGIN, END, "\n\n" + PublicLine(t) + "\n\n")
  }

  /** No markup and no line end. */
  predicate IsPlain(s: string) {
    forall i :: 0 <= i < |s| ==> s[i] != '<' && !IsLineEnd(s[i])
  }

  const CELL_END := " |"

  predicate HasNoSeparator(s: string) {
    IndexOf(s, CELL_END, 0) == -1
  }

  /** Fit to be written as a cell: plain, and not ended early by a column separator. */
  predicate FitsCell(s: string) {
    IsPlain(s) && HasNoSeparator(s)
  }

  predicate IsPlainTable(t: Table) {
    && (forall i :: 0 <= i < |t.routes| ==> FitsCell(t.routes[i].spelled))
    && (forall i :: 0 <= i < |t.publicRoutes| ==> IsPlain(t.publicRoutes[i]))
  }

  lemma SeparatorAt(s: string, i: int)
    ensures OccursAt(s, CELL_END, i) <==> 0 <= i < |s| - 1 && s[i] == ' ' && s[i + 1] == '|'
  {
    if 0 <= i < |s| - 1 {
      assert s[i..i + 2] == [s[i], s[i + 1]];
    }
  }

  lemma SeparatorAcross(a: string, b: string)
    requires HasNoSeparator(a) && HasNoSeparator(b)
    requires a == "" || b == "" || a[|a| - 1] != ' ' || b[0] != '|'
    ensures HasNoSeparator(a + b)
  {
    var i := IndexOf(a + b, CELL_END, 0);
    SeparatorAt(a + b, i);
    SeparatorAt(a, i);
    SeparatorAt(b, i - |a|);
  }

  /** Quoting and joining brings no separator in. */
  lemma {:induction false} CellsHaveNoSeparator(spelled: seq<string>)
    requires forall i :: 0 <= i < |spelled| ==> HasNoSeparator(spelled[i])
    ensures HasNoSeparator(Cells(spelled))
  {
    if spelled != [] {
      SeparatorAcross(TICK, spelled[0]);
      SeparatorAcross(TICK + spelled[0], TICK);
      if |spelled| > 1 {
        CellsHaveNoSeparator(spelled[1..]);
        SeparatorAcross(", ", Cells(spelled[1..]));
        SeparatorAcross(TICK + spelled[0] + TICK, ", " + Cells(spelled[1..]));
      } else {
        assert Cells(spelled) == TICK + spelled[0] + TICK;
      }
    }
  }

  lemma {:induction false} CellsArePlain(spelled: seq<string>)
    requires forall i :: 0 <= i < |spelled| ==> IsPlain(spelled[i])
    ensures IsPlain(Cells(spelled))
    ensures spelled != [] ==> |Cells(spelled)| >= 2 && Cells(spelled)[0] == '`' == Cells(spelled)[|Cells(spelled)| - 1]
  {
    if |spelled| > 1 {
      CellsArePlain(spelled[1..]);
    }
  }

  lemma FirstQuoted(x: string, rest: string, y: string, rest': string)
    requires Lacks(x, '`') && Lacks(y, '`')
    requires TICK + x + TICK + rest == TICK + y + TICK + rest'
    ensures x == y && rest == rest'
  {
    var s := TICK + x + TICK + rest;
    assert s[1 + |x|] == '`' && s[1 + |y|] == '`';
    assert forall i :: 0 <= i < |x| ==> s[1 + i] == x[i];
    assert forall i :: 0 <= i < |y| ==> s[1 + i] == y[i];
    assert x == s[1..1 + |x|] && y == s[1..1 + |y|];
    assert rest == s[2 + |x|..] && rest' == s[2 + |y|..];
  }

  lemma SameTail(a: string, x: string, y: string)
    requires a + x == a + y
    ensures x == y
  {
    assert x == (a + x)[|a|..] && y == (a + y)[|a|..];
  }

  /** A cell names its routes: equal cells come from equal lists of routes. */
  lemma {:induction false} CellsAreInjective(xs: seq<string>, ys: seq<string>)
    requires forall i :: 0 <= i < |xs| ==> Lacks(xs[i], '`')
    requires forall i :: 0 <= i < |ys| ==> Lacks(ys[i], '`')
    requires Cells(xs) == Cells(ys)
    ensures xs == ys
  {
    if xs != [] && ys != [] {
      var rest := if |xs| == 1 then "" else ", " + Cells(xs[1..]);
      var rest' := if |ys| == 1 then "" else ", " + Cells(ys[1..]);
      FirstQuoted(xs[0], rest, ys[0], rest');
      if |xs| > 1 && |ys| > 1 {
        SameTail(", ", Cells(xs[1..]), Cells(ys[1..]));
        CellsAreInjective(xs[1..], ys[1..]);
        assert xs == [xs[0]] + xs[1..] && ys == [ys[0]] + ys[1..];
      }
    }
  }

  lemma {:induction false} RoutesFitCells(routes: seq<Route>, audience: string)
    requires forall i :: 0 <= i < |routes| ==> FitsCell(routes[i].spelled)
    ensures forall i :: 0 <= i < |RoutesOf(routes, audience)| ==> FitsCell(RoutesOf(routes, audience)[i])
  {
    if routes != [] {
      RoutesFitCells(routes[..|routes| - 1], audience);
    }
  }

  lemma EndpointCellFits(t: Table, audience: string)
    requires IsPlainTable(t) && EndpointCell(t, audience).Some?
    ensures var cell := EndpointCell(t, audience).value;
      FitsCell(cell) && Trim(cell) == cell
  {
    RoutesFitCells(t.routes, audience);
    CellsArePlain(RoutesOf(t.routes, audience));
    CellsHaveNoSeparator(RoutesOf(t.routes, audience));
  }

  // ----- Rows -----

  /** A row's audience, its endpoint cell as written, and what follows the cell's bar up to the last bar. */
  datatype Row = Row(audience: string, cell: string, rest: string)

  const ROW_START := "| `"
  const CELL_START := "| "

  /** `ROW`: a line `| ‘audience’ | cell |rest|`, the cell as short as possible. */
  function ParseRow(line: string): Option<Row> {
    if !(ROW_START <= line) then None else
    var tick := IndexOf(line, TICK, |ROW_START|);
    if tick <= |ROW_START| then None else
    ParseCells(line[|ROW_START|..tick], TrimLeft(line[tick + 1..]))
  }

  /** The part of a row after its audience and the white space behind it. */
  function ParseCells(audience: string, t: string): Option<Row> {
    if !(CELL_START <= t) then None else
    var body := t[|CELL_START|..];
    var bar := IndexOf(body, CELL_END, 0);
    if bar == -1 then None else
    var tail := TrimRight(body[bar + |CELL_END|..]);
    if tail == "" || tail[|tail| - 1] != '|' then None else
    var row := Row(audience, body[..bar], tail[..|tail| - 1]);
    if IsDotText(row.cell) && IsDotText(row.rest) then Some(row) else None
  }

  function WriteRow(row: Row): string {
    ROW_START + row.audience + TICK + (" " + (CELL_START + (row.cell + CELL_END + row.rest + "|")))
  }

  predicate IsWritable(row: Row) {
    && row.audience != "" && Lacks(row.audience, '`')
    && IsDotText(row.cell) && IsDotText(row.rest)
  }

  /** A written row reads back as itself exactly when its cell holds no column separator. */
  lemma RowRoundTripIsExact(row: Row)
    requires IsWritable(row)
    ensures ParseRow(WriteRow(row)) == Some(row) <==> HasNoSeparator(row.cell)
  {
    var body := row.cell + CELL_END + row.rest + "|";
    var t := CELL_START + body;
    AudienceReadsBack(row.audience, " " + t);
    SpaceIsTrimmed(t);
    if HasNoSeparator(row.cell) {
      CellsReadBack(row);
    } else {
      CellsReadShort(row);
    }
  }

  /** A separator inside the cell ends it early. */
  lemma CellsReadShort(row: Row)
    requires !HasNoSeparator(row.cell)
    ensures var r := ParseCells(row.audience, CELL_START + (row.cell + CELL_END + row.rest + "|"));
      r.Some? ==> |r.value.cell| < |row.cell|
  {
    var body := row.cell + CELL_END + row.rest + "|";
    assert (CELL_START + body)[|CELL_START|..] == body;
    var k := IndexOf(row.cell, CELL_END, 0);
    assert OccursAt(body, CELL_END, k) by {
      assert body[k..k + 2] == row.cell[k..k + 2];
    }
  }

  lemma SpaceIsTrimmed(t: string)
    requires t != "" && !IsSpace(t[0])
    ensures TrimLeft(" " + t) == t
  {
    assert (" " + t)[1..] == t;
  }

  lemma AudienceReadsBack(audience: string, after: string)
    requires audience != "" && Lacks(audience, '`')
    ensures var line := ROW_START + audience + TICK + after;
      && ROW_START <= line && IndexOf(line, TICK, |ROW_START|) == |ROW_START| + |audience|
      && line[|ROW_START|..|ROW_START| + |audience|] == audience
      && line[|ROW_START| + |audience| + 1..] == after
  {
    var line := ROW_START + audience + TICK + after;
    var at := |ROW_START| + |audience|;
    assert OccursAt(line, TICK, at) by {
      assert line[at..at + 1] == TICK;
    }
    forall i | |ROW_START| <= i < at
      ensures !OccursAt(line, TICK, i)
    {
      assert line[i] == audience[i - |ROW_START|];
      assert line[i..i + 1][0] == line[i];
    }
    assert IndexOf(line, TICK, |ROW_START|) == at;
  }

  /** The first separator after a cell that holds none is the one that ends the cell. */
  lemma SeparatorEndsTheCell(cell: string, after: string)
    requires HasNoSeparator(cell)
    ensures IndexOf(cell + CELL_END + after, CELL_END, 0) == |cell|
  {
    hide OccursAt;
    var body, at := cell + CELL_END + after, |cell|;
    SeparatorAt(body, at);
    forall i | 0 <= i < at
      ensures !OccursAt(body, CELL_END, i)
    {
      SeparatorAt(body, i);
      SeparatorAt(cell, i);
    }
  }

  lemma CellsReadBack(row: Row)
    requires IsWritable(row) && HasNoSeparator(row.cell)
    ensures ParseCells(row.audience, CELL_START + (row.cell + CELL_END + row.rest + "|")) == Some(row)
  {
    hide HasNoSeparator, OccursAt, IndexOf, TrimRight, IsDotText;
    var tail := row.rest + "|";
    var body := row.cell + CELL_END + row.rest + "|";
    var at := |row.cell|;
    assert body == row.cell + CELL_END + tail;
    SeparatorEndsTheCell(row.cell, tail);
    assert (CELL_START + body)[|CELL_START|..] == body;
    assert body[..at] == row.cell && body[at + |CELL_END|..] == tail;
    assert TrimRight(tail) == tail && tail[..|row.rest|] == row.rest;
  }

  lemma AudienceIsQuoted(line: string, tick: nat)
    requires ROW_START <= line && tick == IndexOf(line, TICK, |ROW_START|) && tick > |ROW_START|
    ensures tick < |line| && Lacks(line[|ROW_START|..tick], '`')
    ensures Lacks(line, NEWLINE) ==> Lacks(line[|ROW_START|..tick], NEWLINE)
  {
    var audience := line[|ROW_START|..tick];
    forall i | 0 <= i < |audience|
      ensures audience[i] != '`'
    {
      TickAt(line, |ROW_START| + i);
    }
    TickAt(line, tick);
  }

  lemma TickAt(line: string, i: nat)
    requires i < |line|
    ensures OccursAt(line, TICK, i) <==> line[i] == '`'
  {
    assert line[i..i + 1] == [line[i]];
  }

  lemma ParsedCells(audience: string, t: string)
    requires ParseCells(audience, t).Some?
    ensures var row := ParseCells(audience, t).value;
      row.audience == audience && IsDotText(row.rest)
    ensures t != "" && (IsSpace(t[|t| - 1]) || t[|t| - 1] == '|')
  {
  }

  lemma RowComesFromCells(line: string) returns (audience: string, t: string)
    requires ParseRow(line).Some?
    ensures ParseRow(line) == ParseCells(audience, t)
    ensures audience != "" && Lacks(audience, '`') && (Lacks(line, NEWLINE) ==> Lacks(audience, NEWLINE))
    ensures line != "" && line[0] == ROW_START[0] && (t != "" ==> t[|t| - 1] == line[|line| - 1])
  {
    hide ParseCells, TrimLeft, IndexOf;
    var tick := IndexOf(line, TICK, |ROW_START|);
    audience, t := line[|ROW_START|..tick], TrimLeft(line[tick + 1..]);
    AudienceIsQuoted(line, tick);
    TrimLeftKeepsTheEnd(line[tick + 1..]);
  }

  /** What a line that parses as a row is like. */
  lemma ParsedRow(line: string)
    requires ParseRow(line).Some?
    ensures var row := ParseRow(line).value;
      row.audience != "" && Lacks(row.audience, '`') && IsDotText(row.rest)
    ensures Lacks(line, NEWLINE) ==> Lacks(ParseRow(line).value.audience, NEWLINE)
  {
    var audience, t := RowComesFromCells(line);
    ParsedCells(audience, t);
  }

  /** A row's line starts with a bar and ends, but for white space, in one. */
  lemma RowsAreBarred(line: string)
    requires ParseRow(line).Some?
    ensures line != "" && line[0] == '|' && (IsSpace(line[|line| - 1]) || line[|line| - 1] == '|')
  {
    var audience, t := RowComesFromCells(line);
    ParsedCells(audience, t);
  }

  // ----- One line -----

  /** The line is a row of a verified audience whose cell is not the table's. */
  predicate IsStale(t: Table, line: string) {
    var row := ParseRow(line);
    && row.Some? && row.value.audience in t.audiences
    && EndpointCell(t, row.value.audience).Some?
    && Trim(row.value.cell) != EndpointCell(t, row.value.audience).value
  }

  function RewriteLine(t: Table, line: string): string {
    if IsStale(t, line) then
      var row := ParseRow(line).value;
      WriteRow(row.(cell := EndpointCell(t, row.audience).value))
    else line
  }

  lemma WrittenRowIsCurrent(t: Table, row: Row)
    requires row.audience != "" && Lacks(row.audience, '`') && Lacks(row.audience, NEWLINE) && IsDotText(row.rest)
    requires EndpointCell(t, row.audience) == Some(row.cell) && FitsCell(row.cell) && Trim(row.cell) == row.cell
    ensures !IsStale(t, WriteRow(row)) && Lacks(WriteRow(row), NEWLINE)
  {
    RowRoundTripIsExact(row);
    WrittenRowIsOneLine(row);
  }

  lemma WrittenRowIsOneLine(row: Row)
    requires Lacks(row.audience, NEWLINE) && IsDotText(row.cell) && IsDotText(row.rest)
    ensures Lacks(WriteRow(row), NEWLINE)
  {
    var body := row.cell + CELL_END + row.rest + "|";
    assert Lacks(body, NEWLINE);
    assert Lacks(CELL_START + body, NEWLINE);
    assert Lacks(" " + (CELL_START + body), NEWLINE);
    assert Lacks(ROW_START + row.audience + TICK, NEWLINE);
  }

  /** A rewritten line is current, and still one line. */
  lemma RewrittenLineIsCurrent(t: Table, line: string)
    requires IsPlainTable(t) && Lacks(line, NEWLINE)
    ensures !IsStale(t, RewriteLine(t, line)) && Lacks(RewriteLine(t, line), NEWLINE)
  {
    if IsStale(t, line) {
      ParsedRow(line);
      var row := ParseRow(line).value;
      EndpointCellFits(t, row.audience);
      WrittenRowIsCurrent(t, row.(cell := EndpointCell(t, row.audience).value));
    }
  }

  function RewriteLines(t: Table, lines: seq<string>): (out: seq<string>)
    ensures |out| == |lines|
    ensures forall i :: 0 <= i < |lines| ==> out[i] == RewriteLine(t, lines[i])
  {
    seq(|lines|, i requires 0 <= i < |lines| => RewriteLine(t, lines[i]))
  }

  predicate AllCurrent(t: Table, lines: seq<string>) {
    forall i :: 0 <= i < |lines| ==> !IsStale(t, lines[i])
  }

  /** The text with its rows brought up to date. */
  function RowsWritten(t: Table, text: string): string {
    Join(RewriteLines(t, Split(text)))
  }

  /** What `--write-spec` leaves in the file. */
  function Written(t: Table, text: string): string {
    MarkedBlock.Rewrite(PublicMarkers(t), RowsWritten(t, text))
  }

  lemma RowsWrittenAreCurrent(t: Table, text: string)
    requires IsPlainTable(t)
    ensures Split(RowsWritten(t, text)) == RewriteLines(t, Split(text))
    ensures AllCurrent(t, Split(RowsWritten(t, text)))
  {
    var lines := Split(text);
    SplitGivesLines(text);
    forall i | 0 <= i < |lines|
      ensures !IsStale(t, RewriteLine(t, lines[i])) && Lacks(RewriteLine(t, lines[i]), NEWLINE)
    {
      RewrittenLineIsCurrent(t, lines[i]);
    }
    SplitJoin(RewriteLines(t, lines));
  }

  // ----- Where the markers are -----

  lemma PlainConcat(a: string, b: string)
    requires IsPlain(a) && IsPlain(b)
    ensures IsPlain(a + b)
  {
  }

  /** Plain, and without the characters that separate the parts of a row. */
  predicate IsMarkText(s: string) {
    forall i :: 0 <= i < |s| ==> s[i] != '<' && s[i] != '`' && s[i] != '|' && !IsLineEnd(s[i])
  }

  lemma MarkConcat(a: string, b: string)
    requires IsMarkText(a) && IsMarkText(b)
    ensures IsMarkText(a + b)
  {
  }

  lemma BeginIsMarkText()
    ensures IsMarkText(BEGIN_REST)
  {
    assert IsMarkText("begin (generated from ");
    assert IsMarkText("RELAY_PUBLIC_ROUTES) -->");
  }

  lemma EndIsMarkText()
    ensures IsMarkText(MARKER) && IsMarkText(END_REST)
  {
  }

  // One lemma for each piece of the sentence, so that no proof unfolds two of them.

  lemma FirstIntroIsPlain()
    ensures IsPlain("Routes in the same families ")
  {
  }

  lemma SecondIntroIsPlain()
    ensures IsPlain("that take no token (public ")
  {
  }

  lemma ThirdIntroIsPlain()
    ensures IsPlain("reads, and requests that ")
  {
  }

  lemma FourthIntroIsPlain()
    ensures IsPlain("authenticate themselves): ")
  {
  }

  lemma IntroIsPlain()
    ensures IsPlain(INTRO_FIRST) && IsPlain(INTRO_SECOND)
  {
    FirstIntroIsPlain();
    SecondIntroIsPlain();
    PlainConcat("Routes in the same families ", "that take no token (public ");
    ThirdIntroIsPlain();
    FourthIntroIsPlain();
    PlainConcat("reads, and requests that ", "authenticate themselves): ");
  }

  lemma PublicLineIsPlain(t: Table)
    requires IsPlainTable(t)
    ensures IsPlain(PublicLine(t)) && PublicLine(t)[0] == 'R'
  {
    IntroIsPlain();
    PlainConcat(INTRO_FIRST, INTRO_SECOND);
    CellsArePlain(t.publicRoutes);
    PlainConcat(INTRO, Cells(t.publicRoutes));
    PlainConcat(INTRO + Cells(t.publicRoutes), ".");
    assert INTRO_FIRST[0] == 'R';
  }

  /** A marker opens with its only markup character. */
  lemma MarkersStartWithMarkup()
    ensures IsMarkText(BEGIN[1..]) && IsMarkText(END[1..]) && |END| <= |BEGIN|
    ensures BEGIN[0] == '<' == END[0]
    ensures BEGIN[..|END|] != END
  {
    BeginIsMarkText();
    EndIsMarkText();
    MarkConcat(MARKER, BEGIN_REST);
    MarkConcat(MARKER, END_REST);
    assert BEGIN[1..] == MARKER + BEGIN_REST && END[1..] == MARKER + END_REST;
    assert BEGIN[1 + |MARKER|] == 'b' && END[1 + |MARKER|] == 'e';
  }

  lemma PublicMarkersAreProper(t: Table)
    requires IsPlainTable(t)
    ensures MarkedBlock.AreProper(PublicMarkers(t))
  {
    MarkersStartWithMarkup();
    PublicLineIsPlain(t);
    assert forall i :: 0 < i < |BEGIN| ==> BEGIN[i] == BEGIN[1..][i - 1];
    assert forall i :: 0 < i < |END| ==> END[i] == END[1..][i - 1];
  }

  // ----- The lines of the written text -----

  lemma BlockLines(t: Table)
    requires IsPlainTable(t)
    ensures Split(MarkedBlock.Block(PublicMarkers(t))) == [BEGIN, "", PublicLine(t), "", END]
  {
    MarkersStartWithMarkup();
    PublicLineIsPlain(t);
    var lines := [BEGIN, "", PublicLine(t), "", END];
    assert BEGIN == [BEGIN[0]] + BEGIN[1..] && END == [END[0]] + END[1..];
    assert AreLines(lines);
    JoinFive(BEGIN, PublicLine(t), END);
    SplitJoin(lines);
  }

  lemma JoinFive(a: string, b: string, c: string)
    ensures Join([a, "", b, "", c]) == a + ("\n\n" + b + "\n\n") + c
  {
    assert [a, "", b, "", c][1..] == ["", b, "", c];
    assert ["", b, "", c][1..] == [b, "", c];
    assert [b, "", c][1..] == ["", c];
    assert ["", c][1..] == [c];
    assert Join(["", c]) == "\n" + c;
    assert Join([b, "", c]) == b + "\n\n" + c;
    assert Join(["", b, "", c]) == "\n" + b + "\n\n" + c;
  }

  /** Lines that are not rows are never stale. */
  lemma NotARow(t: Table, line: string)
    requires line == "" || line[0] != '|' || line[|line| - 1] == '>'
    ensures !IsStale(t, line)
  {
    if ParseRow(line).Some? {
      RowsAreBarred(line);
    }
  }

  lemma MarkersCloseAngled()
    ensures BEGIN[|BEGIN| - 1] == '>' && END[0] == '<' && BEGIN[0] == '<'
  {
  }

  /** Putting the block into a text without stale rows makes no row stale. */
  lemma PutBlockKeepsRowsCurrent(t: Table, text: string)
    requires IsPlainTable(t) && AllCurrent(t, Split(text)) && MarkedBlock.HasMarkers(PublicMarkers(t), text)
    ensures AllCurrent(t, Split(MarkedBlock.PutBlock(PublicMarkers(t), text)))
  {
    hide IsStale, IsPlainTable, AllCurrent, PublicMarkers, Split, MarkedBlock.Block;
    var m := PublicMarkers(t);
    var b, e := IndexOf(text, m.begin, 0), IndexOf(text, m.end, 0) + |m.end|;
    assert text[..b] + text[b..] == text && text[..e] + text[e..] == text;
    BlockKeepsRowsCurrent(t, text[..b], text[b..], text[..e], text[e..]);
  }

  /** The same for the block between any start and any end of a text. */
  lemma BlockKeepsRowsCurrent(t: Table, pre: string, rest: string, head: string, post: string)
    requires IsPlainTable(t) && pre + rest == head + post && AllCurrent(t, Split(pre + rest))
    ensures AllCurrent(t, Split(pre + MarkedBlock.Block(PublicMarkers(t)) + post))
  {
    hide IsStale, IsPlainTable, PublicMarkers, PublicLine, Split, IsBlockLine, MarkedBlock.Block;
    forall line | line in Split(pre + MarkedBlock.Block(PublicMarkers(t)) + post)
      ensures !IsStale(t, line)
    {
      LineOfPutBlock(t, pre, rest, head, post, line);
      if line in Split(pre + rest) {
        var i :| 0 <= i < |Split(pre + rest)| && Split(pre + rest)[i] == line;
      } else {
        BlockLineIsNoRow(t, line);
      }
    }
  }

  /** The line opens or closes the block, or is one of its own. */
  ghost predicate IsBlockLine(t: Table, line: string) {
    || (exists p: string :: line == p + BEGIN)
    || line == "" || line == PublicLine(t)
    || (exists q: string :: line == END + q)
  }

  /** A line of `pre`, the block and `post` is a line of the text they came from, or of the block. */
  lemma LineOfPutBlock(t: Table, pre: string, rest: string, head: string, post: string, line: string)
    requires IsPlainTable(t) && pre + rest == head + post
    requires line in Split(pre + MarkedBlock.Block(PublicMarkers(t)) + post)
    ensures line in Split(pre + rest) || IsBlockLine(t, line)
  {
    BlockLines(t);
    LinesAroundFive(pre, MarkedBlock.Block(PublicMarkers(t)), [BEGIN, "", PublicLine(t), "", END], post, line);
    if line in Inner(Split(pre)) {
      LinesOfParts(pre, rest, line);
    } else if line in Split(post)[1..] {
      LinesOfParts(head, post, line);
    }
  }

  lemma BlockLineIsNoRow(t: Table, line: string)
    requires IsPlainTable(t) && IsBlockLine(t, line)
    ensures !IsStale(t, line)
  {
    MarkersCloseAngled();
    PublicLineIsPlain(t);
    NotARow(t, line);
  }

  // ----- The check as the script runs it -----

  datatype Violation =
    | EndpointsDiffer(line: nat)
    | NamesRelayPath(line: nat)
    | MissingRow(audience: string)
    | MarkersMissing
    | PublicBlockDiffers

  const RELAY_PATHS := ["/api/", "/agent/", "/sync/", "/ws/", "/pairing/"]

  predicate NamesPath(cell: string) {
    exists i :: 0 <= i < |RELAY_PATHS| && IndexOf(cell, RELAY_PATHS[i], 0) != -1
  }

  /** The line is a row of an audience the relay never verifies, and names a relay path. */
  predicate IsMisplaced(t: Table, line: string) {
    var row := ParseRow(line);
    && row.Some? && row.value.audience in t.audiences
    && EndpointCell(t, row.value.audience).None? && NamesPath(Trim(row.value.cell))
  }

  /** What the row loop decides about one line. */
  datatype LineFacts = LineFacts(kept: string, stale: bool, misplaced: bool, audience: Option<string>)

  function FactsOf(t: Table, line: string): LineFacts {
    LineFacts(RewriteLine(t, line), IsStale(t, line), IsMisplaced(t, line), KnownAudience(t, line))
  }

  /** The audience of a row, if the registry knows it. */
  function KnownAudience(t: Table, line: string): Option<string> {
    var row := ParseRow(line);
    if row.Some? && row.value.audience in t.audiences then Some(row.value.audience) else None
  }

  /** What lines earn, given what is decided about each: a stale line is reported unless it is
      rewritten, a misplaced one always. */
  predicate Earned(factsOf: string -> LineFacts, lines: seq<string>, write: bool, v: Violation) {
    match v
    case EndpointsDiffer(n) => !write && 1 <= n <= |lines| && factsOf(lines[n - 1]).stale
    case NamesRelayPath(n) => 1 <= n <= |lines| && factsOf(lines[n - 1]).misplaced
    case _ => false
  }

  lemma EarnedByOneMore(factsOf: string -> LineFacts, lines: seq<string>, line: string, write: bool)
    ensures forall v :: Earned(factsOf, lines + [line], write, v) <==>
      || Earned(factsOf, lines, write, v)
      || (!write && factsOf(line).stale && v == EndpointsDiffer(|lines| + 1))
      || (factsOf(line).misplaced && v == NamesRelayPath(|lines| + 1))
  {
  }

  /** The row loop: in write mode stale lines are rewritten in place, else they are reported. What
      it decides about a line is a function of that line. */
  method CheckRows(factsOf: string -> LineFacts, original: seq<string>, write: bool)
    returns (lines: seq<string>, violations: seq<Violation>, seen: set<string>)
    requires forall l :: !factsOf(l).stale ==> factsOf(l).kept == l
    ensures |lines| == |original|
    ensures forall i :: 0 <= i < |lines| ==> lines[i] == if write then factsOf(original[i]).kept else original[i]
    ensures forall v :: v in violations <==> Earned(factsOf, original, write, v)
    ensures forall a :: a in seen <==> exists i :: 0 <= i < |original| && factsOf(original[i]).audience == Some(a)
  {
    lines, violations, seen := original, [], {};
    for i := 0 to |original|
      invariant |lines| == |original|
      invariant forall j :: 0 <= j < |lines| ==>
        lines[j] == if write && j < i then factsOf(original[j]).kept else original[j]
      invariant forall v :: v in violations <==> Earned(factsOf, original[..i], write, v)
      invariant forall a :: a in seen <==> exists j :: 0 <= j < i && factsOf(original[j]).audience == Some(a)
    {
      var fact := factsOf(lines[i]);
      if fact.audience.Some? {
        seen := seen + {fact.audience.value};
      }
      if fact.stale && write {
        lines := lines[i := fact.kept];
      }
      violations := ReportRow(fact, i + 1, write, violations);
      EarnedByOneMore(factsOf, original[..i], original[i], write);
      assert original[..i + 1] == original[..i] + [original[i]];
    }
    assert original[..|original|] == original;
  }

  method ReportRow(fact: LineFacts, n: nat, write: bool, before: seq<Violation>) returns (violations: seq<Violation>)
    ensures forall v :: v in violations <==>
      || v in before
      || (!write && fact.stale && v == EndpointsDiffer(n))
      || (fact.misplaced && v == NamesRelayPath(n))
  {
    violations := before;
    if fact.stale && !write {
      violations := violations + [EndpointsDiffer(n)];
    }
    if fact.misplaced {
      violations := violations + [NamesRelayPath(n)];
    }
  }

  method CheckTextRows(t: Table, text: string, write: bool)
    returns (out: string, violations: seq<Violation>, seen: set<string>)
    ensures out == if write then RowsWritten(t, text) else text
    ensures forall v :: v in violations <==> Earned(line => FactsOf(t, line), Split(text), write, v)
    ensures forall a :: a in seen <==> exists i :: 0 <= i < |Split(text)| && KnownAudience(t, Split(text)[i]) == Some(a)
  {
    var lines;
    lines, violations, seen := CheckRows(line => FactsOf(t, line), Split(text), write);
    assert lines == if write then RewriteLines(t, Split(text)) else Split(text);
    JoinSplit(text);
    out := Join(lines);
  }

  /** An audience of the table has no row in the text. */
  ghost predicate IsMissing(t: Table, text: string, v: Violation) {
    && v.MissingRow?
    && (exists i :: 0 <= i < |t.routes| && t.routes[i].audience == v.audience)
    && forall i :: 0 <= i < |Split(text)| ==> KnownAudience(t, Split(text)[i]) != Some(v.audience)
  }

  /** What the check reports: what the rows earn, the missing rows, and what the block earns once
      the rows are as the mode leaves them. */
  ghost predicate IsReported(t: Table, text: string, write: bool, v: Violation) {
    || Earned(line => FactsOf(t, line), Split(text), write, v)
    || IsMissing(t, text, v)
    || v in BlockViolations(PublicMarkers(t), if write then RowsWritten(t, text) else text, write)
  }

  /** The whole check. With `write` the file becomes `Written` and what remains to report is what a
      write cannot mend; without, the file is untouched and stale rows and a stale block are reported. */
  method CheckSpec(t: Table, text: string, write: bool) returns (violations: seq<Violation>, out: string)
    ensures out == if write then Written(t, text) else text
    ensures forall v :: v in violations <==> IsReported(t, text, write, v)
  {
    var rows, seen;
    rows, violations, seen := CheckTextRows(t, text, write);
    var missing := MissingRows(t.routes, seen);
    var block;
    block, out := CheckBlock(PublicMarkers(t), rows, write);
    violations := violations + missing + block;
  }

  function BlockViolations(m: MarkedBlock.Markers, text: string, write: bool): seq<Violation> {
    if !MarkedBlock.HasMarkers(m, text) then [MarkersMissing]
    else if !write && MarkedBlock.IsStale(m, text) then [PublicBlockDiffers]
    else []
  }

  method CheckBlock(m: MarkedBlock.Markers, text: string, write: bool) returns (violations: seq<Violation>, out: string)
    ensures out == if write then MarkedBlock.Rewrite(m, text) else text
    ensures violations == BlockViolations(m, text, write)
  {
    violations, out := [], text;
    if !MarkedBlock.HasMarkers(m, text) {
      violations := [MarkersMissing];
    } else if MarkedBlock.IsStale(m, text) {
      if write {
        out := MarkedBlock.PutBlock(m, text);
      } else {
        violations := [PublicBlockDiffers];
      }
    }
  }

  /** Every audience of the table needs a row. */
  method MissingRows(routes: seq<Route>, seen: set<string>) returns (violations: seq<Violation>)
    ensures forall v :: v in violations <==>
      v.MissingRow? && v.audience !in seen && exists i :: 0 <= i < |routes| && routes[i].audience == v.audience
  {
    violations := [];
    var done: set<string> := {};
    for i := 0 to |routes|
      invariant forall a :: a in done <==> exists j :: 0 <= j < i && routes[j].audience == a
      invariant forall v :: v in violations <==>
        v.MissingRow? && v.audience !in seen && v.audience in done
    {
      var a := routes[i].audience;
      if a !in done && a !in seen {
        violations := violations + [MissingRow(a)];
      }
      done := done + {a};
    }
  }
}
