/** Which lines are rows of the specification's table: the reader finds exactly what the pattern
  `ROW` of scripts/check-audience-route-parity.ts matches, with the shortest cell. */
module SpecRows {
  import opened Options
  import opened Text
  import opened SpecTable

  // ----- Trimming -----

  lemma {:induction false} TrimLeftDropsSpace(s: string) returns (space: string)
    ensures s == space + TrimLeft(s) && IsAllSpace(space)
    ensures TrimLeft(s) != "" ==> !IsSpace(TrimLeft(s)[0])
  {
    hide IsSpace;
    space := "";
    if s != "" && IsSpace(s[0]) {
      var more := TrimLeftDropsSpace(s[1..]);
      space := [s[0]] + more;
    }
  }

  lemma {:induction false} TrimRightDropsSpace(s: string) returns (space: string)
    ensures s == TrimRight(s) + space && IsAllSpace(space)
  {
    hide IsSpace;
    space := "";
    if s != "" && IsSpace(s[|s| - 1]) {
      var n := |s| - 1;
      var more := TrimRightDropsSpace(s[..n]);
      space := more + [s[n]];
      assert TrimRight(s) == TrimRight(s[..n]) && s == s[..n] + [s[n]];
    }
  }

  /** Trimming drops white space at both ends, all of it and nothing else. */
  lemma TrimIsExact(s: string) returns (before: string, after: string)
    ensures s == before + Trim(s) + after && IsAllSpace(before) && IsAllSpace(after)
    ensures Trim(s) != "" ==> !IsSpace(Trim(s)[0]) && !IsSpace(Trim(s)[|Trim(s)| - 1])
  {
    hide IsSpace, TrimLeft, TrimRight;
    before := TrimLeftDropsSpace(s);
    after := TrimRightDropsSpace(TrimLeft(s));
    assert Trim(s) != "" ==> Trim(s)[0] == TrimLeft(s)[0];
  }

  lemma {:induction false} TrimLeftOf(space: string, t: string)
    requires IsAllSpace(space) && t != "" && !IsSpace(t[0])
    ensures TrimLeft(space + t) == t
  {
    hide IsSpace;
    if space == "" {
      assert space + t == t;
    } else {
      assert (space + t)[1..] == space[1..] + t;
      TrimLeftOf(space[1..], t);
    }
  }

  lemma {:induction false} TrimRightOf(t: string, space: string)
    requires IsAllSpace(space) && t != "" && !IsSpace(t[|t| - 1])
    ensures TrimRight(t + space) == t
  {
    hide IsSpace;
    if space == "" {
      assert t + space == t;
    } else {
      var n := |space| - 1;
      assert (t + space)[..|t + space| - 1] == t + space[..n];
      TrimRightOf(t, space[..n]);
    }
  }

  // ----- A row read is a match -----

  /** The line matches the pattern with these groups; `gap` and `space` are the white space after
      the audience and at the end. */
  ghost predicate IsMatch(line: string, row: Row, gap: string, space: string) {
    && line == ROW_START + row.audience + TICK + (gap + (CELL_START + (row.cell + CELL_END + row.rest + "|" + space)))
    && row.audience != "" && Lacks(row.audience, '`')
    && IsAllSpace(gap) && IsAllSpace(space) && IsDotText(row.cell) && IsDotText(row.rest)
  }

  lemma CutAt(s: string, needle: string, i: int)
    requires OccursAt(s, needle, i)
    ensures s == s[..i] + needle + s[i + |needle|..]
  {
  }

  lemma LastIsBar(s: string)
    requires s != "" && s[|s| - 1] == '|'
    ensures s == s[..|s| - 1] + "|"
  {
  }

  lemma PartsOfCells(audience: string, t: string) returns (tail: string)
    requires ParseCells(audience, t).Some?
    ensures var row := ParseCells(audience, t).value;
      && row.audience == audience && t == CELL_START + (row.cell + CELL_END + tail)
      && TrimRight(tail) == row.rest + "|" && IsDotText(row.cell) && IsDotText(row.rest)
  {
    hide IsDotText, IndexOf, TrimRight;
    var body := t[|CELL_START|..];
    var bar := IndexOf(body, CELL_END, 0);
    tail := body[bar + |CELL_END|..];
    CutAt(body, CELL_END, bar);
    LastIsBar(TrimRight(tail));
  }

  lemma PartsOfRow(line: string) returns (after: string, tail: string)
    requires ParseRow(line).Some?
    ensures var row := ParseRow(line).value;
      && line == ROW_START + row.audience + TICK + after
      && TrimLeft(after) == CELL_START + (row.cell + CELL_END + tail)
      && TrimRight(tail) == row.rest + "|" && IsDotText(row.cell) && IsDotText(row.rest)
  {
    hide ParseCells, TrimLeft, TrimRight, IsDotText;
    var tick := IndexOf(line, TICK, |ROW_START|);
    after := line[tick + 1..];
    tail := PartsOfCells(line[|ROW_START|..tick], TrimLeft(after));
    assert line == ROW_START + line[|ROW_START|..tick] + TICK + after;
  }

  lemma RowIsAMatch(line: string) returns (gap: string, space: string)
    requires ParseRow(line).Some?
    ensures IsMatch(line, ParseRow(line).value, gap, space)
  {
    hide ParseRow, TrimLeft, TrimRight, IsAllSpace, IsDotText;
    var row := ParseRow(line).value;
    var after, tail := PartsOfRow(line);
    gap := TrimLeftDropsSpace(after);
    space := TrimRightDropsSpace(tail);
    ParsedRow(line);
    assert row.cell + CELL_END + tail == row.cell + CELL_END + row.rest + "|" + space;
  }

  /** What is written in place of a stale row. */
  lemma WrittenRowIsAMatch(row: Row)
    requires row.audience != "" && Lacks(row.audience, '`') && IsDotText(row.cell) && IsDotText(row.rest)
    ensures WriteRow(row) == "| `" + row.audience + "` | " + row.cell + " |" + row.rest + "|"
    ensures IsMatch(WriteRow(row), row, " ", "")
  {
    hide IsDotText;
    assert row.cell + CELL_END + row.rest + "|" + "" == row.cell + CELL_END + row.rest + "|";
  }

  // ----- Every match is read, with the shortest cell -----

  /** The first separator of a cell, its end and more is within the cell or the end itself. */
  lemma FirstSeparator(cell: string, rest: string) returns (bar: nat, more: string)
    requires IsDotText(cell) && IsDotText(rest)
    ensures var body := cell + CELL_END + rest;
      && IndexOf(body, CELL_END, 0) == bar && bar <= |cell| && body == cell[..bar] + CELL_END + more
      && IsDotText(more) && IsDotText(cell[..bar])
  {
    var body := cell + CELL_END + rest;
    SeparatorAt(body, |cell|);
    bar := IndexOf(body, CELL_END, 0);
    SeparatorAt(body, bar);
    more := body[bar + |CELL_END|..];
    CutAt(body, CELL_END, bar);
    assert body[..bar] == cell[..bar];
    assert IsDotText(body);
  }

  lemma BodyIsRead(audience: string, body: string, bar: nat, cell: string, more: string, space: string)
    requires body == cell + CELL_END + (more + "|" + space) && bar == |cell| == IndexOf(body, CELL_END, 0)
    requires IsDotText(cell) && IsDotText(more) && IsAllSpace(space)
    ensures ParseCells(audience, CELL_START + body) == Some(Row(audience, cell, more))
  {
    hide IndexOf, TrimRight, IsDotText, IsAllSpace;
    var tail := more + "|";
    assert (CELL_START + body)[|CELL_START|..] == body;
    assert body[..bar] == cell && body[bar + |CELL_END|..] == tail + space;
    TrimRightOf(tail, space);
    assert tail[..|tail| - 1] == more;
  }

  /** A later ending does not move the first separator. */
  lemma SeparatorStays(body: string, after: string, bar: nat)
    requires IndexOf(body, CELL_END, 0) == bar
    ensures IndexOf(body + after, CELL_END, 0) == bar
  {
    hide OccursAt;
    SeparatorAt(body, bar);
    SeparatorAt(body + after, bar);
    forall i | 0 <= i < bar
      ensures !OccursAt(body + after, CELL_END, i)
    {
      SeparatorAt(body, i);
      SeparatorAt(body + after, i);
    }
  }

  lemma CellsAreRead(audience: string, cell: string, rest: string, space: string)
    requires IsDotText(cell) && IsDotText(rest) && IsAllSpace(space)
    ensures var r := ParseCells(audience, CELL_START + (cell + CELL_END + rest + "|" + space));
      r.Some? && r.value.audience == audience && |r.value.cell| <= |cell|
  {
    hide IndexOf, IsDotText, IsAllSpace, ParseCells;
    var body := cell + CELL_END + rest;
    var bar, more := FirstSeparator(cell, rest);
    SeparatorStays(body, "|" + space, bar);
    var all := cell + CELL_END + rest + "|" + space;
    assert all == body + ("|" + space);
    assert all == cell[..bar] + CELL_END + (more + "|" + space);
    BodyIsRead(audience, all, bar, cell[..bar], more, space);
  }

  lemma MatchIsRead(line: string, row: Row, gap: string, space: string)
    requires IsMatch(line, row, gap, space)
    ensures ParseRow(line).Some? && ParseRow(line).value.audience == row.audience
    ensures |ParseRow(line).value.cell| <= |row.cell|
  {
    hide ParseCells, TrimLeft, IsAllSpace, IsDotText, IndexOf;
    var t := CELL_START + (row.cell + CELL_END + row.rest + "|" + space);
    AudienceReadsBack(row.audience, gap + t);
    TrimLeftOf(gap, t);
    CellsAreRead(row.audience, row.cell, row.rest, space);
  }

  /** A match whose cell holds no separator is the row read. */
  lemma PlainMatchIsTheRow(line: string, row: Row, gap: string, space: string)
    requires IsMatch(line, row, gap, space) && HasNoSeparator(row.cell)
    ensures ParseRow(line) == Some(row)
  {
    hide ParseCells, TrimLeft, IsAllSpace, IsDotText, IndexOf, HasNoSeparator;
    var body := row.cell + CELL_END + row.rest + "|" + space;
    var t := CELL_START + body;
    AudienceReadsBack(row.audience, gap + t);
    TrimLeftOf(gap, t);
    assert body == row.cell + CELL_END + (row.rest + "|" + space);
    SeparatorEndsTheCell(row.cell, row.rest + "|" + space);
    BodyIsRead(row.audience, body, |row.cell|, row.cell, row.rest, space);
  }

  /** A line is read as a row exactly when the pattern matches it, and then as the match with the
      shortest cell. */
  lemma RowsAreExact(line: string)
    ensures ParseRow(line).Some? <==> exists row, gap, space :: IsMatch(line, row, gap, space)
    ensures forall row, gap, space :: IsMatch(line, row, gap, space) ==>
      ParseRow(line).value.audience == row.audience && |ParseRow(line).value.cell| <= |row.cell|
    ensures ParseRow(line).Some? ==> exists gap, space :: IsMatch(line, ParseRow(line).value, gap, space)
  {
    hide ParseRow, IsMatch;
    if ParseRow(line).Some? {
      var gap, space := RowIsAMatch(line);
    }
    forall row, gap, space | IsMatch(line, row, gap, space)
      ensures ParseRow(line).Some? && ParseRow(line).value.audience == row.audience
      ensures |ParseRow(line).value.cell| <= |row.cell|
    {
      MatchIsRead(line, row, gap, space);
    }
  }

  // ----- Which rows are stale -----

  lemma {:induction false} SpaceHasNoSeparator(space: string)
    requires IsAllSpace(space)
    ensures HasNoSeparator(space)
  {
    SeparatorAt(space, IndexOf(space, CELL_END, 0));
  }

  lemma TrimOf(before: string, x: string, after: string)
    requires IsAllSpace(before) && IsAllSpace(after) && x != "" && !IsSpace(x[0]) && !IsSpace(x[|x| - 1])
    ensures Trim(before + x + after) == x
  {
    hide IsSpace, TrimLeft, TrimRight, IsAllSpace;
    assert before + x + after == before + (x + after);
    TrimLeftOf(before, x + after);
    TrimRightOf(x, after);
  }

  /** A row with its audience's cell is current, whatever white space stands around the cell, after
      the audience and at the end. */
  lemma PaddedCellIsCurrent(t: Table, audience: string, cell: string, before: string, after: string, rest: string,
                            gap: string, space: string)
    requires IsPlainTable(t) && audience in t.audiences && EndpointCell(t, audience) == Some(cell)
    requires IsAllSpace(before) && IsAllSpace(after) && IsDotText(before) && IsDotText(after)
    requires audience != "" && Lacks(audience, '`') && IsDotText(rest) && IsAllSpace(gap) && IsAllSpace(space)
    ensures var row := Row(audience, before + cell + after, rest);
      !IsStale(t, ROW_START + audience + TICK + (gap + (CELL_START + (row.cell + CELL_END + rest + "|" + space))))
  {
    hide ParseRow, EndpointCell, IsAllSpace, HasNoSeparator;
    EndpointCellFits(t, audience);
    CellIsTicked(t, audience);
    var row := Row(audience, before + cell + after, rest);
    var line := ROW_START + audience + TICK + (gap + (CELL_START + (row.cell + CELL_END + rest + "|" + space)));
    SpaceHasNoSeparator(before);
    SpaceHasNoSeparator(after);
    SeparatorAcross(before, cell);
    SpaceIsNoBar(after);
    SeparatorAcross(before + cell, after);
    TrimOf(before, cell, after);
    PaddedIsDotText(before, cell, after);
    PlainMatchIsTheRow(line, row, gap, space);
  }

  lemma PaddedIsDotText(before: string, cell: string, after: string)
    requires IsDotText(before) && IsPlain(cell) && IsDotText(after)
    ensures IsDotText(before + cell + after)
  {
  }

  lemma SpaceIsNoBar(space: string)
    requires IsAllSpace(space)
    ensures space == "" || space[0] != '|'
  {
  }

  lemma CellIsTicked(t: Table, audience: string)
    requires IsPlainTable(t) && EndpointCell(t, audience).Some?
    ensures var cell := EndpointCell(t, audience).value;
      cell != "" && cell[0] == '`' == cell[|cell| - 1]
  {
    RoutesFitCells(t.routes, audience);
    CellsArePlain(RoutesOf(t.routes, audience));
  }

  // ----- Which audiences have a row -----

  /** The line is a row of this audience. */
  ghost predicate IsRowOf(line: string, audience: string) {
    exists row, gap, space :: IsMatch(line, row, gap, space) && row.audience == audience
  }

  lemma KnownAudienceIsExact(t: Table, line: string, audience: string)
    ensures KnownAudience(t, line) == Some(audience) <==> audience in t.audiences && IsRowOf(line, audience)
  {
    hide ParseRow, IsMatch;
    RowsAreExact(line);
  }

  /** A missing row is reported exactly for an audience of the table of which the file has no row. */
  lemma MissingIsExact(t: Table, text: string, audience: string)
    requires audience in t.audiences
    ensures IsMissing(t, text, MissingRow(audience)) <==>
      && (exists i :: 0 <= i < |t.routes| && t.routes[i].audience == audience)
      && forall i :: 0 <= i < |Split(text)| ==> !IsRowOf(Split(text)[i], audience)
  {
    hide KnownAudience, IsRowOf, Split;
    forall i | 0 <= i < |Split(text)|
      ensures KnownAudience(t, Split(text)[i]) == Some(audience) <==> IsRowOf(Split(text)[i], audience)
    {
      KnownAudienceIsExact(t, Split(text)[i], audience);
    }
  }

  /** A cell names a relay path when one of these stands in it. */
  lemma NamesPathMeans(cell: string)
    ensures NamesPath(cell) <==>
      || OccursIn(cell, "/api/") || OccursIn(cell, "/agent/") || OccursIn(cell, "/sync/")
      || OccursIn(cell, "/ws/") || OccursIn(cell, "/pairing/")
  {
    hide OccursAt;
    assert RELAY_PATHS[0] == "/api/" && RELAY_PATHS[1] == "/agent/" && RELAY_PATHS[2] == "/sync/";
    assert RELAY_PATHS[3] == "/ws/" && RELAY_PATHS[4] == "/pairing/";
    forall i | 0 <= i < 5
      ensures IndexOf(cell, RELAY_PATHS[i], 0) != -1 <==> OccursIn(cell, RELAY_PATHS[i])
    {
      FoundMeansOccurs(cell, RELAY_PATHS[i]);
    }
  }

  ghost predicate OccursIn(s: string, needle: string) {
    exists i :: OccursAt(s, needle, i)
  }

  lemma FoundMeansOccurs(s: string, needle: string)
    ensures IndexOf(s, needle, 0) != -1 <==> OccursIn(s, needle)
  {
  }

  // ----- The public sentence -----

  /** The sentence of the block names the public routes: tables with other routes have another. */
  lemma PublicLineNamesTheRoutes(t: Table, u: Table)
    requires forall i :: 0 <= i < |t.publicRoutes| ==> Lacks(t.publicRoutes[i], '`')
    requires forall i :: 0 <= i < |u.publicRoutes| ==> Lacks(u.publicRoutes[i], '`')
    requires PublicLine(t) == PublicLine(u)
    ensures t.publicRoutes == u.publicRoutes
  {
    hide Cells;
    var a, b := Cells(t.publicRoutes), Cells(u.publicRoutes);
    SameMiddle(INTRO, a, b, ".");
    CellsAreInjective(t.publicRoutes, u.publicRoutes);
  }

  lemma SameMiddle(front: string, a: string, b: string, back: string)
    requires front + a + back == front + b + back
    ensures a == b
  {
    var s := front + a + back;
    assert |a| == |b|;
    assert a == s[|front|..|front| + |a|] && b == s[|front|..|front| + |b|];
  }
}
