/** The interior-knowledge corpus (scripts/build-self-knowledge.ts): splitting a document on its
  headings, and the term statistics of the chunks. */
module SelfKnowledge {
  import opened Collections
  import opened Options
  import opened Text

  datatype RawChunk = RawChunk(title: string, content: string)

  /** The text functions of the script: the title of a heading line, and `trim`. */
  datatype Reader = Reader(heading: string -> Option<string>, trim: string -> string)

  // ----- Splitting -----

  /** The lines under one heading, or before the first. */
  datatype Group = Group(title: string, lines: seq<string>)

  /** The groups of a document, blank ones included: each heading closes one and opens the next. */
  function Groups(r: Reader, title: string, lines: seq<string>): (gs: seq<Group>)
    ensures gs != []
  {
    if lines == [] then [Group(title, [])] else
    var n := |lines| - 1;
    var before := Groups(r, title, lines[..n]);
    var h := r.heading(lines[n]);
    if h.Some? then before + [Group(h.value, [])] else AddLines(before, [lines[n]])
  }

  /** The groups with more lines in the last one. */
  function AddLines(gs: seq<Group>, more: seq<string>): (longer: seq<Group>)
    requires gs != []
    ensures |longer| == |gs|
  {
    var last := gs[|gs| - 1];
    gs[..|gs| - 1] + [Group(last.title, last.lines + more)]
  }

  /** The chunk of a group, unless the group is blank. */
  function ChunkOf(r: Reader, g: Group): seq<RawChunk> {
    var body := r.trim(Join(g.lines));
    if body == "" then [] else [RawChunk(g.title, body)]
  }

  function ChunksOf(r: Reader, gs: seq<Group>): seq<RawChunk> {
    if gs == [] then [] else ChunksOf(r, gs[..|gs| - 1]) + ChunkOf(r, gs[|gs| - 1])
  }

  ghost function PlacesNotBlank(r: Reader, gs: seq<Group>): set<nat> {
    set i: nat | i < |gs| && r.trim(Join(gs[i].lines)) != ""
  }

  ghost predicate AreChunksOf(r: Reader, chunks: seq<RawChunk>, gs: seq<Group>, places: seq<nat>) {
    && |chunks| == |places|
    && forall k :: 0 <= k < |places| ==>
         && places[k] < |gs| && chunks[k].title == gs[places[k]].title
         && chunks[k].content == r.trim(Join(gs[places[k]].lines))
  }

  /** One chunk for each group that is not blank, in order, with its title and its trimmed text. */
  lemma {:induction false} ChunksAreExact(r: Reader, gs: seq<Group>) returns (places: seq<nat>)
    ensures Lists(places, PlacesNotBlank(r, gs)) && AreChunksOf(r, ChunksOf(r, gs), gs, places)
  {
    places := [];
    if gs != [] {
      var n := |gs| - 1;
      places := ChunksAreExact(r, gs[..n]);
      if r.trim(Join(gs[n].lines)) != "" {
        ListsOneMore(places, PlacesNotBlank(r, gs[..n]), n);
        assert PlacesNotBlank(r, gs) == PlacesNotBlank(r, gs[..n]) + {n};
        places := places + [n];
      } else {
        assert PlacesNotBlank(r, gs) == PlacesNotBlank(r, gs[..n]);
      }
    }
  }

  /** The loop with its buffer: the chunks of all groups, in order, blank groups dropped. */
  method SplitByHeading(r: Reader, sourceTitle: string, lines: seq<string>) returns (chunks: seq<RawChunk>)
    ensures chunks == ChunksOf(r, Groups(r, sourceTitle, lines))
    ensures exists gs, headings, places ::
      && IsGrouping(r, sourceTitle, gs, headings) && Document(gs, headings) == lines
      && Lists(places, PlacesNotBlank(r, gs)) && AreChunksOf(r, chunks, gs, places)
  {
    chunks := [];
    var currentTitle, buffer := sourceTitle, [];
    for i := 0 to |lines|
      invariant var gs := Groups(r, sourceTitle, lines[..i]);
        gs[|gs| - 1] == Group(currentTitle, buffer) && chunks == ChunksOf(r, gs[..|gs| - 1])
    {
      assert lines[..i + 1][..i] == lines[..i];
      ghost var gs := Groups(r, sourceTitle, lines[..i]);
      var h := r.heading(lines[i]);
      if h.Some? {
        chunks := Flush(r, currentTitle, buffer, chunks);
        currentTitle, buffer := h.value, [];
        assert (gs + [Group(h.value, [])])[..|gs|] == gs;
      } else {
        buffer := buffer + [lines[i]];
        assert (gs[..|gs| - 1] + [Group(currentTitle, buffer)])[..|gs| - 1] == gs[..|gs| - 1];
      }
    }
    assert lines[..|lines|] == lines;
    chunks := Flush(r, currentTitle, buffer, chunks);
    GroupsGiveTheDocument(r, sourceTitle, lines);
    ghost var places := ChunksAreExact(r, Groups(r, sourceTitle, lines));
  }

  method Flush(r: Reader, title: string, buffer: seq<string>, chunks: seq<RawChunk>) returns (more: seq<RawChunk>)
    ensures more == chunks + ChunkOf(r, Group(title, buffer))
  {
    var body := r.trim(Join(buffer));
    more := chunks;
    if |body| > 0 {
      more := more + [RawChunk(title, body)];
    }
  }

  function BodyLines(r: Reader, lines: seq<string>): seq<string> {
    if lines == [] then [] else
    var n := |lines| - 1;
    BodyLines(r, lines[..n]) + if r.heading(lines[n]).Some? then [] else [lines[n]]
  }

  function LinesOf(gs: seq<Group>): seq<string> {
    if gs == [] then [] else LinesOf(gs[..|gs| - 1]) + gs[|gs| - 1].lines
  }

  function Headings(r: Reader, lines: seq<string>): seq<string> {
    if lines == [] then [] else
    var n := |lines| - 1;
    Headings(r, lines[..n]) + if r.heading(lines[n]).Some? then [r.heading(lines[n]).value] else []
  }

  /** Every line that is no heading is in exactly one group, once and in order. */
  lemma {:induction false} GroupsPartitionTheLines(r: Reader, title: string, lines: seq<string>)
    ensures LinesOf(Groups(r, title, lines)) == BodyLines(r, lines)
  {
    if lines == [] {
      assert [Group(title, [])][..0] == [];
    } else {
      var n := |lines| - 1;
      GroupsPartitionTheLines(r, title, lines[..n]);
      var before, gs := Groups(r, title, lines[..n]), Groups(r, title, lines);
      var k := |before| - 1;
      if r.heading(lines[n]).Some? {
        assert gs[..|gs| - 1] == before;
      } else {
        assert gs[..k] == before[..k];
      }
    }
  }

  function Titles(gs: seq<Group>): seq<string> {
    if gs == [] then [] else Titles(gs[..|gs| - 1]) + [gs[|gs| - 1].title]
  }

  /** The groups are titled by the source and then by the headings, in order. */
  lemma {:induction false} GroupsAreTitledInOrder(r: Reader, title: string, lines: seq<string>)
    ensures Titles(Groups(r, title, lines)) == [title] + Headings(r, lines)
  {
    if lines == [] {
      assert [Group(title, [])][..0] == [];
    } else {
      var n := |lines| - 1;
      GroupsAreTitledInOrder(r, title, lines[..n]);
      var before, gs := Groups(r, title, lines[..n]), Groups(r, title, lines);
      var k := |before| - 1;
      if r.heading(lines[n]).Some? {
        assert gs[..|gs| - 1] == before;
      } else {
        assert gs[..k] == before[..k];
      }
    }
  }

  // ----- Groups and document determine each other -----

  function HeadingLines(r: Reader, lines: seq<string>): seq<string> {
    if lines == [] then [] else
    var n := |lines| - 1;
    HeadingLines(r, lines[..n]) + if r.heading(lines[n]).Some? then [lines[n]] else []
  }

  /** The groups' lines with a heading line before each group but the first. */
  function Document(gs: seq<Group>, headings: seq<string>): seq<string>
    requires |gs| == |headings| + 1
  {
    if headings == [] then gs[0].lines else
    var n := |headings| - 1;
    Document(gs[..n + 1], headings[..n]) + [headings[n]] + gs[n + 1].lines
  }

  /** Group 0 is titled by the source, every other by its heading line, and no line of a group is
      a heading. */
  ghost predicate IsGrouping(r: Reader, title: string, gs: seq<Group>, headings: seq<string>) {
    && |gs| == |headings| + 1 && gs[0].title == title
    && (forall i :: 0 <= i < |headings| ==> r.heading(headings[i]) == Some(gs[i + 1].title))
    && (forall i :: 0 <= i < |gs| ==> HasNoHeading(r, gs[i].lines))
  }

  ghost predicate HasNoHeading(r: Reader, lines: seq<string>) {
    forall i :: 0 <= i < |lines| ==> r.heading(lines[i]).None?
  }

  lemma DocumentOfLonger(gs: seq<Group>, headings: seq<string>, more: seq<string>)
    requires |gs| == |headings| + 1
    ensures Document(AddLines(gs, more), headings) == Document(gs, headings) + more
  {
    if headings != [] {
      var n := |headings| - 1;
      assert AddLines(gs, more)[..n + 1] == gs[..n + 1];
    }
  }

  lemma DocumentOfNext(gs: seq<Group>, headings: seq<string>, g: Group, heading: string)
    requires |gs| == |headings| + 1
    ensures Document(gs + [g], headings + [heading]) == Document(gs, headings) + [heading] + g.lines
  {
    assert (gs + [g])[..|gs|] == gs && (headings + [heading])[..|headings|] == headings;
  }

  lemma GroupingOfLonger(r: Reader, title: string, gs: seq<Group>, headings: seq<string>, line: string)
    requires IsGrouping(r, title, gs, headings) && r.heading(line).None?
    ensures IsGrouping(r, title, AddLines(gs, [line]), headings)
  {
    var longer, k := AddLines(gs, [line]), |gs| - 1;
    assert forall i :: 0 <= i < k ==> longer[i] == gs[i];
    assert longer[k].title == gs[k].title;
    assert HasNoHeading(r, gs[k].lines);
    assert HasNoHeading(r, longer[k].lines);
  }

  lemma GroupingOfNext(r: Reader, title: string, gs: seq<Group>, headings: seq<string>, heading: string)
    requires IsGrouping(r, title, gs, headings) && r.heading(heading).Some?
    ensures IsGrouping(r, title, gs + [Group(r.heading(heading).value, [])], headings + [heading])
  {
  }

  /** Every line stands under the heading it follows: the heading lines put back before their groups
      give the document. */
  lemma {:induction false} GroupsGiveTheDocument(r: Reader, title: string, lines: seq<string>)
    ensures IsGrouping(r, title, Groups(r, title, lines), HeadingLines(r, lines))
    ensures Document(Groups(r, title, lines), HeadingLines(r, lines)) == lines
  {
    hide IsGrouping, AddLines;
    if lines == [] {
      EmptyGrouping(r, title);
    } else {
      var n := |lines| - 1;
      var before, headings := Groups(r, title, lines[..n]), HeadingLines(r, lines[..n]);
      GroupsGiveTheDocument(r, title, lines[..n]);
      GroupingStart(r, title, before, headings);
      assert lines == lines[..n] + [lines[n]];
      if r.heading(lines[n]).Some? {
        DocumentOfNext(before, headings, Group(r.heading(lines[n]).value, []), lines[n]);
        GroupingOfNext(r, title, before, headings, lines[n]);
      } else {
        DocumentOfLonger(before, headings, [lines[n]]);
        GroupingOfLonger(r, title, before, headings, lines[n]);
        assert headings + [] == headings;
      }
    }
  }

  lemma EmptyGrouping(r: Reader, title: string)
    ensures IsGrouping(r, title, [Group(title, [])], [])
    ensures Document([Group(title, [])], []) == []
  {
  }

  lemma GroupingStart(r: Reader, title: string, gs: seq<Group>, headings: seq<string>)
    requires IsGrouping(r, title, gs, headings)
    ensures |gs| == |headings| + 1 && gs[0].title == title && HasNoHeading(r, gs[0].lines)
  {
  }

  lemma AddedTwice(gs: seq<Group>, more: seq<string>, line: string)
    requires gs != []
    ensures AddLines(gs, []) == gs
    ensures AddLines(AddLines(gs, more), [line]) == AddLines(gs, more + [line])
  {
    var last := gs[|gs| - 1];
    assert last.lines + [] == last.lines && gs == gs[..|gs| - 1] + [last];
    assert (last.lines + more) + [line] == last.lines + (more + [line]);
    assert AddLines(gs, more)[..|gs| - 1] == gs[..|gs| - 1];
  }

  /** The lines of `more` go to the last group. */
  lemma {:induction false} GroupsOfMore(r: Reader, title: string, lines: seq<string>, more: seq<string>)
    requires HasNoHeading(r, more)
    ensures Groups(r, title, lines + more) == AddLines(Groups(r, title, lines), more)
  {
    hide AddLines;
    var before := Groups(r, title, lines);
    if more == [] {
      assert lines + more == lines;
      AddedTwice(before, [], "");
    } else {
      var n := |more| - 1;
      assert (lines + more)[..|lines + more| - 1] == lines + more[..n];
      GroupsOfMore(r, title, lines, more[..n]);
      AddedTwice(before, more[..n], more[n]);
      assert more == more[..n] + [more[n]];
    }
  }

  lemma GroupsOfHeading(r: Reader, title: string, lines: seq<string>, heading: string)
    requires r.heading(heading).Some?
    ensures Groups(r, title, lines + [heading]) == Groups(r, title, lines) + [Group(r.heading(heading).value, [])]
  {
    assert (lines + [heading])[..|lines|] == lines;
  }

  lemma AddedToLast(gs: seq<Group>, title: string, lines: seq<string>)
    ensures AddLines(gs + [Group(title, [])], lines) == gs + [Group(title, lines)]
  {
    assert (gs + [Group(title, [])])[..|gs|] == gs && [] + lines == lines;
  }

  lemma OneGroup(r: Reader, title: string, lines: seq<string>)
    requires HasNoHeading(r, lines)
    ensures Groups(r, title, lines) == [Group(title, lines)]
  {
    GroupsOfMore(r, title, [], lines);
    AddedToLast([], title, lines);
    assert [] + lines == lines;
    assert [] + [Group(title, [])] == [Group(title, [])] && [] + [Group(title, lines)] == [Group(title, lines)];
  }

  lemma GroupingOfPrefix(r: Reader, title: string, gs: seq<Group>, headings: seq<string>)
    requires IsGrouping(r, title, gs, headings) && headings != []
    ensures var n := |headings| - 1;
      && IsGrouping(r, title, gs[..n + 1], headings[..n])
      && r.heading(headings[n]) == Some(gs[n + 1].title) && HasNoHeading(r, gs[n + 1].lines)
  {
  }

  /** These groups and no others: any groups laid out under heading lines are found again. */
  lemma {:induction false} GroupsAreDetermined(r: Reader, title: string, gs: seq<Group>, headings: seq<string>)
    requires IsGrouping(r, title, gs, headings)
    ensures |gs| == |headings| + 1 && Groups(r, title, Document(gs, headings)) == gs
  {
    hide Groups, AddLines, IsGrouping, HasNoHeading;
    GroupingStart(r, title, gs, headings);
    if headings == [] {
      OneGroup(r, title, gs[0].lines);
      assert gs == [gs[0]];
    } else {
      var n := |headings| - 1;
      var before, g := Document(gs[..n + 1], headings[..n]), gs[n + 1];
      GroupingOfPrefix(r, title, gs, headings);
      GroupsAreDetermined(r, title, gs[..n + 1], headings[..n]);
      GroupsOfHeading(r, title, before, headings[n]);
      GroupsOfMore(r, title, before + [headings[n]], g.lines);
      AddedToLast(gs[..n + 1], g.title, g.lines);
      assert gs == gs[..n + 1] + [g];
    }
  }

  // ----- Term frequencies -----

  function Total(keys: seq<string>, counts: map<string, nat>): nat
    requires forall k :: k in keys ==> k in counts
  {
    if keys == [] then 0 else Total(keys[..|keys| - 1], counts) + counts[keys[|keys| - 1]]
  }

  lemma {:induction false} TotalAfterCount(keys: seq<string>, counts: map<string, nat>, key: string, n: nat)
    requires Distinct(keys) && forall k :: k in keys ==> k in counts
    ensures key !in keys ==> Total(keys, counts[key := n]) == Total(keys, counts)
    ensures key in keys ==> Total(keys, counts[key := n]) == Total(keys, counts) - counts[key] + n
  {
    if keys != [] {
      var m := |keys| - 1;
      assert forall k :: k in keys <==> k in keys[..m] || k == keys[m];
      assert keys[m] !in keys[..m];
      TotalAfterCount(keys[..m], counts, key, n);
      TotalHoldsCounts(keys[..m], counts, key);
    }
  }

  lemma {:induction false} TotalHoldsCounts(keys: seq<string>, counts: map<string, nat>, key: string)
    requires forall k :: k in keys ==> k in counts
    ensures key in keys ==> counts[key] <= Total(keys, counts)
  {
    if keys != [] {
      TotalHoldsCounts(keys[..|keys| - 1], counts, key);
    }
  }

  /** One more occurrence of `t`: `counts[t] = (counts[t] ?? 0) + 1`, a new key going last. */
  method Count(keys: seq<string>, counts: map<string, nat>, t: string)
    returns (keys': seq<string>, counts': map<string, nat>)
    requires Distinct(keys) && forall k :: k in keys <==> k in counts
    ensures Distinct(keys') && forall k :: k in keys' <==> k in counts'
    ensures counts' == counts[t := if t in counts then counts[t] + 1 else 1]
    ensures Total(keys', counts') == Total(keys, counts) + 1
  {
    var n := if t in counts then counts[t] + 1 else 1;
    counts' := counts[t := n];
    keys' := if t in counts then keys else keys + [t];
    TotalAfterCount(keys, counts, t, n);
    assert t !in counts ==> (keys + [t])[..|keys|] == keys;
  }

  /** The frequencies of a chunk's tokens: each is the number of occurrences, no token is left out,
      and together they sum to the chunk's length. */
  method TermFrequencies(tokens: seq<string>) returns (keys: seq<string>, counts: map<string, nat>)
    ensures Distinct(keys) && forall k :: k in keys <==> k in counts
    ensures forall t :: t in counts <==> t in tokens
    ensures forall t :: t in tokens ==> counts[t] == multiset(tokens)[t]
    ensures Total(keys, counts) == |tokens|
  {
    keys, counts := [], map[];
    for i := 0 to |tokens|
      invariant Distinct(keys) && forall k :: k in keys <==> k in counts
      invariant forall t :: t in counts <==> t in tokens[..i]
      invariant forall t :: t in counts ==> counts[t] == multiset(tokens[..i])[t]
      invariant Total(keys, counts) == i
    {
      assert tokens[..i + 1] == tokens[..i] + [tokens[i]];
      keys, counts := Count(keys, counts, tokens[i]);
    }
    assert tokens[..|tokens|] == tokens;
  }

  // ----- Document frequencies -----

  /** The number of chunks, given by their token lists, that contain the term. */
  function ChunksWith(chunks: seq<seq<string>>, t: string): nat {
    if chunks == [] then 0 else
    ChunksWith(chunks[..|chunks| - 1], t) + if t in chunks[|chunks| - 1] then 1 else 0
  }

  lemma {:induction false} ChunksWithIsPositive(chunks: seq<seq<string>>, t: string)
    ensures ChunksWith(chunks, t) > 0 <==> exists i :: 0 <= i < |chunks| && t in chunks[i]
  {
    if chunks != [] {
      var n := |chunks| - 1;
      ChunksWithIsPositive(chunks[..n], t);
      assert forall i :: 0 <= i < n ==> chunks[..n][i] == chunks[i];
    }
  }

  /** The chunks that survive: those with at least one token. */
  function Kept(chunks: seq<seq<string>>): seq<seq<string>> {
    if chunks == [] then [] else
    var n := |chunks| - 1;
    Kept(chunks[..n]) + if chunks[n] == [] then [] else [chunks[n]]
  }

  function Lengths(chunks: seq<seq<string>>): nat {
    if chunks == [] then 0 else Lengths(chunks[..|chunks| - 1]) + |chunks[|chunks| - 1]|
  }

  ghost function PlacesKept(chunks: seq<seq<string>>): set<nat> {
    set i: nat | i < |chunks| && chunks[i] != []
  }

  ghost predicate AreAt(kept: seq<seq<string>>, chunks: seq<seq<string>>, places: seq<nat>) {
    && |kept| == |places|
    && forall k :: 0 <= k < |places| ==> places[k] < |chunks| && kept[k] == chunks[places[k]]
  }

  /** Exactly the chunks with a token, in order. */
  lemma {:induction false} KeptIsExact(chunks: seq<seq<string>>) returns (places: seq<nat>)
    ensures Lists(places, PlacesKept(chunks)) && AreAt(Kept(chunks), chunks, places)
  {
    places := [];
    if chunks != [] {
      var n := |chunks| - 1;
      places := KeptIsExact(chunks[..n]);
      if chunks[n] != [] {
        ListsOneMore(places, PlacesKept(chunks[..n]), n);
        assert PlacesKept(chunks) == PlacesKept(chunks[..n]) + {n};
        places := places + [n];
      } else {
        assert PlacesKept(chunks) == PlacesKept(chunks[..n]);
      }
    }
  }

  ghost function PlacesWith(chunks: seq<seq<string>>, t: string): set<nat> {
    set i: nat | i < |chunks| && t in chunks[i]
  }

  /** A document frequency counts the chunks that contain the term. */
  lemma {:induction false} ChunksWithCounts(chunks: seq<seq<string>>, t: string)
    ensures ChunksWith(chunks, t) == |PlacesWith(chunks, t)|
  {
    if chunks != [] {
      var n := |chunks| - 1;
      ChunksWithCounts(chunks[..n], t);
      if t in chunks[n] {
        assert PlacesWith(chunks, t) == PlacesWith(chunks[..n], t) + {n};
      } else {
        assert PlacesWith(chunks, t) == PlacesWith(chunks[..n], t);
      }
    }
  }

  /** Lengths add up chunk by chunk. */
  lemma {:induction false} LengthsOfConcat(xs: seq<seq<string>>, ys: seq<seq<string>>)
    ensures Lengths(xs + ys) == Lengths(xs) + Lengths(ys)
    ensures |xs| == 1 ==> Lengths(xs) == |xs[0]|
  {
    if |xs| == 1 {
      assert xs[..0] == [];
    }
    if ys == [] {
      assert xs + ys == xs;
    } else {
      var n := |ys| - 1;
      assert (xs + ys)[..|xs + ys| - 1] == xs + ys[..n];
      LengthsOfConcat(xs, ys[..n]);
    }
  }

  /** Add one chunk's distinct terms to the document frequencies. */
  method CountChunk(df: map<string, nat>, keys: seq<string>) returns (df': map<string, nat>)
    requires Distinct(keys)
    ensures forall t :: t in df' <==> t in df || t in keys
    ensures forall t :: t in df' ==> df'[t] == (if t in df then df[t] else 0) + if t in keys then 1 else 0
  {
    df' := df;
    for i := 0 to |keys|
      invariant forall t :: t in df' <==> t in df || t in keys[..i]
      invariant forall t :: t in df' ==> df'[t] == (if t in df then df[t] else 0) + if t in keys[..i] then 1 else 0
    {
      var t := keys[i];
      assert t !in keys[..i];
      df' := df'[t := if t in df' then df'[t] + 1 else 1];
      assert keys[..i + 1] == keys[..i] + [t];
    }
    assert keys[..|keys|] == keys;
  }

  method KeepChunks(chunks: seq<seq<string>>) returns (kept: seq<seq<string>>)
    ensures kept == Kept(chunks)
  {
    kept := [];
    for i := 0 to |chunks|
      invariant kept == Kept(chunks[..i])
    {
      assert chunks[..i + 1][..i] == chunks[..i];
      if |chunks[i]| != 0 {
        kept := kept + [chunks[i]];
      }
    }
    assert chunks[..|chunks|] == chunks;
  }

  method DocumentFrequencies(kept: seq<seq<string>>) returns (df: map<string, nat>)
    ensures forall t :: t in df <==> ChunksWith(kept, t) > 0
    ensures forall t :: t in df ==> df[t] == ChunksWith(kept, t)
  {
    df := map[];
    for i := 0 to |kept|
      invariant forall t :: t in df <==> ChunksWith(kept[..i], t) > 0
      invariant forall t :: t in df ==> df[t] == ChunksWith(kept[..i], t)
    {
      assert kept[..i + 1][..i] == kept[..i];
      var keys, counts := TermFrequencies(kept[i]);
      df := CountChunk(df, keys);
    }
    assert kept[..|kept|] == kept;
  }

  method AverageLength(kept: seq<seq<string>>) returns (average: real)
    ensures kept == [] ==> average == 0.0
    ensures average * |kept| as real == Lengths(kept) as real
  {
    if kept == [] {
      return 0.0;
    }
    var total := 0;
    for i := 0 to |kept|
      invariant total == Lengths(kept[..i])
    {
      assert kept[..i + 1][..i] == kept[..i];
      total := total + |kept[i]|;
    }
    assert kept[..|kept|] == kept;
    average := total as real / |kept| as real;
  }

  /** Over all kept chunks: each document frequency is the number of kept chunks with the term, and
      the average length accounts for every token of the corpus, none lost with the empty chunks. */
  method CorpusStatistics(chunks: seq<seq<string>>)
    returns (kept: seq<seq<string>>, df: map<string, nat>, averageLength: real)
    ensures kept == Kept(chunks) && exists places :: Lists(places, PlacesKept(chunks)) && AreAt(kept, chunks, places)
    ensures forall t :: t in df ==> df[t] == |PlacesWith(chunks, t)|
    ensures forall t :: t in df <==> exists i :: 0 <= i < |kept| && t in kept[i]
    ensures forall t :: t in df ==> df[t] == ChunksWith(kept, t) == ChunksWith(chunks, t)
    ensures averageLength * |kept| as real == Lengths(chunks) as real
    ensures kept == [] ==> averageLength == 0.0
  {
    kept := KeepChunks(chunks);
    df := DocumentFrequencies(kept);
    averageLength := AverageLength(kept);
    KeptLosesNothing(chunks);
    ghost var places := KeptIsExact(chunks);
    forall t: string
      ensures ChunksWith(kept, t) == ChunksWith(chunks, t) == |PlacesWith(chunks, t)|
    {
      KeptCountsAlike(chunks, t);
      ChunksWithCounts(chunks, t);
    }
    forall t: string
      ensures ChunksWith(kept, t) > 0 <==> exists i :: 0 <= i < |kept| && t in kept[i]
    {
      ChunksWithIsPositive(kept, t);
    }
  }

  lemma {:induction false} KeptLosesNothing(chunks: seq<seq<string>>)
    ensures Lengths(Kept(chunks)) == Lengths(chunks)
  {
    if chunks != [] {
      var n := |chunks| - 1;
      KeptLosesNothing(chunks[..n]);
      KeptStep(chunks, n);
    }
  }

  lemma {:induction false} KeptCountsAlike(chunks: seq<seq<string>>, t: string)
    ensures ChunksWith(Kept(chunks), t) == ChunksWith(chunks, t)
  {
    if chunks != [] {
      var n := |chunks| - 1;
      KeptCountsAlike(chunks[..n], t);
      KeptStep(chunks, n);
    }
  }

  lemma KeptStep(chunks: seq<seq<string>>, n: nat)
    requires |chunks| == n + 1
    ensures chunks[n] == [] ==> Kept(chunks) == Kept(chunks[..n])
    ensures chunks[n] != [] ==>
      |Kept(chunks)| > 0 && Kept(chunks)[|Kept(chunks)| - 1] == chunks[n]
      && Kept(chunks)[..|Kept(chunks)| - 1] == Kept(chunks[..n])
  {
  }
}
