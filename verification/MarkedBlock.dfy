/** A generated block between two comment markers, found by searching for the markers
  (scripts/check-audience-route-parity.ts). */
module MarkedBlock {
  import opened Text

  datatype Markers = Markers(begin: string, end: string, middle: string)

  /** The text opens with its only markup character. */
  predicate Opens(s: string) {
    s != "" && s[0] == '<' && forall i :: 0 < i < |s| ==> s[i] != '<'
  }

  /** The markers open with their only markup, are not confused, and there is none between them. */
  predicate AreProper(m: Markers) {
    && Opens(m.begin) && Opens(m.end) && |m.end| <= |m.begin| && m.begin[..|m.end|] != m.end
    && forall i :: 0 <= i < |m.middle| ==> m.middle[i] != '<'
  }

  function Block(m: Markers): string {
    m.begin + m.middle + m.end
  }

  /** `s.slice(from, to)` for positions inside `s`. */
  function Slice(s: string, from: nat, to: nat): string
    requires from <= |s| && to <= |s|
  {
    if to <= from then "" else s[from..to]
  }

  predicate HasMarkers(m: Markers, text: string) {
    IndexOf(text, m.begin, 0) != -1 && IndexOf(text, m.end, 0) != -1
  }

  predicate HasOrderedMarkers(m: Markers, text: string) {
    HasMarkers(m, text) && IndexOf(text, m.begin, 0) < IndexOf(text, m.end, 0)
  }

  /** The text between the first markers, markers included, is not the block. */
  predicate IsStale(m: Markers, text: string) {
    && HasMarkers(m, text)
    && Slice(text, IndexOf(text, m.begin, 0), IndexOf(text, m.end, 0) + |m.end|) != Block(m)
  }

  /** The text with the block put from the first begin marker to the first end marker. */
  function PutBlock(m: Markers, text: string): string
    requires HasMarkers(m, text)
  {
    text[..IndexOf(text, m.begin, 0)] + Block(m) + text[IndexOf(text, m.end, 0) + |m.end|..]
  }

  function Rewrite(m: Markers, text: string): string {
    if IsStale(m, text) then PutBlock(m, text) else text
  }

  // ----- Finding the markers again -----

  lemma FirstIs(x: string, needle: string, at: nat)
    requires OccursAt(x, needle, at) && forall i :: 0 <= i < at ==> !OccursAt(x, needle, i)
    ensures IndexOf(x, needle, 0) == at
  {
  }

  lemma MarkersNeedMarkup(x: string, marker: string, i: int)
    requires Opens(marker) && OccursAt(x, marker, i)
    ensures x[i] == '<' && forall k :: i < k < i + |marker| ==> x[k] != '<'
  {
  }

  /** Two texts that agree up to the end of a piece at `at` hold the same shorter needles before `at`. */
  lemma SameStartSameOccurrences(x: string, y: string, needle: string, at: nat, n: nat, i: int)
    requires at + n <= |x| && at + n <= |y| && x[..at + n] == y[..at + n]
    requires i < at && |needle| <= n
    ensures OccursAt(x, needle, i) <==> OccursAt(y, needle, i)
  {
    if 0 <= i {
      assert x[i..i + |needle|] == x[..at + n][i..i + |needle|];
      assert y[i..i + |needle|] == y[..at + n][i..i + |needle|];
    }
  }

  /** Writing the block at the first begin marker moves no earlier marker. */
  lemma EarlierMarkersStay(m: Markers, text: string, post: string, i: int)
    requires AreProper(m) && 0 <= i < IndexOf(text, m.begin, 0)
    ensures var b := IndexOf(text, m.begin, 0);
      && (OccursAt(text, m.begin, i) <==> OccursAt(text[..b] + Block(m) + post, m.begin, i))
      && (OccursAt(text, m.end, i) <==> OccursAt(text[..b] + Block(m) + post, m.end, i))
  {
    var b := IndexOf(text, m.begin, 0);
    var after := text[..b] + Block(m) + post;
    var n := |m.begin|;
    assert text[..b + n] == text[..b] + text[b..b + n];
    assert after[..b + n] == text[..b] + m.begin;
    SameStartSameOccurrences(text, after, m.begin, b, n, i);
    SameStartSameOccurrences(text, after, m.end, b, n, i);
  }

  lemma BeginIsFound(m: Markers, text: string, post: string)
    requires AreProper(m) && IndexOf(text, m.begin, 0) >= 0
    ensures var b := IndexOf(text, m.begin, 0);
      IndexOf(text[..b] + Block(m) + post, m.begin, 0) == b
  {
    var b := IndexOf(text, m.begin, 0);
    var after := text[..b] + Block(m) + post;
    assert after[b..b + |m.begin|] == m.begin;
    forall i | 0 <= i < b
      ensures !OccursAt(after, m.begin, i)
    {
      EarlierMarkersStay(m, text, post, i);
    }
    FirstIs(after, m.begin, b);
  }

  /** Within the block the end marker stands only at its end. */
  lemma EndIsLast(m: Markers, pre: string, post: string, i: nat)
    requires AreProper(m) && |pre| <= i < |pre| + |m.begin| + |m.middle|
    ensures !OccursAt(pre + Block(m) + post, m.end, i)
  {
  }

  lemma EndIsFound(m: Markers, pre: string, post: string)
    requires AreProper(m)
    requires forall i :: 0 <= i < |pre| ==> !OccursAt(pre + Block(m) + post, m.end, i)
    ensures IndexOf(pre + Block(m) + post, m.end, 0) == |pre| + |m.begin| + |m.middle|
  {
    var after := pre + Block(m) + post;
    var at := |pre| + |m.begin| + |m.middle|;
    assert after[at..at + |m.end|] == m.end;
    forall i | 0 <= i < at
      ensures !OccursAt(after, m.end, i)
    {
      if i >= |pre| {
        EndIsLast(m, pre, post, i);
      }
    }
    FirstIs(after, m.end, at);
  }

  lemma BlockIsCurrent(m: Markers, pre: string, post: string)
    requires IndexOf(pre + Block(m) + post, m.begin, 0) == |pre|
    requires IndexOf(pre + Block(m) + post, m.end, 0) == |pre| + |m.begin| + |m.middle|
    ensures HasMarkers(m, pre + Block(m) + post) && !IsStale(m, pre + Block(m) + post)
  {
  }

  /** The block alone holds its markers in order. */
  lemma BlockAloneIsInOrder(m: Markers)
    requires AreProper(m)
    ensures HasOrderedMarkers(m, Block(m))
  {
    EmptyAround(Block(m));
    EndIsFound(m, "", "");
    StartsWith(m.begin, m.middle, m.end);
    FirstIs(Block(m), m.begin, 0);
  }

  lemma EmptyAround(x: string)
    ensures "" + x + "" == x
  {
  }

  lemma StartsWith(a: string, b: string, c: string)
    ensures OccursAt(a + b + c, a, 0)
  {
  }

  /** With ordered markers, the block put is the block found. */
  lemma PutBlockIsFound(m: Markers, text: string)
    requires AreProper(m) && HasOrderedMarkers(m, text)
    ensures HasMarkers(m, PutBlock(m, text)) && !IsStale(m, PutBlock(m, text))
  {
    var b, e := IndexOf(text, m.begin, 0), IndexOf(text, m.end, 0);
    var pre, post := text[..b], text[e + |m.end|..];
    assert PutBlock(m, text) == pre + Block(m) + post;
    BeginIsFound(m, text, post);
    forall i | 0 <= i < b
      ensures !OccursAt(pre + Block(m) + post, m.end, i)
    {
      EarlierMarkersStay(m, text, post, i);
    }
    EndIsFound(m, pre, post);
    BlockIsCurrent(m, pre, post);
  }

  lemma MarkersDiffer(m: Markers, x: string, i: int)
    requires AreProper(m) && OccursAt(x, m.begin, i)
    ensures !OccursAt(x, m.end, i)
  {
  }

  /** Two markers of a text do not overlap. */
  lemma MarkersAreApart(m: Markers, x: string, e: int, b: int)
    requires AreProper(m) && OccursAt(x, m.end, e) && OccursAt(x, m.begin, b) && e <= b
    ensures e + |m.end| <= b
  {
    MarkersDiffer(m, x, b);
    MarkersNeedMarkup(x, m.begin, b);
    MarkersNeedMarkup(x, m.end, e);
  }

  lemma MisorderedIsStale(m: Markers, x: string)
    requires AreProper(m) && HasMarkers(m, x) && IndexOf(x, m.end, 0) + |m.end| <= IndexOf(x, m.begin, 0)
    ensures IsStale(m, x)
  {
  }

  /** With the end marker first, the block never matches, however often it is written. */
  lemma MisorderedBlockStaysStale(m: Markers, text: string)
    requires AreProper(m) && HasMarkers(m, text) && !HasOrderedMarkers(m, text)
    ensures IsStale(m, text) && |PutBlock(m, text)| > |text|
    ensures IsStale(m, PutBlock(m, text)) && !HasOrderedMarkers(m, PutBlock(m, text))
  {
    var b, e := IndexOf(text, m.begin, 0), IndexOf(text, m.end, 0);
    var post := text[e + |m.end|..];
    var after := text[..b] + Block(m) + post;
    MarkersAreApart(m, text, e, b);
    MisorderedIsStale(m, text);
    assert PutBlock(m, text) == after;
    BeginIsFound(m, text, post);
    EndStaysFirst(m, text, post);
    MisorderedIsStale(m, after);
  }

  lemma EndStaysFirst(m: Markers, text: string, post: string)
    requires AreProper(m) && HasMarkers(m, text) && IndexOf(text, m.end, 0) < IndexOf(text, m.begin, 0)
    ensures var b := IndexOf(text, m.begin, 0);
      IndexOf(text[..b] + Block(m) + post, m.end, 0) == IndexOf(text, m.end, 0)
  {
    var b, e := IndexOf(text, m.begin, 0), IndexOf(text, m.end, 0);
    var after := text[..b] + Block(m) + post;
    forall i | 0 <= i <= e
      ensures OccursAt(text, m.end, i) <==> OccursAt(after, m.end, i)
    {
      EarlierMarkersStay(m, text, post, i);
    }
    FirstIs(after, m.end, e);
  }

  /** Exactly: the block step leaves nothing to report if and only if the markers of the text it is
      given are in order. */
  lemma OrderIsExact(m: Markers, text: string)
    requires AreProper(m) && HasMarkers(m, text)
    ensures HasOrderedMarkers(m, text) <==> !IsStale(m, Rewrite(m, text))
  {
    if HasOrderedMarkers(m, text) {
      PutBlockIsFound(m, text);
    } else {
      MisorderedBlockStaysStale(m, text);
    }
  }

  /** With ordered markers the write replaces what stands from the first begin marker to the end of
      the first end marker, and nothing around it. */
  lemma PutBlockReplacesTheBlock(m: Markers, text: string) returns (before: string, inside: string, after: string)
    requires AreProper(m) && HasOrderedMarkers(m, text)
    ensures text == before + (m.begin + inside + m.end) + after
    ensures PutBlock(m, text) == before + (m.begin + m.middle + m.end) + after
    ensures IndexOf(text, m.begin, 0) == |before|
    ensures IndexOf(text, m.end, 0) == |before| + |m.begin| + |inside|
  {
    var b, e := IndexOf(text, m.begin, 0), IndexOf(text, m.end, 0);
    BeginEndsBeforeEnd(m, text, b, e);
    before, inside, after := text[..b], text[b + |m.begin|..e], text[e + |m.end|..];
    assert text[b..b + |m.begin|] == m.begin && text[e..e + |m.end|] == m.end;
  }

  /** A begin marker is over before a later end marker starts. */
  lemma BeginEndsBeforeEnd(m: Markers, x: string, b: int, e: int)
    requires AreProper(m) && OccursAt(x, m.begin, b) && OccursAt(x, m.end, e) && b < e
    ensures b + |m.begin| <= e
  {
    MarkersNeedMarkup(x, m.begin, b);
    MarkersNeedMarkup(x, m.end, e);
  }

  // ----- Which markers come first -----

  /** What the first markers of a text are. */
  datatype Trace = Nothing | Begins | Ends | InOrder | OutOfOrder

  function Firsts(m: Markers, text: string): Trace {
    var b, e := IndexOf(text, m.begin, 0), IndexOf(text, m.end, 0);
    if b == -1 && e == -1 then Nothing
    else if e == -1 then Begins
    else if b == -1 then Ends
    else if b < e then InOrder
    else OutOfOrder
  }

  /** The first markers of two texts in a row. */
  function Then(first: Trace, second: Trace): Trace {
    match first
    case Nothing => second
    case Begins => if second in {Nothing, Begins} then Begins else InOrder
    case Ends => if second in {Nothing, Ends} then Ends else OutOfOrder
    case InOrder => InOrder
    case OutOfOrder => OutOfOrder
  }

  /** The character is in neither marker. */
  predicate Avoids(m: Markers, c: char) {
    Lacks(m.begin, c) && Lacks(m.end, c)
  }

  lemma OccursAcross(x: string, c: char, y: string, needle: string, i: nat)
    requires needle != "" && Lacks(needle, c)
    ensures i <= |x| ==> (OccursAt(x + [c] + y, needle, i) <==> OccursAt(x, needle, i))
    ensures i > |x| ==> (OccursAt(x + [c] + y, needle, i) <==> OccursAt(y, needle, i - |x| - 1))
  {
    var s, n := x + [c] + y, |needle|;
    if i + n <= |x| {
      assert s[i..i + n] == x[i..i + n];
    } else if i <= |x| && i + n <= |s| {
      assert s[i..i + n][|x| - i] == c && needle[|x| - i] != c;
    } else if i > |x| && i + n <= |s| {
      assert s[i..i + n] == y[i - |x| - 1..i - |x| - 1 + n];
    }
  }

  /** No needle spans a character it lacks. */
  lemma IndexOfAcross(x: string, c: char, y: string, needle: string)
    requires needle != "" && Lacks(needle, c)
    ensures IndexOf(x + [c] + y, needle, 0) ==
      if IndexOf(x, needle, 0) != -1 then IndexOf(x, needle, 0)
      else if IndexOf(y, needle, 0) != -1 then |x| + 1 + IndexOf(y, needle, 0)
      else -1
  {
    var s, k := x + [c] + y, IndexOf(x + [c] + y, needle, 0);
    var i, j := IndexOf(x, needle, 0), IndexOf(y, needle, 0);
    if k != -1 {
      OccursAcross(x, c, y, needle, k);
    }
    if i != -1 {
      OccursAcross(x, c, y, needle, i);
    }
    if j != -1 {
      OccursAcross(x, c, y, needle, |x| + 1 + j);
    }
  }

  /** Across a character that is in no marker, the first markers are those of the two sides. */
  lemma FirstsAcross(m: Markers, x: string, c: char, y: string)
    requires m.begin != "" && m.end != "" && Avoids(m, c)
    ensures Firsts(m, x + [c] + y) == Then(Firsts(m, x), Firsts(m, y))
  {
    IndexOfAcross(x, c, y, m.begin);
    IndexOfAcross(x, c, y, m.end);
  }

  lemma NoMarkupNoMarker(m: Markers, text: string)
    requires AreProper(m) && Lacks(text, '<')
    ensures Firsts(m, text) == Nothing
  {
  }

  lemma MarkersTrace(m: Markers)
    requires AreProper(m)
    ensures Firsts(m, m.begin) == Begins && Firsts(m, m.end) == Ends
  {
  }

  lemma InOrderMeansOrdered(m: Markers, text: string)
    ensures Firsts(m, text) == InOrder <==> HasOrderedMarkers(m, text)
    ensures Firsts(m, text) in {InOrder, OutOfOrder} <==> HasMarkers(m, text)
  {
  }

  /** Exactly: the block step leaves its markers around a current block if and only if they are in
      order, and a text it settles on if and only if they are not in the wrong order. */
  lemma SettlesUnlessMisordered(m: Markers, text: string)
    requires AreProper(m)
    ensures HasMarkers(m, Rewrite(m, text)) && !IsStale(m, Rewrite(m, text)) <==> Firsts(m, text) == InOrder
    ensures Rewrite(m, Rewrite(m, text)) == Rewrite(m, text) <==> Firsts(m, text) != OutOfOrder
  {
    if HasMarkers(m, text) {
      OrderIsExact(m, text);
      if HasOrderedMarkers(m, text) {
        PutBlockIsFound(m, text);
      } else {
        MisorderedBlockStaysStale(m, text);
        MisorderedBlockStaysStale(m, PutBlock(m, text));
      }
    }
  }
}
