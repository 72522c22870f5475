/** String operations the scripts rely on: searching, and splitting into lines. */
module Text {

  /** `needle` stands at position `i` of `s`. */
  predicate OccursAt(s: string, needle: string, i: int) {
    0 <= i <= |s| - |needle| && s[i..i + |needle|] == needle
  }

  /** `String.prototype.indexOf`: the first occurrence at or after `from`, or -1. */
  function IndexOf(s: string, needle: string, from: nat): (k: int)
    ensures k == -1 ==> forall i :: from <= i ==> !OccursAt(s, needle, i)
    ensures k != -1 ==> from <= k && OccursAt(s, needle, k)
    ensures k != -1 ==> forall i :: from <= i < k ==> !OccursAt(s, needle, i)
    decreases |s| - from
  {
    if from + |needle| > |s| then -1
    else if OccursAt(s, needle, from) then from
    else IndexOf(s, needle, from + 1)
  }

  predicate Lacks(s: string, c: char) {
    forall i :: 0 <= i < |s| ==> s[i] != c
  }

  /** The white space of `\s` and of `trim`. */
  predicate IsSpace(c: char) {
    var n := c as nat;
    || 9 <= n <= 13 || n == 32 || n == 0xa0 || n == 0x1680 || 0x2000 <= n <= 0x200a
    || n == 0x2028 || n == 0x2029 || n == 0x202f || n == 0x205f || n == 0x3000 || n == 0xfeff
  }

  predicate IsAllSpace(s: string) {
    forall i :: 0 <= i < |s| ==> IsSpace(s[i])
  }

  const NEWLINE: char := '\n'

  /** `s.split("\n")`. */
  function Split(s: string): (lines: seq<string>)
    ensures lines != []
  {
    if s == "" then [""] else Push(s[0], Split(s[1..]))
  }

  /** The lines of a text with one more character in front. */
  function Push(c: char, lines: seq<string>): (more: seq<string>)
    requires lines != []
    ensures more != []
  {
    if c == NEWLINE then [""] + lines else [[c] + lines[0]] + lines[1..]
  }

  /** The lines of two texts written one after the other. */
  function Glue(a: seq<string>, b: seq<string>): seq<string>
    requires a != [] && b != []
  {
    a[..|a| - 1] + [a[|a| - 1] + b[0]] + b[1..]
  }

  /** `lines.join("\n")`. */
  function Join(lines: seq<string>): string {
    if lines == [] then ""
    else if |lines| == 1 then lines[0]
    else lines[0] + [NEWLINE] + Join(lines[1..])
  }

  /** No entry holds a newline. */
  predicate AreLines(lines: seq<string>) {
    forall i :: 0 <= i < |lines| ==> NEWLINE !in lines[i]
  }

  lemma {:induction false} SplitGivesLines(s: string)
    ensures AreLines(Split(s))
  {
    if s != "" {
      SplitGivesLines(s[1..]);
    }
  }

  lemma JoinOfPush(c: char, lines: seq<string>)
    requires lines != []
    ensures Join(Push(c, lines)) == [c] + Join(lines)
  {
    if c == NEWLINE {
      assert Push(c, lines)[1..] == lines;
      assert "" + [NEWLINE] == [NEWLINE];
    } else if |lines| > 1 {
      assert Push(c, lines)[1..] == lines[1..];
      assert [c] + lines[0] + [NEWLINE] + Join(lines[1..]) == [c] + (lines[0] + [NEWLINE] + Join(lines[1..]));
    }
  }

  lemma {:induction false} JoinSplit(s: string)
    ensures Join(Split(s)) == s
  {
    if s != "" {
      JoinSplit(s[1..]);
      JoinOfPush(s[0], Split(s[1..]));
      assert s == [s[0]] + s[1..];
    }
  }

  /** Splitting on newline is injective. */
  lemma SplitIsInjective(s: string, t: string)
    requires Split(s) == Split(t)
    ensures s == t
  {
    JoinSplit(s);
    JoinSplit(t);
  }

  lemma GlueOfNewline(a: seq<string>, b: seq<string>)
    requires a != [] && b != []
    ensures Glue([""] + a, b) == [""] + Glue(a, b)
  {
    assert ([""] + a)[..|a|] == [""] + a[..|a| - 1];
  }

  lemma GlueOfCharacter(c: char, first: string, a: seq<string>, b: seq<string>)
    requires b != []
    ensures Glue([[c] + first] + a, b) == [[c] + Glue([first] + a, b)[0]] + Glue([first] + a, b)[1..]
  {
    if a == [] {
      assert ([c] + first) + b[0] == [c] + (first + b[0]);
    } else {
      var n := |a|;
      assert ([[c] + first] + a)[..n] == [[c] + first] + a[..n - 1];
      assert ([first] + a)[..n] == [first] + a[..n - 1];
      assert Glue([first] + a, b)[1..] == a[..n - 1] + [a[n - 1] + b[0]] + b[1..];
    }
  }

  lemma GlueOfPush(c: char, a: seq<string>, b: seq<string>)
    requires a != [] && b != []
    ensures Glue(a, b) != [] && Glue(Push(c, a), b) == Push(c, Glue(a, b))
  {
    if c == NEWLINE {
      GlueOfNewline(a, b);
    } else {
      assert a == [a[0]] + a[1..];
      GlueOfCharacter(c, a[0], a[1..], b);
    }
  }

  /** Splitting a concatenation glues the lines of its parts. */
  lemma {:induction false} SplitOfConcat(s: string, t: string)
    ensures Split(s + t) == Glue(Split(s), Split(t))
  {
    if s == "" {
      assert s + t == t && "" + Split(t)[0] == Split(t)[0];
    } else {
      assert (s + t)[1..] == s[1..] + t && (s + t)[0] == s[0];
      SplitOfConcat(s[1..], t);
      GlueOfPush(s[0], Split(s[1..]), Split(t));
    }
  }

  lemma {:induction false} SplitOfLine(line: string)
    requires NEWLINE !in line
    ensures Split(line) == [line]
  {
    if line != "" {
      SplitOfLine(line[1..]);
      assert [line[0]] + line[1..] == line;
    }
  }

  lemma {:induction false} SplitJoin(lines: seq<string>)
    requires lines != [] && AreLines(lines)
    ensures Split(Join(lines)) == lines
  {
    SplitOfLine(lines[0]);
    if |lines| == 1 {
      assert lines == [lines[0]];
    } else {
      SplitJoin(lines[1..]);
      var tail := [NEWLINE] + Join(lines[1..]);
      assert tail[1..] == Join(lines[1..]);
      assert Split(tail) == [""] + lines[1..];
      SplitOfConcat(lines[0], tail);
      assert lines[0] + [NEWLINE] + Join(lines[1..]) == lines[0] + tail;
      assert lines[0] + "" == lines[0];
      assert Glue([lines[0]], [""] + lines[1..]) == lines;
    }
  }

  /** The lines before the last, and the lines after the first: those a neighbour cannot change. */
  function Inner(lines: seq<string>): seq<string>
    requires lines != []
  {
    lines[..|lines| - 1]
  }

  lemma GlueMembers(a: seq<string>, b: seq<string>, x: string)
    requires a != [] && b != []
    ensures x in Glue(a, b) <==> x in Inner(a) || x == a[|a| - 1] + b[0] || x in b[1..]
  {
  }

  lemma GlueThreeMembers(a: seq<string>, b: seq<string>, c: seq<string>, x: string)
    requires a != [] && |b| >= 2 && c != [] && x in Glue(Glue(a, b), c)
    ensures || x in Inner(a) || x == a[|a| - 1] + b[0] || x in b[1..|b| - 1]
            || x == b[|b| - 1] + c[0] || x in c[1..]
  {
    var ab := Glue(a, b);
    GlueMembers(ab, c, x);
    assert ab[|ab| - 1] == b[|b| - 1];
    assert Inner(ab) == Inner(a) + [a[|a| - 1] + b[0]] + b[1..|b| - 1];
  }

  /** A line of three texts in a row lies within one of them or spans a seam. */
  lemma LinesOfThree(s: string, x: string, t: string, line: string)
    requires |Split(x)| >= 2 && line in Split(s + x + t)
    ensures var a, b, c := Split(s), Split(x), Split(t);
      || line in Inner(a) || line == a[|a| - 1] + b[0] || line in b[1..|b| - 1]
      || line == b[|b| - 1] + c[0] || line in c[1..]
  {
    SplitOfConcat(s, x);
    SplitOfConcat(s + x, t);
    GlueThreeMembers(Split(s), Split(x), Split(t), line);
  }

  /** The same, around a text of five lines. */
  lemma LinesAroundFive(s: string, x: string, five: seq<string>, t: string, line: string)
    requires Split(x) == five && |five| == 5 && line in Split(s + x + t)
    ensures || line in Inner(Split(s)) || line in Split(t)[1..]
            || line == Split(s)[|Split(s)| - 1] + five[0]
            || line == five[1] || line == five[2] || line == five[3]
            || line == five[4] + Split(t)[0]
  {
    LinesOfThree(s, x, t, line);
    assert five[1..4] == [five[1], five[2], five[3]];
  }

  /** Complete lines of a part are lines of the whole. */
  lemma LinesOfParts(s: string, t: string, line: string)
    requires line in Inner(Split(s)) || line in Split(t)[1..]
    ensures line in Split(s + t)
  {
    SplitOfConcat(s, t);
    GlueMembers(Split(s), Split(t), line);
  }
}
