/** JSON texts in general (RFC 8259, sections 2 to 7), as far as quotes and brackets go: enough to
  show that an object cut short is no JSON text at all. */
module JsonText {
  import opened Options

  // ----- The grammar -----

  /** A character of a string body as it is spelled, or a backslash and the character after it. The
      digits of a `\u` escape are spelled characters. */
  datatype Piece = Spelled(c: char) | Escaped(c: char)

  /** A JSON value with all its white space; `gap` follows an opening bracket. */
  datatype Json =
    | Scalar(text: string)
    | Quoted(body: seq<Piece>)
    | Array(gap: string, items: seq<Json>)
    | Object(gap: string, members: seq<Member>)
    | Spaced(before: string, inner: Json, after: string)

  datatype Member = Member(before: string, key: seq<Piece>, after: string, content: Json)

  function PieceText(p: Piece): string {
    match p
    case Spelled(c) => [c]
    case Escaped(c) => ['\\', c]
  }

  function BodyText(body: seq<Piece>): string {
    if body == [] then "" else PieceText(body[0]) + BodyText(body[1..])
  }

  function QuotedText(body: seq<Piece>): string {
    ['"'] + BodyText(body) + ['"']
  }

  function HexDigitValue(c: char): Option<nat> {
    if '0' <= c <= '9' then Some(c as nat - '0' as nat)
    else if 'a' <= c <= 'f' then Some(c as nat - 'a' as nat + 10)
    else if 'A' <= c <= 'F' then Some(c as nat - 'A' as nat + 10)
    else None
  }

  /** What a backslash and this character stand for (RFC 8259, section 7). */
  function ShortEscape(c: char): Option<char> {
    match c
    case '"' => Some('"')
    case '\\' => Some('\\')
    case '/' => Some('/')
    case 'b' => Some('\U{8}')
    case 'f' => Some('\U{c}')
    case 'n' => Some('\n')
    case 'r' => Some('\r')
    case 't' => Some('\t')
    case _ => None
  }

  /** The four digits after `\u`, if they are there and give a character by themselves. */
  function LongEscape(body: seq<Piece>): Option<char> {
    if |body| < 4 || exists i :: 0 <= i < 4 && (body[i].Escaped? || HexDigitValue(body[i].c).None?) then None
    else
      var n := 4096 * HexDigitValue(body[0].c).value + 256 * HexDigitValue(body[1].c).value
               + 16 * HexDigitValue(body[2].c).value + HexDigitValue(body[3].c).value;
      if 0 <= n < 0xd800 || 0xe000 <= n <= 0xffff then Some(n as char) else None
  }

  /** The text a string body stands for. */
  function Meaning(body: seq<Piece>): Option<string>
    decreases |body|
  {
    if body == [] then Some("")
    else if body[0] == Escaped('u') then
      var first := LongEscape(body[1..]);
      if first.None? then None else Following(first.value, Meaning(body[5..]))
    else
      var first := if body[0].Spelled? then Some(body[0].c) else ShortEscape(body[0].c);
      if first.None? then None else Following(first.value, Meaning(body[1..]))
  }

  function Following(c: char, rest: Option<string>): Option<string> {
    if rest.None? then None else Some([c] + rest.value)
  }

  function Print(j: Json): string
    decreases j
  {
    match j
    case Scalar(text) => text
    case Quoted(body) => QuotedText(body)
    case Array(gap, items) => ['['] + (gap + PrintItems(items)) + [']']
    case Object(gap, members) => ['{'] + (gap + PrintMembers(members)) + ['}']
    case Spaced(before, inner, after) => before + Print(inner) + after
  }

  function PrintItems(items: seq<Json>): string
    decreases items
  {
    if items == [] then ""
    else if |items| == 1 then Print(items[0])
    else Print(items[0]) + "," + PrintItems(items[1..])
  }

  function PrintMember(m: Member): string
    decreases m
  {
    m.before + QuotedText(m.key) + m.after + ":" + Print(m.content)
  }

  function PrintMembers(members: seq<Member>): string
    decreases members
  {
    if members == [] then ""
    else if |members| == 1 then PrintMember(members[0])
    else PrintMember(members[0]) + "," + PrintMembers(members[1..])
  }

  predicate IsGap(s: string) {
    forall i :: 0 <= i < |s| ==> s[i] in {' ', '\t', '\n', '\r'}
  }

  /** Every number and every literal name is such a text. */
  predicate IsScalarText(s: string) {
    s != "" && forall i :: 0 <= i < |s| ==>
      '0' <= s[i] <= '9' || 'a' <= s[i] <= 'z' || s[i] == 'E' || s[i] in {'+', '-', '.'}
  }

  predicate IsBody(body: seq<Piece>) {
    forall i :: 0 <= i < |body| ==> body[i].Spelled? ==> body[i].c != '"' && body[i].c != '\\'
  }

  predicate IsWellFormed(j: Json)
    decreases j
  {
    match j
    case Scalar(text) => IsScalarText(text)
    case Quoted(body) => IsBody(body)
    case Array(gap, items) => IsGap(gap) && forall i :: 0 <= i < |items| ==> IsWellFormed(items[i])
    case Object(gap, members) => IsGap(gap) && forall i :: 0 <= i < |members| ==> IsWellFormedMember(members[i])
    case Spaced(before, inner, after) => IsGap(before) && IsGap(after) && IsWellFormed(inner)
  }

  predicate IsWellFormedMember(m: Member)
    decreases m
  {
    IsGap(m.before) && IsBody(m.key) && IsGap(m.after) && IsWellFormed(m.content)
  }

  /** Every JSON text is one of these. */
  ghost predicate IsJson(text: string) {
    exists j :: IsWellFormed(j) && Print(j) == text
  }

  // ----- Reading quotes and brackets -----

  datatype Mode = Outside | Inside | Escaping

  /** How many brackets are open, and whether the reader is inside a string. */
  datatype State = State(depth: int, mode: Mode)

  function Step(st: State, c: char): State {
    match st.mode
    case Outside =>
      if c == '"' then st.(mode := Inside)
      else if c == '{' || c == '[' then st.(depth := st.depth + 1)
      else if c == '}' || c == ']' then st.(depth := st.depth - 1)
      else st
    case Inside =>
      if c == '"' then st.(mode := Outside) else if c == '\\' then st.(mode := Escaping) else st
    case Escaping => st.(mode := Inside)
  }

  function Scan(st: State, s: string): State {
    if s == "" then st else Step(Scan(st, s[..|s| - 1]), s[|s| - 1])
  }

  lemma {:induction false} ScanOfConcat(st: State, a: string, b: string)
    ensures Scan(st, a + b) == Scan(Scan(st, a), b)
  {
    if b == "" {
      assert a + b == a;
    } else {
      var n := |b| - 1;
      assert (a + b)[..|a + b| - 1] == a + b[..n];
      ScanOfConcat(st, a, b[..n]);
    }
  }

  ghost predicate DepthHolds(st: State, s: string, k: nat, depth: int)
    requires k <= |s|
  {
    Scan(st, s[..k]).depth >= depth
  }

  /** Reading `s` returns to `st`, and no bracket open in `st` is closed on the way. */
  ghost predicate IsBalanced(st: State, s: string) {
    Scan(st, s) == st && forall k: nat :: k <= |s| ==> DepthHolds(st, s, k, st.depth)
  }

  /** Cut anywhere inside, `s` leaves at least `depth` brackets open. */
  ghost predicate StaysOpen(st: State, s: string, depth: int) {
    forall k: nat :: 0 < k < |s| ==> DepthHolds(st, s, k, depth)
  }

  lemma EmptyIsBalanced(st: State)
    ensures IsBalanced(st, "")
  {
  }

  lemma BalancedConcat(st: State, a: string, b: string)
    requires IsBalanced(st, a) && IsBalanced(st, b)
    ensures IsBalanced(st, a + b)
  {
    ScanOfConcat(st, a, b);
    forall k: nat | k <= |a + b|
      ensures DepthHolds(st, a + b, k, st.depth)
    {
      if k <= |a| {
        assert (a + b)[..k] == a[..k];
        assert DepthHolds(st, a, k, st.depth);
      } else {
        assert (a + b)[..k] == a + b[..k - |a|];
        ScanOfConcat(st, a, b[..k - |a|]);
        assert DepthHolds(st, b, k - |a|, st.depth);
      }
    }
  }

  lemma ScanOfOne(st: State, c: char)
    ensures Scan(st, [c]) == Step(st, c)
  {
    assert [c][..0] == "";
  }

  lemma NeutralIsBalanced(st: State, c: char)
    requires Step(st, c) == st
    ensures IsBalanced(st, [c])
  {
    ScanOfOne(st, c);
    forall k: nat | k <= 1
      ensures DepthHolds(st, [c], k, st.depth)
    {
      assert [c][..k] == if k == 0 then "" else [c];
    }
  }

  lemma {:induction false} NeutralsAreBalanced(st: State, s: string)
    requires forall i :: 0 <= i < |s| ==> Step(st, s[i]) == st
    ensures IsBalanced(st, s)
  {
    if s == "" {
      EmptyIsBalanced(st);
    } else {
      var n := |s| - 1;
      NeutralsAreBalanced(st, s[..n]);
      NeutralIsBalanced(st, s[n]);
      BalancedConcat(st, s[..n], [s[n]]);
      assert s == s[..n] + [s[n]];
    }
  }

  /** A text between an opening and a closing character is balanced, and cut anywhere inside it
      leaves the depth the opening gave. */
  lemma Enclosed(st: State, within: State, open: char, s: string, close: char)
    requires Step(st, open) == within && Step(within, close) == st && within.depth >= st.depth
    requires IsBalanced(within, s)
    ensures IsBalanced(st, [open] + s + [close])
    ensures StaysOpen(st, [open] + s + [close], within.depth)
  {
    var whole := [open] + s + [close];
    forall k: nat | 0 < k < |s| + 2
      ensures DepthHolds(st, whole, k, within.depth)
    {
      assert whole[..k] == [open] + s[..k - 1];
      ScanOfOne(st, open);
      ScanOfConcat(st, [open], s[..k - 1]);
      assert DepthHolds(within, s, k - 1, within.depth);
    }
    ScanOfOne(st, open);
    ScanOfConcat(st, [open], s);
    ScanOfConcat(st, [open] + s, [close]);
    ScanOfOne(within, close);
    forall k: nat | k <= |whole|
      ensures DepthHolds(st, whole, k, st.depth)
    {
      if k == |whole| {
        assert whole[..k] == whole;
      } else if k > 0 {
        assert DepthHolds(st, whole, k, within.depth);
      }
    }
  }

  // ----- JSON texts are balanced -----

  lemma PieceIsBalanced(d: int, p: Piece)
    requires p.Spelled? ==> p.c != '"' && p.c != '\\'
    ensures IsBalanced(State(d, Inside), PieceText(p))
  {
    var st := State(d, Inside);
    match p
    case Spelled(c) => NeutralIsBalanced(st, c);
    case Escaped(c) =>
      EmptyIsBalanced(State(d, Escaping));
      Enclosed(st, State(d, Escaping), '\\', "", c);
      assert ['\\'] + "" + [c] == ['\\', c];
  }

  lemma {:induction false} BodyIsBalanced(d: int, body: seq<Piece>)
    requires IsBody(body)
    ensures IsBalanced(State(d, Inside), BodyText(body))
  {
    hide IsBalanced;
    if body == [] {
      EmptyIsBalanced(State(d, Inside));
    } else {
      PieceIsBalanced(d, body[0]);
      BodyIsBalanced(d, body[1..]);
      BalancedConcat(State(d, Inside), PieceText(body[0]), BodyText(body[1..]));
    }
  }

  lemma QuotedIsBalanced(d: int, body: seq<Piece>)
    requires IsBody(body)
    ensures IsBalanced(State(d, Outside), QuotedText(body))
  {
    hide IsBalanced;
    BodyIsBalanced(d, body);
    Enclosed(State(d, Outside), State(d, Inside), '"', BodyText(body), '"');
  }

  lemma GapIsBalanced(d: int, gap: string)
    requires IsGap(gap)
    ensures IsBalanced(State(d, Outside), gap)
  {
    NeutralsAreBalanced(State(d, Outside), gap);
  }

  lemma ScalarIsBalanced(d: int, text: string)
    requires IsScalarText(text)
    ensures IsBalanced(State(d, Outside), text)
  {
    NeutralsAreBalanced(State(d, Outside), text);
  }

  lemma {:induction false} JsonIsBalanced(d: int, j: Json)
    requires IsWellFormed(j)
    ensures IsBalanced(State(d, Outside), Print(j)) && Print(j) != ""
    decreases j
  {
    hide IsBalanced;
    var st, within := State(d, Outside), State(d + 1, Outside);
    match j
    case Scalar(text) => ScalarIsBalanced(d, text);
    case Quoted(body) => QuotedIsBalanced(d, body);
    case Array(gap, items) =>
      GapIsBalanced(d + 1, gap);
      ItemsAreBalanced(d + 1, items);
      BalancedConcat(within, gap, PrintItems(items));
      Enclosed(st, within, '[', gap + PrintItems(items), ']');
    case Object(gap, members) => ObjectIsBalanced(d, j);
    case Spaced(before, inner, after) =>
      GapIsBalanced(d, before);
      JsonIsBalanced(d, inner);
      GapIsBalanced(d, after);
      BalancedConcat(st, before, Print(inner));
      BalancedConcat(st, before + Print(inner), after);
  }

  lemma {:induction false} ItemsAreBalanced(d: int, items: seq<Json>)
    requires forall i :: 0 <= i < |items| ==> IsWellFormed(items[i])
    ensures IsBalanced(State(d, Outside), PrintItems(items))
    decreases items
  {
    hide IsBalanced;
    var st := State(d, Outside);
    EmptyIsBalanced(st);
    if items != [] {
      JsonIsBalanced(d, items[0]);
      ItemsAreBalanced(d, items[1..]);
      NeutralIsBalanced(st, ',');
      BalancedConcat(st, Print(items[0]), ",");
      BalancedConcat(st, Print(items[0]) + ",", PrintItems(items[1..]));
    }
  }

  lemma {:induction false} MemberIsBalanced(d: int, m: Member)
    requires IsWellFormedMember(m)
    ensures IsBalanced(State(d, Outside), PrintMember(m))
    decreases m
  {
    hide IsBalanced;
    var st, key := State(d, Outside), m.before + QuotedText(m.key);
    GapIsBalanced(d, m.before);
    QuotedIsBalanced(d, m.key);
    GapIsBalanced(d, m.after);
    NeutralIsBalanced(st, ':');
    JsonIsBalanced(d, m.content);
    BalancedConcat(st, m.before, QuotedText(m.key));
    BalancedConcat(st, key, m.after);
    BalancedConcat(st, key + m.after, ":");
    BalancedConcat(st, key + m.after + ":", Print(m.content));
  }

  lemma {:induction false} MembersAreBalanced(d: int, members: seq<Member>)
    requires forall i :: 0 <= i < |members| ==> IsWellFormedMember(members[i])
    ensures IsBalanced(State(d, Outside), PrintMembers(members))
    decreases members
  {
    hide IsBalanced;
    var st := State(d, Outside);
    EmptyIsBalanced(st);
    if members != [] {
      MemberIsBalanced(d, members[0]);
      MembersAreBalanced(d, members[1..]);
      NeutralIsBalanced(st, ',');
      BalancedConcat(st, PrintMember(members[0]), ",");
      BalancedConcat(st, PrintMember(members[0]) + ",", PrintMembers(members[1..]));
    }
  }

  /** An object's text is balanced, and cut anywhere inside it leaves its bracket open. */
  lemma {:induction false} ObjectIsBalanced(d: int, j: Json)
    requires IsWellFormed(j) && j.Object?
    ensures IsBalanced(State(d, Outside), Print(j))
    ensures StaysOpen(State(d, Outside), Print(j), d + 1)
    decreases j, 0
  {
    hide IsBalanced;
    var st, within := State(d, Outside), State(d + 1, Outside);
    GapIsBalanced(d + 1, j.gap);
    MembersAreBalanced(d + 1, j.members);
    BalancedConcat(within, j.gap, PrintMembers(j.members));
    Enclosed(st, within, '{', j.gap + PrintMembers(j.members), '}');
  }

  /** No proper prefix of an object is a JSON text. */
  lemma CutObjectIsNotJson(j: Json, k: nat)
    requires IsWellFormed(j) && j.Object? && k < |Print(j)|
    ensures !IsJson(Print(j)[..k])
  {
    hide Print, IsWellFormed;
    ObjectIsBalanced(0, j);
    assert k > 0 ==> DepthHolds(State(0, Outside), Print(j), k, 1);
    if IsJson(Print(j)[..k]) {
      var other :| IsWellFormed(other) && Print(other) == Print(j)[..k];
      JsonIsBalanced(0, other);
    }
  }

  /** Nor is a proper prefix with one more character behind it that closes no bracket. */
  lemma GarbledObjectIsNotJson(j: Json, k: nat, c: char)
    requires IsWellFormed(j) && j.Object? && 0 < k < |Print(j)| && c != '}' && c != ']'
    ensures !IsJson(Print(j)[..k] + [c])
  {
    hide Print, IsWellFormed;
    var st, cut := State(0, Outside), Print(j)[..k];
    ObjectIsBalanced(0, j);
    assert DepthHolds(st, Print(j), k, 1);
    ScanOfConcat(st, cut, [c]);
    ScanOfOne(Scan(st, cut), c);
    if IsJson(cut + [c]) {
      var other :| IsWellFormed(other) && Print(other) == cut + [c];
      JsonIsBalanced(0, other);
    }
  }
}
