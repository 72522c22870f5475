/** The text of the perturbation journal (scripts/check-activation-effective.ts): the JSON object
  `{"path":…,"original":…,"startedAt":…}`, and its reader. */
module JournalCodec {
  import opened Options

  datatype Entry = Entry(path: string, original: string, startedAt: string)

  // ----- Writing: `JSON.stringify` -----

  function HexDigit(n: nat): char
    requires n < 16
  {
    "0123456789abcdef"[n]
  }

  function HexValue(c: char): Option<nat> {
    if '0' <= c <= '9' then Some(c as nat - '0' as nat)
    else if 'a' <= c <= 'f' then Some(c as nat - 'a' as nat + 10)
    else None
  }

  /** One character of a JSON string. */
  function Escape(c: char): string {
    var n := c as nat;
    if c == '"' then "\\\""
    else if c == '\\' then "\\\\"
    else if n == 8 then "\\b"
    else if n == 9 then "\\t"
    else if n == 10 then "\\n"
    else if n == 12 then "\\f"
    else if n == 13 then "\\r"
    else if n < 32 then "\\u00" + [HexDigit(n / 16), HexDigit(n % 16)]
    else [c]
  }

  function EscapeAll(s: string): string {
    if s == "" then "" else Escape(s[0]) + EscapeAll(s[1..])
  }

  const PATH_KEY := "{\"path\":\""
  const ORIGINAL_KEY := "\",\"original\":\""
  const STARTED_KEY := "\",\"startedAt\":\""
  const CLOSING := "\"}"

  function Encode(e: Entry): string {
    EncodeBefore(e, "")
  }

  /** The record, followed by `rest`. */
  function EncodeBefore(e: Entry, rest: string): string {
    PATH_KEY + EscapeAll(e.path)
    + (ORIGINAL_KEY + EscapeAll(e.original)
       + (STARTED_KEY + EscapeAll(e.startedAt)
          + (CLOSING + rest)))
  }

  lemma EncodeThenRest(e: Entry, rest: string)
    ensures Encode(e) + rest == EncodeBefore(e, rest)
  {
  }

  // ----- Reading: `JSON.parse` on texts of this shape -----

  datatype Glyph = NoGlyph | Glyph(c: char, width: nat)

  datatype Read<T> = Fail | Got(value: T, rest: string)

  /** The first character of a string body and how much text spells it; none at the closing quote
      or at a cut escape. */
  function Peek(t: string): (r: Glyph)
    ensures r.Glyph? ==> 0 < r.width <= |t|
  {
    if t == "" || t[0] == '"' || t[0] as nat < 32 then NoGlyph
    else if t[0] != '\\' then Glyph(t[0], 1)
    else if |t| < 2 then NoGlyph
    else match t[1]
      case '"' => Glyph('"', 2)
      case '\\' => Glyph('\\', 2)
      case 'b' => Glyph(8 as char, 2)
      case 't' => Glyph(9 as char, 2)
      case 'n' => Glyph(10 as char, 2)
      case 'f' => Glyph(12 as char, 2)
      case 'r' => Glyph(13 as char, 2)
      case 'u' =>
        if |t| < 6 || t[2] != '0' || t[3] != '0' || HexValue(t[4]).None? || HexValue(t[5]).None? then NoGlyph
        else Glyph((16 * HexValue(t[4]).value + HexValue(t[5]).value) as char, 6)
      case _ => NoGlyph
  }

  /** A string body, up to but not including its closing quote. */
  function ReadBody(t: string): Read<string>
    decreases |t|
  {
    if t != "" && t[0] == '"' then Got("", t)
    else
      var first := Peek(t);
      if first.NoGlyph? then Fail
      else
        var more := ReadBody(t[first.width..]);
        if more.Fail? then Fail else Got([first.c] + more.value, more.rest)
  }

  function ReadLiteral(t: string, literal: string): Read<()> {
    if literal <= t then Got((), t[|literal|..]) else Fail
  }

  /** A key, with its opening quote, and the string body after it. */
  function ReadField(t: string, key: string): Read<string> {
    var k := ReadLiteral(t, key);
    if k.Fail? then Fail else ReadBody(k.rest)
  }

  /** The object at the head of `t`. */
  function ReadEntry(t: string): Read<Entry> {
    var path := ReadField(t, PATH_KEY);
    if path.Fail? then Fail else
    var original := ReadField(path.rest, ORIGINAL_KEY);
    if original.Fail? then Fail else
    var started := ReadField(original.rest, STARTED_KEY);
    if started.Fail? then Fail else
    var end := ReadLiteral(started.rest, CLOSING);
    if end.Fail? then Fail else
    Got(Entry(path.value, original.value, started.value), end.rest)
  }

  function Decode(t: string): Option<Entry> {
    match ReadEntry(t)
    case Fail => None
    case Got(e, rest) => if rest == "" then Some(e) else None
  }

  // ----- Round trip -----

  lemma HexRoundTrip(n: nat)
    requires n < 16
    ensures HexValue(HexDigit(n)) == Some(n)
  {
  }

  lemma PeekAtEscape(c: char, rest: string)
    ensures Peek(Escape(c) + rest) == Glyph(c, |Escape(c)|)
  {
    var n := c as nat;
    var t := Escape(c) + rest;
    if n < 32 && n !in {8, 9, 10, 12, 13} {
      HexRoundTrip(n / 16);
      HexRoundTrip(n % 16);
      assert t[2] == '0' && t[3] == '0' && t[4] == HexDigit(n / 16) && t[5] == HexDigit(n % 16);
    }
  }

  lemma DropPrefix(a: string, b: string)
    ensures a <= a + b && (a + b)[|a|..] == b
  {
  }

  /** The escaped text of `s` starts with the escape of its first character. */
  lemma PeekAtEscaped(s: string, rest: string)
    requires s != ""
    ensures var t := EscapeAll(s) + rest;
      && t != "" && t[0] != '"'
      && Peek(t) == Glyph(s[0], |Escape(s[0])|) && |Escape(s[0])| <= |t|
      && t[|Escape(s[0])|..] == EscapeAll(s[1..]) + rest
  {
    var tail := EscapeAll(s[1..]) + rest;
    assert EscapeAll(s) + rest == Escape(s[0]) + tail;
    PeekAtEscape(s[0], tail);
    DropPrefix(Escape(s[0]), tail);
  }

  lemma {:induction false} ReadBodyOfEscaped(s: string, rest: string)
    requires rest != "" && rest[0] == '"'
    ensures ReadBody(EscapeAll(s) + rest) == Got(s, rest)
  {
    if s == "" {
      assert EscapeAll(s) + rest == rest;
    } else {
      PeekAtEscaped(s, rest);
      ReadBodyOfEscaped(s[1..], rest);
      assert [s[0]] + s[1..] == s;
    }
  }

  lemma ReadFieldOfEncoded(key: string, s: string, rest: string)
    requires rest != "" && rest[0] == '"'
    ensures ReadField(key + EscapeAll(s) + rest, key) == Got(s, rest)
  {
    assert key + EscapeAll(s) + rest == key + (EscapeAll(s) + rest);
    DropPrefix(key, EscapeAll(s) + rest);
    ReadBodyOfEscaped(s, rest);
  }

  lemma ReadLiteralOf(literal: string, rest: string)
    ensures ReadLiteral(literal + rest, literal) == Got((), rest)
  {
  }

  lemma ReadEntryOfEncoded(e: Entry, rest: string)
    ensures ReadEntry(Encode(e) + rest) == Got(e, rest)
  {
    var end := CLOSING + rest;
    var started := STARTED_KEY + EscapeAll(e.startedAt) + end;
    var original := ORIGINAL_KEY + EscapeAll(e.original) + started;
    EncodeThenRest(e, rest);
    ReadFieldOfEncoded(PATH_KEY, e.path, original);
    ReadFieldOfEncoded(ORIGINAL_KEY, e.original, started);
    ReadFieldOfEncoded(STARTED_KEY, e.startedAt, end);
    ReadLiteralOf(CLOSING, rest);
  }

  lemma ReadEntryOfWhole(e: Entry)
    ensures ReadEntry(Encode(e)) == Got(e, "")
  {
    ReadEntryOfEncoded(e, "");
    assert Encode(e) + "" == Encode(e);
  }

  lemma RoundTrip(e: Entry)
    ensures Decode(Encode(e)) == Some(e)
  {
    ReadEntryOfWhole(e);
  }

  // ----- More text behind a record -----

  lemma PeekExtends(t: string, more: string)
    requires Peek(t).Glyph?
    ensures Peek(t + more) == Peek(t)
  {
  }

  lemma DropExtends(t: string, more: string, k: nat)
    requires k <= |t|
    ensures (t + more)[k..] == t[k..] + more
  {
  }

  lemma {:induction false} ReadBodyExtends(t: string, more: string)
    requires ReadBody(t).Got?
    ensures ReadBody(t + more) == Got(ReadBody(t).value, ReadBody(t).rest + more)
    decreases |t|
  {
    if t[0] != '"' {
      PeekExtends(t, more);
      var k := Peek(t).width;
      DropExtends(t, more, k);
      ReadBodyExtends(t[k..], more);
    }
  }

  lemma ReadLiteralExtends(t: string, literal: string, more: string)
    requires ReadLiteral(t, literal).Got?
    ensures ReadLiteral(t + more, literal) == Got((), ReadLiteral(t, literal).rest + more)
  {
  }

  lemma ReadFieldExtends(t: string, key: string, more: string)
    requires ReadField(t, key).Got?
    ensures ReadField(t + more, key) == Got(ReadField(t, key).value, ReadField(t, key).rest + more)
  {
    ReadLiteralExtends(t, key, more);
    ReadBodyExtends(ReadLiteral(t, key).rest, more);
  }

  lemma ReadEntryExtends(t: string, more: string)
    requires ReadEntry(t).Got?
    ensures ReadEntry(t + more) == Got(ReadEntry(t).value, ReadEntry(t).rest + more)
  {
    ReadFieldExtends(t, PATH_KEY, more);
    var path := ReadField(t, PATH_KEY).rest;
    ReadFieldExtends(path, ORIGINAL_KEY, more);
    var original := ReadField(path, ORIGINAL_KEY).rest;
    ReadFieldExtends(original, STARTED_KEY, more);
    ReadLiteralExtends(ReadField(original, STARTED_KEY).rest, CLOSING, more);
  }
}
