/** What a crash leaves of a journal record (scripts/check-activation-effective.ts): the whole record,
  or a text no JSON reader accepts. */
module TornRecord {
  import opened Options
  import opened JsonText
  import opened JournalCodec

  // ----- The record as a JSON object -----

  /** A text without escapes, as pieces of a string body. */
  function Plainly(s: string): seq<Piece> {
    if s == "" then [] else [Spelled(s[0])] + Plainly(s[1..])
  }

  /** How an escaped character is spelled. */
  function PiecesOf(c: char): seq<Piece> {
    var t := Escape(c);
    if |t| == 1 then [Spelled(c)] else [Escaped(t[1])] + Plainly(t[2..])
  }

  function Body(s: string): seq<Piece> {
    if s == "" then [] else PiecesOf(s[0]) + Body(s[1..])
  }

  function Field(key: string, content: seq<Piece>): Member {
    Member("", Plainly(key), "", Quoted(content))
  }

  function RecordWith(path: seq<Piece>, original: seq<Piece>, started: seq<Piece>): Json {
    Object("", [Field("path", path), Field("original", original), Field("startedAt", started)])
  }

  /** The record as a JSON object. */
  function RecordOf(e: Entry): Json {
    RecordWith(Body(e.path), Body(e.original), Body(e.startedAt))
  }

  predicate HasNoQuote(s: string) {
    forall i :: 0 <= i < |s| ==> s[i] != '"' && s[i] != '\\'
  }

  lemma {:induction false} PlainText(s: string)
    requires HasNoQuote(s)
    ensures BodyText(Plainly(s)) == s && IsBody(Plainly(s))
  {
    if s != "" {
      PlainText(s[1..]);
      assert Plainly(s)[1..] == Plainly(s[1..]);
    }
  }

  lemma {:induction false} BodyTextOfConcat(a: seq<Piece>, b: seq<Piece>)
    ensures BodyText(a + b) == BodyText(a) + BodyText(b)
  {
    if a == [] {
      assert a + b == b;
    } else {
      assert (a + b)[1..] == a[1..] + b;
      BodyTextOfConcat(a[1..], b);
    }
  }

  /** An escape is the character itself, or a backslash and what spells it without one. */
  lemma EscapeShape(c: char)
    ensures var t := Escape(c);
      if |t| == 1 then t == [c] && c != '"' && c != '\\' else |t| > 1 && t[0] == '\\' && HasNoQuote(t[2..])
  {
    var n := c as nat;
    if n < 32 && n !in {8, 9, 10, 12, 13} {
      HexIsNoQuote(n / 16);
      HexIsNoQuote(n % 16);
      assert Escape(c)[2..] == "00" + [HexDigit(n / 16), HexDigit(n % 16)];
    }
  }

  lemma HexIsNoQuote(n: nat)
    requires n < 16
    ensures HexDigit(n) != '"' && HexDigit(n) != '\\'
  {
  }

  lemma PiecesText(c: char)
    ensures BodyText(PiecesOf(c)) == Escape(c) && IsBody(PiecesOf(c))
  {
    hide Escape;
    EscapeShape(c);
    var t := Escape(c);
    if |t| > 1 {
      PlainText(t[2..]);
      assert PiecesOf(c)[1..] == Plainly(t[2..]);
      assert t == ['\\', t[1]] + t[2..];
    } else {
      assert PiecesOf(c)[1..] == [];
    }
  }

  lemma {:induction false} BodyIsEscaped(s: string)
    ensures BodyText(Body(s)) == EscapeAll(s) && IsBody(Body(s))
  {
    if s != "" {
      PiecesText(s[0]);
      BodyIsEscaped(s[1..]);
      BodyTextOfConcat(PiecesOf(s[0]), Body(s[1..]));
    }
  }

  lemma {:induction false} PlainlyAt(s: string)
    ensures |Plainly(s)| == |s| && forall i :: 0 <= i < |s| ==> Plainly(s)[i] == Spelled(s[i])
  {
    if s != "" {
      PlainlyAt(s[1..]);
    }
  }

  lemma HexMeans(n: nat)
    requires n < 16
    ensures HexDigitValue(HexDigit(n)) == Some(n)
  {
  }

  lemma LongEscapeMeans(c: char, rest: seq<Piece>)
    requires |Escape(c)| > 2
    ensures |Escape(c)| == 6 && Escape(c)[1] == 'u'
    ensures LongEscape(Plainly(Escape(c)[2..]) + rest) == Some(c)
  {
    var n, digits := c as nat, Escape(c)[2..];
    HexMeans(n / 16);
    HexMeans(n % 16);
    PlainlyAt(digits);
    assert digits == "00" + [HexDigit(n / 16), HexDigit(n % 16)];
    var body := Plainly(digits) + rest;
    assert body[0] == Spelled('0') && body[1] == Spelled('0');
    assert body[2] == Spelled(HexDigit(n / 16)) && body[3] == Spelled(HexDigit(n % 16));
  }

  lemma ShortEscapeMeans(c: char)
    requires |Escape(c)| == 2
    ensures Escape(c)[1] != 'u' && ShortEscape(Escape(c)[1]) == Some(c)
  {
  }

  /** A character is spelled by what stands for it in JSON. */
  lemma PiecesMean(c: char, rest: seq<Piece>)
    ensures Meaning(PiecesOf(c) + rest) == Following(c, Meaning(rest))
  {
    hide Escape, LongEscape, ShortEscape;
    EscapeShape(c);
    var t, body := Escape(c), PiecesOf(c) + rest;
    if |t| == 1 {
      assert body[1..] == rest;
    } else if |t| == 2 {
      ShortEscapeMeans(c);
      assert t[2..] == "" && body[0] == Escaped(t[1]) && body[1..] == rest;
    } else {
      LongEscapeMeans(c, rest);
      PlainlyAt(t[2..]);
      assert body[0] == Escaped('u') && body[1..] == Plainly(t[2..]) + rest && body[5..] == rest;
    }
  }

  /** The body of a string stands, by the rules of JSON, for the string. */
  lemma {:induction false} BodyMeansItself(s: string)
    ensures Meaning(Body(s)) == Some(s)
  {
    hide PiecesOf;
    if s != "" {
      assert s == [s[0]] + s[1..];
      BodyMeansItself(s[1..]);
      PiecesMean(s[0], Body(s[1..]));
    }
  }

  const QUOTE := "\""
  const COLON := "\":\""

  lemma QuotesAround(key: string, content: string)
    ensures "" + (['"'] + key + ['"']) + "" + ":" + (['"'] + content + ['"']) == QUOTE + key + COLON + content + QUOTE
  {
  }

  lemma FieldText(key: string, content: seq<Piece>)
    requires HasNoQuote(key) && IsBody(content)
    ensures PrintMember(Field(key, content)) == QUOTE + key + COLON + BodyText(content) + QUOTE
    ensures IsWellFormedMember(Field(key, content))
  {
    hide BodyText, Plainly;
    PlainText(key);
    QuotesAround(key, BodyText(content));
  }

  lemma ThreeMembers(a: Member, b: Member, c: Member)
    ensures Print(Object("", [a, b, c])) ==
      "{" + PrintMember(a) + "," + PrintMember(b) + "," + PrintMember(c) + "}"
  {
    hide PrintMember;
    assert [a, b, c][1..] == [b, c] && [b, c][1..] == [c];
    assert PrintMembers([b, c]) == PrintMember(b) + "," + PrintMember(c);
  }

  /** The keys of the record with what stands around them. */
  lemma KeyTexts()
    ensures PATH_KEY == "{" + (QUOTE + "path" + COLON)
    ensures ORIGINAL_KEY == QUOTE + "," + (QUOTE + "original" + COLON)
    ensures STARTED_KEY == QUOTE + "," + (QUOTE + "startedAt" + COLON)
    ensures CLOSING == QUOTE + "}"
  {
  }

  /** Three fields regrouped: what stands between two contents belongs to the later key. */
  lemma Regroup(k1: string, a: string, k2: string, b: string, k3: string, c: string, q: string, comma: string,
                open: string, close: string)
    ensures open + (k1 + a + q) + comma + (k2 + b + q) + comma + (k3 + c + q) + close ==
      (open + k1) + a + ((q + comma + k2) + b + ((q + comma + k3) + c + ((q + close) + "")))
  {
  }

  lemma RecordText(path: seq<Piece>, original: seq<Piece>, started: seq<Piece>)
    requires IsBody(path) && IsBody(original) && IsBody(started)
    ensures Print(RecordWith(path, original, started)) ==
      PATH_KEY + BodyText(path)
      + (ORIGINAL_KEY + BodyText(original) + (STARTED_KEY + BodyText(started) + (CLOSING + "")))
  {
    hide PrintMember, Print, PrintMembers, BodyText, Field, IsBody;
    FieldText("path", path);
    FieldText("original", original);
    FieldText("startedAt", started);
    ThreeMembers(Field("path", path), Field("original", original), Field("startedAt", started));
    KeyTexts();
    Regroup(QUOTE + "path" + COLON, BodyText(path), QUOTE + "original" + COLON, BodyText(original),
            QUOTE + "startedAt" + COLON, BodyText(started), QUOTE, ",", "{", "}");
  }

  lemma RecordIsWellFormed(path: seq<Piece>, original: seq<Piece>, started: seq<Piece>)
    requires IsBody(path) && IsBody(original) && IsBody(started)
    ensures IsWellFormed(RecordWith(path, original, started))
  {
    hide PrintMember, IsWellFormedMember, Field, IsBody;
    FieldText("path", path);
    FieldText("original", original);
    FieldText("startedAt", started);
  }

  /** A record is the text of a JSON object. */
  lemma RecordIsAnObject(e: Entry)
    ensures RecordOf(e).Object? && IsWellFormed(RecordOf(e)) && Print(RecordOf(e)) == Encode(e)
  {
    hide Print, IsWellFormed, IsBody, Body, BodyText, EscapeAll;
    BodyIsEscaped(e.path);
    BodyIsEscaped(e.original);
    BodyIsEscaped(e.startedAt);
    RecordText(Body(e.path), Body(e.original), Body(e.startedAt));
    RecordIsWellFormed(Body(e.path), Body(e.original), Body(e.startedAt));
  }

  // ----- The reader accepts JSON objects only -----

  /** The pieces that spell the first character of a body. */
  lemma GlyphPieces(t: string) returns (pieces: seq<Piece>)
    requires Peek(t).Glyph?
    ensures IsBody(pieces) && BodyText(pieces) == t[..Peek(t).width]
  {
    if t[0] != '\\' {
      pieces := [Spelled(t[0])];
    } else if t[1] != 'u' {
      pieces := [Escaped(t[1])];
    } else {
      HexIsNoMark(t[4]);
      HexIsNoMark(t[5]);
      PlainText(t[2..6]);
      pieces := [Escaped('u')] + Plainly(t[2..6]);
      assert pieces[1..] == Plainly(t[2..6]);
    }
  }

  lemma HexIsNoMark(c: char)
    requires HexValue(c).Some?
    ensures c != '"' && c != '\\'
  {
  }

  lemma {:induction false} BodyPieces(t: string) returns (body: seq<Piece>)
    requires ReadBody(t).Got?
    ensures IsBody(body) && t == BodyText(body) + ReadBody(t).rest
    ensures ReadBody(t).rest != "" && ReadBody(t).rest[0] == '"'
    decreases |t|
  {
    hide Peek, IsBody;
    if t[0] == '"' {
      body := [];
      EmptyBody();
    } else {
      var k := Peek(t).width;
      var first := GlyphPieces(t);
      var more := BodyPieces(t[k..]);
      body := first + more;
      JoinedBodies(first, more);
      JoinedTexts(t, k, BodyText(more), ReadBody(t).rest);
    }
  }

  lemma EmptyBody()
    ensures IsBody([]) && BodyText([]) == ""
  {
  }

  lemma JoinedBodies(a: seq<Piece>, b: seq<Piece>)
    requires IsBody(a) && IsBody(b)
    ensures IsBody(a + b) && BodyText(a + b) == BodyText(a) + BodyText(b)
  {
    BodyTextOfConcat(a, b);
  }

  lemma JoinedTexts(t: string, k: nat, more: string, rest: string)
    requires k <= |t| && t[k..] == more + rest
    ensures t == t[..k] + more + rest
  {
  }

  lemma FieldPieces(t: string, key: string) returns (body: seq<Piece>)
    requires ReadField(t, key).Got?
    ensures IsBody(body) && t == key + BodyText(body) + ReadField(t, key).rest
  {
    hide ReadBody;
    body := BodyPieces(t[|key|..]);
    assert t == key + t[|key|..];
  }

  /** What the reader accepts is a JSON text. */
  lemma AcceptedIsJson(t: string)
    requires Decode(t).Some?
    ensures IsJson(t)
  {
    hide ReadField, IsWellFormed, Print;
    var path := FieldPieces(t, PATH_KEY);
    var t1 := ReadField(t, PATH_KEY).rest;
    var original := FieldPieces(t1, ORIGINAL_KEY);
    var t2 := ReadField(t1, ORIGINAL_KEY).rest;
    var started := FieldPieces(t2, STARTED_KEY);
    var t3 := ReadField(t2, STARTED_KEY).rest;
    assert t3 == CLOSING + "";
    RecordText(path, original, started);
    RecordIsWellFormed(path, original, started);
    assert Print(RecordWith(path, original, started)) == t;
  }

  // ----- A torn record -----

  /** What a reader puts for bytes that end inside a character. */
  const REPLACEMENT: char := 0xfffd as char

  /** A character of more than one byte. */
  predicate IsWide(c: char) {
    c as nat >= 0x80
  }

  /** What reads back of a write of `whole` cut after any number of bytes: the characters before the
      cut, and a replacement for the one the cut falls into, if any. */
  ghost predicate IsTorn(whole: string, left: string) {
    exists k :: 0 <= k <= |whole| && IsTornAt(whole, left, k)
  }

  ghost predicate IsTornAt(whole: string, left: string, k: nat)
    requires k <= |whole|
  {
    left == whole[..k] || (k < |whole| && IsWide(whole[k]) && left == whole[..k] + [REPLACEMENT])
  }

  /** A torn record is the whole record or no JSON text at all. */
  lemma TornRecordIsNotJson(e: Entry, left: string)
    requires IsTorn(Encode(e), left)
    ensures left == Encode(e) || !IsJson(left)
  {
    hide IsJson, IsWellFormed, Print, Encode, RecordOf;
    RecordIsAnObject(e);
    var whole := Encode(e);
    var k :| 0 <= k <= |whole| && IsTornAt(whole, left, k);
    RecordEnds(e);
    if k == |whole| {
      assert left == whole[..k] == whole;
    } else if left == whole[..k] {
      CutObjectIsNotJson(RecordOf(e), k);
    } else {
      GarbledObjectIsNotJson(RecordOf(e), k, REPLACEMENT);
    }
  }

  lemma RecordEnds(e: Entry)
    ensures Encode(e) != "" && Encode(e)[0] == '{'
  {
  }

  /** Whatever a crash leaves of a record, it is the whole record or it does not parse. */
  lemma TornRecordDoesNotParse(e: Entry, left: string)
    requires IsTorn(Encode(e), left)
    ensures Decode(left) == if left == Encode(e) then Some(e) else None
  {
    hide Decode, Encode, IsTorn, IsJson;
    TornRecordIsNotJson(e, left);
    RoundTrip(e);
    if Decode(left).Some? {
      AcceptedIsJson(left);
    }
  }

  /** Any reader that accepts JSON texts only and reads whole records back agrees with `Decode` on
      all that a crash can leave. */
  lemma EveryReaderAgrees(read: string -> Option<Entry>, e: Entry, left: string)
    requires forall text :: read(text).Some? ==> IsJson(text)
    requires read(Encode(e)) == Some(e) && IsTorn(Encode(e), left)
    ensures read(left) == Decode(left)
  {
    hide Decode, Encode, IsTorn, IsJson;
    TornRecordIsNotJson(e, left);
    TornRecordDoesNotParse(e, left);
  }
}
