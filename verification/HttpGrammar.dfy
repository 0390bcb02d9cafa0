/** The requests the sensor takes, letter by letter, what is recorded of one, and which fault of a refused one
    is named: sections 3 and 5 of RFC 9112, section 5.6.2 of RFC 9110 (src/protocols/http.rs). */
module HttpGrammar {
  import opened Bytes
  import opened Session
  import opened HttpText
  import opened HttpParser
  import opened HttpPrinter
  import opened HttpWire
  import Utf8

  // ---------- Letters ----------

  predicate NameChar(c: char) {
    '0' <= c <= '9' || 'A' <= c <= 'Z' || 'a' <= c <= 'z' || c in "!#$%&'*+-.^_`|~"
  }

  predicate NameText(t: Text) {
    t != [] && forall i | 0 <= i < |t| :: NameChar(t[i] as int as char)
  }

  predicate ValueText(t: Text) {
    forall i | 0 <= i < |t| :: t[i] == 9 || (t[i] >= 32 && t[i] != 127)
  }

  /** The bytes spell a lower-case word, in either case. */
  predicate Spells(t: Text, word: string) {
    && |t| == |word|
    && forall i | 0 <= i < |t| ::
         t[i] as int == word[i] as int || ('a' <= word[i] <= 'z' && t[i] as int == word[i] as int - 32)
  }

  /** A raw field value without the spaces and tabs around it. */
  ghost predicate TrimsTo(raw: Text, value: Text) {
    exists before, after :: raw == before + value + after && (forall b | b in before + after :: b == 32 || b == 9)
                            && (value == [] || (value[0] !in {32, 9} && value[|value| - 1] !in {32, 9}))
  }

  lemma {:induction false} NameBytes(b: byte)
    ensures TokenByte(b) <==> NameChar(b as int as char)
  {
  }

  lemma {:induction false} NameTexts(t: Text)
    ensures Token(t) <==> NameText(t)
  {
    hide TokenByte, NameChar;
    forall b: byte ensures TokenByte(b) <==> NameChar(b as int as char) {
      NameBytes(b);
    }
    assert forall i | 0 <= i < |t| :: t[i] in t;
    if NameText(t) {
      forall b | b in t ensures TokenByte(b) {
        var i :| 0 <= i < |t| && t[i] == b;
      }
    }
  }

  lemma {:induction false} ValueTexts(t: Text)
    ensures (forall b | b in t :: ValueByte(b)) <==> ValueText(t)
  {
    assert forall i | 0 <= i < |t| :: t[i] in t;
    if ValueText(t) {
      forall b | b in t ensures ValueByte(b) {
        var i :| 0 <= i < |t| && t[i] == b;
      }
    }
  }

  lemma {:induction false} LowerSpells(b: byte, c: char)
    requires c as int < 128 && !('A' <= c <= 'Z')
    ensures Lower(b) as int == c as int <==>
            b as int == c as int || ('a' <= c <= 'z' && b as int == c as int - 32)
  {
  }

  lemma {:induction false} LoweredSpells(t: Text, word: string)
    requires forall c | c in word :: c as int < 128 && !('A' <= c <= 'Z')
    ensures Lowered(t) == Ascii(word) <==> Spells(t, word)
  {
    hide Lower;
    if |t| == |word| {
      forall i | 0 <= i < |t|
        ensures Lowered(t)[i] == Ascii(word)[i] <==>
                t[i] as int == word[i] as int || ('a' <= word[i] <= 'z' && t[i] as int == word[i] as int - 32)
      {
        assert word[i] in word;
        LowerSpells(t[i], word[i]);
      }
    }
  }

  /** Which names mean something. */
  lemma {:induction false} KindsAreSpelled(name: Text)
    ensures KindOf(name) == Host <==> Spells(name, "host")
    ensures KindOf(name) == UserAgent <==> Spells(name, "user-agent")
    ensures KindOf(name) == ContentLength <==> Spells(name, "content-length")
    ensures KindOf(name) == TransferEncoding <==> Spells(name, "transfer-encoding")
  {
    hide Lowered, Ascii, Spells;
    LoweredSpells(name, "host");
    LoweredSpells(name, "user-agent");
    LoweredSpells(name, "content-length");
    LoweredSpells(name, "transfer-encoding");
    WordLengths();
  }

  lemma WordLengths()
    ensures |Ascii("host")| == 4 && |Ascii("user-agent")| == 10 && |Ascii("content-length")| == 14
            && |Ascii("transfer-encoding")| == 17
  {
  }

  lemma {:induction false} TrimsExactly(raw: Text, value: Text)
    ensures TrimsTo(raw, value) <==> Trim(raw) == value
  {
    hide Trim;
    if before, after :| raw == before + value + after && (forall b | b in before + after :: b == 32 || b == 9)
                        && (value == [] || (value[0] !in {32, 9} && value[|value| - 1] !in {32, 9})) {
      TrimIsExact(before, value, after);
    }
    if Trim(raw) == value {
      var before, after := Trimmed(raw);
    }
  }

  lemma {:induction false} Trimmed(raw: Text) returns (before: Text, after: Text)
    ensures raw == before + Trim(raw) + after && (forall b | b in before + after :: Blank(b)) && NoBlankEnds(Trim(raw))
    decreases |raw|
  {
    before := FrontBlanks(raw);
    after := BackBlanks(TrimStart(raw));
  }

  lemma {:induction false} FrontBlanks(t: Text) returns (before: Text)
    ensures t == before + TrimStart(t) && (forall b | b in before :: Blank(b))
    ensures TrimStart(t) != [] ==> !Blank(TrimStart(t)[0])
  {
    before := [];
    if t != [] && Blank(t[0]) {
      var more := FrontBlanks(t[1..]);
      before := [t[0]] + more;
    }
  }

  lemma {:induction false} BackBlanks(t: Text) returns (after: Text)
    requires t != [] ==> !Blank(t[0])
    ensures t == TrimEnd(t) + after && (forall b | b in after :: Blank(b)) && NoBlankEnds(TrimEnd(t))
    decreases |t|
  {
    after := [];
    if t != [] && Blank(t[|t| - 1]) {
      var more := BackBlanks(t[..|t| - 1]);
      after := more + [t[|t| - 1]];
    }
  }

  // ---------- Requests ----------

  /** The value of a field in a decoded request. */
  ghost predicate HasValue(f: Field, word: string, value: Text) {
    Spells(f.name, word) && TrimsTo(f.raw, value)
  }

  ghost predicate NoneSpells(fields: seq<Field>, word: string) {
    forall i | 0 <= i < |fields| :: !Spells(fields[i].name, word)
  }

  ghost predicate OneSpells(fields: seq<Field>, word: string) {
    forall i, j | 0 <= i < j < |fields| :: !Spells(fields[i].name, word) || !Spells(fields[j].name, word)
  }

  predicate StartInFull(s: Start) {
    && NameText(s.method_) && |s.method_| <= 32
    && s.target != [] && (forall i | 0 <= i < |s.target| :: 33 <= s.target[i] <= 126)
    && (s.target[0] == 47 || (s.method_ == Ascii("OPTIONS") && s.target == Ascii("*")))
    && (s.version == Ascii("HTTP/1.0") || s.version == Ascii("HTTP/1.1"))
  }

  ghost predicate FieldInFull(f: Field) {
    && NameText(f.name) && ValueText(f.raw)
    && forall value | TrimsTo(f.raw, value) ::
         && (Spells(f.name, "host") ==> 1 <= |value| <= 2048)
         && (Spells(f.name, "content-length") ==>
               value != [] && (forall b | b in value :: Digit(b)) && Number(value) < 0x1_0000_0000_0000_0000)
         && (Spells(f.name, "transfer-encoding") ==> Spells(value, "chunked"))
  }

  ghost predicate FieldsInOrder(fields: seq<Field>) {
    && (forall i | 0 <= i < |fields| :: FieldInFull(fields[i]))
    && OneSpells(fields, "host") && OneSpells(fields, "content-length") && OneSpells(fields, "transfer-encoding")
  }

  /** The grammar with every rule written out. */
  ghost predicate RequestInFull(r: Request) {
    && StartInFull(r.start) && |r.fields| <= 64 && FieldsInOrder(r.fields)
    && (r.start.version == Ascii("HTTP/1.1") ==> !NoneSpells(r.fields, "host"))
    && (NoneSpells(r.fields, "content-length") || NoneSpells(r.fields, "transfer-encoding"))
  }

  lemma {:induction false} StartsInFull(s: Start)
    ensures StartOk(s) <==> StartInFull(s)
  {
    hide Ascii, Token, NameText;
    NameTexts(s.method_);
    var t := s.target;
    assert forall i | 0 <= i < |t| :: t[i] in t;
    if StartInFull(s) {
      forall b | b in t ensures 0x21 <= b <= 0x7e {
        var i :| 0 <= i < |t| && t[i] == b;
      }
    }
  }

  lemma {:induction false} FieldsInFull(f: Field)
    ensures ValidField(f) <==> FieldInFull(f)
  {
    hide KindOf, Trim, TrimsTo, Spells, Ascii, Token, NameText, Lowered, Number, ValueText;
    NameTexts(f.name);
    ValueTexts(f.raw);
    KindsAreSpelled(f.name);
    forall value ensures TrimsTo(f.raw, value) <==> Trim(f.raw) == value {
      TrimsExactly(f.raw, value);
    }
    LoweredSpells(Trim(f.raw), "chunked");
  }

  lemma {:induction false} SpelledKinds(fields: seq<Field>)
    ensures Has(fields, Host) <==> !NoneSpells(fields, "host")
    ensures Has(fields, ContentLength) <==> !NoneSpells(fields, "content-length")
    ensures Has(fields, TransferEncoding) <==> !NoneSpells(fields, "transfer-encoding")
    ensures AtMostOne(fields, Host) <==> OneSpells(fields, "host")
    ensures AtMostOne(fields, ContentLength) <==> OneSpells(fields, "content-length")
    ensures AtMostOne(fields, TransferEncoding) <==> OneSpells(fields, "transfer-encoding")
  {
    hide KindOf, Spells;
    forall i | 0 <= i < |fields|
      ensures KindOf(fields[i].name) == Host <==> Spells(fields[i].name, "host")
      ensures KindOf(fields[i].name) == ContentLength <==> Spells(fields[i].name, "content-length")
      ensures KindOf(fields[i].name) == TransferEncoding <==> Spells(fields[i].name, "transfer-encoding")
    {
      KindsAreSpelled(fields[i].name);
    }
  }

  lemma {:induction false} ValidInOrder(fields: seq<Field>)
    ensures ValidFields(fields) <==> FieldsInOrder(fields)
  {
    hide FieldInFull, ValidField, Has, AtMostOne, NoneSpells, OneSpells;
    forall i | 0 <= i < |fields| ensures ValidField(fields[i]) <==> FieldInFull(fields[i]) {
      FieldsInFull(fields[i]);
    }
    SpelledKinds(fields);
  }

  /** The requests the sensor takes are exactly those of the grammar. */
  lemma {:induction false} WellFormedInFull(r: Request)
    ensures WellFormed(r) <==> RequestInFull(r)
  {
    hide StartInFull, ValidFields, FieldsInOrder, Has, NoneSpells, Ascii, MethodOk, TargetOk;
    StartsInFull(r.start);
    ValidInOrder(r.fields);
    SpelledKinds(r.fields);
  }

  // ---------- What is recorded of a request ----------

  /** The value of the first field of a name, or none. */
  ghost predicate FirstOf(fields: seq<Field>, word: string, value: Option<Text>) {
    match value
    case None => NoneSpells(fields, word)
    case Some(v) => exists i | 0 <= i < |fields| :: HasValue(fields[i], word, v) && NoneSpells(fields[..i], word)
  }

  /** At most the first n characters of a text, and fewer only if it has no more. */
  ghost predicate FirstChars(t: Text, n: nat, r: Text) {
    r <= t && Utf8.Chars(r) <= n && (|r| < |t| ==> Utf8.Chars(r) == n && !(0x80 <= t[|r|] <= 0xBF))
  }

  ghost predicate EventInFull(r: Request, e: Event) {
    && e.HttpRequest? && e.method_ == r.start.method_ && e.path == r.start.target && e.version == r.start.version
    && FirstOf(r.fields, "host", e.host)
    && (e.userAgent == None ==> FirstOf(r.fields, "user-agent", None))
    && (e.userAgent.Some? ==>
          exists agent :: FirstOf(r.fields, "user-agent", Some(agent)) && FirstChars(agent, 1024, e.userAgent.value))
  }

  lemma {:induction false} FirstValues(fields: seq<Field>, k: Kind, word: string)
    requires forall name :: KindOf(name) == k <==> Spells(name, word)
    ensures FirstOf(fields, word, FirstValue(fields, k))
  {
    hide KindOf, Spells, Trim, TrimsTo;
    if fields != [] {
      var f, rest := fields[0], fields[1..];
      FirstValues(rest, k, word);
      TrimsExactly(f.raw, Trim(f.raw));
      if KindOf(f.name) == k {
        assert HasValue(fields[0], word, Trim(f.raw)) && NoneSpells(fields[..0], word);
      } else if FirstValue(rest, k).Some? {
        var v := FirstValue(rest, k).value;
        var i :| 0 <= i < |rest| && HasValue(rest[i], word, v) && NoneSpells(rest[..i], word);
        assert fields[i + 1] == rest[i] && fields[..i + 1] == [f] + rest[..i];
      } else {
        assert forall i | 0 < i < |fields| :: fields[i] == rest[i - 1];
      }
    }
  }

  /** The event of a decoded request: its request line as it was, the first Host value, and at most 1024
      characters of the first User-Agent value. */
  lemma {:induction false} EventsInFull(r: Request)
    ensures EventInFull(r, EventOf(r.start, r.fields))
  {
    hide KindOf, Spells, FirstOf, FirstValue, Utf8.TakeChars, Utf8.Chars;
    forall name
      ensures (KindOf(name) == Host <==> Spells(name, "host"))
              && (KindOf(name) == UserAgent <==> Spells(name, "user-agent"))
    {
      KindsAreSpelled(name);
    }
    FirstValues(r.fields, Host, "host");
    FirstValues(r.fields, UserAgent, "user-agent");
  }

  // ---------- Which fault is named ----------

  /** What is wrong with a request line. */
  ghost predicate StartFault(line: Text, msg: string) {
    || (SP !in line && msg == "http_missing_target")
    || (exists a, b :: line == a + [SP] + b && SP !in a && SP !in b && msg == "http_missing_version")
    || (exists a, b, c, d :: line == a + [SP] + b + [SP] + c + [SP] + d && msg == "http_invalid_request_line")
    || (exists s :: line == StartLine(s) && SP !in s.method_ && SP !in s.target && SP !in s.version
                    && WrongStart(s, msg))
  }

  predicate WrongStart(s: Start, msg: string) {
    if !NameText(s.method_) || |s.method_| > 32 then msg == "http_invalid_request_line"
    else if s.version != Ascii("HTTP/1.0") && s.version != Ascii("HTTP/1.1") then msg == "http_unsupported_version"
    else !StartInFull(s) && msg == "http_invalid_target"
  }

  lemma {:induction false} FourFields(line: Text) returns (a: Text, b: Text, c: Text, d: Text)
    requires |SplitAt(SP, line)| > 3
    ensures line == a + [SP] + b + [SP] + c + [SP] + d
  {
    hide SplitAt;
    var f := SplitAt(SP, line);
    var one := FirstField(SP, line);
    var two := FirstField(SP, one);
    var three := FirstField(SP, two);
    a, b, c, d := f[0], f[1], f[2], three;
    assert f[1] == f[1..][0] && f[2] == f[1..][1..][0];
    assert line == a + ([SP] + (b + ([SP] + (c + ([SP] + d)))));
  }

  lemma {:induction false} TwoFields(line: Text)
    ensures |SplitAt(SP, line)| == 1 ==> SP !in line
    ensures |SplitAt(SP, line)| == 2 ==> exists a, b :: line == a + [SP] + b && SP !in a && SP !in b
  {
    var k := IndexOf(SP, line);
    if k < |line| {
      var one := line[k + 1..];
      assert line == line[..k] + [SP] + one;
      assert SplitAt(SP, line)[1..] == SplitAt(SP, one);
      if |SplitAt(SP, one)| == 1 {
        assert one[..|one|] == one;
      }
    } else {
      assert line[..|line|] == line;
    }
  }

  lemma {:induction false} StartFaults(line: Text)
    requires ParseStart(line).Err?
    ensures StartFault(line, ParseStart(line).msg)
  {
    hide SplitAt, Ascii, NameText, Token;
    var parts := SplitAt(SP, line);
    TwoFields(line);
    if |parts| > 3 {
      var a, b, c, d := FourFields(line);
    } else if |parts| == 3 {
      ThreeFields(SP, line);
      var s := Start(parts[0], parts[1], parts[2]);
      NameTexts(s.method_);
      StartsInFull(s);
      assert line == StartLine(s);
    }
  }

  ghost predicate Parses(line: Text, f: Field) {
    line == FieldLine(f) && NameText(f.name) && ValueText(f.raw)
  }

  /** What is wrong with a header line that comes after good fields. */
  ghost predicate LineFault(good: seq<Field>, line: Text, msg: string) {
    if |good| >= 64 then msg == "http_too_many_headers"
    else if forall f :: !Parses(line, f) then msg == "http_invalid_header"
    else exists f, value :: Parses(line, f) && TrimsTo(f.raw, value) && WrongValue(good, f.name, value, msg)
  }

  ghost predicate WrongValue(good: seq<Field>, name: Text, value: Text, msg: string) {
    || (Spells(name, "host") && msg == "http_invalid_host"
        && (!NoneSpells(good, "host") || value == [] || |value| > 2048))
    || (Spells(name, "content-length") && msg == "http_invalid_content_length"
        && (!NoneSpells(good, "content-length") || value == [] || (exists b | b in value :: !Digit(b))
            || Number(value) >= 0x1_0000_0000_0000_0000))
    || (Spells(name, "transfer-encoding") && msg == "http_invalid_transfer_encoding"
        && (!NoneSpells(good, "transfer-encoding") || !Spells(value, "chunked")))
  }

  lemma {:induction false} ParsesExactly(line: Text)
    ensures forall f :: Parses(line, f) <==> ParseField(line) == Some(f)
  {
    hide FieldLine, ParseField, Token, NameText, ValueText;
    forall f ensures Parses(line, f) <==> ParseField(line) == Some(f) {
      NameTexts(f.name);
      ValueTexts(f.raw);
      if Parses(line, f) {
        FieldRoundTrip(f);
      }
      if ParseField(line) == Some(f) {
        ParsedField(line);
      }
    }
  }

  lemma {:induction false} ObjectionsInFull(good: seq<Field>, f: Field)
    requires Objection(f, FirstValue(good, KindOf(f.name)).Some?).Some?
    ensures WrongValue(good, f.name, Trim(f.raw), Objection(f, FirstValue(good, KindOf(f.name)).Some?).value)
  {
    hide KindOf, Trim, Spells, Lowered, Ascii, Number, FirstValue, Has, NoneSpells;
    KindsAreSpelled(f.name);
    FirstValueHas(good, KindOf(f.name));
    SpelledKinds(good);
    LoweredSpells(Trim(f.raw), "chunked");
  }

  lemma {:induction false} LineFaults(lines: seq<Text>, i: nat, fields: seq<Field>) returns (good: seq<Field>)
    requires i <= |lines| && |fields| == i <= MAX_HEADERS && ValidFields(fields) && FieldLines(fields) == lines[..i]
    requires FieldsFrom(lines, i, fields).Err?
    ensures |good| < |lines| && |good| <= 64 && FieldLines(good) == lines[..|good|] && ValidFields(good)
    ensures LineFault(good, lines[|good|], FieldsFrom(lines, i, fields).msg)
    decreases |lines| - i
  {
    hide ValidFields, Objection, ParseField, FieldLine, KindOf, ValidField, Parses, WrongValue, TrimsTo, Trim;
    good := fields;
    ParsesExactly(lines[i]);
    if i < MAX_HEADERS && ParseField(lines[i]).Some? {
      var f := ParseField(lines[i]).value;
      ParsedField(lines[i]);
      FirstValueHas(fields, KindOf(f.name));
      if Objection(f, FirstValue(fields, KindOf(f.name)).Some?).None? {
        ObjectionIsInvalid(f, Has(fields, KindOf(f.name)));
        ValidSnoc(fields, f);
        assert FieldLines(fields + [f]) == FieldLines(fields) + [lines[i]];
        assert lines[..i + 1] == lines[..i] + [lines[i]];
        good := LineFaults(lines, i + 1, fields + [f]);
      } else {
        ObjectionsInFull(fields, f);
        TrimsExactly(f.raw, Trim(f.raw));
        assert Parses(lines[i], f);
      }
    }
  }

  ghost predicate WholeFault(s: Start, fields: seq<Field>, msg: string) {
    if s.version == Ascii("HTTP/1.1") && NoneSpells(fields, "host") then msg == "http_missing_host"
    else
      && !NoneSpells(fields, "content-length") && !NoneSpells(fields, "transfer-encoding")
      && msg == "http_ambiguous_framing"
  }

  /** The first header line at fault after good ones, or, when every line is good, what is wrong with the fields
      as a whole. */
  ghost predicate FieldFault(s: Start, good: seq<Field>, headers: seq<Text>, msg: string) {
    && FieldsInOrder(good) && |good| <= |headers| && |good| <= 64 && FieldLines(good) == headers[..|good|]
    && if |good| < |headers| then LineFault(good, headers[|good|], msg) else WholeFault(s, good, msg)
  }

  lemma {:induction false} FieldFaults(s: Start, headers: seq<Text>) returns (good: seq<Field>)
    requires FieldsFrom(headers, 0, []).Ok? ==> Framed(s, FieldsFrom(headers, 0, []).value).Err?
    ensures var fields := FieldsFrom(headers, 0, []);
            FieldFault(s, good, headers, if fields.Err? then fields.msg else Framed(s, fields.value).msg)
  {
    hide FieldsFrom, LineFault, FieldsInOrder, ValidFields, FieldLines, NoneSpells, Has, FirstValue, Ascii;
    NoFields();
    assert headers[..0] == [];
    var fields := FieldsFrom(headers, 0, []);
    if fields.Err? {
      good := LineFaults(headers, 0, []);
    } else {
      good := fields.value;
      FieldsAreValid(headers, 0, []);
      LinesOf(good, headers);
      FirstValueHas(good, Host);
      FirstValueHas(good, ContentLength);
      FirstValueHas(good, TransferEncoding);
      SpelledKinds(good);
    }
    ValidInOrder(good);
  }

  /** What is wrong with a decoded request: its request line, or the fields after it. */
  ghost predicate Fault(text: Text, msg: string) {
    var lines := SplitLines(text);
    || StartFault(lines[0], msg)
    || (exists s, good :: lines[0] == StartLine(s) && StartInFull(s)
                          && FieldFault(s, good, UntilEmpty(lines[1..]), msg))
  }

  /** A refused text is refused for the first of its faults, which the message names. */
  lemma {:induction false} FaultsInFull(text: Text)
    requires ParsedText(text).Err?
    ensures Fault(text, ParsedText(text).msg)
  {
    hide SplitLines, ParseStart, FieldsFrom, StartFault, StartInFull, FieldFault, Framed, StartLine;
    var lines := SplitLines(text);
    var h, start := UntilEmpty(lines[1..]), ParseStart(lines[0]);
    if start.Err? {
      StartFaults(lines[0]);
    } else {
      ParsedStart(lines[0]);
      StartsInFull(start.value);
      var good := FieldFaults(start.value, h);
      assert lines[0] == StartLine(start.value);
    }
  }

  lemma LinesOf(fields: seq<Field>, lines: seq<Text>)
    requires FieldLines(fields) == lines
    ensures |fields| == |lines| && lines[..|fields|] == lines
  {
  }
}
