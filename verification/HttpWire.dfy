/** The request parser on the bytes of the wire, which it decodes lossily before it looks at them
    (src/protocols/http.rs). */
module HttpWire {
  import opened Bytes
  import opened Session
  import opened HttpText
  import opened HttpParser
  import opened HttpPrinter
  import Utf8

  function DecodedField(f: Field): Field {
    Field(f.name, Utf8.Lossy(f.raw))
  }

  function DecodedFields(fields: seq<Field>): seq<Field> {
    seq(|fields|, i requires 0 <= i < |fields| => DecodedField(fields[i]))
  }

  function Decoded(r: Request): Request {
    Request(r.start, DecodedFields(r.fields))
  }

  /** A request, field values as any bytes, that is well formed once decoded. */
  ghost predicate Acceptable(r: Request) {
    WellFormed(Decoded(r))
  }

  function EventOn(r: Request): Event {
    EventOf(r.start, DecodedFields(r.fields))
  }

  // ---------- Decoding what was printed ----------

  lemma {:induction false} TokensArePlain(t: Text)
    requires Token(t)
    ensures Utf8.AllAscii(t) && Utf8.Lossy(t) == t
  {
    Utf8.LossyOfAscii(t);
  }

  lemma {:induction false} StartIsPlain(s: Start)
    requires StartOk(s)
    ensures Utf8.AllAscii(StartLine(s)) && Utf8.Lossy(StartLine(s)) == StartLine(s)
  {
    hide Ascii;
    Literals();
    hide VersionOk;
    Utf8.LossyOfAscii(StartLine(s));
  }

  lemma {:induction false} DecodeLineEnd(line: Text, rest: Text)
    ensures Utf8.Lossy(line + CRLF + rest) == Utf8.Lossy(line) + CRLF + Utf8.Lossy(rest)
  {
    hide Utf8.Lossy;
    assert line + CRLF + rest == line + ([CR] + ([LF] + rest));
    Utf8.LossyAt(line, CR, [LF] + rest);
    Utf8.LossyOfPlain(LF, rest);
    assert Utf8.Lossy(line) + CRLF + Utf8.Lossy(rest) == Utf8.Lossy(line) + ([CR] + ([LF] + Utf8.Lossy(rest)));
  }

  lemma {:induction false} DecodeField(f: Field)
    requires Token(f.name)
    ensures Utf8.Lossy(FieldLine(f)) == FieldLine(DecodedField(f))
  {
    hide Utf8.Lossy;
    TokensArePlain(f.name);
    assert FieldLine(f) == f.name + ([COLON] + f.raw);
    Utf8.LossyAt(f.name, COLON, f.raw);
  }

  lemma {:induction false} FirstLine(fields: seq<Field>)
    requires fields != []
    ensures Joined(FieldLines(fields)) == FieldLine(fields[0]) + CRLF + Joined(FieldLines(fields[1..]))
    ensures DecodedFields(fields) == [DecodedField(fields[0])] + DecodedFields(fields[1..])
  {
    hide FieldLine;
    assert FieldLines(fields)[1..] == FieldLines(fields[1..]);
  }

  lemma {:induction false} DecodeFields(fields: seq<Field>, rest: Text)
    requires forall i | 0 <= i < |fields| :: Token(fields[i].name)
    ensures Utf8.Lossy(Joined(FieldLines(fields)) + rest)
            == Joined(FieldLines(DecodedFields(fields))) + Utf8.Lossy(rest)
  {
    hide Utf8.Lossy, FieldLine, FieldLines, Token, DecodedField;
    if fields == [] {
      NoLines();
      assert [] + rest == rest && [] + Utf8.Lossy(rest) == Utf8.Lossy(rest);
    } else {
      var f, more := fields[0], Joined(FieldLines(fields[1..]));
      FirstLine(fields);
      FirstLine(DecodedFields(fields));
      assert DecodedFields(fields)[1..] == DecodedFields(fields[1..]);
      Assoc(FieldLine(f) + CRLF, more, rest);
      DecodeLineEnd(FieldLine(f), more + rest);
      DecodeField(f);
      DecodeFields(fields[1..], rest);
      Assoc(FieldLine(DecodedField(f)) + CRLF, Joined(FieldLines(DecodedFields(fields[1..]))), Utf8.Lossy(rest));
    }
  }

  lemma NoLines()
    ensures Joined(FieldLines([])) == [] && DecodedFields([]) == []
  {
  }

  /** A printed request and whatever follows it, in one piece. */
  lemma {:induction false} PrintParts(r: Request, extra: Text)
    ensures Print(r) + extra == StartLine(r.start) + CRLF + (Joined(FieldLines(r.fields)) + ([] + CRLF + extra))
  {
    hide StartLine, FieldLines;
    var lines := [StartLine(r.start)] + FieldLines(r.fields);
    assert lines[1..] == FieldLines(r.fields);
    assert Joined(lines) == StartLine(r.start) + CRLF + Joined(FieldLines(r.fields));
  }

  lemma {:induction false} DecodePrinted(r: Request, extra: Text)
    requires StartOk(r.start) && forall i | 0 <= i < |r.fields| :: Token(r.fields[i].name)
    ensures Utf8.Lossy(Print(r) + extra) == Print(Decoded(r)) + Utf8.Lossy(extra)
  {
    hide Utf8.Lossy, Print, StartLine, FieldLines, DecodedFields, Token, StartOk;
    var tail := [] + CRLF + extra;
    PrintParts(r, extra);
    PrintParts(Decoded(r), Utf8.Lossy(extra));
    DecodeLineEnd(StartLine(r.start), Joined(FieldLines(r.fields)) + tail);
    StartIsPlain(r.start);
    DecodeFields(r.fields, tail);
    DecodeLineEnd([], extra);
    LossyOfNothing();
  }

  lemma LossyOfNothing()
    ensures Utf8.Lossy([]) == []
  {
  }

  // ---------- Finding the request behind decoded text ----------

  lemma {:induction false} UndecodeLineEnd(bytes: Text, line: Text, rest: Text) returns (line': Text, rest': Text)
    requires Utf8.Lossy(bytes) == line + CRLF + rest
    ensures bytes == line' + CRLF + rest' && Utf8.Lossy(line') == line && Utf8.Lossy(rest') == rest
  {
    hide Utf8.Lossy;
    assert line + CRLF + rest == line + ([CR] + ([LF] + rest));
    var b, c;
    line', b := Utf8.UnlossyAt(bytes, line, CR, [LF] + rest);
    assert [LF] + rest == [] + ([LF] + rest);
    c, rest' := Utf8.UnlossyAt(b, [], LF, rest);
    Utf8.AsciiFromLossy(c);
    assert c == [] && b == [LF] + rest';
  }

  lemma {:induction false} UndecodeField(line: Text, f: Field) returns (raw: Field)
    requires Utf8.Lossy(line) == FieldLine(f) && Token(f.name)
    ensures line == FieldLine(raw) && DecodedField(raw) == f && raw.name == f.name
  {
    hide Utf8.Lossy;
    TokensArePlain(f.name);
    assert FieldLine(f) == f.name + ([COLON] + f.raw);
    var name, value := Utf8.UnlossyAt(line, f.name, COLON, f.raw);
    Utf8.AsciiFromLossy(name);
    raw := Field(name, value);
  }

  lemma {:induction false} UndecodeFields(bytes: Text, fields: seq<Field>, rest: Text)
    returns (raws: seq<Field>, rest': Text)
    requires Utf8.Lossy(bytes) == Joined(FieldLines(fields)) + rest
             && forall i | 0 <= i < |fields| :: Token(fields[i].name)
    ensures bytes == Joined(FieldLines(raws)) + rest' && DecodedFields(raws) == fields && Utf8.Lossy(rest') == rest
    decreases |fields|
  {
    hide Utf8.Lossy, FieldLine, FieldLines, Token, DecodedField;
    if fields == [] {
      NoLines();
      raws, rest' := [], bytes;
      assert [] + rest == rest && [] + bytes == bytes;
    } else {
      var more := Joined(FieldLines(fields[1..]));
      FirstLine(fields);
      Assoc(FieldLine(fields[0]) + CRLF, more, rest);
      var line, after := UndecodeLineEnd(bytes, FieldLine(fields[0]), more + rest);
      var raw := UndecodeField(line, fields[0]);
      var others;
      others, rest' := UndecodeFields(after, fields[1..], rest);
      raws := [raw] + others;
      assert raws[1..] == others;
      FirstLine(raws);
      Assoc(FieldLine(raw) + CRLF, Joined(FieldLines(others)), rest');
    }
  }

  lemma {:induction false} UndecodePrinted(bytes: Text, r: Request, extra: Text) returns (raw: Request, extra': Text)
    requires Utf8.Lossy(bytes) == Print(r) + extra && StartOk(r.start)
             && forall i | 0 <= i < |r.fields| :: Token(r.fields[i].name)
    ensures bytes == Print(raw) + extra' && Decoded(raw) == r
  {
    hide Utf8.Lossy, Print, StartLine, FieldLines, DecodedFields, Token, StartOk;
    var tail := [] + CRLF + extra;
    PrintParts(r, extra);
    var line, after := UndecodeLineEnd(bytes, StartLine(r.start), Joined(FieldLines(r.fields)) + tail);
    StartIsPlain(r.start);
    Utf8.AsciiFromLossy(line);
    var raws, last := UndecodeFields(after, r.fields, tail);
    var none;
    none, extra' := UndecodeLineEnd(last, [], extra);
    LossyOfNothing();
    Utf8.AsciiFromLossy(none);
    raw := Request(r.start, raws);
    PrintParts(raw, extra');
  }

  // ---------- The main theorems ----------

  lemma {:induction false} AcceptableParts(r: Request)
    requires Acceptable(r)
    ensures StartOk(r.start) && forall i | 0 <= i < |r.fields| :: Token(r.fields[i].name) && WellNamed(r.fields[i])
  {
    hide Utf8.Lossy, Ascii, MethodOk, TargetOk, VersionOk;
    var fields := DecodedFields(r.fields);
    FieldsAreWellNamed(fields);
    forall i | 0 <= i < |r.fields| ensures Token(r.fields[i].name) && WellNamed(r.fields[i]) {
      assert WellNamed(fields[i]);
      RawIsWellNamed(r.fields[i]);
    }
  }

  lemma {:induction false} RawIsWellNamed(f: Field)
    requires WellNamed(DecodedField(f))
    ensures WellNamed(f)
  {
    hide Utf8.Lossy, Token;
    forall b | b in f.raw ensures ValueByte(b) {
      if b < 128 {
        Utf8.PlainBytesStay(f.raw, b);
      }
    }
  }

  lemma {:induction false} BlankSurvives(bytes: Text)
    requires |bytes| >= 4 && bytes[|bytes| - 4..] == BLANK
    ensures var text := Utf8.Lossy(bytes); |text| >= 4 && text[|text| - 4..] == BLANK
  {
    hide Utf8.Lossy;
    var t := bytes[..|bytes| - 4];
    assert bytes == t + CRLF + ([] + CRLF + []);
    DecodeLineEnd(t, [] + CRLF + []);
    DecodeLineEnd([], []);
    LossyOfNothing();
    assert Utf8.Lossy(bytes) == Utf8.Lossy(t) + BLANK;
  }

  /** A printed acceptable request, whatever follows it up to a blank line, parses to its event. */
  lemma {:induction false} WireParses(r: Request, extra: Text)
    requires Acceptable(r)
    requires var bytes := Print(r) + extra; |bytes| >= 4 && bytes[|bytes| - 4..] == BLANK
    ensures Parsed(Print(r) + extra) == Ok(EventOn(r))
  {
    hide Utf8.Lossy, Print, ParsedText, WellFormed, StartOk, Token, WellNamed, EventOf;
    AcceptableParts(r);
    DecodePrinted(r, extra);
    PrintedParses(Decoded(r), Utf8.Lossy(extra));
  }

  /** Every accepted stretch of bytes starts with a printed acceptable request, whose event it yields. */
  lemma {:induction false} AcceptedOnWire(bytes: Text) returns (r: Request, extra: Text)
    requires Parsed(bytes).Ok?
    ensures Acceptable(r) && bytes == Print(r) + extra && Parsed(bytes).value == EventOn(r)
  {
    hide Utf8.Lossy, Print, ParsedText, WellFormed, StartOk, Token, EventOf;
    BlankSurvives(bytes);
    var r', extra' := AcceptedIsPrinted(Utf8.Lossy(bytes));
    PartsOf(r');
    r, extra := UndecodePrinted(bytes, r', extra');
  }

  lemma {:induction false} PartsOf(r: Request)
    requires WellFormed(r)
    ensures StartOk(r.start) && forall i | 0 <= i < |r.fields| :: Token(r.fields[i].name)
  {
    hide Ascii, MethodOk, TargetOk, VersionOk;
    FieldsAreWellNamed(r.fields);
    forall i | 0 <= i < |r.fields| ensures Token(r.fields[i].name) {
      assert WellNamed(r.fields[i]);
    }
  }

  /** The parser accepts exactly the bytes that start with a printed acceptable request and end with
      a blank line, and yields that request's event. */
  lemma {:induction false} AcceptsExactlyThePrinted(bytes: Text, e: Event)
    ensures Parsed(bytes) == Ok(e) <==>
              && |bytes| >= 4 && bytes[|bytes| - 4..] == BLANK
              && exists r, extra :: Acceptable(r) && bytes == Print(r) + extra && e == EventOn(r)
  {
    hide Acceptable, Print, EventOn, ParsedText, Utf8.Lossy;
    if Parsed(bytes) == Ok(e) {
      var r, extra := AcceptedOnWire(bytes);
    }
    if |bytes| >= 4 && bytes[|bytes| - 4..] == BLANK {
      if r, extra :| Acceptable(r) && bytes == Print(r) + extra && e == EventOn(r) {
        WireParses(r, extra);
      }
    }
  }

  /** The blank line that ends a printed request is the first in any stream that starts with it. */
  lemma {:induction false} EndsAtTheBlank(r: Request, rest: Text)
    requires Acceptable(r)
    ensures |Print(r)| >= 4 && FindBlank(Print(r) + rest) == Some(|Print(r)| - 4)
  {
    hide Print, Acceptable, StartOk, WellNamed, Token;
    AcceptableParts(r);
    PrintedEndsAtTheBlank(r, rest);
  }
}
