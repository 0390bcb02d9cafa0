/** What the request parser accepts: exactly the printed well-formed requests
    (src/protocols/http.rs). */
module HttpPrinter {
  import opened Bytes
  import opened Session
  import opened HttpText
  import opened HttpParser
  import Utf8

  datatype Request = Request(start: Start, fields: seq<Field>)

  function StartLine(s: Start): Text {
    s.method_ + [SP] + s.target + [SP] + s.version
  }

  function FieldLine(f: Field): Text {
    f.name + [COLON] + f.raw
  }

  function FieldLines(fields: seq<Field>): seq<Text> {
    seq(|fields|, i requires 0 <= i < |fields| => FieldLine(fields[i]))
  }

  /** A request as it goes over the wire, up to and including the blank line. */
  function Print(r: Request): Text {
    Joined([StartLine(r.start)] + FieldLines(r.fields)) + CRLF
  }

  ghost predicate Has(fields: seq<Field>, k: Kind) {
    exists i | 0 <= i < |fields| :: KindOf(fields[i].name) == k
  }

  ghost predicate AtMostOne(fields: seq<Field>, k: Kind) {
    forall i, j | 0 <= i < j < |fields| :: KindOf(fields[i].name) != k || KindOf(fields[j].name) != k
  }

  predicate ValidField(f: Field) {
    var v := Trim(f.raw);
    && WellNamed(f)
    && match KindOf(f.name)
       case Host => 1 <= |v| <= MAX_HOST
       case ContentLength => v != [] && (forall b | b in v :: Digit(b)) && Number(v) <= U64_MAX
       case TransferEncoding => Lowered(v) == Ascii("chunked")
       case _ => true
  }

  ghost predicate ValidFields(fields: seq<Field>) {
    && (forall i | 0 <= i < |fields| :: ValidField(fields[i]))
    && AtMostOne(fields, Host) && AtMostOne(fields, ContentLength) && AtMostOne(fields, TransferEncoding)
  }

  /** A request the sensor takes: at most 64 valid fields, one Host for HTTP/1.1, and not both ways
      of framing a body. */
  ghost predicate WellFormed(r: Request) {
    && MethodOk(r.start.method_) && TargetOk(r.start.method_, r.start.target) && VersionOk(r.start.version)
    && |r.fields| <= MAX_HEADERS && ValidFields(r.fields)
    && (r.start.version == Ascii("HTTP/1.1") ==> Has(r.fields, Host))
    && !(Has(r.fields, TransferEncoding) && Has(r.fields, ContentLength))
  }

  // ---------- One field ----------

  lemma {:induction false} FieldRoundTrip(f: Field)
    requires WellNamed(f)
    ensures ParseField(FieldLine(f)) == Some(f)
  {
    assert COLON !in f.name;
    IndexAfter(COLON, f.name, f.raw);
    var line := FieldLine(f);
    assert line[..|f.name|] == f.name && line[|f.name| + 1..] == f.raw;
  }

  lemma {:induction false} ParsedField(line: Text)
    requires ParseField(line).Some?
    ensures var f := ParseField(line).value; FieldLine(f) == line && WellNamed(f)
  {
  }

  lemma {:induction false} ObjectionIsInvalid(f: Field, seen: bool)
    requires WellNamed(f)
    ensures Objection(f, seen).None? <==>
              ValidField(f) && !(seen && KindOf(f.name) in {Host, ContentLength, TransferEncoding})
  {
    hide KindOf, Trim, Lowered, Ascii, WellNamed, Number;
    var v := Trim(f.raw);
    assert (exists b | b in v :: !Digit(b)) <==> !(forall b | b in v :: Digit(b));
  }

  // ---------- The field list ----------

  lemma {:induction false} FirstValueHas(fields: seq<Field>, k: Kind)
    ensures FirstValue(fields, k).Some? <==> Has(fields, k)
  {
    hide KindOf, Trim;
    if fields != [] {
      FirstValueHas(fields[1..], k);
      if KindOf(fields[0].name) != k && Has(fields, k) {
        var i :| 0 <= i < |fields| && KindOf(fields[i].name) == k;
        assert fields[1..][i - 1] == fields[i];
      }
      if Has(fields[1..], k) {
        var i :| 0 <= i < |fields[1..]| && KindOf(fields[1..][i].name) == k;
        assert fields[i + 1] == fields[1..][i];
      }
    }
  }

  lemma {:induction false} ValidSnoc(fields: seq<Field>, f: Field)
    ensures ValidFields(fields + [f]) <==>
              && ValidFields(fields) && ValidField(f)
              && !(Has(fields, KindOf(f.name)) && KindOf(f.name) in {Host, ContentLength, TransferEncoding})
  {
    hide KindOf, ValidField;
    var all := fields + [f];
    assert forall i | 0 <= i < |fields| :: all[i] == fields[i];
    assert all[|fields|] == f;
  }

  /** Parsing the remaining lines keeps the list valid, and the lines are those fields printed. */
  lemma {:induction false} FieldsAreValid(lines: seq<Text>, i: nat, fields: seq<Field>)
    requires i <= |lines| && |fields| == i <= MAX_HEADERS && ValidFields(fields) && FieldLines(fields) == lines[..i]
    ensures var r := FieldsFrom(lines, i, fields);
            r.Ok? ==> |r.value| <= MAX_HEADERS && ValidFields(r.value) && FieldLines(r.value) == lines
    decreases |lines| - i
  {
    hide ValidFields, Objection, ParseField, FieldLine, KindOf, ValidField;
    if i < |lines| && i < MAX_HEADERS && ParseField(lines[i]).Some? {
      var f := ParseField(lines[i]).value;
      ParsedField(lines[i]);
      FirstValueHas(fields, KindOf(f.name));
      if Objection(f, FirstValue(fields, KindOf(f.name)).Some?).None? {
        ObjectionIsInvalid(f, Has(fields, KindOf(f.name)));
        ValidSnoc(fields, f);
        assert FieldLines(fields + [f]) == FieldLines(fields) + [lines[i]];
        assert lines[..i + 1] == lines[..i] + [lines[i]];
        FieldsAreValid(lines, i + 1, fields + [f]);
      }
    } else if i == |lines| {
      assert lines[..i] == lines;
    }
  }

  lemma {:induction false} ValidPrefix(fields: seq<Field>, i: nat)
    requires i <= |fields| && ValidFields(fields)
    ensures ValidFields(fields[..i])
  {
    hide KindOf, ValidField;
  }

  /** Valid fields parse back, in order. */
  lemma {:induction false} ValidFieldsParse(fields: seq<Field>, i: nat)
    requires i <= |fields| <= MAX_HEADERS && ValidFields(fields)
    ensures FieldsFrom(FieldLines(fields), i, fields[..i]) == Ok(fields)
    decreases |fields| - i
  {
    hide Objection, ParseField, FieldLine, KindOf, ValidFields, ValidField;
    if i < |fields| {
      var f := fields[i];
      ValidPrefix(fields, i + 1);
      assert fields[..i + 1] == fields[..i] + [f];
      ValidSnoc(fields[..i], f);
      ValidIsWellNamed(f);
      FieldRoundTrip(f);
      FirstValueHas(fields[..i], KindOf(f.name));
      ObjectionIsInvalid(f, Has(fields[..i], KindOf(f.name)));
      ValidFieldsParse(fields, i + 1);
    } else {
      assert fields[..i] == fields;
    }
  }

  lemma {:induction false} ValidIsWellNamed(f: Field)
    requires ValidField(f)
    ensures WellNamed(f)
  {
  }

  // ---------- The request line ----------

  lemma {:induction false} Literals()
    ensures forall v: Text | VersionOk(v) :: v != [] && forall b | b in v :: 0x21 <= b <= 0x7e
  {
    assert Ascii("HTTP/1.0") == [72, 84, 84, 80, 47, 49, 46, 48];
    assert Ascii("HTTP/1.1") == [72, 84, 84, 80, 47, 49, 46, 49];
  }

  predicate StartOk(s: Start) {
    MethodOk(s.method_) && TargetOk(s.method_, s.target) && VersionOk(s.version)
  }

  /** The request line parses exactly when it is a printed one. */
  lemma {:induction false} StartRoundTrip(s: Start)
    requires StartOk(s)
    ensures ParseStart(StartLine(s)) == Ok(s)
  {
    hide SplitAt, Ascii;
    Literals();
    hide VersionOk;
    SplitThree(SP, s.method_, s.target, s.version);
  }

  lemma {:induction false} ParsedStart(line: Text)
    requires ParseStart(line).Ok?
    ensures var s := ParseStart(line).value; StartOk(s) && StartLine(s) == line
  {
    hide SplitAt, Ascii, MethodOk, VersionOk, TargetOk;
    ThreeFields(SP, line);
  }

  /** A line that neither breaks nor ends a header block. */
  predicate PlainLine(line: Text) {
    line != [] && CR !in line && LF !in line
  }

  lemma {:induction false} LinesArePlain(r: Request)
    requires StartOk(r.start) && forall i | 0 <= i < |r.fields| :: WellNamed(r.fields[i])
    ensures PlainLine(StartLine(r.start)) && forall l | l in FieldLines(r.fields) :: PlainLine(l)
  {
    hide Ascii, KindOf, Trim;
    Literals();
    forall l | l in FieldLines(r.fields) ensures PlainLine(l) {
      var i :| 0 <= i < |r.fields| && l == FieldLine(r.fields[i]);
    }
  }

  lemma {:induction false} FieldsAreWellNamed(fields: seq<Field>)
    requires ValidFields(fields)
    ensures forall i | 0 <= i < |fields| :: WellNamed(fields[i])
  {
    hide WellNamed;
    forall i | 0 <= i < |fields| ensures WellNamed(fields[i]) {
      ValidIsWellNamed(fields[i]);
    }
  }

  // ---------- Printing and parsing decoded text ----------

  /** A printed well-formed request, whatever follows it, parses to its event. */
  lemma {:induction false} PrintedParses(r: Request, extra: Text)
    requires WellFormed(r)
    ensures ParsedText(Print(r) + extra) == Ok(EventOf(r.start, r.fields))
  {
    hide SplitLines, ParseStart, Joined, FieldLine, StartLine, ValidFields, MethodOk, TargetOk, VersionOk, FieldsFrom,
         Ascii;
    var text, lines := Print(r) + extra, [StartLine(r.start)] + FieldLines(r.fields);
    FieldsAreWellNamed(r.fields);
    LinesArePlain(r);
    SplitJoined(lines + [[]], extra);
    JoinedWithBlank(lines);
    assert Joined(lines + [[]]) + extra == text;
    var tail := SplitLines(extra);
    assert SplitLines(text) == [StartLine(r.start)] + (FieldLines(r.fields) + [[]] + tail);
    UntilEmptyStops(FieldLines(r.fields), [[]] + tail);
    assert SplitLines(text)[1..] == FieldLines(r.fields) + ([[]] + tail);
    StartRoundTrip(r.start);
    ValidFieldsParse(r.fields, 0);
    assert r.fields[..0] == [];
    FirstValueHas(r.fields, Host);
    FirstValueHas(r.fields, TransferEncoding);
    FirstValueHas(r.fields, ContentLength);
  }

  lemma {:induction false} JoinedWithBlank(lines: seq<Text>)
    ensures Joined(lines + [[]]) == Joined(lines) + CRLF
  {
    JoinedConcat(lines, [[]]);
    assert Joined([[]]) == CRLF;
  }

  lemma {:induction false} UntilEmptyStops(h: seq<Text>, tail: seq<Text>)
    requires [] !in h && tail != [] && tail[0] == []
    ensures UntilEmpty(h + tail) == h
  {
    if h == [] {
      assert h + tail == tail;
    } else {
      assert h[0] in h && (h + tail)[1..] == h[1..] + tail;
      UntilEmptyStops(h[1..], tail);
    }
  }

  lemma {:induction false} UntilEmptyAtMost(lines: seq<Text>, i: nat)
    requires i < |lines| && lines[i] == []
    ensures |UntilEmpty(lines)| <= i
  {
    if lines[0] != [] {
      UntilEmptyAtMost(lines[1..], i - 1);
    }
  }

  /** Every accepted text starts with a printed well-formed request, whose event it yields. */
  lemma {:induction false} AcceptedIsPrinted(text: Text) returns (r: Request, extra: Text)
    requires |text| >= 4 && text[|text| - 4..] == BLANK && ParsedText(text).Ok?
    ensures WellFormed(r) && text == Print(r) + extra && ParsedText(text).value == EventOf(r.start, r.fields)
  {
    hide SplitLines, ParseStart, Joined, FieldLine, StartLine, ValidFields, MethodOk, TargetOk, VersionOk, FieldsFrom,
         Ascii;
    var lines := SplitLines(text);
    var h := UntilEmpty(lines[1..]);
    var n := |h| + 1;
    ParsedStart(lines[0]);
    NoFields();
    FieldsAreValid(h, 0, []);
    r := Request(ParseStart(lines[0]).value, FieldsFrom(h, 0, []).value);
    FirstValueHas(r.fields, Host);
    FirstValueHas(r.fields, TransferEncoding);
    FirstValueHas(r.fields, ContentLength);
    var t := text[..|text| - 4];
    assert text == t + BLANK;
    BlankIsALine(t);
    assert |lines| >= 3 && lines[|lines| - 2] == [] && lines[|lines| - 2] == lines[1..][|lines| - 3];
    UntilEmptyAtMost(lines[1..], |lines| - 3);
    extra := ExtraAfter(text, lines, n);
    assert lines[..n + 1] == [lines[0]] + h + [[]];
    JoinedWithBlank([lines[0]] + h);
  }

  lemma {:induction false} NoFields()
    ensures ValidFields([]) && FieldLines([]) == []
  {
  }

  /** A text is the first of its lines, joined, and a rest. */
  lemma {:induction false} ExtraAfter(text: Text, lines: seq<Text>, n: nat) returns (extra: Text)
    requires lines == SplitLines(text) && n + 1 < |lines|
    ensures text == Joined(lines[..n + 1]) + extra
  {
    hide SplitLines;
    JoinSplit(text);
    var m := |lines| - 1;
    assert lines[..m] == lines[..n + 1] + lines[n + 1..m];
    JoinedConcat(lines[..n + 1], lines[n + 1..m]);
    extra := Joined(lines[n + 1..m]) + lines[m];
  }

  /** The blank line that ends a printed request is the first in any text that starts with it. */
  lemma {:induction false} PrintedEndsAtTheBlank(r: Request, rest: Text)
    requires StartOk(r.start) && forall i | 0 <= i < |r.fields| :: WellNamed(r.fields[i])
    ensures |Print(r)| >= 4 && FindBlank(Print(r) + rest) == Some(|Print(r)| - 4)
  {
    hide ValidFields, MethodOk, TargetOk, VersionOk, StartLine, FieldLine, Ascii;
    var lines := [StartLine(r.start)] + FieldLines(r.fields);
    var text := Print(r) + rest;
    LinesArePlain(r);
    assert forall l | l in lines :: PlainLine(l);
    var k := |Joined(lines)| - 2;
    EndsWithLineEnd(lines);
    assert text == Joined(lines) + CRLF + rest;
    assert text[k..k + 4] == BLANK;
    forall j: nat | j < k ensures !BlankAt(text, j) {
      BlankAfterLines(lines, rest, j);
    }
    FoundAt(text, k);
  }

  lemma {:induction false} EndsWithLineEnd(lines: seq<Text>)
    requires lines != []
    ensures var t := Joined(lines); |t| >= 2 && t[|t| - 2..] == CRLF
  {
    if |lines| > 1 {
      EndsWithLineEnd(lines[1..]);
    }
  }
}
