/** The strict request parser, and the printer it inverts: sections 3, 5 and 6.3 of RFC 9112
    (src/protocols/http.rs). */
module HttpParser {
  import opened Bytes
  import opened Session
  import opened HttpText
  import Utf8

  const MAX_HEADERS: nat := 64
  const MAX_METHOD: nat := 32
  const MAX_HOST: nat := 2048
  const MAX_AGENT: nat := 1024
  const U64_MAX: nat := 0xFFFF_FFFF_FFFF_FFFF
  const TAB: byte := 9
  const COLON: byte := 58

  datatype Result<+T> = Ok(value: T) | Err(msg: string)

  predicate Digit(b: byte) {
    48 <= b <= 57
  }

  predicate TokenByte(b: byte) {
    || Digit(b) || 65 <= b <= 90 || 97 <= b <= 122
    || b in {33, 35, 36, 37, 38, 39, 42, 43, 45, 46, 94, 95, 96, 124, 126}
  }

  predicate Token(t: Text) {
    t != [] && forall b | b in t :: TokenByte(b)
  }

  function Lower(b: byte): byte {
    if 65 <= b <= 90 then b + 32 else b
  }

  function Lowered(t: Text): Text {
    seq(|t|, i requires 0 <= i < |t| => Lower(t[i]))
  }

  /** A byte a field value may hold: no control but tab. */
  predicate ValueByte(b: byte) {
    (b >= 0x20 || b == TAB) && b != 0x7f
  }

  predicate Blank(b: byte) {
    b == SP || b == TAB
  }

  function TrimStart(t: Text): Text {
    if t != [] && Blank(t[0]) then TrimStart(t[1..]) else t
  }

  function TrimEnd(t: Text): Text {
    if t != [] && Blank(t[|t| - 1]) then TrimEnd(t[..|t| - 1]) else t
  }

  function Trim(t: Text): Text {
    TrimEnd(TrimStart(t))
  }

  predicate NoBlankEnds(t: Text) {
    t == [] || (!Blank(t[0]) && !Blank(t[|t| - 1]))
  }

  /** Trimming takes off exactly the blanks around a value: the value is what is left, and no other
      split of the text into blanks, a value without blank ends, and blanks exists. */
  lemma {:induction false} TrimIsExact(before: Text, value: Text, after: Text)
    requires (forall b | b in before + after :: Blank(b)) && NoBlankEnds(value)
    ensures Trim(before + value + after) == value
  {
    var t := before + value + after;
    if before != [] {
      assert before[0] in before + after && t[1..] == before[1..] + value + after;
      TrimIsExact(before[1..], value, after);
    } else if after != [] {
      assert t == value + after && after[|after| - 1] in before + after;
      assert t[..|t| - 1] == before + value + after[..|after| - 1];
      TrimIsExact(before, value, after[..|after| - 1]);
      if value == [] {
        assert t[1..] == before + value + after[1..] && after[0] in before + after;
        TrimIsExact(before, value, after[1..]);
      }
    } else {
      assert t == value;
    }
  }

  function Number(digits: Text): nat
    requires forall b | b in digits :: Digit(b)
  {
    if digits == [] then 0
    else
      assert Digit(digits[|digits| - 1]);
      10 * Number(digits[..|digits| - 1]) + (digits[|digits| - 1] as int - 48)
  }

  // ---------- The request line ----------

  datatype Start = Start(method_: Text, target: Text, version: Text)

  predicate MethodOk(m: Text) {
    Token(m) && |m| <= MAX_METHOD
  }

  predicate VersionOk(v: Text) {
    v == Ascii("HTTP/1.0") || v == Ascii("HTTP/1.1")
  }

  /** Origin form, or the asterisk form of OPTIONS. */
  predicate TargetOk(m: Text, t: Text) {
    && t != [] && (t[0] == 47 || (m == Ascii("OPTIONS") && t == Ascii("*")))
    && forall b | b in t :: 0x21 <= b <= 0x7e
  }

  function ParseStart(line: Text): Result<Start> {
    var parts := SplitAt(SP, line);
    if |parts| < 2 then Err("http_missing_target")
    else if |parts| < 3 then Err("http_missing_version")
    else if |parts| > 3 || !MethodOk(parts[0]) then Err("http_invalid_request_line")
    else if !VersionOk(parts[2]) then Err("http_unsupported_version")
    else if !TargetOk(parts[0], parts[1]) then Err("http_invalid_target")
    else Ok(Start(parts[0], parts[1], parts[2]))
  }

  // ---------- Fields ----------

  datatype Field = Field(name: Text, raw: Text)

  datatype Kind = Host | UserAgent | ContentLength | TransferEncoding | Other

  function KindOf(name: Text): Kind {
    var n := Lowered(name);
    if n == Ascii("host") then Host
    else if n == Ascii("user-agent") then UserAgent
    else if n == Ascii("content-length") then ContentLength
    else if n == Ascii("transfer-encoding") then TransferEncoding
    else Other
  }

  predicate WellNamed(f: Field) {
    Token(f.name) && forall b | b in f.raw :: ValueByte(b)
  }

  function ParseField(line: Text): Option<Field> {
    var k := IndexOf(COLON, line);
    if k == |line| then None
    else
      var f := Field(line[..k], line[k + 1..]);
      if WellNamed(f) then Some(f) else None
  }

  /** The trimmed value of the first field of a kind. */
  function FirstValue(fields: seq<Field>, k: Kind): Option<Text> {
    if fields == [] then None
    else if KindOf(fields[0].name) == k then Some(Trim(fields[0].raw))
    else FirstValue(fields[1..], k)
  }

  /** Why a field is refused, given whether one of its kind came before. */
  function Objection(f: Field, seen: bool): Option<string> {
    var v := Trim(f.raw);
    match KindOf(f.name)
    case Host => if seen || v == [] || |v| > MAX_HOST then Some("http_invalid_host") else None
    case ContentLength =>
      if seen || v == [] || (exists b | b in v :: !Digit(b)) || Number(v) > U64_MAX
      then Some("http_invalid_content_length") else None
    case TransferEncoding =>
      if seen || Lowered(v) != Ascii("chunked") then Some("http_invalid_transfer_encoding") else None
    case _ => None
  }

  /** The fields of the lines from i on, after those already taken, or the first error. */
  function FieldsFrom(lines: seq<Text>, i: nat, fields: seq<Field>): Result<seq<Field>>
    requires i <= |lines|
    decreases |lines| - i
  {
    if i == |lines| then Ok(fields)
    else if i >= MAX_HEADERS then Err("http_too_many_headers")
    else
      var f := ParseField(lines[i]);
      if f.None? then Err("http_invalid_header")
      else
        var objection := Objection(f.value, FirstValue(fields, KindOf(f.value.name)).Some?);
        if objection.Some? then Err(objection.value) else FieldsFrom(lines, i + 1, fields + [f.value])
  }

  function Cut(agent: Option<Text>): Option<Text> {
    if agent.Some? then Some(Utf8.TakeChars(agent.value, MAX_AGENT)) else None
  }

  function EventOf(start: Start, fields: seq<Field>): Event {
    HttpRequest(start.method_, start.target, start.version, FirstValue(fields, Host),
                Cut(FirstValue(fields, UserAgent)))
  }

  /** The checks on the whole field list. */
  function Framed(start: Start, fields: seq<Field>): Result<Event> {
    if start.version == Ascii("HTTP/1.1") && FirstValue(fields, Host).None? then Err("http_missing_host")
    else if FirstValue(fields, TransferEncoding).Some? && FirstValue(fields, ContentLength).Some? then
      Err("http_ambiguous_framing")
    else Ok(EventOf(start, fields))
  }

  /** The parser on decoded text. */
  function ParsedText(text: Text): Result<Event> {
    var lines := SplitLines(text);
    var start := ParseStart(lines[0]);
    if start.Err? then Err(start.msg)
    else
      var fields := FieldsFrom(UntilEmpty(lines[1..]), 0, []);
      if fields.Err? then Err(fields.msg) else Framed(start.value, fields.value)
  }

  function Parsed(bytes: Text): Result<Event> {
    if |bytes| < 4 || bytes[|bytes| - 4..] != BLANK then Err("http_incomplete_headers")
        else ParsedText(Utf8.Lossy(bytes))
  }

  lemma {:induction false} FirstValueSnoc(fields: seq<Field>, f: Field, k: Kind)
    ensures FirstValue(fields + [f], k) == if FirstValue(fields, k).Some? then FirstValue(fields, k)
                                           else if KindOf(f.name) == k then Some(Trim(f.raw)) else None
  {
    if fields == [] {
      assert fields + [f] == [f];
    } else {
      assert (fields + [f])[1..] == fields[1..] + [f];
      FirstValueSnoc(fields[1..], f, k);
    }
  }

  /** parse_request: one pass over the header lines, remembering only what the event and the
      checks need. */
  method ParseRequest(bytes: Text) returns (r: Result<Event>)
    ensures r == Parsed(bytes)
  {
    hide KindOf, Trim, SplitLines, ParseStart, ParseField, Objection, Lowered, Ascii, Utf8.Lossy;
    if |bytes| < 4 || bytes[|bytes| - 4..] != BLANK {
      return Err("http_incomplete_headers");
    }
    var lines := SplitLines(Utf8.Lossy(bytes));
    var start := ParseStart(lines[0]);
    if start.Err? {
      return Err(start.msg);
    }
    r := ParseFields(start.value, lines[1..]);
  }

  method ParseFields(start: Start, lines: seq<Text>) returns (r: Result<Event>)
    ensures var fields := FieldsFrom(UntilEmpty(lines), 0, []);
            r == if fields.Err? then Err(fields.msg) else Framed(start, fields.value)
  {
    hide KindOf, Trim, Ascii, Lowered, ParseField, Number, Utf8.TakeChars;
    var host, agent, contentLength, transferEncoding := None, None, None, false;
    ghost var h, fields: seq<Field> := UntilEmpty(lines), [];
    var count := 0;
    while count < |lines| && lines[count] != []
      invariant count <= |h|
      invariant FieldsFrom(h, 0, []) == FieldsFrom(h, count, fields)
      invariant host == FirstValue(fields, Host) && agent == Cut(FirstValue(fields, UserAgent))
      invariant contentLength.Some? == FirstValue(fields, ContentLength).Some?
      invariant transferEncoding == FirstValue(fields, TransferEncoding).Some?
    {
      if count >= MAX_HEADERS {
        return Err("http_too_many_headers");
      }
      var field := ParseField(lines[count]);
      if field.None? {
        return Err("http_invalid_header");
      }
      var f, value := field.value, Trim(field.value.raw);
      match KindOf(f.name) {
        case Host =>
          if host.Some? || value == [] || |value| > MAX_HOST {
            return Err("http_invalid_host");
          }
          host := Some(value);
        case UserAgent =>
          if agent.None? {
            agent := Some(Utf8.TakeChars(value, MAX_AGENT));
          }
        case ContentLength =>
          if contentLength.Some? || value == [] || exists b | b in value :: !Digit(b) {
            return Err("http_invalid_content_length");
          }
          if Number(value) > U64_MAX {
            return Err("http_invalid_content_length");
          }
          contentLength := Some(Number(value));
        case TransferEncoding =>
          if transferEncoding || Lowered(value) != Ascii("chunked") {
            return Err("http_invalid_transfer_encoding");
          }
          transferEncoding := true;
        case Other =>
      }
      FirstValueSnoc(fields, f, Host);
      FirstValueSnoc(fields, f, UserAgent);
      FirstValueSnoc(fields, f, ContentLength);
      FirstValueSnoc(fields, f, TransferEncoding);
      fields := fields + [f];
      count := count + 1;
    }
    if start.version == Ascii("HTTP/1.1") && host.None? {
      return Err("http_missing_host");
    }
    if transferEncoding && contentLength.Some? {
      return Err("http_ambiguous_framing");
    }
    return Ok(HttpRequest(start.method_, start.target, start.version, host, agent));
  }
}
