/** The one response of a session, and how a client reads it: sections 8.6 and 9.3.2 of RFC 9110
    (src/protocols/http.rs). */
module HttpResponse {
  import opened Bytes
  import opened Session
  import opened HttpText
  import opened HttpParser
  import opened HttpPrinter

  /** What an endpoint answers with, and the standard reason phrases. */
  datatype Site = Site(status: nat, server: Text, phrases: map<nat, Text>)

  function Decimal(n: nat): Text {
    if n < 10 then [(48 + n) as byte] else Decimal(n / 10) + [(48 + n % 10) as byte]
  }

  function Reason(site: Site, status: nat): Text {
    if status in site.phrases then site.phrases[status] else Ascii("Unknown")
  }

  function Body(site: Site, status: nat): Text {
    if status in {204, 205, 304} then [] else Decimal(status) + [SP] + Reason(site, status) + [LF]
  }

  function Response(site: Site, status: nat, head: bool): Text {
    var headers := Ascii("HTTP/1.1 ") + Decimal(status) + [SP] + Reason(site, status) + CRLF
                   + Ascii("Server: ") + site.server + CRLF
                   + Ascii("Content-Type: ") + Ascii("text/plain; charset=utf-8") + CRLF
                   + Ascii("Connection: close") + CRLF;
    var length := if status in {204, 304} then [] else Ascii("Content-Length: ") + Decimal(|Body(site, status)|) + CRLF;
    var challenge := if status == 401 then Ascii("WWW-Authenticate: ") + Ascii("Basic realm=\"Administration\"") + CRLF
        else [];
    headers + length + challenge + CRLF + if head then [] else Body(site, status)
  }

  // ---------- Reading a response ----------

  function F(name: string, value: Text): Field {
    Field(Ascii(name), [SP] + value)
  }

  function ResponseFields(site: Site, status: nat): seq<Field> {
    [F("Server", site.server), F("Content-Type", Ascii("text/plain; charset=utf-8")), F("Connection", Ascii("close"))]
    + (if status in {204, 304} then [] else [F("Content-Length", Decimal(|Body(site, status)|))])
    + (if status == 401 then [F("WWW-Authenticate", Ascii("Basic realm=\"Administration\""))] else [])
  }

  function StatusLine(site: Site, status: nat): Text {
    Ascii("HTTP/1.1") + [SP] + Decimal(status) + [SP] + Reason(site, status)
  }

  function HeaderBlock(site: Site, status: nat): Text {
    Joined([StatusLine(site, status)] + FieldLines(ResponseFields(site, status))) + CRLF
  }

  lemma {:induction false} DecimalIsANumber(n: nat)
    ensures Decimal(n) != [] && (forall b | b in Decimal(n) :: Digit(b)) && Number(Decimal(n)) == n
  {
    if n >= 10 {
      DecimalIsANumber(n / 10);
      var d := Decimal(n);
      assert d[..|d| - 1] == Decimal(n / 10);
    } else {
      assert Decimal(n)[..0] == [];
    }
  }

  lemma {:induction false} AsciiConcat(a: string, b: string)
    ensures Ascii(a + b) == Ascii(a) + Ascii(b)
  {
  }

  lemma {:induction false} NamedLine(name: string, heading: string, value: Text)
    requires heading == name + ": "
    ensures Ascii(heading) + value == FieldLine(F(name, value))
  {
    AsciiConcat(name, ": ");
    assert Ascii(": ") == [COLON, SP];
  }

  lemma {:induction false} NamedText(name: string, text: string, heading: string)
    requires heading == name + ": " + text
    ensures Ascii(heading) == FieldLine(F(name, Ascii(text)))
  {
    NamedLine(name, name + ": ", Ascii(text));
    AsciiConcat(name + ": ", text);
  }

  lemma {:induction false} JoinedLines(a: Text, b: Text, c: Text, d: Text, more: seq<Text>)
    ensures Joined([a, b, c, d] + more) == a + CRLF + b + CRLF + c + CRLF + d + CRLF + Joined(more)
  {
    JoinedConcat([a, b, c, d], more);
    assert Joined([d]) == d + CRLF;
    assert Joined([c, d]) == c + CRLF + Joined([d]);
    assert Joined([b, c, d]) == b + CRLF + Joined([c, d]);
    assert Joined([a, b, c, d]) == a + CRLF + Joined([b, c, d]);
  }

  lemma {:induction false} JoinedAtMostOne(a: Text)
    ensures Joined([]) == [] && Joined([a]) == a + CRLF
  {
  }

  lemma {:induction false} FieldLinesConcat(a: seq<Field>, b: seq<Field>)
    ensures FieldLines(a + b) == FieldLines(a) + FieldLines(b)
  {
  }

  lemma {:induction false} FewFieldLines(a: Field, b: Field, c: Field)
    ensures FieldLines([]) == [] && FieldLines([a]) == [FieldLine(a)]
    ensures FieldLines([a, b, c]) == [FieldLine(a), FieldLine(b), FieldLine(c)]
  {
  }

  lemma {:induction false} Headings(server: Text, length: Text)
    ensures Ascii("HTTP/1.1 ") == Ascii("HTTP/1.1") + [SP]
    ensures Ascii("Server: ") + server == FieldLine(F("Server", server))
    ensures Ascii("Content-Length: ") + length == FieldLine(F("Content-Length", length))
    ensures Ascii("Connection: close") == FieldLine(F("Connection", Ascii("close")))
  {
    hide Ascii, FieldLine;
    NamedLine("Server", "Server: ", server);
    NamedLine("Content-Length", "Content-Length: ", length);
    NamedText("Connection", "close", "Connection: close");
    AsciiConcat("HTTP/1.1", " ");
    Space();
    assert "HTTP/1.1" + " " == "HTTP/1.1 ";
  }

  lemma {:induction false} TypeHeading()
    ensures Ascii("Content-Type: ") + Ascii("text/plain; charset=utf-8")
            == FieldLine(F("Content-Type", Ascii("text/plain; charset=utf-8")))
  {
    hide Ascii, FieldLine;
    NamedLine("Content-Type", "Content-Type: ", Ascii("text/plain; charset=utf-8"));
  }

  lemma {:induction false} ChallengeHeading()
    ensures Ascii("WWW-Authenticate: ") + Ascii("Basic realm=\"Administration\"")
            == FieldLine(F("WWW-Authenticate", Ascii("Basic realm=\"Administration\"")))
  {
    hide Ascii, FieldLine;
    NamedLine("WWW-Authenticate", "WWW-Authenticate: ", Ascii("Basic realm=\"Administration\""));
  }

  /** The response is its header block and then, unless it answers HEAD, its body. */
  lemma {:induction false} ResponseLayout(site: Site, status: nat, head: bool)
    ensures Response(site, status, head) == HeaderBlock(site, status) + if head then [] else Body(site, status)
  {
    hide Ascii, Decimal, Body, Reason, FieldLine, FieldLines, Joined, F;
    Headings(site.server, Decimal(|Body(site, status)|));
    TypeHeading();
    ChallengeHeading();
    var a, b, c := F("Server", site.server), F("Content-Type", Ascii("text/plain; charset=utf-8")),
        F("Connection", Ascii("close"));
    var length := if status in {204, 304} then [] else [F("Content-Length", Decimal(|Body(site, status)|))];
    var challenge := if status == 401 then [F("WWW-Authenticate", Ascii("Basic realm=\"Administration\""))] else [];
    LineByLine(StatusLine(site, status), a, b, c, length, challenge);
    var first := StatusLine(site, status) + CRLF;
    Assoc(first, Ascii("Server: "), site.server);
    Assoc(first + FieldLine(a) + CRLF, Ascii("Content-Type: "), Ascii("text/plain; charset=utf-8"));
  }

  lemma Space()
    ensures Ascii(" ") == [SP]
  {
  }

  lemma {:induction false} LineByLine(first: Text, a: Field, b: Field, c: Field, length: seq<Field>,
                                      challenge: seq<Field>)
    requires |length| <= 1 && |challenge| <= 1
    ensures Joined([first] + FieldLines([a, b, c] + length + challenge))
            == first + CRLF + FieldLine(a) + CRLF + FieldLine(b) + CRLF + FieldLine(c) + CRLF
               + (if length == [] then [] else FieldLine(length[0]) + CRLF)
               + (if challenge == [] then [] else FieldLine(challenge[0]) + CRLF)
  {
    hide FieldLine, FieldLines, Joined;
    var more := FieldLines(length) + FieldLines(challenge);
    FieldLinesConcat([a, b, c] + length, challenge);
    FieldLinesConcat([a, b, c], length);
    FewFieldLines(a, b, c);
    var l, m := FieldLines(length), FieldLines(challenge);
    if length != [] {
      FewFieldLines(length[0], b, c);
      assert length == [length[0]];
    }
    if challenge != [] {
      FewFieldLines(challenge[0], b, c);
      assert challenge == [challenge[0]];
    }
    assert [first] + FieldLines([a, b, c] + length + challenge)
           == [first, FieldLine(a), FieldLine(b), FieldLine(c)] + more;
    JoinedLines(first, FieldLine(a), FieldLine(b), FieldLine(c), more);
    JoinedConcat(l, m);
    JoinedAtMostOne(if length == [] then [] else FieldLine(length[0]));
    JoinedAtMostOne(if challenge == [] then [] else FieldLine(challenge[0]));
    Assoc(first + CRLF + FieldLine(a) + CRLF + FieldLine(b) + CRLF + FieldLine(c) + CRLF, Joined(l), Joined(m));
  }

  /** Header and reason texts as the configuration and the status table allow them. */
  predicate PrintableText(t: Text) {
    forall b | b in t :: Printable(b)
  }

  predicate PrintableSite(site: Site) {
    PrintableText(site.server) && forall k | k in site.phrases :: PrintableText(site.phrases[k])
  }

  /** A message as a client reads it off the wire. */
  datatype Message = Message(first: Text, fields: seq<Field>, body: Text)

  function ReadFields(lines: seq<Text>): Option<seq<Field>> {
    if lines == [] then Some([])
    else
      var f, rest := ParseField(lines[0]), ReadFields(lines[1..]);
      if f.None? || rest.None? then None else Some([f.value] + rest.value)
  }

  /** Headers end at the first blank line; everything after it is body. */
  function ReadMessage(r: Text): Option<Message> {
    var k := FindBlank(r);
    if k.None? then None
    else
      var lines := SplitLines(r[..k.value + 2]);
      if |lines| < 2 then None
      else
        var fields := ReadFields(lines[1..|lines| - 1]);
        if fields.None? then None else Some(Message(lines[0], fields.value, r[k.value + 4..]))
  }

  lemma {:induction false} FieldsReadBack(fields: seq<Field>)
    requires forall f | f in fields :: WellNamed(f)
    ensures ReadFields(FieldLines(fields)) == Some(fields)
  {
    hide WellNamed, FieldLine, ParseField;
    if fields != [] {
      assert fields[0] in fields && fields == [fields[0]] + fields[1..];
      assert FieldLines(fields)[1..] == FieldLines(fields[1..]);
      FieldRoundTrip(fields[0]);
      FieldsReadBack(fields[1..]);
    }
  }

  /** Any message of plain lines reads back as what was written. */
  lemma {:induction false} MessageReadsBack(first: Text, fields: seq<Field>, body: Text)
    requires PlainLine(first) && forall f | f in fields :: WellNamed(f)
    ensures ReadMessage(Joined([first] + FieldLines(fields)) + CRLF + body) == Some(Message(first, fields, body))
  {
    hide SplitLines, Joined, FieldLine, WellNamed, ReadFields;
    var lines := [first] + FieldLines(fields);
    var r, k := Joined(lines) + CRLF + body, |Joined(lines)| - 2;
    forall l | l in lines ensures PlainLine(l) {
      if l != first {
        assert l in FieldLines(fields);
        var i :| 0 <= i < |fields| && l == FieldLine(fields[i]);
        assert fields[i] in fields;
        WellNamedIsPlain(fields[i]);
      }
    }
    EndsWithLineEnd(lines);
    forall j: nat | j < k ensures !BlankAt(r, j) {
      BlankAfterLines(lines, body, j);
    }
    assert r[k..k + 4] == BLANK;
    FoundAt(r, k);
    assert r[..k + 2] == Joined(lines) + [] && r[k + 4..] == body;
    SplitJoined(lines, []);
    SplitOneLine([]);
    assert (lines + [[]])[1..|lines|] == FieldLines(fields);
    FieldsReadBack(fields);
  }

  lemma {:induction false} WellNamedIsPlain(f: Field)
    requires WellNamed(f)
    ensures PlainLine(FieldLine(f))
  {
  }

  lemma {:induction false} PrintableIsPlain(t: Text)
    requires PrintableText(t) && t != []
    ensures PlainLine(t)
  {
  }

  lemma {:induction false} StatusLineIsPlain(site: Site, status: nat)
    requires PrintableSite(site)
    ensures PlainLine(StatusLine(site, status))
  {
    hide Decimal, Ascii;
    DecimalIsANumber(status);
    FixedTexts();
    PrintableIsPlain(StatusLine(site, status));
  }

  lemma {:induction false} TokenName(name: string)
    requires name != [] && forall c | c in name :: c as int < 128 && TokenByte(c as int as byte)
    ensures Token(Ascii(name))
  {
    forall b | b in Ascii(name) ensures TokenByte(b) {
      var i :| 0 <= i < |name| && b == Ascii(name)[i];
      assert name[i] in name;
    }
  }

  lemma {:induction false} AsciiIsPrintable(text: string)
    requires forall c | c in text :: ' ' <= c <= '~'
    ensures PrintableText(Ascii(text))
  {
    forall b | b in Ascii(text) ensures Printable(b) {
      var i :| 0 <= i < |text| && b == Ascii(text)[i];
      assert text[i] in text;
    }
  }

  lemma {:induction false} Names()
    ensures Token(Ascii("Server")) && Token(Ascii("Content-Type")) && Token(Ascii("Connection"))
    ensures Token(Ascii("Content-Length")) && Token(Ascii("WWW-Authenticate"))
  {
    hide Ascii, Token;
    TokenName("Server");
    TokenName("Content-Type");
    TokenName("Connection");
    TokenName("Content-Length");
    TokenName("WWW-Authenticate");
  }

  /** The names that matter are told from others by length and first letter. */
  lemma {:induction false} KindLengths(name: Text)
    ensures KindOf(name) != Other ==> |name| in {4, 14, 17} || (|name| == 10 && Lower(name[0]) == 117)
  {
    assert Ascii("user-agent")[0] == 117;
    assert |Lowered(name)| == |name| && (name != [] ==> Lowered(name)[0] == Lower(name[0]));
  }

  lemma {:induction false} Kinds()
    ensures KindOf(Ascii("Server")) == KindOf(Ascii("Content-Type")) == KindOf(Ascii("Connection")) == Other
    ensures KindOf(Ascii("WWW-Authenticate")) == Other && KindOf(Ascii("Content-Length")) == ContentLength
  {
    LengthName();
    hide KindOf;
    KindLengths(Ascii("Server"));
    KindLengths(Ascii("Content-Type"));
    KindLengths(Ascii("Connection"));
    KindLengths(Ascii("WWW-Authenticate"));
    assert Ascii("Connection")[0] == 67;
  }

  lemma {:induction false} LengthName()
    ensures KindOf(Ascii("Content-Length")) == ContentLength
  {
    assert Lowered(Ascii("Content-Length")) == Ascii("content-length");
  }

  lemma {:induction false} ValuesAreText(t: Text, name: string)
    requires PrintableText(t) && Token(Ascii(name))
    ensures WellNamed(F(name, t))
  {
  }

  lemma {:induction false} FixedTexts()
    ensures PrintableText(Ascii("text/plain; charset=utf-8")) && PrintableText(Ascii("close"))
    ensures PrintableText(Ascii("Basic realm=\"Administration\""))
    ensures PrintableText(Ascii("HTTP/1.1")) && PrintableText(Ascii("Unknown"))
  {
    hide Ascii, PrintableText;
    AsciiIsPrintable("text/plain; charset=utf-8");
    AsciiIsPrintable("close");
    AsciiIsPrintable("Basic realm=\"Administration\"");
    AsciiIsPrintable("HTTP/1.1");
    AsciiIsPrintable("Unknown");
  }

  lemma {:induction false} ResponseFieldsAreWellNamed(site: Site, status: nat)
    requires PrintableSite(site)
    ensures forall f | f in ResponseFields(site, status) :: WellNamed(f)
  {
    hide Ascii, F, WellNamed, Decimal, Body;
    Names();
    FixedTexts();
    DecimalIsANumber(|Body(site, status)|);
    ValuesAreText(site.server, "Server");
    ValuesAreText(Ascii("text/plain; charset=utf-8"), "Content-Type");
    ValuesAreText(Ascii("close"), "Connection");
    assert PrintableText(Decimal(|Body(site, status)|));
    ValuesAreText(Decimal(|Body(site, status)|), "Content-Length");
    ValuesAreText(Ascii("Basic realm=\"Administration\""), "WWW-Authenticate");
  }

  /** A client that reads the response off the wire gets the status line, the fields and the body
      that were meant; a HEAD response has the fields of the GET response and no body. */
  lemma {:induction false} ResponseReadsBack(site: Site, status: nat, head: bool)
    requires PrintableSite(site)
    ensures ReadMessage(Response(site, status, head))
            == Some(Message(StatusLine(site, status), ResponseFields(site, status),
                            if head then [] else Body(site, status)))
  {
    hide Response, ReadMessage, StatusLine, ResponseFields, Body, PrintableSite;
    ResponseLayout(site, status, head);
    StatusLineIsPlain(site, status);
    ResponseFieldsAreWellNamed(site, status);
    MessageReadsBack(StatusLine(site, status), ResponseFields(site, status), if head then [] else Body(site, status));
  }

  /** The Content-Length the client finds is the length of the GET body; only 204 and 304, which
      have no body, leave it out. */
  lemma {:induction false} ContentLengthIsRight(site: Site, status: nat)
    ensures var length := FirstValue(ResponseFields(site, status), ContentLength);
            && (length.None? <==> status in {204, 304})
            && (length.None? ==> Body(site, status) == [])
            && (length.Some? ==>
                  (forall b | b in length.value :: Digit(b)) && Number(length.value) == |Body(site, status)|)
  {
    hide Ascii, Decimal, KindOf, Trim, Reason;
    Kinds();
    var d := Decimal(|Body(site, status)|);
    DecimalIsANumber(|Body(site, status)|);
    assert Digit(d[0]) && Digit(d[|d| - 1]) && [SP] + d == [SP] + d + [];
    TrimIsExact([SP], d, []);
    var fields := ResponseFields(site, status);
    FirstThree(fields);
    if status in {204, 304} {
      assert fields[3..] == [];
    } else {
      assert fields[3] == F("Content-Length", d) && fields[3..][0] == fields[3];
      assert FirstValue(fields[3..], ContentLength) == Some(Trim([SP] + d));
      assert Number(d) == |Body(site, status)|;
    }
  }

  lemma {:induction false} FirstThree(fields: seq<Field>)
    requires |fields| >= 3 && forall i | 0 <= i < 3 :: KindOf(fields[i].name) == Other
    ensures FirstValue(fields, ContentLength) == FirstValue(fields[3..], ContentLength)
  {
    hide KindOf, Trim;
    var a := fields[1..];
    var b := a[1..];
    assert a[0] == fields[1] && b[0] == fields[2] && b[1..] == fields[3..];
    assert FirstValue(fields, ContentLength) == FirstValue(a, ContentLength) == FirstValue(b, ContentLength);
  }

  // ---------- The response in full ----------

  /** The decimal digits of a number, without leading zeros. */
  predicate Spelled(d: Text, n: nat) {
    d != [] && (forall b | b in d :: Digit(b)) && Number(d) == n && (|d| > 1 ==> d[0] != 48)
  }

  lemma {:induction false} DecimalIsSpelled(n: nat)
    ensures Spelled(Decimal(n), n)
  {
    DecimalIsANumber(n);
    NoLeadingZero(n);
  }

  lemma {:induction false} NoLeadingZero(n: nat)
    ensures n > 0 ==> Decimal(n)[0] != 48
    ensures n < 10 ==> |Decimal(n)| == 1
  {
    if n >= 10 {
      NoLeadingZero(n / 10);
      assert Decimal(n)[0] == Decimal(n / 10)[0];
    }
  }

  /** What a client reads: status line, Server, Content-Type and Connection, a Content-Length that is the length of
      the body a GET would get (except for 204 and 304), the challenge of 401, and the body. */
  ghost predicate ReadsAs(site: Site, status: nat, head: bool, r: Text) {
    exists digits, length :: ReadsWith(site, status, head, r, digits, length)
  }

  predicate ReadsWith(site: Site, status: nat, head: bool, r: Text, digits: Text, length: Text) {
    var phrase := if status in site.phrases then site.phrases[status] else Ascii("Unknown");
    var body := if status in {204, 205, 304} then [] else digits + [SP] + phrase + [LF];
    && Spelled(digits, status) && Spelled(length, |body|)
    && ReadMessage(r) == Some(Message(
         Ascii("HTTP/1.1") + [SP] + digits + [SP] + phrase,
         [Field(Ascii("Server"), [SP] + site.server),
          Field(Ascii("Content-Type"), [SP] + Ascii("text/plain; charset=utf-8")),
          Field(Ascii("Connection"), [SP] + Ascii("close"))]
         + (if status in {204, 304} then [] else [Field(Ascii("Content-Length"), [SP] + length)])
         + (if status == 401 then [Field(Ascii("WWW-Authenticate"), [SP] + Ascii("Basic realm=\"Administration\""))]
            else []),
         if head then [] else body))
  }

  lemma {:induction false} ResponseInFull(site: Site, status: nat, head: bool)
    requires PrintableSite(site)
    ensures ReadsAs(site, status, head, Response(site, status, head))
  {
    hide Response, ReadMessage, Ascii, Decimal, Spelled, PrintableSite;
    ResponseReadsBack(site, status, head);
    DecimalIsSpelled(status);
    DecimalIsSpelled(|Body(site, status)|);
    assert ReadsWith(site, status, head, Response(site, status, head), Decimal(status), Decimal(|Body(site, status)|));
  }
}
