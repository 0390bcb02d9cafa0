/** Telnet decoding and line framing as functions of the byte stream
    (src/protocols/telnet.rs; RFC 854, sections "TELNET COMMAND STRUCTURE" and "THE NVT PRINTER
    AND KEYBOARD"; RFC 855 for subnegotiation). */
module TelnetCodec {
  import opened Bytes
  import opened Session

  const IAC: byte := 255
  const SB: byte := 250
  const SE: byte := 240
  const MAX_LINE: nat := 256

  datatype DecodeState = InData | InIac | InOption | InSub | InSubIac

  /** One step of the decoder: the next state and the data byte produced, if any. */
  function Feed(d: DecodeState, b: byte): (DecodeState, Option<byte>) {
    match d
    case InData => if b == IAC then (InIac, None) else (InData, Some(b))
    case InIac =>
      if b == IAC then (InData, Some(IAC))
      else if 251 <= b <= 254 then (InOption, None)
      else if b == SB then (InSub, None)
      else (InData, None)
    case InOption => (InData, None)
    case InSub => if b == IAC then (InSubIac, None) else (InSub, None)
    case InSubIac => if b == SE then (InData, None) else (InSub, None)
  }

  /** The data bytes of a whole stream. */
  function Decode(d: DecodeState, v: seq<byte>): seq<byte>
    decreases |v|
  {
    if v == [] then []
    else
      var (d', out) := Feed(d, v[0]);
      (if out.Some? then [out.value] else []) + Decode(d', v[1..])
  }

  // ---------- What the decoder recognises ----------

  /** A subnegotiation body: ordinary bytes, and IAC followed by anything but SE. */
  datatype SubUnit = SubByte(b: byte) | SubEscape(b: byte)

  datatype Unit =
    | Datum(b: byte)
    | Command(b: byte)
    | Negotiate(verb: byte, option: byte)
    | Subnegotiate(body: seq<SubUnit>)

  predicate ValidSub(body: seq<SubUnit>) {
    forall u | u in body :: if u.SubByte? then u.b != IAC else u.b != SE
  }

  predicate ValidUnit(u: Unit) {
    match u
    case Datum(_) => true
    case Command(b) => b < SB
    case Negotiate(verb, _) => 251 <= verb <= 254
    case Subnegotiate(body) => ValidSub(body)
  }

  function EncodeSub(body: seq<SubUnit>): seq<byte> {
    if body == [] then []
    else (if body[0].SubByte? then [body[0].b] else [IAC, body[0].b]) + EncodeSub(body[1..])
  }

  /** The bytes of one complete unit. */
  function EncodeUnit(u: Unit): seq<byte> {
    match u
    case Datum(b) => if b == IAC then [IAC, IAC] else [b]
    case Command(b) => [IAC, b]
    case Negotiate(verb, option) => [IAC, verb, option]
    case Subnegotiate(body) => [IAC, SB] + EncodeSub(body) + [IAC, SE]
  }

  function Encode(units: seq<Unit>): seq<byte> {
    if units == [] then [] else EncodeUnit(units[0]) + Encode(units[1..])
  }

  function DataOf(units: seq<Unit>): seq<byte> {
    if units == [] then [] else (if units[0].Datum? then [units[0].b] else []) + DataOf(units[1..])
  }

  predicate ValidUnits(units: seq<Unit>) {
    forall u | u in units :: ValidUnit(u)
  }

  lemma {:induction false} DecodeByte(d: DecodeState, b: byte, rest: seq<byte>)
    ensures Decode(d, [b] + rest) == (if Feed(d, b).1.Some? then [Feed(d, b).1.value] else [])
            + Decode(Feed(d, b).0, rest)
  {
    assert ([b] + rest)[1..] == rest;
  }

  lemma {:induction false} DecodeTwo(d: DecodeState, a: byte, b: byte, rest: seq<byte>)
    requires Feed(d, a).1.None?
    ensures Decode(d, [a, b] + rest)
         == (if Feed(Feed(d, a).0, b).1.Some? then [Feed(Feed(d, a).0, b).1.value] else [])
            + Decode(Feed(Feed(d, a).0, b).0, rest)
  {
    hide Decode;
    assert [a, b] + rest == [a] + ([b] + rest);
    DecodeByte(d, a, [b] + rest);
    DecodeByte(Feed(d, a).0, b, rest);
  }

  lemma {:induction false} ValidSubParts(body: seq<SubUnit>)
    requires ValidSub(body) && body != []
    ensures ValidSub(body[1..]) && if body[0].SubByte? then body[0].b != IAC else body[0].b != SE
  {
    assert body[0] in body;
  }

  lemma {:induction false} DecodeSub(body: seq<SubUnit>, rest: seq<byte>)
    requires ValidSub(body)
    ensures Decode(InSub, EncodeSub(body) + ([IAC, SE] + rest)) == Decode(InData, rest)
  {
    hide Decode, ValidSub;
    if body == [] {
      assert EncodeSub(body) + ([IAC, SE] + rest) == [IAC, SE] + rest;
      DecodeTwo(InSub, IAC, SE, rest);
    } else {
      var more := EncodeSub(body[1..]) + ([IAC, SE] + rest);
      ValidSubParts(body);
      DecodeSub(body[1..], rest);
      if body[0].SubByte? {
        assert EncodeSub(body) + ([IAC, SE] + rest) == [body[0].b] + more;
        DecodeByte(InSub, body[0].b, more);
      } else {
        assert EncodeSub(body) + ([IAC, SE] + rest) == [IAC, body[0].b] + more;
        DecodeTwo(InSub, IAC, body[0].b, more);
      }
    }
  }

  lemma {:induction false} DecodeUnit(u: Unit, rest: seq<byte>)
    requires ValidUnit(u)
    ensures Decode(InData, EncodeUnit(u) + rest) == (if u.Datum? then [u.b] else []) + Decode(InData, rest)
  {
    hide Decode, EncodeSub, ValidSub;
    match u
    case Datum(b) =>
      if b == IAC {
        DecodeTwo(InData, IAC, IAC, rest);
      } else {
        DecodeByte(InData, b, rest);
      }
    case Command(b) => DecodeTwo(InData, IAC, b, rest);
    case Negotiate(verb, option) =>
      assert EncodeUnit(u) + rest == [IAC, verb] + ([option] + rest);
      DecodeTwo(InData, IAC, verb, [option] + rest);
      DecodeByte(InOption, option, rest);
    case Subnegotiate(body) =>
      var more := EncodeSub(body) + ([IAC, SE] + rest);
      assert EncodeUnit(u) + rest == [IAC, SB] + more;
      DecodeTwo(InData, IAC, SB, more);
      DecodeSub(body, rest);
  }

  /** Decoding keeps exactly the data of a stream of complete units, however the commands are
      mixed in. */
  lemma {:induction false} DecodeEncoded(units: seq<Unit>, rest: seq<byte>)
    requires ValidUnits(units)
    ensures Decode(InData, Encode(units) + rest) == DataOf(units) + Decode(InData, rest)
  {
    if units == [] {
      assert Encode(units) + rest == rest;
    } else {
      var more := Encode(units[1..]) + rest;
      assert Encode(units) + rest == EncodeUnit(units[0]) + more;
      assert units[0] in units;
      DecodeUnit(units[0], more);
      DecodeEncoded(units[1..], rest);
    }
  }

  /** tail breaks off inside one more unit. */
  ghost predicate Unfinished(tail: seq<byte>) {
    tail == [] || exists u, missing :: ValidUnit(u) && missing != [] && EncodeUnit(u) == tail + missing
  }

  lemma {:induction false} DecodeShort(d: DecodeState, a: byte, b: byte)
    requires Feed(d, a).1.None? && Feed(Feed(d, a).0, b).1.None?
    ensures Decode(d, []) == [] && Decode(d, [a]) == [] && Decode(d, [a, b]) == []
  {
    assert [a] == [a] + [] && [a, b] == [a, b] + [];
    DecodeByte(d, a, []);
    DecodeTwo(d, a, b, []);
  }

  /** Reads subnegotiation bytes up to IAC SE, or says how they break off. */
  lemma {:induction false} ParseSub(v: seq<byte>) returns (body: seq<SubUnit>, done: bool, rest: seq<byte>)
    ensures ValidSub(body)
    ensures done ==> v == EncodeSub(body) + ([IAC, SE] + rest)
    ensures !done ==> rest in {[], [IAC]} && v == EncodeSub(body) + rest && Decode(InSub, v) == []
  {
    hide Decode;
    if v == [] || v == [IAC] {
      body, done, rest := [], false, v;
      DecodeShort(InSub, IAC, 0);
    } else if v[0] == IAC && v[1] == SE {
      body, done, rest := [], true, v[2..];
      assert v == [] + ([IAC, SE] + v[2..]);
    } else if v[0] == IAC {
      var more;
      more, done, rest := ParseSub(v[2..]);
      body := [SubEscape(v[1])] + more;
      assert body[1..] == more && v == [IAC, v[1]] + v[2..];
      DecodeTwo(InSub, IAC, v[1], v[2..]);
    } else {
      var more;
      more, done, rest := ParseSub(v[1..]);
      body := [SubByte(v[0])] + more;
      assert body[1..] == more && v == [v[0]] + v[1..];
      DecodeByte(InSub, v[0], v[1..]);
    }
  }

  /** The first unit of a stream and what follows it, or, when there is none, why not. */
  lemma {:induction false} ParseUnit(v: seq<byte>) returns (done: bool, u: Unit, rest: seq<byte>)
    ensures ValidUnit(u)
    ensures done ==> v == EncodeUnit(u) + rest && |rest| < |v|
    ensures !done ==> Unfinished(v) && Decode(InData, v) == []
  {
    hide Decode;
    done, u, rest := true, Datum(0), [];
    if v == [] {
      done := false;
      DecodeShort(InData, IAC, 0);
    } else if v[0] != IAC {
      u, rest := Datum(v[0]), v[1..];
    } else if |v| == 1 {
      done := false;
      assert v == [IAC] && EncodeUnit(Datum(IAC)) == v + [IAC];
      DecodeShort(InData, IAC, 0);
    } else if v[1] == IAC {
      u, rest := Datum(IAC), v[2..];
    } else if v[1] < SB {
      u, rest := Command(v[1]), v[2..];
    } else if v[1] == SB {
      var body;
      body, done, rest := ParseSub(v[2..]);
      assert v == [IAC, SB] + v[2..];
      u := Subnegotiate(body);
      if done {
        assert v == EncodeUnit(u) + rest;
      } else {
        UnfinishedSub(v, body, rest);
        DecodeTwo(InData, IAC, SB, v[2..]);
      }
    } else if |v| == 2 {
      done := false;
      assert EncodeUnit(Negotiate(v[1], 0)) == v + [0];
      DecodeShort(InData, IAC, v[1]);
      assert v == [IAC, v[1]];
    } else {
      u, rest := Negotiate(v[1], v[2]), v[3..];
    }
  }

  lemma {:induction false} UnfinishedSub(v: seq<byte>, body: seq<SubUnit>, rest: seq<byte>)
    requires ValidSub(body) && rest in {[], [IAC]} && v == [IAC, SB] + (EncodeSub(body) + rest)
    ensures Unfinished(v)
  {
    var u := Subnegotiate(body);
    if rest == [] {
      assert EncodeUnit(u) == v + [IAC, SE];
    } else {
      assert EncodeUnit(u) == v + [SE];
    }
  }

  /** Every byte stream is a sequence of complete units and then the start of one more, and the
      units are what decides the decoded data. With DecodeEncoded this describes the decoder
      completely. */
  lemma {:induction false} EveryStreamParses(v: seq<byte>) returns (units: seq<Unit>, tail: seq<byte>)
    ensures ValidUnits(units) && Unfinished(tail) && v == Encode(units) + tail
    ensures Decode(InData, v) == DataOf(units)
    decreases |v|
  {
    hide Decode, EncodeUnit, ValidUnit, Unfinished;
    var done, u, rest := ParseUnit(v);
    if !done {
      units, tail := [], v;
      assert [] + v == v;
    } else {
      var more;
      more, tail := EveryStreamParses(rest);
      units := [u] + more;
      assert units[1..] == more;
      Assoc(EncodeUnit(u), Encode(more), tail);
      DecodeUnit(u, rest);
    }
  }

  // ---------- Lines ----------

  /** The part after the last complete line, with a CR whose meaning the next byte decides, or the
      discovery that a line is too long. */
  datatype Tail = Partial(line: seq<byte>, cr: bool) | Overrun

  datatype Split = Split(lines: seq<seq<byte>>, tail: Tail)

  /** Network virtual terminal lines of decoded data: LF or CR LF ends a line, CR NUL is a literal
      CR, CR before anything else is itself. line is what the current line holds so far. */
  function NvtLines(data: seq<byte>, line: seq<byte>): Split
    decreases |data|
  {
    if data == [] then Split([], Partial(line, false))
    else if data[0] == LF then Then(line, NvtLines(data[1..], []))
    else if data == [CR] then Split([], Partial(line, true))
    else if data[0] == CR && data[1] == LF then Then(line, NvtLines(data[2..], []))
    else if |line| >= MAX_LINE then Split([], Overrun)
    else NvtLines(if data[0] == CR && data[1] == NUL then data[2..] else data[1..], line + [data[0]])
  }

  function Then(line: seq<byte>, rest: Split): Split {
    Split([line] + rest.lines, rest.tail)
  }

  /** A line as a client sends it, before the doubling of IAC. */
  function Escape(line: seq<byte>): seq<byte> {
    if line == [] then [] else (if line[0] == CR then [CR, NUL] else [line[0]]) + Escape(line[1..])
  }

  function Wire(lines: seq<seq<byte>>): seq<byte> {
    if lines == [] then [] else Escape(lines[0]) + [CR, LF] + Wire(lines[1..])
  }

  lemma {:induction false} SplitEscaped(line: seq<byte>, acc: seq<byte>, rest: seq<byte>)
    requires LF !in line && |acc| + |line| <= MAX_LINE
    ensures NvtLines(Escape(line) + ([CR, LF] + rest), acc) == Then(acc + line, NvtLines(rest, []))
    decreases |line|
  {
    var all := Escape(line) + ([CR, LF] + rest);
    if line == [] {
      assert all == [CR, LF] + rest && all[2..] == rest && acc + line == acc;
    } else {
      var more := Escape(line[1..]) + ([CR, LF] + rest);
      SplitEscaped(line[1..], acc + [line[0]], rest);
      assert (acc + [line[0]]) + line[1..] == acc + line;
      if line[0] == CR {
        assert all == [CR, NUL] + more && all[2..] == more;
      } else {
        assert all == [line[0]] + more && all[1..] == more;
        assert line[0] != LF;
      }
    }
  }

  predicate Sendable(lines: seq<seq<byte>>) {
    forall l | l in lines :: LF !in l && |l| <= MAX_LINE
  }

  lemma {:induction false} SplitWire(lines: seq<seq<byte>>)
    requires Sendable(lines)
    ensures NvtLines(Wire(lines), []) == Split(lines, Partial([], false))
  {
    if lines != [] {
      assert Wire(lines) == Escape(lines[0]) + ([CR, LF] + Wire(lines[1..]));
      assert lines[0] in lines && [] + lines[0] == lines[0];
      SplitEscaped(lines[0], [], Wire(lines[1..]));
      SplitWire(lines[1..]);
    }
  }

  /** Lines without LF and of at most 256 bytes, sent with CR as CR NUL, CR LF line ends and IAC
      doubled, come back as they were, whatever complete commands, option negotiations and
      subnegotiations are put between the encoded bytes (between CR and LF too). */
  lemma LinesSurviveTheWire(lines: seq<seq<byte>>, units: seq<Unit>)
    requires Sendable(lines) && ValidUnits(units) && DataOf(units) == Wire(lines)
    ensures NvtLines(Decode(InData, Encode(units)), []) == Split(lines, Partial([], false))
  {
    DecodeEncoded(units, []);
    assert Encode(units) + [] == Encode(units);
    assert Decode(InData, []) == [] && DataOf(units) + [] == DataOf(units);
    SplitWire(lines);
  }

  /** What a byte of a line can look like in decoded data: itself, CR NUL for a CR, or a CR by itself before a byte
      that is neither LF nor NUL. */
  datatype Mark = Itself(b: byte) | CrNul | LoneCr

  function PrintMarks(marks: seq<Mark>): seq<byte> {
    if marks == [] then []
    else
      (match marks[0] case Itself(b) => [b] case CrNul => [CR, NUL] case LoneCr => [CR]) + PrintMarks(marks[1..])
  }

  function ValueOf(marks: seq<Mark>): seq<byte> {
    if marks == [] then [] else [if marks[0].Itself? then marks[0].b else CR] + ValueOf(marks[1..])
  }

  predicate ValidMarks(marks: seq<Mark>, end: seq<byte>) {
    marks == []
    || (&& (marks[0].Itself? ==> marks[0].b != CR && marks[0].b != LF)
        && (marks[0].LoneCr? ==>
              var next := PrintMarks(marks[1..]) + end; next != [] && next[0] != LF && next[0] != NUL)
        && ValidMarks(marks[1..], end))
  }

  lemma {:induction false} OneByteStep(b: byte, more: seq<byte>, acc: seq<byte>)
    requires b != LF && (b == CR ==> more != [] && more[0] != LF && more[0] != NUL)
    ensures NvtLines([b] + more, acc) == if |acc| >= MAX_LINE then Split([], Overrun) else NvtLines(more, acc + [b])
  {
    var all := [b] + more;
    assert all[1..] == more;
  }

  lemma {:induction false} CrNulStep(more: seq<byte>, acc: seq<byte>)
    ensures NvtLines([CR, NUL] + more, acc)
         == if |acc| >= MAX_LINE then Split([], Overrun) else NvtLines(more, acc + [CR])
  {
    var all := [CR, NUL] + more;
    assert all[2..] == more;
  }

  /** One mark is one step of the splitting. */
  lemma {:induction false} FirstMark(marks: seq<Mark>, end: seq<byte>, acc: seq<byte>, rest: seq<byte>)
    requires (end == [LF] || end == [CR, LF]) && ValidMarks(marks, end) && marks != []
    ensures NvtLines(PrintMarks(marks) + end + rest, acc)
         == if |acc| >= MAX_LINE then Split([], Overrun)
            else NvtLines(PrintMarks(marks[1..]) + end + rest, acc + [ValueOf(marks)[0]])
  {
    hide NvtLines;
    var tail := PrintMarks(marks[1..]);
    var more := tail + end + rest;
    match marks[0]
    case Itself(b) =>
      Regrouped([b], tail, end, rest);
      OneByteStep(b, more, acc);
    case CrNul =>
      Regrouped([CR, NUL], tail, end, rest);
      CrNulStep(more, acc);
    case LoneCr =>
      Regrouped([CR], tail, end, rest);
      assert more[0] == (tail + end)[0];
      OneByteStep(CR, more, acc);
  }

  lemma {:induction false} Regrouped(x: seq<byte>, tail: seq<byte>, end: seq<byte>, rest: seq<byte>)
    ensures x + tail + end + rest == x + (tail + end + rest)
  {
    Assoc(x, tail, end);
    Assoc(x, tail + end, rest);
  }

  /** However a line is spelled, LF and CR LF both end it and the bytes after it are the next, if it has at most 256
      bytes; otherwise it is too long. */
  lemma {:induction false} AnySpellingSplits(marks: seq<Mark>, end: seq<byte>, acc: seq<byte>, rest: seq<byte>)
    requires (end == [LF] || end == [CR, LF]) && ValidMarks(marks, end) && |acc| <= MAX_LINE
    ensures NvtLines(PrintMarks(marks) + end + rest, acc)
         == if |acc| + |marks| <= MAX_LINE then Then(acc + ValueOf(marks), NvtLines(rest, [])) else Split([], Overrun)
    decreases |marks|
  {
    if marks == [] {
      var all := PrintMarks(marks) + end + rest;
      assert all == end + rest && acc + ValueOf(marks) == acc && all[|end|..] == rest;
    } else {
      hide NvtLines;
      FirstMark(marks, end, acc, rest);
      if |acc| < MAX_LINE {
        var b := ValueOf(marks)[0];
        AnySpellingSplits(marks[1..], end, acc + [b], rest);
        assert (acc + [b]) + ValueOf(marks[1..]) == acc + ValueOf(marks);
      }
    }
  }

  lemma {:induction false} SplitHalf(line: seq<byte>, acc: seq<byte>)
    requires LF !in line && |acc| <= MAX_LINE
    ensures NvtLines(Escape(line), acc)
         == Split([], if |acc| + |line| <= MAX_LINE then Partial(acc + line, false) else Overrun)
    decreases |line|
  {
    var all := Escape(line);
    if line == [] {
      assert acc + line == acc;
    } else {
      var more := Escape(line[1..]);
      assert (acc + [line[0]]) + line[1..] == acc + line;
      assert all[..1] == [line[0]] && line[0] != LF && (line[0] == CR ==> all[1] == NUL);
      assert (if line[0] == CR then all[2..] else all[1..]) == more;
      if |acc| < MAX_LINE {
        SplitHalf(line[1..], acc + [line[0]]);
      }
    }
  }

  lemma {:induction false} SplitWireAnd(lines: seq<seq<byte>>, more: seq<byte>)
    requires Sendable(lines)
    ensures var rest := NvtLines(more, []);
            NvtLines(Wire(lines) + more, []) == Split(lines + rest.lines, rest.tail)
  {
    hide NvtLines, Escape;
    var rest := NvtLines(more, []);
    if lines == [] {
      assert Wire(lines) + more == more && lines + rest.lines == rest.lines;
    } else {
      assert [lines[0]] + (lines[1..] + rest.lines) == lines + rest.lines;
      assert Wire(lines) + more == Escape(lines[0]) + ([CR, LF] + (Wire(lines[1..]) + more));
      assert lines[0] in lines && [] + lines[0] == lines[0];
      SplitEscaped(lines[0], [], Wire(lines[1..]) + more);
      SplitWireAnd(lines[1..], more);
    }
  }

  /** So do lines followed by one that was begun, at most 256 bytes of it. */
  lemma {:induction false} HalfLinesSurvive(lines: seq<seq<byte>>, begun: seq<byte>, units: seq<Unit>)
    requires Sendable(lines) && LF !in begun && ValidUnits(units) && DataOf(units) == Wire(lines) + Escape(begun)
    ensures NvtLines(Decode(InData, Encode(units)), [])
            == Split(lines, if |begun| <= MAX_LINE then Partial(begun, false) else Overrun)
  {
    hide NvtLines, Escape, Wire, Encode;
    DecodeEncoded(units, []);
    assert Encode(units) + [] == Encode(units);
    assert Decode(InData, []) == [] && DataOf(units) + [] == DataOf(units);
    hide Decode, DataOf;
    SplitHalf(begun, []);
    assert [] + begun == begun && lines + [] == lines;
    SplitWireAnd(lines, Escape(begun));
  }

  // ---------- The incremental reader ----------

  /** The state a line reader carries from byte to byte. */
  datatype Framer = Framer(dec: DecodeState, line: seq<byte>, cr: bool)

  datatype Framed = More(f: Framer) | Ended(line: seq<byte>, f: Framer) | TooLong(f: Framer)

  function FramePlain(f: Framer, b: byte): Framed {
    if b == CR then More(f.(cr := true))
    else if b == LF then Ended(f.line, f.(line := []))
    else if |f.line| >= MAX_LINE then TooLong(f)
    else More(f.(line := f.line + [b]))
  }

  function FrameData(f: Framer, b: byte): Framed {
    if !f.cr then FramePlain(f, b)
    else if b == LF then Ended(f.line, f.(line := [], cr := false))
    else if |f.line| >= MAX_LINE then TooLong(f.(cr := false))
    else if b == NUL then More(f.(line := f.line + [CR], cr := false))
    else FramePlain(f.(line := f.line + [CR], cr := false), b)
  }

  function FrameByte(f: Framer, b: byte): Framed {
    var (d, out) := Feed(f.dec, b);
    if out.None? then More(f.(dec := d)) else FrameData(f.(dec := d), out.value)
  }

  /** The next line of a stream: the line, the framer after it and the bytes it took; or that it is
      too long; or that the stream ends first. */
  datatype Scan = Line(line: seq<byte>, f: Framer, used: nat) | Overlong(f: Framer, used: nat) | Hungry(f: Framer)

  function Shift(s: Scan, k: nat): Scan {
    match s
    case Line(line, f, used) => Line(line, f, used + k)
    case Overlong(f, used) => Overlong(f, used + k)
    case Hungry(f) => Hungry(f)
  }

  function NextLine(f: Framer, v: seq<byte>): (s: Scan)
    ensures s.Hungry? || 1 <= s.used <= |v|
    decreases |v|
  {
    if v == [] then Hungry(f)
    else match FrameByte(f, v[0])
         case More(g) => Shift(NextLine(g, v[1..]), 1)
         case Ended(line, g) => Line(line, g, 1)
         case TooLong(g) => Overlong(g, 1)
  }

  /** The line being collected, and every line handed on, has at most 256 bytes. */
  lemma {:induction false} LinesStayShort(f: Framer, v: seq<byte>)
    requires |f.line| <= MAX_LINE
    ensures match NextLine(f, v)
            case Line(line, g, _) => |line| <= MAX_LINE && g.line == []
            case Overlong(g, _) => |g.line| == MAX_LINE
            case Hungry(g) => |g.line| <= MAX_LINE
    decreases |v|
  {
    if v != [] {
      match FrameByte(f, v[0])
      case More(g) => LinesStayShort(g, v[1..]);
      case _ =>
    }
  }

  /** The decoded data still to be split, a held-back CR in front. */
  function Unsplit(f: Framer, v: seq<byte>): seq<byte> {
    (if f.cr then [CR] else []) + Decode(f.dec, v)
  }

  function SplitFrom(f: Framer, v: seq<byte>): Split {
    NvtLines(Unsplit(f, v), f.line)
  }

  lemma {:induction false} FrameDataSplits(f: Framer, b: byte, rest: seq<byte>)
    ensures var all := NvtLines((if f.cr then [CR] else []) + ([b] + rest), f.line);
            match FrameData(f, b)
            case More(g) => all == NvtLines((if g.cr then [CR] else []) + rest, g.line)
            case Ended(line, g) => all == Then(line, NvtLines(rest, [])) && g.line == [] && !g.cr && line == f.line
            case TooLong(_) => all == Split([], Overrun)
  {
    var data := [b] + rest;
    assert data[0] == b && data[1..] == rest;
    assert [] + rest == rest && [] + data == data;
    if f.cr {
      var all := [CR] + data;
      assert all[0] == CR && all[1] == b && all[1..] == data && all[2..] == rest;
      if b != LF && |f.line| < MAX_LINE && b != NUL {
        FramePlainSplits(f.(line := f.line + [CR], cr := false), b, rest);
      }
    } else {
      FramePlainSplits(f, b, rest);
    }
  }

  lemma {:induction false} FramePlainSplits(f: Framer, b: byte, rest: seq<byte>)
    requires !f.cr
    ensures var all := NvtLines([b] + rest, f.line);
            match FramePlain(f, b)
            case More(g) => all == NvtLines((if g.cr then [CR] else []) + rest, g.line)
            case Ended(line, g) => all == Then(line, NvtLines(rest, [])) && g.line == [] && !g.cr && line == f.line
            case TooLong(_) => all == Split([], Overrun)
  {
    var data := [b] + rest;
    assert data[0] == b && data[1..] == rest && [] + rest == rest;
    if b == CR {
      assert data == [CR] + rest;
    }
  }

  lemma {:induction false} FramingKeepsDecoder(f: Framer, b: byte)
    ensures FrameData(f, b).f.dec == f.dec
  {
  }

  lemma {:induction false} SplitNothing(f: Framer)
    ensures NvtLines(if f.cr then [CR] else [], f.line) == Split([], Partial(f.line, f.cr))
  {
  }

  /** Reading line by line, byte by byte, gives the lines of the decoded stream. */
  lemma {:induction false} NextLineSplits(f: Framer, v: seq<byte>)
    ensures match NextLine(f, v)
            case Line(line, g, used) =>
              SplitFrom(f, v) == Then(line, SplitFrom(g, v[used..])) && g.line == [] && !g.cr
            case Overlong(_, _) => SplitFrom(f, v) == Split([], Overrun)
            case Hungry(g) => SplitFrom(f, v) == Split([], Partial(g.line, g.cr))
    decreases |v|
  {
    hide NvtLines, FrameData;
    if v == [] {
      assert Unsplit(f, v) == if f.cr then [CR] else [];
      SplitNothing(f);
    } else {
      var (d, out) := Feed(f.dec, v[0]);
      var rest := Decode(d, v[1..]);
      if out.None? {
        assert [] + rest == rest;
        assert Unsplit(f, v) == Unsplit(f.(dec := d), v[1..]);
        NextLineSplits(f.(dec := d), v[1..]);
        AfterOne(f, v, f.(dec := d));
      } else {
        FrameDataSplits(f.(dec := d), out.value, rest);
        FramingKeepsDecoder(f.(dec := d), out.value);
        match FrameByte(f, v[0])
        case More(g) =>
          NextLineSplits(g, v[1..]);
          AfterOne(f, v, g);
        case Ended(line, g) =>
          assert [] + rest == rest;
        case TooLong(_) =>
      }
    }
  }

  lemma {:induction false} AfterOne(f: Framer, v: seq<byte>, g: Framer)
    requires v != [] && FrameByte(f, v[0]) == More(g)
    ensures var s := NextLine(g, v[1..]);
            NextLine(f, v) == Shift(s, 1) && (!s.Hungry? ==> v[1..][s.used..] == v[s.used + 1..])
  {
  }
}
