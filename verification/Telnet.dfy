/** The Telnet handler: decoder and line reader objects, and the login dialogue
    (src/protocols/telnet.rs). */
module Telnet {
  import opened Bytes
  import opened Session
  import opened TelnetCodec
  import opened TelnetDialogue
  import Utf8

  class TelnetDecoder {
    var state: DecodeState

    constructor ()
      ensures state == InData
    {
      state := InData;
    }

    method Feed(b: byte) returns (out: Option<byte>)
      modifies this
      ensures (state, out) == TelnetCodec.Feed(old(state), b)
    {
      out := None;
      match state {
        case InData =>
          if b == 255 {
            state := InIac;
          } else {
            out := Some(b);
          }
        case InIac =>
          if b == 255 {
            state := InData;
            out := Some(255);
          } else if 251 <= b <= 254 {
            state := InOption;
          } else if b == 250 {
            state := InSub;
          } else {
            state := InData;
          }
        case InOption => state := InData;
        case InSub =>
          if b == 255 {
            state := InSubIac;
          }
        case InSubIac => state := if b == 240 then InData else InSub;
      }
    }
  }

  const READS: Cap := Buffer(256)

  datatype LineResult = Complete(line: seq<byte>) | Closed | Aborted(reason: CloseReason)

  class LineReader {
    var pending: seq<byte>
    const decoder: TelnetDecoder
    var line: seq<byte>
    var pendingCr: bool

    constructor ()
      ensures pending == [] && View() == Framer(InData, [], false) && fresh(decoder)
    {
      pending, line, pendingCr := [], [], false;
      decoder := new TelnetDecoder();
    }

    ghost function View(): Framer
      reads this, decoder
    {
      Framer(decoder.state, line, pendingCr)
    }

    method Append(b: byte, state: SessionState) returns (ok: bool)
      modifies this`line, state`events, state`eventsTruncated
      ensures ok <==> |old(line)| < MAX_LINE
      ensures ok ==> line == old(line) + [b] && state.events == old(state.events)
                     && state.eventsTruncated == old(state.eventsTruncated)
      ensures !ok ==> line == old(line) && Noticed(old(state.events), old(state.eventsTruncated), state,
                                                   "telnet_line_too_long")
    {
      if |line| >= MAX_LINE {
        state.PushEvent(Notice("telnet_line_too_long"));
        return false;
      }
      line := line + [b];
      return true;
    }

    /** Take one pending byte through the decoder and the framer. */
    method Step(state: SessionState) returns (r: Option<LineResult>)
      requires pending != []
      modifies this, decoder, state`events, state`eventsTruncated
      ensures pending == old(pending)[1..]
      ensures match FrameByte(old(View()), old(pending)[0])
              case More(g) => r == None && View() == g && Quiet(old(state.events), old(state.eventsTruncated), state)
              case Ended(l, g) => r == Some(Complete(l)) && View() == g
                  && Quiet(old(state.events), old(state.eventsTruncated), state)
              case TooLong(g) => r == Some(Aborted(ProtocolError)) && View() == g
                                 && Noticed(old(state.events), old(state.eventsTruncated), state,
                                            "telnet_line_too_long")
    {
      var raw := pending[0];
      pending := pending[1..];
      var out := decoder.Feed(raw);
      if out.None? {
        return None;
      }
      var b := out.value;
      if pendingCr {
        pendingCr := false;
        if b == LF {
          r := Some(Complete(line));
          line := [];
          return;
        }
        var ok := Append(CR, state);
        if !ok {
          return Some(Aborted(ProtocolError));
        }
        if b == NUL {
          return None;
        }
      }
      if b == CR {
        pendingCr := true;
      } else if b == LF {
        r := Some(Complete(line));
        line := [];
        return;
      } else {
        var ok := Append(b, state);
        if !ok {
          return Some(Aborted(ProtocolError));
        }
      }
      return None;
    }

    /** How far into the client's stream this reader has processed. */
    ghost function Position(io: SessionIo): int
      reads this, io`taken
    {
      io.taken - |pending|
    }

    ghost predicate Buffered(io: SessionIo, state: SessionState)
      reads this, io`taken, io`awaits, state
    {
      && io.Synced(state)
      && 0 <= Position(io)
      && pending == io.peer.stream[Position(io)..io.taken]
    }

    /** Between lines: nothing was read that was not needed, and all that was processed is in the script. */
    ghost predicate Ready(io: SessionIo, state: SessionState)
      reads this, io, state
    {
      Buffered(io, state) && io.OnScript(state, READS) && Position(io) == Heard(io.script)
    }

    /** The next byte the reader needs. */
    ghost function Need(io: SessionIo): int
      reads this, io`taken
    {
      Position(io) + if pending == [] then 0 else 1
    }

    /** Inside a line: every read so far was needed. */
    ghost predicate MidLine(io: SessionIo, state: SessionState)
      reads this, io, state
    {
      Buffered(io, state) && Heard(io.script) <= Position(io) && io.ReadingOn(state, READS, Need(io))
    }

    /** The visible bytes not processed yet. */
    ghost function Rest(io: SessionIo, state: SessionState): seq<byte>
      requires Buffered(io, state)
      reads this, io`taken, io`awaits, state
    {
      Visible(io.peer, state.inputLimit)[Position(io)..]
    }

    lemma {:induction false} BufferedMeans(io: SessionIo, state: SessionState)
      requires Buffered(io, state)
      ensures io.Synced(state) && 0 <= Position(io) <= io.taken <= |Visible(io.peer, state.inputLimit)|
      ensures pending == [] <==> Position(io) == io.taken
    {
    }

    /** Process pending bytes until a line is complete or too long, or none are left. */
    method Drain(state: SessionState) returns (r: Option<LineResult>)
      modifies this, decoder, state`events, state`eventsTruncated
      ensures var events, cut := old(state.events), old(state.eventsTruncated);
              match NextLine(old(View()), old(pending))
              case Line(l, g, used) =>
                r == Some(Complete(l)) && View() == g && pending == old(pending)[used..] && Quiet(events, cut, state)
              case Overlong(g, used) =>
                r == Some(Aborted(ProtocolError)) && View() == g && pending == old(pending)[used..]
                && Noticed(events, cut, state, "telnet_line_too_long")
              case Hungry(g) => r == None && View() == g && pending == [] && Quiet(events, cut, state)
    {
      hide NextLine, FrameByte;
      ghost var p0, f0 := pending, View();
      ghost var k := 0;
      ShiftNone(f0, p0);
      while pending != []
        invariant 0 <= k <= |p0| && pending == p0[k..]
        invariant Quiet(old(state.events), old(state.eventsTruncated), state)
        invariant NextLine(f0, p0) == Shift(NextLine(View(), pending), k)
        decreases |pending|
      {
        ScanOne(View(), pending);
        assert p0[k..][1..] == p0[k + 1..];
        var step := Step(state);
        k := k + 1;
        if step.Some? {
          return step;
        }
      }
      ScanNone(View(), pending);
      return None;
    }

    /** Read one more chunk, or find out how the stream ends. */
    method Fill(io: SessionIo, state: SessionState, buffer: array<byte>) returns (r: Option<LineResult>)
      requires MidLine(io, state) && pending == [] && buffer.Length == 256
      modifies this`pending, io`taken, io`chunks, io`awaits, io`script, state, buffer
      ensures Buffered(io, state) && Position(io) == old(Position(io))
      ensures r == None ==>
                && pending != [] && MidLine(io, state) && io.script == old(io.script)
                && Quiet(old(state.events), old(state.eventsTruncated), state)
      ensures r != None ==>
                && Ready(io, state) && Position(io) == |Visible(io.peer, state.inputLimit)|
                && StreamEnded(old(state.events), old(state.eventsTruncated), old(io.script),
                               Position(io) - Heard(old(io.script)), line, pendingCr, io, state, r.value)
    {
      hide Trail, ReadTo, Play, Heard, Spots, Visible, SessionState.Valid;
      var read := ReadOn(io, state, buffer, READS);
      match read {
        case End =>
          if line != [] || pendingCr {
            state.PushEvent(Notice("telnet_incomplete_line"));
            io.EventsOnlyGrow(state, old(state.events), old(state.eventsTruncated));
            Noted(io, state, READS, |old(state.events)|);
          }
          HeardTheRest(old(io.script), io.taken, io.peer, state.inputLimit);
          return Some(Closed);
        case Data(count) =>
          pending := buffer[..count];
          return None;
        case Failed(why) =>
          HeardTheRest(old(io.script), io.taken, io.peer, state.inputLimit);
          return Some(Aborted(why));
      }
    }

    /** What reading a line comes to, given what NextLine makes of the bytes from position p on, and what
        had been recorded and performed before. */
    ghost predicate LineRead(scan: Scan, p: int, events: seq<Event>, cut: bool, script: seq<Beat>, heard: int,
                             io: SessionIo, state: SessionState, r: LineResult)
      reads this, decoder, io, state
    {
      match scan
      case Line(l, g, used) =>
        && r == Complete(l) && View() == g && Position(io) == p + used && Quiet(events, cut, state)
        && io.script == script + [Hear(Max(heard, 0))]
      case Overlong(g, used) =>
        && r == Aborted(ProtocolError) && View() == g && Position(io) == p + used
        && Noticed(events, cut, state, "telnet_line_too_long")
        && io.script == script + [Hear(Max(heard, 0))] + [Note]
      case Hungry(g) =>
        && View() == g && Position(io) == |Visible(io.peer, state.inputLimit)|
        && StreamEnded(events, cut, script, heard, g.line, g.cr, io, state, r)
    }

    /** Process what is pending, as the start of all that is left of the stream. */
    method Chew(io: SessionIo, state: SessionState) returns (r: Option<LineResult>)
      requires Buffered(io, state)
      modifies this, decoder, state`events, state`eventsTruncated
      ensures Buffered(io, state)
      ensures var events, cut, used := old(state.events), old(state.eventsTruncated), Position(io) - old(Position(io));
              var scan := NextLine(old(View()), old(Rest(io, state)));
              match r
              case None =>
                && pending == [] && used >= 0 && Quiet(events, cut, state)
                && scan == Shift(NextLine(View(), Rest(io, state)), used)
              case Some(Complete(l)) => used > 0 && scan == Line(l, View(), used) && Quiet(events, cut, state)
              case Some(Aborted(why)) =>
                && why == ProtocolError && used > 0 && scan == Overlong(View(), used)
                && Noticed(events, cut, state, "telnet_line_too_long")
              case Some(Closed) => false
    {
      hide NextLine, FrameByte, Trail, SessionState.Valid;
      ghost var rest := Visible(io.peer, state.inputLimit)[io.taken..];
      assert Rest(io, state) == pending + rest;
      NextLineOfConcat(View(), pending, rest);
      r := Drain(state);
      io.EventsOnlyGrow(state, old(state.events), old(state.eventsTruncated));
      if r.None? {
        assert Rest(io, state) == rest;
      }
    }

    /** One turn of the reading loop: process what is pending, then get more. */
    method Turn(io: SessionIo, state: SessionState, buffer: array<byte>) returns (r: Option<LineResult>)
      requires MidLine(io, state) && buffer.Length == 256
      modifies this, decoder, io`taken, io`chunks, io`awaits, io`script, state, buffer
      ensures Buffered(io, state) && Position(io) >= old(Position(io))
      ensures r == None ==>
                && pending != [] && io.taken > old(io.taken)
                    && Quiet(old(state.events), old(state.eventsTruncated), state)
                && MidLine(io, state) && io.script == old(io.script)
                && NextLine(old(View()), old(Rest(io, state)))
                   == Shift(NextLine(View(), Rest(io, state)), Position(io) - old(Position(io)))
      ensures r.Some? ==>
                && Ready(io, state)
                && LineRead(NextLine(old(View()), old(Rest(io, state))), old(Position(io)),
                            old(state.events), old(state.eventsTruncated), old(io.script),
                            Position(io) - Heard(old(io.script)), io, state, r.value)
    {
      hide NextLine, FrameByte, Trail, ReadTo, Play, Heard, Spots, Visible, Buffered, StreamEnded;
      hide SessionIo.ReadingOn, SessionIo.OnScript, SessionIo.Synced;
      BufferedMeans(io, state);
      ghost var need := Need(io);
      ReadingMeans(io, state, READS, need);
      r := Chew(io, state);
      BufferedMeans(io, state);
      if r.None? {
        NeedGrows(io, state, READS, need, io.taken);
        ScanNone(View(), Rest(io, state));
        r := Fill(io, state, buffer);
      } else if r.value.Complete? {
        NeedGrows(io, state, READS, need, Position(io));
        Process(io, state, READS, Position(io));
      } else {
        ProcessAndNote(io, state, READS, need, Position(io), |old(state.events)|);
        assert io.script == old(io.script) + [Hear(Position(io) - Heard(old(io.script)))] + [Note];
      }
    }

    /** From position p, where rest was left of the visible stream, the reader moved on within it. */
    ghost predicate Advanced(p: int, rest: seq<byte>, io: SessionIo, state: SessionState)
      requires Buffered(io, state)
      reads this, io`taken, io`awaits, state
    {
      && 0 <= Position(io) - p <= |rest|
      && Rest(io, state) == rest[Position(io) - p..]
      && |Visible(io.peer, state.inputLimit)| == p + |rest|
    }

    method ReadLine(io: SessionIo, state: SessionState) returns (r: LineResult)
      requires Ready(io, state)
      modifies this, decoder, io`taken, io`chunks, io`awaits, io`script, state
      ensures Ready(io, state)
      ensures LineRead(NextLine(old(View()), old(Rest(io, state))), old(Position(io)),
                       old(state.events), old(state.eventsTruncated), old(io.script), Position(io) - old(Position(io)),
                       io, state, r)
      ensures Advanced(old(Position(io)), old(Rest(io, state)), io, state)
    {
      hide NextLine, FrameByte, Visible, Trail, ReadTo, Play, Heard, Spots, Buffered;
      hide SessionIo.ReadingOn, SessionIo.OnScript, SessionIo.Synced;
      var buffer := new byte[256];
      var turn: Option<LineResult> := None;
      ghost var f0, v0, p0 := View(), Rest(io, state), Position(io);
      ShiftNone(f0, v0);
      BufferedMeans(io, state);
      StartReading(io, state, READS, Need(io));
      while true
        invariant MidLine(io, state) && fresh(buffer) && buffer.Length == 256 && p0 <= Position(io)
        invariant Quiet(old(state.events), old(state.eventsTruncated), state) && io.script == old(io.script)
        invariant NextLine(f0, v0) == Shift(NextLine(View(), Rest(io, state)), Position(io) - p0)
        decreases |io.peer.stream| - io.taken
      {
        BufferedMeans(io, state);
        turn := Turn(io, state, buffer);
        BufferedMeans(io, state);
        if turn.Some? {
          return turn.value;
        }
      }
    }
  }

  /** The stream ended, or stalled, or the budget was spent, with this much of a line unfinished. */
  ghost predicate StreamEnded(events: seq<Event>, cut: bool, script: seq<Beat>, heard: int, line: seq<byte>, cr: bool,
                              io: SessionIo, state: SessionState, r: LineResult)
    reads io, state
  {
    var c, limit := io.peer, state.inputLimit;
    var ending := script + [Hear(Max(heard, 0))] + Ending(c, limit);
    && r == (if ClosedByClient(c, limit) then Closed else Aborted(Exhausted(c, limit)))
    && (if ClosedByClient(c, limit) && (line != [] || cr)
        then Noticed(events, cut, state, "telnet_incomplete_line") && io.script == ending + [Note]
        else Quiet(events, cut, state) && io.script == ending)
  }

  lemma {:induction false} HeardTheRest(script: seq<Beat>, n: nat, p: Peer, limit: nat)
    ensures Heard(script) <= n ==> Heard(script + [Hear(n - Heard(script))] + Ending(p, limit)) == n
  {
    hide Heard;
    if Heard(script) <= n {
      HeardEnding(p, limit, script, n - Heard(script));
    }
  }

  lemma {:induction false} NextLineOfConcat(f: Framer, a: seq<byte>, b: seq<byte>)
    ensures match NextLine(f, a)
            case Hungry(g) => NextLine(f, a + b) == Shift(NextLine(g, b), |a|)
            case _ => NextLine(f, a + b) == NextLine(f, a)
    decreases |a|
  {
    if a == [] {
      assert a + b == b;
    } else {
      assert (a + b)[0] == a[0] && (a + b)[1..] == a[1..] + b;
      match FrameByte(f, a[0])
      case More(g) => NextLineOfConcat(g, a[1..], b);
      case _ =>
    }
  }

  lemma {:induction false} ShiftNone(f: Framer, v: seq<byte>)
    ensures NextLine(f, v) == Shift(NextLine(f, v), 0)
  {
  }

  lemma {:induction false} ScanNone(f: Framer, v: seq<byte>)
    ensures v == [] ==> NextLine(f, v) == Hungry(f)
  {
  }

  lemma {:induction false} ScanOne(f: Framer, v: seq<byte>)
    requires v != []
    ensures match FrameByte(f, v[0])
            case More(g) => forall k: nat :: Shift(NextLine(f, v), k) == Shift(NextLine(g, v[1..]), k + 1)
            case Ended(line, g) => NextLine(f, v) == Line(line, g, 1)
            case TooLong(g) => NextLine(f, v) == Overlong(g, 1)
  {
  }

  ghost predicate Quiet(events: seq<Event>, cut: bool, state: SessionState)
    reads state
  {
    state.events == events && state.eventsTruncated == cut
  }

  /** One notice more, unless the event list was full. */
  ghost predicate Noticed(events: seq<Event>, cut: bool, state: SessionState, msg: string)
    reads state
  {
    && state.events == events + (if |events| < MAX_EVENTS then [Notice(msg)] else [])
    && state.eventsTruncated == (cut || |events| >= MAX_EVENTS)
  }

  // ---------- The dialogue ----------

  /** A snapshot of a session between lines: what it has recorded, written and performed, and what
      is left of the stream. */
  datatype Snap = Snap(events: seq<Event>, out: seq<seq<byte>>, script: seq<Beat>, view: Framer, rest: seq<byte>)

  ghost function Now(reader: LineReader, io: SessionIo, state: SessionState): Snap
    requires reader.Ready(io, state)
    reads reader, reader.decoder, io, state
  {
    Snap(state.events, io.out, io.script, reader.View(), reader.Rest(io, state))
  }

  /** The snapshot and the result after reading a line. */
  function AfterRead(a: Snap, peer: Peer, limit: nat): (Snap, LineResult) {
    match NextLine(a.view, a.rest)
    case Line(l, g, used) => (a.(view := g, rest := a.rest[used..], script := a.script + [Hear(used)]), Complete(l))
    case Overlong(g, used) =>
      (a.(events := a.events + [Notice("telnet_line_too_long")], view := g, rest := a.rest[used..],
          script := a.script + [Hear(used)] + [Note]),
       Aborted(ProtocolError))
    case Hungry(g) =>
      var b := a.(view := g, rest := [], script := a.script + [Hear(|a.rest|)] + Ending(peer, limit));
      if !ClosedByClient(peer, limit) then (b, Aborted(Exhausted(peer, limit)))
      else if g.line == [] && !g.cr then (b, Closed)
      else (b.(events := a.events + [Notice("telnet_incomplete_line")], script := b.script + [Note]), Closed)
  }

  lemma {:induction false} LineReadMeans(reader: LineReader, io: SessionIo, state: SessionState, a: Snap, p: int,
                                         r: LineResult)
    requires reader.Ready(io, state) && io.out == a.out && |a.events| < MAX_EVENTS
    requires reader.LineRead(NextLine(a.view, a.rest), p, a.events, false, a.script, reader.Position(io) - p,
                             io, state, r)
    requires reader.Advanced(p, a.rest, io, state)
    ensures !state.eventsTruncated
    ensures (Now(reader, io, state), r) == AfterRead(a, io.peer, state.inputLimit)
  {
    hide NextLine, Visible, Trail, ReadTo, Play, Heard, Spots, LineReader.Ready, LineReader.Buffered, LineReader.Rest;
    hide SessionIo.ReadingOn, SessionIo.OnScript, SessionIo.Synced, SessionState.Valid;
  }

  method NextInput(reader: LineReader, io: SessionIo, state: SessionState) returns (r: LineResult)
    requires reader.Ready(io, state) && |state.events| < MAX_EVENTS && !state.eventsTruncated
    modifies reader, reader.decoder, io`taken, io`chunks, io`awaits, io`script, state
    ensures reader.Ready(io, state) && !state.eventsTruncated
    ensures (Now(reader, io, state), r) == AfterRead(old(Now(reader, io, state)), io.peer, state.inputLimit)
  {
    hide NextLine, Visible, Trail, ReadTo, Play, Heard, Spots, LineReader.LineRead, AfterRead;
    hide StreamEnded, Quiet, Noticed, LineReader.Ready, LineReader.Buffered, LineReader.Rest;
    hide LineReader.Advanced, SessionIo.ReadingOn, SessionIo.OnScript, SessionIo.Synced, SessionState.Valid;
    ghost var a, p := Now(reader, io, state), reader.Position(io);
    r := reader.ReadLine(io, state);
    LineReadMeans(reader, io, state, a, p, r);
  }

  method PushLogin(reader: LineReader, io: SessionIo, state: SessionState, username: seq<byte>,
                   password: Option<seq<byte>>)
    requires reader.Ready(io, state) && |state.events| < MAX_EVENTS && !state.eventsTruncated
    modifies state`events, state`eventsTruncated, io`script
    ensures reader.Ready(io, state) && !state.eventsTruncated
    ensures var a := old(Now(reader, io, state));
            Now(reader, io, state) == a.(events := a.events + [Stored(state.privacy, Login(username, password))],
                                         script := a.script + [Note])
  {
    hide Stored, Visible, Trail, Play, Heard, Spots, Utf8.Lossy;
    var name, secret := Utf8.Lossy(username), if password.Some? then Some(Utf8.Lossy(password.value)) else None;
    state.PushEvent(TelnetLogin(name, secret, false));
    io.EventsOnlyGrow(state, old(state.events), false);
    Noted(io, state, READS, |old(state.events)|);
  }

  method WriteText(reader: LineReader, io: SessionIo, state: SessionState,
                   text: Text) returns (fault: Option<CloseReason>)
    requires reader.Ready(io, state)
    modifies io`out, io`awaits, io`script
    ensures reader.Ready(io, state) && fault == FaultAt(io.peer, |old(io.out)|)
    ensures var a := old(Now(reader, io, state));
            Now(reader, io, state) == Sent(a, text)
  {
    hide Visible, Trail, Play, Heard, Spots, SessionIo.OnScript, SessionState.Valid;
    HeardConcat(io.script, [Pause]);
    HeardBasics(0, 0);
    fault := io.Write(state, text);
  }

  /** From a the session went as the outcome says, to b. */
  ghost predicate Reached(o: Outcome, p: Privacy, a: Snap, b: Snap) {
    b.events == a.events + StoredAll(p, o.events) && b.out == a.out + o.out && b.script == a.script + o.beats
  }

  /** From a the session went as far as the outcome's first part, to b, and the rest of the outcome
      is what the dialogue with n attempts left makes of what is left of the stream. */
  ghost predicate Midway(o: Outcome, p: Privacy, n: nat, logins: seq<Event>, s: Setting, a: Snap, b: Snap) {
    && b.events == a.events + StoredAll(p, logins)
    && a.out <= b.out && a.script <= b.script
    && o == Prefix(logins, b.out[|a.out|..], b.script[|a.script|..], Attempts(n, b.view, b.rest, |b.out|, s))
  }

  /** A snapshot after one more write. */
  function Sent(a: Snap, text: Text): Snap {
    a.(out := a.out + [text], script := a.script + [Pause])
  }

  lemma {:induction false} StoredParts(p: Privacy, a: Event, b: Event)
    ensures StoredAll(p, []) == [] && StoredAll(p, [a]) == [Stored(p, a)]
    ensures StoredAll(p, [a] + [b]) == [Stored(p, a)] + [Stored(p, b)]
  {
  }

  /** A session that could not get a password line. */
  lemma {:induction false} PasswordFails(n: nat, user: seq<byte>, p: Privacy, s: Setting, a: Snap, b: Snap)
    requires n > 0
    requires var o := AfterRead(Sent(a, Ascii("Password: ")), s.peer, s.limit);
             !o.1.Complete?
             && b == o.0.(events := o.0.events + [Stored(p, Login(user, None))], script := o.0.script + [Note])
    requires FaultAt(s.peer, |a.out|).None?
    ensures var o := AskPassword(n, user, a.view, a.rest, |a.out|, s);
            var r := AfterRead(Sent(a, Ascii("Password: ")), s.peer, s.limit).1;
            Reached(o, p, a, b) && o.reason == if r.Closed? then ClientClosed else r.reason
  {
    hide NextLine, Ascii, StoredAll, Stored;
    AskPasswordCases(n, user, a.view, a.rest, |a.out|, s);
    StoredParts(p, Notice("telnet_line_too_long"), Login(user, None));
    StoredParts(p, Notice("telnet_incomplete_line"), Login(user, None));
    NoticesStay(p);
    var half := [Stored(p, Login(user, None))];
    StoredParts(p, Login(user, None), Login(user, None));
    match NextLine(a.view, a.rest)
    case Overlong(_, used) =>
      assert (a.events + [Notice("telnet_line_too_long")]) + half
             == a.events + ([Notice("telnet_line_too_long")] + half);
      assert a.script + [Pause] + [Hear(used)] + [Note] + [Note]
             == a.script + ([Pause] + ([Hear(used)] + [Note, Note]));
    case Hungry(_) =>
      assert (a.events + [Notice("telnet_incomplete_line")]) + half
             == a.events + ([Notice("telnet_incomplete_line")] + half);
      Endings(a.script, |a.rest|, Ending(s.peer, s.limit));
  }

  lemma {:induction false} Endings(script: seq<Beat>, n: nat, ending: seq<Beat>)
    ensures script + [Pause] + [Hear(n)] + ending + [Note] == script + ([Pause] + ([Hear(n)] + ending + [Note]))
    ensures script + [Pause] + [Hear(n)] + ending + [Note] + [Note]
            == script + ([Pause] + ([Hear(n)] + ending + [Note, Note]))
    ensures script + [Pause] + [Hear(n)] + ending == script + ([Pause] + ([Hear(n)] + ending))
  {
  }

  lemma {:induction false} NoticesStay(p: Privacy)
    ensures forall m: string :: Stored(p, Notice(m)) == Notice(m)
  {
  }

  /** A session that got a password line and refused the login. */
  lemma {:induction false} PasswordRefused(n: nat, user: seq<byte>, p: Privacy, s: Setting, a: Snap, b: Snap)
    requires n > 0
    requires var (r, l) := AfterRead(Sent(a, Ascii("Password: ")), s.peer, s.limit);
             l.Complete? && b == Sent(r.(events := r.events + [Stored(p, Login(user, Some(l.line)))],
                                         script := r.script + [Note]),
                                      Ascii("Login incorrect\r\n"))
    requires FaultAt(s.peer, |a.out|).None?
    ensures var o := AskPassword(n, user, a.view, a.rest, |a.out|, s);
            var l := AfterRead(Sent(a, Ascii("Password: ")), s.peer, s.limit).1;
            var fault := FaultAt(s.peer, |a.out| + 1);
            if fault.Some? then o.reason == fault.value && Reached(o, p, a, b)
            else Midway(o, p, n - 1, [Login(user, Some(l.line))], s, a, b)
  {
    hide NextLine, Ascii, StoredAll, Stored, Attempts, AskPassword;
    AskPasswordCases(n, user, a.view, a.rest, |a.out|, s);
    var l := AfterRead(Sent(a, Ascii("Password: ")), s.peer, s.limit).1;
    var ask, no := Ascii("Password: "), Ascii("Login incorrect\r\n");
    StoredParts(p, Login(user, Some(l.line)), Login(user, Some(l.line)));
    assert (a.out + [ask]) + [no] == a.out + [ask, no];
    var used := NextLine(a.view, a.rest).used;
    assert a.script + [Pause] + [Hear(used)] + [Note] + [Pause] == a.script + [Pause, Hear(used), Note, Pause];
  }

  /** The second half of an attempt, after a non-empty username. */
  method EnterPassword(reader: LineReader, io: SessionIo, state: SessionState, username: seq<byte>,
                       ghost n: nat, ghost s: Setting)
    returns (done: Option<CloseReason>, ghost logins: seq<Event>)
    requires reader.Ready(io, state) && n > 0 && s == Setting(io.peer, state.inputLimit, s.prompt)
    requires |state.events| <= 8 && !state.eventsTruncated
    modifies reader, reader.decoder, io, state
    ensures reader.Ready(io, state) && !state.eventsTruncated && |logins| <= 1
    ensures var a, b := old(Now(reader, io, state)), Now(reader, io, state);
            var o := AskPassword(n, username, a.view, a.rest, |a.out|, s);
            if done.Some? then done.value == o.reason && Reached(o, state.privacy, a, b)
            else Midway(o, state.privacy, n - 1, logins, s, a, b)
  {
    hide NextLine, Attempts, AskPassword, StoredAll, Ascii, Reached, Midway, LineReader.Ready;
    ghost var a := Now(reader, io, state);
    logins := [];
    done := WriteText(reader, io, state, Ascii("Password: "));
    if done.Some? {
      PushLogin(reader, io, state, username, None);
      PasswordNotAsked(n, username, state.privacy, s, a, Now(reader, io, state));
      return;
    }
    var r := NextInput(reader, io, state);
    if !r.Complete? {
      PushLogin(reader, io, state, username, None);
      PasswordFails(n, username, state.privacy, s, a, Now(reader, io, state));
      return Some(if r.Closed? then ClientClosed else r.reason), [];
    }
    logins := [Login(username, Some(r.line))];
    PushLogin(reader, io, state, username, Some(r.line));
    done := WriteText(reader, io, state, Ascii("Login incorrect\r\n"));
    PasswordRefused(n, username, state.privacy, s, a, Now(reader, io, state));
  }

  lemma {:induction false} PasswordNotAsked(n: nat, user: seq<byte>, p: Privacy, s: Setting, a: Snap, b: Snap)
    requires n > 0 && FaultAt(s.peer, |a.out|).Some?
    requires b == Sent(a, Ascii("Password: ")).(events := a.events + [Stored(p, Login(user, None))],
                                                script := a.script + [Pause] + [Note])
    ensures var o := AskPassword(n, user, a.view, a.rest, |a.out|, s);
            o.reason == FaultAt(s.peer, |a.out|).value && Reached(o, p, a, b)
  {
    hide Ascii, Login;
    FewNotes();
    StoredParts(p, Login(user, None), Login(user, None));
    Assoc(a.script, [Pause], [Note]);
  }

  // ---------- Putting the parts of a dialogue together ----------

  lemma {:induction false} StoredConcat(p: Privacy, a: seq<Event>, b: seq<Event>)
    ensures StoredAll(p, a + b) == StoredAll(p, a) + StoredAll(p, b)
  {
  }

  lemma {:induction false} PrefixThenReached(o: Outcome, p: Privacy, logins: seq<Event>, out: seq<seq<byte>>,
                                             beats: seq<Beat>, rest: Outcome,
                                             a: Snap, b: Snap, c: Snap)
    requires o == Prefix(logins, out, beats, rest) && Reached(rest, p, b, c)
    requires b.events == a.events + StoredAll(p, logins) && b.out == a.out + out && b.script == a.script + beats
    ensures Reached(o, p, a, c) && o.reason == rest.reason
  {
    StoredConcat(p, logins, rest.events);
    Assoc(a.events, StoredAll(p, logins), StoredAll(p, rest.events));
    Assoc(a.out, out, rest.out);
    Assoc(a.script, beats, rest.beats);
  }

  lemma {:induction false} PrefixThenMidway(o: Outcome, p: Privacy, logins: seq<Event>, out: seq<seq<byte>>,
                                            beats: seq<Beat>, rest: Outcome,
                                            n: nat, more: seq<Event>, s: Setting, a: Snap, b: Snap, c: Snap)
    requires o == Prefix(logins, out, beats, rest) && Midway(rest, p, n, more, s, b, c)
    requires b.events == a.events + StoredAll(p, logins) && b.out == a.out + out && b.script == a.script + beats
    ensures Midway(o, p, n, logins + more, s, a, c)
  {
    hide Attempts;
    StoredConcat(p, logins, more);
    Assoc(a.events, StoredAll(p, logins), StoredAll(p, more));
    var tail := Attempts(n, c.view, c.rest, |c.out|, s);
    var newer := c.out[|b.out|..];
    Assoc(logins, more, tail.events);
    Assoc(out, newer, tail.out);
    assert c.out == b.out + newer;
    Assoc(a.out, out, newer);
    assert c.out == a.out + (out + newer);
    assert c.out[|a.out|..] == out + newer;
    var later := c.script[|b.script|..];
    Assoc(beats, later, tail.beats);
    assert c.script == b.script + later;
    Assoc(a.script, beats, later);
    assert c.script == a.script + (beats + later);
    assert c.script[|a.script|..] == beats + later;
  }

  /** The first half of an attempt; beats is what it performs. */
  lemma {:induction false} AttemptCases(n: nat, p: Privacy, s: Setting, a: Snap) returns (beats: seq<Beat>)
    requires n > 0
    ensures var o, asked := Attempts(n, a.view, a.rest, |a.out|, s), Sent(a, s.prompt);
            var (r, l) := AfterRead(asked, s.peer, s.limit);
            if FaultAt(s.peer, |a.out|).Some?
            then o.reason == FaultAt(s.peer, |a.out|).value && Reached(o, p, a, asked)
            else match l
                 case Complete(line) =>
                   && r.events == a.events && r.out == a.out + [s.prompt] && r.script == a.script + beats
                   && o == Prefix([], [s.prompt], beats,
                                  if line == [] then Attempts(n - 1, r.view, r.rest, |r.out|, s)
                                  else AskPassword(n, line, r.view, r.rest, |r.out|, s))
                 case Closed => o.reason == ClientClosed && Reached(o, p, a, r)
                 case Aborted(why) => o.reason == why && Reached(o, p, a, r)
  {
    hide NextLine, AskPassword, StoredAll, Stored;
    NoticesStay(p);
    StoredParts(p, Notice("telnet_line_too_long"), Notice("telnet_incomplete_line"));
    StoredParts(p, Notice("telnet_incomplete_line"), Notice("telnet_incomplete_line"));
    assert a.events + [] == a.events;
    match NextLine(a.view, a.rest)
    case Line(line, g, used) =>
      var next := if line == [] then Attempts(n - 1, g, a.rest[used..], |a.out| + 1, s)
                  else AskPassword(n, line, g, a.rest[used..], |a.out| + 1, s);
      var quiet: seq<seq<byte>> := [];
      assert [s.prompt] + (quiet + next.out) == [s.prompt] + next.out;
      beats := [Pause] + [Hear(used)];
      Assoc([Pause], [Hear(used)], next.beats);
      Assoc(a.script, [Pause], [Hear(used)]);
    case _ =>
      beats := [];
      FewNotes();
      if FaultAt(s.peer, |a.out|).None? {
        LastScripts(n, s, a);
      }
      assert [Notice("telnet_line_too_long")] + [] == [Notice("telnet_line_too_long")];
      assert [Notice("telnet_incomplete_line")] + [] == [Notice("telnet_incomplete_line")];
      var quiet: seq<seq<byte>> := [];
      assert [s.prompt] + quiet == [s.prompt];
  }

  lemma {:induction false} LastScripts(n: nat, s: Setting, a: Snap)
    requires n > 0 && FaultAt(s.peer, |a.out|).None? && !NextLine(a.view, a.rest).Line?
    ensures AfterRead(Sent(a, s.prompt), s.peer, s.limit).0.script
            == a.script + Attempts(n, a.view, a.rest, |a.out|, s).beats
  {
    hide NextLine, AskPassword;
    FewNotes();
    match NextLine(a.view, a.rest)
    case Overlong(_, used) =>
      assert a.script + [Pause] + [Hear(used)] + [Note] == a.script + ([Pause] + ([Hear(used)] + [Note]));
    case Hungry(_) =>
      var ending := [Hear(|a.rest|)] + Ending(s.peer, s.limit);
      assert ending + [] == ending;
      Endings(a.script, |a.rest|, Ending(s.peer, s.limit));
  }

  /** One attempt of the dialogue. */
  method Attempt(reader: LineReader, io: SessionIo, state: SessionState, prompt: Text, ghost n: nat, ghost s: Setting)
    returns (done: Option<CloseReason>, ghost logins: seq<Event>)
    requires reader.Ready(io, state) && n > 0 && s == Setting(io.peer, state.inputLimit, prompt)
    requires |state.events| <= 8 && !state.eventsTruncated
    modifies reader, reader.decoder, io, state
    ensures reader.Ready(io, state) && !state.eventsTruncated && |logins| <= 1
    ensures var a, b := old(Now(reader, io, state)), Now(reader, io, state);
            var o := Attempts(n, a.view, a.rest, |a.out|, s);
            if done.Some? then done.value == o.reason && Reached(o, state.privacy, a, b)
            else Midway(o, state.privacy, n - 1, logins, s, a, b)
  {
    hide NextLine, Attempts, AskPassword, StoredAll, Reached, Midway, LineReader.Ready, Sent, AfterRead;
    ghost var a, p := Now(reader, io, state), state.privacy;
    ghost var o := Attempts(n, a.view, a.rest, |a.out|, s);
    ghost var beats := AttemptCases(n, p, s, a);
    logins := [];
    done := WriteText(reader, io, state, prompt);
    if done.Some? {
      return;
    }
    var r := NextInput(reader, io, state);
    match r {
      case Closed => return Some(ClientClosed), [];
      case Aborted(reason) => return Some(reason), [];
      case Complete(username) =>
        ghost var b := Now(reader, io, state);
        PlusNothing(p, a.events);
        EmptyNames(username);
        if Utf8.Lossy(username) == [] {
          EmptyAttempt(o, p, n - 1, beats, s, a, b);
          return None, [];
        }
        done, logins := EnterPassword(reader, io, state, username, n, s);
        ghost var rest := AskPassword(n, username, b.view, b.rest, |b.out|, s);
        if done.Some? {
          PrefixThenReached(o, p, [], [prompt], beats, rest, a, b, Now(reader, io, state));
        } else {
          PrefixThenMidway(o, p, [], [prompt], beats, rest, n - 1, logins, s, a, b, Now(reader, io, state));
          assert [] + logins == logins;
        }
    }
  }

  lemma {:induction false} EmptyNames(username: seq<byte>)
    ensures Utf8.Lossy(username) == [] <==> username == []
  {
  }

  lemma {:induction false} PlusNothing(p: Privacy, events: seq<Event>)
    ensures events + StoredAll(p, []) == events
  {
  }

  lemma {:induction false} EmptyAttempt(o: Outcome, p: Privacy, n: nat, beats: seq<Beat>, s: Setting, a: Snap, b: Snap)
    requires b.events == a.events && b.out == a.out + [s.prompt] && b.script == a.script + beats
    requires o == Prefix([], [s.prompt], beats, Attempts(n, b.view, b.rest, |b.out|, s))
    ensures Midway(o, p, n, [], s, a, b)
  {
    PlusNothing(p, a.events);
    assert b.out[|a.out|..] == [s.prompt] && b.script[|a.script|..] == beats;
  }

  /** The attempt loop and the goodbye. */
  method Dialogue(reader: LineReader, io: SessionIo, state: SessionState, prompt: Text,
                  ghost s: Setting) returns (reason: CloseReason)
    requires reader.Ready(io, state) && s == Setting(io.peer, state.inputLimit, prompt)
    requires state.events == [] && !state.eventsTruncated
    modifies reader, reader.decoder, io, state
    ensures reader.Ready(io, state) && !state.eventsTruncated
    ensures var a, b := old(Now(reader, io, state)), Now(reader, io, state);
            var o := Attempts(MAX_ATTEMPTS, a.view, a.rest, |a.out|, s);
            reason == o.reason && Reached(o, state.privacy, a, b)
  {
    hide NextLine, Visible, Attempts, StoredAll, Stored, Midway, Reached, LineReader.Ready, Ascii, Sent, AfterRead;
    ghost var a, p := Now(reader, io, state), state.privacy;
    ghost var o := Attempts(MAX_ATTEMPTS, a.view, a.rest, |a.out|, s);
    ghost var logins: seq<Event> := [];
    MidwayAtStart(o, p, MAX_ATTEMPTS, s, a);
    for i := 0 to MAX_ATTEMPTS
      invariant reader.Ready(io, state) && !state.eventsTruncated
      invariant |logins| <= i && |state.events| == |logins|
      invariant Midway(o, p, MAX_ATTEMPTS - i, logins, s, a, Now(reader, io, state))
    {
      ghost var b := Now(reader, io, state);
      var done; ghost var more;
      done, more := Attempt(reader, io, state, prompt, MAX_ATTEMPTS - i, s);
      if done.Some? {
        MidwayThenReached(o, p, MAX_ATTEMPTS - i, logins, s, a, b, Now(reader, io, state));
        return done.value;
      }
      MidwayThenMidway(o, p, MAX_ATTEMPTS - i, logins, more, s, a, b, Now(reader, io, state));
      logins := logins + more;
    }
    ghost var b := Now(reader, io, state);
    GoodbyeCases(p, s, b);
    var fault := WriteText(reader, io, state, Ascii("Too many attempts. Disconnecting.\r\n"));
    MidwayThenReached(o, p, 0, logins, s, a, b, Now(reader, io, state));
    reason := if fault.Some? then fault.value else ServerClosed;
  }

  lemma {:induction false} MidwayThenReached(o: Outcome, p: Privacy, n: nat, logins: seq<Event>, s: Setting, a: Snap,
                                             b: Snap, c: Snap)
    requires Midway(o, p, n, logins, s, a, b) && Reached(Attempts(n, b.view, b.rest, |b.out|, s), p, b, c)
    ensures Reached(o, p, a, c) && o.reason == Attempts(n, b.view, b.rest, |b.out|, s).reason
  {
    hide Attempts;
    PrefixThenReached(o, p, logins, b.out[|a.out|..], b.script[|a.script|..], Attempts(n, b.view, b.rest, |b.out|, s),
                      a, b, c);
  }

  lemma {:induction false} MidwayThenMidway(o: Outcome, p: Privacy, n: nat, logins: seq<Event>, more: seq<Event>,
                                            s: Setting,
                                            a: Snap, b: Snap, c: Snap)
    requires n > 0 && Midway(o, p, n, logins, s, a, b)
    requires Midway(Attempts(n, b.view, b.rest, |b.out|, s), p, n - 1, more, s, b, c)
    ensures Midway(o, p, n - 1, logins + more, s, a, c)
    ensures a.events == [] ==> |c.events| == |logins + more|
  {
    hide Attempts;
    PrefixThenMidway(o, p, logins, b.out[|a.out|..], b.script[|a.script|..], Attempts(n, b.view, b.rest, |b.out|, s),
                     n - 1, more, s, a, b, c);
    StoredLength(p, logins + more);
  }

  lemma {:induction false} MidwayAtStart(o: Outcome, p: Privacy, n: nat, s: Setting, a: Snap)
    requires o == Attempts(n, a.view, a.rest, |a.out|, s)
    ensures Midway(o, p, n, [], s, a, a)
  {
    PlusNothing(p, a.events);
    assert a.out[|a.out|..] == [] && [] + o.out == o.out && [] + o.events == o.events;
    assert a.script[|a.script|..] == [] && [] + o.beats == o.beats;
  }

  lemma {:induction false} StoredLength(p: Privacy, events: seq<Event>)
    ensures |StoredAll(p, events)| == |events|
  {
  }

  lemma {:induction false} GoodbyeCases(p: Privacy, s: Setting, a: Snap)
    ensures var o, bye := Attempts(0, a.view, a.rest, |a.out|, s), Ascii("Too many attempts. Disconnecting.\r\n");
            && Reached(o, p, a, Sent(a, bye))
            && o.reason == if FaultAt(s.peer, |a.out|).Some? then FaultAt(s.peer, |a.out|).value else ServerClosed
  {
    hide Ascii;
    PlusNothing(p, a.events);
    FewNotes();
    assert [Pause] + [] == [Pause];
  }

  /** telnet::handle. Its result is a function of the peer alone, whatever the read sizes. */
  method HandleTelnet(io: SessionIo, state: SessionState, banner: Option<Text>,
                      prompt: Text) returns (reason: CloseReason)
    requires Fresh(io, state)
    modifies io, state
    ensures Finished(io, state, READS, reason, TelnetRun(banner, Setting(io.peer, state.inputLimit, prompt)))
  {
    hide Attempts, StoredAll, Visible, BannerText, Trail, Play, Heard, Spots, SessionIo.OnScript;
    ghost var s, p := Setting(io.peer, state.inputLimit, prompt), state.privacy;
    PlusNothing(p, []);
    FewNotes();
    FreshIsSynced(io, state);
    var fault := SendBanner(io, state, banner);
    if fault.Some? {
      assert [Pause] + [] == [Pause];
      return fault.value;
    }
    reason := Converse(io, state, prompt, banner, s);
  }

  method SendBanner(io: SessionIo, state: SessionState, banner: Option<Text>) returns (fault: Option<CloseReason>)
    requires io.Synced(state) && io.OnScript(state, READS)
    modifies io`out, io`awaits, io`script
    ensures io.Synced(state) && io.OnScript(state, READS)
    ensures banner.None? ==> io.out == old(io.out) && io.script == old(io.script) && fault == None
    ensures banner.Some? ==>
              && io.out == old(io.out) + [BannerText(banner.value)] && io.script == old(io.script) + [Pause]
              && fault == FaultAt(io.peer, |old(io.out)|)
  {
    hide Trail, Play, Heard, Spots;
    fault := None;
    if banner.Some? {
      var text := if banner.value != [] && banner.value[|banner.value| - 1] == LF then banner.value
                  else banner.value + [CR, LF];
      fault := io.Write(state, text);
    }
  }

  /** The dialogue after the banner, with a reader of its own. */
  method Converse(io: SessionIo, state: SessionState, prompt: Text, ghost banner: Option<Text>, ghost s: Setting)
    returns (reason: CloseReason)
    requires io.Synced(state) && io.OnScript(state, READS) && state.New() && io.taken == io.chunks == 0
    requires s == Setting(io.peer, state.inputLimit, prompt)
    requires io.out == (if banner.Some? then [BannerText(banner.value)] else [])
    requires io.script == if banner.Some? then [Pause] else []
    requires banner.Some? ==> FaultAt(s.peer, 0).None?
    modifies io, state
    ensures Finished(io, state, READS, reason, TelnetRun(banner, s))
  {
    hide NextLine, Attempts, StoredAll, Reached, Visible, BannerText, TelnetRun, Trail, Play, Heard, Spots,
         SessionIo.OnScript;
    var reader := new LineReader();
    ghost var a := Start(reader, io, state);
    hide LineReader.Ready, SessionState.New;
    reason := Dialogue(reader, io, state, prompt, s);
    FromStart(banner, state.privacy, s, a, Now(reader, io, state));
    ReadyIsOnScript(reader, io, state);
  }

  lemma {:induction false} ReadyIsOnScript(reader: LineReader, io: SessionIo, state: SessionState)
    requires reader.Ready(io, state)
    ensures io.Synced(state) && io.OnScript(state, READS)
  {
    hide Trail, Play, Heard, Spots;
  }

  /** The snapshot a dialogue starts from. */
  ghost method Start(reader: LineReader, io: SessionIo, state: SessionState) returns (a: Snap)
    requires io.Synced(state) && io.OnScript(state, READS) && state.New() && io.taken == io.chunks == 0
    requires io.script == [] || io.script == [Pause]
    requires reader.pending == [] && reader.View() == START
    ensures reader.Ready(io, state) && a == Now(reader, io, state)
    ensures a == Snap([], io.out, io.script, START, Visible(io.peer, state.inputLimit))
  {
    hide Trail, Play, Heard, Spots;
    HeardBasics(0, 0);
    assert reader.Rest(io, state) == Visible(io.peer, state.inputLimit);
    a := Now(reader, io, state);
  }

  lemma {:induction false} FromStart(banner: Option<Text>, p: Privacy, s: Setting, a: Snap, b: Snap)
    requires a == Snap([], if banner.Some? then [BannerText(banner.value)] else [], if banner.Some? then [Pause]
                       else [], START,
                       Visible(s.peer, s.limit))
    requires banner.Some? ==> FaultAt(s.peer, 0).None?
    requires Reached(Attempts(MAX_ATTEMPTS, a.view, a.rest, |a.out|, s), p, a, b)
    ensures var o := TelnetRun(banner, s);
            && b.events == StoredAll(p, o.events) && b.out == o.out && b.script == o.beats
            && o.reason == Attempts(MAX_ATTEMPTS, a.view, a.rest, |a.out|, s).reason
  {
    hide Attempts, Visible, StoredAll, BannerText;
    var o := Attempts(MAX_ATTEMPTS, a.view, a.rest, |a.out|, s);
    assert [] + StoredAll(p, o.events) == StoredAll(p, o.events) && [] + o.out == o.out && [] + o.beats == o.beats;
  }
}
