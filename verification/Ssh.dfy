/** SSH identification, RFC 4253 section 4.2, without key exchange (src/protocols/ssh.rs). */
module Ssh {
  import opened Bytes
  import opened Session

  const MAX_IDENTIFICATION: nat := 255

  predicate StartsWith(line: Text, prefix: Text) {
    |prefix| <= |line| && line[..|prefix|] == prefix
  }

  /** What follows the version prefix. */
  function Software(line: Text): Option<Text> {
    if StartsWith(line, Ascii("SSH-2.0-")) then Some(line[8..])
    else if StartsWith(line, Ascii("SSH-1.99-")) then Some(line[9..])
    else None
  }

  predicate AllPrintable(line: Text) {
    forall i | 0 <= i < |line| :: Printable(line[i])
  }

  predicate ValidIdentification(line: Text) {
    var software := Software(line);
    software.Some? && software.value != [] && software.value[0] != SP && AllPrintable(line)
  }

  /** An identification line as RFC 4253 lays it out: version, software, optional comments. */
  ghost predicate IdentificationLine(line: Text, version: string, software: Text, comments: Option<Text>) {
    && version in {"2.0", "1.99"}
    && software != [] && SP !in software && AllPrintable(software)
    && (comments.Some? ==> AllPrintable(comments.value))
    && line == Ascii("SSH-" + version + "-") + software + if comments.Some? then [SP] + comments.value else []
  }

  lemma {:induction false} PrintableAscii(text: string)
    requires forall i | 0 <= i < |text| :: ' ' <= text[i] <= '~'
    ensures AllPrintable(Ascii(text))
  {
  }

  lemma Prefixes()
    ensures Ascii("SSH-" + "2.0" + "-") == Ascii("SSH-2.0-") && |Ascii("SSH-2.0-")| == 8
            && AllPrintable(Ascii("SSH-2.0-"))
    ensures Ascii("SSH-" + "1.99" + "-") == Ascii("SSH-1.99-") && |Ascii("SSH-1.99-")| == 9
            && AllPrintable(Ascii("SSH-1.99-"))
    ensures Ascii("SSH-2.0-")[4] != Ascii("SSH-1.99-")[4]
  {
    hide AllPrintable;
    PrintableAscii("SSH-2.0-");
    PrintableAscii("SSH-1.99-");
    assert "SSH-" + "2.0" + "-" == "SSH-2.0-" && "SSH-" + "1.99" + "-" == "SSH-1.99-";
  }

  /** The accepted lines are exactly those of the grammar. */
  lemma {:induction false} ValidIsTheGrammar(line: Text)
    ensures ValidIdentification(line) <==> exists version, software, comments ::
            IdentificationLine(line, version, software, comments)
  {
    hide ValidIdentification, IdentificationLine;
    if ValidIdentification(line) {
      var version, software, comments := ParseIdentification(line);
    }
    if version, software, comments :| IdentificationLine(line, version, software, comments) {
      GrammarIsValid(line, version, software, comments);
    }
  }

  lemma {:induction false} ParseIdentification(line: Text)
    returns (version: string, software: Text, comments: Option<Text>)
    requires ValidIdentification(line)
    ensures IdentificationLine(line, version, software, comments)
  {
    hide Ascii;
    Prefixes();
    hide AllPrintable;
    version := if StartsWith(line, Ascii("SSH-2.0-")) then "2.0" else "1.99";
    var head, rest := Ascii("SSH-" + version + "-"), Software(line).value;
    assert line == head + rest;
    PrintableRest(head, rest);
    software, comments := CutAtSpace(rest);
    var more := if comments.Some? then [SP] + comments.value else [];
    assert head + (software + more) == head + software + more;
  }

  lemma {:induction false} PrintableRest(head: Text, rest: Text)
    requires AllPrintable(head + rest)
    ensures AllPrintable(rest)
  {
    assert forall i | 0 <= i < |rest| :: rest[i] == (head + rest)[|head| + i];
  }

  lemma {:induction false} CutAtSpace(rest: Text) returns (software: Text, comments: Option<Text>)
    requires AllPrintable(rest) && rest != [] && rest[0] != SP
    ensures software != [] && SP !in software && AllPrintable(software)
    ensures comments.Some? ==> AllPrintable(comments.value)
    ensures rest == software + if comments.Some? then [SP] + comments.value else []
  {
    var k := IndexOf(SP, rest);
    software, comments := rest[..k], if k < |rest| then Some(rest[k + 1..]) else None;
  }

  lemma {:induction false} GrammarIsValid(line: Text, version: string, software: Text, comments: Option<Text>)
    requires IdentificationLine(line, version, software, comments)
    ensures ValidIdentification(line)
  {
    hide Ascii;
    Prefixes();
    var head, more := Ascii("SSH-" + version + "-"), if comments.Some? then [SP] + comments.value else [];
    var rest := software + more;
    assert line == head + rest;
    assert AllPrintable(head) && AllPrintable(more) && AllPrintable(rest) && AllPrintable(line);
    assert line[..|head|] == head && line[|head|..] == rest;
    assert version == "1.99" ==> line[4] == head[4] && line[..8][4] == line[4];
    assert rest[0] == software[0] && software[0] in software;
  }

  /** A line without its LF and one CR before it. */
  function WithoutEnding(line: Text): Text {
    var body := if line != [] && line[|line| - 1] == LF then line[..|line| - 1] else line;
    if body != [] && body[|body| - 1] == CR then body[..|body| - 1] else body
  }

  // ---------- The run as a function of the stream ----------

  datatype Verdict = Unread | Banner(line: Text, used: nat) | Refused(msg: string, used: nat)

  /** What the first line comes to. */
  function FirstLine(v: seq<byte>): (verdict: Verdict)
    ensures !verdict.Unread? ==> 0 < verdict.used <= |v|
  {
    var k := IndexOf(LF, v);
    if k < |v| && k < MAX_IDENTIFICATION then
      var line := WithoutEnding(v[..k + 1]);
      if ValidIdentification(line) then Banner(line, k + 1) else Refused("ssh_invalid_identification", k + 1)
    else if |v| >= MAX_IDENTIFICATION then Refused("ssh_identification_too_long", MAX_IDENTIFICATION)
    else Unread
  }

  function Greeting(banner: Option<Text>): Text {
    (if banner.Some? then banner.value else Ascii("SSH-2.0-OpenSSH_9.6")) + [CR, LF]
  }

  function SshRun(banner: Option<Text>, p: Peer, limit: nat): Outcome {
    var v := Visible(p, limit);
    var out := [Greeting(banner)];
    if FaultAt(p, 0).Some? then Outcome([], FaultAt(p, 0).value, out, [Pause])
    else match FirstLine(v)
         case Banner(line, used) =>
           Outcome([SshClientBanner(line)], Exhausted(p, limit), out,
                   [Pause] + [Hear(used), Note] + [Hear(|v| - used)] + Ending(p, limit))
         case Refused(msg, used) => Outcome([Notice(msg)], ProtocolError, out, [Pause] + [Hear(used), Note])
         case Unread =>
           var cut := ClosedByClient(p, limit) && v != [];
           Outcome(if cut then [Notice("ssh_incomplete_identification")] else [], Exhausted(p, limit), out,
                   [Pause] + [Hear(|v|)] + Ending(p, limit) + if cut then [Note] else [])
  }

  /** A stream starts with a line of the grammar, ended by LF or CR LF within the first 255 bytes. */
  ghost predicate Identifies(v: seq<byte>, line: Text) {
    && (exists version, software, comments :: IdentificationLine(line, version, software, comments))
    && ((line + [LF] <= v && |line| + 1 <= 255) || (line + [CR, LF] <= v && |line| + 2 <= 255))
  }

  lemma {:induction false} GrammarIsOneLine(line: Text)
    requires ValidIdentification(line)
    ensures CR !in line && LF !in line && line != []
  {
    hide Ascii;
    Prefixes();
    assert forall b | b in line :: Printable(b);
  }

  lemma {:induction false} EndsInLf(line: Text, v: seq<byte>)
    requires LF !in line && line + [LF] <= v
    ensures IndexOf(LF, v) == |line| && v[..|line| + 1] == line + [LF]
  {
    assert v[|line|] == (line + [LF])[|line|] && v[..|line|] == line;
    NotBefore(line, v);
    AtMost(v, |line|);
  }

  /** The first line is recorded exactly when it identifies the client, its line end taken off. */
  lemma {:induction false} FirstLineIdentifies(v: seq<byte>, line: Text)
    ensures FirstLine(v).Banner? && FirstLine(v).line == line <==> Identifies(v, line)
  {
    hide ValidIdentification, IdentificationLine;
    ValidIsTheGrammar(line);
    if Identifies(v, line) {
      GrammarIsOneLine(line);
      if line + [LF] <= v && |line| + 1 <= 255 {
        EndsInLf(line, v);
      } else {
        assert line + [CR, LF] == (line + [CR]) + [LF];
        EndsInLf(line + [CR], v);
      }
    }
    if FirstLine(v).Banner? && FirstLine(v).line == line {
      var first := v[..IndexOf(LF, v) + 1];
      var body := first[..|first| - 1];
      assert first == body + [LF];
      assert body == line || body == line + [CR];
      assert line + [CR, LF] == (line + [CR]) + [LF];
    }
  }

  lemma {:induction false} BannerIsFirstLine(banner: Option<Text>, p: Peer, limit: nat, line: Text)
    requires FaultAt(p, 0).None? && SshRun(banner, p, limit).reason in {ClientClosed, ProtocolError}
    ensures var o, k := SshRun(banner, p, limit), IndexOf(LF, p.stream);
            (SshClientBanner(line) in o.events <==>
              k < |p.stream| && k < MAX_IDENTIFICATION && line == WithoutEnding(p.stream[..k + 1])
              && ValidIdentification(line))
            && |o.events| <= 1
  {
    hide ValidIdentification, Ascii, WithoutEnding, Greeting;
    var v := Visible(p, limit);
    IndexInPrefix(p.stream, Min(|p.stream|, limit));
    var k := IndexOf(LF, p.stream);
    if k < |v| {
      assert v[..k + 1] == p.stream[..k + 1];
    }
    if ClosedByClient(p, limit) {
      assert v == p.stream;
    }
  }

  /** In every run that ends with the client closing or with a protocol error, the banner is recorded exactly
      when the stream starts with it and its line end in at most 255 bytes; nothing else is then recorded. */
  lemma {:induction false} BannerExactly(banner: Option<Text>, p: Peer, limit: nat, line: Text)
    requires FaultAt(p, 0).None? && SshRun(banner, p, limit).reason in {ClientClosed, ProtocolError}
    ensures SshClientBanner(line) in SshRun(banner, p, limit).events <==> Identifies(p.stream, line)
    ensures |SshRun(banner, p, limit).events| <= 1
  {
    hide SshRun, Identifies, ValidIdentification, WithoutEnding;
    BannerIsFirstLine(banner, p, limit, line);
    FirstLineIdentifies(p.stream, line);
  }

  /** Every session in full: the greeting; then the identification and everything up to the end of the input;
      or a protocol error because the line is not of the grammar or has not ended within 255 bytes; or the
      end of the input before any of that, with a notice if the client closed inside the line. */
  lemma {:induction false} SshInFull(banner: Option<Text>, p: Peer, limit: nat)
    ensures var o, v := SshRun(banner, p, limit), Visible(p, limit);
            && o.out == [(if banner.Some? then banner.value else Ascii("SSH-2.0-OpenSSH_9.6")) + [CR, LF]]
            && (forall reason :: Fails(p, 0, reason) ==> o.events == [] && o.reason == reason)
            && (WritesWork(p, 1) ==>
                  && (forall line :: Identifies(v, line) <==> SshClientBanner(line) in o.events)
                  && (forall line :: Identifies(v, line) ==>
                        o.events == [SshClientBanner(line)] && RanOut(p, limit, o.reason))
                  && ((forall line :: !Identifies(v, line)) ==>
                        if LF in v[..Min(|v|, 255)] then
                          o.events == [Notice("ssh_invalid_identification")] && o.reason == ProtocolError
                        else if |v| >= 255 then
                          o.events == [Notice("ssh_identification_too_long")] && o.reason == ProtocolError
                        else
                          && o.events == (if v != [] && |p.stream| < limit && p.end == Eof
                                          then [Notice("ssh_incomplete_identification")] else [])
                          && RanOut(p, limit, o.reason)))
  {
    hide Ascii, FirstLine, Identifies, RanOut;
    var o, v := SshRun(banner, p, limit), Visible(p, limit);
    FaultMeans(p, 0);
    ExhaustedMeans(p, limit);
    forall line ensures FirstLine(v).Banner? && FirstLine(v).line == line <==> Identifies(v, line) {
      FirstLineIdentifies(v, line);
    }
    FirstLineCases(v);
  }

  lemma {:induction false} FirstLineCases(v: seq<byte>)
    ensures var early := LF in v[..Min(|v|, 255)];
            match FirstLine(v)
            case Banner(_, _) => early
            case Refused(msg, _) =>
              msg == if early then "ssh_invalid_identification" else "ssh_identification_too_long"
            case Unread => !early && |v| < 255
    ensures FirstLine(v).Refused? && LF !in v[..Min(|v|, 255)] ==> |v| >= 255
  {
    hide ValidIdentification, WithoutEnding;
    var k, n := IndexOf(LF, v), Min(|v|, 255);
    assert k < n ==> v[..n][k] == LF;
    assert LF in v[..n] ==> k < n;
  }

  /** The first LF of a prefix is that of the whole, if it is inside. */
  lemma {:induction false} IndexInPrefix(v: seq<byte>, n: nat)
    requires n <= |v|
    ensures var k := IndexOf(LF, v);
            IndexOf(LF, v[..n]) == Min(k, n)
    decreases n
  {
    if n > 0 && v[0] != LF {
      assert v[..n][1..] == v[1..][..n - 1];
      IndexInPrefix(v[1..], n - 1);
    }
  }

  lemma {:induction false} NotBefore(line: seq<byte>, v: seq<byte>)
    requires line <= v && LF !in line
    ensures IndexOf(LF, v) >= |line|
  {
    if line != [] {
      assert v[0] == line[0] && v[1..][..|line| - 1] == line[1..];
      NotBefore(line[1..], v[1..]);
    }
  }

  lemma {:induction false} AtMost(v: seq<byte>, i: nat)
    requires i < |v| && v[i] == LF
    ensures IndexOf(LF, v) <= i
  {
    if v[0] != LF {
      AtMost(v[1..], i - 1);
    }
  }

  // ---------- The handler ----------

  /** No line yet: everything read is one unfinished line of fewer than 255 bytes. */
  ghost predicate Reading(line: seq<byte>, v: seq<byte>) {
    line <= v && LF !in line && |line| < MAX_IDENTIFICATION
  }

  lemma {:induction false} LineFound(line: seq<byte>, v: seq<byte>)
    requires Reading(line, v) && |line| < |v|
    ensures v[|line|] == LF ==>
              FirstLine(v) == if ValidIdentification(WithoutEnding(line + [LF]))
                              then Banner(WithoutEnding(line + [LF]), |line| + 1)
                              else Refused("ssh_invalid_identification", |line| + 1)
    ensures v[|line|] != LF && |line| == MAX_IDENTIFICATION - 1 ==>
              FirstLine(v) == Refused("ssh_identification_too_long", MAX_IDENTIFICATION)
    ensures v[|line|] != LF && |line| < MAX_IDENTIFICATION - 1 ==> Reading(line + [v[|line|]], v)
  {
    hide ValidIdentification, WithoutEnding;
    var k := IndexOf(LF, v);
    NotBefore(line, v);
    assert v[..|line| + 1] == line + [v[|line|]];
    if v[|line|] == LF {
      AtMost(v, |line|);
    } else {
      assert k > |line|;
    }
  }

  /** Take the bytes of one read; stops after the first LF. */
  method Take(buffer: array<byte>, n: nat, line: seq<byte>, state: SessionState, ghost v: seq<byte>)
    returns (identification: seq<byte>, identified: bool, refused: bool)
    requires n <= buffer.Length && Reading(line, v)
    requires line + buffer[..n] <= v
    requires state.events == [] && !state.eventsTruncated
    modifies state`events, state`eventsTruncated
    ensures !state.eventsTruncated && |identification| <= MAX_IDENTIFICATION
    ensures !identified && !refused ==>
              identification == line + buffer[..n] && Reading(identification, v) && state.events == []
    ensures identified ==> !refused && FirstLine(v).Banner? && state.events == [SshClientBanner(FirstLine(v).line)]
    ensures refused ==> FirstLine(v).Refused? && state.events == [Notice(FirstLine(v).msg)]
    ensures identified || refused ==> |line| < FirstLine(v).used <= |line| + n
  {
    hide ValidIdentification, FirstLine, WithoutEnding;
    identification, identified, refused := line, false, false;
    for i := 0 to n
      invariant identification == line + buffer[..i] && Reading(identification, v)
      invariant state.events == [] && !state.eventsTruncated
    {
      var b := buffer[i];
      assert line + buffer[..n] == identification + buffer[i..n];
      assert b == v[|identification|];
      LineFound(identification, v);
      assert buffer[..i + 1] == buffer[..i] + [b];
      identification := identification + [b];
      if b == LF {
        var body := WithoutEnding(identification);
        if !ValidIdentification(body) {
          state.PushEvent(Notice("ssh_invalid_identification"));
          return identification, false, true;
        }
        state.PushEvent(SshClientBanner(body));
        return identification, true, false;
      }
      if |identification| >= MAX_IDENTIFICATION {
        state.PushEvent(Notice("ssh_identification_too_long"));
        return identification, false, true;
      }
    }
  }

  /** Between reads: what the session knows so far. */
  ghost predicate Listening(io: SessionIo, state: SessionState, identification: seq<byte>, identified: bool)
    reads io, state
  {
    var v := Visible(io.peer, state.inputLimit);
    && io.Synced(state) && !state.eventsTruncated && io.ReadingOn(state, Buffer(4096), io.taken)
    && if identified
       then FirstLine(v).Banner? && state.events == [SshClientBanner(FirstLine(v).line)]
            && io.script == [Pause] + [Hear(FirstLine(v).used), Note] && Heard(io.script) == FirstLine(v).used
       else identification == v[..io.taken] && Reading(identification, v) && state.events == []
            && io.script == [Pause] && Heard(io.script) == 0
  }

  /** The stream has ended, or stalled, or the budget is spent. */
  method EndOfInput(io: SessionIo, state: SessionState, identification: seq<byte>, identified: bool, eof: bool,
                    ghost banner: Option<Text>)
    requires io.Synced(state) && !state.eventsTruncated && io.OnScript(state, Buffer(4096))
    requires io.out == [Greeting(banner)] && FaultAt(io.peer, 0).None?
             && eof == ClosedByClient(io.peer, state.inputLimit)
    requires var v := Visible(io.peer, state.inputLimit);
             if identified
             then FirstLine(v).Banner? && state.events == [SshClientBanner(FirstLine(v).line)]
                  && io.script == [Pause] + [Hear(FirstLine(v).used), Note] + [Hear(|v| - FirstLine(v).used)]
                                  + Ending(io.peer, state.inputLimit)
             else identification == v && Reading(v, v) && state.events == []
                  && io.script == [Pause] + [Hear(|v|)] + Ending(io.peer, state.inputLimit)
    modifies state`events, state`eventsTruncated, io`script
    ensures Finished(io, state, Buffer(4096), Exhausted(io.peer, state.inputLimit),
                     SshRun(banner, io.peer, state.inputLimit))
  {
    hide FirstLine, Ascii, SshRun, Reading, StoredAll, Trail, Play, Heard, Spots, SessionState.Valid;
    if eof && !identified && identification != [] {
      state.PushEvent(Notice("ssh_incomplete_identification"));
      io.EventsOnlyGrow(state, [], false);
      Noted(io, state, Buffer(4096), 0);
    }
    RunsOut(banner, io.peer, state.inputLimit, identified, state.events, io.script, state.privacy);
  }

  /** One read and what it leads to. */
  method Turn(io: SessionIo, state: SessionState, buffer: array<byte>, line: seq<byte>, known: bool,
              ghost banner: Option<Text>)
    returns (identification: seq<byte>, identified: bool, done: Option<CloseReason>)
    requires buffer.Length == 4096 && Listening(io, state, line, known)
    requires io.out == [Greeting(banner)] && FaultAt(io.peer, 0).None?
    modifies io`taken, io`chunks, io`awaits, io`script, state, buffer
    ensures done.None? ==> Listening(io, state, identification, identified) && io.taken > old(io.taken)
    ensures done.Some? ==> Finished(io, state, Buffer(4096), done.value, SshRun(banner, io.peer, state.inputLimit))
  {
    hide FirstLine, Ascii, SshRun, Reading, StoredAll, Trail, ReadTo, Play, Heard, Spots, SessionState.Valid,
         Finished;
    ghost var v, taken := Visible(io.peer, state.inputLimit), io.taken;
    identification, identified, done := line, known, None;
    var read := ReadOn(io, state, buffer, Buffer(4096));
    if !read.Data? {
      assert v[..|v|] == v;
      EndOfInput(io, state, line, known, read == End, banner);
      done := Some(if read == End then ClientClosed else read.reason);
    } else if known {
      NeedGrows(io, state, Buffer(4096), taken + 1, io.taken);
    } else {
      assert line + io.peer.stream[old(io.taken)..io.taken] == v[..io.taken];
      var refused;
      ghost var events := state.events;
      NeedGrows(io, state, Buffer(4096), taken + 1, io.taken);
      identification, identified, refused := Take(buffer, read.n, line, state, v);
      io.EventsOnlyGrow(state, events, false);
      if identified || refused {
        ProcessAndNote(io, state, Buffer(4096), taken + 1, FirstLine(v).used, 0);
      }
      if refused {
        Refusal(io, state, banner);
        done := Some(ProtocolError);
      } else if identified {
        StartReading(io, state, Buffer(4096), io.taken);
      }
    }
  }

  /** ssh::handle. */
  method HandleSsh(io: SessionIo, state: SessionState, banner: Option<Text>) returns (reason: CloseReason)
    requires Fresh(io, state)
    modifies io, state
    ensures Finished(io, state, Buffer(4096), reason, SshRun(banner, io.peer, state.inputLimit))
  {
    hide ReadTo, Play, Heard, Spots, FirstLine, Ascii, StoredAll, Trail, SessionIo.OnScript, SessionIo.ReadingOn;
    FreshIsSynced(io, state);
    NothingStored(state.privacy);
    var fault := io.Write(state, Greeting(banner));
    assert io.script == [Pause];
    if fault.Some? {
      return fault.value;
    }
    hide SshRun, Finished, Greeting;
    HeardBasics(0, 0);
    StartReading(io, state, Buffer(4096), 0);
    var buffer := new byte[4096];
    var identification, identified := [], false;
    while true
      invariant fresh(buffer) && buffer.Length == 4096 && io.out == [Greeting(banner)]
      invariant Listening(io, state, identification, identified)
      decreases |io.peer.stream| - io.taken
    {
      var done;
      identification, identified, done := Turn(io, state, buffer, identification, identified, banner);
      if done.Some? {
        return done.value;
      }
    }
  }

  lemma {:induction false} RunsOut(banner: Option<Text>, p: Peer, limit: nat, identified: bool, events: seq<Event>,
                                   script: seq<Beat>,
                                   privacy: Privacy)
    requires FaultAt(p, 0).None?
    requires var v := Visible(p, limit);
             if identified
             then FirstLine(v).Banner? && events == [SshClientBanner(FirstLine(v).line)]
                  && script == [Pause] + [Hear(FirstLine(v).used), Note] + [Hear(|v| - FirstLine(v).used)]
                      + Ending(p, limit)
             else var cut := ClosedByClient(p, limit) && v != [];
                  Reading(v, v) && events == (if cut then [Notice("ssh_incomplete_identification")] else [])
                  && script == [Pause] + [Hear(|v|)] + Ending(p, limit) + if cut then [Note] else []
    ensures SshRun(banner, p, limit) == Outcome(events, Exhausted(p, limit), [Greeting(banner)], script)
    ensures StoredAll(privacy, events) == events
  {
    hide FirstLine;
    if !identified {
      NoLine(Visible(p, limit));
    }
  }

  lemma {:induction false} NoLine(v: seq<byte>)
    requires Reading(v, v)
    ensures FirstLine(v) == Unread
  {
    NotBefore(v, v);
  }

  lemma {:induction false} Refusal(io: SessionIo, state: SessionState, banner: Option<Text>)
    requires FaultAt(io.peer, 0).None? && io.Synced(state) && !state.eventsTruncated && io.out == [Greeting(banner)]
    requires var r := FirstLine(Visible(io.peer, state.inputLimit));
             && r.Refused? && state.events == [Notice(r.msg)]
             && io.script == [Pause] + [Hear(r.used), Note] && io.OnScript(state, Buffer(4096))
    ensures Finished(io, state, Buffer(4096), ProtocolError, SshRun(banner, io.peer, state.inputLimit))
  {
    hide FirstLine;
  }
}
