/** From an accepted connection to its record, for every protocol (src/protocols/mod.rs,
    src/server.rs, src/session.rs). */
module Sessions {
  import opened Bytes
  import opened Session
  import opened TelnetCodec
  import opened TelnetDialogue
  import Telnet
  import Ssh
  import HttpParser
  import HttpPrinter
  import HttpResponse
  import Http

  datatype Protocol = RawCapture | SshProtocol | HttpProtocol | TelnetProtocol

  /** One endpoint's settings. The reason phrases are those of the HTTP status table. */
  datatype Endpoint = Endpoint(protocol: Protocol, banner: Option<Text>, loginPrompt: Option<Text>,
                               serverHeader: Option<Text>, httpStatus: Option<nat>, phrases: map<nat, Text>)

  function OrElse<T>(o: Option<T>, default: T): T {
    if o.Some? then o.value else default
  }

  function SiteOf(ep: Endpoint): HttpResponse.Site {
    HttpResponse.Site(OrElse(ep.httpStatus, 404), OrElse(ep.serverHeader, Ascii("nginx")), ep.phrases)
  }

  function SettingOf(ep: Endpoint, p: Peer, limit: nat): Setting {
    Setting(p, limit, OrElse(ep.loginPrompt, Ascii("login: ")))
  }

  /** The run of a session as a function of the peer and the input limit. */
  function RunOf(ep: Endpoint, p: Peer, limit: nat): Outcome {
    match ep.protocol
    case RawCapture => RawRun(ep.banner, p, limit)
    case SshProtocol => Ssh.SshRun(ep.banner, p, limit)
    case HttpProtocol => Http.HttpRun(SiteOf(ep), p, limit)
    case TelnetProtocol => TelnetRun(ep.banner, SettingOf(ep, p, limit))
  }

  function CapOf(protocol: Protocol): Cap {
    match protocol
    case RawCapture => Buffer(4096)
    case SshProtocol => Buffer(4096)
    case HttpProtocol => Http.READS
    case TelnetProtocol => Buffer(256)
  }

  /** protocols::handle. */
  method Handle(io: SessionIo, state: SessionState, ep: Endpoint) returns (reason: CloseReason)
    requires Fresh(io, state)
    modifies io, state
    ensures Finished(io, state, CapOf(ep.protocol), reason, RunOf(ep, io.peer, state.inputLimit))
  {
    hide Fresh, Finished, Ssh.SshRun, Http.HttpRun, TelnetRun, RawRun;
    match ep.protocol {
      case RawCapture => reason := HandleRaw(io, state, ep.banner);
      case SshProtocol => reason := Ssh.HandleSsh(io, state, ep.banner);
      case HttpProtocol => reason := Http.HandleHttp(io, state, SiteOf(ep));
      case TelnetProtocol =>
        reason := Telnet.HandleTelnet(io, state, ep.banner, OrElse(ep.loginPrompt, Ascii("login: ")));
    }
  }

  /** The limits a session runs under. */
  datatype Budget = Budget(privacy: Privacy, preview: usize, input: usize)

  function SourceOf(ep: Endpoint, l: Budget, p: Peer, sizes: seq<nat>): Source {
    Source(sizes, CapOf(ep.protocol), Min(|p.stream|, l.input))
  }

  /** How a whole session reads, waits and records. */
  function TapeOf(ep: Endpoint, l: Budget, p: Peer, sizes: seq<nat>): (t: Tape)
    ensures t.taken <= |p.stream| && t.taken <= l.input
  {
    Play(SourceOf(ep, l, p, sizes), RunOf(ep, p, l.input).beats)
  }

  /** The record of a whole session. */
  function RecordOf(ep: Endpoint, l: Budget, p: Peer, sizes: seq<nat>): Record {
    var o, taken := RunOf(ep, p, l.input), TapeOf(ep, l, p, sizes).taken;
    RecordFor(l.privacy, l.preview, p.stream[..taken], StoredAll(l.privacy, o.events), false, o.reason)
  }

  /** What may end a handler while it waits for the client, and at which of its waits. */
  datatype Interruption = Deadline(at: nat) | Cancellation(at: nat)

  function ReasonOf(cut: Interruption): CloseReason {
    if cut.Deadline? then LifetimeLimit else Shutdown
  }

  /** The first k of some events, or all if there are fewer. */
  function FirstOf(events: seq<Event>, k: nat): seq<Event> {
    events[..Min(k, |events|)]
  }

  /** The record of a session ended by its deadline or a shutdown at a wait: the bytes read and the events
      recorded by then. */
  function RecordAt(l: Budget, p: Peer, events: seq<Event>, spot: Spot, reason: CloseReason): Record {
    RecordFor(l.privacy, l.preview, p.stream[..Min(spot.taken, |p.stream|)], FirstOf(events, spot.told), false, reason)
  }

  /** The record of a session, which may be ended at one of its waits. */
  function RecordUnder(ep: Endpoint, l: Budget, p: Peer, sizes: seq<nat>, cut: Option<Interruption>): Record {
    var spots := TapeOf(ep, l, p, sizes).spots;
    if cut.None? || cut.value.at >= |spots| then RecordOf(ep, l, p, sizes)
    else RecordAt(l, p, StoredAll(l.privacy, RunOf(ep, p, l.input).events), spots[cut.value.at], ReasonOf(cut.value))
  }

  /** handle_session: the protocol runs until it ends or the deadline or a shutdown comes first, and
      leaves a record either way. */
  method HandleSession(ep: Endpoint, l: Budget, p: Peer, sizes: seq<nat>, cut: Option<Interruption>) returns (r: Record)
    ensures r == RecordUnder(ep, l, p, sizes, cut)
  {
    hide RunOf, RecordFor, StoredAll, Play, Heard, Spots, Trail, Accounted;
    var state := new SessionState(l.privacy, l.preview, l.input);
    var io := new SessionIo(p, sizes);
    NothingYet(l, p);
    var reason := Handle(io, state, ep);
    SpotsAre(io.awaits);
    if cut.Some? && cut.value.at < |io.awaits| {
      var m := io.awaits[cut.value.at];
      TrailAt(l.privacy, l.preview, p.stream, io.awaits, io.taken, state.events, m);
      r := Conclude(l.privacy, l.preview, m.bytesReceived, m.preview, m.events, m.eventsTruncated, ReasonOf(cut.value),
                    p.stream[..m.taken]);
    } else {
      r := state.Finalize(reason);
    }
  }

  lemma {:induction false} SpotsAre(awaits: seq<Moment>)
    ensures |Spots(awaits)| == |awaits|
    ensures forall i | 0 <= i < |awaits| :: Spots(awaits)[i] == Spot(awaits[i].taken, |awaits[i].events|)
  {
  }

  lemma {:induction false} NothingYet(l: Budget, p: Peer)
    ensures Trail(l.privacy, l.preview, p.stream, [], 0, [], false) && Spots([]) == []
  {
  }

  lemma {:induction false} TrailAt(p: Privacy, previewLimit: usize, stream: seq<byte>, awaits: seq<Moment>, taken: nat,
                                   events: seq<Event>, m: Moment)
    requires Trail(p, previewLimit, stream, awaits, taken, events, false) && m in awaits
    ensures m.taken <= taken <= |stream| && Accounted(p, previewLimit, stream[..m.taken], m.bytesReceived, m.preview)
    ensures m.events == FirstOf(events, |m.events|) && !m.eventsTruncated
  {
  }

  // ---------- Properties of every session ----------

  /** What every run promises about itself. */
  ghost predicate Sound(ep: Endpoint, p: Peer, limit: nat) {
    var o, n := RunOf(ep, p, limit), |Visible(p, limit)|;
    && Bounded(o, 4, n, p, limit)
    && (o.reason == ClientClosed ==> Heard(o.beats) == n)
    && (CapOf(ep.protocol).Within? ==> Heard(o.beats) <= CapOf(ep.protocol).total)
    && (o.reason != ByteLimit ==> Pause in o.beats)
  }

  lemma {:induction false} RunsAreSound(ep: Endpoint, p: Peer, limit: nat)
    ensures Sound(ep, p, limit)
  {
    hide Ascii, Heard, Ending, RawRun, TelnetRun, Ssh.SshRun, Http.HttpRun;
    match ep.protocol
    case RawCapture => RawIsSound(ep.banner, p, limit);
    case SshProtocol => SshIsSound(ep.banner, p, limit);
    case HttpProtocol =>
      Http.HttpIsBounded(SiteOf(ep), p, limit);
      HttpWaits(SiteOf(ep), p, limit);
    case TelnetProtocol => TelnetIsSound(ep.banner, SettingOf(ep, p, limit));
  }

  lemma {:induction false} RawIsSound(banner: Option<Text>, p: Peer, limit: nat)
    ensures var o, n := RawRun(banner, p, limit), |Visible(p, limit)|;
            && Bounded(o, 0, n, p, limit) && (o.reason == ClientClosed ==> Heard(o.beats) == n)
            && (o.reason != ByteLimit ==> Pause in o.beats)
  {
    hide Heard;
    var greeting := if banner.Some? then [Pause] else [];
    HeardEnding(p, limit, greeting, |Visible(p, limit)|);
    HeardBasics(0, 0);
  }

  lemma {:induction false} SshIsSound(banner: Option<Text>, p: Peer, limit: nat)
    ensures var o, n := Ssh.SshRun(banner, p, limit), |Visible(p, limit)|;
            && Bounded(o, 1, n, p, limit) && (o.reason == ClientClosed ==> Heard(o.beats) == n) && Pause in o.beats
  {
    hide Heard, Ssh.FirstLine, Ascii;
    var v := Visible(p, limit);
    var first := Ssh.FirstLine(v);
    HeardBasics(0, 0);
    if !first.Unread? {
      OpeningHears(first.used);
      HeardEnding(p, limit, [Pause] + [Hear(first.used), Note], |v| - first.used);
    }
    HeardEnding(p, limit, [Pause], |v|);
    HeardConcat([Pause] + [Hear(|v|)] + Ending(p, limit), [Note]);
    HeardConcat([Pause] + [Hear(|v|)] + Ending(p, limit), []);
  }

  lemma {:induction false} OpeningHears(used: nat)
    ensures Heard([Pause] + [Hear(used), Note]) == used
  {
    assert [Pause] + [Hear(used), Note] == [Pause] + [Hear(used)] + [Note];
    HeardConcat([Pause] + [Hear(used)], [Note]);
    HeardConcat([Pause], [Hear(used)]);
    HeardBasics(0, used);
  }

  lemma {:induction false} HttpWaits(site: HttpResponse.Site, p: Peer, limit: nat)
    ensures var o := Http.HttpRun(site, p, limit); o.reason != ByteLimit ==> Pause in o.beats
  {
    hide HttpParser.Parsed, HttpResponse.Response, Ascii;
  }

  lemma {:induction false} TelnetIsSound(banner: Option<Text>, s: Setting)
    ensures Modest(TelnetRun(banner, s), 4, |Visible(s.peer, s.limit)|, s) && Pause in TelnetRun(banner, s).beats
  {
    hide Attempts, Modest, Visible, BannerText, Send;
    var v, w := Visible(s.peer, s.limit), if banner.Some? then 1 else 0;
    var o := Attempts(MAX_ATTEMPTS, START, v, w, s);
    AttemptsAreBounded(MAX_ATTEMPTS, START, v, w, s);
    AttemptsWait(MAX_ATTEMPTS, START, v, w, s);
    if banner.Some? {
      SendIsModest(s, 0, BannerText(banner.value), [], o, 4, |v|);
      SendWaits(s, 0, BannerText(banner.value), [], o);
    }
  }

  lemma {:induction false} SendWaits(s: Setting, w: nat, bytes: Text, onFault: seq<Event>, next: Outcome)
    ensures Pause in Send(s, w, bytes, onFault, next).beats
  {
    var o := Send(s, w, bytes, onFault, next);
    assert o.beats[0] == Pause;
  }

  lemma {:induction false} AttemptsWait(n: nat, f: Framer, v: seq<byte>, w: nat, s: Setting)
    ensures Pause in Attempts(n, f, v, w, s).beats
  {
    hide NextLine, AskPassword, Ascii;
    var o := Attempts(n, f, v, w, s);
    assert o.beats[0] == Pause;
  }

  /** A script that pauses, or gets any bytes, has a wait. */
  lemma {:induction false} ScriptsWait(src: Source, script: seq<Beat>)
    ensures Pause in script || Play(src, script).taken > 0 ==> |Play(src, script).spots| > 0
  {
    hide ReadTo;
    if script != [] {
      ScriptsWait(src, Front(script));
      var t := Play(src, Front(script));
      assert Pause in script ==> Pause in Front(script) || Back(script) == Pause;
      if Back(script).Hear? {
        ReadWaits(src, t.heard + Back(script).bytes, t);
      }
    }
  }

  lemma {:induction false} ReadWaits(src: Source, need: nat, t: Tape)
    ensures var r := ReadTo(src, need, t); |r.spots| >= |t.spots| && (r.taken > t.taken ==> |r.spots| > |t.spots|)
    decreases src.n - t.taken
  {
    if !(t.taken >= need || t.taken >= src.n || CapAt(src.cap, t.taken) == 0) {
      ReadWaits(src, need, ReadOnce(src, t));
    }
  }

  lemma {:induction false} ReceivesEnough(ep: Endpoint, l: Budget, p: Peer, sizes: seq<nat>)
    ensures Heard(RunOf(ep, p, l.input).beats) <= TapeOf(ep, l, p, sizes).taken
  {
    hide RunOf, Heard, Play;
    RunsAreSound(ep, p, l.input);
    ScriptsAreMet(SourceOf(ep, l, p, sizes), RunOf(ep, p, l.input).beats);
  }

  /** With any budget at all every session waits somewhere, so a deadline or a shutdown can end it. */
  lemma {:induction false} EverySessionWaits(ep: Endpoint, l: Budget, p: Peer, sizes: seq<nat>)
    requires l.input > 0
    ensures |TapeOf(ep, l, p, sizes).spots| > 0
  {
    hide RunOf, Heard, Play;
    RunsAreSound(ep, p, l.input);
    ReceivesEnough(ep, l, p, sizes);
    ScriptsWait(SourceOf(ep, l, p, sizes), RunOf(ep, p, l.input).beats);
  }

  /** What an endpoint that configures nothing answers: 404 from nginx, and the prompt "login: ". */
  lemma {:induction false} DefaultsInFull(ep: Endpoint, p: Peer, limit: nat)
    ensures ep.protocol == HttpProtocol && ep.httpStatus == None && ep.serverHeader == None ==>
              forall r :: Http.Opens(r, p, limit) ==>
                            Http.Says(RunOf(ep, p, limit).out, HttpResponse.Site(404, Ascii("nginx"), ep.phrases), 404,
                                      r.start.method_ == Ascii("HEAD"))
    ensures ep.protocol == HttpProtocol && ep.httpStatus.Some? && ep.serverHeader.Some? ==>
              forall r :: Http.Opens(r, p, limit) ==>
                            Http.Says(RunOf(ep, p, limit).out,
                                      HttpResponse.Site(ep.httpStatus.value, ep.serverHeader.value, ep.phrases),
                                      ep.httpStatus.value, r.start.method_ == Ascii("HEAD"))
    ensures ep.protocol == TelnetProtocol && ep.banner == None ==>
              var out := RunOf(ep, p, limit).out;
              out != [] && out[0] == if ep.loginPrompt.Some? then ep.loginPrompt.value else Ascii("login: ")
  {
    hide Http.Opens, Http.Says, Http.HttpRun, Ascii;
    if ep.protocol == HttpProtocol {
      forall r | Http.Opens(r, p, limit)
        ensures Http.Says(RunOf(ep, p, limit).out, SiteOf(ep), SiteOf(ep).status, r.start.method_ == Ascii("HEAD"))
      {
        Http.AcceptedInFull(SiteOf(ep), p, limit, r);
      }
    }
  }

  /** The input budget holds and is the close reason only when it is used up; the preview is the start of
      the stream in full mode and nothing in metadata mode; truncation is reported exactly when it
      happened; and the events fit. */
  predicate Faithful(l: Budget, p: Peer, r: Record) {
    && r.bytesReceived <= l.input && r.bytesReceived <= |p.stream|
    && (r.closeReason == ByteLimit ==> r.bytesReceived == l.input)
    && r.preview == (if l.privacy.mode == Full then p.stream[..Min(l.preview, r.bytesReceived)] else [])
    && (r.payloadCaptured <==> l.privacy.mode == Full && l.preview > 0) && r.mode == l.privacy.mode
    && (r.bytesTruncated <==> r.payloadCaptured && r.bytesReceived > l.preview)
    && |r.previewAscii| == |r.preview|
    && (forall i | 0 <= i < |r.preview| ::
          r.previewAscii[i] == if 32 <= r.preview[i] <= 126 then r.preview[i] as int as char else '.')
    && |r.events| <= 4 && !r.eventsTruncated
  }

  lemma {:induction false} RecordIsFaithful(l: Budget, p: Peer, taken: nat, events: seq<Event>, reason: CloseReason)
    requires taken <= |p.stream| && taken <= l.input && |events| <= 4 && (reason == ByteLimit ==> taken == l.input)
    ensures var r := RecordFor(l.privacy, l.preview, p.stream[..taken], events, false, reason);
            Faithful(l, p, r) && r.bytesReceived == taken && r.events == events && r.closeReason == reason
  {
    assert p.stream[..taken][..Min(l.preview, taken)] == p.stream[..Min(l.preview, taken)];
  }

  lemma {:induction false} WholeIsFaithful(ep: Endpoint, l: Budget, p: Peer, sizes: seq<nat>)
    ensures var r := RecordOf(ep, l, p, sizes);
            Faithful(l, p, r) && r.bytesReceived == TapeOf(ep, l, p, sizes).taken
            && r.events == StoredAll(l.privacy, RunOf(ep, p, l.input).events)
  {
    hide RunOf, Stored, Play, Heard, RecordFor, Faithful;
    RunsAreSound(ep, p, l.input);
    ReceivesEnough(ep, l, p, sizes);
    var o := RunOf(ep, p, l.input);
    RecordIsFaithful(l, p, TapeOf(ep, l, p, sizes).taken, StoredAll(l.privacy, o.events), o.reason);
  }

  /** What has been read at a wait, and what has been recorded, is never more than at the end. */
  lemma {:induction false} SpotsAreWithin(src: Source, script: seq<Beat>)
    ensures forall s | s in Play(src, script).spots :: s.taken <= Play(src, script).taken
  {
    hide ReadTo;
    if script != [] {
      SpotsAreWithin(src, Front(script));
      var t := Play(src, Front(script));
      if Back(script).Hear? {
        ReadStaysWithin(src, t.heard + Back(script).bytes, t);
      }
    }
  }

  lemma {:induction false} ReadStaysWithin(src: Source, need: nat, t: Tape)
    requires forall s | s in t.spots :: s.taken <= t.taken
    ensures var r := ReadTo(src, need, t); forall s | s in r.spots :: s.taken <= r.taken
    decreases src.n - t.taken
  {
    if !(t.taken >= need || t.taken >= src.n || CapAt(src.cap, t.taken) == 0) {
      ReadStaysWithin(src, need, ReadOnce(src, t));
    }
  }

  /** Every session of every protocol, whatever the stream, its ending, the read schedule, and whether and
      at which wait a deadline or a shutdown ends it. A session ended so says why, and has some of the
      bytes and the first of the events of the whole one. */
  lemma {:induction false} RecordsAreFaithful(ep: Endpoint, l: Budget, p: Peer, sizes: seq<nat>,
                                              cut: Option<Interruption>)
    ensures var r, whole := RecordUnder(ep, l, p, sizes, cut), RecordOf(ep, l, p, sizes);
            && Faithful(l, p, r) && r.bytesReceived <= whole.bytesReceived && r.events <= whole.events
            && (cut.None? ==> r == whole)
            && (cut.Some? && cut.value.at < |TapeOf(ep, l, p, sizes).spots| ==>
                  r.closeReason == if cut.value.Deadline? then LifetimeLimit else Shutdown)
  {
    hide RecordOf, RecordFor, RunOf, Play, StoredAll;
    var tape, events := TapeOf(ep, l, p, sizes), StoredAll(l.privacy, RunOf(ep, p, l.input).events);
    WholeIsFaithful(ep, l, p, sizes);
    if cut.Some? && cut.value.at < |tape.spots| {
      var spot := tape.spots[cut.value.at];
      SpotsAreWithin(SourceOf(ep, l, p, sizes), RunOf(ep, p, l.input).beats);
      assert spot in tape.spots;
      RecordIsFaithful(l, p, spot.taken, FirstOf(events, spot.told), ReasonOf(cut.value));
    }
  }

  /** The events a script records. */
  function Told(script: seq<Beat>): nat {
    if script == [] then 0 else Told(Front(script)) + if Back(script).Note? then 1 else 0
  }

  lemma {:induction false} PlayTells(src: Source, script: seq<Beat>)
    ensures Play(src, script).told == Min(Told(script), MAX_EVENTS)
  {
    hide ReadTo;
    if script != [] {
      var t := Play(src, Front(script));
      PlayTells(src, Front(script));
      if Back(script).Hear? {
        ReadToBasics(src, t.heard + Back(script).bytes, t);
      }
    }
  }

  /** Which beat of the script a wait belongs to, and what had been read and recorded there. */
  lemma {:induction false} WaitInScript(src: Source, script: seq<Beat>, at: nat) returns (before: seq<Beat>)
    requires at < |Play(src, script).spots|
    ensures |before| < |script| && before == script[..|before|]
    ensures var s, a, b := Play(src, script).spots[at], Play(src, before), Play(src, script[..|before| + 1]);
            && |a.spots| <= at < |b.spots| && s == b.spots[at] && s.told == Min(Told(before), MAX_EVENTS)
            && a.taken <= s.taken <= b.taken && (script[|before|].Pause? ==> s.taken == a.taken)
  {
    hide ReadTo;
    var front, t := Front(script), Play(src, Front(script));
    if at < |t.spots| {
      before := WaitInScript(src, front, at);
      assert front[..|before|] == script[..|before|] && front[..|before| + 1] == script[..|before| + 1];
      SpotsStay(src, script, at);
    } else {
      before := front;
      assert script[..|before| + 1] == script && script[|before|] == Back(script);
      PlayTells(src, front);
      if Back(script).Hear? {
        WaitsInRead(src, t.heard + Back(script).bytes, t);
      }
    }
  }

  lemma {:induction false} SpotsStay(src: Source, script: seq<Beat>, at: nat)
    requires script != [] && at < |Play(src, Front(script)).spots|
    ensures |Play(src, Front(script)).spots| <= |Play(src, script).spots|
    ensures Play(src, script).spots[at] == Play(src, Front(script)).spots[at]
  {
    hide ReadTo;
    var t := Play(src, Front(script));
    if Back(script).Hear? {
      WaitsInRead(src, t.heard + Back(script).bytes, t);
    }
  }

  /** The waits of one read loop come after those before, and see no event recorded since. */
  lemma {:induction false} WaitsInRead(src: Source, need: nat, t: Tape)
    ensures var r := ReadTo(src, need, t);
            && |t.spots| <= |r.spots| && t.spots == r.spots[..|t.spots|] && t.taken <= r.taken
            && forall i | |t.spots| <= i < |r.spots| ::
                 r.spots[i].told == t.told && t.taken <= r.spots[i].taken <= r.taken
    decreases src.n - t.taken
  {
    if !(t.taken >= need || t.taken >= src.n || CapAt(src.cap, t.taken) == 0) {
      WaitsInRead(src, need, ReadOnce(src, t));
    }
  }

  /** A session ended at a wait leaves the events recorded before the beat of the script it waited in, no more and no
      fewer, and the bytes read by then. */
  lemma {:induction false} CutInFull(ep: Endpoint, l: Budget, p: Peer, sizes: seq<nat>, cut: Interruption)
    returns (before: seq<Beat>)
    requires cut.at < |TapeOf(ep, l, p, sizes).spots|
    ensures var script, src := RunOf(ep, p, l.input).beats, SourceOf(ep, l, p, sizes);
            var r, told := RecordUnder(ep, l, p, sizes, Some(cut)), RunOf(ep, p, l.input).events;
            && |before| < |script| && before == script[..|before|]
            && var a, b := Play(src, before), Play(src, script[..|before| + 1]);
               && |a.spots| <= cut.at < |b.spots|
               && |r.events| == Min(Told(before), |told|)
               && a.taken <= r.bytesReceived <= b.taken && (script[|before|].Pause? ==> r.bytesReceived == a.taken)
  {
    hide RunOf, Stored, Play, Faithful, AsciiPreview;
    var script, src := RunOf(ep, p, l.input).beats, SourceOf(ep, l, p, sizes);
    before := WaitInScript(src, script, cut.at);
    RunsAreSound(ep, p, l.input);
    SpotsAreWithin(src, script);
    assert Play(src, script).spots[cut.at] in Play(src, script).spots;
  }

  /** Every event of every record, whole or cut short, is what the redaction rules leave of the event at the
      same place of the run, and a whole record has one for each. */
  lemma {:induction false} EveryEventIsRedacted(ep: Endpoint, l: Budget, p: Peer, sizes: seq<nat>,
                                                cut: Option<Interruption>)
    ensures var r, told := RecordUnder(ep, l, p, sizes, cut), RunOf(ep, p, l.input).events;
            && |r.events| <= |told| && (cut.None? ==> |r.events| == |told|)
            && forall i | 0 <= i < |r.events| :: Redacts(l.privacy, told[i], r.events[i])
  {
    hide RecordOf, RecordUnder, RunOf, Stored, Redacts, Faithful;
    var r, told := RecordUnder(ep, l, p, sizes, cut), RunOf(ep, p, l.input).events;
    WholeIsFaithful(ep, l, p, sizes);
    RecordsAreFaithful(ep, l, p, sizes, cut);
    forall i | 0 <= i < |r.events| ensures Redacts(l.privacy, told[i], r.events[i]) {
      assert r.events[i] == StoredAll(l.privacy, told)[i];
      RedactionIsExact(l.privacy, told[i], r.events[i]);
    }
  }

  /** How the stream was cut into reads shows only in how much was read beyond the point where the
      run stopped needing input; a run that needed all there was leaves the same record however
      the bytes arrived. */
  lemma {:induction false} ReadSizesDoNotMatter(ep: Endpoint, l: Budget, p: Peer, sizes: seq<nat>, sizes': seq<nat>)
    ensures var r, r' := RecordOf(ep, l, p, sizes), RecordOf(ep, l, p, sizes');
            && r.events == r'.events && r.closeReason == r'.closeReason && r.eventsTruncated == r'.eventsTruncated
            && (r.closeReason in {ByteLimit, ClientClosed} ==> r == r')
            && (Heard(RunOf(ep, p, l.input).beats) == |Visible(p, l.input)| ==> r == r')
  {
    hide RunOf, Stored, AsciiPreview, Play, Heard;
    RunsAreSound(ep, p, l.input);
    ReceivesEnough(ep, l, p, sizes);
    ReceivesEnough(ep, l, p, sizes');
  }

  // ---------- Minimisation ----------

  /** In metadata mode runs that store and perform the same leave the same record, also when both are
      ended at the same wait. */
  lemma {:induction false} SameRunSameRecord(ep: Endpoint, l: Budget, p: Peer, q: Peer, sizes: seq<nat>,
                                             cut: Option<Interruption>)
    requires l.privacy.mode == Metadata && |p.stream| == |q.stream|
    requires SameRecord(l.privacy, RunOf(ep, p, l.input), RunOf(ep, q, l.input))
    ensures RecordUnder(ep, l, p, sizes, cut) == RecordUnder(ep, l, q, sizes, cut)
  {
    hide RunOf, StoredAll, AsciiPreview, Play;
  }

  /** In metadata mode the record of a Telnet session says nothing about the data bytes: replacing
      ordinary bytes by ordinary bytes changes nothing in it, wherever the session is ended. */
  lemma {:induction false} TelnetKeepsNoCredentials(ep: Endpoint, l: Budget, p: Peer, q: Peer, sizes: seq<nat>,
                                                    cut: Option<Interruption>)
    requires ep.protocol == TelnetProtocol && l.privacy.mode == Metadata
    requires SamePeer(p, q) && SameShape(InData, Visible(p, l.input), Visible(q, l.input))
    ensures RecordUnder(ep, l, p, sizes, cut) == RecordUnder(ep, l, q, sizes, cut)
  {
    hide RecordUnder, Attempts, StoredAll, Ascii, SameShape, BannerText, Visible, Notes;
    var s, t, w := SettingOf(ep, p, l.input), SettingOf(ep, q, l.input), if ep.banner.Some? then 1 else 0;
    var a, b := Visible(p, l.input), Visible(q, l.input);
    SimilarAttempts(l.privacy, MAX_ATTEMPTS, START, START, a, b, w, s, t);
    if ep.banner.Some? {
      SimilarSends(l.privacy, s, t, 0, BannerText(ep.banner.value), [], [],
                   Attempts(MAX_ATTEMPTS, START, a, 1, s), Attempts(MAX_ATTEMPTS, START, b, 1, t));
    }
    SameRunSameRecord(ep, l, p, q, sizes, cut);
  }

  /** In metadata mode the record of an accepted HTTP request says nothing but its method, version,
      path before the query (if captured at all) and length, wherever the session is ended. */
  lemma {:induction false} HttpKeepsNoHeaders(ep: Endpoint, l: Budget, p: Peer, q: Peer, sizes: seq<nat>,
                                              a: HttpPrinter.Request, b: HttpPrinter.Request, cut: Option<Interruption>)
    requires ep.protocol == HttpProtocol && l.privacy.mode == Metadata && SamePeer(p, q)
    requires Http.Opens(a, p, l.input) && Http.Opens(b, q, l.input)
    requires Http.Alike(l.privacy, a, b)
    ensures RecordUnder(ep, l, p, sizes, cut) == RecordUnder(ep, l, q, sizes, cut)
  {
    hide RecordUnder, Http.HttpRun, Http.Opens, Http.Alike, StoredAll, Ascii, SiteOf;
    Http.HttpMinimises(SiteOf(ep), p, q, l.input, l.privacy, a, b);
    SameRunSameRecord(ep, l, p, q, sizes, cut);
  }
}
