/** The HTTP handler: an incremental scan for the end of the header block, then one response
    (src/protocols/http.rs). */
module Http {
  import opened Bytes
  import opened Session
  import opened HttpText
  import opened HttpParser
  import opened HttpPrinter
  import opened HttpWire
  import opened HttpResponse
  import HttpGrammar
  import Utf8

  const MAX_HEAD: nat := 8192
  const READS: Cap := Within(2048, MAX_HEAD)

  // ---------- The run as a function of the stream ----------

  /** Having processed heard bytes, one event and one response; then the session closes. */
  function Answer(p: Peer, event: Event, text: Text, closing: CloseReason, heard: nat): Outcome {
    var reason := if FaultAt(p, 0).Some? then FaultAt(p, 0).value else closing;
    Outcome([event], reason, [text], [Hear(heard), Note] + [Pause])
  }

  function Reply(site: Site, p: Peer, head: Text): Outcome {
    match Parsed(head)
    case Err(msg) => Answer(p, Notice(msg), Response(site, 400, false), ProtocolError, |head|)
    case Ok(e) =>
      Answer(p, e, Response(site, site.status, e.HttpRequest? && e.method_ == Ascii("HEAD")), ServerClosed, |head|)
  }

  /** The bytes a request's header block must fit in. */
  function Window(v: seq<byte>): seq<byte> {
    v[..Min(|v|, MAX_HEAD)]
  }

  function HttpRun(site: Site, p: Peer, limit: nat): Outcome {
    var v := Visible(p, limit);
    var k := FindBlank(Window(v));
    if k.Some? then Reply(site, p, v[..k.value + 4])
    else if |v| >= MAX_HEAD then
      Answer(p, Notice("http_headers_too_large"), Response(site, 431, false), ProtocolError, MAX_HEAD)
    else
      var cut := ClosedByClient(p, limit) && v != [];
      Outcome(if cut then [Notice("http_incomplete_headers")] else [], Exhausted(p, limit), [],
              [Hear(|v|)] + Ending(p, limit) + if cut then [Note] else [])
  }

  // ---------- The incremental scan ----------

  lemma {:induction false} BlankInPrefix(a: seq<byte>, v: seq<byte>, j: nat)
    requires a <= v && j + 4 <= |a|
    ensures BlankAt(a, j) <==> BlankAt(v, j)
  {
    assert a[j..j + 4] == v[j..j + 4];
  }

  lemma {:induction false} FoundInPrefix(a: seq<byte>, v: seq<byte>)
    requires a <= v && FindBlank(a).Some?
    ensures FindBlank(v) == FindBlank(a)
  {
    var k := FindBlank(a).value;
    BlankInPrefix(a, v, k);
    forall j: nat | j < k ensures !BlankAt(v, j) {
      BlankInPrefix(a, v, j);
    }
    FoundAt(v, k);
  }

  lemma {:induction false} BlankInSuffix(v: seq<byte>, from: nat, i: nat)
    requires from <= |v|
    ensures BlankAt(v[from..], i) <==> BlankAt(v, from + i)
  {
    if from + i + 4 <= |v| {
      assert v[from..][i..i + 4] == v[from + i..from + i + 4];
    }
  }

  lemma {:induction false} FirstFrom(v: seq<byte>, from: nat)
    requires from <= |v| && forall j: nat | j < from :: !BlankAt(v, j)
    ensures var found := FindBlank(v[from..]); FindBlank(v) == if found.Some? then Some(from + found.value) else None
  {
    hide BlankAt;
    var found := FindBlank(v[from..]);
    forall i: nat ensures BlankAt(v[from..], i) <==> BlankAt(v, from + i) {
      BlankInSuffix(v, from, i);
    }
    forall j: nat | BlankAt(v, j) ensures found.Some? && from + found.value <= j {
      assert BlankAt(v[from..], j - from);
    }
    if found.Some? {
      FoundAt(v, from + found.value);
    }
  }

  /** Looking only at the new bytes and the three before them finds the first blank line. */
  lemma {:induction false} OverlapIsEnough(old_: seq<byte>, new_: seq<byte>)
    requires FindBlank(old_).None?
    ensures var from := Max(|old_| - 3, 0);
            var found := FindBlank((old_ + new_)[from..]);
            FindBlank(old_ + new_) == if found.Some? then Some(from + found.value) else None
    ensures FindBlank(old_ + new_).Some? ==> FindBlank(old_ + new_).value + 4 > |old_|
  {
    hide BlankAt;
    var all := old_ + new_;
    forall j: nat | j + 4 <= |old_| ensures !BlankAt(all, j) {
      BlankInPrefix(old_, all, j);
    }
    FirstFrom(all, Max(|old_| - 3, 0));
  }

  // ---------- The handler ----------

  /** Between reads: the bytes so far, which hold no blank line. */
  ghost predicate Collecting(io: SessionIo, state: SessionState, headers: seq<byte>)
    reads io, state
  {
    var v := Visible(io.peer, state.inputLimit);
    && io.Synced(state) && state.events == [] && !state.eventsTruncated && io.out == [] && io.script == []
    && io.ReadingOn(state, READS, io.taken)
    && |headers| == io.taken <= MAX_HEAD && headers <= v && FindBlank(headers).None?
  }

  /** Record the event, send the response and close. */
  method Send(io: SessionIo, state: SessionState, event: Event, text: Text, closing: CloseReason, ghost need: nat,
              ghost heard: nat)
    returns (reason: CloseReason)
    requires io.Synced(state) && state.events == [] && !state.eventsTruncated && io.out == [] && io.script == []
    requires io.ReadingOn(state, READS, need) && need <= heard <= io.taken
    modifies io`out, io`awaits, io`script, state`events, state`eventsTruncated
    ensures Finished(io, state, READS, reason, Answer(io.peer, event, text, closing, heard))
  {
    hide ReadTo, Play, Heard, Spots, Trail, SessionState.Valid, Stored;
    HeardBasics(0, 0);
    state.PushEvent(event);
    io.EventsOnlyGrow(state, [], false);
    ProcessAndNote(io, state, READS, need, heard, 0);
    assert io.script == [Hear(heard), Note];
    assert StoredAll(state.privacy, [event]) == [Stored(state.privacy, event)];
    hide SessionIo.OnScript;
    var fault := io.Write(state, text);
    reason := if fault.Some? then fault.value else closing;
  }

  /** Parse the collected header block and answer. */
  method Respond(io: SessionIo, state: SessionState, site: Site, head: Text, ghost need: nat)
    returns (reason: CloseReason)
    requires io.Synced(state) && state.events == [] && !state.eventsTruncated && io.out == [] && io.script == []
    requires io.ReadingOn(state, READS, need) && need <= |head| <= io.taken
    modifies io`out, io`awaits, io`script, state`events, state`eventsTruncated
    ensures Finished(io, state, READS, reason, Reply(site, io.peer, head))
  {
    hide ReadTo, Play, Heard, Spots, SessionState.Valid, Parsed, Response, Ascii, Finished, Answer;
    var request := ParseRequest(head);
    if request.Err? {
      reason := Send(io, state, Notice(request.msg), Response(site, 400, false), ProtocolError, need, |head|);
    } else {
      var isHead := request.value.HttpRequest? && request.value.method_ == Ascii("HEAD");
      reason := Send(io, state, request.value, Response(site, site.status, isHead), ServerClosed, need, |head|);
    }
  }

  /** The stream ends, or stalls, before the header block does. */
  method RunsDry(io: SessionIo, state: SessionState, headers: seq<byte>, eof: bool, ghost site: Site)
    requires io.Synced(state) && state.events == [] && !state.eventsTruncated && io.out == []
    requires headers == Visible(io.peer, state.inputLimit) && |headers| < MAX_HEAD && FindBlank(headers).None?
    requires eof == ClosedByClient(io.peer, state.inputLimit)
    requires io.script == [Hear(|headers|)] + Ending(io.peer, state.inputLimit) && io.OnScript(state, READS)
    modifies state`events, state`eventsTruncated, io`script
    ensures Finished(io, state, READS, Exhausted(io.peer, state.inputLimit), HttpRun(site, io.peer, state.inputLimit))
  {
    hide Play, Heard, Spots, Trail, SessionState.Valid, Parsed, Response, Reply, Answer;
    assert headers == Window(Visible(io.peer, state.inputLimit));
    assert io.script + [] == io.script;
    if eof && headers != [] {
      state.PushEvent(Notice("http_incomplete_headers"));
      io.EventsOnlyGrow(state, [], false);
      Noted(io, state, READS, 0);
    }
    assert StoredAll(state.privacy, []) == [];
  }

  /** One read of the collecting loop. */
  method Turn(io: SessionIo, state: SessionState, buffer: array<byte>, before: seq<byte>, ghost site: Site)
    returns (headers: seq<byte>, end: Option<nat>, done: Option<CloseReason>)
    requires buffer.Length == 2048 && Collecting(io, state, before) && |before| < MAX_HEAD
    modifies io`taken, io`chunks, io`awaits, io`script, state, buffer
    ensures done.Some? ==> Finished(io, state, READS, done.value, HttpRun(site, io.peer, state.inputLimit))
    ensures done.None? && end.None? ==> Collecting(io, state, headers) && io.taken > old(io.taken)
    ensures done.None? && end.Some? ==>
              && io.Synced(state) && state.events == [] && !state.eventsTruncated && io.out == [] && io.script == []
              && io.ReadingOn(state, READS, |before| + 1) && |before| < end.value <= |headers| == io.taken
              && headers <= Visible(io.peer, state.inputLimit)
              && HttpRun(site, io.peer, state.inputLimit) == Reply(site, io.peer, headers[..end.value])
  {
    hide ReadTo, Play, Heard, Spots, Trail, SessionState.Valid, Parsed, Response, Reply, Answer, FindBlank, Finished,
         HttpRun, SessionIo.ReadingOn, SessionIo.OnScript;
    ghost var v := Visible(io.peer, state.inputLimit);
    HeardBasics(0, 0);
    headers, end, done := before, None, None;
    var read := ReadOn(io, state, buffer, READS);
    match read {
      case End =>
        RunsDry(io, state, before, true, site);
        done := Some(ClientClosed);
      case Failed(why) =>
        RunsDry(io, state, before, false, site);
        done := Some(why);
      case Data(n) =>
        var scanFrom := Max(|before| - 3, 0);
        headers := before + buffer[..n];
        OverlapIsEnough(before, buffer[..n]);
        assert before == v[..|before|] && v[..|before|] + io.peer.stream[|before|..io.taken] == v[..io.taken];
        var offset := FindBlank(headers[scanFrom..]);
        if offset.Some? {
          end := Some(scanFrom + offset.value + 4);
          FoundInWindow(site, io.peer, state.inputLimit, headers);
        } else {
          NeedGrows(io, state, READS, |before| + 1, io.taken);
        }
    }
  }

  lemma {:induction false} FoundInWindow(site: Site, p: Peer, limit: nat, headers: seq<byte>)
    requires headers <= Visible(p, limit) && |headers| <= MAX_HEAD && FindBlank(headers).Some?
    ensures HttpRun(site, p, limit) == Reply(site, p, headers[..FindBlank(headers).value + 4])
  {
    hide Reply;
    var v, k := Visible(p, limit), FindBlank(headers).value;
    FoundInPrefix(headers, Window(v));
    assert v[..k + 4] == headers[..k + 4];
  }

  lemma {:induction false} FilledUp(site: Site, p: Peer, limit: nat, headers: seq<byte>)
    requires headers <= Visible(p, limit) && |headers| == MAX_HEAD && FindBlank(headers).None?
    ensures HttpRun(site, p, limit)
            == Answer(p, Notice("http_headers_too_large"), Response(site, 431, false), ProtocolError, MAX_HEAD)
  {
    hide Answer, Response;
    assert headers == Window(Visible(p, limit));
  }

  /** http::handle. */
  method HandleHttp(io: SessionIo, state: SessionState, site: Site) returns (reason: CloseReason)
    requires Fresh(io, state)
    modifies io, state
    ensures Finished(io, state, READS, reason, HttpRun(site, io.peer, state.inputLimit))
  {
    hide ReadTo, Play, Heard, Spots, SessionState.Valid, Parsed, Response, Reply, Answer, FindBlank, Finished,
         HttpRun, SessionIo.ReadingOn, SessionIo.OnScript;
    var buffer := new byte[2048];
    var headers := StartCollecting(io, state);
    while true
      invariant fresh(buffer) && buffer.Length == 2048
      invariant Collecting(io, state, headers)
      decreases |io.peer.stream| - io.taken
    {
      if MAX_HEAD - |headers| == 0 {
        FilledUp(site, io.peer, state.inputLimit, headers);
        reason := Send(io, state, Notice("http_headers_too_large"), Response(site, 431, false), ProtocolError, MAX_HEAD,
                       MAX_HEAD);
        return;
      }
      ghost var before := |headers|;
      var end, done;
      headers, end, done := Turn(io, state, buffer, headers, site);
      if done.Some? {
        return done.value;
      }
      if end.Some? {
        reason := Respond(io, state, site, headers[..end.value], before + 1);
        return;
      }
    }
  }

  method StartCollecting(io: SessionIo, state: SessionState) returns (headers: seq<byte>)
    requires Fresh(io, state)
    ensures headers == [] && Collecting(io, state, headers)
  {
    hide ReadTo, Play, Heard, Spots, SessionIo.ReadingOn, SessionIo.OnScript;
    FreshIsSynced(io, state);
    HeardBasics(0, 0);
    StartReading(io, state, READS, 0);
    headers := [];
  }

  // ---------- What a session records ----------

  /** The visible stream starts with a printed acceptable request of at most 8192 bytes. */
  ghost predicate Opens(r: Request, p: Peer, limit: nat) {
    Acceptable(r) && Print(r) <= Visible(p, limit) && |Print(r)| <= MAX_HEAD
  }

  lemma {:induction false} WindowOfPrinted(r: Request, p: Peer, limit: nat)
    requires Opens(r, p, limit)
    ensures |Print(r)| >= 4 && FindBlank(Window(Visible(p, limit))) == Some(|Print(r)| - 4)
    ensures Visible(p, limit)[..|Print(r)|] == Print(r)
  {
    hide Acceptable, Print;
    var w := Window(Visible(p, limit));
    assert w == Print(r) + w[|Print(r)|..];
    EndsAtTheBlank(r, w[|Print(r)|..]);
  }

  /** A stream that starts with a printed acceptable request is answered as that request. */
  lemma {:induction false} RequestIsAnswered(site: Site, p: Peer, limit: nat, r: Request)
    requires Opens(r, p, limit)
    ensures var isHead := r.start.method_ == Ascii("HEAD");
            HttpRun(site, p, limit) == Answer(p, EventOn(r), Response(site, site.status, isHead), ServerClosed,
                                              |Print(r)|)
  {
    hide Acceptable, Print, Parsed, Response, Visible, Window, Ascii, DecodedFields;
    WindowOfPrinted(r, p, limit);
    EndsAtTheBlank(r, []);
    assert Print(r) + [] == Print(r);
    assert Print(r)[|Print(r)| - 4..] == BLANK;
    WireParses(r, []);
  }

  /** A request is recorded exactly when the visible stream starts with a printed acceptable request
      of at most 8192 bytes, and then it is that request. */
  lemma {:induction false} RecordsExactlyTheRequests(site: Site, p: Peer, limit: nat, e: Event)
    requires e.HttpRequest?
    ensures e in HttpRun(site, p, limit).events <==> exists r :: Opens(r, p, limit) && e == EventOn(r)
  {
    hide Acceptable, Print, Parsed, Response, EventOn, Ascii;
    var v := Visible(p, limit);
    if r :| Opens(r, p, limit) && e == EventOn(r) {
      RequestIsAnswered(site, p, limit, r);
    }
    if e in HttpRun(site, p, limit).events {
      var k := FindBlank(Window(v)).value;
      var head := v[..k + 4];
      var r, extra := AcceptedOnWire(head);
      EndsAtTheBlank(r, extra);
      FoundInPrefix(head, Window(v));
      assert extra == [];
      assert Print(r) == head;
      assert Opens(r, p, limit);
    }
  }

  /** One response, which a client can read. */
  ghost predicate Says(out: seq<Text>, site: Site, status: nat, head: bool) {
    |out| == 1 && (PrintableSite(site) ==> ReadsAs(site, status, head, out[0]))
  }

  predicate EndMark(v: seq<byte>, k: nat) {
    k + 4 <= |v| && k + 4 <= 8192 && v[k..k + 4] == [13, 10, 13, 10]
  }

  /** The header block is the first n bytes, at most 8192. */
  ghost predicate EndsAt(v: seq<byte>, n: nat) {
    n >= 4 && EndMark(v, n - 4) && forall k: nat | k < n - 4 :: !EndMark(v, k)
  }

  lemma {:induction false} WindowEnds(v: seq<byte>)
    ensures forall n: nat :: EndsAt(v, n) <==> n >= 4 && FindBlank(Window(v)) == Some(n - 4)
    ensures FindBlank(Window(v)).Some? ==> EndsAt(v, FindBlank(Window(v)).value + 4)
  {
    hide EndMark, BlankAt;
    var w := Window(v);
    forall k: nat ensures BlankAt(w, k) <==> EndMark(v, k) {
      MarkInWindow(v, k);
    }
    forall n: nat | EndsAt(v, n) ensures FindBlank(w) == Some(n - 4) {
      FoundAt(w, n - 4);
    }
  }

  lemma {:induction false} MarkInWindow(v: seq<byte>, k: nat)
    ensures BlankAt(Window(v), k) <==> EndMark(v, k)
  {
    if k + 4 <= |Window(v)| {
      assert Window(v)[k..k + 4] == v[k..k + 4];
    }
  }

  /** A request is recorded in full and answered with the configured status, HEAD without a body. */
  lemma {:induction false} AcceptedInFull(site: Site, p: Peer, limit: nat, r: Request)
    requires Opens(r, p, limit)
    ensures var o := HttpRun(site, p, limit);
            && |o.events| == 1 && HttpGrammar.EventInFull(Decoded(r), o.events[0])
            && Says(o.out, site, site.status, r.start.method_ == Ascii("HEAD"))
            && (WritesWork(p, 1) ==> o.reason == ServerClosed)
            && forall reason :: Fails(p, 0, reason) ==> o.reason == reason
  {
    hide Opens, HttpRun, Response, ReadsAs, PrintableSite, HttpGrammar.EventInFull, EventOf, Ascii;
    RequestIsAnswered(site, p, limit, r);
    HttpGrammar.EventsInFull(Decoded(r));
    FaultMeans(p, 0);
    if PrintableSite(site) {
      ResponseInFull(site, site.status, r.start.method_ == Ascii("HEAD"));
    }
  }

  /** A complete header block that is not an acceptable request gets a notice that names its first fault, a 400 and
      a protocol error. */
  lemma {:induction false} RefusedInFull(site: Site, p: Peer, limit: nat, n: nat)
    requires EndsAt(Visible(p, limit), n) && forall r :: !Opens(r, p, limit)
    ensures var o := HttpRun(site, p, limit);
            && |o.events| == 1 && o.events[0].Notice?
            && HttpGrammar.Fault(Utf8.Lossy(Visible(p, limit)[..n]), o.events[0].msg)
            && Says(o.out, site, 400, false)
            && (WritesWork(p, 1) ==> o.reason == ProtocolError)
            && forall reason :: Fails(p, 0, reason) ==> o.reason == reason
  {
    hide Opens, Response, ReadsAs, PrintableSite, HttpGrammar.Fault, ParsedText, Ascii, Utf8.Lossy, Parsed;
    var v := Visible(p, limit);
    assert n <= |v| by {
      assert EndMark(v, n - 4);
    }
    var head := v[..n];
    WindowEnds(v);
    FaultMeans(p, 0);
    RefusedHead(p, limit, n);
    HttpGrammar.FaultsInFull(Utf8.Lossy(head));
    if PrintableSite(site) {
      ResponseInFull(site, 400, false);
    }
  }

  lemma {:induction false} RefusedHead(p: Peer, limit: nat, n: nat)
    requires EndsAt(Visible(p, limit), n)
    ensures var head := Visible(p, limit)[..n];
            && |head| >= 4 && head[|head| - 4..] == BLANK
            && (Parsed(head).Ok? ==> exists r :: Opens(r, p, limit))
            && (Parsed(head).Err? ==> ParsedText(Utf8.Lossy(head)) == Parsed(head))
  {
    hide Acceptable, Print, ParsedText, Utf8.Lossy, EventOn;
    var v := Visible(p, limit);
    var head := v[..n];
    assert head[|head| - 4..] == v[n - 4..n];
    if Parsed(head).Ok? {
      var r, extra := AcceptedOnWire(head);
      assert Print(r) <= v by {
        assert v == head + v[n..];
        assert Print(r) == v[..|Print(r)|];
      }
      assert Opens(r, p, limit);
    }
  }

  /** 8192 bytes without the end of a header block get a notice, a 431 and a protocol error. */
  lemma {:induction false} OverlongInFull(site: Site, p: Peer, limit: nat)
    requires |Visible(p, limit)| >= 8192 && forall n: nat :: !EndsAt(Visible(p, limit), n)
    ensures var o := HttpRun(site, p, limit);
            && o.events == [Notice("http_headers_too_large")] && Says(o.out, site, 431, false)
            && (WritesWork(p, 1) ==> o.reason == ProtocolError)
            && forall reason :: Fails(p, 0, reason) ==> o.reason == reason
  {
    hide Response, ReadsAs, PrintableSite, EndsAt;
    WindowEnds(Visible(p, limit));
    FaultMeans(p, 0);
    if PrintableSite(site) {
      ResponseInFull(site, 431, false);
    }
  }

  /** Input that ends before either gets no response, and a notice if the client closed inside the header block. */
  lemma {:induction false} UnfinishedInFull(site: Site, p: Peer, limit: nat)
    requires |Visible(p, limit)| < 8192 && forall n: nat :: !EndsAt(Visible(p, limit), n)
    ensures var o := HttpRun(site, p, limit);
            && o.events == (if Visible(p, limit) != [] && |p.stream| < limit && p.end == Eof
                            then [Notice("http_incomplete_headers")] else [])
            && o.out == [] && RanOut(p, limit, o.reason)
  {
    hide Response, EndsAt, RanOut;
    WindowEnds(Visible(p, limit));
    ExhaustedMeans(p, limit);
  }

  lemma {:induction false} HttpIsBounded(site: Site, p: Peer, limit: nat)
    ensures var o := HttpRun(site, p, limit);
            && Bounded(o, 1, |Visible(p, limit)|, p, limit) && Heard(o.beats) <= MAX_HEAD
            && (o.reason == ClientClosed ==> Heard(o.beats) == |Visible(p, limit)|)
  {
    hide Parsed, Response, Ascii, Heard;
    var v := Visible(p, limit);
    var k := FindBlank(Window(v));
    AnswerHears(if k.Some? then k.value + 4 else MAX_HEAD);
    HeardEnding(p, limit, [], |v|);
    HeardConcat([Hear(|v|)] + Ending(p, limit), [Note]);
    HeardBasics(0, 0);
    assert [] + [Hear(|v|)] + Ending(p, limit) == [Hear(|v|)] + Ending(p, limit);
    assert [Hear(|v|)] + Ending(p, limit) + [] == [Hear(|v|)] + Ending(p, limit);
  }

  lemma {:induction false} AnswerHears(heard: nat)
    ensures Heard([Hear(heard), Note] + [Pause]) == heard
  {
    assert Front([Hear(heard), Note] + [Pause]) == [Hear(heard), Note];
    assert Front([Hear(heard), Note]) == [Hear(heard)];
    HeardBasics(0, heard);
  }

  /** What metadata mode keeps of a request: method, version, length, and, if paths are captured, the
      path before the query. */
  ghost predicate Alike(privacy: Privacy, r: Request, s: Request) {
    && r.start.method_ == s.start.method_ && r.start.version == s.start.version && |Print(r)| == |Print(s)|
    && (privacy.captureHttpPath ==> BeforeQuery(r.start.target) == BeforeQuery(s.start.target))
  }

  /** Metadata mode: nothing else of an accepted request shows in the outcome. */
  lemma {:induction false} HttpMinimises(site: Site, p: Peer, q: Peer, limit: nat, privacy: Privacy, r: Request,
                                         s: Request)
    requires privacy.mode == Metadata && SamePeer(p, q) && Alike(privacy, r, s)
    requires Opens(r, p, limit) && Opens(s, q, limit)
    ensures SameRecord(privacy, HttpRun(site, p, limit), HttpRun(site, q, limit))
  {
    hide Opens, Print, Response, Ascii, HttpRun, FirstValue, BeforeQuery, Redacted, DecodedFields, Cut;
    RequestIsAnswered(site, p, limit, r);
    RequestIsAnswered(site, q, limit, s);
  }
}
