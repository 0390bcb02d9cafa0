/** Session state, redaction, and the one place that reads and writes the socket
    (src/session.rs, src/protocols/mod.rs, src/protocols/raw.rs). */
module Session {
  import opened Bytes

  const USIZE_MAX: int := 0xFFFF_FFFF_FFFF_FFFF

  type usize = x: int | 0 <= x <= USIZE_MAX

  type Text = seq<byte>

  /** The bytes of an ASCII literal. */
  function Ascii(s: string): Text {
    seq(|s|, i requires 0 <= i < |s| => (s[i] as int % 256) as byte)
  }

  datatype PrivacyMode = Metadata | Full

  datatype Privacy = Privacy(mode: PrivacyMode, captureHttpPath: bool)

  datatype CloseReason =
    | ClientClosed | Timeout | LifetimeLimit | ByteLimit | ProtocolError | ServerClosed | Error | Shutdown

  datatype Event =
    | SshClientBanner(banner: Text)
    | HttpRequest(method_: Text, path: Text, version: Text, host: Option<Text>, userAgent: Option<Text>)
    | TelnetLogin(username: Text, password: Option<Text>, redacted: bool)
    | Notice(msg: string)

  const MAX_EVENTS: nat := 16
  const QUESTION: byte := 63
  const HASH: byte := 35

  function Redacted(): Text {
    Ascii("[redacted]")
  }

  /** The target up to the first '?' or '#'. */
  function BeforeQuery(path: Text): (r: Text)
    ensures r <= path && QUESTION !in r && HASH !in r
    ensures |r| < |path| ==> path[|r|] in {QUESTION, HASH}
  {
    if path == [] || path[0] == QUESTION || path[0] == HASH then [] else [path[0]] + BeforeQuery(path[1..])
  }

  /** What push_event keeps of an event. */
  function Stored(p: Privacy, e: Event): Event {
    match e
    case HttpRequest(m, path, version, host, ua) =>
      HttpRequest(m,
                  if !p.captureHttpPath then Redacted() else if p.mode == Metadata then BeforeQuery(path) else path,
                  version,
                  if p.mode == Metadata then None else host,
                  if p.mode == Metadata then None else ua)
    case TelnetLogin(username, password, redacted) =>
      if p.mode == Metadata then TelnetLogin(Redacted(), if password.Some? then Some(Redacted()) else None, true) else e
    case _ => e
  }

  /** What is kept of an event, rule by rule: with path capture off no path in either mode; in full mode all
      else as it was; in metadata mode no host, user agent or credentials, and of a path what comes before
      the query, but still whether a password was sent. */
  ghost predicate Redacts(p: Privacy, given: Event, kept: Event) {
    match given
    case HttpRequest(m, path, version, host, agent) =>
      && kept.HttpRequest? && kept.method_ == m && kept.version == version
      && (!p.captureHttpPath ==> kept.path == Ascii("[redacted]"))
      && (p.captureHttpPath && p.mode == Full ==> kept.path == path)
      && (p.captureHttpPath && p.mode == Metadata ==>
            && kept.path <= path && QUESTION !in kept.path && HASH !in kept.path
            && (|kept.path| < |path| ==> path[|kept.path|] in {QUESTION, HASH}))
      && (p.mode == Full ==> kept.host == host && kept.userAgent == agent)
      && (p.mode == Metadata ==> kept.host == None && kept.userAgent == None)
    case TelnetLogin(_, password, _) =>
      && (p.mode == Full ==> kept == given)
      && (p.mode == Metadata ==>
            kept == TelnetLogin(Ascii("[redacted]"), if password.Some? then Some(Ascii("[redacted]")) else None, true))
    case _ => kept == given
  }

  lemma {:induction false} MarksStop(path: Text, a: Text, b: Text)
    requires a <= path && (|a| < |path| ==> path[|a|] in {QUESTION, HASH})
    requires b <= path && QUESTION !in b && HASH !in b
    ensures b <= a
  {
    assert forall i | 0 <= i < |b| :: path[i] == b[i];
    assert |b| <= |a|;
  }

  /** The rules determine what is stored. */
  lemma {:induction false} RedactionIsExact(p: Privacy, given: Event, kept: Event)
    ensures Redacts(p, given, kept) <==> kept == Stored(p, given)
  {
    hide Ascii;
    if given.HttpRequest? && Redacts(p, given, kept) && p.captureHttpPath && p.mode == Metadata {
      MarksStop(given.path, kept.path, BeforeQuery(given.path));
      MarksStop(given.path, BeforeQuery(given.path), kept.path);
    }
  }

  function StoredAll(p: Privacy, events: seq<Event>): seq<Event> {
    seq(|events|, i requires 0 <= i < |events| => Stored(p, events[i]))
  }

  function Printable(b: byte): bool {
    0x20 <= b <= 0x7e
  }

  function AsciiPreview(bytes: seq<byte>): string {
    seq(|bytes|, i requires 0 <= i < |bytes| => if Printable(bytes[i]) then bytes[i] as int as char else '.')
  }

  /** The fields of a session record that depend on what the client sent. */
  datatype Record = Record(
    bytesReceived: nat, payloadCaptured: bool, bytesTruncated: bool, preview: seq<byte>, previewAscii: string,
    mode: PrivacyMode, events: seq<Event>, eventsTruncated: bool, closeReason: CloseReason)

  class SessionState {
    const privacy: Privacy
    const previewLimit: usize
    const inputLimit: usize
    var bytesReceived: nat
    var preview: seq<byte>
    var events: seq<Event>
    var eventsTruncated: bool
    ghost var received: seq<byte>

    constructor (privacy: Privacy, previewLimit: usize, inputLimit: usize)
      ensures this.privacy == privacy && this.previewLimit == previewLimit && this.inputLimit == inputLimit
      ensures New()
    {
      this.privacy := privacy;
      this.previewLimit := previewLimit;
      this.inputLimit := inputLimit;
      bytesReceived, preview, events, eventsTruncated, received := 0, [], [], false, [];
    }

    ghost predicate New()
      reads this
    {
      Valid() && received == [] && events == [] && !eventsTruncated
    }

    ghost predicate Valid()
      reads this`bytesReceived, this`preview, this`received
    {
      Accounted(privacy, previewLimit, received, bytesReceived, preview)
    }

    function RemainingInput(): nat
      reads this
    {
      if bytesReceived <= inputLimit then inputLimit - bytesReceived else 0
    }

    method RecordBytes(bytes: seq<byte>)
      requires Valid()
      modifies this`bytesReceived, this`preview, this`received
      ensures Valid() && received == old(received) + bytes
    {
      bytesReceived := Min(bytesReceived + |bytes|, USIZE_MAX);
      if privacy.mode == Full {
        var room := if previewLimit >= |preview| then previewLimit - |preview| else 0;
        var take := Min(room, |bytes|);
        preview := preview + bytes[..take];
      }
      received := received + bytes;
    }

    method PushEvent(event: Event)
      modifies this`events, this`eventsTruncated
      ensures events == old(events) + if |old(events)| < MAX_EVENTS then [Stored(privacy, event)] else []
      ensures |old(events)| < MAX_EVENTS ==> Redacts(privacy, event, Back(events))
      ensures eventsTruncated == (old(eventsTruncated) || |old(events)| >= MAX_EVENTS)
    {
      RedactionIsExact(privacy, event, Stored(privacy, event));
      if |events| >= MAX_EVENTS {
        eventsTruncated := true;
        return;
      }
      var kept := event;
      match event {
        case HttpRequest(m, path, version, host, ua) =>
          if !privacy.captureHttpPath {
            kept := kept.(path := Redacted());
          } else if privacy.mode == Metadata {
            kept := kept.(path := BeforeQuery(path));
          }
          if privacy.mode == Metadata {
            kept := kept.(host := None, userAgent := None);
          }
        case TelnetLogin(username, password, redacted) =>
          if privacy.mode == Metadata {
            kept := TelnetLogin(Redacted(), if password.Some? then Some(Redacted()) else None, true);
          }
        case _ =>
      }
      events := events + [kept];
    }

    method Finalize(reason: CloseReason) returns (r: Record)
      requires Valid()
      ensures r == RecordFor(privacy, previewLimit, received, events, eventsTruncated, reason)
    {
      r := Conclude(privacy, previewLimit, bytesReceived, preview, events, eventsTruncated, reason, received);
    }
  }

  /** The counter saturates like a u64; the preview is the start of the stream, or nothing in
      metadata mode. */
  ghost predicate Accounted(p: Privacy, previewLimit: usize, received: seq<byte>, bytesReceived: nat,
                            preview: seq<byte>) {
    && bytesReceived == Min(|received|, USIZE_MAX)
    && preview == if p.mode == Full then received[..Min(previewLimit, |received|)] else []
  }

  /** The record made of the fields a session has when it is finalized. */
  method Conclude(p: Privacy, previewLimit: usize, bytesReceived: nat, preview: seq<byte>, events: seq<Event>,
                  eventsTruncated: bool,
                  reason: CloseReason, ghost received: seq<byte>)
    returns (r: Record)
    requires Accounted(p, previewLimit, received, bytesReceived, preview)
    ensures r == RecordFor(p, previewLimit, received, events, eventsTruncated, reason)
  {
    var captured := p.mode == Full && previewLimit > 0;
    r := Record(bytesReceived, captured, captured && bytesReceived > |preview|, preview, AsciiPreview(preview),
                p.mode, events, eventsTruncated, reason);
    assert |received| <= previewLimit ==> received[..Min(previewLimit, |received|)] == received;
  }

  /** The record of a session that received the given bytes. */
  function RecordFor(p: Privacy, previewLimit: usize, received: seq<byte>, events: seq<Event>, truncated: bool,
                     reason: CloseReason): Record
  {
    var captured := p.mode == Full && previewLimit > 0;
    var preview := if p.mode == Full then received[..Min(previewLimit, |received|)] else [];
    Record(Min(|received|, USIZE_MAX), captured, captured && Min(|received|, USIZE_MAX) > previewLimit, preview,
           AsciiPreview(preview), p.mode, events, truncated, reason)
  }

  // ---------- The socket ----------

  /** What a read yields after the last byte the client sends. */
  datatype ReadEnd = Eof | ReadTimeout | ReadError

  datatype WriteFault = WriteTimeout | WriteError

  /** The client as a session can see it: the bytes it sends, how they end, and which of the
      successive writes to it fail. */
  datatype Peer = Peer(stream: seq<byte>, end: ReadEnd, faults: seq<Option<WriteFault>>)

  /** How many bytes the i-th read is offered, given the sizes in which the bytes arrive. */
  function Offered(sizes: seq<nat>, i: nat): nat {
    if i < |sizes| then sizes[i] else 1
  }

  datatype ReadResult = Data(n: nat) | End | Failed(reason: CloseReason)

  function EndResult(end: ReadEnd): ReadResult {
    match end
    case Eof => End
    case ReadTimeout => Failed(Timeout)
    case ReadError => Failed(Error)
  }

  function FaultReason(f: WriteFault): CloseReason {
    match f
    case WriteTimeout => Timeout
    case WriteError => Error
  }

  /** The size of one read: at least one byte, at most what fits and what is there. */
  function ChunkSize(offered: nat, cap: nat, left: nat): (n: nat)
    requires cap > 0 && left > 0
    ensures 1 <= n <= cap && n <= left
  {
    Min(if offered == 0 then 1 else offered, Min(cap, left))
  }

  /** What a session has recorded at one of the points where its handler waits for the client, and
      where a deadline or a shutdown may therefore end it. */
  datatype Moment = Moment(taken: nat, bytesReceived: nat, preview: seq<byte>, events: seq<Event>,
                           eventsTruncated: bool)

  /** At every such point the accounting was exact, and nothing recorded by then has changed since. */
  ghost predicate Trail(p: Privacy, previewLimit: usize, stream: seq<byte>, awaits: seq<Moment>,
                        taken: nat, events: seq<Event>, truncated: bool)
  {
    taken <= |stream| && forall m | m in awaits ::
      && m.taken <= taken && Accounted(p, previewLimit, stream[..m.taken], m.bytesReceived, m.preview)
      && m.events <= events && (m.eventsTruncated ==> truncated)
  }

  lemma {:induction false} TrailGoesOn(p: Privacy, previewLimit: usize, stream: seq<byte>, awaits: seq<Moment>,
                                       taken: nat, events: seq<Event>, truncated: bool,
                                       taken': nat, events': seq<Event>, truncated': bool)
    requires Trail(p, previewLimit, stream, awaits, taken, events, truncated)
    requires taken <= taken' <= |stream| && events <= events' && (truncated ==> truncated')
    ensures Trail(p, previewLimit, stream, awaits, taken', events', truncated')
  {
    hide Accounted;
    assert forall e: seq<Event> | e <= events :: e == events[..|e|] && events'[..|e|] == events[..|e|];
  }

  class SessionIo {
    const peer: Peer
    const sizes: seq<nat>
    var taken: nat
    var chunks: nat
    var out: seq<seq<byte>>
    var awaits: seq<Moment>
    ghost var script: seq<Beat>

    constructor (peer: Peer, sizes: seq<nat>)
      ensures this.peer == peer && this.sizes == sizes && taken == chunks == 0 && out == [] && awaits == []
              && script == []
    {
      this.peer := peer;
      this.sizes := sizes;
      taken, chunks, out, awaits, script := 0, 0, [], [], [];
    }

    /** The session has recorded exactly what was read, within its budget, at every wait so far. */
    ghost predicate Synced(state: SessionState)
      reads this`taken, this`awaits, state`bytesReceived, state`preview, state`received, state`events,
          state`eventsTruncated
    {
      && taken <= |peer.stream| && taken <= state.inputLimit
      && state.Valid() && state.received == peer.stream[..taken]
      && Trail(state.privacy, state.previewLimit, peer.stream, awaits, taken, state.events, state.eventsTruncated)
    }

    function Here(state: SessionState): Moment
      reads this, state
    {
      Moment(taken, state.bytesReceived, state.preview, state.events, state.eventsTruncated)
    }

    /** Wait for the client. */
    method Await(state: SessionState)
      requires Synced(state)
      modifies this`awaits
      ensures Synced(state) && awaits == old(awaits) + [Here(state)]
    {
      awaits := awaits + [Here(state)];
    }

    method Read(state: SessionState, buf: array<byte>, cap: nat) returns (r: ReadResult)
      requires Synced(state) && cap <= buf.Length
      modifies this`taken, this`chunks, this`awaits, state`bytesReceived, state`preview, state`received, buf
      ensures Synced(state)
      ensures awaits == old(awaits) + if cap == 0 || old(taken) == state.inputLimit then [] else [old(Here(state))]
      ensures var left := Min(|peer.stream|, state.inputLimit) - old(taken);
              if cap == 0 || old(taken) == state.inputLimit then
                r == Failed(ByteLimit) && taken == old(taken) && chunks == old(chunks)
              else if old(taken) == |peer.stream| then
                r == EndResult(peer.end) && taken == old(taken) && chunks == old(chunks)
              else
                && r == Data(ChunkSize(Offered(sizes, old(chunks)), cap, left))
                && taken == old(taken) + r.n && chunks == old(chunks) + 1
                && buf[..r.n] == peer.stream[old(taken)..taken]
    {
      var available := Min(state.RemainingInput(), cap);
      if available == 0 {
        return Failed(ByteLimit);
      }
      Await(state);
      if taken == |peer.stream| {
        return EndResult(peer.end);
      }
      var offered := Offered(sizes, chunks);
      var n := ChunkSize(offered, available, |peer.stream| - taken);
      var chunk := peer.stream[taken..taken + n];
      hide Trail;
      forall i | 0 <= i < n {
        buf[i] := chunk[i];
      }
      assert buf[..n] == chunk;
      TrailGoesOn(state.privacy, state.previewLimit, peer.stream, awaits, taken, state.events, state.eventsTruncated,
                  taken + n, state.events, state.eventsTruncated);
      state.RecordBytes(chunk);
      assert peer.stream[..taken] + chunk == peer.stream[..taken + n];
      taken := taken + n;
      chunks := chunks + 1;
      return Data(n);
    }

    method Write(state: SessionState, bytes: seq<byte>) returns (fault: Option<CloseReason>)
      requires Synced(state)
      modifies this`out, this`awaits, this`script
      ensures Synced(state) && awaits == old(awaits) + [Here(state)] && script == old(script) + [Pause]
      ensures forall cap :: old(OnScript(state, cap)) ==> OnScript(state, cap)
      ensures out == old(out) + [bytes]
      ensures fault == FaultAt(peer, |old(out)|)
    {
      hide Play, Heard;
      forall cap {
        PlaySnoc(Supply(state, cap), script, Pause);
      }
      SpotsSnoc(awaits, Here(state));
      Await(state);
      script := script + [Pause];
      out := out + [bytes];
      fault := FaultAt(peer, |out| - 1);
    }

    /** Where the session is, of the bytes read counting those its handler has processed. */
    ghost function Progress(state: SessionState, heard: nat): Tape
      reads this, state`events
    {
      Tape(heard, taken, chunks, |state.events|, Spots(awaits))
    }

    ghost function Supply(state: SessionState, cap: Cap): Source {
      Source(sizes, cap, Min(|peer.stream|, state.inputLimit))
    }

    /** The session is where its script puts it. */
    ghost predicate OnScript(state: SessionState, cap: Cap)
      reads this, state`events
    {
      Progress(state, Heard(script)) == Play(Supply(state, cap), script)
    }

    /** The session has done what its script says and is reading on, every read so far needed by a
        handler that needs byte number need. */
    ghost predicate ReadingOn(state: SessionState, cap: Cap, need: nat)
      reads this, state`events
    {
      && Heard(script) <= need <= taken
      && Progress(state, Heard(script)) == ReadTo(Supply(state, cap), need, Play(Supply(state, cap), script))
    }

    /** Recording an event changes nothing recorded before. */
    lemma {:induction false} EventsOnlyGrow(state: SessionState, events: seq<Event>, truncated: bool)
      requires taken <= |peer.stream| && taken <= state.inputLimit
      requires state.Valid() && state.received == peer.stream[..taken]
      requires Trail(state.privacy, state.previewLimit, peer.stream, awaits, taken, events, truncated)
      requires events <= state.events && (truncated ==> state.eventsTruncated)
      ensures Synced(state)
    {
      TrailGoesOn(state.privacy, state.previewLimit, peer.stream, awaits, taken, events, truncated,
                  taken, state.events, state.eventsTruncated);
    }
  }

  function FaultAt(p: Peer, i: nat): Option<CloseReason> {
    if i < |p.faults| && p.faults[i].Some? then Some(FaultReason(p.faults[i].value)) else None
  }

  // ---------- What a handler run comes to ----------

  /** The result of a protocol run: the events before redaction, the close reason, the writes attempted,
      and the order in which it needed bytes, waited and recorded events. */
  datatype Outcome = Outcome(events: seq<Event>, reason: CloseReason, out: seq<seq<byte>>, beats: seq<Beat>)

  /** The bytes the session may ever see: the client's, up to the input limit. */
  function Visible(p: Peer, limit: nat): seq<byte> {
    p.stream[..Min(|p.stream|, limit)]
  }

  /** Why a session that wants more input than there is closes. A spent budget wins over whatever
      the client would have done next. */
  function Exhausted(p: Peer, limit: nat): CloseReason {
    if |p.stream| >= limit then ByteLimit
    else match p.end
         case Eof => ClientClosed
         case ReadTimeout => Timeout
         case ReadError => Error
  }

  /** Did the client close its side within the budget? */
  predicate ClosedByClient(p: Peer, limit: nat) {
    |p.stream| < limit && p.end == Eof
  }

  // ---------- Why sessions close, case by case ----------

  /** No write from the first up to number w fails. */
  ghost predicate WritesWork(p: Peer, w: nat) {
    forall i | 0 <= i < w && i < |p.faults| :: p.faults[i].None?
  }

  /** A write that fails, and the close reason that gives. */
  predicate Fails(p: Peer, w: nat, reason: CloseReason) {
    && w < |p.faults| && p.faults[w].Some?
    && (p.faults[w].value == WriteTimeout ==> reason == Timeout)
    && (p.faults[w].value == WriteError ==> reason == Error)
  }

  /** Why a session that wants more input closes: the budget is spent, or it is what the client did. */
  predicate RanOut(p: Peer, limit: nat, reason: CloseReason) {
    if |p.stream| >= limit then reason == ByteLimit
    else
      && (p.end == Eof ==> reason == ClientClosed) && (p.end == ReadTimeout ==> reason == Timeout)
      && (p.end == ReadError ==> reason == Error)
  }

  lemma {:induction false} FaultMeans(p: Peer, w: nat)
    ensures WritesWork(p, w + 1) ==> FaultAt(p, w).None?
    ensures forall reason :: Fails(p, w, reason) ==> FaultAt(p, w) == Some(reason)
  {
  }

  lemma {:induction false} ExhaustedMeans(p: Peer, limit: nat)
    ensures forall reason :: RanOut(p, limit, reason) <==> reason == Exhausted(p, limit)
    ensures RanOut(p, limit, ClientClosed) <==> |p.stream| < limit && p.end == Eof
    ensures ClosedByClient(p, limit) <==> RanOut(p, limit, ClientClosed)
  {
  }

  /** The buffer a handler reads into: always the same, or no more than is left of a total. */
  datatype Cap = Buffer(size: nat) | Within(size: nat, total: nat)

  function CapAt(cap: Cap, position: nat): nat {
    match cap
    case Buffer(size) => size
    case Within(size, total) => if position < total then Min(size, total - position) else 0
  }

  // ---------- The script of a run ----------

  /** A handler processes more bytes of the stream, waits without getting any (for a write, or for a read
      that tells it how the stream ends), or records an event. */
  datatype Beat = Hear(bytes: nat) | Pause | Note

  /** How much has been read and recorded at a wait. */
  datatype Spot = Spot(taken: nat, told: nat)

  function Spots(awaits: seq<Moment>): seq<Spot> {
    seq(|awaits|, i requires 0 <= i < |awaits| => Spot(awaits[i].taken, |awaits[i].events|))
  }

  /** The sizes in which the bytes arrive, what a read may take, and how much there is to read. */
  datatype Source = Source(sizes: seq<nat>, cap: Cap, n: nat)

  /** A session so far: bytes processed, bytes read, reads, events recorded, and its waits. */
  datatype Tape = Tape(heard: nat, taken: nat, chunks: nat, told: nat, spots: seq<Spot>)

  function ReadOnce(src: Source, t: Tape): Tape
    requires t.taken < src.n && CapAt(src.cap, t.taken) > 0
  {
    t.(taken := t.taken + ChunkSize(Offered(src.sizes, t.chunks), CapAt(src.cap, t.taken), src.n - t.taken),
       chunks := t.chunks + 1, spots := t.spots + [Spot(t.taken, t.told)])
  }

  /** Read as long as byte number need is not there. */
  function ReadTo(src: Source, need: nat, t: Tape): (r: Tape)
    ensures t.taken <= src.n ==> r.taken <= src.n
    decreases src.n - t.taken
  {
    if t.taken >= need || t.taken >= src.n || CapAt(src.cap, t.taken) == 0 then t
    else ReadTo(src, need, ReadOnce(src, t))
  }

  function Perform(src: Source, t: Tape, beat: Beat): Tape {
    match beat
    case Hear(bytes) => ReadTo(src, t.heard + bytes, t).(heard := t.heard + bytes)
    case Pause => t.(spots := t.spots + [Spot(t.taken, t.told)])
    case Note => t.(told := if t.told < MAX_EVENTS then t.told + 1 else t.told)
  }

  function Play(src: Source, script: seq<Beat>): (t: Tape)
    ensures t.taken <= src.n
  {
    if script == [] then Tape(0, 0, 0, 0, []) else Perform(src, Play(src, Front(script)), Back(script))
  }

  /** The bytes a script needs. */
  function Heard(script: seq<Beat>): nat {
    if script == [] then 0 else Heard(Front(script)) + if Back(script).Hear? then Back(script).bytes else 0
  }

  function Notes(k: nat): seq<Beat> {
    seq(k, _ => Note)
  }

  /** A run that wants more input than there is waits once more, unless its budget is spent. */
  function Ending(p: Peer, limit: nat): seq<Beat> {
    if |p.stream| < limit then [Pause] else []
  }

  lemma {:induction false} PlaySnoc(src: Source, script: seq<Beat>, beat: Beat)
    ensures Play(src, script + [beat]) == Perform(src, Play(src, script), beat)
    ensures Heard(script + [beat]) == Heard(script) + if beat.Hear? then beat.bytes else 0
  {
    assert Front(script + [beat]) == script;
  }

  lemma {:induction false} HeardConcat(a: seq<Beat>, b: seq<Beat>)
    ensures Heard(a + b) == Heard(a) + Heard(b)
  {
    if b == [] {
      assert a + b == a;
    } else {
      assert Front(a + b) == a + Front(b) && Back(a + b) == Back(b);
      HeardConcat(a, Front(b));
    }
  }

  lemma {:induction false} HeardBasics(k: nat, n: nat)
    ensures Heard([]) == 0 && Heard([Pause]) == 0 && Heard([Note]) == 0 && Heard([Hear(n)]) == n && Heard(Notes(k)) == 0
  {
    if k > 0 {
      assert Front(Notes(k)) == Notes(k - 1);
      HeardBasics(k - 1, n);
    }
  }

  lemma {:induction false} HeardEnding(p: Peer, limit: nat, before: seq<Beat>, n: nat)
    ensures Heard(before + [Hear(n)] + Ending(p, limit)) == Heard(before) + n
  {
    hide Heard;
    HeardConcat(before + [Hear(n)], Ending(p, limit));
    HeardConcat(before, [Hear(n)]);
    HeardBasics(0, n);
  }

  lemma {:induction false} SpotsSnoc(awaits: seq<Moment>, m: Moment)
    ensures Spots(awaits + [m]) == Spots(awaits) + [Spot(m.taken, |m.events|)]
  {
  }

  lemma {:induction false} ReadToBasics(src: Source, need: nat, t: Tape)
    ensures var r := ReadTo(src, need, t);
            && r.heard == t.heard && r.told == t.told && t.taken <= r.taken && t.chunks <= r.chunks
                && |t.spots| <= |r.spots|
            && (t.taken <= src.n ==> r.taken <= src.n)
    ensures need <= t.taken ==> ReadTo(src, need, t) == t
    decreases src.n - t.taken
  {
    if !(t.taken >= need || t.taken >= src.n || CapAt(src.cap, t.taken) == 0) {
      ReadToBasics(src, need, ReadOnce(src, t));
    }
  }

  /** A need that what has been read already meets asks for nothing more. */
  lemma {:induction false} NeedMet(src: Source, t: Tape, need: nat, more: nat)
    requires need <= more <= ReadTo(src, need, t).taken
    ensures ReadTo(src, more, t) == ReadTo(src, need, t)
    decreases src.n - t.taken
  {
    if t.taken >= need || t.taken >= src.n || CapAt(src.cap, t.taken) == 0 {
      ReadToBasics(src, more, t);
    } else {
      NeedMet(src, ReadOnce(src, t), need, more);
    }
  }

  /** One more needed read. */
  lemma {:induction false} ReadNext(src: Source, t: Tape, need: nat)
    requires var r := ReadTo(src, need, t); need <= r.taken < src.n && CapAt(src.cap, r.taken) > 0
    ensures var r := ReadTo(src, need, t); ReadTo(src, r.taken + 1, t) == ReadOnce(src, r)
    decreases src.n - t.taken
  {
    var r := ReadTo(src, need, t);
    ReadToBasics(src, need, t);
    if t.taken >= need || t.taken >= src.n || CapAt(src.cap, t.taken) == 0 {
      ReadToBasics(src, r.taken + 1, ReadOnce(src, r));
    } else {
      ReadNext(src, ReadOnce(src, t), need);
    }
  }

  /** What is needed is received, if there is that much and the buffer takes it. */
  lemma {:induction false} NeedsAreMet(src: Source, need: nat, t: Tape)
    requires need <= src.n && src.cap.size > 0 && (src.cap.Within? ==> need <= src.cap.total)
    ensures need <= ReadTo(src, need, t).taken
    decreases src.n - t.taken
  {
    if t.taken < need {
      NeedsAreMet(src, need, ReadOnce(src, t));
    }
  }

  /** What a script needs is received, within what there is. */
  lemma {:induction false} ScriptsAreMet(src: Source, script: seq<Beat>)
    requires Heard(script) <= src.n && src.cap.size > 0 && (src.cap.Within? ==> Heard(script) <= src.cap.total)
    ensures var t := Play(src, script); Heard(script) == t.heard <= t.taken <= src.n
  {
    if script != [] {
      ScriptsAreMet(src, Front(script));
      var t := Play(src, Front(script));
      if Back(script).Hear? {
        ReadToBasics(src, Heard(script), t);
        NeedsAreMet(src, Heard(script), t);
      }
    }
  }

  lemma {:induction false} PlayHears(src: Source, script: seq<Beat>)
    ensures Play(src, script).heard == Heard(script)
  {
    hide ReadTo;
    if script != [] {
      PlayHears(src, Front(script));
      ReadToBasics(src, Heard(script), Play(src, Front(script)));
    }
  }

  // ---------- Following the script ----------

  /** One wait was added, with this much read and these events recorded. */
  ghost predicate Waited(before: seq<Moment>, now: seq<Moment>, taken: nat, events: seq<Event>) {
    now != [] && now == before + [Back(now)] && Back(now).taken == taken && Back(now).events == events
  }

  /** A read, made because byte number io.taken + 1 is needed. */
  lemma {:induction false} ReadFollows(io: SessionIo, state: SessionState, cap: Cap, need: nat, taken: nat, chunks: nat,
                                       awaits: seq<Moment>)
    requires var src, now := io.Supply(state, cap),
             Tape(Heard(io.script), taken, chunks, |state.events|, Spots(awaits));
             && Heard(io.script) <= need <= taken < src.n && CapAt(cap, taken) > 0
             && now == ReadTo(src, need, Play(src, io.script))
             && io.taken == taken + ChunkSize(Offered(io.sizes, chunks), CapAt(cap, taken), src.n - taken)
             && io.chunks == chunks + 1
    requires Waited(awaits, io.awaits, taken, state.events)
    ensures io.ReadingOn(state, cap, taken + 1)
  {
    hide ReadTo, Play;
    var src := io.Supply(state, cap);
    SpotsSnoc(awaits, Back(io.awaits));
    ReadNext(src, Play(src, io.script), need);
  }

  /** The handler may need more of what is there already. */
  lemma {:induction false} NeedGrows(io: SessionIo, state: SessionState, cap: Cap, need: nat, more: nat)
    requires io.ReadingOn(state, cap, need) && need <= more <= io.taken
    ensures io.ReadingOn(state, cap, more)
  {
    hide ReadTo, Play;
    NeedMet(io.Supply(state, cap), Play(io.Supply(state, cap), io.script), need, more);
  }

  lemma {:induction false} ReadingMeans(io: SessionIo, state: SessionState, cap: Cap, need: nat)
    requires io.ReadingOn(state, cap, need)
    ensures Heard(io.script) <= need <= io.taken
    ensures Tape(Heard(io.script), io.taken, io.chunks, |state.events|, Spots(io.awaits))
            == ReadTo(io.Supply(state, cap), need, Play(io.Supply(state, cap), io.script))
  {
  }

  lemma {:induction false} StartReading(io: SessionIo, state: SessionState, cap: Cap, need: nat)
    requires io.OnScript(state, cap) && Heard(io.script) <= need <= io.taken
    ensures io.ReadingOn(state, cap, need)
  {
    hide ReadTo, Play;
    ReadToBasics(io.Supply(state, cap), need, Play(io.Supply(state, cap), io.script));
  }

  /** The handler has processed everything up to byte number need. */
  ghost method Process(io: SessionIo, state: SessionState, cap: Cap, need: nat)
    requires io.ReadingOn(state, cap, need)
    modifies io`script
    ensures io.script == old(io.script) + [Hear(need - Heard(old(io.script)))]
    ensures io.OnScript(state, cap) && Heard(io.script) == need
  {
    hide ReadTo, Play, Heard;
    var src := io.Supply(state, cap);
    PlaySnoc(src, io.script, Hear(need - Heard(io.script)));
    PlayHears(src, io.script);
    io.script := io.script + [Hear(need - Heard(io.script))];
  }

  /** It has waited for more when there was none, unless the budget was spent. */
  ghost method LastWait(io: SessionIo, state: SessionState, cap: Cap, awaits: seq<Moment>)
    requires Tape(Heard(io.script), io.taken, io.chunks, |state.events|, Spots(awaits))
             == Play(io.Supply(state, cap), io.script)
    requires if |io.peer.stream| < state.inputLimit then Waited(awaits, io.awaits, io.taken, state.events)
             else io.awaits == awaits
    modifies io`script
    ensures io.script == old(io.script) + Ending(io.peer, state.inputLimit) && io.OnScript(state, cap)
  {
    hide Play, Heard, Spots;
    assert io.script + [] == io.script;
    if |io.peer.stream| < state.inputLimit {
      PlaySnoc(io.Supply(state, cap), io.script, Pause);
      SpotsSnoc(awaits, Back(io.awaits));
      io.script := io.script + [Pause];
    }
  }

  /** One read by a handler that has processed everything read so far: the next chunk, or how the stream
      ends, after which there is nothing left to process. */
  method ReadOn(io: SessionIo, state: SessionState, buffer: array<byte>, cap: Cap) returns (r: ReadResult)
    requires io.Synced(state) && io.ReadingOn(state, cap, io.taken) && 0 < CapAt(cap, io.taken) <= buffer.Length
    modifies io`taken, io`chunks, io`awaits, io`script, state`bytesReceived, state`preview, state`received, buffer
    ensures io.Synced(state)
    ensures r.Data? ==>
              && 0 < r.n <= CapAt(cap, old(io.taken)) <= buffer.Length && io.taken == old(io.taken) + r.n
                  && buffer[..r.n] == io.peer.stream[old(io.taken)..io.taken]
              && io.script == old(io.script) && io.ReadingOn(state, cap, old(io.taken) + 1)
    ensures !r.Data? ==>
              && io.taken == old(io.taken) == |Visible(io.peer, state.inputLimit)|
              && r == (if ClosedByClient(io.peer, state.inputLimit) then End
                       else Failed(Exhausted(io.peer, state.inputLimit)))
              && io.script == old(io.script) + [Hear(io.taken - Heard(old(io.script)))]
                  + Ending(io.peer, state.inputLimit)
              && io.OnScript(state, cap)
  {
    hide ReadTo, Play, Heard, Spots, Trail, SessionState.Valid;
    ghost var taken, chunks, awaits := io.taken, io.chunks, io.awaits;
    if io.taken == |Visible(io.peer, state.inputLimit)| {
      Process(io, state, cap, taken);
    }
    r := io.Read(state, buffer, CapAt(cap, io.taken));
    if r.Data? {
      ReadFollows(io, state, cap, taken, taken, chunks, awaits);
    } else {
      LastWait(io, state, cap, awaits);
    }
  }

  /** It has recorded an event. */
  ghost method Noted(io: SessionIo, state: SessionState, cap: Cap, told: nat)
    requires Tape(Heard(io.script), io.taken, io.chunks, told, Spots(io.awaits))
             == Play(io.Supply(state, cap), io.script)
    requires |state.events| == if told < MAX_EVENTS then told + 1 else told
    modifies io`script
    ensures io.script == old(io.script) + [Note] && io.OnScript(state, cap) && Heard(io.script) == Heard(old(io.script))
  {
    hide Play, Heard;
    PlaySnoc(io.Supply(state, cap), io.script, Note);
    io.script := io.script + [Note];
  }

  /** It read on with told events recorded, processed everything up to byte number need, and recorded
      one more event there. */
  ghost method ProcessAndNote(io: SessionIo, state: SessionState, cap: Cap, need: nat, more: nat, told: nat)
    requires Heard(io.script) <= need <= more <= io.taken
    requires Tape(Heard(io.script), io.taken, io.chunks, told, Spots(io.awaits))
          == ReadTo(io.Supply(state, cap), need, Play(io.Supply(state, cap), io.script))
    requires |state.events| == if told < MAX_EVENTS then told + 1 else told
    modifies io`script
    ensures io.script == old(io.script) + [Hear(more - Heard(old(io.script))), Note]
    ensures io.OnScript(state, cap) && Heard(io.script) == more
  {
    hide ReadTo, Play, Heard;
    var src, script, hear := io.Supply(state, cap), io.script, Hear(more - Heard(io.script));
    NeedMet(src, Play(src, script), need, more);
    PlaySnoc(src, script, hear);
    PlayHears(src, script);
    io.script := script + [hear];
    Noted(io, state, cap, told);
    assert io.script == script + [hear, Note];
  }

  /** What every protocol handler establishes about the session it was given. */
  ghost predicate Finished(io: SessionIo, state: SessionState, cap: Cap, reason: CloseReason, o: Outcome)
    reads io, state
  {
    && io.Synced(state)
    && reason == o.reason
    && state.events == StoredAll(state.privacy, o.events) && !state.eventsTruncated
    && io.out == o.out && io.script == o.beats && io.OnScript(state, cap)
  }

  /** Two runs that leave the same record behind. */
  ghost predicate SameRecord(p: Privacy, a: Outcome, b: Outcome) {
    StoredAll(p, a.events) == StoredAll(p, b.events) && a.reason == b.reason && a.out == b.out && a.beats == b.beats
  }

  /** Two peers that differ at most in the bytes they send. */
  predicate SamePeer(p: Peer, q: Peer) {
    |p.stream| == |q.stream| && p.end == q.end && p.faults == q.faults
  }

  /** At most n events, at most len more bytes needed, and the budget is the reason only when it is
      what ran out. */
  predicate Bounded(o: Outcome, n: nat, len: nat, p: Peer, limit: nat) {
    && |o.events| <= n && Heard(o.beats) <= len
    && (o.reason == ByteLimit ==> Heard(o.beats) == len && |p.stream| >= limit)
  }

  ghost predicate Fresh(io: SessionIo, state: SessionState)
    reads io, state
  {
    state.New() && io.taken == io.chunks == 0 && io.out == [] && io.awaits == [] && io.script == []
  }

  lemma {:induction false} FreshIsSynced(io: SessionIo, state: SessionState)
    requires Fresh(io, state)
    ensures io.Synced(state) && forall cap :: io.OnScript(state, cap)
  {
  }

  lemma {:induction false} NothingStored(p: Privacy)
    ensures StoredAll(p, []) == []
  {
  }

  // ---------- The raw protocol ----------

  function RawRun(banner: Option<Text>, p: Peer, limit: nat): Outcome {
    var out := if banner.Some? then [banner.value] else [];
    var greeting := if banner.Some? then [Pause] else [];
    if banner.Some? && FaultAt(p, 0).Some? then Outcome([], FaultAt(p, 0).value, out, greeting)
    else Outcome([], Exhausted(p, limit), out, greeting + [Hear(|Visible(p, limit)|)] + Ending(p, limit))
  }

  /** A raw session records no events, sends at most the banner, and reads until the input or the budget ends, unless
      the banner could not be sent. */
  lemma {:induction false} RawInFull(banner: Option<Text>, p: Peer, limit: nat)
    ensures var o := RawRun(banner, p, limit);
            && o.events == [] && o.out == (if banner.Some? then [banner.value] else [])
            && (banner.Some? ==> forall reason :: Fails(p, 0, reason) ==> o.reason == reason && Heard(o.beats) == 0)
            && (banner.None? || WritesWork(p, 1) ==>
                  RanOut(p, limit, o.reason) && Heard(o.beats) == |Visible(p, limit)|)
  {
    hide RanOut, Heard;
    FaultMeans(p, 0);
    ExhaustedMeans(p, limit);
    var greeting := if banner.Some? then [Pause] else [];
    HeardEnding(p, limit, greeting, |Visible(p, limit)|);
    HeardBasics(0, 0);
  }

  method HandleRaw(io: SessionIo, state: SessionState, banner: Option<Text>) returns (reason: CloseReason)
    requires Fresh(io, state)
    modifies io, state
    ensures Finished(io, state, Buffer(4096), reason, RawRun(banner, io.peer, state.inputLimit))
  {
    hide ReadTo, Play, Heard, Spots, Trail, SessionState.Valid, SessionIo.OnScript, SessionIo.ReadingOn, StoredAll;
    FreshIsSynced(io, state);
    NothingStored(state.privacy);
    if banner.Some? {
      var fault := io.Write(state, banner.value);
      assert io.script == [Pause];
      if fault.Some? {
        return fault.value;
      }
    }
    var buffer := new byte[4096];
    HeardBasics(0, 0);
    StartReading(io, state, Buffer(4096), 0);
    ghost var script := io.script;
    while true
      invariant io.Synced(state) && fresh(buffer) && buffer.Length == 4096
      invariant state.events == [] && !state.eventsTruncated && io.out == if banner.Some? then [banner.value] else []
      invariant io.script == script && io.ReadingOn(state, Buffer(4096), io.taken)
      decreases |io.peer.stream| - io.taken
    {
      ghost var taken := io.taken;
      var r := ReadOn(io, state, buffer, Buffer(4096));
      match r {
        case End => return ClientClosed;
        case Data(_) => NeedGrows(io, state, Buffer(4096), taken + 1, io.taken);
        case Failed(why) => return why;
      }
    }
  }
}
