# Verified model of minotaur

minotaur is a bounded TCP sensor: it accepts connections on several endpoints, speaks a little of a
protocol (raw, SSH identification, one HTTP exchange, a Telnet login dialogue) within a byte budget,
and leaves one record per session in a rotating line log. This project models that behaviour in
Dafny 4.11 and proves properties of every run of it. `dafny verify dfyconfig.toml` checks it all.

How the parts fit together:

- **Address** and **RateLimit**: canonical addresses, the overlap test for listening sockets, and the
  sliding-window limiter. `RateLimiter` keeps the history of everything that took its lock and is
  always where that history puts it; runs are then compared with the plain list of admissions, with
  and without clock skew.
- **FileSink**, **Packing**, **Writer** and **Lifetimes**: the log directory as a partial map from slot
  to bytes (slot 0 is the active file), in which every operation may fail at any point and failures
  are counted. A failure ends the use of a sink, so a failed operation followed by `Open` is also what
  a crash and a restart look like. `FileSink` is proved never to overwrite or lose anything but the
  oldest whole files and to fail only when something failed, `Packing` says exactly which lines are in
  which file, `Writer` adds the bounded queue and the writer task, `Lifetimes` any number of restarts.
- **RecordQueue**: the answer of try_send, shared by **Writer** and **Pipeline**.
- **Pipeline**, **PipelineInv** and **PipelineRuns**: listeners, exclusion set, limiter, permits,
  sessions, queue, writer, maintenance, server task and main task as one transition system with free
  interleaving. Its steps are the atomic actions of those tasks; the invariants give conservation of
  connections and records, bounds, order, readiness, the rate limit over all listeners, and
  termination of a shutdown.
- **Admission**: the same system from outside: which connections are refused and why, as a function of
  the configuration and of the limiter's history; that every counter counts exactly that; that an allowed
  connection can be served to its written record; when the sensor is ready; what cancels it.
- **Session**: session state, redaction, and `SessionIo`, the one object that reads from the client.
  A client is a `Peer` (the bytes it sends, how they end, which writes to it fail) and a list of sizes
  in which the bytes arrive. Each protocol handler is a method proved `Finished` against a pure
  function of the peer and the input limit in which the sizes do not occur. Besides events, close reason
  and output that function gives a script: the order in which the handler needs bytes, waits for the
  client and records events. With the sizes the script determines every read and every wait (`Play`),
  and so what a session has recorded wherever a deadline or a shutdown ends it.
- **Utf8**: lossy decoding, and that it is exact on well-formed text.
- **TelnetCodec**, **TelnetDialogue**, **Telnet**; **Ssh**; **HttpText**, **HttpParser**,
  **HttpPrinter**, **HttpWire**, **HttpResponse**, **Http**: those pure functions, their meaning, and
  the handlers. **TelnetOutcomes**, **HttpGrammar** and the lemmas whose names end in `InFull` say what
  a session records, answers and closes with in terms of the stream, the settings and literal texts only,
  case by case, refused and half-finished sessions included.
- **Sessions**: dispatch and the session record, and what holds for all four protocols, for sessions
  that end by themselves and for sessions cut short.
- **Brackets**, **Delimiters** and **Lexemes**: the delimiter lexer of the repository check, and the
  shapes of what it skips.
- **Bytes**: options, bytes and small sequence facts.

Two places where code and documentation could be read differently follow the code. `check` reads the
clock before it takes the lock, so stamps in lock order need not be sorted: `SkewedRateBound` holds
for any clock skew, and `SkewBoundIsTight` shows that a span is guaranteed exactly when it and the
skew fit in 60 seconds: the plain bound fails when an eviction runs with a later clock value first. A raw string in the delimiter lexer is recognised at any
letter `r`, also at the end of an identifier, since the lexer looks for delimiters and not for tokens.

Modelling conventions: `bytesReceived` saturates at 2^64 - 1 as the source's counter does, and
`usize` is 64 bits wide; time is a natural number of nanoseconds; a timeout or socket error is an
outcome of a read or write chosen by the peer; queue operations are single steps.

## Model

| member | source | states |
|---|---|---|
| Address.CanonicalIdentifiesMapped | src/config.rs:474-479 | Canonical form is idempotent, never IPv4-mapped, and identifies exactly an IPv4 address with its mapped form. |
| Address.BindsConflictIsExact | src/config.rs:481-495 | Two binds conflict exactly when their ports are equal and non-zero and some destination address reaches both; symmetric. |
| Address.ValidateBinds | src/config.rs:374-395 | The bind checks pass exactly when all endpoints, and an enabled metrics bind, receive pairwise disjoint traffic. |
| RateLimit.RateLimiter.constructor | src/ratelimit.rs:38-44 | A new limiter has an empty table, the given limits and no history. |
| RateLimit.RateLimiter.CheckAt | src/ratelimit.rs:50-71 | One check is decided by the whole history of operations before it, extends that history, and gives exactly the new table, including the poisoned and full cases. |
| RateLimit.RateLimiter.EvictAt | src/ratelimit.rs:77-84 | One eviction gives exactly the expired, non-empty buckets, or nothing when poisoned. |
| RateLimit.RateLimiter.TrackedIps | src/ratelimit.rs:86-88 | The gauge never exceeds the cap, and straight after an eviction on a clock that never went back it is the number of addresses admitted in the last 60 s. |
| RateLimit.Expire | src/ratelimit.rs:91-98 | The pop loop removes exactly the leading stamps that are at least 60 s old. |
| RateLimit.BucketIsRecentHistory | src/ratelimit.rs:50-84 | In every run a bucket is a suffix of the address's admissions, and whatever it no longer holds was a full window old at some clock value seen. |
| RateLimit.SkewedRateBound | src/ratelimit.rs:46-98 | With clock skew at most d in lock order, any limit + 1 admissions of one address span at least 60 s - d, whatever else is interleaved; d = 0 is exact. |
| RateLimit.DecisionUnderSkew | src/ratelimit.rs:46-71 | Under clock skew d a check is refused for the rate only when the last limit admissions of the address are all less than 60 s + d old, and allowed only when the limit-th last is at least 60 s - d old. |
| RateLimit.SkewBoundIsTight | src/ratelimit.rs:46-98 | For all positive limits, a span is guaranteed between limit + 1 admissions under skew d if and only if it and d fit in 60 s. |
| RateLimit.BucketIsLiveHistory | src/ratelimit.rs:50-84 | With a clock that never goes back, a bucket expired at now is the admissions in (now - 60 s, now]. |
| RateLimit.DecisionRefinesHistory | src/ratelimit.rs:50-71 | Allowed and rate limited are decided by the count over the full history; a full table refuses only addresses with no live admission. |
| RateLimit.CheckLeavesTheLive | src/ratelimit.rs:63-70 | Straight after a check decided by the rate the address's bucket holds exactly its admissions of the last 60 s, a new one included. |
| RateLimit.EvictionKeepsExactlyTheLive | src/ratelimit.rs:77-84 | After an eviction the table tracks exactly the addresses with live admissions. |
| RateLimit.RunRefinesNaive | src/ratelimit.rs:50-84 | A run that never answers capacity or unavailable decides every check as a limiter that keeps only the list of checks. |
| RateLimit.EvictionsAreInvisible | src/ratelimit.rs:73-84 | Two runs with the same checks and any evictions agree on every decision. |
| RateLimit.PoisonFailsClosed | src/ratelimit.rs:54-58 | After poisoning, an enabled limiter admits nobody again. |
| RateLimit.TableIsBounded | src/ratelimit.rs:59-83 | In every run at most maxIps buckets, all canonical, each with 1 to limit stamps. |
| RateLimit.HistoryBudget | src/config.rs:319-322 | Under the validated budget at most 1,000,000 stamps are held over the whole table. |
| FileSink.Directory.OpenLog | src/logger.rs:243-274 | Opening creates a missing active file and changes nothing else; without a fault it succeeds exactly on a file that is missing, empty or ends in LF. |
| FileSink.RenameKeepsContents | src/logger.rs:173-199 | Renaming a file into a free next slot leaves the bytes read from oldest to newest unchanged, gaps included. |
| FileSink.DescentKeepsSuffix | src/logger.rs:173-199 | Whatever happened, what is on disk is a suffix of what was there plus what was appended, what is missing is whole files from the old end, and no rename replaced a file. |
| FileSink.DescendsTrans | src/logger.rs:173-199 | That relation composes over any sequence of operations, failures and restarts. |
| FileSink.MoveActive | src/logger.rs:188-198 | Renaming the active file and starting a new one completes the rotation: every file one slot older, the oldest gone. |
| FileSink.FileSink.constructor | src/logger.rs:123-151 | The tracked size starts as the length of the active file. |
| FileSink.FileSink.Open | src/logger.rs:133-151 | Opening keeps the directory but for a missing active file and succeeds, without a fault, exactly with positive limits on a clean tail. |
| FileSink.FileSink.ShiftArchives | src/logger.rs:177-187 | The descending rename loop moves every archive one slot up and overwrites none; it fails exactly when an operation did, and then only the oldest file can be gone. |
| FileSink.FileSink.Rotate | src/logger.rs:173-199 | A completed rotation is exactly the shifted directory with an empty active file; an interrupted one loses only the oldest file. |
| FileSink.FileSink.Write | src/logger.rs:153-171 | A write succeeds exactly when nothing failed and the line fits, and then gives exactly the specified directory; files stay within the limit and archives whole; after a failure in a log of whole lines the active file ends cleanly exactly when none or all of the line landed. |
| Packing.DiskIsGreedyCut | src/logger.rs:153-199 | A fault-free sink on an empty directory stores the greedy cut of the lines: whole lines, at most maxBytes a file, every archive full, at most maxFiles archives, only the oldest files missing. |
| Packing.GreedyCutIsUnique | src/logger.rs:153-199 | There is one greedy cut, so the statement above fixes the place of every line. |
| Writer.Logger.Log | src/logger.rs:55-73 | A record enters at the tail exactly when the queue is open and not full; each refusal is counted under its own reason. |
| Writer.Logger.Fail | src/logger.rs:108-115 | The error exit closes the queue, ends readiness, counts one error and the record in hand plus everything queued as dropped. |
| Writer.Logger.Recv | src/logger.rs:88 | Records are taken in acceptance order while producers keep logging; None comes only when everything accepted has been taken. |
| Writer.WriteRecord | src/logger.rs:89-102 | One record goes to both outputs whole, or fails leaving at most a prefix in each. |
| Writer.WriteNext | src/logger.rs:88-117 | One turn of the writer extends what was delivered by exactly one record, or ends with at most a prefix of it. |
| Writer.RunWriter | src/logger.rs:76-121 | Both outputs hold exactly the first written records in acceptance order plus at most a prefix of the failing one, whose presence the tail shows; on success and failure the accepted records are the logged ones, in order, without those counted as refused for a full queue, and each is written or counted as lost. |
| Writer.ServeOne | src/logger.rs:88-117 | One turn of the loop keeps those accounts, or closes them with the error exit. |
| Writer.LogReadsBack | src/logger.rs:76-121 | Reading the delivered bytes line by line gives the serialised records back, in order, and then the part of a line a failure left. |
| FileSink.TailAfterAppend | src/logger.rs:264-272 | Part of a line appended to a clean file leaves a clean tail exactly when it is nothing or all of the line. |
| Lifetimes.Life | src/logger.rs:133-199 | One process on a directory lands some lines whole and then at most part of the next, which the tail shows; a log found with a partial line is left alone; without a fault every line lands. |
| Lifetimes.RunLives | src/logger.rs:133-199 | Over any number of lives, each ended by any failure, the log is what was there plus the first lines of each life plus at most one partial line at the young end, after which it is never written again; without a fault restarts do not show in the packing. |
| PipelineInv.InitialInv | src/server.rs:33-64 | The start state, with the exclusion list in canonical form, satisfies the invariants. |
| PipelineInv.ListenerKeepsLedgers | src/server.rs:195-251 | Accepting, deciding, rejecting, admitting and ending keep all ledgers and the permit count. |
| PipelineInv.DecideKeepsGate | src/server.rs:214-223 | The exclusion set comes before the limiter, and every connection the limiter clears has an admission of its own. |
| PipelineInv.AcquireKeepsGate | src/server.rs:224-237 | A cleared connection gives its admission up or hands it to the session it becomes. |
| PipelineInv.SessionKeepsLedgers | src/server.rs:261-310 | Every step of a session task keeps the accept, session and record ledgers: count, gauge up, close, log, gauge down, permit back. |
| PipelineInv.SessionKeepsOnce | src/server.rs:302-310 | Each admitted session offers its record to the queue exactly once. |
| PipelineInv.OfferKeepsOrder | src/logger.rs:55-73 | try_send keeps the queue within capacity and in acceptance order. |
| PipelineInv.WriterKeepsOrder | src/logger.rs:88-121 | The writer's steps, including the four steps of its error exit, keep written, in hand, queued and lost records in order. |
| PipelineInv.MaintKeepsInv | src/server.rs:130-146 | Evictions between any two checks keep all invariants. |
| PipelineInv.SupervisorsKeepInv | src/main.rs:180-202 | The steps of the server task and of main, signals and management failures keep all invariants, whatever the order in which tasks end. |
| PipelineInv.StepKeepsInv | src/server.rs:115-310 | Every step of every task keeps the invariants. |
| PipelineRuns.RunKeepsInv | src/server.rs:115-310 | So does every interleaving. |
| PipelineRuns.RunKeepsConfig | src/server.rs:33-64 | No step changes the limits a run was configured with. |
| PipelineRuns.LedgersBalance | src/server.rs:205-246 | In every reachable state accepted = rejected + admitted + in a listener's hand, and counted sessions = not yet logged + queued + in hand + written + dropped. |
| PipelineRuns.BoundsHold | src/server.rs:224-236 | active_sessions never exceeds the permits taken, nor these the configured maximum; the queue and the limiter's table never exceed their configured sizes. |
| PipelineRuns.WrittenIsPrefixOfAccepted | src/logger.rs:76-121 | Written records are a prefix of the accepted ones, the writer's losses the rest; every admitted session's record is unlogged, accepted or refused, exactly one of the three. |
| PipelineRuns.ShutdownAccountsForEverything | src/main.rs:188-207 | When main is done, accepted = rejected + counted, counted = written + dropped, the gauge is 0, all permits are back and nothing is queued. |
| PipelineRuns.ErrorEndsReadiness | src/metrics.rs:282-289 | Once a writer error is counted, /readyz never answers 200 again, even if the server task raises ready afterwards. |
| PipelineRuns.ExcludedNeverPass | src/server.rs:45-51 | In every run an address excluded by the configuration, in whatever spelling it was configured or connects, reaches neither the limiter nor a permit. |
| PipelineRuns.SessionsObeyTheLimit | src/server.rs:214-237 | In every run, over all listeners, any configured limit + 1 sessions of one address include two admitted at least 60 s minus the clock skew apart. |
| PipelineRuns.StepLowersRank | src/server.rs:194-251 | After a cancellation every step lowers a rank, a connection accepted late included. |
| PipelineRuns.OneLateAccept | src/server.rs:195-205 | After a cancellation a listener accepts at most one more connection, and only if it had already looked for the cancellation. |
| PipelineRuns.NeverStuck | src/main.rs:180-202 | Once a cancellation is out or main has left its select, and until main is done, some task can take a step of its own, without a signal, a connection or a failure from outside. |
| PipelineRuns.ShutdownTerminates | src/main.rs:188-227 | From every cancelled state every schedule, whatever arrives meanwhile, ends within the rank of that state, and a schedule in which no task can go on has finished the shutdown. |
| Admission.DecisionIsExact | src/server.rs:214-223 | In every reachable state a connection is refused as ignored exactly when its canonical address is that of a configured exclusion; otherwise the limiter's answer, a function of the history of its lock, clears it or gives the reason. |
| Admission.ClearedIsServed | src/server.rs:224-237 | A cleared connection becomes a session with its address's admission if a permit is free, and is refused for max_sessions otherwise. |
| Admission.CountersAreExact | src/server.rs:253-259 | In every run each rejection counter, with the listeners about to raise it, is the number of connections turned away for that very reason; arrivals and admissions likewise. |
| Admission.SessionIsLogged | src/server.rs:261-310 | A session's steps count its connection, give gauge and permit back, and offer its record once: to the end of an open queue with room, else counted as closed or full. |
| Admission.ServedToTheEnd | src/server.rs:194-310 | From every reachable uncancelled state a connection that the exclusions and the limiter allow, on an idle listener with a permit free, can go on until its record is written, and changes nothing else but the counters of accepted, counted and closed connections. |
| Admission.ReadyWhileServing | src/metrics.rs:282-289 | In every run the sensor answers ready only while the server task serves, and always while it serves uncancelled with a working writer. |
| Admission.StartsReady | src/server.rs:147-149 | A server that starts uncancelled becomes ready. |
| Admission.WithdrawnForGood | src/server.rs:162 | A failing writer, a stopping server and main shutting down each take readiness back for the rest of the run. |
| Admission.WhatCancels | src/main.rs:180-202 | A signal, an ended writer or server, a failing listener and a failing management endpoint each lead to a cancellation. |
| Admission.TickForgetsTheIdle | src/server.rs:140-143 | A maintenance tick leaves the limiter tracking exactly the addresses admitted in the last 60 s. |
| Session.SessionState.constructor | src/session.rs:119-137 | A new session has recorded nothing. |
| Session.SessionState.RecordBytes | src/session.rs:145-154 | The counter saturates at 2^64 - 1 and the preview stays the start of everything received, up to its limit, in full mode only. |
| Session.SessionState.PushEvent | src/session.rs:156-194 | At most 16 events are kept, each as the redaction rules leave it; a further one only sets the truncation flag. |
| Session.RedactionIsExact | src/session.rs:161-191 | The redaction rules, written out for both modes with path capture on and off, determine what is stored of every event. |
| Session.SessionState.Finalize | src/session.rs:200-225 | The record follows from the bytes received, the events and the close reason. |
| Session.Conclude | src/session.rs:200-225 | So it does from the fields of a session ended at any point with its accounting exact. |
| Session.BeforeQuery | src/session.rs:170-173 | The longest start of a path without a question mark or number sign. |
| Session.SessionIo.Read | src/protocols/mod.rs:44-65 | A read takes the next bytes of the stream, at most what fits and what the budget leaves; a spent budget is reported before anything else; everything read is recorded. |
| Session.SessionIo.Write | src/protocols/mod.rs:67-76 | A write is attempted once, may fail with a timeout or an error, and finds the session's accounting exact. |
| Session.SessionIo.EventsOnlyGrow | src/session.rs:156-198 | Recording an event changes nothing that was recorded at an earlier wait. |
| Session.TrailGoesOn | src/session.rs:145-154 | Nor does reading on. |
| Session.ReadOn | src/protocols/mod.rs:44-65 | A handler's next read gives the next bytes, or says how the stream ends, and every wait and read is one its script calls for. |
| Session.PlaySnoc | src/protocols/mod.rs:44-65 | A script is performed beat by beat: processed bytes as they are needed, waits, recorded events. |
| Session.NeedMet | src/protocols/mod.rs:44-65 | Bytes that are there already cause no read. |
| Session.ScriptsAreMet | src/protocols/mod.rs:44-65 | What a script needs is received, if it was sent within the budget, and never more than there is. |
| Session.HandleRaw | src/protocols/raw.rs:8-26 | The raw handler's result, its reads, waits and events in order are a function of the peer and the limit: banner, then everything until the stream or the budget ends. |
| Session.RawInFull | src/protocols/raw.rs:8-26 | No events, at most the banner sent, everything read up to the end of the input or the budget; a failed banner gives its own close reason. |
| Utf8.ValidIsEncoded | src/protocols/http.rs:78 | The decoder's well-formed texts are exactly the UTF-8 encodings of sequences of scalar values. |
| Utf8.LossyIsValid | src/protocols/http.rs:78 | Lossily decoded text is well formed. |
| Utf8.LossyKeepsExactlyTheValid | src/protocols/telnet.rs:47 | Lossy decoding leaves exactly the well-formed texts unchanged. |
| Utf8.LossyInFull | src/protocols/http.rs:78 | Decoding keeps a character at the start of a text and otherwise gives one U+FFFD for the longest start of a character there, or for one byte. |
| Utf8.LossyAt | src/protocols/http.rs:78 | An ASCII byte is decoded to itself and separates what is around it. |
| Utf8.UnlossyAt | src/protocols/http.rs:78 | Every ASCII byte of decoded text comes from one in the input that separates it likewise. |
| Utf8.TakeChars | src/protocols/http.rs:130 | The first n characters: a prefix that ends where a character does. |
| TelnetCodec.DecodeEncoded | src/protocols/telnet.rs:152-173 | Decoding a stream of complete units keeps exactly their data bytes. |
| TelnetCodec.EveryStreamParses | src/protocols/telnet.rs:152-173 | Every byte stream is complete units and the start of one more, and the units decide the decoded data. |
| TelnetCodec.LinesSurviveTheWire | src/protocols/telnet.rs:92-132 | Lines sent with IAC doubled, CR as CR NUL and CR LF ends come back, whatever commands, negotiations and subnegotiations are put between the encoded bytes. |
| TelnetCodec.HalfLinesSurvive | src/protocols/telnet.rs:92-132 | So do lines followed by one that was begun; more than 256 bytes of it are found too long. |
| TelnetCodec.AnySpellingSplits | src/protocols/telnet.rs:92-132 | Every spelling of a line (CR NUL, a CR before another byte, LF or CR LF at its end) gives that line if it has at most 256 bytes, and is too long otherwise. |
| TelnetCodec.LinesStayShort | src/protocols/telnet.rs:125-132 | The partial line and every line handed on have at most 256 bytes. |
| TelnetCodec.NextLineSplits | src/protocols/telnet.rs:84-123 | Framing byte by byte gives exactly the lines of the decoded stream. |
| TelnetDialogue.TelnetIsDecodeSplitPair | src/protocols/telnet.rs:13-66 | Events, close reason and output are those of decoding the whole visible stream, splitting it into lines and pairing them into at most three attempts. |
| TelnetDialogue.CredentialsAreRecorded | src/protocols/telnet.rs:30-61 | A client that sends up to three usernames and passwords as a Telnet client should is recorded with exactly those, lossily decoded, whatever commands are mixed in; if they are UTF-8, with exactly what it sent. |
| TelnetDialogue.AttemptsAreBounded | src/protocols/telnet.rs:30-66 | At most one login an attempt and one notice; a byte limit is reported only when the budget is used up. |
| TelnetDialogue.SimilarAttempts | src/session.rs:180-190 | In metadata mode, replacing ordinary data bytes by ordinary data bytes changes nothing a dialogue stores. |
| TelnetOutcomes.TelnetInFull | src/protocols/telnet.rs:13-74 | Every session whose writes work: up to three complete tries recorded and answered in order; then the goodbye, or the end of the input where a username was due, or where a password was due and the username is recorded with none, after the notice for a line cut short or too long; with the close reason of each case. |
| TelnetOutcomes.HalfLoginsAreRecorded | src/protocols/telnet.rs:42-57 | A client that completes some tries, sends one more username and closes before the end of its password line is recorded with what it sent, the last username without a password. |
| TelnetOutcomes.BannerFails | src/protocols/telnet.rs:18-27 | A failed banner ends the session with nothing recorded. |
| TelnetOutcomes.PromptFails | src/protocols/telnet.rs:31-33 | A failed prompt or goodbye leaves the complete tries and its own close reason. |
| TelnetOutcomes.AskingFails | src/protocols/telnet.rs:42-45 | When asking for the password fails the username is recorded with none, whatever the client sent next. |
| TelnetOutcomes.AnsweringFails | src/protocols/telnet.rs:57-60 | When the answer fails the login is recorded as it was. |
| Telnet.TelnetDecoder.Feed | src/protocols/telnet.rs:152-173 | The decoder object makes the specified step. |
| Telnet.LineReader.constructor | src/protocols/telnet.rs:76-82 | A new reader holds nothing and expects data. |
| Telnet.LineReader.Append | src/protocols/telnet.rs:125-132 | A byte is added to a line of fewer than 256 bytes, otherwise the notice is recorded. |
| Telnet.LineReader.Step | src/protocols/telnet.rs:92-111 | One pending byte goes through decoder and framer as specified. |
| Telnet.LineReader.Drain | src/protocols/telnet.rs:92-111 | The pending bytes are processed up to the end of the next line or until none are left. |
| Telnet.LineReader.Fill | src/protocols/telnet.rs:112-120 | One more read, or the end of the stream with its notice for an unfinished line. |
| Telnet.LineReader.ReadLine | src/protocols/telnet.rs:84-123 | A call returns what the next line of the whole remaining stream is, however that stream is cut into reads. |
| Telnet.EnterPassword | src/protocols/telnet.rs:42-60 | The password half of an attempt goes as the dialogue function says, half-finished logins included. |
| Telnet.Attempt | src/protocols/telnet.rs:31-60 | So does a whole attempt. |
| Telnet.Dialogue | src/protocols/telnet.rs:30-65 | Three attempts and the goodbye. |
| Telnet.SendBanner | src/protocols/telnet.rs:18-27 | The banner is sent with a line end added unless it has one. |
| Telnet.HandleTelnet | src/protocols/telnet.rs:13-66 | The handler's events, close reason, output and the order in which it needs bytes, waits and records are a function of the peer and the limit alone, whatever the read sizes. |
| Ssh.ValidIsTheGrammar | src/protocols/ssh.rs:63-69 | The accepted lines are exactly those of the grammar: version 2.0 or 1.99, software name, optional comments, all printable. |
| Ssh.BannerExactly | src/protocols/ssh.rs:31-57 | In runs ending at EOF or a protocol error a banner is recorded exactly when the stream starts with a line of the grammar ended by LF or CR LF within 255 bytes; at most one event. |
| Ssh.SshInFull | src/protocols/ssh.rs:11-61 | Every session: the greeting; then exactly that banner and the end of the input, or a protocol error for another line or none within 255 bytes, or the end of the input before either; each with its notice and close reason. |
| Ssh.Take | src/protocols/ssh.rs:35-56 | One read's bytes are processed up to the first LF or the 255th byte of the line. |
| Ssh.HandleSsh | src/protocols/ssh.rs:11-61 | The handler's result and the order in which it needs bytes, waits and records are a function of the peer and the limit alone. |
| HttpText.SplitJoined | src/protocols/http.rs:79 | Lines without LF, joined with CRLF, split back into themselves. |
| HttpText.JoinSplit | src/protocols/http.rs:79 | Joining undoes splitting for every text. |
| HttpText.FindBlank | src/protocols/http.rs:42-45 | The first CRLFCRLF, or none. |
| HttpText.BlankAfterLines | src/protocols/http.rs:42-45 | Non-empty lines without CR or LF hold no CRLFCRLF before their end. |
| HttpParser.TrimIsExact | src/protocols/http.rs:120 | Trimming removes exactly the surrounding blanks. |
| HttpParser.ParseRequest | src/protocols/http.rs:74-168 | The parser decodes lossily and returns the event or the first error of the specification. |
| HttpParser.ParseFields | src/protocols/http.rs:102-167 | The header loop, which remembers four things, agrees with checks on the whole field list. |
| HttpPrinter.FieldsAreValid | src/protocols/http.rs:106-154 | Fields that pass are well named, valid, at most 64, and unique where uniqueness is required. |
| HttpPrinter.ValidFieldsParse | src/protocols/http.rs:106-154 | Valid fields, printed, parse back in order. |
| HttpPrinter.StartRoundTrip | src/protocols/http.rs:80-100 | A printed request line parses back. |
| HttpPrinter.PrintedParses | src/protocols/http.rs:79-168 | Printed decoded text of a well-formed request parses to its method, target, version, trimmed Host and first User-Agent cut to 1024 characters. |
| HttpPrinter.AcceptedIsPrinted | src/protocols/http.rs:79-168 | Every accepted decoded text starts with a printed well-formed request: at most one Host (exactly one for 1.1), one Content-Length that fits 64 bits, never both framings. |
| HttpWire.WireParses | src/protocols/http.rs:74-168 | A printed request, field values any bytes, that is well formed once decoded parses to its decoded event. |
| HttpWire.AcceptedOnWire | src/protocols/http.rs:74-168 | All accepted bytes start with such a printed request. |
| HttpWire.AcceptsExactlyThePrinted | src/protocols/http.rs:74-168 | The two together, as an equivalence on all byte strings. |
| HttpWire.EndsAtTheBlank | src/protocols/http.rs:42-45 | The blank line that ends such a request is the first in any stream that starts with it. |
| HttpGrammar.WellFormedInFull | src/protocols/http.rs:79-172 | The well-formed requests are those of a grammar with every letter, length and name written out. |
| HttpGrammar.EventsInFull | src/protocols/http.rs:161-167 | What is recorded: the request line as it was, the first Host value, at most 1024 characters of the first User-Agent value. |
| HttpGrammar.FaultsInFull | src/protocols/http.rs:79-160 | A refused text is refused for its first fault, in the request line, in the first header line at fault after good ones, or in the fields as a whole, and the message is the one for that fault. |
| HttpPrinter.PrintedEndsAtTheBlank | src/protocols/http.rs:42-45 | No printed request holds a blank line before the one that ends it. |
| HttpResponse.ResponseLayout | src/protocols/http.rs:174-200 | The appended pieces are a header block and, except for HEAD, a body. |
| HttpResponse.ResponseReadsBack | src/protocols/http.rs:174-200 | A client that splits at the first blank line and parses the fields gets back status line, fields and body; HEAD has the fields of GET and no body. |
| HttpResponse.ContentLengthIsRight | src/protocols/http.rs:188-191 | The Content-Length a client finds is the length of the GET body; exactly 204 and 304 leave it out and have none. |
| HttpResponse.ResponseInFull | src/protocols/http.rs:174-200 | What a client reads, written out: status line, fields and their order, length, the challenge of 401, and body. |
| Http.OverlapIsEnough | src/protocols/http.rs:40-46 | Scanning only the new bytes and the three before them finds the first blank line of everything read. |
| Http.Turn | src/protocols/http.rs:22-51 | One turn of the reading loop keeps the collected bytes free of a blank line and at most 8192, or ends it as the whole-stream function says. |
| Http.Send | src/protocols/http.rs:63-71 | One event and one response, then the session closes. |
| Http.Respond | src/protocols/http.rs:53-71 | The header block is answered by 400 or by the configured status. |
| Http.HandleHttp | src/protocols/http.rs:14-72 | The handler's result is that of looking for the first blank line in the first 8192 visible bytes, for every way of cutting the stream into reads. |
| Http.RequestIsAnswered | src/protocols/http.rs:53-71 | A stream that starts with a printed request, well formed once decoded, is recorded and answered as that request. |
| Http.AcceptedInFull | src/protocols/http.rs:63-71 | A stream that opens with an acceptable request: its event, one readable response with the configured status, no body for HEAD, closed by the server. |
| Http.RefusedInFull | src/protocols/http.rs:53-62 | A complete header block that is not one: a notice naming its first fault, one 400, a protocol error. |
| Http.OverlongInFull | src/protocols/http.rs:22-31 | 8192 bytes without the end of a header block: the notice, one 431, a protocol error. |
| Http.UnfinishedInFull | src/protocols/http.rs:33-50 | Input that ends before either: no response, a notice only if the client closed inside the block, and the close reason of that end. |
| Http.RecordsExactlyTheRequests | src/protocols/http.rs:22-71 | A request is recorded exactly when the visible stream starts with such a printed request of at most 8192 bytes. |
| Http.HttpIsBounded | src/protocols/http.rs:14-72 | At most one event; a byte limit is reported only when the budget is used up. |
| Http.HttpMinimises | src/session.rs:162-179 | In metadata mode two accepted requests of equal length that agree on method, version and path before the query leave the same outcome. |
| Sessions.Handle | src/protocols/mod.rs:18-34 | Dispatch: every protocol's handler establishes its function of the peer. |
| Sessions.HandleSession | src/server.rs:278-309 | A session's record is a function of endpoint, limits, peer, read sizes and the wait, if any, at which its deadline or a shutdown ends it: of what it had then, under that close reason. |
| Sessions.EverySessionWaits | src/server.rs:281-286 | With any input budget every session has a wait at which it can be ended. |
| Sessions.RunsAreSound | src/protocols/mod.rs:18-34 | Every protocol's run records at most 4 events, needs no more than there is, reports a byte limit only with the budget used up and a closed client only with everything read, and waits unless the budget ends it. |
| Sessions.RecordsAreFaithful | src/server.rs:281-309 | Every record of every session of all four protocols, whole or ended at any wait: the budget holds, byte limit means it is used up, the preview is the start of the stream, truncation is reported exactly, at most 4 events and never truncated, the ASCII preview shows exactly the printable bytes; a session ended at a wait says why and has a start of the whole session's bytes and events. |
| Sessions.EveryEventIsRedacted | src/session.rs:156-194 | Every event of every record is what the redaction rules leave of the event at its place in the run. |
| Sessions.CutInFull | src/server.rs:281-286 | A session ended at a wait has exactly the events recorded before the part of the run it waited in, and the bytes read by then. |
| Sessions.DefaultsInFull | src/protocols/http.rs:66 | An endpoint that configures nothing answers 404 from nginx and prompts "login: "; a configured one answers what it says. |
| Sessions.ReadSizesDoNotMatter | src/protocols/mod.rs:44-65 | Events and close reason never depend on read sizes, and a run that needed all there was leaves the same record. |
| Sessions.SameRunSameRecord | src/session.rs:200-225 | In metadata mode runs that store and perform the same leave the same record, also when both are ended at the same wait. |
| Sessions.TelnetKeepsNoCredentials | src/session.rs:180-190 | In metadata mode two Telnet streams that differ only in ordinary data bytes leave equal records under the same read sizes, also when both sessions are ended at the same wait. |
| Sessions.HttpKeepsNoHeaders | src/session.rs:162-179 | In metadata mode two accepted requests of equal length that agree on method, version and captured path leave equal records, also when both sessions are ended at the same wait. |
| Brackets.StackAcceptsDyck | scripts/check_repository.py:84-91 | The stack ends empty exactly on the balanced words over three bracket kinds. |
| Brackets.StuckMeansHopeless | scripts/check_repository.py:87-89 | A bracket is refused exactly when no continuation could balance the word. |
| Brackets.BracketPairs | scripts/check_repository.py:88 | The three pairs of brackets. |
| Delimiters.CountingIsNesting | scripts/check_repository.py:40-53 | Counting depth closes a comment exactly at the mark its nesting determines. |
| Delimiters.StringClosesExactly | scripts/check_repository.py:62-74 | A string literal ends at the first quote that no backslash takes. |
| Delimiters.SkipComment | scripts/check_repository.py:40-53 | The comment loop finds that mark or reports that there is none. |
| Delimiters.SkipString | scripts/check_repository.py:62-74 | The string loop finds that quote, an escape running past the end included. |
| Delimiters.Lex | scripts/check_repository.py:36-90 | Every step moves forward and stays inside the text. |
| Delimiters.SkipLexeme | scripts/check_repository.py:36-83 | Comments and literals are tried in the source's order. |
| Lexemes.LexInFull | scripts/check_repository.py:36-83 | At every position of every text: what is skipped is a line comment, a nested comment, a raw string with its hash marks, a string, one of the four shapes of a character literal, or a lifetime, tried in that order, to its very end; what never closes is reported; brackets are marked. |
| Lexemes.WordsInFull | scripts/check_repository.py:35-91 | The bracket word the verdict is given on is that of reading the whole text by those rules, up to the first thing that never closes. |
| Lexemes.CharEndExactly | scripts/check_repository.py:75-79 | A character literal is recognised exactly in its four shapes. |
| Lexemes.RawStartExactly | scripts/check_repository.py:54-57 | A raw string opens exactly at r or br, any number of hash marks and a quote. |
| Delimiters.LexicalDelimiters | scripts/check_repository.py:31-91 | The lexer returns exactly the first failing assertion, or none. |
| Delimiters.AcceptsExactlyTheBalanced | scripts/check_repository.py:31-91 | Accepted are exactly the texts whose comments and literals all close and whose other brackets are balanced. |
| Delimiters.ReportsTheFirstError | scripts/check_repository.py:84-91 | An unbalanced delimiter is reported exactly at the first bracket that ends all hope of balance; otherwise the unclosed literal, then unclosed delimiters. |

## Left out

- Sockets, timers, wall-clock time, task scheduling, locks, file permissions, symlink checks and fsync: a
  read or write has an outcome chosen by the peer, a file operation may fail.
- The pipeline's tasks are steps on values, not methods on objects, because the source's tasks interleave
  between any two actions and a method body does not; update in place and aliasing of the shared metrics
  are therefore not captured there. What a protocol run records and what a write does to the files is
  modelled in Sessions and Writer; no refinement proof links those to the pipeline's steps. `try_send`,
  and closing the queue then reading its length, are taken to be atomic, and tasks neither panic nor
  get aborted after the grace period.
- When a deadline or a shutdown comes: it may come at any wait for the client, and which one is a parameter.
- The other record fields: session id, timestamps, duration, addresses, sensor, hexadecimal preview; JSON
  is any line whose only LF is its last byte.
- FileSink.FileSink.Write: after a failed write the tracked size may be stale and the sink is not promised to
  be usable, because the writer never uses it again; what the directory then holds is described. The
  exact greedy packing is proved for fault-free runs and restarts that began with an empty directory.
- The sum of size and line length is unbounded, where the source saturates at 64 bits; validated
  configurations keep both far below.
- Reason phrases come from a table given as a parameter; the HTTP library's own table is not part of this
  model. `ResponseReadsBack` takes server name and phrases to be printable, as the configuration check and
  the standard phrases ensure.
- Management HTTP apart from the readiness rule, metric labels and rendering, configuration parsing and
  range checks, the command line, signals and the health check client.
- The other checks of the repository script (files, links, JSON shape, licence).
