/** The bounded login dialogue as a function of the client's byte stream, and what it means
    (src/protocols/telnet.rs). */
module TelnetDialogue {
  import opened Bytes
  import opened Session
  import opened TelnetCodec
  import Utf8

  const MAX_ATTEMPTS: nat := 3

  /** All of the peer that matters to the dialogue besides its bytes. */
  datatype Setting = Setting(peer: Peer, limit: nat, prompt: Text)

  function Prefix(events: seq<Event>, out: seq<seq<byte>>, beats: seq<Beat>, o: Outcome): Outcome {
    Outcome(events + o.events, o.reason, out + o.out, beats + o.beats)
  }

  /** Write bytes as the w-th write; if that fails the session ends with the given events. */
  function Send(s: Setting, w: nat, bytes: Text, onFault: seq<Event>, next: Outcome): Outcome {
    if FaultAt(s.peer, w).Some? then Outcome(onFault, FaultAt(s.peer, w).value, [bytes], [Pause] + Notes(|onFault|))
    else Outcome(next.events, next.reason, [bytes] + next.out, [Pause] + next.beats)
  }

  /** The event of a login line and the password line after it, if there was one. */
  function Login(username: seq<byte>, password: Option<seq<byte>>): Event {
    TelnetLogin(Utf8.Lossy(username), if password.Some? then Some(Utf8.Lossy(password.value)) else None, false)
  }

  /** The stream ends with a line unfinished. */
  function Starved(s: Setting, line: seq<byte>, cr: bool, more: seq<Event>, heard: nat): Outcome {
    var cut := ClosedByClient(s.peer, s.limit) && (line != [] || cr);
    Outcome((if cut then [Notice("telnet_incomplete_line")] else []) + more, Exhausted(s.peer, s.limit), [],
            [Hear(heard)] + Ending(s.peer, s.limit) + Notes((if cut then 1 else 0) + |more|))
  }

  function LineTooLong(more: seq<Event>, heard: nat): Outcome {
    Outcome([Notice("telnet_line_too_long")] + more, ProtocolError, [], [Hear(heard)] + Notes(1 + |more|))
  }

  function Goodbye(s: Setting, w: nat): Outcome {
    Send(s, w, Ascii("Too many attempts. Disconnecting.\r\n"), [], Outcome([], ServerClosed, [], []))
  }

  /** The rest of a dialogue with n attempts left and w writes done, from framer f on bytes v. */
  function Attempts(n: nat, f: Framer, v: seq<byte>, w: nat, s: Setting): Outcome
    decreases n
  {
    if n == 0 then Goodbye(s, w)
    else
      Send(s, w, s.prompt, [],
           match NextLine(f, v)
           case Overlong(_, used) => LineTooLong([], used)
           case Hungry(g) => Starved(s, g.line, g.cr, [], |v|)
           case Line(user, g, used) =>
             Prefix([], [], [Hear(used)],
                    if user == [] then Attempts(n - 1, g, v[used..], w + 1, s)
                    else AskPassword(n, user, g, v[used..], w + 1, s)))
  }

  function AskPassword(n: nat, user: seq<byte>, f: Framer, v: seq<byte>, w: nat, s: Setting): Outcome
    requires n > 0
    decreases n, 0
  {
    Send(s, w, Ascii("Password: "), [Login(user, None)],
         match NextLine(f, v)
         case Overlong(_, used) => LineTooLong([Login(user, None)], used)
         case Hungry(g) => Starved(s, g.line, g.cr, [Login(user, None)], |v|)
         case Line(pass, g, used) =>
           Prefix([Login(user, Some(pass))], [], [Hear(used), Note],
                  Send(s, w + 1, Ascii("Login incorrect\r\n"), [], Attempts(n - 1, g, v[used..], w + 2, s))))
  }

  lemma {:induction false} FewNotes()
    ensures Notes(0) == [] && Notes(1) == [Note] && Notes(2) == [Note, Note]
  {
  }

  lemma {:induction false} AskPasswordCases(n: nat, user: seq<byte>, f: Framer, v: seq<byte>, w: nat, s: Setting)
    requires n > 0
    ensures var o, ask, no, half := AskPassword(n, user, f, v, w, s), Ascii("Password: "), Ascii("Login incorrect\r\n"),
                                    [Login(user, None)];
            if FaultAt(s.peer, w).Some? then o == Outcome(half, FaultAt(s.peer, w).value, [ask], [Pause] + [Note])
            else match NextLine(f, v)
            case Overlong(_, used) =>
              o == Outcome([Notice("telnet_line_too_long")] + half, ProtocolError, [ask],
                           [Pause] + ([Hear(used)] + [Note, Note]))
            case Hungry(g) =>
              var ending := [Hear(|v|)] + Ending(s.peer, s.limit);
              o == if ClosedByClient(s.peer, s.limit) && (g.line != [] || g.cr)
                   then Outcome([Notice("telnet_incomplete_line")] + half, Exhausted(s.peer, s.limit), [ask],
                                [Pause] + (ending + [Note, Note]))
                   else Outcome(half, Exhausted(s.peer, s.limit), [ask], [Pause] + (ending + [Note]))
            case Line(pass, g, used) =>
              var login := [Login(user, Some(pass))];
              if FaultAt(s.peer, w + 1).Some?
              then o == Outcome(login, FaultAt(s.peer, w + 1).value, [ask, no], [Pause, Hear(used), Note, Pause])
              else o == Prefix(login, [ask, no], [Pause, Hear(used), Note, Pause],
                               Attempts(n - 1, g, v[used..], w + 2, s))
  {
    hide NextLine, Ascii, ClosedByClient, Exhausted, Notes, Login;
    FewNotes();
    var half := [Login(user, None)];
    match NextLine(f, v)
    case Line(pass, g, used) =>
      var ask, no := Ascii("Password: "), Ascii("Login incorrect\r\n");
      var o := Attempts(n - 1, g, v[used..], w + 2, s);
      assert [ask] + ([] + ([no] + o.out)) == [ask, no] + o.out && [ask] + ([] + [no]) == [ask, no];
      assert [Login(user, Some(pass))] + [] == [Login(user, Some(pass))];
      assert [Pause] + ([Hear(used), Note] + ([Pause] + o.beats)) == [Pause, Hear(used), Note, Pause] + o.beats;
      assert [Pause] + ([Hear(used), Note] + ([Pause] + [])) == [Pause, Hear(used), Note, Pause];
    case _ => assert [] + half == half;
  }

  const START := Framer(InData, [], false)

  function BannerText(banner: Text): Text {
    if banner != [] && banner[|banner| - 1] == LF then banner else banner + [CR, LF]
  }

  /** The whole run: optional banner, then three attempts. Read sizes play no part in it. */
  function TelnetRun(banner: Option<Text>, s: Setting): Outcome {
    var v := Visible(s.peer, s.limit);
    if banner.None? then Attempts(MAX_ATTEMPTS, START, v, 0, s)
    else Send(s, 0, BannerText(banner.value), [], Attempts(MAX_ATTEMPTS, START, v, 1, s))
  }

  // ---------- Reference: decode, split, pair ----------

  /** The same dialogue on the lines of the fully decoded stream: every non-empty line taken as a
      username is paired with the line after it, an empty one uses up an attempt. */
  function Talk(n: nat, lines: seq<seq<byte>>, tail: Tail, w: nat, s: Setting): Outcome
    decreases n
  {
    if n == 0 then Goodbye(s, w)
    else
      Send(s, w, s.prompt, [],
           if lines == [] then Cut(tail, [], s)
           else if lines[0] == [] then Talk(n - 1, lines[1..], tail, w + 1, s)
           else TalkPassword(n, lines[0], lines[1..], tail, w + 1, s))
  }

  function TalkPassword(n: nat, user: seq<byte>, lines: seq<seq<byte>>, tail: Tail, w: nat, s: Setting): Outcome
    requires n > 0
    decreases n, 0
  {
    Send(s, w, Ascii("Password: "), [Login(user, None)],
         if lines == [] then Cut(tail, [Login(user, None)], s)
         else
           Prefix([Login(user, Some(lines[0]))], [], [],
                  Send(s, w + 1, Ascii("Login incorrect\r\n"), [], Talk(n - 1, lines[1..], tail, w + 2, s))))
  }

  function Cut(tail: Tail, more: seq<Event>, s: Setting): Outcome {
    match tail
    case Overrun => LineTooLong(more, 0)
    case Partial(line, cr) => Starved(s, line, cr, more, 0)
  }

  ghost predicate SameTalk(a: Outcome, b: Outcome) {
    a.events == b.events && a.reason == b.reason && a.out == b.out
  }

  lemma {:induction false} SamePrefix(events: seq<Event>, out: seq<seq<byte>>, beats: seq<Beat>, a: Outcome, b: Outcome)
    requires SameTalk(a, b)
    ensures SameTalk(Prefix(events, out, beats, a), Prefix(events, out, [], b))
  {
  }

  lemma {:induction false} SameSend(s: Setting, w: nat, bytes: Text, onFault: seq<Event>, a: Outcome, b: Outcome)
    requires SameTalk(a, b)
    ensures SameTalk(Send(s, w, bytes, onFault, a), Send(s, w, bytes, onFault, b))
  {
  }

  lemma {:induction false} PlainPrefix(beats: seq<Beat>, a: Outcome)
    ensures SameTalk(Prefix([], [], beats, a), a)
  {
    var none: seq<Event> := [];
    var quiet: seq<seq<byte>> := [];
    assert none + a.events == a.events && quiet + a.out == a.out;
  }

  lemma {:induction false} AttemptsAreTalk(n: nat, f: Framer, v: seq<byte>, w: nat, s: Setting)
    ensures SameTalk(Attempts(n, f, v, w, s), Talk(n, SplitFrom(f, v).lines, SplitFrom(f, v).tail, w, s))
    decreases n, 1
  {
    hide NextLine, SplitFrom, Send, Prefix;
    if n > 0 {
      NextLineSplits(f, v);
      match NextLine(f, v)
      case Overlong(_, used) => SameSend(s, w, s.prompt, [], LineTooLong([], used), LineTooLong([], 0));
      case Hungry(g) =>
        SameSend(s, w, s.prompt, [], Starved(s, g.line, g.cr, [], |v|), Starved(s, g.line, g.cr, [], 0));
      case Line(user, g, used) =>
        var rest := SplitFrom(g, v[used..]);
        assert SplitFrom(f, v).lines[1..] == rest.lines;
        if user == [] {
          AttemptsAreTalk(n - 1, g, v[used..], w + 1, s);
        } else {
          PasswordsAreTalk(n, user, g, v[used..], w + 1, s);
        }
        var o := if user == [] then Attempts(n - 1, g, v[used..], w + 1, s)
            else AskPassword(n, user, g, v[used..], w + 1, s);
        PlainPrefix([Hear(used)], o);
        SameSend(s, w, s.prompt, [], Prefix([], [], [Hear(used)], o),
                 if user == [] then Talk(n - 1, rest.lines, rest.tail, w + 1, s)
                 else TalkPassword(n, user, rest.lines, rest.tail, w + 1, s));
    }
  }

  lemma {:induction false} PasswordsAreTalk(n: nat, user: seq<byte>, f: Framer, v: seq<byte>, w: nat, s: Setting)
    requires n > 0
    ensures SameTalk(AskPassword(n, user, f, v, w, s),
                     TalkPassword(n, user, SplitFrom(f, v).lines, SplitFrom(f, v).tail, w, s))
    decreases n, 0
  {
    hide NextLine, SplitFrom, Send, Prefix;
    NextLineSplits(f, v);
    var ask, half := Ascii("Password: "), [Login(user, None)];
    match NextLine(f, v)
    case Overlong(_, used) => SameSend(s, w, ask, half, LineTooLong(half, used), LineTooLong(half, 0));
    case Hungry(g) =>
      SameSend(s, w, ask, half, Starved(s, g.line, g.cr, half, |v|), Starved(s, g.line, g.cr, half, 0));
    case Line(pass, g, used) =>
      var rest := SplitFrom(g, v[used..]);
      assert SplitFrom(f, v).lines[1..] == rest.lines;
      AttemptsAreTalk(n - 1, g, v[used..], w + 2, s);
      var a, b := Attempts(n - 1, g, v[used..], w + 2, s), Talk(n - 1, rest.lines, rest.tail, w + 2, s);
      SameSend(s, w + 1, Ascii("Login incorrect\r\n"), [], a, b);
      var a', b' := Send(s, w + 1, Ascii("Login incorrect\r\n"), [], a),
          Send(s, w + 1, Ascii("Login incorrect\r\n"), [], b);
      var login, beats := [Login(user, Some(pass))], [Hear(used), Note];
      SamePrefix(login, [], beats, a', b');
      SameSend(s, w, ask, half, Prefix(login, [], beats, a'), Prefix(login, [], [], b'));
  }

  /** The events, the close reason and the bytes sent are those of decoding the whole visible
      stream, splitting it into lines and pairing them up. */
  lemma TelnetIsDecodeSplitPair(banner: Option<Text>, s: Setting)
    ensures var split := NvtLines(Decode(InData, Visible(s.peer, s.limit)), []);
            SameTalk(TelnetRun(banner, s),
                     if banner.None? then Talk(MAX_ATTEMPTS, split.lines, split.tail, 0, s)
                     else Send(s, 0, BannerText(banner.value), [], Talk(MAX_ATTEMPTS, split.lines, split.tail, 1, s)))
  {
    var v := Visible(s.peer, s.limit);
    assert Unsplit(START, v) == Decode(InData, v);
    AttemptsAreTalk(MAX_ATTEMPTS, START, v, 0, s);
    AttemptsAreTalk(MAX_ATTEMPTS, START, v, 1, s);
  }

  // ---------- What a client that logs in leaves behind ----------

  datatype Attempted = Attempted(username: seq<byte>, password: seq<byte>)

  function LinesOf(tries: seq<Attempted>): seq<seq<byte>> {
    if tries == [] then [] else [tries[0].username, tries[0].password] + LinesOf(tries[1..])
  }

  function LoginsOf(tries: seq<Attempted>): seq<Event> {
    if tries == [] then [] else [Login(tries[0].username, Some(tries[0].password))] + LoginsOf(tries[1..])
  }

  ghost predicate NoFaults(p: Peer) {
    forall i: nat :: FaultAt(p, i).None?
  }

  lemma {:induction false} TalkOneTry(n: nat, user: seq<byte>, pass: seq<byte>, rest: seq<seq<byte>>, tail: Tail,
                                      w: nat, s: Setting)
    requires n > 0 && user != [] && NoFaults(s.peer)
    ensures Talk(n, [user, pass] + rest, tail, w, s).events
            == [Login(user, Some(pass))] + Talk(n - 1, rest, tail, w + 3, s).events
  {
    hide Ascii, Utf8.Lossy;
    var lines := [user, pass] + rest;
    assert lines[1..] == [pass] + rest && ([pass] + rest)[1..] == rest;
    assert Talk(n, lines, tail, w, s).events == TalkPassword(n, user, [pass] + rest, tail, w + 1, s).events;
  }

  lemma {:induction false} TalkOfNothing(n: nat, w: nat, s: Setting)
    requires NoFaults(s.peer)
    ensures Talk(n, [], Partial([], false), w, s).events == []
  {
    hide Ascii;
  }

  lemma {:induction false} TalkRecordsTries(n: nat, tries: seq<Attempted>, w: nat, s: Setting)
    requires |tries| <= n && NoFaults(s.peer) && forall t | t in tries :: t.username != []
    ensures Talk(n, LinesOf(tries), Partial([], false), w, s).events == LoginsOf(tries)
    decreases n
  {
    hide Talk, NoFaults;
    if tries == [] {
      TalkOfNothing(n, w, s);
    } else {
      assert tries[0] in tries;
      TalkOneTry(n, tries[0].username, tries[0].password, LinesOf(tries[1..]), Partial([], false), w, s);
      TalkRecordsTries(n - 1, tries[1..], w + 3, s);
    }
  }

  /** The logins as they were sent, with no decoding. */
  function LoginsAsSent(tries: seq<Attempted>): seq<Event> {
    if tries == [] then []
    else [TelnetLogin(tries[0].username, Some(tries[0].password), false)] + LoginsAsSent(tries[1..])
  }

  lemma {:induction false} ValidLoginsAsSent(tries: seq<Attempted>)
    requires forall t | t in tries :: Utf8.Valid(t.username) && Utf8.Valid(t.password)
    ensures LoginsOf(tries) == LoginsAsSent(tries)
  {
    hide Utf8.Valid, Utf8.Lossy;
    if tries != [] {
      assert tries[0] in tries;
      Utf8.LossyKeepsExactlyTheValid(tries[0].username);
      Utf8.LossyKeepsExactlyTheValid(tries[0].password);
      ValidLoginsAsSent(tries[1..]);
    }
  }

  /** A client that sends up to three usernames and passwords the way a Telnet client should, with
      any commands, negotiations and subnegotiations mixed in, is recorded with exactly those, decoded
      lossily; if they are UTF-8, with exactly what it sent. */
  lemma {:induction false} CredentialsAreRecorded(banner: Option<Text>, s: Setting, tries: seq<Attempted>,
                                                  units: seq<Unit>)
    requires |tries| <= MAX_ATTEMPTS && NoFaults(s.peer) && forall t | t in tries :: t.username != []
    requires Sendable(LinesOf(tries)) && ValidUnits(units) && DataOf(units) == Wire(LinesOf(tries))
    requires Visible(s.peer, s.limit) == Encode(units)
    ensures TelnetRun(banner, s).events == LoginsOf(tries)
    ensures (forall t | t in tries :: Utf8.Valid(t.username) && Utf8.Valid(t.password)) ==>
              TelnetRun(banner, s).events == LoginsAsSent(tries)
  {
    hide Ascii, Decode, Talk, Attempts, Utf8.Valid;
    LinesSurviveTheWire(LinesOf(tries), units);
    TelnetIsDecodeSplitPair(banner, s);
    TalkRecordsTries(MAX_ATTEMPTS, tries, 0, s);
    TalkRecordsTries(MAX_ATTEMPTS, tries, 1, s);
    if forall t | t in tries :: Utf8.Valid(t.username) && Utf8.Valid(t.password) {
      ValidLoginsAsSent(tries);
    }
  }

  // ---------- Bounds ----------

  /** A run that closes because the client did has processed everything, too. */
  ghost predicate Modest(o: Outcome, n: nat, len: nat, s: Setting) {
    Bounded(o, n, len, s.peer, s.limit) && (o.reason == ClientClosed ==> Heard(o.beats) == len)
  }

  lemma {:induction false} SendIsModest(s: Setting, w: nat, bytes: Text, onFault: seq<Event>, next: Outcome, n: nat,
                                        len: nat)
    requires Modest(next, n, len, s) && |onFault| <= n
    ensures Modest(Send(s, w, bytes, onFault, next), n, len, s)
  {
    hide Heard, Notes;
    HeardConcat([Pause], Notes(|onFault|));
    HeardConcat([Pause], next.beats);
    HeardBasics(|onFault|, 0);
  }

  lemma {:induction false} PrefixIsModest(s: Setting, events: seq<Event>, used: nat, noted: seq<Beat>, o: Outcome,
                                          n: nat, len: nat)
    requires used <= len && |events| <= n && Modest(o, n - |events|, len - used, s)
    requires noted == [Hear(used)] || noted == [Hear(used), Note]
    ensures Modest(Prefix(events, [], noted, o), n, len, s)
  {
    hide Heard;
    HeardConcat(noted, o.beats);
    HeardBasics(0, used);
    HeardConcat([Hear(used)], [Note]);
    assert [Hear(used)] + [Note] == [Hear(used), Note];
  }

  lemma {:induction false} CutsAreModest(s: Setting, line: seq<byte>, cr: bool, more: seq<Event>, used: nat, len: nat,
                                         n: nat)
    requires 1 + |more| <= n && used <= len
    ensures Modest(Starved(s, line, cr, more, len), n, len, s) && Modest(LineTooLong(more, used), n, len, s)
  {
    hide Heard, Notes;
    var k := (if ClosedByClient(s.peer, s.limit) && (line != [] || cr) then 1 else 0) + |more|;
    HeardEnding(s.peer, s.limit, [], len);
    assert [] + [Hear(len)] + Ending(s.peer, s.limit) == [Hear(len)] + Ending(s.peer, s.limit);
    HeardConcat([Hear(len)] + Ending(s.peer, s.limit), Notes(k));
    HeardConcat([Hear(used)], Notes(1 + |more|));
    HeardBasics(k, used);
    HeardBasics(1 + |more|, used);
  }

  lemma {:induction false} GoodbyeIsModest(s: Setting, w: nat, n: nat, len: nat)
    ensures Modest(Goodbye(s, w), n, len, s)
  {
    SendIsModest(s, w, Ascii("Too many attempts. Disconnecting.\r\n"), [], Outcome([], ServerClosed, [], []), n, len);
  }

  /** n attempts record at most n logins and one notice. */
  lemma {:induction false} AttemptsAreBounded(n: nat, f: Framer, v: seq<byte>, w: nat, s: Setting)
    ensures Modest(Attempts(n, f, v, w, s), n + 1, |v|, s)
    decreases n, 1
  {
    hide NextLine, Modest, Ascii, Send, Prefix, Starved, LineTooLong, Goodbye;
    if n == 0 {
      GoodbyeIsModest(s, w, 1, |v|);
    } else {
      match NextLine(f, v)
      case Overlong(_, used) =>
        CutsAreModest(s, [], false, [], used, |v|, n + 1);
        SendIsModest(s, w, s.prompt, [], LineTooLong([], used), n + 1, |v|);
      case Hungry(g) =>
        CutsAreModest(s, g.line, g.cr, [], 0, |v|, n + 1);
        SendIsModest(s, w, s.prompt, [], Starved(s, g.line, g.cr, [], |v|), n + 1, |v|);
      case Line(user, g, used) =>
        var o := if user == [] then Attempts(n - 1, g, v[used..], w + 1, s)
            else AskPassword(n, user, g, v[used..], w + 1, s);
        if user == [] {
          AttemptsAreBounded(n - 1, g, v[used..], w + 1, s);
          MoreIsModest(o, n, n + 1, |v| - used, s);
        } else {
          PasswordsAreBounded(n, user, g, v[used..], w + 1, s);
        }
        PrefixIsModest(s, [], used, [Hear(used)], o, n + 1, |v|);
        SendIsModest(s, w, s.prompt, [], Prefix([], [], [Hear(used)], o), n + 1, |v|);
    }
  }

  lemma {:induction false} MoreIsModest(o: Outcome, n: nat, m: nat, len: nat, s: Setting)
    requires Modest(o, n, len, s) && n <= m
    ensures Modest(o, m, len, s)
  {
  }

  lemma {:induction false} PasswordsAreBounded(n: nat, user: seq<byte>, f: Framer, v: seq<byte>, w: nat, s: Setting)
    requires n > 0
    ensures Modest(AskPassword(n, user, f, v, w, s), n + 1, |v|, s)
    decreases n, 0
  {
    hide NextLine, Modest, Ascii, Send, Prefix, Starved, LineTooLong, Login;
    var ask, half := Ascii("Password: "), [Login(user, None)];
    match NextLine(f, v)
    case Overlong(_, used) =>
      CutsAreModest(s, [], false, half, used, |v|, n + 1);
      SendIsModest(s, w, ask, half, LineTooLong(half, used), n + 1, |v|);
    case Hungry(g) =>
      CutsAreModest(s, g.line, g.cr, half, 0, |v|, n + 1);
      SendIsModest(s, w, ask, half, Starved(s, g.line, g.cr, half, |v|), n + 1, |v|);
    case Line(pass, g, used) =>
      var login, o := [Login(user, Some(pass))], Attempts(n - 1, g, v[used..], w + 2, s);
      AttemptsAreBounded(n - 1, g, v[used..], w + 2, s);
      SendIsModest(s, w + 1, Ascii("Login incorrect\r\n"), [], o, n, |v| - used);
      var next := Send(s, w + 1, Ascii("Login incorrect\r\n"), [], o);
      PrefixIsModest(s, login, used, [Hear(used), Note], next, n + 1, |v|);
      SendIsModest(s, w, ask, half, Prefix(login, [], [Hear(used), Note], next), n + 1, |v|);
  }

  // ---------- Minimisation ----------

  /** A data byte that neither ends a line nor plays a part in the protocol. */
  predicate Ordinary(b: byte) {
    b != CR && b != LF && b != NUL && b != IAC
  }

  /** Two streams that differ only in ordinary bytes at positions where the decoder expects data. */
  predicate SameShape(d: DecodeState, a: seq<byte>, b: seq<byte>)
    decreases |a|
  {
    && |a| == |b|
    && (a == []
        || ((a[0] == b[0] || (d == InData && Ordinary(a[0]) && Ordinary(b[0])))
            && SameShape(Feed(d, a[0]).0, a[1..], b[1..])))
  }

  predicate SimilarFramers(f: Framer, g: Framer) {
    f.dec == g.dec && f.cr == g.cr && |f.line| == |g.line|
  }

  /** Two scans that differ only in the contents of lines, not their lengths. */
  ghost predicate SimilarScans(s: Scan, t: Scan, a: seq<byte>, b: seq<byte>) {
    match s
    case Line(l, f, used) =>
      t.Line? && |l| == |t.line| && SimilarFramers(f, t.f) && used == t.used
      && used <= |a| && used <= |b| && SameShape(f.dec, a[used..], b[used..])
    case Overlong(f, used) => t.Overlong? && used == t.used
    case Hungry(f) => t.Hungry? && SimilarFramers(f, t.f)
  }

  lemma {:induction false} SimilarBytes(f: Framer, g: Framer, x: byte, y: byte)
    requires SimilarFramers(f, g) && (x == y || (f.dec == InData && Ordinary(x) && Ordinary(y)))
    ensures Feed(f.dec, x).0 == Feed(g.dec, y).0
    ensures match FrameByte(f, x)
            case More(f') => FrameByte(g, y).More? && SimilarFramers(f', FrameByte(g, y).f)
                && f'.dec == Feed(f.dec, x).0
            case Ended(l, f') => FrameByte(g, y).Ended? && |l| == |FrameByte(g, y).line|
                                 && SimilarFramers(f', FrameByte(g, y).f) && f'.dec == Feed(f.dec, x).0
            case TooLong(_) => FrameByte(g, y).TooLong?
  {
  }

  lemma {:induction false} SimilarNextLines(f: Framer, g: Framer, a: seq<byte>, b: seq<byte>)
    requires SimilarFramers(f, g) && SameShape(f.dec, a, b)
    ensures SimilarScans(NextLine(f, a), NextLine(g, b), a, b)
    decreases |a|
  {
    if a != [] {
      SimilarBytes(f, g, a[0], b[0]);
      hide Feed, FrameByte;
      match FrameByte(f, a[0])
      case More(f') =>
        var g' := FrameByte(g, b[0]).f;
        SimilarNextLines(f', g', a[1..], b[1..]);
        var s, t := NextLine(f', a[1..]), NextLine(g', b[1..]);
        if s.Line? {
          assert a[1..][s.used..] == a[s.used + 1..] && b[1..][s.used..] == b[s.used + 1..];
        }
      case _ =>
    }
  }

  lemma {:induction false} StoredPrefix(p: Privacy, e1: seq<Event>, e2: seq<Event>, out: seq<seq<byte>>,
                                        beats: seq<Beat>,
                                        a: Outcome, b: Outcome)
    requires StoredAll(p, e1) == StoredAll(p, e2) && SameRecord(p, a, b)
    ensures SameRecord(p, Prefix(e1, out, beats, a), Prefix(e2, out, beats, b))
  {
    assert StoredAll(p, e1 + a.events) == StoredAll(p, e1) + StoredAll(p, a.events);
    assert StoredAll(p, e2 + b.events) == StoredAll(p, e2) + StoredAll(p, b.events);
  }

  lemma {:induction false} SimilarSends(p: Privacy, s: Setting, t: Setting, w: nat, bytes: Text,
                                        e1: seq<Event>, e2: seq<Event>, a: Outcome, b: Outcome)
    requires s.peer.faults == t.peer.faults && |e1| == |e2| && StoredAll(p, e1) == StoredAll(p, e2)
             && SameRecord(p, a, b)
    ensures SameRecord(p, Send(s, w, bytes, e1, a), Send(t, w, bytes, e2, b))
  {
  }

  /** The settings of two sessions that agree in everything but the bytes themselves. */
  predicate SameSetting(s: Setting, t: Setting) {
    && s.limit == t.limit && s.prompt == t.prompt
    && SamePeer(s.peer, t.peer)
  }

  lemma {:induction false} LoginsStoredAlike(p: Privacy, u1: seq<byte>, u2: seq<byte>, p1: Option<seq<byte>>,
                                             p2: Option<seq<byte>>)
    requires p.mode == Metadata && p1.Some? == p2.Some?
    ensures StoredAll(p, [Login(u1, p1)]) == StoredAll(p, [Login(u2, p2)])
    ensures forall n: Event :: StoredAll(p, [n] + [Login(u1, p1)]) == StoredAll(p, [n] + [Login(u2, p2)])
    ensures StoredAll(p, [] + [Login(u1, p1)]) == StoredAll(p, [] + [Login(u2, p2)])
  {
    hide Utf8.Lossy, Redacted;
  }

  lemma {:induction false} SimilarCuts(p: Privacy, s: Setting, t: Setting, x: Framer, y: Framer,
                                       e1: seq<Event>, e2: seq<Event>, used: nat)
    requires SameSetting(s, t) && SimilarFramers(x, y) && |e1| == |e2|
    requires forall n: Event :: StoredAll(p, [n] + e1) == StoredAll(p, [n] + e2)
    requires StoredAll(p, [] + e1) == StoredAll(p, [] + e2)
    ensures SameRecord(p, Starved(s, x.line, x.cr, e1, used), Starved(t, y.line, y.cr, e2, used))
    ensures SameRecord(p, LineTooLong(e1, used), LineTooLong(e2, used))
  {
    hide StoredAll, Notes;
  }

  lemma {:induction false} SimilarAttempts(p: Privacy, n: nat, f: Framer, g: Framer, a: seq<byte>, b: seq<byte>,
                                           w: nat, s: Setting, t: Setting)
    requires p.mode == Metadata && SameSetting(s, t) && SimilarFramers(f, g) && SameShape(f.dec, a, b)
    ensures SameRecord(p, Attempts(n, f, a, w, s), Attempts(n, g, b, w, t))
    decreases n, 1
  {
    hide NextLine, SameShape, Login, Ascii, SameRecord, Send, Prefix, Starved, LineTooLong, StoredAll;
    if n > 0 {
      SimilarNextLines(f, g, a, b);
      assert |a| == |b| by {
        ShapesHaveOneLength(f.dec, a, b);
      }
      match NextLine(f, a)
      case Overlong(_, used) =>
        SimilarCuts(p, s, t, f, g, [], [], used);
        SimilarSends(p, s, t, w, s.prompt, [], [], LineTooLong([], used), LineTooLong([], used));
      case Hungry(f') =>
        var g' := NextLine(g, b).f;
        SimilarCuts(p, s, t, f', g', [], [], |a|);
        SimilarSends(p, s, t, w, s.prompt, [], [], Starved(s, f'.line, f'.cr, [], |a|),
                     Starved(t, g'.line, g'.cr, [], |b|));
      case Line(u1, f', used) =>
        var u2, g' := NextLine(g, b).line, NextLine(g, b).f;
        if u1 == [] {
          SimilarAttempts(p, n - 1, f', g', a[used..], b[used..], w + 1, s, t);
        } else {
          SimilarPasswords(p, n, u1, u2, f', g', a[used..], b[used..], w + 1, s, t);
        }
        var o1 := if u1 == [] then Attempts(n - 1, f', a[used..], w + 1, s)
            else AskPassword(n, u1, f', a[used..], w + 1, s);
        var o2 := if u2 == [] then Attempts(n - 1, g', b[used..], w + 1, t)
            else AskPassword(n, u2, g', b[used..], w + 1, t);
        StoredPrefix(p, [], [], [], [Hear(used)], o1, o2);
        SimilarSends(p, s, t, w, s.prompt, [], [], Prefix([], [], [Hear(used)], o1), Prefix([], [], [Hear(used)], o2));
    } else {
      SimilarEnds(p);
      SimilarSends(p, s, t, w, Ascii("Too many attempts. Disconnecting.\r\n"), [], [],
                   Outcome([], ServerClosed, [], []), Outcome([], ServerClosed, [], []));
    }
  }

  lemma {:induction false} SimilarEnds(p: Privacy)
    ensures SameRecord(p, Outcome([], ServerClosed, [], []), Outcome([], ServerClosed, [], []))
  {
  }

  lemma {:induction false} ShapesHaveOneLength(d: DecodeState, a: seq<byte>, b: seq<byte>)
    requires SameShape(d, a, b)
    ensures |a| == |b|
  {
  }

  lemma {:induction false} SimilarPasswords(p: Privacy, n: nat, u1: seq<byte>, u2: seq<byte>, f: Framer, g: Framer,
                                            a: seq<byte>, b: seq<byte>, w: nat, s: Setting, t: Setting)
    requires n > 0 && p.mode == Metadata && SameSetting(s, t) && SimilarFramers(f, g) && SameShape(f.dec, a, b)
    ensures SameRecord(p, AskPassword(n, u1, f, a, w, s), AskPassword(n, u2, g, b, w, t))
    decreases n, 0
  {
    hide NextLine, SameShape, Login, Ascii, SameRecord, Send, Prefix, Starved, LineTooLong, StoredAll;
    SimilarNextLines(f, g, a, b);
    ShapesHaveOneLength(f.dec, a, b);
    LoginsStoredAlike(p, u1, u2, None, None);
    var ask := Ascii("Password: ");
    match NextLine(f, a)
    case Overlong(_, used) =>
      SimilarCuts(p, s, t, f, g, [Login(u1, None)], [Login(u2, None)], used);
      SimilarSends(p, s, t, w, ask, [Login(u1, None)], [Login(u2, None)],
                   LineTooLong([Login(u1, None)], used), LineTooLong([Login(u2, None)], used));
    case Hungry(f') =>
      var g' := NextLine(g, b).f;
      SimilarCuts(p, s, t, f', g', [Login(u1, None)], [Login(u2, None)], |a|);
      SimilarSends(p, s, t, w, ask, [Login(u1, None)], [Login(u2, None)],
                   Starved(s, f'.line, f'.cr, [Login(u1, None)], |a|),
                       Starved(t, g'.line, g'.cr, [Login(u2, None)], |b|));
    case Line(p1, f', used) =>
      var p2, g' := NextLine(g, b).line, NextLine(g, b).f;
      LoginsStoredAlike(p, u1, u2, Some(p1), Some(p2));
      SimilarAttempts(p, n - 1, f', g', a[used..], b[used..], w + 2, s, t);
      var o1, o2 := Attempts(n - 1, f', a[used..], w + 2, s), Attempts(n - 1, g', b[used..], w + 2, t);
      SimilarSends(p, s, t, w + 1, Ascii("Login incorrect\r\n"), [], [], o1, o2);
      var r1, r2 := Send(s, w + 1, Ascii("Login incorrect\r\n"), [], o1),
          Send(t, w + 1, Ascii("Login incorrect\r\n"), [], o2);
      StoredPrefix(p, [Login(u1, Some(p1))], [Login(u2, Some(p2))], [], [Hear(used), Note], r1, r2);
      SimilarSends(p, s, t, w, ask, [Login(u1, None)], [Login(u2, None)],
                   Prefix([Login(u1, Some(p1))], [], [Hear(used), Note], r1),
                   Prefix([Login(u2, Some(p2))], [], [Hear(used), Note], r2));
  }
}
