/** What every Telnet session records, answers and closes with, from the lines its client sent: complete
    tries, half-finished logins, lines cut short or too long, and failing writes
    (src/protocols/telnet.rs). */
module TelnetOutcomes {
  import opened Bytes
  import opened Session
  import opened TelnetCodec
  import opened TelnetDialogue
  import Utf8

  /** An attempt the client completed: an empty username line, or a username and a password line. */
  datatype Try = Skipped | Tried(username: seq<byte>, password: seq<byte>)

  predicate Named(tries: seq<Try>) {
    forall t | t in tries :: t.Tried? ==> t.username != []
  }

  function LinesSent(tries: seq<Try>): seq<seq<byte>> {
    if tries == [] then []
    else (if tries[0].Tried? then [tries[0].username, tries[0].password] else [[]]) + LinesSent(tries[1..])
  }

  /** The events of complete tries. */
  function Logins(tries: seq<Try>): seq<Event> {
    if tries == [] then []
    else
      (if tries[0].Tried?
       then [TelnetLogin(Utf8.Lossy(tries[0].username), Some(Utf8.Lossy(tries[0].password)), false)] else [])
      + Logins(tries[1..])
  }

  /** What they were answered. */
  function Answers(prompt: Text, tries: seq<Try>): seq<seq<byte>> {
    if tries == [] then []
    else
      (if tries[0].Tried? then [prompt, Ascii("Password: "), Ascii("Login incorrect\r\n")] else [prompt])
      + Answers(prompt, tries[1..])
  }

  /** The notice about an unfinished line, if one is due: the line was too long, or the client closed in the
      middle of it. */
  ghost predicate TailNotice(s: Setting, tail: Tail, notices: seq<Event>) {
    match tail
    case Overrun => notices == [Notice("telnet_line_too_long")]
    case Partial(line, cr) =>
      notices == if (line != [] || cr) && |s.peer.stream| < s.limit && s.peer.end == Eof
                 then [Notice("telnet_incomplete_line")] else []
  }

  ghost predicate TailReason(s: Setting, tail: Tail, reason: CloseReason) {
    if tail.Overrun? then reason == ProtocolError else RanOut(s.peer, s.limit, reason)
  }

  // ---------- The reference dialogue, try by try ----------

  lemma {:induction false} TalkSkips(n: nat, lines: seq<seq<byte>>, tail: Tail, w: nat, s: Setting)
    requires n > 0 && WritesWork(s.peer, w + 1)
    ensures SameTalk(Talk(n, [[]] + lines, tail, w, s), Prefix([], [s.prompt], [], Talk(n - 1, lines, tail, w + 1, s)))
  {
    FaultMeans(s.peer, w);
    assert ([[]] + lines)[1..] == lines;
    var none: seq<Event> := [];
    assert forall e: seq<Event> :: none + e == e;
  }

  lemma {:induction false} TalkTries(n: nat, user: seq<byte>, pass: seq<byte>, lines: seq<seq<byte>>, tail: Tail,
                                     w: nat, s: Setting)
    requires n > 0 && user != [] && WritesWork(s.peer, w + 3)
    ensures SameTalk(Talk(n, [user, pass] + lines, tail, w, s),
                     Prefix([TelnetLogin(Utf8.Lossy(user), Some(Utf8.Lossy(pass)), false)],
                            [s.prompt, Ascii("Password: "), Ascii("Login incorrect\r\n")], [],
                            Talk(n - 1, lines, tail, w + 3, s)))
  {
    hide Ascii, Utf8.Lossy;
    FaultMeans(s.peer, w);
    FaultMeans(s.peer, w + 1);
    FaultMeans(s.peer, w + 2);
    var all := [user, pass] + lines;
    assert all[1..] == [pass] + lines && ([pass] + lines)[1..] == lines;
    var o, half := Talk(n - 1, lines, tail, w + 3, s), TalkPassword(n, user, [pass] + lines, tail, w + 1, s);
    assert half.out == [Ascii("Password: ")] + ([] + ([Ascii("Login incorrect\r\n")] + o.out));
    assert Talk(n, all, tail, w, s).out == [s.prompt] + half.out;
  }

  /** Complete tries leave their logins and answers, and the dialogue goes on after them. */
  lemma {:induction false} TalkGoesOn(n: nat, tries: seq<Try>, lines: seq<seq<byte>>, tail: Tail, w: nat, s: Setting)
    requires |tries| <= n && Named(tries) && WritesWork(s.peer, w + |Answers(s.prompt, tries)|)
    ensures SameTalk(Talk(n, LinesSent(tries) + lines, tail, w, s),
                     Prefix(Logins(tries), Answers(s.prompt, tries), [],
                            Talk(n - |tries|, lines, tail, w + |Answers(s.prompt, tries)|, s)))
    decreases |tries|
  {
    hide Talk, Ascii, Utf8.Lossy, WritesWork, SameTalk, Prefix;
    if tries == [] {
      assert LinesSent(tries) + lines == lines;
      NothingBefore(Talk(n, lines, tail, w, s));
    } else {
      var t, rest := tries[0], tries[1..];
      var e, out := Logins([t]), Answers(s.prompt, [t]);
      var more, a := LinesSent(rest) + lines, Answers(s.prompt, rest);
      FirstTry(s.prompt, tries);
      assert LinesSent(tries) + lines == LinesSent([t]) + more;
      WritesMore(s.peer, w + |out|, w + |out| + |a|);
      TalkOne(n, t, more, tail, w, s);
      TalkGoesOn(n - 1, rest, lines, tail, w + |out|, s);
      assert n - 1 - |rest| == n - |tries| && w + |out| + |a| == w + |Answers(s.prompt, tries)|;
      OnePrefix(Talk(n, LinesSent(tries) + lines, tail, w, s), e, out, Logins(rest), a,
                Talk(n - 1, more, tail, w + |out|, s), Talk(n - |tries|, lines, tail, w + |out| + |a|, s));
    }
  }

  lemma {:induction false} NothingBefore(o: Outcome)
    ensures SameTalk(o, Prefix([], [], [], o))
  {
    PlainPrefix([], o);
  }

  lemma {:induction false} FirstTry(prompt: Text, tries: seq<Try>)
    requires tries != []
    ensures Logins(tries) == Logins([tries[0]]) + Logins(tries[1..])
    ensures Answers(prompt, tries) == Answers(prompt, [tries[0]]) + Answers(prompt, tries[1..])
    ensures LinesSent(tries) == LinesSent([tries[0]]) + LinesSent(tries[1..])
    ensures Named(tries) ==> Named([tries[0]]) && Named(tries[1..])
  {
    hide Logins, Answers, LinesSent;
    FirstLogin(tries);
    FirstAnswers(prompt, tries);
    FirstLines(tries);
  }

  lemma {:induction false} FirstLogin(tries: seq<Try>)
    requires tries != []
    ensures Logins(tries) == Logins([tries[0]]) + Logins(tries[1..])
  {
    hide Utf8.Lossy;
    assert [tries[0]][1..] == [];
  }

  lemma {:induction false} FirstAnswers(prompt: Text, tries: seq<Try>)
    requires tries != []
    ensures Answers(prompt, tries) == Answers(prompt, [tries[0]]) + Answers(prompt, tries[1..])
  {
    hide Ascii;
    assert [tries[0]][1..] == [];
  }

  lemma {:induction false} FirstLines(tries: seq<Try>)
    requires tries != []
    ensures LinesSent(tries) == LinesSent([tries[0]]) + LinesSent(tries[1..])
  {
    assert [tries[0]][1..] == [];
  }

  lemma {:induction false} TalkOne(n: nat, t: Try, lines: seq<seq<byte>>, tail: Tail, w: nat, s: Setting)
    requires n > 0 && Named([t]) && WritesWork(s.peer, w + |Answers(s.prompt, [t])|)
    ensures SameTalk(Talk(n, LinesSent([t]) + lines, tail, w, s),
                     Prefix(Logins([t]), Answers(s.prompt, [t]), [],
                            Talk(n - 1, lines, tail, w + |Answers(s.prompt, [t])|, s)))
  {
    hide Talk, Ascii, Utf8.Lossy, WritesWork, SameTalk, Prefix;
    assert [t][1..] == [] && t in [t];
    if t.Tried? {
      TalkTries(n, t.username, t.password, lines, tail, w, s);
      assert LinesSent([t]) == [t.username, t.password];
      assert Logins([t]) == [TelnetLogin(Utf8.Lossy(t.username), Some(Utf8.Lossy(t.password)), false)];
      assert Answers(s.prompt, [t]) == [s.prompt, Ascii("Password: "), Ascii("Login incorrect\r\n")];
    } else {
      TalkSkips(n, lines, tail, w, s);
      assert LinesSent([t]) == [[]] && Logins([t]) == [] && Answers(s.prompt, [t]) == [s.prompt];
    }
  }

  lemma {:induction false} OnePrefix(all: Outcome, e: seq<Event>, out: seq<seq<byte>>, f: seq<Event>,
                                     more: seq<seq<byte>>, x: Outcome, o: Outcome)
    requires SameTalk(all, Prefix(e, out, [], x)) && SameTalk(x, Prefix(f, more, [], o))
    ensures SameTalk(all, Prefix(e + f, out + more, [], o))
  {
  }

  lemma {:induction false} WritesMore(p: Peer, w: nat, more: nat)
    requires w <= more && WritesWork(p, more)
    ensures WritesWork(p, w)
  {
  }

  // ---------- How a dialogue ends ----------

  /** The prompt that starts another attempt, or the goodbye after the last. */
  function NextPrompt(n: nat, prompt: Text): Text {
    if n == 0 then Ascii("Too many attempts. Disconnecting.\r\n") else prompt
  }

  lemma {:induction false} TalkAtFault(n: nat, lines: seq<seq<byte>>, tail: Tail, w: nat, s: Setting,
                                       reason: CloseReason)
    requires Fails(s.peer, w, reason)
    ensures var o := Talk(n, lines, tail, w, s);
            o.events == [] && o.reason == reason && o.out == [NextPrompt(n, s.prompt)]
  {
    hide Ascii;
    FaultMeans(s.peer, w);
  }

  lemma {:induction false} TalkAtEnd(lines: seq<seq<byte>>, tail: Tail, w: nat, s: Setting)
    requires WritesWork(s.peer, w + 1)
    ensures var o := Talk(0, lines, tail, w, s);
            o.events == [] && o.reason == ServerClosed && o.out == [Ascii("Too many attempts. Disconnecting.\r\n")]
  {
    hide Ascii;
    FaultMeans(s.peer, w);
  }

  lemma {:induction false} CutMeans(tail: Tail, more: seq<Event>, s: Setting, notices: seq<Event>)
    requires TailNotice(s, tail, notices)
    ensures var o := Cut(tail, more, s); o.events == notices + more && TailReason(s, tail, o.reason) && o.out == []
  {
  }

  lemma {:induction false} TalkAtUsername(n: nat, tail: Tail, w: nat, s: Setting, notices: seq<Event>)
    requires n > 0 && WritesWork(s.peer, w + 1) && TailNotice(s, tail, notices)
    ensures var o := Talk(n, [], tail, w, s);
            o.events == notices && TailReason(s, tail, o.reason) && o.out == [s.prompt]
  {
    hide Cut, TailReason;
    FaultMeans(s.peer, w);
    CutMeans(tail, [], s, notices);
  }

  /** The username came and the password did not. */
  lemma {:induction false} TalkAtPassword(n: nat, user: seq<byte>, tail: Tail, w: nat, s: Setting, notices: seq<Event>)
    requires n > 0 && user != [] && WritesWork(s.peer, w + 2) && TailNotice(s, tail, notices)
    ensures var o := Talk(n, [user], tail, w, s);
            && o.events == notices + [TelnetLogin(Utf8.Lossy(user), None, false)] && TailReason(s, tail, o.reason)
            && o.out == [s.prompt, Ascii("Password: ")]
  {
    hide Cut, TailReason, Ascii, Utf8.Lossy;
    FaultMeans(s.peer, w);
    FaultMeans(s.peer, w + 1);
    CutMeans(tail, [Login(user, None)], s, notices);
    assert [user][1..] == [];
  }

  lemma {:induction false} TalkUnasked(n: nat, user: seq<byte>, lines: seq<seq<byte>>, tail: Tail, w: nat, s: Setting,
                                       reason: CloseReason)
    requires n > 0 && user != [] && WritesWork(s.peer, w + 1) && Fails(s.peer, w + 1, reason)
    ensures var o := Talk(n, [user] + lines, tail, w, s);
            && o.events == [TelnetLogin(Utf8.Lossy(user), None, false)] && o.reason == reason
            && o.out == [s.prompt, Ascii("Password: ")]
  {
    hide Ascii, Utf8.Lossy;
    FaultMeans(s.peer, w);
    FaultMeans(s.peer, w + 1);
    assert ([user] + lines)[1..] == lines;
  }

  lemma {:induction false} TalkUnanswered(n: nat, user: seq<byte>, pass: seq<byte>, lines: seq<seq<byte>>, tail: Tail,
                                          w: nat, s: Setting, reason: CloseReason)
    requires n > 0 && user != [] && WritesWork(s.peer, w + 2) && Fails(s.peer, w + 2, reason)
    ensures var o := Talk(n, [user, pass] + lines, tail, w, s);
            && o.events == [TelnetLogin(Utf8.Lossy(user), Some(Utf8.Lossy(pass)), false)] && o.reason == reason
            && o.out == [s.prompt, Ascii("Password: "), Ascii("Login incorrect\r\n")]
  {
    hide Ascii, Utf8.Lossy;
    FaultMeans(s.peer, w);
    FaultMeans(s.peer, w + 1);
    FaultMeans(s.peer, w + 2);
    var all := [user, pass] + lines;
    assert all[1..] == [pass] + lines && ([pass] + lines)[1..] == lines;
  }

  // ---------- Whole sessions ----------

  /** What is sent before the first prompt: the banner, if there is one, with a line end. */
  ghost predicate Greets(banner: Option<Text>, greeting: seq<Text>) {
    match banner
    case None => greeting == []
    case Some(b) => greeting == [if b != [] && b[|b| - 1] == LF then b else b + [CR, LF]]
  }

  /** The lines of the visible stream, decoded: complete tries and what follows them. */
  ghost predicate Sends(s: Setting, tries: seq<Try>, rest: seq<seq<byte>>, tail: Tail) {
    && |tries| <= MAX_ATTEMPTS && Named(tries)
    && NvtLines(Decode(InData, Visible(s.peer, s.limit)), []) == Split(LinesSent(tries) + rest, tail)
  }

  lemma {:induction false} RunGoesOn(banner: Option<Text>, s: Setting, greeting: seq<Text>, tries: seq<Try>,
                                     rest: seq<seq<byte>>, tail: Tail)
    requires Greets(banner, greeting) && Sends(s, tries, rest, tail)
    requires WritesWork(s.peer, |greeting| + |Answers(s.prompt, tries)|)
    ensures var answered := greeting + Answers(s.prompt, tries);
            SameTalk(TelnetRun(banner, s),
                     Prefix(Logins(tries), answered, [],
                            Talk(MAX_ATTEMPTS - |tries|, rest, tail, |answered|, s)))
  {
    hide Talk, Ascii, Utf8.Lossy, NvtLines, Decode, Attempts, Visible;
    TelnetIsDecodeSplitPair(banner, s);
    var w, a := |greeting|, Answers(s.prompt, tries);
    TalkGoesOn(MAX_ATTEMPTS, tries, rest, tail, w, s);
    var o := Talk(MAX_ATTEMPTS - |tries|, rest, tail, w + |a|, s);
    if banner.Some? {
      WritesMore(s.peer, 1, w + |a|);
      FaultMeans(s.peer, 0);
      assert [BannerText(banner.value)] + (a + o.out) == (greeting + a) + o.out;
    } else {
      assert greeting + a == a;
    }
  }

  /** Three tries and the goodbye. */
  lemma {:induction false} ThreeTries(banner: Option<Text>, s: Setting, greeting: seq<Text>, tries: seq<Try>,
                                      rest: seq<seq<byte>>, tail: Tail)
    requires Greets(banner, greeting) && Sends(s, tries, rest, tail) && |tries| == 3
    requires WritesWork(s.peer, |greeting| + |Answers(s.prompt, tries)| + 1)
    ensures var o := TelnetRun(banner, s);
            && o.events == Logins(tries) && o.reason == ServerClosed
            && o.out == greeting + Answers(s.prompt, tries) + [Ascii("Too many attempts. Disconnecting.\r\n")]
  {
    hide Talk, Ascii, TelnetRun, Sends, Answers;
    RunGoesOn(banner, s, greeting, tries, rest, tail);
    TalkAtEnd(rest, tail, |greeting| + |Answers(s.prompt, tries)|, s);
  }

  /** The client is gone, silent or out of budget, or its line too long, where a username was due. */
  lemma {:induction false} StopsAtUsername(banner: Option<Text>, s: Setting, greeting: seq<Text>, tries: seq<Try>,
                                           tail: Tail, notices: seq<Event>)
    requires Greets(banner, greeting) && Sends(s, tries, [], tail) && |tries| < 3 && TailNotice(s, tail, notices)
    requires WritesWork(s.peer, |greeting| + |Answers(s.prompt, tries)| + 1)
    ensures var o := TelnetRun(banner, s);
            && o.events == Logins(tries) + notices && TailReason(s, tail, o.reason)
            && o.out == greeting + Answers(s.prompt, tries) + [s.prompt]
  {
    hide Talk, Ascii, TelnetRun, Sends, Answers, TailNotice, TailReason;
    RunGoesOn(banner, s, greeting, tries, [], tail);
    TalkAtUsername(3 - |tries|, tail, |greeting| + |Answers(s.prompt, tries)|, s, notices);
  }

  /** Or where a password was due: the login is recorded with no password, after the notice. */
  lemma {:induction false} StopsAtPassword(banner: Option<Text>, s: Setting, greeting: seq<Text>, tries: seq<Try>,
                                           user: seq<byte>, tail: Tail, notices: seq<Event>)
    requires Greets(banner, greeting) && Sends(s, tries, [user], tail) && |tries| < 3 && user != []
    requires WritesWork(s.peer, |greeting| + |Answers(s.prompt, tries)| + 2) && TailNotice(s, tail, notices)
    ensures var o := TelnetRun(banner, s);
            && o.events == Logins(tries) + (notices + [TelnetLogin(Utf8.Lossy(user), None, false)])
            && TailReason(s, tail, o.reason)
            && o.out == greeting + Answers(s.prompt, tries) + [s.prompt, Ascii("Password: ")]
  {
    hide Talk, Ascii, TelnetRun, Sends, Answers, TailNotice, TailReason, Utf8.Lossy;
    RunGoesOn(banner, s, greeting, tries, [user], tail);
    TalkAtPassword(3 - |tries|, user, tail, |greeting| + |Answers(s.prompt, tries)|, s, notices);
  }

  lemma {:induction false} TakeTries(n: nat, lines: seq<seq<byte>>) returns (tries: seq<Try>, rest: seq<seq<byte>>)
    ensures lines == LinesSent(tries) + rest && Named(tries) && |tries| <= n
    ensures |tries| < n ==> rest == [] || (|rest| == 1 && rest[0] != [])
  {
    if n == 0 || lines == [] || (|lines| == 1 && lines[0] != []) {
      tries, rest := [], lines;
      assert [] + rest == rest;
    } else {
      var k, first := if lines[0] == [] then 1 else 2, if lines[0] == [] then Skipped else Tried(lines[0], lines[1]);
      var more;
      more, rest := TakeTries(n - 1, lines[k..]);
      tries := [first] + more;
      assert tries[1..] == more && lines == lines[..k] + lines[k..];
    }
  }

  /** Every session whose writes work, whatever its client sends: up to three complete tries, recorded and
      answered in order; then the goodbye, or the end of the input where a username or a password was due. */
  lemma {:induction false} TelnetInFull(banner: Option<Text>, s: Setting, greeting: seq<Text>, notices: seq<Event>)
    returns (tries: seq<Try>, rest: seq<seq<byte>>, tail: Tail)
    requires Greets(banner, greeting) && WritesWork(s.peer, |s.peer.faults|)
    requires TailNotice(s, NvtLines(Decode(InData, Visible(s.peer, s.limit)), []).tail, notices)
    ensures Sends(s, tries, rest, tail)
    ensures var o, answered := TelnetRun(banner, s), greeting + Answers(s.prompt, tries);
            if |tries| == 3 then
              && o.events == Logins(tries) && o.reason == ServerClosed
              && o.out == answered + [Ascii("Too many attempts. Disconnecting.\r\n")]
            else if rest == [] then
              && o.events == Logins(tries) + notices && TailReason(s, tail, o.reason)
              && o.out == answered + [s.prompt]
            else
              && |rest| == 1 && rest[0] != []
              && o.events == Logins(tries) + (notices + [TelnetLogin(Utf8.Lossy(rest[0]), None, false)])
              && TailReason(s, tail, o.reason) && o.out == answered + [s.prompt, Ascii("Password: ")]
  {
    hide Ascii, TelnetRun, Answers, TailNotice, TailReason, Utf8.Lossy, NvtLines, Decode, Visible, Greets;
    var split := NvtLines(Decode(InData, Visible(s.peer, s.limit)), []);
    tail := split.tail;
    tries, rest := TakeTries(3, split.lines);
    if |tries| == 3 {
      ThreeTries(banner, s, greeting, tries, rest, tail);
    } else if rest == [] {
      StopsAtUsername(banner, s, greeting, tries, tail, notices);
    } else {
      assert rest == [rest[0]];
      StopsAtPassword(banner, s, greeting, tries, rest[0], tail, notices);
    }
  }

  // ---------- Failing writes ----------

  lemma {:induction false} BannerFails(banner: Option<Text>, s: Setting, greeting: seq<Text>, reason: CloseReason)
    requires banner.Some? && Greets(banner, greeting) && Fails(s.peer, 0, reason)
    ensures var o := TelnetRun(banner, s); o.events == [] && o.reason == reason && o.out == greeting
  {
    FaultMeans(s.peer, 0);
  }

  /** The prompt or the goodbye fails. */
  lemma {:induction false} PromptFails(banner: Option<Text>, s: Setting, greeting: seq<Text>, tries: seq<Try>,
                                       rest: seq<seq<byte>>, tail: Tail, reason: CloseReason)
    requires Greets(banner, greeting) && Sends(s, tries, rest, tail)
    requires var w := |greeting| + |Answers(s.prompt, tries)|; WritesWork(s.peer, w) && Fails(s.peer, w, reason)
    ensures var o := TelnetRun(banner, s);
            && o.events == Logins(tries) && o.reason == reason
            && o.out == greeting + Answers(s.prompt, tries)
                + [if |tries| == 3 then Ascii("Too many attempts. Disconnecting.\r\n") else s.prompt]
  {
    hide Talk, Ascii, TelnetRun, NvtLines, Decode, Visible, Answers;
    RunGoesOn(banner, s, greeting, tries, rest, tail);
    TalkAtFault(3 - |tries|, rest, tail, |greeting| + |Answers(s.prompt, tries)|, s, reason);
  }

  /** Asking for the password fails: the login is recorded with no password, whatever the client sent next. */
  lemma {:induction false} AskingFails(banner: Option<Text>, s: Setting, greeting: seq<Text>, tries: seq<Try>,
                                       user: seq<byte>, rest: seq<seq<byte>>, tail: Tail, reason: CloseReason)
    requires Greets(banner, greeting) && Sends(s, tries, [user] + rest, tail) && |tries| < 3 && user != []
    requires var w := |greeting| + |Answers(s.prompt, tries)|; WritesWork(s.peer, w + 1) && Fails(s.peer, w + 1, reason)
    ensures var o := TelnetRun(banner, s);
            && o.events == Logins(tries) + [TelnetLogin(Utf8.Lossy(user), None, false)] && o.reason == reason
            && o.out == greeting + Answers(s.prompt, tries) + [s.prompt, Ascii("Password: ")]
  {
    hide Talk, Ascii, TelnetRun, Sends, Answers, Utf8.Lossy;
    RunGoesOn(banner, s, greeting, tries, [user] + rest, tail);
    TalkUnasked(3 - |tries|, user, rest, tail, |greeting| + |Answers(s.prompt, tries)|, s, reason);
  }

  /** Answering fails: the login is recorded as it was. */
  lemma {:induction false} AnsweringFails(banner: Option<Text>, s: Setting, greeting: seq<Text>, tries: seq<Try>,
                                          user: seq<byte>, pass: seq<byte>, rest: seq<seq<byte>>, tail: Tail,
                                          reason: CloseReason)
    requires Greets(banner, greeting) && Sends(s, tries, [user, pass] + rest, tail) && |tries| < 3 && user != []
    requires var w := |greeting| + |Answers(s.prompt, tries)|; WritesWork(s.peer, w + 2) && Fails(s.peer, w + 2, reason)
    ensures var o := TelnetRun(banner, s);
            && o.events == Logins(tries) + [TelnetLogin(Utf8.Lossy(user), Some(Utf8.Lossy(pass)), false)]
            && o.reason == reason
            && o.out == greeting + Answers(s.prompt, tries)
                        + [s.prompt, Ascii("Password: "), Ascii("Login incorrect\r\n")]
  {
    hide Talk, Ascii, TelnetRun, Sends, Answers, Utf8.Lossy;
    RunGoesOn(banner, s, greeting, tries, [user, pass] + rest, tail);
    TalkUnanswered(3 - |tries|, user, pass, rest, tail, |greeting| + |Answers(s.prompt, tries)|, s, reason);
  }

  // ---------- Half-finished logins on the wire ----------

  function Completed(tries: seq<Attempted>): seq<Try> {
    seq(|tries|, i requires 0 <= i < |tries| => Tried(tries[i].username, tries[i].password))
  }

  lemma {:induction false} CompletedLogins(tries: seq<Attempted>)
    requires forall t | t in tries :: t.username != [] && Utf8.Valid(t.username) && Utf8.Valid(t.password)
    ensures Named(Completed(tries)) && LinesSent(Completed(tries)) == LinesOf(tries)
    ensures Logins(Completed(tries)) == LoginsAsSent(tries)
  {
    hide Utf8.Valid, Utf8.Lossy;
    if tries != [] {
      assert Completed(tries)[1..] == Completed(tries[1..]) && tries[0] in tries;
      CompletedLogins(tries[1..]);
      Utf8.LossyKeepsExactlyTheValid(tries[0].username);
      Utf8.LossyKeepsExactlyTheValid(tries[0].password);
    }
  }

  /** A client that completes some tries, sends one more username and closes before the end of its password line
      is recorded with what it sent, the last username with no password, and a notice about the password line
      if it had begun or grown too long. */
  lemma {:induction false} HalfLoginsAreRecorded(banner: Option<Text>, s: Setting, tries: seq<Attempted>,
                                                 user: seq<byte>, begun: seq<byte>, units: seq<Unit>)
    requires |tries| < 3 && user != [] && Utf8.Valid(user) && LF !in begun
    requires forall t | t in tries :: t.username != [] && Utf8.Valid(t.username) && Utf8.Valid(t.password)
    requires Sendable(LinesOf(tries) + [user]) && ValidUnits(units)
    requires DataOf(units) == Wire(LinesOf(tries) + [user]) + Escape(begun)
    requires Visible(s.peer, s.limit) == Encode(units) && |s.peer.stream| < s.limit && s.peer.end == Eof
    requires WritesWork(s.peer, |s.peer.faults|)
    ensures TelnetRun(banner, s).events
            == LoginsAsSent(tries)
               + ((if |begun| > 256 then [Notice("telnet_line_too_long")]
                   else if begun != [] then [Notice("telnet_incomplete_line")] else [])
                  + [TelnetLogin(user, None, false)])
  {
    hide Utf8.Valid, Utf8.Lossy, Ascii, TelnetRun, NvtLines, Decode, Visible, Wire, Escape, Sendable, Answers;
    HalfLinesSurvive(LinesOf(tries) + [user], begun, units);
    CompletedLogins(tries);
    Utf8.LossyKeepsExactlyTheValid(user);
    var greeting := if banner.None? then [] else [BannerText(banner.value)];
    var tail := if |begun| <= MAX_LINE then Partial(begun, false) else Overrun;
    var notices := if |begun| > 256 then [Notice("telnet_line_too_long")]
        else if begun != [] then [Notice("telnet_incomplete_line")] else [];
    StopsAtPassword(banner, s, greeting, Completed(tries), user, tail, notices);
  }
}
