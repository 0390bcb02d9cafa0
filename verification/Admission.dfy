/** What becomes of connections: every decision, every counter and every served session, from the
    configuration and the history of the limiter (src/server.rs). */
module Admission {
  import opened Bytes
  import opened Address
  import opened Pipeline
  import opened PipelineInv
  import opened PipelineRuns
  import RateLimit

  // ---------- One decision ----------

  /** Is a canonical address among the configured exclusions, in whatever spelling? */
  ghost predicate Excluded(c: Config, key: Ip) {
    exists ip :: ip in c.ignored && Canonical(ip) == key
  }

  /** What the limiter answers next, given everything that took its lock so far. */
  function Answer(c: Config, s: State, key: Ip, now: nat): RateLimit.Decision {
    RateLimit.DecisionAfter(c.limits, s.gate.ops, key, now)
  }

  lemma {:induction false} LimiterIsItsHistory(s: State, c: Config, steps: seq<Step>, key: Ip, now: nat)
    requires Reachable(s, c, steps)
    ensures RateLimit.CheckStep(s.gate.limits, s.gate.limiter, key, now).1 == Answer(c, s, key, now)
    ensures key in s.gate.ignored <==> Excluded(c, key)
  {
    hide Reachable, AcceptLedger, SessionLedger, RecordLedger, Supervision, Owned, Once, Order, Carried, Genuine,
         RateLimit.Run, RateLimit.CheckStep, Canonical;
    ReachableInv(s, c, steps);
    ReachableConfig(s, c, steps);
  }

  /** In every run: a connection is refused as ignored exactly when its canonical address is that of some
      configured exclusion; otherwise the limiter is asked, and its answer, a function of the whole history
      of its lock, decides whether the connection is cleared or why it is refused. */
  lemma {:induction false} DecisionIsExact(s: State, c: Config, steps: seq<Step>, e: nat, now: nat)
    requires Reachable(s, c, steps) && ListenerEnabled(s, e, Decide(now))
    ensures var key, t := Canonical(s.gate.from[e]), Apply(s, Listener(e, Decide(now)));
            var phase, d := t.net.listeners[e], Answer(c, s, key, now);
            && (phase == Refused(IgnoredIp) <==> exists ip :: ip in c.ignored && Canonical(ip) == key)
            && ((exists ip :: ip in c.ignored && Canonical(ip) == key) ==> t.gate == s.gate)
            && (!(exists ip :: ip in c.ignored && Canonical(ip) == key) ==>
                  && (phase == Cleared <==> d == RateLimit.Allowed)
                  && (phase == Refused(RateLimited) <==> d == RateLimit.Limited)
                  && (phase == Refused(TableFull) <==> d == RateLimit.Capacity)
                  && (phase == Refused(LimiterUnavailable) <==> d == RateLimit.Unavailable)
                  && t.gate.ops == s.gate.ops + [RateLimit.Check(key, now)]
                  && (phase == Cleared ==> Hand(e) in t.gate.tickets && t.gate.tickets[Hand(e)].key == key))
  {
    hide Reachable, RateLimit.DecisionAfter, RateLimit.Admitted, Canonical;
    LimiterIsItsHistory(s, c, steps, Canonical(s.gate.from[e]), now);
    hide RateLimit.CheckStep;
  }

  /** A cleared connection becomes a session with its listener's ticket if a permit is free, and is
      refused otherwise. */
  lemma {:induction false} ClearedIsServed(s: State, e: nat)
    requires ListenerEnabled(s, e, Acquire)
    ensures var t, id := Apply(s, Listener(e, Acquire)), s.net.admitted;
            && Hand(e) !in t.gate.tickets
            && if s.net.permits > 0 then
                 && t.net.admitted == id + 1 && t.net.permits == s.net.permits - 1 && t.net.listeners[e] == Running
                 && id in t.net.stage && t.net.stage[id] == Spawned && id in t.net.owner && t.net.owner[id] == e
                 && Of(id) in t.gate.tickets && t.gate.tickets[Of(id)] == s.gate.tickets[Hand(e)]
               else t.net == s.net.(listeners := s.net.listeners[e := Refused(MaxSessions)])
  {
  }

  // ---------- Every counter ----------

  /** Does this step turn a connection away, and for this reason? */
  ghost predicate Rejects(s: State, c: Config, step: Step, r: Reason) {
    && step.Listener? && step.e in s.net.listeners
    && if step.act.Acquire? then r == MaxSessions && s.net.permits == 0
       else
         && step.act.Decide? && step.e in s.gate.from
         && var key := Canonical(s.gate.from[step.e]);
            if Excluded(c, key) then r == IgnoredIp
            else match Answer(c, s, key, step.act.now)
                 case Allowed => false
                 case Limited => r == RateLimited
                 case Capacity => r == TableFull
                 case Unavailable => r == LimiterUnavailable
  }

  /** How often a schedule turns a connection away for a reason. */
  ghost function Rejections(s: State, c: Config, steps: seq<Step>, r: Reason): nat
    requires Runs(s, steps)
    decreases |steps|
  {
    if steps == [] then 0
    else (if Rejects(s, c, steps[0], r) then 1 else 0) + Rejections(Apply(s, steps[0]), c, steps[1..], r)
  }

  /** How often it admits one. */
  function Admissions(s: State, steps: seq<Step>): nat
    requires Runs(s, steps)
    decreases |steps|
  {
    if steps == [] then 0
    else
      (if steps[0].Listener? && steps[0].act.Acquire? && s.net.permits > 0 then 1 else 0)
      + Admissions(Apply(s, steps[0]), steps[1..])
  }

  /** How many connections come in. */
  function Arrivals(steps: seq<Step>): nat {
    if steps == [] then 0 else (if steps[0].Listener? && steps[0].act.Accept? then 1 else 0) + Arrivals(steps[1..])
  }

  function Counter(m: Metrics, r: Reason): nat {
    match r
    case IgnoredIp => m.rejected.ignored
    case RateLimited => m.rejected.limited
    case TableFull => m.rejected.full
    case LimiterUnavailable => m.rejected.unavailable
    case MaxSessions => m.rejected.sessions
  }

  /** Rejections counted or about to be. */
  ghost function Refusals(s: State, r: Reason): nat {
    Counter(s.m, r) + Number(s.net.listeners, Refused(r))
  }

  /** Where a listener's step leaves its listener, as far as rejections go. */
  lemma {:induction false} RejectsOrNot(s: State, c: Config, steps: seq<Step>, e: nat, act: ListenerAct, r: Reason)
    requires Reachable(s, c, steps) && ListenerEnabled(s, e, act)
    ensures Apply(s, Listener(e, act)).net.listeners[e] == Refused(r) <==> Rejects(s, c, Listener(e, act), r)
  {
    hide Reachable, Excluded, Answer, Canonical, RateLimit.Admitted, RateLimit.CheckStep;
    if act.Decide? {
      LimiterIsItsHistory(s, c, steps, Canonical(s.gate.from[e]), act.now);
    }
  }

  lemma {:induction false} CountsOrNot(s: State, e: nat, act: ListenerAct, r: Reason)
    requires ListenerEnabled(s, e, act)
    ensures var t := Apply(s, Listener(e, act));
            && t.net.listeners == s.net.listeners[e := t.net.listeners[e]]
            && (s.net.listeners[e] == Refused(r) <==> act == Count && s.net.listeners[e].reason == r)
            && Counter(t.m, r) == Counter(s.m, r) + if s.net.listeners[e] == Refused(r) then 1 else 0
  {
    hide DecideOn, AcquireFor;
    ListenerShape(s, e, act);
  }

  lemma {:induction false} ListenerCounts(s: State, c: Config, steps: seq<Step>, e: nat, act: ListenerAct, r: Reason)
    requires Reachable(s, c, steps) && ListenerEnabled(s, e, act)
    ensures Refusals(Apply(s, Listener(e, act)), r)
         == Refusals(s, r) + if Rejects(s, c, Listener(e, act), r) then 1 else 0
  {
    hide Reachable, Number, Rejects, Apply, Counter;
    RejectsOrNot(s, c, steps, e, act, r);
    CountsOrNot(s, e, act, r);
    NumberAfterUpdate(s.net.listeners, e, Apply(s, Listener(e, act)).net.listeners[e], Refused(r));
  }

  lemma {:induction false} OthersLeaveCounters(s: State, step: Step)
    requires Enabled(s, step) && !step.Listener?
    ensures var t := Apply(s, step);
            t.net.listeners == s.net.listeners && t.m.rejected == s.m.rejected && t.m.accepted == s.m.accepted
            && t.net.admitted == s.net.admitted
  {
    hide RateLimit.Step;
  }

  lemma {:induction false} StepCounts(s: State, c: Config, steps: seq<Step>, step: Step, r: Reason)
    requires Reachable(s, c, steps) && Enabled(s, step)
    ensures var t := Apply(s, step);
            && Refusals(t, r) == Refusals(s, r) + (if Rejects(s, c, step, r) then 1 else 0)
            && t.net.admitted == s.net.admitted + (if step.Listener? && step.act.Acquire? && s.net.permits > 0
                                                   then 1 else 0)
            && t.m.accepted == s.m.accepted + if step.Listener? && step.act.Accept? then 1 else 0
  {
    hide ListenerApply, SessionApply, WriterApply, MaintApply, ServerApply, MainApply, Reachable, Number, Excluded,
         Answer, Canonical;
    if step.Listener? {
      ListenerCounts(s, c, steps, step.e, step.act, r);
      ListenerShape(s, step.e, step.act);
    } else {
      OthersLeaveCounters(s, step);
    }
  }

  lemma {:induction false} RunsSnoc(s: State, steps: seq<Step>, step: Step)
    requires Runs(s, steps) && Enabled(After(s, steps), step)
    ensures Runs(s, steps + [step]) && After(s, steps + [step]) == Apply(After(s, steps), step)
    decreases |steps|
  {
    hide Apply, Enabled;
    var all := steps + [step];
    if steps == [] {
      assert all == [step] && all[1..] == [];
    } else {
      assert all[0] == steps[0] && all[1..] == steps[1..] + [step];
      RunsSnoc(Apply(s, steps[0]), steps[1..], step);
    }
  }

  lemma {:induction false} RunCounts(s: State, c: Config, before: seq<Step>, steps: seq<Step>, r: Reason)
    requires Reachable(s, c, before) && Runs(s, steps)
    ensures var t := After(s, steps);
            && Refusals(t, r) == Refusals(s, r) + Rejections(s, c, steps, r)
            && t.net.admitted == s.net.admitted + Admissions(s, steps)
            && t.m.accepted == s.m.accepted + Arrivals(steps)
    decreases |steps|
  {
    hide Refusals, Rejects, Apply, Enabled, Initial;
    if steps != [] {
      StepCounts(s, c, before, steps[0], r);
      RunsSnoc(Initial(c), before, steps[0]);
      RunCounts(Apply(s, steps[0]), c, before + [steps[0]], steps[1..], r);
    }
  }

  lemma {:induction false} NothingRefused(c: Config, r: Reason)
    ensures Refusals(Initial(c), r) == 0 && Initial(c).net.admitted == 0 && Initial(c).m.accepted == 0
  {
    NoneHold(Initial(c).net.listeners, Refused(r));
  }

  /** In every run each counter of rejections, together with the listeners about to raise it, is the number
      of connections turned away for that very reason; sessions and arrivals are counted likewise. */
  lemma {:induction false} CountersAreExact(s: State, c: Config, steps: seq<Step>)
    requires Reachable(s, c, steps)
    ensures var start, ls := Initial(c), s.net.listeners;
            && s.m.accepted == Arrivals(steps) && s.net.admitted == Admissions(start, steps)
            && s.m.rejected.ignored + Number(ls, Refused(IgnoredIp)) == Rejections(start, c, steps, IgnoredIp)
            && s.m.rejected.limited + Number(ls, Refused(RateLimited)) == Rejections(start, c, steps, RateLimited)
            && s.m.rejected.full + Number(ls, Refused(TableFull)) == Rejections(start, c, steps, TableFull)
            && s.m.rejected.unavailable + Number(ls, Refused(LimiterUnavailable))
               == Rejections(start, c, steps, LimiterUnavailable)
            && s.m.rejected.sessions + Number(ls, Refused(MaxSessions)) == Rejections(start, c, steps, MaxSessions)
  {
    hide Runs, After, Initial, Number, Rejections, Admissions, Arrivals;
    StartIsReachable(c);
    forall r ensures Refusals(s, r) == Rejections(Initial(c), c, steps, r)
                     && s.m.accepted == Arrivals(steps) && s.net.admitted == Admissions(Initial(c), steps) {
      RunCounts(Initial(c), c, [], steps, r);
      NothingRefused(c, r);
    }
    assert Refusals(s, IgnoredIp) == s.m.rejected.ignored + Number(s.net.listeners, Refused(IgnoredIp));
    assert Refusals(s, RateLimited) == s.m.rejected.limited + Number(s.net.listeners, Refused(RateLimited));
    assert Refusals(s, TableFull) == s.m.rejected.full + Number(s.net.listeners, Refused(TableFull));
    assert Refusals(s, LimiterUnavailable)
        == s.m.rejected.unavailable + Number(s.net.listeners, Refused(LimiterUnavailable));
    assert Refusals(s, MaxSessions) == s.m.rejected.sessions + Number(s.net.listeners, Refused(MaxSessions));
  }

  lemma StartIsReachable(c: Config)
    ensures Reachable(Initial(c), c, [])
  {
  }

  // ---------- Service ----------

  lemma {:induction false} RunsConcat(s: State, a: seq<Step>, b: seq<Step>)
    requires Runs(s, a) && Runs(After(s, a), b)
    ensures Runs(s, a + b) && After(s, a + b) == After(After(s, a), b)
    decreases |a|
  {
    hide Apply, Enabled;
    if a == [] {
      assert a + b == b;
    } else {
      assert (a + b)[0] == a[0] && (a + b)[1..] == a[1..] + b;
      RunsConcat(Apply(s, a[0]), a[1..], b);
    }
  }

  lemma {:induction false} OneStep(s: State, a: Step)
    requires Enabled(s, a)
    ensures Runs(s, [a]) && After(s, [a]) == Apply(s, a)
  {
    hide Apply, Enabled;
    assert [a][1..] == [];
    assert Runs(Apply(s, a), []);
  }

  lemma {:induction false} TwoSteps(s: State, a: Step, b: Step)
    requires Enabled(s, a) && Enabled(Apply(s, a), b)
    ensures Runs(s, [a, b]) && After(s, [a, b]) == Apply(Apply(s, a), b)
  {
    hide Apply, Enabled;
    OneStep(Apply(s, a), b);
    assert [a, b][1..] == [b];
  }

  lemma {:induction false} ThreeSteps(s: State, a: Step, b: Step, d: Step)
    requires Enabled(s, a) && Enabled(Apply(s, a), b) && Enabled(Apply(Apply(s, a), b), d)
    ensures Runs(s, [a, b, d]) && After(s, [a, b, d]) == Apply(Apply(Apply(s, a), b), d)
  {
    hide Apply, Enabled;
    TwoSteps(Apply(s, a), b, d);
    assert [a, b, d][1..] == [b, d];
  }

  /** An idle listener can always take a connection in, as long as no cancellation is out, and decide on it. */
  lemma {:induction false} TakesIn(s: State, e: nat, ip: Ip, now: nat)
    requires e in s.net.listeners && s.net.listeners[e] == Running && !s.cancelled
    ensures var arrived := s.(m := s.m.(accepted := s.m.accepted + 1),
                              net := s.net.(listeners := s.net.listeners[e := Deciding]),
                              gate := s.gate.(from := s.gate.from[e := ip]));
            var path := [Listener(e, Poll), Listener(e, Accept(ip))];
            Runs(s, path) && After(s, path) == arrived && Enabled(arrived, Listener(e, Decide(now)))
  {
    var polled := Apply(s, Listener(e, Poll));
    assert polled == s.(net := s.net.(listeners := s.net.listeners[e := Polled]));
    assert s.net.listeners[e := Polled][e := Deciding] == s.net.listeners[e := Deciding];
    assert Apply(polled, Listener(e, Accept(ip)))
           == s.(m := s.m.(accepted := s.m.accepted + 1), net := s.net.(listeners := s.net.listeners[e := Deciding]),
                 gate := s.gate.(from := s.gate.from[e := ip]));
    TwoSteps(s, Listener(e, Poll), Listener(e, Accept(ip)));
  }

  lemma {:induction false} SessionWorks(s: State, id: nat)
    requires id in s.net.stage && s.net.stage[id] == Spawned
    ensures var path := [Session(id), Session(id), Session(id)];
            && Runs(s, path)
            && After(s, path) == s.(m := s.m.(connections := s.m.connections + 1, active := s.m.active + 1,
                                              closedSessions := s.m.closedSessions + 1),
                                    net := s.net.(stage := s.net.stage[id := Closing]))
  {
    var st: map<nat, Stage> := s.net.stage;
    assert st[id := Counted][id := Guarded] == st[id := Guarded];
    assert st[id := Guarded][id := Closing] == st[id := Closing];
    ThreeSteps(s, Session(id), Session(id), Session(id));
  }

  lemma {:induction false} SessionLeaves(s: State, id: nat)
    requires id in s.net.stage && s.net.stage[id] == Logged
    ensures var path := [Session(id), Session(id), Session(id)];
            && Runs(s, path)
            && After(s, path) == s.(m := s.m.(active := s.m.active - 1),
                                    net := s.net.(stage := s.net.stage - {id}, owner := s.net.owner - {id},
                                                  permits := s.net.permits + 1))
  {
    var st: map<nat, Stage> := s.net.stage;
    assert st[id := Unguarded][id := Released] == st[id := Released] && st[id := Released] - {id} == st - {id};
    ThreeSteps(s, Session(id), Session(id), Session(id));
  }

  /** The steps of one session task. */
  function Turns(id: nat): seq<Step> {
    seq(7, _ => Session(id))
  }

  /** A session task left to itself counts its connection, raises the gauge and lowers it again, returns its
      permit, and offers its record once: an open queue with room takes it at its end, and each other case
      is counted as a drop of its own. */
  lemma {:induction false} SessionIsLogged(s: State, id: nat)
    requires id in s.net.stage && s.net.stage[id] == Spawned
    ensures var path := Turns(id);
            var full, m, log := |s.log.queue| >= s.queueCap, s.m, s.log;
            && Runs(s, path)
            && After(s, path) == s.(
                 net := s.net.(stage := s.net.stage - {id}, owner := s.net.owner - {id},
                               permits := s.net.permits + 1),
                 m := m.(connections := m.connections + 1, closedSessions := m.closedSessions + 1,
                         droppedClosed := m.droppedClosed + (if log.closed then 1 else 0),
                         droppedFull := m.droppedFull + (if !log.closed && full then 1 else 0)),
                 log := if log.closed || full then log.(refused := log.refused + {id})
                        else log.(queue := log.queue + [id], enqueued := log.enqueued + [id]))
  {
    var three := [Session(id), Session(id), Session(id)];
    SessionWorks(s, id);
    var closing := After(s, three);
    var logged := Apply(closing, Session(id));
    var st: map<nat, Stage> := s.net.stage;
    assert st[id := Closing][id := Logged] - {id} == st - {id};
    OneStep(closing, Session(id));
    SessionLeaves(logged, id);
    hide Runs, After, Apply, Enabled;
    RunsConcat(closing, [Session(id)], three);
    RunsConcat(s, three, [Session(id)] + three);
    assert Turns(id) == three + ([Session(id)] + three);
  }

  /** The writer takes the oldest queued record and writes it. */
  lemma {:induction false} WriterDelivers(s: State)
    requires s.log.writer == Idle && s.log.queue != []
    ensures var path := [Writer(true), Writer(true)];
            && Runs(s, path)
            && After(s, path) == s.(log := s.log.(queue := s.log.queue[1..],
                                                  written := s.log.written + [s.log.queue[0]]))
  {
    TwoSteps(s, Writer(true), Writer(true));
  }

  /** What an allowed connection on an idle listener makes of the sensor once it has its permit. */
  ghost predicate Spawning(s: State, t: State, e: nat, key: Ip, now: nat) {
    var id := s.net.admitted;
    && t.m == s.m.(accepted := s.m.accepted + 1) && t.log == s.log && t.queueCap == s.queueCap
    && s.net.permits > 0
    && t.net == Net(s.net.listeners, s.net.stage[id := Spawned], s.net.owner[id := e], id + 1, s.net.permits - 1)
    && t.gate.ops == s.gate.ops + [RateLimit.Check(key, now)]
    && Of(id) in t.gate.tickets && t.gate.tickets[Of(id)].key == key
  }

  lemma {:induction false} ClearedSpawns(a: State, e: nat, now: nat)
    requires ListenerEnabled(a, e, Decide(now)) && a.net.permits > 0
    requires var d := Apply(a, Listener(e, Decide(now))); d.net.listeners[e] == Cleared && Hand(e) in d.gate.tickets
    ensures var d := Apply(a, Listener(e, Decide(now)));
            && ListenerEnabled(d, e, Acquire)
            && var t, id := Apply(d, Listener(e, Acquire)), a.net.admitted;
               && t.m == a.m && t.log == a.log && t.queueCap == a.queueCap
               && t.net == Net(a.net.listeners[e := Running], a.net.stage[id := Spawned], a.net.owner[id := e], id + 1,
                               a.net.permits - 1)
               && t.gate.ops == d.gate.ops && Of(id) in t.gate.tickets
               && t.gate.tickets[Of(id)] == d.gate.tickets[Hand(e)]
  {
    var d := Apply(a, Listener(e, Decide(now)));
    ListenerShape(a, e, Decide(now));
    hide DecideOn;
    assert d.net.listeners[e := Running] == a.net.listeners[e := Running];
  }

  lemma {:induction false} Admitted(s: State, c: Config, steps: seq<Step>, e: nat, ip: Ip, now: nat)
    returns (path: seq<Step>)
    requires Reachable(s, c, steps) && !s.cancelled && e in s.net.listeners && s.net.listeners[e] == Running
    requires !Excluded(c, Canonical(ip)) && Answer(c, s, Canonical(ip), now) == RateLimit.Allowed && s.net.permits > 0
    ensures Runs(s, path) && Spawning(s, After(s, path), e, Canonical(ip), now)
  {
    hide Reachable, ListenerApply, Canonical, RateLimit.DecisionAfter;
    var decide, acquire := Listener(e, Decide(now)), Listener(e, Acquire);
    var arrive := [Listener(e, Poll), Listener(e, Accept(ip))];
    TakesIn(s, e, ip, now);
    var arrived := After(s, arrive);
    ReachOn(s, c, steps, arrive);
    DecisionIsExact(arrived, c, steps + arrive, e, now);
    ClearedSpawns(arrived, e, now);
    TwoSteps(arrived, decide, acquire);
    assert arrived.net.listeners[e := Running] == s.net.listeners;
    hide Runs, After, Apply, Enabled;
    RunsConcat(s, arrive, [decide, acquire]);
    path := arrive + [decide, acquire];
  }

  lemma {:induction false} Recorded(s: State, id: nat) returns (path: seq<Step>)
    requires id in s.net.stage && s.net.stage[id] == Spawned
    requires s.log.writer == Idle && s.log.queue == [] && !s.log.closed && s.queueCap > 0
    ensures Runs(s, path)
    ensures After(s, path)
         == s.(net := s.net.(stage := s.net.stage - {id}, owner := s.net.owner - {id}, permits := s.net.permits + 1),
               m := s.m.(connections := s.m.connections + 1, closedSessions := s.m.closedSessions + 1),
               log := s.log.(enqueued := s.log.enqueued + [id], written := s.log.written + [id]))
  {
    var session := Turns(id);
    SessionIsLogged(s, id);
    hide Runs, After;
    var logged := After(s, session);
    assert logged.log.queue == [id] && [id][1..] == s.log.queue;
    WriterDelivers(logged);
    var t := After(logged, [Writer(true), Writer(true)]);
    assert t.log == s.log.(enqueued := s.log.enqueued + [id], written := s.log.written + [id]);
    assert t.m == s.m.(connections := s.m.connections + 1, closedSessions := s.m.closedSessions + 1);
    RunsConcat(s, session, [Writer(true), Writer(true)]);
    assert t.net == s.net.(stage := s.net.stage - {id}, owner := s.net.owner - {id}, permits := s.net.permits + 1);
    assert t == s.(net := t.net, m := t.m, log := t.log);
    path := session + [Writer(true), Writer(true)];
  }

  /** A connection from an address that is not excluded and that the limiter allows, on an idle listener with
      a permit free, can be served from end to end: it is accepted, becomes a session, and its record is
      written; nothing else has changed but the counters of accepted, counted and closed connections. */
  lemma {:induction false} ServedToTheEnd(s: State, c: Config, steps: seq<Step>, e: nat, ip: Ip, now: nat)
    returns (path: seq<Step>)
    requires Reachable(s, c, steps) && !s.cancelled && e in s.net.listeners && s.net.listeners[e] == Running
    requires !Excluded(c, Canonical(ip)) && Answer(c, s, Canonical(ip), now) == RateLimit.Allowed && s.net.permits > 0
    requires s.log.writer == Idle && s.log.queue == [] && s.queueCap > 0
    ensures Runs(s, path)
    ensures var t, id := After(s, path), s.net.admitted;
            && t.net == s.net.(admitted := id + 1)
            && t.log == s.log.(enqueued := s.log.enqueued + [id], written := s.log.written + [id])
            && t.m == s.m.(accepted := s.m.accepted + 1, connections := s.m.connections + 1,
                           closedSessions := s.m.closedSessions + 1)
            && t.gate.ops == s.gate.ops + [RateLimit.Check(Canonical(ip), now)]
            && Of(id) in t.gate.tickets && t.gate.tickets[Of(id)].key == Canonical(ip)
  {
    hide Reachable, Runs, After, Canonical, Answer, Excluded;
    FreshSession(s, c, steps);
    var admit := Admitted(s, c, steps, e, ip, now);
    var id, spawned := s.net.admitted, After(s, admit);
    var record := Recorded(spawned, id);
    RunsConcat(s, admit, record);
    path := admit + record;
    var st: map<nat, Stage> := s.net.stage;
    var owner: map<nat, nat> := s.net.owner;
    assert st[id := Spawned] - {id} == st && owner[id := e] - {id} == owner;
  }

  lemma {:induction false} ReachOn(s: State, c: Config, steps: seq<Step>, more: seq<Step>)
    requires Reachable(s, c, steps) && Runs(s, more)
    ensures Reachable(After(s, more), c, steps + more)
  {
    hide Runs, After, Initial;
    RunsConcat(Initial(c), steps, more);
  }

  /** The next session number is not in use, and the queue is open while the writer works. */
  lemma {:induction false} FreshSession(s: State, c: Config, steps: seq<Step>)
    requires Reachable(s, c, steps)
    ensures s.net.admitted !in s.net.stage && s.net.admitted !in s.net.owner
    ensures s.log.closed <==> !s.log.writer.Idle? && !s.log.writer.Holding?
  {
    hide Reachable, AcceptLedger, SessionLedger, RecordLedger, Supervision, Once, Gated;
    ReachableInv(s, c, steps);
  }

  // ---------- Readiness ----------

  /** Where the server task and the writer are when the sensor reports ready, and when it must. */
  ghost predicate ReadyMeans(s: State) {
    && (s.m.ready ==> s.server in {Serving, Stopping})
    && (s.server in {Serving, Stopping} && !s.cancelled && (s.log.writer.Idle? || s.log.writer.Holding?) ==> s.m.ready)
    && (s.main in {MustUnready, AwaitServer, MustDrop, AwaitLogger, MainDone} ==> s.cancelled)
    && (s.server == Stopping ==> s.cancelled)
    && (s.log.writer == Returned(true) ==> s.server == ServerDone)
  }

  lemma {:induction false} StepKeepsReady(s: State, step: Step)
    requires Inv(s) && ReadyMeans(s) && Enabled(s, step)
    ensures ReadyMeans(Apply(s, step))
  {
    hide AcceptLedger, SessionLedger, RecordLedger, Owned, Once, Order, Gated, ListenerApply, AllFinished;
    if step.Listener? {
      ListenerShape(s, step.e, step.act);
    }
  }

  lemma {:induction false} RunKeepsReady(s: State, steps: seq<Step>)
    requires Inv(s) && ReadyMeans(s) && Runs(s, steps)
    ensures ReadyMeans(After(s, steps))
    decreases |steps|
  {
    hide Inv, ReadyMeans, Apply, Enabled;
    if steps != [] {
      StepKeepsReady(s, steps[0]);
      StepKeepsInv(s, steps[0]);
      RunKeepsReady(Apply(s, steps[0]), steps[1..]);
    }
  }

  /** In every run /readyz answers 200 only while the server task serves, and does so whenever it serves, no
      cancellation is out and the writer has not failed. */
  lemma {:induction false} ReadyWhileServing(s: State, c: Config, steps: seq<Step>)
    requires Reachable(s, c, steps)
    ensures s.m.ready && s.m.errors == 0 ==> s.server in {Serving, Stopping}
    ensures s.server == Serving && !s.cancelled && (s.log.writer.Idle? || s.log.writer.Holding?) ==>
              s.m.ready && s.m.errors == 0
  {
    hide Runs, After, AcceptLedger, SessionLedger, RecordLedger, Supervision, Owned, Once, Gated;
    InitialInv(c);
    ReachableInv(s, c, steps);
    RunKeepsReady(Initial(c), steps);
  }

  /** Two steps of its task bring a new server to serving and ready, if nothing has cancelled it. */
  lemma {:induction false} StartsReady(s: State)
    requires s.server == Starting && !s.cancelled
    ensures Runs(s, [Server, Server]) && After(s, [Server, Server]) == s.(server := Serving, m := s.m.(ready := true))
  {
    TwoSteps(s, Server, Server);
  }

  /** Does this step take readiness back: the writer failing, the server stopping, main shutting down? */
  predicate Withdraws(s: State, step: Step) {
    || (step.Writer? && s.log.writer.Closed?)
    || (step.Server? && s.server == Stopping)
    || (step.Main? && s.main == MustUnready)
  }

  lemma {:induction false} StaysUnready(s: State, steps: seq<Step>)
    requires s.server !in {Starting, SawNoShutdown} && !s.m.ready && Runs(s, steps)
    ensures !After(s, steps).m.ready
    decreases |steps|
  {
    hide Apply;
    if steps != [] {
      NotRaised(s, steps[0]);
      StaysUnready(Apply(s, steps[0]), steps[1..]);
    }
  }

  lemma {:induction false} NotRaised(s: State, step: Step)
    requires s.server !in {Starting, SawNoShutdown} && Enabled(s, step) && (!s.m.ready || Withdraws(s, step))
    ensures var t := Apply(s, step); t.server !in {Starting, SawNoShutdown} && !t.m.ready
  {
    hide ListenerApply, AllFinished;
    if step.Listener? {
      ListenerShape(s, step.e, step.act);
    }
  }

  /** Once the server task has raised readiness, a failing writer, a stopping server or main shutting down takes
      it back for good. */
  lemma {:induction false} WithdrawnForGood(s: State, step: Step, steps: seq<Step>)
    requires s.server !in {Starting, SawNoShutdown} && Enabled(s, step) && Withdraws(s, step)
    requires Runs(Apply(s, step), steps)
    ensures !Apply(s, step).m.ready && !After(Apply(s, step), steps).m.ready
  {
    hide Apply, Runs, After;
    NotRaised(s, step);
    StaysUnready(Apply(s, step), steps);
  }

  // ---------- Cancellation ----------

  /** A signal, a writer or server that ended, a failing listener and a failing management endpoint each lead to a
      cancellation: at once, or by the next step of main or of the server task, which are free to take it. */
  lemma {:induction false} WhatCancels(s: State, e: nat)
    ensures s.main == Selecting ==>
              Enabled(s, Signal) && Runs(s, [Signal, Main]) && After(s, [Signal, Main]).cancelled
    ensures s.main == Selecting && (s.log.writer.Returned? || s.server == ServerDone) ==>
              Runs(s, [Main, Main]) && After(s, [Main, Main]).cancelled
    ensures ListenerEnabled(s, e, Poll) ==>
              var path := [Listener(e, Poll), Listener(e, Fail)]; Runs(s, path) && After(s, path).cancelled
    ensures !s.cancelled && s.server != ServerDone ==>
              Enabled(s, ManagementFails) && Apply(s, ManagementFails).cancelled
    ensures s.server == Cancelling ==> Enabled(s, Server) && Apply(s, Server).cancelled
  {
    hide AllFinished;
    if s.main == Selecting {
      TwoSteps(s, Signal, Main);
      if s.log.writer.Returned? || s.server == ServerDone {
        TwoSteps(s, Main, Main);
      }
    }
    if ListenerEnabled(s, e, Poll) {
      TwoSteps(s, Listener(e, Poll), Listener(e, Fail));
    }
  }

  // ---------- Maintenance ----------

  /** A tick of the maintenance task leaves the limiter with exactly the addresses admitted in the last 60 s. */
  lemma {:induction false} TickForgetsTheIdle(s: State, c: Config, steps: seq<Step>, now: nat)
    requires Reachable(s, c, steps) && MaintEnabled(s, Tick(now)) && c.limits.limit > 0
    requires RateLimit.Monotone(s.gate.ops) && RateLimit.Latest(s.gate.ops) <= now && !s.gate.limiter.poisoned
    ensures var t := Apply(s, Maintenance(Tick(now)));
            forall key :: key in t.gate.limiter.table <==>
                          RateLimit.Live(RateLimit.Admitted(c.limits, s.gate.ops, key), now) != []
  {
    hide Reachable, AcceptLedger, SessionLedger, RecordLedger, Supervision, Owned, Once, Order, Carried, Genuine,
         RateLimit.Run, RateLimit.Step, RateLimit.Monotone, RateLimit.Latest;
    ReachableInv(s, c, steps);
    ReachableConfig(s, c, steps);
    RateLimit.RunSnoc(c.limits, s.gate.ops, RateLimit.Evict(now));
    forall key
      ensures key in Apply(s, Maintenance(Tick(now))).gate.limiter.table <==>
              RateLimit.Live(RateLimit.Admitted(c.limits, s.gate.ops, key), now) != []
    {
      RateLimit.EvictionKeepsExactlyTheLive(c.limits, s.gate.ops, key, now);
    }
  }
}
