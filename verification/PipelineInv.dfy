/** The invariants of the pipeline, kept by every step of every task. */
module PipelineInv {
  import opened Bytes
  import opened Address
  import opened RecordQueue
  import opened Pipeline
  import RateLimit

  // ---------- Counting ----------

  ghost function Holders<V>(m: map<nat, V>, v: V): set<nat> {
    set k | k in m && m[k] == v
  }

  ghost function Number<V>(m: map<nat, V>, v: V): nat {
    |Holders(m, v)|
  }

  lemma {:induction false} NumberAfterUpdate<V>(m: map<nat, V>, k: nat, v: V, u: V)
    ensures Number(m[k := v], u)
         == Number(m, u) + (if v == u then 1 else 0) - (if k in m && m[k] == u then 1 else 0)
  {
    var others := Holders(m, u) - {k};
    assert Holders(m[k := v], u) == if v == u then others + {k} else others;
    assert Holders(m, u) == if k in m && m[k] == u then others + {k} else others;
  }

  lemma {:induction false} NumberAfterRemoval<V>(m: map<nat, V>, k: nat, u: V)
    requires k in m
    ensures Number(m - {k}, u) == Number(m, u) - (if m[k] == u then 1 else 0)
  {
    assert Holders(m - {k}, u) == Holders(m, u) - {k};
  }

  // ---------- Invariants ----------

  /** The record the writer holds, if any. */
  function InHand(w: WriterPhase): seq<nat> {
    if w.Idle? || w.Returned? then [] else [w.id]
  }

  /** The connections listeners hold: not decided on, or decided but not yet counted or spawned. */
  ghost function Undecided(listeners: map<nat, ListenerPhase>): nat {
    Number(listeners, Deciding) + Number(listeners, Cleared) + Number(listeners, Refused(IgnoredIp))
    + Number(listeners, Refused(RateLimited)) + Number(listeners, Refused(TableFull))
    + Number(listeners, Refused(LimiterUnavailable)) + Number(listeners, Refused(MaxSessions))
  }

  /** Accepted connections are rejected, admitted or in a listener's hand. */
  ghost predicate AcceptLedger(m: Metrics, net: Net) {
    m.accepted == m.rejected.Sum() + net.admitted + Undecided(net.listeners)
  }

  /** Counted sessions are not logged yet, queued, in the writer's hand, written or dropped. */
  ghost predicate RecordLedger(m: Metrics, net: Net, log: Log) {
    && m.connections == Number(net.stage, Counted) + Number(net.stage, Guarded) + Number(net.stage, Closing)
                        + |log.queue| + |InHand(log.writer)| + |log.written| + m.Dropped()
  }

  ghost predicate SessionLedger(max: nat, m: Metrics, net: Net) {
    && net.admitted == Number(net.stage, Spawned) + m.connections
    && m.connections == Number(net.stage, Counted) + Number(net.stage, Guarded) + m.closedSessions
    && m.active == Number(net.stage, Guarded) + Number(net.stage, Closing) + Number(net.stage, Logged)
    && max == net.permits + Number(net.stage, Spawned) + Number(net.stage, Counted) + m.active
        + Number(net.stage, Unguarded)
  }

  /** Every session task belongs to a listener task that has not returned. */
  ghost predicate Owned(net: Net) {
    && net.owner.Keys == net.stage.Keys
    && forall id | id in net.owner ::
         id < net.admitted && net.owner[id] in net.listeners && net.listeners[net.owner[id]] != Finished
  }

  /** Records leave the queue in the order they entered; the history accounts for all of them. */
  ghost predicate Order(cap: nat, m: Metrics, log: Log) {
    && log.enqueued == log.written + InHand(log.writer) + log.queue + log.lost
    && (log.lost != [] ==> log.writer == Returned(false))
    && (log.writer.Returned? ==> log.queue == [])
    && (log.closed <==> !log.writer.Idle? && !log.writer.Holding?)
    && |log.queue| <= cap
    && m.droppedWriter == |log.lost|
    && m.droppedFull + m.droppedClosed == |log.refused|
    && (m.errors > 0 <==> log.writer.Errored? || log.writer == Returned(false))
  }

  /** Has session id not offered its record to the queue yet? */
  predicate Unlogged(stage: map<nat, Stage>, id: nat) {
    id in stage && stage[id] in {Spawned, Counted, Guarded, Closing}
  }

  /** Every admitted session's record is exactly one of: not logged yet, accepted by the queue (at
      one position), refused by it. */
  ghost predicate Once(net: Net, log: Log) {
    && (forall i, j | 0 <= i < j < |log.enqueued| :: log.enqueued[i] != log.enqueued[j])
    && (forall id | id in log.enqueued :: id < net.admitted && !Unlogged(net.stage, id) && id !in log.refused)
    && (forall id | id in log.refused :: id < net.admitted && !Unlogged(net.stage, id))
    && (forall id: nat | id < net.admitted :: Unlogged(net.stage, id) || id in log.refused || id in log.enqueued)
  }

  /** A ticket stands for an admission by the limiter of an address that is not excluded. */
  ghost predicate Genuine(gate: Gate, t: Ticket) {
    t.key !in gate.ignored && t.nth < |RateLimit.Admitted(gate.limits, gate.ops, t.key)|
  }

  /** The limiter is where its history puts it, excluded addresses never got to it, and every session
      has a ticket of its own. */
  ghost predicate Gated(net: Net, gate: Gate) {
    && gate.limiter == RateLimit.Run(gate.limits, gate.ops)
    && (forall op | op in gate.ops && op.Check? :: Canonical(op.ip) == op.ip && op.ip !in gate.ignored)
    && (forall h | h in gate.tickets :: Genuine(gate, gate.tickets[h]))
    && (forall h, k | h in gate.tickets && k in gate.tickets && h != k :: gate.tickets[h] != gate.tickets[k])
    && Carried(net, gate.from.Keys, gate.tickets.Keys)
  }

  /** Listeners and sessions have what their phases call for. */
  ghost predicate Carried(net: Net, from: set<nat>, holders: set<Holder>) {
    && (forall e | e in net.listeners && net.listeners[e] == Deciding :: e in from)
    && (forall e | e in net.listeners && net.listeners[e] == Cleared :: Hand(e) in holders)
    && (forall id: nat | id < net.admitted :: Of(id) in holders)
    && (forall h | h in holders && h.Of? :: h.id < net.admitted)
  }

  /** How the phases of the supervising tasks constrain each other. */
  ghost predicate Supervision(s: State) {
    && (s.main in {MustDrop, AwaitLogger, MainDone} ==> s.server == ServerDone)
    && (s.server == ServerDone ==> AllFinished(s.net) && s.maint == Stopped)
    && (s.log.writer == Returned(true) ==> ProducersGone(s))
    && (s.main == MainDone ==> s.log.writer.Returned?)
    && (s.server in {Joining, ServerDone} ==> s.cancelled)
    && (s.main in {MustUnready, AwaitServer, MustDrop, AwaitLogger, MainDone} ==> s.cancelled)
  }

  ghost predicate Inv(s: State) {
    && AcceptLedger(s.m, s.net)
    && SessionLedger(s.maxSessions, s.m, s.net)
    && RecordLedger(s.m, s.net, s.log)
    && Owned(s.net)
    && Order(s.queueCap, s.m, s.log)
    && Once(s.net, s.log)
    && Gated(s.net, s.gate)
    && Supervision(s)
  }

  /** Does a listener in this phase hold a connection? */
  predicate HasConnection(phase: ListenerPhase) {
    phase == Deciding || phase == Cleared || phase.Refused?
  }

  lemma {:induction false} NoneHold<V>(m: map<nat, V>, v: V)
    requires forall k | k in m :: m[k] != v
    ensures Number(m, v) == 0
  {
    assert Holders(m, v) == {};
  }

  /** A listener map without connections, and a session map without sessions. */
  lemma {:induction false} NoneUndecided(listeners: map<nat, ListenerPhase>)
    requires forall e | e in listeners :: !HasConnection(listeners[e])
    ensures Undecided(listeners) == 0
  {
    hide Number;
    NoneHold(listeners, Deciding);
    NoneHold(listeners, Cleared);
    NoneHold(listeners, Refused(IgnoredIp));
    NoneHold(listeners, Refused(RateLimited));
    NoneHold(listeners, Refused(TableFull));
    NoneHold(listeners, Refused(LimiterUnavailable));
    NoneHold(listeners, Refused(MaxSessions));
  }

  lemma {:induction false} NoSessions(stage: map<nat, Stage>)
    requires stage == map[]
    ensures forall u :: Number(stage, u) == 0
  {
    hide Number;
    forall u ensures Number(stage, u) == 0 {
      NoneHold(stage, u);
    }
  }

  lemma {:induction false} EmptyLedgers(m: Metrics, net: Net, log: Log)
    requires m.accepted == m.rejected.Sum() == m.connections == m.closedSessions == m.Dropped() == 0 && m.active == 0
    requires net.stage == map[] && net.admitted == 0 && Undecided(net.listeners) == 0
    requires log.queue == log.written == InHand(log.writer) == []
    ensures AcceptLedger(m, net) && SessionLedger(net.permits, m, net) && RecordLedger(m, net, log)
  {
    hide Number, Undecided;
    NoSessions(net.stage);
  }

  lemma {:induction false} InitialIsEmpty(c: Config)
    ensures var s := Initial(c);
            && s.m.accepted == s.m.rejected.Sum() == s.m.connections == s.m.closedSessions == s.m.Dropped() == 0
                && s.m.active == 0
            && s.net.stage == map[] && s.net.admitted == 0 && s.net.permits == s.maxSessions
            && s.log.queue == s.log.written == InHand(s.log.writer) == []
            && Undecided(s.net.listeners) == 0
  {
    hide Undecided, HasConnection;
    RunningHoldsNothing();
    var listeners: map<nat, ListenerPhase> := map e | e in c.listeners :: Running;
    NoneUndecided(listeners);
    assert Initial(c).net.listeners == listeners;
  }

  lemma RunningHoldsNothing()
    ensures !HasConnection(Running)
  {
  }

  lemma {:induction false} InitialLedgers(c: Config)
    ensures var s := Initial(c);
            AcceptLedger(s.m, s.net) && SessionLedger(s.maxSessions, s.m, s.net) && RecordLedger(s.m, s.net, s.log)
  {
    hide AcceptLedger, SessionLedger, RecordLedger, Undecided;
    InitialIsEmpty(c);
    var s := Initial(c);
    hide Initial;
    EmptyLedgers(s.m, s.net, s.log);
  }

  lemma {:induction false} InitialGate(c: Config)
    ensures var s := Initial(c); Gated(s.net, s.gate)
  {
    hide Genuine;
  }

  lemma {:induction false} InitialInv(c: Config)
    ensures Inv(Initial(c))
  {
    hide AcceptLedger, SessionLedger, RecordLedger, Gated;
    InitialLedgers(c);
    InitialGate(c);
  }

  predicate Spawns(s: State, act: ListenerAct) {
    act == Acquire && s.net.permits > 0
  }

  /** What a listener's step leaves alone, and what it changes. */
  lemma {:induction false} ListenerShape(s: State, e: nat, act: ListenerAct)
    requires ListenerEnabled(s, e, act)
    ensures var t := ListenerApply(s, e, act);
            && t.log == s.log && t.maxSessions == s.maxSessions && t.queueCap == s.queueCap
            && t.maint == s.maint && t.server == s.server && t.main == s.main
            && t.cancelled == (s.cancelled || act == Fail)
            && e in t.net.listeners
            && t.net == (if Spawns(s, act)
                         then Net(s.net.listeners[e := t.net.listeners[e]], s.net.stage[s.net.admitted := Spawned],
                                  s.net.owner[s.net.admitted := e], s.net.admitted + 1, s.net.permits - 1)
                         else s.net.(listeners := s.net.listeners[e := t.net.listeners[e]]))
            && t.m == (match act
                       case Accept(_) => s.m.(accepted := s.m.accepted + 1)
                       case Count => s.m.(rejected := s.m.rejected.Inc(s.net.listeners[e].reason))
                       case _ => s.m)
            && HasConnection(t.net.listeners[e])
                == (act.Accept? || act.Decide? || (act == Acquire && s.net.permits == 0))
            && HasConnection(s.net.listeners[e]) == (act.Decide? || act == Acquire || act == Count)
            && (t.net.listeners[e] == Finished <==> act == Finish) && s.net.listeners[e] != Finished
  {
    hide RateLimit.CheckStep, RateLimit.Admitted;
  }

  lemma {:induction false} UndecidedMoves(listeners: map<nat, ListenerPhase>, e: nat, phase: ListenerPhase)
    requires e in listeners
    ensures Undecided(listeners[e := phase])
            == Undecided(listeners) + (if HasConnection(phase) then 1 else 0)
               - (if HasConnection(listeners[e]) then 1 else 0)
  {
    hide Number;
    forall u {
      NumberAfterUpdate(listeners, e, phase, u);
    }
    EveryReason(phase);
    EveryReason(listeners[e]);
  }

  lemma {:induction false} EveryReason(phase: ListenerPhase)
    ensures phase.Refused? ==> phase in {Refused(IgnoredIp), Refused(RateLimited), Refused(TableFull),
                                         Refused(LimiterUnavailable), Refused(MaxSessions)}
  {
    if phase.Refused? {
      match phase.reason
      case IgnoredIp =>
      case RateLimited =>
      case TableFull =>
      case LimiterUnavailable =>
      case MaxSessions =>
    }
  }

  lemma {:induction false} ListenerKeepsLedgers(s: State, e: nat, act: ListenerAct)
    requires ListenerEnabled(s, e, act)
    requires AcceptLedger(s.m, s.net) && SessionLedger(s.maxSessions, s.m, s.net) && RecordLedger(s.m, s.net, s.log)
    requires forall id | id in s.net.stage :: id < s.net.admitted
    ensures var t := ListenerApply(s, e, act);
            AcceptLedger(t.m, t.net) && SessionLedger(t.maxSessions, t.m, t.net) && RecordLedger(t.m, t.net, t.log)
  {
    hide Number, Undecided, ListenerApply, HasConnection;
    ListenerShape(s, e, act);
    UndecidedMoves(s.net.listeners, e, ListenerApply(s, e, act).net.listeners[e]);
    if Spawns(s, act) {
      forall u {
        NumberAfterUpdate(s.net.stage, s.net.admitted, Spawned, u);
      }
    }
  }

  lemma {:induction false} ListenerKeepsOrder(s: State, e: nat, act: ListenerAct)
    requires ListenerEnabled(s, e, act) && Owned(s.net) && Order(s.queueCap, s.m, s.log) && Once(s.net, s.log)
    ensures var t := ListenerApply(s, e, act);
            Order(t.queueCap, t.m, t.log) && Once(t.net, t.log)
  {
    hide ListenerApply, HasConnection;
    ListenerShape(s, e, act);
    StagesAreAdmitted(s.net);
  }

  lemma {:induction false} ListenerKeepsOthers(s: State, e: nat, act: ListenerAct)
    requires ListenerEnabled(s, e, act) && Owned(s.net) && Supervision(s)
    ensures var t := ListenerApply(s, e, act);
            Owned(t.net) && Supervision(t)
  {
    hide ListenerApply, HasConnection;
    ListenerShape(s, e, act);
  }

  // ---------- The gate ----------

  lemma {:induction false} AdmittedNow(l: RateLimit.Limits, ops: seq<RateLimit.Op>, key: Ip, now: nat)
    requires Canonical(key) == key && RateLimit.CheckStep(l, RateLimit.Run(l, ops), key, now).1 == RateLimit.Allowed
    ensures |RateLimit.Admitted(l, ops + [RateLimit.Check(key, now)], key)| == |RateLimit.Admitted(l, ops, key)| + 1
  {
    assert Front(ops + [RateLimit.Check(key, now)]) == ops;
  }

  lemma {:induction false} CanonicalTwice(ip: Ip)
    ensures Canonical(Canonical(ip)) == Canonical(ip)
  {
  }

  /** The gate after one more operation has taken the limiter's lock. */
  function Grown(gate: Gate, op: RateLimit.Op): Gate {
    gate.(limiter := RateLimit.Step(gate.limits, gate.limiter, op), ops := gate.ops + [op])
  }

  lemma {:induction false} StaysGenuine(gate: Gate, op: RateLimit.Op, t: Ticket)
    requires Genuine(gate, t)
    ensures Genuine(Grown(gate, op), t)
  {
    hide RateLimit.Admits, RateLimit.Step;
    assert Front(gate.ops + [op]) == gate.ops;
  }

  lemma {:induction false} GrownIsGated(net: Net, gate: Gate, op: RateLimit.Op)
    requires Gated(net, gate) && (op.Check? ==> Canonical(op.ip) == op.ip && op.ip !in gate.ignored)
    ensures Gated(net, Grown(gate, op))
  {
    hide Genuine, Carried, RateLimit.Step, RateLimit.Run, Canonical;
    RateLimit.RunSnoc(gate.limits, gate.ops, op);
    forall h | h in gate.tickets ensures Genuine(Grown(gate, op), gate.tickets[h]) {
      StaysGenuine(gate, op, gate.tickets[h]);
    }
  }

  /** A listener gets a new ticket. */
  lemma {:induction false} GrantIsGated(net: Net, gate: Gate, e: nat, t: Ticket)
    requires Gated(net, gate) && Genuine(gate, t) && forall h | h in gate.tickets :: gate.tickets[h] != t
    ensures Gated(net.(listeners := net.listeners[e := Cleared]), gate.(tickets := gate.tickets[Hand(e) := t]))
  {
    hide RateLimit.Run, RateLimit.Admitted, Canonical;
  }

  lemma {:induction false} MoveIsGated(net: Net, gate: Gate, e: nat, phase: ListenerPhase)
    requires Gated(net, gate) && phase != Deciding && phase != Cleared
    ensures Gated(net.(listeners := net.listeners[e := phase]), gate)
  {
    hide RateLimit.Run, Genuine, Canonical;
  }

  lemma {:induction false} DecideKeepsGate(s: State, e: nat, now: nat)
    requires e in s.net.listeners && e in s.gate.from && Gated(s.net, s.gate)
    ensures var t := DecideOn(s, e, now); Gated(t.net, t.gate)
  {
    hide RateLimit.CheckStep, RateLimit.Admitted, RateLimit.Run, Canonical, Gated;
    var gate, key := s.gate, Canonical(s.gate.from[e]);
    CanonicalTwice(s.gate.from[e]);
    if key in gate.ignored {
      MoveIsGated(s.net, gate, e, Refused(IgnoredIp));
    } else {
      var op, ticket := RateLimit.Check(key, now), Ticket(key, |RateLimit.Admitted(gate.limits, gate.ops, key)|);
      var d := RateLimit.CheckStep(gate.limits, gate.limiter, key, now).1;
      GrownIsGated(s.net, gate, op);
      if d == RateLimit.Allowed {
        NewTicket(s.net, gate, key, now);
        GrantIsGated(s.net, Grown(gate, op), e, ticket);
      } else {
        MoveIsGated(s.net, Grown(gate, op), e, Refused(ReasonOf(d)));
      }
    }
  }

  lemma {:induction false} NewTicket(net: Net, gate: Gate, key: Ip, now: nat)
    requires Gated(net, gate) && Canonical(key) == key && key !in gate.ignored
    requires RateLimit.CheckStep(gate.limits, gate.limiter, key, now).1 == RateLimit.Allowed
    ensures var t := Ticket(key, |RateLimit.Admitted(gate.limits, gate.ops, key)|);
            Genuine(Grown(gate, RateLimit.Check(key, now)), t) && forall h | h in gate.tickets :: gate.tickets[h] != t
  {
    hide RateLimit.CheckStep, RateLimit.Admitted, RateLimit.Run, Canonical;
    AdmittedNow(gate.limits, gate.ops, key, now);
  }

  /** A listener gives its ticket up, or hands it to the session it spawns. */
  lemma {:induction false} GiveUpIsGated(net: Net, gate: Gate, e: nat, phase: ListenerPhase)
    requires Gated(net, gate) && phase != Deciding && phase != Cleared
    ensures Gated(net.(listeners := net.listeners[e := phase]), gate.(tickets := gate.tickets - {Hand(e)}))
  {
    hide RateLimit.Run, RateLimit.Admitted, Canonical;
    var fewer := gate.tickets - {Hand(e)};
    assert forall h | h in fewer :: h in gate.tickets && fewer[h] == gate.tickets[h];
  }

  lemma {:induction false} HandOnIsGated(net: Net, gate: Gate, t: Ticket, after: Net)
    requires Gated(net, gate) && Genuine(gate, t) && forall h | h in gate.tickets :: gate.tickets[h] != t
    requires after.listeners == net.listeners && after.admitted == net.admitted + 1
    ensures Gated(after, gate.(tickets := gate.tickets[Of(net.admitted) := t]))
  {
    hide RateLimit.Run, RateLimit.Admitted, Canonical;
  }

  lemma {:induction false} AcquireKeepsGate(s: State, e: nat)
    requires e in s.net.listeners && Hand(e) in s.gate.tickets && Gated(s.net, s.gate)
    ensures var t := AcquireFor(s, e); Gated(t.net, t.gate)
  {
    hide RateLimit.Run, RateLimit.Admitted, Canonical, Gated, Genuine;
    var gate, t, phase := s.gate, AcquireFor(s, e), if s.net.permits == 0 then Refused(MaxSessions) else Running;
    var ticket, without := gate.tickets[Hand(e)], gate.(tickets := gate.tickets - {Hand(e)});
    TicketIsUnique(s.net, gate, e);
    GiveUpIsGated(s.net, gate, e, phase);
    if s.net.permits > 0 {
      HandOnIsGated(s.net.(listeners := s.net.listeners[e := Running]), without, ticket, t.net);
    }
  }

  lemma {:induction false} TicketIsUnique(net: Net, gate: Gate, e: nat)
    requires Gated(net, gate) && Hand(e) in gate.tickets
    ensures var without := gate.(tickets := gate.tickets - {Hand(e)});
            Genuine(without, gate.tickets[Hand(e)])
                && forall h | h in without.tickets :: without.tickets[h] != gate.tickets[Hand(e)]
  {
    hide RateLimit.Run, RateLimit.Admitted, Canonical, Carried;
  }

  /** A connection comes in: its address is known from now on. */
  lemma {:induction false} AcceptIsGated(net: Net, gate: Gate, e: nat, ip: Ip)
    requires Gated(net, gate)
    ensures Gated(net.(listeners := net.listeners[e := Deciding]), gate.(from := gate.from[e := ip]))
  {
    hide RateLimit.Run, RateLimit.Admitted, Canonical;
  }

  lemma {:induction false} ListenerKeepsGate(s: State, e: nat, act: ListenerAct)
    requires ListenerEnabled(s, e, act) && Gated(s.net, s.gate)
    ensures var t := ListenerApply(s, e, act); Gated(t.net, t.gate)
  {
    hide Gated, DecideOn, AcquireFor;
    match act
    case Accept(ip) => AcceptIsGated(s.net, s.gate, e, ip);
    case Decide(now) => DecideKeepsGate(s, e, now);
    case Acquire => AcquireKeepsGate(s, e);
    case _ => MoveIsGated(s.net, s.gate, e, ListenerApply(s, e, act).net.listeners[e]);
  }

  lemma {:induction false} MaintKeepsInv(s: State, act: MaintAct)
    requires MaintEnabled(s, act) && Inv(s)
    ensures Inv(MaintApply(s, act))
  {
    hide AcceptLedger, SessionLedger, RecordLedger, Owned, Order, Once, Gated;
    if act.Tick? {
      GrownIsGated(s.net, s.gate, RateLimit.Evict(act.now));
    }
  }

  /** The stage a session moves to, if its task goes on. */
  function Next(stage: Stage): Stage {
    match stage
    case Spawned => Counted
    case Counted => Guarded
    case Guarded => Closing
    case Closing => Logged
    case Logged => Unguarded
    case _ => Released
  }

  lemma {:induction false} SessionMoves(s: State, id: nat)
    requires id in s.net.stage
    ensures var was, now := s.net.stage[id], SessionApply(s, id).net.stage;
            forall u :: Number(now, u) == Number(s.net.stage, u)
              + (if was != Released && u == Next(was) then 1 else 0) - (if u == was then 1 else 0)
  {
    hide Number;
    var was, now := s.net.stage[id], SessionApply(s, id).net.stage;
    if was == Released {
      assert now == s.net.stage - {id};
    } else {
      assert now == s.net.stage[id := Next(was)];
    }
    forall u
      ensures Number(now, u) == Number(s.net.stage, u)
              + (if was != Released && u == Next(was) then 1 else 0) - (if u == was then 1 else 0)
    {
      if was == Released {
        NumberAfterRemoval(s.net.stage, id, u);
      } else {
        NumberAfterUpdate(s.net.stage, id, Next(was), u);
      }
    }
  }

  lemma {:induction false} SessionKeepsRecordLedger(s: State, id: nat)
    requires id in s.net.stage && RecordLedger(s.m, s.net, s.log)
    ensures var t := SessionApply(s, id);
            RecordLedger(t.m, t.net, t.log)
  {
    hide Number;
    SessionMoves(s, id);
  }

  lemma {:induction false} SessionKeepsLedgers(s: State, id: nat)
    requires id in s.net.stage
    requires AcceptLedger(s.m, s.net) && SessionLedger(s.maxSessions, s.m, s.net) && RecordLedger(s.m, s.net, s.log)
    ensures var t := SessionApply(s, id);
            AcceptLedger(t.m, t.net) && SessionLedger(t.maxSessions, t.m, t.net) && RecordLedger(t.m, t.net, t.log)
  {
    hide Number, Undecided, RecordLedger;
    SessionKeepsRecordLedger(s, id);
    SessionMoves(s, id);
  }

  lemma {:induction false} SessionKeepsSupervision(s: State, id: nat)
    requires id in s.net.stage && Supervision(s)
    ensures Supervision(SessionApply(s, id))
  {
    var t := SessionApply(s, id);
    assert t.net.listeners == s.net.listeners && t.log.writer == s.log.writer;
    assert t.main == s.main && t.server == s.server && t.cancelled == s.cancelled;
  }

  lemma {:induction false} SessionKeepsOwned(s: State, id: nat)
    requires id in s.net.stage && Owned(s.net)
    ensures Owned(SessionApply(s, id).net)
  {
    var t := SessionApply(s, id);
    assert t.net.listeners == s.net.listeners && t.net.admitted == s.net.admitted;
    if s.net.stage[id] == Released {
      assert t.net.stage.Keys == s.net.stage.Keys - {id} && t.net.owner == s.net.owner - {id};
    } else {
      assert t.net.stage.Keys == s.net.stage.Keys && t.net.owner == s.net.owner;
    }
  }

  lemma {:induction false} OfferKeepsOrder(s: State, id: nat)
    requires Order(s.queueCap, s.m, s.log) && id !in s.log.refused
    ensures var t := Offer(s, id);
            Order(t.queueCap, t.m, t.log)
  {
    var log := s.log;
    if !log.closed && |log.queue| < s.queueCap {
      assert log.lost == [];
      assert log.written + InHand(log.writer) + (log.queue + [id]) + [] == log.enqueued + [id];
    }
  }

  lemma {:induction false} SessionKeepsOrder(s: State, id: nat)
    requires id in s.net.stage && Order(s.queueCap, s.m, s.log) && Once(s.net, s.log)
    ensures var t := SessionApply(s, id);
            Order(t.queueCap, t.m, t.log)
  {
    if s.net.stage[id] == Closing {
      assert Unlogged(s.net.stage, id);
      OfferKeepsOrder(s.(net := s.net.(stage := s.net.stage[id := Logged])), id);
    } else {
      hide Once;
      assert SessionApply(s, id).log == s.log;
    }
  }

  lemma {:induction false} SessionKeepsOnce(s: State, id: nat)
    requires id in s.net.stage && Owned(s.net) && Once(s.net, s.log)
    ensures var t := SessionApply(s, id);
            Once(t.net, t.log)
  {
    var t := SessionApply(s, id);
    assert id in s.net.owner && id < s.net.admitted;
    if s.net.stage[id] == Closing {
      var was, log := s.log, t.log;
      assert Unlogged(s.net.stage, id) && id !in was.enqueued && id !in was.refused;
      assert forall k: nat :: Unlogged(t.net.stage, k) <==> Unlogged(s.net.stage, k) && k != id;
      assert (log.refused == was.refused + {id} && log.enqueued == was.enqueued)
          || (log.refused == was.refused && log.enqueued == was.enqueued + [id]);
    } else {
      assert forall k: nat :: Unlogged(t.net.stage, k) <==> Unlogged(s.net.stage, k);
      assert t.log == s.log && t.net.admitted == s.net.admitted;
    }
  }

  lemma {:induction false} WriterKeepsLedgers(s: State, ok: bool)
    requires WriterEnabled(s, ok) && Inv(s)
    ensures var t := WriterApply(s, ok);
            AcceptLedger(t.m, t.net) && SessionLedger(t.maxSessions, t.m, t.net) && RecordLedger(t.m, t.net, t.log)
  {
    hide Once, Owned, Supervision, Gated, Number, Undecided;
  }

  lemma {:induction false} WriterKeepsOrder(s: State, ok: bool)
    requires WriterEnabled(s, ok) && Inv(s)
    ensures var t := WriterApply(s, ok);
            Order(t.queueCap, t.m, t.log)
  {
    hide Once, Owned, Supervision, Gated, AcceptLedger, SessionLedger, RecordLedger;
    var log := s.log;
    if log.writer.Idle? && log.queue != [] {
      assert log.queue == [log.queue[0]] + log.queue[1..];
    } else if log.writer.Holding? && ok {
      assert log.written + [log.writer.id] + log.queue + log.lost
             == (log.written + [log.writer.id]) + [] + log.queue + log.lost;
    } else if log.writer.Errored? {
      assert log.written + [log.writer.id] + log.queue + [] == log.written + [] + [] + ([log.writer.id] + log.queue);
    }
  }

  lemma {:induction false} WriterKeepsOthers(s: State, ok: bool)
    requires WriterEnabled(s, ok) && Inv(s)
    ensures var t := WriterApply(s, ok);
            Owned(t.net) && Once(t.net, t.log) && Gated(t.net, t.gate) && Supervision(t)
  {
    hide AcceptLedger, SessionLedger, RecordLedger, Order, Gated;
  }

  lemma {:induction false} ReadyIsOutsideInv(s: State, t: State)
    requires Inv(s) && Supervision(t)
    requires t.net == s.net && t.gate == s.gate && t.log == s.log && t.maxSessions == s.maxSessions
             && t.queueCap == s.queueCap
    requires t.m == s.m.(ready := t.m.ready)
    ensures Inv(t)
  {
    hide Number, Undecided, Once, Owned, Gated, Supervision;
  }

  /** The steps of the server and of main, and what signals and management failures set off. */
  lemma {:induction false} SupervisorsKeepInv(s: State)
    requires Inv(s)
    ensures ServerEnabled(s) ==> Inv(ServerApply(s))
    ensures MainEnabled(s) ==> Inv(MainApply(s))
    ensures Enabled(s, Signal) ==> Inv(Apply(s, Signal))
    ensures Enabled(s, ManagementFails) ==> Inv(Apply(s, ManagementFails))
  {
    hide AcceptLedger, SessionLedger, RecordLedger, Owned, Order, Once, Gated, Supervision;
    SupervisorsKeepSupervision(s);
    if ServerEnabled(s) {
      ReadyIsOutsideInv(s, ServerApply(s));
    }
    if MainEnabled(s) {
      ReadyIsOutsideInv(s, MainApply(s));
    }
    if Enabled(s, Signal) {
      ReadyIsOutsideInv(s, Apply(s, Signal));
    }
    if Enabled(s, ManagementFails) {
      ReadyIsOutsideInv(s, Apply(s, ManagementFails));
    }
  }

  lemma {:induction false} SupervisorsKeepSupervision(s: State)
    requires Supervision(s)
    ensures ServerEnabled(s) ==> Supervision(ServerApply(s))
    ensures MainEnabled(s) ==> Supervision(MainApply(s))
    ensures Enabled(s, Signal) ==> Supervision(Apply(s, Signal))
    ensures Enabled(s, ManagementFails) ==> Supervision(Apply(s, ManagementFails))
  {
  }

  lemma {:induction false} SessionKeepsGate(s: State, id: nat)
    requires id in s.net.stage && Gated(s.net, s.gate)
    ensures var t := SessionApply(s, id); Gated(t.net, t.gate)
  {
    hide Genuine, RateLimit.Run;
    var t := SessionApply(s, id);
    assert t.gate == s.gate && t.net.listeners == s.net.listeners && t.net.admitted == s.net.admitted;
  }

  lemma {:induction false} StagesAreAdmitted(net: Net)
    requires Owned(net)
    ensures forall id | id in net.stage :: id < net.admitted
  {
    assert forall id | id in net.stage :: id in net.owner;
  }

  lemma {:induction false} StepKeepsInv(s: State, step: Step)
    requires Enabled(s, step) && Inv(s)
    ensures Inv(Apply(s, step))
  {
    hide AcceptLedger, SessionLedger, RecordLedger, Owned, Order, Once, Gated, Supervision;
    match step
    case Listener(e, act) =>
      StagesAreAdmitted(s.net);
      ListenerKeepsLedgers(s, e, act);
      ListenerKeepsOrder(s, e, act);
      ListenerKeepsOthers(s, e, act);
      ListenerKeepsGate(s, e, act);
    case Session(id) =>
      SessionKeepsLedgers(s, id);
      SessionKeepsOwned(s, id);
      SessionKeepsSupervision(s, id);
      SessionKeepsOrder(s, id);
      SessionKeepsOnce(s, id);
      SessionKeepsGate(s, id);
    case Writer(ok) =>
      WriterKeepsLedgers(s, ok);
      WriterKeepsOrder(s, ok);
      WriterKeepsOthers(s, ok);
    case Maintenance(tick) => MaintKeepsInv(s, tick);
    case _ => SupervisorsKeepInv(s);
  }
}
