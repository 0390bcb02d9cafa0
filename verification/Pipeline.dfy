/** Admission, sessions, record queue, writer and shutdown as one transition system
    (src/server.rs, src/logger.rs, src/metrics.rs, src/main.rs).

    Each step is one atomic action of one task, and the steps of all tasks interleave freely.
    try_send is atomic, and so is reading the queue length after the queue has been closed.
    Tasks neither panic nor get aborted. Signals, connections and failing listeners come from outside
    and may come at any time they are waited for. */
module Pipeline {
  import opened Address
  import opened RecordQueue
  import RateLimit

  datatype Reason = IgnoredIp | RateLimited | TableFull | LimiterUnavailable | MaxSessions

  /** rejected_total by reason. */
  datatype Rejected = Rejected(ignored: nat, limited: nat, full: nat, unavailable: nat, sessions: nat) {
    function Sum(): nat {
      ignored + limited + full + unavailable + sessions
    }

    function Inc(r: Reason): (r': Rejected)
      ensures r'.Sum() == Sum() + 1
    {
      match r
      case IgnoredIp => this.(ignored := ignored + 1)
      case RateLimited => this.(limited := limited + 1)
      case TableFull => this.(full := full + 1)
      case LimiterUnavailable => this.(unavailable := unavailable + 1)
      case MaxSessions => this.(sessions := sessions + 1)
    }
  }

  datatype Metrics = Metrics(
    accepted: nat, rejected: Rejected, connections: nat, active: int, closedSessions: nat,
    droppedFull: nat, droppedClosed: nat, droppedWriter: nat, errors: nat, ready: bool)
  {
    function Dropped(): nat {
      droppedFull + droppedClosed + droppedWriter
    }
  }

  /** A listener task is at the top of its select; has found no cancellation there and waits; holds a
      connection it has not decided on, one to be counted as rejected, or one the limiter cleared;
      drains its sessions; or has returned. */
  datatype ListenerPhase = Running | Polled | Deciding | Refused(reason: Reason) | Cleared | Draining | Finished

  /** The last thing a session task did: it starts with a permit, counts the connection, raises the
      gauge, runs its protocol, logs its record, lowers the gauge and returns the permit. A joined
      session has no stage. */
  datatype Stage = Spawned | Counted | Guarded | Closing | Logged | Unguarded | Released

  datatype Net = Net(
    listeners: map<nat, ListenerPhase>, stage: map<nat, Stage>, owner: map<nat, nat>,
    admitted: nat, permits: nat)

  /** The nth admission of one address by the limiter, held by a listener or a session. */
  datatype Ticket = Ticket(key: Ip, nth: nat)

  datatype Holder = Hand(e: nat) | Of(id: nat)

  /** The exclusion set, the limiter with everything that took its lock, the addresses of connections
      being decided, and the tickets given out. */
  datatype Gate = Gate(
    ignored: set<Ip>, limits: RateLimit.Limits, limiter: RateLimit.State, ops: seq<RateLimit.Op>,
    from: map<nat, Ip>, tickets: map<Holder, Ticket>)

  /** The maintenance task is at the top of its select, has found no cancellation there, or has
      returned. */
  datatype MaintPhase = Sleeping | Ticking | Stopped

  /** The writer waits, holds a record, is on its error path (having so far closed the queue,
      dropped readiness, counted the error), or has returned. */
  datatype WriterPhase =
    | Idle | Holding(id: nat) | Closed(id: nat) | Unready(id: nat) | Errored(id: nat) | Returned(ok: bool)

  /** The record queue and its history: what it accepted, what was written, what the writer error
      lost, and what it refused. */
  datatype Log = Log(
    queue: seq<nat>, closed: bool, writer: WriterPhase,
    enqueued: seq<nat>, written: seq<nat>, lost: seq<nat>, refused: set<nat>)

  datatype ServerPhase = Starting | SawNoShutdown | Serving | Stopping | Cancelling | Joining | ServerDone

  datatype MainPhase = Selecting | MustCancel | MustUnready | AwaitServer | MustDrop | AwaitLogger | MainDone

  datatype State = State(
    maxSessions: nat, queueCap: nat, m: Metrics, net: Net, gate: Gate, log: Log,
    maint: MaintPhase, server: ServerPhase, main: MainPhase, cancelled: bool)

  datatype ListenerAct = Poll | Wake | Accept(ip: Ip) | Decide(now: nat) | Acquire | Count | Stop | Fail | Finish

  datatype MaintAct = Look | Doze | Tick(now: nat) | Quit

  datatype Step =
    | Listener(e: nat, act: ListenerAct)
    | Session(id: nat)
    | Writer(ok: bool)
    | Maintenance(tick: MaintAct)
    | Server
    | Main
    | Signal
    | ManagementFails

  // ---------- What each task can do next ----------

  predicate AllFinished(net: Net) {
    forall e | e in net.listeners :: net.listeners[e] == Finished
  }

  /** Nobody holds a Logger any more: main has dropped the shared state, and the server task and
      the listener tasks (which outlive their sessions) have returned. */
  predicate ProducersGone(s: State) {
    s.main in {AwaitLogger, MainDone} && s.server == ServerDone && AllFinished(s.net)
  }

  predicate ListenerEnabled(s: State, e: nat, act: ListenerAct) {
    && e in s.net.listeners
    && match act
       case Poll => s.net.listeners[e] == Running && !s.cancelled
       case Wake => s.net.listeners[e] == Polled
       case Accept(_) => s.net.listeners[e] == Polled
       case Decide(_) => s.net.listeners[e] == Deciding && e in s.gate.from
       case Acquire => s.net.listeners[e] == Cleared && Hand(e) in s.gate.tickets
       case Count => s.net.listeners[e].Refused?
       case Stop => s.net.listeners[e] == Running && s.cancelled
       case Fail => s.net.listeners[e] == Polled
       case Finish => s.net.listeners[e] == Draining && e !in s.net.owner.Values
  }

  predicate WriterEnabled(s: State, ok: bool) {
    match s.log.writer
    case Idle => ok && (s.log.queue != [] || ProducersGone(s))
    case Holding(_) => true
    case Returned(_) => false
    case _ => !ok
  }

  predicate MaintEnabled(s: State, act: MaintAct) {
    match act
    case Look => s.maint == Sleeping && !s.cancelled
    case Doze => s.maint == Ticking
    case Tick(_) => s.maint == Ticking
    case Quit => s.maint == Sleeping && s.cancelled
  }

  /** In Serving the server waits for cancellation or a worker's return, which implies it. */
  predicate ServerEnabled(s: State) {
    && s.server != ServerDone
    && (s.server == Serving ==> s.cancelled)
    && (s.server == Joining ==> AllFinished(s.net) && s.maint == Stopped)
  }

  /** In Selecting main waits for a signal, the server or the writer. */
  predicate MainEnabled(s: State) {
    && s.main != MainDone
    && (s.main == Selecting ==> s.server == ServerDone || s.log.writer.Returned?)
    && (s.main == AwaitServer ==> s.server == ServerDone)
    && (s.main == AwaitLogger ==> s.log.writer.Returned?)
  }

  predicate Enabled(s: State, step: Step) {
    match step
    case Listener(e, act) => ListenerEnabled(s, e, act)
    case Session(id) => id in s.net.stage
    case Writer(ok) => WriterEnabled(s, ok)
    case Maintenance(tick) => MaintEnabled(s, tick)
    case Server => ServerEnabled(s)
    case Main => MainEnabled(s)
    case Signal => s.main == Selecting
    case ManagementFails => !s.cancelled && s.server != ServerDone
  }

  /** A step that something outside the process decides on. */
  predicate FromOutside(step: Step) {
    step.Signal? || step.ManagementFails? || (step.Listener? && (step.act.Accept? || step.act.Fail?))
  }

  function ReasonOf(d: RateLimit.Decision): Reason {
    match d
    case Capacity => TableFull
    case Unavailable => LimiterUnavailable
    case _ => RateLimited
  }

  function Move(s: State, e: nat, phase: ListenerPhase): State {
    s.(net := s.net.(listeners := s.net.listeners[e := phase]))
  }

  /** The exclusion set, then the limiter, on the canonical address. */
  function DecideOn(s: State, e: nat, now: nat): State
    requires e in s.gate.from
  {
    var gate, key := s.gate, Canonical(s.gate.from[e]);
    if key in gate.ignored then Move(s, e, Refused(IgnoredIp))
    else
      var (limiter, d) := RateLimit.CheckStep(gate.limits, gate.limiter, key, now);
      var asked := gate.(limiter := limiter, ops := gate.ops + [RateLimit.Check(key, now)]);
      if d == RateLimit.Allowed then
        var ticket := Ticket(key, |RateLimit.Admitted(gate.limits, gate.ops, key)|);
        Move(s, e, Cleared).(gate := asked.(tickets := gate.tickets[Hand(e) := ticket]))
      else Move(s, e, Refused(ReasonOf(d))).(gate := asked)
  }

  /** try_acquire_owned, then the session task. */
  function AcquireFor(s: State, e: nat): State
    requires Hand(e) in s.gate.tickets
  {
    var net, tickets := s.net, s.gate.tickets - {Hand(e)};
    if net.permits == 0 then Move(s, e, Refused(MaxSessions)).(gate := s.gate.(tickets := tickets))
    else
      s.(net := Net(net.listeners[e := Running], net.stage[net.admitted := Spawned], net.owner[net.admitted := e],
                    net.admitted + 1, net.permits - 1),
         gate := s.gate.(tickets := tickets[Of(net.admitted) := s.gate.tickets[Hand(e)]]))
  }

  function ListenerApply(s: State, e: nat, act: ListenerAct): State
    requires ListenerEnabled(s, e, act)
  {
    match act
    case Poll => Move(s, e, Polled)
    case Wake => Move(s, e, Running)
    case Accept(ip) =>
      Move(s, e, Deciding).(m := s.m.(accepted := s.m.accepted + 1), gate := s.gate.(from := s.gate.from[e := ip]))
    case Decide(now) => DecideOn(s, e, now)
    case Acquire => AcquireFor(s, e)
    case Count => Move(s, e, Running).(m := s.m.(rejected := s.m.rejected.Inc(s.net.listeners[e].reason)))
    case Stop => Move(s, e, Draining)
    case Fail => Move(s, e, Draining).(cancelled := true)
    case Finish => Move(s, e, Finished)
  }

  /** try_send. */
  function Offer(s: State, id: nat): State {
    var log, m := s.log, s.m;
    match TrySend(|log.queue|, s.queueCap, log.closed)
    case ChannelClosed => s.(m := m.(droppedClosed := m.droppedClosed + 1), log := log.(refused := log.refused + {id}))
    case QueueFull => s.(m := m.(droppedFull := m.droppedFull + 1), log := log.(refused := log.refused + {id}))
    case Sent => s.(log := log.(queue := log.queue + [id], enqueued := log.enqueued + [id]))
  }

  function SessionApply(s: State, id: nat): State
    requires id in s.net.stage
  {
    var net, m := s.net, s.m;
    match net.stage[id]
    case Spawned => s.(m := m.(connections := m.connections + 1), net := net.(stage := net.stage[id := Counted]))
    case Counted => s.(m := m.(active := m.active + 1), net := net.(stage := net.stage[id := Guarded]))
    case Guarded => s.(m := m.(closedSessions := m.closedSessions + 1), net := net.(stage := net.stage[id := Closing]))
    case Closing => Offer(s.(net := net.(stage := net.stage[id := Logged])), id)
    case Logged => s.(m := m.(active := m.active - 1), net := net.(stage := net.stage[id := Unguarded]))
    case Unguarded => s.(net := net.(stage := net.stage[id := Released], permits := net.permits + 1))
    case Released => s.(net := net.(stage := net.stage - {id}, owner := net.owner - {id}))
  }

  function WriterApply(s: State, ok: bool): State
    requires WriterEnabled(s, ok)
  {
    var log, m := s.log, s.m;
    match log.writer
    case Idle =>
      if log.queue == [] then s.(log := log.(writer := Returned(true), closed := true))
      else s.(log := log.(writer := Holding(log.queue[0]), queue := log.queue[1..]))
    case Holding(id) =>
      if ok then s.(log := log.(writer := Idle, written := log.written + [id]))
      else s.(log := log.(writer := Closed(id), closed := true))
    case Closed(id) => s.(m := m.(ready := false), log := log.(writer := Unready(id)))
    case Unready(id) => s.(m := m.(errors := m.errors + 1), log := log.(writer := Errored(id)))
    case Errored(id) =>
      s.(m := m.(droppedWriter := m.droppedWriter + GivenUp(|log.queue|)),
         log := log.(writer := Returned(false), lost := [id] + log.queue, queue := []))
    case Returned(_) => s
  }

  function MaintApply(s: State, act: MaintAct): State
    requires MaintEnabled(s, act)
  {
    match act
    case Look => s.(maint := Ticking)
    case Doze => s.(maint := Sleeping)
    case Tick(now) =>
      s.(maint := Sleeping,
         gate := s.gate.(limiter := RateLimit.Step(s.gate.limits, s.gate.limiter, RateLimit.Evict(now)),
                         ops := s.gate.ops + [RateLimit.Evict(now)]))
    case Quit => s.(maint := Stopped)
  }

  function ServerApply(s: State): State
    requires ServerEnabled(s)
  {
    match s.server
    case Starting => s.(server := if s.cancelled then Serving else SawNoShutdown)
    case SawNoShutdown => s.(m := s.m.(ready := true), server := Serving)
    case Serving => s.(server := Stopping)
    case Stopping => s.(m := s.m.(ready := false), server := Cancelling)
    case Cancelling => s.(cancelled := true, server := Joining)
    case _ => s.(server := ServerDone)
  }

  function MainApply(s: State): State
    requires MainEnabled(s)
  {
    match s.main
    case Selecting => s.(main := MustCancel)
    case MustCancel => s.(cancelled := true, main := MustUnready)
    case MustUnready => s.(m := s.m.(ready := false), main := AwaitServer)
    case AwaitServer => s.(main := MustDrop)
    case MustDrop => s.(main := AwaitLogger)
    case _ => s.(main := MainDone)
  }

  function Apply(s: State, step: Step): State
    requires Enabled(s, step)
  {
    match step
    case Listener(e, act) => ListenerApply(s, e, act)
    case Session(id) => SessionApply(s, id)
    case Writer(ok) => WriterApply(s, ok)
    case Maintenance(tick) => MaintApply(s, tick)
    case Server => ServerApply(s)
    case Main => MainApply(s)
    case Signal => s.(main := MustCancel)
    case ManagementFails => s.(cancelled := true)
  }

  datatype Config = Config(listeners: set<nat>, maxSessions: nat, queueCap: nat, ignored: set<Ip>,
                           limits: RateLimit.Limits)

  /** AppState::new keeps the exclusion list in canonical form. */
  function Initial(c: Config): State {
    State(c.maxSessions, c.queueCap,
          Metrics(0, Rejected(0, 0, 0, 0, 0), 0, 0, 0, 0, 0, 0, 0, false),
          Net(map e | e in c.listeners :: Running, map[], map[], 0, c.maxSessions),
          Gate(set ip | ip in c.ignored :: Canonical(ip), c.limits, RateLimit.State(map[], false), [], map[], map[]),
          Log([], false, Idle, [], [], [], {}),
          Sleeping, Starting, Selecting, false)
  }

  /** The state reached by a sequence of steps, each enabled where it is taken. */
  predicate Runs(s: State, steps: seq<Step>)
    decreases |steps|
  {
    steps == [] || (Enabled(s, steps[0]) && Runs(Apply(s, steps[0]), steps[1..]))
  }

  function After(s: State, steps: seq<Step>): State
    requires Runs(s, steps)
    decreases |steps|
  {
    if steps == [] then s else After(Apply(s, steps[0]), steps[1..])
  }
}
