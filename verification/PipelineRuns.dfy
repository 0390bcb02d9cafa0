/** What holds over whole runs of the pipeline: conservation, bounds, order, readiness, the rate limit
    and the end of a shutdown. */
module PipelineRuns {
  import opened Bytes
  import opened Address
  import opened Pipeline
  import opened PipelineInv
  import RateLimit

  lemma {:induction false} RunKeepsInv(s: State, steps: seq<Step>)
    requires Inv(s) && Runs(s, steps)
    ensures Inv(After(s, steps))
    decreases |steps|
  {
    hide Inv;
    if steps != [] {
      StepKeepsInv(s, steps[0]);
      RunKeepsInv(Apply(s, steps[0]), steps[1..]);
    }
  }

  predicate Reachable(s: State, c: Config, steps: seq<Step>) {
    Runs(Initial(c), steps) && s == After(Initial(c), steps)
  }

  lemma {:induction false} ReachableInv(s: State, c: Config, steps: seq<Step>)
    requires Reachable(s, c, steps)
    ensures Inv(s)
  {
    hide Inv, Runs, After, Initial;
    InitialInv(c);
    RunKeepsInv(Initial(c), steps);
  }

  /** The configuration a state runs under. */
  ghost predicate Under(s: State, c: Config) {
    && s.maxSessions == c.maxSessions && s.queueCap == c.queueCap && s.gate.limits == c.limits
    && s.gate.ignored == set ip | ip in c.ignored :: Canonical(ip)
  }

  lemma {:induction false} StepKeepsConfig(s: State, step: Step, c: Config)
    requires Enabled(s, step) && Under(s, c)
    ensures Under(Apply(s, step), c)
  {
    hide Canonical, RateLimit.CheckStep, RateLimit.Admitted, RateLimit.Step;
  }

  lemma {:induction false} RunKeepsConfig(s: State, steps: seq<Step>, c: Config)
    requires Runs(s, steps) && Under(s, c)
    ensures Under(After(s, steps), c)
    decreases |steps|
  {
    hide Under, Apply;
    if steps != [] {
      StepKeepsConfig(s, steps[0], c);
      RunKeepsConfig(Apply(s, steps[0]), steps[1..], c);
    }
  }

  lemma {:induction false} ReachableConfig(s: State, c: Config, steps: seq<Step>)
    requires Reachable(s, c, steps)
    ensures Under(s, c)
  {
    hide Runs, After;
    RunKeepsConfig(Initial(c), steps, c);
  }

  /** Both ledgers balance in every reachable state: an accepted connection is rejected, admitted or
      still in a listener's hand; an admitted session has yet to be counted or is counted once; and each
      counted session's record is not logged yet, queued, in the writer's hand, written, or
      counted as dropped. */
  lemma {:induction false} LedgersBalance(s: State, c: Config, steps: seq<Step>)
    requires Reachable(s, c, steps)
    ensures s.m.accepted == s.m.rejected.Sum() + s.net.admitted + Undecided(s.net.listeners)
    ensures s.net.admitted == Number(s.net.stage, Spawned) + s.m.connections
    ensures s.m.connections
         == Number(s.net.stage, Counted) + Number(s.net.stage, Guarded) + Number(s.net.stage, Closing)
            + |s.log.queue| + |InHand(s.log.writer)| + |s.log.written|
            + s.m.droppedFull + s.m.droppedClosed + s.m.droppedWriter
  {
    hide Reachable, Number, Undecided, Owned, Order, Once, Gated, Supervision;
    ReachableInv(s, c, steps);
  }

  /** The gauge never exceeds the permits out, nor these the configured maximum; the queue never
      exceeds its capacity. */
  lemma {:induction false} BoundsHold(s: State, c: Config, steps: seq<Step>)
    requires Reachable(s, c, steps)
    ensures 0 <= s.m.active <= c.maxSessions - s.net.permits <= c.maxSessions
    ensures |s.log.queue| <= c.queueCap
    ensures |s.gate.limiter.table| <= c.limits.maxIps
  {
    hide Reachable, Number, Owned, Once, Supervision, AcceptLedger, RecordLedger, RateLimit.Run, Genuine, Carried;
    RateLimit.TableIsBounded(s.gate.limits, s.gate.ops);
    ReachableConfig(s, c, steps);
    ReachableInv(s, c, steps);
  }

  /** What was written is a prefix of what the queue accepted, in acceptance order; what the writer
      lost is the rest of it; a record enters the queue at most once and never after a refusal. */
  lemma {:induction false} WrittenIsPrefixOfAccepted(s: State, c: Config, steps: seq<Step>)
    requires Reachable(s, c, steps)
    ensures s.log.written <= s.log.enqueued
    ensures s.log.writer.Returned? ==> s.log.enqueued == s.log.written + s.log.lost
    ensures s.log.writer == Returned(true) ==> s.log.lost == []
    ensures forall i, j | 0 <= i < j < |s.log.enqueued| :: s.log.enqueued[i] != s.log.enqueued[j]
    ensures forall id: nat | id < s.net.admitted ::
              (if Unlogged(s.net.stage, id) then 1 else 0) + (if id in s.log.enqueued then 1 else 0)
              + (if id in s.log.refused then 1 else 0) == 1
  {
    hide Reachable, AcceptLedger, SessionLedger, RecordLedger, Supervision, Owned, Gated;
    ReachableInv(s, c, steps);
  }

  lemma {:induction false} NobodyLeft(s: State)
    requires Owned(s.net) && AllFinished(s.net)
    ensures s.net.stage == map[]
    ensures forall u :: Number(s.net.stage, u) == 0
    ensures Undecided(s.net.listeners) == 0
  {
    hide Number, Undecided;
    assert forall id | id in s.net.stage :: id in s.net.owner;
    assert s.net.stage.Keys == {};
    NoSessions(s.net.stage);
    NoneUndecided(s.net.listeners);
  }

  /** When main has joined everything, each accepted connection was either rejected or counted, and
      each counted session's record was either written or counted as dropped; no session, permit
      or queued record is left over. */
  lemma {:induction false} ShutdownAccountsForEverything(s: State, c: Config, steps: seq<Step>)
    requires Reachable(s, c, steps) && s.main == MainDone
    ensures s.m.accepted == s.m.rejected.Sum() + s.m.connections
    ensures s.m.connections == |s.log.written| + s.m.droppedFull + s.m.droppedClosed + s.m.droppedWriter
    ensures s.m.connections == s.m.closedSessions && s.m.active == 0
    ensures s.net.permits == c.maxSessions && s.net.stage == map[] && s.log.queue == []
    ensures s.log.enqueued == s.log.written + s.log.lost
    ensures s.m.errors == 0 ==> s.log.enqueued == s.log.written && s.m.droppedWriter == 0
  {
    hide Reachable, Once, Owned, Gated, Number, Undecided, AllFinished;
    ReachableInv(s, c, steps);
    ReachableConfig(s, c, steps);
    NobodyLeft(s);
  }

  /** The rule of GET /readyz. */
  predicate AnswersReady(m: Metrics) {
    m.ready && m.errors == 0
  }

  lemma {:induction false} ErrorsStay(s: State, step: Step)
    requires Enabled(s, step)
    ensures Apply(s, step).m.errors >= s.m.errors
  {
    hide ListenerApply;
    if step.Listener? {
      ListenerShape(s, step.e, step.act);
    }
  }

  /** Once the writer error is counted, /readyz never answers 200 again, even if the server task
      raises the ready gauge later. */
  lemma {:induction false} ErrorEndsReadiness(s: State, steps: seq<Step>)
    requires Runs(s, steps) && s.m.errors > 0
    ensures !AnswersReady(After(s, steps).m)
    decreases |steps|
  {
    hide Apply;
    if steps != [] {
      ErrorsStay(s, steps[0]);
      ErrorEndsReadiness(Apply(s, steps[0]), steps[1..]);
    }
  }

  // ---------- The rate limit over whole runs ----------

  /** The limiter's stamp of the admission a session was spawned for. */
  ghost function Stamp(gate: Gate, id: nat): nat
    requires Of(id) in gate.tickets && Genuine(gate, gate.tickets[Of(id)])
  {
    var t := gate.tickets[Of(id)];
    RateLimit.Admitted(gate.limits, gate.ops, t.key)[t.nth]
  }

  /** Numbers from a set spread at least as far as it has members. */
  lemma {:induction false} SpreadOf(nums: set<nat>) returns (lo: nat, hi: nat)
    requires nums != {}
    ensures lo in nums && hi in nums && lo + |nums| - 1 <= hi
  {
    hi := Largest(nums);
    var rest := nums - {hi};
    assert nums == rest + {hi} && |nums| == |rest| + 1;
    lo := hi;
    if rest != {} {
      var next;
      lo, next := SpreadOf(rest);
      assert next in nums && next != hi;
    }
  }

  lemma {:induction false} Largest(nums: set<nat>) returns (hi: nat)
    requires nums != {}
    ensures hi in nums && forall n | n in nums :: n <= hi
  {
    var first :| first in nums;
    var rest := nums - {first};
    assert forall n | n in nums :: n == first || n in rest;
    hi := first;
    if rest != {} {
      var other := Largest(rest);
      hi := if other > first then other else first;
    }
  }

  /** An excluded address, in whatever spelling it was configured or connects, reaches neither the
      limiter nor a permit. */
  lemma {:induction false} ExcludedNeverPass(s: State, c: Config, steps: seq<Step>)
    requires Reachable(s, c, steps)
    ensures forall op, ip | op in s.gate.ops && op.Check? && ip in c.ignored :: op.ip != Canonical(ip)
    ensures forall id: nat, ip | id < s.net.admitted && ip in c.ignored ::
              Of(id) in s.gate.tickets && s.gate.tickets[Of(id)].key != Canonical(ip)
  {
    hide Reachable, AcceptLedger, SessionLedger, RecordLedger, Supervision, Owned, Once, Order, RateLimit.Run,
         RateLimit.Admitted;
    ReachableInv(s, c, steps);
    ReachableConfig(s, c, steps);
    assert forall ip | ip in c.ignored :: Canonical(ip) in s.gate.ignored;
    assert forall op | op in s.gate.ops && op.Check? :: op.ip !in s.gate.ignored;
    assert forall id: nat | id < s.net.admitted :: Of(id) in s.gate.tickets && Genuine(s.gate, s.gate.tickets[Of(id)]);
  }

  /** Any limit + 1 sessions of one canonical address, over all listeners and however their steps
      interleave, include two that the limiter admitted at least the window minus the clock skew
      apart. */
  lemma {:induction false} SessionsObeyTheLimit(s: State, c: Config, steps: seq<Step>, key: Ip, ids: set<nat>, d: nat)
    requires Reachable(s, c, steps)
    requires c.limits.limit > 0 && RateLimit.BoundedSkew(s.gate.ops, d) && |ids| > c.limits.limit
    requires forall id | id in ids :: Of(id) in s.gate.tickets && s.gate.tickets[Of(id)].key == key
    ensures forall id | id in ids :: Genuine(s.gate, s.gate.tickets[Of(id)])
    ensures exists a, b :: a in ids && b in ids && Stamp(s.gate, b) + d >= Stamp(s.gate, a) + RateLimit.WINDOW
  {
    hide Reachable, AcceptLedger, SessionLedger, RecordLedger, Supervision, Owned, Once, Order, Carried,
         RateLimit.Run, RateLimit.Admitted, RateLimit.BoundedSkew;
    ReachableInv(s, c, steps);
    ReachableConfig(s, c, steps);
    var gate := s.gate;
    var nths := set id | id in ids :: gate.tickets[Of(id)].nth;
    DistinctNths(gate, key, ids);
    var lo, hi := SpreadOf(nths);
    var a :| a in ids && gate.tickets[Of(a)].nth == lo;
    var b :| b in ids && gate.tickets[Of(b)].nth == hi;
    RateLimit.SkewedRateBound(gate.limits, gate.ops, key, d, lo, hi);
    assert Stamp(gate, b) + d >= Stamp(gate, a) + RateLimit.WINDOW;
  }

  lemma {:induction false} DistinctNths(gate: Gate, key: Ip, ids: set<nat>)
    requires forall h, k | h in gate.tickets && k in gate.tickets && h != k :: gate.tickets[h] != gate.tickets[k]
    requires forall id | id in ids :: Of(id) in gate.tickets && gate.tickets[Of(id)].key == key
    ensures |set id | id in ids :: gate.tickets[Of(id)].nth| == |ids|
  {
    var nths := set id | id in ids :: gate.tickets[Of(id)].nth;
    if ids != {} {
      var id :| id in ids;
      var rest := ids - {id};
      DistinctNths(gate, key, rest);
      var others := set k | k in rest :: gate.tickets[Of(k)].nth;
      forall k | k in rest ensures gate.tickets[Of(k)].nth != gate.tickets[Of(id)].nth {
        assert Of(k) != Of(id) && gate.tickets[Of(k)] != gate.tickets[Of(id)];
      }
      assert nths == others + {gate.tickets[Of(id)].nth};
    }
  }

  // ---------- Shutdown ends ----------

  function WriterRank(w: WriterPhase): nat {
    match w
    case Holding(_) => 5
    case Closed(_) => 4
    case Unready(_) => 3
    case Errored(_) => 2
    case Idle => 1
    case Returned(_) => 0
  }

  function ServerRank(p: ServerPhase): nat {
    match p
    case Starting => 6
    case SawNoShutdown => 5
    case Serving => 4
    case Stopping => 3
    case Cancelling => 2
    case Joining => 1
    case ServerDone => 0
  }

  function MainRank(p: MainPhase): nat {
    match p
    case Selecting => 6
    case MustCancel => 5
    case MustUnready => 4
    case AwaitServer => 3
    case MustDrop => 2
    case AwaitLogger => 1
    case MainDone => 0
  }

  function MaintRank(p: MaintPhase): nat {
    match p
    case Ticking => 2
    case Sleeping => 1
    case Stopped => 0
  }

  ghost function ListenerRank(listeners: map<nat, ListenerPhase>): nat {
    18 * Number(listeners, Polled) + 17 * Number(listeners, Deciding) + 16 * Number(listeners, Cleared)
    + 3 * (Undecided(listeners) - Number(listeners, Deciding) - Number(listeners, Cleared))
    + 2 * Number(listeners, Running) + Number(listeners, Draining)
  }

  ghost function SessionRank(stage: map<nat, Stage>): nat {
    13 * Number(stage, Spawned) + 12 * Number(stage, Counted) + 11 * Number(stage, Guarded)
    + 10 * Number(stage, Closing) + 3 * Number(stage, Logged) + 2 * Number(stage, Unguarded)
    + Number(stage, Released)
  }

  /** How much the tasks have left to do once a cancellation is out. */
  ghost function Rank(s: State): nat {
    ListenerRank(s.net.listeners) + SessionRank(s.net.stage) + 6 * |s.log.queue|
    + WriterRank(s.log.writer) + MaintRank(s.maint) + ServerRank(s.server) + MainRank(s.main)
  }

  lemma {:induction false} SessionStepLowersRank(s: State, id: nat)
    requires id in s.net.stage
    ensures Rank(SessionApply(s, id)) < Rank(s)
  {
    hide Number, ListenerRank;
    SessionMoves(s, id);
  }

  function ListenerWeight(phase: ListenerPhase): nat {
    match phase
    case Polled => 18
    case Deciding => 17
    case Cleared => 16
    case Refused(_) => 3
    case Running => 2
    case Draining => 1
    case Finished => 0
  }

  lemma {:induction false} ListenerRankMoves(listeners: map<nat, ListenerPhase>, e: nat, phase: ListenerPhase)
    requires e in listeners
    ensures ListenerRank(listeners[e := phase])
            == ListenerRank(listeners) + ListenerWeight(phase) - ListenerWeight(listeners[e])
  {
    hide Number, Undecided;
    UndecidedMoves(listeners, e, phase);
    forall u {
      NumberAfterUpdate(listeners, e, phase, u);
    }
  }

  lemma {:induction false} ListenerStepLowersRank(s: State, e: nat, act: ListenerAct)
    requires s.cancelled && ListenerEnabled(s, e, act) && forall id | id in s.net.stage :: id < s.net.admitted
    ensures Rank(ListenerApply(s, e, act)) < Rank(s)
  {
    hide Number, ListenerRank, RateLimit.CheckStep, RateLimit.Admitted;
    var t := ListenerApply(s, e, act);
    ListenerRankMoves(s.net.listeners, e, t.net.listeners[e]);
    if Spawns(s, act) {
      forall u {
        NumberAfterUpdate(s.net.stage, s.net.admitted, Spawned, u);
      }
    }
  }

  lemma {:induction false} WriterStepLowersRank(s: State, ok: bool)
    requires WriterEnabled(s, ok)
    ensures Rank(WriterApply(s, ok)) < Rank(s)
  {
    hide ListenerRank, SessionRank, AllFinished;
    assert WriterApply(s, ok).net == s.net;
  }

  lemma {:induction false} ServerStepLowersRank(s: State)
    requires ServerEnabled(s)
    ensures Rank(ServerApply(s)) < Rank(s)
  {
    hide ListenerRank, SessionRank, WriterRank, MaintRank, MainRank, AllFinished;
  }

  lemma {:induction false} MainStepLowersRank(s: State)
    ensures MainEnabled(s) ==> Rank(MainApply(s)) < Rank(s)
    ensures Enabled(s, Signal) ==> Rank(Apply(s, Signal)) < Rank(s)
  {
    hide ListenerRank, SessionRank, WriterRank, MaintRank, ServerRank, AllFinished;
  }

  /** After a cancellation every step is progress, a connection accepted late included. */
  lemma {:induction false} StepLowersRank(s: State, step: Step)
    requires s.cancelled && Owned(s.net) && Enabled(s, step)
    ensures Rank(Apply(s, step)) < Rank(s) && Apply(s, step).cancelled
  {
    hide Owned, ListenerApply, ListenerRank, SessionRank;
    match step
    case Listener(e, act) =>
      StagesAreAdmitted(s.net);
      ListenerStepLowersRank(s, e, act);
      ListenerShape(s, e, act);
    case Session(id) => SessionStepLowersRank(s, id);
    case Writer(ok) => WriterStepLowersRank(s, ok);
    case Maintenance(tick) =>
    case Server => ServerStepLowersRank(s);
    case _ => MainStepLowersRank(s);
  }

  /** A listener that has not returned can, or one of its sessions. */
  lemma {:induction false} ListenerCanMove(s: State, e: nat) returns (step: Step)
    requires s.cancelled && Owned(s.net) && Carried(s.net, s.gate.from.Keys, s.gate.tickets.Keys)
    requires e in s.net.listeners && s.net.listeners[e] != Finished
    ensures Enabled(s, step) && !FromOutside(step)
  {
    match s.net.listeners[e] {
      case Running => return Listener(e, Stop);
      case Polled => return Listener(e, Wake);
      case Deciding => return Listener(e, Decide(0));
      case Refused(_) => return Listener(e, Count);
      case Cleared => return Listener(e, Acquire);
      case Draining =>
        if e !in s.net.owner.Values {
          return Listener(e, Finish);
        }
        var id :| id in s.net.owner && s.net.owner[id] == e;
        return Session(id);
    }
  }

  /** Once a cancellation is out or main is on its way to one, and until main is done, some task can take
      a step of its own: nothing waits for the outside, and the tasks never wait for each other in
      a circle. */
  lemma {:induction false} NeverStuck(s: State) returns (step: Step)
    requires Inv(s) && (s.cancelled || s.main != Selecting) && s.main != MainDone
    ensures Enabled(s, step) && !FromOutside(step)
  {
    hide AcceptLedger, SessionLedger, RecordLedger, Once, Order, Genuine, Carried, Owned, ListenerEnabled,
         RateLimit.Run;
    if MainEnabled(s) {
      return Main;
    } else if s.main == Selecting || s.main == AwaitServer {
      if ServerEnabled(s) {
        return Server;
      }
      if s.maint != Stopped {
        return Maintenance(if s.maint == Ticking then Doze else Quit);
      }
      var e :| e in s.net.listeners && s.net.listeners[e] != Finished;
      step := ListenerCanMove(s, e);
    } else {
      return Writer(s.log.writer.Idle? || s.log.writer.Holding?);
    }
  }

  /** Every schedule from a cancelled state ends after at most Rank(s) steps, whatever comes in from
      outside, and a schedule in which no task can go on has brought main to its end. */
  lemma {:induction false} ShutdownTerminates(s: State, steps: seq<Step>)
    requires Inv(s) && s.cancelled && Runs(s, steps)
    ensures |steps| + Rank(After(s, steps)) <= Rank(s)
    ensures (forall step | Enabled(After(s, steps), step) :: FromOutside(step)) ==> After(s, steps).main == MainDone
    decreases |steps|
  {
    hide Rank, Owned, AcceptLedger, SessionLedger, RecordLedger, Order, Once, Gated, Supervision, Apply;
    if steps == [] {
      if s.main != MainDone {
        var step := NeverStuck(s);
      }
    } else {
      StepLowersRank(s, steps[0]);
      StepKeepsInv(s, steps[0]);
      ShutdownTerminates(Apply(s, steps[0]), steps[1..]);
    }
  }

  /** The connections listener e accepts in a schedule. */
  function Accepts(e: nat, steps: seq<Step>): nat {
    if steps == [] then 0
    else (if steps[0].Listener? && steps[0].e == e && steps[0].act.Accept? then 1 else 0) + Accepts(e, steps[1..])
  }

  /** After a cancellation a listener accepts at most one more connection, and none unless it had
      already looked for the cancellation. */
  lemma {:induction false} OneLateAccept(s: State, steps: seq<Step>, e: nat)
    requires s.cancelled && Runs(s, steps)
    ensures Accepts(e, steps) <= if e in s.net.listeners && s.net.listeners[e] == Polled then 1 else 0
    decreases |steps|
  {
    hide Apply;
    if steps != [] {
      NotPolledAgain(s, steps[0], e);
      OneLateAccept(Apply(s, steps[0]), steps[1..], e);
    }
  }

  lemma {:induction false} NotPolledAgain(s: State, step: Step, e: nat)
    requires s.cancelled && Enabled(s, step)
    ensures var t := Apply(s, step);
            && t.cancelled
            && (e in t.net.listeners && t.net.listeners[e] == Polled ==>
                  e in s.net.listeners && s.net.listeners[e] == Polled && !(step.Listener? && step.e == e))
    ensures step.Listener? && step.act.Accept? ==> step.e in s.net.listeners && s.net.listeners[step.e] == Polled
  {
    hide RateLimit.CheckStep, RateLimit.Admitted;
  }
}
