/** The sliding-window limiter (src/ratelimit.rs). Time is in nanoseconds. */
module RateLimit {
  import opened Address
  import opened Bytes

  const WINDOW: nat := 60_000_000_000

  datatype Decision = Allowed | Limited | Capacity | Unavailable

  type Table = map<Ip, seq<nat>>

  datatype Limits = Limits(limit: nat, maxIps: nat)

  datatype State = State(table: Table, poisoned: bool)

  function Expired(stamps: seq<nat>, now: nat): seq<nat> {
    if stamps != [] && now - stamps[0] >= WINDOW then Expired(stamps[1..], now) else stamps
  }

  function Bucket(t: Table, key: Ip): seq<nat> {
    if key in t then t[key] else []
  }

  function CheckStep(l: Limits, s: State, ip: Ip, now: nat): (State, Decision) {
    var key := Canonical(ip);
    var live := Expired(Bucket(s.table, key), now);
    if l.limit == 0 then (s, Allowed)
    else if s.poisoned then (s, Unavailable)
    else if key !in s.table && |s.table| >= l.maxIps then (s, Capacity)
    else if |live| >= l.limit then (s.(table := s.table[key := live]), Limited)
    else (s.(table := s.table[key := live + [now]]), Allowed)
  }

  function EvictTable(t: Table, now: nat): Table {
    map k | k in t && Expired(t[k], now) != [] :: Expired(t[k], now)
  }

  /** The limiter object. inner is the mutex-protected map, poisoned the state of its mutex, ops
      everything that took the lock so far. */
  class RateLimiter {
    const limit: nat
    const maxIps: nat
    var inner: Table
    var poisoned: bool
    ghost var ops: seq<Op>

    ghost predicate Valid()
      reads this
    {
      State(inner, poisoned) == Run(Limits(limit, maxIps), ops)
    }

    constructor (limit: nat, maxIps: nat)
      ensures this.limit == limit && this.maxIps == maxIps
      ensures Valid() && ops == [] && inner == map[] && !poisoned
    {
      this.limit := limit;
      this.maxIps := maxIps;
      inner := map[];
      poisoned := false;
      ops := [];
    }

    method CheckAt(ip: Ip, now: nat) returns (d: Decision)
      requires Valid()
      modifies this
      ensures Valid() && ops == old(ops) + [Check(ip, now)]
      ensures d == DecisionAfter(Limits(limit, maxIps), old(ops), ip, now)
      ensures (State(inner, poisoned), d)
           == CheckStep(Limits(limit, maxIps), State(old(inner), old(poisoned)), ip, now)
    {
      ops := ops + [Check(ip, now)];
      RunSnoc(Limits(limit, maxIps), old(ops), Check(ip, now));
      if limit == 0 {
        return Allowed;
      }
      if poisoned {
        return Unavailable;
      }
      var key := Canonical(ip);
      if key !in inner && |inner| >= maxIps {
        return Capacity;
      }
      var window := if key in inner then inner[key] else [];
      window := Expire(window, now);
      if |window| >= limit {
        inner := inner[key := window];
        return Limited;
      }
      inner := inner[key := window + [now]];
      return Allowed;
    }

    method EvictAt(now: nat)
      requires Valid()
      modifies this`inner, this`ops
      ensures Valid() && ops == old(ops) + [Evict(now)]
      ensures inner == if poisoned then old(inner) else EvictTable(old(inner), now)
    {
      hide Run, Expired;
      ops := ops + [Evict(now)];
      RunSnoc(Limits(limit, maxIps), old(ops), Evict(now));
      if poisoned {
        return;
      }
      var kept: Table := map[];
      var keys := inner.Keys;
      while keys != {}
        invariant keys <= inner.Keys && inner == old(inner) && ops == old(ops) + [Evict(now)]
        invariant kept == map k | k in inner && k !in keys && Expired(inner[k], now) != [] :: Expired(inner[k], now)
        decreases keys
      {
        var k :| k in keys;
        var window := Expire(inner[k], now);
        if window != [] {
          kept := kept[k := window];
        }
        keys := keys - {k};
      }
      inner := kept;
      assert inner == EvictTable(old(inner), now);
    }

    /** The value of the tracked_ips gauge: never more than the cap, and straight after an eviction on a
        clock that never went back exactly the number of addresses admitted in the last 60 s. */
    method TrackedIps() returns (n: nat)
      requires Valid()
      ensures n <= maxIps && (poisoned ==> n == 0)
      ensures !poisoned && limit > 0 && Monotone(ops) && ops != [] && Back(ops).Evict? ==>
                n == |LiveAddresses(Limits(limit, maxIps), ops, Back(ops).now)|
    {
      n := if poisoned then 0 else |inner|;
      TableIsBounded(Limits(limit, maxIps), ops);
      if !poisoned && limit > 0 && Monotone(ops) && ops != [] && Back(ops).Evict? {
        TableIsTheLive(Limits(limit, maxIps), ops);
      }
    }
  }

  /** Pop stamps off the front while they are a full window old. */
  method Expire(stamps: seq<nat>, now: nat) returns (window: seq<nat>)
    ensures window == Expired(stamps, now)
  {
    window := stamps;
    while window != [] && now - window[0] >= WINDOW
      invariant Expired(window, now) == Expired(stamps, now)
      decreases |window|
    {
      window := window[1..];
    }
  }

  // ---------- Runs: operations in the order in which they take the lock ----------

  datatype Op = Check(ip: Ip, now: nat) | Evict(now: nat) | Poison

  function Step(l: Limits, s: State, op: Op): State {
    match op
    case Check(ip, now) => CheckStep(l, s, ip, now).0
    case Evict(now) => if s.poisoned then s else s.(table := EvictTable(s.table, now))
    case Poison => s.(poisoned := true)
  }

  function Run(l: Limits, ops: seq<Op>): State {
    if ops == [] then State(map[], false) else Step(l, Run(l, Front(ops)), Back(ops))
  }

  lemma {:induction false} RunSnoc(l: Limits, ops: seq<Op>, op: Op)
    ensures Run(l, ops + [op]) == Step(l, Run(l, ops), op)
  {
    assert Front(ops + [op]) == ops;
  }

  /** The answer to a check arriving after ops. */
  function DecisionAfter(l: Limits, ops: seq<Op>, ip: Ip, now: nat): Decision {
    CheckStep(l, Run(l, ops), ip, now).1
  }

  /** Does op, arriving after ops, admit the address whose canonical form is key? */
  predicate Admits(l: Limits, ops: seq<Op>, op: Op, key: Ip) {
    op.Check? && Canonical(op.ip) == key && DecisionAfter(l, ops, op.ip, op.now) == Allowed
  }

  /** The stamps of all admissions of one canonical address, in lock order: the full history,
      with nothing ever expired. */
  function Admitted(l: Limits, ops: seq<Op>, key: Ip): seq<nat> {
    if ops == [] then []
    else
      Admitted(l, Front(ops), key)
      + if Admits(l, Front(ops), Back(ops), key) then [Back(ops).now] else []
  }

  predicate Timed(op: Op) {
    !op.Poison?
  }

  /** The latest clock value any operation carried. */
  function Latest(ops: seq<Op>): nat {
    if ops == [] then 0
    else
      var before := Latest(Front(ops));
      if Timed(Back(ops)) && Back(ops).now > before then Back(ops).now else before
  }

  /** In lock order no stamp falls more than d below an earlier one. */
  ghost predicate BoundedSkew(ops: seq<Op>, d: nat) {
    forall i, j | 0 <= i < j < |ops| && Timed(ops[i]) && Timed(ops[j]) :: ops[i].now <= ops[j].now + d
  }

  ghost predicate Monotone(ops: seq<Op>) {
    BoundedSkew(ops, 0)
  }

  // ---------- Rate bound under clock skew ----------

  lemma {:induction false} LatestIsUpperBound(ops: seq<Op>, now: nat, d: nat)
    requires forall i | 0 <= i < |ops| && Timed(ops[i]) :: ops[i].now <= now + d
    ensures Latest(ops) <= now + d
  {
    if ops != [] {
      LatestIsUpperBound(Front(ops), now, d);
    }
  }

  lemma {:induction false} ExpiredDropsOnlyOld(stamps: seq<nat>, now: nat)
    ensures |Expired(stamps, now)| <= |stamps|
    ensures Expired(stamps, now) == stamps[|stamps| - |Expired(stamps, now)|..]
    ensures forall j | 0 <= j < |stamps| - |Expired(stamps, now)| :: now >= stamps[j] + WINDOW
  {
    if stamps != [] && now - stamps[0] >= WINDOW {
      ExpiredDropsOnlyOld(stamps[1..], now);
      forall j | 0 <= j < |stamps| - |Expired(stamps, now)| ensures now >= stamps[j] + WINDOW {
        if j > 0 {
          assert stamps[j] == stamps[1..][j - 1];
        }
      }
    }
  }

  /** b is the part of the history h still held, and whatever is no longer held was a full
      window old at some clock value up to t. */
  ghost predicate Holds(b: seq<nat>, h: seq<nat>, t: nat) {
    && |b| <= |h| && b == h[|h| - |b|..]
    && forall j | 0 <= j < |h| - |b| :: t >= h[j] + WINDOW
  }

  lemma HoldsAfterExpiry(b: seq<nat>, h: seq<nat>, t: nat, now: nat, t': nat)
    requires Holds(b, h, t) && t <= t' && now <= t'
    ensures Holds(Expired(b, now), h, t')
  {
    ExpiredDropsOnlyOld(b, now);
    var e := Expired(b, now);
    forall j | 0 <= j < |h| - |e| ensures t' >= h[j] + WINDOW {
      if j >= |h| - |b| {
        assert h[j] == b[j - (|h| - |b|)];
      }
    }
  }

  lemma HoldsAfterPush(b: seq<nat>, h: seq<nat>, t: nat, now: nat)
    requires Holds(b, h, t)
    ensures Holds(b + [now], h + [now], t)
  {
  }

  /** A bucket is always a suffix of the address's admission history. */
  lemma {:induction false} BucketIsRecentHistory(l: Limits, ops: seq<Op>, key: Ip)
    requires l.limit > 0
    ensures Holds(Bucket(Run(l, ops).table, key), Admitted(l, ops, key), Latest(ops))
  {
    hide Step, Holds, Bucket, Admits;
    if ops == [] {
      NothingHeld(key);
    } else {
      var pre, op := Front(ops), Back(ops);
      BucketIsRecentHistory(l, pre, key);
      StepHolds(l, pre, op, key, Admitted(l, pre, key), Latest(pre), Latest(ops));
    }
  }

  lemma NothingHeld(key: Ip)
    ensures Holds(Bucket(map[], key), [], 0)
  {
  }

  lemma {:induction false} StepHolds(l: Limits, pre: seq<Op>, op: Op, key: Ip, h: seq<nat>, t: nat, t': nat)
    requires l.limit > 0 && Holds(Bucket(Run(l, pre).table, key), h, t)
    requires t <= t' && (Timed(op) ==> op.now <= t')
    ensures Holds(Bucket(Step(l, Run(l, pre), op).table, key),
                  h + if Admits(l, pre, op, key) then [op.now] else [], t')
  {
    hide Holds, Run, Expired;
    var s := Run(l, pre);
    var b := Bucket(s.table, key);
    assert h + [] == h;
    HoldsLater(b, h, t, t');
    if op.Check? && Canonical(op.ip) == key {
      HoldsAfterExpiry(b, h, t, op.now, t');
      HoldsAfterPush(Expired(b, op.now), h, t', op.now);
    } else if op.Evict? && !s.poisoned {
      HoldsAfterExpiry(b, h, t, op.now, t');
    }
  }

  lemma {:induction false} HoldsLater(b: seq<nat>, h: seq<nat>, t: nat, t': nat)
    requires Holds(b, h, t) && t <= t'
    ensures Holds(b, h, t')
  {
  }

  /** Whatever checks and evictions of whatever addresses are interleaved, any limit + 1
      admissions of one canonical address span at least the window minus the clock skew d.
      With d = 0 this is the exact bound. */
  lemma {:induction false} SkewedRateBound(l: Limits, ops: seq<Op>, key: Ip, d: nat, k: nat, j: nat)
    requires l.limit > 0 && BoundedSkew(ops, d)
    requires k + l.limit <= j < |Admitted(l, ops, key)|
    ensures Admitted(l, ops, key)[j] + d >= Admitted(l, ops, key)[k] + WINDOW
  {
    hide Run, Latest, Holds, Admits, Expired, Bucket;
    var pre, op := Front(ops), Back(ops);
    var h := Admitted(l, pre, key);
    if j < |h| {
      SkewedRateBound(l, pre, key, d, k, j);
    } else {
      RoomFor(l, pre, op, key);
      BucketIsRecentHistory(l, pre, key);
      forall i | 0 <= i < |pre| && Timed(pre[i]) ensures pre[i].now <= op.now + d {
        assert pre[i] == ops[i] && op == ops[|ops| - 1];
      }
      LatestIsUpperBound(pre, op.now, d);
      OldEnough(Bucket(Run(l, pre).table, key), h, Latest(pre), op.now, d, k);
    }
  }

  lemma {:induction false} RoomFor(l: Limits, pre: seq<Op>, op: Op, key: Ip)
    requires Admits(l, pre, op, key)
    ensures op.Check? && (l.limit > 0 ==> |Expired(Bucket(Run(l, pre).table, key), op.now)| < l.limit)
  {
    hide Run, Expired;
  }

  /** What is no longer in an expired bucket is old enough. */
  lemma {:induction false} OldEnough(b: seq<nat>, h: seq<nat>, t: nat, now: nat, d: nat, k: nat)
    requires Holds(b, h, t) && t <= now + d && k + |Expired(b, now)| < |h|
    ensures now + d >= h[k] + WINDOW
  {
    ExpiredDropsOnlyOld(b, now);
    if k >= |h| - |b| {
      assert h[k] == b[k - (|h| - |b|)];
    }
  }

  lemma {:induction false} AdmissionsSkew(l: Limits, ops: seq<Op>, key: Ip, d: nat, i: nat, j: nat)
    requires BoundedSkew(ops, d) && i < j < |Admitted(l, ops, key)|
    ensures Admitted(l, ops, key)[i] <= Admitted(l, ops, key)[j] + d
  {
    hide Admits;
    var pre, op := Front(ops), Back(ops);
    var h := Admitted(l, pre, key);
    assert forall k | 0 <= k < |pre| :: pre[k] == ops[k];
    if j < |h| {
      AdmissionsSkew(l, pre, key, d, i, j);
    } else {
      RoomFor(l, pre, op, key);
      var k := AdmittedBy(l, pre, key, i);
      assert ops[k] == pre[k] && op == ops[|ops| - 1];
    }
  }

  /** The operation behind an admission. */
  lemma {:induction false} AdmittedBy(l: Limits, ops: seq<Op>, key: Ip, i: nat) returns (k: nat)
    requires i < |Admitted(l, ops, key)|
    ensures k < |ops| && ops[k].Check? && ops[k].now == Admitted(l, ops, key)[i]
  {
    hide Admits;
    var pre := Front(ops);
    if i < |Admitted(l, pre, key)| {
      k := AdmittedBy(l, pre, key, i);
    } else {
      RoomFor(l, pre, Back(ops), key);
      k := |ops| - 1;
    }
  }

  /** Under clock skew d a check is refused for the rate only when the last limit admissions of the
      address are all less than the window plus d old, and allowed only when the limit-th last is at
      least the window minus d old. */
  lemma {:induction false} DecisionUnderSkew(l: Limits, ops: seq<Op>, ip: Ip, now: nat, d: nat)
    requires l.limit > 0 && BoundedSkew(ops + [Check(ip, now)], d)
    ensures var h := Admitted(l, ops, Canonical(ip));
            match DecisionAfter(l, ops, ip, now)
            case Limited => |h| >= l.limit && forall i | |h| - l.limit <= i < |h| :: h[i] + WINDOW + d > now
            case Allowed => |h| >= l.limit ==> h[|h| - l.limit] + WINDOW <= now + d
            case _ => true
  {
    hide Run, Admitted, Holds, Latest, Admits, Expired;
    var key, all := Canonical(ip), ops + [Check(ip, now)];
    var h, b := Admitted(l, ops, key), Bucket(Run(l, ops).table, key);
    assert forall i | 0 <= i < |ops| :: all[i] == ops[i];
    if DecisionAfter(l, ops, ip, now) == Limited {
      BucketIsRecentHistory(l, ops, key);
      RecentEnough(b, h, Latest(ops), now, l.limit);
      var first := |h| - |Expired(b, now)|;
      forall i | |h| - l.limit <= i < |h| ensures h[i] + WINDOW + d > now {
        if i > first {
          AdmissionsSkew(l, ops, key, d, first, i);
        }
      }
    } else if DecisionAfter(l, ops, ip, now) == Allowed && |h| >= l.limit {
      AdmittedSnoc(l, ops, ip, now);
      SkewedRateBound(l, all, key, d, |h| - l.limit, |h|);
    }
  }

  lemma {:induction false} AdmittedSnoc(l: Limits, ops: seq<Op>, ip: Ip, now: nat)
    requires DecisionAfter(l, ops, ip, now) == Allowed
    ensures Admitted(l, ops + [Check(ip, now)], Canonical(ip)) == Admitted(l, ops, Canonical(ip)) + [now]
  {
    hide Run, Expired;
    assert Front(ops + [Check(ip, now)]) == ops;
  }

  /** The oldest stamp an expired bucket still holds is in the window. */
  lemma {:induction false} RecentEnough(b: seq<nat>, h: seq<nat>, t: nat, now: nat, limit: nat)
    requires Holds(b, h, t) && |Expired(b, now)| >= limit > 0
    ensures var first := |h| - |Expired(b, now)|;
            0 <= first <= |h| - limit && h[first] + WINDOW > now
  {
    ExpiredDropsOnlyOld(b, now);
    ExpiredStopsAtLive(b, now);
    var e := Expired(b, now);
    assert e[0] == b[|b| - |e|] == h[|h| - |e|];
  }

  /** Does every run with clock skew d keep limit + 1 admissions of one address at least span apart? */
  ghost predicate Guaranteed(l: Limits, d: nat, span: nat) {
    forall ops, key, k: nat, j: nat | BoundedSkew(ops, d) && k + l.limit <= j < |Admitted(l, ops, key)| ::
      Admitted(l, ops, key)[j] >= Admitted(l, ops, key)[k] + span
  }

  function Times<T>(n: nat, x: T): seq<T> {
    if n == 0 then [] else Times(n - 1, x) + [x]
  }

  lemma {:induction false} TimesIs<T>(n: nat, x: T)
    ensures |Times(n, x)| == n && forall i | 0 <= i < n :: Times(n, x)[i] == x
  {
    if n > 0 {
      TimesIs(n - 1, x);
    }
  }

  lemma {:induction false} NothingExpires(n: nat, now: nat)
    ensures Expired(Times(n, now), now) == Times(n, now)
  {
    TimesIs(n, now);
  }

  lemma {:induction false} AllExpires(stamps: seq<nat>, now: nat)
    requires forall i | 0 <= i < |stamps| :: now >= stamps[i] + WINDOW
    ensures Expired(stamps, now) == []
  {
    if stamps != [] {
      AllExpires(stamps[1..], now);
    }
  }

  ghost predicate Full(l: Limits, ops: seq<Op>, stamps: seq<nat>) {
    && Run(l, ops) == State(if stamps == [] then map[] else map[V4(0) := stamps], false)
    && Admitted(l, ops, V4(0)) == stamps
  }

  /** A burst within the limit is admitted whole. */
  lemma {:induction false} Burst(l: Limits, n: nat, now: nat)
    requires n <= l.limit && l.maxIps > 0
    ensures Full(l, Times(n, Check(V4(0), now)), Times(n, now))
  {
    hide Full;
    if n == 0 {
      NothingFull(l);
    } else {
      Burst(l, n - 1, now);
      OneMore(l, Times(n - 1, Check(V4(0), now)), n - 1, now);
    }
  }

  lemma NothingFull(l: Limits)
    ensures Full(l, [], [])
  {
  }

  lemma {:induction false} OneMore(l: Limits, pre: seq<Op>, n: nat, now: nat)
    requires n < l.limit && l.maxIps > 0 && Full(l, pre, Times(n, now))
    ensures Full(l, pre + [Check(V4(0), now)], Times(n, now) + [now])
  {
    hide Run, Admitted, Expired, Times;
    NothingExpires(n, now);
    TimesIs(n, now);
    AdmitAnother(l, pre, V4(0), now, Times(n, now));
  }

  /** One more check of an address whose bucket has room. */
  lemma {:induction false} AdmitAnother(l: Limits, pre: seq<Op>, ip: Ip, now: nat, live: seq<nat>)
    requires !Run(l, pre).poisoned && |live| < l.limit && !Mapped(ip)
    requires Expired(Bucket(Run(l, pre).table, ip), now) == live
    requires ip in Run(l, pre).table || |Run(l, pre).table| < l.maxIps
    ensures Run(l, pre + [Check(ip, now)]) == State(Run(l, pre).table[ip := live + [now]], false)
    ensures Admitted(l, pre + [Check(ip, now)], ip) == Admitted(l, pre, ip) + [now]
  {
    hide Expired, Run;
    RunSnoc(l, pre, Check(ip, now));
    assert Front(pre + [Check(ip, now)]) == pre;
  }

  /** A full burst, an eviction by a later clock, and one more check d before that clock. */
  lemma {:induction false} LateEviction(l: Limits, d: nat) returns (ops: seq<Op>)
    requires l.limit > 0 && l.maxIps > 0
    ensures BoundedSkew(ops, d) && Admitted(l, ops, V4(0)) == Times(l.limit, d) + [WINDOW]
  {
    hide Run, Expired, Admitted;
    var burst, evict := Times(l.limit, Check(V4(0), d)), Evict(d + WINDOW);
    var evicted := burst + [evict];
    ops := evicted + [Check(V4(0), WINDOW)];
    Burst(l, l.limit, d);
    TimesIs(l.limit, Check(V4(0), d));
    TimesIs(l.limit, d);
    AllExpires(Times(l.limit, d), d + WINDOW);
    RunSnoc(l, burst, evict);
    assert Run(l, evicted).table == map[];
    NothingExpires(0, WINDOW);
    AdmitAnother(l, evicted, V4(0), WINDOW, []);
    EvictAdmitsNobody(l, burst, d + WINDOW, V4(0));
  }

  lemma {:induction false} EvictAdmitsNobody(l: Limits, ops: seq<Op>, now: nat, key: Ip)
    ensures Admitted(l, ops + [Evict(now)], key) == Admitted(l, ops, key)
  {
    assert Front(ops + [Evict(now)]) == ops;
  }

  /** The bound is exact: a span is guaranteed under skew d exactly when it and d fit in the window. */
  lemma {:induction false} SkewBoundIsTight(l: Limits, d: nat, span: nat)
    requires l.limit > 0 && l.maxIps > 0
    ensures Guaranteed(l, d, span) <==> span + d <= WINDOW
  {
    if span + d <= WINDOW {
      forall ops, key, k: nat, j: nat | BoundedSkew(ops, d) && k + l.limit <= j < |Admitted(l, ops, key)|
        ensures Admitted(l, ops, key)[j] >= Admitted(l, ops, key)[k] + span
      {
        SkewedRateBound(l, ops, key, d, k, j);
      }
    } else {
      var ops := LateEviction(l, d);
      TimesIs(l.limit, d);
      assert Admitted(l, ops, V4(0))[0] == d && Admitted(l, ops, V4(0))[l.limit] == WINDOW;
    }
  }

  // ---------- Refinement of the naive history count ----------

  /** The admissions inside the window that ends at now. */
  function Live(history: seq<nat>, now: nat): seq<nat> {
    if history == [] then []
    else Live(Front(history), now) + if Back(history) + WINDOW > now then [Back(history)] else []
  }

  lemma {:induction false} LiveSnoc(history: seq<nat>, x: nat, now: nat)
    ensures Live(history + [x], now) == Live(history, now) + if x + WINDOW > now then [x] else []
  {
    assert Front(history + [x]) == history;
  }

  lemma {:induction false} LiveOfConcat(a: seq<nat>, b: seq<nat>, now: nat)
    ensures Live(a + b, now) == Live(a, now) + Live(b, now)
  {
    hide Live;
    if b == [] {
      NoHistory(now);
      assert a + b == a && Live(a, now) + [] == Live(a, now);
    } else {
      var front, x := Front(b), Back(b);
      assert b == front + [x];
      Assoc(a, front, [x]);
      LiveSnoc(a + front, x, now);
      LiveSnoc(front, x, now);
      LiveOfConcat(a, front, now);
      Assoc(Live(a, now), Live(front, now), if x + WINDOW > now then [x] else []);
    }
  }

  lemma NoHistory(now: nat)
    ensures Live([], now) == []
  {
  }

  lemma {:induction false} NothingLive(a: seq<nat>, now: nat)
    requires forall j | 0 <= j < |a| :: now >= a[j] + WINDOW
    ensures Live(a, now) == []
  {
    if a != [] {
      NothingLive(Front(a), now);
    }
  }

  lemma {:induction false} AllLive(a: seq<nat>, now: nat)
    requires forall j | 0 <= j < |a| :: now < a[j] + WINDOW
    ensures Live(a, now) == a
  {
    if a != [] {
      AllLive(Front(a), now);
      assert a == Front(a) + [Back(a)];
    }
  }

  lemma {:induction false} ExpiredStopsAtLive(stamps: seq<nat>, now: nat)
    ensures Expired(stamps, now) != [] ==> now < Expired(stamps, now)[0] + WINDOW
  {
    if stamps != [] && now - stamps[0] >= WINDOW {
      ExpiredStopsAtLive(stamps[1..], now);
    }
  }

  ghost predicate Sorted(s: seq<nat>) {
    forall i, j | 0 <= i <= j < |s| :: s[i] <= s[j]
  }

  lemma {:induction false} AdmissionsAreSorted(l: Limits, ops: seq<Op>, key: Ip)
    requires Monotone(ops)
    ensures Sorted(Admitted(l, ops, key))
    ensures forall i | 0 <= i < |Admitted(l, ops, key)| :: Admitted(l, ops, key)[i] <= Latest(ops)
  {
    if ops != [] {
      var pre, op := Front(ops), Back(ops);
      AdmissionsAreSorted(l, pre, key);
      if Timed(op) {
        assert op == ops[|ops| - 1];
        forall i | 0 <= i < |pre| && Timed(pre[i]) ensures pre[i].now <= op.now {
          assert pre[i] == ops[i];
        }
        LatestIsUpperBound(pre, op.now, 0);
      }
    }
  }

  lemma SortedSuffixIsLive(e: seq<nat>, h: seq<nat>, now: nat)
    requires Sorted(h) && Holds(e, h, now) && (e != [] ==> now < e[0] + WINDOW)
    ensures Live(h, now) == e
  {
    var gone := h[..|h| - |e|];
    assert h == gone + e;
    LiveOfConcat(gone, e, now);
    NothingLive(gone, now);
    forall j | 0 <= j < |e| ensures now < e[j] + WINDOW {
      assert e[j] == h[|h| - |e| + j] && e[0] == h[|h| - |e|];
    }
    AllLive(e, now);
  }

  /** With a clock that never goes back, expiring a bucket at now leaves exactly the admissions
      in the window (now - 60 s, now], and no admission outside it. */
  lemma BucketIsLiveHistory(l: Limits, ops: seq<Op>, key: Ip, now: nat)
    requires l.limit > 0 && Monotone(ops) && Latest(ops) <= now
    ensures Expired(Bucket(Run(l, ops).table, key), now) == Live(Admitted(l, ops, key), now)
  {
    BucketIsRecentHistory(l, ops, key);
    AdmissionsAreSorted(l, ops, key);
    HoldsAfterExpiry(Bucket(Run(l, ops).table, key), Admitted(l, ops, key), Latest(ops), now, now);
    ExpiredStopsAtLive(Bucket(Run(l, ops).table, key), now);
    SortedSuffixIsLive(Expired(Bucket(Run(l, ops).table, key), now), Admitted(l, ops, key), now);
  }

  /** The limiter answers Limited exactly when the naive count over the full history has reached
      the limit, and Allowed exactly when it has not, unless the table is full or the mutex is
      poisoned; a full table only ever refuses an address with no live admission. */
  lemma DecisionRefinesHistory(l: Limits, ops: seq<Op>, ip: Ip, now: nat)
    requires l.limit > 0 && Monotone(ops) && Latest(ops) <= now
    ensures var live := Live(Admitted(l, ops, Canonical(ip)), now);
            match DecisionAfter(l, ops, ip, now)
            case Allowed => |live| < l.limit
            case Limited => |live| >= l.limit
            case Capacity => live == [] && |Run(l, ops).table| >= l.maxIps
            case Unavailable => Run(l, ops).poisoned
  {
    BucketIsLiveHistory(l, ops, Canonical(ip), now);
  }

  /** Straight after a check that is decided by the rate, the address's bucket holds exactly its live admissions, the
      new one included. */
  lemma {:induction false} CheckLeavesTheLive(l: Limits, ops: seq<Op>, ip: Ip, now: nat)
    requires l.limit > 0 && Monotone(ops) && Latest(ops) <= now
    requires DecisionAfter(l, ops, ip, now) in {Allowed, Limited}
    ensures var key, after := Canonical(ip), ops + [Check(ip, now)];
            key in Run(l, after).table && Run(l, after).table[key] == Live(Admitted(l, after, key), now)
  {
    hide Run, Live;
    var key, after := Canonical(ip), ops + [Check(ip, now)];
    assert Front(after) == ops;
    RunSnoc(l, ops, Check(ip, now));
    BucketIsLiveHistory(l, ops, key, now);
    LiveSnoc(Admitted(l, ops, key), now, now);
    assert Admitted(l, ops, key) + [] == Admitted(l, ops, key);
    assert Back(after) == Check(ip, now);
  }

  /** Straight after an eviction the table tracks exactly the addresses with live admissions. */
  lemma EvictionKeepsExactlyTheLive(l: Limits, ops: seq<Op>, key: Ip, now: nat)
    requires l.limit > 0 && Monotone(ops) && Latest(ops) <= now && !Run(l, ops).poisoned
    ensures key in Run(l, ops + [Evict(now)]).table <==> Live(Admitted(l, ops, key), now) != []
  {
    assert Front(ops + [Evict(now)]) == ops;
    BucketIsLiveHistory(l, ops, key, now);
  }

  /** The canonical addresses with an admission in the window that ends at now. */
  ghost function LiveAddresses(l: Limits, ops: seq<Op>, now: nat): set<Ip> {
    set i | 0 <= i < |ops| && ops[i].Check?
        && Live(Admitted(l, ops, Canonical(ops[i].ip)), now) != [] :: Canonical(ops[i].ip)
  }

  lemma {:induction false} AdmittedWereChecked(l: Limits, ops: seq<Op>, key: Ip)
    requires Admitted(l, ops, key) != []
    ensures exists i :: 0 <= i < |ops| && ops[i].Check? && Canonical(ops[i].ip) == key
  {
    if Admits(l, Front(ops), Back(ops), key) {
      assert ops[|ops| - 1] == Back(ops);
    } else {
      AdmittedWereChecked(l, Front(ops), key);
      var i :| 0 <= i < |ops| - 1 && Front(ops)[i].Check? && Canonical(Front(ops)[i].ip) == key;
      assert ops[i] == Front(ops)[i];
    }
  }

  /** After an eviction on a clock that never went back the table's keys are the live addresses. */
  lemma {:induction false} TableIsTheLive(l: Limits, ops: seq<Op>)
    requires l.limit > 0 && Monotone(ops) && ops != [] && Back(ops).Evict? && !Run(l, ops).poisoned
    ensures Run(l, ops).table.Keys == LiveAddresses(l, ops, Back(ops).now)
    ensures |Run(l, ops).table| == |LiveAddresses(l, ops, Back(ops).now)|
  {
    hide Run, Live, Admitted;
    var pre, now := Front(ops), Back(ops).now;
    var table := Run(l, ops).table;
    assert ops == pre + [Evict(now)] && ops[|ops| - 1] == Evict(now) && forall i | 0 <= i < |pre| :: pre[i] == ops[i];
    LatestIsUpperBound(pre, now, 0);
    RunSnoc(l, pre, Evict(now));
    forall key ensures key in table <==> key in LiveAddresses(l, ops, now) {
      EvictionKeepsExactlyTheLive(l, pre, key, now);
      EvictAdmitsNobody(l, pre, now, key);
      if Live(Admitted(l, ops, key), now) != [] {
        LiveWereChecked(l, ops, key, now);
        var i :| 0 <= i < |ops| && ops[i].Check? && Canonical(ops[i].ip) == key;
      }
    }
    assert table.Keys == LiveAddresses(l, ops, now);
  }

  lemma {:induction false} LiveWereChecked(l: Limits, ops: seq<Op>, key: Ip, now: nat)
    requires Live(Admitted(l, ops, key), now) != []
    ensures exists i :: 0 <= i < |ops| && ops[i].Check? && Canonical(ops[i].ip) == key
  {
    hide Run;
    AdmittedWereChecked(l, ops, key);
  }

  // ---------- Evictions are invisible ----------

  function Checks(ops: seq<Op>): seq<Op> {
    if ops == [] then [] else Checks(Front(ops)) + if Back(ops).Check? then [Back(ops)] else []
  }

  /** The answers given to the checks of a run, in order. */
  function Decisions(l: Limits, ops: seq<Op>): seq<Decision> {
    if ops == [] then []
    else
      Decisions(l, Front(ops))
      + if Back(ops).Check? then [DecisionAfter(l, Front(ops), Back(ops).ip, Back(ops).now)] else []
  }

  /** The reference limiter: no table, no expiry, only the list of checks. */
  function NaiveAdmitted(limit: nat, checks: seq<Op>, key: Ip): seq<nat>
    decreases |checks|, 0
  {
    if checks == [] then []
    else
      var op := Back(checks);
      NaiveAdmitted(limit, Front(checks), key)
      + if op.Check? && Canonical(op.ip) == key && NaiveDecision(limit, Front(checks), op.ip, op.now) == Allowed
        then [op.now] else []
  }

  function NaiveDecision(limit: nat, checks: seq<Op>, ip: Ip, now: nat): Decision
    decreases |checks|, 1
  {
    if limit == 0 || |Live(NaiveAdmitted(limit, checks, Canonical(ip)), now)| < limit then Allowed else Limited
  }

  function NaiveDecisions(limit: nat, checks: seq<Op>): seq<Decision> {
    if checks == [] then []
    else
      var op := Back(checks);
      NaiveDecisions(limit, Front(checks))
      + if op.Check? then [NaiveDecision(limit, Front(checks), op.ip, op.now)] else []
  }

  ghost predicate NeverRefusedOtherwise(ds: seq<Decision>) {
    forall d | d in ds :: d == Allowed || d == Limited
  }

  lemma {:induction false} RunRefinesNaive(l: Limits, ops: seq<Op>, key: Ip)
    requires Monotone(ops) && NeverRefusedOtherwise(Decisions(l, ops))
    ensures Decisions(l, ops) == NaiveDecisions(l.limit, Checks(ops))
    ensures Admitted(l, ops, key) == NaiveAdmitted(l.limit, Checks(ops), key)
  {
    if ops != [] {
      var pre, op := Front(ops), Back(ops);
      assert op == ops[|ops| - 1] && forall i | 0 <= i < |pre| :: pre[i] == ops[i];
      assert forall d | d in Decisions(l, pre) :: d in Decisions(l, ops);
      RunRefinesNaive(l, pre, key);
      if op.Check? {
        assert Front(Checks(ops)) == Checks(pre) && Back(Checks(ops)) == op;
        var now := DecisionAfter(l, pre, op.ip, op.now);
        assert Decisions(l, ops) == Decisions(l, pre) + [now];
        assert now in Decisions(l, ops);
        RunRefinesNaive(l, pre, Canonical(op.ip));
        if l.limit > 0 {
          LatestIsUpperBound(pre, op.now, 0);
          DecisionRefinesHistory(l, pre, op.ip, op.now);
        }
        assert now == NaiveDecision(l.limit, Checks(pre), op.ip, op.now);
      } else {
        assert Checks(ops) == Checks(pre);
      }
    }
  }

  /** Two runs with the same checks, whatever evictions either of them has and whenever, agree on
      every decision as long as neither refuses for capacity or poisoning. */
  lemma EvictionsAreInvisible(l: Limits, a: seq<Op>, b: seq<Op>)
    requires Checks(a) == Checks(b) && Monotone(a) && Monotone(b)
    requires NeverRefusedOtherwise(Decisions(l, a)) && NeverRefusedOtherwise(Decisions(l, b))
    ensures Decisions(l, a) == Decisions(l, b)
  {
    RunRefinesNaive(l, a, V4(0));
    RunRefinesNaive(l, b, V4(0));
  }

  /** Once the mutex is poisoned an enabled limiter admits nobody: it fails closed for good. */
  lemma {:induction false} PoisonFailsClosed(l: Limits, ops: seq<Op>, i: nat, ip: Ip, now: nat)
    requires l.limit > 0 && i < |ops| && ops[i] == Poison
    ensures DecisionAfter(l, ops, ip, now) == Unavailable
  {
    if i < |ops| - 1 {
      PoisonFailsClosed(l, Front(ops), i, ip, now);
    }
  }

  // ---------- Table bounds ----------

  ghost predicate Capped(l: Limits, t: Table) {
    && |t| <= l.maxIps
    && forall k | k in t :: !Mapped(k) && 1 <= |t[k]| <= l.limit
  }

  lemma SubsetSize<T>(a: set<T>, b: set<T>)
    requires a <= b
    ensures |a| <= |b|
  {
    assert b == a + (b - a);
  }

  lemma EvictShrinks(t: Table, now: nat)
    ensures |EvictTable(t, now)| <= |t|
    ensures forall k | k in EvictTable(t, now) :: k in t && 1 <= |EvictTable(t, now)[k]| <= |t[k]|
  {
    var e := EvictTable(t, now);
    SubsetSize(e.Keys, t.Keys);
    forall k | k in e ensures k in t && 1 <= |e[k]| <= |t[k]| {
      ExpiredDropsOnlyOld(t[k], now);
    }
  }

  lemma StepKeepsBounds(l: Limits, s: State, op: Op)
    requires Capped(l, s.table)
    ensures Capped(l, Step(l, s, op).table)
  {
    if op.Evict? {
      EvictShrinks(s.table, op.now);
    } else if op.Check? {
      var key := Canonical(op.ip);
      CanonicalIdentifiesMapped(op.ip, op.ip);
      ExpiredDropsOnlyOld(Bucket(s.table, key), op.now);
      var t' := Step(l, s, op).table;
      if t' != s.table {
        assert t'.Keys == s.table.Keys + {key};
      }
    }
  }

  /** In every reachable state there are at most maxIps buckets, all for canonical addresses and
      each with one to limit stamps. */
  lemma {:induction false} TableIsBounded(l: Limits, ops: seq<Op>)
    ensures Capped(l, Run(l, ops).table)
  {
    if ops != [] {
      TableIsBounded(l, Front(ops));
      StepKeepsBounds(l, Run(l, Front(ops)), Back(ops));
    }
  }

  ghost function TotalStamps(t: Table): nat {
    if t == map[] then 0
    else
      var k :| k in t;
      |t[k]| + TotalStamps(t - {k})
  }

  lemma MulStep(n: nat, m: nat)
    requires n > 0
    ensures m + (n - 1) * m == n * m
  {
  }

  lemma MulMono(a: nat, b: nat, m: nat)
    requires a <= b
    ensures a * m <= b * m
  {
  }

  lemma {:induction false} TotalIsBounded(l: Limits, t: Table)
    requires forall k | k in t :: |t[k]| <= l.limit
    ensures TotalStamps(t) <= |t| * l.limit
    decreases |t|
  {
    if t != map[] {
      var k :| k in t && TotalStamps(t) == |t[k]| + TotalStamps(t - {k});
      var t' := t - {k};
      assert t'.Keys == t.Keys - {k} && |t'| == |t| - 1;
      TotalIsBounded(l, t');
      MulStep(|t|, l.limit);
    }
  }

  /** The history budget of a validated configuration bounds the stamps held over the whole map. */
  lemma HistoryBudget(l: Limits, ops: seq<Op>)
    requires l.maxIps * l.limit <= 1_000_000
    ensures TotalStamps(Run(l, ops).table) <= 1_000_000
  {
    TableIsBounded(l, ops);
    var t := Run(l, ops).table;
    TotalIsBounded(l, t);
    MulMono(|t|, l.maxIps, l.limit);
  }
}
