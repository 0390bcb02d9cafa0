/** The bounded record queue and its single writer (src/logger.rs). Any step of a write may fail,
    which also stands for the write deadline. */
module Writer {
  import opened Bytes
  import opened FileSink
  import opened Packing
  import opened RecordQueue

  /** A session record is known here only by what its serialisation yields. */
  datatype Record = Serializable(json: seq<byte>) | Unserializable

  function LineOf(r: Record): Line {
    match r
    case Serializable(json) => json + [LF]
    case Unserializable => []
  }

  function Lines(records: seq<Record>): seq<Line> {
    seq(|records|, i requires 0 <= i < |records| => LineOf(records[i]))
  }

  /** sub is all with some elements left out. */
  ghost predicate Picks<T>(sub: seq<T>, all: seq<T>)
    decreases |all|
  {
    if all == [] then sub == []
    else Picks(sub, Front(all)) || (sub != [] && Back(sub) == Back(all) && Picks(Front(sub), Front(all)))
  }

  lemma {:induction false} PickOne<T>(sub: seq<T>, all: seq<T>, x: T)
    requires Picks(sub, all)
    ensures Picks(sub, all + [x]) && Picks(sub + [x], all + [x])
  {
    assert Front(all + [x]) == all && Front(sub + [x]) == sub;
  }

  /** With nothing left out it is all. */
  lemma {:induction false} PickedAll<T>(sub: seq<T>, all: seq<T>)
    requires Picks(sub, all)
    ensures |sub| <= |all| && (|sub| == |all| ==> sub == all)
    decreases |all|
  {
    if all != [] {
      if Picks(sub, Front(all)) {
        PickedAll(sub, Front(all));
      } else {
        PickedAll(Front(sub), Front(all));
        assert sub == Front(sub) + [Back(sub)] && all == Front(all) + [Back(all)];
      }
    }
  }

  class Metrics {
    var written: nat
    var queueFull: nat
    var channelClosed: nat
    var writerError: nat
    var errors: nat
    var ready: bool

    constructor ()
      ensures written == queueFull == channelClosed == writerError == errors == 0 && !ready
    {
      written, queueFull, channelClosed, writerError, errors, ready := 0, 0, 0, 0, 0, false;
    }
  }

  class Channel {
    const capacity: nat
    var queue: seq<Record>
    var closed: bool
    ghost var accepted: seq<Record>

    constructor (capacity: nat)
      ensures this.capacity == capacity && queue == [] && accepted == [] && !closed
    {
      this.capacity := capacity;
      queue, closed, accepted := [], false, [];
    }
  }

  class Logger {
    const tx: Channel
    const metrics: Metrics

    constructor (tx: Channel, metrics: Metrics)
      ensures this.tx == tx && this.metrics == metrics
    {
      this.tx := tx;
      this.metrics := metrics;
    }

    /** Drop-newest: the queue never changes except by growing at its tail. */
    method Log(record: Record) returns (sent: bool)
      modifies tx`queue, tx`accepted, metrics`queueFull, metrics`channelClosed
      ensures var full := |old(tx.queue)| >= tx.capacity;
              && (sent <==> !tx.closed && !full)
              && tx.queue == old(tx.queue) + (if sent then [record] else [])
              && tx.accepted == old(tx.accepted) + (if sent then [record] else [])
              && metrics.channelClosed == old(metrics.channelClosed) + (if tx.closed then 1 else 0)
              && metrics.queueFull == old(metrics.queueFull) + (if !tx.closed && full then 1 else 0)
      ensures sent == TrySend(|old(tx.queue)|, tx.capacity, tx.closed).Sent?
    {
      if tx.closed {
        metrics.channelClosed := metrics.channelClosed + 1;
        return false;
      }
      if |tx.queue| >= tx.capacity {
        metrics.queueFull := metrics.queueFull + 1;
        return false;
      }
      tx.queue := tx.queue + [record];
      tx.accepted := tx.accepted + [record];
      return true;
    }

    /** The writer's error exit: close the queue, drop readiness and count the record in hand with
        everything still queued as lost. */
    method Fail()
      modifies tx`closed, metrics`ready, metrics`errors, metrics`writerError
      ensures tx.closed && !metrics.ready
      ensures metrics.errors == old(metrics.errors) + 1
      ensures metrics.writerError == old(metrics.writerError) + GivenUp(|tx.queue|)
    {
      tx.closed := true;
      metrics.ready := false;
      metrics.errors := metrics.errors + 1;
      metrics.writerError := metrics.writerError + 1 + |tx.queue|;
    }

    /** The queue is what has been accepted and not yet taken; taken records number w. */
    ghost predicate Behind(w: nat)
      reads tx
    {
      w <= |tx.accepted| && tx.queue == tx.accepted[w..]
    }

    lemma {:induction false} QueueLength(w: nat)
      ensures Behind(w) ==> |tx.queue| == |tx.accepted| - w
      ensures w == 0 && tx.queue == tx.accepted ==> Behind(w)
    {
    }

    /** What the session tasks do while the writer is elsewhere; offered is all they logged before. */
    method Producers(batch: seq<Record>, ghost w: nat, ghost offered: seq<Record>)
      requires !tx.closed && Behind(w) && Picks(tx.accepted, offered)
      modifies tx`queue, tx`accepted, metrics`queueFull, metrics`channelClosed
      ensures Behind(w) && old(tx.accepted) <= tx.accepted && Picks(tx.accepted, offered + batch)
      ensures metrics.queueFull + |tx.accepted| == old(metrics.queueFull) + |old(tx.accepted)| + |batch|
      ensures |old(tx.queue)| <= tx.capacity ==> |tx.queue| <= tx.capacity
    {
      hide Picks;
      assert offered + batch[..0] == offered;
      for i := 0 to |batch|
        invariant Behind(w) && old(tx.accepted) <= tx.accepted && Picks(tx.accepted, offered + batch[..i])
        invariant metrics.queueFull + |tx.accepted| == old(metrics.queueFull) + |old(tx.accepted)| + i
        invariant |old(tx.queue)| <= tx.capacity ==> |tx.queue| <= tx.capacity
      {
        PickOne(tx.accepted, offered + batch[..i], batch[i]);
        assert offered + batch[..i + 1] == (offered + batch[..i]) + [batch[i]];
        ghost var before := tx.accepted;
        var sent := Log(batch[i]);
        assert tx.accepted == if sent then before + [batch[i]] else before;
      }
      assert batch[..|batch|] == batch;
    }

    /** rx.recv, with the producers acting before and after the record is taken. None is returned
        once the queue is empty and the last producer is gone. logged is all they have offered by then. */
    method Recv(arrivals: seq<seq<Record>>, ghost w: nat, ghost offered: seq<Record>)
      returns (record: Record, some: bool, coming: seq<seq<Record>>, ghost logged: seq<Record>)
      requires !tx.closed && Behind(w) && Picks(tx.accepted, offered)
      modifies tx`queue, tx`accepted, metrics`queueFull, metrics`channelClosed
      ensures old(tx.accepted) <= tx.accepted && Picks(tx.accepted, logged)
      ensures logged + Flat(coming) == offered + Flat(arrivals)
      ensures metrics.queueFull + |tx.accepted| + |offered| == old(metrics.queueFull) + |old(tx.accepted)| + |logged|
      ensures some ==> w < |tx.accepted| && record == tx.accepted[w] && Behind(w + 1)
      ensures !some ==> coming == [] && w == |tx.accepted| && tx.queue == []
      ensures some ==> |coming| < |arrivals| || (coming == arrivals && |tx.queue| < |old(tx.queue)|)
    {
      hide Picks;
      coming, logged := arrivals, offered;
      while tx.queue == [] && coming != []
        invariant Behind(w) && old(tx.accepted) <= tx.accepted && Picks(tx.accepted, logged)
        invariant logged + Flat(coming) == offered + Flat(arrivals)
        invariant metrics.queueFull + |tx.accepted| + |offered|
                  == old(metrics.queueFull) + |old(tx.accepted)| + |logged|
        invariant |coming| < |arrivals| || (coming == arrivals && tx.queue == old(tx.queue))
        decreases |coming|
      {
        Assoc(logged, coming[0], Flat(coming[1..]));
        Producers(coming[0], w, logged);
        logged, coming := logged + coming[0], coming[1..];
      }
      some := tx.queue != [];
      if !some {
        record := Unserializable;
        return;
      }
      record := tx.queue[0];
      tx.queue := tx.queue[1..];
      if coming != [] {
        Assoc(logged, coming[0], Flat(coming[1..]));
        Producers(coming[0], w + 1, logged);
        logged, coming := logged + coming[0], coming[1..];
      }
    }
  }

  class Stdout {
    var bytes: seq<byte>

    constructor ()
      ensures bytes == []
    {
      bytes := [];
    }

    method WriteAll(data: seq<byte>) returns (ok: bool)
      modifies this
      ensures old(bytes) <= bytes <= old(bytes) + data
      ensures ok ==> bytes == old(bytes) + data
    {
      ok := *;
      var landed: nat := |data|;
      if !ok {
        landed :| 0 <= landed <= |data|;
      }
      bytes := bytes + data[..landed];
      assert old(bytes) + data[..landed] <= old(bytes) + data;
    }
  }

  /** One record to all configured sinks. */
  method WriteRecord(record: Record, sink: FileSink?, stdout: Stdout?) returns (ok: bool)
    requires sink != null ==> sink.Valid()
    modifies if sink == null then {} else {sink, sink.dir}
    modifies if stdout == null then {} else {stdout}
    ensures ok ==> record.Serializable?
    ensures sink != null ==>
              && (ok ==> sink.Valid() && sink.isOpen)
              && Descends(old(sink.dir.Now()), sink.dir.Now(), sink.maxFiles)
              && old(sink.dir.appended) <= sink.dir.appended <= old(sink.dir.appended) + LineOf(record)
              && (ok ==> sink.dir.appended == old(sink.dir.appended) + LineOf(record))
              && (ok ==> sink.dir.files == WrittenFiles(old(sink.dir.files), old(sink.size), LineOf(record),
                                                        sink.maxBytes, sink.maxFiles))
              && (Clean(old(sink.dir.files)) ==> ArchivesClean(sink.dir.files))
              && (record.Unserializable? ==> sink.dir.files == old(sink.dir.files))
              && TailTells(old(sink.dir.files), old(sink.dir.appended), sink.dir.files, sink.dir.appended,
                           LineOf(record))
    ensures stdout != null ==>
              && old(stdout.bytes) <= stdout.bytes <= old(stdout.bytes) + LineOf(record)
              && (ok ==> stdout.bytes == old(stdout.bytes) + LineOf(record))
  {
    if sink != null {
      CreateStep(sink.dir.Now(), sink.dir.Now(), sink.maxFiles);
    }
    if record.Unserializable? {
      return false;
    }
    var line := record.json + [LF];
    ok := true;
    if sink != null {
      ok := sink.Write(line);
      if !ok {
        return;
      }
    }
    if stdout != null {
      ok := stdout.WriteAll(line);
    }
  }

  /** Every file is whole lines. */
  ghost predicate Clean(files: Files) {
    ArchivesClean(files) && CleanTail(Slot(files, 0))
  }

  /** Where a writer starts: the directory, the bytes printed, and lines that packed like the
      directory's, if it holds nothing else. */
  datatype Base = Base(view: View, printed: seq<byte>, lines: seq<Line>)

  ghost predicate SingleLines(records: seq<Record>) {
    forall r | r in records :: r.Serializable? ==> SingleLine(LineOf(r))
  }

  /** Both outputs hold exactly the lines of the given records after what was there before; whole
      lines stay whole lines, and greedily packed files stay greedily packed. */
  ghost predicate Delivered(sink: FileSink?, stdout: Stdout?, base: Base, records: seq<Record>)
    reads if sink == null then {} else {sink, sink.dir}
    reads if stdout == null then {} else {stdout}
  {
    && (sink != null ==>
          && sink.Valid() && sink.isOpen
          && Descends(base.view, sink.dir.Now(), sink.maxFiles)
          && sink.dir.appended == base.view.appended + Flat(Lines(records))
          && (base.view.files == AfterLines(base.lines, sink.maxBytes, sink.maxFiles) ==>
                sink.dir.files == AfterLines(base.lines + Lines(records), sink.maxBytes, sink.maxFiles))
          && (Clean(base.view.files) && SingleLines(records) ==> Clean(sink.dir.files)))
    && (stdout != null ==> stdout.bytes == base.printed + Flat(Lines(records)))
  }

  /** Both outputs hold the lines of the given records and then at most a prefix of one more; in a log of
      whole lines only the end of the active file can be part of a line, and it shows. */
  ghost predicate Broken(sink: FileSink?, stdout: Stdout?, base: Base, records: seq<Record>, last: Record)
    reads if sink == null then {} else {sink, sink.dir}
    reads if stdout == null then {} else {stdout}
  {
    var whole := Flat(Lines(records));
    && (sink != null ==>
          && Descends(base.view, sink.dir.Now(), sink.maxFiles)
          && base.view.appended + whole <= sink.dir.appended <= base.view.appended + whole + LineOf(last)
          && (Clean(base.view.files) && SingleLines(records) && SingleLines([last]) ==>
                && ArchivesClean(sink.dir.files)
                && (CleanTail(Slot(sink.dir.files, 0)) <==>
                      sink.dir.appended == base.view.appended + whole
                      || sink.dir.appended == base.view.appended + whole + LineOf(last))))
    && (stdout != null ==> base.printed + whole <= stdout.bytes <= base.printed + whole + LineOf(last))
  }

  lemma {:induction false} OneMoreLine(base: seq<byte>, lines: seq<Line>, records: seq<Record>, r: Record)
    ensures Lines(records + [r]) == Lines(records) + [LineOf(r)]
    ensures base + Flat(Lines(records + [r])) == base + Flat(Lines(records)) + LineOf(r)
    ensures lines + Lines(records + [r]) == (lines + Lines(records)) + [LineOf(r)]
    ensures SingleLines(records + [r]) <==> SingleLines(records) && SingleLines([r])
  {
    assert Lines(records + [r]) == Lines(records) + [LineOf(r)];
    FlatOfSnoc(Lines(records), LineOf(r));
  }

  method WriteNext(record: Record, sink: FileSink?, stdout: Stdout?, ghost base: Base, ghost records: seq<Record>)
    returns (ok: bool)
    requires Delivered(sink, stdout, base, records)
    modifies if sink == null then {} else {sink, sink.dir}
    modifies if stdout == null then {} else {stdout}
    ensures ok ==> record.Serializable? && Delivered(sink, stdout, base, records + [record])
    ensures !ok ==> Broken(sink, stdout, base, records, record)
  {
    hide Descends, Flat, WrittenFiles, AfterLines, ArchivesClean, CleanTail, SingleLine, SingleLines, Lines;
    ghost var prior := if sink == null then base.view else sink.dir.Now();
    OneMoreLine(base.view.appended, base.lines, records, record);
    OneMoreLine(base.printed, base.lines, records, record);
    TheLine(record);
    ok := WriteRecord(record, sink, stdout);
    if sink != null {
      DescendsTrans(base.view, prior, sink.dir.Now(), sink.maxFiles);
      AfterOneMore(base.lines + Lines(records), LineOf(record), sink.maxBytes, sink.maxFiles);
    }
  }

  lemma {:induction false} TheLine(r: Record)
    ensures r.Serializable? && SingleLines([r]) ==> SingleLine(LineOf(r))
    ensures r.Unserializable? ==> LineOf(r) == []
  {
    assert r in [r];
  }

  lemma {:induction false} AfterOneMore(lines: seq<Line>, line: Line, maxBytes: nat, n: nat)
    ensures var files := AfterLines(lines, maxBytes, n);
            AfterLines(lines + [line], maxBytes, n) == WrittenFiles(files, |Slot(files, 0)|, line, maxBytes, n)
  {
    assert Front(lines + [line]) == lines;
  }

  /** The writer task. arrivals is what the producers log between its steps, ending when the last
      producer is dropped; left is what they had not yet logged when it stopped, and offered the rest.
      Both outputs hold exactly the first written accepted records, in acceptance order, plus at most
      a prefix of the one record that failed; the accepted records are the offered ones without those
      refused for a full queue, and each of them is either written or counted as lost. */
  method RunWriter(log: Logger, sink: FileSink?, stdout: Stdout?, arrivals: seq<seq<Record>>, ghost base: Base)
    returns (ok: bool, left: seq<seq<Record>>, ghost offered: seq<Record>)
    requires log.tx.queue == log.tx.accepted == [] && !log.tx.closed
    requires sink != null ==> sink.Valid() && sink.isOpen && base.view == sink.dir.Now()
    requires stdout != null ==> base.printed == stdout.bytes
    modifies log.tx, log.metrics
    modifies if sink == null then {} else {sink, sink.dir}
    modifies if stdout == null then {} else {stdout}
    ensures var accepted, w := log.tx.accepted, log.metrics.written - old(log.metrics.written);
            && 0 <= w <= |accepted|
            && (forall i | 0 <= i < w :: accepted[i].Serializable?)
            && offered + Flat(left) == Flat(arrivals) && Picks(accepted, offered)
            && log.metrics.queueFull - old(log.metrics.queueFull) + |accepted| == |offered|
            && (log.metrics.queueFull == old(log.metrics.queueFull) ==> accepted == offered)
            && (ok ==> && w == |accepted| && log.tx.queue == [] && left == []
                       && Delivered(sink, stdout, base, accepted)
                       && log.metrics.writerError == old(log.metrics.writerError)
                       && log.metrics.errors == old(log.metrics.errors))
            && (!ok ==> && w < |accepted| && log.tx.closed && !log.metrics.ready
                        && Broken(sink, stdout, base, accepted[..w], accepted[w])
                        && log.metrics.errors == old(log.metrics.errors) + 1
                        && log.metrics.writerError == old(log.metrics.writerError) + (|accepted| - w))
  {
    hide Broken, Delivered, Flat, Picks, Balanced, Logger.Behind, FileSink.Valid, Directory.Now;
    ghost var w, start := 0, Ledger(log.metrics.written, log.metrics.queueFull, log.metrics.writerError,
                                    log.metrics.errors);
    NothingDelivered(sink, stdout, base);
    NothingPicked();
    log.QueueLength(0);
    var record, some;
    record, some, left, offered := log.Recv(arrivals, 0, []);
    NothingWritten(log, offered, start);
    ok := true;
    while some
      invariant ok && Balanced(log, w, offered, start) && offered + Flat(left) == Flat(arrivals)
      invariant w <= |log.tx.accepted| && Delivered(sink, stdout, base, log.tx.accepted[..w])
      invariant some ==> w < |log.tx.accepted| && record == log.tx.accepted[w] && log.Behind(w + 1)
      invariant !some ==> left == [] && w == |log.tx.accepted| && log.tx.queue == []
      decreases |left|, |log.tx.queue|, some
    {
      ok, record, some, left, offered := ServeOne(log, sink, stdout, record, left, base, w, offered, start);
      if !ok {
        Accounts(log, w, offered, start);
        return;
      }
      w := w + 1;
    }
    Accounts(log, w, offered, start);
    assert log.tx.accepted[..w] == log.tx.accepted;
  }

  /** The counters the writer starts from. */
  datatype Ledger = Ledger(written: nat, queueFull: nat, writerError: nat, errors: nat)

  /** The counters after w records were written and these offered, with no error yet. */
  ghost predicate Balanced(log: Logger, w: nat, offered: seq<Record>, start: Ledger)
    reads log.tx, log.metrics
  {
    && Refusals(log, offered, start) && !log.tx.closed && w <= |log.tx.accepted|
        && log.metrics.written == start.written + w
    && log.metrics.writerError == start.writerError && log.metrics.errors == start.errors
    && forall i | 0 <= i < w :: log.tx.accepted[i].Serializable?
  }

  ghost predicate Refusals(log: Logger, offered: seq<Record>, start: Ledger)
    reads log.tx, log.metrics
  {
    Picks(log.tx.accepted, offered) && log.metrics.queueFull + |log.tx.accepted| == start.queueFull + |offered|
  }

  lemma NothingWritten(log: Logger, offered: seq<Record>, start: Ledger)
    requires Refusals(log, offered, start) && !log.tx.closed && log.metrics.written == start.written
    requires log.metrics.writerError == start.writerError && log.metrics.errors == start.errors
    ensures Balanced(log, 0, offered, start)
  {
  }

  lemma Accounts(log: Logger, w: nat, offered: seq<Record>, start: Ledger)
    requires Balanced(log, w, offered, start) || Refusals(log, offered, start)
    ensures Picks(log.tx.accepted, offered) && log.metrics.queueFull - start.queueFull + |log.tx.accepted| == |offered|
    ensures log.metrics.queueFull == start.queueFull ==> log.tx.accepted == offered
    ensures Balanced(log, w, offered, start) ==>
              && log.metrics.written == start.written + w && log.metrics.writerError == start.writerError
              && log.metrics.errors == start.errors && forall i | 0 <= i < w :: log.tx.accepted[i].Serializable?
  {
    PickedAll(log.tx.accepted, offered);
  }

  /** Write the record in hand, then wait for the next; or give up. */
  method ServeOne(log: Logger, sink: FileSink?, stdout: Stdout?, record: Record, arrivals: seq<seq<Record>>,
                  ghost base: Base, ghost w: nat, ghost before: seq<Record>, ghost start: Ledger)
    returns (ok: bool, next: Record, some: bool, left: seq<seq<Record>>, ghost offered: seq<Record>)
    requires Balanced(log, w, before, start) && w < |log.tx.accepted| && record == log.tx.accepted[w]
             && log.Behind(w + 1)
    requires Delivered(sink, stdout, base, log.tx.accepted[..w])
    modifies log.tx, log.metrics
    modifies if sink == null then {} else {sink, sink.dir}
    modifies if stdout == null then {} else {stdout}
    ensures offered + Flat(left) == before + Flat(arrivals)
    ensures ok ==>
              && Balanced(log, w + 1, offered, start) && w + 1 <= |log.tx.accepted|
              && Delivered(sink, stdout, base, log.tx.accepted[..w + 1])
              && (some ==> w + 1 < |log.tx.accepted| && next == log.tx.accepted[w + 1] && log.Behind(w + 2))
              && (some ==> |left| < |arrivals| || (left == arrivals && |log.tx.queue| < |old(log.tx.queue)|))
              && (!some ==> left == [] && w + 1 == |log.tx.accepted| && log.tx.queue == []
                            && (|left| < |arrivals| || (left == arrivals && |log.tx.queue| <= |old(log.tx.queue)|)))
    ensures !ok ==>
              && Refusals(log, offered, start) && w < |log.tx.accepted| && log.tx.closed && !log.metrics.ready
              && Broken(sink, stdout, base, log.tx.accepted[..w], log.tx.accepted[w])
              && log.metrics.written == start.written + w && log.metrics.errors == start.errors + 1
              && log.metrics.writerError == start.writerError + (|log.tx.accepted| - w)
              && forall i | 0 <= i < w :: log.tx.accepted[i].Serializable?
  {
    hide Broken, Delivered, Flat, Picks, Logger.Behind, FileSink.Valid, Directory.Now;
    ghost var known := log.tx.accepted;
    assert known[..w + 1] == known[..w] + [record];
    log.QueueLength(w + 1);
    next, some, left, offered := record, false, arrivals, before;
    ok := WriteNext(record, sink, stdout, base, known[..w]);
    if !ok {
      log.Fail();
      return;
    }
    log.metrics.written := log.metrics.written + 1;
    next, some, left, offered := log.Recv(arrivals, w + 1, before);
    assert log.tx.accepted[..w + 1] == known[..w + 1];
  }

  lemma NothingPicked()
    ensures Picks<Record>([], [])
  {
  }

  lemma NothingDelivered(sink: FileSink?, stdout: Stdout?, base: Base)
    requires sink != null ==> sink.Valid() && sink.isOpen && base.view == sink.dir.Now()
    requires stdout != null ==> base.printed == stdout.bytes
    ensures Delivered(sink, stdout, base, [])
  {
    var none: seq<Record> := [];
    assert Lines(none) == [] && Flat(Lines(none)) == [];
    assert base.printed + [] == base.printed && base.lines + [] == base.lines;
    if sink != null {
      assert base.view.appended + [] == base.view.appended;
      CreateStep(base.view, base.view, sink.maxFiles);
    }
  }

  // ---------- Reading the log ----------

  /** The texts before each line feed, and what comes after the last. */
  function ReadLog(bytes: seq<byte>): (seq<seq<byte>>, seq<byte>) {
    if bytes == [] then ([], [])
    else
      var (lines, tail) := ReadLog(bytes[1..]);
      if bytes[0] == LF then ([[]] + lines, tail)
      else if lines == [] then (lines, [bytes[0]] + tail)
      else ([[bytes[0]] + lines[0]] + lines[1..], tail)
  }

  function Texts(records: seq<Record>): seq<seq<byte>>
    requires forall r | r in records :: r.Serializable?
  {
    seq(|records|, i requires 0 <= i < |records| => assert records[i] in records; records[i].json)
  }

  lemma {:induction false} ReadOneLine(json: seq<byte>, rest: seq<byte>)
    requires LF !in json
    ensures ReadLog(json + [LF] + rest) == ([json] + ReadLog(rest).0, ReadLog(rest).1)
  {
    var all := json + [LF] + rest;
    if json == [] {
      assert all[1..] == rest;
    } else {
      assert all[1..] == json[1..] + [LF] + rest;
      ReadOneLine(json[1..], rest);
      assert [json[0]] + json[1..] == json;
    }
  }

  /** Reading the log line by line gives the serialised records back, one a line, in order, and after them the part
      of a line a failure may have left. */
  lemma {:induction false} LogReadsBack(records: seq<Record>, part: seq<byte>)
    requires forall r | r in records :: r.Serializable? && LF !in r.json
    ensures ReadLog(Flat(Lines(records)) + part) == (Texts(records) + ReadLog(part).0, ReadLog(part).1)
  {
    hide ReadLog;
    if records == [] {
      assert Flat(Lines(records)) + part == part;
      assert Texts(records) + ReadLog(part).0 == ReadLog(part).0;
    } else {
      var r, rest := records[0], records[1..];
      assert r in records && forall x | x in rest :: x in records;
      assert Lines(records)[1..] == Lines(rest);
      assert Flat(Lines(records)) + part == r.json + [LF] + (Flat(Lines(rest)) + part);
      LogReadsBack(rest, part);
      ReadOneLine(r.json, Flat(Lines(rest)) + part);
      assert Texts(records) == [r.json] + Texts(rest);
      assert [r.json] + (Texts(rest) + ReadLog(part).0) == Texts(records) + ReadLog(part).0;
    }
  }
}
