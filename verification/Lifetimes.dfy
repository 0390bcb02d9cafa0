/** The log across restarts (src/logger.rs): what any number of process lifetimes, each ended by any
    failure or by running out of lines, leave on one directory. */
module Lifetimes {
  import opened Bytes
  import opened FileSink
  import opened Packing
  import opened Writer

  /** part is a non-empty proper prefix of line. */
  predicate PartOf(part: Line, line: Line) {
    part != [] && part <= line && part != line
  }

  ghost predicate AllSingle(lines: seq<Line>) {
    forall l | l in lines :: SingleLine(l)
  }

  ghost predicate AllFit(lines: seq<Line>, maxBytes: nat) {
    forall l | l in lines :: |l| <= maxBytes
  }

  /** What one life has done to the log: n lines landed whole and then part of the next. */
  ghost predicate Landed(lines: seq<Line>, n: nat, part: Line, a: View, b: View, maxFiles: nat) {
    && n <= |lines| && Descends(a, b, maxFiles)
    && b.appended == a.appended + Flat(lines[..n]) + part
    && (part != [] ==> n < |lines| && PartOf(part, lines[n]))
    && (Clean(a.files) ==> ArchivesClean(b.files) && (CleanTail(Slot(b.files, 0)) <==> part == []))
  }

  lemma {:induction false} NothingLanded(lines: seq<Line>, a: View, b: View, maxFiles: nat)
    requires Descends(a, b, maxFiles) && b.appended == a.appended && (Clean(a.files) ==> Clean(b.files))
    ensures Landed(lines, 0, [], a, b, maxFiles)
  {
    assert a.appended + Flat(lines[..0]) + [] == a.appended;
  }

  lemma {:induction false} HasActiveFile(lines: seq<Line>, maxBytes: nat, n: nat)
    ensures 0 in AfterLines(lines, maxBytes, n)
  {
  }

  /** Opening a directory disturbs nothing. */
  lemma {:induction false} Opened(pre: seq<Line>, f: Files, g: Files, maxBytes: nat, n: nat)
    requires g == f || (0 !in f && g == f[0 := []])
    ensures Clean(f) ==> Clean(g)
    ensures FilesWithin(f, maxBytes, n) ==> FilesWithin(g, maxBytes, n)
    ensures f == AfterLines(pre, maxBytes, n) ==> g == f
    ensures !CleanTail(Slot(f, 0)) ==> g == f
  {
    HasActiveFile(pre, maxBytes, n);
  }

  lemma {:induction false} CleanParts(f: Files)
    ensures Clean(f) <==> ArchivesClean(f) && CleanTail(Slot(f, 0))
  {
  }

  /** One more write, whole or in part, after n lines. */
  lemma {:induction false} OneWrite(lines: seq<Line>, n: nat, a: View, b: View, c: View, maxFiles: nat)
    returns (m: nat, part: Line)
    requires n < |lines| && Landed(lines, n, [], a, b, maxFiles) && Descends(b, c, maxFiles) && SingleLine(lines[n])
    requires b.appended <= c.appended <= b.appended + lines[n]
    requires Clean(b.files) ==> ArchivesClean(c.files)
    requires TailTells(b.files, b.appended, c.files, c.appended, lines[n])
    ensures Landed(lines, m, part, a, c, maxFiles)
    ensures c.appended == b.appended + lines[n] ==> m == n + 1 && part == []
  {
    hide Descends, CleanTail, ArchivesClean, SingleLine, Flat;
    DescendsTrans(a, b, c, maxFiles);
    part := c.appended[|b.appended|..];
    assert c.appended == b.appended + part && part == (b.appended + lines[n])[|b.appended|..|c.appended|];
    assert a.appended + Flat(lines[..n]) + [] == a.appended + Flat(lines[..n]);
    m := n;
    if part == lines[n] {
      assert lines[..n + 1] == lines[..n] + [lines[n]];
      FlatOfSnoc(lines[..n], lines[n]);
      Assoc(a.appended, Flat(lines[..n]), lines[n]);
      assert c.appended == a.appended + Flat(lines[..n + 1]) + [];
      m, part := n + 1, [];
    }
    assert b.appended + [] == b.appended;
  }

  /** One process: open the sink, then write until the lines run out or something fails. */
  method Life(dir: Directory, lines: seq<Line>, maxBytes: nat, maxFiles: nat, ghost pre: seq<Line>)
    returns (ghost n: nat, ghost part: Line)
    requires AllSingle(lines)
    modifies dir
    ensures Landed(lines, n, part, old(dir.Now()), dir.Now(), maxFiles)
    ensures !CleanTail(Slot(old(dir.files), 0)) ==> dir.files == old(dir.files) && n == 0 && part == []
    ensures FilesWithin(old(dir.files), maxBytes, maxFiles) ==> FilesWithin(dir.files, maxBytes, maxFiles)
    ensures dir.faults >= old(dir.faults)
    ensures dir.faults == old(dir.faults) && CleanTail(Slot(old(dir.files), 0)) && maxBytes > 0 && maxFiles > 0
            && AllFit(lines, maxBytes) ==>
              && n == |lines| && part == []
              && (old(dir.files) == AfterLines(pre, maxBytes, maxFiles) ==>
                    dir.files == AfterLines(pre + lines, maxBytes, maxFiles))
  {
    hide Descends, Contents, Landed, Clean, CleanTail, ArchivesClean, SingleLine, FilesWithin, AfterLines,
         WrittenFiles, TailTells;
    ghost var a := dir.Now();
    n, part := 0, [];
    var sink := FileSink.Open(dir, maxBytes, maxFiles);
    Opened(pre, a.files, dir.files, maxBytes, maxFiles);
    NothingLanded(lines, a, dir.Now(), maxFiles);
    if sink == null {
      return;
    }
    assert pre + lines[..0] == pre;
    var next := 0;
    while next < |lines|
      invariant n == next <= |lines| && sink.Valid() && sink.isOpen && part == []
      invariant Landed(lines, n, [], a, dir.Now(), maxFiles) && dir.faults == old(dir.faults)
      invariant FilesWithin(a.files, maxBytes, maxFiles) ==> FilesWithin(dir.files, maxBytes, maxFiles)
      invariant a.files == AfterLines(pre, maxBytes, maxFiles)
                ==> dir.files == AfterLines(pre + lines[..n], maxBytes, maxFiles)
    {
      ghost var b := dir.Now();
      assert lines[next] in lines;
      CleanParts(b.files);
      var ok := sink.Write(lines[next]);
      n, part := OneWrite(lines, next, a, b, dir.Now(), maxFiles);
      if !ok {
        return;
      }
      AfterOneMore(pre + lines[..next], lines[next], maxBytes, maxFiles);
      assert (pre + lines[..next]) + [lines[next]] == pre + lines[..next + 1];
      next := next + 1;
    }
    assert lines[..n] == lines;
  }

  // ---------- Many lives ----------

  /** The first kept[i] lines of every life i. */
  function Kept(lives: seq<seq<Line>>, kept: seq<nat>): seq<Line>
    requires |kept| <= |lives| && forall i | 0 <= i < |kept| :: kept[i] <= |lives[i]|
  {
    if kept == [] then [] else Kept(lives, Front(kept)) + lives[|kept| - 1][..Back(kept)]
  }

  lemma {:induction false} KeptAll(lives: seq<seq<Line>>, kept: seq<nat>)
    requires |kept| <= |lives| && forall i | 0 <= i < |kept| :: kept[i] == |lives[i]|
    ensures Kept(lives, kept) == Flat(lives[..|kept|])
  {
    if kept != [] {
      var n := |kept| - 1;
      KeptAll(lives, Front(kept));
      assert lives[..n + 1] == lives[..n] + [lives[n]] && lives[n][..|lives[n]|] == lives[n];
      FlatOfSnoc(lives[..n], lives[n]);
    }
  }

  ghost predicate Counts(lives: seq<seq<Line>>, kept: seq<nat>) {
    |kept| <= |lives| && forall i | 0 <= i < |kept| :: kept[i] <= |lives[i]|
  }

  /** Life i broke off inside a line, and no later one wrote anything. */
  ghost predicate BrokeOff(lives: seq<seq<Line>>, kept: seq<nat>, part: Line, i: nat)
    requires i < |kept| && Counts(lives, kept)
  {
    && kept[i] < |lives[i]| && PartOf(part, lives[i][kept[i]])
    && forall j | i < j < |kept| :: kept[j] == 0
  }

  /** What the lives so far have done to the log: the first lines of each, then at most one partial
      line, after which nothing was written; only the end of the active file can be part of a line,
      and it is exactly when some line was left partial. */
  ghost predicate History(lives: seq<seq<Line>>, kept: seq<nat>, part: Line, a: View, b: View, maxFiles: nat) {
    && Counts(lives, kept) && Descends(a, b, maxFiles)
    && b.appended == a.appended + Flat(Kept(lives, kept)) + part
    && (part != [] ==> exists i :: 0 <= i < |kept| && BrokeOff(lives, kept, part, i))
    && (Clean(a.files) ==> ArchivesClean(b.files) && (CleanTail(Slot(b.files, 0)) <==> part == []))
  }

  lemma {:induction false} NoHistory(lives: seq<seq<Line>>, a: View, maxFiles: nat)
    ensures History(lives, [], [], a, a, maxFiles)
  {
    assert a.appended + Flat(Kept(lives, [])) + [] == a.appended;
    CreateStep(a, a, maxFiles);
  }

  lemma {:induction false} KeptSnoc(lives: seq<seq<Line>>, kept: seq<nat>, n: nat)
    requires Counts(lives, kept) && |kept| < |lives| && n <= |lives[|kept|]|
    ensures Counts(lives, kept + [n]) && Kept(lives, kept + [n]) == Kept(lives, kept) + lives[|kept|][..n]
  {
    assert Front(kept + [n]) == kept;
  }

  lemma FlatNone()
    ensures Flat<byte>([]) == []
  {
  }

  /** One more life; after a partial line it can do nothing. */
  lemma {:induction false} NextLife(lives: seq<seq<Line>>, kept: seq<nat>, part: Line, a: View, b: View, n: nat,
                                    p: Line, c: View,
                                    maxFiles: nat)
    requires History(lives, kept, part, a, b, maxFiles) && |kept| < |lives|
    requires Landed(lives[|kept|], n, p, b, c, maxFiles)
    requires part != [] ==> n == 0 && p == [] && c.files == b.files
    requires !Clean(a.files) ==> part == []
    ensures History(lives, kept + [n], if part != [] then part else p, a, c, maxFiles)
  {
    hide Descends, CleanTail, ArchivesClean, Flat, Kept, PartOf;
    DescendsTrans(a, b, c, maxFiles);
    KeptSnoc(lives, kept, n);
    var all, life := kept + [n], lives[|kept|];
    var before, now := Flat(Kept(lives, kept)), Flat(life[..n]);
    FlatOfConcat(Kept(lives, kept), life[..n]);
    if part != [] {
      assert life[..0] == [];
      FlatNone();
      assert b.appended + now + p == b.appended && before + now == before;
      var i :| 0 <= i < |kept| && BrokeOff(lives, kept, part, i);
      assert BrokeOff(lives, all, part, i);
    } else {
      assert a.appended + before + [] == a.appended + before;
      Assoc(a.appended, before, now);
      if p != [] {
        assert BrokeOff(lives, all, p, |kept|);
      }
    }
  }

  ghost predicate AllLivesFit(lives: seq<seq<Line>>, maxBytes: nat) {
    forall life | life in lives :: AllFit(life, maxBytes)
  }

  /** What no failure means so far: everything kept, packed as by one process. */
  ghost predicate Smooth(calm: bool, lives: seq<seq<Line>>, kept: seq<nat>, part: Line, pre: seq<Line>, f: Files,
                         g: Files,
                         maxBytes: nat, n: nat)
    requires |kept| <= |lives|
  {
    calm && CleanTail(Slot(f, 0)) && maxBytes > 0 && n > 0 && AllLivesFit(lives, maxBytes) ==>
      && part == [] && CleanTail(Slot(g, 0)) && (forall i | 0 <= i < |kept| :: kept[i] == |lives[i]|)
      && (f == AfterLines(pre, maxBytes, n) ==> g == AfterLines(pre + Flat(lives[..|kept|]), maxBytes, n))
  }

  lemma {:induction false} SmoothStart(calm: bool, lives: seq<seq<Line>>, pre: seq<Line>, f: Files, maxBytes: nat,
                                       n: nat)
    ensures Smooth(calm, lives, [], [], pre, f, f, maxBytes, n)
  {
    hide AfterLines;
    assert lives[..0] == [] && pre + Flat(lives[..0]) == pre;
  }

  lemma {:induction false} StaysSmooth(calm: bool, lives: seq<seq<Line>>, kept: seq<nat>, part: Line, m: nat, p: Line,
                                       pre: seq<Line>, f: Files, g: Files, h: Files, maxBytes: nat, n: nat)
    requires |kept| < |lives| && Smooth(calm, lives, kept, part, pre, f, g, maxBytes, n)
    requires calm && CleanTail(Slot(g, 0)) && maxBytes > 0 && n > 0 && AllFit(lives[|kept|], maxBytes) ==>
               var all := pre + Flat(lives[..|kept|]);
               && m == |lives[|kept|]| && p == [] && CleanTail(Slot(h, 0))
               && (g == AfterLines(all, maxBytes, n) ==> h == AfterLines(all + lives[|kept|], maxBytes, n))
    ensures Smooth(calm, lives, kept + [m], if part != [] then part else p, pre, f, h, maxBytes, n)
  {
    hide AfterLines, CleanTail, AllFit, Flat;
    var life := lives[|kept|];
    assert life in lives;
    assert lives[..|kept| + 1] == lives[..|kept|] + [life];
    FlatOfSnoc(lives[..|kept|], life);
    Assoc(pre, Flat(lives[..|kept|]), life);
  }

  lemma {:induction false} Calmer(calm: bool, still: bool, lives: seq<seq<Line>>, kept: seq<nat>, part: Line,
                                  pre: seq<Line>,
                                  f: Files, g: Files, maxBytes: nat, n: nat)
    requires |kept| <= |lives| && Smooth(calm, lives, kept, part, pre, f, g, maxBytes, n) && (still ==> calm)
    ensures Smooth(still, lives, kept, part, pre, f, g, maxBytes, n)
  {
  }

  lemma {:induction false} HistoryTail(lives: seq<seq<Line>>, kept: seq<nat>, part: Line, a: View, b: View,
                                       maxFiles: nat)
    requires History(lives, kept, part, a, b, maxFiles) && Clean(a.files)
    ensures CleanTail(Slot(b.files, 0)) <==> part == []
    ensures Clean(b.files) <==> part == []
  {
    hide Descends, CleanTail, ArchivesClean, Flat, Kept;
  }

  lemma {:induction false} LandedTail(lines: seq<Line>, n: nat, part: Line, a: View, b: View, maxFiles: nat)
    requires Landed(lines, n, part, a, b, maxFiles) && Clean(a.files)
    ensures CleanTail(Slot(b.files, 0)) <==> part == []
  {
    hide Descends, CleanTail, ArchivesClean, Flat;
  }

  lemma {:induction false} CountsOf(lives: seq<seq<Line>>, kept: seq<nat>, part: Line, a: View, b: View, maxFiles: nat)
    requires History(lives, kept, part, a, b, maxFiles)
    ensures Counts(lives, kept)
  {
  }

  lemma {:induction false} SmoothEnd(lives: seq<seq<Line>>, kept: seq<nat>)
    requires Counts(lives, kept) && |kept| == |lives|
    ensures (forall i | 0 <= i < |kept| :: kept[i] == |lives[i]|) ==> Kept(lives, kept) == Flat(lives)
    ensures lives[..|kept|] == lives
  {
    assert lives[..|kept|] == lives;
    if forall i | 0 <= i < |kept| :: kept[i] == |lives[i]| {
      KeptAll(lives, kept);
    }
  }

  /** Any number of lives on one directory. Whatever fails and whenever: the log is what was there and
      what the lives wrote, minus whole files at the old end; every archive is whole lines, and the
      active file ends in part of a line exactly when one was left partial, after which the log is
      never written again. A log found with a partial line is left alone. Without a failure every
      line is kept and the files stay packed as if one process had written them all. */
  method RunLives(dir: Directory, lives: seq<seq<Line>>, maxBytes: nat, maxFiles: nat, ghost pre: seq<Line>)
    returns (ghost kept: seq<nat>, ghost part: Line)
    requires forall life | life in lives :: AllSingle(life)
    requires ArchivesClean(dir.files)
    modifies dir
    ensures |kept| == |lives| && Counts(lives, kept) && History(lives, kept, part, old(dir.Now()), dir.Now(), maxFiles)
    ensures !CleanTail(Slot(old(dir.files), 0)) ==> dir.files == old(dir.files) && part == []
    ensures FilesWithin(old(dir.files), maxBytes, maxFiles) ==> FilesWithin(dir.files, maxBytes, maxFiles)
    ensures dir.faults == old(dir.faults) && CleanTail(Slot(old(dir.files), 0)) && maxBytes > 0 && maxFiles > 0
            && AllLivesFit(lives, maxBytes) ==>
              && part == [] && Kept(lives, kept) == Flat(lives)
              && (old(dir.files) == AfterLines(pre, maxBytes, maxFiles) ==>
                    dir.files == AfterLines(pre + Flat(lives), maxBytes, maxFiles))
  {
    hide Descends, Contents, Landed, Clean, CleanTail, ArchivesClean, FilesWithin, AfterLines, History, Counts,
         AllSingle, AllFit, Flat, Kept;
    ghost var a := dir.Now();
    kept, part := [], [];
    NoHistory(lives, a, maxFiles);
    SmoothStart(true, lives, pre, a.files, maxBytes, maxFiles);
    CleanParts(a.files);
    for i := 0 to |lives|
      invariant |kept| == i && History(lives, kept, part, a, dir.Now(), maxFiles) && dir.faults >= old(dir.faults)
      invariant !CleanTail(Slot(a.files, 0)) ==> dir.files == a.files && part == []
      invariant FilesWithin(a.files, maxBytes, maxFiles) ==> FilesWithin(dir.files, maxBytes, maxFiles)
      invariant Smooth(dir.faults == old(dir.faults), lives, kept, part, pre, a.files, dir.files, maxBytes, maxFiles)
    {
      ghost var b, calm := dir.Now(), dir.faults == old(dir.faults);
      if CleanTail(Slot(a.files, 0)) {
        HistoryTail(lives, kept, part, a, b, maxFiles);
      }
      assert lives[i] in lives;
      ghost var n, p := Life(dir, lives[i], maxBytes, maxFiles, pre + Flat(lives[..i]));
      if CleanTail(Slot(b.files, 0)) && CleanTail(Slot(a.files, 0)) {
        LandedTail(lives[i], n, p, b, dir.Now(), maxFiles);
      }
      NextLife(lives, kept, part, a, b, n, p, dir.Now(), maxFiles);
      hide Smooth;
      Calmer(calm, dir.faults == old(dir.faults), lives, kept, part, pre, a.files, b.files, maxBytes, maxFiles);
      StaysSmooth(dir.faults == old(dir.faults), lives, kept, part, n, p, pre, a.files, b.files, dir.files, maxBytes,
                  maxFiles);
      kept, part := kept + [n], if part != [] then part else p;
    }
    CountsOf(lives, kept, part, a, dir.Now(), maxFiles);
    SmoothEnd(lives, kept);
  }
}
