/** Which lines end up in which file: the sink packs greedily (src/logger.rs). */
module Packing {
  import opened Bytes
  import opened FileSink

  type Line = seq<byte>

  /** The directory after a fault-free sink, started on an empty directory, wrote all lines. */
  function AfterLines(lines: seq<Line>, maxBytes: nat, n: nat): Files {
    if lines == [] then map[0 := []]
    else
      var files := AfterLines(Front(lines), maxBytes, n);
      WrittenFiles(files, |Slot(files, 0)|, Back(lines), maxBytes, n)
  }

  /** parts cuts lines into consecutive runs; each run fits in a file, and each but the last is
      full: it has no room for the first line of the next run. */
  ghost predicate GreedyCut(parts: seq<seq<Line>>, lines: seq<Line>, maxBytes: nat) {
    && parts != []
    && Flat(parts) == lines
    && (|parts| > 1 ==> forall i | 0 <= i < |parts| :: parts[i] != [])
    && (forall i | 0 <= i < |parts| :: |Flat(parts[i])| <= maxBytes)
    && (forall i | 0 <= i < |parts| - 1 :: |Flat(parts[i])| + |parts[i + 1][0]| > maxBytes)
  }

  lemma {:induction false} FlatPrefix(a: seq<Line>, b: seq<Line>)
    requires |a| < |b| && a == b[..|a|]
    ensures |Flat(a)| + |b[|a|]| <= |Flat(b)|
  {
    assert b == (a + [b[|a|]]) + b[|a| + 1..];
    FlatOfConcat(a + [b[|a|]], b[|a| + 1..]);
    FlatOfSnoc(a, b[|a|]);
  }

  lemma {:induction false} FirstRunNotShorter(p: seq<seq<Line>>, q: seq<seq<Line>>, lines: seq<Line>, maxBytes: nat)
    requires GreedyCut(p, lines, maxBytes) && GreedyCut(q, lines, maxBytes)
    ensures |p[0]| >= |q[0]|
  {
    assert lines == p[0] + Flat(p[1..]) == q[0] + Flat(q[1..]);
    if |p[0]| < |q[0]| {
      assert |p| > 1;
      assert p[1..][0] == p[1];
      assert Flat(p[1..]) == p[1] + Flat(p[1..][1..]);
      assert lines[|p[0]|] == p[1][0];
      assert q[0][..|p[0]|] == lines[..|p[0]|] == p[0];
      assert q[0][|p[0]|] == lines[|p[0]|];
      FlatPrefix(p[0], q[0]);
    }
  }

  lemma {:induction false} RestIsGreedy(p: seq<seq<Line>>, lines: seq<Line>, maxBytes: nat)
    requires GreedyCut(p, lines, maxBytes) && |p| > 1
    ensures GreedyCut(p[1..], lines[|p[0]|..], maxBytes)
  {
    assert lines == p[0] + Flat(p[1..]);
    forall i | 0 <= i < |p| - 1 ensures p[1..][i] == p[i + 1] {
    }
  }

  /** There is only one greedy cut, so the predicate determines where every line goes. */
  lemma {:induction false} GreedyCutIsUnique(p: seq<seq<Line>>, q: seq<seq<Line>>, lines: seq<Line>, maxBytes: nat)
    requires GreedyCut(p, lines, maxBytes) && GreedyCut(q, lines, maxBytes)
    ensures p == q
    decreases |p|
  {
    FirstRunNotShorter(p, q, lines, maxBytes);
    FirstRunNotShorter(q, p, lines, maxBytes);
    assert lines == p[0] + Flat(p[1..]) == q[0] + Flat(q[1..]);
    assert p[0] == lines[..|p[0]|] == q[0];
    if |p| > 1 && |q| > 1 {
      RestIsGreedy(p, lines, maxBytes);
      RestIsGreedy(q, lines, maxBytes);
      GreedyCutIsUnique(p[1..], q[1..], lines[|p[0]|..], maxBytes);
      assert p == [p[0]] + p[1..] && q == [q[0]] + q[1..];
    } else if |p| > 1 {
      SingleRun(q, p, lines);
    } else if |q| > 1 {
      SingleRun(p, q, lines);
    } else {
      assert p == [p[0]] && q == [q[0]];
    }
  }

  lemma {:induction false} SingleRun(one: seq<seq<Line>>, many: seq<seq<Line>>, lines: seq<Line>)
    requires |one| == 1 && |many| > 1 && Flat(one) == lines == Flat(many)
    requires many[1] != []
    ensures one[0] != many[0]
  {
    assert one == [one[0]] && Flat(one) == one[0] + Flat([]);
    assert Flat(many) == many[0] + Flat(many[1..]) && many[1..][0] == many[1];
  }

  function Texts(parts: seq<seq<Line>>): seq<seq<byte>> {
    seq(|parts|, i requires 0 <= i < |parts| => Flat(parts[i]))
  }

  /** The directory holds the last n + 1 of the given files, newest in slot 0. */
  ghost predicate Stores(files: Files, texts: seq<seq<byte>>, n: nat) {
    forall k: nat ::
      && (k in files <==> k < |texts| && k <= n)
      && (k in files ==> files[k] == texts[|texts| - 1 - k])
  }

  lemma {:induction false} StoreNewFile(files: Files, texts: seq<seq<byte>>, line: Line, n: nat)
    requires texts != [] && Stores(files, texts, n) && n > 0
    ensures Stores(Rotated(files, n)[0 := line], texts + [line], n)
  {
    var g := Rotated(files, n)[0 := line];
    forall k: nat
      ensures k in g <==> k <= |texts| && k <= n
      ensures k in g ==> g[k] == (texts + [line])[|texts| - k]
    {
      if 0 < k <= n {
        assert k in g <==> k - 1 in files;
      } else if k > n {
        assert k !in files;
      }
    }
  }

  lemma {:induction false} StoreInPlace(files: Files, texts: seq<seq<byte>>, line: Line, n: nat)
    requires texts != [] && Stores(files, texts, n)
    ensures Stores(files[0 := Slot(files, 0) + line], texts[|texts| - 1 := Back(texts) + line], n)
  {
    assert 0 in files;
  }

  function CutWith(parts: seq<seq<Line>>, line: Line, maxBytes: nat): seq<seq<Line>>
    requires parts != []
  {
    if |Flat(Back(parts))| + |line| > maxBytes then parts + [[line]]
    else parts[|parts| - 1 := Back(parts) + [line]]
  }

  lemma {:induction false} StoreAnotherLine(files: Files, parts: seq<seq<Line>>, line: Line, maxBytes: nat, n: nat)
    requires parts != [] && Stores(files, Texts(parts), n) && n > 0
    ensures Stores(WrittenFiles(files, |Slot(files, 0)|, line, maxBytes, n), Texts(CutWith(parts, line, maxBytes)), n)
  {
    var last, texts, cut := Back(parts), Texts(parts), CutWith(parts, line, maxBytes);
    assert 0 in files && files[0] == texts[|texts| - 1] == Flat(last);
    if |Flat(last)| + |line| > maxBytes {
      StoreNewFile(files, texts, line, n);
      assert Flat([line]) == line + Flat([]) == line;
      assert Texts(cut) == texts + [line];
    } else {
      StoreInPlace(files, texts, line, n);
      FlatOfSnoc(last, line);
      assert Texts(cut) == texts[|texts| - 1 := Back(texts) + line];
    }
  }

  lemma {:induction false} CutNewFile(parts: seq<seq<Line>>, lines: seq<Line>, line: Line, maxBytes: nat)
    requires GreedyCut(parts, lines, maxBytes) && |line| <= maxBytes && |Flat(Back(parts))| + |line| > maxBytes
    ensures GreedyCut(parts + [[line]], lines + [line], maxBytes)
  {
    FlatOfSnoc(parts, [line]);
    assert Flat([line]) == line + Flat([]) == line;
    assert Back(parts) != [];
    hide Flat;
    assert forall i {:trigger parts[i]} | 0 <= i < |parts| :: (parts + [[line]])[i] == parts[i];
  }

  lemma {:induction false} CutInPlace(parts: seq<seq<Line>>, lines: seq<Line>, line: Line, maxBytes: nat)
    requires GreedyCut(parts, lines, maxBytes) && |Flat(Back(parts))| + |line| <= maxBytes
    ensures GreedyCut(parts[|parts| - 1 := Back(parts) + [line]], lines + [line], maxBytes)
  {
    hide Flat;
    var last := Back(parts);
    var cut := parts[|parts| - 1 := last + [line]];
    FlatOfSnoc(last, line);
    FlatOfUpdatedBack(parts, [line]);
    if |parts| > 1 {
      assert cut[|parts| - 1][0] == parts[|parts| - 1][0];
    }
  }

  lemma {:induction false} FlatOfUpdatedBack(parts: seq<seq<Line>>, more: seq<Line>)
    requires parts != []
    ensures Flat(parts[|parts| - 1 := Back(parts) + more]) == Flat(parts) + more
  {
    hide Flat;
    var front, last := Front(parts), Back(parts);
    assert parts == front + [last];
    assert parts[|parts| - 1 := last + more] == front + [last + more];
    FlatOfSnoc(front, last);
    FlatOfSnoc(front, last + more);
    Assoc(Flat(front), last, more);
  }

  lemma {:induction false} CutAnotherLine(parts: seq<seq<Line>>, lines: seq<Line>, line: Line, maxBytes: nat)
    requires GreedyCut(parts, lines, maxBytes) && |line| <= maxBytes
    ensures GreedyCut(CutWith(parts, line, maxBytes), lines + [line], maxBytes)
  {
    if |Flat(Back(parts))| + |line| > maxBytes {
      CutNewFile(parts, lines, line, maxBytes);
    } else {
      CutInPlace(parts, lines, line, maxBytes);
    }
  }

  /** A fault-free sink on an empty directory stores the greedy cut of the lines: every file is a
      whole number of lines and fits the limit, every archive is full, at most n archives exist,
      and only the oldest runs are gone. */
  lemma {:induction false} DiskIsGreedyCut(lines: seq<Line>, maxBytes: nat, n: nat) returns (parts: seq<seq<Line>>)
    requires n > 0 && forall i | 0 <= i < |lines| :: |lines[i]| <= maxBytes
    ensures GreedyCut(parts, lines, maxBytes) && Stores(AfterLines(lines, maxBytes, n), Texts(parts), n)
  {
    if lines == [] {
      parts := [[]];
      assert Flat(parts) == [] + Flat([]);
    } else {
      var before := DiskIsGreedyCut(Front(lines), maxBytes, n);
      var line := Back(lines);
      parts := CutWith(before, line, maxBytes);
      CutAnotherLine(before, Front(lines), line, maxBytes);
      StoreAnotherLine(AfterLines(Front(lines), maxBytes, n), before, line, maxBytes, n);
      assert lines == Front(lines) + [line];
    }
  }
}
