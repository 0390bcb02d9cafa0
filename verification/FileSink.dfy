/** The rotating file sink (src/logger.rs). A directory maps slot 0 (the active log) and slot k
    (archive ".k") to file contents; any file operation may fail, which also stands for the
    process stopping there. */
module FileSink {
  import opened Bytes

  type Files = map<nat, seq<byte>>

  function Slot(files: Files, k: nat): seq<byte> {
    if k in files then files[k] else []
  }

  /** What a reader sees going from slot n down to the active file. */
  function Contents(files: Files, n: nat): seq<byte> {
    Slot(files, n) + if n == 0 then [] else Contents(files, n - 1)
  }

  /** open_log accepts a file that is empty or ends in a line feed. */
  predicate CleanTail(bytes: seq<byte>) {
    bytes == [] || bytes[|bytes| - 1] == LF
  }

  /** A snapshot of a directory with its ghost history: the files removed, the bytes appended and
      the number of renames that replaced an existing file. */
  datatype View = View(files: Files, lost: seq<seq<byte>>, appended: seq<byte>, overwritten: nat)

  /** b comes from a by operations that appended b's new bytes at the young end, removed only
      whole files at the old end, replaced no file by a rename and left the slots past n alone. */
  ghost predicate Descends(a: View, b: View, n: nat) {
    && |a.lost| <= |b.lost| && a.lost == b.lost[..|a.lost|]
    && |a.appended| <= |b.appended| && a.appended == b.appended[..|a.appended|]
    && Contents(a.files, n) + b.appended[|a.appended|..] == Flat(b.lost[|a.lost|..]) + Contents(b.files, n)
    && b.overwritten == a.overwritten
    && forall k | k > n :: (k in b.files <==> k in a.files) && Slot(b.files, k) == Slot(a.files, k)
  }

  lemma {:induction false} Regroup<T>(a: seq<T>, w1: seq<T>, w2: seq<T>, l1: seq<T>, b: seq<T>, l2: seq<T>, c: seq<T>)
    requires a + w1 == l1 + b && b + w2 == l2 + c
    ensures a + (w1 + w2) == (l1 + l2) + c
  {
    calc {
      a + (w1 + w2);
    == (a + w1) + w2;
    == (l1 + b) + w2;
    == l1 + (b + w2);
    == l1 + (l2 + c);
    == (l1 + l2) + c;
    }
  }

  lemma {:induction false} Growth<T>(a: seq<T>, b: seq<T>, c: seq<T>)
    requires |a| <= |b| <= |c| && a == b[..|a|] && b == c[..|b|]
    ensures a == c[..|a|] && c[|a|..] == b[|a|..] + c[|b|..]
  {
    assert c == b + c[|b|..];
  }

  lemma {:induction false} DescendsTrans(a: View, b: View, c: View, n: nat)
    requires Descends(a, b, n) && Descends(b, c, n)
    ensures Descends(a, c, n)
  {
    hide Contents, Flat, Slot;
    Growth(a.lost, b.lost, c.lost);
    Growth(a.appended, b.appended, c.appended);
    var l1, l2 := b.lost[|a.lost|..], c.lost[|b.lost|..];
    var w1, w2 := b.appended[|a.appended|..], c.appended[|b.appended|..];
    FlatOfConcat(l1, l2);
    Regroup(Contents(a.files, n), w1, w2, Flat(l1), Contents(b.files, n), Flat(l2), Contents(c.files, n));
  }

  /** What descent means for a reader: the files now hold a suffix of what was there followed by
      what was written, and what is missing is exactly the removed files, oldest first. */
  lemma {:induction false} DescentKeepsSuffix(a: View, b: View, n: nat)
    requires Descends(a, b, n)
    ensures var all, gone := Contents(a.files, n) + b.appended[|a.appended|..], Flat(b.lost[|a.lost|..]);
            && |gone| <= |all| && all[..|gone|] == gone && all[|gone|..] == Contents(b.files, n)
            && b.overwritten == a.overwritten
  {
  }

  // ---------- Effect of each file operation on the readable contents ----------

  lemma {:induction false} ContentsSame(f: Files, g: Files, n: nat)
    requires forall k | 0 <= k <= n :: Slot(f, k) == Slot(g, k)
    ensures Contents(f, n) == Contents(g, n)
  {
    if n > 0 {
      ContentsSame(f, g, n - 1);
    }
  }

  function Renamed(files: Files, from: nat, to: nat): Files
    requires from in files
  {
    (files - {from})[to := files[from]]
  }

  lemma {:induction false} RenameKeepsContents(files: Files, i: nat, n: nat)
    requires i in files && i + 1 !in files && i + 1 <= n
    ensures Contents(Renamed(files, i, i + 1), n) == Contents(files, n)
    decreases n
  {
    var g := Renamed(files, i, i + 1);
    assert Slot(g, i + 1) == files[i] && Slot(g, i) == [] && Slot(files, i + 1) == [];
    if n > i + 1 {
      RenameKeepsContents(files, i, n - 1);
      assert Slot(g, n) == Slot(files, n);
    } else if i > 0 {
      ContentsSame(files, g, i - 1);
      var rest := Contents(files, i - 1);
      assert Contents(g, i) == [] + rest == rest && Contents(files, i) == files[i] + rest;
    } else {
      assert Contents(g, 0) == [] + [] && Contents(files, 0) == files[0] + [];
    }
  }

  lemma {:induction false} RemoveTopDropsOneFile(files: Files, n: nat)
    requires n in files
    ensures Contents(files, n) == files[n] + Contents(files - {n}, n)
  {
    var rest := files - {n};
    assert Slot(rest, n) == [];
    if n == 0 {
      assert Contents(files, 0) == files[0] + [];
      assert Contents(rest, 0) == [] + [];
    } else {
      ContentsSame(files, rest, n - 1);
      assert Contents(files, n) == files[n] + Contents(files, n - 1);
      assert Contents(rest, n) == [] + Contents(rest, n - 1) == Contents(rest, n - 1);
    }
  }

  lemma {:induction false} AppendExtendsContents(files: Files, data: seq<byte>, n: nat)
    ensures Contents(files[0 := Slot(files, 0) + data], n) == Contents(files, n) + data
  {
    var g := files[0 := Slot(files, 0) + data];
    if n == 0 {
      assert Contents(g, 0) == Slot(g, 0) && Contents(files, 0) == Slot(files, 0);
    } else {
      AppendExtendsContents(files, data, n - 1);
      assert Slot(g, n) == Slot(files, n);
      Assoc(Slot(files, n), Contents(files, n - 1), data);
    }
  }

  // ---------- The directory ----------

  /** Every operation may fail; faults counts how many did. */
  class Directory {
    var files: Files
    ghost var lost: seq<seq<byte>>
    ghost var appended: seq<byte>
    ghost var overwritten: nat
    ghost var faults: nat

    constructor (files: Files)
      ensures this.files == files && lost == [] && appended == [] && overwritten == faults == 0
    {
      this.files := files;
      lost, appended, overwritten, faults := [], [], 0, 0;
    }

    ghost function Now(): View
      reads this
    {
      View(files, lost, appended, overwritten)
    }

    /** Does the operating system carry out the next operation? */
    method Proceed() returns (ok: bool)
      modifies this`faults
      ensures faults == old(faults) + if ok then 0 else 1
    {
      ok := *;
      if !ok {
        faults := faults + 1;
      }
    }

    /** regular_exists: may fail, never changes anything. */
    method Exists(k: nat) returns (ok: bool, found: bool)
      modifies this`faults
      ensures ok ==> found == (k in files)
      ensures faults >= old(faults) && (ok <==> faults == old(faults))
    {
      ok := Proceed();
      found := k in files;
    }

    method Remove(k: nat) returns (ok: bool)
      modifies this
      ensures ok ==> k in old(files) && files == old(files) - {k} && lost == old(lost) + [old(files)[k]]
      ensures !ok ==> Now() == old(Now())
      ensures appended == old(appended) && overwritten == old(overwritten)
      ensures faults >= old(faults) && (ok <==> faults == old(faults) && k in old(files))
    {
      ok := Proceed();
      ok := ok && k in files;
      if ok {
        lost := lost + [files[k]];
        files := files - {k};
      }
    }

    method Rename(from: nat, to: nat) returns (ok: bool)
      modifies this
      ensures ok ==> from in old(files) && files == Renamed(old(files), from, to)
      ensures ok ==> overwritten == old(overwritten) + if to in old(files) then 1 else 0
      ensures !ok ==> Now() == old(Now())
      ensures appended == old(appended) && lost == old(lost)
      ensures faults >= old(faults) && (ok <==> faults == old(faults) && from in old(files))
    {
      ok := Proceed();
      ok := ok && from in files;
      if ok {
        overwritten := overwritten + if to in files then 1 else 0;
        files := Renamed(files, from, to);
      }
    }

    /** open_log: create the active file if it is missing, then look at its last byte. Without a fault
        it accepts exactly a file that is missing, empty or ends in a line feed. */
    method OpenLog() returns (ok: bool, size: nat)
      modifies this
      ensures files == old(files) || (0 !in old(files) && files == old(files)[0 := []])
      ensures ok ==> 0 in files && size == |files[0]|
      ensures lost == old(lost) && appended == old(appended) && overwritten == old(overwritten)
      ensures faults >= old(faults) && (ok <==> faults == old(faults) && CleanTail(Slot(old(files), 0)))
    {
      size := 0;
      ok := Proceed();
      if !ok {
        return;
      }
      if 0 !in files {
        files := files[0 := []];
      }
      ok := Proceed();
      if ok {
        size := |files[0]|;
        if size > 0 && files[0][size - 1] != LF {
          ok := false;
        }
      }
    }

    /** Write and flush through the open handle. A failure may leave any prefix behind. */
    method Append(data: seq<byte>) returns (ok: bool)
      requires 0 in files
      modifies this
      ensures appended <= old(appended) + data && old(appended) <= appended
      ensures files == old(files)[0 := old(files)[0] + appended[|old(appended)|..]]
      ensures ok ==> appended == old(appended) + data
      ensures lost == old(lost) && overwritten == old(overwritten)
      ensures faults >= old(faults) && (ok <==> faults == old(faults))
    {
      ok := Proceed();
      var landed: nat := |data|;
      if !ok {
        landed :| 0 <= landed <= |data|;
      }
      files := files[0 := files[0] + data[..landed]];
      appended := appended + data[..landed];
      assert old(appended) + data[..landed] <= old(appended) + data;
    }
  }

  // ---------- The sink ----------

  function ShiftedSlots(files: Files, n: nat): set<nat> {
    {0} + (set k | k in files && k < n :: k + 1) + (set k | k in files && k > n)
  }

  /** The directory after a completed rotation: every file below slot n is one slot older, the
      file of slot n is gone, the active file is empty. */
  function Rotated(files: Files, n: nat): Files {
    map k | k in ShiftedSlots(files, n) :: if k == 0 then [] else Slot(files, if k <= n then k - 1 else k)
  }

  /** The directory after a completed write of one line. */
  function WrittenFiles(files: Files, size: nat, line: seq<byte>, maxBytes: nat, n: nat): Files {
    if size + |line| > maxBytes then Rotated(files, n)[0 := line]
    else files[0 := Slot(files, 0) + line]
  }

  ghost predicate FilesWithin(files: Files, maxBytes: nat, n: nat) {
    forall k | k in files && k <= n :: |files[k]| <= maxBytes
  }

  ghost predicate ArchivesClean(files: Files) {
    forall k | k in files && k >= 1 :: CleanTail(files[k])
  }

  /** Part-way through the descending rename loop: the files of slots i and above (below n) have
      moved one slot older, the others have not moved, slot i is free. */
  ghost predicate ShiftedFrom(f: Files, g: Files, i: nat, n: nat) {
    && 1 <= i <= n
    && i !in g
    && (forall k: nat | i < k <= n :: (k in g <==> k - 1 in f) && Slot(g, k) == Slot(f, k - 1))
    && (forall k: nat | k < i || k > n :: (k in g <==> k in f) && Slot(g, k) == Slot(f, k))
  }

  lemma {:induction false} ShiftOne(f: Files, g: Files, i: nat, n: nat)
    requires ShiftedFrom(f, g, i + 1, n)
    ensures i in g && i >= 1 ==> ShiftedFrom(f, Renamed(g, i, i + 1), i, n)
    ensures i !in g && i >= 1 ==> ShiftedFrom(f, g, i, n)
  {
  }

  lemma {:induction false} ShiftLast(f: Files, g: Files, n: nat)
    requires ShiftedFrom(f, g, 1, n) && 0 in g
    ensures Renamed(g, 0, 1)[0 := []] == Rotated(f, n)
  {
    var h, r := Renamed(g, 0, 1)[0 := []], Rotated(f, n);
    forall k: nat
      ensures (k in h <==> k in r) && Slot(h, k) == Slot(r, k)
    {
      assert k != 0 && k != 1 ==> (k in h <==> k in g) && Slot(h, k) == Slot(g, k);
    }
    assert forall k | k in h :: h[k] == Slot(h, k);
    assert forall k | k in r :: r[k] == Slot(r, k);
  }

  /** Nothing a rotation does breaks the size bound or the line structure of the files. */
  ghost predicate Tidy(f: Files, g: Files, maxBytes: nat, n: nat) {
    && (FilesWithin(f, maxBytes, n) ==> FilesWithin(g, maxBytes, n))
    && (ArchivesClean(f) && CleanTail(Slot(f, 0)) ==> ArchivesClean(g) && CleanTail(Slot(g, 0)))
  }

  lemma {:induction false} ShiftedIsTidy(f: Files, g: Files, i: nat, n: nat, maxBytes: nat)
    requires ShiftedFrom(f, g, i, n)
    ensures Tidy(f, g, maxBytes, n)
  {
    forall k | k in g ensures (k in f && g[k] == f[k]) || (i < k <= n && k - 1 in f && g[k] == f[k - 1]) {
      assert g[k] == Slot(g, k);
    }
  }

  lemma {:induction false} ActiveMovedIsTidy(g: Files, maxBytes: nat, n: nat)
    requires 0 in g && n > 0
    ensures Tidy(g, Renamed(g, 0, 1), maxBytes, n)
    ensures Tidy(g, Renamed(g, 0, 1)[0 := []], maxBytes, n)
  {
  }

  lemma {:induction false} QuietStep(a: View, b: View, n: nat)
    requires b.lost == a.lost && b.appended == a.appended && b.overwritten == a.overwritten
    requires Contents(b.files, n) == Contents(a.files, n)
    requires forall k | k > n :: (k in b.files <==> k in a.files) && Slot(b.files, k) == Slot(a.files, k)
    ensures Descends(a, b, n)
  {
    hide Contents;
    assert b.lost[|a.lost|..] == [] && Flat(b.lost[|a.lost|..]) == [];
    assert b.appended[|a.appended|..] == [];
    var c := Contents(a.files, n);
    assert c + [] == c && [] + c == c;
  }

  lemma {:induction false} RenameStep(a: View, b: View, i: nat, n: nat)
    requires i in a.files && i + 1 !in a.files && i + 1 <= n && b == a.(files := Renamed(a.files, i, i + 1))
    ensures Descends(a, b, n)
  {
    RenameKeepsContents(a.files, i, n);
    QuietStep(a, b, n);
  }

  lemma {:induction false} NothingMoved(f: Files, maxBytes: nat, n: nat)
    ensures Tidy(f, f, maxBytes, n)
  {
  }

  lemma {:induction false} SlotIsFree(f: Files, g: Files, i: nat, n: nat)
    requires ShiftedFrom(f, g, i, n)
    ensures i !in g && (0 in g <==> 0 in f)
  {
  }

  lemma {:induction false} TopIsFree(f: Files, n: nat)
    requires n > 0
    ensures ShiftedFrom(f, f - {n}, n, n)
  {
  }

  /** The active file becomes the first archive, after the archives have made room. */
  lemma {:induction false} MoveActive(before: View, shifted: View, moved: View, maxBytes: nat, n: nat)
    requires Descends(before, shifted, n) && ShiftedFrom(before.files, shifted.files, 1, n)
    requires Tidy(before.files, shifted.files, maxBytes, n)
    requires 0 in shifted.files && moved == shifted.(files := Renamed(shifted.files, 0, 1))
    ensures Descends(before, moved, n) && 0 !in moved.files && CleanTail(Slot(moved.files, 0))
    ensures Tidy(before.files, moved.files, maxBytes, n)
    ensures Tidy(before.files, moved.files[0 := []], maxBytes, n)
    ensures moved.files[0 := []] == Rotated(before.files, n)
  {
    hide Descends, Contents, Rotated;
    RenameStep(shifted, moved, 0, n);
    DescendsTrans(before, shifted, moved, n);
    ShiftLast(before.files, shifted.files, n);
    hide ShiftedFrom;
    ActiveMovedIsTidy(shifted.files, maxBytes, n);
  }

  lemma {:induction false} RemoveStep(a: View, b: View, n: nat)
    requires n in a.files && b == View(a.files - {n}, a.lost + [a.files[n]], a.appended, a.overwritten)
    ensures Descends(a, b, n)
  {
    RemoveTopDropsOneFile(a.files, n);
    assert b.lost[|a.lost|..] == [a.files[n]];
    assert Flat([a.files[n]]) == a.files[n];
    assert b.appended[|a.appended|..] == [];
  }

  lemma {:induction false} AppendStep(a: View, b: View, n: nat)
    requires a.appended <= b.appended && 0 in a.files
    requires b.files == a.files[0 := a.files[0] + b.appended[|a.appended|..]]
    requires b.lost == a.lost && b.overwritten == a.overwritten
    ensures Descends(a, b, n)
  {
    hide Contents, Flat;
    AppendExtendsContents(a.files, b.appended[|a.appended|..], n);
    assert b.lost[|a.lost|..] == [] && a.lost == b.lost[..|a.lost|];
    NothingFlat();
    assert [] + Contents(b.files, n) == Contents(b.files, n);
  }

  lemma NothingFlat()
    ensures Flat<byte>([]) == []
  {
  }

  lemma {:induction false} CreateStep(a: View, b: View, n: nat)
    requires b.files == a.files || (0 !in a.files && b.files == a.files[0 := []])
    requires b.lost == a.lost && b.appended == a.appended && b.overwritten == a.overwritten
    ensures Descends(a, b, n)
  {
    ContentsSame(a.files, b.files, n);
    QuietStep(a, b, n);
  }

  /** A line as serde_json and the writer produce it: its only LF is its last byte. */
  ghost predicate SingleLine(line: seq<byte>) {
    line != [] && forall i | 0 <= i < |line| :: line[i] == LF <==> i == |line| - 1
  }

  /** Between f and g a write of one line was tried: if the log was whole lines before, the active file
      ends cleanly afterwards exactly when nothing or the whole line landed. */
  ghost predicate TailTells(f: Files, before: seq<byte>, g: Files, after: seq<byte>, line: seq<byte>) {
    ArchivesClean(f) && CleanTail(Slot(f, 0)) && SingleLine(line) ==>
      (CleanTail(Slot(g, 0)) <==> after == before || after == before + line)
  }

  lemma {:induction false} TailAfterAppend(file: seq<byte>, line: seq<byte>, landed: seq<byte>)
    requires landed <= line
    ensures CleanTail(file) && SingleLine(line) ==> (CleanTail(file + landed) <==> landed == [] || landed == line)
  {
    var all := file + landed;
    if landed == [] {
      assert all == file;
    } else {
      assert all[|all| - 1] == line[|landed| - 1];
    }
  }

  class FileSink {
    const dir: Directory
    const maxBytes: nat
    const maxFiles: nat
    var isOpen: bool
    var size: nat

    ghost predicate Valid()
      reads this, dir
    {
      && maxFiles > 0
      && (isOpen ==> 0 in dir.files && size == |dir.files[0]|)
    }

    constructor (dir: Directory, size: nat, maxBytes: nat, maxFiles: nat)
      requires maxFiles > 0 && 0 in dir.files && size == |dir.files[0]|
      ensures Valid() && isOpen && this.dir == dir && this.size == size
      ensures this.maxBytes == maxBytes && this.maxFiles == maxFiles
    {
      this.dir := dir;
      this.size := size;
      this.maxBytes := maxBytes;
      this.maxFiles := maxFiles;
      isOpen := true;
    }

    /** Null stands for the error result. */
    static method Open(dir: Directory, maxBytes: nat, maxFiles: nat) returns (sink: FileSink?)
      modifies dir
      ensures dir.files == old(dir.files) || (0 !in old(dir.files) && dir.files == old(dir.files)[0 := []])
      ensures Descends(old(dir.Now()), dir.Now(), maxFiles) && dir.appended == old(dir.appended)
      ensures sink != null ==> fresh(sink) && sink.dir == dir && sink.Valid() && sink.isOpen
      ensures sink != null ==> sink.maxBytes == maxBytes > 0 && sink.maxFiles == maxFiles
      ensures dir.faults >= old(dir.faults)
      ensures sink != null <==>
                maxBytes > 0 && maxFiles > 0 && dir.faults == old(dir.faults) && CleanTail(Slot(old(dir.files), 0))
    {
      ghost var before := dir.Now();
      CreateStep(before, before, maxFiles);
      if maxBytes == 0 || maxFiles == 0 {
        return null;
      }
      var ok, size := dir.OpenLog();
      CreateStep(before, dir.Now(), maxFiles);
      if !ok {
        return null;
      }
      sink := new FileSink(dir, size, maxBytes, maxFiles);
    }

    /** The first half of rotate: drop the oldest archive, then shift the others, oldest first. */
    method ShiftArchives() returns (ok: bool)
      requires maxFiles > 0
      modifies dir
      ensures Descends(old(dir.Now()), dir.Now(), maxFiles) && dir.appended == old(dir.appended)
      ensures Tidy(old(dir.files), dir.files, maxBytes, maxFiles)
      ensures ok ==> ShiftedFrom(old(dir.files), dir.files, 1, maxFiles)
      ensures dir.faults >= old(dir.faults) && (ok <==> dir.faults == old(dir.faults))
    {
      hide Descends, Contents, Tidy, ShiftedFrom, Renamed;
      ghost var before, f := dir.Now(), dir.files;
      var n := maxFiles;
      CreateStep(before, before, n);
      NothingMoved(f, maxBytes, n);
      var found;
      ok, found := dir.Exists(n);
      if !ok {
        return;
      }
      if found {
        ok := dir.Remove(n);
        if !ok {
          return;
        }
        RemoveStep(before, dir.Now(), n);
      }
      var index := n;
      TopIsFree(f, n);
      assert dir.files == f - {n};
      ShiftedIsTidy(f, dir.files, index, n, maxBytes);
      while index > 1
        invariant 1 <= index <= n
        invariant ShiftedFrom(f, dir.files, index, n) && Tidy(f, dir.files, maxBytes, n)
        invariant Descends(before, dir.Now(), n) && dir.appended == before.appended && dir.faults == old(dir.faults)
      {
        index := index - 1;
        ghost var mid := dir.Now();
        ok, found := dir.Exists(index);
        if !ok {
          return;
        }
        ShiftOne(f, dir.files, index, n);
        if found {
          SlotIsFree(f, dir.files, index + 1, n);
          ok := dir.Rename(index, index + 1);
          if !ok {
            return;
          }
          RenameStep(mid, dir.Now(), index, n);
          DescendsTrans(before, mid, dir.Now(), n);
        }
        ShiftedIsTidy(f, dir.files, index, n, maxBytes);
      }
      ok := true;
    }

    method Rotate() returns (ok: bool)
      requires Valid()
      modifies this, dir
      ensures Valid()
      ensures Descends(old(dir.Now()), dir.Now(), maxFiles) && dir.appended == old(dir.appended)
      ensures Tidy(old(dir.files), dir.files, maxBytes, maxFiles)
      ensures ok ==> isOpen && size == 0 && dir.files == Rotated(old(dir.files), maxFiles)
      ensures dir.faults >= old(dir.faults) && (ok <==> dir.faults == old(dir.faults) && 0 in old(dir.files))
    {
      hide Descends, Contents, Tidy, ShiftedFrom, Rotated, Renamed, CleanTail;
      ghost var before := dir.Now();
      CreateStep(before, before, maxFiles);
      NothingMoved(before.files, maxBytes, maxFiles);
      if isOpen {
        isOpen := false;
        ok := dir.Proceed();  // flushing the old handle
        if !ok {
          return;
        }
      }
      ok := ShiftArchives();
      if !ok {
        return;
      }
      ghost var shifted := dir.Now();
      SlotIsFree(before.files, shifted.files, 1, maxFiles);
      var found;
      ok, found := dir.Exists(0);
      if !ok || !found {
        return false;
      }
      ok := dir.Rename(0, 1);
      if !ok {
        return;
      }
      ghost var moved := dir.Now();
      MoveActive(before, shifted, moved, maxBytes, maxFiles);
      var length;
      ok, length := dir.OpenLog();
      CreateStep(moved, dir.Now(), maxFiles);
      DescendsTrans(before, moved, dir.Now(), maxFiles);
      if ok {
        isOpen := true;
        size := length;
      }
    }

    /** After a failure the tracked size may be stale; the writer never uses the sink again. The tail
        tells whether a failed write left part of the line behind. */
    method Write(line: seq<byte>) returns (ok: bool)
      requires Valid()
      modifies this, dir
      ensures ok ==> Valid() && isOpen && |line| <= maxBytes
      ensures Descends(old(dir.Now()), dir.Now(), maxFiles)
      ensures old(dir.appended) <= dir.appended <= old(dir.appended) + line
      ensures ok ==> dir.appended == old(dir.appended) + line
      ensures ok ==> dir.files == WrittenFiles(old(dir.files), old(size), line, maxBytes, maxFiles)
      ensures FilesWithin(old(dir.files), maxBytes, maxFiles) ==> FilesWithin(dir.files, maxBytes, maxFiles)
      ensures ArchivesClean(old(dir.files)) && CleanTail(Slot(old(dir.files), 0)) ==> ArchivesClean(dir.files)
      ensures TailTells(old(dir.files), old(dir.appended), dir.files, dir.appended, line)
      ensures dir.faults >= old(dir.faults)
      ensures old(isOpen) ==> (ok <==> dir.faults == old(dir.faults) && |line| <= maxBytes)
    {
      hide Descends, Contents, CleanTail, SingleLine;
      ghost var before := dir.Now();
      CreateStep(before, before, maxFiles);
      if |line| > maxBytes {
        return false;
      }
      if size + |line| > maxBytes {
        ok := Rotate();
        if !ok {
          return;
        }
      }
      if !isOpen {
        return false;
      }
      ghost var mid := dir.Now();
      ok := dir.Append(line);
      AppendStep(mid, dir.Now(), maxFiles);
      DescendsTrans(before, mid, dir.Now(), maxFiles);
      TailAfterAppend(mid.files[0], line, dir.appended[|mid.appended|..]);
      if ok {
        assert dir.appended[|mid.appended|..] == line;
        assert dir.files == mid.files[0 := mid.files[0] + line];
        if old(size) + |line| > maxBytes {
          assert mid.files[0] + line == line;
        }
        size := size + |line|;
      }
    }
  }
}
