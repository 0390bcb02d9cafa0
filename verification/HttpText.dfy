/** Splitting text at CRLF and at single bytes, and finding the end of a header block
    (src/protocols/http.rs). */
module HttpText {
  import opened Bytes
  import opened Session

  const CRLF: Text := [CR, LF]
  const BLANK: Text := [CR, LF, CR, LF]

  // ---------- Lines ----------

  /** str::split("\r\n"): the pieces between the line ends, at least one. */
  function SplitLines(text: Text): (lines: seq<Text>)
    ensures |lines| > 0
    decreases |text|
  {
    if text == [] then [[]]
    else if |text| >= 2 && text[0] == CR && text[1] == LF then [[]] + SplitLines(text[2..])
    else
      var rest := SplitLines(text[1..]);
      [[text[0]] + rest[0]] + rest[1..]
  }

  /** Every line followed by CRLF. */
  function Joined(lines: seq<Text>): Text {
    if lines == [] then [] else lines[0] + CRLF + Joined(lines[1..])
  }

  lemma {:induction false} SplitAtLineEnd(a: Text, rest: Text)
    ensures SplitLines(a + CRLF + rest) == SplitLines(a) + SplitLines(rest)
    decreases |a|
  {
    var text := a + CRLF + rest;
    if a == [] {
      assert text[2..] == rest;
    } else if |a| >= 2 && a[0] == CR && a[1] == LF {
      assert text[2..] == a[2..] + CRLF + rest;
      SplitAtLineEnd(a[2..], rest);
      assert ([[]] + SplitLines(a[2..])) + SplitLines(rest) == [[]] + (SplitLines(a[2..]) + SplitLines(rest));
    } else {
      assert text[1..] == a[1..] + CRLF + rest;
      assert |a| == 1 ==> text[1] == CR;
      SplitAtLineEnd(a[1..], rest);
    }
  }

  predicate OneLine(line: Text) {
    LF !in line
  }

  lemma {:induction false} SplitOneLine(line: Text)
    requires OneLine(line)
    ensures SplitLines(line) == [line]
  {
    if line != [] {
      SplitOneLine(line[1..]);
      assert line == [line[0]] + line[1..];
    }
  }

  /** Joined lines split back into themselves. */
  lemma {:induction false} SplitJoined(lines: seq<Text>, rest: Text)
    requires forall l | l in lines :: OneLine(l)
    ensures SplitLines(Joined(lines) + rest) == lines + SplitLines(rest)
  {
    hide SplitLines;
    if lines == [] {
      assert Joined(lines) + rest == rest && [] + SplitLines(rest) == SplitLines(rest);
    } else {
      Assoc(lines[0] + CRLF, Joined(lines[1..]), rest);
      SplitAtLineEnd(lines[0], Joined(lines[1..]) + rest);
      SplitOneLine(lines[0]);
      SplitJoined(lines[1..], rest);
      assert lines == [lines[0]] + lines[1..];
    }
  }

  /** Joining undoes splitting; the last piece has no line end. */
  lemma {:induction false} JoinSplit(text: Text)
    ensures var lines := SplitLines(text);
            text == Joined(lines[..|lines| - 1]) + lines[|lines| - 1]
    decreases |text|
  {
    var lines := SplitLines(text);
    var n := |lines| - 1;
    if text == [] {
    } else if |text| >= 2 && text[0] == CR && text[1] == LF {
      JoinSplit(text[2..]);
      PutBack(text, CRLF, text[2..], [[]] + SplitLines(text[2..]));
    } else {
      JoinSplit(text[1..]);
      PutBack(text, [text[0]], text[1..], lines);
    }
  }

  /** What joining gives when the first line is lengthened, or an empty one is put in front. */
  lemma {:induction false} PutBack(text: Text, head: Text, tail: Text, lines: seq<Text>)
    requires text == head + tail && |lines| > 0
    requires var rest := SplitLines(tail);
             && tail == Joined(rest[..|rest| - 1]) + rest[|rest| - 1]
             && (lines == [head + rest[0]] + rest[1..] || (head == CRLF && lines == [[]] + rest))
    ensures text == Joined(lines[..|lines| - 1]) + lines[|lines| - 1]
  {
    hide SplitLines;
    var rest, n := SplitLines(tail), |lines| - 1;
    var m := |rest| - 1;
    if lines == [head + rest[0]] + rest[1..] {
      if m > 0 {
        assert lines[..n] == [head + rest[0]] + rest[1..m] && rest[..m] == [rest[0]] + rest[1..m];
        assert Joined(lines[..n]) == head + (rest[0] + CRLF + Joined(rest[1..m]));
      }
    } else {
      assert lines[..n] == [[]] + rest[..m];
      assert Joined(lines[..n]) == CRLF + Joined(rest[..m]);
    }
  }

  lemma {:induction false} JoinedConcat(a: seq<Text>, b: seq<Text>)
    ensures Joined(a + b) == Joined(a) + Joined(b)
  {
    if a == [] {
      assert a + b == b;
    } else {
      assert (a + b)[1..] == a[1..] + b;
      JoinedConcat(a[1..], b);
    }
  }

  /** The lines up to the first empty one. */
  function UntilEmpty(lines: seq<Text>): (h: seq<Text>)
    ensures h <= lines && [] !in h && (|h| < |lines| ==> lines[|h|] == [])
  {
    if lines == [] || lines[0] == [] then [] else [lines[0]] + UntilEmpty(lines[1..])
  }

  /** A text that ends with an empty line has an empty line after its first. */
  lemma {:induction false} BlankIsALine(t: Text)
    ensures SplitLines(t + BLANK) == SplitLines(t) + [[], []]
  {
    assert t + BLANK == t + CRLF + (CRLF + []);
    SplitAtLineEnd(t, CRLF + []);
    assert CRLF + [] == [] + CRLF + [];
    SplitAtLineEnd([], []);
    assert SplitLines([]) == [[]];
  }

  // ---------- Fields ----------

  /** Splitting at every occurrence of one byte. */
  function SplitAt(b: byte, text: Text): (parts: seq<Text>)
    ensures |parts| > 0
    decreases |text|
  {
    var k := IndexOf(b, text);
    if k == |text| then [text] else [text[..k]] + SplitAt(b, text[k + 1..])
  }

  lemma {:induction false} IndexAfter(b: byte, a: Text, rest: Text)
    requires b !in a
    ensures IndexOf(b, a + [b] + rest) == |a|
  {
    var text := a + [b] + rest;
    if a != [] {
      assert text[1..] == a[1..] + [b] + rest;
      IndexAfter(b, a[1..], rest);
    }
  }

  lemma {:induction false} SplitField(b: byte, a: Text, rest: Text)
    requires b !in a
    ensures SplitAt(b, a + [b] + rest) == [a] + SplitAt(b, rest)
  {
    var text := a + [b] + rest;
    IndexAfter(b, a, rest);
    assert text[..|a|] == a && text[|a| + 1..] == rest;
  }

  lemma {:induction false} SplitThree(b: byte, x: Text, y: Text, z: Text)
    requires b !in x && b !in y && b !in z
    ensures SplitAt(b, x + [b] + y + [b] + z) == [x, y, z]
  {
    assert SplitAt(b, z) == [z] by {
      assert IndexOf(b, z) == |z|;
    }
    hide SplitAt;
    assert x + [b] + y + [b] + z == x + [b] + (y + [b] + z);
    SplitField(b, x, y + [b] + z);
    SplitField(b, y, z);
    assert [x] + ([y] + [z]) == [x, y, z];
  }

  lemma {:induction false} FirstField(b: byte, text: Text) returns (rest: Text)
    ensures b !in SplitAt(b, text)[0]
    ensures if |SplitAt(b, text)| == 1 then text == SplitAt(b, text)[0]
            else SplitAt(b, text)[1..] == SplitAt(b, rest) && text == SplitAt(b, text)[0] + ([b] + rest)
  {
    var k := IndexOf(b, text);
    rest := if k < |text| then text[k + 1..] else [];
    if k == |text| {
      assert text[..k] == text;
    } else {
      assert text == text[..k] + ([b] + rest);
    }
  }

  lemma {:induction false} ThreeFields(b: byte, text: Text)
    requires |SplitAt(b, text)| == 3
    ensures var f := SplitAt(b, text);
            text == f[0] + [b] + f[1] + [b] + f[2] && b !in f[0] && b !in f[1] && b !in f[2]
  {
    hide SplitAt;
    var f := SplitAt(b, text);
    var t := FirstField(b, text);
    var u := FirstField(b, t);
    var none := FirstField(b, u);
    assert f[1] == f[1..][0] && f[2] == f[1..][1..][0];
    assert text == f[0] + ([b] + (f[1] + ([b] + f[2])));
  }

  // ---------- The end of a header block ----------

  predicate BlankAt(v: seq<byte>, k: nat) {
    k + 4 <= |v| && v[k..k + 4] == BLANK
  }

  /** The first CRLFCRLF. */
  function FindBlank(v: seq<byte>): (r: Option<nat>)
    ensures r.Some? ==> BlankAt(v, r.value) && forall j: nat | BlankAt(v, j) :: r.value <= j
    ensures r.None? ==> forall j: nat :: !BlankAt(v, j)
    decreases |v|
  {
    if |v| < 4 then None
    else if BlankAt(v, 0) then Some(0)
    else
      var r := FindBlank(v[1..]);
      assert forall j: nat | BlankAt(v, j) :: j >= 1 && BlankAt(v[1..], j - 1) by {
        forall j: nat | BlankAt(v, j) ensures j >= 1 && BlankAt(v[1..], j - 1) {
          assert v[1..][j - 1..j + 3] == v[j..j + 4];
        }
      }
      if r.None? then None
      else
        assert v[1..][r.value..r.value + 4] == v[r.value + 1..r.value + 5];
        Some(r.value + 1)
  }

  lemma {:induction false} FoundAt(v: seq<byte>, k: nat)
    requires BlankAt(v, k) && forall j: nat | j < k :: !BlankAt(v, j)
    ensures FindBlank(v) == Some(k)
  {
    if FindBlank(v).Some? {
      assert !(FindBlank(v).value < k);
    }
  }

  /** Non-empty lines without CR or LF hold no blank line: the first one is where they end. */
  lemma {:induction false} BlankAfterLines(lines: seq<Text>, rest: Text, j: nat)
    requires lines != [] && forall l | l in lines :: l != [] && CR !in l && LF !in l
    requires j + 2 < |Joined(lines)|
    ensures !BlankAt(Joined(lines) + CRLF + rest, j)
    decreases |lines|
  {
    var text, l, more := Joined(lines) + CRLF + rest, lines[0], Joined(lines[1..]) + CRLF + rest;
    assert l in lines;
    assert text == l + CRLF + more && |Joined(lines)| == |l| + 2 + |Joined(lines[1..])|;
    assert lines[1..] == [] ==> |Joined(lines[1..])| == 0;
    assert forall i | 0 <= i < |l| :: text[i] == l[i] && l[i] in l;
    assert text[|l| + 1] == LF;
    if |lines| > 1 {
      assert lines[1] in lines && text[|l| + 2] == lines[1][0] && lines[1][0] in lines[1];
    }
    if j >= |l| + 2 {
      assert forall x | x in lines[1..] :: x in lines;
      assert more[j - |l| - 2..][..4] == text[j..][..4];
      BlankAfterLines(lines[1..], rest, j - |l| - 2);
    } else {
      assert text[j..j + 4][0] == text[j] && text[j..j + 4][2] == text[j + 2];
    }
  }
}
