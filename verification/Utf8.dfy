/** UTF-8 and its lossy decoding: section 3.9 of the Unicode standard, with every maximal ill-formed
    piece replaced by U+FFFD. Decoded text is kept as its UTF-8 bytes. */
module Utf8 {
  import opened Bytes

  const REPLACEMENT: seq<byte> := [0xEF, 0xBF, 0xBD]

  predicate IsAscii(b: byte) {
    b < 128
  }

  predicate Continues(b: byte) {
    0x80 <= b <= 0xBF
  }

  /** How many bytes a character with this first byte has; 0 when none starts so. */
  function Width(lead: byte): nat {
    if lead < 128 then 1
    else if 0xC2 <= lead <= 0xDF then 2
    else if 0xE0 <= lead <= 0xEF then 3
    else if 0xF0 <= lead <= 0xF4 then 4
    else 0
  }

  /** The second bytes that rule out overlong forms, surrogates and values past 0x10FFFF. */
  predicate Follows(lead: byte, b: byte) {
    Continues(b)
    && (lead == 0xE0 ==> b >= 0xA0) && (lead == 0xED ==> b <= 0x9F)
    && (lead == 0xF0 ==> b >= 0x90) && (lead == 0xF4 ==> b <= 0x8F)
  }

  /** The first character, or the first ill-formed piece, of a text. */
  datatype Piece = Piece(used: nat, whole: bool)

  function First(v: seq<byte>): (p: Piece)
    requires v != []
    ensures 1 <= p.used <= |v|
  {
    var w := Width(v[0]);
    if w == 1 then Piece(1, true)
    else if w == 0 || |v| < 2 || !Follows(v[0], v[1]) then Piece(1, false)
    else if w == 2 then Piece(2, true)
    else if |v| < 3 || !Continues(v[2]) then Piece(2, false)
    else if w == 3 then Piece(3, true)
    else if |v| < 4 || !Continues(v[3]) then Piece(3, false)
    else Piece(4, true)
  }

  function Output(v: seq<byte>): (out: seq<byte>)
    requires v != []
    ensures out != []
  {
    if First(v).whole then v[..First(v).used] else REPLACEMENT
  }

  /** String::from_utf8_lossy. */
  function Lossy(v: seq<byte>): seq<byte>
    decreases |v|
  {
    if v == [] then [] else Output(v) + Lossy(v[First(v).used..])
  }

  predicate Valid(v: seq<byte>)
    decreases |v|
  {
    v == [] || (First(v).whole && Valid(v[First(v).used..]))
  }

  // ---------- What well-formed means ----------

  predicate Scalar(c: nat) {
    c < 0xD800 || 0xE000 <= c < 0x11_0000
  }

  function EncodeScalar(c: nat): seq<byte>
    requires Scalar(c)
  {
    if c < 0x80 then [c as byte]
    else if c < 0x800 then [(0xC0 + c / 64) as byte, (0x80 + c % 64) as byte]
    else if c < 0x1_0000 then [(0xE0 + c / 64 / 64) as byte, (0x80 + c / 64 % 64) as byte, (0x80 + c % 64) as byte]
    else [(0xF0 + c / 64 / 64 / 64) as byte, (0x80 + c / 64 / 64 % 64) as byte, (0x80 + c / 64 % 64) as byte,
          (0x80 + c % 64) as byte]
  }

  /** The code point a whole character encodes. */
  function CodePoint(v: seq<byte>): nat
    requires v != [] && First(v).whole
  {
    var b := v[0] as int;
    if b < 0x80 then b
    else if b < 0xE0 then (b - 0xC0) * 64 + Low(v[1])
    else if b < 0xF0 then ((b - 0xE0) * 64 + Low(v[1])) * 64 + Low(v[2])
    else (((b - 0xF0) * 64 + Low(v[1])) * 64 + Low(v[2])) * 64 + Low(v[3])
  }

  /** The six bits a continuation byte carries. */
  function Low(b: byte): int {
    b as int - 0x80
  }

  lemma {:induction false} Digit64(q: int, r: int)
    requires 0 <= r < 64
    ensures (q * 64 + r) / 64 == q && (q * 64 + r) % 64 == r
  {
  }

  /** A whole character is the encoding of a scalar value. */
  lemma {:induction false} WholeIsScalar(v: seq<byte>)
    requires v != [] && First(v).whole
    ensures Scalar(CodePoint(v)) && EncodeScalar(CodePoint(v)) == v[..First(v).used]
  {
    var b, n := v[0] as int, First(v).used;
    if n == 2 {
      Digit64(b - 0xC0, Low(v[1]));
    } else if n == 3 {
      Digit64(b - 0xE0, Low(v[1]));
      Digit64((b - 0xE0) * 64 + Low(v[1]), Low(v[2]));
    } else if n == 4 {
      Digit64(b - 0xF0, Low(v[1]));
      Digit64((b - 0xF0) * 64 + Low(v[1]), Low(v[2]));
      Digit64(((b - 0xF0) * 64 + Low(v[1])) * 64 + Low(v[2]), Low(v[3]));
    }
  }

  /** The encoding of a scalar value is a whole character. */
  lemma {:induction false} ScalarIsWhole(c: nat, rest: seq<byte>)
    requires Scalar(c)
    ensures First(EncodeScalar(c) + rest) == Piece(|EncodeScalar(c)|, true)
  {
  }

  function EncodeAll(cs: seq<nat>): seq<byte>
    requires forall c | c in cs :: Scalar(c)
  {
    if cs == [] then [] else EncodeScalar(cs[0]) + EncodeAll(cs[1..])
  }

  /** Valid text is exactly the encodings of sequences of scalar values. */
  lemma {:induction false} ValidToScalars(v: seq<byte>) returns (cs: seq<nat>)
    requires Valid(v)
    ensures (forall c | c in cs :: Scalar(c)) && EncodeAll(cs) == v
    decreases |v|
  {
    hide EncodeScalar, CodePoint, First, Scalar;
    cs := [];
    if v != [] {
      WholeIsScalar(v);
      var rest := ValidToScalars(v[First(v).used..]);
      cs := [CodePoint(v)] + rest;
      assert cs[1..] == rest && v == v[..First(v).used] + v[First(v).used..];
    }
  }

  lemma {:induction false} ScalarsToValid(cs: seq<nat>)
    requires forall c | c in cs :: Scalar(c)
    ensures Valid(EncodeAll(cs))
  {
    hide EncodeScalar, First, Scalar;
    if cs != [] {
      var rest := EncodeAll(cs[1..]);
      assert cs[0] in cs;
      ScalarIsWhole(cs[0], rest);
      ScalarsToValid(cs[1..]);
      assert (EncodeScalar(cs[0]) + rest)[|EncodeScalar(cs[0])|..] == rest;
    }
  }

  lemma ValidIsEncoded(v: seq<byte>)
    ensures Valid(v) <==> exists cs :: (forall c | c in cs :: Scalar(c)) && EncodeAll(cs) == v
  {
    if Valid(v) {
      var cs := ValidToScalars(v);
    }
    if cs: seq<nat> :| (forall c | c in cs :: Scalar(c)) && EncodeAll(cs) == v {
      ScalarsToValid(cs);
    }
  }

  // ---------- What lossy decoding keeps ----------

  lemma {:induction false} FirstOfOutput(v: seq<byte>, rest: seq<byte>)
    requires v != []
    ensures First(Output(v) + rest) == Piece(|Output(v)|, true)
  {
  }

  /** Decoded text is valid. */
  lemma {:induction false} LossyIsValid(v: seq<byte>)
    ensures Valid(Lossy(v))
    decreases |v|
  {
    hide First, Output;
    if v != [] {
      var rest := Lossy(v[First(v).used..]);
      LossyIsValid(v[First(v).used..]);
      FirstOfOutput(v, rest);
      assert (Output(v) + rest)[|Output(v)|..] == rest;
    }
  }

  /** Valid text, and nothing else, is decoded to itself. */
  lemma {:induction false} LossyKeepsExactlyTheValid(v: seq<byte>)
    ensures Lossy(v) == v <==> Valid(v)
    decreases |v|
  {
    if Lossy(v) == v {
      LossyIsValid(v);
    }
    if Valid(v) && v != [] {
      hide First;
      LossyKeepsExactlyTheValid(v[First(v).used..]);
      assert v == v[..First(v).used] + v[First(v).used..];
    }
  }

  /** Some character's encoding starts with these bytes. */
  ghost predicate Begins(x: seq<byte>) {
    exists c :: Scalar(c) && x <= EncodeScalar(c)
  }

  /** A piece that is not a character is the longest start of one, or a single byte when not even its second byte
      could follow. */
  lemma {:induction false} IllPieceIsMaximal(v: seq<byte>)
    requires v != [] && !First(v).whole
    ensures var n := First(v).used;
            && (n == 1 || Begins(v[..n])) && (n < |v| ==> !Begins(v[..n + 1]))
            && forall c | Scalar(c) :: !(EncodeScalar(c) <= v)
  {
    hide EncodeScalar, Scalar, CodePoint;
    var n, w := First(v).used, Width(v[0]);
    if n > 1 {
      var x := if w == 3 then [v[0], v[1], 0x80] else if n == 2 then [v[0], v[1], 0x80, 0x80]
          else [v[0], v[1], v[2], 0x80];
      WholeIsScalar(x);
      assert x[..First(x).used] == x && v[..n] <= x;
    }
    forall c | Scalar(c)
      ensures !(EncodeScalar(c) <= v) && (n < |v| ==> !(v[..n + 1] <= EncodeScalar(c)))
    {
      var e := EncodeScalar(c);
      ScalarIsWhole(c, []);
      assert e + [] == e;
      if |e| <= |v| {
        EqualStarts(e, v);
      }
      if n < |v| && n + 1 <= |e| {
        EqualStarts(v[..n + 1], e);
      }
    }
  }

  /** A whole character is whole in every text that starts with it, and a broken one stays broken. */
  lemma {:induction false} EqualStarts(x: seq<byte>, v: seq<byte>)
    requires x != [] && |x| <= |v|
    ensures x <= v && First(x).whole ==> First(v).whole
    ensures x <= v && !First(x).whole && First(x).used < |x| ==> !First(v).whole
  {
    assert x <= v ==> forall i | 0 <= i < |x| :: x[i] == v[i];
  }

  /** Lossy decoding, character by character: a text that starts with the encoding of a scalar value keeps it; any
      other loses the longest start of a character that it has, or one byte, to one U+FFFD. */
  lemma {:induction false} LossyInFull(v: seq<byte>) returns (n: nat)
    requires v != []
    ensures 1 <= n <= |v|
    ensures if exists c :: Scalar(c) && EncodeScalar(c) <= v then
              (exists c :: Scalar(c) && v[..n] == EncodeScalar(c)) && Lossy(v) == v[..n] + Lossy(v[n..])
            else
              && (n == 1 || Begins(v[..n])) && (n < |v| ==> !Begins(v[..n + 1]))
              && Lossy(v) == [0xEF, 0xBF, 0xBD] + Lossy(v[n..])
  {
    hide First, EncodeScalar, Scalar, CodePoint;
    n := First(v).used;
    if First(v).whole {
      WholeIsScalar(v);
      assert EncodeScalar(CodePoint(v)) <= v;
    } else {
      IllPieceIsMaximal(v);
    }
  }

  /** An ASCII byte is a character of its own, whatever surrounds it. */
  lemma {:induction false} FirstBefore(a: seq<byte>, c: byte, b: seq<byte>)
    requires a != [] && IsAscii(c)
    ensures First(a + ([c] + b)) == First(a)
  {
  }

  lemma {:induction false} LossyAt(a: seq<byte>, c: byte, b: seq<byte>)
    requires IsAscii(c)
    ensures Lossy(a + ([c] + b)) == Lossy(a) + ([c] + Lossy(b))
    decreases |a|
  {
    hide First;
    var v := a + ([c] + b);
    if a == [] {
      assert v == [c] + b;
      LossyOfPlain(c, b);
    } else {
      FirstBefore(a, c, b);
      var n := First(a).used;
      assert v[..n] == a[..n] && v[n..] == a[n..] + ([c] + b);
      LossyAt(a[n..], c, b);
      Assoc(Output(a), Lossy(a[n..]), [c] + Lossy(b));
    }
  }

  lemma {:induction false} LossyOfPlain(c: byte, b: seq<byte>)
    requires IsAscii(c)
    ensures Lossy([c] + b) == [c] + Lossy(b)
  {
    assert First([c] + b) == Piece(1, true) && ([c] + b)[1..] == b && ([c] + b)[..1] == [c];
  }

  /** An ASCII byte of the decoded text comes from one in the input. */
  lemma {:induction false} UnlossyAt(v: seq<byte>, x: seq<byte>, c: byte, y: seq<byte>)
    returns (a: seq<byte>, b: seq<byte>)
    requires IsAscii(c) && Lossy(v) == x + ([c] + y)
    ensures v == a + ([c] + b) && Lossy(a) == x && Lossy(b) == y
    decreases |v|
  {
    hide First, Output;
    assert Lossy(v)[|x|] == c;
    PlainOutput(v);
    var n, o := First(v).used, Output(v);
    var rest := v[n..];
    if x == [] {
      assert o[0] == c;
      a, b := [], rest;
      assert v == v[..1] + rest;
      assert o + Lossy(rest) == [c] + y && (o + Lossy(rest))[1..] == Lossy(rest) && ([c] + y)[1..] == y;
    } else {
      LongPieces(v, Lossy(rest));
      assert x == o + x[|o|..] by {
        assert o == (o + Lossy(rest))[..|o|] && (x + ([c] + y))[..|o|] == x[..|o|];
      }
      assert Lossy(rest) == (o + Lossy(rest))[|o|..] && (x + ([c] + y))[|o|..] == x[|o|..] + ([c] + y);
      var a';
      a', b := UnlossyAt(rest, x[|o|..], c, y);
      a := v[..n] + a';
      UnlossyFront(v, a', c, b);
    }
  }

  /** One piece gives an ASCII byte exactly when it is one. */
  lemma {:induction false} PlainOutput(v: seq<byte>)
    requires v != []
    ensures var o := Output(v);
            forall i | 0 <= i < |o| && IsAscii(o[i]) :: |o| == 1 && First(v).used == 1 && v[0] == o[0]
  {
  }

  lemma {:induction false} LongPieces(v: seq<byte>, rest: seq<byte>)
    requires v != []
    ensures var o := Output(v); |o| == 1 || forall i | 0 <= i < |o| :: !IsAscii((o + rest)[i])
  {
  }

  lemma {:induction false} UnlossyFront(v: seq<byte>, a: seq<byte>, c: byte, b: seq<byte>)
    requires v != [] && IsAscii(c) && v[First(v).used..] == a + ([c] + b)
    ensures v == (v[..First(v).used] + a) + ([c] + b)
    ensures Lossy(v[..First(v).used] + a) == Output(v) + Lossy(a)
  {
    hide First;
    var n := First(v).used;
    var front := v[..n] + a;
    assert v == front + ([c] + b);
    assert front != [];
    FirstBefore(front, c, b);
    assert front[n..] == a && front[..n] == v[..n];
  }

  ghost predicate AllAscii(v: seq<byte>) {
    forall b | b in v :: IsAscii(b)
  }

  lemma {:induction false} LossyOfAscii(v: seq<byte>)
    requires AllAscii(v)
    ensures Lossy(v) == v
  {
    if v != [] {
      assert v == [v[0]] + v[1..] && v[0] in v;
      LossyOfPlain(v[0], v[1..]);
      LossyOfAscii(v[1..]);
    }
  }

  /** Text that decodes to ASCII is that ASCII. */
  lemma {:induction false} AsciiFromLossy(v: seq<byte>)
    requires AllAscii(Lossy(v))
    ensures Lossy(v) == v
    decreases |v|
  {
    hide First, Output;
    if v != [] {
      var o, rest := Output(v), v[First(v).used..];
      assert IsAscii(Lossy(v)[0]) && Lossy(v)[0] == o[0];
      PlainOutput(v);
      assert rest == v[1..];
      assert forall b | b in Lossy(rest) :: b in Lossy(v);
      AsciiFromLossy(rest);
      assert v == [v[0]] + rest;
    }
  }

  lemma {:induction false} CutAt(v: seq<byte>, c: byte) returns (a: seq<byte>, b: seq<byte>)
    requires c in v
    ensures v == a + ([c] + b)
  {
    var i :| 0 <= i < |v| && v[i] == c;
    a, b := v[..i], v[i + 1..];
  }

  /** Lossy decoding neither adds nor removes occurrences of an ASCII byte. */
  lemma {:induction false} PlainBytesStay(v: seq<byte>, c: byte)
    requires IsAscii(c)
    ensures c in v <==> c in Lossy(v)
  {
    hide Lossy;
    if c in v {
      var a, b := CutAt(v, c);
      LossyAt(a, c, b);
    }
    if c in Lossy(v) {
      var x, y := CutAt(Lossy(v), c);
      var a, b := UnlossyAt(v, x, c, y);
    }
  }

  // ---------- Characters ----------

  function Chars(t: seq<byte>): nat {
    if t == [] then 0 else (if Continues(t[0]) then 0 else 1) + Chars(t[1..])
  }

  /** chars().take(n).collect(): the first n characters, cut before the next one starts. */
  function TakeChars(t: seq<byte>, n: nat): (r: seq<byte>)
    ensures r <= t && Chars(r) <= n
    ensures |r| < |t| ==> Chars(r) == n && !Continues(t[|r|])
  {
    if t == [] then []
    else if Continues(t[0]) then
      var more := TakeChars(t[1..], n);
      assert ([t[0]] + more)[1..] == more;
      [t[0]] + more
    else if n == 0 then []
    else
      var more := TakeChars(t[1..], n - 1);
      assert ([t[0]] + more)[1..] == more;
      [t[0]] + more
  }
}
