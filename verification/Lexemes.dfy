/** What the delimiter lexer skips, spelled out: comments, string, raw string and character literals, lifetimes
    (scripts/check_repository.py). */
module Lexemes {
  import opened Bytes
  import opened Brackets
  import opened Delimiters

  // ---------- Letters ----------

  predicate HexChar(c: char) {
    '0' <= c <= '9' || 'A' <= c <= 'F' || 'a' <= c <= 'f'
  }

  predicate Letter(c: char) {
    'A' <= c <= 'Z' || 'a' <= c <= 'z' || c == '_'
  }

  predicate WordChar(c: char) {
    Letter(c) || '0' <= c <= '9'
  }

  lemma {:induction false} HexSet(c: char)
    ensures c in HEX <==> HexChar(c)
    ensures c in HEX + "_" <==> HexChar(c) || c == '_'
  {
    if HexChar(c) {
      var i := if c <= '9' then c as int - 48 else if c <= 'F' then c as int - 55 else c as int - 81;
      assert HEX[i] == c;
    }
  }

  const UPPER: string := "ABCDEFGHIJKLMNOPQRSTUVWXYZ"
  const LOWER: string := "abcdefghijklmnopqrstuvwxyz"

  lemma UpperSet(c: char)
    ensures c in UPPER <==> 'A' <= c <= 'Z'
  {
    if 'A' <= c <= 'Z' {
      assert UPPER[c as int - 65] == c;
    }
  }

  lemma LowerSet(c: char)
    ensures c in LOWER <==> 'a' <= c <= 'z'
  {
    if 'a' <= c <= 'z' {
      assert LOWER[c as int - 97] == c;
    }
  }

  lemma DigitSet(c: char)
    ensures c in DIGITS <==> '0' <= c <= '9'
  {
    if '0' <= c <= '9' {
      assert DIGITS[c as int - 48] == c;
    }
  }

  lemma AllLetters()
    ensures LETTERS == UPPER + LOWER + "_"
  {
  }

  lemma {:induction false} LetterSet(c: char)
    ensures c in LETTERS <==> Letter(c)
    ensures c in LETTERS + DIGITS <==> WordChar(c)
  {
    hide UPPER, LOWER, LETTERS, DIGITS;
    UpperSet(c);
    LowerSet(c);
    DigitSet(c);
    AllLetters();
  }

  // ---------- Character literals and lifetimes ----------

  ghost predicate UnicodeLiteral(piece: string) {
    exists hex :: piece == "'\\u{" + hex + "}'" && HexText(hex)
  }

  ghost predicate HexLiteral(piece: string) {
    exists a, b :: piece == "'\\x" + [a, b] + "'" && HexChar(a) && HexChar(b)
  }

  ghost predicate EscapeLiteral(piece: string) {
    exists c :: piece == "'\\" + [c] + "'" && c != '\n'
  }

  ghost predicate PlainLiteral(piece: string) {
    exists c :: piece == "'" + [c] + "'" && c !in "\\'\n"
  }

  ghost predicate CharLiteral(piece: string) {
    UnicodeLiteral(piece) || HexLiteral(piece) || EscapeLiteral(piece) || PlainLiteral(piece)
  }

  ghost predicate Lifetime(text: string, i: nat, e: nat) {
    && i + 2 <= e <= |text| && text[i] == '\'' && Letter(text[i + 1])
    && (forall k | i + 2 <= k < e :: WordChar(text[k]))
    && (e < |text| ==> !WordChar(text[e]))
  }

  lemma {:induction false} LifetimesExactly(text: string, i: nat, e: nat)
    requires i < |text| && text[i] == '\''
    ensures LifetimeEnd(text, i) == Some(e) <==> Lifetime(text, i, e)
  {
    hide Letter, WordChar, Span, LETTERS, DIGITS;
    forall c ensures (c in LETTERS <==> Letter(c)) && (c in LETTERS + DIGITS <==> WordChar(c)) {
      LetterSet(c);
    }
    if Lifetime(text, i, e) {
      SpanIs(text, i + 2, LETTERS + DIGITS, e - i - 2);
    }
  }

  lemma {:induction false} SpanIs(text: string, i: nat, set_: string, n: nat)
    requires i + n <= |text| && (forall k | i <= k < i + n :: text[k] in set_)
    requires i + n < |text| ==> text[i + n] !in set_
    ensures Span(text, i, set_) == n
    decreases n
  {
    if n > 0 {
      assert text[i] in set_;
      SpanIs(text, i + 1, set_, n - 1);
    }
  }

  predicate HexText(hex: string) {
    hex != [] && forall k | 0 <= k < |hex| :: HexChar(hex[k]) || hex[k] == '_'
  }

  lemma {:induction false} UnicodeFound(text: string, i: nat)
    requires var n := Span(text, i + 4, HEX + "_");
             i < |text| && text[i] == '\'' && At(text, "\\u{", i + 1) && n > 0 && At(text, "}'", i + 4 + n)
    ensures var n := Span(text, i + 4, HEX + "_");
            && HexText(text[i + 4..i + 4 + n])
            && text[i..i + 6 + n] == "'\\u{" + text[i + 4..i + 4 + n] + "}'"
  {
    hide HexChar, HEX, Span;
    var n := Span(text, i + 4, HEX + "_");
    var hex := text[i + 4..i + 4 + n];
    forall k | 0 <= k < |hex| ensures HexChar(hex[k]) || hex[k] == '_' {
      HexSet(hex[k]);
    }
    assert text[i..i + 6 + n] == text[i..i + 1] + text[i + 1..i + 4] + hex + text[i + 4 + n..i + 6 + n];
  }

  lemma {:induction false} UnicodeIs(text: string, i: nat, hex: string)
    requires i + 6 + |hex| <= |text| && HexText(hex) && text[i..i + 6 + |hex|] == "'\\u{" + hex + "}'"
    ensures At(text, "\\u{", i + 1) && At(text, "}'", i + 4 + |hex|) && Span(text, i + 4, HEX + "_") == |hex|
  {
    hide HexChar, HEX, Span;
    var piece, n := text[i..i + 6 + |hex|], |hex|;
    Slice(text, i, i + 6 + n, 1, 4);
    Slice(text, i, i + 6 + n, 4 + n, 6 + n);
    assert piece[1..4] == "\\u{" && piece[4 + n..6 + n] == "}'";
    forall j | i + 4 <= j < i + 4 + n ensures text[j] in HEX + "_" {
      assert text[j] == piece[j - i] == hex[j - i - 4];
      HexSet(text[j]);
    }
    assert text[i + 4 + n] == piece[4 + n] == '}';
    NotHex();
    SpanIs(text, i + 4, HEX + "_", n);
  }

  lemma Slice(text: string, i: nat, e: nat, a: nat, b: nat)
    requires a <= b <= e - i && e <= |text|
    ensures text[i..e][a..b] == text[i + a..i + b]
  {
    var x, y := text[i..e][a..b], text[i + a..i + b];
    assert |x| == |y| && forall k | 0 <= k < b - a :: x[k] == text[i..e][a + k] == y[k];
  }

  lemma NotHex()
    ensures '}' !in HEX + "_"
  {
  }

  predicate UnicodeAt(text: string, i: nat, n: nat) {
    At(text, "\\u{", i + 1) && n > 0 && At(text, "}'", i + 4 + n) && Span(text, i + 4, HEX + "_") == n
  }

  predicate HexEscapeAt(text: string, i: nat) {
    At(text, "\\x", i + 1) && HexAt(text, i + 3) && HexAt(text, i + 4) && Is(text, i + 5, '\'')
  }

  predicate EscapeAt(text: string, i: nat) {
    Is(text, i + 1, '\\') && Is(text, i + 3, '\'') && text[i + 2] != '\n'
  }

  predicate PlainAt(text: string, i: nat) {
    Is(text, i + 2, '\'') && text[i + 1] !in "\\'\n"
  }

  lemma {:induction false} UnicodeExactly(text: string, i: nat, n: nat)
    requires i < |text| && text[i] == '\''
    ensures UnicodeAt(text, i, n) <==> i + 6 + n <= |text| && UnicodeLiteral(text[i..i + 6 + n])
  {
    hide HEX, Span, HexText, At;
    if UnicodeAt(text, i, n) {
      EndsInside(text, "}'", i + 4 + n);
      UnicodeFound(text, i);
      assert UnicodeLiteral(text[i..i + 6 + n]);
    }
    if i + 6 + n <= |text| && UnicodeLiteral(text[i..i + 6 + n]) {
      var hex :| text[i..i + 6 + n] == "'\\u{" + hex + "}'" && HexText(hex);
      assert |hex| == n;
      UnicodeIs(text, i, hex);
      SomeHex(hex);
    }
  }

  lemma EndsInside(text: string, pat: string, i: nat)
    requires At(text, pat, i)
    ensures i + |pat| <= |text|
  {
  }

  lemma SomeHex(hex: string)
    requires HexText(hex)
    ensures |hex| > 0
  {
  }

  lemma {:induction false} TwoChars(text: string, i: nat, c: char, d: char)
    ensures At(text, [c, d], i) <==> i + 2 <= |text| && text[i] == c && text[i + 1] == d
  {
  }

  lemma {:induction false} HexExactly(text: string, i: nat)
    requires i < |text| && text[i] == '\''
    ensures HexEscapeAt(text, i) <==> i + 6 <= |text| && HexLiteral(text[i..i + 6])
  {
    hide HEX, At, HexChar;
    assert "\\x" == ['\\', 'x'];
    TwoChars(text, i + 1, '\\', 'x');
    if i + 6 <= |text| {
      var piece, a, b := text[i..i + 6], text[i + 3], text[i + 4];
      HexSet(a);
      HexSet(b);
      if HexEscapeAt(text, i) {
        assert piece == "'\\x" + [a, b] + "'";
      }
      if HexLiteral(piece) {
        var c, d :| piece == "'\\x" + [c, d] + "'" && HexChar(c) && HexChar(d);
        assert piece[1] == '\\' && piece[2] == 'x' && piece[3] == c && piece[4] == d && piece[5] == '\'';
      }
    }
  }

  lemma {:induction false} EscapeExactly(text: string, i: nat)
    requires i < |text| && text[i] == '\''
    ensures EscapeAt(text, i) <==> i + 4 <= |text| && EscapeLiteral(text[i..i + 4])
  {
    if i + 4 <= |text| {
      var piece := text[i..i + 4];
      if EscapeAt(text, i) {
        assert piece == "'\\" + [text[i + 2]] + "'";
      }
      if EscapeLiteral(piece) {
        var c :| piece == "'\\" + [c] + "'" && c != '\n';
        assert piece[1] == '\\' && piece[2] == c && piece[3] == '\'';
      }
    }
  }

  lemma {:induction false} PlainExactly(text: string, i: nat)
    requires i < |text| && text[i] == '\''
    ensures PlainAt(text, i) <==> i + 3 <= |text| && PlainLiteral(text[i..i + 3])
  {
    if i + 3 <= |text| {
      var piece := text[i..i + 3];
      if PlainAt(text, i) {
        assert piece == "'" + [text[i + 1]] + "'";
      }
      if PlainLiteral(piece) {
        var c :| piece == "'" + [c] + "'" && c !in "\\'\n";
        assert piece[1] == c && piece[2] == '\'';
      }
    }
  }

  lemma {:induction false} OneShape(text: string, i: nat, n: nat)
    requires i < |text| && text[i] == '\''
    ensures UnicodeAt(text, i, n) ==> !HexEscapeAt(text, i) && !EscapeAt(text, i) && !PlainAt(text, i)
    ensures HexEscapeAt(text, i) ==> !EscapeAt(text, i) && !PlainAt(text, i) && !UnicodeAt(text, i, n)
    ensures EscapeAt(text, i) ==> !PlainAt(text, i)
  {
    hide Span, HEX;
    assert At(text, "\\u{", i + 1) ==>
             text[i + 1..i + 4][0] == '\\' && text[i + 1..i + 4][1] == 'u' && text[i + 1..i + 4][2] == '{';
    assert At(text, "\\x", i + 1) ==> text[i + 1..i + 3][1] == 'x' && text[i + 1..i + 3][0] == '\\';
    QuoteIsNoHex();
  }

  lemma QuoteIsNoHex()
    ensures '\'' !in HEX
  {
  }

  /** A character literal ends where it does, and there is one exactly when the text has one of the four shapes. */
  lemma {:induction false} CharEndExactly(text: string, i: nat, e: nat)
    requires i < |text| && text[i] == '\''
    ensures CharEnd(text, i) == Some(e) <==> i <= e <= |text| && CharLiteral(text[i..e])
  {
    hide At, Span, HEX, HexAt, Is, UnicodeLiteral, HexLiteral, EscapeLiteral, PlainLiteral;
    var n := Span(text, i + 4, HEX + "_");
    var m := if e >= i + 6 then e - i - 6 else 0;
    OneShape(text, i, n);
    OneShape(text, i, m);
    UnicodeExactly(text, i, n);
    UnicodeExactly(text, i, m);
    HexExactly(text, i);
    EscapeExactly(text, i);
    PlainExactly(text, i);
    if i <= e <= |text| {
      LiteralLengths(text[i..e]);
    }
  }

  lemma {:induction false} LiteralLengths(piece: string)
    ensures UnicodeLiteral(piece) ==> |piece| > 6
    ensures HexLiteral(piece) ==> |piece| == 6
    ensures EscapeLiteral(piece) ==> |piece| == 4
    ensures PlainLiteral(piece) ==> |piece| == 3
  {
  }

  // ---------- Raw strings ----------

  /** A raw string opens at i with n hash marks, and its contents start at start. */
  predicate RawOpens(text: string, i: nat, n: nat, start: nat) {
    || (At(text, "r" + Hashes(n) + "\"", i) && start == i + 2 + n)
    || (At(text, "br" + Hashes(n) + "\"", i) && start == i + 3 + n)
  }

  lemma {:induction false} MarkAt(text: string, prefix: string, n: nat, i: nat)
    ensures At(text, prefix + Hashes(n) + "\"", i) <==>
            At(text, prefix, i) && At(text, Hashes(n), i + |prefix|) && Is(text, i + |prefix| + n, '"')
  {
    var all, p, e := prefix + Hashes(n) + "\"", |prefix|, i + |prefix| + n + 1;
    if e <= |text| {
      assert text[i..e] == text[i..i + p] + text[i + p..i + p + n] + [text[i + p + n]];
      if text[i..e] == all {
        assert all[..p] == prefix && all[p..p + n] == Hashes(n) && all[p + n] == '"';
        assert text[i..e][..p] == text[i..i + p] && text[i..e][p..p + n] == text[i + p..i + p + n];
      }
    }
  }

  lemma {:induction false} HashesAt(text: string, i: nat, n: nat)
    requires Is(text, i + n, '"')
    ensures At(text, Hashes(n), i) <==> Span(text, i, "#") == n
  {
    if At(text, Hashes(n), i) {
      forall k | i <= k < i + n ensures text[k] in "#" {
        assert text[k] == text[i..i + n][k - i] == Hashes(n)[k - i];
      }
      SpanIs(text, i, "#", n);
    }
    if Span(text, i, "#") == n {
      assert forall k | i <= k < i + n :: text[k] in "#";
      assert text[i..i + n] == Hashes(n);
    }
  }

  lemma {:induction false} RawStartExactly(text: string, i: nat, n: nat, start: nat)
    ensures RawStart(text, i) == Some((start, n)) <==> RawOpens(text, i, n, start)
  {
    hide Hashes, Span, At, Is, RawStart;
    MarkAt(text, "r", n, i);
    MarkAt(text, "br", n, i);
    NotBoth(text, i);
    if Is(text, i + 1 + n, '"') {
      HashesAt(text, i + 1, n);
    }
    if Is(text, i + 2 + n, '"') {
      HashesAt(text, i + 2, n);
    }
    RawStartMeans(text, i);
  }

  lemma NotBoth(text: string, i: nat)
    ensures At(text, "br", i) ==> !At(text, "r", i)
  {
    assert At(text, "r", i) ==> text[i..i + 1][0] == 'r';
    assert At(text, "br", i) ==> text[i..i + 2][0] == 'b';
  }

  lemma RawStartMeans(text: string, i: nat)
    ensures var j := if At(text, "br", i) then i + 2 else i + 1;
            RawStart(text, i)
            == if (At(text, "br", i) || At(text, "r", i)) && Is(text, j + Span(text, j, "#"), '"')
               then Some((j + Span(text, j, "#") + 1, Span(text, j, "#"))) else None
  {
    hide At;
  }

  /** It closes just before e: the first quote from start on with as many hash marks after it. */
  ghost predicate RawCloses(text: string, start: nat, n: nat, e: nat) {
    && e >= start + 1 + n && At(text, "\"" + Hashes(n), e - 1 - n)
    && forall k | start <= k < e - 1 - n :: !At(text, "\"" + Hashes(n), k)
  }

  // ---------- Any lexeme ----------

  /** The comment that starts at i goes to the end of its line or of the text. */
  ghost predicate LineComment(text: string, i: nat, e: nat) {
    && i + 2 <= e <= |text| && (forall k | i <= k < e - 1 :: text[k] != '\n') && (text[e - 1] == '\n' || e == |text|)
  }

  ghost predicate StringLiteral(piece: string) {
    exists pieces :: ValidPieces(pieces) && piece == "\"" + PrintPieces(pieces) + "\""
  }

  /** What the lexer does at i, rule by rule, in the order of the rules. */
  ghost predicate LexedAs(text: string, i: nat, l: Lexeme)
    requires i < |text|
  {
    if At(text, "//", i) then l.Skip? && LineComment(text, i, l.next)
    else if At(text, "/*", i) then
      (forall e: nat :: l == Skip(e) <==> Closes(text, i + 2, e)) && (l.Skip? || l == Broken("unclosed block comment"))
    else if exists n, start :: RawOpens(text, i, n, start) then
      forall n, start | RawOpens(text, i, n, start) ::
        && (forall e: nat :: l == Skip(e) <==> RawCloses(text, start, n, e))
        && (l.Skip? || l == Broken("unclosed raw string"))
    else if text[i] == '"' then
      && (forall e: nat :: l == Skip(e) <==> i < e <= |text| && StringLiteral(text[i..e]))
      && (l.Skip? || l == Broken("unclosed string"))
    else if text[i] == '\'' then
      && (l.Skip? || l == Broken("unclosed character or invalid lifetime"))
      && if exists e: nat :: i <= e <= |text| && CharLiteral(text[i..e])
         then forall e: nat :: l == Skip(e) <==> i <= e <= |text| && CharLiteral(text[i..e])
         else forall e: nat :: l == Skip(e) <==> Lifetime(text, i, e)
    else if text[i] in "()[]{}" then l == Mark(text[i])
    else l == Skip(i + 1)
  }

  lemma {:induction false} LineCommentEnds(text: string, i: nat)
    requires At(text, "//", i)
    ensures var end := Find(text, "\n", i); LineComment(text, i, if end.Some? then end.value + 1 else |text|)
  {
    assert text[i..i + 2][0] == '/' && text[i..i + 2][1] == '/';
    forall k: nat | i <= k < |text| ensures At(text, "\n", k) <==> text[k] == '\n' {
      assert text[k..k + 1] == [text[k]];
    }
  }

  lemma {:induction false} StringEndExactly(text: string, i: nat, e: nat)
    requires i < |text| && text[i] == '"'
    ensures StringEnd(text, i + 1) == Some(e) <==> i < e <= |text| && StringLiteral(text[i..e])
  {
    hide StringEnd, ValidPieces, PrintPieces;
    if i < e <= |text| {
      StringClosesExactly(text, i + 1, e);
      assert text[i..e] == "\"" + text[i + 1..e];
      forall pieces
        ensures text[i..e] == "\"" + PrintPieces(pieces) + "\"" <==> text[i + 1..e] == PrintPieces(pieces) + "\""
      {
        assert text[i..e][1..] == text[i + 1..e];
        assert ("\"" + PrintPieces(pieces) + "\"")[1..] == PrintPieces(pieces) + "\"";
      }
    }
  }

  lemma {:induction false} RawExactly(text: string, i: nat, n: nat, start: nat)
    requires RawOpens(text, i, n, start) && !At(text, "//", i) && !At(text, "/*", i) && i < |text|
    ensures var l := Lex(text, i);
            && (forall e: nat :: l == Skip(e) <==> RawCloses(text, start, n, e))
            && (l.Skip? || l == Broken("unclosed raw string"))
  {
    hide RawStart, RawOpens, At, Find, Hashes;
    RawStartExactly(text, i, n, start);
    assert |"\"" + Hashes(n)| == 1 + n by {
      HashesLength(n);
    }
  }

  lemma HashesLength(n: nat)
    ensures |Hashes(n)| == n
  {
  }

  /** The lexer follows the rules at every position of every text. */
  lemma {:induction false} LexInFull(text: string, i: nat)
    requires i < |text|
    ensures LexedAs(text, i, Lex(text, i))
  {
    hide At, Find, CloseDepth, StringEnd, CharEnd, LifetimeEnd, RawStart, RawOpens, RawCloses, Closes, CharLiteral,
         Lifetime, StringLiteral, LineComment;
    if At(text, "//", i) {
      LineCommentEnds(text, i);
    } else if At(text, "/*", i) {
      EndsInside(text, "/*", i);
      forall e: nat ensures Lex(text, i) == Skip(e) <==> Closes(text, i + 2, e) {
        CountingIsNesting(text, i + 2, e);
      }
    } else if n, start :| RawOpens(text, i, n, start) {
      forall n, start | RawOpens(text, i, n, start)
        ensures (forall e: nat :: Lex(text, i) == Skip(e) <==> RawCloses(text, start, n, e))
                && (Lex(text, i).Skip? || Lex(text, i) == Broken("unclosed raw string"))
      {
        RawExactly(text, i, n, start);
      }
    } else {
      NoRaw(text, i);
      if text[i] == '"' {
        forall e: nat ensures StringEnd(text, i + 1) == Some(e) <==> i < e <= |text| && StringLiteral(text[i..e]) {
          StringEndExactly(text, i, e);
        }
      } else if text[i] == '\'' {
        forall e: nat ensures CharEnd(text, i) == Some(e) <==> i <= e <= |text| && CharLiteral(text[i..e]) {
          CharEndExactly(text, i, e);
        }
        forall e: nat ensures LifetimeEnd(text, i) == Some(e) <==> Lifetime(text, i, e) {
          LifetimesExactly(text, i, e);
        }
      }
      BracketPairs(text[i], text[i]);
    }
  }

  lemma {:induction false} NoRaw(text: string, i: nat)
    requires forall n, start :: !RawOpens(text, i, n, start)
    ensures RawStart(text, i).None?
  {
    hide RawStart, RawOpens;
    if RawStart(text, i).Some? {
      RawStartExactly(text, i, RawStart(text, i).value.1, RawStart(text, i).value.0);
    }
  }

  // ---------- The whole text ----------

  /** From i on the text is lexemes, one after the other; word is the brackets among them, and error what stopped the
      lexer before the end, if anything did. */
  ghost predicate ReadsTo(text: string, i: nat, word: string, error: Option<string>)
    requires i <= |text|
    decreases |text| - i
  {
    if i == |text| then word == [] && error == None
    else exists l :: LexedAs(text, i, l) && GoesOn(text, i, l, word, error)
  }

  ghost predicate GoesOn(text: string, i: nat, l: Lexeme, word: string, error: Option<string>)
    requires i < |text|
    decreases |text| - i, 0
  {
    match l
    case Skip(next) => i < next <= |text| && ReadsTo(text, next, word, error)
    case Mark(c) => word != [] && word[0] == c && ReadsTo(text, i + 1, word[1..], error)
    case Broken(msg) => word == [] && error == Some(msg)
  }

  /** The bracket word and the error the verdict is given on are those of reading the whole text by the rules. */
  lemma {:induction false} WordsInFull(text: string, i: nat)
    requires i <= |text|
    ensures ReadsTo(text, i, Words(text, i).word, Words(text, i).error)
    decreases |text| - i
  {
    hide Lex, LexedAs;
    if i < |text| {
      var l, w := Lex(text, i), Words(text, i);
      LexInFull(text, i);
      match l
      case Skip(next) => WordsInFull(text, next);
      case Mark(c) =>
        WordsInFull(text, i + 1);
        assert w.word[1..] == Words(text, i + 1).word;
      case Broken(_) =>
      assert GoesOn(text, i, l, w.word, w.error);
    }
  }
}
