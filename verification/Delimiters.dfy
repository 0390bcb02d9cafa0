/** The delimiter lexer for Rust sources: closed comments and literals, balanced brackets
    (scripts/check_repository.py). */
module Delimiters {
  import opened Bytes
  import opened Brackets

  // ---------- Searching ----------

  predicate At(text: string, pat: string, i: nat) {
    i + |pat| <= |text| && text[i..i + |pat|] == pat
  }

  /** str.find: the first occurrence from i on. */
  function Find(text: string, pat: string, i: nat): (r: Option<nat>)
    ensures r.Some? ==> i <= r.value && At(text, pat, r.value) && forall k | i <= k < r.value :: !At(text, pat, k)
    ensures r.None? ==> forall k: nat | i <= k :: !At(text, pat, k)
    decreases |text| - i
  {
    if i + |pat| > |text| then None
    else if At(text, pat, i) then Some(i)
    else Find(text, pat, i + 1)
  }

  // ---------- Block comments ----------

  /** Where a comment nested depth deep, read from i on, is closed. */
  function CloseDepth(text: string, i: nat, depth: nat): (r: Option<nat>)
    requires i <= |text|
    ensures r.Some? ==> i <= r.value <= |text|
    decreases |text| - i
  {
    if depth == 0 then Some(i)
    else if i == |text| then None
    else if At(text, "/*", i) then CloseDepth(text, i + 2, depth + 1)
    else if At(text, "*/", i) then CloseDepth(text, i + 2, depth - 1)
    else CloseDepth(text, i + 1, depth)
  }

  /** The nesting itself, without a counter: e is just past the closing mark of the comment whose
      inside starts at i. A comment inside is skipped whole. */
  ghost predicate Closes(text: string, i: nat, e: nat)
    decreases e - i
  {
    && i < e <= |text|
    && if At(text, "/*", i) then exists m | i + 2 < m < e :: Closes(text, i + 2, m) && Closes(text, m, e)
       else if At(text, "*/", i) then e == i + 2
       else Closes(text, i + 1, e)
  }

  lemma {:induction false} DepthToNesting(text: string, i: nat, depth: nat) returns (m: nat)
    requires i <= |text| && depth > 0 && CloseDepth(text, i, depth).Some?
    ensures Closes(text, i, m) && CloseDepth(text, m, depth - 1) == CloseDepth(text, i, depth)
    decreases |text| - i
  {
    if At(text, "/*", i) {
      var inner := DepthToNesting(text, i + 2, depth + 1);
      m := DepthToNesting(text, inner, depth);
    } else if At(text, "*/", i) {
      m := i + 2;
    } else {
      m := DepthToNesting(text, i + 1, depth);
    }
  }

  lemma {:induction false} NestingToDepth(text: string, i: nat, m: nat, depth: nat)
    requires depth > 0 && Closes(text, i, m)
    ensures CloseDepth(text, i, depth) == CloseDepth(text, m, depth - 1)
    decreases m - i
  {
    if At(text, "/*", i) {
      var inner :| i + 2 < inner < m && Closes(text, i + 2, inner) && Closes(text, inner, m);
      NestingToDepth(text, i + 2, inner, depth + 1);
      NestingToDepth(text, inner, m, depth);
    } else if !At(text, "*/", i) {
      NestingToDepth(text, i + 1, m, depth);
    }
  }

  /** Counting depth finds exactly the matching closing mark. */
  lemma {:induction false} CountingIsNesting(text: string, i: nat, e: nat)
    requires i <= |text|
    ensures CloseDepth(text, i, 1) == Some(e) <==> Closes(text, i, e)
  {
    if CloseDepth(text, i, 1).Some? {
      var m := DepthToNesting(text, i, 1);
    }
    if Closes(text, i, e) {
      NestingToDepth(text, i, e, 1);
    }
  }

  // ---------- Literals ----------

  /** Where a string literal whose contents start at i ends. */
  function StringEnd(text: string, i: nat): (r: Option<nat>)
    ensures r.Some? ==> i < r.value <= |text|
    decreases |text| - i
  {
    if i >= |text| then None
    else if text[i] == '\\' then StringEnd(text, i + 2)
    else if text[i] == '"' then Some(i + 1)
    else StringEnd(text, i + 1)
  }

  datatype Piece = Bare(c: char) | Escaped(c: char)

  predicate ValidPieces(pieces: seq<Piece>) {
    forall p | p in pieces :: p.Bare? ==> p.c != '\\' && p.c != '"'
  }

  function PrintPieces(pieces: seq<Piece>): string {
    if pieces == [] then []
    else (if pieces[0].Bare? then [pieces[0].c] else ['\\', pieces[0].c]) + PrintPieces(pieces[1..])
  }

  lemma {:induction false} StringToPieces(text: string, i: nat) returns (pieces: seq<Piece>)
    requires StringEnd(text, i).Some?
    ensures ValidPieces(pieces) && text[i..StringEnd(text, i).value] == PrintPieces(pieces) + "\""
    decreases |text| - i
  {
    var e := StringEnd(text, i).value;
    if text[i] == '\\' {
      var rest := StringToPieces(text, i + 2);
      pieces := [Escaped(text[i + 1])] + rest;
      assert pieces[1..] == rest && text[i..e] == ['\\', text[i + 1]] + text[i + 2..e];
    } else if text[i] == '"' {
      pieces := [];
    } else {
      var rest := StringToPieces(text, i + 1);
      pieces := [Bare(text[i])] + rest;
      assert pieces[1..] == rest && text[i..e] == [text[i]] + text[i + 1..e];
    }
  }

  lemma {:induction false} PiecesToString(text: string, i: nat, e: nat, pieces: seq<Piece>)
    requires i <= e <= |text| && ValidPieces(pieces) && text[i..e] == PrintPieces(pieces) + "\""
    ensures StringEnd(text, i) == Some(e)
    decreases |pieces|
  {
    var printed := PrintPieces(pieces) + "\"";
    assert text[i] == text[i..e][0];
    if pieces != [] {
      var p, n := pieces[0], if pieces[0].Bare? then 1 else 2;
      assert p in pieces && forall q | q in pieces[1..] :: q in pieces;
      assert printed[n..] == PrintPieces(pieces[1..]) + "\"" && text[i..e][n..] == text[i + n..e];
      PiecesToString(text, i + n, e, pieces[1..]);
    }
  }

  /** A string literal ends at the first quote that no backslash takes. */
  lemma {:induction false} StringClosesExactly(text: string, i: nat, e: nat)
    requires i <= e <= |text|
    ensures StringEnd(text, i) == Some(e) <==>
              exists pieces :: ValidPieces(pieces) && text[i..e] == PrintPieces(pieces) + "\""
  {
    if StringEnd(text, i) == Some(e) {
      var pieces := StringToPieces(text, i);
    }
    if pieces :| ValidPieces(pieces) && text[i..e] == PrintPieces(pieces) + "\"" {
      PiecesToString(text, i, e, pieces);
    }
  }

  /** How many characters from i on are in a set. */
  function Span(text: string, i: nat, set_: string): (n: nat)
    ensures n == 0 || i + n <= |text|
    ensures forall k | i <= k < i + n :: text[k] in set_
    ensures i + n < |text| ==> text[i + n] !in set_
    decreases |text| - i
  {
    if i < |text| && text[i] in set_ then 1 + Span(text, i + 1, set_) else 0
  }

  const HEX: string := "0123456789ABCDEFabcdef"
  const LETTERS: string := "ABCDEFGHIJKLMNOPQRSTUVWXYZabcdefghijklmnopqrstuvwxyz_"
  const DIGITS: string := "0123456789"

  function Hashes(n: nat): string {
    seq(n, _ => '#')
  }

  /** Does a raw string open at i? Then its contents start after the quote and hash marks. */
  function RawStart(text: string, i: nat): (r: Option<(nat, nat)>)
    ensures r.Some? ==> i < r.value.0 <= |text|
  {
    var j := if At(text, "br", i) then i + 2 else if At(text, "r", i) then i + 1 else |text|;
    var n := Span(text, j, "#");
    if j + n < |text| && text[j + n] == '"' then Some((j + n + 1, n)) else None
  }

  predicate Is(text: string, i: nat, c: char) {
    i < |text| && text[i] == c
  }

  predicate HexAt(text: string, i: nat) {
    i < |text| && text[i] in HEX
  }

  /** Where a character literal that opens at i ends. */
  function CharEnd(text: string, i: nat): (r: Option<nat>)
    ensures r.Some? ==> i < r.value <= |text|
  {
    var n := Span(text, i + 4, HEX + "_");
    if At(text, "\\u{", i + 1) && n > 0 && At(text, "}'", i + 4 + n) then Some(i + 6 + n)
    else if At(text, "\\x", i + 1) && HexAt(text, i + 3) && HexAt(text, i + 4) && Is(text, i + 5, '\'') then Some(i + 6)
    else if Is(text, i + 1, '\\') && Is(text, i + 3, '\'') && text[i + 2] != '\n' then Some(i + 4)
    else if Is(text, i + 2, '\'') && text[i + 1] !in "\\'\n" then Some(i + 3)
    else None
  }

  /** Where a lifetime that starts at i ends. */
  function LifetimeEnd(text: string, i: nat): (r: Option<nat>)
    ensures r.Some? ==> i < r.value <= |text|
  {
    if i + 1 < |text| && text[i + 1] in LETTERS then Some(i + 2 + Span(text, i + 2, LETTERS + DIGITS)) else None
  }

  // ---------- One lexeme ----------

  /** What stands at a position: something to skip, a bracket, or something never closed. */
  datatype Lexeme = Skip(next: nat) | Mark(c: char) | Broken(msg: string)

  function SkipTo(end: Option<nat>, msg: string): Lexeme {
    if end.Some? then Skip(end.value) else Broken(msg)
  }

  function Lex(text: string, i: nat): (l: Lexeme)
    requires i < |text|
    ensures l.Skip? ==> i < l.next <= |text|
    ensures l.Mark? ==> l.c == text[i] && Bracket(l.c)
  {
    if At(text, "//", i) then
      var end := Find(text, "\n", i);
      Skip(if end.Some? then end.value + 1 else |text|)
    else if At(text, "/*", i) then SkipTo(CloseDepth(text, i + 2, 1), "unclosed block comment")
    else
      var raw := RawStart(text, i);
      if raw.Some? then
        var end := Find(text, "\"" + Hashes(raw.value.1), raw.value.0);
        if end.Some? then Skip(end.value + 1 + raw.value.1) else Broken("unclosed raw string")
      else if text[i] == '"' then SkipTo(StringEnd(text, i + 1), "unclosed string")
      else if text[i] == '\'' then
        var end := CharEnd(text, i);
        SkipTo(if end.Some? then end else LifetimeEnd(text, i), "unclosed character or invalid lifetime")
      else if Bracket(text[i]) then Mark(text[i])
      else Skip(i + 1)
  }

  // ---------- The whole text ----------

  /** The brackets outside comments and literals, up to the first thing that is never closed. */
  datatype Lexed = Lexed(word: string, error: Option<string>)

  function Words(text: string, i: nat): Lexed
    requires i <= |text|
    decreases |text| - i
  {
    if i == |text| then Lexed([], None)
    else
      var l := Lex(text, i);
      if l.Skip? then Words(text, l.next)
      else if l.Broken? then Lexed([], Some(l.msg))
      else Lexed([l.c] + Words(text, i + 1).word, Words(text, i + 1).error)
  }

  datatype Verdict = Fine | Wrong(msg: string)

  /** The first thing wrong with a bracket word, the error after it, or the brackets left open. */
  function Judge(l: Lexed): Verdict {
    match RunWord([], l.word, 0)
    case Stuck(at) => if at < |l.word| then Wrong("unbalanced delimiter " + [l.word[at]]) else Fine
    case Stack(stack) =>
      if l.error.Some? then Wrong(l.error.value)
      else if stack != [] then Wrong("unclosed delimiters")
      else Fine
  }

  lemma {:induction false} WordsAreBrackets(text: string, i: nat)
    requires i <= |text|
    ensures AllBrackets(Words(text, i).word)
    decreases |text| - i
  {
    hide Lex;
    if i < |text| {
      var l := Lex(text, i);
      if l.Skip? {
        WordsAreBrackets(text, l.next);
      } else if l.Mark? {
        WordsAreBrackets(text, i + 1);
      }
    }
  }

  lemma {:induction false} StuckInside(stack: string, w: string, i: nat)
    ensures RunWord(stack, w, i).Stuck? ==> i <= RunWord(stack, w, i).at < i + |w|
    decreases |w|
  {
    if w != [] && Fits(stack, w[0]) {
      StuckInside(Take(stack, w[0]), w[1..], i + 1);
    }
  }

  /** The accepted texts are exactly those whose comments and literals all close and whose brackets
      outside them are balanced. */
  lemma {:induction false} AcceptsExactlyTheBalanced(text: string)
    ensures Judge(Words(text, 0)) == Fine <==> Words(text, 0).error.None? && Dyck(Words(text, 0).word)
  {
    hide Words, Dyck;
    var l := Words(text, 0);
    WordsAreBrackets(text, 0);
    StackAcceptsDyck(l.word);
    StuckInside([], l.word, 0);
  }

  /** A bracket is reported exactly when the brackets up to it could not be completed to a balanced
      word any more; until then an unclosed literal or comment is reported first. */
  lemma {:induction false} ReportsTheFirstError(text: string)
    ensures var l := Words(text, 0);
            Completable(l.word) ==>
              Judge(l) == if l.error.Some? then Wrong(l.error.value)
                          else if Dyck(l.word) then Fine else Wrong("unclosed delimiters")
    ensures var l := Words(text, 0);
            !Completable(l.word) ==>
              exists at | 0 <= at < |l.word| ::
                && Judge(l) == Wrong("unbalanced delimiter " + [l.word[at]])
                && Completable(l.word[..at]) && !Completable(l.word[..at + 1])
  {
    hide Words, Dyck;
    var l := Words(text, 0);
    WordsAreBrackets(text, 0);
    StackAcceptsDyck(l.word);
    StuckMeansHopeless(l.word);
    if RunWord([], l.word, 0).Stuck? {
      var at := RunWord([], l.word, 0).at;
      StuckInside([], l.word, 0);
      StuckAt(l.word, at);
      StuckMeansHopeless(l.word[..at]);
      StuckMeansHopeless(l.word[..at + 1]);
    }
  }

  lemma {:induction false} StuckAt(w: string, at: nat)
    requires RunWord([], w, 0) == Stuck(at) && at < |w|
    ensures RunWord([], w[..at], 0).Stack? && RunWord([], w[..at + 1], 0).Stuck?
  {
    assert w == w[..at] + w[at..] && w == w[..at + 1] + w[at + 1..];
    RunConcat([], w[..at], w[at..], 0);
    RunConcat([], w[..at + 1], w[at + 1..], 0);
    StuckInside([], w[..at], 0);
    if RunWord([], w[..at + 1], 0).Stack? {
      StuckInside(RunWord([], w[..at + 1], 0).stack, w[at + 1..], at + 1);
    }
  }

  // ---------- The program ----------

  /** The inside of a block comment, from i on. */
  method SkipComment(text: string, start: nat) returns (r: Option<nat>)
    requires start <= |text|
    ensures r == CloseDepth(text, start, 1)
  {
    var i, depth := start, 1;
    while i < |text| && depth > 0
      invariant i <= |text| && CloseDepth(text, start, 1) == CloseDepth(text, i, depth)
      decreases |text| - i
    {
      if At(text, "/*", i) {
        depth, i := depth + 1, i + 2;
      } else if At(text, "*/", i) {
        depth, i := depth - 1, i + 2;
      } else {
        i := i + 1;
      }
    }
    r := if depth == 0 then Some(i) else None;
  }

  method SkipString(text: string, start: nat) returns (r: Option<nat>)
    ensures r == StringEnd(text, start)
  {
    var i := start;
    while i < |text|
      invariant StringEnd(text, start) == StringEnd(text, i)
      decreases |text| - i
    {
      if text[i] == '\\' {
        i := i + 2;
      } else if text[i] == '"' {
        return Some(i + 1);
      } else {
        i := i + 1;
      }
    }
    return None;
  }

  /** Step over the comment or literal at i, if there is one. */
  method SkipLexeme(text: string, i: nat) returns (l: Option<Lexeme>)
    requires i < |text|
    ensures l.Some? ==> l.value == Lex(text, i) && !l.value.Mark?
    ensures l.None? ==> Lex(text, i) == if Bracket(text[i]) then Mark(text[i]) else Skip(i + 1)
  {
    hide Find, CloseDepth, StringEnd, CharEnd, LifetimeEnd, RawStart;
    if At(text, "//", i) {
      var end := Find(text, "\n", i);
      return Some(Skip(if end.Some? then end.value + 1 else |text|));
    }
    if At(text, "/*", i) {
      var end := SkipComment(text, i + 2);
      return Some(SkipTo(end, "unclosed block comment"));
    }
    var raw := RawStart(text, i);
    if raw.Some? {
      var ending := "\"" + Hashes(raw.value.1);
      var end := Find(text, ending, raw.value.0);
      return Some(if end.Some? then Skip(end.value + |ending|) else Broken("unclosed raw string"));
    }
    if text[i] == '"' {
      var end := SkipString(text, i + 1);
      return Some(SkipTo(end, "unclosed string"));
    }
    if text[i] == '\'' {
      var end := CharEnd(text, i);
      if end.None? {
        end := LifetimeEnd(text, i);
      }
      return Some(SkipTo(end, "unclosed character or invalid lifetime"));
    }
    return None;
  }

  lemma {:induction false} PushOnSeen(seen: string, c: char, more: string)
    ensures seen + ([c] + more) == (seen + [c]) + more && (seen + ([c] + more))[|seen|] == c
  {
  }

  /** lexical_delimiters: the assertion it fails, if any. */
  method LexicalDelimiters(text: string) returns (v: Verdict)
    ensures v == Judge(Words(text, 0))
  {
    hide Lex, RunWord;
    RunNothing([], 0);
    var stack := "";
    var i := 0;
    ghost var seen := "";
    while i < |text|
      invariant i <= |text|
      invariant Words(text, 0) == Lexed(seen + Words(text, i).word, Words(text, i).error)
      invariant RunWord([], seen, 0) == Stack(stack)
      decreases |text| - i
    {
      var l := SkipLexeme(text, i);
      if l.Some? {
        if l.value.Broken? {
          assert seen + [] == seen;
          return Wrong(l.value.msg);
        }
        i := l.value.next;
      } else {
        var c := text[i];
        if Bracket(c) {
          ghost var more := Words(text, i + 1).word;
          RunSnoc(seen, stack, c, more);
          PushOnSeen(seen, c, more);
          if Opening(c) {
            stack := stack + [c];
          } else {
            if stack == [] || stack[|stack| - 1] != Opener(c) {
              return Wrong("unbalanced delimiter " + [c]);
            }
            stack := stack[..|stack| - 1];
          }
          seen := seen + [c];
        }
        i := i + 1;
      }
    }
    assert seen + [] == seen;
    v := if stack != [] then Wrong("unclosed delimiters") else Fine;
  }
}
