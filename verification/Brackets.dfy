/** Bracket words over three kinds: a stack accepts exactly the Dyck words
    (scripts/check_repository.py). */
module Brackets {

  predicate Opening(c: char) {
    c == '(' || c == '[' || c == '{'
  }

  predicate Closing(c: char) {
    c == ')' || c == ']' || c == '}'
  }

  predicate Bracket(c: char) {
    Opening(c) || Closing(c)
  }

  /** The opening bracket a closing one expects. */
  function Opener(c: char): char {
    if c == ')' then '(' else if c == ']' then '[' else '{'
  }

  function Closer(c: char): char {
    if c == '(' then ')' else if c == '[' then ']' else '}'
  }

  /** The three pairs. */
  lemma BracketPairs(c: char, d: char)
    ensures Opening(c) && d == Closer(c) <==> [c, d] in {"()", "[]", "{}"}
    ensures Closing(d) && c == Opener(d) <==> [c, d] in {"()", "[]", "{}"}
    ensures Bracket(c) <==> c in "()[]{}"
  {
    assert [c, d][0] == c && [c, d][1] == d;
  }

  /** A balanced word: nothing, or a bracketed balanced word and another one after it. */
  ghost predicate Dyck(w: string)
    decreases |w|
  {
    w == [] || exists k | 0 < k < |w| :: Splits(w, k)
  }

  ghost predicate Splits(w: string, k: nat)
    requires 0 < k < |w|
    decreases |w|, 0
  {
    Opening(w[0]) && w[k] == Closer(w[0]) && Dyck(w[1..k]) && Dyck(w[k + 1..])
  }

  datatype Run = Stack(stack: string) | Stuck(at: nat)

  /** Push opening brackets, pop matching ones; the last element is the top. */
  function Take(stack: string, c: char): (next: string)
    requires Fits(stack, c)
  {
    if Opening(c) then stack + [c] else stack[..|stack| - 1]
  }

  predicate Fits(stack: string, c: char) {
    Opening(c) || (stack != [] && stack[|stack| - 1] == Opener(c))
  }

  /** Run a word, counting positions from i. */
  function RunWord(stack: string, w: string, i: nat): Run
    decreases |w|
  {
    if w == [] then Stack(stack)
    else if Fits(stack, w[0]) then RunWord(Take(stack, w[0]), w[1..], i + 1)
    else Stuck(i)
  }

  lemma {:induction false} RunConcat(stack: string, u: string, w: string, i: nat)
    ensures RunWord(stack, u + w, i)
            == match RunWord(stack, u, i)
               case Stack(s) => RunWord(s, w, i + |u|)
               case Stuck(at) => Stuck(at)
    decreases |u|
  {
    if u == [] {
      assert u + w == w;
    } else {
      assert (u + w)[0] == u[0] && (u + w)[1..] == u[1..] + w;
      if Fits(stack, u[0]) {
        RunConcat(Take(stack, u[0]), u[1..], w, i + 1);
      }
    }
  }

  function Wrap(c: char, inner: string, rest: string): string {
    [c] + inner + [Closer(c)] + rest
  }

  lemma {:induction false} MakeDyck(c: char, inner: string, rest: string)
    requires Opening(c) && Dyck(inner) && Dyck(rest)
    ensures Dyck(Wrap(c, inner, rest))
  {
    var w, k := Wrap(c, inner, rest), |inner| + 1;
    assert w[1..k] == inner && w[k + 1..] == rest;
    assert Splits(w, k);
  }

  lemma {:induction false} BreakDyck(w: string) returns (inner: string, rest: string)
    requires Dyck(w) && w != []
    ensures Opening(w[0]) && Dyck(inner) && Dyck(rest) && w == Wrap(w[0], inner, rest)
  {
    var k :| 0 < k < |w| && Splits(w, k);
    inner, rest := w[1..k], w[k + 1..];
  }

  lemma {:induction false} RunNothing(stack: string, i: nat)
    ensures RunWord(stack, [], i) == Stack(stack)
  {
  }

  lemma {:induction false} RunHead(stack: string, c: char, w: string, i: nat)
    ensures RunWord(stack, [c] + w, i) == if Fits(stack, c) then RunWord(Take(stack, c), w, i + 1) else Stuck(i)
  {
    assert ([c] + w)[1..] == w;
  }

  /** One more bracket on a word the stack has taken. */
  lemma {:induction false} RunSnoc(word: string, stack: string, c: char, more: string)
    requires RunWord([], word, 0) == Stack(stack)
    ensures RunWord([], word + [c], 0) == if Fits(stack, c) then Stack(Take(stack, c)) else Stuck(|word|)
    ensures !Fits(stack, c) ==> RunWord([], word + ([c] + more), 0) == Stuck(|word|)
  {
    RunConcat([], word, [c], 0);
    RunConcat([], word, [c] + more, 0);
    RunHead(stack, c, more, |word|);
  }

  lemma {:induction false} WrapLength(c: char, inner: string, rest: string)
    ensures |Wrap(c, inner, rest)| == |inner| + |rest| + 2
  {
  }

  lemma {:induction false} WrapParts(c: char, inner: string, rest: string)
    ensures Wrap(c, inner, rest) == [c] + (inner + ([Closer(c)] + rest))
  {
  }

  lemma {:induction false} PushPop(stack: string, c: char)
    requires Opening(c)
    ensures var s := stack + [c];
            Fits(stack, c) && Take(stack, c) == s && Fits(s, Closer(c)) && Take(s, Closer(c)) == stack
  {
  }

  /** A balanced word leaves any stack as it was. */
  lemma {:induction false} DyckRuns(w: string, stack: string, i: nat)
    requires Dyck(w)
    ensures RunWord(stack, w, i) == Stack(stack)
    decreases |w|
  {
    hide Dyck, RunWord, Wrap, Fits, Take, Closer, Opening;
    if w == [] {
      RunNothing(stack, i);
    } else {
      var inner, rest := BreakDyck(w);
      WrapLength(w[0], inner, rest);
      var c, s, close := w[0], stack + [w[0]], Closer(w[0]);
      WrapParts(c, inner, rest);
      PushPop(stack, c);
      DyckRuns(inner, s, i + 1);
      DyckRuns(rest, stack, i + |inner| + 2);
      RunHead(stack, c, inner + ([close] + rest), i);
      RunConcat(s, inner, [close] + rest, i + 1);
      RunHead(s, close, rest, i + |inner| + 1);
    }
  }

  /** The brackets that would close a stack, innermost first. */
  function Closers(stack: string): string {
    if stack == [] then [] else [Closer(stack[|stack| - 1])] + Closers(stack[..|stack| - 1])
  }

  lemma {:induction false} DyckConcat(u: string, w: string)
    requires Dyck(u) && Dyck(w)
    ensures Dyck(u + w)
    decreases |u|
  {
    hide Dyck;
    if u == [] {
      assert u + w == w;
    } else {
      var inner, rest := BreakDyck(u);
      DyckConcat(rest, w);
      MakeDyck(u[0], inner, rest + w);
      assert Wrap(u[0], inner, rest + w) == u + w;
    }
  }

  /** A cut of a bracketed word at or after its first closing bracket. */
  lemma {:induction false} CutAfter(c: char, inner: string, rest: string, a: string, b: string) returns (tail: string)
    requires a + b == Wrap(c, inner, rest) && |a| >= |inner| + 2
    ensures rest == tail + b && a == Wrap(c, inner, tail)
  {
    var n := |inner| + 2;
    tail := a[n..];
    assert rest == Wrap(c, inner, rest)[n..] && (a + b)[n..] == tail + b;
    assert a[..n] == (a + b)[..n] && Wrap(c, inner, rest)[..n] == [c] + inner + [Closer(c)];
  }

  /** A cut before its first closing bracket. */
  lemma {:induction false} CutInside(c: char, inner: string, rest: string, a: string, b: string)
    returns (x: string, y: string)
    requires a + b == Wrap(c, inner, rest) && 1 <= |a| < |inner| + 2
    ensures inner == x + y && a == [c] + x && b == y + [Closer(c)] + rest
  {
    var m := |a| - 1;
    x, y := inner[..m], inner[m..];
    assert Wrap(c, inner, rest) == ([c] + x) + (y + [Closer(c)] + rest);
    assert a == (a + b)[..|a|] && b == (a + b)[|a|..];
  }

  lemma {:induction false} InsertAfter(c: char, inner: string, tail: string, w: string, b: string)
    ensures Wrap(c, inner, tail) + w + b == Wrap(c, inner, tail + w + b)
  {
  }

  lemma {:induction false} InsertInside(c: char, x: string, w: string, y: string, rest: string)
    ensures [c] + x + w + (y + [Closer(c)] + rest) == Wrap(c, x + w + y, rest)
  {
  }

  /** Putting a balanced word into a balanced one keeps it balanced. */
  lemma {:induction false} DyckInsert(a: string, w: string, b: string)
    requires Dyck(a + b) && Dyck(w)
    ensures Dyck(a + w + b)
    decreases |a| + |b|
  {
    hide Dyck, Wrap;
    if a == [] {
      assert a + b == b && a + w + b == w + b;
      DyckConcat(w, b);
    } else {
      var c := a[0];
      var inner, rest := BreakDyck(a + b);
      WrapLength(c, inner, rest);
      if |inner| + 2 <= |a| {
        var tail := CutAfter(c, inner, rest, a, b);
        WrapLength(c, inner, tail);
        DyckInsert(tail, w, b);
        MakeDyck(c, inner, tail + w + b);
        InsertAfter(c, inner, tail, w, b);
      } else {
        var x, y := CutInside(c, inner, rest, a, b);
        DyckInsert(x, w, y);
        MakeDyck(c, x + w + y, rest);
        InsertInside(c, x, w, y, rest);
      }
    }
  }

  /** A pair of brackets, put between two parts of a balanced word. */
  lemma {:induction false} PutPair(a: string, o: char, b: string)
    requires Opening(o) && Dyck(a + b)
    ensures Dyck(a + [o] + ([Closer(o)] + b))
  {
    hide Dyck;
    Pair(o);
    DyckInsert(a, [o, Closer(o)], b);
    assert a + [o, Closer(o)] + b == a + [o] + ([Closer(o)] + b);
  }

  lemma Pair(c: char)
    requires Opening(c)
    ensures Dyck([c, Closer(c)])
  {
    assert Splits([c, Closer(c)], 1);
  }

  ghost predicate AllOpening(stack: string) {
    forall c | c in stack :: Opening(c)
  }

  ghost predicate AllBrackets(w: string) {
    forall c | c in w :: Bracket(c)
  }

  lemma {:induction false} FirstBracket(w: string)
    requires AllBrackets(w) && w != []
    ensures Bracket(w[0]) && AllBrackets(w[1..])
  {
  }

  /** What taking one bracket does to the stack in front of what follows. */
  lemma {:induction false} TakeKeepsDyck(stack: string, c: char, tail: string)
    requires AllOpening(stack) && Bracket(c) && Fits(stack, c)
    ensures AllOpening(Take(stack, c))
    ensures Dyck(Take(stack, c) + tail) ==> Dyck(stack + ([c] + tail))
  {
    hide Dyck;
    var next := Take(stack, c);
    if Opening(c) {
      assert next + tail == stack + ([c] + tail);
    } else {
      var o := stack[|stack| - 1];
      assert o in stack && stack == next + [o];
      if Dyck(next + tail) {
        PutPair(next, o, tail);
      }
    }
  }

  /** When the stack takes a word, the open brackets, the word and the closers of what is left on the
      stack are balanced. */
  lemma {:induction false} RunIsDyck(stack: string, w: string, i: nat)
    requires AllOpening(stack) && AllBrackets(w) && RunWord(stack, w, i).Stack?
    ensures Dyck(stack + (w + Closers(RunWord(stack, w, i).stack)))
    decreases |w|
  {
    hide Dyck, Closers, Take, Fits, Bracket, AllOpening, AllBrackets, RunWord;
    var ends := Closers(RunWord(stack, w, i).stack);
    if w == [] {
      RunNothing(stack, i);
      OpenAndClose(stack);
      assert w + ends == ends;
    } else {
      var c, rest := w[0], w[1..];
      FirstBracket(w);
      assert w == [c] + rest;
      RunHead(stack, c, rest, i);
      TakeKeepsDyck(stack, c, rest + ends);
      RunIsDyck(Take(stack, c), rest, i + 1);
      assert w + ends == [c] + (rest + ends);
    }
  }

  lemma {:induction false} OpenAndClose(stack: string)
    requires AllOpening(stack)
    ensures Dyck(stack + Closers(stack))
  {
    if stack != [] {
      var n := |stack| - 1;
      OpenAndClose(stack[..n]);
      Pair(stack[n]);
      DyckInsert(stack[..n], [stack[n], Closer(stack[n])], Closers(stack[..n]));
      assert stack[..n] + [stack[n], Closer(stack[n])] + Closers(stack[..n]) == stack + Closers(stack);
    }
  }

  /** The stack ends empty exactly on the balanced words. */
  lemma {:induction false} StackAcceptsDyck(w: string)
    requires AllBrackets(w)
    ensures RunWord([], w, 0) == Stack([]) <==> Dyck(w)
  {
    if RunWord([], w, 0) == Stack([]) {
      RunIsDyck([], w, 0);
      assert [] + (w + []) == w;
    }
    if Dyck(w) {
      DyckRuns(w, [], 0);
    }
  }

  /** Can more brackets still balance a word? */
  ghost predicate Completable(w: string) {
    exists more :: Dyck(w + more)
  }

  /** The stack gets stuck exactly on the words that no more brackets could balance. */
  lemma {:induction false} StuckMeansHopeless(w: string)
    requires AllBrackets(w)
    ensures RunWord([], w, 0).Stack? <==> Completable(w)
  {
    if RunWord([], w, 0).Stack? {
      RunIsDyck([], w, 0);
      var more := Closers(RunWord([], w, 0).stack);
      assert [] + (w + more) == w + more;
    }
    if more :| Dyck(w + more) {
      DyckRuns(w + more, [], 0);
      RunConcat([], w, more, 0);
    }
  }
}
