/** Navigation-subsystem syntax checking: lines of brackets `()[]{}<>` are corrupted (a wrong
    closer), incomplete (openers left unclosed), or close on an empty stack (the source panics). */
module SyntaxScoring {

  datatype Option<T> = None | Some(value: T)

  /** The outcome of checking one line. `Incomplete` holds the closers still expected, innermost
      last; `Corrupted` holds the first closer that did not match; `Underflow` is a closer seen
      with nothing open, where the source panics. */
  datatype LineResult = Incomplete(expected: seq<char>) | Corrupted(found: char) | Underflow

  /** The closer that matches an opener, or None for any other character. */
  function CloserOf(c: char): (r: Option<char>)
    ensures r.Some? <==> c in "([{<"
    ensures r.Some? ==> IsCloser(r.value)
  {
    match c
    case '(' => Some(')')
    case '[' => Some(']')
    case '{' => Some('}')
    case '<' => Some('>')
    case _ => None
  }

  predicate IsCloser(c: char)
  {
    c == ')' || c == ']' || c == '}' || c == '>'
  }

  /** The Unicode White_Space characters, which `trim` strips. */
  predicate IsWhitespace(c: char)
  {
    c == ' ' || ('\t' <= c <= '\r') || c == '\U{0085}' || c == '\U{00A0}' || c == '\U{1680}' ||
    ('\U{2000}' <= c <= '\U{200A}') || c == '\U{2028}' || c == '\U{2029}' || c == '\U{202F}' ||
    c == '\U{205F}' || c == '\U{3000}'
  }

  /** The line without leading and trailing whitespace. */
  function Trim(s: string): (r: string)
    ensures |r| <= |s|
    ensures r != [] ==> !IsWhitespace(r[0]) && !IsWhitespace(r[|r| - 1])
    ensures forall i :: 0 <= i < |s| && !IsWhitespace(s[i]) ==> s[i] in r
  {
    if s == [] then []
    else if IsWhitespace(s[0]) then Trim(s[1..])
    else if IsWhitespace(s[|s| - 1]) then Trim(s[..|s| - 1])
    else s
  }

  /** `a..b` is a slice of `s`, and only whitespace lies before `a` and from `b` on. */
  ghost predicate BlankOutside(s: string, a: nat, b: nat)
  {
    a <= b <= |s| && forall i :: (0 <= i < a || b <= i < |s|) ==> IsWhitespace(s[i])
  }

  /** The trimmed line is a slice of the line with only whitespace cut off on either side. */
  lemma {:induction false} TrimSlice(s: string)
    ensures exists a: nat, b: nat :: a <= b <= |s| && Trim(s) == s[a..b] && BlankOutside(s, a, b)
  {
    if s == [] {
      assert Trim(s) == s[0..0] && BlankOutside(s, 0, 0);
    } else if IsWhitespace(s[0]) {
      TrimSlice(s[1..]);
      var a: nat, b: nat :| a <= b <= |s[1..]| && Trim(s[1..]) == s[1..][a..b] && BlankOutside(s[1..], a, b);
      BlankFront(s, a, b);
    } else if IsWhitespace(s[|s| - 1]) {
      TrimSlice(s[..|s| - 1]);
      var a: nat, b: nat :| a <= b <= |s| - 1 && Trim(s[..|s| - 1]) == s[..|s| - 1][a..b] &&
        BlankOutside(s[..|s| - 1], a, b);
      BlankBack(s, a, b);
    } else {
      assert Trim(s) == s[0..|s|] && BlankOutside(s, 0, |s|);
    }
  }

  lemma BlankFront(s: string, a: nat, b: nat)
    requires s != [] && IsWhitespace(s[0]) && a <= b <= |s| - 1 && BlankOutside(s[1..], a, b)
    ensures s[1..][a..b] == s[a + 1..b + 1] && BlankOutside(s, a + 1, b + 1)
  {
    forall i | 0 <= i < a + 1 || b + 1 <= i < |s| ensures IsWhitespace(s[i]) {
      if i > 0 {
        assert s[i] == s[1..][i - 1];
      }
    }
  }

  lemma BlankBack(s: string, a: nat, b: nat)
    requires s != [] && IsWhitespace(s[|s| - 1]) && a <= b <= |s| - 1 && BlankOutside(s[..|s| - 1], a, b)
    ensures s[..|s| - 1][a..b] == s[a..b] && BlankOutside(s, a, b)
  {
    forall i | 0 <= i < a || b <= i < |s| ensures IsWhitespace(s[i]) {
      if i < |s| - 1 {
        assert s[i] == s[..|s| - 1][i];
      }
    }
  }

  /** The checker as a function over the remaining characters and the stack of expected closers. */
  function Scan(stack: seq<char>, s: string): (r: LineResult)
    ensures r.Corrupted? ==> r.found in s && CloserOf(r.found).None?
    ensures r.Incomplete? ==> |r.expected| <= |stack| + |s|
    decreases s
  {
    if s == [] then Incomplete(stack)
    else match CloserOf(s[0])
      case Some(cl) => Scan(stack + [cl], s[1..])
      case None =>
        if stack == [] then Underflow
        else if s[0] != stack[|stack| - 1] then Corrupted(s[0])
        else Scan(stack[..|stack| - 1], s[1..])
  }

  /** The source's loop over the trimmed line, pushing the closer of each opener and popping on
      every other character. */
  method EvaluateLine(line: string) returns (r: LineResult)
    ensures r == Scan([], Trim(line))
  {
    var s := Trim(line);
    var stack: seq<char> := [];
    var i := 0;
    while i < |s|
      invariant 0 <= i <= |s|
      invariant Scan([], s) == Scan(stack, s[i..])
    {
      var c := s[i];
      assert s[i..][1..] == s[i + 1..];
      match CloserOf(c) {
        case Some(cl) =>
          stack := stack + [cl];
        case None =>
          if stack == [] {
            return Underflow;
          }
          var top := stack[|stack| - 1];
          stack := stack[..|stack| - 1];
          if c != top {
            return Corrupted(c);
          }
      }
      i := i + 1;
    }
    r := Incomplete(stack);
  }

  /** Scanning a concatenation continues from where the first part left off. */
  lemma {:induction false} ScanAppend(stack: seq<char>, a: string, b: string)
    ensures Scan(stack, a + b) ==
      match Scan(stack, a)
      case Incomplete(e) => Scan(e, b)
      case other => other
    decreases a
  {
    if a == [] {
      assert a + b == b;
    } else {
      assert (a + b)[1..] == a[1..] + b;
      match CloserOf(a[0])
      case Some(cl) => ScanAppend(stack + [cl], a[1..], b);
      case None =>
        if stack != [] && a[0] == stack[|stack| - 1] {
          ScanAppend(stack[..|stack| - 1], a[1..], b);
        }
    }
  }

  function Reversed(s: seq<char>): (r: seq<char>)
    ensures |r| == |s|
    ensures forall i :: 0 <= i < |s| ==> r[i] == s[|s| - 1 - i]
  {
    if s == [] then [] else [s[|s| - 1]] + Reversed(s[..|s| - 1])
  }

  /** Feeding the expected closers back innermost first empties the stack. */
  lemma {:induction false} ClosingEmptiesStack(e: seq<char>)
    requires forall i :: 0 <= i < |e| ==> IsCloser(e[i])
    ensures Scan(e, Reversed(e)) == Incomplete([])
  {
    if e != [] {
      var rest, r := e[..|e| - 1], Reversed(e);
      assert r[0] == e[|e| - 1] && IsCloser(r[0]) && CloserOf(r[0]).None?;
      assert r[1..] == Reversed(rest);
      assert Scan(e, r) == Scan(rest, r[1..]);
      ClosingEmptiesStack(rest);
    }
  }

  /** Every stack the scan builds from an empty start holds only closers. */
  lemma {:induction false} ScanStackClosers(stack: seq<char>, s: string)
    requires forall i :: 0 <= i < |stack| ==> IsCloser(stack[i])
    ensures Scan(stack, s).Incomplete? ==>
      forall i :: 0 <= i < |Scan(stack, s).expected| ==> IsCloser(Scan(stack, s).expected[i])
    decreases s
  {
    if s != [] {
      match CloserOf(s[0])
      case Some(cl) => ScanStackClosers(stack + [cl], s[1..]);
      case None =>
        if stack != [] && s[0] == stack[|stack| - 1] {
          ScanStackClosers(stack[..|stack| - 1], s[1..]);
        }
    }
  }

  /** An incomplete line followed by its completion string (the expected closers, innermost
      first) is complete: nothing is left open and nothing is corrupted. */
  lemma CompletionCloses(line: string)
    requires Scan([], line).Incomplete?
    ensures Scan([], line + Reversed(Scan([], line).expected)) == Incomplete([])
  {
    var e := Scan([], line).expected;
    ScanAppend([], line, Reversed(e));
    ScanStackClosers([], line);
    ClosingEmptiesStack(e);
  }

  /** Position `i` of `s` holds a non-opener that does not match the closer the prefix before it
      expects. */
  predicate MismatchAt(stack: seq<char>, s: string, i: nat)
  {
    i < |s| && CloserOf(s[i]).None? &&
    match Scan(stack, s[..i])
    case Incomplete(e) => e != [] && e[|e| - 1] != s[i]
    case _ => false
  }

  /** A corrupted line is corrupted at its first mismatching character: the prefix before it
      scans as incomplete with a different closer on top of the stack. */
  lemma {:induction false} CorruptedAtFirstMismatch(stack: seq<char>, s: string)
    requires Scan(stack, s).Corrupted?
    ensures exists i: nat :: MismatchAt(stack, s, i) && s[i] == Scan(stack, s).found
    decreases s
  {
    var c := Scan(stack, s).found;
    match CloserOf(s[0])
    case Some(cl) =>
      CorruptedAtFirstMismatch(stack + [cl], s[1..]);
      var i: nat :| MismatchAt(stack + [cl], s[1..], i) && s[1..][i] == c;
      MismatchShift(stack, s, stack + [cl], i);
    case None =>
      if s[0] != stack[|stack| - 1] {
        assert s[..0] == [];
        assert MismatchAt(stack, s, 0);
      } else {
        CorruptedAtFirstMismatch(stack[..|stack| - 1], s[1..]);
        var i: nat :| MismatchAt(stack[..|stack| - 1], s[1..], i) && s[1..][i] == c;
        MismatchShift(stack, s, stack[..|stack| - 1], i);
      }
  }

  /** A mismatch after the first character, scanned with the stack that character leaves, is a
      mismatch of the whole line one position further on. */
  lemma MismatchShift(stack: seq<char>, s: string, next: seq<char>, i: nat)
    requires s != [] && MismatchAt(next, s[1..], i)
    requires match CloserOf(s[0])
      case Some(cl) => next == stack + [cl]
      case None => stack != [] && s[0] == stack[|stack| - 1] && next == stack[..|stack| - 1]
    ensures MismatchAt(stack, s, i + 1) && s[i + 1] == s[1..][i]
  {
    var p := s[..i + 1];
    assert p[0] == s[0] && p[1..] == s[1..][..i];
    assert Scan(stack, p) == Scan(next, s[1..][..i]);
  }

  /** The digit each closer contributes to a completion score. */
  function CloserPoints(c: char): nat
  {
    match c
    case ')' => 1
    case ']' => 2
    case '}' => 3
    case '>' => 4
    case _ => 0
  }

  /** Folds `acc * 5 + points` over the characters from left to right. */
  function FoldPoints(acc: nat, t: seq<char>): nat
    decreases t
  {
    if t == [] then acc else FoldPoints(acc * 5 + CloserPoints(t[0]), t[1..])
  }

  /** The completion score of an incomplete line: the fold over its expected closers, taken
      innermost first, i.e. a base-5 number whose digits 1 to 4 stand for `) ] } >`. */
  function CompletionScore(expected: seq<char>): (r: nat)
    ensures expected != [] ==> r % 5 == CloserPoints(expected[0]) && r / 5 == CompletionScore(expected[1..])
  {
    if expected != [] then
      assert Reversed(expected) == Reversed(expected[1..]) + [expected[0]];
      FoldPointsSnoc(0, Reversed(expected[1..]), expected[0]);
      FoldPoints(0, Reversed(expected))
    else
      FoldPoints(0, Reversed(expected))
  }

  /** Folding one more character multiplies by 5 and adds its points. */
  lemma {:induction false} FoldPointsSnoc(acc: nat, t: seq<char>, c: char)
    ensures FoldPoints(acc, t + [c]) == FoldPoints(acc, t) * 5 + CloserPoints(c)
    decreases t
  {
    if t != [] {
      assert (t + [c])[1..] == t[1..] + [c];
      FoldPointsSnoc(acc * 5 + CloserPoints(t[0]), t[1..], c);
    }
  }

  /** Different completion strings never get the same score, and only the empty one scores 0. */
  lemma {:induction false} FoldPointsInjective(t: seq<char>, u: seq<char>)
    requires forall i :: 0 <= i < |t| ==> IsCloser(t[i])
    requires forall i :: 0 <= i < |u| ==> IsCloser(u[i])
    requires FoldPoints(0, t) == FoldPoints(0, u)
    ensures t == u
    decreases |t|
  {
    if t != [] && u != [] {
      var t0, c := t[..|t| - 1], t[|t| - 1];
      var u0, d := u[..|u| - 1], u[|u| - 1];
      assert t0 + [c] == t && u0 + [d] == u;
      assert IsCloser(c) && IsCloser(d);
      LastCloser(t0, c, u0, d);
      assert forall i :: 0 <= i < |t0| ==> t0[i] == t[i];
      assert forall i :: 0 <= i < |u0| ==> u0[i] == u[i];
      FoldPointsInjective(t0, u0);
    } else if t != [] {
      FoldPointsPositive(t);
    } else if u != [] {
      FoldPointsPositive(u);
    }
  }

  /** Two closer strings with equal scores end in the same closer, and their fronts score alike. */
  lemma LastCloser(t0: seq<char>, c: char, u0: seq<char>, d: char)
    requires IsCloser(c) && IsCloser(d) && FoldPoints(0, t0 + [c]) == FoldPoints(0, u0 + [d])
    ensures c == d && FoldPoints(0, t0) == FoldPoints(0, u0)
  {
    FoldPointsSnoc(0, t0, c);
    FoldPointsSnoc(0, u0, d);
    var a, b := FoldPoints(0, t0), FoldPoints(0, u0);
    LastDigit(a, CloserPoints(c), b, CloserPoints(d));
  }

  /** Two base-5 numbers with last digits 1 to 4 are equal only digit by digit. */
  lemma LastDigit(a: nat, p: nat, b: nat, q: nat)
    requires 1 <= p <= 4 && 1 <= q <= 4 && a * 5 + p == b * 5 + q
    ensures p == q && a == b
  {
  }

  /** A non-empty string of closers scores more than 0. */
  lemma FoldPointsPositive(t: seq<char>)
    requires t != [] && forall i :: 0 <= i < |t| ==> IsCloser(t[i])
    ensures FoldPoints(0, t) > 0
  {
    var t0, c := t[..|t| - 1], t[|t| - 1];
    assert t0 + [c] == t;
    FoldPointsSnoc(0, t0, c);
    assert IsCloser(c);
  }

  /** Distinct sets of expected closers have distinct completion scores. */
  lemma CompletionScoreInjective(e: seq<char>, f: seq<char>)
    requires forall i :: 0 <= i < |e| ==> IsCloser(e[i])
    requires forall i :: 0 <= i < |f| ==> IsCloser(f[i])
    requires CompletionScore(e) == CompletionScore(f)
    ensures e == f
  {
    var re, rf := Reversed(e), Reversed(f);
    forall i | 0 <= i < |re|
      ensures IsCloser(re[i])
    {
      assert re[i] == e[|e| - 1 - i];
    }
    forall i | 0 <= i < |rf|
      ensures IsCloser(rf[i])
    {
      assert rf[i] == f[|f| - 1 - i];
    }
    FoldPointsInjective(re, rf);
    forall i | 0 <= i < |e|
      ensures e[i] == f[i]
    {
      var j := |e| - 1 - i;
      assert re[j] == e[i] && rf[j] == f[i];
    }
  }
}
