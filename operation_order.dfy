// Expressions of single digits, `+`, `*` and parentheses, evaluated with a value stack and an
// operator stack, either left to right or with addition binding tighter than multiplication.

module OperationOrder {

  datatype Option<T> = None | Some(value: T)

  datatype Token = Num(n: nat) | Add | Mul | Open | Close

  // ---------------------------------------------------------------------------------------
  // Tokens

  predicate IsAsciiWhitespace(c: char)
  {
    c == ' ' || c == '\t' || c == '\n' || c == '\U{000C}' || c == '\r'
  }

  /** The token a character stands for; `None` where the source panics on it. */
  function TokenOf(c: char): (r: Option<Token>)
    ensures r.Some? && r.value.Num? ==> r.value.n < 10
  {
    if '0' <= c <= '9' then Some(Num(c as int - '0' as int))
    else if c == '+' then Some(Add)
    else if c == '*' then Some(Mul)
    else if c == '(' then Some(Open)
    else if c == ')' then Some(Close)
    else None
  }

  /** The source's `parse`: the tokens of a line, whitespace skipped. */
  function Tokenize(line: string): (r: Option<seq<Token>>)
    ensures r.Some? ==> |r.value| <= |line|
  {
    if line == [] then Some([])
    else if IsAsciiWhitespace(line[0]) then Tokenize(line[1..])
    else
      match TokenOf(line[0])
      case None => None
      case Some(t) =>
        match Tokenize(line[1..])
        case None => None
        case Some(rest) => Some([t] + rest)
  }

  /** The character of a token. */
  function CharOf(t: Token): char
    requires t.Num? ==> t.n < 10
  {
    match t
    case Num(n) => ('0' as int + n) as char
    case Add => '+'
    case Mul => '*'
    case Open => '('
    case Close => ')'
  }

  predicate SingleDigits(ts: seq<Token>)
  {
    forall i :: 0 <= i < |ts| ==> ts[i].Num? ==> ts[i].n < 10
  }

  /** The tokens written out, one character each. */
  function Render(ts: seq<Token>): (r: string)
    requires SingleDigits(ts)
    ensures |r| == |ts|
  {
    if ts == [] then [] else [CharOf(ts[0])] + Render(ts[1..])
  }

  /** Tokenizing a rendering gives the tokens back. */
  lemma {:induction false} TokenizeRender(ts: seq<Token>)
    requires SingleDigits(ts)
    ensures Tokenize(Render(ts)) == Some(ts)
  {
    if ts != [] {
      var r := Render(ts);
      assert r[1..] == Render(ts[1..]);
      TokenizeRender(ts[1..]);
      assert TokenOf(r[0]) == Some(ts[0]);
      assert [ts[0]] + ts[1..] == ts;
    }
  }

  /** Whitespace anywhere changes nothing. */
  lemma {:induction false} TokenizeSpace(a: string, c: char, b: string)
    requires IsAsciiWhitespace(c)
    ensures Tokenize(a + [c] + b) == Tokenize(a + b)
    decreases |a|
  {
    if a == [] {
      assert (a + [c] + b)[1..] == b;
      assert a + b == b;
    } else {
      assert (a + [c] + b)[0] == a[0] && (a + b)[0] == a[0];
      assert (a + [c] + b)[1..] == a[1..] + [c] + b;
      assert (a + b)[1..] == a[1..] + b;
      TokenizeSpace(a[1..], c, b);
    }
  }

  // ---------------------------------------------------------------------------------------
  // The two stacks

  datatype State = State(values: seq<nat>, ops: seq<Token>)

  function Last<T>(s: seq<T>): T
    requires s != []
  {
    s[|s| - 1]
  }

  /** Whether `pop_ops` pops the operator `t`. */
  predicate Pops(t: Token, popMul: bool)
  {
    t == Add || (t == Mul && popMul)
  }

  /** The sum of two values for an addition, else their product. */
  function Apply(op: Token, a: nat, b: nat): nat
  {
    if op == Add then a + b else a * b
  }

  /** The source's `pop_ops`: applies the operators on top of the operator stack to the top two
      values while they are additions, or multiplications when `popMul` is set; `None` where a
      value is missing and the source panics. It stops at an opening parenthesis, keeps the
      operators below, and takes one value off the stack per operator applied. */
  function PopOps(s: State, popMul: bool): (r: Option<State>)
    ensures r.Some? ==> |r.value.ops| <= |s.ops| && r.value.ops == s.ops[..|r.value.ops|]
    ensures r.Some? ==> |r.value.values| + (|s.ops| - |r.value.ops|) == |s.values|
    decreases |s.ops|
  {
    if s.ops == [] || !Pops(Last(s.ops), popMul) then Some(s)
    else if |s.values| < 2 then None
    else
      var v2, v1 := Last(s.values), s.values[|s.values| - 2];
      var v := Apply(Last(s.ops), v1, v2);
      PopOps(State(s.values[..|s.values| - 2] + [v], s.ops[..|s.ops| - 1]), popMul)
  }

  /** How many operators on top of `ops` `pop_ops` would pop. */
  function TopRun(ops: seq<Token>, popMul: bool): (n: nat)
    ensures n <= |ops|
  {
    if ops == [] || !Pops(Last(ops), popMul) then 0 else TopRun(ops[..|ops| - 1], popMul) + 1
  }

  /** The operators counted are exactly the poppable ones on top: the one below them, if any,
      is not poppable. */
  lemma {:induction false} TopRunPops(ops: seq<Token>, popMul: bool)
    ensures var n := TopRun(ops, popMul);
      && (forall k :: |ops| - n <= k < |ops| ==> Pops(ops[k], popMul))
      && (n < |ops| ==> !Pops(ops[|ops| - n - 1], popMul))
  {
    if ops != [] && Pops(Last(ops), popMul) {
      var init := ops[..|ops| - 1];
      TopRunPops(init, popMul);
      var n := TopRun(ops, popMul);
      forall k | |ops| - n <= k < |ops| - 1 ensures Pops(ops[k], popMul) {
        assert ops[k] == init[k];
      }
      if n < |ops| {
        assert ops[|ops| - n - 1] == init[|init| - (n - 1) - 1];
      }
    }
  }

  /** `pop_ops` fails exactly when there is an operator to pop and no more values than
      operators to pop. */
  lemma {:induction false} PopOpsFails(s: State, popMul: bool)
    ensures var n := TopRun(s.ops, popMul); PopOps(s, popMul).None? <==> n > 0 && |s.values| <= n
    decreases |s.ops|
  {
    if s.ops != [] && Pops(Last(s.ops), popMul) && |s.values| >= 2 {
      var v2, v1 := Last(s.values), s.values[|s.values| - 2];
      var v := Apply(Last(s.ops), v1, v2);
      PopOpsFails(State(s.values[..|s.values| - 2] + [v], s.ops[..|s.ops| - 1]), popMul);
    }
  }

  /** What `pop_ops` leaves of the operator stack: the stack without its poppable top, so it
      never pops past an opening parenthesis and leaves nothing it may pop on top. */
  lemma PopOpsShape(s: State, popMul: bool)
    ensures var r := PopOps(s, popMul); var n := TopRun(s.ops, popMul); r.Some? ==>
      && r.value.ops == s.ops[..|s.ops| - n]
      && (r.value.ops == [] || !Pops(Last(r.value.ops), popMul))
  {
    PopOpsOps(s, popMul);
    TopRunPops(s.ops, popMul);
  }

  /** `pop_ops` removes exactly the poppable run on top of the operator stack. */
  lemma {:induction false} PopOpsOps(s: State, popMul: bool)
    ensures PopOps(s, popMul).Some? ==> PopOps(s, popMul).value.ops == s.ops[..|s.ops| - TopRun(s.ops, popMul)]
    decreases |s.ops|
  {
    if s.ops != [] && Pops(Last(s.ops), popMul) && |s.values| >= 2 {
      var v2, v1 := Last(s.values), s.values[|s.values| - 2];
      var v := Apply(Last(s.ops), v1, v2);
      var next := State(s.values[..|s.values| - 2] + [v], s.ops[..|s.ops| - 1]);
      assert PopOps(s, popMul) == PopOps(next, popMul);
      var n := TopRun(next.ops, popMul);
      assert TopRun(s.ops, popMul) == n + 1;
      PopOpsOps(next, popMul);
      assert next.ops[..|next.ops| - n] == s.ops[..|s.ops| - (n + 1)];
    }
  }

  /** What `pop_ops` leaves of the value stack: one value fewer per operator applied, and the
      values below those it combined untouched. */
  lemma {:induction false} PopOpsValues(s: State, popMul: bool)
    ensures var r := PopOps(s, popMul); var n := TopRun(s.ops, popMul); r.Some? ==>
      && |r.value.values| + n == |s.values|
      && (n > 0 ==> |r.value.values| >= 1 && r.value.values[..|r.value.values| - 1] == s.values[..|r.value.values| - 1])
    decreases |s.ops|
  {
    if s.ops != [] && Pops(Last(s.ops), popMul) && |s.values| >= 2 {
      var v2, v1 := Last(s.values), s.values[|s.values| - 2];
      var v := Apply(Last(s.ops), v1, v2);
      var next := State(s.values[..|s.values| - 2] + [v], s.ops[..|s.ops| - 1]);
      PopOpsValues(next, popMul);
      var r := PopOps(s, popMul);
      if r.Some? {
        var m := |r.value.values| - 1;
        assert next.values[..m] == s.values[..m];
      }
    }
  }

  /** One token, as the source's loop body handles it. */
  function Step(s: State, t: Token, addPrecedence: bool): Option<State>
  {
    match t
    case Num(n) => Some(State(s.values + [n], s.ops))
    case Open => Some(State(s.values, s.ops + [Open]))
    case Add =>
      (match PopOps(s, !addPrecedence)
       case None => None
       case Some(p) => Some(State(p.values, p.ops + [Add])))
    case Mul =>
      (match PopOps(s, true)
       case None => None
       case Some(p) => Some(State(p.values, p.ops + [Mul])))
    case Close =>
      match PopOps(s, true)
      case None => None
      case Some(p) => if p.ops != [] && Last(p.ops) == Open then Some(State(p.values, p.ops[..|p.ops| - 1])) else None
  }

  /** The tokens one after another. */
  function Run(s: State, ts: seq<Token>, addPrecedence: bool): Option<State>
    decreases |ts|
  {
    if ts == [] then Some(s)
    else
      match Step(s, ts[0], addPrecedence)
      case None => None
      case Some(s') => Run(s', ts[1..], addPrecedence)
  }

  /** The last `pop_ops` and the checks after the loop: no operator left, one value. */
  function Finish(s: State): Option<nat>
  {
    match PopOps(s, true)
    case None => None
    case Some(p) => if p.ops == [] && |p.values| == 1 then Some(p.values[0]) else None
  }

  /** The value of a line of tokens; `None` where the source panics. */
  function EvaluateTokens(ts: seq<Token>, addPrecedence: bool): (r: Option<nat>)
    ensures r.Some? ==> ts != []
  {
    match Run(State([], []), ts, addPrecedence)
    case None => None
    case Some(s) => Finish(s)
  }

  // ---------------------------------------------------------------------------------------
  // The source's procedures

  /** One pass of `pop_ops`'s loop. */
  lemma PopStep(vs: seq<nat>, os: seq<Token>, popMul: bool, v: nat)
    requires os != [] && Pops(Last(os), popMul) && |vs| >= 2
    requires v == Apply(Last(os), vs[|vs| - 2], Last(vs))
    ensures PopOps(State(vs, os), popMul) == PopOps(State(vs[..|vs| - 2] + [v], os[..|os| - 1]), popMul)
  {
  }

  /** The source's `pop_ops`, on the two stacks. */
  method PopOpsLoop(values: seq<nat>, ops: seq<Token>, popMul: bool) returns (r: Option<State>)
    ensures r == PopOps(State(values, ops), popMul)
  {
    var vs, os := values, ops;
    while os != [] && Pops(Last(os), popMul)
      invariant PopOps(State(values, ops), popMul) == PopOps(State(vs, os), popMul)
      decreases |os|
    {
      var op := Last(os);
      if |vs| < 2 {
        return None;
      }
      var v2 := Last(vs);
      var v1 := vs[|vs| - 2];
      var v := Apply(op, v1, v2);
      PopStep(vs, os, popMul, v);
      vs, os := vs[..|vs| - 2] + [v], os[..|os| - 1];
    }
    r := Some(State(vs, os));
  }

  /** The source's `evaluate` on the tokens of a line. */
  method Evaluate(ts: seq<Token>, addPrecedence: bool) returns (r: Option<nat>)
    ensures r == EvaluateTokens(ts, addPrecedence)
  {
    var values: seq<nat> := [];
    var ops: seq<Token> := [];
    for i := 0 to |ts|
      invariant Run(State([], []), ts, addPrecedence) == Run(State(values, ops), ts[i..], addPrecedence)
    {
      var t := ts[i];
      assert ts[i..][1..] == ts[i + 1..];
      match t {
        case Num(n) =>
          values := values + [n];
        case Open =>
          ops := ops + [t];
        case Add =>
          var p := PopOpsLoop(values, ops, !addPrecedence);
          if p.None? {
            return None;
          }
          values, ops := p.value.values, p.value.ops + [t];
        case Mul =>
          var p := PopOpsLoop(values, ops, true);
          if p.None? {
            return None;
          }
          values, ops := p.value.values, p.value.ops + [t];
        case Close =>
          var p := PopOpsLoop(values, ops, true);
          if p.None? {
            return None;
          }
          values, ops := p.value.values, p.value.ops;
          if ops == [] || Last(ops) != Open {
            return None;
          }
          ops := ops[..|ops| - 1];
      }
    }
    var p := PopOpsLoop(values, ops, true);
    if p.None? || p.value.ops != [] || |p.value.values| != 1 {
      return None;
    }
    r := Some(p.value.values[0]);
  }

  /** The value of a line; `None` where the source panics. */
  function EvaluateLine(line: string, addPrecedence: bool): Option<nat>
  {
    match Tokenize(line)
    case None => None
    case Some(ts) => EvaluateTokens(ts, addPrecedence)
  }

  /** The source's `run`: the sum of the values of the lines. */
  function SumLines(lines: seq<string>, addPrecedence: bool): Option<nat>
  {
    if lines == [] then Some(0)
    else
      match EvaluateLine(lines[0], addPrecedence)
      case None => None
      case Some(v) =>
        match SumLines(lines[1..], addPrecedence)
        case None => None
        case Some(rest) => Some(v + rest)
  }

  /** The sum over all lines fails exactly when some line fails. */
  lemma {:induction false} SumLinesFails(lines: seq<string>, addPrecedence: bool)
    ensures SumLines(lines, addPrecedence).None? <==>
      exists i :: 0 <= i < |lines| && EvaluateLine(lines[i], addPrecedence).None?
  {
    if lines != [] {
      SumLinesFails(lines[1..], addPrecedence);
      if exists i :: 0 <= i < |lines[1..]| && EvaluateLine(lines[1..][i], addPrecedence).None? {
        var i :| 0 <= i < |lines[1..]| && EvaluateLine(lines[1..][i], addPrecedence).None?;
        assert lines[i + 1] == lines[1..][i];
      }
      if exists i :: 0 <= i < |lines| && EvaluateLine(lines[i], addPrecedence).None? {
        var i :| 0 <= i < |lines| && EvaluateLine(lines[i], addPrecedence).None?;
        if i > 0 {
          assert lines[1..][i - 1] == lines[i];
        }
      }
    }
  }

  /** The sum over two blocks of lines is the sum of their sums. */
  lemma {:induction false} SumLinesAppend(a: seq<string>, b: seq<string>, addPrecedence: bool)
    ensures SumLines(a + b, addPrecedence) ==
      match (SumLines(a, addPrecedence), SumLines(b, addPrecedence))
      case (Some(x), Some(y)) => Some(x + y)
      case _ => None
  {
    if a == [] {
      assert a + b == b;
    } else {
      assert (a + b)[0] == a[0] && (a + b)[1..] == a[1..] + b;
      SumLinesAppend(a[1..], b, addPrecedence);
    }
  }

  /** The first puzzle: operators applied left to right. */
  function Star1(lines: seq<string>): (r: Option<nat>)
    ensures lines == [] ==> r == Some(0)
    ensures r.None? <==> exists i :: 0 <= i < |lines| && EvaluateLine(lines[i], false).None?
  {
    SumLinesFails(lines, false);
    SumLines(lines, false)
  }

  /** The second puzzle: addition before multiplication. */
  function Star2(lines: seq<string>): (r: Option<nat>)
    ensures lines == [] ==> r == Some(0)
    ensures r.None? <==> exists i :: 0 <= i < |lines| && EvaluateLine(lines[i], true).None?
  {
    SumLinesFails(lines, true);
    SumLines(lines, true)
  }

  // ---------------------------------------------------------------------------------------
  // Reference semantics: expression trees

  datatype Expr = Number(n: nat) | Plus(l: Expr, r: Expr) | Times(l: Expr, r: Expr) | Group(inner: Expr)

  function Value(e: Expr): nat
  {
    match e
    case Number(n) => n
    case Plus(l, r) => Value(l) + Value(r)
    case Times(l, r) => Value(l) * Value(r)
    case Group(inner) => Value(inner)
  }

  /** The tokens of a tree, a group written in parentheses. */
  function Show(e: Expr): seq<Token>
  {
    match e
    case Number(n) => [Num(n)]
    case Plus(l, r) => Show(l) + [Add] + Show(r)
    case Times(l, r) => Show(l) + [Mul] + Show(r)
    case Group(inner) => [Open] + Show(inner) + [Close]
  }

  predicate IsAtom(e: Expr)
  {
    e.Number? || e.Group?
  }

  /** The trees of the first reading: `+` and `*` have equal precedence and group to the left,
      so the right operand of every operator is a number or a group. */
  predicate LeftToRight(e: Expr)
  {
    match e
    case Number(_) => true
    case Group(inner) => LeftToRight(inner)
    case Plus(l, r) => IsAtom(r) && LeftToRight(l) && LeftToRight(r)
    case Times(l, r) => IsAtom(r) && LeftToRight(l) && LeftToRight(r)
  }

  /** An operand of the second reading: a number, or a group holding an `AddFirst` tree. */
  predicate AtomFirst(e: Expr)
    decreases e, 0
  {
    match e
    case Number(_) => true
    case Group(inner) => AddFirst(inner)
    case _ => false
  }

  /** A sum of operands, grouped to the left. */
  predicate SumFirst(e: Expr)
    decreases e, 1
  {
    AtomFirst(e) || (e.Plus? && SumFirst(e.l) && AtomFirst(e.r))
  }

  /** The trees of the second reading: `+` binds tighter than `*`, both group to the left, so a
      tree is a left-grouped product of sums of operands. */
  predicate AddFirst(e: Expr)
    decreases e, 2
  {
    SumFirst(e) || (e.Times? && AddFirst(e.l) && SumFirst(e.r))
  }

  predicate Digits(e: Expr)
  {
    match e
    case Number(n) => n < 10
    case Plus(l, r) => Digits(l) && Digits(r)
    case Times(l, r) => Digits(l) && Digits(r)
    case Group(inner) => Digits(inner)
  }

  // ---------------------------------------------------------------------------------------
  // The stack evaluator agrees with the trees

  /** Nothing pending: the operator stack is empty or has an opening parenthesis on top. */
  predicate Ready(ops: seq<Token>)
  {
    ops == [] || Last(ops) == Open
  }

  function Pushed(s: State, v: nat): State
  {
    State(s.values + [v], s.ops)
  }

  lemma {:induction false} RunAppend(s: State, a: seq<Token>, b: seq<Token>, ap: bool)
    ensures Run(s, a + b, ap) == match Run(s, a, ap) case None => None case Some(t) => Run(t, b, ap)
    decreases |a|
  {
    if a == [] {
      assert a + b == b;
    } else {
      assert (a + b)[0] == a[0] && (a + b)[1..] == a[1..] + b;
      match Step(s, a[0], ap)
      case None =>
      case Some(s') => RunAppend(s', a[1..], b, ap);
    }
  }

  /** `pop_ops` on an operator stack whose top it may not pop changes nothing. */
  lemma PopNothing(s: State, popMul: bool)
    requires s.ops == [] || !Pops(Last(s.ops), popMul)
    ensures PopOps(s, popMul) == Some(s)
  {
  }

  /** `pop_ops` applies one poppable operator and stops below it. */
  lemma PopOne(s: State, a: nat, b: nat, op: Token, popMul: bool)
    requires Pops(op, popMul) && (s.ops == [] || !Pops(Last(s.ops), popMul))
    ensures PopOps(State(s.values + [a, b], s.ops + [op]), popMul) ==
      Some(Pushed(s, Apply(op, a, b)))
  {
    var t := State(s.values + [a, b], s.ops + [op]);
    assert t.values[..|t.values| - 2] == s.values && t.ops[..|t.ops| - 1] == s.ops;
    PopNothing(Pushed(s, Apply(op, a, b)), popMul);
  }

  /** Popping additions first and then everything is popping everything. */
  lemma {:induction false} PopsCompose(s: State, p: State)
    requires PopOps(s, false) == Some(p)
    ensures PopOps(s, true) == PopOps(p, true)
    decreases |s.ops|
  {
    if s.ops != [] && Pops(Last(s.ops), false) {
      var v2, v1 := Last(s.values), s.values[|s.values| - 2];
      PopsCompose(State(s.values[..|s.values| - 2] + [Apply(Add, v1, v2)], s.ops[..|s.ops| - 1]), p);
    }
  }

  /** Which operators the operator `op` pops before it is pushed. */
  function PopFlag(op: Token, ap: bool): bool
  {
    if op == Add then !ap else true
  }

  /** Running a left operand, an operator and a right operand: once the left operand's pending
      operators are popped to its value and the operator pushed, the right operand runs. */
  lemma Chain(s: State, left: seq<Token>, op: Token, right: seq<Token>, ap: bool, vl: nat)
    requires op == Add || op == Mul
    requires var r := Run(s, left, ap); r.Some? && PopOps(r.value, PopFlag(op, ap)) == Some(Pushed(s, vl))
    ensures Run(s, left + [op] + right, ap) == Run(State(s.values + [vl], s.ops + [op]), right, ap)
  {
    assert left + [op] + right == left + ([op] + right);
    RunAppend(s, left, [op] + right, ap);
    var rl := Run(s, left, ap).value;
    assert Step(rl, op, ap) == Some(State(s.values + [vl], s.ops + [op]));
    RunAppend(rl, [op], right, ap);
  }

  /** An operand pushes its value, whatever is on the stacks. */
  lemma {:induction false} AtomRun(e: Expr, s: State, ap: bool)
    requires if ap then AtomFirst(e) else IsAtom(e) && LeftToRight(e)
    ensures Run(s, Show(e), ap) == Some(Pushed(s, Value(e)))
    decreases e, 0
  {
    match e
    case Number(n) =>
    case Group(inner) =>
      var s1 := State(s.values, s.ops + [Open]);
      RunAppend(s, [Open], Show(inner) + [Close], ap);
      assert [Open] + Show(inner) + [Close] == [Open] + (Show(inner) + [Close]);
      RunAppend(s1, Show(inner), [Close], ap);
      var r;
      if ap {
        ExprRun2(inner, s1);
      } else {
        ExprRun1(inner, s1);
      }
      r := Run(s1, Show(inner), ap).value;
      assert PopOps(r, true) == Some(Pushed(s1, Value(inner)));
      assert Pushed(s1, Value(inner)).ops[..|s.ops|] == s.ops;
  }

  /** A tree of the first reading, run from a stack with nothing pending, leaves a state from
      which popping everything gives its value. */
  lemma {:induction false} ExprRun1(e: Expr, s: State)
    requires LeftToRight(e) && Ready(s.ops)
    ensures var r := Run(s, Show(e), false); r.Some? && PopOps(r.value, true) == Some(Pushed(s, Value(e)))
    decreases e, 1
  {
    if IsAtom(e) {
      AtomRun(e, s, false);
      PopNothing(Pushed(s, Value(e)), true);
    } else {
      var op := if e.Plus? then Add else Mul;
      var vl, vr := Value(e.l), Value(e.r);
      var s1 := State(s.values + [vl], s.ops + [op]);
      var t := State(s.values + [vl, vr], s.ops + [op]);
      assert Value(e) == Apply(op, vl, vr);
      assert Run(s, Show(e), false) == Run(s1, Show(e.r), false) by {
        assert Show(e) == Show(e.l) + [op] + Show(e.r);
        ExprRun1(e.l, s);
        Chain(s, Show(e.l), op, Show(e.r), false, vl);
      }
      assert Run(s1, Show(e.r), false) == Some(t) by {
        AtomRun(e.r, s1, false);
        assert s.values + [vl] + [vr] == s.values + [vl, vr];
      }
      PopOne(s, vl, vr, op, true);
    }
  }

  /** A sum of operands, run from a stack without an addition on top, leaves a state from which
      popping the additions gives its value. */
  lemma {:induction false} SumRun2(e: Expr, s: State)
    requires SumFirst(e) && (s.ops == [] || Last(s.ops) != Add)
    ensures var r := Run(s, Show(e), true); r.Some? && PopOps(r.value, false) == Some(Pushed(s, Value(e)))
    decreases e, 1
  {
    if AtomFirst(e) {
      AtomRun(e, s, true);
      PopNothing(Pushed(s, Value(e)), false);
    } else {
      var vl, vr := Value(e.l), Value(e.r);
      SumRun2(e.l, s);
      AtomRun(e.r, State(s.values + [vl], s.ops + [Add]), true);
      assert s.values + [vl] + [vr] == s.values + [vl, vr];
      Chain(s, Show(e.l), Add, Show(e.r), true, vl);
      PopOne(s, vl, vr, Add, false);
    }
  }

  /** A tree of the second reading, run from a stack with nothing pending, leaves a state from
      which popping everything gives its value. */
  lemma {:induction false} ExprRun2(e: Expr, s: State)
    requires AddFirst(e) && Ready(s.ops)
    ensures var r := Run(s, Show(e), true); r.Some? && PopOps(r.value, true) == Some(Pushed(s, Value(e)))
    decreases e, 2
  {
    if SumFirst(e) {
      SumRun2(e, s);
      PopsCompose(Run(s, Show(e), true).value, Pushed(s, Value(e)));
      PopNothing(Pushed(s, Value(e)), true);
    } else {
      var vl, vr := Value(e.l), Value(e.r);
      var s1 := State(s.values + [vl], s.ops + [Mul]);
      var t := State(s.values + [vl, vr], s.ops + [Mul]);
      ExprRun2(e.l, s);
      Chain(s, Show(e.l), Mul, Show(e.r), true, vl);
      SumRun2(e.r, s1);
      assert Pushed(s1, vr) == t;
      PopsCompose(Run(s1, Show(e.r), true).value, t);
      PopOne(s, vl, vr, Mul, true);
    }
  }

  /** Without add precedence, a line evaluates as its operators applied left to right. */
  lemma LeftToRightCorrect(e: Expr)
    requires LeftToRight(e)
    ensures EvaluateTokens(Show(e), false) == Some(Value(e))
  {
    ExprRun1(e, State([], []));
  }

  /** With add precedence, a line evaluates with every sum taken before the products. */
  lemma AddFirstCorrect(e: Expr)
    requires AddFirst(e)
    ensures EvaluateTokens(Show(e), true) == Some(Value(e))
  {
    ExprRun2(e, State([], []));
  }

  lemma {:induction false} ShowDigits(e: Expr)
    requires Digits(e)
    ensures SingleDigits(Show(e))
  {
    match e
    case Number(_) =>
    case Plus(l, r) => ShowDigits(l); ShowDigits(r);
    case Times(l, r) => ShowDigits(l); ShowDigits(r);
    case Group(inner) => ShowDigits(inner);
  }

  /** The same for the written line. */
  lemma LineCorrect(e: Expr)
    requires Digits(e)
    ensures SingleDigits(Show(e))
    ensures SingleDigits(Show(e)) && LeftToRight(e) ==> EvaluateLine(Render(Show(e)), false) == Some(Value(e))
    ensures SingleDigits(Show(e)) && AddFirst(e) ==> EvaluateLine(Render(Show(e)), true) == Some(Value(e))
  {
    ShowDigits(e);
    TokenizeRender(Show(e));
    if LeftToRight(e) {
      LeftToRightCorrect(e);
    }
    if AddFirst(e) {
      AddFirstCorrect(e);
    }
  }
}
