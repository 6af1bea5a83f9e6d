/** The register machine shared by the "Duet" and "Coprocessor Conflagration" puzzles: 26
    registers `a`..`z` holding 64-bit integers, a program counter and a receive queue. */
module Processor {

  datatype Option<T> = None | Some(value: T)

  const MinI64: int := -0x8000_0000_0000_0000
  const MaxI64: int := 0x7fff_ffff_ffff_ffff

  type I64 = x: int | MinI64 <= x <= MaxI64

  /** Two's-complement wrap-around into 64 bits, as release builds do on overflow. */
  function Wrap(x: int): (r: I64)
    ensures (r - x) % 0x1_0000_0000_0000_0000 == 0
    ensures MinI64 <= x <= MaxI64 ==> r == x
  {
    (x - MinI64) % 0x1_0000_0000_0000_0000 + MinI64
  }

  /** The remainder of Rust's `%`: the quotient is truncated toward zero, so the remainder takes
      the sign of the dividend. */
  function Rem(a: int, b: int): int
    requires b != 0
  {
    var r := (if a < 0 then -a else a) % (if b < 0 then -b else b);
    if a < 0 then -r else r
  }

  /** The quotient of Rust's `/`, truncated toward zero. */
  function Quot(a: int, b: int): int
    requires b != 0
  {
    var q := (if a < 0 then -a else a) / (if b < 0 then -b else b);
    if (a < 0) == (b < 0) then q else -q
  }

  /** Division and remainder fit together: `a == b * Quot(a, b) + Rem(a, b)`. */
  lemma RemQuot(a: int, b: int)
    requires b != 0
    ensures a == b * Quot(a, b) + Rem(a, b)
  {
    var aa, bb := if a < 0 then -a else a, if b < 0 then -b else b;
    var q, r := aa / bb, aa % bb;
    assert aa == bb * q + r;
    var quo := if (a < 0) == (b < 0) then q else -q;
    assert Quot(a, b) == quo && Rem(a, b) == (if a < 0 then -r else r);
    MulNeg(bb, q);
    assert b * quo == if a < 0 then -(bb * q) else bb * q;
  }

  /** The remainder is smaller than the divisor in magnitude and is zero or has the sign of `a`. */
  lemma RemSign(a: int, b: int)
    requires b != 0
    ensures -(if b < 0 then -b else b) < Rem(a, b) < (if b < 0 then -b else b)
    ensures a >= 0 ==> Rem(a, b) >= 0
    ensures a <= 0 ==> Rem(a, b) <= 0
  {
    var aa, bb := if a < 0 then -a else a, if b < 0 then -b else b;
    var r := aa % bb;
    assert 0 <= r < bb;
    assert Rem(a, b) == if a < 0 then -r else r;
  }

  lemma MulNeg(x: int, y: int)
    ensures (-x) * y == -(x * y) && x * (-y) == -(x * y) && (-x) * (-y) == x * y
  {
  }

  // ---------------------------------------------------------------------------------------
  // Instructions

  type RegIndex = i: int | 0 <= i < 26

  /** A register name, stored as its offset from `a`. */
  datatype Register = Register(index: RegIndex)

  datatype RegImm = Reg(reg: Register) | Imm(value: I64)

  datatype Instruction =
    | Snd(val: RegImm)
    | Rcv(dst: Register)
    | Set(dst: Register, src: RegImm)
    | Add(dst: Register, src: RegImm)
    | Sub(dst: Register, src: RegImm)
    | Mul(dst: Register, src: RegImm)
    | Mod(dst: Register, src: RegImm)
    | Jgz(cond: RegImm, offset: RegImm)
    | Jnz(cond: RegImm, offset: RegImm)

  /** A register parses from exactly one character `a`..`z`. */
  function ParseRegister(s: string): (r: Option<Register>)
    ensures r.Some? <==> |s| == 1 && 'a' <= s[0] <= 'z'
    ensures r.Some? ==> r.value.index == s[0] as int - 'a' as int
  {
    if |s| == 1 && 'a' <= s[0] <= 'z' then Some(Register(s[0] as int - 'a' as int)) else None
  }

  function RegisterName(r: Register): string
  {
    [(r.index + 'a' as int) as char]
  }

  /** Every register's name parses back to it. */
  lemma RegisterRoundTrip(r: Register)
    ensures ParseRegister(RegisterName(r)) == Some(r)
  {
  }

  predicate IsDigit(c: char)
  {
    '0' <= c <= '9'
  }

  predicate IsDigits(s: string)
  {
    s != [] && forall i :: 0 <= i < |s| ==> IsDigit(s[i])
  }

  /** The value of a non-empty run of decimal digits, read most significant first. */
  function DigitsValue(s: string): nat
    requires IsDigits(s)
  {
    var d := s[|s| - 1] as int - '0' as int;
    if |s| == 1 then d else DigitsValue(s[..|s| - 1]) * 10 + d
  }

  /** The text an `i64` parses from: an optional `+` or `-`, then at least one digit. */
  predicate IsIntegerText(s: string)
  {
    IsDigits(s) || (|s| >= 2 && (s[0] == '+' || s[0] == '-') && IsDigits(s[1..]))
  }

  function IntegerTextValue(s: string): int
    requires IsIntegerText(s)
  {
    if IsDigits(s) then DigitsValue(s)
    else if s[0] == '-' then 0 - DigitsValue(s[1..])
    else DigitsValue(s[1..])
  }

  /** Rust's `i64` parsing: well-formed integer text whose value fits in 64 bits. */
  function ParseI64(s: string): (r: Option<I64>)
    ensures r.Some? <==> IsIntegerText(s) && MinI64 <= IntegerTextValue(s) <= MaxI64
    ensures r.Some? ==> r.value == IntegerTextValue(s)
  {
    if IsIntegerText(s) && MinI64 <= IntegerTextValue(s) <= MaxI64 then Some(IntegerTextValue(s)) else None
  }

  function NatText(n: nat): (s: string)
    ensures IsDigits(s)
    decreases n
  {
    var d := [((n % 10) + '0' as int) as char];
    if n < 10 then d else NatText(n / 10) + d
  }

  /** The decimal text of an integer; negative numbers get a `-`. */
  function IntText(v: int): string
  {
    if v < 0 then "-" + NatText(-v) else NatText(v)
  }

  lemma {:induction false} DigitsOfNatText(n: nat)
    ensures DigitsValue(NatText(n)) == n
    decreases n
  {
    if n >= 10 {
      var s := NatText(n);
      assert s[..|s| - 1] == NatText(n / 10);
      DigitsOfNatText(n / 10);
    }
  }

  /** Every 64-bit value parses back from its decimal text. */
  lemma IntTextRoundTrip(v: I64)
    ensures ParseI64(IntText(v)) == Some(v)
  {
    if v < 0 {
      var s := IntText(v);
      assert s[1..] == NatText(-(v as int));
      DigitsOfNatText(-(v as int));
    } else {
      DigitsOfNatText(v);
    }
  }

  /** An operand is an immediate when its text is an integer, and a register otherwise. */
  function ParseRegImm(s: string): (r: Option<RegImm>)
    ensures ParseI64(s).Some? ==> r == Some(Imm(ParseI64(s).value))
    ensures ParseI64(s).None? ==> (r.Some? <==> ParseRegister(s).Some?)
    ensures ParseI64(s).None? && r.Some? ==> r == Some(Reg(ParseRegister(s).value))
  {
    match ParseI64(s)
    case Some(v) => Some(Imm(v))
    case None =>
      match ParseRegister(s)
      case Some(reg) => Some(Reg(reg))
      case None => None
  }

  function RegImmText(x: RegImm): string
  {
    match x
    case Reg(r) => RegisterName(r)
    case Imm(v) => IntText(v)
  }

  lemma RegImmRoundTrip(x: RegImm)
    ensures ParseRegImm(RegImmText(x)) == Some(x)
  {
    match x
    case Reg(r) =>
    case Imm(v) => IntTextRoundTrip(v);
  }

  /** The Unicode White_Space characters, which separate tokens. */
  predicate IsWhitespace(c: char)
  {
    c == ' ' || ('\t' <= c <= '\r') || c == '\U{0085}' || c == '\U{00A0}' || c == '\U{1680}' ||
    ('\U{2000}' <= c <= '\U{200A}') || c == '\U{2028}' || c == '\U{2029}' || c == '\U{202F}' ||
    c == '\U{205F}' || c == '\U{3000}'
  }

  predicate IsWord(w: string)
  {
    w != [] && forall i :: 0 <= i < |w| ==> !IsWhitespace(w[i])
  }

  /** The maximal runs of non-whitespace of `s`, `cur` being the run read so far. */
  function TokensFrom(s: string, cur: string): seq<string>
    decreases s
  {
    if s == [] then (if cur == [] then [] else [cur])
    else if IsWhitespace(s[0]) then (if cur == [] then [] else [cur]) + TokensFrom(s[1..], [])
    else TokensFrom(s[1..], cur + [s[0]])
  }

  /** `split_whitespace`. */
  function Tokens(s: string): seq<string>
  {
    TokensFrom(s, [])
  }

  /** The opcodes taking a single operand. */
  predicate IsUnaryOpcode(op: string)
  {
    op == "snd" || op == "rcv"
  }

  /** The instruction a register-and-operand opcode builds. */
  function MakeBinary(op: string, r: Register, v: RegImm): Option<Instruction>
  {
    match op
    case "set" => Some(Set(r, v))
    case "add" => Some(Add(r, v))
    case "sub" => Some(Sub(r, v))
    case "mul" => Some(Mul(r, v))
    case "mod" => Some(Mod(r, v))
    case _ => None
  }

  /** The instruction a jump opcode builds. */
  function MakeJump(op: string, c: RegImm, o: RegImm): Option<Instruction>
  {
    match op
    case "jgz" => Some(Jgz(c, o))
    case "jnz" => Some(Jnz(c, o))
    case _ => None
  }

  /** Parses the tokens of one line: `snd` and `rcv` take exactly one operand, the other
      opcodes exactly two, and an unknown opcode or operand is an error. */
  function ParseWords(t: seq<string>): (r: Option<Instruction>)
    ensures r.Some? ==> |t| >= 2 && |t| == (if IsUnaryOpcode(t[0]) then 2 else 3)
    ensures r.Some? ==> t[0] in {"snd", "rcv", "set", "add", "sub", "mul", "mod", "jgz", "jnz"}
  {
    if |t| < 2 then None
    else if IsUnaryOpcode(t[0]) then
      if |t| != 2 then None
      else if t[0] == "snd" then (match ParseRegImm(t[1]) case Some(v) => Some(Snd(v)) case None => None)
      else (match ParseRegister(t[1]) case Some(reg) => Some(Rcv(reg)) case None => None)
    else if |t| != 3 then None
    else if t[0] == "jgz" || t[0] == "jnz" then
      match (ParseRegImm(t[1]), ParseRegImm(t[2]))
      case (Some(c), Some(o)) => MakeJump(t[0], c, o)
      case _ => None
    else
      match (ParseRegister(t[1]), ParseRegImm(t[2]))
      case (Some(reg), Some(v)) => MakeBinary(t[0], reg, v)
      case _ => None
  }

  /** Parses one line of a program. */
  function ParseInstruction(s: string): (r: Option<Instruction>)
    ensures r.Some? ==> var t := Tokens(s); |t| == |InstructionWords(r.value)| > 0 && t[0] == InstructionWords(r.value)[0]
  {
    ParseWords(Tokens(s))
  }

  /** The instruction's tokens, in the order the parser reads them. */
  function InstructionWords(i: Instruction): seq<string>
  {
    match i
    case Snd(v) => ["snd", RegImmText(v)]
    case Rcv(r) => ["rcv", RegisterName(r)]
    case Set(r, v) => ["set", RegisterName(r), RegImmText(v)]
    case Add(r, v) => ["add", RegisterName(r), RegImmText(v)]
    case Sub(r, v) => ["sub", RegisterName(r), RegImmText(v)]
    case Mul(r, v) => ["mul", RegisterName(r), RegImmText(v)]
    case Mod(r, v) => ["mod", RegisterName(r), RegImmText(v)]
    case Jgz(c, o) => ["jgz", RegImmText(c), RegImmText(o)]
    case Jnz(c, o) => ["jnz", RegImmText(c), RegImmText(o)]
  }

  function JoinWords(ws: seq<string>): string
  {
    if ws == [] then "" else if |ws| == 1 then ws[0] else ws[0] + " " + JoinWords(ws[1..])
  }

  /** How an instruction is written in a program listing. */
  function InstructionText(i: Instruction): string
  {
    JoinWords(InstructionWords(i))
  }

  lemma {:induction false} TokensWord(w: string, rest: string, cur: string)
    requires forall i :: 0 <= i < |w| ==> !IsWhitespace(w[i])
    ensures TokensFrom(w + rest, cur) == TokensFrom(rest, cur + w)
    decreases w
  {
    if w == [] {
      assert w + rest == rest && cur + w == cur;
    } else {
      assert (w + rest)[1..] == w[1..] + rest;
      assert cur + w == (cur + [w[0]]) + w[1..];
      TokensWord(w[1..], rest, cur + [w[0]]);
    }
  }

  /** Words joined by single spaces split back into the same words. */
  lemma {:induction false} TokensOfJoin(ws: seq<string>)
    requires forall k :: 0 <= k < |ws| ==> IsWord(ws[k])
    ensures Tokens(JoinWords(ws)) == ws
  {
    if ws == [] {
    } else if |ws| == 1 {
      TokensWord(ws[0], [], []);
      assert ws[0] + [] == ws[0] && [] + ws[0] == ws[0];
    } else {
      var rest := " " + JoinWords(ws[1..]);
      assert JoinWords(ws) == ws[0] + rest;
      TokensWord(ws[0], rest, []);
      assert [] + ws[0] == ws[0];
      assert rest[1..] == JoinWords(ws[1..]);
      TokensOfJoin(ws[1..]);
      assert Tokens(JoinWords(ws)) == [ws[0]] + ws[1..];
    }
  }

  lemma NatTextIsWord(n: nat)
    ensures IsWord(NatText(n))
  {
  }

  lemma OperandIsWord(x: RegImm)
    ensures IsWord(RegImmText(x))
  {
    match x
    case Reg(r) =>
    case Imm(v) =>
      NatTextIsWord(if v < 0 then -(v as int) else v);
      if v < 0 {
        assert IntText(v) == "-" + NatText(-(v as int));
      }
  }

  lemma InstructionWordsAreWords(i: Instruction)
    ensures forall k :: 0 <= k < |InstructionWords(i)| ==> IsWord(InstructionWords(i)[k])
  {
    match i
    case Snd(v) => OperandIsWord(v);
    case Rcv(r) =>
    case Jgz(c, o) => OperandIsWord(c); OperandIsWord(o);
    case Jnz(c, o) => OperandIsWord(c); OperandIsWord(o);
    case _ => OperandIsWord(i.src);
  }

  /** Every instruction parses back from its listing. */
  lemma InstructionRoundTrip(i: Instruction)
    ensures ParseInstruction(InstructionText(i)) == Some(i)
  {
    InstructionWordsAreWords(i);
    TokensOfJoin(InstructionWords(i));
    WordsRoundTrip(i);
  }

  /** Every instruction parses back from its words. */
  lemma WordsRoundTrip(i: Instruction)
    ensures ParseWords(InstructionWords(i)) == Some(i)
  {
    match i
    case Snd(v) => RegImmRoundTrip(v);
    case Rcv(r) => RegisterRoundTrip(r);
    case Jgz(c, o) => JumpRoundTrip("jgz", c, o);
    case Jnz(c, o) => JumpRoundTrip("jnz", c, o);
    case _ => BinaryRoundTrip(InstructionWords(i)[0], i.dst, i.src);
  }

  lemma JumpRoundTrip(op: string, c: RegImm, o: RegImm)
    requires op == "jgz" || op == "jnz"
    ensures ParseWords([op, RegImmText(c), RegImmText(o)]) == MakeJump(op, c, o)
  {
    RegImmRoundTrip(c);
    RegImmRoundTrip(o);
  }

  lemma BinaryRoundTrip(op: string, r: Register, v: RegImm)
    requires op in {"set", "add", "sub", "mul", "mod"}
    ensures ParseWords([op, RegisterName(r), RegImmText(v)]) == MakeBinary(op, r, v)
  {
    RegisterRoundTrip(r);
    RegImmRoundTrip(v);
  }

  // ---------------------------------------------------------------------------------------
  // Execution

  /** A snapshot of an execution state. */
  datatype Machine = Machine(pc: I64, regs: seq<I64>, queue: seq<I64>, blocked: bool)

  datatype StepResult = Running | Sent(value: I64) | ReceiveBlocked | Terminated

  /** The value of an operand in the given registers. */
  function ValueOf(x: RegImm, regs: seq<I64>): I64
    requires |regs| == 26
  {
    match x
    case Reg(r) => regs[r.index]
    case Imm(v) => v
  }

  predicate InRange(program: seq<Instruction>, pc: int)
  {
    0 <= pc < |program|
  }

  /** The step does not reach one of the remainders that panic even in release builds: by zero,
      or of the smallest value by -1. */
  predicate NoRemainderFault(program: seq<Instruction>, m: Machine)
    requires |m.regs| == 26
  {
    InRange(program, m.pc) && program[m.pc].Mod? ==>
      var d := ValueOf(program[m.pc].src, m.regs);
      d != 0 && !(m.regs[program[m.pc].dst.index] == MinI64 && d == -1)
  }

  /** The register an arithmetic instruction writes. */
  function ArithmeticResult(i: Instruction, x: I64, v: I64): I64
    requires i.Set? || i.Add? || i.Sub? || i.Mul? || i.Mod?
    requires i.Mod? ==> v != 0 && !(x == MinI64 && v == -1)
  {
    match i
    case Set(_, _) => v
    case Add(_, _) => Wrap(x + v)
    case Sub(_, _) => Wrap(x - v)
    case Mul(_, _) => Wrap(x * v)
    case Mod(_, _) => Rem(x, v)
  }

  /** One step of the machine: Terminated without change outside the program; otherwise the
      instruction at pc runs and pc moves on. */
  function Step(program: seq<Instruction>, m: Machine): (r: (Machine, StepResult))
    requires |program| <= MaxI64 && |m.regs| == 26 && NoRemainderFault(program, m)
    ensures |r.0.regs| == 26
    ensures !InRange(program, m.pc) ==> r.1.Terminated?
    ensures InRange(program, m.pc) ==> var i := program[m.pc];
      && !r.1.Terminated?
      && (r.1.Sent? <==> i.Snd?)
      && (r.1.ReceiveBlocked? <==> i.Rcv? && m.queue == [])
      && r.0.blocked == (if i.Rcv? then m.queue == [] else m.blocked)
  {
    if !InRange(program, m.pc) then (m, Terminated)
    else
      var next := m.(pc := m.pc + 1);
      match program[m.pc]
      case Snd(v) => (next, Sent(ValueOf(v, m.regs)))
      case Rcv(r) =>
        if m.queue == [] then (m.(blocked := true), ReceiveBlocked)
        else (next.(regs := m.regs[r.index := m.queue[0]], queue := m.queue[1..], blocked := false), Running)
      case Jgz(c, o) =>
        (if ValueOf(c, m.regs) > 0 then m.(pc := Wrap(m.pc + ValueOf(o, m.regs))) else next, Running)
      case Jnz(c, o) =>
        (if ValueOf(c, m.regs) != 0 then m.(pc := Wrap(m.pc + ValueOf(o, m.regs))) else next, Running)
      case _ =>
        var i := program[m.pc];
        var x := m.regs[i.dst.index];
        var v := ValueOf(i.src, m.regs);
        (next.(regs := m.regs[i.dst.index := ArithmeticResult(i, x, v)]), Running)
  }

  /** The current state while running a program. */
  class ExecutionState {
    var pc: I64
    const regs: array<I64>
    var receiveQueue: seq<I64>
    var blocked: bool

    predicate Valid()
      reads this
    {
      regs.Length == 26
    }

    function Model(): Machine
      reads this, regs
    {
      Machine(pc, regs[..], receiveQueue, blocked)
    }

    /** All registers zero except `p`, which holds the program id. */
    constructor(pid: I64)
      ensures Valid() && fresh(regs)
      ensures Model() == Machine(0, seq(26, i => if i == 'p' as int - 'a' as int then pid else 0), [], false)
    {
      pc := 0;
      var r := new I64[26](i => 0);
      r[15] := pid;
      regs := r;
      receiveQueue := [];
      blocked := false;
    }
  }

  method ValueIn(x: RegImm, state: ExecutionState) returns (v: I64)
    requires state.Valid()
    ensures v == ValueOf(x, state.regs[..])
  {
    match x
    case Reg(r) => v := state.regs[r.index];
    case Imm(k) => v := k;
  }

  /** Executes the instruction at pc in place. */
  method ProgramStep(program: seq<Instruction>, state: ExecutionState) returns (r: StepResult)
    requires |program| <= MaxI64 && state.Valid() && NoRemainderFault(program, state.Model())
    modifies state, state.regs
    ensures state.Valid()
    ensures (state.Model(), r) == Step(program, old(state.Model()))
  {
    if state.pc < 0 || state.pc >= |program| {
      return Terminated;
    }
    match program[state.pc] {
      case Snd(v) =>
        var x := ValueIn(v, state);
        state.pc := state.pc + 1;
        r := Sent(x);
      case Rcv(_) =>
        r := ReceiveStep(program, state);
      case Jgz(_, _) =>
        r := JumpStep(program, state);
      case Jnz(_, _) =>
        r := JumpStep(program, state);
      case _ =>
        r := ArithmeticStep(program, state);
    }
  }

  /** `rcv`: takes the front of the queue into the register, or blocks on an empty queue. */
  method ReceiveStep(program: seq<Instruction>, state: ExecutionState) returns (r: StepResult)
    requires |program| <= MaxI64 && state.Valid() && NoRemainderFault(program, state.Model())
    requires InRange(program, state.pc) && program[state.pc].Rcv?
    modifies state, state.regs
    ensures state.Valid()
    ensures (state.Model(), r) == Step(program, old(state.Model()))
  {
    var reg := program[state.pc].dst;
    if state.receiveQueue == [] {
      state.blocked := true;
      r := ReceiveBlocked;
    } else {
      var value := state.receiveQueue[0];
      state.pc := state.pc + 1;
      state.receiveQueue := state.receiveQueue[1..];
      state.blocked := false;
      state.regs[reg.index] := value;
      r := Running;
    }
  }

  /** `jgz` and `jnz`: jumps by the offset when the condition holds, and otherwise moves on. */
  method JumpStep(program: seq<Instruction>, state: ExecutionState) returns (r: StepResult)
    requires |program| <= MaxI64 && state.Valid() && NoRemainderFault(program, state.Model())
    requires InRange(program, state.pc) && (program[state.pc].Jgz? || program[state.pc].Jnz?)
    modifies state
    ensures state.Valid()
    ensures (state.Model(), r) == Step(program, old(state.Model()))
  {
    var i := program[state.pc];
    state.pc := state.pc + 1;
    var cond := ValueIn(i.cond, state);
    if (i.Jgz? && cond > 0) || (i.Jnz? && cond != 0) {
      var offset := ValueIn(i.offset, state);
      state.pc := Wrap(state.pc as int + Wrap(offset as int - 1));
    }
    r := Running;
  }

  /** `set`, `add`, `sub`, `mul` and `mod`: updates the destination register in place. */
  method ArithmeticStep(program: seq<Instruction>, state: ExecutionState) returns (r: StepResult)
    requires |program| <= MaxI64 && state.Valid() && NoRemainderFault(program, state.Model())
    requires InRange(program, state.pc)
    requires var i := program[state.pc]; i.Set? || i.Add? || i.Sub? || i.Mul? || i.Mod?
    modifies state, state.regs
    ensures state.Valid()
    ensures (state.Model(), r) == Step(program, old(state.Model()))
  {
    var i := program[state.pc];
    var v := ValueIn(i.src, state);
    var x := state.regs[i.dst.index];
    state.pc := state.pc + 1;
    state.regs[i.dst.index] := ArithmeticResult(i, x, v);
    r := Running;
  }

  /** Outside the program the step reports Terminated and changes nothing; inside it never does. */
  lemma StepTerminated(program: seq<Instruction>, m: Machine)
    requires |program| <= MaxI64 && |m.regs| == 26 && NoRemainderFault(program, m)
    ensures Step(program, m).1 == Terminated <==> !InRange(program, m.pc)
    ensures !InRange(program, m.pc) ==> Step(program, m).0 == m
  {
  }

  /** Receiving from an empty queue blocks without moving pc; otherwise the front of the queue
      goes to the register, the block clears and pc moves on. */
  lemma StepReceive(program: seq<Instruction>, m: Machine)
    requires |program| <= MaxI64 && |m.regs| == 26 && InRange(program, m.pc) && program[m.pc].Rcv?
    ensures var (m', r) := Step(program, m);
      var dst := program[m.pc].dst.index;
      (m.queue == [] ==> r == ReceiveBlocked && m'.pc == m.pc && m'.blocked && m'.regs == m.regs) &&
      (m.queue != [] ==>
        r == Running && m'.pc == m.pc + 1 && !m'.blocked && m'.regs[dst] == m.queue[0] &&
        [m.queue[0]] + m'.queue == m.queue &&
        forall k :: 0 <= k < 26 && k != dst ==> m'.regs[k] == m.regs[k])
  {
  }

  /** A jump taken moves pc by the offset (wrapping in 64 bits); one not taken moves to the next
      instruction. Nothing else changes. */
  lemma StepJump(program: seq<Instruction>, m: Machine)
    requires |program| <= MaxI64 && |m.regs| == 26 && InRange(program, m.pc)
    requires program[m.pc].Jgz? || program[m.pc].Jnz?
    ensures var (m', r) := Step(program, m);
      var i := program[m.pc];
      var c := ValueOf(i.cond, m.regs);
      var taken := if i.Jgz? then c > 0 else c != 0;
      r == Running && m'.regs == m.regs && m'.queue == m.queue && m'.blocked == m.blocked &&
      (m'.pc - (if taken then m.pc + ValueOf(i.offset, m.regs) else m.pc + 1)) % 0x1_0000_0000_0000_0000 == 0
  {
  }

  /** An arithmetic step writes only its destination, and an add that does not overflow adds
      exactly. */
  lemma StepArithmetic(program: seq<Instruction>, m: Machine)
    requires |program| <= MaxI64 && |m.regs| == 26 && NoRemainderFault(program, m) && InRange(program, m.pc)
    requires program[m.pc].Set? || program[m.pc].Add? || program[m.pc].Sub? || program[m.pc].Mul? || program[m.pc].Mod?
    ensures var (m', r) := Step(program, m);
      var i := program[m.pc];
      var x, v := m.regs[i.dst.index], ValueOf(i.src, m.regs);
      r == Running && m'.pc == m.pc + 1 && m'.queue == m.queue && m'.blocked == m.blocked &&
      |m'.regs| == 26 &&
      (forall k :: 0 <= k < 26 && k != i.dst.index ==> m'.regs[k] == m.regs[k]) &&
      (i.Set? ==> m'.regs[i.dst.index] == v) &&
      (i.Add? && MinI64 <= x + v <= MaxI64 ==> m'.regs[i.dst.index] == x + v) &&
      (i.Mul? ==> (m'.regs[i.dst.index] - x * v) % 0x1_0000_0000_0000_0000 == 0)
  {
  }
}
