// A handheld console's boot code: a program of `acc`, `jmp` and `nop` instructions, run until
// an instruction would run a second time; and the repair that turns one `jmp` into a `nop` or
// one `nop` into a `jmp` so that the program runs off its end.

module Handheld {

  datatype Option<T> = None | Some(value: T)

  datatype Op = Add | Jump | Nop

  datatype Instr = Instr(op: Op, arg: int)

  type Program = seq<Instr>

  predicate InRange(p: Program, pc: int)
  {
    0 <= pc < |p|
  }

  /** The instruction run after the one at `pc`. */
  function Next(p: Program, pc: int): int
    requires InRange(p, pc)
  {
    if p[pc].op == Jump then pc + p[pc].arg else pc + 1
  }

  /** The number of instructions not yet marked. */
  function CountFalse(s: seq<bool>): nat
  {
    if s == [] then 0 else (if s[0] then 0 else 1) + CountFalse(s[1..])
  }

  lemma {:induction false} CountFalseMark(s: seq<bool>, i: int)
    requires 0 <= i < |s| && !s[i]
    ensures CountFalse(s[i := true]) == CountFalse(s) - 1
  {
    if i > 0 {
      assert s[i := true][1..] == s[1..][i - 1 := true];
      CountFalseMark(s[1..], i - 1);
    } else {
      assert s[i := true][1..] == s[1..];
    }
  }

  function Fresh(n: nat): (s: seq<bool>)
    ensures |s| == n && forall j :: 0 <= j < n ==> !s[j]
  {
    seq(n, _ => false)
  }

  // ---------------------------------------------------------------------------------------
  // The walk through the program

  /** The instructions run from `pc`, in order, until the program is left or an instruction
      already marked in `seen` or already run comes up. */
  function Trace(p: Program, seen: seq<bool>, pc: int): seq<int>
    requires |seen| == |p|
    decreases CountFalse(seen)
  {
    if InRange(p, pc) && !seen[pc] then
      CountFalseMark(seen, pc);
      [pc] + Trace(p, seen[pc := true], Next(p, pc))
    else []
  }

  /** Where that walk stops. */
  function StopAt(p: Program, seen: seq<bool>, pc: int): int
    requires |seen| == |p|
    decreases CountFalse(seen)
  {
    if InRange(p, pc) && !seen[pc] then
      CountFalseMark(seen, pc);
      StopAt(p, seen[pc := true], Next(p, pc))
    else pc
  }

  /** The accumulator after that walk, starting from `acc`. */
  function Run(p: Program, seen: seq<bool>, pc: int, acc: int): (r: int)
    requires |seen| == |p|
    ensures (forall i :: 0 <= i < |p| ==> p[i].op != Add) ==> r == acc
    ensures (forall i :: 0 <= i < |p| && p[i].op == Add ==> p[i].arg >= 0) ==> r >= acc
    decreases CountFalse(seen)
  {
    if InRange(p, pc) && !seen[pc] then
      CountFalseMark(seen, pc);
      var acc' := if p[pc].op == Add then acc + p[pc].arg else acc;
      Run(p, seen[pc := true], Next(p, pc), acc')
    else acc
  }

  /** What the source's `execute` returns: the accumulator when an instruction is about to run a
      second time or the program is left. */
  function Execution(p: Program): int
  {
    Run(p, Fresh(|p|), 0, 0)
  }

  /** The instructions run from the first one. */
  function StartTrace(p: Program): seq<int>
  {
    Trace(p, Fresh(|p|), 0)
  }

  /** Whether the program comes back to an instruction it has run, rather than running off. */
  predicate Loops(p: Program)
  {
    InRange(p, StopAt(p, Fresh(|p|), 0))
  }

  /** How much an instruction adds to the accumulator. */
  function Gain(p: Program, pc: int): int
  {
    if InRange(p, pc) && p[pc].op == Add then p[pc].arg else 0
  }

  function GainSum(p: Program, t: seq<int>): int
  {
    if t == [] then 0 else Gain(p, t[0]) + GainSum(p, t[1..])
  }

  /** The accumulator changes only on `acc` instructions, by their operand: it ends as the sum
      of the operands of the `acc` instructions on the walk. */
  lemma {:induction false} RunGain(p: Program, seen: seq<bool>, pc: int, acc: int)
    requires |seen| == |p|
    ensures Run(p, seen, pc, acc) == acc + GainSum(p, Trace(p, seen, pc))
    decreases CountFalse(seen)
  {
    if InRange(p, pc) && !seen[pc] {
      CountFalseMark(seen, pc);
      var acc' := if p[pc].op == Add then acc + p[pc].arg else acc;
      RunGain(p, seen[pc := true], Next(p, pc), acc');
      var t := Trace(p, seen, pc);
      assert t[0] == pc && t[1..] == Trace(p, seen[pc := true], Next(p, pc));
    }
  }

  /** Every element is an instruction of `p` not marked in `seen`. */
  predicate Unmarked(p: Program, seen: seq<bool>, t: seq<int>)
    requires |seen| == |p|
  {
    forall k :: 0 <= k < |t| ==> InRange(p, t[k]) && !seen[t[k]]
  }

  predicate Distinct(t: seq<int>)
  {
    forall a, b :: 0 <= a < b < |t| ==> t[a] != t[b]
  }

  /** Every instruction of the walk is in the program, was not marked, and runs once. */
  lemma {:induction false} TraceOnce(p: Program, seen: seq<bool>, pc: int)
    requires |seen| == |p|
    ensures Unmarked(p, seen, Trace(p, seen, pc)) && Distinct(Trace(p, seen, pc))
    decreases CountFalse(seen)
  {
    if InRange(p, pc) && !seen[pc] {
      CountFalseMark(seen, pc);
      var seen' := seen[pc := true];
      TraceOnce(p, seen', Next(p, pc));
      var t := Trace(p, seen, pc);
      var u := Trace(p, seen', Next(p, pc));
      assert t == [pc] + u;
      assert Unmarked(p, seen', u) && Distinct(u);
      forall k | 0 < k < |t| ensures InRange(p, t[k]) && !seen[t[k]] && t[k] != pc {
        assert t[k] == u[k - 1];
      }
      forall a, b | 0 <= a < b < |t| ensures t[a] != t[b] {
        if a > 0 {
          assert t[a] == u[a - 1] && t[b] == u[b - 1];
        }
      }
    }
  }

  /** The walk starts at `pc` and follows `Next`; it stops at the instruction after its last. */
  lemma {:induction false} TraceFollows(p: Program, seen: seq<bool>, pc: int)
    requires |seen| == |p|
    ensures var t := Trace(p, seen, pc);
      && (t != [] ==> t[0] == pc)
      && (forall k :: 0 <= k < |t| ==> InRange(p, t[k]))
      && (forall k :: 0 <= k < |t| - 1 ==> t[k + 1] == Next(p, t[k]))
      && StopAt(p, seen, pc) == (if t == [] then pc else Next(p, t[|t| - 1]))
    decreases CountFalse(seen)
  {
    if InRange(p, pc) && !seen[pc] {
      CountFalseMark(seen, pc);
      var seen' := seen[pc := true];
      TraceFollows(p, seen', Next(p, pc));
      var t := Trace(p, seen, pc);
      var u := Trace(p, seen', Next(p, pc));
      assert t == [pc] + u;
      forall k | 0 <= k < |t| ensures InRange(p, t[k]) {
        if k > 0 {
          assert t[k] == u[k - 1];
        }
      }
      forall k | 0 <= k < |t| - 1 ensures t[k + 1] == Next(p, t[k]) {
        assert t[k + 1] == u[k];
        if k > 0 {
          assert t[k] == u[k - 1];
        }
      }
      if u != [] {
        assert t[|t| - 1] == u[|u| - 1];
      }
    }
  }

  /** The walk stops where the program is left, at a marked instruction, or at one it ran. */
  lemma {:induction false} TraceStops(p: Program, seen: seq<bool>, pc: int)
    requires |seen| == |p|
    ensures var q := StopAt(p, seen, pc);
      !InRange(p, q) || seen[q] || q in Trace(p, seen, pc)
    decreases CountFalse(seen)
  {
    if InRange(p, pc) && !seen[pc] {
      CountFalseMark(seen, pc);
      var seen' := seen[pc := true];
      TraceStops(p, seen', Next(p, pc));
      var q := StopAt(p, seen, pc);
      if InRange(p, q) && !seen[q] && q != pc {
        assert !seen'[q];
      }
    }
  }

  // ---------------------------------------------------------------------------------------
  // Running the program

  /** The source's `execute`: runs the program from its first instruction, marking each one it
      runs, until it is about to run a marked one or leaves the program. */
  method Execute(p: Program) returns (acc: int)
    ensures acc == Execution(p)
  {
    var seen := new bool[|p|](_ => false);
    assert seen[..] == Fresh(|p|);
    var pc := 0;
    acc := 0;
    while 0 <= pc < seen.Length && !seen[pc]
      invariant seen.Length == |p|
      invariant Run(p, seen[..], pc, acc) == Execution(p)
      decreases CountFalse(seen[..])
    {
      ghost var before := seen[..];
      CountFalseMark(before, pc);
      seen[pc] := true;
      assert seen[..] == before[pc := true];
      match p[pc] {
        case Instr(Add, v) =>
          acc := acc + v;
          pc := pc + 1;
        case Instr(Jump, v) =>
          pc := pc + v;
        case Instr(Nop, _) =>
          pc := pc + 1;
      }
    }
  }

  /** The first puzzle: the accumulator just before an instruction runs a second time. */
  method Star1(p: Program) returns (acc: int)
    ensures acc == Execution(p)
  {
    acc := Execute(p);
  }

  // ---------------------------------------------------------------------------------------
  // Reachability marks

  /** What is known of an instruction: not yet classified; run from the first instruction;
      leading into a loop; or leading off the end of the program. */
  datatype Reach = Unknown | Start | Dead | End

  /** The source's `scan_start`: marks `Start` every instruction run from the first one, until
      one comes up a second time. `ok` is false where the run leaves the program instead, an
      index out of bounds in the source. */
  method ScanStart(p: Program) returns (reach: array<Reach>, ok: bool)
    ensures fresh(reach) && reach.Length == |p|
    ensures ok <==> Loops(p)
    ensures ok ==> forall j :: 0 <= j < |p| ==> (reach[j] == Start <==> j in StartTrace(p))
    ensures ok ==> forall j :: 0 <= j < |p| ==> reach[j] == Unknown || reach[j] == Start
  {
    reach := new Reach[|p|](_ => Unknown);
    var pc := 0;
    ghost var seen := Fresh(|p|);
    ghost var walked: seq<int> := [];
    while InRange(p, pc) && reach[pc] == Unknown
      invariant |seen| == |p| == reach.Length
      invariant forall j :: 0 <= j < |p| ==> (seen[j] <==> reach[j] == Start) && (reach[j] == Unknown || reach[j] == Start)
      invariant forall j :: 0 <= j < |p| ==> (seen[j] <==> j in walked)
      invariant walked + Trace(p, seen, pc) == StartTrace(p)
      invariant StopAt(p, seen, pc) == StopAt(p, Fresh(|p|), 0)
      decreases CountFalse(seen)
    {
      CountFalseMark(seen, pc);
      assert walked + Trace(p, seen, pc) == walked + [pc] + Trace(p, seen[pc := true], Next(p, pc));
      reach[pc] := Start;
      seen := seen[pc := true];
      walked := walked + [pc];
      pc := Next(p, pc);
    }
    ok := InRange(p, pc);
  }

  /** What the source's `scan_end` finds walking from an instruction: the unclassified
      instructions it walks, and whether the walk leaves the program or comes to an instruction
      classified `End` (`End`), or comes back to one it walked or to one classified `Start` or
      `Dead` (`Dead`). */
  datatype Walk = Walk(cells: seq<int>, status: Reach)

  function EndWalk(p: Program, reach: seq<Reach>, seen: seq<bool>, pc: int): Walk
    requires |reach| == |p| == |seen|
    decreases CountFalse(seen)
  {
    if !InRange(p, pc) then Walk([], End)
    else if seen[pc] then Walk([], Dead)
    else
      match reach[pc]
      case Unknown =>
        CountFalseMark(seen, pc);
        var w := EndWalk(p, reach, seen[pc := true], Next(p, pc));
        Walk([pc] + w.cells, w.status)
      case End => Walk([], End)
      case _ => Walk([], Dead)
  }

  /** The walk from `pos` over the marks `reach`. */
  function WalkFrom(p: Program, reach: seq<Reach>, pos: int): Walk
    requires |reach| == |p|
  {
    EndWalk(p, reach, Fresh(|p|), pos)
  }

  /** The marks after classifying the walked instructions with the walk's outcome. */
  function Marked(reach: seq<Reach>, w: Walk): (r: seq<Reach>)
    ensures |r| == |reach|
  {
    seq(|reach|, j requires 0 <= j < |reach| => if j in w.cells then w.status else reach[j])
  }

  /** The source's `scan_end`: walks from `pos` and marks what it walked with the outcome. */
  method ScanEnd(reach: array<Reach>, p: Program, pos: int)
    requires reach.Length == |p|
    modifies reach
    ensures reach[..] == Marked(old(reach[..]), WalkFrom(p, old(reach[..]), pos))
  {
    ghost var r := reach[..];
    ghost var marks := Fresh(|p|);
    var seen: seq<int> := [];
    var pc := pos;
    var status := End;
    while InRange(p, pc)
      invariant |marks| == |p| && reach[..] == r
      invariant forall j :: 0 <= j < |p| ==> (marks[j] <==> j in seen)
      invariant forall k :: 0 <= k < |seen| ==> InRange(p, seen[k])
      invariant WalkFrom(p, r, pos) == Walk(seen + EndWalk(p, r, marks, pc).cells, EndWalk(p, r, marks, pc).status)
      decreases CountFalse(marks)
    {
      if pc in seen {
        status := Dead;
        break;
      }
      match reach[pc] {
        case Unknown =>
          CountFalseMark(marks, pc);
          var w := EndWalk(p, r, marks[pc := true], Next(p, pc));
          assert seen + EndWalk(p, r, marks, pc).cells == (seen + [pc]) + w.cells;
          seen := seen + [pc];
          marks := marks[pc := true];
          pc := Next(p, pc);
        case Start =>
          status := Dead;
          break;
        case Dead =>
          status := Dead;
          break;
        case End =>
          break;
      }
    }
    assert EndWalk(p, r, marks, pc) == Walk([], status);
    assert seen == seen + [];
    Classify(reach, seen, status);
  }

  /** The loop at the end of `scan_end`: gives every walked instruction the outcome. */
  method Classify(reach: array<Reach>, cells: seq<int>, status: Reach)
    requires forall k :: 0 <= k < |cells| ==> 0 <= cells[k] < reach.Length
    modifies reach
    ensures reach[..] == Marked(old(reach[..]), Walk(cells, status))
  {
    ghost var r := reach[..];
    for k := 0 to |cells|
      invariant forall j :: 0 <= j < reach.Length ==> reach[j] == if j in cells[..k] then status else r[j]
    {
      assert cells[..k + 1] == cells[..k] + [cells[k]];
      reach[cells[k]] := status;
    }
    assert cells[..|cells|] == cells;
  }

  // ---------------------------------------------------------------------------------------
  // What the marks mean

  /** Whether the walk from `pc` leaves the program within `k` instructions. */
  predicate Exits(p: Program, pc: int, k: nat)
    decreases k
  {
    !InRange(p, pc) || (k > 0 && Exits(p, Next(p, pc), k - 1))
  }

  ghost predicate Terminates(p: Program, pc: int)
  {
    exists k: nat :: Exits(p, pc, k)
  }

  /** Whether the walk from `pc` leaves the program within `k` instructions through
      instructions marked `End` only. */
  predicate EndPath(p: Program, reach: seq<Reach>, pc: int, k: nat)
    requires |reach| == |p|
    decreases k
  {
    !InRange(p, pc) || (k > 0 && reach[pc] == End && EndPath(p, reach, Next(p, pc), k - 1))
  }

  predicate Stuck(r: Reach)
  {
    r == Start || r == Dead
  }

  /** Every instruction marked `Start` or `Dead` leads to another such instruction. */
  predicate Closed(p: Program, reach: seq<Reach>)
    requires |reach| == |p|
  {
    forall j :: 0 <= j < |p| && Stuck(reach[j]) ==> InRange(p, Next(p, j)) && Stuck(reach[Next(p, j)])
  }

  /** The marks are right: from an `End` instruction the walk leaves the program through `End`
      instructions, and from `Start` and `Dead` instructions it never leaves the set of them. */
  ghost predicate Sound(p: Program, reach: seq<Reach>)
  {
    |reach| == |p| && EndsExit(p, reach) && Closed(p, reach)
  }

  /** From every instruction marked `End` an `End` path leaves the program. */
  ghost predicate EndsExit(p: Program, reach: seq<Reach>)
    requires |reach| == |p|
  {
    forall j :: InRange(p, j) && reach[j] == End ==> exists k: nat :: EndPath(p, reach, j, k)
  }

  ghost predicate AllEndPaths(p: Program, reach: seq<Reach>, cells: seq<int>)
    requires |reach| == |p|
  {
    forall j :: InRange(p, j) && j in cells ==> exists k: nat :: EndPath(p, reach, j, k)
  }

  /** An `End` path exits, in any program that agrees on the `End` instructions. */
  lemma {:induction false} EndPathExits(p: Program, q: Program, reach: seq<Reach>, pc: int, k: nat)
    requires |reach| == |p| == |q|
    requires forall x :: InRange(p, x) && reach[x] == End ==> q[x] == p[x]
    requires EndPath(p, reach, pc, k)
    ensures Exits(q, pc, k)
    decreases k
  {
    if InRange(p, pc) {
      EndPathExits(p, q, reach, Next(p, pc), k - 1);
    }
  }

  /** From a `Start` or `Dead` instruction of a closed set of marks the walk never exits. */
  lemma {:induction false} ClosedNeverExits(q: Program, reach: seq<Reach>, pc: int, k: nat)
    requires |reach| == |q| && Closed(q, reach)
    requires InRange(q, pc) && Stuck(reach[pc])
    ensures !Exits(q, pc, k)
    decreases k
  {
    if k > 0 {
      ClosedNeverExits(q, reach, Next(q, pc), k - 1);
    }
  }

  /** More `End` marks keep every `End` path. */
  lemma {:induction false} EndPathMore(p: Program, reach: seq<Reach>, r: seq<Reach>, pc: int, k: nat)
    requires |reach| == |p| == |r|
    requires forall x :: InRange(p, x) && reach[x] == End ==> r[x] == End
    requires EndPath(p, reach, pc, k)
    ensures EndPath(p, r, pc, k)
    decreases k
  {
    if InRange(p, pc) {
      EndPathMore(p, reach, r, Next(p, pc), k - 1);
    }
  }

  /** With sound marks and every instruction classified, an instruction is marked `End`
      exactly when the walk from it leaves the program. */
  lemma Classified(p: Program, reach: seq<Reach>, j: int)
    requires Sound(p, reach) && InRange(p, j)
    requires forall x :: 0 <= x < |p| ==> reach[x] != Unknown
    ensures reach[j] == End <==> Terminates(p, j)
  {
    if reach[j] == End {
      var k: nat :| EndPath(p, reach, j, k);
      EndPathExits(p, p, reach, j, k);
    } else {
      forall k: nat ensures !Exits(p, j, k) {
        ClosedNeverExits(p, reach, j, k);
      }
    }
  }

  // ---------------------------------------------------------------------------------------
  // The walk of `scan_end`

  /** The walked instructions are unclassified instructions of the program not seen before,
      listed in the order the walk runs them from `pc`, each once; the outcome is `End` or
      `Dead`. */
  lemma {:induction false} WalkCells(p: Program, reach: seq<Reach>, seen: seq<bool>, pc: int)
    requires |reach| == |p| == |seen|
    ensures var w := EndWalk(p, reach, seen, pc);
      && (w.status == End || w.status == Dead)
      && (forall k :: 0 <= k < |w.cells| ==>
            InRange(p, w.cells[k]) && reach[w.cells[k]] == Unknown && !seen[w.cells[k]])
      && (InRange(p, pc) && !seen[pc] && reach[pc] == Unknown <==> |w.cells| > 0 && w.cells[0] == pc)
      && (forall k :: 0 <= k < |w.cells| - 1 ==> w.cells[k + 1] == Next(p, w.cells[k]))
      && (forall k, l :: 0 <= k < l < |w.cells| ==> w.cells[k] != w.cells[l])
    decreases CountFalse(seen)
  {
    if InRange(p, pc) && !seen[pc] && reach[pc] == Unknown {
      CountFalseMark(seen, pc);
      var seen' := seen[pc := true];
      var w := EndWalk(p, reach, seen, pc);
      var u := EndWalk(p, reach, seen', Next(p, pc));
      WalkCells(p, reach, seen', Next(p, pc));
      assert w.cells == [pc] + u.cells;
      forall k | 0 < k < |w.cells|
        ensures InRange(p, w.cells[k]) && reach[w.cells[k]] == Unknown && !seen[w.cells[k]]
      {
        assert w.cells[k] == u.cells[k - 1];
        assert !seen'[u.cells[k - 1]];
      }
      forall k | 0 <= k < |w.cells| - 1 ensures w.cells[k + 1] == Next(p, w.cells[k]) {
        if k > 0 {
          assert w.cells[k] == u.cells[k - 1];
        }
      }
      forall k, l | 0 <= k < l < |w.cells| ensures w.cells[k] != w.cells[l] {
        assert w.cells[l] == u.cells[l - 1] && !seen'[u.cells[l - 1]];
        if k > 0 {
          assert w.cells[k] == u.cells[k - 1];
        }
      }
    }
  }

  /** The marks after a walk that ends `Dead`: its start and every instruction after one it
      walked are `Start` or `Dead`. */
  lemma {:induction false} WalkDead(p: Program, reach: seq<Reach>, seen: seq<bool>, pc: int, r: seq<Reach>)
    requires |reach| == |p| == |seen| == |r|
    requires EndWalk(p, reach, seen, pc).status == Dead
    requires forall j :: InRange(p, j) && reach[j] != Unknown ==> r[j] == reach[j]
    requires forall j :: InRange(p, j) && seen[j] ==> r[j] == Dead
    requires forall j :: InRange(p, j) && j in EndWalk(p, reach, seen, pc).cells ==> r[j] == Dead
    ensures InRange(p, pc) && Stuck(r[pc])
    ensures var cs := EndWalk(p, reach, seen, pc).cells;
      forall k :: 0 <= k < |cs| ==> InRange(p, cs[k]) && InRange(p, Next(p, cs[k])) && Stuck(r[Next(p, cs[k])])
    decreases CountFalse(seen)
  {
    var w := EndWalk(p, reach, seen, pc);
    if seen[pc] || reach[pc] != Unknown {
    } else {
      CountFalseMark(seen, pc);
      var seen' := seen[pc := true];
      var u := EndWalk(p, reach, seen', Next(p, pc));
      assert w.cells == [pc] + u.cells;
      forall j | InRange(p, j) && j in u.cells ensures r[j] == Dead {
        assert j in w.cells;
      }
      WalkDead(p, reach, seen', Next(p, pc), r);
      forall k | 0 < k < |w.cells|
        ensures InRange(p, w.cells[k]) && InRange(p, Next(p, w.cells[k])) && Stuck(r[Next(p, w.cells[k])])
      {
        assert w.cells[k] == u.cells[k - 1];
      }
    }
  }

  /** The marks after a walk that ends `End`: from its start and from every instruction it
      walked an `End` path leaves the program. */
  lemma {:induction false} WalkEnd(p: Program, reach: seq<Reach>, seen: seq<bool>, pc: int, r: seq<Reach>)
    requires |reach| == |p| == |seen| == |r|
    requires EndWalk(p, reach, seen, pc).status == End
    requires forall j :: InRange(p, j) && reach[j] != Unknown ==> r[j] == reach[j]
    requires EndsExit(p, reach)
    requires forall j :: InRange(p, j) && j in EndWalk(p, reach, seen, pc).cells ==> r[j] == End
    ensures exists k: nat :: EndPath(p, r, pc, k)
    ensures AllEndPaths(p, r, EndWalk(p, reach, seen, pc).cells)
    decreases CountFalse(seen)
  {
    var w := EndWalk(p, reach, seen, pc);
    if !InRange(p, pc) {
      assert EndPath(p, r, pc, 0);
    } else if reach[pc] == End {
      assert !seen[pc] && w.cells == [];
      var k: nat :| EndPath(p, reach, pc, k);
      EndPathMore(p, reach, r, pc, k);
    } else {
      CountFalseMark(seen, pc);
      var seen' := seen[pc := true];
      var u := EndWalk(p, reach, seen', Next(p, pc));
      assert w.cells == [pc] + u.cells;
      forall j | InRange(p, j) && j in u.cells ensures r[j] == End {
        assert j in w.cells;
      }
      WalkEnd(p, reach, seen', Next(p, pc), r);
      assert AllEndPaths(p, r, u.cells);
      var n: nat :| EndPath(p, r, Next(p, pc), n);
      assert EndPath(p, r, pc, n + 1);
      forall j | InRange(p, j) && j in w.cells ensures exists k: nat :: EndPath(p, r, j, k) {
        if j != pc {
          assert j in u.cells;
        }
      }
      assert AllEndPaths(p, r, w.cells);
    }
  }

  /** `scan_end` keeps the marks sound, classifies the instruction it starts from, and changes
      only unclassified instructions, never to `Start`. */
  lemma ScanEndSound(p: Program, reach: seq<Reach>, pos: int)
    requires Sound(p, reach)
    ensures var r := Marked(reach, WalkFrom(p, reach, pos));
      && Sound(p, r)
      && (InRange(p, pos) ==> r[pos] != Unknown)
      && (forall j :: InRange(p, j) && reach[j] != Unknown ==> r[j] == reach[j])
      && (forall j :: InRange(p, j) ==> (r[j] == Start <==> reach[j] == Start))
  {
    WalkCells(p, reach, Fresh(|p|), pos);
    if WalkFrom(p, reach, pos).status == End {
      SoundAfterEnd(p, reach, pos);
    } else {
      SoundAfterDead(p, reach, pos);
    }
  }

  lemma SoundAfterEnd(p: Program, reach: seq<Reach>, pos: int)
    requires Sound(p, reach) && WalkFrom(p, reach, pos).status == End
    requires forall j :: InRange(p, j) && j in WalkFrom(p, reach, pos).cells ==> reach[j] == Unknown
    ensures Sound(p, Marked(reach, WalkFrom(p, reach, pos)))
  {
    var w := WalkFrom(p, reach, pos);
    var r := Marked(reach, w);
    WalkEnd(p, reach, Fresh(|p|), pos, r);
    forall j | InRange(p, j) && r[j] == End ensures exists k: nat :: EndPath(p, r, j, k) {
      if j !in w.cells {
        var k: nat :| EndPath(p, reach, j, k);
        EndPathMore(p, reach, r, j, k);
      }
    }
  }

  lemma SoundAfterDead(p: Program, reach: seq<Reach>, pos: int)
    requires Sound(p, reach) && WalkFrom(p, reach, pos).status == Dead
    requires forall j :: InRange(p, j) && j in WalkFrom(p, reach, pos).cells ==> reach[j] == Unknown
    ensures Sound(p, Marked(reach, WalkFrom(p, reach, pos)))
  {
    var w := WalkFrom(p, reach, pos);
    var r := Marked(reach, w);
    WalkDead(p, reach, Fresh(|p|), pos, r);
    forall j | InRange(p, j) && r[j] == End ensures exists k: nat :: EndPath(p, r, j, k) {
      var k: nat :| EndPath(p, reach, j, k);
      EndPathMore(p, reach, r, j, k);
    }
    forall j | 0 <= j < |p| && Stuck(r[j]) ensures InRange(p, Next(p, j)) && Stuck(r[Next(p, j)]) {
      if j in w.cells {
        var k :| 0 <= k < |w.cells| && w.cells[k] == j;
      }
    }
  }

  /** Exactly the instructions run from the first one are marked `Start`. */
  ghost predicate StartMarks(p: Program, reach: seq<Reach>)
  {
    |reach| == |p| && forall j :: 0 <= j < |p| ==> (reach[j] == Start <==> j in StartTrace(p))
  }

  /** Every instruction before `i` is classified. */
  predicate ClassifiedBelow(reach: seq<Reach>, i: int)
  {
    forall j :: 0 <= j < i && j < |reach| ==> reach[j] != Unknown
  }

  /** The marks `scan_start` leaves on a program that loops are sound. */
  lemma StartSound(p: Program, reach: seq<Reach>)
    requires Loops(p) && StartMarks(p, reach)
    requires forall j :: 0 <= j < |p| ==> reach[j] == Unknown || reach[j] == Start
    ensures Sound(p, reach)
  {
    var t := StartTrace(p);
    TraceFollows(p, Fresh(|p|), 0);
    TraceStops(p, Fresh(|p|), 0);
    forall j | 0 <= j < |p| && Stuck(reach[j]) ensures InRange(p, Next(p, j)) && Stuck(reach[Next(p, j)]) {
      var m :| 0 <= m < |t| && t[m] == j;
      if m < |t| - 1 {
        assert Next(p, j) == t[m + 1];
      }
    }
  }

  // ---------------------------------------------------------------------------------------
  // The repair

  /** The program with the instruction at `i` switched between `jmp` and `nop`, its operand
      kept; every other instruction is unchanged. */
  function Flip(p: Program, i: int): (q: Program)
    requires InRange(p, i) && p[i].op != Add
    ensures |q| == |p| && forall j :: 0 <= j < |p| && j != i ==> q[j] == p[j]
    ensures q[i].arg == p[i].arg && q[i].op != Add && q[i].op != p[i].op
  {
    p[i := Instr(if p[i].op == Jump then Nop else Jump, p[i].arg)]
  }

  /** An instruction the source would consider switching: a `jmp` or `nop` run from the first
      instruction. */
  predicate Repair(p: Program, i: int)
  {
    InRange(p, i) && p[i].op != Add && i in StartTrace(p)
  }

  /** What the switched instruction runs next. */
  function Target(p: Program, i: int): int
    requires InRange(p, i)
  {
    if p[i].op == Jump then i + 1 else i + p[i].arg
  }

  /** The test of the repair loop, with a target outside the program counting as leaving it:
      a `Start` instruction whose switched successor is outside or marked `End`. */
  predicate Candidate(p: Program, reach: seq<Reach>, i: int)
    requires |reach| == |p| && InRange(p, i)
  {
    reach[i] == Start && p[i].op != Add && (!InRange(p, Target(p, i)) || reach[Target(p, i)] == End)
  }

  /** Walking back along a run: if the run reaches `t[m]` from `t[0]` and leaves from there
      within `k` instructions, it leaves from `t[0]` within `k + m`. */
  lemma {:induction false} ExitsBack(q: Program, t: seq<int>, m: int, k: nat)
    requires 0 <= m < |t|
    requires forall x :: 0 <= x < m ==> InRange(q, t[x]) && Next(q, t[x]) == t[x + 1]
    requires Exits(q, t[m], k)
    ensures Exits(q, t[0], k + m)
    decreases m
  {
    if m > 0 {
      assert Exits(q, t[m - 1], k + 1);
      ExitsBack(q, t, m - 1, k + 1);
    }
  }

  /** Switching a candidate makes the program run off its end. */
  lemma RepairTerminates(p: Program, reach: seq<Reach>, i: int)
    requires Sound(p, reach) && StartMarks(p, reach) && InRange(p, i)
    requires Candidate(p, reach, i)
    ensures Repair(p, i) && Terminates(Flip(p, i), 0)
  {
    var q := Flip(p, i);
    var target := Target(p, i);
    assert Next(q, i) == target;
    var k: nat := 0;
    if InRange(p, target) {
      k :| EndPath(p, reach, target, k);
      EndPathExits(p, q, reach, target, k);
    }
    assert Exits(q, i, k + 1);
    var t := StartTrace(p);
    TraceFollows(p, Fresh(|p|), 0);
    TraceOnce(p, Fresh(|p|), 0);
    var m :| 0 <= m < |t| && t[m] == i;
    forall x | 0 <= x < m ensures InRange(q, t[x]) && Next(q, t[x]) == t[x + 1] {
      assert t[x] != t[m];
    }
    ExitsBack(q, t, m, k + 1);
  }

  /** Switching a `Start` instruction whose switched successor is marked `Start` or `Dead`
      leaves a program that never runs off its end. */
  lemma RepairStuck(p: Program, reach: seq<Reach>, i: int)
    requires Sound(p, reach) && StartMarks(p, reach) && ClassifiedBelow(reach, |p|) && Repair(p, i)
    requires InRange(p, Target(p, i)) && reach[Target(p, i)] != End
    ensures !Terminates(Flip(p, i), 0)
  {
    var q := Flip(p, i);
    assert Next(q, i) == Target(p, i);
    assert Closed(q, reach) by {
      forall j | 0 <= j < |q| && Stuck(reach[j]) ensures InRange(q, Next(q, j)) && Stuck(reach[Next(q, j)]) {
        if j != i {
          assert Next(q, j) == Next(p, j);
        }
      }
    }
    TraceFollows(p, Fresh(|p|), 0);
    assert reach[0] == Start;
    forall k: nat ensures !Exits(q, 0, k) {
      ClosedNeverExits(q, reach, 0, k);
    }
  }

  /** Whether switching the instruction at `i` makes the program run off its end, and no
      switch earlier in program order does. */
  ghost predicate FirstRepair(p: Program, i: int)
  {
    && Repair(p, i) && Terminates(Flip(p, i), 0)
    && forall j :: 0 <= j < i && Repair(p, j) ==> !Terminates(Flip(p, j), 0)
  }

  /** The source's `star2`, with a switched successor outside the program counting as leaving
      it: the accumulator of the program with the first switch, in program order, among the
      instructions run from the first one, that makes it run off its end; `None` where there is
      none, and where the program does not loop, which the source does not handle. */
  method Star2(p: Program) returns (r: Option<int>)
    ensures !Loops(p) ==> r.None?
    ensures r.Some? ==> exists i :: FirstRepair(p, i) && r.value == Execution(Flip(p, i))
    ensures Loops(p) && r.None? ==> forall i :: Repair(p, i) ==> !Terminates(Flip(p, i), 0)
  {
    var reach, ok := ScanStart(p);
    if !ok {
      return None;
    }
    StartSound(p, reach[..]);
    ScanAll(reach, p);
    ghost var marks := reach[..];
    for i := 0 to |p|
      invariant reach[..] == marks
      invariant forall j :: 0 <= j < i && Repair(p, j) ==> !Terminates(Flip(p, j), 0)
    {
      if reach[i] == Start && p[i].op != Add {
        var target := if p[i].op == Jump then i + 1 else i + p[i].arg;
        if !InRange(p, target) || reach[target] == End {
          RepairTerminates(p, marks, i);
          var acc := Execute(p[i := Instr(if p[i].op == Jump then Nop else Jump, p[i].arg)]);
          assert FirstRepair(p, i);
          return Some(acc);
        }
        RepairStuck(p, marks, i);
      } else {
        assert !Repair(p, i);
      }
    }
    return None;
  }

  /** The first loop of `star2`: `scan_end` from every instruction, after which every
      instruction is classified and the marks are still sound. */
  method ScanAll(reach: array<Reach>, p: Program)
    requires reach.Length == |p| && Sound(p, reach[..]) && StartMarks(p, reach[..])
    modifies reach
    ensures Sound(p, reach[..]) && StartMarks(p, reach[..]) && ClassifiedBelow(reach[..], |p|)
  {
    for i := 0 to |p|
      invariant reach.Length == |p|
      invariant Sound(p, reach[..]) && StartMarks(p, reach[..]) && ClassifiedBelow(reach[..], i)
    {
      ghost var before := reach[..];
      ScanStep(p, before, i);
      ScanEnd(reach, p, i);
    }
  }

  /** One pass of that loop keeps its invariant. */
  lemma ScanStep(p: Program, reach: seq<Reach>, i: int)
    requires Sound(p, reach) && StartMarks(p, reach) && ClassifiedBelow(reach, i) && 0 <= i < |p|
    ensures var r := Marked(reach, WalkFrom(p, reach, i));
      Sound(p, r) && StartMarks(p, r) && ClassifiedBelow(r, i + 1)
  {
    ScanEndSound(p, reach, i);
  }

  // ---------------------------------------------------------------------------------------
  // The repair loop as written

  /** Outcomes of the repair loop as written: the instruction switched, the panic after the
      loop, or an index past the end of the marks. */
  datatype Choice = Chosen(i: int) | NoSolution | OutOfBounds

  /** The source's repair loop from index `i`, as written: the successor of a switched `jmp`
      and the target of a switched `nop` index the marks without a bounds check. */
  function ChooseAsWritten(p: Program, reach: seq<Reach>, i: nat): Choice
    requires |reach| == |p|
    decreases |p| - i
  {
    if i >= |p| then NoSolution
    else if reach[i] == Start && p[i].op == Jump then
      if i + 1 >= |reach| then OutOfBounds
      else if reach[i + 1] == End then Chosen(i)
      else ChooseAsWritten(p, reach, i + 1)
    else if reach[i] == Start && p[i].op == Nop then
      var target := i + p[i].arg;
      if !(0 <= target < |reach|) then OutOfBounds
      else if reach[target] == End then Chosen(i)
      else ChooseAsWritten(p, reach, i + 1)
    else ChooseAsWritten(p, reach, i + 1)
  }

  /** Where the loop as written picks an instruction, it is the first candidate. */
  lemma {:induction false} AsWrittenChosen(p: Program, reach: seq<Reach>, i: nat)
    requires |reach| == |p|
    ensures var c := ChooseAsWritten(p, reach, i);
      c.Chosen? ==>
        && i <= c.i < |p| && Candidate(p, reach, c.i)
        && forall x :: i <= x < c.i ==> !Candidate(p, reach, x)
    decreases |p| - i
  {
    if i < |p| {
      AsWrittenChosen(p, reach, i + 1);
    }
  }

  /** The program `jmp +0` loops at once; switching its one instruction gives `nop +0`, which
      runs off the end, but the loop as written reads the mark past the end. */
  lemma AsWrittenOutOfBounds()
    ensures var p := [Instr(Jump, 0)];
      && Loops(p) && StartTrace(p) == [0]
      && Marked([Start], WalkFrom(p, [Start], 0)) == [Start]
      && ChooseAsWritten(p, [Start], 0) == OutOfBounds
      && Candidate(p, [Start], 0) && Terminates(Flip(p, 0), 0)
  {
    var p := [Instr(Jump, 0)];
    var seen := Fresh(1);
    assert seen[0 := true] == [true];
    assert StartTrace(p) == [0] + Trace(p, [true], 0);
    assert StopAt(p, seen, 0) == StopAt(p, [true], 0);
    assert WalkFrom(p, [Start], 0) == Walk([], Dead);
    assert Marked([Start], Walk([], Dead)) == [Start];
    assert Exits(Flip(p, 0), 0, 1);
  }
}
