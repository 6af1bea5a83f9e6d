// A Turing machine whose tape grows at either end as the cursor runs off it.

module Turing {

  datatype Option<T> = None | Some(value: T)

  datatype TapeMove = Left | Right

  /** Only the words `left` and `right` name moves. */
  function ParseMove(s: string): (r: Option<TapeMove>)
    ensures r == Some(Left) <==> s == "left"
    ensures r == Some(Right) <==> s == "right"
    ensures r == None <==> s != "left" && s != "right"
  {
    if s == "left" then Some(Left) else if s == "right" then Some(Right) else None
  }

  /** What a transition writes, where the machine goes next and how the cursor moves. */
  datatype Action<State, Symbol> = Action(next: State, write: Symbol, move: TapeMove)

  /** The changing part of a machine: its state, the cursor and the tape as stored. */
  datatype Config<State, Symbol> = Config(state: State, cursor: nat, tape: seq<Symbol>)

  predicate ValidConfig<State, Symbol>(c: Config<State, Symbol>)
  {
    c.cursor < |c.tape|
  }

  /** One step: the transition for the current state and the symbol under the cursor writes its
      symbol, switches state and moves the cursor. Moving left off the start grows the tape by a
      blank at the front and leaves the cursor at 0; moving right onto the end grows it by a blank
      at the back. Without a transition the machine halts: `None`. */
  function Next<State(==), Symbol(==)>(c: Config<State, Symbol>, blank: Symbol,
                                       transitions: map<(State, Symbol), Action<State, Symbol>>)
    : (r: Option<Config<State, Symbol>>)
    requires ValidConfig(c)
    ensures r.Some? <==> (c.state, c.tape[c.cursor]) in transitions
    ensures r.Some? ==> ValidConfig(r.value)
  {
    var key := (c.state, c.tape[c.cursor]);
    if key !in transitions then None
    else
      var a := transitions[key];
      var written := c.tape[c.cursor := a.write];
      if a.move == Left then
        if c.cursor == 0 then Some(Config(a.next, 0, [blank] + written))
        else Some(Config(a.next, c.cursor - 1, written))
      else if c.cursor + 1 == |written| then Some(Config(a.next, c.cursor + 1, written + [blank]))
      else Some(Config(a.next, c.cursor + 1, written))
  }

  // ---------------------------------------------------------------------------------------
  // The tape as seen from outside: infinite in both directions, blank where never written

  /** The symbol at absolute position `p` of the infinite tape, when the stored tape starts at
      absolute position `origin`. */
  function Cell<State, Symbol>(c: Config<State, Symbol>, origin: int, blank: Symbol, p: int): Symbol
  {
    if origin <= p < origin + |c.tape| then c.tape[p - origin] else blank
  }

  /** Where the stored tape of the next configuration starts: one further left when the step grew
      it at the front. */
  function NextOrigin<State(==), Symbol(==)>(c: Config<State, Symbol>, origin: int,
                                             transitions: map<(State, Symbol), Action<State, Symbol>>): int
    requires ValidConfig(c) && (c.state, c.tape[c.cursor]) in transitions
  {
    if transitions[(c.state, c.tape[c.cursor])].move == Left && c.cursor == 0 then origin - 1 else origin
  }

  /** On the infinite tape a step is exactly a Turing-machine step: the head writes the
      transition's symbol in its own cell, every other cell stays as it was, and the head moves one
      cell left or right. */
  lemma NextIsMachineStep<State, Symbol>(c: Config<State, Symbol>, origin: int, blank: Symbol,
                                         transitions: map<(State, Symbol), Action<State, Symbol>>)
    requires ValidConfig(c) && (c.state, c.tape[c.cursor]) in transitions
    ensures var a, d, o := transitions[(c.state, c.tape[c.cursor])], Next(c, blank, transitions).value,
                         NextOrigin(c, origin, transitions);
      d.state == a.next &&
      o + d.cursor == origin + c.cursor + (if a.move == Left then -1 else 1) &&
      Cell(d, o, blank, origin + c.cursor) == a.write &&
      forall p :: p != origin + c.cursor ==> Cell(d, o, blank, p) == Cell(c, origin, blank, p)
  {
    var a := transitions[(c.state, c.tape[c.cursor])];
    var d := Next(c, blank, transitions).value;
    var o := NextOrigin(c, origin, transitions);
    forall p | p != origin + c.cursor ensures Cell(d, o, blank, p) == Cell(c, origin, blank, p) {
      if a.move == Left && c.cursor == 0 {
        if o <= p < o + |d.tape| {
          assert d.tape[p - o] == if p == o then blank else c.tape[p - origin];
        }
      } else if o <= p < o + |d.tape| && p - o < |c.tape| {
        assert d.tape[p - o] == c.tape[p - origin];
      }
    }
  }

  /** A step grows the tape by at most one cell and never shrinks it. */
  lemma NextGrowth<State, Symbol>(c: Config<State, Symbol>, blank: Symbol,
                                  transitions: map<(State, Symbol), Action<State, Symbol>>)
    requires ValidConfig(c) && Next(c, blank, transitions).Some?
    ensures var d := Next(c, blank, transitions).value;
      |c.tape| <= |d.tape| <= |c.tape| + 1
  {
  }

  /** `k` steps, or `None` when the machine halts before them. */
  function Run<State(==), Symbol(==)>(c: Config<State, Symbol>, blank: Symbol,
                                      transitions: map<(State, Symbol), Action<State, Symbol>>, k: nat)
    : (r: Option<Config<State, Symbol>>)
    requires ValidConfig(c)
    ensures r.Some? ==> ValidConfig(r.value)
    decreases k
  {
    if k == 0 then Some(c)
    else
      match Next(c, blank, transitions)
      case None => None
      case Some(d) => Run(d, blank, transitions, k - 1)
  }

  /** After `k` steps the tape has grown by at most `k` cells. */
  lemma {:induction false} RunGrowth<State, Symbol>(c: Config<State, Symbol>, blank: Symbol,
                                                    transitions: map<(State, Symbol), Action<State, Symbol>>, k: nat)
    requires ValidConfig(c) && Run(c, blank, transitions, k).Some?
    ensures |c.tape| <= |Run(c, blank, transitions, k).value.tape| <= |c.tape| + k
    decreases k
  {
    if k > 0 {
      var d := Next(c, blank, transitions).value;
      NextGrowth(c, blank, transitions);
      RunGrowth(d, blank, transitions, k - 1);
    }
  }

  // ---------------------------------------------------------------------------------------
  // The machine

  class Machine<State(==), Symbol(==)> {
    const blank: Symbol
    const transitions: map<(State, Symbol), Action<State, Symbol>>
    var state: State
    var cursor: nat
    var tape: seq<Symbol>

    function Current(): Config<State, Symbol>
      reads this
    {
      Config(state, cursor, tape)
    }

    ghost predicate Valid()
      reads this
    {
      ValidConfig(Current())
    }

    /** The source requires a tape without blanks; an empty one gets a single blank so that the
        cursor has a cell to read. */
    constructor (blank: Symbol, transitions: map<(State, Symbol), Action<State, Symbol>>,
                 initialState: State, initialTape: seq<Symbol>)
      requires blank !in initialTape
      ensures Valid()
      ensures this.blank == blank && this.transitions == transitions
      ensures Current() == Config(initialState, 0, if initialTape == [] then [blank] else initialTape)
    {
      this.blank := blank;
      this.transitions := transitions;
      state := initialState;
      cursor := 0;
      tape := if initialTape == [] then [blank] else initialTape;
    }

    /** One step in place; returns whether the machine is still running. A halted machine is left
        as it was. */
    method Step() returns (running: bool)
      requires Valid()
      modifies this
      ensures Valid()
      ensures running <==> Next(old(Current()), blank, transitions).Some?
      ensures running ==> Current() == Next(old(Current()), blank, transitions).value
      ensures !running ==> Current() == old(Current())
    {
      var key := (state, tape[cursor]);
      if key in transitions {
        var a := transitions[key];
        state := a.next;
        tape := tape[cursor := a.write];
        if a.move == Left {
          if cursor == 0 {
            tape := [blank] + tape;
          } else {
            cursor := cursor - 1;
          }
        } else {
          cursor := cursor + 1;
          if cursor == |tape| {
            tape := tape + [blank];
          }
        }
        running := true;
      } else {
        running := false;
      }
    }

    /** Steps `steps` times; fails when the machine halts first. */
    method RunSteps(steps: nat) returns (ok: bool)
      requires Valid()
      modifies this
      ensures Valid()
      ensures ok <==> Run(old(Current()), blank, transitions, steps).Some?
      ensures ok ==> Current() == Run(old(Current()), blank, transitions, steps).value
    {
      var i := 0;
      while i < steps
        invariant 0 <= i <= steps && Valid()
        invariant Run(old(Current()), blank, transitions, steps) == Run(Current(), blank, transitions, steps - i)
      {
        var running := Step();
        if !running {
          return false;
        }
        i := i + 1;
      }
      return true;
    }
  }

  /** The number of ones on the tape. */
  function CountOnes(tape: seq<bool>): (r: nat)
    ensures r <= |tape|
  {
    if tape == [] then 0 else (if tape[0] then 1 else 0) + CountOnes(tape[1..])
  }

  /** Splitting the tape splits the count of ones. */
  lemma {:induction false} CountOnesAppend(a: seq<bool>, b: seq<bool>)
    ensures CountOnes(a + b) == CountOnes(a) + CountOnes(b)
    decreases |a|
  {
    if a == [] {
      assert a + b == b;
    } else {
      assert (a + b)[1..] == a[1..] + b;
      CountOnesAppend(a[1..], b);
    }
  }

  /** The diagnostic checksum: a machine of ones and zeros with blank zero, started on an empty
      tape, run for `steps` steps; the number of ones on its tape, or `None` where the source
      panics because the machine halted early. */
  method Checksum<State(==)>(transitions: map<(State, bool), Action<State, bool>>, initialState: State, steps: nat)
    returns (r: Option<nat>)
    ensures var run := Run(Config(initialState, 0, [false]), false, transitions, steps);
      r == if run.Some? then Some(CountOnes(run.value.tape)) else None
  {
    var machine := new Machine(false, transitions, initialState, []);
    var ok := machine.RunSteps(steps);
    if ok {
      r := Some(CountOnes(machine.tape));
    } else {
      r := None;
    }
  }
}
