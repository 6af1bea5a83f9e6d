/** The "Permutation Promenade": programs `a`, `b`, ... dance by spins, exchanges of positions
    and swaps of partners. A whole dance splits into a transposition (everything that moves by
    position) and a substitution (everything that moves by name), and a billion dances are
    computed by repeated squaring of those two permutations. */
module Dance {

  datatype Option<T> = None | Some(value: T)

  type U8 = x: int | 0 <= x < 256

  /** A program, named by its offset from `a`; a line of programs is a sequence of offsets. */
  datatype Program = Program(id: U8)

  function FromChar(c: char): (r: Option<Program>)
    ensures r.Some? <==> 'a' <= c <= 'z'
    ensures r.Some? ==> ToChar(r.value) == Some(c)
  {
    if 'a' <= c <= 'z' then Some(Program(c as int - 'a' as int)) else None
  }

  function ToChar(p: Program): (r: Option<char>)
    ensures r.Some? <==> p.id < 26
  {
    if p.id < 26 then Some((p.id + 'a' as int) as char) else None
  }

  /** The two codecs are inverse on the programs that have a letter. */
  lemma CharRoundTrip(p: Program)
    requires p.id < 26
    ensures ToChar(p).Some? && FromChar(ToChar(p).value) == Some(p)
  {
  }

  // ---------------------------------------------------------------------------------------
  // Permutations

  /** `s` rearranges `0..n`: every value below `n` appears, exactly once. */
  predicate IsPerm(s: seq<nat>, n: nat)
  {
    IsLine(s, n) && (forall i, j :: 0 <= i < j < n ==> s[i] != s[j]) &&
    forall v :: 0 <= v < n ==> v in s
  }

  /** A line of `n` programs, each one of the first `n`. */
  predicate IsLine(x: seq<nat>, n: nat)
  {
    |x| == n && forall i :: 0 <= i < n ==> x[i] < n
  }

  function Identity(n: nat): (r: seq<nat>)
    ensures |r| == n && forall i :: 0 <= i < n ==> r[i] == i
  {
    seq(n, i => i)
  }

  lemma IdentityPerm(n: nat)
    ensures IsPerm(Identity(n), n)
  {
    forall v | 0 <= v < n ensures v in Identity(n) {
      assert Identity(n)[v] == v;
    }
  }

  /** Rearranges `input` by position: the new element `x` is the old element at `order[x]`. */
  function ByPosition(order: seq<nat>, input: seq<nat>): (r: seq<nat>)
    requires |input| == |order| && forall i :: 0 <= i < |order| ==> order[i] < |input|
    ensures |r| == |order| && forall i {:trigger r[i]} :: 0 <= i < |r| ==> r[i] == input[order[i]]
  {
    seq(|order|, i requires 0 <= i < |order| => input[order[i]])
  }

  /** Renames every element of `input`: the new element `x` is `image` of the old one. */
  function ByValue(image: seq<nat>, input: seq<nat>): (r: seq<nat>)
    requires forall i :: 0 <= i < |input| ==> input[i] < |image|
    ensures |r| == |input| && forall i {:trigger r[i]} :: 0 <= i < |r| ==> r[i] == image[input[i]]
  {
    seq(|input|, i requires 0 <= i < |input| => image[input[i]])
  }

  /** The two kinds of transformation of a line of programs. */
  datatype Transformation = Transposition(order: seq<nat>) | Substitution(image: seq<nat>)

  function Table(t: Transformation): seq<nat>
  {
    match t
    case Transposition(order) => order
    case Substitution(image) => image
  }

  /** `t` is a permutation of `0..n` of either kind. */
  predicate IsPermOf(t: Transformation, n: nat)
  {
    IsPerm(Table(t), n)
  }

  /** `t` maps lines of `n` programs to lines of `n` programs. */
  predicate Fits(t: Transformation, n: nat)
  {
    IsLine(Table(t), n)
  }

  /** What `t` may transform without going out of bounds: a transposition takes a line of its own
      length whose every position it names exists; a substitution takes any line of values it maps. */
  predicate CanTransform(t: Transformation, input: seq<nat>)
  {
    match t
    case Transposition(order) => |input| == |order| && forall i :: 0 <= i < |order| ==> order[i] < |input|
    case Substitution(image) => forall i :: 0 <= i < |input| ==> input[i] < |image|
  }

  function Transform(t: Transformation, input: seq<nat>): seq<nat>
    requires CanTransform(t, input)
  {
    match t
    case Transposition(order) => ByPosition(order, input)
    case Substitution(image) => ByValue(image, input)
  }

  /** Combines two transformations of the same kind: the transposition reorders the other's
      table, the substitution renames it. */
  function Combine(t: Transformation, o: Transformation): (r: Transformation)
    requires t.Transposition? == o.Transposition? && CanTransform(t, Table(o))
    ensures r.Transposition? == t.Transposition?
  {
    match t
    case Transposition(order) => Transposition(ByPosition(order, o.order))
    case Substitution(image) => Substitution(ByValue(image, o.image))
  }

  /** The identity of either kind leaves every line as it is. */
  lemma IdentityTransforms(n: nat, input: seq<nat>)
    requires IsLine(input, n)
    ensures Transform(Transposition(Identity(n)), input) == input
    ensures Transform(Substitution(Identity(n)), input) == input
  {
  }

  /** Combining two transformations of lines of `n` programs gives one. */
  lemma CombineFits(t: Transformation, o: Transformation, n: nat)
    requires t.Transposition? == o.Transposition? && Fits(t, n) && Fits(o, n)
    ensures CanTransform(t, Table(o)) && Fits(Combine(t, o), n)
  {
  }

  /** Transforming by a combination is transforming by the other, then by the first. */
  lemma CombineTransform(t: Transformation, o: Transformation, x: seq<nat>, n: nat)
    requires t.Transposition? == o.Transposition? && Fits(t, n) && Fits(o, n) && IsLine(x, n)
    ensures CanTransform(t, Table(o)) && CanTransform(o, x) && CanTransform(t, Transform(o, x))
    ensures Transform(Combine(t, o), x) == Transform(t, Transform(o, x))
  {
  }

  /** Combining two permutations of `0..n` gives one. */
  lemma CombinePerm(t: Transformation, o: Transformation, n: nat)
    requires t.Transposition? == o.Transposition? && IsPermOf(t, n) && IsPermOf(o, n)
    ensures CanTransform(t, Table(o)) && IsPermOf(Combine(t, o), n)
  {
    var r := Table(Combine(t, o));
    var tt, ot := Table(t), Table(o);
    forall v | 0 <= v < n ensures v in r {
      if t.Transposition? {
        assert v in ot;
        var j :| 0 <= j < n && ot[j] == v;
        assert j in tt;
        var i :| 0 <= i < n && tt[i] == j;
        assert r[i] == v;
      } else {
        assert v in tt;
        var j :| 0 <= j < n && tt[j] == v;
        assert j in ot;
        var i :| 0 <= i < n && ot[i] == j;
        assert r[i] == v;
      }
    }
  }

  lemma CombineAssociative(a: Transformation, b: Transformation, c: Transformation, n: nat)
    requires a.Transposition? == b.Transposition? == c.Transposition?
    requires Fits(a, n) && Fits(b, n) && Fits(c, n)
    ensures CanTransform(a, Table(b)) && CanTransform(b, Table(c))
    ensures Combine(Combine(a, b), c) == Combine(a, Combine(b, c))
  {
  }

  // ---------------------------------------------------------------------------------------
  // Dance moves

  datatype DanceMove = Spin(size: U8) | Exchange(a: U8, b: U8) | Partner(p: Program, q: Program)

  /** The move fits a line of `n` programs: a spin of at most `n`, positions and programs below `n`. */
  predicate ValidMove(m: DanceMove, n: nat)
  {
    match m
    case Spin(s) => s <= n
    case Exchange(a, b) => a < n && b < n
    case Partner(p, q) => p.id < n && q.id < n
  }

  /** The last `s` elements move to the front. */
  function RotateRight(x: seq<nat>, s: nat): (r: seq<nat>)
    requires s <= |x|
    ensures |r| == |x|
    ensures forall k :: 0 <= k < s ==> r[k] == x[|x| - s + k]
    ensures forall k :: s <= k < |x| ==> r[k] == x[k - s]
  {
    x[|x| - s..] + x[..|x| - s]
  }

  function Swap(x: seq<nat>, i: nat, j: nat): (r: seq<nat>)
    requires i < |x| && j < |x|
    ensures |r| == |x| && r[i] == x[j] && r[j] == x[i]
    ensures forall k :: 0 <= k < |x| && k != i && k != j ==> r[k] == x[k]
  {
    x[i := x[j]][j := x[i]]
  }

  /** The rearrangement a spin or an exchange makes of any sequence. */
  function MovePositions(x: seq<nat>, m: DanceMove): (r: seq<nat>)
    requires !m.Partner? && ValidMove(m, |x|)
    ensures |r| == |x|
  {
    match m
    case Spin(s) => RotateRight(x, s)
    case Exchange(a, b) => Swap(x, a, b)
  }

  /** Partners `a` and `b` trade places, wherever they stand. */
  function SwapValue(v: nat, a: nat, b: nat): nat
  {
    if v == a then b else if v == b then a else v
  }

  /** One move of the dance, made on the line itself. */
  function DanceStep(line: seq<nat>, m: DanceMove): (r: seq<nat>)
    requires ValidMove(m, |line|)
    ensures |r| == |line|
  {
    match m
    case Partner(p, q) => seq(|line|, i requires 0 <= i < |line| => SwapValue(line[i], p.id, q.id))
    case _ => MovePositions(line, m)
  }

  predicate ValidMoves(moves: seq<DanceMove>, n: nat)
  {
    forall k :: 0 <= k < |moves| ==> ValidMove(moves[k], n)
  }

  /** The whole dance made move by move on the line. */
  function DanceAll(line: seq<nat>, moves: seq<DanceMove>): (r: seq<nat>)
    requires ValidMoves(moves, |line|)
    ensures |r| == |line|
  {
    if moves == [] then line else DanceStep(DanceAll(line, moves[..|moves| - 1]), moves[|moves| - 1])
  }

  /** The first index holding `v`. */
  function IndexOf(s: seq<nat>, v: nat): (r: nat)
    requires v in s
    ensures r < |s| && s[r] == v && forall j :: 0 <= j < r ==> s[j] != v
  {
    if s[0] == v then 0 else 1 + IndexOf(s[1..], v)
  }

  /** What one move does to the pair (transposition table, substitution table). */
  function DeriveStep(order: seq<nat>, image: seq<nat>, m: DanceMove, n: nat): (seq<nat>, seq<nat>)
    requires IsPerm(order, n) && IsPerm(image, n) && ValidMove(m, n)
  {
    match m
    case Partner(p, q) => (order, Swap(image, IndexOf(image, p.id), IndexOf(image, q.id)))
    case _ => (MovePositions(order, m), image)
  }

  /** Swapping two entries keeps a permutation one. */
  lemma SwapPerm(x: seq<nat>, i: nat, j: nat, n: nat)
    requires IsPerm(x, n) && i < n && j < n
    ensures IsPerm(Swap(x, i, j), n)
  {
    var r := Swap(x, i, j);
    forall v | 0 <= v < n ensures v in r {
      assert v in x;
      var k :| 0 <= k < n && x[k] == v;
      var k' := if k == i then j else if k == j then i else k;
      assert r[k'] == v;
    }
  }

  /** Spins and exchanges keep a permutation one. */
  lemma MovePositionsPerm(x: seq<nat>, m: DanceMove, n: nat)
    requires IsPerm(x, n) && !m.Partner? && ValidMove(m, n)
    ensures IsPerm(MovePositions(x, m), n)
  {
    match m
    case Spin(s) => SpinPerm(x, s, n);
    case Exchange(a, b) => SwapPerm(x, a, b, n);
  }

  /** A spin of a permutation is a permutation. */
  lemma SpinPerm(x: seq<nat>, s: nat, n: nat)
    requires IsPerm(x, n) && s <= n
    ensures IsPerm(RotateRight(x, s), n)
  {
    var r := RotateRight(x, s);
    forall i, j | 0 <= i < j < n ensures r[i] != r[j] {
      var fi := if i < s then n - s + i else i - s;
      var fj := if j < s then n - s + j else j - s;
      assert r[i] == x[fi] && r[j] == x[fj] && fi != fj;
    }
    forall v | 0 <= v < n ensures v in r {
      assert v in x;
      var j :| 0 <= j < n && x[j] == v;
      var k := if j >= n - s then j - (n - s) else j + s;
      assert r[k] == v;
    }
  }

  lemma DeriveStepPerm(order: seq<nat>, image: seq<nat>, m: DanceMove, n: nat)
    requires IsPerm(order, n) && IsPerm(image, n) && ValidMove(m, n)
    ensures IsPerm(DeriveStep(order, image, m, n).0, n) && IsPerm(DeriveStep(order, image, m, n).1, n)
  {
    match m
    case Partner(p, q) => SwapPerm(image, IndexOf(image, p.id), IndexOf(image, q.id), n);
    case _ => MovePositionsPerm(order, m, n);
  }

  /** The transposition and the substitution a sequence of moves amounts to, one move at a time. */
  function Derive(n: nat, moves: seq<DanceMove>): (r: (seq<nat>, seq<nat>))
    requires ValidMoves(moves, n)
    ensures IsPerm(r.0, n) && IsPerm(r.1, n)
  {
    if moves == [] then IdentityPerm(n); (Identity(n), Identity(n))
    else
      var (order, image) := Derive(n, moves[..|moves| - 1]);
      var m := moves[|moves| - 1];
      DeriveStepPerm(order, image, m, n);
      DeriveStep(order, image, m, n)
  }

  // ---------------------------------------------------------------------------------------
  // The imperative derivation

  /** `x` with the slice `lo..hi` reversed. */
  function ReverseRange(x: seq<nat>, lo: nat, hi: nat): (r: seq<nat>)
    requires lo <= hi <= |x|
    ensures |r| == |x|
  {
    seq(|x|, k requires 0 <= k < |x| => if lo <= k < hi then x[lo + hi - 1 - k] else x[k])
  }

  /** Reverses `a[lo..hi]` in place. */
  method Reverse(a: array<nat>, lo: nat, hi: nat)
    requires lo <= hi <= a.Length
    modifies a
    ensures a[..] == ReverseRange(old(a[..]), lo, hi)
  {
    var i, j := lo, hi;
    while i + 1 < j
      invariant lo <= i && j <= hi && i - lo == hi - j && i <= j
      invariant forall k :: 0 <= k < a.Length ==>
        a[k] == (if lo <= k < i || j <= k < hi then old(a[lo + hi - 1 - k]) else old(a[k]))
      decreases j - i
    {
      a[i], a[j - 1] := a[j - 1], a[i];
      i, j := i + 1, j - 1;
    }
  }

  /** Reversing the whole, then the first `s` and the rest, rotates right by `s`. */
  lemma ThreeReversals(x: seq<nat>, s: nat)
    requires s <= |x|
    ensures ReverseRange(ReverseRange(ReverseRange(x, 0, |x|), 0, s), s, |x|) == RotateRight(x, s)
  {
  }

  method SpinInPlace(a: array<nat>, s: nat)
    requires s <= a.Length
    modifies a
    ensures a[..] == RotateRight(old(a[..]), s)
  {
    Reverse(a, 0, a.Length);
    Reverse(a, 0, s);
    Reverse(a, s, a.Length);
    ThreeReversals(old(a[..]), s);
  }

  /** The first position of `v` in `a`. */
  method Position(a: array<nat>, v: nat) returns (pos: nat)
    requires v in a[..]
    ensures pos == IndexOf(a[..], v)
  {
    pos := 0;
    while a[pos] != v
      invariant pos < a.Length && forall j :: 0 <= j < pos ==> a[j] != v
      decreases a.Length - pos
    {
      if pos + 1 == a.Length {
        var k :| 0 <= k < a.Length && a[k] == v;
        assert false;
      }
      pos := pos + 1;
    }
    IndexOfUnique(a[..], v, pos);
  }

  lemma IndexOfUnique(s: seq<nat>, v: nat, pos: nat)
    requires pos < |s| && s[pos] == v && forall j :: 0 <= j < pos ==> s[j] != v
    ensures IndexOf(s, v) == pos
  {
    var r := IndexOf(s, v);
    assert s[r] == v;
  }

  /** One move made in place on the two tables. */
  method MoveInPlace(order: array<nat>, image: array<nat>, m: DanceMove, ghost n: nat)
    requires order != image && IsPerm(order[..], n) && IsPerm(image[..], n) && ValidMove(m, n)
    modifies order, image
    ensures (order[..], image[..]) == DeriveStep(old(order[..]), old(image[..]), m, n)
  {
    match m {
      case Spin(s) =>
        SpinInPlace(order, s);
      case Exchange(a, b) =>
        order[a], order[b] := order[b], order[a];
      case Partner(p, q) =>
        var pa := Position(image, p.id);
        var pb := Position(image, q.id);
        image[pa], image[pb] := image[pb], image[pa];
    }
  }

  /** The source's loop over the moves, reversing and swapping the two tables in place. */
  method DeriveTransformation(programs: U8, moves: seq<DanceMove>) returns (transposition: seq<nat>, substitution: seq<nat>)
    requires ValidMoves(moves, programs)
    ensures (transposition, substitution) == Derive(programs, moves)
  {
    var order := new nat[programs](i => i);
    var image := new nat[programs](i => i);
    assert order[..] == Identity(programs) && image[..] == Identity(programs);
    for i := 0 to |moves|
      invariant (order[..], image[..]) == Derive(programs, moves[..i])
    {
      assert moves[..i + 1][..i] == moves[..i];
      MoveInPlace(order, image, moves[i], programs);
    }
    assert moves[..|moves|] == moves;
    transposition, substitution := order[..], image[..];
  }

  // ---------------------------------------------------------------------------------------
  // The derivation is the dance

  /** Rearranging by position commutes with renaming. */
  lemma MoveCommutesWithRename(image: seq<nat>, y: seq<nat>, m: DanceMove)
    requires !m.Partner? && ValidMove(m, |y|) && forall i :: 0 <= i < |y| ==> y[i] < |image|
    ensures forall i :: 0 <= i < |MovePositions(y, m)| ==> MovePositions(y, m)[i] < |image|
    ensures MovePositions(ByValue(image, y), m) == ByValue(image, MovePositions(y, m))
  {
  }

  /** Moving the positions of a transposition table moves the positions of what it produces. */
  lemma MoveOfTransposition(order: seq<nat>, line: seq<nat>, m: DanceMove, n: nat)
    requires IsLine(order, n) && |line| == n && !m.Partner? && ValidMove(m, n)
    ensures IsLine(MovePositions(order, m), n)
    ensures MovePositions(ByPosition(order, line), m) == ByPosition(MovePositions(order, m), line)
  {
    var y := ByPosition(order, line);
    match m
    case Spin(s) =>
      var l, r := RotateRight(y, s), RotateRight(order, s);
      assert IsLine(r, n);
      var z := ByPosition(r, line);
      assert forall k :: 0 <= k < n ==> l[k] == z[k];
    case Exchange(a, b) =>
      var l, r := Swap(y, a, b), Swap(order, a, b);
      assert IsLine(r, n);
      var z := ByPosition(r, line);
      assert forall k :: 0 <= k < n ==> l[k] == z[k];
  }

  /** Swapping the positions of two partners in a permutation renames every value by the swap. */
  lemma PartnerSwap(image: seq<nat>, n: nat, a: nat, b: nat)
    requires IsPerm(image, n) && a < n && b < n
    ensures forall v :: 0 <= v < n ==> Swap(image, IndexOf(image, a), IndexOf(image, b))[v] == SwapValue(image[v], a, b)
  {
  }

  /** After any valid moves, the dance equals renaming by the derived substitution the line
      reordered by the derived transposition. */
  lemma {:induction false} DeriveCorrect(n: nat, moves: seq<DanceMove>, line: seq<nat>)
    requires ValidMoves(moves, n) && IsLine(line, n)
    ensures var (order, image) := Derive(n, moves);
      DanceAll(line, moves) == ByValue(image, ByPosition(order, line))
  {
    if moves != [] {
      var init, m := moves[..|moves| - 1], moves[|moves| - 1];
      assert ValidMoves(init, n);
      DeriveCorrect(n, init, line);
      var (order, image) := Derive(n, init);
      var y := ByPosition(order, line);
      match m
      case Partner(p, q) =>
        PartnerSwap(image, n, p.id, q.id);
      case _ =>
        MoveOfTransposition(order, line, m, n);
        MoveCommutesWithRename(image, y, m);
    }
  }

  // ---------------------------------------------------------------------------------------
  // Repetition

  /** The transformation repeated `k` times by repeated squaring, as the source computes it. */
  function RepeatTransformation(t: Transformation, k: nat, ghost n: nat): (r: Transformation)
    requires k > 0 && Fits(t, n)
    ensures Fits(r, n) && r.Transposition? == t.Transposition?
    decreases k
  {
    if k == 1 then t
    else if k % 2 == 0 then
      CombineFits(t, t, n);
      RepeatTransformation(Combine(t, t), k / 2, n)
    else
      var r := RepeatTransformation(t, k - 1, n);
      CombineFits(r, t, n);
      Combine(r, t)
  }

  /** The transformation combined with itself `k` times, one at a time. */
  function Power(t: Transformation, k: nat, ghost n: nat): (r: Transformation)
    requires k > 0 && Fits(t, n)
    ensures Fits(r, n) && r.Transposition? == t.Transposition?
  {
    if k == 1 then t
    else
      var r := Power(t, k - 1, n);
      CombineFits(r, t, n);
      Combine(r, t)
  }

  /** The transformation applied `k` times to a line. */
  function Iterate(t: Transformation, k: nat, x: seq<nat>, ghost n: nat): (r: seq<nat>)
    requires Fits(t, n) && IsLine(x, n)
    ensures IsLine(r, n)
  {
    if k == 0 then x else Iterate(t, k - 1, Transform(t, x), n)
  }

  /** Transforming by the `k`-fold combination is transforming `k` times. */
  lemma {:induction false} PowerTransform(t: Transformation, k: nat, x: seq<nat>, n: nat)
    requires k > 0 && Fits(t, n) && IsLine(x, n)
    ensures Transform(Power(t, k, n), x) == Iterate(t, k, x, n)
  {
    if k > 1 {
      CombineTransform(Power(t, k - 1, n), t, x, n);
      PowerTransform(t, k - 1, Transform(t, x), n);
    }
  }

  /** Applying the square `j` times is applying the transformation `2 * j` times. */
  lemma IterateSquare(t: Transformation, j: nat, x: seq<nat>, n: nat)
    requires Fits(t, n) && Fits(Combine(t, t), n) && IsLine(x, n)
    ensures Iterate(Combine(t, t), j, x, n) == Iterate(t, 2 * j, x, n)
  {
    var f, g := StepOf(t), StepOf(Combine(t, t));
    forall y | IsLine(y, n) ensures IsLine(g(y), n) && g(y) == f(f(y)) {
      TransformLine(t, y, n);
      TransformLine(t, Transform(t, y), n);
      CombineTransform(t, t, y, n);
    }
    ApplyTwice(f, g, y => IsLine(y, n), j, 2 * j, x);
    IterateIsApply(Combine(t, t), j, x, n);
    IterateIsApply(t, 2 * j, x, n);
  }

  /** A transformation as a step on any sequence, leaving one it cannot transform as it is. */
  function StepOf(t: Transformation): seq<nat> -> seq<nat>
  {
    y => if CanTransform(t, y) then Transform(t, y) else y
  }

  /** `k` steps of `f` from `x`. */
  function Apply(f: seq<nat> -> seq<nat>, k: nat, x: seq<nat>): seq<nat>
  {
    if k == 0 then x else Apply(f, k - 1, f(x))
  }

  /** Applying a transformation `k` times to a line is taking `k` of its steps. */
  lemma {:induction false} IterateIsApply(t: Transformation, k: nat, x: seq<nat>, n: nat)
    requires Fits(t, n) && IsLine(x, n)
    ensures Iterate(t, k, x, n) == Apply(StepOf(t), k, x)
  {
    if k > 0 {
      StepOfLine(t, x, n);
      IterateIsApply(t, k - 1, Transform(t, x), n);
    }
  }

  /** On a line, the step of a transformation is the transformation. */
  lemma StepOfLine(t: Transformation, x: seq<nat>, n: nat)
    requires Fits(t, n) && IsLine(x, n)
    ensures CanTransform(t, x) && IsLine(Transform(t, x), n) && StepOf(t)(x) == Transform(t, x)
  {
    TransformLine(t, x, n);
  }

  /** When one step of `g` is two of `f` on every sequence satisfying `inv`, and keeps `inv`, `j` steps of `g` are `m = 2 * j` steps of `f`. */
  lemma {:induction false} ApplyTwice(f: seq<nat> -> seq<nat>, g: seq<nat> -> seq<nat>, inv: seq<nat> -> bool,
                                      j: nat, m: nat, x: seq<nat>)
    requires m == 2 * j && inv(x)
    requires forall y {:trigger g(y)} :: inv(y) ==> inv(g(y)) && g(y) == f(f(y))
    ensures Apply(g, j, x) == Apply(f, m, x)
    decreases j
  {
    if j > 0 {
      assert g(x) == f(f(x));
      ApplyTwice(f, g, inv, j - 1, m - 2, f(f(x)));
      assert Apply(f, m, x) == Apply(f, m - 1, f(x)) == Apply(f, m - 2, f(f(x)));
    }
  }

  /** Applying a transformation `k` times is applying it once, then `k - 1` times. */
  lemma IterateOnce(t: Transformation, k: nat, x: seq<nat>, n: nat)
    requires k > 0 && Fits(t, n) && IsLine(x, n)
    ensures CanTransform(t, x) && IsLine(Transform(t, x), n)
    ensures Iterate(t, k, x, n) == Iterate(t, k - 1, Transform(t, x), n)
  {
    TransformLine(t, x, n);
  }

  /** Transforming by the repeated transformation is transforming `k` times. */
  lemma {:induction false} RepeatTransform(t: Transformation, k: nat, x: seq<nat>, n: nat)
    requires k > 0 && Fits(t, n) && IsLine(x, n)
    ensures Transform(RepeatTransformation(t, k, n), x) == Iterate(t, k, x, n)
    decreases k
  {
    if k == 1 {
      assert Iterate(t, 1, x, n) == Iterate(t, 0, Transform(t, x), n);
    } else if k % 2 == 0 {
      CombineFits(t, t, n);
      var tt := Combine(t, t);
      assert RepeatTransformation(t, k, n) == RepeatTransformation(tt, k / 2, n);
      RepeatTransform(tt, k / 2, x, n);
      IterateSquare(t, k / 2, x, n);
      assert 2 * (k / 2) == k;
      assert Iterate(t, 2 * (k / 2), x, n) == Iterate(t, k, x, n);
      assert Transform(RepeatTransformation(t, k, n), x) == Iterate(t, k, x, n);
    } else {
      var r := RepeatTransformation(t, k - 1, n);
      CombineFits(r, t, n);
      assert RepeatTransformation(t, k, n) == Combine(r, t);
      CombineTransform(r, t, x, n);
      RepeatTransform(t, k - 1, Transform(t, x), n);
      assert Iterate(t, k, x, n) == Iterate(t, k - 1, Transform(t, x), n);
      assert Transform(RepeatTransformation(t, k, n), x) == Iterate(t, k, x, n);
    }
  }

  /** A table is what its transformation makes of the identity line. */
  lemma TableOfIdentity(t: Transformation, n: nat)
    requires Fits(t, n)
    ensures Table(t) == Transform(t, Identity(n))
  {
  }

  /** Repeated squaring computes the `k`-fold combination. */
  lemma RepeatIsPower(t: Transformation, k: nat, n: nat)
    requires k > 0 && Fits(t, n)
    ensures RepeatTransformation(t, k, n) == Power(t, k, n)
  {
    var r, p := RepeatTransformation(t, k, n), Power(t, k, n);
    IdentityPerm(n);
    RepeatTransform(t, k, Identity(n), n);
    PowerTransform(t, k, Identity(n), n);
    TableOfIdentity(r, n);
    TableOfIdentity(p, n);
  }

  /** `k` dances in a row. */
  function DanceTimes(line: seq<nat>, moves: seq<DanceMove>, k: nat): (r: seq<nat>)
    requires ValidMoves(moves, |line|)
    ensures |r| == |line|
    decreases k
  {
    if k == 0 then line else DanceTimes(DanceAll(line, moves), moves, k - 1)
  }

  /** The final line of the source's whole dance: the repeated substitution applied to the
      identity line reordered by the repeated transposition. */
  function WholeDance(n: nat, moves: seq<DanceMove>, repeats: nat): seq<nat>
    requires ValidMoves(moves, n) && repeats > 0
  {
    var (order, image) := Derive(n, moves);
    var t := RepeatTransformation(Transposition(order), repeats, n);
    var s := RepeatTransformation(Substitution(image), repeats, n);
    ByValue(s.image, ByPosition(t.order, Identity(n)))
  }

  /** The whole dance is `repeats` dances in a row. */
  lemma WholeDanceCorrect(n: nat, moves: seq<DanceMove>, repeats: nat)
    requires ValidMoves(moves, n) && repeats > 0
    ensures WholeDance(n, moves, repeats) == DanceTimes(Identity(n), moves, repeats)
  {
    var (order, image) := Derive(n, moves);
    var t, s := Transposition(order), Substitution(image);
    RepeatIsPower(t, repeats, n);
    RepeatIsPower(s, repeats, n);
    forall line | IsLine(line, n)
      ensures DanceAll(line, moves) == Transform(s, Transform(t, line))
    {
      DeriveCorrect(n, moves, line);
    }
    IdentityPerm(n);
    PowerDance(t, s, n, moves, repeats, Identity(n));
  }

  /** Renaming commutes with reordering. */
  lemma RenameCommutes(order: seq<nat>, image: seq<nat>, y: seq<nat>, n: nat)
    requires IsLine(order, n) && IsLine(image, n) && IsLine(y, n)
    ensures ByPosition(order, ByValue(image, y)) == ByValue(image, ByPosition(order, y))
  {
  }

  /** A transformation fitting `n` maps a line of `n` programs to another. */
  lemma TransformLine(t: Transformation, x: seq<nat>, n: nat)
    requires Fits(t, n) && IsLine(x, n)
    ensures CanTransform(t, x) && IsLine(Transform(t, x), n)
  {
  }

  /** When a transposition followed by a substitution is one dance, their `k`-fold combinations
      make `k` dances. */
  lemma {:induction false} PowerDance(t: Transformation, s: Transformation, n: nat, moves: seq<DanceMove>, k: nat, x: seq<nat>)
    requires k > 0 && t.Transposition? && s.Substitution? && Fits(t, n) && Fits(s, n)
    requires ValidMoves(moves, n) && IsLine(x, n)
    requires forall line {:trigger DanceAll(line, moves)} :: IsLine(line, n) ==> DanceAll(line, moves) == Transform(s, Transform(t, line))
    ensures CanTransform(Power(t, k, n), x) && CanTransform(Power(s, k, n), Transform(Power(t, k, n), x))
    ensures Transform(Power(s, k, n), Transform(Power(t, k, n), x)) == DanceTimes(x, moves, k)
  {
    var pt, ps := Power(t, k, n), Power(s, k, n);
    TransformLine(pt, x, n);
    var y := Transform(pt, x);
    TransformLine(ps, y, n);
    var d := DanceAll(x, moves);
    TransformLine(t, x, n);
    TransformLine(s, Transform(t, x), n);
    assert d == Transform(s, Transform(t, x));
    if k == 1 {
      assert pt == t && ps == s;
      assert DanceTimes(x, moves, 1) == DanceTimes(d, moves, 0);
    } else {
      PowerStep(t, s, n, k, x);
      PowerDance(t, s, n, moves, k - 1, d);
      assert DanceTimes(x, moves, k) == DanceTimes(d, moves, k - 1);
    }
  }

  /** Peeling one round off both combinations: the remaining reordering and the first renaming
      commute. */
  lemma PowerStep(t: Transformation, s: Transformation, n: nat, k: nat, x: seq<nat>)
    requires k > 1 && t.Transposition? && s.Substitution? && Fits(t, n) && Fits(s, n) && IsLine(x, n)
    ensures Transform(Power(s, k, n), Transform(Power(t, k, n), x)) ==
      Transform(Power(s, k - 1, n), Transform(Power(t, k - 1, n), Transform(s, Transform(t, x))))
  {
    var q, p := Power(t, k - 1, n), Power(s, k - 1, n);
    var w := Transform(t, x);
    CombineTransform(q, t, x, n);
    var u := Transform(q, w);
    CombineTransform(p, s, u, n);
    RenameCommutes(q.order, s.image, w, n);
  }

  /** The dancers' names in their final order. */
  function DanceText(line: seq<nat>): (s: string)
    requires forall i :: 0 <= i < |line| ==> line[i] < 26
    ensures |s| == |line| && forall i :: 0 <= i < |s| ==> FromChar(s[i]) == Some(Program(line[i]))
  {
    seq(|line|, i requires 0 <= i < |line| => ToChar(Program(line[i])).value)
  }
}
