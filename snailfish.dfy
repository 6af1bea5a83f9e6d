// Snailfish numbers: binary trees of regular numbers, added by pairing and then reduced by
// exploding the pairs nested four deep and splitting regular numbers of ten or more.

module Snailfish {

  datatype Option<T> = None | Some(value: T)

  datatype Node = Leaf(v: nat) | Pair(left: Node, right: Node)

  /** Adding two numbers pairs them, without reducing. */
  function Add(a: Node, b: Node): (r: Node)
    ensures r.Pair? && r.left == a && r.right == b
  {
    Pair(a, b)
  }

  /** The regular numbers, left to right. */
  function Leaves(n: Node): (r: seq<nat>)
    ensures |r| > 0
  {
    match n
    case Leaf(v) => [v]
    case Pair(a, b) => Leaves(a) + Leaves(b)
  }

  /** The number of nodes, which adding to a regular number does not change. */
  function Size(n: Node): nat
  {
    match n
    case Leaf(_) => 1
    case Pair(a, b) => 1 + Size(a) + Size(b)
  }

  function LeafSum(n: Node): nat
  {
    match n
    case Leaf(v) => v
    case Pair(a, b) => LeafSum(a) + LeafSum(b)
  }

  // ---------------------------------------------------------------------------------------
  // Depth

  /** No pair sits at depth four or more, when `n` sits at depth `depth`. */
  predicate Shallow(n: Node, depth: nat)
  {
    match n
    case Leaf(_) => true
    case Pair(a, b) => depth < 4 && Shallow(a, depth + 1) && Shallow(b, depth + 1)
  }

  /** Exploding does not panic: every pair at depth four or more is a pair of regular numbers. */
  predicate Explodable(n: Node, depth: nat)
  {
    match n
    case Leaf(_) => true
    case Pair(a, b) =>
      if depth >= 4 then a.Leaf? && b.Leaf? else Explodable(a, depth + 1) && Explodable(b, depth + 1)
  }

  /** A shallow number stays explodable one level further down. */
  lemma {:induction false} ShallowExplodable(n: Node, depth: nat)
    requires Shallow(n, depth)
    ensures Explodable(n, depth) && Explodable(n, depth + 1)
  {
    if n.Pair? {
      ShallowExplodable(n.left, depth + 1);
      ShallowExplodable(n.right, depth + 1);
    }
  }

  // ---------------------------------------------------------------------------------------
  // Exploding

  /** The leftmost regular number increased by `x`. */
  function AddLeftmost(n: Node, x: nat): (r: Node)
    ensures Size(r) == Size(n) && LeafSum(r) == LeafSum(n) + x
    ensures forall d: nat :: Shallow(r, d) == Shallow(n, d) && Explodable(r, d) == Explodable(n, d)
  {
    match n
    case Leaf(v) => Leaf(v + x)
    case Pair(a, b) => Pair(AddLeftmost(a, x), b)
  }

  /** The rightmost regular number increased by `x`. */
  function AddRightmost(n: Node, x: nat): (r: Node)
    ensures Size(r) == Size(n) && LeafSum(r) == LeafSum(n) + x
    ensures forall d: nat :: Shallow(r, d) == Shallow(n, d) && Explodable(r, d) == Explodable(n, d)
  {
    match n
    case Leaf(v) => Leaf(v + x)
    case Pair(a, b) => Pair(a, AddRightmost(b, x))
  }

  function Value(x: Option<nat>): nat
  {
    if x.Some? then x.value else 0
  }

  /** What exploding leaves: the new number and the values still to be added to the regular
      numbers left and right of it. */
  datatype Exploded = Exploded(node: Node, toLeft: Option<nat>, toRight: Option<nat>)

  /** The source's one pass over the tree: every pair at depth four becomes `0`, its left value
      goes to the nearest regular number on its left and its right value to the nearest on its
      right; a value with no such number there is handed up. */
  function Explode(n: Node, depth: nat): (r: Exploded)
    requires Explodable(n, depth)
    ensures n.Pair? && depth >= 4 ==> r == Exploded(Leaf(0), Some(n.left.v), Some(n.right.v))
    ensures LeafSum(n) == LeafSum(r.node) + Value(r.toLeft) + Value(r.toRight)
    ensures Shallow(r.node, depth)
    decreases Size(n)
  {
    match n
    case Leaf(_) => Exploded(n, None, None)
    case Pair(a, b) =>
      if depth >= 4 then Exploded(Leaf(0), Some(a.v), Some(b.v))
      else
        var ea := Explode(a, depth + 1);
        var b1 := if ea.toRight.Some? then AddLeftmost(b, ea.toRight.value) else b;
        var eb := Explode(b1, depth + 1);
        var a1 := if eb.toLeft.Some? then AddRightmost(ea.node, eb.toLeft.value) else ea.node;
        Exploded(Pair(a1, eb.node), ea.toLeft, eb.toRight)
  }

  /** With no pair deep enough, exploding changes nothing. */
  lemma {:induction false} ExplodeShallow(n: Node, depth: nat)
    requires Shallow(n, depth)
    ensures Explodable(n, depth) && Explode(n, depth) == Exploded(n, None, None)
  {
    ShallowExplodable(n, depth);
    if n.Pair? {
      ExplodeShallow(n.left, depth + 1);
      ExplodeShallow(n.right, depth + 1);
    }
  }

  // ---------------------------------------------------------------------------------------
  // Splitting

  /** The position of the first value of ten or more, or `|s|` if there is none. */
  function FirstBig(s: seq<nat>): (r: nat)
    ensures r <= |s| && (r < |s| ==> s[r] >= 10)
  {
    if s == [] then 0 else if s[0] >= 10 then 0 else 1 + FirstBig(s[1..])
  }

  /** Every value before the first big one is below ten. */
  lemma {:induction false} FirstBigSmall(s: seq<nat>)
    ensures forall k :: 0 <= k < FirstBig(s) ==> s[k] < 10
  {
    if s != [] && s[0] < 10 {
      FirstBigSmall(s[1..]);
      forall k | 0 <= k < FirstBig(s)
        ensures s[k] < 10
      {
        if k > 0 {
          assert s[k] == s[1..][k - 1];
        }
      }
    }
  }

  lemma {:induction false} FirstBigAppend(x: seq<nat>, y: seq<nat>)
    ensures FirstBig(x + y) == if FirstBig(x) < |x| then FirstBig(x) else |x| + FirstBig(y)
  {
    if x != [] {
      assert (x + y)[1..] == x[1..] + y;
      FirstBigAppend(x[1..], y);
    } else {
      assert x + y == y;
    }
  }

  datatype Splitted = Splitted(node: Node, done: bool)

  /** The leftmost regular number of ten or more, if any, becomes the pair of its halves,
      rounded down and up. */
  function Split(n: Node): (r: Splitted)
    ensures !r.done ==> r.node == n
  {
    match n
    case Leaf(v) => if v >= 10 then Splitted(Pair(Leaf(v / 2), Leaf((v + 1) / 2)), true) else Splitted(n, false)
    case Pair(a, b) =>
      var sa := Split(a);
      if sa.done then Splitted(Pair(sa.node, b), true)
      else
        var sb := Split(b);
        Splitted(Pair(a, sb.node), sb.done)
  }

  /** Splitting happens exactly when some regular number is ten or more. */
  lemma {:induction false} SplitDone(n: Node)
    ensures Split(n).done <==> FirstBig(Leaves(n)) < |Leaves(n)|
  {
    if n.Pair? {
      SplitDone(n.left);
      SplitDone(n.right);
      FirstBigAppend(Leaves(n.left), Leaves(n.right));
    }
  }

  /** The split replaces the first regular number of ten or more by its two halves, in place. */
  lemma {:induction false} SplitLeaves(n: Node)
    ensures FirstBig(Leaves(n)) < |Leaves(n)| ==> Leaves(Split(n).node) == Spliced(Leaves(n), FirstBig(Leaves(n)))
    decreases n, 1
  {
    if n.Pair? {
      SplitPairLeaves(n.left, n.right);
      assert Leaves(n) == Leaves(n.left) + Leaves(n.right);
    } else {
      var s := Leaves(n);
      assert s == [n.v];
    }
  }

  lemma {:induction false} SplitPairLeaves(a: Node, b: Node)
    ensures FirstBig(Leaves(a) + Leaves(b)) < |Leaves(a) + Leaves(b)| ==>
      Leaves(Split(Pair(a, b)).node) == Spliced(Leaves(a) + Leaves(b), FirstBig(Leaves(a) + Leaves(b)))
    decreases Pair(a, b), 0
  {
    var la, lb := Leaves(a), Leaves(b);
    var i, j := FirstBig(la), FirstBig(lb);
    FirstBigAppend(la, lb);
    SplitDone(a);
    if Split(a).done {
      assert FirstBig(la + lb) == i;
      SplitLeaves(a);
      SplitInLeft(a, b, i);
    } else if j < |lb| {
      assert FirstBig(la + lb) == |la| + j;
      SplitLeaves(b);
      SplitInRight(a, b, j);
    } else {
      assert FirstBig(la + lb) == |la + lb|;
    }
  }

  lemma SplitInLeft(a: Node, b: Node, j: nat)
    requires Split(a).done && j < |Leaves(a)|
    requires Leaves(Split(a).node) == Spliced(Leaves(a), j)
    ensures Leaves(Split(Pair(a, b)).node) == Spliced(Leaves(a) + Leaves(b), j)
  {
    var sa := Split(a);
    var la, lb, ls := Leaves(a), Leaves(b), Leaves(sa.node);
    assert Split(Pair(a, b)).node == Pair(sa.node, b);
    assert Leaves(Pair(sa.node, b)) == ls + lb;
    SpliceLeft(la, lb, j);
  }

  lemma SplitInRight(a: Node, b: Node, j: nat)
    requires !Split(a).done && j < |Leaves(b)|
    requires Leaves(Split(b).node) == Spliced(Leaves(b), j)
    ensures Leaves(Split(Pair(a, b)).node) == Spliced(Leaves(a) + Leaves(b), |Leaves(a)| + j)
  {
    var sb := Split(b);
    var la, lb, ls := Leaves(a), Leaves(b), Leaves(sb.node);
    assert Split(Pair(a, b)).node == Pair(a, sb.node);
    assert Leaves(Pair(a, sb.node)) == la + ls;
    SpliceRight(la, lb, j);
  }

  /** `s` with the value at `i` replaced by its two halves, one position at a time. */
  function Spliced(s: seq<nat>, i: nat): (r: seq<nat>)
    requires i < |s|
    ensures |r| == |s| + 1
    decreases i
  {
    if i == 0 then [s[0] / 2, (s[0] + 1) / 2] + s[1..] else [s[0]] + Spliced(s[1..], i - 1)
  }

  /** The splice keeps the values before and after position `i` and puts the two halves
      between them. */
  lemma {:induction false} SplicedIs(s: seq<nat>, i: nat)
    requires i < |s|
    ensures Spliced(s, i) == s[..i] + [s[i] / 2, (s[i] + 1) / 2] + s[i + 1..]
    decreases i
  {
    if i > 0 {
      SplicedIs(s[1..], i - 1);
      assert s[1..][..i - 1] == s[1..i];
      assert s[1..][i - 1 + 1..] == s[i + 1..];
      assert [s[0]] + s[1..i] == s[..i];
    }
  }

  lemma {:induction false} SpliceLeft(x: seq<nat>, y: seq<nat>, j: nat)
    requires j < |x|
    ensures Spliced(x, j) + y == Spliced(x + y, j)
    decreases j
  {
    assert (x + y)[1..] == x[1..] + y;
    if j > 0 {
      SpliceLeft(x[1..], y, j - 1);
    }
  }

  lemma {:induction false} SpliceRight(x: seq<nat>, y: seq<nat>, j: nat)
    requires j < |y|
    ensures x + Spliced(y, j) == Spliced(x + y, |x| + j)
    decreases |x|
  {
    if x == [] {
      assert x + y == y;
    } else {
      assert (x + y)[1..] == x[1..] + y;
      SpliceRight(x[1..], y, j);
      assert x == [x[0]] + x[1..];
    }
  }

  /** Splitting a shallow number leaves one that explodes without panicking. */
  lemma {:induction false} SplitExplodable(n: Node, depth: nat)
    requires Shallow(n, depth)
    ensures Explodable(Split(n).node, depth)
  {
    ShallowExplodable(n, depth);
    if n.Pair? {
      SplitExplodable(n.left, depth + 1);
      if !Split(n.left).done {
        SplitExplodable(n.right, depth + 1);
      } else {
        ShallowExplodable(n.right, depth + 1);
      }
    }
  }

  // ---------------------------------------------------------------------------------------
  // Reducing

  /** Reduced: no pair four deep and no regular number of ten or more. */
  predicate Reduced(n: Node)
  {
    Shallow(n, 0) && forall k :: 0 <= k < |Leaves(n)| ==> Leaves(n)[k] < 10
  }

  /** The source's loop, given `fuel` rounds: explode everything, then split once, until no
      split happens; `None` if the rounds run out. */
  function Reduction(n: Node, fuel: nat): (r: Option<Node>)
    requires Explodable(n, 0)
    ensures r.Some? ==> !Split(r.value).done
    decreases fuel
  {
    if fuel == 0 then None
    else
      var e := Explode(n, 0).node;
      var s := Split(e);
      if !s.done then Some(e)
      else
        SplitExplodable(e, 0);
        Reduction(s.node, fuel - 1)
  }

  /** What reducing ends with is reduced. */
  lemma {:induction false} ReductionReduced(n: Node, fuel: nat)
    requires Explodable(n, 0)
    ensures Reduction(n, fuel).Some? ==> Reduced(Reduction(n, fuel).value)
    decreases fuel
  {
    if fuel > 0 {
      var e := Explode(n, 0).node;
      var s := Split(e);
      SplitDone(e);
      if s.done {
        SplitExplodable(e, 0);
        ReductionReduced(s.node, fuel - 1);
      } else {
        FirstBigSmall(Leaves(e));
      }
    }
  }

  /** Reducing a reduced number changes nothing. */
  lemma ReductionOfReduced(n: Node, fuel: nat)
    requires Reduced(n) && fuel > 0
    ensures Explodable(n, 0) && Reduction(n, fuel) == Some(n)
  {
    ExplodeShallow(n, 0);
    SplitDone(n);
  }

  /** `reduce`, as the source's loop, given `fuel` rounds. */
  method Reduce(n: Node, fuel: nat) returns (r: Option<Node>)
    requires Explodable(n, 0)
    ensures r == Reduction(n, fuel)
    ensures r.Some? ==> Reduced(r.value)
  {
    ReductionReduced(n, fuel);
    var cur := n;
    var rounds := fuel;
    while rounds > 0
      invariant Explodable(cur, 0) && Reduction(cur, rounds) == Reduction(n, fuel)
      decreases rounds
    {
      var e := Explode(cur, 0).node;
      var s := Split(e);
      if !s.done {
        return Some(e);
      }
      SplitExplodable(e, 0);
      cur := s.node;
      rounds := rounds - 1;
    }
    return None;
  }

  /** Adding and then reducing; two reduced numbers, or any two that explode without
      panicking one level down, can be added. */
  function AddReduce(a: Node, b: Node, fuel: nat): (r: Option<Node>)
    requires Explodable(a, 1) && Explodable(b, 1)
    ensures r.Some? ==> Reduced(r.value)
  {
    ReductionReduced(Add(a, b), fuel);
    Reduction(Add(a, b), fuel)
  }

  // ---------------------------------------------------------------------------------------
  // Magnitude

  /** Three times the left magnitude plus twice the right. */
  function Magnitude(n: Node): (r: nat)
    ensures r == 0 <==> LeafSum(n) == 0
  {
    match n
    case Leaf(v) => v
    case Pair(a, b) => 3 * Magnitude(a) + 2 * Magnitude(b)
  }

  function Pow5(k: nat): nat
  {
    if k == 0 then 1 else 5 * Pow5(k - 1)
  }

  /** Every regular number weighs at least once in the magnitude. */
  lemma {:induction false} MagnitudeAtLeastSum(n: Node)
    ensures LeafSum(n) <= Magnitude(n)
  {
    if n.Pair? {
      MagnitudeAtLeastSum(n.left);
      MagnitudeAtLeastSum(n.right);
    }
  }

  /** A shallow number of single digits at depth `depth` has magnitude at most
      `9 * 5^(4 - depth)`; so a reduced number's magnitude is at most 5625 and fits the source's
      32 bits. */
  lemma {:induction false} MagnitudeBound(n: Node, depth: nat)
    requires Shallow(n, depth) && depth <= 4 && forall k :: 0 <= k < |Leaves(n)| ==> Leaves(n)[k] < 10
    ensures Magnitude(n) <= 9 * Pow5(4 - depth)
  {
    match n
    case Leaf(v) =>
      assert Leaves(n)[0] == v;
      PowPositive(4 - depth);
    case Pair(a, b) =>
      forall k | 0 <= k < |Leaves(a)| ensures Leaves(a)[k] < 10 {
        assert Leaves(n)[k] == Leaves(a)[k];
      }
      forall k | 0 <= k < |Leaves(b)| ensures Leaves(b)[k] < 10 {
        assert Leaves(n)[|Leaves(a)| + k] == Leaves(b)[k];
      }
      MagnitudeBound(a, depth + 1);
      MagnitudeBound(b, depth + 1);
      assert Pow5(4 - depth) == 5 * Pow5(4 - (depth + 1));
  }

  lemma {:induction false} PowPositive(k: nat)
    ensures Pow5(k) >= 1
  {
    if k > 0 {
      PowPositive(k - 1);
    }
  }

  lemma ReducedMagnitude(n: Node)
    ensures Reduced(n) ==> Magnitude(n) <= 5625 < 0x1_0000_0000
  {
    if Reduced(n) {
      MagnitudeBound(n, 0);
    }
  }

  // ---------------------------------------------------------------------------------------
  // Text

  function DigitChar(d: nat): (c: char)
    requires d < 10
    ensures IsDigit(c)
  {
    "0123456789"[d]
  }

  function Decimal(v: nat): (r: string)
    ensures |r| > 0
    ensures forall i :: 0 <= i < |r| ==> IsDigit(r[i])
    decreases v
  {
    if v < 10 then [DigitChar(v)] else Decimal(v / 10) + [DigitChar(v % 10)]
  }

  /** `Display`: regular numbers in decimal, pairs as `[left,right]`. */
  function Show(n: Node): (r: string)
    ensures r != [] && (n.Pair? <==> r[0] == '[') && (n.Pair? ==> r[|r| - 1] == ']')
  {
    match n
    case Leaf(v) => Decimal(v)
    case Pair(a, b) => "[" + Show(a) + "," + Show(b) + "]"
  }

  /** ASCII whitespace: space, tab, line feed, form feed and carriage return. */
  predicate IsWhitespace(c: char)
  {
    c == ' ' || c == '\t' || c == '\n' || c == '\U{000C}' || c == '\r'
  }

  predicate IsDigit(c: char)
  {
    '0' <= c <= '9'
  }

  function SkipWhitespace(s: string): (r: string)
    ensures |r| <= |s| && (r != [] ==> !IsWhitespace(r[0]))
  {
    if s != [] && IsWhitespace(s[0]) then SkipWhitespace(s[1..]) else s
  }

  /** `consume_token`: the rest after whitespace and the expected character; `None` where the
      source panics. */
  function Consume(s: string, expected: char): (r: Option<string>)
    ensures r.Some? ==> |r.value| < |s|
  {
    var t := SkipWhitespace(s);
    if t != [] && t[0] == expected then Some(t[1..]) else None
  }

  /** `parse_node`: a number read from the front of `s`, and the rest; `None` where the source
      panics. */
  function ParseNode(s: string): (r: Option<(Node, string)>)
    ensures r.Some? ==> |r.value.1| < |s|
    decreases |s|, 0
  {
    var t := SkipWhitespace(s);
    if t == [] then None
    else if t[0] == '[' then ParseInner(t[1..])
    else if IsDigit(t[0]) then Some((Leaf(t[0] as int - '0' as int), t[1..]))
    else None
  }

  /** The rest of a pair after its `[`: a number, `,`, a number and `]`. */
  function ParseInner(u: string): (r: Option<(Node, string)>)
    ensures r.Some? ==> |r.value.1| < |u|
    decreases |u|, 1
  {
    match ParseNode(u)
    case None => None
    case Some((left, r1)) =>
      match Consume(r1, ',')
      case None => None
      case Some(r2) =>
        match ParseNode(r2)
        case None => None
        case Some((right, r3)) =>
          match Consume(r3, ']')
          case None => None
          case Some(r4) => Some((Add(left, right), r4))
  }

  /** `parse_node_str`: a number followed by nothing but whitespace. */
  function ParseNodeStr(s: string): (r: Option<Node>)
    ensures r.Some? ==> var t := SkipWhitespace(s);
      t != [] && (t[0] == '[' || (IsDigit(t[0]) && r.value == Leaf(t[0] as int - '0' as int)))
  {
    match ParseNode(s)
    case None => None
    case Some((n, rest)) => if SkipWhitespace(rest) == [] then Some(n) else None
  }

  predicate SingleDigits(n: Node)
  {
    match n
    case Leaf(v) => v < 10
    case Pair(a, b) => SingleDigits(a) && SingleDigits(b)
  }

  /** Reading what `Display` writes gives the number back, when every regular number is a
      single digit (the parser reads one digit per regular number). */
  lemma {:induction false} ParseShow(n: Node, rest: string)
    requires SingleDigits(n)
    ensures ParseNode(Show(n) + rest) == Some((n, rest))
  {
    match n
    case Leaf(v) =>
      assert Show(n) + rest == [DigitChar(v)] + rest;
      assert (Show(n) + rest)[1..] == rest;
    case Pair(a, b) =>
      var tail2 := "]" + rest;
      var tail := "," + (Show(b) + tail2);
      ShowPair(a, b, rest);
      ParseShow(a, tail);
      ParseShow(b, tail2);
      ParseBracket(Show(a) + tail, a, b, Show(b) + tail2, rest);
  }

  /** One step of the parser on a pair. */
  lemma ParseBracket(u: string, a: Node, b: Node, r1: string, rest: string)
    requires ParseNode(u) == Some((a, "," + r1)) && ParseNode(r1) == Some((b, "]" + rest))
    ensures ParseNode("[" + u) == Some((Pair(a, b), rest))
  {
    var s := "[" + u;
    assert SkipWhitespace(s) == s;
    assert s[1..] == u;
    var c := "," + r1;
    assert SkipWhitespace(c) == c && c[1..] == r1;
    var d := "]" + rest;
    assert SkipWhitespace(d) == d && d[1..] == rest;
    assert ParseInner(u) == Some((Pair(a, b), rest));
  }

  lemma ShowPair(a: Node, b: Node, rest: string)
    ensures Show(Pair(a, b)) + rest == "[" + (Show(a) + ("," + (Show(b) + ("]" + rest))))
  {
    var x, y := Show(a), Show(b);
    assert Show(Pair(a, b)) == "[" + x + "," + y + "]";
    ConcatAssoc("[" + x + "," + y, "]", rest);
    ConcatAssoc("[" + x + ",", y, "]" + rest);
    ConcatAssoc("[" + x, ",", y + ("]" + rest));
    ConcatAssoc("[", x, "," + (y + ("]" + rest)));
  }

  lemma ConcatAssoc(p: string, q: string, t: string)
    ensures p + q + t == p + (q + t)
  {
  }

  lemma ParseShowStr(n: Node)
    requires SingleDigits(n)
    ensures ParseNodeStr(Show(n)) == Some(n)
  {
    ParseShow(n, []);
    assert Show(n) + [] == Show(n);
  }

  // ---------------------------------------------------------------------------------------
  // The homework

  /** The first star's fold: the numbers added up one after the other, reducing each sum. */
  function SumNumbers(acc: Node, rest: seq<Node>, fuel: nat): (r: Option<Node>)
    requires rest != [] ==> Explodable(acc, 1) && forall k :: 0 <= k < |rest| ==> Explodable(rest[k], 1)
    ensures rest != [] && r.Some? ==> Reduced(r.value)
    decreases |rest|
  {
    if rest == [] then Some(acc)
    else
      match AddReduce(acc, rest[0], fuel)
      case None => None
      case Some(s) =>
        ShallowExplodable(s, 0);
        assert forall k :: 0 <= k < |rest[1..]| ==> Explodable(rest[1..][k], 1) by {
          forall k | 0 <= k < |rest[1..]| ensures Explodable(rest[1..][k], 1) {
            assert rest[1..][k] == rest[k + 1];
          }
        }
        SumNumbers(s, rest[1..], fuel)
  }

  /** The first star: the magnitude of the sum, `0` for no numbers. */
  function Star1(numbers: seq<Node>, fuel: nat): (r: Option<nat>)
    requires |numbers| >= 2 ==> forall k :: 0 <= k < |numbers| ==> Explodable(numbers[k], 1)
    ensures |numbers| >= 2 && r.Some? ==> r.value <= 5625
  {
    if numbers == [] then Some(0)
    else
      assert forall k :: 0 <= k < |numbers[1..]| ==> Explodable(numbers[1..][k], 1) by {
        forall k | 0 <= k < |numbers[1..]| ensures Explodable(numbers[1..][k], 1) {
          assert numbers[1..][k] == numbers[k + 1];
        }
      }
      match SumNumbers(numbers[0], numbers[1..], fuel)
      case None => None
      case Some(s) =>
        ReducedMagnitude(s);
        Some(Magnitude(s))
  }
}
