/** Moves on a flat-topped hexagonal grid in cube coordinates (x + y + z == 0). */
module HexGrid {

  datatype HexDirection = North | NorthEast | SouthEast | South | SouthWest | NorthWest

  datatype Option<T> = None | Some(value: T)

  /** The text that names each direction in the puzzle input. */
  function Name(d: HexDirection): string
  {
    match d
    case North => "n"
    case NorthEast => "ne"
    case SouthEast => "se"
    case South => "s"
    case SouthWest => "sw"
    case NorthWest => "nw"
  }

  /** Parses a direction; only the six names n, ne, se, s, sw, nw are accepted. */
  function ParseDirection(s: string): (r: Option<HexDirection>)
    ensures r.Some? <==> s in {"n", "ne", "se", "s", "sw", "nw"}
    ensures r.Some? ==> Name(r.value) == s
  {
    if s == "n" then Some(North)
    else if s == "ne" then Some(NorthEast)
    else if s == "se" then Some(SouthEast)
    else if s == "s" then Some(South)
    else if s == "sw" then Some(SouthWest)
    else if s == "nw" then Some(NorthWest)
    else None
  }

  /** Parsing the name of a direction gives that direction back. */
  lemma ParseName(d: HexDirection)
    ensures ParseDirection(Name(d)) == Some(d)
  {
  }

  /** A point in cube coordinates; a valid point has x + y + z == 0. */
  datatype HexPoint = HexPoint(x: int, y: int, z: int)

  ghost predicate OnPlane(p: HexPoint)
  {
    p.x + p.y + p.z == 0
  }

  function Add(a: HexPoint, b: HexPoint): (r: HexPoint)
    ensures OnPlane(a) && OnPlane(b) ==> OnPlane(r)
  {
    HexPoint(a.x + b.x, a.y + b.y, a.z + b.z)
  }

  function Neg(a: HexPoint): (r: HexPoint)
    ensures OnPlane(a) ==> OnPlane(r)
  {
    HexPoint(-a.x, -a.y, -a.z)
  }

  /** A point plus its negation is the origin. */
  lemma NegCancels(a: HexPoint)
    ensures Add(a, Neg(a)) == HexPoint(0, 0, 0)
  {
  }

  /** Subtraction, defined as in the source by adding the negation. */
  function Sub(a: HexPoint, b: HexPoint): (r: HexPoint)
    ensures Add(r, b) == a
  {
    var r := Add(a, Neg(b));
    assert r == HexPoint(a.x - b.x, a.y - b.y, a.z - b.z);
    r
  }

  /** The unit step of each direction. */
  function Step(d: HexDirection): (r: HexPoint)
    ensures OnPlane(r)
  {
    match d
    case North => HexPoint(0, 1, -1)
    case NorthEast => HexPoint(1, 0, -1)
    case SouthEast => HexPoint(1, -1, 0)
    case South => HexPoint(0, -1, 1)
    case SouthWest => HexPoint(-1, 0, 1)
    case NorthWest => HexPoint(-1, 1, 0)
  }

  function Opposite(d: HexDirection): HexDirection
  {
    match d
    case North => South
    case NorthEast => SouthWest
    case SouthEast => NorthWest
    case South => North
    case SouthWest => NorthEast
    case NorthWest => SouthEast
  }

  /** Opposite directions (N/S, NE/SW, SE/NW) cancel out. */
  lemma OppositeStepsCancel(d: HexDirection)
    ensures Add(Step(d), Step(Opposite(d))) == HexPoint(0, 0, 0)
  {
  }

  /** Moves `p` one cell in direction `d`; a point on the plane stays on it. */
  function HexMove(p: HexPoint, d: HexDirection): (r: HexPoint)
    ensures OnPlane(p) ==> OnPlane(r)
    ensures Sub(r, p) == Step(d)
  {
    Add(p, Step(d))
  }

  function Abs(n: int): nat
  {
    if n < 0 then -n else n
  }

  function Max3(a: int, b: int, c: int): int
  {
    if a >= b && a >= c then a else if b >= c then b else c
  }

  /** The number of cells between `p` and the origin. The source asserts that `p` is on the plane;
      the half-sum it computes is then exact and equals the largest coordinate magnitude. */
  function Norm(p: HexPoint): (r: nat)
    requires OnPlane(p)
    ensures 2 * r == Abs(p.x) + Abs(p.y) + Abs(p.z)
    ensures r == Max3(Abs(p.x), Abs(p.y), Abs(p.z))
  {
    (Abs(p.x) + Abs(p.y) + Abs(p.z)) / 2
  }

  /** One move changes the distance from the origin by at most one. */
  lemma MoveChangesNormByAtMostOne(p: HexPoint, d: HexDirection)
    requires OnPlane(p)
    ensures Norm(p) - 1 <= Norm(HexMove(p, d)) <= Norm(p) + 1
  {
    var q := HexMove(p, d);
    assert q == HexPoint(p.x + Step(d).x, p.y + Step(d).y, p.z + Step(d).z);
    Max3Lipschitz(Abs(p.x), Abs(p.y), Abs(p.z), Abs(q.x), Abs(q.y), Abs(q.z));
  }

  lemma Max3Lipschitz(a: int, b: int, c: int, a': int, b': int, c': int)
    requires -1 <= a - a' <= 1 && -1 <= b - b' <= 1 && -1 <= c - c' <= 1
    ensures -1 <= Max3(a, b, c) - Max3(a', b', c') <= 1
  {
  }

  /** The position after following `moves` from `p` (the fold of the first star). */
  function Walk(p: HexPoint, moves: seq<HexDirection>): (r: HexPoint)
    ensures moves != [] ==> r == HexMove(Walk(p, moves[..|moves| - 1]), moves[|moves| - 1])
    decreases |moves|
  {
    if moves == [] then p
    else
      var rest := moves[1..];
      assert rest != [] ==> rest[..|rest| - 1] == moves[..|moves| - 1][1..];
      Walk(HexMove(p, moves[0]), rest)
  }

  /** A walk stays on the plane and ends no further from the origin than its start plus its length. */
  lemma {:induction false} WalkBounded(p: HexPoint, moves: seq<HexDirection>)
    requires OnPlane(p)
    decreases moves
    ensures OnPlane(Walk(p, moves))
    ensures Norm(Walk(p, moves)) <= Norm(p) + |moves|
  {
    if moves != [] {
      MoveChangesNormByAtMostOne(p, moves[0]);
      WalkBounded(HexMove(p, moves[0]), moves[1..]);
    }
  }
}
