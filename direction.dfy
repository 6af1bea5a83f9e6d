/** The four grid directions shared by several puzzle solutions, and their vectors. */
module Direction {

  datatype Direction = North | East | South | West

  /** An integer vector in the plane. */
  datatype Vec2 = Vec2(x: int, y: int)

  /** The direction a quarter turn clockwise of `d`. */
  function Clockwise(d: Direction): (r: Direction)
    ensures r != d
  {
    match d
    case North => East
    case East => South
    case South => West
    case West => North
  }

  /** The direction a quarter turn anti-clockwise of `d`: the inverse of Clockwise. */
  function Anticlockwise(d: Direction): (r: Direction)
    ensures Clockwise(r) == d
    ensures r == Clockwise(Clockwise(Clockwise(d)))
  {
    match d
    case North => West
    case East => North
    case South => East
    case West => South
  }

  /** The opposite direction: two quarter turns, and its own inverse. */
  function Reverse(d: Direction): (r: Direction)
    ensures r == Clockwise(Clockwise(d))
    ensures r != d
  {
    match d
    case North => South
    case East => West
    case South => North
    case West => East
  }

  /** Reverse is an involution. */
  lemma ReverseInvolution(d: Direction)
    ensures Reverse(Reverse(d)) == d
  {
  }

  /** Four quarter turns clockwise bring every direction back to itself. */
  lemma ClockwiseFourTimes(d: Direction)
    ensures Clockwise(Clockwise(Clockwise(Clockwise(d)))) == d
  {
  }

  /** Clockwise and Anticlockwise undo each other in both orders. */
  lemma ClockwiseAnticlockwise(d: Direction)
    ensures Anticlockwise(Clockwise(d)) == d
    ensures Clockwise(Anticlockwise(d)) == d
  {
  }

  /** The vector of length `size` pointing in direction `d`, with North along +y. */
  function ToVec(d: Direction, size: int): (v: Vec2)
    ensures v.x == 0 || v.y == 0
    ensures v.x + v.y == (if d == North || d == East then size else -size)
    ensures d == North ==> v == Vec2(0, size)
  {
    // The source computes its zero as size - size to stay generic over number types.
    var zero := size - size;
    match d
    case North => Vec2(zero, size)
    case East => Vec2(size, zero)
    case South => Vec2(zero, -size)
    case West => Vec2(-size, zero)
  }

  /** Like ToVec, but with North along -y: only the y component is negated. */
  function ToVecNeg(d: Direction, size: int): (v: Vec2)
    ensures v.x == ToVec(d, size).x && v.y == -ToVec(d, size).y
  {
    var pos := ToVec(d, size);
    Vec2(pos.x, -pos.y)
  }

  /** With North along +y, a clockwise quarter turn maps the vector (x, y) to (y, -x). */
  lemma ClockwiseRotatesVector(d: Direction, size: int)
    ensures ToVec(Clockwise(d), size) == Vec2(ToVec(d, size).y, -ToVec(d, size).x)
  {
  }

  /** Reversing a direction negates its vector. */
  lemma ReverseNegatesVector(d: Direction, size: int)
    ensures ToVec(Reverse(d), size) == Vec2(-ToVec(d, size).x, -ToVec(d, size).y)
  {
  }
}
