/** The marble game: marbles are placed into a circle one by one, kept in a deque whose last
    element is the current marble; every 23rd marble is scored instead, together with the marble
    seven places anticlockwise, which leaves the circle. */
module Marbles {

  /** `k mod n`, by repeated subtraction of `n`. */
  function Wrap(k: nat, n: nat): (r: nat)
    requires n > 0
    ensures r < n
    decreases k
  {
    if k < n then k else Wrap(k - n, n)
  }

  /** Wrap is the remainder of the division by `n`. */
  lemma {:induction false} WrapIsMod(k: nat, n: nat)
    requires n > 0
    ensures Wrap(k, n) == k % n
    decreases k
  {
    if k < n {
      ModUnique(k, n, 0, k);
    } else {
      WrapIsMod(k - n, n);
      ModUnique(k, n, (k - n) / n + 1, (k - n) % n);
    }
  }

  /** `d` rotated left by `k`: the first `k mod |d|` elements moved to the back. */
  function RotL<T>(d: seq<T>, k: nat): (r: seq<T>)
    ensures |r| == |d|
  {
    if d == [] then [] else d[Wrap(k, |d|)..] + d[..Wrap(k, |d|)]
  }

  /** `d` rotated right by `k`: the last `k mod |d|` elements moved to the front. */
  function RotR<T>(d: seq<T>, k: nat): (r: seq<T>)
    ensures |r| == |d|
  {
    if d == [] then [] else d[|d| - Wrap(k, |d|)..] + d[..|d| - Wrap(k, |d|)]
  }

  /** Stepping a wrapped value by one. */
  lemma {:induction false} WrapStep(k: nat, n: nat)
    requires n > 0
    ensures Wrap(k + 1, n) == if Wrap(k, n) == n - 1 then 0 else Wrap(k, n) + 1
    decreases k
  {
    if k >= n {
      WrapStep(k - n, n);
    }
  }

  /** The remainder is the unique `r` in `0 .. n - 1` with `a == q * n + r`. */
  lemma ModUnique(a: int, n: int, q: int, r: int)
    requires n > 0 && 0 <= r < n && a == q * n + r
    ensures a % n == r
  {
    var q', r' := a / n, a % n;
    assert (q - q') * n == r' - r;
    if q > q' {
      MulAtLeast(q - q', n);
    } else if q < q' {
      MulAtLeast(q' - q, n);
    }
  }

  lemma MulAtLeast(a: int, n: int)
    requires a >= 1 && n > 0
    ensures a * n >= n
  {
  }

  /** Stepping a residue modulo `n` by one. */
  lemma ModStep(k: nat, n: nat)
    requires n > 0
    ensures (k + 1) % n == if k % n == n - 1 then 0 else k % n + 1
  {
    var q, j := k / n, k % n;
    if j == n - 1 {
      ModUnique(k + 1, n, q + 1, 0);
    } else {
      ModUnique(k + 1, n, q, j + 1);
    }
  }

  /** A single left rotation moves the front to the back. */
  lemma RotLOne<T>(d: seq<T>)
    requires d != []
    ensures RotL(d, 1) == d[1..] + [d[0]]
  {
    if |d| == 1 {
      assert RotL(d, 1) == d;
    } else {
      assert Wrap(1, |d|) == 1;
    }
  }

  /** A single right rotation moves the back to the front. */
  lemma RotROne<T>(d: seq<T>)
    requires d != []
    ensures RotR(d, 1) == [d[|d| - 1]] + d[..|d| - 1]
  {
    if |d| == 1 {
      assert RotR(d, 1) == d;
    } else {
      assert Wrap(1, |d|) == 1;
    }
  }

  /** One more left rotation adds one to the rotation amount. */
  lemma RotLStep<T>(d: seq<T>, k: nat)
    requires d != []
    ensures RotL(RotL(d, k), 1) == RotL(d, k + 1)
  {
    var n := |d|;
    var j := Wrap(k, n);
    WrapStep(k, n);
    RotLOne(RotL(d, k));
    assert RotL(d, k) == d[j..] + d[..j];
    RotLShift(d, j);
    if j == n - 1 {
      assert RotL(d, k + 1) == d[0..] + d[..0] == d == d[n..] + d[..n];
    } else {
      assert RotL(d, k + 1) == d[j + 1..] + d[..j + 1];
    }
  }

  /** Moving the front of `d[j..] + d[..j]` to its back is the split one place later. */
  lemma RotLShift<T>(d: seq<T>, j: nat)
    requires j < |d|
    ensures var r := d[j..] + d[..j]; r[1..] + [r[0]] == d[j + 1..] + d[..j + 1]
  {
    var r := d[j..] + d[..j];
    assert r[0] == d[j];
    assert r[1..] == d[j + 1..] + d[..j];
    assert d[..j + 1] == d[..j] + [d[j]];
  }

  /** One more right rotation adds one to the rotation amount. */
  lemma RotRStep<T>(d: seq<T>, k: nat)
    requires d != []
    ensures RotR(RotR(d, k), 1) == RotR(d, k + 1)
  {
    var n := |d|;
    WrapStep(k, n);
    RotROne(RotR(d, k));
    RotRSplit(d, k);
    RotRSplit(d, k + 1);
    var m := n - Wrap(k, n);
    RotRShift(d, m);
    if m == 1 {
      assert d[n..] + d[..n] == d == d[m - 1..] + d[..m - 1];
    }
  }

  /** RotR as a split of `d` at `|d| - Wrap(k, |d|)`. */
  lemma RotRSplit<T>(d: seq<T>, k: nat)
    requires d != []
    ensures var m := |d| - Wrap(k, |d|); 1 <= m <= |d| && RotR(d, k) == d[m..] + d[..m]
  {
  }

  /** Moving the back of `d[m..] + d[..m]` to its front is the split one place earlier. */
  lemma RotRShift<T>(d: seq<T>, m: nat)
    requires 1 <= m <= |d|
    ensures var r := d[m..] + d[..m]; [r[|d| - 1]] + r[..|d| - 1] == d[m - 1..] + d[..m - 1]
  {
    var r := d[m..] + d[..m];
    assert r[|d| - 1] == d[m - 1];
    assert r[..|d| - 1] == d[m..] + d[..m - 1];
    assert d[m - 1..] == [d[m - 1]] + d[m..];
  }

  /** The source's left rotation: `amount` times, pop the front and push it onto the back. */
  method RotateLeft<T>(deque: seq<T>, amount: nat) returns (r: seq<T>)
    ensures r == RotL(deque, amount)
  {
    r := deque;
    var i := 0;
    if deque == [] {
      return;
    }
    assert RotL(deque, 0) == deque;
    while i < amount
      invariant i <= amount
      invariant r == RotL(deque, i)
    {
      RotLStep(deque, i);
      RotLOne(r);
      r := r[1..] + [r[0]];
      i := i + 1;
    }
  }

  /** The source's right rotation: `amount` times, pop the back and push it onto the front. */
  method RotateRight<T>(deque: seq<T>, amount: nat) returns (r: seq<T>)
    ensures r == RotR(deque, amount)
  {
    r := deque;
    var i := 0;
    if deque == [] {
      return;
    }
    assert RotR(deque, 0) == deque;
    while i < amount
      invariant i <= amount
      invariant r == RotR(deque, i)
    {
      RotRStep(deque, i);
      RotROne(r);
      r := [r[|r| - 1]] + r[..|r| - 1];
      i := i + 1;
    }
  }

  /** Rotating right undoes rotating left by the same amount, and the other way round. */
  lemma RotateInverse<T>(d: seq<T>, k: nat)
    ensures RotR(RotL(d, k), k) == d
    ensures RotL(RotR(d, k), k) == d
  {
    if d != [] {
      var n := |d|;
      var j := Wrap(k, n);
      var l := RotL(d, k);
      assert RotR(l, k) == l[n - j..] + l[..n - j];
      assert l[n - j..] == d[..j] && l[..n - j] == d[j..];
      var r := RotR(d, k);
      assert r[j..] == d[..n - j] && r[..j] == d[n - j..];
    }
  }

  /** Rotation keeps every element. */
  lemma RotLMultiset<T>(d: seq<T>, k: nat)
    ensures multiset(RotL(d, k)) == multiset(d)
  {
    if d != [] {
      var j := Wrap(k, |d|);
      assert d == d[..j] + d[j..];
    }
  }

  lemma RotRMultiset<T>(d: seq<T>, k: nat)
    ensures multiset(RotR(d, k)) == multiset(d)
  {
    if d != [] {
      var j := |d| - Wrap(k, |d|);
      assert d == d[..j] + d[j..];
    }
  }

  datatype Game = Game(marbles: seq<nat>, scores: seq<nat>)

  /** The length of `s` filled with zeroes. */
  function Zeros(n: nat): (r: seq<nat>)
    ensures |r| == n && forall i :: 0 <= i < n ==> r[i] == 0
  {
    if n == 0 then [] else Zeros(n - 1) + [0]
  }

  /** Placing marble `m`: on a multiple of 23 the marble seven places back is removed and, with
      `m`, added to the score of player `m mod players`; otherwise `m` goes in after the marble
      following the current one. */
  function Turn(g: Game, m: nat, players: nat): (r: Game)
    requires g.marbles != [] && |g.scores| == players
    requires m % 23 == 0 ==> players > 0
    ensures |r.scores| == players
    ensures |r.marbles| == if m % 23 == 0 then |g.marbles| - 1 else |g.marbles| + 1
  {
    if m % 23 == 0 then
      var c := RotR(g.marbles, 7);
      var p := Wrap(m, players);
      Game(RotL(c[..|c| - 1], 1), g.scores[p := g.scores[p] + m + c[|c| - 1]])
    else
      Game(RotL(g.marbles, 1) + [m], g.scores)
  }

  /** The game after marbles 1 to `last` have been played. */
  function Play(players: nat, last: nat): (g: Game)
    requires players > 0 || last < 23
    ensures |g.scores| == players
    ensures g.marbles != []
  {
    if last == 0 then Game([0], Zeros(players))
    else Turn(Play(players, last - 1), last, players)
  }

  /** Every turn adds one marble to the circle, except the scoring turns, which remove one. */
  lemma PlayLength(players: nat, last: nat)
    requires players > 0 || last < 23
    ensures |Play(players, last).marbles| == 1 + last - 2 * (last / 23)
  {
    CountLength(players, last);
    ScoringIsDiv(last);
  }

  /** The number of scoring marbles among 1 to `last`. */
  function Scoring(last: nat): nat
  {
    if last == 0 then 0 else Scoring(last - 1) + (if last % 23 == 0 then 1 else 0)
  }

  lemma {:induction false} CountLength(players: nat, last: nat)
    requires players > 0 || last < 23
    ensures |Play(players, last).marbles| == 1 + last - 2 * Scoring(last)
  {
    if last > 0 {
      CountLength(players, last - 1);
      LengthStep(players, last);
    }
  }

  /** Scoring(last) is the number of multiples of 23 up to `last`. */
  lemma {:induction false} ScoringIsDiv(last: nat)
    ensures Scoring(last) == last / 23
  {
    if last > 0 {
      ScoringIsDiv(last - 1);
      DivStep(last - 1, 23);
    }
  }

  /** One turn changes the size of the circle by one. */
  lemma LengthStep(players: nat, last: nat)
    requires last > 0 && (players > 0 || last < 23)
    ensures |Play(players, last).marbles| == |Play(players, last - 1).marbles| + (if last % 23 == 0 then -1 else 1)
  {
    PlayStep(players, last);
  }

  /** The quotient by `n` goes up by one exactly where the remainder wraps to zero. */
  lemma DivStep(k: nat, n: nat)
    requires n > 0
    ensures (k + 1) / n == k / n + (if (k + 1) % n == 0 then 1 else 0)
  {
    var q, j := k / n, k % n;
    ModStep(k, n);
    if j == n - 1 {
      DivUnique(k + 1, n, q + 1, 0);
    } else {
      DivUnique(k + 1, n, q, j + 1);
    }
  }

  lemma DivUnique(a: int, n: int, q: int, r: int)
    requires n > 0 && 0 <= r < n && a == q * n + r
    ensures a / n == q
  {
    ModUnique(a, n, q, r);
  }

  /** The source's simulation, returning every player's score. Player numbers are taken modulo
      `players`, which must not be zero once a 23rd marble is played. */
  method MarbleGame(players: nat, lastMarble: nat) returns (scores: seq<nat>)
    requires players > 0 || lastMarble < 23
    ensures scores == Play(players, lastMarble).scores
    ensures |scores| == players
  {
    var marbles: seq<nat> := [0];
    scores := Zeros(players);
    var m := 1;
    while m <= lastMarble
      invariant 1 <= m <= lastMarble + 1
      invariant Game(marbles, scores) == Play(players, m - 1)
    {
      marbles, scores := Advance(marbles, scores, m, players);
      m := m + 1;
    }
  }

  /** One round of the source's loop, moving the game from marble `m - 1` to marble `m`. */
  method Advance(marbles: seq<nat>, scores: seq<nat>, m: nat, players: nat)
    returns (marbles': seq<nat>, scores': seq<nat>)
    requires m > 0 && (players > 0 || m < 23)
    requires Game(marbles, scores) == Play(players, m - 1)
    ensures Game(marbles', scores') == Play(players, m)
  {
    PlayStep(players, m);
    marbles', scores' := PlaceMarble(marbles, scores, m, players);
  }

  /** The body of the source's loop for marble `m`, on the deque and the score vector. */
  method PlaceMarble(marbles: seq<nat>, scores: seq<nat>, m: nat, players: nat)
    returns (marbles': seq<nat>, scores': seq<nat>)
    requires marbles != [] && |scores| == players
    requires m % 23 == 0 ==> players > 0
    ensures Game(marbles', scores') == Turn(Game(marbles, scores), m, players)
  {
    if m % 23 == 0 {
      marbles' := RotateRight(marbles, 7);
      var p := m % players;
      WrapIsMod(m, players);
      scores' := scores[p := scores[p] + m + marbles'[|marbles'| - 1]];
      marbles' := marbles'[..|marbles'| - 1];
      marbles' := RotateLeft(marbles', 1);
    } else {
      marbles' := RotateLeft(marbles, 1);
      marbles' := marbles' + [m];
      scores' := scores;
    }
  }

  lemma PositiveMultiple(m: nat)
    requires m > 0
    ensures m % 23 == 0 ==> m >= 23
  {
  }

  /** Playing marble `m` is one Turn on the game after marble `m - 1`. */
  lemma PlayStep(players: nat, m: nat)
    requires m > 0 && (players > 0 || m < 23)
    ensures Play(players, m - 1).marbles != [] && |Play(players, m - 1).scores| == players
    ensures m % 23 == 0 ==> players > 0
    ensures Play(players, m) == Turn(Play(players, m - 1), m, players)
  {
    PositiveMultiple(m);
  }

  function Sum(s: seq<nat>): nat
  {
    if s == [] then 0 else Sum(s[..|s| - 1]) + s[|s| - 1]
  }

  lemma {:induction false} SumConcat(a: seq<nat>, b: seq<nat>)
    ensures Sum(a + b) == Sum(a) + Sum(b)
    decreases |b|
  {
    if b == [] {
      assert a + b == a;
    } else {
      assert (a + b)[..|a + b| - 1] == a + b[..|b| - 1];
      assert (a + b)[|a + b| - 1] == b[|b| - 1];
      SumConcat(a, b[..|b| - 1]);
    }
  }

  lemma {:induction false} SumUpdate(s: seq<nat>, k: nat, x: nat)
    requires k < |s|
    ensures Sum(s[k := x]) + s[k] == Sum(s) + x
  {
    assert s == s[..k] + [s[k]] + s[k + 1..];
    assert s[k := x] == s[..k] + [x] + s[k + 1..];
    SumConcat(s[..k] + [s[k]], s[k + 1..]);
    SumConcat(s[..k] + [x], s[k + 1..]);
    SumConcat(s[..k], [s[k]]);
    SumConcat(s[..k], [x]);
  }

  lemma SumRotL(d: seq<nat>, k: nat)
    ensures Sum(RotL(d, k)) == Sum(d)
  {
    if d != [] {
      var j := Wrap(k, |d|);
      assert d == d[..j] + d[j..];
      SumConcat(d[..j], d[j..]);
      SumConcat(d[j..], d[..j]);
    }
  }

  lemma SumRotR(d: seq<nat>, k: nat)
    ensures Sum(RotR(d, k)) == Sum(d)
  {
    if d != [] {
      var j := |d| - Wrap(k, |d|);
      assert d == d[..j] + d[j..];
      SumConcat(d[..j], d[j..]);
      SumConcat(d[j..], d[..j]);
    }
  }

  lemma {:induction false} SumZeros(n: nat)
    ensures Sum(Zeros(n)) == 0
  {
    if n > 0 {
      SumZeros(n - 1);
    }
  }

  /** 0 + 1 + ... + n. */
  function Triangle(n: nat): nat
  {
    if n == 0 then 0 else Triangle(n - 1) + n
  }

  /** The closed form of Triangle. */
  lemma {:induction false} TriangleFormula(n: nat)
    ensures 2 * Triangle(n) == n * (n + 1)
  {
    if n > 0 {
      TriangleFormula(n - 1);
    }
  }

  /** Taking the last marble out of a circle and rotating the rest loses exactly that marble. */
  lemma DropLastSum(c: seq<nat>)
    requires c != []
    ensures Sum(RotL(c[..|c| - 1], 1)) + c[|c| - 1] == Sum(c)
  {
    assert c == c[..|c| - 1] + [c[|c| - 1]];
    SumConcat(c[..|c| - 1], [c[|c| - 1]]);
    SumRotL(c[..|c| - 1], 1);
  }

  /** A turn adds the marble played to the total of the circle and the scores. */
  lemma TurnConserves(g: Game, m: nat, players: nat)
    requires g.marbles != [] && |g.scores| == players
    requires m % 23 == 0 ==> players > 0
    ensures var r := Turn(g, m, players);
      Sum(r.marbles) + Sum(r.scores) == Sum(g.marbles) + Sum(g.scores) + m
  {
    if m % 23 == 0 {
      var c, p := RotR(g.marbles, 7), Wrap(m, players);
      assert Turn(g, m, players) == Game(RotL(c[..|c| - 1], 1), g.scores[p := g.scores[p] + m + c[|c| - 1]]);
      SumRotR(g.marbles, 7);
      ScoreSum(c, g.scores, p, m);
    } else {
      assert Turn(g, m, players) == Game(RotL(g.marbles, 1) + [m], g.scores);
      PlaceSum(g.marbles, m);
    }
  }

  /** A placing turn adds marble `m` to the circle's total. */
  lemma PlaceSum(d: seq<nat>, m: nat)
    ensures Sum(RotL(d, 1) + [m]) == Sum(d) + m
  {
    SumRotL(d, 1);
    SumConcat(RotL(d, 1), [m]);
  }

  /** A scoring turn on the rotated circle `c` moves marble `m` and the last marble of `c` into
      score `p`. */
  lemma ScoreSum(c: seq<nat>, scores: seq<nat>, p: nat, m: nat)
    requires c != [] && p < |scores|
    ensures Sum(RotL(c[..|c| - 1], 1)) + Sum(scores[p := scores[p] + m + c[|c| - 1]])
        == Sum(c) + Sum(scores) + m
  {
    DropLastSum(c);
    SumUpdate(scores, p, scores[p] + m + c[|c| - 1]);
  }

  /** The circle and the scores after marble `last` add up to 0 + 1 + ... + last. */
  ghost predicate Conserved(players: nat, last: nat)
    requires players > 0 || last < 23
  {
    Sum(Play(players, last).marbles) + Sum(Play(players, last).scores) == Triangle(last)
  }

  /** No marble is lost: the marbles in the circle and the points scored add up to
      Triangle(last), the sum of all marbles played. */
  lemma {:induction false} PointsConserved(players: nat, last: nat)
    requires players > 0 || last < 23
    ensures Conserved(players, last)
  {
    if last == 0 {
      ConservedStart(players);
    } else {
      PointsConserved(players, last - 1);
      ConservedStep(players, last);
    }
  }

  /** Before any marble is played the circle holds only marble 0 and no one has scored. */
  lemma ConservedStart(players: nat)
    ensures Conserved(players, 0)
  {
    SumZeros(players);
    assert Sum([0]) == Sum([]) + 0;
  }

  lemma ConservedStep(players: nat, last: nat)
    requires last > 0 && (players > 0 || last < 23)
    ensures Conserved(players, last - 1) ==> Conserved(players, last)
  {
    PlayStep(players, last);
    TurnConserves(Play(players, last - 1), last, players);
  }
}
