// The knot hash: reversals of cyclic windows of a list, in rounds, then a dense XOR of blocks.

module KnotHash {

  datatype Option<T> = None | Some(value: T)

  // ---------------------------------------------------------------------------------------
  // Cyclic positions

  /** The position `j` steps after `p` on a circle of `n`, for `0 <= p + j < 2 * n`. */
  function Cyc(p: int, j: int, n: nat): (r: nat)
    requires 0 <= p + j < 2 * n
    ensures r < n && (r == p + j || r == p + j - n)
  {
    if p + j >= n then p + j - n else p + j
  }

  /** How many steps after `p` position `k` lies on a circle of `n`. */
  function Off(k: nat, p: nat, n: nat): (r: nat)
    requires k < n && p < n
    ensures r < n && Cyc(p, r, n) == k
  {
    if k >= p then k - p else k + n - p
  }

  lemma OffCyc(p: nat, j: nat, n: nat)
    requires p < n && j < n
    ensures Off(Cyc(p, j, n), p, n) == j
  {
  }

  // ---------------------------------------------------------------------------------------
  // Reversing a cyclic window

  /** `s` with the window of `length` elements starting at `pos`, wrapping round the end, reversed:
      the element `j` steps into the window becomes the one `length - 1 - j` steps in. */
  function CyclicReverse<T>(s: seq<T>, pos: nat, length: nat): (r: seq<T>)
    requires pos < |s| && length <= |s|
    ensures |r| == |s|
  {
    seq(|s|, k requires 0 <= k < |s| =>
      var j := Off(k, pos, |s|);
      if j < length then s[Cyc(pos, length - 1 - j, |s|)] else s[k])
  }

  /** Reversing the same window twice restores the list. */
  lemma CyclicReverseInvolution<T>(s: seq<T>, pos: nat, length: nat)
    requires pos < |s| && length <= |s|
    ensures CyclicReverse(CyclicReverse(s, pos, length), pos, length) == s
  {
    var n := |s|;
    var r := CyclicReverse(s, pos, length);
    var rr := CyclicReverse(r, pos, length);
    forall k | 0 <= k < n ensures rr[k] == s[k] {
      var j := Off(k, pos, n);
      if j < length {
        var k2 := Cyc(pos, length - 1 - j, n);
        OffCyc(pos, length - 1 - j, n);
        assert r[k2] == s[Cyc(pos, j, n)];
      }
    }
  }

  /** Elements outside the window keep their places. */
  lemma CyclicReverseOutside<T>(s: seq<T>, pos: nat, length: nat, k: nat)
    requires pos < |s| && length <= |s| && k < |s| && Off(k, pos, |s|) >= length
    ensures CyclicReverse(s, pos, length)[k] == s[k]
  {
  }

  /** The source's own checks on a reversal: the position lies on the list, and the end of the
      window, `pos + length - 1` less the list length when it reaches past the end, does too. Its
      subtraction is on unsigned integers, so `pos + length` must be at least 1. */
  predicate ReverseAccepted(n: nat, pos: nat, length: nat)
  {
    pos < n && pos + length >= 1 && pos + length - 1 < 2 * n
  }

  /** Swaps two elements, keeping the multiset of the array's elements. */
  method Swap<T>(a: array<T>, i: nat, j: nat)
    requires i < a.Length && j < a.Length
    modifies a
    ensures a[..] == old(a[..])[i := old(a[j])][j := old(a[i])]
    ensures multiset(a[..]) == multiset(old(a[..]))
  {
    ghost var s := a[..];
    a[i], a[j] := a[j], a[i];
    assert a[..] == s[i := s[j]][j := s[i]];
  }

  /** `b` is `s` with the outer `t` pairs of the window swapped, described by steps from `pos`. */
  ghost predicate PartlyReversed<T>(b: seq<T>, s: seq<T>, pos: nat, length: nat, t: nat)
    requires |b| == |s| && pos < |s| && length <= |s| && t <= length / 2
  {
    forall j {:trigger Cyc(pos, j, |s|)} :: 0 <= j < |s| ==>
      b[Cyc(pos, j, |s|)] ==
        if j < t || (length - 1 - t < j < length) then s[Cyc(pos, length - 1 - j, |s|)] else s[Cyc(pos, j, |s|)]
  }

  /** Swapping the next pair extends a partial reversal by one pair. */
  lemma PartlyReversedStep<T>(b: seq<T>, s: seq<T>, pos: nat, length: nat, t: nat)
    requires |b| == |s| && pos < |s| && length <= |s| && t < length / 2
    requires PartlyReversed(b, s, pos, length, t)
    ensures var left, right := Cyc(pos, t, |s|), Cyc(pos, length - 1 - t, |s|);
      PartlyReversed(b[left := b[right]][right := b[left]], s, pos, length, t + 1)
  {
    var n := |s|;
    var left, right := Cyc(pos, t, n), Cyc(pos, length - 1 - t, n);
    var c := b[left := b[right]][right := b[left]];
    assert b[left] == s[left] && b[right] == s[right];
    forall j | 0 <= j < n
      ensures c[Cyc(pos, j, n)] ==
        if j < t + 1 || (length - 1 - (t + 1) < j < length) then s[Cyc(pos, length - 1 - j, n)] else s[Cyc(pos, j, n)]
    {
      if j != t && j != length - 1 - t {
        assert Cyc(pos, j, n) != left && Cyc(pos, j, n) != right;
      }
    }
  }

  /** Once half the window's pairs are swapped, it is reversed. */
  lemma PartlyReversedDone<T>(b: seq<T>, s: seq<T>, pos: nat, length: nat)
    requires |b| == |s| && pos < |s| && length <= |s|
    requires PartlyReversed(b, s, pos, length, length / 2)
    ensures b == CyclicReverse(s, pos, length)
  {
    forall k | 0 <= k < |s| ensures b[k] == CyclicReverse(s, pos, length)[k] {
      var j := Off(k, pos, |s|);
      assert b[Cyc(pos, j, |s|)] == b[k];
      if length / 2 <= j <= length - 1 - length / 2 {
        assert j == length - 1 - j;
      }
    }
  }

  /** Reverses the cyclic window of `length` elements at `pos` in place, as the source does: from
      both ends towards the middle, `length / 2` swaps. A window longer than the list still passes
      the source's checks when its end wraps only once; the swaps then overlap, and all that is
      stated of that case is that the elements are rearranged. */
  method ReverseCyclicSublist<T>(a: array<T>, pos: nat, length: nat)
    requires ReverseAccepted(a.Length, pos, length)
    modifies a
    ensures multiset(a[..]) == multiset(old(a[..]))
    ensures length <= a.Length ==> a[..] == CyclicReverse(old(a[..]), pos, length)
  {
    var n := a.Length;
    ghost var s := a[..];
    var left := pos;
    var right := pos + length - 1;
    if right >= n {
      right := right - n;
    }
    var t := 0;
    while t < length / 2
      invariant 0 <= t <= length / 2
      invariant left == Cyc(pos, t, n) && right == Cyc(pos, length - 1 - t, n)
      invariant multiset(a[..]) == multiset(s)
      invariant length <= n ==> PartlyReversed(a[..], s, pos, length, t)
    {
      left, right := SwapPair(a, s, pos, length, t, left, right);
      t := t + 1;
    }
    if length <= n {
      PartlyReversedDone(a[..], s, pos, length);
    }
  }

  /** One pass of the reversal loop: swaps the pair `t` steps in from each end of the window and
      moves both ends one step inwards, round the circle. */
  method SwapPair<T>(a: array<T>, ghost s: seq<T>, pos: nat, length: nat, t: nat, left: nat, right: nat)
    returns (left': nat, right': nat)
    requires |s| == a.Length && ReverseAccepted(a.Length, pos, length) && t < length / 2
    requires left == Cyc(pos, t, a.Length) && right == Cyc(pos, length - 1 - t, a.Length)
    requires multiset(a[..]) == multiset(s)
    requires length <= a.Length ==> PartlyReversed(a[..], s, pos, length, t)
    modifies a
    ensures left' == Cyc(pos, t + 1, a.Length) && right' == Cyc(pos, length - 1 - (t + 1), a.Length)
    ensures multiset(a[..]) == multiset(s)
    ensures length <= a.Length ==> PartlyReversed(a[..], s, pos, length, t + 1)
  {
    var n := a.Length;
    if length <= n {
      PartlyReversedStep(a[..], s, pos, length, t);
    }
    Swap(a, left, right);
    left' := if left == n - 1 then 0 else left + 1;
    right' := if right == 0 then n - 1 else right - 1;
  }

  /** The corrected reversal: an empty window leaves the list as it is, wherever it starts. */
  method ReverseWindow<T>(a: array<T>, pos: nat, length: nat)
    requires pos < a.Length && length <= a.Length
    modifies a
    ensures multiset(a[..]) == multiset(old(a[..]))
    ensures a[..] == CyclicReverse(old(a[..]), pos, length)
  {
    if length == 0 {
      assert a[..] == CyclicReverse(a[..], pos, length);
    } else {
      ReverseCyclicSublist(a, pos, length);
    }
  }

  /** The source's reversal of an empty window at the start of the list fails its check: the end
      of the window, `0 + 0 - 1`, is below zero. */
  lemma EmptyWindowAtStartRejected(n: nat)
    requires n > 0
    ensures !ReverseAccepted(n, 0, 0)
    ensures forall s: seq<nat> :: |s| == n ==> CyclicReverse(s, 0, 0) == s
  {
    forall s: seq<nat> | |s| == n ensures CyclicReverse(s, 0, 0) == s {
      assert forall k :: 0 <= k < n ==> CyclicReverse(s, 0, 0)[k] == s[k];
    }
  }

  // ---------------------------------------------------------------------------------------
  // Rounds

  /** One round over `lengths`, from position `pos` with skip `skip` before the first length: each
      length reverses the window at the current position, then the position advances by the length
      plus the skip, which grows by one per length. Returns the list and the final position. */
  function RoundFrom<T>(s: seq<T>, lengths: seq<nat>, pos: nat, skip: nat): (r: (seq<T>, nat))
    requires pos < |s| && forall i :: 0 <= i < |lengths| ==> lengths[i] <= |s|
    ensures |r.0| == |s| && r.1 < |s|
    decreases |lengths|
  {
    if lengths == [] then (s, pos)
    else
      var t := CyclicReverse(s, pos, lengths[0]);
      RoundFrom(t, lengths[1..], (pos + lengths[0] + skip) % |s|, skip + 1)
  }

  /** The round as the source runs it: the same steps, but a reversal its checks reject (an empty
      window at position 0) stops the round with a panic, here `None`. */
  function RoundAsWritten<T>(s: seq<T>, lengths: seq<nat>, pos: nat, skip: nat): (r: Option<(seq<T>, nat)>)
    requires pos < |s| && forall i :: 0 <= i < |lengths| ==> lengths[i] <= |s|
    decreases |lengths|
  {
    if lengths == [] then Some((s, pos))
    else if !ReverseAccepted(|s|, pos, lengths[0]) then None
    else
      var t := CyclicReverse(s, pos, lengths[0]);
      RoundAsWritten(t, lengths[1..], (pos + lengths[0] + skip) % |s|, skip + 1)
  }

  /** Whether every reversal of a round passes the source's checks. */
  function RoundAccepted(n: nat, lengths: seq<nat>, pos: nat, skip: nat): bool
    requires n > 0
    decreases |lengths|
  {
    lengths == [] ||
    (ReverseAccepted(n, pos, lengths[0]) && RoundAccepted(n, lengths[1..], (pos + lengths[0] + skip) % n, skip + 1))
  }

  /** On a list position and a window no longer than the list, the source's checks reject exactly
      the empty window at position 0. */
  lemma ReverseAcceptedExactly(n: nat, pos: nat, length: nat)
    requires pos < n && length <= n
    ensures ReverseAccepted(n, pos, length) <==> !(pos == 0 && length == 0)
  {
  }

  /** The source's round panics exactly when some reversal is rejected, and otherwise gives the
      corrected round's result: the correction changes nothing where the source does not panic. */
  lemma {:induction false} AsWrittenAgrees<T>(s: seq<T>, lengths: seq<nat>, pos: nat, skip: nat)
    requires pos < |s| && forall i :: 0 <= i < |lengths| ==> lengths[i] <= |s|
    ensures RoundAsWritten(s, lengths, pos, skip) ==
      if RoundAccepted(|s|, lengths, pos, skip) then Some(RoundFrom(s, lengths, pos, skip)) else None
    decreases |lengths|
  {
    if lengths != [] && ReverseAccepted(|s|, pos, lengths[0]) {
      AsWrittenAgrees(CyclicReverse(s, pos, lengths[0]), lengths[1..], (pos + lengths[0] + skip) % |s|, skip + 1);
    }
  }

  /** The first star of the source panics on lengths that start with 0: its first reversal is the
      empty window at position 0. */
  lemma LeadingZeroPanics(elements: nat, lengths: seq<nat>)
    requires elements >= 2 && forall i :: 0 <= i < |lengths| ==> lengths[i] <= elements
    requires lengths != [] && lengths[0] == 0
    ensures RoundAsWritten(Ordered(elements), lengths, 0, 0) == None
  {
  }

  /** What a round adds to the position, before reduction: every length and every skip. */
  function Advance(lengths: seq<nat>, skip: nat): (r: nat)
    decreases |lengths|
  {
    if lengths == [] then 0 else lengths[0] + skip + Advance(lengths[1..], skip + 1)
  }

  /** The sum of the lengths. */
  function Sum(lengths: seq<nat>): (r: nat)
  {
    if lengths == [] then 0 else lengths[0] + Sum(lengths[1..])
  }

  /** Advance in closed form: the lengths, one skip per length, and the growth of the skip. */
  lemma {:induction false} AdvanceClosed(lengths: seq<nat>, skip: nat)
    ensures 2 * Advance(lengths, skip) == 2 * Sum(lengths) + 2 * |lengths| * skip + |lengths| * (|lengths| - 1)
    decreases |lengths|
  {
    if lengths != [] {
      var m := |lengths| - 1;
      AdvanceClosed(lengths[1..], skip + 1);
      calc {
        2 * m * (skip + 1) + m * (m - 1);
        2 * m * skip + 2 * m + m * m - m;
        2 * m * skip + m * m + m;
        2 * (m + 1) * skip - 2 * skip + (m + 1) * m;
      }
    }
  }

  /** Reducing the left summand first does not change a sum's remainder. */
  lemma ModAdd(x: nat, y: nat, n: nat)
    requires n > 0
    ensures (x % n + y) % n == (x + y) % n
  {
    var q, a := x / n, x % n;
    assert x == q * n + a;
    var q2, b := (a + y) / n, (a + y) % n;
    assert a + y == q2 * n + b;
    assert x + y == (q + q2) * n + b;
    ModUnique(x + y, q + q2, b, n);
  }

  /** Euclidean division is unique. */
  lemma ModUnique(x: int, q: int, r: int, n: int)
    requires n > 0 && 0 <= r < n && x == q * n + r
    ensures x % n == r
  {
    var q2, r2 := x / n, x % n;
    assert x == q2 * n + r2;
    assert (q - q2) * n == r2 - r;
    if q > q2 {
      MulAtLeast(q - q2, n);
    } else if q < q2 {
      MulAtLeast(q2 - q, n);
    }
  }

  lemma MulAtLeast(d: int, n: int)
    requires d >= 1 && n > 0
    ensures d * n >= n
  {
    if d > 1 {
      MulAtLeast(d - 1, n);
      assert d * n == (d - 1) * n + n;
    }
  }

  /** The final position of a round is the first advanced by every length and skip, round the circle. */
  lemma {:induction false} RoundPosition<T>(s: seq<T>, lengths: seq<nat>, pos: nat, skip: nat)
    requires pos < |s| && forall i :: 0 <= i < |lengths| ==> lengths[i] <= |s|
    ensures RoundFrom(s, lengths, pos, skip).1 == (pos + Advance(lengths, skip)) % |s|
    decreases |lengths|
  {
    if lengths == [] {
      ModUnique(pos, 0, pos, |s|);
    } else {
      var n := |s|;
      var p := (pos + lengths[0] + skip) % n;
      var rest := Advance(lengths[1..], skip + 1);
      RoundPosition(CyclicReverse(s, pos, lengths[0]), lengths[1..], p, skip + 1);
      assert RoundFrom(s, lengths, pos, skip).1 == (p + rest) % n;
      ModAdd(pos + lengths[0] + skip, rest, n);
      assert Advance(lengths, skip) == lengths[0] + skip + rest;
      assert pos + lengths[0] + skip + rest == pos + Advance(lengths, skip);
    }
  }

  /** One round on the knot in place; returns the final position. */
  method KnotRound<T>(knot: array<T>, lengths: seq<nat>, initialPos: nat, initialSkip: nat) returns (pos: nat)
    requires initialPos < knot.Length && forall i :: 0 <= i < |lengths| ==> lengths[i] <= knot.Length
    modifies knot
    ensures pos < knot.Length
    ensures (knot[..], pos) == RoundFrom(old(knot[..]), lengths, initialPos, initialSkip)
    ensures multiset(knot[..]) == multiset(old(knot[..]))
  {
    pos := initialPos;
    var i := 0;
    while i < |lengths|
      invariant 0 <= i <= |lengths| && pos < knot.Length
      invariant RoundFrom(knot[..], lengths[i..], pos, initialSkip + i) == RoundFrom(old(knot[..]), lengths, initialPos, initialSkip)
      invariant multiset(knot[..]) == multiset(old(knot[..]))
    {
      var length := lengths[i];
      ReverseWindow(knot, pos, length);
      assert lengths[i..][1..] == lengths[i + 1..];
      pos := (pos + length + i + initialSkip) % knot.Length;
      i := i + 1;
    }
  }

  // ---------------------------------------------------------------------------------------
  // The hash

  /** The lengths appended to every input. */
  const Suffix: seq<bv8> := [17, 31, 73, 47, 23]

  /** The bytes of the input with the suffix, as lengths. */
  function FullLengths(input: seq<bv8>): (r: seq<nat>)
    ensures |r| == |input| + 5 && forall i :: 0 <= i < |r| ==> r[i] <= 255
    ensures forall i :: 0 <= i < |input| ==> r[i] == input[i] as nat
  {
    seq(|input| + 5, i requires 0 <= i < |input| + 5 => (if i < |input| then input[i] else Suffix[i - |input|]) as nat)
  }

  /** The knot 0, 1, ..., 255. */
  function InitialKnot(): (r: seq<bv8>)
    ensures |r| == 256
  {
    seq(256, i requires 0 <= i < 256 => i as bv8)
  }

  /** Rounds `round` to 63 of the hash: each starts where the last ended, with the skip grown by
      one per length of every earlier round. */
  function HashRounds(s: seq<bv8>, lengths: seq<nat>, pos: nat, round: nat): (r: seq<bv8>)
    requires |s| == 256 && pos < 256 && round <= 64 && forall i :: 0 <= i < |lengths| ==> lengths[i] <= 256
    ensures |r| == 256
    decreases 64 - round
  {
    if round == 64 then s
    else
      var (t, p) := RoundFrom(s, lengths, pos, |lengths| * round);
      HashRounds(t, lengths, p, round + 1)
  }

  /** The XOR of all the bytes, folded from the left. */
  function XorAll(s: seq<bv8>): bv8
  {
    if s == [] then 0 else XorAll(s[..|s| - 1]) ^ s[|s| - 1]
  }

  /** XOR folds over concatenations piece by piece. */
  lemma {:induction false} XorAllAppend(a: seq<bv8>, b: seq<bv8>)
    ensures XorAll(a + b) == XorAll(a) ^ XorAll(b)
    decreases |b|
  {
    if b == [] {
      assert a + b == a;
    } else {
      var c := b[..|b| - 1];
      assert (a + b)[..|a + b| - 1] == a + c;
      XorAllAppend(a, c);
    }
  }

  /** The dense hash: byte `d` is the XOR of the knot's block `16 * d .. 16 * d + 16`. */
  method Dense(knot: array<bv8>) returns (r: seq<bv8>)
    requires knot.Length == 256
    ensures |r| == 16
    ensures forall d :: 0 <= d < 16 ==> r[d] == XorAll(knot[16 * d .. 16 * (d + 1)])
  {
    r := [];
    var d := 0;
    while d < 16
      invariant 0 <= d <= 16 && |r| == d
      invariant forall e :: 0 <= e < d ==> r[e] == XorAll(knot[16 * e .. 16 * (e + 1)])
    {
      var acc: bv8 := 0;
      var i := 16 * d;
      while i < 16 * (d + 1)
        invariant 16 * d <= i <= 16 * (d + 1)
        invariant acc == XorAll(knot[16 * d .. i])
      {
        assert knot[16 * d .. i + 1][..i - 16 * d] == knot[16 * d .. i];
        acc := acc ^ knot[i];
        i := i + 1;
      }
      r := r + [acc];
      d := d + 1;
    }
  }

  /** The knot hash of the input bytes: 64 rounds over the input and the suffix on the knot
      0..255, then the dense hash. The final knot is a rearrangement of the initial one. */
  method Hash(input: seq<bv8>) returns (r: seq<bv8>)
    ensures |r| == 16
    ensures var k := HashRounds(InitialKnot(), FullLengths(input), 0, 0);
      multiset(k) == multiset(InitialKnot()) &&
      forall d :: 0 <= d < 16 ==> r[d] == XorAll(k[16 * d .. 16 * (d + 1)])
  {
    var lengths := FullLengths(input);
    var initial := InitialKnot();
    var knot := new bv8[256](i requires 0 <= i < 256 => initial[i]);
    assert knot[..] == InitialKnot();
    var pos := 0;
    var round := 0;
    while round < 64
      invariant 0 <= round <= 64 && pos < 256 && knot.Length == 256
      invariant HashRounds(knot[..], lengths, pos, round) == HashRounds(InitialKnot(), lengths, 0, 0)
      invariant multiset(knot[..]) == multiset(InitialKnot())
    {
      pos := KnotRound(knot, lengths, pos, |lengths| * round);
      round := round + 1;
    }
    r := Dense(knot);
  }

  /** The list 0, 1, ..., n - 1. */
  function Ordered(n: nat): (r: seq<nat>)
    ensures |r| == n
  {
    seq(n, i => i)
  }

  /** The first star: one round over the lengths on the list 0..elements, then the product of its
      first two elements. The source requires at least two elements. */
  method Star1(elements: nat, lengths: seq<nat>) returns (r: nat)
    requires elements >= 2 && forall i :: 0 <= i < |lengths| ==> lengths[i] <= elements
    ensures var k := RoundFrom(Ordered(elements), lengths, 0, 0).0;
      r == k[0] * k[1] && multiset(k) == multiset(Ordered(elements))
  {
    var knot := new nat[elements](i => i);
    assert knot[..] == Ordered(elements);
    var _ := KnotRound(knot, lengths, 0, 0);
    r := knot[0] * knot[1];
  }
}
