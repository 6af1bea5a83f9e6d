/** Particle swarm helpers: the ordering of particles by their distance from the origin in the
    long run, and the in-place removal of colliding (equal, adjacent) entries. */
module Particles {

  datatype Vector3 = Vector3(x: int, y: int, z: int)

  datatype Particle = Particle(position: Vector3, velocity: Vector3, accel: Vector3)

  datatype Ordering = Less | Equal | Greater

  function Abs(n: int): nat
  {
    if n < 0 then -n else n
  }

  /** The taxicab (L1) norm. */
  function TaxicabNorm(v: Vector3): nat
  {
    Abs(v.x) + Abs(v.y) + Abs(v.z)
  }

  function Compare(a: int, b: int): (r: Ordering)
    ensures r == Less <==> a < b
    ensures r == Equal <==> a == b
  {
    if a < b then Less else if a == b then Equal else Greater
  }

  function Flip(o: Ordering): Ordering
  {
    match o
    case Less => Greater
    case Equal => Equal
    case Greater => Less
  }

  /** The velocity after `t` more steps of acceleration. */
  function AdvancedVelocity(p: Particle, t: int): Vector3
  {
    Vector3(p.velocity.x + p.accel.x * t, p.velocity.y + p.accel.y * t, p.velocity.z + p.accel.z * t)
  }

  /** Orders particles by how close to the origin they stay as time goes to infinity: by the norm
      of the acceleration, and on a tie by the norm of the velocity after as many steps as the
      larger velocity norm. */
  function OrderRangeAtInf(a: Particle, b: Particle): (r: Ordering)
    ensures TaxicabNorm(a.accel) < TaxicabNorm(b.accel) ==> r == Less
    ensures TaxicabNorm(a.accel) > TaxicabNorm(b.accel) ==> r == Greater
    ensures TaxicabNorm(a.accel) == TaxicabNorm(b.accel) ==>
      var t := if TaxicabNorm(a.velocity) >= TaxicabNorm(b.velocity) then TaxicabNorm(a.velocity) else TaxicabNorm(b.velocity);
      r == Compare(TaxicabNorm(AdvancedVelocity(a, t)), TaxicabNorm(AdvancedVelocity(b, t)))
  {
    match Compare(TaxicabNorm(a.accel), TaxicabNorm(b.accel))
    case Equal =>
      var t := if TaxicabNorm(a.velocity) >= TaxicabNorm(b.velocity) then TaxicabNorm(a.velocity) else TaxicabNorm(b.velocity);
      Compare(TaxicabNorm(AdvancedVelocity(a, t)), TaxicabNorm(AdvancedVelocity(b, t)))
    case other => other
  }

  /** Swapping the arguments reverses the ordering. */
  lemma OrderAntisymmetric(a: Particle, b: Particle)
    ensures OrderRangeAtInf(b, a) == Flip(OrderRangeAtInf(a, b))
  {
  }

  /** Position `i` of `s` is not equal to either of its neighbours. */
  predicate Lonely<T(==)>(s: seq<T>, i: nat)
    requires i < |s|
  {
    !(i + 1 < |s| && s[i] == s[i + 1]) && !(0 < i && s[i - 1] == s[i])
  }

  /** The elements among the first `k` of `s` that equal neither neighbour, in order. */
  function LonelyPrefix<T(==)>(s: seq<T>, k: nat): (r: seq<T>)
    requires k <= |s|
    ensures |r| <= k
    ensures forall i :: 0 <= i < |r| ==> r[i] in s
  {
    if k == 0 then [] else LonelyPrefix(s, k - 1) + (if Lonely(s, k - 1) then [s[k - 1]] else [])
  }

  /** The elements of `s` that equal neither neighbour. */
  function WithoutRuns<T(==)>(s: seq<T>): (r: seq<T>)
    ensures |r| <= |s|
    ensures forall i :: 0 <= i < |r| ==> r[i] in s
  {
    LonelyPrefix(s, |s|)
  }

  /** The source's in-place removal: elements equal to the next one start a skip, which also
      drops the element after the run; kept elements are swapped down to `write` and the vector is
      then cut to length `n`. Returns whether anything was removed. */
  method RemoveDuplicates<T(==)>(a: array<T>) returns (n: nat, changed: bool)
    modifies a
    ensures n <= a.Length
    ensures a[..n] == WithoutRuns(old(a[..]))
    ensures multiset(a[..]) == multiset(old(a[..]))
    ensures changed <==> n != a.Length
  {
    ghost var s := a[..];
    var write := 0;
    var skipping := false;
    var read := 0;
    while read < a.Length
      invariant read <= a.Length && Scanned(a[..], s, write, read, skipping)
    {
      write, skipping := Visit(a, write, read, skipping, s);
      read := read + 1;
    }
    n, changed := write, write != a.Length;
  }

  /** The state of the scan after `read` elements of `s`: the first `write` entries are those
      kept so far, the unread ones are untouched, the contents are the same, and `skipping` says
      whether the next element equals the one before it. */
  ghost predicate Scanned<T>(t: seq<T>, s: seq<T>, write: nat, read: nat, skipping: bool)
  {
    write <= read <= |s| == |t| && t[..write] == LonelyPrefix(s, read) &&
    (forall j :: read <= j < |t| ==> t[j] == s[j]) && multiset(t) == multiset(s) &&
    (read < |s| ==> (skipping <==> 0 < read && s[read - 1] == s[read]))
  }

  /** One element of the scan: it starts or continues a skip when it equals the next one, ends
      the skip when it is the last of a run, and is otherwise swapped down and kept. */
  method Visit<T(==)>(a: array<T>, write: nat, read: nat, skipping: bool, ghost s: seq<T>)
    returns (write': nat, skipping': bool)
    requires read < a.Length && Scanned(a[..], s, write, read, skipping)
    modifies a
    ensures Scanned(a[..], s, write', read + 1, skipping')
  {
    assert a[read] == s[read];
    write', skipping' := write, skipping;
    if read < a.Length - 1 && a[read] == a[read + 1] {
      assert a[read + 1] == s[read + 1];
      skipping' := true;
    } else if skipping {
      skipping' := false;
    } else {
      assert Lonely(s, read);
      KeepAt(a, write, read, s);
      write' := write + 1;
    }
  }

  /** The swap of a kept element: the element read at `read` goes to `write`, after the kept
      ones, and the unread elements and the contents are as they were. */
  method KeepAt<T>(a: array<T>, write: nat, read: nat, ghost s: seq<T>)
    requires write <= read < a.Length == |s|
    requires forall j :: read <= j < a.Length ==> a[j] == s[j]
    modifies a
    ensures a[..write + 1] == old(a[..write]) + [s[read]]
    ensures forall j :: read < j < a.Length ==> a[j] == s[j]
    ensures multiset(a[..]) == multiset(old(a[..]))
  {
    ghost var before := a[..];
    a[read], a[write] := a[write], a[read];
    SwapDown(before, write, read);
    assert a[..] == before[read := before[write]][write := before[read]];
  }

  /** Swapping the element read at `r` down to the write position `w` appends it to the kept
      prefix, leaves the unread part alone and keeps the contents. */
  lemma SwapDown<T>(t: seq<T>, w: nat, r: nat)
    requires w <= r < |t|
    ensures var u := t[r := t[w]][w := t[r]];
      u[..w + 1] == t[..w] + [t[r]] && u[r + 1..] == t[r + 1..] && multiset(u) == multiset(t)
  {
    var u := t[r := t[w]][w := t[r]];
    assert u[..w + 1] == t[..w] + [t[r]];
    assert u[r + 1..] == t[r + 1..];
    if w < r {
      assert t == t[..w] + [t[w]] + t[w + 1..r] + [t[r]] + t[r + 1..];
      assert u == t[..w] + [t[r]] + t[w + 1..r] + [t[w]] + t[r + 1..];
    } else {
      assert u == t;
    }
  }

  predicate Sorted(s: seq<int>)
  {
    forall i, j :: 0 <= i < j < |s| ==> s[i] <= s[j]
  }

  /** In a sorted sequence an element equals neither neighbour exactly when it occurs once. */
  lemma LonelyIffSingle(s: seq<int>, i: nat)
    requires Sorted(s) && i < |s|
    ensures Lonely(s, i) <==> multiset(s)[s[i]] == 1
  {
    if Lonely(s, i) {
      forall j | 0 <= j < |s| && j != i
        ensures s[j] != s[i]
      {
        if j < i {
          assert s[j] <= s[i - 1] < s[i];
        } else {
          assert s[i] < s[i + 1] <= s[j];
        }
      }
      OnlyOnce(s, i);
    } else {
      var j := if i + 1 < |s| && s[i] == s[i + 1] then i + 1 else i - 1;
      TwiceCounted(s, i, j);
    }
  }

  /** Counting an element whose only occurrence is at `i`. */
  lemma {:induction false} OnlyOnce(s: seq<int>, i: nat)
    requires i < |s|
    requires forall j :: 0 <= j < |s| && j != i ==> s[j] != s[i]
    ensures multiset(s)[s[i]] == 1
  {
    assert s == s[..i] + [s[i]] + s[i + 1..];
    assert s[i] !in s[..i] && s[i] !in s[i + 1..];
  }

  /** An element at two different positions is counted at least twice. */
  lemma TwiceCounted(s: seq<int>, i: nat, j: nat)
    requires i < |s| && j < |s| && i != j && s[i] == s[j]
    ensures multiset(s)[s[i]] >= 2
  {
    var lo, hi := if i < j then i else j, if i < j then j else i;
    assert s == s[..lo] + [s[lo]] + s[lo + 1..];
    assert s[hi] in multiset(s[lo + 1..]) by {
      assert s[lo + 1..][hi - lo - 1] == s[hi];
    }
  }

  /** For sorted input, the kept elements are exactly those that occur once: every run of two or
      more equal elements is removed entirely. */
  lemma {:induction false} WithoutRunsSorted(s: seq<int>, k: nat, x: int)
    requires Sorted(s) && k <= |s|
    ensures x in LonelyPrefix(s, k) <==> exists i :: 0 <= i < k && s[i] == x && multiset(s)[x] == 1
  {
    if k > 0 {
      WithoutRunsSorted(s, k - 1, x);
      LonelyIffSingle(s, k - 1);
    }
  }
}
