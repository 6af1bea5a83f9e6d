/** Start-of-packet marker detection: the position just after the first window of `n`
    pairwise distinct characters. */
module Marker {

  datatype Option<T> = None | Some(value: T)

  /** The characters of `s` at positions `lo .. hi - 1` are pairwise distinct. */
  ghost predicate DistinctRange(s: string, lo: nat, hi: nat)
    requires lo <= hi <= |s|
  {
    forall a, b :: lo <= a < b < hi ==> s[a] != s[b]
  }

  /** The `n` characters ending at position `i` exist and are pairwise distinct. */
  ghost predicate DistinctWindow(s: string, n: nat, i: nat)
  {
    n <= i + 1 <= |s| && DistinctRange(s, i + 1 - n, i + 1)
  }

  /** The first position of `c` in `buffer`. */
  function Position(buffer: seq<char>, c: char): (r: Option<nat>)
    ensures r.Some? ==> r.value < |buffer| && buffer[r.value] == c
    ensures r.Some? ==> forall j :: 0 <= j < r.value ==> buffer[j] != c
    ensures r.None? <==> c !in buffer
  {
    if buffer == [] then None
    else if buffer[0] == c then Some(0)
    else match Position(buffer[1..], c)
      case Some(p) => Some(p + 1)
      case None => None
  }

  /** `start .. end - 1` is the longest run of distinct characters ending just before `end`. */
  ghost predicate Longest(s: string, start: nat, end: nat)
    requires start <= end <= |s|
  {
    DistinctRange(s, start, end) && forall k: nat :: k < start ==> !DistinctRange(s, k, end)
  }

  /** The source's scan: `buffer` holds the longest run of distinct characters ending at the
      current one. The result is `i + 1` for the first `i` whose window of `n` characters is
      distinct, or None where the source panics because there is no such window. */
  method FindMarker(input: string, n: nat) returns (r: Option<nat>)
    ensures r.Some? ==> 1 <= r.value && DistinctWindow(input, n, r.value - 1)
    ensures r.Some? ==> forall j :: 0 <= j < r.value - 1 ==> !DistinctWindow(input, n, j)
    ensures r.None? ==> forall j :: 0 <= j < |input| ==> !DistinctWindow(input, n, j)
  {
    var buffer: seq<char> := [];
    ghost var start := 0;
    var i := 0;
    while i < |input|
      invariant 0 <= start <= i <= |input|
      invariant buffer == input[start..i]
      invariant |buffer| < n || i == 0
      invariant Longest(input, start, i)
      invariant forall j :: 0 <= j < i ==> !DistinctWindow(input, n, j)
    {
      buffer, start := Push(input, buffer, start, i);
      if |buffer| >= n {
        assert DistinctWindow(input, n, i);
        return Some(i + 1);
      }
      NoWindow(input, n, start, i);
      i := i + 1;
    }
    r := None;
  }

  /** One character of the scan: the part of the buffer up to an earlier copy of `input[i]` is
      drained, then `input[i]` is pushed. The buffer is again the longest distinct run, now
      ending at `i`. */
  method Push(input: string, buffer: seq<char>, ghost start: nat, i: nat)
    returns (r: seq<char>, ghost newStart: nat)
    requires start <= i < |input| && buffer == input[start..i] && Longest(input, start, i)
    ensures start <= newStart <= i && r == input[newStart..i + 1] && Longest(input, newStart, i + 1)
    ensures 1 <= |r| <= i + 1 - start && r == input[i + 1 - |r|..i + 1] && Longest(input, i + 1 - |r|, i + 1)
  {
    var c := input[i];
    r := buffer;
    newStart := start;
    match Position(buffer, c) {
      case Some(pos) =>
        assert input[start + pos] == c;
        r := buffer[pos + 1..];
        newStart := start + pos + 1;
      case None =>
        assert input[start..i] == buffer;
    }
    Advance(input, start, i, newStart);
    r := r + [c];
    assert r == input[newStart..i + 1];
  }

  /** Reading `s[i]`: the longest distinct run ending before it either takes it on, when `s[i]`
      is not in the run, or is cut just after the earlier copy of `s[i]`. Either way the run is
      again the longest distinct one, now ending at `i`. */
  lemma Advance(s: string, start: nat, i: nat, newStart: nat)
    requires start <= newStart <= i < |s| && Longest(s, start, i)
    requires (newStart == start && s[i] !in s[start..i]) || (start < newStart && s[newStart - 1] == s[i])
    ensures Longest(s, newStart, i + 1)
  {
    forall a, b | newStart <= a < b < i + 1
      ensures s[a] != s[b]
    {
      if b == i {
        if newStart == start {
          assert s[a] == s[start..i][a - start];
        } else {
          assert s[a] != s[newStart - 1];
        }
      }
    }
    if start < newStart {
      RepeatBreaksRange(s, newStart - 1, i, i + 1);
    }
    ExtendBrokenRange(s, start, i, i + 1);
  }

  /** A distinct run ending at `i` that is shorter than `n` and cannot be extended to the left
      leaves no distinct window of `n` ending at `i`. */
  lemma NoWindow(s: string, n: nat, start: nat, i: nat)
    requires start <= i < |s| && i + 1 - start < n && Longest(s, start, i + 1)
    ensures !DistinctWindow(s, n, i)
  {
    if n <= i + 1 {
      assert i + 1 - n < start;
    }
  }

  /** Every range holding the same character twice is not distinct. */
  lemma RepeatBreaksRange(s: string, a: nat, b: nat, end: nat)
    requires a < b < end <= |s| && s[a] == s[b]
    ensures forall k: nat :: k <= a ==> !DistinctRange(s, k, end)
  {
  }

  /** Extending ranges that are not distinct keeps them not distinct. */
  lemma ExtendBrokenRange(s: string, start: nat, hi: nat, end: nat)
    requires start <= hi <= end <= |s|
    requires forall k: nat :: k < start ==> !DistinctRange(s, k, hi)
    ensures forall k: nat :: k < start ==> !DistinctRange(s, k, end)
  {
    forall k: nat | k < start
      ensures !DistinctRange(s, k, end)
    {
      assert !DistinctRange(s, k, hi);
    }
  }
}
