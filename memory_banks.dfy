/** Memory-bank reallocation: the fullest bank is emptied and its blocks are handed out one at a
    time to the following banks, wrapping around. */
module MemoryBanks {

  datatype Option<T> = None | Some(value: T)

  /** `i` holds a largest value of `s`, and no earlier position does. */
  ghost predicate IsFirstMax(s: seq<int>, i: nat)
  {
    i < |s| &&
    (forall j :: 0 <= j < |s| ==> s[j] <= s[i]) &&
    (forall j :: 0 <= j < i ==> s[j] < s[i])
  }

  /** The index of the first largest element, or None on an empty sequence. */
  method FirstMaxIndex(s: seq<int>) returns (r: Option<nat>)
    ensures r.None? <==> s == []
    ensures r.Some? ==> IsFirstMax(s, r.value)
  {
    if s == [] {
      return None;
    }
    var max, maxIndex := s[0], 0;
    var index := 1;
    while index < |s|
      invariant 1 <= index <= |s|
      invariant maxIndex < index && max == s[maxIndex]
      invariant forall j :: 0 <= j < index ==> s[j] <= max
      invariant forall j :: 0 <= j < maxIndex ==> s[j] < max
    {
      if s[index] > max {
        max, maxIndex := s[index], index;
      }
      index := index + 1;
    }
    r := Some(maxIndex);
  }

  /** The first index of the maximum as a function, for use in specifications. */
  function MaxIndex(s: seq<int>): (i: nat)
    requires s != []
    ensures IsFirstMax(s, i)
    decreases |s|
  {
    if |s| == 1 then 0
    else
      var i := MaxIndex(s[..|s| - 1]);
      if s[|s| - 1] > s[i] then |s| - 1 else i
  }

  /** The first maximum is unique, so FirstMaxIndex and MaxIndex agree. */
  lemma FirstMaxUnique(s: seq<int>, i: nat, j: nat)
    requires IsFirstMax(s, i) && IsFirstMax(s, j)
    ensures i == j
  {
    assert s[i] == s[j];
  }

  /** Hands out `v` blocks one at a time, starting at index `i` and wrapping to 0 at the end. */
  function Distribute(s: seq<int>, i: nat, v: int): (r: seq<int>)
    requires s != [] && i <= |s|
    ensures |r| == |s|
    decreases v
  {
    if v <= 0 then s
    else
      var k := if i >= |s| then 0 else i;
      Distribute(s[k := s[k] + 1], k + 1, v - 1)
  }

  /** One redistribution: empty the first fullest bank and deal its blocks out after it. */
  function Redistribute(s: seq<int>): (r: seq<int>)
    requires s != []
    ensures |r| == |s|
  {
    var m := MaxIndex(s);
    Distribute(s[m := 0], m + 1, s[m])
  }

  /** The source's in-place redistribution; the vector must not be empty. */
  method RedistributeBanks(a: array<int>)
    requires a.Length > 0
    modifies a
    ensures a[..] == Redistribute(old(a[..]))
  {
    var s := FirstMaxIndex(a[..]);
    var index := s.value;
    FirstMaxUnique(a[..], index, MaxIndex(a[..]));
    ghost var start := a[..][index := 0];
    var value := a[index];
    a[index] := 0;
    index := index + 1;
    assert a[..] == start;
    while value > 0
      invariant index <= a.Length
      invariant Distribute(a[..], index, value) == Redistribute(old(a[..]))
      decreases value
    {
      if index >= a.Length {
        index := 0;
      }
      a[index] := a[index] + 1;
      index := index + 1;
      value := value - 1;
    }
  }

  function Sum(s: seq<int>): int
  {
    if s == [] then 0 else Sum(s[..|s| - 1]) + s[|s| - 1]
  }

  /** Changing one element changes the sum by the difference. */
  lemma {:induction false} SumUpdate(s: seq<int>, k: nat, x: int)
    requires k < |s|
    ensures Sum(s[k := x]) == Sum(s) - s[k] + x
    decreases |s|
  {
    var t := s[k := x];
    if k < |s| - 1 {
      assert t[..|t| - 1] == s[..|s| - 1][k := x];
      SumUpdate(s[..|s| - 1], k, x);
    } else {
      assert t[..|t| - 1] == s[..|s| - 1];
    }
  }

  /** Dealing out `v >= 0` blocks adds exactly `v` to the total. */
  lemma {:induction false} DistributeSum(s: seq<int>, i: nat, v: int)
    requires s != [] && i <= |s|
    ensures Sum(Distribute(s, i, v)) == Sum(s) + (if v < 0 then 0 else v)
    decreases v
  {
    if v > 0 {
      var k := if i >= |s| then 0 else i;
      SumUpdate(s, k, s[k] + 1);
      DistributeSum(s[k := s[k] + 1], k + 1, v - 1);
    }
  }

  /** Redistribution keeps the total number of blocks exactly when the fullest bank is not
      negative; with all banks negative the emptied bank's blocks are lost. */
  lemma RedistributeSum(s: seq<int>)
    requires s != []
    ensures var m := s[MaxIndex(s)];
      Sum(Redistribute(s)) == (if m >= 0 then Sum(s) else Sum(s) - m)
  {
    var m := MaxIndex(s);
    SumUpdate(s, m, 0);
    DistributeSum(s[m := 0], m + 1, s[m]);
  }
}
