// A database of fresh-ingredient id ranges: parsing the ranges as half-open intervals and merging
// them into sorted, separated intervals that cover the same ids.

module MergeIntervals {

  datatype Option<T> = None | Some(value: T)

  /** The ids `lo <= x < hi`, the half-open interval `(lo, hi)`. */
  type Interval = (nat, nat)

  /** The range of a 64-bit unsigned integer. */
  const U64Limit: nat := 0x1_0000_0000_0000_0000

  // ---------------------------------------------------------------------------------------
  // Parsing

  predicate IsDigit(c: char)
  {
    '0' <= c <= '9'
  }

  /** The value of a string of decimal digits. */
  function Decimal(s: string): nat
    requires forall k :: 0 <= k < |s| ==> IsDigit(s[k])
  {
    if s == [] then 0
    else
      assert IsDigit(s[|s| - 1]);
      10 * Decimal(s[..|s| - 1]) + (s[|s| - 1] as int - '0' as int)
  }

  /** An unsigned 64-bit decimal: an optional `+`, then at least one digit, and a value that
      fits. Anything else is an error. */
  function ParseU64(s: string): (r: Option<nat>)
    ensures r.Some? ==> r.value < U64Limit
  {
    var digits := if |s| > 0 && s[0] == '+' then s[1..] else s;
    if digits == [] || exists k :: 0 <= k < |digits| && !IsDigit(digits[k]) then None
    else if Decimal(digits) < U64Limit then Some(Decimal(digits))
    else None
  }

  /** The index of the first `c` in `s`, if any. */
  function Find(s: string, c: char): (r: Option<nat>)
    ensures r.Some? ==> r.value < |s| && s[r.value] == c && c !in s[..r.value]
    ensures r.None? ==> c !in s
  {
    if s == [] then None
    else if s[0] == c then Some(0)
    else match Find(s[1..], c)
      case None => None
      case Some(k) => Some(k + 1)
  }

  /** A line `l-r`, split at its first `-`, as the half-open interval `(l, r + 1)`. A missing
      separator, a bad number or an `r` whose successor overflows is an error. */
  function ParseRange(line: string): (r: Option<Interval>)
    ensures r.Some? ==> '-' in line && r.value.0 < U64Limit && 0 < r.value.1 < U64Limit
  {
    match Find(line, '-')
    case None => None
    case Some(k) =>
      match (ParseU64(line[..k]), ParseU64(line[k + 1..]))
      case (Some(l), Some(r)) => if r + 1 < U64Limit then Some((l, r + 1)) else None
      case _ => None
  }

  /** The ranges of the database, one per line, or an error if any line is malformed. */
  function ParseDb(lines: seq<string>): (r: Option<seq<Interval>>)
    ensures r.Some? <==> forall k :: 0 <= k < |lines| ==> ParseRange(lines[k]).Some?
    ensures r.Some? ==> |r.value| == |lines|
    ensures r.Some? ==> forall k :: 0 <= k < |lines| ==> r.value[k] == ParseRange(lines[k]).value
  {
    if lines == [] then Some([])
    else
      match (ParseDb(lines[..|lines| - 1]), ParseRange(lines[|lines| - 1]))
      case (Some(init), Some(last)) => Some(init + [last])
      case _ => None
  }

  // ---------------------------------------------------------------------------------------
  // Printing, as the partner of parsing

  /** The decimal digits of `n`, with no sign and no leading zero; `0` for zero. */
  function DecimalString(n: nat): (r: string)
    ensures |r| > 0 && forall k :: 0 <= k < |r| ==> IsDigit(r[k])
    ensures Decimal(r) == n
  {
    var last := ['0' + (n % 10) as char];
    if n < 10 then last
    else
      var init := DecimalString(n / 10);
      assert (init + last)[..|init + last| - 1] == init;
      init + last
  }

  /** `l-r`, the form the database is written in. */
  function ShowRange(l: nat, r: nat): string
  {
    DecimalString(l) + "-" + DecimalString(r)
  }

  /** Every written range below the 64-bit limit parses back, as the half-open interval whose
      end is one past `r`. */
  lemma ParseShowRange(l: nat, r: nat)
    requires l < U64Limit && r + 1 < U64Limit
    ensures ParseRange(ShowRange(l, r)) == Some((l, r + 1))
  {
    var a, b := DecimalString(l), DecimalString(r);
    var line := ShowRange(l, r);
    assert '-' !in a;
    assert line[..|a|] == a && line[|a| + 1..] == b;
    assert Find(line, '-') == Some(|a|) by {
      FindAfter(a, b);
    }
  }

  lemma {:induction false} FindAfter(a: string, b: string)
    requires '-' !in a
    ensures Find(a + "-" + b, '-') == Some(|a|)
  {
    if a != [] {
      assert (a + "-" + b)[1..] == a[1..] + "-" + b;
      FindAfter(a[1..], b);
    }
  }

  // ---------------------------------------------------------------------------------------
  // Coverage, order and sorting

  predicate In(iv: Interval, x: int)
  {
    iv.0 <= x < iv.1
  }

  /** Whether some interval of `s` holds `x`. */
  predicate Covers(s: seq<Interval>, x: int)
  {
    exists k :: 0 <= k < |s| && In(s[k], x)
  }

  /** The order of the source's tuples: by start, then by end. */
  predicate Le(a: Interval, b: Interval)
  {
    a.0 < b.0 || (a.0 == b.0 && a.1 <= b.1)
  }

  predicate Sorted(s: seq<Interval>)
  {
    forall i, j :: 0 <= i < j < |s| ==> Le(s[i], s[j])
  }

  function Insert(x: Interval, s: seq<Interval>): (r: seq<Interval>)
    requires Sorted(s)
    ensures |r| == |s| + 1 && Sorted(r) && multiset(r) == multiset(s) + multiset{x}
  {
    if s == [] || Le(x, s[0]) then
      SortedCons(x, s);
      [x] + s
    else
      var rest := Insert(x, s[1..]);
      assert s == [s[0]] + s[1..];
      LowerBound(s[0], s[1..], x, rest);
      SortedBelow(s[0], rest);
      [s[0]] + rest
  }

  /** An interval no later than the first of sorted intervals can go in front of them. */
  lemma SortedCons(a: Interval, t: seq<Interval>)
    requires Sorted(t) && (t == [] || Le(a, t[0]))
    ensures Sorted([a] + t)
  {
    forall k | 0 <= k < |t|
      ensures Le(a, t[k])
    {
      assert Le(t[0], t[k]) || k == 0;
    }
    SortedBelow(a, t);
  }

  /** A lower bound of sorted intervals can go in front of them. */
  lemma SortedBelow(a: Interval, t: seq<Interval>)
    requires Sorted(t) && forall k :: 0 <= k < |t| ==> Le(a, t[k])
    ensures Sorted([a] + t)
  {
    var r := [a] + t;
    forall i, j | 0 <= i < j < |r|
      ensures Le(r[i], r[j])
    {
      assert r[j] == t[j - 1];
      if i > 0 {
        assert r[i] == t[i - 1];
      }
    }
  }

  /** A lower bound of the old intervals and of the new one bounds everything after inserting. */
  lemma LowerBound(a: Interval, t: seq<Interval>, x: Interval, r: seq<Interval>)
    requires (forall k :: 0 <= k < |t| ==> Le(a, t[k])) && Le(a, x)
    requires multiset(r) == multiset(t) + multiset{x}
    ensures forall k :: 0 <= k < |r| ==> Le(a, r[k])
  {
    forall k | 0 <= k < |r|
      ensures Le(a, r[k])
    {
      assert r[k] in multiset(r);
      if r[k] != x {
        assert r[k] in multiset(t);
      }
    }
  }

  /** The standard library's sort, as a function: an insertion sort. */
  function Sort(s: seq<Interval>): (r: seq<Interval>)
    ensures |r| == |s| && Sorted(r) && multiset(r) == multiset(s)
  {
    if s == [] then []
    else
      assert s == s[..|s| - 1] + [s[|s| - 1]];
      Insert(s[|s| - 1], Sort(s[..|s| - 1]))
  }

  /** Reordering the intervals covers the same ids. */
  lemma CoversReordered(s: seq<Interval>, t: seq<Interval>, x: int)
    requires multiset(s) == multiset(t)
    ensures Covers(s, x) <==> Covers(t, x)
  {
    if Covers(s, x) {
      var k :| 0 <= k < |s| && In(s[k], x);
      assert s[k] in multiset(t);
    }
    if Covers(t, x) {
      var k :| 0 <= k < |t| && In(t[k], x);
      assert t[k] in multiset(s);
    }
  }

  // ---------------------------------------------------------------------------------------
  // Merging sorted intervals

  /** Each interval ends before the next one starts, and all but the first hold some id. */
  predicate Separated(o: seq<Interval>)
  {
    (forall k :: 0 <= k < |o| - 1 ==> o[k].1 < o[k + 1].0) &&
    (forall k :: 1 <= k < |o| ==> o[k].0 < o[k].1)
  }

  /** One step of the merge: an empty interval is dropped; one starting after the last output
      interval ends is appended; one overlapping or touching it extends it if it reaches further. */
  function MergeStep(o: seq<Interval>, iv: Interval): seq<Interval>
    requires o != []
  {
    var last := o[|o| - 1];
    if iv.1 <= iv.0 then o
    else if iv.0 > last.1 then o + [iv]
    else if iv.1 > last.1 then o[|o| - 1 := (last.0, iv.1)]
    else o
  }

  /** The merge of sorted intervals: the first is kept as it is and the others merged into it one
      by one. */
  function Merge(s: seq<Interval>): (r: seq<Interval>)
    ensures |r| <= |s| && (s != [] ==> r != [])
  {
    if |s| <= 1 then s else MergeStep(Merge(s[..|s| - 1]), s[|s| - 1])
  }

  /** Merging sorted intervals gives separated intervals no more than the input in number, the
      last of which starts no later than the last input. */
  lemma {:induction false} MergeSeparated(s: seq<Interval>)
    requires Sorted(s) && s != []
    ensures var m := Merge(s);
      1 <= |m| <= |s| && Separated(m) && m[|m| - 1].0 <= s[|s| - 1].0 &&
      m[0].0 == s[0].0 && forall k :: 0 <= k < |m| ==> s[0].0 <= m[k].0
  {
    if |s| > 1 {
      var init, iv := s[..|s| - 1], s[|s| - 1];
      assert Sorted(init);
      MergeSeparated(init);
      var m := Merge(init);
      assert Le(init[|init| - 1], iv) && Le(s[0], iv);
      assert init[0] == s[0];
      StepSeparated(m, iv);
      var r := MergeStep(m, iv);
      assert Merge(s) == r;
      forall k | 0 <= k < |r| ensures s[0].0 <= r[k].0 {
        if k < |m| && r[k].0 == m[k].0 {
          assert s[0].0 <= m[k].0;
        }
      }
    }
  }

  /** A merge step keeps the output separated, starting where it started; each interval either
      keeps its start or is the new one. */
  lemma StepSeparated(o: seq<Interval>, iv: Interval)
    requires o != [] && Separated(o) && o[|o| - 1].0 <= iv.0
    ensures var r := MergeStep(o, iv);
      |o| <= |r| <= |o| + 1 && Separated(r) && r[|r| - 1].0 <= iv.0 && r[0].0 == o[0].0 &&
      forall k :: 0 <= k < |r| ==> (k < |o| && r[k].0 == o[k].0) || r[k] == iv
  {
  }

  /** Merging sorted intervals covers exactly the ids the input covers. */
  lemma {:induction false} MergeCovers(s: seq<Interval>, x: int)
    requires Sorted(s)
    ensures Covers(Merge(s), x) <==> Covers(s, x)
  {
    if |s| > 1 {
      var init, iv := s[..|s| - 1], s[|s| - 1];
      assert Sorted(init);
      MergeCovers(init, x);
      MergeSeparated(init);
      var m := Merge(init);
      assert Le(init[|init| - 1], iv);
      StepCovers(m, iv, x);
      CoversLast(s, x);
    }
  }

  /** Covering with one more interval. */
  lemma CoversLast(s: seq<Interval>, x: int)
    requires s != []
    ensures Covers(s, x) <==> Covers(s[..|s| - 1], x) || In(s[|s| - 1], x)
  {
    if Covers(s, x) {
      var k :| 0 <= k < |s| && In(s[k], x);
      if k < |s| - 1 {
        assert s[..|s| - 1][k] == s[k];
      }
    }
    if Covers(s[..|s| - 1], x) {
      var k :| 0 <= k < |s| - 1 && In(s[..|s| - 1][k], x);
      assert In(s[k], x);
    }
  }

  /** A merge step adds exactly the ids of the new interval, provided that it starts no earlier
      than the last output interval. */
  lemma StepCovers(o: seq<Interval>, iv: Interval, x: int)
    requires o != [] && o[|o| - 1].0 <= iv.0
    ensures Covers(MergeStep(o, iv), x) <==> Covers(o, x) || In(iv, x)
  {
    var last := o[|o| - 1];
    var r := MergeStep(o, iv);
    if iv.1 <= iv.0 {
    } else if iv.0 > last.1 {
      CoversLast(o + [iv], x);
      assert (o + [iv])[..|o|] == o;
    } else {
      CoversLast(o, x);
      if iv.1 > last.1 {
        CoversLast(r, x);
        assert r[..|r| - 1] == o[..|o| - 1];
      } else if In(iv, x) {
        assert In(o[|o| - 1], x);
      }
    }
  }

  /** Separated intervals are disjoint: every id lies in at most one of them. */
  lemma {:induction false} SeparatedGap(o: seq<Interval>, i: nat, j: nat)
    requires Separated(o) && i < j < |o|
    ensures o[i].1 < o[j].0
    decreases j - i
  {
    if j > i + 1 {
      SeparatedGap(o, i, j - 1);
    }
  }

  lemma SeparatedDisjoint(o: seq<Interval>, i: nat, j: nat, x: int)
    requires Separated(o) && i < |o| && j < |o| && In(o[i], x) && In(o[j], x)
    ensures i == j
  {
    if i < j {
      SeparatedGap(o, i, j);
    } else if j < i {
      SeparatedGap(o, j, i);
    }
  }

  /** What the source's merge leaves of a database: its intervals sorted and merged. */
  function Merged(db: seq<Interval>): (r: seq<Interval>)
    ensures |r| <= |db| && (db != [] ==> r != [])
  {
    Merge(Sort(db))
  }

  /** The merged database is sorted, separated, no longer than the input, non-empty for a
      non-empty input, and covers exactly the ids the input covers. */
  lemma MergedCorrect(db: seq<Interval>)
    ensures var m := Merged(db);
      |m| <= |db| && (db != [] ==> m != []) && Separated(m) && Sorted(m) &&
      forall x :: Covers(m, x) <==> Covers(db, x)
  {
    var s := Sort(db);
    var m := Merged(db);
    if s != [] {
      MergeSeparated(s);
      forall i, j | 0 <= i < j < |m| ensures Le(m[i], m[j]) {
        SeparatedGap(m, i, j);
        assert m[j].0 < m[j].1;
        if i > 0 {
          assert m[i].0 < m[i].1;
        }
      }
    } else {
      assert |db| == 0;
    }
    forall x ensures Covers(m, x) <==> Covers(db, x) {
      MergeCovers(s, x);
      CoversReordered(s, db, x);
    }
  }

  // ---------------------------------------------------------------------------------------
  // The merge, in place

  /** Sorts the database, then compacts it from the front: `len` is the length the source
      truncates the vector to, and the first `len` entries are the merged intervals. */
  method MergeInPlace(db: array<Interval>) returns (len: nat)
    modifies db
    ensures len <= db.Length && db[..len] == Merged(old(db[..]))
  {
    SortInPlace(db);
    len := Compact(db);
  }

  /** The library sort, in place. */
  method SortInPlace(db: array<Interval>)
    modifies db
    ensures db[..] == Sort(old(db[..]))
  {
    var s := Sort(db[..]);
    forall k | 0 <= k < db.Length {
      db[k] := s[k];
    }
  }

  /** The merge loop: a write position trails the read position, and the intervals up to it are
      the merge of those read so far. */
  method Compact(db: array<Interval>) returns (len: nat)
    modifies db
    ensures len <= db.Length && db[..len] == Merge(old(db[..]))
  {
    ghost var s := db[..];
    if db.Length == 0 {
      return 0;
    }
    var w := 0;
    for i := 1 to db.Length
      invariant w < i && db[..w + 1] == Merge(s[..i])
      invariant forall j :: i <= j < db.Length ==> db[j] == s[j]
    {
      MergeNext(s, i);
      ghost var before := db[..w + 1];
      var (rl, rr) := db[i];
      if rr > rl {
        if rl > db[w].1 {
          w := w + 1;
          db[w] := (rl, rr);
          assert db[..w + 1] == before + [(rl, rr)];
        } else if rr > db[w].1 {
          db[w] := (db[w].0, rr);
          assert db[..w + 1] == before[w := (before[w].0, rr)];
        }
      }
    }
    assert s[..db.Length] == s;
    return w + 1;
  }

  /** The merge of one more interval is one more merge step. */
  lemma MergeNext(s: seq<Interval>, i: nat)
    requires 1 <= i < |s|
    ensures Merge(s[..i + 1]) == MergeStep(Merge(s[..i]), s[i])
  {
    assert s[..i + 1][..i] == s[..i];
  }
}
