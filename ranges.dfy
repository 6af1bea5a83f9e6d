// The positions seen on one row, as a list of inclusive ranges: adding a range absorbs every
// stored range it overlaps, growing as it goes, and appends the grown range.

module Ranges {

  /** The positions `lo <= x <= hi`. */
  type Range = (int, int)

  predicate Holds(r: Range, x: int)
  {
    r.0 <= x <= r.1
  }

  /** Whether some range of `rs` holds `x`. */
  predicate CoveredBy(rs: seq<Range>, x: int)
  {
    exists k :: 0 <= k < |rs| && Holds(rs[k], x)
  }

  function Min(a: int, b: int): int { if a <= b then a else b }

  function Max(a: int, b: int): int { if a >= b then a else b }

  /** The source's test: the larger start is at most the smaller end. */
  predicate Overlap(a: Range, b: Range)
  {
    Max(a.0, b.0) <= Min(a.1, b.1)
  }

  predicate Disjoint(rs: seq<Range>)
  {
    forall i, j :: 0 <= i < j < |rs| ==> !Overlap(rs[i], rs[j])
  }

  /** Two ranges overlap exactly when they share a position. */
  lemma OverlapShares(a: Range, b: Range)
    ensures Overlap(a, b) <==> exists x :: Holds(a, x) && Holds(b, x)
  {
    if Overlap(a, b) {
      assert Holds(a, Max(a.0, b.0)) && Holds(b, Max(a.0, b.0));
    }
  }

  // ---------------------------------------------------------------------------------------
  // The scan, as a function

  /** What the scan over the stored ranges leaves: the ranges kept, and the grown range. */
  datatype Retained = Retained(kept: seq<Range>, start: int, end: int)

  /** The source's `retain`, front to back: a stored range overlapping the current range is
      dropped and widens it; any other is kept. */
  function Retain(rs: seq<Range>, start: int, end: int): (r: Retained)
    ensures |r.kept| <= |rs|
  {
    if rs == [] then Retained([], start, end)
    else if Overlap(rs[0], (start, end)) then Retain(rs[1..], Min(start, rs[0].0), Max(end, rs[0].1))
    else
      var t := Retain(rs[1..], start, end);
      Retained([rs[0]] + t.kept, t.start, t.end)
  }

  /** The stored ranges after adding `(start, end)`: unchanged for an empty range, else those
      kept by the scan followed by the grown range. */
  function Added(rs: seq<Range>, start: int, end: int): (r: seq<Range>)
    ensures start <= end ==> |r| >= 1 && r[|r| - 1].0 <= start && end <= r[|r| - 1].1
    ensures start <= end ==> |r| <= |rs| + 1
  {
    if start <= end then
      var t := Retain(rs, start, end);
      RetainGrows(rs, start, end);
      t.kept + [(t.start, t.end)]
    else rs
  }

  // ---------------------------------------------------------------------------------------
  // Facts about the scan

  /** The range only grows. */
  lemma {:induction false} RetainGrows(rs: seq<Range>, start: int, end: int)
    ensures var t := Retain(rs, start, end); t.start <= start && end <= t.end
  {
    if rs != [] {
      if Overlap(rs[0], (start, end)) {
        RetainGrows(rs[1..], Min(start, rs[0].0), Max(end, rs[0].1));
      } else {
        RetainGrows(rs[1..], start, end);
      }
    }
  }

  /** The kept ranges together with the grown range hold exactly the positions of the stored
      ranges and of the range added. */
  lemma {:induction false} RetainCovers(rs: seq<Range>, start: int, end: int, x: int)
    requires start <= end
    ensures var t := Retain(rs, start, end);
      CoveredBy(t.kept, x) || Holds((t.start, t.end), x) <==> CoveredBy(rs, x) || Holds((start, end), x)
  {
    if rs != [] {
      var head := rs[0];
      CoveredCons(rs, x);
      if Overlap(head, (start, end)) {
        RetainCovers(rs[1..], Min(start, head.0), Max(end, head.1), x);
      } else {
        var t := Retain(rs[1..], start, end);
        RetainCovers(rs[1..], start, end, x);
        CoveredCons([head] + t.kept, x);
        assert ([head] + t.kept)[1..] == t.kept;
      }
    }
  }

  lemma CoveredCons(rs: seq<Range>, x: int)
    requires rs != []
    ensures CoveredBy(rs, x) <==> Holds(rs[0], x) || CoveredBy(rs[1..], x)
  {
    if CoveredBy(rs, x) && !Holds(rs[0], x) {
      var k :| 0 <= k < |rs| && Holds(rs[k], x);
      assert rs[1..][k - 1] == rs[k];
    }
    if CoveredBy(rs[1..], x) {
      var k :| 0 <= k < |rs| - 1 && Holds(rs[1..][k], x);
      assert rs[k + 1] == rs[1..][k];
    }
  }

  /** A range apart from the current range and from every stored range stays apart from the
      grown range. */
  lemma {:induction false} RetainApart(rs: seq<Range>, start: int, end: int, r: Range)
    requires !Overlap(r, (start, end)) && forall k :: 0 <= k < |rs| ==> !Overlap(r, rs[k])
    ensures var t := Retain(rs, start, end); !Overlap(r, (t.start, t.end))
  {
    if rs != [] {
      if Overlap(rs[0], (start, end)) {
        RetainApart(rs[1..], Min(start, rs[0].0), Max(end, rs[0].1), r);
      } else {
        RetainApart(rs[1..], start, end, r);
      }
    }
  }

  /** Every kept range is a stored range. */
  lemma {:induction false} RetainKeeps(rs: seq<Range>, start: int, end: int)
    ensures forall r :: r in Retain(rs, start, end).kept ==> r in rs
  {
    if rs != [] {
      assert rs == [rs[0]] + rs[1..];
      if Overlap(rs[0], (start, end)) {
        RetainKeeps(rs[1..], Min(start, rs[0].0), Max(end, rs[0].1));
      } else {
        RetainKeeps(rs[1..], start, end);
      }
    }
  }

  /** Every stored range the scan drops overlaps the grown range; the ranges it keeps are apart
      from it when the stored ranges were apart from each other. */
  lemma {:induction false} RetainDrops(rs: seq<Range>, start: int, end: int)
    requires start <= end
    ensures var t := Retain(rs, start, end);
      forall k :: 0 <= k < |rs| && rs[k] !in t.kept ==> Overlap(rs[k], (t.start, t.end))
  {
    if rs != [] {
      var head := rs[0];
      var t := Retain(rs, start, end);
      if Overlap(head, (start, end)) {
        var s', e' := Min(start, head.0), Max(end, head.1);
        RetainDrops(rs[1..], s', e');
        RetainGrows(rs[1..], s', e');
        forall k | 0 <= k < |rs| && rs[k] !in t.kept ensures Overlap(rs[k], (t.start, t.end)) {
          if k > 0 {
            assert rs[k] == rs[1..][k - 1];
          }
        }
      } else {
        RetainDrops(rs[1..], start, end);
        forall k | 0 <= k < |rs| && rs[k] !in t.kept ensures Overlap(rs[k], (t.start, t.end)) {
          assert k > 0;
          assert rs[k] == rs[1..][k - 1];
        }
      }
    }
  }

  /** Kept ranges of pairwise apart stored ranges are pairwise apart, and apart from the grown
      range. */
  lemma {:induction false} RetainDisjoint(rs: seq<Range>, start: int, end: int)
    requires Disjoint(rs)
    ensures var t := Retain(rs, start, end);
      Disjoint(t.kept) && forall i :: 0 <= i < |t.kept| ==> !Overlap(t.kept[i], (t.start, t.end))
  {
    if rs != [] {
      var head := rs[0];
      var t := Retain(rs, start, end);
      assert Disjoint(rs[1..]);
      if Overlap(head, (start, end)) {
        RetainDisjoint(rs[1..], Min(start, head.0), Max(end, head.1));
      } else {
        var u := Retain(rs[1..], start, end);
        RetainDisjoint(rs[1..], start, end);
        RetainKeeps(rs[1..], start, end);
        forall k | 0 <= k < |rs[1..]| ensures !Overlap(head, rs[1..][k]) {
          assert rs[1..][k] == rs[k + 1];
        }
        RetainApart(rs[1..], start, end, head);
        forall i, j | 0 <= i < j < |t.kept| ensures !Overlap(t.kept[i], t.kept[j]) {
          if i == 0 {
            assert u.kept[j - 1] in rs[1..];
          } else {
            assert t.kept[i] == u.kept[i - 1] && t.kept[j] == u.kept[j - 1];
          }
        }
      }
    }
  }

  /** Adding a range: an empty range changes nothing; otherwise the result holds exactly the old
      positions and the new ones, drops only ranges that overlap the appended range, and keeps
      stored ranges apart when they were. */
  lemma AddedCorrect(rs: seq<Range>, start: int, end: int)
    ensures start > end ==> Added(rs, start, end) == rs
    ensures start <= end ==> forall x :: CoveredBy(Added(rs, start, end), x) <==> CoveredBy(rs, x) || start <= x <= end
    ensures start <= end ==> var a := Added(rs, start, end);
      forall k :: 0 <= k < |rs| && rs[k] !in a[..|a| - 1] ==> Overlap(rs[k], a[|a| - 1])
    ensures Disjoint(rs) ==> Disjoint(Added(rs, start, end))
  {
    if start <= end {
      var t := Retain(rs, start, end);
      var a := Added(rs, start, end);
      assert a[..|a| - 1] == t.kept;
      forall x ensures CoveredBy(a, x) <==> CoveredBy(rs, x) || start <= x <= end {
        RetainCovers(rs, start, end, x);
        CoveredSnoc(t.kept, (t.start, t.end), x);
      }
      RetainDrops(rs, start, end);
      if Disjoint(rs) {
        RetainDisjoint(rs, start, end);
      }
    }
  }

  lemma CoveredSnoc(rs: seq<Range>, r: Range, x: int)
    ensures CoveredBy(rs + [r], x) <==> CoveredBy(rs, x) || Holds(r, x)
  {
    if CoveredBy(rs + [r], x) {
      var k :| 0 <= k < |rs| + 1 && Holds((rs + [r])[k], x);
      if k < |rs| {
        assert (rs + [r])[k] == rs[k];
      }
    }
    if CoveredBy(rs, x) {
      var k :| 0 <= k < |rs| && Holds(rs[k], x);
      assert (rs + [r])[k] == rs[k];
    }
    assert (rs + [r])[|rs|] == r;
  }

  // ---------------------------------------------------------------------------------------
  // The operation

  /** The ranges seen so far on one row. */
  class RowCoverage {
    var ranges: seq<Range>

    constructor ()
      ensures ranges == []
    {
      ranges := [];
    }

    /** Adds the range `start ..= end` in the source's way: one `retain` pass that drops and
        absorbs overlapping ranges, then a push. */
    method AddRange(start: int, end: int)
      modifies this
      ensures ranges == Added(old(ranges), start, end)
    {
      if start > end {
        return;
      }
      var kept: seq<Range> := [];
      var lo, hi := start, end;
      assert ranges[0..] == ranges;
      for i := 0 to |ranges|
        invariant var t := Retain(ranges[i..], lo, hi);
          Retain(ranges, start, end) == Retained(kept + t.kept, t.start, t.end)
      {
        var (otherStart, otherEnd) := ranges[i];
        assert ranges[i..][1..] == ranges[i + 1..];
        if Max(lo, otherStart) <= Min(hi, otherEnd) {
          lo := Min(lo, otherStart);
          hi := Max(hi, otherEnd);
        } else {
          var t := Retain(ranges[i + 1..], lo, hi);
          assert kept + ([ranges[i]] + t.kept) == (kept + [ranges[i]]) + t.kept;
          kept := kept + [ranges[i]];
        }
      }
      assert ranges[|ranges|..] == [];
      ranges := kept + [(lo, hi)];
    }
  }
}
