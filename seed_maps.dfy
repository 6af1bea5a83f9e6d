// The almanac's maps: half-open intervals of numbers, each shifted by an offset, tiled with gap
// entries of offset zero from 0 to the largest 64-bit signed integer; a map sends an interval of
// seeds to the shifted parts it overlaps.

module SeedMaps {

  /** The numbers `lo <= x < hi`. */
  datatype Interval = Interval(lo: int, hi: int)

  /** The largest 64-bit signed integer, where the last gap entry ends. */
  const I64Max: int := 0x7fff_ffff_ffff_ffff

  predicate Contains(i: Interval, x: int)
  {
    i.lo <= x < i.hi
  }

  // ---------------------------------------------------------------------------------------
  // Intervals

  /** The interval moved by `s`. */
  function Add(i: Interval, s: int): (r: Interval)
    ensures r.hi - r.lo == i.hi - i.lo
    ensures forall x :: Contains(r, x) <==> Contains(i, x - s)
  {
    Interval(i.lo + s, i.hi + s)
  }

  /** The numbers in both intervals: the larger start and the smaller end. */
  function Intersect(a: Interval, b: Interval): (r: Interval)
    ensures forall x :: Contains(r, x) <==> Contains(a, x) && Contains(b, x)
  {
    Interval(if a.lo >= b.lo then a.lo else b.lo, if a.hi <= b.hi then a.hi else b.hi)
  }

  predicate IsEmpty(i: Interval)
  {
    i.lo >= i.hi
  }

  /** An interval is empty exactly when it holds no number. */
  lemma IsEmptyHoldsNothing(i: Interval)
    ensures IsEmpty(i) <==> forall x :: !Contains(i, x)
  {
    if !IsEmpty(i) {
      assert Contains(i, i.lo);
    }
  }

  // ---------------------------------------------------------------------------------------
  // Building a map

  /** An entry: the source numbers and the offset added to them. */
  type Entry = (Interval, int)

  /** A line `d s l`: the `l` numbers from `s` go to those from `d`. */
  function RawEntry(line: (int, int, int)): (r: Entry)
    ensures r.0 == Interval(line.1, line.1 + line.2)
    ensures forall x :: Contains(r.0, x) ==> x + r.1 == line.0 + (x - line.1)
  {
    (Interval(line.1, line.1 + line.2), line.0 - line.1)
  }

  predicate SortedByStart(es: seq<Entry>)
  {
    forall i, j :: 0 <= i < j < |es| ==> es[i].0.lo <= es[j].0.lo
  }

  function InsertByStart(e: Entry, es: seq<Entry>): (r: seq<Entry>)
    requires SortedByStart(es)
    ensures |r| == |es| + 1 && SortedByStart(r) && multiset(r) == multiset(es) + multiset{e}
  {
    if es == [] || e.0.lo <= es[0].0.lo then
      InsertFront(e, es);
      [e] + es
    else
      SortedTail(es);
      var rest := InsertByStart(e, es[1..]);
      InsertBehind(e, es, rest);
      [es[0]] + rest
  }

  /** An entry starting no later than the first of sorted entries goes in front of them. */
  lemma InsertFront(e: Entry, es: seq<Entry>)
    requires SortedByStart(es) && (es == [] || e.0.lo <= es[0].0.lo)
    ensures SortedByStart([e] + es) && multiset([e] + es) == multiset(es) + multiset{e}
  {
    forall k | 0 <= k < |es| ensures e.0.lo <= es[k].0.lo {
      assert es[0].0.lo <= es[k].0.lo || k == 0;
    }
    SortedCons(e, es);
  }

  /** The entries after the first of sorted entries are sorted. */
  lemma SortedTail(es: seq<Entry>)
    requires SortedByStart(es) && es != []
    ensures SortedByStart(es[1..])
  {
    forall i, j | 0 <= i < j < |es| - 1 ensures es[1..][i].0.lo <= es[1..][j].0.lo {
      assert es[1..][i] == es[i + 1] && es[1..][j] == es[j + 1];
    }
  }

  /** An entry starting after the first of sorted entries, inserted among the others, goes
      behind the first. */
  lemma InsertBehind(e: Entry, es: seq<Entry>, rest: seq<Entry>)
    requires SortedByStart(es) && es != [] && es[0].0.lo < e.0.lo
    requires SortedByStart(rest) && multiset(rest) == multiset(es[1..]) + multiset{e}
    ensures SortedByStart([es[0]] + rest) && multiset([es[0]] + rest) == multiset(es) + multiset{e}
  {
    assert es == [es[0]] + es[1..];
    forall k | 0 <= k < |es[1..]| ensures es[0].0.lo <= es[1..][k].0.lo {
      assert es[1..][k] == es[k + 1];
    }
    BoundedPerm(es[0].0.lo, e, es[1..], rest);
    SortedCons(es[0], rest);
  }

  /** Every entry of `s` starts at `b` or later. */
  predicate StartsFrom(b: int, s: seq<Entry>)
  {
    forall k :: 0 <= k < |s| ==> b <= s[k].0.lo
  }

  /** A lower bound on the starts survives adding an entry that respects it and reordering. */
  lemma BoundedPerm(b: int, e: Entry, s: seq<Entry>, r: seq<Entry>)
    requires b <= e.0.lo && StartsFrom(b, s) && multiset(r) == multiset(s) + multiset{e}
    ensures StartsFrom(b, r)
  {
    forall k | 0 <= k < |r| ensures b <= r[k].0.lo {
      assert r[k] in multiset(s) + multiset{e};
      if r[k] != e {
        assert r[k] in s;
      }
    }
  }

  /** Putting an entry in front of sorted entries that start no earlier keeps them sorted. */
  lemma SortedCons(x: Entry, s: seq<Entry>)
    requires SortedByStart(s) && StartsFrom(x.0.lo, s)
    ensures SortedByStart([x] + s)
  {
    var r := [x] + s;
    forall i, j | 0 <= i < j < |r| ensures r[i].0.lo <= r[j].0.lo {
      if i > 0 {
        assert r[i] == s[i - 1] && r[j] == s[j - 1];
      } else {
        assert r[j] == s[j - 1];
      }
    }
  }

  /** The library's sort by start, as an insertion sort; the source's sort is unstable, so
      entries with equal starts may come in another order there. */
  function SortByStart(es: seq<Entry>): (r: seq<Entry>)
    ensures |r| == |es| && SortedByStart(r) && multiset(r) == multiset(es)
  {
    if es == [] then []
    else
      assert es == es[..|es| - 1] + [es[|es| - 1]];
      InsertByStart(es[|es| - 1], SortByStart(es[..|es| - 1]))
  }

  /** The entries built from sorted entries, read from position `pos` on: a gap entry of offset
      zero before an entry that starts later, the entry itself, and after the last one a gap
      entry up to `I64Max`. */
  function Tiling(pos: int, es: seq<Entry>): (t: seq<Entry>)
    ensures |es| + 1 <= |t| <= 2 * |es| + 1
    decreases es
  {
    if es == [] then [(Interval(pos, I64Max), 0)]
    else
      var r := es[0].0;
      (if pos < r.lo then [(Interval(pos, r.lo), 0)] else []) + [es[0]] + Tiling(r.hi, es[1..])
  }

  /** What the source requires of the entries for the tiling to work: each starts no earlier
      than `pos` and the previous one's end, ends no earlier than it starts, and no later than
      `I64Max`. */
  predicate Apart(pos: int, es: seq<Entry>)
  {
    (forall k :: 0 <= k < |es| ==> es[k].0.lo <= es[k].0.hi <= I64Max) &&
    (|es| > 0 ==> pos <= es[0].0.lo) &&
    (forall k :: 0 < k < |es| ==> es[k - 1].0.hi <= es[k].0.lo)
  }

  /** Entries that cover `from .. to` one after the other, each ending no earlier than it
      starts. */
  predicate Tiled(es: seq<Entry>, from: int, to: int)
  {
    |es| > 0 && es[0].0.lo == from && es[|es| - 1].0.hi == to &&
    (forall k :: 0 <= k < |es| ==> es[k].0.lo <= es[k].0.hi) &&
    (forall k :: 0 < k < |es| ==> es[k - 1].0.hi == es[k].0.lo)
  }

  /** A tiling of apart entries from `pos` runs from `pos` to `I64Max` without holes or overlaps,
      keeps every entry, and adds only gap entries of offset zero. */
  lemma {:induction false} TilingTiles(pos: int, es: seq<Entry>)
    requires pos <= I64Max && Apart(pos, es)
    ensures Tiled(Tiling(pos, es), pos, I64Max)
    ensures forall e :: e in es ==> e in Tiling(pos, es)
    ensures forall e :: e in Tiling(pos, es) ==> e in es || e.1 == 0
  {
    TilingIsTiled(pos, es);
    TilingKeeps(pos, es);
  }

  /** The tiling from `pos` covers `pos .. I64Max` without holes or overlaps. */
  ghost predicate TilesFrom(pos: int, es: seq<Entry>)
  {
    Tiled(Tiling(pos, es), pos, I64Max)
  }

  lemma {:induction false} TilingIsTiled(pos: int, es: seq<Entry>)
    requires pos <= I64Max && Apart(pos, es)
    ensures TilesFrom(pos, es)
    decreases es
  {
    if es == [] {
      assert Tiling(pos, es) == [(Interval(pos, I64Max), 0)];
    } else {
      TilingTiledStep(pos, es);
      TilingIsTiled(es[0].0.hi, es[1..]);
    }
  }

  /** A tiling that starts after the first entry extends to one from `pos`. */
  lemma TilingTiledStep(pos: int, es: seq<Entry>)
    requires pos <= I64Max && Apart(pos, es) && es != []
    ensures es[0].0.hi <= I64Max && Apart(es[0].0.hi, es[1..])
    ensures TilesFrom(es[0].0.hi, es[1..]) ==> TilesFrom(pos, es)
  {
    var e := es[0];
    assert Apart(e.0.hi, es[1..]);
    var t := Tiling(e.0.hi, es[1..]);
    if TilesFrom(e.0.hi, es[1..]) {
      TiledCons(e, t, I64Max);
      if pos < e.0.lo {
        var g := (Interval(pos, e.0.lo), 0);
        assert Tiling(pos, es) == [g] + ([e] + t);
        TiledCons(g, [e] + t, I64Max);
      } else {
        assert Tiling(pos, es) == [e] + t;
      }
    }
  }

  /** An entry ending where a tiling starts extends it. */
  lemma TiledCons(e: Entry, rest: seq<Entry>, to: int)
    requires e.0.lo <= e.0.hi && Tiled(rest, e.0.hi, to)
    ensures Tiled([e] + rest, e.0.lo, to)
  {
    var es := [e] + rest;
    forall k | 0 < k < |es| ensures es[k - 1].0.hi == es[k].0.lo {
      if k > 1 {
        assert es[k - 1] == rest[k - 2] && es[k] == rest[k - 1];
      }
    }
  }

  /** The tiling keeps every entry and adds only gap entries of offset zero. */
  lemma {:induction false} TilingKeeps(pos: int, es: seq<Entry>)
    ensures forall e :: e in es ==> e in Tiling(pos, es)
    ensures forall e :: e in Tiling(pos, es) ==> e in es || e.1 == 0
    decreases es
  {
    if es != [] {
      var e := es[0];
      TilingKeeps(e.0.hi, es[1..]);
      assert es == [e] + es[1..];
    }
  }

  function RawEntries(lines: seq<(int, int, int)>): (r: seq<Entry>)
    ensures |r| == |lines| && forall k :: 0 <= k < |lines| ==> r[k] == RawEntry(lines[k])
  {
    seq(|lines|, k requires 0 <= k < |lines| => RawEntry(lines[k]))
  }

  /** One step of the tiling: the gap before the next entry, the entry, and the rest. */
  lemma TilingStep(pos: int, es: seq<Entry>, i: nat)
    requires i < |es|
    ensures Tiling(pos, es[i..]) ==
      (if pos < es[i].0.lo then [(Interval(pos, es[i].0.lo), 0)] else []) + [es[i]] + Tiling(es[i].0.hi, es[i + 1..])
  {
    assert es[i..][1..] == es[i + 1..];
  }

  /** `Map::parse` from the lines of numbers of one map: the raw entries sorted by start, then a
      pass with a position that synthesises the gap entries. */
  method ParseMap(lines: seq<(int, int, int)>) returns (entries: seq<Entry>)
    ensures entries == Tiling(0, SortByStart(RawEntries(lines)))
  {
    var raw := SortByStart(RawEntries(lines));
    var pos := 0;
    entries := [];
    assert raw[0..] == raw;
    for i := 0 to |raw|
      invariant entries + Tiling(pos, raw[i..]) == Tiling(0, raw)
    {
      entries, pos := EmitEntry(entries, pos, raw, i);
    }
    assert raw[|raw|..] == [];
    entries := entries + [(Interval(pos, I64Max), 0)];
  }

  /** The body of the pass over the sorted entries: the gap before entry `i`, if any, then the
      entry itself, leaving the position at its end. */
  method EmitEntry(entries: seq<Entry>, pos: int, raw: seq<Entry>, i: nat) returns (entries': seq<Entry>, pos': int)
    requires i < |raw|
    ensures entries' + Tiling(pos', raw[i + 1..]) == entries + Tiling(pos, raw[i..])
  {
    var (r, off) := raw[i];
    TilingStep(pos, raw, i);
    entries' := entries;
    if pos < r.lo {
      entries' := entries' + [(Interval(pos, r.lo), 0)];
    }
    entries' := entries' + [(r, off)];
    pos' := r.hi;
  }

  /** For lines whose source ranges lie apart from each other inside `0 .. I64Max`, the parsed map
      tiles `0 .. I64Max`, holds every line's entry and adds only gap entries of offset zero. */
  lemma ParsedMapTiles(lines: seq<(int, int, int)>)
    requires var raw := SortByStart(RawEntries(lines));
      Apart(0, raw)
    ensures var raw := RawEntries(lines);
      var m := Tiling(0, SortByStart(raw));
      Tiled(m, 0, I64Max) && (forall e :: e in raw ==> e in m) && (forall e :: e in m ==> e in raw || e.1 == 0)
  {
    var raw := RawEntries(lines);
    var sorted := SortByStart(raw);
    TilingTiles(0, sorted);
    forall e | e in raw ensures e in sorted {
      assert e in multiset(sorted);
    }
    forall e | e in sorted ensures e in raw {
      assert e in multiset(raw);
    }
  }

  // ---------------------------------------------------------------------------------------
  // Looking numbers up

  /** The map sends `x` to `y` through some entry. */
  predicate MapsTo(es: seq<Entry>, x: int, y: int)
  {
    exists k :: 0 <= k < |es| && Contains(es[k].0, x) && y == x + es[k].1
  }

  /** Tiled entries hold every number of their span in exactly one entry, so that a tiled map
      sends every such number to exactly one place. */
  lemma {:induction false} TiledFind(es: seq<Entry>, from: int, to: int, x: int) returns (k: nat)
    requires Tiled(es, from, to) && from <= x < to
    ensures k < |es| && Contains(es[k].0, x)
    ensures forall j :: 0 <= j < |es| && Contains(es[j].0, x) ==> j == k
  {
    k := 0;
    while !Contains(es[k].0, x)
      invariant k < |es| && es[k].0.lo <= x
      decreases |es| - k
    {
      k := k + 1;
    }
    forall j | 0 <= j < |es| && Contains(es[j].0, x) ensures j == k {
      if j < k {
        TiledGap(es, from, to, j, k);
      } else if k < j {
        TiledGap(es, from, to, k, j);
      }
    }
  }

  lemma {:induction false} TiledGap(es: seq<Entry>, from: int, to: int, i: nat, j: nat)
    requires Tiled(es, from, to) && i < j < |es|
    ensures es[i].0.hi <= es[j].0.lo
    decreases j - i
  {
    if j > i + 1 {
      TiledGap(es, from, to, i, j - 1);
    }
  }

  lemma MapsToUnique(es: seq<Entry>, from: int, to: int, x: int, y: int, z: int)
    requires Tiled(es, from, to) && from <= x < to && MapsTo(es, x, y) && MapsTo(es, x, z)
    ensures y == z
  {
    var k := TiledFind(es, from, to, x);
  }

  // ---------------------------------------------------------------------------------------
  // Applying a map to an interval of seeds

  /** Each entry's part of the seeds, shifted by its offset, leaving out the empty ones. */
  function ApplyRange(es: seq<Entry>, seeds: Interval): (r: seq<Interval>)
    ensures forall i :: 0 <= i < |r| ==> !IsEmpty(r[i])
  {
    if es == [] then []
    else
      var here := Add(Intersect(es[0].0, seeds), es[0].1);
      if IsEmpty(here) then ApplyRange(es[1..], seeds) else [here] + ApplyRange(es[1..], seeds)
  }

  /** `o` is one entry's part of the seeds, shifted by its offset. */
  predicate PartOf(es: seq<Entry>, seeds: Interval, o: Interval)
  {
    exists k :: 0 <= k < |es| && o == Add(Intersect(es[k].0, seeds), es[k].1)
  }

  /** Each interval of the image is one entry's part of the seeds, shifted by its offset. */
  lemma {:induction false} ApplyRangeParts(es: seq<Entry>, seeds: Interval)
    ensures forall o :: o in ApplyRange(es, seeds) ==> PartOf(es, seeds, o)
  {
    if es != [] {
      var rest := ApplyRange(es[1..], seeds);
      var here := Add(Intersect(es[0].0, seeds), es[0].1);
      ApplyRangeParts(es[1..], seeds);
      forall o | o in rest ensures PartOf(es, seeds, o) {
        var k :| 0 <= k < |es[1..]| && o == Add(Intersect(es[1..][k].0, seeds), es[1..][k].1);
        assert es[1..][k] == es[k + 1];
      }
      assert PartOf(es, seeds, here);
    }
  }

  /** Whether some interval of `rs` holds `y`. */
  predicate CoveredBy(rs: seq<Interval>, y: int)
  {
    exists i :: 0 <= i < |rs| && Contains(rs[i], y)
  }

  /** The intervals the seeds go to hold exactly the numbers that some seed maps to. */
  lemma {:induction false} ApplyRangeImage(es: seq<Entry>, seeds: Interval, y: int)
    ensures CoveredBy(ApplyRange(es, seeds), y) <==> exists x :: Contains(seeds, x) && MapsTo(es, x, y)
  {
    if es != [] {
      ApplyRangeImage(es[1..], seeds, y);
      ApplyCovered(es, seeds, y);
      var off := es[0].1;
      if CoveredBy(ApplyRange(es, seeds), y) {
        if Contains(Add(Intersect(es[0].0, seeds), off), y) {
          MapsToCons(es, y - off, y);
        } else {
          var x :| Contains(seeds, x) && MapsTo(es[1..], x, y);
          MapsToCons(es, x, y);
        }
      }
      if exists x :: Contains(seeds, x) && MapsTo(es, x, y) {
        var x :| Contains(seeds, x) && MapsTo(es, x, y);
        MapsToCons(es, x, y);
      }
    }
  }

  lemma ApplyCovered(es: seq<Entry>, seeds: Interval, y: int)
    requires es != []
    ensures CoveredBy(ApplyRange(es, seeds), y) <==>
      Contains(Add(Intersect(es[0].0, seeds), es[0].1), y) || CoveredBy(ApplyRange(es[1..], seeds), y)
  {
    var here := Add(Intersect(es[0].0, seeds), es[0].1);
    if !IsEmpty(here) {
      CoveredCons(here, ApplyRange(es[1..], seeds), y);
    }
  }

  lemma CoveredCons(h: Interval, rs: seq<Interval>, y: int)
    ensures CoveredBy([h] + rs, y) <==> Contains(h, y) || CoveredBy(rs, y)
  {
    var r := [h] + rs;
    if CoveredBy(r, y) && !Contains(h, y) {
      var i :| 0 <= i < |r| && Contains(r[i], y);
      assert rs[i - 1] == r[i];
    }
    if CoveredBy(rs, y) {
      var i :| 0 <= i < |rs| && Contains(rs[i], y);
      assert r[i + 1] == rs[i];
    }
    assert r[0] == h;
  }

  lemma MapsToCons(es: seq<Entry>, x: int, y: int)
    requires es != []
    ensures MapsTo(es, x, y) <==> (Contains(es[0].0, x) && y == x + es[0].1) || MapsTo(es[1..], x, y)
  {
    if MapsTo(es, x, y) && !(Contains(es[0].0, x) && y == x + es[0].1) {
      var k :| 0 <= k < |es| && Contains(es[k].0, x) && y == x + es[k].1;
      assert es[1..][k - 1] == es[k];
    }
    if MapsTo(es[1..], x, y) {
      var k :| 0 <= k < |es[1..]| && Contains(es[1..][k].0, x) && y == x + es[1..][k].1;
      assert es[k + 1] == es[1..][k];
    }
  }

  /** The first star's lookup of one seed: on a tiled map a single number goes to a single
      number, the first interval of the image. */
  lemma ApplyPoint(es: seq<Entry>, p: int)
    requires Tiled(es, 0, I64Max) && 0 <= p < I64Max
    ensures var r := ApplyRange(es, Interval(p, p + 1));
      |r| == 1 && r[0].hi == r[0].lo + 1 && MapsTo(es, p, r[0].lo)
  {
    var seeds := Interval(p, p + 1);
    var k := TiledFind(es, 0, I64Max, p);
    ApplyPointOnly(es, seeds, k);
    var r := ApplyRange(es, seeds);
    assert MapsTo(es, p, p + es[k].1);
  }

  lemma {:induction false} ApplyPointOnly(es: seq<Entry>, seeds: Interval, k: nat)
    requires seeds.hi == seeds.lo + 1 && k < |es| && Contains(es[k].0, seeds.lo)
    requires forall j :: 0 <= j < |es| && Contains(es[j].0, seeds.lo) ==> j == k
    ensures ApplyRange(es, seeds) == [Add(seeds, es[k].1)]
    decreases |es|
  {
    var here := Add(Intersect(es[0].0, seeds), es[0].1);
    if k == 0 {
      assert here == Add(seeds, es[0].1);
      ApplyPointNone(es[1..], seeds);
    } else {
      assert !Contains(es[0].0, seeds.lo);
      assert IsEmpty(here);
      forall j | 0 <= j < |es[1..]| && Contains(es[1..][j].0, seeds.lo) ensures j == k - 1 {
        assert es[1..][j] == es[j + 1];
      }
      ApplyPointOnly(es[1..], seeds, k - 1);
    }
  }

  lemma {:induction false} ApplyPointNone(es: seq<Entry>, seeds: Interval)
    requires seeds.hi == seeds.lo + 1 && forall j :: 0 <= j < |es| ==> !Contains(es[j].0, seeds.lo)
    ensures ApplyRange(es, seeds) == []
  {
    if es != [] {
      assert IsEmpty(Add(Intersect(es[0].0, seeds), es[0].1));
      ApplyPointNone(es[1..], seeds);
    }
  }

  /** Applying a map to several intervals of seeds, one after the other. */
  function ApplyRanges(es: seq<Entry>, seeds: seq<Interval>): (r: seq<Interval>)
    ensures forall i :: 0 <= i < |r| ==> !IsEmpty(r[i])
  {
    if seeds == [] then [] else ApplyRange(es, seeds[0]) + ApplyRanges(es, seeds[1..])
  }

  lemma CoveredAppend(a: seq<Interval>, b: seq<Interval>, y: int)
    ensures CoveredBy(a + b, y) <==> CoveredBy(a, y) || CoveredBy(b, y)
  {
    var r := a + b;
    if CoveredBy(r, y) {
      var i :| 0 <= i < |r| && Contains(r[i], y);
      if i < |a| {
        assert a[i] == r[i];
      } else {
        assert b[i - |a|] == r[i];
      }
    }
    if CoveredBy(a, y) {
      var i :| 0 <= i < |a| && Contains(a[i], y);
      assert r[i] == a[i];
    }
    if CoveredBy(b, y) {
      var i :| 0 <= i < |b| && Contains(b[i], y);
      assert r[|a| + i] == b[i];
    }
  }

  /** The image of several intervals holds exactly the numbers that some seed of some interval
      maps to. */
  lemma {:induction false} ApplyRangesImage(es: seq<Entry>, seeds: seq<Interval>, y: int)
    ensures CoveredBy(ApplyRanges(es, seeds), y) <==> exists x :: CoveredBy(seeds, x) && MapsTo(es, x, y)
  {
    if seeds != [] {
      assert seeds == [seeds[0]] + seeds[1..];
      CoveredAppend(ApplyRange(es, seeds[0]), ApplyRanges(es, seeds[1..]), y);
      ApplyRangeImage(es, seeds[0], y);
      ApplyRangesImage(es, seeds[1..], y);
      if CoveredBy(ApplyRanges(es, seeds), y) {
        if CoveredBy(ApplyRange(es, seeds[0]), y) {
          var x :| Contains(seeds[0], x) && MapsTo(es, x, y);
          CoveredCons(seeds[0], seeds[1..], x);
        } else {
          var x :| CoveredBy(seeds[1..], x) && MapsTo(es, x, y);
          CoveredCons(seeds[0], seeds[1..], x);
        }
      }
      if exists x :: CoveredBy(seeds, x) && MapsTo(es, x, y) {
        var x :| CoveredBy(seeds, x) && MapsTo(es, x, y);
        CoveredCons(seeds[0], seeds[1..], x);
      }
    }
  }

  // ---------------------------------------------------------------------------------------
  // Following a seed through all the maps

  datatype Option<T> = None | Some(value: T)

  /** The maps, in order, send `x` to `y`. */
  ghost predicate Through(maps: seq<seq<Entry>>, x: int, y: int)
    decreases |maps|
  {
    if maps == [] then x == y else exists z :: MapsTo(maps[0], x, z) && Through(maps[1..], z, y)
  }

  /** The second star's fold: the intervals of seeds pushed through every map. */
  function Locations(maps: seq<seq<Entry>>, seeds: seq<Interval>): seq<Interval>
    decreases |maps|
  {
    if maps == [] then seeds else Locations(maps[1..], ApplyRanges(maps[0], seeds))
  }

  /** The intervals the fold ends with hold exactly the numbers some seed is sent to. */
  lemma {:induction false} LocationsImage(maps: seq<seq<Entry>>, seeds: seq<Interval>, y: int)
    ensures CoveredBy(Locations(maps, seeds), y) <==> exists x :: CoveredBy(seeds, x) && Through(maps, x, y)
    decreases |maps|
  {
    if maps != [] {
      var next := ApplyRanges(maps[0], seeds);
      LocationsImage(maps[1..], next, y);
      if CoveredBy(Locations(maps, seeds), y) {
        var z :| CoveredBy(next, z) && Through(maps[1..], z, y);
        ApplyRangesImage(maps[0], seeds, z);
        var x :| CoveredBy(seeds, x) && MapsTo(maps[0], x, z);
        assert Through(maps, x, y);
      }
      if exists x :: CoveredBy(seeds, x) && Through(maps, x, y) {
        var x :| CoveredBy(seeds, x) && Through(maps, x, y);
        var z :| MapsTo(maps[0], x, z) && Through(maps[1..], z, y);
        ApplyRangesImage(maps[0], seeds, z);
      }
    }
  }

  /** The first star's fold for one seed: the first interval each map sends the current number
      to gives the next number; `None` where a map sends it nowhere, which the source does not
      expect. */
  function Location(maps: seq<seq<Entry>>, p: int): (loc: Option<int>)
    ensures loc.Some? ==> Through(maps, p, loc.value)
    decreases |maps|
  {
    if maps == [] then Some(p)
    else
      var r := ApplyRange(maps[0], Interval(p, p + 1));
      if r == [] then None
      else
        ApplyRangeImage(maps[0], Interval(p, p + 1), r[0].lo);
        assert Contains(r[0], r[0].lo);
        Location(maps[1..], r[0].lo)
  }

  predicate AllTiled(maps: seq<seq<Entry>>)
  {
    forall k :: 0 <= k < |maps| ==> Tiled(maps[k], 0, I64Max)
  }

  /** The first star's lookup follows the maps: the location it finds is where the maps send the
      seed, and lies in the second star's fold of the seed alone. */
  lemma {:induction false} LocationThrough(maps: seq<seq<Entry>>, p: int)
    ensures Location(maps, p).Some? ==> Through(maps, p, Location(maps, p).value)
    ensures Location(maps, p).Some? ==> CoveredBy(Locations(maps, [Interval(p, p + 1)]), Location(maps, p).value)
    decreases |maps|
  {
    if maps != [] {
      var r := ApplyRange(maps[0], Interval(p, p + 1));
      if r != [] {
        LocationThrough(maps[1..], r[0].lo);
        ApplyRangeImage(maps[0], Interval(p, p + 1), r[0].lo);
        assert Contains(r[0], r[0].lo);
      }
    }
    if Location(maps, p).Some? {
      var seed := [Interval(p, p + 1)];
      assert Contains(seed[0], p);
      assert CoveredBy(seed, p);
      LocationsImage(maps, seed, Location(maps, p).value);
    }
  }

  /** Through tiled maps the lookup finds every location the maps send the seed to, which is
      then the only one. */
  lemma {:induction false} ThroughLocation(maps: seq<seq<Entry>>, p: int, y: int)
    requires AllTiled(maps) && Through(maps, p, y)
    ensures Location(maps, p) == Some(y)
    decreases |maps|
  {
    if maps != [] {
      var z :| MapsTo(maps[0], p, z) && Through(maps[1..], z, y);
      var k :| 0 <= k < |maps[0]| && Contains(maps[0][k].0, p) && z == p + maps[0][k].1;
      assert Tiled(maps[0], 0, I64Max);
      TiledBounds(maps[0], 0, I64Max, k);
      ApplyPoint(maps[0], p);
      var r := ApplyRange(maps[0], Interval(p, p + 1));
      MapsToUnique(maps[0], 0, I64Max, p, r[0].lo, z);
      assert AllTiled(maps[1..]) by {
        forall j | 0 <= j < |maps[1..]| ensures Tiled(maps[1..][j], 0, I64Max) {
          assert maps[1..][j] == maps[j + 1];
        }
      }
      ThroughLocation(maps[1..], z, y);
    }
  }

  /** Every entry of a tiling lies inside the span it tiles. */
  lemma TiledBounds(es: seq<Entry>, from: int, to: int, k: nat)
    requires Tiled(es, from, to) && k < |es|
    ensures from <= es[k].0.lo && es[k].0.hi <= to
  {
    if 0 < k {
      TiledGap(es, from, to, 0, k);
    }
    if k < |es| - 1 {
      TiledGap(es, from, to, k, |es| - 1);
    }
  }
}
