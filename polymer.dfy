/** Polymer reduction: adjacent units of the same type and opposite polarity (the same letter in
    different case) annihilate each other. */
module Polymer {

  predicate IsAsciiAlphabetic(c: char)
  {
    ('a' <= c <= 'z') || ('A' <= c <= 'Z')
  }

  function AsciiLower(c: char): char
  {
    if 'A' <= c <= 'Z' then (c as int + 32) as char else c
  }

  /** Two units react when they differ but are equal ignoring ASCII case. */
  predicate UnitsReact(a: char, b: char)
  {
    a != b && AsciiLower(a) == AsciiLower(b)
  }

  /** Reaction is symmetric, and a letter reacts exactly with its other-case twin. */
  lemma UnitsReactSymmetric(a: char, b: char)
    ensures UnitsReact(a, b) <==> UnitsReact(b, a)
    ensures IsAsciiAlphabetic(a) && 'a' <= a <= 'z' ==> (UnitsReact(a, b) <==> b == (a as int - 32) as char)
  {
  }

  /** One step of the reaction: the next unit either annihilates the last kept unit or is kept. */
  function Push(acc: seq<char>, c: char): seq<char>
  {
    if acc != [] && UnitsReact(c, acc[|acc| - 1]) then acc[..|acc| - 1] else acc + [c]
  }

  /** The units left after feeding `s` through the reaction from left to right. */
  function React(s: seq<char>): (r: seq<char>)
    ensures |r| <= |s|
  {
    if s == [] then [] else Push(React(s[..|s| - 1]), s[|s| - 1])
  }

  /** No two neighbouring units react. */
  predicate Stable(r: seq<char>)
  {
    forall i :: 0 <= i < |r| - 1 ==> !UnitsReact(r[i], r[i + 1])
  }

  /** The source's loop: a result vector pushed and popped per unit; every unit must be a letter. */
  method ReactPolymer(polymer: seq<char>) returns (result: seq<char>)
    requires forall i :: 0 <= i < |polymer| ==> IsAsciiAlphabetic(polymer[i])
    ensures result == React(polymer)
    ensures Stable(result)
  {
    result := [];
    var i := 0;
    while i < |polymer|
      invariant 0 <= i <= |polymer|
      invariant result == React(polymer[..i])
    {
      var c := polymer[i];
      if result != [] && UnitsReact(c, result[|result| - 1]) {
        result := result[..|result| - 1];
      } else {
        result := result + [c];
      }
      assert polymer[..i + 1][..i] == polymer[..i];
      i := i + 1;
    }
    assert polymer[..i] == polymer;
    ReactStable(polymer);
  }

  /** The reacted polymer has no reacting neighbours left. */
  lemma {:induction false} ReactStable(s: seq<char>)
    ensures Stable(React(s))
  {
    if s != [] {
      ReactStable(s[..|s| - 1]);
    }
  }

  /** Reaction removes units in pairs: the result is no longer than the input, and the
      lengths have the same parity. */
  lemma {:induction false} ReactLength(s: seq<char>)
    ensures |React(s)| <= |s|
    ensures |React(s)| % 2 == |s| % 2
  {
    if s != [] {
      var init, c := s[..|s| - 1], s[|s| - 1];
      ReactLength(init);
      var a := React(init);
      assert React(s) == Push(a, c);
      var n := |s| - 1;
      if a != [] && UnitsReact(c, a[|a| - 1]) {
        assert |React(s)| == |a| - 1;
        assert (|a| - 1) % 2 == (n + 1) % 2 by { assert |a| % 2 == n % 2; }
      } else {
        assert |React(s)| == |a| + 1;
        assert (|a| + 1) % 2 == (n + 1) % 2 by { assert |a| % 2 == n % 2; }
      }
    }
  }

  /** A stable polymer does not react any further. */
  lemma {:induction false} ReactOfStable(r: seq<char>)
    requires Stable(r)
    ensures React(r) == r
  {
    if r != [] {
      var init := r[..|r| - 1];
      assert Stable(init) by {
        forall i | 0 <= i < |init| - 1 ensures !UnitsReact(init[i], init[i + 1]) {
          assert init[i] == r[i] && init[i + 1] == r[i + 1];
        }
      }
      ReactOfStable(init);
      if init != [] {
        UnitsReactSymmetric(r[|r| - 1], init[|init| - 1]);
        assert !UnitsReact(r[|r| - 2], r[|r| - 1]);
      }
      assert init + [r[|r| - 1]] == r;
    }
  }

  /** Reacting twice is the same as reacting once. */
  lemma ReactIdempotent(s: seq<char>)
    ensures React(React(s)) == React(s)
  {
    ReactStable(s);
    ReactOfStable(React(s));
  }
}
