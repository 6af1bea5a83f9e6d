/** An iterator adaptor that yields every item of an inner iterator a fixed number of times. */
module Duplicate {

  datatype Option<T> = None | Some(value: T)

  /** `n` copies of `x`. */
  function Copies<T>(x: T, n: nat): (r: seq<T>)
    ensures |r| == n
    ensures forall i :: 0 <= i < n ==> r[i] == x
  {
    if n == 0 then [] else [x] + Copies(x, n - 1)
  }

  /** Every item of `items`, in order, each repeated `d` times. */
  function Repeated<T>(items: seq<T>, d: nat): seq<T>
  {
    if items == [] then [] else Copies(items[0], d) + Repeated(items[1..], d)
  }

  /** The number of items Repeated produces. */
  lemma {:induction false} RepeatedLength<T>(items: seq<T>, d: nat)
    ensures |Repeated(items, d)| == |items| * d
  {
    if items != [] {
      RepeatedLength(items[1..], d);
    }
  }

  /** Position `i * d + j` of the repeated sequence holds copy `j` of item `i`. */
  lemma {:induction false} RepeatedIndex<T>(items: seq<T>, d: nat, i: nat, j: nat)
    requires i < |items| && j < d
    ensures |Repeated(items, d)| == |items| * d
    ensures i * d + j < |items| * d && Repeated(items, d)[i * d + j] == items[i]
  {
    RepeatedLength(items, d);
    if i > 0 {
      RepeatedIndex(items[1..], d, i - 1, j);
      assert i * d + j == d + ((i - 1) * d + j);
    }
  }

  /** Repeating once changes nothing; repeating zero times yields nothing. */
  lemma {:induction false} RepeatedOnce<T>(items: seq<T>)
    ensures Repeated(items, 1) == items
    ensures Repeated(items, 0) == []
  {
    if items != [] {
      RepeatedOnce(items[1..]);
    }
  }

  lemma MulMonotone(a: nat, b: nat, d: nat)
    requires a <= b
    ensures a * d <= b * d
  {
  }

  /** The copies owed of the item being copied. */
  function Owed<T>(current: Option<(nat, T)>): seq<T>
  {
    match current case None => [] case Some((left, value)) => Copies(value, left)
  }

  /** What an adaptor with these fields still yields: nothing for zero copies, the inner items
      for one copy, and otherwise the copies owed followed by every inner item repeated. */
  function Rest<T>(inner: seq<T>, d: nat, current: Option<(nat, T)>): seq<T>
  {
    if d == 0 then []
    else if d == 1 then inner
    else Owed(current) + Repeated(inner, d)
  }

  /** Handing out one owed copy leaves one fewer owed. */
  lemma OwedStep<T>(inner: seq<T>, d: nat, left: nat, value: T)
    requires d > 1 && left > 0
    ensures Rest(inner, d, Some((left, value)))
         == [value] + Rest(inner, d, if left > 1 then Some((left - 1, value)) else None)
  {
    var c, rest := Copies(value, left - 1), Repeated(inner, d);
    assert Copies(value, left) == [value] + c;
    assert Owed(if left > 1 then Some((left - 1, value)) else None) == c;
    SeqAssoc([value], c, rest);
  }

  /** Fetching an inner item yields it and owes `d - 1` more copies of it. */
  lemma FetchStep<T>(inner: seq<T>, d: nat)
    requires inner != [] && d > 1
    ensures Rest(inner, d, None) == [inner[0]] + Rest(inner[1..], d, Some((d - 1, inner[0])))
  {
    var x, c, rest := inner[0], Copies(inner[0], d - 1), Repeated(inner[1..], d);
    assert Repeated(inner, d) == Copies(x, d) + rest;
    assert Copies(x, d) == [x] + c;
    SeqAssoc([x], c, rest);
  }

  lemma ConsTail<T>(x: T, s: seq<T>)
    ensures [x] + s != [] && ([x] + s)[0] == x && ([x] + s)[1..] == s
  {
  }

  lemma SeqAssoc<T>(a: seq<T>, b: seq<T>, c: seq<T>)
    ensures (a + b) + c == a + (b + c)
  {
  }

  /** The adaptor's state: the inner items not yet fetched, the number of copies, and the
      item being copied with the number of copies of it still owed. */
  class DuplicateIter<T> {
    var inner: seq<T>
    var duplicates: nat
    var current: Option<(nat, T)>

    /** Copies still owed are positive and fewer than `duplicates`, and nothing is owed when
        `duplicates` is 0 or 1. */
    ghost predicate Valid()
      reads this
    {
      match current
      case None => true
      case Some((left, _)) => 0 < left < duplicates
    }

    /** The items this iterator still yields. */
    ghost function Remaining(): seq<T>
      reads this
    {
      Rest(inner, duplicates, current)
    }

    /** The adaptor over `items`, with nothing owed. */
    constructor (items: seq<T>, d: nat)
      ensures inner == items && duplicates == d && current == None
      ensures Valid()
      ensures Remaining() == Repeated(items, d)
    {
      inner, duplicates, current := items, d, None;
      RepeatedOnce(items);
    }

    /** Yields the next item: the front of Remaining. */
    method Next() returns (r: Option<T>)
      requires Valid()
      modifies this
      ensures Valid()
      ensures duplicates == old(duplicates)
      ensures old(Remaining()) == [] ==> r == None && Remaining() == []
      ensures old(Remaining()) != [] ==> r == Some(old(Remaining())[0]) && Remaining() == old(Remaining())[1..]
      ensures inner == old(inner) || (old(inner) != [] && inner == old(inner)[1..])
    {
      if duplicates == 0 {
        r := None;
      } else if duplicates == 1 {
        if inner == [] {
          r := None;
        } else {
          r := Some(inner[0]);
          inner := inner[1..];
        }
      } else {
        r := NextCopy();
      }
    }

    /** Next when every item is copied at least twice: hands out an owed copy, or fetches the
        next inner item and owes `duplicates - 1` more copies of it. */
    method NextCopy() returns (r: Option<T>)
      requires Valid() && duplicates > 1
      modifies this
      ensures Valid()
      ensures duplicates == old(duplicates)
      ensures old(Remaining()) == [] ==> r == None && Remaining() == []
      ensures old(Remaining()) != [] ==> r == Some(old(Remaining())[0]) && Remaining() == old(Remaining())[1..]
      ensures inner == old(inner) || (old(inner) != [] && inner == old(inner)[1..])
    {
      match current {
        case Some((left, value)) =>
          var next := if left > 1 then Some((left - 1, value)) else None;
          OwedStep(inner, duplicates, left, value);
          ConsTail(value, Rest(inner, duplicates, next));
          current := next;
          r := Some(value);
        case None =>
          if inner == [] {
            r := None;
          } else {
            var value := inner[0];
            FetchStep(inner, duplicates);
            ConsTail(value, Rest(inner[1..], duplicates, Some((duplicates - 1, value))));
            current := Some((duplicates - 1, value));
            inner := inner[1..];
            r := Some(value);
          }
      }
    }

    /** The copies still owed of the current item. */
    function CurrentLeft(): nat
      reads this
    {
      match current case None => 0 case Some((left, _)) => left
    }

    /** The number of items left, computed as the source does from the inner count. */
    function Count(): (n: nat)
      requires Valid()
      reads this
      ensures n == |Remaining()|
    {
      RepeatedLength(inner, duplicates);
      |inner| * duplicates + CurrentLeft()
    }

    /** Bounds on the number of items left, from bounds `lo` and `hi` on the inner iterator. */
    function SizeHint(lo: nat, hi: Option<nat>): (r: (nat, Option<nat>))
      requires Valid()
      requires lo <= |inner| && (hi.Some? ==> |inner| <= hi.value)
      reads this
      ensures r.0 <= |Remaining()|
      ensures r.1.Some? <==> hi.Some?
      ensures r.1.Some? ==> |Remaining()| <= r.1.value
    {
      RepeatedLength(inner, duplicates);
      MulMonotone(lo, |inner|, duplicates);
      MulMonotone(|inner|, match hi case None => |inner| case Some(h) => h, duplicates);
      (lo * duplicates + CurrentLeft(),
       match hi case None => None case Some(h) => Some(h * duplicates + CurrentLeft()))
    }
  }
}
