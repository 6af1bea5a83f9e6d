// A disjoint-set forest over the items 0 .. n-1, with path compression and a count of the unions
// still needed to join everything into one set.

module UnionFind {

  // ---------------------------------------------------------------------------------------
  // The forest, as values

  /** Parent pointers that stay on the items and lead upwards: a ghost rank below `bound` grows
      strictly from every item to its parent, so every chain of parents ends at a root. */
  predicate Forest(parents: seq<nat>, rank: seq<nat>, bound: nat)
  {
    |rank| == |parents| &&
    forall i :: 0 <= i < |parents| ==>
      parents[i] < |parents| && rank[i] < bound && (parents[i] != i ==> rank[i] < rank[parents[i]])
  }

  /** The root of the tree holding `i`: the end of its chain of parents. */
  function Root(parents: seq<nat>, rank: seq<nat>, bound: nat, i: nat): (r: nat)
    requires Forest(parents, rank, bound) && i < |parents|
    ensures r < |parents| && parents[r] == r
    decreases bound - rank[i]
  {
    if parents[i] == i then i else Root(parents, rank, bound, parents[i])
  }

  /** Whether `j` lies on the chain of parents from `i`, `i` itself included. */
  predicate Above(parents: seq<nat>, rank: seq<nat>, bound: nat, i: nat, j: nat)
    requires Forest(parents, rank, bound) && i < |parents|
    decreases bound - rank[i]
  {
    i == j || (parents[i] != i && Above(parents, rank, bound, parents[i], j))
  }

  /** The roots, one per set. */
  function Roots(parents: seq<nat>): (r: set<nat>)
    ensures forall j :: j in r ==> j < |parents|
    ensures forall j :: 0 <= j < |parents| ==> (j in r <==> parents[j] == j)
  {
    set j | 0 <= j < |parents| && parents[j] == j
  }

  /** Everything lies in one set. */
  predicate OneSet(parents: seq<nat>, rank: seq<nat>, bound: nat)
    requires Forest(parents, rank, bound)
  {
    forall i, j :: 0 <= i < |parents| && 0 <= j < |parents| ==>
      Root(parents, rank, bound, i) == Root(parents, rank, bound, j)
  }

  // ---------------------------------------------------------------------------------------
  // Facts about roots

  /** Every item on the chain from `i` has the same root as `i`. */
  lemma {:induction false} AboveSameRoot(parents: seq<nat>, rank: seq<nat>, bound: nat, i: nat, j: nat)
    requires Forest(parents, rank, bound) && i < |parents| && j < |parents| && Above(parents, rank, bound, i, j)
    ensures Root(parents, rank, bound, j) == Root(parents, rank, bound, i)
    decreases bound - rank[i]
  {
    if i != j {
      AboveSameRoot(parents, rank, bound, parents[i], j);
    }
  }

  /** Following one parent from an item on the chain from `i` stays on it. */
  lemma {:induction false} AboveParent(parents: seq<nat>, rank: seq<nat>, bound: nat, i: nat, j: nat)
    requires Forest(parents, rank, bound) && i < |parents| && j < |parents| && Above(parents, rank, bound, i, j)
    ensures Above(parents, rank, bound, i, parents[j])
    decreases bound - rank[i]
  {
    if i != j {
      AboveParent(parents, rank, bound, parents[i], j);
    }
  }

  /** An item that is no root ranks below its root. */
  lemma {:induction false} BelowRoot(parents: seq<nat>, rank: seq<nat>, bound: nat, i: nat)
    requires Forest(parents, rank, bound) && i < |parents| && parents[i] != i
    ensures rank[i] < rank[Root(parents, rank, bound, i)]
    decreases bound - rank[i]
  {
    if parents[parents[i]] != parents[i] {
      BelowRoot(parents, rank, bound, parents[i]);
    }
  }

  /** Pointing items straight at their roots (path compression) keeps a forest with the same root
      for every item. */
  lemma Compressed(parents: seq<nat>, parents': seq<nat>, rank: seq<nat>, bound: nat)
    requires Forest(parents, rank, bound) && |parents'| == |parents|
    requires forall j :: 0 <= j < |parents| ==>
      parents'[j] == parents[j] || parents'[j] == Root(parents, rank, bound, j)
    ensures Forest(parents', rank, bound)
    ensures forall j :: 0 <= j < |parents| ==> Root(parents', rank, bound, j) == Root(parents, rank, bound, j)
  {
    forall j | 0 <= j < |parents| && parents'[j] != j ensures rank[j] < rank[parents'[j]] {
      if parents'[j] != parents[j] && parents[j] != j {
        BelowRoot(parents, rank, bound, j);
      }
    }
    forall j | 0 <= j < |parents| ensures Root(parents', rank, bound, j) == Root(parents, rank, bound, j) {
      CompressedRoot(parents, parents', rank, bound, j);
    }
  }

  lemma {:induction false} CompressedRoot(parents: seq<nat>, parents': seq<nat>, rank: seq<nat>, bound: nat, j: nat)
    requires Forest(parents, rank, bound) && Forest(parents', rank, bound) && j < |parents| == |parents'|
    requires forall k :: 0 <= k < |parents| ==>
      parents'[k] == parents[k] || parents'[k] == Root(parents, rank, bound, k)
    ensures Root(parents', rank, bound, j) == Root(parents, rank, bound, j)
    decreases bound - rank[j]
  {
    if parents'[j] != j {
      CompressedRoot(parents, parents', rank, bound, parents'[j]);
      if parents'[j] == parents[j] {
      } else {
        assert parents'[j] == Root(parents, rank, bound, j);
      }
    }
  }

  /** Hanging the root `a` below the root `b` moves exactly the set of `a` into the set of `b`.
      The rank of `b` rises above that of `a` to keep the forest. */
  lemma Joined(parents: seq<nat>, rank: seq<nat>, bound: nat, a: nat, b: nat)
    requires Forest(parents, rank, bound) && a < |parents| && b < |parents| && a != b
    requires parents[a] == a && parents[b] == b
    ensures var rank', bound' := JoinedRank(rank, a, b), JoinedBound(rank, bound, a, b);
      Forest(parents[a := b], rank', bound') &&
      forall j :: 0 <= j < |parents| ==>
        Root(parents[a := b], rank', bound', j) ==
          if Root(parents, rank, bound, j) == a then b else Root(parents, rank, bound, j)
  {
    var rank', bound' := JoinedRank(rank, a, b), JoinedBound(rank, bound, a, b);
    forall j | 0 <= j < |parents| ensures
      Root(parents[a := b], rank', bound', j) ==
        if Root(parents, rank, bound, j) == a then b else Root(parents, rank, bound, j)
    {
      JoinedRoot(parents, rank, bound, a, b, j);
    }
  }

  /** Hanging one root below another leaves one root, and one set, fewer. */
  lemma JoinedRoots(parents: seq<nat>, rank: seq<nat>, bound: nat, a: nat, b: nat)
    requires Forest(parents, rank, bound) && a < |parents| && b < |parents| && a != b
    requires parents[a] == a && parents[b] == b
    ensures |Roots(parents)| >= 2
    ensures Roots(parents[a := b]) == Roots(parents) - {a}
    ensures |Roots(parents[a := b])| == |Roots(parents)| - 1
    ensures var rank', bound' := JoinedRank(rank, a, b), JoinedBound(rank, bound, a, b);
      Forest(parents[a := b], rank', bound') &&
      forall j :: 0 <= j < |parents| ==>
        Root(parents[a := b], rank', bound', j) ==
          if Root(parents, rank, bound, j) == a then b else Root(parents, rank, bound, j)
  {
    TwoRoots(parents, a, b);
    Joined(parents, rank, bound, a, b);
    assert Roots(parents[a := b]) == Roots(parents) - {a};
  }

  /** The ranks after hanging `a` below `b`: `b` ranks above `a`. */
  function JoinedRank(rank: seq<nat>, a: nat, b: nat): seq<nat>
    requires a < |rank| && b < |rank|
  {
    rank[b := if rank[b] > rank[a] then rank[b] else rank[a] + 1]
  }

  /** A bound above the new rank of `b`. */
  function JoinedBound(rank: seq<nat>, bound: nat, a: nat, b: nat): nat
    requires a < |rank| && b < |rank|
  {
    if JoinedRank(rank, a, b)[b] < bound then bound else JoinedRank(rank, a, b)[b] + 1
  }

  lemma {:induction false} JoinedRoot(parents: seq<nat>, rank: seq<nat>, bound: nat, a: nat, b: nat, j: nat)
    requires Forest(parents, rank, bound) && a < |parents| && b < |parents| && a != b && j < |parents|
    requires parents[a] == a && parents[b] == b
    ensures var rank', bound' := JoinedRank(rank, a, b), JoinedBound(rank, bound, a, b);
      Forest(parents[a := b], rank', bound') &&
      Root(parents[a := b], rank', bound', j) ==
        if Root(parents, rank, bound, j) == a then b else Root(parents, rank, bound, j)
    decreases bound - rank[j]
  {
    var rank', bound' := JoinedRank(rank, a, b), JoinedBound(rank, bound, a, b);
    var p' := parents[a := b];
    assert Forest(p', rank', bound');
    if j == a {
      assert Root(p', rank', bound', b) == b;
    } else if parents[j] != j {
      JoinedRoot(parents, rank, bound, a, b, parents[j]);
    }
  }

  /** The identity forest: every item its own root. */
  function Singletons(n: nat): (r: seq<nat>)
    ensures |r| == n && forall i :: 0 <= i < n ==> r[i] == i
  {
    seq(n, i => i)
  }

  lemma {:induction false} SingletonRoots(n: nat)
    ensures |Roots(Singletons(n))| == n
  {
    if n > 0 {
      SingletonRoots(n - 1);
      assert Roots(Singletons(n)) == Roots(Singletons(n - 1)) + {n - 1};
    }
  }

  /** With exactly one root everything is in one set, and conversely, for a non-empty forest. */
  lemma OneRoot(parents: seq<nat>, rank: seq<nat>, bound: nat)
    requires Forest(parents, rank, bound) && |parents| > 0
    ensures |Roots(parents)| == 1 <==> OneSet(parents, rank, bound)
  {
    var r0 := Root(parents, rank, bound, 0);
    if OneSet(parents, rank, bound) {
      forall j | j in Roots(parents) ensures j == r0 {
        assert Root(parents, rank, bound, j) == j;
      }
      assert Roots(parents) == {r0};
    }
    if |Roots(parents)| == 1 {
      forall i, j | 0 <= i < |parents| && 0 <= j < |parents|
        ensures Root(parents, rank, bound, i) == Root(parents, rank, bound, j)
      {
        var ri, rj := Root(parents, rank, bound, i), Root(parents, rank, bound, j);
        assert ri in Roots(parents) && rj in Roots(parents);
        OnlyElement(Roots(parents), ri, rj);
      }
    }
  }

  lemma OnlyElement(s: set<nat>, x: nat, y: nat)
    requires |s| == 1 && x in s && y in s
    ensures x == y
  {
    var rest := s - {x};
    assert |rest| == 0;
    assert y !in rest;
  }

  /** Two different roots mean at least two sets. */
  lemma TwoRoots(parents: seq<nat>, a: nat, b: nat)
    requires a in Roots(parents) && b in Roots(parents) && a != b
    ensures |Roots(parents)| >= 2
  {
    var rest := Roots(parents) - {a};
    assert b in rest;
    assert |rest| == |Roots(parents)| - 1;
  }

  // ---------------------------------------------------------------------------------------
  // The structure

  class Sets {
    var parents: array<nat>
    /** The number of unions that would still join two different sets. */
    var unionsLeft: nat
    ghost var rank: seq<nat>
    ghost var bound: nat

    /** A forest with one more set than unions left. */
    ghost predicate Valid()
      reads this, parents
    {
      Forest(parents[..], rank, bound) && |Roots(parents[..])| == unionsLeft + 1
    }

    /** The set of `i`, named by its root. */
    ghost function SetOf(i: nat): nat
      reads this, parents
      requires Valid() && i < parents.Length
    {
      Root(parents[..], rank, bound, i)
    }

    /** Every item in a set of its own. The source computes `n - 1` on unsigned integers, which
        panics for `n == 0`. */
    constructor (n: nat)
      requires n >= 1
      ensures Valid() && fresh(parents) && parents.Length == n
      ensures parents[..] == Singletons(n) && unionsLeft == n - 1
    {
      parents := new nat[n](i => i);
      unionsLeft := n - 1;
      rank := seq(n, i => 0);
      bound := 1;
      new;
      assert parents[..] == Singletons(n);
      SingletonRoots(n);
    }

    /** The set of `item`. On the way it points every item on the chain from `item` straight at
        the root; no item changes set and no root stops being one. */
    method Find(item: nat) returns (root: nat)
      requires Valid() && item < parents.Length
      modifies parents
      ensures Valid() && unchanged(this)
      ensures root == Root(old(parents[..]), rank, bound, item) && parents[root] == root
      ensures forall j :: 0 <= j < parents.Length ==>
        parents[j] == if Above(old(parents[..]), rank, bound, item, j) then root else old(parents[j])
      ensures forall j :: 0 <= j < parents.Length ==> SetOf(j) == old(SetOf(j))
      ensures forall j :: 0 <= j < parents.Length && old(parents[j]) == j ==> parents[j] == j
    {
      root := RootOf(item);
      Compress(item, root);
    }

    /** The root of `item`'s chain, found by following parents. */
    method RootOf(item: nat) returns (root: nat)
      requires Valid() && item < parents.Length
      ensures root == Root(parents[..], rank, bound, item)
      ensures root < parents.Length && parents[root] == root
    {
      ghost var p0 := parents[..];
      root := item;
      while parents[root] != root
        invariant root < parents.Length && Root(p0, rank, bound, root) == Root(p0, rank, bound, item)
        invariant Above(p0, rank, bound, item, root)
        decreases bound - rank[root]
      {
        AboveParent(p0, rank, bound, item, root);
        root := parents[root];
      }
    }

    /** Points every item on the chain from `item` straight at its root `root`. */
    method Compress(item: nat, root: nat)
      requires Valid() && item < parents.Length && root == Root(parents[..], rank, bound, item)
      modifies parents
      ensures Forest(parents[..], rank, bound) && Roots(parents[..]) == Roots(old(parents[..]))
      ensures forall j :: 0 <= j < parents.Length ==>
        parents[j] == if Above(old(parents[..]), rank, bound, item, j) then root else old(parents[j])
      ensures forall j :: 0 <= j < parents.Length ==>
        Root(parents[..], rank, bound, j) == Root(old(parents[..]), rank, bound, j)
      ensures forall j :: 0 <= j < parents.Length && old(parents[j]) == j ==> parents[j] == j
    {
      ghost var p0 := parents[..];
      var cur: nat := item;
      ghost var visited: set<nat> := {};
      while parents[cur] != root
        invariant Compressing(p0, rank, bound, item, root, cur, visited, parents[..])
        decreases bound - rank[cur]
      {
        CompressStep(p0, rank, bound, item, root, cur, visited, parents[..]);
        var next := parents[cur];
        parents[cur] := root;
        visited := visited + {cur};
        cur := next;
      }
      CompressDone(p0, rank, bound, item, root, cur, visited, parents[..]);
    }

    /** Joins the sets of `a` and `b`: the set of `a` goes into that of `b`. A union of two items
        already together changes no set and keeps the number of unions left. */
    method Union(a: nat, b: nat)
      requires Valid() && a < parents.Length && b < parents.Length
      modifies this, parents
      ensures Valid() && parents == old(parents)
      ensures forall j :: 0 <= j < parents.Length ==>
        SetOf(j) == if old(SetOf(j)) == old(SetOf(a)) then old(SetOf(b)) else old(SetOf(j))
      ensures SetOf(a) == SetOf(b)
      ensures unionsLeft == if old(SetOf(a)) == old(SetOf(b)) then old(unionsLeft) else old(unionsLeft) - 1
    {
      var aRoot := Find(a);
      var bRoot := Find(b);
      if aRoot != bRoot {
        Link(aRoot, bRoot);
      }
    }

    /** Points the root `aRoot` at the other root `bRoot`: one set fewer. */
    method Link(aRoot: nat, bRoot: nat)
      requires Valid() && aRoot < parents.Length && bRoot < parents.Length && aRoot != bRoot
      requires parents[aRoot] == aRoot && parents[bRoot] == bRoot
      modifies this, parents
      ensures Valid() && parents == old(parents) && unionsLeft == old(unionsLeft) - 1
      ensures forall j :: 0 <= j < parents.Length ==>
        SetOf(j) == if old(SetOf(j)) == aRoot then bRoot else old(SetOf(j))
    {
      ghost var p := parents[..];
      JoinedRoots(p, rank, bound, aRoot, bRoot);
      parents[aRoot] := bRoot;
      rank, bound := JoinedRank(rank, aRoot, bRoot), JoinedBound(rank, bound, aRoot, bRoot);
      unionsLeft := unionsLeft - 1;
      assert parents[..] == p[aRoot := bRoot];
    }

    /** Whether everything has been joined into one set. */
    predicate IsDone()
      reads this, parents
      requires Valid()
      ensures IsDone() <==> parents.Length > 0 && OneSet(parents[..], rank, bound)
    {
      OneRootDone();
      unionsLeft == 0
    }

    lemma OneRootDone()
      requires Valid()
      ensures unionsLeft == 0 <==> parents.Length > 0 && OneSet(parents[..], rank, bound)
    {
      if parents.Length > 0 {
        OneRoot(parents[..], rank, bound);
      }
    }
  }

  /** Part way through the path compression of `find`: the items `visited`, all on the chain from
      `item` and below `cur`, point at the root, and every other item is as it was. */
  ghost predicate Compressing(p0: seq<nat>, rank: seq<nat>, bound: nat, item: nat, root: nat, cur: nat,
                              visited: set<nat>, parents: seq<nat>)
  {
    Forest(p0, rank, bound) && item < |p0| && cur < |p0| && |parents| == |p0| &&
    Above(p0, rank, bound, item, cur) && cur !in visited && Root(p0, rank, bound, cur) == root &&
    (forall v :: v in visited ==>
      v < |p0| && rank[v] < rank[cur] && Above(p0, rank, bound, item, v) && p0[v] != v && v != root) &&
    (forall j :: 0 <= j < |p0| ==> parents[j] == if j in visited then root else p0[j]) &&
    (forall j :: 0 <= j < |p0| && Above(p0, rank, bound, item, j) ==> j in visited || Above(p0, rank, bound, cur, j))
  }

  /** One round of path compression: `cur`, below the root on the chain from `item`, is no root,
      and pointing it at the root moves on to its parent. */
  lemma CompressStep(p0: seq<nat>, rank: seq<nat>, bound: nat, item: nat, root: nat, cur: nat,
                     visited: set<nat>, parents: seq<nat>)
    requires Compressing(p0, rank, bound, item, root, cur, visited, parents) && parents[cur] != root
    ensures parents[cur] == p0[cur] && rank[cur] < rank[p0[cur]]
    ensures Compressing(p0, rank, bound, item, root, p0[cur], visited + {cur}, parents[cur := root])
  {
    AboveParent(p0, rank, bound, item, cur);
    var next := p0[cur];
    forall j | 0 <= j < |p0| && Above(p0, rank, bound, item, j)
      ensures j in visited + {cur} || Above(p0, rank, bound, next, j)
    {
    }
  }

  /** At the end of path compression every item on the chain from `item` points at the root,
      every other item is as it was, and no item changes its root. */
  lemma CompressDone(p0: seq<nat>, rank: seq<nat>, bound: nat, item: nat, root: nat, cur: nat,
                     visited: set<nat>, parents: seq<nat>)
    requires Compressing(p0, rank, bound, item, root, cur, visited, parents) && parents[cur] == root
    ensures forall j :: 0 <= j < |p0| ==> parents[j] == if Above(p0, rank, bound, item, j) then root else p0[j]
    ensures Forest(parents, rank, bound)
    ensures forall j :: 0 <= j < |p0| ==> Root(parents, rank, bound, j) == Root(p0, rank, bound, j)
    ensures Roots(parents) == Roots(p0)
  {
    assert p0[cur] == root;
    forall j | 0 <= j < |p0| ensures parents[j] == if Above(p0, rank, bound, item, j) then root else p0[j] {
      if Above(p0, rank, bound, item, j) && j !in visited {
        assert Above(p0, rank, bound, cur, j);
        if j != cur {
          assert Above(p0, rank, bound, root, j);
        }
      }
    }
    forall j | 0 <= j < |p0| ensures parents[j] == p0[j] || parents[j] == Root(p0, rank, bound, j) {
      if j in visited {
        AboveSameRoot(p0, rank, bound, item, j);
        AboveSameRoot(p0, rank, bound, item, cur);
      }
    }
    Compressed(p0, parents, rank, bound);
  }
}
