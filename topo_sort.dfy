// Kahn's topological sort over a graph of single-letter steps: a running count of the incoming
// edges of every node and a set of open nodes, always taking the alphabetically first.

module TopoSort {

  datatype Option<T> = None | Some(value: T)

  /** The edge map, as its entries in iteration order: a node and the nodes that must come after
      it, with duplicates meaning repeated edges. */
  type Edges = seq<(char, seq<char>)>

  predicate DistinctKeys(edges: Edges)
  {
    forall i, j :: 0 <= i < j < |edges| ==> edges[i].0 != edges[j].0
  }

  /** The successors listed for `node`, or none when it has no entry. */
  function Outgoing(edges: Edges, node: char): (r: seq<char>)
  {
    if edges == [] then []
    else if edges[|edges| - 1].0 == node then edges[|edges| - 1].1
    else Outgoing(edges[..|edges| - 1], node)
  }

  /** The elements of a list, as a set. */
  function Elements(s: seq<char>): (r: set<char>)
    ensures forall d :: d in r <==> d in s
  {
    if s == [] then {} else Elements(s[..|s| - 1]) + {s[|s| - 1]}
  }

  /** Every node named by the edge map, as a source or as a successor. */
  function Nodes(edges: Edges): (r: set<char>)
  {
    if edges == [] then {}
    else Nodes(edges[..|edges| - 1]) + {edges[|edges| - 1].0} + Elements(edges[|edges| - 1].1)
  }

  /** How often `d` occurs in `s`. */
  function Count(s: seq<char>, d: char): nat
  {
    if s == [] then 0 else Count(s[..|s| - 1], d) + (if s[|s| - 1] == d then 1 else 0)
  }

  /** A node occurs in a list exactly when it is counted there. */
  lemma {:induction false} CountIn(s: seq<char>, d: char)
    ensures Count(s, d) > 0 <==> d in s
  {
    if s != [] {
      CountIn(s[..|s| - 1], d);
      assert s == s[..|s| - 1] + [s[|s| - 1]];
    }
  }

  /** A prefix has no more occurrences than the whole list. */
  lemma {:induction false} CountPrefix(s: seq<char>, k: nat, d: char)
    requires k <= |s|
    ensures Count(s[..k], d) <= Count(s, d)
    decreases |s|
  {
    if k < |s| {
      assert s[..|s| - 1][..k] == s[..k];
      CountPrefix(s[..|s| - 1], k, d);
    } else {
      assert s[..k] == s;
    }
  }

  /** The edges into `d` from nodes that have not been output yet. */
  function Pending(edges: Edges, done: set<char>, d: char): (r: nat)
  {
    if edges == [] then 0
    else
      var last := edges[|edges| - 1];
      Pending(edges[..|edges| - 1], done, d) + (if last.0 in done then 0 else Count(last.1, d))
  }

  // ---------------------------------------------------------------------------------------
  // Facts about the edge map

  /** The successors of a node are nodes of the graph. */
  lemma {:induction false} OutgoingInNodes(edges: Edges, node: char, d: char)
    requires d in Outgoing(edges, node)
    ensures d in Nodes(edges)
  {
    if edges[|edges| - 1].0 != node {
      OutgoingInNodes(edges[..|edges| - 1], node, d);
    }
  }

  /** With nothing done, the pending edges into a node made no node other than the graph's. */
  lemma {:induction false} PendingOutside(edges: Edges, done: set<char>, d: char)
    requires d !in Nodes(edges)
    ensures Pending(edges, done, d) == 0
  {
    if edges != [] {
      var last := edges[|edges| - 1];
      assert d !in last.1;
      CountIn(last.1, d);
      PendingOutside(edges[..|edges| - 1], done, d);
    }
  }

  /** No pending edges into `d` means every node with an edge to it is done. */
  lemma {:induction false} PendingZero(edges: Edges, done: set<char>, d: char, u: char)
    requires Pending(edges, done, d) == 0 && d in Outgoing(edges, u)
    ensures u in done
  {
    var last := edges[|edges| - 1];
    if last.0 == u {
      CountIn(last.1, d);
    } else {
      PendingZero(edges[..|edges| - 1], done, d, u);
    }
  }

  /** Marking a node that is no source does not change what is pending. */
  lemma {:induction false} PendingNotKey(edges: Edges, done: set<char>, c: char, d: char)
    requires forall i :: 0 <= i < |edges| ==> edges[i].0 != c
    ensures Pending(edges, done + {c}, d) == Pending(edges, done, d)
  {
    if edges != [] {
      PendingNotKey(edges[..|edges| - 1], done, c, d);
    }
  }

  /** Marking a node done removes exactly its own outgoing edges from what is pending. */
  lemma {:induction false} PendingClose(edges: Edges, done: set<char>, c: char, d: char)
    requires DistinctKeys(edges) && c !in done
    ensures Pending(edges, done, d) == Pending(edges, done + {c}, d) + Count(Outgoing(edges, c), d)
  {
    if edges != [] {
      var init, last := edges[..|edges| - 1], edges[|edges| - 1];
      if last.0 == c {
        PendingNotKey(init, done, c, d);
        if init != [] {
          assert init[..0] == [];
        }
        assert Outgoing(edges, c) == last.1;
        OutgoingNotKey(init, c);
      } else {
        PendingClose(init, done, c, d);
      }
    }
  }

  lemma {:induction false} OutgoingNotKey(edges: Edges, c: char)
    requires forall i :: 0 <= i < |edges| ==> edges[i].0 != c
    ensures Outgoing(edges, c) == []
  {
    if edges != [] {
      OutgoingNotKey(edges[..|edges| - 1], c);
    }
  }

  /** Every node that comes after another in the edge map comes after it in `order`. */
  ghost predicate EdgeOrdered(edges: Edges, order: seq<char>)
  {
    forall j, u :: 0 <= j < |order| && order[j] in Outgoing(edges, u) ==> u in order[..j]
  }

  /** The nodes already output. */
  function Done(order: seq<char>): set<char>
  {
    set c | c in order
  }

  predicate Distinct(s: seq<char>)
  {
    forall i, j :: 0 <= i < j < |s| ==> s[i] != s[j]
  }

  /** A finite non-empty multiset of letters has a least element. */
  lemma {:induction false} LeastExists(m: multiset<char>)
    requires m != multiset{}
    ensures exists c :: c in m && forall d :: d in m ==> c <= d
    decreases |m|
  {
    var x :| x in m;
    var rest := m - multiset{x};
    if rest == multiset{} {
      LeastSingle(m, x);
    } else {
      LeastExists(rest);
      var y :| y in rest && forall d :: d in rest ==> y <= d;
      LeastAdd(m, x, y);
    }
  }

  lemma LeastSingle(m: multiset<char>, x: char)
    requires x in m && m - multiset{x} == multiset{}
    ensures forall d :: d in m ==> x <= d
  {
    assert m == multiset{x};
  }

  lemma LeastAdd(m: multiset<char>, x: char, y: char)
    requires x in m && y in m - multiset{x} && forall d :: d in m - multiset{x} ==> y <= d
    ensures var z := if x <= y then x else y; z in m && forall d :: d in m ==> z <= d
  {
    forall d | d in m && d != x ensures d in m - multiset{x} {
    }
  }

  // ---------------------------------------------------------------------------------------
  // The states of the sort, as values

  /** `counts` holds, for every node of `edges`, its incoming edges. */
  ghost predicate Counted(counts: map<char, nat>, edges: Edges)
  {
    counts.Keys == Nodes(edges) && forall d :: d in counts ==> counts[d] == Pending(edges, {}, d)
  }

  /** Part way through the entry for `node`: its successors in `extra` are counted too. */
  ghost predicate Tallied(counts: map<char, nat>, edges: Edges, node: char, extra: seq<char>)
  {
    counts.Keys == Nodes(edges) + {node} + Elements(extra) &&
    forall d :: d in counts ==> counts[d] == Pending(edges, {}, d) + Count(extra, d)
  }

  /** Starting the entry for `node`: it gets a count of zero if it has none. */
  lemma TallyStart(counts: map<char, nat>, counts': map<char, nat>, edges: Edges, node: char)
    requires Counted(counts, edges)
    requires counts' == if node in counts then counts else counts[node := 0]
    ensures Tallied(counts', edges, node, [])
  {
    if node !in counts {
      PendingOutside(edges, {}, node);
    }
  }

  /** Counting one more successor `dest`: its count starts at 0 when new, then rises by one. */
  lemma TallyStep(counts: map<char, nat>, counts': map<char, nat>, edges: Edges, node: char, extra: seq<char>, dest: char)
    requires Tallied(counts, edges, node, extra)
    requires counts' == counts[dest := (if dest in counts then counts[dest] else 0) + 1]
    ensures Tallied(counts', edges, node, extra + [dest])
  {
    var extra' := extra + [dest];
    assert extra'[..|extra'| - 1] == extra;
    assert Elements(extra') == Elements(extra) + {dest};
    if dest !in counts {
      PendingOutside(edges, {}, dest);
      CountIn(extra, dest);
    }
    forall d | d in counts' ensures counts'[d] == Pending(edges, {}, d) + Count(extra', d) {
      assert Count(extra', d) == Count(extra, d) + (if d == dest then 1 else 0);
    }
  }

  /** Counting successor `j` of the entry for `node`. */
  lemma TallyNext(counts: map<char, nat>, counts': map<char, nat>, edges: Edges, node: char, outgoing: seq<char>, j: nat)
    requires j < |outgoing| && Tallied(counts, edges, node, outgoing[..j])
    requires counts' == counts[outgoing[j] := (if outgoing[j] in counts then counts[outgoing[j]] else 0) + 1]
    ensures Tallied(counts', edges, node, outgoing[..j + 1])
  {
    assert outgoing[..j + 1] == outgoing[..j] + [outgoing[j]];
    TallyStep(counts, counts', edges, node, outgoing[..j], outgoing[j]);
  }

  /** Finishing the entry at `i`: its node and successors are counted as edges. */
  lemma TallyEntry(counts: map<char, nat>, edges: Edges, i: nat)
    requires i < |edges| && Tallied(counts, edges[..i], edges[i].0, edges[i].1)
    ensures Counted(counts, edges[..i + 1])
  {
    assert edges[..i + 1][..i] == edges[..i];
  }

  /** `counts` gone down from `counts0` by the occurrences of each node in `closed`. */
  ghost predicate Lowered(counts0: map<char, nat>, counts: map<char, nat>, closed: seq<char>)
  {
    counts.Keys == counts0.Keys && forall d :: d in counts ==> counts[d] == counts0[d] - Count(closed, d)
  }

  /** `open` is `open0` with one more copy of each node of `closed` whose count went to zero. */
  ghost predicate OpenedBy(open0: multiset<char>, open: multiset<char>, counts0: map<char, nat>, closed: seq<char>)
  {
    forall d :: open[d] == open0[d] + (if Count(closed, d) > 0 && d in counts0 && counts0[d] == Count(closed, d) then 1 else 0)
  }

  /** One more element of `s` counts one more occurrence of itself and none of the others. */
  lemma CountNext(s: seq<char>, i: nat, d: char)
    requires i < |s|
    ensures Count(s[..i + 1], d) == Count(s[..i], d) + (if d == s[i] then 1 else 0)
  {
    assert s[..i + 1][..i] == s[..i];
  }

  /** Closing one more edge into `dest`: the count is positive, goes down by one and opens `dest`
      when it reaches zero. */
  lemma CloseStep(counts0: map<char, nat>, counts: map<char, nat>, open0: multiset<char>, open: multiset<char>,
                  dests: seq<char>, i: nat)
    requires i < |dests| && Lowered(counts0, counts, dests[..i]) && OpenedBy(open0, open, counts0, dests[..i])
    requires forall d :: d in dests ==> d in counts0 && counts0[d] >= Count(dests, d)
    ensures dests[i] in counts && counts[dests[i]] >= 1
    ensures var dest := dests[i];
      var counts' := counts[dest := counts[dest] - 1];
      Lowered(counts0, counts', dests[..i + 1]) &&
      OpenedBy(open0, if counts'[dest] == 0 then open + multiset{dest} else open, counts0, dests[..i + 1])
  {
    var dest := dests[i];
    CountNext(dests, i, dest);
    CountPrefix(dests, i + 1, dest);
    CloseStepLowered(counts0, counts, dests, i);
    CloseStepOpened(counts0, counts, open0, open, dests, i);
  }

  lemma CloseStepLowered(counts0: map<char, nat>, counts: map<char, nat>, dests: seq<char>, i: nat)
    requires i < |dests| && Lowered(counts0, counts, dests[..i])
    requires dests[i] in counts && counts[dests[i]] >= 1
    ensures Lowered(counts0, counts[dests[i] := counts[dests[i]] - 1], dests[..i + 1])
  {
    forall d | d in counts ensures counts[dests[i] := counts[dests[i]] - 1][d] == counts0[d] - Count(dests[..i + 1], d) {
      CountNext(dests, i, d);
    }
  }

  lemma CloseStepOpened(counts0: map<char, nat>, counts: map<char, nat>, open0: multiset<char>, open: multiset<char>,
                        dests: seq<char>, i: nat)
    requires i < |dests| && Lowered(counts0, counts, dests[..i]) && OpenedBy(open0, open, counts0, dests[..i])
    requires dests[i] in counts && counts[dests[i]] >= 1
    ensures var dest := dests[i];
      OpenedBy(open0, if counts[dest] == 1 then open + multiset{dest} else open, counts0, dests[..i + 1])
  {
    var dest := dests[i];
    var open' := if counts[dest] == 1 then open + multiset{dest} else open;
    forall d ensures open'[d] == open0[d] + (if Count(dests[..i + 1], d) > 0 && d in counts0 && counts0[d] == Count(dests[..i + 1], d) then 1 else 0) {
      CountNext(dests, i, d);
      if d == dest {
        assert counts0[d] - Count(dests[..i + 1], d) == counts[d] - 1;
      }
    }
  }

  /** The state of the sort after `order` has been output: the counts are the edges still pending
      and the open nodes are exactly the nodes not yet output that have none. */
  ghost predicate Tracking(edges: Edges, counts: map<char, nat>, open: multiset<char>, order: seq<char>)
  {
    counts.Keys == Nodes(edges) &&
    (forall d :: d in counts ==> counts[d] == Pending(edges, Done(order), d)) &&
    (forall d :: open[d] == if d in counts && d !in order && counts[d] == 0 then 1 else 0)
  }

  /** The counts after closing a taken node are the edges pending once it is output. */
  lemma CloseCounts(edges: Edges, counts0: map<char, nat>, counts: map<char, nat>, order: seq<char>, c: char)
    requires DistinctKeys(edges) && c !in order
    requires counts0.Keys == Nodes(edges) && forall d :: d in counts0 ==> counts0[d] == Pending(edges, Done(order), d)
    requires Lowered(counts0, counts, Outgoing(edges, c))
    ensures forall d :: d in counts ==> counts[d] == Pending(edges, Done(order + [c]), d)
  {
    assert Done(order + [c]) == Done(order) + {c};
    forall d | d in counts ensures counts[d] == Pending(edges, Done(order + [c]), d) {
      PendingClose(edges, Done(order), c, d);
    }
  }

  /** The open nodes after taking the open node `c` and closing it are the nodes not output whose
      count is zero. */
  lemma CloseOpen(edges: Edges, counts0: map<char, nat>, counts: map<char, nat>,
                  open0: multiset<char>, open: multiset<char>, order: seq<char>, c: char)
    requires DistinctKeys(edges) && Tracking(edges, counts0, open0, order) && EdgeOrdered(edges, order) && c in open0
    requires Lowered(counts0, counts, Outgoing(edges, c)) && OpenedBy(open0 - multiset{c}, open, counts0, Outgoing(edges, c))
    ensures forall d :: open[d] == if d in counts && d !in order + [c] && counts[d] == 0 then 1 else 0
  {
    forall d ensures open[d] == if d in counts && d !in order + [c] && counts[d] == 0 then 1 else 0 {
      CloseOpenAt(edges, counts0, counts, open0, open, order, c, d);
    }
  }

  /** One node `d` of `CloseOpen`: it opens when it is a successor of `c` whose count reaches zero;
      otherwise it stays as it was, except that `c` itself is no longer open. */
  lemma CloseOpenAt(edges: Edges, counts0: map<char, nat>, counts: map<char, nat>,
                    open0: multiset<char>, open: multiset<char>, order: seq<char>, c: char, d: char)
    requires DistinctKeys(edges) && Tracking(edges, counts0, open0, order) && EdgeOrdered(edges, order) && c in open0
    requires Lowered(counts0, counts, Outgoing(edges, c)) && OpenedBy(open0 - multiset{c}, open, counts0, Outgoing(edges, c))
    ensures open[d] == if d in counts && d !in order + [c] && counts[d] == 0 then 1 else 0
  {
    var out := Outgoing(edges, c);
    CountIn(out, d);
    if d == c {
      assert c !in order && counts0[c] == 0;
    } else if d in out {
      assert forall j :: 0 <= j < |order| ==> order[j] != d by {
        forall j | 0 <= j < |order| ensures order[j] != d {
          assert c !in order[..j];
        }
      }
      PendingClose(edges, Done(order), c, d);
      OutgoingInNodes(edges, c, d);
      assert open0[d] == 0;
    } else {
      assert open[d] == open0[d];
    }
  }

  /** Outputting an open node keeps every node after those it depends on. */
  lemma TakeOrdered(edges: Edges, order: seq<char>, c: char)
    requires EdgeOrdered(edges, order) && Pending(edges, Done(order), c) == 0
    ensures EdgeOrdered(edges, order + [c])
  {
    forall j, u | 0 <= j < |order + [c]| && (order + [c])[j] in Outgoing(edges, u)
      ensures u in (order + [c])[..j]
    {
      if j == |order| {
        PendingZero(edges, Done(order), c, u);
        assert (order + [c])[..j] == order;
      } else {
        assert (order + [c])[..j] == order[..j];
      }
    }
  }

  /** A taken node's successors all have enough incoming edges left to be closed. */
  lemma CanClose(edges: Edges, counts: map<char, nat>, order: seq<char>, c: char)
    requires DistinctKeys(edges) && c !in order
    requires counts.Keys == Nodes(edges) && forall d :: d in counts ==> counts[d] == Pending(edges, Done(order), d)
    ensures forall d :: d in Outgoing(edges, c) ==> d in counts && counts[d] >= Count(Outgoing(edges, c), d)
  {
    forall d | d in Outgoing(edges, c) ensures d in counts && counts[d] >= Count(Outgoing(edges, c), d) {
      OutgoingInNodes(edges, c, d);
      PendingClose(edges, Done(order), c, d);
    }
  }

  // ---------------------------------------------------------------------------------------
  // The sort

  class TopologicalSort {
    const edges: Edges
    /** The number of incoming edges still to be closed, for every node. */
    var incoming: map<char, nat>
    /** The nodes that can be taken now. */
    var open: multiset<char>

    /** Counts the incoming edges of every node and opens those with none. */
    constructor (edges: Edges)
      requires DistinctKeys(edges)
      ensures this.edges == edges
      ensures Tracking(edges, incoming, open, [])
    {
      this.edges := edges;
      var counts := CountIncoming(edges);
      incoming := counts;
      var ready: multiset<char> := multiset{};
      var left := counts.Keys;
      while left != {}
        invariant left <= counts.Keys
        invariant forall d :: ready[d] == if d in counts && d !in left && counts[d] == 0 then 1 else 0
        decreases |left|
      {
        var d :| d in left;
        if counts[d] == 0 {
          ready := ready + multiset{d};
        }
        left := left - {d};
      }
      open := ready;
      assert Done([]) == {};
    }

    /** The incoming-edge count of every node of the edge map. */
    static method CountIncoming(edges: Edges) returns (counts: map<char, nat>)
      ensures Counted(counts, edges)
    {
      counts := map[];
      var i := 0;
      assert Nodes([]) == {};
      while i < |edges|
        invariant 0 <= i <= |edges| && Counted(counts, edges[..i])
      {
        var (node, outgoing) := edges[i];
        var started := if node in counts then counts else counts[node := 0];
        TallyStart(counts, started, edges[..i], node);
        counts := TallyOutgoing(started, edges[..i], node, outgoing);
        TallyEntry(counts, edges, i);
        i := i + 1;
      }
      assert edges[..i] == edges;
    }

    /** Adds one incoming edge for every successor listed in the entry for `node`. */
    static method TallyOutgoing(counts0: map<char, nat>, ghost edges: Edges, node: char, outgoing: seq<char>)
      returns (counts: map<char, nat>)
      requires Tallied(counts0, edges, node, [])
      ensures Tallied(counts, edges, node, outgoing)
    {
      counts := counts0;
      var j := 0;
      while j < |outgoing|
        invariant 0 <= j <= |outgoing| && Tallied(counts, edges, node, outgoing[..j])
      {
        var dest := outgoing[j];
        var counts' := counts[dest := (if dest in counts then counts[dest] else 0) + 1];
        TallyNext(counts, counts', edges, node, outgoing, j);
        counts := counts';
        j := j + 1;
      }
      assert outgoing[..j] == outgoing;
    }

    /** Whether the sort has finished: nothing open and no edge left unclosed. */
    predicate IsComplete()
      reads this
    {
      open == multiset{} && forall d :: d in incoming ==> incoming[d] == 0
    }

    /** Takes the alphabetically first open node, or `None` when no node is open. */
    method TakeOpenNode() returns (r: Option<char>)
      modifies this
      ensures r.None? <==> old(open) == multiset{}
      ensures r.Some? ==> r.value in old(open) && (forall d :: d in old(open) ==> r.value <= d)
      ensures open == if r.Some? then old(open) - multiset{r.value} else old(open)
      ensures incoming == old(incoming)
    {
      if open == multiset{} {
        return None;
      }
      LeastExists(open);
      var c :| c in open && forall d :: d in open ==> c <= d;
      open := open - multiset{c};
      return Some(c);
    }

    /** One round of the sort after `order` has been output: takes the first open node and closes
        it, so that the state is that after `order` and the node; `None` when no node is open. */
    method OutputNext(ghost order: seq<char>) returns (next: Option<char>)
      requires DistinctKeys(edges) && Tracking(edges, incoming, open, order) && EdgeOrdered(edges, order)
      modifies this
      ensures next.None? ==> open == old(open) == multiset{} && incoming == old(incoming)
      ensures next.Some? ==> next.value in old(open) && forall d :: d in old(open) ==> next.value <= d
      ensures next.Some? ==> next.value in Nodes(edges) && next.value !in order
      ensures next.Some? ==> Tracking(edges, incoming, open, order + [next.value])
      ensures next.Some? ==> EdgeOrdered(edges, order + [next.value])
    {
      ghost var incoming0, open0 := incoming, open;
      next := TakeOpenNode();
      if next.Some? {
        var c := next.value;
        assert c in open0;
        CanClose(edges, incoming0, order, c);
        CloseNode(c);
        CloseCounts(edges, incoming0, incoming, order, c);
        CloseOpen(edges, incoming0, incoming, open0, open, order, c);
        TakeOrdered(edges, order, c);
      }
    }

    /** Closes `node`: each of its outgoing edges lowers its successor's count, which the source
        asserts to be positive, and a successor whose count reaches zero opens. */
    method CloseNode(node: char)
      requires forall d :: d in Outgoing(edges, node) ==> d in incoming && incoming[d] >= Count(Outgoing(edges, node), d)
      modifies this
      ensures Lowered(old(incoming), incoming, Outgoing(edges, node))
      ensures OpenedBy(old(open), open, old(incoming), Outgoing(edges, node))
    {
      var dests := Outgoing(edges, node);
      var i := 0;
      while i < |dests|
        invariant 0 <= i <= |dests|
        invariant Lowered(old(incoming), incoming, dests[..i])
        invariant OpenedBy(old(open), open, old(incoming), dests[..i])
      {
        var dest := dests[i];
        CloseStep(old(incoming), incoming, old(open), open, dests, i);
        incoming := incoming[dest := incoming[dest] - 1];
        if incoming[dest] == 0 {
          open := open + multiset{dest};
        }
        i := i + 1;
      }
      assert dests[..i] == dests;
    }
  }

  /** Outputting a node of the graph not yet output keeps the order free of repeats and leaves
      fewer nodes to output. */
  lemma Extend(edges: Edges, order: seq<char>, c: char)
    requires Distinct(order) && Done(order) <= Nodes(edges) && c in Nodes(edges) && c !in order
    ensures Distinct(order + [c]) && Done(order + [c]) <= Nodes(edges)
    ensures |Nodes(edges) - Done(order + [c])| < |Nodes(edges) - Done(order)|
  {
    assert Done(order + [c]) == Done(order) + {c};
    assert Nodes(edges) - Done(order + [c]) < Nodes(edges) - Done(order);
  }

  /** With nothing open and no edge left, every node has been output. */
  lemma Completed(edges: Edges, counts: map<char, nat>, open: multiset<char>, order: seq<char>)
    requires Tracking(edges, counts, open, order)
    requires open == multiset{} && forall d :: d in counts ==> counts[d] == 0
    ensures Nodes(edges) <= Done(order)
  {
    forall d | d in Nodes(edges) ensures d in order {
      assert open[d] == 0;
    }
  }

  /** A set of nodes in which every node has a predecessor: a witness that the graph has a
      cycle, so that none of these nodes can ever be opened. */
  ghost predicate Cyclic(edges: Edges, s: set<char>)
  {
    s != {} && s <= Nodes(edges) && forall d {:trigger HasPredecessor(edges, s, d)} :: d in s ==> HasPredecessor(edges, s, d)
  }

  /** Some node of `s` has an edge to `d`. */
  ghost predicate HasPredecessor(edges: Edges, s: set<char>, d: char)
  {
    exists u :: u in s && d in Outgoing(edges, u)
  }

  /** An edge into `d` is pending only from a node of the graph not yet output. */
  lemma {:induction false} PendingPositive(edges: Edges, done: set<char>, d: char)
    requires DistinctKeys(edges) && Pending(edges, done, d) > 0
    ensures exists u :: u in Nodes(edges) && u !in done && d in Outgoing(edges, u)
  {
    var front, last := edges[..|edges| - 1], edges[|edges| - 1];
    assert DistinctKeys(front);
    if Pending(front, done, d) > 0 {
      PendingPositive(front, done, d);
      var u :| u in Nodes(front) && u !in done && d in Outgoing(front, u);
      if last.0 == u {
        OutgoingNotKey(front, u);
      }
      assert d in Outgoing(edges, u);
    } else {
      CountIn(last.1, d);
      assert d in Outgoing(edges, last.0);
    }
  }

  /** The sort stuck with nothing open and some edge left: the nodes not output form a cycle. */
  lemma StuckCyclic(edges: Edges, counts: map<char, nat>, open: multiset<char>, order: seq<char>)
    requires DistinctKeys(edges) && Tracking(edges, counts, open, order)
    requires open == multiset{} && !(forall d :: d in counts ==> counts[d] == 0)
    ensures Cyclic(edges, Nodes(edges) - Done(order))
  {
    var left := Nodes(edges) - Done(order);
    var d0 :| d0 in counts && counts[d0] != 0;
    PendingPositive(edges, Done(order), d0);
    var u0 :| u0 in Nodes(edges) && u0 !in Done(order) && d0 in Outgoing(edges, u0);
    assert u0 in left;
    forall d | d in left ensures HasPredecessor(edges, left, d) {
      assert open[d] == 0;
      PendingPositive(edges, Done(order), d);
    }
  }

  /** In an order that puts every node after those it depends on, a node of a cycle witness has
      another before it. */
  lemma PredecessorEarlier(edges: Edges, order: seq<char>, s: set<char>, j: nat)
    requires EdgeOrdered(edges, order) && Cyclic(edges, s) && j < |order| && order[j] in s
    ensures exists i :: 0 <= i < j && order[i] in s
  {
    assert HasPredecessor(edges, s, order[j]);
    var u :| u in s && order[j] in Outgoing(edges, u);
    assert u in order[..j];
    var i :| 0 <= i < j && order[..j][i] == u;
    assert order[i] == u;
  }

  /** No node of a cycle witness appears among the first `n` of such an order. */
  lemma {:induction false} NotInPrefix(edges: Edges, order: seq<char>, s: set<char>, n: nat)
    requires EdgeOrdered(edges, order) && Cyclic(edges, s) && n <= |order|
    ensures forall i :: 0 <= i < n ==> order[i] !in s
  {
    if n > 0 {
      NotInPrefix(edges, order, s, n - 1);
      if order[n - 1] in s {
        PredecessorEarlier(edges, order, s, n - 1);
        assert false;
      }
    }
  }

  /** An order that puts every node after those it depends on and names every node rules out a
      cycle. */
  lemma OrderedAcyclic(edges: Edges, order: seq<char>, s: set<char>)
    requires EdgeOrdered(edges, order) && Nodes(edges) <= Done(order)
    ensures !Cyclic(edges, s)
  {
    if Cyclic(edges, s) {
      ghost var x :| x in s;
      NotInPrefix(edges, order, s, |order|);
      assert false;
    }
  }

  // ---------------------------------------------------------------------------------------
  // The first star

  /** The order of the steps: take the first open node and close it until none is open. The source
      asserts at the end that the sort is complete, which fails on a cycle: then `None`. The order
      names every node once and puts every node after those it depends on. */
  method Star1(edges: Edges) returns (r: Option<seq<char>>)
    requires DistinctKeys(edges)
    ensures r.Some? ==> Distinct(r.value) && Done(r.value) == Nodes(edges) && EdgeOrdered(edges, r.value)
    ensures r.None? <==> exists s :: Cyclic(edges, s)
  {
    var ts := new TopologicalSort(edges);
    var order: seq<char> := [];
    while true
      invariant ts.edges == edges && Tracking(edges, ts.incoming, ts.open, order) && EdgeOrdered(edges, order)
      invariant Distinct(order) && Done(order) <= Nodes(edges)
      decreases |Nodes(edges) - Done(order)|
    {
      var next := ts.OutputNext(order);
      if next.None? {
        break;
      }
      Extend(edges, order, next.value);
      order := order + [next.value];
    }
    assert ts.open == multiset{};
    if ts.IsComplete() {
      Completed(edges, ts.incoming, ts.open, order);
      r := Some(order);
      forall s | true ensures !Cyclic(edges, s) {
        OrderedAcyclic(edges, order, s);
      }
    } else {
      StuckCyclic(edges, ts.incoming, ts.open, order);
      r := None;
    }
  }
}
