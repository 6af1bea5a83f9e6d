/** The navigation-system license file: a tree serialised as a flat list of numbers. Each node is
    a header (number of children, number of metadata entries), then its children, then its
    metadata entries. */
module LicenseTree {

  datatype Option<T> = None | Some(value: T)

  datatype Node = Node(children: seq<Node>, metadata: seq<nat>)

  /** The number list a node is written as. */
  function Serialize(n: Node): seq<nat>
    decreases n, 1
  {
    [|n.children|, |n.metadata|] + SerializeAll(n.children) + n.metadata
  }

  function SerializeAll(ns: seq<Node>): seq<nat>
    decreases ns, 0
  {
    if ns == [] then [] else Serialize(ns[0]) + SerializeAll(ns[1..])
  }

  /** One node read from the head of `s`, and what is left of `s` after it: the header, then the
      children one after another, then the metadata. None as soon as the numbers run out. */
  function ParseNode(s: seq<nat>): (r: Option<(Node, seq<nat>)>)
    ensures r.Some? ==> |r.value.1| < |s|
    decreases |s|, 0
  {
    if |s| < 2 then None
    else
      match ParseChildren(s[2..], s[0])
      case None => None
      case Some((children, rest)) =>
        if |rest| < s[1] then None else Some((Node(children, rest[..s[1]]), rest[s[1]..]))
  }

  /** `k` nodes read one after another from the head of `s`. */
  function ParseChildren(s: seq<nat>, k: nat): (r: Option<(seq<Node>, seq<nat>)>)
    ensures r.Some? ==> |r.value.1| <= |s| && |r.value.0| == k
    decreases |s|, 1, k
  {
    if k == 0 then Some(([], s))
    else
      match ParseNode(s)
      case None => None
      case Some((n, rest)) =>
        match ParseChildren(rest, k - 1)
        case None => None
        case Some((ns, rest')) => Some(([n] + ns, rest'))
  }

  /** Children already read, put in front of the outcome of reading the remaining ones. */
  function Prepend(done: seq<Node>, r: Option<(seq<Node>, seq<nat>)>): Option<(seq<Node>, seq<nat>)>
  {
    match r
    case None => None
    case Some((ns, rest)) => Some((done + ns, rest))
  }

  /** The source's reader over a shared iterator, here the numbers not yet consumed: it reads the
      header, calls itself once per child, then takes the metadata entries one by one. */
  method FromIterPart(input: seq<nat>) returns (r: Option<(Node, seq<nat>)>)
    ensures r == ParseNode(input)
    decreases |input|, 0
  {
    if |input| < 2 {
      return None;
    }
    var childCount, metaCount := input[0], input[1];
    var iter := input[2..];
    var children: seq<Node> := [];
    var i := 0;
    PrependNothing(ParseChildren(iter, childCount));
    while i < childCount
      invariant 0 <= i <= childCount
      invariant |iter| <= |input| - 2
      invariant |children| == i
      invariant ParseChildren(input[2..], childCount) == Prepend(children, ParseChildren(iter, childCount - i))
    {
      var child := FromIterPart(iter);
      if child.None? {
        return None;
      }
      var c := child.value.0;
      ghost var before := iter;
      iter := child.value.1;
      PrependStep(children, c, ParseChildren(iter, childCount - i - 1));
      assert ParseChildren(before, childCount - i) == Prepend([c], ParseChildren(iter, childCount - i - 1));
      children := children + [c];
      i := i + 1;
    }
    assert children + [] == children;
    assert ParseChildren(input[2..], childCount) == Some((children, iter));
    var metadata: seq<nat> := [];
    ghost var start := iter;
    var j := 0;
    while j < metaCount
      invariant 0 <= j <= metaCount
      invariant j <= |start|
      invariant metadata == start[..j] && iter == start[j..]
    {
      if iter == [] {
        return None;
      }
      metadata := metadata + [iter[0]];
      iter := iter[1..];
      j := j + 1;
    }
    r := Some((Node(children, metadata), iter));
  }

  lemma PrependNothing(x: Option<(seq<Node>, seq<nat>)>)
    ensures Prepend([], x) == x
  {
    match x
    case None =>
    case Some((ns, rest)) => assert [] + ns == ns;
  }

  /** Putting `c` in front of the rest of the children, then `done` in front of that, is putting
      `done + [c]` in front. */
  lemma PrependStep(done: seq<Node>, c: Node, x: Option<(seq<Node>, seq<nat>)>)
    ensures Prepend(done, Prepend([c], x)) == Prepend(done + [c], x)
  {
    match x
    case None =>
    case Some((ns, rest)) => assert done + ([c] + ns) == (done + [c]) + ns;
  }

  /** The root node, which must use up the whole input; None where the source's final `unwrap`
      panics. */
  function ParseRootNode(input: seq<nat>): Option<Node>
  {
    match ParseNode(input)
    case Some((n, rest)) => if rest == [] then Some(n) else None
    case None => None
  }

  /** Reading a written node gives it back, with whatever followed it left over. */
  lemma {:induction false} ParseSerialize(n: Node, rest: seq<nat>)
    ensures ParseNode(Serialize(n) + rest) == Some((n, rest))
    decreases n, 1
  {
    var s := Serialize(n) + rest;
    var body := SerializeAll(n.children) + n.metadata + rest;
    assert s == [|n.children|, |n.metadata|] + body;
    assert s[2..] == SerializeAll(n.children) + (n.metadata + rest);
    ParseSerializeAll(n.children, n.metadata + rest);
    var tail := n.metadata + rest;
    assert tail[..|n.metadata|] == n.metadata && tail[|n.metadata|..] == rest;
  }

  lemma {:induction false} ParseSerializeAll(ns: seq<Node>, rest: seq<nat>)
    ensures ParseChildren(SerializeAll(ns) + rest, |ns|) == Some((ns, rest))
    decreases ns, 0
  {
    if ns == [] {
      assert SerializeAll(ns) + rest == rest;
    } else {
      var tail := SerializeAll(ns[1..]) + rest;
      assert SerializeAll(ns) + rest == Serialize(ns[0]) + tail;
      ParseSerialize(ns[0], tail);
      ParseSerializeAll(ns[1..], rest);
      assert [ns[0]] + ns[1..] == ns;
    }
  }

  /** Conversely, whatever the reader accepts is exactly the text of the node it returns,
      followed by what it leaves over: it consumes the header, the children and the metadata and
      nothing else. */
  lemma {:induction false} ParsedIsSerialized(s: seq<nat>)
    requires ParseNode(s).Some?
    ensures s == Serialize(ParseNode(s).value.0) + ParseNode(s).value.1
    decreases |s|, 0
  {
    var k, m := s[0], s[1];
    var (children, rest) := ParseChildren(s[2..], k).value;
    ChildrenAreSerialized(s[2..], k);
    var n := ParseNode(s).value.0;
    assert n == Node(children, rest[..m]);
    assert rest == rest[..m] + rest[m..];
    assert s == [k, m] + s[2..];
  }

  lemma {:induction false} ChildrenAreSerialized(s: seq<nat>, k: nat)
    requires ParseChildren(s, k).Some?
    ensures s == SerializeAll(ParseChildren(s, k).value.0) + ParseChildren(s, k).value.1
    decreases |s|, 1, k
  {
    if k > 0 {
      var (n, rest) := ParseNode(s).value;
      ParsedIsSerialized(s);
      ChildrenAreSerialized(rest, k - 1);
      var (ns, rest') := ParseChildren(rest, k - 1).value;
      assert ([n] + ns)[0] == n && ([n] + ns)[1..] == ns;
    }
  }

  /** The root is read exactly when the input is the text of that one node and nothing more. */
  lemma ParseRootNodeIff(input: seq<nat>, n: Node)
    ensures ParseRootNode(input) == Some(n) <==> input == Serialize(n)
  {
    if input == Serialize(n) {
      ParseSerialize(n, []);
      assert Serialize(n) + [] == Serialize(n);
    }
    if ParseRootNode(input) == Some(n) {
      ParsedIsSerialized(input);
      assert input == Serialize(n) + [];
    }
  }

  function Sum(s: seq<nat>): nat
  {
    if s == [] then 0 else s[0] + Sum(s[1..])
  }

  /** The first star: a node's own metadata plus the metadata sums of its children. */
  function MetadataSum(n: Node): (r: nat)
    ensures r >= Sum(n.metadata)
    ensures forall k :: 0 <= k < |n.children| ==> r >= MetadataSum(n.children[k])
    decreases n, 1
  {
    Sum(n.metadata) + MetadataSums(n.children)
  }

  function MetadataSums(ns: seq<Node>): (r: nat)
    ensures forall k :: 0 <= k < |ns| ==> r >= MetadataSum(ns[k])
    decreases ns, 0
  {
    if ns == [] then 0 else MetadataSum(ns[0]) + MetadataSums(ns[1..])
  }

  /** All metadata entries of the tree, in the order they appear in the input. */
  function AllMetadata(n: Node): seq<nat>
    decreases n, 1
  {
    AllMetadataOf(n.children) + n.metadata
  }

  function AllMetadataOf(ns: seq<Node>): seq<nat>
    decreases ns, 0
  {
    if ns == [] then [] else AllMetadata(ns[0]) + AllMetadataOf(ns[1..])
  }

  lemma {:induction false} SumConcat(a: seq<nat>, b: seq<nat>)
    ensures Sum(a + b) == Sum(a) + Sum(b)
  {
    if a == [] {
      assert a + b == b;
    } else {
      assert (a + b)[1..] == a[1..] + b;
      SumConcat(a[1..], b);
    }
  }

  /** The recursive metadata sum is the sum of every metadata entry in the tree. */
  lemma {:induction false} MetadataSumIsTotal(n: Node)
    ensures MetadataSum(n) == Sum(AllMetadata(n))
    decreases n, 1
  {
    MetadataSumsIsTotal(n.children);
    SumConcat(AllMetadataOf(n.children), n.metadata);
  }

  lemma {:induction false} MetadataSumsIsTotal(ns: seq<Node>)
    ensures MetadataSums(ns) == Sum(AllMetadataOf(ns))
    decreases ns, 0
  {
    if ns != [] {
      MetadataSumIsTotal(ns[0]);
      MetadataSumsIsTotal(ns[1..]);
      SumConcat(AllMetadata(ns[0]), AllMetadataOf(ns[1..]));
    }
  }

  /** The second star. A leaf is worth its metadata sum; any other node is worth the sum, over its
      metadata entries `v`, of the value of child `v - 1`, where an entry naming no child adds 0.
      A 0 entry makes the source's `v - 1` underflow, which panics in a debug build: None. All
      child values are computed before the entries are looked at. */
  function Value(n: Node): (r: Option<nat>)
    ensures r.Some? ==> forall k :: 0 <= k < |n.children| ==> Value(n.children[k]).Some?
    decreases n, 1
  {
    if n.children == [] then Some(Sum(n.metadata))
    else
      match Values(n.children)
      case None => None
      case Some(vals) => Select(vals, n.metadata)
  }

  function Values(ns: seq<Node>): (r: Option<seq<nat>>)
    ensures r.Some? ==> |r.value| == |ns|
    ensures r.Some? ==> forall k :: 0 <= k < |ns| ==> Value(ns[k]) == Some(r.value[k])
    decreases ns, 0
  {
    if ns == [] then Some([])
    else
      match (Value(ns[0]), Values(ns[1..]))
      case (Some(v), Some(vs)) => Some([v] + vs)
      case _ => None
  }

  /** The sum of the values the metadata entries select. */
  function Select(vals: seq<nat>, meta: seq<nat>): Option<nat>
  {
    if meta == [] then Some(0)
    else if meta[0] == 0 then None
    else
      match Select(vals, meta[1..])
      case None => None
      case Some(t) => Some((if meta[0] - 1 < |vals| then vals[meta[0] - 1] else 0) + t)
  }

  /** A node on which the source's second star panics: a node with children and a 0 metadata
      entry, here or anywhere below. */
  ghost predicate Underflows(n: Node)
    decreases n
  {
    (n.children != [] && 0 in n.metadata) ||
    exists i :: 0 <= i < |n.children| && Underflows(n.children[i])
  }

  /** The value is defined exactly when no node of the tree underflows. */
  lemma {:induction false} ValueDefined(n: Node)
    ensures Value(n).Some? <==> !Underflows(n)
    decreases n, 1
  {
    ValuesDefined(n.children);
    if n.children != [] && Values(n.children).Some? {
      SelectDefined(Values(n.children).value, n.metadata);
    }
  }

  lemma {:induction false} ValuesDefined(ns: seq<Node>)
    ensures Values(ns).Some? <==> forall i :: 0 <= i < |ns| ==> !Underflows(ns[i])
    decreases ns, 0
  {
    if ns != [] {
      ValueDefined(ns[0]);
      ValuesDefined(ns[1..]);
      assert forall i :: 1 <= i < |ns| ==> ns[i] == ns[1..][i - 1];
    }
  }

  lemma {:induction false} SelectDefined(vals: seq<nat>, meta: seq<nat>)
    ensures Select(vals, meta).Some? <==> 0 !in meta
  {
    if meta != [] {
      SelectDefined(vals, meta[1..]);
      assert meta == [meta[0]] + meta[1..];
    }
  }

  /** Entries that name no child add nothing: a node whose entries all lie beyond its children
      is worth 0, once its children have values. */
  lemma {:induction false} SelectOutOfRange(vals: seq<nat>, meta: seq<nat>)
    requires forall i :: 0 <= i < |meta| ==> meta[i] > |vals|
    ensures Select(vals, meta) == Some(0)
  {
    if meta != [] {
      SelectOutOfRange(vals, meta[1..]);
    }
  }

  /** Repeating an entry counts the selected child once more. */
  lemma SelectRepeat(vals: seq<nat>, v: nat, meta: seq<nat>)
    requires 1 <= v <= |vals|
    requires Select(vals, meta).Some?
    ensures Select(vals, [v] + meta) == Some(vals[v - 1] + Select(vals, meta).value)
  {
    assert ([v] + meta)[1..] == meta;
  }
}
