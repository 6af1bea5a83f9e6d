/** The stream-processing puzzle: nested groups `{...}` separated by commas, holding garbage
    `<...>` in which `!` cancels the next character. Groups score their nesting depth; garbage
    counts its characters that are neither cancelled nor cancelling. */
module Stream {

  datatype Option<T> = None | Some(value: T)

  /** The result of parsing garbage: the characters counted and the stream left after the `>`. */
  datatype Garbage = Garbage(count: nat, rest: string)

  /** The result of parsing a group: its score, its garbage and the stream left after the `}`. */
  datatype GroupResult = GroupResult(score: int, garbage: int, rest: string)

  /** Garbage at the head of `s` (the `<` already consumed), with `count` characters counted so
      far. None where the source's `unwrap` panics at the end of the stream. */
  function GarbageFrom(s: string, count: nat): (r: Option<Garbage>)
    ensures r.Some? ==> |r.value.rest| < |s| && r.value.count >= count
    decreases |s|
  {
    if s == [] then None
    else if s[0] == '>' then Some(Garbage(count, s[1..]))
    else if s[0] == '!' then (if |s| < 2 then None else GarbageFrom(s[2..], count))
    else GarbageFrom(s[1..], count + 1)
  }

  /** The rest of a group at the head of `s` (the `{` already consumed), with the score and
      garbage accumulated so far; None at the end of the stream or on a character that cannot
      appear in a group, where the source panics. */
  function GroupFrom(s: string, depth: int, score: int, garbage: int): (r: Option<GroupResult>)
    ensures r.Some? ==> |r.value.rest| < |s|
    decreases |s|
  {
    if s == [] then None
    else if s[0] == '}' then Some(GroupResult(score, garbage, s[1..]))
    else if s[0] == '{' then
      match GroupFrom(s[1..], depth + 1, depth + 1, 0)
      case None => None
      case Some(inner) => GroupFrom(inner.rest, depth, score + inner.score, garbage + inner.garbage)
    else if s[0] == '<' then
      match GarbageFrom(s[1..], 0)
      case None => None
      case Some(g) => GroupFrom(g.rest, depth, score, garbage + g.count)
    else if s[0] == ',' then GroupFrom(s[1..], depth, score, garbage)
    else None
  }

  /** The source's garbage loop. The character iterator it advances is modelled by the stream
      still unread, which the result hands back. */
  method ParseGarbage(stream: string) returns (r: Option<Garbage>)
    ensures r == GarbageFrom(stream, 0)
  {
    var garbage := 0;
    var s := stream;
    while true
      invariant GarbageFrom(stream, 0) == GarbageFrom(s, garbage)
      decreases |s|
    {
      if s == [] {
        return None;
      }
      var c := s[0];
      s := s[1..];
      if c == '>' {
        return Some(Garbage(garbage, s));
      } else if c == '!' {
        if s == [] {
          return None;
        }
        s := s[1..];
      } else {
        garbage := garbage + 1;
      }
    }
  }

  /** The source's group loop at nesting `depth`; nested groups are parsed by a recursive call
      one level deeper on the same stream. */
  method ParseGroup(stream: string, depth: int) returns (r: Option<GroupResult>)
    ensures r == GroupFrom(stream, depth, depth, 0)
    decreases |stream|
  {
    var score, garbage := depth, 0;
    var s := stream;
    while true
      invariant |s| <= |stream|
      invariant GroupFrom(stream, depth, depth, 0) == GroupFrom(s, depth, score, garbage)
      decreases |s|
    {
      if s == [] {
        return None;
      }
      var c := s[0];
      s := s[1..];
      if c == '}' {
        return Some(GroupResult(score, garbage, s));
      } else if c == '{' {
        var inner := ParseGroup(s, depth + 1);
        if inner.None? {
          return None;
        }
        score, garbage, s := score + inner.value.score, garbage + inner.value.garbage, inner.value.rest;
      } else if c == '<' {
        var g := ParseGarbage(s);
        if g.None? {
          return None;
        }
        garbage, s := garbage + g.value.count, g.value.rest;
      } else if c != ',' {
        return None;
      }
    }
  }

  /** The whole stream: it must open with `{` (the source asserts it); the outermost group has
      depth 1. Returns the total score and the total garbage; whatever follows is ignored. */
  method ParseFullGroup(input: string) returns (r: Option<(int, int)>)
    ensures input == [] || input[0] != '{' ==> r == None
    ensures input != [] && input[0] == '{' ==>
      r == match GroupFrom(input[1..], 1, 1, 0) case None => None case Some(g) => Some((g.score, g.garbage))
  {
    if input == [] || input[0] != '{' {
      return None;
    }
    var g := ParseGroup(input[1..], 1);
    r := match g case None => None case Some(g) => Some((g.score, g.garbage));
  }

  /** A character that can stand for itself inside garbage. */
  type PlainChar = c: char | c != '>' && c != '!' witness 'a'

  /** One character of garbage: an ordinary one, or one cancelled by a preceding `!`. */
  datatype GarbageChar = Plain(p: PlainChar) | Cancelled(c: char)

  /** The items of a group: nested groups and pieces of garbage. */
  datatype Item = Sub(group: Group) | Junk(chars: seq<GarbageChar>)
  datatype Group = Group(items: seq<Item>)

  function RenderGarbage(g: seq<GarbageChar>): string
  {
    if g == [] then ""
    else (match g[0] case Plain(p) => [p as char] case Cancelled(c) => ['!', c]) + RenderGarbage(g[1..])
  }

  /** The text of a group: its items between braces, separated by commas. */
  function RenderGroup(g: Group): string
    decreases g, 2
  {
    "{" + RenderItems(g.items) + "}"
  }

  function RenderItems(items: seq<Item>): string
    decreases items, 1
  {
    if items == [] then "" else RenderItem(items[0]) + RenderTail(items[1..])
  }

  /** The items after the first, each preceded by its comma. */
  function RenderTail(items: seq<Item>): string
    decreases items, 0
  {
    if items == [] then "" else "," + RenderItem(items[0]) + RenderTail(items[1..])
  }

  function RenderItem(it: Item): string
    decreases it
  {
    match it
    case Sub(g) => RenderGroup(g)
    case Junk(cs) => "<" + RenderGarbage(cs) + ">"
  }

  /** The characters of garbage that are counted. */
  function PlainCount(g: seq<GarbageChar>): nat
  {
    if g == [] then 0 else (if g[0].Plain? then 1 else 0) + PlainCount(g[1..])
  }

  /** A group's score: its depth plus the scores of the groups it contains, one level deeper. */
  function Score(g: Group, depth: int): (r: int)
    ensures depth >= 0 ==> r >= depth
    decreases g, 2
  {
    depth + ItemsScore(g.items, depth + 1)
  }

  function ItemsScore(items: seq<Item>, depth: int): (r: int)
    ensures depth >= 0 ==> r >= 0
    decreases items, 0
  {
    if items == [] then 0
    else ItemScore(items[0], depth) + ItemsScore(items[1..], depth)
  }

  function ItemScore(it: Item, depth: int): (r: int)
    ensures depth >= 0 ==> r >= 0
    decreases it
  {
    match it
    case Sub(g) => Score(g, depth)
    case Junk(_) => 0
  }

  /** The garbage counted anywhere inside a group. */
  function GarbageTotal(g: Group): nat
    decreases g, 1
  {
    ItemsGarbage(g.items)
  }

  function ItemsGarbage(items: seq<Item>): nat
    decreases items, 0
  {
    if items == [] then 0
    else ItemGarbage(items[0]) + ItemsGarbage(items[1..])
  }

  function ItemGarbage(it: Item): nat
    decreases it
  {
    match it
    case Sub(g) => GarbageTotal(g)
    case Junk(cs) => PlainCount(cs)
  }

  /** Parsing rendered garbage counts its plain characters and hands back what follows its `>`. */
  lemma {:induction false} GarbageRoundTrip(g: seq<GarbageChar>, rest: string, count: nat)
    ensures GarbageFrom(RenderGarbage(g) + ">" + rest, count) == Some(Garbage(count + PlainCount(g), rest))
    decreases g
  {
    var s := RenderGarbage(g) + ">" + rest;
    if g == [] {
      assert s == ">" + rest;
    } else {
      var h := match g[0] case Plain(p) => [p as char] case Cancelled(c) => ['!', c];
      var t := RenderGarbage(g[1..]) + ">" + rest;
      assert s == h + t;
      assert s[|h|..] == t;
      GarbageRoundTrip(g[1..], rest, count + (if g[0].Plain? then 1 else 0));
    }
  }

  /** Parsing the body of a rendered group (after its `{`) yields its score and garbage and hands
      back what follows its `}`. */
  lemma GroupRoundTrip(g: Group, rest: string, depth: int)
    ensures GroupFrom(RenderGroup(g)[1..] + rest, depth, depth, 0) ==
      Some(GroupResult(Score(g, depth), GarbageTotal(g), rest))
    decreases g, 2
  {
    assert RenderGroup(g)[1..] + rest == RenderItems(g.items) + "}" + rest;
    ItemsRoundTrip(g.items, rest, depth, depth, 0);
  }

  /** Parsing rendered items followed by `}` adds their scores and garbage to the accumulators. */
  lemma ItemsRoundTrip(items: seq<Item>, rest: string, depth: int, score: int, garbage: int)
    ensures GroupFrom(RenderItems(items) + "}" + rest, depth, score, garbage) ==
      Some(GroupResult(score + ItemsScore(items, depth + 1), garbage + ItemsGarbage(items), rest))
    decreases items, 1
  {
    if items == [] {
      assert RenderItems(items) + "}" + rest == "}" + rest;
    } else {
      var it := items[0];
      var t := RenderTail(items[1..]) + "}" + rest;
      assert RenderItems(items) == RenderItem(it) + RenderTail(items[1..]);
      assert RenderItems(items) + "}" + rest == RenderItem(it) + t;
      ItemRoundTrip(it, t, depth, score, garbage);
      TailRoundTrip(items[1..], rest, depth, score + ItemScore(it, depth + 1), garbage + ItemGarbage(it));
    }
  }

  /** The comma-led items after the first, followed by `}`, are parsed the same way. */
  ghost predicate TailParses(items: seq<Item>, rest: string, depth: int, score: int, garbage: int) {
    GroupFrom(RenderTail(items) + "}" + rest, depth, score, garbage) ==
      Some(GroupResult(score + ItemsScore(items, depth + 1), garbage + ItemsGarbage(items), rest))
  }

  lemma {:induction false} TailRoundTrip(items: seq<Item>, rest: string, depth: int, score: int, garbage: int)
    ensures TailParses(items, rest, depth, score, garbage)
    decreases items, 0
  {
    if items == [] {
      assert RenderTail(items) + "}" + rest == "}" + rest;
      CloseStep(rest, depth, score, garbage);
    } else {
      var it := items[0];
      var t := RenderTail(items[1..]) + "}" + rest;
      var score', garbage' := score + ItemScore(it, depth + 1), garbage + ItemGarbage(it);
      ItemRoundTrip(it, t, depth, score, garbage);
      TailRoundTrip(items[1..], rest, depth, score', garbage');
      TailStep(items, rest, depth, score, garbage);
    }
  }

  /** One comma-led item parsed, then the rest of the tail: the whole tail is parsed. */
  lemma TailStep(items: seq<Item>, rest: string, depth: int, score: int, garbage: int)
    requires items != []
    requires var t := RenderTail(items[1..]) + "}" + rest;
      GroupFrom(RenderItem(items[0]) + t, depth, score, garbage) ==
        GroupFrom(t, depth, score + ItemScore(items[0], depth + 1), garbage + ItemGarbage(items[0]))
    requires TailParses(items[1..], rest, depth, score + ItemScore(items[0], depth + 1), garbage + ItemGarbage(items[0]))
    ensures TailParses(items, rest, depth, score, garbage)
  {
    TailSplit(items, rest);
    CommaStep(RenderItem(items[0]) + (RenderTail(items[1..]) + "}" + rest), depth, score, garbage);
  }

  /** The `}` closing a group ends it with the accumulators as they are. */
  lemma CloseStep(rest: string, depth: int, score: int, garbage: int)
    ensures GroupFrom("}" + rest, depth, score, garbage) == Some(GroupResult(score, garbage, rest))
  {
    assert ("}" + rest)[1..] == rest;
  }

  /** A non-empty tail renders as a comma, its first item and the rest of the tail. */
  lemma TailSplit(items: seq<Item>, rest: string)
    requires items != []
    ensures RenderTail(items) + "}" + rest == [','] + (RenderItem(items[0]) + (RenderTail(items[1..]) + "}" + rest))
  {
  }

  /** A comma between items is skipped. */
  lemma CommaStep(u: string, depth: int, score: int, garbage: int)
    ensures GroupFrom([','] + u, depth, score, garbage) == GroupFrom(u, depth, score, garbage)
  {
    assert ([','] + u)[1..] == u;
  }

  /** One rendered item, followed by more of the group, is parsed as one step of the group loop. */
  lemma ItemRoundTrip(it: Item, t: string, depth: int, score: int, garbage: int)
    ensures GroupFrom(RenderItem(it) + t, depth, score, garbage) ==
      GroupFrom(t, depth, score + ItemScore(it, depth + 1), garbage + ItemGarbage(it))
    decreases it
  {
    var s := RenderItem(it) + t;
    match it
    case Sub(g) =>
      assert s == RenderGroup(g) + t;
      assert s[0] == '{' && s[1..] == RenderGroup(g)[1..] + t;
      GroupRoundTrip(g, t, depth + 1);
    case Junk(cs) =>
      assert s == "<" + (RenderGarbage(cs) + ">" + t);
      assert s[1..] == RenderGarbage(cs) + ">" + t;
      GarbageRoundTrip(cs, t, 0);
  }

  /** A whole rendered stream, whatever follows it, scores the outermost group at depth 1 and
      counts all its garbage. */
  lemma FullRoundTrip(g: Group, rest: string)
    ensures var input := RenderGroup(g) + rest;
      input != [] && input[0] == '{' &&
      GroupFrom(input[1..], 1, 1, 0) == Some(GroupResult(Score(g, 1), GarbageTotal(g), rest))
  {
    var input := RenderGroup(g) + rest;
    assert input[1..] == RenderGroup(g)[1..] + rest;
    GroupRoundTrip(g, rest, 1);
  }
}
