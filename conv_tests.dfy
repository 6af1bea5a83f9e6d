/** The generator that turns a day's fixture files into a Rust test module: a two-phase naming
    table (register names, then resolve collisions with suffixes), a cache that deduplicates the
    fixture texts and renders them as string constants, and the file-name rules that say which
    fixtures are inputs and which are expected outputs. */
module ConvTests {

  datatype Option<T> = None | Some(value: T)

  /** A Python exception is an `Err` with its message. */
  datatype Result<T> = Ok(value: T) | Err(msg: string)

  // ---------------------------------------------------------------------------------------
  // Python string primitives, for ASCII text

  predicate IsAsciiDigit(c: char)
  {
    '0' <= c <= '9'
  }

  /** `str.isdigit`: non-empty and all digits. */
  predicate IsDigits(s: string)
  {
    |s| > 0 && forall i :: 0 <= i < |s| ==> IsAsciiDigit(s[i])
  }

  function UpperChar(c: char): char
  {
    if 'a' <= c <= 'z' then (c as int - 32) as char else c
  }

  function LowerChar(c: char): char
  {
    if 'A' <= c <= 'Z' then (c as int + 32) as char else c
  }

  /** `str.upper` on ASCII letters. */
  function Upper(s: string): (r: string)
    ensures |r| == |s| && forall i :: 0 <= i < |s| ==> r[i] == UpperChar(s[i])
  {
    seq(|s|, i requires 0 <= i < |s| => UpperChar(s[i]))
  }

  /** `str.lower` on ASCII letters. */
  function Lower(s: string): (r: string)
    ensures |r| == |s| && forall i :: 0 <= i < |s| ==> r[i] == LowerChar(s[i])
  {
    seq(|s|, i requires 0 <= i < |s| => LowerChar(s[i]))
  }

  /** The characters `str.isspace` accepts. */
  predicate IsSpace(c: char)
  {
    c == ' ' || '\t' <= c <= '\r' || '\U{001C}' <= c <= '\U{001F}' || c == '\U{0085}' ||
    c == '\U{00A0}' || c == '\U{1680}' || '\U{2000}' <= c <= '\U{200A}' || c == '\U{2028}' ||
    c == '\U{2029}' || c == '\U{202F}' || c == '\U{205F}' || c == '\U{3000}'
  }

  /** `str.rstrip()`: the longest prefix that does not end in whitespace. */
  function RStrip(s: string): (r: string)
    ensures |r| <= |s| && r == s[..|r|]
    ensures r == [] || !IsSpace(r[|r| - 1])
    ensures forall i :: |r| <= i < |s| ==> IsSpace(s[i])
  {
    if s != [] && IsSpace(s[|s| - 1]) then RStrip(s[..|s| - 1]) else s
  }

  /** The characters `str.splitlines` breaks at (`\r\n` counts as one break). */
  predicate IsLineBreak(c: char)
  {
    '\n' <= c <= '\r' || '\U{001C}' <= c <= '\U{001E}' || c == '\U{0085}' ||
    c == '\U{2028}' || c == '\U{2029}'
  }

  /** The index of the first line break of `s` at or after `i`, or `|s|`. */
  function BreakFrom(s: string, i: nat): (r: nat)
    requires i <= |s|
    ensures i <= r <= |s|
    ensures r < |s| ==> IsLineBreak(s[r])
    ensures forall j :: i <= j < r ==> !IsLineBreak(s[j])
    decreases |s| - i
  {
    if i == |s| || IsLineBreak(s[i]) then i else BreakFrom(s, i + 1)
  }

  /** `str.splitlines()`: the lines without their breaks; a break at the very end does not start
      another line. */
  function SplitLines(s: string): (lines: seq<string>)
    ensures forall k, j :: 0 <= k < |lines| && 0 <= j < |lines[k]| ==> !IsLineBreak(lines[k][j])
    decreases |s|
  {
    if s == [] then []
    else
      var b := BreakFrom(s, 0);
      if b == |s| then [s]
      else
        var width := if s[b] == '\r' && b + 1 < |s| && s[b + 1] == '\n' then 2 else 1;
        [s[..b]] + SplitLines(s[b + width..])
  }

  /** `sub` occurs in `s` starting at `i`. */
  predicate OccursAt(s: string, sub: string, i: nat)
  {
    i + |sub| <= |s| && s[i..i + |sub|] == sub
  }

  /** `sub in s` for strings. */
  predicate Contains(s: string, sub: string)
  {
    exists i: nat :: i <= |s| && OccursAt(s, sub, i)
  }

  predicate EndsWith(s: string, suffix: string)
  {
    |suffix| <= |s| && s[|s| - |suffix|..] == suffix
  }

  /** `str.removesuffix` where the suffix is known to be present. */
  function RemoveSuffix(s: string, suffix: string): (r: string)
    requires EndsWith(s, suffix)
    ensures r + suffix == s
  {
    s[..|s| - |suffix|]
  }

  function NatToString(n: nat): (r: string)
    ensures r != [] && forall i :: 0 <= i < |r| ==> IsAsciiDigit(r[i])
  {
    if n < 10 then [('0' as int + n) as char] else NatToString(n / 10) + [('0' as int + n % 10) as char]
  }

  // ---------------------------------------------------------------------------------------
  // Tags

  /** The text a tag's `str` gives: an error before the tag is resolved, and also when it was
      resolved to the empty name, which Python treats as false. */
  function TagText(resolved: Option<string>): (r: Result<string>)
    ensures r.Ok? <==> resolved.Some? && resolved.value != ""
    ensures r.Ok? ==> r.value == resolved.value
  {
    if resolved.Some? && resolved.value != "" then Ok(resolved.value)
    else Err("attempt to use tag before resolution")
  }

  /** A name that is filled in later; every holder of the same tag sees the name once it is
      resolved. */
  class Tag {
    var resolved: Option<string>

    constructor(init: Option<string>)
      ensures resolved == init
    {
      resolved := init;
    }

    function Str(): Result<string>
      reads this
    {
      TagText(resolved)
    }
  }

  // ---------------------------------------------------------------------------------------
  // The naming table

  /** The key a name is registered under: an all-digit name gets the prefix in front. */
  function KeyOf(name: string, numPrefix: string): (k: string)
    ensures IsDigits(name) ==> k == numPrefix + name
    ensures !IsDigits(name) ==> k == name
  {
    if IsDigits(name) then numPrefix + name else name
  }

  /** The key order after registering under `key`: a key seen for the first time goes last. */
  function KeysAfter<T>(keys: seq<string>, names: map<string, seq<(Tag, T)>>, key: string): seq<string>
  {
    if key in names then keys else keys + [key]
  }

  /** The table after appending `entry` to the list under `key`. */
  function NamesAfter<T>(names: map<string, seq<(Tag, T)>>, key: string, entry: (Tag, T)): map<string, seq<(Tag, T)>>
  {
    names[key := (if key in names then names[key] else []) + [entry]]
  }

  /** The entries of the table, key by key in the given order, each key's list in order. */
  function EntriesOf<T>(keys: seq<string>, names: map<string, seq<(Tag, T)>>): seq<(Tag, T)>
  {
    if keys == [] then []
    else (if keys[0] in names then names[keys[0]] else []) + EntriesOf(keys[1..], names)
  }

  /** The most entries one key may hold while its suffix letters stay below the surrogate range
      of `char`. */
  const MaxEntries: nat := 50000

  /** The first suffix letter for a key with several entries: `1` unless the key already ends in
      a digit, then `A` if the key starts upper-case, else `a`. */
  function FirstLetter(k: string): (c: char)
    requires k != []
    ensures !IsAsciiDigit(k[|k| - 1]) ==> c == '1'
    ensures IsAsciiDigit(k[|k| - 1]) && 'A' <= k[0] <= 'Z' ==> c == 'A'
    ensures IsAsciiDigit(k[|k| - 1]) && !('A' <= k[0] <= 'Z') ==> c == 'a'
  {
    if !IsAsciiDigit(k[|k| - 1]) then '1' else if 'A' <= k[0] <= 'Z' then 'A' else 'a'
  }

  /** The name the `i`-th of `n` entries under key `k` resolves to. */
  function ResolvedName(k: string, i: nat, n: nat): string
    requires i < n <= MaxEntries
    requires n == 1 || k != []
  {
    if n == 1 then k else k + [(FirstLetter(k) as int + i) as char]
  }

  /** Resolution fails (the source indexes the last character of an empty key) at the first key
      that is empty and has several entries; this is its position, or `|keys|` if there is none. */
  function FirstUnresolvable<T>(keys: seq<string>, names: map<string, seq<(Tag, T)>>): (p: nat)
    ensures p <= |keys|
    ensures forall q :: 0 <= q < p ==> !(keys[q] == [] && keys[q] in names && |names[keys[q]]| >= 2)
    ensures p < |keys| ==> keys[p] == [] && keys[p] in names && |names[keys[p]]| >= 2
  {
    if keys == [] then 0
    else if keys[0] == [] && keys[0] in names && |names[keys[0]]| >= 2 then 0
    else 1 + FirstUnresolvable(keys[1..], names)
  }

  /** The keys are those of the dictionary, each listed once, and no list is empty. */
  ghost predicate KeysMatch<T>(keys: seq<string>, names: map<string, seq<(Tag, T)>>)
  {
    (forall i, j :: 0 <= i < j < |keys| ==> keys[i] != keys[j]) &&
    (forall i :: 0 <= i < |keys| ==> keys[i] in names) &&
    (forall k :: k in names ==> k in keys) &&
    (forall k :: k in names ==> names[k] != [])
  }

  /** No tag is registered twice, under one key or under two. */
  ghost predicate DistinctTags<T>(names: map<string, seq<(Tag, T)>>)
  {
    forall k1, k2, i, j ::
      k1 in names && k2 in names && 0 <= i < |names[k1]| && 0 <= j < |names[k2]| && (k1 != k2 || i != j) ==>
        names[k1][i].0 != names[k2][j].0
  }

  /** Registering under `key` keeps the key list in step with the dictionary. */
  lemma RegisterKeepsKeys<T>(keys: seq<string>, names: map<string, seq<(Tag, T)>>, key: string, entry: (Tag, T))
    requires KeysMatch(keys, names)
    ensures KeysMatch(KeysAfter(keys, names, key), NamesAfter(names, key, entry))
  {
  }

  /** Appending a tag not yet in the table keeps all its tags distinct. */
  lemma RegisterKeepsDistinct<T>(names: map<string, seq<(Tag, T)>>, key: string, entry: (Tag, T))
    requires DistinctTags(names)
    requires forall k, i :: k in names && 0 <= i < |names[k]| ==> names[k][i].0 != entry.0
    ensures DistinctTags(NamesAfter(names, key, entry))
  {
  }

  /** The number of entries under `k`. */
  function Size<T>(names: map<string, seq<(Tag, T)>>, k: string): nat
  {
    if k in names then |names[k]| else 0
  }

  /** No key's list of `names` is more than `n` entries longer than in `names0`. */
  ghost predicate GrewBy<T>(names: map<string, seq<(Tag, T)>>, names0: map<string, seq<(Tag, T)>>, n: nat)
  {
    forall k :: Size(names, k) <= Size(names0, k) + n
  }

  /** Growth adds up over successive registrations. */
  lemma GrewByTrans<T>(a: map<string, seq<(Tag, T)>>, b: map<string, seq<(Tag, T)>>, c: map<string, seq<(Tag, T)>>,
                       m: nat, n: nat)
    requires GrewBy(b, a, m) && GrewBy(c, b, n)
    ensures GrewBy(c, a, m + n)
  {
  }

  lemma GrewByMore<T>(names: map<string, seq<(Tag, T)>>, names0: map<string, seq<(Tag, T)>>, m: nat, n: nat)
    requires GrewBy(names, names0, m) && m <= n
    ensures GrewBy(names, names0, n)
  {
  }

  /** Registering grows one key's list by one entry and no other. */
  lemma SizeAfter<T>(names: map<string, seq<(Tag, T)>>, key: string, entry: (Tag, T))
    ensures forall k :: Size(NamesAfter(names, key, entry), k) <= Size(names, k) + 1
  {
  }

  /** Every entry the iterator yields is an entry of some key's list. */
  lemma {:induction false} EntriesIn<T>(keys: seq<string>, names: map<string, seq<(Tag, T)>>, i: nat)
    requires i < |EntriesOf(keys, names)|
    ensures exists k, j :: k in names && 0 <= j < |names[k]| && EntriesOf(keys, names)[i] == names[k][j]
  {
    var head := if keys[0] in names then names[keys[0]] else [];
    if i < |head| {
      assert EntriesOf(keys, names)[i] == names[keys[0]][i];
    } else {
      EntriesIn(keys[1..], names, i - |head|);
    }
  }

  /** The iterator over two blocks of keys yields the entries of the first block, then those of
      the second. */
  lemma {:induction false} EntriesAppend<T>(a: seq<string>, b: seq<string>, names: map<string, seq<(Tag, T)>>)
    ensures EntriesOf(a + b, names) == EntriesOf(a, names) + EntriesOf(b, names)
  {
    if a != [] {
      assert (a + b)[1..] == a[1..] + b;
      EntriesAppend(a[1..], b, names);
    } else {
      assert a + b == b;
    }
  }

  /** Changing the list of a key that is not iterated changes nothing the iterator yields. */
  lemma {:induction false} EntriesFrame<T>(keys: seq<string>, names: map<string, seq<(Tag, T)>>, key: string, v: seq<(Tag, T)>)
    requires key !in keys
    ensures EntriesOf(keys, names[key := v]) == EntriesOf(keys, names)
  {
    if keys != [] {
      EntriesFrame(keys[1..], names, key, v);
    }
  }

  /** Appending to the list of a key iterated once makes the iterator yield one more entry. */
  lemma {:induction false} EntriesBump<T>(keys: seq<string>, names: map<string, seq<(Tag, T)>>, key: string, e: (Tag, T))
    requires key in names && key in keys
    requires forall i, j :: 0 <= i < j < |keys| ==> keys[i] != keys[j]
    ensures |EntriesOf(keys, names[key := names[key] + [e]])| == |EntriesOf(keys, names)| + 1
  {
    if keys[0] == key {
      assert key !in keys[1..];
      EntriesFrame(keys[1..], names, key, names[key] + [e]);
    } else {
      EntriesBump(keys[1..], names, key, e);
    }
  }

  /** Registering one more entry makes the iterator yield one more entry. */
  lemma EntriesGrow<T>(keys: seq<string>, names: map<string, seq<(Tag, T)>>, key: string, e: (Tag, T))
    requires KeysMatch(keys, names)
    ensures |EntriesOf(KeysAfter(keys, names, key), NamesAfter(names, key, e))| == |EntriesOf(keys, names)| + 1
  {
    if key in names {
      EntriesBump(keys, names, key, e);
    } else {
      EntriesAppend(keys, [key], names[key := [e]]);
      EntriesFrame(keys, names, key, [e]);
      assert [] + [e] == [e];
    }
  }

  /** Every tag in a table. */
  function TagsIn<T>(names: map<string, seq<(Tag, T)>>): set<Tag>
  {
    set k, i | k in names && 0 <= i < |names[k]| :: names[k][i].0
  }

  /** Registering adds exactly the new tag to the table's tags. */
  lemma TagsAfter<T>(names: map<string, seq<(Tag, T)>>, key: string, entry: (Tag, T))
    ensures TagsIn(NamesAfter(names, key, entry)) == TagsIn(names) + {entry.0}
  {
    var after := NamesAfter(names, key, entry);
    forall t | t in TagsIn(names) ensures t in TagsIn(after) {
      var k, i :| k in names && 0 <= i < |names[k]| && names[k][i].0 == t;
      assert after[k][i] == names[k][i];
    }
    assert after[key][|after[key]| - 1] == entry;
    forall t | t in TagsIn(after) ensures t in TagsIn(names) + {entry.0} {
      var k, i :| k in after && 0 <= i < |after[k]| && after[k][i].0 == t;
      if k != key || i < |after[key]| - 1 {
        assert after[k][i] == names[k][i];
      }
    }
  }

  /** The tags of one list. */
  function TagsOf<T>(v: seq<(Tag, T)>): set<Tag>
  {
    set i | 0 <= i < |v| :: v[i].0
  }

  /** Names the tags of the list under key `k`: a single entry gets the key itself; several get
      the key followed by consecutive letters from the key's first letter on. An empty key with
      several entries is where the source fails: `false`, and nothing changes. */
  method ResolveKey<T>(k: string, v: seq<(Tag, T)>) returns (ok: bool)
    requires 1 <= |v| <= MaxEntries
    requires forall i, j :: 0 <= i < j < |v| ==> v[i].0 != v[j].0
    modifies TagsOf(v)
    ensures ok <==> !(k == [] && |v| >= 2)
    ensures ok ==> forall i :: 0 <= i < |v| ==> v[i].0.resolved == Some(ResolvedName(k, i, |v|))
    ensures !ok ==> forall i :: 0 <= i < |v| ==> v[i].0.resolved == old(v[i].0.resolved)
  {
    if |v| == 1 {
      v[0].0.resolved := Some(k);
      return true;
    }
    if k == [] {
      return false;
    }
    var letter := FirstLetter(k);
    var j := 0;
    while j < |v|
      invariant 0 <= j <= |v|
      invariant letter as int == FirstLetter(k) as int + j
      invariant forall i :: 0 <= i < j ==> v[i].0.resolved == Some(ResolvedName(k, i, |v|))
    {
      v[j].0.resolved := Some(k + [letter]);
      letter := (letter as int + 1) as char;
      j := j + 1;
    }
    return true;
  }

  /** The tags under one key are distinct from each other and from those under any other key. */
  lemma TagsApart<T>(keys: seq<string>, names: map<string, seq<(Tag, T)>>, p: nat)
    requires KeysMatch(keys, names) && DistinctTags(names) && p < |keys|
    ensures forall i, j :: 0 <= i < j < |names[keys[p]]| ==> names[keys[p]][i].0 != names[keys[p]][j].0
    ensures forall q, i :: 0 <= q < |keys| && q != p && 0 <= i < |names[keys[q]]| ==>
      names[keys[q]][i].0 !in TagsOf(names[keys[p]])
  {
  }

  /** A dictionary from keys to the tags registered under them, in registration order. */
  class NameCache<T> {
    /** The keys in insertion order, which is the order Python iterates the dictionary in. */
    var keys: seq<string>
    var names: map<string, seq<(Tag, T)>>

    ghost predicate Valid()
      reads this
    {
      KeysMatch(keys, names) && DistinctTags(names)
    }

    constructor()
      ensures Valid()
      ensures keys == [] && names == map[]
    {
      keys := [];
      names := map[];
    }

    /** Every tag in the table. */
    function Tags(): set<Tag>
      reads this
    {
      TagsIn(names)
    }

    /** The source's iterator: all entries, key by key. */
    function Entries(): seq<(Tag, T)>
      reads this
    {
      EntriesOf(keys, names)
    }

    /** Appends a fresh, unresolved tag with `value` under the key of `name`. */
    method Register(name: string, numPrefix: string, value: T) returns (tag: Tag)
      requires Valid()
      modifies this
      ensures Valid()
      ensures fresh(tag) && tag.resolved == None
      ensures keys == KeysAfter(old(keys), old(names), KeyOf(name, numPrefix))
      ensures names == NamesAfter(old(names), KeyOf(name, numPrefix), (tag, value))
      ensures Tags() == old(Tags()) + {tag}
    {
      var key := KeyOf(name, numPrefix);
      tag := new Tag(None);
      assert forall k, i :: k in names && 0 <= i < |names[k]| ==> names[k][i].0 != tag;
      RegisterKeepsKeys(keys, names, key, (tag, value));
      RegisterKeepsDistinct(names, key, (tag, value));
      TagsAfter(names, key, (tag, value));
      if key in names {
        names := names[key := names[key] + [(tag, value)]];
      } else {
        keys := keys + [key];
        names := names[key := [(tag, value)]];
        assert [] + [(tag, value)] == [(tag, value)];
      }
    }

    /** Names every tag: the single entry of a key gets the key itself; the entries of a key with
        several get the key followed by consecutive letters from its first letter on. Stops with
        `false` at the first empty key with several entries, leaving that key and the later ones
        as they were. */
    method Resolve() returns (ok: bool)
      requires Valid()
      requires forall k :: k in names ==> |names[k]| <= MaxEntries
      modifies Tags()
      ensures ok <==> FirstUnresolvable(keys, names) == |keys|
      ensures forall p, i :: 0 <= p < |keys| && 0 <= i < |names[keys[p]]| ==>
        names[keys[p]][i].0.resolved ==
          if p < FirstUnresolvable(keys, names) then Some(ResolvedName(keys[p], i, |names[keys[p]]|))
          else old(names[keys[p]][i].0.resolved)
    {
      var ks: seq<string>, ns: map<string, seq<(Tag, T)>> := keys, names;
      ghost var stop := FirstUnresolvable(ks, ns);
      var p := 0;
      while p < |ks|
        invariant 0 <= p <= stop && ks == keys && ns == names
        invariant forall q, i :: 0 <= q < |ks| && 0 <= i < |ns[ks[q]]| ==>
          ns[ks[q]][i].0.resolved ==
            if q < p then Some(ResolvedName(ks[q], i, |ns[ks[q]]|)) else old(ns[ks[q]][i].0.resolved)
      {
        TagsApart(ks, ns, p);
        var done := ResolveKey(ks[p], ns[ks[p]]);
        if !done {
          assert p == stop;
          return false;
        }
        p := p + 1;
      }
      return true;
    }
  }

  /** Within one key, the resolved names are pairwise distinct. */
  lemma ResolvedNamesDistinct(k: string, n: nat, i: nat, j: nat)
    requires i < n && j < n && n <= MaxEntries && (n == 1 || k != [])
    requires i != j
    ensures ResolvedName(k, i, n) != ResolvedName(k, j, n)
  {
    var a, b := ResolvedName(k, i, n), ResolvedName(k, j, n);
    assert a[|a| - 1] != b[|b| - 1];
  }

  /** A key with several entries starts at its first letter and counts up one character per
      entry; a key with one entry keeps its own name. */
  lemma ResolvedNameSuffix(k: string, i: nat, n: nat)
    requires i < n <= MaxEntries && (n == 1 || k != [])
    ensures n == 1 ==> ResolvedName(k, i, n) == k
    ensures n >= 2 ==> ResolvedName(k, i, n)[..|k|] == k && |ResolvedName(k, i, n)| == |k| + 1
    ensures n >= 2 ==> ResolvedName(k, i, n)[|k|] as int == FirstLetter(k) as int + i
  {
  }

  /** Names are only distinct within a key: the first of two entries under `ex` and the single
      entry under `ex1` both resolve to `ex1`. */
  lemma CrossKeyCollision()
    ensures ResolvedName("ex", 0, 2) == ResolvedName("ex1", 0, 1) == "ex1"
  {
    assert FirstLetter("ex") == '1';
  }

  // ---------------------------------------------------------------------------------------
  // The text cache

  /** The index of the first entry whose value is `data`. */
  function FindValue(entries: seq<(Tag, string)>, data: string): (r: Option<nat>)
    ensures r.Some? ==> r.value < |entries| && entries[r.value].1 == data
    ensures r.Some? ==> forall i :: 0 <= i < r.value ==> entries[i].1 != data
    ensures r.None? ==> forall i :: 0 <= i < |entries| ==> entries[i].1 != data
  {
    if entries == [] then None
    else if entries[0].1 == data then Some(0)
    else match FindValue(entries[1..], data)
      case None => None
      case Some(i) => Some(i + 1)
  }

  /** Text that becomes a named constant rather than an inline literal: 100 characters or more,
      or more than one line. */
  predicate IsConstant(data: string)
  {
    |data| >= 100 || '\n' in data
  }

  /** The inline Rust literal for short one-line text: a raw string when it holds a quote (which
      fails if it also holds the raw terminator), else a plain string. */
  function InlineLiteral(data: string): (r: Result<string>)
    ensures r.Err? <==> '"' in data && Contains(data, "\"#")
    ensures r.Ok? ==> |r.value| >= |data| + 2 && (r.value[0] == 'r' <==> '"' in data)
  {
    if '"' in data then
      if Contains(data, "\"#") then Err("AssertionError") else Ok("r#\"" + data + "\"#")
    else Ok("\"" + data + "\"")
  }

  /** The constant name prefix for an all-digit fixture name. */
  function NumPrefix(isOutput: bool): string
  {
    if isOutput then "OUT" else "IN"
  }

  /** Only constant text is kept in the naming table. */
  ghost predicate AllConstant(names: map<string, seq<(Tag, string)>>)
  {
    forall k, i :: k in names && 0 <= i < |names[k]| ==> IsConstant(names[k][i].1)
  }

  /** Whether registering the text of a fixture fails: inline text that holds both a quote and
      the raw terminator. Text found in the cache never fails, since only constants are cached. */
  predicate CacheFails(text: string)
  {
    var data := RStrip(text);
    !IsConstant(data) && InlineLiteral(data).Err?
  }

  /** The tag handed out for the text `data`: a constant's tag has an entry holding the text in
      the naming table, an inline text's tag is resolved to its literal. */
  ghost predicate Issued(names: map<string, seq<(Tag, string)>>, t: Tag, data: string)
    reads t
  {
    if IsConstant(data) then exists k, q :: k in names && 0 <= q < |names[k]| && names[k][q] == (t, data)
    else InlineLiteral(data).Ok? && t.resolved == Some(InlineLiteral(data).value)
  }

  /** `names'` keeps every entry of `names` where it was. */
  ghost predicate Extends<T>(names: map<string, seq<(Tag, T)>>, names': map<string, seq<(Tag, T)>>)
  {
    forall k :: k in names ==> k in names' && names[k] <= names'[k]
  }

  lemma ExtendsAfter<T>(names: map<string, seq<(Tag, T)>>, key: string, e: (Tag, T))
    ensures Extends(names, NamesAfter(names, key, e))
  {
  }

  lemma ExtendsTrans<T>(a: map<string, seq<(Tag, T)>>, b: map<string, seq<(Tag, T)>>, c: map<string, seq<(Tag, T)>>)
    requires Extends(a, b) && Extends(b, c)
    ensures Extends(a, c)
  {
  }

  /** A tag stays issued for its text while the table only grows. */
  lemma IssuedExtends(names: map<string, seq<(Tag, string)>>, names': map<string, seq<(Tag, string)>>, t: Tag, data: string)
    requires Issued(names, t, data) && Extends(names, names')
    ensures Issued(names', t, data)
  {
    if IsConstant(data) {
      var k, q :| k in names && 0 <= q < |names[k]| && names[k][q] == (t, data);
      assert names'[k][q] == (t, data);
    }
  }

  /** Deduplicates fixture texts: long or multi-line texts become named constants in a naming
      table; the rest become inline literals. */
  class StringCache {
    var nc: NameCache<string>

    ghost predicate Valid()
      reads this, nc
    {
      nc.Valid() && AllConstant(nc.names)
    }

    constructor()
      ensures Valid() && fresh(nc)
      ensures nc.keys == [] && nc.names == map[]
    {
      nc := new NameCache<string>();
    }

    /** Registers the text of a fixture (file reading is left to the caller, which passes the
        contents). Text already cached gives back the tag issued for it and changes nothing;
        constant text is registered under the upper-cased name; any other text gets a fresh tag
        already resolved to its inline literal. */
    method Register(name: string, isOutput: bool, contents: string) returns (r: Result<Tag>)
      requires Valid()
      modifies nc
      ensures Valid() && nc == old(nc)
      ensures var data := RStrip(contents);
        var found := FindValue(old(nc.Entries()), data);
        if found.Some? then
          r == Ok(old(nc.Entries())[found.value].0) && nc.keys == old(nc.keys) && nc.names == old(nc.names)
        else if IsConstant(data) then
          var key := KeyOf(Upper(name), NumPrefix(isOutput));
          r.Ok? && fresh(r.value) && r.value.resolved == None &&
          nc.keys == KeysAfter(old(nc.keys), old(nc.names), key) &&
          nc.names == NamesAfter(old(nc.names), key, (r.value, data))
        else
          nc.keys == old(nc.keys) && nc.names == old(nc.names) &&
          match InlineLiteral(data)
          case Err(e) => r == Err(e)
          case Ok(lit) => r.Ok? && fresh(r.value) && r.value.resolved == Some(lit)
      ensures r.Err? <==> CacheFails(contents)
      ensures r.Ok? ==> Issued(nc.names, r.value, RStrip(contents))
      ensures Extends(old(nc.names), nc.names)
      ensures forall t :: t in nc.Tags() ==> t in old(nc.Tags()) || fresh(t)
      ensures forall k :: Size(nc.names, k) <= Size(old(nc.names), k) + 1
    {
      var data := RStrip(contents);
      var entries := nc.Entries();
      var i := 0;
      while i < |entries|
        invariant 0 <= i <= |entries|
        invariant forall j :: 0 <= j < i ==> entries[j].1 != data
      {
        if data == entries[i].1 {
          EntriesIn(nc.keys, nc.names, i);
          return Ok(entries[i].0);
        }
        i := i + 1;
      }
      r := AddText(name, isOutput, data);
    }

    /** Text not yet cached: a constant gets a fresh tag under the upper-cased name; other text a
        fresh tag already resolved to its inline literal, or the assertion error. */
    method AddText(name: string, isOutput: bool, data: string) returns (r: Result<Tag>)
      requires Valid()
      modifies nc
      ensures Valid() && nc == old(nc)
      ensures IsConstant(data) ==>
        var key := KeyOf(Upper(name), NumPrefix(isOutput));
        r.Ok? && fresh(r.value) && r.value.resolved == None &&
        nc.keys == KeysAfter(old(nc.keys), old(nc.names), key) &&
        nc.names == NamesAfter(old(nc.names), key, (r.value, data))
      ensures !IsConstant(data) ==>
        nc.keys == old(nc.keys) && nc.names == old(nc.names) &&
        match InlineLiteral(data)
        case Err(e) => r == Err(e)
        case Ok(lit) => r.Ok? && fresh(r.value) && r.value.resolved == Some(lit)
      ensures r.Err? <==> !IsConstant(data) && InlineLiteral(data).Err?
      ensures r.Ok? ==> Issued(nc.names, r.value, data)
      ensures Extends(old(nc.names), nc.names)
      ensures forall t :: t in nc.Tags() ==> t in old(nc.Tags()) || fresh(t)
      ensures forall k :: Size(nc.names, k) <= Size(old(nc.names), k) + 1
    {
      if |data| >= 100 || '\n' in data {
        var key := KeyOf(Upper(name), NumPrefix(isOutput));
        var tag := nc.Register(Upper(name), NumPrefix(isOutput), data);
        SizeAfter(old(nc.names), key, (tag, data));
        ExtendsAfter(old(nc.names), key, (tag, data));
        assert nc.names[key][|nc.names[key]| - 1] == (tag, data);
        return Ok(tag);
      } else if '"' in data {
        if Contains(data, "\"#") {
          return Err("AssertionError");
        }
        var tag := new Tag(Some("r#\"" + data + "\"#"));
        return Ok(tag);
      } else {
        var tag := new Tag(Some("\"" + data + "\""));
        return Ok(tag);
      }
    }

    method Resolve() returns (ok: bool)
      requires Valid()
      requires forall k :: k in nc.names ==> |nc.names[k]| <= MaxEntries
      modifies nc.Tags()
      ensures ok <==> FirstUnresolvable(nc.keys, nc.names) == |nc.keys|
      ensures forall p, i :: 0 <= p < |nc.keys| && 0 <= i < |nc.names[nc.keys[p]]| ==>
        nc.names[nc.keys[p]][i].0.resolved ==
          if p < FirstUnresolvable(nc.keys, nc.names)
          then Some(ResolvedName(nc.keys[p], i, |nc.names[nc.keys[p]]|))
          else old(nc.names[nc.keys[p]][i].0.resolved)
    {
      ok := nc.Resolve();
    }

    /** The block of constant declarations. */
    method Dump() returns (r: Result<string>)
      requires Valid()
      ensures r == DumpText(old(Snapshot(nc.Entries())))
    {
      var entries := nc.Entries();
      ghost var ds := Declarations(Snapshot(entries));
      var result := "";
      var i := 0;
      while i < |entries|
        invariant 0 <= i <= |entries|
        invariant Joined(ds[..i]) == Ok(result)
      {
        var d := DumpEntry(entries, ds, i, result);
        if d.Err? {
          return Err(d.msg);
        }
        result := result + d.value;
        i := i + 1;
      }
      assert ds[..i] == ds;
      r := Ok(result);
    }
  }

  /** One round of Dump: the declaration of entry `i`, which either extends the text of the
      entries before it or is the error the whole dump ends with. */
  method DumpEntry(entries: seq<(Tag, string)>, ghost ds: seq<Result<string>>, i: nat, result: string)
    returns (d: Result<string>)
    requires i < |entries| == |ds| && ds[i] == Declaration(entries[i].0.resolved, entries[i].1)
    requires Joined(ds[..i]) == Ok(result)
    ensures d.Err? ==> Joined(ds) == Err(d.msg)
    ensures d.Ok? ==> Joined(ds[..i + 1]) == Ok(result + d.value)
  {
    d := DeclarationOf(entries[i].0, entries[i].1);
    if d.Err? {
      JoinedNextFails(ds, i, result);
    } else {
      JoinedNextGrows(ds, i, result);
    }
  }

  /** When piece `i` fails, the whole join fails with it. */
  lemma JoinedNextFails(ds: seq<Result<string>>, i: nat, result: string)
    requires i < |ds| && Joined(ds[..i]) == Ok(result) && ds[i].Err?
    ensures Joined(ds) == Err(ds[i].msg)
  {
    assert ds[..i + 1] == ds[..i] + [ds[i]];
    JoinedFails(ds[..i], ds[i], result);
    JoinedErrorStops(ds, i + 1);
  }

  /** When piece `i` succeeds, it extends the join of the pieces before it. */
  lemma JoinedNextGrows(ds: seq<Result<string>>, i: nat, result: string)
    requires i < |ds| && Joined(ds[..i]) == Ok(result) && ds[i].Ok?
    ensures Joined(ds[..i + 1]) == Ok(result + ds[i].value)
  {
    assert ds[..i + 1] == ds[..i] + [ds[i]];
    JoinedSnoc(ds[..i], ds[i], result);
  }

  /** The source's text for one cached entry, built piece by piece. */
  method DeclarationOf(tag: Tag, v: string) returns (r: Result<string>)
    ensures r == Declaration(tag.resolved, v)
  {
    var name := tag.Str();
    if name.Err? {
      return Err(name.msg);
    }
    var result := "\n\n    const " + name.value + ": &str = indoc!{";
    var rawStr := '"' in v;
    if rawStr {
      if Contains(v, "\"#") {
        return Err("AssertionError");
      }
      result := result + "r#\"\n";
    } else {
      result := result + "\"\n";
    }
    var body := BlockBody(SplitLines(v));
    result := result + body;
    if rawStr {
      result := result + "    \"#};";
    } else {
      result := result + "    \"};";
    }
    return Ok(result);
  }

  /** The source's loop over the lines of a block string. */
  method BlockBody(lines: seq<string>) returns (result: string)
    ensures result == BodyText(lines)
  {
    result := "";
    var j := 0;
    while j < |lines|
      invariant 0 <= j <= |lines|
      invariant result == BodyText(lines[..j])
    {
      result := AppendLine(result, lines[j]);
      BodyTextSnoc(lines, j);
      j := j + 1;
    }
    assert lines[..j] == lines;
  }

  /** One turn of the loop: the stripped line, indented, or an empty line. */
  method AppendLine(result: string, line: string) returns (r: string)
    ensures r == result + LineText(line)
  {
    var stripped := RStrip(line);
    if stripped != "" {
      r := result + "        " + stripped + "\n";
      Assoc(result, "        ", stripped, "\n");
    } else {
      r := result + "\n";
    }
  }

  lemma Assoc(a: string, b: string, c: string, d: string)
    ensures a + b + c + d == a + (b + c + d)
  {
  }

  lemma BodyTextSnoc(lines: seq<string>, j: nat)
    requires j < |lines|
    ensures BodyText(lines[..j + 1]) == BodyText(lines[..j]) + LineText(lines[j])
  {
    assert lines[..j + 1][..j] == lines[..j];
  }

  /** The state a dump depends on: each entry's resolved name and its text. */
  function Snapshot(entries: seq<(Tag, string)>): (r: seq<(Option<string>, string)>)
    reads set i | 0 <= i < |entries| :: entries[i].0
    ensures |r| == |entries|
    ensures forall i :: 0 <= i < |entries| ==> r[i] == (entries[i].0.resolved, entries[i].1)
  {
    if entries == [] then [] else Snapshot(entries[..|entries| - 1]) + [(entries[|entries| - 1].0.resolved, entries[|entries| - 1].1)]
  }

  /** One line of a block string: the line without trailing whitespace, indented by eight
      spaces, or just the line break when nothing is left. */
  function LineText(line: string): string
  {
    var t := RStrip(line);
    if t != "" then "        " + t + "\n" else "\n"
  }

  function BodyText(lines: seq<string>): string
  {
    if lines == [] then "" else BodyText(lines[..|lines| - 1]) + LineText(lines[|lines| - 1])
  }

  /** One constant declaration: `const NAME: &str = indoc!{"…"};`, with the raw delimiters when the
      text holds a quote. Fails where the source does: an unresolved name, or a quoted text that
      holds the raw terminator. */
  function Declaration(name: Option<string>, v: string): (r: Result<string>)
    ensures r.Err? <==> TagText(name).Err? || ('"' in v && Contains(v, "\"#"))
    ensures r.Ok? ==> var head := "\n\n    const " + name.value + ": &str = indoc!{";
      |head| <= |r.value| && r.value[..|head|] == head
  {
    match TagText(name)
    case Err(e) => Err(e)
    case Ok(n) =>
      var raw := '"' in v;
      if raw && Contains(v, "\"#") then Err("AssertionError")
      else Ok("\n\n    const " + n + ": &str = indoc!{" + (if raw then "r#\"\n" else "\"\n") +
              BodyText(SplitLines(v)) + (if raw then "    \"#};" else "    \"};"))
  }

  /** The declarations of all entries, in order; the first failure stops the dump. */
  function DumpText(items: seq<(Option<string>, string)>): Result<string>
  {
    Joined(Declarations(items))
  }

  /** The declaration of each entry. */
  function Declarations(items: seq<(Option<string>, string)>): (ds: seq<Result<string>>)
    ensures |ds| == |items|
    ensures forall i :: 0 <= i < |items| ==> ds[i] == Declaration(items[i].0, items[i].1)
  {
    seq(|items|, i requires 0 <= i < |items| => Declaration(items[i].0, items[i].1))
  }

  /** The texts of all pieces, one after another, or the first error among them. */
  function Joined(ds: seq<Result<string>>): Result<string>
  {
    if ds == [] then Ok("")
    else
      match Joined(ds[..|ds| - 1])
      case Err(e) => Err(e)
      case Ok(prefix) =>
        match ds[|ds| - 1]
        case Err(e) => Err(e)
        case Ok(d) => Ok(prefix + d)
  }

  /** Joining one more piece appends its text... */
  lemma JoinedSnoc(ds: seq<Result<string>>, d: Result<string>, prefix: string)
    requires Joined(ds) == Ok(prefix) && d.Ok?
    ensures Joined(ds + [d]) == Ok(prefix + d.value)
  {
    assert (ds + [d])[..|ds|] == ds;
  }

  /** ...or fails with its error. */
  lemma JoinedFails(ds: seq<Result<string>>, d: Result<string>, prefix: string)
    requires Joined(ds) == Ok(prefix) && d.Err?
    ensures Joined(ds + [d]) == Err(d.msg)
  {
    assert (ds + [d])[..|ds|] == ds;
  }

  /** Once a piece fails, the join of any longer list fails the same way. */
  lemma {:induction false} JoinedErrorStops(ds: seq<Result<string>>, k: nat)
    requires k <= |ds| && Joined(ds[..k]).Err?
    ensures Joined(ds) == Joined(ds[..k])
    decreases |ds| - k
  {
    if k < |ds| {
      assert ds[..k + 1][..k] == ds[..k];
      JoinedErrorStops(ds, k + 1);
    } else {
      assert ds[..k] == ds;
    }
  }

  /** The join succeeds exactly when every piece does. */
  lemma {:induction false} JoinedSucceeds(ds: seq<Result<string>>)
    ensures Joined(ds).Ok? <==> forall i :: 0 <= i < |ds| ==> ds[i].Ok?
  {
    if ds != [] {
      var init, d := ds[..|ds| - 1], ds[|ds| - 1];
      JoinedSucceeds(init);
      assert ds == init + [d];
      if Joined(init).Ok? && d.Ok? {
        JoinedSnoc(init, d, Joined(init).value);
        forall i | 0 <= i < |ds| ensures ds[i].Ok? {
          if i < |init| {
            assert ds[i] == init[i];
          }
        }
      } else if Joined(init).Ok? {
        JoinedFails(init, d, Joined(init).value);
      } else {
        var k :| 0 <= k < |init| && !init[k].Ok?;
        assert ds[k] == init[k];
      }
    }
  }

  /** The entry has a declaration: its name is resolved and its text fits a literal. */
  predicate Declares(x: (Option<string>, string))
  {
    Declaration(x.0, x.1).Ok?
  }

  /** The dump succeeds exactly when every entry's declaration does. */
  lemma DumpSucceeds(items: seq<(Option<string>, string)>)
    ensures DumpText(items).Ok? <==> forall i :: 0 <= i < |items| ==> Declares(items[i])
  {
    var ds := Declarations(items);
    JoinedSucceeds(ds);
    assert forall i :: 0 <= i < |items| ==> (ds[i].Ok? <==> Declares(items[i]));
  }

  /** A declaration fails exactly when its name is unresolved or its text holds both a quote and
      the raw terminator; when it succeeds, it closes with the raw delimiter exactly when the text
      holds a quote. */
  lemma DeclarationOutcome(name: Option<string>, v: string)
    ensures Declaration(name, v).Err? <==> TagText(name).Err? || ('"' in v && Contains(v, "\"#"))
    ensures Declaration(name, v).Ok? ==> (EndsWith(Declaration(name, v).value, "\"#};") <==> '"' in v)
  {
    if Declaration(name, v).Ok? {
      var d := Declaration(name, v).value;
      var head := "\n\n    const " + TagText(name).value + ": &str = indoc!{" + (if '"' in v then "r#\"\n" else "\"\n") +
        BodyText(SplitLines(v));
      var tail := if '"' in v then "    \"#};" else "    \"};";
      assert d == head + tail;
      assert d[|d| - 4..] == tail[|tail| - 4..];
    }
  }

  /** One block line per line of the text: for lines without breaks, the body holds exactly one
      line feed per line. */
  lemma {:induction false} BodyLineCount(lines: seq<string>)
    requires forall k, j :: 0 <= k < |lines| && 0 <= j < |lines[k]| ==> lines[k][j] != '\n'
    ensures CountChar(BodyText(lines), '\n') == |lines|
  {
    if lines != [] {
      var init := lines[..|lines| - 1];
      var last := lines[|lines| - 1];
      BodyLineCount(init);
      CountCharConcat(BodyText(init), LineText(last), '\n');
      var t := RStrip(last);
      if t != "" {
        assert forall j :: 0 <= j < |t| ==> t[j] == last[j];
        CountCharConcat("        " + t, "\n", '\n');
        CountCharConcat("        ", t, '\n');
        CountCharAbsent(t, '\n');
        CountCharAbsent("        ", '\n');
      }
    }
  }

  function CountChar(s: string, c: char): nat
  {
    if s == [] then 0 else (if s[0] == c then 1 else 0) + CountChar(s[1..], c)
  }

  lemma {:induction false} CountCharConcat(a: string, b: string, c: char)
    ensures CountChar(a + b, c) == CountChar(a, c) + CountChar(b, c)
  {
    if a == [] {
      assert a + b == b;
    } else {
      assert (a + b)[1..] == a[1..] + b;
      CountCharConcat(a[1..], b, c);
    }
  }

  lemma {:induction false} CountCharAbsent(a: string, c: char)
    requires forall j :: 0 <= j < |a| ==> a[j] != c
    ensures CountChar(a, c) == 0
  {
    if a != [] {
      CountCharAbsent(a[1..], c);
    }
  }

  /** A raw literal ends at its final `"#` and nowhere earlier: the text inside cannot close it. */
  lemma RawLiteralDelimited(data: string)
    requires '"' in data && InlineLiteral(data).Ok?
    ensures var lit := InlineLiteral(data).value;
      lit == "r#\"" + data + "\"#" && OccursAt(lit, "\"#", |lit| - 2) &&
      forall i :: 3 <= i < |lit| - 2 ==> !OccursAt(lit, "\"#", i)
  {
    var lit := InlineLiteral(data).value;
    assert lit[|lit| - 2..] == "\"#";
    forall i | 3 <= i < |lit| - 2
      ensures !OccursAt(lit, "\"#", i)
    {
      if i < |lit| - 3 {
        NoTerminatorInside(data, lit, i);
      } else {
        assert lit[i + 1] == '"';
      }
    }
  }

  lemma NoTerminatorInside(data: string, lit: string, i: nat)
    requires !Contains(data, "\"#") && lit == "r#\"" + data + "\"#" && 3 <= i < |lit| - 3
    ensures !OccursAt(lit, "\"#", i)
  {
    assert lit[i..i + 2] == data[i - 3..i - 1];
    assert !OccursAt(data, "\"#", i - 3);
  }

  /** A plain literal has quotes only at its two ends. */
  lemma PlainLiteralDelimited(data: string)
    requires '"' !in data
    ensures var lit := InlineLiteral(data).value;
      lit == "\"" + data + "\"" && forall i :: 0 < i < |lit| - 1 ==> lit[i] != '"'
  {
    var lit := InlineLiteral(data).value;
    assert forall i :: 0 < i < |lit| - 1 ==> lit[i] == data[i - 1];
  }

  // ---------------------------------------------------------------------------------------
  // The fixtures of one day

  /** The stars an input fixture serves, from its file name: `.in.1` one, `.in.2` two, `.in`
      both. Any other name containing `in` is an error; anything else is not an input. */
  function ClassifyInput(fileName: string): Result<Option<(string, seq<nat>)>>
  {
    if EndsWith(fileName, ".in.1") then Ok(Some((RemoveSuffix(fileName, ".in.1"), [1])))
    else if EndsWith(fileName, ".in.2") then Ok(Some((RemoveSuffix(fileName, ".in.2"), [2])))
    else if EndsWith(fileName, ".in") then Ok(Some((RemoveSuffix(fileName, ".in"), [1, 2])))
    else if Contains(fileName, "in") then Err("Input WTF? " + fileName)
    else Ok(None)
  }

  /** The test an output fixture gives the expected answer of: `.out.1` for star one, `.out.2`
      for star two. Any other name containing `out` is an error. */
  function ClassifyOutput(fileName: string): Result<Option<(string, nat)>>
  {
    if EndsWith(fileName, ".out.1") then Ok(Some((RemoveSuffix(fileName, ".out.1"), 1)))
    else if EndsWith(fileName, ".out.2") then Ok(Some((RemoveSuffix(fileName, ".out.2"), 2)))
    else if Contains(fileName, "out") then Err("Output WTF? " + fileName)
    else Ok(None)
  }

  /** The file-name suffix of an input serving the given stars. */
  function InputSuffix(stars: seq<nat>): string
  {
    if stars == [1] then ".in.1" else if stars == [2] then ".in.2" else ".in"
  }

  /** Each input suffix is recognised, and gives back the name in front of it. */
  lemma ClassifyInputNames(name: string)
    ensures ClassifyInput(name + ".in.1") == Ok(Some((name, [1])))
    ensures ClassifyInput(name + ".in.2") == Ok(Some((name, [2])))
    ensures ClassifyInput(name + ".in") == Ok(Some((name, [1, 2])))
  {
    var a, b, c := name + ".in.1", name + ".in.2", name + ".in";
    assert a[|a| - 5..] == ".in.1" && a[..|a| - 5] == name;
    assert b[|b| - 5..] == ".in.2" && b[..|b| - 5] == name && b[|b| - 1] != ".in.1"[4];
    assert c[|c| - 3..] == ".in" && c[..|c| - 3] == name && c[|c| - 1] != '1' && c[|c| - 1] != '2';
  }

  /** Conversely, a recognised input is its name plus the suffix of its stars; an error is a
      name containing `in` without an input suffix; anything else does not contain `in`. */
  lemma ClassifyInputSound(fileName: string)
    ensures ClassifyInput(fileName).Ok? && ClassifyInput(fileName).value.Some? ==>
      var (name, stars) := ClassifyInput(fileName).value.value;
      fileName == name + InputSuffix(stars) && stars in {[1], [2], [1, 2]}
    ensures ClassifyInput(fileName).Err? <==>
      Contains(fileName, "in") && !EndsWith(fileName, ".in.1") && !EndsWith(fileName, ".in.2") &&
      !EndsWith(fileName, ".in")
    ensures ClassifyInput(fileName) == Ok(None) ==> !Contains(fileName, "in")
  {
  }

  /** Each output suffix is recognised, and gives back the name in front of it. */
  lemma ClassifyOutputNames(name: string)
    ensures ClassifyOutput(name + ".out.1") == Ok(Some((name, 1)))
    ensures ClassifyOutput(name + ".out.2") == Ok(Some((name, 2)))
  {
    var a, b := name + ".out.1", name + ".out.2";
    assert a[|a| - 6..] == ".out.1" && a[..|a| - 6] == name;
    assert b[|b| - 6..] == ".out.2" && b[..|b| - 6] == name && b[|b| - 1] != '1';
  }

  /** The file-name suffix of an output for the given star. */
  function OutputSuffix(star: nat): string
  {
    if star == 1 then ".out.1" else ".out.2"
  }

  /** Conversely, a recognised output is its name plus the suffix of its star; an error is a
      name containing `out` without an output suffix; anything else does not contain `out`. */
  lemma ClassifyOutputSound(fileName: string)
    ensures ClassifyOutput(fileName).Ok? && ClassifyOutput(fileName).value.Some? ==>
      var (name, star) := ClassifyOutput(fileName).value.value;
      fileName == name + OutputSuffix(star) && star in {1, 2}
    ensures ClassifyOutput(fileName).Err? <==>
      Contains(fileName, "out") && !EndsWith(fileName, ".out.1") && !EndsWith(fileName, ".out.2")
    ensures ClassifyOutput(fileName) == Ok(None) ==> !Contains(fileName, "out")
  {
  }

  /** The text of a `star_test!` line naming the test, its star, its input and its output. */
  function StarTest(name: string, star: nat, input: string, output: string): string
  {
    "    star_test!(" + name + ", star" + NatToString(star) + ", " + input + ", " + output + ");"
  }

  /** One line of the generated tests: `star_test!(name, starN, input, output);`, failing if any
      of the three tags is unresolved. */
  function TestLine(name: Option<string>, star: nat, input: Option<string>, output: Option<string>): (r: Result<string>)
    ensures r.Ok? <==> TagText(name).Ok? && TagText(input).Ok? && TagText(output).Ok?
    ensures r.Ok? ==> var head := "    star_test!(" + name.value + ", star";
      |head| + 2 <= |r.value| && r.value[..|head|] == head && r.value[|r.value| - 2..] == ");"
    ensures r.Ok? ==> r.value == StarTest(name.value, star, input.value, output.value)
  {
    match (TagText(name), TagText(input), TagText(output))
    case (Ok(n), Ok(i), Ok(o)) => Ok(StarTest(n, star, i, o))
    case (Err(e), _, _) => Err(e)
    case (_, Err(e), _) => Err(e)
    case (_, _, Err(e)) => Err(e)
  }

  function JoinLines(lines: seq<string>): string
  {
    if lines == [] then "" else if |lines| == 1 then lines[0] else lines[0] + "\n" + JoinLines(lines[1..])
  }

  /** The block of test lines of one star, preceded by a blank line, or nothing if it has none. */
  function StarSection(lines: seq<string>): string
  {
    if lines == [] then "" else "\n\n" + JoinLines(lines)
  }

  /** The generated test module: the imports (the block-string macro only when constants were
      dumped), the tests of each star, then the constants. */
  function TestModule(star1: seq<string>, star2: seq<string>, cacheDump: string): string
  {
    ModuleHeader(cacheDump) + StarSection(star1) + StarSection(star2) + cacheDump + "\n}\n"
  }

  /** The module opens with its header and closes the `mod test` block. */
  lemma TestModuleEnds(star1: seq<string>, star2: seq<string>, cacheDump: string)
    ensures var h, m := ModuleHeader(cacheDump), TestModule(star1, star2, cacheDump);
      |h| + 3 <= |m| && m[..|h|] == h && m[|m| - 3..] == "\n}\n"
  {
  }

  /** The head of the module: the test configuration and the imports. */
  function ModuleHeader(cacheDump: string): string
  {
    var indoc := if cacheDump != "" then "\n    use indoc::indoc;" else "";
    "\n#[cfg(test)]\nmod test {\n    use super::*;" + indoc
  }

  /** Joining puts one line feed between neighbouring lines. */
  lemma {:induction false} JoinLinesCount(lines: seq<string>)
    requires forall k, j :: 0 <= k < |lines| && 0 <= j < |lines[k]| ==> lines[k][j] != '\n'
    ensures CountChar(JoinLines(lines), '\n') == if lines == [] then 0 else |lines| - 1
  {
    if |lines| > 1 {
      JoinLinesCount(lines[1..]);
      CountCharConcat(lines[0] + "\n", JoinLines(lines[1..]), '\n');
      CountCharConcat(lines[0], "\n", '\n');
      CountCharAbsent(lines[0], '\n');
    } else if |lines| == 1 {
      CountCharAbsent(lines[0], '\n');
    }
  }

  // ---------------------------------------------------------------------------------------
  // The generator of one day: the input loop, the output loop, then the rendering

  /** What the input loop makes of one file: the tests an input fixture serves, none for a file
      that is not an input, or the error that stops the generator (a bad input name, or text
      the cache cannot inline). */
  function InputOf(file: (string, string)): Result<set<(string, nat)>>
  {
    match ClassifyInput(file.0)
    case Err(e) => Err(e)
    case Ok(None) => Ok({})
    case Ok(Some((name, stars))) =>
      if CacheFails(file.1) then Err("AssertionError") else Ok(set s | s in stars :: (name, s))
  }

  /** The tests served by the input fixtures of a listing, or the first error. */
  function InputKeys(files: seq<(string, string)>): Result<set<(string, nat)>>
  {
    if files == [] then Ok({})
    else
      match InputOf(files[0])
      case Err(e) => Err(e)
      case Ok(k) =>
        match InputKeys(files[1..])
        case Err(e) => Err(e)
        case Ok(ks) => Ok(k + ks)
  }

  /** What the output loop makes of one file: the test of an output fixture, none for a file
      that is not an output, or the error that stops the generator (a bad output name, text the
      cache cannot inline, or the `KeyError` of a test without an input). */
  function TestOf(file: (string, string), inputKeys: set<(string, nat)>): Result<Option<(string, nat)>>
  {
    match ClassifyOutput(file.0)
    case Err(e) => Err(e)
    case Ok(None) => Ok(None)
    case Ok(Some((name, star))) =>
      if CacheFails(file.1) then Err("AssertionError")
      else if (name, star) !in inputKeys then Err("KeyError")
      else Ok(Some((name, star)))
  }

  /** The tests of the output fixtures of a listing, in listing order, or the first error. */
  function Tests(files: seq<(string, string)>, inputKeys: set<(string, nat)>): Result<seq<(string, nat)>>
  {
    if files == [] then Ok([])
    else
      match TestOf(files[0], inputKeys)
      case Err(e) => Err(e)
      case Ok(t) =>
        match Tests(files[1..], inputKeys)
        case Err(e) => Err(e)
        case Ok(ts) => Ok((if t.Some? then [t.value] else []) + ts)
  }

  /** The right-stripped texts of the output files of the listing that give a test, in the order
      of `Tests`: text `j` is that of the file test `j` comes from. */
  ghost function OutputTexts(files: seq<(string, string)>, inputKeys: set<(string, nat)>): seq<string>
  {
    if files == [] then []
    else
      var t := TestOf(files[0], inputKeys);
      (if t.Ok? && t.value.Some? then [RStrip(files[0].1)] else []) + OutputTexts(files[1..], inputKeys)
  }

  /** There is one output text per test. */
  lemma {:induction false} OutputTextsLength(files: seq<(string, string)>, inputKeys: set<(string, nat)>)
    requires Tests(files, inputKeys).Ok?
    ensures |OutputTexts(files, inputKeys)| == |Tests(files, inputKeys).value|
  {
    if files != [] {
      OutputTextsLength(files[1..], inputKeys);
    }
  }

  /** Output text `j` is the right-stripped text of a file of the listing that gives test `j`. */
  lemma {:induction false} OutputTextOf(files: seq<(string, string)>, inputKeys: set<(string, nat)>, j: nat)
    requires Tests(files, inputKeys).Ok? && j < |Tests(files, inputKeys).value|
    ensures |OutputTexts(files, inputKeys)| == |Tests(files, inputKeys).value|
    ensures exists i ::
              && 0 <= i < |files|
              && TestOf(files[i], inputKeys) == Ok(Some(Tests(files, inputKeys).value[j]))
              && OutputTexts(files, inputKeys)[j] == RStrip(files[i].1)
  {
    OutputTextsLength(files, inputKeys);
    var t := TestOf(files[0], inputKeys);
    var rest := files[1..];
    OutputTextsLength(rest, inputKeys);
    if t.value.Some? && j == 0 {
      assert TestOf(files[0], inputKeys) == Ok(Some(Tests(files, inputKeys).value[j]));
    } else {
      var j' := if t.value.Some? then j - 1 else j;
      assert Tests(files, inputKeys).value[j] == Tests(rest, inputKeys).value[j'];
      assert OutputTexts(files, inputKeys)[j] == OutputTexts(rest, inputKeys)[j'];
      OutputTextOf(rest, inputKeys, j');
      var i :|
        && 0 <= i < |rest|
        && TestOf(rest[i], inputKeys) == Ok(Some(Tests(rest, inputKeys).value[j']))
        && OutputTexts(rest, inputKeys)[j'] == RStrip(rest[i].1);
      assert rest[i] == files[i + 1];
    }
  }

  /** The output text of file `i` and those of the files after it. */
  lemma TextsNext(files: seq<(string, string)>, inputKeys: set<(string, nat)>, i: nat, texts: seq<string>,
                  one: seq<string>)
    requires i < |files| && TestOf(files[i], inputKeys).Ok?
    requires one == if TestOf(files[i], inputKeys).value.Some? then [RStrip(files[i].1)] else []
    ensures texts + OutputTexts(files[i..], inputKeys) == texts + one + OutputTexts(files[i + 1..], inputKeys)
  {
    assert files[i..][0] == files[i] && files[i..][1..] == files[i + 1..];
  }

  /** A rejected file fails the listing's tests. */
  lemma RoundFails(files: seq<(string, string)>, inputKeys: set<(string, nat)>, i: nat, done: seq<(string, nat)>)
    requires i < |files| && Tests(files, inputKeys) == Prepend(done, Tests(files[i..], inputKeys))
    requires TestOf(files[i], inputKeys).Err?
    ensures Tests(files, inputKeys).Err?
  {
    TestsFail(files, inputKeys, i);
  }

  /** The tests found so far in front of those of the rest of the listing. */
  function Prepend<X>(done: seq<X>, rest: Result<seq<X>>): Result<seq<X>>
  {
    match rest
    case Err(e) => Err(e)
    case Ok(xs) => Ok(done + xs)
  }

  /** The keys found so far together with those of the rest of the listing. */
  function Union(done: set<(string, nat)>, rest: Result<set<(string, nat)>>): Result<set<(string, nat)>>
  {
    match rest
    case Err(e) => Err(e)
    case Ok(ks) => Ok(done + ks)
  }

  /** The keys of an input file and of the files after it. */
  lemma InputKeysFrom(files: seq<(string, string)>, i: nat, done: set<(string, nat)>)
    requires i < |files|
    ensures Union(done, InputKeys(files[i..])) ==
      match InputOf(files[i])
      case Err(e) => Err(e)
      case Ok(k) => Union(done + k, InputKeys(files[i + 1..]))
  {
    assert files[i..][0] == files[i] && files[i..][1..] == files[i + 1..];
    match InputOf(files[i])
    case Err(e) =>
    case Ok(k) =>
      match InputKeys(files[i + 1..])
      case Err(e) =>
      case Ok(ks) => assert done + (k + ks) == done + k + ks;
  }

  /** An output file that fails fails the tests of the files from it on. */
  lemma TestsFail(files: seq<(string, string)>, inputKeys: set<(string, nat)>, i: nat)
    requires i < |files| && TestOf(files[i], inputKeys).Err?
    ensures Tests(files[i..], inputKeys).Err?
  {
    assert files[i..][0] == files[i];
  }

  /** The tests of an output file and of the files after it. */
  lemma TestsNext(files: seq<(string, string)>, inputKeys: set<(string, nat)>, i: nat, done: seq<(string, nat)>,
                  one: seq<(string, nat)>)
    requires i < |files| && TestOf(files[i], inputKeys).Ok?
    requires one == if TestOf(files[i], inputKeys).value.Some? then [TestOf(files[i], inputKeys).value.value] else []
    ensures Prepend(done, Tests(files[i..], inputKeys)) == Prepend(done + one, Tests(files[i + 1..], inputKeys))
  {
    assert files[i..][0] == files[i] && files[i..][1..] == files[i + 1..];
    match Tests(files[i + 1..], inputKeys)
    case Err(e) =>
    case Ok(ts) => assert done + (one + ts) == done + one + ts;
  }

  /** The served tests are exactly those of the input fixtures: a test is served when some file
      is named after it with the suffix of a star list holding its star. */
  lemma {:induction false} InputKeysSound(files: seq<(string, string)>, name: string, star: nat)
    requires InputKeys(files).Ok?
    ensures (name, star) in InputKeys(files).value <==>
      exists i, stars :: 0 <= i < |files| && stars in {[1], [2], [1, 2]} && star in stars &&
        files[i].0 == name + InputSuffix(stars)
  {
    if files != [] {
      InputKeysSound(files[1..], name, star);
      ClassifyInputSound(files[0].0);
      var c := ClassifyInput(files[0].0);
      if (name, star) in InputKeys(files).value {
        if (name, star) !in InputKeys(files[1..]).value {
          var (n, stars) := c.value.value;
          assert files[0].0 == name + InputSuffix(stars);
        } else {
          var i, stars :| 0 <= i < |files[1..]| && stars in {[1], [2], [1, 2]} && star in stars &&
            files[1..][i].0 == name + InputSuffix(stars);
          assert files[i + 1].0 == name + InputSuffix(stars);
        }
      }
      if exists i, stars :: 0 <= i < |files| && stars in {[1], [2], [1, 2]} && star in stars &&
          files[i].0 == name + InputSuffix(stars) {
        var i, stars :| 0 <= i < |files| && stars in {[1], [2], [1, 2]} && star in stars &&
          files[i].0 == name + InputSuffix(stars);
        if i == 0 {
          ClassifyInputNames(name);
        } else {
          assert files[1..][i - 1] == files[i];
        }
      }
    }
  }

  /** The tests are exactly the output fixtures, each with an input serving it: every test comes
      from a file named after it, and every output file gives its test. */
  lemma {:induction false} TestsSound(files: seq<(string, string)>, inputKeys: set<(string, nat)>)
    requires Tests(files, inputKeys).Ok?
    ensures forall t :: t in Tests(files, inputKeys).value ==>
      t in inputKeys && t.1 in {1, 2} && exists i :: 0 <= i < |files| && files[i].0 == t.0 + OutputSuffix(t.1)
    ensures forall i :: 0 <= i < |files| && ClassifyOutput(files[i].0).Ok? && ClassifyOutput(files[i].0).value.Some? ==>
      ClassifyOutput(files[i].0).value.value in Tests(files, inputKeys).value
  {
    if files != [] {
      TestsSound(files[1..], inputKeys);
      ClassifyOutputSound(files[0].0);
      var ts := Tests(files, inputKeys).value;
      var rest := Tests(files[1..], inputKeys).value;
      forall t | t in ts
        ensures t in inputKeys && t.1 in {1, 2} && exists i :: 0 <= i < |files| && files[i].0 == t.0 + OutputSuffix(t.1)
      {
        if t !in rest {
          assert files[0].0 == t.0 + OutputSuffix(t.1);
        } else {
          var i :| 0 <= i < |files[1..]| && files[1..][i].0 == t.0 + OutputSuffix(t.1);
          assert files[i + 1].0 == t.0 + OutputSuffix(t.1);
        }
      }
      forall i | 0 <= i < |files| && ClassifyOutput(files[i].0).Ok? && ClassifyOutput(files[i].0).value.Some?
        ensures ClassifyOutput(files[i].0).value.value in ts
      {
        if i > 0 {
          assert files[1..][i - 1] == files[i];
        }
      }
    }
  }

  /** File `i` is the last of the first `n` files that is an input serving test `k`, so the one
      whose tag the input loop leaves recorded for `k`. */
  ghost predicate LastInput(files: seq<(string, string)>, n: nat, k: (string, nat), i: nat)
  {
    i < n <= |files| && InputOf(files[i]).Ok? && k in InputOf(files[i]).value &&
    forall j :: i < j < n && InputOf(files[j]).Ok? ==> k !in InputOf(files[j]).value
  }

  /** Tag `t`, recorded for test `k` after the first `n` files, is the tag issued for the text of
      the last of them that serves `k`. */
  ghost predicate InputFrom(files: seq<(string, string)>, n: nat, k: (string, nat), t: Tag,
                            names: map<string, seq<(Tag, string)>>)
    reads t
  {
    exists i: nat :: LastInput(files, n, k, i) && Issued(names, t, RStrip(files[i].1))
  }

  /** Every tag recorded after the first `n` files is the one issued for the text of the last of
      them serving its test. */
  ghost predicate InputsFrom(files: seq<(string, string)>, n: nat, inputs: map<(string, nat), Tag>,
                             names: map<string, seq<(Tag, string)>>)
    reads inputs.Values
  {
    forall k :: k in inputs ==> InputFrom(files, n, k, inputs[k], names)
  }

  /** One more round of the input loop keeps every recorded tag the one issued for the text of
      the last file serving its test. */
  lemma InputsStep(files: seq<(string, string)>, i: nat, inputs: map<(string, nat), Tag>, next: map<(string, nat), Tag>,
                   names: map<string, seq<(Tag, string)>>, names': map<string, seq<(Tag, string)>>)
    requires i < |files| && InputOf(files[i]).Ok? && Extends(names, names')
    requires InputsFrom(files, i, inputs, names)
    requires next.Keys == inputs.Keys + InputOf(files[i]).value
    requires forall k :: k in InputOf(files[i]).value ==> Issued(names', next[k], RStrip(files[i].1))
    requires forall k :: k in inputs && k !in InputOf(files[i]).value ==> next[k] == inputs[k]
    ensures InputsFrom(files, i + 1, next, names')
  {
    forall k | k in next ensures InputFrom(files, i + 1, k, next[k], names') {
      if k in InputOf(files[i]).value {
        InputFromLast(files, i, k, next[k], names');
      } else {
        InputFromEarlier(files, i, k, inputs[k], names, names');
      }
    }
  }

  lemma InputFromLast(files: seq<(string, string)>, i: nat, k: (string, nat), t: Tag, names: map<string, seq<(Tag, string)>>)
    requires i < |files| && InputOf(files[i]).Ok? && k in InputOf(files[i]).value
    requires Issued(names, t, RStrip(files[i].1))
    ensures InputFrom(files, i + 1, k, t, names)
  {
    assert LastInput(files, i + 1, k, i);
  }

  lemma InputFromEarlier(files: seq<(string, string)>, i: nat, k: (string, nat), t: Tag,
                         names: map<string, seq<(Tag, string)>>, names': map<string, seq<(Tag, string)>>)
    requires i < |files| && InputOf(files[i]).Ok? && k !in InputOf(files[i]).value
    requires InputFrom(files, i, k, t, names) && Extends(names, names')
    ensures InputFrom(files, i + 1, k, t, names')
  {
    var i0: nat :| LastInput(files, i, k, i0) && Issued(names, t, RStrip(files[i0].1));
    IssuedExtends(names, names', t, RStrip(files[i0].1));
    assert LastInput(files, i + 1, k, i0);
  }

  /** The input loop: registers the text of every input fixture in the cache and records its tag
      for each star it serves. */
  method RegisterInputs(files: seq<(string, string)>, sc: StringCache) returns (r: Result<map<(string, nat), Tag>>)
    requires sc.Valid()
    modifies sc.nc
    ensures sc.Valid() && sc.nc == old(sc.nc)
    ensures r.Ok? <==> InputKeys(files).Ok?
    ensures r.Ok? ==> r.value.Keys == InputKeys(files).value
    ensures r.Ok? ==> InputsFrom(files, |files|, r.value, sc.nc.names)
    ensures Extends(old(sc.nc.names), sc.nc.names)
    ensures forall k :: Size(sc.nc.names, k) <= Size(old(sc.nc.names), k) + |files|
    ensures forall t :: t in sc.nc.Tags() ==> t in old(sc.nc.Tags()) || fresh(t)
  {
    var inputs: map<(string, nat), Tag> := map[];
    var i := 0;
    assert files[0..] == files && inputs.Keys == {};
    assert InputKeys(files).Ok? ==> {} + InputKeys(files).value == InputKeys(files).value;
    while i < |files|
      invariant 0 <= i <= |files|
      invariant sc.Valid() && sc.nc == old(sc.nc)
      invariant InputKeys(files) == Union(inputs.Keys, InputKeys(files[i..]))
      invariant InputsFrom(files, i, inputs, sc.nc.names)
      invariant Extends(old(sc.nc.names), sc.nc.names)
      invariant forall k :: Size(sc.nc.names, k) <= Size(old(sc.nc.names), k) + i
      invariant forall t :: t in sc.nc.Tags() ==> t in old(sc.nc.Tags()) || fresh(t)
    {
      ghost var names := sc.nc.names;
      var next := InputRound(files, i, sc, inputs);
      if next.Err? {
        return Err(next.msg);
      }
      ExtendsTrans(old(sc.nc.names), names, sc.nc.names);
      inputs := next.value;
      i := i + 1;
    }
    assert files[i..] == [];
    return Ok(inputs);
  }

  /** Round `i` of the input loop, keeping the loop's invariant: the keys still to come and the
      tags recorded so far. */
  method InputRound(files: seq<(string, string)>, i: nat, sc: StringCache, inputs: map<(string, nat), Tag>)
    returns (r: Result<map<(string, nat), Tag>>)
    requires i < |files| && sc.Valid()
    requires InputKeys(files) == Union(inputs.Keys, InputKeys(files[i..]))
    requires InputsFrom(files, i, inputs, sc.nc.names)
    modifies sc.nc
    ensures sc.Valid() && sc.nc == old(sc.nc)
    ensures r.Err? ==> InputKeys(files).Err?
    ensures r.Ok? ==> InputKeys(files) == Union(r.value.Keys, InputKeys(files[i + 1..]))
    ensures r.Ok? ==> InputsFrom(files, i + 1, r.value, sc.nc.names)
    ensures Extends(old(sc.nc.names), sc.nc.names)
    ensures forall k :: Size(sc.nc.names, k) <= Size(old(sc.nc.names), k) + 1
    ensures forall t :: t in sc.nc.Tags() ==> t in old(sc.nc.Tags()) || fresh(t)
  {
    InputKeysFrom(files, i, inputs.Keys);
    r := InputStep(files[i], sc, inputs);
    if r.Ok? {
      InputsStep(files, i, inputs, r.value, old(sc.nc.names), sc.nc.names);
    }
  }

  /** One round of the input loop: an input fixture's text is registered in the cache and its
      tag recorded for each star it serves; any other file changes nothing. */
  method InputStep(file: (string, string), sc: StringCache, inputs: map<(string, nat), Tag>)
    returns (r: Result<map<(string, nat), Tag>>)
    requires sc.Valid()
    modifies sc.nc
    ensures sc.Valid() && sc.nc == old(sc.nc)
    ensures r.Ok? <==> InputOf(file).Ok?
    ensures r.Ok? ==> r.value.Keys == inputs.Keys + InputOf(file).value
    ensures r.Ok? ==> forall k :: k in InputOf(file).value ==> Issued(sc.nc.names, r.value[k], RStrip(file.1))
    ensures r.Ok? ==> forall k :: k in inputs && k !in InputOf(file).value ==> r.value[k] == inputs[k]
    ensures ClassifyInput(file.0) == Ok(None) ==> sc.nc.keys == old(sc.nc.keys) && sc.nc.names == old(sc.nc.names)
    ensures r.Ok? && ClassifyInput(file.0).value.Some? ==>
      var (name, stars) := ClassifyInput(file.0).value.value;
      var key := KeyOf(Upper(name), NumPrefix(false));
      (sc.nc.keys == old(sc.nc.keys) && sc.nc.names == old(sc.nc.names)) ||
      (sc.nc.keys == KeysAfter(old(sc.nc.keys), old(sc.nc.names), key) &&
       sc.nc.names == NamesAfter(old(sc.nc.names), key, (r.value[(name, stars[0])], RStrip(file.1))))
    ensures Extends(old(sc.nc.names), sc.nc.names)
    ensures forall k :: Size(sc.nc.names, k) <= Size(old(sc.nc.names), k) + 1
    ensures forall t :: t in sc.nc.Tags() ==> t in old(sc.nc.Tags()) || fresh(t)
  {
    var c := ClassifyInput(file.0);
    if c.Err? {
      return Err(c.msg);
    }
    if c.value.None? {
      assert inputs.Keys + {} == inputs.Keys;
      return Ok(inputs);
    }
    var (name, stars) := c.value.value;
    var value := sc.Register(name, false, file.1);
    if value.Err? {
      return Err(value.msg);
    }
    var next := RecordStars(inputs, name, stars, value.value);
    return Ok(next);
  }

  /** Records `tag` as the input of the test of `name` for each star in `stars`. */
  method RecordStars(inputs: map<(string, nat), Tag>, name: string, stars: seq<nat>, tag: Tag)
    returns (next: map<(string, nat), Tag>)
    ensures next.Keys == inputs.Keys + set s | s in stars :: (name, s)
    ensures forall s :: s in stars ==> next[(name, s)] == tag
    ensures forall k :: k in inputs && (k.0 != name || k.1 !in stars) ==> next[k] == inputs[k]
  {
    next := inputs;
    var j := 0;
    while j < |stars|
      invariant 0 <= j <= |stars|
      invariant next.Keys == inputs.Keys + set s | s in stars[..j] :: (name, s)
      invariant forall s :: s in stars[..j] ==> next[(name, s)] == tag
      invariant forall k :: k in inputs && (k.0 != name || k.1 !in stars[..j]) ==> next[k] == inputs[k]
    {
      assert stars[..j + 1] == stars[..j] + [stars[j]];
      next := next[(name, stars[j]) := tag];
      j := j + 1;
    }
    assert stars[..j] == stars;
  }

  /** Every test registered has star one or two. */
  ghost predicate StarsValid(names: map<string, seq<(Tag, (nat, Tag, Tag))>>)
  {
    forall k, i :: k in names && 0 <= i < |names[k]| ==> names[k][i].1.0 in {1, 2}
  }

  /** The table after registering entries one after another under their keys. */
  function RegisterAll<T>(keys: seq<string>, names: map<string, seq<(Tag, T)>>, regs: seq<(string, (Tag, T))>):
    (seq<string>, map<string, seq<(Tag, T)>>)
  {
    if regs == [] then (keys, names)
    else
      var (k, n) := RegisterAll(keys, names, regs[..|regs| - 1]);
      var last := regs[|regs| - 1];
      (KeysAfter(k, n, last.0), NamesAfter(n, last.0, last.1))
  }

  /** Registration `j` is that of test `j`: under the lower-cased name (the prefix `example` for
      an all-digit one), with its star and the tag of the input serving it. */
  ghost predicate Registered(ts: seq<(string, nat)>, regs: seq<(string, (Tag, (nat, Tag, Tag)))>,
                             inputs: map<(string, nat), Tag>)
  {
    |regs| == |ts| &&
    forall j :: 0 <= j < |ts| ==>
      ts[j] in inputs && regs[j].0 == KeyOf(Lower(ts[j].0), "example") &&
      regs[j].1.1.0 == ts[j].1 && regs[j].1.1.1 == inputs[ts[j]]
  }

  lemma RegisteredGrows(ts: seq<(string, nat)>, regs: seq<(string, (Tag, (nat, Tag, Tag)))>,
                        inputs: map<(string, nat), Tag>, t: (string, nat), reg: (string, (Tag, (nat, Tag, Tag))))
    requires Registered(ts, regs, inputs)
    requires t in inputs && reg.0 == KeyOf(Lower(t.0), "example") && reg.1.1.0 == t.1 && reg.1.1.1 == inputs[t]
    ensures Registered(ts + [t], regs + [reg], inputs)
  {
  }

  /** The output tags of the registrations. */
  function OutputTags(regs: seq<(string, (Tag, (nat, Tag, Tag)))>): set<Tag>
  {
    set j | 0 <= j < |regs| :: regs[j].1.1.2
  }

  /** The output tag of registration `j` is the one issued for `texts[j]`. */
  ghost predicate OutputsRecorded(texts: seq<string>, regs: seq<(string, (Tag, (nat, Tag, Tag)))>,
                                  names: map<string, seq<(Tag, string)>>)
    reads OutputTags(regs)
  {
    |regs| == |texts| && forall j :: 0 <= j < |texts| ==> Issued(names, regs[j].1.1.2, texts[j])
  }

  /** The state of the output loop before file `i`: the tests `done` and output texts `texts`
      found so far lead those of the rest of the listing, registration `j` is that of test `j`,
      and its output tag is recorded for output text `j`. */
  ghost predicate OutputsSoFar(files: seq<(string, string)>, inputs: map<(string, nat), Tag>, i: nat,
                               done: seq<(string, nat)>, texts: seq<string>,
                               regs: seq<(string, (Tag, (nat, Tag, Tag)))>, names: map<string, seq<(Tag, string)>>)
    reads OutputTags(regs)
  {
    && i <= |files|
    && Tests(files, inputs.Keys) == Prepend(done, Tests(files[i..], inputs.Keys))
    && OutputTexts(files, inputs.Keys) == texts + OutputTexts(files[i..], inputs.Keys)
    && Registered(done, regs, inputs)
    && OutputsRecorded(texts, regs, names)
  }

  lemma OutputsStart(files: seq<(string, string)>, inputs: map<(string, nat), Tag>, names: map<string, seq<(Tag, string)>>)
    ensures OutputsSoFar(files, inputs, 0, [], [], [], names)
  {
    assert files[0..] == files && [] + OutputTexts(files, inputs.Keys) == OutputTexts(files, inputs.Keys);
    match Tests(files, inputs.Keys)
    case Err(_) =>
    case Ok(ts) => assert [] + ts == ts;
  }

  /** Once the whole listing is walked, the tests and output texts found so far are all of them. */
  lemma LoopDone(files: seq<(string, string)>, inputs: map<(string, nat), Tag>, done: seq<(string, nat)>,
                 texts: seq<string>, regs: seq<(string, (Tag, (nat, Tag, Tag)))>, names: map<string, seq<(Tag, string)>>)
    requires OutputsSoFar(files, inputs, |files|, done, texts, regs, names)
    ensures Tests(files, inputs.Keys) == Ok(done) && OutputTexts(files, inputs.Keys) == texts
    ensures Registered(done, regs, inputs) && OutputsRecorded(texts, regs, names)
  {
    assert files[|files|..] == [] && done + [] == done && texts + [] == texts;
  }

  /** A round of the output loop on an accepted file: a growing cache, and for an output file its
      registration with an output tag issued for the file's text, move the loop state past it. */
  lemma OutputsNext(files: seq<(string, string)>, inputs: map<(string, nat), Tag>, i: nat,
                    done: seq<(string, nat)>, texts: seq<string>, regs: seq<(string, (Tag, (nat, Tag, Tag)))>,
                    names: map<string, seq<(Tag, string)>>, names': map<string, seq<(Tag, string)>>,
                    reg: Option<(string, (Tag, (nat, Tag, Tag)))>)
    requires i < |files| && OutputsSoFar(files, inputs, i, done, texts, regs, names) && Extends(names, names')
    requires TestOf(files[i], inputs.Keys).Ok? && (reg.Some? <==> TestOf(files[i], inputs.Keys).value.Some?)
    requires reg.Some? ==>
      var t := TestOf(files[i], inputs.Keys).value.value;
      t in inputs && reg.value.0 == KeyOf(Lower(t.0), "example") && reg.value.1.1.0 == t.1 &&
      reg.value.1.1.1 == inputs[t] && Issued(names', reg.value.1.1.2, RStrip(files[i].1))
    ensures reg.Some? ==>
      OutputsSoFar(files, inputs, i + 1, done + [TestOf(files[i], inputs.Keys).value.value],
                   texts + [RStrip(files[i].1)], regs + [reg.value], names')
    ensures reg.None? ==> OutputsSoFar(files, inputs, i + 1, done, texts, regs, names')
  {
    var text := RStrip(files[i].1);
    if reg.Some? {
      var t := TestOf(files[i], inputs.Keys).value.value;
      TestsNext(files, inputs.Keys, i, done, [t]);
      TextsNext(files, inputs.Keys, i, texts, [text]);
      RegisteredGrows(done, regs, inputs, t, reg.value);
      OutputsRecordedStep(texts, regs, names, names', texts + [text], regs + [reg.value], text);
    } else {
      TestsNext(files, inputs.Keys, i, done, []);
      TextsNext(files, inputs.Keys, i, texts, []);
      assert done + [] == done && texts + [] == texts;
      OutputsRecordedExtends(texts, regs, names, names');
    }
  }

  /** A growing cache keeps every output tag recorded. */
  lemma OutputsRecordedExtends(texts: seq<string>, regs: seq<(string, (Tag, (nat, Tag, Tag)))>,
                               names: map<string, seq<(Tag, string)>>, names': map<string, seq<(Tag, string)>>)
    requires OutputsRecorded(texts, regs, names) && Extends(names, names')
    ensures OutputsRecorded(texts, regs, names')
  {
    forall j | 0 <= j < |texts| ensures Issued(names', regs[j].1.1.2, texts[j]) {
      IssuedExtends(names, names', regs[j].1.1.2, texts[j]);
    }
  }

  /** A round of the output loop that registers nothing, or one test whose output tag is issued
      for `text`, keeps every output tag recorded. */
  lemma OutputsRecordedStep(texts: seq<string>, regs: seq<(string, (Tag, (nat, Tag, Tag)))>,
                            names: map<string, seq<(Tag, string)>>, names': map<string, seq<(Tag, string)>>,
                            texts': seq<string>, regs': seq<(string, (Tag, (nat, Tag, Tag)))>, text: string)
    requires OutputsRecorded(texts, regs, names) && Extends(names, names')
    requires (regs' == regs && texts' == texts) ||
      (|regs'| == |regs| + 1 && regs'[..|regs|] == regs && texts' == texts + [text] &&
       Issued(names', regs'[|regs|].1.1.2, text))
    ensures OutputsRecorded(texts', regs', names')
  {
    OutputsRecordedExtends(texts, regs, names, names');
    if regs' != regs || texts' != texts {
      forall j | 0 <= j < |texts'| ensures Issued(names', regs'[j].1.1.2, texts'[j]) {
        if j < |texts| {
          assert texts'[j] == texts[j] && regs'[j] == regs[j];
        }
      }
    }
  }

  /** The output loop: registers the text of every output fixture in the cache, then a test under
      the lower-cased name (an all-digit name with the prefix `example`), holding its star, the
      tag of the input serving it and the tag of the expected output. */
  method RegisterTests(files: seq<(string, string)>, inputs: map<(string, nat), Tag>, sc: StringCache,
                       tests: NameCache<(nat, Tag, Tag)>)
    returns (r: Result<seq<(string, (Tag, (nat, Tag, Tag)))>>)
    requires sc.Valid() && tests.Valid() && StarsValid(tests.names)
    modifies sc.nc, tests
    ensures sc.Valid() && sc.nc == old(sc.nc) && tests.Valid() && StarsValid(tests.names)
    ensures r.Ok? <==> Tests(files, inputs.Keys).Ok?
    ensures r.Ok? ==> Registered(Tests(files, inputs.Keys).value, r.value, inputs)
    ensures r.Ok? ==> OutputsRecorded(OutputTexts(files, inputs.Keys), r.value, sc.nc.names)
    ensures Extends(old(sc.nc.names), sc.nc.names)
    ensures r.Ok? ==> (tests.keys, tests.names) == RegisterAll(old(tests.keys), old(tests.names), r.value)
    ensures r.Ok? ==> |tests.Entries()| == |old(tests.Entries())| + |r.value|
    ensures GrewBy(sc.nc.names, old(sc.nc.names), |files|) && GrewBy(tests.names, old(tests.names), |files|)
    ensures forall t :: t in sc.nc.Tags() ==> t in old(sc.nc.Tags()) || fresh(t)
    ensures forall t :: t in tests.Tags() ==> t in old(tests.Tags()) || fresh(t)
  {
    var regs: seq<(string, (Tag, (nat, Tag, Tag)))> := [];
    ghost var done: seq<(string, nat)> := [];
    ghost var texts: seq<string> := [];
    var i := 0;
    OutputsStart(files, inputs, sc.nc.names);
    while i < |files|
      invariant 0 <= i <= |files|
      invariant sc.Valid() && sc.nc == old(sc.nc) && tests.Valid() && StarsValid(tests.names)
      invariant OutputsSoFar(files, inputs, i, done, texts, regs, sc.nc.names)
      invariant Extends(old(sc.nc.names), sc.nc.names)
      invariant (tests.keys, tests.names) == RegisterAll(old(tests.keys), old(tests.names), regs)
      invariant |tests.Entries()| == |old(tests.Entries())| + |regs|
      invariant GrewBy(sc.nc.names, old(sc.nc.names), i) && GrewBy(tests.names, old(tests.names), i)
      invariant forall t :: t in sc.nc.Tags() ==> t in old(sc.nc.Tags()) || fresh(t)
      invariant forall t :: t in tests.Tags() ==> t in old(tests.Tags()) || fresh(t)
    {
      var next;
      next, done, texts := OutputRound(files, i, inputs, sc, tests, regs, done, texts, old(tests.keys),
                                       old(tests.names), |old(tests.Entries())|, old(sc.nc.names));
      if next.Err? {
        GrewByMore(sc.nc.names, old(sc.nc.names), i + 1, |files|);
        GrewByMore(tests.names, old(tests.names), i + 1, |files|);
        return Err(next.msg);
      }
      regs := next.value;
      i := i + 1;
    }
    LoopDone(files, inputs, done, texts, regs, sc.nc.names);
    return Ok(regs);
  }

  /** The body of the output loop with its bookkeeping: the tests, output texts and registrations
      so far grow by those of file `i`, or the listing's tests fail. The tables are measured
      against `keys0`, `names0`, `count0` and `scNames0`, those before the loop. */
  method OutputRound(files: seq<(string, string)>, i: nat, inputs: map<(string, nat), Tag>, sc: StringCache,
                     tests: NameCache<(nat, Tag, Tag)>, regs: seq<(string, (Tag, (nat, Tag, Tag)))>,
                     ghost done: seq<(string, nat)>, ghost texts: seq<string>, ghost keys0: seq<string>,
                     ghost names0: map<string, seq<(Tag, (nat, Tag, Tag))>>, ghost count0: nat,
                     ghost scNames0: map<string, seq<(Tag, string)>>)
    returns (r: Result<seq<(string, (Tag, (nat, Tag, Tag)))>>, ghost done': seq<(string, nat)>,
             ghost texts': seq<string>)
    requires i < |files|
    requires sc.Valid() && tests.Valid() && StarsValid(tests.names)
    requires OutputsSoFar(files, inputs, i, done, texts, regs, sc.nc.names)
    requires (tests.keys, tests.names) == RegisterAll(keys0, names0, regs)
    requires |tests.Entries()| == count0 + |regs|
    requires GrewBy(sc.nc.names, scNames0, i) && GrewBy(tests.names, names0, i) && Extends(scNames0, sc.nc.names)
    modifies sc.nc, tests
    ensures sc.Valid() && sc.nc == old(sc.nc) && tests.Valid() && StarsValid(tests.names)
    ensures r.Err? ==> Tests(files, inputs.Keys).Err?
    ensures r.Ok? ==>
      OutputsSoFar(files, inputs, i + 1, done', texts', r.value, sc.nc.names) &&
      (tests.keys, tests.names) == RegisterAll(keys0, names0, r.value) &&
      |tests.Entries()| == count0 + |r.value|
    ensures r.Ok? && |r.value| > |regs| ==> Issued(sc.nc.names, r.value[|regs|].1.1.2, RStrip(files[i].1))
    ensures Extends(old(sc.nc.names), sc.nc.names) && Extends(scNames0, sc.nc.names)
    ensures GrewBy(sc.nc.names, scNames0, i + 1) && GrewBy(tests.names, names0, i + 1)
    ensures forall t :: t in sc.nc.Tags() ==> t in old(sc.nc.Tags()) || fresh(t)
    ensures forall t :: t in tests.Tags() ==> t in old(tests.Tags()) || fresh(t)
  {
    ghost var (names, testNames) := (sc.nc.names, tests.names);
    var next := TestStep(files[i], inputs, sc, tests);
    GrewByTrans(scNames0, names, sc.nc.names, i, 1);
    GrewByTrans(names0, testNames, tests.names, i, 1);
    ExtendsTrans(scNames0, names, sc.nc.names);
    if next.Err? {
      RoundFails(files, inputs.Keys, i, done);
      return Err(next.msg), done, texts;
    }
    OutputsNext(files, inputs, i, done, texts, regs, names, sc.nc.names, next.value);
    if next.value.Some? {
      var grown := regs + [next.value.value];
      assert grown[..|grown| - 1] == regs;
      return Ok(grown), done + [TestOf(files[i], inputs.Keys).value.value], texts + [RStrip(files[i].1)];
    } else {
      return Ok(regs), done, texts;
    }
  }

  /** One round of the output loop: an output fixture's text is registered in the cache and its
      test under the lower-cased name; any other file changes neither table. */
  method TestStep(file: (string, string), inputs: map<(string, nat), Tag>, sc: StringCache,
                  tests: NameCache<(nat, Tag, Tag)>)
    returns (r: Result<Option<(string, (Tag, (nat, Tag, Tag)))>>)
    requires sc.Valid() && tests.Valid() && StarsValid(tests.names)
    modifies sc.nc, tests
    ensures sc.Valid() && sc.nc == old(sc.nc) && tests.Valid() && StarsValid(tests.names)
    ensures r.Ok? <==> TestOf(file, inputs.Keys).Ok?
    ensures r.Ok? ==> (r.value.Some? <==> TestOf(file, inputs.Keys).value.Some?)
    ensures r.Ok? && r.value.None? ==> tests.keys == old(tests.keys) && tests.names == old(tests.names)
    ensures r.Ok? && r.value.Some? ==>
      var t, (key, entry) := TestOf(file, inputs.Keys).value.value, r.value.value;
      t in inputs && key == KeyOf(Lower(t.0), "example") && entry.1.0 == t.1 && entry.1.1 == inputs[t] &&
      tests.keys == KeysAfter(old(tests.keys), old(tests.names), key) &&
      tests.names == NamesAfter(old(tests.names), key, entry) &&
      |tests.Entries()| == |old(tests.Entries())| + 1
    ensures r.Ok? && r.value.Some? ==> Issued(sc.nc.names, r.value.value.1.1.2, RStrip(file.1))
    ensures Extends(old(sc.nc.names), sc.nc.names)
    ensures forall k :: Size(sc.nc.names, k) <= Size(old(sc.nc.names), k) + 1
    ensures forall t :: t in sc.nc.Tags() ==> t in old(sc.nc.Tags()) || fresh(t)
    ensures forall k :: Size(tests.names, k) <= Size(old(tests.names), k) + 1
    ensures forall t :: t in tests.Tags() ==> t in old(tests.Tags()) || fresh(t)
  {
    var c := ClassifyOutput(file.0);
    if c.Err? {
      return Err(c.msg);
    }
    if c.value.None? {
      return Ok(None);
    }
    var (name, star) := c.value.value;
    ClassifyOutputSound(file.0);
    var t := OutputTest(name, star, file.1, inputs, sc, tests);
    if t.Err? {
      return Err(t.msg);
    }
    return Ok(Some(t.value));
  }

  /** The body of the output loop for an output fixture: its text is registered in the cache,
      the input of its test looked up, and the test registered under the lower-cased name. */
  method OutputTest(name: string, star: nat, contents: string, inputs: map<(string, nat), Tag>, sc: StringCache,
                    tests: NameCache<(nat, Tag, Tag)>)
    returns (r: Result<(string, (Tag, (nat, Tag, Tag)))>)
    requires sc.Valid() && tests.Valid() && StarsValid(tests.names) && star in {1, 2}
    modifies sc.nc, tests
    ensures sc.Valid() && sc.nc == old(sc.nc) && tests.Valid() && StarsValid(tests.names)
    ensures r.Ok? <==> !CacheFails(contents) && (name, star) in inputs
    ensures r.Ok? ==>
      var (key, entry) := r.value;
      (name, star) in inputs && key == KeyOf(Lower(name), "example") && entry.1.0 == star && entry.1.1 == inputs[(name, star)] &&
      tests.keys == KeysAfter(old(tests.keys), old(tests.names), key) &&
      tests.names == NamesAfter(old(tests.names), key, entry) &&
      |tests.Entries()| == |old(tests.Entries())| + 1
    ensures r.Ok? ==> Issued(sc.nc.names, r.value.1.1.2, RStrip(contents))
    ensures Extends(old(sc.nc.names), sc.nc.names)
    ensures forall k :: Size(sc.nc.names, k) <= Size(old(sc.nc.names), k) + 1
    ensures forall t :: t in sc.nc.Tags() ==> t in old(sc.nc.Tags()) || fresh(t)
    ensures forall k :: Size(tests.names, k) <= Size(old(tests.names), k) + 1
    ensures forall t :: t in tests.Tags() ==> t in old(tests.Tags()) || fresh(t)
  {
    var value := sc.Register(name, true, contents);
    if value.Err? {
      return Err(value.msg);
    }
    if (name, star) !in inputs {
      return Err("KeyError");
    }
    var entry := (star, inputs[(name, star)], value.value);
    var tag := AddTest(tests, name, entry);
    return Ok((KeyOf(Lower(name), "example"), (tag, entry)));
  }

  /** One registration of the output loop, with what it does to the iterator's length and to the
      stars held. */
  method AddTest(tests: NameCache<(nat, Tag, Tag)>, name: string, entry: (nat, Tag, Tag)) returns (tag: Tag)
    requires tests.Valid() && StarsValid(tests.names) && entry.0 in {1, 2}
    modifies tests
    ensures tests.Valid() && StarsValid(tests.names)
    ensures tests.keys == KeysAfter(old(tests.keys), old(tests.names), KeyOf(Lower(name), "example"))
    ensures tests.names == NamesAfter(old(tests.names), KeyOf(Lower(name), "example"), (tag, entry))
    ensures |tests.Entries()| == |old(tests.Entries())| + 1
    ensures forall k :: Size(tests.names, k) <= Size(old(tests.names), k) + 1
    ensures fresh(tag) && tests.Tags() == old(tests.Tags()) + {tag}
  {
    tag := tests.Register(Lower(name), "example", entry);
    EntriesGrow(old(tests.keys), old(tests.names), KeyOf(Lower(name), "example"), (tag, entry));
    StarsAfter(old(tests.names), KeyOf(Lower(name), "example"), (tag, entry));
    SizeAfter(old(tests.names), KeyOf(Lower(name), "example"), (tag, entry));
  }

  /** Registering a test of star one or two keeps every star one or two. */
  lemma StarsAfter(names: map<string, seq<(Tag, (nat, Tag, Tag))>>, key: string, entry: (Tag, (nat, Tag, Tag)))
    requires StarsValid(names) && entry.1.0 in {1, 2}
    ensures StarsValid(NamesAfter(names, key, entry))
  {
    var after: map<string, seq<(Tag, (nat, Tag, Tag))>> := NamesAfter(names, key, entry);
    forall k: string, i: int | k in after && 0 <= i < |after[k]| ensures after[k][i].1.0 in {1, 2} {
      if k == key && key in names && i < |names[key]| {
        assert after[k][i] == names[key][i];
      }
    }
  }

  /** A registered test as the rendering reads it: its resolved name, its star, and the resolved
      names of its input and of its expected output. */
  type TestItem = (Option<string>, nat, Option<string>, Option<string>)

  /** The `star_test!` line of one test. */
  function LineOf(t: TestItem): Result<string>
  {
    TestLine(t.0, t.1, t.2, t.3)
  }

  /** The tags the rendering reads of the registered tests. */
  function TestTags(entries: seq<(Tag, (nat, Tag, Tag))>): set<Tag>
  {
    (set i | 0 <= i < |entries| :: entries[i].0) + (set i | 0 <= i < |entries| :: entries[i].1.1) +
    (set i | 0 <= i < |entries| :: entries[i].1.2)
  }

  /** What the rendering sees of the registered tests, in iteration order. */
  function TestItems(entries: seq<(Tag, (nat, Tag, Tag))>): (r: seq<TestItem>)
    reads TestTags(entries)
    ensures |r| == |entries|
    ensures forall i :: 0 <= i < |entries| ==>
      r[i] == (entries[i].0.resolved, entries[i].1.0, entries[i].1.1.resolved, entries[i].1.2.resolved)
  {
    if entries == [] then []
    else
      var last := entries[|entries| - 1];
      assert TestTags(entries[..|entries| - 1]) <= TestTags(entries);
      TestItems(entries[..|entries| - 1]) + [(last.0.resolved, last.1.0, last.1.1.resolved, last.1.2.resolved)]
  }

  /** The tests of one star, in iteration order. */
  function OfStar(items: seq<TestItem>, star: nat): (r: seq<TestItem>)
    ensures forall t :: t in r ==> t in items && t.1 == star
    ensures forall j :: 0 <= j < |items| && items[j].1 == star ==> items[j] in r
  {
    if items == [] then []
    else
      var rest := OfStar(items[1..], star);
      assert forall j :: 1 <= j < |items| ==> items[j] == items[1..][j - 1];
      (if items[0].1 == star then [items[0]] else []) + rest
  }

  /** The lines of a list of tests, or the first failure among them. */
  function Lines(items: seq<TestItem>): Result<seq<string>>
  {
    if items == [] then Ok([])
    else
      match LineOf(items[0])
      case Err(e) => Err(e)
      case Ok(l) =>
        match Lines(items[1..])
        case Err(e) => Err(e)
        case Ok(ls) => Ok([l] + ls)
  }

  /** The generated module: the tests of star one, then those of star two, then the dumped
      constants, each failing where the source does. */
  function GenModule(items: seq<TestItem>, dump: Result<string>): Result<string>
  {
    match Lines(OfStar(items, 1))
    case Err(e) => Err(e)
    case Ok(l1) =>
      match Lines(OfStar(items, 2))
      case Err(e) => Err(e)
      case Ok(l2) =>
        match dump
        case Err(e) => Err(e)
        case Ok(d) => Ok(TestModule(l1, l2, d))
  }

  /** The lines of a list of tests are one line per test, in order, and exist exactly when every
      test's tags are resolved. */
  lemma {:induction false} LinesMeaning(items: seq<TestItem>)
    ensures Lines(items).Ok? <==> forall j :: 0 <= j < |items| ==> LineOf(items[j]).Ok?
    ensures Lines(items).Ok? ==>
      |Lines(items).value| == |items| && forall j :: 0 <= j < |items| ==> Lines(items).value[j] == LineOf(items[j]).value
  {
    if items != [] {
      LinesMeaning(items[1..]);
      assert forall j :: 1 <= j < |items| ==> items[j] == items[1..][j - 1];
    }
  }

  /** With every star one or two, the two stars' tests together are all the tests. */
  lemma {:induction false} OfStarSplit(items: seq<TestItem>)
    requires forall j :: 0 <= j < |items| ==> items[j].1 in {1, 2}
    ensures |OfStar(items, 1)| + |OfStar(items, 2)| == |items|
  {
    if items != [] {
      assert forall j :: 1 <= j < |items[1..]| + 1 ==> items[1..][j - 1] == items[j];
      OfStarSplit(items[1..]);
    }
  }

  /** `sub` occurs in a text that ends with a text holding it. */
  lemma ContainsLeft(a: string, b: string, sub: string)
    requires Contains(b, sub)
    ensures Contains(a + b, sub)
  {
    var i: nat :| i <= |b| && OccursAt(b, sub, i);
    assert (a + b)[|a| + i..|a| + i + |sub|] == b[i..i + |sub|];
    assert OccursAt(a + b, sub, |a| + i);
  }

  /** `sub` occurs in a text that starts with a text holding it. */
  lemma ContainsRight(a: string, b: string, sub: string)
    requires Contains(a, sub)
    ensures Contains(a + b, sub)
  {
    var i: nat :| i <= |a| && OccursAt(a, sub, i);
    assert (a + b)[i..i + |sub|] == a[i..i + |sub|];
    assert OccursAt(a + b, sub, i);
  }

  /** Every line occurs in the lines joined. */
  lemma {:induction false} JoinLinesHas(lines: seq<string>, j: nat)
    requires j < |lines|
    ensures Contains(JoinLines(lines), lines[j])
  {
    if j == 0 {
      assert OccursAt(lines[0], lines[0], 0);
      if |lines| > 1 {
        ContainsRight(lines[0], "\n", lines[0]);
        ContainsRight(lines[0] + "\n", JoinLines(lines[1..]), lines[0]);
      }
    } else {
      JoinLinesHas(lines[1..], j - 1);
      ContainsLeft(lines[0] + "\n", JoinLines(lines[1..]), lines[j]);
    }
  }

  /** A line of a star's tests occurs in the module. */
  lemma TestModuleHas(l1: seq<string>, l2: seq<string>, d: string, line: string)
    requires line in l1 || line in l2
    ensures Contains(TestModule(l1, l2, d), line)
  {
    var h := ModuleHeader(d);
    if line in l1 {
      var j :| 0 <= j < |l1| && l1[j] == line;
      JoinLinesHas(l1, j);
      ContainsLeft("\n\n", JoinLines(l1), line);
      ContainsLeft(h, StarSection(l1), line);
      ContainsRight(h + StarSection(l1), StarSection(l2), line);
    } else {
      var j :| 0 <= j < |l2| && l2[j] == line;
      JoinLinesHas(l2, j);
      ContainsLeft("\n\n", JoinLines(l2), line);
      ContainsLeft(h + StarSection(l1), StarSection(l2), line);
    }
    ContainsRight(h + StarSection(l1) + StarSection(l2), d, line);
    ContainsRight(h + StarSection(l1) + StarSection(l2) + d, "\n}\n", line);
  }

  /** The module is rendered exactly when the constants are dumped and every test of star one or
      two has its line. */
  lemma GenModuleOk(items: seq<TestItem>, dump: Result<string>)
    ensures GenModule(items, dump).Ok? <==>
      dump.Ok? && forall j :: 0 <= j < |items| && items[j].1 in {1, 2} ==> LineOf(items[j]).Ok?
  {
    var o1, o2 := OfStar(items, 1), OfStar(items, 2);
    LinesMeaning(o1);
    LinesMeaning(o2);
  }

  /** Once rendered, the module holds the `star_test!` line of each test of star one or two. */
  lemma GenModuleHas(items: seq<TestItem>, dump: Result<string>)
    ensures GenModule(items, dump).Ok? ==> forall j :: 0 <= j < |items| && items[j].1 in {1, 2} ==>
      LineOf(items[j]).Ok? && Contains(GenModule(items, dump).value, LineOf(items[j]).value)
  {
    if GenModule(items, dump).Ok? {
      forall j | 0 <= j < |items| && items[j].1 in {1, 2}
        ensures LineOf(items[j]).Ok? && Contains(GenModule(items, dump).value, LineOf(items[j]).value)
      {
        GenModuleHasOne(items, dump, j);
      }
    }
  }

  /** The line of test `j` of a rendered module occurs in it. */
  lemma GenModuleHasOne(items: seq<TestItem>, dump: Result<string>, j: nat)
    requires GenModule(items, dump).Ok? && j < |items| && items[j].1 in {1, 2}
    ensures LineOf(items[j]).Ok? && Contains(GenModule(items, dump).value, LineOf(items[j]).value)
  {
    var o1, o2 := OfStar(items, 1), OfStar(items, 2);
    LinesMeaning(o1);
    LinesMeaning(o2);
    var l1, l2 := Lines(o1).value, Lines(o2).value;
    assert GenModule(items, dump).value == TestModule(l1, l2, dump.value);
    if items[j].1 == 1 {
      var q :| 0 <= q < |o1| && o1[q] == items[j];
      TestModuleHas(l1, l2, dump.value, l1[q]);
    } else {
      var q :| 0 <= q < |o2| && o2[q] == items[j];
      TestModuleHas(l1, l2, dump.value, l2[q]);
    }
  }

  /** With every star one or two, the two stars' sections of the module hold one line per test. */
  lemma GenModuleShape(items: seq<TestItem>, dump: Result<string>)
    requires forall j :: 0 <= j < |items| ==> items[j].1 in {1, 2}
    ensures GenModule(items, dump).Ok? ==>
      exists l1, l2 :: GenModule(items, dump).value == TestModule(l1, l2, dump.value) && |l1| + |l2| == |items|
  {
    var o1, o2 := OfStar(items, 1), OfStar(items, 2);
    if GenModule(items, dump).Ok? {
      LinesMeaning(o1);
      LinesMeaning(o2);
      OfStarSplit(items);
      var l1, l2 := Lines(o1).value, Lines(o2).value;
      assert GenModule(items, dump).value == TestModule(l1, l2, dump.value) && |l1| + |l2| == |items|;
    }
  }

  /** The end of the generator: resolves the constants' names, then the tests' names, then renders
      the module from what the tags now hold. Fails where a resolution fails. */
  method Render(sc: StringCache, tests: NameCache<(nat, Tag, Tag)>) returns (r: Result<string>)
    requires sc.Valid() && tests.Valid()
    requires forall k :: k in sc.nc.names ==> |sc.nc.names[k]| <= MaxEntries
    requires forall k :: k in tests.names ==> |tests.names[k]| <= MaxEntries
    modifies sc.nc.Tags(), tests.Tags()
    ensures FirstUnresolvable(sc.nc.keys, sc.nc.names) < |sc.nc.keys| ==> r.Err?
    ensures FirstUnresolvable(tests.keys, tests.names) < |tests.keys| ==> r.Err?
    ensures (FirstUnresolvable(sc.nc.keys, sc.nc.names) == |sc.nc.keys| &&
             FirstUnresolvable(tests.keys, tests.names) == |tests.keys|) ==>
      r == GenModule(TestItems(tests.Entries()), DumpText(Snapshot(sc.nc.Entries())))
  {
    var ok := sc.Resolve();
    if !ok {
      return Err("IndexError");
    }
    ok := tests.Resolve();
    if !ok {
      return Err("IndexError");
    }
    r := RenderText(sc, tests);
  }

  /** The rendering proper, once every name is resolved: the test lines of star one, those of
      star two, then the constants' dump. */
  method RenderText(sc: StringCache, tests: NameCache<(nat, Tag, Tag)>) returns (r: Result<string>)
    requires sc.Valid()
    ensures r == GenModule(TestItems(tests.Entries()), DumpText(Snapshot(sc.nc.Entries())))
  {
    ghost var snap := Snapshot(sc.nc.Entries());
    var dump := sc.Dump();
    assert Snapshot(sc.nc.Entries()) == snap;
    var items := TestItems(tests.Entries());
    r := GenModule(items, dump);
  }

  /** The stars of the tests the iterator yields are one or two. */
  lemma StarsOfEntries(keys: seq<string>, names: map<string, seq<(Tag, (nat, Tag, Tag))>>)
    requires StarsValid(names)
    ensures forall i :: 0 <= i < |EntriesOf(keys, names)| ==> EntriesOf(keys, names)[i].1.0 in {1, 2}
  {
    forall i | 0 <= i < |EntriesOf(keys, names)| ensures EntriesOf(keys, names)[i].1.0 in {1, 2} {
      EntriesIn(keys, names, i);
    }
  }

  /** The iterator yields every entry of every key's list. */
  lemma {:induction false} EntriesHas<T>(keys: seq<string>, names: map<string, seq<(Tag, T)>>, k: string, e: (Tag, T))
    requires k in keys && k in names && e in names[k]
    ensures e in EntriesOf(keys, names)
  {
    if keys[0] != k {
      EntriesHas(keys[1..], names, k, e);
    }
  }

  /** Every registration made is held in the table afterwards, under its key. */
  lemma {:induction false} RegisterAllHas<T>(keys: seq<string>, names: map<string, seq<(Tag, T)>>,
                                             regs: seq<(string, (Tag, T))>, j: nat)
    requires j < |regs|
    ensures var n := RegisterAll(keys, names, regs).1; regs[j].0 in n && regs[j].1 in n[regs[j].0]
  {
    var front := regs[..|regs| - 1];
    var n := RegisterAll(keys, names, front).1;
    var last := regs[|regs| - 1];
    if j < |regs| - 1 {
      RegisterAllHas(keys, names, front, j);
      assert front[j] == regs[j];
      ExtendsAfter(n, last.0, last.1);
    }
  }

  /** The test of registration `j` is an entry of the table the registrations built. */
  lemma RegisteredEntry(keys: seq<string>, names: map<string, seq<(Tag, (nat, Tag, Tag))>>,
                        regs: seq<(string, (Tag, (nat, Tag, Tag)))>, j: nat)
    requires j < |regs| && KeysMatch(RegisterAll(keys, names, regs).0, RegisterAll(keys, names, regs).1)
    ensures regs[j].1 in EntriesOf(RegisterAll(keys, names, regs).0, RegisterAll(keys, names, regs).1)
  {
    var (k, n) := RegisterAll(keys, names, regs);
    RegisterAllHas(keys, names, regs, j);
    EntriesHas(k, n, regs[j].0, regs[j].1);
  }

  /** The text holds a `star_test!` line of the given star. */
  ghost predicate HasStarLine(text: string, star: nat)
  {
    exists n, i, o :: Contains(text, StarTest(n, star, i, o))
  }

  /** `gen_day` on a directory listing, as (file name, contents) pairs in sorted order: fails on
      a bad fixture name, on text the cache cannot inline and on a test without an input;
      otherwise renders a module with one `star_test!` line per output fixture, each of its
      fixture's star. */
  method GenDay(files: seq<(string, string)>) returns (r: Result<string>)
    requires 2 * |files| <= MaxEntries
    ensures InputKeys(files).Err? ==> r.Err?
    ensures InputKeys(files).Ok? && Tests(files, InputKeys(files).value).Err? ==> r.Err?
    ensures r.Ok? ==> (InputKeys(files).Ok? && Tests(files, InputKeys(files).value).Ok? &&
      exists l1, l2, d :: r.value == TestModule(l1, l2, d) &&
        |l1| + |l2| == |Tests(files, InputKeys(files).value).value|)
    ensures r.Ok? ==> forall j :: 0 <= j < |Tests(files, InputKeys(files).value).value| ==>
      HasStarLine(r.value, Tests(files, InputKeys(files).value).value[j].1)
  {
    var sc := new StringCache();
    var inputs := RegisterInputs(files, sc);
    if inputs.Err? {
      return Err(inputs.msg);
    }
    r := GenTests(files, inputs.value, sc);
  }

  /** The output loop of `gen_day` and the rendering, once the inputs are registered. */
  method GenTests(files: seq<(string, string)>, inputs: map<(string, nat), Tag>, sc: StringCache)
    returns (r: Result<string>)
    requires 2 * |files| <= MaxEntries && sc.Valid()
    requires forall k :: Size(sc.nc.names, k) <= |files|
    modifies sc.nc, sc.nc.Tags()
    ensures Tests(files, inputs.Keys).Err? ==> r.Err?
    ensures r.Ok? ==> (Tests(files, inputs.Keys).Ok? &&
      exists l1, l2, d :: r.value == TestModule(l1, l2, d) && |l1| + |l2| == |Tests(files, inputs.Keys).value|)
    ensures r.Ok? ==> forall j :: 0 <= j < |Tests(files, inputs.Keys).value| ==>
      HasStarLine(r.value, Tests(files, inputs.Keys).value[j].1)
  {
    var tests := new NameCache<(nat, Tag, Tag)>();
    var regs := RegisterTests(files, inputs, sc, tests);
    if regs.Err? {
      return Err(regs.msg);
    }
    ghost var ts := Tests(files, inputs.Keys).value;
    assert |tests.Entries()| == |ts|;
    assert forall k :: k in sc.nc.names ==> |sc.nc.names[k]| == Size(sc.nc.names, k);
    assert forall k :: k in tests.names ==> |tests.names[k]| == Size(tests.names, k);
    r := RenderTests(ts, regs.value, inputs, sc, tests);
  }

  /** The end of `gen_day` after both loops: the rendering holds one line per test, and a line of
      each test's star. */
  method RenderTests(ghost ts: seq<(string, nat)>, regs: seq<(string, (Tag, (nat, Tag, Tag)))>,
                     inputs: map<(string, nat), Tag>, sc: StringCache, tests: NameCache<(nat, Tag, Tag)>)
    returns (r: Result<string>)
    requires sc.Valid() && tests.Valid() && StarsValid(tests.names)
    requires forall k :: k in sc.nc.names ==> |sc.nc.names[k]| <= MaxEntries
    requires forall k :: k in tests.names ==> |tests.names[k]| <= MaxEntries
    requires Registered(ts, regs, inputs) && (tests.keys, tests.names) == RegisterAll([], map[], regs)
    requires |tests.Entries()| == |ts|
    modifies sc.nc.Tags(), tests.Tags()
    ensures r.Ok? ==> exists l1, l2, d :: r.value == TestModule(l1, l2, d) && |l1| + |l2| == |ts|
    ensures r.Ok? ==> forall j :: 0 <= j < |ts| ==> HasStarLine(r.value, ts[j].1)
  {
    ghost var entries := tests.Entries();
    RegisteredEntries(ts, regs, inputs, entries);
    r := RenderDay(sc, tests);
    if r.Ok? {
      TestsInModule(ts, regs, entries, r.value);
    }
  }

  /** Each registered test is an entry of the table, with its star. */
  lemma RegisteredEntries(ts: seq<(string, nat)>, regs: seq<(string, (Tag, (nat, Tag, Tag)))>,
                          inputs: map<(string, nat), Tag>, entries: seq<(Tag, (nat, Tag, Tag))>)
    requires Registered(ts, regs, inputs)
    requires KeysMatch(RegisterAll([], map[], regs).0, RegisterAll([], map[], regs).1)
    requires entries == EntriesOf(RegisterAll([], map[], regs).0, RegisterAll([], map[], regs).1)
    ensures |regs| == |ts| && forall j :: 0 <= j < |ts| ==> regs[j].1 in entries && regs[j].1.1.0 == ts[j].1
  {
    forall j | 0 <= j < |ts| ensures regs[j].1 in entries {
      RegisteredEntry([], map[], regs, j);
    }
  }

  /** A module holding a line of each entry's star holds one of each test's star. */
  lemma TestsInModule(ts: seq<(string, nat)>, regs: seq<(string, (Tag, (nat, Tag, Tag)))>,
                      entries: seq<(Tag, (nat, Tag, Tag))>, text: string)
    requires |regs| == |ts| && forall j :: 0 <= j < |ts| ==> regs[j].1 in entries && regs[j].1.1.0 == ts[j].1
    requires forall e :: e in entries ==> HasStarLine(text, e.1.0)
    ensures forall j :: 0 <= j < |ts| ==> HasStarLine(text, ts[j].1)
  {
  }

  /** The rendering of `gen_day`, on tables within the size a listing gives them: the module of
      the resolved tests and constants, with a `star_test!` line of its star for every test. */
  method RenderDay(sc: StringCache, tests: NameCache<(nat, Tag, Tag)>) returns (r: Result<string>)
    requires sc.Valid() && tests.Valid() && StarsValid(tests.names)
    requires forall k :: k in sc.nc.names ==> |sc.nc.names[k]| <= MaxEntries
    requires forall k :: k in tests.names ==> |tests.names[k]| <= MaxEntries
    modifies sc.nc.Tags(), tests.Tags()
    ensures FirstUnresolvable(sc.nc.keys, sc.nc.names) < |sc.nc.keys| ==> r.Err?
    ensures FirstUnresolvable(tests.keys, tests.names) < |tests.keys| ==> r.Err?
    ensures (FirstUnresolvable(sc.nc.keys, sc.nc.names) == |sc.nc.keys| &&
             FirstUnresolvable(tests.keys, tests.names) == |tests.keys|) ==>
      r == GenModule(TestItems(tests.Entries()), DumpText(Snapshot(sc.nc.Entries())))
    ensures r.Ok? ==> exists l1, l2, d :: r.value == TestModule(l1, l2, d) && |l1| + |l2| == |tests.Entries()|
    ensures r.Ok? ==> forall e :: e in tests.Entries() ==> HasStarLine(r.value, e.1.0)
  {
    ghost var keys, names := tests.keys, tests.names;
    StarsOfEntries(keys, names);
    r := Render(sc, tests);
    if r.Ok? {
      assert tests.keys == keys && tests.names == names;
      ghost var entries := tests.Entries();
      ModuleShape(entries, TestItems(entries), DumpText(Snapshot(sc.nc.Entries())), r);
    }
  }

  /** A rendered module of tests of star one or two has one line per test in its two sections,
      and a `star_test!` line of each test's star. */
  lemma ModuleShape(entries: seq<(Tag, (nat, Tag, Tag))>, items: seq<TestItem>, dump: Result<string>, r: Result<string>)
    requires forall i :: 0 <= i < |entries| ==> entries[i].1.0 in {1, 2}
    requires |items| == |entries| && forall i :: 0 <= i < |entries| ==> items[i].1 == entries[i].1.0
    requires r == GenModule(items, dump) && r.Ok?
    ensures exists l1, l2, d :: r.value == TestModule(l1, l2, d) && |l1| + |l2| == |entries|
    ensures forall e :: e in entries ==> HasStarLine(r.value, e.1.0)
  {
    GenModuleShape(items, dump);
    forall e | e in entries ensures HasStarLine(r.value, e.1.0) {
      var p :| 0 <= p < |entries| && entries[p] == e;
      GenModuleHasOne(items, dump, p);
    }
  }
}
