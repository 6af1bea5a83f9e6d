// The transmission decoder: a reader that hands out the bits of a byte sequence most significant
// first through a 64-bit cache, packets parsed from those bits, and the two sums over a packet.

module Packets {

  datatype Option<T> = None | Some(value: T)

  type Byte = x: nat | x < 256

  function Pow2(k: nat): (r: nat)
    ensures r >= 1
  {
    if k == 0 then 1 else 2 * Pow2(k - 1)
  }

  const U64Limit: nat := 0x1_0000_0000_0000_0000

  // ---------------------------------------------------------------------------------------
  // Bits and their values

  /** The number that the bits `s` spell, most significant first. */
  function BitsValue(s: seq<bool>): (r: nat)
    ensures r < Pow2(|s|)
  {
    if s == [] then 0 else 2 * BitsValue(s[..|s| - 1]) + (if s[|s| - 1] then 1 else 0)
  }

  /** The low `k` bits of `v`, most significant first. */
  function NatBits(v: nat, k: nat): (r: seq<bool>)
    ensures |r| == k && BitsValue(r) == v % Pow2(k)
  {
    if k == 0 then []
    else
      var r := NatBits(v / 2, k - 1) + [v % 2 == 1];
      assert r[..|r| - 1] == NatBits(v / 2, k - 1);
      DivMod2(v, k - 1);
      r
  }

  lemma DivMod2(v: nat, k: nat)
    ensures v % Pow2(k + 1) == 2 * ((v / 2) % Pow2(k)) + v % 2
    ensures v / Pow2(k + 1) == (v / 2) / Pow2(k)
  {
    var q := (v / 2) / Pow2(k);
    var r := (v / 2) % Pow2(k);
    Doubled(v, q, Pow2(k), r, v % 2);
    DivUnique(v, Pow2(k + 1), q, 2 * r + v % 2);
  }

  lemma Doubled(v: nat, q: nat, p: nat, r: nat, b: nat)
    requires v / 2 == q * p + r && b == v % 2
    ensures v == q * (2 * p) + (2 * r + b)
  {
  }

  /** `x >> n`. */
  function Shr(x: nat, n: nat): nat
  {
    if n == 0 then x else Shr(x / 2, n - 1)
  }

  /** `x & ((1 << n) - 1)`: the low `n` bits of `x`. */
  function Low(x: nat, n: nat): nat
  {
    if n == 0 then 0 else 2 * Low(x / 2, n - 1) + x % 2
  }

  lemma {:induction false} ShrDiv(x: nat, n: nat)
    ensures Shr(x, n) == x / Pow2(n)
  {
    if n > 0 {
      ShrDiv(x / 2, n - 1);
      DivMod2(x, n - 1);
    }
  }

  lemma {:induction false} LowMod(x: nat, n: nat)
    ensures Low(x, n) == x % Pow2(n)
  {
    if n > 0 {
      LowMod(x / 2, n - 1);
      DivMod2(x, n - 1);
    }
  }

  /** The bits of the bytes `d`, eight per byte. */
  function Stream(d: seq<Byte>): (r: seq<bool>)
    ensures |r| == 8 * |d|
  {
    if d == [] then [] else Stream(d[..|d| - 1]) + NatBits(d[|d| - 1], 8)
  }

  lemma {:induction false} StreamPrefix(d: seq<Byte>, n: nat)
    requires n <= |d|
    ensures Stream(d[..n]) == Stream(d)[..8 * n]
    decreases |d|
  {
    if n < |d| {
      assert d[..|d| - 1][..n] == d[..n];
      StreamPrefix(d[..|d| - 1], n);
    } else {
      assert d[..n] == d;
    }
  }

  lemma StreamNext(d: seq<Byte>, n: nat)
    requires n < |d|
    ensures Stream(d[..n + 1]) == Stream(d[..n]) + NatBits(d[n], 8)
  {
    assert d[..n + 1][..n] == d[..n];
  }

  // ---------------------------------------------------------------------------------------
  // Arithmetic

  lemma DivUnique(x: nat, d: nat, q: nat, r: nat)
    requires d > 0 && r < d && x == q * d + r
    ensures x / d == q && x % d == r
  {
    var q', r' := x / d, x % d;
    assert q' * d + r' == q * d + r;
    if q > q' {
      MulAtLeast(q - q', d);
    } else if q < q' {
      MulAtLeast(q' - q, d);
    }
  }

  lemma {:induction false} MulAtLeast(a: int, d: nat)
    requires a >= 1
    ensures a * d >= d
    decreases a
  {
    if a > 1 {
      MulAtLeast(a - 1, d);
      assert a * d == (a - 1) * d + d;
    }
  }

  lemma {:induction false} Pow2Add(a: nat, b: nat)
    ensures Pow2(a + b) == Pow2(a) * Pow2(b)
  {
    if a > 0 {
      Pow2Add(a - 1, b);
    }
  }

  lemma {:induction false} BitsValueAppend(s: seq<bool>, t: seq<bool>)
    ensures BitsValue(s + t) == BitsValue(s) * Pow2(|t|) + BitsValue(t)
    decreases |t|
  {
    if t == [] {
      assert s + t == s;
    } else {
      var t' := t[..|t| - 1];
      assert (s + t)[..|s + t| - 1] == s + t';
      assert t[..|t| - 1] == t';
      BitsValueAppend(s, t');
      var a, p, b, c := BitsValue(s), Pow2(|t'|), BitsValue(t'), if t[|t| - 1] then 1 else 0;
      assert (s + t)[|s + t| - 1] == t[|t| - 1];
      assert BitsValue(s + t) == 2 * (a * p + b) + c;
      assert BitsValue(t) == 2 * b + c;
      assert Pow2(|t|) == 2 * p;
      Regroup(a, p, b, c);
    }
  }

  lemma Regroup(a: int, p: int, b: int, c: int)
    ensures 2 * (a * p + b) + c == a * (2 * p) + (2 * b + c)
  {
  }

  /** `x % 2^a % 2^b == x % 2^b` for `b <= a`. */
  lemma ModMod(x: nat, a: nat, b: nat)
    requires b <= a
    ensures (x % Pow2(a)) % Pow2(b) == x % Pow2(b)
  {
    var bb, cc := Pow2(b), Pow2(a - b);
    Pow2Add(b, a - b);
    ModModOf(x, bb, cc);
  }

  lemma ModModOf(x: nat, bb: nat, cc: nat)
    requires bb > 0 && cc > 0
    ensures (x % (bb * cc)) % bb == x % bb
  {
    var aa := bb * cc;
    var q, r := x / aa, x % aa;
    var r1, r0 := r / bb, r % bb;
    Combine(q, cc, r1, bb, r0);
    DivUnique(x, bb, q * cc + r1, r0);
  }

  lemma Combine(q: int, c: int, r1: int, b: int, r0: int)
    ensures (q * c + r1) * b + r0 == q * (b * c) + (r1 * b + r0)
  {
  }

  /** `(x / 2^m) % 2^k == (x % 2^(m + k)) / 2^m`. */
  lemma ShiftMask(x: nat, m: nat, k: nat)
    ensures (x / Pow2(m)) % Pow2(k) == (x % Pow2(m + k)) / Pow2(m)
  {
    Pow2Add(m, k);
    ShiftMaskOf(x, Pow2(m), Pow2(k));
  }

  lemma ShiftMaskOf(x: nat, mm: nat, kk: nat)
    requires mm > 0 && kk > 0
    ensures (x / mm) % kk == (x % (mm * kk)) / mm
  {
    var aa := mm * kk;
    var big, low := x / aa, x % aa;
    var hi, lo := low / mm, low % mm;
    QuotientBound(low, mm, kk);
    ShiftMaskParts(x, mm, kk, aa, big, low, hi, lo);
  }

  lemma ShiftMaskParts(x: nat, mm: nat, kk: nat, aa: nat, big: nat, low: nat, hi: nat, lo: nat)
    requires mm > 0 && kk > 0 && aa == mm * kk
    requires x == big * aa + low && low == hi * mm + lo && lo < mm && hi < kk
    ensures (x / mm) % kk == hi
  {
    Combine(big, kk, hi, mm, lo);
    DivUnique(x, mm, big * kk + hi, lo);
    DivUnique(x / mm, kk, big, hi);
  }

  lemma QuotientBound(low: nat, mm: nat, kk: nat)
    requires mm > 0 && low < mm * kk
    ensures low / mm < kk
  {
    if low / mm >= kk {
      MulMono(kk, low / mm, mm);
    }
  }

  lemma MulMono(a: nat, b: nat, c: nat)
    requires a <= b
    ensures a * c <= b * c
  {
  }

  /** The top `k` of the `nb` low bits of `x`, and the ones left below them. */
  lemma TopBits(x: nat, w: seq<bool>, k: nat)
    requires k <= |w| && x % Pow2(|w|) == BitsValue(w)
    ensures (x / Pow2(|w| - k)) % Pow2(k) == BitsValue(w[..k])
    ensures x % Pow2(|w| - k) == BitsValue(w[k..])
  {
    var m := |w| - k;
    assert w == w[..k] + w[k..];
    BitsValueAppend(w[..k], w[k..]);
    ShiftMask(x, m, k);
    assert m + k == |w|;
    DivUnique(x % Pow2(|w|), Pow2(m), BitsValue(w[..k]), BitsValue(w[k..]));
    ModMod(x, |w|, m);
  }

  /** Shifting a byte with bits `v` into the 64-bit cache appends them to the low bits held. */
  lemma ShiftIn(x: nat, w: seq<bool>, v: seq<bool>, b: Byte, y: nat)
    requires |w| <= 56 && |v| == 8 && BitsValue(v) == b
    requires x % Pow2(|w|) == BitsValue(w) && y == (x * 256 + b) % U64Limit
    ensures y % Pow2(|w| + 8) == BitsValue(w + v)
  {
    CacheLow(x * 256 + b, |w|, y);
    ShiftInOf(x, Pow2(|w|), b);
    AppendByte(w, v);
  }

  /** The low `nb + 8` bits survive the cache's truncation to 64 bits. */
  lemma CacheLow(z: nat, nb: nat, y: nat)
    requires nb <= 56 && y == z % U64Limit
    ensures y % Pow2(nb + 8) == z % (Pow2(nb) * 256)
  {
    Pow2Values();
    Pow2Add(nb, 8);
    ModMod(z, 64, nb + 8);
  }

  lemma Pow2Values()
    ensures Pow2(8) == 256 && Pow2(16) == 0x1_0000 && Pow2(32) == 0x1_0000_0000 && Pow2(64) == U64Limit
  {
    assert Pow2(8) == 256;
    Pow2Add(8, 8);
    Pow2Add(16, 16);
    Pow2Add(32, 32);
  }

  lemma ShiftInOf(x: nat, p: nat, b: nat)
    requires p > 0 && b < 256
    ensures (x * 256 + b) % (p * 256) == (x % p) * 256 + b
  {
    var q, r := x / p, x % p;
    ShiftInCombine(q, p, r, b);
    DivUnique(x * 256 + b, p * 256, q, r * 256 + b);
  }

  lemma ShiftInCombine(q: nat, p: nat, r: nat, b: nat)
    requires r < p && b < 256
    ensures (q * p + r) * 256 + b == q * (p * 256) + (r * 256 + b) && r * 256 + b < p * 256
  {
  }

  lemma AppendByte(w: seq<bool>, v: seq<bool>)
    requires |v| == 8
    ensures BitsValue(w + v) == BitsValue(w) * 256 + BitsValue(v)
  {
    BitsValueAppend(w, v);
    Pow2Values();
  }

  /** The eight bits of a byte spell the byte. */
  lemma ByteBits(b: Byte)
    ensures BitsValue(NatBits(b, 8)) == b
  {
    Pow2Values();
    DivUnique(b, 256, 0, b);
  }

  // ---------------------------------------------------------------------------------------
  // Reading bits

  /** The next `k` bits from position `pos`, as a number; `None` when fewer are left. */
  function Take(bits: seq<bool>, pos: nat, k: nat): (r: Option<nat>)
    ensures r.Some? <==> pos + k <= |bits|
  {
    if pos + k <= |bits| then Some(BitsValue(bits[pos..pos + k])) else None
  }

  lemma TakePastEnd(bits: seq<bool>, pos: nat, k: nat)
    requires |bits| < pos + k
    ensures Take(bits, pos, k) == None
  {
  }

  /** Bits `8n .. 8n + 8` of the stream spell byte `n`. */
  lemma StreamByte(d: seq<Byte>, n: nat)
    requires n < |d|
    ensures Stream(d)[8 * n..8 * n + 8] == NatBits(d[n], 8) && BitsValue(Stream(d)[8 * n..8 * n + 8]) == d[n]
  {
    StreamPrefix(d, n + 1);
    StreamPrefix(d, n);
    StreamNext(d, n);
    var s := Stream(d);
    assert s[..8 * (n + 1)] == s[..8 * n] + NatBits(d[n], 8);
    assert s[8 * n..8 * n + 8] == s[..8 * (n + 1)][8 * n..];
    ByteBits(d[n]);
  }

  /** `bits` holds the bits of the bytes `d`, eight per byte, most significant first. */
  ghost predicate Spells(bits: seq<bool>, d: seq<Byte>)
  {
    |bits| == 8 * |d| && forall n :: 0 <= n < |d| ==> BitsValue(bits[8 * n..8 * n + 8]) == d[n]
  }

  lemma StreamSpells(d: seq<Byte>)
    ensures Spells(Stream(d), d)
  {
    forall n | 0 <= n < |d| ensures BitsValue(Stream(d)[8 * n..8 * n + 8]) == d[n] {
      StreamByte(d, n);
    }
  }

  /** The reader's invariant on plain values: `cachedBytes` bytes of the stream `bits` fetched,
      of whose bits the last `numBits` are not yet handed out and sit in the low bits of the
      64-bit cache. */
  ghost predicate CacheHolds(bits: seq<bool>, cache: nat, numBits: nat, cachedBytes: nat)
  {
    8 * cachedBytes <= |bits| && numBits <= 64 && numBits <= 8 * cachedBytes && cache < U64Limit &&
    Low(cache, numBits) == BitsValue(bits[8 * cachedBytes - numBits..8 * cachedBytes])
  }

  /** Shifting the next byte in keeps the invariant when it has room for eight more bits. */
  lemma FillStep(bits: seq<bool>, cache: nat, numBits: nat, cachedBytes: nat, b: Byte, y: nat)
    requires CacheHolds(bits, cache, numBits, cachedBytes) && y == (cache * 256 + b) % U64Limit
    requires numBits <= 56 && 8 * cachedBytes + 8 <= |bits| && BitsValue(bits[8 * cachedBytes..8 * cachedBytes + 8]) == b
    ensures CacheHolds(bits, y, numBits + 8, cachedBytes + 1)
  {
    var read := 8 * cachedBytes - numBits;
    var w := bits[read..8 * cachedBytes];
    var v := bits[8 * cachedBytes..8 * cachedBytes + 8];
    assert bits[read..8 * cachedBytes + 8] == w + v;
    LowMod(cache, numBits);
    LowMod(y, numBits + 8);
    ShiftIn(cache, w, v, b, y);
    GrownHolds(bits, w, v, y, numBits, cachedBytes);
  }

  lemma GrownHolds(bits: seq<bool>, w: seq<bool>, v: seq<bool>, y: nat, numBits: nat, cachedBytes: nat)
    requires |w| == numBits <= 56 && numBits <= 8 * cachedBytes && |v| == 8 && 8 * (cachedBytes + 1) <= |bits|
    requires bits[8 * cachedBytes - numBits..8 * (cachedBytes + 1)] == w + v
    requires y < U64Limit && Low(y, numBits + 8) == BitsValue(w + v)
    ensures CacheHolds(bits, y, numBits + 8, cachedBytes + 1)
  {
  }

  /** The top `k` cached bits are the next `k` of the stream. */
  lemma PeekTop(bits: seq<bool>, cache: nat, numBits: nat, cachedBytes: nat, k: nat)
    requires CacheHolds(bits, cache, numBits, cachedBytes) && k <= numBits
    ensures Take(bits, 8 * cachedBytes - numBits, k) == Some(Low(Shr(cache, numBits - k), k))
  {
    var read := 8 * cachedBytes - numBits;
    var w := bits[read..8 * cachedBytes];
    assert w[..k] == bits[read..read + k];
    SplitTop(cache, w, k);
  }

  /** Handing out the top `k` cached bits keeps the invariant for the rest. */
  lemma PeekRest(bits: seq<bool>, cache: nat, numBits: nat, cachedBytes: nat, k: nat)
    requires CacheHolds(bits, cache, numBits, cachedBytes) && k <= numBits
    ensures CacheHolds(bits, cache, numBits - k, cachedBytes)
  {
    var read := 8 * cachedBytes - numBits;
    var w := bits[read..8 * cachedBytes];
    assert w[k..] == bits[read + k..8 * cachedBytes];
    SplitRest(cache, w, k);
  }

  lemma SplitTop(cache: nat, w: seq<bool>, k: nat)
    requires k <= |w| && Low(cache, |w|) == BitsValue(w)
    ensures Low(Shr(cache, |w| - k), k) == BitsValue(w[..k])
  {
    LowMod(cache, |w|);
    ShrDiv(cache, |w| - k);
    LowMod(Shr(cache, |w| - k), k);
    TopBits(cache, w, k);
  }

  lemma SplitRest(cache: nat, w: seq<bool>, k: nat)
    requires k <= |w| && Low(cache, |w|) == BitsValue(w)
    ensures Low(cache, |w| - k) == BitsValue(w[k..])
  {
    LowMod(cache, |w|);
    LowMod(cache, |w| - k);
    TopBits(cache, w, k);
  }

  /** The source's reader over a byte sequence: a 64-bit cache whose low `numBits` bits are the
      ones fetched but not yet handed out. */
  class BitReader {
    const data: seq<Byte>
    /** The bits of `data`, most significant first within each byte. */
    ghost const bits: seq<bool>
    var cache: nat
    var numBits: nat
    var cachedBytes: nat

    ghost predicate Valid()
      reads this
    {
      Spells(bits, data) && CacheHolds(bits, cache, numBits, cachedBytes)
    }

    /** The number of bits handed out so far. */
    function BitsRead(): nat
      reads this
      requires numBits <= 8 * cachedBytes
    {
      8 * cachedBytes - numBits
    }

    constructor(data: seq<Byte>)
      ensures this.data == data && bits == Stream(data) && Valid() && BitsRead() == 0
    {
      this.data := data;
      bits := Stream(data);
      StreamSpells(data);
      cache, numBits, cachedBytes := 0, 0, 0;
    }

    /** Shifts bytes into the cache while it has room for another one and bytes are left. */
    method FillCache()
      requires Valid()
      modifies this
      ensures Valid() && BitsRead() == old(BitsRead())
      ensures numBits > 56 || 8 * cachedBytes == |bits|
    {
      ghost var read := BitsRead();
      while numBits <= 56
        invariant Valid() && 8 * cachedBytes - numBits == read
        decreases |data| - cachedBytes
      {
        if cachedBytes < |data| {
          var b := data[cachedBytes];
          var next := (cache * 256 + b) % U64Limit;
          FillStep(bits, cache, numBits, cachedBytes, b, next);
          cache, numBits, cachedBytes := next, numBits + 8, cachedBytes + 1;
        } else {
          break;
        }
      }
    }

    /** The next `k` bits, most significant first, without handing them out; `None` where the
        source panics because the data has run out. */
    method PeekU32(k: nat) returns (r: Option<nat>)
      requires k <= 32 && Valid()
      modifies this
      ensures Valid() && BitsRead() == old(BitsRead())
      ensures r == Take(bits, BitsRead(), k)
      ensures r.Some? ==> k <= numBits
    {
      if numBits < k {
        FillCache();
      }
      if numBits < k {
        TakePastEnd(bits, BitsRead(), k);
        return None;
      }
      r := PeekCached(k);
    }

    /** The next `k` bits when the cache already holds them: its top `k` bits. */
    method PeekCached(k: nat) returns (r: Option<nat>)
      requires k <= numBits && Valid()
      ensures r == Take(bits, BitsRead(), k) && r.Some?
    {
      PeekTop(bits, cache, numBits, cachedBytes, k);
      r := Some(Low(Shr(cache, numBits - k), k));
    }

    /** The next `k` bits, handed out. */
    method ReadU32(k: nat) returns (r: Option<nat>)
      requires k <= 32 && Valid()
      modifies this
      ensures Valid()
      ensures r == Take(bits, old(BitsRead()), k)
      ensures r.Some? ==> BitsRead() == old(BitsRead()) + k
    {
      r := PeekU32(k);
      if r.Some? {
        PeekRest(bits, cache, numBits, cachedBytes, k);
        numBits := numBits - k;
      }
    }

    /** The next bit. */
    method ReadBit() returns (r: Option<bool>)
      requires Valid()
      modifies this
      ensures Valid()
      ensures r.Some? <==> old(BitsRead()) < |bits|
      ensures r.Some? ==> r.value == bits[old(BitsRead())] && BitsRead() == old(BitsRead()) + 1
    {
      var v := ReadU32(1);
      if v.None? {
        return None;
      }
      ghost var s := bits[old(BitsRead())..old(BitsRead()) + 1];
      assert s[..0] == [];
      r := Some(v.value != 0);
    }

    /** At most eight next bits, as a byte. */
    method ReadU8(k: nat) returns (r: Option<nat>)
      requires k <= 8 && Valid()
      modifies this
      ensures Valid()
      ensures r == Take(bits, old(BitsRead()), k)
      ensures r.Some? ==> BitsRead() == old(BitsRead()) + k
    {
      r := ReadU32(k);
    }
  }

  // ---------------------------------------------------------------------------------------
  // Packets

  /** A literal carries a 64-bit value; an operator of type `ty` combines its children. */
  datatype Packet =
    | Literal(version: nat, value: nat)
    | Operator(version: nat, ty: nat, children: seq<Packet>)

  /** Only types the evaluator knows: operators of types 0 to 3 and 5 to 7, all the way down. */
  predicate WellTyped(p: Packet)
  {
    match p
    case Literal(_, _) => true
    case Operator(_, ty, cs) => ty < 8 && ty != 4 && forall i :: 0 <= i < |cs| ==> WellTyped(cs[i])
  }

  predicate AllWellTyped(ps: seq<Packet>)
  {
    forall i :: 0 <= i < |ps| ==> WellTyped(ps[i])
  }

  lemma TakeBound(bits: seq<bool>, pos: nat, k: nat)
    ensures Take(bits, pos, k).Some? ==> Take(bits, pos, k).value < Pow2(k)
  {
    if pos + k <= |bits| {
      var w := bits[pos..pos + k];
      assert |w| == k;
    }
  }

  /** The packet at `pos` and the position after it; `None` where the source's reader panics. */
  function ParsePacket(bits: seq<bool>, pos: nat): (r: Option<(Packet, nat)>)
    ensures r.Some? ==> pos < r.value.1 <= |bits| && WellTyped(r.value.0)
    decreases |bits| - pos, 0, 0
  {
    match Take(bits, pos, 3)
    case None => None
    case Some(version) =>
      match Take(bits, pos + 3, 3)
      case None => None
      case Some(ty) =>
        TakeBound(bits, pos + 3, 3);
        if ty == 4 then
          (match ParseLiteral(bits, pos + 6, 0)
           case None => None
           case Some(lit) => Some((Literal(version, lit.0), lit.1)))
        else ParseOperator(bits, pos + 6, version, ty)
  }

  /** The rest of an operator packet from `pos` on: a length-type bit, then its children. */
  function ParseOperator(bits: seq<bool>, pos: nat, version: nat, ty: nat): (r: Option<(Packet, nat)>)
    requires pos <= |bits| && ty < 8 && ty != 4
    ensures r.Some? ==> pos < r.value.1 <= |bits| && WellTyped(r.value.0)
    decreases |bits| - pos, 3, 0
  {
    if |bits| <= pos then None
    else if bits[pos] then Children(ParseCounted(bits, pos + 1), version, ty)
    else Children(ParseSized(bits, pos + 1), version, ty)
  }

  /** An 11-bit count of children, then the children. */
  function ParseCounted(bits: seq<bool>, pos: nat): (r: Option<(seq<Packet>, nat)>)
    requires pos <= |bits|
    ensures r.Some? ==> pos < r.value.1 <= |bits| && AllWellTyped(r.value.0)
    decreases |bits| - pos, 2, 0
  {
    match Take(bits, pos, 11)
    case None => None
    case Some(n) => ParseCount(bits, pos + 11, n)
  }

  /** A 15-bit length in bits of the children, then the children. */
  function ParseSized(bits: seq<bool>, pos: nat): (r: Option<(seq<Packet>, nat)>)
    requires pos <= |bits|
    ensures r.Some? ==> pos < r.value.1 <= |bits| && AllWellTyped(r.value.0)
    decreases |bits| - pos, 2, 0
  {
    match Take(bits, pos, 15)
    case None => None
    case Some(len) => ParseUntil(bits, pos + 15, pos + 15 + len)
  }

  /** The operator packet with the children parsed. */
  function Children(cs: Option<(seq<Packet>, nat)>, version: nat, ty: nat): Option<(Packet, nat)>
  {
    match cs
    case None => None
    case Some(c) => Some((Operator(version, ty, c.0), c.1))
  }

  /** The groups of a literal from `pos` on, each a flag bit and four value bits, shifted into
      the 64-bit value `acc`; the last group has its flag clear. */
  function ParseLiteral(bits: seq<bool>, pos: nat, acc: nat): (r: Option<(nat, nat)>)
    ensures r.Some? ==> pos + 5 <= r.value.1 <= |bits| && r.value.0 < U64Limit
    decreases |bits| - pos
  {
    if |bits| <= pos then None
    else
      match Take(bits, pos + 1, 4)
      case None => None
      case Some(group) =>
        var value := (acc * 16 + group) % U64Limit;
        if bits[pos] then ParseLiteral(bits, pos + 5, value) else Some((value, pos + 5))
  }

  /** The value bits of `n` literal groups from `pos` on, joined: four bits after each flag. */
  function Payload(bits: seq<bool>, pos: nat, n: nat): (r: seq<bool>)
    requires pos + 5 * n <= |bits|
    ensures |r| == 4 * n
    decreases n
  {
    if n == 0 then [] else bits[pos + 1..pos + 5] + Payload(bits, pos + 5, n - 1)
  }

  /** A literal read from `pos` spans whole groups, every group's flag set but the last one's. */
  lemma {:induction false} LiteralFlags(bits: seq<bool>, pos: nat, acc: nat)
    requires ParseLiteral(bits, pos, acc).Some?
    ensures var e := ParseLiteral(bits, pos, acc).value.1;
      (e - pos) % 5 == 0 && pos + 5 <= e &&
      (forall j :: 0 <= j < (e - pos) / 5 - 1 ==> bits[pos + 5 * j]) && !bits[e - 5]
    decreases |bits| - pos
  {
    if bits[pos] {
      var value := (acc * 16 + BitsValue(bits[pos + 1..pos + 5])) % U64Limit;
      LiteralFlags(bits, pos + 5, value);
      var e := ParseLiteral(bits, pos, acc).value.1;
      forall j | 0 <= j < (e - pos) / 5 - 1 ensures bits[pos + 5 * j] {
        if j > 0 {
          assert bits[pos + 5 * j] == bits[pos + 5 + 5 * (j - 1)];
        }
      }
    }
  }

  /** The value of a literal read from `pos` is the value accumulated so far followed by the
      groups' value bits, kept to 64 bits. */
  lemma {:induction false} LiteralBits(bits: seq<bool>, pos: nat, acc: nat, n: nat)
    requires ParseLiteral(bits, pos, acc).Some? && ParseLiteral(bits, pos, acc).value.1 == pos + 5 * n
    ensures ParseLiteral(bits, pos, acc).value.0 == (acc * Pow2(4 * n) + BitsValue(Payload(bits, pos, n))) % U64Limit
    decreases |bits| - pos
  {
    var v := ParseLiteral(bits, pos, acc).value.0;
    var group := BitsValue(bits[pos + 1..pos + 5]);
    var value := (acc * 16 + group) % U64Limit;
    assert Payload(bits, pos, 1) == bits[pos + 1..pos + 5];
    if bits[pos] {
      var m := n - 1;
      LiteralBits(bits, pos + 5, value, m);
      PayloadValue(bits, pos, m);
      Pow2Add(4, 4 * m);
      assert Pow2(4) == 16 && 4 * n == 4 + 4 * m;
      var p, b := Pow2(4 * m), BitsValue(Payload(bits, pos + 5, m));
      ShiftedGroup(acc, group, p, b);
      assert v == (value * p + b) % U64Limit;
      assert acc * Pow2(4 * n) + BitsValue(Payload(bits, pos, n)) == acc * (16 * p) + (group * p + b);
    } else {
      assert Pow2(4) == 16 && v == value;
    }
  }

  /** The groups' value after the first group is that group shifted past the rest. */
  lemma PayloadValue(bits: seq<bool>, pos: nat, m: nat)
    requires pos + 5 * (m + 1) <= |bits|
    ensures BitsValue(Payload(bits, pos, m + 1)) ==
      BitsValue(bits[pos + 1..pos + 5]) * Pow2(4 * m) + BitsValue(Payload(bits, pos + 5, m))
  {
    BitsValueAppend(bits[pos + 1..pos + 5], Payload(bits, pos + 5, m));
  }

  /** Shifting a group in before the rest, with both kept to 64 bits. */
  lemma ShiftedGroup(acc: nat, group: nat, p: nat, b: nat)
    ensures ((((acc * 16 + group) % U64Limit) * p + b) % U64Limit) == (acc * (16 * p) + (group * p + b)) % U64Limit
  {
    ShiftedMod(acc * 16 + group, p, b);
    assert (acc * 16 + group) * p + b == acc * (16 * p) + (group * p + b);
  }

  /** Keeping a value to 64 bits before shifting it gives the same 64 bits as after. */
  lemma ShiftedMod(x: nat, p: nat, b: nat)
    ensures ((x % U64Limit) * p + b) % U64Limit == (x * p + b) % U64Limit
  {
    var q := x / U64Limit;
    assert x == q * U64Limit + x % U64Limit;
    assert x * p + b == (q * p) * U64Limit + ((x % U64Limit) * p + b);
  }

  /** A type-4 value is the four-bit groups joined up to the first group whose flag is clear,
      kept to 64 bits. */
  lemma LiteralValue(bits: seq<bool>, pos: nat)
    requires ParseLiteral(bits, pos, 0).Some?
    ensures var (v, e) := ParseLiteral(bits, pos, 0).value;
      (e - pos) % 5 == 0 && pos + 5 <= e &&
      (forall j :: 0 <= j < (e - pos) / 5 - 1 ==> bits[pos + 5 * j]) && !bits[e - 5] &&
      v == BitsValue(Payload(bits, pos, (e - pos) / 5)) % U64Limit
  {
    LiteralFlags(bits, pos, 0);
    LiteralBits(bits, pos, 0, (ParseLiteral(bits, pos, 0).value.1 - pos) / 5);
  }

  /** `n` packets in a row. */
  function ParseCount(bits: seq<bool>, pos: nat, n: nat): (r: Option<(seq<Packet>, nat)>)
    requires pos <= |bits|
    ensures r.Some? ==> pos <= r.value.1 <= |bits| && |r.value.0| == n && AllWellTyped(r.value.0)
    decreases |bits| - pos, 1, n
  {
    if n == 0 then Some(([], pos))
    else
      match ParsePacket(bits, pos)
      case None => None
      case Some(first) =>
        match ParseCount(bits, first.1, n - 1)
        case None => None
        case Some(rest) => Some(([first.0] + rest.0, rest.1))
  }

  /** Packets in a row for as long as the position is before `end`; the last may run past it. */
  function ParseUntil(bits: seq<bool>, pos: nat, end: nat): (r: Option<(seq<Packet>, nat)>)
    requires pos <= |bits|
    ensures r.Some? ==> pos <= r.value.1 <= |bits| && end <= r.value.1 && AllWellTyped(r.value.0)
    ensures r.Some? && pos < end ==> r.value.0 != []
    decreases |bits| - pos, 1, 0
  {
    if end <= pos then Some(([], pos))
    else
      match ParsePacket(bits, pos)
      case None => None
      case Some(first) =>
        match ParseUntil(bits, first.1, end)
        case None => None
        case Some(rest) => Some(([first.0] + rest.0, rest.1))
  }

  /** `parsed` read so far, followed by what is still to come. */
  function Join(parsed: seq<Packet>, r: Option<(seq<Packet>, nat)>): Option<(seq<Packet>, nat)>
  {
    match r
    case None => None
    case Some(rest) => Some((parsed + rest.0, rest.1))
  }

  /** A parsing method's outcome, in the form the functions above give it. */
  function Outcome<T>(x: Option<T>, end: nat): Option<(T, nat)>
  {
    match x
    case None => None
    case Some(v) => Some((v, end))
  }

  lemma JoinStart(r: Option<(seq<Packet>, nat)>)
    ensures Join([], r) == r
  {
    if r.Some? {
      assert [] + r.value.0 == r.value.0;
    }
  }

  lemma JoinDone(parsed: seq<Packet>, cur: nat)
    ensures Join(parsed, Some(([], cur))) == Some((parsed, cur))
  {
    assert parsed + [] == parsed;
  }

  /** One more child of a counted operator. */
  lemma CountStep(bits: seq<bool>, cur: nat, m: nat, parsed: seq<Packet>)
    requires cur <= |bits| && m > 0
    ensures ParsePacket(bits, cur).None? ==> ParseCount(bits, cur, m) == None
    ensures ParsePacket(bits, cur).Some? ==> var f := ParsePacket(bits, cur).value;
      Join(parsed, ParseCount(bits, cur, m)) == Join(parsed + [f.0], ParseCount(bits, f.1, m - 1))
  {
    if ParsePacket(bits, cur).Some? {
      var f := ParsePacket(bits, cur).value;
      var rest := ParseCount(bits, f.1, m - 1);
      if rest.Some? {
        assert parsed + ([f.0] + rest.value.0) == (parsed + [f.0]) + rest.value.0;
      }
    }
  }

  /** One more child of an operator given its length in bits. */
  lemma UntilStep(bits: seq<bool>, cur: nat, end: nat, parsed: seq<Packet>)
    requires cur <= |bits| && cur < end
    ensures ParsePacket(bits, cur).None? ==> ParseUntil(bits, cur, end) == None
    ensures ParsePacket(bits, cur).Some? ==> var f := ParsePacket(bits, cur).value;
      Join(parsed, ParseUntil(bits, cur, end)) == Join(parsed + [f.0], ParseUntil(bits, f.1, end))
  {
    if ParsePacket(bits, cur).Some? {
      var f := ParsePacket(bits, cur).value;
      var rest := ParseUntil(bits, f.1, end);
      if rest.Some? {
        assert parsed + ([f.0] + rest.value.0) == (parsed + [f.0]) + rest.value.0;
      }
    }
  }

  /** Reads one packet, as the source's `Packet::parse` does; `None` where it panics. */
  method Parse(reader: BitReader) returns (p: Option<Packet>)
    requires reader.Valid()
    modifies reader
    ensures reader.Valid()
    ensures Outcome(p, reader.BitsRead()) == ParsePacket(reader.bits, old(reader.BitsRead()))
    decreases |reader.bits| - reader.BitsRead(), 0
  {
    var version := reader.ReadU8(3);
    if version.None? {
      return None;
    }
    var ty := reader.ReadU8(3);
    if ty.None? {
      return None;
    }
    TakeBound(reader.bits, old(reader.BitsRead()) + 3, 3);
    if ty.value == 4 {
      var value := ReadLiteral(reader);
      if value.None? {
        return None;
      }
      return Some(Literal(version.value, value.value));
    }
    p := ReadOperator(reader, version.value, ty.value);
  }

  /** The operator branch of `Packet::parse`, after the version and the type. */
  method ReadOperator(reader: BitReader, version: nat, ty: nat) returns (p: Option<Packet>)
    requires reader.Valid() && ty < 8 && ty != 4
    modifies reader
    ensures reader.Valid()
    ensures Outcome(p, reader.BitsRead()) == ParseOperator(reader.bits, old(reader.BitsRead()), version, ty)
    decreases |reader.bits| - reader.BitsRead(), 3
  {
    var lengthType := reader.ReadBit();
    if lengthType.None? {
      return None;
    }
    var children: Option<seq<Packet>>;
    if lengthType.value {
      children := ReadCounted(reader);
    } else {
      children := ReadSized(reader);
    }
    if children.None? {
      return None;
    }
    p := Some(Operator(version, ty, children.value));
  }

  /** The groups of a literal's value. */
  method ReadLiteral(reader: BitReader) returns (v: Option<nat>)
    requires reader.Valid()
    modifies reader
    ensures reader.Valid()
    ensures Outcome(v, reader.BitsRead()) == ParseLiteral(reader.bits, old(reader.BitsRead()), 0)
  {
    ghost var from := reader.BitsRead();
    var value: nat := 0;
    var more := true;
    while more
      invariant reader.Valid() && reader.BitsRead() <= |reader.bits|
      invariant more ==> ParseLiteral(reader.bits, from, 0) == ParseLiteral(reader.bits, reader.BitsRead(), value)
      invariant !more ==> ParseLiteral(reader.bits, from, 0) == Some((value, reader.BitsRead()))
      decreases |reader.bits| - reader.BitsRead() + (if more then 1 else 0)
    {
      var group := ReadGroup(reader, value);
      if group.None? {
        return None;
      }
      more, value := group.value.0, group.value.1;
    }
    v := Some(value);
  }

  /** One group of a literal: its flag bit, then four bits shifted into `acc` as the source's
      u64 would hold them. */
  method ReadGroup(reader: BitReader, acc: nat) returns (g: Option<(bool, nat)>)
    requires reader.Valid()
    modifies reader
    ensures reader.Valid()
    ensures g.None? ==> ParseLiteral(reader.bits, old(reader.BitsRead()), acc).None?
    ensures g.Some? ==> reader.BitsRead() == old(reader.BitsRead()) + 5 <= |reader.bits|
    ensures g.Some? ==>
      ParseLiteral(reader.bits, old(reader.BitsRead()), acc) ==
        if g.value.0 then ParseLiteral(reader.bits, reader.BitsRead(), g.value.1) else Some((g.value.1, reader.BitsRead()))
  {
    ghost var pos := reader.BitsRead();
    var bit := reader.ReadBit();
    if bit.None? {
      return None;
    }
    var group := reader.ReadU8(4);
    if group.None? {
      return None;
    }
    g := Some((bit.value, (acc * 16 + group.value) % U64Limit));
  }

  /** An 11-bit count, then that many child packets. */
  method ReadCounted(reader: BitReader) returns (cs: Option<seq<Packet>>)
    requires reader.Valid()
    modifies reader
    ensures reader.Valid()
    ensures Outcome(cs, reader.BitsRead()) == ParseCounted(reader.bits, old(reader.BitsRead()))
    decreases |reader.bits| - reader.BitsRead(), 2
  {
    var n := reader.ReadU32(11);
    if n.None? {
      return None;
    }
    var count := n.value;
    ghost var from := reader.BitsRead();
    assert ParseCounted(reader.bits, old(reader.BitsRead())) == ParseCount(reader.bits, from, count);
    var children: seq<Packet> := [];
    JoinStart(ParseCount(reader.bits, from, count));
    for i := 0 to count
      invariant reader.Valid() && from <= reader.BitsRead() <= |reader.bits|
      invariant ParseCount(reader.bits, from, count) == Join(children, ParseCount(reader.bits, reader.BitsRead(), count - i))
    {
      ghost var cur := reader.BitsRead();
      CountStep(reader.bits, cur, count - i, children);
      var child := Parse(reader);
      if child.None? {
        return None;
      }
      children := children + [child.value];
    }
    JoinDone(children, reader.BitsRead());
    cs := Some(children);
  }

  /** A 15-bit length, then child packets until that many more bits have been read. */
  method ReadSized(reader: BitReader) returns (cs: Option<seq<Packet>>)
    requires reader.Valid()
    modifies reader
    ensures reader.Valid()
    ensures Outcome(cs, reader.BitsRead()) == ParseSized(reader.bits, old(reader.BitsRead()))
    decreases |reader.bits| - reader.BitsRead(), 2
  {
    var len := reader.ReadU32(15);
    if len.None? {
      return None;
    }
    var end := len.value + reader.BitsRead();
    ghost var from := reader.BitsRead();
    assert ParseSized(reader.bits, old(reader.BitsRead())) == ParseUntil(reader.bits, from, end);
    var children: seq<Packet> := [];
    JoinStart(ParseUntil(reader.bits, from, end));
    while reader.BitsRead() < end
      invariant reader.Valid() && from <= reader.BitsRead() <= |reader.bits|
      invariant ParseUntil(reader.bits, from, end) == Join(children, ParseUntil(reader.bits, reader.BitsRead(), end))
      decreases |reader.bits| - reader.BitsRead()
    {
      ghost var cur := reader.BitsRead();
      UntilStep(reader.bits, cur, end, children);
      var child := Parse(reader);
      if child.None? {
        return None;
      }
      children := children + [child.value];
    }
    JoinDone(children, reader.BitsRead());
    cs := Some(children);
  }

  // ---------------------------------------------------------------------------------------
  // Version sums

  function Sum(s: seq<nat>): nat
  {
    if s == [] then 0 else s[0] + Sum(s[1..])
  }

  function Concat(ss: seq<seq<nat>>): seq<nat>
  {
    if ss == [] then [] else ss[0] + Concat(ss[1..])
  }

  /** The source's `sum_versions`: a packet's version plus its children's sums. */
  function SumVersions(p: Packet): (r: nat)
    ensures r >= p.version
    decreases p
  {
    match p
    case Literal(version, _) => version
    case Operator(version, _, cs) => version + Sum(seq(|cs|, i requires 0 <= i < |cs| => SumVersions(cs[i])))
  }

  /** The version of every packet in the tree, the packet's own first. */
  function Versions(p: Packet): (r: seq<nat>)
    ensures |r| >= 1 && r[0] == p.version
    decreases p
  {
    match p
    case Literal(version, _) => [version]
    case Operator(version, _, cs) => [version] + Concat(seq(|cs|, i requires 0 <= i < |cs| => Versions(cs[i])))
  }

  lemma {:induction false} SumAppend(a: seq<nat>, b: seq<nat>)
    ensures Sum(a + b) == Sum(a) + Sum(b)
  {
    if a != [] {
      assert (a + b)[1..] == a[1..] + b;
      SumAppend(a[1..], b);
    } else {
      assert a + b == b;
    }
  }

  lemma {:induction false} SumConcat(ss: seq<seq<nat>>)
    ensures Sum(Concat(ss)) == Sum(seq(|ss|, i requires 0 <= i < |ss| => Sum(ss[i])))
  {
    var sums := seq(|ss|, i requires 0 <= i < |ss| => Sum(ss[i]));
    if ss != [] {
      SumAppend(ss[0], Concat(ss[1..]));
      SumConcat(ss[1..]);
      assert sums[1..] == seq(|ss[1..]|, i requires 0 <= i < |ss[1..]| => Sum(ss[1..][i]));
    }
  }

  /** The version sum is the sum of the versions of all packets in the tree. */
  lemma {:induction false} SumVersionsAll(p: Packet)
    ensures SumVersions(p) == Sum(Versions(p))
    decreases p
  {
    if p.Operator? {
      var cs := p.children;
      var vs := seq(|cs|, i requires 0 <= i < |cs| => Versions(cs[i]));
      forall i | 0 <= i < |cs| ensures SumVersions(cs[i]) == Sum(Versions(cs[i])) {
        SumVersionsAll(cs[i]);
      }
      SumConcat(vs);
      assert seq(|vs|, i requires 0 <= i < |vs| => Sum(vs[i])) == seq(|cs|, i requires 0 <= i < |cs| => SumVersions(cs[i]));
      SumAppend([p.version], Concat(vs));
    }
  }

  // ---------------------------------------------------------------------------------------
  // Evaluation

  function Product(s: seq<nat>): nat
  {
    if s == [] then 1 else s[0] * Product(s[1..])
  }

  /** The least value, or 0 for none. */
  function MinOr0(s: seq<nat>): (r: nat)
    ensures s == [] ==> r == 0
    ensures s != [] ==> r in s && forall k :: 0 <= k < |s| ==> r <= s[k]
  {
    if s == [] then 0
    else if |s| == 1 || s[0] <= MinOr0(s[1..]) then s[0]
    else MinOr0(s[1..])
  }

  /** The greatest value, or 0 for none. */
  function MaxOr0(s: seq<nat>): (r: nat)
    ensures s == [] ==> r == 0
    ensures s != [] ==> r in s && forall k :: 0 <= k < |s| ==> s[k] <= r
  {
    if s == [] then 0
    else if |s| == 1 || s[0] >= MaxOr0(s[1..]) then s[0]
    else MaxOr0(s[1..])
  }

  /** `a > b`, or with `greater` false `a < b`. */
  predicate Before(a: nat, b: nat, greater: bool)
  {
    if greater then a > b else a < b
  }

  /** The source's `tuples().all(..)`: whether every pair `(s[0], s[1]), (s[2], s[3]), ...` is
      ordered by `Before`; an unpaired last value is dropped. */
  function PairsOrdered(s: seq<nat>, greater: bool): bool
  {
    if |s| < 2 then true else Before(s[0], s[1], greater) && PairsOrdered(s[2..], greater)
  }

  lemma {:induction false} PairsOrderedMeaning(s: seq<nat>, greater: bool)
    ensures PairsOrdered(s, greater) <==> forall k :: 0 <= k < |s| / 2 ==> Before(s[2 * k], s[2 * k + 1], greater)
    decreases |s|
  {
    if |s| >= 2 {
      var t := s[2..];
      PairsOrderedMeaning(t, greater);
      assert |t| / 2 == |s| / 2 - 1;
      forall k | 0 <= k < |t| / 2 ensures t[2 * k] == s[2 * (k + 1)] && t[2 * k + 1] == s[2 * (k + 1) + 1] {
      }
      if forall k :: 0 <= k < |s| / 2 ==> Before(s[2 * k], s[2 * k + 1], greater) {
        forall k | 0 <= k < |t| / 2 ensures Before(t[2 * k], t[2 * k + 1], greater) {
          assert Before(s[2 * (k + 1)], s[2 * (k + 1) + 1], greater);
        }
        assert Before(s[2 * 0], s[2 * 0 + 1], greater);
      }
      if PairsOrdered(s, greater) {
        forall k | 0 <= k < |s| / 2 ensures Before(s[2 * k], s[2 * k + 1], greater) {
          if k > 0 {
            assert Before(t[2 * (k - 1)], t[2 * (k - 1) + 1], greater);
          }
        }
      }
    }
  }

  /** Whether all values are the same. */
  function AllEqual(s: seq<nat>): (r: bool)
    ensures r <==> forall i, j :: 0 <= i < |s| && 0 <= j < |s| ==> s[i] == s[j]
  {
    if |s| < 2 then true
    else
      var rest := AllEqual(s[1..]);
      assert forall i :: 1 <= i < |s| ==> s[i] == s[1..][i - 1];
      s[0] == s[1] && rest
  }

  /** Combines the values of an operator's children by its type. */
  function Operate(ty: nat, vals: seq<nat>): (r: nat)
    requires ty < 8 && ty != 4
    ensures ty == 2 ==> r == MinOr0(vals)
    ensures ty >= 5 ==> r <= 1
  {
    if ty == 0 then Sum(vals)
    else if ty == 1 then Product(vals)
    else if ty == 2 then MinOr0(vals)
    else if ty == 3 then MaxOr0(vals)
    else if ty == 5 then (if PairsOrdered(vals, true) then 1 else 0)
    else if ty == 6 then (if PairsOrdered(vals, false) then 1 else 0)
    else if AllEqual(vals) then 1 else 0
  }

  /** The values of the children. */
  function Values(cs: seq<Packet>): (r: seq<nat>)
    requires AllWellTyped(cs)
    ensures |r| == |cs|
    ensures forall k :: 0 <= k < |cs| ==> r[k] == Evaluate(cs[k])
    decreases cs, 0
  {
    seq(|cs|, i requires 0 <= i < |cs| => Evaluate(cs[i]))
  }

  /** The source's `evaluate`. */
  function Evaluate(p: Packet): (r: nat)
    requires WellTyped(p)
    ensures p.Operator? && p.ty >= 5 ==> r <= 1
    ensures p.Operator? && p.ty == 0 ==> forall k :: 0 <= k < |p.children| ==> Evaluate(p.children[k]) <= r
    decreases p, 1
  {
    match p
    case Literal(_, value) => value
    case Operator(_, ty, cs) =>
      var vals := Values(cs);
      SumAtLeast(vals);
      assert ty == 0 ==> Operate(ty, vals) == Sum(vals);
      Operate(ty, vals)
  }

  /** No element exceeds the sum. */
  lemma {:induction false} SumAtLeast(s: seq<nat>)
    ensures forall k :: 0 <= k < |s| ==> s[k] <= Sum(s)
  {
    if s != [] {
      SumAtLeast(s[1..]);
      assert forall k :: 1 <= k < |s| ==> s[k] == s[1..][k - 1];
    }
  }

  /** With two children, as the puzzle's comparison packets have, types 5, 6 and 7 give 1 exactly
      when the first value is greater than, less than or equal to the second. */
  lemma EvaluateComparison(p: Packet)
    requires WellTyped(p) && p.Operator? && |p.children| == 2 && p.ty >= 5
    ensures var a, b := Evaluate(p.children[0]), Evaluate(p.children[1]);
      Evaluate(p) == if (p.ty == 5 && a > b) || (p.ty == 6 && a < b) || (p.ty == 7 && a == b) then 1 else 0
  {
    var vals := Values(p.children);
    PairsOrderedMeaning(vals, true);
    PairsOrderedMeaning(vals, false);
    assert 2 * 0 + 1 == 1;
    if p.ty == 7 && !AllEqual(vals) {
      var i, j :| 0 <= i < 2 && 0 <= j < 2 && vals[i] != vals[j];
    }
  }

  /** Types 2 and 3 give the value of one of the children, no greater (no less) than any other;
      0 for no children. */
  lemma EvaluateMinMax(p: Packet)
    requires WellTyped(p) && p.Operator? && (p.ty == 2 || p.ty == 3)
    ensures p.children == [] ==> Evaluate(p) == 0
    ensures p.children != [] ==> exists k :: 0 <= k < |p.children| && Evaluate(p) == Evaluate(p.children[k])
    ensures forall k :: 0 <= k < |p.children| ==>
      if p.ty == 2 then Evaluate(p) <= Evaluate(p.children[k]) else Evaluate(p) >= Evaluate(p.children[k])
  {
    var vals := Values(p.children);
    if vals != [] {
      var k :| 0 <= k < |vals| && vals[k] == Evaluate(p);
      assert Evaluate(p) == Evaluate(p.children[k]);
    }
    forall k | 0 <= k < |p.children|
      ensures if p.ty == 2 then Evaluate(p) <= Evaluate(p.children[k]) else Evaluate(p) >= Evaluate(p.children[k])
    {
      assert vals[k] == Evaluate(p.children[k]);
    }
  }

  // ---------------------------------------------------------------------------------------
  // Hexadecimal input

  /** The source's `to_digit(16)`. */
  function HexDigit(c: char): (r: Option<nat>)
    ensures r.Some? ==> r.value < 16
  {
    if '0' <= c <= '9' then Some(c as int - '0' as int)
    else if 'a' <= c <= 'f' then Some(c as int - 'a' as int + 10)
    else if 'A' <= c <= 'F' then Some(c as int - 'A' as int + 10)
    else None
  }

  predicate AllHex(s: string)
  {
    forall i :: 0 <= i < |s| ==> HexDigit(s[i]).Some?
  }

  /** The bytes of a string of hexadecimal digits, two digits per byte, high digit first; an
      unpaired last digit is dropped. `None` where a character is not a digit. */
  function HexBytes(s: string): (r: Option<seq<Byte>>)
    ensures r.Some? ==> |r.value| == |s| / 2
  {
    if |s| < 2 then
      if s != [] && HexDigit(s[0]).None? then None else Some([])
    else
      match HexBytes(s[2..])
      case None => None
      case Some(rest) =>
        if HexDigit(s[0]).None? || HexDigit(s[1]).None? then None
        else Some([16 * HexDigit(s[0]).value + HexDigit(s[1]).value] + rest)
  }

  /** The decoding fails exactly when some character is not a hexadecimal digit; otherwise byte
      `i` is digits `2i` and `2i + 1`. */
  lemma {:induction false} HexBytesMeaning(s: string)
    ensures HexBytes(s).Some? <==> AllHex(s)
    ensures HexBytes(s).Some? ==> |HexBytes(s).value| == |s| / 2
    ensures HexBytes(s).Some? ==> forall i :: 0 <= i < |s| / 2 ==>
      HexBytes(s).value[i] == 16 * HexDigit(s[2 * i]).value + HexDigit(s[2 * i + 1]).value
    decreases |s|
  {
    if |s| >= 2 {
      var t := s[2..];
      HexBytesMeaning(t);
      assert forall i :: 2 <= i < |s| ==> s[i] == t[i - 2];
      if AllHex(s) {
        assert HexDigit(s[0]).Some? && HexDigit(s[1]).Some?;
      }
      if HexBytes(s).Some? {
        var r := HexBytes(s).value;
        forall i | 1 <= i < |s| / 2
          ensures r[i] == 16 * HexDigit(s[2 * i]).value + HexDigit(s[2 * i + 1]).value
        {
          assert r[i] == HexBytes(t).value[i - 1];
          assert s[2 * i] == t[2 * (i - 1)] && s[2 * i + 1] == t[2 * (i - 1) + 1];
        }
      }
    }
  }

  /** The packet a transmission holds, when it decodes and parses. */
  function Decode(hex: string): (r: Option<Packet>)
    ensures r.Some? ==> WellTyped(r.value)
  {
    match HexBytes(hex)
    case None => None
    case Some(d) =>
      match ParsePacket(Stream(d), 0)
      case None => None
      case Some(parsed) => Some(parsed.0)
  }

  /** Decodes and parses the transmission, as `star1` and `star2` both do. */
  method Transmission(hex: string) returns (p: Option<Packet>)
    ensures p == Decode(hex)
  {
    var d := HexBytes(hex);
    if d.None? {
      return None;
    }
    var reader := new BitReader(d.value);
    p := Parse(reader);
  }

  /** The source's `star1`: the sum of all version numbers. */
  method Star1(hex: string) returns (r: Option<nat>)
    ensures Decode(hex).None? ==> r.None?
    ensures Decode(hex).Some? ==> r == Some(Sum(Versions(Decode(hex).value)))
  {
    var p := Transmission(hex);
    if p.None? {
      return None;
    }
    SumVersionsAll(p.value);
    r := Some(SumVersions(p.value));
  }

  /** The source's `star2`: the value of the outermost packet. */
  method Star2(hex: string) returns (r: Option<nat>)
    ensures Decode(hex).None? ==> r.None?
    ensures Decode(hex).Some? ==> r == Some(Evaluate(Decode(hex).value))
  {
    var p := Transmission(hex);
    if p.None? {
      return None;
    }
    r := Some(Evaluate(p.value));
  }
}
