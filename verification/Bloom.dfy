/** The Bloom filter of an SSTable: seven bits per key, and its footer at the end of the file. */
module Bloom {
  import opened Bytes
  import opened Entries

  const HASHES: nat := 7

  /** `div_ceil(8)`. */
  function ByteCount(bitCount: nat): nat {
    (bitCount + 7) / 8
  }

  /** The i-th position of `key`: `h1 + i * h2` with wrapping u64 arithmetic, modulo the bit count. */
  function Position(env: Env, key: bytes, i: nat, bitCount: nat): (p: nat)
    requires bitCount > 0
    ensures p < bitCount
  {
    (env.hash(key, 0) + i * env.hash(key, 1) % U64_LIMIT) % U64_LIMIT % bitCount
  }

  function OrBit(b: byte, k: nat): byte
    requires k < 8
  {
    b | (1 << k)
  }

  predicate HasBit(b: byte, k: nat)
    requires k < 8
  {
    b & (1 << k) != 0
  }

  /** `get_mut(pos / 8)` and `|=`: a byte that is not there is skipped. */
  function SetBit(inner: bytes, pos: nat): (r: bytes)
    ensures |r| == |inner|
  {
    if pos / 8 < |inner| then inner[pos / 8 := OrBit(inner[pos / 8], pos % 8)] else inner
  }

  /** `get(pos / 8)` and `&`: a byte that is not there counts as set. */
  predicate TestBit(inner: bytes, pos: nat) {
    pos / 8 < |inner| ==> HasBit(inner[pos / 8], pos % 8)
  }

  /** The filter after positions `i..7` of `key` are set. */
  function InsertFrom(env: Env, inner: bytes, bitCount: nat, key: bytes, i: nat): (r: bytes)
    requires bitCount > 0 && i <= HASHES
    ensures |r| == |inner|
    decreases HASHES - i
  {
    if i == HASHES then inner
    else InsertFrom(env, SetBit(inner, Position(env, key, i, bitCount)), bitCount, key, i + 1)
  }

  function Insert(env: Env, inner: bytes, bitCount: nat, key: bytes): (r: bytes)
    ensures |r| == |inner|
  {
    if bitCount == 0 then inner else InsertFrom(env, inner, bitCount, key, 0)
  }

  predicate MayContain(env: Env, inner: bytes, bitCount: nat, key: bytes) {
    bitCount > 0 ==> forall i | 0 <= i < HASHES :: TestBit(inner, Position(env, key, i, bitCount))
  }

  function Empty(bitCount: nat): (r: bytes)
    ensures |r| == ByteCount(bitCount)
  {
    seq(ByteCount(bitCount), _ => 0)
  }

  /** The filter built by inserting the keys of `es` in order. */
  function FilterOf(env: Env, bitCount: nat, es: seq<Entry>): (r: bytes)
    ensures |r| == ByteCount(bitCount)
  {
    if es == [] then Empty(bitCount)
    else Insert(env, FilterOf(env, bitCount, es[..|es| - 1]), bitCount, es[|es| - 1].key)
  }

  // ----- No key inserted is ever reported absent -----

  lemma BitSet(b: byte, k: nat, j: nat)
    requires k < 8 && j < 8
    ensures HasBit(OrBit(b, k), j) <==> j == k || HasBit(b, j)
  {}

  lemma SetBitEffect(inner: bytes, pos: nat, other: nat)
    ensures TestBit(SetBit(inner, pos), pos)
    ensures TestBit(inner, other) ==> TestBit(SetBit(inner, pos), other)
  {
    hide OrBit, HasBit;
    if pos / 8 < |inner| {
      BitSet(inner[pos / 8], pos % 8, pos % 8);
      BitSet(inner[pos / 8], pos % 8, other % 8);
    }
  }

  lemma {:induction false} InsertFromEffect(env: Env, inner: bytes, bitCount: nat, key: bytes, i: nat, pos: nat)
    requires bitCount > 0 && i <= HASHES
    ensures TestBit(inner, pos) ==> TestBit(InsertFrom(env, inner, bitCount, key, i), pos)
    ensures forall j | i <= j < HASHES ::
              TestBit(InsertFrom(env, inner, bitCount, key, i), Position(env, key, j, bitCount))
    decreases HASHES - i
  {
    hide TestBit, SetBit, Position;
    if i < HASHES {
      var p := Position(env, key, i, bitCount);
      SetBitEffect(inner, p, pos);
      InsertFromEffect(env, SetBit(inner, p), bitCount, key, i + 1, pos);
      InsertFromEffect(env, SetBit(inner, p), bitCount, key, i + 1, p);
    }
  }

  lemma InsertEffect(env: Env, inner: bytes, bitCount: nat, key: bytes, other: bytes)
    ensures MayContain(env, Insert(env, inner, bitCount, key), bitCount, key)
    ensures MayContain(env, inner, bitCount, other) ==>
              MayContain(env, Insert(env, inner, bitCount, key), bitCount, other)
  {
    hide TestBit, Position;
    if bitCount > 0 {
      InsertFromEffect(env, inner, bitCount, key, 0, 0);
      forall i | 0 <= i < HASHES
        ensures TestBit(inner, Position(env, other, i, bitCount)) ==>
                  TestBit(Insert(env, inner, bitCount, key), Position(env, other, i, bitCount))
      {
        InsertFromEffect(env, inner, bitCount, key, 0, Position(env, other, i, bitCount));
      }
    }
  }

  /** No false negatives, for any hash and any bit count. */
  lemma {:induction false} InsertedMayBeContained(env: Env, bitCount: nat, es: seq<Entry>, i: nat)
    requires i < |es|
    ensures MayContain(env, FilterOf(env, bitCount, es), bitCount, es[i].key)
    decreases |es|
  {
    hide MayContain, Insert;
    var last := |es| - 1;
    InsertEffect(env, FilterOf(env, bitCount, es[..last]), bitCount, es[last].key, es[i].key);
    if i < last {
      InsertedMayBeContained(env, bitCount, es[..last], i);
    }
  }

  // ----- The filter exactly -----

  /** Bit `p` of the array: bit `p % 8` of byte `p / 8`, the least significant first. */
  predicate BitAt(f: bytes, p: nat)
    requires p / 8 < |f|
  {
    (f[p / 8] >> (p % 8)) & 1 == 1
  }

  /** The i-th bit of double hashing: `h1 + i * h2` in 64 bits, modulo the bit count. */
  function HashedBit(h1: u64, h2: u64, i: nat, bitCount: nat): (p: nat)
    requires bitCount > 0
    ensures p < bitCount
  {
    (h1 + i * h2) % 0x1_0000_0000_0000_0000 % bitCount
  }

  /** One of the seven bits of `key`. */
  predicate IsBitOf(env: Env, key: bytes, bitCount: nat, p: nat)
    requires bitCount > 0
  {
    exists i | 0 <= i < 7 :: HashedBit(env.hash(key, 0), env.hash(key, 1), i, bitCount) == p
  }

  /** Of the bits below the bit count, those are set which are one of the seven of some key, and no other. */
  ghost predicate HasBitsOf(env: Env, f: bytes, bitCount: nat, es: seq<Entry>)
    requires bitCount <= 8 * |f|
  {
    forall p | 0 <= p < bitCount :: BitAt(f, p) <==> exists e | e in es :: IsBitOf(env, e.key, bitCount, p)
  }

  lemma WrapTwice(a: nat, b: nat)
    ensures (a + b % U64_LIMIT) % U64_LIMIT == (a + b) % U64_LIMIT
  {}

  lemma PositionIsHashed(env: Env, key: bytes, i: nat, bitCount: nat)
    requires bitCount > 0
    ensures Position(env, key, i, bitCount) == HashedBit(env.hash(key, 0), env.hash(key, 1), i, bitCount)
  {
    WrapTwice(env.hash(key, 0), i * env.hash(key, 1));
  }

  lemma MaskOrShift(b: byte, k: nat)
    requires k < 8
    ensures HasBit(b, k) <==> (b >> k) & 1 == 1
  {}

  lemma TestIsBit(f: bytes, p: nat)
    requires p / 8 < |f|
    ensures TestBit(f, p) <==> BitAt(f, p)
  {
    hide HasBit;
    MaskOrShift(f[p / 8], p % 8);
  }

  lemma SetBitExact(inner: bytes, pos: nat, p: nat)
    requires p / 8 < |inner|
    ensures TestBit(SetBit(inner, pos), p) <==> pos == p || TestBit(inner, p)
  {
    hide OrBit, HasBit;
    if pos / 8 < |inner| {
      BitSet(inner[pos / 8], pos % 8, p % 8);
    }
  }

  lemma {:induction false} InsertFromExact(env: Env, inner: bytes, bitCount: nat, key: bytes, i: nat, p: nat)
    requires bitCount > 0 && i <= HASHES && p / 8 < |inner|
    ensures TestBit(InsertFrom(env, inner, bitCount, key, i), p) <==>
              TestBit(inner, p) || exists j | i <= j < HASHES :: Position(env, key, j, bitCount) == p
    decreases HASHES - i
  {
    hide TestBit, SetBit, Position;
    if i < HASHES {
      var pos := Position(env, key, i, bitCount);
      SetBitExact(inner, pos, p);
      InsertFromExact(env, SetBit(inner, pos), bitCount, key, i + 1, p);
    }
  }

  lemma InsertExact(env: Env, inner: bytes, bitCount: nat, key: bytes, p: nat)
    requires bitCount > 0 && p / 8 < |inner|
    ensures TestBit(Insert(env, inner, bitCount, key), p) <==> TestBit(inner, p) || IsBitOf(env, key, bitCount, p)
  {
    hide TestBit, Position, HashedBit;
    InsertFromExact(env, inner, bitCount, key, 0, p);
    forall i | 0 <= i < HASHES
      ensures Position(env, key, i, bitCount) == HashedBit(env.hash(key, 0), env.hash(key, 1), i, bitCount)
    {
      PositionIsHashed(env, key, i, bitCount);
    }
  }

  lemma InsertBits(env: Env, inner: bytes, bitCount: nat, key: bytes)
    requires |inner| == ByteCount(bitCount)
    ensures forall p | 0 <= p < bitCount ::
              BitAt(Insert(env, inner, bitCount, key), p) <==> BitAt(inner, p) || IsBitOf(env, key, bitCount, p)
  {
    hide BitAt, TestBit, Insert, IsBitOf;
    forall p | 0 <= p < bitCount
      ensures BitAt(Insert(env, inner, bitCount, key), p) <==> BitAt(inner, p) || IsBitOf(env, key, bitCount, p)
    {
      InsertExact(env, inner, bitCount, key, p);
      TestIsBit(inner, p);
      TestIsBit(Insert(env, inner, bitCount, key), p);
    }
  }

  lemma EmptyHasNoBit(bitCount: nat, p: nat)
    requires p / 8 < ByteCount(bitCount)
    ensures !TestBit(Empty(bitCount), p)
  {
    NoBitOfZero(p % 8);
  }

  lemma NoBitOfZero(k: nat)
    requires k < 8
    ensures !HasBit(0, k)
  {}

  lemma {:induction false} FilterTests(env: Env, bitCount: nat, es: seq<Entry>, p: nat)
    requires p < bitCount
    ensures TestBit(FilterOf(env, bitCount, es), p) <==> exists e | e in es :: IsBitOf(env, e.key, bitCount, p)
    decreases |es|
  {
    hide TestBit, Insert, IsBitOf, Empty;
    if es == [] {
      EmptyHasNoBit(bitCount, p);
    } else {
      var init, last := es[..|es| - 1], es[|es| - 1];
      assert es == init + [last];
      FilterTests(env, bitCount, init, p);
      InsertExact(env, FilterOf(env, bitCount, init), bitCount, last.key, p);
    }
  }

  /** The filter has the bits of its keys and no other, and just enough bytes for the bit count. */
  lemma FilterExact(env: Env, bitCount: nat, es: seq<Entry>)
    ensures var f := FilterOf(env, bitCount, es);
            bitCount <= 8 * |f| < bitCount + 8 && HasBitsOf(env, f, bitCount, es)
  {
    hide FilterOf, BitAt, IsBitOf, TestBit;
    forall p | 0 <= p < bitCount
      ensures BitAt(FilterOf(env, bitCount, es), p) <==> exists e | e in es :: IsBitOf(env, e.key, bitCount, p)
    {
      FilterTests(env, bitCount, es, p);
      TestIsBit(FilterOf(env, bitCount, es), p);
    }
  }

  /** A key is ruled out exactly if one of its seven bits is clear. */
  lemma QueryExact(env: Env, inner: bytes, bitCount: nat, key: bytes)
    requires |inner| == ByteCount(bitCount)
    ensures !MayContain(env, inner, bitCount, key) <==>
              bitCount > 0 && exists p | 0 <= p < bitCount :: IsBitOf(env, key, bitCount, p) && !BitAt(inner, p)
  {
    hide BitAt, TestBit, Position, HashedBit;
    if bitCount > 0 {
      forall i | 0 <= i < HASHES
        ensures var p := Position(env, key, i, bitCount);
                && p == HashedBit(env.hash(key, 0), env.hash(key, 1), i, bitCount)
                && (TestBit(inner, p) <==> BitAt(inner, p))
      {
        PositionIsHashed(env, key, i, bitCount);
        TestIsBit(inner, Position(env, key, i, bitCount));
      }
    }
  }

  /** So a key that was never inserted passes exactly if the inserted keys cover its seven bits between them. */
  lemma FalsePositiveExact(env: Env, bitCount: nat, es: seq<Entry>, key: bytes)
    requires bitCount > 0
    ensures MayContain(env, FilterOf(env, bitCount, es), bitCount, key) <==>
              forall p | 0 <= p < bitCount && IsBitOf(env, key, bitCount, p) ::
                exists e | e in es :: IsBitOf(env, e.key, bitCount, p)
  {
    hide FilterOf, BitAt, IsBitOf, MayContain;
    FilterExact(env, bitCount, es);
    QueryExact(env, FilterOf(env, bitCount, es), bitCount, key);
  }

  // ----- The footer -----

  /** `[filter bytes][bit count: u32 LE]`. */
  function Footer(env: Env, bitCount: nat, es: seq<Entry>): (f: bytes)
    requires bitCount < U32_LIMIT
    ensures |f| == ByteCount(bitCount) + 4
  {
    FilterOf(env, bitCount, es) + ToLe32(bitCount)
  }

  datatype Filter = Filter(bitCount: nat, inner: bytes)

  /** `read_bloom_filter` on the bytes of a file. */
  function ReadFooter(data: bytes): (r: Option<Filter>)
    ensures r.Some? ==> |r.value.inner| == ByteCount(r.value.bitCount) && |r.value.inner| + 4 <= |data|
  {
    if |data| < 4 then None
    else
      var bitCount := FromLe32(data[|data| - 4..]);
      var footerLen := ByteCount(bitCount) + 4;
      if |data| < footerLen then None
      else Some(Filter(bitCount, data[|data| - footerLen..|data| - 4]))
  }

  lemma FooterRoundTrip(env: Env, front: bytes, bitCount: nat, es: seq<Entry>)
    requires bitCount < U32_LIMIT
    ensures ReadFooter(front + Footer(env, bitCount, es)) == Some(Filter(bitCount, FilterOf(env, bitCount, es)))
  {
    hide FilterOf;
    var data := front + Footer(env, bitCount, es);
    assert data[|data| - 4..] == ToLe32(bitCount);
    Le32RoundTrip(bitCount);
    var n := |data| - ByteCount(bitCount) - 4;
    assert n == |front|;
    assert data[n..|data| - 4] == FilterOf(env, bitCount, es);
  }

  class BloomFilter {
    const bitCount: nat
    const inner: array<byte>

    ghost predicate Valid()
      reads this
    {
      inner.Length == ByteCount(bitCount)
    }

    /** `BloomFilter::new`. */
    constructor (bitCount: nat)
      ensures Valid() && fresh(inner)
      ensures this.bitCount == bitCount && inner[..] == Empty(bitCount)
    {
      this.bitCount := bitCount;
      this.inner := new byte[ByteCount(bitCount)](_ => 0);
    }

    /** The filter read from a footer. */
    constructor FromBytes(bitCount: nat, b: bytes)
      requires |b| == ByteCount(bitCount)
      ensures Valid() && fresh(inner)
      ensures this.bitCount == bitCount && inner[..] == b
    {
      this.bitCount := bitCount;
      this.inner := new byte[|b|](i requires 0 <= i < |b| => b[i]);
      new;
      assert inner[..] == b;
    }

    /** Sets all seven positions for `key`. */
    method Add(env: Env, key: bytes)
      requires Valid()
      modifies inner
      ensures inner[..] == Insert(env, old(inner[..]), bitCount, key)
      ensures forall p | 0 <= p < bitCount ::
                BitAt(inner[..], p) <==> BitAt(old(inner[..]), p) || IsBitOf(env, key, bitCount, p)
    {
      hide Position, ByteCount, OrBit, IsBitOf, BitAt;
      InsertBits(env, inner[..], bitCount, key);
      if bitCount == 0 {
        return;
      }
      for i := 0 to HASHES
        invariant InsertFrom(env, inner[..], bitCount, key, i) == Insert(env, old(inner[..]), bitCount, key)
      {
        var pos := Position(env, key, i, bitCount);
        ghost var before := inner[..];
        if pos / 8 < inner.Length {
          inner[pos / 8] := OrBit(inner[pos / 8], pos % 8);
        }
        assert inner[..] == SetBit(before, pos);
      }
    }

    /** `may_contain`. */
    method Query(env: Env, key: bytes) returns (r: bool)
      requires Valid()
      ensures r <==> MayContain(env, inner[..], bitCount, key)
      ensures !r <==>
                bitCount > 0 && exists p | 0 <= p < bitCount :: IsBitOf(env, key, bitCount, p) && !BitAt(inner[..], p)
    {
      QueryExact(env, inner[..], bitCount, key);
      hide Position, HasBit, IsBitOf, BitAt;
      if bitCount == 0 {
        return true;
      }
      for i := 0 to HASHES
        invariant forall j | 0 <= j < i :: TestBit(inner[..], Position(env, key, j, bitCount))
      {
        var pos := Position(env, key, i, bitCount);
        if pos / 8 < inner.Length {
          if !HasBit(inner[pos / 8], pos % 8) {
            assert !TestBit(inner[..], pos);
            return false;
          }
        }
      }
      return true;
    }
  }
}
