/** The memtable: the latest entry per key, its tracked size, its replay from the log and its flush. */
module MemTables {
  import opened Bytes
  import opened Keys
  import opened Entries
  import opened Header
  import opened Reader
  import opened Recovery
  import opened Bloom
  import opened Disk

  const FLUSH_THRESHOLD_MB: nat := 4
  const THRESHOLD: nat := FLUSH_THRESHOLD_MB * 0x10_0000
  const BITS_PER_KEY: nat := 10

  datatype MemState = MemState(inner: map<Text, Entry>, size: nat)

  const EMPTY: MemState := MemState(map[], 0)

  function SaturatingAdd(a: nat, b: nat): nat {
    if a + b < U64_LIMIT then a + b else U64_LIMIT - 1
  }

  function SaturatingSub(a: nat, b: nat): nat {
    if b <= a then a - b else 0
  }

  /** Key length plus encoded length; an entry the codec refuses has no size. */
  function EntrySize(env: Env, e: Entry): nat {
    match env.encode(e)
    case Some(b) => SaturatingAdd(|e.key|, |b|)
    case None => 0
  }

  function Process(env: Env, st: MemState, e: Entry): MemState {
    var freed := if e.key in st.inner then SaturatingSub(st.size, EntrySize(env, st.inner[e.key])) else st.size;
    MemState(st.inner[e.key := e], SaturatingAdd(freed, EntrySize(env, e)))
  }

  function Replay(env: Env, st: MemState, es: seq<Entry>): MemState
    decreases |es|
  {
    if es == [] then st else Replay(env, Process(env, st, es[0]), es[1..])
  }

  predicate ShouldFlush(st: MemState) {
    st.size > THRESHOLD
  }

  /** Every key holds an entry of its own, and one the codec accepts. */
  ghost predicate WellKeyed(env: Env, inner: map<Text, Entry>) {
    forall k | k in inner :: inner[k].key == k && env.encode(inner[k]).Some?
  }

  /** `BTreeMap::values`. */
  function SortedValues(inner: map<Text, Entry>): (es: seq<Entry>)
    ensures |es| == |inner|
    ensures inner != map[] ==> es != []
  {
    var ks := SortedKeys(inner.Keys);
    assert forall i | 0 <= i < |ks| :: ks[i] in Elements(ks);
    seq(|ks|, i requires 0 <= i < |ks| => inner[ks[i]])
  }

  // ----- Replay: the last entry for a key wins -----

  lemma {:induction false} ReplayConcat(env: Env, st: MemState, a: seq<Entry>, b: seq<Entry>)
    ensures Replay(env, st, a + b) == Replay(env, Replay(env, st, a), b)
    decreases |a|
  {
    hide Process;
    if a == [] {
      assert a + b == b;
    } else {
      assert (a + b)[1..] == a[1..] + b;
      ReplayConcat(env, Process(env, st, a[0]), a[1..], b);
    }
  }

  lemma ReplayAppend(env: Env, st: MemState, es: seq<Entry>, e: Entry)
    ensures Replay(env, st, es + [e]) == Process(env, Replay(env, st, es), e)
  {
    ReplayConcat(env, st, es, [e]);
    assert [e][1..] == [];
  }

  /** The last entry written for `k`. */
  ghost function LastFor(es: seq<Entry>, k: Text): Option<Entry>
    decreases |es|
  {
    if es == [] then None
    else if es[|es| - 1].key == k then Some(es[|es| - 1])
    else LastFor(es[..|es| - 1], k)
  }

  /** After a replay the memtable holds, for each key, precisely the last entry written for it. */
  lemma {:induction false} ReplayKeepsLast(env: Env, es: seq<Entry>, k: Text)
    ensures var inner := Replay(env, EMPTY, es).inner;
            LastFor(es, k) == if k in inner then Some(inner[k]) else None
    decreases |es|
  {
    if es != [] {
      var init, last := es[..|es| - 1], es[|es| - 1];
      assert es == init + [last];
      ReplayAppend(env, EMPTY, init, last);
      ReplayKeepsLast(env, init, k);
    }
  }

  lemma {:induction false} ReplayWellKeyed(env: Env, st: MemState, es: seq<Entry>)
    requires WellKeyed(env, st.inner) && forall e | e in es :: env.encode(e).Some?
    ensures WellKeyed(env, Replay(env, st, es).inner)
    decreases |es|
  {
    if es != [] {
      ReplayWellKeyed(env, Process(env, st, es[0]), es[1..]);
    }
  }

  // ----- Size accounting -----

  ghost function TotalSize(env: Env, inner: map<Text, Entry>): nat
    decreases |inner|
  {
    if inner == map[] then 0
    else
      var k := Min(inner.Keys);
      RemoveShrinks(inner, k);
      EntrySize(env, inner[k]) + TotalSize(env, inner - {k})
  }

  lemma RemoveShrinks(inner: map<Text, Entry>, k: Text)
    requires k in inner
    ensures |inner - {k}| < |inner|
  {
    assert (inner - {k}).Keys == inner.Keys - {k};
    assert |(inner - {k}).Keys| == |inner.Keys| - 1;
  }

  lemma {:induction false} TotalSizeRemove(env: Env, inner: map<Text, Entry>, k: Text)
    requires k in inner
    ensures TotalSize(env, inner) == EntrySize(env, inner[k]) + TotalSize(env, inner - {k})
    decreases |inner|
  {
    hide EntrySize;
    var m := Min(inner.Keys);
    if m != k {
      RemoveShrinks(inner, m);
      TotalSizeRemove(env, inner - {m}, k);
      var both := inner - {k};
      assert m in both.Keys && both != map[];
      MinOfFewer(inner.Keys, both.Keys);
      assert both - {m} == inner - {m} - {k};
    }
  }

  lemma MinOfFewer(s: set<Text>, t: set<Text>)
    requires t <= s && t != {} && s != {} && Min(s) in t
    ensures Min(t) == Min(s)
  {
    assert IsMin(Min(s), t);
    MinUnique(t, Min(s), Min(t));
  }

  lemma TotalSizeUpdate(env: Env, inner: map<Text, Entry>, k: Text, e: Entry)
    ensures TotalSize(env, inner[k := e]) == EntrySize(env, e) + TotalSize(env, inner - {k})
  {
    TotalSizeRemove(env, inner[k := e], k);
    assert inner[k := e] - {k} == inner - {k};
  }

  /** The tracked size is the true total, as long as that total fits u64. */
  lemma ProcessTracksSize(env: Env, st: MemState, e: Entry)
    requires st.size == TotalSize(env, st.inner)
    requires TotalSize(env, st.inner) + EntrySize(env, e) < U64_LIMIT
    ensures var after := Process(env, st, e);
            after.size == TotalSize(env, after.inner) <= st.size + EntrySize(env, e)
  {
    hide EntrySize;
    TotalSizeUpdate(env, st.inner, e.key, e);
    if e.key in st.inner {
      TotalSizeRemove(env, st.inner, e.key);
    } else {
      assert st.inner - {e.key} == st.inner;
    }
  }

  /** Every entry weighs at least one byte, so the size bounds the number of keys. */
  lemma {:induction false} CountWithinSize(env: Env, inner: map<Text, Entry>)
    requires WellKeyed(env, inner)
    ensures |inner| <= TotalSize(env, inner)
    decreases |inner|
  {
    if inner != map[] {
      var k := Min(inner.Keys);
      RemoveShrinks(inner, k);
      assert (inner - {k}).Keys == inner.Keys - {k} && |(inner - {k}).Keys| == |inner.Keys| - 1;
      CountWithinSize(env, inner - {k});
    }
  }

  // ----- The file a flush writes -----

  function StorablePrefix(env: Env, es: seq<Entry>): (p: seq<Entry>)
    ensures p <= es && AllStorable(env, p)
    ensures AllStorable(env, es) ==> p == es
  {
    if es == [] || !Storable(env, es[0]) then []
    else
      var rest := StorablePrefix(env, es[1..]);
      assert [es[0]] + rest <= es;
      [es[0]] + rest
  }

  /** The bytes a flush of `es` leaves in its file, and whether it ran to the end. */
  function FlushImage(env: Env, es: seq<Entry>): (bytes, bool) {
    var bitCount := BITS_PER_KEY * |es|;
    var frames := Frames(env, StorablePrefix(env, es));
    if bitCount >= U64_LIMIT then ([], false)
    else if !AllStorableExec(env, es) then (frames, false)
    else if bitCount >= U32_LIMIT then (frames + FilterOf(env, bitCount, es), false)
    else (frames + Footer(env, bitCount, es), true)
  }

  predicate AllStorableExec(env: Env, es: seq<Entry>)
    ensures AllStorableExec(env, es) <==> AllStorable(env, es)
  {
    if es == [] then true
    else
      assert AllStorable(env, es) <==> Storable(env, es[0]) && AllStorable(env, es[1..]) by {
        assert es == [es[0]] + es[1..];
      }
      Storable(env, es[0]) && AllStorableExec(env, es[1..])
  }

  /**
   * How a flushed file ends: a filter of ten bits per entry, in which exactly the bits of the keys are set,
   * and that number in four bytes, the least significant first.
   */
  lemma FlushedFooter(env: Env, es: seq<Entry>)
    requires FlushImage(env, es).1
    ensures AllStorable(env, es)
    ensures var (image, n) := (FlushImage(env, es).0, |Frames(env, es)|);
            && 10 * |es| <= 8 * (|image| - n - 4) < 10 * |es| + 8
            && image[..n] == Frames(env, es)
            && HasBitsOf(env, image[n..|image| - 4], 10 * |es|, es)
            && var c := image[|image| - 4..];
               Value(c[0]) + 0x100 * Value(c[1]) + 0x1_0000 * Value(c[2]) + 0x100_0000 * Value(c[3]) == 10 * |es|
  {
    hide Frames, FilterOf, Storable, HasBitsOf, ToLe32, Value, ByteCount, FlushImage, FromLe32;
    var bits := 10 * |es|;
    var f := FilterOf(env, bits, es);
    FlushedParts(env, es);
    FilterExact(env, bits, es);
    ThreeParts(Frames(env, es), f, ToLe32(bits));
    Le32RoundTrip(bits);
    FourBytes(ToLe32(bits));
  }

  lemma FlushedParts(env: Env, es: seq<Entry>)
    requires FlushImage(env, es).1
    ensures AllStorable(env, es) && 10 * |es| < U32_LIMIT
    ensures FlushImage(env, es).0 == Frames(env, es) + FilterOf(env, 10 * |es|, es) + ToLe32(10 * |es|)
  {
    hide Frames, FilterOf, Storable, ToLe32;
    var bits := 10 * |es|;
    var frames, f := Frames(env, es), FilterOf(env, bits, es);
    assert frames + (f + ToLe32(bits)) == frames + f + ToLe32(bits);
  }

  lemma ThreeParts(a: bytes, b: bytes, c: bytes)
    requires |c| == 4
    ensures var all := a + b + c;
            all[..|a|] == a && all[|a|..|all| - 4] == b && all[|all| - 4..] == c
  {}

  lemma FourBytes(c: bytes)
    requires |c| == 4
    ensures FromLe32(c) == Value(c[0]) + 0x100 * Value(c[1]) + 0x1_0000 * Value(c[2]) + 0x100_0000 * Value(c[3])
  {
    hide Value;
  }

  lemma FramesStep(env: Env, es: seq<Entry>, i: nat)
    requires i < |es| && AllStorable(env, es[..i]) && Storable(env, es[i])
    ensures AllStorable(env, es[..i + 1])
    ensures Frames(env, es[..i + 1]) == Frames(env, es[..i]) + Frame(env, es[i])
  {
    hide Frame, Storable;
    assert es[..i + 1] == es[..i] + [es[i]];
    FramesSingle(env, es[i]);
    FramesConcat(env, es[..i], [es[i]]);
  }

  lemma {:induction false} StorablePrefixIs(env: Env, es: seq<Entry>, i: nat)
    requires i < |es| && AllStorable(env, es[..i]) && !Storable(env, es[i])
    ensures StorablePrefix(env, es) == es[..i]
    decreases i
  {
    hide Storable;
    if i > 0 {
      assert es[..i][0] == es[0];
      assert es[1..][..i - 1] == es[..i][1..];
      StorablePrefixIs(env, es[1..], i - 1);
      assert es[..i] == [es[0]] + es[..i][1..];
    }
  }

  class MemTable {
    var inner: map<Text, Entry>
    var size: nat

    ghost predicate Valid(env: Env)
      reads this
    {
      WellKeyed(env, inner) && size < U64_LIMIT && (inner == map[] ==> size == 0)
    }

    function State(): MemState
      reads this
    {
      MemState(inner, size)
    }

    constructor (env: Env)
      ensures Valid(env) && State() == EMPTY
    {
      inner := map[];
      size := 0;
    }

    /** `process`; `false` is the codec refusing the entry, which has already given up the old size. */
    method Apply(env: Env, e: Entry) returns (ok: bool)
      requires Valid(env)
      modifies this
      ensures Valid(env)
      ensures ok <==> env.encode(e).Some?
      ensures ok ==> State() == Process(env, old(State()), e)
      ensures !ok ==>
                inner == old(inner)
                && size == (if e.key in inner then SaturatingSub(old(size), EntrySize(env, inner[e.key]))
                            else old(size))
    {
      if e.key in inner {
        size := SaturatingSub(size, EntrySize(env, inner[e.key]));
      }
      if env.encode(e).None? {
        return false;
      }
      size := SaturatingAdd(size, EntrySize(env, e));
      inner := inner[e.key := e];
      assert e.key in inner;
      return true;
    }

    /** Rebuilds a memtable by replaying every entry of `file` from the start. */
    static method FromFile(env: Env, file: Stream) returns (m: MemTable)
      modifies file`pos
      ensures fresh(m) && m.Valid(env)
      ensures m.State() == Replay(env, EMPTY, EntriesOf(Scan(env, file.data, 0)))
    {
      hide Process;
      m := new MemTable(env);
      file.Seek(0);
      ghost var goal := Replay(env, EMPTY, EntriesOf(Scan(env, file.data, 0)));
      while true
        invariant m.Valid(env) && fresh(m) && file.pos <= |file.data|
        invariant Replay(env, m.State(), EntriesOf(Scan(env, file.data, file.pos))) == goal
        decreases |file.data| - file.pos
      {
        ghost var pos := file.pos;
        var entry := file.ReadNext(env);
        if entry.None? {
          assert Scan(env, file.data, pos) == [];
          break;
        }
        HitEncodes(env, file.data, pos);
        ghost var hits := Scan(env, file.data, pos);
        assert hits == [NextHit(env, file.data, pos).value] + Scan(env, file.data, file.pos);
        assert EntriesOf(hits)[1..] == EntriesOf(Scan(env, file.data, file.pos));
        var ok := m.Apply(env, entry.value);
        assert ok;
      }
    }

    predicate IsEmpty()
      reads this
    {
      size == 0 && inner == map[]
    }

    method Clear(env: Env)
      modifies this
      ensures Valid(env) && State() == EMPTY
    {
      size := 0;
      inner := map[];
    }

    /** `flush_to`; `false` is an error, which leaves the memtable as it was and the file cut short. */
    method FlushTo(env: Env, dir: Directory) returns (ok: bool)
      requires Valid(env)
      modifies this, dir
      ensures Valid(env)
      ensures old(inner) == map[] ==>
                ok && State() == old(State()) && dir.files == old(dir.files) && dir.tick == old(dir.tick)
                && dir.history == old(dir.history)
      ensures old(inner) != map[] ==>
                var (image, done) := FlushImage(env, SortedValues(old(inner)));
                var ts := env.clock(old(dir.tick));
                && ok == done && State() == (if done then EMPTY else old(State()))
                && dir.tick == old(dir.tick) + 1 && dir.files == old(dir.files)[ts := image]
                && dir.history == old(dir.history) + [Put(ts, image)]
    {
      hide FlushImage, SortedValues;
      if IsEmpty() {
        return true;
      }
      var ts := dir.Now(env);
      var image, written := WriteTable(env, SortedValues(inner));
      dir.Write(ts, image);
      if !written {
        return false;
      }
      Clear(env);
      return true;
    }
  }

  /** The writing half of `flush_to`: frames, then the filter, then its bit count, into a new file. */
  method WriteTable(env: Env, es: seq<Entry>) returns (image: bytes, ok: bool)
    ensures (image, ok) == FlushImage(env, es)
  {
    hide Frame, Storable, Frames, Insert, FilterOf, FlushImage, ByteCount, Empty, ToLe32, AllStorable;
    var file := new Stream([]);
    var bitCount := BITS_PER_KEY * |es|;
    if bitCount >= U64_LIMIT {
      TooManyEntries(env, es);
      return file.data, false;
    }
    var bloom := new BloomFilter(bitCount);
    assert es[..0] == [];
    EmptyFrames(env);
    EmptyFilter(env, bitCount);
    for i := 0 to |es|
      invariant AllStorable(env, es[..i]) && bloom.Valid() && fresh(bloom.inner) && fresh(file)
      invariant file.data == Frames(env, es[..i]) && file.pos == |file.data|
      invariant bloom.inner[..] == FilterOf(env, bitCount, es[..i])
    {
      var written := file.Append(env, es[i]);
      if !written {
        RefusedImage(env, es, i);
        return file.data, false;
      }
      bloom.Add(env, es[i].key);
      FramesStep(env, es, i);
      FilterStep(env, bitCount, es, i);
    }
    assert es[..|es|] == es;
    WholeImage(env, es);
    file.WriteAll(bloom.inner[..]);
    assert file.data == Frames(env, es) + FilterOf(env, bitCount, es);
    if bitCount >= U32_LIMIT {
      return file.data, false;
    }
    file.WriteAll(ToLe32(bitCount));
    assert file.data == Frames(env, es) + Footer(env, bitCount, es);
    return file.data, true;
  }

  lemma FilterStep(env: Env, bitCount: nat, es: seq<Entry>, i: nat)
    requires i < |es|
    ensures FilterOf(env, bitCount, es[..i + 1]) == Insert(env, FilterOf(env, bitCount, es[..i]), bitCount, es[i].key)
  {
    hide Insert;
    assert es[..i + 1][..i] == es[..i];
  }

  lemma EmptyFrames(env: Env)
    ensures AllStorable(env, []) && Frames(env, []) == []
  {}

  lemma EmptyFilter(env: Env, bitCount: nat)
    ensures FilterOf(env, bitCount, []) == Empty(bitCount)
  {}

  lemma TooManyEntries(env: Env, es: seq<Entry>)
    requires BITS_PER_KEY * |es| >= U64_LIMIT
    ensures FlushImage(env, es) == ([], false)
  {}

  lemma RefusedImage(env: Env, es: seq<Entry>, i: nat)
    requires BITS_PER_KEY * |es| < U64_LIMIT && i < |es| && AllStorable(env, es[..i]) && !Storable(env, es[i])
    ensures FlushImage(env, es) == (Frames(env, es[..i]), false)
  {
    hide Storable, Frames;
    StorablePrefixIs(env, es, i);
    assert es[i] in es;
  }

  lemma WholeImage(env: Env, es: seq<Entry>)
    requires BITS_PER_KEY * |es| < U64_LIMIT && AllStorable(env, es)
    ensures FlushImage(env, es) ==
              if BITS_PER_KEY * |es| < U32_LIMIT then (Frames(env, es) + Footer(env, BITS_PER_KEY * |es|, es), true)
              else (Frames(env, es) + FilterOf(env, BITS_PER_KEY * |es|, es), false)
  {
    hide Storable, Frames, FilterOf;
  }
}
