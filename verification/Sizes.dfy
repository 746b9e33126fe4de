/** What the memtable weighs in bytes, when a write makes it flush, and where a merge cuts its files. */
module Sizes {
  import opened Bytes
  import opened Keys
  import opened Entries
  import opened Header
  import opened Recovery
  import opened MemTables
  import opened Lookup
  import opened Merge
  import opened Compaction
  import opened Store
  import opened Crash
  import opened Commands

  // ----- The bytes a memtable holds -----

  /** Over all keys, the length of the key and of its encoded entry. */
  ghost function Held(env: Env, inner: map<Text, Entry>): nat
    requires WellKeyed(env, inner)
    decreases |inner|
  {
    if inner == map[] then 0
    else
      var k := Min(inner.Keys);
      RemoveShrinks(inner, k);
      |k| + |env.encode(inner[k]).value| + Held(env, inner - {k})
  }

  lemma {:induction false} HeldWithout(env: Env, inner: map<Text, Entry>, k: Text)
    requires WellKeyed(env, inner) && k in inner
    ensures Held(env, inner) == |k| + |env.encode(inner[k]).value| + Held(env, inner - {k})
    decreases |inner|
  {
    hide WellKeyed;
    var m := Min(inner.Keys);
    if m != k {
      RemoveShrinks(inner, m);
      FewerKeyed(env, inner, m, k);
      HeldWithout(env, inner - {m}, k);
      LeastOfFewer(inner, m, k);
    }
  }

  lemma FewerKeyed(env: Env, inner: map<Text, Entry>, m: Text, k: Text)
    requires WellKeyed(env, inner) && k in inner
    ensures WellKeyed(env, inner - {m}) && WellKeyed(env, inner - {k}) && env.encode(inner[k]).Some?
  {}

  lemma LeastOfFewer(inner: map<Text, Entry>, m: Text, k: Text)
    requires k in inner && m == Min(inner.Keys) && m != k
    ensures var both := inner - {k};
            both != map[] && Min(both.Keys) == m && both[m] == inner[m] && both - {m} == inner - {m} - {k}
  {
    var both := inner - {k};
    assert m in both.Keys && both != map[];
    MinOfFewer(inner.Keys, both.Keys);
    assert both - {m} == inner - {m} - {k};
  }

  /** A write puts its key and its encoding in the place of those it replaces. */
  lemma HeldWith(env: Env, inner: map<Text, Entry>, e: Entry)
    requires WellKeyed(env, inner) && env.encode(e).Some?
    ensures Held(env, inner[e.key := e]) == |e.key| + |env.encode(e).value| + Held(env, inner - {e.key})
  {
    HeldWithout(env, inner[e.key := e], e.key);
    assert inner[e.key := e] - {e.key} == inner - {e.key};
  }

  lemma HeldLess(env: Env, inner: map<Text, Entry>, k: Text)
    requires WellKeyed(env, inner)
    ensures k in inner ==> Held(env, inner) == |k| + |env.encode(inner[k]).value| + Held(env, inner - {k})
    ensures k !in inner ==> Held(env, inner) == Held(env, inner - {k})
  {
    hide Held;
    if k in inner {
      HeldWithout(env, inner, k);
    } else {
      assert inner - {k} == inner;
    }
  }

  /** One write keeps the tracked size exact, if what is held after it fits u64. */
  lemma ProcessExact(env: Env, st: MemState, e: Entry)
    requires WellKeyed(env, st.inner) && env.encode(e).Some?
    requires st.size == Held(env, st.inner) < U64_LIMIT && Held(env, st.inner[e.key := e]) < U64_LIMIT
    ensures Process(env, st, e).size == Held(env, st.inner[e.key := e])
  {
    hide Held;
    HeldWith(env, st.inner, e);
    HeldLess(env, st.inner, e.key);
  }

  /** What one entry counts for, in the u64 the sum is taken in. */
  function Counted(env: Env, e: Entry): nat
    requires env.encode(e).Some?
  {
    if |e.key| + |env.encode(e).value| > 0xffff_ffff_ffff_ffff then 0xffff_ffff_ffff_ffff
    else |e.key| + |env.encode(e).value|
  }

  /** Whatever the tracked size is: the old entry is taken off, not below 0, and the new one added, not beyond u64. */
  lemma ProcessSaturates(env: Env, st: MemState, e: Entry)
    requires WellKeyed(env, st.inner) && env.encode(e).Some?
    ensures var old1 := if e.key in st.inner then Counted(env, st.inner[e.key]) else 0;
            var left := if st.size < old1 then 0 else st.size - old1;
            var sum := left + Counted(env, e);
            Process(env, st, e).size == if sum > 0xffff_ffff_ffff_ffff then 0xffff_ffff_ffff_ffff else sum
  {}

  ghost predicate AllEncoded(env: Env, es: seq<Entry>) {
    forall e | e in es :: env.encode(e).Some?
  }

  /** What is held after the first `i` entries. */
  ghost function HeldAfter(env: Env, es: seq<Entry>, i: nat): nat
    requires AllEncoded(env, es) && i <= |es|
  {
    ReplayWellKeyed(env, EMPTY, es[..i]);
    Held(env, Replay(env, EMPTY, es[..i]).inner)
  }

  /** As long as what is held fits u64, the tracked size is that. */
  lemma {:induction false} ReplayExact(env: Env, es: seq<Entry>, i: nat)
    requires AllEncoded(env, es) && i <= |es| && forall j | 0 <= j <= i :: HeldAfter(env, es, j) < U64_LIMIT
    ensures Replay(env, EMPTY, es[..i]).size == HeldAfter(env, es, i)
    decreases i
  {
    hide Held, Process;
    if i == 0 {
      assert es[..0] == [];
      NothingHeld(env);
    } else {
      ReplayExact(env, es, i - 1);
      assert es[..i] == es[..i - 1] + [es[i - 1]];
      ReplayAppend(env, EMPTY, es[..i - 1], es[i - 1]);
      ReplayWellKeyed(env, EMPTY, es[..i - 1]);
      assert HeldAfter(env, es, i - 1) < U64_LIMIT && HeldAfter(env, es, i) < U64_LIMIT;
      ProcessInner(env, Replay(env, EMPTY, es[..i - 1]), es[i - 1]);
      ProcessExact(env, Replay(env, EMPTY, es[..i - 1]), es[i - 1]);
    }
  }

  lemma ProcessInner(env: Env, st: MemState, e: Entry)
    ensures Process(env, st, e).inner == st.inner[e.key := e]
  {}

  lemma NothingHeld(env: Env)
    ensures WellKeyed(env, EMPTY.inner) && Held(env, EMPTY.inner) == 0 && Replay(env, EMPTY, []) == EMPTY
  {}

  lemma {:induction false} ReplayUnsaturated(env: Env, st: MemState, es: seq<Entry>)
    requires st.size < U64_LIMIT
    ensures Replay(env, st, es).size < U64_LIMIT
    decreases |es|
  {
    if es != [] {
      ReplayUnsaturated(env, Process(env, st, es[0]), es[1..]);
    }
  }

  /**
   * The tracked size is the sum over the map of key length and encoded length, throughout a replay, if and
   * only if that sum fits u64 throughout.
   */
  lemma TrackedSizeExact(env: Env, es: seq<Entry>)
    requires AllEncoded(env, es)
    ensures (forall i | 0 <= i <= |es| :: Replay(env, EMPTY, es[..i]).size == HeldAfter(env, es, i)) <==>
              (forall i | 0 <= i <= |es| :: HeldAfter(env, es, i) < U64_LIMIT)
  {
    hide HeldAfter, Process;
    forall i | 0 <= i <= |es| ensures Replay(env, EMPTY, es[..i]).size < U64_LIMIT {
      ReplayUnsaturated(env, EMPTY, es[..i]);
    }
    if forall i | 0 <= i <= |es| :: HeldAfter(env, es, i) < U64_LIMIT {
      forall i | 0 <= i <= |es| ensures Replay(env, EMPTY, es[..i]).size == HeldAfter(env, es, i) {
        ReplayExact(env, es, i);
      }
    }
  }

  /** While commands run, that sum is within 4 MiB, and each crash in a row adds 8 GiB at most. */
  lemma BoundedHeld(env: Env, s: State, crashes: nat)
    requires MemOk(env, s.mem.inner) && Bounded(env, s, crashes) && crashes <= MAX_CRASHES
    ensures WellKeyed(env, s.mem.inner)
    ensures s.mem.size == Held(env, s.mem.inner) <= 0x40_0000 + crashes * 0x2_0000_0000
  {
    hide MemOk, TotalSize;
    MemOkWellKeyed(env, s.mem.inner);
    TotalIsHeld(env, s.mem.inner);
  }

  lemma {:induction false} TotalIsHeld(env: Env, inner: map<Text, Entry>)
    requires WellKeyed(env, inner) && TotalSize(env, inner) < U64_LIMIT - 1
    ensures TotalSize(env, inner) == Held(env, inner)
    decreases |inner|
  {
    if inner != map[] {
      var k := Min(inner.Keys);
      RemoveShrinks(inner, k);
      TotalIsHeld(env, inner - {k});
    }
  }

  // ----- What an entry weighs in the codec as laid out -----

  /** Tag, key and value, each text behind its length in eight bytes; the key counts once more. */
  function LaidOutWeight(e: Entry): nat {
    match e
    case Set(k, v) => 2 * |k| + |v| + 20
    case Delete(k) => 2 * |k| + 12
  }

  /** A tombstone of one letter, byte by byte: tag 1, length 1 in eight bytes, and the letter. */
  lemma LaidOutTombstone(b: byte)
    ensures Encode(Delete([b])) == Some([1, 0, 0, 0] + ([1, 0, 0, 0] + [0, 0, 0, 0] + [b]))
  {}

  lemma LaidOutWeighs(env: Env, e: Entry)
    requires LaidOut(env, e) && env.encode(e).Some?
    ensures |e.key| + |env.encode(e).value| == LaidOutWeight(e)
  {}

  // ----- When a write flushes -----

  /**
   * A write flushes if and only if key and encoding of the new entry, and of all entries for other keys, are
   * over 4 MiB together.
   */
  lemma FlushesPastFourMiB(env: Env, s: State, e: Entry)
    requires WellKeyed(env, s.mem.inner) && Storable(env, e)
    requires s.mem.size == Held(env, s.mem.inner) < U64_LIMIT
    requires Held(env, s.mem.inner - {e.key}) + |e.key| + |env.encode(e).value| < U64_LIMIT
    ensures var s1 := Write(env, s, e).0;
            MaybeFlush(env, s1) ==
              if Held(env, s.mem.inner - {e.key}) + |e.key| + |env.encode(e).value| > 4 * 1024 * 1024
              then Flush(env, s1) else (s1, true)
  {
    hide Held, Flush, Frame, Process;
    HeldWith(env, s.mem.inner, e);
    ProcessExact(env, s.mem, e);
  }

  /** The same in the lengths of key and value, for the codec as laid out. */
  lemma LaidOutFlushes(env: Env, s: State, e: Entry)
    requires WellKeyed(env, s.mem.inner) && Storable(env, e) && LaidOut(env, e)
    requires s.mem.size == Held(env, s.mem.inner) < U64_LIMIT
    requires Held(env, s.mem.inner - {e.key}) + LaidOutWeight(e) < U64_LIMIT
    ensures var s1 := Write(env, s, e).0;
            MaybeFlush(env, s1) ==
              if Held(env, s.mem.inner - {e.key}) + LaidOutWeight(e) > 4 * 1024 * 1024
              then Flush(env, s1) else (s1, true)
  {
    hide Held, Flush, Write, Encode, LaidOutWeight, MaybeFlush;
    LaidOutWeighs(env, e);
    FlushesPastFourMiB(env, s, e);
  }

  // ----- Where a merge cuts its output -----

  /** The bytes of a list of entries: their keys and their encodings. */
  ghost function HeldBy(env: Env, es: seq<Entry>): nat
    requires AllEncoded(env, es)
    decreases |es|
  {
    if es == [] then 0
    else HeldBy(env, es[..|es| - 1]) + |es[|es| - 1].key| + |env.encode(es[|es| - 1]).value|
  }

  lemma HeldBySnoc(env: Env, es: seq<Entry>, e: Entry)
    requires AllStorable(env, es) && Storable(env, e)
    ensures AllStorable(env, es + [e]) && AllEncoded(env, es + [e]) && AllEncoded(env, es)
    ensures HeldBy(env, es + [e]) == HeldBy(env, es) + |e.key| + |env.encode(e).value|
    ensures |e.key| + |env.encode(e).value| < 0x2_0000_0000
  {
    assert (es + [e])[..|es|] == es;
    StorableEncodes(env, es);
    forall x | x in es + [e] ensures Storable(env, x) && env.encode(x).Some? {
      assert x in es || x == e;
    }
  }

  /** The memtable a merge fills holds what was put into it: no key comes twice. */
  lemma {:induction false} SortedReplaySize(env: Env, es: seq<Entry>)
    requires SortedEntries(es) && AllStorable(env, es)
    ensures AllEncoded(env, es)
    ensures HeldBy(env, es) < U64_LIMIT ==> Replay(env, EMPTY, es).size == HeldBy(env, es)
    decreases |es|
  {
    hide HeldBy, Process, Storable, Less;
    StorableEncodes(env, es);
    if es == [] {
      NothingHeldBy(env);
    } else {
      var init, last := es[..|es| - 1], es[|es| - 1];
      assert es == init + [last];
      SortedReplaySize(env, init);
      HeldBySnoc(env, init, last);
      ReplaySorted(env, init);
      ReplayAppend(env, EMPTY, init, last);
      forall e | e in init ensures e.key != last.key {
        NotItself(e.key, last.key);
      }
      assert last.key !in KeysIn(init);
      NewKeySize(env, Replay(env, EMPTY, init), last);
    }
  }

  lemma NothingHeldBy(env: Env)
    ensures AllEncoded(env, []) && HeldBy(env, []) == 0 && Replay(env, EMPTY, []).size == 0
  {}

  lemma NewKeySize(env: Env, st: MemState, e: Entry)
    requires env.encode(e).Some? && e.key !in st.inner
    ensures st.size + |e.key| + |env.encode(e).value| < U64_LIMIT ==>
              Process(env, st, e).size == st.size + |e.key| + |env.encode(e).value|
  {}

  /** Every file but the last is over 4 MiB, and no file would be without its last entry. */
  ghost predicate CutPastFourMiB(env: Env, chunks: seq<seq<Entry>>) {
    forall i | 0 <= i < |chunks| ::
      var c := chunks[i];
      && AllEncoded(env, c) && c != [] && HeldBy(env, c[..|c| - 1]) <= 4 * 1024 * 1024
      && (i < |chunks| - 1 ==> HeldBy(env, c) > 4 * 1024 * 1024)
  }

  lemma {:induction false} ChunksCut(env: Env, pending: seq<Entry>, rest: seq<Entry>)
    requires SortedEntries(pending + rest) && AllStorable(env, pending) && AllStorable(env, rest)
    requires AllEncoded(env, pending) && HeldBy(env, pending) <= 4 * 1024 * 1024
    ensures CutPastFourMiB(env, Chunks(env, pending, rest))
    decreases |rest|
  {
    hide HeldBy, Replay, Storable, Less, SortedEntries;
    if rest == [] {
      if pending != [] {
        assert pending == pending[..|pending| - 1] + [pending[|pending| - 1]];
        HeldBySnoc(env, pending[..|pending| - 1], pending[|pending| - 1]);
      }
    } else {
      var next := pending + [rest[0]];
      SortedParts(pending, rest);
      HeldBySnoc(env, pending, rest[0]);
      SortedReplaySize(env, next);
      NothingHeldBy(env);
      if ShouldFlush(Replay(env, EMPTY, next)) {
        ChunksCut(env, [], rest[1..]);
        CutCons(env, pending, next, Chunks(env, [], rest[1..]));
      } else {
        ChunksCut(env, next, rest[1..]);
      }
    }
  }

  lemma SortedParts(pending: seq<Entry>, rest: seq<Entry>)
    requires SortedEntries(pending + rest) && rest != []
    ensures var next := pending + [rest[0]];
            SortedEntries(next) && SortedEntries(next + rest[1..]) && SortedEntries([] + rest[1..])
  {
    hide Less;
    var next := pending + [rest[0]];
    assert next + rest[1..] == pending + rest;
    assert next == (pending + rest)[..|next|] && [] + rest[1..] == (pending + rest)[|next|..];
  }

  lemma CutCons(env: Env, pending: seq<Entry>, next: seq<Entry>, chunks: seq<seq<Entry>>)
    requires CutPastFourMiB(env, chunks) && next != [] && next[..|next| - 1] == pending && AllEncoded(env, next)
    requires HeldBy(env, pending) <= 4 * 1024 * 1024 < HeldBy(env, next)
    ensures CutPastFourMiB(env, [next] + chunks)
  {
    hide HeldBy, AllEncoded;
  }

  /** So are the files of a merge cut. */
  lemma OutputCuts(env: Env, files: map<nat, bytes>)
    requires FilesSorted(env, files)
    ensures CutPastFourMiB(env, OutputChunks(env, files))
  {
    hide LiveEntries, Chunks, OutputChunks, TablesOf, Contents, CutPastFourMiB;
    var live := LiveIn(env, files);
    MergeOfSorted(env, files);
    LiveEntriesShape(TablesOf(env, Contents(files)));
    LiveStorable(env, TablesOf(env, Contents(files)));
    NothingHeldBy(env);
    assert [] + live == live;
    ChunksCut(env, [], live);
  }
}
