/** Each operation keeps the invariant, and changes no answer but the one it is asked to change. */
module Refinement {
  import opened Bytes
  import opened Keys
  import opened Entries
  import opened Header
  import opened Reader
  import opened Recovery
  import opened Bloom
  import opened Disk
  import opened MemTables
  import opened Tables
  import opened Lookup
  import opened Merge
  import opened Plans
  import opened Store

  // ----- Writing -----

  lemma MemOkProcess(env: Env, st: MemState, e: Entry)
    requires MemOk(env, st.inner) && Storable(env, e)
    ensures MemOk(env, Process(env, st, e).inner)
  {
    hide Storable, EntrySize;
  }

  /** A write changes the answer for its own key, and no other, whatever the log holds. */
  lemma WriteRefines(env: Env, s: State, e: Entry)
    requires LiveInv(env, s) && Storable(env, e)
    ensures var s' := Write(env, s, e).0;
            && LiveInv(env, s')
            && forall k :: Get(env, s', k) == if k == e.key then AsLive(Some(e)) else Get(env, s, k)
  {
    hide Storable, Frame, EntrySize, FilterGet, PlainGet, Contents, TablesOk, TablesOf;
    MemOkProcess(env, s.mem, e);
  }

  /** The log keeps pace with the memtable if nothing in it that was passed over comes to life. */
  lemma WriteKeepsLog(env: Env, s: State, e: Entry)
    requires MemIsReplay(env, s) && Storable(env, e) && StillQuiet(env, s.wal, s.wal + Frame(env, e), 0)
    ensures MemIsReplay(env, Write(env, s, e).0)
  {
    hide Storable, Frame, Scan, StillQuiet, Replay, Process;
    AppendedFrameIsRead(env, s.wal, e);
    ReplayAppend(env, EMPTY, EntriesOf(Scan(env, s.wal, 0)), e);
  }

  // ----- One more file, whose entries the memtable holds too -----

  lemma TablesOkAdd(env: Env, datas: seq<bytes>, data: bytes)
    requires TablesOk(env, TablesOf(env, datas))
    requires SortedEntries(TableEntries(env, data)) && AllStorable(env, TableEntries(env, data))
    ensures TablesOk(env, TablesOf(env, [data] + datas))
  {
    hide TableEntries, AllStorable, SortedEntries;
    assert TablesOf(env, [data] + datas)[1..] == TablesOf(env, datas) by {
      assert ([data] + datas)[1..] == datas;
    }
  }

  lemma TopFile(env: Env, datas: seq<bytes>, data: bytes, k: Text)
    ensures PlainGet(env, [data] + datas, k) ==
              if Find(TableEntries(env, data), k).Some? then Find(TableEntries(env, data), k)
              else PlainGet(env, datas, k)
    ensures Find(TableEntries(env, data), k).None? ==> FilterGet(env, [data] + datas, k) == FilterGet(env, datas, k)
    ensures Find(TableEntries(env, data), k).Some? && Covered(env, data) ==>
              FilterGet(env, [data] + datas, k) == Find(TableEntries(env, data), k)
  {
    hide ReadFooter, MayContain;
    assert ([data] + datas)[0] == data && ([data] + datas)[1..] == datas;
    assert TablesOf(env, [data] + datas)[1..] == TablesOf(env, datas);
  }

  lemma ValuesAreSorted(env: Env, inner: map<Text, Entry>)
    requires MemOk(env, inner)
    ensures SortedEntries(SortedValues(inner)) && AllStorable(env, SortedValues(inner))
    ensures forall k :: Find(SortedValues(inner), k) == if k in inner then Some(inner[k]) else None
  {
    hide Storable, Less, SortedValues, Find;
    var ks, es := SortedKeys(inner.Keys), SortedValues(inner);
    assert |es| == |ks|;
    forall i | 0 <= i < |es|
      ensures ks[i] in inner && es[i] == inner[ks[i]] && es[i].key == ks[i] && Storable(env, es[i])
    {
      ValueAt(inner, i);
    }
    forall k ensures Find(es, k) == if k in inner then Some(inner[k]) else None {
      FindByKeys(es, ks, k);
      assert k in ks <==> k in Elements(ks);
    }
  }

  lemma PrefixKeys(es: seq<Entry>, p: seq<Entry>, k: Text)
    requires p <= es && Find(es, k).None?
    ensures Find(p, k).None?
  {
    assert forall i | 0 <= i < |p| :: p[i] == es[i] && es[i] in es;
  }

  /**
   * A file that holds a prefix of the memtable changes no answer, whatever its filter says: this is a
   * flush cut short at any byte, and the finished file while the log is still there.
   */
  lemma ShadowedFile(env: Env, s: State, data: bytes)
    requires LiveInv(env, s) && TableEntries(env, data) <= SortedValues(s.mem.inner)
    ensures var s' := s.(files := s.files[env.clock(s.tick) := data], tick := s.tick + 1);
            LiveInv(env, s') && SameAnswers(env, s, s')
  {
    hide Storable, TableEntries, FilterGet, PlainGet, Contents, TablesOf, TablesOk, Scan, Replay, SortedValues;
    var s' := s.(files := s.files[env.clock(s.tick) := data], tick := s.tick + 1);
    var datas := Contents(s.files);
    ContentsAdd(s.files, env.clock(s.tick), data);
    ValuesAreSorted(env, s.mem.inner);
    PrefixOk(env, SortedValues(s.mem.inner), TableEntries(env, data));
    TablesOkAdd(env, datas, data);
    forall k | k !in s.mem.inner
      ensures FilterGet(env, Contents(s'.files), k) == FilterGet(env, datas, k)
      ensures PlainGet(env, Contents(s'.files), k) == PlainGet(env, datas, k)
    {
      PrefixKeys(SortedValues(s.mem.inner), TableEntries(env, data), k);
      TopFile(env, datas, data, k);
    }
  }

  lemma PrefixOk(env: Env, es: seq<Entry>, p: seq<Entry>)
    requires p <= es && SortedEntries(es) && AllStorable(env, es)
    ensures SortedEntries(p) && AllStorable(env, p)
  {}

  // ----- Flushing -----

  /** The file the flush writes shows no entry beyond its frames. */
  ghost predicate CleanFlush(env: Env, s: State) {
    s.mem.inner != map[] ==>
      var es := SortedValues(s.mem.inner);
      AllStorable(env, es) && HarmlessCut(env, es, FlushImage(env, es).0)
  }

  /** The image of storable entries: their frames, the filter, and unless there are too many keys the bit count. */
  lemma ImageShape(env: Env, es: seq<Entry>)
    requires AllStorable(env, es) && es != []
    ensures var (image, done) := FlushImage(env, es);
            && (done ==> Fits(env, es) && image == Frames(env, es) + Footer(env, BITS_PER_KEY * |es|, es))
            && (exists rest :: image <= Frames(env, es) + rest)
  {
    hide Storable, Frames, Footer, FilterOf;
    var bits := BITS_PER_KEY * |es|;
    StorableWhole(env, es);
    if bits >= U64_LIMIT {
      assert [] <= Frames(env, es) + [];
    } else if bits >= U32_LIMIT {
      assert FlushImage(env, es).0 <= Frames(env, es) + FilterOf(env, bits, es);
    } else {
      assert FlushImage(env, es).0 <= Frames(env, es) + Footer(env, bits, es);
    }
  }

  lemma StorableWhole(env: Env, es: seq<Entry>)
    requires AllStorable(env, es)
    ensures AllStorableExec(env, es) && StorablePrefix(env, es) == es
  {
    hide Storable;
  }

  /** Any byte prefix of a flush image shows a prefix of the entries, if the cut is harmless. */
  lemma CutImage(env: Env, es: seq<Entry>, n: nat)
    requires AllStorable(env, es) && es != [] && n <= |FlushImage(env, es).0|
    requires HarmlessCut(env, es, FlushImage(env, es).0[..n])
    ensures TableEntries(env, FlushImage(env, es).0[..n]) <= es
  {
    hide Storable, Frames, TableEntries, HarmlessCut, FlushImage;
    ImageShape(env, es);
    var image := FlushImage(env, es).0;
    var rest :| image <= Frames(env, es) + rest;
    assert (Frames(env, es) + rest)[..n] == image[..n];
    HarmlessPrefix(env, es, rest, n);
  }

  /** A complete file holds all its entries, and its filter admits every one of them. */
  lemma CompleteImage(env: Env, es: seq<Entry>)
    requires AllStorable(env, es) && es != [] && FlushImage(env, es).1
    requires HarmlessCut(env, es, FlushImage(env, es).0)
    ensures var image := FlushImage(env, es).0;
            OpenTable(env, image).Some? && TableEntries(env, image) == es && Covered(env, image)
  {
    hide Storable, Frames, FilterOf, Footer, OpenTable, FlushImage, MayContain, HarmlessCut, Quiet;
    var image := FlushImage(env, es).0;
    var bits := BITS_PER_KEY * |es|;
    ImageShape(env, es);
    CompleteIsHarmless(env, es, bits);
    TableRoundTrip(env, es, bits);
    forall e | e in es ensures MayContain(env, FilterOf(env, bits, es), bits, e.key) {
      var i :| 0 <= i < |es| && es[i] == e;
      InsertedMayBeContained(env, bits, es, i);
    }
  }

  /** A flush, up to the point where a compaction may start, changes no answer, even when it fails. */
  lemma FlushFileRefines(env: Env, s: State)
    requires LiveInv(env, s) && CleanFlush(env, s)
    ensures var s' := FlushFile(env, s).0;
            LiveInv(env, s') && SameAnswers(env, s, s')
  {
    hide Storable, TableEntries, FilterGet, PlainGet, Contents, TablesOf, TablesOk, Scan, Replay, SortedValues,
         FlushImage, Covered, HarmlessCut;
    if s.mem.inner == map[] {
    } else {
      var es := SortedValues(s.mem.inner);
      var image := FlushImage(env, es).0;
      ValuesAreSorted(env, s.mem.inner);
      assert image[..|image|] == image;
      CutImage(env, es, |image|);
      ShadowedFile(env, s, image);
      ContentsAdd(s.files, env.clock(s.tick), image);
      if FlushImage(env, es).1 {
        CompleteImage(env, es);
        TruncationRefines(env, WithFile(env, s), Contents(s.files), image);
      }
    }
  }

  /** A flush that succeeds leaves an empty log and an empty memtable; one that fails leaves both alone. */
  lemma FlushFileLog(env: Env, s: State)
    ensures FileWritten(env, s) || MemIsReplay(env, s) ==> MemIsReplay(env, FlushFile(env, s).0)
  {
    hide FlushImage, SortedValues, Scan, Replay;
    EmptyScan(env);
  }

  lemma EmptyScan(env: Env)
    ensures Replay(env, EMPTY, EntriesOf(Scan(env, [], 0))) == EMPTY
  {}

  /** Once the newest file holds the whole memtable, the log can go. */
  lemma TruncationRefines(env: Env, s: State, older: seq<bytes>, data: bytes)
    requires LiveInv(env, s) && Contents(s.files) == [data] + older
    requires TableEntries(env, data) == SortedValues(s.mem.inner) && Covered(env, data)
    ensures forall n ::
              var s' := s.(wal := [], mem := EMPTY, flushCount := n); LiveInv(env, s') && SameAnswers(env, s, s')
  {
    hide Storable, TableEntries, FilterGet, PlainGet, Contents, TablesOf, TablesOk, Scan, Replay, SortedValues, Covered;
    ValuesAreSorted(env, s.mem.inner);
    forall k
      ensures AsLive(FilterGet(env, Contents(s.files), k)) == Get(env, s, k)
      ensures AsLive(PlainGet(env, Contents(s.files), k)) == Get(env, s, k)
    {
      TopFile(env, older, data, k);
    }
  }

  // ----- Reopening a damaged log -----

  /** The map changed by the writes of `es`, in order. */
  function MapOf(m: map<Text, Text>, es: seq<Entry>): map<Text, Text>
    decreases |es|
  {
    if es == [] then m else AbstractWrite(MapOf(m, es[..|es| - 1]), es[|es| - 1])
  }

  /** The last entry for a key decides it; a key without one is as before. */
  lemma {:induction false} MapOfLast(m: map<Text, Text>, es: seq<Entry>, k: Text)
    ensures match LastFor(es, k)
            case Some(Set(_, v)) => k in MapOf(m, es) && MapOf(m, es)[k] == v
            case Some(Delete(_)) => k !in MapOf(m, es)
            case None => (k in MapOf(m, es) <==> k in m) && (k in m ==> MapOf(m, es)[k] == m[k])
    decreases |es|
  {
    if es != [] {
      MapOfLast(m, es[..|es| - 1], k);
    }
  }

  lemma {:induction false} ReplayMemOk(env: Env, es: seq<Entry>)
    requires AllStorable(env, es)
    ensures MemOk(env, Replay(env, EMPTY, es).inner)
    decreases |es|
  {
    hide Storable, EntrySize, Process;
    if es != [] {
      var init, last := es[..|es| - 1], es[|es| - 1];
      assert es == init + [last] && last in es;
      ReplayMemOk(env, init);
      ReplayAppend(env, EMPTY, init, last);
      MemOkProcess(env, Replay(env, EMPTY, init), last);
    }
  }

  /** A log that reads as `es` over files that answer as `m`: the store answers as `m` changed by `es`. */
  lemma ReopenReads(env: Env, wal: bytes, es: seq<Entry>, files: map<nat, bytes>, tick: nat, m: map<Text, Text>)
    requires AllStorable(env, es) && EntriesOf(Scan(env, wal, 0)) == es
    requires var base := Reopen(env, Durable([], files), tick); Inv(env, base) && Refines(env, base, m)
    ensures var s := Reopen(env, Durable(wal, files), tick); Inv(env, s) && Refines(env, s, MapOf(m, es))
  {
    hide Storable, Scan, Replay, FilterGet, PlainGet, Contents, TablesOk, TablesOf, AllStorable;
    var base, s := Reopen(env, Durable([], files), tick), Reopen(env, Durable(wal, files), tick);
    EmptyScan(env);
    ReplayMemOk(env, es);
    forall k ensures Get(env, s, k) == if k in MapOf(m, es) then Some(Set(k, MapOf(m, es)[k])) else None {
      ReplayKeepsLast(env, es, k);
      MapOfLast(m, es, k);
      assert Get(env, base, k) == if k in m then Some(Set(k, m[k])) else None;
    }
  }

  /**
   * One damaged frame costs the store exactly that write: reopened over any files, it is in the invariant
   * and answers as if the entry had never been written.
   */
  lemma ReopenAfterDamage(env: Env, before: seq<Entry>, e: Entry, bad: bytes, after: seq<Entry>,
                          files: map<nat, bytes>, tick: nat, m: map<Text, Text>)
    requires AllStorable(env, before) && Storable(env, e) && AllStorable(env, after)
    requires Damaged(Frame(env, e), bad) && NoInnerMagic(bad)
    requires var base := Reopen(env, Durable([], files), tick); Inv(env, base) && Refines(env, base, m)
    ensures var s := Reopen(env, Durable(Frames(env, before) + bad + Frames(env, after), files), tick);
            Inv(env, s) && Refines(env, s, MapOf(m, before + after))
  {
    hide *;
    DamageCostsOneEntry(env, before, e, bad, after);
    FramesConcat(env, before, after);
    ReopenReads(env, Frames(env, before) + bad + Frames(env, after), before + after, files, tick, m);
  }

  /** A byte flipped outside a length field. */
  lemma ReopenAfterFlip(env: Env, before: seq<Entry>, e: Entry, i: nat, b: byte, after: seq<Entry>,
                        files: map<nat, bytes>, tick: nat, m: map<Text, Text>)
    requires AllStorable(env, before) && Storable(env, e) && AllStorable(env, after)
    requires i < |Frame(env, e)| && !(6 <= i < 10) && Frame(env, e)[i] != b && NoInnerMagic(Frame(env, e)[i := b])
    requires var base := Reopen(env, Durable([], files), tick); Inv(env, base) && Refines(env, base, m)
    ensures var wal := Frames(env, before) + Frame(env, e)[i := b] + Frames(env, after);
            var s := Reopen(env, Durable(wal, files), tick);
            Inv(env, s) && Refines(env, s, MapOf(m, before + after))
  {
    hide *;
    FrameIsLong(env, e);
    OneByteDamages(Frame(env, e), i, b);
    ReopenAfterDamage(env, before, e, Frame(env, e)[i := b], after, files, tick, m);
  }
}
