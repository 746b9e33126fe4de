/** What a frame cut short by a crash can show: the exact conditions, and inputs that fail them. */
module TornFrames {
  import opened Bytes
  import opened Entries
  import opened Header
  import opened Reader
  import opened Recovery
  import opened Bloom
  import opened Disk
  import opened MemTables
  import opened Tables
  import opened Lookup
  import opened Merge
  import opened Compaction
  import opened Plans
  import opened Store
  import opened Crash
  import opened Runs
  import opened Inputs
  import CleanRuns
  import Crc32

  // ----- A flush cut short -----

  /** The bytes of the file a flush of `s` leaves when it is cut after `n` of them. */
  function CutFile(env: Env, s: State, n: nat): bytes
    requires n <= |FlushImage(env, SortedValues(s.mem.inner)).0|
  {
    FlushImage(env, SortedValues(s.mem.inner)).0[..n]
  }

  /** The store reopened on that file beside the others and the log. */
  function AfterCutFlush(env: Env, s: State, n: nat, tick: nat): State
    requires n <= |FlushImage(env, SortedValues(s.mem.inner)).0|
  {
    Reopen(env, Durable(s.wal, s.files[env.clock(s.tick) := CutFile(env, s, n)]), tick)
  }

  lemma FlushStarts(env: Env, s: State)
    requires s.mem.inner != map[]
    ensures FlushOps(env, s) != []
    ensures FlushOps(env, s)[0] == Put(env.clock(s.tick), FlushImage(env, SortedValues(s.mem.inner)).0)
  {
    hide FlushImage, SortedValues, CompactOps;
  }

  /** That is the state after a crash inside the first durable step of the flush. */
  lemma CutFlushSteps(env: Env, s: State, n: nat, tick: nat)
    requires s.mem.inner != map[] && n <= |FlushImage(env, SortedValues(s.mem.inner)).0|
    ensures CutFits(FlushOps(env, s), Inside(0, n))
    ensures CrashState(env, s, FlushOps(env, s), Inside(0, n), tick) == AfterCutFlush(env, s, n, tick)
  {
    hide FlushImage, SortedValues, FlushOps, ApplyOps, StepsBefore, Reopen;
    FlushStarts(env, s);
    OnePutCut(DurableOf(s), FlushOps(env, s), Inside(0, n));
  }

  lemma {:induction false} OneMoreFile(env: Env, data: bytes, datas: seq<bytes>, k: Text)
    ensures FilterGet(env, [data] + datas, k) ==
              if FilterGet(env, [data], k).Some? then FilterGet(env, [data], k) else FilterGet(env, datas, k)
  {
    FilterGetConcat(env, [data], datas, k);
  }

  /**
   * The exact condition at the level of answers: the reopened store answers as before if and only if the
   * torn file finds nothing for a key outside the memtable, except what was the answer anyway.
   */
  lemma CutFlushExact(env: Env, s: State, n: nat, tick: nat)
    requires Inv(env, s) && s.mem.inner != map[] && n <= |FlushImage(env, SortedValues(s.mem.inner)).0|
    ensures var ops, data := FlushOps(env, s), CutFile(env, s, n);
            && CutFits(ops, Inside(0, n))
            && (SameAnswers(env, s, CrashState(env, s, ops, Inside(0, n), tick)) <==>
                  forall k | k !in s.mem.inner && FilterGet(env, [data], k).Some? ::
                    AsLive(FilterGet(env, [data], k)) == Get(env, s, k))
  {
    hide FlushImage, SortedValues, FilterGet, PlainGet, Contents, Scan, Replay, FilesOk, MemOk, FlushOps, CrashState,
         CutFits;
    CutFlushSteps(env, s, n, tick);
    var data := CutFile(env, s, n);
    var s' := AfterCutFlush(env, s, n, tick);
    ContentsAdd(s.files, env.clock(s.tick), data);
    forall k | k !in s.mem.inner
      ensures Get(env, s', k) ==
                if FilterGet(env, [data], k).Some? then AsLive(FilterGet(env, [data], k)) else Get(env, s, k)
    {
      OneMoreFile(env, data, Contents(s.files), k);
    }
  }

  /** The outputs of a compaction before the one that is cut, and the bytes of that one. */
  ghost function CutOutputs(env: Env, s: State, c: nat, n: nat): seq<bytes>
    requires c < |OutputChunks(env, s.files)| && n <= |FlushImage(env, OutputChunks(env, s.files)[c]).0|
  {
    Images(env, OutputChunks(env, s.files))[..c] + [FlushImage(env, OutputChunks(env, s.files)[c]).0[..n]]
  }

  lemma CutOutputSteps(env: Env, s: State, c: nat, n: nat, tick: nat)
    requires Inv(env, s) && CutFits(CompactOps(env, s.files, s.tick), Inside(c, n))
    ensures c < |OutputChunks(env, s.files)| && n <= |FlushImage(env, OutputChunks(env, s.files)[c]).0|
    ensures SameAnswers(env, WithFiles(s, CutFiles(env, s.files, s.tick, CutOutputs(env, s, c, n), 0), tick),
                             CrashState(env, s, CompactOps(env, s.files, s.tick), Inside(c, n), tick))
  {
    hide LiveInv, MemIsReplay, SameAnswers, FilesAfter, CutFiles, Listing, PutsOf, Removes, OutputChunks, MergeDone,
         CompactOps, StepsBefore, ApplyOps, Reopen, FlushImage, CutFits;
    var chunks, cut := OutputChunks(env, s.files), Inside(c, n);
    InvMerges(env, s);
    CompactOpsOf(env, s.files, s.tick);
    InsideIsPut(env, s.files, s.tick, Listing(s.files.Keys), c, n);
    MergeCutSteps(env, s.files, s.tick, Listing(s.files.Keys), cut);
    var datas := CutOutputs(env, s, c, n);
    assert CutDatas(env, chunks, cut) == datas;
    StepsLeaveCut(env, s.files, s.tick, datas, 0);
    CutStepsKind(env, s.tick, datas, Listing(s.files.Keys)[..0]);
    StepsKeepWal(s.wal, s.files, StepsBefore(CompactOps(env, s.files, s.tick), cut));
    ReopenAnswers(env, s, CutFiles(env, s.files, s.tick, datas, 0), tick);
  }

  lemma PutIsInFront(front: seq<DiskOp>, removes: seq<DiskOp>, c: nat)
    requires c < |front| + |removes| && (front + removes)[c].Put?
    requires forall i | 0 <= i < |removes| :: removes[i].Remove?
    ensures c < |front|
  {}

  lemma InsideIsPut(env: Env, files: map<nat, bytes>, tick: nat, names: seq<nat>, c: nat, n: nat)
    requires CutFits(Puts(env, tick, OutputChunks(env, files)) + Removes(names), Inside(c, n))
    ensures c < |OutputChunks(env, files)| && n <= |FlushImage(env, OutputChunks(env, files)[c]).0|
  {
    hide OutputChunks, FlushImage;
    PutIsInFront(Puts(env, tick, OutputChunks(env, files)), Removes(names), c);
  }

  /** The same for an output of a compaction cut after any byte, if the outputs before it hold no other entries. */
  lemma CutOutputExact(env: Env, s: State, c: nat, n: nat, tick: nat)
    requires Inv(env, s) && CutFits(CompactOps(env, s.files, s.tick), Inside(c, n))
    requires c < |OutputChunks(env, s.files)| && n <= |FlushImage(env, OutputChunks(env, s.files)[c]).0|
    requires CleanOutputs(env, OutputChunks(env, s.files), Images(env, OutputChunks(env, s.files))[..c])
    ensures var data := FlushImage(env, OutputChunks(env, s.files)[c]).0[..n];
            SameAnswers(env, s, CrashState(env, s, CompactOps(env, s.files, s.tick), Inside(c, n), tick)) <==>
              forall k | k !in s.mem.inner && FilterGet(env, [data], k).Some? ::
                AsLive(FilterGet(env, [data], k)) == Get(env, s, k)
  {
    hide LiveInv, MemIsReplay, FilterGet, Contents, CutFiles, Images, OutputChunks, CompactOps, CrashState, CutFits,
         CleanOutputs, FlushImage, CutOutputs;
    CutOutputSteps(env, s, c, n, tick);
    var data := FlushImage(env, OutputChunks(env, s.files)[c]).0[..n];
    var s' := WithFiles(s, CutFiles(env, s.files, s.tick, CutOutputs(env, s, c, n), 0), tick);
    forall k | k !in s.mem.inner
      ensures Get(env, s', k) ==
                if FilterGet(env, [data], k).Some? then AsLive(FilterGet(env, [data], k)) else Get(env, s, k)
    {
      CutOutputLookup(env, s, c, n, tick, k);
    }
  }

  lemma CutOutputLookup(env: Env, s: State, c: nat, n: nat, tick: nat, k: Text)
    requires LiveInv(env, s) && k !in s.mem.inner
    requires c < |OutputChunks(env, s.files)| && n <= |FlushImage(env, OutputChunks(env, s.files)[c]).0|
    requires CleanOutputs(env, OutputChunks(env, s.files), Images(env, OutputChunks(env, s.files))[..c])
    ensures var data := FlushImage(env, OutputChunks(env, s.files)[c]).0[..n];
            AsLive(FilterGet(env, Contents(CutFiles(env, s.files, s.tick, CutOutputs(env, s, c, n), 0)), k)) ==
              if FilterGet(env, [data], k).Some? then AsLive(FilterGet(env, [data], k)) else Get(env, s, k)
  {
    hide FilterGet, PlainGet, Contents, CutFiles, OutputChunks, CleanOutputs, FlushImage, LiveEntries, TablesOf,
         TablesOk, Honest, Rev, MemOk;
    var chunks := OutputChunks(env, s.files);
    var whole, data := Images(env, chunks)[..c], FlushImage(env, chunks[c]).0[..n];
    var datas := CutOutputs(env, s, c, n);
    var originals := Contents(s.files);
    OutputsHonest(env, s.files, whole);
    HonestRev(env, whole, LiveEntries(TablesOf(env, originals)));
    CutContents(env, s.files, s.tick, datas, 0);
    RevSnoc(datas);
    assert datas[..c] == whole && originals[0..] == originals;
    assert [data] + Rev(whole) + originals == [data] + (Rev(whole) + originals);
    OneMoreFile(env, data, Rev(whole) + originals, k);
    CutLookup(env, Rev(whole), originals, 0, k);
  }

  /** A file that ends in four zero bytes opens with an empty filter, and is read up to those bytes. */
  lemma ZeroFooterOpens(env: Env, front: bytes, e: Entry)
    requires Storable(env, e)
    requires var data := front + Frame(env, e) + [0, 0, 0, 0]; Quiet(env, data, 0, |front|)
    ensures var data := front + Frame(env, e) + [0, 0, 0, 0];
            && OpenTable(env, data) == Some(Filter(0, []))
            && TableEntries(env, data) != [] && TableEntries(env, data)[0] == e
  {
    hide Frame, Storable, Deserialize, NextHit, Quiet;
    var data := front + Frame(env, e) + [0, 0, 0, 0];
    var n := |data|;
    assert data[n - 4..] == [0, 0, 0, 0];
    FooterOfZeros(data);
    SkipQuiet(env, data, 0, |front|);
    assert data[|front|..] == Frame(env, e) + [0, 0, 0, 0];
    NextHitAtFrame(env, data, |front|, e);
  }

  lemma FooterOfZeros(data: bytes)
    requires |data| >= 4 && data[|data| - 4..] == [0, 0, 0, 0]
    ensures ReadFooter(data) == Some(Filter(0, []))
  {
    ByteRoundTrip(0);
    assert FromLe32([0, 0, 0, 0]) == 0;
  }

  /**
   * The input on which a crash during a flush does change answers: the value of the torn frame holds a
   * whole frame and four zero bytes. The file opens, and shows an entry although no frame is whole.
   */
  lemma TornFlushShowsInner(env: Env, outer: Entry, inner: Entry, front: bytes, n: nat)
    requires Storable(env, outer) && Storable(env, inner) && n < |Frame(env, outer)|
    requires Frame(env, outer)[..n] == front + Frame(env, inner) + [0, 0, 0, 0]
    requires Quiet(env, Frame(env, outer)[..n], 0, |front|)
    ensures WholeFrames(env, [outer], n) == 0 && !HarmlessCut(env, [outer], Frame(env, outer)[..n])
    ensures FilterGet(env, [Frame(env, outer)[..n]], inner.key) == Some(inner)
  {
    hide Frame, Storable, Deserialize, OpenTable, TableEntries, Frames, Quiet, HarmlessCut;
    var data := Frame(env, outer)[..n];
    ZeroFooterOpens(env, front, inner);
    FramesSingle(env, outer);
    assert (Frames(env, [outer]) + [])[..n] == data;
    CutTableExact(env, [outer], [], n);
    FirstIsFound(env, data, inner);
  }

  lemma FirstIsFound(env: Env, data: bytes, e: Entry)
    requires OpenTable(env, data) == Some(Filter(0, []))
    requires TableEntries(env, data) != [] && TableEntries(env, data)[0] == e
    ensures FilterGet(env, [data], e.key) == Some(e)
  {
    hide OpenTable, TableEntries;
  }

  // ----- One such input, for the codec as laid out -----

  const KEY_A: Text := [0x61]

  /** Nobody writes `INNER`; its frame is part of a value a client can type. */
  ghost function Outer(env: Env): Entry
    requires Storable(env, INNER)
  {
    Set(KEY_A, Frame(env, INNER) + [0, 0, 0, 0] + [0])
  }

  /** Header, tag, key and value length of the outer frame. */
  function Front(crc: bytes): bytes {
    [0x43, 0x44] + crc + [57, 0, 0, 0]
    + [0, 0, 0, 0] + [1, 0, 0, 0] + [0, 0, 0, 0] + [0x61] + [36, 0, 0, 0] + [0, 0, 0, 0]
  }

  /** The codec lays out the two entries as above; what it does with others does not matter. */
  ghost predicate BothLaidOut(env: Env) {
    LaidOut(env, INNER) && (Storable(env, INNER) ==> LaidOut(env, Outer(env)))
  }

  lemma InnerFits(env: Env)
    requires LaidOut(env, INNER)
    ensures Storable(env, INNER) && |Frame(env, INNER)| == 31
  {
    hide Frame, Storable;
    InnerFrame(env);
  }

  /** Key and value of the outer entry are words a client can type. */
  lemma OuterIsTyped(env: Env)
    requires LaidOut(env, INNER)
    ensures Storable(env, INNER) && OneWord(Outer(env).key) && OneWord(Outer(env).value)
  {
    hide Frame, Storable;
    InnerFrame(env);
    PlainConcat(Frame(env, INNER), [0, 0, 0, 0]);
    PlainConcat(Frame(env, INNER) + [0, 0, 0, 0], [0]);
  }

  lemma OuterFits(env: Env)
    requires Storable(env, INNER) && |Frame(env, INNER)| == 31 && LaidOut(env, Outer(env))
    ensures Storable(env, Outer(env)) && |Frame(env, Outer(env))| == 67
    ensures exists crc: bytes :: |crc| == 4 &&
              Frame(env, Outer(env)) == Front(crc) + Frame(env, INNER) + [0, 0, 0, 0] + [0]
  {
    hide Frame, ToLe16, ToLe32, ToLeWord, Crc32.Hash;
    var v := Frame(env, INNER) + [0, 0, 0, 0] + [0];
    SmallNumbers();
    MagicBytes();
    assert env.encode(Outer(env)) == Encode(Set(KEY_A, v));
    var p := Payload(env, Outer(env));
    assert p == [0, 0, 0, 0] + ([1, 0, 0, 0] + [0, 0, 0, 0] + [0x61]) + ([36, 0, 0, 0] + [0, 0, 0, 0] + v);
    FrameParts(env, Outer(env));
    var crc := ToLeWord(Crc32.Hash(p));
    assert Frame(env, Outer(env)) == Front(crc) + Frame(env, INNER) + [0, 0, 0, 0] + [0];
  }

  lemma FrameParts(env: Env, e: Entry)
    requires Storable(env, e)
    ensures var p := Payload(env, e);
            Frame(env, e) == ToLe16(MAGIC) + ToLeWord(Crc32.Hash(p)) + ToLe32(|p|) + p
  {}

  /** A window whose length field is zero never decodes. */
  lemma EmptyPayloadRejected(env: Env, w: bytes)
    requires |w| > HEADER_LEN && w[6..10] == [0, 0, 0, 0]
    ensures Deserialize(env, w).Err?
  {
    hide Crc32.Hash, FromLe16, FromLeWord;
    ByteRoundTrip(0);
    assert FromLe32([0, 0, 0, 0]) == 0;
    assert w[HEADER_LEN..HEADER_LEN + 0] == [];
  }

  lemma FrontHasNoMagic(crc: bytes, p: nat)
    requires |crc| == 4 && (p == 1 || 5 <= p < 31)
    ensures Front(crc)[p] == 0x43 ==> p < 30 && Front(crc)[p + 1] != 0x44
  {}

  lemma FrontHasNoLength(crc: bytes, p: nat)
    requires |crc| == 4 && 2 <= p <= 4
    ensures Front(crc)[p + 6..p + 10] == [0, 0, 0, 0]
  {}

  /** Whatever the checksum is, no window that starts in the front, past its first byte, decodes. */
  lemma FrontIsQuiet(env: Env, crc: bytes, rest: bytes, p: nat)
    requires |crc| == 4 && 1 <= p < 31
    ensures Deserialize(env, (Front(crc) + rest)[p..]).Err?
  {
    hide Deserialize, ToLe16, Front;
    var data := Front(crc) + rest;
    FrontSize(crc);
    var w := data[p..];
    if 2 <= p <= 4 {
      FrontHasNoLength(crc, p);
      assert |rest| >= 0 && w[6..10] == data[p + 6..p + 10] == Front(crc)[p + 6..p + 10];
      EmptyPayloadRejected(env, w);
    } else {
      FrontHasNoMagic(crc, p);
      MagicBytes();
      assert |w| > 2 ==> w[..2] == [data[p], data[p + 1]];
      assert data[p] == Front(crc)[p] && (p < 30 ==> data[p + 1] == Front(crc)[p + 1]);
      NoMagicNoEntry(env, w);
    }
  }

  lemma FrontSize(crc: bytes)
    requires |crc| == 4
    ensures |Front(crc)| == 31
  {}

  /** The outer frame cut before its last byte: nothing decodes before the inner frame, and then that does. */
  lemma OuterCut(env: Env) returns (front: bytes)
    requires BothLaidOut(env)
    ensures Storable(env, INNER) && Storable(env, Outer(env)) && |Frame(env, Outer(env))| == 67
    ensures |front| == 31 && Frame(env, Outer(env))[..66] == front + Frame(env, INNER) + [0, 0, 0, 0]
    ensures Quiet(env, Frame(env, Outer(env))[..66], 0, 31)
  {
    hide Frame, Storable, Deserialize, Front;
    InnerFits(env);
    OuterFits(env);
    var f := Frame(env, Outer(env));
    var crc: bytes :| |crc| == 4 && f == Front(crc) + Frame(env, INNER) + [0, 0, 0, 0] + [0];
    front := Front(crc);
    FrontSize(crc);
    var rest := Frame(env, INNER) + [0, 0, 0, 0];
    assert f[..66] == front + rest == front + Frame(env, INNER) + [0, 0, 0, 0];
    forall p: nat | p < 31 ensures Deserialize(env, f[..66][p..]).Err? {
      if p == 0 {
        TornFrameRejected(env, Outer(env), 66);
        assert f[..66][0..] == f[..66];
      } else {
        FrontIsQuiet(env, crc, rest, p);
      }
    }
  }

  lemma OneValue(e: Entry)
    ensures SortedValues(map[e.key := e]) == [e]
  {
    var inner := map[e.key := e];
    assert inner.Keys == {e.key};
    ValueAt(inner, 0);
  }

  /** The file a store writes that holds one entry starts with its frame. */
  lemma OneEntryFlush(env: Env, s: State, e: Entry, n: nat)
    requires Storable(env, e) && s.mem.inner == map[e.key := e] && n <= |Frame(env, e)|
    ensures n <= |FlushImage(env, SortedValues(s.mem.inner)).0| && CutFile(env, s, n) == Frame(env, e)[..n]
  {
    hide Storable, Frame, FlushImage, SortedValues, Footer;
    OneValue(e);
    FitsImage(env, [e]);
    FramesSingle(env, e);
  }

  lemma FirstState(env: Env, e: Entry)
    requires Storable(env, e)
    ensures var s := Write(env, Fresh(), e).0;
            Inv(env, s) && s.files == map[] && s.mem.inner == map[e.key := e] && MemIsReplay(env, s)
  {
    hide Storable, Frame, FilesOk, Scan, EntrySize, HoldsFrames;
    CleanRuns.FirstWrite(env, e);
    FreshIsEmpty(env);
    CleanRuns.FreshHasFrames(env);
    WriteStepRefines(env, Fresh(), e, map[]);
    CleanWriteReads(env, Fresh(), e);
  }

  /**
   * A crash during the first flush of a store that holds one key: after the reopen a second key, which
   * nobody wrote, has a value.
   */
  lemma TornFlushShowsStranger(env: Env)
    requires BothLaidOut(env) && Storable(env, INNER)
    ensures Storable(env, Outer(env)) && OneWord(Outer(env).key) && OneWord(Outer(env).value)
    ensures var s := Write(env, Fresh(), Outer(env)).0;
            var ops, cut := FlushOps(env, s), Inside(0, 66);
            && Inv(env, s) && Get(env, s, INNER.key) == None && CutFits(ops, cut)
            && Get(env, CrashState(env, s, ops, cut, 1), INNER.key) == Some(INNER)
  {
    hide *;
    var front := OuterCut(env);
    var s := Write(env, Fresh(), Outer(env)).0;
    FirstState(env, Outer(env));
    OneEntryFlush(env, s, Outer(env), 66);
    CutFlushSteps(env, s, 66, 1);
    TornFlushShowsInner(env, Outer(env), INNER, front, 66);
    LaidOutInner(env);
    OuterIsTyped(env);
    TwoKeys(env);
    ReopenShows(env, s, 66, INNER);
  }

  lemma LaidOutInner(env: Env)
    requires BothLaidOut(env)
    ensures LaidOut(env, INNER)
  {
    hide Storable, LaidOut;
  }

  lemma TwoKeys(env: Env)
    requires Storable(env, INNER)
    ensures INNER.key != Outer(env).key && INNER.Set?
  {
    assert KEY_A[0] != INNER.key[0];
  }

  lemma ReopenShows(env: Env, s: State, n: nat, e: Entry)
    requires MemIsReplay(env, s) && s.files == map[] && e.key !in s.mem.inner && e.Set?
    requires n <= |FlushImage(env, SortedValues(s.mem.inner)).0|
    requires FilterGet(env, [CutFile(env, s, n)], e.key) == Some(e)
    ensures Get(env, s, e.key) == None && Get(env, AfterCutFlush(env, s, n, 1), e.key) == Some(e)
  {
    hide FilterGet, Contents, Scan, CutFile;
    var data := CutFile(env, s, n);
    NoContents();
    ContentsAdd(s.files, env.clock(s.tick), data);
    assert [data] + [] == [data];
    NothingFound(env, e.key);
  }

  lemma NothingFound(env: Env, k: Text)
    ensures FilterGet(env, [], k) == None
  {}

  // ----- A write cut short -----

  /** A replay on top of a memtable: the last entry of the replay decides, else what was there. */
  lemma {:induction false} ReplayOver(env: Env, st: MemState, es: seq<Entry>, k: Text)
    ensures var inner := Replay(env, st, es).inner;
            match LastFor(es, k)
            case Some(e) => k in inner && inner[k] == e
            case None => (k in inner <==> k in st.inner) && (k in inner ==> inner[k] == st.inner[k])
    decreases |es|
  {
    hide EntrySize;
    if es != [] {
      var init, last := es[..|es| - 1], es[|es| - 1];
      assert es == init + [last];
      ReplayAppend(env, st, init, last);
      ReplayOver(env, st, init, k);
    }
  }

  /** What the scan reads behind the old end of the log after `n` bytes of a frame. */
  function TornEntries(env: Env, wal: bytes, e: Entry, n: nat): seq<Entry>
    requires Storable(env, e) && n <= |Frame(env, e)|
  {
    EntriesOf(Scan(env, wal + Frame(env, e)[..n], |wal|))
  }

  lemma TornMem(env: Env, s: State, e: Entry, n: nat)
    requires MemIsReplay(env, s) && Storable(env, e) && n <= |Frame(env, e)|
    requires StillQuiet(env, s.wal, s.wal + Frame(env, e)[..n], 0)
    ensures Replay(env, EMPTY, EntriesOf(Scan(env, s.wal + Frame(env, e)[..n], 0)))
         == Replay(env, s.mem, TornEntries(env, s.wal, e, n))
  {
    hide Frame, Storable, Scan, StillQuiet, Replay;
    var grown := s.wal + Frame(env, e)[..n];
    GrowthKeepsScan(env, s.wal, grown, 0);
    EntriesOfConcat(Scan(env, s.wal, 0), Scan(env, grown, |s.wal|));
    ReplayConcat(env, EMPTY, EntriesOf(Scan(env, s.wal, 0)), TornEntries(env, s.wal, e, n));
  }

  /**
   * The exact condition for an append cut after any byte, if it brings nothing of the log to life, as in a
   * log of frames: the reopened store answers as before if and only if the last entry read out of the torn
   * frame, for each key it shows, is what was the answer anyway.
   */
  lemma CutWriteExact(env: Env, s: State, e: Entry, n: nat, tick: nat)
    requires Inv(env, s) && Storable(env, e) && n < |Frame(env, e)|
    requires StillQuiet(env, s.wal, s.wal + Frame(env, e)[..n], 0)
    ensures var ops, torn := WriteOps(env, e), TornEntries(env, s.wal, e, n);
            && CutFits(ops, Inside(0, n))
            && (SameAnswers(env, s, CrashState(env, s, ops, Inside(0, n), tick)) <==>
                  forall k | LastFor(torn, k).Some? :: AsLive(LastFor(torn, k)) == Get(env, s, k))
  {
    hide Frame, Storable, Scan, StillQuiet, Replay, FilterGet, Contents, FilesOk, MemOk, TornEntries, CrashState,
         CutFits;
    var torn := TornEntries(env, s.wal, e, n);
    var s' := Reopen(env, Durable(s.wal + Frame(env, e)[..n], s.files), tick);
    TornAppend(env, s, e, n, tick);
    TornMem(env, s, e, n);
    forall k
      ensures Get(env, s', k) == if LastFor(torn, k).Some? then AsLive(LastFor(torn, k)) else Get(env, s, k)
    {
      ReplayOver(env, s.mem, torn, k);
    }
  }

  /** The same frame, cut while it is appended: the reopened log shows the key that nobody wrote. */
  lemma TornWriteShowsStranger(env: Env)
    requires BothLaidOut(env) && Storable(env, INNER)
    ensures Storable(env, Outer(env)) && OneWord(Outer(env).key) && OneWord(Outer(env).value)
    ensures var ops, cut := WriteOps(env, Outer(env)), Inside(0, 66);
            && CutFits(ops, cut) && Get(env, Fresh(), INNER.key) == None
            && Get(env, CrashState(env, Fresh(), ops, cut, 0), INNER.key) == Some(INNER)
  {
    hide *;
    var front := OuterCut(env);
    LaidOutInner(env);
    OuterIsTyped(env);
    InnerFits(env);
    ShowsInner(env, Frame(env, Outer(env))[..66], front);
    TornAppend(env, Fresh(), Outer(env), 66, 0);
    assert [] + Frame(env, Outer(env))[..66] == Frame(env, Outer(env))[..66];
    FreshParts();
    OneReplayed(env);
    ReplayShows(env, Frame(env, Outer(env))[..66]);
  }

  lemma TornAppend(env: Env, s: State, e: Entry, n: nat, tick: nat)
    requires Storable(env, e) && n <= |Frame(env, e)|
    ensures CutFits(WriteOps(env, e), Inside(0, n))
    ensures CrashState(env, s, WriteOps(env, e), Inside(0, n), tick)
         == Reopen(env, Durable(s.wal + Frame(env, e)[..n], s.files), tick)
  {
    hide Frame, Storable, Reopen;
    var torn := AppendWal(Frame(env, e)[..n]);
    assert StepsBefore(WriteOps(env, e), Inside(0, n)) == [] + [torn];
    ApplyOpsSnoc(DurableOf(s), [], torn);
  }

  lemma FreshParts()
    ensures Fresh().wal == [] && Fresh().files == map[]
  {}

  lemma ReplayShows(env: Env, wal: bytes)
    requires Replay(env, EMPTY, EntriesOf(Scan(env, wal, 0))).inner == map[INNER.key := INNER]
    ensures Get(env, Fresh(), INNER.key) == None
    ensures Get(env, Reopen(env, Durable(wal, map[]), 0), INNER.key) == Some(INNER)
  {
    hide FilterGet, Contents, Scan, Replay;
    NoContents();
    NothingFound(env, INNER.key);
  }

  lemma ShowsInner(env: Env, data: bytes, front: bytes)
    requires Storable(env, INNER) && |front| == 31 && |Frame(env, INNER)| == 31
    requires data == front + Frame(env, INNER) + [0, 0, 0, 0] && Quiet(env, data, 0, 31)
    ensures EntriesOf(Scan(env, data, 0)) == [INNER]
  {
    hide Frame, Storable, Deserialize, INNER;
    ScanSkipsQuiet(env, data, 0, 31);
    assert data[31..] == Frame(env, INNER) + [0, 0, 0, 0];
    NextHitAtFrame(env, data, 31, INNER);
    forall p: nat | 62 <= p < 66 ensures Deserialize(env, data[p..]).Err? {
      NoMagicNoEntry(env, data[p..]);
    }
    ScanSkipsQuiet(env, data, 62, 66);
    NothingAtTheEnd(env, data);
    assert Scan(env, data, 31) == [Hit(31, INNER, 62)] + Scan(env, data, 62);
  }

  lemma OneReplayed(env: Env)
    ensures Replay(env, EMPTY, [INNER]).inner == map[INNER.key := INNER]
  {
    assert [INNER][1..] == [];
  }
}
