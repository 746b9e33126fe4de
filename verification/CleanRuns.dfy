/** Runs in which the conditions hold by themselves: no torn frame in the log, or few keys in the files. */
module CleanRuns {
  import opened Bytes
  import opened Keys
  import opened Entries
  import opened Header
  import opened Reader
  import opened Recovery
  import Bloom
  import opened Disk
  import opened MemTables
  import opened Tables
  import opened Lookup
  import opened Merge
  import opened Plans
  import opened Compaction
  import opened Store
  import opened Refinement
  import opened Crash
  import opened Runs

  // ----- The log asks nothing until a crash tears an append -----

  /** On a log of frames nothing comes to life under a write, and replay gains exactly its entry. */
  lemma CleanLogNeedsNoGuard(env: Env, es: seq<Entry>, e: Entry)
    requires AllStorable(env, es) && Storable(env, e)
    ensures StillQuiet(env, Frames(env, es), Frames(env, es) + Frame(env, e), 0)
    ensures EntriesOf(Scan(env, Frames(env, es), 0)) == es
    ensures EntriesOf(Scan(env, Frames(env, es) + Frame(env, e), 0)) == es + [e]
  {
    hide Frame, Frames, Storable, StillQuiet, Quiet, Deserialize;
    var wal := Frames(env, es);
    var grown := wal + Frame(env, e);
    assert wal[0..] == wal;
    CleanStaysQuiet(env, es, wal, grown, 0);
    AppendedFrameIsRead(env, wal, e);
    LogReadsBack(env, es);
  }

  lemma LogReadsBack(env: Env, es: seq<Entry>)
    requires AllStorable(env, es)
    ensures EntriesOf(Scan(env, Frames(env, es), 0)) == es
  {
    hide Frame, Frames, Storable, Quiet, Deserialize;
    NothingQuiet(env, Frames(env, es));
    ScanFramesQuietTail(env, Frames(env, es), es);
    HitsOfEntries(env, es, 0);
  }

  lemma NothingQuiet(env: Env, data: bytes)
    ensures Quiet(env, data, |data|, |data|)
  {}

  /** A crash after some of the bytes of a frame, but not all. */
  predicate Torn(env: Env, ev: Event) {
    match ev
    case CrashDuring(WriteEntry(e), Inside(_, n), _) => Storable(env, e) && n < |Frame(env, e)|
    case _ => false
  }

  lemma {:induction false} StepsWithoutAppend(d: Durable, ops: seq<DiskOp>)
    requires forall op | op in ops :: !op.AppendWal?
    ensures ApplyOps(d, ops).wal == d.wal || ApplyOps(d, ops).wal == []
    decreases |ops|
  {
    if ops != [] {
      StepsWithoutAppend(d, ops[..|ops| - 1]);
    }
  }

  lemma CompactAppendsNothing(env: Env, files: map<nat, bytes>, tick: nat)
    ensures forall op | op in CompactOps(env, files, tick) :: !op.AppendWal?
  {
    CompactStepsKind(env, files, tick);
  }

  lemma FlushAppendsNothing(env: Env, s: State)
    ensures forall op | op in FlushOps(env, s) :: !op.AppendWal?
  {
    hide FlushImage, SortedValues, CompactOps;
    var s1 := FlushFile(env, s).0;
    CompactAppendsNothing(env, s1.files, s1.tick);
  }

  lemma OpsAppendNothing(env: Env, s: State, op: Op)
    requires !op.WriteEntry?
    ensures forall step | step in Ops(env, s, op) :: !step.AppendWal?
  {
    hide FlushOps, CompactOps;
    match op {
      case FlushNow => FlushAppendsNothing(env, s);
      case FlushIfLarge => FlushAppendsNothing(env, s);
      case CompactNow => CompactAppendsNothing(env, s.files, s.tick);
    }
  }

  lemma CutAppendsNothing(ops: seq<DiskOp>, cut: Cut)
    requires CutFits(ops, cut) && forall op | op in ops :: !op.AppendWal?
    ensures forall op | op in StepsBefore(ops, cut) :: !op.AppendWal?
  {}

  /** Unless a frame is torn, the log stays, grows by the frame written, or is emptied. */
  lemma LogAfter(env: Env, s: State, ev: Event)
    requires Possible(env, s, ev) && !Torn(env, ev)
    ensures var wal := Next(env, s, ev).wal;
            || wal == s.wal || wal == []
            || (!ev.CloseAndReopen? && ev.op.WriteEntry? && Storable(env, ev.op.entry)
                && wal == s.wal + Frame(env, ev.op.entry))
  {
    hide Storable, Frame, Ops, ApplyOps, StepsBefore, Replay, Scan, CutFits, After;
    match ev {
      case CloseAndReopen(_) =>
      case Do(op) =>
        OpsExplainDisk(env, s, op);
        if op.WriteEntry? {
          WriteLeaves(env, s, op.entry);
        } else {
          OpsAppendNothing(env, s, op);
          StepsWithoutAppend(DurableOf(s), Ops(env, s, op));
        }
      case CrashDuring(op, cut, _) =>
        if op.WriteEntry? {
          WriteCutLeaves(env, s, op.entry, cut);
        } else {
          OpsAppendNothing(env, s, op);
          CutAppendsNothing(Ops(env, s, op), cut);
          StepsWithoutAppend(DurableOf(s), StepsBefore(Ops(env, s, op), cut));
        }
    }
  }

  lemma WriteLeaves(env: Env, s: State, e: Entry)
    ensures var wal := After(env, s, WriteEntry(e)).wal;
            wal == if Storable(env, e) then s.wal + Frame(env, e) else s.wal
  {
    hide Storable, Frame;
  }

  lemma WriteCutLeaves(env: Env, s: State, e: Entry, cut: Cut)
    requires CutFits(Ops(env, s, WriteEntry(e)), cut)
    requires cut.Inside? && Storable(env, e) ==> cut.count >= |Frame(env, e)|
    ensures var wal := ApplyOps(DurableOf(s), StepsBefore(Ops(env, s, WriteEntry(e)), cut)).wal;
            wal == s.wal || (Storable(env, e) && wal == s.wal + Frame(env, e))
  {
    hide Storable, Frame, ApplyOps;
    var steps := StepsBefore(Ops(env, s, WriteEntry(e)), cut);
    OneAppend(DurableOf(s), if Storable(env, e) then Frame(env, e) else []);
    if Storable(env, e) && cut != Between(0) {
      var f := Frame(env, e);
      assert f[..|f|] == f;
      assert steps == [AppendWal(f)];
    } else {
      assert steps == [];
    }
  }

  /** Every event but a torn append keeps a log of frames a log of frames. */
  lemma FramesKept(env: Env, s: State, ev: Event)
    requires HoldsFrames(env, s.wal) && Possible(env, s, ev) && !Torn(env, ev)
    ensures HoldsFrames(env, Next(env, s, ev).wal)
  {
    hide HoldsFrames, Possible, Torn, Next, Frame, Storable;
    LogAfter(env, s, ev);
    NoFrames(env);
    var wal := Next(env, s, ev).wal;
    if wal != s.wal && wal != [] {
      FramesGrow(env, s.wal, ev.op.entry);
    }
  }

  /** On a log of frames only an append torn by the event itself asks anything of the log. */
  lemma FramesNeedNoWriteGuard(env: Env, s: State, ev: Event)
    requires HoldsFrames(env, s.wal) && Possible(env, s, ev) && !Torn(env, ev)
    ensures WriteGuard(env, s, ev)
  {
    hide HoldsFrames, Frame, Storable, StillQuiet, After, FlushOps, CompactOps;
  }

  lemma FramesNeedNoLogGuard(env: Env, s: State, ev: Event)
    requires MemIsReplay(env, s) && HoldsFrames(env, s.wal) && Possible(env, s, ev) && !Torn(env, ev)
    ensures LogGuard(env, s, ev) && MemIsReplay(env, Next(env, s, ev))
  {
    hide MemIsReplay, HoldsFrames, Possible, LogGuard, WriteGuard, Torn, Next;
    FramesNeedNoWriteGuard(env, s, ev);
    WriteGuardSuffices(env, s, ev);
  }

  /** A run without torn appends, in which every event asks of the SSTables what it must. */
  ghost predicate FileRun(env: Env, s: State, events: seq<Event>)
    decreases |events|
  {
    events != [] ==>
      && Possible(env, s, events[0]) && !Torn(env, events[0]) && FileGuard(env, s, events[0])
      && FileRun(env, Next(env, s, events[0]), events[1..])
  }

  /**
   * From a log of frames, as every new store has, a run without torn appends is covered by the conditions
   * on the SSTables alone: the log needs none, and holds only frames at the end as well.
   */
  lemma {:induction false} UntornRunRefines(env: Env, s: State, events: seq<Event>, m: map<Text, Text>)
    requires Inv(env, s) && Refines(env, s, m) && HoldsFrames(env, s.wal) && FileRun(env, s, events)
    ensures Run(env, s, events)
    ensures var s' := Final(env, s, events);
            Inv(env, s') && HoldsFrames(env, s'.wal) && Refines(env, s', AbstractFinal(env, m, events))
    decreases |events|
  {
    hide LiveInv, MemIsReplay, Refines, HoldsFrames, Possible, LogGuard, FileGuard, Torn, Next, AbstractNext;
    if events != [] {
      FramesNeedNoLogGuard(env, s, events[0]);
      FramesKept(env, s, events[0]);
      EventRefines(env, s, events[0], m);
      UntornRunRefines(env, Next(env, s, events[0]), events[1..], AbstractNext(env, m, events[0]));
    }
  }

  // ----- Few keys: the files ask nothing either -----

  /** A file of four keys or fewer has a footer too short to hide a frame, whatever the hash is. */
  lemma SmallImage(env: Env, es: seq<Entry>)
    requires AllStorable(env, es) && es != [] && |es| <= 4
    ensures HarmlessCut(env, es, FlushImage(env, es).0)
  {
    hide Storable, Frames, Bloom.Footer, FlushImage, Quiet, HarmlessCut;
    FitsImage(env, es);
    ShortFooterIsQuiet(env, es, BITS_PER_KEY * |es|);
    CompleteIsHarmless(env, es, BITS_PER_KEY * |es|);
  }

  lemma SmallFileNeedsNoGuard(env: Env, s: State)
    requires MemOk(env, s.mem.inner) && |s.mem.inner| <= 4
    ensures CleanFlush(env, s)
  {
    hide FlushImage, SortedValues, HarmlessCut, AllStorable;
    if s.mem.inner != map[] {
      ValuesAreSorted(env, s.mem.inner);
      SmallImage(env, SortedValues(s.mem.inner));
    }
  }

  lemma {:induction false} PartLength(chunks: seq<seq<Entry>>)
    ensures forall c | c in chunks :: |c| <= |Flatten(chunks)|
    decreases |chunks|
  {
    if chunks != [] {
      assert chunks == [chunks[0]] + chunks[1..];
      PartLength(chunks[1..]);
    }
  }

  lemma SortedCount(env: Env, es: seq<Entry>, ks: set<Text>)
    requires SortedEntries(es) && forall e | e in es :: e.key in ks
    ensures |es| <= |ks|
  {
    hide Replay, SortedValues, Less;
    ReplaySorted(env, es);
    var inner := Replay(env, EMPTY, es).inner;
    assert inner.Keys <= ks;
    Subset(inner.Keys, ks);
  }

  lemma {:induction false} Subset(a: set<Text>, b: set<Text>)
    requires a <= b
    ensures |a| <= |b|
    decreases a
  {
    if a != {} {
      var x :| x in a;
      Subset(a - {x}, b - {x});
    }
  }

  /** What a compaction keeps is live in the map, or under a key the memtable decides. */
  lemma LiveIsKnown(env: Env, s: State, m: map<Text, Text>)
    requires LiveInv(env, s) && Refines(env, s, m)
    ensures forall e | e in LiveIn(env, s.files) :: e.key in m || e.key in s.mem.inner
  {
    hide LiveEntries, Winner, TablesOf, Contents, FilterGet, PlainGet, TablesOk, MemIsReplay, MemOk, ClockAhead;
    var datas := Contents(s.files);
    LiveEntriesShape(TablesOf(env, datas));
    forall e | e in LiveIn(env, s.files) && e.key !in s.mem.inner ensures e.key in m {
      PlainGetIsWinner(env, datas, e.key);
      assert Get(env, s, e.key) == Some(e);
    }
  }

  /** Every key of the map and of the memtable is one of four. */
  ghost predicate FewKeys(s: State, m: map<Text, Text>, ks: set<Text>) {
    |ks| <= 4 && m.Keys <= ks && s.mem.inner.Keys <= ks
  }

  lemma FewKeysOutputs(env: Env, s: State, m: map<Text, Text>, ks: set<Text>, c: nat)
    requires LiveInv(env, s) && Refines(env, s, m) && FewKeys(s, m, ks)
    ensures var chunks := OutputChunks(env, s.files);
            CleanOutputs(env, chunks, if c < |chunks| then Images(env, chunks)[..c] else Images(env, chunks))
  {
    hide LiveInv, Refines, OutputChunks, FlushImage, HarmlessCut, LiveIn, AllStorable, SortedEntries, FilesSorted;
    var chunks := OutputChunks(env, s.files);
    var live := LiveIn(env, s.files);
    InvMerges(env, s);
    OutputsFit(env, s.files);
    LiveIsKnown(env, s, m);
    LiveIsSorted(env, s.files);
    SortedCount(env, live, ks);
    PartLength(chunks);
    forall i | 0 <= i < |chunks|
      ensures AllStorable(env, chunks[i]) && HarmlessCut(env, chunks[i], FlushImage(env, chunks[i]).0)
    {
      assert chunks[i] in chunks;
      SmallImage(env, chunks[i]);
    }
  }

  lemma LiveIsSorted(env: Env, files: map<nat, bytes>)
    ensures SortedEntries(LiveIn(env, files))
  {
    hide LiveEntries, TablesOf, Contents, SortedEntries;
    LiveEntriesShape(TablesOf(env, Contents(files)));
  }

  lemma FewKeysCompact(env: Env, s: State, m: map<Text, Text>, ks: set<Text>)
    requires LiveInv(env, s) && Refines(env, s, m) && FewKeys(s, m, ks)
    ensures CleanCompact(env, s)
  {
    hide LiveInv, Refines, OutputChunks, CleanOutputs, FewKeys;
    FewKeysOutputs(env, s, m, ks, |OutputChunks(env, s.files)|);
  }

  lemma FewKeysFlush(env: Env, s: State, m: map<Text, Text>, ks: set<Text>)
    requires LiveInv(env, s) && Refines(env, s, m) && FewKeys(s, m, ks)
    ensures CleanFullFlush(env, s)
    ensures FlushFile(env, s).1 ==>
              var s1 := FlushFile(env, s).0; LiveInv(env, s1) && Refines(env, s1, m) && FewKeys(s1, m, ks)
  {
    hide LiveInv, Refines, CleanCompact, FlushImage, SortedValues, CleanFlush, SameAnswers;
    InvMemOk(env, s);
    Subset(s.mem.inner.Keys, ks);
    SmallFileNeedsNoGuard(env, s);
    FlushFileRefines(env, s);
    var (s1, ok) := FlushFile(env, s);
    SameAnswersRefine(env, s, s1, m);
    if ok {
      FewKeysCompact(env, s1, m, ks);
    }
  }

  /** No frame and no file is torn, no compaction is cut among its deletions, and writes go to known keys. */
  ghost predicate Plain(env: Env, s: State, ev: Event, ks: set<Text>) {
    && Possible(env, s, ev)
    && (!ev.CloseAndReopen? && ev.op.WriteEntry? ==> ev.op.entry.key in ks)
    && (ev.CrashDuring? ==>
          ev.cut.Between? && forall step | step in StepsBefore(Ops(env, s, ev.op), ev.cut) :: !step.Remove?)
  }

  lemma NothingDeleted(env: Env, s: State, cut: Cut)
    requires LiveInv(env, s) && CutFits(CompactOps(env, s.files, s.tick), cut) && cut.Between?
    requires forall step | step in StepsBefore(CompactOps(env, s.files, s.tick), cut) :: !step.Remove?
    ensures CutDeleted(|OutputChunks(env, s.files)|, cut) == 0
  {
    hide LiveInv, OutputChunks, MergeDone, FlushImage, Listing;
    InvMerges(env, s);
    CompactOpsOf(env, s.files, s.tick);
    var ops, n := CompactOps(env, s.files, s.tick), |OutputChunks(env, s.files)|;
    if n < cut.step {
      RemoveAmong(ops, n, cut.step);
      assert false;
    }
  }

  lemma RemoveAmong(ops: seq<DiskOp>, n: nat, c: nat)
    requires n < c <= |ops| && ops[n].Remove?
    ensures exists step :: step in ops[..c] && step.Remove?
  {
    assert ops[..c][n] in ops[..c];
  }

  lemma FewKeysCompactCut(env: Env, s: State, m: map<Text, Text>, ks: set<Text>, cut: Cut)
    requires LiveInv(env, s) && Refines(env, s, m) && FewKeys(s, m, ks)
    requires CutFits(CompactOps(env, s.files, s.tick), cut) && cut.Between?
    requires forall step | step in StepsBefore(CompactOps(env, s.files, s.tick), cut) :: !step.Remove?
    ensures CleanCompactCut(env, s, cut)
  {
    hide LiveInv, Refines, OutputChunks, CleanOutputs, FewKeys, CompactOps, Images;
    NothingDeleted(env, s, cut);
    FewKeysOutputs(env, s, m, ks, cut.step);
  }

  lemma FewKeysFlushCut(env: Env, s: State, m: map<Text, Text>, ks: set<Text>, cut: Cut)
    requires LiveInv(env, s) && Refines(env, s, m) && FewKeys(s, m, ks)
    requires CutFits(FlushOps(env, s), cut) && cut.Between?
    requires forall step | step in StepsBefore(FlushOps(env, s), cut) :: !step.Remove?
    ensures CleanFlushCut(env, s, cut)
  {
    hide LiveInv, Refines, CleanFlush, FewKeys, CompactOps, FlushFile, CleanCompactCut, FileOps, FewKeys;
    FewKeysFlush(env, s, m, ks);
    CleanFullMeans(env, s);
    var n := |FileOps(env, s)|;
    var (s1, ok) := FlushFile(env, s);
    if n < cut.step {
      var front := FileOps(env, s) + [TruncateWal];
      var rest := if CompactionDue(s1) then CompactOps(env, s1.files, s1.tick) else [];
      FlushOpsParts(env, s);
      assert ok;
      CutBehind(front, rest, cut);
      var late := Shifted(cut, n + 1);
      forall step | step in StepsBefore(rest, late) ensures !step.Remove? {
        assert step in front + StepsBefore(rest, late);
      }
      if CompactionDue(s1) {
        FewKeysCompactCut(env, s1, m, ks, late);
      } else {
        NothingCut(env, s1, m, ks, late);
      }
    }
  }

  lemma NothingCut(env: Env, s: State, m: map<Text, Text>, ks: set<Text>, cut: Cut)
    requires LiveInv(env, s) && Refines(env, s, m) && FewKeys(s, m, ks) && cut == Between(0)
    ensures CleanCompactCut(env, s, cut)
  {
    hide LiveInv, Refines, OutputChunks, CleanOutputs, FewKeys, Images;
    FewKeysOutputs(env, s, m, ks, 0);
  }

  lemma CleanFullMeans(env: Env, s: State)
    requires CleanFullFlush(env, s)
    ensures CleanFlush(env, s)
  {}

  lemma FlushOpsParts(env: Env, s: State)
    ensures var (s1, ok) := FlushFile(env, s);
            FlushOps(env, s) ==
              if !ok then FileOps(env, s)
              else FileOps(env, s) + [TruncateWal]
                   + (if CompactionDue(s1) then CompactOps(env, s1.files, s1.tick) else [])
    ensures |FileOps(env, s)| <= 1
  {
    hide FlushFile, CompactOps, FlushImage, SortedValues;
  }

  /** A plain event on few keys asks nothing. */
  lemma FewKeysNeedNoGuard(env: Env, s: State, m: map<Text, Text>, ks: set<Text>, ev: Event)
    requires Inv(env, s) && Refines(env, s, m) && FewKeys(s, m, ks) && HoldsFrames(env, s.wal) && Plain(env, s, ev, ks)
    ensures Guard(env, s, ev) && !Torn(env, ev)
  {
    hide LiveInv, MemIsReplay, Refines, FewKeys, HoldsFrames, CleanFullFlush, CleanFlushCut, CleanCompact,
         CleanCompactCut, Frame, Storable, StepsBefore, CutFits, After, FlushOps, CompactOps, CleanWrite, LogGuard;
    FramesNeedNoLogGuard(env, s, ev);
    match ev {
      case Do(WriteEntry(_)) =>
      case Do(FlushNow) => FewKeysFlush(env, s, m, ks);
      case Do(FlushIfLarge) => FewKeysFlush(env, s, m, ks);
      case Do(CompactNow) => FewKeysCompact(env, s, m, ks);
      case CloseAndReopen(_) =>
      case CrashDuring(WriteEntry(_), _, _) =>
      case CrashDuring(FlushNow, cut, _) => FewKeysFlushCut(env, s, m, ks, cut);
      case CrashDuring(FlushIfLarge, cut, _) =>
        if ShouldFlush(s.mem) {
          FewKeysFlushCut(env, s, m, ks, cut);
        }
      case CrashDuring(CompactNow, cut, _) => FewKeysCompactCut(env, s, m, ks, cut);
    }
  }

  lemma MemAfterWrite(env: Env, s: State, s': State, e: Entry)
    requires Inv(env, s) && Inv(env, s') && HoldsFrames(env, s.wal)
    requires Storable(env, e) && s'.wal == s.wal + Frame(env, e)
    ensures s'.mem.inner.Keys == s.mem.inner.Keys + {e.key}
  {
    hide Storable, Frame, FilesOk, MemOk, ClockAhead, Scan, Frames, EntrySize;
    var es :| AllStorable(env, es) && s.wal == Frames(env, es);
    CleanLogNeedsNoGuard(env, es, e);
    ReplayAppend(env, EMPTY, es, e);
  }

  lemma MemOfLog(env: Env, s: State, s': State)
    requires Inv(env, s) && Inv(env, s')
    ensures s'.wal == s.wal ==> s'.mem == s.mem
    ensures s'.wal == [] ==> s'.mem == EMPTY
  {
    hide Scan, FilesOk, MemOk, ClockAhead, Replay;
    EmptyScan(env);
  }

  lemma FewKeysKept(env: Env, s: State, m: map<Text, Text>, ks: set<Text>, ev: Event)
    requires Inv(env, s) && FewKeys(s, m, ks) && HoldsFrames(env, s.wal) && Plain(env, s, ev, ks) && !Torn(env, ev)
    requires Inv(env, Next(env, s, ev))
    ensures FewKeys(Next(env, s, ev), AbstractNext(env, m, ev), ks)
  {
    hide LiveInv, MemIsReplay, HoldsFrames, Next, Possible, Torn, Storable, Frame, StepsBefore;
    LogAfter(env, s, ev);
    var s' := Next(env, s, ev);
    MemOfLog(env, s, s');
    if s'.wal != s.wal && s'.wal != [] {
      MemAfterWrite(env, s, s', ev.op.entry);
    }
  }

  /** A plain event on few keys is covered, and leaves all as it was to be. */
  lemma PlainStep(env: Env, s: State, m: map<Text, Text>, ks: set<Text>, ev: Event)
    requires Inv(env, s) && Refines(env, s, m) && HoldsFrames(env, s.wal) && FewKeys(s, m, ks) && Plain(env, s, ev, ks)
    ensures Guard(env, s, ev)
    ensures var s', m' := Next(env, s, ev), AbstractNext(env, m, ev);
            Inv(env, s') && Refines(env, s', m') && HoldsFrames(env, s'.wal) && FewKeys(s', m', ks)
  {
    hide LiveInv, MemIsReplay, Refines, HoldsFrames, FewKeys, Possible, LogGuard, FileGuard, Torn, Next, AbstractNext;
    FewKeysNeedNoGuard(env, s, m, ks, ev);
    FramesKept(env, s, ev);
    EventRefines(env, s, ev, m);
    FramesNeedNoLogGuard(env, s, ev);
    FewKeysKept(env, s, m, ks, ev);
  }

  /** A run of plain events. */
  ghost predicate PlainRun(env: Env, s: State, events: seq<Event>, ks: set<Text>)
    decreases |events|
  {
    events != [] ==> Plain(env, s, events[0], ks) && PlainRun(env, Next(env, s, events[0]), events[1..], ks)
  }

  /**
   * Over four keys or fewer no condition on codec or hash is left: through every run of writes, flushes,
   * compactions, reopens and crashes between durable steps, short of the deletions, the store answers as
   * the plain map.
   */
  lemma {:induction false} FewKeysRunRefines(env: Env, s: State, events: seq<Event>, m: map<Text, Text>, ks: set<Text>)
    requires Inv(env, s) && Refines(env, s, m) && HoldsFrames(env, s.wal) && FewKeys(s, m, ks)
    requires PlainRun(env, s, events, ks)
    ensures Run(env, s, events)
    ensures var s' := Final(env, s, events);
            Inv(env, s') && HoldsFrames(env, s'.wal) && Refines(env, s', AbstractFinal(env, m, events))
    decreases |events|
  {
    hide LiveInv, MemIsReplay, Refines, HoldsFrames, FewKeys, Possible, LogGuard, FileGuard, Torn, Next, AbstractNext;
    if events != [] {
      var ev := events[0];
      PlainStep(env, s, m, ks, ev);
      FewKeysRunRefines(env, Next(env, s, ev), events[1..], AbstractNext(env, m, ev), ks);
    }
  }

  // ----- The directory in which a deletion is lost -----

  /** A flush of a store that holds one entry, and is not due for a compaction. */
  lemma OneEntryFlushed(env: Env, s: State, e: Entry)
    requires Storable(env, e) && s.mem.inner == map[e.key := e] && s.flushCount < 8
    ensures Flush(env, s).0 == State([], EMPTY, s.files[env.clock(s.tick) := FlushImage(env, [e]).0], s.tick + 1,
                                     s.flushCount + 1)
  {
    hide Storable, FlushImage, SortedValues, Compacted, MergeDone;
    OneValue(s.mem.inner, e);
    OneEntryFits(env, e);
  }

  lemma OneValue(inner: map<Text, Entry>, e: Entry)
    requires inner == map[e.key := e]
    ensures SortedValues(inner) == [e]
  {
    assert |inner| == |SortedValues(inner)|;
    assert |inner| == 1;
    ValueAt(inner, 0);
  }

  lemma OneEntryFits(env: Env, e: Entry)
    requires Storable(env, e)
    ensures FlushImage(env, [e]).1
  {
    hide Storable, FlushImage, Frames;
    ImageShapeOne(env, e);
  }

  /** `Witness` is what setting a key, flushing, deleting it and flushing again make of a new store. */
  lemma WitnessReached(env: Env, k: Text, v: Text)
    requires Storable(env, Set(k, v)) && Storable(env, Delete(k))
    ensures var s1 := Flush(env, Write(env, Fresh(), Set(k, v)).0).0;
            Flush(env, Write(env, s1, Delete(k)).0).0 == Witness(env, k, v)
  {
    hide Storable, FlushImage, Flush, Frame, EntrySize;
    var s0 := Write(env, Fresh(), Set(k, v)).0;
    OneEntryFlushed(env, s0, Set(k, v));
    var s1 := Flush(env, s0).0;
    OneEntryFlushed(env, Write(env, s1, Delete(k)).0, Delete(k));
  }

  // ----- One such run -----

  lemma FreshHasFrames(env: Env)
    ensures HoldsFrames(env, Fresh().wal)
  {
    NoFrames(env);
  }

  lemma SomethingToKeep(env: Env, s: State, m: map<Text, Text>, k: Text)
    requires LiveInv(env, s) && Refines(env, s, m) && k in m && k !in s.mem.inner
    ensures OutputChunks(env, s.files) != []
  {
    hide LiveInv, OutputChunks, Get, Contents, TablesOf, Winner, PlainGet, Fits, SortedEntries, FilterGet;
    InvMerges(env, s);
    MergeOutputShape(env, s.files);
    Agreement(env, s, k);
    PlainGetIsWinner(env, Contents(s.files), k);
    if OutputChunks(env, s.files) == [] {
      NothingFlat(k);
    }
  }

  lemma NothingFlat(k: Text)
    ensures Find(Flatten([]), k) == None
  {}

  lemma Agreement(env: Env, s: State, k: Text)
    requires LiveInv(env, s) && k !in s.mem.inner
    ensures Get(env, s, k) == AsLive(PlainGet(env, Contents(s.files), k))
  {
    hide FilterGet, PlainGet, Contents, TablesOk, MemIsReplay, MemOk, ClockAhead;
  }

  lemma FirstFlush(env: Env, s: State)
    requires LiveInv(env, s) && s.mem.inner != map[] && |s.mem.inner| <= 4 && s.flushCount == 0
    ensures Flush(env, s).0.mem == EMPTY
  {
    hide LiveInv, Storable, FlushImage, SortedValues, CompactOps, OutputChunks, MergeDone, FilesAfter;
    InvMemOk(env, s);
    ValuesAreSorted(env, s.mem.inner);
    FitsImage(env, SortedValues(s.mem.inner));
    assert FlushFile(env, s).0.flushCount == 1;
  }

  lemma FirstWrite(env: Env, e: Entry)
    requires Storable(env, e)
    ensures var s1 := Write(env, Fresh(), e).0;
            s1.mem.inner == map[e.key := e] && s1.flushCount == 0 && s1.tick == 0 && s1.files == map[]
  {
    hide Storable, Frame, EntrySize;
  }

  lemma CompactKeepsMem(env: Env, s: State)
    ensures Compacted(env, s).mem == s.mem
  {
    hide OutputChunks, CompactOps, FilesAfter;
  }

  /** A compaction with something to write may be cut behind its first output. */
  lemma CutBehindOutput(env: Env, s: State, ks: set<Text>, tick: nat)
    requires LiveInv(env, s) && OutputChunks(env, s.files) != [] && s.tick <= tick && Compacted(env, s).tick <= tick
    ensures Plain(env, s, CrashDuring(CompactNow, Between(1), tick), ks)
    ensures Possible(env, s, CrashDuring(CompactNow, Between(1), tick))
  {
    hide LiveInv, OutputChunks, MergeDone, FlushImage, Listing, FilesAfter;
    InvMerges(env, s);
    CompactOpsOf(env, s.files, s.tick);
    assert CompactOps(env, s.files, s.tick)[..1] == [CompactOps(env, s.files, s.tick)[0]];
  }

  /**
   * A run that is covered whatever codec and hash are: write a key, flush, compact, compact again but
   * crash behind the first output, reopen. The key still has its value.
   */
  lemma SomeRun(env: Env, k: Text, v: Text) returns (tick: nat)
    requires Storable(env, Set(k, v))
    ensures var events := [Do(WriteEntry(Set(k, v))), Do(FlushNow), Do(CompactNow),
                           CrashDuring(CompactNow, Between(1), tick)];
            Run(env, Fresh(), events) && Get(env, Final(env, Fresh(), events), k) == Some(Set(k, v))
  {
    hide *;
    var e := Set(k, v);
    var m: map<Text, Text> := map[k := v];
    var s1 := Write(env, Fresh(), e).0;
    var s2 := Flush(env, s1).0;
    var s3 := Compacted(env, s2);
    tick := s3.tick + Compacted(env, s3).tick;
    RunsFromFresh(env, e, v);
    InvIsLive(env, s1);
    InvIsLive(env, s3);
    FirstFlush(env, s1);
    CompactKeepsMem(env, s2);
    NothingInside(k);
    SomethingToKeep(env, s3, m, k);
    CutBehindOutput(env, s3, {k}, tick);
    var crash := CrashDuring(CompactNow, Between(1), tick);
    PlainStep(env, s3, m, {k}, crash);
    RunOfFour(env, Fresh(), Do(WriteEntry(e)), Do(FlushNow), Do(CompactNow), crash);
    Found(env, Next(env, s3, crash), m, crash, k);
  }

  lemma NothingInside(k: Text)
    ensures k !in EMPTY.inner
  {}

  /** Write, flush, compact: each is a plain step. */
  lemma RunsFromFresh(env: Env, e: Entry, v: Text)
    requires Storable(env, e) && e == Set(e.key, v)
    ensures var m, ks := map[e.key := v], {e.key};
            var s1 := Write(env, Fresh(), e).0;
            var s2 := Flush(env, s1).0;
            var s3 := Compacted(env, s2);
            && Guard(env, Fresh(), Do(WriteEntry(e))) && s1 == Next(env, Fresh(), Do(WriteEntry(e)))
            && Guard(env, s1, Do(FlushNow)) && s2 == Next(env, s1, Do(FlushNow))
            && Guard(env, s2, Do(CompactNow)) && s3 == Next(env, s2, Do(CompactNow))
            && Inv(env, s1) && s1.mem.inner == map[e.key := e] && |s1.mem.inner| <= 4 && s1.flushCount == 0
            && Inv(env, s3) && Refines(env, s3, m) && HoldsFrames(env, s3.wal) && FewKeys(s3, m, ks)
  {
    hide LiveInv, MemIsReplay, Refines, HoldsFrames, Storable, Frame, Flush, Compacted, Guard, Process;
    var m, ks := map[e.key := v], {e.key};
    var s1 := Write(env, Fresh(), e).0;
    var s2 := Flush(env, s1).0;
    FreshIsEmpty(env);
    FreshHasFrames(env);
    FirstWrite(env, e);
    PlainStep(env, Fresh(), map[], ks, Do(WriteEntry(e)));
    PlainStep(env, s1, m, ks, Do(FlushNow));
    PlainStep(env, s2, m, ks, Do(CompactNow));
  }

  lemma RunOfFour(env: Env, s: State, a: Event, b: Event, c: Event, d: Event)
    requires Guard(env, s, a)
    requires var s1 := Next(env, s, a); Guard(env, s1, b)
    requires var s2 := Next(env, Next(env, s, a), b); Guard(env, s2, c)
    requires var s3 := Next(env, Next(env, Next(env, s, a), b), c); Guard(env, s3, d)
    ensures Run(env, s, [a, b, c, d])
    ensures Final(env, s, [a, b, c, d]) == Next(env, Next(env, Next(env, Next(env, s, a), b), c), d)
  {
    hide Possible, LogGuard, FileGuard, Next, Run, Final;
    var s1 := Next(env, s, a);
    var s2 := Next(env, s1, b);
    var s3 := Next(env, s2, c);
    RunNothing(env, Next(env, s3, d));
    RunCons(env, s3, d, []);
    assert [d] + [] == [d];
    RunCons(env, s2, c, [d]);
    assert [c] + [d] == [c, d];
    RunCons(env, s1, b, [c, d]);
    assert [b] + [c, d] == [b, c, d];
    RunCons(env, s, a, [b, c, d]);
    assert [a] + [b, c, d] == [a, b, c, d];
  }

  lemma RunNothing(env: Env, s: State)
    ensures Run(env, s, []) && Final(env, s, []) == s
  {}

  lemma RunCons(env: Env, s: State, ev: Event, rest: seq<Event>)
    requires Guard(env, s, ev) && Run(env, Next(env, s, ev), rest)
    ensures Run(env, s, [ev] + rest) && Final(env, s, [ev] + rest) == Final(env, Next(env, s, ev), rest)
  {
    hide Possible, LogGuard, FileGuard, Next;
    assert ([ev] + rest)[1..] == rest;
  }

  lemma Found(env: Env, s: State, m: map<Text, Text>, ev: Event, k: Text)
    requires Refines(env, s, AbstractNext(env, m, ev)) && k in m && ev.CrashDuring? && ev.op.CompactNow?
    ensures Get(env, s, k) == Some(Set(k, m[k]))
  {
    hide Get;
  }
}
