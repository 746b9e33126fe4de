/** The store over whole runs, with crashes at any durable step, against one plain map, and what that asks. */
module Runs {
  import opened Bytes
  import opened Entries
  import opened Header
  import opened Reader
  import opened Recovery
  import Bloom
  import opened Disk
  import opened MemTables
  import opened Tables
  import opened Lookup
  import opened Merge
  import opened Plans
  import opened Compaction
  import opened Store
  import opened Refinement
  import opened Crash

  datatype Op = WriteEntry(entry: Entry) | FlushNow | FlushIfLarge | CompactNow

  /** Where a crash falls among the durable steps: between two of them, or inside one that writes bytes. */
  datatype Cut = Between(step: nat) | Inside(step: nat, count: nat)

  /** `tick` is the clock at the reopen that follows a close or a crash. */
  datatype Event = Do(op: Op) | CloseAndReopen(tick: nat) | CrashDuring(op: Op, cut: Cut, tick: nat)

  ghost function Ops(env: Env, s: State, op: Op): seq<DiskOp> {
    match op
    case WriteEntry(e) => WriteOps(env, e)
    case FlushNow => FlushOps(env, s)
    case FlushIfLarge => if ShouldFlush(s.mem) then FlushOps(env, s) else []
    case CompactNow => CompactOps(env, s.files, s.tick)
  }

  ghost function After(env: Env, s: State, op: Op): State {
    match op
    case WriteEntry(e) => Write(env, s, e).0
    case FlushNow => Flush(env, s).0
    case FlushIfLarge => MaybeFlush(env, s).0
    case CompactNow => Compacted(env, s)
  }

  predicate CutFits(ops: seq<DiskOp>, cut: Cut) {
    match cut
    case Between(c) => c <= |ops|
    case Inside(c, n) =>
      c < |ops| && match ops[c]
                   case Put(_, data) => n <= |data|
                   case AppendWal(frame) => n <= |frame|
                   case _ => false
  }

  /** The durable steps taken before the crash, the last one possibly cut short. */
  function StepsBefore(ops: seq<DiskOp>, cut: Cut): seq<DiskOp>
    requires CutFits(ops, cut)
  {
    match cut
    case Between(c) => ops[..c]
    case Inside(c, n) => ops[..c] + [TornOp(ops[c], n)]
  }

  ghost function CrashState(env: Env, s: State, ops: seq<DiskOp>, cut: Cut, tick: nat): State
    requires CutFits(ops, cut)
  {
    Reopen(env, ApplyOps(DurableOf(s), StepsBefore(ops, cut)), tick)
  }

  // ----- The durable part of an operation is what its steps make of the disk -----

  lemma {:induction false} StepsKeepWal(wal: bytes, files: map<nat, bytes>, ops: seq<DiskOp>)
    requires forall op | op in ops :: op.Put? || op.Remove?
    ensures ApplyOps(Durable(wal, files), ops) == Durable(wal, FilesAfter(files, ops))
    decreases |ops|
  {
    if ops != [] {
      StepsKeepWal(wal, files, ops[..|ops| - 1]);
    }
  }

  lemma CompactStepsKind(env: Env, files: map<nat, bytes>, tick: nat)
    ensures forall op | op in CompactOps(env, files, tick) :: op.Put? || op.Remove?
  {
    hide OutputChunks, MergeDone, FlushImage, Listing;
  }

  /** The recorded steps account for everything an operation leaves on disk. */
  lemma OpsExplainDisk(env: Env, s: State, op: Op)
    ensures ApplyOps(DurableOf(s), Ops(env, s, op)) == DurableOf(After(env, s, op))
  {
    hide Storable, Frame, FlushImage, SortedValues, CompactOps, FilesAfter, OutputChunks, ShouldFlush, Process;
    match op {
      case WriteEntry(e) =>
        if Storable(env, e) {
          ApplyOpsSnoc(DurableOf(s), [], AppendWal(Frame(env, e)));
          assert [] + [AppendWal(Frame(env, e))] == [AppendWal(Frame(env, e))];
        }
      case FlushNow => FlushExplainsDisk(env, s);
      case FlushIfLarge => FlushExplainsDisk(env, s);
      case CompactNow =>
        CompactStepsKind(env, s.files, s.tick);
        StepsKeepWal(s.wal, s.files, CompactOps(env, s.files, s.tick));
    }
  }

  lemma FileExplainsDisk(env: Env, s: State)
    ensures ApplyOps(DurableOf(s), FileOps(env, s)) == DurableOf(WithFile(env, s))
    ensures |FileOps(env, s)| <= 1
  {
    hide FlushImage, SortedValues;
    if s.mem.inner != map[] {
      var op := Put(env.clock(s.tick), FlushImage(env, SortedValues(s.mem.inner)).0);
      ApplyOpsSnoc(DurableOf(s), [], op);
      assert [] + [op] == [op];
    }
  }

  lemma TruncateExplainsDisk(env: Env, s: State)
    requires FlushFile(env, s).1
    ensures ApplyOps(DurableOf(s), FileOps(env, s) + [TruncateWal]) == DurableOf(FlushFile(env, s).0)
  {
    hide FileOps, FlushImage, SortedValues;
    FileExplainsDisk(env, s);
    ApplyOpsSnoc(DurableOf(s), FileOps(env, s), TruncateWal);
  }

  lemma FlushExplainsDisk(env: Env, s: State)
    ensures ApplyOps(DurableOf(s), FlushOps(env, s)) == DurableOf(Flush(env, s).0)
  {
    hide FileOps, FlushImage, SortedValues, CompactOps, FilesAfter, OutputChunks, WithFile;
    var (s1, ok) := FlushFile(env, s);
    if ok {
      TruncateExplainsDisk(env, s);
      var front := FileOps(env, s) + [TruncateWal];
      var rest := if CompactionDue(s1) then CompactOps(env, s1.files, s1.tick) else [];
      ApplyOpsConcat(DurableOf(s), front, rest);
      if CompactionDue(s1) {
        CompactStepsKind(env, s1.files, s1.tick);
        StepsKeepWal(s1.wal, s1.files, CompactOps(env, s1.files, s1.tick));
      } else {
        assert front + [] == front;
      }
    } else {
      FileExplainsDisk(env, s);
    }
  }

  // ----- What has to hold for an event to be harmless -----

  /** A write brings no junk in the log to life. In a log of frames there is none. */
  ghost predicate CleanWrite(env: Env, wal: bytes, e: Entry) {
    Storable(env, e) ==> HoldsFrames(env, wal) || StillQuiet(env, wal, wal + Frame(env, e), 0)
  }

  /** No file a compaction writes shows an entry beyond its frames. */
  ghost predicate CleanCompact(env: Env, s: State) {
    var chunks := OutputChunks(env, s.files);
    CleanOutputs(env, chunks, Images(env, chunks))
  }

  ghost predicate CleanFullFlush(env: Env, s: State) {
    && CleanFlush(env, s)
    && (FlushFile(env, s).1 && CompactionDue(FlushFile(env, s).0) ==> CleanCompact(env, FlushFile(env, s).0))
  }

  /** The outputs on disk when a compaction is cut, and how many originals are gone. */
  ghost function CutDatas(env: Env, chunks: seq<seq<Entry>>, cut: Cut): seq<bytes>
  {
    var images := Images(env, chunks);
    match cut
    case Between(c) => if c < |images| then images[..c] else images
    case Inside(c, n) => if c < |images| && n <= |images[c]| then images[..c] + [images[c][..n]] else images
  }

  function CutDeleted(written: nat, cut: Cut): nat {
    match cut
    case Between(c) => if c < written then 0 else c - written
    case Inside(_, _) => 0
  }

  ghost predicate CleanCompactCut(env: Env, s: State, cut: Cut) {
    var chunks := OutputChunks(env, s.files);
    var i := CutDeleted(|chunks|, cut);
    && CleanOutputs(env, chunks, CutDatas(env, chunks, cut))
    && (0 < i <= |s.files| ==> NoResurrection(env, s.mem.inner, Contents(s.files), i))
  }

  /** A crash inside the appended frame: what was passed over stays quiet, and so does the torn frame. */
  ghost predicate CleanWriteCut(env: Env, wal: bytes, frame: bytes, n: nat)
    requires n <= |frame|
  {
    && (HoldsFrames(env, wal) || StillQuiet(env, wal, wal + frame[..n], 0))
    && (n < |frame| ==> Quiet(env, wal + frame[..n], |wal|, |wal| + n))
  }

  function Shifted(cut: Cut, n: nat): Cut
    requires n <= cut.step
  {
    cut.(step := cut.step - n)
  }

  ghost predicate CleanFlushCut(env: Env, s: State, cut: Cut)
    requires CutFits(FlushOps(env, s), cut)
  {
    var n := |FileOps(env, s)|;
    var s1 := FlushFile(env, s).0;
    if cut == Between(0) then true
    else if cut.Inside? && cut.step < n then
      var es := SortedValues(s.mem.inner);
      FileImageStep(env, s);
      AllStorable(env, es) && HarmlessCut(env, es, FlushImage(env, es).0[..cut.count])
    else
      CleanFlush(env, s) && (n < cut.step ==> CleanCompactCut(env, s1, Shifted(cut, n + 1)))
  }

  lemma FileImageStep(env: Env, s: State)
    ensures FileOps(env, s) != [] ==>
              FlushOps(env, s)[0] == Put(env.clock(s.tick), FlushImage(env, SortedValues(s.mem.inner)).0)
  {
    hide FlushImage, SortedValues, CompactOps;
  }

  /** A crash falls among the steps of its operation, and the clock at a reopen is later than every file name. */
  ghost predicate Possible(env: Env, s: State, ev: Event) {
    match ev
    case Do(_) => true
    case CloseAndReopen(tick) => s.tick <= tick
    case CrashDuring(op, cut, tick) =>
      CutFits(Ops(env, s, op), cut) && s.tick <= tick && After(env, s, op).tick <= tick
  }

  /** The part of a frame that reaches the log reads back as nothing, and the whole frame as its entry. */
  ghost predicate WriteCutReads(env: Env, s: State, e: Entry, cut: Cut)
    requires CutFits(WriteOps(env, e), cut)
  {
    if cut == Between(0) then MemIsReplay(env, s)
    else if cut == Between(1) || cut.count == |Frame(env, e)| then MemIsReplay(env, Write(env, s, e).0)
    else MemIsReplay(env, s.(wal := s.wal + Frame(env, e)[..cut.count]))
  }

  /** Up to the truncation the log is needed, behind it no more. */
  ghost predicate FlushCutReads(env: Env, s: State, cut: Cut) {
    |FileOps(env, s)| < cut.step || MemIsReplay(env, s)
  }

  /**
   * What the log asks: nothing while the store runs, and at a reopen that it reads back as the memtable
   * the store had. `WriteGuard` says when each write keeps it so.
   */
  ghost predicate LogGuard(env: Env, s: State, ev: Event)
    requires Possible(env, s, ev)
  {
    match ev
    case Do(_) => true
    case CloseAndReopen(_) => MemIsReplay(env, s)
    case CrashDuring(WriteEntry(e), cut, _) => WriteCutReads(env, s, e, cut)
    case CrashDuring(FlushNow, cut, _) => FlushCutReads(env, s, cut)
    case CrashDuring(FlushIfLarge, cut, _) =>
      if ShouldFlush(s.mem) then FlushCutReads(env, s, cut) else MemIsReplay(env, s)
    case CrashDuring(CompactNow, _, _) => MemIsReplay(env, s)
  }

  /** A write, whole or in part, brings no window of the log to life, and a torn frame holds none. */
  ghost predicate WriteGuard(env: Env, s: State, ev: Event)
    requires Possible(env, s, ev)
  {
    match ev
    case Do(WriteEntry(e)) => CleanWrite(env, s.wal, e)
    case CrashDuring(WriteEntry(e), cut, _) =>
      if cut == Between(0) then true
      else if cut == Between(1) then CleanWrite(env, s.wal, e)
      else CleanWriteCut(env, s.wal, Frame(env, e), cut.count)
    case _ => true
  }

  /**
   * What the SSTables ask: no file written, or written in part, shows an entry beyond its frames, and a
   * compaction cut among its deletions resurrects nothing.
   */
  ghost predicate FileGuard(env: Env, s: State, ev: Event)
    requires Possible(env, s, ev)
  {
    match ev
    case Do(FlushNow) => CleanFullFlush(env, s)
    case Do(FlushIfLarge) => ShouldFlush(s.mem) ==> CleanFullFlush(env, s)
    case Do(CompactNow) => CleanCompact(env, s)
    case CrashDuring(FlushNow, cut, _) => CleanFlushCut(env, s, cut)
    case CrashDuring(FlushIfLarge, cut, _) => ShouldFlush(s.mem) ==> CleanFlushCut(env, s, cut)
    case CrashDuring(CompactNow, cut, _) => CleanCompactCut(env, s, cut)
    case _ => true
  }

  /** The conditions under which the step is covered. */
  ghost predicate Guard(env: Env, s: State, ev: Event) {
    Possible(env, s, ev) && LogGuard(env, s, ev) && FileGuard(env, s, ev)
  }

  ghost function Next(env: Env, s: State, ev: Event): State
    requires Possible(env, s, ev)
  {
    match ev
    case Do(op) => After(env, s, op)
    case CloseAndReopen(tick) => Reopen(env, DurableOf(s), tick)
    case CrashDuring(op, cut, tick) => CrashState(env, s, Ops(env, s, op), cut, tick)
  }

  /** A write took effect if it returned, or if its frame was on disk to the last byte. */
  function TookEffect(env: Env, ev: Event): bool {
    match ev
    case Do(WriteEntry(e)) => Storable(env, e)
    case CrashDuring(WriteEntry(e), cut, _) =>
      Storable(env, e) && (cut == Between(1) || (cut.Inside? && cut.count == |Frame(env, e)|))
    case _ => false
  }

  /** The plain map changes by the writes that took effect, and by nothing else. */
  function AbstractNext(env: Env, m: map<Text, Text>, ev: Event): map<Text, Text> {
    if TookEffect(env, ev) then AbstractWrite(m, ev.op.entry) else m
  }

  // ----- Crashes -----

  lemma ReopenLater(env: Env, s: State, tick: nat)
    requires Inv(env, s) && s.tick <= tick
    ensures var s' := Reopen(env, DurableOf(s), tick); Inv(env, s') && SameAnswers(env, s, s')
  {
    hide Storable, FilterGet, PlainGet, Contents, TablesOf, TablesOk, Scan, Replay;
    assert env.clock(s.tick) <= env.clock(tick);
  }

  lemma SameAnswersTransitive(env: Env, a: State, b: State, c: State)
    requires SameAnswers(env, a, b) && SameAnswers(env, b, c)
    ensures SameAnswers(env, a, c)
  {
    hide Get;
  }

  /** A crash of a merge leaves the outputs written so far, and the originals not yet deleted. */
  lemma MergeCutSteps(env: Env, files: map<nat, bytes>, tick: nat, names: seq<nat>, cut: Cut)
    requires CutFits(Puts(env, tick, OutputChunks(env, files)) + Removes(names), cut)
    ensures var chunks := OutputChunks(env, files);
            var i := CutDeleted(|chunks|, cut);
            && i <= |names|
            && StepsBefore(Puts(env, tick, chunks) + Removes(names), cut)
               == PutsOf(env, tick, CutDatas(env, chunks, cut)) + Removes(names[..i])
            && |CutDatas(env, chunks, cut)| <= |chunks|
            && (forall j | 0 <= j < |CutDatas(env, chunks, cut)| ::
                  CutDatas(env, chunks, cut)[j] <= FlushImage(env, chunks[j]).0)
            && (i > 0 ==> CutDatas(env, chunks, cut) == Images(env, chunks))
  {
    hide OutputChunks, FlushImage, Puts, PutsOf, Removes;
    var chunks := OutputChunks(env, files);
    var images := Images(env, chunks);
    PutsAreImages(env, tick, chunks);
    OpsSizes(env, tick, images, names);
    if cut.step < |chunks| {
      CutAmongPuts(env, tick, images, names, cut);
    } else {
      CutAmongRemoves(env, tick, images, names, cut);
    }
  }

  lemma CompactOpsOf(env: Env, files: map<nat, bytes>, tick: nat)
    requires MergeDone(env, files)
    ensures CompactOps(env, files, tick) == Puts(env, tick, OutputChunks(env, files)) + Removes(Listing(files.Keys))
  {
    hide OutputChunks, MergeDone, Puts, Removes, Listing;
  }

  lemma OpsSizes(env: Env, tick: nat, images: seq<bytes>, names: seq<nat>)
    ensures |PutsOf(env, tick, images)| == |images| && |Removes(names)| == |names| && Removes(names[..0]) == []
  {}

  /** Cut among the outputs: those before it are whole, the one it falls into is cut. */
  lemma CutAmongPuts(env: Env, tick: nat, images: seq<bytes>, names: seq<nat>, cut: Cut)
    requires cut.step < |images| && CutFits(PutsOf(env, tick, images) + Removes(names), cut)
    ensures var c := cut.step;
            StepsBefore(PutsOf(env, tick, images) + Removes(names), cut) ==
              PutsOf(env, tick, if cut.Between? then images[..c] else images[..c] + [images[c][..cut.count]])
    ensures cut.Inside? ==> cut.count <= |images[cut.step]|
  {
    var c := cut.step;
    var ops := PutsOf(env, tick, images) + Removes(names);
    assert ops[..c] == PutsOf(env, tick, images[..c]);
    if cut.Inside? {
      assert ops[c] == Put(env.clock(tick + c), images[c]);
      assert PutsOf(env, tick, images[..c] + [images[c][..cut.count]])
          == PutsOf(env, tick, images[..c]) + [Put(env.clock(tick + c), images[c][..cut.count])];
    }
  }

  /** Cut among the deletions: all outputs are whole, and the first originals are gone. */
  lemma CutAmongRemoves(env: Env, tick: nat, images: seq<bytes>, names: seq<nat>, cut: Cut)
    requires |images| <= cut.step && CutFits(PutsOf(env, tick, images) + Removes(names), cut)
    ensures cut.Between? && cut.step - |images| <= |names|
    ensures StepsBefore(PutsOf(env, tick, images) + Removes(names), cut)
         == PutsOf(env, tick, images) + Removes(names[..cut.step - |images|])
  {
    var i := cut.step - |images|;
    var ops := PutsOf(env, tick, images) + Removes(names);
    assert forall j | |images| <= j < |ops| :: ops[j].Remove?;
    assert ops[..cut.step] == PutsOf(env, tick, images) + Removes(names)[..i];
    assert Removes(names)[..i] == Removes(names[..i]);
  }

  lemma ListingSize(files: map<nat, bytes>)
    ensures |Listing(files.Keys)| == |files|
  {}

  lemma CompactCrashRefines(env: Env, s: State, cut: Cut, tick: nat)
    requires Inv(env, s) && CutFits(CompactOps(env, s.files, s.tick), cut) && CleanCompactCut(env, s, cut)
    requires Compacted(env, s).tick <= tick
    ensures var s' := CrashState(env, s, CompactOps(env, s.files, s.tick), cut, tick);
            Inv(env, s') && SameAnswers(env, s, s')
  {
    hide FilesSorted, LiveIn, OutputChunks, MergeDone, CompactOps, FilesAfter, FlushImage, Honest, FindsAll, OutMap,
         NoResurrection, CleanOutputs, Listing, PutsOf, Puts, Removes, StepsBefore, CutDatas, Images, LiveInv,
         MemIsReplay, SameAnswers, Contents, TablesOf, ApplyOps;
    var chunks, names := OutputChunks(env, s.files), Listing(s.files.Keys);
    var datas, i := CutDatas(env, chunks, cut), CutDeleted(|chunks|, cut);
    InvMerges(env, s);
    CompactOpsOf(env, s.files, s.tick);
    MergeCutSteps(env, s.files, s.tick, names, cut);
    ListingSize(s.files);
    OutputsHonest(env, s.files, datas);
    if i > 0 {
      CompleteOutputs(env, s.files);
    }
    CutRefines(env, s, datas, i, tick);
    ReopenLeft(env, s, datas, names[..i], tick);
  }

  /** Reopening on what the steps of a merge have left answers as that directory does. */
  lemma ReopenLeft(env: Env, s: State, datas: seq<bytes>, names: seq<nat>, tick: nat)
    requires var s1 := WithFiles(s, (s.files + OutMap(env, s.tick, datas)) - NameSet(names), tick);
             LiveInv(env, s1) && SameAnswers(env, s, s1)
    requires MemIsReplay(env, s)
    ensures var steps := PutsOf(env, s.tick, datas) + Removes(names);
            var s' := Reopen(env, ApplyOps(DurableOf(s), steps), tick);
            Inv(env, s') && SameAnswers(env, s, s')
  {
    hide LiveInv, SameAnswers, OutMap, PutsOf, Removes, NameSet, FilesAfter, ApplyOps, Reopen, Scan, Replay;
    var steps := PutsOf(env, s.tick, datas) + Removes(names);
    var s1 := WithFiles(s, (s.files + OutMap(env, s.tick, datas)) - NameSet(names), tick);
    StepsLeaveFiles(env, s.files, s.tick, datas, names);
    CutStepsKind(env, s.tick, datas, names);
    StepsKeepWal(s.wal, s.files, steps);
    assert ApplyOps(DurableOf(s), steps) == DurableOf(s1);
    ReopenLater(env, s1, tick);
    SameAnswersTransitive(env, s, s1, Reopen(env, DurableOf(s1), tick));
  }

  // ----- The same compaction, deleting the oldest original first -----

  /** The steps of a compaction that deletes its originals oldest first. */
  ghost function OldestFirstOps(env: Env, files: map<nat, bytes>, tick: nat): seq<DiskOp> {
    Puts(env, tick, OutputChunks(env, files)) + Removes(Rev(Listing(files.Keys)))
  }

  lemma NoneGone(env: Env, files: map<nat, bytes>, tick: nat, datas: seq<bytes>)
    ensures CutFiles(env, files, tick, datas, 0)
         == (files + OutMap(env, tick, datas)) - NameSet(Rev(Listing(files.Keys))[..0])
  {
    hide OutMap, Rev, Listing;
    assert Listing(files.Keys)[..0] == Rev(Listing(files.Keys))[..0];
  }

  /** Cut among the outputs: no original is gone. */
  lemma OldestFirstWritten(env: Env, s: State, datas: seq<bytes>, tick: nat)
    requires LiveInv(env, s) && s.tick + |datas| <= tick && Honest(env, datas, LiveIn(env, s.files))
    ensures var gone := NameSet(Rev(Listing(s.files.Keys))[..0]);
            var s1 := WithFiles(s, (s.files + OutMap(env, s.tick, datas)) - gone, tick);
            LiveInv(env, s1) && SameAnswers(env, s, s1)
  {
    hide *;
    NoneGone(env, s.files, s.tick, datas);
    CutRefines(env, s, datas, 0, tick);
  }

  /** Deleting oldest first, a compaction may be cut at any step and any byte: no answer changes on reopen. */
  lemma OldestFirstCrashRefines(env: Env, s: State, cut: Cut, tick: nat)
    requires Inv(env, s) && CutFits(OldestFirstOps(env, s.files, s.tick), cut)
    requires var chunks := OutputChunks(env, s.files); CleanOutputs(env, chunks, CutDatas(env, chunks, cut))
    requires s.tick + |OutputChunks(env, s.files)| <= tick
    ensures var s' := CrashState(env, s, OldestFirstOps(env, s.files, s.tick), cut, tick);
            Inv(env, s') && SameAnswers(env, s, s')
  {
    hide OutputChunks, FlushImage, OutMap, NameSet, Rev, CleanOutputs, Listing, PutsOf, Puts, Removes, StepsBefore,
         CutDatas, Images, LiveInv, MemIsReplay, SameAnswers, ApplyOps, Reopen, FilesSorted, Honest, LiveIn;
    var chunks, names := OutputChunks(env, s.files), Listing(s.files.Keys);
    var datas, i := CutDatas(env, chunks, cut), CutDeleted(|chunks|, cut);
    MergeCutSteps(env, s.files, s.tick, Rev(names), cut);
    ListingSize(s.files);
    if i > 0 {
      OldestFirstNeedsNoCondition(env, s, i, tick);
    } else {
      InvMerges(env, s);
      OutputsHonest(env, s.files, datas);
      OldestFirstWritten(env, s, datas, tick);
    }
    ReopenLeft(env, s, datas, Rev(names)[..i], tick);
  }

  lemma CutStepsKind(env: Env, tick: nat, datas: seq<bytes>, names: seq<nat>)
    ensures forall op | op in PutsOf(env, tick, datas) + Removes(names) :: op.Put? || op.Remove?
  {}

  /** All outputs are written and the `i` newest originals are deleted. */
  ghost function DeletionCut(env: Env, s: State, i: nat): Cut {
    Between(|OutputChunks(env, s.files)| + i)
  }

  /** A reopen after all outputs are written and `i` originals are deleted answers as that directory does. */
  lemma DeletionCrashState(env: Env, s: State, i: nat, tick: nat)
    requires Inv(env, s) && i <= |s.files|
    ensures CutFits(CompactOps(env, s.files, s.tick), DeletionCut(env, s, i))
    ensures SameAnswers(env,
              WithFiles(s, CutFiles(env, s.files, s.tick, Images(env, OutputChunks(env, s.files)), i), tick),
              CrashState(env, s, CompactOps(env, s.files, s.tick), DeletionCut(env, s, i), tick))
  {
    hide LiveInv, MemIsReplay, SameAnswers, FilesAfter, CutFiles, Listing, PutsOf, Removes, Images, OutputChunks,
         MergeDone, CompactOps, StepsBefore, CutDatas, ApplyOps, Reopen;
    var chunks := OutputChunks(env, s.files);
    var cut := DeletionCut(env, s, i);
    InvMerges(env, s);
    CompactOpsSize(env, s.files, s.tick);
    CompactOpsOf(env, s.files, s.tick);
    MergeCutSteps(env, s.files, s.tick, Listing(s.files.Keys), cut);
    AllOutputs(env, chunks, i);
    StepsLeaveCut(env, s.files, s.tick, Images(env, chunks), i);
    CutStepsKind(env, s.tick, Images(env, chunks), Listing(s.files.Keys)[..i]);
    StepsKeepWal(s.wal, s.files, StepsBefore(CompactOps(env, s.files, s.tick), cut));
    ReopenAnswers(env, s, CutFiles(env, s.files, s.tick, Images(env, chunks), i), tick);
  }

  lemma ReopenAnswers(env: Env, s: State, files: map<nat, bytes>, tick: nat)
    requires MemIsReplay(env, s)
    ensures SameAnswers(env, WithFiles(s, files, tick), Reopen(env, Durable(s.wal, files), tick))
  {
    hide FilterGet, Contents, Scan, Replay, MemOk, ClockAhead, FilesOk;
  }

  lemma InvMerges(env: Env, s: State)
    requires LiveInv(env, s)
    ensures MergeDone(env, s.files) && FilesSorted(env, s.files)
  {
    hide LiveInv, TablesOk, OutputChunks, MergeDone, TablesOf, Contents;
    TablesOkOf(env, s);
    MergeOfSorted(env, s.files);
  }

  lemma CompactOpsSize(env: Env, files: map<nat, bytes>, tick: nat)
    requires MergeDone(env, files)
    ensures |CompactOps(env, files, tick)| == |OutputChunks(env, files)| + |files|
  {
    hide OutputChunks, MergeDone, FlushImage;
  }

  lemma AllOutputs(env: Env, chunks: seq<seq<Entry>>, i: nat)
    ensures CutDatas(env, chunks, Between(|chunks| + i)) == Images(env, chunks)
  {}

  /**
   * The exact condition of a crash among the deletions: a reopen answers as before the compaction if and
   * only if no key outside the memtable, whose newest entry was a tombstone, is live in what is left.
   */
  lemma CompactionCrashExact(env: Env, s: State, i: nat, tick: nat)
    requires Inv(env, s) && i <= |s.files| && CleanCompact(env, s)
    ensures var ops, datas := CompactOps(env, s.files, s.tick), Contents(s.files);
            var cut := Between(|OutputChunks(env, s.files)| + i);
            && CutFits(ops, cut)
            && (SameAnswers(env, s, CrashState(env, s, ops, cut, tick)) <==>
                  forall k | k !in s.mem.inner && PlainGet(env, datas, k).Some?
                             && PlainGet(env, datas, k).value.Delete? ::
                    AsLive(FilterGet(env, datas[i..], k)).None?)
  {
    hide *;
    InvIsLive(env, s);
    DeletionCutIs(env, s, i);
    DeletionCrashState(env, s, i, tick);
    DeletionCrashExact(env, s, i, tick);
    SameBeside(env, s,
               WithFiles(s, CutFiles(env, s.files, s.tick, Images(env, OutputChunks(env, s.files)), i), tick),
               CrashState(env, s, CompactOps(env, s.files, s.tick), DeletionCut(env, s, i), tick));
  }

  lemma DeletionCutIs(env: Env, s: State, i: nat)
    requires CleanCompact(env, s)
    ensures DeletionCut(env, s, i) == Between(|OutputChunks(env, s.files)| + i)
    ensures var chunks := OutputChunks(env, s.files); CleanOutputs(env, chunks, Images(env, chunks))
  {
    hide OutputChunks, CleanOutputs, Images;
  }

  lemma SameBeside(env: Env, s: State, a: State, b: State)
    requires SameAnswers(env, a, b)
    ensures SameAnswers(env, s, a) <==> SameAnswers(env, s, b)
  {
    hide Get;
  }

  /** Set a key, flush, delete it, flush, compact, stop after the first deletion, reopen: the key is back. */
  lemma CrashResurrects(env: Env, k: Text, v: Text)
    requires Storable(env, Set(k, v)) && Storable(env, Delete(k))
    ensures var s := Witness(env, k, v);
            var ops, cut := CompactOps(env, s.files, s.tick), Between(|OutputChunks(env, s.files)| + 1);
            && Inv(env, s) && CutFits(ops, cut)
            && Get(env, s, k) == None && Get(env, CrashState(env, s, ops, cut, 2), k) == Some(Set(k, v))
  {
    hide Inv, Contents, OutputChunks, CutFiles, Images, CompactOps, CrashState, CutFits, Get, Storable, Witness;
    NewestFirstResurrects(env, k, v);
    DeletionCrashState(env, Witness(env, k, v), 1, 2);
  }

  /** A crash of a write loses the entry, or keeps it if its last byte was written. */
  lemma WriteCrashRefines(env: Env, s: State, e: Entry, n: nat, tick: nat)
    requires LiveInv(env, s) && Storable(env, e) && n <= |Frame(env, e)| && s.tick <= tick
    requires n < |Frame(env, e)| ==> MemIsReplay(env, s.(wal := s.wal + Frame(env, e)[..n]))
    requires n == |Frame(env, e)| ==> MemIsReplay(env, Write(env, s, e).0)
    ensures var s' := Reopen(env, Durable(s.wal + Frame(env, e)[..n], s.files), tick);
            && Inv(env, s')
            && (n < |Frame(env, e)| ==> SameAnswers(env, s, s') && s'.mem == s.mem)
            && (n == |Frame(env, e)| ==> SameAnswers(env, Write(env, s, e).0, s') && s'.mem == Write(env, s, e).0.mem)
  {
    hide Storable, Frame, FilesOk, Scan, Replay, MemOk, Get, Process;
    var f := Frame(env, e);
    if n == |f| {
      assert f[..n] == f;
      WriteRefines(env, s, e);
      ReopenLater(env, Write(env, s, e).0, tick);
    } else {
      var grown := s.wal + f[..n];
      ReopenLater(env, s.(wal := grown), tick);
      SameFilesSameAnswers(env, s, s.(wal := grown));
      SameAnswersTransitive(env, s, s.(wal := grown), Reopen(env, Durable(grown, s.files), tick));
    }
  }

  /** A torn frame that stays quiet, behind a log that does, leaves the log reading as before. */
  lemma TornFrameReads(env: Env, s: State, frame: bytes, n: nat)
    requires MemIsReplay(env, s) && n < |frame| && CleanWriteCut(env, s.wal, frame, n)
    ensures MemIsReplay(env, s.(wal := s.wal + frame[..n]))
  {
    hide Scan, Replay, StillQuiet, Quiet;
    var grown := s.wal + frame[..n];
    CleanCutMeans(env, s.wal, frame, n);
    GrowthKeepsScan(env, s.wal, grown, 0);
    ScanSkipsQuiet(env, grown, |s.wal|, |grown|);
    NothingAtTheEnd(env, grown);
    assert Scan(env, s.wal, 0) + [] == Scan(env, s.wal, 0);
  }

  lemma CleanCutMeans(env: Env, wal: bytes, frame: bytes, n: nat)
    requires n <= |frame| && CleanWriteCut(env, wal, frame, n)
    ensures StillQuiet(env, wal, wal + frame[..n], 0)
  {
    hide StillQuiet, HoldsFrames;
    if HoldsFrames(env, wal) {
      FramesStayQuiet(env, wal, wal + frame[..n]);
    }
  }

  lemma CleanWriteReads(env: Env, s: State, e: Entry)
    requires MemIsReplay(env, s) && Storable(env, e) && CleanWrite(env, s.wal, e)
    ensures MemIsReplay(env, Write(env, s, e).0)
  {
    hide MemIsReplay, StillQuiet, HoldsFrames, Storable, Frame;
    if HoldsFrames(env, s.wal) {
      FramesStayQuiet(env, s.wal, s.wal + Frame(env, e));
    }
    WriteKeepsLog(env, s, e);
  }

  lemma SameFilesSameAnswers(env: Env, s: State, s': State)
    requires s.mem == s'.mem && s.files == s'.files
    ensures SameAnswers(env, s, s')
  {
    hide FilterGet, Contents;
  }

  /** A crash in the file a flush writes, or before the log is truncated. */
  lemma FileCrashRefines(env: Env, s: State, n: nat, tick: nat)
    requires Inv(env, s) && s.mem.inner != map[] && s.tick < tick
    requires n <= |FlushImage(env, SortedValues(s.mem.inner)).0|
    requires AllStorable(env, SortedValues(s.mem.inner))
    requires HarmlessCut(env, SortedValues(s.mem.inner), FlushImage(env, SortedValues(s.mem.inner)).0[..n])
    ensures var data := FlushImage(env, SortedValues(s.mem.inner)).0[..n];
            var s' := Reopen(env, Durable(s.wal, s.files[env.clock(s.tick) := data]), tick);
            Inv(env, s') && SameAnswers(env, s, s')
  {
    hide Storable, FlushImage, SortedValues, TableEntries, HarmlessCut, LiveInv, Get, Reopen, Scan, Replay;
    var es := SortedValues(s.mem.inner);
    var data := FlushImage(env, es).0[..n];
    CutImage(env, es, n);
    ShadowedFile(env, s, data);
    var s1 := s.(files := s.files[env.clock(s.tick) := data], tick := s.tick + 1);
    ReopenLater(env, s1, tick);
    SameAnswersTransitive(env, s, s1, Reopen(env, DurableOf(s1), tick));
  }

  lemma FlushTicks(env: Env, s: State)
    ensures Flush(env, s).0.tick >= s.tick + |FileOps(env, s)|
    ensures FlushFile(env, s).0.tick == s.tick + |FileOps(env, s)|
    ensures FlushFile(env, s).1 && CompactionDue(FlushFile(env, s).0) ==>
              Flush(env, s).0 == Compacted(env, FlushFile(env, s).0)
    ensures |FileOps(env, s)| == if s.mem.inner == map[] then 0 else 1
  {
    hide FlushImage, SortedValues, CompactOps, OutputChunks, FilesAfter;
  }

  lemma FlushCrashRefines(env: Env, s: State, cut: Cut, tick: nat)
    requires LiveInv(env, s) && CutFits(FlushOps(env, s), cut) && CleanFlushCut(env, s, cut)
    requires FlushCutReads(env, s, cut) && Flush(env, s).0.tick <= tick
    ensures var s' := CrashState(env, s, FlushOps(env, s), cut, tick);
            Inv(env, s') && SameAnswers(env, s, s')
  {
    hide Storable, FlushImage, SortedValues, TableEntries, HarmlessCut, LiveInv, MemIsReplay, Get, Reopen, CompactOps,
         CleanCompactCut, CleanFlush, SameAnswers, Compacted, ApplyOps;
    FlushTicks(env, s);
    var n := |FileOps(env, s)|;
    var ops := FlushOps(env, s);
    if cut == Between(0) {
      assert ops[..0] == [];
      NoOps(DurableOf(s));
      ReopenLater(env, s, tick);
    } else if cut.step < n {
      FileImageStep(env, s);
      OnePutCut(DurableOf(s), ops, cut);
      FileCrashRefines(env, s, cut.count, tick);
    } else if cut.step == n {
      WholeFileCrash(env, s, cut, tick);
    } else {
      FlushFileRefines(env, s);
      FlushFileLog(env, s);
      LateCutSucceeded(env, s, cut);
      LateFlushCrash(env, s, cut, tick);
    }
  }

  lemma LateCutSucceeded(env: Env, s: State, cut: Cut)
    requires CutFits(FlushOps(env, s), cut) && |FileOps(env, s)| < cut.step
    ensures FileWritten(env, s)
  {
    hide FlushImage, SortedValues, CompactOps;
  }

  lemma InvMemOk(env: Env, s: State)
    requires LiveInv(env, s)
    ensures MemOk(env, s.mem.inner)
  {}

  lemma NoOps(d: Durable)
    ensures ApplyOps(d, []) == d
  {}

  lemma OnePutCut(d: Durable, ops: seq<DiskOp>, cut: Cut)
    requires CutFits(ops, cut) && cut.step == 0 && cut.Inside? && ops[0].Put?
    ensures ApplyOps(d, StepsBefore(ops, cut)) == d.(files := d.files[ops[0].ts := ops[0].data[..cut.count]])
  {
    var op := TornOp(ops[0], cut.count);
    assert StepsBefore(ops, cut) == [] + [op];
    ApplyOpsSnoc(d, [], op);
  }

  /** The file is complete, the log is still whole. */
  lemma WholeFileCrash(env: Env, s: State, cut: Cut, tick: nat)
    requires Inv(env, s) && CutFits(FlushOps(env, s), cut) && cut == Between(1) && |FileOps(env, s)| == 1
    requires CleanFlush(env, s)
    requires s.tick + 1 <= tick
    ensures var s' := CrashState(env, s, FlushOps(env, s), cut, tick);
            Inv(env, s') && SameAnswers(env, s, s')
  {
    hide Storable, FlushImage, SortedValues, TableEntries, HarmlessCut, LiveInv, MemIsReplay, Get, Reopen, CompactOps,
         SameAnswers;
    var es := SortedValues(s.mem.inner);
    var image := FlushImage(env, es).0;
    FileImageStep(env, s);
    assert image[..|image|] == image;
    assert FlushOps(env, s)[..1] == [Put(env.clock(s.tick), image)];
    FileExplainsDisk(env, s);
    FileCrashRefines(env, s, |image|, tick);
  }

  /** The log is truncated: what follows is a crash of the compaction the flush has started, or a plain reopen. */
  lemma LateFlushCrash(env: Env, s: State, cut: Cut, tick: nat)
    requires CutFits(FlushOps(env, s), cut) && cut.step > |FileOps(env, s)|
    requires var s1 := FlushFile(env, s).0;
             Inv(env, s1) && SameAnswers(env, s, s1) && CleanCompactCut(env, s1, Shifted(cut, |FileOps(env, s)| + 1))
    requires Flush(env, s).0.tick <= tick
    ensures var s' := CrashState(env, s, FlushOps(env, s), cut, tick);
            Inv(env, s') && SameAnswers(env, s, s')
  {
    hide FlushImage, SortedValues, Inv, Reopen, CompactOps, CleanCompactCut, SameAnswers, Compacted, FileOps, FlushFile,
         ApplyOps;
    var (s1, ok) := FlushFile(env, s);
    var front := FileOps(env, s) + [TruncateWal];
    var rest := if CompactionDue(s1) then CompactOps(env, s1.files, s1.tick) else [];
    FlushTicks(env, s);
    assert ok;
    TruncateExplainsDisk(env, s);
    var late := Shifted(cut, |front|);
    assert FlushOps(env, s) == front + rest;
    CutBehind(front, rest, cut);
    ApplyOpsConcat(DurableOf(s), front, StepsBefore(rest, late));
    if CompactionDue(s1) {
      CompactCrashRefines(env, s1, late, tick);
      SameAnswersTransitive(env, s, s1, CrashState(env, s1, rest, late, tick));
    } else {
      NoOps(DurableOf(s1));
      ReopenLater(env, s1, tick);
      SameAnswersTransitive(env, s, s1, Reopen(env, DurableOf(s1), tick));
    }
  }

  lemma CutBehind(front: seq<DiskOp>, rest: seq<DiskOp>, cut: Cut)
    requires CutFits(front + rest, cut) && |front| <= cut.step
    ensures CutFits(rest, Shifted(cut, |front|))
    ensures StepsBefore(front + rest, cut) == front + StepsBefore(rest, Shifted(cut, |front|))
  {}

  // ----- One event, and every run -----

  /** A full flush, compaction included, changes no answer, whether it succeeds or fails. */
  lemma FlushRefines(env: Env, s: State)
    requires LiveInv(env, s) && CleanFullFlush(env, s)
    ensures LiveInv(env, Flush(env, s).0) && SameAnswers(env, s, Flush(env, s).0)
  {
    hide FlushFile, LiveInv, SameAnswers, Compacted, CleanFlush;
    FlushFileRefines(env, s);
    var (s1, ok) := FlushFile(env, s);
    if ok && CompactionDue(s1) {
      CompactRefines(env, s1);
      SameAnswersTransitive(env, s, s1, Compacted(env, s1));
    }
  }

  lemma SameAnswersRefine(env: Env, s: State, s': State, m: map<Text, Text>)
    requires SameAnswers(env, s, s') && Refines(env, s, m)
    ensures Refines(env, s', m)
  {
    hide Get;
  }

  lemma WriteStepRefines(env: Env, s: State, e: Entry, m: map<Text, Text>)
    requires LiveInv(env, s) && Refines(env, s, m) && Storable(env, e)
    ensures LiveInv(env, Write(env, s, e).0) && Refines(env, Write(env, s, e).0, AbstractWrite(m, e))
  {
    hide LiveInv, Get, Frame, Storable;
    WriteRefines(env, s, e);
  }

  lemma PutCrashRefines(env: Env, s: State, e: Entry, cut: Cut, tick: nat, m: map<Text, Text>)
    requires LiveInv(env, s) && Refines(env, s, m)
    requires Guard(env, s, CrashDuring(WriteEntry(e), cut, tick))
    ensures var ev := CrashDuring(WriteEntry(e), cut, tick);
            Inv(env, Next(env, s, ev)) && Refines(env, Next(env, s, ev), AbstractNext(env, m, ev))
  {
    hide LiveInv, MemIsReplay, Get, Frame, Storable, Reopen, SameAnswers, Refines, ApplyOps, Write;
    var ops := WriteOps(env, e);
    if cut == Between(0) {
      assert ops[..0] == [];
      NoOps(DurableOf(s));
      ReopenLater(env, s, tick);
      SameAnswersRefine(env, s, Reopen(env, DurableOf(s), tick), m);
    } else {
      assert Storable(env, e) && ops == [AppendWal(Frame(env, e))];
      var f := Frame(env, e);
      var n := if cut.Between? then |f| else cut.count;
      assert f[..|f|] == f;
      var steps := StepsBefore(ops, cut);
      assert steps == [AppendWal(f[..n])];
      OneAppend(DurableOf(s), f[..n]);
      WriteCrashRefines(env, s, e, n, tick);
      var s' := Reopen(env, Durable(s.wal + f[..n], s.files), tick);
      if n == |f| {
        WriteStepRefines(env, s, e, m);
        SameAnswersRefine(env, Write(env, s, e).0, s', AbstractWrite(m, e));
      } else {
        SameAnswersRefine(env, s, s', m);
      }
    }
  }

  lemma OneAppend(d: Durable, frame: bytes)
    ensures ApplyOps(d, []) == d && ApplyOps(d, [AppendWal(frame)]) == d.(wal := d.wal + frame)
  {
    ApplyOpsSnoc(d, [], AppendWal(frame));
    assert [] + [AppendWal(frame)] == [AppendWal(frame)];
  }

  /** One event, and the store goes on answering as the plain map does. */
  lemma EventRefines(env: Env, s: State, ev: Event, m: map<Text, Text>)
    requires LiveInv(env, s) && Refines(env, s, m) && Guard(env, s, ev)
    ensures LiveInv(env, Next(env, s, ev)) && Refines(env, Next(env, s, ev), AbstractNext(env, m, ev))
    ensures !ev.Do? ==> Inv(env, Next(env, s, ev))
  {
    hide LiveInv, MemIsReplay, Get, Frame, Storable, Reopen, SameAnswers, Refines, Flush, FlushOps, CompactOps,
         Compacted, CleanFullFlush, CleanFlushCut, CleanCompactCut, CleanCompact, StepsBefore, CutFits, FlushCutReads,
         Write;
    match ev {
      case Do(WriteEntry(e)) =>
        if Storable(env, e) {
          WriteStepRefines(env, s, e, m);
        } else {
          RefusedWrite(env, s, e);
        }
      case Do(FlushNow) =>
        FlushRefines(env, s);
        SameAnswersRefine(env, s, Next(env, s, ev), m);
      case Do(FlushIfLarge) =>
        if ShouldFlush(s.mem) {
          FlushRefines(env, s);
          SameAnswersRefine(env, s, Next(env, s, ev), m);
        }
      case Do(CompactNow) =>
        CleanCompactMeans(env, s);
        CompactRefines(env, s);
        SameAnswersRefine(env, s, Next(env, s, ev), m);
      case CloseAndReopen(tick) =>
        ReopenLater(env, s, tick);
        SameAnswersRefine(env, s, Next(env, s, ev), m);
      case CrashDuring(WriteEntry(e), cut, tick) =>
        PutCrashRefines(env, s, e, cut, tick, m);
      case CrashDuring(FlushNow, cut, tick) =>
        FlushCrashRefines(env, s, cut, tick);
        SameAnswersRefine(env, s, Next(env, s, ev), m);
      case CrashDuring(FlushIfLarge, cut, tick) =>
        if ShouldFlush(s.mem) {
          FlushCrashRefines(env, s, cut, tick);
        } else {
          NothingToCut(env, s, cut);
          ReopenLater(env, s, tick);
        }
        SameAnswersRefine(env, s, Next(env, s, ev), m);
      case CrashDuring(CompactNow, cut, tick) =>
        CompactCrashRefines(env, s, cut, tick);
        SameAnswersRefine(env, s, Next(env, s, ev), m);
    }
  }

  lemma RefusedWrite(env: Env, s: State, e: Entry)
    requires !Storable(env, e)
    ensures Write(env, s, e) == (s, false)
  {}

  lemma CleanCompactMeans(env: Env, s: State)
    requires CleanCompact(env, s)
    ensures var chunks := OutputChunks(env, s.files); CleanOutputs(env, chunks, Images(env, chunks))
  {}

  lemma NothingToCut(env: Env, s: State, cut: Cut)
    requires CutFits([], cut)
    ensures ApplyOps(DurableOf(s), StepsBefore([], cut)) == DurableOf(s)
  {}

  /** A run in which every event meets its guard. */
  ghost predicate Run(env: Env, s: State, events: seq<Event>)
    decreases |events|
  {
    events != [] ==> Guard(env, s, events[0]) && Run(env, Next(env, s, events[0]), events[1..])
  }

  ghost function Final(env: Env, s: State, events: seq<Event>): State
    requires Run(env, s, events)
    decreases |events|
  {
    if events == [] then s else Final(env, Next(env, s, events[0]), events[1..])
  }

  function AbstractFinal(env: Env, m: map<Text, Text>, events: seq<Event>): map<Text, Text>
    decreases |events|
  {
    if events == [] then m else AbstractFinal(env, AbstractNext(env, m, events[0]), events[1..])
  }

  /**
   * Through every run of writes, flushes, compactions, reopens and crashes whose events meet their guards,
   * every lookup answers as one plain map that only the writes have changed. While the store runs nothing
   * is asked of the log; a reopen asks that the log read back as the memtable, which a write behind a torn
   * append can break (`TornLogs.AcknowledgedWriteLost`).
   */
  lemma {:induction false} RunRefines(env: Env, s: State, events: seq<Event>, m: map<Text, Text>)
    requires LiveInv(env, s) && Refines(env, s, m) && Run(env, s, events)
    ensures LiveInv(env, Final(env, s, events)) && Refines(env, Final(env, s, events), AbstractFinal(env, m, events))
    decreases |events|
  {
    hide LiveInv, Refines, Possible, LogGuard, FileGuard, Next, AbstractNext;
    if events != [] {
      EventRefines(env, s, events[0], m);
      RunRefines(env, Next(env, s, events[0]), events[1..], AbstractNext(env, m, events[0]));
    }
  }

  // ----- Writes that keep the log readable -----

  lemma FlushKeepsLog(env: Env, s: State)
    requires MemIsReplay(env, s)
    ensures MemIsReplay(env, Flush(env, s).0)
  {
    hide MemIsReplay, FlushFile, CompactOps, FilesAfter, OutputChunks, MergeDone;
    FlushFileLog(env, s);
    var (s1, ok) := FlushFile(env, s);
    if ok && CompactionDue(s1) {
      CompactKeepsLog(env, s1);
    }
  }

  lemma CompactKeepsLog(env: Env, s: State)
    requires MemIsReplay(env, s)
    ensures MemIsReplay(env, Compacted(env, s))
  {
    hide CompactOps, FilesAfter, OutputChunks, Scan, Replay;
  }

  lemma ReopenReadsLog(env: Env, d: Durable, tick: nat)
    ensures MemIsReplay(env, Reopen(env, d, tick))
  {
    hide Scan, Replay;
  }

  /** Where no write brings a window of the log to life, every reopen finds the log it needs. */
  lemma WriteGuardSuffices(env: Env, s: State, ev: Event)
    requires MemIsReplay(env, s) && Possible(env, s, ev) && WriteGuard(env, s, ev)
    ensures LogGuard(env, s, ev) && MemIsReplay(env, Next(env, s, ev))
  {
    hide MemIsReplay, Frame, Storable, Flush, FlushOps, CompactOps, Compacted, CleanWrite, CleanWriteCut, Write, Reopen,
         StepsBefore, After, ApplyOps;
    match ev {
      case Do(op) => OpKeepsLog(env, s, op);
      case CloseAndReopen(tick) => ReopenReadsLog(env, DurableOf(s), tick);
      case CrashDuring(op, cut, tick) =>
        ReopenReadsLog(env, ApplyOps(DurableOf(s), StepsBefore(Ops(env, s, op), cut)), tick);
        if op.WriteEntry? {
          WriteCutGuarded(env, s, op.entry, cut, ev);
        }
    }
  }

  lemma OpKeepsLog(env: Env, s: State, op: Op)
    requires MemIsReplay(env, s) && (op.WriteEntry? ==> CleanWrite(env, s.wal, op.entry))
    ensures MemIsReplay(env, After(env, s, op))
  {
    hide MemIsReplay, Frame, Storable, Flush, Compacted, CleanWrite, Write;
    match op {
      case WriteEntry(e) =>
        if Storable(env, e) {
          CleanWriteReads(env, s, e);
        } else {
          RefusedWrite(env, s, e);
        }
      case FlushNow => FlushKeepsLog(env, s);
      case FlushIfLarge => FlushKeepsLog(env, s);
      case CompactNow => CompactKeepsLog(env, s);
    }
  }

  lemma WriteCutGuarded(env: Env, s: State, e: Entry, cut: Cut, ev: Event)
    requires MemIsReplay(env, s) && ev.CrashDuring? && ev.op == WriteEntry(e) && ev.cut == cut
    requires Possible(env, s, ev) && WriteGuard(env, s, ev)
    ensures CutFits(WriteOps(env, e), cut) && WriteCutReads(env, s, e, cut)
  {
    hide MemIsReplay, Frame, Storable, CleanWrite, CleanWriteCut, Write;
    if cut != Between(0) {
      var f := Frame(env, e);
      if cut == Between(1) {
        CleanWriteReads(env, s, e);
      } else if cut.count == |f| {
        WholeWriteClean(env, s.wal, e);
        CleanWriteReads(env, s, e);
      } else {
        TornFrameReads(env, s, f, cut.count);
      }
    }
  }

  lemma WholeWriteClean(env: Env, wal: bytes, e: Entry)
    requires Storable(env, e) && CleanWriteCut(env, wal, Frame(env, e), |Frame(env, e)|)
    ensures CleanWrite(env, wal, e)
  {
    hide Frame, StillQuiet;
    assert Frame(env, e)[..|Frame(env, e)|] == Frame(env, e);
  }

  /** A run in which the writes meet `WriteGuard`. */
  ghost predicate QuietRun(env: Env, s: State, events: seq<Event>)
    decreases |events|
  {
    events != [] ==>
      && Possible(env, s, events[0]) && WriteGuard(env, s, events[0]) && FileGuard(env, s, events[0])
      && QuietRun(env, Next(env, s, events[0]), events[1..])
  }

  /** In such a run no reopen asks anything more of the log. */
  lemma {:induction false} QuietRunRefines(env: Env, s: State, events: seq<Event>, m: map<Text, Text>)
    requires Inv(env, s) && Refines(env, s, m) && QuietRun(env, s, events)
    ensures Run(env, s, events)
    ensures Inv(env, Final(env, s, events)) && Refines(env, Final(env, s, events), AbstractFinal(env, m, events))
    decreases |events|
  {
    hide LiveInv, MemIsReplay, Refines, Possible, LogGuard, WriteGuard, FileGuard, Next, AbstractNext;
    if events != [] {
      WriteGuardSuffices(env, s, events[0]);
      EventRefines(env, s, events[0], m);
      QuietRunRefines(env, Next(env, s, events[0]), events[1..], AbstractNext(env, m, events[0]));
    }
  }

  /** A store created from nothing. */
  function Fresh(): State {
    State([], EMPTY, map[], 0, 0)
  }

  lemma FreshIsEmpty(env: Env)
    ensures Inv(env, Fresh()) && Refines(env, Fresh(), map[])
  {
    EmptyScan(env);
    NoContents();
  }

  // ----- Every file opens and is covered, until a crash cuts one -----

  /** The event writes no file, or the file it writes has few enough keys to be written to the end. */
  ghost predicate NoFailedFlush(env: Env, s: State, ev: Event) {
    match ev
    case Do(FlushNow) => FileWritten(env, s)
    case Do(FlushIfLarge) => ShouldFlush(s.mem) ==> FileWritten(env, s)
    case _ => true
  }

  lemma CrashFreeEvent(env: Env, s: State, ev: Event)
    requires LiveInv(env, s) && Guard(env, s, ev) && AllSound(env, s.files)
    requires !ev.CrashDuring? && NoFailedFlush(env, s, ev)
    ensures AllSound(env, Next(env, s, ev).files)
  {
    hide LiveInv, Storable, AllSound, CleanOutputs, CompactOps, FilesAfter, OutputChunks, CleanFlush, FlushFile,
         MemIsReplay;
    match ev {
      case Do(WriteEntry(e)) =>
      case Do(FlushNow) => FlushStaysSound(env, s);
      case Do(FlushIfLarge) =>
        if ShouldFlush(s.mem) {
          FlushStaysSound(env, s);
        }
      case Do(CompactNow) => CompactStaysSound(env, s);
      case CloseAndReopen(tick) =>
    }
  }

  /** A run without crashes and failed flushes. */
  ghost predicate CrashFree(env: Env, s: State, events: seq<Event>)
    requires Run(env, s, events)
    decreases |events|
  {
    events != [] ==>
      && !events[0].CrashDuring? && NoFailedFlush(env, s, events[0])
      && CrashFree(env, Next(env, s, events[0]), events[1..])
  }

  /** Without crashes and failed flushes every file opens, is not empty, and is covered by its filter. */
  lemma {:induction false} CrashFreeStaysSound(env: Env, s: State, events: seq<Event>, m: map<Text, Text>)
    requires LiveInv(env, s) && Refines(env, s, m) && AllSound(env, s.files)
    requires Run(env, s, events) && CrashFree(env, s, events)
    ensures AllSound(env, Final(env, s, events).files)
    decreases |events|
  {
    hide LiveInv, Refines, AllSound, Possible, LogGuard, FileGuard, Next, AbstractNext, NoFailedFlush;
    if events != [] {
      EventRefines(env, s, events[0], m);
      CrashFreeEvent(env, s, events[0]);
      CrashFreeStaysSound(env, Next(env, s, events[0]), events[1..], AbstractNext(env, m, events[0]));
    }
  }

  lemma FlushStaysSound(env: Env, s: State)
    requires LiveInv(env, s) && CleanFullFlush(env, s) && AllSound(env, s.files) && FileWritten(env, s)
    ensures AllSound(env, Flush(env, s).0.files)
  {
    hide LiveInv, Storable, AllSound, CleanOutputs, CompactOps, FilesAfter, OutputChunks, CleanFlush, FlushFile;
    FlushFileStaysSound(env, s);
    FlushFileRefines(env, s);
    var (s1, ok) := FlushFile(env, s);
    if ok && CompactionDue(s1) {
      CompactStaysSound(env, s1);
    }
  }
}
