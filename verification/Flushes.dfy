/** Which flush compacts: the count of flushes, in one life of the store and across reopens. */
module Flushes {
  import opened Bytes
  import opened Entries
  import opened Header
  import opened Reader
  import opened Recovery
  import opened Disk
  import opened MemTables
  import opened Lookup
  import opened Merge
  import opened Plans
  import opened Compaction
  import opened Store
  import opened Refinement
  import opened Crash
  import opened Runs
  import CleanRuns

  // ----- One flush -----

  /** The count goes to a multiple of ten. At the end of u64 it stays where it is, which is none. */
  predicate Tenth(flushCount: nat) {
    flushCount + 1 < 0x1_0000_0000_0000_0000 && (flushCount + 1) % 10 == 0
  }

  lemma DueIsTenth(n: nat)
    ensures DueAt(SaturatingAdd(n, 1)) <==> Tenth(n)
  {}

  /** A flush that writes its file, or has none to write, compacts at every tenth count and at no other. */
  lemma FlushesAtTen(env: Env, s: State)
    requires FileWritten(env, s)
    ensures Flush(env, s).0 ==
              if Tenth(s.flushCount) then Compacted(env, FlushFile(env, s).0) else FlushFile(env, s).0
    ensures FlushOps(env, s) ==
              FileOps(env, s) + [TruncateWal]
              + (if Tenth(s.flushCount)
                 then CompactOps(env, FlushFile(env, s).0.files, FlushFile(env, s).0.tick) else [])
  {
    hide DueAt, Tenth, SaturatingAdd, FlushImage, SortedValues, CompactOps, MergeDone, Compacted, WithFile, FileWritten,
         FileOps;
    DueIsTenth(s.flushCount);
  }

  /** One that fails to write its file does not count, and does not compact. */
  lemma FailedFlushCountsNot(env: Env, s: State)
    requires !FileWritten(env, s)
    ensures var (s', ok) := Flush(env, s); !ok && s'.flushCount == s.flushCount && FlushOps(env, s) == FileOps(env, s)
  {
    hide FlushImage, SortedValues, CompactOps, MergeDone, Compacted, FileWritten, FileOps;
  }

  // ----- After a reopen -----

  function Writes(env: Env, s: State, es: seq<Entry>): State
    decreases |es|
  {
    if es == [] then s else Writes(env, Write(env, s, es[0]).0, es[1..])
  }

  lemma {:induction false} WritesCountNot(env: Env, s: State, es: seq<Entry>)
    ensures Writes(env, s, es).flushCount == s.flushCount && Writes(env, s, es).files == s.files
    decreases |es|
  {
    hide Storable, Frame, Process;
    if es != [] {
      WritesCountNot(env, Write(env, s, es[0]).0, es[1..]);
    }
  }

  /**
   * A reopened store counts on from the number of its files: after any writes, the first flush that writes
   * its file compacts if and only if that number ends in nine.
   */
  lemma FirstFlushAfterReopen(env: Env, d: Durable, tick: nat, es: seq<Entry>)
    requires FileWritten(env, Writes(env, Reopen(env, d, tick), es)) && |d.files| + 1 < U64_LIMIT
    ensures var s := Writes(env, Reopen(env, d, tick), es);
            Flush(env, s).0 ==
              if |d.files| % 10 == 9 then Compacted(env, FlushFile(env, s).0) else FlushFile(env, s).0
  {
    hide *;
    WritesCountNot(env, Reopen(env, d, tick), es);
    ReopenCounts(env, d, tick);
    var s := Writes(env, Reopen(env, d, tick), es);
    FlushesAtTen(env, s);
    TenthEndsInNine(s.flushCount);
  }

  lemma ReopenCounts(env: Env, d: Durable, tick: nat)
    ensures Reopen(env, d, tick).flushCount == |d.files|
  {
    hide Scan, Replay;
  }

  lemma TenthEndsInNine(n: nat)
    ensures n + 1 < U64_LIMIT ==> (Tenth(n) <==> n % 10 == 9)
  {}

  // ----- While no compaction runs, the count is the number of files -----

  /** The flush has something to write, writes it, and does not go on to compact. */
  ghost predicate AddsOneFile(env: Env, s: State) {
    && s.mem.inner != map[] && FileWritten(env, s)
    && s.flushCount + 1 < 0x1_0000_0000_0000_0000 && (s.flushCount + 1) % 10 != 0
  }

  /** Writes, reopens and crashes may come in between, even a crash among the steps of a compaction. */
  ghost predicate NoneCompacted(env: Env, s: State, ev: Event) {
    match ev
    case Do(FlushNow) => AddsOneFile(env, s)
    case Do(FlushIfLarge) => ShouldFlush(s.mem) ==> AddsOneFile(env, s)
    case Do(CompactNow) => false
    case _ => true
  }

  ghost predicate Uncompacted(env: Env, s: State, events: seq<Event>)
    decreases |events|
  {
    events != [] ==>
      && Possible(env, s, events[0]) && NoneCompacted(env, s, events[0])
      && Uncompacted(env, Next(env, s, events[0]), events[1..])
  }

  ghost function Reached(env: Env, s: State, events: seq<Event>): State
    requires Uncompacted(env, s, events)
    decreases |events|
  {
    if events == [] then s else Reached(env, Next(env, s, events[0]), events[1..])
  }

  lemma OneMoreFile(env: Env, s: State)
    requires ClockAhead(env, s.files, s.tick) && AddsOneFile(env, s)
    ensures var s' := Flush(env, s).0;
            && s'.flushCount == s.flushCount + 1 && |s'.files| == |s.files| + 1
            && ClockAhead(env, s'.files, s'.tick)
  {
    hide FlushImage, SortedValues, CompactOps, MergeDone, Compacted, Flush;
    FlushesAtTen(env, s);
    var ts := env.clock(s.tick);
    assert ts !in s.files;
    assert env.clock(s.tick) < env.clock(s.tick + 1);
    var s' := FlushFile(env, s).0;
    assert s'.files.Keys == s.files.Keys + {ts};
    assert |s'.files.Keys| == |s.files.Keys| + 1;
  }

  /** Steps leave files that were there or that they write. */
  lemma {:induction false} StepsNames(d: Durable, ops: seq<DiskOp>, t: nat)
    requires forall ts | ts in d.files :: ts < t
    requires forall op | op in ops && op.Put? :: op.ts < t
    ensures forall ts | ts in ApplyOps(d, ops).files :: ts < t
    decreases |ops|
  {
    if ops != [] {
      assert forall op | op in ops[..|ops| - 1] :: op in ops;
      StepsNames(d, ops[..|ops| - 1], t);
      assert ops[|ops| - 1] in ops;
    }
  }

  lemma CompactNames(env: Env, files: map<nat, bytes>, tick: nat)
    ensures forall op | op in CompactOps(env, files, tick) && op.Put? ::
              op.ts < env.clock(tick + |OutputChunks(env, files)|)
  {
    hide OutputChunks, MergeDone, FlushImage, Listing;
    var n, ops := |OutputChunks(env, files)|, CompactOps(env, files, tick);
    forall op | op in ops && op.Put? ensures op.ts < env.clock(tick + n) {
      var i :| 0 <= i < |ops| && ops[i] == op;
      assert i < n && op.ts == env.clock(tick + i);
    }
  }

  lemma FileNames(env: Env, s: State)
    ensures forall op | op in FileOps(env, s) && op.Put? :: op.ts < env.clock(FlushFile(env, s).0.tick)
  {
    hide FlushImage, SortedValues;
  }

  lemma FlushNames(env: Env, s: State)
    ensures forall op | op in FlushOps(env, s) && op.Put? :: op.ts < env.clock(Flush(env, s).0.tick)
  {
    hide FileOps, FlushFile, CompactOps, OutputChunks, MergeDone, FilesAfter;
    FileNames(env, s);
    var (s1, ok) := FlushFile(env, s);
    if ok && CompactionDue(s1) {
      CompactNames(env, s1.files, s1.tick);
      assert env.clock(s1.tick) <= env.clock(Flush(env, s).0.tick);
    }
  }

  lemma OpNames(env: Env, s: State, op: Op)
    ensures s.tick <= After(env, s, op).tick
    ensures forall step | step in Ops(env, s, op) && step.Put? :: step.ts < env.clock(After(env, s, op).tick)
  {
    hide FlushOps, CompactOps, OutputChunks, Flush, Frame, Storable, Process, FilesAfter;
    match op {
      case WriteEntry(e) =>
      case FlushNow => FlushNames(env, s); FlushLater(env, s);
      case FlushIfLarge => FlushNames(env, s); FlushLater(env, s);
      case CompactNow => CompactNames(env, s.files, s.tick);
    }
  }

  lemma FlushLater(env: Env, s: State)
    ensures s.tick <= Flush(env, s).0.tick
  {
    hide FlushImage, SortedValues, CompactOps, OutputChunks, MergeDone, FilesAfter;
  }

  lemma CutNames(ops: seq<DiskOp>, cut: Cut, t: nat)
    requires CutFits(ops, cut) && forall op | op in ops && op.Put? :: op.ts < t
    ensures forall op | op in StepsBefore(ops, cut) && op.Put? :: op.ts < t
  {
    assert forall op | op in ops[..cut.step] :: op in ops;
    if cut.Inside? {
      assert ops[cut.step] in ops;
    }
  }

  lemma CrashNames(env: Env, s: State, op: Op, cut: Cut, tick: nat)
    requires ClockAhead(env, s.files, s.tick) && Possible(env, s, CrashDuring(op, cut, tick))
    ensures var s' := Next(env, s, CrashDuring(op, cut, tick));
            ClockAhead(env, s'.files, s'.tick) && s'.flushCount == |s'.files|
  {
    hide Ops, After, StepsBefore, CutFits, ApplyOps, Scan, Replay;
    OpNames(env, s, op);
    assert env.clock(s.tick) <= env.clock(tick) && env.clock(After(env, s, op).tick) <= env.clock(tick);
    CutNames(Ops(env, s, op), cut, env.clock(tick));
    StepsNames(DurableOf(s), StepsBefore(Ops(env, s, op), cut), env.clock(tick));
  }

  lemma CountKept(env: Env, s: State, ev: Event)
    requires ClockAhead(env, s.files, s.tick) && s.flushCount == |s.files|
    requires Possible(env, s, ev) && NoneCompacted(env, s, ev)
    ensures var s' := Next(env, s, ev); ClockAhead(env, s'.files, s'.tick) && s'.flushCount == |s'.files|
  {
    hide AddsOneFile, Flush, Frame, Storable, Process, StepsBefore, CutFits, Scan, Replay, CrashState, Ops;
    match ev {
      case Do(WriteEntry(e)) =>
      case Do(FlushNow) => OneMoreFile(env, s);
      case Do(FlushIfLarge) =>
        if ShouldFlush(s.mem) {
          OneMoreFile(env, s);
        }
      case CloseAndReopen(tick) =>
        assert env.clock(s.tick) <= env.clock(tick);
      case CrashDuring(op, cut, tick) => CrashNames(env, s, op, cut, tick);
    }
  }

  lemma {:induction false} CountThroughout(env: Env, s: State, events: seq<Event>)
    requires ClockAhead(env, s.files, s.tick) && s.flushCount == |s.files| && Uncompacted(env, s, events)
    ensures var s' := Reached(env, s, events); ClockAhead(env, s'.files, s'.tick) && s'.flushCount == |s'.files|
    decreases |events|
  {
    hide ClockAhead, NoneCompacted, Possible, Next;
    if events != [] {
      CountKept(env, s, events[0]);
      CountThroughout(env, Next(env, s, events[0]), events[1..]);
    }
  }

  /** So in every such run of a new store, reopens and crashes included, the count is the number of files. */
  lemma CountIsFiles(env: Env, events: seq<Event>)
    requires Uncompacted(env, Fresh(), events)
    ensures var s := Reached(env, Fresh(), events); s.flushCount == |s.files|
  {
    hide Uncompacted, Reached;
    CountThroughout(env, Fresh(), events);
  }

  // ----- Ten writes and flushes of a new store -----

  /** Each entry is written and flushed. */
  ghost function Rounds(env: Env, es: seq<Entry>): State
    decreases |es|
  {
    if es == [] then Fresh()
    else Flush(env, Write(env, Rounds(env, es[..|es| - 1]), es[|es| - 1]).0).0
  }

  /** After the file of a round is written and the log truncated. */
  ghost function OneFlushed(env: Env, s: State, e: Entry): State {
    FlushFile(env, Write(env, s, e).0).0
  }

  /** The store is between rounds: nothing in the memtable, `n` flushes and files, and the last entries answer. */
  ghost predicate BetweenRounds(env: Env, s: State, es: seq<Entry>) {
    && LiveInv(env, s) && s.mem == EMPTY && s.flushCount == |s.files| == |es|
    && forall k :: Get(env, s, k) == AsLive(LastFor(es, k))
  }

  lemma OneRound(env: Env, s: State, es: seq<Entry>, e: Entry)
    requires BetweenRounds(env, s, es) && Storable(env, e) && |es| < 10
    ensures FileWritten(env, Write(env, s, e).0) && Write(env, s, e).0.flushCount == |es|
    ensures BetweenRounds(env, OneFlushed(env, s, e), es + [e])
  {
    hide LiveInv, Storable, Frame, Process, FlushFile, FileWritten, Get, MemOk, LastFor, CleanFlush, ClockAhead;
    var s1 := Write(env, s, e).0;
    OneWritten(env, s, e);
    WriteRefines(env, s, e);
    InvMemOk(env, s1);
    CleanRuns.SmallFileNeedsNoGuard(env, s1);
    FlushFileRefines(env, s1);
    ClockOf(env, s1);
    OneFileMore(env, s1, e);
    forall k ensures LastFor(es + [e], k) == if k == e.key then Some(e) else LastFor(es, k) {
      LastOfMore(es, e, k);
    }
  }

  lemma OneWritten(env: Env, s: State, e: Entry)
    requires Storable(env, e) && s.mem == EMPTY
    ensures var s1 := Write(env, s, e).0;
            && s1.mem.inner == map[e.key := e] && |s1.mem.inner| == 1
            && s1.files == s.files && s1.flushCount == s.flushCount
  {
    hide Storable, Frame, EntrySize;
  }

  lemma OneFileMore(env: Env, s: State, e: Entry)
    requires s.mem.inner == map[e.key := e] && Storable(env, e) && s.flushCount < 10
    requires forall ts | ts in s.files :: ts < env.clock(s.tick)
    ensures FileWritten(env, s)
    ensures var s' := FlushFile(env, s).0;
            s'.mem == EMPTY && s'.flushCount == s.flushCount + 1 && |s'.files| == |s.files| + 1
  {
    hide Storable, FlushImage, SortedValues;
    CleanRuns.OneValue(s.mem.inner, e);
    CleanRuns.OneEntryFits(env, e);
    var s' := FlushFile(env, s).0;
    assert s'.files.Keys == s.files.Keys + {env.clock(s.tick)};
    assert |s'.files.Keys| == |s.files.Keys| + 1;
  }

  lemma LastOfMore(es: seq<Entry>, e: Entry, k: Text)
    ensures LastFor(es + [e], k) == if k == e.key then Some(e) else LastFor(es, k)
  {
    assert (es + [e])[..|es|] == es;
  }

  lemma NoRounds(env: Env)
    ensures BetweenRounds(env, Fresh(), [])
  {
    hide Get, MemIsReplay, LiveInv;
    FreshIsEmpty(env);
    InvIsLive(env, Fresh());
  }

  /** Nine of them leave nine files. */
  lemma {:induction false} NineRounds(env: Env, es: seq<Entry>)
    requires AllStorable(env, es) && |es| <= 9
    ensures BetweenRounds(env, Rounds(env, es), es)
    decreases |es|
  {
    hide BetweenRounds, Flush, Write, Rounds, Storable;
    if es == [] {
      NoRounds(env);
      NoneYet(env);
    } else {
      var init, last := es[..|es| - 1], es[|es| - 1];
      assert es == init + [last];
      NineRounds(env, init);
      NextRound(env, init, last);
      RoundWithoutMerge(env, Rounds(env, init), init, last);
    }
  }

  lemma NoneYet(env: Env)
    ensures Rounds(env, []) == Fresh()
  {}

  lemma RoundWithoutMerge(env: Env, s: State, es: seq<Entry>, e: Entry)
    requires BetweenRounds(env, s, es) && Storable(env, e) && |es| < 9
    ensures BetweenRounds(env, Flush(env, Write(env, s, e).0).0, es + [e])
  {
    hide BetweenRounds, Flush, Write, Storable, FileWritten, FlushFile, Compacted, FlushOps, FileOps, CompactOps;
    OneRound(env, s, es, e);
    FlushesAtTen(env, Write(env, s, e).0);
  }

  lemma NextRound(env: Env, es: seq<Entry>, e: Entry)
    ensures Rounds(env, es + [e]) == Flush(env, Write(env, Rounds(env, es), e).0).0
  {
    hide Flush, Write;
    assert (es + [e])[..|es|] == es;
  }

  /** A compaction leaves the files it wrote and no other. */
  lemma OnlyOutputs(env: Env, s: State)
    requires LiveInv(env, s)
    ensures var chunks := OutputChunks(env, s.files);
            && Compacted(env, s).files == OutMap(env, s.tick, Images(env, chunks))
            && |Compacted(env, s).files| == |chunks|
  {
    hide LiveInv, OutputChunks, MergeDone, CompactOps, FilesAfter, Listing, PutsOf, Puts, Removes, OutMap, Images,
         FilesSorted;
    var chunks := OutputChunks(env, s.files);
    var images := Images(env, chunks);
    InvMerges(env, s);
    CompactOpsOf(env, s.files, s.tick);
    PutsAreImages(env, s.tick, chunks);
    StepsLeaveFiles(env, s.files, s.tick, images, Listing(s.files.Keys));
    ClockOf(env, s);
    OutMapKeys(env, s.tick, images);
    OutMapSize(env, s.tick, images);
    NoneLeft(s.files, OutMap(env, s.tick, images), env.clock(s.tick));
  }

  lemma NoneLeft(files: map<nat, bytes>, outs: map<nat, bytes>, t: nat)
    requires (forall ts | ts in files :: ts < t) && (forall ts | ts in outs :: t <= ts)
    ensures (files + outs) - NameSet(Listing(files.Keys)) == outs
  {
    hide Listing;
  }

  lemma {:induction false} OutMapSize(env: Env, tick: nat, datas: seq<bytes>)
    ensures |OutMap(env, tick, datas)| == |datas|
    decreases |datas|
  {
    if datas != [] {
      var n := |datas| - 1;
      var rest := OutMap(env, tick, datas[..n]);
      OutMapSize(env, tick, datas[..n]);
      OutMapKeys(env, tick, datas[..n]);
      assert OutMap(env, tick, datas).Keys == rest.Keys + {env.clock(tick + n)};
      assert |OutMap(env, tick, datas).Keys| == |rest.Keys| + 1;
    }
  }

  /**
   * The tenth compacts: of ten files none is left, and those in their place hold, in one ascending run over
   * all of them, for each key the last entry written if that is a Set, and nothing else.
   */
  lemma TenthFlushMerges(env: Env, es: seq<Entry>)
    requires AllStorable(env, es) && |es| == 10
    ensures var ten := OneFlushed(env, Rounds(env, es[..9]), es[9]);
            var chunks, s := OutputChunks(env, ten.files), Rounds(env, es);
            && |ten.files| == 10 && s.flushCount == 10
            && s.files == OutMap(env, ten.tick, Images(env, chunks)) && |s.files| == |chunks|
            && (forall ts | ts in s.files :: ts !in ten.files)
            && SortedEntries(Flatten(chunks))
            && (forall k :: Find(Flatten(chunks), k) == AsLive(LastFor(es, k)))
  {
    hide *;
    LastRound(env, es);
    Merged(env, OneFlushed(env, Rounds(env, es[..9]), es[9]), es);
  }

  lemma LastRound(env: Env, es: seq<Entry>)
    requires AllStorable(env, es) && |es| == 10
    ensures var ten := OneFlushed(env, Rounds(env, es[..9]), es[9]);
            BetweenRounds(env, ten, es) && Rounds(env, es) == Compacted(env, ten)
  {
    hide BetweenRounds, Write, FileWritten, FlushFile, Storable, Compacted, Flush, FlushOps, FileOps, CompactOps,
         Rounds;
    var init, last := es[..9], es[9];
    assert es == init + [last];
    NineRounds(env, init);
    NextRound(env, init, last);
    OneRound(env, Rounds(env, init), init, last);
    FlushesAtTen(env, Write(env, Rounds(env, init), last).0);
  }

  lemma Merged(env: Env, ten: State, es: seq<Entry>)
    requires BetweenRounds(env, ten, es) && |es| == 10
    ensures var chunks, s := OutputChunks(env, ten.files), Compacted(env, ten);
            && |ten.files| == 10 && s.flushCount == 10
            && s.files == OutMap(env, ten.tick, Images(env, chunks)) && |s.files| == |chunks|
            && (forall ts | ts in s.files :: ts !in ten.files)
            && SortedEntries(Flatten(chunks))
            && (forall k :: Find(Flatten(chunks), k) == AsLive(LastFor(es, k)))
  {
    hide OutputChunks, CompactOps, FilesAfter, LiveInv, Find, LastFor, SortedEntries, OutMap, Images, Get;
    OnlyOutputs(env, ten);
    TenFiles(env, ten);
    forall k ensures Find(Flatten(OutputChunks(env, ten.files)), k) == AsLive(LastFor(es, k)) {
      Answered(env, ten, k);
    }
  }

  lemma TenFiles(env: Env, s: State)
    requires LiveInv(env, s)
    ensures SortedEntries(Flatten(OutputChunks(env, s.files)))
    ensures forall ts | ts in OutMap(env, s.tick, Images(env, OutputChunks(env, s.files))) :: ts !in s.files
  {
    hide LiveInv, OutputChunks, MergeDone, FilesSorted, SortedEntries, OutMap, Images;
    InvMerges(env, s);
    FilesSortedTables(env, s.files);
    MergeOutputShape(env, s.files);
    OutMapKeys(env, s.tick, Images(env, OutputChunks(env, s.files)));
    ClockOf(env, s);
  }

  lemma FilesSortedTables(env: Env, files: map<nat, bytes>)
    requires FilesSorted(env, files)
    ensures TablesOk(env, TablesOf(env, Contents(files)))
  {}

  lemma Answered(env: Env, s: State, k: Text)
    requires LiveInv(env, s) && s.mem == EMPTY
    ensures Find(Flatten(OutputChunks(env, s.files)), k) == Get(env, s, k)
  {
    hide LiveInv, OutputChunks, MergeDone, FilesSorted, SortedEntries, Get, Find, PlainGet, Winner, Contents, TablesOf;
    InvMerges(env, s);
    FilesSortedTables(env, s.files);
    MergeOutputShape(env, s.files);
    PlainGetIsWinner(env, Contents(s.files), k);
    CleanRuns.Agreement(env, s, k);
  }
}
