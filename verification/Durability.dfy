/** A command stopped by a crash: it is lost whole or kept whole, and the store it leaves can go on. */
module Durability {
  import opened Bytes
  import opened Entries
  import opened Header
  import opened Reader
  import opened Disk
  import opened MemTables
  import opened Compaction
  import opened Store
  import opened Refinement
  import opened Runs
  import opened Commands
  import CleanRuns

  function WriteSteps(env: Env, s: State, c: Command): seq<DiskOp> {
    match EntryOf(env, s, c)
    case Some(e) => WriteOps(env, e)
    case None => []
  }

  ghost function FlushSteps(env: Env, s: State, c: Command): seq<DiskOp> {
    if StartsFlush(env, s, c) then FlushOps(env, AfterWrite(env, s, c)) else []
  }

  lemma CommandSteps(env: Env, s: State, c: Command)
    ensures CommandOps(env, s, c) == WriteSteps(env, s, c) + FlushSteps(env, s, c)
    ensures |WriteSteps(env, s, c)| <= 1
    ensures WriteSteps(env, s, c) != [] ==>
              && EntryOf(env, s, c).Some? && Storable(env, EntryOf(env, s, c).value)
              && WriteSteps(env, s, c) == [AppendWal(Frame(env, EntryOf(env, s, c).value))]
    ensures WriteSteps(env, s, c) == [] && EntryOf(env, s, c).Some? ==> !Storable(env, EntryOf(env, s, c).value)
  {
    hide Get, FlushOps, Storable, Frame;
  }

  /** The frame of the command was on disk to the last byte. */
  predicate Survives(env: Env, s: State, c: Command, cut: Cut) {
    match EntryOf(env, s, c)
    case Some(e) => Storable(env, e) && (cut.step >= 1 || (cut.Inside? && cut.count == |Frame(env, e)|))
    case None => false
  }

  /** What a command asks of the files when it is cut: nothing, unless its flush has begun. */
  ghost predicate FileCut(env: Env, s: State, c: Command, cut: Cut)
    requires CutFits(CommandOps(env, s, c), cut)
  {
    CommandSteps(env, s, c);
    var writes, flushes := WriteSteps(env, s, c), FlushSteps(env, s, c);
    |writes| <= cut.step && StartsFlush(env, s, c) ==>
      (CutBehind(writes, flushes, cut);
       CleanFlushCut(env, AfterWrite(env, s, c), Shifted(cut, |writes|)))
  }

  /** The log as the crash leaves it reads back as the memtable, unless it was truncated already. */
  ghost predicate LogCut(env: Env, s: State, c: Command, cut: Cut)
    requires CutFits(CommandOps(env, s, c), cut)
  {
    CommandSteps(env, s, c);
    var writes, flushes := WriteSteps(env, s, c), FlushSteps(env, s, c);
    if cut.step < |writes| then
      CutOfWrites(writes, flushes, cut);
      WriteCutReads(env, s, EntryOf(env, s, c).value, cut)
    else if StartsFlush(env, s, c) then
      FlushCutReads(env, AfterWrite(env, s, c), Shifted(cut, |writes|))
    else MemIsReplay(env, AfterWrite(env, s, c))
  }

  lemma CutOfWrites(writes: seq<DiskOp>, flushes: seq<DiskOp>, cut: Cut)
    requires CutFits(writes + flushes, cut) && cut.step < |writes|
    ensures CutFits(writes, cut)
  {
    assert cut.step < |writes| ==> (writes + flushes)[cut.step] == writes[cut.step];
  }

  lemma InsideWrite(writes: seq<DiskOp>, flushes: seq<DiskOp>, cut: Cut)
    requires CutFits(writes + flushes, cut) && cut.step < |writes| <= 1 && writes[0].AppendWal? && cut != Between(0)
    ensures cut.Inside? && cut.step == 0 && cut.count <= |writes[0].frame|
    ensures StepsBefore(writes + flushes, cut) == [AppendWal(writes[0].frame[..cut.count])]
  {
    assert (writes + flushes)[0] == writes[0];
  }

  /** The plain map after the write. */
  function MapWritten(env: Env, s: State, m: map<Text, Text>, c: Command): map<Text, Text> {
    match EntryOf(env, s, c)
    case Some(e) => if Storable(env, e) then AbstractWrite(m, e) else m
    case None => m
  }

  lemma ApplyIsWrite(env: Env, s: State, m: map<Text, Text>, c: Command)
    requires Refines(env, s, m)
    ensures Apply(env, m, c).state == MapWritten(env, s, m, c)
  {
    hide Get, Storable;
    if c.DeleteKey? {
      assert Get(env, s, c.key) == if c.key in m then Some(Set(c.key, m[c.key])) else None;
    }
  }

  lemma AfterWriteRefines(env: Env, s: State, m: map<Text, Text>, c: Command, crashes: nat)
    requires LiveInv(env, s) && Refines(env, s, m) && Bounded(env, s, crashes) && crashes <= MAX_CRASHES
    ensures var s1 := AfterWrite(env, s, c);
            && LiveInv(env, s1) && Refines(env, s1, MapWritten(env, s, m, c)) && Bounded(env, s1, crashes + 1)
            && ApplyOps(DurableOf(s), WriteSteps(env, s, c)) == DurableOf(s1)
  {
    hide LiveInv, Refines, Bounded, Storable, Frame, Process, AbstractWrite, FlushOps, ApplyOps, Get;
    MoreCrashes(env, s, crashes);
    CommandSteps(env, s, c);
    InvMemOk(env, s);
    NoOps(DurableOf(s));
    match EntryOf(env, s, c) {
      case None =>
      case Some(e) =>
        if Storable(env, e) {
          WriteStepRefines(env, s, e, m);
          GrownMemFits(env, s, e, crashes);
          OpsExplainDisk(env, s, WriteEntry(e));
        } else {
          RefusedWrite(env, s, e);
        }
    }
  }

  lemma MoreCrashes(env: Env, s: State, crashes: nat)
    requires Bounded(env, s, crashes)
    ensures Bounded(env, s, crashes + 1)
  {
    hide TotalSize;
  }

  lemma ExecuteState(env: Env, s: State, c: Command)
    ensures Execute(env, s, c).state ==
              if StartsFlush(env, s, c) then Flush(env, AfterWrite(env, s, c)).0 else AfterWrite(env, s, c)
  {
    hide Get, Flush, Storable, Frame, Process;
  }

  lemma BoundedByMem(env: Env, s: State, s': State, crashes: nat)
    requires Bounded(env, s, crashes) && (s'.mem == s.mem || s'.mem == EMPTY)
    ensures Bounded(env, s', crashes)
  {
    hide TotalSize;
    NothingWeighs(env);
  }

  lemma NothingWeighs(env: Env)
    ensures TotalSize(env, EMPTY.inner) == 0
  {}

  /** Whatever survives of a flush, the memtable is rebuilt as it was, or is empty. */
  lemma FlushCrashMem(env: Env, s: State, cut: Cut, tick: nat)
    requires CutFits(FlushOps(env, s), cut) && FlushCutReads(env, s, cut)
    ensures var s' := CrashState(env, s, FlushOps(env, s), cut, tick); s'.mem == s.mem || s'.mem == EMPTY
  {
    hide FlushOps, StepsBefore, CutFits, ApplyOps, Scan, Replay, FileOps;
    if |FileOps(env, s)| < cut.step {
      EmptyScan(env);
      TruncatedLog(env, s, cut);
    } else {
      CleanRuns.FlushAppendsNothing(env, s);
      CleanRuns.CutAppendsNothing(FlushOps(env, s), cut);
      CleanRuns.StepsWithoutAppend(DurableOf(s), StepsBefore(FlushOps(env, s), cut));
      EmptyScan(env);
    }
  }

  lemma TruncatedLog(env: Env, s: State, cut: Cut)
    requires CutFits(FlushOps(env, s), cut) && |FileOps(env, s)| < cut.step
    ensures ApplyOps(DurableOf(s), StepsBefore(FlushOps(env, s), cut)).wal == []
  {
    hide FlushImage, SortedValues, CompactOps, FileOps, FlushFile, ApplyOps, StepsBefore, CutFits;
    var (s1, ok) := FlushFile(env, s);
    var front := FileOps(env, s) + [TruncateWal];
    var rest := if CompactionDue(s1) then CompactOps(env, s1.files, s1.tick) else [];
    CleanRuns.FlushOpsParts(env, s);
    LateCutSucceeded(env, s, cut);
    SucceededParts(env, s);
    CutBehind(front, rest, cut);
    var late := Shifted(cut, |front|);
    ApplyOpsConcat(DurableOf(s), front, StepsBefore(rest, late));
    TruncateExplainsDisk(env, s);
    RestAppendsNothing(env, s1.files, s1.tick, rest, late);
    CleanRuns.StepsWithoutAppend(DurableOf(s1), StepsBefore(rest, late));
  }

  lemma SucceededParts(env: Env, s: State)
    requires FileWritten(env, s)
    ensures FlushFile(env, s).1 && FlushFile(env, s).0.wal == []
  {
    hide FlushImage, SortedValues;
  }

  lemma RestAppendsNothing(env: Env, files: map<nat, bytes>, tick: nat, rest: seq<DiskOp>, cut: Cut)
    requires CutFits(rest, cut) && (rest == [] || rest == CompactOps(env, files, tick))
    ensures forall op | op in StepsBefore(rest, cut) :: !op.AppendWal?
  {
    hide CompactOps;
    CleanRuns.CompactAppendsNothing(env, files, tick);
    CleanRuns.CutAppendsNothing(rest, cut);
  }

  /** A crash before the write is over: the command is lost, unless its last byte was written. */
  lemma CutInWrite(env: Env, s: State, m: map<Text, Text>, c: Command, cut: Cut, tick: nat, crashes: nat)
    requires LiveInv(env, s) && Refines(env, s, m) && Bounded(env, s, crashes) && crashes <= MAX_CRASHES
    requires CutFits(CommandOps(env, s, c), cut) && LogCut(env, s, c, cut) && s.tick <= tick
    requires cut.step < |WriteSteps(env, s, c)|
    ensures var s' := CrashState(env, s, CommandOps(env, s, c), cut, tick);
            && Inv(env, s') && Bounded(env, s', crashes + 1)
            && Refines(env, s', if Survives(env, s, c, cut) then MapWritten(env, s, m, c) else m)
  {
    hide LiveInv, MemIsReplay, Refines, Bounded, Storable, Frame, Reopen, FlushSteps, EntryOf, WriteSteps, ApplyOps,
         AbstractWrite, SameAnswers, Process, Get, CommandOps, Write;
    CommandSteps(env, s, c);
    MoreCrashes(env, s, crashes);
    InvMemOk(env, s);
    var e := EntryOf(env, s, c).value;
    if cut == Between(0) {
      NothingTaken(env, s, CommandOps(env, s, c), tick);
      ReopenLater(env, s, tick);
      ReopenMem(env, s, tick);
      SameAnswersRefine(env, s, Reopen(env, DurableOf(s), tick), m);
      BoundedByMem(env, s, Reopen(env, DurableOf(s), tick), crashes + 1);
    } else {
      InsideWrite(WriteSteps(env, s, c), FlushSteps(env, s, c), cut);
      var n := cut.count;
      var s' := Reopen(env, Durable(s.wal + Frame(env, e)[..n], s.files), tick);
      AppendTaken(env, s, CommandOps(env, s, c), cut, Frame(env, e)[..n], tick);
      WriteCrashRefines(env, s, e, n, tick);
      if n == |Frame(env, e)| {
        WriteStepRefines(env, s, e, m);
        GrownMemFits(env, s, e, crashes);
        SameAnswersRefine(env, Write(env, s, e).0, s', AbstractWrite(m, e));
        BoundedByMem(env, Write(env, s, e).0, s', crashes + 1);
      } else {
        SameAnswersRefine(env, s, s', m);
        BoundedByMem(env, s, s', crashes + 1);
      }
    }
  }

  lemma NothingTaken(env: Env, s: State, ops: seq<DiskOp>, tick: nat)
    ensures CutFits(ops, Between(0)) && CrashState(env, s, ops, Between(0), tick) == Reopen(env, DurableOf(s), tick)
  {
    hide Reopen;
    assert ops[..0] == [];
  }

  lemma AppendTaken(env: Env, s: State, ops: seq<DiskOp>, cut: Cut, part: bytes, tick: nat)
    requires CutFits(ops, cut) && StepsBefore(ops, cut) == [AppendWal(part)]
    ensures CrashState(env, s, ops, cut, tick) == Reopen(env, Durable(s.wal + part, s.files), tick)
  {
    hide Reopen, StepsBefore, CutFits;
    ApplyOpsSnoc(DurableOf(s), [], AppendWal(part));
    assert [] + [AppendWal(part)] == [AppendWal(part)];
  }

  lemma ReopenMem(env: Env, s: State, tick: nat)
    requires MemIsReplay(env, s)
    ensures Reopen(env, DurableOf(s), tick).mem == s.mem
  {
    hide Scan, Replay;
  }

  /** A crash behind the write, between it and the flush or in the flush: the command is kept. */
  lemma CutInFlush(env: Env, s: State, m: map<Text, Text>, c: Command, cut: Cut, tick: nat, crashes: nat)
    requires LiveInv(env, s) && Refines(env, s, m) && Bounded(env, s, crashes) && crashes <= MAX_CRASHES
    requires CutFits(CommandOps(env, s, c), cut) && LogCut(env, s, c, cut) && FileCut(env, s, c, cut)
    requires s.tick <= tick && Execute(env, s, c).state.tick <= tick
    requires |WriteSteps(env, s, c)| <= cut.step
    ensures var s' := CrashState(env, s, CommandOps(env, s, c), cut, tick);
            Inv(env, s') && Bounded(env, s', crashes + 1) && Refines(env, s', MapWritten(env, s, m, c))
  {
    hide LiveInv, MemIsReplay, Refines, Bounded, Storable, Frame, Reopen, EntryOf, WriteSteps, ApplyOps, SameAnswers,
         Process, Get, FlushOps, CommandOps, CleanFlushCut, FlushCutReads, MapWritten, AfterWrite, Execute, StartsFlush,
         StepsBefore, Flush;
    CommandSteps(env, s, c);
    var writes, flushes := WriteSteps(env, s, c), FlushSteps(env, s, c);
    var s1, late := AfterWrite(env, s, c), Shifted(cut, |writes|);
    CutBehind(writes, flushes, cut);
    AfterWriteRefines(env, s, m, c, crashes);
    ApplyOpsConcat(DurableOf(s), writes, StepsBefore(flushes, late));
    ExecuteState(env, s, c);
    var s' := CrashState(env, s1, flushes, late, tick);
    if StartsFlush(env, s, c) {
      FlushCrashRefines(env, s1, late, tick);
      FlushCrashMem(env, s1, late, tick);
    } else {
      EmptySteps(late);
      NothingTaken(env, s1, flushes, tick);
      ReopenLater(env, s1, tick);
      ReopenMem(env, s1, tick);
    }
    SameAnswersRefine(env, s1, s', MapWritten(env, s, m, c));
    BoundedByMem(env, s1, s', crashes + 1);
  }

  lemma EmptySteps(cut: Cut)
    requires CutFits([], cut)
    ensures cut == Between(0)
  {}

  lemma SurvivesBehind(env: Env, s: State, m: map<Text, Text>, c: Command, cut: Cut)
    requires |WriteSteps(env, s, c)| <= cut.step
    ensures MapWritten(env, s, m, c) == if Survives(env, s, c, cut) then MapWritten(env, s, m, c) else m
  {
    hide Storable, Frame, Get, AbstractWrite;
  }

  /**
   * A crash at any step and any byte of a command, and a reopen that reads the log back as `LogCut` asks:
   * the store answers as the plain map with the whole command, exactly if its frame was complete, or
   * without it. The memtable may be one entry further over its threshold.
   */
  lemma CommandCrash(env: Env, s: State, m: map<Text, Text>, c: Command, cut: Cut, tick: nat, crashes: nat)
    requires LiveInv(env, s) && Refines(env, s, m) && Bounded(env, s, crashes) && crashes <= MAX_CRASHES
    requires CutFits(CommandOps(env, s, c), cut) && LogCut(env, s, c, cut) && FileCut(env, s, c, cut)
    requires s.tick <= tick && Execute(env, s, c).state.tick <= tick
    ensures var s' := CrashState(env, s, CommandOps(env, s, c), cut, tick);
            && Inv(env, s') && Bounded(env, s', crashes + 1)
            && Refines(env, s', if Survives(env, s, c, cut) then Apply(env, m, c).state else m)
  {
    hide *;
    ApplyIsWrite(env, s, m, c);
    if cut.step < |WriteSteps(env, s, c)| {
      CutInWrite(env, s, m, c, cut, tick, crashes);
    } else {
      CutInFlush(env, s, m, c, cut, tick, crashes);
      SurvivesBehind(env, s, m, c, cut);
    }
  }
}
