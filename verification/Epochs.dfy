/** Crashes under many connections: what is answered after each restart, and which replies can be lost. */
module Epochs {
  import opened Bytes
  import opened Entries
  import opened Header
  import opened Reader
  import opened Recovery
  import opened Disk
  import opened MemTables
  import opened Store
  import opened Commands
  import opened Clients
  import opened Durability
  import Runs

  /** One life of the server: its connections, what their threads did, and where the crash fell. */
  datatype Epoch = Epoch(clients: nat, steps: seq<Step>, cut: Runs.Cut, tick: nat)

  /** The command whose durable steps the crash may fall into: that of the lock's holder, once it has spoken. */
  predicate IsRunning(y: System) {
    y.lock.Some? && y.lock.value < |y.phases| && y.phases[y.lock.value].Spoken?
  }

  function Running(y: System): Command
    requires IsRunning(y)
  {
    y.phases[y.lock.value].cmd
  }

  /** The state a crash of `y` at `cut` leaves after the reopen. */
  ghost function Restarted(env: Env, y: System, cut: Runs.Cut, tick: nat): State
    requires IsRunning(y) ==> Runs.CutFits(CommandOps(env, y.store, Running(y)), cut)
  {
    if IsRunning(y) then Runs.CrashState(env, y.store, CommandOps(env, y.store, Running(y)), cut, tick)
    else Reopen(env, DurableOf(y.store), tick)
  }

  /** The plain map after the commands that survive: all that ran, and the running one if its frame was complete. */
  function MapRestarted(env: Env, m: map<Text, Text>, y: System, cut: Runs.Cut): map<Text, Text> {
    if IsRunning(y) && Survives(env, y.store, Running(y), cut)
    then Apply(env, MapAfter(env, m, y.log), Running(y)).state
    else MapAfter(env, m, y.log)
  }

  /** The crash falls among the steps of the running command, and the clock goes on. */
  ghost predicate CrashPossible(env: Env, y: System, cut: Runs.Cut, tick: nat) {
    && y.store.tick <= tick
    && (IsRunning(y) ==>
          && Runs.CutFits(CommandOps(env, y.store, Running(y)), cut)
          && Execute(env, y.store, Running(y)).state.tick <= tick)
  }

  /** What the restart asks of the log: that it reads back as the memtable, unless it was truncated. */
  ghost predicate LogFits(env: Env, y: System, cut: Runs.Cut, tick: nat)
    requires CrashPossible(env, y, cut, tick)
  {
    if IsRunning(y) then LogCut(env, y.store, Running(y), cut) else MemIsReplay(env, y.store)
  }

  /** What it asks of the files. */
  ghost predicate FilesFit(env: Env, y: System, cut: Runs.Cut, tick: nat)
    requires CrashPossible(env, y, cut, tick)
  {
    IsRunning(y) ==> FileCut(env, y.store, Running(y), cut)
  }

  ghost predicate CrashFits(env: Env, y: System, cut: Runs.Cut, tick: nat) {
    CrashPossible(env, y, cut, tick) && LogFits(env, y, cut, tick) && FilesFit(env, y, cut, tick)
  }

  /**
   * After a crash and a restart the store answers as the plain map of exactly the commands that ran, and
   * the running one if its frame was complete.
   */
  lemma CrashKeepsCommands(env: Env, m: map<Text, Text>, y: System, cut: Runs.Cut, tick: nat, crashes: nat)
    requires StoreOk(env, m, y, crashes) && crashes <= MAX_CRASHES && CrashFits(env, y, cut, tick)
    ensures var s := Restarted(env, y, cut, tick);
            Inv(env, s) && Bounded(env, s, crashes + 1) && Refines(env, s, MapRestarted(env, m, y, cut))
  {
    hide LiveInv, MemIsReplay, Refines, Bounded, Sequential, MapAfter, Apply, Execute, LogCut, FileCut, CommandOps,
         Survives, Runs.CrashState, Reopen, Runs.CutFits;
    var map0 := MapAfter(env, m, y.log);
    if IsRunning(y) {
      CommandCrash(env, y.store, map0, Running(y), cut, tick, crashes);
    } else {
      Runs.ReopenLater(env, y.store, tick);
      Runs.SameAnswersRefine(env, y.store, Reopen(env, DurableOf(y.store), tick), map0);
      ReopenMem(env, y.store, tick);
      MoreCrashes(env, y.store, crashes);
      BoundedByMem(env, y.store, Reopen(env, DurableOf(y.store), tick), crashes + 1);
    }
  }

  // ----- One epoch after the other -----

  ghost predicate EpochFits(env: Env, store: State, e: Epoch) {
    && Steps(env, Start(store, e.clients), e.steps)
    && CleanSteps(env, Start(store, e.clients), e.steps)
    && CrashFits(env, Last(env, Start(store, e.clients), e.steps), e.cut, e.tick)
  }

  ghost function StoreAfter(env: Env, store: State, e: Epoch): State
    requires EpochFits(env, store, e)
  {
    Restarted(env, Last(env, Start(store, e.clients), e.steps), e.cut, e.tick)
  }

  ghost function MapAfterEpoch(env: Env, m: map<Text, Text>, store: State, e: Epoch): map<Text, Text>
    requires EpochFits(env, store, e)
  {
    MapRestarted(env, m, Last(env, Start(store, e.clients), e.steps), e.cut)
  }

  ghost predicate EpochsFit(env: Env, store: State, epochs: seq<Epoch>)
    decreases |epochs|
  {
    epochs != [] ==>
      EpochFits(env, store, epochs[0]) && EpochsFit(env, StoreAfter(env, store, epochs[0]), epochs[1..])
  }

  ghost function StoreAtEnd(env: Env, store: State, epochs: seq<Epoch>): State
    requires EpochsFit(env, store, epochs)
    decreases |epochs|
  {
    if epochs == [] then store else StoreAtEnd(env, StoreAfter(env, store, epochs[0]), epochs[1..])
  }

  ghost function MapAtEnd(env: Env, m: map<Text, Text>, store: State, epochs: seq<Epoch>): map<Text, Text>
    requires EpochsFit(env, store, epochs)
    decreases |epochs|
  {
    if epochs == [] then m
    else MapAtEnd(env, MapAfterEpoch(env, m, store, epochs[0]), StoreAfter(env, store, epochs[0]), epochs[1..])
  }

  lemma EpochRefines(env: Env, store: State, m: map<Text, Text>, e: Epoch, crashes: nat)
    requires LiveInv(env, store) && Bounded(env, store, crashes) && crashes <= MAX_CRASHES && Refines(env, store, m)
    requires EpochFits(env, store, e)
    ensures var y := Last(env, Start(store, e.clients), e.steps);
            StoreOk(env, m, y, crashes) && ThreadsOk(env, y)
    ensures var s := StoreAfter(env, store, e);
            && Inv(env, s) && Bounded(env, s, crashes + 1)
            && Refines(env, s, MapAfterEpoch(env, m, store, e))
  {
    hide LiveInv, MemIsReplay, Refines, Bounded, StoreOk, ThreadsOk, Steps, CleanSteps, CrashFits, Last, Restarted,
         MapRestarted, Start;
    var y0 := Start(store, e.clients);
    StartOk(env, store, m, e.clients, crashes);
    StoreThroughout(env, m, y0, e.steps, crashes);
    ThreadsThroughout(env, y0, e.steps);
    CrashKeepsCommands(env, m, Last(env, y0, e.steps), e.cut, e.tick, crashes);
  }

  /** Each life is one sequential run of the plain map, with its replies, from where the one before left it. */
  ghost predicate Linear(env: Env, m: map<Text, Text>, y: System) {
    Sequential(env, m, y.log) && Delivered(y) && RealTime(y) && Ordered(y.log, y.time) && Sessions(y)
  }

  ghost predicate AllLinear(env: Env, m: map<Text, Text>, store: State, epochs: seq<Epoch>)
    requires EpochsFit(env, store, epochs)
    decreases |epochs|
  {
    epochs != [] ==>
      && Linear(env, m, Last(env, Start(store, epochs[0].clients), epochs[0].steps))
      && AllLinear(env, MapAfterEpoch(env, m, store, epochs[0]), StoreAfter(env, store, epochs[0]), epochs[1..])
  }

  lemma IsLinear(env: Env, m: map<Text, Text>, y: System, crashes: nat)
    requires StoreOk(env, m, y, crashes) && ThreadsOk(env, y)
    ensures Linear(env, m, y)
  {
    hide LiveInv, Bounded, Refines, Sequential, Delivered, RealTime, Ordered, Exclusive, PhasesOk, BuffersOk, SpokenOk;
  }

  /**
   * Durable linearizability: through any sequence of lives of the server, each with any interleaving of its
   * clients, and each ended by a crash that finds log and files as it asks, the commands of each life are
   * one sequential run with the replies the clients got, from the map of the commands that survived the
   * lives before; and the store answers as the map of those that survive.
   */
  lemma {:induction false} DurablyLinearizable(env: Env, store: State, m: map<Text, Text>, epochs: seq<Epoch>,
                                               crashes: nat)
    requires LiveInv(env, store) && Bounded(env, store, crashes) && Refines(env, store, m)
    requires crashes + |epochs| <= MAX_CRASHES && EpochsFit(env, store, epochs)
    ensures AllLinear(env, m, store, epochs)
    ensures var s := StoreAtEnd(env, store, epochs);
            && LiveInv(env, s) && Bounded(env, s, crashes + |epochs|)
            && Refines(env, s, MapAtEnd(env, m, store, epochs))
    decreases |epochs|
  {
    hide LiveInv, MemIsReplay, Refines, Bounded, EpochFits, StoreAfter, MapAfterEpoch, Linear, Steps, Last, Start;
    if epochs != [] {
      var e := epochs[0];
      EpochRefines(env, store, m, e, crashes);
      EpochIsLinear(env, store, m, e, crashes);
      DurablyLinearizable(env, StoreAfter(env, store, e), MapAfterEpoch(env, m, store, e), epochs[1..], crashes + 1);
    }
  }

  lemma EpochIsLinear(env: Env, store: State, m: map<Text, Text>, e: Epoch, crashes: nat)
    requires LiveInv(env, store) && Bounded(env, store, crashes) && crashes <= MAX_CRASHES && Refines(env, store, m)
    requires EpochFits(env, store, e)
    ensures Steps(env, Start(store, e.clients), e.steps)
    ensures Linear(env, m, Last(env, Start(store, e.clients), e.steps))
  {
    hide LiveInv, Refines, Bounded, StoreOk, ThreadsOk, Steps, CleanSteps, CrashFits, Last, Start, Linear;
    EpochRefines(env, store, m, e, crashes);
    IsLinear(env, m, Last(env, Start(store, e.clients), e.steps), crashes);
  }

  // ----- Lives that ask nothing of the log -----

  /** The crash falls into no append, or behind its last byte. */
  ghost predicate WholeCut(env: Env, y: System, cut: Runs.Cut) {
    IsRunning(y) && cut.Inside? && cut.step < |WriteSteps(env, y.store, Running(y))| ==>
      WriteSteps(env, y.store, Running(y))[0].AppendWal?
      && cut.count == |WriteSteps(env, y.store, Running(y))[0].frame|
  }

  /** A crash that tears no append asks nothing of a log of frames, and leaves one. */
  lemma WholeCutAsksNothing(env: Env, y: System, cut: Runs.Cut, tick: nat)
    requires LogOk(env, y.store) && CrashPossible(env, y, cut, tick) && WholeCut(env, y, cut)
    ensures LogFits(env, y, cut, tick) && LogOk(env, Restarted(env, y, cut, tick))
  {
    hide HoldsFrames, MemIsReplay, LogCut, Execute, CommandOps, Reopen, Runs.CutFits, WriteSteps, Runs.CrashState;
    if IsRunning(y) {
      var s, c := y.store, Running(y);
      CommandSteps(env, s, c);
      if cut.step < |WriteSteps(env, s, c)| {
        WholeWriteCut(env, s, c, cut, tick);
      } else {
        LateCut(env, s, c, cut, tick);
      }
    } else {
      ReopenKeepsLogOk(env, y.store, tick);
    }
  }

  lemma ReopenKeepsLogOk(env: Env, s: State, tick: nat)
    requires LogOk(env, s)
    ensures LogOk(env, Reopen(env, DurableOf(s), tick))
  {
    hide HoldsFrames, Scan, Replay;
  }

  lemma WholeWriteCut(env: Env, s: State, c: Command, cut: Runs.Cut, tick: nat)
    requires LogOk(env, s) && Runs.CutFits(CommandOps(env, s, c), cut) && cut.step < |WriteSteps(env, s, c)|
    requires cut.Inside? ==>
               WriteSteps(env, s, c)[0].AppendWal? && cut.count == |WriteSteps(env, s, c)[0].frame|
    ensures LogCut(env, s, c, cut) && LogOk(env, Runs.CrashState(env, s, CommandOps(env, s, c), cut, tick))
  {
    hide LogOk, MemIsReplay, CommandOps, Reopen, WriteSteps, FlushSteps, EntryOf, Frame, Storable, Write,
         Runs.CrashState;
    CommandSteps(env, s, c);
    LogOkParts(env, s);
    var e := EntryOf(env, s, c).value;
    if cut == Runs.Between(0) {
      NothingTaken(env, s, CommandOps(env, s, c), tick);
      ReopenKeepsLogOk(env, s, tick);
    } else {
      InsideWrite(WriteSteps(env, s, c), FlushSteps(env, s, c), cut);
      var f := Frame(env, e);
      assert f[..|f|] == f;
      AppendTaken(env, s, CommandOps(env, s, c), cut, f, tick);
      WriteKeepsLogOk(env, s, e);
      var s1 := Write(env, s, e).0;
      LogOkParts(env, s1);
      WrittenWal(env, s, e);
      ReopenKeepsLogOk(env, s1, tick);
    }
  }

  lemma LogOkParts(env: Env, s: State)
    requires LogOk(env, s)
    ensures MemIsReplay(env, s) && HoldsFrames(env, s.wal)
  {}

  lemma WrittenWal(env: Env, s: State, e: Entry)
    requires Storable(env, e)
    ensures DurableOf(Write(env, s, e).0) == Durable(s.wal + Frame(env, e), s.files)
  {
    hide Frame, Storable, Process;
  }

  lemma LateCut(env: Env, s: State, c: Command, cut: Runs.Cut, tick: nat)
    requires LogOk(env, s) && Runs.CutFits(CommandOps(env, s, c), cut) && |WriteSteps(env, s, c)| <= cut.step
    ensures LogCut(env, s, c, cut) && LogOk(env, Runs.CrashState(env, s, CommandOps(env, s, c), cut, tick))
  {
    hide HoldsFrames, MemIsReplay, CommandOps, Reopen, WriteSteps, EntryOf, Frame, Storable, Write, FlushOps, ApplyOps,
         StartsFlush, AfterWrite, Runs.StepsBefore, Runs.CutFits;
    CommandSteps(env, s, c);
    var writes, flushes := WriteSteps(env, s, c), FlushSteps(env, s, c);
    var s1, late := AfterWrite(env, s, c), Runs.Shifted(cut, |writes|);
    Runs.CutBehind(writes, flushes, cut);
    AfterWriteLog(env, s, c);
    ApplyOpsConcat(DurableOf(s), writes, Runs.StepsBefore(flushes, late));
    FlushStepsAppendNothing(env, s, c);
    CleanRuns.CutAppendsNothing(flushes, late);
    CleanRuns.StepsWithoutAppend(DurableOf(s1), Runs.StepsBefore(flushes, late));
    NoFrames(env);
    Runs.ReopenReadsLog(env, ApplyOps(DurableOf(s1), Runs.StepsBefore(flushes, late)), tick);
    ReopenWal(env, ApplyOps(DurableOf(s1), Runs.StepsBefore(flushes, late)), tick);
  }

  lemma ReopenWal(env: Env, d: Durable, tick: nat)
    ensures Reopen(env, d, tick).wal == d.wal
  {
    hide Scan, Replay;
  }

  lemma FlushStepsAppendNothing(env: Env, s: State, c: Command)
    ensures forall op | op in FlushSteps(env, s, c) :: !op.AppendWal?
  {
    hide FlushOps, StartsFlush, AfterWrite;
    CleanRuns.FlushAppendsNothing(env, AfterWrite(env, s, c));
  }

  lemma AfterWriteLog(env: Env, s: State, c: Command)
    requires LogOk(env, s)
    ensures LogOk(env, AfterWrite(env, s, c))
    ensures ApplyOps(DurableOf(s), WriteSteps(env, s, c)) == DurableOf(AfterWrite(env, s, c))
  {
    hide LogOk, Storable, Frame, Write, Get, ApplyOps, FlushOps;
    CommandSteps(env, s, c);
    Runs.NoOps(DurableOf(s));
    if EntryOf(env, s, c).Some? {
      var e := EntryOf(env, s, c).value;
      WriteSucceeds(env, s, e);
      if Storable(env, e) {
        WriteKeepsLogOk(env, s, e);
        WrittenWal(env, s, e);
        Runs.OneAppend(DurableOf(s), Frame(env, e));
      }
    }
  }

  /** Lives of which each asks of the files what it must, and no crash tears an append. */
  ghost predicate UntornEpochs(env: Env, store: State, epochs: seq<Epoch>)
    decreases |epochs|
  {
    epochs != [] ==>
      var e := epochs[0];
      && Steps(env, Start(store, e.clients), e.steps) && CleanSteps(env, Start(store, e.clients), e.steps)
      && var y := Last(env, Start(store, e.clients), e.steps);
         && CrashPossible(env, y, e.cut, e.tick) && FilesFit(env, y, e.cut, e.tick) && WholeCut(env, y, e.cut)
         && UntornEpochs(env, Restarted(env, y, e.cut, e.tick), epochs[1..])
  }

  /** From a log of frames, through any such lives, nothing is asked of the log. */
  lemma {:induction false} UntornEpochsFit(env: Env, store: State, epochs: seq<Epoch>)
    requires LogOk(env, store) && UntornEpochs(env, store, epochs)
    ensures EpochsFit(env, store, epochs) && LogOk(env, StoreAtEnd(env, store, epochs))
    decreases |epochs|
  {
    hide LogOk, Steps, CleanSteps, CrashPossible, LogFits, FilesFit, WholeCut, Restarted, Last, Start;
    if epochs != [] {
      var e := epochs[0];
      var y0 := Start(store, e.clients);
      StartHasStore(store, e.clients);
      LogThroughout(env, y0, e.steps);
      WholeCutAsksNothing(env, Last(env, y0, e.steps), e.cut, e.tick);
      UntornEpochsFit(env, StoreAfter(env, store, e), epochs[1..]);
    }
  }

  lemma StartHasStore(store: State, n: nat)
    ensures Start(store, n).store == store
  {}

  // ----- Which replies hold after the restart -----

  /** A store answers as one map at most. */
  lemma OneMap(env: Env, s: State, a: map<Text, Text>, b: map<Text, Text>)
    requires Refines(env, s, a) && Refines(env, s, b)
    ensures a == b
  {
    hide Get;
    forall k ensures (k in a <==> k in b) && (k in a ==> a[k] == b[k]) {
      assert Get(env, s, k) == if k in a then Some(Set(k, a[k])) else None;
      assert Get(env, s, k) == if k in b then Some(Set(k, b[k])) else None;
    }
  }

  /**
   * A reply a client got in this life is that of a command that ran, which the restarted store still
   * answers by, or that of the running command; and that one is honoured exactly if its frame was complete
   * or it changes nothing.
   */
  lemma RepliesAfterRestart(env: Env, store: State, m: map<Text, Text>, e: Epoch, crashes: nat)
    requires LiveInv(env, store) && Bounded(env, store, crashes) && crashes <= MAX_CRASHES && Refines(env, store, m)
    requires EpochFits(env, store, e)
    ensures var y := Last(env, Start(store, e.clients), e.steps);
            var ran, s := MapAfter(env, m, y.log), StoreAfter(env, store, e);
            && (forall i | 0 <= i < |y.sent| ::
                  y.sent[i].index < |y.log| || (IsRunning(y) && y.lock == Some(y.sent[i].conn)))
            && (!IsRunning(y) ==> Refines(env, s, ran))
            && (IsRunning(y) ==>
                  var done := Apply(env, ran, Running(y)).state;
                  && (Refines(env, s, done) <==> Survives(env, y.store, Running(y), e.cut) || done == ran)
                  && (Refines(env, s, done) || Refines(env, s, ran)))
  {
    hide LiveInv, MemIsReplay, Refines, Bounded, StoreOk, ThreadsOk, Steps, CleanSteps, CrashFits, Last, Start,
         Restarted, MapAfter, Apply, Survives;
    EpochRefines(env, store, m, e, crashes);
    var y := Last(env, Start(store, e.clients), e.steps);
    EarlyReplies(env, y);
    if IsRunning(y) {
      var ran, s := MapAfter(env, m, y.log), StoreAfter(env, store, e);
      var done := Apply(env, ran, Running(y)).state;
      if Refines(env, s, done) && Refines(env, s, ran) {
        OneMap(env, s, done, ran);
      }
    }
  }

  /** Only the command that has spoken and not yet run can have been answered ahead of its place. */
  lemma EarlyReplies(env: Env, y: System)
    requires ThreadsOk(env, y)
    ensures forall i | 0 <= i < |y.sent| ::
              y.sent[i].index < |y.log| || (IsRunning(y) && y.lock == Some(y.sent[i].conn))
  {
    hide Execute, Ordered, RealTime, PhasesOk, BuffersOk;
    forall i | 0 <= i < |y.sent|
      ensures y.sent[i].index < |y.log| || (IsRunning(y) && y.lock == Some(y.sent[i].conn))
    {
      assert Answers(y, y.sent[i]);
    }
  }

  /** The case of a Set: after the restart the key has the value the client was shown exactly then. */
  lemma SetAfterRestart(env: Env, store: State, m: map<Text, Text>, e: Epoch, crashes: nat, k: Text, v: Text)
    requires LiveInv(env, store) && Bounded(env, store, crashes) && crashes <= MAX_CRASHES && Refines(env, store, m)
    requires EpochFits(env, store, e)
    requires var y := Last(env, Start(store, e.clients), e.steps); IsRunning(y) && Running(y) == SetKey(k, v)
    ensures var y := Last(env, Start(store, e.clients), e.steps);
            var ran := MapAfter(env, m, y.log);
            Get(env, StoreAfter(env, store, e), k) == Some(Set(k, v)) <==>
              Survives(env, y.store, SetKey(k, v), e.cut) || (k in ran && ran[k] == v)
  {
    hide LiveInv, MemIsReplay, Bounded, StoreOk, ThreadsOk, Steps, CleanSteps, CrashFits, Last, Start, Restarted,
         MapAfter, Get, Storable, Frame;
    EpochRefines(env, store, m, e, crashes);
  }

  // ----- An answer that is lost -----

  /** The client asks for a Set, and its reply leaves the buffer before the log is written. */
  function EarlyReply(k: Text, v: Text): seq<Step> {
    [Receive(0, SetKey(k, v)), Lock(0), Speak(0), Send(0)]
  }

  ghost function AfterReply(k: Text, v: Text): System {
    System(Runs.Fresh(), Some(0), [Spoken(SetKey(k, v), 0, Some(Shown(k, v)), true)], 4, [],
           [Sent(0, 0, Some(Shown(k, v)), 3)])
  }

  lemma SetReply(env: Env, k: Text, v: Text)
    ensures Execute(env, Runs.Fresh(), SetKey(k, v)).reply == Some(Shown(k, v))
  {
    ReplyKept(env, Runs.Fresh(), Set(k, v), Shown(k, v));
  }

  lemma EarlyReplyRuns(env: Env, k: Text, v: Text)
    ensures Steps(env, Start(Runs.Fresh(), 1), EarlyReply(k, v))
    ensures CleanSteps(env, Start(Runs.Fresh(), 1), EarlyReply(k, v))
    ensures Last(env, Start(Runs.Fresh(), 1), EarlyReply(k, v)) == AfterReply(k, v)
  {
    hide Execute, FilesAsk, Steps, CleanSteps, Last;
    SetReply(env, k, v);
    var set0 := SetKey(k, v);
    var y0 := Start(Runs.Fresh(), 1);
    var y1 := Clients.Next(env, y0, Receive(0, set0));
    assert y0.phases == [Reading] && y1.phases == [Waiting(set0, 0)];
    var y2 := Clients.Next(env, y1, Lock(0));
    assert y2.phases == [Holding(set0, 0)];
    var y3 := Clients.Next(env, y2, Speak(0));
    assert y3.phases == [Spoken(set0, 0, Some(Shown(k, v)), false)];
    var y4 := Clients.Next(env, y3, Send(0));
    assert y4 == AfterReply(k, v);
    FourSteps(env, y0, Receive(0, set0), Lock(0), Speak(0), Send(0));
  }

  lemma FourSteps(env: Env, y0: System, a: Step, b: Step, c: Step, d: Step)
    requires Enabled(y0, a) && !a.Run? && !b.Run? && !c.Run? && !d.Run?
    requires var y1 := Clients.Next(env, y0, a); Enabled(y1, b)
    requires var y2 := Clients.Next(env, Clients.Next(env, y0, a), b); Enabled(y2, c)
    requires var y3 := Clients.Next(env, Clients.Next(env, Clients.Next(env, y0, a), b), c); Enabled(y3, d)
    ensures Steps(env, y0, [a, b, c, d]) && CleanSteps(env, y0, [a, b, c, d])
    ensures Last(env, y0, [a, b, c, d])
         == Clients.Next(env, Clients.Next(env, Clients.Next(env, Clients.Next(env, y0, a), b), c), d)
  {
    hide *;
    var y1 := Clients.Next(env, y0, a);
    var y2 := Clients.Next(env, y1, b);
    var y3 := Clients.Next(env, y2, c);
    NoStep(env, Clients.Next(env, y3, d));
    OneStep(env, y3, d, []);
    assert [d] + [] == [d];
    OneStep(env, y2, c, [d]);
    assert [c] + [d] == [c, d];
    OneStep(env, y1, b, [c, d]);
    assert [b] + [c, d] == [b, c, d];
    OneStep(env, y0, a, [b, c, d]);
    assert [a] + [b, c, d] == [a, b, c, d];
  }

  lemma NoStep(env: Env, y: System)
    ensures Steps(env, y, []) && CleanSteps(env, y, []) && Last(env, y, []) == y
  {}

  lemma OneStep(env: Env, y: System, step: Step, rest: seq<Step>)
    requires Enabled(y, step) && !step.Run?
    requires Steps(env, Clients.Next(env, y, step), rest) && CleanSteps(env, Clients.Next(env, y, step), rest)
    ensures Steps(env, y, [step] + rest) && CleanSteps(env, y, [step] + rest)
    ensures Last(env, y, [step] + rest) == Last(env, Clients.Next(env, y, step), rest)
  {
    hide Clients.Next, Enabled;
    assert ([step] + rest)[1..] == rest;
  }

  /**
   * The acknowledgement of the running command can be lost: the client has read "k => v", the crash comes
   * before the first byte of the log, and after the restart the key is not there.
   */
  lemma AcknowledgedSetLost(env: Env, k: Text, v: Text, tick: nat)
    requires Storable(env, Set(k, v))
    requires Execute(env, Runs.Fresh(), SetKey(k, v)).state.tick <= tick
    ensures var e := Epoch(1, EarlyReply(k, v), Runs.Between(0), tick);
            && EpochFits(env, Runs.Fresh(), e)
            && Last(env, Start(Runs.Fresh(), 1), e.steps).sent == [Sent(0, 0, Some(Shown(k, v)), 3)]
            && Get(env, StoreAfter(env, Runs.Fresh(), e), k) == None
  {
    hide Storable, Execute, Steps, CleanSteps, Last, Start, EarlyReply, LiveInv, MemIsReplay, CommandOps, Get, Reopen,
         Runs.CrashState;
    var e := Epoch(1, EarlyReply(k, v), Runs.Between(0), tick);
    EarlyReplyRuns(env, k, v);
    var y := AfterReply(k, v);
    NothingTaken(env, Runs.Fresh(), CommandOps(env, Runs.Fresh(), SetKey(k, v)), tick);
    Runs.FreshIsEmpty(env);
    CutBeforeWrite(env, Runs.Fresh(), SetKey(k, v));
    Runs.ReopenLater(env, Runs.Fresh(), tick);
  }

  lemma CutBeforeWrite(env: Env, s: State, c: Command)
    requires EntryOf(env, s, c).Some? && Storable(env, EntryOf(env, s, c).value) && MemIsReplay(env, s)
    requires Runs.CutFits(CommandOps(env, s, c), Runs.Between(0))
    ensures LogCut(env, s, c, Runs.Between(0)) && FileCut(env, s, c, Runs.Between(0))
  {
    hide Storable, CommandOps, EntryOf, Frame, MemIsReplay;
    CommandSteps(env, s, c);
  }
}
