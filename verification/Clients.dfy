/** Many connections sharing one store behind a lock: every interleaving is one sequential run. */
module Clients {
  import opened Bytes
  import opened Entries
  import opened Header
  import opened Recovery
  import opened Disk
  import opened MemTables
  import opened Store
  import opened Refinement
  import opened Commands
  import Runs
  import CleanRuns

  /**
   * Where a connection's thread is in its loop. `since` is when the command was read. From `Spoken` on the
   * reply is in the write buffer; `told` says that it has left it, as a long reply may, and a line on
   * standard output does, before the log is written. A failed command ends the connection, and dropping the
   * buffer still sends what is in it.
   */
  datatype Phase =
    | Reading
    | Waiting(cmd: Command, since: nat)
    | Holding(cmd: Command, since: nat)
    | Spoken(cmd: Command, since: nat, reply: Option<Reply>, told: bool)
    | Ran(index: nat, told: bool)
    | Replying(index: nat, told: bool)
    | Closing(index: nat, told: bool)
    | Closed

  /** A command that ran: when its line was read, when it ran, and what it answered. */
  datatype Done = Done(conn: nat, cmd: Command, reply: Option<Reply>, ok: bool, invoked: nat, executed: nat)

  /** A reply that reached its client. `index` is the place of its command in lock order. */
  datatype Sent = Sent(conn: nat, index: nat, reply: Option<Reply>, at: nat)

  datatype System =
    System(store: State, lock: Option<nat>, phases: seq<Phase>, time: nat, log: seq<Done>, sent: seq<Sent>)

  datatype Step =
    | Receive(conn: nat, cmd: Command)
    | Leave(conn: nat)
    | Lock(conn: nat)
    | Speak(conn: nat)
    | Run(conn: nat)
    | Unlock(conn: nat)
    | Send(conn: nat)
    | Continue(conn: nat)
    | HangUp(conn: nat)

  /** Any thread may move whenever its own phase allows it; only the lock makes one wait for another. */
  predicate Enabled(y: System, step: Step) {
    && step.conn < |y.phases|
    && var p := y.phases[step.conn];
       match step
       case Receive(_, cmd) => p.Reading? && !cmd.Quit?
       case Leave(_) => p.Reading?
       case Lock(_) => p.Waiting? && y.lock.None?
       case Speak(_) => p.Holding?
       case Run(_) => p.Spoken?
       case Unlock(_) => p.Ran? && p.index < |y.log|
       case Send(_) => (p.Spoken? || ((p.Ran? || p.Replying? || p.Closing?) && p.index < |y.log|)) && !p.told
       case Continue(_) => p.Replying? && p.told
       case HangUp(_) => p.Replying? || p.Closing?
  }

  /** The place in lock order of the command a reply in the buffer belongs to, and that reply. */
  function InBuffer(y: System, conn: nat): Sent
    requires Enabled(y, Send(conn))
  {
    var p := y.phases[conn];
    if p.Spoken? then Sent(conn, |y.log|, p.reply, y.time)
    else Sent(conn, p.index, y.log[p.index].reply, y.time)
  }

  /** One step of one thread. */
  ghost function Next(env: Env, y: System, step: Step): System
    requires Enabled(y, step)
  {
    var c := step.conn;
    var p := y.phases[c];
    var z := y.(time := y.time + 1);
    match step
    case Receive(_, cmd) => z.(phases := y.phases[c := Waiting(cmd, y.time)])
    case Leave(_) => z.(phases := y.phases[c := Closed])
    case Lock(_) => z.(phases := y.phases[c := Holding(p.cmd, p.since)], lock := Some(c))
    case Speak(_) => z.(phases := y.phases[c := Spoken(p.cmd, p.since, Execute(env, y.store, p.cmd).reply, false)])
    case Run(_) =>
      var r := Execute(env, y.store, p.cmd);
      z.(store := r.state, phases := y.phases[c := Ran(|y.log|, p.told)],
         log := y.log + [Done(c, p.cmd, r.reply, r.ok, p.since, y.time)])
    case Unlock(_) =>
      z.(phases := y.phases[c := if y.log[p.index].ok then Replying(p.index, p.told) else Closing(p.index, p.told)],
         lock := None)
    case Send(_) => z.(phases := y.phases[c := p.(told := true)], sent := y.sent + [InBuffer(y, c)])
    case Continue(_) => z.(phases := y.phases[c := Reading])
    case HangUp(_) => z.(phases := y.phases[c := Closed])
  }

  // ----- What holds in every system state -----

  /** The plain map after the commands that ran, in the order they held the lock. */
  function MapAfter(env: Env, m: map<Text, Text>, log: seq<Done>): map<Text, Text>
    decreases |log|
  {
    if log == [] then m
    else Apply(env, MapAfter(env, m, log[..|log| - 1]), log[|log| - 1].cmd).state
  }

  /** Every answer is the one the plain map gives, run through the same commands one at a time. */
  ghost predicate Sequential(env: Env, m: map<Text, Text>, log: seq<Done>) {
    forall i | 0 <= i < |log| ::
      var a := Apply(env, MapAfter(env, m, log[..i]), log[i].cmd);
      log[i].reply == a.reply && log[i].ok == a.ok
  }

  /** Commands ran one after the other, each after its line was read. */
  ghost predicate Ordered(log: seq<Done>, time: nat) {
    && (forall i | 0 <= i < |log| :: log[i].invoked < log[i].executed < time)
    && (forall i, j | 0 <= i < j < |log| :: log[i].executed < log[j].executed)
  }

  /** A reply belongs to the command it answers: one that ran, or the one that has spoken and is to run next. */
  ghost predicate Answers(y: System, s: Sent) {
    if s.index < |y.log| then s.conn == y.log[s.index].conn && s.reply == y.log[s.index].reply
    else
      && s.index == |y.log| && s.conn < |y.phases|
      && var p := y.phases[s.conn];
         p.Spoken? && p.told && s.reply == p.reply && p.since < s.at
  }

  /** A client gets the answers to its own commands, in the order it sent them. */
  ghost predicate Delivered(y: System) {
    && (forall i | 0 <= i < |y.sent| :: Answers(y, y.sent[i]) && y.sent[i].at < y.time)
    && (forall i, j | 0 <= i < j < |y.sent| && y.sent[i].conn == y.sent[j].conn :: y.sent[i].index < y.sent[j].index)
  }

  /** A command read after a reply arrived comes later in lock order than the command replied to. */
  ghost predicate RealTime(y: System) {
    forall a, b | 0 <= a < |y.sent| && 0 <= b < |y.log| && y.sent[a].at <= y.log[b].invoked :: y.sent[a].index < b
  }

  predicate InLock(p: Phase) {
    p.Holding? || p.Spoken? || p.Ran?
  }

  /** Only the holder of the lock is between lock and unlock. */
  ghost predicate Exclusive(y: System) {
    forall c | 0 <= c < |y.phases| :: InLock(y.phases[c]) <==> y.lock == Some(c)
  }

  predicate HasIndex(p: Phase) {
    p.Ran? || p.Replying? || p.Closing?
  }

  ghost predicate PhasesOk(y: System) {
    forall c | 0 <= c < |y.phases| ::
      var p := y.phases[c];
      && (p.Waiting? || p.Holding? || p.Spoken? ==> p.since < y.time)
      && (HasIndex(p) ==> p.index < |y.log| && y.log[p.index].conn == c)
  }

  /** What a connection has been sent is older than what is in its buffer. */
  ghost predicate BuffersOk(y: System) {
    forall c, i | 0 <= c < |y.phases| && 0 <= i < |y.sent| && y.sent[i].conn == c ::
      var p, n := y.phases[c], y.sent[i].index;
      && (p.Spoken? && !p.told ==> n < |y.log|)
      && (HasIndex(p) ==> n < p.index || (p.told && n == p.index))
  }

  /** The client has the reply to command `i` of the log. */
  ghost predicate Answered(y: System, i: nat) {
    exists a :: 0 <= a < |y.sent| && y.sent[a].index == i
  }

  /**
   * A connection goes on after its command exactly if that succeeded: all its commands but the last did,
   * and were answered before the next was read; and it closes on one that failed.
   */
  ghost predicate Sessions(y: System) {
    && (forall i, j | 0 <= i < j < |y.log| && y.log[i].conn == y.log[j].conn :: y.log[i].ok && Answered(y, i))
    && (forall c | 0 <= c < |y.phases| && HasIndex(y.phases[c]) && !y.phases[c].Ran? ::
          var p := y.phases[c];
          p.index < |y.log| && (p.Replying? <==> y.log[p.index].ok))
  }

  /** The connection is at or before a command that has not run. */
  predicate BeforeRun(p: Phase) {
    p.Reading? || p.Waiting? || p.Holding? || p.Spoken?
  }

  /** Then all commands it has run are done with. */
  ghost predicate AllServed(y: System) {
    forall c, i | 0 <= c < |y.phases| && 0 <= i < |y.log| && y.log[i].conn == c && BeforeRun(y.phases[c]) ::
      y.log[i].ok && Answered(y, i)
  }

  /** Behind that, its last command is the one it is at. */
  ghost predicate LastIsHere(y: System) {
    forall c, i | 0 <= c < |y.phases| && 0 <= i < |y.log| && y.log[i].conn == c && HasIndex(y.phases[c]) ::
      i <= y.phases[c].index
  }

  ghost predicate ToldIsSent(y: System) {
    forall c | 0 <= c < |y.phases| ::
      var p := y.phases[c];
      && (HasIndex(p) && p.told ==> Answered(y, p.index))
      && (p.Spoken? && p.told ==> Answered(y, |y.log|))
  }

  ghost predicate SessionsOpen(y: System) {
    AllServed(y) && LastIsHere(y) && ToldIsSent(y)
  }

  /** The reply in the buffer is the one the command will give. */
  ghost predicate SpokenOk(env: Env, y: System) {
    forall c | 0 <= c < |y.phases| && y.phases[c].Spoken? ::
      y.phases[c].reply == Execute(env, y.store, y.phases[c].cmd).reply
  }

  ghost predicate StoreOk(env: Env, m: map<Text, Text>, y: System, crashes: nat) {
    && LiveInv(env, y.store) && Bounded(env, y.store, crashes) && Refines(env, y.store, MapAfter(env, m, y.log))
    && Sequential(env, m, y.log)
  }

  ghost predicate ThreadsOk(env: Env, y: System) {
    && Ordered(y.log, y.time) && Delivered(y) && RealTime(y) && Exclusive(y) && PhasesOk(y) && BuffersOk(y)
    && Sessions(y) && SessionsOpen(y) && SpokenOk(env, y)
  }

  lemma MapAfterSnoc(env: Env, m: map<Text, Text>, log: seq<Done>, d: Done)
    ensures MapAfter(env, m, log + [d]) == Apply(env, MapAfter(env, m, log), d.cmd).state
  {
    assert (log + [d])[..|log|] == log;
  }

  lemma SequentialSnoc(env: Env, m: map<Text, Text>, log: seq<Done>, d: Done)
    requires Sequential(env, m, log)
    requires var a := Apply(env, MapAfter(env, m, log), d.cmd); d.reply == a.reply && d.ok == a.ok
    ensures Sequential(env, m, log + [d])
  {
    hide Apply, MapAfter;
    forall i | 0 <= i <= |log| ensures (log + [d])[..i] == log[..i] {}
    assert log[..|log|] == log;
  }

  /** What a command asks of the files, when it runs. */
  ghost predicate Clean(env: Env, y: System, step: Step)
    requires Enabled(y, step)
  {
    step.Run? ==> FilesAsk(env, y.store, y.phases[step.conn].cmd)
  }

  lemma StoreKept(env: Env, m: map<Text, Text>, y: System, step: Step, crashes: nat)
    requires StoreOk(env, m, y, crashes) && crashes <= MAX_CRASHES && Enabled(y, step) && Clean(env, y, step)
    ensures StoreOk(env, m, Next(env, y, step), crashes)
  {
    hide LiveInv, Bounded, Refines, Sequential, MapAfter, Execute, Apply, FilesAsk;
    if step.Run? {
      var p := y.phases[step.conn];
      CommandRefines(env, y.store, MapAfter(env, m, y.log), p.cmd, crashes);
      var r := Execute(env, y.store, p.cmd);
      FewerCrashes(env, r.state, crashes);
      var d := Done(step.conn, p.cmd, r.reply, r.ok, p.since, y.time);
      MapAfterSnoc(env, m, y.log, d);
      SequentialSnoc(env, m, y.log, d);
    }
  }

  lemma FewerCrashes(env: Env, s: State, crashes: nat)
    ensures Bounded(env, s, 0) ==> Bounded(env, s, crashes)
  {
    hide TotalSize;
  }

  lemma OrderKept(env: Env, y: System, step: Step)
    requires Enabled(y, step) && Ordered(y.log, y.time) && PhasesOk(y)
    ensures Ordered(Next(env, y, step).log, Next(env, y, step).time)
  {
    hide Execute;
  }

  lemma DeliveryKept(env: Env, y: System, step: Step)
    requires Enabled(y, step) && ThreadsOk(env, y)
    ensures Delivered(Next(env, y, step))
  {
    hide Execute, Sessions, SessionsOpen;
  }

  lemma RealTimeKept(env: Env, y: System, step: Step)
    requires Enabled(y, step) && ThreadsOk(env, y)
    ensures RealTime(Next(env, y, step))
  {
    hide Execute, Sessions, SessionsOpen;
  }

  lemma ExclusionKept(env: Env, y: System, step: Step)
    requires Enabled(y, step) && Exclusive(y)
    ensures Exclusive(Next(env, y, step))
  {
    hide Execute;
  }

  lemma PhasesKept(env: Env, y: System, step: Step)
    requires Enabled(y, step) && PhasesOk(y)
    ensures PhasesOk(Next(env, y, step))
  {
    hide Execute;
  }

  lemma BuffersKept(env: Env, y: System, step: Step)
    requires Enabled(y, step) && ThreadsOk(env, y)
    ensures BuffersOk(Next(env, y, step))
  {
    hide Execute, Sessions, SessionsOpen;
  }

  lemma SpokenKept(env: Env, y: System, step: Step)
    requires Enabled(y, step) && SpokenOk(env, y) && Exclusive(y)
    ensures SpokenOk(env, Next(env, y, step))
  {
    hide Execute;
  }

  /** Nothing that was sent is taken back. */
  lemma StillAnswered(env: Env, y: System, step: Step)
    requires Enabled(y, step)
    ensures forall i: nat | Answered(y, i) :: Answered(Next(env, y, step), i)
    ensures step.Send? ==> Answered(Next(env, y, step), InBuffer(y, step.conn).index)
  {
    hide Execute;
    var z := Next(env, y, step);
    forall i: nat | Answered(y, i) ensures Answered(z, i) {
      var a :| 0 <= a < |y.sent| && y.sent[a].index == i;
      assert z.sent[a].index == i;
    }
    if step.Send? {
      assert z.sent[|y.sent|].index == InBuffer(y, step.conn).index;
    }
  }

  lemma SessionsKept(env: Env, y: System, step: Step)
    requires Enabled(y, step) && PhasesOk(y) && Sessions(y) && SessionsOpen(y)
    ensures Sessions(Next(env, y, step))
  {
    hide Execute, Answered;
    StillAnswered(env, y, step);
  }

  lemma AllServedKept(env: Env, y: System, step: Step)
    requires Enabled(y, step) && PhasesOk(y) && Sessions(y) && SessionsOpen(y)
    ensures AllServed(Next(env, y, step))
  {
    hide Execute, Answered;
    StillAnswered(env, y, step);
  }

  lemma LastIsHereKept(env: Env, y: System, step: Step)
    requires Enabled(y, step) && PhasesOk(y) && LastIsHere(y)
    ensures LastIsHere(Next(env, y, step))
  {
    hide Execute;
    var z := Next(env, y, step);
    forall c, i | 0 <= c < |z.phases| && 0 <= i < |z.log| && z.log[i].conn == c && HasIndex(z.phases[c])
      ensures i <= z.phases[c].index
    {
      if i < |y.log| {
        assert y.log[i].conn == c;
      }
    }
  }

  lemma ToldIsSentKept(env: Env, y: System, step: Step)
    requires Enabled(y, step) && ToldIsSent(y) && Exclusive(y)
    ensures ToldIsSent(Next(env, y, step))
  {
    hide Execute, Answered;
    StillAnswered(env, y, step);
  }

  lemma SessionsOpenKept(env: Env, y: System, step: Step)
    requires Enabled(y, step) && PhasesOk(y) && Sessions(y) && SessionsOpen(y) && Exclusive(y)
    ensures SessionsOpen(Next(env, y, step))
  {
    hide Next, Enabled, PhasesOk, Exclusive, Sessions, AllServed, LastIsHere, ToldIsSent;
    AllServedKept(env, y, step);
    LastIsHereKept(env, y, step);
    ToldIsSentKept(env, y, step);
  }

  /** One step of any thread keeps exclusion, order and delivery, whatever the commands do. */
  lemma ThreadsKept(env: Env, y: System, step: Step)
    requires ThreadsOk(env, y) && Enabled(y, step)
    ensures ThreadsOk(env, Next(env, y, step))
  {
    hide Enabled, Next, Ordered, Delivered, RealTime, Exclusive, PhasesOk, BuffersOk, Sessions, SessionsOpen, SpokenOk;
    SessionsKept(env, y, step);
    SessionsOpenKept(env, y, step);
    OrderKept(env, y, step);
    DeliveryKept(env, y, step);
    RealTimeKept(env, y, step);
    ExclusionKept(env, y, step);
    PhasesKept(env, y, step);
    BuffersKept(env, y, step);
    SpokenKept(env, y, step);
  }

  // ----- Whole runs -----

  ghost predicate Steps(env: Env, y: System, steps: seq<Step>)
    decreases |steps|
  {
    steps != [] ==> Enabled(y, steps[0]) && Steps(env, Next(env, y, steps[0]), steps[1..])
  }

  ghost function Last(env: Env, y: System, steps: seq<Step>): System
    requires Steps(env, y, steps)
    decreases |steps|
  {
    if steps == [] then y else Last(env, Next(env, y, steps[0]), steps[1..])
  }

  /** No file a flush of the run writes shows an entry beyond its frames. */
  ghost predicate CleanSteps(env: Env, y: System, steps: seq<Step>)
    requires Steps(env, y, steps)
    decreases |steps|
  {
    steps != [] ==> Clean(env, y, steps[0]) && CleanSteps(env, Next(env, y, steps[0]), steps[1..])
  }

  /** A log of frames that reads back as the memtable. */
  ghost predicate LogOk(env: Env, s: State) {
    HoldsFrames(env, s.wal) && MemIsReplay(env, s)
  }

  lemma FlushKeepsLogOk(env: Env, s: State)
    requires LogOk(env, s)
    ensures LogOk(env, MaybeFlush(env, s).0)
  {
    hide HoldsFrames, MemIsReplay, Runs.After, Flush, FlushOps;
    CleanRuns.FramesKept(env, s, Runs.Do(Runs.FlushIfLarge));
    RunsFlush(env, s);
    Runs.FlushKeepsLog(env, s);
  }

  lemma RunsFlush(env: Env, s: State)
    ensures Runs.After(env, s, Runs.FlushIfLarge) == MaybeFlush(env, s).0
  {
    hide Flush;
  }

  lemma WriteKeepsLogOk(env: Env, s: State, e: Entry)
    requires LogOk(env, s) && Storable(env, e)
    ensures LogOk(env, Write(env, s, e).0)
  {
    hide HoldsFrames, MemIsReplay, Frame, Storable, Process, StillQuiet;
    FramesGrow(env, s.wal, e);
    FramesStayQuiet(env, s.wal, s.wal + Frame(env, e));
    WriteKeepsLog(env, s, e);
  }

  /** No command asks anything of such a log, and every command leaves one. */
  lemma CommandKeepsLog(env: Env, s: State, c: Command)
    requires LogOk(env, s)
    ensures LogOk(env, Execute(env, s, c).state)
  {
    hide LogOk, Get, MaybeFlush, Write, Storable;
    FlushKeepsLogOk(env, s);
    if EntryOf(env, s, c).Some? {
      var e := EntryOf(env, s, c).value;
      WriteSucceeds(env, s, e);
      if Storable(env, e) {
        WriteKeepsLogOk(env, s, e);
        FlushKeepsLogOk(env, Write(env, s, e).0);
      }
    }
  }

  lemma {:induction false} LogThroughout(env: Env, y: System, steps: seq<Step>)
    requires LogOk(env, y.store) && Steps(env, y, steps)
    ensures LogOk(env, Last(env, y, steps).store)
    decreases |steps|
  {
    hide LogOk, Execute;
    if steps != [] {
      if steps[0].Run? {
        CommandKeepsLog(env, y.store, y.phases[steps[0].conn].cmd);
      }
      LogThroughout(env, Next(env, y, steps[0]), steps[1..]);
    }
  }

  lemma {:induction false} ThreadsThroughout(env: Env, y: System, steps: seq<Step>)
    requires ThreadsOk(env, y) && Steps(env, y, steps)
    ensures ThreadsOk(env, Last(env, y, steps))
    decreases |steps|
  {
    hide ThreadsOk, Enabled, Next;
    if steps != [] {
      ThreadsKept(env, y, steps[0]);
      ThreadsThroughout(env, Next(env, y, steps[0]), steps[1..]);
    }
  }

  lemma {:induction false} StoreThroughout(env: Env, m: map<Text, Text>, y: System, steps: seq<Step>, crashes: nat)
    requires StoreOk(env, m, y, crashes) && crashes <= MAX_CRASHES && Steps(env, y, steps) && CleanSteps(env, y, steps)
    ensures StoreOk(env, m, Last(env, y, steps), crashes)
    decreases |steps|
  {
    hide StoreOk, Enabled, Next, Clean;
    if steps != [] {
      StoreKept(env, m, y, steps[0], crashes);
      StoreThroughout(env, m, Next(env, y, steps[0]), steps[1..], crashes);
    }
  }

  /** `n` connections, none of which has sent anything yet. */
  function Start(store: State, n: nat): System {
    System(store, None, seq(n, _ => Reading), 0, [], [])
  }

  lemma StartOk(env: Env, store: State, m: map<Text, Text>, n: nat, crashes: nat)
    requires LiveInv(env, store) && Bounded(env, store, crashes) && Refines(env, store, m)
    ensures StoreOk(env, m, Start(store, n), crashes) && ThreadsOk(env, Start(store, n))
  {
    hide LiveInv, Bounded, Refines, Apply, Execute;
  }

  /**
   * Linearizability: whatever the interleaving, the commands in lock order are one sequential run of the
   * plain map with the same answers; each client gets the answers to its own commands, in order; and a
   * command read after another's answer arrived comes later. What the log holds does not matter; what is
   * asked of the files is a condition on the run, not on who may move when.
   */
  lemma Linearizable(env: Env, store: State, m: map<Text, Text>, n: nat, steps: seq<Step>, crashes: nat)
    requires LiveInv(env, store) && Bounded(env, store, crashes) && crashes <= MAX_CRASHES && Refines(env, store, m)
    requires Steps(env, Start(store, n), steps) && CleanSteps(env, Start(store, n), steps)
    ensures var y := Last(env, Start(store, n), steps);
            && Sequential(env, m, y.log)
            && LiveInv(env, y.store) && Refines(env, y.store, MapAfter(env, m, y.log))
            && Delivered(y) && RealTime(y) && Ordered(y.log, y.time) && Sessions(y)
  {
    hide LiveInv, Bounded, Refines, Sequential, Delivered, RealTime, Ordered, MapAfter, CleanSteps, Steps, Last,
         Exclusive, PhasesOk, BuffersOk, SpokenOk, Sessions, SessionsOpen;
    var y0 := Start(store, n);
    StartOk(env, store, m, n, crashes);
    StoreThroughout(env, m, y0, steps, crashes);
    ThreadsThroughout(env, y0, steps);
  }
}
