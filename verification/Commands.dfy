/** Commands run against the store, their replies, and the bound they keep on the memtable. */
module Commands {
  import opened Bytes
  import opened Entries
  import opened Header
  import opened Disk
  import opened MemTables
  import opened Lookup
  import opened Merge
  import opened Store
  import opened Refinement
  import Compaction
  import Runs
  import Logs

  datatype Command = SetKey(key: Text, value: Text) | GetKey(key: Text) | DeleteKey(key: Text) | Quit | Help

  datatype Reply = Shown(key: Text, value: Text) | NotFound(key: Text) | Deleted(key: Text) | HelpText

  /** What a command leaves behind: the state, what it wrote to the client, and whether it returned `Ok`. */
  datatype Outcome<S> = Outcome(state: S, reply: Option<Reply>, ok: bool)

  /** `execute` on the store. The reply to a Set or a Delete is written before the log is. */
  ghost function Execute(env: Env, s: State, c: Command): Outcome<State> {
    match c
    case SetKey(k, v) => WriteThenFlush(env, s, Set(k, v), Shown(k, v))
    case GetKey(k) =>
      (match Get(env, s, k)
       case Some(Set(_, v)) => Outcome(s, Some(Shown(k, v)), true)
       case _ => Outcome(s, Some(NotFound(k)), true))
    case DeleteKey(k) =>
      if Get(env, s, k).Some? then WriteThenFlush(env, s, Delete(k), Deleted(k))
      else
        var (s1, ok) := MaybeFlush(env, s);
        Outcome(s1, Some(NotFound(k)), ok)
    case Quit => Outcome(s, None, false)
    case Help => Outcome(s, Some(HelpText), true)
  }

  ghost function WriteThenFlush(env: Env, s: State, e: Entry, reply: Reply): Outcome<State> {
    var (s1, written) := Write(env, s, e);
    if !written then Outcome(s1, Some(reply), false)
    else
      var (s2, ok) := MaybeFlush(env, s1);
      Outcome(s2, Some(reply), ok)
  }

  /** The entry a command writes, if it writes one. */
  function EntryOf(env: Env, s: State, c: Command): Option<Entry> {
    match c
    case SetKey(k, v) => Some(Set(k, v))
    case DeleteKey(k) => if Get(env, s, k).Some? then Some(Delete(k)) else None
    case _ => None
  }

  /** The state after that write. */
  function AfterWrite(env: Env, s: State, c: Command): State {
    match EntryOf(env, s, c)
    case Some(e) => Write(env, s, e).0
    case None => s
  }

  /** The command goes on to flush. */
  predicate StartsFlush(env: Env, s: State, c: Command) {
    && (c.SetKey? || c.DeleteKey?)
    && (EntryOf(env, s, c).Some? ==> Storable(env, EntryOf(env, s, c).value))
    && ShouldFlush(AfterWrite(env, s, c).mem)
  }

  /** The durable steps of a command. */
  ghost function CommandOps(env: Env, s: State, c: Command): seq<DiskOp> {
    (match EntryOf(env, s, c) case Some(e) => WriteOps(env, e) case None => [])
    + (if StartsFlush(env, s, c) then FlushOps(env, AfterWrite(env, s, c)) else [])
  }

  /** The same command on a plain map. An entry that cannot be framed is refused, and the map stays. */
  function Apply(env: Env, m: map<Text, Text>, c: Command): Outcome<map<Text, Text>> {
    match c
    case SetKey(k, v) => WriteToMap(env, m, Set(k, v), Shown(k, v))
    case GetKey(k) => Outcome(m, Some(if k in m then Shown(k, m[k]) else NotFound(k)), true)
    case DeleteKey(k) =>
      if k in m then WriteToMap(env, m, Delete(k), Deleted(k)) else Outcome(m, Some(NotFound(k)), true)
    case Quit => Outcome(m, None, false)
    case Help => Outcome(m, Some(HelpText), true)
  }

  function WriteToMap(env: Env, m: map<Text, Text>, e: Entry, reply: Reply): Outcome<map<Text, Text>> {
    if Storable(env, e) then Outcome(AbstractWrite(m, e), Some(reply), true) else Outcome(m, Some(reply), false)
  }

  // ----- The size of the memtable -----

  /** The most one framed entry can weigh. */
  const MAX_ENTRY: nat := 2 * U32_LIMIT

  /** As many crashes in a row, with no flush between them, as the bit count of a flush has room for. */
  const MAX_CRASHES: nat := 425_000_000

  /**
   * The tracked size is exact, and over the threshold by `crashes` entries at most. Between commands of
   * one run it is 0; a crash between a write and the flush it was to start adds one.
   */
  ghost predicate Bounded(env: Env, s: State, crashes: nat) {
    && s.mem.size == TotalSize(env, s.mem.inner) <= THRESHOLD + crashes * MAX_ENTRY
    && |s.mem.inner| <= THRESHOLD + crashes
  }

  lemma MemOkWellKeyed(env: Env, inner: map<Text, Entry>)
    requires MemOk(env, inner)
    ensures WellKeyed(env, inner)
  {
    forall k | k in inner ensures inner[k].key == k && env.encode(inner[k]).Some? {
      assert Storable(env, inner[k]);
    }
  }

  /** Within the threshold, the number of keys is too. */
  lemma SmallIsBounded(env: Env, s: State)
    requires MemOk(env, s.mem.inner) && s.mem.size == TotalSize(env, s.mem.inner) <= THRESHOLD
    ensures Bounded(env, s, 0)
  {
    MemOkWellKeyed(env, s.mem.inner);
    CountWithinSize(env, s.mem.inner);
  }

  lemma BoundedFits(env: Env, inner: map<Text, Entry>)
    requires MemOk(env, inner) && inner != map[] && |inner| <= THRESHOLD + MAX_CRASHES + 1
    ensures FlushImage(env, SortedValues(inner)).1
  {
    hide FlushImage, SortedValues, Storable;
    ValuesAreSorted(env, inner);
    FitsImage(env, SortedValues(inner));
  }

  lemma OneMoreKey(env: Env, st: MemState, e: Entry)
    ensures |Process(env, st, e).inner| <= |st.inner| + 1
  {
    var after := Process(env, st, e).inner;
    assert after.Keys == st.inner.Keys + {e.key};
    assert |after.Keys| <= |st.inner.Keys| + 1;
  }

  /** One more entry weighs one entry more at most, and the file to be flushed can be written to the end. */
  lemma GrownMemFits(env: Env, s: State, e: Entry, crashes: nat)
    requires MemOk(env, s.mem.inner) && Bounded(env, s, crashes) && crashes <= MAX_CRASHES && Storable(env, e)
    ensures var s1 := Write(env, s, e).0;
            && Bounded(env, s1, crashes + 1) && MemOk(env, s1.mem.inner)
            && FlushImage(env, SortedValues(s1.mem.inner)).1
            && (!ShouldFlush(s1.mem) ==> Bounded(env, s1, 0))
  {
    hide EntrySize, FlushImage, SortedValues, Storable, Frame, MemOk, TotalSize;
    StorableSize(env, e);
    ProcessTracksSize(env, s.mem, e);
    MemOkProcess(env, s.mem, e);
    OneMoreKey(env, s.mem, e);
    var s1 := Write(env, s, e).0;
    assert e.key in s1.mem.inner;
    BoundedFits(env, s1.mem.inner);
    if !ShouldFlush(s1.mem) {
      SmallIsBounded(env, s1);
    }
  }

  lemma NothingWeighsNothing(env: Env, s: State)
    requires s.mem == EMPTY
    ensures Bounded(env, s, 0)
  {}

  // ----- What a command asks of the files -----

  /** The files of the flush show no entry beyond their frames. */
  ghost predicate FilesAsk(env: Env, s: State, c: Command) {
    StartsFlush(env, s, c) ==> Runs.CleanFullFlush(env, AfterWrite(env, s, c))
  }

  lemma FlushClears(env: Env, s: State)
    requires LiveInv(env, s) && FlushImage(env, SortedValues(s.mem.inner)).1 && Runs.CleanFullFlush(env, s)
    ensures Flush(env, s).1 && Flush(env, s).0.mem == EMPTY
  {
    hide LiveInv, FlushImage, SortedValues, Compaction.CompactOps, Compaction.OutputChunks, Compaction.MergeDone,
         Compaction.FilesAfter, CleanFlush, Runs.CleanCompact;
    FlushFileRefines(env, s);
    Runs.InvMerges(env, FlushFile(env, s).0);
  }

  /** A flush that may start: never an error, and the memtable is within its threshold again. */
  lemma FlushOfCommand(env: Env, s: State, m: map<Text, Text>)
    requires LiveInv(env, s) && Refines(env, s, m)
    requires ShouldFlush(s.mem) ==>
               Runs.CleanFullFlush(env, s) && FlushImage(env, SortedValues(s.mem.inner)).1
    requires !ShouldFlush(s.mem) ==> Bounded(env, s, 0)
    ensures var (s', ok) := MaybeFlush(env, s);
            ok && LiveInv(env, s') && Refines(env, s', m) && Bounded(env, s', 0)
  {
    hide LiveInv, Refines, FlushImage, SortedValues, Runs.CleanFullFlush, Flush, Bounded;
    if ShouldFlush(s.mem) {
      Runs.FlushRefines(env, s);
      Runs.SameAnswersRefine(env, s, Flush(env, s).0, m);
      FlushClears(env, s);
      NothingWeighsNothing(env, Flush(env, s).0);
    }
  }

  /** A write and the flush it may start. */
  lemma WriteThenFlushRefines(env: Env, s: State, m: map<Text, Text>, e: Entry, reply: Reply, crashes: nat)
    requires LiveInv(env, s) && Refines(env, s, m) && Bounded(env, s, crashes) && crashes <= MAX_CRASHES
    requires var s1 := Write(env, s, e).0; Storable(env, e) && ShouldFlush(s1.mem) ==> Runs.CleanFullFlush(env, s1)
    ensures var r, a := WriteThenFlush(env, s, e, reply), WriteToMap(env, m, e, reply);
            && LiveInv(env, r.state) && Refines(env, r.state, a.state)
            && r.reply == a.reply && r.ok == a.ok
            && (r.ok ==> Bounded(env, r.state, 0)) && (!r.ok ==> r.state == s)
  {
    hide LiveInv, Refines, Process, FlushImage, SortedValues, Storable, Bounded, ShouldFlush, Runs.CleanFullFlush,
         Flush, AbstractWrite;
    if Storable(env, e) {
      var s1 := Write(env, s, e).0;
      Runs.WriteStepRefines(env, s, e, m);
      Runs.InvMemOk(env, s);
      GrownMemFits(env, s, e, crashes);
      FlushOfCommand(env, s1, AbstractWrite(m, e));
    } else {
      Runs.RefusedWrite(env, s, e);
    }
  }

  /** A Delete that misses flushes only if a crash had left the memtable over its threshold. */
  lemma MissRefines(env: Env, s: State, m: map<Text, Text>, crashes: nat)
    requires LiveInv(env, s) && Refines(env, s, m) && Bounded(env, s, crashes) && crashes <= MAX_CRASHES
    requires ShouldFlush(s.mem) ==> Runs.CleanFullFlush(env, s)
    ensures var (s', ok) := MaybeFlush(env, s);
            ok && LiveInv(env, s') && Refines(env, s', m) && Bounded(env, s', 0)
  {
    hide LiveInv, Refines, FlushImage, SortedValues, Runs.CleanFullFlush, Flush;
    Runs.InvMemOk(env, s);
    if ShouldFlush(s.mem) {
      WeightIsSomething(env, s.mem.inner);
      BoundedFits(env, s.mem.inner);
    } else {
      SmallIsBounded(env, s);
    }
    FlushOfCommand(env, s, m);
  }

  lemma WeightIsSomething(env: Env, inner: map<Text, Entry>)
    requires TotalSize(env, inner) > 0
    ensures inner != map[]
  {}

  /**
   * Every command replies as on the plain map and changes it as on the plain map. After each write the
   * memtable is within its threshold again, so in a run of commands no flush ever fails. A Delete answers
   * "deleted" exactly when the key is live, and otherwise writes nothing. What the log holds does not matter.
   */
  lemma CommandRefines(env: Env, s: State, m: map<Text, Text>, c: Command, crashes: nat)
    requires LiveInv(env, s) && Refines(env, s, m) && Bounded(env, s, crashes) && crashes <= MAX_CRASHES
    requires FilesAsk(env, s, c)
    ensures var r, a := Execute(env, s, c), Apply(env, m, c);
            && LiveInv(env, r.state) && Refines(env, r.state, a.state)
            && r.reply == a.reply && r.ok == a.ok
            && (Bounded(env, r.state, 0) || r.state == s)
            && (r.ok && (c.SetKey? || c.DeleteKey?) ==> Bounded(env, r.state, 0))
    ensures c.DeleteKey? ==>
              && (Execute(env, s, c).reply == Some(Deleted(c.key)) <==> c.key in m)
              && (c.key !in m ==> Execute(env, s, c).state == MaybeFlush(env, s).0)
              && (c.key !in m && !ShouldFlush(s.mem) ==> Execute(env, s, c).state == s)
  {
    hide LiveInv, Get, WriteThenFlush, Flush, Storable, Bounded, Write, Runs.CleanFullFlush, ShouldFlush;
    match c {
      case SetKey(k, v) => WriteThenFlushRefines(env, s, m, Set(k, v), Shown(k, v), crashes);
      case GetKey(k) =>
      case DeleteKey(k) =>
        if k in m {
          assert Get(env, s, k) == Some(Set(k, m[k]));
          WriteThenFlushRefines(env, s, m, Delete(k), Deleted(k), crashes);
          ReplyKept(env, s, Delete(k), Deleted(k));
        } else {
          assert Get(env, s, k) == None;
          MissRefines(env, s, m, crashes);
        }
      case Quit =>
      case Help =>
    }
  }

  lemma ReplyKept(env: Env, s: State, e: Entry, reply: Reply)
    ensures WriteThenFlush(env, s, e, reply).reply == Some(reply)
  {
    hide Flush, Write;
  }

  /**
   * A Set always answers as if it had stored the value. It has exactly when the entry can be framed, or
   * the key held that very value before.
   */
  lemma SetReplyTruthful(env: Env, s: State, m: map<Text, Text>, k: Text, v: Text, crashes: nat)
    requires LiveInv(env, s) && Refines(env, s, m) && Bounded(env, s, crashes) && crashes <= MAX_CRASHES
    requires FilesAsk(env, s, SetKey(k, v))
    ensures var r := Execute(env, s, SetKey(k, v));
            && r.reply == Some(Shown(k, v))
            && (Get(env, r.state, k) == Some(Set(k, v)) <==>
                  Storable(env, Set(k, v)) || (k in m && m[k] == v))
  {
    hide LiveInv, Get, FilesAsk, Storable, Bounded;
    CommandRefines(env, s, m, SetKey(k, v), crashes);
    ReplyKept(env, s, Set(k, v), Shown(k, v));
  }

  /** For the layout of the codec: what can be framed, to the byte. */
  lemma StorableByLength(env: Env, k: Text, v: Text)
    requires LaidOut(env, Set(k, v))
    ensures Storable(env, Set(k, v)) <==> |k| + |v| + 20 < U32_LIMIT
  {
    if Encode(Set(k, v)).Some? {
      LengthOf(Set(k, v));
    }
  }

  lemma LengthOf(e: Entry)
    requires e.Set? && Encode(e).Some?
    ensures |Encode(e).value| == |e.key| + |e.value| + 20
  {}

  /** A false acknowledgement: the client is shown its value, and the store does not have it. */
  lemma AcknowledgedNotStored(env: Env, k: Text)
    requires LaidOut(env, Set(k, seq(U32_LIMIT, _ => 0x61 as byte)))
    ensures var v := seq(U32_LIMIT, _ => 0x61 as byte);
            var r := Execute(env, Runs.Fresh(), SetKey(k, v));
            && r.reply == Some(Shown(k, v)) && !r.ok
            && r.state == Runs.Fresh() && Get(env, r.state, k) == None
  {
    hide Get, Storable, Frame, FilterGet, Contents;
    var v := seq(U32_LIMIT, _ => 0x61 as byte);
    StorableByLength(env, k, v);
    Runs.RefusedWrite(env, Runs.Fresh(), Set(k, v));
    Runs.FreshIsEmpty(env);
  }

  /** `execute` on the object, whatever state it is in. */
  method ExecuteOn(env: Env, log: Logs.Log, c: Command) returns (reply: Option<Reply>, ok: bool)
    requires log.Valid(env)
    modifies log, log.wal, log.memtable, log.dir
    ensures log.Valid(env)
    ensures Outcome(log.View(), reply, ok) == Execute(env, old(log.View()), c)
    ensures log.dir.history == old(log.dir.history) + CommandOps(env, old(log.View()), c)
  {
    hide Get, Flush, FlushOps, MaybeFlush, Write, WriteOps, Storable, Frame, ShouldFlush;
    match c {
      case SetKey(k, v) =>
        reply := Some(Shown(k, v));
        WriteSucceeds(env, log.View(), Set(k, v));
        ok := log.Write(env, Set(k, v));
        if ok {
          ok := log.MaybeFlush(env);
        }
      case GetKey(k) =>
        var found := log.Get(env, k);
        reply := Some(match found
                      case Some(Set(_, v)) => Shown(k, v)
                      case _ => NotFound(k));
        ok := true;
      case DeleteKey(k) =>
        var live := log.Contains(env, k);
        if live {
          reply := Some(Deleted(k));
          WriteSucceeds(env, log.View(), Delete(k));
          ok := log.Write(env, Delete(k));
          if !ok {
            return;
          }
        } else {
          reply := Some(NotFound(k));
        }
        ok := log.MaybeFlush(env);
      case Quit =>
        reply, ok := None, false;
      case Help =>
        reply, ok := Some(HelpText), true;
    }
  }

  lemma WriteSucceeds(env: Env, s: State, e: Entry)
    ensures Write(env, s, e).1 <==> Storable(env, e)
    ensures !Storable(env, e) ==> Write(env, s, e).0 == s && WriteOps(env, e) == []
  {
    hide Storable, Frame, Process;
  }
}
