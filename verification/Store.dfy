/** The store as a value: what each operation makes of it, and which durable steps it takes. */
module Store {
  import opened Bytes
  import opened Entries
  import opened Header
  import opened Reader
  import opened Disk
  import opened MemTables
  import opened Lookup
  import opened Plans
  import opened Compaction

  const COMPACT_EVERY_N_FLUSHES: nat := 10

  datatype State = State(wal: bytes, mem: MemState, files: map<nat, bytes>, tick: nat, flushCount: nat)

  /** A tombstone answers like an absent key. */
  function AsLive(e: Option<Entry>): Option<Entry> {
    if e.Some? && e.value.Set? then e else None
  }

  /** `Log::get`: the memtable first, then the SSTables. */
  function Get(env: Env, s: State, k: Text): Option<Entry> {
    if k in s.mem.inner then AsLive(Some(s.mem.inner[k]))
    else AsLive(FilterGet(env, Contents(s.files), k))
  }

  // ----- The operations -----

  function WriteOps(env: Env, e: Entry): seq<DiskOp> {
    if Storable(env, e) then [AppendWal(Frame(env, e))] else []
  }

  /** `Log::write`; an entry that cannot be framed changes nothing. */
  function Write(env: Env, s: State, e: Entry): (State, bool) {
    if Storable(env, e) then (s.(wal := s.wal + Frame(env, e), mem := Process(env, s.mem, e)), true)
    else (s, false)
  }

  function FileOps(env: Env, s: State): seq<DiskOp> {
    if s.mem.inner == map[] then []
    else [Put(env.clock(s.tick), FlushImage(env, SortedValues(s.mem.inner)).0)]
  }

  function FileWritten(env: Env, s: State): bool {
    s.mem.inner == map[] || FlushImage(env, SortedValues(s.mem.inner)).1
  }

  /** After `flush_to`, before the log is truncated. */
  function WithFile(env: Env, s: State): State {
    if s.mem.inner == map[] then s
    else s.(files := s.files[env.clock(s.tick) := FlushImage(env, SortedValues(s.mem.inner)).0], tick := s.tick + 1)
  }

  /** A flush up to the point where a compaction may start. */
  function FlushFile(env: Env, s: State): (State, bool) {
    var s1 := WithFile(env, s);
    if FileWritten(env, s)
    then (s1.(wal := [], mem := EMPTY, flushCount := SaturatingAdd(s.flushCount, 1)), true)
    else (s1, false)
  }

  /** `is_multiple_of(COMPACT_EVERY_N_FLUSHES)`. */
  predicate DueAt(flushCount: nat) {
    flushCount % COMPACT_EVERY_N_FLUSHES == 0
  }

  predicate CompactionDue(s: State) {
    DueAt(s.flushCount)
  }

  /** `compact`; when a flush in it fails, nothing is deleted. */
  ghost function Compacted(env: Env, s: State): State {
    s.(files := FilesAfter(s.files, CompactOps(env, s.files, s.tick)),
       tick := s.tick + |OutputChunks(env, s.files)|)
  }

  /** `Log::flush`. */
  ghost function Flush(env: Env, s: State): (State, bool) {
    var (s1, ok) := FlushFile(env, s);
    if ok && CompactionDue(s1) then (Compacted(env, s1), MergeDone(env, s1.files)) else (s1, ok)
  }

  ghost function FlushOps(env: Env, s: State): seq<DiskOp> {
    var (s1, ok) := FlushFile(env, s);
    if !ok then FileOps(env, s)
    else FileOps(env, s) + [TruncateWal] + (if CompactionDue(s1) then CompactOps(env, s1.files, s1.tick) else [])
  }

  /** `Log::maybe_flush`. */
  ghost function MaybeFlush(env: Env, s: State): (State, bool) {
    if ShouldFlush(s.mem) then Flush(env, s) else (s, true)
  }

  function DurableOf(s: State): Durable {
    Durable(s.wal, s.files)
  }

  /** `Log::new` without truncation: the memtable is replayed, the flush count is the file count. */
  function Reopen(env: Env, d: Durable, tick: nat): State {
    State(d.wal, Replay(env, EMPTY, EntriesOf(Scan(env, d.wal, 0))), d.files, tick, |d.files|)
  }

  // ----- The invariant -----

  /** The memtable is the replay of the log: what a reopen needs. */
  ghost predicate MemIsReplay(env: Env, s: State) {
    s.mem == Replay(env, EMPTY, EntriesOf(Scan(env, s.wal, 0)))
  }

  ghost predicate MemOk(env: Env, inner: map<Text, Entry>) {
    forall k | k in inner :: inner[k].key == k && Storable(env, inner[k])
  }

  /** The clock is later than every file name. */
  ghost predicate ClockAhead(env: Env, files: map<nat, bytes>, tick: nat) {
    forall ts | ts in files :: ts < env.clock(tick)
  }

  /** For keys the memtable does not answer, the filters make no difference. */
  ghost predicate FiltersAgree(env: Env, inner: map<Text, Entry>, datas: seq<bytes>) {
    forall k | k !in inner :: AsLive(FilterGet(env, datas, k)) == AsLive(PlainGet(env, datas, k))
  }

  ghost predicate FilesOk(env: Env, inner: map<Text, Entry>, datas: seq<bytes>) {
    TablesOk(env, TablesOf(env, datas)) && FiltersAgree(env, inner, datas)
  }

  /** What the answers of the running store rest on. The log plays no part in it. */
  ghost predicate LiveInv(env: Env, s: State) {
    && MemOk(env, s.mem.inner)
    && ClockAhead(env, s.files, s.tick)
    && FilesOk(env, s.mem.inner, Contents(s.files))
  }

  /** The running store, with a log that would be read back as its memtable. */
  ghost predicate Inv(env: Env, s: State) {
    MemIsReplay(env, s) && LiveInv(env, s)
  }

  lemma InvIsLive(env: Env, s: State)
    requires Inv(env, s)
    ensures LiveInv(env, s) && MemIsReplay(env, s)
  {}

  // ----- The abstract map -----

  function AbstractWrite(m: map<Text, Text>, e: Entry): map<Text, Text> {
    match e
    case Set(k, v) => m[k := v]
    case Delete(k) => m - {k}
  }

  /** Every lookup answers as the plain map does. */
  ghost predicate Refines(env: Env, s: State, m: map<Text, Text>) {
    forall k :: Get(env, s, k) == if k in m then Some(Set(k, m[k])) else None
  }

  /** Two states no lookup can tell apart. */
  ghost predicate SameAnswers(env: Env, s: State, s': State) {
    forall k :: Get(env, s, k) == Get(env, s', k)
  }
}
