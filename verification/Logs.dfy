/** The `Log` object: the log file, the memtable and the SSTable directory, updated in place. */
module Logs {
  import opened Bytes
  import opened Entries
  import opened Header
  import opened Reader
  import opened Disk
  import opened MemTables
  import opened Lookup
  import Compaction
  import Store

  class Log {
    const wal: Stream
    const memtable: MemTable
    const dir: Directory
    var flushCount: nat

    /** The store this object represents. */
    function View(): Store.State
      reads this, wal, memtable, dir
    {
      Store.State(wal.data, memtable.State(), dir.files, dir.tick, flushCount)
    }

    ghost predicate Valid(env: Env)
      reads this, memtable
    {
      memtable.Valid(env)
    }

    /** `Log::new` on an open log file and a directory; `truncate` wipes the log instead of replaying it. */
    constructor Open(env: Env, wal: Stream, dir: Directory, truncate: bool)
      modifies wal
      ensures Valid(env) && fresh(memtable) && this.wal == wal && this.dir == dir
      ensures View() == Store.Reopen(env, Durable(if truncate then [] else old(wal.data), dir.files), dir.tick)
    {
      if truncate {
        wal.Truncate();
      }
      var rebuilt := MemTable.FromFile(env, wal);
      this.wal := wal;
      this.dir := dir;
      this.memtable := rebuilt;
      this.flushCount := |dir.files|;
    }

    /** Appends to the log, then applies to the memtable; an entry that cannot be framed changes nothing. */
    method Write(env: Env, e: Entry) returns (ok: bool)
      requires Valid(env)
      modifies wal, memtable, dir`history
      ensures Valid(env)
      ensures (View(), ok) == Store.Write(env, old(View()), e)
      ensures dir.history == old(dir.history) + Store.WriteOps(env, e)
    {
      hide Frame, Process;
      ok := wal.Append(env, e);
      if !ok {
        return;
      }
      dir.Record(AppendWal(Frame(env, e)));
      ok := memtable.Apply(env, e);
    }

    /** Memtable first, then the SSTables, newest to oldest. */
    method Get(env: Env, k: Text) returns (r: Option<Entry>)
      requires Valid(env)
      ensures r == Store.Get(env, View(), k)
    {
      hide FilterGet, Contents;
      if k in memtable.inner {
        var e := memtable.inner[k];
        return if e.Set? then Some(e) else None;
      }
      var found := GetFromTables(env, dir.files, k);
      r := if found.Some? && found.value.Set? then found else None;
    }

    method Contains(env: Env, k: Text) returns (r: bool)
      requires Valid(env)
      ensures r <==> Store.Get(env, View(), k).Some?
    {
      var e := Get(env, k);
      r := e.Some?;
    }

    /** The first half of `flush`: the memtable becomes a file, and the log is truncated. */
    method FlushAndTruncate(env: Env) returns (ok: bool)
      requires Valid(env)
      modifies this, wal, memtable, dir
      ensures Valid(env)
      ensures (View(), ok) == Store.FlushFile(env, old(View()))
      ensures dir.history == old(dir.history) + Store.FileOps(env, old(View())) + (if ok then [TruncateWal] else [])
    {
      hide FlushImage, SortedValues;
      ok := memtable.FlushTo(env, dir);
      if !ok {
        return;
      }
      wal.Truncate();
      dir.Record(TruncateWal);
      flushCount := SaturatingAdd(flushCount, 1);
    }

    /** `flush`; every tenth time all files are merged. */
    method Flush(env: Env) returns (ok: bool)
      requires Valid(env)
      modifies this, wal, memtable, dir
      ensures Valid(env)
      ensures (View(), ok) == Store.Flush(env, old(View()))
      ensures dir.history == old(dir.history) + Store.FlushOps(env, old(View()))
    {
      hide *;
      FlushInHalves(env, View());
      ok := FlushAndTruncate(env);
      DueAsStored();
      if ok && Store.DueAt(flushCount) {
        ok := Compact(env);
      }
    }

    lemma DueAsStored()
      ensures Store.CompactionDue(View()) <==> Store.DueAt(flushCount)
      ensures View().files == dir.files && View().tick == dir.tick
    {}

    method MaybeFlush(env: Env) returns (ok: bool)
      requires Valid(env)
      modifies this, wal, memtable, dir
      ensures Valid(env)
      ensures (View(), ok) == Store.MaybeFlush(env, old(View()))
      ensures dir.history ==
                old(dir.history) + (if ShouldFlush(old(View()).mem) then Store.FlushOps(env, old(View())) else [])
    {
      hide Store.Flush, Store.FlushOps;
      if ShouldFlush(memtable.State()) {
        ok := Flush(env);
      } else {
        ok := true;
      }
    }

    /** `compact`, whatever the directory holds. */
    method Compact(env: Env) returns (ok: bool)
      requires Valid(env)
      modifies dir
      ensures Valid(env)
      ensures ok == Compaction.MergeDone(env, old(dir.files))
      ensures View() == Store.Compacted(env, old(View()))
      ensures dir.history == old(dir.history) + Compaction.CompactOps(env, old(dir.files), old(dir.tick))
    {
      hide Compaction.CompactOps, Compaction.FilesAfter, Compaction.OutputChunks, Compaction.MergeDone;
      ok := Compaction.Compact(env, dir);
    }
  }

  lemma FlushInHalves(env: Env, s: Store.State)
    ensures var (s1, ok) := Store.FlushFile(env, s);
            && Store.Flush(env, s) ==
                 (if ok && Store.CompactionDue(s1) then (Store.Compacted(env, s1), Compaction.MergeDone(env, s1.files))
                  else (s1, ok))
            && Store.FlushOps(env, s) ==
                 Store.FileOps(env, s) + (if ok then [TruncateWal] else [])
                 + (if ok && Store.CompactionDue(s1) then Compaction.CompactOps(env, s1.files, s1.tick) else [])
  {
    hide Store.FlushFile, Store.FileOps, Compaction.CompactOps, Compaction.MergeDone;
  }

}
