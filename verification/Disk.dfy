/** The directory of SSTables, the clock, and the durable steps a crash can cut short. */
module Disk {
  import opened Bytes
  import opened Entries

  /**
   * One durable change. `Put` creates a file and writes it from the front, `AppendWal` writes at the end
   * of the log: a crash may leave any byte prefix of either. The other two take effect at once.
   */
  datatype DiskOp =
    | Put(ts: nat, data: bytes)
    | Remove(ts: nat)
    | AppendWal(frame: bytes)
    | TruncateWal

  /** What survives a crash: the log and the SSTables, each known by the timestamp in its name. */
  datatype Durable = Durable(wal: bytes, files: map<nat, bytes>)

  function ApplyOp(d: Durable, op: DiskOp): Durable {
    match op
    case Put(ts, data) => d.(files := d.files[ts := data])
    case Remove(ts) => d.(files := d.files - {ts})
    case AppendWal(frame) => d.(wal := d.wal + frame)
    case TruncateWal => d.(wal := [])
  }

  function ApplyOps(d: Durable, ops: seq<DiskOp>): Durable
    decreases |ops|
  {
    if ops == [] then d else ApplyOp(ApplyOps(d, ops[..|ops| - 1]), ops[|ops| - 1])
  }

  lemma ApplyOpsSnoc(d: Durable, ops: seq<DiskOp>, op: DiskOp)
    ensures ApplyOps(d, ops + [op]) == ApplyOp(ApplyOps(d, ops), op)
  {
    assert (ops + [op])[..|ops|] == ops;
  }

  lemma {:induction false} ApplyOpsConcat(d: Durable, a: seq<DiskOp>, b: seq<DiskOp>)
    ensures ApplyOps(d, a + b) == ApplyOps(ApplyOps(d, a), b)
    decreases |b|
  {
    if b == [] {
      assert a + b == a;
    } else {
      assert (a + b)[..|a + b| - 1] == a + b[..|b| - 1];
      ApplyOpsConcat(d, a, b[..|b| - 1]);
    }
  }

  /** A step cut after `n` bytes. */
  function TornOp(op: DiskOp, n: nat): DiskOp
    requires op.Put? ==> n <= |op.data|
    requires op.AppendWal? ==> n <= |op.frame|
  {
    match op
    case Put(ts, data) => Put(ts, data[..n])
    case AppendWal(frame) => AppendWal(frame[..n])
    case _ => op
  }

  /** The directory itself. `history` records every durable step, in the order it was taken. */
  class Directory {
    var files: map<nat, bytes>
    var tick: nat
    ghost var history: seq<DiskOp>

    constructor (files: map<nat, bytes>, tick: nat)
      ensures this.files == files && this.tick == tick && history == []
    {
      this.files := files;
      this.tick := tick;
      history := [];
    }

    /** `SystemTime::now()`. */
    method Now(env: Env) returns (ts: nat)
      modifies this`tick
      ensures ts == env.clock(old(tick)) && tick == old(tick) + 1
    {
      ts := env.clock(tick);
      tick := tick + 1;
    }

    /** The whole life of a file being written: created or truncated, then filled. */
    method Write(ts: nat, data: bytes)
      modifies this`files, this`history
      ensures files == old(files)[ts := data] && history == old(history) + [Put(ts, data)]
    {
      files := files[ts := data];
      history := history + [Put(ts, data)];
    }

    /** `fs::remove_file`. */
    method Delete(ts: nat)
      modifies this`files, this`history
      ensures files == old(files) - {ts} && history == old(history) + [Remove(ts)]
    {
      files := files - {ts};
      history := history + [Remove(ts)];
    }

    /** Records a durable step taken on the log. */
    ghost method Record(op: DiskOp)
      modifies this`history
      ensures history == old(history) + [op]
    {
      history := history + [op];
    }
  }
}
