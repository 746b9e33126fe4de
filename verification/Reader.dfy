/** A file with a cursor, and the recovery scan that walks it from one valid window to the next. */
module Reader {
  import opened Bytes
  import opened Entries
  import opened Header
  import Crc32

  /** A window that decodes: where it starts, what it holds, where the next one may start. */
  datatype Hit = Hit(at: nat, entry: Entry, end: nat)

  /** The first window at or after `pos` that decodes. */
  function NextHit(env: Env, data: bytes, pos: nat): (r: Option<Hit>)
    ensures r.Some? ==> pos <= r.value.at && r.value.at + HEADER_LEN < r.value.end <= |data|
    decreases |data| - pos
  {
    if pos >= |data| then None
    else match Deserialize(env, data[pos..])
         case Ok((e, n)) => Some(Hit(pos, e, pos + n))
         case Err(_) => NextHit(env, data, pos + 1)
  }

  /** Everything repeated reads return from `pos` on. */
  function Scan(env: Env, data: bytes, pos: nat): seq<Hit>
    decreases |data| - pos
  {
    match NextHit(env, data, pos)
    case None => []
    case Some(h) => [h] + Scan(env, data, h.end)
  }

  function EntriesOf(hits: seq<Hit>): (es: seq<Entry>)
    ensures |es| == |hits|
  {
    seq(|hits|, i requires 0 <= i < |hits| => hits[i].entry)
  }

  /** No window that starts in `[lo, hi)` decodes. */
  ghost predicate Quiet(env: Env, data: bytes, lo: nat, hi: nat)
    requires hi <= |data|
  {
    forall p: nat | lo <= p < hi :: Deserialize(env, data[p..]).Err?
  }

  lemma {:induction false} SkipQuiet(env: Env, data: bytes, lo: nat, hi: nat)
    requires lo <= hi <= |data| && Quiet(env, data, lo, hi)
    ensures NextHit(env, data, lo) == NextHit(env, data, hi)
    decreases hi - lo
  {
    hide Deserialize;
    if lo < hi {
      SkipQuiet(env, data, lo + 1, hi);
    }
  }

  /** The scan stops at the first window that decodes and passes over nothing else. */
  lemma {:induction false} NextHitIsFirst(env: Env, data: bytes, pos: nat)
    requires pos <= |data|
    ensures match NextHit(env, data, pos)
            case None => Quiet(env, data, pos, |data|)
            case Some(h) =>
              && Quiet(env, data, pos, h.at)
              && Deserialize(env, data[h.at..]) == Ok((h.entry, h.end - h.at))
    decreases |data| - pos
  {
    hide Deserialize;
    if pos < |data| && Deserialize(env, data[pos..]).Err? {
      NextHitIsFirst(env, data, pos + 1);
    }
  }

  /** A decoded entry can be encoded again, so replay never stops at one. */
  lemma HitEncodes(env: Env, data: bytes, pos: nat)
    requires pos <= |data| && NextHit(env, data, pos).Some?
    ensures env.encode(NextHit(env, data, pos).value.entry).Some?
  {
    hide FromLe16, FromLeWord, FromLe32, Crc32.Hash;
    NextHitIsFirst(env, data, pos);
  }

  class Stream {
    var data: bytes
    var pos: nat

    /** A file opened with the cursor at its start. */
    constructor (data: bytes)
      ensures this.data == data && pos == 0
    {
      this.data := data;
      pos := 0;
    }

    /** Where the cursor is left when a read finds nothing: `read_to_end` has moved it. */
    static function Exhausted(data: bytes, pos: nat): nat {
      if pos < |data| then |data| else pos
    }

    /** `header_read_next`. */
    method ReadNext(env: Env) returns (r: Option<Entry>)
      modifies this`pos
      ensures match NextHit(env, data, old(pos))
              case Some(h) => r == Some(h.entry) && pos == h.end
              case None => r == None && pos == Exhausted(data, old(pos))
    {
      hide Deserialize;
      var start := pos;
      if start >= |data| {
        return None;
      }
      var rest := data[start..];
      pos := |data|;
      for p := 0 to |rest|
        invariant pos == |data| && NextHit(env, data, start) == NextHit(env, data, start + p)
      {
        assert rest[p..] == data[start + p..];
        match Deserialize(env, rest[p..]) {
          case Ok(found) =>
            pos := start + p + found.1;
            return Some(found.0);
          case Err(_) =>
        }
      }
      return None;
    }

    /** `header_has_at_least_one`: looks from the start, and puts the cursor back. */
    method HasAtLeastOne(env: Env) returns (found: bool)
      modifies this`pos
      ensures found <==> NextHit(env, data, 0).Some?
      ensures pos == old(pos)
    {
      var before := pos;
      pos := 0;
      var r := ReadNext(env);
      pos := before;
      found := r.Some?;
    }

    /** `write_all` at the cursor. */
    method WriteAll(b: bytes)
      requires pos <= |data|
      modifies this
      ensures data == old(data[..pos]) + b + (if old(pos) + |b| <= |old(data)| then old(data)[old(pos) + |b|..] else [])
      ensures pos == old(pos) + |b|
    {
      data := data[..pos] + b + (if pos + |b| <= |data| then data[pos + |b|..] else []);
      pos := pos + |b|;
    }

    /** `header_write`: always appends, whatever the cursor was doing. `false` is its error. */
    method Append(env: Env, e: Entry) returns (ok: bool)
      modifies this
      ensures ok <==> Storable(env, e)
      ensures data == if ok then old(data) + Frame(env, e) else old(data)
      ensures pos == |data|
    {
      hide Frame;
      pos := |data|;
      var frame := Serialize(env, e);
      if frame.None? {
        return false;
      }
      WriteAll(frame.value);
      return true;
    }

    /** `set_len(0)` followed by `seek(SeekFrom::Start(0))`. */
    method Truncate()
      modifies this
      ensures data == [] && pos == 0
    {
      data := [];
      pos := 0;
    }

    method Seek(p: nat)
      modifies this`pos
      ensures pos == p
    {
      pos := p;
    }
  }
}
