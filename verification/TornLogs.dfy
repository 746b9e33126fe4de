/** Writing behind a torn append: when the next frame completes the torn one, and what is lost then. */
module TornLogs {
  import opened Bytes
  import opened Entries
  import opened Header
  import opened Reader
  import opened Recovery
  import opened Disk
  import opened MemTables
  import opened Tables
  import opened Lookup
  import opened Store
  import opened Refinement
  import opened Runs
  import opened Commands
  import opened Inputs
  import TornFrames

  // ----- The windows of the torn frame, with more frames behind it -----

  /** Frames in front are read as before. */
  lemma {:induction false} BehindFrames(env: Env, es: seq<Entry>, data: bytes, grown: bytes, pos: nat)
    requires AllStorable(env, es) && pos <= |data| && data <= grown && Frames(env, es) <= data[pos..]
    ensures StillQuiet(env, data, grown, pos) <==> StillQuiet(env, data, grown, pos + |Frames(env, es)|)
    decreases |es|
  {
    hide Deserialize, Frame, Storable;
    if es != [] {
      NextHitAtFrame(env, data, pos, es[0]);
      FramesTail(env, data, pos, es);
      BehindFrames(env, es[1..], data, grown, pos + |Frame(env, es[0])|);
    }
  }

  /** A torn frame that holds no magic pair inside, followed by a frame or by nothing. */
  ghost predicate PlainTear(env: Env, e: Entry, n: nat, after: bytes)
    requires Storable(env, e)
  {
    && 0 < n < |Frame(env, e)| && NoInnerMagic(Frame(env, e)[..n])
    && (after != [] ==> after[0] == ToLe16(MAGIC)[0])
  }

  /** Only the window at its start may decode. */
  lemma OnlyTheFirst(env: Env, e: Entry, n: nat, after: bytes, p: nat)
    requires Storable(env, e) && PlainTear(env, e, n, after) && 1 <= p < n
    ensures Deserialize(env, (Frame(env, e)[..n] + after)[p..]).Err?
  {
    hide Deserialize, Frame, ToLe16;
    var torn := Frame(env, e)[..n];
    var w := (torn + after)[p..];
    MagicBytesDiffer();
    assert w[0] == torn[p];
    if |w| >= 2 {
      assert w[..2] == [w[0], w[1]];
      if p + 1 < n {
        assert w[1] == torn[p + 1];
      } else {
        assert w[1] == after[0];
      }
    }
    NoMagicNoEntry(env, w);
  }

  /** So the torn frame stays quiet exactly if it does not decode with what follows it. */
  lemma TearQuiet(env: Env, e: Entry, n: nat, after: bytes, data: bytes, base: nat)
    requires Storable(env, e) && PlainTear(env, e, n, after)
    requires base <= |data| && data[base..] == Frame(env, e)[..n] + after
    ensures base + n <= |data|
    ensures Quiet(env, data, base, base + n) <==> Deserialize(env, Frame(env, e)[..n] + after).Err?
  {
    hide Deserialize, Frame, PlainTear;
    TearParts(env, e, n, after);
    assert |data[base..]| == n + |after|;
    if Deserialize(env, Frame(env, e)[..n] + after).Err? {
      forall p: nat | base <= p < base + n ensures Deserialize(env, data[p..]).Err? {
        assert data[p..] == data[base..][p - base..];
        if p > base {
          OnlyTheFirst(env, e, n, after, p - base);
        } else {
          assert data[base..][0..] == data[base..];
        }
      }
    }
  }

  lemma TearParts(env: Env, e: Entry, n: nat, after: bytes)
    requires Storable(env, e) && PlainTear(env, e, n, after)
    ensures 0 < n < |Frame(env, e)| && NoInnerMagic(Frame(env, e)[..n])
  {
    hide Frame, NoInnerMagic;
  }

  lemma FirstByte(env: Env, es: seq<Entry>)
    requires AllStorable(env, es) && es != []
    ensures Frames(env, es) != [] && Frames(env, es)[0] == ToLe16(MAGIC)[0]
  {
    FramesStartWithMagic(env, es);
  }

  /**
   * The exact condition for frames written behind a torn one: nothing that was passed over comes to life
   * if and only if the torn bytes and those frames do not decode together.
   */
  lemma TornTailExact(env: Env, es: seq<Entry>, e: Entry, n: nat, more: seq<Entry>)
    requires AllStorable(env, es) && Storable(env, e) && AllStorable(env, more) && more != []
    requires 0 < n < |Frame(env, e)| && NoInnerMagic(Frame(env, e)[..n])
    ensures var wal := Frames(env, es) + Frame(env, e)[..n];
            StillQuiet(env, wal, wal + Frames(env, more), 0) <==>
              Deserialize(env, Frame(env, e)[..n] + Frames(env, more)).Err?
  {
    hide Deserialize, Frame, Frames, NoInnerMagic, Storable, StillQuiet;
    var torn := Frame(env, e)[..n];
    var wal := Frames(env, es) + torn;
    var grown := wal + Frames(env, more);
    var base := |Frames(env, es)|;
    assert wal[0..] == wal && Frames(env, es) <= wal[0..];
    BehindFrames(env, es, wal, grown, 0);
    assert wal[base..] == torn && grown[base..] == torn + Frames(env, more);
    TornFrameIsQuiet(env, e, n, wal, base);
    FirstByte(env, more);
    TearQuiet(env, e, n, Frames(env, more), grown, base);
    EndOfScan(env, wal, grown, base);
  }

  lemma EndOfScan(env: Env, data: bytes, grown: bytes, base: nat)
    requires data <= grown && base <= |data| && Quiet(env, data, base, |data|)
    ensures StillQuiet(env, data, grown, base) <==> Quiet(env, grown, base, |data|)
  {
    hide Deserialize;
    QuietMeansNoHit(env, data, base);
  }

  // ----- Up to four bytes missing -----

  /** What the next frame would have to start with: the bytes the torn one lacks. */
  predicate Completes(frame: bytes, n: nat, next: bytes) {
    n <= |frame| && frame[n..] <= next
  }

  /** With up to four bytes of the payload missing the checksum decides without luck. */
  lemma SmallTear(env: Env, e: Entry, n: nat, after: bytes)
    requires Storable(env, e) && HEADER_LEN <= n < |Frame(env, e)| <= n + 4 && |Frame(env, e)| - n <= |after|
    ensures Deserialize(env, Frame(env, e)[..n] + after).Err? <==> !Completes(Frame(env, e), n, after)
    ensures Completes(Frame(env, e), n, after) ==>
              Deserialize(env, Frame(env, e)[..n] + after) == Ok((e, |Frame(env, e)|))
  {
    hide Deserialize, Frame, Damaged;
    var f := Frame(env, e);
    var m := |f| - n;
    var bad := f[..n] + after[..m];
    assert f[..n] + after == bad + after[m..];
    if Completes(f, n, after) {
      assert bad == f;
      FrameRoundTrip(env, e, after[m..]);
    } else {
      assert after[..m] != f[n..];
      TearDamages(f, n, after[..m]);
      DamageRejected(env, e, bad, after[m..]);
    }
  }

  lemma TearDamages(f: bytes, n: nat, end: bytes)
    requires HEADER_LEN <= n < |f| <= n + 4 && |end| == |f| - n && end != f[n..]
    ensures Damaged(f, f[..n] + end)
  {
    var bad := f[..n] + end;
    var p, q, i := f[10..], bad[10..], n - 10;
    assert bad[..2] == f[..2] && bad[2..6] == f[2..6] && bad[6..10] == f[6..10];
    assert f[n..] == p[i..] && end == q[i..];
    assert p[..i] == q[..i];
    assert Burst(p, q);
  }

  /**
   * The condition a caller can check before the write: with up to four bytes of the payload missing,
   * nothing comes to life if and only if the new frame does not start with the missing bytes.
   */
  lemma SmallTearExact(env: Env, es: seq<Entry>, e: Entry, n: nat, more: seq<Entry>)
    requires AllStorable(env, es) && Storable(env, e) && AllStorable(env, more) && more != []
    requires HEADER_LEN <= n < |Frame(env, e)| <= n + 4 && NoInnerMagic(Frame(env, e)[..n])
    ensures var wal := Frames(env, es) + Frame(env, e)[..n];
            StillQuiet(env, wal, wal + Frames(env, more), 0) <==>
              !Completes(Frame(env, e), n, Frames(env, more))
  {
    hide Deserialize, Frame, Frames, NoInnerMagic, Storable, StillQuiet, Completes;
    FramesAreLong(env, more);
    TornTailExact(env, es, e, n, more);
    SmallTear(env, e, n, Frames(env, more));
  }

  lemma FramesAreLong(env: Env, es: seq<Entry>)
    requires AllStorable(env, es) && es != []
    ensures |Frames(env, es)| > HEADER_LEN
  {
    hide Frame;
    FrameIsLong(env, es[0]);
  }

  /**
   * The tear heals: once a frame behind it has not completed it, the log reads as all frames but the torn
   * one, and asks nothing of any later write.
   */
  lemma TearHeals(env: Env, es: seq<Entry>, e: Entry, n: nat, more: seq<Entry>, grown: bytes)
    requires AllStorable(env, es) && Storable(env, e) && AllStorable(env, more) && more != []
    requires HEADER_LEN <= n < |Frame(env, e)| <= n + 4 && NoInnerMagic(Frame(env, e)[..n])
    requires !Completes(Frame(env, e), n, Frames(env, more))
    requires Frames(env, es) + Frame(env, e)[..n] + Frames(env, more) <= grown
    ensures var data := Frames(env, es) + Frame(env, e)[..n] + Frames(env, more);
            EntriesOf(Scan(env, data, 0)) == es + more && StillQuiet(env, data, grown, 0)
  {
    hide Deserialize, Frame, Frames, NoInnerMagic, Storable, StillQuiet, Completes, Quiet, HitsOf;
    var torn, tail := Frame(env, e)[..n], Frames(env, more);
    var data := Frames(env, es) + torn + tail;
    var lo := |Frames(env, es)|;
    var hi := lo + n;
    assert data[0..] == data && Frames(env, es) <= data[0..];
    assert data[lo..] == torn + tail && data[hi..] == tail;
    TearStaysQuiet(env, e, n, more, data, lo);
    ScanFrames(env, data, 0, es);
    ScanSkipsQuiet(env, data, lo, hi);
    ScanFrames(env, data, hi, more);
    NothingAtTheEnd(env, data);
    HitsOfEntries(env, es, 0);
    HitsOfEntries(env, more, hi);
    EntriesOfConcat(HitsOf(env, es, 0), HitsOf(env, more, hi));
    assert HitsOf(env, more, hi) + [] == HitsOf(env, more, hi);
    assert tail <= grown[hi..] && grown[lo..] == torn + grown[hi..];
    GrownTearQuiet(env, e, n, more, grown, lo);
    BehindFrames(env, es, data, grown, 0);
    CleanStaysQuiet(env, more, data, grown, hi);
    TearThenFrames(env, data, grown, lo, hi, more);
  }

  lemma TearStaysQuiet(env: Env, e: Entry, n: nat, more: seq<Entry>, data: bytes, lo: nat)
    requires Storable(env, e) && AllStorable(env, more) && more != []
    requires HEADER_LEN <= n < |Frame(env, e)| <= n + 4 && NoInnerMagic(Frame(env, e)[..n])
    requires !Completes(Frame(env, e), n, Frames(env, more))
    requires lo <= |data| && data[lo..] == Frame(env, e)[..n] + Frames(env, more)
    ensures lo + n <= |data| && Quiet(env, data, lo, lo + n)
  {
    hide Deserialize, Frame, Frames, NoInnerMagic, Storable, Completes, Quiet;
    FramesAreLong(env, more);
    FirstByte(env, more);
    SmallTear(env, e, n, Frames(env, more));
    TearQuiet(env, e, n, Frames(env, more), data, lo);
  }

  /** More behind the frames changes nothing: the missing bytes are decided. */
  lemma GrownTearQuiet(env: Env, e: Entry, n: nat, more: seq<Entry>, grown: bytes, lo: nat)
    requires Storable(env, e) && AllStorable(env, more) && more != []
    requires HEADER_LEN <= n < |Frame(env, e)| <= n + 4 && NoInnerMagic(Frame(env, e)[..n])
    requires !Completes(Frame(env, e), n, Frames(env, more))
    requires lo + n <= |grown| && grown[lo..] == Frame(env, e)[..n] + grown[lo + n..]
    requires Frames(env, more) <= grown[lo + n..]
    ensures Quiet(env, grown, lo, lo + n)
  {
    hide Deserialize, Frame, Frames, NoInnerMagic, Storable, Quiet, ToLe16;
    FramesAreLong(env, more);
    FirstByte(env, more);
    var after := grown[lo + n..];
    assert after[0] == Frames(env, more)[0];
    SmallTear(env, e, n, after);
    TearQuiet(env, e, n, after, grown, lo);
  }

  lemma TearThenFrames(env: Env, data: bytes, grown: bytes, lo: nat, hi: nat, more: seq<Entry>)
    requires AllStorable(env, more) && more != [] && data <= grown && lo <= hi <= |data|
    requires Frames(env, more) <= data[hi..] && Quiet(env, data, lo, hi) && Quiet(env, grown, lo, hi)
    requires StillQuiet(env, data, grown, hi)
    ensures StillQuiet(env, data, grown, lo)
  {
    hide Deserialize, Frame, Storable;
    FramesTail(env, data, hi, more);
    NextHitAtFrame(env, data, hi, more[0]);
    SkipQuiet(env, data, lo, hi);
  }

  // ----- When it does complete the torn frame -----

  /** The torn entry is back, and the one just written is gone. */
  lemma RevivedScan(env: Env, es: seq<Entry>, e: Entry, n: nat, e2: Entry)
    requires AllStorable(env, es) && Storable(env, e) && Storable(env, e2) && NoInnerMagic(Frame(env, e2))
    requires n < |Frame(env, e)| <= n + HEADER_LEN && Completes(Frame(env, e), n, Frame(env, e2))
    ensures EntriesOf(Scan(env, Frames(env, es) + Frame(env, e)[..n] + Frame(env, e2), 0)) == es + [e]
  {
    hide Deserialize, Frame, Frames, Storable;
    var f, f2 := Frame(env, e), Frame(env, e2);
    var m := |f| - n;
    var data := Frames(env, es) + f[..n] + f2;
    assert f2 == f[n..] + f2[m..] && f == f[..n] + f[n..];
    FramesSingle(env, e);
    FramesConcat(env, es, [e]);
    var front := Frames(env, es + [e]);
    assert data == front + f2[m..];
    forall p: nat | |front| <= p < |data| ensures Deserialize(env, data[p..]).Err? {
      var q, w := p - |front| + m, data[p..];
      assert w == f2[q..];
      if q + 1 < |f2| {
        assert w[..2] == [f2[q], f2[q + 1]];
      }
      NoMagicNoEntry(env, w);
    }
    ScanFramesQuietTail(env, data, es + [e]);
    HitsOfEntries(env, es + [e], 0);
  }

  /** Frames, and behind them one that lacks up to four bytes of its payload. */
  ghost predicate TornLog(env: Env, wal: bytes, es: seq<Entry>, e: Entry, n: nat) {
    && AllStorable(env, es) && Storable(env, e)
    && HEADER_LEN <= n < |Frame(env, e)| <= n + 4
    && wal == Frames(env, es) + Frame(env, e)[..n] && NoInnerMagic(Frame(env, e)[..n])
  }

  /** The new frame starts with the bytes the torn one lacks. */
  ghost predicate Revives(env: Env, e: Entry, n: nat, e2: Entry) {
    Storable(env, e) && Storable(env, e2) && Completes(Frame(env, e), n, Frame(env, e2))
  }

  /** The store after a write behind a torn append, and after the reopen that follows. */
  lemma WriteOntoTorn(env: Env, s: State, es: seq<Entry>, e: Entry, n: nat, e2: Entry, tick: nat)
    requires MemIsReplay(env, s) && TornLog(env, s.wal, es, e, n)
    requires Storable(env, e2) && NoInnerMagic(Frame(env, e2))
    ensures var s1 := Write(env, s, e2).0;
            var s2 := Reopen(env, DurableOf(s1), tick);
            if Revives(env, e, n, e2)
            then forall k :: Get(env, s2, k) == if k == e.key then AsLive(Some(e)) else Get(env, s, k)
            else MemIsReplay(env, s1) && SameAnswers(env, s1, s2)
  {
    hide Frame, Frames, Storable, Scan, StillQuiet, NoInnerMagic, Completes, Deserialize, Replay, Process, Get, Reopen;
    var s1 := Write(env, s, e2).0;
    WrittenLog(env, s, e2);
    if Revives(env, e, n, e2) {
      RevivedScan(env, es, e, n, e2);
      TornTailIsDropped(env, es, e, n);
      ReplayAppend(env, EMPTY, es, e);
      RevivedAnswers(env, s, s1, e, tick);
    } else {
      FramesSingle(env, e2);
      SmallTearExact(env, es, e, n, [e2]);
      WriteKeepsLog(env, s, e2);
      ReopenedAnswers(env, s1, tick);
    }
  }

  lemma WrittenLog(env: Env, s: State, e: Entry)
    requires Storable(env, e)
    ensures var s1 := Write(env, s, e).0; s1.wal == s.wal + Frame(env, e) && s1.files == s.files
  {
    hide Frame, Storable, Process;
  }

  lemma ReopenedAnswers(env: Env, s: State, tick: nat)
    requires MemIsReplay(env, s)
    ensures SameAnswers(env, s, Reopen(env, DurableOf(s), tick))
  {
    hide Scan, Replay, FilterGet, Contents;
  }

  lemma RevivedAnswers(env: Env, s: State, s1: State, e: Entry, tick: nat)
    requires s1.files == s.files
    requires Replay(env, EMPTY, EntriesOf(Scan(env, s1.wal, 0))) == Process(env, s.mem, e)
    ensures forall k ::
              Get(env, Reopen(env, DurableOf(s1), tick), k) == if k == e.key then AsLive(Some(e)) else Get(env, s, k)
  {
    hide Scan, Replay, FilterGet, Contents, EntrySize;
  }

  /**
   * The exact condition for the answers: the reopen after such a write answers as the running store did if
   * and only if the new frame does not start with the missing bytes, or losing the new entry for the torn
   * one changes no answer.
   */
  lemma WriteOntoTornExact(env: Env, s: State, es: seq<Entry>, e: Entry, n: nat, e2: Entry, tick: nat)
    requires Inv(env, s) && TornLog(env, s.wal, es, e, n) && Storable(env, e2) && NoInnerMagic(Frame(env, e2))
    ensures var s1 := Write(env, s, e2).0;
            SameAnswers(env, s1, Reopen(env, DurableOf(s1), tick)) <==>
              || !Revives(env, e, n, e2)
              || (if e.key == e2.key then AsLive(Some(e)) == AsLive(Some(e2))
                  else Get(env, s, e.key) == AsLive(Some(e)) && Get(env, s, e2.key) == AsLive(Some(e2)))
  {
    hide Frame, Storable, NoInnerMagic, TornLog, Revives, LiveInv, MemIsReplay, Get, Write, Reopen;
    WriteOntoTorn(env, s, es, e, n, e2, tick);
    WriteRefines(env, s, e2);
    var s1 := Write(env, s, e2).0;
    var s2 := Reopen(env, DurableOf(s1), tick);
    if Revives(env, e, n, e2) {
      assert Get(env, s2, e.key) == AsLive(Some(e)) && Get(env, s1, e2.key) == AsLive(Some(e2));
      assert Get(env, s1, e.key) == if e.key == e2.key then AsLive(Some(e2)) else Get(env, s, e.key);
      assert Get(env, s2, e2.key) == if e.key == e2.key then AsLive(Some(e)) else Get(env, s, e2.key);
    }
  }

  // ----- An acknowledged write that is lost -----

  /** A new store whose first append was torn one byte short, reopened. */
  ghost function TornStore(env: Env, e: Entry): State
    requires Storable(env, e)
  {
    Reopen(env, Durable(Frame(env, e)[..|Frame(env, e)| - 1], map[]), 0)
  }

  /** That is what the crash leaves. */
  lemma TornStoreReached(env: Env, e: Entry)
    requires Storable(env, e)
    ensures var cut := Inside(0, |Frame(env, e)| - 1);
            CutFits(WriteOps(env, e), cut) && CrashState(env, Fresh(), WriteOps(env, e), cut, 0) == TornStore(env, e)
  {
    hide Frame, Storable, Reopen, CrashState, CutFits;
    FrameIsLong(env, e);
    TornFrames.TornAppend(env, Fresh(), e, |Frame(env, e)| - 1, 0);
    assert [] + Frame(env, e)[..|Frame(env, e)| - 1] == Frame(env, e)[..|Frame(env, e)| - 1];
  }

  lemma TornStoreIsEmpty(env: Env, e: Entry)
    requires Storable(env, e) && NoInnerMagic(Frame(env, e)[..|Frame(env, e)| - 1])
    ensures var s := TornStore(env, e);
            Inv(env, s) && s.mem == EMPTY && s.tick == 0 && forall k :: Get(env, s, k) == None
  {
    hide Frame, Storable, Scan, NoInnerMagic, Deserialize, FilesOk, FilterGet, Contents;
    var n := |Frame(env, e)| - 1;
    TornTailIsDropped(env, [], e, n);
    EmptyFrames(env);
    assert [] + Frame(env, e)[..n] == Frame(env, e)[..n];
    FreshIsEmpty(env);
    Crash.NoContents();
    forall k ensures FilterGet(env, [], k) == None {
      TornFrames.NothingFound(env, k);
    }
  }

  /**
   * The input, for any codec and hash: an entry whose encoding ends in the first byte of the magic pair is
   * torn one byte short. The next write is answered, and gone after a reopen; the torn one is there instead.
   */
  lemma NextWriteLost(env: Env, e: Entry, e2: Entry, tick: nat)
    requires Storable(env, e) && Storable(env, e2) && e.Set? && e2.Set? && e.key != e2.key
    requires var f := Frame(env, e); f[|f| - 1] == ToLe16(MAGIC)[0] && NoInnerMagic(f[..|f| - 1])
    requires NoInnerMagic(Frame(env, e2))
    ensures var s := TornStore(env, e);
            var (s1, ok) := Write(env, s, e2);
            var s2 := Reopen(env, DurableOf(s1), tick);
            && Get(env, s, e.key) == None
            && ok && Get(env, s1, e2.key) == Some(e2)
            && Get(env, s2, e2.key) == None && Get(env, s2, e.key) == Some(e)
  {
    hide Frame, Frames, Storable, NoInnerMagic, LiveInv, MemIsReplay, Get, Reopen, TornStore, Write;
    var f, n := Frame(env, e), |Frame(env, e)| - 1;
    FrameIsLong(env, e);
    TornStoreIsEmpty(env, e);
    var s := TornStore(env, e);
    EmptyFrames(env);
    TornStoreWal(env, e);
    assert [] + f[..n] == f[..n];
    FramesSingle(env, e2);
    FirstByte(env, [e2]);
    assert f[n..] == [f[n]];
    WriteOntoTorn(env, s, [], e, n, e2, tick);
    WriteRefines(env, s, e2);
    WriteSucceeds(env, s, e2);
  }

  lemma TornStoreWal(env: Env, e: Entry)
    requires Storable(env, e)
    ensures TornStore(env, e).wal == Frame(env, e)[..|Frame(env, e)| - 1]
  {
    hide Frame, Storable, Scan, Replay;
  }

  lemma OtherIsSmall(env: Env, s: State)
    requires LaidOut(env, OTHER) && Storable(env, OTHER) && s.mem == EMPTY
    ensures !ShouldFlush(Write(env, s, OTHER).0.mem)
  {
    hide Frame, Storable;
    LengthOf(OTHER);
    assert env.encode(OTHER) == Encode(OTHER);
  }

  /**
   * Such a command as a client types it, for the codec as laid out: the append of city = NYC is torn one
   * byte short; after the reopen the client is shown b => x, and after another reopen b is not found and
   * city is NYC. No checksum is hit by chance, and no odd byte is needed.
   */
  lemma AcknowledgedWriteLost(env: Env, tick: nat)
    requires LaidOut(env, CITY) && LaidOut(env, OTHER)
    ensures Storable(env, CITY) && OneWord(OTHER.key) && OneWord(OTHER.value)
    ensures var s := TornStore(env, CITY);
            var r := Execute(env, s, SetKey(OTHER.key, OTHER.value));
            var s2 := Reopen(env, DurableOf(r.state), tick);
            && r.ok && r.reply == Some(Shown(OTHER.key, OTHER.value))
            && Get(env, r.state, OTHER.key) == Some(OTHER)
            && Get(env, s2, OTHER.key) == None && Get(env, s2, CITY.key) == Some(CITY)
  {
    hide Frame, Storable, NoInnerMagic, Get, Reopen, TornStore, Write, LaidOut, ShouldFlush, ToLe16;
    CityFrame(env);
    OtherFrame(env);
    MagicBytes();
    TwoSets();
    TornStoreIsEmpty(env, CITY);
    NextWriteLost(env, CITY, OTHER, tick);
    OtherIsSmall(env, TornStore(env, CITY));
  }

  lemma TwoSets()
    ensures CITY.Set? && OTHER.Set? && CITY.key != OTHER.key && OTHER == Set(OTHER.key, OTHER.value)
    ensures OneWord(OTHER.key) && OneWord(OTHER.value)
  {
    assert |CITY.key| != |OTHER.key|;
  }
}
