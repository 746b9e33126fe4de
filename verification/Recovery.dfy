/** What the scan recovers from sequences of frames, from junk between them, and from damage. */
module Recovery {
  import opened Bytes
  import opened Entries
  import opened Header
  import opened Reader

  ghost predicate AllStorable(env: Env, es: seq<Entry>) {
    forall e | e in es :: Storable(env, e)
  }

  /** The frames of `es`, one after the other. */
  function Frames(env: Env, es: seq<Entry>): bytes
    requires AllStorable(env, es)
  {
    if es == [] then [] else Frame(env, es[0]) + Frames(env, es[1..])
  }

  /** The windows of those frames in a file that holds them from `base` on. */
  function HitsOf(env: Env, es: seq<Entry>, base: nat): seq<Hit>
    requires AllStorable(env, es)
  {
    if es == [] then []
    else
      var end := base + |Frame(env, es[0])|;
      [Hit(base, es[0], end)] + HitsOf(env, es[1..], end)
  }

  lemma {:induction false} HitsOfEntries(env: Env, es: seq<Entry>, base: nat)
    requires AllStorable(env, es)
    ensures EntriesOf(HitsOf(env, es, base)) == es
    decreases |es|
  {
    hide Frame;
    if es != [] {
      var end := base + |Frame(env, es[0])|;
      HitsOfEntries(env, es[1..], end);
      assert HitsOf(env, es, base)[1..] == HitsOf(env, es[1..], end);
      assert forall i | 1 <= i < |es| ::
          EntriesOf(HitsOf(env, es, base))[i] == EntriesOf(HitsOf(env, es[1..], end))[i - 1];
    }
  }

  lemma {:induction false} FramesConcat(env: Env, a: seq<Entry>, b: seq<Entry>)
    requires AllStorable(env, a) && AllStorable(env, b)
    ensures AllStorable(env, a + b)
    ensures Frames(env, a + b) == Frames(env, a) + Frames(env, b)
    decreases |a|
  {
    hide Frame;
    if a == [] {
      assert a + b == b;
    } else {
      assert (a + b)[1..] == a[1..] + b;
      FramesConcat(env, a[1..], b);
    }
  }

  lemma FramesSingle(env: Env, e: Entry)
    requires Storable(env, e)
    ensures Frames(env, [e]) == Frame(env, e)
  {
    hide Frame;
    assert [e][1..] == [];
  }

  /** At the start of a frame the scan finds that frame. */
  lemma NextHitAtFrame(env: Env, data: bytes, pos: nat, e: Entry)
    requires Storable(env, e) && pos <= |data| && Frame(env, e) <= data[pos..]
    ensures NextHit(env, data, pos) == Some(Hit(pos, e, pos + |Frame(env, e)|))
  {
    hide Deserialize, Frame;
    FrameRoundTrip(env, e, data[pos..][|Frame(env, e)|..]);
    assert data[pos..] == Frame(env, e) + data[pos..][|Frame(env, e)|..];
  }

  lemma FramesTail(env: Env, data: bytes, pos: nat, es: seq<Entry>)
    requires AllStorable(env, es) && es != [] && pos <= |data| && Frames(env, es) <= data[pos..]
    ensures AllStorable(env, es[1..]) && Storable(env, es[0])
    ensures var f := Frame(env, es[0]);
            && f <= data[pos..] && pos + |f| <= |data| && Frames(env, es[1..]) <= data[pos + |f|..]
            && |Frames(env, es)| == |f| + |Frames(env, es[1..])|
  {
    hide Frame, Storable;
    var f := Frame(env, es[0]);
    assert data[pos + |f|..] == data[pos..][|f|..];
    assert Frames(env, es[1..]) == Frames(env, es)[|f|..];
  }

  /** Frames are read back in order, and then the scan goes on behind them. */
  lemma {:induction false} ScanFrames(env: Env, data: bytes, pos: nat, es: seq<Entry>)
    requires AllStorable(env, es) && pos <= |data| && Frames(env, es) <= data[pos..]
    ensures Scan(env, data, pos) == HitsOf(env, es, pos) + Scan(env, data, pos + |Frames(env, es)|)
    decreases |es|
  {
    hide Deserialize, Frame;
    if es != [] {
      var f := Frame(env, es[0]);
      var end := pos + |f|;
      NextHitAtFrame(env, data, pos, es[0]);
      FramesTail(env, data, pos, es);
      ScanFrames(env, data, end, es[1..]);
      assert Scan(env, data, pos) == [Hit(pos, es[0], end)] + Scan(env, data, end);
    }
  }

  lemma NothingAtTheEnd(env: Env, data: bytes)
    ensures Scan(env, data, |data|) == []
  {}

  lemma ScanSkipsQuiet(env: Env, data: bytes, lo: nat, hi: nat)
    requires lo <= hi <= |data| && Quiet(env, data, lo, hi)
    ensures Scan(env, data, lo) == Scan(env, data, hi)
  {
    SkipQuiet(env, data, lo, hi);
  }

  /** Frames and nothing else, or frames and a quiet tail: replay gives exactly the entries written. */
  lemma ScanFramesQuietTail(env: Env, data: bytes, es: seq<Entry>)
    requires AllStorable(env, es) && Frames(env, es) <= data
    requires Quiet(env, data, |Frames(env, es)|, |data|)
    ensures Scan(env, data, 0) == HitsOf(env, es, 0)
  {
    hide *;
    assert data[0..] == data;
    ScanFrames(env, data, 0, es);
    ScanSkipsQuiet(env, data, |Frames(env, es)|, |data|);
    NothingAtTheEnd(env, data);
  }

  // ----- General resynchronisation -----

  /** A file is any interleaving of valid frames and junk. */
  datatype Segment = Good(entry: Entry) | Junk(raw: bytes)

  ghost predicate Framable(env: Env, segs: seq<Segment>) {
    forall s | s in segs && s.Good? :: Storable(env, s.entry)
  }

  ghost function Raw(env: Env, s: Segment): bytes
    requires s.Good? ==> Storable(env, s.entry)
  {
    match s
    case Good(e) => Frame(env, e)
    case Junk(raw) => raw
  }

  ghost function Layout(env: Env, segs: seq<Segment>): bytes
    requires Framable(env, segs)
  {
    if segs == [] then [] else Raw(env, segs[0]) + Layout(env, segs[1..])
  }

  /** The framed entries in order, each at its own offset. */
  ghost function Framed(env: Env, segs: seq<Segment>, base: nat): seq<Hit>
    requires Framable(env, segs)
  {
    if segs == [] then []
    else
      var end := base + |Raw(env, segs[0])|;
      (if segs[0].Good? then [Hit(base, segs[0].entry, end)] else []) + Framed(env, segs[1..], end)
  }

  /** No window that starts inside junk decodes, in the file as it stands. */
  ghost predicate Silent(env: Env, data: bytes, base: nat, segs: seq<Segment>)
    requires Framable(env, segs) && base <= |data| && data[base..] == Layout(env, segs)
    decreases |segs|
  {
    segs == [] ||
    (var end := base + |Raw(env, segs[0])|;
     LayoutTail(env, data, base, segs);
     && (segs[0].Junk? ==> Quiet(env, data, base, end))
     && Silent(env, data, end, segs[1..]))
  }

  lemma LayoutTail(env: Env, data: bytes, base: nat, segs: seq<Segment>)
    requires Framable(env, segs) && segs != [] && base <= |data| && data[base..] == Layout(env, segs)
    ensures var end := base + |Raw(env, segs[0])|; end <= |data| && data[end..] == Layout(env, segs[1..])
    ensures data[base..base + |Raw(env, segs[0])|] == Raw(env, segs[0])
  {
    hide Frame;
    var n := |Raw(env, segs[0])|;
    assert data[base + n..] == data[base..][n..];
    assert data[base..base + n] == data[base..][..n];
  }

  lemma {:induction false} FramedStartsLate(env: Env, segs: seq<Segment>, base: nat)
    requires Framable(env, segs)
    ensures forall h | h in Framed(env, segs, base) :: base <= h.at
    decreases |segs|
  {
    hide Frame;
    if segs != [] {
      FramedStartsLate(env, segs[1..], base + |Raw(env, segs[0])|);
    }
  }

  /** The exact condition under which repeated reads return the framed entries, and nothing else. */
  lemma {:induction false} Resynchronises(env: Env, data: bytes, base: nat, segs: seq<Segment>)
    requires Framable(env, segs) && base <= |data| && data[base..] == Layout(env, segs)
    ensures Silent(env, data, base, segs) <==> Scan(env, data, base) == Framed(env, segs, base)
    decreases |segs|
  {
    hide Deserialize, Frame;
    if segs != [] {
      LayoutTail(env, data, base, segs);
      var end := base + |Raw(env, segs[0])|;
      Resynchronises(env, data, end, segs[1..]);
      FramedStartsLate(env, segs[1..], end);
      match segs[0] {
        case Good(e) =>
          assert data[base..] == Frame(env, e) + data[end..];
          NextHitAtFrame(env, data, base, e);
          var tail, framedTail := Scan(env, data, end), Framed(env, segs[1..], end);
          assert Scan(env, data, base) == [Hit(base, e, end)] + tail;
          assert Framed(env, segs, base) == [Hit(base, e, end)] + framedTail;
          assert ([Hit(base, e, end)] + tail)[1..] == tail;
          assert ([Hit(base, e, end)] + framedTail)[1..] == framedTail;
        case Junk(raw) =>
          assert Framed(env, segs, base) == Framed(env, segs[1..], end);
          if Quiet(env, data, base, end) {
            ScanSkipsQuiet(env, data, base, end);
          } else {
            NextHitIsFirst(env, data, base);
            var h := NextHit(env, data, base).value;
            assert Scan(env, data, base)[0] == h;
            assert h.at < end;
          }
      }
    }
  }

  // ----- Growth: appending never disturbs what is already read, unless junk comes to life -----

  /** The windows the scan of `data` passed over still do not decode in the longer file. */
  ghost predicate StillQuiet(env: Env, data: bytes, grown: bytes, pos: nat)
    requires data <= grown
    decreases |data| - pos
  {
    match NextHit(env, data, pos)
    case None => Quiet(env, grown, pos, |data|)
    case Some(h) => Quiet(env, grown, pos, h.at) && StillQuiet(env, data, grown, h.end)
  }

  /** A success stays a success when the file grows. */
  lemma HitSurvives(env: Env, data: bytes, grown: bytes, pos: nat)
    requires data <= grown && pos <= |data| && NextHit(env, data, pos).Some?
    ensures var h := NextHit(env, data, pos).value;
            NextHit(env, grown, h.at) == Some(h)
  {
    hide Deserialize;
    NextHitIsFirst(env, data, pos);
    var h := NextHit(env, data, pos).value;
    var n := h.end - h.at;
    assert grown[h.at..][..n] == grown[h.at..h.end] == data[h.at..h.end] == data[h.at..][..n];
    FrameLocality(env, data[h.at..], grown[h.at..]);
  }

  /** The exact condition under which the longer file replays as the old entries and then the new ones. */
  lemma {:induction false} GrowthKeepsScan(env: Env, data: bytes, grown: bytes, pos: nat)
    requires data <= grown && pos <= |data|
    ensures StillQuiet(env, data, grown, pos)
       <==> Scan(env, grown, pos) == Scan(env, data, pos) + Scan(env, grown, |data|)
    decreases |data| - pos
  {
    hide Deserialize;
    NextHitIsFirst(env, grown, pos);
    var rest := Scan(env, grown, |data|);
    match NextHit(env, data, pos) {
      case None =>
        if Quiet(env, grown, pos, |data|) {
          ScanSkipsQuiet(env, grown, pos, |data|);
        } else {
          assert Scan(env, grown, pos)[0].at < |data|;
          assert rest != [] ==> rest[0].at >= |data|;
        }
      case Some(h) =>
        HitSurvives(env, data, grown, pos);
        GrowthKeepsScan(env, data, grown, h.end);
        SameBehind(h, Scan(env, grown, h.end), Scan(env, data, h.end), rest);
        if Quiet(env, grown, pos, h.at) {
          ScanSkipsQuiet(env, grown, pos, h.at);
          assert Scan(env, grown, pos) == [h] + Scan(env, grown, h.end);
        } else {
          assert Scan(env, grown, pos)[0].at < h.at;
        }
    }
  }

  lemma SameBehind(h: Hit, a: seq<Hit>, b: seq<Hit>, c: seq<Hit>)
    ensures [h] + a == [h] + b + c <==> a == b + c
    ensures ([h] + b + c)[0] == h
  {
    assert [h] + b + c == [h] + (b + c);
    assert ([h] + a)[1..] == a && ([h] + (b + c))[1..] == b + c;
  }

  /** A window that decodes is never skipped for good: some hit of the scan ends behind its start. */
  lemma {:induction false} LateWindowIsFound(env: Env, data: bytes, pos: nat, p: nat)
    requires pos <= p < |data| && Deserialize(env, data[p..]).Ok?
    ensures exists h :: h in Scan(env, data, pos) && p < h.end
    decreases |data| - pos
  {
    hide Deserialize;
    NextHitIsFirst(env, data, pos);
    var h := NextHit(env, data, pos).value;
    assert Scan(env, data, pos) == [h] + Scan(env, data, h.end);
    if h.end <= p {
      LateWindowIsFound(env, data, h.end, p);
      var late :| late in Scan(env, data, h.end) && p < late.end;
      assert late in Scan(env, data, pos);
    } else {
      assert h in Scan(env, data, pos);
    }
  }

  lemma {:induction false} HitsEndInside(env: Env, data: bytes, pos: nat)
    ensures forall h | h in Scan(env, data, pos) :: h.end <= |data|
    decreases |data| - pos
  {
    hide Deserialize;
    if NextHit(env, data, pos).Some? {
      HitsEndInside(env, data, NextHit(env, data, pos).value.end);
    }
  }

  /**
   * The exact condition under which bytes added to a file add nothing to what is read: no window passed
   * over comes to life, and none of the new ones decodes.
   */
  lemma TailAddsNothing(env: Env, data: bytes, grown: bytes)
    requires data <= grown
    ensures Scan(env, grown, 0) == Scan(env, data, 0) <==>
              StillQuiet(env, data, grown, 0) && Quiet(env, grown, |data|, |grown|)
  {
    hide Deserialize, StillQuiet, Scan;
    GrowthKeepsScan(env, data, grown, 0);
    HitsEndInside(env, data, 0);
    if Quiet(env, grown, |data|, |grown|) {
      ScanSkipsQuiet(env, grown, |data|, |grown|);
      NothingAtTheEnd(env, grown);
      assert Scan(env, data, 0) + [] == Scan(env, data, 0);
    } else {
      var p: nat :| |data| <= p < |grown| && Deserialize(env, grown[p..]).Ok?;
      LateWindowIsFound(env, grown, 0, p);
    }
  }

  /** Nothing can come to life in a file that holds frames only. */
  lemma {:induction false} CleanStaysQuiet(env: Env, es: seq<Entry>, data: bytes, grown: bytes, pos: nat)
    requires AllStorable(env, es) && pos <= |data| && data[pos..] == Frames(env, es) && data <= grown
    ensures StillQuiet(env, data, grown, pos)
    decreases |es|
  {
    hide Deserialize, Frame;
    if es != [] {
      var f := Frame(env, es[0]);
      NextHitAtFrame(env, data, pos, es[0]);
      assert data[pos + |f|..] == data[pos..][|f|..] == Frames(env, es[1..]);
      CleanStaysQuiet(env, es[1..], data, grown, pos + |f|);
    }
  }

  /** The file holds frames and nothing else, as the log does until a crash tears an append. */
  ghost predicate HoldsFrames(env: Env, data: bytes) {
    exists es :: AllStorable(env, es) && data == Frames(env, es)
  }

  lemma FramesStayQuiet(env: Env, data: bytes, grown: bytes)
    requires HoldsFrames(env, data) && data <= grown
    ensures StillQuiet(env, data, grown, 0)
  {
    hide StillQuiet, Frames;
    var es :| AllStorable(env, es) && data == Frames(env, es);
    assert data[0..] == data;
    CleanStaysQuiet(env, es, data, grown, 0);
  }

  lemma FramesGrow(env: Env, data: bytes, e: Entry)
    requires HoldsFrames(env, data) && Storable(env, e)
    ensures HoldsFrames(env, data + Frame(env, e))
  {
    hide Frames, Frame, Storable;
    var es :| AllStorable(env, es) && data == Frames(env, es);
    FramesSingle(env, e);
    FramesConcat(env, es, [e]);
  }

  lemma NoFrames(env: Env)
    ensures HoldsFrames(env, [])
  {
    assert AllStorable(env, []) && Frames(env, []) == [];
  }

  /**
   * After an append the scan reads what it read before and the new frame at its own offset if and only if
   * nothing that was passed over comes to life; replay then gains exactly the entry.
   */
  lemma AppendedFrameIsRead(env: Env, wal: bytes, e: Entry)
    requires Storable(env, e)
    ensures var grown := wal + Frame(env, e);
            StillQuiet(env, wal, grown, 0) <==>
              Scan(env, grown, 0) == Scan(env, wal, 0) + [Hit(|wal|, e, |grown|)]
    ensures StillQuiet(env, wal, wal + Frame(env, e), 0) ==>
              EntriesOf(Scan(env, wal + Frame(env, e), 0)) == EntriesOf(Scan(env, wal, 0)) + [e]
  {
    hide Deserialize, Frame;
    var grown := wal + Frame(env, e);
    assert grown[|wal|..] == Frame(env, e);
    NextHitAtFrame(env, grown, |wal|, e);
    assert Scan(env, grown, |grown|) == [];
    GrowthKeepsScan(env, wal, grown, 0);
    assert Scan(env, grown, |wal|) == [Hit(|wal|, e, |grown|)];
  }

  /** A frame cut short at any byte is junk at its own start: its length field asks for more. */
  lemma TornFrameRejected(env: Env, e: Entry, n: nat)
    requires Storable(env, e) && n < |Frame(env, e)|
    ensures Deserialize(env, Frame(env, e)[..n]) == Err(NotEnoughBytes)
  {
    if n > HEADER_LEN {
      TornLength(env, e, n);
      hide Crc32.Hash, FromLe16, FromLeWord, FromLe32, ToLe32, Frame;
    }
  }

  lemma TornLength(env: Env, e: Entry, n: nat)
    requires Storable(env, e) && HEADER_LEN < n <= |Frame(env, e)|
    ensures FromLe32(Frame(env, e)[..n][6..10]) == |Payload(env, e)|
  {
    hide Crc32.Hash, FromLe32, ToLe32, ToLe16, ToLeWord;
    var p := Payload(env, e);
    var f := Frame(env, e);
    assert f == (ToLe16(MAGIC) + ToLeWord(Crc32.Hash(p))) + (ToLe32(|p|) + p);
    assert f[6..10] == ToLe32(|p|);
    assert f[..n][6..10] == f[6..10];
    Le32RoundTrip(|p|);
  }

  /** No window of a torn frame decodes, if it holds no magic pair after its first byte. */
  lemma TornFrameIsQuiet(env: Env, e: Entry, n: nat, data: bytes, base: nat)
    requires Storable(env, e) && n < |Frame(env, e)| && NoInnerMagic(Frame(env, e)[..n])
    requires base <= |data| && data[base..] == Frame(env, e)[..n]
    ensures Quiet(env, data, base, |data|)
  {
    hide Deserialize, Frame, ToLe16;
    var torn := Frame(env, e)[..n];
    forall p: nat | base <= p < |data| ensures Deserialize(env, data[p..]).Err? {
      var q, w := p - base, data[p..];
      if q == 0 {
        TornFrameRejected(env, e, n);
      } else {
        assert w == data[base..][q..];
        if q + 2 <= n {
          assert w[0] == torn[q] && w[1] == torn[q + 1];
          assert w[..2] == [w[0], w[1]];
        }
        NoMagicNoEntry(env, w);
      }
    }
  }

  /** A log whose last frame is cut at any byte replays as all entries before it. */
  lemma TornTailIsDropped(env: Env, es: seq<Entry>, e: Entry, n: nat)
    requires AllStorable(env, es) && Storable(env, e)
    requires n < |Frame(env, e)| && NoInnerMagic(Frame(env, e)[..n])
    ensures EntriesOf(Scan(env, Frames(env, es) + Frame(env, e)[..n], 0)) == es
  {
    hide Deserialize, Frame, NoInnerMagic, Storable;
    var data := Frames(env, es) + Frame(env, e)[..n];
    assert data[|Frames(env, es)|..] == Frame(env, e)[..n];
    TornFrameIsQuiet(env, e, n, data, |Frames(env, es)|);
    ScanFramesQuietTail(env, data, es);
    HitsOfEntries(env, es, 0);
  }

  // ----- Damage -----

  /** No magic pair after the first byte. */
  ghost predicate NoInnerMagic(bad: bytes) {
    forall p | 1 <= p < |bad| - 1 :: bad[p] == ToLe16(MAGIC)[0] ==> bad[p + 1] != ToLe16(MAGIC)[1]
  }

  lemma FramesStartWithMagic(env: Env, es: seq<Entry>)
    requires AllStorable(env, es) && es != []
    ensures |Frames(env, es)| > 2 && Frames(env, es)[0] == ToLe16(MAGIC)[0]
  {
    assert Frame(env, es[0])[0] == ToLe16(MAGIC)[0];
  }

  lemma MagicBytesDiffer()
    ensures ToLe16(MAGIC)[0] != ToLe16(MAGIC)[1]
  {}

  lemma DamagedFrameIsQuiet(env: Env, e: Entry, bad: bytes, es: seq<Entry>, data: bytes, base: nat)
    requires Storable(env, e) && AllStorable(env, es) && Damaged(Frame(env, e), bad) && NoInnerMagic(bad)
    requires base <= |data| && data[base..] == bad + Frames(env, es)
    ensures Quiet(env, data, base, base + |bad|)
  {
    hide Deserialize, Frame, ToLe16;
    forall p: nat | base <= p < base + |bad| ensures Deserialize(env, data[p..]).Err? {
      var q, w := p - base, data[p..];
      if q == 0 {
        DamageRejected(env, e, bad, Frames(env, es));
      } else {
        assert w == data[base..][q..];
        if q + 2 <= |bad| {
          assert w[0] == bad[q] && w[1] == bad[q + 1];
        } else if es != [] {
          FramesStartWithMagic(env, es);
          MagicBytesDiffer();
          assert w[1] == Frames(env, es)[0];
        }
        assert |w| >= 2 ==> w[..2] == [w[0], w[1]];
        NoMagicNoEntry(env, w);
      }
    }
  }

  /**
   * One damaged frame costs exactly its own entry: every entry before and after it is still read, at its
   * own offset, and nothing else is.
   */
  lemma DamageCostsOneEntry(env: Env, before: seq<Entry>, e: Entry, bad: bytes, after: seq<Entry>)
    requires AllStorable(env, before) && Storable(env, e) && AllStorable(env, after)
    requires Damaged(Frame(env, e), bad) && NoInnerMagic(bad)
    ensures var data := Frames(env, before) + bad + Frames(env, after);
            && Scan(env, data, 0)
               == HitsOf(env, before, 0) + HitsOf(env, after, |Frames(env, before)| + |bad|)
            && EntriesOf(Scan(env, data, 0)) == before + after
  {
    hide *;
    var data := Frames(env, before) + bad + Frames(env, after);
    assert data == Frames(env, before) + (bad + Frames(env, after));
    DamageScan(env, before, e, bad, after, data);
    var hi := |Frames(env, before)| + |bad|;
    HitsOfEntries(env, before, 0);
    HitsOfEntries(env, after, hi);
    EntriesOfConcat(HitsOf(env, before, 0), HitsOf(env, after, hi));
  }

  lemma EntriesOfConcat(a: seq<Hit>, b: seq<Hit>)
    ensures EntriesOf(a + b) == EntriesOf(a) + EntriesOf(b)
  {}

  lemma DamageScan(env: Env, before: seq<Entry>, e: Entry, bad: bytes, after: seq<Entry>, data: bytes)
    requires AllStorable(env, before) && Storable(env, e) && AllStorable(env, after)
    requires Damaged(Frame(env, e), bad) && NoInnerMagic(bad)
    requires data == Frames(env, before) + (bad + Frames(env, after))
    ensures Scan(env, data, 0) == HitsOf(env, before, 0) + HitsOf(env, after, |Frames(env, before)| + |bad|)
  {
    hide *;
    var lo := |Frames(env, before)|;
    var hi := lo + |bad|;
    assert data[0..] == data && data[lo..] == bad + Frames(env, after) && data[hi..] == Frames(env, after);
    ScanFrames(env, data, 0, before);
    DamagedFrameIsQuiet(env, e, bad, after, data, lo);
    ScanSkipsQuiet(env, data, lo, hi);
    ScanFrames(env, data, hi, after);
    NothingAtTheEnd(env, data);
  }

  /** The demonstration of the repository: flip one byte outside the length field, lose that entry alone. */
  lemma OneByteCostsOneEntry(env: Env, before: seq<Entry>, e: Entry, i: nat, b: byte, after: seq<Entry>)
    requires AllStorable(env, before) && Storable(env, e) && AllStorable(env, after)
    requires i < |Frame(env, e)| && !(6 <= i < 10) && Frame(env, e)[i] != b && NoInnerMagic(Frame(env, e)[i := b])
    ensures EntriesOf(Scan(env, Frames(env, before) + Frame(env, e)[i := b] + Frames(env, after), 0)) == before + after
  {
    hide *;
    FrameIsLong(env, e);
    OneByteDamages(Frame(env, e), i, b);
    DamageCostsOneEntry(env, before, e, Frame(env, e)[i := b], after);
  }

  lemma FrameIsLong(env: Env, e: Entry)
    requires Storable(env, e)
    ensures |Frame(env, e)| > HEADER_LEN
  {}
}
