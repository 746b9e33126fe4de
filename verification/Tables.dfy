/** SSTable files: opening, reading entry by entry up to the footer, and what a file cut short holds. */
module Tables {
  import opened Bytes
  import opened Entries
  import opened Header
  import opened Reader
  import opened Recovery
  import opened Bloom

  /** `SSTable::from_path` on the bytes of a file: its filter, if it has a footer and a first entry. */
  function OpenTable(env: Env, data: bytes): (r: Option<Filter>)
    ensures r.Some? ==> |r.value.inner| == ByteCount(r.value.bitCount) && |r.value.inner| + 4 <= |data|
  {
    match ReadFooter(data)
    case None => None
    case Some(f) => if NextHit(env, data, 0).Some? then Some(f) else None
  }

  /** Where the footer starts. */
  function FooterStart(data: bytes, f: Filter): nat
    requires |f.inner| + 4 <= |data|
  {
    |data| - (|f.inner| + 4)
  }

  /** What repeated `read_next_entry` returns: a read may start at the footer, but not past its start. */
  function ReadUntil(env: Env, data: bytes, limit: nat, pos: nat): seq<Entry>
    decreases |data| - pos
  {
    if pos > limit then []
    else match NextHit(env, data, pos)
         case None => []
         case Some(h) => [h.entry] + ReadUntil(env, data, limit, h.end)
  }

  /** The entries of a file; a file that does not open has none. */
  function TableEntries(env: Env, data: bytes): seq<Entry> {
    match OpenTable(env, data)
    case None => []
    case Some(f) => ReadUntil(env, data, FooterStart(data, f), 0)
  }

  lemma OpenedTableNotEmpty(env: Env, data: bytes)
    ensures OpenTable(env, data).Some? <==> TableEntries(env, data) != []
  {
    hide Deserialize, ReadFooter;
  }

  /** What is read decodes, so it can be written again. */
  lemma {:induction false} ReadUntilEncodes(env: Env, data: bytes, limit: nat, pos: nat)
    ensures forall e | e in ReadUntil(env, data, limit, pos) :: env.encode(e).Some?
    decreases |data| - pos
  {
    hide Deserialize;
    if pos <= limit && NextHit(env, data, pos).Some? {
      HitEncodes(env, data, pos);
      ReadUntilEncodes(env, data, limit, NextHit(env, data, pos).value.end);
    }
  }

  lemma TableEntriesEncode(env: Env, data: bytes)
    ensures forall e | e in TableEntries(env, data) :: env.encode(e).Some?
  {
    hide OpenTable, ReadUntil;
    match OpenTable(env, data) {
      case None =>
      case Some(f) => ReadUntilEncodes(env, data, FooterStart(data, f), 0);
    }
  }

  // ----- A complete file reads back exactly -----

  lemma {:induction false} ReadUntilFrames(env: Env, data: bytes, limit: nat, pos: nat, es: seq<Entry>)
    requires AllStorable(env, es) && pos <= |data| && Frames(env, es) <= data[pos..]
    requires pos + |Frames(env, es)| <= limit
    ensures ReadUntil(env, data, limit, pos) == es + ReadUntil(env, data, limit, pos + |Frames(env, es)|)
    decreases |es|
  {
    hide Deserialize, Frame, Storable;
    if es != [] {
      var f := Frame(env, es[0]);
      NextHitAtFrame(env, data, pos, es[0]);
      FramesTail(env, data, pos, es);
      ReadUntilFrames(env, data, limit, pos + |f|, es[1..]);
      HeadAndTail(es, ReadUntil(env, data, limit, pos + |Frames(env, es)|));
    }
  }

  lemma HeadAndTail(es: seq<Entry>, rest: seq<Entry>)
    requires es != []
    ensures [es[0]] + (es[1..] + rest) == es + rest
  {}

  lemma QuietMeansNoHit(env: Env, data: bytes, pos: nat)
    requires pos <= |data|
    ensures NextHit(env, data, pos).None? <==> Quiet(env, data, pos, |data|)
  {
    hide Deserialize;
    NextHitIsFirst(env, data, pos);
    if Quiet(env, data, pos, |data|) {
      SkipQuiet(env, data, pos, |data|);
    }
  }

  /**
   * The file a flush writes opens with its own filter and reads back as its entries in order, and as
   * nothing more exactly when no window inside its footer decodes: the scan does run into the footer.
   */
  lemma TableRoundTrip(env: Env, es: seq<Entry>, bitCount: nat)
    requires AllStorable(env, es) && es != [] && bitCount < U32_LIMIT
    ensures var data := Frames(env, es) + Footer(env, bitCount, es);
            && OpenTable(env, data) == Some(Filter(bitCount, FilterOf(env, bitCount, es)))
            && es <= TableEntries(env, data)
            && (Quiet(env, data, |Frames(env, es)|, |data|) <==> TableEntries(env, data) == es)
  {
    hide Deserialize, Frame, FilterOf, Footer, Storable;
    var frames := Frames(env, es);
    var data := frames + Footer(env, bitCount, es);
    FooterRoundTrip(env, frames, bitCount, es);
    FirstFrameFound(env, es, data);
    assert data[0..] == data;
    ReadUntilFrames(env, data, |frames|, 0, es);
    QuietMeansNoHit(env, data, |frames|);
  }

  lemma FirstFrameFound(env: Env, es: seq<Entry>, data: bytes)
    requires AllStorable(env, es) && es != [] && Frames(env, es) <= data
    ensures NextHit(env, data, 0).Some?
  {
    hide Deserialize, Frame;
    assert data[0..] == data;
    NextHitAtFrame(env, data, 0, es[0]);
  }

  /** A footer no longer than a header cannot hide a frame, whatever the hash is: four keys or fewer. */
  lemma ShortFooterIsQuiet(env: Env, es: seq<Entry>, bitCount: nat)
    requires AllStorable(env, es) && bitCount <= 48
    ensures var data := Frames(env, es) + Footer(env, bitCount, es);
            Quiet(env, data, |Frames(env, es)|, |data|)
  {
    var data := Frames(env, es) + Footer(env, bitCount, es);
    assert |Footer(env, bitCount, es)| <= HEADER_LEN;
    forall p: nat | |Frames(env, es)| <= p < |data| ensures Deserialize(env, data[p..]).Err? {
      NoMagicNoEntry(env, data[p..]);
    }
  }

  // ----- A file cut short holds a prefix -----

  /** Frames that reach past the footer's start are read until the scan is past it, and then no more. */
  lemma {:induction false} ReadUntilStops(env: Env, data: bytes, limit: nat, pos: nat, es: seq<Entry>)
    requires AllStorable(env, es) && pos <= |data| && Frames(env, es) <= data[pos..]
    requires limit < pos + |Frames(env, es)|
    ensures ReadUntil(env, data, limit, pos) <= es
    decreases |es|
  {
    hide Deserialize, Frame, Storable;
    if es != [] && pos <= limit {
      NextHitAtFrame(env, data, pos, es[0]);
      FramesTail(env, data, pos, es);
      ReadUntilStops(env, data, limit, pos + |Frame(env, es[0])|, es[1..]);
    }
  }

  /** How many whole frames fit in `n` bytes. */
  function WholeFrames(env: Env, es: seq<Entry>, n: nat): (k: nat)
    requires AllStorable(env, es)
    ensures k <= |es|
    decreases |es|
  {
    if es == [] || |Frame(env, es[0])| > n then 0
    else 1 + WholeFrames(env, es[1..], n - |Frame(env, es[0])|)
  }

  lemma {:induction false} WholeFramesFit(env: Env, es: seq<Entry>, n: nat)
    requires AllStorable(env, es)
    ensures |Frames(env, es[..WholeFrames(env, es, n)])| <= n
    ensures Frames(env, es[..WholeFrames(env, es, n)]) <= Frames(env, es)
    ensures |Frames(env, es)| <= n ==> WholeFrames(env, es, n) == |es|
    decreases |es|
  {
    hide Frame, Storable;
    var k := WholeFrames(env, es, n);
    if es != [] && |Frame(env, es[0])| <= n {
      var m := n - |Frame(env, es[0])|;
      WholeFramesFit(env, es[1..], m);
      assert es[..k] == [es[0]] + es[1..][..k - 1];
      assert es[..k][1..] == es[1..][..k - 1];
    }
  }

  /** The end of the last whole frame of `es` in its first `n` bytes. */
  function CutPoint(env: Env, es: seq<Entry>, n: nat): (p: nat)
    requires AllStorable(env, es)
    ensures p <= n
  {
    WholeFramesFit(env, es, n);
    |Frames(env, es[..WholeFrames(env, es, n)])|
  }

  /** Behind its last whole frame the file holds no window that decodes. */
  ghost predicate CleanTail(env: Env, es: seq<Entry>, data: bytes)
    requires AllStorable(env, es)
  {
    Quiet(env, data, CutPoint(env, es, |data|), |data|)
  }

  /**
   * The file does not open, or the footer it seems to have starts inside its whole frames, so that the scan
   * stops there, or behind its last whole frame no window decodes.
   */
  ghost predicate HarmlessCut(env: Env, es: seq<Entry>, data: bytes)
    requires AllStorable(env, es)
  {
    match OpenTable(env, data)
    case None => true
    case Some(f) => FooterStart(data, f) < CutPoint(env, es, |data|) || CleanTail(env, es, data)
  }

  /** Cut at any byte, a file shows no entry beyond its whole frames exactly when the cut is harmless. */
  lemma CutTableExact(env: Env, es: seq<Entry>, rest: bytes, n: nat)
    requires AllStorable(env, es) && n <= |Frames(env, es) + rest|
    ensures var data := (Frames(env, es) + rest)[..n];
            HarmlessCut(env, es, data) <==> TableEntries(env, data) <= es[..WholeFrames(env, es, n)]
  {
    hide Deserialize, Frame, Storable, WholeFrames, Frames, NextHit, OpenTable, Quiet;
    var data := (Frames(env, es) + rest)[..n];
    var whole := es[..WholeFrames(env, es, n)];
    WholeFramesFit(env, es, n);
    var p := |Frames(env, whole)|;
    assert data[0..] == data;
    match OpenTable(env, data) {
      case None =>
      case Some(f) =>
        var limit := FooterStart(data, f);
        if limit < p {
          ReadUntilStops(env, data, limit, 0, whole);
        } else {
          ReadUntilFrames(env, data, limit, 0, whole);
          QuietMeansNoHit(env, data, p);
        }
    }
  }

  /** Any byte prefix of a file shows a prefix of the entries it was to hold, if the cut is harmless. */
  lemma HarmlessPrefix(env: Env, es: seq<Entry>, rest: bytes, n: nat)
    requires AllStorable(env, es) && n <= |Frames(env, es) + rest|
    requires HarmlessCut(env, es, (Frames(env, es) + rest)[..n])
    ensures TableEntries(env, (Frames(env, es) + rest)[..n]) <= es
  {
    hide Storable, Frames, TableEntries, HarmlessCut;
    CutTableExact(env, es, rest, n);
  }

  /** A file with a complete footer is harmless exactly when no window of the footer decodes. */
  lemma CompleteIsHarmless(env: Env, es: seq<Entry>, bitCount: nat)
    requires AllStorable(env, es) && es != [] && bitCount < U32_LIMIT
    ensures var data := Frames(env, es) + Footer(env, bitCount, es);
            HarmlessCut(env, es, data) <==> Quiet(env, data, |Frames(env, es)|, |data|)
  {
    hide Deserialize, Frame, Storable, WholeFrames, FilterOf, Footer;
    var data := Frames(env, es) + Footer(env, bitCount, es);
    TableRoundTrip(env, es, bitCount);
    WholeFramesFit(env, es, |data|);
    assert es[..|es|] == es;
  }

  // ----- The reader -----

  class SSTable {
    const bloom: BloomFilter
    const bloomPos: nat
    const file: Stream

    constructor (bloom: BloomFilter, bloomPos: nat, file: Stream)
      ensures this.bloom == bloom && this.bloomPos == bloomPos && this.file == file
    {
      this.bloom, this.bloomPos, this.file := bloom, bloomPos, file;
    }

    /** The entries still to be read. */
    function Rest(env: Env): seq<Entry>
      reads file
    {
      ReadUntil(env, file.data, bloomPos, file.pos)
    }

    /** `from_path`; null stands for its `None`. */
    static method FromPath(env: Env, data: bytes) returns (t: SSTable?)
      ensures t == null <==> OpenTable(env, data).None?
      ensures t != null ==>
                && fresh(t) && fresh(t.file) && fresh(t.bloom) && fresh(t.bloom.inner) && t.bloom.Valid()
                && Some(Filter(t.bloom.bitCount, t.bloom.inner[..])) == OpenTable(env, data)
                && t.Rest(env) == TableEntries(env, data)
    {
      hide Deserialize;
      var file := new Stream(data);
      var bloom := ReadBloomFilter(file);
      if bloom == null {
        return null;
      }
      var footerLen := bloom.inner.Length + 4;
      var bloomPos := |file.data| - footerLen;
      var any := file.HasAtLeastOne(env);
      if !any {
        return null;
      }
      t := new SSTable(bloom, bloomPos, file);
    }

    /** `read_next_entry`: `None` once the cursor is past the start of the footer. */
    method ReadNextEntry(env: Env) returns (r: Option<Entry>)
      modifies file`pos
      ensures if old(Rest(env)) == [] then r == None && Rest(env) == []
              else r == Some(old(Rest(env))[0]) && Rest(env) == old(Rest(env))[1..]
    {
      hide Deserialize;
      if file.pos > bloomPos {
        return None;
      }
      r := file.ReadNext(env);
    }
  }

  /** `read_bloom_filter`: on success the cursor is back at the start. */
  method ReadBloomFilter(file: Stream) returns (b: BloomFilter?)
    modifies file`pos
    ensures b == null <==> ReadFooter(file.data).None?
    ensures b != null ==>
              && fresh(b) && fresh(b.inner) && b.Valid() && file.pos == 0
              && Some(Filter(b.bitCount, b.inner[..])) == ReadFooter(file.data)
  {
    hide FromLe32;
    file.Seek(|file.data|);
    var size := file.pos;
    if size < 4 {
      return null;
    }
    file.Seek(size - 4);
    var bitCount := FromLe32(file.data[file.pos..]);
    var byteCount := ByteCount(bitCount);
    if size < byteCount + 4 {
      return null;
    }
    file.Seek(size - (byteCount + 4));
    var inner := file.data[file.pos..file.pos + byteCount];
    file.Seek(0);
    b := new BloomFilter.FromBytes(bitCount, inner);
  }
}
