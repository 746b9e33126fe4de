/** Compaction, run to the end or cut at any durable step, and what a reopen then answers. */
module Crash {
  import opened Bytes
  import opened Keys
  import opened Entries
  import opened Header
  import opened Reader
  import opened Recovery
  import opened Bloom
  import opened Disk
  import opened MemTables
  import opened Tables
  import opened Lookup
  import opened Merge
  import opened Plans
  import opened Compaction
  import opened Store
  import opened Refinement

  // ----- The directory after the first steps of a compaction -----

  ghost function Images(env: Env, chunks: seq<seq<Entry>>): (datas: seq<bytes>)
    ensures |datas| == |chunks|
  {
    seq(|chunks|, i requires 0 <= i < |chunks| => FlushImage(env, chunks[i]).0)
  }

  /** Files named by successive clock readings. */
  ghost function OutMap(env: Env, tick: nat, datas: seq<bytes>): map<nat, bytes>
    decreases |datas|
  {
    if datas == [] then map[]
    else
      var n := |datas| - 1;
      OutMap(env, tick, datas[..n])[env.clock(tick + n) := datas[n]]
  }

  ghost function PutsOf(env: Env, tick: nat, datas: seq<bytes>): seq<DiskOp> {
    seq(|datas|, i requires 0 <= i < |datas| => Put(env.clock(tick + i), datas[i]))
  }

  /** `datas` are written, and the `i` newest originals are deleted. */
  ghost function CutFiles(env: Env, files: map<nat, bytes>, tick: nat, datas: seq<bytes>, i: nat): map<nat, bytes>
    requires i <= |files|
  {
    (files + OutMap(env, tick, datas)) - NameSet(Listing(files.Keys)[..i])
  }

  lemma {:induction false} OutMapKeys(env: Env, tick: nat, datas: seq<bytes>)
    ensures forall ts | ts in OutMap(env, tick, datas) :: env.clock(tick) <= ts < env.clock(tick + |datas|)
    decreases |datas|
  {
    if datas != [] {
      OutMapKeys(env, tick, datas[..|datas| - 1]);
    }
  }

  lemma {:induction false} OutMapContents(env: Env, tick: nat, datas: seq<bytes>)
    ensures Contents(OutMap(env, tick, datas)) == Rev(datas)
    decreases |datas|
  {
    hide *;
    OutMapSnoc(env, tick, datas);
    if datas == [] {
      NoContents();
    } else {
      var n := |datas| - 1;
      OutMapKeys(env, tick, datas[..n]);
      OutMapContents(env, tick, datas[..n]);
      ContentsAdd(OutMap(env, tick, datas[..n]), env.clock(tick + n), datas[n]);
      RevSnoc(datas);
    }
  }

  lemma OutMapSnoc(env: Env, tick: nat, datas: seq<bytes>)
    ensures OutMap(env, tick, datas) ==
              if datas == [] then map[]
              else var n := |datas| - 1; OutMap(env, tick, datas[..n])[env.clock(tick + n) := datas[n]]
  {}

  lemma {:induction false} RevSnoc<T>(s: seq<T>)
    requires s != []
    ensures Rev(s) == [s[|s| - 1]] + Rev(s[..|s| - 1])
    decreases |s|
  {
    hide Rev;
    var n := |s| - 1;
    RevCons(s);
    if n > 0 {
      RevSnoc(s[1..]);
      RevCons(s[..n]);
      assert s[1..][..n - 1] == s[..n][1..];
    } else {
      assert s[1..] == [] && s[..n] == [];
      RevNothing<T>();
    }
  }

  lemma RevCons<T>(s: seq<T>)
    requires s != []
    ensures Rev(s) == Rev(s[1..]) + [s[0]]
  {}

  lemma RevNothing<T>()
    ensures Rev<T>([]) == []
  {}

  lemma NoContents()
    ensures Contents(map[]) == []
  {}

  /** What is left of the originals, and what is new. */
  lemma LeftParts(env: Env, files: map<nat, bytes>, tick: nat, datas: seq<bytes>, gone: set<nat>)
    requires ClockAhead(env, files, tick) && gone <= files.Keys
    ensures var outs, kept := OutMap(env, tick, datas), files - gone;
            && (files + outs) - gone == kept + outs && Contents(outs) == Rev(datas)
            && Younger(outs.Keys, kept.Keys, env.clock(tick)) && ClockAhead(env, kept + outs, tick + |datas|)
  {
    hide Contents, OutMap;
    var outs, kept := OutMap(env, tick, datas), files - gone;
    OutMapKeys(env, tick, datas);
    MinusThenPlus(files, outs, gone, env.clock(tick));
    OutMapContents(env, tick, datas);
    LaterClock(env, kept, outs, tick, |datas|);
  }

  /** The outputs come before what is left of the originals. */
  lemma LeftContents(env: Env, files: map<nat, bytes>, tick: nat, datas: seq<bytes>, gone: set<nat>)
    requires ClockAhead(env, files, tick) && gone <= files.Keys
    ensures var left := (files + OutMap(env, tick, datas)) - gone;
            && Contents(left) == Rev(datas) + Contents(files - gone)
            && ClockAhead(env, left, tick + |datas|)
  {
    hide *;
    LeftParts(env, files, tick, datas, gone);
    ContentsUnion(OutMap(env, tick, datas), files - gone, env.clock(tick));
  }

  lemma CutContents(env: Env, files: map<nat, bytes>, tick: nat, datas: seq<bytes>, i: nat)
    requires ClockAhead(env, files, tick) && i <= |files|
    ensures Contents(CutFiles(env, files, tick, datas, i)) == Rev(datas) + Contents(files)[i..]
    ensures ClockAhead(env, CutFiles(env, files, tick, datas, i), tick + |datas|)
  {
    hide Contents, Listing, OutMap, NameSet, Rev, ClockAhead;
    ListedAreFiles(files.Keys, Listing(files.Keys)[..i]);
    ContentsDrop(files, i);
    LeftContents(env, files, tick, datas, NameSet(Listing(files.Keys)[..i]));
  }

  lemma MinusThenPlus(files: map<nat, bytes>, outs: map<nat, bytes>, gone: set<nat>, t: nat)
    requires gone <= files.Keys
    requires (forall ts | ts in outs :: t <= ts) && forall ts | ts in files :: ts < t
    ensures (files + outs) - gone == (files - gone) + outs
    ensures Younger(outs.Keys, (files - gone).Keys, t)
  {}

  lemma LaterClock(env: Env, kept: map<nat, bytes>, outs: map<nat, bytes>, tick: nat, n: nat)
    requires Younger(outs.Keys, kept.Keys, env.clock(tick)) && forall ts | ts in outs :: ts < env.clock(tick + n)
    ensures ClockAhead(env, kept + outs, tick + n)
  {
    assert env.clock(tick) <= env.clock(tick + n);
    forall ts | ts in kept + outs ensures ts < env.clock(tick + n) {
      assert ts in kept.Keys || ts in outs.Keys;
    }
  }

  lemma ListedAreFiles(s: set<nat>, names: seq<nat>)
    requires forall n | n in names :: n in Listing(s)
    ensures NameSet(names) <= s
  {
    forall n | n in NameSet(names) ensures n in s {
      assert n in NameSet(Listing(s));
    }
  }

  lemma {:induction false} FilesAfterPuts(env: Env, files: map<nat, bytes>, tick: nat, datas: seq<bytes>)
    ensures FilesAfter(files, PutsOf(env, tick, datas)) == files + OutMap(env, tick, datas)
    decreases |datas|
  {
    hide FilesAfter, PutsOf;
    PutsOfSnoc(env, tick, datas);
    if datas == [] {
      NoSteps(files);
      assert files + map[] == files;
    } else {
      var n := |datas| - 1;
      FilesAfterPuts(env, files, tick, datas[..n]);
      OneMorePut(files, PutsOf(env, tick, datas[..n]), env.clock(tick + n), datas[n]);
    }
  }

  lemma PutsOfSnoc(env: Env, tick: nat, datas: seq<bytes>)
    ensures PutsOf(env, tick, datas) ==
              if datas == [] then []
              else var n := |datas| - 1; PutsOf(env, tick, datas[..n]) + [Put(env.clock(tick + n), datas[n])]
  {}

  lemma NoSteps(files: map<nat, bytes>)
    ensures FilesAfter(files, []) == files
  {}

  lemma OneMorePut(files: map<nat, bytes>, ops: seq<DiskOp>, ts: nat, data: bytes)
    ensures FilesAfter(files, ops + [Put(ts, data)]) == FilesAfter(files, ops)[ts := data]
  {
    ApplyOpsSnoc(Durable([], files), ops, Put(ts, data));
  }

  lemma {:induction false} FilesAfterRemoves(files: map<nat, bytes>, ops: seq<DiskOp>, names: seq<nat>)
    ensures FilesAfter(files, ops + Removes(names)) == FilesAfter(files, ops) - NameSet(names)
    decreases |names|
  {
    if names == [] {
      assert ops + Removes(names) == ops;
      assert NameSet(names) == {};
    } else {
      var n := |names| - 1;
      FilesAfterRemoves(files, ops, names[..n]);
      assert ops + Removes(names) == ops + Removes(names[..n]) + [Remove(names[n])];
      ApplyOpsSnoc(Durable([], files), ops + Removes(names[..n]), Remove(names[n]));
      assert NameSet(names) == NameSet(names[..n]) + {names[n]};
    }
  }

  /** The outputs written and the originals named so far deleted leave exactly the other files. */
  lemma StepsLeaveFiles(env: Env, files: map<nat, bytes>, tick: nat, datas: seq<bytes>, names: seq<nat>)
    ensures FilesAfter(files, PutsOf(env, tick, datas) + Removes(names))
         == (files + OutMap(env, tick, datas)) - NameSet(names)
  {
    hide FilesAfter, PutsOf, Removes, OutMap;
    FilesAfterPuts(env, files, tick, datas);
    FilesAfterRemoves(files, PutsOf(env, tick, datas), names);
  }

  /** The durable steps up to the `i`-th deletion. */
  lemma StepsLeaveCut(env: Env, files: map<nat, bytes>, tick: nat, datas: seq<bytes>, i: nat)
    requires i <= |files|
    ensures FilesAfter(files, PutsOf(env, tick, datas) + Removes(Listing(files.Keys)[..i]))
         == CutFiles(env, files, tick, datas, i)
  {
    hide FilesAfter, PutsOf, Removes, Listing, OutMap, NameSet;
    StepsLeaveFiles(env, files, tick, datas, Listing(files.Keys)[..i]);
  }

  // ----- What the outputs answer -----

  /** Every entry the outputs show is one the compaction keeps. */
  ghost predicate Honest(env: Env, datas: seq<bytes>, live: seq<Entry>) {
    forall d | d in datas ::
      && SortedEntries(TableEntries(env, d)) && AllStorable(env, TableEntries(env, d))
      && forall e | e in TableEntries(env, d) :: e in live
  }

  lemma {:induction false} FoundInSome(env: Env, datas: seq<bytes>, k: Text, e: Entry)
    requires PlainGet(env, datas, k) == Some(e) || FilterGet(env, datas, k) == Some(e)
    ensures exists d :: d in datas && e in TableEntries(env, d) && e.key == k
    decreases |datas|
  {
    hide OpenTable, TableEntries, MayContain;
    assert TablesOf(env, datas)[1..] == TablesOf(env, datas[1..]);
    assert datas[0] in datas;
    if e !in TableEntries(env, datas[0]) || e.key != k {
      FoundInSome(env, datas[1..], k, e);
      var d :| d in datas[1..] && e in TableEntries(env, d) && e.key == k;
      assert d in datas;
    }
  }

  /** Whatever is found in an output is the winner of the merge, and a Set. */
  lemma HonestLookup(env: Env, datas: seq<bytes>, tables: seq<seq<Entry>>, k: Text)
    requires Honest(env, datas, LiveEntries(tables))
    ensures PlainGet(env, datas, k).Some? ==>
              PlainGet(env, datas, k) == Winner(tables, k) && Winner(tables, k).value.Set?
    ensures FilterGet(env, datas, k).Some? ==>
              FilterGet(env, datas, k) == Winner(tables, k) && Winner(tables, k).value.Set?
  {
    hide PlainGet, FilterGet, LiveEntries, Winner, TableEntries;
    LiveEntriesShape(tables);
    if PlainGet(env, datas, k).Some? {
      FoundInSome(env, datas, k, PlainGet(env, datas, k).value);
    }
    if FilterGet(env, datas, k).Some? {
      FoundInSome(env, datas, k, FilterGet(env, datas, k).value);
    }
  }

  /** The outputs find every key the compaction keeps, with the filters and without. */
  ghost predicate FindsAll(env: Env, datas: seq<bytes>, tables: seq<seq<Entry>>) {
    forall k | AsLive(Winner(tables, k)).Some? ::
      FilterGet(env, datas, k) == PlainGet(env, datas, k) == Winner(tables, k)
  }

  /** Every output that is on disk, complete or cut, shows no entry beyond its whole frames. */
  ghost predicate CleanOutputs(env: Env, chunks: seq<seq<Entry>>, datas: seq<bytes>) {
    && |datas| <= |chunks|
    && forall i | 0 <= i < |datas| :: AllStorable(env, chunks[i]) && HarmlessCut(env, chunks[i], datas[i])
  }

  /** What the compaction of `files` is to keep. */
  ghost function LiveIn(env: Env, files: map<nat, bytes>): seq<Entry> {
    LiveEntries(TablesOf(env, Contents(files)))
  }

  ghost predicate FilesSorted(env: Env, files: map<nat, bytes>) {
    TablesOk(env, TablesOf(env, Contents(files)))
  }

  lemma OutputsFit(env: Env, files: map<nat, bytes>)
    requires FilesSorted(env, files)
    ensures var chunks, live := OutputChunks(env, files), LiveIn(env, files);
            && Flatten(chunks) == live
            && forall c | c in chunks :: Fits(env, c) && SortedEntries(c) && forall e | e in c :: e in live
  {
    hide LiveEntries, Chunks, Fits, Winner, AllStorable, OutputChunks, TablesOf, Contents;
    var tables := TablesOf(env, Contents(files));
    var live := LiveEntries(tables);
    MergeOfSorted(env, files);
    LiveEntriesShape(tables);
    LiveStorable(env, tables);
    ChunksFlatten(env, [], live);
    PendingNothing(env);
    assert [] + live == live;
    ChunksFit(env, [], live);
    ChunksAreParts(Chunks(env, [], live));
  }

  /**
   * What a compaction writes, whatever overlaps the inputs have: files that, read in the order written,
   * form one strictly ascending run of Sets with exactly one entry per live key, its winner; each file can
   * be written to the end. No file repeats or interleaves with the keys of another.
   */
  lemma MergeOutputShape(env: Env, files: map<nat, bytes>)
    requires TablesOk(env, TablesOf(env, Contents(files)))
    ensures var tables, chunks := TablesOf(env, Contents(files)), OutputChunks(env, files);
            && SortedEntries(Flatten(chunks))
            && (forall e | e in Flatten(chunks) :: e.Set?)
            && (forall k :: Find(Flatten(chunks), k) == AsLive(Winner(tables, k)))
            && (forall c | c in chunks :: Fits(env, c) && SortedEntries(c))
  {
    hide LiveEntries, OutputChunks, Winner, Find, Fits, SortedEntries, Contents, TablesOf;
    OutputsFit(env, files);
    LiveEntriesShape(TablesOf(env, Contents(files)));
  }

  lemma LiveStorable(env: Env, tables: seq<seq<Entry>>)
    requires TablesOk(env, tables)
    ensures AllStorable(env, LiveEntries(tables))
  {
    hide LiveEntries, Winner, Storable, AllSorted;
    LiveEntriesShape(tables);
    forall e | e in LiveEntries(tables) ensures Storable(env, e) {
      WinnerIsMember(tables, e.key);
    }
  }

  lemma {:induction false} ChunksAreParts(chunks: seq<seq<Entry>>)
    requires SortedEntries(Flatten(chunks))
    ensures forall c | c in chunks :: SortedEntries(c) && forall e | e in c :: e in Flatten(chunks)
    decreases |chunks|
  {
    hide Less;
    if chunks != [] {
      var all, c, rest := Flatten(chunks), chunks[0], Flatten(chunks[1..]);
      assert chunks == [c] + chunks[1..];
      assert c == all[..|c|] && rest == all[|c|..];
      ChunksAreParts(chunks[1..]);
    }
  }

  lemma OutputsHonest(env: Env, files: map<nat, bytes>, datas: seq<bytes>)
    requires FilesSorted(env, files)
    requires var chunks := OutputChunks(env, files);
             && CleanOutputs(env, chunks, datas)
             && forall i | 0 <= i < |datas| :: datas[i] <= FlushImage(env, chunks[i]).0
    ensures Honest(env, datas, LiveIn(env, files))
  {
    hide LiveIn, OutputChunks, FilesSorted, TableEntries, HarmlessCut, Storable, FlushImage, AllStorable, SortedEntries;
    var chunks := OutputChunks(env, files);
    OutputsFit(env, files);
    forall d | d in datas
      ensures SortedEntries(TableEntries(env, d)) && AllStorable(env, TableEntries(env, d))
      ensures forall e | e in TableEntries(env, d) :: e in LiveIn(env, files)
    {
      var i :| 0 <= i < |datas| && datas[i] == d;
      assert chunks[i] in chunks;
      assert FlushImage(env, chunks[i]).0[..|d|] == d;
      CutImage(env, chunks[i], |d|);
      PrefixOk(env, chunks[i], TableEntries(env, d));
      forall e | e in TableEntries(env, d) ensures e in chunks[i] {
        var j :| 0 <= j < |TableEntries(env, d)| && TableEntries(env, d)[j] == e;
        assert chunks[i][j] == e;
      }
    }
  }

  lemma CompleteOutputs(env: Env, files: map<nat, bytes>)
    requires FilesSorted(env, files)
    requires var chunks := OutputChunks(env, files); CleanOutputs(env, chunks, Images(env, chunks))
    ensures FindsAll(env, Rev(Images(env, OutputChunks(env, files))), TablesOf(env, Contents(files)))
  {
    hide LiveEntries, OutputChunks, Contents, TableEntries, HarmlessCut, Storable, FlushImage, AllStorable,
         SortedEntries, OpenTable, Winner, Find, PlainGet, FilterGet, Covered;
    var chunks, tables := OutputChunks(env, files), TablesOf(env, Contents(files));
    var datas := Images(env, chunks);
    OutputsFit(env, files);
    LiveEntriesShape(tables);
    forall i | 0 <= i < |chunks|
      ensures TableEntries(env, datas[i]) == chunks[i] && Covered(env, datas[i])
    {
      assert chunks[i] in chunks;
      FitsImage(env, chunks[i]);
      CompleteImage(env, chunks[i]);
    }
    assert TablesOf(env, Rev(datas)) == Rev(chunks);
    forall k | AsLive(Winner(tables, k)).Some?
      ensures FilterGet(env, Rev(datas), k) == PlainGet(env, Rev(datas), k) == Winner(tables, k)
    {
      FiltersChangeNothing(env, Rev(datas), k);
      WinnerOfChunks(chunks, k);
      PlainGetIsWinner(env, Rev(datas), k);
    }
  }

  lemma PlainGetIsWinner(env: Env, datas: seq<bytes>, k: Text)
    ensures PlainGet(env, datas, k) == Winner(TablesOf(env, datas), k)
  {}

  // ----- The answers after the first steps -----

  /** No key whose winner is a tombstone comes back from the originals that are left. */
  ghost predicate NoResurrection(env: Env, inner: map<Text, Entry>, datas: seq<bytes>, i: nat)
    requires i <= |datas|
  {
    forall k | k !in inner && PlainGet(env, datas, k).Some? && PlainGet(env, datas, k).value.Delete? ::
      AsLive(FilterGet(env, datas[i..], k)).None? && AsLive(PlainGet(env, datas[i..], k)).None?
  }

  /** The answers, filtered and plain, of outputs in front of the originals that are left. */
  lemma CutLookup(env: Env, outs: seq<bytes>, datas: seq<bytes>, i: nat, k: Text)
    requires i <= |datas| && TablesOk(env, TablesOf(env, datas))
    requires Honest(env, outs, LiveEntries(TablesOf(env, datas)))
    requires AsLive(FilterGet(env, datas, k)) == AsLive(PlainGet(env, datas, k))
    requires i > 0 ==> FindsAll(env, outs, TablesOf(env, datas))
    ensures var goal := AsLive(PlainGet(env, datas, k));
            var rest := datas[i..];
            if i > 0 && goal.None? && PlainGet(env, datas, k).Some?
            then AsLive(FilterGet(env, outs + rest, k)) == AsLive(FilterGet(env, rest, k))
                 && AsLive(PlainGet(env, outs + rest, k)) == AsLive(PlainGet(env, rest, k))
            else AsLive(FilterGet(env, outs + rest, k)) == AsLive(PlainGet(env, outs + rest, k)) == goal
  {
    hide PlainGet, FilterGet, Winner, LiveEntries, TablesOk, Honest, TablesOf;
    var rest := datas[i..];
    HonestLookup(env, outs, TablesOf(env, datas), k);
    PlainGetIsWinner(env, datas, k);
    PlainGetConcat(env, outs, rest, k);
    FilterGetConcat(env, outs, rest, k);
    PlainGetConcat(env, datas[..i], rest, k);
    assert datas[..i] + rest == datas;
    if i == 0 {
      assert rest == datas;
    }
    FilterGetFindsOnlyEntries(env, rest, k);
  }

  lemma TablesOkPart(env: Env, datas: seq<bytes>, part: seq<bytes>)
    requires TablesOk(env, TablesOf(env, datas)) && forall d | d in part :: d in datas
    ensures TablesOk(env, TablesOf(env, part))
  {
    hide TableEntries, SortedEntries, AllStorable;
    var tables := TablesOf(env, part);
    forall t | t in tables ensures SortedEntries(t) && AllStorable(env, t) {
      var j :| 0 <= j < |tables| && tables[j] == t;
      assert part[j] in part;
      var i :| 0 <= i < |datas| && datas[i] == part[j];
      assert TablesOf(env, datas)[i] in TablesOf(env, datas);
    }
  }

  lemma TablesOkConcat(env: Env, a: seq<bytes>, b: seq<bytes>, live: seq<Entry>)
    requires Honest(env, a, live) && TablesOk(env, TablesOf(env, b))
    ensures TablesOk(env, TablesOf(env, a + b))
  {
    hide TableEntries, SortedEntries, AllStorable;
    var tables := TablesOf(env, a + b);
    forall t | t in tables ensures SortedEntries(t) && AllStorable(env, t) {
      var j :| 0 <= j < |tables| && tables[j] == t;
      if j < |a| {
        assert a[j] in a;
      } else {
        assert TablesOf(env, b)[j - |a|] in TablesOf(env, b);
      }
    }
  }

  lemma HonestRev(env: Env, datas: seq<bytes>, live: seq<Entry>)
    requires Honest(env, datas, live)
    ensures Honest(env, Rev(datas), live)
  {
    hide TableEntries, SortedEntries, AllStorable;
  }

  /** A state that differs from `s` in its directory only. */
  ghost function WithFiles(s: State, files: map<nat, bytes>, tick: nat): State {
    s.(files := files, tick := tick)
  }

  /** Outputs written, some or none of the originals deleted: nothing resurrected, nothing changed. */
  lemma CutRefines(env: Env, s: State, datas: seq<bytes>, i: nat, tick: nat)
    requires LiveInv(env, s) && i <= |s.files| && s.tick + |datas| <= tick
    requires Honest(env, datas, LiveIn(env, s.files))
    requires i > 0 ==> FindsAll(env, Rev(datas), TablesOf(env, Contents(s.files)))
    requires i > 0 ==> NoResurrection(env, s.mem.inner, Contents(s.files), i)
    ensures var s' := WithFiles(s, CutFiles(env, s.files, s.tick, datas, i), tick);
            LiveInv(env, s') && SameAnswers(env, s, s')
  {
    hide PlainGet, FilterGet, Winner, LiveEntries, TablesOk, Honest, TablesOf, Contents, CutFiles, Rev, Scan, Replay,
         Storable;
    var originals := Contents(s.files);
    var s' := WithFiles(s, CutFiles(env, s.files, s.tick, datas, i), tick);
    CutContents(env, s.files, s.tick, datas, i);
    HonestRev(env, datas, LiveEntries(TablesOf(env, originals)));
    TablesOkPart(env, originals, originals[i..]);
    TablesOkConcat(env, Rev(datas), originals[i..], LiveEntries(TablesOf(env, originals)));
    assert env.clock(s.tick + |datas|) <= env.clock(tick);
    forall k | k !in s.mem.inner
      ensures AsLive(FilterGet(env, Contents(s'.files), k)) == AsLive(PlainGet(env, Contents(s'.files), k))
                == AsLive(FilterGet(env, originals, k))
    {
      CutLookup(env, Rev(datas), originals, i, k);
    }
  }

  /** With all outputs on disk and the `i` newest originals deleted, exactly when the answers are unchanged. */
  lemma DeletionCrashExact(env: Env, s: State, i: nat, tick: nat)
    requires LiveInv(env, s) && i <= |s.files|
    requires var chunks := OutputChunks(env, s.files); CleanOutputs(env, chunks, Images(env, chunks))
    ensures var datas := Contents(s.files);
            var s' := WithFiles(s, CutFiles(env, s.files, s.tick, Images(env, OutputChunks(env, s.files)), i), tick);
            SameAnswers(env, s, s') <==>
              forall k | k !in s.mem.inner && PlainGet(env, datas, k).Some? && PlainGet(env, datas, k).value.Delete? ::
                AsLive(FilterGet(env, datas[i..], k)).None?
  {
    hide PlainGet, FilterGet, Winner, LiveEntries, OutputChunks, TablesOk, Honest, TablesOf, Contents, CutFiles, Rev,
         Scan, Replay, Storable, HarmlessCut, FlushImage, AllStorable;
    var originals := Contents(s.files);
    var tables := TablesOf(env, originals);
    var images := Images(env, OutputChunks(env, s.files));
    var s' := WithFiles(s, CutFiles(env, s.files, s.tick, images, i), tick);
    OutputsHonest(env, s.files, images);
    CompleteOutputs(env, s.files);
    HonestRev(env, images, LiveEntries(tables));
    CutContents(env, s.files, s.tick, images, i);
    assert originals[0..] == originals;
    forall k | k !in s.mem.inner
      ensures Get(env, s, k) == Get(env, s', k) <==>
                (PlainGet(env, originals, k).Some? && PlainGet(env, originals, k).value.Delete? ==>
                   AsLive(FilterGet(env, originals[i..], k)).None?)
    {
      CutLookup(env, Rev(images), originals, i, k);
    }
  }

  lemma PutsAreImages(env: Env, tick: nat, chunks: seq<seq<Entry>>)
    ensures Puts(env, tick, chunks) == PutsOf(env, tick, Images(env, chunks))
  {}

  lemma NothingComesBackFromNothing(env: Env, inner: map<Text, Entry>, datas: seq<bytes>)
    ensures NoResurrection(env, inner, datas, |datas|)
  {
    assert datas[|datas|..] == [];
  }

  /** A compaction that runs to the end changes no answer. Its outputs are all that is left. */
  lemma CompactRefines(env: Env, s: State)
    requires LiveInv(env, s)
    requires var chunks := OutputChunks(env, s.files); CleanOutputs(env, chunks, Images(env, chunks))
    ensures LiveInv(env, Compacted(env, s)) && SameAnswers(env, s, Compacted(env, s))
    ensures Contents(Compacted(env, s).files) == Rev(Images(env, OutputChunks(env, s.files)))
  {
    hide LiveEntries, OutputChunks, MergeDone, TablesOk, Honest, TablesOf, CutFiles, Rev, Scan, Replay, Storable,
         FlushImage, Listing, AllStorable, HarmlessCut, FilesAfter, Puts, PutsOf, NoResurrection, FindsAll, Removes,
         FiltersAgree;
    var chunks := OutputChunks(env, s.files);
    var images := Images(env, chunks);
    var n := |s.files|;
    MergeOfSorted(env, s.files);
    OutputsHonest(env, s.files, images);
    CompleteOutputs(env, s.files);
    NothingComesBackFromNothing(env, s.mem.inner, Contents(s.files));
    CutRefines(env, s, images, n, s.tick + |chunks|);
    CutContents(env, s.files, s.tick, images, n);
    PutsAreImages(env, s.tick, chunks);
    StepsLeaveCut(env, s.files, s.tick, images, n);
    assert Listing(s.files.Keys)[..n] == Listing(s.files.Keys);
    assert Contents(s.files)[n..] == [];
    assert Rev(images) + [] == Rev(images);
  }

  // ----- The order of deletion -----

  /**
   * With filters that cover their files the condition reads: no key outside the memtable whose winner was
   * a tombstone has a Set as its newest entry in the originals that are left.
   */
  lemma DeletionCrashCondition(env: Env, s: State, i: nat, tick: nat)
    requires LiveInv(env, s) && i <= |s.files| && forall d | d in Contents(s.files) :: Covered(env, d)
    requires var chunks := OutputChunks(env, s.files); CleanOutputs(env, chunks, Images(env, chunks))
    ensures var tables := TablesOf(env, Contents(s.files));
            var s' := WithFiles(s, CutFiles(env, s.files, s.tick, Images(env, OutputChunks(env, s.files)), i), tick);
            SameAnswers(env, s, s') <==>
              forall k | k !in s.mem.inner && Winner(tables, k).Some? && Winner(tables, k).value.Delete? ::
                AsLive(Winner(tables[i..], k)).None?
  {
    hide FilterGet, LiveEntries, OutputChunks, TablesOk, Contents, CutFiles, Images, CleanOutputs, Covered, SameAnswers,
         LiveInv, Winner;
    DeletionCrashExact(env, s, i, tick);
    var datas := Contents(s.files);
    var tables := TablesOf(env, datas);
    assert tables[i..] == TablesOf(env, datas[i..]);
    forall k ensures FilterGet(env, datas[i..], k) == Winner(tables[i..], k) {
      FiltersChangeNothing(env, datas[i..], k);
    }
  }

  lemma LastNames(names: seq<nat>, i: nat)
    requires i <= |names|
    ensures NameSet(Rev(names)[..i]) == NameSet(names[|names| - i..])
  {
    hide Rev;
    var a, b := Rev(names)[..i], names[|names| - i..];
    forall n ensures n in a <==> n in b {
      if n in a {
        var j :| 0 <= j < i && a[j] == n;
        assert b[i - 1 - j] == n;
      }
      if n in b {
        var j :| 0 <= j < i && b[j] == n;
        assert a[i - 1 - j] == n;
      }
    }
  }

  /** `datas` are written, and the `i` oldest originals are deleted. */
  ghost function OldestGone(env: Env, files: map<nat, bytes>, tick: nat, datas: seq<bytes>, i: nat): map<nat, bytes>
    requires i <= |files|
  {
    (files + OutMap(env, tick, datas)) - NameSet(Rev(Listing(files.Keys))[..i])
  }

  lemma OldestGoneContents(env: Env, files: map<nat, bytes>, tick: nat, datas: seq<bytes>, i: nat)
    requires ClockAhead(env, files, tick) && i <= |files|
    ensures Contents(OldestGone(env, files, tick, datas, i)) == Rev(datas) + Contents(files)[..|files| - i]
    ensures ClockAhead(env, OldestGone(env, files, tick, datas, i), tick + |datas|)
  {
    hide Contents, Listing, OutMap, NameSet, Rev, ClockAhead;
    OldestNamed(files, i);
    LeftContents(env, files, tick, datas, NameSet(Rev(Listing(files.Keys))[..i]));
  }

  /** The last names of the listing are those of the oldest files. */
  lemma OldestNamed(files: map<nat, bytes>, i: nat)
    requires i <= |files|
    ensures var gone := NameSet(Rev(Listing(files.Keys))[..i]);
            gone <= files.Keys && Contents(files - gone) == Contents(files)[..|files| - i]
  {
    hide *;
    var names := Listing(files.Keys);
    ListingLength(files);
    LastNames(names, i);
    PartOfListing(names, |files| - i);
    ListedAreFiles(files.Keys, names[|files| - i..]);
    ContentsTake(files, |files| - i);
  }

  lemma ListingLength(files: map<nat, bytes>)
    ensures |Listing(files.Keys)| == |files|
  {
    hide Listing;
  }

  lemma PartOfListing(names: seq<nat>, m: nat)
    requires m <= |names|
    ensures forall n | n in names[m..] :: n in names
  {}

  /** Outputs in front of the newest originals answer as all originals do: an older file decides nothing more. */
  lemma OldestGoneLookup(env: Env, outs: seq<bytes>, datas: seq<bytes>, m: nat, k: Text)
    requires m <= |datas| && Honest(env, outs, LiveEntries(TablesOf(env, datas)))
    requires FindsAll(env, outs, TablesOf(env, datas))
    requires AsLive(FilterGet(env, datas, k)) == AsLive(PlainGet(env, datas, k))
    ensures AsLive(FilterGet(env, outs + datas[..m], k)) == AsLive(PlainGet(env, outs + datas[..m], k))
              == AsLive(PlainGet(env, datas, k))
  {
    hide PlainGet, FilterGet, Winner, LiveEntries, Honest, TablesOf;
    var left := datas[..m];
    assert left + datas[m..] == datas;
    HonestLookup(env, outs, TablesOf(env, datas), k);
    PlainGetIsWinner(env, datas, k);
    PlainGetConcat(env, outs, left, k);
    FilterGetConcat(env, outs, left, k);
    PlainGetConcat(env, left, datas[m..], k);
    FilterGetConcat(env, left, datas[m..], k);
    FilterGetFindsOnlyEntries(env, left, k);
  }

  /**
   * Deleting the oldest original first needs no condition: with all outputs on disk and any number of the
   * oldest originals gone, the invariant holds and every answer is as before, whatever a filter covers.
   */
  lemma OldestFirstNeedsNoCondition(env: Env, s: State, i: nat, tick: nat)
    requires LiveInv(env, s) && i <= |s.files| && s.tick + |OutputChunks(env, s.files)| <= tick
    requires var chunks := OutputChunks(env, s.files); CleanOutputs(env, chunks, Images(env, chunks))
    ensures var images := Images(env, OutputChunks(env, s.files));
            var s' := WithFiles(s, OldestGone(env, s.files, s.tick, images, i), tick);
            LiveInv(env, s') && SameAnswers(env, s, s')
  {
    hide PlainGet, FilterGet, Winner, LiveEntries, OutputChunks, TablesOk, Honest, FindsAll, TablesOf, Contents,
         OldestGone, Rev, Scan, Replay, Storable, HarmlessCut, FlushImage, AllStorable;
    var originals := Contents(s.files);
    var m := |s.files| - i;
    var images := Images(env, OutputChunks(env, s.files));
    var live := LiveEntries(TablesOf(env, originals));
    var s' := WithFiles(s, OldestGone(env, s.files, s.tick, images, i), tick);
    OutputsHonest(env, s.files, images);
    CompleteOutputs(env, s.files);
    HonestRev(env, images, live);
    OldestGoneContents(env, s.files, s.tick, images, i);
    TablesOkPart(env, originals, originals[..m]);
    TablesOkConcat(env, Rev(images), originals[..m], live);
    assert env.clock(s.tick + |images|) <= env.clock(tick);
    forall k | k !in s.mem.inner
      ensures AsLive(FilterGet(env, Contents(s'.files), k)) == AsLive(PlainGet(env, Contents(s'.files), k))
                == AsLive(FilterGet(env, originals, k))
    {
      OldestGoneLookup(env, Rev(images), originals, m, k);
    }
  }

  /** A directory that holds a deleted key in two files. */
  ghost function Witness(env: Env, k: Text, v: Text): State {
    State([], EMPTY,
          map[env.clock(0) := FlushImage(env, [Set(k, v)]).0][env.clock(1) := FlushImage(env, [Delete(k)]).0], 2, 2)
  }

  lemma OneEntryFile(env: Env, e: Entry)
    requires Storable(env, e)
    ensures var image := FlushImage(env, [e]).0;
            OpenTable(env, image).Some? && TableEntries(env, image) == [e] && Covered(env, image)
  {
    hide Storable, Frames, FilterOf, Footer, OpenTable, FlushImage, MayContain, TableEntries, Covered;
    var es := [e];
    ImageShapeOne(env, e);
    ShortFooterIsQuiet(env, es, BITS_PER_KEY);
    CompleteIsHarmless(env, es, BITS_PER_KEY);
    CompleteImage(env, es);
  }

  lemma ImageShapeOne(env: Env, e: Entry)
    requires Storable(env, e)
    ensures AllStorable(env, [e])
    ensures FlushImage(env, [e]) == (Frames(env, [e]) + Footer(env, BITS_PER_KEY, [e]), true)
  {
    hide Storable;
    FitsImage(env, [e]);
  }

  /**
   * The order the code deletes in does lose: set a key, flush, delete it, flush, compact, and stop after
   * the first deletion. The key is gone before the compaction and back after it.
   */
  lemma NewestFirstResurrects(env: Env, k: Text, v: Text)
    requires Storable(env, Set(k, v)) && Storable(env, Delete(k))
    ensures var s := Witness(env, k, v);
            var s' := WithFiles(s, CutFiles(env, s.files, s.tick, Images(env, OutputChunks(env, s.files)), 1), 2);
            && |s.files| == 2 && Inv(env, s)
            && Get(env, s, k) == None && Get(env, s', k) == Some(Set(k, v))
  {
    hide Storable, FlushImage, CutFiles, Contents, FilterGet, OutputChunks, Inv, Listing;
    var s := Witness(env, k, v);
    var old1, new1 := FlushImage(env, [Set(k, v)]).0, FlushImage(env, [Delete(k)]).0;
    WitnessOk(env, k, v);
    assert Images(env, OutputChunks(env, s.files)) == [];
    assert ClockAhead(env, s.files, 2);
    CutContents(env, s.files, s.tick, [], 1);
    assert Rev<bytes>([]) + [new1, old1][1..] == [old1];
  }

  lemma WitnessOk(env: Env, k: Text, v: Text)
    requires Storable(env, Set(k, v)) && Storable(env, Delete(k))
    ensures var s := Witness(env, k, v);
            var old1, new1 := FlushImage(env, [Set(k, v)]).0, FlushImage(env, [Delete(k)]).0;
            && Inv(env, s) && |s.files| == 2 && ClockAhead(env, s.files, 2)
            && Contents(s.files) == [new1, old1] && OutputChunks(env, s.files) == []
            && FilterGet(env, [new1, old1], k) == Some(Delete(k)) && FilterGet(env, [old1], k) == Some(Set(k, v))
  {
    hide Storable, FlushImage, TableEntries, OpenTable, Contents, Covered, Scan, LiveEntries, FilterGet, TablesOf,
         TablesOk, FiltersAgree, Replay;
    var s := Witness(env, k, v);
    var old1, new1 := FlushImage(env, [Set(k, v)]).0, FlushImage(env, [Delete(k)]).0;
    OneEntryFile(env, Set(k, v));
    OneEntryFile(env, Delete(k));
    NoContents();
    var files0: map<nat, bytes> := map[];
    var files1 := files0[env.clock(0) := old1];
    ContentsAdd(files0, env.clock(0), old1);
    ContentsAdd(files1, env.clock(1), new1);
    assert s.files == files1[env.clock(1) := new1];
    assert Contents(s.files) == [new1, old1];
    TwoTables(env, new1, old1, k, v);
    EmptyScan(env);
    NoOutputs([[Delete(k)], [Set(k, v)]], k, v);
    MergeOfSorted(env, s.files);
    NoChunks(env);
  }

  lemma TwoTables(env: Env, new1: bytes, old1: bytes, k: Text, v: Text)
    requires TableEntries(env, new1) == [Delete(k)] && Covered(env, new1) && OpenTable(env, new1).Some?
    requires TableEntries(env, old1) == [Set(k, v)] && Covered(env, old1) && OpenTable(env, old1).Some?
    requires Storable(env, Set(k, v)) && Storable(env, Delete(k))
    ensures TablesOf(env, [new1, old1]) == [[Delete(k)], [Set(k, v)]]
    ensures FilesOk(env, map[], [new1, old1])
    ensures FilterGet(env, [new1, old1], k) == Some(Delete(k)) && FilterGet(env, [old1], k) == Some(Set(k, v))
  {
    hide Storable, TableEntries, OpenTable, Covered, FilterGet;
    var datas := [new1, old1];
    assert datas[1..] == [old1] && [old1][1..] == [];
    forall x ensures FilterGet(env, datas, x) == PlainGet(env, datas, x) {
      FiltersChangeNothing(env, datas, x);
    }
    FiltersChangeNothing(env, [old1], k);
    assert TablesOf(env, [old1]) == [[Set(k, v)]];
  }

  lemma NoChunks(env: Env)
    ensures Chunks(env, [], []) == []
  {}

  lemma NoOutputs(tables: seq<seq<Entry>>, k: Text, v: Text)
    requires tables == [[Delete(k)], [Set(k, v)]]
    ensures LiveEntries(tables) == []
  {
    var live := LiveEntries(tables);
    LiveEntriesShape(tables);
    if live != [] {
      var e := live[0];
      assert e in live && Winner(tables, e.key) == Some(e);
      WinnerIsMember(tables, e.key);
      assert false;
    }
  }

  // ----- Every file opens and is covered by its filter, until a crash cuts one -----

  ghost predicate Sound(env: Env, data: bytes) {
    OpenTable(env, data).Some? && TableEntries(env, data) != [] && Covered(env, data)
  }

  ghost predicate AllSound(env: Env, files: map<nat, bytes>) {
    forall d | d in Contents(files) :: Sound(env, d)
  }

  lemma FlushFileStaysSound(env: Env, s: State)
    requires LiveInv(env, s) && CleanFlush(env, s) && FileWritten(env, s) && AllSound(env, s.files)
    ensures AllSound(env, FlushFile(env, s).0.files)
  {
    hide LiveInv, Storable, FlushImage, SortedValues, Contents, HarmlessCut, OpenTable, TableEntries, Covered, Sound;
    if s.mem.inner != map[] {
      var es := SortedValues(s.mem.inner);
      var image := FlushImage(env, es).0;
      CompleteImage(env, es);
      ImageIsSound(env, image, es);
      ClockOf(env, s);
      ContentsAdd(s.files, env.clock(s.tick), image);
    }
  }

  lemma ClockOf(env: Env, s: State)
    requires LiveInv(env, s)
    ensures forall ts | ts in s.files :: ts < env.clock(s.tick)
  {}

  lemma ImageIsSound(env: Env, image: bytes, es: seq<Entry>)
    requires OpenTable(env, image).Some? && TableEntries(env, image) == es && Covered(env, image) && es != []
    ensures Sound(env, image)
  {}

  lemma CompactStaysSound(env: Env, s: State)
    requires LiveInv(env, s)
    requires var chunks := OutputChunks(env, s.files); CleanOutputs(env, chunks, Images(env, chunks))
    ensures AllSound(env, Compacted(env, s).files)
  {
    hide LiveInv, Storable, FlushImage, Contents, HarmlessCut, OpenTable, TableEntries, Covered, Sound, OutputChunks,
         LiveEntries, TablesOf, TablesOk, CompactOps, FilesAfter, SortedEntries, AllStorable;
    CompactRefines(env, s);
    TablesOkOf(env, s);
    var chunks := OutputChunks(env, s.files);
    var images := Images(env, chunks);
    OutputsFit(env, s.files);
    forall d | d in Rev(images) ensures Sound(env, d) {
      var j :| 0 <= j < |images| && Rev(images)[j] == d;
      OutputIsSound(env, s.files, |images| - 1 - j);
    }
  }

  lemma OutputIsSound(env: Env, files: map<nat, bytes>, i: nat)
    requires FilesSorted(env, files) && i < |OutputChunks(env, files)|
    requires var chunks := OutputChunks(env, files); CleanOutputs(env, chunks, Images(env, chunks))
    ensures Sound(env, FlushImage(env, OutputChunks(env, files)[i]).0)
  {
    hide FlushImage, HarmlessCut, OpenTable, TableEntries, Covered, Sound, OutputChunks, FilesSorted, SortedEntries,
         AllStorable, LiveIn;
    var chunks := OutputChunks(env, files);
    OutputsFit(env, files);
    assert chunks[i] in chunks;
    ChunkFits(env, chunks[i]);
    assert Images(env, chunks)[i] == FlushImage(env, chunks[i]).0;
    CompleteImage(env, chunks[i]);
    ImageIsSound(env, FlushImage(env, chunks[i]).0, chunks[i]);
  }

  lemma ChunkFits(env: Env, c: seq<Entry>)
    requires Fits(env, c)
    ensures c != [] && AllStorable(env, c) && FlushImage(env, c).1
  {
    hide Storable, FlushImage;
    FitsImage(env, c);
  }

  lemma TablesOkOf(env: Env, s: State)
    requires LiveInv(env, s)
    ensures TablesOk(env, TablesOf(env, Contents(s.files)))
  {}
}
