/** What a compaction is to keep: the winning Set of every key, in key order, cut into files by size. */
module Merge {
  import opened Bytes
  import opened Keys
  import opened Entries
  import opened Header
  import opened Recovery
  import opened MemTables
  import opened Lookup
  import Bloom

  ghost predicate SortedEntries(es: seq<Entry>) {
    forall i, j | 0 <= i < j < |es| :: Less(es[i].key, es[j].key)
  }

  ghost predicate AllSorted(tables: seq<seq<Entry>>) {
    forall t | t in tables :: SortedEntries(t)
  }

  ghost function KeysIn(es: seq<Entry>): set<Text> {
    set e | e in es :: e.key
  }

  ghost function AllKeys(tables: seq<seq<Entry>>): set<Text> {
    if tables == [] then {} else KeysIn(tables[0]) + AllKeys(tables[1..])
  }

  /** The keys whose newest entry is a Set. */
  ghost function LiveKeys(tables: seq<seq<Entry>>): set<Text> {
    set k | k in AllKeys(tables) && Winner(tables, k).Some? && Winner(tables, k).value.Set?
  }

  ghost function Collect(tables: seq<seq<Entry>>, ks: seq<Text>): seq<Entry> {
    if ks == [] then []
    else (if Winner(tables, ks[0]).Some? then [Winner(tables, ks[0]).value] else []) + Collect(tables, ks[1..])
  }

  /** What a compaction keeps of `tables`, newest first: the winners of the live keys, in key order. */
  ghost function LiveEntries(tables: seq<seq<Entry>>): seq<Entry> {
    Collect(tables, SortedKeys(LiveKeys(tables)))
  }

  // ----- One round of the merge: the least key is decided and dropped everywhere -----

  /** Every table that has `k` in front moves past it. */
  ghost function Drop(tables: seq<seq<Entry>>, k: Text): (r: seq<seq<Entry>>)
    ensures |r| == |tables|
  {
    if tables == [] then []
    else [DropHead(tables[0], k)] + Drop(tables[1..], k)
  }

  ghost function DropHead(t: seq<Entry>, k: Text): seq<Entry> {
    if t != [] && t[0].key == k then t[1..] else t
  }

  /** `retain`: exhausted tables leave the merge. */
  ghost function NonEmpty(tables: seq<seq<Entry>>): seq<seq<Entry>> {
    if tables == [] then []
    else (if tables[0] == [] then [] else [tables[0]]) + NonEmpty(tables[1..])
  }

  lemma FindIffKey(es: seq<Entry>, k: Text)
    ensures Find(es, k).Some? <==> k in KeysIn(es)
  {}

  lemma {:induction false} WinnerIffKey(tables: seq<seq<Entry>>, k: Text)
    ensures Winner(tables, k).Some? <==> k in AllKeys(tables)
    ensures Winner(tables, k).Some? ==> Winner(tables, k).value.key == k
    decreases |tables|
  {
    if tables != [] {
      FindIffKey(tables[0], k);
      WinnerIffKey(tables[1..], k);
    }
  }

  lemma {:induction false} NonEmptyChangesNothing(tables: seq<seq<Entry>>)
    ensures forall k :: Winner(NonEmpty(tables), k) == Winner(tables, k)
    ensures AllKeys(NonEmpty(tables)) == AllKeys(tables)
    ensures forall t | t in NonEmpty(tables) :: t in tables && t != []
    decreases |tables|
  {
    if tables != [] {
      NonEmptyChangesNothing(tables[1..]);
      assert tables == [tables[0]] + tables[1..];
      if tables[0] == [] {
        assert KeysIn(tables[0]) == {};
        assert NonEmpty(tables) == NonEmpty(tables[1..]);
      } else {
        assert NonEmpty(tables)[0] == tables[0] && NonEmpty(tables)[1..] == NonEmpty(tables[1..]);
      }
    }
  }

  lemma LiveEntriesNonEmpty(tables: seq<seq<Entry>>)
    ensures LiveEntries(NonEmpty(tables)) == LiveEntries(tables)
  {
    NonEmptyChangesNothing(tables);
    assert LiveKeys(NonEmpty(tables)) == LiveKeys(tables);
    CollectSame(NonEmpty(tables), tables, SortedKeys(LiveKeys(tables)));
  }

  lemma {:induction false} CollectSame(a: seq<seq<Entry>>, b: seq<seq<Entry>>, ks: seq<Text>)
    requires forall k | k in ks :: Winner(a, k) == Winner(b, k)
    ensures Collect(a, ks) == Collect(b, ks)
    decreases |ks|
  {
    if ks != [] {
      assert ks == [ks[0]] + ks[1..];
      CollectSame(a, b, ks[1..]);
    }
  }

  /** In a sorted table the least key of all can only be in front. */
  lemma DropHeadEffect(t: seq<Entry>, min: Text, k: Text)
    requires SortedEntries(t) && forall x | x in KeysIn(t) :: min == x || Less(min, x)
    ensures SortedEntries(DropHead(t, min))
    ensures Find(DropHead(t, min), k) == if k == min then None else Find(t, k)
    ensures Find(t, min).Some? <==> t != [] && t[0].key == min
    ensures Find(t, min).Some? ==> Find(t, min) == Some(t[0])
  {
    if t != [] {
      assert t[0].key in KeysIn(t);
      LessIrreflexive(min);
      forall i | 1 <= i < |t| ensures t[i].key != min {
        assert Less(t[0].key, t[i].key);
        if t[i].key == min {
          if t[0].key != min {
            LessAsymmetric(min, t[0].key);
          }
        }
      }
      if t[0].key == min {
        assert forall e | e in t[1..] :: e.key != min;
      }
    }
  }

  lemma {:induction false} DropEffect(tables: seq<seq<Entry>>, min: Text, k: Text)
    requires AllSorted(tables) && forall x | x in AllKeys(tables) :: min == x || Less(min, x)
    ensures AllSorted(Drop(tables, min))
    ensures Winner(Drop(tables, min), k) == if k == min then None else Winner(tables, k)
    decreases |tables|
  {
    hide SortedEntries, DropHead;
    if tables != [] {
      assert tables == [tables[0]] + tables[1..];
      DropHeadEffect(tables[0], min, k);
      DropEffect(tables[1..], min, k);
      assert Drop(tables, min)[1..] == Drop(tables[1..], min);
    }
  }

  lemma DropKeys(tables: seq<seq<Entry>>, min: Text)
    requires AllSorted(tables) && IsMin(min, AllKeys(tables))
    ensures AllSorted(Drop(tables, min))
    ensures AllKeys(Drop(tables, min)) == AllKeys(tables) - {min}
    ensures forall k | k != min :: Winner(Drop(tables, min), k) == Winner(tables, k)
  {
    hide AllSorted, Drop, Winner, AllKeys;
    DropEffect(tables, min, min);
    forall k ensures k in AllKeys(Drop(tables, min)) <==> k in AllKeys(tables) - {min} {
      DropEffect(tables, min, k);
      WinnerIffKey(tables, k);
      WinnerIffKey(Drop(tables, min), k);
    }
    forall k | k != min ensures Winner(Drop(tables, min), k) == Winner(tables, k) {
      DropEffect(tables, min, k);
    }
  }

  /** The least key contributes its winner if that is a Set, and nothing otherwise; the rest is as before. */
  lemma LiveEntriesStep(tables: seq<seq<Entry>>, min: Text)
    requires AllSorted(tables) && IsMin(min, AllKeys(tables))
    ensures Winner(tables, min).Some?
    ensures var w := Winner(tables, min).value;
            LiveEntries(tables) == (if w.Set? then [w] else []) + LiveEntries(Drop(tables, min))
  {
    hide AllSorted, Drop, Winner, AllKeys, Collect, SortedKeys, LiveKeys;
    var rest := Drop(tables, min);
    DropKeys(tables, min);
    WinnerIffKey(tables, min);
    LiveKeysStep(tables, min);
    var ks := SortedKeys(LiveKeys(rest));
    if Winner(tables, min).value.Set? {
      SortedKeysCons(LiveKeys(tables), min);
      CollectCons(tables, min, ks);
    }
    forall k | k in ks ensures Winner(rest, k) == Winner(tables, k) {
      assert k in Elements(ks);
    }
    CollectSame(rest, tables, ks);
  }

  lemma LiveKeysStep(tables: seq<seq<Entry>>, min: Text)
    requires AllSorted(tables) && IsMin(min, AllKeys(tables))
    ensures min !in LiveKeys(Drop(tables, min)) && Winner(tables, min).Some?
    ensures if Winner(tables, min).value.Set?
            then IsMin(min, LiveKeys(tables)) && LiveKeys(tables) - {min} == LiveKeys(Drop(tables, min))
            else LiveKeys(tables) == LiveKeys(Drop(tables, min))
  {
    hide AllSorted, Drop, Winner, AllKeys;
    DropKeys(tables, min);
    WinnerIffKey(tables, min);
  }

  lemma CollectCons(tables: seq<seq<Entry>>, k: Text, ks: seq<Text>)
    requires Winner(tables, k).Some?
    ensures Collect(tables, [k] + ks) == [Winner(tables, k).value] + Collect(tables, ks)
  {
    assert ([k] + ks)[1..] == ks;
  }

  // ----- The shape of the output -----

  lemma {:induction false} CollectShape(tables: seq<seq<Entry>>, ks: seq<Text>)
    requires Ascending(ks) && forall k | k in ks :: Winner(tables, k).Some?
    ensures |Collect(tables, ks)| == |ks|
    ensures forall i | 0 <= i < |ks| ::
              Collect(tables, ks)[i].key == ks[i] && Some(Collect(tables, ks)[i]) == Winner(tables, ks[i])
    decreases |ks|
  {
    hide Winner;
    if ks != [] {
      assert ks == [ks[0]] + ks[1..];
      CollectShape(tables, ks[1..]);
      WinnerIffKey(tables, ks[0]);
      CollectCons(tables, ks[0], ks[1..]);
    }
  }

  /** The output is strictly ascending, Set-only, and has exactly one entry per live key: its winner. */
  lemma LiveEntriesShape(tables: seq<seq<Entry>>)
    ensures var live := LiveEntries(tables);
            && SortedEntries(live)
            && (forall e | e in live :: e.Set? && Winner(tables, e.key) == Some(e))
            && (forall k :: Find(live, k) == match Winner(tables, k)
                                             case Some(Set(x, v)) => Some(Set(x, v))
                                             case _ => None)
  {
    hide Winner, AllKeys, Collect;
    var live, ks := LiveEntries(tables), SortedKeys(LiveKeys(tables));
    assert forall k :: k in ks <==> k in Elements(ks);
    CollectShape(tables, ks);
    forall k ensures Find(live, k) == match Winner(tables, k)
                                      case Some(Set(x, v)) => Some(Set(x, v))
                                      case _ => None
    {
      WinnerIffKey(tables, k);
      FindByKeys(live, ks, k);
    }
  }

  lemma {:induction false} FindByKeys(es: seq<Entry>, ks: seq<Text>, k: Text)
    requires |es| == |ks| && forall i | 0 <= i < |ks| :: es[i].key == ks[i]
    ensures Find(es, k).Some? <==> k in ks
    ensures k in ks ==> exists i :: 0 <= i < |ks| && ks[i] == k && Find(es, k) == Some(es[i])
    decreases |es|
  {
    if es != [] && es[0].key != k {
      FindByKeys(es[1..], ks[1..], k);
      assert ks == [ks[0]] + ks[1..];
      if k in ks {
        var i :| 0 <= i < |ks[1..]| && ks[1..][i] == k && Find(es[1..], k) == Some(es[1..][i]);
        assert ks[i + 1] == k && es[i + 1] == es[1..][i];
      }
    }
  }

  // ----- Cutting the output into files -----

  /** Entries join the pending file until its size passes the threshold; a last file takes what remains. */
  ghost function Chunks(env: Env, pending: seq<Entry>, rest: seq<Entry>): seq<seq<Entry>>
    decreases |rest|
  {
    if rest == [] then (if pending == [] then [] else [pending])
    else
      var next := pending + [rest[0]];
      if ShouldFlush(Replay(env, EMPTY, next)) then [next] + Chunks(env, [], rest[1..])
      else Chunks(env, next, rest[1..])
  }

  ghost function Flatten(chunks: seq<seq<Entry>>): seq<Entry> {
    if chunks == [] then [] else chunks[0] + Flatten(chunks[1..])
  }

  /** No entry is lost, repeated or moved by the cuts, and no file is empty. */
  lemma {:induction false} ChunksFlatten(env: Env, pending: seq<Entry>, rest: seq<Entry>)
    ensures Flatten(Chunks(env, pending, rest)) == pending + rest
    ensures forall c | c in Chunks(env, pending, rest) :: c != []
    decreases |rest|
  {
    hide Replay;
    if rest != [] {
      var next := pending + [rest[0]];
      assert next + rest[1..] == pending + rest;
      if ShouldFlush(Replay(env, EMPTY, next)) {
        ChunksFlatten(env, [], rest[1..]);
        var tail := Chunks(env, [], rest[1..]);
        assert ([next] + tail)[1..] == tail;
      } else {
        ChunksFlatten(env, next, rest[1..]);
      }
    } else if pending != [] {
      assert Flatten([pending]) == pending;
    }
  }

  /** Sorted entries are what the memtable they are put into lists again. */
  lemma {:induction false} ReplaySorted(env: Env, es: seq<Entry>)
    requires SortedEntries(es)
    ensures Replay(env, EMPTY, es).inner.Keys == KeysIn(es)
    ensures SortedValues(Replay(env, EMPTY, es).inner) == es
    decreases |es|
  {
    hide Process;
    if es == [] {
      assert EMPTY.inner.Keys == KeysIn(es);
    } else {
      var init, last := es[..|es| - 1], es[|es| - 1];
      assert es == init + [last];
      ReplaySorted(env, init);
      ReplayAppend(env, EMPTY, init, last);
      var before := Replay(env, EMPTY, init).inner;
      assert KeysIn(es) == KeysIn(init) + {last.key};
      SortedValuesAppend(env, Replay(env, EMPTY, init), last);
    }
  }

  lemma SortedValuesAppend(env: Env, st: MemState, e: Entry)
    requires forall k | k in st.inner :: Less(k, e.key)
    ensures Process(env, st, e).inner.Keys == st.inner.Keys + {e.key}
    ensures SortedValues(Process(env, st, e).inner) == SortedValues(st.inner) + [e]
  {
    hide EntrySize, Less, SortedKeys, Ascending, Elements;
    var after := Process(env, st, e).inner;
    var ks := SortedKeys(st.inner.Keys);
    assert after.Keys == st.inner.Keys + {e.key};
    SortedKeysAppend(st.inner.Keys, e.key);
    forall i | 0 <= i < |ks| ensures ks[i] in st.inner && ks[i] in after && after[ks[i]] == st.inner[ks[i]] {
      SortedKeysAt(st.inner.Keys, i);
      NotItself(ks[i], e.key);
    }
    var left, right := SortedValues(after), SortedValues(st.inner) + [e];
    forall i | 0 <= i < |left| ensures left[i] == right[i] {
      ValueAt(after, i);
      if i < |ks| {
        ValueAt(st.inner, i);
      }
    }
  }

  lemma ValueAt(inner: map<Text, Entry>, i: nat)
    requires i < |inner|
    ensures SortedKeys(inner.Keys)[i] in inner
    ensures SortedValues(inner)[i] == inner[SortedKeys(inner.Keys)[i]]
  {
    SortedKeysAt(inner.Keys, i);
  }

  lemma NotItself(a: Text, b: Text)
    requires Less(a, b)
    ensures a != b
  {
    LessIrreflexive(a);
  }

  // ----- Every output file can be written: its size bounds its number of keys -----

  /** A list of entries a flush can write to the end. */
  ghost predicate Fits(env: Env, es: seq<Entry>) {
    es != [] && AllStorable(env, es) && BITS_PER_KEY * |es| < U32_LIMIT
  }

  /** The entries of a pending file, small enough not to be flushed yet. */
  ghost predicate Pending(env: Env, es: seq<Entry>) {
    var st := Replay(env, EMPTY, es);
    SortedEntries(es) && AllStorable(env, es) && st.size == TotalSize(env, st.inner) && !ShouldFlush(st)
  }

  lemma StorableSize(env: Env, e: Entry)
    requires Storable(env, e)
    ensures 0 < EntrySize(env, e) < 2 * U32_LIMIT
  {}

  lemma PendingCount(env: Env, es: seq<Entry>)
    requires Pending(env, es)
    ensures |es| <= THRESHOLD
  {
    hide EntrySize, Process, SortedValues, SortedEntries;
    ReplaySorted(env, es);
    WellKeyedEmpty(env);
    StorableEncodes(env, es);
    ReplayWellKeyed(env, EMPTY, es);
    CountWithinSize(env, Replay(env, EMPTY, es).inner);
  }

  lemma WellKeyedEmpty(env: Env)
    ensures WellKeyed(env, EMPTY.inner)
  {}

  lemma StorableEncodes(env: Env, es: seq<Entry>)
    requires AllStorable(env, es)
    ensures forall e | e in es :: env.encode(e).Some?
  {
    forall e | e in es ensures env.encode(e).Some? {
      assert Storable(env, e);
    }
  }

  /** One more entry keeps the tracked size true, and the file small enough to be written. */
  lemma PendingGrows(env: Env, es: seq<Entry>, e: Entry)
    requires Pending(env, es) && Storable(env, e) && SortedEntries(es + [e])
    ensures Fits(env, es + [e])
    ensures !ShouldFlush(Replay(env, EMPTY, es + [e])) ==> Pending(env, es + [e])
  {
    hide EntrySize, Process, SortedEntries, Storable;
    PendingCount(env, es);
    ReplayAppend(env, EMPTY, es, e);
    StorableSize(env, e);
    ProcessTracksSize(env, Replay(env, EMPTY, es), e);
    assert forall x :: x in es + [e] <==> x in es || x == e;
  }

  lemma {:induction false} ChunksFit(env: Env, pending: seq<Entry>, rest: seq<Entry>)
    requires Pending(env, pending) && AllStorable(env, rest) && SortedEntries(pending + rest)
    ensures forall c | c in Chunks(env, pending, rest) :: Fits(env, c)
    decreases |rest|
  {
    hide Replay, Fits, Pending, ShouldFlush, Storable;
    if rest == [] {
      if pending != [] {
        PendingFits(env, pending);
      }
    } else {
      var next := pending + [rest[0]];
      assert next + rest[1..] == pending + rest;
      assert next == (pending + rest)[..|next|] && rest[1..] == (pending + rest)[|next|..];
      assert rest[0] in rest;
      PendingGrows(env, pending, rest[0]);
      if ShouldFlush(Replay(env, EMPTY, next)) {
        PendingNothing(env);
        assert [] + rest[1..] == rest[1..];
        ChunksFit(env, [], rest[1..]);
      } else {
        ChunksFit(env, next, rest[1..]);
      }
    }
  }

  lemma PendingFits(env: Env, es: seq<Entry>)
    requires Pending(env, es) && es != []
    ensures Fits(env, es)
  {
    PendingCount(env, es);
  }

  lemma PendingNothing(env: Env)
    ensures Pending(env, [])
  {}

  /** A flush of entries that fit writes all their frames and a footer with ten bits a key. */
  lemma FitsImage(env: Env, es: seq<Entry>)
    requires Fits(env, es)
    ensures FlushImage(env, es) == (Frames(env, es) + Bloom.Footer(env, BITS_PER_KEY * |es|, es), true)
  {
    hide Storable;
  }

  // ----- Lookups in the output -----

  /** The files in the order they are read: the last one written is the newest. */
  ghost function Rev<T>(s: seq<T>): (r: seq<T>)
    ensures |r| == |s| && forall i | 0 <= i < |s| :: r[i] == s[|s| - 1 - i]
  {
    if s == [] then [] else Rev(s[1..]) + [s[0]]
  }

  lemma {:induction false} FindConcat(a: seq<Entry>, b: seq<Entry>, k: Text)
    ensures Find(a + b, k) == if Find(a, k).Some? then Find(a, k) else Find(b, k)
    decreases |a|
  {
    if a == [] {
      assert a + b == b;
    } else {
      assert (a + b)[1..] == a[1..] + b;
      FindConcat(a[1..], b, k);
    }
  }

  /** Newest first or oldest first makes no difference: the output files share no key. */
  lemma {:induction false} WinnerOfChunks(chunks: seq<seq<Entry>>, k: Text)
    requires SortedEntries(Flatten(chunks))
    ensures Winner(Rev(chunks), k) == Find(Flatten(chunks), k)
    decreases |chunks|
  {
    hide Winner, Find;
    if chunks == [] {
      EmptyLookups(k);
    } else {
      var c, rest := chunks[0], Flatten(chunks[1..]);
      var all := Flatten(chunks);
      assert rest == all[|c|..];
      WinnerOfChunks(chunks[1..], k);
      WinnerConcat(Rev(chunks[1..]), [c], k);
      SingleTable(c, k);
      FindConcat(c, rest, k);
      if Find(c, k).Some? && Find(rest, k).Some? {
        var i :| 0 <= i < |c| && c[i] == Find(c, k).value;
        var j :| 0 <= j < |rest| && rest[j] == Find(rest, k).value;
        assert Less(all[i].key, all[|c| + j].key);
        LessIrreflexive(k);
        assert false;
      }
    }
  }

  lemma EmptyLookups(k: Text)
    ensures Winner([], k) == None && Find([], k) == None
  {}

  lemma SingleTable(t: seq<Entry>, k: Text)
    ensures Winner([t], k) == Find(t, k)
  {
    assert [t][1..] == [];
  }
}
