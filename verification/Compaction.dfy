/** `Log::compact`: the k-way merge over the open SSTables, and the deletion of the originals. */
module Compaction {
  import opened Bytes
  import opened Keys
  import opened Entries
  import opened Reader
  import opened Disk
  import opened MemTables
  import opened Tables
  import opened Lookup
  import opened Merge
  import opened Plans

  // ----- The durable steps of a compaction -----

  /** The files compaction writes: one per chunk, named by successive clock readings. */
  ghost function Puts(env: Env, tick: nat, chunks: seq<seq<Entry>>): seq<DiskOp> {
    seq(|chunks|, i requires 0 <= i < |chunks| => Put(env.clock(tick + i), FlushImage(env, chunks[i]).0))
  }

  ghost function Removes(names: seq<nat>): seq<DiskOp> {
    seq(|names|, i requires 0 <= i < |names| => Remove(names[i]))
  }

  /** The merge of the files that open, newest first. */
  ghost function MergeOf(env: Env, files: map<nat, bytes>): Plan {
    MergePlan(env, NonEmpty(TablesOf(env, Contents(files))), {}, EMPTY)
  }

  /** The files compaction writes, the last possibly in part. */
  ghost function OutputChunks(env: Env, files: map<nat, bytes>): seq<seq<Entry>> {
    MergeOf(env, files).chunks
  }

  /** Every output could be written to the end. */
  ghost predicate MergeDone(env: Env, files: map<nat, bytes>) {
    MergeOf(env, files).done
  }

  /** All outputs are written before the first original is deleted; originals go newest first. */
  ghost function CompactOps(env: Env, files: map<nat, bytes>, tick: nat): seq<DiskOp> {
    Puts(env, tick, OutputChunks(env, files)) + (if MergeDone(env, files) then Removes(Listing(files.Keys)) else [])
  }

  function FilesAfter(files: map<nat, bytes>, ops: seq<DiskOp>): map<nat, bytes> {
    ApplyOps(Durable([], files), ops).files
  }

  // ----- The cursors of the merge -----

  /** An open table and the entry it has in front. */
  datatype Cursor = Cursor(head: Option<Entry>, sst: SSTable)

  ghost predicate Separate(cs: seq<Cursor>) {
    forall i, j | 0 <= i < j < |cs| :: cs[i].sst.file != cs[j].sst.file
  }

  ghost function FilesOf(cs: seq<Cursor>): set<Stream> {
    set c | c in cs :: c.sst.file
  }

  /** What the cursor still has to deliver is `t`. */
  ghost predicate Delivers(env: Env, c: Cursor, t: seq<Entry>)
    reads c.sst.file
  {
    t == if c.head.None? then [] else [c.head.value] + c.sst.Rest(env)
  }

  ghost predicate AllDeliver(env: Env, cs: seq<Cursor>, tables: seq<seq<Entry>>)
    reads FilesOf(cs)
  {
    |cs| == |tables| && forall i | 0 <= i < |cs| :: Delivers(env, cs[i], tables[i])
  }

  /** Opens every file, newest first, and skips those that do not open. */
  method OpenAll(env: Env, files: map<nat, bytes>) returns (ssts: seq<SSTable>)
    ensures var tables := NonEmpty(TablesOf(env, Contents(files)));
            |ssts| == |tables| && forall i | 0 <= i < |ssts| :: ssts[i].Rest(env) == tables[i]
    ensures forall i | 0 <= i < |ssts| :: fresh(ssts[i].file)
    ensures forall i, j | 0 <= i < j < |ssts| :: ssts[i].file != ssts[j].file
  {
    hide OpenTable, TableEntries, SSTable.Rest, NonEmpty, TablesOf, Contents, Listing, Descending, NameSet;
    ssts := [];
    var names := Listing(files.Keys);
    ghost var datas := Contents(files);
    ghost var done: seq<seq<Entry>> := [];
    assert datas[0..] == datas;
    assert |datas| == |names|;
    for i := 0 to |names|
      invariant |ssts| == |done| && forall j | 0 <= j < |ssts| :: fresh(ssts[j].file) && ssts[j].Rest(env) == done[j]
      invariant forall j, k | 0 <= j < k < |ssts| :: ssts[j].file != ssts[k].file
      invariant NonEmpty(TablesOf(env, datas)) == done + NonEmpty(TablesOf(env, datas[i..]))
    {
      ContentsAt(files, i);
      OpenedTableNotEmpty(env, datas[i]);
      TakeTable(env, datas, i, done);
      var t := SSTable.FromPath(env, files[names[i]]);
      if t != null {
        ssts := ssts + [t];
        done := done + [TableEntries(env, datas[i])];
      }
    }
    NothingOpened(env, datas);
  }

  lemma NothingOpened(env: Env, datas: seq<bytes>)
    ensures NonEmpty(TablesOf(env, datas[|datas|..])) == []
  {}

  lemma NextTable(env: Env, datas: seq<bytes>, i: nat)
    requires i < |datas|
    ensures var t := TableEntries(env, datas[i]);
            NonEmpty(TablesOf(env, datas[i..])) ==
              (if t == [] then [] else [t]) + NonEmpty(TablesOf(env, datas[i + 1..]))
  {
    assert datas[i..][0] == datas[i] && datas[i..][1..] == datas[i + 1..];
    assert TablesOf(env, datas[i..])[1..] == TablesOf(env, datas[i + 1..]);
  }

  lemma TakeTable(env: Env, datas: seq<bytes>, i: nat, done: seq<seq<Entry>>)
    requires i < |datas| && NonEmpty(TablesOf(env, datas)) == done + NonEmpty(TablesOf(env, datas[i..]))
    ensures var t := TableEntries(env, datas[i]);
            NonEmpty(TablesOf(env, datas)) ==
              (if t == [] then done else done + [t]) + NonEmpty(TablesOf(env, datas[i + 1..]))
  {
    hide TableEntries, NonEmpty, TablesOf;
    NextTable(env, datas, i);
    assert done + [] == done;
  }

  /** Puts the first entry of every table in front. */
  method LoadHeads(env: Env, ssts: seq<SSTable>, ghost tables: seq<seq<Entry>>) returns (cs: seq<Cursor>)
    requires |ssts| == |tables| && forall i | 0 <= i < |ssts| :: ssts[i].Rest(env) == tables[i]
    requires forall i, j | 0 <= i < j < |ssts| :: ssts[i].file != ssts[j].file
    modifies set t | t in ssts :: t.file
    ensures AllDeliver(env, cs, tables) && Separate(cs)
    ensures |cs| == |ssts| && forall i | 0 <= i < |cs| :: cs[i].sst == ssts[i]
  {
    hide SSTable.Rest;
    cs := [];
    for i := 0 to |ssts|
      invariant |cs| == i && forall j | 0 <= j < i :: cs[j].sst == ssts[j] && Delivers(env, cs[j], tables[j])
      invariant forall j | i <= j < |ssts| :: ssts[j].Rest(env) == tables[j]
    {
      var head := ssts[i].ReadNextEntry(env);
      cs := cs + [Cursor(head, ssts[i])];
    }
  }

  /** `retain`. */
  function Retain(cs: seq<Cursor>): seq<Cursor> {
    if cs == [] then [] else (if cs[0].head.Some? then [cs[0]] else []) + Retain(cs[1..])
  }

  /** `ka` and `kb` are what stands in `a` and `b` at the same places, in the same order. */
  ghost predicate Places<A, B>(a: seq<A>, b: seq<B>, ka: seq<A>, kb: seq<B>, js: seq<nat>) {
    && |a| == |b| && |js| == |ka| == |kb|
    && (forall i | 0 <= i < |js| :: js[i] < |a| && ka[i] == a[js[i]] && kb[i] == b[js[i]])
    && (forall i, j | 0 <= i < j < |js| :: js[i] < js[j])
  }

  ghost function Later(js: seq<nat>): seq<nat> {
    seq(|js|, i requires 0 <= i < |js| => js[i] + 1)
  }

  lemma PlacesBehind<A, B>(a: seq<A>, b: seq<B>, ka: seq<A>, kb: seq<B>, js: seq<nat>)
    requires a != [] && |a| == |b| && Places(a[1..], b[1..], ka, kb, js)
    ensures Places(a, b, ka, kb, Later(js))
  {}

  lemma PlacesWithFirst<A, B>(a: seq<A>, b: seq<B>, ka: seq<A>, kb: seq<B>, js: seq<nat>)
    requires a != [] && Places(a, b, ka, kb, Later(js))
    ensures Places(a, b, [a[0]] + ka, [b[0]] + kb, [0] + Later(js))
  {}

  lemma {:induction false} RetainPlaces(cs: seq<Cursor>, tables: seq<seq<Entry>>) returns (js: seq<nat>)
    requires |cs| == |tables| && forall i | 0 <= i < |cs| :: cs[i].head.None? <==> tables[i] == []
    ensures Places(cs, tables, Retain(cs), NonEmpty(tables), js)
    decreases |cs|
  {
    hide Retain, NonEmpty, Later;
    if cs == [] {
      RetainNothing();
      js := [];
    } else {
      forall i | 0 <= i < |cs| - 1 ensures cs[1..][i].head.None? <==> tables[1..][i] == [] {
        assert cs[i + 1].head.None? <==> tables[i + 1] == [];
      }
      var rest := RetainPlaces(cs[1..], tables[1..]);
      hide Places;
      PlacesBehind(cs, tables, Retain(cs[1..]), NonEmpty(tables[1..]), rest);
      RetainCons(cs, tables);
      js := Later(rest);
      if cs[0].head.Some? {
        PlacesWithFirst(cs, tables, Retain(cs[1..]), NonEmpty(tables[1..]), rest);
        js := [0] + js;
      }
    }
  }

  lemma RetainNothing()
    ensures Retain([]) == [] && NonEmpty([]) == []
  {}

  lemma RetainCons(cs: seq<Cursor>, tables: seq<seq<Entry>>)
    requires cs != [] && tables != []
    ensures Retain(cs) == (if cs[0].head.Some? then [cs[0]] else []) + Retain(cs[1..])
    ensures NonEmpty(tables) == (if tables[0] == [] then [] else [tables[0]]) + NonEmpty(tables[1..])
  {}

  lemma RetainDelivers(env: Env, cs: seq<Cursor>, tables: seq<seq<Entry>>)
    requires AllDeliver(env, cs, tables) && Separate(cs)
    ensures AllDeliver(env, Retain(cs), NonEmpty(tables)) && Separate(Retain(cs))
    ensures FilesOf(Retain(cs)) <= FilesOf(cs)
    ensures InFront(Retain(cs), NonEmpty(tables))
  {
    hide SSTable.Rest, Retain, NonEmpty;
    forall i | 0 <= i < |cs| ensures cs[i].head.None? <==> tables[i] == [] {
      assert Delivers(env, cs[i], tables[i]);
    }
    var js := RetainPlaces(cs, tables);
    NonEmptyChangesNothing(tables);
    var kept := Retain(cs);
    forall i | 0 <= i < |kept|
      ensures Delivers(env, kept[i], NonEmpty(tables)[i]) && kept[i] in cs && kept[i].head.Some?
      ensures NonEmpty(tables)[i] != [] && NonEmpty(tables)[i][0] == kept[i].head.value
    {
      assert Delivers(env, cs[js[i]], tables[js[i]]);
      assert NonEmpty(tables)[i] in NonEmpty(tables);
    }
  }

  /** Every table of the merge has an entry in front. */
  ghost predicate InFront(cs: seq<Cursor>, tables: seq<seq<Entry>>) {
    && |cs| == |tables|
    && forall i | 0 <= i < |cs| :: cs[i].head.Some? && tables[i] != [] && tables[i][0] == cs[i].head.value
  }

  /** `min` over the keys in front; `None` when every table is exhausted. */
  method LeastKey(cs: seq<Cursor>, ghost tables: seq<seq<Entry>>) returns (min: Option<Text>)
    requires InFront(cs, tables)
    ensures min.None? <==> cs == []
    ensures min.Some? ==> IsMin(min.value, Fronts(tables))
  {
    hide Less, Fronts;
    if cs == [] {
      return None;
    }
    var best := cs[0].head.value.key;
    OneFront(tables[0]);
    assert tables[..1] == [tables[0]];
    for i := 1 to |cs|
      invariant IsMin(best, Fronts(tables[..i]))
    {
      var key := cs[i].head.value.key;
      LesserFront(tables[..i], tables[i], best);
      assert tables[..i + 1] == tables[..i] + [tables[i]];
      if Less(key, best) {
        best := key;
      }
    }
    assert tables[..|cs|] == tables;
    return Some(best);
  }

  lemma OneFront(t: seq<Entry>)
    requires t != []
    ensures IsMin(t[0].key, Fronts([t]))
  {
    assert t in [t] && t[0].key in Fronts([t]);
  }

  lemma LesserFront(tables: seq<seq<Entry>>, t: seq<Entry>, best: Text)
    requires t != [] && IsMin(best, Fronts(tables))
    ensures IsMin(if Less(t[0].key, best) then t[0].key else best, Fronts(tables + [t]))
  {
    hide Less;
    var key, all := t[0].key, tables + [t];
    assert t in all && key in Fronts(all);
    assert Fronts(all) == Fronts(tables) + {key} by {
      assert forall u :: u in all <==> u in tables || u == t;
    }
    LessTotal(key, best);
    forall x | x in Fronts(tables) && Less(key, best) ensures Less(key, x) {
      if x != best {
        LessTransitive(key, best, x);
      }
    }
  }

  // ----- One round -----

  lemma {:induction false} DropAt(tables: seq<seq<Entry>>, min: Text, i: nat)
    requires i < |tables|
    ensures Drop(tables, min)[i] == DropHead(tables[i], min)
    decreases i
  {
    if i > 0 {
      DropAt(tables[1..], min, i - 1);
    }
  }

  lemma {:induction false} FirstWithSnoc(tables: seq<seq<Entry>>, t: seq<Entry>, k: Text)
    ensures FirstWith(tables + [t], k) ==
              if FirstWith(tables, k).Some? then FirstWith(tables, k)
              else if t != [] && t[0].key == k then Some(t[0]) else None
    decreases |tables|
  {
    if tables != [] {
      assert (tables + [t])[1..] == tables[1..] + [t];
      FirstWithSnoc(tables[1..], t, k);
    }
  }

  /** Table `i` decides the key if no newer table has, and has it in front. */
  lemma RoundStep(tables: seq<seq<Entry>>, min: Text, seen: set<Text>, i: nat)
    requires i < |tables|
    ensures var t, before, after := tables[i], FirstWith(tables[..i], min), FirstWith(tables[..i + 1], min);
            var here := t != [] && t[0].key == min;
            && Drop(tables, min)[i] == (if here then t[1..] else t)
            && after == (if before.Some? then before else if here then Some(t[0]) else None)
            && Kept(tables[..i + 1], min, seen) ==
                 (if before.Some? then Kept(tables[..i], min, seen)
                  else if here && t[0].Set? && min !in seen then [t[0]] else [])
  {
    hide FirstWith, Drop;
    assert tables[..i + 1] == tables[..i] + [tables[i]];
    FirstWithSnoc(tables[..i], tables[i], min);
    DropAt(tables, min, i);
  }

  lemma NothingDecided(tables: seq<seq<Entry>>, min: Text, seen: set<Text>)
    ensures FirstWith(tables[..0], min) == None && Kept(tables[..0], min, seen) == []
  {}

  lemma UndecidedKeepsNothing(tables: seq<seq<Entry>>, min: Text, seen: set<Text>)
    ensures FirstWith(tables, min).None? || min in seen ==> Kept(tables, min, seen) == []
  {}

  /** The first entry seen for the least key wins; only a Set goes on to the output. */
  method Decide(env: Env, e: Entry, min: Text, seen: set<Text>, mem: MemTable) returns (seen': set<Text>)
    requires mem.Valid(env) && env.encode(e).Some?
    modifies mem
    ensures mem.Valid(env)
    ensures var wins := e.key == min && min !in seen;
            && seen' == (if wins then seen + {min} else seen)
            && mem.State() == (if wins && e.Set? then Process(env, old(mem.State()), e) else old(mem.State()))
  {
    seen' := seen;
    var isParticipant := e.key == min;
    var winnerFound := min in seen;
    if isParticipant && !winnerFound {
      seen' := seen + {min};
      if e.Set? {
        var ok := mem.Apply(env, e);
        assert ok;
      }
    }
  }

  /** Moves a cursor to the next entry of its table. */
  method Advance(env: Env, c: Cursor, ghost t: seq<Entry>) returns (c': Cursor)
    requires Delivers(env, c, t) && c.head.Some?
    modifies c.sst.file
    ensures c'.sst == c.sst && Delivers(env, c', t[1..])
  {
    var head := c.sst.ReadNextEntry(env);
    c' := Cursor(head, c.sst);
  }

  /** What was read from a file can be written again. */
  ghost predicate AllEncode(env: Env, tables: seq<seq<Entry>>) {
    forall t, e | t in tables && e in t :: env.encode(e).Some?
  }

  /** The first table with `min` in front wins, unless the key is decided; every table with it in front moves on. */
  method Round(env: Env, cs: seq<Cursor>, ghost tables: seq<seq<Entry>>, min: Text, seen: set<Text>, mem: MemTable)
    returns (next: seq<Cursor>, seen': set<Text>)
    requires AllDeliver(env, cs, tables) && Separate(cs) && InFront(cs, tables) && AllEncode(env, tables)
    requires mem.Valid(env)
    modifies mem, FilesOf(cs)
    ensures AllDeliver(env, next, Drop(tables, min)) && Separate(next) && FilesOf(next) == FilesOf(cs)
    ensures seen' == seen + (if FirstWith(tables, min).Some? then {min} else {})
    ensures mem.Valid(env) && mem.State() == Replay(env, old(mem.State()), Kept(tables, min, seen))
  {
    hide *;
    next := cs;
    seen' := seen;
    ghost var dropped := Drop(tables, min);
    NothingDecided(tables, min, seen);
    ReplayNone(env, mem.State());
    Unfold(env, cs, tables);
    for i := 0 to |cs|
      invariant |next| == |cs| && forall j | 0 <= j < |cs| :: next[j].sst == cs[j].sst
      invariant forall j | 0 <= j < i :: Delivers(env, next[j], dropped[j])
      invariant forall j | i <= j < |cs| :: next[j] == cs[j] && Delivers(env, cs[j], tables[j])
      invariant seen' == seen + (if FirstWith(tables[..i], min).Some? then {min} else {})
      invariant mem.Valid(env) && mem.State() == Replay(env, old(mem.State()), Kept(tables[..i], min, seen))
    {
      RoundStep(tables, min, seen, i);
      UndecidedKeepsNothing(tables[..i], min, seen);
      CanEncode(env, tables, i);
      var c := next[i];
      assert c.head == Some(tables[i][0]);
      ReplayNone(env, old(mem.State()));
      ReplayOne(env, old(mem.State()), tables[i][0]);
      seen' := Decide(env, c.head.value, min, seen', mem);
      if c.head.value.key == min {
        var c' := Advance(env, c, tables[i]);
        next := next[i := c'];
      }
    }
    assert tables[..|cs|] == tables;
    SameFiles(cs, next);
    Fold(env, next, dropped);
  }

  lemma Unfold(env: Env, cs: seq<Cursor>, tables: seq<seq<Entry>>)
    requires AllDeliver(env, cs, tables) && Separate(cs) && InFront(cs, tables)
    ensures |cs| == |tables|
    ensures forall i | 0 <= i < |cs| :: Delivers(env, cs[i], tables[i]) && cs[i] in cs && cs[i].sst.file in FilesOf(cs)
    ensures forall i | 0 <= i < |cs| :: cs[i].head.Some? && tables[i] != [] && tables[i][0] == cs[i].head.value
    ensures forall i, j | 0 <= i < j < |cs| :: cs[i].sst.file != cs[j].sst.file
  {}

  lemma Fold(env: Env, cs: seq<Cursor>, tables: seq<seq<Entry>>)
    requires |cs| == |tables| && forall i | 0 <= i < |cs| :: Delivers(env, cs[i], tables[i])
    requires forall i, j | 0 <= i < j < |cs| :: cs[i].sst.file != cs[j].sst.file
    ensures AllDeliver(env, cs, tables) && Separate(cs)
  {}

  lemma ReplayNone(env: Env, st: MemState)
    ensures Replay(env, st, []) == st
  {}

  lemma SameFiles(a: seq<Cursor>, b: seq<Cursor>)
    requires |a| == |b| && forall i | 0 <= i < |a| :: a[i].sst == b[i].sst
    ensures FilesOf(a) == FilesOf(b)
  {
    forall c | c in a ensures c.sst.file in FilesOf(b) {
      var i :| 0 <= i < |a| && a[i] == c;
      assert b[i] in b;
    }
    forall c | c in b ensures c.sst.file in FilesOf(a) {
      var i :| 0 <= i < |b| && b[i] == c;
      assert a[i] in a;
    }
  }

  lemma CanEncode(env: Env, tables: seq<seq<Entry>>, i: nat)
    requires AllEncode(env, tables) && i < |tables| && tables[i] != []
    ensures env.encode(tables[i][0]).Some?
  {
    assert tables[i] in tables && tables[i][0] in tables[i];
  }

  lemma ReplayOne(env: Env, st: MemState, e: Entry)
    ensures Replay(env, st, [e]) == Process(env, st, e)
  {
    assert [e][1..] == [];
  }

  // ----- The whole merge -----

  lemma EncodeNonEmpty(env: Env, tables: seq<seq<Entry>>)
    requires AllEncode(env, tables)
    ensures AllEncode(env, NonEmpty(tables))
  {
    hide NonEmpty;
    NonEmptyChangesNothing(tables);
  }

  lemma {:induction false} EncodeDrop(env: Env, tables: seq<seq<Entry>>, k: Text)
    requires AllEncode(env, tables)
    ensures AllEncode(env, Drop(tables, k))
    decreases |tables|
  {
    if tables != [] {
      assert tables == [tables[0]] + tables[1..];
      EncodeDrop(env, tables[1..], k);
      assert forall e | e in DropHead(tables[0], k) :: e in tables[0];
      assert Drop(tables, k) == [DropHead(tables[0], k)] + Drop(tables[1..], k);
    }
  }

  lemma FilesEncode(env: Env, datas: seq<bytes>)
    ensures AllEncode(env, TablesOf(env, datas))
  {
    hide TableEntries;
    var tables := TablesOf(env, datas);
    forall t, e | t in tables && e in t ensures env.encode(e).Some? {
      var i :| 0 <= i < |tables| && tables[i] == t;
      TableEntriesEncode(env, datas[i]);
    }
  }

  lemma PutsSnoc(env: Env, tick: nat, chunks: seq<seq<Entry>>, c: seq<Entry>)
    ensures Puts(env, tick, chunks + [c]) ==
              Puts(env, tick, chunks) + [Put(env.clock(tick + |chunks|), FlushImage(env, c).0)]
  {}

  lemma RemovesSnoc(names: seq<nat>, i: nat)
    requires i < |names|
    ensures Removes(names[..i + 1]) == Removes(names[..i]) + [Remove(names[i])]
  {}

  /** Opens the tables and puts their first entries in front. */
  method OpenCursors(env: Env, files: map<nat, bytes>) returns (cs: seq<Cursor>)
    ensures AllDeliver(env, cs, NonEmpty(TablesOf(env, Contents(files)))) && Separate(cs)
    ensures forall f | f in FilesOf(cs) :: fresh(f)
  {
    hide Contents, TablesOf, NonEmpty, SSTable.Rest;
    var ssts := OpenAll(env, files);
    FreshFiles(ssts);
    cs := LoadHeads(env, ssts, NonEmpty(TablesOf(env, Contents(files))));
    CursorFiles(cs, ssts);
  }

  /** The directory once `outs` are written and nothing is deleted. */
  ghost predicate Written(env: Env, dir: Directory, files: map<nat, bytes>, tick: nat, past: seq<DiskOp>,
                          outs: seq<seq<Entry>>)
    reads dir
  {
    && dir.tick == tick + |outs|
    && dir.history == past + Puts(env, tick, outs)
    && dir.files == FilesAfter(files, Puts(env, tick, outs))
  }

  /** Writes the pending file out; `false` leaves it in part. */
  method WriteOut(env: Env, dir: Directory, mem: MemTable, ghost files: map<nat, bytes>, ghost tick: nat,
                  ghost past: seq<DiskOp>, ghost outs: seq<seq<Entry>>) returns (ok: bool)
    requires mem.Valid(env) && mem.inner != map[] && Written(env, dir, files, tick, past, outs)
    modifies dir, mem
    ensures mem.Valid(env)
    ensures ok == FlushImage(env, SortedValues(old(mem.inner))).1 && (ok ==> mem.State() == EMPTY)
    ensures Written(env, dir, files, tick, past, outs + [SortedValues(old(mem.inner))])
  {
    hide Puts, FilesAfter, FlushImage, WellKeyed, SortedValues;
    ghost var es := SortedValues(mem.inner);
    PutsSnoc(env, tick, outs, es);
    OneMorePut(files, Puts(env, tick, outs), env.clock(dir.tick), FlushImage(env, es).0);
    ok := mem.FlushTo(env, dir);
  }

  lemma OneMorePut(files: map<nat, bytes>, ops: seq<DiskOp>, ts: nat, data: bytes)
    ensures FilesAfter(files, ops + [Put(ts, data)]) == FilesAfter(files, ops)[ts := data]
  {
    ApplyOpsSnoc(Durable([], files), ops, Put(ts, data));
  }

  /** `outs` are written, and the rest of the merge writes what is still missing of `goal`. */
  ghost predicate Ahead(env: Env, goal: Plan, outs: seq<seq<Entry>>, pend: seq<seq<Entry>>, seen: set<Text>,
                        st: MemState)
  {
    var rest := MergePlan(env, pend, seen, st);
    goal == Plan(outs + rest.chunks, rest.done)
  }

  /** After a round: the pending file goes out if it is large enough, and a failure ends the merge. */
  lemma AheadRound(env: Env, goal: Plan, outs: seq<seq<Entry>>, pend: seq<seq<Entry>>, seen: set<Text>,
                   st: MemState, min: Text)
    requires Ahead(env, goal, outs, pend, seen, st) && IsMin(min, Fronts(NonEmpty(pend)))
    ensures var live := NonEmpty(pend);
            var st' := Replay(env, st, Kept(live, min, seen));
            var es := SortedValues(st'.inner);
            && Weight(Drop(live, min)) < Weight(pend)
            && if !ShouldFlush(st') then Ahead(env, goal, outs, Drop(live, min), seen + {min}, st')
               else if FlushImage(env, es).1 then Ahead(env, goal, outs + [es], Drop(live, min), seen + {min}, EMPTY)
               else goal == Plan(outs + [es], false)
  {
    hide MergePlan, FlushImage, SortedValues, Replay, Kept, Drop, NonEmpty, ShouldFlush, Weight;
    PlanRound(env, pend, seen, st, min);
    var live := NonEmpty(pend);
    var es := SortedValues(Replay(env, st, Kept(live, min, seen)).inner);
    var rest := MergePlan(env, Drop(live, min), seen + {min}, EMPTY);
    assert outs + ([es] + rest.chunks) == (outs + [es]) + rest.chunks;
  }

  lemma AheadStart(env: Env, files: map<nat, bytes>, tick: nat)
    ensures Ahead(env, MergeOf(env, files), [], NonEmpty(TablesOf(env, Contents(files))), {}, EMPTY)
    ensures AllEncode(env, NonEmpty(TablesOf(env, Contents(files))))
    ensures Puts(env, tick, []) == [] && FilesAfter(files, []) == files
  {
    hide MergePlan, TablesOf, Contents, AllEncode, NonEmpty;
    FilesEncode(env, Contents(files));
    EncodeNonEmpty(env, TablesOf(env, Contents(files)));
  }

  lemma AheadEnd(env: Env, goal: Plan, outs: seq<seq<Entry>>, pend: seq<seq<Entry>>, seen: set<Text>, st: MemState)
    requires Ahead(env, goal, outs, pend, seen, st) && NonEmpty(pend) == []
    ensures goal == if st.inner == map[] then Plan(outs, true)
                    else Plan(outs + [SortedValues(st.inner)], FlushImage(env, SortedValues(st.inner)).1)
  {
    hide MergePlan, FlushImage, SortedValues;
    PlanEnd(env, pend, seen, st);
  }

  lemma StateParts(env: Env, mem: MemTable)
    requires mem.Valid(env)
    ensures mem.State() == MemState(mem.inner, mem.size) && (mem.IsEmpty() <==> mem.inner == map[])
    ensures ShouldFlush(mem.State()) ==> mem.inner != map[]
  {}

  /** The loop of `Log::compact`: everything up to the deletion of the originals. */
  method MergeAll(env: Env, dir: Directory) returns (ok: bool)
    modifies dir
    ensures ok == MergeDone(env, old(dir.files))
    ensures Written(env, dir, old(dir.files), old(dir.tick), old(dir.history), OutputChunks(env, old(dir.files)))
  {
    hide MergeOf, NonEmpty, TablesOf, Contents, Puts, FilesAfter, FlushImage, SortedValues, Replay, Kept, Drop, Weight,
         Fronts, FirstWith, Ahead, ShouldFlush, AllEncode, WellKeyed, SSTable.Rest, MergePlan, IsMin, InFront;
    ghost var files, tick, past := dir.files, dir.tick, dir.history;
    ghost var goal := MergeOf(env, files);
    AheadStart(env, files, tick);
    ghost var pend := NonEmpty(TablesOf(env, Contents(files)));
    var cs := OpenCursors(env, dir.files);
    var mem := new MemTable(env);
    var seen: set<Text> := {};
    ghost var outs: seq<seq<Entry>> := [];
    while true
      invariant AllDeliver(env, cs, pend) && Separate(cs) && AllEncode(env, pend)
      invariant forall f | f in FilesOf(cs) :: fresh(f)
      invariant fresh(mem) && mem.Valid(env) && Written(env, dir, files, tick, past, outs)
      invariant Ahead(env, goal, outs, pend, seen, mem.State())
      decreases Weight(pend)
    {
      var least: Option<Text>;
      cs, least := NextKey(env, cs, pend);
      if least.None? {
        break;
      }
      EncodeNonEmpty(env, pend);
      EncodeDrop(env, NonEmpty(pend), least.value);
      AheadRound(env, goal, outs, pend, seen, mem.State(), least.value);
      FrontIsFirst(NonEmpty(pend), least.value);
      cs, seen := Round(env, cs, NonEmpty(pend), least.value, seen, mem);
      pend := Drop(NonEmpty(pend), least.value);
      StateParts(env, mem);
      if ShouldFlush(mem.State()) {
        ghost var es := SortedValues(mem.inner);
        ok := WriteOut(env, dir, mem, files, tick, past, outs);
        outs := outs + [es];
        if !ok {
          return false;
        }
      }
    }
    AheadEnd(env, goal, outs, pend, seen, mem.State());
    StateParts(env, mem);
    ok := true;
    if !mem.IsEmpty() {
      ok := WriteOut(env, dir, mem, files, tick, past, outs);
    }
  }

  lemma {:induction false} FrontIsFirst(tables: seq<seq<Entry>>, k: Text)
    requires IsMin(k, Fronts(tables))
    ensures FirstWith(tables, k).Some?
  {
    SomeFront(tables, k);
  }

  lemma {:induction false} SomeFront(tables: seq<seq<Entry>>, k: Text)
    requires k in Fronts(tables)
    ensures FirstWith(tables, k).Some?
    decreases |tables|
  {
    assert tables == [tables[0]] + tables[1..];
    if tables[0] == [] || tables[0][0].key != k {
      SomeFront(tables[1..], k);
    }
  }

  /** `retain`, then the minimum of the keys in front; `None` when every table is exhausted. */
  method NextKey(env: Env, cs: seq<Cursor>, ghost tables: seq<seq<Entry>>)
    returns (kept: seq<Cursor>, min: Option<Text>)
    requires AllDeliver(env, cs, tables) && Separate(cs)
    ensures AllDeliver(env, kept, NonEmpty(tables)) && Separate(kept) && FilesOf(kept) <= FilesOf(cs)
    ensures InFront(kept, NonEmpty(tables))
    ensures min.None? <==> NonEmpty(tables) == []
    ensures min.Some? ==> IsMin(min.value, Fronts(NonEmpty(tables)))
  {
    hide Retain, NonEmpty, Fronts, IsMin, SSTable.Rest;
    RetainDelivers(env, cs, tables);
    kept := Retain(cs);
    min := LeastKey(kept, NonEmpty(tables));
  }

  /** The originals are deleted in listing order, newest first. */
  method DeleteAll(dir: Directory, names: seq<nat>, ghost files: map<nat, bytes>, ghost ops: seq<DiskOp>)
    requires dir.files == FilesAfter(files, ops)
    modifies dir
    ensures dir.history == old(dir.history) + Removes(names)
    ensures dir.files == FilesAfter(files, ops + Removes(names))
    ensures dir.tick == old(dir.tick)
  {
    hide FilesAfter, Removes;
    NoRemoves(names);
    assert ops + [] == ops;
    for i := 0 to |names|
      invariant dir.tick == old(dir.tick)
      invariant dir.history == old(dir.history) + Removes(names[..i])
      invariant dir.files == FilesAfter(files, ops + Removes(names[..i]))
    {
      RemovesSnoc(names, i);
      OneMoreOp(files, ops + Removes(names[..i]), Remove(names[i]));
      assert ops + Removes(names[..i + 1]) == ops + Removes(names[..i]) + [Remove(names[i])];
      dir.Delete(names[i]);
    }
    assert names[..|names|] == names;
  }

  /** `Log::compact`, on any directory; `false` is a flush that failed, and then nothing is deleted. */
  method Compact(env: Env, dir: Directory) returns (ok: bool)
    modifies dir
    ensures ok == MergeDone(env, old(dir.files))
    ensures dir.history == old(dir.history) + CompactOps(env, old(dir.files), old(dir.tick))
    ensures dir.files == FilesAfter(old(dir.files), CompactOps(env, old(dir.files), old(dir.tick)))
    ensures dir.tick == old(dir.tick) + |OutputChunks(env, old(dir.files))|
  {
    hide OutputChunks, MergeDone, Listing, FilesAfter, Puts, Removes;
    var toDelete := Listing(dir.files.Keys);
    ghost var files := dir.files;
    ghost var puts := Puts(env, dir.tick, OutputChunks(env, files));
    assert puts + [] == puts;
    ok := MergeAll(env, dir);
    if ok {
      DeleteAll(dir, toDelete, files, puts);
    }
  }

  /** On sorted tables no flush fails, and the outputs are the winning Sets in key order, cut by size. */
  lemma MergeOfSorted(env: Env, files: map<nat, bytes>)
    requires TablesOk(env, TablesOf(env, Contents(files)))
    ensures MergeDone(env, files)
    ensures OutputChunks(env, files) == Chunks(env, [], LiveEntries(TablesOf(env, Contents(files))))
  {
    hide TablesOf, Contents, MergePlan, Chunks, LiveEntries, TablesOk, NonEmpty;
    TablesOkNonEmpty(env, TablesOf(env, Contents(files)));
    PlanIsChunks(env, NonEmpty(TablesOf(env, Contents(files))));
  }

  lemma NoRemoves(names: seq<nat>)
    ensures Removes(names[..0]) == []
  {}

  lemma OneMoreOp(files: map<nat, bytes>, ops: seq<DiskOp>, op: DiskOp)
    requires op.Remove?
    ensures FilesAfter(files, ops + [op]) == FilesAfter(files, ops) - {op.ts}
  {
    ApplyOpsSnoc(Durable([], files), ops, op);
  }

  lemma FreshFiles(ssts: seq<SSTable>)
    ensures forall t | t in ssts :: exists i :: 0 <= i < |ssts| && ssts[i] == t
  {}

  lemma CursorFiles(cs: seq<Cursor>, ssts: seq<SSTable>)
    requires |cs| == |ssts| && forall i | 0 <= i < |cs| :: cs[i].sst == ssts[i]
    ensures forall f | f in FilesOf(cs) :: exists i :: 0 <= i < |ssts| && ssts[i].file == f
  {}
}
