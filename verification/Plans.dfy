/** What the k-way merge does to any tables, sorted or not, and that on sorted tables it is the merge meant. */
module Plans {
  import opened Bytes
  import opened Keys
  import opened Entries
  import opened Header
  import opened Recovery
  import opened MemTables
  import opened Lookup
  import opened Merge

  // ----- The merge, round by round, on tables of any shape -----

  /** The keys in front of the tables. */
  ghost function Fronts(tables: seq<seq<Entry>>): set<Text> {
    set t: seq<Entry> | t in tables && t != [] :: t[0].key
  }

  /** The entry in front of the first table that has `k` there. */
  ghost function FirstWith(tables: seq<seq<Entry>>, k: Text): (r: Option<Entry>)
    ensures r.Some? ==> r.value.key == k
  {
    if tables == [] then None
    else if tables[0] != [] && tables[0][0].key == k then Some(tables[0][0])
    else FirstWith(tables[1..], k)
  }

  /** What a round hands to the memtable: the first table with `k` in front wins, and only a Set is kept. */
  ghost function Kept(tables: seq<seq<Entry>>, k: Text, seen: set<Text>): seq<Entry> {
    match FirstWith(tables, k)
    case Some(Set(x, v)) => if k in seen then [] else [Set(x, v)]
    case _ => []
  }

  /** The output files, each as the entries it is to hold, and whether the last of them could be written. */
  datatype Plan = Plan(chunks: seq<seq<Entry>>, done: bool)

  ghost function Weight(tables: seq<seq<Entry>>): nat {
    if tables == [] then 0 else |tables[0]| + Weight(tables[1..])
  }

  /** One output file, and the rest of the merge if that file can be written to the end. */
  ghost function FileThen(env: Env, es: seq<Entry>, rest: Plan): Plan {
    if FlushImage(env, es).1 then Plan([es] + rest.chunks, rest.done) else Plan([es], false)
  }

  /** The loop of the merge from a state in which `tables` are unread, `seen` decided and `st` pending. */
  ghost function MergePlan(env: Env, tables: seq<seq<Entry>>, seen: set<Text>, st: MemState): Plan
    decreases Weight(tables)
  {
    var live := NonEmpty(tables);
    if live == [] then
      if st.inner == map[] then Plan([], true) else FileThen(env, SortedValues(st.inner), Plan([], true))
    else
      FrontsExist(tables);
      var min := Min(Fronts(live));
      var st' := Replay(env, st, Kept(live, min, seen));
      DropIsLighter(tables, min);
      if ShouldFlush(st')
      then FileThen(env, SortedValues(st'.inner), MergePlan(env, Drop(live, min), seen + {min}, EMPTY))
      else MergePlan(env, Drop(live, min), seen + {min}, st')
  }

  lemma {:induction false} NonEmptyWeight(tables: seq<seq<Entry>>)
    ensures Weight(NonEmpty(tables)) == Weight(tables)
    decreases |tables|
  {
    if tables != [] {
      NonEmptyWeight(tables[1..]);
      if tables[0] != [] {
        assert NonEmpty(tables)[1..] == NonEmpty(tables[1..]);
      } else {
        assert NonEmpty(tables) == NonEmpty(tables[1..]);
      }
    }
  }

  lemma FrontsExist(tables: seq<seq<Entry>>)
    requires NonEmpty(tables) != []
    ensures Fronts(NonEmpty(tables)) != {}
  {
    NonEmptyChangesNothing(tables);
    assert NonEmpty(tables)[0] in NonEmpty(tables);
    assert NonEmpty(tables)[0][0].key in Fronts(NonEmpty(tables));
  }

  lemma {:induction false} DropWeight(tables: seq<seq<Entry>>, k: Text)
    ensures Weight(Drop(tables, k)) <= Weight(tables)
    ensures k in Fronts(tables) ==> Weight(Drop(tables, k)) < Weight(tables)
    decreases |tables|
  {
    if tables != [] {
      assert tables == [tables[0]] + tables[1..];
      DropWeight(tables[1..], k);
      assert Drop(tables, k)[1..] == Drop(tables[1..], k);
    }
  }

  lemma DropIsLighter(tables: seq<seq<Entry>>, k: Text)
    requires k in Fronts(NonEmpty(tables))
    ensures Weight(Drop(NonEmpty(tables), k)) < Weight(tables)
  {
    hide Fronts, Weight, Drop, NonEmpty;
    NonEmptyWeight(tables);
    DropWeight(NonEmpty(tables), k);
  }

  /** One round: the least key in front is decided, and every table that has it in front moves on. */
  lemma PlanRound(env: Env, tables: seq<seq<Entry>>, seen: set<Text>, st: MemState, min: Text)
    requires IsMin(min, Fronts(NonEmpty(tables)))
    ensures var live := NonEmpty(tables);
            var st' := Replay(env, st, Kept(live, min, seen));
            MergePlan(env, tables, seen, st) ==
              if ShouldFlush(st')
              then FileThen(env, SortedValues(st'.inner), MergePlan(env, Drop(live, min), seen + {min}, EMPTY))
              else MergePlan(env, Drop(live, min), seen + {min}, st')
    ensures Weight(Drop(NonEmpty(tables), min)) < Weight(tables)
  {
    hide FlushImage, SortedValues, Replay, Kept, Drop, NonEmpty, ShouldFlush, Weight, Min, FileThen;
    DropIsLighter(tables, min);
    FrontsExistIf(tables, min);
    MinUnique(Fronts(NonEmpty(tables)), min, Min(Fronts(NonEmpty(tables))));
  }

  lemma FrontsExistIf(tables: seq<seq<Entry>>, k: Text)
    requires k in Fronts(NonEmpty(tables))
    ensures NonEmpty(tables) != []
  {
    hide NonEmpty;
  }

  /** Nothing left to read: what is pending becomes the last file. */
  lemma PlanEnd(env: Env, tables: seq<seq<Entry>>, seen: set<Text>, st: MemState)
    requires NonEmpty(tables) == []
    ensures MergePlan(env, tables, seen, st) ==
              if st.inner == map[] then Plan([], true) else FileThen(env, SortedValues(st.inner), Plan([], true))
  {
    hide FlushImage, SortedValues, FileThen;
  }

  // ----- On sorted tables -----

  /** Every table is strictly key-sorted, and every entry in it can be written again. */
  ghost predicate TablesOk(env: Env, tables: seq<seq<Entry>>) {
    AllSorted(tables) && forall t | t in tables :: AllStorable(env, t)
  }

  lemma {:induction false} KeyIsSomewhere(tables: seq<seq<Entry>>, k: Text)
    requires k in AllKeys(tables)
    ensures exists t :: t in tables && k in KeysIn(t)
    decreases |tables|
  {
    hide KeysIn;
    if k in KeysIn(tables[0]) {
      assert tables[0] in tables;
    } else {
      KeyIsSomewhere(tables[1..], k);
      var t :| t in tables[1..] && k in KeysIn(t);
      assert t in tables;
    }
  }

  lemma {:induction false} KeysOfMember(tables: seq<seq<Entry>>, t: seq<Entry>)
    requires t in tables
    ensures KeysIn(t) <= AllKeys(tables)
    decreases |tables|
  {
    hide KeysIn;
    if t != tables[0] {
      assert tables == [tables[0]] + tables[1..];
      KeysOfMember(tables[1..], t);
    }
  }

  lemma FrontIsLeast(t: seq<Entry>, k: Text)
    requires SortedEntries(t) && k in KeysIn(t)
    ensures t != [] && (t[0].key == k || Less(t[0].key, k))
  {
    hide Less;
  }

  lemma FrontIsKey(t: seq<Entry>)
    requires t != []
    ensures t[0].key in KeysIn(t)
  {}

  /** In sorted tables the least key in front of any is the least key of all. */
  lemma LeastInFront(tables: seq<seq<Entry>>, min: Text)
    requires AllSorted(tables) && IsMin(min, Fronts(tables))
    ensures IsMin(min, AllKeys(tables))
  {
    hide Less, KeysIn, AllKeys, SortedEntries;
    var t: seq<Entry> :| t in tables && t != [] && t[0].key == min;
    FrontIsKey(t);
    KeysOfMember(tables, t);
    forall k | k in AllKeys(tables) ensures min == k || Less(min, k) {
      KeyIsSomewhere(tables, k);
      var u: seq<Entry> :| u in tables && k in KeysIn(u);
      FrontIsLeast(u, k);
      var front := u[0].key;
      assert front in Fronts(tables);
      if front != k && min != front {
        LessTransitive(min, front, k);
      }
    }
  }

  lemma {:induction false} FirstIsWinner(tables: seq<seq<Entry>>, min: Text)
    requires AllSorted(tables) && forall x | x in AllKeys(tables) :: min == x || Less(min, x)
    ensures FirstWith(tables, min) == Winner(tables, min)
    decreases |tables|
  {
    hide SortedEntries, Less, KeysIn, Find;
    if tables != [] {
      assert tables == [tables[0]] + tables[1..];
      DropHeadEffect(tables[0], min, min);
      FirstIsWinner(tables[1..], min);
    }
  }

  lemma {:induction false} DropStorable(env: Env, tables: seq<seq<Entry>>, min: Text)
    requires forall t | t in tables :: AllStorable(env, t)
    ensures forall t | t in Drop(tables, min) :: AllStorable(env, t)
    decreases |tables|
  {
    hide Storable, AllStorable;
    if tables != [] {
      assert tables == [tables[0]] + tables[1..];
      DropStorable(env, tables[1..], min);
      TailStorable(env, tables[0]);
      assert tables[0] in tables;
    }
  }

  lemma TailStorable(env: Env, t: seq<Entry>)
    ensures AllStorable(env, t) && t != [] ==> AllStorable(env, t[1..])
  {
    hide Storable;
  }

  lemma {:induction false} WinnerIsMember(tables: seq<seq<Entry>>, k: Text)
    requires Winner(tables, k).Some?
    ensures exists t :: t in tables && Winner(tables, k).value in t
    decreases |tables|
  {
    if Find(tables[0], k).None? {
      WinnerIsMember(tables[1..], k);
      var t :| t in tables[1..] && Winner(tables[1..], k).value in t;
      assert t in tables;
    } else {
      assert tables[0] in tables;
    }
  }

  lemma TablesOkNonEmpty(env: Env, tables: seq<seq<Entry>>)
    requires TablesOk(env, tables)
    ensures TablesOk(env, NonEmpty(tables)) && AllKeys(NonEmpty(tables)) == AllKeys(tables)
    ensures LiveEntries(NonEmpty(tables)) == LiveEntries(tables)
  {
    hide NonEmpty, SortedEntries, LiveEntries, AllStorable, AllKeys, Winner;
    NonEmptyChangesNothing(tables);
    LiveEntriesNonEmpty(tables);
  }

  /** On sorted tables a round keeps the winner of the least key of all, if that is a Set. */
  lemma SortedRound(env: Env, tables: seq<seq<Entry>>, min: Text, seen: set<Text>)
    requires TablesOk(env, tables) && IsMin(min, Fronts(tables)) && seen !! AllKeys(tables)
    ensures IsMin(min, AllKeys(tables)) && min !in seen
    ensures var kept := Kept(tables, min, seen);
            && LiveEntries(tables) == kept + LiveEntries(Drop(tables, min))
            && |kept| <= 1 && forall e | e in kept :: Storable(env, e) && e.key == min
  {
    hide AllKeys, Winner, LiveEntries, Drop, Fronts, Storable, Less, FirstWith, SortedEntries;
    LeastInFront(tables, min);
    FirstIsWinner(tables, min);
    LiveEntriesStep(tables, min);
    WinnerIsMember(tables, min);
  }

  /** Every pending entry comes before every key still to be merged. */
  ghost predicate Below(es: seq<Entry>, keys: set<Text>) {
    forall e, k | e in es && k in keys :: Less(e.key, k)
  }

  lemma RoundKeepsOrder(env: Env, tables: seq<seq<Entry>>, min: Text, kept: seq<Entry>, pending: seq<Entry>)
    requires TablesOk(env, tables) && IsMin(min, AllKeys(tables))
    requires |kept| <= 1 && forall e | e in kept :: Storable(env, e) && e.key == min
    requires Pending(env, pending) && Below(pending, AllKeys(tables))
    ensures var next, rest := pending + kept, Drop(tables, min);
            && TablesOk(env, rest) && AllKeys(rest) == AllKeys(tables) - {min}
            && Below(next, AllKeys(rest)) && SortedEntries(next) && AllStorable(env, next)
  {
    hide Drop, AllKeys, AllSorted, Storable, Less, Replay, ShouldFlush, TotalSize;
    DropKeys(tables, min);
    DropStorable(env, tables, min);
  }

  lemma RoundCuts(env: Env, kept: seq<Entry>, live: seq<Entry>, pending: seq<Entry>)
    requires Pending(env, pending) && SortedEntries(pending + kept)
    requires |kept| <= 1 && forall e | e in kept :: Storable(env, e)
    ensures var next := pending + kept;
            if ShouldFlush(Replay(env, EMPTY, next))
            then Fits(env, next) && Chunks(env, pending, kept + live) == [next] + Chunks(env, [], live)
            else Pending(env, next) && Chunks(env, pending, kept + live) == Chunks(env, next, live)
  {
    hide Storable, Less, Replay, Fits, SortedEntries, TotalSize;
    if kept == [] {
      assert pending + kept == pending && kept + live == live;
    } else {
      assert kept == [kept[0]] && kept[0] in kept;
      PendingGrows(env, pending, kept[0]);
      assert (kept + live)[1..] == live;
    }
  }

  lemma NothingPending(env: Env, keys: set<Text>)
    ensures Pending(env, []) && Replay(env, EMPTY, []) == EMPTY && Below([], keys)
  {
    PendingNothing(env);
  }

  lemma NothingLeft(env: Env, pending: seq<Entry>)
    ensures Chunks(env, pending, LiveEntries([])) == if pending == [] then [] else [pending]
  {}

  /** What is pending is what the memtable lists. */
  lemma PendingState(env: Env, es: seq<Entry>)
    requires SortedEntries(es)
    ensures var inner := Replay(env, EMPTY, es).inner; SortedValues(inner) == es && (inner == map[] <==> es == [])
  {
    hide SortedValues, SortedEntries;
    ReplaySorted(env, es);
    if es != [] {
      assert es[0].key in KeysIn(es);
    }
  }

  lemma FileFits(env: Env, es: seq<Entry>, rest: Plan)
    requires Fits(env, es)
    ensures FileThen(env, es, rest) == Plan([es] + rest.chunks, rest.done)
  {
    hide FlushImage, Fits;
    FitsImage(env, es);
  }

  lemma {:induction false} PlanFrom(env: Env, tables: seq<seq<Entry>>, seen: set<Text>, pending: seq<Entry>)
    requires TablesOk(env, tables) && seen !! AllKeys(tables)
    requires Pending(env, pending) && Below(pending, AllKeys(tables))
    ensures MergePlan(env, tables, seen, Replay(env, EMPTY, pending)) ==
              Plan(Chunks(env, pending, LiveEntries(tables)), true)
    decreases Weight(tables)
  {
    hide *;
    TablesOkNonEmpty(env, tables);
    var live := NonEmpty(tables);
    if live == [] {
      PlanEnd(env, tables, seen, Replay(env, EMPTY, pending));
      NothingLeft(env, pending);
      PendingIsSorted(env, pending);
      PendingState(env, pending);
      if pending != [] {
        PendingFits(env, pending);
        FileFits(env, pending, Plan([], true));
        assert [pending] + [] == [pending];
      }
    } else {
      FrontsExist(tables);
      PlanFromRound(env, tables, seen, pending, Min(Fronts(live)));
    }
  }

  lemma PendingIsSorted(env: Env, es: seq<Entry>)
    requires Pending(env, es)
    ensures SortedEntries(es)
  {}

  lemma {:induction false} PlanFromRound(env: Env, tables: seq<seq<Entry>>, seen: set<Text>, pending: seq<Entry>,
                                         min: Text)
    requires TablesOk(env, tables) && seen !! AllKeys(tables)
    requires Pending(env, pending) && Below(pending, AllKeys(tables))
    requires TablesOk(env, NonEmpty(tables)) && AllKeys(NonEmpty(tables)) == AllKeys(tables)
    requires LiveEntries(NonEmpty(tables)) == LiveEntries(tables) && IsMin(min, Fronts(NonEmpty(tables)))
    ensures MergePlan(env, tables, seen, Replay(env, EMPTY, pending)) ==
              Plan(Chunks(env, pending, LiveEntries(tables)), true)
    decreases Weight(tables), 0
  {
    hide *;
    var live := NonEmpty(tables);
    var kept, rest := Kept(live, min, seen), Drop(live, min);
    var next := pending + kept;
    PlanRound(env, tables, seen, Replay(env, EMPTY, pending), min);
    SortedRound(env, live, min, seen);
    RoundKeepsOrder(env, live, min, kept, pending);
    RoundCuts(env, kept, LiveEntries(rest), pending);
    ReplayConcat(env, EMPTY, pending, kept);
    PendingState(env, next);
    if ShouldFlush(Replay(env, EMPTY, next)) {
      NothingPending(env, AllKeys(rest));
      PlanFrom(env, rest, seen + {min}, []);
      FileFits(env, next, MergePlan(env, rest, seen + {min}, EMPTY));
    } else {
      PlanFrom(env, rest, seen + {min}, next);
    }
  }

  /** On sorted tables the merge writes the winning Sets in key order, cut by size, and no flush fails. */
  lemma PlanIsChunks(env: Env, tables: seq<seq<Entry>>)
    requires TablesOk(env, tables)
    ensures MergePlan(env, tables, {}, EMPTY) == Plan(Chunks(env, [], LiveEntries(tables)), true)
  {
    hide *;
    NothingPending(env, AllKeys(tables));
    PlanFrom(env, tables, {}, []);
  }
}
