/** Looking a key up in the SSTables, newest first, with the filters and without them. */
module Lookup {
  import opened Bytes
  import opened Entries
  import opened Bloom
  import opened Tables

  // ----- The directory, newest file first -----

  ghost predicate Descending(names: seq<nat>) {
    forall i, j | 0 <= i < j < |names| :: names[i] > names[j]
  }

  ghost function NameSet(names: seq<nat>): set<nat> {
    set n | n in names
  }

  predicate IsMax(n: nat, s: set<nat>) {
    n in s && forall x | x in s :: x <= n
  }

  lemma {:induction false} MaxExists(s: set<nat>)
    requires s != {}
    ensures exists n :: IsMax(n, s)
  {
    var x :| x in s;
    if s == {x} {
      assert IsMax(x, s);
    } else {
      MaxExists(s - {x});
      var n :| IsMax(n, s - {x});
      var top := if n < x then x else n;
      forall y | y in s ensures y <= top {
        assert y == x || y in s - {x};
      }
      assert IsMax(top, s);
    }
  }

  function Max(s: set<nat>): (n: nat)
    requires s != {}
    ensures IsMax(n, s)
  {
    MaxExists(s);
    var n :| n in s && IsMax(n, s);
    n
  }

  /** The file names in the order `get` and `compact` visit them. */
  function Listing(s: set<nat>): (names: seq<nat>)
    ensures Descending(names) && NameSet(names) == s && |names| == |s|
    decreases |s|
  {
    if s == {} then []
    else
      var m := Max(s);
      var rest := Listing(s - {m});
      ListingStep(s, m, rest);
      [m] + rest
  }

  lemma ListingStep(s: set<nat>, m: nat, rest: seq<nat>)
    requires IsMax(m, s) && Descending(rest) && NameSet(rest) == s - {m}
    ensures Descending([m] + rest) && NameSet([m] + rest) == s
  {
    forall i | 0 <= i < |rest| ensures m > rest[i] {
      assert rest[i] in NameSet(rest);
    }
    assert forall n :: n in [m] + rest <==> n == m || n in NameSet(rest);
  }

  lemma {:induction false} DescendingUnique(a: seq<nat>, b: seq<nat>)
    requires Descending(a) && Descending(b) && NameSet(a) == NameSet(b)
    ensures a == b
    decreases |a|
  {
    assert b != [] ==> b[0] in NameSet(b);
    if a == [] {
      assert NameSet(a) == {};
    } else {
      assert a[0] in NameSet(a) && a[0] in b && b[0] in a;
      NameSetTail(a);
      NameSetTail(b);
      DescendingUnique(a[1..], b[1..]);
      assert a == [a[0]] + a[1..] && b == [b[0]] + b[1..];
    }
  }

  lemma NameSetTail(a: seq<nat>)
    requires a != [] && Descending(a)
    ensures NameSet(a[1..]) == NameSet(a) - {a[0]}
  {
    assert a == [a[0]] + a[1..];
  }

  /** Every file of `young` was written at time `t` or later, every file of `aged` before. */
  ghost predicate Younger(young: set<nat>, aged: set<nat>, t: nat) {
    (forall x | x in young :: t <= x) && (forall y | y in aged :: y < t)
  }

  /** Younger files are listed first. */
  lemma ListingUnion(young: set<nat>, aged: set<nat>, t: nat)
    requires Younger(young, aged, t)
    ensures Listing(young + aged) == Listing(young) + Listing(aged)
  {
    hide Listing;
    var a, b := Listing(young), Listing(aged);
    forall i | 0 <= i < |a| ensures t <= a[i] {
      assert a[i] in NameSet(a);
    }
    forall i | 0 <= i < |b| ensures b[i] < t {
      assert b[i] in NameSet(b);
    }
    assert Descending(a + b);
    NameSetConcat(a, b);
    DescendingUnique(Listing(young + aged), a + b);
  }

  lemma NameSetConcat(a: seq<nat>, b: seq<nat>)
    ensures NameSet(a + b) == NameSet(a) + NameSet(b)
  {}

  lemma ListingSingle(n: nat)
    ensures Listing({n}) == [n]
  {
    var names := Listing({n});
    assert names[0] in NameSet(names);
  }

  lemma ListingCons(s: set<nat>)
    requires s != {}
    ensures Listing(s) == [Max(s)] + Listing(s - {Max(s)})
  {}

  /** Deleting the `i` newest files leaves the rest of the listing. */
  lemma {:induction false} ListingDrop(s: set<nat>, i: nat)
    requires i <= |s|
    ensures Listing(s - NameSet(Listing(s)[..i])) == Listing(s)[i..]
    decreases i
  {
    hide *;
    var names := Listing(s);
    if i == 0 {
      NothingNamed(names);
      assert s - NameSet(names[..0]) == s;
      assert names[0..] == names;
    } else {
      var m := Max(s);
      var rest := Listing(s - {m});
      ListingCons(s);
      assert |s - {m}| == |s| - 1;
      ListingDrop(s - {m}, i - 1);
      NameSetCons(m, rest[..i - 1]);
      assert names[..i] == [m] + rest[..i - 1] && names[i..] == rest[i - 1..];
      SetMinusTwice(s, m, NameSet(rest[..i - 1]));
    }
  }

  /** Deleting all but the `m` newest files leaves the front of the listing. */
  lemma ListingTake(s: set<nat>, m: nat)
    requires m <= |s|
    ensures Listing(s - NameSet(Listing(s)[m..])) == Listing(s)[..m]
  {
    hide Listing, NameSet;
    var names := Listing(s);
    var kept, gone := names[..m], names[m..];
    assert kept + gone == names;
    NameSetConcat(kept, gone);
    NamesApart(kept, gone);
    assert s - NameSet(gone) == NameSet(kept);
    DescendingUnique(Listing(s - NameSet(gone)), kept);
  }

  lemma NamesApart(a: seq<nat>, b: seq<nat>)
    requires Descending(a + b)
    ensures NameSet(a) !! NameSet(b) && Descending(a)
  {
    var all := a + b;
    assert forall i | 0 <= i < |a| :: all[i] == a[i];
    forall i, j | 0 <= i < |a| && 0 <= j < |b| ensures a[i] != b[j] {
      assert all[i] > all[|a| + j];
    }
  }

  lemma NothingNamed(names: seq<nat>)
    ensures NameSet(names[..0]) == {}
  {}

  lemma NameSetCons(m: nat, rest: seq<nat>)
    ensures NameSet([m] + rest) == {m} + NameSet(rest)
  {}

  lemma SetMinusTwice(s: set<nat>, m: nat, gone: set<nat>)
    ensures s - ({m} + gone) == s - {m} - gone
  {}

  /** The contents of the files, newest first. */
  function Contents(files: map<nat, bytes>): (datas: seq<bytes>)
    ensures |datas| == |files|
  {
    var names := Listing(files.Keys);
    assert forall i | 0 <= i < |names| :: names[i] in NameSet(names);
    seq(|names|, i requires 0 <= i < |names| => files[names[i]])
  }

  lemma ContentsAt(files: map<nat, bytes>, i: nat)
    requires i < |files|
    ensures Listing(files.Keys)[i] in files && Contents(files)[i] == files[Listing(files.Keys)[i]]
  {
    assert Listing(files.Keys)[i] in NameSet(Listing(files.Keys));
  }

  lemma ContentsUnion(young: map<nat, bytes>, aged: map<nat, bytes>, t: nat)
    requires Younger(young.Keys, aged.Keys, t)
    ensures Contents(aged + young) == Contents(young) + Contents(aged)
  {
    hide Listing, Contents, Descending, NameSet, PartOf;
    var files := aged + young;
    assert files.Keys == young.Keys + aged.Keys;
    ListingUnion(young.Keys, aged.Keys, t);
    var a, b := Listing(young.Keys), Listing(aged.Keys);
    UnionParts(young, aged, t);
    forall i | 0 <= i < |a| + |b| ensures Contents(files)[i] == (Contents(young) + Contents(aged))[i] {
      UnionAt(young, aged, files, i);
    }
    assert |Contents(files)| == |a + b|;
  }

  /** Every file of `part` is in the directory. */
  ghost predicate PartOf(part: map<nat, bytes>, files: map<nat, bytes>) {
    forall n | n in part :: n in files && files[n] == part[n]
  }

  lemma UnionParts(young: map<nat, bytes>, aged: map<nat, bytes>, t: nat)
    requires Younger(young.Keys, aged.Keys, t)
    ensures PartOf(young, aged + young) && PartOf(aged, aged + young)
  {}

  lemma UnionAt(young: map<nat, bytes>, aged: map<nat, bytes>, files: map<nat, bytes>, i: nat)
    requires PartOf(young, files) && PartOf(aged, files) && i < |young| + |aged|
    requires Listing(files.Keys) == Listing(young.Keys) + Listing(aged.Keys)
    ensures i < |files| && Contents(files)[i] == (Contents(young) + Contents(aged))[i]
  {
    hide *;
    SizeIsListed(files);
    SizeIsListed(young);
    SizeIsListed(aged);
    if i < |young| {
      SameName(young, files, i, i);
    } else {
      SameName(aged, files, i - |young|, i);
    }
  }

  lemma SizeIsListed(files: map<nat, bytes>)
    ensures |files| == |Listing(files.Keys)|
  {
    hide Listing;
  }

  lemma SameName(part: map<nat, bytes>, files: map<nat, bytes>, i: nat, j: nat)
    requires i < |part| && j < |files|
    requires i < |Listing(part.Keys)| && j < |Listing(files.Keys)| && Listing(part.Keys)[i] == Listing(files.Keys)[j]
    requires PartOf(part, files)
    ensures Contents(files)[j] == Contents(part)[i]
  {
    hide Listing, Contents;
    ContentsAt(part, i);
    ContentsAt(files, j);
  }

  lemma ContentsAdd(files: map<nat, bytes>, ts: nat, data: bytes)
    requires forall x | x in files :: x < ts
    ensures Contents(files[ts := data]) == [data] + Contents(files)
  {
    hide Listing, Contents;
    var one := map[ts := data];
    assert one.Keys == {ts};
    ContentsUnion(one, files, ts);
    ListingSingle(ts);
    ContentsAt(one, 0);
    assert Contents(one) == [data];
    assert files + one == files[ts := data];
  }

  lemma ContentsDrop(files: map<nat, bytes>, i: nat)
    requires i <= |files|
    ensures Contents(files - NameSet(Listing(files.Keys)[..i])) == Contents(files)[i..]
  {
    hide Listing, Descending;
    var gone := NameSet(Listing(files.Keys)[..i]);
    ListingDrop(files.Keys, i);
    var kept := files - gone;
    assert kept.Keys == files.Keys - gone;
    forall j | 0 <= j < |files| - i ensures Contents(kept)[j] == Contents(files)[i..][j] {
      ContentsAt(kept, j);
      ContentsAt(files, i + j);
      assert Listing(kept.Keys)[j] == Listing(files.Keys)[i + j];
    }
  }

  lemma ContentsTake(files: map<nat, bytes>, m: nat)
    requires m <= |files|
    ensures Contents(files - NameSet(Listing(files.Keys)[m..])) == Contents(files)[..m]
  {
    hide Listing, Descending;
    var gone := NameSet(Listing(files.Keys)[m..]);
    ListingTake(files.Keys, m);
    var kept := files - gone;
    assert kept.Keys == files.Keys - gone;
    forall j | 0 <= j < m ensures Contents(kept)[j] == Contents(files)[..m][j] {
      ContentsAt(kept, j);
      ContentsAt(files, j);
      assert Listing(kept.Keys)[j] == Listing(files.Keys)[j];
    }
  }

  // ----- Lookups -----

  /** The first entry for `k`. */
  function Find(es: seq<Entry>, k: Text): (r: Option<Entry>)
    ensures r.Some? ==> r.value in es && r.value.key == k
    ensures r.None? ==> forall e | e in es :: e.key != k
  {
    if es == [] then None
    else if es[0].key == k then Some(es[0])
    else
      assert es == [es[0]] + es[1..];
      Find(es[1..], k)
  }

  /** The entry that decides `k`: the newest table that holds the key wins. */
  function Winner(tables: seq<seq<Entry>>, k: Text): Option<Entry> {
    if tables == [] then None
    else
      var found := Find(tables[0], k);
      if found.Some? then found else Winner(tables[1..], k)
  }

  function TablesOf(env: Env, datas: seq<bytes>): (tables: seq<seq<Entry>>)
    ensures |tables| == |datas|
    ensures forall i | 0 <= i < |datas| :: tables[i] == TableEntries(env, datas[i])
  {
    if datas == [] then [] else [TableEntries(env, datas[0])] + TablesOf(env, datas[1..])
  }

  /** The lookup with no filter. */
  function PlainGet(env: Env, datas: seq<bytes>, k: Text): Option<Entry> {
    Winner(TablesOf(env, datas), k)
  }

  /** The lookup `Log::get` does: files that do not open, or whose filter says no, are skipped. */
  function FilterGet(env: Env, datas: seq<bytes>, k: Text): Option<Entry> {
    if datas == [] then None
    else
      var found := match OpenTable(env, datas[0])
                   case None => None
                   case Some(f) =>
                     if MayContain(env, f.inner, f.bitCount, k) then Find(TableEntries(env, datas[0]), k) else None;
      if found.Some? then found else FilterGet(env, datas[1..], k)
  }

  /** None of the seven bits of the key is clear. */
  ghost predicate Admits(env: Env, f: Filter, k: Text)
    requires |f.inner| == ByteCount(f.bitCount)
  {
    f.bitCount == 0 || forall p | 0 <= p < f.bitCount && IsBitOf(env, k, f.bitCount, p) :: BitAt(f.inner, p)
  }

  /** The file opens, its filter admits `k`, and its first entry for `k` is the one at `n`. */
  ghost predicate HoldsAt(env: Env, data: bytes, k: Text, n: nat) {
    && OpenTable(env, data).Some? && Admits(env, OpenTable(env, data).value, k)
    && var es := TableEntries(env, data);
       n < |es| && es[n].key == k && forall m | 0 <= m < n :: es[m].key != k
  }

  ghost predicate Holds(env: Env, data: bytes, k: Text) {
    exists n: nat :: HoldsAt(env, data, k, n)
  }

  lemma {:induction false} FindIsFirst(es: seq<Entry>, k: Text, n: nat)
    requires n < |es| && es[n].key == k && forall m | 0 <= m < n :: es[m].key != k
    ensures Find(es, k) == Some(es[n])
    decreases |es|
  {
    if n > 0 {
      assert forall m | 0 <= m < n - 1 :: es[1..][m] == es[m + 1];
      FindIsFirst(es[1..], k, n - 1);
    }
  }

  lemma {:induction false} FirstExists(es: seq<Entry>, k: Text) returns (n: nat)
    requires Find(es, k).Some?
    ensures n < |es| && es[n].key == k && forall m | 0 <= m < n :: es[m].key != k
    decreases |es|
  {
    if es[0].key == k {
      n := 0;
    } else {
      var i := FirstExists(es[1..], k);
      n := i + 1;
      forall m | 0 <= m < n ensures es[m].key != k {
        assert m > 0 ==> es[m] == es[1..][m - 1];
      }
    }
  }

  lemma OneFile(env: Env, data: bytes, k: Text)
    ensures var found := FilterGet(env, [data], k);
            && (found.Some? <==> Holds(env, data, k))
            && (forall n: nat | HoldsAt(env, data, k, n) :: found == Some(TableEntries(env, data)[n]))
  {
    hide OpenTable, TableEntries, MayContain, Find, BitAt, IsBitOf;
    assert [data][1..] == [] && FilterGet(env, [], k) == None;
    if OpenTable(env, data).Some? {
      var f, es := OpenTable(env, data).value, TableEntries(env, data);
      QueryExact(env, f.inner, f.bitCount, k);
      forall n: nat | HoldsAt(env, data, k, n) ensures Find(es, k) == Some(es[n]) {
        FindIsFirst(es, k, n);
      }
      if Find(es, k).Some? && Admits(env, f, k) {
        var n := FirstExists(es, k);
        assert HoldsAt(env, data, k, n);
      }
    }
  }

  /** The answer is the first entry for the key in the first file that opens, admits it and holds it. */
  lemma {:induction false} FilterGetExact(env: Env, datas: seq<bytes>, k: Text, i: nat, n: nat)
    requires i < |datas| && HoldsAt(env, datas[i], k, n) && forall j | 0 <= j < i :: !Holds(env, datas[j], k)
    ensures FilterGet(env, datas, k) == Some(TableEntries(env, datas[i])[n])
    decreases |datas|
  {
    hide OpenTable, TableEntries, HoldsAt, FilterGet;
    assert datas == [datas[0]] + datas[1..];
    FilterGetConcat(env, [datas[0]], datas[1..], k);
    OneFile(env, datas[0], k);
    if i > 0 {
      assert forall j | 0 <= j < i - 1 :: datas[1..][j] == datas[j + 1];
      FilterGetExact(env, datas[1..], k, i - 1, n);
    } else {
      assert Holds(env, datas[0], k);
    }
  }

  /** There is none exactly if there is no such file. */
  lemma {:induction false} FilterGetNone(env: Env, datas: seq<bytes>, k: Text)
    ensures FilterGet(env, datas, k).None? <==> forall j | 0 <= j < |datas| :: !Holds(env, datas[j], k)
    decreases |datas|
  {
    hide OpenTable, TableEntries, Holds;
    if datas != [] {
      hide FilterGet;
      assert datas == [datas[0]] + datas[1..];
      FilterGetConcat(env, [datas[0]], datas[1..], k);
      OneFile(env, datas[0], k);
      FilterGetNone(env, datas[1..], k);
      assert forall j | 0 < j < |datas| :: datas[j] == datas[1..][j - 1];
    }
  }

  lemma {:induction false} WinnerConcat(a: seq<seq<Entry>>, b: seq<seq<Entry>>, k: Text)
    ensures Winner(a + b, k) == if Winner(a, k).Some? then Winner(a, k) else Winner(b, k)
    decreases |a|
  {
    if a == [] {
      assert a + b == b;
    } else {
      assert (a + b)[1..] == a[1..] + b;
      WinnerConcat(a[1..], b, k);
    }
  }

  lemma TablesOfConcat(env: Env, a: seq<bytes>, b: seq<bytes>)
    ensures TablesOf(env, a + b) == TablesOf(env, a) + TablesOf(env, b)
  {}

  lemma PlainGetConcat(env: Env, a: seq<bytes>, b: seq<bytes>, k: Text)
    ensures PlainGet(env, a + b, k) == if PlainGet(env, a, k).Some? then PlainGet(env, a, k) else PlainGet(env, b, k)
  {
    TablesOfConcat(env, a, b);
    WinnerConcat(TablesOf(env, a), TablesOf(env, b), k);
  }

  lemma {:induction false} FilterGetConcat(env: Env, a: seq<bytes>, b: seq<bytes>, k: Text)
    ensures FilterGet(env, a + b, k) ==
              if FilterGet(env, a, k).Some? then FilterGet(env, a, k) else FilterGet(env, b, k)
    decreases |a|
  {
    hide OpenTable, TableEntries, MayContain;
    if a == [] {
      assert a + b == b;
    } else {
      assert (a + b)[1..] == a[1..] + b;
      FilterGetConcat(env, a[1..], b, k);
    }
  }

  /** The filter of the file admits every key the file holds. */
  ghost predicate Covered(env: Env, data: bytes) {
    match OpenTable(env, data)
    case None => true
    case Some(f) => forall e | e in TableEntries(env, data) :: MayContain(env, f.inner, f.bitCount, e.key)
  }

  /** When every file is covered by its filter, the filters change no answer. */
  lemma {:induction false} FiltersChangeNothing(env: Env, datas: seq<bytes>, k: Text)
    requires forall d | d in datas :: Covered(env, d)
    ensures FilterGet(env, datas, k) == PlainGet(env, datas, k)
    decreases |datas|
  {
    hide MayContain, ReadFooter;
    if datas != [] {
      FiltersChangeNothing(env, datas[1..], k);
      assert TablesOf(env, datas)[1..] == TablesOf(env, datas[1..]);
      assert Covered(env, datas[0]);
    }
  }

  /** Whatever the filters say, a lookup finds nothing that a plain scan would not find. */
  lemma {:induction false} FilterGetFindsOnlyEntries(env: Env, datas: seq<bytes>, k: Text)
    ensures PlainGet(env, datas, k).None? ==> FilterGet(env, datas, k).None?
    decreases |datas|
  {
    hide MayContain, ReadFooter;
    if datas != [] {
      FilterGetFindsOnlyEntries(env, datas[1..], k);
      assert TablesOf(env, datas)[1..] == TablesOf(env, datas[1..]);
    }
  }

  /** `Log::get` past the memtable: one file after the other, newest first. */
  method GetFromTables(env: Env, files: map<nat, bytes>, k: Text) returns (r: Option<Entry>)
    ensures r == FilterGet(env, Contents(files), k)
  {
    hide MayContain, OpenTable, TableEntries;
    var names := Listing(files.Keys);
    ghost var datas := Contents(files);
    assert datas[0..] == datas;
    for i := 0 to |names|
      invariant FilterGet(env, datas, k) == FilterGet(env, datas[i..], k)
    {
      assert datas[i..][0] == datas[i] && datas[i..][1..] == datas[i + 1..];
      assert names[i] in NameSet(names);
      assert datas[i] == files[names[i]];
      var t := SSTable.FromPath(env, files[names[i]]);
      if t == null {
        continue;
      }
      var maybe := t.bloom.Query(env, k);
      if maybe {
        r := FindInTable(env, t, k);
        if r.Some? {
          return;
        }
      }
    }
    return None;
  }

  method FindInTable(env: Env, t: SSTable, k: Text) returns (r: Option<Entry>)
    modifies t.file`pos
    ensures r == Find(old(t.Rest(env)), k)
  {
    hide SSTable.Rest;
    ghost var all := t.Rest(env);
    var e := t.ReadNextEntry(env);
    while e.Some?
      invariant e.None? ==> Find(all, k) == None
      invariant e.Some? ==> Find(all, k) == Find([e.value] + t.Rest(env), k)
      decreases e.Some?, |t.Rest(env)|
    {
      if e.value.key == k {
        return e;
      }
      assert ([e.value] + t.Rest(env))[1..] == t.Rest(env);
      e := t.ReadNextEntry(env);
    }
    return None;
  }
}
