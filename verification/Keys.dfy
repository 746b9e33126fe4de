/** Keys under Rust's string order, and the ascending walk over a `BTreeMap`. */
module Keys {
  import opened Bytes

  /** Lexicographic order on bytes: a proper prefix comes first. */
  predicate Less(a: Text, b: Text)
    decreases |a|
  {
    b != [] && (a == [] || a[0] < b[0] || (a[0] == b[0] && Less(a[1..], b[1..])))
  }

  lemma {:induction false} LessIrreflexive(a: Text)
    ensures !Less(a, a)
    decreases |a|
  {
    if a != [] {
      LessIrreflexive(a[1..]);
    }
  }

  lemma {:induction false} LessTransitive(a: Text, b: Text, c: Text)
    requires Less(a, b) && Less(b, c)
    ensures Less(a, c)
    decreases |a|
  {
    if a != [] && a[0] == b[0] && b[0] == c[0] {
      LessTransitive(a[1..], b[1..], c[1..]);
    }
  }

  lemma {:induction false} LessTotal(a: Text, b: Text)
    ensures a == b || Less(a, b) || Less(b, a)
    decreases |a|
  {
    if a != [] && b != [] && a[0] == b[0] {
      LessTotal(a[1..], b[1..]);
      assert a == [a[0]] + a[1..] && b == [b[0]] + b[1..];
    }
  }

  /** The texts agree up to `n`, where `a` ends or has the lesser byte. */
  predicate DiffersAt(a: Text, b: Text, n: nat) {
    n <= |a| && n < |b| && a[..n] == b[..n] && (n == |a| || a[n] < b[n])
  }

  /** The order is lexicographic: the first difference decides; with none, the shorter text comes first. */
  lemma {:induction false} LessExact(a: Text, b: Text)
    ensures Less(a, b) <==> exists n: nat :: DiffersAt(a, b, n)
    decreases |a|
  {
    if a != [] && b != [] && a[0] == b[0] {
      LessExact(a[1..], b[1..]);
      if n: nat :| DiffersAt(a[1..], b[1..], n) {
        DiffersLater(a, b, n);
      }
      if n: nat :| DiffersAt(a, b, n) {
        assert n > 0;
        DiffersLater(a, b, n - 1);
      }
    } else {
      forall n: nat | DiffersAt(a, b, n) ensures n == 0 {
        SameFirstByte(a, b, n);
      }
      assert Less(a, b) ==> DiffersAt(a, b, 0);
    }
  }

  lemma SameFirstByte(a: Text, b: Text, n: nat)
    requires DiffersAt(a, b, n)
    ensures n == 0 || a[0] == b[0]
  {
    assert n > 0 ==> a[..n][0] == b[..n][0];
  }

  lemma DiffersLater(a: Text, b: Text, n: nat)
    requires a != [] && b != [] && a[0] == b[0]
    ensures DiffersAt(a, b, n + 1) <==> DiffersAt(a[1..], b[1..], n)
  {
    if n < |a| && n < |b| {
      assert a[..n + 1] == [a[0]] + a[1..][..n] && b[..n + 1] == [b[0]] + b[1..][..n];
      assert a[1..][..n] == a[..n + 1][1..] && b[1..][..n] == b[..n + 1][1..];
    }
  }

  lemma LessAsymmetric(a: Text, b: Text)
    requires Less(a, b)
    ensures !Less(b, a) && a != b
  {
    LessIrreflexive(a);
    if Less(b, a) {
      LessTransitive(a, b, a);
    }
  }

  /** `k` is a least element of `s`. */
  predicate IsMin(k: Text, s: set<Text>) {
    k in s && forall x | x in s :: k == x || Less(k, x)
  }

  lemma {:induction false} MinExists(s: set<Text>)
    requires s != {}
    ensures exists k :: IsMin(k, s)
  {
    var x :| x in s;
    if s == {x} {
      assert IsMin(x, s);
    } else {
      MinExists(s - {x});
      var k :| IsMin(k, s - {x});
      LessTotal(k, x);
      if Less(x, k) {
        forall y | y in s ensures x == y || Less(x, y) {
          if y != x && y != k {
            LessTransitive(x, k, y);
          }
        }
        assert IsMin(x, s);
      } else {
        assert IsMin(k, s);
      }
    }
  }

  lemma MinUnique(s: set<Text>, a: Text, b: Text)
    requires IsMin(a, s) && IsMin(b, s)
    ensures a == b
  {
    if a != b {
      LessAsymmetric(a, b);
    }
  }

  /** `Iterator::min` over the keys. */
  function Min(s: set<Text>): (k: Text)
    requires s != {}
    ensures IsMin(k, s)
  {
    MinExists(s);
    assert forall a, b | IsMin(a, s) && IsMin(b, s) :: a == b by {
      forall a, b | IsMin(a, s) && IsMin(b, s) ensures a == b {
        MinUnique(s, a, b);
      }
    }
    var k :| k in s && IsMin(k, s);
    k
  }

  ghost predicate Ascending(ks: seq<Text>) {
    forall i, j | 0 <= i < j < |ks| :: Less(ks[i], ks[j])
  }

  ghost function Elements(ks: seq<Text>): set<Text> {
    set k | k in ks
  }

  /** The keys of an ordered map, in the order `BTreeMap::values` visits them. */
  function SortedKeys(s: set<Text>): (ks: seq<Text>)
    ensures Ascending(ks)
    ensures Elements(ks) == s
    ensures |ks| == |s|
    decreases |s|
  {
    if s == {} then []
    else
      var m := Min(s);
      var rest := SortedKeys(s - {m});
      SortedStep(s, m, rest);
      [m] + rest
  }

  lemma SortedStep(s: set<Text>, m: Text, rest: seq<Text>)
    requires IsMin(m, s) && Ascending(rest) && Elements(rest) == s - {m}
    ensures Ascending([m] + rest) && Elements([m] + rest) == s
  {
    hide Less;
    forall i | 0 <= i < |rest| ensures Less(m, rest[i]) {
      assert rest[i] in Elements(rest);
    }
    assert forall k :: k in [m] + rest <==> k == m || k in Elements(rest);
  }

  /** An ascending listing is determined by its elements. */
  lemma {:induction false} AscendingUnique(a: seq<Text>, b: seq<Text>)
    requires Ascending(a) && Ascending(b) && Elements(a) == Elements(b)
    ensures a == b
    decreases |a|
  {
    assert b != [] ==> b[0] in Elements(b);
    if a == [] {
      assert Elements(a) == {};
    } else {
      assert a[0] in Elements(a) && a[0] in b;
      assert b[0] in Elements(b) && b[0] in a;
      if a[0] != b[0] {
        assert Less(a[0], b[0]) && Less(b[0], a[0]);
        LessAsymmetric(a[0], b[0]);
      }
      ElementsTail(a);
      ElementsTail(b);
      AscendingUnique(a[1..], b[1..]);
      assert a == [a[0]] + a[1..] && b == [b[0]] + b[1..];
    }
  }

  lemma ElementsTail(a: seq<Text>)
    requires a != [] && Ascending(a)
    ensures Elements(a[1..]) == Elements(a) - {a[0]}
  {
    LessIrreflexive(a[0]);
    assert a == [a[0]] + a[1..];
    forall i | 1 <= i < |a| ensures a[i] != a[0] {
      LessIrreflexive(a[0]);
    }
  }

  lemma SortedKeysCons(s: set<Text>, m: Text)
    requires IsMin(m, s)
    ensures SortedKeys(s) == [m] + SortedKeys(s - {m})
  {
    MinUnique(s, m, Min(s));
  }

  lemma SortedKeysAt(s: set<Text>, i: nat)
    requires i < |SortedKeys(s)|
    ensures SortedKeys(s)[i] in s
  {
    assert SortedKeys(s)[i] in Elements(SortedKeys(s));
  }

  /** A key above all others is visited last. */
  lemma SortedKeysAppend(s: set<Text>, k: Text)
    requires forall x | x in s :: Less(x, k)
    ensures SortedKeys(s + {k}) == SortedKeys(s) + [k]
  {
    var ks := SortedKeys(s);
    assert forall i | 0 <= i < |ks| :: ks[i] in Elements(ks);
    ElementsSnoc(ks, k);
    AscendingUnique(SortedKeys(s + {k}), ks + [k]);
  }

  lemma ElementsSnoc(ks: seq<Text>, k: Text)
    ensures Elements(ks + [k]) == Elements(ks) + {k}
  {
    assert forall x :: x in ks + [k] <==> x in ks || x == k;
  }
}
