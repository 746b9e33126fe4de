/** SSTable file names: zero-padded timestamps, so that name order is time order. */
module Names {
  import opened Bytes
  import opened Keys
  import opened Lookup

  const DIGITS: nat := 20

  const ZERO_TO_NINE: bytes := [0x30, 0x31, 0x32, 0x33, 0x34, 0x35, 0x36, 0x37, 0x38, 0x39]

  /** The ASCII digit of `v`. */
  function Digit(v: nat): byte
    requires v < 10
  {
    ZERO_TO_NINE[v]
  }

  /** The last `n` decimal digits of `t`, most significant first. */
  function Digits(t: nat, n: nat): (d: bytes)
    ensures |d| == n
    decreases n
  {
    if n == 0 then [] else Digits(t / 10, n - 1) + [Digit(t % 10)]
  }

  /** `.sst` */
  const SUFFIX: bytes := [0x2e, 0x73, 0x73, 0x74]

  /** `format!("{ts:020}.sst")` for a timestamp of at most twenty digits. */
  function FileName(ts: nat): Text {
    Digits(ts, DIGITS) + SUFFIX
  }

  function Power10(n: nat): nat {
    if n == 0 then 1 else 10 * Power10(n - 1)
  }

  lemma DigitOrder(a: nat, b: nat)
    requires a < b < 10
    ensures Digit(a) < Digit(b)
  {
    assert ZERO_TO_NINE[0] < ZERO_TO_NINE[1] < ZERO_TO_NINE[2] < ZERO_TO_NINE[3] < ZERO_TO_NINE[4];
    assert ZERO_TO_NINE[4] < ZERO_TO_NINE[5] < ZERO_TO_NINE[6] < ZERO_TO_NINE[7] < ZERO_TO_NINE[8] < ZERO_TO_NINE[9];
  }

  /** The first difference decides, and what follows it does not matter. */
  lemma {:induction false} LessAppend(a: bytes, b: bytes, x: bytes, y: bytes)
    requires |a| == |b| && Less(a, b)
    ensures Less(a + x, b + y)
    decreases |a|
  {
    if a[0] == b[0] {
      LessAppend(a[1..], b[1..], x, y);
      assert (a + x)[1..] == a[1..] + x && (b + y)[1..] == b[1..] + y;
    }
  }

  lemma {:induction false} LessBehind(a: bytes, x: byte, y: byte)
    requires x < y
    ensures Less(a + [x], a + [y])
    decreases |a|
  {
    if a != [] {
      LessBehind(a[1..], x, y);
      assert (a + [x])[1..] == a[1..] + [x] && (a + [y])[1..] == a[1..] + [y];
    } else {
      assert a + [x] == [x] && a + [y] == [y];
    }
  }

  lemma {:induction false} DigitsOrder(s: nat, t: nat, n: nat)
    requires s < t < Power10(n)
    ensures Less(Digits(s, n), Digits(t, n))
    decreases n
  {
    hide Digit;
    if n > 0 {
      var x, y := Digit(s % 10), Digit(t % 10);
      if s / 10 < t / 10 {
        DigitsOrder(s / 10, t / 10, n - 1);
        LessAppend(Digits(s / 10, n - 1), Digits(t / 10, n - 1), [x], [y]);
      } else {
        DigitOrder(s % 10, t % 10);
        LessBehind(Digits(s / 10, n - 1), x, y);
      }
    }
  }

  /** For timestamps below 10^20 names compare as the timestamps do. */
  lemma NameOrderIsTimeOrder(s: nat, t: nat)
    requires s < Power10(DIGITS) && t < Power10(DIGITS)
    ensures Less(FileName(s), FileName(t)) <==> s < t
    ensures FileName(s) == FileName(t) <==> s == t
  {
    hide Digits, Power10;
    if s < t {
      DigitsOrder(s, t, DIGITS);
      LessAppend(Digits(s, DIGITS), Digits(t, DIGITS), SUFFIX, SUFFIX);
      LessAsymmetric(FileName(s), FileName(t));
    } else if t < s {
      DigitsOrder(t, s, DIGITS);
      LessAppend(Digits(t, DIGITS), Digits(s, DIGITS), SUFFIX, SUFFIX);
      LessAsymmetric(FileName(t), FileName(s));
    } else {
      LessIrreflexive(FileName(s));
    }
  }

  predicate AreDigits(d: bytes) {
    forall i | 0 <= i < |d| :: 0x30 <= d[i] <= 0x39
  }

  /** The number a row of ASCII digits stands for. */
  function Decimal(d: bytes): nat
    requires AreDigits(d)
    decreases |d|
  {
    if d == [] then 0 else 10 * Decimal(d[..|d| - 1]) + Value(d[|d| - 1] - 0x30)
  }

  lemma DigitIs(v: nat)
    requires v < 10
    ensures 0x30 <= Digit(v) <= 0x39 && Value(Digit(v) - 0x30) == v
  {
    assert v == 0 || v == 1 || v == 2 || v == 3 || v == 4 || v == 5 || v == 6 || v == 7 || v == 8 || v == 9;
  }

  lemma {:induction false} DigitsReadBack(t: nat, n: nat)
    requires t < Power10(n)
    ensures AreDigits(Digits(t, n)) && Decimal(Digits(t, n)) == t
    decreases n
  {
    hide Digit, Value;
    if n > 0 {
      DigitsReadBack(t / 10, n - 1);
      DigitIs(t % 10);
      assert Digits(t, n)[..n - 1] == Digits(t / 10, n - 1);
    }
  }

  /** A file name is the timestamp in twenty digits, and `.sst`. */
  lemma NameReadsBack(ts: nat)
    requires ts < Power10(20)
    ensures var name := FileName(ts);
            && |name| == 24 && name[20..] == [0x2e, 0x73, 0x73, 0x74]
            && AreDigits(name[..20]) && Decimal(name[..20]) == ts
  {
    hide Digits, Decimal, Power10;
    DigitsReadBack(ts, 20);
    assert FileName(ts)[..20] == Digits(ts, 20) && FileName(ts)[20..] == SUFFIX;
  }

  /** The listing `get` and `compact` sort by name is newest first, whatever order the directory is read in. */
  ghost predicate NamesDescending(names: seq<nat>) {
    forall i, j | 0 <= i < j < |names| :: Less(FileName(names[j]), FileName(names[i]))
  }

  /** Sorting the directory by name, descending, gives exactly the listing by time, newest first. */
  lemma NameSortIsListing(s: set<nat>, names: seq<nat>)
    requires forall ts | ts in s :: ts < Power10(DIGITS)
    requires NameSet(names) == s
    ensures NamesDescending(names) <==> names == Listing(s)
  {
    hide Digits, Power10, FileName, Listing;
    forall i | 0 <= i < |names| ensures names[i] < Power10(DIGITS) {
      assert names[i] in NameSet(names);
    }
    forall i, j | 0 <= i < j < |names| ensures Less(FileName(names[j]), FileName(names[i])) <==> names[i] > names[j] {
      NameOrderIsTimeOrder(names[j], names[i]);
    }
    assert NamesDescending(names) <==> Descending(names);
    if Descending(names) {
      DescendingUnique(names, Listing(s));
    }
  }
}
