/** CRC-32 in the bitwise form of section 8 of RFC 1952, and the damage it is sure to notice. */
module Crc32 {
  import opened Bytes

  /** The reversed polynomial. Its top bit is set, which is what makes a step reversible. */
  const POLYNOMIAL: bv32 := 0xEDB8_8320
  /** A named constant rather than a literal, so that the solver does not unroll `Iterate`. */
  const BYTE_BITS: nat := 8
  const ALL_ONES: bv32 := 0xffff_ffff

  function Step(c: bv32): bv32 {
    if c & 1 == 1 then (c >> 1) ^ POLYNOMIAL else c >> 1
  }

  function Xor(a: bv32, b: bv32): bv32 {
    a ^ b
  }

  function Iterate<W>(f: W -> W, x: W, n: nat): W
    decreases n
  {
    if n == 0 then x else Iterate(f, f(x), n - 1)
  }

  /** One byte: folded into the low bits, then shifted out in eight steps. */
  function Update(c: bv32, b: byte): bv32 {
    Iterate(Step, Xor(c, b as bv32), BYTE_BITS)
  }

  function UpdateAll(c: bv32, msg: bytes): bv32
    decreases |msg|
  {
    if msg == [] then c else UpdateAll(Update(c, msg[0]), msg[1..])
  }

  /** `crc32fast::hash`. */
  function Hash(msg: bytes): bv32 {
    Xor(UpdateAll(ALL_ONES, msg), ALL_ONES)
  }

  // ----- The check value -----

  function EightSteps(c: bv32): bv32 {
    Step(Step(Step(Step(Step(Step(Step(Step(c))))))))
  }

  lemma IterateEight(c: bv32)
    ensures Iterate(Step, c, BYTE_BITS) == EightSteps(c)
  {
    assert Iterate(Step, Step(Step(Step(Step(c)))), 4) == EightSteps(c);
    assert Iterate(Step, Step(Step(c)), 6) == Iterate(Step, Step(Step(Step(Step(c)))), 4);
  }

  lemma NextByte(c: bv32, b: byte, next: bv32, rest: bytes)
    requires EightSteps(c ^ (b as bv32)) == next
    ensures UpdateAll(c, [b] + rest) == UpdateAll(next, rest)
  {
    IterateEight(c ^ (b as bv32));
    assert ([b] + rest)[1..] == rest;
  }

  /** The digits 1 to 9 in ASCII hash to CBF43926, the value by which this CRC-32 is told from its relatives. */
  lemma CheckValue()
    ensures Hash([0x31, 0x32, 0x33, 0x34, 0x35, 0x36, 0x37, 0x38, 0x39]) == 0xCBF4_3926
  {
    hide UpdateAll;
    var d: bytes := [0x31, 0x32, 0x33, 0x34, 0x35, 0x36, 0x37, 0x38, 0x39];
    assert forall i | 0 <= i < 9 :: d[i..] == [d[i]] + d[i + 1..];
    NextByte(0xFFFF_FFFF, 0x31, 0x7C23_1048, d[1..]);
    NextByte(0x7C23_1048, 0x32, 0xB0AC_BB32, d[2..]);
    NextByte(0xB0AC_BB32, 0x33, 0x77B7_9C2D, d[3..]);
    NextByte(0x77B7_9C2D, 0x34, 0x641C_1F5C, d[4..]);
    NextByte(0x641C_1F5C, 0x35, 0x340A_C5E3, d[5..]);
    NextByte(0x340A_C5E3, 0x36, 0xF68D_2C9E, d[6..]);
    NextByte(0xF68D_2C9E, 0x37, 0xAFFC_9660, d[7..]);
    NextByte(0xAFFC_9660, 0x38, 0x651F_2550, d[8..]);
    NextByte(0x651F_2550, 0x39, 0x340B_C6D9, d[9..]);
    assert d[0..] == d && d[9..] == [];
    UpdateAllNothing(0x340B_C6D9);
  }

  lemma UpdateAllNothing(c: bv32)
    ensures UpdateAll(c, []) == c
  {}

  // ----- A step can be undone, so a difference in the state never heals -----

  lemma StepInjective(a: bv32, b: bv32)
    requires Step(a) == Step(b)
    ensures a == b
  {}

  lemma {:induction false} IterateInjective(a: bv32, b: bv32, n: nat)
    requires Iterate(Step, a, n) == Iterate(Step, b, n)
    ensures a == b
    decreases n
  {
    if n > 0 {
      IterateInjective(Step(a), Step(b), n - 1);
      StepInjective(a, b);
    }
  }

  lemma XorInjective(x: bv32, y: bv32, c: bv32)
    requires Xor(x, c) == Xor(y, c) || Xor(c, x) == Xor(c, y)
    ensures x == y
  {}

  lemma UpdateInjective(c: bv32, d: bv32, b: byte)
    requires Update(c, b) == Update(d, b)
    ensures c == d
  {
    IterateInjective(Xor(c, b as bv32), Xor(d, b as bv32), BYTE_BITS);
    XorInjective(c, d, b as bv32);
  }

  lemma {:induction false} UpdateAllInjective(c: bv32, d: bv32, msg: bytes)
    requires UpdateAll(c, msg) == UpdateAll(d, msg)
    ensures c == d
    decreases |msg|
  {
    if msg != [] {
      UpdateAllInjective(Update(c, msg[0]), Update(d, msg[0]), msg[1..]);
      UpdateInjective(c, d, msg[0]);
    }
  }

  lemma {:induction false} UpdateAllConcat(c: bv32, a: bytes, b: bytes)
    ensures UpdateAll(c, a + b) == UpdateAll(UpdateAll(c, a), b)
    decreases |a|
  {
    if a == [] {
      assert a + b == b;
    } else {
      assert (a + b)[1..] == a[1..] + b;
      UpdateAllConcat(Update(c, a[0]), a[1..], b);
    }
  }

  // ----- Four bytes are absorbed as one word, which is exactly as wide as the state -----

  /** A difference `z` that one step turns into the difference `y`, whatever the state is. */
  ghost predicate Passes<W(!new)>(step: W -> W, xor: (W, W) -> W, y: W, z: W) {
    forall x :: step(xor(x, z)) == xor(step(x), y)
  }

  lemma {:induction false} PassesAll<W(!new)>(step: W -> W, xor: (W, W) -> W, x: W, ys: seq<W>, n: nat)
    requires |ys| > n
    requires forall i | 0 <= i < n :: Passes(step, xor, ys[i], ys[i + 1])
    ensures Iterate(step, xor(x, ys[n]), n) == xor(Iterate(step, x, n), ys[0])
    decreases n
  {
    if n > 0 {
      assert Passes(step, xor, ys[n - 1], ys[n - 1 + 1]);
      PassesAll(step, xor, step(x), ys, n - 1);
    }
  }

  predicate Doubles(y: bv32, z: bv32) {
    y < 0x8000_0000 && z == y << 1
  }

  lemma ShiftedBits(x: bv32, y: bv32)
    requires y < 0x8000_0000
    ensures (x ^ (y << 1)) & 1 == x & 1 && (x ^ (y << 1)) >> 1 == (x >> 1) ^ y
  {}

  lemma XorSwap(a: bv32, b: bv32, c: bv32)
    ensures (a ^ b) ^ c == (a ^ c) ^ b
  {}

  lemma StepShifted(x: bv32, y: bv32, z: bv32)
    requires y < 0x8000_0000 && z == x ^ (y << 1)
    ensures Step(z) == Step(x) ^ y
  {
    ShiftedBits(x, y);
    if x & 1 == 1 {
      XorSwap(x >> 1, y, POLYNOMIAL);
    }
  }

  lemma StepLinear(x: bv32, y: bv32, z: bv32)
    requires Doubles(y, z)
    ensures Step(Xor(x, z)) == Xor(Step(x), y)
  {
    StepShifted(x, y, x ^ (y << 1));
  }

  /** A difference above the lowest bit passes through a step as a plain shift. */
  lemma StepPasses(y: bv32, z: bv32)
    requires Doubles(y, z)
    ensures Passes(Step, Xor, y, z)
  {
    forall x ensures Step(Xor(x, z)) == Xor(Step(x), y) {
      StepLinear(x, y, z);
    }
  }

  lemma Doublings(y: bv32)
    requires y < 0x100_0000
    ensures Doubles(y, y << 1) && Doubles(y << 1, y << 2) && Doubles(y << 2, y << 3) && Doubles(y << 3, y << 4)
    ensures Doubles(y << 4, y << 5) && Doubles(y << 5, y << 6) && Doubles(y << 6, y << 7) && Doubles(y << 7, y << 8)
  {}

  lemma ShiftsPass(y: bv32) returns (ys: seq<bv32>)
    requires y < 0x100_0000
    ensures |ys| == BYTE_BITS + 1 && ys[0] == y && ys[BYTE_BITS] == y << 8
    ensures forall i | 0 <= i < BYTE_BITS :: Passes(Step, Xor, ys[i], ys[i + 1])
  {
    ys := [y, y << 1, y << 2, y << 3, y << 4, y << 5, y << 6, y << 7, y << 8];
    forall i | 0 <= i < BYTE_BITS ensures Passes(Step, Xor, ys[i], ys[i + 1]) {
      Doublings(y);
      StepPasses(ys[i], ys[i + 1]);
    }
  }

  /** A word is its low byte and the rest, moved up by a byte. */
  predicate Word(w: bv32, b: byte, rest: bv32) {
    rest < 0x100_0000 && w == (b as bv32) | (rest << 8)
  }

  lemma WordXor(c: bv32, w: bv32, b: byte, rest: bv32)
    requires Word(w, b, rest)
    ensures Xor(c, w) == Xor(Xor(c, b as bv32), rest << 8)
  {}

  /** The low byte of a word goes through the state; the rest waits there, moved down by a byte. */
  lemma AbsorbByte(c: bv32, w: bv32, b: byte, rest: bv32)
    requires Word(w, b, rest)
    ensures Iterate(Step, Xor(c, w), BYTE_BITS) == Xor(Update(c, b), rest)
  {
    WordXor(c, w, b, rest);
    var ys := ShiftsPass(rest);
    PassesAll(Step, Xor, Xor(c, b as bv32), ys, BYTE_BITS);
  }

  lemma {:induction false} IterateAdd<W>(f: W -> W, x: W, m: nat, n: nat)
    ensures Iterate(f, x, m + n) == Iterate(f, Iterate(f, x, m), n)
    decreases m
  {
    if m > 0 {
      IterateAdd(f, f(x), m - 1, n);
    }
  }

  lemma FourTimes<W>(f: W -> W, x: W, n: nat, x1: W, x2: W, x3: W, x4: W)
    requires Iterate(f, x, n) == x1 && Iterate(f, x1, n) == x2 && Iterate(f, x2, n) == x3 && Iterate(f, x3, n) == x4
    ensures Iterate(f, x, 4 * n) == x4
  {
    IterateAdd(f, x, n, 3 * n);
    IterateAdd(f, x1, n, 2 * n);
    IterateAdd(f, x2, n, n);
  }

  lemma WordParts(b0: byte, b1: byte, b2: byte, b3: byte)
    returns (w: bv32, r0: bv32, r1: bv32, r2: bv32)
    ensures w == FromLeWord([b0, b1, b2, b3])
    ensures Word(w, b0, r0) && Word(r0, b1, r1) && Word(r1, b2, r2) && Word(r2, b3, 0)
  {
    r2 := b3 as bv32;
    r1 := (b2 as bv32) | (r2 << 8);
    r0 := (b1 as bv32) | (r1 << 8);
    w := (b0 as bv32) | (r0 << 8);
  }

  lemma XorZero(c: bv32)
    ensures Xor(c, 0) == c
  {}

  lemma AbsorbWord(c: bv32, w: bytes)
    requires |w| == 4
    ensures UpdateAll(c, w) == Iterate(Step, Xor(c, FromLeWord(w)), 4 * BYTE_BITS)
  {
    assert w == [w[0], w[1], w[2], w[3]];
    var x, r0, r1, r2 := WordParts(w[0], w[1], w[2], w[3]);
    var c1 := Update(c, w[0]);
    var c2 := Update(c1, w[1]);
    var c3 := Update(c2, w[2]);
    var c4 := Update(c3, w[3]);
    AbsorbByte(c, x, w[0], r0);
    AbsorbByte(c1, r0, w[1], r1);
    AbsorbByte(c2, r1, w[2], r2);
    AbsorbByte(c3, r2, w[3], 0);
    XorZero(c4);
    FourTimes(Step, Xor(c, x), BYTE_BITS, Xor(c1, r0), Xor(c2, r1), Xor(c3, r2), c4);
    FourUpdates(c, w[0], w[1], w[2], w[3]);
    assert w == [w[0], w[1]] + [w[2], w[3]];
  }

  lemma FourUpdates(c: bv32, b0: byte, b1: byte, b2: byte, b3: byte)
    ensures UpdateAll(c, [b0, b1] + [b2, b3]) == Update(Update(Update(Update(c, b0), b1), b2), b3)
  {
    hide *;
    UpdateAllConcat(c, [b0, b1], [b2, b3]);
    UpdateTwo(c, b0, b1);
    UpdateTwo(Update(Update(c, b0), b1), b2, b3);
  }

  lemma UpdateTwo(c: bv32, a: byte, b: byte)
    ensures UpdateAll(c, [a, b]) == Update(Update(c, a), b)
  {
    assert [a, b][1..] == [b] && [b][1..] == [];
    assert UpdateAll(Update(c, a), [b]) == UpdateAll(Update(Update(c, a), b), []);
  }

  lemma WordDetected(s: bv32, w: bytes, v: bytes)
    requires |w| == |v| == 4 && UpdateAll(s, w) == UpdateAll(s, v)
    ensures w == v
  {
    AbsorbWord(s, w);
    AbsorbWord(s, v);
    IterateInjective(Xor(s, FromLeWord(w)), Xor(s, FromLeWord(v)), 4 * BYTE_BITS);
    XorInjective(FromLeWord(w), FromLeWord(v), s);
    LeWordInjective(w, v);
  }

  // ----- The detection theorem -----

  lemma Split(c: bv32, x: bytes, i: nat)
    requires i + 4 <= |x|
    ensures UpdateAll(c, x) == UpdateAll(UpdateAll(UpdateAll(c, x[..i]), x[i..i + 4]), x[i + 4..])
  {
    assert x == x[..i] + (x[i..i + 4] + x[i + 4..]);
    UpdateAllConcat(c, x[..i], x[i..i + 4] + x[i + 4..]);
    UpdateAllConcat(UpdateAll(c, x[..i]), x[i..i + 4], x[i + 4..]);
  }

  lemma MiddleDetected(s: bv32, w: bytes, v: bytes, tail: bytes)
    requires |w| == |v| == 4 && UpdateAll(UpdateAll(s, w), tail) == UpdateAll(UpdateAll(s, v), tail)
    ensures w == v
  {
    UpdateAllInjective(UpdateAll(s, w), UpdateAll(s, v), tail);
    WordDetected(s, w, v);
  }

  lemma BurstDetectedInside(c: bv32, x: bytes, y: bytes, i: nat)
    requires i + 4 <= |x| == |y| && x[..i] == y[..i] && x[i + 4..] == y[i + 4..]
    requires UpdateAll(c, x) == UpdateAll(c, y)
    ensures x == y
  {
    hide *;
    Split(c, x, i);
    Split(c, y, i);
    MiddleDetected(UpdateAll(c, x[..i]), x[i..i + 4], y[i..i + 4], x[i + 4..]);
    assert x == x[..i] + x[i..i + 4] + x[i + 4..];
    assert y == y[..i] + y[i..i + 4] + y[i + 4..];
  }

  lemma HashInjective(a: bytes, b: bytes)
    requires Hash(a) == Hash(b)
    ensures UpdateAll(ALL_ONES, a) == UpdateAll(ALL_ONES, b)
  {
    XorInjective(UpdateAll(ALL_ONES, a), UpdateAll(ALL_ONES, b), ALL_ONES);
  }

  /**
   * Damage that stays within four consecutive bytes always changes the checksum: nothing has to be
   * assumed about collisions. The last window may run past the end of the message.
   */
  lemma BurstDetected(a: bytes, b: bytes, i: nat)
    requires |a| == |b| && i <= |a| && a[..i] == b[..i]
    requires i + 4 <= |a| ==> a[i + 4..] == b[i + 4..]
    requires Hash(a) == Hash(b)
    ensures a == b
  {
    hide *;
    HashInjective(a, b);
    var pad: bytes := [0, 0, 0, 0];
    UpdateAllConcat(ALL_ONES, a, pad);
    UpdateAllConcat(ALL_ONES, b, pad);
    assert (a + pad)[..i] == a[..i] && (b + pad)[..i] == b[..i];
    assert (a + pad)[i + 4..] == (b + pad)[i + 4..];
    BurstDetectedInside(ALL_ONES, a + pad, b + pad, i);
    assert a == (a + pad)[..|a|] && b == (b + pad)[..|a|];
  }
}
