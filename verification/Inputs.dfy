/** The entries of the inputs that fail, and the bytes of their frames. */
module Inputs {
  import opened Bytes
  import opened Entries
  import opened Header
  import opened Recovery
  import Crc32

  /** What a client can type as one word: ASCII without white space. */
  predicate OneWord(t: Text) {
    forall b | b in t :: b < 0x80 && b != 0x20 && !(0x09 <= b <= 0x0d)
  }

  /** `Set("F", "")`, `Set("city", "NYC")` and `Set("b", "x")`. */
  const INNER: Entry := Set([0x46], [])
  const CITY: Entry := Set([0x63, 0x69, 0x74, 0x79], [0x4e, 0x59, 0x43])
  const OTHER: Entry := Set([0x62], [0x78])

  const INNER_PAYLOAD: bytes :=
    [0, 0, 0, 0] + [1, 0, 0, 0] + [0, 0, 0, 0] + [0x46] + [0, 0, 0, 0] + [0, 0, 0, 0]
  const CITY_PAYLOAD: bytes :=
    [0, 0, 0, 0] + [4, 0, 0, 0] + [0, 0, 0, 0] + [0x63, 0x69, 0x74, 0x79]
    + [3, 0, 0, 0] + [0, 0, 0, 0] + [0x4e, 0x59, 0x43]
  const OTHER_PAYLOAD: bytes :=
    [0, 0, 0, 0] + [1, 0, 0, 0] + [0, 0, 0, 0] + [0x62] + [1, 0, 0, 0] + [0, 0, 0, 0] + [0x78]

  // ----- Their checksums -----

  lemma NextOne(d: bytes, i: nat, b: byte, c: bv32, next: bv32)
    requires i < |d| && d[i] == b && Crc32.EightSteps(c ^ (b as bv32)) == next
    ensures Crc32.UpdateAll(c, d[i..]) == Crc32.UpdateAll(next, d[i + 1..])
  {
    hide Crc32.UpdateAll, Crc32.EightSteps;
    assert d[i..] == [b] + d[i + 1..];
    Crc32.NextByte(c, b, next, d[i + 1..]);
  }

  lemma NextFour(d: bytes, i: nat, b0: byte, b1: byte, b2: byte, b3: byte, c0: bv32, c1: bv32, c2: bv32, c3: bv32,
                 c4: bv32)
    requires i + 4 <= |d| && d[i] == b0 && d[i + 1] == b1 && d[i + 2] == b2 && d[i + 3] == b3
    requires Crc32.EightSteps(c0 ^ (b0 as bv32)) == c1 && Crc32.EightSteps(c1 ^ (b1 as bv32)) == c2
    requires Crc32.EightSteps(c2 ^ (b2 as bv32)) == c3 && Crc32.EightSteps(c3 ^ (b3 as bv32)) == c4
    ensures Crc32.UpdateAll(c0, d[i..]) == Crc32.UpdateAll(c4, d[i + 4..])
  {
    hide Crc32.UpdateAll, Crc32.EightSteps;
    NextOne(d, i, b0, c0, c1);
    NextOne(d, i + 1, b1, c1, c2);
    NextOne(d, i + 2, b2, c2, c3);
    NextOne(d, i + 3, b3, c3, c4);
  }

  lemma FromStart(d: bytes)
    ensures d[0..] == d
  {}

  ghost predicate InnerBytes(d: bytes) {
    && |d| == 21 && d[4] == 1 && d[12] == 0x46
    && forall i | 0 <= i < 21 && i !in {4, 12} :: d[i] == 0
  }

  lemma InnerHead(d: bytes)
    requires InnerBytes(d)
    ensures Crc32.UpdateAll(0xFFFF_FFFF, d) == Crc32.UpdateAll(0x4880_390E, d[12..])
  {
    hide Crc32.UpdateAll;
    FromStart(d);
    NextFour(d, 0, 0, 0, 0, 0, 0xFFFF_FFFF, 0x2DFD_1072, 0xBE26_ED00, 0x00BE_26ED, 0xDEBB_20E3);
    NextFour(d, 4, 1, 0, 0, 0, 0xDEBB_20E3, 0x4EDA_3874, 0x5726_6F1D, 0x6351_4AB6, 0x2261_47F3);
    NextFour(d, 8, 0, 0, 0, 0, 0x2261_47F3, 0x2496_C2E1, 0xD729_442C, 0x320F_45A7, 0x4880_390E);
  }

  lemma InnerHashOf(d: bytes)
    requires InnerBytes(d)
    ensures Crc32.Hash(d) == 0x6B2A_7445
  {
    hide Crc32.UpdateAll;
    InnerHead(d);
    NextFour(d, 12, 0x46, 0, 0, 0, 0x4880_390E, 0x784F_499B, 0x67A5_0585, 0x9DB5_D2AA, 0x369E_FF24);
    NextFour(d, 16, 0, 0, 0, 0, 0x369E_FF24, 0x3C35_7A2E, 0xDCEA_38B5, 0xBBD7_AD3B, 0xB1B0_3E89);
    NextOne(d, 20, 0, 0xB1B0_3E89, 0x94D5_8BBA);
    assert d[21..] == [];
    Crc32.UpdateAllNothing(0x94D5_8BBA);
  }

  /** The checksum bytes are 45 74 2a 6b: text. */
  lemma InnerHash()
    ensures Crc32.Hash(INNER_PAYLOAD) == 0x6B2A_7445
  {
    hide Crc32.Hash;
    InnerHashOf(INNER_PAYLOAD);
  }

  ghost predicate CityBytes(d: bytes) {
    && |d| == 27 && d[4] == 4 && d[12] == 0x63 && d[13] == 0x69 && d[14] == 0x74 && d[15] == 0x79
    && d[16] == 3 && d[24] == 0x4e && d[25] == 0x59 && d[26] == 0x43
    && forall i | 0 <= i < 27 && i !in {4, 12, 13, 14, 15, 16, 24, 25, 26} :: d[i] == 0
  }

  lemma CityHead(d: bytes)
    requires CityBytes(d)
    ensures Crc32.UpdateAll(0xFFFF_FFFF, d) == Crc32.UpdateAll(0x0060_376A, d[12..])
  {
    hide Crc32.UpdateAll;
    FromStart(d);
    NextFour(d, 0, 0, 0, 0, 0, 0xFFFF_FFFF, 0x2DFD_1072, 0xBE26_ED00, 0x00BE_26ED, 0xDEBB_20E3);
    NextFour(d, 4, 4, 0, 0, 0, 0xDEBB_20E3, 0x3EB0_CCFB, 0x2A51_9B58, 0x659A_885D, 0x15BF_B7C1);
    NextFour(d, 8, 0, 0, 0, 0, 0x15BF_B7C1, 0xEC76_4D91, 0x87E4_D59F, 0x6037_6A00, 0x0060_376A);
  }

  lemma CityHashOf(d: bytes)
    requires CityBytes(d)
    ensures Crc32.Hash(d) == 0xCF0A_3158
  {
    hide Crc32.UpdateAll;
    CityHead(d);
    NextFour(d, 12, 0x63, 0x69, 0x74, 0x79, 0x0060_376A, 0x79DC_D893, 0x5D11_C7DA, 0x3133_9F28, 0x1C5D_52FD);
    NextFour(d, 16, 3, 0, 0, 0, 0x1C5D_52FD, 0x5A19_8249, 0x0F5A_E0B6, 0x220D_4C59, 0x1295_E41C);
    NextFour(d, 20, 0, 0, 0, 0, 0x1295_E41C, 0x1413_C9AB, 0x4110_69A9, 0xAF4B_0B25, 0x4BAB_9F4C);
    NextOne(d, 24, 0x4e, 0x4BAB_9F4C, 0xEE45_CAB3);
    NextOne(d, 25, 0x59, 0xEE45_CAB3, 0x4031_4EAC);
    NextOne(d, 26, 0x43, 0x4031_4EAC, 0x30F5_CEA7);
    assert d[27..] == [];
    Crc32.UpdateAllNothing(0x30F5_CEA7);
  }

  /** The checksum bytes are 58 31 0a cf. */
  lemma CityHash()
    ensures Crc32.Hash(CITY_PAYLOAD) == 0xCF0A_3158
  {
    hide Crc32.Hash;
    CityHashOf(CITY_PAYLOAD);
  }

  ghost predicate OtherBytes(d: bytes) {
    && |d| == 22 && d[4] == 1 && d[12] == 0x62 && d[13] == 1 && d[21] == 0x78
    && forall i | 0 <= i < 22 && i !in {4, 12, 13, 21} :: d[i] == 0
  }

  lemma OtherHead(d: bytes)
    requires OtherBytes(d)
    ensures Crc32.UpdateAll(0xFFFF_FFFF, d) == Crc32.UpdateAll(0x4880_390E, d[12..])
  {
    hide Crc32.UpdateAll;
    FromStart(d);
    NextFour(d, 0, 0, 0, 0, 0, 0xFFFF_FFFF, 0x2DFD_1072, 0xBE26_ED00, 0x00BE_26ED, 0xDEBB_20E3);
    NextFour(d, 4, 1, 0, 0, 0, 0xDEBB_20E3, 0x4EDA_3874, 0x5726_6F1D, 0x6351_4AB6, 0x2261_47F3);
    NextFour(d, 8, 0, 0, 0, 0, 0x2261_47F3, 0x2496_C2E1, 0xD729_442C, 0x320F_45A7, 0x4880_390E);
  }

  lemma OtherHashOf(d: bytes)
    requires OtherBytes(d)
    ensures Crc32.Hash(d) == 0xDBCC_3E01
  {
    hide Crc32.UpdateAll;
    OtherHead(d);
    NextFour(d, 12, 0x62, 1, 0, 0, 0x4880_390E, 0x444C_AD4A, 0xE14A_D4B5, 0xBBEA_0DD7, 0x180C_AD7A);
    NextFour(d, 16, 0, 0, 0, 0, 0x180C_AD7A, 0xB0C8_948F, 0x7DB7_5625, 0x4B79_6311, 0x6AFB_5991);
    NextOne(d, 20, 0, 0x6AFB_5991, 0x8762_588B);
    NextOne(d, 21, 0x78, 0x8762_588B, 0x2433_C1FE);
    assert d[22..] == [];
    Crc32.UpdateAllNothing(0x2433_C1FE);
  }

  /** The checksum bytes are 01 3e cc db. */
  lemma OtherHash()
    ensures Crc32.Hash(OTHER_PAYLOAD) == 0xDBCC_3E01
  {
    hide Crc32.Hash;
    OtherHashOf(OTHER_PAYLOAD);
  }

  // ----- Their frames -----

  /** No byte of `t` is the first byte of the magic pair. */
  ghost predicate Plain(t: bytes) {
    forall b | b in t :: b != 0x43
  }

  lemma PlainConcat(a: bytes, b: bytes)
    ensures Plain(a) && Plain(b) ==> Plain(a + b)
    ensures OneWord(a) && OneWord(b) ==> OneWord(a + b)
  {}

  lemma MagicBytes()
    ensures ToLe16(MAGIC) == [0x43, 0x44]
  {}

  lemma MagicThenPlain(rest: bytes)
    requires Plain(rest)
    ensures NoInnerMagic([0x43, 0x44] + rest)
  {
    MagicBytes();
    var all := [0x43, 0x44] + rest;
    forall p | 1 <= p < |all| - 1 ensures all[p] != 0x43 {
      if p >= 2 {
        assert all[p] == rest[p - 2] && rest[p - 2] in rest;
      }
    }
  }

  lemma SmallNumber(n: nat)
    requires n < 256
    ensures ToLe32(n) == [n as byte, 0, 0, 0]
  {}

  lemma SmallNumbers()
    ensures ToLe32(0) == [0, 0, 0, 0] && ToLe32(1) == [1, 0, 0, 0] && ToLe32(3) == [3, 0, 0, 0]
    ensures ToLe32(4) == [4, 0, 0, 0] && ToLe32(21) == [21, 0, 0, 0] && ToLe32(22) == [22, 0, 0, 0]
    ensures ToLe32(27) == [27, 0, 0, 0] && ToLe32(36) == [36, 0, 0, 0] && ToLe32(57) == [57, 0, 0, 0]
  {
    hide ToLe32;
    SmallNumber(0);
    SmallNumber(1);
    SmallNumber(3);
    SmallNumber(4);
    SmallNumber(21);
    SmallNumber(22);
    SmallNumber(27);
    SmallNumber(36);
    SmallNumber(57);
  }

  lemma Checksums()
    ensures ToLeWord(0x6B2A_7445) == [0x45, 0x74, 0x2a, 0x6b]
    ensures ToLeWord(0xCF0A_3158) == [0x58, 0x31, 0x0a, 0xcf]
    ensures ToLeWord(0xDBCC_3E01) == [0x01, 0x3e, 0xcc, 0xdb]
  {}

  lemma PayloadOfSet(env: Env, e: Entry)
    requires LaidOut(env, e) && e.Set? && |e.key| < 100 && |e.value| < 100
    ensures Storable(env, e)
    ensures Payload(env, e) ==
              ToLe32(0) + (ToLe32(|e.key|) + ToLe32(0) + e.key) + (ToLe32(|e.value|) + ToLe32(0) + e.value)
  {
    hide ToLe32;
  }

  lemma FrameFromPayload(env: Env, e: Entry, p: bytes, crc: bytes, len: bytes)
    requires Storable(env, e) && Payload(env, e) == p
    requires crc == ToLeWord(Crc32.Hash(p)) && len == ToLe32(|p|)
    ensures Frame(env, e) == [0x43, 0x44] + (crc + (len + p))
  {
    hide ToLe16, ToLeWord, ToLe32, Crc32.Hash;
    MagicBytes();
  }

  lemma TypedPayload()
    ensures OneWord(INNER_PAYLOAD)
  {}

  lemma PlainPayloads()
    ensures Plain(CITY_PAYLOAD[..26]) && Plain(OTHER_PAYLOAD)
  {}

  lemma PayloadsAre(env: Env)
    ensures LaidOut(env, INNER) ==> Storable(env, INNER) && Payload(env, INNER) == INNER_PAYLOAD
    ensures LaidOut(env, CITY) ==> Storable(env, CITY) && Payload(env, CITY) == CITY_PAYLOAD
    ensures LaidOut(env, OTHER) ==> Storable(env, OTHER) && Payload(env, OTHER) == OTHER_PAYLOAD
  {
    hide ToLe32, Storable, Payload;
    SmallNumbers();
    if LaidOut(env, INNER) {
      PayloadOfSet(env, INNER);
    }
    if LaidOut(env, CITY) {
      PayloadOfSet(env, CITY);
    }
    if LaidOut(env, OTHER) {
      PayloadOfSet(env, OTHER);
    }
  }

  /** Every byte of the frame is ASCII and none is white space: a client can type it as a value. */
  lemma InnerFrame(env: Env)
    requires LaidOut(env, INNER)
    ensures Storable(env, INNER)
    ensures Frame(env, INNER) == [0x43, 0x44] + ([0x45, 0x74, 0x2a, 0x6b] + ([21, 0, 0, 0] + INNER_PAYLOAD))
    ensures OneWord(Frame(env, INNER))
  {
    hide ToLe16, ToLe32, ToLeWord, Crc32.Hash, Frame, Payload, Storable, LaidOut;
    SmallNumbers();
    Checksums();
    PayloadsAre(env);
    InnerHash();
    FrameFromPayload(env, INNER, INNER_PAYLOAD, [0x45, 0x74, 0x2a, 0x6b], [21, 0, 0, 0]);
    TypedPayload();
    TypedFrame([0x45, 0x74, 0x2a, 0x6b], [21, 0, 0, 0], INNER_PAYLOAD);
  }

  lemma TypedFrame(crc: bytes, len: bytes, p: bytes)
    requires OneWord(crc) && OneWord(len) && OneWord(p)
    ensures OneWord([0x43, 0x44] + (crc + (len + p)))
  {
    PlainConcat(len, p);
    PlainConcat(crc, len + p);
    PlainConcat([0x43, 0x44], crc + (len + p));
  }

  lemma PlainFrame(crc: bytes, len: bytes, p: bytes)
    requires Plain(crc) && Plain(len) && Plain(p)
    ensures NoInnerMagic([0x43, 0x44] + (crc + (len + p)))
  {
    PlainConcat(len, p);
    PlainConcat(crc, len + p);
    MagicThenPlain(crc + (len + p));
  }

  /** The frame ends in the byte every frame starts with, and holds no other magic pair. */
  lemma CityFrame(env: Env)
    requires LaidOut(env, CITY)
    ensures Storable(env, CITY) && |Frame(env, CITY)| == 37 && Frame(env, CITY)[36] == 0x43
    ensures NoInnerMagic(Frame(env, CITY)[..36])
  {
    hide ToLe16, ToLe32, ToLeWord, Crc32.Hash, Frame, Payload, Storable, LaidOut, NoInnerMagic;
    SmallNumbers();
    Checksums();
    PayloadsAre(env);
    CityHash();
    FrameFromPayload(env, CITY, CITY_PAYLOAD, [0x58, 0x31, 0x0a, 0xcf], [27, 0, 0, 0]);
    PlainPayloads();
    CityTorn(Frame(env, CITY), CITY_PAYLOAD);
    PlainFrame([0x58, 0x31, 0x0a, 0xcf], [27, 0, 0, 0], CITY_PAYLOAD[..26]);
  }

  lemma CityTorn(f: bytes, p: bytes)
    requires |p| == 27 && f == [0x43, 0x44] + ([0x58, 0x31, 0x0a, 0xcf] + ([27, 0, 0, 0] + p))
    ensures |f| == 37 && f[36] == p[26]
    ensures f[..36] == [0x43, 0x44] + ([0x58, 0x31, 0x0a, 0xcf] + ([27, 0, 0, 0] + p[..26]))
  {}

  lemma OtherFrame(env: Env)
    requires LaidOut(env, OTHER)
    ensures Storable(env, OTHER) && NoInnerMagic(Frame(env, OTHER))
  {
    hide ToLe16, ToLe32, ToLeWord, Crc32.Hash, Frame, Payload, Storable, LaidOut, NoInnerMagic;
    SmallNumbers();
    Checksums();
    PayloadsAre(env);
    OtherHash();
    FrameFromPayload(env, OTHER, OTHER_PAYLOAD, [0x01, 0x3e, 0xcc, 0xdb], [22, 0, 0, 0]);
    PlainPayloads();
    PlainFrame([0x01, 0x3e, 0xcc, 0xdb], [22, 0, 0, 0], OTHER_PAYLOAD);
  }
}
