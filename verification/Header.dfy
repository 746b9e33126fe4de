/** The frame around every entry: `[magic: 2][crc32: 4][len: 4][payload]`. */
module Header {
  import opened Bytes
  import opened Entries
  import Crc32

  const HEADER_LEN: nat := 10
  const MAGIC: bv16 := 0x4443

  datatype CorruptionType = NotEnoughBytes | MagicBytesMismatch | ChecksumMismatch | ParseError

  /** The entry can be framed: the codec accepts it and its length fits the u32 field. */
  predicate Storable(env: Env, e: Entry) {
    env.encode(e).Some? && |env.encode(e).value| < U32_LIMIT
  }

  function Payload(env: Env, e: Entry): (p: bytes)
    requires Storable(env, e)
    ensures |e.key| < |p| < U32_LIMIT
  {
    env.encode(e).value
  }

  function Frame(env: Env, e: Entry): (f: bytes)
    requires Storable(env, e)
    ensures |f| == HEADER_LEN + |Payload(env, e)|
  {
    var p := Payload(env, e);
    ToLe16(MAGIC) + ToLeWord(Crc32.Hash(p)) + ToLe32(|p|) + p
  }

  /** `Serializer::serialize`; `None` is its error. */
  method Serialize(env: Env, value: Entry) returns (r: Option<bytes>)
    ensures r == if Storable(env, value) then Some(Frame(env, value)) else None
  {
    hide ToLe16, ToLeWord, ToLe32, Crc32.Hash;
    var encoded := env.encode(value);
    if encoded.None? {
      return None;
    }
    var entryBytes := encoded.value;
    var checksum := Crc32.Hash(entryBytes);
    if |entryBytes| >= U32_LIMIT {
      return None;
    }
    var out: bytes := [];
    out := out + ToLe16(MAGIC);
    out := out + ToLeWord(checksum);
    out := out + ToLe32(|entryBytes|);
    out := out + entryBytes;
    assert out == Frame(env, value);
    return Some(out);
  }

  /** `Deserializer::deserialize`: the entry at the front of `w` and the bytes it takes up. */
  function Deserialize(env: Env, w: bytes): (r: Result<(Entry, nat), CorruptionType>)
    ensures r.Ok? ==> HEADER_LEN < r.value.1 <= |w|
  {
    if |w| <= HEADER_LEN then Err(NotEnoughBytes)
    else if FromLe16(w[..2]) != MAGIC then Err(MagicBytesMismatch)
    else
      var checksum := FromLeWord(w[2..6]);
      var len := FromLe32(w[6..10]);
      if |w| < HEADER_LEN + len then Err(NotEnoughBytes)
      else
        var entryBytes := w[HEADER_LEN..HEADER_LEN + len];
        if checksum != Crc32.Hash(entryBytes) then Err(ChecksumMismatch)
        else
          assert len == 0 ==> entryBytes == [];
          match env.decode(entryBytes)
          case None => Err(ParseError)
          case Some(e) => Ok((e, HEADER_LEN + len))
  }

  /** A written frame reads back as its entry, and takes up exactly its own bytes, whatever follows. */
  lemma FrameRoundTrip(env: Env, e: Entry, rest: bytes)
    requires Storable(env, e)
    ensures Deserialize(env, Frame(env, e) + rest) == Ok((e, |Frame(env, e)|))
  {
    var p := Payload(env, e);
    var w := Frame(env, e) + rest;
    assert w[..2] == ToLe16(MAGIC);
    assert w[2..6] == ToLeWord(Crc32.Hash(p));
    assert w[6..10] == ToLe32(|p|);
    assert w[10..10 + |p|] == p;
    Le16RoundTrip(MAGIC);
    LeWordRoundTrip(Crc32.Hash(p));
    Le32RoundTrip(|p|);
  }

  /** The only windows accepted: magic, the checksum of the payload, its length, and a payload that decodes. */
  lemma DeserializeExact(env: Env, w: bytes, e: Entry, n: nat)
    ensures Deserialize(env, w) == Ok((e, n)) <==>
              && HEADER_LEN < n <= |w| && n - HEADER_LEN < U32_LIMIT
              && var p := w[HEADER_LEN..n];
                 w[..n] == ToLe16(MAGIC) + ToLeWord(Crc32.Hash(p)) + ToLe32(|p|) + p && env.decode(p) == Some(e)
  {
    hide ToLe16, ToLeWord, ToLe32, FromLe16, FromLeWord, FromLe32, Crc32.Hash;
    if HEADER_LEN < n <= |w| && n - HEADER_LEN < U32_LIMIT {
      var p := w[HEADER_LEN..n];
      HeaderFields(w, n, p);
      Le16RoundTrip(MAGIC);
      LeWordRoundTrip(Crc32.Hash(p));
      Le32RoundTrip(|p|);
      if FromLe16(w[..2]) == MAGIC {
        Le16FromBytes(w[..2]);
      }
      if FromLeWord(w[2..6]) == Crc32.Hash(p) {
        LeWordInjective(w[2..6], ToLeWord(Crc32.Hash(p)));
      }
      if FromLe32(w[6..10]) == |p| {
        Le32Injective(w[6..10], ToLe32(|p|));
      }
    }
  }

  /** The length a window declares: bytes 6 to 9, the least significant first. */
  function Declared(w: bytes): nat
    requires |w| > HEADER_LEN
  {
    Value(w[6]) + 0x100 * Value(w[7]) + 0x1_0000 * Value(w[8]) + 0x100_0000 * Value(w[9])
  }

  /** The window starts with the letters C and D. */
  predicate StartsWithMagic(w: bytes) {
    |w| >= 2 && w[0] == 0x43 && w[1] == 0x44
  }

  /** It does, and holds as many bytes as it declares. */
  predicate Whole(w: bytes) {
    |w| > HEADER_LEN && StartsWithMagic(w) && HEADER_LEN + Declared(w) <= |w|
  }

  /** Which error each rejected window gives. */
  lemma DeserializeErrors(env: Env, w: bytes)
    ensures Deserialize(env, w) == Err(NotEnoughBytes) <==>
              |w| <= 10 || (StartsWithMagic(w) && |w| < 10 + Declared(w))
    ensures Deserialize(env, w) == Err(MagicBytesMismatch) <==> |w| > 10 && !StartsWithMagic(w)
    ensures Deserialize(env, w) == Err(ChecksumMismatch) <==>
              Whole(w) && w[2..6] != ToLeWord(Crc32.Hash(w[10..10 + Declared(w)]))
    ensures Deserialize(env, w) == Err(ParseError) <==>
              && Whole(w) && w[2..6] == ToLeWord(Crc32.Hash(w[10..10 + Declared(w)]))
              && env.decode(w[10..10 + Declared(w)]).None?
  {
    hide ToLeWord, FromLeWord, FromLe16, Value, Crc32.Hash;
    if |w| > HEADER_LEN {
      assert w[..2] == [w[0], w[1]];
      MagicLetters(w[0], w[1]);
      if Whole(w) {
        ChecksumField(w[2..6], Crc32.Hash(w[10..10 + Declared(w)]));
      }
    }
  }

  lemma MagicLetters(a: byte, b: byte)
    ensures FromLe16([a, b]) == MAGIC <==> a == 0x43 && b == 0x44
  {}

  lemma ChecksumField(field: bytes, crc: bv32)
    requires |field| == 4
    ensures FromLeWord(field) == crc <==> field == ToLeWord(crc)
  {
    hide FromLeWord, ToLeWord;
    LeWordRoundTrip(crc);
    if FromLeWord(field) == crc {
      LeWordInjective(field, ToLeWord(crc));
    }
  }

  /** A window starts with a frame of `p` exactly if its three fields are those of `p`. */
  lemma HeaderFields(w: bytes, n: nat, p: bytes)
    requires HEADER_LEN < n <= |w| && p == w[HEADER_LEN..n] && |p| < U32_LIMIT
    ensures w[..n] == ToLe16(MAGIC) + ToLeWord(Crc32.Hash(p)) + ToLe32(|p|) + p <==>
              w[..2] == ToLe16(MAGIC) && w[2..6] == ToLeWord(Crc32.Hash(p)) && w[6..10] == ToLe32(|p|)
  {
    hide ToLe16, ToLeWord, ToLe32, Crc32.Hash;
    var all := ToLe16(MAGIC) + ToLeWord(Crc32.Hash(p)) + ToLe32(|p|) + p;
    assert w[..n] == w[..2] + w[2..6] + w[6..10] + p;
    if w[..n] == all {
      assert w[..2] == all[..2] && w[2..6] == all[2..6] && w[6..10] == all[6..10];
    }
  }

  lemma Le16FromBytes(b: bytes)
    requires |b| == 2
    ensures ToLe16(FromLe16(b)) == b
  {
    assert b == [b[0], b[1]];
    Le16Injective(b[0], b[1]);
  }

  /** A success depends only on the bytes it reports consumed, so it survives any change after them. */
  lemma FrameLocality(env: Env, w: bytes, w': bytes)
    requires Deserialize(env, w).Ok?
    requires var n := Deserialize(env, w).value.1; n <= |w'| && w'[..n] == w[..n]
    ensures Deserialize(env, w') == Deserialize(env, w)
  {
    hide FromLe16, FromLeWord, FromLe32, Crc32.Hash;
    var n := Deserialize(env, w).value.1;
    SliceEqual(w, w', n, 0, 2);
    SliceEqual(w, w', n, 2, 6);
    SliceEqual(w, w', n, 6, 10);
    SliceEqual(w, w', n, 10, n);
  }

  lemma SliceEqual(w: bytes, w': bytes, n: nat, i: nat, j: nat)
    requires n <= |w| && n <= |w'| && w'[..n] == w[..n] && i <= j <= n
    ensures w'[i..j] == w[i..j]
  {
    assert w[i..j] == w[..n][i..j] && w'[i..j] == w'[..n][i..j];
  }

  /** A window that is too short for a frame, or does not open with the magic pair, never decodes. */
  lemma NoMagicNoEntry(env: Env, w: bytes)
    requires |w| <= HEADER_LEN || w[..2] != ToLe16(MAGIC)
    ensures Deserialize(env, w).Err?
  {
    if |w| > HEADER_LEN {
      assert w[..2] == [w[0], w[1]];
      Le16Injective(w[0], w[1]);
    }
  }

  lemma Le16Injective(a: byte, b: byte)
    ensures ToLe16(FromLe16([a, b])) == [a, b]
  {}

  /**
   * Damage the header is sure to notice: the length field is intact, and either the magic changed, or
   * only the checksum did, or the payload changed within four consecutive bytes.
   */
  ghost predicate Damaged(frame: bytes, bad: bytes) {
    && |bad| == |frame| >= HEADER_LEN
    && bad[6..10] == frame[6..10]
    && (|| bad[..2] != frame[..2]
        || (bad[2..6] != frame[2..6] && bad[10..] == frame[10..])
        || (bad[2..6] == frame[2..6] && Burst(frame[10..], bad[10..])))
  }

  ghost predicate Burst(p: bytes, q: bytes) {
    && |p| == |q| && p != q
    && exists i: nat :: i <= |p| && p[..i] == q[..i] && (i + 4 <= |p| ==> p[i + 4..] == q[i + 4..])
  }

  /** One changed byte outside the length field is such damage. */
  lemma OneByteDamages(frame: bytes, i: nat, b: byte)
    requires HEADER_LEN <= |frame| && i < |frame| && !(6 <= i < 10) && frame[i] != b
    ensures Damaged(frame, frame[i := b])
  {
    var bad := frame[i := b];
    assert bad[6..10] == frame[6..10];
    if i < 2 {
      assert bad[..2][i] != frame[..2][i];
    } else if i < 6 {
      assert bad[2..6][i - 2] != frame[2..6][i - 2];
      assert bad[10..] == frame[10..];
    } else {
      assert bad[2..6] == frame[2..6];
      var p, q, j := frame[10..], bad[10..], i - 10;
      assert p[j] != q[j];
      assert p[..j] == q[..j];
      assert j + 4 <= |p| ==> p[j + 4..] == q[j + 4..];
      assert Burst(p, q);
    }
  }

  /** No frame damaged in this way is accepted, by the checksum alone and not by luck. */
  lemma DamageRejected(env: Env, e: Entry, bad: bytes, rest: bytes)
    requires Storable(env, e) && Damaged(Frame(env, e), bad)
    ensures Deserialize(env, bad + rest) ==
              Err(if bad[..2] != Frame(env, e)[..2] then MagicBytesMismatch else ChecksumMismatch)
  {
    var f := Frame(env, e);
    var p := Payload(env, e);
    var w := bad + rest;
    assert f[..2] == ToLe16(MAGIC) && f[2..6] == ToLeWord(Crc32.Hash(p));
    assert f[6..10] == ToLe32(|p|) && f[10..] == p;
    assert w[..2] == bad[..2];
    if bad[..2] != f[..2] {
      NoMagicNoEntry(env, w);
    } else {
      assert w[2..6] == bad[2..6] && w[6..10] == bad[6..10];
      assert w[10..10 + |p|] == bad[10..];
      Le32RoundTrip(|p|);
      LeWordRoundTrip(Crc32.Hash(p));
      if bad[2..6] != f[2..6] {
        if FromLeWord(bad[2..6]) == Crc32.Hash(p) {
          LeWordInjective(bad[2..6], f[2..6]);
        }
      } else {
        var i: nat :| i <= |p| && p[..i] == bad[10..][..i] && (i + 4 <= |p| ==> p[i + 4..] == bad[10..][i + 4..]);
        if Crc32.Hash(bad[10..]) == Crc32.Hash(p) {
          Crc32.BurstDetected(p, bad[10..], i);
        }
      }
    }
  }
}
