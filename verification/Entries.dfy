/** Entries, and what the store takes from outside: the codec, the hash and the clock. */
module Entries {
  import opened Bytes

  /** What is written to the WAL and to SSTables: a value for a key, or a tombstone. */
  datatype Entry = Set(key: Text, value: Text) | Delete(key: Text)

  /**
   * `encode` and `decode` are `wincode::serialize` and `wincode::deserialize`, `hash` is
   * `xxh3::hash64_with_seed`, and `clock(i)` is the i-th reading of the system clock in microseconds.
   */
  datatype Outside = Outside(
    encode: Entry -> Option<bytes>,
    decode: bytes -> Option<Entry>,
    hash: (bytes, u64) -> u64,
    clock: nat -> nat)

  ghost predicate Lawful(env: Outside) {
    && (forall e :: env.encode(e).Some? ==>
          env.decode(env.encode(e).value) == Some(e) && |e.key| < |env.encode(e).value|)
    && (forall b :: env.decode(b).Some? ==> env.encode(env.decode(b).value).Some?)
    && env.decode([]) == None
    && (forall i, j | i < j :: env.clock(i) < env.clock(j))
  }

  /** Every codec that reads back what it wrote, every hash, every clock that moves forward. */
  type Env = env: Outside | Lawful(env) ghost witness Sample()

  // ----- A concrete instance: a tag and length-prefixed texts, as wincode lays out this enum -----

  const SET_TAG: nat := 0
  const DELETE_TAG: nat := 1

  function EncodeText(t: Text): bytes
    requires |t| < U32_LIMIT
  {
    ToLe32(|t|) + ToLe32(0) + t
  }

  function Encode(e: Entry): Option<bytes> {
    match e
    case Set(k, v) =>
      if |k| < U32_LIMIT && |v| < U32_LIMIT then Some(ToLe32(SET_TAG) + EncodeText(k) + EncodeText(v)) else None
    case Delete(k) =>
      if |k| < U32_LIMIT then Some(ToLe32(DELETE_TAG) + EncodeText(k)) else None
  }

  /** A text and what follows it. */
  function DecodeText(b: bytes): (r: Option<(Text, bytes)>)
    ensures r.Some? ==> |r.value.0| < U32_LIMIT
  {
    if |b| < 8 || FromLe32(b[4..8]) != 0 || FromLe32(b[..4]) > |b| - 8 then None
    else
      var n := FromLe32(b[..4]);
      Some((b[8..8 + n], b[8 + n..]))
  }

  function Decode(b: bytes): Option<Entry> {
    if |b| < 4 then None
    else
      var tag := FromLe32(b[..4]);
      match DecodeText(b[4..])
      case None => None
      case Some((k, rest)) =>
        if tag == DELETE_TAG then Some(Delete(k))
        else if tag != SET_TAG then None
        else match DecodeText(rest)
             case None => None
             case Some((v, _)) => Some(Set(k, v))
  }

  lemma TextRoundTrip(t: Text, rest: bytes)
    requires |t| < U32_LIMIT
    ensures DecodeText(EncodeText(t) + rest) == Some((t, rest))
  {
    var b := EncodeText(t) + rest;
    assert b[..4] == ToLe32(|t|) && b[4..8] == ToLe32(0);
    Le32RoundTrip(|t|);
    Le32RoundTrip(0);
    assert b[8..8 + |t|] == t && b[8 + |t|..] == rest;
  }

  lemma CodecRoundTrip(e: Entry)
    requires Encode(e).Some?
    ensures Decode(Encode(e).value) == Some(e) && |e.key| < |Encode(e).value|
  {
    match e
    case Set(k, v) => SetRoundTrip(k, v);
    case Delete(k) => DeleteRoundTrip(k);
  }

  lemma TextIsLonger(t: Text)
    requires |t| < U32_LIMIT
    ensures |EncodeText(t)| > |t|
  {}

  lemma SetRoundTrip(k: Text, v: Text)
    requires Encode(Set(k, v)).Some?
    ensures var b := Encode(Set(k, v)).value; Decode(b) == Some(Set(k, v)) && |k| < |b|
  {
    hide ToLe32, FromLe32, EncodeText, DecodeText;
    var b := Encode(Set(k, v)).value;
    TextIsLonger(k);
    Le32RoundTrip(SET_TAG);
    TextRoundTrip(k, EncodeText(v));
    TextRoundTrip(v, []);
    assert b[..4] == ToLe32(SET_TAG) && b[4..] == EncodeText(k) + EncodeText(v);
    assert EncodeText(v) + [] == EncodeText(v);
  }

  lemma DeleteRoundTrip(k: Text)
    requires Encode(Delete(k)).Some?
    ensures var b := Encode(Delete(k)).value; Decode(b) == Some(Delete(k)) && |k| < |b|
  {
    hide ToLe32, FromLe32, EncodeText, DecodeText;
    var b := Encode(Delete(k)).value;
    TextIsLonger(k);
    Le32RoundTrip(DELETE_TAG);
    TextRoundTrip(k, []);
    assert b[..4] == ToLe32(DELETE_TAG) && b[4..] == EncodeText(k) + [];
  }

  lemma DecodedEncodes(b: bytes)
    requires Decode(b).Some?
    ensures Encode(Decode(b).value).Some?
  {}

  /** The codec lays `e` out as above. It may refuse others, such as texts that are not UTF-8. */
  ghost predicate LaidOut(env: Env, e: Entry) {
    env.encode(e) == Encode(e)
  }

  ghost function Sample(): (env: Outside)
    ensures Lawful(env) && forall e :: env.encode(e) == Encode(e)
  {
    var env := Outside(e => Encode(e), b => Decode(b), (b: bytes, seed: u64) => 0, i => i);
    assert Lawful(env) by {
      forall e | env.encode(e).Some?
        ensures env.decode(env.encode(e).value) == Some(e) && |e.key| < |env.encode(e).value|
      {
        CodecRoundTrip(e);
      }
      forall b | env.decode(b).Some? ensures env.encode(env.decode(b).value).Some? {
        DecodedEncodes(b);
      }
    }
    env
  }
}
