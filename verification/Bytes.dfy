/** Bytes, the little-endian fields of the on-disk format, and the Option and Result values. */
module Bytes {
  type byte = bv8
  type bytes = seq<byte>
  /** A Rust `String`, seen as the bytes it holds. */
  type Text = bytes

  const U32_LIMIT: nat := 0x1_0000_0000
  const U64_LIMIT: nat := 0x1_0000_0000_0000_0000
  type u64 = n: nat | n < U64_LIMIT

  datatype Option<+T> = None | Some(value: T)
  datatype Result<+T, +E> = Ok(value: T) | Err(error: E)

  /** `u16::to_le_bytes` and `u16::from_le_bytes`. */
  function ToLe16(w: bv16): (b: bytes)
    ensures |b| == 2
  {
    [(w & 0xff) as byte, (w >> 8) as byte]
  }

  function FromLe16(b: bytes): bv16
    requires |b| == 2
  {
    (b[0] as bv16) | ((b[1] as bv16) << 8)
  }

  /** `u32::to_le_bytes` and `u32::from_le_bytes` for a checksum, kept as a bit pattern. */
  function ToLeWord(w: bv32): (b: bytes)
    ensures |b| == 4
  {
    [(w & 0xff) as byte, ((w >> 8) & 0xff) as byte, ((w >> 16) & 0xff) as byte, (w >> 24) as byte]
  }

  function FromLeWord(b: bytes): bv32
    requires |b| == 4
  {
    (b[0] as bv32) | ((b[1] as bv32) << 8) | ((b[2] as bv32) << 16) | ((b[3] as bv32) << 24)
  }

  /** The same conversions for a length or a bit count, kept as a number. */
  function ToLe32(n: nat): (b: bytes)
    requires n < U32_LIMIT
    ensures |b| == 4
  {
    [(n % 256) as byte, (n / 256 % 256) as byte, (n / 65536 % 256) as byte, (n / 16777216) as byte]
  }

  function FromLe32(b: bytes): (n: nat)
    requires |b| == 4
    ensures n < U32_LIMIT
  {
    Value(b[0]) + 256 * Value(b[1]) + 65536 * Value(b[2]) + 16777216 * Value(b[3])
  }

  function Value(b: byte): (n: nat)
    ensures n < 256
  {
    b as nat
  }

  lemma Le16RoundTrip(w: bv16)
    ensures FromLe16(ToLe16(w)) == w
  {}

  lemma LeWordRoundTrip(w: bv32)
    ensures FromLeWord(ToLeWord(w)) == w
  {}

  lemma WordsInjective(a0: byte, a1: byte, a2: byte, a3: byte, b0: byte, b1: byte, b2: byte, b3: byte)
    requires (a0 as bv32) | ((a1 as bv32) << 8) | ((a2 as bv32) << 16) | ((a3 as bv32) << 24)
          == (b0 as bv32) | ((b1 as bv32) << 8) | ((b2 as bv32) << 16) | ((b3 as bv32) << 24)
    ensures a0 == b0 && a1 == b1 && a2 == b2 && a3 == b3
  {}

  lemma LeWordInjective(a: bytes, b: bytes)
    requires |a| == |b| == 4 && FromLeWord(a) == FromLeWord(b)
    ensures a == b
  {
    WordsInjective(a[0], a[1], a[2], a[3], b[0], b[1], b[2], b[3]);
  }

  lemma ByteRoundTrip(n: nat)
    requires n < 256
    ensures Value(n as byte) == n
  {}

  lemma ValueInjective(a: byte, b: byte)
    requires Value(a) == Value(b)
    ensures a == b
  {}

  /** A number has one last digit and one rest. */
  lemma LowDigit(a: nat, x: nat, b: nat, y: nat)
    requires a < 256 && b < 256 && a + 256 * x == b + 256 * y
    ensures a == b && x == y
  {}

  lemma Quads(a0: nat, a1: nat, a2: nat, a3: nat, b0: nat, b1: nat, b2: nat, b3: nat)
    requires a0 < 256 && a1 < 256 && a2 < 256 && b0 < 256 && b1 < 256 && b2 < 256
    requires a0 + 256 * a1 + 65536 * a2 + 16777216 * a3 == b0 + 256 * b1 + 65536 * b2 + 16777216 * b3
    ensures a0 == b0 && a1 == b1 && a2 == b2 && a3 == b3
  {
    LowDigit(a0, a1 + 256 * (a2 + 256 * a3), b0, b1 + 256 * (b2 + 256 * b3));
    LowDigit(a1, a2 + 256 * a3, b1, b2 + 256 * b3);
    LowDigit(a2, a3, b2, b3);
  }

  /** Four bytes are determined by their value. */
  lemma Le32Injective(a: bytes, b: bytes)
    requires |a| == |b| == 4 && FromLe32(a) == FromLe32(b)
    ensures a == b
  {
    hide Value;
    Quads(Value(a[0]), Value(a[1]), Value(a[2]), Value(a[3]), Value(b[0]), Value(b[1]), Value(b[2]), Value(b[3]));
    ValueInjective(a[0], b[0]);
    ValueInjective(a[1], b[1]);
    ValueInjective(a[2], b[2]);
    ValueInjective(a[3], b[3]);
  }

  lemma Digits(n: nat)
    requires n < U32_LIMIT
    ensures n == n % 256 + 256 * (n / 256 % 256) + 65536 * (n / 65536 % 256) + 16777216 * (n / 16777216)
  {
    assert n / 65536 == n / 256 / 256;
    assert n / 16777216 == n / 65536 / 256;
  }

  lemma Le32RoundTrip(n: nat)
    requires n < U32_LIMIT
    ensures FromLe32(ToLe32(n)) == n
  {
    ByteRoundTrip(n % 256);
    ByteRoundTrip(n / 256 % 256);
    ByteRoundTrip(n / 65536 % 256);
    ByteRoundTrip(n / 16777216);
    Digits(n);
  }
}
