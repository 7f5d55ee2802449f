/**
  The identifier value (ulid_t): sixteen bytes read as one 128-bit unsigned
  big-endian integer, bytes 0..5 the 48-bit millisecond timestamp and bytes
  6..15 the 80-bit random field. Any sixteen bytes are a valid value.
 */
module Identifier {
  import opened Numerals

  /** An unsigned 8-bit value (std::uint8_t). */
  type Byte = x: nat | x < 256

  /** An unsigned 64-bit value (std::uint64_t). */
  type U64 = x: nat | x < 0x1_0000_0000_0000_0000

  type Bytes16 = s: seq<Byte> | |s| == 16 witness [0, 0, 0, 0, 0, 0, 0, 0, 0, 0, 0, 0, 0, 0, 0, 0]

  const TIMESTAMP_LEN: nat := 6
  const RANDOM_LEN: nat := 10

  const TWO_48: nat := 0x1_0000_0000_0000
  const TWO_64: nat := 0x1_0000_0000_0000_0000
  const TWO_80: nat := 0x1_0000_0000_0000_0000_0000
  const TWO_128: nat := 0x1_0000_0000_0000_0000_0000_0000_0000_0000

  lemma BytePowers()
    ensures Pow(256, 6) == TWO_48 && Pow(256, 8) == TWO_64
    ensures Pow(256, 10) == TWO_80 && Pow(256, 16) == TWO_128
  {
  }

  /** The identifier: sixteen bytes, most significant first. */
  datatype Ulid = Ulid(data: Bytes16)

  /** The all-zero identifier (a default-constructed ulid_t). */
  const ZERO: Ulid := Ulid([0, 0, 0, 0, 0, 0, 0, 0, 0, 0, 0, 0, 0, 0, 0, 0])

  /** The 128-bit unsigned integer the identifier stands for. */
  function Value(u: Ulid): (n: nat)
    ensures n < TWO_128
  {
    ValBound(u.data, 256);
    BytePowers();
    Val(u.data, 256)
  }

  /** The 48-bit timestamp: bytes 0..5 read big-endian. */
  function TimestampOf(u: Ulid): (ts: nat)
    ensures ts < TWO_48
  {
    ValBound(u.data[..TIMESTAMP_LEN], 256);
    BytePowers();
    Val(u.data[..TIMESTAMP_LEN], 256)
  }

  /** The 80-bit random field: bytes 6..15 read big-endian. */
  function RandomOf(u: Ulid): (r: nat)
    ensures r < TWO_80
  {
    ValBound(u.data[TIMESTAMP_LEN..], 256);
    BytePowers();
    Val(u.data[TIMESTAMP_LEN..], 256)
  }

  /** The timestamp occupies the 48 high bits of the value, the random field the 80 low bits. */
  lemma ValueLayout(u: Ulid)
    ensures Value(u) == TimestampOf(u) * TWO_80 + RandomOf(u)
  {
    assert u.data == u.data[..TIMESTAMP_LEN] + u.data[TIMESTAMP_LEN..];
    ValConcat(u.data[..TIMESTAMP_LEN], u.data[TIMESTAMP_LEN..], 256);
    BytePowers();
  }

  // ---------------------------------------------------------------------------
  // Raw bytes

  /** Construct from sixteen raw bytes: a copy, no validation. */
  function FromBytes(bytes: Bytes16): (u: Ulid)
    ensures Value(u) == Val(bytes, 256)
  {
    Ulid(bytes)
  }

  /** The sixteen raw bytes, as an owned copy. */
  function ToBytes(u: Ulid): (bytes: Bytes16)
    ensures Val(bytes, 256) == Value(u)
  {
    u.data
  }

  lemma ToBytesFromBytes(bytes: Bytes16)
    ensures ToBytes(FromBytes(bytes)) == bytes
  {
  }

  lemma FromBytesToBytes(u: Ulid)
    ensures FromBytes(ToBytes(u)) == u
  {
  }

  // ---------------------------------------------------------------------------
  // Ordering

  /** The defaulted three-way comparison: lexicographic over the sixteen bytes. */
  function Compare(a: Ulid, b: Ulid): (r: Ordering)
    ensures r == CompareInt(Value(a), Value(b))
    ensures r == Equal <==> a == b
  {
    LexVal(a.data, b.data, 256);
    Lex(a.data, b.data)
  }

  /** Comparing identifiers compares timestamps first, then random fields. */
  lemma CompareLayout(a: Ulid, b: Ulid)
    ensures Compare(a, b) ==
      if TimestampOf(a) != TimestampOf(b) then CompareInt(TimestampOf(a), TimestampOf(b))
      else CompareInt(RandomOf(a), RandomOf(b))
  {
    ValueLayout(a);
    ValueLayout(b);
    var ta, tb := TimestampOf(a), TimestampOf(b);
    if ta < tb {
      LeadingDigitDecides(ta, tb, TWO_80, RandomOf(a), RandomOf(b));
    } else if tb < ta {
      LeadingDigitDecides(tb, ta, TWO_80, RandomOf(b), RandomOf(a));
    }
  }

  // ---------------------------------------------------------------------------
  // Byte-level routines

  /** x << k on a 64-bit unsigned value: bits moved past bit 63 are lost. */
  function Shl(x: U64, k: nat): U64
  {
    (x * Pow(2, k)) % TWO_64
  }

  /** x >> k on an unsigned value. */
  function Shr(x: nat, k: nat): nat
  {
    x / Pow(2, k)
  }

  /**
    Write the n low bytes of value into out[start..start + n], most
    significant first; nothing else in out changes.
   */
  method WriteBigEndian(value: U64, n: nat, out: array<Byte>, start: nat)
    requires n <= 8 && start + n <= out.Length
    modifies out
    ensures out[start..start + n] == ToDigits(value, n, 256)
    ensures forall k :: 0 <= k < out.Length && !(start <= k < start + n) ==> out[k] == old(out[k])
  {
    for i := 0 to n
      invariant forall k :: 0 <= k < out.Length && !(start <= k < start + i) ==> out[k] == old(out[k])
      invariant forall k :: start <= k < start + i ==> out[k] == ToDigits(value, n, 256)[k - start]
    {
      ShiftedByteIsDigit(value, n, i);
      out[start + i] := Shr(value, 8 * (n - 1 - i)) % 256;   // (value >> ((n - 1 - i) * 8)) & 0xFF
    }
  }

  lemma ShiftedByteIsDigit(value: nat, n: nat, i: nat)
    requires i < n
    ensures Shr(value, 8 * (n - 1 - i)) % 256 == ToDigits(value, n, 256)[i]
  {
    PowMul(2, 8, n - 1 - i);
    assert Pow(2, 8) == 256;
    DigitAt(value, n, 256, i);
  }

  /** The timestamp, accumulated one byte at a time from the most significant. */
  method TimestampMs(u: Ulid) returns (ts: U64)
    ensures ts == TimestampOf(u)
  {
    ts := 0;
    for i := 0 to TIMESTAMP_LEN
      invariant ts == Val(u.data[..i], 256)
    {
      assert u.data[..i + 1][..i] == u.data[..i];
      ValBound(u.data[..i], 256);
      PowMono(256, i, 5);
      BytePowers();
      // (ts << 8) | b: ts holds at most 40 bits here, so nothing is shifted out
      ts := ts * 256 + u.data[i];
    }
    assert u.data[..TIMESTAMP_LEN] == u.data[..6];
  }

  /**
    A fresh identifier from a clock reading and ten random bytes (generate):
    the 48 low bits of ts as the timestamp, the bytes as the random field.
   */
  function Generate(ts: U64, random: seq<Byte>): (u: Ulid)
    requires |random| == RANDOM_LEN
    ensures TimestampOf(u) == ts % TWO_48
    ensures u.data[TIMESTAMP_LEN..] == random
  {
    var stamp := ToDigits(ts, TIMESTAMP_LEN, 256);
    ValToDigits(ts, TIMESTAMP_LEN, 256);
    BytePowers();
    var u := Ulid(stamp + random);
    assert u.data[..TIMESTAMP_LEN] == stamp;
    u
  }

  /** A strictly later timestamp orders an identifier strictly later, whatever the random fields. */
  lemma LaterTimestampIsGreater(a: Ulid, b: Ulid)
    requires TimestampOf(a) < TimestampOf(b)
    ensures Compare(a, b) == Less
  {
    CompareLayout(a, b);
  }
}
