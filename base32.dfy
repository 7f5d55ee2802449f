/**
  The canonical text of an identifier: 26 Crockford Base32 digits covering bits
  125..0 of the 128-bit value, five bits per digit, most significant first.
  Encoding never fails; decoding accepts either case and the look-alike
  letters, and rejects a wrong length, a character outside the alphabet and a
  text whose value needs bit 128 or 129.
 */
module Base32 {
  import opened Wrappers
  import opened Numerals
  import opened Crockford
  import opened Identifier

  const CANONICAL_LEN: nat := 26

  const TWO_59: nat := 0x800_0000_0000_0000
  const TWO_125: nat := 0x2000_0000_0000_0000_0000_0000_0000_0000
  const TWO_130: nat := 0x4_0000_0000_0000_0000_0000_0000_0000_0000
  const TWO_192: nat := 0x1_0000_0000_0000_0000_0000_0000_0000_0000_0000_0000_0000_0000

  lemma DigitPowers()
    ensures Pow(32, 25) == TWO_125 && Pow(32, 26) == TWO_130
    ensures Pow(2, 64) == TWO_64
  {
    PowMul(32, 5, 5);
    assert Pow(32, 5) == 0x200_0000;
    assert Pow(0x200_0000, 5) == TWO_125;
    assert Pow(32, 26) == 32 * Pow(32, 25);
    PowMul(2, 8, 8);
    assert Pow(2, 8) == 256;
    BytePowers();
  }

  // ---------------------------------------------------------------------------
  // Specification

  /** The canonical text (to_string): the 26 base-32 digits of the value, spelled in the output alphabet. */
  function Encode(u: Ulid): (s: string)
    ensures |s| == CANONICAL_LEN
  {
    Spell(ToDigits(Value(u), CANONICAL_LEN, 32))
  }

  /**
    The canonical text uses only upper-case output symbols, and its first
    symbol is one of 0..7, since only three bits are left for it.
   */
  lemma EncodeIsCanonical(u: Ulid)
    ensures forall i :: 0 <= i < |Encode(u)| ==> Encode(u)[i] in ENCODING && !('a' <= Encode(u)[i] <= 'z')
    ensures Encode(u)[0] in ENCODING[..8]
  {
    var ds := ToDigits(Value(u), CANONICAL_LEN, 32);
    LeadingDigitBelowEight(Value(u));
    var s := Spell(ds);
    forall i | 0 <= i < |s|
      ensures s[i] in ENCODING && !('a' <= s[i] <= 'z')
    {
      SpellNormalized(ds, i);
    }
    assert ENCODING[..8][ds[0]] == s[0];
  }

  /** Digit 0 sees only bits 127..125 of a 128-bit value, so it is at most 7. */
  lemma LeadingDigitBelowEight(n: nat)
    requires n < TWO_128
    ensures ToDigits(n, CANONICAL_LEN, 32)[0] < 8
  {
    DigitAt(n, CANONICAL_LEN, 32, 0);
    DigitPowers();
  }

  /**
    The value a text decodes to (from_string): None when the length is not 26,
    when a character is outside the alphabet, or when bit 128 or 129 is set.
   */
  function Decode(s: string): (r: Option<Ulid>)
    ensures r.Some? <==> |s| == CANONICAL_LEN && DigitsOf(s).Some? && DigitsOf(s).value[0] < 8
  {
    if |s| != CANONICAL_LEN then None
    else
      match DigitsOf(s)
      case None => None
      case Some(ds) =>
        var n := Val(ds, 32);
        CanonicalIffLeadingDigit(ds);
        if n >= TWO_128 then None
        else Some(Ulid(ToDigits(n, 16, 256)))
  }

  /** A 26-digit numeral fits in 128 bits exactly when its leading digit is at most 7. */
  lemma CanonicalIffLeadingDigit(ds: seq<nat>)
    requires |ds| == CANONICAL_LEN && AllBelow(ds, 32)
    ensures Val(ds, 32) < TWO_128 <==> ds[0] < 8
  {
    ValFront(ds, 32);
    ValBound(ds[1..], 32);
    DigitPowers();
    if ds[0] < 8 {
      MulLe(ds[0], 7, TWO_125);
    } else {
      MulLe(8, ds[0], TWO_125);
    }
  }

  // ---------------------------------------------------------------------------
  // Encoding, as the source computes it

  /** The 128-bit value (hi << 64) | lo. */
  function Join(hi: U64, lo: U64): nat
  {
    hi * TWO_64 + lo
  }

  /**
    Digit index of the 128-bit value (hi << 64) | lo: bits 129 - 5 * index down
    to 125 - 5 * index, so bit 125 - 5 * index is the digit's least significant bit.
   */
  function ExtractDigit(hi: U64, lo: U64, index: nat): (d: nat)
    requires index < CANONICAL_LEN
    ensures d == Shr(Join(hi, lo), 125 - 5 * index) % 32
  {
    var shift := 125 - 5 * index;
    if shift == 0 then
      LowDigit(hi, lo);
      lo % 32
    else if shift < 64 then
      // the shifted hi has its low 64 - shift bits clear and lo >> shift fits
      // in them, so the or of the two is their sum
      MiddleDigit(hi, lo, shift);
      var part: U64 := Shl(hi, 64 - shift) + Shr(lo, shift);
      part % 32
    else
      HighDigit(hi, lo, shift);
      Shr(hi, shift - 64) % 32
  }

  lemma LowDigit(hi: U64, lo: U64)
    ensures Shr(Join(hi, lo), 0) % 32 == lo % 32
  {
    ModAddMultiple(lo, hi * TWO_59, 32);
  }

  lemma MiddleDigit(hi: U64, lo: U64, shift: nat)
    requires 0 < shift < 64
    ensures Shl(hi, 64 - shift) + Shr(lo, shift) < TWO_64
    ensures (Shl(hi, 64 - shift) + Shr(lo, shift)) % 32 == Shr(Join(hi, lo), shift) % 32
  {
    SplitTwo64(shift);
    StraddlingDigit(hi, lo, Pow(2, shift), Pow(2, 64 - shift));
  }

  lemma SplitTwo64(shift: nat)
    requires shift <= 64
    ensures Pow(2, shift) * Pow(2, 64 - shift) == TWO_64
  {
    PowAdd(2, shift, 64 - shift);
    DigitPowers();
  }

  lemma StraddlingDigit(hi: U64, lo: U64, q: nat, p: nat)
    requires q > 0 && p > 0 && q * p == TWO_64
    ensures (hi * p) % TWO_64 + lo / q < TWO_64
    ensures ((hi * p) % TWO_64 + lo / q) % 32 == ((hi * TWO_64 + lo) / q) % 32
  {
    ShiftRightSplit(hi, lo, q, p);
    ShiftLeftLowBits(hi, q, p);
    DisjointFields(hi % q, lo, q, p);
    DropHighBits(hi * p, lo / q);
  }

  /** (hi * 2^64 + lo) >> shift, where q = 2^shift and p = 2^(64 - shift). */
  lemma ShiftRightSplit(hi: nat, lo: nat, q: nat, p: nat)
    requires q > 0 && q * p == TWO_64
    ensures (hi * TWO_64 + lo) / q == hi * p + lo / q
  {
    assert lo == q * (lo / q) + lo % q;
    assert q * (hi * p) == hi * TWO_64;
    DivModUnique(hi * TWO_64 + lo, q, hi * p + lo / q, lo % q);
  }

  /** The bits of hi << (64 - shift) that stay in 64 bits are the low shift bits of hi. */
  lemma ShiftLeftLowBits(hi: nat, q: nat, p: nat)
    requires q > 0 && p > 0 && q * p == TWO_64
    ensures (hi * p) % TWO_64 == p * (hi % q)
  {
    MulDivCancel(hi, p);
    assert p * q == TWO_64;
    ModDiv(p * hi, p, q);
    assert hi * p == p * hi;
  }

  lemma MulDivCancel(x: nat, p: nat)
    requires p > 0
    ensures (p * x) / p == x && (p * x) % p == 0
  {
    DivModUnique(p * x, p, x, 0);
  }

  /** A field below bit 64 - shift and one at or above it fit together in 64 bits. */
  lemma DisjointFields(h: nat, lo: nat, q: nat, p: nat)
    requires q > 0 && p > 0 && q * p == TWO_64 && h < q && lo < TWO_64
    ensures p * h + lo / q < TWO_64
  {
    MulLe(h, q - 1, p);
    assert p * h <= TWO_64 - p;
    DivModUnique(lo, q, lo / q, lo % q);
    if lo / q >= p {
      MulLe(p, lo / q, q);
    }
  }

  /** Dropping whole multiples of 2^64 keeps the low five bits. */
  lemma DropHighBits(x: nat, y: nat)
    ensures (x % TWO_64 + y) % 32 == (x + y) % 32
  {
    var high := x / TWO_64;
    assert x == x % TWO_64 + TWO_64 * high;
    ModAddMultiple(x % TWO_64 + y, TWO_59 * high, 32);
  }

  lemma HighDigit(hi: U64, lo: U64, shift: nat)
    requires 64 <= shift <= 125
    ensures Shr(Join(hi, lo), shift) % 32 == Shr(hi, shift - 64) % 32
  {
    var n := hi * TWO_64 + lo;
    PowAdd(2, 64, shift - 64);
    DigitPowers();
    DivDiv(n, TWO_64, Pow(2, shift - 64));
    DivModUnique(n, TWO_64, hi, lo);
  }

  /** ExtractDigit picks digit index of the canonical numeral. */
  lemma ExtractDigitIsDigit(hi: U64, lo: U64, index: nat)
    requires index < CANONICAL_LEN
    ensures ExtractDigit(hi, lo, index) == ToDigits(Join(hi, lo), CANONICAL_LEN, 32)[index]
  {
    DigitAt(Join(hi, lo), CANONICAL_LEN, 32, index);
    PowMul(2, 5, 25 - index);
    assert Pow(2, 5) == 32;
  }

  /** The canonical text of sixteen bytes (encode_base32). */
  method EncodeBase32(bytes: Bytes16) returns (out: string)
    ensures out == Encode(Ulid(bytes))
  {
    // the 16 bytes as one 128-bit big-endian integer N = hi * 2^64 + lo
    var hi := LoadBigEndian(bytes, 0);
    var lo := LoadBigEndian(bytes, 8);
    assert bytes[0..8] == bytes[..8] && bytes[8..16] == bytes[8..];
    HalvesValue(bytes);
    assert Value(Ulid(bytes)) == Join(hi, lo);
    ghost var digits := ToDigits(Join(hi, lo), CANONICAL_LEN, 32);
    ghost var text := Spell(digits);
    assert Encode(Ulid(bytes)) == text;

    var buf := new char[CANONICAL_LEN](_ => '0');
    for i := 0 to CANONICAL_LEN
      invariant forall k :: 0 <= k < i ==> buf[k] == text[k]
    {
      var digit := ExtractDigit(hi, lo, i);
      ExtractDigitIsDigit(hi, lo, i);
      SpellAt(digits, i);
      buf[i] := ENCODING[digit];
    }
    SameChars(buf[..], text);
    out := buf[..];
  }

  lemma SpellAt(ds: seq<nat>, i: nat)
    requires AllBelow(ds, 32) && i < |ds|
    ensures Spell(ds)[i] == ENCODING[ds[i]]
  {
  }

  lemma SameChars(a: string, b: string)
    requires |a| == |b| && forall k :: 0 <= k < |a| ==> a[k] == b[k]
    ensures a == b
  {
  }

  /** The value of sixteen bytes, as the high and low eight read separately. */
  lemma HalvesValue(bytes: Bytes16)
    ensures Value(Ulid(bytes)) == Val(bytes[..8], 256) * TWO_64 + Val(bytes[8..], 256)
  {
    assert bytes == bytes[..8] + bytes[8..];
    ValConcat(bytes[..8], bytes[8..], 256);
    BytePowers();
  }

  /** Eight bytes from start read as one big-endian 64-bit integer, shifting each in from the right. */
  method LoadBigEndian(bytes: Bytes16, start: nat) returns (v: U64)
    requires start + 8 <= 16
    ensures v == Val(bytes[start..start + 8], 256)
  {
    v := 0;
    for i := start to start + 8
      invariant v == Val(bytes[start..i], 256)
    {
      AccumulateByte(bytes[start..start + 8], i - start);
      assert bytes[start..start + 8][..i - start] == bytes[start..i];
      assert bytes[start..start + 8][..i - start + 1] == bytes[start..i + 1];
      v := v * 256 + bytes[i];   // (v << 8) | bytes[i]
    }
  }

  /** Reading one more byte of an eight-byte half stays within 64 bits. */
  lemma AccumulateByte(half: seq<Byte>, i: nat)
    requires |half| == 8 && i < 8
    ensures Val(half[..i + 1], 256) == Val(half[..i], 256) * 256 + half[i]
    ensures Val(half[..i + 1], 256) < TWO_64
  {
    assert half[..i + 1][..i] == half[..i];
    ValBound(half[..i + 1], 256);
    PowMono(256, i + 1, 8);
    BytePowers();
  }

  // ---------------------------------------------------------------------------
  // Decoding, as the source computes it

  /** The two low limbs as one 128-bit value. */
  function Low128(acc: seq<U64>): nat
    requires |acc| == 3
  {
    Join(acc[1], acc[0])
  }

  /** The value held by the three-limb accumulator, acc[0] the least significant limb. */
  function Acc(acc: seq<U64>): nat
    requires |acc| == 3
  {
    acc[0] + TWO_64 * acc[1] + TWO_128 * acc[2]
  }

  /** A 192-bit value shifted left by five bits, with d in the vacated bits. */
  function Shifted(x: nat, d: nat): nat
  {
    (32 * x + d) % TWO_192
  }

  /**
    Shift the 192-bit accumulator left by five bits and put digit in the
    vacated bits, limb by limb from the least significant, carrying the five
    bits each limb shifts out into the next; the top limb's carry is lost.
   */
  method ShiftIn(acc: array<U64>, digit: nat)
    requires acc.Length == 3 && digit < 32
    modifies acc
    ensures Acc(acc[..]) == Shifted(old(Acc(acc[..])), digit)
  {
    ghost var o := acc[..];
    var carry: U64 := digit;
    for j := 0 to 3
      invariant forall l :: 0 <= l < j ==> acc[l] == (o[l] * 32) % TWO_64 + CarryInto(o, digit, l)
      invariant forall l :: j <= l < 3 ==> acc[l] == o[l]
      invariant carry == CarryInto(o, digit, j)
    {
      LimbFits(acc[j], carry);
      var newCarry: U64 := acc[j] / TWO_59;          // a >> (64 - 5)
      acc[j] := (acc[j] * 32) % TWO_64 + carry;      // (a << 5) | carry: the shift clears the low five bits
      carry := newCarry;
    }
    ShiftedAccumulator(o, acc[..], digit);
  }

  /** The five bits carried into limb l: the new digit for the lowest, else the top bits of the limb below. */
  ghost function CarryInto(o: seq<U64>, digit: nat, l: nat): nat
    requires l <= |o|
  {
    if l == 0 then digit else o[l - 1] / TWO_59
  }

  lemma LimbFits(a: U64, carry: nat)
    requires carry < 32
    ensures (a * 32) % TWO_64 + carry < TWO_64
    ensures a / TWO_59 < 32
  {
    ShiftLimb(a, carry);
  }

  lemma ShiftedAccumulator(o: seq<U64>, n: seq<U64>, digit: nat)
    requires |o| == 3 && |n| == 3 && digit < 32
    requires n[0] == (o[0] * 32) % TWO_64 + digit
    requires n[1] == (o[1] * 32) % TWO_64 + o[0] / TWO_59
    requires n[2] == (o[2] * 32) % TWO_64 + o[1] / TWO_59
    ensures Acc(n) == Shifted(Acc(o), digit)
  {
    ShiftLimb(o[0], digit);
    ShiftLimb(o[1], 0);
    ShiftLimb(o[2], 0);
    var lost := o[2] / TWO_59;
    assert 32 * Acc(o) + digit == Acc(n) + TWO_192 * lost;
    DivModUnique(32 * Acc(o) + digit, TWO_192, lost, Acc(n));
  }

  /** One limb shifted left by five: what stays in the limb and what carries out. */
  lemma ShiftLimb(a: U64, carry: nat)
    requires carry < 32
    ensures (a * 32) % TWO_64 + carry < TWO_64
    ensures a / TWO_59 < 32
    ensures a * 32 == (a * 32) % TWO_64 + TWO_64 * (a / TWO_59)
  {
    DivDiv(a * 32, 32, TWO_59);
    ModDiv(a * 32, 32, TWO_59);
    ModAddMultiple(0, a, 32);
    assert (a * 32) % TWO_64 == 32 * (a % TWO_59);
    DivModUnique(a * 32, TWO_64, a / TWO_59, 32 * (a % TWO_59));
  }

  /** The identifier a canonical text stands for (from_string). */
  method FromString(s: string) returns (r: Option<Ulid>)
    ensures r == Decode(s)
  {
    if |s| != CANONICAL_LEN {
      return None;
    }
    var acc := new U64[3](_ => 0);   // 192-bit accumulator, acc[0] least significant
    for i := 0 to CANONICAL_LEN
      invariant DigitsOf(s[..i]).Some?
      invariant Acc(acc[..]) == Val(DigitsOf(s[..i]).value, 32)
    {
      var v := DecodeCrockford(s[i]);
      if v.None? {
        RejectsCharacter(s, i);
        return None;
      }
      ghost var before := Acc(acc[..]);
      ShiftIn(acc, v.value);
      ReadStep(s, i, before, Acc(acc[..]));
    }
    ReadAll(s, acc[..]);
    r := LimbsToUlid(acc);
  }

  /** The accumulator keeps the value of the digits read so far. */
  lemma ReadStep(s: string, i: nat, before: nat, after: nat)
    requires i < |s| && i < CANONICAL_LEN && DigitsOf(s[..i]).Some? && DecodeCrockford(s[i]).Some?
    requires before == Val(DigitsOf(s[..i]).value, 32)
    requires after == Shifted(before, DecodeCrockford(s[i]).value)
    ensures DigitsOf(s[..i + 1]).Some? && after == Val(DigitsOf(s[..i + 1]).value, 32)
  {
    DigitsOfStep(s, i);
    AccumulateDigit(DigitsOf(s[..i]).value, DecodeCrockford(s[i]).value);
  }

  /** Once all 26 digits are in, the top limb decides and the low limbs are the value. */
  lemma ReadAll(s: string, acc: seq<U64>)
    requires |s| == CANONICAL_LEN && |acc| == 3
    requires DigitsOf(s[..CANONICAL_LEN]).Some? && Acc(acc) == Val(DigitsOf(s[..CANONICAL_LEN]).value, 32)
    ensures Decode(s) == if acc[2] % 4 != 0 then None else Some(Ulid(ToDigits(Low128(acc), 16, 256)))
  {
    assert s[..CANONICAL_LEN] == s;
    DecodeValue(s);
    TopLimb(acc, Val(DigitsOf(s).value, 32));
  }

  /**
    The tail of from_string: reject when bit 128 or 129 is set (the two low
    bits of acc[2]), else write acc[1] then acc[0] big-endian into 16 bytes.
   */
  method LimbsToUlid(acc: array<U64>) returns (r: Option<Ulid>)
    requires acc.Length == 3
    ensures acc[2] % 4 != 0 ==> r == None
    ensures acc[2] % 4 == 0 ==> r == Some(Ulid(ToDigits(Low128(acc[..]), 16, 256)))
  {
    if acc[2] % 4 != 0 {   // acc[2] & 0x3
      return None;
    }
    var ulid := new Byte[16](_ => 0);
    WriteBigEndian(acc[1], 8, ulid, 0);   // bits 64..127
    ghost var high := ulid[0..8];
    WriteBigEndian(acc[0], 8, ulid, 8);   // bits 0..63
    assert ulid[0..8] == high;
    assert ulid[..] == ulid[0..8] + ulid[8..16];
    LimbsToBytes(acc[1], acc[0], Low128(acc[..]));
    r := Some(Ulid(ulid[..]));
  }

  /** Decode of a text of 26 accepted characters, in terms of the value of its digits. */
  lemma DecodeValue(s: string)
    requires |s| == CANONICAL_LEN && DigitsOf(s).Some?
    ensures Val(DigitsOf(s).value, 32) < TWO_130
    ensures Decode(s) == if Val(DigitsOf(s).value, 32) >= TWO_128 then None
                         else Some(Ulid(ToDigits(Val(DigitsOf(s).value, 32), 16, 256)))
  {
    ValBound(DigitsOf(s).value, 32);
    DigitPowers();
  }

  /** The two low limbs, written big-endian one after the other, are the 16 bytes of the value. */
  lemma LimbsToBytes(high: U64, low: U64, n: nat)
    requires n == high * TWO_64 + low
    ensures ToDigits(high, 8, 256) + ToDigits(low, 8, 256) == ToDigits(n, 16, 256)
  {
    BytePowers();
    ToDigitsConcat(high, low, 8, 8, 256);
  }

  /** Reading one more accepted character appends its digit. */
  lemma DigitsOfStep(s: string, i: nat)
    requires i < |s| && DigitsOf(s[..i]).Some? && DecodeCrockford(s[i]).Some?
    ensures DigitsOf(s[..i + 1]) == Some(DigitsOf(s[..i]).value + [DecodeCrockford(s[i]).value])
  {
    assert s[..i + 1] == s[..i] + [s[i]];
    DigitsOfConcat(s[..i], [s[i]]);
    assert DigitsOf([s[i]]).value == [DecodeCrockford(s[i]).value];
  }

  /** With at most 26 digits the accumulator never overflows its 192 bits. */
  lemma AccumulateDigit(ds: seq<nat>, d: nat)
    requires |ds| < CANONICAL_LEN && AllBelow(ds, 32) && d < 32
    ensures Shifted(Val(ds, 32), d) == Val(ds + [d], 32)
  {
    assert (ds + [d])[..|ds|] == ds;
    ValLast(ds + [d], 32);
    ShortNumeralBound(ds);
    ShiftedExact(Val(ds, 32), d);
  }

  lemma ShortNumeralBound(ds: seq<nat>)
    requires |ds| < CANONICAL_LEN && AllBelow(ds, 32)
    ensures Val(ds, 32) < TWO_125
  {
    ValBound(ds, 32);
    PowMono(32, |ds|, 25);
    DigitPowers();
  }

  /** Below 2^125 nothing is shifted out of the 192 bits. */
  lemma ShiftedExact(v: nat, d: nat)
    requires v < TWO_125 && d < 32
    ensures Shifted(v, d) == v * 32 + d
  {
    MulLe(v, TWO_125, 32);
    DivModUnique(32 * v + d, TWO_192, 0, 32 * v + d);
  }

  /** A value below 2^130 exceeds 128 bits exactly when the two low bits of the top limb are not both clear. */
  lemma TopLimb(acc: seq<U64>, n: nat)
    requires |acc| == 3 && Acc(acc) == n && n < TWO_130
    ensures acc[2] % 4 != 0 <==> n >= TWO_128
    ensures acc[2] % 4 == 0 ==> n == Low128(acc)
  {
    assert acc[0] + TWO_64 * acc[1] < TWO_128;
    assert acc[2] < 4;
  }

  // ---------------------------------------------------------------------------
  // Properties

  /** Every identifier survives the trip through its canonical text. */
  lemma DecodeEncode(u: Ulid)
    ensures Decode(Encode(u)) == Some(u)
  {
    var n := Value(u);
    var ds := ToDigits(n, CANONICAL_LEN, 32);
    assert Encode(u) == Spell(ds);
    SpellDigits(ds);
    DigitsValue(n);
    ToDigitsVal(u.data, 256);
    assert ToDigits(n, 16, 256) == u.data;
  }

  /** The 26 canonical digits of a 128-bit value evaluate back to it. */
  lemma DigitsValue(n: nat)
    requires n < TWO_128
    ensures Val(ToDigits(n, CANONICAL_LEN, 32), 32) == n
  {
    ValToDigits(n, CANONICAL_LEN, 32);
    DigitPowers();
    DivModUnique(n, TWO_130, 0, n);
  }

  /** The text of the text of a value: per character, its upper case with O read as 0 and I, L as 1. */
  function NormalizedText(s: string): string
  {
    seq(|s|, i requires 0 <= i < |s| => Normalize(s[i]))
  }

  /** Whatever text a value was decoded from, re-encoding gives the normalized text. */
  lemma EncodeDecode(s: string)
    requires Decode(s).Some?
    ensures Encode(Decode(s).value) == NormalizedText(s)
  {
    var ds := DigitsOf(s).value;
    var n := Val(ds, 32);
    var u := Decode(s).value;
    assert n < TWO_128 && u.data == ToDigits(n, 16, 256);
    BytesValue(n);
    assert Value(u) == n;
    ToDigitsVal(ds, 32);
    assert Encode(u) == Spell(ds);
    SpellOfDigits(s);
  }

  /** The 16 bytes of a 128-bit value evaluate back to it. */
  lemma BytesValue(n: nat)
    requires n < TWO_128
    ensures Val(ToDigits(n, 16, 256), 256) == n
  {
    ValToDigits(n, 16, 256);
    BytePowers();
    DivModUnique(n, TWO_128, 0, n);
  }

  /** Decoding does not depend on letter case. */
  lemma DecodeIgnoresCase(s: string)
    ensures Decode(UpperCase(s)) == Decode(s)
    ensures Decode(LowerCase(s)) == Decode(s)
  {
    DigitsOfIgnoresCase(s);
  }

  /** A text with a character outside the alphabet is rejected. */
  lemma RejectsCharacter(s: string, i: nat)
    requires i < |s| && DecodeCrockford(s[i]).None?
    ensures Decode(s) == None
  {
  }

  /** A text whose leading character stands for 8 or more has bit 128 or 129 set and is rejected. */
  lemma RejectsHighBits(s: string)
    requires |s| == CANONICAL_LEN && DigitsOf(s).Some?
    requires DecodeCrockford(s[0]).value >= 8
    ensures Decode(s) == None
  {
    DigitsOfNormalizes(s, 0);
  }

  /** The character codes of a text, as the standard string comparison sees them. */
  function Ords(s: string): seq<int>
  {
    seq(|s|, i requires 0 <= i < |s| => s[i] as int)
  }

  /** Text order of canonical encodings is the identifiers' order. */
  lemma EncodePreservesOrder(u: Ulid, v: Ulid)
    ensures Lex(Ords(Encode(u)), Ords(Encode(v))) == Compare(u, v)
  {
    var du := ToDigits(Value(u), CANONICAL_LEN, 32);
    var dv := ToDigits(Value(v), CANONICAL_LEN, 32);
    LexVal(du, dv, 32);
    DigitsValue(Value(u));
    DigitsValue(Value(v));
    assert Lex(du, dv) == Compare(u, v);
    var fu, fv := Ords(Spell(du)), Ords(Spell(dv));
    assert Encode(u) == Spell(du) && Encode(v) == Spell(dv);
    forall i, j | 0 <= i < |du| && 0 <= j < |dv|
      ensures (du[i] < dv[j] <==> fu[i] < fv[j]) && (du[i] == dv[j] <==> fu[i] == fv[j])
    {
      assert fu[i] == ENCODING[du[i]] as int;
      assert fv[j] == ENCODING[dv[j]] as int;
      if du[i] < dv[j] {
        EncodingIncreasing(du[i], dv[j]);
      } else if dv[j] < du[i] {
        EncodingIncreasing(dv[j], du[i]);
      }
    }
    LexMonotoneMap(du, dv, fu, fv);
  }
}
