/**
  The readable form `YYYYMMDDThhmmssmmmZ` followed by the 16 random
  symbols of the canonical text (from_readable_string): fixed-position
  decimal fields, range and calendar checks, a pre-epoch rejection, and
  the splice of the random symbols into a canonical text that is then
  decoded.
 */
module Readable {
  import opened Wrappers
  import opened Numerals
  import opened Crockford
  import opened Identifier
  import opened Base32
  import opened Calendar

  const READABLE_LEN: nat := 35
  /** The random symbols occupy s[19..35]; canonical digits 10..25 carry bits 79..0. */
  const TAIL_START: nat := 19
  const TAIL_LEN: nat := 16
  const TIMESTAMP_SYMBOLS: nat := 10
  const TWO_32: nat := 0x1_0000_0000
  const MS_PER_DAY: nat := 86_400_000

  // ---------------------------------------------------------------------------
  // Decimal fields (parse_u32 over std::from_chars)

  predicate IsDigit(c: char) {
    '0' <= c <= '9'
  }

  predicate AllDigits(t: string) {
    forall i :: 0 <= i < |t| ==> IsDigit(t[i])
  }

  function DigitValue(c: char): nat {
    if IsDigit(c) then c as int - '0' as int else 0
  }

  /** The decimal digits a text spells, most significant first. */
  function DecimalDigits(t: string): (ds: seq<nat>)
    ensures |ds| == |t| && AllBelow(ds, 10)
  {
    seq(|t|, i requires 0 <= i < |t| => DigitValue(t[i]))
  }

  /** The zero-padded decimal spelling of n in len characters. */
  function DecimalText(n: nat, len: nat): (t: string)
    ensures |t| == len && AllDigits(t)
  {
    var ds := ToDigits(n, len, 10);
    seq(len, i requires 0 <= i < len => ('0' as int + ds[i]) as char)
  }

  /**
    parse_u32(s, pos, len): std::from_chars into an unsigned 32-bit value
    must consume the whole window. It reads no sign and no blank, and it
    fails on an empty window and on a value above 2^32 - 1.
   */
  function ParseU32(s: string, pos: nat, len: nat): (r: Option<nat>)
    requires pos + len <= |s|
    ensures r.Some? ==> r.value < TWO_32 && r.value < Pow(10, len)
    ensures r.Some? <==> len > 0 && AllDigits(s[pos..pos + len]) && Val(DecimalDigits(s[pos..pos + len]), 10) < TWO_32
  {
    var t := s[pos..pos + len];
    ValBound(DecimalDigits(t), 10);
    if len == 0 || !AllDigits(t) then None
    else
      var v := Val(DecimalDigits(t), 10);
      if v >= TWO_32 then None else Some(v)
  }

  /** A window of at most nine characters never overflows, so it parses exactly when it is all digits. */
  lemma ParseU32Digits(s: string, pos: nat, len: nat)
    requires pos + len <= |s| && 0 < len <= 9
    ensures ParseU32(s, pos, len).Some? <==> AllDigits(s[pos..pos + len])
    ensures ParseU32(s, pos, len).Some? ==> DecimalText(ParseU32(s, pos, len).value, len) == s[pos..pos + len]
  {
    var t := s[pos..pos + len];
    var ds := DecimalDigits(t);
    ValBound(ds, 10);
    TenPowers(len);
    if AllDigits(t) {
      ToDigitsVal(ds, 10);
      var back := DecimalText(Val(ds, 10), len);
      forall i | 0 <= i < len
        ensures back[i] == t[i]
      {
        assert ds[i] == t[i] as int - '0' as int;
      }
    }
  }

  /** Every value below 10^len, written with len digits, parses back to itself. */
  lemma ParseDecimalText(n: nat, len: nat)
    requires 0 < len <= 9 && n < Pow(10, len)
    ensures ParseU32(DecimalText(n, len), 0, len) == Some(n)
  {
    var t := DecimalText(n, len);
    assert t[0..len] == t;
    DecimalTextDigits(n, len);
    ValToDigits(n, len, 10);
    ModSmall(n, Pow(10, len));
    TenPowers(len);
  }

  lemma DecimalTextDigits(n: nat, len: nat)
    ensures DecimalDigits(DecimalText(n, len)) == ToDigits(n, len, 10)
  {
  }

  lemma TenPowers(len: nat)
    requires len <= 9
    ensures Pow(10, len) <= 1_000_000_000 < TWO_32
  {
    PowMono(10, len, 9);
    assert Pow(10, 9) == 1_000_000_000;
  }

  // ---------------------------------------------------------------------------
  // The timestamp fields

  datatype Fields = Fields(year: nat, month: nat, day: nat, hour: nat, minute: nat, second: nat, millis: nat)

  /** The seven fixed-width fields at offsets 0, 4, 6, 9, 11, 13 and 15. */
  function ParseFields(s: string): (r: Option<Fields>)
    requires |s| == READABLE_LEN
    ensures r.Some? <==> forall i :: 0 <= i < 18 && i != 8 ==> IsDigit(s[i])
    ensures r.Some? ==> r.value.year < 10000
  {
    FieldsAreDigits(s);
    var year := ParseU32(s, 0, 4);
    var month := ParseU32(s, 4, 2);
    var day := ParseU32(s, 6, 2);
    var hour := ParseU32(s, 9, 2);
    var minute := ParseU32(s, 11, 2);
    var second := ParseU32(s, 13, 2);
    var millis := ParseU32(s, 15, 3);
    if year.None? || month.None? || day.None? || hour.None? || minute.None? || second.None? || millis.None? then None
    else Some(Fields(year.value, month.value, day.value, hour.value, minute.value, second.value, millis.value))
  }

  lemma FieldsAreDigits(s: string)
    requires |s| == READABLE_LEN
    ensures (ParseU32(s, 0, 4).Some? && ParseU32(s, 4, 2).Some? && ParseU32(s, 6, 2).Some? &&
             ParseU32(s, 9, 2).Some? && ParseU32(s, 11, 2).Some? && ParseU32(s, 13, 2).Some? &&
             ParseU32(s, 15, 3).Some?) <==> forall i :: 0 <= i < 18 && i != 8 ==> IsDigit(s[i])
  {
    WindowParses(s, 0, 4);
    WindowParses(s, 4, 2);
    WindowParses(s, 6, 2);
    WindowParses(s, 9, 2);
    WindowParses(s, 11, 2);
    WindowParses(s, 13, 2);
    WindowParses(s, 15, 3);
  }

  /** A window parses exactly when each of its positions holds a digit. */
  lemma WindowParses(s: string, pos: nat, len: nat)
    requires pos + len <= |s| && 0 < len <= 9
    ensures ParseU32(s, pos, len).Some? <==> forall i :: pos <= i < pos + len ==> IsDigit(s[i])
  {
    ParseU32Digits(s, pos, len);
    var t := s[pos..pos + len];
    if forall i :: pos <= i < pos + len ==> IsDigit(s[i]) {
      WindowDigits(s, pos, len);
    } else {
      var i :| pos <= i < pos + len && !IsDigit(s[i]);
      assert t[i - pos] == s[i];
    }
  }

  lemma WindowDigits(s: string, pos: nat, len: nat)
    requires pos + len <= |s| && forall i :: pos <= i < pos + len ==> IsDigit(s[i])
    ensures AllDigits(s[pos..pos + len])
  {
    var t := s[pos..pos + len];
    forall i | 0 <= i < len
      ensures IsDigit(t[i])
    {
      assert t[i] == s[pos + i];
    }
  }

  /** The basic range checks made before the calendar check. */
  predicate InRange(f: Fields) {
    1 <= f.month <= 12 && 1 <= f.day <= 31 && f.hour <= 23 && f.minute <= 59 && f.second <= 59 && f.millis <= 999
  }

  /** Milliseconds from 1970-01-01T00:00:00.000 to the instant the fields name. */
  function EpochMillis(f: Fields): int
    requires 1 <= f.month <= 12
  {
    DaysFromCivil(f.year, f.month, f.day) * MS_PER_DAY
      + f.hour * 3_600_000 + f.minute * 60_000 + f.second * 1000 + f.millis
  }

  /** The instant is not before the epoch exactly when the year is 1970 or later, and it fits in 48 bits. */
  lemma EpochMillisRange(f: Fields)
    requires InRange(f) && IsDate(f.year, f.month, f.day) && f.year < 10000
    ensures EpochMillis(f) >= 0 <==> f.year >= 1970
    ensures EpochMillis(f) < TWO_48
  {
    NonNegativeFromEpoch(f.year, f.month, f.day);
    DaysBound(f.year, f.month, f.day);
  }

  // ---------------------------------------------------------------------------
  // The parser

  /** A zero identifier with the low 48 bits of ts written into its timestamp bytes. */
  function WithTimestamp(ts: U64): (u: Ulid)
    ensures TimestampOf(u) == ts % TWO_48 && RandomOf(u) == 0
  {
    var zeros: seq<Byte> := seq(RANDOM_LEN, i => 0);
    ValAllZero(zeros, 256);
    Generate(ts, zeros)
  }

  /**
    from_readable_string: None unless the text has length 35 with 'T' at 8
    and 'Z' at 18, its seven fields are decimal, within range, name a
    calendar date and an instant not before the epoch. The milliseconds are
    then cast to uint64, written into the timestamp bytes of a zero
    identifier, whose canonical text keeps its first ten symbols and takes
    the input's last sixteen; that text is decoded.
   */
  function FromReadableString(s: string): (r: Option<Ulid>)
    ensures r.Some? ==> |s| == READABLE_LEN && s[8] == 'T' && s[18] == 'Z'
  {
    if |s| != READABLE_LEN || s[8] != 'T' || s[18] != 'Z' then None
    else
      match ParseFields(s)
      case None => None
      case Some(f) =>
        if !InRange(f) then None
        else if !ValidDate(f.year, f.month, f.day) then None
        else
          var ms := EpochMillis(f);
          if ms < 0 then None
          else
            Decode(Splice(ms % TWO_64, s[TAIL_START..READABLE_LEN]))
  }

  /** The canonical text of a zero identifier with timestamp ts, its last sixteen symbols replaced by tail. */
  function Splice(ts: U64, tail: string): string {
    Encode(WithTimestamp(ts))[..TIMESTAMP_SYMBOLS] + tail
  }

  /** The texts whose timestamp part from_readable_string accepts. */
  predicate ReadableDate(s: string) {
    |s| == READABLE_LEN && s[8] == 'T' && s[18] == 'Z' &&
    ParseFields(s).Some? &&
    var f := ParseFields(s).value;
    InRange(f) && IsDate(f.year, f.month, f.day) && f.year >= 1970
  }

  /** The texts from_readable_string accepts, in terms of their characters and the date they name. */
  predicate Readable(s: string) {
    ReadableDate(s) && DigitsOf(s[TAIL_START..READABLE_LEN]).Some?
  }

  /**
    The parser accepts exactly the readable texts; the identifier it returns
    carries the instant's milliseconds as its timestamp and the value of the
    sixteen random symbols as its random field.
   */
  lemma FromReadableStringMeaning(s: string)
    ensures FromReadableString(s).Some? <==> Readable(s)
    ensures FromReadableString(s).Some? ==>
      var f := ParseFields(s).value;
      TimestampOf(FromReadableString(s).value) == EpochMillis(f) &&
      RandomOf(FromReadableString(s).value) == Val(DigitsOf(s[TAIL_START..READABLE_LEN]).value, 32)
  {
    if ReadableDate(s) {
      var ms := SplicedText(s);
      SpliceDecode(ms, s[TAIL_START..READABLE_LEN]);
    } else {
      RejectedDate(s);
    }
  }

  /** For a readable date, the parser decodes the splice of the tail after the instant's ten symbols. */
  lemma SplicedText(s: string) returns (ms: nat)
    requires ReadableDate(s)
    ensures ms == EpochMillis(ParseFields(s).value) && ms < TWO_48
    ensures FromReadableString(s) == Decode(Splice(ms, s[TAIL_START..READABLE_LEN]))
  {
    var f := ParseFields(s).value;
    EpochMillisRange(f);
    ms := EpochMillis(f);
    ModSmall(ms, TWO_64);
  }

  /** Texts whose timestamp part is not readable are rejected. */
  lemma RejectedDate(s: string)
    requires !ReadableDate(s)
    ensures FromReadableString(s) == None
  {
    if |s| == READABLE_LEN && s[8] == 'T' && s[18] == 'Z' && ParseFields(s).Some? {
      var f := ParseFields(s).value;
      if InRange(f) && IsDate(f.year, f.month, f.day) {
        EpochMillisRange(f);
      }
    }
  }

  /**
    Splicing: the first ten canonical symbols of a zero identifier with
    timestamp ts, followed by sixteen symbols, decode exactly when those
    symbols do, to timestamp ts and random field their value.
   */
  lemma SpliceDecode(ts: nat, tail: string)
    requires ts < TWO_48 && |tail| == TAIL_LEN
    ensures var r := Decode(Splice(ts, tail));
      (r.Some? <==> DigitsOf(tail).Some?) &&
      (r.Some? ==> TimestampOf(r.value) == ts && RandomOf(r.value) == Val(DigitsOf(tail).value, 32))
  {
    ModSmall(ts, TWO_48);
    var head := Spell(ToDigits(ts, TIMESTAMP_SYMBOLS, 32));
    TimestampSymbols(ts);
    var canonical := head + tail;
    SpellDigits(ToDigits(ts, TIMESTAMP_SYMBOLS, 32));
    DigitsOfConcat(head, tail);
    if DigitsOf(tail).Some? {
      SplicedValue(ts, DigitsOf(tail).value, Decode(canonical));
    }
  }

  /** The first ten canonical symbols of a zero identifier spell the timestamp in ten base-32 digits. */
  lemma TimestampSymbols(ts: nat)
    requires ts < TWO_48
    ensures Encode(WithTimestamp(ts))[..TIMESTAMP_SYMBOLS] == Spell(ToDigits(ts, TIMESTAMP_SYMBOLS, 32))
  {
    TimestampOnlyValue(ts);
    SpellPrefix(ts, TIMESTAMP_SYMBOLS, TAIL_LEN);
  }

  /** The first k symbols of hi followed by m zero digits spell hi in k digits. */
  lemma SpellPrefix(hi: nat, k: nat, m: nat)
    ensures Spell(ToDigits(hi * Pow(32, m) + 0, k + m, 32))[..k] == Spell(ToDigits(hi, k, 32))
  {
    ToDigitsConcat(hi, 0, k, m, 32);
    var d := ToDigits(hi, k, 32);
    var all := d + ToDigits(0, m, 32);
    var e := Spell(ToDigits(hi * Pow(32, m) + 0, k + m, 32));
    forall i | 0 <= i < k
      ensures e[i] == Spell(d)[i]
    {
      assert all[i] == d[i];
    }
  }

  /** Ten base-32 digits hold a 48-bit timestamp exactly, with a leading digit below 8. */
  lemma TimestampDigits(ts: nat)
    requires ts < TWO_48
    ensures Val(ToDigits(ts, TIMESTAMP_SYMBOLS, 32), 32) == ts
    ensures ToDigits(ts, TIMESTAMP_SYMBOLS, 32)[0] < 8
  {
    SymbolPowers();
    DigitAt(ts, TIMESTAMP_SYMBOLS, 32, 0);
    LeadingTimestampDigit(ts);
    ValToDigits(ts, TIMESTAMP_SYMBOLS, 32);
    ModSmall(ts, Pow(32, TIMESTAMP_SYMBOLS));
  }

  lemma LeadingTimestampDigit(ts: nat)
    requires ts < TWO_48
    ensures (ts / 0x2000_0000_0000) % 32 < 8
  {
    var q := ts / 0x2000_0000_0000;
    assert q < 8;
    ModSmall(q, 32);
  }

  lemma TimestampOnlyValue(ts: nat)
    requires ts < TWO_48
    ensures Value(WithTimestamp(ts)) == ts * Pow(32, TAIL_LEN) + 0
  {
    ModSmall(ts, TWO_48);
    ValueLayout(WithTimestamp(ts));
    SymbolPowers();
  }

  lemma SymbolPowers()
    ensures Pow(32, 16) == TWO_80 && Pow(32, 9) == 0x2000_0000_0000 && Pow(32, 10) == 0x4_0000_0000_0000
  {
  }

  /** The decoded splice: leading digit below 8, value ts * 2^80 + the tail's value. */
  lemma SplicedValue(ts: nat, t: seq<nat>, r: Option<Ulid>)
    requires ts < TWO_48 && |t| == TAIL_LEN && AllBelow(t, 32)
    requires var ds := ToDigits(ts, TIMESTAMP_SYMBOLS, 32) + t;
      (r.Some? <==> ds[0] < 8) && (r.Some? ==> r.value == Ulid(ToDigits(Val(ds, 32), 16, 256)))
    ensures r.Some? && TimestampOf(r.value) == ts && RandomOf(r.value) == Val(t, 32)
  {
    var ds := ToDigits(ts, TIMESTAMP_SYMBOLS, 32) + t;
    SplicedNumber(ts, t);
    var n := Val(ds, 32);
    BytesValue(n);
    var u := r.value;
    assert Value(u) == n;
    ValueLayout(u);
    DivModUnique(n, TWO_80, ts, Val(t, 32));
    DivModUnique(n, TWO_80, TimestampOf(u), RandomOf(u));
  }

  /** Ten timestamp digits followed by sixteen digits: the leading digit is below 8 and the value is ts * 2^80 plus the tail. */
  lemma SplicedNumber(ts: nat, t: seq<nat>)
    requires ts < TWO_48 && |t| == TAIL_LEN && AllBelow(t, 32)
    ensures var ds := ToDigits(ts, TIMESTAMP_SYMBOLS, 32) + t;
      ds[0] < 8 && Val(ds, 32) == ts * TWO_80 + Val(t, 32) && Val(t, 32) < TWO_80 && Val(ds, 32) < TWO_128
  {
    var d := ToDigits(ts, TIMESTAMP_SYMBOLS, 32);
    TimestampDigits(ts);
    assert (d + t)[0] == d[0];
    ValConcat(d, t, 32);
    SymbolPowers();
    ValBound(t, 32);
    var v := Val(t, 32);
    assert Val(d + t, 32) == ts * TWO_80 + v;
    MulLe(ts, TWO_48 - 1, TWO_80);
  }
}
