# ULID core in Dafny

This project is a Dafny model of the core of the single-header C++ ULID library `ulid.hpp`. A ULID (Universally Unique Lexicographically Sortable Identifier) is 16 bytes read as one 128-bit big-endian number:
- bytes 0..5 hold a 48-bit millisecond timestamp;
- bytes 6..15 hold an 80-bit random field.

The model covers the following:

- **Byte layout** (`identifier.dfy`, module `Identifier`).
  - The identifier value and its timestamp and random fields.
  - `from_bytes` / `to_bytes`, `timestamp_ms` (a loop), `write_big_endian` (a loop over an array) and the defaulted `operator<=>`.
  - `generate`, as a pure function of a clock reading and ten random bytes.
- **Crockford Base32** (`crockford.dfy`, module `Crockford`).
  - The output alphabet and the faithful `decode_crockford` switch.
  - The decode accepts `O`/`o` as 0 and `I`, `i`, `L`, `l` as 1, in either case.
  - The switch is related to an independent code-point table.
- **Canonical text** (`base32.dfy`, module `Base32`).
  - `encode_base32` builds `hi`/`lo` in loops and extracts 26 five-bit digits with `extract_digit`'s shift/mask arithmetic on 64-bit words.
  - `from_string` shifts each symbol into a three-limb 192-bit accumulator and rejects bits 128 and 129.
  - Both methods are proved against the specification functions `Encode` and `Decode`. `Decode(Encode(u)) == Some(u)` for every identifier; `Encode(Decode(s))` is `s` upper-cased, with O read as 0 and I/L as 1.
- **Monotonic generation** (`monotonic.dfy`, module `Monotonic`).
  - `increment_big_endian` is an in-place carry loop over a 10-byte window of an array.
  - `generate_monotonic` is a `Generator` class that keeps the last identifier, the last clock reading and a `have_last` flag. Its step takes the clock reading and ten random bytes as parameters.
- **Readable form** (`calendar.dfy` and `readable.dfy`, modules `Calendar` and `Readable`).
  - `from_readable_string` parses `YYYYMMDDThhmmssmmmZ` followed by 16 Base32 symbols.
  - The `std::chrono` date arithmetic is an explicit days-from-civil count of the proleptic Gregorian calendar, and the `year_month_day::ok` check is the same calendar's date table.
- **Shared definitions** (`numerals.dfy`, `wrappers.dfy`).
  - Positional numerals (`Val`, `ToDigits`) and lexicographic order.
  - The `Option` type.

Conventions:
- Unsigned 64-bit words are the subtype `U64` of `nat`.
- `x << k` is `(x * 2^k) % 2^64`, written `Shl`; `x >> k` is `x / 2^k`, written `Shr`.
- `|` of operands whose bits do not overlap is `+`, and `& 0x1F` is `% 32`.

## Model

| member | source | states |
|---|---|---|
| Identifier.Value | ulid.hpp:284 | the identifier's 16 bytes read as one big-endian number, below 2^128 |
| Identifier.TimestampOf | ulid.hpp:258-263 | bytes 0..5 as a big-endian number, below 2^48 |
| Identifier.RandomOf | ulid.hpp:264-266 | bytes 6..15 as a big-endian number, below 2^80 |
| Identifier.ValueLayout | ulid.hpp:258-266 | the value is timestamp * 2^80 + random field |
| Identifier.FromBytes | ulid.hpp:194-200 | the identifier's value is the value of the given bytes |
| Identifier.ToBytes | ulid.hpp:210-212 | the returned bytes have the identifier's value |
| Identifier.ToBytesFromBytes | ulid.hpp:194-212 | to_bytes(from_bytes(b)) == b |
| Identifier.FromBytesToBytes | ulid.hpp:194-212 | from_bytes(to_bytes(u)) == u |
| Identifier.Compare | ulid.hpp:246 | the defaulted byte-wise comparison orders identifiers by their 128-bit value and is Equal exactly for equal identifiers |
| Identifier.CompareLayout | ulid.hpp:246 | comparison decides by timestamp first and by random field only when the timestamps are equal |
| Identifier.LaterTimestampIsGreater | ulid.hpp:246 | a strictly later timestamp gives a strictly greater identifier whatever the random fields |
| Identifier.WriteBigEndian | ulid.hpp:327-333 | the N <= 8 bytes written at `start` are the N low base-256 digits of the value, most significant first; every other byte of the array is unchanged |
| Identifier.ShiftedByteIsDigit | ulid.hpp:331 | `(value >> 8*(N-1-i)) & 0xFF` is the i-th of the N big-endian digits |
| Identifier.TimestampMs | ulid.hpp:238-244 | the loop `(ts << 8) \| b` over the timestamp bytes returns the 48-bit timestamp |
| Identifier.Generate | ulid.hpp:68-78 | the timestamp is the clock reading modulo 2^48 and the random field is the given bytes |
| Crockford.DecodeCrockford | ulid.hpp:335-373 | a character is accepted exactly when it is a decimal digit or a letter of either case other than U; its value is below 32 |
| Crockford.DecodeByCode | ulid.hpp:335-373 | the switch agrees with an independent code-point table on every character, after upper-casing |
| Crockford.DecodeEncoding | ulid.hpp:249-254 | each output symbol decodes to its own index |
| Crockford.DecodeNormalizes | ulid.hpp:335-373 | an accepted character decodes to the index of its normalized symbol (upper case, O as 0, I and L as 1) |
| Crockford.EncodingCanonical | ulid.hpp:249-254 | every output symbol is accepted and is its own normal form |
| Crockford.EncodingIncreasing | ulid.hpp:249-254 | the alphabet is in strictly increasing character order |
| Crockford.DecodeIgnoresCase | ulid.hpp:348-369 | upper- and lower-casing a character does not change what it decodes to |
| Crockford.DigitsOf | ulid.hpp:104-107 | a text decodes symbol by symbol when every character is accepted, to digits below 32 of the same length |
| Crockford.DigitsOfConcat | ulid.hpp:104-107 | decoding a concatenation decodes both parts, and fails when either part fails |
| Crockford.Spell | ulid.hpp:295-298 | the symbols of a digit sequence, one per digit |
| Crockford.SpellDigits | ulid.hpp:295-298 | spelling digits and decoding the text gives the digits back |
| Crockford.SpellOfDigits | ulid.hpp:104-107 | re-spelling what a text decodes to gives its normalized text |
| Crockford.DigitsOfIgnoresCase | ulid.hpp:104-107 | upper- or lower-casing a text does not change what it decodes to |
| Base32.Encode | ulid.hpp:202-204 | the canonical text has 26 symbols |
| Base32.EncodeIsCanonical | ulid.hpp:293-298 | the canonical text uses only upper-case output symbols, and its first symbol is one of 0..7 |
| Base32.Decode | ulid.hpp:101-123 | a text decodes exactly when it has 26 characters, all accepted, and its leading digit is at most 7 |
| Base32.CanonicalIffLeadingDigit | ulid.hpp:114-118 | a 26-digit numeral sets neither bit 128 nor bit 129 exactly when its leading digit is at most 7 |
| Base32.ExtractDigit | ulid.hpp:302-311 | the three shift/mask branches return bits shift+4..shift of (hi << 64) \| lo, with shift = 125 - 5*index |
| Base32.ExtractDigitIsDigit | ulid.hpp:302-311 | digit `index` is the index-th of the 26 base-32 digits of the 128-bit value |
| Base32.EncodeBase32 | ulid.hpp:283-300 | the loops return exactly the canonical text `Encode` of the bytes |
| Base32.LoadBigEndian | ulid.hpp:285-292 | the `(x << 8) \| b` loop over 8 bytes returns their big-endian value |
| Base32.ShiftIn | ulid.hpp:107-112 | one pass of the limb loop turns the 192-bit accumulator into 32 * acc + digit modulo 2^192 |
| Base32.FromString | ulid.hpp:101-123 | the accumulator method returns exactly `Decode` of the text |
| Base32.ReadAll | ulid.hpp:114-122 | after 26 symbols, a set bit 128 or 129 means rejection; otherwise the result is the 16 bytes of the low 128 accumulator bits |
| Base32.LimbsToUlid | ulid.hpp:116-122 | rejects when acc[2] & 3 != 0; otherwise writes acc[1] and then acc[0] big-endian |
| Base32.DecodeEncode | ulid.hpp:101-123 | every identifier decodes back from its canonical text |
| Base32.EncodeDecode | ulid.hpp:101-123 | a decoded text re-encodes to its normalized form (upper case, O as 0, I/L as 1) |
| Base32.DecodeIgnoresCase | ulid.hpp:335-373 | decoding an upper- or lower-cased text gives the same result |
| Base32.RejectsCharacter | ulid.hpp:105-106 | any character outside the alphabet makes the text undecodable |
| Base32.RejectsHighBits | ulid.hpp:116-118 | a 26-symbol text whose first symbol is 8 or more is rejected |
| Base32.EncodePreservesOrder | ulid.hpp:246 | character-wise order of canonical texts equals the comparison of identifiers |
| Monotonic.Successor | ulid.hpp:313-324 | the random bytes plus one, modulo 256^10, as bytes of the same length |
| Monotonic.SuccessorCarry | ulid.hpp:314-319 | when byte j is not 0xFF and all later bytes are: earlier bytes are kept, byte j grows by one, later bytes become 0 |
| Monotonic.SuccessorWrap | ulid.hpp:321-323 | all-0xFF bytes wrap to all zero |
| Monotonic.SuccessorIncreases | ulid.hpp:313-324 | unless every byte is 0xFF, the value grows by exactly one |
| Monotonic.IncrementBigEndian | ulid.hpp:313-324 | the reverse carry loop leaves the 10-byte window equal to the successor of its old contents; nothing else in the array changes |
| Monotonic.Generator.constructor | ulid.hpp:83-85 | the initial state: an all-zero identifier, last reading 0, no identifier yet |
| Monotonic.Generator.Next | ulid.hpp:80-99 | a first or later reading stores the reading and returns `Generate(ts, random)`; otherwise it keeps the reading and timestamp bytes and adds one to the random field; the returned identifier is the stored one |
| Monotonic.NextIncreases | ulid.hpp:87-98 | each step returns an identifier strictly greater than the previous one, unless the random field wraps |
| Calendar.ValidDate | ulid.hpp:166 | `year_month_day::ok`: the year is in -32767..32767, the month in 1..12 and the day within that month's length (DaysInMonth) |
| Calendar.DaysFromCivil | ulid.hpp:170 | the day count of `sys_days{ymd}`; pinned down on every date by day 0 being 1970-01-01 and each next calendar day adding one (EpochIsDayZero, NextDayAddsOne) |
| Calendar.DaysInMonth | ulid.hpp:166 | month lengths of the proleptic Gregorian calendar; February has 29 days exactly in leap years |
| Calendar.NextDayAddsOne | ulid.hpp:170 | the days-from-civil count advances by exactly one from each date to the next, across month, leap-day and year ends |
| Calendar.EpochIsDayZero | ulid.hpp:170-181 | 1970-01-01 is day 0 |
| Calendar.EraForm | ulid.hpp:170 | the 400-year-cycle formula equals the closed form 365y + y/4 - y/100 + y/400 over years starting in March |
| Calendar.YearLength | ulid.hpp:170 | a year counted from March has 366 days exactly when its closing February is a leap one |
| Calendar.NonNegativeFromEpoch | ulid.hpp:181-183 | a date's day count is non-negative exactly when its year is 1970 or later |
| Calendar.DaysBound | ulid.hpp:186-188 | no date up to year 9999 is after day 2932896 |
| Readable.ParseU32 | ulid.hpp:133-142 | a window parses exactly when it is non-empty, all decimal digits and below 2^32; the value is below 10^len |
| Readable.ParseU32Digits | ulid.hpp:133-142 | a window of at most nine characters parses exactly when it is all digits, and the value re-spelled with len digits is the window |
| Readable.ParseDecimalText | ulid.hpp:133-142 | every value below 10^len, zero-padded to len digits, parses back to itself |
| Readable.ParseFields | ulid.hpp:144-154 | the seven fields parse exactly when positions 0..17 other than 8 are digits; the year is below 10000 |
| Readable.InRange | ulid.hpp:155-157 | the basic range checks: month 1..12, day 1..31, hour at most 23, minute and second at most 59, milliseconds at most 999 |
| Readable.EpochMillis | ulid.hpp:170-181 | the instant's milliseconds since the epoch: the date's day count times 86400000 plus the time of day (its range in EpochMillisRange) |
| Readable.EpochMillisRange | ulid.hpp:174-188 | the instant is not before the epoch exactly when the year is 1970 or later, and it is below 2^48 ms |
| Readable.WithTimestamp | ulid.hpp:186-188 | a zero identifier with the reading's low 48 bits as timestamp and a zero random field |
| Readable.FromReadableString | ulid.hpp:128-191 | a result implies length 35 with 'T' at 8 and 'Z' at 18 |
| Readable.FromReadableStringMeaning | ulid.hpp:128-191 | accepted exactly when 'T' and 'Z' are in place, the fields are digits in range, the date exists, the year is at least 1970 and the 16 tail symbols decode; the result's timestamp is the instant's milliseconds and its random field the tail's value |
| Readable.Splice | ulid.hpp:188-190 | `to_string` of the timestamp-only identifier with characters 10..25 replaced by the 16 tail symbols; what it decodes to is SpliceDecode |
| Readable.SpliceDecode | ulid.hpp:189-191 | splicing 16 symbols after the first ten canonical symbols decodes exactly when they decode, to the given timestamp and the symbols' value |
| Readable.TimestampSymbols | ulid.hpp:187-190 | the first ten canonical symbols of a zero-random identifier spell its timestamp in ten base-32 digits |

## Left out

- `now_ms` (ulid.hpp:274-281) reads the system clock. The clock reading is a parameter (`ts`) of `Generate` and `Generator.Next`.
- The PRNG, `salted_seed` and the `static thread_local` storage (ulid.hpp:70, 82-85, 376-380) are left out:
  - random bytes are a parameter;
  - the per-thread state is one explicit `Generator` object;
  - the seed salting from an object address is not modelled;
  - random.hpp and romuduojr.hpp are not part of this model (their guarantees are statistical).
- `to_readable_string` (ulid.hpp:224-236) is not modelled: it formats with `std::format` and chrono formatting. Its timestamps past year 9999 would give a 5-digit year.
- `operator<<` (ulid.hpp:386-388) is stream output, and `as_bytes` (ulid.hpp:214-216) is a read-only view. `operator std::string` (ulid.hpp:206-208) is `to_string`, i.e. `Encode`.
- `std::from_chars` is modelled by its contract on a fixed window, as the function `ParseU32`: decimal digits only, no sign, no blanks, failure on overflow.
- `sys_days{ymd}` is the library's conversion. It is modelled by the closed-form `DaysFromCivil`, which `Calendar.NextDayAddsOne` and `Calendar.EpochIsDayZero` pin down on every date.
- The chrono arithmetic is modelled on unbounded integers. Within the parsed ranges (years up to 9999) its 64-bit signed millisecond counts cannot overflow.
- Monotonic.NextIncreases: is stated only for clock readings below 2^48. Above 2^48 the timestamp bytes keep only the reading's low 48 bits, so a later reading can give a smaller identifier. It also excludes the documented wrap of an all-0xFF random field.
- Monotonic.Generator.Next: writes the random bytes into the retained array as the source does, but the model does not show that the returned value is a copy and not an alias: `Ulid` is a value type.
