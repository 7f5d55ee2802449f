/**
  Crockford's Base32 alphabet: the 32 output symbols and the total input table
  that accepts either case and reads the look-alike letters O, I and L as the
  digits they resemble.
 */
module Crockford {
  import opened Wrappers
  import opened Numerals

  /** The output symbols, digit value = position; U, I, L and O are left out. */
  const ENCODING: string := "0123456789ABCDEFGHJKMNPQRSTVWXYZ"

  function ToUpper(c: char): char
  {
    if 'a' <= c <= 'z' then (c as int - 32) as char else c
  }

  function ToLower(c: char): char
  {
    if 'A' <= c <= 'Z' then (c as int + 32) as char else c
  }

  /** Characters the decoder accepts: decimal digits, and letters of either case except U. */
  predicate Accepted(c: char)
  {
    '0' <= c <= '9' || ('A' <= c <= 'Z' && c != 'U') || ('a' <= c <= 'z' && c != 'u')
  }

  /** The output symbol an accepted character stands for: its upper case, with O read as 0 and I, L as 1. */
  function Normalize(c: char): char
  {
    var u := ToUpper(c);
    if u == 'O' then '0' else if u == 'I' || u == 'L' then '1' else u
  }

  /** The digit value of one input character, or None when it is not part of the alphabet. */
  function DecodeCrockford(c: char): (r: Option<nat>)
    ensures r.Some? <==> Accepted(c)
    ensures r.Some? ==> r.value < 32
  {
    match c
    case '0' | 'O' | 'o' => Some(0)
    case '1' | 'I' | 'i' | 'L' | 'l' => Some(1)
    case '2' => Some(2)
    case '3' => Some(3)
    case '4' => Some(4)
    case '5' => Some(5)
    case '6' => Some(6)
    case '7' => Some(7)
    case '8' => Some(8)
    case '9' => Some(9)
    case 'A' | 'a' => Some(10)
    case 'B' | 'b' => Some(11)
    case 'C' | 'c' => Some(12)
    case 'D' | 'd' => Some(13)
    case 'E' | 'e' => Some(14)
    case 'F' | 'f' => Some(15)
    case 'G' | 'g' => Some(16)
    case 'H' | 'h' => Some(17)
    case 'J' | 'j' => Some(18)
    case 'K' | 'k' => Some(19)
    case 'M' | 'm' => Some(20)
    case 'N' | 'n' => Some(21)
    case 'P' | 'p' => Some(22)
    case 'Q' | 'q' => Some(23)
    case 'R' | 'r' => Some(24)
    case 'S' | 's' => Some(25)
    case 'T' | 't' => Some(26)
    case 'V' | 'v' => Some(27)
    case 'W' | 'w' => Some(28)
    case 'X' | 'x' => Some(29)
    case 'Y' | 'y' => Some(30)
    case 'Z' | 'z' => Some(31)
    case _ => None
  }

  // ---------------------------------------------------------------------------
  // The alphabet as arithmetic on character codes

  /** The character code of output symbol d: the symbols come in runs of consecutive codes. */
  function SymbolCode(d: nat): int
  {
    if d < 10 then '0' as int + d
    else if d < 18 then 'A' as int + (d - 10)
    else if d < 20 then 'J' as int + (d - 18)
    else if d < 22 then 'M' as int + (d - 20)
    else if d < 27 then 'P' as int + (d - 22)
    else 'V' as int + (d - 27)
  }

  /** The digit a decimal digit or upper-case letter stands for, from its code. */
  function CodeValue(x: int): Option<nat>
  {
    if '0' as int <= x <= '9' as int then Some(x - '0' as int)
    else if x == 'O' as int then Some(0)
    else if x == 'I' as int || x == 'L' as int then Some(1)
    else if 'A' as int <= x <= 'H' as int then Some(x - 'A' as int + 10)
    else if 'J' as int <= x <= 'K' as int then Some(x - 'J' as int + 18)
    else if 'M' as int <= x <= 'N' as int then Some(x - 'M' as int + 20)
    else if 'P' as int <= x <= 'T' as int then Some(x - 'P' as int + 22)
    else if 'V' as int <= x <= 'Z' as int then Some(x - 'V' as int + 27)
    else None
  }

  /** The output table agrees with its run-by-run description. */
  lemma EncodingCode(d: nat)
    requires d < 32
    ensures ENCODING[d] as int == SymbolCode(d)
  {
  }

  /** The decoding table is case folding followed by the code table. */
  lemma DecodeByCode(c: char)
    ensures DecodeCrockford(c) == CodeValue(ToUpper(c) as int)
  {
    if '0' <= c <= '9' {
      DecodeDigitRun(c);
    } else if 'A' <= c <= 'H' {
      DecodeUpperAH(c);
    } else if 'I' <= c <= 'N' {
      DecodeUpperIN(c);
    } else if 'O' <= c <= 'T' {
      DecodeUpperOT(c);
    } else if 'U' <= c <= 'Z' {
      DecodeUpperUZ(c);
    } else if 'a' <= c <= 'h' {
      DecodeLowerAH(c);
    } else if 'i' <= c <= 'n' {
      DecodeLowerIN(c);
    } else if 'o' <= c <= 't' {
      DecodeLowerOT(c);
    } else if 'u' <= c <= 'z' {
      DecodeLowerUZ(c);
    } else {
      DecodeOther(c);
    }
  }

  lemma DecodeDigitRun(c: char)
    requires '0' <= c <= '9'
    ensures DecodeCrockford(c) == CodeValue(c as int)
  {
  }

  lemma DecodeUpperAH(c: char)
    requires 'A' <= c <= 'H'
    ensures DecodeCrockford(c) == CodeValue(c as int)
  {
  }

  lemma DecodeUpperIN(c: char)
    requires 'I' <= c <= 'N'
    ensures DecodeCrockford(c) == CodeValue(c as int)
  {
  }

  lemma DecodeUpperOT(c: char)
    requires 'O' <= c <= 'T'
    ensures DecodeCrockford(c) == CodeValue(c as int)
  {
  }

  lemma DecodeUpperUZ(c: char)
    requires 'U' <= c <= 'Z'
    ensures DecodeCrockford(c) == CodeValue(c as int)
  {
  }

  lemma DecodeLowerAH(c: char)
    requires 'a' <= c <= 'h'
    ensures DecodeCrockford(c) == CodeValue(c as int - 32)
  {
  }

  lemma DecodeLowerIN(c: char)
    requires 'i' <= c <= 'n'
    ensures DecodeCrockford(c) == CodeValue(c as int - 32)
  {
  }

  lemma DecodeLowerOT(c: char)
    requires 'o' <= c <= 't'
    ensures DecodeCrockford(c) == CodeValue(c as int - 32)
  {
  }

  lemma DecodeLowerUZ(c: char)
    requires 'u' <= c <= 'z'
    ensures DecodeCrockford(c) == CodeValue(c as int - 32)
  {
  }

  lemma DecodeOther(c: char)
    requires !('0' <= c <= '9') && !('A' <= c <= 'Z') && !('a' <= c <= 'z')
    ensures DecodeCrockford(c) == None
  {
  }

  // ---------------------------------------------------------------------------
  // Properties of the alphabet

  /** An accepted character decodes to the position of the symbol it stands for. */
  lemma DecodeNormalizes(c: char)
    ensures DecodeCrockford(c).Some? ==> ENCODING[DecodeCrockford(c).value] == Normalize(c)
  {
    DecodeByCode(c);
    var r := DecodeCrockford(c);
    if r.Some? {
      EncodingCode(r.value);
      assert ENCODING[r.value] as int == Normalize(c) as int;
    }
  }

  /** Every output symbol is accepted and stands for itself. */
  lemma EncodingCanonical(d: nat)
    requires d < 32
    ensures Accepted(ENCODING[d]) && Normalize(ENCODING[d]) == ENCODING[d]
  {
    EncodingCode(d);
  }

  /** The output symbols are in strictly increasing character order. */
  lemma EncodingIncreasing(i: nat, j: nat)
    requires i < j < 32
    ensures ENCODING[i] < ENCODING[j]
  {
    EncodingCode(i);
    EncodingCode(j);
  }

  /** Each output symbol decodes to its own position. */
  lemma DecodeEncoding(d: nat)
    requires d < 32
    ensures DecodeCrockford(ENCODING[d]) == Some(d)
  {
    EncodingCode(d);
    SymbolCodeValue(d);
    DecodeByCode(ENCODING[d]);
  }

  lemma SymbolCodeValue(d: nat)
    requires d < 32
    ensures CodeValue(SymbolCode(d)) == Some(d)
    ensures '0' as int <= SymbolCode(d) <= 'Z' as int
  {
  }

  /** Decoding ignores case. */
  lemma DecodeIgnoresCase(c: char)
    ensures DecodeCrockford(ToUpper(c)) == DecodeCrockford(c)
    ensures DecodeCrockford(ToLower(c)) == DecodeCrockford(c)
  {
    DecodeByCode(c);
    DecodeByCode(ToUpper(c));
    DecodeByCode(ToLower(c));
  }

  // ---------------------------------------------------------------------------
  // Strings

  /** The digits of a whole string, or None when some character is not accepted. */
  function DigitsOf(s: string): (r: Option<seq<nat>>)
    ensures r.Some? ==> |r.value| == |s| && AllBelow(r.value, 32)
  {
    if forall i :: 0 <= i < |s| ==> DecodeCrockford(s[i]).Some? then
      Some(seq(|s|, i requires 0 <= i < |s| && DecodeCrockford(s[i]).Some? => DecodeCrockford(s[i]).value))
    else None
  }

  /** Each decoded digit is the position of the symbol its character stands for. */
  lemma DigitsOfNormalizes(s: string, i: nat)
    requires DigitsOf(s).Some? && i < |s|
    ensures DecodeCrockford(s[i]) == Some(DigitsOf(s).value[i])
    ensures ENCODING[DigitsOf(s).value[i]] == Normalize(s[i])
  {
    DecodeNormalizes(s[i]);
  }

  /** The digits of a concatenation are the concatenated digits. */
  lemma DigitsOfConcat(s: string, t: string)
    ensures DigitsOf(s + t) ==
      if DigitsOf(s).Some? && DigitsOf(t).Some? then Some(DigitsOf(s).value + DigitsOf(t).value) else None
  {
    if DigitsOf(s).Some? && DigitsOf(t).Some? {
      DigitsOfConcatBoth(s, t);
    } else if DigitsOf(s).None? {
      var i :| 0 <= i < |s| && DecodeCrockford(s[i]).None?;
      assert (s + t)[i] == s[i];
    } else {
      var i :| 0 <= i < |t| && DecodeCrockford(t[i]).None?;
      assert (s + t)[|s| + i] == t[i];
    }
  }

  lemma DigitsOfConcatBoth(s: string, t: string)
    requires DigitsOf(s).Some? && DigitsOf(t).Some?
    ensures DigitsOf(s + t) == Some(DigitsOf(s).value + DigitsOf(t).value)
  {
    var st := s + t;
    var a, b := DigitsOf(s).value, DigitsOf(t).value;
    forall i | 0 <= i < |st|
      ensures DecodeCrockford(st[i]) == Some((a + b)[i])
    {
      if i < |s| {
        assert st[i] == s[i];
      } else {
        assert st[i] == t[i - |s|];
      }
    }
    assert DigitsOf(st).value == a + b;
  }

  /** The characters of a digit sequence in the output alphabet. */
  function Spell(ds: seq<nat>): (s: string)
    requires AllBelow(ds, 32)
    ensures |s| == |ds|
  {
    seq(|ds|, i requires 0 <= i < |ds| => ENCODING[ds[i]])
  }

  /** Spelling digits and decoding the text gives the digits back. */
  lemma SpellDigits(ds: seq<nat>)
    requires AllBelow(ds, 32)
    ensures DigitsOf(Spell(ds)) == Some(ds)
  {
    var s := Spell(ds);
    forall i | 0 <= i < |s|
      ensures DecodeCrockford(s[i]) == Some(ds[i])
    {
      DecodeEncoding(ds[i]);
    }
    assert DigitsOf(s).value == ds;
  }

  /** Spelled text is normalized: every character is an upper-case output symbol. */
  lemma SpellNormalized(ds: seq<nat>, i: nat)
    requires AllBelow(ds, 32) && i < |ds|
    ensures Spell(ds)[i] in ENCODING && Normalize(Spell(ds)[i]) == Spell(ds)[i]
    ensures !('a' <= Spell(ds)[i] <= 'z')
  {
    EncodingCanonical(ds[i]);
  }

  /** Decoding a text and spelling its digits gives the normalized text. */
  lemma SpellOfDigits(s: string)
    requires DigitsOf(s).Some?
    ensures Spell(DigitsOf(s).value) == seq(|s|, i requires 0 <= i < |s| => Normalize(s[i]))
  {
    forall i | 0 <= i < |s|
      ensures Spell(DigitsOf(s).value)[i] == Normalize(s[i])
    {
      DigitsOfNormalizes(s, i);
    }
  }

  function UpperCase(s: string): string
  {
    seq(|s|, i requires 0 <= i < |s| => ToUpper(s[i]))
  }

  function LowerCase(s: string): string
  {
    seq(|s|, i requires 0 <= i < |s| => ToLower(s[i]))
  }

  /** Changing the case of a text does not change its digits. */
  lemma DigitsOfIgnoresCase(s: string)
    ensures DigitsOf(UpperCase(s)) == DigitsOf(s)
    ensures DigitsOf(LowerCase(s)) == DigitsOf(s)
  {
    forall i | 0 <= i < |s|
      ensures DecodeCrockford(UpperCase(s)[i]) == DecodeCrockford(s[i])
      ensures DecodeCrockford(LowerCase(s)[i]) == DecodeCrockford(s[i])
    {
      DecodeIgnoresCase(s[i]);
    }
    if DigitsOf(s).Some? {
      assert DigitsOf(UpperCase(s)).value == DigitsOf(s).value;
      assert DigitsOf(LowerCase(s)).value == DigitsOf(s).value;
    }
  }
}
