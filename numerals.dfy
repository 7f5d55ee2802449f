/**
  Positional numerals: the value of a most-significant-first digit sequence in a
  base, the digit sequence of a number, and lexicographic comparison. The
  identifier is read as a base-256 numeral (its bytes), a base-32 numeral (its
  canonical text) and a base-10 numeral (the fields of its readable form).
 */
module Numerals {

  /** b raised to the power e. */
  function Pow(b: nat, e: nat): (r: nat)
    ensures b > 0 ==> r > 0
  {
    if e == 0 then 1 else b * Pow(b, e - 1)
  }

  /** Every digit of s is below b. */
  predicate AllBelow(s: seq<nat>, b: nat)
  {
    forall i :: 0 <= i < |s| ==> s[i] < b
  }

  /** The value of the numeral s in base b, most significant digit first. */
  function Val(s: seq<nat>, b: nat): nat
  {
    if s == [] then 0 else Val(s[..|s| - 1], b) * b + s[|s| - 1]
  }

  /** The k least significant base-b digits of n, most significant first. */
  function ToDigits(n: nat, k: nat, b: nat): (r: seq<nat>)
    requires b >= 2
    ensures |r| == k && AllBelow(r, b)
  {
    if k == 0 then [] else ToDigits(n / b, k - 1, b) + [n % b]
  }

  /** The result of a three-way comparison (std::strong_ordering). */
  datatype Ordering = Less | Equal | Greater

  function CompareInt(x: int, y: int): Ordering
  {
    if x < y then Less else if x == y then Equal else Greater
  }

  /** Lexicographic three-way comparison of two sequences of the same length. */
  function Lex(s: seq<int>, t: seq<int>): (r: Ordering)
    requires |s| == |t|
    ensures r == Equal <==> s == t
  {
    if s == [] then Equal
    else if s[0] < t[0] then Less
    else if s[0] > t[0] then Greater
    else
      assert s == [s[0]] + s[1..] && t == [t[0]] + t[1..];
      Lex(s[1..], t[1..])
  }

  // ---------------------------------------------------------------------------
  // Arithmetic facts

  lemma MulLe(a: int, c: int, k: nat)
    requires a <= c
    ensures a * k <= c * k
  {
  }

  /** Euclidean division is determined by its defining equation. */
  lemma DivModUnique(n: int, d: int, q: int, r: int)
    requires d > 0 && 0 <= r < d && n == d * q + r
    ensures n / d == q && n % d == r
  {
    var k := q - n / d;
    assert d * k == n % d - r;
    MulSign(d, k);
  }

  lemma MulSign(d: int, k: int)
    requires d > 0
    ensures k >= 1 ==> d * k >= d
    ensures k <= -1 ==> d * k <= -d
  {
  }

  /** Dividing by b and then by p is dividing by b * p. */
  lemma DivDiv(n: nat, b: nat, p: nat)
    requires b > 0 && p > 0
    ensures n / (b * p) == (n / b) / p
  {
    DivModParts(n, b, p);
  }

  /** The remainder modulo b * p, from the remainders modulo b and then p. */
  lemma ModDiv(n: nat, b: nat, p: nat)
    requires b > 0 && p > 0
    ensures n % (b * p) == b * ((n / b) % p) + n % b
  {
    DivModParts(n, b, p);
  }

  /** The remainder modulo b * p, in the shape of one Horner step. */
  lemma ModStep(n: nat, b: nat, p: nat, bp: nat)
    requires b > 0 && p > 0 && bp == b * p
    ensures n % bp == ((n / b) % p) * b + n % b
  {
    DivModParts(n, b, p);
  }

  lemma DivModParts(n: nat, b: nat, p: nat)
    requires b > 0 && p > 0
    ensures n / (b * p) == (n / b) / p && n % (b * p) == b * ((n / b) % p) + n % b
  {
    var q, r := n / b, n % b;
    var q2, r2 := q / p, q % p;
    assert n == b * (p * q2 + r2) + r;
    MulLe(r2, p - 1, b);
    assert b * r2 + r < b * p;
    assert n == (b * p) * q2 + (b * r2 + r);
    DivModUnique(n, b * p, q2, b * r2 + r);
  }

  lemma ModSmall(n: nat, d: nat)
    requires n < d
    ensures n % d == n && n / d == 0
  {
    DivModUnique(n, d, 0, n);
  }

  lemma ModAddMultiple(x: nat, j: nat, d: nat)
    requires d > 0
    ensures (x + d * j) % d == x % d
    ensures (x + d * j) / d == x / d + j
  {
    DivModUnique(x + d * j, d, x / d + j, x % d);
  }

  // ---------------------------------------------------------------------------
  // Powers

  lemma {:induction false} PowAdd(b: nat, m: nat, n: nat)
    ensures Pow(b, m + n) == Pow(b, m) * Pow(b, n)
    decreases m
  {
    if m > 0 {
      PowAdd(b, m - 1, n);
      PowLast(b, m + n);
      PowLast(b, m);
      MulAssoc(b, Pow(b, m - 1), Pow(b, n));
    }
  }

  lemma MulAssoc(x: int, y: int, z: int)
    ensures x * (y * z) == (x * y) * z
  {
  }

  lemma {:induction false} PowMul(b: nat, m: nat, n: nat)
    ensures Pow(Pow(b, m), n) == Pow(b, m * n)
    decreases n
  {
    if n > 0 {
      PowMul(b, m, n - 1);
      PowAdd(b, m, m * (n - 1));
      assert m + m * (n - 1) == m * n;
    }
  }

  lemma {:induction false} PowMono(b: nat, m: nat, n: nat)
    requires b >= 1 && m <= n
    ensures Pow(b, m) <= Pow(b, n)
    decreases n
  {
    if m < n {
      PowMono(b, m, n - 1);
      MulLe(1, b, Pow(b, n - 1));
    }
  }

  // ---------------------------------------------------------------------------
  // Numeral values

  lemma {:induction false} ValBound(s: seq<nat>, b: nat)
    requires AllBelow(s, b)
    ensures Val(s, b) < Pow(b, |s|)
    decreases |s|
  {
    if s != [] {
      var init := s[..|s| - 1];
      var p := Pow(b, |init|);
      ValBound(init, b);
      MulLe(Val(init, b), p - 1, b);
      assert (p - 1) * b + b == p * b;
      assert Val(s, b) < p * b;
      assert Pow(b, |s|) == b * p;
    }
  }

  lemma {:induction false} ValConcat(s: seq<nat>, t: seq<nat>, b: nat)
    ensures Val(s + t, b) == Val(s, b) * Pow(b, |t|) + Val(t, b)
    decreases |t|
  {
    if t == [] {
      assert s + t == s;
    } else {
      var init := t[..|t| - 1];
      assert (s + t)[..|s + t| - 1] == s + init;
      assert (s + t)[|s + t| - 1] == t[|t| - 1];
      ValLast(s + t, b);
      ValLast(t, b);
      ValConcat(s, init, b);
      PowLast(b, |t|);
      HornerStep(Val(s, b), Pow(b, |init|), Val(init, b), b, t[|t| - 1]);
    }
  }

  lemma HornerStep(v: int, p: int, w: int, b: int, d: int)
    ensures (v * p + w) * b + d == v * (b * p) + (w * b + d)
  {
  }

  /** Splitting off the most significant digit. */
  lemma ValFront(s: seq<nat>, b: nat)
    requires s != []
    ensures Val(s, b) == s[0] * Pow(b, |s| - 1) + Val(s[1..], b)
  {
    assert s == [s[0]] + s[1..];
    ValConcat([s[0]], s[1..], b);
    assert [s[0]][..0] == [];
  }

  /** The value of a numeral made of the largest digit only is one below a power of the base. */
  lemma {:induction false} ValAllMax(s: seq<nat>, b: nat)
    requires b >= 1 && forall i :: 0 <= i < |s| ==> s[i] == b - 1
    ensures Val(s, b) == Pow(b, |s|) - 1
    decreases |s|
  {
    if s != [] {
      ValAllMax(s[..|s| - 1], b);
    }
  }

  /** Leading zero digits add nothing. */
  lemma {:induction false} ValAllZero(s: seq<nat>, b: nat)
    requires forall i :: 0 <= i < |s| ==> s[i] == 0
    ensures Val(s, b) == 0
    decreases |s|
  {
    if s != [] {
      ValAllZero(s[..|s| - 1], b);
    }
  }

  // ---------------------------------------------------------------------------
  // Digit sequences

  /** One step of ToDigits: the last digit is n % b, the others those of n / b. */
  lemma ToDigitsLast(n: nat, k: nat, b: nat)
    requires b >= 2 && k > 0
    ensures ToDigits(n, k, b) == ToDigits(n / b, k - 1, b) + [n % b]
    ensures ToDigits(n, k, b)[..k - 1] == ToDigits(n / b, k - 1, b)
    ensures ToDigits(n, k, b)[k - 1] == n % b
  {
  }

  /** One step of Val: the last digit counts once, the others b times over. */
  lemma ValLast(s: seq<nat>, b: nat)
    requires s != []
    ensures Val(s, b) == Val(s[..|s| - 1], b) * b + s[|s| - 1]
  {
  }

  lemma PowLast(b: nat, k: nat)
    requires k > 0
    ensures Pow(b, k) == b * Pow(b, k - 1)
  {
  }

  /** Reading the k digits of n back gives n modulo b^k. */
  lemma {:induction false} ValToDigits(n: nat, k: nat, b: nat)
    requires b >= 2
    ensures Val(ToDigits(n, k, b), b) == n % Pow(b, k)
    decreases k
  {
    if k > 0 {
      ToDigitsLast(n, k, b);
      ValLast(ToDigits(n, k, b), b);
      ValToDigits(n / b, k - 1, b);
      PowLast(b, k);
      ModStep(n, b, Pow(b, k - 1), Pow(b, k));
    }
  }

  /** Writing the value of a numeral with as many digits gives the numeral back. */
  lemma {:induction false} ToDigitsVal(s: seq<nat>, b: nat)
    requires b >= 2 && AllBelow(s, b)
    ensures ToDigits(Val(s, b), |s|, b) == s
    decreases |s|
  {
    if s != [] {
      var init := s[..|s| - 1];
      DivModUnique(Val(s, b), b, Val(init, b), s[|s| - 1]);
      ToDigitsVal(init, b);
      assert s == init + [s[|s| - 1]];
    }
  }

  /** Digit i of the k-digit numeral of n. */
  lemma {:induction false} DigitAt(n: nat, k: nat, b: nat, i: nat)
    requires b >= 2 && i < k
    ensures ToDigits(n, k, b)[i] == (n / Pow(b, k - 1 - i)) % b
    decreases k
  {
    ToDigitsLast(n, k, b);
    if i < k - 1 {
      DigitAt(n / b, k - 1, b, i);
      DivDiv(n, b, Pow(b, k - 2 - i));
      PowLast(b, k - 1 - i);
    }
  }

  /** Only n modulo b^k matters to its k digits. */
  lemma ToDigitsMod(n: nat, k: nat, b: nat)
    requires b >= 2
    ensures ToDigits(n % Pow(b, k), k, b) == ToDigits(n, k, b)
  {
    ValToDigits(n, k, b);
    ToDigitsVal(ToDigits(n, k, b), b);
  }

  /** The digits of hi * b^m + lo are those of hi followed by those of lo. */
  lemma ToDigitsConcat(hi: nat, lo: nat, k: nat, m: nat, b: nat)
    requires b >= 2 && lo < Pow(b, m)
    ensures ToDigits(hi * Pow(b, m) + lo, k + m, b) == ToDigits(hi, k, b) + ToDigits(lo, m, b)
  {
    var n := hi * Pow(b, m) + lo;
    var high, low := ToDigits(hi, k, b), ToDigits(lo, m, b);
    var s := high + low;
    AllBelowConcat(high, low, b);
    ValConcat(high, low, b);
    ValToDigits(hi, k, b);
    ValToDigits(lo, m, b);
    DivModUnique(lo, Pow(b, m), 0, lo);
    PowAdd(b, k, m);
    ModConcat(hi, lo, Pow(b, k), Pow(b, m));
    ToDigitsVal(s, b);
    ToDigitsMod(n, k + m, b);
  }

  lemma AllBelowConcat(s: seq<nat>, t: seq<nat>, b: nat)
    requires AllBelow(s, b) && AllBelow(t, b)
    ensures AllBelow(s + t, b)
  {
    forall i | 0 <= i < |s + t|
      ensures (s + t)[i] < b
    {
      if i < |s| { assert (s + t)[i] == s[i]; } else { assert (s + t)[i] == t[i - |s|]; }
    }
  }

  /** Appending the low part below the high one, modulo the combined power. */
  lemma ModConcat(hi: nat, lo: nat, pk: nat, pm: nat)
    requires pk > 0 && pm > 0 && lo < pm
    ensures (hi * pm + lo) % (pk * pm) == (hi % pk) * pm + lo
  {
    var q, r := hi / pk, hi % pk;
    MulLe(r, pk - 1, pm);
    assert (pk - 1) * pm + pm == pk * pm;
    assert hi * pm == (pk * pm) * q + r * pm;
    DivModUnique(hi * pm + lo, pk * pm, q, r * pm + lo);
  }

  // ---------------------------------------------------------------------------
  // Order

  /** Lexicographic order of equally long numerals is the order of their values. */
  lemma {:induction false} LexVal(s: seq<nat>, t: seq<nat>, b: nat)
    requires |s| == |t| && AllBelow(s, b) && AllBelow(t, b)
    ensures Lex(s, t) == CompareInt(Val(s, b), Val(t, b))
    decreases |s|
  {
    if s != [] {
      var p := Pow(b, |s| - 1);
      ValFront(s, b);
      ValFront(t, b);
      ValBound(s[1..], b);
      ValBound(t[1..], b);
      if s[0] < t[0] {
        LeadingDigitDecides(s[0], t[0], p, Val(s[1..], b), Val(t[1..], b));
      } else if s[0] > t[0] {
        LeadingDigitDecides(t[0], s[0], p, Val(t[1..], b), Val(s[1..], b));
      } else {
        LexVal(s[1..], t[1..], b);
      }
    }
  }

  lemma LeadingDigitDecides(x: nat, y: nat, p: nat, vx: nat, vy: nat)
    requires x < y && vx < p
    ensures x * p + vx < y * p + vy
  {
    MulLe(x + 1, y, p);
    assert (x + 1) * p == x * p + p;
  }

  /** Comparing images under a strictly increasing map is comparing the originals. */
  lemma {:induction false} LexMonotoneMap(s: seq<int>, t: seq<int>, fs: seq<int>, ft: seq<int>)
    requires |s| == |t| == |fs| == |ft|
    requires forall i, j :: 0 <= i < |s| && 0 <= j < |t| ==>
      (s[i] < t[j] <==> fs[i] < ft[j]) && (s[i] == t[j] <==> fs[i] == ft[j])
    ensures Lex(fs, ft) == Lex(s, t)
    decreases |s|
  {
    if s != [] {
      assert s[0] < t[0] <==> fs[0] < ft[0];
      assert s[0] == t[0] <==> fs[0] == ft[0];
      if s[0] == t[0] {
        forall i, j | 0 <= i < |s| - 1 && 0 <= j < |t| - 1
          ensures (s[1..][i] < t[1..][j] <==> fs[1..][i] < ft[1..][j])
          ensures (s[1..][i] == t[1..][j] <==> fs[1..][i] == ft[1..][j])
        {
          assert s[1..][i] == s[i + 1] && t[1..][j] == t[j + 1];
          assert fs[1..][i] == fs[i + 1] && ft[1..][j] == ft[j + 1];
        }
        LexMonotoneMap(s[1..], t[1..], fs[1..], ft[1..]);
      }
    }
  }
}
