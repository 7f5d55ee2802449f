/**
  The monotonic generator (generate_monotonic): it keeps the last identifier it
  returned, the clock reading it was made from and whether there is one. A
  reading later than the last starts a fresh identifier; any other reading
  (the same millisecond, or a clock that moved back) keeps the timestamp and
  adds one to the 80-bit random field, wrapping silently from all 0xFF to zero.
  The clock reading and the ten fresh random bytes are parameters of a step.
 */
module Monotonic {
  import opened Numerals
  import opened Identifier

  // ---------------------------------------------------------------------------
  // The random field plus one

  /** The big-endian bytes r plus one, modulo 256^|r|. */
  function Successor(r: seq<Byte>): (s: seq<Byte>)
    ensures |s| == |r|
    ensures Val(s, 256) == (Val(r, 256) + 1) % Pow(256, |r|)
  {
    ValToDigits(Val(r, 256) + 1, |r|, 256);
    ToDigits(Val(r, 256) + 1, |r|, 256)
  }

  /**
    When byte j is below 0xFF and every byte after it is 0xFF, adding one
    raises byte j, clears the bytes after it and keeps the bytes before it.
   */
  lemma SuccessorCarry(r: seq<Byte>, j: nat)
    requires j < |r| && r[j] != 0xFF
    requires forall k :: j < k < |r| ==> r[k] == 0xFF
    ensures forall k :: 0 <= k < |r| ==>
      Successor(r)[k] == if k < j then r[k] else if k == j then r[j] + 1 else 0
  {
    var m := |r| - j - 1;
    var head := r[..j] + [r[j] + 1];
    CarriedValue(r, j, head);
    BytePowers();
    ToDigitsConcat(Val(head, 256), 0, j + 1, m, 256);
    ToDigitsZero(m, 256);
    var s := ToDigits(Val(head, 256), j + 1, 256) + ToDigits(0, m, 256);
    assert Successor(r) == s;
    forall k | 0 <= k < |r|
      ensures Successor(r)[k] == if k < j then r[k] else if k == j then r[j] + 1 else 0
    {
      if k <= j {
        assert s[k] == head[k];
      } else {
        assert s[k] == ToDigits(0, m, 256)[k - j - 1];
      }
    }
  }

  /** Adding one carries into byte j: the sum is the bumped head shifted past the 0xFF tail. */
  lemma CarriedValue(r: seq<Byte>, j: nat, head: seq<Byte>)
    requires j < |r| && r[j] != 0xFF
    requires forall k :: j < k < |r| ==> r[k] == 0xFF
    requires head == r[..j] + [r[j] + 1]
    ensures Val(r, 256) + 1 == Val(head, 256) * Pow(256, |r| - j - 1)
    ensures ToDigits(Val(head, 256), j + 1, 256) == head
  {
    var tail := r[j + 1..];
    var p := Pow(256, |r| - j - 1);
    var v := Val(r[..j], 256);
    assert r == r[..j + 1] + tail;
    ValConcat(r[..j + 1], tail, 256);
    assert Val(r, 256) == Val(r[..j + 1], 256) * p + Val(tail, 256);
    assert r[..j + 1][..j] == r[..j];
    ValLast(r[..j + 1], 256);
    assert Val(r[..j + 1], 256) == v * 256 + r[j];
    AllMaxTail(r, j);
    assert head[..j] == r[..j];
    ValLast(head, 256);
    assert Val(head, 256) == v * 256 + (r[j] + 1);
    CarryValue(Val(r, 256), Val(r[..j + 1], 256), Val(tail, 256), Val(head, 256), v, r[j], p);
    assert AllBelow(head, 256);
    ToDigitsVal(head, 256);
  }

  lemma AllMaxTail(r: seq<Byte>, j: nat)
    requires j < |r|
    requires forall k :: j < k < |r| ==> r[k] == 0xFF
    ensures Val(r[j + 1..], 256) == Pow(256, |r| - j - 1) - 1
  {
    var tail := r[j + 1..];
    forall k | 0 <= k < |tail|
      ensures tail[k] == 255
    {
      assert tail[k] == r[j + 1 + k];
    }
    ValAllMax(tail, 256);
  }

  lemma CarryValue(x: nat, a: nat, t: nat, h: nat, v: nat, d: nat, p: nat)
    requires x == a * p + t && a == v * 256 + d && t + 1 == p && h == v * 256 + (d + 1)
    ensures x + 1 == h * p
  {
  }

  /** Every digit of zero is zero. */
  lemma {:induction false} ToDigitsZero(m: nat, b: nat)
    requires b >= 2
    ensures forall k :: 0 <= k < m ==> ToDigits(0, m, b)[k] == 0
    decreases m
  {
    if m > 0 {
      ToDigitsLast(0, m, b);
      ToDigitsZero(m - 1, b);
      forall k | 0 <= k < m
        ensures ToDigits(0, m, b)[k] == 0
      {
        if k < m - 1 {
          assert ToDigits(0, m, b)[k] == ToDigits(0, m - 1, b)[k];
        }
      }
    }
  }

  /** Adding one to all 0xFF bytes wraps around to all zero bytes. */
  lemma SuccessorWrap(r: seq<Byte>)
    requires forall k :: 0 <= k < |r| ==> r[k] == 0xFF
    ensures forall k :: 0 <= k < |r| ==> Successor(r)[k] == 0
  {
    ValAllMax(r, 256);
    DivModUnique(Pow(256, |r|), Pow(256, |r|), 1, 0);
    ZeroDigits(Val(r, 256) + 1, |r|);
  }

  /** A multiple of 256^k has k zero low digits. */
  lemma ZeroDigits(n: nat, k: nat)
    requires n % Pow(256, k) == 0
    ensures forall i :: 0 <= i < k ==> ToDigits(n, k, 256)[i] == 0
  {
    ToDigitsMod(n, k, 256);
    ToDigitsZero(k, 256);
  }

  /** Unless every byte is 0xFF, the successor is one more and so strictly greater. */
  lemma SuccessorIncreases(r: seq<Byte>)
    requires exists k :: 0 <= k < |r| && r[k] != 0xFF
    ensures Val(Successor(r), 256) == Val(r, 256) + 1
  {
    var k :| 0 <= k < |r| && r[k] != 0xFF;
    NotAllMax(r, k);
    ModSmall(Val(r, 256) + 1, Pow(256, |r|));
  }

  /** A numeral with a digit below the largest is below the largest value. */
  lemma NotAllMax(r: seq<Byte>, k: nat)
    requires k < |r| && r[k] != 0xFF
    ensures Val(r, 256) + 1 < Pow(256, |r|)
  {
    var ones: seq<nat> := seq(|r|, i => 0xFF);
    ValAllMax(ones, 256);
    assert Lex(r, ones) == Less by {
      LexBelowMax(r, ones, k);
    }
    LexVal(r, ones, 256);
  }

  lemma {:induction false} LexBelowMax(r: seq<nat>, ones: seq<nat>, k: nat)
    requires |r| == |ones| && k < |r| && r[k] != 0xFF
    requires forall i :: 0 <= i < |r| ==> r[i] <= 0xFF && ones[i] == 0xFF
    ensures Lex(r, ones) == Less
    decreases |r|
  {
    if r[0] == 0xFF {
      assert k > 0;
      LexBelowMax(r[1..], ones[1..], k - 1);
    }
  }

  /**
    Add one to the big-endian bytes buf[start..start + 10] (increment_big_endian):
    from the least significant byte, a byte below 0xFF is raised and the loop
    stops; a 0xFF byte becomes zero and the carry moves on. Nothing else in buf
    changes.
   */
  method IncrementBigEndian(buf: array<Byte>, start: nat)
    requires start + RANDOM_LEN <= buf.Length
    modifies buf
    ensures buf[start..start + RANDOM_LEN] == Successor(old(buf[start..start + RANDOM_LEN]))
    ensures forall k :: 0 <= k < buf.Length && !(start <= k < start + RANDOM_LEN) ==> buf[k] == old(buf[k])
  {
    ghost var r := buf[start..start + RANDOM_LEN];
    var i: nat := RANDOM_LEN;
    while i > 0
      invariant i <= RANDOM_LEN
      invariant forall k :: 0 <= k < buf.Length && !(start + i <= k < start + RANDOM_LEN) ==> buf[k] == old(buf[k])
      invariant forall k :: start + i <= k < start + RANDOM_LEN ==> buf[k] == 0
      invariant forall k :: i <= k < RANDOM_LEN ==> r[k] == 0xFF
    {
      i := i - 1;
      assert r[i] == buf[start + i];
      if buf[start + i] != 0xFF {
        buf[start + i] := buf[start + i] + 1;
        SuccessorCarry(r, i);
        forall k | 0 <= k < RANDOM_LEN
          ensures buf[start..start + RANDOM_LEN][k] == Successor(r)[k]
        {
          if k < i {
            assert buf[start + k] == old(buf[start + k]);
          }
        }
        SameBytes(buf[start..start + RANDOM_LEN], Successor(r));
        return;
      }
      buf[start + i] := 0;
      assert r[i] == 0xFF;
    }
    // every byte was 0xFF: the field wraps around to zero
    SuccessorWrap(r);
    forall k | 0 <= k < RANDOM_LEN
      ensures buf[start..start + RANDOM_LEN][k] == Successor(r)[k]
    {
      assert buf[start + k] == 0;
    }
    SameBytes(buf[start..start + RANDOM_LEN], Successor(r));
  }

  lemma SameBytes(a: seq<Byte>, b: seq<Byte>)
    requires |a| == |b| && forall k :: 0 <= k < |a| ==> a[k] == b[k]
    ensures a == b
  {
  }

  // ---------------------------------------------------------------------------
  // The generator

  /**
    The retained state of generate_monotonic: the last identifier (sixteen
    bytes), the clock reading it was made from and whether there is one.
   */
  class Generator {
    var last: array<Byte>
    var lastTs: U64
    var haveLast: bool

    /** The state is sixteen bytes whose timestamp is the last reading, modulo 2^48. */
    ghost predicate Valid()
      reads this, last
    {
      last.Length == 16 && (haveLast ==> Val(last[..TIMESTAMP_LEN], 256) == lastTs % TWO_48)
    }

    /** The last identifier returned. */
    function Last(): Ulid
      reads this, last
      requires Valid()
    {
      Ulid(last[..])
    }

    /** Nothing generated yet: the all-zero identifier, reading zero. */
    constructor()
      ensures Valid() && !haveLast && lastTs == 0 && Last() == ZERO && fresh(last)
    {
      last := new Byte[16](_ => 0);
      lastTs := 0;
      haveLast := false;
    }

    /**
      One step of generate_monotonic with clock reading ts and fresh random
      bytes. A first reading or a later one gives Generate(ts, random) and
      becomes the last reading; any other reading keeps the timestamp bytes
      and the last reading and adds one to the random field.
     */
    method Next(ts: U64, random: seq<Byte>) returns (u: Ulid)
      requires Valid() && |random| == RANDOM_LEN
      modifies this, last
      ensures Valid() && last == old(last) && haveLast && u == Last()
      ensures !old(haveLast) || ts > old(lastTs) ==> lastTs == ts && u == Generate(ts, random)
      ensures old(haveLast) && ts <= old(lastTs) ==>
        lastTs == old(lastTs) &&
        u.data[..TIMESTAMP_LEN] == old(last[..TIMESTAMP_LEN]) &&
        u.data[TIMESTAMP_LEN..] == Successor(old(last[TIMESTAMP_LEN..]))
    {
      if !haveLast || ts > lastTs {
        // new millisecond: fresh timestamp and fresh randomness
        lastTs := ts;
        WriteBigEndian(ts, TIMESTAMP_LEN, last, 0);
        for i := 0 to RANDOM_LEN
          modifies last
          invariant last[..TIMESTAMP_LEN] == ToDigits(ts, TIMESTAMP_LEN, 256)
          invariant forall k :: 0 <= k < i ==> last[TIMESTAMP_LEN + k] == random[k]
        {
          last[TIMESTAMP_LEN + i] := random[i];
        }
        haveLast := true;
        FreshState(last[..], ts, random);
      } else {
        // the same millisecond or an earlier one: bump the random field
        ghost var before := last[..];
        IncrementBigEndian(last, TIMESTAMP_LEN);
        KeptTimestamp(before, last[..]);
        assert last[..][TIMESTAMP_LEN..] == last[TIMESTAMP_LEN..TIMESTAMP_LEN + RANDOM_LEN];
        assert before[TIMESTAMP_LEN..] == old(last[TIMESTAMP_LEN..TIMESTAMP_LEN + RANDOM_LEN]);
      }
      u := Ulid(last[..]);
    }
  }

  /** The bytes the fresh branch leaves are those of Generate, with the reading as timestamp. */
  lemma FreshState(data: seq<Byte>, ts: U64, random: seq<Byte>)
    requires |data| == 16 && |random| == RANDOM_LEN
    requires data[..TIMESTAMP_LEN] == ToDigits(ts, TIMESTAMP_LEN, 256)
    requires forall k :: 0 <= k < RANDOM_LEN ==> data[TIMESTAMP_LEN + k] == random[k]
    ensures Ulid(data) == Generate(ts, random)
    ensures Val(data[..TIMESTAMP_LEN], 256) == ts % TWO_48
  {
    assert data == data[..TIMESTAMP_LEN] + data[TIMESTAMP_LEN..];
    assert data[TIMESTAMP_LEN..] == random;
    ValToDigits(ts, TIMESTAMP_LEN, 256);
    BytePowers();
  }

  /** A bump of bytes 6..15 leaves bytes 0..5 and so the timestamp. */
  lemma KeptTimestamp(before: seq<Byte>, after: seq<Byte>)
    requires |before| == |after| == 16
    requires forall k :: 0 <= k < 16 && !(TIMESTAMP_LEN <= k < 16) ==> after[k] == before[k]
    ensures after[..TIMESTAMP_LEN] == before[..TIMESTAMP_LEN]
  {
  }

  /**
    Each step returns an identifier strictly greater than the one before,
    provided the reading fits in 48 bits and, when the reading is not later,
    the random field is not all 0xFF (where it wraps to zero instead).
   */
  lemma NextIncreases(previous: Ulid, lastTs: U64, ts: U64, random: seq<Byte>, next: Ulid)
    requires TimestampOf(previous) == lastTs % TWO_48 && |random| == RANDOM_LEN && ts < TWO_48
    requires ts > lastTs ==> next == Generate(ts, random)
    requires ts <= lastTs ==> next.data[..TIMESTAMP_LEN] == previous.data[..TIMESTAMP_LEN] &&
                              next.data[TIMESTAMP_LEN..] == Successor(previous.data[TIMESTAMP_LEN..])
    requires ts <= lastTs ==> exists k :: TIMESTAMP_LEN <= k < 16 && previous.data[k] != 0xFF
    ensures Compare(previous, next) == Less
  {
    if ts > lastTs {
      LaterReadingIsGreater(previous, lastTs, ts, random, next);
    } else {
      var k :| TIMESTAMP_LEN <= k < 16 && previous.data[k] != 0xFF;
      BumpIsGreater(previous, next, k);
    }
  }

  lemma LaterReadingIsGreater(previous: Ulid, lastTs: U64, ts: U64, random: seq<Byte>, next: Ulid)
    requires TimestampOf(previous) == lastTs % TWO_48 && |random| == RANDOM_LEN && lastTs < ts < TWO_48
    requires next == Generate(ts, random)
    ensures Compare(previous, next) == Less
  {
    assert TimestampOf(next) == ts;
    LaterTimestampIsGreater(previous, next);
  }

  lemma BumpIsGreater(previous: Ulid, next: Ulid, k: nat)
    requires TIMESTAMP_LEN <= k < 16 && previous.data[k] != 0xFF
    requires next.data[..TIMESTAMP_LEN] == previous.data[..TIMESTAMP_LEN]
    requires next.data[TIMESTAMP_LEN..] == Successor(previous.data[TIMESTAMP_LEN..])
    ensures Compare(previous, next) == Less
  {
    var r := previous.data[TIMESTAMP_LEN..];
    assert r[k - TIMESTAMP_LEN] != 0xFF;
    SuccessorIncreases(r);
    CompareLayout(previous, next);
  }
}
