/** The 26-digit Crockford encoder behind persistent ids. */
module Ulid {
  import opened Prelude
  import Lex

  const CROCKFORD := "0123456789ABCDEFGHJKMNPQRSTVWXYZ"
  const LENGTH: nat := 26
  const RANDOM: nat := 16

  function Pow32(n: nat): nat {
    if n == 0 then 1 else 32 * Pow32(n - 1)
  }

  /** The last `n` base-32 digits of a value, most significant first. */
  function Encode(value: nat, n: nat): (s: string)
    ensures |s| == n
    decreases n
  {
    if n == 0 then "" else Encode(value / 32, n - 1) + [CROCKFORD[value % 32]]
  }

  function Reversed(s: string): (r: string)
    ensures |r| == |s|
  {
    if s == "" then "" else [s[|s| - 1]] + Reversed(s[..|s| - 1])
  }

  /** The digits come out least significant first and are reversed at the end. */
  method EncodeDigits(number: nat, n: nat) returns (id: string)
    ensures id == Encode(number, n)
  {
    var value := number;
    var chars := "";
    for i := 0 to n
      invariant |chars| == i
      invariant Encode(number, n) == Encode(value, n - i) + Reversed(chars)
    {
      var digit := CROCKFORD[value % 32];
      assert (chars + [digit])[..|chars|] == chars;
      assert Encode(value, n - i) == Encode(value / 32, n - i - 1) + [digit];
      chars := chars + [digit];
      value := value / 32;
    }
    id := Reversed(chars);
  }

  /** The number behind the id of a moment: the millisecond above 16 digits of random bits. */
  function Number(timestamp: nat, randomness: nat): nat {
    timestamp * Pow32(RANDOM) + randomness
  }

  method NewUlid(timestamp: nat, randomness: nat) returns (id: string)
    requires randomness < 0x1_0000_0000_0000_0000_0000
    ensures id == IdOf(timestamp, randomness) && |id| == 26
  {
    id := EncodeDigits(Number(timestamp, randomness), LENGTH);
  }

  function DigitOf(c: char, alphabet: string): Option<nat> {
    if alphabet == "" then None
    else if alphabet[|alphabet| - 1] == c then Some(|alphabet| - 1)
    else DigitOf(c, alphabet[..|alphabet| - 1])
  }

  function Decode(s: string): Option<nat> {
    if s == "" then Some(0)
    else
      var high, low := Decode(s[..|s| - 1]), DigitOf(s[|s| - 1], CROCKFORD);
      if high.Some? && low.Some? then Some(32 * high.value + low.value) else None
  }

  /** The alphabet ascends, so digits compare as their characters do. */
  lemma Ascending(i: nat, j: nat)
    requires i < j < 32
    ensures CROCKFORD[i] < CROCKFORD[j]
  {
    if j - i > 1 {
      Ascending(i, j - 1);
      Step(j - 1);
    } else {
      Step(i);
    }
  }

  lemma DigitsCompare(x: nat, y: nat)
    requires x < 32 && y < 32
    ensures CROCKFORD[x] < CROCKFORD[y] <==> x < y
  {
    if x < y { Ascending(x, y); }
    if y < x { Ascending(y, x); }
  }

  lemma Step(i: nat)
    requires i < 31
    ensures CROCKFORD[i] < CROCKFORD[i + 1]
  {
  }

  lemma {:induction false} DigitFound(alphabet: string, d: nat)
    requires d < |alphabet|
    requires forall i, j :: 0 <= i < j < |alphabet| ==> alphabet[i] < alphabet[j]
    ensures DigitOf(alphabet[d], alphabet) == Some(d)
  {
    if d < |alphabet| - 1 {
      assert alphabet[..|alphabet| - 1][d] == alphabet[d];
      DigitFound(alphabet[..|alphabet| - 1], d);
    }
  }

  lemma DigitRead(d: nat)
    requires d < 32
    ensures DigitOf(CROCKFORD[d], CROCKFORD) == Some(d)
  {
    forall i, j | 0 <= i < j < |CROCKFORD| ensures CROCKFORD[i] < CROCKFORD[j] { Ascending(i, j); }
    DigitFound(CROCKFORD, d);
  }

  lemma TopDigits(value: nat, p: nat)
    requires value < 32 * p
    ensures value / 32 < p
  {
  }

  lemma CompareDigits(a: nat, b: nat)
    ensures a < b <==> a / 32 < b / 32 || (a / 32 == b / 32 && a % 32 < b % 32)
  {
  }

  /** Decoding gives the value back, reduced to the digits there is room for. */
  lemma {:induction false} DecodeEncode(value: nat, n: nat)
    requires value < Pow32(n)
    ensures Decode(Encode(value, n)) == Some(value)
    decreases n
  {
    if n > 0 {
      TopDigits(value, Pow32(n - 1));
      DecodeEncode(value / 32, n - 1);
      DigitRead(value % 32);
      var s := Encode(value, n);
      assert s[..n - 1] == Encode(value / 32, n - 1);
    }
  }

  /** Different values that fit have different ids; 26 digits hold every value below 2^130. */
  lemma EncodeInjective(a: nat, b: nat, n: nat)
    requires a < Pow32(n) && b < Pow32(n)
    requires Encode(a, n) == Encode(b, n)
    ensures a == b
  {
    DecodeEncode(a, n);
    DecodeEncode(b, n);
  }

  lemma {:induction false} LessAppend(a: string, b: string, x: char, y: char)
    requires |a| == |b|
    ensures Lex.Less(a + [x], b + [y]) <==> Lex.Less(a, b) || (a == b && x < y)
  {
    if a != [] {
      assert (a + [x])[1..] == a[1..] + [x] && (b + [y])[1..] == b[1..] + [y];
      LessAppend(a[1..], b[1..], x, y);
      assert a == [a[0]] + a[1..] && b == [b[0]] + b[1..];
    }
  }

  /** Lexicographic order of ids is numeric order of values. */
  lemma {:induction false} OrderPreserved(a: nat, b: nat, n: nat)
    requires a < Pow32(n) && b < Pow32(n)
    ensures Lex.Less(Encode(a, n), Encode(b, n)) <==> a < b
    decreases n
  {
    if n > 0 {
      TopDigits(a, Pow32(n - 1));
      TopDigits(b, Pow32(n - 1));
      CompareDigits(a, b);
      OrderPreserved(a / 32, b / 32, n - 1);
      DecodeEncode(a / 32, n - 1);
      DecodeEncode(b / 32, n - 1);
      LessAppend(Encode(a / 32, n - 1), Encode(b / 32, n - 1), CROCKFORD[a % 32], CROCKFORD[b % 32]);
      DigitsCompare(a % 32, b % 32);
    }
  }

  lemma PowSplit(m: nat, n: nat)
    ensures Pow32(m + n) == Pow32(m) * Pow32(n)
    decreases m
  {
    if m > 0 {
      PowSplit(m - 1, n);
      assert Pow32(m + n) == 32 * Pow32(m - 1 + n);
      assert 32 * (Pow32(m - 1) * Pow32(n)) == (32 * Pow32(m - 1)) * Pow32(n);
    }
  }

  /** A timestamp of `m` digits above `n` random digits fits in `m + n`. */
  lemma {:induction false} Fits(timestamp: nat, randomness: nat, m: nat, n: nat)
    requires timestamp < Pow32(m) && randomness < Pow32(n)
    ensures timestamp * Pow32(n) + randomness < Pow32(m + n)
  {
    PowSplit(m, n);
    Monotone(timestamp + 1, Pow32(m), Pow32(n));
    assert (timestamp + 1) * Pow32(n) == timestamp * Pow32(n) + Pow32(n);
  }

  lemma Monotone(a: nat, b: nat, c: nat)
    requires a <= b
    ensures a * c <= b * c
  {
  }

  /** Crockford's alphabet: the decimal digits, then the capital letters without I, L, O and U. */
  lemma AlphabetExactly(d: nat)
    requires d < 32
    ensures |CROCKFORD| == 32
    ensures CROCKFORD[d] ==
      if d < 10 then '0' + d as char
      else if d < 18 then 'A' + (d - 10) as char
      else if d < 20 then 'J' + (d - 18) as char
      else if d < 22 then 'M' + (d - 20) as char
      else if d < 27 then 'P' + (d - 22) as char
      else 'V' + (d - 27) as char
  {
  }

  /** 16 digits hold 80 bits, and 10 more hold every millisecond below 2^50. */
  lemma EightyBits()
    ensures Pow32(RANDOM) == 0x1_0000_0000_0000_0000_0000
    ensures Pow32(LENGTH - RANDOM) == 0x4_0000_0000_0000
  {
    assert Pow32(5) == 0x200_0000;
    assert Pow32(10) == 0x4_0000_0000_0000;
    assert Pow32(15) == 0x800_0000_0000_0000_0000;
  }

  /** The id new ones are given for a millisecond and 80 random bits. */
  function IdOf(timestamp: nat, randomness: nat): string {
    Encode(Number(timestamp, randomness), LENGTH)
  }

  /** Ids are ordered by their millisecond, and within one by their random bits; different moments never share one. */
  lemma {:induction false} IdsInTimeOrder(t1: nat, r1: nat, t2: nat, r2: nat)
    requires t1 < 0x4_0000_0000_0000 && t2 < 0x4_0000_0000_0000
    requires r1 < 0x1_0000_0000_0000_0000_0000 && r2 < 0x1_0000_0000_0000_0000_0000
    ensures |IdOf(t1, r1)| == 26
    ensures Lex.Less(IdOf(t1, r1), IdOf(t2, r2)) <==> t1 < t2 || (t1 == t2 && r1 < r2)
    ensures IdOf(t1, r1) == IdOf(t2, r2) <==> t1 == t2 && r1 == r2
  {
    EightyBits();
    Fits(t1, r1, LENGTH - RANDOM, RANDOM);
    Fits(t2, r2, LENGTH - RANDOM, RANDOM);
    TimeDecides(t1, r1, t2, r2, Pow32(RANDOM));
    TimeDecides(t2, r2, t1, r1, Pow32(RANDOM));
    OrderPreserved(Number(t1, r1), Number(t2, r2), LENGTH);
    if IdOf(t1, r1) == IdOf(t2, r2) { EncodeInjective(Number(t1, r1), Number(t2, r2), LENGTH); }
  }

  lemma TimeDecides(t1: nat, r1: nat, t2: nat, r2: nat, p: nat)
    requires r1 < p && r2 < p
    ensures t1 < t2 ==> t1 * p + r1 < t2 * p + r2
  {
    if t1 < t2 {
      Monotone(t1 + 1, t2, p);
      assert (t1 + 1) * p == t1 * p + p;
    }
  }
}
