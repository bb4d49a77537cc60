/** Printing integers in decimal: the exact digit count, the two-digits-at-a-time writer and the
    integer overloads of `to_string`. */
module Decimal {
  import Gcds
  import opened Powers

  function Digit(d: nat): char
    requires d < 10
  {
    (d + 48) as char
  }

  // The table of digit pairs, in ten rows of ten pairs.
  const ROW0 := "00010203040506070809"
  const ROW1 := "10111213141516171819"
  const ROW2 := "20212223242526272829"
  const ROW3 := "30313233343536373839"
  const ROW4 := "40414243444546474849"
  const ROW5 := "50515253545556575859"
  const ROW6 := "60616263646566676869"
  const ROW7 := "70717273747576777879"
  const ROW8 := "80818283848586878889"
  const ROW9 := "90919293949596979899"

  /** The `i`-th character of ten rows. */
  function Pick(i: nat, r: seq<string>): char
    requires i < 200 && |r| == 10 && forall k | 0 <= k < 10 :: |r[k]| == 20
  {
    r[i / 20][i % 20]
  }

  /** The table lookup. */
  function TableAt(i: nat): (c: char)
    requires i < 200
  {
    Pick(i, [ROW0, ROW1, ROW2, ROW3, ROW4, ROW5, ROW6, ROW7, ROW8, ROW9])
  }

  /** The pairs of the ten numbers with first digit `d`. */
  function Pairs(d: nat): (p: string)
    requires d < 10
    ensures |p| == 20
  {
    var c := Digit(d);
    [c, '0', c, '1', c, '2', c, '3', c, '4', c, '5', c, '6', c, '7', c, '8', c, '9']
  }

  lemma Row0Pairs() ensures ROW0 == Pairs(0) {}
  lemma Row1Pairs() ensures ROW1 == Pairs(1) {}
  lemma Row2Pairs() ensures ROW2 == Pairs(2) {}
  lemma Row3Pairs() ensures ROW3 == Pairs(3) {}
  lemma Row4Pairs() ensures ROW4 == Pairs(4) {}
  lemma Row5Pairs() ensures ROW5 == Pairs(5) {}
  lemma Row6Pairs() ensures ROW6 == Pairs(6) {}
  lemma Row7Pairs() ensures ROW7 == Pairs(7) {}
  lemma Row8Pairs() ensures ROW8 == Pairs(8) {}
  lemma Row9Pairs() ensures ROW9 == Pairs(9) {}

  lemma PairsAt(d: nat, m: nat)
    requires d < 10 && m < 10
    ensures Pairs(d)[2 * m] == Digit(d) && Pairs(d)[2 * m + 1] == Digit(m)
  {
  }

  lemma Picked(n: nat, r: seq<string>)
    requires n < 100 && |r| == 10 && forall k | 0 <= k < 10 :: |r[k]| == 20 && r[k] == Pairs(k)
    ensures Pick(n * 2, r) == Digit(n / 10) && Pick(n * 2 + 1, r) == Digit(n % 10)
  {
    var k, m := n / 10, n % 10;
    PairsAt(k, m);
    assert (n * 2) / 20 == k && (n * 2) % 20 == 2 * m;
    assert (n * 2 + 1) / 20 == k && (n * 2 + 1) % 20 == 2 * m + 1;
  }

  lemma TablePairs(n: nat)
    requires n < 100
    ensures TableAt(n * 2) == Digit(n / 10) && TableAt(n * 2 + 1) == Digit(n % 10)
  {
    Row0Pairs(); Row1Pairs(); Row2Pairs(); Row3Pairs(); Row4Pairs();
    Row5Pairs(); Row6Pairs(); Row7Pairs(); Row8Pairs(); Row9Pairs();
    Picked(n, [ROW0, ROW1, ROW2, ROW3, ROW4, ROW5, ROW6, ROW7, ROW8, ROW9]);
  }

  // ----- what decimal text means -----

  predicate IsDigit(c: char) { '0' <= c <= '9' }

  predicate AllDigits(s: string) {
    forall i | 0 <= i < |s| :: IsDigit(s[i])
  }

  /** Reading decimal text. */
  function Value(s: string): nat
    requires AllDigits(s)
  {
    if s == [] then 0 else Value(s[..|s| - 1]) * 10 + (s[|s| - 1] as nat - 48)
  }

  /** The text of a number, most significant digit first. */
  function Dec(n: nat): (s: string)
    ensures s != [] && AllDigits(s)
  {
    if n < 10 then [Digit(n)] else Dec(n / 10) + [Digit(n % 10)]
  }

  /** At least one digit, and no needless leading zero. */
  predicate Canonical(s: string) {
    AllDigits(s) && s != [] && (|s| > 1 ==> s[0] != '0')
  }

  lemma {:induction false} ReadBack(n: nat)
    ensures Value(Dec(n)) == n && Canonical(Dec(n)) && (n > 0 ==> Dec(n)[0] != '0')
  {
    if n < 10 {
      assert Dec(n)[..0] == [];
    } else {
      ReadBack(n / 10);
      assert Dec(n)[..|Dec(n)| - 1] == Dec(n / 10);
    }
  }

  lemma {:induction false} PrintBack(s: string)
    requires Canonical(s)
    ensures Dec(Value(s)) == s
  {
    var s', d := s[..|s| - 1], s[|s| - 1] as nat - 48;
    assert s == s' + [Digit(d)];
    if s' == [] {
      assert Value(s') == 0;
    } else {
      PrintBack(s');
      LeadingDigit(s');
      assert Value(s) / 10 == Value(s') && Value(s) % 10 == d;
    }
  }

  lemma {:induction false} LeadingDigit(s: string)
    requires AllDigits(s) && s != [] && s[0] != '0'
    ensures Value(s) > 0
  {
    if |s| > 1 {
      LeadingDigit(s[..|s| - 1]);
    }
  }

  // ----- how many digits -----

  /** `n` digits are needed to write `v` in base `b`. */
  predicate Needs(b: nat, v: nat, n: nat) {
    n > 0 && v < Pow(b, n) && (v > 0 ==> Pow(b, n - 1) <= v) && (v == 0 ==> n == 1)
  }

  lemma SmallPowers(b: nat)
    ensures Pow(b, 0) == 1 && Pow(b, 1) == b && Pow(b, 2) == b * b
    ensures Pow(b, 3) == b * b * b && Pow(b, 4) == b * b * b * b
  {
    assert Pow(b, 1) == b * Pow(b, 0);
    assert Pow(b, 2) == b * Pow(b, 1);
    assert Pow(b, 3) == b * Pow(b, 2);
    assert Pow(b, 4) == b * Pow(b, 3);
  }

  /** `v` is `value` without its last `n` digits. */
  ghost predicate Prefix(b: nat, value: nat, v: nat, n: nat) {
    Pow(b, n) * v <= value < Pow(b, n) * (v + 1) && (v > 0 || n == 0)
  }

  lemma {:induction false} PrefixNeeds(b: nat, value: nat, v: nat, n: nat, j: nat)
    requires b > 0 && Prefix(b, value, v, n) && Needs(b, v, j)
    ensures Needs(b, value, n + j)
  {
    PowPositive(b, n);
    Bounded(1, Pow(b, n), v, v);
    PowAdd(b, n, j);
    PowAdd(b, n, j - 1);
    Monotone(Pow(b, n), v + 1, Pow(b, j));
    if v > 0 {
      Monotone(Pow(b, n), Pow(b, j - 1), v);
    }
  }

  lemma Monotone(p: nat, x: nat, y: nat)
    requires x <= y
    ensures p * x <= p * y
  {
  }

  lemma {:induction false} PrefixFour(b: nat, value: nat, v: nat, n: nat, p: nat, q: nat)
    requires Prefix(b, value, v, n) && p == Pow(b, 4) && p * q <= v < p * (q + 1) && q > 0
    ensures Prefix(b, value, q, n + 4)
  {
    PowAdd(b, n, 4);
    var m := Pow(b, n);
    Monotone(m, p * q, v);
    Monotone(m, v + 1, p * (q + 1));
    Gcds.Assoc(m, p, q);
    Gcds.Assoc(m, p, q + 1);
  }

  lemma Dividing(v: nat, p: nat)
    requires 0 < p <= v
    ensures p * (v / p) <= v < p * (v / p + 1) && v / p > 0
    ensures p > 1 ==> v / p < v
  {
    assert v == p * (v / p) + v % p;
    if p > 1 {
      Bounded(2, p, v / p, v / p);
    }
  }

  /** The width of the type that holds the powers of the base. */
  const U32 := 0x1_0000_0000

  /** The exact number of digits. */
  method ToCharsLen(value: nat, base: nat) returns (n: nat)
    requires 2 <= base <= 36
    ensures Needs(base, value, n)
  {
    var b2 := (base * base) % U32;
    var b3 := (b2 * base) % U32;
    var b4 := (b3 * base) % U32;
    NoWrap(base);
    SmallPowers(base);
    var v: nat := value;
    n := 1;
    while true
      invariant n > 0 && Prefix(base, value, v, n - 1)
      decreases v
    {
      if v < base { PrefixNeeds(base, value, v, n - 1, 1); return n; }
      if v < b2 { PrefixNeeds(base, value, v, n - 1, 2); return n + 1; }
      if v < b3 { PrefixNeeds(base, value, v, n - 1, 3); return n + 2; }
      if v < b4 { PrefixNeeds(base, value, v, n - 1, 4); return n + 3; }
      Dividing(v, b4);
      PrefixFour(base, value, v, n - 1, b4, v / b4);
      v := v / b4;
      n := n + 4;
    }
  }

  lemma NoWrap(base: nat)
    requires 2 <= base <= 36
    ensures (base * base) % U32 == base * base
    ensures (base * base * base) % U32 == base * base * base
    ensures (base * base * base * base) % U32 == base * base * base * base > 1
  {
    Bounded(1, base, 2, base);
    Bounded(1, base * base, 2, base);
    Bounded(1, base * base * base, 2, base);
    Bounded(base, 36, base, 36);
    Bounded(base * base, 36 * 36, base, 36);
    Bounded(base * base * base, 36 * 36 * 36, base, 36);
  }

  // ----- writing -----

  /** The text of a number has exactly the number of digits the count gives. */
  lemma {:induction false} DecLength(v: nat)
    ensures Needs(10, v, |Dec(v)|)
  {
    if v < 10 {
      SmallPowers(10);
    } else {
      DecLength(v / 10);
    }
  }

  lemma {:induction false} NeedsUnique(b: nat, v: nat, m: nat, n: nat)
    requires b > 0 && Needs(b, v, m) && Needs(b, v, n)
    ensures m == n
  {
    if m < n {
      PowMonotone(b, m, n - 1);
    } else if n < m {
      PowMonotone(b, n, m - 1);
    }
  }

  /** The last two digits and the rest. */
  lemma {:induction false} DecTwo(v: nat)
    requires v >= 100
    ensures Dec(v) == Dec(v / 100) + [Digit(v % 100 / 10), Digit(v % 100 % 10)]
  {
    assert v / 10 / 10 == v / 100 && v / 10 % 10 == v % 100 / 10 && v % 10 == v % 100 % 10;
    assert Dec(v) == Dec(v / 10) + [Digit(v % 10)];
    assert Dec(v / 10) == Dec(v / 100) + [Digit(v / 10 % 10)];
  }

  /** Writes the two digits of `n` at positions `p - 1` and `p`. */
  method PutPair(buf: array<char>, p: nat, n: nat)
    requires 0 < p < buf.Length && n < 100
    modifies buf
    ensures buf[p - 1] == Digit(n / 10) && buf[p] == Digit(n % 10)
    ensures forall i | 0 <= i < buf.Length && i != p - 1 && i != p :: buf[i] == old(buf[i])
  {
    var num := n * 2;
    TablePairs(n);
    buf[p] := TableAt(num + 1);
    buf[p - 1] := TableAt(num);
  }

  /** Writes `value` into `len` characters from `off` on, two digits at a time from the back. That
      `pos` is a `nat` says it never wraps. */
  method ToChars10(buf: array<char>, off: nat, len: nat, value: nat)
    requires Needs(10, value, len) && off + len <= buf.Length
    modifies buf
    ensures buf[..] == old(buf[..])[..off] + Dec(value) + old(buf[..])[off + len..]
  {
    assert |Dec(value)| == len by {
      DecLength(value);
      NeedsUnique(10, value, len, |Dec(value)|);
    }
    ghost var text := Dec(value);
    var pos: nat := len - 1;
    var val: nat := value;
    while val >= 100
      invariant pos < len && Dec(val) == text[..pos + 1]
      invariant forall i | pos < i < len :: buf[off + i] == text[i]
      invariant forall i | 0 <= i < off || off + len <= i < buf.Length :: buf[i] == old(buf[i])
      decreases val
    {
      TwoMore(val, text, pos);
      var n := val % 100;
      val := val / 100;
      PutPair(buf, off + pos, n);
      pos := pos - 2;
    }
    PutLast(buf, off, val);
    Pieced(old(buf[..]), text, buf[..], off);
  }

  /** Writes the first one or two digits. */
  method PutLast(buf: array<char>, off: nat, val: nat)
    requires val < 100 && off + |Dec(val)| <= buf.Length
    modifies buf
    ensures forall i | 0 <= i < |Dec(val)| :: buf[off + i] == Dec(val)[i]
    ensures forall i | 0 <= i < off || off + |Dec(val)| <= i < buf.Length :: buf[i] == old(buf[i])
  {
    if val >= 10 {
      assert Dec(val) == [Digit(val / 10), Digit(val % 10)];
      PutPair(buf, off + 1, val);
    } else {
      buf[off] := Digit(val);
    }
  }

  /** `now` is `was` with `text` written from `off` on. */
  lemma Pieced(was: string, text: string, now: string, off: nat)
    requires |now| == |was| && off + |text| <= |was|
    requires forall i | 0 <= i < |text| :: now[off + i] == text[i]
    requires forall i | 0 <= i < off || off + |text| <= i < |was| :: now[i] == was[i]
    ensures now == was[..off] + text + was[off + |text|..]
  {
    assert now[..off] == was[..off];
    assert now[off..off + |text|] == text;
    assert now[off + |text|..] == was[off + |text|..];
  }

  /** The text up to `p` is that of `v`, so its last two characters are the last two digits. */
  lemma TwoMore(v: nat, text: string, p: nat)
    requires v >= 100 && p < |text| && Dec(v) == text[..p + 1]
    ensures p >= 2 && Dec(v / 100) == text[..p - 1]
    ensures text[p - 1] == Digit(v % 100 / 10) && text[p] == Digit(v % 100 % 10)
  {
    DecTwo(v);
    var a, b := Dec(v / 100), [Digit(v % 100 / 10), Digit(v % 100 % 10)];
    assert |a + b| == p + 1 && (a + b)[|a|] == b[0] && (a + b)[|a| + 1] == b[1];
    assert (a + b)[..|a|] == a;
  }

  // ----- the integer overloads of to_string -----

  /** The text of a signed number. */
  function SignedDec(v: int): string {
    if v < 0 then "-" + Dec(-v) else Dec(v)
  }

  /** Text such as `to_string` writes: a canonical number, with a sign if it is not zero. */
  predicate CanonicalSigned(s: string) {
    if s != [] && s[0] == '-' then Canonical(s[1..]) && s[1..] != "0" else Canonical(s)
  }

  function ReadSigned(s: string): int
    requires CanonicalSigned(s)
  {
    if s[0] == '-' then 0 - Value(s[1..]) else Value(s)
  }

  /** Printing and reading undo each other, both ways round and for every integer. */
  lemma SignedRoundTrip(v: int)
    ensures CanonicalSigned(SignedDec(v)) && ReadSigned(SignedDec(v)) == v
  {
    ReadBack(if v < 0 then -v else v);
    var d := Dec(if v < 0 then -v else v);
    assert IsDigit(d[0]);
    if v < 0 {
      assert SignedDec(v)[1..] == d;
    }
  }

  lemma SignedRoundTripBack(s: string)
    requires CanonicalSigned(s)
    ensures SignedDec(ReadSigned(s)) == s
  {
    if s[0] == '-' {
      PrintBack(s[1..]);
      assert Dec(0) == "0";
      assert s == "-" + s[1..];
    } else {
      PrintBack(s);
    }
  }

  /** `to_string` of a signed type of the given width. */
  method ToStringSigned(val: int, bits: nat) returns (s: string)
    requires bits > 0 && 0 - Pow(2, bits - 1) <= val < Pow(2, bits - 1)
    ensures s == SignedDec(val)
  {
    var neg := val < 0;
    if neg {
      NegateInWidth(val, bits);
    }
    var uval: nat := if neg then (-val - 1 + 1) % Pow(2, bits) else val;
    var len := ToCharsLen(uval, 10);
    var sign := if neg then 1 else 0;
    var buf := new char[sign + len];
    buf[0] := '-';
    ToChars10(buf, sign, len, uval);
    s := buf[..];
  }

  /** Complementing and adding one in the unsigned type gives the magnitude, even of the least value. */
  lemma NegateInWidth(val: int, bits: nat)
    requires bits > 0 && 0 - Pow(2, bits - 1) <= val < 0
    ensures (-val - 1 + 1) % Pow(2, bits) == -val
  {
    assert Pow(2, bits) == 2 * Pow(2, bits - 1);
  }

  method ToStringUnsigned(val: nat) returns (s: string)
    ensures s == Dec(val)
  {
    var len := ToCharsLen(val, 10);
    var buf := new char[len];
    ToChars10(buf, 0, len, val);
    s := buf[..];
  }

  /** Any 32-bit value fits the local buffer of a string, so printing it allocates nothing. */
  lemma FitsLocalBuffer(val: int)
    requires 0 - Pow(2, 31) <= val < Pow(2, 32)
    ensures |SignedDec(val)| <= 15
  {
    var v := if val < 0 then -val else val;
    DecLength(v);
    if |Dec(v)| > 14 {
      PowMonotone(10, 14, |Dec(v)| - 1);
      TenToFourteen();
    }
  }

  lemma TenToFourteen()
    ensures Pow(10, 14) > Pow(2, 32)
  {
    assert Pow(10, 4) == 10000 && Pow(2, 4) == 16;
    PowAdd(10, 4, 4);
    PowAdd(2, 4, 4);
    PowAdd(10, 8, 4);
    PowAdd(2, 8, 8);
    PowAdd(2, 16, 16);
    PowMonotone(10, 12, 14);
  }
}
