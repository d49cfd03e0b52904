/** Integers as decimal text: counting digits without division, writing two digits at a time, and reading back. */
module IntegerText {
  import opened Arith
  import opened Decimals
  import opened Subsegment
  import opened Texts

  // ---- Numerals

  function DigitCount(n: nat): (d: nat)
    ensures d > 0
  {
    if n < 10 then 1 else 1 + DigitCount(n / 10)
  }

  /** The numeral of n without leading zeros. */
  function Numeral(n: nat): (s: seq<char>)
    ensures |s| == DigitCount(n) && AllDigits(s)
  {
    Padded(n, DigitCount(n))
  }

  /** The number of digits says between which powers of ten n lies. */
  lemma {:induction false} DigitCountBounds(n: nat)
    ensures n < Pow(10, DigitCount(n))
    ensures n > 0 ==> Pow(10, DigitCount(n) - 1) <= n
  {
    if n >= 10 {
      DigitCountBounds(n / 10);
    }
  }

  lemma DigitCountUnique(n: nat, d: nat)
    requires n < Pow(10, d) && d > 0 && (d > 1 ==> Pow(10, d - 1) <= n)
    ensures DigitCount(n) == d
  {
    var c := DigitCount(n);
    DigitCountBounds(n);
    if c < d {
      PowMonotonic(10, c, d - 1);
    } else if d < c {
      PowMonotonic(10, d, c - 1);
    }
  }

  /** The numeral denotes the number, and starts with a zero only if it is zero. */
  lemma NumeralDenotes(n: nat)
    ensures Decimal(Numeral(n)) == n
    ensures Numeral(n)[0] == '0' <==> n == 0
  {
    DigitCountBounds(n);
    PaddedDecimal(n, DigitCount(n));
    LeadingDigit(n);
  }

  lemma {:induction false} LeadingDigit(n: nat)
    ensures Numeral(n)[0] == '0' <==> n == 0
  {
    if n < 10 {
      PaddedOne(n);
    } else {
      LeadingDigit(n / 10);
      assert Numeral(n) == Numeral(n / 10) + [DigitChar(n % 10)];
    }
  }

  // ---- Counting digits

  /** The index of the highest set bit. */
  function Bsr(n: nat): nat
    requires n > 0
  {
    if n == 1 then 0 else 1 + Bsr(n / 2)
  }

  lemma {:induction false} BsrBounds(n: nat)
    requires n > 0
    ensures Pow(2, Bsr(n)) <= n < Pow(2, Bsr(n) + 1)
  {
    if n > 1 {
      BsrBounds(n / 2);
    }
  }

  function Or1(n: nat): (m: nat)
    ensures m > 0
  {
    if n % 2 == 0 then n + 1 else n
  }

  lemma BsrOfOr1(n: nat, bits: nat)
    requires n < Pow(2, bits) && bits > 0
    ensures var b := Bsr(Or1(n));
      b < bits && n < Pow(2, b + 1) && (b > 0 ==> Pow(2, b) <= n)
  {
    var m := Or1(n);
    var b := Bsr(m);
    BsrBounds(m);
    assert Pow(2, bits) == 2 * Pow(2, bits - 1);
    if b >= bits {
      PowMonotonic(2, bits, b);
    }
    if b > 0 {
      assert Pow(2, b) == 2 * Pow(2, b - 1);
    }
  }

  // ---- The powers between which the table rows lie

  lemma Doubled(k: nat)
    ensures Pow(2, k + 1) == 2 * Pow(2, k) && Pow(2, k + 3) == 8 * Pow(2, k) && Pow(2, k + 4) == 16 * Pow(2, k)
  {
    assert Pow(2, k + 2) == 2 * Pow(2, k + 1);
    assert Pow(2, k + 3) == 2 * Pow(2, k + 2);
    assert Pow(2, k + 4) == 2 * Pow(2, k + 3);
  }

  lemma PowersOfTwo()
    ensures Pow(2, 0) == 1 && Pow(2, 3) == 8 && Pow(2, 6) == 64 && Pow(2, 9) == 512
    ensures Pow(2, 13) == 8192 && Pow(2, 16) == 65536 && Pow(2, 19) == 524288 && Pow(2, 23) == 8388608
    ensures Pow(2, 26) == 67108864 && Pow(2, 27) == 134217728 && Pow(2, 29) == 536870912 && Pow(2, 32) == 4294967296
    ensures Pow(2, 33) == 8589934592 && Pow(2, 36) == 68719476736
    ensures Pow(2, 39) == 549755813888 && Pow(2, 43) == 8796093022208
    ensures Pow(2, 46) == 70368744177664 && Pow(2, 49) == 562949953421312
    ensures Pow(2, 53) == 9007199254740992 && Pow(2, 56) == 72057594037927936
    ensures Pow(2, 59) == 576460752303423488 && Pow(2, 63) == 9223372036854775808 && Pow(2, 64) == 18446744073709551616
  {
    assert Pow(2, 0) == 1;
    hide Pow;
    Doubled(0); Doubled(3); Doubled(6); Doubled(9); Doubled(13); Doubled(16); Doubled(19); Doubled(23);
    Doubled(26); Doubled(29); Doubled(33); Doubled(36); Doubled(39); Doubled(43); Doubled(46); Doubled(49);
    Doubled(53); Doubled(56); Doubled(59); Doubled(63); Doubled(26);
  }

  lemma PowersOfTen()
    ensures Pow(10, 0) == 1 && Pow(10, 1) == 10 && Pow(10, 2) == 100
    ensures Pow(10, 3) == 1000 && Pow(10, 4) == 10000 && Pow(10, 5) == 100000
    ensures Pow(10, 6) == 1000000 && Pow(10, 7) == 10000000 && Pow(10, 8) == 100000000
    ensures Pow(10, 9) == 1000000000 && Pow(10, 10) == 10000000000 && Pow(10, 11) == 100000000000
    ensures Pow(10, 12) == 1000000000000 && Pow(10, 13) == 10000000000000 && Pow(10, 14) == 100000000000000
    ensures Pow(10, 15) == 1000000000000000 && Pow(10, 16) == 10000000000000000 && Pow(10, 17) == 100000000000000000
    ensures Pow(10, 18) == 1000000000000000000 && Pow(10, 19) == 10000000000000000000
    ensures Pow(10, 20) == 100000000000000000000
  {
    assert Pow(10, 5) == 100000;
    assert Pow(10, 10) == 100000 * 100000 by { PowAdd(10, 5, 5); }
    assert Pow(10, 15) == 100000 * 10000000000 by { PowAdd(10, 5, 10); }
  }

  lemma Between(b: nat, lo: nat, hi: nat)
    requires lo <= b < hi
    ensures Pow(2, lo) <= Pow(2, b) && Pow(2, b + 1) <= Pow(2, hi)
  {
    PowMonotonic(2, lo, b);
    PowMonotonic(2, b + 1, hi);
  }

  // ---- The 32-bit count

  /** By highest bit, the number whose literal the table row was made from. */
  function Threshold(b: nat): nat
    requires b < 32
  {
    if b < 3 then 0 else if b < 27 then Pow(10, b / 3) else Pow(10, 9)
  }

  /** A table row: the length of the literal in the upper half, less the number itself. */
  function Inc(threshold: nat): int
  {
    DigitCount(threshold) * W32 - threshold
  }

  lemma Bits32(n: nat)
    requires n < W32
    ensures var b := Bsr(Or1(n));
      b < 32 && n < Pow(2, b + 1) && (b > 0 ==> Pow(2, b) <= n)
  {
    PowersOfTwo();
    BsrOfOr1(n, 32);
  }

  function CountDigits32(n: nat): int
    requires n < W32
  {
    var b := Bsr(Or1(n));
    Bits32(n);
    (n + Inc(Threshold(b))) / W32
  }

  lemma Row32(b: nat, d: nat)
    requires b < 32 && d == Min(b / 3 + 1, 10)
    ensures Threshold(b) == (if d == 1 then 0 else Pow(10, d - 1)) && DigitCount(Threshold(b)) == d
    ensures Pow(2, b + 1) <= Pow(10, d) && (d > 2 ==> b > 0 && Pow(10, d - 2) <= Pow(2, b))
    ensures Threshold(b) < W32
  {
    hide Pow, DigitCount;
    Between(b, 3 * (d - 1), if d == 10 then 32 else 3 * d);
    RowPowers(d);
    PowerHas(d);
  }

  lemma {:induction false} RowPowers(d: nat)
    requires 1 <= d <= 10
    ensures Pow(2, if d == 10 then 32 else 3 * d) <= Pow(10, d) && Pow(10, d - 1) < W32
    ensures d > 2 ==> Pow(10, d - 2) <= Pow(2, 3 * (d - 1))
  {
    PowersOfTwo();
    PowersOfTen();
    if d > 1 {
      RowPowers(d - 1);
      Doubled(3 * (d - 1));
    }
  }

  lemma PowerHas(d: nat)
    requires d > 0
    ensures DigitCount(0) == 1 && DigitCount(Pow(10, d - 1)) == d
  {
    PowMonotonic(10, d - 1, d);
    PowPositive(10, d - 1);
    DigitCountUnique(Pow(10, d - 1), d);
  }

  /** The table-driven count is the number of decimal digits. */
  lemma CountDigits32IsDigitCount(n: nat)
    requires n < W32
    ensures CountDigits32(n) == DigitCount(n)
  {
    hide Pow, DigitCount, Bsr;
    Bits32(n);
    var b := Bsr(Or1(n));
    var t, d := Threshold(b), Min(b / 3 + 1, 10);
    Row32(b, d);
    if n >= t {
      DigitCountUnique(n, d);
      DivModUnique(n + d * W32 - t, W32, d, n - t);
    } else {
      DigitCountUnique(n, d - 1);
      DivModUnique(n + d * W32 - t, W32, d - 1, W32 + n - t);
    }
  }

  // ---- The 64-bit count

  /** The table bsr2log10, equal neighbours joined: by highest bit, the digits of the largest number that has it. */
  function Bsr2Log10(b: nat): nat
    requires b < 64
  {
    if b < 3 then 1 else if b < 6 then 2 else if b < 9 then 3 else if b < 13 then 4 else if b < 16 then 5 else
    if b < 19 then 6 else if b < 23 then 7 else if b < 26 then 8 else if b < 29 then 9 else
    if b < 33 then 10 else if b < 36 then 11 else if b < 39 then 12 else if b < 43 then 13 else
    if b < 46 then 14 else if b < 49 then 15 else if b < 53 then 16 else if b < 56 then 17 else
    if b < 59 then 18 else if b < 63 then 19 else 20
  }

  function ZeroOrPowerOf10(t: nat): nat
  {
    if t < 2 then 0 else Pow(10, t - 1)
  }

  lemma Bits64(n: nat)
    requires n < W64
    ensures var b := Bsr(Or1(n));
      b < 64 && n < Pow(2, b + 1) && (b > 0 ==> Pow(2, b) <= n)
  {
    PowersOfTwo();
    BsrOfOr1(n, 64);
  }

  function CountDigits64(n: nat): int
    requires n < W64
  {
    var b := Bsr(Or1(n));
    Bits64(n);
    Row64(b);
    var t := Bsr2Log10(b);
    t - (if n < ZeroOrPowerOf10(t) then 1 else 0)
  }

  lemma Row64(b: nat)
    requires b < 64
    ensures var t := Bsr2Log10(b);
      && 1 <= t <= 20 && Pow(2, b + 1) <= Pow(10, t) && (t >= 2 ==> b > 0 && Pow(10, t - 2) <= Pow(2, b))
  {
    hide Pow;
    PowersOfTwo();
    PowersOfTen();
    if b < 3 {
      Between(b, 0, 3);
    } else if b < 6 {
      Between(b, 3, 6);
    } else if b < 9 {
      Between(b, 6, 9);
    } else if b < 13 {
      Between(b, 9, 13);
    } else if b < 16 {
      Between(b, 13, 16);
    } else if b < 19 {
      Between(b, 16, 19);
    } else if b < 23 {
      Between(b, 19, 23);
    } else if b < 26 {
      Between(b, 23, 26);
    } else if b < 29 {
      Between(b, 26, 29);
    } else if b < 33 {
      Between(b, 29, 33);
    } else if b < 36 {
      Between(b, 33, 36);
    } else if b < 39 {
      Between(b, 36, 39);
    } else if b < 43 {
      Between(b, 39, 43);
    } else if b < 46 {
      Between(b, 43, 46);
    } else if b < 49 {
      Between(b, 46, 49);
    } else if b < 53 {
      Between(b, 49, 53);
    } else if b < 56 {
      Between(b, 53, 56);
    } else if b < 59 {
      Between(b, 56, 59);
    } else if b < 63 {
      Between(b, 59, 63);
    } else if b < 64 {
      Between(b, 63, 64);
    }
  }

  lemma CountDigits64IsDigitCount(n: nat)
    requires n < W64
    ensures CountDigits64(n) == DigitCount(n)
  {
    hide Pow, DigitCount, Bsr;
    Bits64(n);
    var b := Bsr(Or1(n));
    Row64(b);
    var t := Bsr2Log10(b);
    DigitCountUnique(n, if n < ZeroOrPowerOf10(t) then t - 1 else t);
  }
  // ---- The loop used for wider integers

  method CountDigitsFallback(n: nat) returns (count: int)
    ensures count == DigitCount(n)
  {
    count := 1;
    var m := n;
    while true
      invariant DigitCount(n) == DigitCount(m) + count - 1
      decreases m
    {
      FewerDigits(m);
      if m < 10 { return count; }
      if m < 100 { return count + 1; }
      if m < 1000 { return count + 2; }
      if m < 10000 { return count + 3; }
      FourDigits(m);
      m := m / 10000;
      count := count + 4;
    }
  }

  lemma FewerDigits(m: nat)
    ensures 10 <= m < 100 ==> DigitCount(m) == 2
    ensures 100 <= m < 1000 ==> DigitCount(m) == 3
    ensures 1000 <= m < 10000 ==> DigitCount(m) == 4
  {
    PowersOfTen();
    hide DigitCount;
    if 10 <= m < 10000 {
      DigitCountUnique(m, if m < 100 then 2 else if m < 1000 then 3 else 4);
    }
  }

  lemma FourDigits(m: nat)
    requires m >= 10000
    ensures DigitCount(m) == DigitCount(m / 10000) + 4
  {
    assert m / 10 / 10 / 10 / 10 == m / 10000;
    assert DigitCount(m) == 1 + (1 + DigitCount(m / 10 / 10));
    assert DigitCount(m / 10 / 10) == 1 + (1 + DigitCount(m / 10 / 10 / 10 / 10));
  }

  // ---- Writing

  /** Writes the numeral at the end of the size characters from at on; begin is where it starts. */
  method FormatDecimal(out: array<char>, at: nat, value: nat, size: nat) returns (begin: nat, end: nat)
    requires DigitCount(value) <= size && at + size <= out.Length
    modifies out
    ensures end == at + size && begin == end - DigitCount(value)
    ensures out[..] == Replaced(old(out[..]), begin, Numeral(value))
  {
    hide Replaced, Numeral;
    ghost var before, text: seq<char> := out[..], [];
    var v := value;
    end := at + size;
    begin := end;
    ReplacedStart(before, begin);
    assert Numeral(value) + [] == Numeral(value);
    while v >= 100
      invariant Numeral(value) == Numeral(v) + text && begin == end - |text| && |Numeral(value)| == DigitCount(value)
      invariant out.Length == |before| && out[..] == Replaced(before, begin, text)
    {
      NumeralPair(v);
      begin := begin - 2;
      Copy2(out, begin, Digits2(v % 100));
      PairBefore(before, begin, Digits2(v % 100), text);
      text := Digits2(v % 100) + text;
      v := v / 100;
    }
    NumeralEnds(v);
    if v < 10 {
      begin := begin - 1;
      out[begin] := DigitChar(v);
      OneBefore(before, begin, DigitChar(v), text);
      return;
    }
    begin := begin - 2;
    Copy2(out, begin, Digits2(v));
    PairBefore(before, begin, Digits2(v), text);
  }

  lemma NumeralPair(v: nat)
    requires v >= 100
    ensures Numeral(v) == Numeral(v / 100) + Digits2(v % 100)
    ensures DigitCount(v) == DigitCount(v / 100) + 2
  {
    assert v / 10 / 10 == v / 100;
    assert DigitCount(v) == 1 + (1 + DigitCount(v / 10 / 10));
    PaddedTwo(v, DigitCount(v / 100));
  }

  lemma NumeralEnds(v: nat)
    ensures v < 10 ==> Numeral(v) == [DigitChar(v)]
    ensures 10 <= v < 100 ==> Numeral(v) == Digits2(v)
  {
    if v < 10 {
      PaddedOne(v);
    } else if v < 100 {
      assert DigitCount(v) == 2;
      PaddedPair(v);
    }
  }

  lemma PairBefore(s: seq<char>, at: nat, t: seq<char>, text: seq<char>)
    requires |t| == 2 && at + 2 + |text| <= |s|
    ensures |Replaced(s, at + 2, text)| == |s|
    ensures Replaced(s, at + 2, text)[at := t[0]][at + 1 := t[1]] == Replaced(s, at, t + text)
  {}

  lemma OneBefore(s: seq<char>, at: nat, c: char, text: seq<char>)
    requires at + 1 + |text| <= |s|
    ensures |Replaced(s, at + 1, text)| == |s|
    ensures Replaced(s, at + 1, text)[at := c] == Replaced(s, at, [c] + text)
  {}

  // ---- Reading

  /** Where the digits from i on end. */
  function DigitsEnd(s: seq<char>, i: nat): (e: nat)
    requires i <= |s|
    ensures i <= e <= |s| && AllDigits(s[i..e]) && (e < |s| ==> !IsDigit(s[e]))
    ensures i < |s| && IsDigit(s[i]) ==> i < e
    decreases |s| - i
  {
    if i == |s| || !IsDigit(s[i]) then i else DigitsEnd(s, i + 1)
  }

  /** What reading a non-negative int gives: ten digits at most, and no more than INT_MAX. */
  function NonnegativeInt(s: seq<char>, i: nat, errorValue: int): int
    requires i <= |s|
  {
    var e := DigitsEnd(s, i);
    var n := Decimal(s[i..e]);
    if e - i <= 10 && n <= INT_MAX then n else errorValue
  }

  /** The accumulator wraps around; the previous value and the number of digits show whether that matters. */
  method ParseNonnegativeInt(s: seq<char>, begin: nat, errorValue: int) returns (result: int, p: nat)
    requires begin < |s| && IsDigit(s[begin])
    ensures p == DigitsEnd(s, begin) && result == NonnegativeInt(s, begin, errorValue)
  {
    hide Decimal, NonnegativeInt;
    var value, prev: nat := 0, 0;
    p := begin;
    EmptyDecimal();
    assert s[begin..begin] == [];
    while true
      invariant begin <= p < |s| && IsDigit(s[p]) && DigitsEnd(s, begin) == DigitsEnd(s, p)
      invariant AllDigits(s[begin..p + 1]) && value == Decimal(s[begin..p]) % W32
      decreases |s| - p
    {
      prev := value;
      value := (value * 10 + DigitOf(s[p])) % W32;
      NextDigit(s, begin, p);
      p := p + 1;
      if p == |s| || !IsDigit(s[p]) {
        break;
      }
      assert s[begin..p + 1] == s[begin..p] + [s[p]];
    }
    ParsedInt(s, begin, p, value, prev, errorValue);
    var numDigits := p - begin;
    if numDigits <= 9 {
      return value, p;
    }
    result := if numDigits == 10 && prev * 10 + DigitOf(s[p - 1]) <= INT_MAX then value else errorValue;
  }

  /** What the wrapped values tell about the number that was read. */
  lemma ParsedInt(s: seq<char>, begin: nat, p: nat, value: nat, prev: nat, errorValue: int)
    requires begin < p <= |s| && p == DigitsEnd(s, begin) && AllDigits(s[begin..p])
    requires value == Decimal(s[begin..p]) % W32 && prev == Decimal(s[begin..p - 1]) % W32
    ensures NonnegativeInt(s, begin, errorValue) ==
      if p - begin <= 9 || (p - begin == 10 && prev * 10 + DigitOf(s[p - 1]) <= INT_MAX) then value else errorValue
  {
    hide Decimal, DigitsEnd;
    EndsInDigit(s[begin..p]);
    assert s[begin..p][p - 1 - begin] == s[p - 1];
    NextDigit(s, begin, p - 1);
    FewDigits(s[begin..p]);
    assert s[begin..p - 1] == s[begin..p][..p - 1 - begin];
    FewDigits(s[begin..p - 1]);
  }

  lemma EndsInDigit(t: seq<char>)
    requires AllDigits(t) && |t| > 0
    ensures IsDigit(t[|t| - 1])
  {}

  lemma EmptyDecimal()
    ensures Decimal([]) == 0
  {}

  /** One more digit, exactly and modulo the word. */
  lemma NextDigit(s: seq<char>, begin: nat, p: nat)
    requires begin <= p < |s| && IsDigit(s[p])
    ensures Decimal(s[begin..p + 1]) == 10 * Decimal(s[begin..p]) + DigitOf(s[p])
    ensures (Decimal(s[begin..p]) % W32 * 10 + DigitOf(s[p])) % W32 == Decimal(s[begin..p + 1]) % W32
    ensures DigitOf(s[p]) <= 9
  {
    assert s[begin..p + 1] == s[begin..p] + [s[p]];
    DecimalSnoc(s[begin..p], s[p]);
    var n := Decimal(s[begin..p]);
    assert n == n / W32 * W32 + n % W32;
    WrapAround(n / W32 * 10, n % W32 * 10 + DigitOf(s[p]));
  }

  lemma WrapAround(k: nat, r: nat)
    ensures (k * W32 + r) % W32 == r % W32
  {
    DivModUnique(k * W32 + r, W32, k + r / W32, r % W32);
  }

  lemma FewDigits(t: seq<char>)
    requires AllDigits(t)
    ensures |t| <= 9 ==> Decimal(t) < 1_000_000_000
  {
    DecimalBound(t);
    PowersOfTen();
    if |t| <= 9 {
      PowMonotonic(10, |t|, 9);
    }
  }

  /** Whatever was written is read back, unless it exceeds the type. */
  lemma NumeralParses(n: nat, rest: seq<char>, errorValue: int)
    requires |rest| > 0 ==> !IsDigit(rest[0])
    ensures var s := Numeral(n) + rest;
      && DigitsEnd(s, 0) == DigitCount(n)
      && NonnegativeInt(s, 0, errorValue) == if n <= INT_MAX then n else errorValue
  {
    hide Numeral;
    var s := Numeral(n) + rest;
    var d := DigitCount(n);
    DigitsEndAt(s, 0, d);
    assert s[0..d] == Numeral(n);
    NumeralDenotes(n);
    DigitCountBounds(n);
    PowersOfTen();
    if d > 10 {
      PowMonotonic(10, 10, d - 1);
    }
  }

  lemma {:induction false} DigitsEndAt(s: seq<char>, i: nat, e: nat)
    requires i <= e <= |s| && AllDigits(s[i..e]) && (e < |s| ==> !IsDigit(s[e]))
    ensures DigitsEnd(s, i) == e
    decreases e - i
  {
    if i < e {
      assert s[i] == s[i..e][0];
      assert s[i + 1..e] == s[i..e][1..];
      DigitsEndAt(s, i + 1, e);
    }
  }

  /** Too many digits are refused even if leading zeros make the number small. */
  lemma LeadingZerosRefused(errorValue: int)
    ensures Decimal("00000000001") == 1 && NonnegativeInt("00000000001", 0, errorValue) == errorValue
  {
    var s: seq<char> := "00000000001";
    DigitsEndAt(s, 0, 11);
    DecimalZeros("0000000000");
    DecimalSnoc("0000000000", '1');
    assert s == "0000000000" + ['1'];
  }
}
