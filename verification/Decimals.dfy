/** Decimal numerals as text, and rounding of fractions. */
module Decimals {
  import opened Arith

  predicate IsDigit(c: char)
  {
    '0' <= c <= '9'
  }

  predicate AllDigits(s: seq<char>)
  {
    forall i | 0 <= i < |s| :: IsDigit(s[i])
  }

  /** The weight of a character in a numeral; ':' stands for ten while a carry is pending. */
  function DigitOf(c: char): nat
  {
    if c < '0' then 0 else c as int - '0' as int
  }

  function DigitChar(d: nat): (c: char)
    requires d <= 10
    ensures DigitOf(c) == d && '0' <= c
    ensures d <= 9 ==> IsDigit(c)
  {
    ('0' as int + d) as char
  }

  /** The number a numeral denotes. */
  function Decimal(s: seq<char>): nat
  {
    if |s| == 0 then 0 else 10 * Decimal(s[..|s| - 1]) + DigitOf(s[|s| - 1])
  }

  /** n followed by k zeros. */
  function TimesPower(n: nat, k: nat): nat
  {
    n * Pow(10, k)
  }

  lemma DecimalSnoc(s: seq<char>, c: char)
    ensures Decimal(s + [c]) == 10 * Decimal(s) + DigitOf(c)
  {
    assert (s + [c])[..|s|] == s;
  }

  lemma {:induction false} DecimalConcat(a: seq<char>, b: seq<char>)
    ensures Decimal(a + b) == Decimal(a) * Pow(10, |b|) + Decimal(b)
  {
    if |b| == 0 {
      assert a + b == a;
    } else {
      var n := |b| - 1;
      assert a + b == (a + b[..n]) + [b[n]];
      DecimalConcat(a, b[..n]);
      DecimalSnoc(a + b[..n], b[n]);
      MulAssoc(Decimal(a), 10, Pow(10, n));
      MulAssoc(10, Decimal(a), Pow(10, n));
    }
  }

  lemma {:induction false} DecimalBound(s: seq<char>)
    requires AllDigits(s)
    ensures Decimal(s) < Pow(10, |s|)
  {
    if |s| > 0 {
      DecimalBound(s[..|s| - 1]);
    }
  }

  /** Replacing one character changes the number by the weighted difference. */
  lemma {:induction false} DecimalUpdate(s: seq<char>, i: nat, c: char)
    requires i < |s|
    ensures Decimal(s[i := c]) == Decimal(s) + (DigitOf(c) - DigitOf(s[i])) * Pow(10, |s| - 1 - i)
  {
    var n := |s| - 1;
    if i == n {
      assert s[i := c][..n] == s[..n];
    } else {
      assert s[i := c][..n] == s[..n][i := c];
      DecimalUpdate(s[..n], i, c);
      MulAssoc(10, DigitOf(c) - DigitOf(s[i]), Pow(10, n - 1 - i));
      MulAssoc(DigitOf(c) - DigitOf(s[i]), 10, Pow(10, n - 1 - i));
    }
  }

  lemma {:induction false} DecimalZeros(s: seq<char>)
    requires forall i | 0 <= i < |s| :: s[i] == '0'
    ensures Decimal(s) == 0
  {
    if |s| > 0 {
      DecimalZeros(s[..|s| - 1]);
    }
  }

  /** A character followed by zeros only. */
  lemma DecimalLeading(s: seq<char>)
    requires |s| > 0 && forall i | 1 <= i < |s| :: s[i] == '0'
    ensures Decimal(s) == DigitOf(s[0]) * Pow(10, |s| - 1)
  {
    assert s == s[..1] + s[1..];
    DecimalConcat(s[..1], s[1..]);
    DecimalZeros(s[1..]);
    assert s[..1] == [] + [s[0]];
    DecimalSnoc([], s[0]);
  }

  // ---- Carrying into a numeral

  /** A carry has arrived at position i: everything above is digits, everything below is zeros. */
  predicate CarryAt(s: seq<char>, i: nat, total: nat)
  {
    && i < |s|
    && Decimal(s) == total
    && (forall j | 0 <= j < i :: IsDigit(s[j]))
    && (IsDigit(s[i]) || s[i] == ':')
    && (forall j | i < j < |s| :: s[j] == '0')
  }

  /** Ten units here are one unit in the next higher position. */
  lemma CarryUpStep(s: seq<char>, i: nat, total: nat)
    requires CarryAt(s, i, total) && i > 0 && s[i] == ':'
    ensures CarryAt(s[i := '0'][i - 1 := DigitChar(DigitOf(s[i - 1]) + 1)], i - 1, total)
  {
    var t := s[i := '0'];
    DecimalUpdate(s, i, '0');
    DecimalUpdate(t, i - 1, DigitChar(DigitOf(s[i - 1]) + 1));
    assert Pow(10, |s| - i) == 10 * Pow(10, |s| - 1 - i);
  }

  // ---- Rounding

  /** q is n / d rounded to the nearest integer, a tie going to the even one. */
  predicate RoundsHalfEven(n: nat, d: int, q: nat)
  {
    var error := 2 * n - 2 * (q * d);
    -d <= error <= d && (error == d || error == -d ==> q % 2 == 0)
  }

  /** q is an integer nearest to n / d. */
  predicate Nearest(n: nat, d: int, q: nat)
  {
    -d <= 2 * n - 2 * (q * d) <= d
  }

  /** There is only one such integer. */
  lemma RoundsHalfEvenUnique(n: nat, d: nat, q: nat, q': nat)
    requires d > 0 && RoundsHalfEven(n, d, q) && RoundsHalfEven(n, d, q')
    ensures q == q'
  {
    if q < q' {
      RoundsHalfEvenOrdered(n, d, q, q');
    } else if q' < q {
      RoundsHalfEvenOrdered(n, d, q', q);
    }
  }

  lemma RoundsHalfEvenOrdered(n: nat, d: nat, q: nat, q': nat)
    requires d > 0 && q < q' && RoundsHalfEven(n, d, q)
    ensures !RoundsHalfEven(n, d, q')
  {
    Distribute(d, q, 1);
    MulMonotonic(q + 1, q', d);
    if q + 2 <= q' {
      Distribute(d, q, 2);
      MulMonotonic(q + 2, q', d);
    }
  }

  /** Equal fractions round alike. */
  lemma RoundsHalfEvenScale(n: nat, d: nat, n': nat, d': nat, q: nat)
    requires d > 0 && d' > 0 && n * d' == n' * d
    requires RoundsHalfEven(n, d, q)
    ensures RoundsHalfEven(n', d', q)
  {
    NearestScale(n, d, n', d', q);
    NearestScale(n', d', n, d, q);
    var x, x' := n - q * d, n' - q * d';
    ErrorScale(n, d, n', d', q);
    SameSideOf(x, d, x', d', 2, 1);
    SameSideOf(x, d, x', d', 2, -1);
  }

  lemma NearestScale(n: nat, d: nat, n': nat, d': nat, q: nat)
    requires d > 0 && d' > 0 && n * d' == n' * d
    requires Nearest(n, d, q)
    ensures Nearest(n', d', q)
  {
    ErrorScale(n, d, n', d', q);
    SameSideOf(n - q * d, d, n' - q * d', d', 2, 1);
    SameSideOf(n - q * d, d, n' - q * d', d', 2, -1);
  }

  lemma ErrorScale(n: nat, d: nat, n': nat, d': nat, q: nat)
    requires n * d' == n' * d
    ensures (n - q * d) * d' == (n' - q * d') * d
  {
    DistributeMinus(d', n, q * d);
    DistributeMinus(d, n', q * d');
    MulAssoc(q, d, d');
    MulAssoc(q, d', d);
  }

  /** With x / d == x' / d', a multiple of x compares to a multiple of d as for x' and d'. */
  lemma SameSideOf(x: int, d: int, x': int, d': int, c: int, m: int)
    requires d > 0 && d' > 0 && x * d' == x' * d
    ensures c * x <= m * d <==> c * x' <= m * d'
    ensures c * x >= m * d <==> c * x' >= m * d'
  {
    var y, y' := c * x - m * d, c * x' - m * d';
    assert y * d' == y' * d by {
      DistributeMinus(d', c * x, m * d);
      DistributeMinus(d, c * x', m * d');
      MulAssoc(c, x, d');
      MulAssoc(c, x', d);
      MulAssoc(m, d, d');
      MulAssoc(m, d', d);
    }
    SameSign(y, d', y', d);
  }

  lemma SameSign(y: int, p: int, y': int, q: int)
    requires p > 0 && q > 0 && y * p == y' * q
    ensures y <= 0 <==> y' <= 0
    ensures y >= 0 <==> y' >= 0
  {
    if y > 0 { MulPositive(y, p); }
    if y' > 0 { MulPositive(y', q); }
    if y < 0 { MulPositive(-y, p); }
    if y' < 0 { MulPositive(-y', q); }
  }
}
