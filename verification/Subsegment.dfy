/** Printing the leading digits of a 9-digit subsegment with one multiplication and no division. */
module Subsegment {
  import opened Arith
  import opened Decimals
  import opened Texts

  const W32: nat := 0x1_0000_0000
  const W64: nat := 0x1_0000_0000_0000_0000

  /** The numeral of n with leading zeros, exactly width characters for n < 10^width. */
  function Padded(n: nat, width: nat): (s: seq<char>)
    ensures |s| == width && AllDigits(s)
  {
    if width == 0 then [] else Padded(n / 10, width - 1) + [DigitChar(n % 10)]
  }

  /** Cutting the numeral is dividing by a power of ten. */
  lemma {:induction false} PaddedPrefix(n: nat, width: nat, k: nat)
    requires k <= width
    ensures Pow(10, width - k) > 0
    ensures Padded(n, width)[..k] == Padded(n / Pow(10, width - k), k)
  {
    PowPositive(10, width - k);
    if k == width {
      assert Pow(10, 0) == 1;
      assert Padded(n, width)[..k] == Padded(n, width);
    } else {
      var p := Pow(10, width - 1 - k);
      assert Pow(10, width - k) == 10 * p;
      hide Pow;
      PaddedPrefix(n / 10, width - 1, k);
      DivTwice(n, 10, p);
      assert Padded(n, width)[..k] == Padded(n / 10, width - 1)[..k];
    }
  }

  lemma DivTwice(n: nat, a: nat, b: nat)
    requires a > 0 && b > 0
    ensures a * b > 0 && (n / a) / b == n / (a * b)
  {
    MulPositive(a, b);
    var q, r := n / a, n % a;
    var q', r' := q / b, q % b;
    DivMod(n, a);
    DivMod(q, b);
    assert n == q' * (a * b) + (r' * a + r) by {
      Distribute(a, q' * b, r');
      MulAssoc(q', b, a);
      assert b * a == a * b;
    }
    MulMonotonic(r', b - 1, a);
    DistributeMinus(a, b, 1);
    DivModUnique(n, a * b, q', r' * a + r);
  }

  /** The numeral denotes the number. */
  lemma {:induction false} PaddedDecimal(n: nat, width: nat)
    requires n < Pow(10, width)
    ensures Decimal(Padded(n, width)) == n
  {
    if width > 0 {
      PaddedDecimal(n / 10, width - 1);
      DecimalSnoc(Padded(n / 10, width - 1), DigitChar(n % 10));
    }
  }

  lemma PaddedOne(d: nat)
    requires d < 10
    ensures Padded(d, 1) == [DigitChar(d)]
  {
    assert Padded(d, 1) == [] + [DigitChar(d)];
  }

  lemma PaddedTwo(n: nat, k: nat)
    ensures Padded(n, k + 2) == Padded(n / 100, k) + Digits2(n % 100)
  {
    assert Padded(n, k + 2) == (Padded(n / 10 / 10, k) + [DigitChar(n / 10 % 10)]) + [DigitChar(n % 10)];
  }

  lemma PaddedPair(d: nat)
    requires d < 100
    ensures Padded(d, 2) == Digits2(d)
  {
    PaddedTwo(d, 0);
    assert Padded(d / 100, 0) == [];
    assert d % 100 == d;
  }

  /** The two characters of a number below 100. */
  function Digits2(value: nat): (s: seq<char>)
    requires value < 100
    ensures |s| == 2
  {
    [DigitChar(value / 10), DigitChar(value % 10)]
  }

  // ---- Fixed-point error

  /**
    prod / 2^32 approximates n / 10^m from above: scaled by 10^m the error is positive and below
    one unit of the integer part.
   */
  predicate Approximates(prod: nat, n: nat, m: nat)
  {
    0 < prod * Pow(10, m) - n * W32 < W32
  }

  /** Such an approximation has the right integer part, and its fraction approximates the rest. */
  lemma IntegerPart(prod: nat, n: nat, m: nat)
    requires Approximates(prod, n, m)
    ensures Pow(10, m) > 0
    ensures prod / W32 == n / Pow(10, m)
    ensures Approximates(prod % W32, n % Pow(10, m), m)
  {
    PowPositive(10, m);
    var T := Pow(10, m);
    DivMod(n, T);
    IntegerPartOf(prod / W32, prod % W32, n / T, n % T, T, prod * T - n * W32);
  }

  lemma IntegerPartOf(d: nat, f: nat, d': nat, r: nat, T: nat, error: nat)
    requires f < W32 && r < T && 0 < error < W32
    requires (d * W32 + f) * T - (d' * T + r) * W32 == error
    ensures d == d' && f * T - r * W32 == error
  {
    var x := d - d';
    assert (x * T) * W32 + f * T - r * W32 == error by {
      Distribute(T, d * W32, f);
      MulAssoc(d, W32, T);
      MulAssoc(d, T, W32);
      DistributeMinus(T, d, d');
    }
    MulMonotonic(f, W32 - 1, T);
    MulMonotonic(0, f, T);
    if x > 0 {
      MulMonotonic(1, x, T);
      assert false;
    }
    if x < 0 {
      MulMonotonic(x, -1, T);
      assert false;
    }
  }

  /** Multiplying the fraction by 100 moves two more digits into the integer part. */
  lemma NextPair(fraction: nat, n: nat, m: nat)
    requires m >= 2 && Approximates(fraction, n, m)
    ensures Approximates(fraction * 100, n, m - 2)
  {
    assert Pow(10, m) == 10 * Pow(10, m - 1) && Pow(10, m - 1) == 10 * Pow(10, m - 2);
    MulAssoc(fraction, 100, Pow(10, m - 2));
  }

  /** The two starting approximations. */
  lemma FirstApproximation(n: nat)
    requires n < 1_000_000_000
    ensures n * 720575941 < W64 && Approximates((n * 720575941) / 0x100_0000 + 1, n, 8)
    ensures n * 450359963 < W64 && Approximates((n * 450359963) / 0x10_0000 + 1, n, 7)
  {
    assert Pow(10, 4) == 10000 && Pow(10, 3) == 1000;
    PowAdd(10, 4, 4);
    PowAdd(10, 4, 3);
  }

  // ---- Printing

  /** After printing k digits: they are the numeral's first k, and prod's fraction approximates what is left. */
  predicate Printed(text: seq<char>, prod: nat, n: nat, k: nat)
  {
    && k <= 9 && n < 1_000_000_000
    && text == Padded(n, 9)[..k]
    && (PowPositive(10, 9 - k); Approximates(prod % W32, n % Pow(10, 9 - k), 9 - k))
    && prod < 100 * W32
  }

  lemma Constants()
    ensures Pow(10, 8) == 100_000_000 && Pow(10, 7) == 10_000_000
  {
    assert Pow(10, 4) == 10000 && Pow(10, 3) == 1000;
    PowAdd(10, 4, 4);
    PowAdd(10, 4, 3);
  }

  lemma ShortProduct(prod: nat, bound: nat)
    requires prod / W32 < bound
    ensures prod < bound * W32
  {}

  lemma PrintedFirstOne(n: nat, prod: nat)
    requires n < 1_000_000_000 && Approximates(prod, n, 8)
    ensures prod / W32 < 10 && Printed([DigitChar(prod / W32)], prod, n, 1)
  {
    Constants();
    hide Pow, Approximates;
    IntegerPart(prod, n, 8);
    DivBound(n, Pow(10, 8), 10);
    ShortProduct(prod, 10);
    PaddedPrefix(n, 9, 1);
    PaddedOne(prod / W32);
  }

  lemma PrintedFirstTwo(n: nat, prod: nat)
    requires n < 1_000_000_000 && Approximates(prod, n, 7)
    ensures prod / W32 < 100 && Printed(Digits2(prod / W32), prod, n, 2)
  {
    Constants();
    hide Pow, Approximates;
    IntegerPart(prod, n, 7);
    DivBound(n, Pow(10, 7), 100);
    ShortProduct(prod, 100);
    PaddedPrefix(n, 9, 2);
    PaddedPair(prod / W32);
  }

  /** Two more digits. */
  lemma PrintedPair(text: seq<char>, prod: nat, n: nat, k: nat)
    requires Printed(text, prod, n, k) && k + 2 <= 9
    ensures var next := (prod % W32) * 100;
      next < W64 && next / W32 < 100 && Printed(text + Digits2(next / W32), next, n, k + 2)
  {
    var T, T' := Pow(10, 9 - k), Pow(10, 7 - k);
    PowPositive(10, 9 - k);
    PowPositive(10, 7 - k);
    assert T == 100 * T' by { assert Pow(10, 9 - k) == 10 * Pow(10, 8 - k); }
    var next, rest := (prod % W32) * 100, n % T;
    NextPair(prod % W32, rest, 9 - k);
    IntegerPart(next, rest, 7 - k);
    DivMod(n, T);
    SplitPair(n, T', n / T, rest);
    PaddedPrefix(n, 9, k);
    PaddedPrefix(n, 9, k + 2);
    PaddedTwo(n / T', k);
  }

  /** The quotient by T' in terms of quotient and remainder by 100 * T'. */
  lemma SplitPair(n: nat, T': nat, q: nat, rest: nat)
    requires T' > 0 && n == q * (100 * T') + rest && rest < 100 * T'
    ensures rest / T' < 100
    ensures n / T' == q * 100 + rest / T' && n % T' == rest % T'
    ensures n / T' / 100 == q && n / T' % 100 == rest / T'
  {
    DivMod(rest, T');
    DivBound(rest, T', 100);
    assert n == (q * 100 + rest / T') * T' + rest % T' by {
      Distribute(T', q * 100, rest / T');
      MulAssoc(q, 100, T');
    }
    DivModUnique(n, T', q * 100 + rest / T', rest % T');
  }

  /**
    Writes the first k digits of a subsegment at the given place. The last product comes back as
    well: its low word still approximates the digits that were not printed.
   */
  method PrintSubsegment(subsegment: nat, k: nat, buffer: array<char>, at: nat) returns (prod: nat, digits: nat)
    requires subsegment < 1_000_000_000 && 1 <= k <= 9
    requires at + k <= buffer.Length
    modifies buffer
    ensures buffer[..] == Replaced(old(buffer[..]), at, Padded(subsegment, 9)[..k])
    ensures Pow(10, 9 - k) > 0
    ensures Approximates(prod % W32, subsegment % Pow(10, 9 - k), 9 - k)
    ensures digits == prod / W32
  {
    hide Printed, Padded, Approximates, Replaced, Digits2, Pow, DigitOf, AllDigits;
    ghost var s := buffer[..];
    var printed;
    ghost var text;
    prod, printed, text := PrintFirst(subsegment, k, buffer, at);
    digits := prod / W32;
    while printed < k
      invariant printed <= k && printed % 2 == k % 2
      invariant |text| == printed && buffer[..] == Replaced(s, at, text)
      invariant Printed(text, prod, subsegment, printed)
      invariant digits == prod / W32
    {
      PrintedPair(text, prod, subsegment, printed);
      prod := (prod % W32) * 100;
      digits := prod / W32;
      ReplacedTwo(s, at, text, Digits2(digits));
      Copy2(buffer, at + printed, Digits2(digits));
      text := text + Digits2(digits);
      printed := printed + 2;
    }
    PrintedEnd(text, prod, subsegment, k);
  }

  /** One digit if an odd number of them is wanted, two otherwise. */
  method PrintFirst(subsegment: nat, k: nat, buffer: array<char>, at: nat)
    returns (prod: nat, printed: nat, ghost text: seq<char>)
    requires subsegment < 1_000_000_000 && 1 <= k <= 9
    requires at + k <= buffer.Length
    modifies buffer
    ensures printed == |text| == 2 - k % 2
    ensures buffer[..] == Replaced(old(buffer[..]), at, text) && Printed(text, prod, subsegment, printed)
  {
    hide Printed, Padded, Approximates, Replaced, Digits2, Pow, DigitOf, AllDigits;
    ghost var s := buffer[..];
    FirstApproximation(subsegment);
    ReplacedStart(s, at);
    if k % 2 != 0 {
      prod := (subsegment * 720575941) / 0x100_0000 + 1;
      var digits := prod / W32;
      PrintedFirstOne(subsegment, prod);
      text := [DigitChar(digits)];
      ReplacedOne(s, at, DigitChar(digits));
      buffer[at] := DigitChar(digits);
      printed := 1;
    } else {
      prod := (subsegment * 450359963) / 0x10_0000 + 1;
      var digits := prod / W32;
      PrintedFirstTwo(subsegment, prod);
      text := [] + Digits2(digits);
      assert text == Digits2(digits);
      ReplacedTwo(s, at, [], Digits2(digits));
      Copy2(buffer, at, Digits2(digits));
      printed := 2;
    }
  }

  /** Copies two characters. */
  method Copy2(buffer: array<char>, at: nat, s: seq<char>)
    requires |s| == 2 && at + 2 <= buffer.Length
    modifies buffer
    ensures buffer[..] == old(buffer[..])[at := s[0]][at + 1 := s[1]]
  {
    buffer[at] := s[0];
    buffer[at + 1] := s[1];
  }

  lemma ReplacedStart(s: seq<char>, at: nat)
    requires at <= |s|
    ensures Replaced(s, at, []) == s
  {}

  lemma ReplacedOne(s: seq<char>, at: nat, c: char)
    requires at < |s|
    ensures s[at := c] == Replaced(s, at, [c])
  {}

  lemma ReplacedTwo(s: seq<char>, at: nat, text: seq<char>, t: seq<char>)
    requires |t| == 2 && at + |text| + 2 <= |s|
    ensures |Replaced(s, at, text)| == |s|
    ensures var i := at + |text|;
      Replaced(s, at, text)[i := t[0]][i + 1 := t[1]] == Replaced(s, at, text + t)
  {}

  lemma PrintedEnd(text: seq<char>, prod: nat, n: nat, k: nat)
    requires Printed(text, prod, n, k)
    ensures text == Padded(n, 9)[..k]
    ensures Pow(10, 9 - k) > 0 && Approximates(prod % W32, n % Pow(10, 9 - k), 9 - k)
  {}

  /** Cutting the first nine digits off a 19-digit segment: the reciprocal of 10^10 is exact. */
  lemma FirstSubsegment(segment: nat)
    requires segment < 10_000_000_000_000_000_000
    ensures ((segment * 7922816251426433760) / W64) / W32 == segment / 10_000_000_000
    ensures segment / 10_000_000_000 < 1_000_000_000
  {
    var q, r := segment / 10_000_000_000, segment % 10_000_000_000;
    var rest := q * 6456049664 + r * 7922816251426433760;
    assert 7922816251426433760 * 10_000_000_000 == W64 * W32 + 6456049664;
    assert segment * 7922816251426433760 == q * (W64 * W32) + rest;
    DivModUnique(segment * 7922816251426433760, W64 * W32, q, rest);
    DivTwice(segment * 7922816251426433760, W64, W32);
  }
}
