/** The three set-up branches, and why the divisions that follow can rely on compare. */
module DragonSetUp {
  import opened Arith
  import opened Bigits
  import opened BigintSpec
  import opened BigintSteps
  import opened DragonSpec
  import opened DragonSteps

  // ---- The values of the three branches

  lemma ShiftIsFine(closer: bool)
    ensures Pow(2, Shift(closer)) == Fine(closer)
    ensures Pow(2, 0) == 1 && Pow(10, 0) == 1
  {}

  /** e >= 0: num = f * 2^(e + shift), lower = 2^e, den = 10^x * 2^shift. */
  lemma SetUpLarge(v: Fp, closer: bool, x: int, num: nat, den: nat, lower: nat, upper: nat)
    requires v.e >= 0 && x >= 0
    requires lower == 1 * Pow(2, v.e)
    requires upper == if closer then 1 * Pow(2, v.e + 1) else lower
    requires num == v.f * Pow(2, v.e + Shift(closer))
    requires den == Pow(10, x) * Pow(2, Shift(closer))
    ensures SetUp(v, closer, x, num, den, lower, upper)
  {
    var c, p, t := Fine(closer), Pow(2, v.e), Pow(10, x);
    ShiftIsFine(closer);
    PowAdd(2, v.e, Shift(closer));
    PowPositive(2, v.e);
    PowPositive(10, x);
    MulPositive(t, c);
    MulAssoc(v.f, c, p);
    assert (c * p) * (1 * t) == (1 * (p * 1)) * (t * c) by { MulAssoc(c, p, t); MulAssoc(p, t, c); }
  }

  /** e < 0 and x < 0: num = 10^-x * f * 2^shift, lower = 10^-x, den = 2^(shift - e). */
  lemma SetUpSmall(v: Fp, closer: bool, x: int, num: nat, den: nat, lower: nat, upper: nat)
    requires v.e < 0 && x < 0
    requires lower == Pow(10, -x)
    requires upper == if closer then lower * Pow(2, 1) else lower
    requires num == (lower * v.f) * Pow(2, Shift(closer))
    requires den == 1 * Pow(2, Shift(closer) - v.e)
    ensures SetUp(v, closer, x, num, den, lower, upper)
  {
    var c, q, t := Fine(closer), Pow(2, -v.e), Pow(10, -x);
    ShiftIsFine(closer);
    assert Pow(2, 1) == 2;
    PowAdd(2, Shift(closer), -v.e);
    PowPositive(2, Shift(closer) - v.e);
    PowPositive(10, -x);
    MulAssoc(c, v.f, lower);
    assert (c * t) * (q * 1) == (1 * (1 * t)) * (c * q) by { MulAssoc(c, t, q); MulAssoc(t, c, q); }
  }

  /** e < 0 and x >= 0: num = f * 2^shift, lower = 1, den = 10^x * 2^(shift - e). */
  lemma SetUpMiddle(v: Fp, closer: bool, x: int, num: nat, den: nat, lower: nat, upper: nat)
    requires v.e < 0 && x >= 0
    requires lower == 1 && upper == (if closer then 2 else 1)
    requires num == v.f * Pow(2, Shift(closer))
    requires den == Pow(10, x) * Pow(2, Shift(closer) - v.e)
    ensures SetUp(v, closer, x, num, den, lower, upper)
  {
    var c, q, t := Fine(closer), Pow(2, -v.e), Pow(10, x);
    ShiftIsFine(closer);
    PowAdd(2, Shift(closer), -v.e);
    PowPositive(2, -v.e);
    PowPositive(10, x);
    MulPositive(c, q);
    MulPositive(t, c * q);
    assert (c * 1) * (q * t) == (1 * (1 * 1)) * (t * (c * q)) by { MulAssoc(c, q, t); }
  }

  // ---- Exponents

  predicate IsPowerOfTwo(f: nat)
  {
    exists k: nat | k < f :: f == Pow(2, k)
  }

  /** What the original's types hold, with the predecessor closer only to a power of two. */
  predicate InRange(v: Fp, closer: bool, x: int)
  {
    && 0 < v.f < U128
    && -0x3FFF_FFFF <= x < 0x3FFF_FFFF
    && (closer ==> IsPowerOfTwo(v.f))
  }

  /**
    The exact power 10^x as 5^x * 2^x, x % 32 == 31: numerator and denominator are equal, but the
    numerator is stored with the larger exponent, and the first division misses it. With 128 bits
    x can only be 31.
   */
  predicate Misread(v: Fp, closer: bool, x: int)
  {
    !closer && x >= 0 && x % 32 == 31 && v.e == x && v.f == Pow(5, x)
  }

  /** The digits that come out for it: the second quotient is ten, written as the character after '9'. */
  function MisreadText(n: nat): (s: seq<char>)
    ensures |s| == n
  {
    if n == 0 then [] else MisreadText(n - 1) + [if n == 2 then ':' else '0']
  }

  /** Everything else in range. */
  predicate Supported(v: Fp, closer: bool, x: int)
  {
    InRange(v, closer, x) && !Misread(v, closer, x)
  }

  lemma Pow2Of128()
    ensures Pow(2, 128) == U128
  {
    Pow2Of32();
    PowAdd(2, 32, 32);
    PowAdd(2, 64, 64);
  }

  lemma PowerBelowNextWeight(n: nat)
    ensures Pow(2, n) < Weight(n / 32 + 1)
  {
    WeightIsPow2(n / 32 + 1);
    PowPositive(2, n);
    PowMonotonic(2, n + 1, 32 * (n / 32 + 1));
  }

  /** num never becomes den, however often it is multiplied by ten. */
  ghost predicate NeverMeets(num: nat, den: nat)
  {
    forall j: nat :: num * Pow(10, j) != den
  }

  /** A pair the division can start from. */
  ghost predicate Divisible(num: seq<bigit>, ne: nat, den: seq<bigit>, de: nat)
  {
    && Canonical(num) && Normal(den)
    && (num == [0] ==> ne <= de)
    && (ne <= de || NeverMeets(Val(num, ne), Val(den, de)))
  }

  /** A pair the first division may find: divisible, or misread. */
  ghost predicate Ready(num: seq<bigit>, ne: nat, den: seq<bigit>, de: nat)
  {
    Divisible(num, ne, den, de) || (Normal(num) && Normal(den) && Meets(num, ne, den, de))
  }

  lemma ReadyParts(num: seq<bigit>, ne: nat, den: seq<bigit>, de: nat)
    requires Ready(num, ne, den, de)
    ensures Canonical(num) && Normal(den) && (num == [0] ==> ne <= de) && Addable(num, ne, |den| + de)
    ensures Divisible(num, ne, den, de) <==> !Meets(num, ne, den, de)
    ensures Val(den, de) > 0 && (Meets(num, ne, den, de) ==> Val(num, ne) == Val(den, de))
  {
    ValZeroIff(den, de);
    if Divisible(num, ne, den, de) && ne > de {
      assert Val(num, ne) * Pow(10, 0) != Val(den, de);
    }
  }

  /** Ten times a misread numerator is no longer misread. */
  lemma MisreadTimesTen(num: seq<bigit>, num': seq<bigit>, ne: nat, den: seq<bigit>, de: nat)
    requires Normal(num) && Normal(den) && Meets(num, ne, den, de)
    requires Canonical(num') && Val(num', ne) == Val(num, ne) * 10
    ensures Divisible(num', ne, den, de)
  {
    ValZeroIff(num, ne);
    ValZeroIff(num', ne);
    forall j: nat
      ensures Val(num', ne) * Pow(10, j) != Val(den, de)
    {
      PowPositive(10, j);
      MulMonotonic(1, Pow(10, j), Val(num', ne));
    }
  }

  /** Multiplying by ten keeps the pair divisible. */
  lemma DivisibleTimesTen(num: seq<bigit>, num': seq<bigit>, ne: nat, den: seq<bigit>, de: nat)
    requires Divisible(num, ne, den, de)
    requires Canonical(num') && Val(num', ne) == Val(num, ne) * 10
    ensures Divisible(num', ne, den, de)
  {
    ValZeroIff(num, ne);
    ValZeroIff(num', ne);
    if ne > de {
      forall j: nat
        ensures Val(num', ne) * Pow(10, j) != Val(den, de)
      {
        MulAssoc(Val(num, ne), 10, Pow(10, j));
        assert Val(num, ne) * Pow(10, j + 1) != Val(den, de);
      }
    }
  }

  /** A division keeps the pair divisible. */
  lemma DivisibleAfter(num: seq<bigit>, ne: nat, num': seq<bigit>, ne': nat, den: seq<bigit>, de: nat)
    requires Divisible(num, ne, den, de) && Canonical(num')
    requires (num' == num && ne' == ne) || ne' <= de
    ensures Divisible(num', ne', den, de)
  {}

  lemma AddableAbove(num: seq<bigit>, ne: nat, den: seq<bigit>, den': seq<bigit>, de: nat)
    requires Ready(num, ne, den, de) && Normal(den')
    ensures Addable(num, ne, |den'| + de)
  {}

  lemma {:induction false} PowFiveOdd(n: nat)
    ensures Pow(5, n) % 2 == 1
  {
    if n > 0 {
      PowFiveOdd(n - 1);
    }
  }

  /** A power of ten has no more factors of two than its exponent. */
  lemma TwosOfTen(f: nat, e: nat, m: nat)
    requires f * Pow(2, e) == Pow(10, m)
    ensures e <= m
    ensures e == m ==> f == Pow(5, m)
  {
    PowOfProduct(5, 2, m);
    PowFiveOdd(m);
    PowPositive(2, m);
    if e > m {
      PowAdd(2, m + 1, e - m - 1);
      var r := Pow(2, e - m - 1);
      assert f * Pow(2, e) == (2 * (f * r)) * Pow(2, m) by {
        MulAssoc(2, Pow(2, m), r);
        MulAssoc(f, 2 * r, Pow(2, m));
        MulAssoc(2, r, Pow(2, m));
        MulAssoc(f, 2, r);
        MulAssoc(2, f, r);
      }
      MulCancel(2 * (f * r), Pow(5, m), Pow(2, m));
    } else if e == m {
      MulCancel(f, Pow(5, m), Pow(2, m));
    }
  }

  /** In the large branch, num * 10^j == den says that f * 2^e is a power of ten. */
  lemma LargeMeeting(v: Fp, closer: bool, x: nat, j: nat)
    requires v.f > 0 && v.e >= 0
    requires (v.f * Pow(2, v.e + Shift(closer))) * Pow(10, j) == Pow(10, x) * Pow(2, Shift(closer))
    ensures j <= x && v.f * Pow(2, v.e) == Pow(10, x - j)
  {
    var p, s, t := Pow(2, v.e), Pow(2, Shift(closer)), Pow(10, j);
    PowAdd(2, v.e, Shift(closer));
    PowPositive(2, Shift(closer));
    PowPositive(2, v.e);
    PowPositive(10, j);
    MulPositive(v.f, p);
    assert ((v.f * p) * t) * s == Pow(10, x) * s by {
      MulAssoc(v.f, p, s);
      MulAssoc(v.f * p, s, t);
      MulAssoc(v.f * p, t, s);
    }
    MulCancel((v.f * p) * t, Pow(10, x), s);
    if j > x {
      PowMonotonic(10, x + 1, j);
      PowPositive(10, x);
      MulMonotonic(1, v.f * p, t);
    }
    PowAdd(10, x - j, j);
    MulCancel(v.f * p, Pow(10, x - j), t);
  }

  /** With the numerator's exponent the higher one, other values never meet the denominator. */
  lemma LargeNeverMeets(v: Fp, closer: bool, x: nat)
    requires Supported(v, closer, x) && v.e >= 0
    requires (v.e + Shift(closer)) / 32 > x / 32
    ensures NeverMeets(v.f * Pow(2, v.e + Shift(closer)), Pow(10, x) * Pow(2, Shift(closer)))
  {
    forall j: nat
      ensures (v.f * Pow(2, v.e + Shift(closer))) * Pow(10, j) != Pow(10, x) * Pow(2, Shift(closer))
    {
      LargeDiffers(v, closer, x, j);
    }
  }

  lemma LargeDiffers(v: Fp, closer: bool, x: nat, j: nat)
    requires Supported(v, closer, x) && v.e >= 0
    requires (v.e + Shift(closer)) / 32 > x / 32
    ensures (v.f * Pow(2, v.e + Shift(closer))) * Pow(10, j) != Pow(10, x) * Pow(2, Shift(closer))
  {
    hide Pow;
    if (v.f * Pow(2, v.e + Shift(closer))) * Pow(10, j) == Pow(10, x) * Pow(2, Shift(closer)) {
      LargeMeeting(v, closer, x, j);
      TwosOfTen(v.f, v.e, x - j);
      if closer {
        var k: nat :| k < v.f && v.f == Pow(2, k);
        PowAdd(2, k, v.e);
        OnlyOneIsBoth(k + v.e, x - j);
      }
      assert false;
    }
  }

  /** A power of two that is a power of ten is one. */
  lemma OnlyOneIsBoth(n: nat, m: nat)
    requires Pow(2, n) == Pow(10, m)
    ensures n == 0 && m == 0
  {
    assert 1 * Pow(2, n) == Pow(10, m);
    TwosOfTen(1, n, m);
    PowFiveOdd(m);
    PowOfProduct(5, 2, m);
    PowPositive(2, n);
    PowPositive(5, m);
    if n < m {
      PowMonotonic(2, n + 1, m);
      MulMonotonic(1, Pow(5, m), Pow(2, m));
    }
  }

  /** A denominator of one bigit below the numerator's exponent is too small to be met. */
  lemma SmallNeverMeets(num: seq<bigit>, ne: nat, den: nat, de: nat)
    requires Normal(num) && ne > de && den < Weight(de + 1)
    ensures NeverMeets(Val(num, ne), den)
  {
    ValBounds(num, ne);
    WeightMonotonic(de + 1, |num| + ne - 1);
    forall j: nat
      ensures Val(num, ne) * Pow(10, j) != den
    {
      PowPositive(10, j);
      MulMonotonic(1, Pow(10, j), Val(num, ne));
    }
  }

  /** The misread power: numerator and denominator come out equal, the numerator's exponent larger. */
  lemma MisreadMeets(v: Fp, x: int, num: seq<bigit>, den: seq<bigit>)
    requires Misread(v, false, x) && Normal(num) && Normal(den)
    requires Val(num, (x + 1) / 32) == v.f * Pow(2, x + 1) && Val(den, x / 32) == Pow(10, x) * Pow(2, 1)
    ensures Meets(num, (x + 1) / 32, den, x / 32)
  {
    PowOfProduct(5, 2, x);
    assert Pow(2, 1) == 2;
    MulAssoc(Pow(5, x), 2, Pow(2, x));
    MulAssoc(2, Pow(5, x), Pow(2, x));
  }

  // ---- What the comparison with lower says

  /** The low test in values: exact on different numbers, going by the exponents on equal ones and on zero. */
  lemma LowDecides(num: seq<bigit>, ne: nat, lower: seq<bigit>, le: nat, even: nat)
    requires Canonical(num) && Normal(lower) && even <= 1
    ensures Val(lower, le) > 0
    ensures var low := CompareResult(num, ne, lower, le) - even < 0;
      low <==> if num == [0] then ne < |lower| + le
               else if Val(num, ne) == Val(lower, le) then TieSeen(ne - le, even == 1)
               else Val(num, ne) < Val(lower, le)
  {
    ValZeroIff(lower, le);
    ToNatZeroIff(lower);
    if num == [0] {
      CompareZero(ne, lower, le);
    } else if Val(num, ne) == Val(lower, le) {
      CompareEqual(num, ne, lower, le);
    } else {
      CompareDifferent(num, ne, lower, le);
    }
  }

  /**
    When a zero is overlooked: only before lower has been multiplied by ten, and only if its exponent
    is smaller.
   */
  lemma OverlooksZero(lower: seq<bigit>, le: nat, ne: nat, lower0: nat, n: nat)
    requires Normal(lower) && Val(lower, le) == lower0 * Pow(10, n)
    requires ne > le ==> ne == le + 1 && Weight(le + 1) <= 10 * lower0
    ensures ne >= |lower| + le <==> ne > le && n == 0 && lower0 < Weight(le + 1)
  {
    hide Weight;
    assert Pow(10, 0) == 1;
    ValBounds(lower, le);
    if ne > le {
      if n > 0 {
        PowPositive(10, n - 1);
        MulAssoc(lower0, 10, Pow(10, n - 1));
        MulMonotonic(1, Pow(10, n - 1), lower0 * 10);
      }
      if |lower| > 1 {
        WeightMonotonic(le + 1, |lower| + le - 1);
      }
    }
  }

  // ---- Exponents

  function NumExp(v: Fp, closer: bool, x: int): nat
  {
    if v.e >= 0 then (v.e + Shift(closer)) / 32 else Neg(x) / 32
  }

  function LowerExp(v: Fp, x: int): nat
  {
    if v.e >= 0 then v.e / 32 else Neg(x) / 32
  }

  /** The denominator's exponent, where it matters. */
  predicate IsDenExp(v: Fp, closer: bool, x: int, de: nat)
  {
    && (v.e >= 0 ==> de == x / 32)
    && (v.e < 0 && x < 0 ==> de == (Shift(closer) - v.e) / 32)
  }

  /** A value below 10^(x + 1) has no more decimal places than binary ones. */
  lemma SmallNeedsExponent(v: Fp, flags: Flags, numDigits: int, x: int)
    requires v.f > 0 && ExponentFits(v, flags, numDigits, x)
    ensures v.e < 0 && x < 0 ==> -x <= -v.e
  {
    FitsBelow(v, flags, numDigits, x);
    if v.e < 0 && x < 0 && -x > -v.e {
      assert Pow(2, 0) == 1 && Pow(10, 0) == 1;
      PowMonotonic(10, -v.e + 1, -x);
      PowBaseMonotonic(2, 10, -v.e);
      hide Pow;
      assert Pow(10, -v.e + 1) == 10 * Pow(10, -v.e) by { TenMore(-v.e); }
      MulMonotonic(1, v.f, 1 * Pow(10, -x));
    }
  }

  lemma TenMore(n: nat)
    ensures Pow(10, n + 1) == 10 * Pow(10, n)
  {}

  lemma FitsBelow(v: Fp, flags: Flags, numDigits: int, x: int)
    requires v.f > 0 && ExponentFits(v, flags, numDigits, x)
    ensures ScaledNum(v.f, v.e, x) < 10 * ScaledDen(v.e, x)
  {
    if numDigits < 0 {
      PowPositive(2, Pos(v.e));
      PowPositive(10, Neg(x));
      MulPositive(Pow(2, Pos(v.e)), Pow(10, Neg(x)));
      BelowByUpperEnd(Fine(flags.predecessorCloser), v.f, UpperUnits(flags.predecessorCloser),
                      Pow(2, Pos(v.e)) * Pow(10, Neg(x)), ScaledDen(v.e, x));
    }
  }

  lemma BelowByUpperEnd(c: nat, f: nat, u: nat, unit: nat, den: nat)
    requires c > 0 && u > 0 && unit > 0 && (c * f + u) * unit <= 10 * (c * den)
    ensures f * unit < 10 * den
  {
    Distribute(unit, c * f, u);
    MulPositive(u, unit);
    MulAssoc(c, f, unit);
    assert 10 * (c * den) == (10 * den) * c by { MulAssoc(10, den, c); }
    MulCancelLess(f * unit, 10 * den, c);
  }

  /** The order of the stored exponents, and how large lower is when a zero could be overlooked. */
  lemma OrderMeans(v: Fp, flags: Flags, numDigits: int, x: int, de: nat)
    requires v.f > 0 && ExponentFits(v, flags, numDigits, x) && IsDenExp(v, flags.predecessorCloser, x, de)
    ensures var closer, le := flags.predecessorCloser, LowerExp(v, x);
      && ExponentOrder(v, closer, x) == Sign(Min(NumExp(v, closer, x), de) - le)
      && (ExponentOrder(v, closer, x) > 0 ==>
          0 <= v.e < x && NumExp(v, closer, x) <= le + 1 && Pow(2, v.e) < Weight(le + 1) <= 10 * Pow(2, v.e))
  {
    SmallNeedsExponent(v, flags, numDigits, x);
    if ExponentOrder(v, flags.predecessorCloser, x) > 0 {
      PowerBelowNextWeight(v.e);
      WeightIsPow2(v.e / 32 + 1);
      var d := 32 * (v.e / 32 + 1) - v.e;
      PowAdd(2, v.e, d);
      assert Pow(2, 1) == 2 && Pow(2, 2) == 4;
      hide Pow;
      MulMonotonic(Pow(2, d), 4, Pow(2, v.e));
    }
  }

  /** What the loop's exponents say about the low test. */
  predicate Judges(j: Judging, num: nat, ne: nat, de: nat, lower: nat, le: nat)
  {
    && j.order == Sign(Min(ne, de) - le)
    && j.hidden == (j.order > 0 && lower < Weight(le + 1))
    && (j.order > 0 ==> ne <= le + 1 && Weight(le + 1) <= 10 * lower)
    && lower < num
  }

  /** The low test answers as LowSeen says. */
  lemma LowAnswers(num: seq<bigit>, ne: nat, lower: seq<bigit>, le: nat, even: nat, j: Judging,
                   num0: nat, first: nat, den: nat, de: nat, lower0: nat, n: nat, m: nat)
    requires Canonical(num) && Normal(lower) && even <= 1 && j.even == (even == 1)
    requires Judges(j, num0, first, de, lower0, le)
    requires Val(lower, le) == lower0 * Pow(10, n) && num0 * Pow(10, n) == m * den + Val(num, ne)
    requires ne == if m == 0 then first else Min(first, de)
    ensures CompareResult(num, ne, lower, le) - even < 0 <==> LowSeen(Val(num, ne), Val(lower, le), n, j)
    ensures Val(lower, le) > 0
  {
    LowDecides(num, ne, lower, le, even);
    ValZeroIff(num, ne);
    PowPositive(10, n);
    MulStrictlyMonotonic(lower0, num0, Pow(10, n));
    hide Val, CompareResult, Weight, Pow;
    if num == [0] {
      OverlooksZero(lower, le, ne, lower0, n);
    }
  }
}
