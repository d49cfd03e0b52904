/** Consequences of the digit generator's contract, and inputs on which it does not do what it is for. */
module DragonTheorems {
  import opened Arith
  import opened Bigits
  import opened Decimals
  import opened Dragon
  import opened DragonSpec
  import opened DragonSetUp

  /** The caller's estimate is enough for both modes: it leaves v below 5 * 10^x. */
  lemma EstimateFits(v: Fp, flags: Flags, numDigits: int, x: int)
    requires v.f > 0
    requires ScaledNum(v.f, v.e, x) < 5 * ScaledDen(v.e, x)
    ensures ExponentFits(v, flags, numDigits, x)
  {
    var c, u := Fine(flags.predecessorCloser), UpperUnits(flags.predecessorCloser);
    var unit := Pow(2, Pos(v.e)) * Pow(10, Neg(x));
    Distribute(unit, c * v.f, u);
    MulAssoc(c, v.f, unit);
    MulMonotonic(1, v.f, unit);
    MulMonotonic(u, c, unit);
    assert u * unit <= c * (v.f * unit);
  }

  /** What the branch for no digits prints: 1 or 0 in the given unit. */
  function NoDigits(v: Fp, x: int): nat
  {
    if OverHalf(v, x + 1) then 1 else 0
  }

  /** Ten times a value is still below one unit when the unit is two or more places above its leading digit. */
  lemma FarBelowUnit(v: Fp, x: int, k: nat)
    requires ScaledNum(v.f, v.e, x) < 10 * ScaledDen(v.e, x)
    ensures ScaledNum(v.f, v.e, x + 1 + k) * Pow(10, k) < ScaledDen(v.e, x + 1 + k)
  {
    hide ScaledNum, ScaledDen;
    var unit := x + 1 + k;
    var sn, sd, sn', sd' := ScaledNum(v.f, v.e, x), ScaledDen(v.e, x), ScaledNum(v.f, v.e, unit), ScaledDen(v.e, unit);
    ScaleShift(v.f, v.e, unit, k + 1);
    assert unit - (k + 1) == x;
    FarAlgebra(sn, sd, sn', sd', Pow(10, k), Pow(10, k + 1));
  }

  lemma FarAlgebra(sn: nat, sd: nat, sn': nat, sd': nat, t: nat, t': nat)
    requires sn < 10 * sd && sd' > 0 && t' == 10 * t
    requires sn * sd' == (sn' * t') * sd
    ensures sn' * t < sd'
  {
    MulStrictlyMonotonic(sn, 10 * sd, sd');
    assert (sn' * t') * sd < (10 * sd') * sd by {
      MulAssoc(10, sd, sd');
      MulAssoc(10, sd', sd);
    }
    MulCancelLess(sn' * t', 10 * sd', sd);
    assert sn' * t' == 10 * (sn' * t) by {
      MulAssoc(sn', 10, t);
      MulAssoc(10, sn', t);
    }
  }

  /** The exponent after the fixup step is still not too small. */
  lemma FixedUpFits(v: Fp, flags: Flags, numDigits: int, exp10: int)
    requires v.f > 0 && ExponentFits(v, flags, numDigits, exp10)
    ensures var x := FixedUp(v, flags, exp10); ScaledNum(v.f, v.e, x) < 10 * ScaledDen(v.e, x)
  {
    FitsBelow(v, flags, numDigits, exp10);
    if FixedUp(v, flags, exp10) < exp10 {
      var c, unit := Fine(flags.predecessorCloser), Pow(2, Pos(v.e)) * Pow(10, Neg(exp10));
      var sn, sd := ScaledNum(v.f, v.e, exp10), ScaledDen(v.e, exp10);
      PowPositive(2, Pos(v.e));
      PowPositive(10, Neg(exp10));
      MulPositive(Pow(2, Pos(v.e)), Pow(10, Neg(exp10)));
      BelowOne(c, v.f, UpperUnits(flags.predecessorCloser), unit, sd);
      ScaleShift(v.f, v.e, exp10, 1);
      assert Pow(10, 1) == 10;
      MulStrictlyMonotonic(sn, sd, 10 * ScaledDen(v.e, exp10 - 1));
      TenfoldBelow(sn, sd, ScaledNum(v.f, v.e, exp10 - 1), ScaledDen(v.e, exp10 - 1));
    }
  }

  lemma BelowOne(c: nat, f: nat, u: nat, unit: nat, den: nat)
    requires c > 0 && u > 0 && unit > 0 && (c * f + u) * unit <= 1 * (c * den)
    ensures f * unit < den
  {
    Distribute(unit, c * f, u);
    MulPositive(u, unit);
    MulAssoc(c, f, unit);
    MulCancelLess(f * unit, den, c);
  }

  lemma TenfoldBelow(sn: nat, sd: nat, sn': nat, sd': nat)
    requires sn < sd && sd' > 0 && sn' * sd == (sn * 10) * sd'
    ensures sn' < 10 * sd'
  {
    MulStrictlyMonotonic(sn, sd, 10 * sd');
    MulAssoc(sn, 10, sd');
    MulCancelLess(sn', 10 * sd', sd);
  }

  /**
    With no digit left the character is v rounded to its place exactly when that place is next to the
    leading digit, or v is not above half of 10^(x + 1).
   */
  lemma NoDigitsExactIff(v: Fp, flags: Flags, numDigits: nat, exp10: int, place: int)
    requires v.f > 0 && ExponentFits(v, flags, numDigits, exp10) && FixedUp(v, flags, exp10) < place
    ensures var x := FixedUp(v, flags, exp10);
      RoundsHalfEven(ScaledNum(v.f, v.e, place), ScaledDen(v.e, place), NoDigits(v, x)) <==>
      (place == x + 1 || !OverHalf(v, x + 1))
  {
    FixedUpFits(v, flags, numDigits, exp10);
    hide FixedUp, ExponentFits;
    var x := FixedUp(v, flags, exp10);
    var k := place - (x + 1);
    FarBelowUnit(v, x, k);
    hide ScaledNum, ScaledDen;
    var sn, sd := ScaledNum(v.f, v.e, place), ScaledDen(v.e, place);
    if k == 0 {
      assert Pow(10, 0) == 1;
      BelowOneUnit(sn, sd);
    } else {
      PowPositive(10, k - 1);
      MulMonotonic(10, Pow(10, k), sn);
      BelowOneUnit(sn, sd);
    }
  }

  /** Below one unit only zero and one are candidates. */
  lemma BelowOneUnit(n: nat, d: nat)
    requires n < d
    ensures RoundsHalfEven(n, d, 0) <==> 2 * n <= d
    ensures RoundsHalfEven(n, d, 1) <==> 2 * n > d
  {}

  /** 0.0625 with no decimal place: its leading digit is two places behind, and 1 is printed where 0 is right. */
  lemma NoDigitsCounterexample()
    ensures var v, flags, exp10 := Fp(0x10_0000_0000_0000, -56), Flags(true, true, true), -1;
      && ExponentFits(v, flags, 0, exp10)
      && FixedUp(v, flags, exp10) == -2
      && NoDigits(v, -2) == 1
      && RoundsHalfEven(ScaledNum(v.f, v.e, 0), ScaledDen(v.e, 0), 0)
      && !RoundsHalfEven(ScaledNum(v.f, v.e, 0), ScaledDen(v.e, 0), 1)
  {
    hide Pow;
    PowersOfASixteenth();
  }

  lemma PowersOfASixteenth()
    ensures Pow(2, 0) == 1 && Pow(10, 0) == 1 && Pow(10, 1) == 10 && Pow(2, 56) == 0x100_0000_0000_0000
  {
    assert Pow(2, 8) == 256;
    hide Pow;
    PowAdd(2, 8, 8);
    PowAdd(2, 16, 8);
    PowAdd(2, 24, 24);
    PowAdd(2, 48, 8);
  }

  // ---- When a decimal place is reached

  /** Being below 1 * 10^x and below 10 * 10^(x - 1) is the same. */
  lemma UpperTenfold(v: Fp, closer: bool, x: int)
    ensures UpperEndFits(v, closer, x, 1) <==> UpperEndFits(v, closer, x - 1, 10)
  {
    assert Pow(10, 1) == 10;
    hide Pow, ScaledNum, ScaledDen;
    UpperShift(v, closer, x, 1);
    TenfoldOrder(ScaledNum(HighEnd(v.f, closer), v.e, x), FineDen(closer, v.e, x),
                 ScaledNum(HighEnd(v.f, closer), v.e, x - 1), FineDen(closer, v.e, x - 1));
  }

  lemma UpperShift(v: Fp, closer: bool, x: int, n: nat)
    ensures var high := HighEnd(v.f, closer);
      ScaledNum(high, v.e, x - n) * FineDen(closer, v.e, x)
      == (ScaledNum(high, v.e, x) * Pow(10, n)) * FineDen(closer, v.e, x - n)
  {
    hide Pow, ScaledNum, ScaledDen, HighEnd;
    var high, c := HighEnd(v.f, closer), Fine(closer);
    ScaleShift(high, v.e, x, n);
    var a, b, a', b' := ScaledNum(high, v.e, x) * Pow(10, n), ScaledDen(v.e, x), ScaledNum(high, v.e, x - n),
      ScaledDen(v.e, x - n);
    MulAssoc(c, a', b);
    MulAssoc(a', c, b);
    MulAssoc(c, a, b');
    MulAssoc(a, c, b');
  }

  lemma TenfoldOrder(a: nat, b: nat, a': nat, b': nat)
    requires b > 0 && b' > 0 && a' * b == (a * 10) * b'
    ensures (a < b <==> a' < 10 * b') && (a == b <==> a' == 10 * b')
  {
    assert (a * 10) * b' == a * (10 * b') by { MulAssoc(a, 10, b'); }
    var t := 10 * b';
    if a < b {
      MulStrictlyMonotonic(a, b, t);
      MulCancelLess(a', t, b);
    } else if a == b {
      assert a' * b == t * b;
      SameFactor(a', t, b);
    } else {
      MulStrictlyMonotonic(b, a, t);
      MulCancelLess(t, a', b);
    }
  }

  lemma SameFactor(x: nat, y: nat, z: nat)
    requires z > 0 && x * z == y * z
    ensures x == y
  {
    if x < y {
      MulStrictlyMonotonic(x, y, z);
    } else if y < x {
      MulStrictlyMonotonic(y, x, z);
    }
  }

  lemma UpperMonotonic(v: Fp, closer: bool, x: int, n: nat)
    requires UpperEndFits(v, closer, x, 1)
    ensures UpperEndFits(v, closer, x + n, 1)
  {
    if n > 0 {
      hide Pow, ScaledNum, ScaledDen, HighEnd;
      var high := HighEnd(v.f, closer);
      UpperShift(v, closer, x + n, n);
      var a, b, a', b' := ScaledNum(high, v.e, x + n), FineDen(closer, v.e, x + n), ScaledNum(high, v.e, x),
        FineDen(closer, v.e, x);
      MulMonotonic(a', b', b);
      MulAssoc(a, Pow(10, n), b');
      PowMonotonic(10, 1, n);
      TenAtLeast();
      LessByTen(a, b, a', b', Pow(10, n));
    }
  }

  lemma TenAtLeast()
    ensures Pow(10, 1) == 10
  {}

  lemma LessByTen(a: nat, b: nat, a': nat, b': nat, t: nat)
    requires b > 0 && b' > 0 && t >= 10 && a' <= b' && a' * b == (a * t) * b'
    ensures a < b
  {
    if b <= a {
      MulMonotonic(b, a, t);
      MulMonotonic(10, t, b);
      MulMonotonic(b * t, a * t, b');
      MulMonotonic(10 * b, b * t, b');
      MulMonotonic(a', b', b);
      MulPositive(b, b');
      MulAssoc(10, b, b');
    }
  }

  /**
    When digits are counted from an exponent that brackets the interval's upper end, some digit is left
    for the given number of decimal places exactly if that end reaches the last of them.
   */
  lemma DigitIsLeft(v: Fp, flags: Flags, exp10: int, places: int)
    requires flags.fixup && UpperEndFits(v, flags.predecessorCloser, exp10, 10)
    requires !UpperEndFits(v, flags.predecessorCloser, exp10 - 1, 1)
    ensures FixedUp(v, flags, exp10) >= -places <==> !UpperEndFits(v, flags.predecessorCloser, -places, 1)
  {
    hide UpperEndFits;
    var closer, x := flags.predecessorCloser, FixedUp(v, flags, exp10);
    UpperTenfold(v, closer, exp10 + 1);
    if x >= -places {
      if UpperEndFits(v, closer, -places, 1) {
        UpperMonotonic(v, closer, -places, x + places);
      }
    } else {
      UpperMonotonic(v, closer, x + 1, -places - (x + 1));
    }
  }

  // ---- Where the shortest mode goes astray

  /**
    A double, 8344650268554688 * 2^32: 3584e22 is the lower end of its interval and belongs to it, but
    the remainder that says so is stored with the smaller exponent, so more digits follow.
   */
  lemma EvenTieIsMissed()
    ensures var v, flags := Fp(8344650268554688, 32), Flags(false, true, false);
      && FixedUp(v, flags, 26) == 25
      && Inside(v, false, 3584, 22)
      && Astray(v, flags, 26)
  {
    var v, flags := Fp(8344650268554688, 32), Flags(false, true, false);
    hide Pow;
    Powers();
    PowAdd(10, 22, 3);
    PowAdd(10, 25, 1);
    assert LowEndOnly(v, false, 3584, 22);
    assert 22 <= FixedUp(v, flags, 26);
  }

  /** Whatever digits come out for it, they are more than the four that would do. */
  lemma EvenTieTakesMore(data: seq<char>, e: int)
    requires ShortestResult(Fp(8344650268554688, 32), Flags(false, true, false), 26, data, e)
    ensures |data| > 4
  {
    hide Pow, Astray, Decimal, InInterval, NearestInside, FixedUp;
    EvenTieIsMissed();
    var v := Fp(8344650268554688, 32);
    forall m: nat
      ensures !Inside(v, false, m, 23)
    {
      if InInterval(v, false, m, 23) {
        OnlyEnd(m, 23);
      }
    }
    if |data| <= 4 {
      OnlyEnd(Decimal(data), e);
    }
  }

  /** The lower end is the only multiple of 10^22, or of a higher power, in the interval. */
  lemma OnlyEnd(m: nat, x: int)
    requires 22 <= x <= 25 && InInterval(Fp(8344650268554688, 32), false, m, x)
    ensures x == 22 && m == 3584
  {
    hide Pow;
    Powers();
    PowAdd(10, 22, 1);
    PowAdd(10, 22, 2);
    PowAdd(10, 22, 3);
  }

  lemma Powers()
    ensures Pow(2, 0) == 1 && Pow(10, 0) == 1 && Pow(10, 1) == 10 && Pow(10, 2) == 100 && Pow(10, 3) == 1000
    ensures Pow(10, 10) == 1_00000_00000
    ensures Pow(2, 31) == 0x8000_0000 && Pow(2, 32) == BASE
    ensures Pow(10, 22) == 100_00000_00000_00000_00000
    ensures Pow(10, 30) == Pow(10, 10) * (Pow(10, 10) * Pow(10, 10)) && Pow(10, 32) == 100 * Pow(10, 30)
  {
    assert Pow(10, 2) == 100;
    PowAdd(10, 10, 10);
    PowAdd(10, 20, 2);
    PowAdd(10, 10, 20);
    PowAdd(10, 2, 30);
    Pow2Of32();
    assert Pow(2, 32) == 2 * Pow(2, 31);
  }

  /** An odd value with 113 bits: the end that is printed belongs to its neighbour. */
  lemma OddTieIsTaken()
    ensures var v, flags := Fp(5192930683834941743231244692382813, 31), Flags(false, true, false);
      && LowEndOnly(v, false, 1115173372873299532462171265957888, 10)
      && !Inside(v, false, 1115173372873299532462171265957888, 10)
      && Astray(v, flags, 44)
  {
    var v, flags := Fp(5192930683834941743231244692382813, 31), Flags(false, true, false);
    hide Pow;
    Powers();
    assert LowEndOnly(v, false, 1115173372873299532462171265957888, 10);
    assert 10 <= FixedUp(v, flags, 44);
  }

  /** 10^32 as a pair with few bits and without the fixup step: the zero left after its one digit is overlooked. */
  lemma ZeroIsOverlooked()
    ensures var v, flags := Fp(2 * 23283064365386962890625, 31), Flags(false, false, false);
      && InRange(v, false, 32) && ExponentFits(v, flags, -1, 32)
      && Inside(v, false, 1, 32)
      && Astray(v, flags, 32)
  {
    var v, flags := Fp(2 * 23283064365386962890625, 31), Flags(false, false, false);
    hide Pow;
    Powers();
    assert IsMultiple(v, 1, 32);
  }

  /** With a binary exponent below zero, or the same 32 in both exponents, it never does. */
  lemma NeverAstray(v: Fp, flags: Flags, exp10: int)
    requires v.f > 0
    requires v.e < 0 || Min((v.e + Shift(flags.predecessorCloser)) / 32, exp10 / 32) == v.e / 32
    ensures !Astray(v, flags, exp10)
  {}

  // ---- The misread power

  /** With 128 bits it can only be 10^31. */
  lemma OnlyTenTo31(v: Fp, closer: bool, exp10: int)
    requires InRange(v, closer, exp10)
    ensures Misread(v, closer, exp10) <==> !closer && v == Fp(Pow(5, 31), 31) && exp10 == 31
  {
    hide Pow;
    PowersOfFive();
    if Misread(v, closer, exp10) && exp10 != 31 {
      PowMonotonic(5, 63, exp10);
      PowAdd(5, 31, 32);
    }
  }

  lemma PowersOfFive()
    ensures Pow(5, 31) == 4656612873077392578125 && Pow(5, 32) == 23283064365386962890625
  {
    assert Pow(5, 7) == 78125 && Pow(5, 8) == 390625;
    hide Pow;
    PowAdd(5, 8, 8);
    PowAdd(5, 16, 8);
    PowAdd(5, 24, 7);
    PowAdd(5, 24, 8);
  }

  /** From the second character on its digits are no numeral, so they are no rounding. */
  lemma {:induction false} MisreadIsNoNumeral(n: nat)
    requires n > 1
    ensures !AllDigits(MisreadText(n)) && MisreadText(n)[1] == ':'
  {
    if n > 2 {
      MisreadIsNoNumeral(n - 1);
    }
    assert !IsDigit(MisreadText(n)[1]);
  }

  /** And 10^31 as this pair is in range for the function, though no floating-point format has it. */
  lemma TenTo31IsMisread(flags: Flags, numDigits: int)
    requires !flags.predecessorCloser
    ensures var v := Fp(Pow(5, 31), 31);
      InRange(v, false, 31) && Misread(v, false, 31) && ExponentFits(v, flags, numDigits, 31)
  {
    var v := Fp(Pow(5, 31), 31);
    Powers();
    PowOfProduct(5, 2, 31);
    PowersOfFive();
    assert Pow(10, 31) == 10 * Pow(10, 30);
  }
}
