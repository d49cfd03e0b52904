/** The values and exponent estimates the digit generator is called with. */
module FloatFormats {
  import opened Arith
  import opened Decimals
  import opened BigintSteps
  import opened Dragon
  import opened DragonSetUp
  import opened DragonSpec
  import opened DragonTheorems
  import opened Logarithms

  // ---- Taking a floating-point number apart

  /** How many bits the fraction and the exponent have, and whether the leading bit is left out. */
  datatype FloatFormat = FloatFormat(fractionBits: nat, exponentBits: nat, implicit: bool)

  const BINARY32 := FloatFormat(23, 8, true)
  const BINARY64 := FloatFormat(52, 11, true)
  const EXTENDED := FloatFormat(64, 15, false)
  const BINARY128 := FloatFormat(112, 15, true)

  predicate Known(ff: FloatFormat)
  {
    ff == BINARY32 || ff == BINARY64 || ff == EXTENDED || ff == BINARY128
  }

  function Bias(ff: FloatFormat): int
  {
    if ff == BINARY32 then 127 else if ff == BINARY64 then 1023 else 16383
  }

  /** Fields of a finite number; with an explicit leading bit, that bit is set unless the exponent is 0. */
  predicate IsFinite(ff: FloatFormat, biased: nat, fraction: nat)
  {
    && ff.fractionBits > 0 && biased < 2 * Bias(ff) + 1 && fraction < Pow(2, ff.fractionBits)
    && (!ff.implicit && biased > 0 ==> fraction >= Pow(2, ff.fractionBits - 1))
  }

  /** The number f * 2^e of the fields, and whether its predecessor is closer than its successor. */
  function Assign(ff: FloatFormat, biased: nat, fraction: nat): (Fp, bool)
  {
    var closer := fraction == 0 && biased > 1;
    var exponent := if biased == 0 then 1 else biased;
    var f := if biased != 0 && ff.implicit then fraction + Pow(2, ff.fractionBits) else fraction;
    var e := exponent - Bias(ff) - ff.fractionBits;
    (Fp(f, if ff.implicit then e else e + 1), closer)
  }

  function Precision(ff: FloatFormat): nat
  {
    if ff.implicit then ff.fractionBits + 1 else ff.fractionBits
  }

  function MinExponent(ff: FloatFormat): int
  {
    2 - Bias(ff) - Precision(ff)
  }

  /** The numbers without their fields: p bits with the leading one set, but at the smallest exponent. */
  predicate Normalised(ff: FloatFormat, v: Fp, closer: bool)
  {
    var p := Precision(ff);
    && p > 0 && 0 < v.f < Pow(2, p)
    && MinExponent(ff) <= v.e <= MinExponent(ff) + 2 * Bias(ff) - 1
    && (v.e > MinExponent(ff) ==> v.f >= Pow(2, p - 1))
    && (closer <==> ff.implicit && v.f == Pow(2, p - 1) && v.e > MinExponent(ff))
  }

  /** Exactly these come out of the fields of positive finite numbers. */
  lemma AssignIsNormalised(ff: FloatFormat, v: Fp, closer: bool)
    requires Known(ff)
    ensures Normalised(ff, v, closer) <==>
      v.f > 0 && exists biased, fraction: nat ::
        IsFinite(ff, biased, fraction) && Assign(ff, biased, fraction) == (v, closer)
  {
    if Normalised(ff, v, closer) {
      var biased, fraction := FieldsOf(ff, v, closer);
    }
    forall biased, fraction: nat | IsFinite(ff, biased, fraction) && Assign(ff, biased, fraction).0.f > 0
      ensures Normalised(ff, Assign(ff, biased, fraction).0, Assign(ff, biased, fraction).1)
    {
      AssignNormalises(ff, biased, fraction);
    }
  }

  /** The number one has the exponent field 127, 1023 or 16383, and is taken apart as a power of two and its inverse. */
  lemma OneIsOne()
    ensures Assign(BINARY32, 127, 0) == (Fp(Pow(2, 23), -23), true)
    ensures Assign(BINARY64, 1023, 0) == (Fp(Pow(2, 52), -52), true)
    ensures Assign(EXTENDED, 16383, Pow(2, 63)) == (Fp(Pow(2, 63), -63), false)
    ensures Assign(BINARY128, 16383, 0) == (Fp(Pow(2, 112), -112), true)
  {
    hide Pow;
    PowPositive(2, 63);
  }

  lemma AssignNormalises(ff: FloatFormat, biased: nat, fraction: nat)
    requires Known(ff) && IsFinite(ff, biased, fraction) && Assign(ff, biased, fraction).0.f > 0
    ensures Normalised(ff, Assign(ff, biased, fraction).0, Assign(ff, biased, fraction).1)
  {
    hide Pow;
    LeadingBit(ff);
  }

  lemma FieldsOf(ff: FloatFormat, v: Fp, closer: bool) returns (biased: nat, fraction: nat)
    requires Known(ff) && Normalised(ff, v, closer)
    ensures IsFinite(ff, biased, fraction) && Assign(ff, biased, fraction) == (v, closer)
  {
    hide Pow;
    LeadingBit(ff);
    var q := Pow(2, ff.fractionBits);
    biased := if v.f < Pow(2, Precision(ff) - 1) then 0 else v.e - MinExponent(ff) + 1;
    fraction := if ff.implicit && v.f >= q then v.f - q else v.f;
  }

  lemma LeadingBit(ff: FloatFormat)
    requires Known(ff)
    ensures Pow(2, ff.fractionBits) == 2 * Pow(2, ff.fractionBits - 1) && Pow(2, ff.fractionBits - 1) > 0
    ensures Pow(2, ff.fractionBits + 1) == 2 * Pow(2, ff.fractionBits)
  {
    PowPositive(2, ff.fractionBits - 1);
  }

  // ---- The estimate of the decimal exponent

  /** The bits of a number, found by shifting it out. */
  function CountBits(n: nat): (b: nat)
    ensures b > 0
  {
    if n < 2 then 1 else 1 + CountBits(n / 2)
  }

  lemma {:induction false} CountBitsIsLog(n: nat)
    requires n > 0
    ensures Pow(2, CountBits(n) - 1) <= n < Pow(2, CountBits(n))
  {
    if n < 2 {
      assert Pow(2, 0) == 1 && Pow(2, 1) == 2;
    } else {
      CountBitsIsLog(n / 2);
    }
  }

  /** Conversion to an integer drops the fraction. */
  function Truncate(r: real): int
  {
    if r >= 0.0 then r.Floor else -((-r).Floor)
  }

  /** The exponent passed for a value whose binary logarithm has the integer part l; doubles count as reals here. */
  function Estimate(l: int): int
  {
    var e := l as real * 0.3010299956639812 - 0.0000000001;
    var exp := Truncate(e);
    if e > exp as real then exp + 1 else exp
  }

  function Log2(v: Fp): int
  {
    v.e + CountBits(v.f) - 1
  }

  /** It is the ceiling. */
  lemma EstimateIsCeiling(l: int)
    ensures var x := Estimate(l);
      1_00000_00000_00000 * 10 * (x - 1) < 3010299956639812 * l - 1000000 <= 1_00000_00000_00000 * 10 * x
  {
    var e, x := l as real * 0.3010299956639812 - 0.0000000001, Estimate(l);
    assert (x - 1) as real < e <= x as real;
  }

  // ---- What the estimate promises

  /** The power of two that the estimate is made from is at most 10^x, and at least the power before. */
  lemma EstimateBrackets(l: int)
    requires -16494 <= l < 16384
    ensures var x := Estimate(l);
      && Pow(2, Pos(l)) * Pow(10, Neg(x)) <= Pow(2, Neg(l)) * Pow(10, Pos(x))
      && Pow(2, Neg(l)) * Pow(10, Pos(x - 1)) <= Pow(2, Pos(l)) * Pow(10, Neg(x - 1))
  {
    hide Pow, Estimate;
    var x := Estimate(l);
    EstimateIsCeiling(l);
    NoPower();
    if l > 0 {
      TwoBelowTen(l, x);
      TenBelowTwo(x - 1, l);
    } else if l < 0 {
      TenBelowTwo(-x, -l);
      TwoBelowTen(-l, 1 - x);
    } else {
      assert x == 0;
      OneTen();
    }
  }

  lemma OneTen()
    ensures Pow(10, 1) == 10
  {}

  lemma NoPower()
    ensures Pow(2, 0) == 1 && Pow(10, 0) == 1
  {}

  /** A value of b bits is below the next power of two, on both sides of the point. */
  lemma BitsAbove(f: nat, e: int, b: nat)
    requires b > 0 && f < Pow(2, b)
    ensures var l := e + b - 1; f * (Pow(2, Pos(e)) * Pow(2, Neg(l))) < 2 * (Pow(2, Pos(l)) * Pow(2, Neg(e)))
  {
    hide Pow;
    var l := e + b - 1;
    PowAdd(2, Pos(e), Neg(l));
    PowAdd(2, Pos(l), Neg(e));
    PowAdd(2, b - 1, 1);
    OneTwo();
    var s := Pos(e) + Neg(l);
    assert Pos(l) + Neg(e) == s + (b - 1);
    PowAdd(2, s, b - 1);
    PowPositive(2, s);
    MulStrictlyMonotonic(f, Pow(2, b), Pow(2, s));
    MulAssoc(2, Pow(2, b - 1), Pow(2, s));
  }

  lemma OneTwo()
    ensures Pow(2, 1) == 2
  {}

  lemma BothBelow(f: nat, p: nat, q: nat, r: nat, w: nat, t: nat, u: nat)
    requires f * (p * q) < 2 * (r * w) && r * t <= q * u && q > 0 && w > 0 && t > 0 && u > 0
    ensures f * (p * t) < 5 * (w * u)
  {
    MulPositive(q, u);
    MulStrictlyMonotonic(f * (p * q), 2 * (r * w), t);
    MulStrictlyMonotonic(2 * (r * t), 5 * (q * u), w);
    Chained(f, p, q, r, w, t, u);
    MulCancelLess(f * (p * t), 5 * (w * u), q);
  }

  lemma Chained(f: nat, p: nat, q: nat, r: nat, w: nat, t: nat, u: nat)
    ensures (f * (p * t)) * q == (f * (p * q)) * t
    ensures (2 * (r * w)) * t == (2 * (r * t)) * w
    ensures (5 * (q * u)) * w == (5 * (w * u)) * q
  {
    MulAssoc(f, p * t, q);
    MulAssoc(p, t, q);
    MulAssoc(f, p * q, t);
    MulAssoc(p, q, t);
    MulAssoc(r, w, t);
    MulAssoc(r, t, w);
    MulAssoc(q, u, w);
    MulAssoc(w, u, q);
    MulAssoc(u, w, q);
    MulAssoc(q, w, u);
    assert q * (u * w) == w * (u * q);
  }

  /** With the estimate the function may be called for every number, in every mode. */
  lemma EstimateSuffices(ff: FloatFormat, v: Fp, flags: Flags, numDigits: int)
    requires Known(ff) && Normalised(ff, v, flags.predecessorCloser)
    ensures var x := Estimate(Log2(v));
      InRange(v, flags.predecessorCloser, x) && ExponentFits(v, flags, numDigits, x)
  {
    hide Pow;
    var b, x := CountBits(v.f), Estimate(Log2(v));
    CountBitsIsLog(v.f);
    BitsFit(ff, v, flags.predecessorCloser);
    EstimateBrackets(Log2(v));
    BitsAbove(v.f, v.e, b);
    PowPositive(2, Neg(Log2(v)));
    PowPositive(2, Neg(v.e));
    PowPositive(10, Neg(x));
    PowPositive(10, Pos(x));
    BothBelow(v.f, Pow(2, Pos(v.e)), Pow(2, Neg(Log2(v))), Pow(2, Pos(Log2(v))), Pow(2, Neg(v.e)),
              Pow(10, Neg(x)), Pow(10, Pos(x)));
    EstimateFits(v, flags, numDigits, x);
    EstimateIsCeiling(Log2(v));
    ShortAndPower(ff, v, flags.predecessorCloser);
  }

  /** A value of b bits is at least the power of two that its top bit stands for. */
  lemma BitsBelow(f: nat, e: int, b: nat)
    requires b > 0 && Pow(2, b - 1) <= f
    ensures var l := e + b - 1; Pow(2, Pos(l)) * Pow(2, Neg(e)) <= f * (Pow(2, Pos(e)) * Pow(2, Neg(l)))
  {
    hide Pow;
    var l := e + b - 1;
    PowAdd(2, Pos(e), Neg(l));
    PowAdd(2, Pos(l), Neg(e));
    var s := Pos(e) + Neg(l);
    assert Pos(l) + Neg(e) == s + (b - 1);
    PowAdd(2, s, b - 1);
    MulMonotonic(Pow(2, b - 1), f, Pow(2, s));
  }

  lemma BothAbove(f: nat, p: nat, q: nat, r: nat, w: nat, t: nat, u: nat)
    requires r * w <= f * (p * q) && q * t <= r * u && q > 0
    ensures w * t <= f * (p * u)
  {
    MulMonotonic(r * w, f * (p * q), u);
    MulMonotonic(q * t, r * u, w);
    AboveChained(f, p, q, r, w, t, u);
    if f * (p * u) < w * t {
      MulStrictlyMonotonic(f * (p * u), w * t, q);
    }
  }

  lemma AboveChained(f: nat, p: nat, q: nat, r: nat, w: nat, t: nat, u: nat)
    ensures (f * (p * q)) * u == (f * (p * u)) * q
    ensures (r * u) * w == (r * w) * u
    ensures (q * t) * w == (w * t) * q
  {
    MulAssoc(f, p * q, u);
    MulAssoc(p, q, u);
    MulAssoc(f, p * u, q);
    MulAssoc(p, u, q);
    MulAssoc(r, u, w);
    MulAssoc(r, w, u);
    MulAssoc(q, t, w);
    MulAssoc(w, t, q);
    assert q * (t * w) == (w * t) * q;
  }

  /** What is said of the estimate where it is made: 10^(x - 1) <= v < 10^(x + 1). */
  lemma EstimateIsClose(ff: FloatFormat, v: Fp, closer: bool)
    requires Known(ff) && Normalised(ff, v, closer)
    ensures var x := Estimate(Log2(v));
      && ScaledDen(v.e, x - 1) <= ScaledNum(v.f, v.e, x - 1) && ScaledNum(v.f, v.e, x) < 10 * ScaledDen(v.e, x)
  {
    hide Pow, Estimate;
    var b, l, x := CountBits(v.f), Log2(v), Estimate(Log2(v));
    CountBitsIsLog(v.f);
    BitsFit(ff, v, closer);
    EstimateBrackets(l);
    BitsBelow(v.f, v.e, b);
    PowPositive(2, Neg(l));
    BothAbove(v.f, Pow(2, Pos(v.e)), Pow(2, Neg(l)), Pow(2, Pos(l)), Pow(2, Neg(v.e)), Pow(10, Pos(x - 1)),
              Pow(10, Neg(x - 1)));
    EstimateSuffices(ff, v, Flags(closer, true, true), 0);
  }

  lemma UpperEndAbove(v: Fp, closer: bool, x: int)
    requires ScaledDen(v.e, x) <= ScaledNum(v.f, v.e, x)
    ensures !UpperEndFits(v, closer, x, 1)
  {
    var c, u, unit := Fine(closer), UpperUnits(closer), Pow(2, Pos(v.e)) * Pow(10, Neg(x));
    PowPositive(2, Pos(v.e));
    PowPositive(10, Neg(x));
    MulPositive(Pow(2, Pos(v.e)), Pow(10, Neg(x)));
    hide Pow;
    MulPositive(u, unit);
    Distribute(unit, c * v.f, u);
    MulAssoc(c, v.f, unit);
    MulMonotonic(ScaledDen(v.e, x), v.f * unit, c);
  }

  /**
    For a caller with decimal places, a digit is left exactly if the upper end of the interval around v
    reaches the last place.
   */
  lemma PlaceIsReached(ff: FloatFormat, v: Fp, flags: Flags, places: int)
    requires Known(ff) && Normalised(ff, v, flags.predecessorCloser) && flags.fixup
    ensures FixedUp(v, flags, Estimate(Log2(v))) >= -places <==> !UpperEndFits(v, flags.predecessorCloser, -places, 1)
  {
    hide Pow, Estimate, FixedUp, UpperEndFits, ScaledNum, ScaledDen, Normalised;
    var x := Estimate(Log2(v));
    EstimateIsClose(ff, v, flags.predecessorCloser);
    UpperEndAbove(v, flags.predecessorCloser, x - 1);
    EstimateSuffices(ff, v, flags, -1);
    DigitIsLeft(v, flags, x, places);
  }

  /** The significand fits its bits, so the logarithm is in range. */
  lemma BitsFit(ff: FloatFormat, v: Fp, closer: bool)
    requires Known(ff) && Normalised(ff, v, closer)
    ensures CountBits(v.f) <= Precision(ff) && -16494 <= Log2(v) < 16384
    ensures v.e > MinExponent(ff) ==> CountBits(v.f) == Precision(ff)
  {
    hide Pow;
    CountBitsIsLog(v.f);
    var b, p := CountBits(v.f), Precision(ff);
    if b > p {
      PowMonotonic(2, p, b - 1);
    }
    if b < p && v.e > MinExponent(ff) {
      PowMonotonic(2, b, p - 1);
    }
  }

  lemma ShortAndPower(ff: FloatFormat, v: Fp, closer: bool)
    requires Known(ff) && Normalised(ff, v, closer)
    ensures v.f < U128 && (closer ==> IsPowerOfTwo(v.f))
  {
    hide Pow;
    Pow2Of128();
    PowMonotonic(2, Precision(ff), 128);
    var k := Precision(ff) - 1;
    BelowPower(k);
    assert closer ==> k < v.f && v.f == Pow(2, k);
  }

  lemma {:induction false} BelowPower(k: nat)
    ensures k < Pow(2, k)
  {
    if k > 0 {
      BelowPower(k - 1);
    }
  }

  // ---- What the callers meet

  /** The value whose first digit is missed is never passed: 5^31 has 73 bits. */
  lemma NeverMisread(ff: FloatFormat, v: Fp, closer: bool, exp10: int)
    requires Known(ff) && Normalised(ff, v, closer) && InRange(v, closer, exp10)
    ensures !Misread(v, closer, exp10)
  {
    hide Pow;
    OnlyTenTo31(v, closer, exp10);
    PowersOfFive();
    if Misread(v, closer, exp10) {
      BitsFit(ff, v, closer);
      CountBitsIsLog(v.f);
      PowerRow();
    }
  }

  lemma PowerRow()
    ensures Pow(2, 24) == 0x100_0000 && Pow(2, 53) == 0x20_0000_0000_0000 && Pow(2, 64) == 0x1_0000_0000_0000_0000
    ensures Pow(2, 63) == 0x8000_0000_0000_0000
    ensures Pow(2, 112) == 0x1_0000_0000_0000_0000_0000_0000_0000
  {
    assert Pow(2, 8) == 0x100 && Pow(2, 5) == 0x20;
    hide Pow;
    PowAdd(2, 8, 8);
    PowAdd(2, 16, 8);
    PowAdd(2, 24, 24);
    PowAdd(2, 48, 5);
    PowAdd(2, 48, 16);
    PowAdd(2, 56, 8);
    PowAdd(2, 64, 48);
    PowPositive(2, 63);
    assert Pow(2, 64) == 2 * Pow(2, 63) by { PowAdd(2, 1, 63); OneTwo(); }
  }

  /** So a positive number of digits is always rounded half to even. */
  lemma AlwaysRounded(ff: FloatFormat, v: Fp, flags: Flags, exp10: int, x: int, n: int, before: seq<char>,
                      data: seq<char>, e: int)
    requires Known(ff) && Normalised(ff, v, flags.predecessorCloser) && InRange(v, flags.predecessorCloser, exp10)
    requires n > 0 && RequestedResult(v, flags, exp10, x, n, before, data, e)
    ensures DigitsResult(v, flags.fixed, n, x, data, e)
  {
    hide DigitsResult, Misread;
    NeverMisread(ff, v, flags.predecessorCloser, exp10);
  }

  /** And so is a number of decimal places, when the upper end of the interval reaches the last one. */
  lemma PlacesRounded(ff: FloatFormat, v: Fp, flags: Flags, places: int, before: seq<char>, data: seq<char>, e: int)
    requires Known(ff) && Normalised(ff, v, flags.predecessorCloser) && flags.fixup
    requires !UpperEndFits(v, flags.predecessorCloser, -places, 1)
    requires var x := Estimate(Log2(v));
      PlacesResult(v, flags.predecessorCloser, x, FixedUp(v, flags, x), places, before, data, e)
    ensures e == -places && AllDigits(data)
    ensures RoundsHalfEven(ScaledNum(v.f, v.e, -places), ScaledDen(v.e, -places), Decimal(data))
  {
    hide Pow, Estimate, FixedUp, UpperEndFits, ScaledNum, ScaledDen, Normalised, RoundsHalfEven, Misread, InRange;
    var x := Estimate(Log2(v));
    PlaceIsReached(ff, v, flags, places);
    EstimateSuffices(ff, v, flags, places);
    NeverMisread(ff, v, flags.predecessorCloser, x);
  }

  /** The exponents of a remainder and of lower differ upwards only for 128-bit numbers around 2^143. */
  lemma OrderAbove(ff: FloatFormat, v: Fp, closer: bool)
    requires Known(ff) && Normalised(ff, v, closer)
    ensures ExponentOrder(v, closer, Estimate(Log2(v))) > 0 <==>
      ff == BINARY128 && (v.e == 31 || (v.e == 30 && closer))
    ensures v.e >= 0 ==> Estimate(Log2(v)) >= 0
  {
    hide Pow, Estimate;
    BitsFit(ff, v, closer);
    EstimateIsCeiling(Log2(v));
  }

  /** With the fixup step a zero remainder is never overlooked. */
  lemma ZeroNeverHidden(ff: FloatFormat, v: Fp, flags: Flags)
    requires Known(ff) && Normalised(ff, v, flags.predecessorCloser) && flags.fixup
    ensures !ZeroHidden(v, flags, Estimate(Log2(v)))
  {
    hide Pow, Estimate, ExponentOrder;
    var x := Estimate(Log2(v));
    OrderAbove(ff, v, flags.predecessorCloser);
    if ExponentOrder(v, flags.predecessorCloser, x) > 0 {
      BitsFit(ff, v, flags.predecessorCloser);
      EstimateIsCeiling(Log2(v));
      AlwaysFixedUp(v, flags, x);
    }
  }

  lemma AlwaysFixedUp(v: Fp, flags: Flags, x: int)
    requires flags.fixup && 0 < v.f < Pow(2, 113)
    requires (v.e == 31 && x == 44) || (v.e == 30 && x == 43 && v.f == Pow(2, 112))
    ensures FixedUp(v, flags, x) == x - 1
  {
    hide Pow;
    NoPower();
    TopPowers();
    if v.e == 31 {
      MulMonotonic(v.f + 1, Pow(2, 113), Pow(2, 31));
    }
    UpperEndBelow(v, flags.predecessorCloser, x);
  }

  /** The upper end is less than one unit of v above v. */
  lemma UpperEndBelow(v: Fp, closer: bool, x: nat)
    requires v.e >= 0 && (v.f + 1) * Pow(2, v.e) <= Pow(10, x)
    ensures UpperEndFits(v, closer, x, 1)
  {
    NoPower();
    PowPositive(2, v.e);
    hide Pow;
    var c, p := Fine(closer), Pow(2, v.e);
    MulStrictlyMonotonic(HighEnd(v.f, closer), c * (v.f + 1), p);
    MulAssoc(c, v.f + 1, p);
    MulMonotonic((v.f + 1) * p, Pow(10, x), c);
  }

  lemma FirstPowers()
    ensures Pow(5, 1) == 5 && Pow(5, 4) == 625 && Pow(5, 5) == 3125
    ensures Pow(2, 1) == 2 && Pow(2, 3) == 8 && Pow(2, 8) == 256
  {}

  lemma TopPowers()
    ensures Pow(2, 113) * Pow(2, 31) <= Pow(10, 44) && (Pow(2, 112) + 1) * Pow(2, 30) <= Pow(10, 43)
  {
    hide Pow;
    FirstPowers();
    NoPower();
    PowAdd(5, 4, 5);
    PowAdd(5, 9, 5);
    PowAdd(5, 14, 14);
    PowAdd(5, 28, 14);
    PowAdd(5, 42, 1);
    PowAdd(5, 43, 1);
    PowAdd(2, 8, 8);
    PowAdd(2, 16, 16);
    PowAdd(2, 32, 32);
    PowAdd(2, 64, 32);
    PowAdd(2, 96, 3);
    PowAdd(2, 99, 1);
    PowOfProduct(5, 2, 43);
    PowOfProduct(5, 2, 44);
    PowAdd(2, 100, 44);
    PowAdd(2, 113, 31);
    PowAdd(2, 99, 43);
    PowAdd(2, 112, 30);
    PowMonotonic(2, 30, 43);
    Distribute(Pow(2, 30), Pow(2, 112), 1);
    Distribute(Pow(2, 43), Pow(2, 99), 1);
    MulMonotonic(Pow(2, 100), Pow(5, 44), Pow(2, 44));
    MulMonotonic(Pow(2, 99) + 1, Pow(5, 43), Pow(2, 43));
  }

  // ---- When the shortest mode goes astray for a caller

  /**
    Exactly then: the lower end of the interval is all that reads back at some scale, and either the
    number is even and its decimal exponent has fewer whole bigits than the binary one, or it is one of
    the odd 128-bit numbers with the exponent 31.
   */
  lemma AstrayForCallers(ff: FloatFormat, v: Fp, flags: Flags)
    requires Known(ff) && Normalised(ff, v, flags.predecessorCloser) && flags.fixup
    ensures var x := Estimate(Log2(v));
      Astray(v, flags, x) <==>
      && (exists y, m: nat | y <= FixedUp(v, flags, x) :: LowEndOnly(v, flags.predecessorCloser, m, y))
      && (if v.f % 2 == 0 then v.e >= 0 && x / 32 < v.e / 32 else ff == BINARY128 && v.e == 31)
  {
    hide Pow, Estimate, FixedUp, LowEndOnly, ZeroHidden, IsMultiple;
    ZeroNeverHidden(ff, v, flags);
    OrderAbove(ff, v, flags.predecessorCloser);
    CloserIsEven(ff, v, flags.predecessorCloser);
  }

  lemma CloserIsEven(ff: FloatFormat, v: Fp, closer: bool)
    requires Known(ff) && Normalised(ff, v, closer)
    ensures closer ==> v.f % 2 == 0
  {
    hide Pow;
    PowAdd(2, 1, Precision(ff) - 2);
    OneTwo();
  }

  /** A double: 3584e22 is an even value's lower end and reads back, but is stepped over. */
  lemma EvenDoubleAstray()
    ensures var v, flags := Fp(8344650268554688, 32), Flags(false, true, false);
      && Normalised(BINARY64, v, false) && Estimate(Log2(v)) == 26
      && Inside(v, false, 3584, 22) && Astray(v, flags, 26)
  {
    var v := Fp(8344650268554688, 32);
    hide Pow, Astray, Estimate;
    PowerRow();
    SomePowers();
    BitsFit(BINARY64, v, false);
    EstimateIsCeiling(84);
    EvenTieIsMissed();
  }

  /** A 128-bit number: the lower end of this odd value's interval is what is left, and belongs to its neighbour. */
  lemma OddQuadAstray()
    ensures var v, flags := Fp(5192930683834941743231244692382813, 31), Flags(false, true, false);
      && Normalised(BINARY128, v, false) && Estimate(Log2(v)) == 44
      && LowEndOnly(v, false, 1115173372873299532462171265957888, 10)
      && !Inside(v, false, 1115173372873299532462171265957888, 10)
      && Astray(v, flags, 44)
  {
    var v := Fp(5192930683834941743231244692382813, 31);
    hide Pow, Astray, Estimate;
    PowerRow();
    SomePowers();
    BitsFit(BINARY128, v, false);
    EstimateIsCeiling(143);
    OddTieIsTaken();
  }

  /** 0.0625 as it is passed, with a closer predecessor and no decimal place: 1 is printed where 0 is right. */
  lemma NoDigitsForDouble()
    ensures var v, flags := Fp(0x10_0000_0000_0000, -56), Flags(true, true, true);
      && Normalised(BINARY64, v, true) && Estimate(Log2(v)) == -1
      && FixedUp(v, flags, -1) == -2
      && NoDigits(v, -2) == 1
      && RoundsHalfEven(ScaledNum(v.f, v.e, 0), ScaledDen(v.e, 0), 0)
      && !RoundsHalfEven(ScaledNum(v.f, v.e, 0), ScaledDen(v.e, 0), 1)
  {
    var v := Fp(0x10_0000_0000_0000, -56);
    hide Pow, Estimate;
    PowerRow();
    SomePowers();
    BitsFit(BINARY64, v, true);
    EstimateIsCeiling(-4);
    NoDigitsCounterexample();
  }

  lemma SomePowers()
    ensures Pow(2, 52) == 0x10_0000_0000_0000 && Pow(2, 113) == 0x2_0000_0000_0000_0000_0000_0000_0000
  {
    PowerRow();
    assert Pow(2, 53) == 2 * Pow(2, 52);
    assert Pow(2, 113) == 2 * Pow(2, 112);
  }
}
