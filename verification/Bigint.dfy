/** The mutable big integer of the decimal printer: bigits with an implicit exponent. */
module Bigints {
  import opened Arith
  import opened Bigits
  import opened BigintSpec
  import opened BigintSteps
  import opened Convolution

  class Bigint {
    var bigits: seq<bigit>
    var exp: nat

    ghost function V(): nat
      reads this
    {
      Val(bigits, exp)
    }

    constructor ()
      ensures bigits == [] && exp == 0
    {
      bigits, exp := [], 0;
    }

    function NumBigits(): (n: nat)
      reads this
    {
      |bigits| + exp
    }

    // ---- Private helpers

    method SubtractBigits(index: nat, other: bigit, borrow: nat) returns (newBorrow: nat)
      requires index < |bigits| && borrow <= 1
      modifies this`bigits
      ensures var (x, nb) := Difference(old(bigits[index]), other, borrow);
        bigits == old(bigits)[index := x] && newBorrow == nb
    {
      SubtractLimb(bigits[index], other, borrow);
      var result := (bigits[index] - other - borrow) % 0x1_0000_0000_0000_0000;
      bigits := bigits[index := result % BASE];
      newBorrow := result / 0x8000_0000_0000_0000;
    }

    method RemoveLeadingZeros()
      requires |bigits| > 0
      modifies this`bigits
      ensures Canonical(bigits)
      ensures ToNat(bigits) == old(ToNat(bigits)) && |bigits| <= old(|bigits|)
    {
      var n := |bigits| - 1;
      assert bigits[..n + 1] == bigits;
      while n > 0 && bigits[n] == 0
        invariant 0 <= n < |bigits|
        invariant ToNat(bigits[..n + 1]) == ToNat(bigits)
      {
        assert bigits[..n + 1][..n] == bigits[..n];
        n := n - 1;
      }
      bigits := bigits[..n + 1];
    }

    /**
      Subtracts other. The last loop keeps lending from the same bigit, so the difference comes
      out exactly when that bigit can lend; otherwise the result is off by the stated amount.
     */
    method SubtractAligned(other: Bigint)
      requires this != other
      requires Canonical(bigits) && Normal(other.bigits)
      requires other.exp >= exp && V() >= other.V()
      modifies this
      ensures Canonical(bigits) && exp == old(exp) && |bigits| <= old(|bigits|)
      ensures var fits := BorrowFits(old(bigits), other.exp - exp, other.bigits);
        V() == old(V()) - other.V()
               + if fits then 0 else (BASE - 1) * Weight(other.exp + |other.bigits|)
    {
      hide Subtracting, Lending, BorrowFits, Weight;
      ghost var s, d := bigits, other.exp - exp;
      AlignedFits(s, exp, other.bigits, other.exp);
      SubtractStart(s, d, other.bigits);
      var borrow: nat := 0;
      var i: nat := other.exp - exp;
      var j, n := 0, |other.bigits|;
      while j != n
        invariant 0 <= j <= n && i == d + j && exp == old(exp)
        invariant |bigits| == |s| && borrow <= 1
        invariant Subtracting(bigits, s, d, j, other.bigits, borrow)
        decreases n - j
      {
        SubtractStep(bigits, s, d, j, other.bigits, borrow);
        borrow := SubtractBigits(i, other.bigits[j], borrow);
        i, j := i + 1, j + 1;
      }
      LendStart(bigits, s, d, other.bigits, borrow);
      while borrow > 0
        invariant exp == old(exp) && |bigits| == |s| && borrow <= 1
        invariant borrow == 1 ==> i < |s|
        invariant Lending(bigits, s, d, other.bigits, borrow)
        decreases borrow, if borrow > 0 && bigits[i] == 0 then 1 else 0
      {
        LendStep(bigits, s, d, other.bigits);
        borrow := SubtractBigits(i, 0, borrow);
      }
      DifferenceValue(bigits, s, exp, other.bigits, other.exp);
      RemoveLeadingZeros();
    }

    // ---- Multiplication

    /** this *= value, for a 32-bit value. */
    method Multiply(value: nat)
      requires value < BASE
      modifies this`bigits
      ensures ToNat(bigits) == old(ToNat(bigits)) * value
      ensures V() == old(V()) * value
      ensures value > 0 && old(Canonical(bigits)) ==> Canonical(bigits)
      ensures value > 0 && old(Normal(bigits)) ==> Normal(bigits)
    {
      hide Carried, ToNat, Weight, Val;
      ghost var s := bigits;
      CarryStart(s, value);
      var carry: nat := 0;
      var i, n := 0, |bigits|;
      while i < n
        invariant 0 <= i <= n == |bigits|
        invariant carry < BASE
        invariant Carried(bigits, s, i, carry, value)
      {
        LimbFits(bigits[i], value, carry);
        var result := bigits[i] * value + carry;
        LimbDone(bigits, s, i, result % BASE, result / BASE, carry, value);
        bigits := bigits[i := result % BASE];
        carry := result / BASE;
        i := i + 1;
      }
      CarryEnd(bigits, s, carry, value);
      if carry != 0 {
        bigits := bigits + [carry];
      }
      ProductValue(bigits, s, value, exp);
      if value > 0 && Canonical(s) {
        ProductIsCanonical(s, value, bigits);
        ProductIsNormal(s, value, bigits);
      }
    }

    /**
      this *= value with a word of 2 * half bits (half is 32 or 64). Both halves of value are
      multiplied in one pass; the carry word never wraps.
     */
    method MultiplyWide(value: nat, half: nat)
      requires half == 32 || half == 64
      requires value < Pow(2, 2 * half)
      modifies this`bigits
      ensures ToNat(bigits) == old(ToNat(bigits)) * value
      ensures V() == old(V()) * value
      ensures value > 0 && old(Canonical(bigits)) ==> Canonical(bigits)
      ensures value > 0 && old(Normal(bigits)) ==> Normal(bigits)
    {
      hide Carried, Pushing, ToNat, Weight, Val, WideStep, Halves, Pow;
      ghost var s := bigits;
      CarryStart(s, value);
      var word := WordSize(2 * half);
      var shift := half - BIGIT_BITS;
      var (upper, lower) := Halves(value, half);
      var carry: nat := 0;
      var i, n := 0, |bigits|;
      while i < n
        invariant 0 <= i <= n == |bigits|
        invariant carry < word
        invariant Carried(bigits, s, i, carry, value)
      {
        WideLimb(bigits[i], value, half, carry);
        var (result, newCarry) := WideStep(bigits[i], lower, upper, word, WordSize(shift), carry);
        LimbDone(bigits, s, i, result % BASE, newCarry, carry, value);
        bigits := bigits[i := result % BASE];
        carry := newCarry;
        i := i + 1;
      }
      CarryEnd(bigits, s, carry, value);
      ghost var low := bigits;
      while carry != 0
        invariant Pushing(bigits, carry, ToNat(s) * value)
        invariant carry == 0 ==> bigits == low || Normal(bigits)
        decreases carry
      {
        PushStep(bigits, carry, ToNat(s) * value);
        bigits := bigits + [carry % BASE];
        carry := carry / BASE;
      }
      PushEnd(bigits, ToNat(s) * value);
      ProductValue(bigits, s, value, exp);
      if value > 0 && Canonical(s) {
        ProductIsCanonical(s, value, bigits);
        ProductIsNormal(s, value, bigits);
      }
    }

    // ---- Assignment

    method Assign(value: nat)
      modifies this
      ensures ToNat(bigits) == value && exp == 0 && V() == value
      ensures Canonical(bigits)
      ensures value > 0 ==> Normal(bigits)
      ensures 0 < value < BASE ==> bigits == [value]
    {
      var n: nat := value;
      var digits: seq<bigit> := [n % BASE];
      n := n / BASE;
      ToNatSnoc([], value % BASE);
      assert [] + [value % BASE] == digits;
      PushCarry(value, 1);
      while n != 0
        invariant ToNat(digits) + n * Weight(|digits|) == value
        invariant |digits| > 0 && (|digits| == 1 ==> digits == [value % BASE] && n == value / BASE)
        invariant n == 0 ==> |digits| == 1 || Normal(digits)
        decreases n
      {
        ToNatSnoc(digits, n % BASE);
        PushCarry(n, Weight(|digits|));
        WeightSucc(|digits|);
        digits := digits + [n % BASE];
        n := n / BASE;
      }
      bigits, exp := digits, 0;
      assert Weight(0) == 1;
      if |digits| == 1 {
        assert value == value % BASE;
      }
    }

    method AssignFrom(other: Bigint)
      modifies this
      ensures bigits == old(other.bigits) && exp == old(other.exp)
    {
      bigits, exp := other.bigits, other.exp;
    }

    // ---- Shifting

    method ShiftLeft(shift: nat)
      modifies this
      ensures exp == old(exp) + shift / 32
      ensures V() == old(V()) * Pow(2, shift)
      ensures old(Canonical(bigits)) ==> Canonical(bigits)
      ensures old(Normal(bigits)) ==> Normal(bigits)
    {
      hide Carried, ToNat, Weight, Val, Pow;
      ghost var s, e0 := bigits, exp;
      exp := exp + shift / BIGIT_BITS;
      var bits := shift % BIGIT_BITS;
      if bits == 0 {
        WholeShift(s, e0, shift);
        return;
      }
      ghost var factor := Pow(2, bits);
      PowPositive(2, bits);
      FactorBelowBase(bits);
      CarryStart(s, factor);
      var carry: nat := 0;
      var i, n := 0, |bigits|;
      while i < n
        invariant 0 <= i <= n == |bigits|
        invariant exp == e0 + shift / 32
        invariant carry < factor
        invariant Carried(bigits, s, i, carry, factor)
      {
        ShiftLimb(bigits[i], bits, carry);
        var (limb, c) := ShiftStep(bigits[i], bits, carry);
        LimbDone(bigits, s, i, limb, c, carry, factor);
        bigits := bigits[i := limb];
        carry := c;
        i := i + 1;
      }
      CarryEnd(bigits, s, carry, factor);
      if carry != 0 {
        bigits := bigits + [carry];
      }
      ShiftValue(bigits, s, e0, shift);
      if Canonical(s) {
        ProductIsCanonical(s, factor, bigits);
        ProductIsNormal(s, factor, bigits);
      }
    }

    // ---- Powers of ten

    method Square()
      requires |bigits| > 0 && 2 * |bigits| <= INT_MAX
      modifies this
      ensures ToNat(bigits) == old(ToNat(bigits)) * old(ToNat(bigits))
      ensures exp == 2 * old(exp) && V() == old(V()) * old(V())
      ensures Canonical(bigits)
    {
      hide Squaring, Summing, Weight, Column, Columns, Product, Val, ToNat;
      var numBigits := |bigits|;
      var numResultBigits := 2 * numBigits;
      var n := bigits;
      bigits := Zeros(numResultBigits);
      var sum: nat := 0;
      var k := 0;
      SquareStart(bigits, n);
      while k < numBigits
        invariant 0 <= k <= numBigits && |bigits| == numResultBigits && exp == old(exp)
        invariant Squaring(bigits, n, k, sum)
      {
        ghost var t, carry := bigits, sum;
        SumStart(bigits, n, k, 0, carry);
        var i, j := 0, k;
        while j >= 0
          invariant 0 <= i <= k + 1 && j == k - i
          invariant bigits == t && exp == old(exp)
          invariant Summing(n, k, i, carry, sum)
        {
          SumStep(n, k, i, carry, sum);
          sum := (sum + Product(n[i], n[j])) % U128;
          i, j := i + 1, j - 1;
        }
        ColumnDone(bigits, n, k, i, carry, sum);
        bigits := bigits[k := sum % BASE];
        sum := sum / BASE;
        k := k + 1;
      }
      while k < numResultBigits
        invariant numBigits <= k <= numResultBigits && |bigits| == numResultBigits && exp == old(exp)
        invariant Squaring(bigits, n, k, sum)
      {
        ghost var t, carry := bigits, sum;
        var j := numBigits - 1;
        var i := k - j;
        SumStart(bigits, n, k, i, carry);
        while i < numBigits
          invariant k - numBigits + 1 <= i <= numBigits && j == k - i
          invariant bigits == t && exp == old(exp)
          invariant Summing(n, k, i, carry, sum)
        {
          SumStep(n, k, i, carry, sum);
          sum := (sum + Product(n[i], n[j])) % U128;
          i, j := i + 1, j - 1;
        }
        ColumnDone(bigits, n, k, i, carry, sum);
        bigits := bigits[k := sum % BASE];
        sum := sum / BASE;
        k := k + 1;
      }
      SquareDone(bigits, n, sum);
      RemoveLeadingZeros();
      SquareValue(bigits, n, exp);
      exp := exp * 2;
    }

    method AssignPow10(power: nat)
      requires power < 0x4000_0000  // the bit mask is an int: a larger power shifts it out of range
      modifies this
      ensures V() == Pow(10, power) && exp == power / 32 && Normal(bigits)
      ensures power == 0 ==> bigits == [1]
    {
      if power == 0 {
        Assign(1);
        assert Pow(10, 0) == 1;
        return;
      }
      hide Shr, MaskBit, ToNat, Weight;
      var bitmask := 1;
      ghost var k := 0;
      while power >= bitmask
        invariant bitmask == Pow(2, k) && bitmask <= 2 * power
        invariant k > 0 ==> power >= Pow(2, k - 1)
        decreases 2 * power - bitmask
      {
        bitmask := bitmask * 2;
        k := k + 1;
        assert bitmask <= INT_MAX;
      }
      bitmask := bitmask / 2;
      k := k - 1;
      ShrTop(power, k);
      Assign(5);
      assert Pow(5, 1) == 5;
      bitmask := bitmask / 2;
      while bitmask != 0
        invariant Normal(bigits) && exp == 0
        invariant k >= 0 && bitmask == if k == 0 then 0 else Pow(2, k - 1)
        invariant Shr(power, k) <= power && ToNat(bigits) == Pow(5, Shr(power, k))
        decreases bitmask
      {
        PowerOfFiveIsShort(bigits, Shr(power, k));
        ShrStep(power, k);
        Square();
        if MaskBit(power, bitmask) {
          Multiply(5);
        }
        PowerOfFiveIsNormal(bigits, Shr(power, k - 1));
        bitmask := bitmask / 2;
        k := k - 1;
      }
      if k > 0 {
        PowPositive(2, k - 1);
      }
      ShrZero(power);
      PowerOfTenSplit(bigits, power);
      ShiftLeft(power);
    }

    // ---- Division

    method Align(other: Bigint)
      requires this != other
      modifies this
      ensures exp == Min(old(exp), other.exp)
      ensures bigits == Zeros(old(exp) - exp) + old(bigits)
      ensures V() == old(V())
    {
      hide Moving, ToNat, Weight, Val;
      if exp - other.exp <= 0 {
        assert Zeros(0) + bigits == bigits;
        return;
      }
      var difference: nat := exp - other.exp;
      var numBigits := |bigits|;
      ghost var s := bigits;
      bigits := bigits + Zeros(difference);
      MoveStart(s, difference);
      var i, j := numBigits - 1, numBigits - 1 + difference;
      while i >= 0
        invariant -1 <= i < numBigits && j == i + difference && exp == old(exp)
        invariant |bigits| == numBigits + difference
        invariant Moving(bigits, s, i + 1, difference)
      {
        MoveStep(bigits, s, i, difference);
        bigits := bigits[j := bigits[i]];
        i, j := i - 1, j - 1;
      }
      MoveDone(bigits, s, difference);
      bigits := Zeros(difference) + bigits[difference..];
      exp := exp - difference;
      ValPad(s, exp, difference);
    }

    /**
      Divides by repeated subtraction, leaving the remainder. The quotient is an int, hence the
      bound. Where compare misjudges an equal divisor, nothing is subtracted.
     */
    method DivmodAssign(divisor: Bigint) returns (quotient: nat)
      requires this != divisor
      requires Canonical(bigits) && Normal(divisor.bigits)
      requires V() < 0x8000_0000 * divisor.V()
      requires bigits == [0] ==> exp <= divisor.exp
      modifies this
      ensures if Meets(old(bigits), old(exp), divisor.bigits, divisor.exp) then
                quotient == 0 && bigits == old(bigits) && exp == old(exp)
              else old(V()) == quotient * divisor.V() + V() && V() < divisor.V()
      ensures quotient <= INT_MAX
      ensures Canonical(bigits)
      ensures exp == if quotient == 0 then old(exp) else Min(old(exp), divisor.exp)
      ensures quotient == 0 ==> bigits == old(bigits)
      ensures bigits == [0] ==> exp <= divisor.exp
    {
      hide Val, CompareResult, BorrowFits;
      ghost var V0, D := V(), divisor.V();
      DivisionStarts(bigits, exp, divisor.bigits, divisor.exp);
      var c := Compare(this, divisor);
      if c < 0 {
        return 0;
      }
      Align(divisor);
      PaddedIsNormal(old(bigits), old(exp) - exp);
      quotient := 0;
      while true
        invariant Canonical(bigits) && exp == Min(old(exp), divisor.exp)
        invariant V0 == quotient * D + V() && V() >= D
        invariant quotient < INT_MAX
        decreases V()
      {
        QuotientFits(bigits, exp, divisor.bigits, divisor.exp);
        SubtractAligned(divisor);
        CompareDecides(bigits, exp, divisor.bigits, divisor.exp);
        QuotientStep(quotient, V(), V0, D);
        quotient := quotient + 1;
        c := Compare(this, divisor);
        if c < 0 {
          break;
        }
      }
    }
  }

  // ---- Comparisons (friends of the class)

  method Compare(lhs: Bigint, rhs: Bigint) returns (r: int)
    requires |lhs.bigits| > 0 && |rhs.bigits| > 0
    ensures r == CompareResult(lhs.bigits, lhs.exp, rhs.bigits, rhs.exp)
  {
    hide ToNat;
    var l, q := lhs.bigits, rhs.bigits;
    if lhs.NumBigits() != rhs.NumBigits() {
      return if lhs.NumBigits() > rhs.NumBigits() then 1 else -1;
    }
    ghost var m := Min(|l|, |q|);
    var i := |l| - 1;
    var j := |q| - 1;
    var end := i - j;
    if end < 0 {
      end := 0;
    }
    ghost var lt, qt := Top(l, m), Top(q, m);
    while i >= end
      invariant end - 1 <= i < |l| && j == i - (|l| - |q|)
      invariant lt[i + 1 - end..] == qt[i + 1 - end..]
      decreases i
    {
      var x, y := l[i], q[j];
      ghost var k := i - end;
      assert lt[k] == x && qt[k] == y;
      CompareStep(lt, qt, k);
      if x != y {
        return if x > y then 1 else -1;
      }
      i, j := i - 1, j - 1;
    }
    assert lt[0..] == lt && qt[0..] == qt;
    if i != j {
      return if i > j then 1 else -1;
    }
    return 0;
  }

  /** The sign of lhs1 + lhs2 - rhs, found from the top with a borrow of at most one unit. */
  method AddCompare(lhs1: Bigint, lhs2: Bigint, rhs: Bigint) returns (r: int)
    requires Normal(rhs.bigits)
    requires Addable(lhs1.bigits, lhs1.exp, rhs.NumBigits())
    requires Addable(lhs2.bigits, lhs2.exp, rhs.NumBigits())
    ensures r == Sign(lhs1.V() + lhs2.V() - rhs.V())
  {
    hide High, Val, GetBigit;
    var a, ae, b, be, c, ce := lhs1.bigits, lhs1.exp, lhs2.bigits, lhs2.exp, rhs.bigits, rhs.exp;
    var maxLhsBigits := Max(lhs1.NumBigits(), lhs2.NumBigits());
    var numRhsBigits := rhs.NumBigits();
    LongSidesDecide(a, ae, b, be, c, ce);
    if maxLhsBigits + 1 < numRhsBigits {
      return -1;
    }
    if maxLhsBigits > numRhsBigits {
      return 1;
    }
    var borrow: nat := 0;
    var minExp := Min(Min(ae, be), ce);
    var i := numRhsBigits - 1;
    HighStart(a, ae, numRhsBigits);
    HighStart(b, be, numRhsBigits);
    HighStart(c, ce, numRhsBigits);
    while i >= minExp
      invariant minExp - 1 <= i < numRhsBigits
      invariant borrow == BASE * (High(c, ce, i + 1) - High(a, ae, i + 1) - High(b, be, i + 1))
      invariant borrow <= BASE
      decreases i
    {
      var sum := GetBigit(a, ae, i) + GetBigit(b, be, i);
      var rhsBigit := GetBigit(c, ce, i);
      assert rhsBigit + borrow < 0x1_0000_0000_0000_0000;
      HighStep(a, ae, i);
      HighStep(b, be, i);
      HighStep(c, ce, i);
      HighSettles(a, ae, b, be, c, ce, i);
      if sum > rhsBigit + borrow {
        return 1;
      }
      borrow := rhsBigit + borrow - sum;
      if borrow > 1 {
        return -1;
      }
      borrow := borrow * BASE;
      i := i - 1;
    }
    HighSettles(a, ae, b, be, c, ce, minExp);
    return if borrow != 0 then -1 else 0;
  }
}
