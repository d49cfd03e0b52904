/** Values, comparisons and subtraction of (bigits, exponent) pairs: the specification side of the big integer. */
module BigintSpec {
  import opened Arith
  import opened Bigits

  // ---- Shapes and values of a (bigits, exponent) pair

  function Val(s: seq<bigit>, e: nat): nat
  {
    ToNat(s) * Weight(e)
  }

  /** The top bigit is nonzero. */
  predicate Normal(s: seq<bigit>)
  {
    |s| > 0 && s[|s| - 1] != 0
  }

  /** Normal, or the single zero bigit a division can leave. */
  predicate Canonical(s: seq<bigit>)
  {
    Normal(s) || s == [0]
  }

  lemma ValZeroIff(s: seq<bigit>, e: nat)
    requires Canonical(s)
    ensures Val(s, e) == 0 <==> s == [0]
  {
    ToNatZeroIff(s);
    if ToNat(s) > 0 {
      MulPositive(ToNat(s), Weight(e));
    }
  }

  /** Where a value lies between powers of the base. */
  lemma ValBounds(s: seq<bigit>, e: nat)
    ensures Val(s, e) < Weight(|s| + e)
    ensures Normal(s) ==> Weight(|s| + e - 1) <= Val(s, e)
  {
    ToNatBound(s);
    WeightAdd(|s|, e);
    MulStrictlyMonotonic(ToNat(s), Weight(|s|), Weight(e));
    if Normal(s) {
      TopNonzeroIff(s);
      WeightAdd(|s| - 1, e);
      MulMonotonic(Weight(|s| - 1), ToNat(s), Weight(e));
    }
  }

  /** Lowering the exponent by appending zeros below keeps the value. */
  lemma ValPad(s: seq<bigit>, e: nat, d: nat)
    ensures Val(Zeros(d) + s, e) == Val(s, e + d)
  {
    ToNatZeros(d);
    ToNatConcat(Zeros(d), s);
    WeightAdd(d, e);
    MulAssoc(Weight(d), ToNat(s), Weight(e));
    MulAssoc(ToNat(s), Weight(d), Weight(e));
  }

  // ---- Comparison

  function Top(s: seq<bigit>, m: nat): seq<bigit>
    requires m <= |s|
  {
    s[|s| - m..]
  }

  /** What compare computes: total length, then the common top bigits, then the stored length. */
  function CompareResult(l: seq<bigit>, le: nat, r: seq<bigit>, re: nat): int
  {
    var m := Min(|l|, |r|);
    if |l| + le != |r| + re then Sign((|l| + le) - (|r| + re))
    else if ToNat(Top(l, m)) != ToNat(Top(r, m)) then Sign(ToNat(Top(l, m)) - ToNat(Top(r, m)))
    else Sign(|l| - |r|)
  }

  /** Two values of the same total length, split at the shorter one's lowest bigit. */
  lemma SplitAtShorter(l: seq<bigit>, le: nat, r: seq<bigit>, re: nat)
    requires |l| + le == |r| + re && |l| >= |r|
    ensures Val(l, le) == ToNat(l[..|l| - |r|]) * Weight(le) + ToNat(Top(l, |r|)) * Weight(re)
    ensures ToNat(l[..|l| - |r|]) * Weight(le) < Weight(re)
  {
    hide ToNat, Weight;
    var d := |l| - |r|;
    ToNatSplit(l, d);
    WeightAdd(d, le);
    var lo, hi := ToNat(l[..d]), ToNat(l[d..]);
    calc {
      Val(l, le);
    ==  { Distribute(Weight(le), lo, Weight(d) * hi); }
      lo * Weight(le) + (Weight(d) * hi) * Weight(le);
    ==  { MulAssoc(hi, Weight(d), Weight(le)); }
      lo * Weight(le) + hi * Weight(re);
    }
    ToNatBound(l[..d]);
    MulStrictlyMonotonic(lo, Weight(d), Weight(le));
  }

  /** A difference in the common top part outweighs everything below it. */
  lemma TopDecides(lo: nat, hi: nat, hi': nat, w: nat)
    requires lo < w
    ensures hi < hi' ==> lo + hi * w < hi' * w
    ensures hi >= hi' ==> lo + hi * w >= hi' * w
  {
    if hi < hi' {
      MulMonotonic(hi + 1, hi', w);
      Distribute(w, hi, 1);
    } else {
      MulMonotonic(hi', hi, w);
    }
  }

  lemma LongerIsGreater(l: seq<bigit>, le: nat, r: seq<bigit>, re: nat)
    requires |l| + le < |r| + re && Normal(r)
    ensures Val(l, le) < Val(r, re)
  {
    ValBounds(l, le);
    ValBounds(r, re);
    WeightMonotonic(|l| + le, |r| + re - 1);
  }

  /** The stored zero never counts as greater than a normal number that is at least as long. */
  lemma CompareZero(le: nat, r: seq<bigit>, re: nat)
    requires Normal(r)
    ensures CompareResult([0], le, r, re) == (if le < |r| + re then -1 else 1)
  {
    if 1 + le == |r| + re {
      var t := Top(r, 1);
      assert Top([0], 1) == [0] && t == [r[|r| - 1]];
      ToNatZeroIff([0]);
      ToNatZeroIff(t);
    }
  }

  /** With the left exponent the smaller, compare never mistakes a smaller value for a greater or equal one. */
  lemma CompareAtLeast(l: seq<bigit>, le: nat, r: seq<bigit>, re: nat)
    requires Canonical(l) && Normal(r)
    requires le <= re
    ensures CompareResult(l, le, r, re) >= 0 <==> Val(l, le) >= Val(r, re)
  {
    if |l| + le < |r| + re {
      LongerIsGreater(l, le, r, re);
    } else if |l| + le > |r| + re {
      LongerIsGreater(r, re, l, le);
    } else {
      SplitAtShorter(l, le, r, re);
      assert Top(r, |r|) == r;
      TopDecides(ToNat(l[..|l| - |r|]) * Weight(le), ToNat(Top(l, |r|)), ToNat(r), Weight(re));
    }
  }

  /**
    Exactly when compare tells the truth about two normal numbers: unless the shorter one equals
    the top of a longer one of the same total length whose remaining bigits are all zero.
   */
  lemma CompareExactIff(l: seq<bigit>, le: nat, r: seq<bigit>, re: nat)
    requires Normal(l) && Normal(r)
    ensures CompareResult(l, le, r, re) == Sign(Val(l, le) - Val(r, re))
       <==> !(|l| + le == |r| + re && |l| != |r|
              && Top(l, Min(|l|, |r|)) == Top(r, Min(|l|, |r|))
              && (forall i | 0 <= i < |l| - |r| :: l[i] == 0)
              && (forall i | 0 <= i < |r| - |l| :: r[i] == 0))
  {
    if |l| + le < |r| + re {
      LongerIsGreater(l, le, r, re);
    } else if |l| + le > |r| + re {
      LongerIsGreater(r, re, l, le);
    } else if |l| >= |r| {
      CompareTies(l, le, r, re);
    } else {
      CompareTies(r, re, l, le);
    }
  }

  /** Equal numbers, the first stored with the larger exponent; compare calls it the smaller one. */
  predicate Meets(l: seq<bigit>, le: nat, r: seq<bigit>, re: nat)
  {
    le > re && Val(l, le) == Val(r, re)
  }

  /** Two equal numbers stored alike or not: compare goes by the number of bigits, that is by the exponents. */
  lemma CompareEqual(l: seq<bigit>, le: nat, r: seq<bigit>, re: nat)
    requires Normal(l) && Normal(r) && Val(l, le) == Val(r, re)
    ensures CompareResult(l, le, r, re) == Sign(re - le)
  {
    if |l| + le < |r| + re {
      LongerIsGreater(l, le, r, re);
    } else if |l| + le > |r| + re {
      LongerIsGreater(r, re, l, le);
    } else if |l| >= |r| {
      CompareTies(l, le, r, re);
    } else {
      CompareTies(r, re, l, le);
    }
  }

  /** Different numbers are never misjudged. */
  lemma CompareDifferent(l: seq<bigit>, le: nat, r: seq<bigit>, re: nat)
    requires Normal(l) && Normal(r) && Val(l, le) != Val(r, re)
    ensures CompareResult(l, le, r, re) == Sign(Val(l, le) - Val(r, re))
  {
    if |l| + le < |r| + re {
      LongerIsGreater(l, le, r, re);
    } else if |l| + le > |r| + re {
      LongerIsGreater(r, re, l, le);
    } else if |l| >= |r| {
      CompareTies(l, le, r, re);
    } else {
      CompareTies(r, re, l, le);
    }
  }

  lemma CompareTies(l: seq<bigit>, le: nat, r: seq<bigit>, re: nat)
    requires |l| + le == |r| + re && |l| >= |r|
    ensures var diff, m := Val(l, le) - Val(r, re), |r|;
      && (ToNat(Top(l, m)) != ToNat(Top(r, m)) ==> Sign(diff) == Sign(ToNat(Top(l, m)) - ToNat(Top(r, m))))
      && (Top(l, m) == Top(r, m) <==> ToNat(Top(l, m)) == ToNat(Top(r, m)))
      && (Top(l, m) == Top(r, m) ==> diff >= 0 && (diff == 0 <==> forall i | 0 <= i < |l| - m :: l[i] == 0))
      && (|l| == m ==> forall i | 0 <= i < |l| - m :: l[i] == 0)
  {
    var d := |l| - |r|;
    SplitAtShorter(l, le, r, re);
    assert Top(r, |r|) == r;
    var lo := ToNat(l[..d]);
    TopDecides(lo * Weight(le), ToNat(Top(l, |r|)), ToNat(r), Weight(re));
    if ToNat(Top(l, |r|)) > ToNat(r) {
      MulStrictlyMonotonic(ToNat(r), ToNat(Top(l, |r|)), Weight(re));
    }
    if ToNat(Top(l, |r|)) == ToNat(r) {
      ToNatInjective(Top(l, |r|), r);
      ToNatZeroIff(l[..d]);
      assert forall i | 0 <= i < d :: l[..d][i] == l[i];
      if lo > 0 {
        MulPositive(lo, Weight(le));
      }
    }
  }

  // ---- Sum comparison, read off the numbers shifted right by i bigits

  /** The bigit of absolute weight i. */
  function GetBigit(s: seq<bigit>, e: nat, i: nat): bigit
  {
    if e <= i < |s| + e then s[i - e] else 0
  }

  function High(s: seq<bigit>, e: nat, i: nat): nat
    decreases |s| + e - i
  {
    if i >= |s| + e then 0 else GetBigit(s, e, i) + BASE * High(s, e, i + 1)
  }

  lemma {:induction false} HighSplit(s: seq<bigit>, e: nat, i: nat)
    ensures High(s, e, i) * Weight(i) <= Val(s, e)
    ensures Val(s, e) < (High(s, e, i) + 1) * Weight(i)
    ensures i <= e ==> Val(s, e) == High(s, e, i) * Weight(i)
  {
    HighParts(s, e, i);
    var k := if i <= e then 0 else if i <= |s| + e then i - e else |s|;
    if i <= e {
      assert s[..0] == [];
    } else if i <= |s| + e {
      ToNatBound(s[..k]);
      WeightAdd(k, e);
      MulStrictlyMonotonic(ToNat(s[..k]), Weight(k), Weight(e));
    } else {
      assert s[..k] == s;
      ValBounds(s, e);
      WeightMonotonic(|s| + e, i);
    }
    Distribute(Weight(i), High(s, e, i), 1);
  }

  /** The value is the part at or above position i plus the bigits below it. */
  lemma {:induction false} HighParts(s: seq<bigit>, e: nat, i: nat)
    ensures var k := if i <= e then 0 else if i <= |s| + e then i - e else |s|;
      Val(s, e) == High(s, e, i) * Weight(i) + ToNat(s[..k]) * Weight(e)
    decreases |s| + e - i
  {
    var k := if i <= e then 0 else if i <= |s| + e then i - e else |s|;
    if i >= |s| + e {
      assert s[..k] == s;
    } else {
      HighParts(s, e, i + 1);
      var g, h := GetBigit(s, e, i), High(s, e, i + 1);
      calc {
        High(s, e, i) * Weight(i);
      ==  { Distribute(Weight(i), g, BASE * h); }
        g * Weight(i) + (BASE * h) * Weight(i);
      ==  { MulAssoc(h, BASE, Weight(i)); WeightSucc(i); }
        g * Weight(i) + h * Weight(i + 1);
      }
      if e <= i {
        assert s[..k + 1] == s[..k] + [s[k]];
        ToNatSnoc(s[..k], s[k]);
        WeightAdd(k, e);
        MulAssoc(s[k], Weight(k), Weight(e));
        Distribute(Weight(e), ToNat(s[..k]), s[k] * Weight(k));
      }
    }
  }

  /** One position settles the comparison as soon as the sum leads, or trails by two or more. */
  lemma HighSettles(a: seq<bigit>, ae: nat, b: seq<bigit>, be: nat, c: seq<bigit>, ce: nat, i: nat)
    ensures High(a, ae, i) + High(b, be, i) > High(c, ce, i) ==> Val(a, ae) + Val(b, be) > Val(c, ce)
    ensures High(a, ae, i) + High(b, be, i) + 2 <= High(c, ce, i) ==> Val(a, ae) + Val(b, be) < Val(c, ce)
    ensures i <= ae && i <= be && i <= ce ==>
      Sign(Val(a, ae) + Val(b, be) - Val(c, ce)) == Sign(High(a, ae, i) + High(b, be, i) - High(c, ce, i))
  {
    hide High, Val, Weight;
    var ha, hb, hc, w := High(a, ae, i), High(b, be, i), High(c, ce, i), Weight(i);
    HighSplit(a, ae, i);
    HighSplit(b, be, i);
    HighSplit(c, ce, i);
    Distribute(w, ha, hb);
    if ha + hb > hc {
      MulMonotonic(hc + 1, ha + hb, w);
    }
    if ha + hb + 2 <= hc {
      Distribute(w, ha + 1, hb + 1);
      MulMonotonic((ha + 1) + (hb + 1), hc, w);
    }
    if ha + hb < hc {
      MulStrictlyMonotonic(ha + hb, hc, w);
    }
  }

  /** A number the top-down scan can start from: normal, or a zero shorter than rhs. */
  predicate Addable(s: seq<bigit>, e: nat, rhsBigits: nat)
  {
    Normal(s) || (s == [0] && e < rhsBigits)
  }

  // ---- Subtraction

  /** One limb of a borrow chain: the wrapped difference and the borrow it leaves. */
  lemma SubtractLimb(x: nat, other: nat, borrow: nat)
    requires x < BASE && other < BASE && borrow <= 1
    ensures var result := (x - other - borrow) % 0x1_0000_0000_0000_0000;
      && result / 0x8000_0000_0000_0000 == (if x < other + borrow then 1 else 0)
      && result % BASE == x - other - borrow + (if x < other + borrow then BASE else 0)
  {}

  /** The part of the dividend aligned with the divisor is not the smaller, or the next bigit can lend. */
  predicate BorrowFits(s: seq<bigit>, d: nat, other: seq<bigit>)
  {
    d + |other| <= |s| &&
    (ToNat(s[d..d + |other|]) >= ToNat(other) || (d + |other| < |s| && s[d + |other|] != 0))
  }

  /** 2^64 - 1: the bigit above the aligned one is zero, and the borrow never moves on to the one that can lend. */
  lemma BorrowStops()
    ensures var s, other := [0, 0, 1], [1];
      Normal(s) && Normal(other) && Val(s, 0) >= Val(other, 0) && !BorrowFits(s, 0, other)
  {
    ToNatSnoc([], 1);
    assert [] + [1] == [1];
    ValBounds([0, 0, 1], 0);
    assert Weight(0) == 1 && Weight(1) == BASE;
    WeightMonotonic(1, 2);
    assert ([0, 0, 1])[0..1] == [0];
    ToNatZeroIff([0]);
  }

  /** Replacing one bigit changes the number by the weighted difference. */
  lemma ToNatUpdate(s: seq<bigit>, i: nat, x: bigit)
    requires i < |s|
    ensures ToNat(s[i := x]) == ToNat(s) + (x - s[i]) * Weight(i)
  {
    hide Weight;
    var t, w := s[i := x], Weight(i);
    assert t[i + 1..] == s[i + 1..];
    assert s[..i + 1] == s[..i] + [s[i]] && t[..i + 1] == s[..i] + [x];
    ToNatSplit(s, i + 1);
    ToNatSplit(t, i + 1);
    ToNatSnoc(s[..i], s[i]);
    ToNatSnoc(s[..i], x);
    DistributeMinus(w, x, s[i]);
  }

  /** The shift loop's limb: the new bigit, with the carry in the cleared low bits, and the new carry. */
  function ShiftStep(d: bigit, shift: nat, carry: nat): (bigit, nat)
    requires shift < 32
  {
    PowPositive(2, 32 - shift);
    ShiftBy(d, Pow(2, shift), Pow(2, 32 - shift), carry)
  }

  function ShiftBy(d: bigit, S: nat, T: nat, carry: nat): (bigit, nat)
    requires T > 0
  {
    (((d * S) % BASE + carry) % BASE, d / T)
  }

  lemma ShiftLimb(d: bigit, shift: nat, carry: nat)
    requires 0 < shift < 32 && carry < Pow(2, shift)
    ensures var (limb, c) := ShiftStep(d, shift, carry);
      c < Pow(2, shift) && d * Pow(2, shift) + carry == limb + c * BASE
  {
    PowPositive(2, shift);
    PowPositive(2, 32 - shift);
    Pow2Of32();
    PowAdd(2, 32 - shift, shift);
    hide Pow, ShiftBy;
    ShiftLimbParts(d, Pow(2, shift), Pow(2, 32 - shift), carry);
  }

  lemma ShiftLimbParts(d: bigit, S: nat, T: nat, carry: nat)
    requires T * S == BASE && S > 0 && T > 0 && carry < S
    ensures var (limb, c) := ShiftBy(d, S, T, carry);
      c < S && d * S + carry == limb + c * BASE
  {
    var c, r := d / T, d % T;
    DivMod(d, T);
    DivBound(d, T, S);
    assert d * S == c * BASE + r * S by {
      Distribute(S, c * T, r);
      MulAssoc(c, T, S);
    }
    MulMonotonic(r, T - 1, S);
    DistributeMinus(S, T, 1);
    DivModUnique(d * S, BASE, c, r * S);
  }
}
