/** What one step of each big-integer loop keeps. */
module BigintSteps {
  import opened Arith
  import opened Bigits
  import opened BigintSpec
  import opened Convolution

  const U128: nat := 0x1_0000_0000_0000_0000_0000_0000_0000_0000

  // ---- Multiplication

  /** A carry loop after i limbs: t holds the finished low part of s * factor, the rest of s is untouched. */
  ghost predicate Carried(t: seq<bigit>, s: seq<bigit>, i: nat, carry: nat, factor: nat)
  {
    && i <= |t| == |s|
    && t[i..] == s[i..]
    && ToNat(t[..i]) + carry * Weight(i) == ToNat(s[..i]) * factor
  }

  lemma CarryStart(s: seq<bigit>, factor: nat)
    ensures Carried(s, s, 0, 0, factor)
  {
    assert s[..0] == [];
  }

  /** Writing the low half of a product at i extends the finished prefix. */
  lemma LimbDone(t: seq<bigit>, s: seq<bigit>, i: nat, lo: bigit, hi: nat, carry: nat, factor: nat)
    requires Carried(t, s, i, carry, factor) && i < |s|
    requires t[i] * factor + carry == lo + hi * BASE
    ensures Carried(t[i := lo], s, i + 1, hi, factor)
  {
    assert t[i] == t[i..][0] == s[i];
    assert t[i := lo][i + 1..] == t[i..][1..] == s[i..][1..];
    assert t[i := lo][..i + 1] == t[..i] + [lo];
    assert s[..i + 1] == s[..i] + [s[i]];
    ToNatSnoc(t[..i], lo);
    ToNatSnoc(s[..i], s[i]);
    WeightSucc(i);
    CarryStep(ToNat(t[..i]), ToNat(s[..i]), Weight(i), factor, s[i], carry, lo, hi);
  }

  /** A finished carry loop: only the last carry is missing from the product. */
  lemma CarryEnd(t: seq<bigit>, s: seq<bigit>, carry: nat, factor: nat)
    requires Carried(t, s, |s|, carry, factor)
    ensures Pushing(t, carry, ToNat(s) * factor)
    ensures carry == 0 ==> ToNat(t) == ToNat(s) * factor
    ensures 0 < carry < BASE ==> ToNat(t + [carry]) == ToNat(s) * factor
  {
    assert t[..|s|] == t && s[..|s|] == s;
    if carry < BASE {
      ToNatSnoc(t, carry);
    }
  }

  lemma ProductValue(t: seq<bigit>, s: seq<bigit>, factor: nat, e: nat)
    requires ToNat(t) == ToNat(s) * factor
    ensures Val(t, e) == Val(s, e) * factor
  {
    MulAssoc(ToNat(s), factor, Weight(e));
    MulAssoc(ToNat(s), Weight(e), factor);
  }

  /** What is left of the carry still belongs above the bigits written so far. */
  ghost predicate Pushing(t: seq<bigit>, carry: nat, total: nat)
  {
    ToNat(t) + carry * Weight(|t|) == total
  }

  lemma PushStep(t: seq<bigit>, carry: nat, total: nat)
    requires Pushing(t, carry, total)
    ensures Pushing(t + [carry % BASE], carry / BASE, total)
    ensures carry > 0 ==> carry / BASE < carry
  {
    ToNatSnoc(t, carry % BASE);
    PushCarry(carry, Weight(|t|));
    WeightSucc(|t|);
  }

  lemma PushEnd(t: seq<bigit>, total: nat)
    requires Pushing(t, 0, total)
    ensures ToNat(t) == total
  {}

  /** A product of two 32-bit values plus a 32-bit carry fits 64 bits. */
  lemma LimbFits(digit: bigit, value: nat, carry: nat)
    requires value < BASE && carry < BASE
    ensures digit * value + carry < 0x1_0000_0000_0000_0000
    ensures (digit * value + carry) / BASE < BASE
  {
    MulMonotonic(digit, BASE - 1, value);
  }

  /** A product by a positive factor keeps the shape: it is at least as large as the number itself. */
  lemma ProductIsCanonical(s: seq<bigit>, factor: nat, t: seq<bigit>)
    requires Canonical(s) && factor > 0
    requires ToNat(t) == ToNat(s) * factor
    requires |t| == |s| || Normal(t)
    ensures Canonical(t)
  {
    if |t| == |s| && Normal(s) {
      MulMonotonic(1, factor, ToNat(s));
      TopNonzeroIff(s);
      TopNonzeroIff(t);
    } else if |t| == |s| {
      ToNatZeroIff(s);
      ToNatZeroIff(t);
    }
  }

  lemma ProductIsNormal(s: seq<bigit>, factor: nat, t: seq<bigit>)
    requires Canonical(s) && Canonical(t) && factor > 0
    requires ToNat(t) == ToNat(s) * factor
    ensures Normal(s) <==> Normal(t)
  {
    ToNatZeroIff(s);
    ToNatZeroIff(t);
    if Normal(s) {
      MulPositive(ToNat(s), factor);
    }
  }

  function WordSize(bits: nat): (w: nat)
    ensures w > 0
  {
    PowPositive(2, bits);
    Pow(2, bits)
  }

  /** The upper and lower half of a word of 2 * half bits. */
  function Halves(value: nat, half: nat): (nat, nat)
  {
    (value / WordSize(half), value % WordSize(half))
  }

  /** Unsigned arithmetic in a word holding values below word. */
  function Wrap(x: nat, word: nat): (r: nat)
    requires word > 0
    ensures r < word
  {
    x % word
  }

  /** The body of the wide multiplication's loop, every operation in a word: the result and the new carry. */
  function WideStep(digit: bigit, lower: nat, upper: nat, word: nat, scale: nat, carry: nat): (r: (nat, nat))
    requires word > 0
    ensures r.1 < word
  {
    var result := Wrap(Wrap(Product(lower, digit), word) + carry % BASE, word);
    var high := Wrap(Product(Wrap(Product(upper, digit), word), scale), word);
    (result, Wrap(Wrap(high + result / BASE, word) + carry / BASE, word))
  }

  function Product(x: nat, y: nat): (r: nat)
  {
    MulMonotonic(0, x, y);
    x * y
  }

  /**
    One limb of the wide multiplication. No intermediate wraps its word, and the new carry reaches
    at most the largest word.
   */
  lemma WideLimb(digit: bigit, value: nat, half: nat, carry: nat)
    requires half == 32 || half == 64
    requires value < Pow(2, 2 * half) && carry < Pow(2, 2 * half)
    ensures var (upper, lower) := Halves(value, half);
      var (result, newCarry) := WideStep(digit, lower, upper, WordSize(2 * half), WordSize(half - 32), carry);
      digit * value + carry == result % BASE + newCarry * BASE
  {
    var H := WordSize(half);
    var (upper, lower) := Halves(value, half);
    PowAdd(2, half, half);
    PowAdd(2, half - 32, 32);
    Pow2Of32();
    DivMod(value, H);
    DivBound(value, H, H);
    WideLimbWords(digit, lower, upper, H, WordSize(half - 32), WordSize(2 * half), carry);
  }

  /** word is the square of its half H, and H holds S bigits. */
  predicate IsWord(H: nat, S: nat, word: nat)
  {
    H == S * BASE && word == H * H && S > 0
  }

  lemma WideLimbWords(digit: bigit, lower: nat, upper: nat, H: nat, S: nat, word: nat, carry: nat)
    requires IsWord(H, S, word)
    requires lower < H && upper < H && carry < word
    ensures word > 0
    ensures var (result, newCarry) := WideStep(digit, lower, upper, word, S, carry);
      digit * (lower + upper * H) + carry == result % BASE + newCarry * BASE
  {
    hide Product, IsWord, WideStep;
    var low, up := Product(lower, digit), Product(upper, digit);
    WordBounds(lower, upper, digit, H, S, word, carry);
    WideStepUnwrapped(digit, lower, upper, word, S, carry);
    SplitProduct(digit, lower, upper, H, S, word);
    Recombine(low, Product(up, S), carry);
  }

  /** While nothing overflows, the step is plain arithmetic. */
  lemma WideStepUnwrapped(digit: bigit, lower: nat, upper: nat, word: nat, scale: nat, carry: nat)
    requires var low, up := Product(lower, digit), Product(upper, digit);
      && up < word && low + carry % BASE < word
      && Product(up, scale) + (low + carry % BASE) / BASE + carry / BASE < word
    ensures word > 0
    ensures var low, shifted := Product(lower, digit), Product(Product(upper, digit), scale);
      var result := low + carry % BASE;
      WideStep(digit, lower, upper, word, scale, carry) == (result, shifted + result / BASE + carry / BASE)
  {
    hide Wrap, Product;
    var low, up := Product(lower, digit), Product(upper, digit);
    NoWrap(low, word);
    NoWrap(up, word);
    var result := low + carry % BASE;
    NoWrap(result, word);
    var shifted := Product(up, scale);
    NoWrap(shifted, word);
    NoWrap(shifted + result / BASE, word);
    NoWrap(shifted + result / BASE + carry / BASE, word);
  }

  lemma Recombine(low: nat, shifted: nat, carry: nat)
    ensures var result := low + carry % BASE;
      low + shifted * BASE + carry == result % BASE + (shifted + result / BASE + carry / BASE) * BASE
  {}

  /** Every intermediate of the wide multiplication stays below its word. */
  lemma WordBounds(lower: nat, upper: nat, digit: bigit, H: nat, S: nat, word: nat, carry: nat)
    requires IsWord(H, S, word)
    requires lower < H && upper < H && carry < word
    ensures word > 0
    ensures var low, up := Product(lower, digit), Product(upper, digit);
      && up < word
      && low + carry % BASE < word
      && Product(up, S) + (low + carry % BASE) / BASE + carry / BASE < word
  {
    hide Product;
    MulPositive(H, H);
    MulMonotonic(BASE, H, H);
    HalfTimesBigit(lower, digit, H);
    HalfTimesBigit(upper, digit, H);
    CarryBound(H, S, Product(upper, digit), Product(lower, digit) + carry % BASE, carry, word);
  }

  lemma SplitProduct(digit: nat, lower: nat, upper: nat, H: nat, S: nat, word: nat)
    requires IsWord(H, S, word)
    ensures digit * (lower + upper * H) == Product(lower, digit) + Product(Product(upper, digit), S) * BASE
  {
    Distribute(digit, lower, upper * H);
    MulAssoc(upper, digit, H);
    MulAssoc(upper, H, digit);
    MulAssoc(upper * digit, S, BASE);
  }

  lemma NoWrap(x: nat, word: nat)
    requires x < word
    ensures Wrap(x, word) == x
  {
    DivModUnique(x, word, 0, x);
  }

  lemma HalfTimesBigit(x: nat, digit: bigit, H: nat)
    requires x < H
    ensures Product(x, digit) <= H * (BASE - 1) - BASE + 1
  {
    MulMonotonic(x, H - 1, digit);
    MulMonotonic(digit, BASE - 1, H - 1);
  }

  /** The carry word of the wide multiplication never wraps. */
  lemma CarryBound(H: nat, S: nat, up: nat, result: nat, carry: nat, WORD: nat)
    requires H == S * BASE && WORD == H * H && S > 0
    requires up <= H * (BASE - 1) - BASE + 1
    requires result <= H * (BASE - 1) && carry < WORD
    ensures Product(up, S) + result / BASE + carry / BASE < WORD
  {
    var Q := H * S;  // WORD / BASE
    assert WORD == Q * BASE by { MulAssoc(H, S, BASE); }
    DivBound(carry, BASE, Q);
    assert result / BASE <= S * (BASE - 1) by {
      MulAssoc(S, BASE, BASE - 1);
      assert H * (BASE - 1) == (S * (BASE - 1)) * BASE;
    }
    calc {
      up * S;
    <=  { MulMonotonic(up, H * (BASE - 1) - BASE + 1, S); }
      (H * (BASE - 1) - BASE + 1) * S;
    ==  { DistributeMinus(S, H * (BASE - 1), BASE - 1); }
      (H * (BASE - 1)) * S - (BASE - 1) * S;
    ==  { MulAssoc(H, S, BASE - 1); MulAssoc(H, BASE - 1, S); }
      Q * (BASE - 1) - (BASE - 1) * S;
    }
    Distribute(Q, BASE - 1, 1);
  }

  /** Moving the low bigit of the carry to the end of the number. */
  lemma PushCarry(carry: nat, w: nat)
    ensures (carry % BASE) * w + (carry / BASE) * (BASE * w) == carry * w
    ensures 0 < carry ==> carry / BASE < carry
  {
    MulAssoc(carry / BASE, BASE, w);
    Distribute(w, carry % BASE, (carry / BASE) * BASE);
  }

  // ---- Shifting

  /** A shift is a shift of the exponent by whole bigits and a multiplication by the rest. */
  lemma ShiftValue(t: seq<bigit>, s: seq<bigit>, e: nat, shift: nat)
    requires ToNat(t) == ToNat(s) * Pow(2, shift % 32)
    ensures Val(t, e + shift / 32) == Val(s, e) * Pow(2, shift)
  {
    var q, r := shift / 32, shift % 32;
    WeightIsPow2(q);
    PowAdd(2, 32 * q, r);
    WeightAdd(e, q);
    ShiftedProduct(ToNat(s), Pow(2, r), Weight(e), Weight(q));
  }

  lemma ShiftedProduct(s: nat, f: nat, we: nat, wq: nat)
    ensures (s * f) * (we * wq) == (s * we) * (wq * f)
  {
    MulSwap(s, f, we, wq);
  }

  lemma WholeShift(s: seq<bigit>, e: nat, shift: nat)
    requires shift % 32 == 0
    ensures Val(s, e + shift / 32) == Val(s, e) * Pow(2, shift)
  {
    assert Pow(2, 0) == 1;
    ShiftValue(s, s, e, shift);
  }

  lemma FactorBelowBase(bits: nat)
    requires bits < 32
    ensures 0 < Pow(2, bits) < BASE
  {
    Pow2Of32();
    PowPositive(2, bits);
    PowMonotonic(2, bits + 1, 32);
  }

  // ---- Squaring

  /** The accumulator holds n full columns' worth of products without wrapping. */
  lemma AccumulatorFits(rows: nat, n: nat, carry: nat, column: nat)
    requires rows <= n && 2 * n <= INT_MAX
    requires carry <= n * BASE
    requires column <= rows * ((BASE - 1) * (BASE - 1))
    ensures carry + column < U128
    ensures (carry + column) / BASE <= n * BASE
  {
    var square := (BASE - 1) * (BASE - 1);
    MulMonotonic(rows, n, square);
    assert square == BASE * BASE - 2 * BASE + 1;
    assert carry + column <= n * (BASE * BASE);
  }

  /** The squaring loops before column k: the columns so far are in t and the pending carry. */
  ghost predicate Squaring(t: seq<bigit>, n: seq<bigit>, k: nat, carry: nat)
  {
    && k <= |t| == 2 * |n|
    && carry <= |n| * BASE
    && ToNat(t[..k]) + carry * Weight(k) == Columns(n, n, k)
  }

  lemma SquareStart(t: seq<bigit>, n: seq<bigit>)
    requires |t| == 2 * |n|
    ensures Squaring(t, n, 0, 0)
  {
    assert t[..0] == [];
  }

  /** The accumulator inside a column, after the rows below i. */
  ghost predicate Summing(n: seq<bigit>, k: nat, i: nat, carry: nat, sum: nat)
  {
    && i <= |n| && carry <= |n| * BASE
    && sum == carry + Column(n[..i], n, k)
  }

  lemma SumStart(t: seq<bigit>, n: seq<bigit>, k: nat, i: nat, carry: nat)
    requires Squaring(t, n, k, carry)
    requires i <= |n| && (i == 0 || i + |n| <= k + 1)
    ensures Summing(n, k, i, carry, carry)
  {
    if i == 0 {
      assert n[..0] == [];
    } else {
      ColumnSkipsPrefix(n, n, k, i);
    }
  }

  /** Adding one product keeps the sum inside the 128-bit accumulator. */
  lemma SumStep(n: seq<bigit>, k: nat, i: nat, carry: nat, sum: nat)
    requires Summing(n, k, i, carry, sum) && i < |n| && i <= k < i + |n| && 2 * |n| <= INT_MAX
    ensures sum + Product(n[i], n[k - i]) < U128
    ensures Summing(n, k, i + 1, carry, sum + Product(n[i], n[k - i]))
  {
    ColumnStep(n, n, k, i);
    ColumnBound(n[..i + 1], n, k);
    AccumulatorFits(i + 1, |n|, carry, Column(n[..i + 1], n, k));
  }

  /** Storing a finished column. */
  lemma ColumnDone(t: seq<bigit>, n: seq<bigit>, k: nat, i: nat, carry: nat, sum: nat)
    requires Squaring(t, n, k, carry) && k < |t| && 2 * |n| <= INT_MAX
    requires Summing(n, k, i, carry, sum) && (i == |n| || i == k + 1)
    ensures Squaring(t[k := sum % BASE], n, k + 1, sum / BASE)
  {
    assert n[..|n|] == n;
    if i == k + 1 {
      ColumnFromPrefix(n, n, k, |n|);
    }
    ColumnBound(n, n, k);
    AccumulatorFits(|n|, |n|, carry, Column(n, n, k));
    assert t[k := sum % BASE][..k + 1] == t[..k] + [sum % BASE];
    ToNatSnoc(t[..k], sum % BASE);
    PushCarry(sum, Weight(k));
    WeightSucc(k);
    Distribute(Weight(k), carry, Column(n, n, k));
  }

  /** All columns stored: the number is the square and nothing is left to carry out. */
  lemma SquareDone(t: seq<bigit>, n: seq<bigit>, carry: nat)
    requires Squaring(t, n, 2 * |n|, carry)
    ensures ToNat(t) == ToNat(n) * ToNat(n)
  {
    assert t[..2 * |n|] == t;
    ColumnsAreProduct(n, n);
    SquareFits(n, carry, ToNat(t));
  }

  lemma SquareValue(t: seq<bigit>, n: seq<bigit>, e: nat)
    requires ToNat(t) == ToNat(n) * ToNat(n)
    ensures Val(t, 2 * e) == Val(n, e) * Val(n, e)
  {
    WeightAdd(e, e);
    MulSwap(ToNat(n), ToNat(n), Weight(e), Weight(e));
  }

  /** Twice as many bigits hold the square, so nothing is left to carry out. */
  lemma SquareFits(n: seq<bigit>, sum: nat, low: nat)
    requires low + sum * Weight(2 * |n|) == ToNat(n) * ToNat(n)
    ensures sum == 0
  {
    ToNatBound(n);
    WeightAdd(|n|, |n|);
    MulMonotonic(ToNat(n), Weight(|n|), ToNat(n));
    MulStrictlyMonotonic(ToNat(n), Weight(|n|), Weight(|n|));
    if sum > 0 {
      MulMonotonic(1, sum, Weight(2 * |n|));
    }
  }

  // ---- Powers of five

  /** A power of five takes few enough bigits for the square's int index arithmetic. */
  lemma PowerOfFiveIsShort(s: seq<bigit>, k: nat)
    requires Normal(s) && ToNat(s) == Pow(5, k) && k < 0x4000_0000
    ensures 2 * |s| <= INT_MAX
  {
    var n := |s| - 1;
    TopNonzeroIff(s);
    PowBaseMonotonic(5, 8, k);
    assert Pow(2, 3) == 8;
    PowOfPow(2, 3, k);
    WeightIsPow2(n);
    assert Pow(2, 32 * n) <= Pow(2, 3 * k);
    PowPositive(2, 3 * k);
    if 3 * k < 32 * n {
      PowMonotonic(2, 3 * k + 1, 32 * n);
    }
  }

  lemma PowerOfFiveIsNormal(s: seq<bigit>, k: nat)
    requires Canonical(s) && ToNat(s) == Pow(5, k)
    ensures Normal(s)
  {
    PowPositive(5, k);
    ToNatZeroIff(s);
  }

  function Shr(n: nat, k: nat): nat
  {
    PowPositive(2, k);
    n / Pow(2, k)
  }

  /** Whether n has the bit of a one-bit mask set. */
  predicate MaskBit(n: nat, mask: nat)
    requires mask > 0
  {
    (n / mask) % 2 == 1
  }

  lemma ShrTop(n: nat, k: nat)
    requires Pow(2, k) <= n < Pow(2, k + 1)
    ensures Shr(n, k) == 1
  {
    DivModUnique(n, Pow(2, k), 1, n - Pow(2, k));
  }

  lemma ShrZero(n: nat)
    ensures Shr(n, 0) == n
  {
    assert Pow(2, 0) == 1;
  }

  /** The next lower bit of the mask appends one bit to the part already covered. */
  lemma ShrStep(n: nat, k: nat)
    requires k > 0
    ensures Pow(2, k - 1) > 0
    ensures var h, h' := Shr(n, k), Shr(n, k - 1);
      && h' == h + h + (if MaskBit(n, Pow(2, k - 1)) then 1 else 0)
      && h' <= n
      && Pow(5, h') == Pow(5, h) * Pow(5, h) * (if MaskBit(n, Pow(2, k - 1)) then 5 else 1)
  {
    PowPositive(2, k - 1);
    HalveShift(n, Pow(2, k - 1));
    DivMod(n, Pow(2, k - 1));
    var h := Shr(n, k);
    PowAdd(5, h, h);
    assert Pow(5, h + h + 1) == 5 * Pow(5, h + h);
  }

  lemma HalveShift(n: nat, p: nat)
    requires p > 0
    ensures n / p == 2 * (n / (2 * p)) + (n / p) % 2
  {
    var q, r := n / p, n % p;
    DivMod(n, p);
    assert n == (q / 2) * (2 * p) + ((q % 2) * p + r) by {
      Distribute(p, 2 * (q / 2), q % 2);
      MulAssoc(q / 2, 2, p);
    }
    MulMonotonic(q % 2, 1, p);
    DivModUnique(n, 2 * p, q / 2, (q % 2) * p + r);
  }

  /** A power of five shifted left by its exponent is the power of ten. */
  lemma PowerOfTenSplit(s: seq<bigit>, n: nat)
    requires ToNat(s) == Pow(5, n)
    ensures Val(s, 0) * Pow(2, n) == Pow(10, n)
  {
    assert Weight(0) == 1;
    PowOfProduct(5, 2, n);
  }

  // ---- Subtraction

  /** The dividend covers the divisor's bigits, and a borrow out of them has somewhere to go. */
  lemma AlignedFits(s: seq<bigit>, e: nat, other: seq<bigit>, oe: nat)
    requires Canonical(s) && Normal(other) && oe >= e && Val(s, e) >= Val(other, oe)
    ensures var d := oe - e;
      d + |other| <= |s| &&
      (ToNat(s[d..d + |other|]) < ToNat(other) ==> d + |other| < |s|)
  {
    hide ToNat, Weight;
    var d := oe - e;
    if d + |other| > |s| {
      LongerIsGreater(s, e, other, oe);
    } else if d + |other| == |s| {
      SplitAtShorter(s, e, other, oe);
      TopDecides(ToNat(s[..d]) * Weight(e), ToNat(Top(s, |other|)), ToNat(other), Weight(oe));
      assert s[d..d + |other|] == Top(s, |other|);
    }
  }

  /** The digit a borrow step writes. */
  function Difference(x: bigit, y: bigit, borrow: nat): (r: (bigit, nat))
    requires borrow <= 1
    ensures r.0 + y + borrow == x + r.1 * BASE && r.1 <= 1
  {
    if x < y + borrow then (x - y - borrow + BASE, 1) else (x - y - borrow, 0)
  }

  /** The subtraction loop after j limbs, with other's first j bigits taken from position d on. */
  ghost predicate Subtracting(t: seq<bigit>, s: seq<bigit>, d: nat, j: nat, other: seq<bigit>, borrow: nat)
  {
    && |t| == |s| && j <= |other| && d + |other| <= |s| && borrow <= 1
    && t[d + j..] == s[d + j..]
    && ToNat(t) == ToNat(s) - ToNat(other[..j]) * Weight(d) + borrow * Weight(d + j)
    && borrow == if ToNat(s[d..d + j]) < ToNat(other[..j]) then 1 else 0
  }

  lemma SubtractStart(s: seq<bigit>, d: nat, other: seq<bigit>)
    requires d + |other| <= |s|
    ensures Subtracting(s, s, d, 0, other, 0)
  {
    assert s[d..d] == [] && other[..0] == [];
  }

  /** One limb of the subtraction: the prefix totals and the pending borrow stay in step. */
  lemma SubtractStep(t: seq<bigit>, s: seq<bigit>, d: nat, j: nat, other: seq<bigit>, borrow: nat)
    requires Subtracting(t, s, d, j, other, borrow) && j < |other|
    ensures var (x, nb) := Difference(t[d + j], other[j], borrow);
      Subtracting(t[d + j := x], s, d, j + 1, other, nb)
  {
    var i := d + j;
    assert t[i] == t[i..][0] == s[i];
    hide Weight;
    var (x, nb) := Difference(t[i], other[j], borrow);
    assert t[i := x][i + 1..] == t[i..][1..] == s[i..][1..];
    ToNatUpdate(t, i, x);
    assert other[..j + 1] == other[..j] + [other[j]];
    ToNatSnoc(other[..j], other[j]);
    assert s[d..i + 1] == s[d..i] + [s[i]];
    ToNatSnoc(s[d..i], s[i]);
    WeightAdd(d, j);
    WeightSucc(i);
    BorrowArithmetic(t[i], x, nb, other[j], borrow, Weight(d), Weight(j), ToNat(other[..j]));
    BorrowIsComparison(ToNat(s[d..i]), s[i], ToNat(other[..j]), other[j], Weight(j), borrow, s[d..i], other[..j]);
  }

  /** The bigit above the divisor's top once the limbs are done: it still has to lend. */
  ghost predicate Lending(t: seq<bigit>, s: seq<bigit>, d: nat, other: seq<bigit>, borrow: nat)
  {
    var i, w := d + |other|, Weight(d + |other|);
    var base := ToNat(s) - ToNat(other) * Weight(d);
    && |t| == |s| && i <= |s| && borrow <= 1
    && (borrow == 1 ==>
        && i < |s| && !(ToNat(s[d..i]) >= ToNat(other))
        && ((t[i] == s[i] && ToNat(t) == base + w)
            || (s[i] == 0 && t[i] == BASE - 1 && ToNat(t) == base + BASE * w)))
    && (borrow == 0 ==> ToNat(t) == base + if BorrowFits(s, d, other) then 0 else (BASE - 1) * w)
  }

  lemma LendStart(t: seq<bigit>, s: seq<bigit>, d: nat, other: seq<bigit>, borrow: nat)
    requires Subtracting(t, s, d, |other|, other, borrow)
    requires ToNat(s[d..d + |other|]) < ToNat(other) ==> d + |other| < |s|
    ensures Lending(t, s, d, other, borrow)
    ensures borrow == 1 ==> d + |other| < |s|
  {
    var i := d + |other|;
    assert other[..|other|] == other;
    if borrow == 1 {
      assert t[i] == t[i..][0] == s[i];
    }
  }

  /** Lending from a bigit takes one weight, or adds all but one when it wraps. */
  lemma LendStep(t: seq<bigit>, s: seq<bigit>, d: nat, other: seq<bigit>)
    requires Lending(t, s, d, other, 1)
    ensures var i := d + |other|;
      var (x, nb) := Difference(t[i], 0, 1);
      Lending(t[i := x], s, d, other, nb) && (nb == 1 ==> x != 0)
  {
    var i := d + |other|;
    var (x, nb) := Difference(t[i], 0, 1);
    ToNatUpdate(t, i, x);
    LendWeight(x - t[i], Weight(i));
  }

  lemma LendWeight(x: int, w: int)
    ensures x == -1 ==> x * w == -w
    ensures x == BASE - 1 ==> x * w == BASE * w - w
  {}

  lemma BorrowArithmetic(old_: nat, x: nat, nb: nat, y: nat, borrow: nat, wd: nat, wj: nat, seen: nat)
    requires x + y + borrow == old_ + nb * BASE
    ensures (x - old_) * (wd * wj) == nb * (BASE * (wd * wj)) - y * (wd * wj) - borrow * (wd * wj)
    ensures (seen + y * wj) * wd == seen * wd + y * (wd * wj)
  {
    var w := wd * wj;
    calc {
      (x - old_) * w;
    ==
      (nb * BASE - (y + borrow)) * w;
    ==  { DistributeMinus(w, nb * BASE, y + borrow); Distribute(w, y, borrow); }
      (nb * BASE) * w - y * w - borrow * w;
    ==  { MulAssoc(nb, BASE, w); }
      nb * (BASE * w) - y * w - borrow * w;
    }
    Distribute(wd, seen, y * wj);
    MulAssoc(y, wj, wd);
  }

  /** The borrow after a limb says which of the two prefixes is the smaller. */
  lemma BorrowIsComparison(a: nat, x: nat, b: nat, y: nat, w: nat, borrow: nat, sa: seq<bigit>, sb: seq<bigit>)
    requires |sa| == |sb| && a == ToNat(sa) && b == ToNat(sb) && w == Weight(|sa|)
    requires borrow == if a < b then 1 else 0
    ensures x < y + borrow <==> a + x * w < b + y * w
  {
    ToNatBound(sa);
    ToNatBound(sb);
    if x < y {
      TopDecides(a, x, y, w);
    } else if y < x {
      TopDecides(b, y, x, w);
    }
  }

  /** From the difference of the bigits to the difference of the values. */
  lemma DifferenceValue(t: seq<bigit>, s: seq<bigit>, e: nat, other: seq<bigit>, oe: nat)
    requires oe >= e && Lending(t, s, oe - e, other, 0)
    ensures Val(t, e) == Val(s, e) - Val(other, oe)
      + if BorrowFits(s, oe - e, other) then 0 else (BASE - 1) * Weight(oe + |other|)
  {
    var d, n := oe - e, |other|;
    WeightAdd(d, e);
    WeightAdd(d + n, e);
    DifferenceScaled(ToNat(t), ToNat(s), ToNat(other), Weight(d), Weight(d + n), Weight(e),
                     BorrowFits(s, d, other));
  }

  lemma DifferenceScaled(t: nat, s: nat, other: nat, wd: nat, w: nat, we: nat, fits: bool)
    requires t == s - other * wd + if fits then 0 else (BASE - 1) * w
    ensures t * we == s * we - other * (wd * we) + if fits then 0 else (BASE - 1) * (w * we)
  {
    MulAssoc(other, wd, we);
    DistributeMinus(we, s, other * wd);
    if !fits {
      Distribute(we, s - other * wd, (BASE - 1) * w);
      MulAssoc(BASE - 1, w, we);
    }
  }

  // ---- Alignment

  /** Bigits from position i on have been moved up by d; the ones below are still in place. */
  ghost predicate Moving(t: seq<bigit>, s: seq<bigit>, i: nat, d: nat)
  {
    && |t| == |s| + d && i <= |s|
    && t[..i] == s[..i]
    && t[i + d..] == s[i..]
  }

  lemma MoveStart(s: seq<bigit>, d: nat)
    ensures Moving(s + Zeros(d), s, |s|, d)
  {
    assert (s + Zeros(d))[..|s|] == s;
  }

  lemma MoveStep(t: seq<bigit>, s: seq<bigit>, i: nat, d: nat)
    requires Moving(t, s, i + 1, d) && d > 0
    ensures Moving(t[i + d := t[i]], s, i, d)
  {
    assert t[i] == t[..i + 1][i] == s[i];
    assert t[i + d := t[i]][..i] == t[..i + 1][..i] == s[..i];
    assert t[i + d := t[i]][i + d..] == [t[i]] + t[i + 1 + d..] == s[i..];
  }

  lemma MoveDone(t: seq<bigit>, s: seq<bigit>, d: nat)
    requires Moving(t, s, 0, d)
    ensures t[d..] == s
  {}

  // ---- Division

  /** With the higher exponent on the left, compare errs on equal values only. */
  lemma CompareHigherExponent(l: seq<bigit>, le: nat, r: seq<bigit>, re: nat)
    requires Normal(l) && Normal(r) && le > re
    requires Val(l, le) != Val(r, re)
    ensures CompareResult(l, le, r, re) >= 0 <==> Val(l, le) >= Val(r, re)
  {
    if |l| + le < |r| + re {
      LongerIsGreater(l, le, r, re);
    } else if |l| + le > |r| + re {
      LongerIsGreater(r, re, l, le);
    } else {
      CompareTies(r, re, l, le);
    }
  }

  /** What a division may rely on: compare decides, except for equal values with the higher exponent left. */
  lemma CompareDecides(l: seq<bigit>, le: nat, r: seq<bigit>, re: nat)
    requires Canonical(l) && Normal(r)
    requires l == [0] ==> le <= re
    requires le <= re || Val(l, le) != Val(r, re)
    ensures CompareResult(l, le, r, re) >= 0 <==> Val(l, le) >= Val(r, re)
    ensures Val(r, re) > 0
    ensures Val(l, le) > 0 <==> Normal(l)
  {
    ValZeroIff(l, le);
    ToNatZeroIff(r);
    ValZeroIff(r, re);
    if le <= re {
      CompareAtLeast(l, le, r, re);
    } else {
      CompareHigherExponent(l, le, r, re);
    }
  }

  /** The first comparison of a division: right, or it misjudges an equal divisor. */
  lemma DivisionStarts(l: seq<bigit>, le: nat, r: seq<bigit>, re: nat)
    requires Canonical(l) && Normal(r)
    requires l == [0] ==> le <= re
    ensures CompareResult(l, le, r, re) >= 0 <==> Val(l, le) >= Val(r, re) && !Meets(l, le, r, re)
    ensures Val(r, re) > 0
    ensures Val(l, le) > 0 <==> Normal(l)
  {
    if Meets(l, le, r, re) {
      ValZeroIff(l, le);
      ToNatZeroIff(r);
      ValZeroIff(r, re);
      CompareEqual(l, le, r, re);
    } else {
      CompareDecides(l, le, r, re);
    }
  }

  /** Counting one subtraction; the count stays an int. */
  lemma QuotientStep(quotient: nat, rest: nat, total: nat, d: nat)
    requires total == quotient * d + (rest + d) && total < 0x8000_0000 * d && d > 0
    ensures total == (quotient + 1) * d + rest
    ensures quotient + 1 <= INT_MAX
    ensures rest >= d ==> quotient + 1 < INT_MAX
  {
    Distribute(d, quotient, 1);
    Distribute(d, quotient + 1, 1);
    MulCancelLess(quotient + 1, 0x8000_0000, d);
    if rest >= d {
      MulCancelLess(quotient + 2, 0x8000_0000, d);
    }
  }

  lemma PaddedIsNormal(s: seq<bigit>, d: nat)
    requires Normal(s)
    ensures Normal(Zeros(d) + s)
  {}

  /** A quotient that fits an int keeps the dividend within one bigit of the divisor, so the borrow fits. */
  lemma QuotientFits(s: seq<bigit>, e: nat, r: seq<bigit>, re: nat)
    requires Canonical(s) && Normal(r) && e <= re
    requires Val(r, re) <= Val(s, e) < 0x8000_0000 * Val(r, re)
    ensures BorrowFits(s, re - e, r)
  {
    var d := re - e;
    AlignedFits(s, e, r, re);
    if ToNat(s[d..d + |r|]) < ToNat(r) {
      ValZeroIff(s, e);
      ValZeroIff(r, re);
      ToNatZeroIff(r);
      ValBounds(s, e);
      ValBounds(r, re);
      WeightSucc(|r| + re);
      if |s| + e > |r| + re + 1 {
        WeightMonotonic(|r| + re + 1, |s| + e - 1);
      }
      assert |s| == d + |r| + 1;
    }
  }

  // ---- Sum comparison

  /** The two early exits of the sum comparison. */
  lemma LongSidesDecide(a: seq<bigit>, ae: nat, b: seq<bigit>, be: nat, c: seq<bigit>, ce: nat)
    requires Normal(c) && Addable(a, ae, |c| + ce) && Addable(b, be, |c| + ce)
    ensures Max(|a| + ae, |b| + be) + 1 < |c| + ce ==> Val(a, ae) + Val(b, be) < Val(c, ce)
    ensures Max(|a| + ae, |b| + be) > |c| + ce ==> Val(a, ae) + Val(b, be) > Val(c, ce)
  {
    var m := Max(|a| + ae, |b| + be);
    ValBounds(a, ae);
    ValBounds(b, be);
    WeightMonotonic(|a| + ae, m);
    WeightMonotonic(|b| + be, m);
    ValBounds(c, ce);
    if m + 1 < |c| + ce {
      WeightSucc(m);
      WeightMonotonic(m + 1, |c| + ce - 1);
    }
    if m > |c| + ce {
      if |a| + ae > |c| + ce {
        LongerIsGreater(c, ce, a, ae);
      } else {
        LongerIsGreater(c, ce, b, be);
      }
    }
  }

  /** One step of the top-down comparison. */
  lemma CompareStep(l: seq<bigit>, r: seq<bigit>, k: nat)
    requires k < |l| == |r| && l[k + 1..] == r[k + 1..]
    ensures l[k] < r[k] ==> ToNat(l) < ToNat(r)
    ensures l[k] > r[k] ==> ToNat(l) > ToNat(r)
    ensures l[k] == r[k] ==> l[k..] == r[k..]
  {
    if l[k] < r[k] {
      HigherBigitWins(l, r, k);
    } else if l[k] > r[k] {
      HigherBigitWins(r, l, k);
    } else {
      assert l[k..] == [l[k]] + l[k + 1..] && r[k..] == [r[k]] + r[k + 1..];
    }
  }

  lemma HighStart(s: seq<bigit>, e: nat, i: nat)
    requires i >= |s| + e
    ensures High(s, e, i) == 0
  {}

  lemma HighStep(s: seq<bigit>, e: nat, i: nat)
    ensures High(s, e, i) == GetBigit(s, e, i) + BASE * High(s, e, i + 1)
  {}
}
