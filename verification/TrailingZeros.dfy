/** Removing trailing decimal zeros without dividing: modular inverses, rotations and a fixed-point reciprocal. */
module TrailingZeros {
  import opened Arith

  const W32: nat := 0x1_0000_0000
  const W64: nat := 0x1_0000_0000_0000_0000

  // ---- Full product of two words from half-word products

  /** The 128-bit product (high, low), every intermediate in a 64-bit word. */
  function Umul128(x: nat, y: nat): (r: (nat, nat))
    requires x < W64 && y < W64
    ensures r.0 * W64 + r.1 == x * y
    ensures r.0 < W64 && r.1 < W64
  {
    var a, b, c, d := x / W32, x % W32, y / W32, y % W32;
    var ac, bc, ad, bd := a * c, b * c, a * d, b * d;
    HalfProducts(a, b, c, d);
    var intermediate := bd / W32 + ad % W32 + bc % W32;
    ProductParts(a, b, c, d, ac, bc, ad, bd);
    HighHalfFits(x, y, ac + intermediate / W32 + ad / W32 + bc / W32, (intermediate * W32) % W64 + bd % W32);
    ((ac + intermediate / W32 + ad / W32 + bc / W32) % W64, ((intermediate * W32) % W64 + bd % W32) % W64)
  }

  lemma HalfProducts(a: nat, b: nat, c: nat, d: nat)
    requires a < W32 && b < W32 && c < W32 && d < W32
    ensures 0 <= a * c <= 0xFFFF_FFFE_0000_0001 && 0 <= b * c <= 0xFFFF_FFFE_0000_0001
    ensures 0 <= a * d <= 0xFFFF_FFFE_0000_0001 && 0 <= b * d <= 0xFFFF_FFFE_0000_0001
  {
    HalfProduct(a, c);
    HalfProduct(b, c);
    HalfProduct(a, d);
    HalfProduct(b, d);
  }

  lemma HalfProduct(a: nat, c: nat)
    requires a < W32 && c < W32
    ensures 0 <= a * c <= 0xFFFF_FFFE_0000_0001
  {
    MulMonotonic(0, a, c);
    MulMonotonic(a, 0xFFFF_FFFF, c);
  }

  lemma ProductParts(a: nat, b: nat, c: nat, d: nat, ac: nat, bc: nat, ad: nat, bd: nat)
    requires ac == a * c && bc == b * c && ad == a * d && bd == b * d
    requires bd / W32 < W32
    ensures var intermediate := bd / W32 + ad % W32 + bc % W32;
      var high := ac + intermediate / W32 + ad / W32 + bc / W32;
      var low := (intermediate * W32) % W64 + bd % W32;
      low < W64 && high * W64 + low == (a * W32 + b) * (c * W32 + d)
  {
    var i := bd / W32 + ad % W32 + bc % W32;
    DivModUnique(i * W32, W64, i / W32, (i % W32) * W32);
    assert (a * W32 + b) * (c * W32 + d) == ac * W64 + (ad + bc) * W32 + bd by {
      Distribute(a * W32 + b, c * W32, d);
      Distribute(c * W32, a * W32, b);
      Distribute(d, a * W32, b);
      MulSwap(a, W32, c, W32);
      MulAssoc(b, c, W32);
      MulAssoc(a, W32, d);
      MulAssoc(a, d, W32);
    }
  }

  lemma HighHalfFits(x: nat, y: nat, high: nat, low: nat)
    requires x < W64 && y < W64 && high * W64 + low == x * y && low < W64
    ensures high < W64 && high % W64 == high && low % W64 == low
  {
    MulMonotonic(x, W64 - 1, y);
    MulMonotonic(y, W64 - 1, W64);
    MulCancelLess(high, W64, W64);
    DivModUnique(high, W64, 0, high);
    DivModUnique(low, W64, 0, low);
  }

  // ---- Divisibility by rotation

  /** Rotating right by log2(s) bits in a word of W values: the low bits move to the top. */
  function Rotr(n: nat, s: nat, W: nat): nat
    requires s > 0
  {
    n / s + (n % s) * (W / s)
  }

  /**
    inv is the inverse of the odd number d modulo W. The rotated product is at most
    (W - 1) / (d * s) exactly when d * s divides n, and then it is the quotient.
   */
  lemma RotationDivides(n: nat, d: nat, s: nat, inv: nat, c: nat, W: nat)
    requires n < W && d > 0 && s > 1 && W % s == 0 && W > 0
    requires inv * d == 1 + c * W
    ensures var q := Rotr((n * inv) % W, s, W);
      && (q <= (W - 1) / (d * s) <==> n % (d * s) == 0)
      && (q <= (W - 1) / (d * s) ==> n == q * (d * s))
  {
    var m := (n * inv) % W;
    var q := Rotr(m, s, W);
    var k := d * s;
    MulPositive(d, s);
    InverseUndoes(n, d, inv, c, W);
    if q <= (W - 1) / k {
      SmallRotation(n, m, d, s, W, q);
      assert n == q * k;
      DivModUnique(n, k, q, 0);
    }
    if n % k == 0 {
      DivMod(n, k);
      RotatedQuotient(n, n / k, m, d, s, inv, c, W);
      QuotientBound(n, k, W);
    }
  }

  /** The candidate quotient: n * inv in a word of W values, rotated right by log2(s). */
  function Candidate(n: nat, inv: nat, s: nat, W: nat): nat
    requires W > 0 && s > 0
  {
    MulMonotonic(0, n, inv);
    Rotr((n * inv) % W, s, W)
  }

  /** The four candidates the two loops use. */
  lemma Candidates(n: nat)
    ensures n < W32 ==> var q := Candidate(n, 0xc28f5c29, 4, W32);
      (q <= (W32 - 1) / 100 <==> n % 100 == 0) && (n % 100 == 0 ==> n == q * 100)
    ensures n < W32 ==> var q := Candidate(n, 0xcccccccd, 2, W32);
      (q <= (W32 - 1) / 10 <==> n % 10 == 0) && (n % 10 == 0 ==> n == q * 10)
    ensures n < W64 ==> var q := Candidate(n, 0x8f5c28f5c28f5c29, 4, W64);
      (q <= (W64 - 1) / 100 <==> n % 100 == 0) && (n % 100 == 0 ==> n == q * 100)
    ensures n < W64 ==> var q := Candidate(n, 0xcccccccccccccccd, 2, W64);
      (q <= (W64 - 1) / 10 <==> n % 10 == 0) && (n % 10 == 0 ==> n == q * 10)
  {
    hide Rotr;
    if n < W32 {
      RotationDivides(n, 25, 4, 0xc28f5c29, 19, W32);
      RotationDivides(n, 5, 2, 0xcccccccd, 4, W32);
    }
    if n < W64 {
      RotationDivides(n, 25, 4, 0x8f5c28f5c28f5c29, 14, W64);
      RotationDivides(n, 5, 2, 0xcccccccccccccccd, 4, W64);
    }
  }

  lemma QuotientBound(n: nat, k: nat, W: nat)
    requires k > 0 && n < W
    ensures n / k <= (W - 1) / k
  {
    DivMod(n, k);
    DivMod(W - 1, k);
    if n / k > (W - 1) / k {
      MulMonotonic((W - 1) / k + 1, n / k, k);
    }
  }

  /** Multiplying by the inverse and then by d gives n back, modulo W. */
  lemma InverseUndoes(n: nat, d: nat, inv: nat, c: nat, W: nat)
    requires W > 0 && inv * d == 1 + c * W && n < W
    ensures (((n * inv) % W) * d) % W == n
  {
    var m, h := (n * inv) % W, (n * inv) / W;
    DivMod(n * inv, W);
    calc {
      m * d;
    ==  { DistributeMinus(d, n * inv, h * W); }
      (n * inv) * d - (h * W) * d;
    ==  { MulAssoc(n, inv, d); MulAssoc(h, W, d); MulAssoc(h, d, W); }
      n * (1 + c * W) - (h * d) * W;
    ==  { Distribute(n, 1, c * W); MulAssoc(n, c, W); DistributeMinus(W, n * c, h * d); }
      n + (n * c - h * d) * W;
    }
    var t := n * c - h * d;
    MulMonotonic(0, m, d);
    if t < 0 {
      MulMonotonic(t, -1, W);
      assert false;
    }
    DivModUnique(m * d, W, t, n);
  }

  /** A small rotated value had no low bits: it is an exact quarter (or half) of the product. */
  lemma SmallRotation(n: nat, m: nat, d: nat, s: nat, W: nat, q: nat)
    requires s > 1 && d > 0 && W > 0 && W % s == 0 && m < W && n < W
    requires q == Rotr(m, s, W) && d * s > 0 && q <= (W - 1) / (d * s)
    requires (m * d) % W == n
    ensures n == q * (d * s)
  {
    var k, p := d * s, W / s;
    DivMod(W, s);
    DivMod(W - 1, k);
    MulMonotonic(q, (W - 1) / k, k);
    DivMod(m, s);
    NoLowBits(m / s, m % s, s, p, d, q, W);
    assert m * d == q * k by {
      MulAssoc(q, s, d);
    }
    DivModUnique(m * d, W, 0, q * k);
  }

  /** Low bits rotated to the top would make the value too large. */
  lemma NoLowBits(quarter: nat, low: nat, s: nat, p: nat, d: nat, q: nat, W: nat)
    requires d > 0 && s > 0 && W == p * s && q == quarter + low * p
    requires q * (d * s) < W
    ensures low == 0 && quarter == q
  {
    MulMonotonic(1, d, s);
    MulMonotonic(s, d * s, q);
    if low > 0 {
      MulMonotonic(1, low, p);
      MulMonotonic(p, q, s);
      assert false;
    }
  }

  /** For a multiple the product is small and rotates to the quotient. */
  lemma RotatedQuotient(n: nat, j: nat, m: nat, d: nat, s: nat, inv: nat, c: nat, W: nat)
    requires n == j * (d * s) && n < W && d > 0 && s > 1 && W > 0
    requires inv * d == 1 + c * W && m == (n * inv) % W
    ensures Rotr(m, s, W) == j
  {
    var js := j * s;
    MulMonotonic(1, d, js);
    assert n == js * d by { MulAssoc(j, s, d); assert d * s == s * d; }
    assert n * inv == (js * c) * W + js by {
      MulAssoc(js, d, inv);
      Distribute(js, 1, c * W);
      MulAssoc(js, c, W);
      assert d * inv == inv * d;
    }
    MulMonotonic(0, js, c);
    DivModUnique(n * inv, W, js * c, js);
    DivModUnique(js, s, j, 0);
  }

  // ---- The 32-bit loop

  /** n without its s trailing zeros. */
  predicate Stripped(original: nat, n: nat, s: nat)
  {
    original == n * Pow(10, s)
  }

  lemma StripTwo(original: nat, n: nat, s: nat, q: nat)
    requires Stripped(original, n, s) && n == q * 100
    ensures Stripped(original, q, s + 2)
  {
    MulAssoc(q, 100, Pow(10, s));
    assert Pow(10, s + 2) == 10 * Pow(10, s + 1);
  }

  lemma StripNone(original: nat)
    ensures Stripped(original, original, 0)
  {
    assert Pow(10, 0) == 1;
  }

  lemma StripOne(original: nat, n: nat, s: nat, q: nat)
    requires Stripped(original, n, s) && n == q * 10
    ensures Stripped(original, q, s + 1)
  {
    MulAssoc(q, 10, Pow(10, s));
  }

  /** Without two trailing zeros there is at most one. */
  lemma AtMostOne(n: nat, q: nat)
    requires n % 100 != 0
    ensures n == q * 10 ==> q % 10 != 0
  {
    if n == q * 10 && q % 10 == 0 {
      assert n == (q / 10) * 100;
      DivModUnique(n, 100, q / 10, 0);
    }
  }

  /** The same reduction for both word sizes: zeros leave two at a time, then perhaps one. */
  method RemoveTrailingZeros32(value: nat, zeros: nat) returns (n: nat, s: nat)
    requires 0 < value < W32 && zeros % 2 == 0
    ensures s >= zeros && Stripped(value, n, s - zeros)
    ensures n % 10 != 0
  {
    var modInv5, modInv25 := 0xcccccccd, 0xc28f5c29;
    n, s := value, zeros;
    StripNone(value);
    hide Candidate, Stripped;
    while true
      invariant 0 < n <= value && s >= zeros && s % 2 == 0
      invariant Stripped(value, n, s - zeros)
      decreases n
    {
      Candidates(n);
      var q := Candidate(n, modInv25, 4, W32);
      if q > (W32 - 1) / 100 {
        break;
      }
      StripTwo(value, n, s - zeros, q);
      n := q;
      s := s + 2;
    }
    Candidates(n);
    var q := Candidate(n, modInv5, 2, W32);
    AtMostOne(n, q);
    if q <= (W32 - 1) / 10 {
      StripOne(value, n, s - zeros, q);
      n := q;
      s := s + 1;  // s |= 1 on an even s
    }
  }

  // ---- The reciprocal of 10^8

  const TEN8: nat := 1_0000_0000
  const W90: nat := 0x400_0000_0000_0000_0000_0000
  const MAGIC: nat := 12379400392853802749

  /** The low 90 bits of n * MAGIC are below MAGIC exactly when 10^8 divides n; the rest is the quotient. */
  lemma ReciprocalDivides(n: nat)
    requires n < W64
    ensures (n * MAGIC) % W90 < MAGIC <==> n % TEN8 == 0
    ensures n % TEN8 == 0 ==> (n * MAGIC) / W90 == n / TEN8
  {
    var k, j := n / TEN8, n % TEN8;
    var rest := k * 875776 + j * MAGIC;
    assert MAGIC * TEN8 == W90 + 875776;
    assert n * MAGIC == k * W90 + rest;
    DivModUnique(n * MAGIC, W90, k, rest);
  }

  /** Splitting at bit 90 of a (high, low) pair. */
  lemma SplitAt90(high: nat, low: nat)
    requires low < W64
    ensures (high * W64 + low) / W90 == high / 0x400_0000
    ensures (high * W64 + low) % W90 == (high % 0x400_0000) * W64 + low
  {
    var h, r := high / 0x400_0000, high % 0x400_0000;
    DivModUnique(high * W64 + low, W90, h, r * W64 + low);
  }

  /** The number without its zeros and how many they were, or an assertion that failed. */
  datatype Removal = Removed(n: nat, s: nat) | AssertionFailed

  /**
    Removes the zeros of a 64-bit number. A multiple of 10^8 continues with its quotient in a 32-bit
    word, so the result is right exactly when that quotient fits one; when nothing of it is left in the
    word, the assertion that it is not zero fails.
   */
  method RemoveTrailingZeros64(value: nat) returns (r: Removal)
    requires 0 < value < W64
    ensures r.AssertionFailed? <==> value % (W32 * TEN8) == 0
    ensures r.Removed? && Stripped(value, r.n, r.s) && r.n % 10 != 0 <==> (value % TEN8 == 0 ==> value / TEN8 < W32)
  {
    hide Candidate, Stripped;
    var n, s;
    WordMultiple(value);
    var nm := Umul128(value, MAGIC);
    SplitAt90(nm.0, nm.1);
    ReciprocalDivides(value);
    if nm.0 % 0x400_0000 == 0 && nm.1 < MAGIC {
      var n32 := (nm.0 / 0x400_0000) % W32;
      if n32 == 0 {
        return AssertionFailed;
      }
      n, s := RemoveTrailingZeros32(n32, 8);
      TruncatedQuotient(value, value / TEN8, n, s);
      return Removed(n, s);
    }
    var modInv5, modInv25 := 0xcccccccccccccccd, 0x8f5c28f5c28f5c29;
    n, s := value, 0;
    StripNone(value);
    while true
      invariant 0 < n <= value && s % 2 == 0
      invariant Stripped(value, n, s)
      decreases n
    {
      Candidates(n);
      var q := Candidate(n, modInv25, 4, W64);
      if q > (W64 - 1) / 100 {
        break;
      }
      StripTwo(value, n, s, q);
      n := q;
      s := s + 2;
    }
    Candidates(n);
    var q := Candidate(n, modInv5, 2, W64);
    AtMostOne(n, q);
    if q <= (W64 - 1) / 10 {
      StripOne(value, n, s, q);
      n := q;
      s := s + 1;  // s |= 1 on an even s
    }
    r := Removed(n, s);
  }

  /** What leaves nothing in the 32-bit word. */
  lemma WordMultiple(value: nat)
    requires 0 < value < W64
    ensures value % (W32 * TEN8) == 0 <==> value % TEN8 == 0 && (value / TEN8) % W32 == 0
    ensures value % (W32 * TEN8) == 0 ==> value / TEN8 >= W32
  {
    var k, j := value / TEN8, value % TEN8;
    var h, l := k / W32, k % W32;
    DivModUnique(value, W32 * TEN8, h, l * TEN8 + j);
  }

  /** (2^32 + 1) * 10^8 comes out as 1 with eight zeros; the two callers stay below 2^32 * 10^8. */
  lemma TruncationExample()
    ensures var value := 4294967297 * TEN8;
      && 0 < value < W64 && value % TEN8 == 0 && value / TEN8 >= W32 && (value / TEN8) % W32 == 1
      && Stripped(value, 4294967297, 8) && !Stripped(value, 1, 8)
  {
    assert Pow(10, 4) == 10000;
    PowAdd(10, 4, 4);
  }

  /** Working on a truncated quotient gives the right number only when nothing was cut off. */
  lemma TruncatedQuotient(value: nat, k: nat, n: nat, s: nat)
    requires value == k * TEN8 && s >= 8 && Stripped(k % W32, n, s - 8)
    ensures Stripped(value, n, s) <==> k < W32
  {
    PowAdd(10, s - 8, 8);
    assert Pow(10, 4) == 10000;
    PowAdd(10, 4, 4);
    hide Pow;
    MulAssoc(n, Pow(10, s - 8), TEN8);
    assert n * Pow(10, s) == (k % W32) * TEN8;
  }

  /** The stripped form is unique. */
  lemma {:induction false} StrippedUnique(value: nat, n: nat, s: nat, n': nat, s': nat)
    requires value > 0 && Stripped(value, n, s) && Stripped(value, n', s')
    requires n % 10 != 0 && n' % 10 != 0
    ensures n == n' && s == s'
    decreases s
  {
    assert Pow(10, 0) == 1;
    if s > 0 && s' > 0 {
      var v := n * Pow(10, s - 1);
      MulAssoc(n, 10, Pow(10, s - 1));
      MulAssoc(10, n, Pow(10, s - 1));
      MulAssoc(n', 10, Pow(10, s' - 1));
      MulAssoc(10, n', Pow(10, s' - 1));
      StrippedUnique(v, n, s - 1, n', s' - 1);
    } else if s > 0 {
      LastDigitZero(n, s);
    } else if s' > 0 {
      LastDigitZero(n', s');
    }
  }

  lemma LastDigitZero(n: nat, s: nat)
    requires s > 0
    ensures (n * Pow(10, s)) % 10 == 0
  {
    MulAssoc(n, 10, Pow(10, s - 1));
    MulAssoc(10, n, Pow(10, s - 1));
    DivModUnique(n * Pow(10, s), 10, n * Pow(10, s - 1), 0);
  }
}
