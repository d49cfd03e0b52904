/** Powers and the few non-linear facts the other modules rest on. */
module Arith {

  const INT_MAX: nat := 0x7FFF_FFFF

  function Pow(b: nat, n: nat): nat
  {
    if n == 0 then 1 else b * Pow(b, n - 1)
  }

  function Max(a: int, b: int): int { if a > b then a else b }

  function Min(a: int, b: int): int { if a < b then a else b }

  /** The larger of x and 0; together with Neg it splits a signed exponent. */
  function Pos(x: int): nat { if x > 0 then x else 0 }

  function Neg(x: int): nat { if x < 0 then -x else 0 }

  function Sign(x: int): int { if x > 0 then 1 else if x < 0 then -1 else 0 }

  lemma {:induction false} PowPositive(b: nat, n: nat)
    requires b > 0
    ensures Pow(b, n) > 0
  {
    if n > 0 {
      PowPositive(b, n - 1);
      MulPositive(b, Pow(b, n - 1));
    }
  }

  lemma {:induction false} PowAdd(b: nat, m: nat, n: nat)
    ensures Pow(b, m + n) == Pow(b, m) * Pow(b, n)
  {
    if m == 0 {
    } else {
      PowAdd(b, m - 1, n);
      MulAssoc(b, Pow(b, m - 1), Pow(b, n));
    }
  }

  lemma {:induction false} PowOfProduct(a: nat, b: nat, n: nat)
    ensures Pow(a * b, n) == Pow(a, n) * Pow(b, n)
  {
    if n > 0 {
      PowOfProduct(a, b, n - 1);
      var x, y := Pow(a, n - 1), Pow(b, n - 1);
      calc {
        (a * b) * (x * y);
      ==  { MulSwap(a, b, x, y); }
        (a * x) * (b * y);
      }
    }
  }

  lemma {:induction false} PowOfPow(b: nat, m: nat, n: nat)
    ensures Pow(Pow(b, m), n) == Pow(b, m * n)
  {
    if n == 0 {
    } else {
      PowOfPow(b, m, n - 1);
      assert m * n == m + m * (n - 1) by { Distribute(m, 1, n - 1); }
      PowAdd(b, m, m * (n - 1));
    }
  }

  lemma {:induction false} PowMonotonic(b: nat, m: nat, n: nat)
    requires b > 0 && m <= n
    ensures Pow(b, m) <= Pow(b, n)
  {
    PowAdd(b, m, n - m);
    PowPositive(b, n - m);
    PowPositive(b, m);
    MulMonotonic(1, Pow(b, n - m), Pow(b, m));
  }

  lemma {:induction false} PowBaseMonotonic(a: nat, b: nat, n: nat)
    requires a <= b
    ensures Pow(a, n) <= Pow(b, n)
  {
    if n > 0 {
      PowBaseMonotonic(a, b, n - 1);
      MulMonotonic(Pow(a, n - 1), Pow(b, n - 1), a);
      MulMonotonic(a, b, Pow(b, n - 1));
    }
  }

  // Multiplication, one fact at a time.

  lemma MulPositive(x: int, y: int)
    requires x > 0 && y > 0
    ensures x * y > 0
  {}

  lemma MulAssoc(x: int, y: int, z: int)
    ensures (x * y) * z == x * (y * z)
  {}

  lemma MulSwap(a: int, b: int, x: int, y: int)
    ensures (a * b) * (x * y) == (a * x) * (b * y)
  {
    calc {
      (a * b) * (x * y);
    ==  { MulAssoc(a, b, x * y); }
      a * (b * (x * y));
    ==  { MulAssoc(b, x, y); MulAssoc(x, b, y); }
      a * (x * (b * y));
    ==  { MulAssoc(a, x, b * y); }
      (a * x) * (b * y);
    }
  }

  lemma Distribute(x: int, y: int, z: int)
    ensures x * (y + z) == x * y + x * z
    ensures (y + z) * x == y * x + z * x
  {}

  lemma DistributeMinus(x: int, y: int, z: int)
    ensures x * (y - z) == x * y - x * z
    ensures (y - z) * x == y * x - z * x
  {}

  lemma MulMonotonic(x: int, y: int, z: int)
    requires x <= y && 0 <= z
    ensures x * z <= y * z
    ensures z * x <= z * y
  {}

  lemma MulStrictlyMonotonic(x: int, y: int, z: int)
    requires x < y && 0 < z
    ensures x * z < y * z
    ensures z * x < z * y
  {}

  lemma MulCancel(x: int, y: int, z: int)
    requires 0 < z && x * z == y * z
    ensures x == y
  {
    if x < y {
      MulStrictlyMonotonic(x, y, z);
    } else if y < x {
      MulStrictlyMonotonic(y, x, z);
    }
  }

  lemma MulCancelLess(x: int, y: int, z: int)
    requires 0 < z && x * z < y * z
    ensures x < y
  {
    if y <= x {
      MulMonotonic(y, x, z);
    }
  }

  /** The defining equation of quotient and remainder, for a divisor that is not a literal. */
  lemma DivMod(n: nat, d: nat)
    requires d > 0
    ensures n == (n / d) * d + n % d
    ensures 0 <= n % d < d
    ensures 0 <= n / d <= n
  {
    var q := n / d;
    MulMonotonic(1, d, q);
  }

  lemma DivBound(n: nat, d: nat, bound: nat)
    requires d > 0 && n < bound * d
    ensures n / d < bound
  {
    DivMod(n, d);
    if n / d >= bound {
      MulMonotonic(bound, n / d, d);
    }
  }

  /** The quotient and remainder are determined by their defining equation. */
  lemma DivModUnique(n: int, d: int, q: int, r: int)
    requires 0 < d && n == q * d + r && 0 <= r < d
    ensures n / d == q && n % d == r
  {
    var q', r' := n / d, n % d;
    assert n == d * q' + r';
    assert (q - q') * d == r' - r by { DistributeMinus(d, q, q'); }
    if q < q' {
      MulMonotonic(q - q', -1, d);
    } else if q > q' {
      MulMonotonic(1, q - q', d);
    }
  }
}
