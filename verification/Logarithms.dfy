/** Powers of two between powers of ten: close enough for every binary exponent that occurs. */
module Logarithms {
  import opened Arith

  /** m * 10^p is a lower bound of 2^q. */
  predicate AtLeast(m: nat, p: nat, q: nat)
  {
    m * Pow(10, p) <= Pow(2, q)
  }

  predicate AtMost(m: nat, p: nat, q: nat)
  {
    Pow(2, q) <= m * Pow(10, p)
  }

  /** Squaring a bound, doubling it if odd is 1, and dropping its last k digits. */
  lemma AtLeastSquared(m: nat, p: nat, q: nat, m': nat, k: nat, odd: nat)
    requires AtLeast(m, p, q) && odd <= 1 && m' * Pow(10, k) <= (1 + odd) * (m * m)
    ensures AtLeast(m', 2 * p + k, 2 * q + odd)
  {
    Doubled(odd);
    hide Pow;
    var a, b := Pow(10, p), Pow(2, q);
    PowAdd(10, k, 2 * p);
    PowAdd(10, p, p);
    PowAdd(2, odd, 2 * q);
    PowAdd(2, q, q);
    MulMonotonic(m * a, b, m * a);
    MulMonotonic(m * a, b, b);
    MulMonotonic((m * a) * (m * a), b * b, 1 + odd);
    MulMonotonic(m' * Pow(10, k), (1 + odd) * (m * m), a * a);
    MulSwap(m, a, m, a);
    MulAssoc(m', Pow(10, k), a * a);
    MulAssoc(1 + odd, m * m, a * a);
  }

  lemma AtMostSquared(m: nat, p: nat, q: nat, m': nat, k: nat, odd: nat)
    requires AtMost(m, p, q) && odd <= 1 && (1 + odd) * (m * m) <= m' * Pow(10, k)
    ensures AtMost(m', 2 * p + k, 2 * q + odd)
  {
    Doubled(odd);
    hide Pow;
    var a, b := Pow(10, p), Pow(2, q);
    PowAdd(10, k, 2 * p);
    PowAdd(10, p, p);
    PowAdd(2, odd, 2 * q);
    PowAdd(2, q, q);
    MulMonotonic(b, m * a, m * a);
    MulMonotonic(b, m * a, b);
    MulMonotonic(b * b, (m * a) * (m * a), 1 + odd);
    MulMonotonic((1 + odd) * (m * m), m' * Pow(10, k), a * a);
    MulSwap(m, a, m, a);
    MulAssoc(m', Pow(10, k), a * a);
    MulAssoc(1 + odd, m * m, a * a);
  }

  lemma Doubled(odd: nat)
    requires odd <= 1
    ensures Pow(2, odd) == 1 + odd
  {}

  lemma Tens()
    ensures Pow(2, 7) == 128 && Pow(2, 6) == 64 && Pow(10, 0) == 1
    ensures Pow(10, 3) == 1000 && Pow(10, 4) == 10000
    ensures Pow(10, 12) == 1000000000000 && Pow(10, 13) == 10000000000000 && Pow(10, 14) == 100000000000000
  {
    assert Pow(2, 7) == 128 && Pow(10, 3) == 1000;
    hide Pow;
    PowAdd(10, 3, 1);
    PowAdd(10, 4, 4);
    PowAdd(10, 8, 4);
    PowAdd(10, 12, 1);
    PowAdd(10, 13, 1);
    One(10);
  }

  lemma One(b: nat)
    ensures Pow(b, 1) == b
  {}

  /** 10^8651 <= 2^28738, by the first thirteen digits of each square. */
  lemma PowerOfTenBelow()
    ensures Pow(10, 8651) <= Pow(2, 28738)
  {
    Tens();
    hide Pow;
    AtLeastSquared(128, 0, 7, 16384, 0, 0);
    AtLeastSquared(16384, 0, 14, 268435456, 0, 0);
    AtLeastSquared(268435456, 0, 28, 7205759403792, 4, 0);
    AtLeastSquared(7205759403792, 4, 56, 5192296858533, 13, 0);
    AtLeastSquared(5192296858533, 21, 112, 2695994666713, 13, 0);
    AtLeastSquared(2695994666713, 55, 224, 1453677448588, 13, 1);
    AtLeastSquared(1453677448588, 123, 449, 2113178124533, 12, 0);
    AtLeastSquared(2113178124533, 258, 898, 4465521786004, 12, 0);
    AtLeastSquared(4465521786004, 528, 1796, 1994088482127, 13, 0);
    AtLeastSquared(1994088482127, 1069, 3592, 3976388874551, 12, 0);
    AtLeastSquared(3976388874551, 2150, 7184, 3162333696330, 13, 1);
    AtLeastSquared(3162333696330, 4313, 14369, 1000035440694, 13, 0);
    PowAdd(10, 12, 8639);
    MulMonotonic(Pow(10, 12), 1000035440694, Pow(10, 8639));
  }

  /** 2^13301 <= 10^4004. */
  lemma PowerOfTwoBelow()
    ensures Pow(2, 13301) <= Pow(10, 4004)
  {
    Tens();
    hide Pow;
    AtMostSquared(64, 0, 6, 4096, 0, 0);
    AtMostSquared(4096, 0, 12, 33554432, 0, 1);
    AtMostSquared(33554432, 0, 25, 2251799813686, 3, 1);
    AtMostSquared(2251799813686, 3, 51, 1014120480184, 13, 1);
    AtMostSquared(1014120480184, 19, 103, 2056880696658, 12, 1);
    AtMostSquared(2056880696658, 50, 207, 8461516400569, 12, 1);
    AtMostSquared(8461516400569, 112, 415, 1431945195942, 14, 1);
    AtMostSquared(1431945195942, 238, 831, 2050467044182, 12, 0);
    AtMostSquared(2050467044182, 488, 1662, 8408830198553, 12, 1);
    AtMostSquared(8408830198553, 988, 3325, 7070842530810, 13, 0);
    AtMostSquared(7070842530810, 1989, 6650, 9999362819103, 13, 1);
    PowAdd(10, 13, 3991);
    MulMonotonic(9999362819103, Pow(10, 13), Pow(10, 3991));
  }

  lemma {:induction false} PowBaseStrict(a: nat, b: nat, n: nat)
    requires a < b && n > 0
    ensures Pow(a, n) < Pow(b, n)
  {
    PowBaseMonotonic(a, b, n - 1);
    PowPositive(b, n - 1);
    MulMonotonic(Pow(a, n - 1), Pow(b, n - 1), a);
    MulStrictlyMonotonic(a, b, Pow(b, n - 1));
  }

  /** A power of ten is below a power of two if its exponent is below 8651 / 28738 of the other. */
  lemma TenBelowTwo(y: nat, l: nat)
    requires 28738 * y <= 8651 * l
    ensures Pow(10, y) <= Pow(2, l)
  {
    hide Pow;
    PowerOfTenBelow();
    PowOfPow(10, y, 28738);
    PowMonotonic(10, y * 28738, 8651 * l);
    PowOfPow(10, 8651, l);
    PowBaseMonotonic(Pow(10, 8651), Pow(2, 28738), l);
    PowOfPow(2, 28738, l);
    PowOfPow(2, l, 28738);
    assert l * 28738 == 28738 * l;
    if Pow(2, l) < Pow(10, y) {
      PowBaseStrict(Pow(2, l), Pow(10, y), 28738);
    }
  }

  lemma TwoBelowTen(l: nat, y: nat)
    requires 4004 * l <= 13301 * y
    ensures Pow(2, l) <= Pow(10, y)
  {
    hide Pow;
    PowerOfTwoBelow();
    PowOfPow(2, l, 13301);
    PowOfPow(2, 13301, l);
    PowBaseMonotonic(Pow(2, 13301), Pow(10, 4004), l);
    PowOfPow(10, 4004, l);
    PowMonotonic(10, 4004 * l, y * 13301);
    PowOfPow(10, y, 13301);
    assert l * 13301 == 13301 * l;
    if Pow(10, y) < Pow(2, l) {
      PowBaseStrict(Pow(10, y), Pow(2, l), 13301);
    }
  }
}
