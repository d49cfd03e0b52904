/** Remainders of products and powers, for the primes three and five. */
module Residues {
  import opened Arith

  lemma MulModulo(x: nat, y: nat, m: nat)
    requires m > 0
    ensures (x * y) % m == ((x % m) * (y % m)) % m
  {
    var p, a, q, b := x / m, x % m, y / m, y % m;
    DivMod(x, m);
    DivMod(y, m);
    DivMod(a * b, m);
    var k := p * y + a * q;
    assert x * y == k * m + a * b by {
      Distribute(y, p * m, a);
      MulAssoc(p, m, y);
      MulAssoc(p, y, m);
      Distribute(a, q * m, b);
      MulAssoc(a, q, m);
      Distribute(m, p * y, a * q);
    }
    assert x * y == (k + (a * b) / m) * m + (a * b) % m by {
      Distribute(m, k, (a * b) / m);
    }
    DivModUnique(x * y, m, k + (a * b) / m, (a * b) % m);
  }

  lemma {:induction false} PowModulo(b: nat, n: nat, m: nat)
    requires m > 0
    ensures Pow(b, n) % m == Pow(b % m, n) % m
  {
    if n > 0 {
      PowModulo(b, n - 1, m);
      MulModulo(b, Pow(b, n - 1), m);
      MulModulo(b % m, Pow(b % m, n - 1), m);
      DivMod(b, m);
      DivModUnique(b % m, m, 0, b % m);
    }
  }

  // ---- Three

  lemma {:induction false} NotByThree(b: nat, n: nat)
    requires b % 3 != 0
    ensures Pow(b, n) % 3 != 0
  {
    if n > 0 {
      NotByThree(b, n - 1);
      ProductNotByThree(b, Pow(b, n - 1));
    }
  }

  lemma ProductNotByThree(x: nat, y: nat)
    requires x % 3 != 0 && y % 3 != 0
    ensures (x * y) % 3 != 0
  {
    MulModulo(x, y, 3);
    assert ((x % 3) * (y % 3)) % 3 != 0;
  }

  // ---- Five

  /** A power that is one more than a multiple of m, where only every fifth one is. */
  lemma EveryFifth(x: nat, n: nat, m: nat)
    requires m > 1
    requires Pow(x, 5) % m == 1 && forall r | 1 <= r < 5 :: Pow(x, r) % m != 1
    requires Pow(x, n) % m == 1
    ensures n % 5 == 0
  {
    var q, r := n / 5, n % 5;
    PowAdd(x, 5 * q, r);
    PowOfPow(x, 5, q);
    PowModulo(Pow(x, 5), q, m);
    OnePower(q);
    MulModulo(Pow(x, 5 * q), Pow(x, r), m);
    DivModUnique(1, m, 0, 1);
    DivMod(Pow(x, r), m);
    DivModUnique(Pow(x, r) % m, m, 0, Pow(x, r) % m);
  }

  lemma {:induction false} OnePower(n: nat)
    ensures Pow(1, n) == 1
  {
    if n > 0 {
      OnePower(n - 1);
    }
  }

  /** The same for a base that is only known by its remainder. */
  lemma EveryFifthOf(b: nat, x: nat, n: nat, m: nat)
    requires m > 1 && b % m == x
    requires Pow(x, 5) % m == 1 && forall r | 1 <= r < 5 :: Pow(x, r) % m != 1
    requires Pow(b, n) % m == 1
    ensures n % 5 == 0
  {
    PowModulo(b, n, m);
    EveryFifth(x, n, m);
  }

  /** The order of 2 modulo 5^4 is 500. */
  lemma TwoModulo625(n: nat)
    requires Pow(2, n) % 625 == 1
    ensures n % 500 == 0
  {
    FourthPower(n);
    hide Pow;
    var a := n / 4;
    var b := a / 5;
    var c := b / 5;
    SmallPowers();
    PowOfPow(2, 4, a);
    Modulo25(a);
    PowOfPow(16, 5, b);
    Modulo125(b);
    PowOfPow(1048576, 5, c);
    Modulo625(c);
    FourFives(n, c);
  }

  lemma FourFives(n: nat, c: nat)
    requires n == 100 * c && c % 5 == 0
    ensures n % 500 == 0
  {}

  lemma Modulo25(a: nat)
    requires Pow(16, a) % 625 == 1
    ensures a % 5 == 0
  {
    hide Pow;
    SmallPowers();
    Smaller(Pow(16, a));
    EveryFifth(16, a, 25);
  }

  lemma Modulo125(b: nat)
    requires Pow(1048576, b) % 625 == 1
    ensures b % 5 == 0
  {
    hide Pow;
    SmallPowers();
    Smaller(Pow(1048576, b));
    EveryFifthOf(1048576, 76, b, 125);
  }

  lemma Modulo625(c: nat)
    requires Pow(Pow(1048576, 5), c) % 625 == 1
    ensures c % 5 == 0
  {
    hide Pow;
    SmallPowers();
    PowModulo(1048576, 5, 625);
    EveryFifthOf(Pow(1048576, 5), 376, c, 625);
  }

  lemma Smaller(p: nat)
    requires p % 625 == 1
    ensures p % 125 == 1 && p % 25 == 1 && p % 5 == 1
  {}

  lemma SmallPowers()
    ensures Pow(2, 4) == 16
    ensures Pow(16, 5) == 1048576 && Pow(16, 5) % 25 == 1 && forall r | 1 <= r < 5 :: Pow(16, r) % 25 != 1
    ensures Pow(76, 5) % 125 == 1 && forall r | 1 <= r < 5 :: Pow(76, r) % 125 != 1
    ensures Pow(376, 5) % 625 == 1 && forall r | 1 <= r < 5 :: Pow(376, r) % 625 != 1
    ensures Pow(1048576 % 625, 5) % 625 == 376
  {
    FirstPowers(16);
    FirstPowers(76);
    FirstPowers(376);
    FirstPowers(451);
  }

  lemma FirstPowers(b: nat)
    ensures Pow(b, 1) == b && Pow(b, 2) == b * b && Pow(b, 3) == b * (b * b) && Pow(b, 4) == b * (b * (b * b))
    ensures Pow(b, 5) == b * (b * (b * (b * b)))
  {
    assert Pow(b, 0) == 1;
  }

  lemma FourthPower(n: nat)
    requires Pow(2, n) % 625 == 1
    ensures n % 4 == 0
  {
    var q, r := n / 4, n % 4;
    PowAdd(2, 4 * q, r);
    PowOfPow(2, 4, q);
    assert Pow(2, 4) == 16 && Pow(2, 0) == 1 && Pow(2, 1) == 2 && Pow(2, 2) == 4 && Pow(2, 3) == 8;
    hide Pow;
    Smaller(Pow(2, n));
    PowModulo(16, q, 5);
    OnePower(q);
    MulModulo(Pow(2, 4 * q), Pow(2, r), 5);
  }

  /** Factors of two do not help a multiple of 625. */
  lemma {:induction false} OnlyFives(a: nat, n: nat)
    requires (a * Pow(2, n)) % 625 == 0
    ensures a % 625 == 0
    decreases n
  {
    if n > 0 {
      MulAssoc(a, 2, Pow(2, n - 1));
      OnlyFives(a * 2, n - 1);
    }
  }
}
