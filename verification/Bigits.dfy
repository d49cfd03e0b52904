/** Little-endian sequences of 32-bit "big digits" and the number they denote. */
module Bigits {
  import opened Arith

  const BASE: nat := 0x1_0000_0000
  const BIGIT_BITS: nat := 32

  type bigit = x: nat | x < BASE

  /** The weight of position n. */
  function Weight(n: nat): (w: nat)
    ensures w > 0
  {
    PowPositive(BASE, n);
    Pow(BASE, n)
  }

  function ToNat(s: seq<bigit>): nat
  {
    if |s| == 0 then 0 else ToNat(s[..|s| - 1]) + s[|s| - 1] * Weight(|s| - 1)
  }

  function Zeros(n: nat): (s: seq<bigit>)
    ensures |s| == n
  {
    seq(n, _ => 0)
  }

  lemma WeightAdd(m: nat, n: nat)
    ensures Weight(m + n) == Weight(m) * Weight(n)
  {
    PowAdd(BASE, m, n);
  }

  lemma WeightSucc(n: nat)
    ensures Weight(n + 1) == BASE * Weight(n)
  {}

  lemma WeightMonotonic(m: nat, n: nat)
    requires m <= n
    ensures Weight(m) <= Weight(n)
  {
    PowMonotonic(BASE, m, n);
  }

  lemma WeightIsPow2(n: nat)
    ensures Weight(n) == Pow(2, 32 * n)
  {
    assert Pow(2, 32) == BASE by { Pow2Of32(); }
    PowOfPow(2, 32, n);
  }

  lemma Pow2Of32()
    ensures Pow(2, 32) == BASE
    ensures Pow(2, 8) == 0x100 && Pow(2, 16) == 0x1_0000
  {
    assert Pow(2, 8) == 0x100;
    PowAdd(2, 8, 8);
    PowAdd(2, 16, 16);
  }

  lemma ToNatSnoc(s: seq<bigit>, d: bigit)
    ensures ToNat(s + [d]) == ToNat(s) + d * Weight(|s|)
  {
    assert (s + [d])[..|s|] == s;
  }

  lemma {:induction false} ToNatBound(s: seq<bigit>)
    ensures ToNat(s) < Weight(|s|)
  {
    if |s| > 0 {
      var n := |s| - 1;
      ToNatBound(s[..n]);
      MulMonotonic(s[n], BASE - 1, Weight(n));
      WeightSucc(n);
    }
  }

  lemma {:induction false} ToNatConcat(a: seq<bigit>, b: seq<bigit>)
    ensures ToNat(a + b) == ToNat(a) + Weight(|a|) * ToNat(b)
  {
    if |b| == 0 {
      assert a + b == a;
    } else {
      var n := |b| - 1;
      var x, w := b[n], Weight(|a|);
      assert a + b == (a + b[..n]) + [x];
      calc {
        ToNat(a + b);
      ==  { ToNatSnoc(a + b[..n], x); ToNatConcat(a, b[..n]); }
        ToNat(a) + w * ToNat(b[..n]) + x * Weight(|a| + n);
      ==  { WeightAdd(|a|, n); MulAssoc(x, w, Weight(n)); MulAssoc(w, x, Weight(n)); }
        ToNat(a) + w * ToNat(b[..n]) + w * (x * Weight(n));
      ==  { Distribute(w, ToNat(b[..n]), x * Weight(n)); }
        ToNat(a) + w * ToNat(b);
      }
    }
  }

  lemma ToNatSplit(s: seq<bigit>, k: nat)
    requires k <= |s|
    ensures ToNat(s) == ToNat(s[..k]) + Weight(k) * ToNat(s[k..])
  {
    assert s == s[..k] + s[k..];
    ToNatConcat(s[..k], s[k..]);
  }

  lemma {:induction false} ToNatZeros(n: nat)
    ensures ToNat(Zeros(n)) == 0
  {
    if n > 0 {
      assert Zeros(n) == Zeros(n - 1) + [0];
      ToNatZeros(n - 1);
      ToNatSnoc(Zeros(n - 1), 0);
    }
  }

  /** Only the all-zero sequence denotes zero. */
  lemma {:induction false} ToNatZeroIff(s: seq<bigit>)
    ensures ToNat(s) == 0 <==> forall i | 0 <= i < |s| :: s[i] == 0
  {
    if |s| > 0 {
      var n := |s| - 1;
      ToNatZeroIff(s[..n]);
      assert forall i | 0 <= i < n :: s[..n][i] == s[i];
      if s[n] > 0 {
        MulPositive(s[n], Weight(n));
      }
    }
  }

  /** The top bigit is nonzero exactly when the number needs all the bigits. */
  lemma TopNonzeroIff(s: seq<bigit>)
    requires |s| > 0
    ensures s[|s| - 1] != 0 <==> ToNat(s) >= Weight(|s| - 1)
  {
    var n := |s| - 1;
    ToNatBound(s[..n]);
    if s[n] != 0 {
      MulMonotonic(1, s[n], Weight(n));
    }
  }

  /** The highest position where two sequences differ decides their order. */
  lemma HigherBigitWins(a: seq<bigit>, b: seq<bigit>, i: nat)
    requires |a| == |b| && i < |a|
    requires a[i] < b[i] && a[i + 1..] == b[i + 1..]
    ensures ToNat(a) < ToNat(b)
  {
    hide Weight;
    ToNatSplit(a, i + 1);
    ToNatSplit(b, i + 1);
    assert a[..i + 1][..i] == a[..i] && b[..i + 1][..i] == b[..i];
    ToNatBound(a[..i]);
    HigherDigitWins(ToNat(a[..i]), a[i], ToNat(b[..i]), b[i], Weight(i));
  }

  lemma HigherDigitWins(x: nat, d: nat, y: nat, e: nat, w: nat)
    requires x < w && d < e
    ensures x + d * w < y + e * w
  {
    Distribute(w, 1, d);
    MulMonotonic(1 + d, e, w);
  }

  lemma {:induction false} ToNatInjective(a: seq<bigit>, b: seq<bigit>)
    requires |a| == |b| && ToNat(a) == ToNat(b)
    ensures a == b
  {
    if |a| > 0 {
      var n := |a| - 1;
      assert a[n + 1..] == b[n + 1..];
      if a[n] < b[n] {
        HigherBigitWins(a, b, n);
      } else if b[n] < a[n] {
        HigherBigitWins(b, a, n);
      } else {
        ToNatInjective(a[..n], b[..n]);
        assert a == a[..n] + [a[n]] && b == b[..n] + [b[n]];
      }
    }
  }

  // ---- One step of a carry loop

  /** lo and hi are the two halves of digit * factor + carry; the step keeps the running total. */
  lemma CarryStep(done: nat, seen: nat, w: nat, factor: nat, digit: nat, carry: nat, lo: nat, hi: nat)
    requires done + carry * w == seen * factor
    requires digit * factor + carry == lo + hi * BASE
    ensures done + lo * w + hi * (BASE * w) == (seen + digit * w) * factor
  {
    calc {
      done + lo * w + hi * (BASE * w);
    ==  { MulAssoc(hi, BASE, w); Distribute(w, lo, hi * BASE); }
      done + (lo + hi * BASE) * w;
    ==
      done + (digit * factor + carry) * w;
    ==  { Distribute(w, digit * factor, carry); }
      done + carry * w + (digit * factor) * w;
    ==  { MulAssoc(digit, factor, w); MulAssoc(digit, w, factor); }
      seen * factor + (digit * w) * factor;
    ==  { Distribute(factor, seen, digit * w); }
      (seen + digit * w) * factor;
    }
  }
}
