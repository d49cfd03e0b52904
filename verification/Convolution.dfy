/** Schoolbook multiplication column by column: the columns of a product sum to the product. */
module Convolution {
  import opened Arith
  import opened Bigits

  /** The contribution of x at position p times b to column k. */
  function Term(x: nat, p: nat, b: seq<bigit>, k: nat): nat
  {
    if p <= k && k - p < |b| then x * b[k - p] else 0
  }

  /** Column k of the product of a and b: the sum of a[i] * b[j] with i + j == k. */
  function Column(a: seq<bigit>, b: seq<bigit>, k: nat): nat
  {
    if |a| == 0 then 0
    else Column(a[..|a| - 1], b, k) + Term(a[|a| - 1], |a| - 1, b, k)
  }

  /** The weighted sum of the first n columns. */
  function Columns(a: seq<bigit>, b: seq<bigit>, n: nat): nat
  {
    if n == 0 then 0 else Columns(a, b, n - 1) + Column(a, b, n - 1) * Weight(n - 1)
  }

  function Terms(x: nat, p: nat, b: seq<bigit>, n: nat): nat
  {
    if n == 0 then 0 else Terms(x, p, b, n - 1) + Term(x, p, b, n - 1) * Weight(n - 1)
  }

  lemma {:induction false} TermsSum(x: nat, p: nat, b: seq<bigit>, n: nat)
    requires n <= p + |b|
    ensures Terms(x, p, b, n) == if n <= p then 0 else x * ToNat(b[..n - p]) * Weight(p)
  {
    if n > 0 {
      TermsSum(x, p, b, n - 1);
      if n > p {
        var m := n - 1 - p;
        var w := Weight(p);
        assert b[..n - p] == b[..m] + [b[m]];
        ToNatSnoc(b[..m], b[m]);
        WeightAdd(m, p);
        calc {
          x * ToNat(b[..n - p]) * w;
        ==  { Distribute(x, ToNat(b[..m]), b[m] * Weight(m)); }
          (x * ToNat(b[..m]) + x * (b[m] * Weight(m))) * w;
        ==  { Distribute(w, x * ToNat(b[..m]), x * (b[m] * Weight(m))); }
          x * ToNat(b[..m]) * w + x * (b[m] * Weight(m)) * w;
        ==  { MulAssoc(x, b[m], Weight(m)); MulAssoc(x * b[m], Weight(m), w); }
          x * ToNat(b[..m]) * w + (x * b[m]) * (Weight(m) * w);
        }
        if m == 0 {
          assert b[..m] == [];
        }
      }
    }
  }

  lemma {:induction false} ColumnsSnoc(a: seq<bigit>, x: bigit, b: seq<bigit>, n: nat)
    ensures Columns(a + [x], b, n) == Columns(a, b, n) + Terms(x, |a|, b, n)
  {
    if n > 0 {
      ColumnsSnoc(a, x, b, n - 1);
      assert (a + [x])[..|a|] == a;
      Distribute(Weight(n - 1), Column(a, b, n - 1), Term(x, |a|, b, n - 1));
    }
  }

  lemma {:induction false} ColumnsBeyond(a: seq<bigit>, b: seq<bigit>, m: nat, n: nat)
    requires |a| + |b| <= m <= n
    ensures Columns(a, b, n) == Columns(a, b, m)
  {
    if m < n {
      ColumnsBeyond(a, b, m, n - 1);
      ColumnBeyond(a, b, n - 1);
    }
  }

  lemma {:induction false} ColumnBeyond(a: seq<bigit>, b: seq<bigit>, k: nat)
    requires |a| + |b| <= k
    ensures Column(a, b, k) == 0
  {
    if |a| > 0 {
      ColumnBeyond(a[..|a| - 1], b, k);
    }
  }

  lemma {:induction false} ColumnsAreProduct(a: seq<bigit>, b: seq<bigit>)
    ensures Columns(a, b, |a| + |b|) == ToNat(a) * ToNat(b)
  {
    if |a| == 0 {
      EmptyColumns(b, |b|);
    } else {
      var n := |a| - 1;
      var x := a[n];
      assert a == a[..n] + [x];
      calc {
        Columns(a, b, |a| + |b|);
      ==  { ColumnsSnoc(a[..n], x, b, |a| + |b|); }
        Columns(a[..n], b, |a| + |b|) + Terms(x, n, b, |a| + |b|);
      ==  { ColumnsBeyond(a[..n], b, n + |b|, |a| + |b|); ColumnsAreProduct(a[..n], b); }
        ToNat(a[..n]) * ToNat(b) + Terms(x, n, b, |a| + |b|);
      ==  { TermsSum(x, n, b, n + |b|); assert b[..|b|] == b; }
        ToNat(a[..n]) * ToNat(b) + x * ToNat(b) * Weight(n);
      ==  { MulAssoc(x, ToNat(b), Weight(n)); MulAssoc(x, Weight(n), ToNat(b)); }
        ToNat(a[..n]) * ToNat(b) + x * Weight(n) * ToNat(b);
      ==  { Distribute(ToNat(b), ToNat(a[..n]), x * Weight(n)); }
        ToNat(a) * ToNat(b);
      }
    }
  }

  lemma {:induction false} EmptyColumns(b: seq<bigit>, n: nat)
    ensures Columns([], b, n) == 0
  {
    if n > 0 {
      EmptyColumns(b, n - 1);
    }
  }

  // ---- The two inner loops stop where the remaining terms vanish

  /** Rows past k do not reach column k. */
  lemma {:induction false} ColumnFromPrefix(a: seq<bigit>, b: seq<bigit>, k: nat, m: nat)
    requires k < m <= |a|
    ensures Column(a[..m], b, k) == Column(a[..k + 1], b, k)
  {
    if k + 1 < m {
      assert a[..m][..m - 1] == a[..m - 1];
      ColumnFromPrefix(a, b, k, m - 1);
    }
  }

  /** Rows that end before column k add nothing to it. */
  lemma {:induction false} ColumnSkipsPrefix(a: seq<bigit>, b: seq<bigit>, k: nat, m: nat)
    requires m <= |a| && m + |b| <= k + 1
    ensures Column(a[..m], b, k) == 0
  {
    if m > 0 {
      assert a[..m][..m - 1] == a[..m - 1];
      ColumnSkipsPrefix(a, b, k, m - 1);
    }
  }

  lemma ColumnStep(a: seq<bigit>, b: seq<bigit>, k: nat, m: nat)
    requires m < |a|
    ensures Column(a[..m + 1], b, k) == Column(a[..m], b, k) + Term(a[m], m, b, k)
  {
    assert a[..m + 1][..m] == a[..m];
  }

  /** A column is small enough for the accumulator: n terms, each a product of two bigits. */
  lemma {:induction false} ColumnBound(a: seq<bigit>, b: seq<bigit>, k: nat)
    ensures Column(a, b, k) <= |a| * ((BASE - 1) * (BASE - 1))
  {
    if |a| > 0 {
      var n := |a| - 1;
      ColumnBound(a[..n], b, k);
      if n <= k && k - n < |b| {
        MulMonotonic(a[n], BASE - 1, b[k - n]);
        MulMonotonic(b[k - n], BASE - 1, BASE - 1);
      }
    }
  }
}
