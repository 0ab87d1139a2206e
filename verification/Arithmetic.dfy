/** Products kept out of the way of proofs: offsets by repeated addition, and a product of reals
    under a name. */
module Arithmetic {
  /** n times k, by repeated addition. */
  function Times(n: nat, k: nat): nat {
    if n == 0 then 0 else Times(n - 1, k) + k
  }

  lemma {:induction false} Product(n: nat, k: nat)
    ensures Times(n, k) == n * k
  {
    if n == 0 {
    } else {
      Product(n - 1, k);
      assert n * k == (n - 1) * k + k;
    }
  }

  lemma {:induction false} TimesAdds(n: nat, m: nat, k: nat)
    ensures Times(n + m, k) == Times(n, k) + Times(m, k)
  {
    if m == 0 {
    } else {
      TimesAdds(n, m - 1, k);
    }
  }

  lemma TimesGrows(n: nat, m: nat, k: nat)
    requires n <= m
    ensures Times(n, k) <= Times(m, k)
  {
    TimesAdds(n, m - n, k);
  }

  /** Rows of k elements do not overlap. */
  lemma RowsApart(i: nat, j: nat, k: nat)
    requires i < j
    ensures Times(i, k) + k <= Times(j, k)
  {
    TimesAdds(i + 1, j - i - 1, k);
  }

  /** The offset of row n of rows of k elements. */
  method Offset(n: nat, k: nat) returns (p: nat)
    ensures p == Times(n, k)
  {
    Product(n, k);
    p := n * k;
  }

  lemma MulAtLeast(d: nat, m: int)
    requires m >= 1
    ensures d * m >= d
  {
    assert d * m == d * (m - 1) + d;
  }

  /** The only multiple of d from 0 up to, not including, d is 0. */
  lemma SmallMultiple(d: nat, m: int)
    requires d > 0 && 0 <= d * m < d
    ensures m == 0
  {
    if m >= 1 {
      MulAtLeast(d, m);
    }
    if m <= -1 {
      MulAtLeast(d, -m);
    }
  }

  /** Division is determined by its equation. */
  lemma RemainderIs(v: int, b: int, q: int, r: int)
    requires b > 0 && v == b * q + r && 0 <= r < b
    ensures v % b == r && v / b == q
  {
    var x, y := v / b, v % b;
    assert v == b * x + y && 0 <= y < b;
    assert b * (q - x) == y - r;
    if q - x >= 1 {
      MulAtLeast(b, q - x);
    }
    if q - x <= -1 {
      MulAtLeast(b, x - q);
    }
  }

  /** a / c, by repeated subtraction. */
  function Quotient(a: nat, c: nat): nat
    requires c > 0
  {
    if a < c then 0 else 1 + Quotient(a - c, c)
  }

  lemma {:induction false} QuotientBounds(a: nat, c: nat)
    requires c > 0
    ensures Times(Quotient(a, c), c) <= a < Times(Quotient(a, c), c) + c
  {
    if a >= c {
      QuotientBounds(a - c, c);
    }
  }

  lemma QuotientIs(a: nat, c: nat)
    requires c > 0
    ensures Quotient(a, c) == a / c
  {
    var q := Quotient(a, c);
    QuotientBounds(a, c);
    Product(q, c);
    RemainderIs(a, c, q, a - q * c);
  }

  function Scale(s: real, x: real): real {
    s * x
  }

  /** The sum of a sequence. */
  function Total(xs: seq<real>): real {
    if xs == [] then 0.0 else xs[0] + Total(xs[1..])
  }

  lemma {:induction false} TotalConcat(xs: seq<real>, ys: seq<real>)
    ensures Total(xs + ys) == Total(xs) + Total(ys)
  {
    if xs == [] {
      assert xs + ys == ys;
    } else {
      assert (xs + ys)[1..] == xs[1..] + ys;
      TotalConcat(xs[1..], ys);
    }
  }

  lemma TotalGrows(xs: seq<real>, n: nat)
    requires n < |xs|
    ensures Total(xs[..n + 1]) == Total(xs[..n]) + xs[n]
  {
    assert xs[..n + 1] == xs[..n] + [xs[n]];
    TotalConcat(xs[..n], [xs[n]]);
    assert Total([xs[n]]) == xs[n] + Total([]);
  }
}
