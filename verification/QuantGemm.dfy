/** The 4-bit matrix product of c/src/kernel.c in exact arithmetic: factoring the scale and the
    bias out of each group is the same as dequantizing first. */
module QuantGemm {
  import opened Arithmetic

  /** A quantized row: unsigned 32-bit words of eight nibbles, and a scale and a bias for each group. */
  datatype Row = Row(words: seq<nat>, scales: seq<real>, biases: seq<real>)

  /** The row has the given number of groups of gw words each. */
  ghost predicate Shaped(r: Row, groups: nat, gw: nat) {
    |r.scales| == groups && |r.biases| == groups && |r.words| == Times(groups, gw)
  }

  /** Digit i of a word in base 16: `(v >> (4 * i)) & 0xF` of an unsigned word. */
  function Digit(v: nat, i: nat): (d: nat)
    ensures d < 16
  {
    if i == 0 then v % 16 else Digit(v / 16, i - 1)
  }

  function Nibble(v: nat, i: nat): real {
    Digit(v, i) as real
  }

  /** A word packed from nibbles, the first one in its lowest four bits. */
  function Packed(q: seq<nat>): nat {
    if q == [] then 0 else q[0] + 16 * Packed(q[1..])
  }

  lemma PackedSplits(low: nat, rest: nat)
    requires low < 16
    ensures (low + 16 * rest) % 16 == low && (low + 16 * rest) / 16 == rest
  {
  }

  /** Nibble i of a packed word is the i-th one packed. */
  lemma {:induction false} PackedNibbles(q: seq<nat>, i: nat)
    requires i < |q| && forall k :: 0 <= k < |q| ==> q[k] < 16
    ensures Digit(Packed(q), i) == q[i]
  {
    PackedSplits(q[0], Packed(q[1..]));
    if i == 0 {
    } else {
      PackedNibbles(q[1..], i - 1);
    }
  }

  // ----- dequantized rows

  /** The nibbles of group g, word by word. */
  function Nibbles(r: Row, groups: nat, gw: nat, g: nat): (q: seq<real>)
    requires Shaped(r, groups, gw) && g < groups
    ensures |q| == 8 * gw
  {
    TimesGrows(g + 1, groups, gw);
    seq(8 * gw, j requires 0 <= j < 8 * gw => Nibble(r.words[Times(g, gw) + j / 8], j % 8))
  }

  /** The values of group g. */
  function GroupValues(r: Row, groups: nat, gw: nat, g: nat): (q: seq<real>)
    requires Shaped(r, groups, gw) && g < groups
    ensures |q| == 8 * gw
  {
    var q := Nibbles(r, groups, gw, g);
    seq(8 * gw, j requires 0 <= j < 8 * gw => q[j] * r.scales[g] + r.biases[g])
  }

  /** The values of the first n groups: what kernel_dequant_q4 writes. */
  function RowValues(r: Row, groups: nat, gw: nat, n: nat): (q: seq<real>)
    requires Shaped(r, groups, gw) && n <= groups
    ensures |q| == Times(n, 8 * gw)
  {
    if n == 0 then [] else RowValues(r, groups, gw, n - 1) + GroupValues(r, groups, gw, n - 1)
  }

  // ----- sums

  function SumOf(xs: seq<real>, n: nat): real
    requires n <= |xs|
  {
    if n == 0 then 0.0 else SumOf(xs, n - 1) + xs[n - 1]
  }

  /** The products of b with the elements of a from off on. */
  function Products(a: seq<real>, off: nat, b: seq<real>): (p: seq<real>)
    requires off + |b| <= |a|
    ensures |p| == |b|
  {
    seq(|b|, j requires 0 <= j < |b| => Scale(a[off + j], b[j]))
  }

  function Dot(a: seq<real>, off: nat, b: seq<real>): real
    requires off + |b| <= |a|
  {
    SumOf(Products(a, off, b), |b|)
  }

  /** What a group adds to acc: scale * xq + bias * xsum. */
  function GroupTerm(a: seq<real>, off: nat, r: Row, groups: nat, gw: nat, g: nat): real
    requires Shaped(r, groups, gw) && g < groups && off + 8 * gw <= |a|
  {
    Scale(r.scales[g], Dot(a, off, Nibbles(r, groups, gw, g))) + Scale(r.biases[g], SumOf(a[off..off + 8 * gw], 8 * gw))
  }

  /** acc after n groups. */
  function Factored(a: seq<real>, r: Row, groups: nat, gw: nat, n: nat): real
    requires Shaped(r, groups, gw) && n <= groups && |a| == Times(groups, 8 * gw)
  {
    if n == 0 then 0.0
    else
      TimesGrows(n, groups, 8 * gw);
      Factored(a, r, groups, gw, n - 1) + GroupTerm(a, Times(n - 1, 8 * gw), r, groups, gw, n - 1)
  }

  // ----- the factored sum is the dot product with the dequantized row

  ghost predicate Combined(d: seq<real>, p: seq<real>, q: seq<real>, s: real, b: real) {
    |p| == |q| == |d| && forall j :: 0 <= j < |d| ==> d[j] == s * p[j] + b * q[j]
  }

  /** A common factor of two terms comes out of a sum. */
  lemma {:induction false} CombinedSum(d: seq<real>, p: seq<real>, q: seq<real>, s: real, b: real, n: nat)
    requires n <= |d| && Combined(d, p, q, s, b)
    ensures SumOf(d, n) == Scale(s, SumOf(p, n)) + Scale(b, SumOf(q, n))
  {
    if n == 0 {
    } else {
      CombinedSum(d, p, q, s, b, n - 1);
      var x, y := SumOf(p, n - 1), SumOf(q, n - 1);
      assert s * SumOf(p, n) == s * x + s * p[n - 1];
      assert b * SumOf(q, n) == b * y + b * q[n - 1];
    }
  }

  lemma Affine(x: real, n: real, s: real, b: real)
    ensures Scale(x, n * s + b) == s * Scale(x, n) + b * x
  {
  }

  lemma GroupProducts(a: seq<real>, off: nat, nibbles: seq<real>, values: seq<real>, s: real, b: real)
    requires |values| == |nibbles| && off + |nibbles| <= |a|
    requires forall j :: 0 <= j < |nibbles| ==> values[j] == nibbles[j] * s + b
    ensures Combined(Products(a, off, values), Products(a, off, nibbles), a[off..off + |nibbles|], s, b)
  {
    var d, p, q := Products(a, off, values), Products(a, off, nibbles), a[off..off + |nibbles|];
    forall j | 0 <= j < |nibbles| ensures d[j] == s * p[j] + b * q[j] {
      Affine(a[off + j], nibbles[j], s, b);
    }
  }

  lemma GroupSum(a: seq<real>, off: nat, nibbles: seq<real>, values: seq<real>, s: real, b: real)
    requires |values| == |nibbles| && off + |nibbles| <= |a|
    requires forall j :: 0 <= j < |nibbles| ==> values[j] == nibbles[j] * s + b
    ensures Dot(a, off, values) == Scale(s, Dot(a, off, nibbles)) + Scale(b, SumOf(a[off..off + |nibbles|], |nibbles|))
  {
    GroupProducts(a, off, nibbles, values, s, b);
    CombinedSum(Products(a, off, values), Products(a, off, nibbles), a[off..off + |nibbles|], s, b, |nibbles|);
  }

  /** The dot product with the values of a group. */
  lemma GroupFactors(a: seq<real>, off: nat, r: Row, groups: nat, gw: nat, g: nat)
    requires Shaped(r, groups, gw) && g < groups && off + 8 * gw <= |a|
    ensures Dot(a, off, GroupValues(r, groups, gw, g)) == GroupTerm(a, off, r, groups, gw, g)
  {
    GroupSum(a, off, Nibbles(r, groups, gw, g), GroupValues(r, groups, gw, g), r.scales[g], r.biases[g]);
  }

  lemma {:induction false} SumAppend(x: seq<real>, y: seq<real>, n: nat)
    requires n <= |y|
    ensures SumOf(x + y, |x| + n) == SumOf(x, |x|) + SumOf(y, n)
  {
    if n == 0 {
      SumPrefix(x + y, x, |x|);
    } else {
      SumAppend(x, y, n - 1);
    }
  }

  lemma {:induction false} SumPrefix(x: seq<real>, y: seq<real>, n: nat)
    requires n <= |x| && n <= |y| && forall j :: 0 <= j < n ==> x[j] == y[j]
    ensures SumOf(x, n) == SumOf(y, n)
  {
    if n == 0 {
    } else {
      SumPrefix(x, y, n - 1);
    }
  }

  lemma ProductsAppend(a: seq<real>, off: nat, b: seq<real>, c: seq<real>)
    requires off + |b| + |c| <= |a|
    ensures Products(a, off, b + c) == Products(a, off, b) + Products(a, off + |b|, c)
  {
    var p, q := Products(a, off, b + c), Products(a, off, b) + Products(a, off + |b|, c);
    forall j | 0 <= j < |p| ensures p[j] == q[j] {
      assert (b + c)[j] == if j < |b| then b[j] else c[j - |b|];
    }
  }

  lemma DotAppend(a: seq<real>, off: nat, b: seq<real>, c: seq<real>)
    requires off + |b| + |c| <= |a|
    ensures Dot(a, off, b + c) == Dot(a, off, b) + Dot(a, off + |b|, c)
  {
    ProductsAppend(a, off, b, c);
    SumAppend(Products(a, off, b), Products(a, off + |b|, c), |c|);
  }

  lemma RowDotNext(a: seq<real>, r: Row, groups: nat, gw: nat, g: nat)
    requires Shaped(r, groups, gw) && g < groups && |a| == Times(groups, 8 * gw)
    ensures Times(g, 8 * gw) + 8 * gw <= |a|
    ensures Dot(a, 0, RowValues(r, groups, gw, g + 1)) ==
              Dot(a, 0, RowValues(r, groups, gw, g)) + GroupTerm(a, Times(g, 8 * gw), r, groups, gw, g)
  {
    TimesGrows(g + 1, groups, 8 * gw);
    GroupFactors(a, Times(g, 8 * gw), r, groups, gw, g);
    DotAppend(a, 0, RowValues(r, groups, gw, g), GroupValues(r, groups, gw, g));
  }

  /** One more group of the factored form. */
  lemma FactoredTerm(a: seq<real>, r: Row, groups: nat, gw: nat, g: nat)
    requires Shaped(r, groups, gw) && g < groups && |a| == Times(groups, 8 * gw)
    ensures Times(g, 8 * gw) + 8 * gw <= |a|
    ensures Factored(a, r, groups, gw, g + 1) ==
              Factored(a, r, groups, gw, g) + GroupTerm(a, Times(g, 8 * gw), r, groups, gw, g)
  {
    TimesGrows(g + 1, groups, 8 * gw);
  }

  /** The form of FactoredIsDot for n groups. */
  ghost predicate FactoredAgrees(a: seq<real>, r: Row, groups: nat, gw: nat, n: nat)
    requires Shaped(r, groups, gw) && n <= groups && |a| == Times(groups, 8 * gw)
  {
    Times(n, 8 * gw) <= |a| && Factored(a, r, groups, gw, n) == Dot(a, 0, RowValues(r, groups, gw, n))
  }

  lemma FactoredAgreesNext(a: seq<real>, r: Row, groups: nat, gw: nat, g: nat)
    requires Shaped(r, groups, gw) && g < groups && |a| == Times(groups, 8 * gw)
    requires FactoredAgrees(a, r, groups, gw, g)
    ensures FactoredAgrees(a, r, groups, gw, g + 1)
  {
    TimesGrows(g + 1, groups, 8 * gw);
    FactoredTerm(a, r, groups, gw, g);
    RowDotNext(a, r, groups, gw, g);
  }

  lemma FactoredAgreesFirst(a: seq<real>, r: Row, groups: nat, gw: nat)
    requires Shaped(r, groups, gw) && |a| == Times(groups, 8 * gw)
    ensures FactoredAgrees(a, r, groups, gw, 0)
  {
  }

  lemma {:induction false} FactoredAlwaysAgrees(a: seq<real>, r: Row, groups: nat, gw: nat, n: nat)
    requires Shaped(r, groups, gw) && n <= groups && |a| == Times(groups, 8 * gw)
    ensures FactoredAgrees(a, r, groups, gw, n)
  {
    if n == 0 {
      FactoredAgreesFirst(a, r, groups, gw);
    } else {
      FactoredAlwaysAgrees(a, r, groups, gw, n - 1);
      FactoredAgreesNext(a, r, groups, gw, n - 1);
    }
  }

  /** The factored form is the dot product with the dequantized row. */
  lemma FactoredIsDot(a: seq<real>, r: Row, groups: nat, gw: nat, n: nat)
    requires Shaped(r, groups, gw) && n <= groups && |a| == Times(groups, 8 * gw)
    ensures Times(n, 8 * gw) <= |a| && Factored(a, r, groups, gw, n) == Dot(a, 0, RowValues(r, groups, gw, n))
  {
    FactoredAlwaysAgrees(a, r, groups, gw, n);
  }

  // ----- kernel_dequant_q4

  /** Nibble i of word w is entry 8 * w + i of the group. */
  lemma NibblePlace(w: nat, i: nat)
    requires i < 8
    ensures (8 * w + i) / 8 == w && (8 * w + i) % 8 == i
  {
  }

  /** The innermost loop: the eight values of a word of group g. */
  method DequantWord(r: Row, groups: nat, gw: nat, g: nat, w: nat, v: nat, out: array<real>, start: nat)
    requires Shaped(r, groups, gw) && g < groups && w < gw && start + 8 * gw <= out.Length
    requires Times(g, gw) + w < |r.words| && v == r.words[Times(g, gw) + w]
    modifies out
    ensures out[..start + 8 * (w + 1)] == old(out[..start + 8 * w]) + GroupValues(r, groups, gw, g)[8 * w..8 * (w + 1)]
  {
    ghost var values := GroupValues(r, groups, gw, g);
    for i := 0 to 8
      invariant out[..start + 8 * w] == old(out[..start + 8 * w])
      invariant forall j :: 8 * w <= j < 8 * w + i ==> out[start + j] == values[j]
    {
      NibblePlace(w, i);
      out[start + w * 8 + i] := Nibble(v, i) * r.scales[g] + r.biases[g];
    }
    assert out[..start + 8 * (w + 1)] == out[..start + 8 * w] + values[8 * w..8 * (w + 1)];
  }

  /** The two inner loops: the values of group g go to out[start..]. */
  method DequantGroup(r: Row, groups: nat, gw: nat, g: nat, out: array<real>, start: nat)
    requires Shaped(r, groups, gw) && g < groups && start + 8 * gw <= out.Length
    modifies out
    ensures out[..start + 8 * gw] == old(out[..start]) + GroupValues(r, groups, gw, g)
  {
    ghost var values := GroupValues(r, groups, gw, g);
    TimesGrows(g + 1, groups, gw);
    var word := Offset(g, gw);
    for w := 0 to gw
      invariant out[..start + 8 * w] == old(out[..start]) + values[..8 * w]
    {
      DequantWord(r, groups, gw, g, w, r.words[word + w], out, start);
    }
    assert values[..8 * gw] == values;
  }

  /** `kernel_dequant_q4` for one row. */
  method DequantRow(r: Row, groups: nat, gw: nat) returns (out: array<real>)
    requires Shaped(r, groups, gw)
    ensures fresh(out) && out[..] == RowValues(r, groups, gw, groups)
  {
    var size := Offset(groups, 8 * gw);
    out := new real[size](_ => 0.0);
    for g := 0 to groups
      invariant Times(g, 8 * gw) <= out.Length && out[..Times(g, 8 * gw)] == RowValues(r, groups, gw, g)
    {
      var start := Offset(g, 8 * gw);
      TimesGrows(g + 1, groups, 8 * gw);
      DequantGroup(r, groups, gw, g, out, start);
    }
    assert out[..out.Length] == out[..];
  }

  // ----- what a dequantized row and a product are, in numbers

  lemma {:induction false} GroupInRow(r: Row, groups: nat, gw: nat, n: nat, g: nat, j: nat)
    requires Shaped(r, groups, gw) && g < n <= groups && j < 8 * gw
    ensures Times(g, 8 * gw) + j < |RowValues(r, groups, gw, n)|
    ensures RowValues(r, groups, gw, n)[Times(g, 8 * gw) + j] == GroupValues(r, groups, gw, g)[j]
  {
    if g == n - 1 {
    } else {
      GroupInRow(r, groups, gw, n - 1, g, j);
    }
  }

  lemma GroupValuesAt(r: Row, groups: nat, gw: nat, g: nat, w: nat, i: nat)
    requires Shaped(r, groups, gw) && g < groups && w < gw && i < 8
    ensures Times(g, gw) + w < |r.words|
    ensures GroupValues(r, groups, gw, g)[8 * w + i] == Digit(r.words[Times(g, gw) + w], i) as real * r.scales[g] + r.biases[g]
  {
    TimesGrows(g + 1, groups, gw);
    NibblePlace(w, i);
  }

  /** Value 8 * w + i of group g is nibble i of the group's word w, times the scale of the group, plus
      its bias; the groups follow each other. */
  lemma RowValuesAt(r: Row, groups: nat, gw: nat, g: nat, w: nat, i: nat)
    requires Shaped(r, groups, gw) && g < groups && w < gw && i < 8
    ensures Times(g, gw) + w < |r.words| && Times(g, 8 * gw) + (8 * w + i) < |RowValues(r, groups, gw, groups)|
    ensures RowValues(r, groups, gw, groups)[Times(g, 8 * gw) + (8 * w + i)]
            == Digit(r.words[Times(g, gw) + w], i) as real * r.scales[g] + r.biases[g]
  {
    GroupInRow(r, groups, gw, groups, g, 8 * w + i);
    GroupValuesAt(r, groups, gw, g, w, i);
  }

  /** A dot product is zero for nothing, and one more value adds one product. */
  lemma DotGrows(a: seq<real>, b: seq<real>, y: real)
    requires |b| < |a|
    ensures Dot(a, 0, []) == 0.0
    ensures Dot(a, 0, b + [y]) == Dot(a, 0, b) + a[|b|] * y
  {
    DotAppend(a, 0, b, [y]);
    assert Products(a, |b|, [y]) == [Scale(a[|b|], y)];
    assert SumOf([Scale(a[|b|], y)], 1) == SumOf([Scale(a[|b|], y)], 0) + Scale(a[|b|], y);
  }

  // ----- gemm_q4

  /** The products that xq of an output sums up for group g. */
  function GroupProductsOf(a: seq<real>, r: Row, groups: nat, gw: nat, g: nat): (p: seq<real>)
    requires Shaped(r, groups, gw) && g < groups && |a| == Times(groups, 8 * gw)
    ensures |p| == 8 * gw
  {
    TimesGrows(g + 1, groups, 8 * gw);
    Products(a, Times(g, 8 * gw), Nibbles(r, groups, gw, g))
  }

  /** The product for nibble i of word w. */
  lemma ProductOf(a: seq<real>, r: Row, groups: nat, gw: nat, g: nat, w: nat, i: nat)
    requires Shaped(r, groups, gw) && g < groups && |a| == Times(groups, 8 * gw) && w < gw && i < 8
    ensures Times(g, gw) + w < |r.words| && Times(g, 8 * gw) + w * 8 + i < |a|
    ensures GroupProductsOf(a, r, groups, gw, g)[8 * w + i] ==
              Scale(a[Times(g, 8 * gw) + w * 8 + i], Nibble(r.words[Times(g, gw) + w], i))
  {
    TimesGrows(g + 1, groups, 8 * gw);
    TimesGrows(g + 1, groups, gw);
    NibblePlace(w, i);
  }

  /** One more product is added to xq. */
  method AddProduct(a: seq<real>, r: Row, groups: nat, gw: nat, g: nat, w: nat, i: nat, word: nat, start: nat, xq: real)
    returns (sum: real)
    requires Shaped(r, groups, gw) && g < groups && |a| == Times(groups, 8 * gw) && w < gw && i < 8
    requires word == Times(g, gw) && start == Times(g, 8 * gw)
    requires xq == SumOf(GroupProductsOf(a, r, groups, gw, g), 8 * w + i)
    ensures sum == SumOf(GroupProductsOf(a, r, groups, gw, g), 8 * w + i + 1)
  {
    ProductOf(a, r, groups, gw, g, w, i);
    sum := xq + Scale(a[start + w * 8 + i], Nibble(r.words[word + w], i));
  }

  /** The eight products of one word are added to xq. */
  method AddWord(a: seq<real>, r: Row, groups: nat, gw: nat, g: nat, w: nat, word: nat, start: nat, x: real) returns (xq: real)
    requires Shaped(r, groups, gw) && g < groups && |a| == Times(groups, 8 * gw) && w < gw
    requires word == Times(g, gw) && start == Times(g, 8 * gw)
    requires x == SumOf(GroupProductsOf(a, r, groups, gw, g), 8 * w)
    ensures xq == SumOf(GroupProductsOf(a, r, groups, gw, g), 8 * (w + 1))
  {
    xq := x;
    for i := 0 to 8
      invariant xq == SumOf(GroupProductsOf(a, r, groups, gw, g), 8 * w + i)
    {
      xq := AddProduct(a, r, groups, gw, g, w, i, word, start, xq);
    }
  }

  /** xq of one output for group g. */
  method GroupXq(a: seq<real>, r: Row, groups: nat, gw: nat, g: nat) returns (xq: real)
    requires Shaped(r, groups, gw) && g < groups && |a| == Times(groups, 8 * gw)
    ensures xq == SumOf(GroupProductsOf(a, r, groups, gw, g), 8 * gw)
  {
    xq := 0.0;
    var word := Offset(g, gw);
    var start := Offset(g, 8 * gw);
    ghost var p := GroupProductsOf(a, r, groups, gw, g);
    for w := 0 to gw
      invariant xq == SumOf(p, 8 * w)
    {
      xq := AddWord(a, r, groups, gw, g, w, word, start, xq);
    }
  }

  /** x0 to x3 are the sums of the first n products of four outputs. */
  ghost predicate Sums4(a: seq<real>, r0: Row, r1: Row, r2: Row, r3: Row, groups: nat, gw: nat, g: nat, n: nat,
                        x0: real, x1: real, x2: real, x3: real)
    requires Shaped(r0, groups, gw) && Shaped(r1, groups, gw) && Shaped(r2, groups, gw) && Shaped(r3, groups, gw)
    requires g < groups && |a| == Times(groups, 8 * gw) && n <= 8 * gw
  {
    && x0 == SumOf(GroupProductsOf(a, r0, groups, gw, g), n) && x1 == SumOf(GroupProductsOf(a, r1, groups, gw, g), n)
    && x2 == SumOf(GroupProductsOf(a, r2, groups, gw, g), n) && x3 == SumOf(GroupProductsOf(a, r3, groups, gw, g), n)
  }

  /** One product more for each of four outputs. */
  method AddProduct4(a: seq<real>, r0: Row, r1: Row, r2: Row, r3: Row, groups: nat, gw: nat, g: nat, w: nat, i: nat,
                     word: nat, start: nat, x0: real, x1: real, x2: real, x3: real)
    returns (xq0: real, xq1: real, xq2: real, xq3: real)
    requires Shaped(r0, groups, gw) && Shaped(r1, groups, gw) && Shaped(r2, groups, gw) && Shaped(r3, groups, gw)
    requires g < groups && |a| == Times(groups, 8 * gw) && w < gw && i < 8
    requires word == Times(g, gw) && start == Times(g, 8 * gw)
    requires Sums4(a, r0, r1, r2, r3, groups, gw, g, 8 * w + i, x0, x1, x2, x3)
    ensures Sums4(a, r0, r1, r2, r3, groups, gw, g, 8 * w + i + 1, xq0, xq1, xq2, xq3)
  {
    xq0 := AddProduct(a, r0, groups, gw, g, w, i, word, start, x0);
    xq1 := AddProduct(a, r1, groups, gw, g, w, i, word, start, x1);
    xq2 := AddProduct(a, r2, groups, gw, g, w, i, word, start, x2);
    xq3 := AddProduct(a, r3, groups, gw, g, w, i, word, start, x3);
  }

  /** The products of one word for each of four outputs. */
  method AddWord4(a: seq<real>, r0: Row, r1: Row, r2: Row, r3: Row, groups: nat, gw: nat, g: nat, w: nat,
                  word: nat, start: nat, x0: real, x1: real, x2: real, x3: real)
    returns (xq0: real, xq1: real, xq2: real, xq3: real)
    requires Shaped(r0, groups, gw) && Shaped(r1, groups, gw) && Shaped(r2, groups, gw) && Shaped(r3, groups, gw)
    requires g < groups && |a| == Times(groups, 8 * gw) && w < gw
    requires word == Times(g, gw) && start == Times(g, 8 * gw)
    requires Sums4(a, r0, r1, r2, r3, groups, gw, g, 8 * w, x0, x1, x2, x3)
    ensures Sums4(a, r0, r1, r2, r3, groups, gw, g, 8 * (w + 1), xq0, xq1, xq2, xq3)
  {
    xq0, xq1, xq2, xq3 := x0, x1, x2, x3;
    for i := 0 to 8
      invariant Sums4(a, r0, r1, r2, r3, groups, gw, g, 8 * w + i, xq0, xq1, xq2, xq3)
    {
      xq0, xq1, xq2, xq3 := AddProduct4(a, r0, r1, r2, r3, groups, gw, g, w, i, word, start, xq0, xq1, xq2, xq3);
    }
  }

  /** xq of four outputs at once. */
  method GroupXq4(a: seq<real>, r0: Row, r1: Row, r2: Row, r3: Row, groups: nat, gw: nat, g: nat)
    returns (xq0: real, xq1: real, xq2: real, xq3: real)
    requires Shaped(r0, groups, gw) && Shaped(r1, groups, gw) && Shaped(r2, groups, gw) && Shaped(r3, groups, gw)
    requires g < groups && |a| == Times(groups, 8 * gw)
    ensures Sums4(a, r0, r1, r2, r3, groups, gw, g, 8 * gw, xq0, xq1, xq2, xq3)
  {
    xq0, xq1, xq2, xq3 := 0.0, 0.0, 0.0, 0.0;
    var word := Offset(g, gw);
    var start := Offset(g, 8 * gw);
    for w := 0 to gw
      invariant Sums4(a, r0, r1, r2, r3, groups, gw, g, 8 * w, xq0, xq1, xq2, xq3)
    {
      xq0, xq1, xq2, xq3 := AddWord4(a, r0, r1, r2, r3, groups, gw, g, w, word, start, xq0, xq1, xq2, xq3);
    }
  }

  /** xsum of group g. */
  function GroupSumOf(a: seq<real>, groups: nat, gw: nat, g: nat): real
    requires g < groups && |a| == Times(groups, 8 * gw)
  {
    TimesGrows(g + 1, groups, 8 * gw);
    SumOf(a[Times(g, 8 * gw)..Times(g, 8 * gw) + 8 * gw], 8 * gw)
  }

  lemma FactoredNext(a: seq<real>, r: Row, groups: nat, gw: nat, g: nat)
    requires Shaped(r, groups, gw) && g < groups && |a| == Times(groups, 8 * gw)
    ensures Factored(a, r, groups, gw, g + 1) ==
              Factored(a, r, groups, gw, g) + (Scale(r.scales[g], SumOf(GroupProductsOf(a, r, groups, gw, g), 8 * gw))
                                               + Scale(r.biases[g], GroupSumOf(a, groups, gw, g)))
  {
    TimesGrows(g + 1, groups, 8 * gw);
  }

  /** The sums of the groups of a row of A, shared by all outputs of the row. */
  method GroupSums(a: seq<real>, groups: nat, gw: nat) returns (xsum: array<real>)
    requires |a| == Times(groups, 8 * gw)
    ensures fresh(xsum) && xsum.Length == groups && forall g :: 0 <= g < groups ==> xsum[g] == GroupSumOf(a, groups, gw, g)
  {
    xsum := new real[groups](_ => 0.0);
    for g := 0 to groups
      invariant forall k :: 0 <= k < g ==> xsum[k] == GroupSumOf(a, groups, gw, k)
    {
      var start := Offset(g, 8 * gw);
      TimesGrows(g + 1, groups, 8 * gw);
      var s := 0.0;
      ghost var part := a[Times(g, 8 * gw)..Times(g, 8 * gw) + 8 * gw];
      for i := 0 to 8 * gw
        invariant s == SumOf(part, i)
      {
        s := s + a[start + i];
      }
      xsum[g] := s;
    }
  }

  /** The entry the product should have: the row of A times the dequantized row of W. */
  function Expected(a: seq<real>, r: Row, groups: nat, gw: nat): real
    requires Shaped(r, groups, gw) && |a| == Times(groups, 8 * gw)
  {
    Dot(a, 0, RowValues(r, groups, gw, groups))
  }

  lemma FactoredIsExpected(a: seq<real>, r: Row, groups: nat, gw: nat)
    requires Shaped(r, groups, gw) && |a| == Times(groups, 8 * gw)
    ensures Factored(a, r, groups, gw, groups) == Expected(a, r, groups, gw)
  {
    FactoredIsDot(a, r, groups, gw, groups);
  }

  /** The group's term is added to an accumulator. */
  method AddGroup(a: seq<real>, r: Row, groups: nat, gw: nat, g: nat, acc: real, xq: real, xs: real) returns (sum: real)
    requires Shaped(r, groups, gw) && g < groups && |a| == Times(groups, 8 * gw) && acc == Factored(a, r, groups, gw, g)
    requires xq == SumOf(GroupProductsOf(a, r, groups, gw, g), 8 * gw) && xs == GroupSumOf(a, groups, gw, g)
    ensures sum == Factored(a, r, groups, gw, g + 1)
  {
    FactoredNext(a, r, groups, gw, g);
    sum := acc + (Scale(r.scales[g], xq) + Scale(r.biases[g], xs));
  }

  /** One output of the tail loop. */
  method Output(a: seq<real>, r: Row, groups: nat, gw: nat, xsum: seq<real>) returns (acc: real)
    requires Shaped(r, groups, gw) && |a| == Times(groups, 8 * gw)
    requires |xsum| == groups && forall g :: 0 <= g < groups ==> xsum[g] == GroupSumOf(a, groups, gw, g)
    ensures acc == Expected(a, r, groups, gw)
  {
    acc := 0.0;
    for g := 0 to groups
      invariant acc == Factored(a, r, groups, gw, g)
    {
      var xq := GroupXq(a, r, groups, gw, g);
      acc := AddGroup(a, r, groups, gw, g, acc, xq, xsum[g]);
    }
    FactoredIsExpected(a, r, groups, gw);
  }

  /** Four outputs of the blocked loop. */
  method Output4(a: seq<real>, r0: Row, r1: Row, r2: Row, r3: Row, groups: nat, gw: nat, xsum: seq<real>)
    returns (acc0: real, acc1: real, acc2: real, acc3: real)
    requires Shaped(r0, groups, gw) && Shaped(r1, groups, gw) && Shaped(r2, groups, gw) && Shaped(r3, groups, gw)
    requires |a| == Times(groups, 8 * gw)
    requires |xsum| == groups && forall g :: 0 <= g < groups ==> xsum[g] == GroupSumOf(a, groups, gw, g)
    ensures acc0 == Expected(a, r0, groups, gw) && acc1 == Expected(a, r1, groups, gw)
    ensures acc2 == Expected(a, r2, groups, gw) && acc3 == Expected(a, r3, groups, gw)
  {
    acc0, acc1, acc2, acc3 := 0.0, 0.0, 0.0, 0.0;
    for g := 0 to groups
      invariant acc0 == Factored(a, r0, groups, gw, g) && acc1 == Factored(a, r1, groups, gw, g)
      invariant acc2 == Factored(a, r2, groups, gw, g) && acc3 == Factored(a, r3, groups, gw, g)
    {
      var xq0, xq1, xq2, xq3 := GroupXq4(a, r0, r1, r2, r3, groups, gw, g);
      acc0 := AddGroup(a, r0, groups, gw, g, acc0, xq0, xsum[g]);
      acc1 := AddGroup(a, r1, groups, gw, g, acc1, xq1, xsum[g]);
      acc2 := AddGroup(a, r2, groups, gw, g, acc2, xq2, xsum[g]);
      acc3 := AddGroup(a, r3, groups, gw, g, acc3, xq3, xsum[g]);
    }
    FactoredIsExpected(a, r0, groups, gw);
    FactoredIsExpected(a, r1, groups, gw);
    FactoredIsExpected(a, r2, groups, gw);
    FactoredIsExpected(a, r3, groups, gw);
  }

  /** What the outputs of one row of A should be. */
  ghost predicate Wanted(a: seq<real>, w: seq<Row>, groups: nat, gw: nat, want: seq<real>) {
    && |a| == Times(groups, 8 * gw) && |want| == |w|
    && forall n :: 0 <= n < |w| ==> Shaped(w[n], groups, gw) && want[n] == Expected(a, w[n], groups, gw)
  }

  /** One round of the blocked loop: four outputs. */
  method GemmBlock(a: seq<real>, r0: Row, r1: Row, r2: Row, r3: Row, groups: nat, gw: nat, xsum: seq<real>, c: array<real>, n: nat)
    requires Shaped(r0, groups, gw) && Shaped(r1, groups, gw) && Shaped(r2, groups, gw) && Shaped(r3, groups, gw)
    requires |a| == Times(groups, 8 * gw) && n + 4 <= c.Length
    requires |xsum| == groups && forall g :: 0 <= g < groups ==> xsum[g] == GroupSumOf(a, groups, gw, g)
    modifies c
    ensures c[..] == old(c[..])[n := Expected(a, r0, groups, gw)][n + 1 := Expected(a, r1, groups, gw)]
                               [n + 2 := Expected(a, r2, groups, gw)][n + 3 := Expected(a, r3, groups, gw)]
  {
    var acc0, acc1, acc2, acc3 := Output4(a, r0, r1, r2, r3, groups, gw, xsum);
    c[n], c[n + 1], c[n + 2], c[n + 3] := acc0, acc1, acc2, acc3;
  }

  /** The blocked loop: four outputs at a time. */
  method GemmBlocks(a: seq<real>, w: seq<Row>, groups: nat, gw: nat, xsum: seq<real>, c: array<real>, ghost want: seq<real>)
    returns (n: nat)
    requires Wanted(a, w, groups, gw, want) && c.Length == |w|
    requires |xsum| == groups && forall g :: 0 <= g < groups ==> xsum[g] == GroupSumOf(a, groups, gw, g)
    modifies c
    ensures n <= |w| && c[..n] == want[..n]
  {
    n := 0;
    while n + 4 <= |w|
      invariant n <= |w| && c[..n] == want[..n]
    {
      ghost var before := c[..];
      GemmBlock(a, w[n], w[n + 1], w[n + 2], w[n + 3], groups, gw, xsum, c, n);
      BlockDone(before, c[..], want, n);
      assert c[..][..n + 4] == c[..n + 4];
      n := n + 4;
    }
  }

  lemma BlockDone(before: seq<real>, after: seq<real>, want: seq<real>, n: nat)
    requires n + 4 <= |before| == |want| && before[..n] == want[..n]
    requires after == before[n := want[n]][n + 1 := want[n + 1]][n + 2 := want[n + 2]][n + 3 := want[n + 3]]
    ensures after[..n + 4] == want[..n + 4]
  {
    forall k | 0 <= k < n ensures after[k] == want[k] {
      assert before[..n][k] == want[..n][k];
    }
  }

  /** One round of the tail loop. */
  method GemmOne(a: seq<real>, w: seq<Row>, groups: nat, gw: nat, xsum: seq<real>, c: array<real>, ghost want: seq<real>, n: nat)
    requires Wanted(a, w, groups, gw, want) && c.Length == |w| && n < |w|
    requires |xsum| == groups && forall g :: 0 <= g < groups ==> xsum[g] == GroupSumOf(a, groups, gw, g)
    modifies c
    ensures c[..] == old(c[..])[n := want[n]]
  {
    var acc := Output(a, w[n], groups, gw, xsum);
    c[n] := acc;
  }

  /** The tail loop: the outputs from n on, one at a time. */
  method GemmTail(a: seq<real>, w: seq<Row>, groups: nat, gw: nat, xsum: seq<real>, c: array<real>, ghost want: seq<real>, start: nat)
    requires Wanted(a, w, groups, gw, want) && c.Length == |w|
    requires |xsum| == groups && forall g :: 0 <= g < groups ==> xsum[g] == GroupSumOf(a, groups, gw, g)
    requires start <= |w| && c[..start] == want[..start]
    modifies c
    ensures c[..] == want
  {
    for n := start to |w|
      invariant c[..n] == want[..n]
    {
      ghost var before := c[..];
      GemmOne(a, w, groups, gw, xsum, c, want, n);
      assert before[..n] == c[..n];
    }
    assert c[..c.Length] == c[..] && want[..|w|] == want;
  }

  /** The outputs of one row of A: four at a time, then one at a time. */
  method GemmRow(a: seq<real>, w: seq<Row>, groups: nat, gw: nat) returns (c: array<real>)
    requires |a| == Times(groups, 8 * gw) && forall n :: 0 <= n < |w| ==> Shaped(w[n], groups, gw)
    ensures fresh(c) && c.Length == |w| && forall n :: 0 <= n < |w| ==> c[n] == Expected(a, w[n], groups, gw)
  {
    var sums := GroupSums(a, groups, gw);
    var xsum := sums[..];
    ghost var want := seq(|w|, k requires 0 <= k < |w| => Expected(a, w[k], groups, gw));
    c := new real[|w|](_ => 0.0);
    var n := GemmBlocks(a, w, groups, gw, xsum, c, want);
    GemmTail(a, w, groups, gw, xsum, c, want, n);
    assert forall k :: 0 <= k < |w| ==> c[k] == c[..][k];
  }

  /** Row i of C is written; the other rows stay. */
  method PutRow(c: array2<real>, i: nat, row: array<real>)
    requires i < c.Length0 && c.Length1 == row.Length
    modifies c
    ensures forall k :: 0 <= k < c.Length1 ==> c[i, k] == row[k]
    ensures forall j, k :: 0 <= j < c.Length0 && j != i && 0 <= k < c.Length1 ==> c[j, k] == old(c[j, k])
  {
    for k := 0 to c.Length1
      invariant forall l :: 0 <= l < k ==> c[i, l] == row[l]
      invariant forall j, l :: 0 <= j < c.Length0 && j != i && 0 <= l < c.Length1 ==> c[j, l] == old(c[j, l])
    {
      c[i, k] := row[k];
    }
  }

  /** `gemm_q4`: every entry is the row of A times the dequantized row of W; nothing is written when
      M or N is not positive. */
  method Gemm(m: int, n: int, a: seq<seq<real>>, w: seq<Row>, groups: nat, gw: nat, c: array2<real>)
    requires m <= |a| && n == |w| && (m > 0 ==> c.Length0 == m) && c.Length1 == |w|
    requires forall i :: 0 <= i < |a| ==> |a[i]| == Times(groups, 8 * gw)
    requires forall k :: 0 <= k < |w| ==> Shaped(w[k], groups, gw)
    modifies c
    ensures forall i, k :: 0 <= i < m && 0 <= k < n ==> c[i, k] == Expected(a[i], w[k], groups, gw)
    ensures m <= 0 || n <= 0 ==> forall i, k :: 0 <= i < c.Length0 && 0 <= k < c.Length1 ==> c[i, k] == old(c[i, k])
  {
    if m <= 0 || n <= 0 {
      return;
    }
    for i := 0 to m
      invariant forall j, k :: 0 <= j < i && 0 <= k < n ==> c[j, k] == Expected(a[j], w[k], groups, gw)
    {
      var row := GemmRow(a[i], w, groups, gw);
      PutRow(c, i, row);
    }
  }
}
