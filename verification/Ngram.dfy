/** c/src/ngram.c and src/colibri_runtime/model.py: the geometry of the n-gram tables, and ids that
    depend on the last few tokens only. */
module Ngram {
  import opened Options
  import opened Primes

  const INT64_MAX := 0x7FFF_FFFF_FFFF_FFFF
  const MAX_HEADS := 16

  const GAMMA: bv64 := 0x9E3779B97F4A7C15
  const M1: bv64 := 0xBF58476D1CE4E5B9
  const M2: bv64 := 0x94D049BB133111EB

  // ----- geometry

  datatype Geometry = Geometry(size: nat, perOrder: nat, eos: int, sizes: seq<int>, offsets: seq<int>, multipliers: seq<int>)

  /** The ids of head h. */
  predicate InHead(sizes: seq<int>, offsets: seq<int>, h: nat, x: int)
    requires h < |sizes| && h < |offsets|
  {
    offsets[h] <= x < offsets[h] + sizes[h]
  }

  /** The tables of the heads follow each other without gaps from 0 up to total. */
  ghost predicate Tiled(sizes: seq<int>, offsets: seq<int>, n: nat, total: int)
    requires n <= |sizes| && n <= |offsets|
  {
    && (forall h :: 0 <= h < n ==> sizes[h] > 0)
    && (forall h :: 0 < h < n ==> offsets[h] == offsets[h - 1] + sizes[h - 1])
    && if n == 0 then total == 0 else offsets[0] == 0 && total == offsets[n - 1] + sizes[n - 1]
  }

  /** Every id below the total belongs to exactly one head. */
  lemma {:induction false} HeadOf(sizes: seq<int>, offsets: seq<int>, n: nat, total: int, x: int) returns (h: nat)
    requires n <= |sizes| && n <= |offsets| && Tiled(sizes, offsets, n, total) && 0 <= x < total
    ensures h < n && InHead(sizes, offsets, h, x)
    ensures forall k :: 0 <= k < n && InHead(sizes, offsets, k, x) ==> k == h
  {
    if x >= offsets[n - 1] {
      h := n - 1;
      forall k | 0 <= k < n - 1 ensures !InHead(sizes, offsets, k, x) {
        OffsetsGrow(sizes, offsets, n, total, k, n - 1);
      }
    } else {
      h := HeadOf(sizes, offsets, n - 1, offsets[n - 1], x);
    }
  }

  lemma {:induction false} OffsetsGrow(sizes: seq<int>, offsets: seq<int>, n: nat, total: int, h: nat, k: nat)
    requires n <= |sizes| && n <= |offsets| && Tiled(sizes, offsets, n, total) && h < k < n
    ensures 0 <= offsets[h] && offsets[h] + sizes[h] <= offsets[k]
    decreases k
  {
    if h + 1 < k {
      OffsetsGrow(sizes, offsets, n, total, h, k - 1);
    } else if h > 0 {
      OffsetsGrow(sizes, offsets, n, total, h - 1, h);
    }
  }

  /** `ngram_splitmix64`; shifts and products are modulo 2^64. */
  function SplitMix(v: bv64): bv64 {
    var a := v + GAMMA;
    var b := (a ^ (a >> 30)) * M1;
    var c := (b ^ (b >> 27)) * M2;
    c ^ (c >> 31)
  }

  /** The first three numbers of the SplitMix64 generator from the seed 0, as published with it. */
  lemma SplitMixVectors()
    ensures SplitMix(0) == 0xE220A8397B1DCDAF && SplitMix(GAMMA) == 0x6E789E6AA1B965F4
    ensures SplitMix(GAMMA + GAMMA) == 0x06C45D188009454F
  {
  }

  /** The bound of the multipliers. */
  function Half(vocab: nat): (h: nat)
    ensures h >= 1
  {
    var half := INT64_MAX / (if vocab > 0 then vocab else 1) / 2;
    if half < 1 then 1 else half
  }

  /** The i-th multiplier: odd, and below twice the bound. */
  function Multiplier(seed: bv64, i: nat, half: nat): nat
    requires half > 0 && i < 0x1_0000
  {
    OddBelow(SplitMix(seed + GAMMA * ((i + 1) as bv64)) as nat, half)
  }

  /** For the seed 0 and a vocabulary of 100 tokens the first two multipliers are the second and the
      third number of the generator, brought below the bound and made odd. */
  lemma MultiplierVectors()
    ensures Multiplier(0, 0, Half(100)) == 2 * (0x6E78_9E6A_A1B9_65F4 % Half(100)) + 1 == 56373140998497025
    ensures Multiplier(0, 1, Half(100)) == 2 * (0x06C4_5D18_8009_454F % Half(100)) + 1 == 52896835257613779
  {
    FirstHashes();
    HalfOfHundred();
    FromHash(0, 0, Half(100), 0x6E78_9E6A_A1B9_65F4);
    FromHash(0, 1, Half(100), 0x06C4_5D18_8009_454F);
  }

  lemma HalfOfHundred()
    ensures Half(100) == 46116860184273879
    ensures 2 * (0x6E78_9E6A_A1B9_65F4 % 46116860184273879) + 1 == 56373140998497025
    ensures 2 * (0x06C4_5D18_8009_454F % 46116860184273879) + 1 == 52896835257613779
  {
  }

  lemma FromHash(seed: bv64, i: nat, half: nat, hash: nat)
    requires half > 0 && i < 0x1_0000 && SplitMix(seed + GAMMA * ((i + 1) as bv64)) as nat == hash
    ensures Multiplier(seed, i, half) == 2 * (hash % half) + 1
  {
  }

  lemma FirstHashes()
    ensures SplitMix(0 + GAMMA * ((0 + 1) as bv64)) as nat == 0x6E78_9E6A_A1B9_65F4
    ensures SplitMix(0 + GAMMA * ((1 + 1) as bv64)) as nat == 0x06C4_5D18_8009_454F
  {
    SplitMixVectors();
    assert (0 + 1) as bv64 == 1 && (1 + 1) as bv64 == 2;
    assert 0 + GAMMA * 1 == GAMMA && 0 + GAMMA * 2 == GAMMA + GAMMA;
    assert (0x6E78_9E6A_A1B9_65F4 as bv64) as nat == 0x6E78_9E6A_A1B9_65F4;
    assert (0x06C4_5D18_8009_454F as bv64) as nat == 0x06C4_5D18_8009_454F;
  }

  /** The seed moves the generator: from a seed one step further on the first multiplier is the second. */
  lemma SeedMoves(seed: bv64, half: nat)
    requires half > 0
    ensures Multiplier(seed + GAMMA, 0, half) == Multiplier(seed, 1, half)
  {
    assert (0 + 1) as bv64 == 1 && (1 + 1) as bv64 == 2;
    GammaTwice(seed);
  }

  lemma GammaTwice(seed: bv64)
    ensures seed + GAMMA + GAMMA * 1 == seed + GAMMA * 2
  {
  }

  function OddBelow(x: nat, half: nat): nat
    requires half > 0
  {
    2 * (x % half) + 1
  }

  /** The product of a token of the vocabulary and a multiplier fits an int64, whatever the hash. */
  lemma ProductFits(x: nat, vocab: nat, token: nat)
    requires token < vocab <= INT64_MAX
    ensures token * OddBelow(x, Half(vocab)) <= INT64_MAX
  {
    var half, q := Half(vocab), INT64_MAX / vocab;
    var r := x % half;
    assert q * vocab <= INT64_MAX && half == if q / 2 < 1 then 1 else q / 2;
    if q / 2 >= 1 {
      ProductGrows(token, vocab, 2 * r + 1, q);
    } else {
      assert r == 0;
      ProductGrows(token, vocab, 1, 1);
    }
  }

  lemma MultiplierFits(seed: bv64, i: nat, vocab: nat, token: nat)
    requires i < 0x1_0000 && token < vocab <= INT64_MAX
    ensures 0 <= token * Multiplier(seed, i, Half(vocab)) <= INT64_MAX
  {
    ProductFits(SplitMix(seed + GAMMA * ((i + 1) as bv64)) as nat, vocab, token);
  }

  lemma ProductGrows(a: nat, b: nat, c: nat, d: nat)
    requires a <= b && c <= d
    ensures a * c <= d * b
  {
    assert d * b == a * c + a * (d - c) + (b - a) * d;
  }

  /** What ngram_geo_compute promises about the sizes: the primes that follow the base, in order. */
  ghost predicate SizesOk(sizes: seq<int>, base: int, first: nat, n: nat)
    requires n <= |sizes|
  {
    forall h :: 0 <= h < n ==> IsNthPrime(base - 1, first + h + 1, sizes[h])
  }

  /** Hence they are different primes, each at least the base. */
  lemma SizesIncrease(sizes: seq<int>, base: int, first: nat, n: nat, h: nat, k: nat)
    requires n <= |sizes| && SizesOk(sizes, base, first, n) && h < k < n
    ensures Prime(sizes[h]) && base <= sizes[h] < sizes[k]
  {
    NthPrimesOrdered(base - 1, first + h + 1, first + k + 1, sizes[h], sizes[k]);
  }

  /** The loop over the heads in ngram_geo_compute. */
  method HeadTables(base: int, first: nat, heads: nat) returns (sizes: seq<int>, offsets: seq<int>, total: int)
    ensures |sizes| == heads && |offsets| == heads
    ensures SizesOk(sizes, base, first, heads) && Tiled(sizes, offsets, heads, total)
  {
    sizes, offsets, total := [], [], 0;
    for h := 0 to heads
      invariant |sizes| == h && |offsets| == h
      invariant SizesOk(sizes, base, first, h) && Tiled(sizes, offsets, h, total)
    {
      var size := NthPrimeAfter(base - 1, first + h + 1);
      sizes, offsets, total := sizes + [size], offsets + [total], total + size;
    }
  }

  ghost predicate GeometryOk(g: Geometry) {
    && g.size >= 1 && g.perOrder >= 1 && |g.multipliers| == g.size
    && |g.sizes| == |g.offsets| == (g.size - 1) * g.perOrder && (forall h :: 0 <= h < |g.sizes| ==> g.sizes[h] > 0)
  }

  /** `ngram_geo_compute`; None stands for its abort. */
  method Compute(size: nat, perOrder: nat, vocab: nat, eos: int, base: int, seed: bv64, layer: nat)
    returns (r: Option<Geometry>, total: int)
    requires 1 <= size <= 8 && perOrder >= 1
    ensures r.None? <==> (size - 1) * perOrder > MAX_HEADS
    ensures r.Some? ==> GeometryOk(r.value) && r.value.size == size && r.value.perOrder == perOrder && r.value.eos == eos
    ensures r.Some? ==> var n := |r.value.sizes|;
              SizesOk(r.value.sizes, base, layer * n, n) && Tiled(r.value.sizes, r.value.offsets, n, total)
    ensures r.Some? ==> forall i :: 0 <= i < size ==> r.value.multipliers[i] == Multiplier(seed, i, Half(vocab))
  {
    var heads := (size - 1) * perOrder;
    if heads > MAX_HEADS {
      return None, 0;
    }
    var sizes, offsets;
    sizes, offsets, total := HeadTables(base, layer * heads, heads);
    var half := Half(vocab);
    var multipliers: seq<int> := [];
    for i := 0 to size
      invariant |multipliers| == i && forall k :: 0 <= k < i ==> multipliers[k] == Multiplier(seed, k, half)
    {
      multipliers := multipliers + [Multiplier(seed, i, half)];
    }
    r := Some(Geometry(size, perOrder, eos, sizes, offsets, multipliers));
  }
}
