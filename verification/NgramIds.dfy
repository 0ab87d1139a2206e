/** N-gram ids of a token sequence: the C scan and the Python array form agree, and splitting a
    sequence into chunks with carried context changes nothing. */
module NgramIds {
  import opened Arithmetic
  import opened Chunks
  import opened Ngram

  // ----- windows

  ghost predicate NoEos(tokens: seq<int>, eos: int, lo: int, hi: int) {
    forall i :: lo <= i < hi && 0 <= i < |tokens| ==> tokens[i] != eos
  }

  /** The token q places before t, cut at the start of the sequence and at the most recent
      end-of-sequence token before t. */
  ghost function Window(tokens: seq<int>, eos: int, t: nat, q: nat): int
    requires t < |tokens|
  {
    if q <= t && NoEos(tokens, eos, t - q, t) then tokens[t - q] else eos
  }

  /** last_eos before position t: -1 when there is none. */
  function LastEos(tokens: seq<int>, eos: int, t: nat): (r: int)
    requires t <= |tokens|
    ensures -1 <= r < t
  {
    if t == 0 then -1 else if tokens[t - 1] == eos then t - 1 else LastEos(tokens, eos, t - 1)
  }

  lemma {:induction false} LastEosIs(tokens: seq<int>, eos: int, t: nat)
    requires t <= |tokens|
    ensures var r := LastEos(tokens, eos, t); (r >= 0 ==> tokens[r] == eos) && NoEos(tokens, eos, r + 1, t)
  {
    if t > 0 && tokens[t - 1] != eos {
      LastEosIs(tokens, eos, t - 1);
    }
  }

  /** The test of the C loop on prev[t]. */
  function Shifted(tokens: seq<int>, eos: int, t: nat, q: nat): int
    requires t < |tokens|
  {
    if t - q >= 0 && t - (LastEos(tokens, eos, t) + 1) >= q then tokens[t - q] else eos
  }

  /** The test of the C loop picks the window. */
  lemma ShiftedIsWindow(tokens: seq<int>, eos: int, t: nat, q: nat)
    requires t < |tokens|
    ensures Shifted(tokens, eos, t, q) == Window(tokens, eos, t, q)
  {
    LastEosIs(tokens, eos, t);
  }

  /** `cummax` of the positions of end-of-sequence tokens, -1 elsewhere. */
  function CumMax(tokens: seq<int>, eos: int, t: nat): int
    requires t < |tokens|
  {
    var here := if tokens[t] == eos then t else -1;
    if t == 0 then here else if here > CumMax(tokens, eos, t - 1) then here else CumMax(tokens, eos, t - 1)
  }

  /** `_shift_right` at position t. */
  function ShiftRight(tokens: seq<int>, eos: int, t: nat, shift: nat): int
    requires t < |tokens|
  {
    if shift == 0 then tokens[t]
    else
      var prev := if t == 0 then -1 else CumMax(tokens, eos, t - 1);
      var src := t - shift;
      if t - (prev + 1) >= shift && src >= 0 then tokens[if src < 0 then 0 else src] else eos
  }

  lemma {:induction false} CumMaxIsLastEos(tokens: seq<int>, eos: int, t: nat)
    requires t < |tokens|
    ensures CumMax(tokens, eos, t) == LastEos(tokens, eos, t + 1)
  {
    if t == 0 {
    } else {
      CumMaxIsLastEos(tokens, eos, t - 1);
    }
  }

  /** The array form of the Python code picks the same window. */
  lemma ShiftRightIsWindow(tokens: seq<int>, eos: int, t: nat, shift: nat)
    requires t < |tokens|
    ensures ShiftRight(tokens, eos, t, shift) == Window(tokens, eos, t, shift)
  {
    if t > 0 {
      CumMaxIsLastEos(tokens, eos, t - 1);
    }
    LastEosIs(tokens, eos, t);
  }

  lemma NoEosIsLocal(a: seq<int>, b: seq<int>, eos: int, t: nat, u: nat, q: nat)
    requires Agree(a, t, b, u, q) && NoEos(a, eos, t - q, t)
    ensures NoEos(b, eos, u - q, u)
  {
    forall i | u - q <= i < u ensures b[i] != eos {
      assert Back(a, t, u - i) == Back(b, u, u - i);
    }
  }

  /** Two sequences that agree on the tokens from t - q to t have the same window there. */
  lemma WindowIsLocal(a: seq<int>, b: seq<int>, eos: int, t: nat, u: nat, q: nat)
    requires Agree(a, t, b, u, q)
    ensures Window(a, eos, t, q) == Window(b, eos, u, q)
  {
    if NoEos(a, eos, t - q, t) {
      NoEosIsLocal(a, b, eos, t, u, q);
    }
    if NoEos(b, eos, u - q, u) {
      NoEosIsLocal(b, a, eos, u, t, q);
    }
    assert Back(a, t, q) == Back(b, u, q);
  }

  /** Context made of end-of-sequence tokens is like no context. */
  lemma WindowAfterPadding(pad: seq<int>, tokens: seq<int>, eos: int, t: nat, q: nat)
    requires t < |tokens| && (forall i :: 0 <= i < |pad| ==> pad[i] == eos)
    ensures Window(pad + tokens, eos, |pad| + t, q) == Window(tokens, eos, t, q)
  {
    var h := pad + tokens;
    if q <= t {
      assert Agree(h, |pad| + t, tokens, t, q);
      WindowIsLocal(h, tokens, eos, |pad| + t, t, q);
    } else if q <= |pad| + t {
      assert h[|pad| + t - q] == eos;
    }
  }

  // ----- ids

  /** Every product of a token and a multiplier fits an int64 and is not negative. */
  ghost predicate ProductsFit(g: Geometry, tokens: seq<int>) {
    && (forall q :: 0 <= q < |g.multipliers| ==> Fits(g.eos, g.multipliers[q]))
    && forall t, q :: 0 <= t < |tokens| && 0 <= q < |g.multipliers| ==> Fits(tokens[t], g.multipliers[q])
  }

  ghost predicate Fits(token: int, multiplier: int) {
    0 <= token * multiplier <= INT64_MAX
  }

  /** With the multipliers of ngram_geo_compute and tokens of the vocabulary nothing overflows. */
  lemma ComputedProductsFit(g: Geometry, seed: bv64, vocab: nat, tokens: seq<int>)
    requires vocab <= INT64_MAX && |g.multipliers| <= 8 && 0 <= g.eos < vocab
    requires forall i :: 0 <= i < |g.multipliers| ==> g.multipliers[i] == Multiplier(seed, i, Half(vocab))
    requires forall t :: 0 <= t < |tokens| ==> 0 <= tokens[t] < vocab
    ensures ProductsFit(g, tokens)
  {
    forall q, token | 0 <= q < |g.multipliers| && 0 <= token < vocab ensures Fits(token, g.multipliers[q]) {
      MultiplierFits(seed, q, vocab, token);
    }
  }

  lemma WindowFits(g: Geometry, tokens: seq<int>, t: nat, q: nat)
    requires t < |tokens| && q < |g.multipliers| && ProductsFit(g, tokens)
    ensures Fits(Window(tokens, g.eos, t, q), g.multipliers[q])
  {
  }

  /** Exclusive or of two nonnegative integers, binary digit by binary digit. */
  function Xor(a: nat, b: nat): nat
    decreases a + b
  {
    if a == 0 then b else if b == 0 then a else 2 * Xor(a / 2, b / 2) + if a % 2 == b % 2 then 0 else 1
  }

  function PowerOf2(k: nat): nat {
    if k == 0 then 1 else 2 * PowerOf2(k - 1)
  }

  lemma {:induction false} PowersMultiply(a: nat, b: nat)
    ensures PowerOf2(a + b) == PowerOf2(a) * PowerOf2(b)
  {
    if a == 0 {
    } else {
      PowersMultiply(a - 1, b);
    }
  }

  lemma Power63()
    ensures PowerOf2(63) == INT64_MAX + 1
  {
    assert PowerOf2(15) == 0x8000 && PowerOf2(16) == 0x1_0000;
    PowersMultiply(15, 16);
    PowersMultiply(31, 16);
    PowersMultiply(47, 16);
  }

  /** It has no more digits than its operands: the sign bit of an int64 stays clear. */
  lemma {:induction false} XorFits(a: nat, b: nat, k: nat)
    requires a < PowerOf2(k) && b < PowerOf2(k)
    ensures Xor(a, b) < PowerOf2(k)
  {
    if a > 0 && b > 0 && k > 0 {
      XorFits(a / 2, b / 2, k - 1);
    }
  }

  /** The XOR of the products for the window tokens 0 to p. */
  ghost function Mixed(g: Geometry, tokens: seq<int>, t: nat, p: nat): nat
    requires t < |tokens| && p < |g.multipliers| && ProductsFit(g, tokens)
  {
    WindowFits(g, tokens, t, p);
    var here := Window(tokens, g.eos, t, p) * g.multipliers[p];
    if p == 0 then here else Xor(Mixed(g, tokens, t, p - 1), here)
  }

  /** No intermediate value overflows an int64. */
  lemma {:induction false} MixedFits(g: Geometry, tokens: seq<int>, t: nat, p: nat)
    requires t < |tokens| && p < |g.multipliers| && ProductsFit(g, tokens)
    ensures Mixed(g, tokens, t, p) < PowerOf2(63)
  {
    Power63();
    WindowFits(g, tokens, t, p);
    if p == 0 {
    } else {
      MixedFits(g, tokens, t, p - 1);
      XorFits(Mixed(g, tokens, t, p - 1), Window(tokens, g.eos, t, p) * g.multipliers[p], 63);
    }
  }

  /** C's remainder, which has the sign of the dividend. */
  function CRemainder(a: int, b: int): int
    requires b > 0
  {
    if a >= 0 then a % b else -((-a) % b)
  }

  /** The id of a mixed value in a head: C's remainder, made nonnegative. */
  function IdIn(mixed: int, size: int, offset: int): int
    requires size > 0
  {
    var m := CRemainder(mixed, size);
    (if m < 0 then m + size else m) + offset
  }

  /** It is the remainder that Python's % computes, and lies in the range of its own head. */
  lemma IdInRange(mixed: int, size: int, offset: int)
    requires size > 0
    ensures IdIn(mixed, size, offset) == mixed % size + offset
    ensures offset <= IdIn(mixed, size, offset) < offset + size
  {
    if mixed < 0 {
      NegativeRemainder(-mixed, size);
    }
  }

  lemma NegativeRemainder(a: int, b: int)
    requires a >= 0 && b > 0
    ensures (-a) % b == if a % b == 0 then 0 else b - a % b
  {
    var q, r := a / b, a % b;
    assert a == b * q + r;
    if r == 0 {
      RemainderIs(-a, b, -q, 0);
    } else {
      RemainderIs(-a, b, -q - 1, b - r);
    }
  }

  /** Heads come in groups, one group for each n-gram order. */
  function OrderOf(g: Geometry, head: nat): nat
    requires g.perOrder >= 1
  {
    head / g.perOrder + 1
  }

  lemma OrderBelow(g: Geometry, head: nat)
    requires GeometryOk(g) && head < |g.sizes|
    ensures OrderOf(g, head) < g.size
  {
    if head / g.perOrder >= g.size - 1 {
      QuotientAtLeast(head, g.perOrder, g.size - 1);
    }
  }

  lemma QuotientAtLeast(a: nat, b: nat, q: nat)
    requires b > 0 && a / b >= q
    ensures a >= q * b
  {
    assert a >= (a / b) * b;
    assert (a / b) * b == q * b + (a / b - q) * b;
  }

  /** The id of head `head` for position t. */
  ghost function HeadId(g: Geometry, tokens: seq<int>, t: nat, head: nat): int
    requires GeometryOk(g) && t < |tokens| && head < |g.sizes| && ProductsFit(g, tokens)
  {
    OrderBelow(g, head);
    IdIn(Mixed(g, tokens, t, OrderOf(g, head)), g.sizes[head], g.offsets[head])
  }

  /** Each id lies in the table of its own head. */
  lemma HeadIdInRange(g: Geometry, tokens: seq<int>, t: nat, head: nat)
    requires GeometryOk(g) && t < |tokens| && head < |g.sizes| && ProductsFit(g, tokens)
    ensures InHead(g.sizes, g.offsets, head, HeadId(g, tokens, t, head))
  {
    OrderBelow(g, head);
    IdInRange(Mixed(g, tokens, t, OrderOf(g, head)), g.sizes[head], g.offsets[head]);
  }

  // ----- what an id is, digit by digit

  /** Binary digit k. */
  function Bit(a: nat, k: nat): (b: nat)
    ensures b < 2
  {
    if k == 0 then a % 2 else Bit(a / 2, k - 1)
  }

  /** An exclusive or has the digits in which the two numbers differ. */
  lemma {:induction false} XorBits(a: nat, b: nat, k: nat)
    ensures Bit(Xor(a, b), k) == if Bit(a, k) == Bit(b, k) then 0 else 1
    decreases k
  {
    if a == 0 || b == 0 {
      ZeroBits(k);
    } else if k > 0 {
      XorBits(a / 2, b / 2, k - 1);
    }
  }

  lemma {:induction false} ZeroBits(k: nat)
    ensures Bit(0, k) == 0
  {
    if k == 0 {
    } else {
      ZeroBits(k - 1);
    }
  }

  /** Numbers with the same digits are equal. */
  lemma {:induction false} SameBits(a: nat, b: nat)
    requires forall k: nat :: Bit(a, k) == Bit(b, k)
    ensures a == b
    decreases a + b
  {
    if a == 0 && b == 0 {
    } else {
      assert Bit(a, 0) == Bit(b, 0);
      forall k: nat ensures Bit(a / 2, k) == Bit(b / 2, k) {
        assert Bit(a, k + 1) == Bit(b, k + 1);
      }
      SameBits(a / 2, b / 2);
    }
  }

  /** The tokens at t and at the n places before it, with the end-of-sequence token for each place before
      the start of the sequence or up to an end-of-sequence token before t. */
  ghost predicate IsWindow(ws: seq<int>, tokens: seq<int>, eos: int, t: nat, n: nat)
    requires t < |tokens|
  {
    |ws| == n + 1 && forall q :: 0 <= q <= n ==>
      ws[q] == if q <= t && (forall i :: t - q <= i < t ==> tokens[i] != eos) then tokens[t - q] else eos
  }

  /** How many of the first n numbers have digit k. */
  function Ones(ps: seq<nat>, n: nat, k: nat): nat
    requires n <= |ps|
  {
    if n == 0 then 0 else Ones(ps, n - 1, k) + Bit(ps[n - 1], k)
  }

  lemma MixedStep(g: Geometry, tokens: seq<int>, t: nat, n: nat, here: nat)
    requires t < |tokens| && n < |g.multipliers| && ProductsFit(g, tokens)
    requires here == Window(tokens, g.eos, t, n) * g.multipliers[n]
    ensures Mixed(g, tokens, t, n) == if n == 0 then here else Xor(Mixed(g, tokens, t, n - 1), here)
  {
  }

  /** The values mixed of the first tokens of a window. */
  ghost predicate MixedAre(ps: seq<nat>, ms: seq<nat>) {
    |ms| == |ps| && forall n :: 0 <= n < |ps| ==> ms[n] == if n == 0 then ps[0] else Xor(ms[n - 1], ps[n])
  }

  /** They have the digits that an odd number of the products has. */
  lemma {:induction false} MixedBits(ps: seq<nat>, ms: seq<nat>, n: nat, k: nat)
    requires n < |ps| && MixedAre(ps, ms)
    ensures Bit(ms[n], k) == Ones(ps, n + 1, k) % 2
    decreases n
  {
    if n == 0 {
      assert Ones(ps, 1, k) == Ones(ps, 0, k) + Bit(ps[0], k);
    } else {
      MixedBits(ps, ms, n - 1, k);
      XorBits(ms[n - 1], ps[n], k);
    }
  }

  /** The id of the h-th head of order p: the number with the binary digits that an odd number of the
      products of the p + 1 window tokens and their multipliers has, reduced to the size of the head's
      table. */
  lemma IdExactly(g: Geometry, tokens: seq<int>, t: nat, p: nat, h: nat, ws: seq<int>, ps: seq<nat>, mixed: nat)
    requires GeometryOk(g) && t < |tokens| && ProductsFit(g, tokens) && 1 <= p < g.size && h < g.perOrder
    requires IsWindow(ws, tokens, g.eos, t, p)
    requires |ps| == p + 1 && forall q :: 0 <= q <= p ==> ps[q] == ws[q] * g.multipliers[q]
    requires forall k: nat :: Bit(mixed, k) == Ones(ps, p + 1, k) % 2
    ensures var head := (p - 1) * g.perOrder + h;
            0 <= head < |g.sizes| && HeadId(g, tokens, t, head) == mixed % g.sizes[head] + g.offsets[head]
  {
    var ms: seq<nat> := seq(p + 1, n requires 0 <= n <= p => Mixed(g, tokens, t, n));
    forall n | 0 <= n <= p ensures ms[n] == if n == 0 then ps[0] else Xor(ms[n - 1], ps[n]) {
      assert ws[n] == Window(tokens, g.eos, t, n);
      MixedStep(g, tokens, t, n, ps[n]);
    }
    forall k: nat ensures Bit(ms[p], k) == Bit(mixed, k) {
      MixedBits(ps, ms, p, k);
    }
    SameBits(Mixed(g, tokens, t, p), mixed);
    GroupStartIs(g, p);
    GroupHead(g, p, h);
    IdInRange(mixed, g.sizes[GroupStart(g, p) + h], g.offsets[GroupStart(g, p) + h]);
  }

  // ----- ids are local

  lemma {:induction false} MixedIsLocal(g: Geometry, a: seq<int>, b: seq<int>, t: nat, u: nat, p: nat)
    requires p < |g.multipliers| && ProductsFit(g, a) && ProductsFit(g, b)
    requires Agree(a, t, b, u, p)
    ensures Mixed(g, a, t, p) == Mixed(g, b, u, p)
  {
    WindowIsLocal(a, b, g.eos, t, u, p);
    if p == 0 {
    } else {
      MixedIsLocal(g, a, b, t, u, p - 1);
    }
  }

  /** The ids depend only on the last g.size tokens. */
  lemma IdsAreLocal(g: Geometry, a: seq<int>, b: seq<int>, t: nat, u: nat, head: nat)
    requires GeometryOk(g) && head < |g.sizes| && ProductsFit(g, a) && ProductsFit(g, b)
    requires Agree(a, t, b, u, g.size - 1)
    ensures HeadId(g, a, t, head) == HeadId(g, b, u, head)
  {
    OrderBelow(g, head);
    MixedIsLocal(g, a, b, t, u, OrderOf(g, head));
  }

  // ----- chunks

  /** The ids of the tokens of a chunk, given the tokens before it as context. */
  ghost function ChunkIds(g: Geometry, context: seq<int>, chunk: seq<int>): seq<seq<int>>
    requires GeometryOk(g) && ProductsFit(g, context + chunk)
  {
    seq(|chunk|, i requires 0 <= i < |chunk| => PositionIds(g, context + chunk, |context| + i))
  }

  ghost function PositionIds(g: Geometry, history: seq<int>, t: nat): seq<int>
    requires GeometryOk(g) && ProductsFit(g, history) && t < |history|
  {
    seq(|g.sizes|, h requires 0 <= h < |g.sizes| => HeadId(g, history, t, h))
  }

  /** The context carried to the next chunk: the last g.size - 1 tokens. */
  function Carried(g: Geometry, context: seq<int>, chunk: seq<int>): (c: seq<int>)
    requires g.size >= 1 && |context| == g.size - 1
    ensures |c| == g.size - 1
  {
    (context + chunk)[|chunk|..]
  }

  lemma CarriedFits(g: Geometry, context: seq<int>, a: seq<int>, b: seq<int>)
    requires g.size >= 1 && |context| == g.size - 1 && ProductsFit(g, context + (a + b))
    ensures ProductsFit(g, context + a) && ProductsFit(g, Carried(g, context, a) + b)
  {
    var h := context + (a + b);
    var l, r := context + a, Carried(g, context, a) + b;
    forall t, q | 0 <= t < |l| && 0 <= q < |g.multipliers| ensures Fits(l[t], g.multipliers[q]) {
      assert h[t] == l[t];
    }
    forall t, q | 0 <= t < |r| && 0 <= q < |g.multipliers| ensures Fits(r[t], g.multipliers[q]) {
      assert h[|a| + t] == r[t];
    }
  }

  /** Splitting a chunk in two gives the same ids. */
  lemma SplitIds(g: Geometry, context: seq<int>, a: seq<int>, b: seq<int>)
    requires GeometryOk(g) && |context| == g.size - 1 && ProductsFit(g, context + (a + b))
    ensures ProductsFit(g, context + a) && ProductsFit(g, Carried(g, context, a) + b)
    ensures ChunkIds(g, context, a + b) == ChunkIds(g, context, a) + ChunkIds(g, Carried(g, context, a), b)
  {
    CarriedFits(g, context, a, b);
    var h, l, r := context + (a + b), context + a, Carried(g, context, a) + b;
    forall i | 0 <= i < |a| + |b|
      ensures ChunkIds(g, context, a + b)[i] == (ChunkIds(g, context, a) + ChunkIds(g, Carried(g, context, a), b))[i]
    {
      var t := |context| + i;
      if i < |a| {
        SamePosition(g, h, l, t, t);
      } else {
        SamePosition(g, h, r, t, t - |a|);
      }
    }
  }

  lemma SamePosition(g: Geometry, a: seq<int>, b: seq<int>, t: nat, u: nat)
    requires GeometryOk(g) && ProductsFit(g, a) && ProductsFit(g, b)
    requires Agree(a, t, b, u, g.size - 1)
    ensures PositionIds(g, a, t) == PositionIds(g, b, u)
  {
    forall h | 0 <= h < |g.sizes| ensures HeadId(g, a, t, h) == HeadId(g, b, u, h) {
      IdsAreLocal(g, a, b, t, u, h);
    }
  }

  /** The ids of chunks processed one after the other, carrying the context along. */
  ghost function Streamed(g: Geometry, context: seq<int>, chunks: seq<seq<int>>): seq<seq<int>>
    requires GeometryOk(g) && |context| == g.size - 1 && ProductsFit(g, context + Concat(chunks))
    decreases |chunks|
  {
    if chunks == [] then []
    else
      CarriedFits(g, context, chunks[0], Concat(chunks[1..]));
      ChunkIds(g, context, chunks[0]) + Streamed(g, Carried(g, context, chunks[0]), chunks[1..])
  }

  /** Any split of a sequence into chunks gives the ids of one pass over it. */
  lemma {:induction false} ChunksDoNotMatter(g: Geometry, context: seq<int>, chunks: seq<seq<int>>)
    requires GeometryOk(g) && |context| == g.size - 1 && ProductsFit(g, context + Concat(chunks))
    ensures Streamed(g, context, chunks) == ChunkIds(g, context, Concat(chunks))
    decreases |chunks|
  {
    if chunks == [] {
    } else {
      SplitIds(g, context, chunks[0], Concat(chunks[1..]));
      ChunksDoNotMatter(g, Carried(g, context, chunks[0]), chunks[1..]);
    }
  }

  // ----- the loops

  /** The first loop of ngram_indices. */
  method PrevEos(tokens: seq<int>, eos: int) returns (prev: array<int>)
    ensures fresh(prev) && prev.Length == |tokens| && forall t :: 0 <= t < |tokens| ==> prev[t] == LastEos(tokens, eos, t)
  {
    prev := new int[|tokens|](_ => -1);
    var last := -1;
    for t := 0 to |tokens|
      invariant last == LastEos(tokens, eos, t)
      invariant forall u :: 0 <= u < t ==> prev[u] == LastEos(tokens, eos, u)
    {
      prev[t] := last;
      if tokens[t] == eos {
        last := t;
      }
    }
  }

  /** The innermost loop: the products of the window are mixed. */
  method Mix(g: Geometry, tokens: seq<int>, t: nat, p: nat, prev: int) returns (mixed: nat)
    requires t < |tokens| && p < |g.multipliers| && ProductsFit(g, tokens) && prev == LastEos(tokens, g.eos, t)
    ensures mixed == Mixed(g, tokens, t, p)
  {
    mixed := 0;
    for q := 0 to p + 1
      invariant mixed == if q == 0 then 0 else Mixed(g, tokens, t, q - 1)
    {
      var tok := g.eos;
      var src := t - q;
      if src >= 0 && t - (prev + 1) >= q {
        tok := tokens[src];
      }
      ShiftedIsWindow(tokens, g.eos, t, q);
      WindowFits(g, tokens, t, q);
      mixed := Xor(mixed, tok * g.multipliers[q]);
    }
  }

  /** The first head of the group of order p. */
  function GroupStart(g: Geometry, p: nat): nat {
    if p <= 1 then 0 else GroupStart(g, p - 1) + g.perOrder
  }

  lemma {:induction false} GroupStartIs(g: Geometry, p: nat)
    requires p >= 1
    ensures GroupStart(g, p) == (p - 1) * g.perOrder
  {
    if p > 1 {
      GroupStartIs(g, p - 1);
      assert (p - 1) * g.perOrder == (p - 2) * g.perOrder + g.perOrder;
    }
  }

  /** Head h of the group of order p. */
  lemma GroupHead(g: Geometry, p: nat, h: nat)
    requires GeometryOk(g) && 1 <= p < g.size && h < g.perOrder
    ensures GroupStart(g, p) + h < |g.sizes| && OrderOf(g, GroupStart(g, p) + h) == p
  {
    GroupStartIs(g, p);
    GroupsFit(g.size, g.perOrder, p);
    RemainderIs(GroupStart(g, p) + h, g.perOrder, p - 1, h);
  }

  lemma GroupsFit(size: nat, perOrder: nat, p: nat)
    requires 1 <= p < size
    ensures (p - 1) * perOrder + perOrder <= (size - 1) * perOrder
  {
    assert (size - 1) * perOrder == (p - 1) * perOrder + (size - p) * perOrder;
    MulAtLeast(perOrder, size - p);
  }

  /** Row t of the output holds the ids of the first n heads, and the other rows are as given. */
  twostate predicate RowFilled(g: Geometry, tokens: seq<int>, t: nat, out: array2<int>, n: nat)
    requires GeometryOk(g) && t < |tokens| && ProductsFit(g, tokens)
    requires out.Length0 == |tokens| && out.Length1 == |g.sizes|
    reads out
  {
    && n <= |g.sizes| && (forall h :: 0 <= h < n ==> out[t, h] == HeadId(g, tokens, t, h))
    && forall u, h :: 0 <= u < |tokens| && u != t && 0 <= h < |g.sizes| ==> out[u, h] == old(out[u, h])
  }

  /** C's remainder and the correction that follows it. */
  method Remainder(mixed: int, size: int) returns (m: int)
    requires size > 0
    ensures 0 <= m < size && m == mixed % size
  {
    IdInRange(mixed, size, 0);
    m := CRemainder(mixed, size);
    if m < 0 {
      m := m + size;
    }
  }

  /** The loop over the heads of one order. */
  method FillGroup(g: Geometry, tokens: seq<int>, t: nat, p: nat, mixed: int, out: array2<int>)
    requires GeometryOk(g) && t < |tokens| && ProductsFit(g, tokens) && 1 <= p < g.size && mixed == Mixed(g, tokens, t, p)
    requires out.Length0 == |tokens| && out.Length1 == |g.sizes|
    requires forall h :: 0 <= h < GroupStart(g, p) && h < |g.sizes| ==> out[t, h] == HeadId(g, tokens, t, h)
    modifies out
    ensures RowFilled(g, tokens, t, out, GroupStart(g, p + 1))
  {
    GroupStartIs(g, p);
    GroupHead(g, p, 0);
    for h := 0 to g.perOrder
      invariant RowFilled(g, tokens, t, out, GroupStart(g, p) + h)
    {
      GroupHead(g, p, h);
      var head := (p - 1) * g.perOrder + h;
      var m := Remainder(mixed, g.sizes[head]);
      IdInRange(mixed, g.sizes[head], g.offsets[head]);
      out[t, head] := m + g.offsets[head];
    }
  }

  /** The loop over the orders, for one position. */
  method FillRow(g: Geometry, tokens: seq<int>, t: nat, prev: int, out: array2<int>)
    requires GeometryOk(g) && t < |tokens| && ProductsFit(g, tokens) && prev == LastEos(tokens, g.eos, t)
    requires out.Length0 == |tokens| && out.Length1 == |g.sizes|
    modifies out
    ensures RowFilled(g, tokens, t, out, |g.sizes|)
  {
    for p := 1 to g.size
      invariant RowFilled(g, tokens, t, out, GroupStart(g, p))
    {
      var mixed := Mix(g, tokens, t, p, prev);
      FillGroup(g, tokens, t, p, mixed, out);
    }
    GroupStartIs(g, g.size);
  }

  /** `ngram_indices`; out has a row of ids for each position. */
  method Indices(g: Geometry, tokens: seq<int>, out: array2<int>)
    requires GeometryOk(g) && ProductsFit(g, tokens) && out.Length0 == |tokens| && out.Length1 == |g.sizes|
    modifies out
    ensures forall t, h :: 0 <= t < |tokens| && 0 <= h < |g.sizes| ==> out[t, h] == HeadId(g, tokens, t, h)
  {
    var prev := PrevEos(tokens, g.eos);
    for t := 0 to |tokens|
      invariant forall u :: 0 <= u < |tokens| ==> prev[u] == LastEos(tokens, g.eos, u)
      invariant forall u, h :: 0 <= u < t && 0 <= h < |g.sizes| ==> out[u, h] == HeadId(g, tokens, u, h)
    {
      FillRow(g, tokens, t, prev[t], out);
    }
  }
}
