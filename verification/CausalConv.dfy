/** The dilated depthwise convolution of c/src/kernel.c and the states c/src/model.c saves between
    chunks, in exact arithmetic: chunking does not change the outputs. */
module CausalConv {
  import opened Arithmetic
  import opened Chunks

  /** One value for each channel. */
  type Vector = seq<real>

  /** The weights of k taps for each channel, and the distance between taps. */
  datatype Kernel = Kernel(weights: seq<Vector>, k: nat, d: nat)

  ghost predicate KernelOk(f: Kernel, channels: nat) {
    f.k >= 1 && |f.weights| == channels && forall c :: 0 <= c < channels ==> |f.weights[c]| == f.k
  }

  ghost predicate Rows(x: seq<Vector>, channels: nat) {
    forall t :: 0 <= t < |x| ==> |x[t]| == channels
  }

  /** The rows a state holds. */
  function StateLength(f: Kernel): nat {
    if f.k == 0 then 0 else Times(f.k - 1, f.d)
  }

  /** What tap i adds to the output at row t; taps before the first row add nothing. */
  function Tap(f: Kernel, x: seq<Vector>, channels: nat, t: nat, c: nat, i: nat): real
    requires KernelOk(f, channels) && Rows(x, channels) && t < |x| && c < channels && i < f.k
  {
    var back := Times(f.k - 1 - i, f.d);
    if back <= t then Scale(x[t - back][c], f.weights[c][i]) else 0.0
  }

  function Taps(f: Kernel, x: seq<Vector>, channels: nat, t: nat, c: nat, n: nat): real
    requires KernelOk(f, channels) && Rows(x, channels) && t < |x| && c < channels && n <= f.k
  {
    if n == 0 then 0.0 else Taps(f, x, channels, t, c, n - 1) + Tap(f, x, channels, t, c, n - 1)
  }

  /** The output row at t: the causal convolution of x. */
  function OutputAt(f: Kernel, x: seq<Vector>, channels: nat, t: nat): (v: Vector)
    requires KernelOk(f, channels) && Rows(x, channels) && t < |x|
    ensures |v| == channels
  {
    seq(channels, c requires 0 <= c < channels => Taps(f, x, channels, t, c, f.k))
  }

  lemma {:induction false} TapsTotal(f: Kernel, x: seq<Vector>, channels: nat, t: nat, c: nat, terms: seq<real>, n: nat)
    requires KernelOk(f, channels) && Rows(x, channels) && t < |x| && c < channels && n <= |terms| == f.k
    requires forall i :: 0 <= i < f.k ==> terms[i] == Tap(f, x, channels, t, c, i)
    ensures Taps(f, x, channels, t, c, n) == Total(terms[..n])
  {
    if n == 0 {
    } else {
      TapsTotal(f, x, channels, t, c, terms, n - 1);
      TotalGrows(terms, n - 1);
    }
  }

  lemma TapIs(f: Kernel, x: seq<Vector>, channels: nat, t: nat, c: nat, i: nat, back: nat)
    requires KernelOk(f, channels) && Rows(x, channels) && t < |x| && c < channels && i < f.k && back == (f.k - 1 - i) * f.d
    ensures Tap(f, x, channels, t, c, i) == if back <= t then x[t - back][c] * f.weights[c][i] else 0.0
  {
    Product(f.k - 1 - i, f.d);
  }

  /** The output of a channel at row t: each weight times the value of that channel as many rows back as its
      distance from the last weight says, where there is such a row. */
  lemma OutputExactly(f: Kernel, x: seq<Vector>, channels: nat, t: nat, c: nat, terms: seq<real>)
    requires KernelOk(f, channels) && Rows(x, channels) && t < |x| && c < channels && |terms| == f.k
    requires forall i :: 0 <= i < f.k ==> var back := (f.k - 1 - i) * f.d;
               terms[i] == if 0 <= back <= t then x[t - back][c] * f.weights[c][i] else 0.0
    ensures OutputAt(f, x, channels, t)[c] == Total(terms)
  {
    forall i | 0 <= i < f.k ensures terms[i] == Tap(f, x, channels, t, c, i) {
      var back := Times(f.k - 1 - i, f.d);
      Product(f.k - 1 - i, f.d);
      TapIs(f, x, channels, t, c, i, back);
    }
    TapsTotal(f, x, channels, t, c, terms, f.k);
    assert terms[..f.k] == terms;
  }

  // ----- an output depends on the rows of a state and its own row only

  lemma {:induction false} TapsAreLocal(f: Kernel, a: seq<Vector>, b: seq<Vector>, channels: nat, t: nat, u: nat, c: nat, n: nat)
    requires KernelOk(f, channels) && Rows(a, channels) && Rows(b, channels) && c < channels && n <= f.k
    requires Agree(a, t, b, u, StateLength(f))
    ensures Taps(f, a, channels, t, c, n) == Taps(f, b, channels, u, c, n)
  {
    if n == 0 {
    } else {
      TapsAreLocal(f, a, b, channels, t, u, c, n - 1);
      TimesGrows(f.k - n, f.k - 1, f.d);
      assert Back(a, t, Times(f.k - n, f.d)) == Back(b, u, Times(f.k - n, f.d));
    }
  }

  lemma OutputIsLocal(f: Kernel, a: seq<Vector>, b: seq<Vector>, channels: nat, t: nat, u: nat)
    requires KernelOk(f, channels) && Rows(a, channels) && Rows(b, channels) && Agree(a, t, b, u, StateLength(f))
    ensures OutputAt(f, a, channels, t) == OutputAt(f, b, channels, u)
  {
    forall c | 0 <= c < channels ensures OutputAt(f, a, channels, t)[c] == OutputAt(f, b, channels, u)[c] {
      TapsAreLocal(f, a, b, channels, t, u, c, f.k);
    }
  }

  // ----- chunks

  /** The outputs for a chunk after a state. */
  function ChunkOutputs(f: Kernel, state: seq<Vector>, chunk: seq<Vector>, channels: nat): (r: seq<Vector>)
    requires KernelOk(f, channels) && Rows(state + chunk, channels)
    ensures |r| == |chunk|
  {
    seq(|chunk|, i requires 0 <= i < |chunk| => OutputAt(f, state + chunk, channels, |state| + i))
  }

  /** The state saved after a chunk. */
  function Saved(state: seq<Vector>, chunk: seq<Vector>): (r: seq<Vector>)
    ensures |r| == |state|
  {
    (state + chunk)[|chunk|..]
  }

  lemma SavedRows(state: seq<Vector>, a: seq<Vector>, b: seq<Vector>, channels: nat)
    requires Rows(state + (a + b), channels)
    ensures Rows(state + a, channels) && Rows(Saved(state, a) + b, channels)
  {
    var h, l, r := state + (a + b), state + a, Saved(state, a) + b;
    forall t | 0 <= t < |l| ensures |l[t]| == channels {
      assert l[t] == h[t];
    }
    forall t | 0 <= t < |r| ensures |r[t]| == channels {
      assert r[t] == h[|a| + t];
    }
  }

  /** The saved state is the last rows of everything so far, even when the chunk is shorter. */
  lemma SavedIsSuffix(state: seq<Vector>, a: seq<Vector>, b: seq<Vector>)
    ensures Saved(Saved(state, a), b) == Saved(state, a + b)
  {
    assert state + (a + b) == (state + a) + b;
    assert Saved(state, a) + b == (state + (a + b))[|a|..];
  }

  lemma SplitOutputs(f: Kernel, state: seq<Vector>, a: seq<Vector>, b: seq<Vector>, channels: nat)
    requires KernelOk(f, channels) && |state| == StateLength(f) && Rows(state + (a + b), channels)
    ensures Rows(state + a, channels) && Rows(Saved(state, a) + b, channels)
    ensures ChunkOutputs(f, state, a + b, channels) ==
              ChunkOutputs(f, state, a, channels) + ChunkOutputs(f, Saved(state, a), b, channels)
  {
    SavedRows(state, a, b, channels);
    var h, l, r := state + (a + b), state + a, Saved(state, a) + b;
    var left, right := ChunkOutputs(f, state, a, channels), ChunkOutputs(f, Saved(state, a), b, channels);
    forall i | 0 <= i < |a| + |b| ensures ChunkOutputs(f, state, a + b, channels)[i] == (left + right)[i] {
      var t := |state| + i;
      if i < |a| {
        assert Agree(h, t, l, t, |state|);
        OutputIsLocal(f, h, l, channels, t, t);
      } else {
        assert Agree(h, t, r, t - |a|, |state|);
        OutputIsLocal(f, h, r, channels, t, t - |a|);
      }
    }
  }

  /** Chunks processed one after the other, each after the state saved before it. */
  function Streamed(f: Kernel, state: seq<Vector>, chunks: seq<seq<Vector>>, channels: nat): seq<Vector>
    requires KernelOk(f, channels) && |state| == StateLength(f) && Rows(state + Concat(chunks), channels)
    decreases |chunks|
  {
    if chunks == [] then []
    else
      SavedRows(state, chunks[0], Concat(chunks[1..]), channels);
      ChunkOutputs(f, state, chunks[0], channels) + Streamed(f, Saved(state, chunks[0]), chunks[1..], channels)
  }

  /** Any chunking gives the outputs of one convolution over the state and all rows. */
  lemma {:induction false} ChunksDoNotMatter(f: Kernel, state: seq<Vector>, chunks: seq<seq<Vector>>, channels: nat)
    requires KernelOk(f, channels) && |state| == StateLength(f) && Rows(state + Concat(chunks), channels)
    ensures Streamed(f, state, chunks, channels) == ChunkOutputs(f, state, Concat(chunks), channels)
    decreases |chunks|
  {
    if chunks == [] {
    } else {
      SplitOutputs(f, state, chunks[0], Concat(chunks[1..]), channels);
      ChunksDoNotMatter(f, Saved(state, chunks[0]), chunks[1..], channels);
    }
  }

  // ----- zero states

  ghost predicate Zero(state: seq<Vector>, channels: nat) {
    forall t :: 0 <= t < |state| ==> |state[t]| == channels && forall c :: 0 <= c < channels ==> state[t][c] == 0.0
  }

  lemma {:induction false} ZeroTaps(f: Kernel, pad: seq<Vector>, x: seq<Vector>, channels: nat, t: nat, c: nat, n: nat)
    requires KernelOk(f, channels) && Rows(x, channels) && Zero(pad, channels) && t < |x| && c < channels && n <= f.k
    ensures Rows(pad + x, channels) && Taps(f, pad + x, channels, |pad| + t, c, n) == Taps(f, x, channels, t, c, n)
  {
    if n == 0 {
    } else {
      ZeroTaps(f, pad, x, channels, t, c, n - 1);
      var back := Times(f.k - n, f.d);
      if back <= t {
        assert (pad + x)[|pad| + t - back] == x[t - back];
      } else if back <= |pad| + t {
        assert Scale((pad + x)[|pad| + t - back][c], f.weights[c][n - 1]) == 0.0;
      }
    }
  }

  /** Starting from a zero state, any chunking gives the plain causal convolution of all rows. */
  lemma StreamedIsCausal(f: Kernel, state: seq<Vector>, chunks: seq<seq<Vector>>, channels: nat)
    requires KernelOk(f, channels) && |state| == StateLength(f) && Zero(state, channels) && Rows(Concat(chunks), channels)
    ensures Rows(state + Concat(chunks), channels)
    ensures |Streamed(f, state, chunks, channels)| == |Concat(chunks)|
    ensures forall t :: 0 <= t < |Concat(chunks)| ==>
              Streamed(f, state, chunks, channels)[t] == OutputAt(f, Concat(chunks), channels, t)
  {
    var x := Concat(chunks);
    ChunksDoNotMatter(f, state, chunks, channels);
    forall t | 0 <= t < |x| ensures Streamed(f, state, chunks, channels)[t] == OutputAt(f, x, channels, t) {
      forall c | 0 <= c < channels
        ensures OutputAt(f, state + x, channels, |state| + t)[c] == OutputAt(f, x, channels, t)[c]
      {
        ZeroTaps(f, state, x, channels, t, c, f.k);
      }
      assert OutputAt(f, state + x, channels, |state| + t) == OutputAt(f, x, channels, t);
    }
  }

  // ----- the loops

  /** The innermost loop: the taps of one channel. */
  method SumTaps(f: Kernel, x: seq<Vector>, channels: nat, t: nat, c: nat) returns (acc: real)
    requires KernelOk(f, channels) && Rows(x, channels) && t < |x| && c < channels
    ensures acc == Taps(f, x, channels, t, c, f.k)
  {
    acc := 0.0;
    for i := 0 to f.k
      invariant acc == Taps(f, x, channels, t, c, i)
    {
      Product(f.k - 1 - i, f.d);
      var src := t - (f.k - 1 - i) * f.d;
      if 0 <= src < |x| {
        acc := acc + Scale(x[src][c], f.weights[c][i]);
      }
    }
  }

  /** The rows of out before t, and the channels of row t before c, hold the convolution. */
  ghost predicate Filled(f: Kernel, x: seq<Vector>, channels: nat, y: array2<real>, t: nat, c: nat)
    requires KernelOk(f, channels) && Rows(x, channels) && y.Length0 == |x| && y.Length1 == channels
    reads y
  {
    && (forall u, e :: 0 <= u < t && u < |x| && 0 <= e < channels ==> y[u, e] == Taps(f, x, channels, u, e, f.k))
    && (t < |x| ==> forall e :: 0 <= e < c && e < channels ==> y[t, e] == Taps(f, x, channels, t, e, f.k))
  }

  /** `kernel_conv1d_depthwise`. */
  method Convolve(f: Kernel, x: seq<Vector>, channels: nat, y: array2<real>)
    requires KernelOk(f, channels) && Rows(x, channels) && y.Length0 == |x| && y.Length1 == channels
    modifies y
    ensures Filled(f, x, channels, y, |x|, 0)
  {
    for t := 0 to |x|
      invariant Filled(f, x, channels, y, t, 0)
    {
      for c := 0 to channels
        invariant Filled(f, x, channels, y, t, c)
      {
        var acc := SumTaps(f, x, channels, t, c);
        y[t, c] := acc;
      }
    }
  }

  /** A layer's convolution and the rows it keeps between calls: `conv_state` and `ple_state`. */
  class Layer {
    const f: Kernel
    const channels: nat
    var state: seq<Vector>

    ghost predicate Valid()
      reads this
    {
      KernelOk(f, channels) && |state| == StateLength(f) && Rows(state, channels)
    }

    constructor (f: Kernel, channels: nat)
      requires KernelOk(f, channels)
      ensures Valid() && Zero(state, channels) && this.f == f && this.channels == channels
    {
      this.f, this.channels := f, channels;
      state := seq(StateLength(f), t => seq(channels, c => 0.0));
    }

    /** One chunk: the outputs for its rows, and the state for the next one. */
    method Step(chunk: seq<Vector>) returns (out: seq<Vector>)
      requires Valid() && Rows(chunk, channels)
      modifies this
      ensures Valid() && Rows(old(state) + chunk, channels)
      ensures out == ChunkOutputs(f, old(state), chunk, channels) && state == Saved(old(state), chunk)
    {
      var input := state + chunk;
      var length := |state|;
      state := input[|chunk|..];
      var y := new real[|input|, channels]((t, c) => 0.0);
      Convolve(f, input, channels, y);
      out := [];
      for i := 0 to |chunk|
        invariant Filled(f, input, channels, y, |input|, 0) && state == input[|chunk|..]
        invariant |out| == i && forall k :: 0 <= k < i ==> out[k] == OutputAt(f, input, channels, length + k)
      {
        var row := seq(channels, c requires 0 <= c < channels reads y => y[length + i, c]);
        out := out + [row];
      }
    }
  }
}
