/** Mixture-of-experts dispatch in c/src/model.c and src/colibri_runtime/model.py, in exact
    arithmetic: grouping tokens by expert gives the token-wise sum over the selected slots. */
module Moe {
  import opened Arithmetic

  type Vector = seq<real>

  /** What an expert computes from a token's vector. */
  type Experts = (int, Vector) -> Vector

  /** A batch: the token vectors, and for each token the experts it selected and their weights. */
  datatype Batch = Batch(x: seq<Vector>, ids: seq<seq<int>>, weights: seq<seq<real>>, topk: nat, d: nat)

  ghost predicate BatchOk(b: Batch) {
    && |b.x| == |b.ids| == |b.weights| && (forall t :: 0 <= t < |b.ids| ==> |b.ids[t]| == b.topk)
    && forall t :: 0 <= t < |b.weights| ==> |b.weights[t]| == b.topk
  }

  function Compute(f: Experts, e: int, v: Vector): Vector {
    f(e, v)
  }

  ghost predicate ExpertsOk(f: Experts, d: nat) {
    forall e, v :: |Compute(f, e, v)| == d
  }

  // ----- the token-wise sum

  /** Slot s of token t, element j. */
  function Term(b: Batch, f: Experts, t: nat, s: nat, j: nat): real
    requires BatchOk(b) && ExpertsOk(f, b.d) && t < |b.x| && s < b.topk && j < b.d
  {
    Scale(b.weights[t][s], Compute(f, b.ids[t][s], b.x[t])[j])
  }

  /** The sum over the first n slots of token t, restricted to the experts of a set. */
  function SumIn(b: Batch, f: Experts, t: nat, j: nat, n: nat, experts: set<int>): real
    requires BatchOk(b) && ExpertsOk(f, b.d) && t < |b.x| && n <= b.topk && j < b.d
  {
    if n == 0 then 0.0
    else SumIn(b, f, t, j, n - 1, experts) + if b.ids[t][n - 1] in experts then Term(b, f, t, n - 1, j) else 0.0
  }

  /** The token-wise result: the sum over the first n slots. */
  function TokenSum(b: Batch, f: Experts, t: nat, j: nat, n: nat): real
    requires BatchOk(b) && ExpertsOk(f, b.d) && t < |b.x| && n <= b.topk && j < b.d
  {
    if n == 0 then 0.0 else TokenSum(b, f, t, j, n - 1) + Term(b, f, t, n - 1, j)
  }

  lemma {:induction false} SumTotals(b: Batch, f: Experts, t: nat, j: nat, terms: seq<real>, n: nat)
    requires BatchOk(b) && ExpertsOk(f, b.d) && t < |b.x| && j < b.d && n <= |terms| == b.topk
    requires forall s :: 0 <= s < b.topk ==> terms[s] == Term(b, f, t, s, j)
    ensures TokenSum(b, f, t, j, n) == Total(terms[..n])
  {
    if n == 0 {
    } else {
      SumTotals(b, f, t, j, terms, n - 1);
      TotalGrows(terms, n - 1);
    }
  }

  /** The result of a token: the weight of each slot times what the slot's expert computes from the token. */
  lemma TokenSumExactly(b: Batch, f: Experts, t: nat, j: nat, terms: seq<real>)
    requires BatchOk(b) && ExpertsOk(f, b.d) && t < |b.x| && j < b.d && |terms| == b.topk
    requires forall s :: 0 <= s < b.topk ==> |f(b.ids[t][s], b.x[t])| == b.d && terms[s] == b.weights[t][s] * f(b.ids[t][s], b.x[t])[j]
    ensures TokenSum(b, f, t, j, b.topk) == Total(terms)
  {
    SumTotals(b, f, t, j, terms, b.topk);
    assert terms[..b.topk] == terms;
  }

  /** out is the token-wise result of token t. */
  ghost predicate IsTokenSum(b: Batch, f: Experts, out: Vector, t: nat)
    requires BatchOk(b) && ExpertsOk(f, b.d) && t < |b.x|
  {
    |out| == b.d && forall j :: 0 <= j < b.d ==> out[j] == TokenSum(b, f, t, j, b.topk)
  }

  lemma {:induction false} SumOfAll(b: Batch, f: Experts, t: nat, j: nat, n: nat, experts: set<int>)
    requires BatchOk(b) && ExpertsOk(f, b.d) && t < |b.x| && n <= b.topk && j < b.d
    requires forall s :: 0 <= s < n ==> b.ids[t][s] in experts
    ensures SumIn(b, f, t, j, n, experts) == TokenSum(b, f, t, j, n)
  {
    if n == 0 {
    } else {
      SumOfAll(b, f, t, j, n - 1, experts);
    }
  }

  /** The sums over disjoint sets of experts add up. */
  lemma {:induction false} SumAddsExpert(b: Batch, f: Experts, t: nat, j: nat, n: nat, experts: set<int>, e: int)
    requires BatchOk(b) && ExpertsOk(f, b.d) && t < |b.x| && n <= b.topk && j < b.d && e !in experts
    ensures SumIn(b, f, t, j, n, experts + {e}) == SumIn(b, f, t, j, n, experts) + SumIn(b, f, t, j, n, {e})
  {
    if n == 0 {
    } else {
      SumAddsExpert(b, f, t, j, n - 1, experts, e);
    }
  }

  lemma {:induction false} SumWithout(b: Batch, f: Experts, t: nat, j: nat, n: nat, e: int)
    requires BatchOk(b) && ExpertsOk(f, b.d) && t < |b.x| && n <= b.topk && j < b.d
    requires forall s :: 0 <= s < n ==> b.ids[t][s] != e
    ensures SumIn(b, f, t, j, n, {e}) == 0.0
  {
    if n == 0 {
    } else {
      SumWithout(b, f, t, j, n - 1, e);
    }
  }

  // ----- the distinct experts

  ghost predicate Distinct(u: seq<int>) {
    forall i, k :: 0 <= i < k < |u| ==> u[i] != u[k]
  }

  ghost function Members(u: seq<int>): set<int> {
    set e | e in u
  }

  /** u holds each expert of the batch once, and no other. */
  ghost predicate AllExperts(b: Batch, u: seq<int>)
    requires BatchOk(b)
  {
    && Distinct(u) && (forall t, s :: 0 <= t < |b.x| && 0 <= s < b.topk ==> b.ids[t][s] in u)
    && forall i :: 0 <= i < |u| ==> Selected(b, u[i])
  }

  ghost predicate Selected(b: Batch, e: int)
    requires BatchOk(b)
  {
    exists t, s :: 0 <= t < |b.x| && 0 <= s < b.topk && b.ids[t][s] == e
  }

  /** Every slot of every token is handled in the round of exactly one expert. */
  lemma HandledOnce(b: Batch, u: seq<int>, t: nat, s: nat) returns (round: nat)
    requires BatchOk(b) && AllExperts(b, u) && t < |b.x| && s < b.topk
    ensures round < |u| && u[round] == b.ids[t][s]
    ensures forall i :: 0 <= i < |u| && u[i] == b.ids[t][s] ==> i == round
  {
    assert b.ids[t][s] in u;
    round :| 0 <= round < |u| && u[round] == b.ids[t][s];
  }

  /** The loop of c/src/model.c that collects the experts in order of first occurrence. */
  method UniqueExperts(b: Batch) returns (u: seq<int>)
    requires BatchOk(b)
    ensures AllExperts(b, u)
  {
    u := [];
    for t := 0 to |b.x|
      invariant Distinct(u) && (forall i :: 0 <= i < |u| ==> Selected(b, u[i]))
      invariant forall v, s :: 0 <= v < t && 0 <= s < b.topk ==> b.ids[v][s] in u
    {
      for s := 0 to b.topk
        invariant Distinct(u) && (forall i :: 0 <= i < |u| ==> Selected(b, u[i]))
        invariant forall v, r :: 0 <= v < t && 0 <= r < b.topk ==> b.ids[v][r] in u
        invariant forall r :: 0 <= r < s ==> b.ids[t][r] in u
      {
        var e := b.ids[t][s];
        var seen := false;
        for i := 0 to |u|
          invariant !seen ==> forall k :: 0 <= k < i ==> u[k] != e
          invariant seen ==> e in u
        {
          if u[i] == e {
            seen := true;
            break;
          }
        }
        if !seen {
          assert Selected(b, e);
          u := u + [e];
        }
      }
    }
  }

  // ----- grouped dispatch

  /** The tokens that selected an expert, each once, in order. */
  ghost predicate Gathered(b: Batch, e: int, tokens: seq<nat>, n: nat)
    requires BatchOk(b) && n <= |b.x|
  {
    && (forall i :: 0 <= i < |tokens| ==> tokens[i] < n && e in b.ids[tokens[i]])
    && (forall i, k :: 0 <= i < k < |tokens| ==> tokens[i] < tokens[k])
    && forall t :: 0 <= t < n && e in b.ids[t] ==> t in tokens
  }

  method Gather(b: Batch, e: int) returns (tokens: seq<nat>)
    requires BatchOk(b)
    ensures Gathered(b, e, tokens, |b.x|)
  {
    tokens := [];
    for t := 0 to |b.x|
      invariant Gathered(b, e, tokens, t)
    {
      var found := false;
      for s := 0 to b.topk
        invariant found <==> e in b.ids[t][..s]
      {
        if b.ids[t][s] == e {
          found := true;
          break;
        }
      }
      assert b.ids[t][..b.topk] == b.ids[t];
      if found {
        tokens := tokens + [t];
      }
    }
  }

  /** The output of a token, element by element. */
  ghost predicate TokenIs(b: Batch, f: Experts, out: Vector, t: nat, experts: set<int>)
    requires BatchOk(b) && ExpertsOk(f, b.d) && t < |b.x|
  {
    |out| == b.d && forall j :: 0 <= j < b.d ==> out[j] == SumIn(b, f, t, j, b.topk, experts)
  }

  /** The scatter of one gathered token: its slots for expert e add the weighted result. */
  method ScatterToken(b: Batch, f: Experts, t: nat, e: int, result: Vector, before: Vector, ghost experts: set<int>)
    returns (out: Vector)
    requires BatchOk(b) && ExpertsOk(f, b.d) && t < |b.x| && e !in experts && result == Compute(f, e, b.x[t])
    requires TokenIs(b, f, before, t, experts)
    ensures TokenIs(b, f, out, t, experts + {e})
  {
    out := before;
    for s := 0 to b.topk
      invariant |out| == b.d && forall j :: 0 <= j < b.d ==> out[j] == before[j] + SumIn(b, f, t, j, s, {e})
    {
      if b.ids[t][s] == e {
        out := AddWeighted(out, b.weights[t][s], result);
      }
    }
    forall j | 0 <= j < b.d ensures out[j] == SumIn(b, f, t, j, b.topk, experts + {e}) {
      SumAddsExpert(b, f, t, j, b.topk, experts, e);
    }
  }

  /** The innermost loop. */
  function AddWeighted(out: Vector, w: real, result: Vector): (r: Vector)
    requires |out| == |result|
    ensures |r| == |out|
  {
    seq(|out|, j requires 0 <= j < |out| => out[j] + Scale(w, result[j]))
  }

  /** Every token has the terms of the experts in the set. */
  ghost predicate OutIs(b: Batch, f: Experts, out: seq<Vector>, experts: set<int>)
    requires BatchOk(b) && ExpertsOk(f, b.d)
  {
    |out| == |b.x| && forall t :: 0 <= t < |b.x| ==> TokenIs(b, f, out[t], t, experts)
  }

  lemma UntouchedToken(b: Batch, f: Experts, out: Vector, t: nat, experts: set<int>, e: int)
    requires BatchOk(b) && ExpertsOk(f, b.d) && t < |b.x| && TokenIs(b, f, out, t, experts)
    requires e !in experts && e !in b.ids[t]
    ensures TokenIs(b, f, out, t, experts + {e})
  {
    forall j | 0 <= j < b.d ensures out[j] == SumIn(b, f, t, j, b.topk, experts + {e}) {
      SumAddsExpert(b, f, t, j, b.topk, experts, e);
      SumWithout(b, f, t, j, b.topk, e);
    }
  }

  /** The round of one expert: gather, compute, scatter. */
  method ExpertRound(b: Batch, f: Experts, e: int, before: seq<Vector>, ghost experts: set<int>) returns (out: seq<Vector>)
    requires BatchOk(b) && ExpertsOk(f, b.d) && e !in experts && OutIs(b, f, before, experts)
    ensures OutIs(b, f, out, experts + {e})
  {
    out := before;
    var tokens := Gather(b, e);
    var selected := seq(|tokens|, i requires 0 <= i < |tokens| && Gathered(b, e, tokens, |b.x|) => b.x[tokens[i]]);
    var results := seq(|selected|, i requires 0 <= i < |selected| => Compute(f, e, selected[i]));
    for i := 0 to |tokens|
      invariant |out| == |b.x|
      invariant forall k :: 0 <= k < i ==> TokenIs(b, f, out[tokens[k]], tokens[k], experts + {e})
      invariant forall t :: 0 <= t < |b.x| && t !in tokens[..i] ==> out[t] == before[t]
    {
      var t := tokens[i];
      var row := ScatterToken(b, f, t, e, results[i], out[t], experts);
      out := out[t := row];
    }
    assert tokens[..|tokens|] == tokens;
    forall t | 0 <= t < |b.x| ensures TokenIs(b, f, out[t], t, experts + {e}) {
      if t in tokens {
        var k :| 0 <= k < |tokens| && tokens[k] == t;
        assert TokenIs(b, f, out[tokens[k]], tokens[k], experts + {e});
      } else {
        UntouchedToken(b, f, before[t], t, experts, e);
      }
    }
  }

  /** The routed part of moe_forward: the grouped result is the token-wise one. */
  method Dispatch(b: Batch, f: Experts) returns (out: seq<Vector>)
    requires BatchOk(b) && ExpertsOk(f, b.d)
    ensures |out| == |b.x| && forall t :: 0 <= t < |b.x| ==> IsTokenSum(b, f, out[t], t)
  {
    out := seq(|b.x|, t => seq(b.d, j => 0.0));
    var u := UniqueExperts(b);
    ghost var experts: set<int> := {};
    NothingSummed(b, f, out);
    for i := 0 to |u|
      invariant experts == Members(u[..i]) && OutIs(b, f, out, experts)
    {
      assert u[..i + 1] == u[..i] + [u[i]];
      out := ExpertRound(b, f, u[i], out, experts);
      experts := experts + {u[i]};
    }
    assert u[..|u|] == u;
    forall t | 0 <= t < |b.x| ensures IsTokenSum(b, f, out[t], t) {
      assert TokenIs(b, f, out[t], t, experts);
      forall j | 0 <= j < b.d ensures out[t][j] == TokenSum(b, f, t, j, b.topk) {
        SumOfAll(b, f, t, j, b.topk, experts);
      }
    }
  }

  lemma NothingSummed(b: Batch, f: Experts, out: seq<Vector>)
    requires BatchOk(b) && ExpertsOk(f, b.d) && |out| == |b.x|
    requires forall t :: 0 <= t < |b.x| ==> |out[t]| == b.d && forall j :: 0 <= j < b.d ==> out[t][j] == 0.0
    ensures OutIs(b, f, out, {})
  {
    forall t, j | 0 <= t < |b.x| && 0 <= j < b.d ensures SumIn(b, f, t, j, b.topk, {}) == 0.0 {
      EmptySum(b, f, t, j, b.topk);
    }
  }

  lemma {:induction false} EmptySum(b: Batch, f: Experts, t: nat, j: nat, n: nat)
    requires BatchOk(b) && ExpertsOk(f, b.d) && t < |b.x| && n <= b.topk && j < b.d
    ensures SumIn(b, f, t, j, n, {}) == 0.0
  {
    if n == 0 {
    } else {
      EmptySum(b, f, t, j, n - 1);
    }
  }
}
