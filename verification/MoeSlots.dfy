/** The Python form of expert dispatch in src/colibri_runtime/model.py: results are placed at the
    positions `token * top_k + slot` and then weighted and summed. */
module MoeSlots {
  import opened Arithmetic
  import opened Moe
  import TopK

  /** The position of a slot of a token. */
  function Position(b: Batch, t: nat, s: nat): nat {
    Times(t, b.topk) + s
  }

  /** Different slots have different positions, below the number of slots. */
  lemma PositionsDiffer(b: Batch, t: nat, s: nat, v: nat, r: nat)
    requires s < b.topk && r < b.topk && Position(b, t, s) == Position(b, v, r)
    ensures t == v && s == r
  {
    if t < v {
      RowsApart(t, v, b.topk);
    }
    if v < t {
      RowsApart(v, t, b.topk);
    }
  }

  lemma PositionBelow(b: Batch, t: nat, s: nat)
    requires t < |b.x| && s < b.topk
    ensures Position(b, t, s) < Times(|b.x|, b.topk)
  {
    RowsApart(t, |b.x|, b.topk);
  }

  /** Every position belongs to a slot. */
  lemma {:induction false} SlotOf(b: Batch, p: nat, n: nat) returns (t: nat, s: nat)
    requires p < Times(n, b.topk)
    ensures t < n && s < b.topk && p == Position(b, t, s)
  {
    if p >= Times(n - 1, b.topk) {
      t, s := n - 1, p - Times(n - 1, b.topk);
    } else {
      t, s := SlotOf(b, p, n - 1);
    }
  }

  /** Entry i was made for slot s of token t. */
  ghost predicate EntryFor(b: Batch, f: Experts, positions: seq<int>, results: seq<Vector>, i: nat, t: nat, s: nat)
    requires BatchOk(b)
  {
    && i < |positions| == |results| && t < |b.x| && s < b.topk && positions[i] == Position(b, t, s)
    && results[i] == Compute(f, b.ids[t][s], b.x[t])
  }

  /** Entry i belongs to a slot with one of the experts. */
  ghost predicate EntryOk(b: Batch, f: Experts, positions: seq<int>, results: seq<Vector>, i: nat, experts: set<int>)
    requires BatchOk(b)
  {
    exists t: nat, s: nat :: EntryFor(b, f, positions, results, i, t, s) && b.ids[t][s] in experts
  }

  /** The slot has an entry. */
  ghost predicate Placed(b: Batch, positions: seq<int>, t: nat, s: nat) {
    Position(b, t, s) in positions
  }

  /** The entries are those of the slots whose expert is in the set, each once. */
  ghost predicate Entries(b: Batch, f: Experts, positions: seq<int>, results: seq<Vector>, experts: set<int>)
    requires BatchOk(b)
  {
    && |positions| == |results|
    && (forall i :: 0 <= i < |positions| ==> EntryOk(b, f, positions, results, i, experts))
    && (forall t, s :: 0 <= t < |b.x| && 0 <= s < b.topk && b.ids[t][s] in experts ==> Placed(b, positions, t, s))
    && forall i, k :: 0 <= i < k < |positions| ==> positions[i] != positions[k]
  }

  predicate Earlier(v: nat, r: nat, t: nat, s: nat) {
    v < t || (v == t && r < s)
  }

  ghost predicate Listed(tokens: seq<nat>, slots: seq<nat>, t: nat, s: nat) {
    exists i :: 0 <= i < |tokens| && i < |slots| && tokens[i] == t && slots[i] == s
  }

  /** The pairs listed are the slots of e before slot s of token t, in order. */
  ghost predicate SlotsAre(b: Batch, e: int, tokens: seq<nat>, slots: seq<nat>, t: nat, s: nat)
    requires BatchOk(b)
  {
    && |tokens| == |slots|
    && (forall i :: 0 <= i < |tokens| ==> tokens[i] < |b.x| && slots[i] < b.topk && b.ids[tokens[i]][slots[i]] == e
                                          && Earlier(tokens[i], slots[i], t, s))
    && (forall i, k :: 0 <= i < k < |tokens| ==> Earlier(tokens[i], slots[i], tokens[k], slots[k]))
    && forall v, r :: 0 <= v < |b.x| && 0 <= r < b.topk && Earlier(v, r, t, s) && b.ids[v][r] == e ==> Listed(tokens, slots, v, r)
  }

  /** Listing slot s of token t. */
  lemma SlotsGrow(b: Batch, e: int, tokens: seq<nat>, slots: seq<nat>, t: nat, s: nat)
    requires BatchOk(b) && SlotsAre(b, e, tokens, slots, t, s) && t < |b.x| && s < b.topk
    ensures if b.ids[t][s] == e then SlotsAre(b, e, tokens + [t], slots + [s], t, s + 1) else SlotsAre(b, e, tokens, slots, t, s + 1)
  {
    if b.ids[t][s] == e {
      forall v, r | 0 <= v < |b.x| && 0 <= r < b.topk && Earlier(v, r, t, s + 1) && b.ids[v][r] == e
        ensures Listed(tokens + [t], slots + [s], v, r)
      {
        if v == t && r == s {
          assert (tokens + [t])[|tokens|] == v && (slots + [s])[|slots|] == r;
        } else {
          assert Listed(tokens, slots, v, r);
          var i :| 0 <= i < |tokens| && i < |slots| && tokens[i] == v && slots[i] == r;
          assert (tokens + [t])[i] == v && (slots + [s])[i] == r;
        }
      }
    }
  }

  /** nonzero: the slots of one expert, in row-major order, with their tokens. */
  method SlotsOf(b: Batch, e: int) returns (tokens: seq<nat>, slots: seq<nat>)
    requires BatchOk(b)
    ensures SlotsAre(b, e, tokens, slots, |b.x|, 0)
  {
    tokens, slots := [], [];
    for t := 0 to |b.x|
      invariant SlotsAre(b, e, tokens, slots, t, 0)
    {
      for s := 0 to b.topk
        invariant SlotsAre(b, e, tokens, slots, t, s)
      {
        SlotsGrow(b, e, tokens, slots, t, s);
        if b.ids[t][s] == e {
          tokens, slots := tokens + [t], slots + [s];
        }
      }
    }
  }

  // ----- all entries

  /** The loop over the slots of one expert. */
  method AddEntries(b: Batch, f: Experts, e: int, before: seq<int>, held: seq<Vector>, ghost experts: set<int>)
    returns (positions: seq<int>, results: seq<Vector>)
    requires BatchOk(b) && e !in experts && Entries(b, f, before, held, experts)
    ensures Entries(b, f, positions, results, experts + {e})
  {
    var tokens, slots := SlotsOf(b, e);
    positions, results := before, held;
    for k := 0 to |tokens|
      invariant SlotsAre(b, e, tokens, slots, |b.x|, 0)
      invariant |positions| == |results| == |before| + k && positions[..|before|] == before && results[..|before|] == held
      invariant forall i :: 0 <= i < k ==> EntryFor(b, f, positions, results, |before| + i, tokens[i], slots[i])
    {
      var t, s := tokens[k], slots[k];
      Product(t, b.topk);
      positions, results := positions + [t * b.topk + s], results + [Compute(f, e, b.x[t])];
      assert EntryFor(b, f, positions, results, |before| + k, t, s);
    }
    EntriesGrow(b, f, e, before, held, experts, tokens, slots, positions, results);
  }

  lemma EntriesGrow(b: Batch, f: Experts, e: int, before: seq<int>, held: seq<Vector>, experts: set<int>,
                    tokens: seq<nat>, slots: seq<nat>, positions: seq<int>, results: seq<Vector>)
    requires BatchOk(b) && e !in experts && Entries(b, f, before, held, experts)
    requires SlotsAre(b, e, tokens, slots, |b.x|, 0)
    requires |positions| == |results| == |before| + |tokens| && positions[..|before|] == before && results[..|before|] == held
    requires forall i :: 0 <= i < |tokens| ==> EntryFor(b, f, positions, results, |before| + i, tokens[i], slots[i])
    ensures Entries(b, f, positions, results, experts + {e})
  {
    var m := |before|;
    forall i | 0 <= i < |positions| ensures EntryOk(b, f, positions, results, i, experts + {e}) {
      var t, s := EntrySlot(b, f, e, before, held, experts, tokens, slots, positions, results, i);
    }
    forall t, s | 0 <= t < |b.x| && 0 <= s < b.topk && b.ids[t][s] in experts + {e} ensures Placed(b, positions, t, s) {
      if b.ids[t][s] == e {
        assert Listed(tokens, slots, t, s);
        var k :| 0 <= k < |tokens| && k < |slots| && tokens[k] == t && slots[k] == s;
        assert EntryFor(b, f, positions, results, m + k, tokens[k], slots[k]);
      } else {
        assert Placed(b, before, t, s);
        var k :| 0 <= k < m && before[k] == Position(b, t, s);
        assert positions[k] == positions[..m][k];
      }
    }
    forall i, k | 0 <= i < k < |positions| ensures positions[i] != positions[k] {
      if k < m {
        assert positions[i] == before[i] && positions[k] == before[k];
      } else {
        var t, s := EntrySlot(b, f, e, before, held, experts, tokens, slots, positions, results, i);
        var v, r := EntrySlot(b, f, e, before, held, experts, tokens, slots, positions, results, k);
        if positions[i] == positions[k] {
          PositionsDiffer(b, t, s, v, r);
        }
      }
    }
  }

  /** The slot of an entry, old or new. */
  lemma EntrySlot(b: Batch, f: Experts, e: int, before: seq<int>, held: seq<Vector>, experts: set<int>,
                  tokens: seq<nat>, slots: seq<nat>, positions: seq<int>, results: seq<Vector>, i: nat) returns (t: nat, s: nat)
    requires BatchOk(b) && e !in experts && Entries(b, f, before, held, experts)
    requires SlotsAre(b, e, tokens, slots, |b.x|, 0)
    requires |positions| == |results| == |before| + |tokens| && positions[..|before|] == before && results[..|before|] == held
    requires forall i :: 0 <= i < |tokens| ==> EntryFor(b, f, positions, results, |before| + i, tokens[i], slots[i])
    requires i < |positions|
    ensures EntryFor(b, f, positions, results, i, t, s) && b.ids[t][s] in experts + {e}
    ensures if i < |before| then b.ids[t][s] in experts
            else t == tokens[i - |before|] && s == slots[i - |before|] && b.ids[t][s] == e
  {
    if i < |before| {
      assert EntryOk(b, f, before, held, i, experts);
      t, s :| EntryFor(b, f, before, held, i, t, s) && b.ids[t][s] in experts;
      assert positions[i] == positions[..|before|][i] && results[i] == results[..|before|][i];
    } else {
      t, s := tokens[i - |before|], slots[i - |before|];
      assert EntryFor(b, f, positions, results, |before| + (i - |before|), t, s);
    }
  }

  /** When every expert has been visited, the positions are a permutation of all slot positions. */
  lemma PositionsPermute(b: Batch, f: Experts, positions: seq<int>, results: seq<Vector>, experts: set<int>)
    requires BatchOk(b) && Entries(b, f, positions, results, experts)
    requires forall t, s :: 0 <= t < |b.x| && 0 <= s < b.topk ==> b.ids[t][s] in experts
    ensures |positions| == Times(|b.x|, b.topk) && TopK.AreIndices(positions, |positions|)
  {
    var n := Times(|b.x|, b.topk);
    forall i | 0 <= i < |positions| ensures 0 <= positions[i] < n {
      assert EntryOk(b, f, positions, results, i, experts);
      var t: nat, s: nat :| EntryFor(b, f, positions, results, i, t, s) && b.ids[t][s] in experts;
      PositionBelow(b, t, s);
    }
    TopK.ElementsSize(positions, n, |positions|);
    TopK.BelowIs(n);
    forall p | p in TopK.Below(n) ensures p in TopK.Elements(positions, |positions|) {
      var t, s := SlotOf(b, p, |b.x|);
      assert Placed(b, positions, t, s);
      var i :| 0 <= i < |positions| && positions[i] == p;
    }
    assert TopK.Elements(positions, |positions|) == TopK.Below(n);
  }

  // ----- the result

  /** put_along_axis into zeros. */
  method PutAlongAxis(size: nat, positions: seq<int>, results: seq<Vector>) returns (slots: seq<Vector>)
    requires |positions| == |results| && TopK.AreIndices(positions, size)
    ensures |slots| == size && forall i :: 0 <= i < |positions| ==> slots[positions[i]] == results[i]
  {
    slots := seq(size, p => []);
    for i := 0 to |positions|
      invariant |slots| == size && forall k :: 0 <= k < i ==> slots[positions[k]] == results[k]
    {
      forall k | 0 <= k < i ensures positions[k] != positions[i] {
        assert TopK.At(k) && TopK.At(i);
      }
      slots := slots[positions[i] := results[i]];
    }
  }

  /** The slots hold the results of their experts. */
  lemma SlotsHold(b: Batch, f: Experts, positions: seq<int>, results: seq<Vector>, experts: set<int>, slots: seq<Vector>, t: nat,
                  s: nat)
    requires BatchOk(b) && Entries(b, f, positions, results, experts) && t < |b.x| && s < b.topk && b.ids[t][s] in experts
    requires |slots| == Times(|b.x|, b.topk) && TopK.AreIndices(positions, |slots|)
    requires forall i :: 0 <= i < |positions| ==> slots[positions[i]] == results[i]
    ensures Position(b, t, s) < |slots| && slots[Position(b, t, s)] == Compute(f, b.ids[t][s], b.x[t])
  {
    PositionBelow(b, t, s);
    assert Placed(b, positions, t, s);
    var i :| 0 <= i < |positions| && positions[i] == Position(b, t, s);
    assert EntryOk(b, f, positions, results, i, experts);
    var v: nat, r: nat :| EntryFor(b, f, positions, results, i, v, r) && b.ids[v][r] in experts;
    PositionsDiffer(b, t, s, v, r);
  }

  /** The weighted sum over the slots of one token. */
  method WeightedSum(b: Batch, f: Experts, slots: seq<Vector>, t: nat) returns (out: Vector)
    requires BatchOk(b) && ExpertsOk(f, b.d) && t < |b.x| && |slots| == Times(|b.x|, b.topk)
    requires forall s :: 0 <= s < b.topk ==>
               Position(b, t, s) < |slots| && slots[Position(b, t, s)] == Compute(f, b.ids[t][s], b.x[t])
    ensures IsTokenSum(b, f, out, t)
  {
    out := seq(b.d, j => 0.0);
    var start := Offset(t, b.topk);
    for s := 0 to b.topk
      invariant |out| == b.d && forall j :: 0 <= j < b.d ==> out[j] == TokenSum(b, f, t, j, s)
    {
      assert Position(b, t, s) == start + s;
      out := AddWeighted(out, b.weights[t][s], slots[start + s]);
    }
  }

  /** The routed part of StreamedSparseMoeBlock, for the distinct experts in any order: each slot is
      placed once, and the result is the token-wise sum, as in the C code. */
  method DispatchSlots(b: Batch, f: Experts, u: seq<int>) returns (out: seq<Vector>, positions: seq<int>)
    requires BatchOk(b) && ExpertsOk(f, b.d) && AllExperts(b, u)
    ensures |positions| == Times(|b.x|, b.topk) && TopK.AreIndices(positions, |positions|)
    ensures |out| == |b.x| && forall t :: 0 <= t < |b.x| ==> IsTokenSum(b, f, out[t], t)
  {
    var results: seq<Vector> := [];
    positions := [];
    for i := 0 to |u|
      invariant Entries(b, f, positions, results, Members(u[..i]))
    {
      assert Members(u[..i + 1]) == Members(u[..i]) + {u[i]};
      positions, results := AddEntries(b, f, u[i], positions, results, Members(u[..i]));
    }
    assert u[..|u|] == u;
    PositionsPermute(b, f, positions, results, Members(u));
    var slots := PutAlongAxis(|positions|, positions, results);
    out := [];
    for t := 0 to |b.x|
      invariant |out| == t && forall v :: 0 <= v < t ==> IsTokenSum(b, f, out[v], v)
    {
      forall s | 0 <= s < b.topk
        ensures Position(b, t, s) < |slots| && slots[Position(b, t, s)] == Compute(f, b.ids[t][s], b.x[t])
      {
        SlotsHold(b, f, positions, results, Members(u), slots, t, s);
      }
      var row := WeightedSum(b, f, slots, t);
      out := out + [row];
    }
  }
}
