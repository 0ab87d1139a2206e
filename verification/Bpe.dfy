/** The merge loop of c/src/tokenizer.c (`encode_chunk`): an incrementally maintained array of
    pair ranks against the rule it implements, "merge the leftmost pair of lowest rank whose
    merged token exists, until there is none". */
module Bpe {
  import opened Options
  import ProbeTable

  /** The rank of a pair of tokens and the token they merge into, negative when the vocabulary
      has none. */
  datatype Merge = Merge(rank: int, merged: int)

  type Pair = (int, int)

  type Merges = map<Pair, Merge>

  const INT32_MAX := 0x7FFF_FFFF

  // ----- the rule

  function RankOf(m: Merges, a: int, b: int): int {
    if (a, b) in m then m[(a, b)].rank else -1
  }

  /** The pair can be merged: it has a rank below the scan's initial bound and a merged token. */
  predicate Usable(m: Merges, a: int, b: int) {
    (a, b) in m && 0 <= m[(a, b)].rank < INT32_MAX && m[(a, b)].merged >= 0
  }

  predicate UsableAt(m: Merges, cur: seq<int>, i: nat)
    requires i + 1 < |cur|
  {
    Usable(m, cur[i], cur[i + 1])
  }

  function RankAt(m: Merges, cur: seq<int>, i: nat): int
    requires i + 1 < |cur|
  {
    RankOf(m, cur[i], cur[i + 1])
  }

  /** i is the leftmost usable pair of lowest rank. */
  ghost predicate IsBest(m: Merges, cur: seq<int>, i: nat) {
    && i + 1 < |cur| && UsableAt(m, cur, i)
    && (forall j :: 0 <= j < |cur| - 1 && UsableAt(m, cur, j) ==>
          RankAt(m, cur, i) < RankAt(m, cur, j) || (RankAt(m, cur, i) == RankAt(m, cur, j) && i <= j))
  }

  ghost predicate NoneUsable(m: Merges, cur: seq<int>) {
    forall j :: 0 <= j < |cur| - 1 ==> !UsableAt(m, cur, j)
  }

  /** The best pair from n on, searched from the right. */
  function BestFrom(m: Merges, cur: seq<int>, n: nat): (r: Option<nat>)
    ensures r.Some? ==> n <= r.value && r.value + 1 < |cur| && UsableAt(m, cur, r.value)
    decreases |cur| - n
  {
    if n + 1 >= |cur| then None
    else
      var rest := BestFrom(m, cur, n + 1);
      if !UsableAt(m, cur, n) then rest
      else if rest.None? || RankAt(m, cur, n) <= RankAt(m, cur, rest.value) then Some(n)
      else rest
  }

  function MergeAt(m: Merges, cur: seq<int>, i: nat): (r: seq<int>)
    requires i + 1 < |cur| && UsableAt(m, cur, i)
    ensures |r| == |cur| - 1
  {
    seq(|cur| - 1, j requires 0 <= j < |cur| - 1 =>
      if j < i then cur[j] else if j == i then m[(cur[i], cur[i + 1])].merged else cur[j + 1])
  }

  /** The naive rule. */
  function Merged(m: Merges, cur: seq<int>): seq<int>
    decreases |cur|
  {
    match BestFrom(m, cur, 0)
    case None => cur
    case Some(i) => Merged(m, MergeAt(m, cur, i))
  }

  lemma {:induction false} BestFromIsBest(m: Merges, cur: seq<int>, n: nat)
    ensures var r := BestFrom(m, cur, n);
            if r.None? then forall j :: n <= j < |cur| - 1 ==> !UsableAt(m, cur, j)
            else forall j :: n <= j < |cur| - 1 && UsableAt(m, cur, j) ==>
              RankAt(m, cur, r.value) < RankAt(m, cur, j) || (RankAt(m, cur, r.value) == RankAt(m, cur, j) && r.value <= j)
    decreases |cur| - n
  {
    if n + 1 < |cur| {
      BestFromIsBest(m, cur, n + 1);
    }
  }

  /** The rule merges the leftmost usable pair of lowest rank. */
  lemma MergesTheBest(m: Merges, cur: seq<int>, i: nat)
    requires IsBest(m, cur, i)
    ensures BestFrom(m, cur, 0) == Some(i) && Merged(m, cur) == Merged(m, MergeAt(m, cur, i))
  {
    BestFromIsBest(m, cur, 0);
  }

  lemma MergesNoMore(m: Merges, cur: seq<int>)
    requires NoneUsable(m, cur)
    ensures Merged(m, cur) == cur
  {
  }

  /** The rule ends with no usable pair left. */
  lemma {:induction false} MergedIsFinal(m: Merges, cur: seq<int>)
    ensures NoneUsable(m, Merged(m, cur)) && |Merged(m, cur)| <= |cur|
    decreases |cur|
  {
    BestFromIsBest(m, cur, 0);
    match BestFrom(m, cur, 0)
    case None =>
    case Some(i) => MergedIsFinal(m, MergeAt(m, cur, i));
  }

  // ----- the rank array

  /** A nonnegative entry is the rank of its pair, and the entry of a usable pair is its rank:
      the loop sets entries of unusable pairs to -1 as it meets them. */
  ghost predicate RanksOk(m: Merges, cur: seq<int>, rank: seq<int>) {
    && |rank| >= |cur| - 1
    && forall i :: 0 <= i < |cur| - 1 ==>
         (rank[i] >= 0 ==> rank[i] == RankAt(m, cur, i)) && (UsableAt(m, cur, i) ==> rank[i] == RankAt(m, cur, i))
  }

  /** The number of nonnegative entries before n. */
  function Positive(rank: seq<int>, n: nat): nat
    requires n <= |rank|
  {
    if n == 0 then 0 else (if rank[n - 1] >= 0 then 1 else 0) + Positive(rank, n - 1)
  }

  lemma {:induction false} PositiveDecreases(rank: seq<int>, n: nat, i: nat)
    requires i < n <= |rank| && rank[i] >= 0
    ensures Positive(rank[i := -1], n) == Positive(rank, n) - 1
  {
    if i == n - 1 {
      PositiveSame(rank, rank[i := -1], n - 1);
    } else {
      PositiveDecreases(rank, n - 1, i);
    }
  }

  lemma {:induction false} PositiveSame(a: seq<int>, b: seq<int>, n: nat)
    requires n <= |a| && n <= |b| && forall i :: 0 <= i < n ==> a[i] == b[i]
    ensures Positive(a, n) == Positive(b, n)
  {
    if n == 0 {
    } else {
      PositiveSame(a, b, n - 1);
    }
  }

  /** What the scan over the rank array finds. */
  ghost predicate Scanned(rank: seq<int>, n: nat, best: nat, bound: int) {
    && n <= |rank|
    && (forall j :: 0 <= j < n && 0 <= rank[j] < INT32_MAX ==> bound <= rank[j] && (bound == rank[j] ==> best <= j))
    && (bound == INT32_MAX || (best < n && rank[best] == bound && 0 <= bound < INT32_MAX))
  }

  lemma ScanFindsBest(m: Merges, cur: seq<int>, rank: seq<int>, best: nat, bound: int)
    requires |cur| > 0 && RanksOk(m, cur, rank) && Scanned(rank, |cur| - 1, best, bound)
    ensures bound == INT32_MAX ==> NoneUsable(m, cur)
    ensures bound < INT32_MAX && UsableAt(m, cur, best) ==> IsBest(m, cur, best)
  {
  }

  /** The rank array after a merge at i: shifted by one after i, with the entries of the two
      pairs that contain the new token looked up again. */
  lemma RanksAfterMerge(m: Merges, cur: seq<int>, rank: seq<int>, i: nat, rank': seq<int>)
    requires RanksOk(m, cur, rank) && i + 1 < |cur| && UsableAt(m, cur, i) && |rank'| == |rank|
    requires forall j :: 0 <= j < |cur| - 2 && j + 1 < i ==> rank'[j] == rank[j]
    requires forall j :: i < j < |cur| - 2 ==> rank'[j] == rank[j + 1]
    requires i > 0 ==> rank'[i - 1] == RankAt(m, MergeAt(m, cur, i), i - 1)
    requires i + 2 < |cur| ==> rank'[i] == RankAt(m, MergeAt(m, cur, i), i)
    ensures RanksOk(m, MergeAt(m, cur, i), rank')
  {
    var t := MergeAt(m, cur, i);
    forall j | 0 <= j < |t| - 1
      ensures (rank'[j] >= 0 ==> rank'[j] == RankAt(m, t, j)) && (UsableAt(m, t, j) ==> rank'[j] == RankAt(m, t, j))
    {
      if j + 1 < i {
        assert RankAt(m, t, j) == RankAt(m, cur, j) && UsableAt(m, t, j) == UsableAt(m, cur, j);
      } else if j > i {
        assert RankAt(m, t, j) == RankAt(m, cur, j + 1) && UsableAt(m, t, j) == UsableAt(m, cur, j + 1);
      }
    }
  }

  /** Giving up on the pair at i, which cannot be merged. */
  lemma RanksAfterDrop(m: Merges, cur: seq<int>, rank: seq<int>, i: nat)
    requires RanksOk(m, cur, rank) && i + 1 < |cur| && rank[i] >= 0 && !UsableAt(m, cur, i)
    ensures RanksOk(m, cur, rank[i := -1])
    ensures Positive(rank[i := -1], |cur| - 1) < Positive(rank, |cur| - 1)
  {
    PositiveDecreases(rank, |cur| - 1, i);
  }

  // ----- the loop

  /** `mmap_find` on two neighbouring tokens, as a rank. */
  method PairRank(merges: ProbeTable.Table<Pair, Merge>, a: int, b: int) returns (rank: int)
    requires merges.Valid()
    ensures rank == RankOf(merges.entries, a, b)
  {
    var e := merges.Find((a, b));
    rank := if e.Some? then e.value.rank else -1;
  }

  /** memmove of count entries from dst + 1 to dst. */
  method MoveDown(a: array<int>, dst: nat, count: nat)
    requires dst + count < a.Length || count == 0
    modifies a
    ensures forall j :: 0 <= j < a.Length ==> a[j] == if dst <= j < dst + count then old(a[j + 1]) else old(a[j])
  {
    for k := 0 to count
      invariant forall j :: 0 <= j < a.Length ==> a[j] == if dst <= j < dst + k then old(a[j + 1]) else old(a[j])
    {
      a[dst + k] := a[dst + k + 1];
    }
  }

  /** The scan for the lowest nonnegative rank. */
  method FindBest(rank: array<int>, n: nat) returns (best: nat, bound: int)
    requires n <= rank.Length
    ensures Scanned(rank[..], n, best, bound)
  {
    best, bound := n, INT32_MAX;
    for i := 0 to n
      invariant Scanned(rank[..], i, best, bound)
    {
      if rank[i] >= 0 && rank[i] < bound {
        bound, best := rank[i], i;
      }
    }
  }

  /** The two writes that put one token in place of the pair at best. */
  method Collapse(cur: array<int>, n: nat, best: nat, merged: int)
    requires 2 <= n <= cur.Length && best + 1 < n
    modifies cur
    ensures cur[..best] == old(cur[..best]) && cur[best] == merged && cur[best + 1..n - 1] == old(cur[best + 2..n])
  {
    cur[best] := merged;
    MoveDown(cur, best + 1, n - best - 2);
  }

  lemma MergeAtIs(m: Merges, c: seq<int>, i: nat, t: seq<int>)
    requires i + 1 < |c| && UsableAt(m, c, i) && |t| == |c| - 1
    requires t[..i] == c[..i] && t[i] == m[(c[i], c[i + 1])].merged && t[i + 1..] == c[i + 2..]
    ensures t == MergeAt(m, c, i)
  {
    var u := MergeAt(m, c, i);
    forall j | 0 <= j < |t| ensures t[j] == u[j] {
      if j < i {
        assert t[..i][j] == c[..i][j];
      } else if j > i {
        assert t[i + 1..][j - i - 1] == c[i + 2..][j - i - 1];
      }
    }
  }

  /** Replace the pair at best by its merged token. */
  method ReplacePair(merges: ProbeTable.Table<Pair, Merge>, cur: array<int>, n: nat, best: nat)
    requires merges.Valid() && 2 <= n <= cur.Length && best + 1 < n && UsableAt(merges.entries, cur[..n], best)
    modifies cur
    ensures cur[..n - 1] == old(MergeAt(merges.entries, cur[..n], best))
  {
    ghost var c := cur[..n];
    var e := merges.Find((cur[best], cur[best + 1]));
    Collapse(cur, n, best, e.value.merged);
    ghost var t := cur[..n - 1];
    assert t[..best] == cur[..best] && t[best + 1..] == cur[best + 1..n - 1];
    assert c[..best] == old(cur[..best]) && c[best + 2..] == old(cur[best + 2..n]);
    MergeAtIs(merges.entries, c, best, t);
  }

  /** Move the ranks after best down and look up the two ranks that are new. */
  method ReplaceRanks(merges: ProbeTable.Table<Pair, Merge>, cur: array<int>, rank: array<int>, n: nat, best: nat)
    requires merges.Valid() && cur != rank && cur.Length == rank.Length && 2 <= n <= cur.Length && best + 1 < n
    modifies rank
    ensures forall j :: 0 <= j < n - 2 && j + 1 < best ==> rank[j] == old(rank[j])
    ensures forall j :: best < j < n - 2 ==> rank[j] == old(rank[j + 1])
    ensures best > 0 ==> rank[best - 1] == RankOf(merges.entries, cur[best - 1], cur[best])
    ensures best + 2 < n ==> rank[best] == RankOf(merges.entries, cur[best], cur[best + 1])
  {
    MoveDown(rank, best, n - best - 2);
    if best > 0 {
      var left := PairRank(merges, cur[best - 1], cur[best]);
      rank[best - 1] := left;
    }
    if best + 1 < n - 1 {
      var right := PairRank(merges, cur[best], cur[best + 1]);
      rank[best] := right;
    }
  }

  /** Replace the pair at best by its merged token and bring the rank array up to date. */
  method ApplyMerge(merges: ProbeTable.Table<Pair, Merge>, cur: array<int>, rank: array<int>, n: nat, best: nat)
    requires merges.Valid() && cur != rank && cur.Length == rank.Length && 2 <= n <= cur.Length && best + 1 < n
    requires RanksOk(merges.entries, cur[..n], rank[..]) && UsableAt(merges.entries, cur[..n], best)
    modifies cur, rank
    ensures cur[..n - 1] == old(MergeAt(merges.entries, cur[..n], best))
    ensures RanksOk(merges.entries, cur[..n - 1], rank[..])
  {
    ghost var m, c, r := merges.entries, cur[..n], rank[..];
    ReplacePair(merges, cur, n, best);
    ghost var t := cur[..n - 1];
    ReplaceRanks(merges, cur, rank, n, best);
    assert cur[..n - 1] == t;
    RanksAfterMerge(m, c, r, best, rank[..]);
  }

  /** The best pair has no token to merge into: it loses its rank. */
  method DropPair(ghost m: Merges, ghost cur: seq<int>, rank: array<int>, best: nat)
    requires RanksOk(m, cur, rank[..]) && best + 1 < |cur| && best < rank.Length
    requires rank[best] >= 0 && !UsableAt(m, cur, best) && |cur| - 1 <= rank.Length
    modifies rank
    ensures RanksOk(m, cur, rank[..]) && Positive(rank[..], |cur| - 1) < old(Positive(rank[..], |cur| - 1))
  {
    RanksAfterDrop(m, cur, rank[..], best);
    ghost var r := rank[..];
    rank[best] := -1;
    assert rank[..] == r[best := -1];
  }

  /** The merge loop over the first len tokens: what is left is what the naive rule leaves. */
  method MergeLoop(merges: ProbeTable.Table<Pair, Merge>, cur: array<int>, rank: array<int>, len: nat) returns (n: nat)
    requires merges.Valid() && cur != rank && cur.Length == rank.Length && len <= cur.Length
    requires RanksOk(merges.entries, cur[..len], rank[..])
    modifies cur, rank
    ensures n <= len && cur[..n] == Merged(merges.entries, old(cur[..len])) && NoneUsable(merges.entries, cur[..n])
  {
    n := len;
    ghost var m := merges.entries;
    while n > 1
      invariant n <= len && RanksOk(m, cur[..n], rank[..])
      invariant Merged(m, cur[..n]) == Merged(m, old(cur[..len]))
      decreases n, if n == 0 then 0 else Positive(rank[..], n - 1)
    {
      var best, bound := FindBest(rank, n - 1);
      ScanFindsBest(m, cur[..n], rank[..], best, bound);
      if bound == INT32_MAX {
        break;
      }
      var e := merges.Find((cur[best], cur[best + 1]));
      if e.None? || e.value.merged < 0 {
        DropPair(m, cur[..n], rank, best);
        continue;
      }
      assert IsBest(m, cur[..n], best);
      MergesTheBest(m, cur[..n], best);
      ApplyMerge(merges, cur, rank, n, best);
      n := n - 1;
    }
    assert NoneUsable(m, cur[..n]);
    MergesNoMore(m, cur[..n]);
  }
}
