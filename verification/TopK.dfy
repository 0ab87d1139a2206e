/** Selection of the k largest scores in c/src/kernel.c: quickselect on an array of indices. */
module TopK {
  /** A float that is not NaN: minus infinity or a number. */
  datatype Score = NegInf | Fin(value: real)

  predicate Above(a: Score, b: Score) {
    a.Fin? && (b.NegInf? || a.value > b.value)
  }

  // ----- what a selection is

  /** Holds of every position; quantifiers over pairs are used at the positions named with it. */
  predicate At(i: int) {
    true
  }

  ghost predicate AreIndices(s: seq<int>, n: nat) {
    && (forall i :: 0 <= i < |s| ==> 0 <= s[i] < n)
    && forall i, j :: At(i) && At(j) && 0 <= i < j < |s| ==> s[i] != s[j]
  }

  /** s is a permutation of 0..|x|-1 whose first k entries have values at least those of the rest. */
  ghost predicate Partitioned(x: seq<Score>, s: seq<int>, k: nat) {
    && |s| == |x| && AreIndices(s, |x|) && k <= |s|
    && forall i, j :: 0 <= i < k <= j < |s| ==> !Above(x[s[j]], x[s[i]])
  }

  /** sel holds k different indices, and no other index has a larger value than one of them. */
  ghost predicate IsTopK(x: seq<Score>, sel: set<int>, k: nat) {
    && |sel| == k && (forall i :: i in sel ==> 0 <= i < |x|)
    && forall i, j :: i in sel && 0 <= j < |x| && j !in sel ==> !Above(x[j], x[i])
  }

  /** As numbers: a chosen value is at least every finite value that is not chosen. */
  lemma ChosenAreLargest(x: seq<Score>, sel: set<int>, k: nat)
    ensures IsTopK(x, sel, k) <==>
            && |sel| == k && (forall i :: i in sel ==> 0 <= i < |x|)
            && forall i, j :: i in sel && 0 <= j < |x| && j !in sel && x[j].Fin? ==> x[i].Fin? && x[i].value >= x[j].value
  {
    if forall i :: i in sel ==> 0 <= i < |x| {
      forall i, j | i in sel && 0 <= j < |x| && j !in sel
        ensures !Above(x[j], x[i]) <==> (x[j].Fin? ==> x[i].Fin? && x[i].value >= x[j].value)
      {
      }
    }
  }

  ghost function Elements(s: seq<int>, n: nat): set<int>
    requires n <= |s|
  {
    set i | 0 <= i < n :: s[i]
  }

  lemma {:induction false} ElementsSize(s: seq<int>, m: nat, n: nat)
    requires n <= |s| && AreIndices(s, m)
    ensures |Elements(s, n)| == n
  {
    if n == 0 {
    } else {
      ElementsSize(s, m, n - 1);
      assert Elements(s, n) == Elements(s, n - 1) + {s[n - 1]};
      NewElement(s, m, n - 1);
    }
  }

  lemma NewElement(s: seq<int>, m: nat, n: nat)
    requires n < |s| && AreIndices(s, m)
    ensures s[n] !in Elements(s, n)
  {
    forall i | 0 <= i < n ensures s[i] != s[n] {
      assert At(i) && At(n);
    }
  }

  ghost function Below(m: nat): set<int> {
    if m == 0 then {} else Below(m - 1) + {m - 1}
  }

  lemma {:induction false} BelowIs(m: nat)
    ensures |Below(m)| == m && forall i :: i in Below(m) <==> 0 <= i < m
  {
    if m == 0 {
    } else {
      BelowIs(m - 1);
    }
  }

  lemma SubsetSize(a: set<int>, b: set<int>)
    requires a <= b && |a| == |b|
    ensures a == b
  {
    assert a * b == a && |b - a| == |b| - |b * a|;
  }

  /** A permutation reaches every index. */
  lemma Reaches(s: seq<int>, m: nat, j: int)
    requires |s| == m && AreIndices(s, m) && 0 <= j < m
    ensures j in Elements(s, m)
  {
    BelowIs(m);
    ElementsSize(s, m, m);
    SubsetSize(Elements(s, m), Below(m));
  }

  /** The front of a partitioned permutation is a selection of the k largest. */
  lemma FrontIsTopK(x: seq<Score>, s: seq<int>, k: nat)
    requires Partitioned(x, s, k)
    ensures IsTopK(x, Elements(s, k), k)
  {
    ElementsSize(s, |x|, k);
    forall i, j | i in Elements(s, k) && 0 <= j < |x| && j !in Elements(s, k) ensures !Above(x[j], x[i]) {
      Reaches(s, |x|, j);
      var p :| 0 <= p < k && s[p] == i;
      var q :| 0 <= q < |s| && s[q] == j;
      assert q >= k;
    }
  }

  /** The best index below n outside s, if there is one. */
  lemma {:induction false} BestOutside(x: seq<Score>, s: set<int>, n: nat) returns (found: bool, i: nat)
    requires n <= |x|
    ensures !found ==> forall j :: 0 <= j < n ==> j in s
    ensures found ==> i < n && i !in s && forall j :: 0 <= j < n && j !in s ==> !Above(x[j], x[i])
  {
    if n == 0 {
      found, i := false, 0;
    } else {
      found, i := BestOutside(x, s, n - 1);
      if n - 1 !in s && (!found || Above(x[n - 1], x[i])) {
        found, i := true, n - 1;
      }
    }
  }

  /** There is a selection of any size up to the number of scores. */
  lemma {:induction false} TopKExists(x: seq<Score>, k: nat) returns (s: set<int>)
    requires k <= |x|
    ensures IsTopK(x, s, k)
  {
    if k == 0 {
      s := {};
    } else {
      var rest := TopKExists(x, k - 1);
      var found, i := BestOutside(x, rest, |x|);
      BelowIs(|x|);
      if !found {
        forall j | j in Below(|x|) ensures j in rest {
        }
        SubsetAtMost(Below(|x|), rest);
      }
      s := rest + {i};
    }
  }

  lemma SubsetAtMost<T>(a: set<T>, b: set<T>)
    requires a <= b
    ensures |a| <= |b|
  {
    assert b == a + (b - a);
  }

  // ----- quickselect

  function Swapped(s: seq<int>, a: nat, b: nat): (t: seq<int>)
    requires a < |s| && b < |s|
    ensures |t| == |s|
  {
    s[a := s[b]][b := s[a]]
  }

  method Swap(idx: array<int>, a: nat, b: nat)
    requires a < idx.Length && b < idx.Length
    modifies idx
    ensures idx[..] == Swapped(old(idx[..]), a, b)
  {
    idx[a], idx[b] := idx[b], idx[a];
  }

  ghost predicate From(before: seq<int>, lo: nat, hi: nat, v: int) {
    exists p :: lo <= p < hi && p < |before| && before[p] == v
  }

  /** The entries from lo to hi are those of before, in another order; the others have not moved. */
  ghost predicate Reordered(before: seq<int>, after: seq<int>, lo: nat, hi: nat) {
    && |after| == |before| && lo <= hi <= |before| && AreIndices(after, |after|)
    && (forall i :: 0 <= i < |after| && !(lo <= i < hi) ==> after[i] == before[i])
    && forall i :: lo <= i < hi ==> From(before, lo, hi, after[i])
  }

  lemma SwapReorders(before: seq<int>, s: seq<int>, lo: nat, hi: nat, a: nat, b: nat)
    requires Reordered(before, s, lo, hi) && lo <= a < hi && lo <= b < hi
    ensures Reordered(before, Swapped(s, a, b), lo, hi)
  {
  }

  ghost predicate AllAbove(x: seq<Score>, s: seq<int>, pv: Score, lo: nat, hi: nat)
    requires AreIndices(s, |x|) && hi <= |s|
  {
    forall i :: lo <= i < hi ==> Above(x[s[i]], pv)
  }

  ghost predicate NoneAbove(x: seq<Score>, s: seq<int>, pv: Score, lo: nat, hi: nat)
    requires AreIndices(s, |x|) && hi <= |s|
  {
    forall i :: lo <= i < hi ==> !Above(x[s[i]], pv)
  }

  lemma SwapGrowsFront(x: seq<Score>, s: seq<int>, pv: Score, lo: nat, store: nat, i: nat)
    requires AreIndices(s, |x|) && lo <= store <= i < |s| && Above(x[s[i]], pv)
    requires AllAbove(x, s, pv, lo, store) && NoneAbove(x, s, pv, store, i)
    ensures var t := Swapped(s, i, store);
            AreIndices(t, |x|) && AllAbove(x, t, pv, lo, store + 1) && NoneAbove(x, t, pv, store + 1, i + 1)
  {
  }

  lemma SwapPlacesPivot(x: seq<Score>, s: seq<int>, pv: Score, lo: nat, store: nat, last: nat)
    requires AreIndices(s, |x|) && lo <= store <= last < |s| && x[s[last]] == pv
    requires AllAbove(x, s, pv, lo, store) && NoneAbove(x, s, pv, store, last)
    ensures var t := Swapped(s, store, last);
            AreIndices(t, |x|) && AllAbove(x, t, pv, lo, store) && NoneAbove(x, t, pv, store, last + 1) && x[t[store]] == pv
  {
  }

  /** The range while it is being partitioned: up to store above the pivot, up to i not above it,
      and the pivot value at the end. */
  ghost predicate Parting(x: seq<Score>, before: seq<int>, s: seq<int>, lo: nat, hi: nat, store: nat, i: nat, pv: Score) {
    && lo <= store <= i < hi <= |s| == |x| && Reordered(before, s, lo, hi) && x[s[hi - 1]] == pv
    && AllAbove(x, s, pv, lo, store) && NoneAbove(x, s, pv, store, i)
  }

  /** The range after the round: the pivot is at its place. */
  ghost predicate Parted(x: seq<Score>, before: seq<int>, s: seq<int>, lo: nat, hi: nat, store: nat, pv: Score) {
    && lo <= store < hi <= |s| == |x| && Reordered(before, s, lo, hi)
    && AllAbove(x, s, pv, lo, store) && NoneAbove(x, s, pv, store, hi) && x[s[store]] == pv
  }

  lemma PartingStarts(x: seq<Score>, before: seq<int>, lo: nat, hi: nat, pivot: nat)
    requires lo <= pivot < hi <= |before| == |x| && AreIndices(before, |x|)
    ensures Parting(x, before, Swapped(before, pivot, hi - 1), lo, hi, lo, lo, x[before[pivot]])
  {
    assert forall i :: lo <= i < hi ==> From(before, lo, hi, before[i]);
    SwapReorders(before, before, lo, hi, pivot, hi - 1);
  }

  lemma PartingSwaps(x: seq<Score>, before: seq<int>, s: seq<int>, lo: nat, hi: nat, store: nat, i: nat, pv: Score)
    requires Parting(x, before, s, lo, hi, store, i, pv) && i < hi - 1 && Above(x[s[i]], pv)
    ensures Parting(x, before, Swapped(s, i, store), lo, hi, store + 1, i + 1, pv)
  {
    SwapReorders(before, s, lo, hi, i, store);
    SwapGrowsFront(x, s, pv, lo, store, i);
  }

  lemma PartingSkips(x: seq<Score>, before: seq<int>, s: seq<int>, lo: nat, hi: nat, store: nat, i: nat, pv: Score)
    requires Parting(x, before, s, lo, hi, store, i, pv) && i < hi - 1 && !Above(x[s[i]], pv)
    ensures Parting(x, before, s, lo, hi, store, i + 1, pv)
  {
  }

  lemma PartingEnds(x: seq<Score>, before: seq<int>, s: seq<int>, lo: nat, hi: nat, store: nat, pv: Score)
    requires hi > 0 && Parting(x, before, s, lo, hi, store, hi - 1, pv)
    ensures Parted(x, before, Swapped(s, store, hi - 1), lo, hi, store, pv)
  {
    SwapReorders(before, s, lo, hi, store, hi - 1);
    SwapPlacesPivot(x, s, pv, lo, store, hi - 1);
  }

  function Middle(lo: nat, hi: nat): (m: nat)
    requires lo < hi
    ensures lo <= m < hi
  {
    lo + (hi - lo) / 2
  }

  /** The loop of a round: the entries above the pivot value go to the front of the range. */
  method PartLoop(x: seq<Score>, idx: array<int>, lo: nat, hi: nat, p: Score, ghost before: seq<int>) returns (store: nat)
    requires Parting(x, before, idx[..], lo, hi, lo, lo, p)
    modifies idx
    ensures hi > 0 && Parting(x, before, idx[..], lo, hi, store, hi - 1, p)
  {
    store := lo;
    for i := lo to hi - 1
      invariant Parting(x, before, idx[..], lo, hi, store, i, p)
    {
      if Above(x[idx[i]], p) {
        PartingSwaps(x, before, idx[..], lo, hi, store, i, p);
        Swap(idx, i, store);
        store := store + 1;
      } else {
        PartingSkips(x, before, idx[..], lo, hi, store, i, p);
      }
    }
  }

  /** The first exchange of a round: the pivot goes to the end of the range. */
  method TakePivot(x: seq<Score>, idx: array<int>, lo: nat, hi: nat) returns (p: Score)
    requires lo < hi <= idx.Length == |x| && AreIndices(idx[..], idx.Length)
    modifies idx
    ensures Parting(x, old(idx[..]), idx[..], lo, hi, lo, lo, p)
  {
    var pivot := Middle(lo, hi);
    p := x[idx[pivot]];
    PartingStarts(x, idx[..], lo, hi, pivot);
    Swap(idx, pivot, hi - 1);
  }

  /** The last exchange of a round: the pivot goes to its place. */
  method PlacePivot(x: seq<Score>, idx: array<int>, lo: nat, hi: nat, store: nat, p: Score, ghost before: seq<int>)
    requires hi > 0 && Parting(x, before, idx[..], lo, hi, store, hi - 1, p)
    modifies idx
    ensures Parted(x, before, idx[..], lo, hi, store, p)
  {
    PartingEnds(x, before, idx[..], lo, hi, store, p);
    Swap(idx, store, hi - 1);
  }

  /** A round of kth_largest. */
  method Partition(x: seq<Score>, idx: array<int>, lo: nat, hi: nat) returns (store: nat, ghost pv: Score)
    requires lo < hi <= idx.Length == |x| && AreIndices(idx[..], idx.Length)
    modifies idx
    ensures Parted(x, old(idx[..]), idx[..], lo, hi, store, pv)
  {
    ghost var before := idx[..];
    var p := TakePivot(x, idx, lo, hi);
    store := PartLoop(x, idx, lo, hi, p, before);
    PlacePivot(x, idx, lo, hi, store, p, before);
    pv := p;
  }

  /** Nothing from position k on is above something before it. */
  ghost predicate Cut(x: seq<Score>, s: seq<int>, k: nat)
    requires |s| == |x| && AreIndices(s, |x|)
  {
    k <= |s| && forall i, j :: 0 <= i < k <= j < |s| ==> !Above(x[s[j]], x[s[i]])
  }

  lemma ReorderedKeepsCut(x: seq<Score>, before: seq<int>, after: seq<int>, lo: nat, hi: nat, k: nat)
    requires |before| == |x| && AreIndices(before, |x|) && Reordered(before, after, lo, hi)
    requires (k == lo || k == hi) && Cut(x, before, k)
    ensures Cut(x, after, k)
  {
    forall i, j | 0 <= i < k <= j < |after| ensures !Above(x[after[j]], x[after[i]]) {
      var p := PositionBefore(before, after, lo, hi, i);
      var q := PositionBefore(before, after, lo, hi, j);
    }
  }

  lemma PositionBefore(before: seq<int>, after: seq<int>, lo: nat, hi: nat, i: nat) returns (p: nat)
    requires Reordered(before, after, lo, hi) && i < |after|
    ensures p < |before| && before[p] == after[i] && (lo <= i < hi <==> lo <= p < hi) && (!(lo <= i < hi) ==> p == i)
  {
    if lo <= i < hi {
      assert From(before, lo, hi, after[i]);
      p :| lo <= p < hi && p < |before| && before[p] == after[i];
    } else {
      p := i;
    }
  }

  /** After a round both sides of the pivot's place are cut. */
  lemma RoundCuts(x: seq<Score>, s: seq<int>, lo: nat, hi: nat, store: nat, pv: Score)
    requires |s| == |x| && AreIndices(s, |x|) && lo <= store < hi <= |s| && Cut(x, s, lo) && Cut(x, s, hi)
    requires AllAbove(x, s, pv, lo, store) && NoneAbove(x, s, pv, store, hi) && x[s[store]] == pv
    ensures Cut(x, s, store) && Cut(x, s, store + 1)
  {
  }

  /** `kth_largest` for 1 <= k <= n. */
  method KthLargest(x: seq<Score>, idx: array<int>, k: nat)
    requires 1 <= k <= idx.Length == |x| && AreIndices(idx[..], idx.Length)
    modifies idx
    ensures Partitioned(x, idx[..], k)
    ensures forall i, j :: 0 <= i < k <= j < idx.Length && x[idx[j]].Fin? ==> x[idx[i]].Fin? && x[idx[i]].value >= x[idx[j]].value
  {
    var lo, hi := 0, idx.Length;
    while true
      invariant 0 <= lo < k <= hi <= idx.Length && AreIndices(idx[..], idx.Length)
      invariant Cut(x, idx[..], lo) && Cut(x, idx[..], hi)
      decreases hi - lo
    {
      ghost var before := idx[..];
      var store, pv := Partition(x, idx, lo, hi);
      ReorderedKeepsCut(x, before, idx[..], lo, hi, lo);
      ReorderedKeepsCut(x, before, idx[..], lo, hi, hi);
      RoundCuts(x, idx[..], lo, hi, store, pv);
      if store == k - 1 {
        return;
      }
      if store < k - 1 {
        lo := store + 1;
      } else {
        hi := store;
      }
    }
  }

  /** The branch of kernel_topk_indices that takes everything. */
  method AllIndices(x: seq<Score>, out: array<int>)
    requires out.Length >= |x|
    modifies out
    ensures AreIndices(out[..|x|], |x|) && IsTopK(x, Elements(out[..|x|], |x|), |x|)
  {
    for i := 0 to |x|
      invariant forall j :: 0 <= j < i ==> out[j] == j
    {
      out[i] := i;
    }
    assert Partitioned(x, out[..|x|], |x|);
    FrontIsTopK(x, out[..|x|], |x|);
  }

  lemma SameFront(s: seq<int>, t: seq<int>, m: nat, k: nat)
    requires k <= |s| && AreIndices(s, m) && t == s[..k]
    ensures AreIndices(t, m) && Elements(t, k) == Elements(s, k)
  {
  }

  lemma SelectedAreLargest(x: seq<Score>, s: seq<int>, m: nat)
    requires |s| == m && AreIndices(s, |x|) && IsTopK(x, Elements(s, m), m)
    ensures forall i, j :: 0 <= i < j < m ==> s[i] != s[j]
    ensures forall i, v :: 0 <= i < m && 0 <= v < |x| && v !in s && x[v].Fin? ==> x[s[i]].Fin? && x[s[i]].value >= x[v].value
  {
    ChosenAreLargest(x, Elements(s, m), m);
    forall i, j | 0 <= i < j < m ensures s[i] != s[j] {
      assert At(i) && At(j);
    }
    forall i, v | 0 <= i < m && 0 <= v < |x| && v !in s && x[v].Fin? ensures x[s[i]].Fin? && x[s[i]].value >= x[v].value {
      assert s[i] in Elements(s, m) && v !in Elements(s, m);
    }
  }

  /** The branch that selects: the front of the partitioned indices is copied. */
  method SelectFront(x: seq<Score>, k: nat, out: array<int>)
    requires 1 <= k < |x| && out.Length >= k
    modifies out
    ensures AreIndices(out[..k], |x|) && IsTopK(x, Elements(out[..k], k), k)
  {
    var idx := new int[|x|](i => i);
    KthLargest(x, idx, k);
    var selected := idx[..];
    FrontIsTopK(x, selected, k);
    for i := 0 to k
      invariant forall j :: 0 <= j < i ==> out[j] == selected[j]
    {
      out[i] := selected[i];
    }
    SameFront(selected, out[..k], |x|, k);
  }

  /** `kernel_topk_indices`: out starts with the indices of the k largest values, or with all. */
  method TopKIndices(x: seq<Score>, k: nat, out: array<int>)
    requires k >= 1 && out.Length >= if k < |x| then k else |x|
    modifies out
    ensures var m := if k < |x| then k else |x|;
            AreIndices(out[..m], |x|) && IsTopK(x, Elements(out[..m], m), m)
    ensures var m := if k < |x| then k else |x|;
            && (forall i :: 0 <= i < m ==> 0 <= out[i] < |x|)
            && (forall i, j :: 0 <= i < j < m ==> out[i] != out[j])
            && forall i, v :: 0 <= i < m && 0 <= v < |x| && v !in out[..m] && x[v].Fin? ==>
                 x[out[i]].Fin? && x[out[i]].value >= x[v].value
  {
    var m := if k < |x| then k else |x|;
    if k >= |x| {
      AllIndices(x, out);
    } else {
      SelectFront(x, k, out);
    }
    SelectedAreLargest(x, out[..m], m);
    assert forall i :: 0 <= i < m ==> out[i] == out[..m][i];
  }
}
