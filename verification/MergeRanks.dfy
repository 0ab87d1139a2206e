/** Which merges c/src/tokenizer.c loads and which of them it applies first, in terms of the lines of
    the merges list. */
module MergeRanks {
  import opened Options
  import opened ByteForms
  import opened Bpe
  import opened Tokenizer

  /** The line is two keys of the vocabulary with a space between them; the second has no space. */
  ghost predicate Joins(ids: map<Bytes, int>, line: Bytes, l: Bytes, r: Bytes) {
    && line == l + [0x20] + r && l != [] && r != [] && 0x20 !in r
    && l in ids && r in ids && ids[l] >= 0 && ids[r] >= 0
  }

  ghost predicate JoinsPair(ids: map<Bytes, int>, line: Bytes, p: Pair) {
    exists l, r :: Joins(ids, line, l, r) && ids[l] == p.0 && ids[r] == p.1
  }

  /** The id of the two keys together, or a negative number. */
  function MergedId(ids: map<Bytes, int>, l: Bytes, r: Bytes): int {
    if l + r in ids then ids[l + r] else -1
  }

  lemma {:induction false} LastSpaceIsLast(line: Bytes, n: nat)
    requires n <= |line|
    ensures var sp := LastSpace(line, n);
            if sp == |line| then 0x20 !in line[..n] else sp < n && line[sp] == 0x20 && 0x20 !in line[sp + 1..n]
  {
    if n == 0 {
    } else {
      LastSpaceIsLast(line, n - 1);
      assert line[..n] == line[..n - 1] + [line[n - 1]];
      var sp := LastSpace(line, n);
      assert sp < n - 1 ==> line[sp + 1..n] == line[sp + 1..n - 1] + [line[n - 1]];
    }
  }

  lemma JoinsAtSpace(line: Bytes, l: Bytes, r: Bytes)
    requires line == l + [0x20] + r && 0x20 !in r
    ensures LastSpace(line, |line|) == |l| && l == line[..|l|] && r == line[|l| + 1..]
  {
    var sp := LastSpace(line, |line|);
    LastSpaceIsLast(line, |line|);
    assert line[..|line|] == line && line[|l|] == 0x20 && 0x20 in line;
    assert forall k :: |l| < k < |line| ==> line[k] == r[k - |l| - 1];
    assert forall k :: sp < k < |line| ==> line[k] == line[sp + 1..|line|][k - sp - 1];
  }

  /** The line is cut at its last space. */
  lemma CutAtLastSpace(ids: map<Bytes, int>, line: Bytes, l: Bytes, r: Bytes)
    ensures var sp := LastSpace(line, |line|);
            Joins(ids, line, l, r) <==>
              && 0 < sp && sp + 1 < |line| && l == line[..sp] && r == line[sp + 1..]
              && l in ids && r in ids && ids[l] >= 0 && ids[r] >= 0
  {
    var sp := LastSpace(line, |line|);
    LastSpaceIsLast(line, |line|);
    if 0 < sp && sp + 1 < |line| {
      assert line == line[..sp] + [0x20] + line[sp + 1..];
      assert line[sp + 1..|line|] == line[sp + 1..];
    }
    if Joins(ids, line, l, r) {
      JoinsAtSpace(line, l, r);
    }
  }

  /** The last of the first n lines that joins the pair; n when none does. */
  ghost predicate LastLine(ids: map<Bytes, int>, lines: seq<Bytes>, n: nat, p: Pair, k: nat) {
    k < n <= |lines| && JoinsPair(ids, lines[k], p) && forall j :: k < j < n ==> !JoinsPair(ids, lines[j], p)
  }

  lemma OneLine(ids: map<Bytes, int>, lines: seq<Bytes>, n: nat, p: Pair)
    requires 0 < n <= |lines|
    ensures var before, m := MergesBelow(ids, lines, n - 1), MergesBelow(ids, lines, n);
            if JoinsPair(ids, lines[n - 1], p) then
              && p in m && m[p].rank == n - 1
              && forall l, r :: Joins(ids, lines[n - 1], l, r) ==> m[p].merged == MergedId(ids, l, r)
            else (p in m <==> p in before) && (p in m ==> m[p] == before[p])
  {
    var line := lines[n - 1];
    var sp := LastSpace(line, |line|);
    forall l, r ensures Joins(ids, line, l, r) <==>
        0 < sp && sp + 1 < |line| && l == line[..sp] && r == line[sp + 1..] && l in ids && r in ids && ids[l] >= 0 && ids[r] >= 0 {
      CutAtLastSpace(ids, line, l, r);
    }
    if sp != 0 && sp + 1 < |line| {
      var left, right := line[..sp], line[sp + 1..];
      if left in ids && right in ids && ids[left] >= 0 && ids[right] >= 0 {
        assert Joins(ids, line, left, right);
      }
    }
  }

  /** A pair is loaded exactly when some line joins it; its rank is the place of the last such line in
      the file, and it merges into the id of that line's keys together. */
  lemma {:induction false} RankIsPlace(ids: map<Bytes, int>, lines: seq<Bytes>, n: nat, p: Pair)
    requires n <= |lines|
    ensures var m := MergesBelow(ids, lines, n);
            && (p in m <==> exists k :: 0 <= k < n && JoinsPair(ids, lines[k], p))
            && (p in m ==>
                  && m[p].rank >= 0 && LastLine(ids, lines, n, p, m[p].rank)
                  && forall l, r :: Joins(ids, lines[m[p].rank], l, r) ==> m[p].merged == MergedId(ids, l, r))
  {
    if n == 0 {
    } else {
      RankIsPlace(ids, lines, n - 1, p);
      OneLine(ids, lines, n, p);
      var before, m := MergesBelow(ids, lines, n - 1), MergesBelow(ids, lines, n);
      if JoinsPair(ids, lines[n - 1], p) {
        assert LastLine(ids, lines, n, p, n - 1);
      } else if p in before {
        assert LastLine(ids, lines, n, p, before[p].rank);
      }
    }
  }

  /** The loaded merges are those of the lines, ranked by place. */
  ghost predicate RanksArePlaces(ids: map<Bytes, int>, lines: seq<Bytes>, m: Merges) {
    forall p ::
      && (p in m <==> exists k :: 0 <= k < |lines| && JoinsPair(ids, lines[k], p))
      && (p in m ==>
            && m[p].rank >= 0 && LastLine(ids, lines, |lines|, p, m[p].rank)
            && forall l, r :: Joins(ids, lines[m[p].rank], l, r) ==> m[p].merged == MergedId(ids, l, r))
  }

  lemma LoadedRanks(ids: map<Bytes, int>, lines: seq<Bytes>)
    ensures RanksArePlaces(ids, lines, MergesBelow(ids, lines, |lines|))
  {
    var m := MergesBelow(ids, lines, |lines|);
    forall p
      ensures p in m <==> exists k :: 0 <= k < |lines| && JoinsPair(ids, lines[k], p)
      ensures p in m ==>
                && m[p].rank >= 0 && LastLine(ids, lines, |lines|, p, m[p].rank)
                && forall l, r :: Joins(ids, lines[m[p].rank], l, r) ==> m[p].merged == MergedId(ids, l, r)
    {
      RankIsPlace(ids, lines, |lines|, p);
    }
  }

  /** Of two pairs, the one whose last line comes first in the file has the lower rank. */
  lemma RanksFollowFile(ids: map<Bytes, int>, lines: seq<Bytes>, p: Pair, q: Pair, i: nat, j: nat)
    requires LastLine(ids, lines, |lines|, p, i) && LastLine(ids, lines, |lines|, q, j)
    ensures var m := MergesBelow(ids, lines, |lines|);
            p in m && q in m && (m[p].rank < m[q].rank <==> i < j)
  {
    RankIsPlace(ids, lines, |lines|, p);
    RankIsPlace(ids, lines, |lines|, q);
  }

  // ----- what is merged first

  /** The pair at i has a token to merge into. */
  predicate Mergeable(m: Merges, cur: seq<int>, i: nat) {
    i + 1 < |cur| && (cur[i], cur[i + 1]) in m
    && var e := m[(cur[i], cur[i + 1])]; 0 <= e.rank < 0x7FFF_FFFF && e.merged >= 0
  }

  /** Encoding merges a pair of least rank, the leftmost of these, into its token and goes on; it ends
      when no pair has a token to merge into. */
  lemma MergesLeastRank(m: Merges, cur: seq<int>, i: nat)
    ensures Mergeable(m, cur, i)
            && (forall j: nat :: Mergeable(m, cur, j) ==>
                  var a, b := m[(cur[i], cur[i + 1])].rank, m[(cur[j], cur[j + 1])].rank; a < b || (a == b && i <= j))
            ==> Merged(m, cur) == Merged(m, cur[..i] + [m[(cur[i], cur[i + 1])].merged] + cur[i + 2..])
    ensures (forall j: nat :: !Mergeable(m, cur, j)) ==> Merged(m, cur) == cur
  {
    BestFromIsBest(m, cur, 0);
    assert forall j: nat :: j + 1 < |cur| ==> (Mergeable(m, cur, j) <==> UsableAt(m, cur, j));
    var r := BestFrom(m, cur, 0);
    assert r.Some? ==> Mergeable(m, cur, r.value);
    if r == Some(i) {
      assert MergeAt(m, cur, i) == cur[..i] + [m[(cur[i], cur[i + 1])].merged] + cur[i + 2..];
    }
  }

  lemma ShortLine(ids: map<Bytes, int>, line: Bytes)
    requires |line| == 3 && line[0] != 0x20 && line[1] == 0x20 && line[2] != 0x20
    ensures forall l, r :: Joins(ids, line, l, r) ==> l == [line[0]] && r == [line[2]]
  {
    LastSpaceIsLast(line, 3);
    forall l, r | Joins(ids, line, l, r) ensures l == [line[0]] && r == [line[2]] {
      CutAtLastSpace(ids, line, l, r);
      assert LastSpace(line, 3) == LastSpace(line, 2) == 1;
    }
  }

  const ABC_IDS: map<Bytes, int> := map[[0x61] := 0, [0x62] := 1, [0x63] := 2, [0x61, 0x62] := 3, [0x62, 0x63] := 4]
  const ABC_LINES: seq<Bytes> := [[0x61, 0x20, 0x62], [0x62, 0x20, 0x63]]

  lemma AbcMerges()
    ensures var m := MergesBelow(ABC_IDS, ABC_LINES, 2);
            && (0, 1) in m && m[(0, 1)] == Merge(0, 3) && (1, 2) in m && m[(1, 2)] == Merge(1, 4) && (3, 2) !in m
  {
    ShortLine(ABC_IDS, ABC_LINES[0]);
    ShortLine(ABC_IDS, ABC_LINES[1]);
    OneLine(ABC_IDS, ABC_LINES, 1, (0, 1));
    OneLine(ABC_IDS, ABC_LINES, 2, (0, 1));
    OneLine(ABC_IDS, ABC_LINES, 2, (1, 2));
    assert Joins(ABC_IDS, ABC_LINES[0], [0x61], [0x62]) && Joins(ABC_IDS, ABC_LINES[1], [0x62], [0x63]);
    assert [0x61] + [0x62] == [0x61, 0x62] && [0x62] + [0x63] == [0x62, 0x63];
    RankIsPlace(ABC_IDS, ABC_LINES, 2, (3, 2));
  }

  /** Of the lines "a b" and "b c" the first is the first to be applied: "abc" becomes "ab", "c". */
  lemma FirstLineFirst()
    ensures Merged(MergesBelow(ABC_IDS, ABC_LINES, 2), [0, 1, 2]) == [3, 2]
  {
    var m := MergesBelow(ABC_IDS, ABC_LINES, 2);
    AbcMerges();
    MergesLeastRank(m, [0, 1, 2], 0);
    MergesLeastRank(m, [3, 2], 0);
    assert [0, 1, 2][..0] + [3] + [0, 1, 2][2..] == [3, 2];
  }
}
