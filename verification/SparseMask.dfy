/** The sparse attention mask of c/src/model.c and of `QSAIndexer` in src/colibri_runtime/model.py:
    blocks chosen among the highest scores, and the query's own tail. */
module SparseMask {
  import opened Arithmetic
  import opened TopK

  /** The lengths behind one query: kv keys in blocks of c, of which the `topk` best are kept; the
      query is at position q. */
  datatype Query = Query(kv: nat, c: nat, budget: nat, q: nat)

  /** What the attention code and its configuration guarantee where the mask is built. */
  predicate QueryOk(w: Query) {
    1 <= w.c <= w.budget < w.kv && w.q < w.kv
  }

  function Blocks(w: Query): nat
    requires w.c > 0
  {
    Quotient(w.kv, w.c)
  }

  function BlockTopK(w: Query): nat
    requires w.c > 0
  {
    Quotient(w.budget, w.c)
  }

  /** The number of blocks that end at or before the query. */
  function Complete(w: Query): nat
    requires w.c > 0
  {
    Quotient(w.q + 1, w.c)
  }

  /** The last key of block b is not after the query. */
  predicate Visible(w: Query, b: nat) {
    Times(b, w.c) + w.c - 1 <= w.q
  }

  function OwnStart(w: Query): nat
    requires w.c > 0
  {
    Times(Complete(w), w.c)
  }

  // ----- arithmetic of blocks

  /** Key a lies before block b. */
  lemma BlockOf(a: nat, c: nat, b: nat)
    requires c > 0
    ensures Quotient(a, c) < b <==> a < Times(b, c)
  {
    QuotientBounds(a, c);
    if Quotient(a, c) < b {
      RowsApart(Quotient(a, c), b, c);
    } else {
      TimesGrows(b, Quotient(a, c), c);
    }
  }

  lemma VisibleExactly(w: Query, b: nat)
    requires w.c > 0
    ensures Visible(w, b) <==> b < Complete(w)
  {
    BlockOf(w.q + 1, w.c, b + 1);
  }

  /** The cache has at least as many blocks as are chosen, and every complete block is among them. */
  lemma EnoughBlocks(w: Query)
    requires QueryOk(w)
    ensures 1 <= BlockTopK(w) <= Blocks(w) && Complete(w) <= Blocks(w)
  {
    BlockOf(w.budget, w.c, 1);
    BlockOf(w.kv, w.c, Quotient(w.budget, w.c));
    BlockOf(w.kv, w.c, Complete(w));
    QuotientBounds(w.budget, w.c);
    QuotientBounds(w.q + 1, w.c);
  }

  // ----- the two masks

  /** C: chosen blocks, visible or not, and the own tail, among the keys up to the query. */
  predicate KeptByC(w: Query, top: set<int>, key: nat)
    requires w.c > 0
  {
    key <= w.q && ((Quotient(key, w.c) < Blocks(w) && Quotient(key, w.c) in top) || key >= OwnStart(w))
  }

  /** Python: chosen blocks that are visible, and the own tail. */
  predicate KeptByPython(w: Query, top: set<int>, key: nat)
    requires w.c > 0
  {
    key <= w.q && ((Quotient(key, w.c) < Blocks(w) && Quotient(key, w.c) in top && Visible(w, Quotient(key, w.c))) || key >= OwnStart(w))
  }

  /** The invisible blocks C leaves in its selection add no key: theirs are in the own tail. */
  lemma SameKeys(w: Query, top: set<int>, key: nat)
    requires w.c > 0
    ensures KeptByC(w, top, key) == KeptByPython(w, top, key)
  {
    VisibleExactly(w, Quotient(key, w.c));
    BlockOf(key, w.c, Complete(w));
  }

  /** In plain numbers: keys up to the query that lie in a chosen block, or after the last block that ends
      at or before the query. */
  lemma KeptExactly(w: Query, top: set<int>, key: nat)
    requires w.c > 0
    ensures KeptByC(w, top, key) <==>
              key <= w.q && ((key / w.c < w.kv / w.c && key / w.c in top) || key >= (w.q + 1) / w.c * w.c)
    ensures BlockTopK(w) == w.budget / w.c && Blocks(w) == w.kv / w.c
  {
    QuotientIs(key, w.c);
    QuotientIs(w.kv, w.c);
    QuotientIs(w.budget, w.c);
    QuotientIs(w.q + 1, w.c);
    Product((w.q + 1) / w.c, w.c);
  }

  /** A block is visible when its last key is not after the query. */
  lemma VisibleInNumbers(w: Query, b: nat)
    ensures Visible(w, b) <==> b * w.c + w.c - 1 <= w.q
  {
    Product(b, w.c);
  }

  // ----- different selections

  /** Block scores: minus infinity exactly where the block is not visible. */
  ghost predicate ScoresOk(w: Query, x: seq<Score>)
    requires w.c > 0
  {
    |x| == Blocks(w) && forall b :: 0 <= b < |x| ==> (x[b].Fin? <==> Visible(w, b))
  }

  ghost predicate SameVisible(w: Query, s: set<int>, t: set<int>)
    requires w.c > 0
  {
    forall b :: 0 <= b < Blocks(w) && Visible(w, b) ==> (b in s <==> b in t)
  }

  ghost predicate SameMask(w: Query, s: set<int>, t: set<int>)
    requires w.c > 0
  {
    forall key: nat :: key <= w.q ==> KeptByC(w, s, key) == KeptByPython(w, t, key)
  }

  /** The first key of a visible block belongs to it and is before the own tail. */
  lemma FirstKey(w: Query, b: nat)
    requires w.c > 0 && Visible(w, b)
    ensures Times(b, w.c) <= w.q && Quotient(Times(b, w.c), w.c) == b && Times(b, w.c) < OwnStart(w)
  {
    VisibleExactly(w, b);
    BlockOf(Times(b, w.c), w.c, b);
    BlockOf(Times(b, w.c), w.c, b + 1);
    RowsApart(b, Complete(w), w.c);
  }

  /** Two selections keep the same keys exactly when they agree on the visible blocks. */
  lemma SelectionsKeepSame(w: Query, s: set<int>, t: set<int>)
    requires QueryOk(w)
    ensures SameVisible(w, s, t) <==> SameMask(w, s, t)
  {
    if SameVisible(w, s, t) {
      forall key: nat | key <= w.q ensures KeptByC(w, s, key) == KeptByPython(w, t, key) {
        SameKeys(w, s, key);
      }
    }
    if SameMask(w, s, t) {
      forall b | 0 <= b < Blocks(w) && Visible(w, b) ensures b in s <==> b in t {
        FirstKey(w, b);
        assert KeptByC(w, s, Times(b, w.c)) == KeptByPython(w, t, Times(b, w.c));
      }
    }
  }

  // ----- ties

  ghost function Larger(x: seq<Score>, v: Score): set<int> {
    set b | 0 <= b < |x| && Above(x[b], v)
  }

  ghost function AtLeast(x: seq<Score>, v: Score): set<int> {
    set b | 0 <= b < |x| && !Above(v, x[b])
  }

  /** A visible score is tied across the cut: fewer than k are larger, more than k are as large. */
  ghost predicate TiedAt(x: seq<Score>, k: nat, i: nat) {
    i < |x| && x[i].Fin? && |Larger(x, x[i])| < k < |AtLeast(x, x[i])|
  }

  ghost predicate Tied(x: seq<Score>, k: nat) {
    exists i: nat :: TiedAt(x, k, i)
  }

  /** Exchanging two equal scores across the cut gives another selection. */
  lemma ExchangeKeepsTopK(x: seq<Score>, s: set<int>, k: nat, i: int, j: int)
    requires IsTopK(x, s, k) && i in s && 0 <= j < |x| && j !in s && !Above(x[i], x[j])
    ensures IsTopK(x, s - {i} + {j}, k)
  {
  }

  /** A member and a non-member with equal finite scores mean a tie. */
  lemma EqualAcrossIsTie(x: seq<Score>, s: set<int>, k: nat, i: nat, j: nat)
    requires IsTopK(x, s, k) && i in s && j < |x| && j !in s && x[i].Fin? && !Above(x[i], x[j])
    ensures TiedAt(x, k, i)
  {
    SubsetAtMost(Larger(x, x[i]) + {i}, s);
    SubsetAtMost(s + {j}, AtLeast(x, x[i]));
  }

  /** A tie puts equal finite scores on both sides of every selection. */
  lemma TieIsAcross(x: seq<Score>, s: set<int>, k: nat, i: nat) returns (m: nat, j: nat)
    requires IsTopK(x, s, k) && TiedAt(x, k, i)
    ensures m in s && j < |x| && j !in s && x[m].Fin? && x[j] == x[m]
  {
    if AtLeast(x, x[i]) <= s {
      SubsetAtMost(AtLeast(x, x[i]), s);
    }
    if s <= Larger(x, x[i]) {
      SubsetAtMost(s, Larger(x, x[i]));
    }
    j :| j in AtLeast(x, x[i]) && j !in s;
    m :| m in s && m !in Larger(x, x[i]);
  }

  /** Without a tie every two selections have the same visible blocks. */
  lemma UntiedSame(w: Query, x: seq<Score>, s: set<int>, t: set<int>, k: nat)
    requires w.c > 0 && ScoresOk(w, x) && IsTopK(x, s, k) && IsTopK(x, t, k) && !Tied(x, k)
    ensures SameVisible(w, s, t)
  {
    forall b | 0 <= b < |x| && Visible(w, b) ensures b in s <==> b in t {
      if b in s && b !in t {
        OtherMember(x, s, t, k, b);
      }
      if b in t && b !in s {
        OtherMember(x, t, s, k, b);
      }
    }
  }

  lemma MemberOutside<T>(a: set<T>, b: set<T>) returns (x: T)
    requires !(a <= b)
    ensures x in a && x !in b
  {
    x :| x in a && x !in b;
  }

  /** A block chosen by one selection only is tied. */
  lemma OtherMember(x: seq<Score>, s: set<int>, t: set<int>, k: nat, b: nat)
    requires IsTopK(x, s, k) && IsTopK(x, t, k) && b in s && b !in t && x[b].Fin?
    ensures Tied(x, k)
  {
    if t <= s {
      SubsetSize(t, s);
    }
    var j := MemberOutside(t, s);
    EqualAcrossIsTie(x, s, k, b, j);
  }

  /** All selections of the k best keep the same keys, in C and in Python, exactly when no visible
      score is tied across the cut. */
  lemma MasksAgreeExactly(w: Query, x: seq<Score>)
    requires QueryOk(w) && ScoresOk(w, x)
    ensures !Tied(x, BlockTopK(w)) <==>
            forall s, t :: IsTopK(x, s, BlockTopK(w)) && IsTopK(x, t, BlockTopK(w)) ==> SameMask(w, s, t)
  {
    var k := BlockTopK(w);
    if !Tied(x, k) {
      forall s, t | IsTopK(x, s, k) && IsTopK(x, t, k) ensures SameMask(w, s, t) {
        UntiedSame(w, x, s, t, k);
        SelectionsKeepSame(w, s, t);
      }
    } else {
      var i: nat :| TiedAt(x, k, i);
      EnoughBlocks(w);
      var s := TopKExists(x, k);
      var m, j := TieIsAcross(x, s, k, i);
      ExchangeKeepsTopK(x, s, k, m, j);
      var t := s - {m} + {j};
      SelectionsKeepSame(w, s, t);
      assert Visible(w, j) && j in t && j !in s;
      assert !SameVisible(w, s, t);
    }
  }

  /** Two blocks of one key with equal scores, of which one is chosen: either choice is a selection
      of the best, and the masks for the two keep different keys. */
  lemma TiedMasksDiffer()
    ensures var w, x := Query(2, 1, 1, 1), [Fin(0.0), Fin(0.0)];
            && QueryOk(w) && ScoresOk(w, x) && Tied(x, BlockTopK(w))
            && IsTopK(x, {0}, BlockTopK(w)) && IsTopK(x, {1}, BlockTopK(w)) && !SameMask(w, {0}, {1})
  {
    var w, x := Query(2, 1, 1, 1), [Fin(0.0), Fin(0.0)];
    assert Blocks(w) == 2 && BlockTopK(w) == 1;
    assert IsTopK(x, {0}, 1) && IsTopK(x, {1}, 1);
    SelectionsKeepSame(w, {0}, {1});
    assert Visible(w, 0);
    EqualAcrossIsTie(x, {0}, 1, 0, 1);
  }

  // ----- how many keys are kept

  ghost function KeptKeys(w: Query, top: set<int>): set<nat>
    requires w.c > 0
  {
    set key: nat | 0 <= key <= w.q && KeptByC(w, top, key)
  }

  ghost function KeysFrom(lo: nat, n: nat): set<nat> {
    if n == 0 then {} else KeysFrom(lo, n - 1) + {lo + n - 1}
  }

  lemma {:induction false} KeysFromIs(lo: nat, n: nat)
    ensures |KeysFrom(lo, n)| == n && forall key: nat :: key in KeysFrom(lo, n) <==> lo <= key < lo + n
  {
    if n == 0 {
    } else {
      KeysFromIs(lo, n - 1);
    }
  }

  ghost function KeysIn(keys: set<nat>, c: nat, blocks: set<int>): set<nat>
    requires c > 0
  {
    set key | key in keys && Quotient(key, c) in blocks
  }

  /** A set of blocks has at most c keys a block. */
  lemma {:induction false} BlocksSize(keys: set<nat>, c: nat, blocks: set<int>)
    requires c > 0
    ensures |KeysIn(keys, c, blocks)| <= Times(|blocks|, c)
    decreases |blocks|
  {
    if blocks == {} {
      assert KeysIn(keys, c, blocks) == {};
    } else {
      var b := MemberOutside(blocks, {});
      var rest := blocks - {b};
      BlocksSize(keys, c, rest);
      OneBlockSize(keys, c, b);
      assert KeysIn(keys, c, blocks) == KeysIn(keys, c, rest) + KeysIn(keys, c, {b});
      assert |blocks| == |rest| + 1;
    }
  }

  lemma OneBlockSize(keys: set<nat>, c: nat, b: int)
    requires c > 0
    ensures |KeysIn(keys, c, {b})| <= c
  {
    if b < 0 {
      assert KeysIn(keys, c, {b}) == {};
    } else {
      KeysFromIs(Times(b, c), c);
      forall key | key in KeysIn(keys, c, {b}) ensures key in KeysFrom(Times(b, c), c) {
        QuotientBounds(key, c);
      }
      SubsetAtMost(KeysIn(keys, c, {b}), KeysFrom(Times(b, c), c));
    }
  }

  /** Every query keeps at most budget + c - 1 keys. */
  lemma KeptAtMost(w: Query, top: set<int>)
    requires QueryOk(w) && |top| == BlockTopK(w)
    ensures |KeptKeys(w, top)| <= w.budget + w.c - 1
  {
    var kept := KeptKeys(w, top);
    var tail := w.q + 1 - OwnStart(w);
    QuotientBounds(w.q + 1, w.c);
    QuotientBounds(w.budget, w.c);
    KeysFromIs(OwnStart(w), tail);
    BlocksSize(kept, w.c, top);
    var cover := KeysIn(kept, w.c, top) + KeysFrom(OwnStart(w), tail);
    SubsetAtMost(kept, cover);
    assert |cover| <= |KeysIn(kept, w.c, top)| + |KeysFrom(OwnStart(w), tail)|;
  }

  /** And at least one, so no row of the mask is empty. */
  lemma KeptAtLeastOne(w: Query, x: seq<Score>, top: set<int>) returns (key: nat)
    requires QueryOk(w) && ScoresOk(w, x) && IsTopK(x, top, BlockTopK(w))
    ensures key <= w.q && KeptByC(w, top, key)
  {
    EnoughBlocks(w);
    QuotientBounds(w.q + 1, w.c);
    if OwnStart(w) <= w.q {
      key := w.q;
    } else {
      assert Complete(w) > 0;
      VisibleExactly(w, 0);
      var b := VisibleChosen(w, x, top);
      FirstKey(w, b);
      key := Times(b, w.c);
    }
  }

  /** Where some block is visible, some visible block is chosen. */
  lemma VisibleChosen(w: Query, x: seq<Score>, top: set<int>) returns (b: nat)
    requires QueryOk(w) && ScoresOk(w, x) && IsTopK(x, top, BlockTopK(w)) && Blocks(w) > 0 && Visible(w, 0) && BlockTopK(w) >= 1
    ensures b in top && b < Blocks(w) && Visible(w, b)
  {
    if 0 in top {
      b := 0;
    } else {
      var i := MemberOutside(top, {});
      b := i;
      assert !Above(x[0], x[i]);
    }
  }

  // ----- the loop

  /** The loop that masks one row of scores. */
  method ApplyMask(w: Query, top: seq<int>, row: array<Score>)
    requires w.c > 0 && row.Length == w.kv
    modifies row
    ensures forall key :: 0 <= key < w.kv ==>
              row[key] == if key <= w.q && !KeptByC(w, Elements(top, |top|), key) then NegInf else old(row[key])
  {
    var blocks := w.kv / w.c;
    QuotientIs(w.kv, w.c);
    QuotientIs(w.q + 1, w.c);
    Product(Complete(w), w.c);
    var ownStart := ((w.q + 1) / w.c) * w.c;
    for key := 0 to w.kv
      invariant forall u :: key <= u < w.kv ==> row[u] == old(row[u])
      invariant forall u :: 0 <= u < key ==>
                  row[u] == if u <= w.q && !KeptByC(w, Elements(top, |top|), u) then NegInf else old(row[u])
    {
      QuotientIs(key, w.c);
      var block := key / w.c;
      var keep := false;
      if block < blocks {
        for b := 0 to |top|
          invariant keep <==> block in Elements(top, b)
        {
          if top[b] == block {
            keep := true;
            assert top[b] in Elements(top, |top|);
            break;
          }
        }
      }
      if key >= ownStart && key <= w.q {
        keep := true;
      }
      if !keep && key <= w.q {
        row[key] := NegInf;
      }
    }
  }
}
