/** The loops of encode_chunk and tokenizer_encode in c/src/tokenizer.c, proved against module
    Tokenizer. */
module TokenizerEncode {
  import opened Options
  import opened ByteForms
  import opened Pretoken
  import opened Bpe
  import opened Tokenizer
  import PretokenScan
  import ProbeTable

  type VocabTable = ProbeTable.Table<Bytes, int>
  type MergeTable = ProbeTable.Table<Pair, Merge>

  // ----- encode_chunk

  lemma {:induction false} ByteTokensAre(v: Vocab, s: Bytes, cur: seq<int>)
    requires AreBytes(s) && |cur| == |s|
    requires forall k :: 0 <= k < |s| ==> Lookup(v.ids, Form(s[k])) == Some(cur[k]) && cur[k] >= 0
    ensures ByteTokens(v, s) == Some(cur)
  {
    if s == [] {
    } else {
      ByteTokensAre(v, s[1..], cur[1..]);
      assert cur == [cur[0]] + cur[1..];
    }
  }

  lemma {:induction false} ByteTokensFail(v: Vocab, s: Bytes, k: nat)
    requires AreBytes(s) && k < |s| && (Form(s[k]) !in v.ids || v.ids[Form(s[k])] < 0)
    ensures ByteTokens(v, s).None?
  {
    if k == 0 {
    } else {
      ByteTokensFail(v, s[1..], k - 1);
    }
  }

  /** The first loop: one token per byte of s[lo..hi]. */
  method FillTokens(vocab: VocabTable, form: array<Bytes>, ghost v: Vocab, s: Bytes, lo: nat, hi: nat, cur: array<int>)
    returns (ok: bool)
    requires vocab.Valid() && v.ids == vocab.entries && lo <= hi <= |s| && AreBytes(s) && cur.Length >= hi - lo
    requires form.Length == 256 && forall b :: 0 <= b < 256 ==> form[b] == Form(b)
    modifies cur
    ensures AreBytes(s[lo..hi]) && ByteTokens(v, s[lo..hi]) == if ok then Some(cur[..hi - lo]) else None
  {
    ghost var piece := s[lo..hi];
    for i := 0 to hi - lo
      invariant vocab.Valid() && v.ids == vocab.entries
      invariant forall b :: 0 <= b < 256 ==> form[b] == Form(b)
      invariant forall k :: 0 <= k < i ==> Lookup(v.ids, Form(piece[k])) == Some(cur[k]) && cur[k] >= 0
    {
      var id := vocab.Find(form[s[lo + i]]);
      if id.None? || id.value < 0 {
        ByteTokensFail(v, piece, i);
        return false;
      }
      cur[i] := id.value;
    }
    ByteTokensAre(v, piece, cur[..hi - lo]);
    return true;
  }

  /** The second loop: the ranks of all neighbouring pairs. */
  method FillRanks(merges: MergeTable, cur: array<int>, rank: array<int>, n: nat)
    requires merges.Valid() && cur != rank && n <= cur.Length == rank.Length
    modifies rank
    ensures RanksOk(merges.entries, cur[..n], rank[..])
  {
    var i := 0;
    while i + 1 < n
      invariant merges.Valid() && merges.entries == old(merges.entries)
      invariant forall k :: 0 <= k < i && k + 1 < n ==> rank[k] == RankAt(merges.entries, cur[..n], k)
    {
      var r := PairRank(merges, cur[i], cur[i + 1]);
      rank[i] := r;
      i := i + 1;
    }
  }

  /** The tokens of s[lo..hi], in a new array. */
  method MergePiece(vocab: VocabTable, merges: MergeTable, form: array<Bytes>, ghost v: Vocab, s: Bytes, lo: nat, hi: nat)
    returns (cur: array<int>, count: nat, ok: bool)
    requires MapsOk(vocab, merges, form, v)
    requires lo <= hi <= |s| && AreBytes(s)
    ensures MapsOk(vocab, merges, form, v)
    ensures fresh(cur) && count <= cur.Length && PieceAt(v, s, lo, hi) == if ok then Some(cur[..count]) else None
  {
    var len := hi - lo;
    cur := new int[if len == 0 then 1 else len](_ => 0);
    var rank := new int[cur.Length](_ => 0);
    ok := FillTokens(vocab, form, v, s, lo, hi, cur);
    if !ok {
      return cur, 0, false;
    }
    FillRanks(merges, cur, rank, len);
    count := MergeLoop(merges, cur, rank, len);
  }

  /** The last loop: the tokens go to ids[at..]. */
  method CopyTokens(cur: array<int>, count: nat, ids: array<int>, at: nat)
    requires cur != ids && count <= cur.Length && at + count <= ids.Length
    modifies ids
    ensures ids[..at + count] == old(ids[..at]) + cur[..count]
  {
    for i := 0 to count
      invariant ids[..at] == old(ids[..at])
      invariant forall k :: 0 <= k < i ==> ids[at + k] == cur[k]
    {
      ids[at + i] := cur[i];
    }
    assert ids[..at + count] == ids[..at] + cur[..count];
  }

  /** `encode_chunk` on s[lo..hi], writing from ids[at]; None is its -1. */
  method EncodeChunk(vocab: VocabTable, merges: MergeTable, form: array<Bytes>, ghost v: Vocab, s: Bytes, lo: nat, hi: nat,
                     ids: array<int>, at: nat) returns (n: Option<nat>)
    requires MapsOk(vocab, merges, form, v)
    requires lo <= hi <= |s| && AreBytes(s) && at <= ids.Length
    modifies ids
    ensures MapsOk(vocab, merges, form, v)
    ensures var p := PieceAt(v, s, lo, hi);
            if p.None? || |p.value| > ids.Length - at then n.None?
            else n == Some(|p.value|) && ids[..at + |p.value|] == old(ids[..at]) + p.value
  {
    var cur, count, ok := MergePiece(vocab, merges, form, v, s, lo, hi);
    if !ok || count > ids.Length - at {
      return None;
    }
    CopyTokens(cur, count, ids, at);
    return Some(count);
  }

  // ----- tokenizer_encode

  /** FindAdded found the token id, of length ml, at p. */
  ghost predicate Found(v: Vocab, s: Bytes, p: nat, id: int, ml: nat)
    requires p <= |s|
  {
    var k := AddedAt(v, s, p);
    k.Some? && id == v.added[k.value].id && ml == |v.added[k.value].bytes| && 0 < ml <= |s| - p
  }

  /** `added_at`: the id, or a negative number, and the length of the match. */
  method FindAdded(ghost v: Vocab, added: seq<Added>, s: Bytes, p: nat) returns (id: int, ml: nat)
    requires p <= |s| && added == v.added
    ensures if id >= 0 then Found(v, s, p, id, ml) else AddedAt(v, s, p).None?
  {
    id, ml := -1, 0;
    for k := 0 to |added|
      invariant var r := BestAdded(added, s, p, k);
                if r.None? then id == -1 && ml == 0 else id == added[r.value].id && ml == |added[r.value].bytes|
    {
      var l := |added[k].bytes|;
      if l > ml && l <= |s| - p && s[p..p + l] == added[k].bytes {
        id, ml := added[k].id, l;
      }
    }
  }

  /** The scan for the next added token. */
  method FindLimit(ghost v: Vocab, added: seq<Added>, s: Bytes, start: nat) returns (lim: nat)
    requires start <= |s| && added == v.added
    ensures lim == NextAdded(v, s, start)
  {
    lim := start;
    while lim < |s|
      invariant start <= lim <= |s| && NextAdded(v, s, lim) == NextAdded(v, s, start)
    {
      var id, ml := FindAdded(v, added, s, lim);
      if id >= 0 {
        return;
      }
      lim := lim + 1;
    }
  }

  /** What is left to encode at i, when the text is known to be plain below lim. */
  ghost function RestOf(v: Vocab, cls: Classes, s: Bytes, i: nat, lim: nat, cap: nat): Encoded
    requires i <= |s| && lim <= |s| && AreBytes(s)
  {
    CutsTile(v, cls, s, i, lim);
    EncodeAll(v, s, Cuts(v, cls, s, i, lim), i, cap)
  }

  lemma RestStep(v: Vocab, cls: Classes, s: Bytes, i: nat, lim: nat, cap: nat)
    requires i < |s| && lim <= |s| && AreBytes(s)
    ensures var g := SegmentAt(v, cls, s, i, lim);
            SegmentOk(v, s, g) && PlainUntil(v, s, i, lim) <= |s|
            && RestOf(v, cls, s, i, lim, cap) ==
                 if g.Stands? then Diverges
                 else
                   var ids := SegmentTokens(v, s, g);
                   if ids.None? || |ids.value| > cap then Rejected
                   else Prepend(ids.value, RestOf(v, cls, s, g.hi, PlainUntil(v, s, i, lim), cap - |ids.value|))
  {
    SegmentAtOk(v, cls, s, i, lim);
    CutsTile(v, cls, s, i, lim);
    var g := SegmentAt(v, cls, s, i, lim);
    if !g.Stands? {
      assert Cuts(v, cls, s, i, lim)[1..] == Cuts(v, cls, s, g.hi, PlainUntil(v, s, i, lim));
    }
  }

  lemma RestEnds(v: Vocab, cls: Classes, s: Bytes, lim: nat, cap: nat)
    requires lim <= |s| && AreBytes(s)
    ensures RestOf(v, cls, s, |s|, lim, cap) == Ids([])
  {
  }

  /** Finding the limit of plain text changes nothing. */
  lemma RestSame(v: Vocab, cls: Classes, s: Bytes, i: nat, cap: nat)
    requires i < |s| && AreBytes(s) && AddedAt(v, s, i).None?
    ensures RestOf(v, cls, s, i, i, cap) == RestOf(v, cls, s, i, NextAdded(v, s, i + 1), cap)
  {
    assert Cuts(v, cls, s, i, i) == Cuts(v, cls, s, i, NextAdded(v, s, i + 1));
  }

  lemma PrependPrepend(a: seq<int>, b: seq<int>, r: Encoded)
    ensures Prepend(a, Prepend(b, r)) == Prepend(a + b, r)
  {
    if r.Ids? {
      assert a + (b + r.ids) == (a + b) + r.ids;
    }
  }

  /** Encoding the whole text comes to the ids written so far and what is left at i. */
  ghost predicate Halfway(whole: Encoded, done: seq<int>, v: Vocab, cls: Classes, s: Bytes, i: nat, lim: nat, cap: nat)
    requires AreBytes(s)
  {
    i <= |s| && lim <= |s| && |done| <= cap && whole == Prepend(done, RestOf(v, cls, s, i, lim, cap - |done|))
  }

  lemma RestPiece(v: Vocab, cls: Classes, s: Bytes, i: nat, e: nat, lim: nat, cap: nat)
    requires AreBytes(s) && i < lim <= |s| && e == PieceEnd(cls, s, lim, i)
    ensures var p := PieceAt(v, s, i, e);
            RestOf(v, cls, s, i, lim, cap) ==
              if e == i then Diverges
              else if p.None? || |p.value| > cap then Rejected
              else Prepend(p.value, RestOf(v, cls, s, e, lim, cap - |p.value|))
  {
    RestStep(v, cls, s, i, lim, cap);
  }

  lemma PieceStep(whole: Encoded, done: seq<int>, v: Vocab, cls: Classes, s: Bytes, i: nat, e: nat, lim: nat, cap: nat)
    requires AreBytes(s) && i < lim && Halfway(whole, done, v, cls, s, i, lim, cap) && e == PieceEnd(cls, s, lim, i)
    ensures var p := PieceAt(v, s, i, e);
            if e == i then whole == Diverges
            else if p.None? || |done| + |p.value| > cap then whole == Rejected
            else Halfway(whole, done + p.value, v, cls, s, e, lim, cap)
  {
    var room: nat := cap - |done|;
    RestPiece(v, cls, s, i, e, lim, room);
    var p := PieceAt(v, s, i, e);
    if e > i && p.Some? && |p.value| <= room {
      var after := RestOf(v, cls, s, e, lim, room - |p.value|);
      assert RestOf(v, cls, s, i, lim, room) == Prepend(p.value, after);
      PrependPrepend(done, p.value, after);
    }
  }

  /** The segment of an added token found at i. */
  lemma AddedSegment(v: Vocab, cls: Classes, s: Bytes, i: nat, id: int, ml: nat)
    requires AreBytes(s) && i < |s| && Found(v, s, i, id, ml)
    ensures var g := SegmentAt(v, cls, s, i, i);
            g.Special? && g.hi == i + ml && SegmentOk(v, s, g) && SegmentTokens(v, s, g) == Some([id])
    ensures PlainUntil(v, s, i, i) == i + ml
  {
    SegmentAtOk(v, cls, s, i, i);
  }

  lemma RestAdded(v: Vocab, cls: Classes, s: Bytes, i: nat, id: int, ml: nat, cap: nat)
    requires AreBytes(s) && i < |s| && Found(v, s, i, id, ml)
    ensures RestOf(v, cls, s, i, i, cap) ==
              if cap == 0 then Rejected else Prepend([id], RestOf(v, cls, s, i + ml, i + ml, cap - 1))
  {
    RestStep(v, cls, s, i, i, cap);
    AddedSegment(v, cls, s, i, id, ml);
  }

  lemma AddedRefused(whole: Encoded, done: seq<int>, v: Vocab, cls: Classes, s: Bytes, i: nat, id: int, ml: nat, cap: nat)
    requires AreBytes(s) && i < |s| && Found(v, s, i, id, ml) && |done| == cap
    requires Halfway(whole, done, v, cls, s, i, i, cap)
    ensures whole == Rejected
  {
    RestAdded(v, cls, s, i, id, ml, 0);
  }

  lemma AddedStep(whole: Encoded, done: seq<int>, v: Vocab, cls: Classes, s: Bytes, i: nat, id: int, ml: nat, cap: nat)
    requires AreBytes(s) && i < |s| && Found(v, s, i, id, ml) && |done| < cap
    requires Halfway(whole, done, v, cls, s, i, i, cap)
    ensures Halfway(whole, done + [id], v, cls, s, i + ml, i + ml, cap)
  {
    var room: nat := cap - |done|;
    RestAdded(v, cls, s, i, id, ml, room);
    var after := RestOf(v, cls, s, i + ml, i + ml, room - 1);
    assert RestOf(v, cls, s, i, i, room) == Prepend([id], after);
    PrependPrepend(done, [id], after);
  }

  lemma AddedEither(whole: Encoded, done: seq<int>, v: Vocab, cls: Classes, s: Bytes, i: nat, id: int, ml: nat, cap: nat)
    requires AreBytes(s) && i < |s| && Found(v, s, i, id, ml) && Halfway(whole, done, v, cls, s, i, i, cap)
    ensures if |done| == cap then whole == Rejected
            else Halfway(whole, done + [id], v, cls, s, i + ml, i + ml, cap)
  {
    if |done| == cap {
      AddedRefused(whole, done, v, cls, s, i, id, ml, cap);
    } else {
      AddedStep(whole, done, v, cls, s, i, id, ml, cap);
    }
  }

  lemma LimitStep(whole: Encoded, done: seq<int>, v: Vocab, cls: Classes, s: Bytes, i: nat, lim: nat, cap: nat)
    requires AreBytes(s) && i < |s| && AddedAt(v, s, i).None? && Halfway(whole, done, v, cls, s, i, i, cap)
    requires lim == NextAdded(v, s, i + 1)
    ensures Halfway(whole, done, v, cls, s, i, lim, cap)
  {
    RestSame(v, cls, s, i, cap - |done|);
  }

  lemma LastStep(whole: Encoded, done: seq<int>, v: Vocab, cls: Classes, s: Bytes, cap: nat)
    requires AreBytes(s) && Halfway(whole, done, v, cls, s, |s|, |s|, cap)
    ensures whole == Ids(done)
  {
    RestEnds(v, cls, s, |s|, cap - |done|);
  }

  lemma FirstStep(v: Vocab, cls: Classes, s: Bytes, cap: nat)
    requires AreBytes(s)
    ensures Halfway(Encode(v, cls, s, cap), [], v, cls, s, 0, 0, cap)
  {
    var r := RestOf(v, cls, s, 0, 0, cap);
    assert r.Ids? ==> [] + r.ids == r.ids;
  }

  /** How tokenizer_encode ends; Endless stands for a loop that makes no progress. */
  datatype Outcome = Done(n: nat) | Failed | Endless

  ghost predicate Agrees(e: Encoded, r: Outcome, ids: seq<int>) {
    match e
    case Ids(x) => r == Done(|x|) && |x| <= |ids| && ids[..|x|] == x
    case Rejected => r == Failed
    case Diverges => r == Endless
  }

  ghost predicate MapsOk(vocab: VocabTable, merges: MergeTable, form: array<Bytes>, v: Vocab)
    reads vocab, vocab.slots, merges, merges.slots, form
  {
    && vocab.Valid() && v.ids == vocab.entries && merges.Valid() && v.merges == merges.entries
    && form.Length == 256 && forall b :: 0 <= b < 256 ==> form[b] == Form(b)
  }

  method FindPieceEnd(cls: Classes, s: Bytes, lim: nat, i: nat) returns (e: nat)
    requires i < lim <= |s| && AreBytes(s)
    ensures e == PieceEnd(cls, s, lim, i)
  {
    e := PretokenScan.ScanPiece(cls, s, lim, i);
    if e == 0 {
      e := NextCp(s, lim, i);
    }
  }

  /** The ids written so far. */
  ghost predicate Written(ids: array<int>, total: nat, done: seq<int>)
    reads ids
  {
    total == |done| <= ids.Length && forall k :: 0 <= k < total ==> ids[k] == done[k]
  }

  /** Either the call has ended as it should, or it is halfway at i. */
  ghost predicate Progress(ids: array<int>, total: nat, ended: Option<Outcome>, done: seq<int>, whole: Encoded,
                           v: Vocab, cls: Classes, s: Bytes, i: nat, lim: nat)
    requires AreBytes(s)
    reads ids
  {
    if ended.Some? then Agrees(whole, ended.value, ids[..])
    else Written(ids, total, done) && Halfway(whole, done, v, cls, s, i, lim, ids.Length)
  }

  /** One round of the inner loop of tokenizer_encode: the piece at i is encoded to ids[at..]. */
  method EncodePiece(vocab: VocabTable, merges: MergeTable, form: array<Bytes>, ghost v: Vocab, cls: Classes, s: Bytes,
                     i: nat, lim: nat, ids: array<int>, at: nat, ghost whole: Encoded, ghost done: seq<int>)
    returns (e: nat, total: nat, ended: Option<Outcome>, ghost now: seq<int>)
    requires MapsOk(vocab, merges, form, v) && i < lim <= |s| && AreBytes(s)
    requires Progress(ids, at, None, done, whole, v, cls, s, i, lim)
    modifies ids
    ensures MapsOk(vocab, merges, form, v) && i <= e <= lim && (ended.None? ==> i < e)
    ensures Progress(ids, total, ended, now, whole, v, cls, s, e, lim)
  {
    total, now := at, done;
    e := FindPieceEnd(cls, s, lim, i);
    PieceStep(whole, done, v, cls, s, i, e, lim, ids.Length);
    if e == i {
      return e, total, Some(Endless), now;
    }
    ghost var p := PieceAt(v, s, i, e);
    assert ids[..at] == done;
    var c := EncodeChunk(vocab, merges, form, v, s, i, e, ids, at);
    if c.None? {
      return e, total, Some(Failed), now;
    }
    total, now := at + c.value, done + p.value;
    assert ids[..total] == now;
    return e, total, None, now;
  }

  /** The inner loop of tokenizer_encode, from start to lim; Some when the whole call ends. */
  method EncodePlain(vocab: VocabTable, merges: MergeTable, form: array<Bytes>, ghost v: Vocab, cls: Classes, s: Bytes,
                     start: nat, lim: nat, ids: array<int>, at: nat, ghost whole: Encoded, ghost done: seq<int>)
    returns (total: nat, ended: Option<Outcome>, ghost now: seq<int>)
    requires MapsOk(vocab, merges, form, v) && start <= lim <= |s| && AreBytes(s)
    requires Progress(ids, at, None, done, whole, v, cls, s, start, lim)
    modifies ids
    ensures MapsOk(vocab, merges, form, v)
    ensures Progress(ids, total, ended, now, whole, v, cls, s, lim, lim)
  {
    total, ended, now := at, None, done;
    var i := start;
    while i < lim
      invariant MapsOk(vocab, merges, form, v) && i <= lim
      invariant Progress(ids, total, None, now, whole, v, cls, s, i, lim)
    {
      i, total, ended, now := EncodePiece(vocab, merges, form, v, cls, s, i, lim, ids, total, whole, now);
      if ended.Some? {
        return;
      }
    }
    ended := None;
  }

  method PutId(ids: array<int>, at: nat, id: int, ghost done: seq<int>)
    requires Written(ids, at, done) && at < ids.Length
    modifies ids
    ensures Written(ids, at + 1, done + [id])
  {
    ids[at] := id;
  }

  /** The branch of tokenizer_encode for an added token of length ml found at i. */
  method EncodeAdded(ids: array<int>, at: nat, id: int, ml: nat, ghost v: Vocab, ghost cls: Classes, s: Bytes, i: nat,
                     ghost whole: Encoded, ghost done: seq<int>)
    returns (e: nat, total: nat, ended: Option<Outcome>, ghost now: seq<int>)
    requires AreBytes(s) && ml > 0 && i + ml <= |s| && Written(ids, at, done)
    requires if |done| == ids.Length then whole == Rejected
             else Halfway(whole, done + [id], v, cls, s, i + ml, i + ml, ids.Length)
    modifies ids
    ensures i <= e <= |s| && (ended.None? ==> i < e) && Progress(ids, total, ended, now, whole, v, cls, s, e, e)
  {
    e, total, ended, now := i, at, Some(Failed), done;
    if at + 1 <= ids.Length {
      PutId(ids, at, id, done);
      e, total, ended, now := i + ml, at + 1, None, done + [id];
    }
  }

  /** The branch of tokenizer_encode for plain text at i. */
  method EncodeUntilAdded(vocab: VocabTable, merges: MergeTable, form: array<Bytes>, added: seq<Added>, ghost v: Vocab,
                          cls: Classes, s: Bytes, i: nat, ids: array<int>, at: nat, ghost whole: Encoded, ghost done: seq<int>)
    returns (e: nat, total: nat, ended: Option<Outcome>, ghost now: seq<int>)
    requires MapsOk(vocab, merges, form, v) && v.added == added && i < |s| && AreBytes(s) && AddedAt(v, s, i).None?
    requires Progress(ids, at, None, done, whole, v, cls, s, i, i)
    modifies ids
    ensures MapsOk(vocab, merges, form, v)
    ensures i <= e <= |s| && (ended.None? ==> i < e) && Progress(ids, total, ended, now, whole, v, cls, s, e, e)
  {
    e := FindLimit(v, added, s, i + 1);
    LimitStep(whole, done, v, cls, s, i, e, ids.Length);
    total, ended, now := EncodePlain(vocab, merges, form, v, cls, s, i, e, ids, at, whole, done);
  }

  /** One round of the outer loop of tokenizer_encode: an added token, or plain text up to the next one. */
  method EncodeRound(vocab: VocabTable, merges: MergeTable, form: array<Bytes>, added: seq<Added>, ghost v: Vocab,
                     cls: Classes, s: Bytes, i: nat, ids: array<int>, at: nat, ghost whole: Encoded, ghost done: seq<int>)
    returns (e: nat, total: nat, ended: Option<Outcome>, ghost now: seq<int>)
    requires MapsOk(vocab, merges, form, v) && v.added == added && i < |s| && AreBytes(s)
    requires Progress(ids, at, None, done, whole, v, cls, s, i, i)
    modifies ids
    ensures MapsOk(vocab, merges, form, v)
    ensures i <= e <= |s| && (ended.None? ==> i < e) && Progress(ids, total, ended, now, whole, v, cls, s, e, e)
  {
    var aid, ml := FindAdded(v, added, s, i);
    if aid >= 0 {
      AddedEither(whole, done, v, cls, s, i, aid, ml, ids.Length);
      e, total, ended, now := EncodeAdded(ids, at, aid, ml, v, cls, s, i, whole, done);
    } else {
      e, total, ended, now := EncodeUntilAdded(vocab, merges, form, added, v, cls, s, i, ids, at, whole, done);
    }
  }

  /** `tokenizer_encode` with capacity ids.Length. */
  method EncodeText(vocab: VocabTable, merges: MergeTable, form: array<Bytes>, added: seq<Added>, ghost v: Vocab,
                    cls: Classes, s: Bytes, ids: array<int>) returns (r: Outcome)
    requires MapsOk(vocab, merges, form, v) && v.added == added && AreBytes(s)
    modifies ids
    ensures Agrees(Encode(v, cls, s, ids.Length), r, ids[..])
  {
    var total: nat, i: nat := 0, 0;
    ghost var whole, done := Encode(v, cls, s, ids.Length), [];
    FirstStep(v, cls, s, ids.Length);
    while i < |s|
      invariant MapsOk(vocab, merges, form, v) && i <= |s|
      invariant Progress(ids, total, None, done, whole, v, cls, s, i, i)
    {
      var ended: Option<Outcome>;
      i, total, ended, done := EncodeRound(vocab, merges, form, added, v, cls, s, i, ids, total, whole, done);
      if ended.Some? {
        return ended.value;
      }
    }
    LastStep(whole, done, v, cls, s, ids.Length);
    return Done(total);
  }
}
