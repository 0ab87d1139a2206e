/** c/src/tokenizer.c: vocabulary, encoding and decoding. Decoding the ids of a text gives the
    text back. */
module Tokenizer {
  import opened Options
  import opened ByteForms
  import opened Pretoken
  import opened Bpe
  import ProbeTable

  // ----- the vocabulary

  datatype Added = Added(bytes: Bytes, id: int)

  /** The maps of a loaded tokenizer: keys to ids, merges, ids to keys or added tokens, and the
      added tokens in file order. */
  datatype Vocab = Vocab(ids: map<Bytes, int>, merges: Merges, bytesOf: map<int, Bytes>, added: seq<Added>)

  const SPACE := 0x20

  /** The last space of a merge line, or |line|. */
  function LastSpace(line: Bytes, n: nat): (sp: nat)
    requires n <= |line|
    ensures sp == |line| || (sp < n && line[sp] == SPACE)
  {
    if n == 0 then |line| else if line[n - 1] == SPACE then n - 1 else LastSpace(line, n - 1)
  }

  /** The merges map after the first n lines "left right"; the rank is the line number. */
  function MergesBelow(ids: map<Bytes, int>, lines: seq<Bytes>, n: nat): Merges
    requires n <= |lines|
  {
    if n == 0 then map[]
    else
      var before := MergesBelow(ids, lines, n - 1);
      var line := lines[n - 1];
      var sp := LastSpace(line, |line|);
      if sp == 0 || sp + 1 >= |line| then before
      else
        var left, right := line[..sp], line[sp + 1..];
        if left !in ids || right !in ids || ids[left] < 0 || ids[right] < 0 then before
        else before[(ids[left], ids[right]) := Merge(n - 1, if left + right in ids then ids[left + right] else -1)]
  }

  /** Every merge joins two keys of the vocabulary into the id of their concatenation. */
  ghost predicate MergesJoinKeys(m: Merges, ids: map<Bytes, int>) {
    forall p :: p in m ==> exists l, r :: l in ids && r in ids && JoinsKeys(m[p], p, ids, l, r)
  }

  ghost predicate JoinsKeys(e: Merge, p: Pair, ids: map<Bytes, int>, l: Bytes, r: Bytes)
    requires l in ids && r in ids
  {
    ids[l] == p.0 && ids[r] == p.1 && e.merged == if l + r in ids then ids[l + r] else -1
  }

  lemma {:induction false} LoadedMergesJoinKeys(ids: map<Bytes, int>, lines: seq<Bytes>, n: nat)
    requires n <= |lines|
    ensures MergesJoinKeys(MergesBelow(ids, lines, n), ids)
  {
    if n == 0 {
    } else {
      LoadedMergesJoinKeys(ids, lines, n - 1);
      var before, m := MergesBelow(ids, lines, n - 1), MergesBelow(ids, lines, n);
      var line := lines[n - 1];
      var sp := LastSpace(line, |line|);
      if m != before {
        var left, right := line[..sp], line[sp + 1..];
        var p := (ids[left], ids[right]);
        assert JoinsKeys(m[p], p, ids, left, right);
        forall q | q in m && q != p ensures exists l, r :: l in ids && r in ids && JoinsKeys(m[q], q, ids, l, r) {
          assert q in before && m[q] == before[q];
        }
      }
    }
  }

  ghost predicate DistinctIds(ids: map<Bytes, int>) {
    && (forall k :: k in ids ==> ids[k] >= 0)
    && forall k, l :: k in ids && l in ids && ids[k] == ids[l] ==> k == l
  }

  /** Added tokens are ASCII and their ids clash neither with the vocabulary nor among each other. */
  ghost predicate AddedOk(added: seq<Added>, ids: map<Bytes, int>) {
    && (forall i :: 0 <= i < |added| ==> IsAscii(added[i].bytes))
    && (forall i, k :: 0 <= i < |added| && k in ids ==> ids[k] != added[i].id)
    && forall i, j :: 0 <= i < |added| && 0 <= j < |added| && added[i].id == added[j].id ==> added[i] == added[j]
  }

  /** The id table after the vocabulary and the first n added tokens. */
  function IdTable(ids: map<Bytes, int>, added: seq<Added>, n: nat): map<int, Bytes>
    requires DistinctIds(ids) && n <= |added|
  {
    if n == 0 then map k | k in ids :: ids[k] := k
    else
      var before := IdTable(ids, added, n - 1);
      if added[n - 1].id < 0 then before else before[added[n - 1].id := added[n - 1].bytes]
  }

  lemma {:induction false} IdTableContents(ids: map<Bytes, int>, added: seq<Added>, n: nat)
    requires DistinctIds(ids) && AddedOk(added, ids) && n <= |added|
    ensures forall k :: k in ids ==> ids[k] in IdTable(ids, added, n) && IdTable(ids, added, n)[ids[k]] == k
    ensures forall i :: 0 <= i < n && added[i].id >= 0 ==>
              added[i].id in IdTable(ids, added, n) && IdTable(ids, added, n)[added[i].id] == added[i].bytes
  {
    if n == 0 {
    } else {
      IdTableContents(ids, added, n - 1);
    }
  }

  /** What tokenizer_load builds from a vocabulary, merge lines and added tokens. */
  function Load(ids: map<Bytes, int>, lines: seq<Bytes>, added: seq<Added>): Vocab
    requires DistinctIds(ids)
  {
    Vocab(ids, MergesBelow(ids, lines, |lines|), IdTable(ids, added, |added|), added)
  }

  /** The facts about a loaded vocabulary that the round trip needs. */
  ghost predicate VocabOk(v: Vocab) {
    && MergesJoinKeys(v.merges, v.ids)
    && (forall k :: k in v.ids ==> v.ids[k] in v.bytesOf && v.bytesOf[v.ids[k]] == k)
    && (forall i :: 0 <= i < |v.added| && v.added[i].id >= 0 ==>
          v.added[i].id in v.bytesOf && v.bytesOf[v.added[i].id] == v.added[i].bytes && IsAscii(v.added[i].bytes))
  }

  lemma LoadedVocabOk(ids: map<Bytes, int>, lines: seq<Bytes>, added: seq<Added>)
    requires DistinctIds(ids) && AddedOk(added, ids)
    ensures VocabOk(Load(ids, lines, added))
  {
    LoadedMergesJoinKeys(ids, lines, |lines|);
    IdTableContents(ids, added, |added|);
  }

  // ----- encoding a piece

  /** The tokens of the single bytes of a piece; None when a form is not in the vocabulary. */
  function ByteTokens(v: Vocab, s: Bytes): (r: Option<seq<int>>)
    requires AreBytes(s)
    ensures r.Some? ==> |r.value| == |s|
  {
    if s == [] then Some([])
    else
      var id := Lookup(v.ids, Form(s[0]));
      var rest := ByteTokens(v, s[1..]);
      if id.None? || id.value < 0 || rest.None? then None else Some([id.value] + rest.value)
  }

  /** encode_chunk. */
  function PieceTokens(v: Vocab, s: Bytes): Option<seq<int>>
    requires AreBytes(s)
  {
    var start := ByteTokens(v, s);
    if start.None? then None else Some(Merged(v.merges, start.value))
  }

  // ----- decoding

  /** tokenizer_decode: unknown ids are skipped. */
  ghost function Decode(v: Vocab, ids: seq<int>): Bytes {
    if ids == [] then []
    else (if ids[0] in v.bytesOf then Read(v.bytesOf[ids[0]]) else []) + Decode(v, ids[1..])
  }

  lemma {:induction false} DecodeConcat(v: Vocab, a: seq<int>, b: seq<int>)
    ensures Decode(v, a + b) == Decode(v, a) + Decode(v, b)
  {
    if a == [] {
      assert a + b == b;
    } else {
      assert (a + b)[1..] == a[1..] + b;
      DecodeConcat(v, a[1..], b);
      assert (a + b)[0] == a[0];
    }
  }

  // ----- merging keeps what tokens spell

  /** Every token is a key that spells bytes. */
  ghost predicate SpellsBytes(v: Vocab, id: int) {
    id in v.bytesOf && exists s :: AreBytes(s) && v.bytesOf[id] == Spell(s)
  }

  ghost predicate AllSpell(v: Vocab, ids: seq<int>) {
    forall i :: 0 <= i < |ids| ==> SpellsBytes(v, ids[i])
  }

  lemma ByteSpells(v: Vocab, id: int, b: int)
    requires 0 <= b < 256 && id in v.bytesOf && v.bytesOf[id] == Form(b)
    ensures SpellsBytes(v, id) && Read(v.bytesOf[id]) == [b]
  {
    assert Spell([b]) == Form(b) + Spell([]) == Form(b);
    assert AreBytes([b]) && v.bytesOf[id] == Spell([b]);
    ReadSpelled([b]);
  }

  lemma {:induction false} ByteTokensDecode(v: Vocab, s: Bytes)
    requires VocabOk(v) && AreBytes(s) && ByteTokens(v, s).Some?
    ensures AllSpell(v, ByteTokens(v, s).value) && Decode(v, ByteTokens(v, s).value) == s
  {
    if s == [] {
    } else {
      ByteTokensDecode(v, s[1..]);
      var ids := ByteTokens(v, s).value;
      ByteSpells(v, ids[0], s[0]);
      assert ids[1..] == ByteTokens(v, s[1..]).value;
      forall i | 0 <= i < |ids| ensures SpellsBytes(v, ids[i]) {
        assert i > 0 ==> ids[i] == ids[1..][i - 1];
      }
    }
  }

  /** A merged token spells what its two parts spell. */
  lemma MergedTokenSpells(v: Vocab, a: int, b: int)
    requires VocabOk(v) && Usable(v.merges, a, b) && SpellsBytes(v, a) && SpellsBytes(v, b)
    ensures var t := v.merges[(a, b)].merged;
            SpellsBytes(v, t) && Read(v.bytesOf[t]) == Read(v.bytesOf[a]) + Read(v.bytesOf[b])
  {
    var l, r :| l in v.ids && r in v.ids && JoinsKeys(v.merges[(a, b)], (a, b), v.ids, l, r);
    var x :| AreBytes(x) && v.bytesOf[a] == Spell(x);
    var y :| AreBytes(y) && v.bytesOf[b] == Spell(y);
    SpellConcat(x, y);
    ReadSpelled(x);
    ReadSpelled(y);
    ReadSpelled(x + y);
    assert v.bytesOf[v.merges[(a, b)].merged] == Spell(x + y);
  }

  lemma MergeSplits(m: Merges, cur: seq<int>, i: nat)
    requires i + 1 < |cur| && UsableAt(m, cur, i)
    ensures cur == cur[..i] + ([cur[i], cur[i + 1]] + cur[i + 2..])
    ensures MergeAt(m, cur, i) == cur[..i] + ([m[(cur[i], cur[i + 1])].merged] + cur[i + 2..])
  {
  }

  lemma MergeKeepsDecoding(v: Vocab, cur: seq<int>, i: nat)
    requires VocabOk(v) && AllSpell(v, cur) && i + 1 < |cur| && UsableAt(v.merges, cur, i)
    ensures AllSpell(v, MergeAt(v.merges, cur, i)) && Decode(v, MergeAt(v.merges, cur, i)) == Decode(v, cur)
  {
    var t := MergeAt(v.merges, cur, i);
    MergedTokenSpells(v, cur[i], cur[i + 1]);
    MergeSplits(v.merges, cur, i);
    var before, after := cur[..i], cur[i + 2..];
    DecodeConcat(v, before, [t[i]] + after);
    DecodeConcat(v, [t[i]], after);
    DecodeConcat(v, before, [cur[i], cur[i + 1]] + after);
    DecodeConcat(v, [cur[i], cur[i + 1]], after);
    DecodeOne(v, t[i]);
    DecodeTwo(v, cur[i], cur[i + 1]);
    forall j | 0 <= j < |t| ensures SpellsBytes(v, t[j]) {
      assert j < i ==> t[j] == cur[j];
      assert j > i ==> t[j] == cur[j + 1];
    }
  }

  lemma DecodeOne(v: Vocab, a: int)
    requires a in v.bytesOf
    ensures Decode(v, [a]) == Read(v.bytesOf[a])
  {
    assert Decode(v, [a]) == Read(v.bytesOf[a]) + [];
  }

  lemma DecodeTwo(v: Vocab, a: int, b: int)
    requires a in v.bytesOf && b in v.bytesOf
    ensures Decode(v, [a, b]) == Read(v.bytesOf[a]) + Read(v.bytesOf[b])
  {
    assert [a, b] == [a] + [b];
    DecodeConcat(v, [a], [b]);
    DecodeOne(v, a);
    DecodeOne(v, b);
  }

  lemma {:induction false} MergedDecodes(v: Vocab, cur: seq<int>)
    requires VocabOk(v) && AllSpell(v, cur)
    ensures Decode(v, Merged(v.merges, cur)) == Decode(v, cur)
    decreases |cur|
  {
    match BestFrom(v.merges, cur, 0)
    case None =>
    case Some(i) =>
      MergeKeepsDecoding(v, cur, i);
      MergedDecodes(v, MergeAt(v.merges, cur, i));
  }

  /** Decoding the tokens of a piece gives the piece back. */
  lemma PieceDecodes(v: Vocab, s: Bytes)
    requires VocabOk(v) && AreBytes(s) && PieceTokens(v, s).Some?
    ensures Decode(v, PieceTokens(v, s).value) == s
  {
    ByteTokensDecode(v, s);
    MergedDecodes(v, ByteTokens(v, s).value);
  }

  // ----- encoding a text

  /** Rejected is the source's -1; Diverges is a loop that makes no progress. */
  datatype Encoded = Ids(ids: seq<int>) | Rejected | Diverges

  predicate MatchesAt(s: Bytes, p: nat, w: Bytes)
    requires p <= |s|
  {
    |w| <= |s| - p && s[p..p + |w|] == w
  }

  /** `added_at` after the first n added tokens: the longest nonempty match, the first one among
      the longest. */
  function BestAdded(added: seq<Added>, s: Bytes, p: nat, n: nat): (r: Option<nat>)
    requires p <= |s| && n <= |added|
    ensures r.Some? ==> r.value < n && added[r.value].bytes != [] && MatchesAt(s, p, added[r.value].bytes)
  {
    if n == 0 then None
    else
      var before := BestAdded(added, s, p, n - 1);
      var ml := if before.None? then 0 else |added[before.value].bytes|;
      if |added[n - 1].bytes| > ml && MatchesAt(s, p, added[n - 1].bytes) then Some(n - 1) else before
  }

  lemma {:induction false} BestAddedIsLongest(added: seq<Added>, s: Bytes, p: nat, n: nat)
    requires p <= |s| && n <= |added|
    ensures var r := BestAdded(added, s, p, n);
            forall k :: 0 <= k < n && added[k].bytes != [] && MatchesAt(s, p, added[k].bytes) ==>
              r.Some? && |added[k].bytes| <= |added[r.value].bytes|
              && (|added[k].bytes| == |added[r.value].bytes| ==> r.value <= k)
  {
    if n == 0 {
    } else {
      BestAddedIsLongest(added, s, p, n - 1);
    }
  }

  /** The added token encoding takes at p, if its id is usable. */
  function AddedAt(v: Vocab, s: Bytes, p: nat): (r: Option<nat>)
    requires p <= |s|
    ensures r.Some? ==> r.value < |v.added| && v.added[r.value].bytes != [] && v.added[r.value].id >= 0
                        && MatchesAt(s, p, v.added[r.value].bytes)
  {
    var r := BestAdded(v.added, s, p, |v.added|);
    if r.Some? && v.added[r.value].id >= 0 then r else None
  }

  /** Where the plain text that includes p - 1 ends. */
  function NextAdded(v: Vocab, s: Bytes, p: nat): (lim: nat)
    requires p <= |s|
    ensures p <= lim <= |s|
    decreases |s| - p
  {
    if p == |s| || AddedAt(v, s, p).Some? then p else NextAdded(v, s, p + 1)
  }

  /** The end of the piece at i of plain text that ends at lim. */
  function PieceEnd(cls: Classes, s: Bytes, lim: nat, i: nat): (e: nat)
    requires i < lim <= |s| && AreBytes(s)
    ensures i <= e <= lim
  {
    var e := PretokenEnd(cls, s, lim, i);
    if e == 0 then NextCp(s, lim, i) else e
  }

  lemma SliceBytes(s: Bytes, i: nat, j: nat)
    requires i <= j <= |s| && AreBytes(s)
    ensures AreBytes(s[i..j])
  {
  }

  /** The tokens of one piece. */
  function PieceAt(v: Vocab, s: Bytes, i: nat, e: nat): Option<seq<int>>
    requires i <= e <= |s| && AreBytes(s)
  {
    SliceBytes(s, i, e);
    PieceTokens(v, s[i..e])
  }

  // ----- how the loops of tokenizer_encode cut a text

  /** An added token, a piece of plain text, or a piece of plain text at which the loop stands still. */
  datatype Segment = Special(index: nat, lo: nat, hi: nat) | Piece(lo: nat, hi: nat) | Stands(lo: nat)

  function PieceFrom(cls: Classes, s: Bytes, i: nat, lim: nat): Segment
    requires i < lim <= |s| && AreBytes(s)
  {
    var e := PieceEnd(cls, s, lim, i);
    if e == i then Stands(i) else Piece(i, e)
  }

  /** The segment that starts at i; below lim the text is known to be plain. */
  function SegmentAt(v: Vocab, cls: Classes, s: Bytes, i: nat, lim: nat): Segment
    requires i < |s| && lim <= |s| && AreBytes(s)
  {
    if i < lim then PieceFrom(cls, s, i, lim)
    else
      var k := AddedAt(v, s, i);
      if k.Some? then Special(k.value, i, i + |v.added[k.value].bytes|)
      else PieceFrom(cls, s, i, NextAdded(v, s, i + 1))
  }

  /** Up to where the text is known to be plain after the segment at i. */
  function PlainUntil(v: Vocab, s: Bytes, i: nat, lim: nat): nat
    requires i < |s| && lim <= |s|
  {
    if i < lim then lim
    else
      var k := AddedAt(v, s, i);
      if k.Some? then i + |v.added[k.value].bytes| else NextAdded(v, s, i + 1)
  }

  /** What a segment says about the text. */
  predicate SegmentOk(v: Vocab, s: Bytes, g: Segment) {
    match g
    case Stands(lo) => lo < |s|
    case Piece(lo, hi) => lo < hi <= |s|
    case Special(k, lo, hi) => lo < hi <= |s| && k < |v.added| && v.added[k].id >= 0 && s[lo..hi] == v.added[k].bytes
  }

  lemma SegmentAtOk(v: Vocab, cls: Classes, s: Bytes, i: nat, lim: nat)
    requires i < |s| && lim <= |s| && AreBytes(s)
    ensures SegmentOk(v, s, SegmentAt(v, cls, s, i, lim)) && SegmentAt(v, cls, s, i, lim).lo == i
    ensures PlainUntil(v, s, i, lim) <= |s|
  {
  }

  /** All segments from i on, up to one that stands still. */
  function Cuts(v: Vocab, cls: Classes, s: Bytes, i: nat, lim: nat): seq<Segment>
    requires i <= |s| && lim <= |s| && AreBytes(s)
    decreases |s| - i
  {
    if i == |s| then []
    else
      SegmentAtOk(v, cls, s, i, lim);
      var g := SegmentAt(v, cls, s, i, lim);
      if g.Stands? then [g] else [g] + Cuts(v, cls, s, g.hi, PlainUntil(v, s, i, lim))
  }

  /** The segments follow each other from i to the end of the text, none of them empty; only the
      last one may stand still. */
  predicate Tiles(v: Vocab, s: Bytes, gs: seq<Segment>, i: nat) {
    if gs == [] then i == |s|
    else SegmentOk(v, s, gs[0]) && gs[0].lo == i && if gs[0].Stands? then |gs| == 1 else Tiles(v, s, gs[1..], gs[0].hi)
  }

  lemma {:induction false} CutsTile(v: Vocab, cls: Classes, s: Bytes, i: nat, lim: nat)
    requires i <= |s| && lim <= |s| && AreBytes(s)
    ensures Tiles(v, s, Cuts(v, cls, s, i, lim), i)
    decreases |s| - i
  {
    if i == |s| {
    } else {
      SegmentAtOk(v, cls, s, i, lim);
      var g := SegmentAt(v, cls, s, i, lim);
      if !g.Stands? {
        CutsTile(v, cls, s, g.hi, PlainUntil(v, s, i, lim));
        assert Cuts(v, cls, s, i, lim)[1..] == Cuts(v, cls, s, g.hi, PlainUntil(v, s, i, lim));
      }
    }
  }

  // ----- encoding the segments

  function Prepend(ids: seq<int>, rest: Encoded): Encoded {
    if rest.Ids? then Ids(ids + rest.ids) else rest
  }

  /** The tokens of a segment that does not stand still. */
  function SegmentTokens(v: Vocab, s: Bytes, g: Segment): Option<seq<int>>
    requires SegmentOk(v, s, g) && !g.Stands? && AreBytes(s)
  {
    if g.Special? then Some([v.added[g.index].id]) else PieceAt(v, s, g.lo, g.hi)
  }

  /** Encode segments with room for cap ids. */
  function EncodeAll(v: Vocab, s: Bytes, gs: seq<Segment>, i: nat, cap: nat): Encoded
    requires AreBytes(s) && Tiles(v, s, gs, i)
  {
    if gs == [] then Ids([])
    else if gs[0].Stands? then Diverges
    else
      var ids := SegmentTokens(v, s, gs[0]);
      if ids.None? || |ids.value| > cap then Rejected
      else Prepend(ids.value, EncodeAll(v, s, gs[1..], gs[0].hi, cap - |ids.value|))
  }

  /** `tokenizer_encode`. */
  function Encode(v: Vocab, cls: Classes, s: Bytes, cap: nat): Encoded
    requires AreBytes(s)
  {
    CutsTile(v, cls, s, 0, 0);
    EncodeAll(v, s, Cuts(v, cls, s, 0, 0), 0, cap)
  }

  // ----- decoding an encoded text gives the text

  lemma SegmentDecodes(v: Vocab, s: Bytes, g: Segment)
    requires VocabOk(v) && AreBytes(s) && SegmentOk(v, s, g) && !g.Stands? && SegmentTokens(v, s, g).Some?
    ensures Decode(v, SegmentTokens(v, s, g).value) == s[g.lo..g.hi]
  {
    if g.Special? {
      DecodeOne(v, v.added[g.index].id);
      ReadAscii(v.added[g.index].bytes);
    } else {
      SliceBytes(s, g.lo, g.hi);
      PieceDecodes(v, s[g.lo..g.hi]);
    }
  }

  lemma DecodeJoins(v: Vocab, s: Bytes, ids: seq<int>, rest: seq<int>, i: nat, m: nat)
    requires i <= m <= |s| && Decode(v, ids) == s[i..m] && Decode(v, rest) == s[m..]
    ensures Decode(v, ids + rest) == s[i..]
  {
    DecodeConcat(v, ids, rest);
    assert s[i..] == s[i..m] + s[m..];
  }

  lemma {:induction false} EncodedDecodes(v: Vocab, s: Bytes, gs: seq<Segment>, i: nat, cap: nat)
    requires VocabOk(v) && AreBytes(s) && i <= |s| && Tiles(v, s, gs, i) && EncodeAll(v, s, gs, i, cap).Ids?
    ensures var ids := EncodeAll(v, s, gs, i, cap).ids; |ids| <= cap && Decode(v, ids) == s[i..]
  {
    if gs == [] {
    } else {
      var g := gs[0];
      var ids := SegmentTokens(v, s, g).value;
      var rest := EncodeAll(v, s, gs[1..], g.hi, cap - |ids|);
      assert EncodeAll(v, s, gs, i, cap) == Prepend(ids, rest);
      EncodedDecodes(v, s, gs[1..], g.hi, cap - |ids|);
      SegmentDecodes(v, s, g);
      DecodeJoins(v, s, ids, rest.ids, i, g.hi);
    }
  }

  /** Whenever encoding succeeds, decoding the ids gives the text, for every vocabulary with
      distinct ids, every merge list, every classification and every capacity. */
  lemma RoundTrip(ids: map<Bytes, int>, lines: seq<Bytes>, added: seq<Added>, cls: Classes, s: Bytes, cap: nat)
    requires DistinctIds(ids) && AddedOk(added, ids) && AreBytes(s)
    ensures var v := Load(ids, lines, added);
            Encode(v, cls, s, cap).Ids? ==>
              Decode(v, Encode(v, cls, s, cap).ids) == s && |Encode(v, cls, s, cap).ids| <= cap
  {
    var v := Load(ids, lines, added);
    LoadedVocabOk(ids, lines, added);
    CutsTile(v, cls, s, 0, 0);
    if Encode(v, cls, s, cap).Ids? {
      EncodedDecodes(v, s, Cuts(v, cls, s, 0, 0), 0, cap);
    }
  }

  // ----- when encoding ends, and when it succeeds

  /** Every character of class whitespace is one ASCII byte, in the text and in all its cuts. */
  ghost predicate AsciiSpaces(cls: Classes, s: Bytes)
    requires AreBytes(s)
  {
    forall len, p :: 0 <= p < len <= |s| && ClassAt(cls, s, len, p).space ==> s[p] < 0x80
  }

  lemma NextSegmentMoves(v: Vocab, cls: Classes, s: Bytes, i: nat, lim: nat)
    requires i < |s| && lim <= |s| && AreBytes(s) && AsciiSpaces(cls, s)
    ensures !SegmentAt(v, cls, s, i, lim).Stands?
  {
    if i < lim {
      AsciiSpacesAdvance(cls, s, lim, i);
    } else if AddedAt(v, s, i).None? {
      AsciiSpacesAdvance(cls, s, NextAdded(v, s, i + 1), i);
    }
  }

  /** With ASCII whitespace no segment stands still. */
  lemma {:induction false} CutsMove(v: Vocab, cls: Classes, s: Bytes, i: nat, lim: nat)
    requires i <= |s| && lim <= |s| && AreBytes(s) && AsciiSpaces(cls, s)
    ensures forall k :: 0 <= k < |Cuts(v, cls, s, i, lim)| ==> !Cuts(v, cls, s, i, lim)[k].Stands?
    decreases |s| - i
  {
    if i == |s| {
    } else {
      NextSegmentMoves(v, cls, s, i, lim);
      SegmentAtOk(v, cls, s, i, lim);
      CutsMove(v, cls, s, SegmentAt(v, cls, s, i, lim).hi, PlainUntil(v, s, i, lim));
    }
  }

  ghost predicate AllMove(gs: seq<Segment>) {
    forall k :: 0 <= k < |gs| ==> !gs[k].Stands?
  }

  /** Hence encoding such a text never runs forever. */
  lemma EncodeEnds(v: Vocab, cls: Classes, s: Bytes, cap: nat)
    requires AreBytes(s) && AsciiSpaces(cls, s)
    ensures !Encode(v, cls, s, cap).Diverges?
  {
    CutsTile(v, cls, s, 0, 0);
    CutsMove(v, cls, s, 0, 0);
    MovingEnds(v, s, Cuts(v, cls, s, 0, 0), 0, cap);
  }

  lemma {:induction false} MovingEnds(v: Vocab, s: Bytes, gs: seq<Segment>, i: nat, cap: nat)
    requires AreBytes(s) && Tiles(v, s, gs, i) && AllMove(gs)
    ensures !EncodeAll(v, s, gs, i, cap).Diverges?
  {
    if gs == [] {
    } else {
      var ids := SegmentTokens(v, s, gs[0]);
      if ids.Some? && |ids.value| <= cap {
        MovingEnds(v, s, gs[1..], gs[0].hi, cap - |ids.value|);
      }
    }
  }

  /** The vocabulary has every byte form. */
  ghost predicate AllForms(v: Vocab) {
    forall b: nat :: b < 256 ==> Form(b) in v.ids && v.ids[Form(b)] >= 0
  }

  lemma {:induction false} BytesSucceed(v: Vocab, s: Bytes)
    requires AllForms(v) && AreBytes(s)
    ensures ByteTokens(v, s).Some?
  {
    if s == [] {
    } else {
      BytesSucceed(v, s[1..]);
    }
  }

  lemma SegmentSucceeds(v: Vocab, s: Bytes, g: Segment)
    requires AllForms(v) && AreBytes(s) && SegmentOk(v, s, g) && !g.Stands?
    ensures SegmentTokens(v, s, g).Some? && |SegmentTokens(v, s, g).value| <= g.hi - g.lo
  {
    if g.Piece? {
      SliceBytes(s, g.lo, g.hi);
      BytesSucceed(v, s[g.lo..g.hi]);
      MergedIsFinal(v.merges, ByteTokens(v, s[g.lo..g.hi]).value);
    }
  }

  /** With all byte forms and room for one id per byte, encoding fails only by standing still. */
  lemma {:induction false} EncodesExactly(v: Vocab, s: Bytes, gs: seq<Segment>, i: nat, cap: nat)
    requires AllForms(v) && AreBytes(s) && i <= |s| && Tiles(v, s, gs, i) && |s| - i <= cap
    ensures EncodeAll(v, s, gs, i, cap).Ids? <==> AllMove(gs)
    ensures EncodeAll(v, s, gs, i, cap).Diverges? <==> !AllMove(gs)
  {
    if gs != [] && !gs[0].Stands? {
      SegmentSucceeds(v, s, gs[0]);
      EncodesExactly(v, s, gs[1..], gs[0].hi, cap - |SegmentTokens(v, s, gs[0]).value|);
      assert AllMove(gs) <==> AllMove(gs[1..]) by {
        assert gs == [gs[0]] + gs[1..];
      }
    }
  }

  /** With all byte forms in the vocabulary and room for one id per byte, a text is encoded exactly
      when no segment of it stands still; otherwise the call never ends. */
  lemma TextEncodesExactly(v: Vocab, cls: Classes, s: Bytes, cap: nat)
    requires AllForms(v) && AreBytes(s) && |s| <= cap
    ensures Encode(v, cls, s, cap).Ids? <==> AllMove(Cuts(v, cls, s, 0, 0))
    ensures Encode(v, cls, s, cap).Diverges? <==> !AllMove(Cuts(v, cls, s, 0, 0))
  {
    CutsTile(v, cls, s, 0, 0);
    EncodesExactly(v, s, Cuts(v, cls, s, 0, 0), 0, cap);
  }

  /** With all byte forms in the vocabulary and room for one id per byte, every text whose
      whitespace is ASCII is encoded. */
  lemma EncodeSucceeds(v: Vocab, cls: Classes, s: Bytes, cap: nat)
    requires AllForms(v) && AreBytes(s) && AsciiSpaces(cls, s) && |s| <= cap
    ensures Encode(v, cls, s, cap).Ids?
  {
    CutsMove(v, cls, s, 0, 0);
    TextEncodesExactly(v, cls, s, cap);
  }

  const NBSP_TEXT := [0x61, 0xC2, 0xA0, 0x21]

  /** The letter is a piece of its own, and the piece at the no-break space after it is empty. */
  lemma NoBreakSpaceStands(cls: Classes)
    requires cls(0xA0) == CClass(false, false, false, true) && cls(0x61) == CClass(true, false, false, false)
    requires cls(0x21) == CClass(false, false, false, false)
    ensures AreBytes(NBSP_TEXT) && PieceEnd(cls, NBSP_TEXT, 4, 0) == 1 && PieceEnd(cls, NBSP_TEXT, 4, 1) == 1
  {
    var s := NBSP_TEXT;
    assert CodeAt(s, 4, 1) == Fold(s, 4, 2, 1, 2) == Fold(s, 4, 3, 0, 0xA0) == 0xA0;
    assert RunEnd(cls, Letters, s, 4, 1) == 1 && RunEnd(cls, Punctuation, s, 4, 1) == 1;
    assert RunEnd(cls, Spaces, s, 4, 1) == RunEnd(cls, Spaces, s, 4, 3) == 3;
    assert LastNewlineEnd(cls, s, 4, 1, 0) == LastNewlineEnd(cls, s, 4, 3, 0) == 0;
    assert BackUp(s, 1, 2) == BackUp(s, 1, 1) == 1;
    assert PretokenEnd(cls, s, 4, 0) == RunEnd(cls, Letters, s, 4, 0) == RunEnd(cls, Letters, s, 4, 1);
  }

  /** A text with a no-break space before its last character is never encoded. */
  lemma EncodeMayStandStill(v: Vocab, cls: Classes)
    requires v.added == [] && AllForms(v)
    requires cls(0xA0) == CClass(false, false, false, true) && cls(0x61) == CClass(true, false, false, false)
    requires cls(0x21) == CClass(false, false, false, false)
    ensures AreBytes(NBSP_TEXT) && Encode(v, cls, NBSP_TEXT, 4).Diverges?
  {
    NoBreakSpaceStands(cls);
    var s := NBSP_TEXT;
    assert forall p: nat :: p <= 4 ==> AddedAt(v, s, p).None?;
    assert NextAdded(v, s, 1) == NextAdded(v, s, 2) == NextAdded(v, s, 3) == NextAdded(v, s, 4) == 4;
    assert SegmentAt(v, cls, s, 0, 0) == Piece(0, 1) && SegmentAt(v, cls, s, 1, 4) == Stands(1);
    assert Cuts(v, cls, s, 1, 4) == [Stands(1)];
    var gs := Cuts(v, cls, s, 0, 0);
    assert gs == [Piece(0, 1)] + Cuts(v, cls, s, 1, 4);
    CutsTile(v, cls, s, 0, 0);
    SegmentSucceeds(v, s, gs[0]);
    var ids := SegmentTokens(v, s, gs[0]).value;
    assert gs[1..] == [Stands(1)];
    assert EncodeAll(v, s, gs[1..], 1, 4 - |ids|) == Diverges;
  }
}
