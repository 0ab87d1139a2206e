/** What the ids of an encoded text stand for: which added token is taken where, where plain text is cut,
    and which tokens a piece begins with. */
module EncodeRules {
  import opened Options
  import opened ByteForms
  import opened Pretoken
  import opened Bpe
  import opened Tokenizer

  /** The added token k stands in s at p. */
  ghost predicate StandsAt(added: seq<Added>, s: Bytes, p: nat, k: nat) {
    && k < |added| && 0 < |added[k].bytes| && p + |added[k].bytes| <= |s|
    && forall i :: 0 <= i < |added[k].bytes| ==> s[p + i] == added[k].bytes[i]
  }

  /** It is the longest that does, the first in the file among equals, and its id is usable. */
  ghost predicate Takes(added: seq<Added>, s: Bytes, p: nat, k: nat) {
    && StandsAt(added, s, p, k) && added[k].id >= 0
    && forall j: nat :: StandsAt(added, s, p, j) ==>
         |added[j].bytes| < |added[k].bytes| || (|added[j].bytes| == |added[k].bytes| && k <= j)
  }

  ghost predicate Plain(added: seq<Added>, s: Bytes, p: nat) {
    forall k: nat :: !Takes(added, s, p, k)
  }

  /** Plain text from p on, up to the end of the text or the next added token. */
  ghost predicate PlainTo(added: seq<Added>, s: Bytes, p: nat, lim: nat) {
    && p < lim <= |s| && (forall q: nat :: p <= q < lim ==> Plain(added, s, q))
    && (lim == |s| || !Plain(added, s, lim))
  }

  lemma MatchExactly(added: seq<Added>, s: Bytes, p: nat, k: nat)
    requires p <= |s| && k < |added|
    ensures StandsAt(added, s, p, k) <==> added[k].bytes != [] && MatchesAt(s, p, added[k].bytes)
  {
    var w := added[k].bytes;
    if p + |w| <= |s| {
      var here := s[p..p + |w|];
      forall i | 0 <= i < |w| ensures here[i] == s[p + i] {
      }
    }
  }

  /** Encoding takes exactly that token. */
  lemma AddedExactly(v: Vocab, s: Bytes, p: nat, k: nat)
    requires p <= |s|
    ensures AddedAt(v, s, p) == Some(k) <==> Takes(v.added, s, p, k)
  {
    BestAddedIsLongest(v.added, s, p, |v.added|);
    forall j: nat | j < |v.added|
      ensures StandsAt(v.added, s, p, j) <==> v.added[j].bytes != [] && MatchesAt(s, p, v.added[j].bytes)
    {
      MatchExactly(v.added, s, p, j);
    }
  }

  lemma PlainExactly(v: Vocab, s: Bytes, p: nat)
    requires p <= |s|
    ensures AddedAt(v, s, p).None? <==> Plain(v.added, s, p)
  {
    if AddedAt(v, s, p).Some? {
      AddedExactly(v, s, p, AddedAt(v, s, p).value);
    }
    forall k: nat ensures AddedAt(v, s, p).None? ==> !Takes(v.added, s, p, k) {
      AddedExactly(v, s, p, k);
    }
  }

  lemma {:induction false} NextAddedIs(v: Vocab, s: Bytes, p: nat)
    requires p <= |s|
    ensures var lim := NextAdded(v, s, p);
            && (forall q: nat :: p <= q < lim ==> Plain(v.added, s, q)) && (lim == |s| || !Plain(v.added, s, lim))
    decreases |s| - p
  {
    PlainExactly(v, s, p);
    if p < |s| && AddedAt(v, s, p).None? {
      NextAddedIs(v, s, p + 1);
    }
  }

  // ----- the cuts

  /** An added token that is taken, or a piece of the plain text around it. */
  ghost predicate SegmentIs(v: Vocab, cls: Classes, s: Bytes, g: Segment)
    requires AreBytes(s)
  {
    match g
    case Special(k, lo, hi) => Takes(v.added, s, lo, k) && hi == lo + |v.added[k].bytes|
    case Piece(lo, hi) => lo < hi && exists lim :: PlainTo(v.added, s, lo, lim) && hi == PieceEnd(cls, s, lim, lo)
    case Stands(lo) => exists lim :: PlainTo(v.added, s, lo, lim) && lo == PieceEnd(cls, s, lim, lo)
  }

  /** The text from i on is known to be plain up to lim. */
  ghost predicate Known(v: Vocab, s: Bytes, i: nat, lim: nat) {
    i < lim ==> PlainTo(v.added, s, i, lim)
  }

  lemma CutIs(v: Vocab, cls: Classes, s: Bytes, i: nat, lim: nat)
    requires i < |s| && lim <= |s| && AreBytes(s) && Known(v, s, i, lim)
    ensures var g := SegmentAt(v, cls, s, i, lim);
            SegmentIs(v, cls, s, g) && (!g.Stands? ==> Known(v, s, g.hi, PlainUntil(v, s, i, lim)))
  {
    if i < lim {
      PieceIn(v, cls, s, i, lim);
    } else if AddedAt(v, s, i).Some? {
      AddedExactly(v, s, i, AddedAt(v, s, i).value);
    } else {
      PlainExactly(v, s, i);
      NextAddedIs(v, s, i + 1);
      PieceIn(v, cls, s, i, NextAdded(v, s, i + 1));
    }
  }

  lemma PieceIn(v: Vocab, cls: Classes, s: Bytes, i: nat, lim: nat)
    requires i < lim <= |s| && AreBytes(s) && PlainTo(v.added, s, i, lim)
    ensures SegmentIs(v, cls, s, PieceFrom(cls, s, i, lim)) && Known(v, s, PieceEnd(cls, s, lim, i), lim)
  {
  }

  ghost predicate AllAre(v: Vocab, cls: Classes, s: Bytes, gs: seq<Segment>)
    requires AreBytes(s)
  {
    forall j :: 0 <= j < |gs| ==> SegmentIs(v, cls, s, gs[j])
  }

  /** Every cut is one of these. */
  lemma {:induction false} CutsAre(v: Vocab, cls: Classes, s: Bytes, i: nat, lim: nat)
    requires i <= |s| && lim <= |s| && AreBytes(s) && Known(v, s, i, lim)
    ensures AllAre(v, cls, s, Cuts(v, cls, s, i, lim))
    decreases |s| - i
  {
    if i == |s| {
    } else {
      SegmentAtOk(v, cls, s, i, lim);
      CutIs(v, cls, s, i, lim);
      var g := SegmentAt(v, cls, s, i, lim);
      if !g.Stands? {
        CutsAre(v, cls, s, g.hi, PlainUntil(v, s, i, lim));
      }
    }
  }

  // ----- the ids

  /** A piece begins with the tokens of its bytes, which are then merged. */
  ghost predicate PieceIs(v: Vocab, bytes: Bytes, ids: seq<int>)
    requires AreBytes(bytes)
  {
    exists start :: StartIs(v, bytes, start) && ids == Merged(v.merges, start)
  }

  ghost predicate StartIs(v: Vocab, bytes: Bytes, start: seq<int>)
    requires AreBytes(bytes)
  {
    |start| == |bytes| && forall i :: 0 <= i < |bytes| ==> Form(bytes[i]) in v.ids && v.ids[Form(bytes[i])] == start[i] >= 0
  }

  lemma {:induction false} StartExactly(v: Vocab, bytes: Bytes)
    requires AreBytes(bytes)
    ensures ByteTokens(v, bytes).Some? ==> StartIs(v, bytes, ByteTokens(v, bytes).value)
    ensures ByteTokens(v, bytes).None? ==> exists i :: 0 <= i < |bytes| && !(Form(bytes[i]) in v.ids && v.ids[Form(bytes[i])] >= 0)
  {
    if bytes == [] {
    } else {
      StartExactly(v, bytes[1..]);
      if ByteTokens(v, bytes).None? && Form(bytes[0]) in v.ids && v.ids[Form(bytes[0])] >= 0 {
        var i :| 0 <= i < |bytes[1..]| && !(Form(bytes[1..][i]) in v.ids && v.ids[Form(bytes[1..][i])] >= 0);
        assert bytes[1..][i] == bytes[i + 1];
      }
    }
  }

  /** The ids of the segments one after the other: the id of an added token, the tokens of a piece. */
  ghost predicate IdsAre(v: Vocab, s: Bytes, gs: seq<Segment>, ids: seq<int>)
    requires AreBytes(s)
    decreases |gs|
  {
    if gs == [] then ids == []
    else
      match gs[0]
      case Stands(_) => false
      case Special(k, _, _) => k < |v.added| && ids != [] && ids[0] == v.added[k].id && IdsAre(v, s, gs[1..], ids[1..])
      case Piece(lo, hi) =>
        lo <= hi <= |s| &&
        exists n: nat :: n <= |ids| && AreBytes(s[lo..hi]) && PieceIs(v, s[lo..hi], ids[..n]) && IdsAre(v, s, gs[1..], ids[n..])
  }

  lemma PieceAtIs(v: Vocab, s: Bytes, lo: nat, hi: nat)
    requires lo <= hi <= |s| && AreBytes(s) && PieceAt(v, s, lo, hi).Some?
    ensures AreBytes(s[lo..hi]) && PieceIs(v, s[lo..hi], PieceAt(v, s, lo, hi).value)
  {
    SliceBytes(s, lo, hi);
    StartExactly(v, s[lo..hi]);
  }

  lemma {:induction false} EncodedIds(v: Vocab, s: Bytes, gs: seq<Segment>, i: nat, cap: nat)
    requires AreBytes(s) && Tiles(v, s, gs, i) && EncodeAll(v, s, gs, i, cap).Ids?
    ensures IdsAre(v, s, gs, EncodeAll(v, s, gs, i, cap).ids) && |EncodeAll(v, s, gs, i, cap).ids| <= cap
    decreases |gs|
  {
    if gs == [] {
    } else {
      var head, ids := SegmentTokens(v, s, gs[0]).value, EncodeAll(v, s, gs, i, cap).ids;
      EncodedIds(v, s, gs[1..], gs[0].hi, cap - |head|);
      var rest := EncodeAll(v, s, gs[1..], gs[0].hi, cap - |head|).ids;
      assert ids == head + rest && ids[..|head|] == head && ids[|head|..] == rest;
      if gs[0].Piece? {
        PieceAtIs(v, s, gs[0].lo, gs[0].hi);
      }
    }
  }

  /** The ids of a text are those of segments that tile it: each added token where it is the longest that
      stands there, and between them plain text cut into pieces. */
  lemma EncodedBySegments(v: Vocab, cls: Classes, s: Bytes, cap: nat)
    requires AreBytes(s) && Encode(v, cls, s, cap).Ids?
    ensures var ids := Encode(v, cls, s, cap).ids;
            |ids| <= cap && exists gs :: Tiles(v, s, gs, 0) && AllAre(v, cls, s, gs) && IdsAre(v, s, gs, ids)
  {
    CutsTile(v, cls, s, 0, 0);
    CutsAre(v, cls, s, 0, 0);
    EncodedIds(v, s, Cuts(v, cls, s, 0, 0), 0, cap);
  }
}
