/** The whole of c/src/tokenizer.c in one run: the tables that tokenizer_load builds, a text through
    tokenizer_encode, and its ids through tokenizer_decode. */
module TokenizerRoundTrip {
  import opened Options
  import opened ByteForms
  import opened Pretoken
  import opened Bpe
  import opened Tokenizer
  import opened TokenizerEncode
  import Load = TokenizerLoad
  import Decoder = TokenizerDecode
  import MergeRanks
  import ProbeTable

  lemma {:induction false} IdTableBound(ids: map<Bytes, int>, added: seq<Added>, n: nat, maxId: int)
    requires DistinctIds(ids) && n <= |added|
    requires (forall k :: k in ids ==> ids[k] <= maxId) && forall i :: 0 <= i < |added| ==> added[i].id <= maxId
    ensures forall id :: id in IdTable(ids, added, n) ==> 0 <= id <= maxId
  {
    if n == 0 {
    } else {
      IdTableBound(ids, added, n - 1, maxId);
    }
  }

  /** The id table, with room for the largest id of the vocabulary and the added tokens. */
  method BuildIdTable(vocab: VocabTable, added: seq<Added>, maxId: int, ghost v: Vocab) returns (idBytes: array<Option<Bytes>>)
    requires vocab.Valid() && DistinctIds(vocab.entries) && maxId >= -1
    requires forall k :: k in vocab.entries ==> vocab.entries[k] <= maxId
    requires forall i :: 0 <= i < |added| ==> added[i].id <= maxId
    requires v.bytesOf == IdTable(vocab.entries, added, |added|)
    ensures vocab.Valid() && fresh(idBytes) && Decoder.KeysOk(idBytes, v)
  {
    idBytes := new Option<Bytes>[maxId + 1](_ => None);
    Load.FillKeys(vocab, idBytes);
    Load.FillAdded(vocab.entries, added, idBytes);
    IdTableBound(vocab.entries, added, |added|, maxId);
  }

  /** The tables of tokenizer_load for a vocabulary, merge lines and added tokens. */
  method BuildTables(vocab: VocabTable, lines: seq<Bytes>, added: seq<Added>, maxId: int, pairHash: Pair -> nat)
    returns (merges: MergeTable, form: array<Bytes>, uni: VocabTable, idBytes: array<Option<Bytes>>)
    requires vocab.Valid() && DistinctIds(vocab.entries) && maxId >= -1
    requires forall k :: k in vocab.entries ==> vocab.entries[k] <= maxId
    requires forall i :: 0 <= i < |added| ==> added[i].id <= maxId
    ensures MapsOk(vocab, merges, form, Tokenizer.Load(vocab.entries, lines, added))
    ensures Decoder.KeysOk(idBytes, Tokenizer.Load(vocab.entries, lines, added))
    ensures uni.Valid() && UniOk(uni.entries)
    ensures MergeRanks.RanksArePlaces(vocab.entries, lines, merges.entries)
  {
    form := ByteToUnicode();
    uni := new ProbeTable.Table(vocab.hash, 1024);
    FillUni(form, uni);
    idBytes := BuildIdTable(vocab, added, maxId, Tokenizer.Load(vocab.entries, lines, added));
    merges := new ProbeTable.Table(pairHash, 2 * |lines| + 1024);
    Load.LoadMerges(vocab, merges, lines);
  }

  /** Encode a text and decode its ids. When encoding succeeds the decoded bytes are the text, with a
      NUL after them. With all byte forms in the vocabulary and room for one id per byte it succeeds
      exactly when no segment of the text stands still, and always for ASCII whitespace. */
  method EncodeDecode(vocab: VocabTable, merges: MergeTable, form: array<Bytes>, uni: VocabTable, idBytes: array<Option<Bytes>>,
                      ghost lines: seq<Bytes>, added: seq<Added>, cls: Classes, s: Bytes, cap: nat)
    returns (r: Outcome, out: array<int>, p: nat)
    requires DistinctIds(vocab.entries) && AddedOk(added, vocab.entries) && AreBytes(s)
    requires MapsOk(vocab, merges, form, Tokenizer.Load(vocab.entries, lines, added))
    requires Decoder.KeysOk(idBytes, Tokenizer.Load(vocab.entries, lines, added)) && uni.Valid() && UniOk(uni.entries)
    ensures p < out.Length
    ensures r.Done? ==> r.n <= cap && out[..p] == s && out[p] == 0
    ensures var v := Tokenizer.Load(vocab.entries, lines, added);
            AllForms(v) && |s| <= cap ==>
              (r.Done? <==> AllMove(Cuts(v, cls, s, 0, 0))) && (r.Endless? <==> !AllMove(Cuts(v, cls, s, 0, 0)))
              && (AsciiSpaces(cls, s) ==> r.Done?)
  {
    ghost var v := Tokenizer.Load(vocab.entries, lines, added);
    Outcomes(v, cls, s, cap);
    RoundTrip(vocab.entries, lines, added, cls, s, cap);
    var ids := new int[cap](_ => 0);
    r := EncodeText(vocab, merges, form, added, v, cls, s, ids);
    if r.Done? {
      out, p := Decoder.DecodeIds(uni, idBytes, v, ids[..r.n]);
    } else {
      out, p := new int[1](_ => 0), 0;
    }
  }

  lemma Outcomes(v: Vocab, cls: Classes, s: Bytes, cap: nat)
    requires AreBytes(s)
    ensures AllForms(v) && |s| <= cap ==>
              (Encode(v, cls, s, cap).Ids? <==> AllMove(Cuts(v, cls, s, 0, 0)))
              && (Encode(v, cls, s, cap).Diverges? <==> !AllMove(Cuts(v, cls, s, 0, 0)))
              && (AsciiSpaces(cls, s) ==> Encode(v, cls, s, cap).Ids?)
  {
    if AllForms(v) && |s| <= cap {
      TextEncodesExactly(v, cls, s, cap);
      if AsciiSpaces(cls, s) {
        EncodeSucceeds(v, cls, s, cap);
      }
    }
  }

  /** From a vocabulary to a decoded text: the tables are built, the text is encoded and decoded. */
  method LoadEncodeDecode(vocab: VocabTable, lines: seq<Bytes>, added: seq<Added>, maxId: int, pairHash: Pair -> nat,
                          cls: Classes, s: Bytes, cap: nat)
    returns (r: Outcome, out: array<int>, p: nat)
    requires vocab.Valid() && DistinctIds(vocab.entries) && AddedOk(added, vocab.entries) && AreBytes(s) && maxId >= -1
    requires forall k :: k in vocab.entries ==> vocab.entries[k] <= maxId
    requires forall i :: 0 <= i < |added| ==> added[i].id <= maxId
    ensures p < out.Length
    ensures r.Done? ==> r.n <= cap && out[..p] == s && out[p] == 0
    ensures var v := Tokenizer.Load(vocab.entries, lines, added);
            AllForms(v) && |s| <= cap ==>
              (r.Done? <==> AllMove(Cuts(v, cls, s, 0, 0))) && (r.Endless? <==> !AllMove(Cuts(v, cls, s, 0, 0)))
              && (AsciiSpaces(cls, s) ==> r.Done?)
  {
    var merges, form, uni, idBytes := BuildTables(vocab, lines, added, maxId, pairHash);
    r, out, p := EncodeDecode(vocab, merges, form, uni, idBytes, lines, added, cls, s, cap);
  }
}
