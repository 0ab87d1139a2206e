/** The loops of tokenizer_decode in c/src/tokenizer.c, proved against module Tokenizer. */
module TokenizerDecode {
  import opened Options
  import opened ByteForms
  import opened Tokenizer
  import ProbeTable

  type VocabTable = ProbeTable.Table<Bytes, int>

  // ----- tokenizer_decode

  /** The length of the keys of the first n ids. */
  ghost function KeyLength(v: Vocab, ids: seq<int>, n: nat): nat
    requires n <= |ids|
  {
    if n == 0 then 0
    else KeyLength(v, ids, n - 1) + if ids[n - 1] in v.bytesOf then |v.bytesOf[ids[n - 1]]| else 0
  }

  lemma {:induction false} KeyLengthGrows(v: Vocab, ids: seq<int>, n: nat)
    requires n <= |ids|
    ensures KeyLength(v, ids, n) <= KeyLength(v, ids, |ids|)
    decreases |ids| - n
  {
    if n == |ids| {
    } else {
      KeyLengthGrows(v, ids, n + 1);
    }
  }

  lemma DecodeNext(v: Vocab, ids: seq<int>, i: nat)
    requires i < |ids|
    ensures Decode(v, ids[..i + 1]) ==
              Decode(v, ids[..i]) + if ids[i] in v.bytesOf then Read(v.bytesOf[ids[i]]) else []
  {
    assert ids[..i + 1] == ids[..i] + [ids[i]];
    DecodeConcat(v, ids[..i], [ids[i]]);
    assert Decode(v, [ids[i]]) == (if ids[i] in v.bytesOf then Read(v.bytesOf[ids[i]]) else []) + [];
  }

  /** Reading a key comes to the bytes read so far and the reading of what is left at j. */
  ghost predicate Reading(whole: Bytes, done: Bytes, b: Bytes, j: nat) {
    j <= |b| && whole == done + Read(b[j..])
  }

  lemma ReadStep(whole: Bytes, done: Bytes, b: Bytes, j: nat, fl: nat)
    requires j < |b| && fl == (if b[j] < 0x80 || |b| - j < 2 then 1 else 2) && Reading(whole, done, b, j)
    ensures j + fl <= |b|
    ensures var raw := ByteOf(b[j..j + fl]);
            Reading(whole, done + [if raw.Some? then raw.value else b[j]], b, j + fl)
  {
    var key, raw := b[j..], ByteOf(b[j..j + fl]);
    assert key[..fl] == b[j..j + fl] && key[fl..] == b[j + fl..];
    assert Read(key) == [if raw.Some? then raw.value else b[j]] + Read(b[j + fl..]);
  }

  lemma ReadEnds(whole: Bytes, done: Bytes, b: Bytes)
    requires Reading(whole, done, b, |b|)
    ensures whole == done
  {
  }

  /** The id table holds the keys of the vocabulary. */
  ghost predicate KeysOk(idBytes: array<Option<Bytes>>, v: Vocab)
    reads idBytes
  {
    && (forall id :: 0 <= id < idBytes.Length ==> idBytes[id] == Lookup(v.bytesOf, id))
    && forall id :: id in v.bytesOf ==> 0 <= id < idBytes.Length
  }

  /** The first loop of tokenizer_decode: how many bytes the keys have together. */
  method KeyBytes(idBytes: array<Option<Bytes>>, ghost v: Vocab, ids: seq<int>) returns (total: nat)
    requires KeysOk(idBytes, v)
    ensures total == KeyLength(v, ids, |ids|)
  {
    total := 0;
    for i := 0 to |ids|
      invariant KeysOk(idBytes, v) && total == KeyLength(v, ids, i)
    {
      if ids[i] >= 0 && ids[i] < idBytes.Length && idBytes[ids[i]].Some? {
        total := total + |idBytes[ids[i]].value|;
      }
    }
  }

  /** One round of the inner loop of tokenizer_decode: the form at j is read into out[p]. */
  method ReadForm(uni: VocabTable, b: Bytes, j: nat, out: array<int>, p: nat, ghost whole: Bytes) returns (fl: nat)
    requires uni.Valid() && UniOk(uni.entries) && j < |b| && p < out.Length
    requires Reading(whole, out[..p], b, j)
    modifies out
    ensures fl > 0 && Reading(whole, out[..p + 1], b, j + fl)
  {
    fl := if b[j] < 0x80 then 1 else 2;
    if j + fl > |b| {
      fl := 1;
    }
    ReadStep(whole, out[..p], b, j, fl);
    var raw := uni.Find(b[j..j + fl]);
    ghost var done := out[..p];
    out[p] := if raw.Some? then raw.value else b[j];
    assert out[..p + 1] == done + [out[p]];
  }

  /** The inner loop of tokenizer_decode: one key is read into out[at..]. */
  method ReadKey(uni: VocabTable, b: Bytes, out: array<int>, at: nat) returns (p: nat)
    requires uni.Valid() && UniOk(uni.entries) && at + |b| < out.Length
    modifies out
    ensures p <= at + |b| && out[..p] == old(out[..at]) + Read(b)
  {
    p := at;
    var j := 0;
    ghost var whole := out[..at] + Read(b);
    assert b[0..] == b;
    while j < |b|
      invariant uni.Valid() && UniOk(uni.entries)
      invariant j <= |b| && p <= at + j && Reading(whole, out[..p], b, j)
    {
      var fl := ReadForm(uni, b, j, out, p, whole);
      p, j := p + 1, j + fl;
    }
    ReadEnds(whole, out[..p], b);
  }

  /** One round of the last loop of tokenizer_decode. */
  method DecodeId(uni: VocabTable, idBytes: array<Option<Bytes>>, ghost v: Vocab, id: int, out: array<int>, at: nat)
    returns (p: nat)
    requires KeysOk(idBytes, v) && uni.Valid() && UniOk(uni.entries)
    requires at + (if id in v.bytesOf then |v.bytesOf[id]| else 0) < out.Length
    modifies out
    ensures p <= at + (if id in v.bytesOf then |v.bytesOf[id]| else 0)
    ensures out[..p] == old(out[..at]) + if id in v.bytesOf then Read(v.bytesOf[id]) else []
  {
    if id < 0 || id >= idBytes.Length || idBytes[id].None? {
      return at;
    }
    p := ReadKey(uni, idBytes[id].value, out, at);
  }

  method DecodeNextId(uni: VocabTable, idBytes: array<Option<Bytes>>, ghost v: Vocab, ids: seq<int>, i: nat, out: array<int>,
                      at: nat) returns (p: nat)
    requires KeysOk(idBytes, v) && uni.Valid() && UniOk(uni.entries) && i < |ids|
    requires at <= KeyLength(v, ids, i) && at < out.Length == KeyLength(v, ids, |ids|) + 1 && out[..at] == Decode(v, ids[..i])
    modifies out
    ensures p <= KeyLength(v, ids, i + 1) && p < out.Length && out[..p] == Decode(v, ids[..i + 1])
  {
    DecodeNext(v, ids, i);
    KeyLengthGrows(v, ids, i + 1);
    p := DecodeId(uni, idBytes, v, ids[i], out, at);
  }

  /** `tokenizer_decode`: the bytes before out[p] are the text, and a NUL follows. */
  method DecodeIds(uni: VocabTable, idBytes: array<Option<Bytes>>, ghost v: Vocab, ids: seq<int>)
    returns (out: array<int>, p: nat)
    requires KeysOk(idBytes, v) && uni.Valid() && UniOk(uni.entries)
    ensures fresh(out) && p < out.Length && out[..p] == Decode(v, ids) && out[p] == 0
  {
    var total := KeyBytes(idBytes, v, ids);
    out := new int[total + 1](_ => 0);
    p := 0;
    for i := 0 to |ids|
      invariant KeysOk(idBytes, v) && uni.Valid() && UniOk(uni.entries)
      invariant p <= KeyLength(v, ids, i) && p < out.Length == KeyLength(v, ids, |ids|) + 1
      invariant out[..p] == Decode(v, ids[..i])
    {
      p := DecodeNextId(uni, idBytes, v, ids, i, out, p);
    }
    assert ids[..|ids|] == ids;
    ghost var text := out[..p];
    out[p] := 0;
    assert out[..p] == text;
  }
}
