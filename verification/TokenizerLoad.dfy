/** The loops of tokenizer_load in c/src/tokenizer.c that build the merge and id tables. */
module TokenizerLoad {
  import opened Options
  import opened ByteForms
  import opened Bpe
  import opened Tokenizer
  import MergeRanks
  import ProbeTable

  type VocabTable = ProbeTable.Table<Bytes, int>
  type MergeTable = ProbeTable.Table<Pair, Merge>

  // ----- loading

  /** The scan for the last space of a merge line. */
  method FindLastSpace(line: Bytes) returns (sp: int)
    ensures sp == if LastSpace(line, |line|) == |line| then -1 else LastSpace(line, |line|)
  {
    sp := -1;
    for i := 0 to |line|
      invariant sp == if LastSpace(line, i) == |line| then -1 else LastSpace(line, i)
    {
      if line[i] == SPACE {
        sp := i;
      }
    }
  }

  /** One round of the merges loop: the line at rank is entered. */
  method AddMerge(vocab: VocabTable, merges: MergeTable, lines: seq<Bytes>, rank: nat)
    requires vocab.Valid() && merges.Valid() && merges.slots.Length >= 4 && rank < |lines|
    requires merges.entries == MergesBelow(vocab.entries, lines, rank)
    modifies merges, merges.slots
    ensures merges.Valid() && merges.slots.Length >= 4 && (merges.slots == old(merges.slots) || fresh(merges.slots))
    ensures merges.entries == old(MergesBelow(vocab.entries, lines, rank + 1))
  {
    var line := lines[rank];
    var sp := FindLastSpace(line);
    if sp > 0 && sp + 1 < |line| {
      var a := vocab.Find(line[..sp]);
      var b := vocab.Find(line[sp + 1..]);
      if a.Some? && b.Some? && a.value >= 0 && b.value >= 0 {
        var merged := vocab.Find(line[..sp] + line[sp + 1..]);
        merges.Put((a.value, b.value), Merge(rank, if merged.Some? then merged.value else -1));
      }
    }
  }

  /** The merges loop of tokenizer_load. */
  method LoadMerges(vocab: VocabTable, merges: MergeTable, lines: seq<Bytes>)
    requires vocab.Valid() && merges.Valid() && merges.entries == map[] && merges.slots.Length >= 4
    modifies merges, merges.slots
    ensures vocab.Valid() && merges.Valid() && merges.entries == MergesBelow(vocab.entries, lines, |lines|)
    ensures MergeRanks.RanksArePlaces(vocab.entries, lines, merges.entries)
  {
    for rank := 0 to |lines|
      invariant vocab.Valid() && vocab.entries == old(vocab.entries)
      invariant merges.Valid() && merges.slots.Length >= 4 && (merges.slots == old(merges.slots) || fresh(merges.slots))
      invariant merges.entries == MergesBelow(vocab.entries, lines, rank)
    {
      AddMerge(vocab, merges, lines, rank);
    }
    MergeRanks.LoadedRanks(vocab.entries, lines);
  }

  /** The loop that fills the id table from the vocabulary slots; it overwrites nothing as long as
      ids are distinct. */
  method FillKeys(vocab: VocabTable, table: array<Option<Bytes>>)
    requires vocab.Valid() && DistinctIds(vocab.entries)
    requires forall k :: k in vocab.entries ==> vocab.entries[k] < table.Length
    requires forall id :: 0 <= id < table.Length ==> table[id].None?
    modifies table
    ensures forall id :: 0 <= id < table.Length ==> table[id] == Lookup(IdTable(vocab.entries, [], 0), id)
  {
    ghost var ids := vocab.entries;
    ghost var slots := vocab.slots[..];
    for i := 0 to vocab.slots.Length
      invariant vocab.slots[..] == slots
      invariant forall id :: 0 <= id < table.Length && table[id].Some? ==> table[id].value in ids && ids[table[id].value] == id
      invariant forall j :: 0 <= j < i && slots[j].Used? ==> table[slots[j].value] == Some(slots[j].key)
    {
      var s := vocab.slots[i];
      if s.Used? && s.value >= 0 && s.value < table.Length {
        table[s.value] := Some(s.key);
      }
    }
    forall id | 0 <= id < table.Length ensures table[id] == Lookup(IdTable(ids, [], 0), id) {
      if id in IdTable(ids, [], 0) {
        var key :| key in ids && ids[key] == id;
        assert ProbeTable.Holds(slots, key, ids[key]);
      }
    }
  }

  /** The loop that adds the added tokens to the id table. */
  method FillAdded(ghost ids: map<Bytes, int>, added: seq<Added>, table: array<Option<Bytes>>)
    requires DistinctIds(ids) && forall i :: 0 <= i < |added| ==> added[i].id < table.Length
    requires forall id :: 0 <= id < table.Length ==> table[id] == Lookup(IdTable(ids, [], 0), id)
    modifies table
    ensures forall id :: 0 <= id < table.Length ==> table[id] == Lookup(IdTable(ids, added, |added|), id)
  {
    assert IdTable(ids, added, 0) == IdTable(ids, [], 0);
    for i := 0 to |added|
      invariant forall id :: 0 <= id < table.Length ==> table[id] == Lookup(IdTable(ids, added, i), id)
    {
      var id := added[i].id;
      if id >= 0 && id < table.Length {
        table[id] := Some(added[i].bytes);
      }
    }
  }
}
