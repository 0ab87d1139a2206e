/** The loop of read_rows_impl in c/src/reader.c that reads the block of one run: every read goes to the
    start of the block, so the block is right exactly when one read fills it. */
module ReaderBlock {
  import opened Options
  import opened RowIo

  function Sum(counts: seq<nat>): nat {
    if counts == [] then 0 else Sum(counts[..|counts| - 1]) + counts[|counts| - 1]
  }

  /** Reads of these lengths, none empty, that come to the length of the block. */
  ghost predicate Fills(counts: seq<nat>, length: nat) {
    (forall i :: 0 <= i < |counts| ==> counts[i] > 0) && Sum(counts) == length
  }

  /** The block after reads of these lengths, each written over its start. */
  function Overwritten(block: seq<int>, file: seq<int>, offset: nat, counts: seq<nat>): (r: seq<int>)
    requires Sum(counts) <= |block| && offset + Sum(counts) <= |file|
    ensures |r| == |block|
  {
    if counts == [] then block
    else
      var before, n := counts[..|counts| - 1], counts[|counts| - 1];
      var at := offset + Sum(before);
      file[at..at + n] + Overwritten(block, file, offset, before)[n..]
  }

  /** The reads fill every block of this length with the bytes of every file. */
  ghost predicate AlwaysRight(offset: nat, length: nat, counts: seq<nat>)
    requires Sum(counts) == length
  {
    forall file: seq<int>, block: seq<int> :: offset + length <= |file| && |block| == length ==>
      Overwritten(block, file, offset, counts) == file[offset..offset + length]
  }

  lemma {:induction false} SumGrows(counts: seq<nat>)
    requires (forall i :: 0 <= i < |counts| ==> counts[i] > 0) && counts != []
    ensures Sum(counts) > 0
  {
  }

  /** A file of zeros and ones of which only the byte at offset is zero. */
  function Marked(offset: nat, length: nat): (file: seq<int>)
    ensures |file| == offset + length
  {
    seq(offset + length, i => if i == offset then 0 else 1)
  }

  /** Reads that come to the length of the block fill it as they should, whatever the file, exactly when
      there is one of them. */
  lemma RightExactly(offset: nat, length: nat, counts: seq<nat>)
    requires length > 0 && Fills(counts, length)
    ensures AlwaysRight(offset, length, counts) <==> |counts| == 1
  {
    var before, n := counts[..|counts| - 1], counts[|counts| - 1];
    if |counts| == 1 {
      assert before == [] && Sum(before) == 0;
      forall file: seq<int>, block: seq<int> | offset + length <= |file| && |block| == length
        ensures Overwritten(block, file, offset, counts) == file[offset..offset + length]
      {
        assert Overwritten(block, file, offset, counts) == file[offset..offset + n] + block[n..];
      }
    } else {
      SumGrows(before);
      var file, block := Marked(offset, length), Marked(0, length);
      var r := Overwritten(block, file, offset, counts);
      assert r[0] == file[offset + Sum(before)] == 1;
      assert file[offset..offset + length][0] == 0;
      assert r != file[offset..offset + length];
    }
  }

  /** A run of two bytes read one at a time: the second byte lands on the first. */
  lemma SecondReadOverwrites()
    ensures Overwritten([0, 0], [7, 8], 0, [1, 1]) == [8, 0] != [7, 8]
  {
    assert [1, 1][..1] == [1] && [1][..0] == [];
    assert Sum([1]) == Sum([]) + 1 && Sum([1, 1]) == Sum([1]) + 1;
    assert Overwritten([0, 0], [7, 8], 0, []) == [0, 0];
    assert Overwritten([0, 0], [7, 8], 0, [1]) == [7, 8][0..1] + [0, 0][1..] == [7, 0];
    assert Overwritten([0, 0], [7, 8], 0, [1, 1]) == [7, 8][1..2] + [7, 0][1..];
  }

  lemma OneMore(counts: seq<nat>, n: nat)
    ensures Sum(counts + [n]) == Sum(counts) + n
  {
    assert (counts + [n])[..|counts|] == counts;
  }

  /** One transfer of n bytes to the start of the block. */
  lemma Transferred(block: seq<int>, file: seq<int>, offset: nat, counts: seq<nat>, n: nat, after: seq<int>)
    requires Sum(counts) + n <= |block| && offset + Sum(counts) + n <= |file| && |after| == |block|
    requires forall i :: 0 <= i < |block| ==>
               after[i] == if i < n then file[offset + Sum(counts) + i] else Overwritten(block, file, offset, counts)[i]
    ensures Sum(counts + [n]) == Sum(counts) + n && after == Overwritten(block, file, offset, counts + [n])
  {
    OneMore(counts, n);
    assert (counts + [n])[..|counts|] == counts;
  }

  /** The loop: the errno, if any, and the lengths of the reads that transferred something. */
  method ReadBlock(disk: Disk, block: array<int>, offset: nat) returns (failure: Option<int>, calls: nat, ghost counts: seq<nat>)
    requires block.Length > 0
    modifies disk`script, block
    ensures calls == |counts|
    ensures failure.None? ==> Fills(counts, block.Length) && offset + block.Length <= |disk.file|
                              && block[..] == Overwritten(old(block[..]), disk.file, offset, counts)
    ensures failure.None? && calls == 1 ==> block[..] == disk.file[offset..offset + block.Length]
    ensures old(disk.script) == [] && offset + block.Length <= |disk.file| ==> failure.None? && calls == 1
  {
    calls, counts := 0, [];
    ghost var was := block[..];
    var off: nat := 0;
    while off < block.Length
      invariant calls == |counts| && off == Sum(counts) <= block.Length && forall i :: 0 <= i < |counts| ==> counts[i] > 0
      invariant off > 0 ==> offset + off <= |disk.file|
      invariant if off == 0 then counts == [] && block[..] == was else block[..] == Overwritten(was, disk.file, offset, counts)
      invariant old(disk.script) == [] ==> disk.script == []
      invariant old(disk.script) == [] && offset + block.Length <= |disk.file| ==>
                  (off == 0 && calls == 0) || (off == block.Length && calls == 1)
      decreases |disk.script|, block.Length - off
    {
      ghost var before := block[..];
      var r := disk.Pread(block, 0, block.Length - off, offset + off);
      if r.Error? {
        if r.errno == EINTR {
          continue;
        }
        return Some(r.errno), calls, counts;
      }
      if r.n == 0 {
        return Some(EIO), calls, counts;
      }
      assert off == 0 ==> counts == [] && offset + Sum(counts) <= |disk.file|;
      Transferred(was, disk.file, offset, counts, r.n, block[..]);
      SumGrows(counts + [r.n]);
      off, calls, counts := off + r.n, calls + 1, counts + [r.n];
    }
    failure := None;
    if calls == 1 {
      RightOnce(was, disk.file, offset, counts);
    }
  }

  lemma RightOnce(block: seq<int>, file: seq<int>, offset: nat, counts: seq<nat>)
    requires |block| > 0 && Fills(counts, |block|) && |counts| == 1 && offset + |block| <= |file|
    ensures Overwritten(block, file, offset, counts) == file[offset..offset + |block|]
  {
    RightExactly(offset, |block|, counts);
  }
}
