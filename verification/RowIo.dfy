/** native/rowio.c: reading rows through sorted, coalesced runs, with short and interrupted reads.
    The output holds the requested rows in request order. */
module RowIo {
  import opened Arithmetic
  import opened Options
  import opened RowRequests

  const UINT64_MAX := 0xFFFF_FFFF_FFFF_FFFF
  const SIZE_MAX := UINT64_MAX
  const LLONG_MAX := 0x7FFF_FFFF_FFFF_FFFF
  const SSIZE_MAX := LLONG_MAX

  const EINTR := 4
  const EIO := 5
  const EOVERFLOW := 75

  // ----- rows as slices

  /** Row k of a buffer of rows of rb bytes. */
  function RowOf(s: seq<int>, k: nat, rb: nat): (r: seq<int>)
    requires Times(k, rb) + rb <= |s|
    ensures |r| == rb
  {
    s[Times(k, rb)..Times(k, rb) + rb]
  }

  /** The bytes of a row in the file lie before its end. */
  predicate InFile(file: seq<int>, base: nat, rb: nat, row: nat) {
    rb > 0 ==> base + Times(row, rb) + rb <= |file|
  }

  /** The naive read of one row. */
  function RowAt(file: seq<int>, base: nat, rb: nat, row: nat): (r: seq<int>)
    requires InFile(file, base, rb, row)
    ensures |r| == rb
  {
    if rb == 0 then [] else file[base + Times(row, rb)..base + Times(row, rb) + rb]
  }

  /** The naive read: row by row, in request order. */
  function Naive(file: seq<int>, base: nat, rb: nat, rows: seq<nat>, n: nat): seq<int>
    requires n <= |rows| && forall i :: 0 <= i < n ==> InFile(file, base, rb, rows[i])
  {
    if n == 0 then [] else Naive(file, base, rb, rows, n - 1) + RowAt(file, base, rb, rows[n - 1])
  }

  lemma MulGrows(a: nat, b: nat, c: nat)
    requires a <= b
    ensures a * c <= b * c
  {
    assert b * c == a * c + (b - a) * c;
  }

  lemma Adjacent(s: seq<int>, i: nat, j: nat)
    requires i <= j <= |s|
    ensures s[..j] == s[..i] + s[i..j]
  {
  }

  /** A buffer that holds the rows slot by slot is the naive read. */
  lemma {:induction false} SlotsAreNaive(out: seq<int>, file: seq<int>, base: nat, rb: nat, rows: seq<nat>, n: nat)
    requires n <= |rows| && |out| == Times(|rows|, rb) && forall i :: 0 <= i < |rows| ==> InFile(file, base, rb, rows[i])
    requires forall i :: 0 <= i < |rows| ==> SlotIs(out, i, file, base, rb, rows[i])
    ensures Times(n, rb) <= |out| && out[..Times(n, rb)] == Naive(file, base, rb, rows, n)
  {
    TimesGrows(n, |rows|, rb);
    if n == 0 {
    } else {
      SlotsAreNaive(out, file, base, rb, rows, n - 1);
      assert SlotIs(out, n - 1, file, base, rb, rows[n - 1]);
      assert Times(n, rb) == Times(n - 1, rb) + rb;
      Adjacent(out, Times(n - 1, rb), Times(n, rb));
    }
  }

  /** Slot i of the output holds the row. */
  ghost predicate SlotIs(out: seq<int>, i: nat, file: seq<int>, base: nat, rb: nat, row: nat) {
    Times(i, rb) + rb <= |out| && InFile(file, base, rb, row) && RowOf(out, i, rb) == RowAt(file, base, rb, row)
  }

  /** Byte by byte: byte k of the i-th row comes from its place in the file. */
  ghost predicate BytesRead(data: seq<int>, file: seq<int>, base: nat, rb: nat, rows: seq<nat>) {
    |data| == |rows| * rb && forall i :: 0 <= i < |rows| ==> RowRead(data, i, file, base, rb, rows[i])
  }

  ghost predicate RowRead(data: seq<int>, i: nat, file: seq<int>, base: nat, rb: nat, row: nat) {
    rb > 0 ==> IsSlice(data, i * rb, file, base + row * rb, rb)
  }

  /** n elements from p on are those of t from q on. */
  ghost predicate IsSlice(s: seq<int>, p: int, t: seq<int>, q: int, n: nat) {
    0 <= p && p + n <= |s| && 0 <= q && q + n <= |t| && s[p..p + n] == t[q..q + n]
  }

  lemma SlotIsRead(data: seq<int>, i: nat, file: seq<int>, base: nat, rb: nat, row: nat)
    requires SlotIs(data, i, file, base, rb, row)
    ensures RowRead(data, i, file, base, rb, row)
  {
    Product(i, rb);
    Product(row, rb);
  }

  // ----- offsets

  /** `checked_offset`: None where it returns 0. */
  function CheckedOffset(base: nat, row: nat, rb: nat): Option<nat> {
    if row != 0 && rb > UINT64_MAX / row then None
    else
      var relative := row * rb;
      if base > UINT64_MAX - relative || base + relative > LLONG_MAX then None else Some(base + relative)
  }

  /** The offset is the exact sum, and it is refused exactly when it is no file offset: the checks
      keep the unsigned arithmetic from wrapping around. */
  lemma CheckedOffsetExactly(base: nat, row: nat, rb: nat)
    ensures CheckedOffset(base, row, rb) == if base + Times(row, rb) <= LLONG_MAX then Some(base + Times(row, rb)) else None
  {
    Product(row, rb);
    if row != 0 && rb > UINT64_MAX / row {
      QuotientBound(UINT64_MAX, row, rb);
    }
  }

  lemma QuotientBound(max: nat, a: nat, b: nat)
    requires a > 0
    ensures b > max / a <==> b * a > max
  {
    if b > max / a {
      MulGrows(max / a + 1, b, a);
    } else {
      MulGrows(b, max / a, a);
    }
  }

  // ----- the file

  /** What one pread does: EINTR, another error, or a short count. */
  datatype Event = Interrupted | Fails(errno: int) | Short(count: nat)

  datatype Transfer = Count(n: nat) | Error(errno: int)

  ghost predicate Clean(script: seq<Event>) {
    forall i :: 0 <= i < |script| ==> script[i].Fails? ==> script[i].errno == EINTR
  }

  /** A file and what its next reads do; once the script is used up reads are complete. */
  class Disk {
    const file: seq<int>
    var script: seq<Event>

    constructor (file: seq<int>, script: seq<Event>)
      ensures this.file == file && this.script == script
    {
      this.file, this.script := file, script;
    }

    /** pread of length bytes at a file offset to buffer[at..]. */
    method Pread(buffer: array<int>, at: nat, length: nat, offset: nat) returns (r: Transfer)
      requires length > 0 && at + length <= buffer.Length
      modifies this`script, buffer
      ensures script == if old(script) == [] then [] else old(script)[1..]
      ensures r.Error? ==> old(script) != [] && buffer[..] == old(buffer[..])
      ensures r.Error? ==> old(script)[0] == if old(script)[0].Interrupted? then Interrupted else Fails(r.errno)
      ensures r.Error? && old(script)[0].Interrupted? ==> r.errno == EINTR
      ensures r.Error? && Clean(old(script)) ==> r.errno == EINTR
      ensures r.Count? ==> r.n <= length && (r.n == 0 <==> offset >= |file|) && (r.n > 0 ==> offset + r.n <= |file|)
      ensures r.Count? && old(script) == [] && offset + length <= |file| ==> r.n == length
      ensures r.Count? ==> forall i :: 0 <= i < buffer.Length ==>
                buffer[i] == if at <= i < at + r.n then file[offset + (i - at)] else old(buffer[i])
    {
      var want := length;
      if script != [] {
        var event := script[0];
        script := script[1..];
        match event {
          case Interrupted => return Error(EINTR);
          case Fails(e) => return Error(e);
          case Short(count) => want := if count == 0 then 1 else if count < length then count else length;
        }
      }
      var n := if offset >= |file| then 0 else if want <= |file| - offset then want else |file| - offset;
      for i := 0 to n
        invariant script == if old(script) == [] then [] else old(script)[1..]
        invariant forall k :: 0 <= k < buffer.Length ==>
                    buffer[k] == if at <= k < at + i then file[offset + (k - at)] else old(buffer[k])
      {
        buffer[at + i] := file[offset + i];
      }
      return Count(n);
    }
  }

  /** Names an event: Left is used only at events named. */
  ghost predicate Seen(e: Event) {
    true
  }

  /** The script is what is left of another one. */
  ghost predicate Left(script: seq<Event>, before: seq<Event>) {
    forall e {:trigger Seen(e)} :: Seen(e) && e in script ==> e in before
  }

  lemma LeftTail(script: seq<Event>, before: seq<Event>)
    requires Left(script, before) && script != []
    ensures Left(script[1..], before)
  {
  }

  lemma LeftAgain(script: seq<Event>, middle: seq<Event>, before: seq<Event>)
    requires Left(script, middle) && Left(middle, before)
    ensures Left(script, before)
  {
  }

  /** Why length bytes at offset were not read: they reach beyond the largest file offset, or beyond the
      end of the file, or a read failed. */
  ghost predicate BlockFault(errno: int, script: seq<Event>, file: seq<int>, offset: nat, length: nat) {
    || (errno == EOVERFLOW && length > 0 && offset + length - 1 > LLONG_MAX)
    || (errno == EIO && length > 0 && offset + length - 1 <= LLONG_MAX && offset + length > |file|)
    || (errno != EINTR && Fails(errno) in script)
  }

  /** `read_fully`: the errno, if any, and how many calls transferred something. */
  method ReadFully(disk: Disk, buffer: array<int>, length: nat, offset: nat) returns (failure: Option<int>, calls: nat)
    requires length <= buffer.Length
    modifies disk`script, buffer
    ensures failure.None? && length > 0 ==> offset + length <= |disk.file| && buffer[..length] == disk.file[offset..offset + length]
    ensures Clean(old(disk.script)) ==> Clean(disk.script)
    ensures Left(disk.script, old(disk.script))
    ensures failure.Some? ==> BlockFault(failure.value, old(disk.script), disk.file, offset, length)
    ensures Clean(old(disk.script)) && offset + length <= |disk.file| <= LLONG_MAX ==> failure.None?
    ensures failure.None? ==> (if length > 0 then 1 else 0) <= calls <= length
    ensures failure.None? && length > 0 && old(disk.script) == [] ==> calls == 1 && disk.script == []
  {
    calls := 0;
    if length != 0 && offset > LLONG_MAX - (length - 1) {
      return Some(EOVERFLOW), 0;
    }
    var complete := 0;
    while complete < length
      invariant complete <= length && (if complete > 0 then 1 else 0) <= calls <= complete
      invariant complete > 0 ==> offset + complete <= |disk.file|
      invariant forall i :: 0 <= i < complete ==> buffer[i] == disk.file[offset + i]
      invariant Left(disk.script, old(disk.script))
      invariant Clean(old(disk.script)) ==> Clean(disk.script)
      invariant old(disk.script) == [] ==> disk.script == [] && (complete == 0 || complete == length || offset + length > |disk.file|)
      invariant complete == 0 ==> calls == 0
      invariant old(disk.script) == [] && offset + length <= |disk.file| && complete > 0 ==> calls == 1
      decreases |disk.script|, length - complete
    {
      if disk.script != [] {
        LeftTail(disk.script, old(disk.script));
        assert Seen(disk.script[0]);
      }
      var r := disk.Pread(buffer, complete, length - complete, offset + complete);
      if r.Error? {
        if r.errno == EINTR {
          continue;
        }
        return Some(r.errno), calls;
      }
      calls := calls + 1;
      if r.n == 0 {
        return Some(EIO), calls;
      }
      complete := complete + r.n;
    }
    return None, calls;
  }

  // ----- read_rows

  /** The output holds the rows of the first n requests. */
  ghost predicate Filled(out: seq<int>, a: seq<Request>, n: nat, file: seq<int>, base: nat, rb: nat) {
    n <= |a| && forall j :: 0 <= j < n ==> SlotIs(out, a[j].index, file, base, rb, a[j].row)
  }

  /** memcpy of n bytes. */
  method MemCopy(out: array<int>, dst: nat, block: array<int>, src: nat, n: nat)
    requires out != block && dst + n <= out.Length && src + n <= block.Length
    modifies out
    ensures forall k :: 0 <= k < out.Length ==> out[k] == if dst <= k < dst + n then block[src + (k - dst)] else old(out[k])
  {
    for i := 0 to n
      invariant forall k :: 0 <= k < out.Length ==> out[k] == if dst <= k < dst + i then block[src + (k - dst)] else old(out[k])
    {
      out[dst + i] := block[src + i];
    }
  }

  /** after is before with the bytes w at dst. */
  ghost predicate Patched(before: seq<int>, after: seq<int>, dst: nat, w: seq<int>) {
    && |before| == |after| && dst + |w| <= |after| && after[dst..dst + |w|] == w
    && forall k :: 0 <= k < |after| && !(dst <= k < dst + |w|) ==> after[k] == before[k]
  }

  lemma SliceStays(before: seq<int>, after: seq<int>, dst: nat, w: seq<int>, lo: nat, hi: nat)
    requires Patched(before, after, dst, w) && lo <= hi <= |after| && (hi <= dst || dst + |w| <= lo)
    ensures after[lo..hi] == before[lo..hi]
  {
  }

  /** Writing one slot leaves the others. */
  lemma OtherSlotStays(before: seq<int>, after: seq<int>, index: nat, w: seq<int>, i: nat, rb: nat, file: seq<int>, base: nat,
                       row: nat)
    requires |w| == rb && Patched(before, after, Times(index, rb), w) && i != index && SlotIs(before, i, file, base, rb, row)
    ensures SlotIs(after, i, file, base, rb, row)
  {
    if i < index {
      RowsApart(i, index, rb);
    } else {
      RowsApart(index, i, rb);
    }
    SliceStays(before, after, Times(index, rb), w, Times(i, rb), Times(i, rb) + rb);
  }

  /** Row row of the file is row row - first of a block read from row first on. */
  lemma RowInBlock(file: seq<int>, base: nat, rb: nat, first: nat, rows: nat, row: nat, block: seq<int>)
    requires first <= row < first + rows && Holds(block, file, base, rb, first, rows)
    ensures Times(row - first, rb) + rb <= |block| && InFile(file, base, rb, row)
    ensures RowOf(block, row - first, rb) == RowAt(file, base, rb, row)
  {
    var d := row - first;
    RowsApart(d, rows, rb);
    TimesAdds(first, d, rb);
    if rb > 0 {
      forall k | 0 <= k < rb ensures RowOf(block, d, rb)[k] == RowAt(file, base, rb, row)[k] {
        assert block[..Times(rows, rb)][Times(d, rb) + k] == block[Times(d, rb) + k];
      }
    }
  }

  /** One round of the last loop of a run: request i gets its row from the block. */
  method PlaceRow(a: seq<Request>, i: nat, delta: nat, rb: nat, block: array<int>, out: array<int>,
                  ghost rows: seq<nat>, ghost file: seq<int>, ghost base: nat)
    requires Serves(a, rows) && i < |a| && out != block && out.Length == Times(|a|, rb)
    requires Filled(out[..], a, i, file, base, rb)
    requires Times(delta, rb) + rb <= block.Length && InFile(file, base, rb, a[i].row)
    requires RowOf(block[..], delta, rb) == RowAt(file, base, rb, a[i].row)
    modifies out
    ensures Filled(out[..], a, i + 1, file, base, rb)
  {
    RowsApart(a[i].index, |a|, rb);
    Product(a[i].index, rb);
    Product(delta, rb);
    ghost var before, w, dst := out[..], RowOf(block[..], delta, rb), Times(a[i].index, rb);
    MemCopy(out, a[i].index * rb, block, delta * rb, rb);
    assert out[..][dst..dst + rb] == w;
    forall j | 0 <= j < i ensures SlotIs(out[..], a[j].index, file, base, rb, a[j].row) {
      OtherSlotStays(before, out[..], a[i].index, w, a[j].index, rb, file, base, a[j].row);
    }
  }

  /** The block holds the rows of the file from first on. */
  ghost predicate Holds(block: seq<int>, file: seq<int>, base: nat, rb: nat, first: nat, rows: nat) {
    && Times(rows, rb) <= |block|
    && (rb > 0 ==> base + Times(first, rb) + Times(rows, rb) <= |file|
                   && block[..Times(rows, rb)] == file[base + Times(first, rb)..base + Times(first, rb) + Times(rows, rb)])
  }

  /** The last loop of a run: every request of a[start..end] gets its row from the block. */
  method Scatter(a: seq<Request>, start: nat, end: nat, rb: nat, block: array<int>, out: array<int>,
                 ghost rows: seq<nat>, ghost file: seq<int>, ghost base: nat)
    requires Serves(a, rows) && Run(a, start, end) && out != block && out.Length == Times(|a|, rb)
    requires Filled(out[..], a, start, file, base, rb)
    requires Holds(block[..], file, base, rb, a[start].row, Unique(a, start, end))
    modifies out
    ensures Filled(out[..], a, end, file, base, rb)
  {
    for i := start to end
      invariant block[..] == old(block[..]) && Filled(out[..], a, i, file, base, rb)
    {
      InRun(a, start, end, i);
      RowInBlock(file, base, rb, a[start].row, Unique(a, start, end), a[i].row, block[..]);
      PlaceRow(a, i, a[i].row - a[start].row, rb, block, out, rows, file, base);
    }
  }

  method FindRunEnd(a: seq<Request>, start: nat) returns (end: nat)
    requires start < |a|
    ensures end == RunEnd(a, start + 1) && Run(a, start, end) && (end < |a| ==> !Joined(a, end))
  {
    end := start + 1;
    while end < |a| && (a[end].row == a[end - 1].row || a[end].row == a[end - 1].row + 1)
      invariant start < end <= |a| && RunEnd(a, end) == RunEnd(a, start + 1) && Run(a, start, end)
    {
      end := end + 1;
    }
  }

  method CountUnique(a: seq<Request>, start: nat, end: nat) returns (n: nat)
    requires start < end <= |a|
    ensures n == Unique(a, start, end)
  {
    n := 1;
    for i := start + 1 to end
      invariant n == Unique(a, start, i)
    {
      if a[i].row != a[i - 1].row {
        n := n + 1;
      }
    }
  }

  lemma {:induction false} UniqueAtMost(a: seq<Request>, start: nat, e: nat)
    requires start < e <= |a|
    ensures Unique(a, start, e) <= e - start
  {
    if e > start + 1 {
      UniqueAtMost(a, start, e - 1);
    }
  }

  lemma {:induction false} InsideIsNoStart(a: seq<Request>, e: nat)
    requires 0 < e <= |a|
    ensures forall k :: e <= k < RunEnd(a, e) ==> Joined(a, k)
    decreases |a| - e
  {
    if e < |a| && Joined(a, e) {
      InsideIsNoStart(a, e + 1);
    }
  }

  /** If a run starts at k, a block of the given size can hold it. */
  ghost predicate BlockFits(a: seq<Request>, k: nat, rb: nat, size: nat)
    requires k < |a|
  {
    IsStart(a, k) ==> Times(Unique(a, k, RunEnd(a, k + 1)), rb) <= size
  }

  /** No block is too large for a size_t: the whole output is not. */
  lemma BlockIsSmall(count: nat, unique: nat, rb: nat)
    requires 0 < unique <= count && rb <= SSIZE_MAX / count
    ensures rb == 0 || unique <= SIZE_MAX / rb
    ensures unique * rb == Times(unique, rb) <= SSIZE_MAX
  {
    Product(unique, rb);
    QuotientBound(SSIZE_MAX, count, rb);
    MulGrows(unique, count, rb);
    if rb > 0 {
      QuotientBound(SIZE_MAX, rb, unique);
    }
  }

  /** The first pass: the size of the largest block, so that every run fits it. */
  method MaxBlock(a: seq<Request>, rb: nat) returns (size: nat)
    requires a != [] ==> rb <= SSIZE_MAX / |a|
    ensures size <= SSIZE_MAX && forall k :: 0 <= k < |a| ==> BlockFits(a, k, rb, size)
  {
    size := 0;
    var start := 0;
    while start < |a|
      invariant start <= |a| && size <= SSIZE_MAX
      invariant forall k :: 0 <= k < start ==> BlockFits(a, k, rb, size)
    {
      var end := FindRunEnd(a, start);
      var unique := CountUnique(a, start, end);
      UniqueAtMost(a, start, end);
      BlockIsSmall(|a|, unique, rb);
      InsideIsNoStart(a, start + 1);
      // the overflow check of the source cannot fail
      if rb != 0 && unique > SIZE_MAX / rb {
        assert false;
      }
      var blockSize := unique * rb;
      ghost var before := size;
      if blockSize > size {
        size := blockSize;
      }
      forall k | 0 <= k < end ensures BlockFits(a, k, rb, size) {
        assert k < start ==> BlockFits(a, k, rb, before);
      }
      start := end;
    }
  }

  /** The row can be read whole: its offset is a file offset and its bytes are in the file. */
  predicate Readable(file: seq<int>, base: nat, rb: nat, row: nat) {
    base + Times(row, rb) <= LLONG_MAX && InFile(file, base, rb, row)
  }

  /** The last byte of the row, or the row itself when it is empty, is beyond the largest file offset. */
  predicate TooFar(base: nat, rb: nat, row: nat) {
    base + Times(row, rb) + (if rb > 0 then rb - 1 else 0) > LLONG_MAX
  }

  /** Why a call failed, and on which row: it is too far, or it is not in the file, or a read failed. */
  ghost predicate RowFails(errno: int, script: seq<Event>, file: seq<int>, base: nat, rb: nat, row: nat) {
    || (errno == EOVERFLOW && TooFar(base, rb, row))
    || (errno == EIO && !TooFar(base, rb, row) && rb > 0 && base + Times(row, rb) + rb > |file|)
    || (errno != EINTR && Fails(errno) in script)
  }

  ghost predicate SomeRowFails(errno: int, script: seq<Event>, file: seq<int>, base: nat, rb: nat, a: seq<Request>) {
    exists j :: 0 <= j < |a| && RowFails(errno, script, file, base, rb, a[j].row)
  }

  lemma RunFails(errno: int, script: seq<Event>, before: seq<Event>, file: seq<int>, base: nat, rb: nat, a: seq<Request>, j: nat)
    requires j < |a| && Left(script, before) && RowFails(errno, script, file, base, rb, a[j].row)
    ensures SomeRowFails(errno, before, file, base, rb, a)
  {
    assert Seen(Fails(errno));
    assert RowFails(errno, before, file, base, rb, a[j].row);
  }

  lemma LastRowOfRun(a: seq<Request>, start: nat, end: nat, rb: nat)
    requires Run(a, start, end)
    ensures Times(a[end - 1].row, rb) + rb == Times(a[start].row, rb) + Times(Unique(a, start, end), rb)
  {
    RunSpan(a, start, end);
    TimesAdds(a[start].row, Unique(a, start, end), rb);
  }

  lemma InRunOffset(first: nat, row: nat, last: nat, rb: nat)
    requires first <= row <= last
    ensures Times(first, rb) <= Times(row, rb) <= Times(last, rb) && (rb == 0 ==> Times(row, rb) == Times(first, rb))
  {
    TimesGrows(first, row, rb);
    TimesGrows(row, last, rb);
    Product(row, rb);
    Product(first, rb);
  }

  /** All rows of a run can be read exactly when its block lies in the file. */
  lemma BlockReadable(a: seq<Request>, start: nat, end: nat, file: seq<int>, base: nat, rb: nat)
    requires Run(a, start, end) && |file| <= LLONG_MAX
    ensures var first, n := a[start].row, Unique(a, start, end);
            (forall j :: start <= j < end ==> Readable(file, base, rb, a[j].row)) <==>
            base + Times(first, rb) <= LLONG_MAX && (rb > 0 ==> base + Times(first, rb) + Times(n, rb) <= |file|)
  {
    var first, n := a[start].row, Unique(a, start, end);
    RunSpan(a, start, end);
    LastRowOfRun(a, start, end, rb);
    if base + Times(first, rb) <= LLONG_MAX && (rb > 0 ==> base + Times(first, rb) + Times(n, rb) <= |file|) {
      forall j | start <= j < end ensures Readable(file, base, rb, a[j].row) {
        InRun(a, start, end, j);
        InRunOffset(a[start].row, a[j].row, a[end - 1].row, rb);
      }
    } else {
      assert !Readable(file, base, rb, a[start].row) || !Readable(file, base, rb, a[end - 1].row);
    }
  }

  /** What the second pass has done when it reaches start. */
  ghost predicate Progress(a: seq<Request>, start: nat, file: seq<int>, base: nat, rb: nat, out: seq<int>, bytes: nat) {
    && start <= |a| && (start < |a| ==> IsStart(a, start))
    && Filled(out, a, start, file, base, rb)
    && (forall j :: 0 <= j < start ==> Readable(file, base, rb, a[j].row))
    && bytes == Times(Distinct(a, start), rb)
  }

  lemma BytesOfRun(a: seq<Request>, start: nat, end: nat, rb: nat)
    requires start < end <= |a| && IsStart(a, start)
    ensures Times(Distinct(a, end), rb) == Times(Distinct(a, start), rb) + Times(Unique(a, start, end), rb)
  {
    DistinctRun(a, start, end);
    TimesAdds(Distinct(a, start), Unique(a, start, end), rb);
  }

  lemma ProgressStep(a: seq<Request>, start: nat, end: nat, file: seq<int>, base: nat, rb: nat, before: seq<int>, was: nat,
                     after: seq<int>)
    requires Progress(a, start, file, base, rb, before, was) && start < |a| && Run(a, start, end)
    requires end < |a| ==> !Joined(a, end)
    requires Filled(after, a, end, file, base, rb) && forall j :: start <= j < end ==> Readable(file, base, rb, a[j].row)
    ensures Progress(a, end, file, base, rb, after, was + Times(Unique(a, start, end), rb))
  {
    BytesOfRun(a, start, end, rb);
  }

  /** Reading the block of one run. */
  method ReadBlock(disk: Disk, a: seq<Request>, start: nat, end: nat, base: nat, rb: nat, block: array<int>)
    returns (failure: Option<int>, calls: nat)
    requires Run(a, start, end) && Times(Unique(a, start, end), rb) <= block.Length && |disk.file| <= LLONG_MAX
    modifies disk`script, block
    ensures failure.None? ==> Holds(block[..], disk.file, base, rb, a[start].row, Unique(a, start, end))
    ensures failure.None? ==> forall j :: start <= j < end ==> Readable(disk.file, base, rb, a[j].row)
    ensures Left(disk.script, old(disk.script))
    ensures failure.Some? ==> RowFails(failure.value, old(disk.script), disk.file, base, rb, a[end - 1].row)
    ensures Clean(old(disk.script)) ==> Clean(disk.script)
    ensures Clean(old(disk.script)) && failure.Some? ==> exists j :: start <= j < end && !Readable(disk.file, base, rb, a[j].row)
    ensures failure.None? && rb == 0 ==> calls == 1
    ensures failure.None? && old(disk.script) == [] ==> calls == 1 && disk.script == []
    ensures failure.None? && rb > 0 ==> 1 <= calls <= Times(Unique(a, start, end), rb)
  {
    var unique := CountUnique(a, start, end);
    CheckedOffsetExactly(base, a[start].row, rb);
    BlockReadable(a, start, end, disk.file, base, rb);
    LastRowOfRun(a, start, end, rb);
    RunSpan(a, start, end);
    InRunOffset(a[start].row, a[end - 1].row, a[end - 1].row, rb);
    var offset := CheckedOffset(base, a[start].row, rb);
    if offset.None? {
      return Some(EOVERFLOW), 0;
    }
    calls := 0;
    if rb != 0 {
      Product(unique, rb);
      TimesGrows(1, unique, rb);
      failure, calls := ReadFully(disk, block, unique * rb, offset.value);
      if failure.Some? {
        return;
      }
    }
    failure := None;
    if rb == 0 {
      calls := calls + 1;
    }
  }

  /** One round of the second pass. */
  method ReadRun(disk: Disk, a: seq<Request>, start: nat, base: nat, rb: nat, block: array<int>, out: array<int>, before: nat,
                 ghost rows: seq<nat>) returns (failure: Option<int>, end: nat, calls: nat, bytes: nat)
    requires Serves(a, rows) && start < |a| && BlockFits(a, start, rb, block.Length) && |disk.file| <= LLONG_MAX
    requires out != block && out.Length == Times(|a|, rb) && Progress(a, start, disk.file, base, rb, out[..], before)
    modifies disk`script, block, out
    ensures start < end <= |a| && (failure.None? ==> Progress(a, end, disk.file, base, rb, out[..], bytes))
    ensures Left(disk.script, old(disk.script))
    ensures failure.Some? ==> RowFails(failure.value, old(disk.script), disk.file, base, rb, a[end - 1].row)
    ensures failure.None? ==> Starts(a, end) == Starts(a, start) + 1
    ensures Clean(old(disk.script)) ==> Clean(disk.script)
    ensures Clean(old(disk.script)) && failure.Some? ==> exists j :: 0 <= j < |a| && !Readable(disk.file, base, rb, a[j].row)
    ensures failure.None? && rb == 0 ==> calls == 1
    ensures failure.None? && old(disk.script) == [] ==> calls == 1 && disk.script == []
    ensures failure.None? && rb > 0 ==> 1 <= calls <= bytes - before
  {
    end := FindRunEnd(a, start);
    bytes := before;
    failure, calls := ReadBlock(disk, a, start, end, base, rb, block);
    if failure.Some? {
      return;
    }
    var unique := CountUnique(a, start, end);
    StartsOfRun(a, start, end);
    ghost var held := out[..];
    Scatter(a, start, end, rb, block, out, rows, disk.file, base);
    Product(unique, rb);
    bytes := before + unique * rb;
    ProgressStep(a, start, end, disk.file, base, rb, held, before, out[..]);
  }

  /** The second pass. */
  method ReadRuns(disk: Disk, a: seq<Request>, base: nat, rb: nat, block: array<int>, out: array<int>, ghost rows: seq<nat>)
    returns (failure: Option<int>, calls: nat, bytes: nat)
    requires Serves(a, rows) && (forall k :: 0 <= k < |a| ==> BlockFits(a, k, rb, block.Length))
    requires |disk.file| <= LLONG_MAX && out != block && out.Length == Times(|a|, rb)
    modifies disk`script, block, out
    ensures failure.None? ==> Progress(a, |a|, disk.file, base, rb, out[..], bytes)
    ensures failure.Some? ==> SomeRowFails(failure.value, old(disk.script), disk.file, base, rb, a)
    ensures Clean(old(disk.script)) && failure.Some? ==> exists j :: 0 <= j < |a| && !Readable(disk.file, base, rb, a[j].row)
    ensures failure.None? && (rb == 0 || old(disk.script) == []) ==> calls == Starts(a, |a|)
    ensures failure.None? && rb > 0 ==> Starts(a, |a|) <= calls <= bytes
  {
    var start := 0;
    failure, calls, bytes := None, 0, 0;
    while start < |a|
      invariant Progress(a, start, disk.file, base, rb, out[..], bytes) && failure.None?
      invariant Clean(old(disk.script)) ==> Clean(disk.script)
      invariant Left(disk.script, old(disk.script))
      invariant old(disk.script) == [] ==> disk.script == []
      invariant rb == 0 || old(disk.script) == [] ==> calls == Starts(a, start)
      invariant rb > 0 ==> Starts(a, start) <= calls <= bytes
    {
      var end, c, b;
      ghost var script := disk.script;
      failure, end, c, b := ReadRun(disk, a, start, base, rb, block, out, bytes, rows);
      if failure.Some? {
        RunFails(failure.value, script, old(disk.script), disk.file, base, rb, a, end - 1);
        return;
      }
      LeftAgain(disk.script, script, old(disk.script));
      calls, bytes, start := calls + c, b, end;
    }
  }

  // ----- the call

  /** How read_rows ends; the errors are the exceptions it raises. */
  datatype Outcome = Read(data: seq<int>, calls: nat, bytes: nat) | ValueError | OverflowError | IndexError | OsError(errno: int)

  /** The error of the first row that is no index of the tensor. */
  function RowFault(rows: seq<int>, total: nat, n: nat): Option<Outcome>
    requires n <= |rows|
  {
    if n == 0 then None
    else if RowFault(rows, total, n - 1).Some? then RowFault(rows, total, n - 1)
    else if rows[n - 1] > LLONG_MAX || rows[n - 1] < -LLONG_MAX - 1 then Some(OverflowError)
    else if rows[n - 1] < 0 || rows[n - 1] >= total then Some(IndexError)
    else None
  }

  /** The errors found before anything is read, and the empty request. */
  function EarlyEnd(rb: int, rows: seq<int>, total: nat): Option<Outcome> {
    if rb < 0 then Some(ValueError)
    else if total > SSIZE_MAX then Some(OverflowError)
    else if rows == [] then Some(Read([], 0, 0))
    else if rb > SSIZE_MAX / |rows| then Some(OverflowError)
    else RowFault(rows, total, |rows|)
  }

  /** There is no fault exactly when all rows are indices of the tensor. */
  lemma {:induction false} RowFaultExactly(rows: seq<int>, total: nat, n: nat)
    requires n <= |rows| && total <= SSIZE_MAX
    ensures RowFault(rows, total, n).None? <==> forall i :: 0 <= i < n ==> 0 <= rows[i] < total
  {
    if n == 0 {
    } else {
      RowFaultExactly(rows, total, n - 1);
    }
  }

  /** The first row that is no index of the tensor. */
  predicate FirstBad(rows: seq<int>, total: nat, i: nat) {
    i < |rows| && !(0 <= rows[i] < total) && forall j :: 0 <= j < i ==> 0 <= rows[j] < total
  }

  lemma {:induction false} FaultOfFirst(rows: seq<int>, total: nat, i: nat, n: nat)
    requires total <= SSIZE_MAX && FirstBad(rows, total, i) && i < n <= |rows|
    ensures RowFault(rows, total, n) == Some(if -0x8000_0000_0000_0000 <= rows[i] <= 0x7FFF_FFFF_FFFF_FFFF then IndexError else OverflowError)
    decreases n
  {
    if n == i + 1 {
      RowFaultExactly(rows, total, i);
    } else {
      FaultOfFirst(rows, total, i, n - 1);
    }
  }

  lemma {:induction false} SomeFirstBad(rows: seq<int>, total: nat, n: nat) returns (i: nat)
    requires n <= |rows| && !(forall j :: 0 <= j < n ==> 0 <= rows[j] < total)
    ensures FirstBad(rows, total, i)
  {
    if forall j :: 0 <= j < n - 1 ==> 0 <= rows[j] < total {
      i := n - 1;
    } else {
      i := SomeFirstBad(rows, total, n - 1);
    }
  }

  /** Which calls go on to read, and which end early without rows or with a ValueError. */
  lemma EarlyEndExactly(rb: int, rows: seq<int>, total: nat)
    ensures EarlyEnd(rb, rows, total) == Some(ValueError) <==> rb < 0
    ensures EarlyEnd(rb, rows, total) == Some(Read([], 0, 0)) <==> rb >= 0 && total <= SSIZE_MAX && rows == []
    ensures EarlyEnd(rb, rows, total).None? <==>
              rb >= 0 && total <= SSIZE_MAX && rows != [] && |rows| * rb <= SSIZE_MAX && forall i :: 0 <= i < |rows| ==> 0 <= rows[i] < total
  {
    if rb >= 0 && total <= SSIZE_MAX && rows != [] {
      QuotientBound(SSIZE_MAX, |rows|, rb);
      assert rb * |rows| == |rows| * rb;
      RowFaultExactly(rows, total, |rows|);
      if RowFault(rows, total, |rows|).Some? {
        var i := SomeFirstBad(rows, total, |rows|);
        FaultOfFirst(rows, total, i, |rows|);
      }
    }
  }

  /** Of the sizes that can be read, a first bad row that a C long long holds is an IndexError and any other
      one an OverflowError; every other size is an OverflowError. */
  lemma BadRowExactly(rb: nat, rows: seq<int>, total: nat)
    requires rows != []
    ensures total > SSIZE_MAX || |rows| * rb > SSIZE_MAX ==> EarlyEnd(rb, rows, total) == Some(OverflowError)
    ensures total <= SSIZE_MAX && |rows| * rb <= SSIZE_MAX ==> forall i: nat :: FirstBad(rows, total, i) ==>
              EarlyEnd(rb, rows, total) ==
              Some(if -0x8000_0000_0000_0000 <= rows[i] <= 0x7FFF_FFFF_FFFF_FFFF then IndexError else OverflowError)
  {
    QuotientBound(SSIZE_MAX, |rows|, rb);
    assert rb * |rows| == |rows| * rb;
    if total <= SSIZE_MAX && |rows| * rb <= SSIZE_MAX {
      forall i: nat | FirstBad(rows, total, i) ensures EarlyEnd(rb, rows, total) == RowFault(rows, total, |rows|) ==
          Some(if -0x8000_0000_0000_0000 <= rows[i] <= 0x7FFF_FFFF_FFFF_FFFF then IndexError else OverflowError) {
        FaultOfFirst(rows, total, i, |rows|);
      }
    }
  }

  /** The loop that checks the rows and makes the requests. */
  method MakeRequests(rows: seq<int>, total: nat) returns (fault: Option<Outcome>, requests: seq<Request>, ghost nats: seq<nat>)
    requires total <= SSIZE_MAX
    ensures fault == RowFault(rows, total, |rows|)
    ensures fault.None? ==> |nats| == |rows| && (forall i :: 0 <= i < |rows| ==> nats[i] == rows[i])
    ensures fault.None? ==> Sorted(requests) && Serves(requests, nats)
  {
    requests, nats := [], [];
    var sorted := true;
    RowFaultExactly(rows, total, |rows|);
    for i := 0 to |rows|
      invariant |nats| == i && (forall k :: 0 <= k < i ==> nats[k] == rows[k])
      invariant RowFault(rows, total, i).None? && requests == RequestsOf(nats, i)
      invariant sorted ==> forall k :: 0 < k < i ==> nats[k - 1] <= nats[k]
    {
      if rows[i] > LLONG_MAX || rows[i] < -LLONG_MAX - 1 {
        FaultStays(rows, total, i + 1, |rows|);
        return Some(OverflowError), requests, nats;
      }
      if rows[i] < 0 || rows[i] >= total {
        FaultStays(rows, total, i + 1, |rows|);
        return Some(IndexError), requests, nats;
      }
      requests, nats := requests + [Request(rows[i], i)], nats + [rows[i]];
      if i > 0 && requests[i - 1].row > requests[i].row {
        sorted := false;
      }
    }
    fault := None;
    if sorted {
      AscendingIsSorted(nats);
    } else {
      SortSorts(requests);
      requests := Sort(requests);
    }
    PermutedServes(requests, nats);
  }

  lemma {:induction false} FaultStays(rows: seq<int>, total: nat, n: nat, m: nat)
    requires n <= m <= |rows| && RowFault(rows, total, n).Some?
    ensures RowFault(rows, total, m) == RowFault(rows, total, n)
  {
    if n == m {
    } else {
      FaultStays(rows, total, n, m - 1);
    }
  }

  /** The rows read in request order, and each different row once. */
  ghost predicate IsNaiveRead(r: Outcome, file: seq<int>, base: nat, rb: nat, rows: seq<nat>) {
    && r.Read? && (forall i :: 0 <= i < |rows| ==> InFile(file, base, rb, rows[i]))
    && r.data == Naive(file, base, rb, rows, |rows|) && BytesRead(r.data, file, base, rb, rows)
    && r.bytes == |AllRows(rows)| * rb
  }

  lemma FilledIsNaive(a: seq<Request>, rows: seq<nat>, file: seq<int>, base: nat, rb: nat, out: seq<int>)
    requires Serves(a, rows) && |out| == Times(|rows|, rb) && Filled(out, a, |a|, file, base, rb)
    ensures (forall i :: 0 <= i < |rows| ==> InFile(file, base, rb, rows[i])) && out == Naive(file, base, rb, rows, |rows|)
    ensures BytesRead(out, file, base, rb, rows)
  {
    Product(|rows|, rb);
    forall i | 0 <= i < |rows| ensures SlotIs(out, i, file, base, rb, rows[i]) && RowRead(out, i, file, base, rb, rows[i]) {
      assert ServedIn(a, rows, i);
      SlotIsRead(out, i, file, base, rb, rows[i]);
    }
    SlotsAreNaive(out, file, base, rb, rows, |rows|);
    assert out[..|out|] == out;
  }

  lemma DistinctBytes(a: seq<Request>, rows: seq<nat>, rb: nat)
    requires Sorted(a) && Serves(a, rows)
    ensures Times(Distinct(a, |a|), rb) == |AllRows(rows)| * rb && Starts(a, |a|) == |FirstRows(AllRows(rows))|
  {
    DistinctRows(a, |a|);
    Product(Distinct(a, |a|), rb);
    ServedRows(a, rows);
    StartsAreFirstRows(a, |a|);
  }

  lemma ProgressIsNaive(a: seq<Request>, rows: seq<nat>, file: seq<int>, base: nat, rb: nat, out: seq<int>, bytes: nat, calls: nat)
    requires Sorted(a) && Serves(a, rows) && |out| == Times(|rows|, rb) && Progress(a, |a|, file, base, rb, out, bytes)
    ensures IsNaiveRead(Read(out, calls, bytes), file, base, rb, rows)
    ensures Starts(a, |a|) == |FirstRows(AllRows(rows))|
  {
    FilledIsNaive(a, rows, file, base, rb, out);
    DistinctBytes(a, rows, rb);
  }

  /** `read_rows`: the naive read, whatever the file does short of failing, each different row read
      once, in one call a run when no read is short; with no failing call it fails exactly when
      some requested row is not in the file. */
  method ReadRows(disk: Disk, base: nat, rb: int, rows: seq<int>, total: nat) returns (r: Outcome, ghost nats: seq<nat>)
    requires |disk.file| <= LLONG_MAX
    modifies disk`script
    ensures EarlyEnd(rb, rows, total).Some? ==> r == EarlyEnd(rb, rows, total).value && disk.script == old(disk.script)
    ensures EarlyEnd(rb, rows, total).None? ==> |nats| == |rows| && forall i :: 0 <= i < |rows| ==> nats[i] == rows[i]
    ensures EarlyEnd(rb, rows, total).None? ==> r.OsError? || IsNaiveRead(r, disk.file, base, rb, nats)
    ensures EarlyEnd(rb, rows, total).None? && r.Read? && (rb == 0 || old(disk.script) == []) ==>
              r.calls == |FirstRows(AllRows(nats))|
    ensures EarlyEnd(rb, rows, total).None? && r.OsError? ==>
              exists i :: 0 <= i < |nats| && RowFails(r.errno, old(disk.script), disk.file, base, rb, nats[i])
    ensures EarlyEnd(rb, rows, total).None? && Clean(old(disk.script)) ==>
              (r.Read? <==> forall i :: 0 <= i < |nats| ==> Readable(disk.file, base, rb, nats[i]))
  {
    nats := [];
    if rb < 0 {
      return ValueError, nats;
    }
    if total > SSIZE_MAX {
      return OverflowError, nats;
    }
    if rows == [] {
      return Read([], 0, 0), nats;
    }
    if rb > SSIZE_MAX / |rows| {
      return OverflowError, nats;
    }
    var fault, a;
    fault, a, nats := MakeRequests(rows, total);
    if fault.Some? {
      return fault.value, nats;
    }
    var size := MaxBlock(a, rb);
    Product(|rows|, rb);
    var out := new int[|rows| * rb](_ => 0);
    var block := new int[if size == 0 then 1 else size](_ => 0);
    BlocksFitLarger(a, rb, size, block.Length);
    var failure, calls, bytes := ReadRuns(disk, a, base, rb, block, out, nats);
    if failure.Some? {
      ServedNotReadable(a, nats, disk.file, base, rb);
      ServedFails(a, nats, failure.value, old(disk.script), disk.file, base, rb);
      return OsError(failure.value), nats;
    }
    ProgressIsNaive(a, nats, disk.file, base, rb, out[..], bytes, calls);
    ServedReadable(a, nats, disk.file, base, rb);
    return Read(out[..], calls, bytes), nats;
  }

  lemma BlocksFitLarger(a: seq<Request>, rb: nat, size: nat, larger: nat)
    requires size <= larger && forall k :: 0 <= k < |a| ==> BlockFits(a, k, rb, size)
    ensures forall k :: 0 <= k < |a| ==> BlockFits(a, k, rb, larger)
  {
    forall k | 0 <= k < |a| ensures BlockFits(a, k, rb, larger) {
      assert BlockFits(a, k, rb, size);
    }
  }

  lemma ServedReadable(a: seq<Request>, rows: seq<nat>, file: seq<int>, base: nat, rb: nat)
    requires Serves(a, rows) && forall j :: 0 <= j < |a| ==> Readable(file, base, rb, a[j].row)
    ensures forall i :: 0 <= i < |rows| ==> Readable(file, base, rb, rows[i])
  {
    forall i | 0 <= i < |rows| ensures Readable(file, base, rb, rows[i]) {
      assert ServedIn(a, rows, i);
    }
  }

  lemma ServedFails(a: seq<Request>, rows: seq<nat>, errno: int, script: seq<Event>, file: seq<int>, base: nat, rb: nat)
    requires Serves(a, rows) && SomeRowFails(errno, script, file, base, rb, a)
    ensures exists i :: 0 <= i < |rows| && RowFails(errno, script, file, base, rb, rows[i])
  {
    var j :| 0 <= j < |a| && RowFails(errno, script, file, base, rb, a[j].row);
    assert rows[a[j].index] == a[j].row;
  }

  lemma ServedNotReadable(a: seq<Request>, rows: seq<nat>, file: seq<int>, base: nat, rb: nat)
    requires Serves(a, rows)
    ensures (exists j :: 0 <= j < |a| && !Readable(file, base, rb, a[j].row)) ==>
              exists i :: 0 <= i < |rows| && !Readable(file, base, rb, rows[i])
  {
    forall j | 0 <= j < |a| && !Readable(file, base, rb, a[j].row)
      ensures exists i :: 0 <= i < |rows| && !Readable(file, base, rb, rows[i])
    {
      assert rows[a[j].index] == a[j].row;
    }
  }
}
