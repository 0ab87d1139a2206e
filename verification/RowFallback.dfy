/** src/colibri_runtime/storage.py: the Python fallback of `read_rows_numpy`. It coalesces the
    sorted set of rows and gives the same bytes as the C reader: the naive read. */
module RowFallback {
  import opened Arithmetic
  import opened Options
  import opened RowRequests
  import opened RowIo

  ghost predicate Ascending(u: seq<nat>) {
    forall i, j :: 0 <= i < j < |u| ==> u[i] < u[j]
  }

  function InsertRow(u: seq<nat>, r: nat): seq<nat> {
    if u == [] then [r]
    else if r < u[0] then [r] + u
    else if r == u[0] then u
    else [u[0]] + InsertRow(u[1..], r)
  }

  /** `sorted(set(requested))`. */
  function SortedSet(rows: seq<nat>, n: nat): seq<nat>
    requires n <= |rows|
  {
    if n == 0 then [] else InsertRow(SortedSet(rows, n - 1), rows[n - 1])
  }

  lemma {:induction false} InsertRowMembers(u: seq<nat>, r: nat, x: nat)
    ensures x in InsertRow(u, r) <==> x in u || x == r
  {
    if u == [] {
    } else {
      assert u == [u[0]] + u[1..];
      InsertRowMembers(u[1..], r, x);
    }
  }

  lemma {:induction false} InsertRowAscends(u: seq<nat>, r: nat)
    requires Ascending(u)
    ensures Ascending(InsertRow(u, r))
  {
    if u != [] && r > u[0] {
      InsertRowAscends(u[1..], r);
      var t := InsertRow(u[1..], r);
      forall j | 0 <= j < |t| ensures u[0] < t[j] {
        InsertRowMembers(u[1..], r, t[j]);
      }
    }
  }

  lemma {:induction false} SortedSetIs(rows: seq<nat>, n: nat)
    requires n <= |rows|
    ensures Ascending(SortedSet(rows, n))
    ensures forall x :: x in SortedSet(rows, n) <==> x in rows[..n]
  {
    if n == 0 {
    } else {
      SortedSetIs(rows, n - 1);
      InsertRowAscends(SortedSet(rows, n - 1), rows[n - 1]);
      assert rows[..n] == rows[..n - 1] + [rows[n - 1]];
      forall x ensures x in SortedSet(rows, n) <==> x in rows[..n] {
        InsertRowMembers(SortedSet(rows, n - 1), rows[n - 1], x);
      }
    }
  }

  ghost function Elements(u: seq<nat>): set<nat> {
    set x | x in u
  }

  lemma {:induction false} AscendingSize(u: seq<nat>, n: nat)
    requires Ascending(u) && n <= |u|
    ensures n == |Elements(u[..n])|
  {
    if n == 0 {
    } else {
      AscendingSize(u, n - 1);
      assert u[..n] == u[..n - 1] + [u[n - 1]];
      assert Elements(u[..n]) == Elements(u[..n - 1]) + {u[n - 1]};
      assert u[n - 1] !in Elements(u[..n - 1]);
    }
  }

  // ----- runs as half-open ranges

  type Range = (nat, nat)

  function Rows(lo: nat, hi: nat): seq<nat>
    requires lo <= hi
  {
    seq(hi - lo, i requires 0 <= i < hi - lo => lo + i)
  }

  ghost predicate Ranges(runs: seq<Range>) {
    forall q :: 0 <= q < |runs| ==> runs[q].0 < runs[q].1
  }

  /** The rows of the first n runs, in order. */
  function Expand(runs: seq<Range>, n: nat): seq<nat>
    requires n <= |runs| && Ranges(runs)
  {
    if n == 0 then [] else Expand(runs, n - 1) + Rows(runs[n - 1].0, runs[n - 1].1)
  }

  lemma {:induction false} ExpandSame(runs: seq<Range>, more: seq<Range>, n: nat)
    requires n <= |runs| && Ranges(runs) && Ranges(runs + more)
    ensures Expand(runs, n) == Expand(runs + more, n)
  {
    if n == 0 {
    } else {
      ExpandSame(runs, more, n - 1);
    }
  }

  lemma ExpandAppend(runs: seq<Range>, r: Range)
    requires Ranges(runs) && r.0 < r.1
    ensures Ranges(runs + [r]) && Expand(runs + [r], |runs| + 1) == Expand(runs, |runs|) + Rows(r.0, r.1)
  {
    assert Ranges(runs + [r]);
    ExpandSame(runs, [r], |runs|);
  }

  /** The loop that cuts the rows into runs. */
  method FindRuns(unique: seq<nat>) returns (runs: seq<Range>)
    requires unique != []
    ensures Ranges(runs) && Expand(runs, |runs|) == unique
  {
    runs := [];
    var start, prev := unique[0], unique[0];
    for k := 1 to |unique|
      invariant Ranges(runs) && start <= prev
      invariant Expand(runs, |runs|) + Rows(start, prev + 1) == unique[..k]
    {
      var row := unique[k];
      assert unique[..k + 1] == unique[..k] + [row];
      if row != prev + 1 {
        ExpandAppend(runs, (start, prev + 1));
        runs := runs + [(start, prev + 1)];
        start := row;
      } else {
        assert Rows(start, row + 1) == Rows(start, prev + 1) + [row];
        assert Expand(runs, |runs|) + Rows(start, row + 1) == (Expand(runs, |runs|) + Rows(start, prev + 1)) + [row];
      }
      prev := row;
    }
    ExpandAppend(runs, (start, prev + 1));
    runs := runs + [(start, prev + 1)];
    assert unique[..|unique|] == unique;
  }

  // ----- reading

  /** `_pread`: interrupted calls are repeated, a short read is an error. */
  method PreadAll(disk: Disk, offset: nat, nbytes: nat) returns (r: Option<seq<int>>)
    modifies disk`script
    ensures (r.Some? ==> |r.value| == nbytes) && (nbytes == 0 ==> r.Some?)
    ensures r.Some? && nbytes > 0 ==> offset + nbytes <= |disk.file| && r.value == disk.file[offset..offset + nbytes]
    ensures old(disk.script) == [] ==> disk.script == []
    ensures old(disk.script) == [] && offset + nbytes <= |disk.file| ==> r.Some?
  {
    if nbytes == 0 {
      return Some([]);
    }
    var buffer := new int[nbytes](_ => 0);
    while true
      invariant fresh(buffer)
      invariant old(disk.script) == [] ==> disk.script == []
      decreases |disk.script|
    {
      var t := disk.Pread(buffer, 0, nbytes, offset);
      if t.Count? {
        return if t.n == nbytes then Some(buffer[..]) else None;
      }
      if t.errno != EINTR {
        return None;
      }
    }
  }

  /** The dictionary holds the bytes of every row of u. */
  ghost predicate RawOk(raw: map<nat, seq<int>>, u: seq<nat>, file: seq<int>, base: nat, rb: nat) {
    forall j :: 0 <= j < |u| ==> u[j] in raw && InFile(file, base, rb, u[j]) && raw[u[j]] == RowAt(file, base, rb, u[j])
  }

  lemma RawGrows(raw: map<nat, seq<int>>, u: seq<nat>, row: nat, bytes: seq<int>, file: seq<int>, base: nat, rb: nat)
    requires RawOk(raw, u, file, base, rb) && InFile(file, base, rb, row) && bytes == RowAt(file, base, rb, row)
    ensures RawOk(raw[row := bytes], u + [row], file, base, rb)
  {
  }

  /** The inner loop: the rows of one block go to the dictionary. */
  method StoreRows(raw: map<nat, seq<int>>, lo: nat, hi: nat, rb: nat, block: seq<int>,
                   ghost file: seq<int>, ghost base: nat, ghost u: seq<nat>) returns (out: map<nat, seq<int>>)
    requires lo < hi && Holds(block, file, base, rb, lo, hi - lo) && RawOk(raw, u, file, base, rb)
    ensures RawOk(out, u + Rows(lo, hi), file, base, rb)
  {
    out := raw;
    for row := lo to hi
      invariant RawOk(out, u + Rows(lo, row), file, base, rb)
    {
      RowInBlock(file, base, rb, lo, hi - lo, row, block);
      var begin := Offset(row - lo, rb);
      RawGrows(out, u + Rows(lo, row), row, block[begin..begin + rb], file, base, rb);
      assert u + Rows(lo, row + 1) == u + Rows(lo, row) + [row];
      out := out[row := block[begin..begin + rb]];
    }
  }

  /** The loop over the runs; None when a read fails. */
  method ReadBlocks(disk: Disk, runs: seq<Range>, base: nat, rb: nat) returns (raw: Option<map<nat, seq<int>>>, bytes: nat)
    requires Ranges(runs)
    modifies disk`script
    ensures raw.Some? ==> RawOk(raw.value, Expand(runs, |runs|), disk.file, base, rb) && bytes == Times(|Expand(runs, |runs|)|, rb)
    ensures old(disk.script) == [] && raw.None? ==>
              exists q :: 0 <= q < |runs| && base + Times(runs[q].1, rb) > |disk.file| && rb > 0
  {
    var found: map<nat, seq<int>> := map[];
    bytes := 0;
    for q := 0 to |runs|
      invariant RawOk(found, Expand(runs, q), disk.file, base, rb) && bytes == Times(|Expand(runs, q)|, rb)
      invariant old(disk.script) == [] ==> disk.script == []
    {
      var lo, hi := runs[q].0, runs[q].1;
      Product(lo, rb);
      Product(hi - lo, rb);
      TimesAdds(lo, hi - lo, rb);
      TimesAdds(|Expand(runs, q)|, hi - lo, rb);
      var block := PreadAll(disk, base + lo * rb, (hi - lo) * rb);
      if block.None? {
        assert rb == 0 ==> (hi - lo) * rb == 0;
        return None, bytes;
      }
      BlockIsHeld(disk.file, base, rb, lo, hi - lo, block.value);
      found := StoreRows(found, lo, hi, rb, block.value, disk.file, base, Expand(runs, q));
      bytes := bytes + (hi - lo) * rb;
    }
    return Some(found), bytes;
  }

  lemma BlockIsHeld(file: seq<int>, base: nat, rb: nat, lo: nat, n: nat, block: seq<int>)
    requires n > 0 && |block| == Times(n, rb)
    requires |block| > 0 ==> base + Times(lo, rb) + |block| <= |file| && block == file[base + Times(lo, rb)..base + Times(lo, rb) + |block|]
    ensures Holds(block, file, base, rb, lo, n)
  {
    TimesGrows(1, n, rb);
    assert block[..|block|] == block;
  }

  /** How the fallback ends: the data, the IndexError or the OSError. */
  datatype Outcome = Data(data: seq<int>, bytes: nat) | OutOfRange | ReadError

  lemma NotInFile(runs: seq<Range>, q: nat, file: seq<int>, base: nat, rb: nat)
    requires Ranges(runs) && q < |runs| && rb > 0 && base + Times(runs[q].1, rb) > |file|
    ensures runs[q].1 - 1 in Expand(runs, |runs|) && !InFile(file, base, rb, runs[q].1 - 1)
  {
    InExpand(runs, q, |runs|);
  }

  lemma {:induction false} InExpand(runs: seq<Range>, q: nat, n: nat)
    requires Ranges(runs) && q < n <= |runs|
    ensures runs[q].1 - 1 in Expand(runs, n)
  {
    if q == n - 1 {
      var tail := Rows(runs[q].0, runs[q].1);
      assert tail[|tail| - 1] == runs[q].1 - 1;
    } else {
      InExpand(runs, q, n - 1);
    }
  }

  lemma RequestedInRaw(raw: map<nat, seq<int>>, u: seq<nat>, file: seq<int>, base: nat, rb: nat, row: nat)
    requires RawOk(raw, u, file, base, rb) && row in u
    ensures row in raw && InFile(file, base, rb, row) && raw[row] == RowAt(file, base, rb, row)
  {
  }

  lemma SlotKept(data: seq<int>, more: seq<int>, i: nat, file: seq<int>, base: nat, rb: nat, row: nat)
    requires SlotIs(data, i, file, base, rb, row)
    ensures SlotIs(data + more, i, file, base, rb, row)
  {
    var p := Times(i, rb);
    assert (data + more)[p..p + rb] == data[p..p + rb];
  }

  lemma SlotAdded(data: seq<int>, i: nat, file: seq<int>, base: nat, rb: nat, row: nat)
    requires |data| == Times(i, rb) && InFile(file, base, rb, row)
    ensures SlotIs(data + RowAt(file, base, rb, row), i, file, base, rb, row)
  {
  }

  /** The data so far hold the first n rows slot by slot. */
  ghost predicate SlotsTo(data: seq<int>, n: nat, file: seq<int>, base: nat, rb: nat, rows: seq<nat>) {
    n <= |rows| && |data| == Times(n, rb) && forall k :: 0 <= k < n ==> SlotIs(data, k, file, base, rb, rows[k])
  }

  lemma SlotsGrow(data: seq<int>, n: nat, file: seq<int>, base: nat, rb: nat, rows: seq<nat>)
    requires n < |rows| && SlotsTo(data, n, file, base, rb, rows) && InFile(file, base, rb, rows[n])
    ensures SlotsTo(data + RowAt(file, base, rb, rows[n]), n + 1, file, base, rb, rows)
  {
    SlotAdded(data, n, file, base, rb, rows[n]);
    forall k | 0 <= k < n ensures SlotIs(data + RowAt(file, base, rb, rows[n]), k, file, base, rb, rows[k]) {
      SlotKept(data, RowAt(file, base, rb, rows[n]), k, file, base, rb, rows[k]);
    }
  }

  lemma SlotsAreRead(data: seq<int>, file: seq<int>, base: nat, rb: nat, rows: seq<nat>)
    requires SlotsTo(data, |rows|, file, base, rb, rows)
    ensures (forall i :: 0 <= i < |rows| ==> InFile(file, base, rb, rows[i])) && data == Naive(file, base, rb, rows, |rows|)
    ensures BytesRead(data, file, base, rb, rows)
  {
    Product(|rows|, rb);
    SlotsAreNaive(data, file, base, rb, rows, |rows|);
    assert data[..|data|] == data;
    forall i | 0 <= i < |rows| ensures RowRead(data, i, file, base, rb, rows[i]) {
      SlotIsRead(data, i, file, base, rb, rows[i]);
    }
  }

  /** The join of the requested rows. */
  method Join(raw: map<nat, seq<int>>, rows: seq<nat>, ghost u: seq<nat>, ghost file: seq<int>, ghost base: nat, ghost rb: nat)
    returns (data: seq<int>)
    requires RawOk(raw, u, file, base, rb) && forall i :: 0 <= i < |rows| ==> rows[i] in u
    ensures (forall i :: 0 <= i < |rows| ==> InFile(file, base, rb, rows[i])) && data == Naive(file, base, rb, rows, |rows|)
    ensures BytesRead(data, file, base, rb, rows)
  {
    data := [];
    for i := 0 to |rows|
      invariant SlotsTo(data, i, file, base, rb, rows)
    {
      RequestedInRaw(raw, u, file, base, rb, rows[i]);
      SlotsGrow(data, i, file, base, rb, rows);
      data := data + raw[rows[i]];
    }
    SlotsAreRead(data, file, base, rb, rows);
  }

  lemma UniqueBytes(rows: seq<nat>, rb: nat)
    ensures Times(|SortedSet(rows, |rows|)|, rb) == |AllRows(rows)| * rb
  {
    var unique := SortedSet(rows, |rows|);
    SortedSetIs(rows, |rows|);
    AscendingSize(unique, |unique|);
    assert rows[..|rows|] == rows && unique[..|unique|] == unique;
    assert Elements(unique) == AllRows(rows);
    Product(|unique|, rb);
  }

  /** `read_rows_numpy` without the C reader: the naive read, each different row once; when no read
      falls short it fails exactly when some requested row is not in the file. */
  method ReadRowsFallback(disk: Disk, base: nat, rb: nat, rows: seq<int>, total: nat) returns (r: Outcome, ghost nats: seq<nat>)
    modifies disk`script
    ensures rows == [] ==> r == Data([], 0)
    ensures r.OutOfRange? <==> exists i :: 0 <= i < |rows| && !(0 <= rows[i] < total)
    ensures !r.OutOfRange? ==> |nats| == |rows| && forall i :: 0 <= i < |rows| ==> nats[i] == rows[i]
    ensures r.Data? ==> (forall i :: 0 <= i < |nats| ==> InFile(disk.file, base, rb, nats[i]))
                        && r.data == Naive(disk.file, base, rb, nats, |nats|) && BytesRead(r.data, disk.file, base, rb, nats)
                        && r.bytes == |AllRows(nats)| * rb
    ensures old(disk.script) == [] && !r.OutOfRange? ==>
              (r.Data? <==> forall i :: 0 <= i < |nats| ==> InFile(disk.file, base, rb, nats[i]))
  {
    nats := [];
    if rows == [] {
      assert AllRows([]) == {};
      return Data([], 0), nats;
    }
    if exists i :: 0 <= i < |rows| && !(0 <= rows[i] < total) {
      return OutOfRange, nats;
    }
    var requested: seq<nat> := seq(|rows|, i requires 0 <= i < |rows| => rows[i]);
    nats := requested;
    var unique := SortedSet(requested, |requested|);
    SortedSetIs(requested, |requested|);
    assert requested[..|requested|] == requested;
    assert requested[0] in unique;
    var runs := FindRuns(unique);
    var raw, bytes := ReadBlocks(disk, runs, base, rb);
    if raw.None? {
      if old(disk.script) == [] {
        var q :| 0 <= q < |runs| && base + Times(runs[q].1, rb) > |disk.file| && rb > 0;
        NotInFile(runs, q, disk.file, base, rb);
      }
      return ReadError, nats;
    }
    var data := Join(raw.value, requested, unique, disk.file, base, rb);
    UniqueBytes(requested, rb);
    return Data(data, bytes), nats;
  }
}
