/** native/rowio.c: the requests of a row read, sorted and cut into runs of consecutive rows. */
module RowRequests {
  datatype Request = Request(row: nat, index: nat)

  /** `compare_rows`. */
  function CompareRows(a: Request, b: Request): int {
    if a.row < b.row then -1
    else if a.row > b.row then 1
    else if a.index < b.index then -1
    else if a.index > b.index then 1
    else 0
  }

  predicate Before(a: Request, b: Request) {
    CompareRows(a, b) <= 0
  }

  /** The comparison is a total order, so qsort may be used with it. */
  lemma CompareRowsIsOrder(a: Request, b: Request, c: Request)
    ensures CompareRows(a, b) == 0 <==> a == b
    ensures CompareRows(a, b) == -CompareRows(b, a)
    ensures Before(a, b) && Before(b, c) ==> Before(a, c)
  {
  }

  ghost predicate Sorted(a: seq<Request>) {
    forall i, j :: 0 <= i < j < |a| ==> Before(a[i], a[j])
  }

  function Insert(a: seq<Request>, x: Request): seq<Request> {
    if a == [] then [x] else if Before(x, a[0]) then [x] + a else [a[0]] + Insert(a[1..], x)
  }

  /** What qsort leaves: the sorted permutation of a. */
  function Sort(a: seq<Request>): seq<Request> {
    if a == [] then [] else Insert(Sort(a[1..]), a[0])
  }

  lemma {:induction false} InsertPermutes(a: seq<Request>, x: Request)
    ensures multiset(Insert(a, x)) == multiset(a) + multiset{x}
  {
    if a != [] && !Before(x, a[0]) {
      InsertPermutes(a[1..], x);
      assert a == [a[0]] + a[1..];
    }
  }

  /** y comes before every element of a. */
  ghost predicate Least(y: Request, a: seq<Request>) {
    forall j :: 0 <= j < |a| ==> Before(y, a[j])
  }

  lemma {:induction false} InsertAfter(a: seq<Request>, x: Request, y: Request)
    requires Least(y, a) && Before(y, x)
    ensures Least(y, Insert(a, x))
  {
    if a != [] && !Before(x, a[0]) {
      InsertAfter(a[1..], x, y);
    }
  }

  lemma {:induction false} InsertSorts(a: seq<Request>, x: Request)
    requires Sorted(a)
    ensures Sorted(Insert(a, x))
  {
    if a != [] && !Before(x, a[0]) {
      InsertSorts(a[1..], x);
      InsertAfter(a[1..], x, a[0]);
    }
  }

  lemma {:induction false} SortSorts(a: seq<Request>)
    ensures Sorted(Sort(a)) && multiset(Sort(a)) == multiset(a)
  {
    if a == [] {
    } else {
      SortSorts(a[1..]);
      InsertSorts(Sort(a[1..]), a[0]);
      InsertPermutes(Sort(a[1..]), a[0]);
      assert a == [a[0]] + a[1..];
    }
  }

  // ----- requests of a list of rows

  /** The requests of the first n rows. */
  function RequestsOf(rows: seq<nat>, n: nat): (a: seq<Request>)
    requires n <= |rows|
    ensures |a| == n
  {
    seq(n, i requires 0 <= i < n => Request(rows[i], i))
  }

  /** Rows that do not decrease need no sorting. */
  lemma AscendingIsSorted(rows: seq<nat>)
    requires forall i :: 0 < i < |rows| ==> rows[i - 1] <= rows[i]
    ensures Sorted(RequestsOf(rows, |rows|))
  {
    forall i, j | 0 <= i < j < |rows| ensures Before(RequestsOf(rows, |rows|)[i], RequestsOf(rows, |rows|)[j]) {
      AscendingRows(rows, i, j);
    }
  }

  lemma {:induction false} AscendingRows(rows: seq<nat>, i: nat, j: nat)
    requires i <= j < |rows| && forall i :: 0 < i < |rows| ==> rows[i - 1] <= rows[i]
    ensures rows[i] <= rows[j]
  {
    if i == j {
    } else {
      AscendingRows(rows, i, j - 1);
    }
  }

  /** a holds every request of rows once, in some order. */
  ghost predicate Serves(a: seq<Request>, rows: seq<nat>) {
    && |a| == |rows|
    && (forall j :: 0 <= j < |a| ==> a[j].index < |rows| && a[j].row == rows[a[j].index])
    && (forall j, k :: 0 <= j < k < |a| ==> a[j].index != a[k].index)
    && forall i :: 0 <= i < |rows| ==> ServedIn(a, rows, i)
  }

  ghost predicate ServedIn(a: seq<Request>, rows: seq<nat>, i: nat)
    requires i < |rows|
  {
    Request(rows[i], i) in a
  }

  /** A sorted permutation of the requests serves the rows. */
  lemma PermutedServes(a: seq<Request>, rows: seq<nat>)
    requires multiset(a) == multiset(RequestsOf(rows, |rows|))
    ensures Serves(a, rows)
  {
    var b := RequestsOf(rows, |rows|);
    assert |multiset(a)| == |multiset(b)|;
    forall j | 0 <= j < |a| ensures a[j].index < |rows| && a[j].row == rows[a[j].index] {
      assert a[j] in multiset(a);
      assert a[j] in b;
    }
    forall j, k | 0 <= j < k < |a| ensures a[j].index != a[k].index {
      if a[j] == a[k] {
        TwiceIn(a, j, k);
        OnceIn(rows, |rows|, a[j]);
      }
    }
    forall i | 0 <= i < |rows| ensures ServedIn(a, rows, i) {
      assert b[i] in multiset(b);
    }
  }

  lemma TwiceIn(a: seq<Request>, j: nat, k: nat)
    requires j < k < |a| && a[j] == a[k]
    ensures multiset(a)[a[j]] >= 2
  {
    assert a == a[..k] + [a[k]] + a[k + 1..];
    assert a[..k][j] == a[j];
  }

  lemma {:induction false} OnceIn(rows: seq<nat>, n: nat, x: Request)
    requires n <= |rows|
    ensures multiset(RequestsOf(rows, n))[x] <= if x.index < n then 1 else 0
  {
    if n == 0 {
    } else {
      OnceIn(rows, n - 1, x);
      assert RequestsOf(rows, n) == RequestsOf(rows, n - 1) + [Request(rows[n - 1], n - 1)];
    }
  }

  // ----- runs

  /** a[i] continues the run of a[i - 1]. */
  predicate Joined(a: seq<Request>, i: nat)
    requires 0 < i < |a|
  {
    a[i].row == a[i - 1].row || a[i].row == a[i - 1].row + 1
  }

  ghost predicate Run(a: seq<Request>, start: nat, end: nat) {
    start < end <= |a| && forall i :: start < i < end ==> Joined(a, i)
  }

  /** The end of the run that goes on up to e at least. */
  function RunEnd(a: seq<Request>, e: nat): (r: nat)
    requires 0 < e <= |a|
    ensures e <= r <= |a|
    decreases |a| - e
  {
    if e < |a| && Joined(a, e) then RunEnd(a, e + 1) else e
  }

  lemma {:induction false} RunEndIsRun(a: seq<Request>, start: nat, e: nat)
    requires Run(a, start, e)
    ensures Run(a, start, RunEnd(a, e)) && (RunEnd(a, e) < |a| ==> !Joined(a, RunEnd(a, e)))
    decreases |a| - e
  {
    if e < |a| && Joined(a, e) {
      RunEndIsRun(a, start, e + 1);
    }
  }

  /** The number of different rows among a[start..e]. */
  function Unique(a: seq<Request>, start: nat, e: nat): (n: nat)
    requires start < e <= |a|
    ensures n >= 1
  {
    if e == start + 1 then 1 else Unique(a, start, e - 1) + if a[e - 1].row != a[e - 2].row then 1 else 0
  }

  /** A run spans as many rows as it has different ones: it has no gaps. */
  lemma {:induction false} RunSpan(a: seq<Request>, start: nat, e: nat)
    requires Run(a, start, e)
    ensures a[e - 1].row == a[start].row + Unique(a, start, e) - 1
    decreases e
  {
    if e > start + 1 {
      RunSpan(a, start, e - 1);
      assert Joined(a, e - 1);
    }
  }

  lemma InRun(a: seq<Request>, start: nat, e: nat, i: nat)
    requires Run(a, start, e) && start <= i < e
    ensures a[start].row <= a[i].row < a[start].row + Unique(a, start, e)
    decreases e - i
  {
    RunSpan(a, start, i + 1);
    if i + 1 < e {
      assert Joined(a, i + 1);
      InRun(a, start, e, i + 1);
    } else {
      RunSpan(a, start, e);
    }
  }

  // ----- how many different rows there are

  /** How many of the first n requests start a new row. */
  function Distinct(a: seq<Request>, n: nat): nat
    requires n <= |a|
  {
    if n == 0 then 0 else Distinct(a, n - 1) + if n == 1 || a[n - 1].row != a[n - 2].row then 1 else 0
  }

  ghost function RowSet(a: seq<Request>, n: nat): set<nat>
    requires n <= |a|
  {
    set i | 0 <= i < n :: a[i].row
  }

  lemma RowSetNext(a: seq<Request>, n: nat)
    requires 0 < n <= |a|
    ensures RowSet(a, n) == RowSet(a, n - 1) + {a[n - 1].row}
    ensures n > 1 ==> a[n - 2].row in RowSet(a, n - 1)
  {
  }

  lemma LargerRowIsNew(a: seq<Request>, n: nat)
    requires Sorted(a) && 0 < n < |a| && a[n].row != a[n - 1].row
    ensures a[n].row !in RowSet(a, n)
  {
    forall i | 0 <= i < n ensures a[i].row < a[n].row {
      assert i < n - 1 ==> Before(a[i], a[n - 1]);
      assert Before(a[n - 1], a[n]);
    }
  }

  /** The last row is among the earlier ones exactly when it is the row before it. */
  lemma LastRowIsOld(a: seq<Request>, n: nat)
    requires Sorted(a) && 0 < n <= |a|
    ensures a[n - 1].row in RowSet(a, n - 1) <==> n > 1 && a[n - 1].row == a[n - 2].row
  {
    RowSetNext(a, n);
    if n > 1 && a[n - 1].row != a[n - 2].row {
      LargerRowIsNew(a, n - 1);
    }
  }

  lemma SizeWith(s: set<nat>, r: nat)
    ensures |s + {r}| == |s| + if r in s then 0 else 1
  {
    if r in s {
      assert s + {r} == s;
    }
  }

  lemma {:induction false} DistinctRows(a: seq<Request>, n: nat)
    requires Sorted(a) && n <= |a|
    ensures Distinct(a, n) == |RowSet(a, n)|
  {
    if n == 0 {
    } else {
      DistinctRows(a, n - 1);
      RowSetNext(a, n);
      LastRowIsOld(a, n);
      SizeWith(RowSet(a, n - 1), a[n - 1].row);
    }
  }

  /** The rows of a run that is not joined to what is before it are all new. */
  lemma {:induction false} DistinctRun(a: seq<Request>, start: nat, e: nat)
    requires start < e <= |a| && (start > 0 ==> !Joined(a, start))
    ensures Distinct(a, e) == Distinct(a, start) + Unique(a, start, e)
  {
    if e > start + 1 {
      DistinctRun(a, start, e - 1);
    }
  }

  ghost function AllRows(rows: seq<nat>): set<nat> {
    set i | 0 <= i < |rows| :: rows[i]
  }

  lemma ServedRows(a: seq<Request>, rows: seq<nat>)
    requires Serves(a, rows)
    ensures RowSet(a, |a|) == AllRows(rows)
  {
    forall i | 0 <= i < |rows| ensures rows[i] in RowSet(a, |a|) {
      assert ServedIn(a, rows, i);
      var j :| 0 <= j < |a| && a[j] == Request(rows[i], i);
      assert a[j].row in RowSet(a, |a|);
    }
    forall j | 0 <= j < |a| ensures a[j].row in AllRows(rows) {
      assert rows[a[j].index] in AllRows(rows);
    }
  }

  // ----- how many runs there are

  /** A run starts at i. */
  predicate IsStart(a: seq<Request>, i: nat)
    requires i < |a|
  {
    i == 0 || !Joined(a, i)
  }

  function Starts(a: seq<Request>, n: nat): nat
    requires n <= |a|
  {
    if n == 0 then 0 else Starts(a, n - 1) + if IsStart(a, n - 1) then 1 else 0
  }

  lemma {:induction false} StartsOfRun(a: seq<Request>, start: nat, e: nat)
    requires Run(a, start, e) && IsStart(a, start)
    ensures Starts(a, e) == Starts(a, start) + 1
    decreases e
  {
    if e > start + 1 {
      StartsOfRun(a, start, e - 1);
      assert Joined(a, e - 1);
    }
  }

  predicate HasPrevious(rows: set<nat>, r: nat) {
    r > 0 && r - 1 in rows
  }

  /** The rows that no other row comes right before. */
  ghost function FirstRows(rows: set<nat>): set<nat> {
    set r | r in rows && !HasPrevious(rows, r)
  }

  lemma FirstRowsOfNew(s: set<nat>, r: nat)
    requires forall x :: x in s ==> x < r
    ensures |FirstRows(s + {r})| == |FirstRows(s)| + if HasPrevious(s, r) then 0 else 1
  {
    var t := FirstRows(s + {r});
    assert forall x :: x in s ==> HasPrevious(s + {r}, x) == HasPrevious(s, x);
    if HasPrevious(s, r) {
      assert t == FirstRows(s);
    } else {
      assert t == FirstRows(s) + {r};
    }
  }

  /** There are as many runs as rows without a predecessor: no run could be joined to another. */
  lemma {:induction false} StartsAreFirstRows(a: seq<Request>, n: nat)
    requires Sorted(a) && n <= |a|
    ensures Starts(a, n) == |FirstRows(RowSet(a, n))|
  {
    if n == 0 {
    } else {
      StartsAreFirstRows(a, n - 1);
      var s, r := RowSet(a, n - 1), a[n - 1].row;
      RowSetNext(a, n);
      if n == 1 {
        FirstRowsOfNew(s, r);
      } else {
        LastRowIsLargest(a, n - 1);
        assert Before(a[n - 2], a[n - 1]);
        if r == a[n - 2].row {
          assert s + {r} == s;
        } else {
          FirstRowsOfNew(s, r);
        }
      }
    }
  }

  lemma LastRowIsLargest(a: seq<Request>, n: nat)
    requires Sorted(a) && 0 < n <= |a|
    ensures forall x :: x in RowSet(a, n) ==> x <= a[n - 1].row
  {
    forall i | 0 <= i < n ensures a[i].row <= a[n - 1].row {
      assert i < n - 1 ==> Before(a[i], a[n - 1]);
    }
  }
}
