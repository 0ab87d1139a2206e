/** What each operation of the C cache does to each entry, in the terms of the entries, and what an
    entry owes to the operations on its key. */
module CacheHistory {
  import opened Options
  import opened CacheSpec

  // ----- sums over the list, entry by entry

  lemma SumsAre(e: Item, rest: seq<Item>, part: int)
    ensures Bytes([]) == 0 && PinnedBytes([]) == 0 && PinnedCount([]) == 0 && Usage([], Part(part)) == 0
    ensures Bytes([e] + rest) == e.nbytes + Bytes(rest)
    ensures PinnedBytes([e] + rest) == (if e.pinned then e.nbytes else 0) + PinnedBytes(rest)
    ensures PinnedCount([e] + rest) == (if e.pinned then 1 else 0) + PinnedCount(rest)
    ensures Usage([e] + rest, Part(part)) == (if e.key.Pair? && e.key.first == part then e.nbytes else 0) + Usage(rest, Part(part))
    ensures Usage([], NoPart) == 0 && Usage([e] + rest, NoPart) == (if e.key.Plain? then e.nbytes else 0) + Usage(rest, NoPart)
  {
    TotalOfFront(AllBytes, e, rest);
    TotalOfFront(PinBytes, e, rest);
    TotalOfFront(Pins, e, rest);
    TotalOfFront(PartBytes(Part(part)), e, rest);
    TotalOfFront(PartBytes(NoPart), e, rest);
  }

  // ----- lookups

  /** The entries under other keys are the same. */
  ghost predicate SameElsewhere(a: seq<Item>, b: seq<Item>, key: Key) {
    forall e: Item :: e.key != key ==> (e in a <==> e in b)
  }

  /** A hit counts and stamps the entry, moves it to the front and leaves every other entry. */
  lemma HitCounts(st: State, e: Item, now: nat)
    requires DistinctKeys(st.items) && e in st.items
    ensures var st' := Get(st, e.key, now);
            && |st'.items| == |st.items| && st'.items[0] == e.(freq := e.freq + 1, touched := now)
            && DistinctKeys(st'.items) && SameElsewhere(st.items, st'.items, e.key) && Sublist(st'.items[1..], st.items)
            && st' == st.(items := st'.items, hits := st.hits + 1)
  {
    var j :| 0 <= j < |st.items| && st.items[j] == e;
    IndexOfEntry(st.items, j);
    var items, rest := Get(st, e.key, now).items, Without(st.items, e.key);
    WithoutFacts(st.items, e.key);
    DistinctFront(items[0], rest);
    assert items == [items[0]] + rest && items[1..] == rest;
  }

  /** A lookup of an absent key only counts the miss. */
  lemma MissCounts(st: State, key: Key, now: nat)
    requires forall e :: e in st.items ==> e.key != key
    ensures Get(st, key, now) == st.(misses := st.misses + 1)
  {
    assert forall j :: 0 <= j < |st.items| ==> st.items[j] in st.items;
  }

  // ----- puts

  /** Some entry under the key is pinned, or hot. */
  ghost predicate PinnedUnder(items: seq<Item>, key: Key) {
    exists e :: e in items && e.key == key && e.pinned
  }

  ghost predicate HotUnder(items: seq<Item>, key: Key) {
    exists e :: e in items && e.key == key && e.hot
  }

  lemma FlagsUnder(items: seq<Item>, key: Key)
    requires DistinctKeys(items)
    ensures var i := IndexOf(items, key);
            && (PinnedUnder(items, key) <==> i < |items| && items[i].pinned)
            && (HotUnder(items, key) <==> i < |items| && items[i].hot)
            && (i < |items| <==> exists e :: e in items && e.key == key)
  {
    var i := IndexOf(items, key);
    assert i < |items| ==> items[i] in items;
    OnlyIndex(items, key);
  }

  /** With distinct keys there is one place for a key. */
  lemma OnlyIndex(items: seq<Item>, key: Key)
    requires DistinctKeys(items)
    ensures forall j :: 0 <= j < |items| && items[j].key == key ==> j == IndexOf(items, key)
  {
    forall j | 0 <= j < |items| && items[j].key == key ensures j == IndexOf(items, key) {
      IndexOfEntry(items, j);
    }
  }

  /** The whole entry an accepted put leaves in front, and the counters. */
  lemma PutEntry(st: State, cfg: Config, key: Key, value: Value, nbytes: nat, pin: bool, hot: bool, now: nat)
    requires DistinctKeys(st.items) && Put(st, cfg, key, value, nbytes, pin, hot, now).ok
    ensures var st' := Put(st, cfg, key, value, nbytes, pin, hot, now).st;
            && st'.items != []
            && st'.items[0] == Item(key, value, nbytes, pin || PinnedUnder(st.items, key), hot || HotUnder(st.items, key), 1, now)
            && st'.hits == st.hits && st'.misses == st.misses && st'.rejected == st.rejected
            && st'.evictions + |st'.items| == st.evictions + |Without(st.items, key)| + 1
            && st'.peak >= st.peak && st'.peak >= Bytes(st'.items) && (st'.peak == st.peak || st'.peak == Bytes(st'.items))
  {
    FlagsUnder(st.items, key);
    EvictSublist(Without(st.items, key), cfg, nbytes);
  }

  lemma {:induction false} PinnedOnlyHolds(items: seq<Item>, e: Item)
    ensures e in PinnedOnly(items) <==> e in items && e.pinned
  {
    if items == [] {
    } else {
      PinnedOnlyHolds(items[1..], e);
      assert items == [items[0]] + items[1..];
    }
  }

  /** After a put refused for want of room, exactly the pinned entries under other keys are left. */
  lemma RefusedPutLeaves(st: State, cfg: Config, key: Key, value: Value, nbytes: nat, pin: bool, hot: bool, now: nat, e: Item)
    requires DistinctKeys(st.items) && !Put(st, cfg, key, value, nbytes, pin, hot, now).ok
    ensures var st' := Put(st, cfg, key, value, nbytes, pin, hot, now).st;
            && st' == st.(items := st'.items, rejected := st.rejected + 1)
            && (e in st'.items <==> e in st.items && (nbytes > cfg.maxBytes || (e.pinned && e.key != key)))
  {
    RefusedPutLosesEntries(st, cfg, key, value, nbytes, pin, hot, now);
    PinnedOnlyHolds(Without(st.items, key), e);
    WithoutFacts(st.items, key);
  }

  // ----- flags

  /** Pin and unpin set one flag of the entries under the key, and answer whether it changed. */
  lemma PinSets(st: State, key: Key, pinned: bool)
    requires DistinctKeys(st.items)
    ensures var Outcome(st', ok) := SetPinned(st, key, pinned);
            && st' == st.(items := st'.items) && |st'.items| == |st.items|
            && (forall j :: 0 <= j < |st.items| ==>
                  st'.items[j] == if st.items[j].key == key then st.items[j].(pinned := pinned) else st.items[j])
            && (ok <==> exists e :: e in st.items && e.key == key && e.pinned != pinned)
  {
    var i := IndexOf(st.items, key);
    assert i < |st.items| ==> st.items[i] in st.items;
    OnlyIndex(st.items, key);
  }

  /** mark_hot sets the other flag, and answers whether the key is present. */
  lemma HotSets(st: State, key: Key, hot: bool)
    requires DistinctKeys(st.items)
    ensures var Outcome(st', ok) := MarkHot(st, key, hot);
            && st' == st.(items := st'.items) && |st'.items| == |st.items|
            && (forall j :: 0 <= j < |st.items| ==>
                  st'.items[j] == if st.items[j].key == key then st.items[j].(hot := hot) else st.items[j])
            && (ok <==> exists e :: e in st.items && e.key == key)
  {
    var i := IndexOf(st.items, key);
    assert i < |st.items| ==> st.items[i] in st.items;
    OnlyIndex(st.items, key);
  }

  // ----- victims in integers

  /** A partition is over its share when its bytes times the number of partitions exceed the budget;
      once an unpinned entry of such a partition exists, only such entries are eligible. */
  lemma EligibleExactly(items: seq<Item>, cfg: Config, i: nat)
    requires i < |items|
    ensures Eligible(items, cfg, i) <==>
            !items[i].pinned &&
            (cfg.partitions > 0 && (exists j :: 0 <= j < |items| && !items[j].pinned && Crowded(items, cfg, j))
             ==> Crowded(items, cfg, i))
  {
    if cfg.partitions > 0 {
      forall j | 0 <= j < |items| ensures OverShare(items, cfg, j) <==> !items[j].pinned && Crowded(items, cfg, j) {
        ShareExceeded(Usage(items, Partition(items[j].key)), cfg.maxBytes, cfg.partitions);
      }
    }
  }

  ghost predicate Crowded(items: seq<Item>, cfg: Config, j: nat)
    requires j < |items|
  {
    Usage(items, Partition(items[j].key)) * cfg.partitions > cfg.maxBytes
  }

  lemma ShareExceeded(usage: nat, maxBytes: nat, partitions: nat)
    requires partitions > 0
    ensures usage > maxBytes / partitions <==> usage * partitions > maxBytes
  {
    var q := maxBytes / partitions;
    assert partitions * q <= maxBytes < partitions * q + partitions;
    if usage > q {
      assert usage * partitions == (usage - q - 1) * partitions + partitions * q + partitions;
    } else {
      assert partitions * q == (q - usage) * partitions + usage * partitions;
    }
  }

  /** Uses, with a bonus of four for a hot entry. */
  function Heat(e: Item): nat {
    if e.hot then e.freq + 4 else e.freq
  }

  function Size(e: Item): nat {
    if e.nbytes == 0 then 1 else e.nbytes
  }

  lemma RealProduct(a: nat, b: nat)
    ensures a as real * b as real == (a * b) as real
  {
  }

  lemma Crossed(x: real, y: real, b: real, d: real)
    requires b > 0.0 && d > 0.0
    ensures x < y <==> (x * b) * d < (y * d) * b
    ensures x == y <==> (x * b) * d == (y * d) * b
  {
    assert (x * b) * d == x * (b * d);
    assert (y * d) * b == y * (b * d);
    RealOrder(x, y, b * d);
  }

  lemma QuotientOrder(a: nat, b: nat, c: nat, d: nat)
    requires b > 0 && d > 0
    ensures a as real / b as real < c as real / d as real <==> a * d < c * b
    ensures a as real / b as real == c as real / d as real <==> a * d == c * b
  {
    RealProduct(a, d);
    RealProduct(c, b);
    DividedBack(a as real, b as real);
    DividedBack(c as real, d as real);
    Crossed(a as real / b as real, c as real / d as real, b as real, d as real);
  }

  lemma DividedBack(x: real, y: real)
    requires y > 0.0
    ensures x / y * y == x
  {
  }

  lemma RealOrder(x: real, y: real, m: real)
    requires m > 0.0
    ensures x < y <==> x * m < y * m
    ensures x == y <==> x * m == y * m
  {
    assert (y - x) * m == y * m - x * m;
    if x < y {
      assert (y - x) * m > 0.0;
    } else if y < x {
      assert (x - y) * m > 0.0;
    }
  }

  /** LRU compares times; LFU compares uses, and the adaptive policy heat per byte, here without
      division, with ties to the least recently touched entry. */
  lemma AtMostExactly(policy: Policy, a: Item, b: Item)
    ensures AtMost(policy, a, b) <==>
            if policy.Lru? then a.touched <= b.touched
            else if policy.Lfu? then a.freq < b.freq || (a.freq == b.freq && a.touched <= b.touched)
            else Heat(a) * Size(b) < Heat(b) * Size(a) || (Heat(a) * Size(b) == Heat(b) * Size(a) && a.touched <= b.touched)
  {
    if policy.Adaptive? {
      QuotientOrder(Heat(a), Size(a), Heat(b), Size(b));
    }
  }

  // ----- what an entry owes to the operations on its key

  /** What the operations on a key leave of its entry if it is not evicted: the last value put that
      is no larger than the budget, its bytes, the lookups since, and the time of the last use. */
  datatype Use = Use(value: Value, nbytes: nat, gets: nat, last: nat)

  function NextUse(cfg: Config, op: Op, now: nat, key: Key, before: Option<Use>): Option<Use> {
    match op
    case PutOp(k, value, nbytes, _, _) =>
      if k != key || (cfg.maxBytes > 0 && nbytes > cfg.maxBytes) then before else Some(Use(value, nbytes, 0, now))
    case GetOp(k) =>
      if k != key || before.None? then before
      else Some(before.value.(gets := before.value.gets + 1, last := now))
    case _ => before
  }

  function History(cfg: Config, ops: seq<(Op, nat)>, key: Key): Option<Use> {
    if ops == [] then None
    else
      var (op, now) := ops[|ops| - 1];
      NextUse(cfg, op, now, key, History(cfg, ops[..|ops| - 1], key))
  }

  ghost predicate Owes(e: Item, use: Option<Use>) {
    e.freq >= 1 && use == Some(Use(e.value, e.nbytes, e.freq - 1, e.touched))
  }

  lemma GetOwes(st: State, key: Key, now: nat, e: Item, before: Option<Use>)
    requires DistinctKeys(st.items) && e in Get(st, key, now).items
    requires forall x :: x in st.items && x.key == e.key ==> Owes(x, before)
    ensures Owes(e, if key == e.key && before.Some? then Some(before.value.(gets := before.value.gets + 1, last := now)) else before)
  {
    if x :| x in st.items && x.key == key {
      HitCounts(st, x, now);
      var items := Get(st, key, now).items;
      if e.key == key {
        var j :| 0 <= j < |items| && items[j] == e;
        IndexOfEntry(items, j);
        IndexOfEntry(items, 0);
        assert e == x.(freq := x.freq + 1, touched := now);
      }
    } else {
      MissCounts(st, key, now);
      assert e.key == key ==> false;
    }
  }

  lemma PutOwes(st: State, cfg: Config, key: Key, value: Value, nbytes: nat, pin: bool, hot: bool, now: nat, e: Item, before: Option<Use>)
    requires DistinctKeys(st.items) && e in Put(st, cfg, key, value, nbytes, pin, hot, now).st.items
    requires forall x :: x in st.items && x.key == e.key ==> Owes(x, before)
    ensures Owes(e, NextUse(cfg, PutOp(key, value, nbytes, pin, hot), now, e.key, before))
  {
    var Outcome(st', ok) := Put(st, cfg, key, value, nbytes, pin, hot, now);
    if ok {
      AcceptedPut(st, cfg, key, value, nbytes, pin, hot, now);
      PutEntry(st, cfg, key, value, nbytes, pin, hot, now);
      PutRefusedExactly(st, cfg, key, value, nbytes, pin, hot, now);
      WithoutFacts(st.items, key);
      SublistKeeps(st'.items[1..], Without(st.items, key));
      assert st'.items == [st'.items[0]] + st'.items[1..];
    } else {
      RefusedPutLeaves(st, cfg, key, value, nbytes, pin, hot, now, e);
    }
  }

  lemma OpOwes(st: State, cfg: Config, op: Op, now: nat, e: Item, before: Option<Use>)
    requires DistinctKeys(st.items) && e in Apply(st, cfg, op, now).items
    requires forall x :: x in st.items && x.key == e.key ==> Owes(x, before)
    ensures Owes(e, NextUse(cfg, op, now, e.key, before))
  {
    match op
    case GetOp(key) => GetOwes(st, key, now, e, before);
    case PutOp(key, value, nbytes, pin, hot) => PutOwes(st, cfg, key, value, nbytes, pin, hot, now, e, before);
    case PinOp(key, pinned) =>
      PinSets(st, key, pinned);
      FlaggedOwes(st.items, Apply(st, cfg, op, now).items, e, before);
    case HotOp(key, hot) =>
      HotSets(st, key, hot);
      FlaggedOwes(st.items, Apply(st, cfg, op, now).items, e, before);
  }

  lemma FlaggedOwes(items: seq<Item>, items': seq<Item>, e: Item, before: Option<Use>)
    requires |items'| == |items| && e in items'
    requires forall j :: 0 <= j < |items| ==> items'[j] == items[j].(pinned := items'[j].pinned, hot := items'[j].hot)
    requires forall x :: x in items && x.key == e.key ==> Owes(x, before)
    ensures Owes(e, before)
  {
    var j :| 0 <= j < |items'| && items'[j] == e;
    assert items[j] in items;
  }

  lemma ApplyKeepsDistinct(st: State, cfg: Config, op: Op, now: nat)
    requires DistinctKeys(st.items)
    ensures DistinctKeys(Apply(st, cfg, op, now).items)
  {
    match op
    case GetOp(key) =>
      if x :| x in st.items && x.key == key {
        HitCounts(st, x, now);
      } else {
        MissCounts(st, key, now);
      }
    case PutOp(key, value, nbytes, pin, hot) =>
      if Put(st, cfg, key, value, nbytes, pin, hot, now).ok {
        AcceptedPut(st, cfg, key, value, nbytes, pin, hot, now);
      } else {
        RefusedPutLosesEntries(st, cfg, key, value, nbytes, pin, hot, now);
        WithoutFacts(st.items, key);
        EvictSublist(Without(st.items, key), cfg, nbytes);
        SublistKeeps(Evict(Without(st.items, key), cfg, nbytes).items, Without(st.items, key));
      }
    case PinOp(key, pinned) => PinSets(st, key, pinned);
    case HotOp(key, hot) => HotSets(st, key, hot);
  }

  lemma {:induction false} RunLast(st: State, cfg: Config, ops: seq<(Op, nat)>)
    requires ops != []
    ensures var (op, now) := ops[|ops| - 1];
            Run(st, cfg, ops) == Apply(Run(st, cfg, ops[..|ops| - 1]), cfg, op, now)
    decreases |ops|
  {
    if |ops| == 1 {
      assert ops[1..] == [] && ops[..0] == [];
    } else {
      var front := ops[..|ops| - 1];
      RunLast(Apply(st, cfg, ops[0].0, ops[0].1), cfg, ops[1..]);
      assert ops[1..][..|ops| - 2] == front[1..] && front[0] == ops[0];
    }
  }

  /** In every run each entry is what the operations on its own key make of it: its value and bytes
      are those of the last put that fits the budget, its count is one plus the lookups since, and
      its stamp is the time of the last of these. */
  lemma {:induction false} EveryEntryOwes(cfg: Config, ops: seq<(Op, nat)>, e: Item)
    requires e in Run(Initial(), cfg, ops).items
    ensures Owes(e, History(cfg, ops, e.key))
    decreases |ops|
  {
    if ops == [] {
    } else {
      var (op, now) := ops[|ops| - 1];
      var front := ops[..|ops| - 1];
      var st := Run(Initial(), cfg, front);
      RunLast(Initial(), cfg, ops);
      EveryRunDistinct(cfg, front);
      forall x | x in st.items && x.key == e.key ensures Owes(x, History(cfg, front, e.key)) {
        EveryEntryOwes(cfg, front, x);
      }
      OpOwes(st, cfg, op, now, e, History(cfg, front, e.key));
    }
  }

  lemma {:induction false} EveryRunDistinct(cfg: Config, ops: seq<(Op, nat)>)
    ensures DistinctKeys(Run(Initial(), cfg, ops).items)
    decreases |ops|
  {
    if ops == [] {
    } else {
      RunLast(Initial(), cfg, ops);
      EveryRunDistinct(cfg, ops[..|ops| - 1]);
      ApplyKeepsDistinct(Run(Initial(), cfg, ops[..|ops| - 1]), cfg, ops[|ops| - 1].0, ops[|ops| - 1].1);
    }
  }
}
