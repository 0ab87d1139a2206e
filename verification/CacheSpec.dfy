/** The byte-budgeted cache of c/src/cache.c on values: the recency list as a sequence of
    items, most recent first. `Cache.Store` refines these functions on the heap. */
module CacheSpec {
  import opened Options

  /** The cached pointers; the cache never looks through them. */
  type Value = int

  datatype Policy = Lru | Lfu | Adaptive

  /** partitions <= 0 switches partition fairness off, maxBytes == 0 the budget. */
  datatype Config = Config(maxBytes: nat, policy: Policy, partitions: int)

  /** A partitioned key: the halves of a C key, or a Python tuple; a plain Python key has no
      partition. */
  datatype Key = Pair(first: int, second: int) | Plain(id: int)

  datatype Part = Part(first: int) | NoPart

  datatype Item = Item(key: Key, value: Value, nbytes: nat, pinned: bool, hot: bool, freq: nat, touched: nat)

  datatype State = State(items: seq<Item>, peak: nat, hits: nat, misses: nat, evictions: nat, rejected: nat)

  // ----- sums over the list

  /** What is added up over a list. */
  datatype Measure = AllBytes | PinBytes | Pins | PartBytes(part: Part)

  function Partition(key: Key): Part {
    if key.Pair? then Part(key.first) else NoPart
  }

  function Weigh(m: Measure, e: Item): nat {
    match m
    case AllBytes => e.nbytes
    case PinBytes => if e.pinned then e.nbytes else 0
    case Pins => if e.pinned then 1 else 0
    case PartBytes(part) => if Partition(e.key) == part then e.nbytes else 0
  }

  function Total(m: Measure, items: seq<Item>, n: nat): nat
    requires n <= |items|
    decreases |items| - n
  {
    if n == |items| then 0 else Weigh(m, items[n]) + Total(m, items, n + 1)
  }

  function Bytes(items: seq<Item>): nat {
    Total(AllBytes, items, 0)
  }

  function PinnedBytes(items: seq<Item>): nat {
    Total(PinBytes, items, 0)
  }

  function PinnedCount(items: seq<Item>): nat {
    Total(Pins, items, 0)
  }

  function Usage(items: seq<Item>, part: Part): nat {
    Total(PartBytes(part), items, 0)
  }

  /** A list without its entry i. */
  function Drop<T>(s: seq<T>, i: nat): (r: seq<T>)
    requires i < |s|
    ensures |r| == |s| - 1
  {
    seq(|s| - 1, j requires 0 <= j < |s| - 1 => s[if j < i then j else j + 1])
  }

  lemma DropTail<T>(s: seq<T>, i: nat)
    requires i < |s|
    ensures if i == 0 then Drop(s, i) == s[1..] else Drop(s, i)[0] == s[0] && Drop(s, i)[1..] == Drop(s[1..], i - 1)
  {
  }

  ghost predicate DistinctKeys(items: seq<Item>) {
    forall i, j :: 0 <= i < j < |items| ==> items[i].key != items[j].key
  }

  /** The index of a key in items[n..], or |items|. */
  function IndexFrom(items: seq<Item>, key: Key, n: nat): (i: nat)
    requires n <= |items|
    ensures n <= i <= |items| && (i < |items| ==> items[i].key == key)
    decreases |items| - n
  {
    if n == |items| || items[n].key == key then n else IndexFrom(items, key, n + 1)
  }

  function IndexOf(items: seq<Item>, key: Key): (i: nat)
    ensures i <= |items| && (i < |items| ==> items[i].key == key)
  {
    IndexFrom(items, key, 0)
  }

  lemma {:induction false} IndexIsFirst(items: seq<Item>, key: Key, n: nat, j: nat)
    requires n <= j < |items| && items[j].key == key
    ensures IndexFrom(items, key, n) <= j
    decreases j - n
  {
    if n == j {
    } else {
      IndexIsFirst(items, key, n + 1, j);
    }
  }

  /** With distinct keys an entry is found where it is. */
  lemma IndexOfEntry(items: seq<Item>, j: nat)
    requires DistinctKeys(items) && j < |items|
    ensures IndexOf(items, items[j].key) == j
  {
    IndexIsFirst(items, items[j].key, 0, j);
  }

  lemma {:induction false} TotalCompare(m: Measure, a: seq<Item>, i: nat, w: Measure, b: seq<Item>, j: nat)
    requires i <= |a| && j <= |b| && |a| - i == |b| - j
    requires forall k :: i <= k < |a| ==> Weigh(m, a[k]) <= Weigh(w, b[k - i + j])
    ensures Total(m, a, i) <= Total(w, b, j)
    decreases |a| - i
  {
    if i == |a| {
    } else {
      assert Weigh(m, a[i]) <= Weigh(w, b[i - i + j]);
      TotalCompare(m, a, i + 1, w, b, j + 1);
    }
  }

  lemma TotalAgrees(m: Measure, a: seq<Item>, i: nat, b: seq<Item>, j: nat)
    requires i <= |a| && j <= |b| && |a| - i == |b| - j
    requires forall k :: i <= k < |a| ==> Weigh(m, a[k]) == Weigh(m, b[k - i + j])
    ensures Total(m, a, i) == Total(m, b, j)
  {
    TotalCompare(m, a, i, m, b, j);
    forall k | j <= k < |b| ensures Weigh(m, b[k]) <= Weigh(m, a[k - j + i]) {
      assert Weigh(m, a[k - j + i]) == Weigh(m, b[k - j + i - i + j]);
    }
    TotalCompare(m, b, j, m, a, i);
  }

  lemma {:induction false} TotalOfDrop(m: Measure, items: seq<Item>, i: nat, n: nat)
    requires n <= i < |items|
    ensures Total(m, items, n) == Total(m, Drop(items, i), n) + Weigh(m, items[i])
    decreases i - n
  {
    if n < i {
      TotalOfDrop(m, items, i, n + 1);
    } else {
      TotalAgrees(m, items, i + 1, Drop(items, i), i);
    }
  }

  lemma TotalOfFront(m: Measure, e: Item, rest: seq<Item>)
    ensures Total(m, [e] + rest, 0) == Weigh(m, e) + Total(m, rest, 0)
  {
    TotalAgrees(m, [e] + rest, 1, rest, 0);
  }

  lemma {:induction false} TotalOfUpdate(m: Measure, items: seq<Item>, i: nat, e: Item, n: nat)
    requires n <= i < |items|
    ensures Total(m, items[i := e], n) + Weigh(m, items[i]) == Total(m, items, n) + Weigh(m, e)
    decreases i - n
  {
    if n < i {
      TotalOfUpdate(m, items, i, e, n + 1);
    } else {
      TotalAgrees(m, items, i + 1, items[i := e], i + 1);
    }
  }

  lemma SumsOfDrop(items: seq<Item>, i: nat)
    requires i < |items|
    ensures Bytes(items) == Bytes(Drop(items, i)) + items[i].nbytes
    ensures PinnedBytes(items) == PinnedBytes(Drop(items, i)) + (if items[i].pinned then items[i].nbytes else 0)
    ensures PinnedCount(items) == PinnedCount(Drop(items, i)) + (if items[i].pinned then 1 else 0)
  {
    TotalOfDrop(AllBytes, items, i, 0);
    TotalOfDrop(PinBytes, items, i, 0);
    TotalOfDrop(Pins, items, i, 0);
  }

  lemma SumsOfFront(e: Item, rest: seq<Item>)
    ensures Bytes([e] + rest) == e.nbytes + Bytes(rest)
    ensures PinnedCount([e] + rest) == (if e.pinned then 1 else 0) + PinnedCount(rest)
  {
    TotalOfFront(AllBytes, e, rest);
    TotalOfFront(Pins, e, rest);
  }

  /** The list after a hit on entry i: counted, stamped and moved to the front. */
  function Touch(items: seq<Item>, i: nat, now: nat): seq<Item>
    requires i < |items|
  {
    [items[i].(freq := items[i].freq + 1, touched := now)] + Drop(items, i)
  }

  lemma TouchedPlace(items: seq<Item>, i: nat, now: nat, j: nat)
    requires i < |items| && 0 < j < |items|
    ensures Touch(items, i, now)[j] == items[if j - 1 < i then j - 1 else j]
  {
  }

  lemma SumsOfTouch(items: seq<Item>, i: nat, now: nat)
    requires i < |items|
    ensures Bytes(Touch(items, i, now)) == Bytes(items)
    ensures PinnedCount(Touch(items, i, now)) == PinnedCount(items)
  {
    SumsOfDrop(items, i);
    SumsOfFront(items[i].(freq := items[i].freq + 1, touched := now), Drop(items, i));
  }

  /** Changing the flags of one entry. */
  lemma SumsOfFlag(items: seq<Item>, i: nat, pinned: bool, hot: bool)
    requires i < |items|
    ensures var t := items[i := items[i].(pinned := pinned, hot := hot)];
            && Bytes(t) == Bytes(items)
            && PinnedCount(t) + (if items[i].pinned then 1 else 0) == PinnedCount(items) + (if pinned then 1 else 0)
  {
    TotalOfUpdate(AllBytes, items, i, items[i].(pinned := pinned, hot := hot), 0);
    TotalOfUpdate(Pins, items, i, items[i].(pinned := pinned, hot := hot), 0);
  }

  // ----- choosing a victim

  function Fair(cfg: Config): nat {
    if cfg.partitions > 0 then cfg.maxBytes / cfg.partitions else 0
  }

  /** Entry i may be evicted as far as pins and its partition's share go. */
  predicate OverShare(items: seq<Item>, cfg: Config, i: nat)
    requires i < |items|
  {
    !items[i].pinned && Usage(items, Partition(items[i].key)) > Fair(cfg)
  }

  predicate AnyOver(items: seq<Item>, cfg: Config) {
    cfg.partitions > 0 && exists i :: 0 <= i < |items| && OverShare(items, cfg, i)
  }

  predicate Eligible(items: seq<Item>, cfg: Config, i: nat)
    requires i < |items|
  {
    !items[i].pinned && (AnyOver(items, cfg) ==> OverShare(items, cfg, i))
  }

  function Score(policy: Policy, e: Item): real {
    match policy
    case Lru => 0.0
    case Lfu => e.freq as real
    case Adaptive => (e.freq + (if e.hot then 4 else 0)) as real / (if e.nbytes != 0 then e.nbytes else 1) as real
  }

  datatype Best = NoBest | Best(at: nat, score: real, touched: nat)

  predicate Better(policy: Policy, best: Best, e: Item) {
    best.NoBest? ||
    if policy.Lru? then e.touched < best.touched
    else Score(policy, e) < best.score || (Score(policy, e) == best.score && e.touched < best.touched)
  }

  /** One round of the scan, for the entry at i. A cold entry that displaces a hot one is
      recorded with score 0, as the source does. */
  function Consider(items: seq<Item>, cfg: Config, i: nat, best: Best): Best
    requires i < |items| && (best.Best? ==> best.at < |items|)
  {
    var e := items[i];
    if !Eligible(items, cfg, i) then best
    else if best.Best? && !e.hot && items[best.at].hot then Best(i, 0.0, e.touched)
    else if best.Best? && e.hot && !items[best.at].hot then best
    else if Better(cfg.policy, best, e) then Best(i, Score(cfg.policy, e), e.touched)
    else best
  }

  /** The best entry after the scan from the tail has visited items[n..]. */
  function Scan(items: seq<Item>, cfg: Config, n: nat): (best: Best)
    requires n <= |items|
    ensures best.Best? ==> n <= best.at < |items| && Eligible(items, cfg, best.at)
    ensures best.Best? ==> best.touched == items[best.at].touched
    decreases |items| - n
  {
    if n == |items| then NoBest else Consider(items, cfg, n, Scan(items, cfg, n + 1))
  }

  function Victim(items: seq<Item>, cfg: Config): (r: Option<nat>)
    ensures r.Some? ==> r.value < |items| && Eligible(items, cfg, r.value)
  {
    var best := Scan(items, cfg, 0);
    if best.Best? then Some(best.at) else None
  }

  lemma {:induction false} ScanFinds(items: seq<Item>, cfg: Config, n: nat)
    requires n <= |items|
    ensures Scan(items, cfg, n).NoBest? ==> forall i :: n <= i < |items| ==> !Eligible(items, cfg, i)
    ensures Scan(items, cfg, n).Best? && items[Scan(items, cfg, n).at].hot
            ==> forall i :: n <= i < |items| && Eligible(items, cfg, i) ==> items[i].hot
    decreases |items| - n
  {
    if n == |items| {
    } else {
      ScanFinds(items, cfg, n + 1);
    }
  }

  /** The fairness and heat filters never empty a set with an unpinned entry, and a hot
      entry goes only when every eligible entry is hot. */
  lemma VictimExists(items: seq<Item>, cfg: Config)
    ensures Victim(items, cfg).None? <==> forall i :: 0 <= i < |items| ==> items[i].pinned
    ensures Victim(items, cfg).Some? && items[Victim(items, cfg).value].hot
            ==> forall i :: 0 <= i < |items| && Eligible(items, cfg, i) ==> items[i].hot
  {
    ScanFinds(items, cfg, 0);
    if AnyOver(items, cfg) {
      var i :| 0 <= i < |items| && OverShare(items, cfg, i);
      assert Eligible(items, cfg, i);
    } else {
      assert forall i :: 0 <= i < |items| && !items[i].pinned ==> Eligible(items, cfg, i);
    }
  }

  lemma {:induction false} LruScan(items: seq<Item>, cfg: Config, n: nat, i: nat)
    requires n <= i < |items| && cfg.policy.Lru? && Eligible(items, cfg, i)
    ensures var best := Scan(items, cfg, n);
            best.Best? && (items[best.at].hot == items[i].hot ==>
              items[best.at].touched < items[i].touched
              || (items[best.at].touched == items[i].touched && i <= best.at))
    decreases |items| - n
  {
    if i == n {
      var best := Scan(items, cfg, n + 1);
    } else {
      LruScan(items, cfg, n + 1, i);
      ScanFinds(items, cfg, n + 1);
    }
  }

  /** Under LRU the victim is the least recently touched entry of its heat class, the one
      nearest the tail on a tie. */
  lemma LruVictim(items: seq<Item>, cfg: Config, i: nat)
    requires i < |items| && cfg.policy.Lru? && Eligible(items, cfg, i)
    ensures Victim(items, cfg).Some?
    ensures var v := Victim(items, cfg).value;
            items[v].hot == items[i].hot ==>
              items[v].touched < items[i].touched || (items[v].touched == items[i].touched && i <= v)
  {
    LruScan(items, cfg, 0, i);
  }

  /** The recency list is ordered by last touch. */
  ghost predicate SortedByTouch(items: seq<Item>) {
    forall i, j :: 0 <= i < j < |items| ==> items[i].touched >= items[j].touched
  }

  /** Without partitions an LRU scan of a recency list takes the cold unpinned entry nearest
      the tail, or the unpinned entry nearest the tail when none is cold. */
  lemma LruVictimNearestTail(items: seq<Item>, cfg: Config, i: nat)
    requires cfg.policy.Lru? && cfg.partitions <= 0 && SortedByTouch(items)
    requires i < |items| && !items[i].pinned
    ensures Victim(items, cfg).Some?
    ensures var v := Victim(items, cfg).value;
            !items[v].pinned &&
            (items[v].hot == items[i].hot ==> i <= v) && (items[v].hot ==> items[i].hot)
  {
    assert Eligible(items, cfg, i);
    LruVictim(items, cfg, i);
    VictimExists(items, cfg);
  }

  // ----- LFU and adaptive scores: when the victim has the minimal score

  /** t is the first eligible entry the scan meets. */
  ghost predicate MetFirst(items: seq<Item>, cfg: Config, t: nat) {
    t < |items| && Eligible(items, cfg, t) && forall i :: t < i < |items| ==> !Eligible(items, cfg, i)
  }

  /** The scan meets a hot entry first and a cold one later: the recorded score is reset. */
  ghost predicate ScoreReset(items: seq<Item>, cfg: Config, n: nat, t: nat)
    requires t < |items|
  {
    items[t].hot && exists i :: n <= i < t && Eligible(items, cfg, i) && !items[i].hot
  }

  predicate AtMost(policy: Policy, a: Item, b: Item) {
    Score(policy, a) < Score(policy, b) || (Score(policy, a) == Score(policy, b) && a.touched <= b.touched)
  }

  ghost predicate Used(items: seq<Item>) {
    forall i :: 0 <= i < |items| ==> items[i].freq > 0
  }

  lemma PositiveScore(policy: Policy, e: Item)
    requires !policy.Lru? && e.freq > 0
    ensures Score(policy, e) > 0.0
  {
  }

  lemma {:induction false} ScoreScan(items: seq<Item>, cfg: Config, n: nat, t: nat)
    requires n <= t && MetFirst(items, cfg, t) && !cfg.policy.Lru? && !ScoreReset(items, cfg, n, t)
    ensures var best := Scan(items, cfg, n);
            best.Best? && best.score == Score(cfg.policy, items[best.at])
            && (items[t].hot ==> items[best.at].hot) && (items[best.at].hot ==> items[t].hot)
            && forall i :: n <= i < |items| && Eligible(items, cfg, i) && items[i].hot == items[best.at].hot
                 ==> AtMost(cfg.policy, items[best.at], items[i])
    decreases t - n
  {
    if n < t {
      ScoreScan(items, cfg, n + 1, t);
    } else {
      ScanFinds(items, cfg, n + 1);
      assert Scan(items, cfg, n + 1).NoBest?;
    }
  }

  lemma {:induction false} ResetScan(items: seq<Item>, cfg: Config, n: nat, t: nat)
    requires n <= t && MetFirst(items, cfg, t) && !cfg.policy.Lru? && Used(items) && ScoreReset(items, cfg, n, t)
    ensures var best := Scan(items, cfg, n);
            best.Best? && best.score == 0.0 && !items[best.at].hot
            && forall i :: n <= i < |items| && Eligible(items, cfg, i) && !items[i].hot ==> i <= best.at
    decreases t - n
  {
    assert n < t;
    PositiveScore(cfg.policy, items[n]);
    if ScoreReset(items, cfg, n + 1, t) {
      ResetScan(items, cfg, n + 1, t);
    } else {
      ScoreScan(items, cfg, n + 1, t);
    }
  }

  /** Unless the scan meets a hot entry before a cold one, the victim has the least score of
      its heat class, the least recently touched one on equal scores. */
  lemma ScoredVictim(items: seq<Item>, cfg: Config, t: nat, i: nat)
    requires !cfg.policy.Lru? && MetFirst(items, cfg, t) && !ScoreReset(items, cfg, 0, t)
    requires i < |items| && Eligible(items, cfg, i)
    ensures Victim(items, cfg).Some?
    ensures var v := Victim(items, cfg).value;
            items[v].hot == items[i].hot ==> AtMost(cfg.policy, items[v], items[i])
  {
    ScoreScan(items, cfg, 0, t);
  }

  /** Otherwise the scores no longer matter: the victim is the cold entry nearest the tail. */
  lemma ResetVictim(items: seq<Item>, cfg: Config, t: nat, i: nat)
    requires !cfg.policy.Lru? && Used(items) && MetFirst(items, cfg, t) && ScoreReset(items, cfg, 0, t)
    requires i < |items| && Eligible(items, cfg, i)
    ensures Victim(items, cfg).Some?
    ensures !items[Victim(items, cfg).value].hot && (!items[i].hot ==> i <= Victim(items, cfg).value)
  {
    ResetScan(items, cfg, 0, t);
  }

  /** Entry v is AtMost every eligible entry of its heat class. */
  ghost predicate LeastOfClass(items: seq<Item>, cfg: Config, v: nat)
    requires v < |items|
  {
    forall i :: 0 <= i < |items| && Eligible(items, cfg, i) && items[i].hot == items[v].hot
      ==> AtMost(cfg.policy, items[v], items[i])
  }

  /** c is the cold eligible entry nearest the tail. */
  ghost predicate ColdNearestTail(items: seq<Item>, cfg: Config, c: nat) {
    c < |items| && Eligible(items, cfg, c) && !items[c].hot
    && forall i :: c < i < |items| && Eligible(items, cfg, i) ==> items[i].hot
  }

  /** Exactly when the victim has the least score of its heat class: when the scan does not
      meet a hot entry before a cold one, or when the cold entry nearest the tail happens to
      have the least score of the cold ones. */
  lemma LeastScoreExactly(items: seq<Item>, cfg: Config, t: nat)
    requires !cfg.policy.Lru? && Used(items) && MetFirst(items, cfg, t)
    ensures Victim(items, cfg).Some?
    ensures LeastOfClass(items, cfg, Victim(items, cfg).value) <==>
            !ScoreReset(items, cfg, 0, t)
            || exists c :: ColdNearestTail(items, cfg, c) && LeastOfClass(items, cfg, c)
  {
    if ScoreReset(items, cfg, 0, t) {
      ResetVictim(items, cfg, t, t);
      var v := Victim(items, cfg).value;
      forall i | 0 <= i < |items| && Eligible(items, cfg, i) ensures !items[i].hot ==> i <= v {
        ResetVictim(items, cfg, t, i);
      }
      assert ColdNearestTail(items, cfg, v);
      assert forall c :: ColdNearestTail(items, cfg, c) ==> c == v;
    } else {
      ScoreScan(items, cfg, 0, t);
    }
  }

  /** Hence LFU does not always evict the least frequently used cold entry. */
  lemma LfuVictimNotLeastFrequent()
    ensures var items := [Item(Pair(0, 1), 0, 1, false, false, 1, 3), Item(Pair(0, 2), 0, 1, false, false, 7, 2), Item(Pair(0, 3), 0, 1, false, true, 9, 1)];
            Victim(items, Config(3, Lfu, 0)) == Some(1) && items[0].freq < items[1].freq
  {
    var items := [Item(Pair(0, 1), 0, 1, false, false, 1, 3), Item(Pair(0, 2), 0, 1, false, false, 7, 2), Item(Pair(0, 3), 0, 1, false, true, 9, 1)];
    var cfg := Config(3, Lfu, 0);
    assert ScoreReset(items, cfg, 0, 2) by {
      assert Eligible(items, cfg, 1);
    }
    ResetVictim(items, cfg, 2, 1);
    ResetVictim(items, cfg, 2, 0);
  }

  // ----- eviction

  datatype Eviction = Eviction(ok: bool, items: seq<Item>, count: nat)

  predicate Fits(items: seq<Item>, cfg: Config, nbytes: nat) {
    cfg.maxBytes == 0 || Bytes(items) + nbytes <= cfg.maxBytes
  }

  /** The eviction loop of cache_put. */
  function Evict(items: seq<Item>, cfg: Config, nbytes: nat): Eviction
    decreases |items|
  {
    if Fits(items, cfg, nbytes) then Eviction(true, items, 0)
    else
      match Victim(items, cfg)
      case None => Eviction(false, items, 0)
      case Some(v) =>
        var r := Evict(Drop(items, v), cfg, nbytes);
        Eviction(r.ok, r.items, r.count + 1)
  }

  function PinnedOnly(items: seq<Item>): seq<Item> {
    if items == [] then []
    else if items[0].pinned then [items[0]] + PinnedOnly(items[1..])
    else PinnedOnly(items[1..])
  }

  lemma {:induction false} PinnedOnlyDrop(items: seq<Item>, i: nat)
    requires i < |items| && !items[i].pinned
    ensures PinnedOnly(Drop(items, i)) == PinnedOnly(items)
  {
    DropTail(items, i);
    if i == 0 {
    } else {
      PinnedOnlyDrop(items[1..], i - 1);
    }
  }

  lemma {:induction false} AllPinned(items: seq<Item>)
    requires forall i :: 0 <= i < |items| ==> items[i].pinned
    ensures PinnedOnly(items) == items
  {
    if items == [] {
    } else {
      AllPinned(items[1..]);
    }
  }

  lemma {:induction false} PinnedOnlyShorter(items: seq<Item>)
    ensures |PinnedOnly(items)| <= |items|
    ensures |PinnedOnly(items)| == |items| ==> forall i :: 0 <= i < |items| ==> items[i].pinned
  {
    if items == [] {
    } else {
      PinnedOnlyShorter(items[1..]);
      assert forall i :: 0 < i < |items| ==> items[i] == items[1..][i - 1];
    }
  }

  lemma PinnedBytesAtMost(items: seq<Item>)
    ensures PinnedBytes(items) <= Bytes(items)
    ensures (forall i :: 0 <= i < |items| ==> items[i].pinned) ==> PinnedBytes(items) == Bytes(items)
  {
    TotalCompare(PinBytes, items, 0, AllBytes, items, 0);
    if forall i :: 0 <= i < |items| ==> items[i].pinned {
      TotalCompare(AllBytes, items, 0, PinBytes, items, 0);
    }
  }

  /** Room is found exactly when the pinned entries leave it; when it is not, exactly the
      pinned entries are left. */
  lemma {:induction false} EvictFindsRoom(items: seq<Item>, cfg: Config, nbytes: nat)
    ensures var r := Evict(items, cfg, nbytes);
            && (r.ok <==> cfg.maxBytes == 0 || PinnedBytes(items) + nbytes <= cfg.maxBytes)
            && (r.ok ==> Fits(r.items, cfg, nbytes))
            && (!r.ok ==> r.items == PinnedOnly(items))
    decreases |items|
  {
    PinnedBytesAtMost(items);
    if !Fits(items, cfg, nbytes) {
      VictimExists(items, cfg);
      match Victim(items, cfg) {
        case None =>
          AllPinned(items);
        case Some(v) =>
          SumsOfDrop(items, v);
          PinnedOnlyDrop(items, v);
          EvictFindsRoom(Drop(items, v), cfg, nbytes);
      }
    }
  }

  /** b is a with some items left out. */
  ghost predicate Sublist(b: seq<Item>, a: seq<Item>)
    decreases |a|
  {
    if a == [] then b == []
    else Sublist(b, a[1..]) || (b != [] && b[0] == a[0] && Sublist(b[1..], a[1..]))
  }

  lemma {:induction false} SublistRefl(a: seq<Item>)
    ensures Sublist(a, a)
  {
    if a == [] {
    } else {
      SublistRefl(a[1..]);
    }
  }

  lemma {:induction false} SublistTrans(c: seq<Item>, b: seq<Item>, a: seq<Item>)
    requires Sublist(c, b) && Sublist(b, a)
    ensures Sublist(c, a)
    decreases |a|
  {
    if a == [] {
    } else {
      if Sublist(b, a[1..]) {
        SublistTrans(c, b, a[1..]);
      } else if Sublist(c, b[1..]) {
        SublistTrans(c, b[1..], a[1..]);
      } else {
        SublistTrans(c[1..], b[1..], a[1..]);
      }
    }
  }

  lemma {:induction false} DropSublist(a: seq<Item>, i: nat)
    requires i < |a|
    ensures Sublist(Drop(a, i), a)
  {
    if i == 0 {
      assert Drop(a, 0) == a[1..];
      SublistRefl(a[1..]);
    } else {
      assert Drop(a, i)[1..] == Drop(a[1..], i - 1);
      DropSublist(a[1..], i - 1);
    }
  }

  lemma {:induction false} SublistKeeps(b: seq<Item>, a: seq<Item>)
    requires Sublist(b, a)
    ensures forall e :: e in b ==> e in a
    ensures DistinctKeys(a) ==> DistinctKeys(b)
    ensures SortedByTouch(a) ==> SortedByTouch(b)
    decreases |a|
  {
    if a == [] {
    } else {
      if Sublist(b, a[1..]) {
        SublistKeeps(b, a[1..]);
      } else {
        SublistKeeps(b[1..], a[1..]);
        forall i | 0 < i < |b| ensures b[i] in a[1..] {
          assert b[i] == b[1..][i - 1];
        }
      }
    }
  }

  lemma DropKeepsOthers(items: seq<Item>, i: nat)
    requires i < |items|
    ensures forall e :: e in items && e != items[i] ==> e in Drop(items, i)
  {
    forall e | e in items && e != items[i] ensures e in Drop(items, i) {
      var j :| 0 <= j < |items| && items[j] == e;
      assert Drop(items, i)[if j < i then j else j - 1] == e;
    }
  }

  lemma {:induction false} EvictSublist(items: seq<Item>, cfg: Config, nbytes: nat)
    ensures var r := Evict(items, cfg, nbytes);
            Sublist(r.items, items) && |r.items| + r.count == |items|
    ensures forall e :: e in items && e.pinned ==> e in Evict(items, cfg, nbytes).items
    decreases |items|
  {
    SublistRefl(items);
    if !Fits(items, cfg, nbytes) && Victim(items, cfg).Some? {
      var v := Victim(items, cfg).value;
      DropSublist(items, v);
      EvictSublist(Drop(items, v), cfg, nbytes);
      DropKeepsOthers(items, v);
      SublistTrans(Evict(items, cfg, nbytes).items, Drop(items, v), items);
    }
  }

  /** No eviction is idle: with the last victim back the new entry would not fit. */
  lemma {:induction false} EvictsOnlyWhenNeeded(items: seq<Item>, cfg: Config, nbytes: nat) returns (last: Item)
    requires Evict(items, cfg, nbytes).count > 0
    ensures last in items && !last.pinned
    ensures Bytes(Evict(items, cfg, nbytes).items) + last.nbytes + nbytes > cfg.maxBytes > 0
    decreases |items|
  {
    var v := Victim(items, cfg).value;
    SumsOfDrop(items, v);
    if Evict(Drop(items, v), cfg, nbytes).count == 0 {
      last := items[v];
    } else {
      last := EvictsOnlyWhenNeeded(Drop(items, v), cfg, nbytes);
    }
  }

  // ----- operations

  /** The new state and what the operation returned. */
  datatype Outcome = Outcome(st: State, ok: bool)

  function Without(items: seq<Item>, key: Key): seq<Item> {
    var i := IndexOf(items, key);
    if i < |items| then Drop(items, i) else items
  }

  function Max(a: nat, b: nat): nat {
    if a < b then b else a
  }

  /** cache_peek: the value of a key. */
  function Peek(items: seq<Item>, key: Key): Option<Value> {
    var i := IndexOf(items, key);
    if i < |items| then Some(items[i].value) else None
  }

  /** cache_get: a hit is counted, touched and moved to the front. */
  function Get(st: State, key: Key, now: nat): State {
    var i := IndexOf(st.items, key);
    if i == |st.items| then st.(misses := st.misses + 1)
    else st.(items := Touch(st.items, i, now), hits := st.hits + 1)
  }

  /** cache_put: whether the entry was inserted, and the new state. */
  function Put(st: State, cfg: Config, key: Key, value: Value, nbytes: nat, pin: bool, hot: bool, now: nat)
    : Outcome
  {
    if cfg.maxBytes > 0 && nbytes > cfg.maxBytes then Outcome(st.(rejected := st.rejected + 1), false)
    else
      var i := IndexOf(st.items, key);
      var found := i < |st.items|;
      var ev := Evict(Without(st.items, key), cfg, nbytes);
      if !ev.ok then Outcome(st.(items := ev.items, rejected := st.rejected + 1), false)
      else
        var e := Item(key, value, nbytes, pin || (found && st.items[i].pinned), hot || (found && st.items[i].hot), 1, now);
        var items := [e] + ev.items;
        Outcome(st.(items := items, peak := Max(st.peak, Bytes(items)), evictions := st.evictions + ev.count), true)
  }

  /** cache_pin and cache_unpin: true when the flag changes. */
  function SetPinned(st: State, key: Key, pinned: bool): Outcome {
    var i := IndexOf(st.items, key);
    if i < |st.items| && st.items[i].pinned != pinned
    then Outcome(st.(items := st.items[i := st.items[i].(pinned := pinned)]), true)
    else Outcome(st, false)
  }

  function MarkHot(st: State, key: Key, hot: bool): Outcome {
    var i := IndexOf(st.items, key);
    if i < |st.items| then Outcome(st.(items := st.items[i := st.items[i].(hot := hot)]), true) else Outcome(st, false)
  }

  // ----- what a put does

  lemma WithoutFacts(items: seq<Item>, key: Key)
    requires DistinctKeys(items)
    ensures var rest := Without(items, key);
            && Sublist(rest, items) && DistinctKeys(rest)
            && (forall e :: e in rest <==> e in items && e.key != key)
            && (SortedByTouch(items) ==> SortedByTouch(rest))
  {
    var i := IndexOf(items, key);
    SublistRefl(items);
    if i < |items| {
      DropSublist(items, i);
      DropKeepsOthers(items, i);
      assert forall j :: 0 <= j < |items| - 1 ==> Drop(items, i)[j].key != key;
    }
    forall e | e in items && e.key == key ensures i < |items| {
      var j :| 0 <= j < |items| && items[j] == e;
      IndexOfEntry(items, j);
    }
    SublistKeeps(Without(items, key), items);
  }

  /** Dropping a key and evicting leaves no entry under the key. */
  lemma EvictLacksKey(items: seq<Item>, cfg: Config, nbytes: nat, key: Key)
    requires DistinctKeys(items)
    ensures var rest := Evict(Without(items, key), cfg, nbytes).items; IndexOf(rest, key) == |rest|
  {
    WithoutFacts(items, key);
    EvictSublist(Without(items, key), cfg, nbytes);
    var rest := Evict(Without(items, key), cfg, nbytes).items;
    SublistKeeps(rest, Without(items, key));
    assert forall j :: 0 <= j < |rest| ==> rest[j] in rest && rest[j].key != key;
  }

  /** A put is refused exactly when the entry is larger than the budget or does not fit
      beside the pinned entries under other keys. */
  lemma PutRefusedExactly(st: State, cfg: Config, key: Key, value: Value, nbytes: nat, pin: bool, hot: bool, now: nat)
    ensures !Put(st, cfg, key, value, nbytes, pin, hot, now).ok <==>
            cfg.maxBytes > 0 &&
            (nbytes > cfg.maxBytes || PinnedBytes(Without(st.items, key)) + nbytes > cfg.maxBytes)
  {
    EvictFindsRoom(Without(st.items, key), cfg, nbytes);
  }

  /** A refused put leaves the list alone when the entry is larger than the budget;
      otherwise every unpinned entry and the old entry under the key are gone. */
  lemma RefusedPutLosesEntries(st: State, cfg: Config, key: Key, value: Value, nbytes: nat, pin: bool, hot: bool, now: nat)
    requires !Put(st, cfg, key, value, nbytes, pin, hot, now).ok
    ensures Put(st, cfg, key, value, nbytes, pin, hot, now).st
            == st.(rejected := st.rejected + 1,
                   items := if nbytes > cfg.maxBytes then st.items else PinnedOnly(Without(st.items, key)))
  {
    EvictFindsRoom(Without(st.items, key), cfg, nbytes);
  }

  /** Hence a refused put keeps the list exactly when the entry is larger than the budget, or
      the key is new and every entry is pinned. */
  lemma RefusedPutKeepsExactly(st: State, cfg: Config, key: Key, value: Value, nbytes: nat, pin: bool, hot: bool, now: nat)
    requires !Put(st, cfg, key, value, nbytes, pin, hot, now).ok
    ensures Put(st, cfg, key, value, nbytes, pin, hot, now).st.items == st.items <==>
            nbytes > cfg.maxBytes
            || (IndexOf(st.items, key) == |st.items| && forall i :: 0 <= i < |st.items| ==> st.items[i].pinned)
  {
    RefusedPutLosesEntries(st, cfg, key, value, nbytes, pin, hot, now);
    PinnedOnlyShorter(Without(st.items, key));
    if IndexOf(st.items, key) == |st.items| && forall i :: 0 <= i < |st.items| ==> st.items[i].pinned {
      AllPinned(st.items);
    }
  }

  /** Two entries of two bytes and one byte, the first pinned, under a budget of three: a put of
      two bytes under a new key evicts the second entry and is then refused. */
  lemma RefusedPutEvicts(key: Key, value: Value, now: nat)
    requires key != Plain(1) && key != Plain(2)
    ensures var items := [Item(Plain(1), 0, 2, true, false, 1, 2), Item(Plain(2), 0, 1, false, false, 1, 1)];
            var r := Put(State(items, 3, 0, 0, 0, 0), Config(3, Lru, 0), key, value, 2, false, false, now);
            !r.ok && r.st.items == [items[0]]
  {
    var pinned, other := Item(Plain(1), 0, 2, true, false, 1, 2), Item(Plain(2), 0, 1, false, false, 1, 1);
    var items := [pinned, other];
    var st, cfg := State(items, 3, 0, 0, 0, 0), Config(3, Lru, 0);
    SumsOfDrop(items, 1);
    assert Drop(items, 1) == [pinned];
    TotalOfFront(PinBytes, pinned, []);
    assert [pinned] + [] == [pinned];
    assert Without(items, key) == items;
    PutRefusedExactly(st, cfg, key, value, 2, false, false, now);
    RefusedPutLosesEntries(st, cfg, key, value, 2, false, false, now);
    assert items[1..] == [other];
  }

  /** An accepted put puts the entry first, keeps a sublist of the other entries with every
      pinned one among them, and stays within the budget. */
  lemma AcceptedPut(st: State, cfg: Config, key: Key, value: Value, nbytes: nat, pin: bool, hot: bool, now: nat)
    requires DistinctKeys(st.items) && Put(st, cfg, key, value, nbytes, pin, hot, now).ok
    ensures var items := Put(st, cfg, key, value, nbytes, pin, hot, now).st.items;
            && items != [] && items[0].key == key && items[0].value == value && items[0].nbytes == nbytes
            && DistinctKeys(items)
            && Sublist(items[1..], Without(st.items, key))
            && (forall e :: e in st.items && e.pinned && e.key != key ==> e in items[1..])
            && (cfg.maxBytes > 0 ==> Bytes(items) <= cfg.maxBytes)
  {
    var rest := Without(st.items, key);
    WithoutFacts(st.items, key);
    EvictFindsRoom(rest, cfg, nbytes);
    EvictSublist(rest, cfg, nbytes);
    var kept := Evict(rest, cfg, nbytes).items;
    SublistKeeps(kept, rest);
    var items := Put(st, cfg, key, value, nbytes, pin, hot, now).st.items;
    assert items[1..] == kept;
    SumsOfFront(items[0], kept);
    DistinctFront(items[0], kept);
  }

  lemma DistinctFront(e: Item, rest: seq<Item>)
    requires DistinctKeys(rest) && forall x :: x in rest ==> x.key != e.key
    ensures DistinctKeys([e] + rest)
  {
    assert forall i :: 0 < i < |[e] + rest| ==> ([e] + rest)[i] == rest[i - 1] && rest[i - 1] in rest;
  }

  /** With distinct keys the list is a finite map: peek finds exactly the entries listed. */
  lemma PeekFinds(items: seq<Item>, e: Item)
    requires DistinctKeys(items) && e in items
    ensures Peek(items, e.key) == Some(e.value)
  {
    var j :| 0 <= j < |items| && items[j] == e;
    IndexOfEntry(items, j);
  }

  /** As a map, a put binds its key, and leaves every other key as it was or evicts it; pinned
      keys are never evicted. A refused put binds nothing new. */
  lemma PutAsMap(st: State, cfg: Config, key: Key, value: Value, nbytes: nat, pin: bool, hot: bool, now: nat, other: Key)
    requires DistinctKeys(st.items)
    ensures var Outcome(st', ok) := Put(st, cfg, key, value, nbytes, pin, hot, now);
            && (ok ==> Peek(st'.items, key) == Some(value))
            && (Peek(st'.items, other) == Peek(st.items, other) || Peek(st'.items, other).None? || (ok && other == key))
            && (forall e :: e in st.items && e.pinned && e.key == other && other != key
                  ==> Peek(st'.items, other) == Some(e.value))
  {
    var rest := Without(st.items, key);
    var kept := Evict(rest, cfg, nbytes).items;
    WithoutFacts(st.items, key);
    EvictSublist(rest, cfg, nbytes);
    SublistKeeps(kept, rest);
    var Outcome(st', ok) := Put(st, cfg, key, value, nbytes, pin, hot, now);
    if ok {
      AcceptedPut(st, cfg, key, value, nbytes, pin, hot, now);
      assert st'.items[1..] == kept;
    }
    forall e | e in st'.items && e.key != key ensures e in st.items && Peek(st.items, e.key) == Some(e.value) {
      PeekFinds(st.items, e);
    }
    forall e | e in st'.items ensures Peek(st'.items, e.key) == Some(e.value) {
      PeekFinds(st'.items, e);
    }
    if Peek(st'.items, other).Some? {
      assert st'.items[IndexOf(st'.items, other)] in st'.items;
    }
  }

  /** A lookup never changes the map. */
  lemma GetKeepsMap(st: State, key: Key, now: nat, other: Key)
    requires DistinctKeys(st.items)
    ensures Peek(Get(st, key, now).items, other) == Peek(st.items, other)
  {
    var i := IndexOf(st.items, key);
    if i < |st.items| {
      var items := Get(st, key, now).items;
      var rest := Without(st.items, key);
      WithoutFacts(st.items, key);
      DistinctFront(items[0], rest);
      assert items == [items[0]] + rest;
      forall e | e in st.items && e.key == other ensures Peek(items, other) == Some(e.value) {
        PeekFinds(st.items, st.items[i]);
        PeekFinds(st.items, e);
        PeekFinds(items, if other == key then items[0] else e);
      }
      if IndexOf(items, other) < |items| && other != key {
        assert items[IndexOf(items, other)] in rest;
        PeekFinds(st.items, items[IndexOf(items, other)]);
      }
      if IndexOf(st.items, other) < |st.items| {
        assert st.items[IndexOf(st.items, other)] in st.items;
      } else {
        assert other != key;
      }
    }
  }

  // ----- every run

  datatype Op =
    | GetOp(key: Key)
    | PutOp(key: Key, value: Value, nbytes: nat, pin: bool, hot: bool)
    | PinOp(key: Key, pinned: bool)
    | HotOp(key: Key, hot: bool)

  function Apply(st: State, cfg: Config, op: Op, now: nat): State {
    match op
    case GetOp(key) => Get(st, key, now)
    case PutOp(key, value, nbytes, pin, hot) => Put(st, cfg, key, value, nbytes, pin, hot, now).st
    case PinOp(key, pinned) => SetPinned(st, key, pinned).st
    case HotOp(key, hot) => MarkHot(st, key, hot).st
  }

  /** Distinct keys, most recently touched first, every entry counted and touched by now. */
  ghost predicate ListOk(items: seq<Item>, clock: nat) {
    && DistinctKeys(items) && SortedByTouch(items) && Used(items)
    && forall i :: 0 <= i < |items| ==> items[i].touched <= clock
  }

  ghost predicate Inv(st: State, cfg: Config, clock: nat) {
    ListOk(st.items, clock) && (cfg.maxBytes > 0 ==> Bytes(st.items) <= cfg.maxBytes) && Bytes(st.items) <= st.peak
  }

  lemma {:induction false} BytesOfSublist(b: seq<Item>, a: seq<Item>)
    requires Sublist(b, a)
    ensures Bytes(b) <= Bytes(a)
    decreases |a|
  {
    if a == [] {
    } else {
      TotalAgrees(AllBytes, a, 1, a[1..], 0);
      if Sublist(b, a[1..]) {
        BytesOfSublist(b, a[1..]);
      } else {
        TotalAgrees(AllBytes, b, 1, b[1..], 0);
        BytesOfSublist(b[1..], a[1..]);
      }
    }
  }

  lemma ListOkOfSublist(b: seq<Item>, a: seq<Item>, clock: nat)
    requires Sublist(b, a) && ListOk(a, clock)
    ensures ListOk(b, clock)
  {
    SublistKeeps(b, a);
    assert forall i :: 0 <= i < |b| ==> b[i] in a;
  }

  /** Putting the item touched last in front. */
  lemma ListOkOfFront(e: Item, rest: seq<Item>, clock: nat)
    requires ListOk(rest, clock) && clock <= e.touched && e.freq > 0
    requires forall x :: x in rest ==> x.key != e.key
    ensures ListOk([e] + rest, e.touched)
  {
    var items := [e] + rest;
    assert forall i :: 0 < i < |items| ==> items[i] == rest[i - 1] && items[i] in rest;
  }

  lemma GetKeepsInv(st: State, cfg: Config, clock: nat, key: Key, now: nat)
    requires Inv(st, cfg, clock) && clock <= now
    ensures Inv(Get(st, key, now), cfg, now)
  {
    var i := IndexOf(st.items, key);
    if i < |st.items| {
      var e := st.items[i].(freq := st.items[i].freq + 1, touched := now);
      var rest := Without(st.items, key);
      WithoutFacts(st.items, key);
      SumsOfTouch(st.items, i, now);
      ListOkOfSublist(rest, st.items, clock);
      ListOkOfFront(e, rest, clock);
    }
  }

  lemma PutKeepsInv(st: State, cfg: Config, clock: nat, key: Key, value: Value, nbytes: nat, pin: bool, hot: bool, now: nat)
    requires Inv(st, cfg, clock) && clock <= now
    ensures Inv(Put(st, cfg, key, value, nbytes, pin, hot, now).st, cfg, now)
  {
    var rest := Without(st.items, key);
    var ev := Evict(rest, cfg, nbytes);
    WithoutFacts(st.items, key);
    EvictSublist(rest, cfg, nbytes);
    SublistKeeps(ev.items, rest);
    SublistTrans(ev.items, rest, st.items);
    ListOkOfSublist(ev.items, st.items, clock);
    BytesOfSublist(ev.items, st.items);
    EvictFindsRoom(rest, cfg, nbytes);
    var Outcome(st', ok) := Put(st, cfg, key, value, nbytes, pin, hot, now);
    if ok {
      assert st'.items == [st'.items[0]] + ev.items;
      ListOkOfFront(st'.items[0], ev.items, clock);
      SumsOfFront(st'.items[0], ev.items);
    }
  }

  /** Changing a flag of one entry. */
  lemma FlagKeepsInv(st: State, cfg: Config, clock: nat, i: nat, e: Item)
    requires Inv(st, cfg, clock) && i < |st.items|
    requires e == st.items[i].(pinned := e.pinned, hot := e.hot)
    ensures Inv(st.(items := st.items[i := e]), cfg, clock)
  {
    SumsOfFlag(st.items, i, e.pinned, e.hot);
  }

  lemma FlagOpsKeepInv(st: State, cfg: Config, clock: nat, key: Key, flag: bool)
    requires Inv(st, cfg, clock)
    ensures Inv(SetPinned(st, key, flag).st, cfg, clock) && Inv(MarkHot(st, key, flag).st, cfg, clock)
  {
    var i := IndexOf(st.items, key);
    if i < |st.items| {
      FlagKeepsInv(st, cfg, clock, i, st.items[i].(pinned := flag));
      FlagKeepsInv(st, cfg, clock, i, st.items[i].(hot := flag));
    }
  }

  lemma ApplyKeepsInv(st: State, cfg: Config, clock: nat, op: Op, now: nat)
    requires Inv(st, cfg, clock) && clock <= now
    ensures Inv(Apply(st, cfg, op, now), cfg, now)
  {
    match op
    case GetOp(key) => GetKeepsInv(st, cfg, clock, key, now);
    case PutOp(key, value, nbytes, pin, hot) => PutKeepsInv(st, cfg, clock, key, value, nbytes, pin, hot, now);
    case PinOp(key, pinned) => FlagOpsKeepInv(st, cfg, clock, key, pinned);
    case HotOp(key, hot) => FlagOpsKeepInv(st, cfg, clock, key, hot);
  }

  /** Each operation of a run with the clock reading it sees. */
  function Run(st: State, cfg: Config, ops: seq<(Op, nat)>): State
    decreases |ops|
  {
    if ops == [] then st else Run(Apply(st, cfg, ops[0].0, ops[0].1), cfg, ops[1..])
  }

  function Initial(): State {
    State([], 0, 0, 0, 0, 0)
  }

  lemma {:induction false} RunFrom(st: State, cfg: Config, clock: nat, ops: seq<(Op, nat)>) returns (end: nat)
    requires Inv(st, cfg, clock)
    requires forall i :: 0 <= i < |ops| ==> clock <= ops[i].1
    requires forall i, j :: 0 <= i < j < |ops| ==> ops[i].1 <= ops[j].1
    ensures Inv(Run(st, cfg, ops), cfg, end)
    decreases |ops|
  {
    if ops == [] {
      end := clock;
    } else {
      ApplyKeepsInv(st, cfg, clock, ops[0].0, ops[0].1);
      end := RunFrom(Apply(st, cfg, ops[0].0, ops[0].1), cfg, ops[0].1, ops[1..]);
    }
  }

  /** In every run under a monotonic clock the keys stay distinct, the list stays a recency
      list and the bytes stay within the budget and the recorded peak. */
  lemma EveryRunKeepsInv(cfg: Config, ops: seq<(Op, nat)>)
    requires forall i, j :: 0 <= i < j < |ops| ==> ops[i].1 <= ops[j].1
    ensures exists clock :: Inv(Run(Initial(), cfg, ops), cfg, clock)
  {
    var end := RunFrom(Initial(), cfg, 0, ops);
  }
}
