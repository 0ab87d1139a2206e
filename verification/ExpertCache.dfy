/** src/colibri_runtime/expert_cache.py: the Python cache. `_items` is a sequence in the order
    of the OrderedDict, oldest first; the sums, eligibility and scores are those of CacheSpec. */
module ExpertCache {
  import opened Options
  import opened CacheSpec
  import opened CacheHistory

  /** None switches a limit off. */
  datatype Limits = Limits(maxItems: Option<nat>, maxBytes: Option<nat>, policy: Policy, partitions: Option<nat>)

  /** Fairness needs both a byte limit and a partition count. */
  function Cfg(l: Limits): Config {
    Config(if l.maxBytes.Some? then l.maxBytes.value else 0, l.policy,
           if l.maxBytes.Some? && l.partitions.Some? then l.partitions.value else 0)
  }

  ghost predicate ValidLimits(l: Limits) {
    && (l.maxItems.Some? || l.maxBytes.Some?)
    && (l.maxItems.Some? ==> l.maxItems.value > 0)
    && (l.maxBytes.Some? ==> l.maxBytes.value > 0)
    && (l.partitions.Some? ==> l.partitions.value > 0)
  }

  /** The share is a true division in Python and a truncated one in C; for byte counts the
      comparison is the same. */
  lemma FairShareAgrees(usage: nat, maxBytes: nat, partitions: nat)
    requires partitions > 0
    ensures usage as real > maxBytes as real / partitions as real <==> usage > maxBytes / partitions
  {
    var q := maxBytes / partitions;
    assert partitions * q <= maxBytes < partitions * q + partitions;
    MulCompare(partitions, usage, q);
    RealDivision(usage, maxBytes, partitions);
  }

  lemma {:induction false} MulMonotone(p: nat, a: nat, b: nat)
    requires a <= b
    ensures p * a <= p * b
    decreases b
  {
    if a == b {
    } else {
      MulMonotone(p, a, b - 1);
    }
  }

  lemma MulCompare(p: nat, a: nat, b: nat)
    requires p > 0
    ensures a > b ==> p * a >= p * b + p
    ensures a <= b ==> p * a <= p * b
  {
    if a > b {
      MulMonotone(p, b + 1, a);
    } else {
      MulMonotone(p, a, b);
    }
  }

  lemma RealDivision(a: nat, m: nat, p: nat)
    requires p > 0
    ensures a as real > m as real / p as real <==> p * a > m
  {
    var x, y, z := a as real, m as real, p as real;
    var share := y / z;
    assert share * z == y;
    assert (p * a) as real == z * x;
    if x > share {
      assert (x - share) * z > 0.0;
    } else {
      assert (share - x) * z >= 0.0;
    }
  }

  // ----- _victim

  /** A candidate after the three filters: unpinned, over its share if any is, cold if any is. */
  predicate Preferred(items: seq<Item>, cfg: Config, i: nat)
    requires i < |items|
  {
    Eligible(items, cfg, i) && (items[i].hot ==> forall j :: 0 <= j < |items| && Eligible(items, cfg, j) ==> items[j].hot)
  }

  /** The first candidate of items[n..] with the least key. */
  function LeastFrom(items: seq<Item>, cfg: Config, n: nat): (r: Option<nat>)
    requires n <= |items|
    ensures r.Some? ==> n <= r.value < |items| && Preferred(items, cfg, r.value)
    decreases |items| - n
  {
    if n == |items| then None
    else
      var rest := LeastFrom(items, cfg, n + 1);
      if !Preferred(items, cfg, n) then rest
      else if rest.None? || AtMost(cfg.policy, items[n], items[rest.value]) then Some(n)
      else rest
  }

  /** `_victim`. */
  function VictimOf(items: seq<Item>, cfg: Config): (r: Option<nat>)
    ensures r.Some? ==> r.value < |items| && Preferred(items, cfg, r.value)
  {
    LeastFrom(items, cfg, 0)
  }

  lemma {:induction false} LeastFromIsLeast(items: seq<Item>, cfg: Config, n: nat, i: nat)
    requires n <= i < |items| && Preferred(items, cfg, i)
    ensures LeastFrom(items, cfg, n).Some?
    ensures var v := LeastFrom(items, cfg, n).value;
            AtMost(cfg.policy, items[v], items[i]) && (AtMost(cfg.policy, items[i], items[v]) ==> v <= i)
    decreases i - n
  {
    if n < i {
      LeastFromIsLeast(items, cfg, n + 1, i);
    } else if LeastFrom(items, cfg, n + 1).Some? {
      var rest := LeastFrom(items, cfg, n + 1).value;
    }
  }

  /** The victim has the least score of all candidates, the least recent touch among those,
      and comes first in the dictionary among those. */
  lemma VictimIsLeast(items: seq<Item>, cfg: Config, i: nat)
    requires i < |items| && Preferred(items, cfg, i)
    ensures VictimOf(items, cfg).Some?
    ensures var v := VictimOf(items, cfg).value;
            AtMost(cfg.policy, items[v], items[i]) && (AtMost(cfg.policy, items[i], items[v]) ==> v <= i)
  {
    LeastFromIsLeast(items, cfg, 0, i);
  }

  /** No victim exactly when every entry is pinned. */
  lemma VictimExistsHere(items: seq<Item>, cfg: Config)
    ensures VictimOf(items, cfg).None? <==> forall i :: 0 <= i < |items| ==> items[i].pinned
  {
    if exists i :: 0 <= i < |items| && !items[i].pinned {
      CacheSpec.VictimExists(items, cfg);
      var v := Victim(items, cfg).value;
      assert Preferred(items, cfg, v);
      VictimIsLeast(items, cfg, v);
    }
  }

  // ----- the eviction loop of put

  predicate Room(items: seq<Item>, l: Limits, size: nat) {
    && (l.maxItems.Some? ==> |items| + 1 <= l.maxItems.value)
    && (l.maxBytes.Some? ==> Bytes(items) + size <= l.maxBytes.value)
  }

  function EvictFor(items: seq<Item>, l: Limits, size: nat): Eviction
    decreases |items|
  {
    if Room(items, l, size) then Eviction(true, items, 0)
    else
      match VictimOf(items, Cfg(l))
      case None => Eviction(false, items, 0)
      case Some(v) =>
        var r := EvictFor(Drop(items, v), l, size);
        Eviction(r.ok, r.items, r.count + 1)
  }

  lemma PinnedCountAtMost(items: seq<Item>)
    ensures PinnedCount(items) <= |items|
    ensures (forall i :: 0 <= i < |items| ==> items[i].pinned) ==> PinnedCount(items) == |items|
  {
    CountFrom(items, 0);
  }

  lemma {:induction false} CountFrom(items: seq<Item>, n: nat)
    requires n <= |items|
    ensures Total(Pins, items, n) <= |items| - n
    ensures (forall i :: n <= i < |items| ==> items[i].pinned) ==> Total(Pins, items, n) == |items| - n
    decreases |items| - n
  {
    if n == |items| {
    } else {
      CountFrom(items, n + 1);
    }
  }

  /** The pinned entries leave room for one more of this size. */
  predicate PinsLeaveRoom(items: seq<Item>, l: Limits, size: nat) {
    && (l.maxItems.Some? ==> PinnedCount(items) + 1 <= l.maxItems.value)
    && (l.maxBytes.Some? ==> PinnedBytes(items) + size <= l.maxBytes.value)
  }

  lemma {:induction false} EvictForFindsRoom(items: seq<Item>, l: Limits, size: nat)
    ensures var r := EvictFor(items, l, size);
            (r.ok <==> PinsLeaveRoom(items, l, size)) && (r.ok ==> Room(r.items, l, size))
    decreases |items|
  {
    PinnedBytesAtMost(items);
    PinnedCountAtMost(items);
    if !Room(items, l, size) {
      VictimExistsHere(items, Cfg(l));
      if VictimOf(items, Cfg(l)).Some? {
        var v := VictimOf(items, Cfg(l)).value;
        SumsOfDrop(items, v);
        EvictForFindsRoom(Drop(items, v), l, size);
      }
    }
  }

  lemma {:induction false} EvictForSublist(items: seq<Item>, l: Limits, size: nat)
    ensures var r := EvictFor(items, l, size);
            Sublist(r.items, items) && |r.items| + r.count == |items|
    ensures forall e :: e in items && e.pinned ==> e in EvictFor(items, l, size).items
    decreases |items|
  {
    SublistRefl(items);
    if !Room(items, l, size) && VictimOf(items, Cfg(l)).Some? {
      var v := VictimOf(items, Cfg(l)).value;
      DropSublist(items, v);
      EvictForSublist(Drop(items, v), l, size);
      DropKeepsOthers(items, v);
      SublistTrans(EvictFor(items, l, size).items, Drop(items, v), items);
    }
  }

  // ----- the state on values

  datatype Stats = Stats(hits: nat, misses: nat, evictions: nat, pinned: nat, bytes: nat, peak: nat, rejected: nat)

  datatype Contents = Contents(items: seq<Item>, stats: Stats)

  ghost predicate WithinLimits(items: seq<Item>, l: Limits) {
    && (l.maxItems.Some? ==> |items| <= l.maxItems.value)
    && (l.maxBytes.Some? ==> Bytes(items) <= l.maxBytes.value)
  }

  ghost predicate ContentsOk(c: Contents, l: Limits) {
    && DistinctKeys(c.items) && WithinLimits(c.items, l)
    && c.stats.bytes == Bytes(c.items) <= c.stats.peak && c.stats.pinned == PinnedCount(c.items)
  }

  predicate Oversized(l: Limits, size: nat) {
    l.maxBytes.Some? && size > l.maxBytes.value
  }

  /** What put answers: whether the entry was stored. */
  predicate Accepts(items: seq<Item>, l: Limits, key: Key, size: nat) {
    !Oversized(l, size) && EvictFor(Without(items, key), l, size).ok
  }

  /** The contents after put. */
  function Stored(c: Contents, l: Limits, key: Key, value: Value, size: nat, pin: bool, hot: bool, now: nat): Contents {
    if !Accepts(c.items, l, key, size) then c.(stats := c.stats.(rejected := c.stats.rejected + 1))
    else
      var i := IndexOf(c.items, key);
      var found := i < |c.items|;
      var ev := EvictFor(Without(c.items, key), l, size);
      var e := Item(key, value, size, pin || (found && c.items[i].pinned), hot || (found && c.items[i].hot), 1, now);
      var items := ev.items + [e];
      Contents(items, c.stats.(evictions := c.stats.evictions + ev.count, bytes := Bytes(items), pinned := PinnedCount(items),
                               peak := Max(c.stats.peak, Bytes(items))))
  }

  /** A put is refused exactly when the entry is larger than the byte limit or the pinned
      entries under other keys leave no room for it. */
  lemma RefusedExactly(items: seq<Item>, l: Limits, key: Key, size: nat)
    ensures !Accepts(items, l, key, size) <==> Oversized(l, size) || !PinsLeaveRoom(Without(items, key), l, size)
  {
    EvictForFindsRoom(Without(items, key), l, size);
  }

  /** A stored entry comes last, and the others are a sublist of the old ones that keeps every
      pinned one. */
  lemma StoredKeepsInvariant(c: Contents, l: Limits, key: Key, value: Value, size: nat, pin: bool, hot: bool, now: nat)
    requires ContentsOk(c, l)
    ensures var c' := Stored(c, l, key, value, size, pin, hot, now);
            && ContentsOk(c', l)
            && (Accepts(c.items, l, key, size) ==>
                  && c'.items != [] && Last(c'.items).key == key && Last(c'.items).value == value
                  && Sublist(c'.items[..|c'.items| - 1], Without(c.items, key))
                  && forall e :: e in c.items && e.pinned && e.key != key ==> e in c'.items)
  {
    if Accepts(c.items, l, key, size) {
      var rest := Without(c.items, key);
      var kept := EvictFor(rest, l, size).items;
      WithoutFacts(c.items, key);
      EvictForFindsRoom(rest, l, size);
      EvictForSublist(rest, l, size);
      SublistKeeps(kept, rest);
      var items := Stored(c, l, key, value, size, pin, hot, now).items;
      assert items[..|items| - 1] == kept;
      SumsOfAppend(kept, Last(items));
      forall i, j | 0 <= i < j < |items| ensures items[i].key != items[j].key {
        assert items[i] == kept[i] && kept[i] in rest;
      }
    }
  }

  /** Every entry after a put is the new one or was there before under another key. */
  lemma StoredEntries(c: Contents, l: Limits, key: Key, value: Value, size: nat, pin: bool, hot: bool, now: nat, i: nat)
    requires ContentsOk(c, l) && i < |Stored(c, l, key, value, size, pin, hot, now).items|
    ensures var e := Stored(c, l, key, value, size, pin, hot, now).items[i];
            e in c.items || (Accepts(c.items, l, key, size) && e.key == key && e.value == value)
  {
    if Accepts(c.items, l, key, size) {
      var rest := Without(c.items, key);
      var kept := EvictFor(rest, l, size).items;
      WithoutFacts(c.items, key);
      EvictForSublist(rest, l, size);
      SublistKeeps(kept, rest);
      assert i < |kept| ==> kept[i] in kept;
    }
  }

  function Last(items: seq<Item>): Item
    requires items != []
  {
    items[|items| - 1]
  }

  lemma {:induction false} TotalOfAppend(m: Measure, items: seq<Item>, e: Item, n: nat)
    requires n <= |items|
    ensures Total(m, items + [e], n) == Total(m, items, n) + Weigh(m, e)
    decreases |items| - n
  {
    if n == |items| {
    } else {
      TotalOfAppend(m, items, e, n + 1);
    }
  }

  lemma SumsOfAppend(items: seq<Item>, e: Item)
    ensures Bytes(items + [e]) == Bytes(items) + e.nbytes
    ensures PinnedCount(items + [e]) == PinnedCount(items) + (if e.pinned then 1 else 0)
  {
    TotalOfAppend(AllBytes, items, e, 0);
    TotalOfAppend(Pins, items, e, 0);
  }

  // ----- lookups and flags

  /** get: a hit is counted, stamped and moved to the end. */
  function Looked(c: Contents, key: Key, now: nat, countMiss: bool): Contents {
    var i := IndexOf(c.items, key);
    if i == |c.items| then (if countMiss then c.(stats := c.stats.(misses := c.stats.misses + 1)) else c)
    else
      c.(items := Drop(c.items, i) + [c.items[i].(freq := c.items[i].freq + 1, touched := now)],
         stats := c.stats.(hits := c.stats.hits + 1))
  }

  /** A hit counts and stamps the entry, moves it to the end and leaves every other entry. */
  lemma LookedCounts(c: Contents, e: Item, now: nat, countMiss: bool)
    requires DistinctKeys(c.items) && e in c.items
    ensures var c' := Looked(c, e.key, now, countMiss);
            && |c'.items| == |c.items| && Last(c'.items) == e.(freq := e.freq + 1, touched := now)
            && SameElsewhere(c.items, c'.items, e.key) && Sublist(c'.items[..|c'.items| - 1], c.items)
            && c' == c.(items := c'.items, stats := c.stats.(hits := c.stats.hits + 1))
  {
    var j :| 0 <= j < |c.items| && c.items[j] == e;
    IndexOfEntry(c.items, j);
    var items, rest := Looked(c, e.key, now, countMiss).items, Without(c.items, e.key);
    WithoutFacts(c.items, e.key);
    assert items == rest + [Last(items)] && items[..|items| - 1] == rest;
  }

  /** A lookup of an absent key counts a miss when asked to, and changes nothing else. */
  lemma LookedMisses(c: Contents, key: Key, now: nat, countMiss: bool)
    requires forall e :: e in c.items ==> e.key != key
    ensures Looked(c, key, now, countMiss)
            == c.(stats := c.stats.(misses := c.stats.misses + if countMiss then 1 else 0))
  {
    assert forall j :: 0 <= j < |c.items| ==> c.items[j] in c.items;
  }

  /** The whole entry a put stores, and the counters; a refused put only counts the refusal. */
  lemma StoredEntry(c: Contents, l: Limits, key: Key, value: Value, size: nat, pin: bool, hot: bool, now: nat)
    requires ContentsOk(c, l)
    ensures var c' := Stored(c, l, key, value, size, pin, hot, now);
            if Accepts(c.items, l, key, size) then
              && c'.items != []
              && Last(c'.items) == Item(key, value, size, pin || PinnedUnder(c.items, key), hot || HotUnder(c.items, key), 1, now)
              && c'.stats.hits == c.stats.hits && c'.stats.misses == c.stats.misses && c'.stats.rejected == c.stats.rejected
              && c'.stats.evictions + |c'.items| == c.stats.evictions + |Without(c.items, key)| + 1
              && c'.stats.bytes == Bytes(c'.items) && c'.stats.pinned == PinnedCount(c'.items)
              && c'.stats.peak >= c.stats.peak && c'.stats.peak >= Bytes(c'.items)
              && (c'.stats.peak == c.stats.peak || c'.stats.peak == Bytes(c'.items))
            else c' == c.(stats := c.stats.(rejected := c.stats.rejected + 1))
  {
    FlagsUnder(c.items, key);
    EvictForSublist(Without(c.items, key), l, size);
  }

  lemma LookedKeepsInvariant(c: Contents, l: Limits, key: Key, now: nat, countMiss: bool)
    requires ContentsOk(c, l)
    ensures ContentsOk(Looked(c, key, now, countMiss), l)
    ensures forall p :: Usage(Looked(c, key, now, countMiss).items, p) == Usage(c.items, p)
  {
    var i := IndexOf(c.items, key);
    if i < |c.items| {
      var rest := Drop(c.items, i);
      var e := c.items[i].(freq := c.items[i].freq + 1, touched := now);
      SumsOfDrop(c.items, i);
      SumsOfAppend(rest, e);
      forall p ensures Usage(rest + [e], p) == Usage(c.items, p) {
        TotalOfDrop(PartBytes(p), c.items, i, 0);
        TotalOfAppend(PartBytes(p), rest, e, 0);
      }
    }
  }

  lemma FlaggedKeepsInvariant(c: Contents, l: Limits, i: nat, pinned: bool, hot: bool)
    requires ContentsOk(c, l) && i < |c.items|
    ensures var items := c.items[i := c.items[i].(pinned := pinned, hot := hot)];
            && ContentsOk(Contents(items, c.stats.(pinned := PinnedCount(items))), l)
            && (forall p :: Usage(items, p) == Usage(c.items, p))
            && (pinned == c.items[i].pinned ==> PinnedCount(items) == c.stats.pinned)
  {
    SumsOfFlag(c.items, i, pinned, hot);
    forall p ensures Usage(c.items[i := c.items[i].(pinned := pinned, hot := hot)], p) == Usage(c.items, p) {
      TotalOfUpdate(PartBytes(p), c.items, i, c.items[i].(pinned := pinned, hot := hot), 0);
    }
  }

  // ----- the class

  /** `_partition_usage` holds the bytes of every partition that has any. */
  ghost predicate UsageOk(usage: map<Part, nat>, items: seq<Item>) {
    && (forall p :: p in usage ==> usage[p] == Usage(items, p))
    && (forall p :: Usage(items, p) > 0 ==> p in usage)
    && (forall p :: p in usage ==> usage[p] > 0)
  }

  /** `_adjust_partition`. */
  function Adjust(usage: map<Part, nat>, key: Key, delta: int): map<Part, nat>
    requires (if Partition(key) in usage then usage[Partition(key)] else 0) + delta >= 0
  {
    var part := Partition(key);
    var value := (if part in usage then usage[part] else 0) + delta;
    if value != 0 then usage[part := value] else usage - {part}
  }

  lemma UsageOfDrop(usage: map<Part, nat>, items: seq<Item>, i: nat)
    requires UsageOk(usage, items) && i < |items|
    ensures (if Partition(items[i].key) in usage then usage[Partition(items[i].key)] else 0) >= items[i].nbytes
    ensures UsageOk(Adjust(usage, items[i].key, 0 - items[i].nbytes), Drop(items, i))
  {
    forall p ensures Usage(items, p) == Usage(Drop(items, i), p) + Weigh(PartBytes(p), items[i]) {
      TotalOfDrop(PartBytes(p), items, i, 0);
    }
  }

  lemma UsageOfAppend(usage: map<Part, nat>, items: seq<Item>, e: Item)
    requires UsageOk(usage, items)
    ensures UsageOk(Adjust(usage, e.key, e.nbytes), items + [e])
  {
    forall p ensures Usage(items + [e], p) == Usage(items, p) + Weigh(PartBytes(p), e) {
      TotalOfAppend(PartBytes(p), items, e, 0);
    }
  }

  lemma StoredOk(c: Contents, l: Limits, key: Key, value: Value, size: nat, pin: bool, hot: bool, now: nat)
    requires ContentsOk(c, l)
    ensures ContentsOk(Stored(c, l, key, value, size, pin, hot, now), l)
  {
    StoredKeepsInvariant(c, l, key, value, size, pin, hot, now);
  }

  datatype PutAnswer = NegativeSize | Refused | Inserted

  class Cache {
    const limits: Limits
    var items: seq<Item>
    var usage: map<Part, nat>
    var stats: Stats

    ghost function Held(): Contents
      reads this
    {
      Contents(items, stats)
    }

    ghost predicate Valid()
      reads this
    {
      ContentsOk(Held(), limits) && UsageOk(usage, items)
    }

    constructor (limits: Limits)
      requires ValidLimits(limits)
      ensures Valid() && this.limits == limits && items == []
    {
      this.limits := limits;
      items, usage, stats := [], map[], Stats(0, 0, 0, 0, 0, 0, 0);
    }

    /** The constructor's checks: the ValueErrors of the source. */
    static method Create(limits: Limits) returns (c: Option<Cache>)
      ensures c.Some? <==> ValidLimits(limits)
      ensures c.Some? ==> fresh(c.value) && c.value.Valid() && c.value.limits == limits && c.value.items == []
    {
      if (limits.maxItems.None? && limits.maxBytes.None?) || limits.maxItems == Some(0) || limits.maxBytes == Some(0)
        || limits.partitions == Some(0) {
        return None;
      }
      var cache := new Cache(limits);
      return Some(cache);
    }

    /** get at clock reading now. */
    method Get(key: Key, now: nat, countMiss: bool) returns (r: Option<Value>)
      requires Valid()
      modifies this
      ensures Valid() && Held() == Looked(old(Held()), key, now, countMiss)
      ensures r == Peek(old(items), key)
    {
      LookedKeepsInvariant(Held(), limits, key, now, countMiss);
      var i := IndexOf(items, key);
      if i == |items| {
        if countMiss {
          stats := stats.(misses := stats.misses + 1);
        }
        return None;
      }
      var e := items[i].(freq := items[i].freq + 1, touched := now);
      items := Drop(items, i) + [e];
      stats := stats.(hits := stats.hits + 1);
      r := Some(e.value);
    }

    /** `_remove_bytes` after the entry at i was popped. */
    method Pop(i: nat)
      requires UsageOk(usage, items) && stats.bytes == Bytes(items) && i < |items|
      modifies this
      ensures UsageOk(usage, items) && items == Drop(old(items), i)
      ensures stats == old(stats).(bytes := Bytes(items))
    {
      UsageOfDrop(usage, items, i);
      SumsOfDrop(items, i);
      var e := items[i];
      items := Drop(items, i);
      stats := stats.(bytes := stats.bytes - e.nbytes);
      usage := Adjust(usage, e.key, 0 - e.nbytes);
    }

    /** The eviction loop of put. */
    method MakeRoom(size: nat) returns (room: bool, evictions: nat)
      requires UsageOk(usage, items) && stats.bytes == Bytes(items)
      modifies this
      ensures UsageOk(usage, items) && stats == old(stats).(bytes := Bytes(items))
      ensures Eviction(room, items, evictions) == EvictFor(old(items), limits, size)
    {
      evictions := 0;
      ghost var goal := EvictFor(items, limits, size);
      while (limits.maxItems.Some? && |items| + 1 > limits.maxItems.value)
        || (limits.maxBytes.Some? && stats.bytes + size > limits.maxBytes.value)
        invariant UsageOk(usage, items) && stats == old(stats).(bytes := Bytes(items))
        invariant var r := EvictFor(items, limits, size); goal == Eviction(r.ok, r.items, evictions + r.count)
        decreases |items|
      {
        var victim := VictimOf(items, Cfg(limits));
        if victim.None? {
          return false, evictions;
        }
        Pop(victim.value);
        evictions := evictions + 1;
      }
      room := true;
    }

    /** The end of put: enter the entry and bring the statistics up to date. */
    method Append(e: Item, evictions: nat)
      requires UsageOk(usage, items) && stats.bytes == Bytes(items)
      modifies this
      ensures UsageOk(usage, items) && items == old(items) + [e]
      ensures stats == old(stats).(evictions := old(stats).evictions + evictions, bytes := Bytes(items),
                                   pinned := PinnedCount(items), peak := Max(old(stats).peak, Bytes(items)))
    {
      UsageOfAppend(usage, items, e);
      SumsOfAppend(items, e);
      items := items + [e];
      usage := Adjust(usage, e.key, e.nbytes);
      var bytes := stats.bytes + e.nbytes;
      stats := stats.(bytes := bytes, evictions := stats.evictions + evictions, peak := Max(stats.peak, bytes),
                      pinned := PinnedCount(items));
    }

    /** The part of put that pops the previous entry under the key and keeps its flags. */
    method Replace(key: Key, pin: bool, hot: bool) returns (pinned: bool, warm: bool)
      requires UsageOk(usage, items) && stats.bytes == Bytes(items)
      modifies this
      ensures UsageOk(usage, items) && items == Without(old(items), key) && stats == old(stats).(bytes := Bytes(items))
      ensures var i := IndexOf(old(items), key);
              var found := i < |old(items)|;
              pinned == (pin || (found && old(items)[i].pinned)) && warm == (hot || (found && old(items)[i].hot))
    {
      pinned, warm := pin, hot;
      var i := IndexOf(items, key);
      if i < |items| {
        pinned, warm := pin || items[i].pinned, hot || items[i].hot;
        Pop(i);
      }
    }

    /** The end of put, from the state after Replace: store the entry, or restore what was there. */
    method StoreOrRestore(e: Item, previousItems: seq<Item>, previousUsage: map<Part, nat>, previousBytes: nat) returns (ok: bool)
      requires UsageOk(usage, items) && stats.bytes == Bytes(items)
      modifies this
      ensures ok == EvictFor(old(items), limits, e.nbytes).ok
      ensures ok ==> UsageOk(usage, items) && items == EvictFor(old(items), limits, e.nbytes).items + [e]
      ensures ok ==> stats == old(stats).(evictions := old(stats).evictions + EvictFor(old(items), limits, e.nbytes).count,
                                          bytes := Bytes(items), pinned := PinnedCount(items),
                                          peak := Max(old(stats).peak, Bytes(items)))
      ensures !ok ==> items == previousItems && usage == previousUsage
      ensures !ok ==> stats == old(stats).(bytes := previousBytes, rejected := old(stats).rejected + 1,
                                           pinned := PinnedCount(previousItems))
    {
      var room, evictions := MakeRoom(e.nbytes);
      if !room {
        items, usage := previousItems, previousUsage;
        stats := stats.(bytes := previousBytes, rejected := stats.rejected + 1, pinned := PinnedCount(items));
        return false;
      }
      Append(e, evictions);
      return true;
    }

    /** put at clock reading now. A refused put restores everything it changed. */
    method Put(key: Key, value: Value, size: int, pin: bool, hot: bool, now: nat) returns (answer: PutAnswer)
      requires Valid()
      modifies this
      ensures Valid()
      ensures answer.NegativeSize? <==> size < 0
      ensures size < 0 ==> Held() == old(Held())
      ensures size >= 0 ==> (answer.Inserted? <==> Accepts(old(items), limits, key, size))
      ensures size >= 0 ==> Held() == Stored(old(Held()), limits, key, value, size, pin, hot, now)
      ensures !answer.Inserted? ==> usage == old(usage)
    {
      if size < 0 {
        return NegativeSize;
      }
      if limits.maxBytes.Some? && size > limits.maxBytes.value {
        stats := stats.(rejected := stats.rejected + 1);
        return Refused;
      }
      StoredOk(Held(), limits, key, value, size, pin, hot, now);
      var previousItems, previousUsage, previousBytes := items, usage, stats.bytes;
      var pinned, warm := Replace(key, pin, hot);
      var ok := StoreOrRestore(Item(key, value, size, pinned, warm, 1, now), previousItems, previousUsage, previousBytes);
      answer := if ok then Inserted else Refused;
    }

    /** pin. */
    method Pin(key: Key) returns (found: bool)
      requires Valid()
      modifies this
      ensures Valid() && (found <==> exists e :: e in old(items) && e.key == key) && |items| == |old(items)|
      ensures forall j :: 0 <= j < |items| ==>
                items[j] == if old(items)[j].key == key then old(items)[j].(pinned := true) else old(items)[j]
      ensures stats == old(stats).(pinned := PinnedCount(items)) && usage == old(usage)
    {
      var i := IndexOf(items, key);
      OnlyIndex(items, key);
      if i == |items| {
        return false;
      }
      assert items[i] in items;
      FlaggedKeepsInvariant(Held(), limits, i, true, items[i].hot);
      items := items[i := items[i].(pinned := true)];
      stats := stats.(pinned := PinnedCount(items));
      return true;
    }

    /** unpin: the limits hold already, so the eviction that follows never removes an entry. */
    method Unpin(key: Key) returns (found: bool)
      requires Valid()
      modifies this
      ensures Valid() && (found <==> exists e :: e in old(items) && e.key == key) && |items| == |old(items)|
      ensures forall j :: 0 <= j < |items| ==>
                items[j] == if old(items)[j].key == key then old(items)[j].(pinned := false) else old(items)[j]
      ensures stats == old(stats).(pinned := PinnedCount(items)) && usage == old(usage)
    {
      var i := IndexOf(items, key);
      OnlyIndex(items, key);
      if i == |items| {
        return false;
      }
      assert items[i] in items;
      FlaggedKeepsInvariant(Held(), limits, i, false, items[i].hot);
      items := items[i := items[i].(pinned := false)];
      stats := stats.(pinned := PinnedCount(items));
      EvictIfNeeded();
      return true;
    }

    /** mark_hot. */
    method MarkHot(key: Key, hot: bool) returns (found: bool)
      requires Valid()
      modifies this`items
      ensures Valid() && (found <==> exists e :: e in old(items) && e.key == key) && |items| == |old(items)|
      ensures forall j :: 0 <= j < |items| ==>
                items[j] == if old(items)[j].key == key then old(items)[j].(hot := hot) else old(items)[j]
    {
      var i := IndexOf(items, key);
      OnlyIndex(items, key);
      if i == |items| {
        return false;
      }
      assert items[i] in items;
      FlaggedKeepsInvariant(Held(), limits, i, items[i].pinned, hot);
      items := items[i := items[i].(hot := hot)];
      return true;
    }

    /** `_evict_if_needed`, from any state with exact byte counts. */
    method EvictIfNeeded()
      requires UsageOk(usage, items) && stats.bytes == Bytes(items)
      modifies this
      ensures UsageOk(usage, items) && stats.bytes == Bytes(items) && stats.pinned == PinnedCount(items)
      ensures WithinLimits(items, limits) || forall i :: 0 <= i < |items| ==> items[i].pinned
      ensures old(WithinLimits(items, limits)) ==>
                items == old(items) && usage == old(usage) && stats == old(stats).(pinned := PinnedCount(items))
    {
      ghost var fits := WithinLimits(items, limits);
      while (limits.maxItems.Some? && |items| > limits.maxItems.value)
        || (limits.maxBytes.Some? && stats.bytes > limits.maxBytes.value)
        invariant UsageOk(usage, items) && stats.bytes == Bytes(items)
        invariant fits ==> items == old(items) && usage == old(usage) && stats == old(stats)
        decreases |items|
      {
        var victim := VictimOf(items, Cfg(limits));
        VictimExistsHere(items, Cfg(limits));
        if victim.None? {
          break;
        }
        Pop(victim.value);
        stats := stats.(evictions := stats.evictions + 1);
      }
      stats := stats.(pinned := PinnedCount(items));
    }
  }
}
