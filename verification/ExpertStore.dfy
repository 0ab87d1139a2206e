/** src/colibri_runtime/streaming.py, `ExpertStore`: one consumer thread calls the methods while
    executor threads complete loads at any moment.

    A future is a number; `loads` gives the key it was created for and its status. Every place
    where the consumer is outside the lock, or waits, calls `Interfere`, which lets any number
    of pending loads complete with the slice on disk or with an error. The fields guarded by
    the lock form one record, so that each locked region is one step on values. */
module ExpertStore {
  import opened Options
  import opened CacheSpec
  import opened CacheHistory
  import EC = ExpertCache

  datatype Status = Pending | Loaded(value: Value) | Failed

  datatype Load = Load(key: Key, status: Status)

  /** `_futures`, `_future_prefetch`, `_prefetched_ready`, the prefetch statistics, `_closed`, and
      the loads handed to the executor that have not completed. */
  datatype Book = Book(futures: map<Key, nat>, loads: map<nat, Load>, nextFuture: nat, prefetch: set<Key>, ready: set<Key>,
                       submitted: nat, hits: nat, wasted: nat, closed: bool, outstanding: multiset<Key>)

  // ----- the invariants

  ghost predicate InFlight(b: Book, key: Key) {
    key in b.futures && b.futures[key] in b.loads && b.loads[b.futures[key]].status.Pending?
  }

  /** Futures and loads agree, and every loaded value is the slice on disk. */
  ghost predicate Coherent(b: Book, disk: Key -> Value) {
    && (forall k :: k in b.futures ==> b.futures[k] in b.loads && b.loads[b.futures[k]].key == k)
    && (forall f :: f in b.loads ==> f < b.nextFuture)
    && (forall f :: f in b.loads && b.loads[f].status.Loaded? ==> b.loads[f].status.value == disk(b.loads[f].key))
    && (forall f :: f in b.loads && b.loads[f].status.Pending? && !b.closed
          ==> b.loads[f].key in b.futures && b.futures[b.loads[f].key] == f)
  }

  /** The executor holds one load for every key in flight and no other. */
  ghost predicate OneLoadPerKey(b: Book) {
    forall k :: b.outstanding[k] == if InFlight(b, k) then 1 else 0
  }

  /** Prefetches are in flight, within the limit, and accounted for. */
  ghost predicate Counted(b: Book, limit: nat) {
    && b.prefetch <= b.futures.Keys && |b.prefetch| <= limit
    && b.hits + b.wasted + |b.prefetch| + |b.ready| <= b.submitted
    && (b.closed ==> b.futures == map[] && b.prefetch == {} && b.ready == {})
  }

  /** While the store is open the outstanding loads are those of the keys in flight; open or
      closed, no key has two. */
  ghost predicate BookOk(b: Book, disk: Key -> Value, limit: nat) {
    && Coherent(b, disk) && Counted(b, limit) && (!b.closed ==> OneLoadPerKey(b))
    && forall k :: b.outstanding[k] <= 1
  }

  ghost predicate Listed(items: seq<Item>, key: Key) {
    IndexOf(items, key) < |items|
  }

  ghost predicate OnDisk(items: seq<Item>, disk: Key -> Value) {
    forall i :: 0 <= i < |items| ==> items[i].value == disk(items[i].key)
  }

  /** No key is both cached and in flight. */
  ghost predicate Apart(b: Book, items: seq<Item>) {
    forall k :: k in b.futures ==> !Listed(items, k)
  }

  // ----- the steps, one for each locked region

  function Opened(): Book {
    Book(map[], map[], 0, {}, {}, 0, 0, 0, false, multiset{})
  }

  /** `request_many` hands one missing key to the executor. */
  function Started(b: Book, key: Key, speculative: bool): Book {
    b.(loads := b.loads[b.nextFuture := Load(key, Pending)], futures := b.futures[key := b.nextFuture],
       nextFuture := b.nextFuture + 1, outstanding := b.outstanding + multiset{key},
       prefetch := b.prefetch + (if speculative then {key} else {}),
       submitted := b.submitted + (if speculative then 1 else 0))
  }

  /** A load completes: `finish` settles its future. */
  function Settled(b: Book, f: nat, ok: bool, disk: Key -> Value): Book
    requires f in b.loads
  {
    var key := b.loads[f].key;
    b.(loads := b.loads[f := Load(key, if ok then Loaded(disk(key)) else Failed)], outstanding := b.outstanding - multiset{key})
  }

  /** The future of a key is popped and its prefetch mark discarded. */
  function Dropped(b: Book, key: Key): Book {
    b.(futures := b.futures - {key}, prefetch := b.prefetch - {key})
  }

  /** `_harvest_prefetches` is done with a key: loaded and cached, or wasted. */
  function Harvested(b: Book, key: Key, cached: bool): Book {
    var d := Dropped(b, key);
    if cached then d.(ready := d.ready + {key}) else d.(wasted := d.wasted + 1)
  }

  /** The last region of `_harvest_prefetches` gives up ready keys that were evicted. */
  function Swept(b: Book, stale: set<Key>): Book {
    b.(ready := b.ready - stale, wasted := b.wasted + |stale|)
  }

  /** `get` finds the key in the cache. */
  function Consumed(b: Book, key: Key): Book {
    if key in b.ready then b.(ready := b.ready - {key}, hits := b.hits + 1) else b
  }

  /** `get` takes over the settled future of a key. */
  function Taken(b: Book, key: Key): Book {
    Dropped(b, key).(hits := b.hits + (if key in b.prefetch then 1 else 0))
  }

  function Closed(b: Book): Book {
    if b.closed then b
    else b.(closed := true, wasted := b.wasted + |b.prefetch| + |b.ready|, futures := map[], prefetch := {}, ready := {})
  }

  // ----- every step keeps the invariant

  lemma StartedOk(b: Book, disk: Key -> Value, limit: nat, key: Key, speculative: bool)
    requires BookOk(b, disk, limit) && !b.closed && key !in b.futures
    requires speculative ==> |b.prefetch| < limit
    ensures BookOk(Started(b, key, speculative), disk, limit)
  {
    var b' := Started(b, key, speculative);
    forall k ensures b'.outstanding[k] == if InFlight(b', k) then 1 else 0 {
      assert k != key ==> InFlight(b', k) == InFlight(b, k);
    }
    assert key !in b.prefetch;
  }

  lemma SettledOk(b: Book, disk: Key -> Value, limit: nat, f: nat, ok: bool)
    requires BookOk(b, disk, limit) && f in b.loads && b.loads[f].status.Pending?
    ensures BookOk(Settled(b, f, ok, disk), disk, limit)
  {
    var b' := Settled(b, f, ok, disk);
    var key := b.loads[f].key;
    if !b.closed {
      assert InFlight(b, key);
      forall k ensures b'.outstanding[k] == if InFlight(b', k) then 1 else 0 {
        assert k != key ==> InFlight(b', k) == InFlight(b, k);
      }
    }
  }

  lemma DroppedOk(b: Book, disk: Key -> Value, limit: nat, key: Key)
    requires BookOk(b, disk, limit) && key in b.futures && !InFlight(b, key)
    ensures BookOk(Dropped(b, key), disk, limit)
    ensures key in b.prefetch ==> |Dropped(b, key).prefetch| == |b.prefetch| - 1
  {
    var b' := Dropped(b, key);
    forall k ensures b'.outstanding[k] == if InFlight(b', k) then 1 else 0 {
      assert k != key ==> InFlight(b', k) == InFlight(b, k);
    }
    assert key !in b.prefetch ==> b'.prefetch == b.prefetch;
  }

  lemma HarvestedOk(b: Book, disk: Key -> Value, limit: nat, key: Key, cached: bool)
    requires BookOk(b, disk, limit) && key in b.prefetch && !InFlight(b, key)
    ensures BookOk(Harvested(b, key, cached), disk, limit)
  {
    DroppedOk(b, disk, limit, key);
    assert key in b.ready ==> b.ready + {key} == b.ready;
  }

  lemma SweptOk(b: Book, disk: Key -> Value, limit: nat, stale: set<Key>)
    requires BookOk(b, disk, limit) && stale <= b.ready
    ensures BookOk(Swept(b, stale), disk, limit)
  {
    assert b.ready == (b.ready - stale) + stale;
  }

  lemma ConsumedOk(b: Book, disk: Key -> Value, limit: nat, key: Key)
    requires BookOk(b, disk, limit)
    ensures BookOk(Consumed(b, key), disk, limit)
  {
  }

  lemma TakenOk(b: Book, disk: Key -> Value, limit: nat, key: Key)
    requires BookOk(b, disk, limit) && key in b.futures && !InFlight(b, key)
    ensures BookOk(Taken(b, key), disk, limit)
  {
    DroppedOk(b, disk, limit, key);
  }

  lemma ClosedOk(b: Book, disk: Key -> Value, limit: nat)
    requires BookOk(b, disk, limit)
    ensures BookOk(Closed(b), disk, limit)
  {
  }

  // ----- every run of locked regions and completions

  datatype Event =
    | Start(key: Key, speculative: bool)
    | Settle(f: nat, ok: bool)
    | Harvest(key: Key, cached: bool)
    | Sweep(stale: set<Key>)
    | Use(key: Key)
    | Take(key: Key)
    | GiveUp(key: Key)
    | Close

  /** What the source checks before the region, and what the executor guarantees. */
  ghost predicate Enabled(b: Book, limit: nat, e: Event) {
    match e
    case Start(key, speculative) => !b.closed && key !in b.futures && (speculative ==> |b.prefetch| < limit)
    case Settle(f, _) => f in b.loads && b.loads[f].status.Pending?
    case Harvest(key, _) => key in b.prefetch && !InFlight(b, key)
    case Sweep(stale) => stale <= b.ready
    case Use(_) => true
    case Take(key) => key in b.futures && !InFlight(b, key)
    case GiveUp(key) => key in b.futures && !InFlight(b, key)
    case Close => true
  }

  ghost function Next(b: Book, disk: Key -> Value, limit: nat, e: Event): Book
    requires Enabled(b, limit, e)
  {
    match e
    case Start(key, speculative) => Started(b, key, speculative)
    case Settle(f, ok) => Settled(b, f, ok, disk)
    case Harvest(key, cached) => Harvested(b, key, cached)
    case Sweep(stale) => Swept(b, stale)
    case Use(key) => Consumed(b, key)
    case Take(key) => Taken(b, key)
    case GiveUp(key) => Dropped(b, key)
    case Close => Closed(b)
  }

  ghost predicate IsRun(states: seq<Book>, events: seq<Event>, disk: Key -> Value, limit: nat) {
    && |states| == |events| + 1 && states[0] == Opened()
    && forall i :: 0 <= i < |events| ==> Enabled(states[i], limit, events[i]) && states[i + 1] == Next(states[i], disk, limit, events[i])
  }

  lemma StepOk(b: Book, disk: Key -> Value, limit: nat, e: Event)
    requires BookOk(b, disk, limit) && Enabled(b, limit, e)
    ensures BookOk(Next(b, disk, limit, e), disk, limit)
  {
    match e
    case Start(key, speculative) => StartedOk(b, disk, limit, key, speculative);
    case Settle(f, ok) => SettledOk(b, disk, limit, f, ok);
    case Harvest(key, cached) => HarvestedOk(b, disk, limit, key, cached);
    case Sweep(stale) => SweptOk(b, disk, limit, stale);
    case Use(key) => ConsumedOk(b, disk, limit, key);
    case Take(key) => TakenOk(b, disk, limit, key);
    case GiveUp(key) => DroppedOk(b, disk, limit, key);
    case Close => ClosedOk(b, disk, limit);
  }

  /** In every reachable state each key has at most one outstanding load, exactly the keys in
      flight have one while the store is open, speculative loads are in flight and within their
      limit, and hits, waste and open prefetches never exceed the prefetches submitted. */
  lemma {:induction false} EveryStateOk(states: seq<Book>, events: seq<Event>, disk: Key -> Value, limit: nat, n: nat)
    requires IsRun(states, events, disk, limit) && n <= |events|
    ensures BookOk(states[n], disk, limit)
    ensures forall k :: states[n].outstanding[k] <= 1
  {
    if n == 0 {
    } else {
      EveryStateOk(states, events, disk, limit, n - 1);
      StepOk(states[n - 1], disk, limit, events[n - 1]);
    }
  }

  /** The prefetches submitted that are neither hits nor waste, neither open nor ready. */
  function Unaccounted(b: Book): int {
    b.submitted - b.hits - b.wasted - |b.prefetch| - |b.ready|
  }

  /** The steps after which one more prefetch is unaccounted for: a prefetch of a key that was still
      ready is harvested into the cache, or `get` gives up a prefetch whose load failed. */
  predicate Loses(b: Book, e: Event) {
    match e
    case Harvest(key, cached) => cached && key in b.ready
    case GiveUp(key) => key in b.prefetch
    case _ => false
  }

  lemma SizeWithout(s: set<Key>, t: set<Key>)
    requires t <= s
    ensures |s - t| == |s| - |t|
  {
    assert s == (s - t) + t;
  }

  lemma StepCounts(b: Book, disk: Key -> Value, limit: nat, e: Event)
    requires BookOk(b, disk, limit) && Enabled(b, limit, e)
    ensures Unaccounted(Next(b, disk, limit, e)) == Unaccounted(b) + if Loses(b, e) then 1 else 0
  {
    match e
    case Start(key, speculative) => assert key !in b.prefetch;
    case Settle(f, ok) =>
    case Harvest(key, cached) =>
      SizeWithout(b.prefetch, {key});
      assert key in b.ready ==> b.ready + {key} == b.ready;
    case Sweep(stale) => SizeWithout(b.ready, stale);
    case Use(key) =>
      if key in b.ready {
        SizeWithout(b.ready, {key});
      }
    case Take(key) => PrefetchWithout(b, key);
    case GiveUp(key) => PrefetchWithout(b, key);
    case Close =>
  }

  lemma PrefetchWithout(b: Book, key: Key)
    ensures |b.prefetch - {key}| == |b.prefetch| - if key in b.prefetch then 1 else 0
  {
    if key in b.prefetch {
      SizeWithout(b.prefetch, {key});
    } else {
      assert b.prefetch - {key} == b.prefetch;
    }
  }

  function Losses(states: seq<Book>, events: seq<Event>, n: nat): nat
    requires n <= |events| <= |states|
  {
    if n == 0 then 0 else Losses(states, events, n - 1) + if Loses(states[n - 1], events[n - 1]) then 1 else 0
  }

  /** In every run the prefetches submitted are exactly the hits, the waste, the open and the ready
      ones, and one for each step that loses one. */
  lemma {:induction false} EveryStateCounts(states: seq<Book>, events: seq<Event>, disk: Key -> Value, limit: nat, n: nat)
    requires IsRun(states, events, disk, limit) && n <= |events|
    ensures var b := states[n];
            b.submitted == b.hits + b.wasted + |b.prefetch| + |b.ready| + Losses(states, events, n)
  {
    if n == 0 {
    } else {
      EveryStateCounts(states, events, disk, limit, n - 1);
      EveryStateOk(states, events, disk, limit, n - 1);
      StepCounts(states[n - 1], disk, limit, events[n - 1]);
    }
  }

  lemma {:induction false} SameIndex(a: seq<Item>, b: seq<Item>, key: Key, n: nat)
    requires n <= |a| == |b| && forall i :: 0 <= i < |a| ==> a[i].key == b[i].key
    ensures IndexFrom(a, key, n) == IndexFrom(b, key, n)
    decreases |a| - n
  {
    if n == |a| {
    } else {
      SameIndex(a, b, key, n + 1);
    }
  }

  // ----- the keys a request asks for

  ghost predicate Lacking(b: Book, items: seq<Item>, key: Key) {
    key !in b.futures && !Listed(items, key)
  }

  /** The first n keys that are neither cached nor in flight, each at its first place. */
  ghost function AllMissing(b: Book, items: seq<Item>, keys: seq<Key>, n: nat): seq<Key>
    requires n <= |keys|
  {
    if n == 0 then []
    else
      var before := AllMissing(b, items, keys, n - 1);
      if Lacking(b, items, keys[n - 1]) && keys[n - 1] !in before then before + [keys[n - 1]] else before
  }

  /** All of them, or as many of the first ones as the speculative limit leaves. */
  ghost function Wanted(b: Book, items: seq<Item>, keys: seq<Key>, speculative: bool, limit: nat): seq<Key>
    requires |b.prefetch| <= limit
  {
    var all := AllMissing(b, items, keys, |keys|);
    if speculative && limit - |b.prefetch| < |all| then all[..limit - |b.prefetch|] else all
  }

  lemma {:induction false} AllMissingOnce(b: Book, items: seq<Item>, keys: seq<Key>, n: nat)
    requires n <= |keys|
    ensures forall k :: k in AllMissing(b, items, keys, n) <==> Lacking(b, items, k) && k in keys[..n]
    ensures forall i, j :: 0 <= i < j < |AllMissing(b, items, keys, n)|
              ==> AllMissing(b, items, keys, n)[i] != AllMissing(b, items, keys, n)[j]
  {
    if n == 0 {
    } else {
      AllMissingOnce(b, items, keys, n - 1);
      assert keys[..n] == keys[..n - 1] + [keys[n - 1]];
    }
  }

  lemma WantedOnce(b: Book, items: seq<Item>, keys: seq<Key>, speculative: bool, limit: nat)
    requires |b.prefetch| <= limit
    ensures var r := Wanted(b, items, keys, speculative, limit);
            && (forall i :: 0 <= i < |r| ==> r[i] in keys && Lacking(b, items, r[i]))
            && (forall i, j :: 0 <= i < j < |r| ==> r[i] != r[j])
            && (speculative ==> |b.prefetch| + |r| <= limit)
            && (!speculative ==> forall k :: k in keys ==> k in r || !Lacking(b, items, k))
  {
    AllMissingOnce(b, items, keys, |keys|);
    var all := AllMissing(b, items, keys, |keys|);
    assert keys[..|keys|] == keys;
    assert forall i :: 0 <= i < |all| ==> all[i] in all;
  }

  lemma OneWanted(b: Book, items: seq<Item>, key: Key, limit: nat)
    requires |b.prefetch| <= limit && Lacking(b, items, key)
    ensures Wanted(b, items, [key], false, limit) == [key]
  {
    assert AllMissing(b, items, [key], 0) == [];
  }

  lemma {:induction false} AllMissingGrows(b: Book, items: seq<Item>, keys: seq<Key>, n: nat, m: nat)
    requires n <= m <= |keys|
    ensures AllMissing(b, items, keys, n) <= AllMissing(b, items, keys, m)
    decreases m - n
  {
    if n == m {
    } else {
      AllMissingGrows(b, items, keys, n, m - 1);
    }
  }

  ghost function Firsts(keys: seq<Key>, n: nat): set<Key>
    requires n <= |keys|
  {
    if n == 0 then {} else Firsts(keys, n - 1) + {keys[n - 1]}
  }

  lemma FirstsDiffer(keys: seq<Key>, n: nat)
    requires n < |keys| && forall i, j :: 0 <= i < j < |keys| ==> keys[i] != keys[j]
    ensures keys[n] !in Firsts(keys, n)
  {
    FirstsAre(keys, n);
  }

  lemma {:induction false} FirstsAre(keys: seq<Key>, n: nat)
    requires n <= |keys|
    ensures forall k :: k in Firsts(keys, n) <==> k in keys[..n]
  {
    if n == 0 {
    } else {
      FirstsAre(keys, n - 1);
      assert keys[..n] == keys[..n - 1] + [keys[n - 1]];
    }
  }

  /** b' is b with the keys handed to the executor, and the count of them when they are speculative. */
  ghost predicate Handed(b: Book, b': Book, keys: set<Key>, count: nat, speculative: bool) {
    && (forall k :: k in b'.futures <==> k in b.futures || k in keys)
    && (forall k :: k in b'.prefetch <==> k in b.prefetch || (speculative && k in keys))
    && (forall k :: k in b.futures && k !in keys ==> b'.futures[k] == b.futures[k])
    && b'.nextFuture == b.nextFuture + count
    && |b'.prefetch| <= |b.prefetch| + (if speculative then count else 0)
    && b'.submitted == b.submitted + (if speculative then count else 0)
    && b'.hits == b.hits && b'.wasted == b.wasted && b'.ready == b.ready
  }

  /** The first n keys have futures numbered from first on. */
  ghost predicate Numbered(b: Book, keys: seq<Key>, n: nat, first: nat) {
    n <= |keys| && forall i :: 0 <= i < n ==> keys[i] in b.futures && b.futures[keys[i]] == first + i
  }

  lemma NumberedStep(b: Book, keys: seq<Key>, n: nat, first: nat, speculative: bool)
    requires n < |keys| && Numbered(b, keys, n, first) && b.nextFuture == first + n
    requires forall i, j :: 0 <= i < j < |keys| ==> keys[i] != keys[j]
    ensures Numbered(Started(b, keys[n], speculative), keys, n + 1, first)
  {
  }

  lemma HandedStep(b: Book, b': Book, keys: set<Key>, count: nat, speculative: bool, key: Key)
    requires Handed(b, b', keys, count, speculative)
    ensures Handed(b, Started(b', key, speculative), keys + {key}, count + 1, speculative)
  {
  }

  // ----- the class

  /** What a call answers: a value, nothing, or one of the exceptions of the source. */
  datatype Answer = Slice(value: Value) | Nothing | StoreClosed | OutOfRange | LoadError | Disappeared

  /** Completions only settle pending loads. */
  ghost predicate OnlySettles(b: Book, b': Book) {
    && b' == b.(loads := b'.loads, outstanding := b'.outstanding) && b'.loads.Keys == b.loads.Keys
    && forall f :: f in b.loads ==> b'.loads[f].key == b.loads[f].key && (!b.loads[f].status.Pending? ==> b'.loads[f] == b.loads[f])
  }

  /** The contents after a lookup at some clock reading. */
  ghost predicate LookedUp(before: EC.Contents, after: EC.Contents, key: Key) {
    exists now: nat :: after == EC.Looked(before, key, now, true)
  }

  lemma LookedAt(before: EC.Contents, after: EC.Contents, key: Key, now: nat)
    requires after == EC.Looked(before, key, now, true)
    ensures LookedUp(before, after, key)
  {
  }

  /** A new entry with these fields is among the items. */
  ghost predicate Entered(items: seq<Item>, key: Key, value: Value, nbytes: nat, pinned: bool, hot: bool) {
    exists e :: e in items && e == Item(key, value, nbytes, pinned, hot, 1, e.touched)
  }

  ghost predicate NoRepeat(keys: seq<Key>) {
    forall i, j :: 0 <= i < j < |keys| ==> keys[i] != keys[j]
  }

  class Store {
    const disk: Key -> Value
    const size: Key -> nat
    const numLayers: nat
    const numExperts: nat
    const maxSpeculative: nat
    const pinned: set<Key>
    /** Whether `_materialize` accepts the slice a future loads; each future is materialized once. */
    const materializes: nat -> bool
    const cache: EC.Cache
    var book: Book
    var freq: map<Key, nat>

    /** Holds at every moment. */
    ghost predicate Inv()
      reads this, cache
    {
      cache.Valid() && OnDisk(cache.items, disk) && BookOk(book, disk, maxSpeculative)
    }

    /** Holds between calls. */
    ghost predicate Valid()
      reads this, cache
    {
      Inv() && Apart(book, cache.items)
    }

    constructor (disk: Key -> Value, size: Key -> nat, numLayers: nat, numExperts: nat, maxSpeculative: nat,
                 pinned: set<Key>, materializes: nat -> bool, cache: EC.Cache)
      requires cache.Valid() && cache.items == []
      ensures Valid() && book == Opened() && this.cache == cache
      ensures this.disk == disk && this.size == size && this.maxSpeculative == maxSpeculative
      ensures this.pinned == pinned && this.materializes == materializes && freq == map[]
    {
      this.disk, this.size, this.numLayers, this.numExperts := disk, size, numLayers, numExperts;
      this.maxSpeculative, this.pinned, this.materializes, this.cache := maxSpeculative, pinned, materializes, cache;
      book, freq := Opened(), map[];
    }

    /** How often an expert was routed to. */
    function Routes(key: Key): nat
      reads this`freq
    {
      if key in freq then freq[key] else 0
    }

    predicate InRange(key: Key) {
      key.Pair? && 0 <= key.first < numLayers && 0 <= key.second < numExperts
    }

    // ----- the executor

    method Complete(f: nat, ok: bool)
      requires BookOk(book, disk, maxSpeculative) && f in book.loads && book.loads[f].status.Pending?
      modifies this`book
      ensures BookOk(book, disk, maxSpeculative) && OnlySettles(old(book), book) && !book.loads[f].status.Pending?
    {
      SettledOk(book, disk, maxSpeculative, f, ok);
      book := Settled(book, f, ok, disk);
    }

    /** Any number of loads complete. */
    method Interfere()
      requires BookOk(book, disk, maxSpeculative)
      modifies this`book
      ensures BookOk(book, disk, maxSpeculative) && OnlySettles(old(book), book)
    {
      var rounds: nat := *;
      while rounds > 0
        invariant BookOk(book, disk, maxSpeculative) && OnlySettles(old(book), book)
      {
        if f: nat :| f in book.loads && book.loads[f].status.Pending? {
          var ok: bool := *;
          Complete(f, ok);
        }
        rounds := rounds - 1;
      }
    }

    /** `future.result()`: wait until the future is settled. */
    method Await(f: nat) returns (status: Status)
      requires BookOk(book, disk, maxSpeculative) && f in book.loads
      modifies this`book
      ensures BookOk(book, disk, maxSpeculative) && OnlySettles(old(book), book)
      ensures !status.Pending? && book.loads[f].status == status
    {
      Interfere();
      if book.loads[f].status.Pending? {
        var ok: bool := *;
        Complete(f, ok);
      }
      status := book.loads[f].status;
    }

    // ----- the cache

    /** `cache.peek`. */
    method CachePeek(key: Key) returns (r: Option<Value>)
      requires OnDisk(cache.items, disk)
      ensures r.Some? <==> Listed(cache.items, key)
      ensures r.Some? ==> r.value == disk(key)
    {
      r := Peek(cache.items, key);
    }

    /** `cache.get`. */
    method CacheGet(key: Key) returns (r: Option<Value>)
      requires cache.Valid() && OnDisk(cache.items, disk)
      modifies cache
      ensures cache.Valid() && OnDisk(cache.items, disk)
      ensures (r.Some? <==> Listed(old(cache.items), key)) && (r.Some? ==> r.value == disk(key))
      ensures LookedUp(old(cache.Held()), cache.Held(), key)
      ensures r.None? ==> cache.items == old(cache.items)
      ensures forall k :: Listed(cache.items, k) ==> Listed(old(cache.items), k)
    {
      var now: nat := *;
      ghost var before, held := cache.items, cache.Held();
      var i := IndexOf(cache.items, key);
      r := cache.Get(key, now, true);
      LookedAt(held, cache.Held(), key, now);
      if i < |before| {
        forall j | 0 <= j < |cache.items|
          ensures cache.items[j].value == disk(cache.items[j].key) && Listed(before, cache.items[j].key)
        {
          ghost var was := if j == |before| - 1 then i else if j < i then j else j + 1;
          assert cache.items[j].key == before[was].key;
          IndexIsFirst(before, before[was].key, 0, was);
        }
      } else {
        assert cache.items == before;
      }
    }

    /** `cache.put` of a slice read from disk. */
    method CachePut(key: Key, value: Value) returns (inserted: bool)
      requires cache.Valid() && OnDisk(cache.items, disk) && value == disk(key)
      modifies cache
      ensures cache.Valid() && OnDisk(cache.items, disk)
      ensures forall k :: Listed(cache.items, k) ==> k == key || Listed(old(cache.items), k)
      ensures inserted ==> Listed(cache.items, key)
      ensures inserted <==> EC.Accepts(old(cache.items), cache.limits, key, size(key))
      ensures inserted && !Listed(old(cache.items), key) ==>
                Entered(cache.items, key, value, size(key), key in pinned, Routes(key) >= 4)
      ensures !inserted ==> cache.items == old(cache.items)
    {
      var now: nat := *;
      var warm := Routes(key) >= 4;
      ghost var before := cache.Held();
      var answer := cache.Put(key, value, size(key), key in pinned, warm, now);
      inserted := answer.Inserted?;
      EC.StoredEntry(before, cache.limits, key, value, size(key), key in pinned, warm, now);
      if inserted {
        IndexIsFirst(cache.items, key, 0, |cache.items| - 1);
        assert EC.Last(cache.items) in cache.items;
        FlagsUnder(before.items, key);
      }
      forall j | 0 <= j < |cache.items|
        ensures cache.items[j].value == disk(cache.items[j].key)
        ensures cache.items[j].key == key || Listed(before.items, cache.items[j].key)
      {
        EC.StoredEntries(before, cache.limits, key, value, size(key), key in pinned, warm, now, j);
        if cache.items[j] in before.items {
          var was :| 0 <= was < |before.items| && before.items[was] == cache.items[j];
          IndexIsFirst(before.items, cache.items[j].key, 0, was);
        }
      }
    }

    // ----- request_many, request and prepare

    /** The first loop of `request_many`: keys neither cached nor in flight, once each, in order,
        and as many as the speculative limit leaves. */
    method Missing(keys: seq<Key>, speculative: bool) returns (missing: seq<Key>)
      requires Valid()
      ensures missing == Wanted(book, cache.items, keys, speculative, maxSpeculative)
      ensures forall i :: 0 <= i < |missing| ==> missing[i] in keys && missing[i] !in book.futures && !Listed(cache.items, missing[i])
      ensures forall i, j :: 0 <= i < j < |missing| ==> missing[i] != missing[j]
      ensures if speculative then |book.prefetch| + |missing| <= maxSpeculative
              else forall k :: k in keys ==> k in missing || k in book.futures || Listed(cache.items, k)
    {
      missing := [];
      var available := if speculative then maxSpeculative - |book.prefetch| else 0;
      WantedOnce(book, cache.items, keys, speculative, maxSpeculative);
      for n := 0 to |keys|
        invariant missing == AllMissing(book, cache.items, keys, n)
        invariant speculative ==> |missing| <= available
      {
        // dict.fromkeys keeps the first of equal keys
        if keys[n] !in missing {
          var cached := CachePeek(keys[n]);
          if cached.None? && keys[n] !in book.futures {
            if speculative && |missing| >= available {
              AllMissingGrows(book, cache.items, keys, n + 1, |keys|);
              assert AllMissing(book, cache.items, keys, n + 1)[..available] == missing;
              return;
            }
            missing := missing + [keys[n]];
          }
        }
      }
    }

    /** `request_many` for keys already validated; returns the keys it asked the executor for. */
    method RequestMany(keys: seq<Key>, speculative: bool) returns (children: seq<Key>)
      requires Valid() && !book.closed
      modifies this`book
      ensures Valid() && !book.closed
      ensures children == Wanted(old(book), cache.items, keys, speculative, maxSpeculative)
      ensures forall k :: k in book.futures <==> k in old(book).futures || k in children
      ensures Handed(old(book), book, Firsts(children, |children|), |children|, speculative)
      ensures Numbered(book, children, |children|, old(book).nextFuture)
      ensures forall k :: k in children ==> k in keys && k !in old(book).futures && !Listed(cache.items, k)
      ensures !speculative ==> forall k :: k in keys ==> k in book.futures || Listed(cache.items, k)
      ensures book.submitted == old(book).submitted + (if speculative then |children| else 0)
    {
      children := Missing(keys, speculative);
      StartAll(children, speculative);
      FirstsAre(children, |children|);
      assert children[..|children|] == children;
      Interfere();
    }

    /** The loop of `request_many` that gives every missing key its future. */
    method StartAll(children: seq<Key>, speculative: bool)
      requires BookOk(book, disk, maxSpeculative) && !book.closed
      requires forall i :: 0 <= i < |children| ==> children[i] !in book.futures
      requires forall i, j :: 0 <= i < j < |children| ==> children[i] != children[j]
      requires speculative ==> |book.prefetch| + |children| <= maxSpeculative
      modifies this`book
      ensures BookOk(book, disk, maxSpeculative) && !book.closed
      ensures Handed(old(book), book, Firsts(children, |children|), |children|, speculative)
      ensures Numbered(book, children, |children|, old(book).nextFuture)
    {
      for n := 0 to |children|
        invariant BookOk(book, disk, maxSpeculative) && !book.closed
        invariant Handed(old(book), book, Firsts(children, n), n, speculative)
        invariant Numbered(book, children, n, old(book).nextFuture)
      {
        FirstsDiffer(children, n);
        HandedStep(old(book), book, Firsts(children, n), n, speculative, children[n]);
        NumberedStep(book, children, n, old(book).nextFuture, speculative);
        StartOne(children[n], speculative);
      }
    }

    method StartOne(key: Key, speculative: bool)
      requires BookOk(book, disk, maxSpeculative) && !book.closed && key !in book.futures
      requires speculative ==> |book.prefetch| < maxSpeculative
      modifies this`book
      ensures BookOk(book, disk, maxSpeculative) && !book.closed && book == Started(old(book), key, speculative)
    {
      StartedOk(book, disk, maxSpeculative, key, speculative);
      book := Started(book, key, speculative);
    }

    /** The call of `request_many` from `request`. */
    method RequestOne(key: Key, speculative: bool)
      requires Valid() && !book.closed && Lacking(book, cache.items, key)
      modifies this`book
      ensures Valid() && !book.closed
      ensures !speculative ==> key in book.futures && book.futures[key] == old(book).nextFuture
      ensures speculative || book.prefetch == old(book).prefetch
      ensures book.hits == old(book).hits && book.wasted == old(book).wasted && book.ready == old(book).ready
      ensures old(book).futures.Keys <= book.futures.Keys
    {
      OneWanted(book, cache.items, key, maxSpeculative);
      var children := RequestMany([key], speculative);
      assert !speculative ==> children[0] == key;
    }

    /** `request`: the future of a key, or None when it is cached or not requested. */
    method Request(key: Key, speculative: bool) returns (f: Option<nat>)
      requires Valid() && !book.closed
      modifies this`book
      ensures Valid() && !book.closed
      ensures f.Some? ==> key in book.futures && book.futures[key] == f.value
      ensures !speculative ==> (f.None? <==> Listed(cache.items, key))
      ensures f.Some? && !speculative ==>
                f.value == if key in old(book).futures then old(book).futures[key] else old(book).nextFuture
      ensures book.prefetch == old(book).prefetch || speculative
      ensures book.hits == old(book).hits && book.wasted == old(book).wasted && book.ready == old(book).ready
      ensures forall k :: k in old(book).futures ==> k in book.futures
    {
      var cached := CachePeek(key);
      if cached.Some? {
        return None;
      }
      Interfere();
      if key in book.futures {
        return Some(book.futures[key]);
      }
      RequestOne(key, speculative);
      f := if key in book.futures then Some(book.futures[key]) else None;
    }

    /** The requests of `prefetch_predictions` for the keys it predicts. */
    method PrefetchAll(keys: seq<Key>)
      requires Valid() && !book.closed
      modifies this`book
      ensures Valid() && !book.closed
    {
      for n := 0 to |keys|
        invariant Valid() && !book.closed
      {
        var f := Request(keys[n], true);
      }
    }

    /** Putting a loaded slice into the cache, outside the lock. */
    method CacheLoaded(key: Key, value: Value) returns (inserted: bool)
      requires Inv() && value == disk(key)
      modifies this`book, cache
      ensures Inv() && OnlySettles(old(book), book)
      ensures forall k :: Listed(cache.items, k) ==> k == key || Listed(old(cache.items), k)
      ensures inserted <==> EC.Accepts(old(cache.items), cache.limits, key, size(key))
      ensures if inserted then Listed(cache.items, key) else cache.items == old(cache.items)
    {
      Interfere();
      inserted := CachePut(key, value);
      Interfere();
    }

    method FinishHarvest(key: Key, cached: bool)
      requires BookOk(book, disk, maxSpeculative) && key in book.prefetch && !InFlight(book, key)
      modifies this`book
      ensures BookOk(book, disk, maxSpeculative) && book == Harvested(old(book), key, cached)
      ensures key !in old(book).ready ==> Unaccounted(book) == Unaccounted(old(book))
    {
      StepCounts(book, disk, maxSpeculative, Harvest(key, cached));
      HarvestedOk(book, disk, maxSpeculative, key, cached);
      book := Harvested(book, key, cached);
    }

    /** The body of the harvesting loop for one settled prefetch. With one consumer the future
        is still the one of its key and the store still open wherever the source checks it. */
    method HarvestOne(key: Key, f: nat)
      requires Valid() && !book.closed && key in book.prefetch && book.futures[key] == f && !book.loads[f].status.Pending?
      modifies this`book, cache
      ensures Valid() && !book.closed && book.prefetch == old(book).prefetch - {key}
      ensures forall k :: k in book.futures <==> k in old(book).futures && k != key
      ensures forall k :: k in book.futures ==> book.futures[k] == old(book).futures[k]
      ensures book.submitted == old(book).submitted && book.hits == old(book).hits
      ensures key !in old(book).ready ==> Unaccounted(book) == Unaccounted(old(book))
      ensures if old(book).loads[f].status.Loaded? && materializes(f) && EC.Accepts(old(cache.items), cache.limits, key, size(key))
              then book.wasted == old(book).wasted && book.ready == old(book).ready + {key} && Listed(cache.items, key)
              else book.wasted == old(book).wasted + 1 && book.ready == old(book).ready && cache.items == old(cache.items)
      ensures book.loads.Keys == old(book).loads.Keys
      ensures forall g :: g in old(book).loads && !old(book).loads[g].status.Pending? ==> book.loads[g] == old(book).loads[g]
    {
      var status := book.loads[f].status;
      var inserted := false;
      if !status.Failed? && materializes(f) {
        inserted := CacheLoaded(key, status.value);
      }
      assert !book.closed && book.futures[key] == f;
      FinishHarvest(key, inserted);
    }

    /** Nothing is lost by a call when no open prefetch was ready before it. */
    twostate predicate Accounted()
      reads this
    {
      old(book).ready !! old(book).prefetch ==> Unaccounted(book) == Unaccounted(old(book)) && book.ready !! book.prefetch
    }

    /** The loop of `_harvest_prefetches` over the prefetches that were settled. */
    method HarvestCompleted(completed: set<Key>)
      requires Valid() && !book.closed && completed <= book.prefetch
      requires forall k :: k in completed ==> !book.loads[book.futures[k]].status.Pending?
      modifies this`book, cache
      ensures Valid() && !book.closed && Accounted() && book.prefetch <= old(book).prefetch
      ensures book.submitted == old(book).submitted && book.hits == old(book).hits
      ensures forall k :: k in completed ==> k !in book.futures
    {
      var todo := completed;
      while todo != {}
        invariant Valid() && !book.closed && Accounted() && todo <= book.prefetch <= old(book).prefetch
        invariant book.submitted == old(book).submitted && book.hits == old(book).hits
        invariant forall k :: k in completed && k !in todo ==> k !in book.futures
        invariant forall k :: k in todo ==> !book.loads[book.futures[k]].status.Pending?
        decreases todo
      {
        var key :| key in todo;
        todo := todo - {key};
        HarvestOne(key, book.futures[key]);
      }
    }

    /** The last region of `_harvest_prefetches`: give up the ready keys that were evicted. */
    method SweepStale()
      requires Valid() && !book.closed
      modifies this`book
      ensures Valid() && !book.closed && Unaccounted(book) == Unaccounted(old(book))
      ensures book == old(book).(ready := book.ready, wasted := book.wasted)
      ensures forall k :: k in book.ready <==> k in old(book).ready && Listed(cache.items, k)
    {
      var stale := FindStale();
      SweptOk(book, disk, maxSpeculative, stale);
      StepCounts(book, disk, maxSpeculative, Sweep(stale));
      book := Swept(book, stale);
    }

    /** `_harvest_prefetches`: settle every completed prefetch, then give up the ready keys that
        were evicted. */
    method HarvestPrefetches()
      requires Valid() && !book.closed
      modifies this`book, cache
      ensures Valid() && !book.closed && Accounted()
      ensures forall k :: k in book.ready ==> Listed(cache.items, k)
      ensures book.prefetch <= old(book).prefetch && book.submitted == old(book).submitted && book.hits == old(book).hits
      ensures forall k :: k in old(book).prefetch && !old(book).loads[old(book).futures[k]].status.Pending?
                ==> k !in book.prefetch && k !in book.futures
    {
      Interfere();
      var completed := set k | k in book.prefetch && !book.loads[book.futures[k]].status.Pending?;
      HarvestCompleted(completed);
      SweepStale();
    }

    /** The ready keys that are no longer cached. */
    method FindStale() returns (stale: set<Key>)
      requires Valid()
      ensures stale <= book.ready && forall k :: k in book.ready ==> (k in stale <==> !Listed(cache.items, k))
    {
      var todo := book.ready;
      stale := {};
      while todo != {}
        invariant todo <= book.ready && stale <= book.ready - todo
        invariant forall k :: k in book.ready - todo ==> (k in stale <==> !Listed(cache.items, k))
        decreases todo
      {
        var key :| key in todo;
        todo := todo - {key};
        var cached := CachePeek(key);
        if cached.None? {
          stale := stale + {key};
        }
      }
    }

    /** One call of `request_many` from `prepare`. */
    method RequestGroup(keys: seq<Key>, start: nat, end: nat)
      requires Valid() && !book.closed && start <= end <= |keys|
      modifies this`book
      ensures Valid() && !book.closed
      ensures forall k :: k in old(book).futures ==> k in book.futures
      ensures forall i :: start <= i < end ==> keys[i] in book.futures || Listed(cache.items, keys[i])
    {
      var children := RequestMany(keys[start..end], false);
      forall i | start <= i < end ensures keys[i] in book.futures || Listed(cache.items, keys[i]) {
        assert keys[i] == keys[start..end][i - start];
      }
    }

    /** The loop of `prepare` over groups of 32. */
    method RequestGroups(keys: seq<Key>)
      requires Valid() && !book.closed
      modifies this`book
      ensures Valid() && !book.closed
      ensures forall i :: 0 <= i < |keys| ==> keys[i] in book.futures || Listed(cache.items, keys[i])
    {
      var start := 0;
      while start < |keys|
        invariant 0 <= start <= |keys| && Valid() && !book.closed
        invariant forall i :: 0 <= i < start ==> keys[i] in book.futures || Listed(cache.items, keys[i])
      {
        var end := if start + 32 < |keys| then start + 32 else |keys|;
        RequestGroup(keys, start, end);
        start := end;
      }
    }

    /** The different keys of the experts of a layer in order, or none when one is out of range. */
    method ValidKeys(layer: int, experts: seq<int>) returns (keys: Option<seq<Key>>)
      ensures keys.None? <==> exists i :: 0 <= i < |experts| && !InRange(Pair(layer, experts[i]))
      ensures keys.Some? ==> NoRepeat(keys.value) && forall k :: k in keys.value ==> InRange(k)
      ensures keys.Some? ==> forall k :: k in keys.value <==> exists i :: 0 <= i < |experts| && k == Pair(layer, experts[i])
    {
      var found: seq<Key> := [];
      for n := 0 to |experts|
        invariant NoRepeat(found) && forall k :: k in found ==> InRange(k)
        invariant forall i :: 0 <= i < n ==> InRange(Pair(layer, experts[i]))
        invariant forall k :: k in found <==> exists i :: 0 <= i < n && k == Pair(layer, experts[i])
      {
        var key := Pair(layer, experts[n]);
        if !InRange(key) {
          return None;
        }
        if key !in found {
          found := found + [key];
        }
      }
      return Some(found);
    }

    /** `prepare`: harvest, then request the different experts of a layer in groups of 32. */
    method Prepare(layer: int, experts: seq<int>) returns (answer: Answer)
      requires Valid()
      modifies this`book, cache
      ensures Valid()
      ensures answer.StoreClosed? <==> old(book.closed)
      ensures answer.StoreClosed? ==> book == old(book)
      ensures answer.OutOfRange? <==>
                !old(book.closed) && (!InRange(Pair(layer, 0)) || exists i :: 0 <= i < |experts| && !InRange(Pair(layer, experts[i])))
      ensures answer.Nothing? ==> forall e :: e in experts ==>
                InRange(Pair(layer, e)) && (Pair(layer, e) in book.futures || Listed(cache.items, Pair(layer, e)))
      ensures answer.StoreClosed? || answer.OutOfRange? || answer.Nothing?
    {
      if book.closed {
        return StoreClosed;
      }
      if !InRange(Pair(layer, 0)) {
        return OutOfRange;
      }
      HarvestPrefetches();
      var keys := ValidKeys(layer, experts);
      if keys.None? {
        return OutOfRange;
      }
      RequestGroups(keys.value);
      forall e | e in experts ensures Pair(layer, e) in keys.value {
        var i :| 0 <= i < |experts| && experts[i] == e;
        assert Pair(layer, experts[i]) == Pair(layer, e);
      }
      answer := Nothing;
    }

    /** The future of a key that is not cached, requested if need be, and its outcome. */
    method AwaitKey(key: Key) returns (f: nat, status: Status)
      requires Valid() && !book.closed && !Listed(cache.items, key)
      modifies this`book
      ensures Valid() && !book.closed && key in book.futures && book.futures[key] == f
      ensures f == if key in old(book).futures then old(book).futures[key] else old(book).nextFuture
      ensures !status.Pending? && book.loads[f].status == status
      ensures book.prefetch == old(book).prefetch && book.ready == old(book).ready
      ensures book.hits == old(book).hits && book.wasted == old(book).wasted
    {
      Interfere();
      var future := if key in book.futures then Some(book.futures[key]) else None;
      if future.None? {
        future := Request(key, false);
      }
      f := future.value;
      status := Await(f);
    }

    /** The part of `get` for a key found in the cache: a ready prefetch is counted as a hit. */
    method UseReady(key: Key)
      requires Valid() && !book.closed
      modifies this`book
      ensures Valid() && !book.closed && book.futures == old(book).futures
      ensures book.ready == old(book).ready - {key} && book.prefetch == old(book).prefetch && book.wasted == old(book).wasted
      ensures book.hits == old(book).hits + (if key in old(book).ready then 1 else 0)
    {
      Interfere();
      ConsumedOk(book, disk, maxSpeculative, key);
      book := Consumed(book, key);
    }

    /** The part of `get` for a key that is not cached. */
    method GetMissing(key: Key) returns (answer: Answer)
      requires Valid() && !book.closed && !Listed(cache.items, key)
      modifies this`book, cache
      ensures Valid() && !book.closed && key !in book.futures
      ensures var f := if key in old(book).futures then old(book).futures[key] else old(book).nextFuture;
              && f in book.loads && book.loads[f].key == key && !book.loads[f].status.Pending?
              && answer == (if book.loads[f].status.Loaded? && materializes(f) then Slice(disk(key)) else LoadError)
      ensures book.ready == old(book).ready && book.wasted == old(book).wasted && book.prefetch == old(book).prefetch - {key}
      ensures book.hits == old(book).hits + (if answer.Slice? && key in old(book).prefetch then 1 else 0)
      ensures if answer.Slice? && EC.Accepts(old(cache.items), cache.limits, key, size(key))
              then Entered(cache.items, key, disk(key), size(key), key in pinned, Routes(key) >= 4)
              else cache.items == old(cache.items)
    {
      var f, status := AwaitKey(key);
      if status.Failed? || !materializes(f) {
        DroppedOk(book, disk, maxSpeculative, key);
        book := Dropped(book, key);
        return LoadError;
      }
      Interfere();
      TakenOk(book, disk, maxSpeculative, key);
      book := Taken(book, key);
      Interfere();
      var inserted := CachePut(key, status.value);
      answer := Slice(status.value);
    }

    /** `get`: the slice on disk, whatever was prefetched, evicted or completed meanwhile, or an
        error; the key never disappears between request and wait. */
    method Get(key: Key) returns (answer: Answer)
      requires Valid()
      modifies this`book, cache
      ensures Valid()
      ensures answer.StoreClosed? <==> old(book.closed)
      ensures answer.StoreClosed? ==> book == old(book)
      ensures answer.OutOfRange? <==> !old(book.closed) && !InRange(key)
      ensures answer.Slice? ==> answer.value == disk(key)
      ensures answer.Slice? || answer.StoreClosed? || answer.OutOfRange? || answer.LoadError?
      ensures answer.Slice? || answer.LoadError? ==> key !in book.futures
      ensures InRange(key) && !old(book.closed) && old(Listed(cache.items, key)) ==>
                && answer.Slice? && book.ready == old(book).ready - {key}
                && book.hits == old(book).hits + (if key in old(book).ready then 1 else 0) && book.wasted == old(book).wasted
                && LookedUp(old(cache.Held()), cache.Held(), key)
      ensures InRange(key) && !old(book.closed) && !old(Listed(cache.items, key)) ==>
                var f := if key in old(book).futures then old(book).futures[key] else old(book).nextFuture;
                && f in book.loads && book.loads[f].key == key && !book.loads[f].status.Pending?
                && answer == (if book.loads[f].status.Loaded? && materializes(f) then Slice(disk(key)) else LoadError)
                && book.ready == old(book).ready && book.wasted == old(book).wasted && book.prefetch == old(book).prefetch - {key}
                && book.hits == old(book).hits + (if answer.Slice? && key in old(book).prefetch then 1 else 0)
      ensures InRange(key) && !old(book.closed) && !old(Listed(cache.items, key)) && answer.Slice? ==>
                if EC.Accepts(old(cache.items), cache.limits, key, size(key))
                then Entered(cache.items, key, disk(key), size(key), key in pinned, Routes(key) >= 4)
                else cache.items == old(cache.items)
      ensures answer.LoadError? ==> cache.items == old(cache.items)
    {
      if book.closed {
        return StoreClosed;
      }
      if !InRange(key) {
        return OutOfRange;
      }
      var value := CacheGet(key);
      if value.None? {
        answer := GetMissing(key);
        return;
      }
      UseReady(key);
      answer := Slice(value.value);
    }

    /** Counting the routed experts. */
    method CountRoutes(keys: seq<Key>)
      modifies this`freq
      ensures forall k :: Routes(k) == old(Routes(k)) + multiset(keys)[k]
    {
      for n := 0 to |keys|
        invariant forall k :: Routes(k) == old(Routes(k)) + multiset(keys[..n])[k]
      {
        assert keys[..n + 1] == keys[..n] + [keys[n]];
        freq := freq[keys[n] := Routes(keys[n]) + 1];
      }
      assert keys[..|keys|] == keys;
    }

    /** The part of `record_route` that reaches the cache: count the routed experts and mark the
        frequent ones hot. */
    method RecordRoute(keys: seq<Key>)
      requires Valid() && !book.closed
      modifies this`freq, cache
      ensures Valid()
      ensures forall k :: Routes(k) == old(Routes(k)) + multiset(keys)[k]
      ensures |cache.items| == |old(cache.items)|
      ensures forall i :: 0 <= i < |cache.items| ==>
                cache.items[i] == if old(cache.items)[i].key in keys
                                  then old(cache.items)[i].(hot := Routes(old(cache.items)[i].key) >= 4)
                                  else old(cache.items)[i]
    {
      CountRoutes(keys);
      ghost var counted := freq;
      for n := 0 to |keys|
        invariant freq == counted
        invariant cache.Valid() && |cache.items| == |old(cache.items)|
        invariant forall i :: 0 <= i < |cache.items| ==>
                    cache.items[i] == if old(cache.items)[i].key in keys[..n]
                                      then old(cache.items)[i].(hot := Routes(old(cache.items)[i].key) >= 4)
                                      else old(cache.items)[i]
      {
        assert keys[..n + 1] == keys[..n] + [keys[n]];
        var found := cache.MarkHot(keys[n], Routes(keys[n]) >= 4);
      }
      assert keys[..|keys|] == keys;
      forall k ensures Listed(cache.items, k) <==> Listed(old(cache.items), k) {
        SameIndex(cache.items, old(cache.items), k, 0);
      }
    }

    /** `close`. */
    method CloseStore()
      requires Valid()
      modifies this`book
      ensures Valid() && book.closed
      ensures old(book.closed) ==> book == old(book)
      ensures !old(book.closed) ==> book.hits == old(book).hits && book.wasted == old(book).wasted + |old(book).prefetch| + |old(book).ready|
    {
      ClosedOk(book, disk, maxSpeculative);
      book := Closed(book);
    }
  }
}
