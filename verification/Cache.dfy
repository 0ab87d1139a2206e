/** c/src/cache.c on the heap: an intrusive recency list, an open-addressing table and the
    counters of `cache_t`. Every operation is proved to do to the list of items what the
    functions of CacheSpec say. The lock makes each operation one step. */
module Cache {
  import opened Options
  import opened CacheSpec
  import ProbeTable

  class Entry {
    const key: Key
    const value: Value
    const nbytes: nat
    var pinned: bool
    var hot: bool
    var freq: nat
    var touched: nat
    var prev: Entry?
    var next: Entry?

    constructor (key: Key, value: Value, nbytes: nat, pinned: bool, hot: bool, now: nat)
      ensures this.key == key && this.value == value && this.nbytes == nbytes
      ensures this.pinned == pinned && this.hot == hot && freq == 1 && touched == now
      ensures prev == null && next == null
    {
      this.key, this.value, this.nbytes := key, value, nbytes;
      this.pinned, this.hot, this.freq, this.touched := pinned, hot, 1, now;
      prev, next := null, null;
    }

    ghost function Item(): Item
      reads this
    {
      CacheSpec.Item(key, value, nbytes, pinned, hot, freq, touched)
    }
  }

  /** Names a place of a list: the facts below are used only at places named. */
  ghost predicate At(i: int) {
    true
  }

  ghost predicate NoDup(s: seq<Entry>) {
    forall i, j {:trigger At(i), At(j)} :: At(i) && At(j) && 0 <= i < j < |s| ==> s[i] != s[j]
  }

  lemma NoDupOthers(s: seq<Entry>, k: nat)
    requires NoDup(s) && k < |s|
    ensures forall i :: 0 <= i < |s| && i != k ==> s[i] != s[k]
  {
    forall i | 0 <= i < |s| && i != k ensures s[i] != s[k] {
      assert At(i) && At(k);
    }
  }

  lemma NoDupDrop(s: seq<Entry>, k: nat)
    requires NoDup(s) && k < |s|
    ensures NoDup(Drop(s, k)) && s[k] !in Drop(s, k)
  {
    var t := Drop(s, k);
    forall i, j | At(i) && At(j) && 0 <= i < j < |t| ensures t[i] != t[j] {
      assert At(if i < k then i else i + 1) && At(if j < k then j else j + 1);
    }
    NoDupOthers(s, k);
  }

  /** The list of items a list of entries stands for. */
  ghost predicate Shows(order: seq<Entry>, items: seq<Item>)
    reads order
  {
    |items| == |order| && forall i {:trigger At(i)} :: At(i) && 0 <= i < |order| ==> items[i] == order[i].Item()
  }

  lemma ShownDrop(order: seq<Entry>, items: seq<Item>, k: nat)
    requires Shows(order, items) && k < |order|
    ensures Shows(Drop(order, k), Drop(items, k))
  {
    forall i | At(i) && 0 <= i < |order| - 1 ensures Drop(items, k)[i] == Drop(order, k)[i].Item() {
      assert At(if i < k then i else i + 1);
    }
  }

  /** The doubly linked list through the entries, most recent first. */
  class Recency {
    var head: Entry?
    var tail: Entry?
    ghost var order: seq<Entry>

    ghost predicate Valid()
      reads this, order
    {
      && NoDup(order)
      && head == (if order == [] then null else order[0])
      && tail == (if order == [] then null else order[|order| - 1])
      && (forall i {:trigger At(i)} :: At(i) && 0 <= i < |order| ==>
            && order[i].prev == (if i == 0 then null else order[i - 1])
            && order[i].next == (if i + 1 == |order| then null else order[i + 1]))
    }

    constructor ()
      ensures Valid() && order == []
    {
      head, tail, order := null, null, [];
    }

    /** The pointer writes of `unlink_entry`: the neighbours of the entry at k skip it. */
    method Bypass(e: Entry, ghost k: nat)
      requires Valid() && k < |order| && order[k] == e
      modifies this`head, this`tail, order`prev, order`next
      ensures e.prev == null && e.next == null
      ensures head == (if k == 0 then old(e.next) else old(head)) && tail == (if k + 1 == |order| then old(e.prev) else old(tail))
      ensures forall i {:trigger At(i)} :: At(i) && 0 <= i < |order| && i != k ==>
                && order[i].prev == (if i == k + 1 then old(e.prev) else old(order[i].prev))
                && order[i].next == (if i + 1 == k then old(e.next) else old(order[i].next))
    {
      assert At(k) && At(k - 1) && At(k + 1);
      NoDupOthers(order, k);
      if e.prev != null {
        NoDupOthers(order, k - 1);
        assert order[k - 1] in order;
        e.prev.next := e.next;
      } else {
        head := e.next;
      }
      if e.next != null {
        NoDupOthers(order, k + 1);
        assert order[k + 1] in order;
        e.next.prev := e.prev;
      } else {
        tail := e.prev;
      }
      e.prev, e.next := null, null;
    }

    /** `unlink_entry`; k is the entry's place in the list. */
    method Unlink(e: Entry, ghost k: nat)
      requires Valid() && k < |order| && order[k] == e
      modifies this, order`prev, order`next
      ensures Valid() && order == Drop(old(order), k)
      ensures e.prev == null && e.next == null
    {
      assert At(k) && At(k - 1) && At(k + 1);
      NoDupDrop(order, k);
      Bypass(e, k);
      ghost var was := order;
      order := Drop(order, k);
      forall i | At(i) && 0 <= i < |order|
        ensures order[i].prev == (if i == 0 then null else order[i - 1])
        ensures order[i].next == (if i + 1 == |order| then null else order[i + 1])
      {
        ghost var j := if i < k then i else i + 1;
        assert At(j) && order[i] == was[j];
      }
    }

    /** `link_front`. */
    method LinkFront(e: Entry)
      requires Valid() && e !in order
      modifies this, order`prev, e`prev, e`next
      ensures Valid() && order == [e] + old(order)
    {
      assert At(0) && (order != [] ==> order[0] in order);
      e.prev, e.next := null, head;
      if head != null {
        head.prev := e;
      }
      head := e;
      if tail == null {
        tail := e;
      }
      order := [e] + order;
      forall i, j | At(i) && At(j) && 0 <= i < j < |order| ensures order[i] != order[j] {
        assert At(i - 1) && At(j - 1);
        assert order[j] == old(order)[j - 1] && order[j] in old(order);
      }
      forall i | At(i) && 0 <= i < |order|
        ensures order[i].prev == (if i == 0 then null else order[i - 1])
        ensures order[i].next == (if i + 1 == |order| then null else order[i + 1])
      {
        assert At(i - 1);
        if i > 0 {
          assert order[i] == old(order)[i - 1] && order[i] in old(order);
        }
      }
    }

    /** Unlink an entry of the list that shows the given items. */
    method Take(e: Entry, ghost k: nat, ghost items: seq<Item>)
      requires Valid() && Shows(order, items) && k < |order| && order[k] == e
      modifies this, order`prev, order`next
      ensures Valid() && order == Drop(old(order), k) && Shows(order, Drop(items, k))
      ensures forall i :: 0 <= i < |order| ==> order[i] in old(order)
    {
      ShownDrop(order, items, k);
      ghost var rest := Drop(order, k);
      Unlink(e, k);
      forall i | At(i) && 0 <= i < |rest| ensures rest[i] in old(order) && rest[i].Item() == old(rest[i].Item()) {
        assert rest[i] == old(order)[if i < k then i else i + 1];
      }
      forall i | 0 <= i < |order| ensures order[i] in old(order) {
        assert At(i);
      }
    }

    /** Link a new entry at the front of the list that shows the given items. */
    method Prepend(e: Entry, ghost items: seq<Item>)
      requires Valid() && Shows(order, items) && e !in order
      modifies this, order`prev, e`prev, e`next
      ensures Valid() && order == [e] + old(order) && Shows(order, [e.Item()] + items)
      ensures forall i :: 0 <= i < |order| ==> order[i] == e || order[i] in old(order)
    {
      LinkFront(e);
      forall i | At(i) && 0 < i < |order| ensures ([e.Item()] + items)[i] == order[i].Item() {
        assert At(i - 1) && order[i] == old(order)[i - 1];
      }
    }

    /** Set the flags of an entry of the list that shows the given items. */
    method SetFlags(e: Entry, pinned: bool, hot: bool, ghost k: nat, ghost items: seq<Item>)
      requires Valid() && Shows(order, items) && k < |order| && order[k] == e
      modifies e`pinned, e`hot
      ensures Valid() && Shows(order, items[k := items[k].(pinned := pinned, hot := hot)])
    {
      assert At(k);
      NoDupOthers(order, k);
      e.pinned, e.hot := pinned, hot;
    }

    method MoveToFront(e: Entry, ghost k: nat)
      requires Valid() && k < |order| && order[k] == e
      modifies this, order`prev, order`next
      ensures Valid() && order == [e] + Drop(old(order), k)
    {
      NoDupDrop(order, k);
      Unlink(e, k);
      LinkFront(e);
    }

    /** The hit branch of `cache_get`: count and stamp the entry, then move it to the front. */
    method Touch(e: Entry, now: nat, ghost k: nat, ghost items: seq<Item>)
      requires Valid() && Shows(order, items) && k < |order| && order[k] == e
      modifies this, order
      ensures Valid() && order == [e] + Drop(old(order), k)
      ensures Shows(order, CacheSpec.Touch(items, k, now))
    {
      NoDupOthers(order, k);
      e.freq := e.freq + 1;
      e.touched := now;
      MoveToFront(e, k);
      assert At(k) && e.Item() == items[k].(freq := items[k].freq + 1, touched := now);
      forall i | At(i) && 0 < i < |order| ensures CacheSpec.Touch(items, k, now)[i] == order[i].Item() {
        ghost var j := if i - 1 < k then i - 1 else i;
        assert At(j) && order[i] == old(order)[j] && old(order)[j] != e;
        assert order[i].Item() == old(order[j].Item());
        TouchedPlace(items, k, now, i);
      }
    }
  }

  // ----- the table and the list hold the same entries

  ghost predicate Mapped(entries: map<Key, Entry>, order: seq<Entry>) {
    && (forall i {:trigger At(i)} :: At(i) && 0 <= i < |order| ==> order[i].key in entries && entries[order[i].key] == order[i])
    && (forall k :: k in entries ==> entries[k] in order && entries[k].key == k)
    && |entries| == |order|
  }

  lemma MappedDrop(entries: map<Key, Entry>, order: seq<Entry>, k: nat)
    requires Mapped(entries, order) && k < |order| && NoDup(order)
    ensures Mapped(entries - {order[k].key}, Drop(order, k))
  {
    assert At(k);
    NoDupDrop(order, k);
    var key := order[k].key;
    var q, rest := entries - {key}, Drop(order, k);
    forall i | 0 <= i < |rest| ensures rest[i].key in q && q[rest[i].key] == rest[i] {
      var j := if i < k then i else i + 1;
      assert At(j) && rest[i] == order[j] && rest[i] in rest;
    }
    forall x | x in q ensures q[x] in rest && q[x].key == x {
      var j :| 0 <= j < |order| && order[j] == entries[x];
      assert rest[if j < k then j else j - 1] == entries[x];
    }
    assert entries == q[key := order[k]];
  }

  lemma MappedFront(entries: map<Key, Entry>, order: seq<Entry>, e: Entry)
    requires Mapped(entries, order) && e.key !in entries
    ensures Mapped(entries[e.key := e], [e] + order)
  {
    var q, all := entries[e.key := e], [e] + order;
    forall i | 0 < i < |all| ensures all[i].key in q && q[all[i].key] == all[i] {
      assert At(i - 1) && all[i] == order[i - 1];
    }
    forall x | x in q ensures q[x] in all {
      if x == e.key {
        assert all[0] == e;
      } else {
        var j :| 0 <= j < |order| && order[j] == entries[x];
        assert all[j + 1] == entries[x];
      }
    }
  }

  lemma MappedMove(entries: map<Key, Entry>, order: seq<Entry>, k: nat)
    requires Mapped(entries, order) && k < |order| && NoDup(order)
    ensures Mapped(entries, [order[k]] + Drop(order, k))
  {
    assert At(k);
    var key := order[k].key;
    MappedDrop(entries, order, k);
    MappedFront(entries - {key}, Drop(order, k), order[k]);
    assert (entries - {key})[key := order[k]] == entries;
  }

  /** The table finds the entry the list shows under a key. */
  lemma MappedIndex(entries: map<Key, Entry>, order: seq<Entry>, items: seq<Item>, key: Key)
    requires Mapped(entries, order) && Shows(order, items)
    ensures var i := IndexOf(items, key);
            if key in entries then i < |order| && order[i] == entries[key] && items[i] == entries[key].Item() else i == |items|
  {
    var i := IndexOf(items, key);
    assert At(i);
    if key in entries {
      var j :| 0 <= j < |order| && order[j] == entries[key];
      assert At(j);
      IndexIsFirst(items, key, 0, j);
    }
  }

  lemma ShownKeysDistinct(entries: map<Key, Entry>, order: seq<Entry>, items: seq<Item>)
    requires Mapped(entries, order) && Shows(order, items)
    requires NoDup(order)
    ensures DistinctKeys(items)
  {
    forall i, j | 0 <= i < j < |items| ensures items[i].key != items[j].key {
      NoDupOthers(order, i);
      assert At(i) && At(j);
    }
  }

  /** The state after an accepted put of an entry for which so many were evicted. */
  ghost function Accepted(st: State, e: Item, evicted: nat): State {
    var items := [e] + st.items;
    st.(items := items, peak := Max(st.peak, Bytes(items)), evictions := st.evictions + evicted)
  }

  /** What is left of a put once the old entry is dropped and the eviction loop has ended. */
  lemma PutReserved(st: State, cfg: Config, key: Key, value: Value, nbytes: nat, pin: bool, hot: bool, now: nat,
                    ev: Eviction, pinned: bool, warm: bool)
    requires cfg.maxBytes == 0 || nbytes <= cfg.maxBytes
    requires ev == Evict(Without(st.items, key), cfg, nbytes)
    requires var i := IndexOf(st.items, key);
             && pinned == (pin || (i < |st.items| && st.items[i].pinned))
             && warm == (hot || (i < |st.items| && st.items[i].hot))
    ensures Put(st, cfg, key, value, nbytes, pin, hot, now) ==
              if ev.ok then Outcome(Accepted(st.(items := ev.items), CacheSpec.Item(key, value, nbytes, pinned, warm, 1, now), ev.count), true)
              else Outcome(st.(items := ev.items, rejected := st.rejected + 1), false)
  {
  }

  class Store {
    const cfg: Config
    const table: ProbeTable.Table<Key, Entry>
    const list: Recency
    var count: nat
    var bytes: nat
    var pinnedCount: nat
    var peak: nat
    var hits: nat
    var misses: nat
    var evictions: nat
    var rejected: nat
    ghost var items: seq<Item>

    /** The table and the list are well formed and hold the same entries. */
    ghost predicate Structured()
      reads this, table, table.slots, list, list.order
    {
      table.Valid() && list.Valid() && Mapped(table.entries, list.order)
    }

    /** The counters are the sums over the items. */
    ghost predicate Counted()
      reads this
    {
      bytes == Bytes(items) && count == |items| && pinnedCount == PinnedCount(items)
    }

    ghost predicate Valid()
      reads this, table, table.slots, list, list.order
    {
      && Structured() && Shows(list.order, items) && Counted()
      && table.slots.Length >= 4 && count <= table.slots.Length * 3 / 4
    }

    /** The state on values. */
    ghost function State(): State
      reads this
    {
      CacheSpec.State(items, peak, hits, misses, evictions, rejected)
    }

    /** Storage is only ever replaced by new storage. */
    twostate predicate Local()
      reads this, table, list
    {
      && (table.slots == old(table.slots) || fresh(table.slots))
      && (forall i :: 0 <= i < |list.order| ==> list.order[i] in old(list.order) || fresh(list.order[i]))
    }

    /** Entries left the list and nothing was allocated. */
    twostate predicate Shrunk()
      reads this, table, list
    {
      table.slots == old(table.slots) && forall i :: 0 <= i < |list.order| ==> list.order[i] in old(list.order)
    }

    /** `cache_init`. */
    constructor (cfg: Config, hash: Key -> nat)
      ensures Valid() && this.cfg == cfg && State() == Initial()
      ensures fresh(table) && fresh(table.slots) && fresh(list) && list.order == []
    {
      this.cfg := cfg;
      table := new ProbeTable.Table(hash, 1024);
      list := new Recency();
      count, bytes, pinnedCount, peak := 0, 0, 0, 0;
      hits, misses, evictions, rejected := 0, 0, 0, 0;
      items := [];
    }

    /** `cache_peek`. */
    method PeekValue(key: Key) returns (r: Option<Value>)
      requires Valid()
      ensures r == Peek(items, key)
    {
      var e := table.Find(key);
      MappedIndex(table.entries, list.order, items, key);
      r := if e.Some? then Some(e.value.value) else None;
    }

    /** `cache_get` at clock reading now. */
    method GetValue(key: Key, now: nat) returns (r: Option<Value>)
      requires Valid()
      modifies this`hits, this`misses, this`items, list, list.order
      ensures Valid() && Local()
      ensures State() == Get(old(State()), key, now) && r == Peek(old(items), key)
    {
      ghost var next := Get(State(), key, now);
      var found := table.Find(key);
      MappedIndex(table.entries, list.order, items, key);
      if found.None? {
        misses := misses + 1;
        return None;
      }
      r := Some(found.value.value);
      hits := hits + 1;
      Hit(found.value, now, IndexOf(items, key), next.items);
    }

    /** Count, stamp and move the entry at place k. */
    method Hit(e: Entry, now: nat, ghost k: nat, ghost next: seq<Item>)
      requires Valid() && k < |list.order| && list.order[k] == e && next == Touch(items, k, now)
      modifies this`items, list, list.order
      ensures Valid() && Local()
      ensures items == next
    {
      MappedMove(table.entries, list.order, k);
      SumsOfTouch(items, k, now);
      list.Touch(e, now, k, items);
      items := next;
    }

    /** Remove a key from the table; the list stays. */
    method Forget(key: Key, ghost shown: seq<Item>)
      requires table.Valid() && key in table.entries && list.Valid() && Shows(list.order, shown)
      modifies table`entries, table`count, table.slots
      ensures table.Valid() && table.entries == old(table.entries) - {key} && list.Valid() && Shows(list.order, shown)
    {
      table.Remove(key);
    }

    /** Take the entry at place k out of the list and the table. */
    method Detach(e: Entry, ghost k: nat, ghost shown: seq<Item>)
      requires Structured() && Shows(list.order, shown) && k < |list.order| && list.order[k] == e
      modifies table, table.slots, list, list.order
      ensures Structured() && Shows(list.order, Drop(shown, k)) && Shrunk()
    {
      assert At(k);
      MappedDrop(table.entries, list.order, k);
      list.Take(e, k, shown);
      Forget(e.key, Drop(shown, k));
    }

    /** `drop_entry` for the entry at place k. */
    method DropEntry(e: Entry, ghost k: nat)
      requires Valid() && k < |list.order| && list.order[k] == e
      modifies this`bytes, this`count, this`pinnedCount, this`items, table, table.slots, list, list.order
      ensures Valid() && Shrunk()
      ensures items == Drop(old(items), k)
    {
      assert At(k);
      SumsOfDrop(items, k);
      bytes := bytes - e.nbytes;
      if e.pinned {
        pinnedCount := pinnedCount - 1;
      }
      count := count - 1;
      ghost var shown := items;
      items := Drop(items, k);
      Detach(e, k, shown);
    }

    /** `cache_pin` and `cache_unpin`. */
    method SetPin(key: Key, pinned: bool) returns (changed: bool)
      requires Valid()
      modifies this`items, this`pinnedCount, list.order
      ensures Valid() && Local()
      ensures Outcome(State(), changed) == SetPinned(old(State()), key, pinned)
    {
      changed := false;
      var e := table.Find(key);
      MappedIndex(table.entries, list.order, items, key);
      if e.Some? && e.value.pinned != pinned {
        ghost var k := IndexOf(items, key);
        SumsOfFlag(items, k, pinned, items[k].hot);
        list.SetFlags(e.value, pinned, e.value.hot, k, items);
        pinnedCount := if pinned then pinnedCount + 1 else pinnedCount - 1;
        items := items[k := items[k].(pinned := pinned)];
        changed := true;
      }
    }

    /** `cache_mark_hot`. */
    method SetHot(key: Key, hot: bool) returns (found: bool)
      requires Valid()
      modifies this`items, list.order
      ensures Valid() && Local()
      ensures Outcome(State(), found) == MarkHot(old(State()), key, hot)
    {
      found := false;
      var e := table.Find(key);
      MappedIndex(table.entries, list.order, items, key);
      if e.Some? {
        ghost var k := IndexOf(items, key);
        SumsOfFlag(items, k, items[k].pinned, hot);
        list.SetFlags(e.value, e.value.pinned, hot, k, items);
        items := items[k := items[k].(hot := hot)];
        found := true;
      }
    }

    /** The inner loops of pick_victim: the bytes cached for a partition. */
    method PartitionUsage(part: Part) returns (usage: nat)
      requires Valid()
      ensures usage == Usage(items, part)
    {
      usage := 0;
      var x := list.head;
      ghost var i := 0;
      assert At(0);
      while x != null
        invariant 0 <= i <= |list.order| && x == (if i < |list.order| then list.order[i] else null)
        invariant usage + Total(PartBytes(part), items, i) == Usage(items, part)
        decreases |list.order| - i
      {
        assert At(i) && At(i + 1);
        if Partition(x.key) == part {
          usage := usage + x.nbytes;
        }
        x, i := x.next, i + 1;
      }
    }

    /** The first pass of pick_victim: is some unpinned entry's partition over its share? */
    method FindOver() returns (over: bool)
      requires Valid()
      ensures over == AnyOver(items, cfg)
    {
      over := false;
      if cfg.partitions <= 0 {
        return;
      }
      var e := list.tail;
      ghost var n := |list.order|;
      assert At(n - 1);
      while e != null
        invariant 0 <= n <= |list.order| && e == (if n == 0 then null else list.order[n - 1])
        invariant forall i :: n <= i < |items| ==> !OverShare(items, cfg, i)
        decreases n
      {
        assert At(n - 1) && At(n - 2);
        if !e.pinned {
          var usage := PartitionUsage(Partition(e.key));
          if usage > Fair(cfg) {
            assert OverShare(items, cfg, n - 1);
            return true;
          }
        }
        e, n := e.prev, n - 1;
      }
    }

    /** The locals of pick_victim against the scan on values. */
    ghost predicate Holding(best: Entry?, score: real, touched: nat, scan: Best)
      reads list
    {
      if best == null then scan.NoBest?
      else scan.Best? && scan.at < |list.order| && list.order[scan.at] == best && scan.score == score && scan.touched == touched
    }

    /** The comparison at the end of the scan's loop body, for the eligible entry at n. */
    method Compare(best: Entry?, bestScore: real, bestTouched: nat, e: Entry, ghost n: nat)
      returns (best': Entry?, score': real, touched': nat)
      requires Valid() && n < |list.order| && list.order[n] == e && Eligible(items, cfg, n)
      requires Holding(best, bestScore, bestTouched, Scan(items, cfg, n + 1))
      ensures Holding(best', score', touched', Scan(items, cfg, n))
    {
      ghost var scan := Scan(items, cfg, n + 1);
      assert At(n) && (scan.Best? ==> At(scan.at));
      best', score', touched' := best, bestScore, bestTouched;
      if best != null && !e.hot && best.hot {
        return e, 0.0, e.touched;
      }
      if best != null && e.hot && !best.hot {
        return;
      }
      var score;
      match cfg.policy {
        case Lru => score := 0.0;
        case Lfu => score := e.freq as real;
        case Adaptive => score := (e.freq + (if e.hot then 4 else 0)) as real / (if e.nbytes != 0 then e.nbytes else 1) as real;
      }
      var better;
      if best == null {
        better := true;
      } else if cfg.policy == Lru {
        better := e.touched < bestTouched;
      } else {
        better := score < bestScore || (score == bestScore && e.touched < bestTouched);
      }
      if better {
        return e, score, e.touched;
      }
    }

    /** The body of the scan's loop, for the entry at n. */
    method Visit(best: Entry?, bestScore: real, bestTouched: nat, e: Entry, over: bool, ghost n: nat)
      returns (best': Entry?, score': real, touched': nat)
      requires Valid() && n < |list.order| && list.order[n] == e && over == AnyOver(items, cfg)
      requires Holding(best, bestScore, bestTouched, Scan(items, cfg, n + 1))
      ensures Holding(best', score', touched', Scan(items, cfg, n))
    {
      assert At(n);
      var eligible := !e.pinned;
      if eligible && cfg.partitions > 0 && over {
        var usage := PartitionUsage(Partition(e.key));
        eligible := usage > Fair(cfg);
      }
      best', score', touched' := best, bestScore, bestTouched;
      if eligible {
        best', score', touched' := Compare(best, bestScore, bestTouched, e, n);
      }
    }

    /** `pick_victim`. */
    method PickVictim() returns (best: Entry?)
      requires Valid()
      ensures best == null <==> Victim(items, cfg).None?
      ensures best != null ==> list.order[Victim(items, cfg).value] == best
    {
      best := null;
      var bestScore, bestTouched := 0.0, 0;
      var over := FindOver();
      var e := list.tail;
      ghost var n := |list.order|;
      assert At(n - 1);
      while e != null
        invariant 0 <= n <= |list.order| && e == (if n == 0 then null else list.order[n - 1])
        invariant Holding(best, bestScore, bestTouched, Scan(items, cfg, n))
        decreases n
      {
        assert At(n - 1) && At(n - 2);
        best, bestScore, bestTouched := Visit(best, bestScore, bestTouched, e, over, n - 1);
        e, n := e.prev, n - 1;
      }
    }

    /** One round of the eviction loop: drop the victim, if there is one. */
    method EvictOne(nbytes: nat) returns (found: bool)
      requires Valid() && !Fits(items, cfg, nbytes)
      modifies this`bytes, this`count, this`pinnedCount, this`items, table, table.slots, list, list.order
      ensures Valid() && Shrunk()
      ensures found ==> |items| == |old(items)| - 1
      ensures Evict(old(items), cfg, nbytes) ==
                if found then var rest := Evict(items, cfg, nbytes); Eviction(rest.ok, rest.items, rest.count + 1)
                else Eviction(false, items, 0)
    {
      var victim := PickVictim();
      found := victim != null;
      if victim != null {
        DropEntry(victim, Victim(items, cfg).value);
      }
    }

    /** The eviction loop of cache_put. */
    method MakeRoom(nbytes: nat) returns (ok: bool, evicted: nat)
      requires Valid()
      modifies this`bytes, this`count, this`pinnedCount, this`items, table, table.slots, list, list.order
      ensures Valid() && Shrunk()
      ensures Eviction(ok, items, evicted) == Evict(old(items), cfg, nbytes)
    {
      evicted := 0;
      ghost var goal := Evict(items, cfg, nbytes);
      while cfg.maxBytes > 0 && bytes + nbytes > cfg.maxBytes
        invariant Valid() && Shrunk()
        invariant var r := Evict(items, cfg, nbytes); goal == Eviction(r.ok, r.items, evicted + r.count)
        decreases |items|
      {
        var found := EvictOne(nbytes);
        if !found {
          return false, evicted;
        }
        evicted := evicted + 1;
      }
      ok := true;
    }

    /** Grow the table when one more entry would leave it more than 3/4 full. */
    method GrowTable()
      requires Valid()
      modifies table
      ensures Valid() && (table.slots == old(table.slots) || fresh(table.slots))
      ensures count + 1 <= table.slots.Length * 3 / 4 && table.entries == old(table.entries)
    {
      if count + 1 > table.slots.Length * 3 / 4 {
        table.Grow();
      }
    }

    /** Enter a new entry in the table and at the front of the list. */
    method Attach(e: Entry, ghost shown: seq<Item>)
      requires Structured() && Shows(list.order, shown) && e !in list.order && e.key !in table.entries
      requires |list.order| + 1 < table.slots.Length
      modifies table, table.slots, list, list.order`prev, e`prev, e`next
      ensures Structured() && Shows(list.order, [e.Item()] + shown) && table.slots == old(table.slots)
      ensures forall i :: 0 <= i < |list.order| ==> list.order[i] == e || list.order[i] in old(list.order)
    {
      MappedFront(table.entries, list.order, e);
      table.Insert(e.key, e);
      list.Prepend(e, shown);
    }

    /** Drop the old entry under a key and evict until the new one fits. */
    method Reserve(key: Key, nbytes: nat, pin: bool, hot: bool) returns (ok: bool, pinned: bool, warm: bool, evicted: nat)
      requires Valid()
      modifies this`bytes, this`count, this`pinnedCount, this`items, table, table.slots, list, list.order
      ensures Valid() && Shrunk()
      ensures Eviction(ok, items, evicted) == Evict(Without(old(items), key), cfg, nbytes)
      ensures var i := IndexOf(old(items), key);
              && pinned == (pin || (i < |old(items)| && old(items)[i].pinned))
              && warm == (hot || (i < |old(items)| && old(items)[i].hot))
      ensures key !in table.entries
    {
      var found := table.Find(key);
      MappedIndex(table.entries, list.order, items, key);
      ShownKeysDistinct(table.entries, list.order, items);
      EvictLacksKey(items, cfg, nbytes, key);
      pinned, warm := pin, hot;
      if found.Some? {
        pinned := pin || found.value.pinned;
        warm := hot || found.value.hot;
        DropEntry(found.value, IndexOf(items, key));
      }
      ok, evicted := MakeRoom(nbytes);
      MappedIndex(table.entries, list.order, items, key);
    }

    /** Count a new entry. */
    method CountIn(e: Entry, ghost next: seq<Item>)
      requires Counted() && next == [e.Item()] + items
      modifies this`bytes, this`count, this`pinnedCount, this`peak, this`items
      ensures Counted() && items == next && count == old(count) + 1 && peak == Max(old(peak), Bytes(next))
    {
      SumsOfFront(e.Item(), items);
      items := next;
      bytes := bytes + e.nbytes;
      peak := if bytes > peak then bytes else peak;
      count := count + 1;
      if e.pinned {
        pinnedCount := pinnedCount + 1;
      }
    }

    /** The end of cache_put: enter a new entry and count it. */
    method Add(e: Entry, ghost next: seq<Item>)
      requires Valid() && e !in list.order && e.key !in table.entries
      requires next == [e.Item()] + items && count + 1 <= table.slots.Length * 3 / 4
      modifies this`bytes, this`count, this`pinnedCount, this`peak, this`items
      modifies table, table.slots, list, list.order`prev, e`prev, e`next
      ensures Valid() && table.slots == old(table.slots)
      ensures forall i :: 0 <= i < |list.order| ==> list.order[i] == e || list.order[i] in old(list.order)
      ensures items == next && peak == Max(old(peak), Bytes(next))
    {
      ghost var shown := items;
      CountIn(e, next);
      Attach(e, shown);
    }

    /** Make the new entry and add it. */
    method Enter(key: Key, value: Value, nbytes: nat, pinned: bool, hot: bool, now: nat, ghost next: seq<Item>)
      requires Valid() && key !in table.entries
      requires next == [CacheSpec.Item(key, value, nbytes, pinned, hot, 1, now)] + items
      modifies this`bytes, this`count, this`pinnedCount, this`peak, this`items
      modifies table, table.slots, list, list.order
      ensures Valid() && Local()
      ensures items == next && peak == Max(old(peak), Bytes(next))
    {
      GrowTable();
      var e := new Entry(key, value, nbytes, pinned, hot, now);
      Add(e, next);
    }

    /** The accepted branch of cache_put. */
    method Accept(key: Key, value: Value, nbytes: nat, pinned: bool, hot: bool, now: nat, evicted: nat)
      requires Valid() && key !in table.entries
      modifies this`bytes, this`count, this`pinnedCount, this`peak, this`items, this`evictions
      modifies table, table.slots, list, list.order
      ensures Valid() && Local()
      ensures State() == Accepted(old(State()), CacheSpec.Item(key, value, nbytes, pinned, hot, 1, now), evicted)
    {
      evictions := evictions + evicted;
      Enter(key, value, nbytes, pinned, hot, now, [CacheSpec.Item(key, value, nbytes, pinned, hot, 1, now)] + items);
    }

    /** Insert the entry, or refuse it. */
    method Finish(ok: bool, key: Key, value: Value, nbytes: nat, pinned: bool, hot: bool, now: nat, evicted: nat)
      requires Valid() && key !in table.entries
      modifies this, table, table.slots, list, list.order
      ensures Valid() && Local()
      ensures State() == if ok then Accepted(old(State()), CacheSpec.Item(key, value, nbytes, pinned, hot, 1, now), evicted)
                         else old(State()).(rejected := old(State()).rejected + 1)
    {
      if ok {
        Accept(key, value, nbytes, pinned, hot, now, evicted);
      } else {
        Refuse();
      }
    }

    /** The branches of cache_put that insert nothing. */
    method Refuse()
      requires Valid()
      modifies this`rejected
      ensures Valid() && State() == old(State()).(rejected := old(State()).rejected + 1)
    {
      rejected := rejected + 1;
    }

    /** The part of cache_put before it decides, and what is left to do. */
    method ReserveFor(key: Key, value: Value, nbytes: nat, pin: bool, hot: bool, now: nat)
      returns (ok: bool, pinned: bool, warm: bool, evicted: nat)
      requires Valid() && (cfg.maxBytes == 0 || nbytes <= cfg.maxBytes)
      modifies this`bytes, this`count, this`pinnedCount, this`items, table, table.slots, list, list.order
      ensures Valid() && Shrunk() && key !in table.entries
      ensures Put(old(State()), cfg, key, value, nbytes, pin, hot, now) ==
                if ok then Outcome(Accepted(State(), CacheSpec.Item(key, value, nbytes, pinned, warm, 1, now), evicted), true)
                else Outcome(State().(rejected := State().rejected + 1), false)
    {
      ghost var was := State();
      ok, pinned, warm, evicted := Reserve(key, nbytes, pin, hot);
      PutReserved(was, cfg, key, value, nbytes, pin, hot, now, Eviction(ok, items, evicted), pinned, warm);
    }

    /** `cache_put` for an entry no larger than the budget. */
    method PutFitting(key: Key, value: Value, nbytes: nat, pin: bool, hot: bool, now: nat) returns (ok: bool)
      requires Valid() && (cfg.maxBytes == 0 || nbytes <= cfg.maxBytes)
      modifies this, table, table.slots, list, list.order
      ensures Valid() && Local()
      ensures Outcome(State(), ok) == Put(old(State()), cfg, key, value, nbytes, pin, hot, now)
    {
      var pinned, warm, evicted;
      ok, pinned, warm, evicted := ReserveFor(key, value, nbytes, pin, hot, now);
      Finish(ok, key, value, nbytes, pinned, warm, now, evicted);
    }

    /** `cache_put` at clock reading now. */
    method PutValue(key: Key, value: Value, nbytes: nat, pin: bool, hot: bool, now: nat) returns (ok: bool)
      requires Valid()
      modifies this, table, table.slots, list, list.order
      ensures Valid() && Local()
      ensures Outcome(State(), ok) == Put(old(State()), cfg, key, value, nbytes, pin, hot, now)
    {
      if cfg.maxBytes > 0 && nbytes > cfg.maxBytes {
        Refuse();
        return false;
      }
      ok := PutFitting(key, value, nbytes, pin, hot, now);
    }
  }
}
