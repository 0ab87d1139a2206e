/** Open addressing with linear probing.

    The C runtime has three such tables: the cache's slot array (c/src/cache.c) and the
    tokenizer's vocabulary and merge maps (c/src/tokenizer.c). All of them start probing at
    `hash & (nslots - 1)`, step with `(i + 1) & (nslots - 1)` and stop at an empty slot; only
    the cache deletes. The slot counts are powers of two, so a mask is a remainder, and the
    theorems hold for every hash function. */
module ProbeTable {
  import opened Options

  datatype Slot<K, V> = Empty | Used(key: K, value: V)

  // ----- positions on the ring of n slots

  /** The probe step `(i + 1) & (n - 1)`. */
  function Next(i: nat, n: nat): (r: nat)
    requires i < n
    ensures r < n
  {
    if i + 1 == n then 0 else i + 1
  }

  /** The circular distance `(j - i) & (n - 1)`. */
  function Dist(i: nat, j: nat, n: nat): (r: nat)
    requires i < n && j < n
    ensures r < n
  {
    if i <= j then j - i else j - i + n
  }

  /** x lies on the circular path from h up to, not including, j. */
  predicate Between(h: nat, x: nat, j: nat, n: nat)
    requires h < n && x < n && j < n
  {
    Dist(h, x, n) < Dist(h, j, n)
  }

  /** The branches above are the remainders the source computes. */
  lemma RingArithmetic(i: nat, j: nat, n: nat)
    requires i < n && j < n
    ensures Next(i, n) == (i + 1) % n && Dist(i, j, n) == (j - i) % n
  {
    if i > j {
      assert j - i == n * -1 + (j - i + n);
    }
    if i + 1 == n {
      assert n % n == 0;
    }
  }

  /** The home slot `hash(key) & (n - 1)`. */
  function Home<K>(hash: K -> nat, key: K, n: nat): (r: nat)
    requires n > 0
    ensures r < n
  {
    hash(key) % n
  }

  // ----- the table invariant

  /** Every slot from h up to, not including, j is used. */
  ghost predicate PathFull<K, V>(s: seq<Slot<K, V>>, h: nat, j: nat)
    requires h < |s| && j < |s|
  {
    forall x :: 0 <= x < |s| && Between(h, x, j, |s|) ==> s[x].Used?
  }

  ghost predicate Distinct<K, V>(s: seq<Slot<K, V>>) {
    forall i, j :: 0 <= i < j < |s| && s[i].Used? && s[j].Used? ==> s[i].key != s[j].key
  }

  /** No empty slot lies between an entry and its home. */
  ghost predicate Reachable<K, V>(s: seq<Slot<K, V>>, hash: K -> nat) {
    forall j :: 0 <= j < |s| && s[j].Used? ==> PathFull(s, Home(hash, s[j].key, |s|), j)
  }

  ghost predicate Holds<K, V>(s: seq<Slot<K, V>>, k: K, v: V) {
    exists i :: 0 <= i < |s| && s[i] == Used(k, v)
  }

  /** The used slots are exactly the pairs of the map m, each once. */
  ghost predicate Represents<K, V>(s: seq<Slot<K, V>>, m: map<K, V>) {
    && Distinct(s)
    && (forall i :: 0 <= i < |s| && s[i].Used? ==> s[i].key in m && m[s[i].key] == s[i].value)
    && (forall k {:trigger Holds(s, k, m[k])} :: k in m ==> Holds(s, k, m[k]))
  }

  ghost predicate TableOk<K, V>(s: seq<Slot<K, V>>, hash: K -> nat, m: map<K, V>) {
    Represents(s, m) && Reachable(s, hash)
  }

  // ----- lookups

  /** The probe went from h to i over slots that hold other keys. */
  ghost predicate OnlyOtherKeys<K, V>(s: seq<Slot<K, V>>, key: K, h: nat, i: nat)
    requires h < |s| && i < |s|
  {
    forall x :: 0 <= x < |s| && Between(h, x, i, |s|) ==> s[x].Used? && s[x].key != key
  }

  lemma PresentKey<K, V>(s: seq<Slot<K, V>>, hash: K -> nat, m: map<K, V>, key: K) returns (j: nat)
    requires TableOk(s, hash, m) && key in m
    ensures j < |s| && s[j] == Used(key, m[key]) && PathFull(s, Home(hash, key, |s|), j)
  {
    assert Holds(s, key, m[key]);
    j :| 0 <= j < |s| && s[j] == Used(key, m[key]);
  }

  /** A probe that meets only other keys and then an empty slot proves the key absent. */
  lemma EmptySlotMeansAbsent<K, V>(s: seq<Slot<K, V>>, hash: K -> nat, m: map<K, V>, key: K, i: nat)
    requires i < |s| && s[i].Empty? && TableOk(s, hash, m)
    requires OnlyOtherKeys(s, key, Home(hash, key, |s|), i)
    ensures key !in m
  {
    if key in m {
      var j := PresentKey(s, hash, m, key);
    }
  }

  // ----- insertion

  lemma InsertKeepsTable<K, V>(s: seq<Slot<K, V>>, hash: K -> nat, m: map<K, V>, i: nat, key: K, value: V)
    requires TableOk(s, hash, m) && i < |s| && s[i].Empty? && key !in m
    requires PathFull(s, Home(hash, key, |s|), i)
    ensures TableOk(s[i := Used(key, value)], hash, m[key := value])
  {
    var t := s[i := Used(key, value)];
    forall j | 0 <= j < |t| && t[j].Used? ensures PathFull(t, Home(hash, t[j].key, |t|), j) {
      if j != i {
        assert PathFull(s, Home(hash, s[j].key, |s|), j);
      }
    }
    var m' := m[key := value];
    forall k | k in m' ensures Holds(t, k, m'[k]) {
      if k == key {
        assert t[i] == Used(key, value);
      } else {
        assert Holds(s, k, m[k]);
        var j :| 0 <= j < |s| && s[j] == Used(k, m[k]);
        assert t[j] == Used(k, m[k]);
      }
    }
  }

  /** Replacing the value under a key. */
  lemma OverwriteKeepsTable<K, V>(s: seq<Slot<K, V>>, hash: K -> nat, m: map<K, V>, i: nat, key: K, value: V)
    requires TableOk(s, hash, m) && i < |s| && s[i].Used? && s[i].key == key
    ensures TableOk(s[i := Used(key, value)], hash, m[key := value]) && |m[key := value]| == |m|
  {
    var t, m' := s[i := Used(key, value)], m[key := value];
    forall j | 0 <= j < |t| && t[j].Used? ensures PathFull(t, Home(hash, t[j].key, |t|), j) {
      assert s[j].key == t[j].key && PathFull(s, Home(hash, s[j].key, |s|), j);
    }
    forall k | k in m' ensures Holds(t, k, m'[k]) {
      if k == key {
        assert t[i] == Used(key, value);
      } else {
        assert Holds(s, k, m[k]);
        var j :| 0 <= j < |s| && s[j] == Used(k, m[k]);
        assert t[j] == Used(k, m[k]);
      }
    }
    assert m'.Keys == m.Keys;
  }

  // ----- counting: a table whose map is smaller than the array has an empty slot

  lemma {:induction false} FullTableSize<K, V>(s: seq<Slot<K, V>>, m: map<K, V>)
    requires Represents(s, m) && forall i :: 0 <= i < |s| ==> s[i].Used?
    ensures |m| == |s|
  {
    if |s| == 0 {
      assert forall k :: k in m ==> Holds(s, k, m[k]);
      assert m == map[];
    } else {
      var n := |s| - 1;
      var k := s[n].key;
      var p, q := s[..n], m - {k};
      forall x | x in q ensures Holds(p, x, q[x]) {
        assert Holds(s, x, m[x]);
        var j :| 0 <= j < |s| && s[j] == Used(x, m[x]);
        assert p[j] == Used(x, q[x]);
      }
      FullTableSize(p, q);
      assert m == q[k := m[k]];
    }
  }

  lemma EmptySlotExists<K, V>(s: seq<Slot<K, V>>, m: map<K, V>) returns (e: nat)
    requires Represents(s, m) && |m| < |s|
    ensures e < |s| && s[e].Empty?
  {
    if forall i :: 0 <= i < |s| ==> s[i].Used? {
      FullTableSize(s, m);
    }
    e :| 0 <= e < |s| && s[e].Empty?;
  }

  // ----- backshift deletion

  /** The table while a deletion is under way: i is the hole, every slot strictly between i
      and j has been moved or left in place, and the only empty slot that may lie between an
      entry and its home is the hole, for entries the scan has not reached yet. */
  ghost predicate Backshifting<K, V>(s: seq<Slot<K, V>>, hash: K -> nat, i: nat, j: nat)
    requires i < |s| && j < |s|
  {
    && s[i].Empty? && i != j
    && (forall x :: 0 <= x < |s| && 0 < Dist(i, x, |s|) < Dist(i, j, |s|) ==> s[x].Used?)
    && (forall y, x :: 0 <= y < |s| && 0 <= x < |s| && s[y].Used? && s[x].Empty?
          && Between(Home(hash, s[y].key, |s|), x, y, |s|)
          ==> x == i && Dist(i, y, |s|) >= Dist(i, j, |s|))
  }

  lemma RemovalStarts<K, V>(s: seq<Slot<K, V>>, hash: K -> nat, m: map<K, V>, i: nat)
    requires TableOk(s, hash, m) && i < |s| && s[i].Used? && |s| > 1
    ensures var t := s[i := Empty];
            Represents(t, m - {s[i].key}) && Backshifting(t, hash, i, Next(i, |s|))
  {
    var t, q := s[i := Empty], m - {s[i].key};
    forall k | k in q ensures Holds(t, k, q[k]) {
      assert Holds(s, k, m[k]);
      var j :| 0 <= j < |s| && s[j] == Used(k, m[k]);
      assert t[j] == Used(k, q[k]);
    }
    forall y, x | 0 <= y < |t| && 0 <= x < |t| && t[y].Used? && t[x].Empty?
      && Between(Home(hash, t[y].key, |t|), x, y, |t|)
      ensures x == i && Dist(i, y, |t|) >= Dist(i, Next(i, |t|), |t|)
    {
      assert PathFull(s, Home(hash, s[y].key, |s|), y);
    }
  }

  /** The entry at j moves into the hole when its home is not strictly inside (i, j]. */
  predicate MovesIntoHole(i: nat, j: nat, h: nat, n: nat)
    requires i < n && j < n && h < n
  {
    Dist(i, h, n) == 0 || Dist(i, h, n) > Dist(i, j, n)
  }

  lemma MoveKeepsMap<K, V>(s: seq<Slot<K, V>>, m: map<K, V>, i: nat, j: nat)
    requires Represents(s, m) && i < |s| && j < |s| && s[i].Empty? && s[j].Used?
    ensures Represents(s[i := s[j]][j := Empty], m)
  {
    var t := s[i := s[j]][j := Empty];
    forall k | k in m ensures Holds(t, k, m[k]) {
      assert Holds(s, k, m[k]);
      var x :| 0 <= x < |s| && s[x] == Used(k, m[k]);
      assert t[if x == j then i else x] == Used(k, m[k]);
    }
  }

  /** Moving an entry from j into the hole i only shortens the path from its home. */
  lemma HoleIsOnThePath(i: nat, j: nat, h: nat, n: nat)
    requires i < n && j < n && h < n && i != j && MovesIntoHole(i, j, h, n)
    ensures forall x :: 0 <= x < n && Between(h, x, i, n) ==> Between(h, x, j, n)
  {
  }

  /** An empty slot on a path of the new table is the slot just vacated. */
  lemma MoveLeavesOnlyOneGap<K, V>(s: seq<Slot<K, V>>, hash: K -> nat, i: nat, j: nat, y: nat, x: nat)
    requires i < |s| && j < |s| && Backshifting(s, hash, i, j) && s[j].Used?
    requires MovesIntoHole(i, j, Home(hash, s[j].key, |s|), |s|)
    requires y < |s| && x < |s| && x != i && y != j && s[x].Empty?
    requires y != i ==> s[y].Used?
    ensures !Between(Home(hash, s[if y == i then j else y].key, |s|), x, y, |s|)
  {
    if y == i {
      var h := Home(hash, s[j].key, |s|);
      HoleIsOnThePath(i, j, h, |s|);
      assert !Between(h, x, j, |s|);
    }
  }

  lemma MoveKeepsBackshifting<K, V>(s: seq<Slot<K, V>>, hash: K -> nat, i: nat, j: nat)
    requires i < |s| && j < |s| && Backshifting(s, hash, i, j) && s[j].Used?
    requires MovesIntoHole(i, j, Home(hash, s[j].key, |s|), |s|)
    ensures Backshifting(s[i := s[j]][j := Empty], hash, j, Next(j, |s|))
  {
    var t := s[i := s[j]][j := Empty];
    forall y, x | 0 <= y < |t| && 0 <= x < |t| && t[y].Used? && t[x].Empty? && x != j
      ensures !Between(Home(hash, t[y].key, |t|), x, y, |t|)
    {
      MoveLeavesOnlyOneGap(s, hash, i, j, y, x);
    }
  }

  lemma StayKeepsBackshifting<K, V>(s: seq<Slot<K, V>>, hash: K -> nat, i: nat, j: nat)
    requires i < |s| && j < |s| && Backshifting(s, hash, i, j) && s[j].Used?
    requires !MovesIntoHole(i, j, Home(hash, s[j].key, |s|), |s|)
    ensures Next(j, |s|) != i ==> Backshifting(s, hash, i, Next(j, |s|))
  {
  }

  /** Both facts about a deletion under way. */
  ghost predicate Deleting<K, V>(s: seq<Slot<K, V>>, hash: K -> nat, m: map<K, V>, i: nat, j: nat) {
    i < |s| && j < |s| && Represents(s, m) && Backshifting(s, hash, i, j)
  }

  /** One round of the scan; e is an empty slot other than the hole. */
  lemma DeletionStep<K, V>(s: seq<Slot<K, V>>, hash: K -> nat, m: map<K, V>, i: nat, j: nat, e: nat)
    requires Deleting(s, hash, m, i, j) && s[j].Used? && e < |s| && s[e].Empty? && e != i
    ensures var n := |s|;
            if MovesIntoHole(i, j, Home(hash, s[j].key, n), n)
            then Deleting(s[i := s[j]][j := Empty], hash, m, j, Next(j, n))
            else Deleting(s, hash, m, i, Next(j, n))
    ensures Dist(Next(j, |s|), e, |s|) < Dist(j, e, |s|)
  {
    if MovesIntoHole(i, j, Home(hash, s[j].key, |s|), |s|) {
      MoveKeepsMap(s, m, i, j);
      MoveKeepsBackshifting(s, hash, i, j);
    } else {
      assert 0 < Dist(i, e, |s|) && Dist(i, e, |s|) >= Dist(i, j, |s|);
      StayKeepsBackshifting(s, hash, i, j);
    }
  }

  lemma RemovalEnds<K, V>(s: seq<Slot<K, V>>, hash: K -> nat, i: nat, j: nat)
    requires i < |s| && j < |s| && Backshifting(s, hash, i, j) && s[j].Empty?
    ensures Reachable(s, hash)
  {
  }

  lemma RepresentsUnique<K, V>(s: seq<Slot<K, V>>, m: map<K, V>, q: map<K, V>)
    requires Represents(s, m) && Represents(s, q)
    ensures m == q
  {
    forall k | k in m ensures k in q && q[k] == m[k] {
      assert Holds(s, k, m[k]);
    }
    forall k | k in q ensures k in m {
      assert Holds(s, k, q[k]);
    }
  }

  lemma RepresentsAppend<K, V>(s: seq<Slot<K, V>>, n: nat, m: map<K, V>)
    requires n < |s| && Distinct(s) && Represents(s[..n], m)
    ensures Represents(s[..n + 1], if s[n].Used? then m[s[n].key := s[n].value] else m)
    ensures s[n].Used? ==> s[n].key !in m
  {
    var p, t := s[..n], s[..n + 1];
    assert forall k :: k in m ==> Holds(p, k, m[k]);
    var q := if s[n].Used? then m[s[n].key := s[n].value] else m;
    forall k | k in q ensures Holds(t, k, q[k]) {
      if s[n].Used? && k == s[n].key {
        assert t[n] == Used(k, q[k]);
      } else {
        assert Holds(p, k, m[k]);
        var j :| 0 <= j < |p| && p[j] == Used(k, m[k]);
        assert t[j] == Used(k, q[k]);
      }
    }
  }

  /** Probe for the first empty slot from the home of a key that is not in the table. */
  method FirstEmpty<K, V>(slots: array<Slot<K, V>>, hash: K -> nat, key: K, ghost m: map<K, V>) returns (i: nat)
    requires Represents(slots[..], m) && |m| < slots.Length
    ensures i < slots.Length && slots[i].Empty? && PathFull(slots[..], Home(hash, key, slots.Length), i)
  {
    var n := slots.Length;
    ghost var e := EmptySlotExists(slots[..], m);
    i := Home(hash, key, n);
    while slots[i].Used?
      invariant i < n && PathFull(slots[..], Home(hash, key, n), i)
      decreases Dist(i, e, n)
    {
      i := Next(i, n);
    }
  }

  /** Probe from the home of a key until its slot or an empty slot; e is some empty slot. */
  method ProbeRing<K(==), V>(slots: array<Slot<K, V>>, h: nat, key: K, ghost e: nat) returns (i: nat)
    requires h < slots.Length && e < slots.Length && slots[e].Empty?
    ensures i < slots.Length && OnlyOtherKeys(slots[..], key, h, i)
    ensures slots[i].Used? ==> slots[i].key == key
  {
    i := h;
    while slots[i].Used? && slots[i].key != key
      invariant i < slots.Length && OnlyOtherKeys(slots[..], key, h, i)
      decreases Dist(i, e, slots.Length)
    {
      i := Next(i, slots.Length);
    }
  }

  method Probe<K(==), V>(slots: array<Slot<K, V>>, hash: K -> nat, key: K, ghost m: map<K, V>) returns (i: nat)
    requires TableOk(slots[..], hash, m) && |m| < slots.Length
    ensures i < slots.Length
    ensures if slots[i].Used? then slots[i].key == key && key in m else key !in m
  {
    ghost var e := EmptySlotExists(slots[..], m);
    i := ProbeRing(slots, Home(hash, key, slots.Length), key, e);
    if slots[i].Empty? {
      EmptySlotMeansAbsent(slots[..], hash, m, key, i);
    }
  }

  /** The second loop of `remove_from_table`: walk the cluster after the hole and move back
      every entry whose home is not strictly between the hole and it. */
  method Backshift<K, V>(slots: array<Slot<K, V>>, hash: K -> nat, hole: nat, ghost m: map<K, V>, ghost e: nat)
    requires hole < slots.Length && e < slots.Length && e != hole && slots[e].Empty?
    requires Deleting(slots[..], hash, m, hole, Next(hole, slots.Length))
    modifies slots
    ensures TableOk(slots[..], hash, m)
  {
    var n := slots.Length;
    var i: nat, j: nat := hole, Next(hole, n);
    while slots[j].Used?
      invariant i < n && j < n && slots[e].Empty? && e != i
      invariant Deleting(slots[..], hash, m, i, j)
      decreases Dist(j, e, n)
    {
      ghost var s := slots[..];
      DeletionStep(s, hash, m, i, j, e);
      if MovesIntoHole(i, j, Home(hash, slots[j].key, n), n) {
        slots[i] := slots[j];
        slots[j] := Empty;
        assert slots[..] == s[i := s[j]][j := Empty];
        i := j;
      }
      j := Next(j, n);
    }
    RemovalEnds(slots[..], hash, i, j);
  }

  class Table<K(==), V> {
    const hash: K -> nat
    var slots: array<Slot<K, V>>
    var count: nat
    ghost var entries: map<K, V>

    ghost predicate Valid()
      reads this, slots
    {
      slots.Length > 0 && count == |entries| < slots.Length && TableOk(slots[..], hash, entries)
    }

    constructor (hash: K -> nat, n: nat)
      requires n > 0
      ensures Valid() && fresh(slots) && this.hash == hash
      ensures slots.Length == n && entries == map[]
    {
      this.hash := hash;
      slots := new Slot<K, V>[n](_ => Empty);
      count, entries := 0, map[];
    }

    /** `find_slot`, `vmap_get` and `mmap_find`. */
    method Find(key: K) returns (r: Option<V>)
      requires Valid()
      ensures r == Lookup(entries, key)
    {
      var i := Probe(slots, hash, key, entries);
      if slots[i].Used? {
        return Some(slots[i].value);
      }
      return None;
    }

    /** Place an entry whose key is not in the table. */
    method Insert(key: K, value: V)
      requires Valid() && key !in entries && |entries| + 1 < slots.Length
      modifies this`entries, this`count, slots
      ensures Valid() && entries == old(entries)[key := value]
    {
      var i := FirstEmpty(slots, hash, key, entries);
      InsertKeepsTable(slots[..], hash, entries, i, key, value);
      ghost var t := slots[..][i := Used(key, value)];
      slots[i] := Used(key, value);
      assert slots[..] == t;
      entries, count := entries[key := value], count + 1;
    }

    /** `vmap_put` and `mmap_put`: grow at a load of 3/4, then replace or insert. */
    method Put(key: K, value: V)
      requires Valid() && slots.Length >= 4
      modifies this, slots
      ensures Valid() && entries == old(entries)[key := value]
      ensures slots == old(slots) || fresh(slots)
      ensures slots.Length >= 4
    {
      if count * 4 >= slots.Length * 3 {
        Grow();
      }
      var i := Probe(slots, hash, key, entries);
      if slots[i].Used? {
        OverwriteKeepsTable(slots[..], hash, entries, i, key, value);
        ghost var t := slots[..][i := Used(key, value)];
        slots[i] := Used(key, value);
        assert slots[..] == t;
        entries := entries[key := value];
      } else {
        Insert(key, value);
      }
    }

    /** `grow_table`, `vmap_grow` and `mmap_grow`: rehash into an array of twice the size. */
    method Grow()
      requires Valid()
      modifies this`slots
      ensures Valid() && fresh(slots) && slots.Length == 2 * old(slots.Length)
    {
      var ns := new Slot<K, V>[2 * slots.Length](_ => Empty);
      ghost var done: map<K, V> := map[];
      for i := 0 to slots.Length
        invariant fresh(ns) && ns.Length == 2 * slots.Length
        invariant slots == old(slots) && slots[..] == old(slots[..])
        invariant Represents(slots[..][..i], done) && |done| <= i
        invariant TableOk(ns[..], hash, done)
      {
        RepresentsAppend(slots[..], i, done);
        if slots[i].Used? {
          var key, value := slots[i].key, slots[i].value;
          var j := FirstEmpty(ns, hash, key, done);
          InsertKeepsTable(ns[..], hash, done, j, key, value);
          ghost var t := ns[..][j := Used(key, value)];
          ns[j] := Used(key, value);
          assert ns[..] == t;
          done := done[key := value];
        }
      }
      assert slots[..][..slots.Length] == slots[..];
      RepresentsUnique(slots[..], entries, done);
      slots := ns;
    }

    /** `remove_from_table`: empty the slot of a key and backshift the entries after it. */
    method Remove(key: K)
      requires Valid() && key in entries
      modifies this`entries, this`count, slots
      ensures Valid() && entries == old(entries) - {key}
    {
      var n := slots.Length;
      ghost var e := EmptySlotExists(slots[..], entries);
      var i := Probe(slots, hash, key, entries);
      RemovalStarts(slots[..], hash, entries, i);
      ghost var t := slots[..][i := Empty];
      slots[i] := Empty;
      assert slots[..] == t;
      assert entries == (entries - {key})[key := entries[key]];
      entries, count := entries - {key}, count - 1;
      Backshift(slots, hash, i, entries, e);
    }
  }
}
