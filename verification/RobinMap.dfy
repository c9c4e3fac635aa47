/** The runtime's hash map: open addressing with Robin Hood displacement, cached hashes, early exit on probe
    length, backward-shift delete and doubling resize.  Every operation is proved against a plain finite map,
    for any hash and any compatible equality. */
module RobinMap {
  import opened Ranges
  import opened RobinTable
  import opened Bits
  import opened Options

  const INITIAL_CAP := 8
  const LOAD_FACTOR := 75

  // ---------- The plain map ----------

  /** No two keys of the map are equal for the caller. */
  ghost predicate Proper<K, V>(m: map<K, V>, f: Keys<K>) {
    forall j, k :: j in m && k in m && f.eq(j, k) ==> j == k
  }

  ghost predicate Has<K(!new), V>(m: map<K, V>, f: Keys<K>, k: K) { exists j :: j in m && f.eq(j, k) }

  ghost function Lookup<K(!new), V>(m: map<K, V>, f: Keys<K>, k: K): Option<V> {
    if Has(m, f, k) then var j :| j in m && f.eq(j, k); Some(m[j]) else None
  }

  /** An equal key keeps its own spelling and gets the new value. */
  ghost function Put<K(!new), V>(m: map<K, V>, f: Keys<K>, k: K, v: V): map<K, V> {
    if Has(m, f, k) then map j | j in m :: if f.eq(j, k) then v else m[j] else m[k := v]
  }

  ghost function Remove<K(!new), V>(m: map<K, V>, f: Keys<K>, k: K): map<K, V> {
    map j | j in m && !f.eq(j, k) :: m[j]
  }

  lemma LookupIs<K(!new), V>(m: map<K, V>, f: Keys<K>, j: K, k: K)
    requires Compatible(f) && Proper(m, f) && j in m && f.eq(j, k)
    ensures Lookup(m, f, k) == Some(m[j])
  {
    var i :| i in m && f.eq(i, k) && Lookup(m, f, k) == Some(m[i]);
    assert f.eq(k, j) && f.eq(i, j);
  }

  lemma EqClasses<K(!new)>(f: Keys<K>, i: K, k: K, x: K)
    requires Compatible(f)
    ensures f.eq(i, x) && f.eq(i, k) ==> f.eq(k, x)
    ensures f.eq(k, x) && f.eq(i, x) ==> f.eq(i, k)
  {
    assert f.eq(i, k) ==> f.eq(k, i);
    assert f.eq(k, x) ==> f.eq(x, k);
  }

  /** Put is the plain map's update: it is seen under every equal key and under no other. */
  lemma LookupAfterPut<K(!new), V>(m: map<K, V>, f: Keys<K>, k: K, v: V, x: K)
    requires Compatible(f) && Proper(m, f)
    ensures Proper(Put(m, f, k, v), f)
    ensures Lookup(Put(m, f, k, v), f, x) == if f.eq(k, x) then Some(v) else Lookup(m, f, x)
    ensures |Put(m, f, k, v)| == |m| + if Has(m, f, k) then 0 else 1
  {
    var p := Put(m, f, k, v);
    if Has(m, f, k) {
      assert p.Keys == m.Keys;
      var j :| j in m && f.eq(j, k);
      if f.eq(k, x) {
        assert f.eq(j, x);
        LookupIs(p, f, j, x);
      } else if Has(m, f, x) {
        var i :| i in m && f.eq(i, x);
        EqClasses(f, i, k, x);
        LookupIs(p, f, i, x);
        LookupIs(m, f, i, x);
      }
    } else {
      forall i, j | i in p && j in p && f.eq(i, j) ensures i == j { assert f.eq(j, i); }
      if f.eq(k, x) {
        LookupIs(p, f, k, x);
      } else if Has(m, f, x) {
        var i :| i in m && f.eq(i, x);
        assert i != k;
        LookupIs(p, f, i, x);
        LookupIs(m, f, i, x);
      }
    }
  }

  /** Remove is the plain map's deletion. */
  lemma LookupAfterRemove<K(!new), V>(m: map<K, V>, f: Keys<K>, k: K, x: K)
    requires Compatible(f) && Proper(m, f)
    ensures Proper(Remove(m, f, k), f)
    ensures Lookup(Remove(m, f, k), f, x) == if f.eq(k, x) then None else Lookup(m, f, x)
    ensures |Remove(m, f, k)| == |m| - if Has(m, f, k) then 1 else 0
  {
    var p := Remove(m, f, k);
    if Has(m, f, k) {
      var j :| j in m && f.eq(j, k);
      forall i | i in m && f.eq(i, k) ensures i == j { assert f.eq(k, j) && f.eq(i, j); }
      assert p.Keys == m.Keys - {j};
    } else {
      assert p == m;
    }
    if f.eq(k, x) {
      forall i | i in p ensures !f.eq(i, x) { EqClasses(f, i, k, x); }
    } else if Has(m, f, x) {
      var i :| i in m && f.eq(i, x);
      EqClasses(f, i, k, x);
      LookupIs(p, f, i, x);
      LookupIs(m, f, i, x);
    }
  }

  // ---------- Table and map ----------

  ghost function EntriesOf<K(!new), V>(m: map<K, V>): set<Slot<K, V>> { set k | k in m :: Entry(k, m[k]) }

  /** The table stores exactly the map. */
  ghost predicate Stores<K(!new), V>(b: Table<K, V>, m: map<K, V>) {
    Entries(b) == EntriesOf(m)
  }

  lemma StoredAt<K(!new), V>(b: Table<K, V>, f: Keys<K>, m: map<K, V>, i: nat)
    requires Placed(b, f) && Stores(b, m) && Live(b, i)
    ensures b[i].slot.Entry? && b[i].slot.key in m && m[b[i].slot.key] == b[i].slot.val
  {
    assert PlacedAt(b, f, i);
    assert b[i].slot in Entries(b);
  }

  lemma WhereStored<K(!new), V>(b: Table<K, V>, m: map<K, V>, k: K) returns (i: nat)
    requires Stores(b, m) && k in m
    ensures Live(b, i) && b[i].slot == Entry(k, m[k])
  {
    assert Entry(k, m[k]) in Entries(b);
    i :| 0 <= i < |b| && b[i].occupied && b[i].slot == Entry(k, m[k]);
  }

  lemma StoredIsProper<K(!new), V>(b: Table<K, V>, f: Keys<K>, m: map<K, V>)
    requires Distinct(b, f) && Stores(b, m)
    ensures Proper(m, f)
  {
    forall j, k | j in m && k in m && f.eq(j, k) ensures j == k {
      var i := WhereStored(b, m, j);
      var i' := WhereStored(b, m, k);
    }
  }

  lemma AbsentMeansNot<K(!new), V>(b: Table<K, V>, f: Keys<K>, m: map<K, V>, k: K)
    requires Stores(b, m) && Absent(b, f, k)
    ensures !Has(m, f, k)
  {
    forall j | j in m ensures !f.eq(j, k) { var i := WhereStored(b, m, j); }
  }

  lemma EntriesOfExtended<K(!new), V>(m: map<K, V>, k: K, v: V)
    requires k !in m
    ensures EntriesOf(m[k := v]) == EntriesOf(m) + {Entry(k, v)}
  {
    var p := m[k := v];
    forall j | j in m ensures Entry(j, m[j]) in EntriesOf(p) { assert j in p && p[j] == m[j]; }
    assert k in p && Entry(k, p[k]) in EntriesOf(p);
  }

  lemma EntriesOfUpdated<K(!new), V>(m: map<K, V>, f: Keys<K>, k: K, j: K, v: V)
    requires Compatible(f) && Proper(m, f) && j in m && f.eq(j, k)
    ensures EntriesOf(Put(m, f, k, v)) == (EntriesOf(m) - {Entry(j, m[j])}) + {Entry(j, v)}
    ensures EntriesOf(Remove(m, f, k)) == EntriesOf(m) - {Entry(j, m[j])}
  {
    forall i | i in m && f.eq(i, k) ensures i == j { assert f.eq(k, j) && f.eq(i, j); }
    var p, r := Put(m, f, k, v), Remove(m, f, k);
    forall i | i in m && i != j ensures i in p && p[i] == m[i] && i in r && r[i] == m[i] {}
    forall s | s in EntriesOf(m) && s != Entry(j, m[j]) ensures s in EntriesOf(p) && s in EntriesOf(r) {
      var i :| i in m && s == Entry(i, m[i]);
      assert i in p && i in r;
    }
    assert j in p && Entry(j, p[j]) in EntriesOf(p);
  }

  lemma SameEntries<K(!new), V>(m: map<K, V>, m': map<K, V>)
    requires EntriesOf(m) == EntriesOf(m')
    ensures m == m'
  {
    forall k | k in m ensures k in m' && m'[k] == m[k] { assert Entry(k, m[k]) in EntriesOf(m'); }
    forall k | k in m' ensures k in m { assert Entry(k, m'[k]) in EntriesOf(m); }
  }

  /** A Robin Hood table that stores exactly the map m. */
  ghost predicate WellStored<K(!new), V>(b: Table<K, V>, f: Keys<K>, m: map<K, V>, count: nat) {
    RobinHood(b, f) && Stores(b, m) && count == |Occupied(b)| == |m|
  }

  lemma BlankStoresNothing<K(!new), V>(b: Table<K, V>, f: Keys<K>)
    requires forall i :: 0 <= i < |b| ==> !b[i].occupied
    ensures WellStored(b, f, map[], 0)
  {
    assert Occupied(b) == {} && Entries(b) == {};
    var m: map<K, V> := map[];
    assert EntriesOf(m) == {};
  }

  /** The state of set's probe: b0 is the table it began with, ins what it carries to bucket idx, and e an
      empty bucket it cannot get past. */
  ghost predicate Inserting<K, V>(b: Table<K, V>, b0: Table<K, V>, f: Keys<K>, key: K, val: V,
                                  idx: nat, ins: Bucket<K, V>, e: nat, swapped: bool) {
    && |b| == |b0| > 1 && idx < |b| && e < |b| && !b[e].occupied
    && RobinHood(b, f) && Carried(b, f, idx, ins) && ins.slot.Entry?
    && Occupied(b) == Occupied(b0)
    && Entries(b) + {ins.slot} == Entries(b0) + {Entry(key, val)}
    && (if swapped then Absent(b, f, ins.slot.key) && Absent(b0, f, key)
        else b == b0 && ins.slot == Entry(key, val) && Passed(b0, f, key, ins.psl))
  }

  lemma InsertBegins<K(!new), V>(b: Table<K, V>, f: Keys<K>, m: map<K, V>, count: nat, key: K, val: V) returns (e: nat)
    requires WellStored(b, f, m, count) && 4 * count <= 3 * |b| && |b| > 1
    ensures e < |b|
    ensures var h := f.hash(key);
      Inserting(b, b, f, key, val, Home(h, |b|), Bucket(h, 0, true, Entry(key, val)), e, false)
  {
    e := EmptyBucketExists(b);
  }

  /** At an empty or less displaced bucket the key is known to be new. */
  lemma KeyIsNew<K(!new), V>(b: Table<K, V>, b0: Table<K, V>, f: Keys<K>, key: K, val: V,
                             idx: nat, ins: Bucket<K, V>, e: nat, swapped: bool)
    requires Compatible(f) && Inserting(b, b0, f, key, val, idx, ins, e, swapped)
    requires !b[idx].occupied || b[idx].psl < ins.psl
    ensures Absent(b, f, ins.slot.key) && Absent(b0, f, key)
  {
    if !swapped { StopIsSound(b0, f, key, ins.psl); }
  }

  lemma InsertMatch<K(!new), V>(b: Table<K, V>, b0: Table<K, V>, f: Keys<K>, key: K, val: V,
                                idx: nat, ins: Bucket<K, V>, e: nat, swapped: bool)
    requires Compatible(f) && Inserting(b, b0, f, key, val, idx, ins, e, swapped) && b[idx].occupied
    ensures idx != e && Live(b, idx) && b[idx].slot.Entry? && ins.slot.Entry?
    ensures f.eq(b[idx].slot.key, ins.slot.key) ==> b[idx].hash == ins.hash && b == b0 && ins.slot == Entry(key, val)
  {
    assert Live(b, idx) && PlacedAt(b, f, idx);
  }

  lemma InsertSwaps<K(!new), V>(b: Table<K, V>, b0: Table<K, V>, f: Keys<K>, key: K, val: V,
                                idx: nat, ins: Bucket<K, V>, e: nat, swapped: bool)
    requires Compatible(f) && Inserting(b, b0, f, key, val, idx, ins, e, swapped)
    requires b[idx].occupied && b[idx].psl < ins.psl
    ensures Inserting(b[idx := ins], b0, f, key, val, Succ(idx, |b|), b[idx].(psl := b[idx].psl + 1), e, true)
  {
    KeyIsNew(b, b0, f, key, val, idx, ins, e, swapped);
    assert Live(b, idx) && PlacedAt(b, f, idx);
    SwapKeeps(b, f, idx, ins, e);
    EntriesExchange(b, idx, ins);
    OccupiedWrite(b, idx, ins);
  }

  lemma InsertPasses<K(!new), V>(b: Table<K, V>, b0: Table<K, V>, f: Keys<K>, key: K, val: V,
                                 idx: nat, ins: Bucket<K, V>, e: nat, swapped: bool)
    requires Compatible(f) && Inserting(b, b0, f, key, val, idx, ins, e, swapped)
    requires b[idx].occupied && b[idx].psl >= ins.psl && b[idx].slot.Entry? && !f.eq(b[idx].slot.key, ins.slot.key)
    ensures Inserting(b, b0, f, key, val, Succ(idx, |b|), ins.(psl := ins.psl + 1), e, swapped)
  {
    assert Live(b, idx);
    PassKeeps(b, f, idx, ins, e);
    if !swapped {
      assert PassedAt(b0, f, key, ins.psl);
      ProbeGoesOn(b0, f, key, ins.psl, e);
    }
  }

  lemma InsertEnds<K(!new), V>(b: Table<K, V>, b0: Table<K, V>, f: Keys<K>, m: map<K, V>, count: nat, key: K, val: V,
                               idx: nat, ins: Bucket<K, V>, e: nat, swapped: bool)
    requires Compatible(f) && Inserting(b, b0, f, key, val, idx, ins, e, swapped)
    requires !b[idx].occupied && WellStored(b0, f, m, count)
    ensures WellStored(b[idx := ins], f, Put(m, f, key, val), count + 1)
  {
    KeyIsNew(b, b0, f, key, val, idx, ins, e, swapped);
    InsertKeeps(b, f, idx, ins);
    EntriesExchange(b, idx, ins);
    OccupiedWrite(b, idx, ins);
    AbsentMeansNot(b0, f, m, key);
    assert f.eq(key, key);
    EntriesOfExtended(m, key, val);
  }

  lemma UpdateEnds<K(!new), V>(b: Table<K, V>, f: Keys<K>, m: map<K, V>, count: nat, key: K, val: V, idx: nat)
    requires Compatible(f) && WellStored(b, f, m, count) && Live(b, idx)
    requires b[idx].slot.Entry? && f.eq(b[idx].slot.key, key)
    ensures WellStored(b[idx := b[idx].(slot := Entry(b[idx].slot.key, val))], f, Put(m, f, key, val), count)
  {
    var x := b[idx].(slot := Entry(b[idx].slot.key, val));
    StoredIsProper(b, f, m);
    StoredAt(b, f, m, idx);
    UpdateKeeps(b, f, idx, val);
    EntriesReplace(b, f, idx, x);
    OccupiedWrite(b, idx, x);
    assert Occupied(b) + {idx} == Occupied(b);
    EntriesOfUpdated(m, f, key, b[idx].slot.key, val);
    LookupAfterPut(m, f, key, val, key);
  }

  /** Clearing the key's bucket leaves a hole and the entries of the smaller map. */
  lemma DeleteBegins<K(!new), V>(b: Table<K, V>, f: Keys<K>, m: map<K, V>, count: nat, key: K, idx: nat)
    requires Compatible(f) && WellStored(b, f, m, count) && Live(b, idx) && |b| > 1
    requires b[idx].slot.Entry? && f.eq(b[idx].slot.key, key)
    ensures var d := b[idx := b[idx].(occupied := false)]; var m' := Remove(m, f, key);
      Holed(d, f, idx, b[idx]) && Stores(d, m') && count > 0 && count - 1 == |Occupied(d)| == |m'| && Has(m, f, key)
  {
    var x := b[idx].(occupied := false);
    StoredIsProper(b, f, m);
    StoredAt(b, f, m, idx);
    ClearMakesHole(b, f, idx);
    EntriesReplace(b, f, idx, x);
    OccupiedWrite(b, idx, x);
    assert idx in Occupied(b);
    EntriesOfUpdated(m, f, key, b[idx].slot.key, b[idx].slot.val);
    LookupAfterRemove(m, f, key, key);
  }

  // ---------- The map object ----------

  class RobinMap<K(!new), V> {
    const f: Keys<K>
    var buckets: array<Bucket<K, V>>
    var capacity: nat
    var count: nat
    ghost var model: map<K, V>

    ghost predicate Valid()
      reads this, buckets
    {
      && Compatible(f)
      && capacity == buckets.Length >= INITIAL_CAP && IsPow2(capacity)
      && WellStored(buckets[..], f, model, count)
      && 4 * count <= 3 * capacity
    }

    /** The load-factor test of set. */
    predicate Loaded()
      reads this
    {
      count * 100 >= capacity * LOAD_FACTOR
    }

    constructor (f: Keys<K>)
      requires Compatible(f)
      ensures Valid() && fresh(buckets) && model == map[] && this.f == f
    {
      this.f := f;
      capacity := INITIAL_CAP;
      count := 0;
      model := map[];
      buckets := new Bucket<K, V>[INITIAL_CAP](_ => Bucket(0, 0, false, Blank));
      new;
      assert 8 == Pow2(3);
      BlankStoresNothing(buckets[..], f);
    }

    /** hash & (capacity - 1) */
    method Index(hash: nat) returns (i: nat)
      requires IsPow2(capacity)
      ensures i == Home(hash, capacity)
    {
      i := And(hash, capacity - 1);
      ghost var k: nat :| capacity == Pow2(k);
      MaskIsMod(hash, k);
    }

    method Len() returns (n: nat)
      requires Valid()
      ensures n == |model|
    {
      n := count;
    }

    /** The probe shared by get and delete: where the key is, or nothing when it is nowhere. */
    method Find(key: K) returns (at: Option<nat>)
      requires Valid()
      ensures at.None? ==> Absent(buckets[..], f, key)
      ensures at.Some? ==>
        Live(buckets[..], at.value) && buckets[at.value].slot.Entry? && f.eq(buckets[at.value].slot.key, key)
    {
      hide And, IsPow2, Distinct, Linked, Stores, Entries, Absent;
      ghost var b := buckets[..];
      ghost var e := EmptyBucketExists(b);
      var hash := f.hash(key);
      var idx := Index(hash);
      var psl := 0;
      while true
        invariant psl < capacity && idx == Wrap(Home(hash, capacity) + psl, capacity)
        invariant Passed(b, f, key, psl)
        decreases capacity - psl
      {
        if !buckets[idx].occupied || buckets[idx].psl < psl {
          StopIsSound(b, f, key, psl);
          return None;
        }
        assert Live(b, idx) && PlacedAt(b, f, idx);
        if buckets[idx].hash == hash && f.eq(buckets[idx].slot.key, key) {
          return Some(idx);
        }
        assert PassedAt(b, f, key, psl);
        ProbeGoesOn(b, f, key, psl, e);
        NextIndex(capacity, idx);
        idx := And(idx + 1, capacity - 1);
        psl := psl + 1;
      }
    }

    method Get(key: K) returns (r: Option<V>)
      requires Valid()
      ensures r == Lookup(model, f, key)
    {
      if count == 0 {
        assert model.Keys == {};
        return None;
      }
      StoredIsProper(buckets[..], f, model);
      var at := Find(key);
      match at {
        case None =>
          AbsentMeansNot(buckets[..], f, model, key);
          r := None;
        case Some(i) =>
          StoredAt(buckets[..], f, model, i);
          LookupIs(model, f, buckets[i].slot.key, key);
          r := Some(buckets[i].slot.val);
      }
    }

    /** Set after the load-factor test: probe, then fill the empty bucket or update the matching one. */
    method Insert(key: K, val: V)
      requires Valid() && !Loaded()
      modifies this`count, this`model, buckets
      ensures Valid() && model == Put(old(model), f, key, val)
    {
      hide Compatible, WellStored, Inserting, Put, And, IsPow2;
      RoomForOne(capacity, count);
      ghost var b0 := buckets[..];
      ghost var e := InsertBegins(b0, f, model, count, key, val);
      var idx, ins, swapped := Probe(key, val, e);
      ghost var b := buckets[..];
      if !buckets[idx].occupied {
        InsertEnds(b, b0, f, model, count, key, val, idx, ins, e, swapped);
        Write(idx, ins);
        count := count + 1;
      } else {
        InsertMatch(b, b0, f, key, val, idx, ins, e, swapped);
        UpdateEnds(b, f, model, count, key, val, idx);
        Write(idx, buckets[idx].(slot := Entry(buckets[idx].slot.key, ins.slot.val)));
      }
      model := Put(model, f, key, val);
    }

    /** The probe of set with its Robin Hood swaps, up to an empty bucket or one that holds the key. */
    method Probe(key: K, val: V, ghost e: nat) 
      returns (idx: nat, ins: Bucket<K, V>, ghost swapped: bool)
      requires Compatible(f) && capacity == buckets.Length >= INITIAL_CAP && IsPow2(capacity) && e < capacity
      requires Inserting(buckets[..], buckets[..], f, key, val, Home(f.hash(key), capacity),
                         Bucket(f.hash(key), 0, true, Entry(key, val)), e, false)
      modifies buckets
      ensures idx < capacity
      ensures Inserting(buckets[..], old(buckets[..]), f, key, val, idx, ins, e, swapped)
      ensures buckets[idx].occupied ==>
        buckets[idx].slot.Entry? && ins.slot.Entry? && f.eq(buckets[idx].slot.key, ins.slot.key)
    {
      hide Compatible, Inserting, And, IsPow2;
      ghost var b0 := buckets[..];
      swapped := false;
      idx := Index(f.hash(key));
      ins := Bucket(f.hash(key), 0, true, Entry(key, val));
      while buckets[idx].occupied
        invariant idx < capacity
        invariant Inserting(buckets[..], b0, f, key, val, idx, ins, e, swapped)
        decreases Dist(idx, e, capacity)
      {
        ghost var b := buckets[..];
        NextIndex(capacity, idx);
        InsertMatch(b, b0, f, key, val, idx, ins, e, swapped);
        if buckets[idx].hash == ins.hash && f.eq(buckets[idx].slot.key, ins.slot.key) {
          return;
        }
        if buckets[idx].psl < ins.psl {
          InsertSwaps(b, b0, f, key, val, idx, ins, e, swapped);
          var evicted := buckets[idx];
          Write(idx, ins);
          ins := evicted;
          swapped := true;
        } else {
          InsertPasses(b, b0, f, key, val, idx, ins, e, swapped);
        }
        idx := And(idx + 1, capacity - 1);
        ins := ins.(psl := ins.psl + 1);
      }
    }

    method Write(i: nat, x: Bucket<K, V>)
      requires i < buckets.Length
      modifies buckets
      ensures buckets[..] == old(buckets[..])[i := x]
    {
      buckets[i] := x;
    }

    /** Insert or update.  A loaded table is doubled first. */
    method Set(key: K, val: V)
      requires Valid()
      modifies this, buckets
      ensures Valid() && model == Put(old(model), f, key, val)
      ensures capacity == if old(Loaded()) then 2 * old(capacity) else old(capacity)
      ensures if old(Loaded()) then fresh(buckets) else buckets == old(buckets)
      decreases if Loaded() then 2 else 0
    {
      if count * 100 >= capacity * LOAD_FACTOR {
        Resize(capacity * 2);
      }
      Insert(key, val);
    }

    /** Moves every entry to a fresh table.  The nested calls of set find the table unloaded, so resizing
        never nests. */
    method Resize(newCap: nat)
      requires Valid() && Loaded() && newCap == 2 * capacity
      modifies this
      ensures Valid() && !Loaded() && capacity == newCap && fresh(buckets) && model == old(model)
      decreases 1
    {
      hide Placed, Linked, Distinct, Entries, EntriesOf, Occupied, Moved;
      ghost var m0 := model;
      ghost var b0 := buckets[..];
      var oldBuckets, oldCap := buckets, capacity;
      ghost var k: nat :| capacity == Pow2(k);
      assert newCap == Pow2(k + 1);

      capacity := newCap;
      count := 0;
      model := map[];
      buckets := new Bucket<K, V>[newCap](_ => Bucket(0, 0, false, Blank));
      BlankStoresNothing(buckets[..], f);
      MovedNone(b0, m0);
      var i: nat := 0;
      while i < oldCap
        invariant 0 <= i <= oldCap && oldBuckets[..] == b0
        invariant Valid() && capacity == newCap && fresh(buckets)
        invariant Moved(b0, m0, model, i)
      {
        MovedBound(b0, m0, model, i);
        if oldBuckets[i].occupied {
          MoveOne(b0, f, m0, model, i);
          Set(oldBuckets[i].slot.key, oldBuckets[i].slot.val);
        } else {
          SkipOne(b0, m0, model, i);
        }
        i := i + 1;
      }
      MovedAll(b0, m0, model);
    }

    /** Removes the key and closes the gap by shifting displaced successors back. */
    method Delete(key: K) returns (deleted: bool)
      requires Valid()
      modifies this`count, this`model, buckets
      ensures Valid() && deleted == Has(old(model), f, key) && model == Remove(old(model), f, key)
    {
      if count == 0 {
        assert model.Keys == {};
        return false;
      }
      ghost var b := buckets[..];
      var at := Find(key);
      if at.None? {
        AbsentMeansNot(b, f, model, key);
        assert model == Remove(model, f, key);
        return false;
      }
      var idx := at.value;
      ghost var e := EmptyBucketExists(b);
      DeleteBegins(b, f, model, count, key, idx);
      buckets[idx] := buckets[idx].(occupied := false);
      assert buckets[..] == b[idx := b[idx].(occupied := false)];
      count := count - 1;
      model := Remove(model, f, key);
      CloseGap(idx, e, b[idx]);
      deleted := true;
    }

    /** The backward shift of delete, from the hole at h to the first bucket that is empty or at home. */
    method CloseGap(h: nat, ghost e: nat, ghost filler: Bucket<K, V>)
      requires Compatible(f) && capacity == buckets.Length >= INITIAL_CAP && IsPow2(capacity)
      requires Holed(buckets[..], f, h, filler)
      requires e < capacity && e != h && !buckets[e].occupied
      modifies buckets
      ensures RobinHood(buckets[..], f)
      ensures Entries(buckets[..]) == old(Entries(buckets[..]))
      ensures |Occupied(buckets[..])| == old(|Occupied(buckets[..])|)
    {
      hide Compatible, Placed, Distinct, Linked, Entries, Occupied, IsPow2, And;
      var idx: nat := h;
      ghost var x := filler;
      NextIndex(capacity, idx);
      var next := And(idx + 1, capacity - 1);
      while buckets[next].occupied && buckets[next].psl > 0
        invariant idx < capacity && next == Succ(idx, capacity) && e != idx && !buckets[e].occupied
        invariant Holed(buckets[..], f, idx, x)
        invariant Entries(buckets[..]) == old(Entries(buckets[..]))
        invariant |Occupied(buckets[..])| == old(|Occupied(buckets[..])|)
        decreases Dist(next, e, capacity)
      {
        ghost var b := buckets[..];
        ShiftKeeps(b, f, idx, x);
        ShiftSize(b, idx);
        buckets[idx] := buckets[next];
        buckets[idx] := buckets[idx].(psl := buckets[idx].psl - 1);
        buckets[next] := buckets[next].(occupied := false);
        assert buckets[..] == Shifted(b, idx);
        x := b[next];
        idx := next;
        NextIndex(capacity, next);
        next := And(next + 1, capacity - 1);
      }
      HoleCloses(buckets[..], f, idx, x);
    }

    /** One step of an iterator whose cursor is `index`. */
    method IterNext(index: nat) returns (index': nat, item: Option<Slot<K, V>>)
      requires Valid()
      ensures item.None? ==> Listing(buckets[..], index) == []
      ensures item.Some? ==> Listing(buckets[..], index) == [item.value] + Listing(buckets[..], index')
    {
      hide Compatible, WellStored;
      index' := index;
      while index' < capacity
        invariant Listing(buckets[..], index) == Listing(buckets[..], index')
      {
        var i := index';
        index' := index' + 1;
        if buckets[i].occupied {
          return index', Some(buckets[i].slot);
        }
      }
      item := None;
    }
  }

  /** (i + 1) & (capacity - 1) is the next bucket on the ring. */
  lemma NextIndex(n: nat, i: nat)
    requires IsPow2(n) && i < n
    ensures And(i + 1, n - 1) == Succ(i, n)
  {
    var k: nat :| n == Pow2(k);
    MaskIsMod(i + 1, k);
    RemainderUnique(i + 1, n, if i + 1 == n then 1 else 0, Succ(i, n));
  }

  /** Three quarters of the capacity is a whole number of buckets, so an unloaded table has room for one more. */
  lemma RoomForOne(n: nat, count: nat)
    requires IsPow2(n) && n >= INITIAL_CAP && count * 100 < n * LOAD_FACTOR
    ensures 4 * (count + 1) <= 3 * n
  {
    QuarterIsExact(n);
    hide IsPow2;
  }

  lemma QuarterIsExact(n: nat)
    requires IsPow2(n) && n >= INITIAL_CAP
    ensures n % 4 == 0
  {
    var k: nat :| n == Pow2(k);
    assert Pow2(2) == 4;
    Pow2Strict(k, 2);
    Pow2Monotone(2, k);
  }

  lemma PrefixEntries<K, V>(b: Table<K, V>, i: nat)
    requires i < |b|
    ensures Entries(b[..i + 1]) == Entries(b[..i]) + (if b[i].occupied then {b[i].slot} else {})
  {
    var c, d := b[..i], b[..i + 1];
    forall s | s in Entries(c) ensures s in Entries(d) {
      var j :| 0 <= j < |c| && c[j].occupied && c[j].slot == s;
      assert d[j] == c[j];
    }
    if b[i].occupied { assert d[i].slot in Entries(d); }
    forall s | s in Entries(d) ensures s in Entries(c) + (if b[i].occupied then {b[i].slot} else {}) {
      var j :| 0 <= j < |d| && d[j].occupied && d[j].slot == s;
      if j < i { assert c[j] == d[j]; }
    }
  }

  /** While resize is at old bucket i, that bucket's key is not yet in the new table under any spelling. */
  lemma NotYetMoved<K(!new), V>(b: Table<K, V>, f: Keys<K>, m0: map<K, V>, m: map<K, V>, i: nat)
    requires Compatible(f) && Placed(b, f) && Distinct(b, f) && Stores(b, m0) && Live(b, i)
    requires EntriesOf(m) == Entries(b[..i])
    ensures b[i].slot.Entry? && b[i].slot.key !in m && !Has(m, f, b[i].slot.key)
  {
    assert PlacedAt(b, f, i);
    forall k | k in m ensures !f.eq(k, b[i].slot.key) {
      assert Entry(k, m[k]) in Entries(b[..i]);
      var j :| 0 <= j < i && b[..i][j].occupied && b[..i][j].slot == Entry(k, m[k]);
      assert Live(b, j);
    }
    assert f.eq(b[i].slot.key, b[i].slot.key);
  }

  /** Resize has moved the entries of the first i old buckets. */
  ghost predicate Moved<K(!new), V>(b: Table<K, V>, m0: map<K, V>, m: map<K, V>, i: nat) {
    i <= |b| && m.Keys <= m0.Keys && EntriesOf(m) == Entries(b[..i])
  }

  lemma MoveOne<K(!new), V>(b: Table<K, V>, f: Keys<K>, m0: map<K, V>, m: map<K, V>, i: nat)
    requires Compatible(f) && Placed(b, f) && Distinct(b, f) && Stores(b, m0) && Live(b, i) && Moved(b, m0, m, i)
    ensures b[i].slot.Entry? && Moved(b, m0, Put(m, f, b[i].slot.key, b[i].slot.val), i + 1)
  {
    StoredAt(b, f, m0, i);
    NotYetMoved(b, f, m0, m, i);
    EntriesOfExtended(m, b[i].slot.key, b[i].slot.val);
    PrefixEntries(b, i);
  }

  lemma MovedNone<K(!new), V>(b: Table<K, V>, m0: map<K, V>)
    ensures Moved(b, m0, map[], 0)
  {
    var m: map<K, V> := map[];
    assert EntriesOf(m) == {} && Entries(b[..0]) == {};
  }

  lemma SkipOne<K(!new), V>(b: Table<K, V>, m0: map<K, V>, m: map<K, V>, i: nat)
    requires Moved(b, m0, m, i) && i < |b| && !b[i].occupied
    ensures Moved(b, m0, m, i + 1)
  {
    PrefixEntries(b, i);
  }

  lemma MovedBound<K(!new), V>(b: Table<K, V>, m0: map<K, V>, m: map<K, V>, i: nat)
    requires Moved(b, m0, m, i)
    ensures |m| <= |m0|
  {
    SubsetSize(m.Keys, m0.Keys);
  }

  lemma MovedAll<K(!new), V>(b: Table<K, V>, m0: map<K, V>, m: map<K, V>)
    requires Moved(b, m0, m, |b|) && Stores(b, m0)
    ensures m == m0
  {
    assert b[..|b|] == b;
    SameEntries(m, m0);
  }

  // ---------- Iteration ----------

  /** The live entries from bucket i on, in bucket order. */
  ghost function Listing<K, V>(b: Table<K, V>, i: nat): seq<Slot<K, V>>
    decreases |b| - i
  {
    if i >= |b| then [] else (if b[i].occupied then [b[i].slot] else []) + Listing(b, i + 1)
  }

  lemma {:induction false} ListedIsLive<K, V>(b: Table<K, V>, i: nat, s: Slot<K, V>) returns (j: nat)
    requires i <= |b| && s in Listing(b, i)
    ensures i <= j < |b| && b[j].occupied && b[j].slot == s
    decreases |b| - i
  {
    if b[i].occupied && b[i].slot == s {
      j := i;
    } else {
      j := ListedIsLive(b, i + 1, s);
    }
  }

  lemma {:induction false} LiveIsListed<K, V>(b: Table<K, V>, i: nat, j: nat)
    requires i <= j < |b| && b[j].occupied
    ensures b[j].slot in Listing(b, i)
    decreases j - i
  {
    if i < j { LiveIsListed(b, i + 1, j); }
  }

  ghost function OccupiedFrom<K, V>(b: Table<K, V>, i: nat): set<int> { set j | i <= j < |b| && b[j].occupied }

  lemma {:induction false} ListingLength<K, V>(b: Table<K, V>, i: nat)
    requires i <= |b|
    ensures |Listing(b, i)| == |OccupiedFrom(b, i)|
    decreases |b| - i
  {
    if i < |b| {
      ListingLength(b, i + 1);
      var rest := OccupiedFrom(b, i + 1);
      assert OccupiedFrom(b, i) == if b[i].occupied then rest + {i as int} else rest;
    } else {
      assert OccupiedFrom(b, i) == {};
    }
  }

  /** A full iteration yields every entry of the map, and as many items as the map has entries, so each
      exactly once. */
  lemma IterationVisitsEachOnce<K(!new), V(!new)>(b: Table<K, V>, f: Keys<K>, m: map<K, V>, count: nat)
    requires WellStored(b, f, m, count)
    ensures forall s :: s in Listing(b, 0) <==> s in EntriesOf(m)
    ensures |Listing(b, 0)| == |m|
  {
    forall s | s in Listing(b, 0) ensures s in Entries(b) { var j := ListedIsLive(b, 0, s); }
    forall s | s in Entries(b) ensures s in Listing(b, 0) {
      var j :| 0 <= j < |b| && b[j].occupied && b[j].slot == s;
      LiveIsListed(b, 0, j);
    }
    ListingLength(b, 0);
    assert OccupiedFrom(b, 0) == Occupied(b);
  }

  // ---------- Every run ----------

  datatype Op<K, V> = SetOp(k: K, v: V) | GetOp(k: K) | DeleteOp(k: K) | LenOp

  datatype Out<V> = Done | Found(r: Option<V>) | Deleted(yes: bool) | Length(n: nat)

  /** What a plain finite map answers. */
  ghost function PlainStep<K(!new), V>(m: map<K, V>, f: Keys<K>, op: Op<K, V>): (map<K, V>, Out<V>) {
    match op
    case SetOp(k, v) => (Put(m, f, k, v), Done)
    case GetOp(k) => (m, Found(Lookup(m, f, k)))
    case DeleteOp(k) => (Remove(m, f, k), Deleted(Has(m, f, k)))
    case LenOp => (m, Length(|m|))
  }

  ghost function PlainRun<K(!new), V>(f: Keys<K>, ops: seq<Op<K, V>>): (map<K, V>, seq<Out<V>>) {
    if ops == [] then (map[], [])
    else
      var (m, outs) := PlainRun(f, ops[..|ops| - 1]);
      var (m', out) := PlainStep(m, f, ops[|ops| - 1]);
      (m', outs + [out])
  }

  /** Any sequence of operations on a new map answers exactly as a plain finite map does. */
  method RunAll<K(!new), V>(f: Keys<K>, ops: seq<Op<K, V>>) returns (outs: seq<Out<V>>)
    requires Compatible(f)
    ensures outs == PlainRun(f, ops).1
  {
    var m := new RobinMap(f);
    outs := [];
    for i := 0 to |ops|
      invariant m.Valid() && fresh(m) && fresh(m.buckets) && m.f == f
      invariant (m.model, outs) == PlainRun(f, ops[..i])
    {
      hide Compatible, WellStored, Put, Remove, Has, Lookup;
      assert ops[..i + 1][..i] == ops[..i];
      var out: Out<V>;
      match ops[i] {
        case SetOp(k, v) =>
          m.Set(k, v);
          out := Done;
        case GetOp(k) =>
          var r := m.Get(k);
          out := Found(r);
        case DeleteOp(k) =>
          var yes := m.Delete(k);
          out := Deleted(yes);
        case LenOp =>
          var n := m.Len();
          out := Length(n);
      }
      outs := outs + [out];
    }
    assert ops[..|ops|] == ops;
  }
}
