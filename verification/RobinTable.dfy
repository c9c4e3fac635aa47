/** The bucket table of the hash map as a value: the Robin Hood invariant, what a probe may conclude from
    it, and how each single-bucket write of set and delete changes it. */
module RobinTable {
  import opened Ranges
  import Bits

  /** A key/value pair in the entries array; calloc'ed slots are blank. */
  datatype Slot<K, V> = Blank | Entry(key: K, val: V)

  datatype Bucket<K, V> = Bucket(hash: nat, psl: nat, occupied: bool, slot: Slot<K, V>)

  type Table<K, V> = seq<Bucket<K, V>>

  /** The functions a map is created with. */
  datatype Keys<!K> = Keys(hash: K -> nat, eq: (K, K) -> bool)

  /** What a caller's functions must satisfy: eq is an equivalence and equal keys hash equally. */
  ghost predicate Compatible<K(!new)>(f: Keys<K>) {
    && (forall k :: f.eq(k, k))
    && (forall j, k :: f.eq(j, k) ==> f.eq(k, j) && f.hash(j) == f.hash(k))
    && (forall j, k, l :: f.eq(j, k) && f.eq(k, l) ==> f.eq(j, l))
  }

  /** The built-in pairs hash and compare the same bytes, so they qualify whatever the hash is. */
  lemma SameBytesCompatible<K(!new)>(hash: K -> nat)
    ensures Compatible(Keys(hash, (a, b) => a == b))
  {
  }

  // ---------- Positions on the ring ----------

  function Home(hash: nat, n: nat): (r: nat)
    requires n > 0
    ensures r < n
  {
    hash % n
  }

  function Succ(i: nat, n: nat): nat
    requires i < n
  {
    if i + 1 == n then 0 else i + 1
  }

  function Pred(i: nat, n: nat): nat
    requires i < n
  {
    if i == 0 then n - 1 else i - 1
  }

  /** Steps from bucket i forward to bucket j. */
  function Dist(i: nat, j: nat, n: nat): nat
    requires i < n && j < n
  {
    if i <= j then j - i else j - i + n
  }

  // ---------- The invariant ----------

  predicate Live<K, V>(b: Table<K, V>, i: int) { 0 <= i < |b| && b[i].occupied }

  /** Bucket i's entry sits psl buckets past its home. */
  ghost predicate PlacedAt<K, V>(b: Table<K, V>, f: Keys<K>, i: nat)
    requires i < |b|
  {
    && b[i].slot.Entry? && b[i].hash == f.hash(b[i].slot.key)
    && b[i].psl < |b| && i == Wrap(Home(b[i].hash, |b|) + b[i].psl, |b|)
  }

  ghost predicate Placed<K, V>(b: Table<K, V>, f: Keys<K>) {
    forall i :: Live(b, i) ==> PlacedAt(b, f, i)
  }

  /** A displaced entry has a predecessor at least nearly as displaced. */
  predicate LinkedAt<K, V>(b: Table<K, V>, i: nat)
    requires i < |b|
  {
    b[i].psl > 0 ==> var j := Pred(i, |b|); b[j].occupied && b[j].psl + 1 >= b[i].psl
  }

  ghost predicate Linked<K, V>(b: Table<K, V>) {
    forall i :: Live(b, i) ==> LinkedAt(b, i)
  }

  ghost predicate Distinct<K, V>(b: Table<K, V>, f: Keys<K>) {
    forall i, j :: Live(b, i) && Live(b, j) && i != j && b[i].slot.Entry? && b[j].slot.Entry? ==>
      !f.eq(b[i].slot.key, b[j].slot.key)
  }

  ghost predicate RobinHood<K, V>(b: Table<K, V>, f: Keys<K>) {
    Placed(b, f) && Linked(b) && Distinct(b, f)
  }

  ghost predicate Absent<K, V>(b: Table<K, V>, f: Keys<K>, k: K) {
    forall i :: Live(b, i) && b[i].slot.Entry? ==> !f.eq(b[i].slot.key, k)
  }

  ghost function Occupied<K, V>(b: Table<K, V>): set<int> { set i | 0 <= i < |b| && b[i].occupied }

  ghost function Entries<K, V>(b: Table<K, V>): set<Slot<K, V>> {
    set i | 0 <= i < |b| && b[i].occupied :: b[i].slot
  }

  // ---------- What the invariant implies ----------

  /** Walking back q buckets from a live bucket whose probe length is at least q stays on live buckets. */
  lemma {:induction false} WalkBack<K, V>(b: Table<K, V>, f: Keys<K>, j: nat, q: nat)
    requires Placed(b, f) && Linked(b) && Live(b, j) && q <= b[j].psl
    ensures q < |b|
    ensures var i := Wrap(j + |b| - q, |b|); Live(b, i) && b[i].psl + q >= b[j].psl
  {
    assert PlacedAt(b, f, j);
    if q > 0 {
      WalkBack(b, f, j, q - 1);
      assert LinkedAt(b, Wrap(j + |b| - (q - 1), |b|));
    }
  }

  /** Every bucket on the probe path of a stored key is live and at least as displaced as the path is long. */
  lemma ProbePath<K, V>(b: Table<K, V>, f: Keys<K>, j: nat, q: nat)
    requires Placed(b, f) && Linked(b) && Live(b, j) && q <= b[j].psl
    ensures var i := Wrap(Home(b[j].hash, |b|) + q, |b|); b[j].psl < |b| && Live(b, i) && b[i].psl >= q
  {
    assert PlacedAt(b, f, j);
    WalkBack(b, f, j, b[j].psl - q);
  }

  /** No entry is as far from its home as it is past an empty bucket, so no probe goes round the table. */
  lemma ProbeLengthBound<K, V>(b: Table<K, V>, f: Keys<K>, j: nat, e: nat)
    requires Placed(b, f) && Linked(b) && Live(b, j) && e < |b| && !b[e].occupied
    ensures b[j].psl < Dist(e, j, |b|)
  {
    if b[j].psl >= Dist(e, j, |b|) { WalkBack(b, f, j, Dist(e, j, |b|)); }
  }

  /** A probe for k has passed psl buckets without meeting k. */
  ghost predicate Passed<K, V>(b: Table<K, V>, f: Keys<K>, k: K, psl: nat)
    requires |b| > 0 && psl <= |b|
  {
    forall q :: 0 <= q < psl ==> PassedAt(b, f, k, q)
  }

  ghost predicate PassedAt<K, V>(b: Table<K, V>, f: Keys<K>, k: K, q: nat)
    requires q < |b|
  {
    var i := Wrap(Home(f.hash(k), |b|) + q, |b|);
    Live(b, i) && b[i].psl >= q && b[i].slot.Entry? && !f.eq(b[i].slot.key, k)
  }

  /** Stopping at an empty bucket, or at one less displaced than the probe, proves the key is nowhere. */
  lemma StopIsSound<K(!new), V>(b: Table<K, V>, f: Keys<K>, k: K, psl: nat)
    requires Compatible(f) && RobinHood(b, f) && psl < |b| && Passed(b, f, k, psl)
    requires var i := Wrap(Home(f.hash(k), |b|) + psl, |b|); !b[i].occupied || b[i].psl < psl
    ensures Absent(b, f, k)
  {
    forall j | Live(b, j) && b[j].slot.Entry? ensures !f.eq(b[j].slot.key, k) {
      assert PlacedAt(b, f, j);
      if b[j].psl < psl {
        assert PassedAt(b, f, k, b[j].psl);
      } else {
        ProbePath(b, f, j, psl);
      }
    }
  }

  /** A probe that goes on has not yet gone round: some bucket is empty. */
  lemma ProbeGoesOn<K, V>(b: Table<K, V>, f: Keys<K>, k: K, psl: nat, e: nat)
    requires |b| > 0 && psl < |b| && Passed(b, f, k, psl) && PassedAt(b, f, k, psl)
    requires e < |b| && !b[e].occupied
    ensures psl + 1 < |b| && Passed(b, f, k, psl + 1)
  {
    assert Passed(b, f, k, psl + 1);
    var q := Dist(Home(f.hash(k), |b|), e, |b|);
    assert q < psl + 1 ==> PassedAt(b, f, k, q);
  }

  lemma EmptyBucketExists<K, V>(b: Table<K, V>) returns (e: nat)
    requires |Occupied(b)| < |b|
    ensures e < |b| && !b[e].occupied
  {
    assert exists i :: 0 <= i < |b| && !b[i].occupied by {
      assert (forall i :: 0 <= i < |b| ==> b[i].occupied) ==> Occupied(b) == UpTo(|b|);
    }
    e :| 0 <= e < |b| && !b[e].occupied;
  }

  // ---------- Single-bucket writes ----------

  lemma OccupiedWrite<K, V>(b: Table<K, V>, i: nat, x: Bucket<K, V>)
    requires i < |b|
    ensures Occupied(b[i := x]) == if x.occupied then Occupied(b) + {i} else Occupied(b) - {i}
  {
  }

  /** Overwriting bucket i with a live one exchanges its entry for the new one. */
  lemma EntriesExchange<K, V>(b: Table<K, V>, i: nat, x: Bucket<K, V>)
    requires i < |b| && x.occupied
    ensures Entries(b[i := x]) + (if b[i].occupied then {b[i].slot} else {}) == Entries(b) + {x.slot}
  {
    var c := b[i := x];
    assert c[i].slot in Entries(c);
    forall s | s in Entries(b) + {x.slot} ensures s in Entries(c) + (if b[i].occupied then {b[i].slot} else {}) {
      if s in Entries(b) {
        var j :| 0 <= j < |b| && b[j].occupied && b[j].slot == s;
        if j != i { assert c[j] == b[j]; }
      }
    }
    forall s | s in Entries(c) ensures s in Entries(b) + {x.slot} {
      var j :| 0 <= j < |c| && c[j].occupied && c[j].slot == s;
      if j != i { assert c[j] == b[j]; }
    }
  }

  /** With distinct keys, the entry of a live bucket that is overwritten or cleared is gone. */
  lemma EntriesReplace<K(!new), V>(b: Table<K, V>, f: Keys<K>, i: nat, x: Bucket<K, V>)
    requires Compatible(f) && Placed(b, f) && Distinct(b, f) && Live(b, i)
    ensures Entries(b[i := x]) == (Entries(b) - {b[i].slot}) + (if x.occupied then {x.slot} else {})
  {
    var c := b[i := x];
    assert PlacedAt(b, f, i);
    forall s | s in Entries(b) && s != b[i].slot ensures s in Entries(c) {
      var j :| 0 <= j < |b| && b[j].occupied && b[j].slot == s;
      assert c[j] == b[j];
    }
    forall s | s in Entries(c) ensures s in (Entries(b) - {b[i].slot}) + (if x.occupied then {x.slot} else {}) {
      var j :| 0 <= j < |c| && c[j].occupied && c[j].slot == s;
      if j != i {
        assert Live(b, j) && PlacedAt(b, f, j);
        assert s != b[i].slot;
      }
    }
    if x.occupied { assert c[i].slot in Entries(c); }
  }

  /** What set carries along its probe: an entry that would be well placed at bucket idx. */
  ghost predicate Carried<K, V>(b: Table<K, V>, f: Keys<K>, idx: nat, c: Bucket<K, V>)
    requires idx < |b|
  {
    c.occupied && PlacedAt(b[idx := c], f, idx) && LinkedAt(b[idx := c], idx) && |b| > 1
  }

  /** Putting the carried entry into an empty bucket restores the whole invariant. */
  lemma InsertKeeps<K(!new), V>(b: Table<K, V>, f: Keys<K>, idx: nat, c: Bucket<K, V>)
    requires Compatible(f) && RobinHood(b, f) && idx < |b| && !b[idx].occupied
    requires Carried(b, f, idx, c) && Absent(b, f, c.slot.key)
    ensures RobinHood(b[idx := c], f)
  {
    var d := b[idx := c];
    forall i | Live(d, i) ensures PlacedAt(d, f, i) && LinkedAt(d, i) {
      if i != idx { assert Live(b, i) && PlacedAt(b, f, i) && LinkedAt(b, i); }
    }
    assert Distinct(d, f) by {
      forall i, j | Live(d, i) && Live(d, j) && i != j && d[i].slot.Entry? && d[j].slot.Entry?
        ensures !f.eq(d[i].slot.key, d[j].slot.key) {
        assert i != idx ==> Live(b, i);
        assert j != idx ==> Live(b, j);
      }
    }
  }

  /** A Robin Hood swap: the carried entry takes the bucket of a less displaced one, which is carried on. */
  lemma SwapKeeps<K(!new), V>(b: Table<K, V>, f: Keys<K>, idx: nat, c: Bucket<K, V>, e: nat)
    requires Compatible(f) && RobinHood(b, f) && Live(b, idx) && b[idx].psl < c.psl
    requires Carried(b, f, idx, c) && Absent(b, f, c.slot.key)
    requires e < |b| && !b[e].occupied
    ensures RobinHood(b[idx := c], f)
    ensures var c' := b[idx].(psl := b[idx].psl + 1);
      Carried(b[idx := c], f, Succ(idx, |b|), c') && Absent(b[idx := c], f, c'.slot.key)
  {
    var d := b[idx := c];
    assert PlacedAt(b, f, idx);
    ProbeLengthBound(b, f, idx, e);
    forall i | Live(d, i) ensures PlacedAt(d, f, i) && LinkedAt(d, i) {
      if i != idx { assert Live(b, i) && PlacedAt(b, f, i) && LinkedAt(b, i); }
    }
    forall i | Live(d, i) && d[i].slot.Entry? ensures !f.eq(d[i].slot.key, b[idx].slot.key) {
      if i != idx { assert Live(b, i); }
    }
    assert Distinct(d, f) by {
      forall i, j | Live(d, i) && Live(d, j) && i != j && d[i].slot.Entry? && d[j].slot.Entry?
        ensures !f.eq(d[i].slot.key, d[j].slot.key) {
        assert i != idx ==> Live(b, i);
        assert j != idx ==> Live(b, j);
      }
    }
  }

  /** Passing a bucket at least as displaced as the carried entry. */
  lemma PassKeeps<K, V>(b: Table<K, V>, f: Keys<K>, idx: nat, c: Bucket<K, V>, e: nat)
    requires Placed(b, f) && Linked(b) && Live(b, idx) && b[idx].psl >= c.psl && Carried(b, f, idx, c)
    requires e < |b| && !b[e].occupied
    ensures Carried(b, f, Succ(idx, |b|), c.(psl := c.psl + 1))
  {
    ProbeLengthBound(b, f, idx, e);
    assert PlacedAt(b, f, idx);
  }

  /** A table with a hole at h that would satisfy the link condition if the hole were filled with x. */
  ghost predicate Holed<K, V>(b: Table<K, V>, f: Keys<K>, h: nat, x: Bucket<K, V>) {
    h < |b| && !b[h].occupied && x.occupied && |b| > 1 && Placed(b, f) && Distinct(b, f) && Linked(b[h := x])
  }

  lemma ClearMakesHole<K, V>(b: Table<K, V>, f: Keys<K>, h: nat)
    requires RobinHood(b, f) && Live(b, h) && |b| > 1
    ensures Holed(b[h := b[h].(occupied := false)], f, h, b[h])
  {
    var d := b[h := b[h].(occupied := false)];
    forall i | Live(d, i) ensures PlacedAt(d, f, i) { assert Live(b, i) && PlacedAt(b, f, i); }
    assert Distinct(d, f) by { assert forall i :: Live(d, i) ==> Live(b, i) && d[i] == b[i]; }
    assert d[h := b[h]] == b;
  }

  /** The table after one backward shift into hole h. */
  function Shifted<K, V>(b: Table<K, V>, h: nat): Table<K, V>
    requires h < |b|
  {
    var n := Succ(h, |b|);
    b[h := b[n].(psl := if b[n].psl > 0 then b[n].psl - 1 else 0)][n := b[n].(occupied := false)]
  }

  lemma ShiftKeeps<K(!new), V>(b: Table<K, V>, f: Keys<K>, h: nat, x: Bucket<K, V>)
    requires Compatible(f) && Holed(b, f, h, x)
    requires var n := Succ(h, |b|); b[n].occupied && b[n].psl > 0
    ensures var n := Succ(h, |b|);
      && Holed(Shifted(b, h), f, n, b[n])
      && Entries(Shifted(b, h)) == Entries(b)
  {
    var n := Succ(h, |b|);
    var d := Shifted(b, h);
    var filled := b[h := x];
    assert Live(b, n) && PlacedAt(b, f, n);
    forall i | Live(d, i) ensures PlacedAt(d, f, i) {
      if i != h { assert Live(b, i) && PlacedAt(b, f, i); }
    }
    assert Distinct(d, f) by {
      forall i, j | Live(d, i) && Live(d, j) && i != j && d[i].slot.Entry? && d[j].slot.Entry?
        ensures !f.eq(d[i].slot.key, d[j].slot.key) {
        var i', j' := if i == h then n else i, if j == h then n else j;
        assert Live(b, i') && Live(b, j') && d[i].slot == b[i'].slot && d[j].slot == b[j'].slot;
      }
    }
    var next := d[n := b[n]];
    forall i | Live(next, i) ensures LinkedAt(next, i) {
      assert Live(filled, i) && LinkedAt(filled, i);
      if i == h { assert LinkedAt(filled, n); }
    }
    EntriesMoved(b, h, d);
  }

  lemma ShiftSize<K, V>(b: Table<K, V>, h: nat)
    requires h < |b| && |b| > 1 && !b[h].occupied && b[Succ(h, |b|)].occupied
    ensures |Occupied(Shifted(b, h))| == |Occupied(b)|
  {
    var n := Succ(h, |b|);
    var d := Shifted(b, h);
    OccupiedWrite(b, h, d[h]);
    OccupiedWrite(b[h := d[h]], n, d[n]);
    assert n in Occupied(b) && h !in Occupied(b);
    assert Occupied(d) == Occupied(b) + {h as int} - {n as int};
  }

  lemma EntriesMoved<K, V>(b: Table<K, V>, h: nat, d: Table<K, V>)
    requires h < |b| && |b| > 1 && !b[h].occupied && b[Succ(h, |b|)].occupied && d == Shifted(b, h)
    ensures Entries(d) == Entries(b)
  {
    var n := Succ(h, |b|);
    forall s | s in Entries(b) ensures s in Entries(d) {
      var j :| 0 <= j < |b| && b[j].occupied && b[j].slot == s;
      assert d[if j == n then h else j].slot == s;
    }
    forall s | s in Entries(d) ensures s in Entries(b) {
      var j :| 0 <= j < |d| && d[j].occupied && d[j].slot == s;
      assert b[if j == h then n else j].slot == s;
    }
  }

  /** When nothing follows the hole that a probe could need it for, the invariant is whole again. */
  lemma HoleCloses<K, V>(b: Table<K, V>, f: Keys<K>, h: nat, x: Bucket<K, V>)
    requires Holed(b, f, h, x)
    requires var n := Succ(h, |b|); !b[n].occupied || b[n].psl == 0
    ensures RobinHood(b, f)
  {
    var filled := b[h := x];
    forall i | Live(b, i) ensures LinkedAt(b, i) { assert Live(filled, i) && LinkedAt(filled, i); }
  }

  /** An update in place keeps the key, the hash and the position. */
  lemma UpdateKeeps<K(!new), V>(b: Table<K, V>, f: Keys<K>, i: nat, v: V)
    requires Compatible(f) && RobinHood(b, f) && Live(b, i) && b[i].slot.Entry?
    ensures RobinHood(b[i := b[i].(slot := Entry(b[i].slot.key, v))], f)
  {
    var d := b[i := b[i].(slot := Entry(b[i].slot.key, v))];
    forall j | Live(d, j) ensures PlacedAt(d, f, j) && LinkedAt(d, j) {
      assert Live(b, j) && PlacedAt(b, f, j) && LinkedAt(b, j);
    }
    assert Distinct(d, f) by {
      forall j, k | Live(d, j) && Live(d, k) && j != k && d[j].slot.Entry? && d[k].slot.Entry?
        ensures !f.eq(d[j].slot.key, d[k].slot.key) {
        assert Live(b, j) && Live(b, k) && PlacedAt(b, f, j) && PlacedAt(b, f, k);
      }
    }
  }

  /** The q + 1 buckets that end at j. */
  ghost function PathTo(j: nat, q: nat, n: nat): (r: set<int>)
    requires j < n && q < n
    ensures |r| == q + 1 && forall x :: x in r ==> 0 <= x < n && Dist(x, j, n) <= q
  {
    if q == 0 then {j} else PathTo(j, q - 1, n) + {Wrap(j + n - q, n)}
  }

  lemma {:induction false} PathOccupied<K, V>(b: Table<K, V>, f: Keys<K>, j: nat, q: nat)
    requires Placed(b, f) && Linked(b) && Live(b, j) && q <= b[j].psl < |b|
    ensures PathTo(j, q, |b|) <= Occupied(b)
  {
    hide Placed, Linked;
    WalkBack(b, f, j, q);
    assert Wrap(j + |b| - q, |b|) in Occupied(b);
    if q > 0 { PathOccupied(b, f, j, q - 1); }
  }

  /** Robin Hood's guarantee in closed form: an entry sits psl buckets past its home, and psl is below the
      number of entries. */
  lemma PlacementAndBound<K, V>(b: Table<K, V>, f: Keys<K>, j: nat)
    requires Placed(b, f) && Linked(b) && Live(b, j)
    ensures b[j].slot.Entry? && j == (f.hash(b[j].slot.key) + b[j].psl) % |b|
    ensures b[j].psl < |Occupied(b)|
  {
    assert PlacedAt(b, f, j);
    AddThenMod(b[j].hash, b[j].psl, |b|);
    PathOccupied(b, f, j, b[j].psl);
    SubsetSize(PathTo(j, b[j].psl, |b|), Occupied(b));
  }

  lemma AddThenMod(h: nat, p: nat, n: nat)
    requires p < n
    ensures (h + p) % n == Wrap(h % n + p, n)
  {
    Bits.DivMod(h, n);
    var r := h % n + p;
    if r < n {
      Bits.RemainderUnique(h + p, n, h / n, r);
    } else {
      assert n * (h / n + 1) == n * (h / n) + n;
      Bits.RemainderUnique(h + p, n, h / n + 1, r - n);
    }
  }

  lemma {:induction false} SubsetSize<T>(a: set<T>, b: set<T>)
    requires a <= b
    ensures |a| <= |b|
  {
    if a != {} {
      var x :| x in a;
      SubsetSize(a - {x}, b - {x});
    }
  }
}
