/** The local run queue when nobody else touches it, as with a single P: the ring, its two 32-bit counters and
    the same push, pop and steal code run without interleaving.  Here the counters may wrap. */
module LocalQueue {
  import opened Options
  import opened Deque

  /** The ring b holds the items from index `base` on. */
  ghost predicate Ring<G>(b: seq<Option<G>>, base: nat, items: seq<G>) {
    |b| == SIZE && |items| <= SIZE && forall i :: 0 <= i < |items| ==> RingAt(b, base, items, i)
  }

  ghost predicate RingAt<G>(b: seq<Option<G>>, base: nat, items: seq<G>, i: nat)
    requires |b| == SIZE && i < |items|
  {
    b[(base + i) % SIZE] == Some(items[i])
  }

  lemma RingPush<G>(b: seq<Option<G>>, base: nat, items: seq<G>, g: G)
    requires Ring(b, base, items) && |items| < SIZE
    ensures Ring(b[(base + |items|) % SIZE := Some(g)], base, items + [g])
  {
    var c := b[(base + |items|) % SIZE := Some(g)];
    forall i | 0 <= i <= |items| ensures RingAt(c, base, items + [g], i) {
      if i < |items| { assert RingAt(b, base, items, i) && (base + i) % SIZE != (base + |items|) % SIZE; }
    }
  }

  lemma RingDropNewest<G>(b: seq<Option<G>>, base: nat, items: seq<G>)
    requires Ring(b, base, items) && items != []
    ensures b[(base + |items| - 1) % SIZE] == Some(items[|items| - 1])
    ensures Ring(b, base, items[..|items| - 1])
    ensures |items| == 1 ==> Ring(b, base + 1, items[..0])
  {
    var n := |items| - 1;
    assert RingAt(b, base, items, n);
    forall i | 0 <= i < n ensures RingAt(b, base, items[..n], i) { assert RingAt(b, base, items, i); }
  }

  lemma RingDropOldest<G>(b: seq<Option<G>>, base: nat, items: seq<G>)
    requires Ring(b, base, items) && items != []
    ensures b[base % SIZE] == Some(items[0]) && Ring(b, base + 1, items[1..])
  {
    assert RingAt(b, base, items, 0);
    var next, rest := base + 1, items[1..];
    forall i | 0 <= i < |rest| ensures RingAt(b, next, rest, i) { assert RingAt(b, base, items, i + 1); }
  }

  /** The word of an index. */
  function W(i: nat): Word { i % WORD }

  lemma Words(base: nat, n: nat)
    requires n <= SIZE
    ensures Sub(W(base + n), W(base)) == n && W(base + n) % SIZE == (base + n) % SIZE
    ensures Inc(W(base)) == W(base + 1) && Inc(W(base + n)) == W(base + n + 1)
    ensures Signed(n) == n
  {
    Difference(base, n);
    Successor(base);
    Successor(base + n);
    hide W, Sub, Inc;
  }

  lemma Difference(base: nat, n: nat)
    requires n <= SIZE
    ensures Sub(W(base + n), W(base)) == n && W(base + n) % SIZE == (base + n) % SIZE
  {
  }

  lemma Successor(i: nat)
    ensures Inc(W(i)) == W(i + 1)
  {
  }

  /** The counter that pop decrements. */
  lemma DecrementedWords(base: nat, n: nat)
    requires n <= SIZE && W(base + n) != 0
    ensures base + n >= 1 && W(base + n) - 1 == W(base + n - 1)
    ensures n == 0 ==> Signed(Sub(W(base + n) - 1, W(base))) == -1
  {
  }

  class RunQueue<G> {
    var head: Word
    var tail: Word
    const buf: array<Option<G>>
    /** What is queued, oldest first, and the number of values ever taken from the front. */
    ghost var items: seq<G>
    ghost var base: nat

    ghost predicate Valid()
      reads this, buf
    {
      Ring(buf[..], base, items) && head == W(base) && tail == W(base + |items|)
    }

    constructor ()
      ensures Valid() && items == [] && base == 0 && fresh(buf)
    {
      head, tail := 0, 0;
      buf := new Option<G>[SIZE](_ => None);
      items, base := [], 0;
    }

    method Push(g: G) returns (ok: bool)
      requires Valid()
      modifies this`tail, this`items, buf
      ensures Valid() && ok == (|old(items)| < SIZE)
      ensures items == (if ok then old(items) + [g] else old(items)) && base == old(base)
    {
      Words(base, |items|);
      hide W;
      var t := tail;
      var h := head;
      if Sub(t, h) >= SIZE {
        return false;
      }
      ghost var b := buf[..];
      RingPush(b, base, items, g);
      buf[t % SIZE] := Some(g);
      assert buf[..] == b[t % SIZE := Some(g)];
      tail := Inc(t);
      items := items + [g];
      ok := true;
    }

    /** Takes the newest value, except that a tail counter that has wrapped to exactly zero reads as empty. */
    method Pop() returns (r: Option<G>)
      requires Valid()
      modifies this
      ensures Valid()
      ensures old(tail) != 0 && old(items) != [] ==>
        r == Some(old(items)[|old(items)| - 1]) && items == old(items)[..|old(items)| - 1]
      ensures old(tail) == 0 || old(items) == [] ==> r == None && items == old(items)
      ensures base == if r.Some? && |old(items)| == 1 then old(base) + 1 else old(base)
    {
      var t := tail;
      if t == 0 {
        return None;
      }
      ghost var n := |items|;
      Words(base, n);
      DecrementedWords(base, n);
      if n > 0 { Words(base, n - 1); }
      if n > 0 { RingDropNewest(buf[..], base, items); }
      hide W, Sub, Inc, Signed, Ring;
      t := t - 1;
      tail := t;
      var h := head;
      if Signed(Sub(t, h)) < 0 {
        tail := Inc(t);
        return None;
      }
      r := buf[t % SIZE];
      items := items[..n - 1];
      if t == h {
        head := Inc(h);
        tail := Inc(t);
        base := base + 1;
      }
    }

    /** Takes the oldest value. */
    method Steal() returns (r: Option<G>)
      requires Valid()
      modifies this`head, this`items, this`base
      ensures Valid()
      ensures old(items) == [] ==> r == None && items == []
      ensures old(items) != [] ==> r == Some(old(items)[0]) && items == old(items)[1..] && base == old(base) + 1
    {
      Words(base, |items|);
      Words(base, 0);
      if items != [] { RingDropOldest(buf[..], base, items); }
      hide W, Sub, Inc;
      var h := head;
      var t := tail;
      if Signed(Sub(t, h)) <= 0 {
        return None;
      }
      r := buf[h % SIZE];
      head := Inc(h);
      items := items[1..];
      base := base + 1;
    }

    method Len() returns (n: nat)
      requires Valid()
      ensures n == |items|
    {
      Words(base, |items|);
      n := if Signed(Sub(tail, head)) > 0 then Sub(tail, head) else 0;
    }
  }

  /** The exception is reachable by the owner alone: 2^32 - 1 pushes, each popped again, and one more push leave a
      queue with one value that pop reports as empty. */
  method StuckAtWrap<G>(g: G) returns (q: RunQueue<G>, r: Option<G>)
    ensures q.Valid() && q.items == [g] && r == None
  {
    q := new RunQueue<G>();
    var i := 0;
    while i < WORD - 1
      invariant 0 <= i <= WORD - 1 && fresh(q) && fresh(q.buf)
      invariant q.Valid() && q.items == [] && q.base == i
    {
      var pushed := q.Push(g);
      var popped := q.Pop();
      i := i + 1;
    }
    var pushed := q.Push(g);
    r := q.Pop();
  }
}
