/** Commit and release of growable green-thread stacks: doubling growth at prologue checks and faults, and
    watermark-driven halving when a thread is switched out. */
module GrowableStack {
  import opened Bits

  const GROWABLE_INITIAL := 8192
  const CHECK_HEADROOM := 32768
  const SHRINK_THRESHOLD := 4
  const SHRINK_HYSTERESIS := 2

  /** The first commit of a stack: 8 KiB, or one page when pages are larger. */
  function Initial(page: nat): nat { if GROWABLE_INITIAL < page then page else GROWABLE_INITIAL }

  /** Commit sizes are the initial size times a power of two. */
  ghost predicate Doubled(page: nat, committed: nat) { IsPow2(committed) && committed >= Initial(page) }

  // ---------- Arithmetic ----------

  /** What growth must commit for `used` bytes: them and one more page, in whole pages. */
  function Needed(used: nat, page: nat): nat
    requires page >= 1
  {
    AlignUp(used + page, page)
  }

  /** The page-rounded watermark that shrinking respects. */
  function Floor(watermark: nat, page: nat): nat
    requires page >= 1
  {
    if AlignUp(watermark, page) < GROWABLE_INITIAL then GROWABLE_INITIAL else AlignUp(watermark, page)
  }

  /** What maybe_shrink leaves committed, with every clamp of the source. */
  function ShrinkTarget(committed: nat, watermark: nat, page: nat): nat
    requires page >= 1
  {
    var floor := Floor(watermark, page);
    if committed <= GROWABLE_INITIAL || floor * SHRINK_THRESHOLD > committed then committed
    else Clamped(committed, committed / 2, floor * SHRINK_HYSTERESIS, page)
  }

  /** The clamps on the shrink target. */
  function Clamped(committed: nat, halved: nat, minimum: nat, page: nat): nat
    requires page >= 1
  {
    var raised := if halved < minimum then AlignUp(minimum, page) else halved;
    var target := if raised < GROWABLE_INITIAL then GROWABLE_INITIAL else raised;
    if target >= committed then committed else target
  }

  lemma {:induction false} DoublingIsLeast(k: nat, m: nat, a: nat)
    requires k <= m && a <= Pow2(m)
    ensures DoubleUpTo(Pow2(k), a) <= Pow2(m)
  {
    DoubleUpToIs(k, a);
  }

  /** Of the clamps of maybe_shrink none is ever taken: a shrink is exactly a halving. */
  lemma ShrinkHalves(committed: nat, watermark: nat, page: nat)
    requires IsPow2(page)
    ensures var t := ShrinkTarget(committed, watermark, page); var floor := Floor(watermark, page);
      t == if committed <= GROWABLE_INITIAL || floor * SHRINK_THRESHOLD > committed then committed else committed / 2
    ensures var t := ShrinkTarget(committed, watermark, page);
      t < committed ==> t >= SHRINK_HYSTERESIS * Floor(watermark, page)
    ensures watermark <= Floor(watermark, page)
  {
    AlignUpIsLeastMultiple(watermark, page);
  }

  /** A halving keeps the commit size well formed, except for a one-page commit of at least 32 KiB whose
      watermark is zero. */
  lemma ShrinkKeepsShape(committed: nat, watermark: nat, page: nat)
    requires IsPow2(page) && Doubled(page, committed)
    ensures Doubled(page, ShrinkTarget(committed, watermark, page))
      <==> !(watermark == 0 && committed == page >= SHRINK_THRESHOLD * GROWABLE_INITIAL)
  {
    ShrinkHalves(committed, watermark, page);
    AlignUpIsLeastMultiple(watermark, page);
    HalfIsPow2(committed);
    var floor := Floor(watermark, page);
    if watermark > 0 {
      PositiveMultiple(AlignUp(watermark, page), page);
      assert floor >= page;
    } else {
      assert 0 % page == 0;
      assert AlignUp(watermark, page) == 0;
    }
    if committed > page { PowersApart(committed, page); }
    hide AlignUp, Pow2;
  }

  lemma HalfIsPow2(x: nat)
    requires IsPow2(x) && x > 1
    ensures IsPow2(x / 2) && x / 2 * 2 == x
  {
    var k: nat :| x == Pow2(k);
    assert x / 2 == Pow2(k - 1);
  }

  lemma PowersApart(x: nat, y: nat)
    requires IsPow2(x) && IsPow2(y) && x > y
    ensures x >= 2 * y
  {
    var k: nat :| x == Pow2(k);
    var j: nat :| y == Pow2(j);
    if k <= j { Pow2Monotone(k, j); }
    Pow2Monotone(j + 1, k);
  }

  lemma PositiveMultiple(x: nat, n: nat)
    requires x > 0 && n > 0 && x % n == 0
    ensures x >= n
  {
    if x < n { RemainderUnique(x, n, 0, x); }
  }

  // ---------- The prologue check ----------

  /** Where a check at offset d from the base, inside the stack or not, wants the stack committed down to: the
      headroom below d, but never the lowest page. */
  function CheckTarget(d: int, page: nat): nat { if d - CHECK_HEADROOM < page then page else d - CHECK_HEADROOM }

  /** Growth to a depth below the top succeeds when the depth is already covered, or the doubled commit fits. */
  predicate GrowthFits(committed: nat, used: nat, size: nat, page: nat)
    requires page >= 1 && committed >= 1
  {
    Needed(used, page) <= committed || DoubleUpTo(committed, Needed(used, page)) <= size
  }

  /** A check with the stack pointer at offset d from the base reports no overflow. */
  predicate CheckPasses(committed: nat, d: int, size: nat, page: nat)
    requires page >= 1 && committed >= 1
  {
    CheckTarget(d, page) <= size && GrowthFits(committed, size - CheckTarget(d, page), size, page)
  }

  /** Growth covers what was asked and one more page. */
  lemma CommitCovers(committed: nat, used: nat, page: nat)
    requires IsPow2(page) && IsPow2(committed)
    ensures DoubleUpTo(committed, Needed(used, page)) >= used + page
  {
    var k: nat :| committed == Pow2(k);
    DoubleUpToIs(k, Needed(used, page));
    AlignUpIsLeastMultiple(used + page, page);
  }

  /** And it is the least doubling that covers them. */
  lemma GrowthIsLeast(committed: nat, used: nat, page: nat, m: nat)
    requires IsPow2(page) && IsPow2(committed) && page <= committed
    requires IsPow2(m) && m >= committed && m >= used + page
    ensures DoubleUpTo(committed, Needed(used, page)) <= m
  {
    var k: nat :| committed == Pow2(k);
    var i: nat :| page == Pow2(i);
    var j: nat :| m == Pow2(j);
    if j < i { Pow2Strict(j, i); }
    Pow2Monotone(i, j);
    AlignUpIsLeastMultiple(used + page, page);
    if j < k { Pow2Strict(j, k); }
    DoubleUpToIs(k, Needed(used, page));
  }

  /** On a power-of-two stack of at least one page a check reports an overflow exactly when the stack pointer is
      more than the headroom above the top.  A stack pointer below the base, which is an overflow, is never
      reported: the target is clamped to the lowest page first. */
  lemma PowerSizePasses(size: nat, page: nat, committed: nat, d: int)
    requires IsPow2(page) && IsPow2(size) && IsPow2(committed) && committed <= size && page <= size
    ensures CheckPasses(committed, d, size, page) <==> d <= size + CHECK_HEADROOM
  {
    if d > size + CHECK_HEADROOM { return; }
    var k: nat :| committed == Pow2(k);
    var m: nat :| size == Pow2(m);
    var i: nat :| page == Pow2(i);
    var depth := size - CheckTarget(d, page);
    if k > m { Pow2Strict(m, k); }
    if i > m { Pow2Strict(m, i); }
    Pow2Monotone(i, m);
    AlignUpIsLeastMultiple(depth + page, page);
    DoublingIsLeast(k, m, Needed(depth, page));
  }

  /** On a stack smaller than one page every check fails: the lowest page already reaches above the top. */
  lemma SmallSizeFails(size: nat, page: nat, committed: nat, d: int)
    requires 1 <= size < page && committed >= 1
    ensures !CheckPasses(committed, d, size, page)
  {
  }

  lemma OtherSizeFails(size: nat, page: nat)
    requires IsPow2(page) && size >= Initial(page) && !IsPow2(size)
    ensures Doubled(page, Initial(page)) && !CheckPasses(Initial(page), 0, size, page)
  {
    InitialIsPow2(page);
    var k: nat :| Initial(page) == Pow2(k);
    AlignUpIsLeastMultiple(size - page + page, page);
    DoubleUpToIs(k, Needed(size - page, page));
  }

  lemma InitialIsPow2(page: nat)
    requires IsPow2(page)
    ensures Doubled(page, Initial(page))
  {
    assert Pow2(13) == 8192 by { PowersTo13(); }
  }

  /** The commit states a stack can be in: the first commit, whatever the size, and larger ones that fit. */
  ghost predicate CommitState(committed: nat, size: nat, page: nat) {
    Doubled(page, committed) && (committed <= size || committed == Initial(page))
  }

  /** For every size that the configuration accepts: run_stack_check reports no overflow for any stack pointer
      inside the stack, in any commit state, exactly when the size is a power of two of at least one page. */
  lemma NeverOverflowsIffPowerOfTwo(size: nat, page: nat)
    requires IsPow2(page) && size >= GROWABLE_INITIAL
    ensures IsPow2(size) && page <= size <==> forall committed: nat, d: nat ::
      CommitState(committed, size, page) && d <= size ==> CheckPasses(committed, d, size, page)
  {
    InitialIsPow2(page);
    if size < page {
      SmallSizeFails(size, page, Initial(page), 0);
    } else if IsPow2(size) {
      forall committed: nat, d: nat | CommitState(committed, size, page) && d <= size
        ensures CheckPasses(committed, d, size, page) {
        PowerSizePasses(size, page, committed, d);
      }
    } else {
      OtherSizeFails(size, page);
    }
  }

  // ---------- Stacks shrink back ----------

  /** The watermark after the stack pointer was at offset d. */
  function Recorded(watermark: nat, d: int, size: nat): nat {
    if 0 <= d <= size && size - d > watermark then size - d else watermark
  }

  /** The commit after growing to offset d, or the same when that fails. */
  function Grown(committed: nat, d: int, size: nat, page: nat): nat
    requires page >= 1 && committed >= 1
  {
    if 0 <= d <= size && GrowthFits(committed, size - d, size, page)
    then DoubleUpTo(committed, Needed(size - d, page)) else committed
  }

  /** What changes over the life of a stack. */
  datatype Commit = Commit(committed: nat, watermark: nat)

  /** A prologue check, a page fault or a switch out of the thread, at offset d. */
  datatype Use = Prologue(d: int) | Fault(d: int) | Out(d: int)

  function AfterUse(c: Commit, u: Use, size: nat, page: nat): (r: Commit)
    requires page >= 1 && c.committed >= 1
    ensures r.committed >= 1
  {
    var w := Recorded(c.watermark, u.d, size);
    match u
    case Prologue(d) => Commit(Grown(c.committed, CheckTarget(d, page), size, page), w)
    case Fault(d) => Commit(Grown(c.committed, d, size, page), c.watermark)
    case Out(d) =>
      Commit(ShrinkTarget(c.committed, w, page), if c.committed <= GROWABLE_INITIAL || d > size then w else size - d)
  }

  function AfterUses(c: Commit, us: seq<Use>, size: nat, page: nat): Commit
    requires page >= 1 && c.committed >= 1
    decreases us
  {
    if us == [] then c else AfterUses(AfterUse(c, us[0], size, page), us[1..], size, page)
  }

  function Outs(us: seq<Use>): nat {
    if us == [] then 0 else (if us[0].Out? then 1 else 0) + Outs(us[1..])
  }

  /** No use goes deeper than that below the top, the headroom of prologue checks included. */
  predicate Within(us: seq<Use>, depth: nat, size: nat, page: nat) {
    forall i :: 0 <= i < |us| ==> UseWithin(us[i], depth, size, page)
  }

  predicate UseWithin(u: Use, depth: nat, size: nat, page: nat) {
    && (0 <= u.d ==> size - u.d <= depth)
    && (u.Prologue? ==> size - CheckTarget(u.d, page) <= depth)
    && (u.Out? ==> 0 <= u.d < size)
  }

  /** The commit that uses of that depth justify. */
  function Bound(depth: nat, page: nat): nat
    requires page >= 1
  {
    SHRINK_THRESHOLD * Floor(depth, page)
  }

  lemma {:induction false} DoublesAtMost(c: nat, a: nat)
    requires 1 <= c < a
    ensures DoubleUpTo(c, a) < 2 * a
    decreases a - c
  {
    if 2 * c < a { DoublesAtMost(2 * c, a); }
  }

  lemma FloorMonotone(w: nat, depth: nat, page: nat)
    requires IsPow2(page) && w <= depth
    ensures Floor(w, page) <= Floor(depth, page)
    ensures depth > 0 ==> page <= Floor(depth, page) && 2 * Needed(w, page) <= Bound(depth, page)
  {
    AlignUpIsLeastMultiple(w, page);
    AlignUpIsLeastMultiple(depth, page);
    AlignUpIsLeastMultiple(w + page, page);
    var a := AlignUp(depth, page);
    NextMultiple(a, page);
    if depth > 0 { PositiveMultiple(a, page); }
    hide AlignUp, IsPow2;
  }

  lemma NextMultiple(x: nat, n: nat)
    requires n > 0 && x % n == 0
    ensures (x + n) % n == 0
  {
    var q := x / n;
    assert x == n * q && x + n == n * (q + 1) + 0;
    RemainderUnique(x + n, n, q + 1, 0);
  }

  /** Growth for uses of that depth stays below the bound. */
  lemma GrowthBounded(c: nat, d: int, depth: nat, size: nat, page: nat)
    requires IsPow2(page) && c >= 1 && depth > 0 && (0 <= d <= size ==> size - d <= depth)
    ensures Grown(c, d, size, page) == c || (c < Bound(depth, page) && Grown(c, d, size, page) < Bound(depth, page))
  {
    if 0 <= d <= size {
      var a := Needed(size - d, page);
      FloorMonotone(size - d, depth, page);
      if c < a { DoublesAtMost(c, a); }
    }
    hide Needed, Floor, IsPow2;
  }

  /** n more switches out bring the commit below the bound. */
  ghost predicate Settling(c: Commit, n: nat, depth: nat, page: nat)
    requires page >= 1
  {
    c.committed < Bound(depth, page) || (c.watermark <= depth && c.committed < Bound(depth, page) * Pow2(n))
  }

  lemma SwitchSettles(c: Commit, d: int, n: nat, depth: nat, size: nat, page: nat)
    requires IsPow2(page) && c.committed >= 1 && 0 <= d < size && size - d <= depth && n > 0
    requires Settling(c, n, depth, page)
    ensures Settling(AfterUse(c, Out(d), size, page), n - 1, depth, page)
  {
    var w := Recorded(c.watermark, d, size);
    ShrinkHalves(c.committed, w, page);
    if c.committed >= Bound(depth, page) {
      FloorMonotone(w, depth, page);
      Halved(Bound(depth, page), n, c.committed);
    }
    hide ShrinkTarget, Pow2, IsPow2, Needed, Floor;
  }

  lemma Halved(b: nat, n: nat, c: nat)
    requires n > 0 && c < b * Pow2(n)
    ensures c / 2 < b * Pow2(n - 1)
  {
    assert b * (2 * Pow2(n - 1)) == 2 * (b * Pow2(n - 1));
  }

  lemma UseSettles(c: Commit, u: Use, n: nat, depth: nat, size: nat, page: nat)
    requires IsPow2(page) && c.committed >= 1 && depth > 0 && UseWithin(u, depth, size, page) && !u.Out?
    requires Settling(c, n, depth, page)
    ensures Settling(AfterUse(c, u, size, page), n, depth, page)
  {
    GrowthBounded(c.committed, if u.Prologue? then CheckTarget(u.d, page) else u.d, depth, size, page);
    hide Grown, Bound, IsPow2, Pow2;
  }

  lemma {:induction false} SettlesFrom(c: Commit, us: seq<Use>, depth: nat, size: nat, page: nat)
    requires IsPow2(page) && c.committed >= 1 && depth > 0 && Within(us, depth, size, page)
    requires Settling(c, Outs(us), depth, page)
    ensures AfterUses(c, us, size, page).committed < Bound(depth, page)
    decreases us
  {
    if us == [] {
      assert Pow2(0) == 1;
    } else {
      var u := us[0];
      assert UseWithin(u, depth, size, page);
      if u.Out? {
        SwitchSettles(c, u.d, Outs(us), depth, size, page);
      } else {
        UseSettles(c, u, Outs(us), depth, size, page);
      }
      hide Settling, AfterUse, IsPow2, Bound;
      SettlesFrom(AfterUse(c, u, size, page), us[1..], depth, size, page);
    }
  }

  /** A stack shrinks back: when it is used no deeper than `depth` any more, n switches out bring any commit below
      2^(n-1) times the bound for that depth below that bound, whatever the watermark was and however it grows in
      between.  One switch makes it forget how deep it was before, every further one halves it. */
  lemma {:induction false} ShrinksBack(c: Commit, us: seq<Use>, depth: nat, size: nat, page: nat)
    requires IsPow2(page) && c.committed >= 1 && depth > 0 && Within(us, depth, size, page)
    requires Outs(us) >= 1 && c.committed < Bound(depth, page) * Pow2(Outs(us) - 1)
    ensures AfterUses(c, us, size, page).committed < Bound(depth, page)
    decreases us
  {
    var u := us[0];
    assert UseWithin(u, depth, size, page);
    if u.Out? {
      FirstSwitch(c, u.d, Outs(us) - 1, depth, size, page);
      SettlesFrom(AfterUse(c, u, size, page), us[1..], depth, size, page);
    } else {
      GrowthBounded(c.committed, if u.Prologue? then CheckTarget(u.d, page) else u.d, depth, size, page);
      BoundGrows(Bound(depth, page), Outs(us) - 1);
      hide Grown, Bound, IsPow2, Pow2;
      ShrinksBack(AfterUse(c, u, size, page), us[1..], depth, size, page);
    }
  }

  lemma BoundGrows(b: nat, n: nat)
    ensures b <= b * Pow2(n)
  {
    MulLe(b, 1, Pow2(n));
  }

  lemma FirstSwitch(c: Commit, d: int, n: nat, depth: nat, size: nat, page: nat)
    requires IsPow2(page) && c.committed >= 1 && 0 <= d < size && size - d <= depth
    requires c.committed < Bound(depth, page) * Pow2(n)
    ensures Settling(AfterUse(c, Out(d), size, page), n, depth, page)
  {
    ShrinkHalves(c.committed, Recorded(c.watermark, d, size), page);
    hide ShrinkTarget, Pow2, IsPow2;
  }

  /** In bytes: less than four times the larger of 8 KiB and the depth rounded up to a page. */
  lemma BoundIs(depth: nat, page: nat)
    requires IsPow2(page)
    ensures Bound(depth, page) < 4 * ((if depth < 8192 then 8192 else depth) + page)
  {
    AlignUpIsLeastMultiple(depth, page);
  }

  // ---------- The stack object ----------

  /** Addresses [from, to). */
  ghost function Bytes(from: int, to: int): iset<int> { iset a | Between(from, a, to) }

  ghost predicate Between(from: int, a: int, to: int) { from <= a < to }

  class Stack {
    const page: nat
    const base: nat
    const size: nat
    var committed: nat
    var watermark: nat
    var lo: int
    /** The addresses that the stack has asked to be readable and writable. */
    ghost var mapped: iset<int>

    function Top(): int { base + size }

    ghost predicate Valid()
      reads this
    {
      && IsPow2(page) && base > 0
      && CommitState(committed, size, page)
      && lo == Top() - committed
      && mapped == Bytes(lo, Top())
    }

    /** The address range is reserved, and the initial pages below its top are asked for. */
    constructor (base: nat, size: nat, page: nat)
      requires IsPow2(page) && base > 0 && size >= GROWABLE_INITIAL
      ensures Valid() && committed == Initial(page) && watermark == 0
      ensures this.page == page && this.base == base && this.size == size
    {
      this.page, this.base, this.size := page, base, size;
      committed := Initial(page);
      watermark := 0;
      lo := base + size - Initial(page);
      mapped := Bytes(base + size - Initial(page), base + size);
      new;
      InitialIsPow2(page);
    }

    predicate Inside(sp: int) { base <= sp <= Top() }

    /** run_vmem_protect and run_vmem_release on [from, from + n). */
    method Protect(from: int, n: nat, on: bool)
      modifies this`mapped
      ensures mapped == if on then old(mapped) + Bytes(from, from + n) else old(mapped) - Bytes(from, from + n)
    {
      mapped := if on then mapped + Bytes(from, from + n) else mapped - Bytes(from, from + n);
    }

    method RecordSp(sp: int)
      modifies this`watermark
      ensures watermark == Recorded(old(watermark), sp - base, size)
    {
      if sp < base || sp > Top() {
        return;
      }
      var used := Top() - sp;
      if used > watermark {
        watermark := used;
      }
    }

    /** Commits down to sp and one page more by doubling.  Fails for an sp outside the stack, or when the
        doubled size that is needed exceeds the stack. */
    method GrowToSp(sp: int) returns (ok: bool)
      requires Valid()
      modifies this`committed, this`lo, this`mapped
      ensures Valid()
      ensures ok <==> Inside(sp) && GrowthFits(old(committed), Top() - sp, size, page)
      ensures committed == Grown(old(committed), sp - base, size, page)
    {
      hide Pow2, AlignUp;
      if sp < base || sp > Top() {
        return false;
      }
      var needed := Needed(Top() - sp, page);
      if needed <= committed {
        return true;
      }
      ghost var k: nat :| committed == Pow2(k);
      DoubleUpToIs(k, needed);
      var newCommitted := committed;
      while newCommitted < needed && newCommitted < size
        invariant newCommitted >= committed
        invariant DoubleUpTo(newCommitted, needed) == DoubleUpTo(committed, needed)
        decreases needed - newCommitted
      {
        newCommitted := newCommitted * 2;
      }
      GrowthResult(newCommitted, needed);
      if newCommitted < needed || newCommitted > size {
        return false;
      }
      var newLo := Top() - newCommitted;
      Protect(newLo, lo - newLo, true);
      committed := newCommitted;
      lo := newLo;
      assert mapped == Bytes(lo, Top());
      ok := true;
    }

    /** After a thread is switched out at sp: halve the commit when a quarter of it covers the watermark. */
    method MaybeShrink(sp: int)
      requires Valid() && Inside(sp) && sp < Top() && watermark >= Top() - sp
      modifies this
      ensures Valid()
      ensures committed == ShrinkTarget(old(committed), old(watermark), page)
      ensures watermark == if old(committed) <= GROWABLE_INITIAL then old(watermark) else Top() - sp
      ensures committed < old(committed) ==>
        committed * 2 == old(committed) && committed >= SHRINK_HYSTERESIS * Floor(old(watermark), page)
      ensures committed < old(committed) ==>
        Bytes(Top() - SHRINK_HYSTERESIS * Floor(old(watermark), page), Top()) <= mapped
      ensures Bytes(sp, Top()) <= old(mapped) ==> Bytes(sp, Top()) <= mapped
    {
      assert page >= 1;
      hide Pow2, AlignUp, IsPow2;
      ShrinkHalves(committed, watermark, page);
      ShrinkKeepsShape(committed, watermark, page);
      if committed <= GROWABLE_INITIAL {
        return;
      }
      var floor := Floor(watermark, page);
      if floor * SHRINK_THRESHOLD > committed {
        watermark := Top() - sp;
        return;
      }
      var target := Clamped(committed, committed / 2, floor * SHRINK_HYSTERESIS, page);
      HalfIsPow2(committed);
      var newLo := Top() - target;
      Protect(lo, newLo - lo, false);
      committed := target;
      lo := newLo;
      watermark := Top() - sp;
      assert mapped == Bytes(lo, Top());
    }

    /** The loop's work on a thread it switches out: record, then shrink. */
    method SwitchedOut(sp: int)
      requires Valid() && Inside(sp) && sp < Top()
      modifies this
      ensures Valid()
      ensures Commit(committed, watermark) == AfterUse(old(Commit(committed, watermark)), Out(sp - base), size, page)
      ensures Bytes(sp, Top()) <= old(mapped) ==> Bytes(sp, Top()) <= mapped
    {
      RecordSp(sp);
      MaybeShrink(sp);
    }

    /** The prologue check: commit headroom below sp, clamped to the reserved range. */
    method Check(sp: int) returns (ok: bool)
      requires Valid()
      modifies this
      ensures Valid()
      ensures Commit(committed, watermark)
        == AfterUse(old(Commit(committed, watermark)), Prologue(sp - base), size, page)
      ensures ok == CheckPasses(old(committed), sp - base, size, page)
      ensures ok ==> Bytes(base + CheckTarget(sp - base, page) - page, Top()) <= mapped
    {
      assert IsPow2(page) && IsPow2(committed);
      hide Pow2, IsPow2, Needed, Floor, DoubleUpTo, AlignUp, GrowthFits;
      RecordSp(sp);
      var target := sp - CHECK_HEADROOM;
      var loLimit := base + page;
      if target < loLimit {
        target := loLimit;
      }
      ok := GrowToSp(target);
      if ok { CommitCovers(old(committed), Top() - target, page); }
    }

    /** The handler of a page fault on the stack: grow to the address. */
    method FaultAt(addr: int) returns (ok: bool)
      requires Valid()
      modifies this`committed, this`lo, this`mapped
      ensures Valid() && (ok <==> Inside(addr) && GrowthFits(old(committed), Top() - addr, size, page))
      ensures Commit(committed, watermark)
        == AfterUse(old(Commit(committed, watermark)), Fault(addr - base), size, page)
    {
      ok := GrowToSp(addr);
    }

    /** What a thread does with its stack, from one moment to another. */
    method Perform(uses: seq<Use>)
      requires Valid() && forall i :: 0 <= i < |uses| ==> uses[i].Out? ==> 0 <= uses[i].d < size
      modifies this
      ensures Valid() && Commit(committed, watermark) == AfterUses(old(Commit(committed, watermark)), uses, size, page)
    {
      hide AfterUse;
      ghost var start := Commit(committed, watermark);
      var i := 0;
      while i < |uses|
        invariant 0 <= i <= |uses| && Valid()
        invariant AfterUses(Commit(committed, watermark), uses[i..], size, page) == AfterUses(start, uses, size, page)
      {
        assert uses[i..][1..] == uses[i + 1..];
        match uses[i] {
          case Prologue(d) => var _ := Check(base + d);
          case Fault(d) => var _ := FaultAt(base + d);
          case Out(d) => SwitchedOut(base + d);
        }
        i := i + 1;
      }
    }
  }

  lemma PowersTo13()
    ensures Pow2(13) == 8192
  {
    assert Pow2(6) == 64;
    assert Pow2(10) == 16 * Pow2(6);
    assert Pow2(13) == 8 * Pow2(10);
  }

  lemma GrowthResult(reached: nat, needed: nat)
    requires reached >= 1
    ensures reached >= needed ==> DoubleUpTo(reached, needed) == reached
    ensures reached < needed ==> DoubleUpTo(reached, needed) >= needed
    decreases if reached < needed then needed - reached else 0
  {
    if reached < needed { GrowthResult(2 * reached, needed); }
  }
}
