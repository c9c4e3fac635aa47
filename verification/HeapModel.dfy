/** The allocator's data: size classes, alignment, block placement and the quarantine free lists, as values. */
module HeapModel {
  import opened Options
  import opened Bits
  import opened Lifetimes

  const HEADER_SIZE := 32
  const MAX_ALIGN := 16
  const MIN_CLASS_SHIFT := 4
  const CLASS_COUNT := 17

  type Byte = b: int | 0 <= b < 256

  /** A header and its user area.  `base` and `rawSize` are the range malloc returned; `data` is the user area. */
  datatype Block = Block(generation: nat, allocSize: nat, capacity: nat, base: nat, rawSize: nat, data: seq<Byte>)

  type Blocks = map<nat, Block>

  // ---------- Size classes ----------

  function BlockSize(c: nat): nat { Pow2(c + MIN_CLASS_SHIFT) }

  /** The first class from c on whose blocks hold `size`, or -1. */
  function ClassFrom(size: nat, c: nat): int
    requires c <= CLASS_COUNT
    decreases CLASS_COUNT - c
  {
    if c == CLASS_COUNT then -1 else if size <= BlockSize(c) then c else ClassFrom(size, c + 1)
  }

  function SizeClass(size: nat): int { ClassFrom(size, 0) }

  lemma {:induction false} ClassFromIs(size: nat, c: nat)
    requires c <= CLASS_COUNT
    ensures var r := ClassFrom(size, c);
      && (r >= 0 ==> c <= r < CLASS_COUNT && size <= BlockSize(r))
      && (forall d: nat :: c <= d < (if r >= 0 then r else CLASS_COUNT) ==> BlockSize(d) < size)
    decreases CLASS_COUNT - c
  {
    hide BlockSize;
    if c < CLASS_COUNT && size > BlockSize(c) { ClassFromIs(size, c + 1); }
  }

  /** A block goes back to the class it was carved for. */
  lemma ClassRoundTrip(c: nat)
    requires c < CLASS_COUNT
    ensures SizeClass(BlockSize(c)) == c
  {
    hide Pow2, ClassFrom;
    ClassFromIs(BlockSize(c), 0);
    var r := SizeClass(BlockSize(c));
    if 0 <= r < c { Pow2Strict(r + MIN_CLASS_SHIFT, c + MIN_CLASS_SHIFT); }
  }

  /** The list a block of this capacity belongs to; CLASS_COUNT is the large list. */
  function ListIndex(capacity: nat): (l: nat)
    ensures l <= CLASS_COUNT
  {
    ClassFromIs(capacity, 0);
    if SizeClass(capacity) >= 0 then SizeClass(capacity) else CLASS_COUNT
  }

  function CapacityFor(size: nat): nat { if SizeClass(size) >= 0 then BlockSize(SizeClass(size)) else size }

  lemma CapacityForIs(size: nat)
    requires size >= 1
    ensures CapacityFor(size) >= size && ListIndex(CapacityFor(size)) == ListIndex(size)
    ensures Carved(CapacityFor(size))
  {
    ClassFromIs(size, 0);
    if SizeClass(size) >= 0 { ClassRoundTrip(SizeClass(size)); }
  }

  /** Class blocks have exactly their class's size. */
  predicate Carved(capacity: nat) { SizeClass(capacity) >= 0 ==> capacity == BlockSize(SizeClass(capacity)) }

  // ---------- Alignment ----------

  /** The alignment that an allocation request really gets. */
  function RoundedAlignment(a: nat): nat { DoubleUpTo(MAX_ALIGN, a) }

  /** It is the least power of two that is at least 16 and at least the request. */
  lemma RoundedAlignmentIs(a: nat)
    ensures var r := RoundedAlignment(a);
      IsPow2(r) && r >= a && r >= MAX_ALIGN && forall j: nat :: Pow2(j) >= a && Pow2(j) >= MAX_ALIGN ==> r <= Pow2(j)
  {
    assert Pow2(4) == 16;
    DoubleUpToIs(4, a);
    forall j: nat | Pow2(j) >= MAX_ALIGN ensures j >= 4 { Pow2Strict(j, 4); }
  }

  // ---------- Placement ----------

  /** The header fits below the user area, and both lie inside the malloc range. */
  predicate BlockOk(p: nat, b: Block) {
    && p % MAX_ALIGN == 0
    && b.base + HEADER_SIZE <= p && p + b.capacity <= b.base + b.rawSize
    && 1 <= b.allocSize <= b.capacity == |b.data|
    && Carved(b.capacity)
  }

  predicate RangeFree(b: Block, raw: nat, n: nat) { raw + n <= b.base || b.base + b.rawSize <= raw }

  /** What malloc promises of a new range. */
  ghost predicate FreshRange(blocks: Blocks, raw: nat, n: nat) {
    forall p :: p in blocks ==> RangeFree(blocks[p], raw, n)
  }

  ghost predicate Apart(blocks: Blocks) {
    forall p, q :: p in blocks && q in blocks && p != q ==> RangeFree(blocks[p], blocks[q].base, blocks[q].rawSize)
  }

  ghost predicate BlocksOk(blocks: Blocks) {
    (forall p :: p in blocks ==> BlockOk(p, blocks[p])) && Apart(blocks)
  }

  /** The bytes of a request: header, alignment slack and user area. */
  function RawSize(size: nat, alignment: nat): nat
    requires alignment >= 1
  {
    HEADER_SIZE + alignment - 1 + CapacityFor(size)
  }

  /** Where the user area of a new block begins. */
  function UserAddress(raw: nat, alignment: nat): nat
    requires alignment >= 1
  {
    AlignUp(raw + HEADER_SIZE, alignment)
  }

  lemma PlacementOk(raw: nat, size: nat, alignment: nat)
    requires size >= 1 && IsPow2(alignment) && alignment >= MAX_ALIGN
    ensures var p := UserAddress(raw, alignment);
      && p % alignment == 0 && p % MAX_ALIGN == 0
      && raw + HEADER_SIZE <= p && p + CapacityFor(size) <= raw + RawSize(size, alignment)
  {
    AlignUpIsLeastMultiple(raw + HEADER_SIZE, alignment);
    AlignedIsMaxAligned(UserAddress(raw, alignment), alignment);
  }

  lemma AlignedIsMaxAligned(p: nat, alignment: nat)
    requires IsPow2(alignment) && alignment >= MAX_ALIGN && p % alignment == 0
    ensures p % MAX_ALIGN == 0
  {
    var k: nat :| alignment == Pow2(k);
    assert Pow2(4) == 16;
    Pow2Strict(k, 4);
    Pow2Monotone(4, k);
    DivMod(p, alignment);
    DivMod(alignment, 16);
    var m, d := p / alignment, alignment / 16;
    assert p == 16 * (d * m) by { assert p == (16 * d) * m; }
    RemainderUnique(p, 16, d * m, 0);
  }

  /** Distinct blocks do not overlap, headers included. */
  lemma BlocksDisjoint(blocks: Blocks, p: nat, q: nat)
    requires BlocksOk(blocks) && p in blocks && q in blocks && p != q
    ensures p + blocks[p].capacity <= q - HEADER_SIZE || q + blocks[q].capacity <= p - HEADER_SIZE
  {
    assert BlockOk(p, blocks[p]) && BlockOk(q, blocks[q]);
    assert RangeFree(blocks[p], blocks[q].base, blocks[q].rawSize);
  }

  lemma NewBlockOk(blocks: Blocks, p: nat, b: Block)
    requires BlocksOk(blocks) && BlockOk(p, b) && FreshRange(blocks, b.base, b.rawSize)
    ensures p !in blocks && BlocksOk(blocks[p := b])
  {
    forall q | q in blocks ensures q != p { assert BlockOk(q, blocks[q]) && RangeFree(blocks[q], b.base, b.rawSize); }
    var c := blocks[p := b];
    forall x, y | x in c && y in c && x != y ensures RangeFree(c[x], c[y].base, c[y].rawSize) {
      if x in blocks { assert RangeFree(blocks[x], b.base, b.rawSize); }
      if y in blocks { assert RangeFree(blocks[y], b.base, b.rawSize); }
    }
  }

  /** Rewriting a header or user area in place. */
  lemma SameRangeOk(blocks: Blocks, p: nat, b: Block)
    requires BlocksOk(blocks) && p in blocks && BlockOk(p, b)
    requires b.base == blocks[p].base && b.rawSize == blocks[p].rawSize
    ensures BlocksOk(blocks[p := b])
  {
    var c := blocks[p := b];
    forall x, y | x in c && y in c && x != y ensures RangeFree(c[x], c[y].base, c[y].rawSize) {
      assert RangeFree(blocks[x], blocks[y].base, blocks[y].rawSize);
    }
  }

  /** Blocks are never given back to malloc and never resized. */
  ghost predicate Kept(was: Blocks, now: Blocks) {
    forall p :: p in was ==> p in now && now[p].capacity == was[p].capacity && |now[p].data| == |was[p].data|
  }

  lemma KeptOne(blocks: Blocks, p: nat, b: Block)
    requires p in blocks ==> b.capacity == blocks[p].capacity && |b.data| == |blocks[p].data|
    ensures Kept(blocks, blocks[p := b])
  {
  }

  // ---------- Free lists ----------

  ghost predicate NoRepeats(s: seq<nat>) { forall i, j :: 0 <= i < j < |s| ==> s[i] != s[j] }

  ghost predicate ListedOk(blocks: Blocks, p: nat, l: nat) {
    p in blocks && blocks[p].generation == FREED && ListIndex(blocks[p].capacity) == l
  }

  /** Every freed block, apart from those in `out`, is on the list of its capacity, once, and the lists hold
      nothing else. */
  ghost predicate ListsOk(blocks: Blocks, lists: seq<seq<nat>>, out: set<nat>) {
    && |lists| == CLASS_COUNT + 1
    && (forall l, i :: 0 <= l < |lists| && 0 <= i < |lists[l]| ==>
         ListedOk(blocks, lists[l][i], l) && lists[l][i] !in out)
    && (forall l :: 0 <= l < |lists| ==> NoRepeats(lists[l]))
    && (forall p :: p in blocks && blocks[p].generation == FREED && p !in out ==>
         p in lists[ListIndex(blocks[p].capacity)])
  }

  lemma Unlisted(blocks: Blocks, lists: seq<seq<nat>>, l: nat, k: nat)
    requires ListsOk(blocks, lists, {}) && l < |lists| && k < |lists[l]|
    ensures ListsOk(blocks, lists[l := lists[l][..k] + lists[l][k + 1..]], {lists[l][k]})
  {
    var p := lists[l][k];
    var rest := lists[l][..k] + lists[l][k + 1..];
    var ls := lists[l := rest];
    assert ListedOk(blocks, p, l);
    forall i | 0 <= i < |rest| ensures rest[i] == lists[l][if i < k then i else i + 1] {}
    forall m, i | 0 <= m < |ls| && 0 <= i < |ls[m]| ensures ListedOk(blocks, ls[m][i], m) && ls[m][i] !in {p} {
      if m == l {
        assert ListedOk(blocks, lists[l][if i < k then i else i + 1], l);
      } else {
        assert ListedOk(blocks, lists[m][i], m);
      }
    }
    forall q | q in blocks && blocks[q].generation == FREED && q != p
      ensures q in ls[ListIndex(blocks[q].capacity)] {
      assert q in lists[ListIndex(blocks[q].capacity)];
      if ListIndex(blocks[q].capacity) == l {
        var i :| 0 <= i < |lists[l]| && lists[l][i] == q;
        assert rest[if i < k then i else i - 1] == q;
      }
    }
  }

  /** The block taken off its list gets a live generation. */
  lemma Revived(blocks: Blocks, lists: seq<seq<nat>>, p: nat, b: Block)
    requires p in blocks && ListsOk(blocks, lists, {p}) && b.generation != FREED
    ensures ListsOk(blocks[p := b], lists, {})
  {
    var c := blocks[p := b];
    forall l, i | 0 <= l < |lists| && 0 <= i < |lists[l]| ensures ListedOk(c, lists[l][i], l) {
      assert ListedOk(blocks, lists[l][i], l) && lists[l][i] !in {p};
    }
  }

  lemma AddedLive(blocks: Blocks, lists: seq<seq<nat>>, p: nat, b: Block)
    requires p !in blocks && ListsOk(blocks, lists, {}) && b.generation != FREED
    ensures ListsOk(blocks[p := b], lists, {})
  {
    var c := blocks[p := b];
    forall l, i | 0 <= l < |lists| && 0 <= i < |lists[l]| ensures ListedOk(c, lists[l][i], l) {
      assert ListedOk(blocks, lists[l][i], l);
    }
  }

  /** A live block is marked freed and pushed on the list of its capacity. */
  lemma Relisted(blocks: Blocks, lists: seq<seq<nat>>, p: nat, b: Block)
    requires p in blocks && blocks[p].generation != FREED && ListsOk(blocks, lists, {})
    requires b.generation == FREED && b.capacity == blocks[p].capacity
    ensures var l := ListIndex(b.capacity); ListsOk(blocks[p := b], lists[l := [p] + lists[l]], {})
  {
    var c := blocks[p := b];
    var l := ListIndex(b.capacity);
    var ls := lists[l := [p] + lists[l]];
    forall m, i | 0 <= m < |lists| && 0 <= i < |lists[m]| ensures lists[m][i] != p && ListedOk(c, lists[m][i], m) {
      assert ListedOk(blocks, lists[m][i], m);
    }
    forall m, i | 0 <= m < |ls| && 0 <= i < |ls[m]| ensures ListedOk(c, ls[m][i], m) {
      if m == l && i > 0 { assert ls[m][i] == lists[m][i - 1]; }
    }
    forall q | q in c && c[q].generation == FREED ensures q in ls[ListIndex(c[q].capacity)] {
      if q == p { assert ls[l][0] == p; } else {
        assert q in lists[ListIndex(blocks[q].capacity)];
        if ListIndex(blocks[q].capacity) == l { assert q in [p] + lists[l]; }
      }
    }
  }

  // ---------- Generations and the log ----------

  /** Headers carry exactly the generations that the history gives their addresses. */
  ghost predicate GenerationsOk(blocks: Blocks, epoch: nat, log: Log) {
    && WellLogged(log) && Allocations(log) < FREED
    && epoch == Generation(Allocations(log) + 1)
    && (forall p: nat :: p in blocks ==> blocks[p].generation == GenerationAt(log, p))
    && (forall p: nat :: p !in blocks ==> LifetimeAt(log, p) == None)
  }

  lemma LogStep(log: Log, e: Event, q: nat)
    ensures LifetimeAt(log + [e], q) ==
      if q != e.p then LifetimeAt(log, q) else if e.Allocated? then Some(|log|) else None
    ensures GenerationAt(log + [e], q) ==
      if q != e.p then GenerationAt(log, q) else if e.Allocated? then Generation(Allocations(log) + 1) else FREED
    ensures Allocations(log + [e]) == Allocations(log) + if e.Allocated? then 1 else 0
  {
    var l := log + [e];
    assert l[..|log|] == log;
    var i := LifetimeAt(log, q);
    if i.Some? { assert l[..i.value] == log[..i.value]; }
  }

  lemma LogStepWell(log: Log, e: Event)
    requires WellLogged(log) && LifetimeAt(log, e.p).None? == e.Allocated?
    ensures WellLogged(log + [e])
  {
    var l := log + [e];
    forall i | 0 <= i < |l| ensures LoggedWell(l, i) {
      assert l[..i] == if i < |log| then log[..i] else log;
      if i < |log| { assert LoggedWell(log, i); }
    }
  }

  /** A freed mark means that no lifetime is current. */
  lemma FreedMeansOver(log: Log, p: nat)
    requires Allocations(log) < FREED
    ensures GenerationAt(log, p) == FREED <==> LifetimeAt(log, p) == None
  {
    assert log[..|log|] == log;
    if LifetimeAt(log, p).Some? { GenerationOfLifetime(log, p, |log|); }
  }

  lemma EpochSteps(n: nat)
    requires 1 <= n < FREED
    ensures Generation(n) == n && (n + 1) % WORD64 == Generation(n + 1)
  {
  }

  lemma AllocationLogged(blocks: Blocks, epoch: nat, log: Log, p: nat, b: Block)
    requires GenerationsOk(blocks, epoch, log) && Allocations(log) + 1 < FREED
    requires p in blocks ==> blocks[p].generation == FREED
    requires b.generation == epoch
    ensures epoch != FREED && epoch != 0
    ensures GenerationsOk(blocks[p := b], (epoch + 1) % WORD64, log + [Allocated(p)])
  {
    hide Generation, LifetimeAt, GenerationAt, Allocations, WellLogged;
    FreedMeansOver(log, p);
    EpochSteps(Allocations(log) + 1);
    LogStep(log, Allocated(p), p);
    LogStepWell(log, Allocated(p));
    forall q: nat ensures
      && (q in blocks[p := b] ==> blocks[p := b][q].generation == GenerationAt(log + [Allocated(p)], q))
      && (q !in blocks[p := b] ==> LifetimeAt(log + [Allocated(p)], q) == None) {
      LogStep(log, Allocated(p), q);
    }
  }

  lemma ReleaseLogged(blocks: Blocks, epoch: nat, log: Log, p: nat, b: Block)
    requires GenerationsOk(blocks, epoch, log) && p in blocks && blocks[p].generation != FREED
    requires b.generation == FREED
    ensures GenerationsOk(blocks[p := b], epoch, log + [Released(p)])
  {
    hide Generation, LifetimeAt, GenerationAt, Allocations, WellLogged;
    FreedMeansOver(log, p);
    LogStep(log, Released(p), p);
    LogStepWell(log, Released(p));
    forall q: nat ensures
      && (q in blocks[p := b] ==> blocks[p := b][q].generation == GenerationAt(log + [Released(p)], q))
      && (q !in blocks[p := b] ==> LifetimeAt(log + [Released(p)], q) == None) {
      LogStep(log, Released(p), q);
    }
  }
}
