/** The generational allocator: epoch counter, headers that stay readable, quarantine free lists, and checked
    references. */
module Heap {
  import opened Options
  import opened Bits
  import opened Ranges
  import opened Lifetimes
  import opened HeapModel

  /** A pointer (0 is null) and the generation it was captured with; 0 marks an unchecked stack reference. */
  datatype GenRef = GenRef(ptr: nat, generation: nat)

  datatype Deref = Access(p: nat) | AbortNull | AbortFreed | AbortMismatch

  /** The reference that capturing p at this point of the history yields. */
  ghost function Captured(log: Log, p: nat): GenRef {
    GenRef(p, if p == 0 then 0 else GenerationAt(log, p))
  }

  predicate Fits(blocks: Blocks, p: nat, size: nat, alignment: nat)
    requires alignment >= 1
  {
    p in blocks && blocks[p].capacity >= size && p % alignment == 0
  }

  /** The first block of a list that fits. */
  function FirstFit(blocks: Blocks, list: seq<nat>, size: nat, alignment: nat): (r: Option<nat>)
    requires alignment >= 1
  {
    if list == [] then None
    else if Fits(blocks, list[0], size, alignment) then Some(list[0])
    else FirstFit(blocks, list[1..], size, alignment)
  }

  /** The freed block that a request takes: the one its class list received last, if that is aligned; for a large
      request the first on the large list that fits. */
  function Candidate(blocks: Blocks, lists: seq<seq<nat>>, size: nat, alignment: nat): Option<nat>
    requires |lists| == CLASS_COUNT + 1 && alignment >= 1
  {
    var list := lists[ListIndex(size)];
    if SizeClass(size) < 0 then FirstFit(blocks, list, size, alignment)
    else if list != [] && list[0] % alignment == 0 then Some(list[0]) else None
  }

  /** The lists once block r, if any, has left the list of its size. */
  function ListsWithout(lists: seq<seq<nat>>, size: nat, r: Option<nat>): seq<seq<nat>>
    requires |lists| == CLASS_COUNT + 1
  {
    if r.None? then lists else lists[ListIndex(size) := Without(lists[ListIndex(size)], r.value)]
  }

  /** First fit: position i is taken exactly when it fits and none before it does. */
  lemma {:induction false} FirstFitIs(blocks: Blocks, list: seq<nat>, size: nat, alignment: nat, i: nat)
    requires alignment >= 1 && i <= |list|
    requires forall j :: 0 <= j < i ==> !Fits(blocks, list[j], size, alignment)
    requires i < |list| ==> Fits(blocks, list[i], size, alignment)
    ensures i == |list| ==> FirstFit(blocks, list, size, alignment) == None
    ensures i < |list| ==>
      && FirstFit(blocks, list, size, alignment) == Some(list[i])
      && Without(list, list[i]) == list[..i] + list[i + 1..]
  {
    if i > 0 {
      FirstFitIs(blocks, list[1..], size, alignment, i - 1);
      hide Fits;
      if i < |list| {
        assert list[1..][i - 1] == list[i];
        assert Fits(blocks, list[i], size, alignment) && !Fits(blocks, list[0], size, alignment);
        assert [list[0]] + (list[1..][..i - 1] + list[1..][i..]) == list[..i] + list[i + 1..];
      }
    }
  }

  /** First fit finds the first position that fits, and nothing only if none does. */
  lemma {:induction false} FirstFits(blocks: Blocks, list: seq<nat>, size: nat, alignment: nat)
    requires alignment >= 1
    ensures var r := FirstFit(blocks, list, size, alignment);
      if r.None? then forall j :: 0 <= j < |list| ==> !Fits(blocks, list[j], size, alignment)
      else exists i :: 0 <= i < |list| && FirstAt(blocks, list, size, alignment, i) && r == Some(list[i])
  {
    if list != [] && !Fits(blocks, list[0], size, alignment) {
      FirstFits(blocks, list[1..], size, alignment);
      if FirstFit(blocks, list[1..], size, alignment).Some? {
        var i :| 0 <= i < |list| - 1 && FirstAt(blocks, list[1..], size, alignment, i)
          && FirstFit(blocks, list[1..], size, alignment) == Some(list[1..][i]);
        assert FirstAt(blocks, list, size, alignment, i + 1);
      } else {
        forall j | 0 <= j < |list| ensures !Fits(blocks, list[j], size, alignment) {
          if j > 0 { assert list[j] == list[1..][j - 1]; }
        }
      }
    } else if list != [] {
      assert FirstAt(blocks, list, size, alignment, 0);
    }
  }

  /** Position i fits and none before it does. */
  ghost predicate FirstAt(blocks: Blocks, list: seq<nat>, size: nat, alignment: nat, i: int)
    requires alignment >= 1
  {
    && 0 <= i < |list| && Fits(blocks, list[i], size, alignment)
    && forall j :: 0 <= j < i ==> !Fits(blocks, list[j], size, alignment)
  }

  /** A large request takes the first block of the large list that fits, and none only if none fits. */
  lemma LargeCandidate(blocks: Blocks, lists: seq<seq<nat>>, size: nat, alignment: nat)
    requires |lists| == CLASS_COUNT + 1 && alignment >= 1 && SizeClass(size) < 0
    ensures var list, r := lists[CLASS_COUNT], Candidate(blocks, lists, size, alignment);
      if r.None? then forall j :: 0 <= j < |list| ==> !Fits(blocks, list[j], size, alignment)
      else exists i :: 0 <= i < |list| && FirstAt(blocks, list, size, alignment, i) && r == Some(list[i])
  {
    FirstFits(blocks, lists[CLASS_COUNT], size, alignment);
    hide SizeClass, FirstFit;
  }

  /** The block freed last is the next one that is reused, by any request of its class that it fits. */
  lemma FreedIsNext(blocks: Blocks, lists: seq<seq<nat>>, p: nat, size: nat, alignment: nat)
    requires |lists| == CLASS_COUNT + 1 && alignment >= 1 && Fits(blocks, p, size, alignment)
    requires ListIndex(size) == ListIndex(blocks[p].capacity)
    ensures var l := ListIndex(size);
      Candidate(blocks, lists[l := [p] + lists[l]], size, alignment) == Some(p)
      && ListsWithout(lists[l := [p] + lists[l]], size, Some(p)) == lists
  {
    hide ListIndex, SizeClass;
  }

  /** A class list gives up its head only. */
  lemma ClassCandidate(blocks: Blocks, lists: seq<seq<nat>>, size: nat, alignment: nat)
    requires |lists| == CLASS_COUNT + 1 && alignment >= 1 && SizeClass(size) >= 0
    ensures var c := SizeClass(size);
      && c < CLASS_COUNT
      && (lists[c] == [] || lists[c][0] % alignment != 0 ==> Candidate(blocks, lists, size, alignment) == None)
      && (lists[c] != [] && lists[c][0] % alignment == 0 ==>
        && Candidate(blocks, lists, size, alignment) == Some(lists[c][0])
        && ListsWithout(lists, size, Some(lists[c][0])) == lists[c := lists[c][..0] + lists[c][1..]])
  {
    ClassFromIs(size, 0);
    var c := SizeClass(size);
    hide ClassFrom;
    if lists[c] != [] {
      assert lists[c][..0] + lists[c][1..] == lists[c][1..] == Without(lists[c], lists[c][0]);
    }
  }

  class Allocator {
    var blocks: Blocks
    var lists: seq<seq<nat>>
    var epoch: nat
    ghost var log: Log

    ghost predicate Valid()
      reads this
    {
      BlocksOk(blocks) && ListsOk(blocks, lists, {}) && GenerationsOk(blocks, epoch, log)
    }

    constructor ()
      ensures Valid() && blocks == map[] && log == []
    {
      blocks := map[];
      lists := seq(CLASS_COUNT + 1, _ => []);
      epoch := 1;
      log := [];
    }

    // ---------- Size class and alignment loops ----------

    method FindSizeClass(size: nat) returns (c: int)
      ensures c == SizeClass(size)
    {
      hide Pow2;
      var classSize := 16;
      assert BlockSize(0) == 16 by { assert Pow2(4) == 16 by { PowersOfTwo(); } }
      c := 0;
      while c < CLASS_COUNT
        invariant 0 <= c <= CLASS_COUNT && classSize == BlockSize(c)
        invariant SizeClass(size) == ClassFrom(size, c)
      {
        if size <= classSize {
          return;
        }
        classSize := classSize * 2;
        Pow2Next(c + MIN_CLASS_SHIFT);
        c := c + 1;
      }
      c := -1;
    }

    method RoundAlignment(requested: nat) returns (a: nat)
      ensures a == RoundedAlignment(requested) && IsPow2(a) && a >= MAX_ALIGN
    {
      RoundedAlignmentIs(requested);
      a := if requested < MAX_ALIGN then MAX_ALIGN else requested;
      PowerTest(a);
      PowersOfTwo();
      if And(a, a - 1) != 0 {
        var rounded := MAX_ALIGN;
        while rounded < a
          invariant rounded >= 1 && DoubleUpTo(rounded, requested) == RoundedAlignment(requested)
          decreases a - rounded
        {
          rounded := rounded * 2;
        }
        a := rounded;
      }
    }

    // ---------- Free lists ----------

    /** Takes a freed block of sufficient capacity and alignment off its list. */
    method FreelistPop(size: nat, alignment: nat) returns (r: Option<nat>)
      requires BlocksOk(blocks) && ListsOk(blocks, lists, {}) && IsPow2(alignment) && alignment >= 1
      modifies this`lists
      ensures r == Candidate(blocks, old(lists), size, alignment) && lists == ListsWithout(old(lists), size, r)
      ensures r.Some? ==> ListsOk(blocks, lists, {r.value}) && r.value in blocks
      ensures r.Some? ==> blocks[r.value].generation == FREED && blocks[r.value].capacity >= size
      ensures r.Some? ==> r.value % alignment == 0
    {
      assert |lists| == CLASS_COUNT + 1;
      ListIndexIs(size);
      hide BlocksOk, ListsOk, IsPow2, SizeClass, ListIndex;
      var c := FindSizeClass(size);
      if c >= 0 {
        r := PopClass(size, c, alignment);
      } else {
        r := PopLarge(size, alignment);
      }
    }

    /** Only the head of a class list is considered. */
    method PopClass(size: nat, c: nat, alignment: nat) returns (r: Option<nat>)
      requires BlocksOk(blocks) && ListsOk(blocks, lists, {}) && IsPow2(alignment) && alignment >= 1
      requires c == SizeClass(size)
      modifies this`lists
      ensures r == Candidate(blocks, old(lists), size, alignment) && lists == ListsWithout(old(lists), size, r)
      ensures r.Some? ==> ListsOk(blocks, lists, {r.value}) && r.value in blocks
      ensures r.Some? ==> blocks[r.value].generation == FREED && blocks[r.value].capacity >= size
      ensures r.Some? ==> r.value % alignment == 0
    {
      HeadOfClass(blocks, lists, size, alignment);
      hide BlocksOk, ListsOk, IsPow2, And, SizeClass, Candidate, ListsWithout;
      if lists[c] != [] {
        var p := lists[c][0];
        if And(p, alignment - 1) == 0 {
          TakeOff(c, 0);
          return Some(p);
        }
      }
      r := None;
    }

    /** The large list is searched first fit. */
    method PopLarge(size: nat, alignment: nat) returns (r: Option<nat>)
      requires ListsOk(blocks, lists, {}) && IsPow2(alignment) && alignment >= 1 && SizeClass(size) < 0
      modifies this`lists
      ensures r == Candidate(blocks, old(lists), size, alignment) && lists == ListsWithout(old(lists), size, r)
      ensures r.Some? ==> ListsOk(blocks, lists, {r.value}) && r.value in blocks
      ensures r.Some? ==> blocks[r.value].generation == FREED && blocks[r.value].capacity >= size
      ensures r.Some? ==> r.value % alignment == 0
    {
      assert |lists| == CLASS_COUNT + 1;
      ListIndexIs(size);
      hide IsPow2, And, ListsOk, SizeClass, ListIndex;
      var i: nat := 0;
      while i < |lists[CLASS_COUNT]|
        invariant lists == old(lists) && |lists| == CLASS_COUNT + 1 && i <= |lists[CLASS_COUNT]|
        invariant forall j :: 0 <= j < i ==> !Fits(blocks, lists[CLASS_COUNT][j], size, alignment)
      {
        var p := lists[CLASS_COUNT][i];
        IsListed(blocks, lists, CLASS_COUNT, i);
        AlignmentTest(p, alignment);
        if blocks[p].capacity >= size && And(p, alignment - 1) == 0 {
          FirstFitIs(blocks, lists[CLASS_COUNT], size, alignment, i);
          TakeOff(CLASS_COUNT, i);
          return Some(p);
        }
        i := i + 1;
      }
      FirstFitIs(blocks, lists[CLASS_COUNT], size, alignment, i);
      r := None;
    }

    /** Unlinks position i of list l. */
    method TakeOff(l: nat, i: nat)
      requires ListsOk(blocks, lists, {}) && l < |lists| && i < |lists[l]|
      modifies this`lists
      ensures lists == old(lists)[l := old(lists)[l][..i] + old(lists)[l][i + 1..]]
      ensures ListsOk(blocks, lists, {old(lists)[l][i]})
    {
      Unlisted(blocks, lists, l, i);
      lists := lists[l := lists[l][..i] + lists[l][i + 1..]];
    }

    // ---------- Allocation ----------

    /** Zeroes the first `size` bytes; the others are whatever was there. */
    method ClearedBytes(size: nat, capacity: nat) returns (data: seq<Byte>)
      requires size <= capacity
      ensures |data| == capacity && forall i :: 0 <= i < size ==> data[i] == 0
    {
      var rest := AnyBytes(capacity - size);
      data := seq(size, _ => 0) + rest;
    }

    /** Bytes nothing is promised about. */
    method AnyBytes(n: nat) returns (s: seq<Byte>)
      ensures |s| == n
    {
      s := seq(n, _ => 0);
    }

    /** Allocates.  `raw` is the range malloc would return if it were asked.  The block is new or recycled, has
        room for the request, is aligned, zeroed, in a new lifetime, and no other block changes. */
    method AllocAligned(request: nat, requestedAlignment: nat, raw: nat) returns (p: nat)
      requires Valid() && Allocations(log) + 1 < FREED
      requires var size := if request == 0 then 1 else request;
        FreshRange(blocks, raw, RawSize(size, RoundedAlignment(requestedAlignment)))
      modifies this
      ensures Valid() && Kept(old(blocks), blocks) && log == old(log) + [Allocated(p)]
      ensures p in blocks && p != 0 && (p in old(blocks) ==> old(blocks)[p].generation == FREED)
      ensures blocks == old(blocks)[p := blocks[p]]
      ensures var b := blocks[p]; var size := if request == 0 then 1 else request;
        b.allocSize == size <= b.capacity && b.generation != FREED && forall i :: 0 <= i < size ==> b.data[i] == 0
      ensures p % RoundedAlignment(requestedAlignment) == 0
      ensures var size := if request == 0 then 1 else request;
        |old(lists)| == CLASS_COUNT + 1 && RoundedAlignment(requestedAlignment) >= 1 &&
        var free := Candidate(old(blocks), old(lists), size, RoundedAlignment(requestedAlignment));
        && (if free.Some? then p == free.value else p !in old(blocks))
        && lists == ListsWithout(old(lists), size, free)
    {
      assert |lists| == CLASS_COUNT + 1;
      hide BlocksOk, ListsOk, GenerationsOk, Kept, Candidate, ListsWithout, SizeClass;
      var alignment := RoundAlignment(requestedAlignment);
      var size := if request == 0 then 1 else request;
      var recycled := FreelistPop(size, alignment);
      if recycled.Some? {
        p := recycled.value;
        Recycle(p, size);
      } else {
        p := Carve(size, alignment, raw);
      }
    }

    /** Gives a block that has just left its list a new lifetime. */
    method Recycle(p: nat, size: nat)
      requires BlocksOk(blocks) && ListsOk(blocks, lists, {p}) && GenerationsOk(blocks, epoch, log)
      requires Allocations(log) + 1 < FREED && p in blocks && blocks[p].generation == FREED
      requires 1 <= size <= blocks[p].capacity
      modifies this
      ensures Valid() && log == old(log) + [Allocated(p)] && lists == old(lists)
      ensures p != 0 && p in blocks && blocks == old(blocks)[p := blocks[p]] && Kept(old(blocks), blocks)
      ensures var b := blocks[p];
        b.allocSize == size <= b.capacity && b.generation != FREED && forall i :: 0 <= i < size ==> b.data[i] == 0
    {
      hide BlocksOk, ListsOk, GenerationsOk, BlockOk, Kept;
      var block := blocks[p];
      RecycleOk(blocks, p, block, size);
      UserAddressPositive(blocks, p);
      var data := ClearedBytes(size, block.capacity);
      block := block.(generation := epoch, allocSize := size, data := data);
      KeptOne(blocks, p, block);
      AllocationLogged(blocks, epoch, log, p, block);
      Revived(blocks, lists, p, block);
      SameRangeOk(blocks, p, block);
      blocks := blocks[p := block];
      log := log + [Allocated(p)];
      epoch := (epoch + 1) % WORD64;
    }

    /** Carves a new block out of the malloc range at raw. */
    method Carve(size: nat, alignment: nat, raw: nat) returns (p: nat)
      requires Valid() && Allocations(log) + 1 < FREED
      requires size >= 1 && IsPow2(alignment) && alignment >= MAX_ALIGN
      requires FreshRange(blocks, raw, RawSize(size, alignment))
      modifies this
      ensures Valid() && log == old(log) + [Allocated(p)] && lists == old(lists)
      ensures p != 0 && p !in old(blocks) && p in blocks && blocks == old(blocks)[p := blocks[p]]
      ensures Kept(old(blocks), blocks)
      ensures var b := blocks[p];
        b.allocSize == size <= b.capacity && b.generation != FREED && forall i :: 0 <= i < size ==> b.data[i] == 0
      ensures p % alignment == 0
    {
      hide BlocksOk, ListsOk, GenerationsOk, BlockOk, Kept, Pow2;
      var c := FindSizeClass(size);
      ClassFromIs(size, 0);
      CapacityForIs(size);
      var capacity := if c >= 0 then BlockSize(c) else size;
      p := AlignUp(raw + HEADER_SIZE, alignment);
      PlacementOk(raw, size, alignment);
      var data := ClearedBytes(size, capacity);
      var block := Block(epoch, size, capacity, raw, HEADER_SIZE + alignment - 1 + capacity, data);
      NewIsOk(raw, size, alignment, p, block);
      NewBlockOk(blocks, p, block);
      KeptOne(blocks, p, block);
      AllocationLogged(blocks, epoch, log, p, block);
      AddedLive(blocks, lists, p, block);
      blocks := blocks[p := block];
      log := log + [Allocated(p)];
      epoch := (epoch + 1) % WORD64;
    }

    // ---------- Free ----------

    /** Frees p; freeing a freed block is detected.  The block stays, is marked and goes to its list. */
    method Free(p: nat) returns (ok: bool)
      requires Valid() && (p == 0 || p in blocks)
      modifies this
      ensures Valid() && Kept(old(blocks), blocks)
      ensures p == 0 ==> ok && blocks == old(blocks) && lists == old(lists) && log == old(log)
      ensures p != 0 ==> ok == (old(blocks)[p].generation != FREED)
      ensures !ok ==> blocks == old(blocks) && lists == old(lists) && log == old(log)
      ensures p != 0 && ok ==>
        && log == old(log) + [Released(p)]
        && p in blocks && blocks == old(blocks)[p := blocks[p]] && blocks[p].generation == FREED
        && var l := ListIndex(blocks[p].capacity);
           l < |old(lists)| && lists == old(lists)[l := [p] + old(lists)[l]]
    {
      if p == 0 {
        return true;
      }
      var b := blocks[p];
      if b.generation == FREED {
        return false;
      }
      assert |lists| == CLASS_COUNT + 1;
      Quarantine(p);
      ok := true;
    }

    /** Marks a live block freed and pushes it on the list of its capacity; the list link overwrites its first
        bytes. */
    method Quarantine(p: nat)
      requires Valid() && p in blocks && blocks[p].generation != FREED
      modifies this
      ensures Valid() && Kept(old(blocks), blocks) && log == old(log) + [Released(p)]
      ensures p in blocks && blocks == old(blocks)[p := blocks[p]] && blocks[p].generation == FREED
      ensures blocks[p].capacity == old(blocks)[p].capacity
      ensures var l := ListIndex(blocks[p].capacity);
        l < |old(lists)| && lists == old(lists)[l := [p] + old(lists)[l]]
    {
      var b := blocks[p];
      BlockIsOk(blocks, p);
      ListIndexIs(b.capacity);
      assert |lists| == CLASS_COUNT + 1;
      hide GenerationsOk, BlocksOk, ListsOk, ClassFrom, Carved, SizeClass, ListIndex, BlockOk, Kept;
      var link := AnyBytes(8);
      var data := if b.capacity >= 8 then link + b.data[8..] else b.data;
      var dead := b.(generation := FREED, data := data);
      KeptOne(blocks, p, dead);
      FreeKeeps(blocks, lists, epoch, log, p, dead);
      var c := FindSizeClass(b.capacity);
      var l := if c >= 0 then c else CLASS_COUNT;
      lists := lists[l := [p] + lists[l]];
      blocks := blocks[p := dead];
      log := log + [Released(p)];
    }

    /** A store through a live pointer. */
    method WriteBytes(p: nat, offset: nat, bytes: seq<Byte>)
      requires Valid() && p in blocks && offset + |bytes| <= blocks[p].capacity == |blocks[p].data|
      modifies this`blocks
      ensures Valid() && Kept(old(blocks), blocks)
      ensures blocks == old(blocks)[p := old(blocks)[p].(data := Stored(old(blocks)[p].data, offset, bytes))]
    {
      var b := blocks[p].(data := Stored(blocks[p].data, offset, bytes));
      StoreKeeps(blocks, lists, epoch, log, p, b);
      blocks := blocks[p := b];
    }

    // ---------- References ----------

    /** Captures the current generation. */
    method RefCreate(p: nat) returns (r: GenRef)
      requires Valid() && (p == 0 || p in blocks)
      ensures r == Captured(log, p)
    {
      r := GenRef(p, if p == 0 then 0 else blocks[p].generation);
    }

    /** run_gen_check */
    function Check(p: nat, expected: nat): Deref
      requires p == 0 || p in blocks
      reads this
    {
      if p == 0 then AbortNull
      else if blocks[p].generation == FREED then AbortFreed
      else if blocks[p].generation != expected then AbortMismatch
      else Access(p)
    }

    /** run_gen_ref_deref */
    function Dereference(r: GenRef): Deref
      requires r.ptr == 0 || r.generation == 0 || r.ptr in blocks
      reads this
    {
      if r.ptr == 0 then AbortNull
      else if r.generation == 0 then Access(r.ptr)
      else Check(r.ptr, r.generation)
    }

    /** What a dereference finds, told by the history: a null reference always aborts; a stack reference, which is
        one with generation 0, is never checked; and a captured one never has generation 0, aborts as freed when its
        address is in no lifetime now, as a mismatch when it is in another one, and gives access in its own. */
    lemma DereferenceIs(r: GenRef, p: nat, n: nat)
      requires Valid() && (p == 0 || p in blocks) && n <= |log| && r == Captured(log[..n], p)
      ensures forall g :: Dereference(GenRef(0, g)) == AbortNull
      ensures forall q: nat :: q != 0 ==> Dereference(GenRef(q, 0)) == Access(q)
      ensures p != 0 ==> r.generation != 0
      ensures var now := LifetimeAt(log, p);
        Dereference(r) ==
          if p == 0 then AbortNull
          else if now == None then AbortFreed
          else if now == LifetimeAt(log[..n], p) then Access(p) else AbortMismatch
    {
      if p != 0 {
        GenerationIdentifiesLifetime(log, p, n);
        GenerationIdentifiesLifetime(log, p, |log|);
        assert log[..|log|] == log;
        if LifetimeAt(log[..n], p).Some? { LifetimeEnds(log, p, n); }
        if LifetimeAt(log, p).Some? { GenerationOfLifetime(log, p, |log|); }
      }
      hide LifetimeAt, Allocations, BlocksOk, ListsOk;
    }

    /** Temporal safety: a reference captured when the history was its first n events can be dereferenced now
        exactly when its address was in a lifetime then and has not been released since, no matter how often
        the address has been recycled; a reference captured from a freed block never can. */
    lemma TemporalSafety(r: GenRef, p: nat, n: nat)
      requires Valid() && p in blocks && p != 0 && n <= |log| && r == Captured(log[..n], p)
      ensures r.generation != 0
      ensures Dereference(r) == Access(p)
        <==> LifetimeAt(log[..n], p).Some? && forall i :: n <= i < |log| ==> log[i] != Released(p)
    {
      GenerationIdentifiesLifetime(log, p, n);
    }

    /** Freeing an address again, after its n-th event released it and no later one did, is detected exactly when
        it has not been handed out again since; otherwise the free ends the new owner's lifetime. */
    lemma DoubleFreeDetected(p: nat, n: nat)
      requires Valid() && p in blocks && n < |log| && log[n] == Released(p)
      requires forall i :: n < i < |log| ==> log[i] != Released(p)
      ensures blocks[p].generation == FREED <==> forall i :: n < i < |log| ==> log[i] != Allocated(p)
    {
      FreedMeansOver(log, p);
      LifetimeAfterRelease(log, p, n);
    }
  }

  /** The bytes after a store at `offset`. */
  function Stored(data: seq<Byte>, offset: nat, bytes: seq<Byte>): (r: seq<Byte>)
    requires offset + |bytes| <= |data|
    ensures |r| == |data|
  {
    data[..offset] + bytes + data[offset + |bytes|..]
  }

  lemma StoreKeeps(blocks: Blocks, lists: seq<seq<nat>>, epoch: nat, log: Log, p: nat, b: Block)
    requires BlocksOk(blocks) && ListsOk(blocks, lists, {}) && GenerationsOk(blocks, epoch, log)
    requires p in blocks && |b.data| == |blocks[p].data| && b == blocks[p].(data := b.data)
    ensures var c := blocks[p := b]; BlocksOk(c) && ListsOk(c, lists, {}) && GenerationsOk(c, epoch, log)
  {
    var c := blocks[p := b];
    assert BlockOk(p, blocks[p]);
    SameRangeOk(blocks, p, b);
    forall l, i | 0 <= l < |lists| && 0 <= i < |lists[l]| ensures ListedOk(c, lists[l][i], l) {
      assert ListedOk(blocks, lists[l][i], l);
    }
    hide GenerationAt, LifetimeAt, BlocksOk;
  }

  lemma ListIndexIs(capacity: nat)
    ensures ListIndex(capacity) == if SizeClass(capacity) >= 0 then SizeClass(capacity) else CLASS_COUNT
  {
  }

  lemma FreeKeeps(blocks: Blocks, lists: seq<seq<nat>>, epoch: nat, log: Log, p: nat, b: Block)
    requires BlocksOk(blocks) && ListsOk(blocks, lists, {}) && GenerationsOk(blocks, epoch, log)
    requires p in blocks && blocks[p].generation != FREED && |b.data| == |blocks[p].data|
    requires b == blocks[p].(generation := FREED, data := b.data)
    ensures var c := blocks[p := b]; var l := ListIndex(b.capacity);
      BlocksOk(c) && ListsOk(c, lists[l := [p] + lists[l]], {}) && GenerationsOk(c, epoch, log + [Released(p)])
  {
    BlockIsOk(blocks, p);
    ReleaseLogged(blocks, epoch, log, p, b);
    Relisted(blocks, lists, p, b);
    SameRangeOk(blocks, p, b);
  }

  // ---------- Helpers ----------

  lemma PowersOfTwo()
    ensures Pow2(0) == 1 && Pow2(4) == 16
  {
  }

  lemma Pow2Next(k: nat)
    ensures Pow2(k + 1) == 2 * Pow2(k)
  {
  }

  /** What PopClass decides at the head of its list. */
  lemma HeadOfClass(blocks: Blocks, lists: seq<seq<nat>>, size: nat, alignment: nat)
    requires BlocksOk(blocks) && ListsOk(blocks, lists, {})
    requires IsPow2(alignment) && alignment >= 1 && SizeClass(size) >= 0
    ensures |lists| == CLASS_COUNT + 1 && SizeClass(size) < CLASS_COUNT
    ensures var list := lists[SizeClass(size)];
      if list == [] || And(list[0], alignment - 1) != 0 then
        Candidate(blocks, lists, size, alignment) == None && ListsWithout(lists, size, None) == lists
      else
        && list[0] in blocks && blocks[list[0]].generation == FREED && blocks[list[0]].capacity >= size
        && list[0] % alignment == 0 && Candidate(blocks, lists, size, alignment) == Some(list[0])
        && ListsWithout(lists, size, Some(list[0])) == lists[SizeClass(size) := list[..0] + list[1..]]
  {
    ClassCandidate(blocks, lists, size, alignment);
    var c := SizeClass(size);
    hide SizeClass, Candidate, And;
    if lists[c] != [] {
      ListedFits(blocks, lists, c, 0, size);
      AlignmentTest(lists[c][0], alignment);
    }
    hide BlocksOk, ListsOk, IsPow2;
  }

  /** A block on the list of size's class holds `size` bytes. */
  lemma ListedFits(blocks: Blocks, lists: seq<seq<nat>>, c: nat, i: nat, size: nat)
    requires BlocksOk(blocks) && ListsOk(blocks, lists, {}) && c < CLASS_COUNT && i < |lists[c]|
    requires SizeClass(size) == c
    ensures lists[c][i] in blocks && blocks[lists[c][i]].generation == FREED
    ensures blocks[lists[c][i]].capacity == BlockSize(c) >= size
  {
    var p := lists[c][i];
    assert ListedOk(blocks, p, c);
    assert BlockOk(p, blocks[p]);
    ClassFromIs(size, 0);
  }

  lemma IsListed(blocks: Blocks, lists: seq<seq<nat>>, l: nat, i: nat)
    requires ListsOk(blocks, lists, {}) && l < |lists| && i < |lists[l]|
    ensures ListedOk(blocks, lists[l][i], l)
  {
  }

  /** (p & (alignment - 1)) == 0 tests divisibility. */
  lemma AlignmentTest(p: nat, alignment: nat)
    requires IsPow2(alignment)
    ensures alignment >= 1 && And(p, alignment - 1) == p % alignment
  {
    var k: nat :| alignment == Pow2(k);
    MaskIsMod(p, k);
  }

  lemma BlockIsOk(blocks: Blocks, p: nat)
    requires BlocksOk(blocks) && p in blocks
    ensures BlockOk(p, blocks[p])
  {
  }

  lemma UserAddressPositive(blocks: Blocks, p: nat)
    requires BlocksOk(blocks) && p in blocks
    ensures p >= HEADER_SIZE
  {
    assert BlockOk(p, blocks[p]);
  }

  /** A recycled block stays well placed when its request size and bytes are rewritten. */
  lemma RecycleOk(blocks: Blocks, p: nat, b: Block, size: nat)
    requires BlocksOk(blocks) && p in blocks && b == blocks[p] && 1 <= size <= b.capacity
    ensures |b.data| == b.capacity
    ensures forall c: Block ::
      |c.data| == b.capacity && c == b.(generation := c.generation, allocSize := size, data := c.data) ==>
      BlockOk(p, c)
  {
    assert BlockOk(p, b);
  }

  lemma NewIsOk(raw: nat, size: nat, alignment: nat, p: nat, b: Block)
    requires size >= 1 && IsPow2(alignment) && alignment >= MAX_ALIGN && p == UserAddress(raw, alignment)
    requires b.allocSize == size && b.capacity == CapacityFor(size) == |b.data|
    requires b.base == raw && b.rawSize == RawSize(size, alignment)
    ensures BlockOk(p, b)
  {
    PlacementOk(raw, size, alignment);
    CapacityForIs(size);
  }
}
