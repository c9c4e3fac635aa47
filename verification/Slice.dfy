/** Growable slices on the generational heap.  A header is a value that remembers the generation of its backing
    array; every access checks it. */
module Slices {
  import opened Lifetimes
  import opened HeapModel
  import opened Heap

  datatype Slice = Slice(ptr: nat, generation: nat, len: nat, cap: nat, elemSize: nat)

  datatype Access = Elem(bytes: seq<Byte>) | AbortStale | AbortBounds

  /** The header's pointer and counts fit its block; true of every copy ever made of a header (`StaysShaped`). */
  predicate Shaped(blocks: Blocks, s: Slice) {
    && s.len <= s.cap
    && (s.ptr == 0 ==> s.cap == 0)
    && (s.ptr != 0 ==>
         s.cap > 0 && s.ptr in blocks && s.cap * s.elemSize <= blocks[s.ptr].capacity == |blocks[s.ptr].data|)
  }

  /** run_slice_check passes. */
  predicate Current(blocks: Blocks, s: Slice)
    requires s.ptr == 0 || s.ptr in blocks
  {
    s.ptr == 0 || (blocks[s.ptr].generation != FREED && blocks[s.ptr].generation == s.generation)
  }

  /** Every operation of the heap and of slices keeps all blocks, so a header that once fitted its block, a stale
      copy included, fits it for ever. */
  lemma StaysShaped(was: Blocks, now: Blocks, s: Slice)
    requires Shaped(was, s) && Kept(was, now)
    ensures Shaped(now, s)
  {
  }

  lemma KeptIsTransitive(a: Blocks, b: Blocks, c: Blocks)
    requires Kept(a, b) && Kept(b, c)
    ensures Kept(a, c)
  {
  }

  lemma ElemFits(i: nat, n: nat, size: nat)
    requires i < n
    ensures i * size + size <= n * size
  {
    assert (n - i - 1) * size >= 0;
    assert n * size == i * size + size + (n - i - 1) * size;
  }

  /** The i-th element's bytes. */
  function ElemAt(data: seq<Byte>, size: nat, i: nat): seq<Byte>
    requires i * size + size <= |data|
  {
    data[i * size..i * size + size]
  }

  /** The elements of a header, as a sequence. */
  function Elems(data: seq<Byte>, size: nat, len: nat): (r: seq<seq<Byte>>)
    requires len * size <= |data|
    ensures |r| == len
    ensures forall i :: 0 <= i < len ==> i * size + size <= |data| && r[i] == ElemAt(data, size, i)
  {
    if len == 0 then []
    else
      ElemFits(len - 1, len, size);
      Elems(data, size, len - 1) + [ElemAt(data, size, len - 1)]
  }

  function Contents(blocks: Blocks, s: Slice): (r: seq<seq<Byte>>)
    requires Shaped(blocks, s)
    ensures |r| == s.len
  {
    if s.ptr == 0 then [] else
      ShapeBound(s.len, s.cap, s.elemSize);
      Elems(blocks[s.ptr].data, s.elemSize, s.len)
  }

  lemma ShapeBound(len: nat, cap: nat, size: nat)
    requires len <= cap
    ensures len * size <= cap * size
  {
    assert cap * size == len * size + (cap - len) * size;
  }

  /** Elements depend only on the bytes below len * size. */
  lemma {:induction false} ElemsFrame(data: seq<Byte>, data': seq<Byte>, size: nat, len: nat)
    requires len * size <= |data| && len * size <= |data'| && data[..len * size] == data'[..len * size]
    ensures Elems(data, size, len) == Elems(data', size, len)
  {
    forall i | 0 <= i < len ensures Elems(data, size, len)[i] == Elems(data', size, len)[i] {
      ElemFits(i, len, size);
      PrefixPart(data, len * size, i * size, i * size + size);
      PrefixPart(data', len * size, i * size, i * size + size);
    }
  }

  lemma PrefixPart(data: seq<Byte>, n: nat, from: nat, to: nat)
    requires from <= to <= n <= |data|
    ensures data[..n][from..to] == data[from..to]
  {
  }

  /** Storing one element at the end appends it. */
  lemma ElemsAppend(data: seq<Byte>, size: nat, len: nat, elem: seq<Byte>)
    requires |elem| == size && len * size + size <= |data|
    ensures (len + 1) * size == len * size + size
    ensures Elems(Stored(data, len * size, elem), size, len + 1) == Elems(data, size, len) + [elem]
  {
    var data' := Stored(data, len * size, elem);
    assert data'[..len * size] == data[..len * size];
    ElemsFrame(data, data', size, len);
    assert ElemAt(data', size, len) == elem;
  }

  function NewCap(cap: nat): nat { if cap == 0 then 4 else cap * 2 }

  /** What a growing append asks malloc for. */
  function GrowRawSize(elemSize: nat, newCap: nat): nat {
    RawSize(if elemSize * newCap == 0 then 1 else elemSize * newCap, RoundedAlignment(MAX_ALIGN))
  }

  method New(h: Allocator, elemSize: nat, initialCap: nat, raw: nat) returns (s: Slice)
    requires h.Valid() && (initialCap > 0 ==> Allocations(h.log) + 1 < FREED)
    requires FreshRange(h.blocks, raw, GrowRawSize(elemSize, initialCap))
    modifies h
    ensures h.Valid() && Kept(old(h.blocks), h.blocks)
    ensures Shaped(h.blocks, s) && Current(h.blocks, s) && Contents(h.blocks, s) == []
    ensures s.elemSize == elemSize && s.cap == initialCap && s.len == 0
    ensures h.log == old(h.log) + if initialCap > 0 then [Allocated(s.ptr)] else []
  {
    var ptr := 0;
    var generation := 0;
    if initialCap > 0 {
      ptr := h.AllocAligned(elemSize * initialCap, MAX_ALIGN, raw);
      generation := h.blocks[ptr].generation;
      DataLength(h.blocks, ptr);
      assert elemSize * initialCap == initialCap * elemSize;
    }
    s := Slice(ptr, generation, 0, initialCap, elemSize);
  }

  lemma DataLength(blocks: Blocks, p: nat)
    requires BlocksOk(blocks) && p in blocks
    ensures blocks[p].capacity == |blocks[p].data|
  {
    assert BlockOk(p, blocks[p]);
  }

  /** Moves the elements to a larger block and frees the old one. */
  method Grow(h: Allocator, s: Slice, raw: nat) returns (t: Slice)
    requires h.Valid() && Allocations(h.log) + 1 < FREED && Shaped(h.blocks, s) && Current(h.blocks, s)
    requires s.len == s.cap && FreshRange(h.blocks, raw, GrowRawSize(s.elemSize, NewCap(s.cap)))
    modifies h
    ensures h.Valid() && Kept(old(h.blocks), h.blocks) && Shaped(h.blocks, t) && Current(h.blocks, t) && t.ptr != 0
    ensures t.len == s.len && t.cap == NewCap(s.cap) && t.elemSize == s.elemSize
    ensures Contents(h.blocks, t) == Contents(old(h.blocks), s)
    ensures h.log == old(h.log) + ([Allocated(t.ptr)] + if s.ptr != 0 then [Released(s.ptr)] else [])
  {
    hide BlocksOk, ListsOk, GenerationsOk, Contents, Kept;
    var newCap := NewCap(s.cap);
    var newPtr := h.AllocAligned(s.elemSize * newCap, MAX_ALIGN, raw);
    DataLength(h.blocks, newPtr);
    assert s.elemSize * newCap == newCap * s.elemSize;
    t := Slice(newPtr, h.blocks[newPtr].generation, s.len, newCap, s.elemSize);
    ShapeBound(s.len, s.cap, s.elemSize);
    ShapeBound(s.cap, newCap, s.elemSize);
    if s.ptr != 0 {
      SameContents(old(h.blocks), h.blocks, s);
      ghost var before := h.blocks;
      MoveElements(h, s, t);
      KeptIsTransitive(old(h.blocks), before, h.blocks);
    } else {
      EmptyContents(old(h.blocks), h.blocks, s, t);
    }
  }

  /** Copies the elements of s to the array of t, and frees the array of s. */
  method MoveElements(h: Allocator, s: Slice, t: Slice)
    requires h.Valid() && Shaped(h.blocks, s) && Current(h.blocks, s) && Shaped(h.blocks, t) && Current(h.blocks, t)
    requires s.ptr != 0 && t.ptr != 0 && s.ptr != t.ptr && s.len == t.len && s.elemSize == t.elemSize && s.cap <= t.cap
    modifies h
    ensures h.Valid() && Kept(old(h.blocks), h.blocks) && Shaped(h.blocks, t) && Current(h.blocks, t)
    ensures Contents(h.blocks, t) == Contents(old(h.blocks), s) && h.log == old(h.log) + [Released(s.ptr)]
  {
    hide BlocksOk, ListsOk, GenerationsOk, Contents, Kept;
    ShapeBound(s.len, s.cap, s.elemSize);
    ShapeBound(s.cap, t.cap, s.elemSize);
    var bytes := h.blocks[s.ptr].data[..s.elemSize * s.len];
    assert s.elemSize * s.len == s.len * s.elemSize;
    h.WriteBytes(t.ptr, 0, bytes);
    CopiedContents(old(h.blocks), h.blocks, s, t, bytes);
    ghost var before := h.blocks;
    var ok := h.Free(s.ptr);
    SameContents(before, h.blocks, t);
    KeptIsTransitive(old(h.blocks), before, h.blocks);
  }

  lemma CopiedContents(was: Blocks, now: Blocks, s: Slice, t: Slice, bytes: seq<Byte>)
    requires Shaped(was, s) && Shaped(now, t) && s.ptr != 0 && t.ptr != 0 && s.len == t.len && s.elemSize == t.elemSize
    requires s.len * s.elemSize <= |was[s.ptr].data| && bytes == was[s.ptr].data[..s.len * s.elemSize]
    requires |bytes| <= |now[t.ptr].data| && now[t.ptr].data[..|bytes|] == bytes
    ensures Contents(now, t) == Contents(was, s)
  {
    ElemsFrame(was[s.ptr].data, now[t.ptr].data, s.elemSize, s.len);
  }

  lemma SameContents(was: Blocks, now: Blocks, t: Slice)
    requires Shaped(was, t) && (t.ptr != 0 ==> t.ptr in now && now[t.ptr] == was[t.ptr])
    ensures Shaped(now, t) && Contents(now, t) == Contents(was, t) && Current(now, t) == Current(was, t)
  {
  }

  lemma EmptyContents(was: Blocks, now: Blocks, s: Slice, t: Slice)
    requires Shaped(was, s) && Shaped(now, t) && s.len == 0 && t.len == 0
    ensures Contents(now, t) == Contents(was, s) == []
  {
  }

  /** Appends.  A stale header is detected; otherwise the element sequence gains exactly elem, and a growing
      append releases the old backing array. */
  method Append(h: Allocator, s: Slice, elem: seq<Byte>, raw: nat) returns (ok: bool, t: Slice, ghost copied: nat)
    requires h.Valid() && Allocations(h.log) + 1 < FREED && Shaped(h.blocks, s) && |elem| == s.elemSize
    requires FreshRange(h.blocks, raw, GrowRawSize(s.elemSize, NewCap(s.cap)))
    modifies h
    ensures h.Valid() && Kept(old(h.blocks), h.blocks) && ok == Current(old(h.blocks), s)
    ensures !ok ==> t == s && h.blocks == old(h.blocks) && h.log == old(h.log)
    ensures ok ==> Shaped(h.blocks, t) && Current(h.blocks, t)
    ensures ok ==> Contents(h.blocks, t) == Contents(old(h.blocks), s) + [elem]
    ensures ok ==> t.len == s.len + 1 && t.elemSize == s.elemSize && t.cap == Grown(s.len, s.cap)
    ensures ok ==> copied == Copies(s.len, s.cap)
    ensures ok && s.len < s.cap ==> h.log == old(h.log)
    ensures ok && s.len == s.cap ==>
      h.log == old(h.log) + ([Allocated(t.ptr)] + if s.ptr != 0 then [Released(s.ptr)] else [])
  {
    t := s;
    copied := 0;
    assert s.len <= s.cap;
    hide Shaped, Current;
    ok := HeaderCheck(h, s);
    if !ok {
      return;
    }
    hide BlocksOk, ListsOk, GenerationsOk, Contents, GrowRawSize, FreshRange, LifetimeAt, Allocations;
    if s.len == s.cap {
      t := Grow(h, s, raw);
      copied := s.len;
    }
    t := AppendInPlace(h, t, elem);
  }

  /** run_slice_check */
  method HeaderCheck(h: Allocator, s: Slice) returns (ok: bool)
    requires Shaped(h.blocks, s)
    ensures ok == Current(h.blocks, s)
  {
    ok := s.ptr == 0 || h.Check(s.ptr, s.generation) == Heap.Access(s.ptr);
  }

  /** Stores one element behind the last when there is room. */
  method AppendInPlace(h: Allocator, s: Slice, elem: seq<Byte>) returns (t: Slice)
    requires h.Valid() && Shaped(h.blocks, s) && Current(h.blocks, s) && s.len < s.cap && |elem| == s.elemSize
    modifies h`blocks
    ensures h.Valid() && Kept(old(h.blocks), h.blocks)
    ensures Shaped(h.blocks, t) && Current(h.blocks, t) && t == s.(len := s.len + 1)
    ensures Contents(h.blocks, t) == Contents(old(h.blocks), s) + [elem]
  {
    hide BlocksOk, ListsOk, GenerationsOk, Elems;
    ElemFits(s.len, s.cap, s.elemSize);
    ElemsAppend(h.blocks[s.ptr].data, s.elemSize, s.len, elem);
    h.WriteBytes(s.ptr, s.len * s.elemSize, elem);
    t := s.(len := s.len + 1);
  }

  lemma ContentsAt(blocks: Blocks, s: Slice, i: nat, at: nat)
    requires Shaped(blocks, s) && i < s.len && at == i * s.elemSize
    ensures i < |Contents(blocks, s)| && at + s.elemSize <= |blocks[s.ptr].data|
    ensures Contents(blocks, s)[i] == blocks[s.ptr].data[at..at + s.elemSize]
  {
    ShapeBound(s.len, s.cap, s.elemSize);
    ElemFits(i, s.len, s.elemSize);
    assert Contents(blocks, s)[i] == ElemAt(blocks[s.ptr].data, s.elemSize, i);
  }

  /** Reads one element: the staleness check comes first, then the bounds check. */
  method Get(h: Allocator, s: Slice, index: nat) returns (r: Access)
    requires h.Valid() && Shaped(h.blocks, s)
    ensures r == if !Current(h.blocks, s) then AbortStale
                 else if index >= s.len then AbortBounds
                 else Elem(Contents(h.blocks, s)[index])
  {
    hide Contents, BlocksOk, ListsOk, GenerationsOk;
    var ok := HeaderCheck(h, s);
    if !ok {
      return AbortStale;
    }
    if index >= s.len {
      return AbortBounds;
    }
    r := ElemAtOffset(h, s, index, index * s.elemSize);
  }

  method ElemAtOffset(h: Allocator, s: Slice, index: nat, offset: nat) returns (r: Access)
    requires h.Valid() && Shaped(h.blocks, s) && index < s.len && offset == index * s.elemSize
    ensures index < |Contents(h.blocks, s)| && r == Elem(Contents(h.blocks, s)[index])
  {
    ContentsAt(h.blocks, s, index, offset);
    hide Contents;
    r := Elem(h.blocks[s.ptr].data[offset..offset + s.elemSize]);
  }

  /** Frees the backing array and empties the header. */
  method Free(h: Allocator, s: Slice) returns (ok: bool, t: Slice)
    requires h.Valid() && Shaped(h.blocks, s)
    modifies h
    ensures h.Valid() && Kept(old(h.blocks), h.blocks) && ok == Current(old(h.blocks), s)
    ensures ok ==> t == Slice(0, 0, 0, 0, s.elemSize)
    ensures h.log == old(h.log) + if ok && s.ptr != 0 then [Released(s.ptr)] else []
  {
    if s.ptr != 0 {
      ok := HeaderCheck(h, s);
      if !ok {
        return false, s;
      }
      var freed := h.Free(s.ptr);
    }
    return true, Slice(0, 0, 0, 0, s.elemSize);
  }

  /** Once the array a header was made for has been released, by a growing append or by free, every later check
      of a copy of that header fails, however the address is reused. */
  lemma StaleHeaderFails(h: Allocator, s: Slice, n: nat)
    requires h.Valid() && s.ptr != 0 && s.ptr in h.blocks && n <= |h.log|
    requires s.generation == GenerationAt(h.log[..n], s.ptr)
    requires exists i :: n <= i < |h.log| && h.log[i] == Released(s.ptr)
    ensures !Current(h.blocks, s)
  {
    h.TemporalSafety(Captured(h.log[..n], s.ptr), s.ptr, n);
  }

  // ---------- Amortised cost ----------

  /** The capacity after an append at (len, cap), and the elements it copies. */
  function Grown(len: nat, cap: nat): nat { if len < cap then cap else NewCap(cap) }

  function Copies(len: nat, cap: nat): nat { if len < cap then 0 else len }

  /** Capacity and total copies after n appends to an empty slice of capacity 0. */
  function AfterAppends(n: nat): (nat, nat) {
    if n == 0 then (0, 0)
    else
      var (cap, copied) := AfterAppends(n - 1);
      (Grown(n - 1, cap), copied + Copies(n - 1, cap))
  }

  lemma {:induction false} CapacityAndCopies(n: nat)
    requires n >= 1
    ensures var (cap, copied) := AfterAppends(n); n <= cap && copied == cap - 4 && (cap == 4 || cap <= 2 * (n - 1))
  {
    if n > 1 { CapacityAndCopies(n - 1); }
  }

  /** n appends from capacity 0 copy fewer than 2n elements in total. */
  lemma AmortisedCopies(n: nat)
    requires n >= 1
    ensures AfterAppends(n).1 < 2 * n
  {
    CapacityAndCopies(n);
  }

  /** A malloc on unbounded memory: the range behind all blocks. */
  method AnyFreshRange(blocks: Blocks) returns (raw: nat)
    ensures forall n: nat :: FreshRange(blocks, raw, n)
  {
    raw := 0;
    var rest := blocks.Keys;
    while rest != {}
      invariant rest <= blocks.Keys
      invariant forall p :: p in blocks && p !in rest ==> blocks[p].base + blocks[p].rawSize <= raw
      decreases |rest|
    {
      var p :| p in rest;
      if blocks[p].base + blocks[p].rawSize > raw {
        raw := blocks[p].base + blocks[p].rawSize;
      }
      rest := rest - {p};
    }
  }

  /** An append writes at most one allocation to the log. */
  lemma AllocationsOfAppend(log: Log, p: nat, q: nat)
    ensures Allocations(log + ([Allocated(p)] + [Released(q)])) == Allocations(log) + 1
    ensures Allocations(log + ([Allocated(p)] + [])) == Allocations(log) + 1
  {
    assert log + ([Allocated(p)] + [Released(q)]) == log + [Allocated(p)] + [Released(q)];
    assert log + ([Allocated(p)] + []) == log + [Allocated(p)];
    LogStep(log, Allocated(p), p);
    LogStep(log + [Allocated(p)], Released(q), q);
  }

  /** Appends elems one by one to a new slice of capacity 0: it then holds them in order, and fewer than twice as
      many elements were copied on the way. */
  method AppendAll(h: Allocator, elemSize: nat, elems: seq<seq<Byte>>) returns (s: Slice, ghost copied: nat)
    requires h.Valid() && Allocations(h.log) + |elems| < FREED
    requires forall i :: 0 <= i < |elems| ==> |elems[i]| == elemSize
    modifies h
    ensures h.Valid() && Shaped(h.blocks, s) && Current(h.blocks, s) && Contents(h.blocks, s) == elems
    ensures s.len == |elems| && (s.cap, copied) == AfterAppends(|elems|)
    ensures elems != [] ==> copied < 2 * |elems|
  {
    hide FreshRange, Current, Contents, GrowRawSize, Allocations, BlocksOk, ListsOk, GenerationsOk;
    var raw := AnyFreshRange(h.blocks);
    s := New(h, elemSize, 0, raw);
    assert h.log == old(h.log);
    copied := 0;
    var i := 0;
    while i < |elems|
      invariant 0 <= i <= |elems| && h.Valid() && Shaped(h.blocks, s) && Current(h.blocks, s)
      invariant Contents(h.blocks, s) == elems[..i] && s.len == i && s.elemSize == elemSize
      invariant (s.cap, copied) == AfterAppends(i) && Allocations(h.log) <= old(Allocations(h.log)) + i
    {
      raw := AnyFreshRange(h.blocks);
      s, copied := AppendOne(h, s, elems[i], raw, copied);
      assert elems[..i + 1] == elems[..i] + [elems[i]];
      i := i + 1;
    }
    assert elems[..i] == elems;
    if elems != [] { AmortisedCopies(|elems|); }
  }

  method AppendOne(h: Allocator, s: Slice, elem: seq<Byte>, raw: nat, ghost before: nat)
      returns (t: Slice, ghost copied: nat)
    requires h.Valid() && Allocations(h.log) + 1 < FREED && Shaped(h.blocks, s) && Current(h.blocks, s)
    requires |elem| == s.elemSize && FreshRange(h.blocks, raw, GrowRawSize(s.elemSize, NewCap(s.cap)))
    modifies h
    ensures h.Valid() && Shaped(h.blocks, t) && Current(h.blocks, t)
    ensures Contents(h.blocks, t) == Contents(old(h.blocks), s) + [elem]
    ensures t.len == s.len + 1 && t.elemSize == s.elemSize && t.cap == Grown(s.len, s.cap)
    ensures copied == before + Copies(s.len, s.cap) && Allocations(h.log) <= old(Allocations(h.log)) + 1
  {
    assert s.len <= s.cap;
    hide FreshRange, Shaped, Current, Contents, GrowRawSize, Allocations, BlocksOk, ListsOk, GenerationsOk;
    var ok: bool;
    ghost var moved: nat;
    ok, t, moved := Append(h, s, elem, raw);
    copied := before + moved;
    AllocationsOfAppend(old(h.log), t.ptr, s.ptr);
  }
}
