/** Allocation histories.  A log of what was allocated and freed, which lifetime of an address is current, and
    what the generation counter makes of it.  Nothing here mentions headers or free lists. */
module Lifetimes {
  import opened Options

  /** UINT64_MAX, the generation of a freed block. */
  const FREED := 0xFFFF_FFFF_FFFF_FFFF
  const WORD64 := 0x1_0000_0000_0000_0000

  datatype Event = Allocated(p: nat) | Released(p: nat)

  type Log = seq<Event>

  /** The lifetime that address p is in: the position of the allocation that began it. */
  function LifetimeAt(log: Log, p: nat): (r: Option<nat>)
    ensures r.Some? ==> r.value < |log|
  {
    if log == [] then None
    else match log[|log| - 1] {
      case Allocated(q) => if q == p then Some((|log| - 1) as nat) else LifetimeAt(log[..|log| - 1], p)
      case Released(q) => if q == p then None else LifetimeAt(log[..|log| - 1], p)
    }
  }

  /** An address is allocated only when it is in no lifetime and released only when it is in one. */
  ghost predicate WellLogged(log: Log) {
    forall i :: 0 <= i < |log| ==> LoggedWell(log, i)
  }

  ghost predicate LoggedWell(log: Log, i: nat)
    requires i < |log|
  {
    LifetimeAt(log[..i], log[i].p).None? == log[i].Allocated?
  }

  /** The number of allocations in the log. */
  function Allocations(log: Log): nat {
    if log == [] then 0 else Allocations(log[..|log| - 1]) + if log[|log| - 1].Allocated? then 1 else 0
  }

  /** run_gen_epoch starts at 1 and wraps as a 64-bit word: the n-th allocation's generation. */
  function Generation(n: nat): nat
    requires n >= 1
  {
    n % WORD64
  }

  /** The generation found in p's header: that of the current lifetime, or the freed mark. */
  function GenerationAt(log: Log, p: nat): nat {
    match LifetimeAt(log, p)
    case None => FREED
    case Some(i) => Generation(Allocations(log[..i]) + 1)
  }

  /** Up to 2^64 - 2 allocations every generation is new, nonzero and not the freed mark, and no later one is. */
  lemma GenerationsGood(n: nat)
    requires n >= 1
    ensures (Generation(n) != 0 && Generation(n) != FREED && forall m :: 1 <= m < n ==> Generation(m) != Generation(n))
      <==> n <= WORD64 - 2
  {
    if n > WORD64 {
      assert Generation(n - WORD64) == Generation(n);
    }
  }

  lemma {:induction false} LifetimeShape(log: Log, p: nat)
    ensures var l := LifetimeAt(log, p);
      l.Some? ==> (log[l.value] == Allocated(p) && forall i :: l.value < i < |log| ==> log[i].p != p)
  {
    if log != [] && log[|log| - 1].p != p { LifetimeShape(log[..|log| - 1], p); }
  }

  /** After its last release an address is in a lifetime exactly when it has been allocated again. */
  lemma {:induction false} LifetimeAfterRelease(log: Log, p: nat, n: nat)
    requires n < |log| && log[n] == Released(p) && forall i :: n < i < |log| ==> log[i] != Released(p)
    ensures LifetimeAt(log, p) == None <==> forall i :: n < i < |log| ==> log[i] != Allocated(p)
  {
    if n < |log| - 1 { LifetimeAfterRelease(log[..|log| - 1], p, n); }
  }

  /** A lifetime is over exactly when its address has been released since. */
  lemma {:induction false} LifetimeEnds(log: Log, p: nat, n: nat)
    requires WellLogged(log) && n <= |log| && LifetimeAt(log[..n], p).Some?
    ensures LifetimeAt(log, p) == LifetimeAt(log[..n], p) <==> forall i :: n <= i < |log| ==> log[i] != Released(p)
  {
    if n == |log| {
      assert log[..n] == log;
    } else {
      var m := |log| - 1;
      var before := log[..m];
      assert WellLogged(before) by {
        forall i | 0 <= i < m ensures LoggedWell(before, i) {
          assert LoggedWell(log, i);
          assert before[..i] == log[..i];
        }
      }
      assert before[..n] == log[..n];
      LifetimeEnds(before, p, n);
      LifetimeShape(log[..n], p);
      LifetimeShape(before, p);
      assert LoggedWell(log, m);
      if log[m].p == p {
        if log[m].Allocated? {
          assert LifetimeAt(before, p) == None;
          assert exists i :: n <= i < m && before[i] == Released(p);
        }
      }
    }
  }

  lemma {:induction false} AllocationsGrow(log: Log, i: nat, j: nat)
    requires i <= j <= |log|
    ensures Allocations(log[..i]) <= Allocations(log[..j]) <= Allocations(log)
    ensures i < j && log[i].Allocated? ==> Allocations(log[..i]) < Allocations(log[..j])
  {
    if j < |log| {
      var before := log[..|log| - 1];
      assert before[..i] == log[..i] && before[..j] == log[..j];
      AllocationsGrow(before, i, j);
    } else {
      assert log[..j] == log;
      if i < j {
        var before := log[..|log| - 1];
        assert before[..i] == log[..i] && before[..j - 1] == before;
        AllocationsGrow(before, i, j - 1);
      }
    }
  }

  /** A current lifetime's generation is its allocation's ordinal number. */
  lemma GenerationOfLifetime(log: Log, p: nat, n: nat)
    requires n <= |log| && Allocations(log) < FREED && LifetimeAt(log[..n], p).Some?
    ensures var i := LifetimeAt(log[..n], p).value;
      log[i].Allocated? && GenerationAt(log[..n], p) == Allocations(log[..i]) + 1 <= Allocations(log)
  {
    var i := LifetimeAt(log[..n], p).value;
    LifetimeShape(log[..n], p);
    assert log[..n][..i] == log[..i];
    AllocationsGrow(log, i, i + 1);
  }

  lemma DifferentLifetimes(log: Log, i: nat, j: nat)
    requires i < |log| && j < |log| && log[i].Allocated? && log[j].Allocated? && i != j
    ensures Allocations(log[..i]) != Allocations(log[..j])
  {
    if i < j { AllocationsGrow(log, i, j); } else { AllocationsGrow(log, j, i); }
  }

  /** The temporal safety of generations: with fewer than 2^64 - 1 allocations, the generation captured at an
      earlier time equals today's, and is not the freed mark, exactly when the address was in a lifetime then
      and has not been released since. */
  lemma GenerationIdentifiesLifetime(log: Log, p: nat, n: nat)
    requires WellLogged(log) && n <= |log| && Allocations(log) < FREED
    ensures GenerationAt(log, p) == GenerationAt(log[..n], p) && GenerationAt(log, p) != FREED
      <==> LifetimeAt(log[..n], p).Some? && forall i :: n <= i < |log| ==> log[i] != Released(p)
    ensures GenerationAt(log[..n], p) == FREED <==> LifetimeAt(log[..n], p) == None
    ensures GenerationAt(log[..n], p) != 0
  {
    var was, now := LifetimeAt(log[..n], p), LifetimeAt(log, p);
    assert log[..|log|] == log;
    assert was == None ==> GenerationAt(log[..n], p) == FREED;
    assert now == None ==> GenerationAt(log, p) == FREED;
    if was.Some? {
      LifetimeEnds(log, p, n);
      GenerationOfLifetime(log, p, n);
    }
    if now.Some? { GenerationOfLifetime(log, p, |log|); }
    if was.Some? && now.Some? && was != now { DifferentLifetimes(log, was.value, now.value); }
    hide LifetimeAt, GenerationAt, Allocations;
  }
}
