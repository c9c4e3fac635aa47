/** The victim sweep of work stealing: two passes over all Ps from random starts, first the thief's NUMA node,
    then the others. */
module StealSweep {
  import opened Options
  import opened Ranges
  import Bits

  /** (start + i) % n */
  function Victim(start: nat, i: nat, n: nat): nat
    requires n > 0
  {
    (start + i) % n
  }

  predicate InPass(self: nat, nodes: seq<nat>, idx: nat, same: bool)
    requires self < |nodes|
  {
    idx < |nodes| && idx != self && (nodes[idx] == nodes[self]) == same
  }

  /** The victims one pass tries, in order, from its i-th turn on. */
  function Pass(self: nat, nodes: seq<nat>, start: nat, i: nat, same: bool): seq<nat>
    requires self < |nodes|
    decreases |nodes| - i
  {
    if i >= |nodes| then []
    else
      var idx := Victim(start, i, |nodes|);
      (if InPass(self, nodes, idx, same) then [idx] else []) + Pass(self, nodes, start, i + 1, same)
  }

  /** The victims of both passes. */
  function Sweep(self: nat, nodes: seq<nat>, start1: nat, start2: nat): seq<nat>
    requires self < |nodes|
  {
    Pass(self, nodes, start1, 0, true) + Pass(self, nodes, start2, 0, false)
  }

  /** run_try_steal.  `random1` and `random2` are the two random numbers, `answers[k]` is what the k-th steal
      attempt of the sweep returns; `tried` are the victims attempted. */
  method TrySteal<G>(self: nat, nodes: seq<nat>, random1: nat, random2: nat, answers: seq<Option<G>>)
      returns (r: Option<G>, tried: seq<nat>)
    requires self < |nodes| <= |answers|
    ensures tried <= Sweep(self, nodes, random1 % |nodes|, random2 % |nodes|)
    ensures r.None? ==> tried == Sweep(self, nodes, random1 % |nodes|, random2 % |nodes|)
    ensures r.None? ==> |tried| <= |answers| && forall k :: 0 <= k < |tried| ==> answers[k].None?
    ensures r.Some? ==> 0 < |tried| <= |answers| && answers[|tried| - 1] == r
    ensures r.Some? ==> forall k :: 0 <= k < |tried| - 1 ==> answers[k].None?
  {
    tried := [];
    r := None;
    var start1, start2 := random1 % |nodes|, random2 % |nodes|;
    SweepIsEveryOther(self, nodes, start1, start2);
    if |nodes| <= 1 {
      assert |Sweep(self, nodes, start1, start2)| == 0;
      return;
    }
    r, tried := TryPass(self, nodes, start1, true, [], Pass(self, nodes, start2, 0, false), answers);
    if r.Some? {
      return;
    }
    r, tried := TryPass(self, nodes, start2, false, tried, [], answers);
  }

  /** One pass, after the attempts `before` have failed and with `after` still to come in the sweep. */
  method TryPass<G>(self: nat, nodes: seq<nat>, start: nat, same: bool, before: seq<nat>, ghost after: seq<nat>,
                    answers: seq<Option<G>>)
      returns (r: Option<G>, tried: seq<nat>)
    requires self < |nodes| && |before| + |Pass(self, nodes, start, 0, same)| + |after| <= |answers|
    requires forall k :: 0 <= k < |before| ==> answers[k].None?
    ensures tried <= before + Pass(self, nodes, start, 0, same)
    ensures r.None? ==> tried == before + Pass(self, nodes, start, 0, same)
    ensures r.Some? ==> 0 < |tried| && answers[|tried| - 1] == r
    ensures forall k :: 0 <= k < |tried| - (if r.Some? then 1 else 0) ==> answers[k].None?
  {
    r := None;
    tried := before;
    var i := 0;
    while i < |nodes|
      invariant 0 <= i <= |nodes| && r == None
      invariant |tried| + |Pass(self, nodes, start, i, same)| + |after| <= |answers|
      invariant tried + Pass(self, nodes, start, i, same) == before + Pass(self, nodes, start, 0, same)
      invariant forall k :: 0 <= k < |tried| ==> answers[k].None?
    {
      var idx := Victim(start, i, |nodes|);
      if idx != self && (nodes[idx] == nodes[self]) == same {
        ghost var rest := Pass(self, nodes, start, i + 1, same);
        assert tried + ([idx] + rest) == (tried + [idx]) + rest;
        r := answers[|tried|];
        tried := tried + [idx];
        if r.Some? {
          return;
        }
      }
      i := i + 1;
    }
  }

  lemma VictimIs(start: nat, i: nat, n: nat)
    requires start < n && i < n
    ensures Victim(start, i, n) == if start + i < n then start + i else start + i - n
  {
    if start + i < n {
      Bits.RemainderUnique(start + i, n, 0, start + i);
    } else {
      Bits.RemainderUnique(start + i, n, 1, start + i - n);
    }
  }

  lemma {:induction false} PassShape(self: nat, nodes: seq<nat>, start: nat, i: nat, same: bool)
    requires self < |nodes| && start < |nodes| && i <= |nodes|
    ensures var p := Pass(self, nodes, start, i, same);
      && (forall k :: k in p ==>
           InPass(self, nodes, k, same) && exists j :: i <= j < |nodes| && Victim(start, j, |nodes|) == k)
      && (forall j :: i <= j < |nodes| && InPass(self, nodes, Victim(start, j, |nodes|), same) ==>
           Victim(start, j, |nodes|) in p)
      && (forall x, y :: 0 <= x < y < |p| ==> p[x] != p[y])
    decreases |nodes| - i
  {
    if i < |nodes| {
      PassShape(self, nodes, start, i + 1, same);
      VictimIs(start, i, |nodes|);
      forall j | i < j < |nodes| ensures Victim(start, j, |nodes|) != Victim(start, i, |nodes|) {
        VictimIs(start, j, |nodes|);
      }
    }
  }

  lemma PassIs(self: nat, nodes: seq<nat>, start: nat, same: bool, k: nat)
    requires self < |nodes| && start < |nodes|
    ensures k in Pass(self, nodes, start, 0, same) <==> InPass(self, nodes, k, same)
  {
    PassShape(self, nodes, start, 0, same);
    if k < |nodes| { VictimIs(start, if k >= start then k - start else k - start + |nodes|, |nodes|); }
  }

  /** The sweep visits every other P exactly once and never itself, all of its own NUMA node before any other,
      for any random starts and any node assignment. */
  lemma SweepIsEveryOther(self: nat, nodes: seq<nat>, start1: nat, start2: nat)
    requires self < |nodes| && start1 < |nodes| && start2 < |nodes|
    ensures var s := Sweep(self, nodes, start1, start2);
      && (forall k: nat :: k in s <==> k < |nodes| && k != self)
      && (forall x, y :: 0 <= x < y < |s| ==> s[x] != s[y])
      && (forall x :: 0 <= x < |s| ==> s[x] < |nodes|)
      && (forall x, y :: 0 <= x < y < |s| && nodes[s[x]] != nodes[self] ==> nodes[s[y]] != nodes[self])
      && |s| == |nodes| - 1
  {
    var p, q := Pass(self, nodes, start1, 0, true), Pass(self, nodes, start2, 0, false);
    PassShape(self, nodes, start1, 0, true);
    PassShape(self, nodes, start2, 0, false);
    var s := p + q;
    forall k: nat ensures k in s <==> k < |nodes| && k != self {
      PassIs(self, nodes, start1, true, k);
      PassIs(self, nodes, start2, false, k);
    }
    forall x | 0 <= x < |p| ensures InPass(self, nodes, p[x], true) { assert p[x] in p; }
    forall x | 0 <= x < |q| ensures InPass(self, nodes, q[x], false) { assert q[x] in q; }
    forall x | 0 <= x < |s| ensures InPass(self, nodes, s[x], x < |p|) {}
    EveryOtherCount(s, |nodes|, self);
  }

  lemma EveryOtherCount(s: seq<nat>, n: nat, self: nat)
    requires self < n
    requires forall k: nat :: k in s <==> k < n && k != self
    requires forall x, y :: 0 <= x < y < |s| ==> s[x] != s[y]
    ensures |s| == n - 1
  {
    DistinctSize(s);
    assert Elements(s) == UpTo(n) - {self};
  }

  ghost function Elements(s: seq<nat>): set<int> { set k: int | k in s }

  lemma {:induction false} DistinctSize(s: seq<nat>)
    requires forall x, y :: 0 <= x < y < |s| ==> s[x] != s[y]
    ensures |Elements(s)| == |s|
  {
    if s == [] {
      assert Elements(s) == {};
    } else {
      var t, last := s[..|s| - 1], s[|s| - 1];
      DistinctSize(t);
      assert last !in Elements(t);
      assert Elements(s) == Elements(t) + {last};
    }
  }
}
