/** The lock-free local run queue: a bounded Chase-Lev deque of 256 slots.

    The queue is a transition system.  One owner pushes and pops, any number of thieves steal, and one
    transition is one atomic load, store, compare-and-swap or buffer access, so every interleaving of the
    source's atomic steps is a sequence of actions here.  Steps are sequentially consistent.  Head and tail
    are 32-bit words and every comparison is written with 32-bit wrap-around subtraction.

    The main results are `StepRefines` (every atomic step keeps the invariant and is either invisible or
    exactly one operation of an abstract double-ended queue), `RunConserves` (nothing pushed is ever lost or
    returned twice, over every run) and `RunLinearizes` (every run is a legal history of a sequential deque). */
module Deque {
  import opened Options

  const SIZE := 256
  const WORD := 0x1_0000_0000

  type Word = w: int | 0 <= w < 0x1_0000_0000

  /** uint32_t subtraction. */
  function Sub(a: Word, b: Word): Word { (a - b) % WORD }

  /** uint32_t increment. */
  function Inc(a: Word): Word { (a + 1) % WORD }

  /** The (int32_t) cast. */
  function Signed(a: Word): int { if a < WORD / 2 then a else a - WORD }

  /** Where the owner is inside push or pop; each constructor carries the locals that are still needed. */
  datatype Owner<G> =
    | Idle
    | PushGotTail(g: G, t: Word)
    | PushGotHead(g: G, t: Word)
    | PushWritten(g: G, t: Word)
    | PopGotTail(t: Word)
    | PopTailStored(t: Word)
    | PopEmpty(t: Word)
    | PopGotHead(t: Word, h: Word)
    | PopRead(t: Word, h: Word, r: Option<G>)
    | PopResolved(t: Word, r: Option<G>)

  /** Where one thief is inside steal. */
  datatype Thief<G> = Away | GotHead(h: Word) | GotTail(h: Word) | ReadSlot(h: Word, r: Option<G>)

  /** Shared words and slots, the program points, and two history variables that no step reads:
      `pushedAt[i]` is what was last pushed at index i and `pushes` counts the successful pushes. */
  datatype State<G> = State(
    head: Word, tail: Word, buf: seq<Option<G>>, owner: Owner<G>, thieves: seq<Thief<G>>,
    pushedAt: map<int, G>, pushes: nat)

  /** What a step makes visible to a caller: the return of an operation, or nothing. */
  datatype Event<G> = Silent | Pushed(g: G) | PushFull(g: G) | Popped(r: Option<G>) | Stolen(thief: nat, r: Option<G>)

  /** Who moves.  `Owner` and `Thief` continue an operation under way. */
  datatype Action<G> = StartPush(g: G) | StartPop | ContinueOwner | StartSteal(i: nat) | ContinueThief(i: nat)

  function Init<G>(thieves: nat): State<G> {
    State(0, 0, seq(SIZE, _ => None), Idle, seq(thieves, _ => Away), map[], 0)
  }

  predicate InPush<G>(s: State<G>) { s.owner.PushGotTail? || s.owner.PushGotHead? || s.owner.PushWritten? }

  predicate InPop<G>(s: State<G>) { !s.owner.Idle? && !InPush(s) }

  // ---------- Atomic steps ----------

  /** The steps of run_local_queue_push after its load of tail. */
  function PushStep<G>(s: State<G>): (State<G>, Event<G>)
    requires |s.buf| == SIZE && InPush(s)
  {
    match s.owner
    case PushGotTail(g, t) =>
      if Sub(t, s.head) >= SIZE then (s.(owner := Idle), PushFull(g)) else (s.(owner := PushGotHead(g, t)), Silent)
    case PushGotHead(g, t) =>
      (s.(buf := s.buf[t % SIZE := Some(g)], owner := PushWritten(g, t)), Silent)
    case PushWritten(g, t) =>
      (s.(tail := Inc(t), owner := Idle, pushedAt := s.pushedAt[t as int := g], pushes := s.pushes + 1), Pushed(g))
  }

  /** The steps of run_local_queue_pop after its load of tail. */
  function PopStep<G>(s: State<G>): (State<G>, Event<G>)
    requires |s.buf| == SIZE && InPop(s)
  {
    match s.owner
    case PopGotTail(t) =>
      (s.(tail := t, owner := PopTailStored(t)), Silent)
    case PopTailStored(t) =>
      (s.(owner := if Signed(Sub(t, s.head)) < 0 then PopEmpty(t) else PopGotHead(t, s.head)), Silent)
    case PopEmpty(t) =>
      (s.(tail := Inc(t), owner := Idle), Popped(None))
    case PopGotHead(t, h) =>
      (s.(owner := PopRead(t, h, s.buf[t % SIZE])), Silent)
    case PopRead(t, h, r) =>
      if t != h then (s.(owner := Idle), Popped(r))
      else if s.head == h then (s.(head := Inc(h), owner := PopResolved(t, r)), Silent)
      else (s.(owner := PopResolved(t, None)), Silent)
    case PopResolved(t, r) =>
      (s.(tail := Inc(t), owner := Idle), Popped(r))
  }

  function ThiefStep<G>(s: State<G>, i: nat): (State<G>, Event<G>)
    requires |s.buf| == SIZE && i < |s.thieves|
  {
    match s.thieves[i]
    case Away => (s, Silent)
    case GotHead(h) =>
      if Signed(Sub(s.tail, h)) <= 0 then (s.(thieves := s.thieves[i := Away]), Stolen(i, None))
      else (s.(thieves := s.thieves[i := GotTail(h)]), Silent)
    case GotTail(h) =>
      (s.(thieves := s.thieves[i := ReadSlot(h, s.buf[h % SIZE])]), Silent)
    case ReadSlot(h, r) =>
      if s.head == h then (s.(head := Inc(h), thieves := s.thieves[i := Away]), Stolen(i, r))
      else (s.(thieves := s.thieves[i := Away]), Stolen(i, None))
  }

  /** One atomic step.  An action that is not enabled changes nothing. */
  function Next<G>(s: State<G>, a: Action<G>): (State<G>, Event<G>)
    requires |s.buf| == SIZE
  {
    match a
    case StartPush(g) =>
      if s.owner.Idle? then (s.(owner := PushGotTail(g, s.tail)), Silent) else (s, Silent)
    case StartPop =>
      if !s.owner.Idle? then (s, Silent)
      else if s.tail == 0 then (s, Popped(None))
      else (s.(owner := PopGotTail(s.tail - 1)), Silent)
    case ContinueOwner => if InPush(s) then PushStep(s) else if InPop(s) then PopStep(s) else (s, Silent)
    case StartSteal(i) =>
      if i < |s.thieves| && s.thieves[i].Away? then (s.(thieves := s.thieves[i := GotHead(s.head)]), Silent)
      else (s, Silent)
    case ContinueThief(i) =>
      if i < |s.thieves| then ThiefStep(s, i) else (s, Silent)
  }

  // ---------- The abstract queue ----------

  /** One past the last index the queue still owns.  A pop in flight keeps its element in the queue until the
      step that decides who gets it: the load of head when more than one element is left, the CAS otherwise. */
  function LogicalTail<G>(s: State<G>): int {
    match s.owner
    case PopTailStored(t) => t + 1
    case PopEmpty(t) => t + 1
    case PopGotHead(t, h) => if t == h then t + 1 else t
    case PopRead(t, h, _) => if t == h then t + 1 else t
    case PopResolved(t, _) => t + 1
    case _ => s.tail
  }

  ghost predicate LoggedRange<G>(m: map<int, G>, lo: int, hi: int) { forall j :: lo <= j < hi ==> j in m }

  /** The values m[lo], ..., m[hi-1]. */
  ghost function Range<G>(m: map<int, G>, lo: int, hi: int): seq<G>
    requires LoggedRange(m, lo, hi)
    decreases hi - lo
  {
    if lo >= hi then [] else Range(m, lo, hi - 1) + [m[hi - 1]]
  }

  lemma {:induction false} RangeShape<G>(m: map<int, G>, lo: int, hi: int)
    requires LoggedRange(m, lo, hi)
    ensures |Range(m, lo, hi)| == if lo < hi then hi - lo else 0
    ensures lo < hi ==> Range(m, lo, hi) == [m[lo]] + Range(m, lo + 1, hi)
    decreases hi - lo
  {
    if lo < hi { RangeShape(m, lo, hi - 1); }
  }

  lemma RangeLast<G>(m: map<int, G>, lo: int, t: int)
    requires LoggedRange(m, lo, t + 1) && lo <= t
    ensures Range(m, lo, t + 1) == Range(m, lo, t) + [m[t]]
  {
  }

  lemma {:induction false} RangeFrame<G>(m: map<int, G>, m': map<int, G>, lo: int, hi: int)
    requires LoggedRange(m, lo, hi) && LoggedRange(m', lo, hi)
    requires forall j :: lo <= j < hi ==> m[j] == m'[j]
    ensures Range(m, lo, hi) == Range(m', lo, hi)
    decreases hi - lo
  {
    if lo < hi { RangeFrame(m, m', lo, hi - 1); }
  }

  ghost predicate Logged<G>(s: State<G>) { LoggedRange(s.pushedAt, s.head, LogicalTail(s)) }

  /** The queue's elements, oldest first. */
  ghost function Items<G>(s: State<G>): seq<G>
    requires Logged(s)
  {
    Range(s.pushedAt, s.head, LogicalTail(s))
  }

  /** The element a winning pop has taken out of the queue and not yet returned. */
  function InFlight<G>(s: State<G>): Option<G> {
    match s.owner
    case PopGotHead(t, h) => if t != h && t in s.pushedAt then Some(s.pushedAt[t]) else None
    case PopRead(t, h, r) => if t != h then r else None
    case PopResolved(t, r) => r
    case _ => None
  }

  ghost function Held<G>(s: State<G>): multiset<G> {
    match InFlight(s) case None => multiset{} case Some(g) => multiset{g}
  }

  // ---------- Invariant ----------

  ghost predicate SlotHolds<G>(s: State<G>, j: int)
    requires |s.buf| == SIZE
  {
    j in s.pushedAt && s.buf[j % SIZE] == Some(s.pushedAt[j])
  }

  ghost predicate OwnerInv<G>(s: State<G>)
    requires |s.buf| == SIZE
  {
    match s.owner
    case Idle => true
    case PushGotTail(g, t) => t == s.tail
    case PushGotHead(g, t) => t == s.tail && t - s.head < SIZE
    case PushWritten(g, t) => t == s.tail && t - s.head < SIZE && s.buf[t % SIZE] == Some(g)
    case PopGotTail(t) => t + 1 == s.tail
    case PopTailStored(t) => s.tail == t
    case PopEmpty(t) => s.tail == t && s.head == t + 1
    case PopGotHead(t, h) => s.tail == t && h <= t && h <= s.head && SlotHolds(s, t)
    case PopRead(t, h, r) => s.tail == t && h <= t && h <= s.head && SlotHolds(s, t) && r == Some(s.pushedAt[t])
    case PopResolved(t, r) => s.tail == t && s.head == t + 1
  }

  ghost predicate ThiefInv<G>(s: State<G>, th: Thief<G>) {
    match th
    case Away => true
    case GotHead(h) => h <= s.head
    case GotTail(h) => h <= s.head && (h == s.head ==> h < LogicalTail(s))
    case ReadSlot(h, r) =>
      h <= s.head && (h == s.head ==> h < LogicalTail(s) && h in s.pushedAt && r == Some(s.pushedAt[h]))
  }

  ghost predicate Bounds<G>(s: State<G>) {
    && |s.buf| == SIZE
    && s.head <= LogicalTail(s) <= s.head + SIZE
    && LogicalTail(s) <= s.pushes < WORD
  }

  ghost predicate Inv<G>(s: State<G>) {
    && Bounds(s)
    && (forall j :: s.head <= j < LogicalTail(s) ==> SlotHolds(s, j))
    && OwnerInv(s)
    && ThievesInv(s)
  }

  ghost predicate ThievesInv<G>(s: State<G>) {
    forall i :: 0 <= i < |s.thieves| ==> ThiefInv(s, s.thieves[i])
  }

  lemma InvLogged<G>(s: State<G>)
    requires Inv(s)
    ensures Logged(s)
  {
    forall j | s.head <= j < LogicalTail(s) ensures j in s.pushedAt { assert SlotHolds(s, j); }
  }

  /** While the two words span at most one queue length, every 32-bit test of the source decides exactly
      what the unbounded integers would: push's full test, pop's empty test (head may lead the decremented
      tail by one) and steal's empty test. */
  lemma WordComparisonsAgree(t: Word, h: Word)
    requires h - 1 <= t <= h + SIZE
    ensures h <= t ==> (Sub(t, h) >= SIZE <==> t - h >= SIZE)
    ensures Signed(Sub(t, h)) < 0 <==> t < h
    ensures Signed(Sub(t, h)) <= 0 <==> t <= h
  {
    if t < h { assert (t - h) % WORD == WORD - 1; }
  }

  // ---------- Every step ----------

  /** The step at which a pop wins the newest element. */
  ghost predicate PopTakes<G>(s: State<G>, s': State<G>)
    requires Logged(s) && Logged(s') && (s.owner.PopTailStored? || s.owner.PopRead?)
  {
    && s.owner.t in s.pushedAt
    && var g := s.pushedAt[s.owner.t]; Items(s) == Items(s') + [g] && InFlight(s') == Some(g)
  }

  /** Thief i, with a current head and no slot read yet, meets an empty queue, or one whose only element the owner
      is popping. */
  ghost predicate FoundNone<G>(s: State<G>, i: nat)
    requires Logged(s) && i < |s.thieves|
  {
    s.thieves[i] == GotHead(s.head) && (Items(s) == [] || (|Items(s)| == 1 && InPop(s)))
  }

  /** Thief i may return nothing: its head is out of date, or it found nothing to take. */
  ghost predicate MayComeBackEmpty<G>(s: State<G>, i: nat)
    requires Logged(s)
  {
    i < |s.thieves| && !s.thieves[i].Away? && (s.thieves[i].h == s.head ==> FoundNone(s, i))
  }

  /** The abstract effect of one step: on the items, on the element in flight, and on what is returned. */
  ghost predicate AbstractStep<G>(s: State<G>, e: Event<G>, s': State<G>)
    requires Logged(s) && Logged(s')
  {
    match e
    case Pushed(g) =>
      && Items(s') == Items(s) + [g] && InFlight(s') == InFlight(s) == None
      && s'.pushedAt == s.pushedAt[s.tail as int := g]
    case PushFull(g) =>
      |Items(s)| == SIZE && Items(s') == Items(s) && InFlight(s') == InFlight(s) == None
    case Popped(r) =>
      Items(s') == Items(s) && InFlight(s) == r && InFlight(s') == None && (r.None? ==> Items(s) == [])
    case Stolen(i, r) =>
      InFlight(s') == InFlight(s) &&
      (match r
       case None => Items(s') == Items(s) && MayComeBackEmpty(s, i)
       case Some(g) =>
         && Items(s) == [g] + Items(s') && s.head in s.pushedAt && g == s.pushedAt[s.head]
         && i < |s.thieves| && s.thieves[i].ReadSlot? && s.thieves[i].h == s.head && s'.head == s.head + 1)
    case Silent =>
      || (Items(s') == Items(s) && InFlight(s') == InFlight(s))
      || (InFlight(s) == None && s.owner.PopTailStored? && |Items(s)| > 1 && PopTakes(s, s'))
      || (InFlight(s) == None && s.owner.PopRead? && |Items(s)| == 1 && PopTakes(s, s'))
  }

  /** A step that leaves slots and history alone and only shrinks the index range keeps every slot. */
  lemma SlotsKept<G>(s: State<G>, s': State<G>)
    requires Inv(s) && s'.buf == s.buf && s'.pushedAt == s.pushedAt
    requires s.head <= s'.head && LogicalTail(s') <= LogicalTail(s)
    ensures forall j :: s'.head <= j < LogicalTail(s') ==> SlotHolds(s', j)
  {
    forall j | s'.head <= j < LogicalTail(s') ensures SlotHolds(s', j) { assert SlotHolds(s, j); }
  }

  /** A thief relies on nothing but head's monotonicity and, while head is where it saw it, on that index
      still being in the queue with the same value. */
  lemma ThievesKept<G>(s: State<G>, s': State<G>)
    requires ThievesInv(s) && s'.thieves == s.thieves && s.head <= s'.head
    requires s.head == s'.head && s.head < LogicalTail(s) ==>
      && s.head < LogicalTail(s')
      && (s.head in s.pushedAt ==> s.head in s'.pushedAt && s'.pushedAt[s.head] == s.pushedAt[s.head])
    ensures ThievesInv(s')
  {
    forall i | 0 <= i < |s.thieves| ensures ThiefInv(s', s'.thieves[i]) { assert ThiefInv(s, s.thieves[i]); }
  }

  lemma PushStepKeepsInv<G>(s: State<G>)
    requires Inv(s) && InPush(s) && PushStep(s).0.pushes < WORD
    ensures Inv(PushStep(s).0)
  {
    var s' := PushStep(s).0;
    var t := s.owner.t;
    ThievesKept(s, s');
    if s.owner.PushGotTail? {
      WordComparisonsAgree(t, s.head);
      SlotsKept(s, s');
    } else {
      forall j | s'.head <= j < LogicalTail(s') ensures SlotHolds(s', j) {
        if j < t {
          assert SlotHolds(s, j);
          assert j % SIZE != t % SIZE;
        }
      }
    }
  }

  lemma PopStepKeepsInv<G>(s: State<G>)
    requires Inv(s) && InPop(s)
    ensures Inv(PopStep(s).0)
  {
    var s' := PopStep(s).0;
    if s.owner.PopTailStored? {
      WordComparisonsAgree(s.owner.t, s.head);
      if s.head <= s.owner.t { assert SlotHolds(s, s.owner.t); }
    }
    ThievesKept(s, s');
    SlotsKept(s, s');
  }

  /** A thief that only changes its own program point. */
  lemma ThiefMoves<G>(s: State<G>, i: nat, th: Thief<G>)
    requires Inv(s) && i < |s.thieves| && ThiefInv(s, th)
    ensures Inv(s.(thieves := s.thieves[i := th]))
  {
    var s' := s.(thieves := s.thieves[i := th]);
    SlotsKept(s, s');
    forall k | 0 <= k < |s.thieves| ensures ThiefInv(s', s'.thieves[k]) {
      assert ThiefInv(s, if k == i then th else s.thieves[k]);
    }
  }

  /** A thief's winning CAS: the index it takes leaves the queue, and every other thief that read the same head
      will fail. */
  lemma ThiefWins<G>(s: State<G>)
    requires Inv(s) && s.head < LogicalTail(s)
    ensures Inv(s.(head := Inc(s.head)))
    ensures forall i :: 0 <= i < |s.thieves| && s.thieves[i].ReadSlot? && s.thieves[i].h == s.head ==>
      ThiefStep(s.(head := Inc(s.head)), i).1 == Stolen(i, None)
  {
    var s' := s.(head := Inc(s.head));
    ThievesKept(s, s');
    SlotsKept(s, s');
  }

  lemma ThiefStepKeepsInv<G>(s: State<G>, i: nat)
    requires Inv(s) && i < |s.thieves|
    ensures Inv(ThiefStep(s, i).0)
  {
    assert ThiefInv(s, s.thieves[i]);
    match s.thieves[i]
    case Away =>
    case GotHead(h) =>
      if h == s.head { WordComparisonsAgree(s.tail, h); }
      ThiefMoves(s, i, ThiefStep(s, i).0.thieves[i]);
    case GotTail(h) =>
      if h == s.head { assert SlotHolds(s, h); }
      ThiefMoves(s, i, ReadSlot(h, s.buf[h % SIZE]));
    case ReadSlot(h, r) =>
      ThiefMoves(s, i, Away);
      if h == s.head { ThiefWins(s.(thieves := s.thieves[i := Away])); }
  }

  lemma PushStepRefines<G>(s: State<G>)
    requires Bounds(s) && OwnerInv(s) && InPush(s) && Logged(s) && Bounds(PushStep(s).0) && Logged(PushStep(s).0)
    ensures AbstractStep(s, PushStep(s).1, PushStep(s).0)
  {
    var s' := PushStep(s).0;
    RangeShape(s.pushedAt, s.head, LogicalTail(s));
    if s.owner.PushGotTail? { WordComparisonsAgree(s.owner.t, s.head); }
    if s.owner.PushWritten? {
      RangeFrame(s.pushedAt, s'.pushedAt, s.head, s.tail);
      assert Items(s') == Range(s'.pushedAt, s.head, s.tail) + [s.owner.g];
    }
  }

  /** The steps of pop at which it wins: the load of head, or the CAS on the last element. */
  lemma PopWins<G>(s: State<G>)
    requires Bounds(s) && OwnerInv(s) && Logged(s)
    requires (s.owner.PopTailStored? && s.head < s.owner.t) || (s.owner.PopRead? && s.owner.t == s.owner.h == s.head)
    ensures Logged(PopStep(s).0) && PopStep(s).1 == Silent && InFlight(s) == None
    ensures PopTakes(s, PopStep(s).0) && |Items(s)| == s.owner.t + 1 - s.head
  {
    var t := s.owner.t;
    WordComparisonsAgree(t, s.head);
    RangeShape(s.pushedAt, s.head, t + 1);
    RangeLast(s.pushedAt, s.head, t);
    hide Range, Sub, Signed;
  }

  /** Every other step of pop. */
  lemma PopStutters<G>(s: State<G>)
    requires Bounds(s) && OwnerInv(s) && InPop(s) && Logged(s)
    requires !((s.owner.PopTailStored? && s.head < s.owner.t) || (s.owner.PopRead? && s.owner.t == s.owner.h == s.head))
    ensures Logged(PopStep(s).0) && Items(PopStep(s).0) == Items(s)
    ensures PopStep(s).1.Silent? ==> InFlight(PopStep(s).0) == InFlight(s)
    ensures PopStep(s).1.Popped? ==> InFlight(PopStep(s).0) == None
    ensures PopStep(s).1 == Popped(None) ==> Items(s) == []
  {
    if s.owner.PopTailStored? { WordComparisonsAgree(s.owner.t, s.head); }
    RangeShape(s.pushedAt, s.head, LogicalTail(s));
    hide Range, Sub, Signed;
  }

  lemma PopStepRefines<G>(s: State<G>)
    requires Bounds(s) && OwnerInv(s) && InPop(s) && Logged(s)
    ensures Logged(PopStep(s).0) && AbstractStep(s, PopStep(s).1, PopStep(s).0)
  {
    if (s.owner.PopTailStored? && s.head < s.owner.t) || (s.owner.PopRead? && s.owner.t == s.owner.h == s.head) {
      PopWins(s);
    } else {
      PopStutters(s);
      hide Items, LogicalTail, Sub, Signed;
    }
  }

  lemma OwnerUnchanged<G>(s: State<G>, s': State<G>)
    requires s'.owner == s.owner && s'.tail == s.tail && s'.pushedAt == s.pushedAt
    ensures LogicalTail(s') == LogicalTail(s) && InFlight(s') == InFlight(s)
  {
  }

  /** A steal that gives up before its CAS while its view of head is current saw an empty queue, or one
      element that the owner is popping at that moment. */
  lemma EmptyHandedSteal<G>(s: State<G>, i: nat)
    requires Bounds(s) && OwnerInv(s) && Logged(s) && i < |s.thieves| && s.thieves[i] == GotHead(s.head)
    ensures ThiefStep(s, i).1 == Stolen(i, None) ==> FoundNone(s, i)
  {
    RangeShape(s.pushedAt, s.head, LogicalTail(s));
    WordComparisonsAgree(s.tail, s.head);
  }

  lemma ThiefStepRefines<G>(s: State<G>, i: nat)
    requires Bounds(s) && OwnerInv(s) && i < |s.thieves| && ThiefInv(s, s.thieves[i])
    requires Logged(s) && Logged(ThiefStep(s, i).0)
    ensures AbstractStep(s, ThiefStep(s, i).1, ThiefStep(s, i).0)
  {
    RangeShape(s.pushedAt, s.head, LogicalTail(s));
    if s.thieves[i] == GotHead(s.head) { EmptyHandedSteal(s, i); }
    OwnerUnchanged(s, ThiefStep(s, i).0);
    hide Range, Sub, Signed, LogicalTail, InFlight;
  }

  /** The loads that begin an operation. */
  lemma StartKeepsInv<G>(s: State<G>, a: Action<G>)
    requires Inv(s) && !a.ContinueOwner? && !a.ContinueThief?
    ensures Inv(Next(s, a).0)
  {
    SlotsKept(s, Next(s, a).0);
  }

  lemma StartRefines<G>(s: State<G>, a: Action<G>)
    requires Bounds(s) && OwnerInv(s) && Logged(s) && !a.ContinueOwner? && !a.ContinueThief?
    ensures Logged(Next(s, a).0) && AbstractStep(s, Next(s, a).1, Next(s, a).0)
  {
    hide Range;
    RangeShape(s.pushedAt, s.head, LogicalTail(s));
  }

  /** Every atomic step of every participant keeps the invariant and refines the abstract queue: a push
      appends at the tail index and is refused exactly on a full queue, a successful steal returns the oldest
      element, which is the one last pushed at the index its CAS moved head away from, a pop takes the newest,
      an empty-handed pop saw an empty queue, an empty-handed steal lost its element or met none that it could
      have, and no other step changes the contents. */
  lemma StepRefines<G>(s: State<G>, a: Action<G>)
    requires Inv(s) && Next(s, a).0.pushes < WORD
    ensures Logged(s) && Inv(Next(s, a).0) && Logged(Next(s, a).0)
    ensures AbstractStep(s, Next(s, a).1, Next(s, a).0)
  {
    InvLogged(s);
    if a.ContinueOwner? && InPush(s) {
      PushStepKeepsInv(s);
      InvLogged(PushStep(s).0);
      PushStepRefines(s);
    } else if a.ContinueOwner? && InPop(s) {
      PopStepKeepsInv(s);
      InvLogged(PopStep(s).0);
      PopStepRefines(s);
    } else if a.ContinueThief? && a.i < |s.thieves| {
      ThiefStepKeepsInv(s, a.i);
      InvLogged(ThiefStep(s, a.i).0);
      ThiefStepRefines(s, a.i);
    } else if !a.ContinueOwner? && !a.ContinueThief? {
      StartKeepsInv(s, a);
      StartRefines(s, a);
    }
  }

  lemma PopMovesHead<G>(s: State<G>)
    requires Bounds(s) && OwnerInv(s) && InPop(s)
    ensures s.head <= PopStep(s).0.head <= s.head + 1
  {
    hide SlotHolds, Sub, Signed;
  }

  lemma StealMovesHead<G>(s: State<G>, i: nat)
    requires Bounds(s) && i < |s.thieves| && ThiefInv(s, s.thieves[i])
    ensures s.head <= ThiefStep(s, i).0.head <= s.head + 1
  {
    hide LogicalTail, Sub, Signed;
  }

  /** No step moves head back: the owner and the thieves only ever add one to it. */
  lemma HeadNeverDecreases<G>(s: State<G>, a: Action<G>)
    requires Inv(s)
    ensures s.head <= Next(s, a).0.head <= s.head + 1
  {
    if a.ContinueOwner? && InPop(s) { PopMovesHead(s); }
    if a.ContinueThief? && a.i < |s.thieves| { StealMovesHead(s, a.i); }
    hide Bounds, OwnerInv, ThievesInv, SlotHolds, PopStep, ThiefStep;
  }

  // ---------- Every run ----------

  /** Runs a schedule, any interleaving of the owner and n thieves, and records what was returned. */
  ghost function Exec<G>(n: nat, acts: seq<Action<G>>): (r: (State<G>, seq<Event<G>>))
    ensures |r.0.buf| == SIZE
  {
    if acts == [] then (Init(n), [])
    else
      var (s, es) := Exec(n, acts[..|acts| - 1]);
      var (s', e) := Next(s, acts[|acts| - 1]);
      (s', es + [e])
  }

  ghost function PushedBy<G>(e: Event<G>): multiset<G> {
    match e case Pushed(g) => multiset{g} case _ => multiset{}
  }

  ghost function ReturnedBy<G>(e: Event<G>): multiset<G> {
    match e
    case Popped(r) => (match r case Some(g) => multiset{g} case None => multiset{})
    case Stolen(_, r) => (match r case Some(g) => multiset{g} case None => multiset{})
    case _ => multiset{}
  }

  /** The values whose push returned true. */
  ghost function PushedBag<G>(es: seq<Event<G>>): multiset<G> {
    if es == [] then multiset{} else PushedBag(es[..|es| - 1]) + PushedBy(es[|es| - 1])
  }

  /** The values that pop and steal returned. */
  ghost function ReturnedBag<G>(es: seq<Event<G>>): multiset<G> {
    if es == [] then multiset{} else ReturnedBag(es[..|es| - 1]) + ReturnedBy(es[|es| - 1])
  }

  lemma BagOfAppend<G>(q: seq<G>, g: G)
    ensures multiset(q + [g]) == multiset(q) + multiset{g}
  {
  }

  lemma BagOfPrepend<G>(g: G, q: seq<G>)
    ensures multiset([g] + q) == multiset{g} + multiset(q)
  {
  }

  lemma BagsBalance<G>(i: multiset<G>, i': multiset<G>, g: multiset<G>)
    requires i == i' + g || i == g + i'
    ensures multiset{} + i + multiset{} == multiset{} + i' + g
    ensures forall h :: multiset{} + i + h == g + i' + h
    ensures g + i' + multiset{} == multiset{} + i + multiset{}
    ensures multiset{} + i + g == g + i + multiset{}
  {
  }

  lemma LedgerStep<G>(p: multiset<G>, r: multiset<G>, i: multiset<G>, h: multiset<G>,
                      dp: multiset<G>, dr: multiset<G>, i': multiset<G>, h': multiset<G>)
    requires p == r + i + h && dp + i + h == dr + i' + h'
    ensures p + dp == (r + dr) + i' + h'
  {
    assert p + dp == r + (dp + i + h);
  }

  /** Abstract steps move values between the queue, the winning pop and the caller, and nowhere else. */
  lemma StepConserves<G>(s: State<G>, e: Event<G>, s': State<G>)
    requires Logged(s) && Logged(s') && AbstractStep(s, e, s')
    ensures PushedBy(e) + multiset(Items(s)) + Held(s) == ReturnedBy(e) + multiset(Items(s')) + Held(s')
  {
    var i, i' := multiset(Items(s)), multiset(Items(s'));
    match e
    case Pushed(g) =>
      BagOfAppend(Items(s), g);
      BagsBalance(i', i, multiset{g});
    case Stolen(_, r) =>
      if r.Some? {
        BagOfPrepend(r.value, Items(s'));
        BagsBalance(i, i', multiset{r.value});
      }
    case Popped(r) =>
      if r.Some? { BagsBalance(i + multiset{r.value}, i, multiset{r.value}); }
    case PushFull(_) =>
    case Silent =>
      if Items(s') != Items(s) {
        BagOfAppend(Items(s'), s.pushedAt[s.owner.t]);
        BagsBalance(i, i', multiset{s.pushedAt[s.owner.t]});
      }
  }

  lemma StepCountsPushes<G>(s: State<G>, a: Action<G>)
    requires |s.buf| == SIZE
    ensures Next(s, a).0.pushes == s.pushes + |PushedBy(Next(s, a).1)|
  {
  }

  lemma InitInv<G>(n: nat)
    ensures Inv(Init<G>(n)) && Items(Init<G>(n)) == []
  {
  }

  /** After every schedule with fewer than 2^32 pushes, the pushed values are exactly the returned ones, the
      ones still queued and the one a winning pop holds: nothing is lost and nothing is returned twice. */
  lemma {:induction false} RunConserves<G>(n: nat, acts: seq<Action<G>>)
    requires |PushedBag(Exec(n, acts).1)| < WORD
    ensures Inv(Exec(n, acts).0) && Logged(Exec(n, acts).0)
    ensures Exec(n, acts).0.pushes == |PushedBag(Exec(n, acts).1)|
    ensures PushedBag(Exec(n, acts).1)
      == ReturnedBag(Exec(n, acts).1) + multiset(Items(Exec(n, acts).0)) + Held(Exec(n, acts).0)
  {
    if acts == [] {
      InitInv<G>(n);
    } else {
      var before, a := acts[..|acts| - 1], acts[|acts| - 1];
      var (s, es) := Exec(n, before);
      var (s', e) := Next(s, a);
      assert (es + [e])[..|es|] == es;
      RunConserves(n, before);
      StepCountsPushes(s, a);
      StepRefines(s, a);
      StepConserves(s, e, s');
      LedgerStep(PushedBag(es), ReturnedBag(es), multiset(Items(s)), Held(s),
                 PushedBy(e), ReturnedBy(e), multiset(Items(s')), Held(s'));
    }
  }

  /** The operations of a sequential double-ended queue. */
  datatype Op<G> = Push(g: G) | PopNewest(g: G) | StealOldest(g: G)

  ghost function Apply<G>(q: seq<G>, op: Op<G>): Option<seq<G>> {
    match op
    case Push(g) => Some(q + [g])
    case PopNewest(g) => if q != [] && q[|q| - 1] == g then Some(q[..|q| - 1]) else None
    case StealOldest(g) => if q != [] && q[0] == g then Some(q[1..]) else None
  }

  ghost function Replay<G>(ops: seq<Op<G>>): Option<seq<G>> {
    if ops == [] then Some([])
    else match Replay(ops[..|ops| - 1]) { case None => None case Some(q) => Apply(q, ops[|ops| - 1]) }
  }

  /** The operation, if any, that takes effect at one atomic step. */
  ghost function TakesEffect<G>(s: State<G>, a: Action<G>): seq<Op<G>>
    requires |s.buf| == SIZE
  {
    var (s', e) := Next(s, a);
    match e
    case Pushed(g) => [Push(g)]
    case Stolen(_, r) => if r.Some? then [StealOldest(r.value)] else []
    case Silent =>
      if InFlight(s) == None && InFlight(s').Some? then [PopNewest(InFlight(s').value)] else []
    case _ => []
  }

  lemma StepLinearizes<G>(s: State<G>, a: Action<G>)
    requires |s.buf| == SIZE && Logged(s) && Logged(Next(s, a).0) && AbstractStep(s, Next(s, a).1, Next(s, a).0)
    ensures |TakesEffect(s, a)| <= 1
    ensures TakesEffect(s, a) == [] ==> Items(Next(s, a).0) == Items(s)
    ensures TakesEffect(s, a) != [] ==> Apply(Items(s), TakesEffect(s, a)[0]) == Some(Items(Next(s, a).0))
  {
    hide Next, Items, InFlight, LogicalTail;
  }

  ghost function History<G>(n: nat, acts: seq<Action<G>>): seq<Op<G>> {
    if acts == [] then []
    else History(n, acts[..|acts| - 1]) + TakesEffect(Exec(n, acts[..|acts| - 1]).0, acts[|acts| - 1])
  }

  /** What a caller learns from a return: nothing when the operation was refused or came back empty-handed. */
  ghost function Answer<G>(e: Event<G>): seq<Op<G>> {
    match e
    case Pushed(g) => [Push(g)]
    case Popped(r) => if r.Some? then [PopNewest(r.value)] else []
    case Stolen(_, r) => if r.Some? then [StealOldest(r.value)] else []
    case _ => []
  }

  ghost function Answers<G>(es: seq<Event<G>>): seq<Op<G>> {
    if es == [] then [] else Answers(es[..|es| - 1]) + Answer(es[|es| - 1])
  }

  datatype Kind = Pushes | Pops | Steals

  function KindOf<G>(op: Op<G>): Kind {
    match op case Push(_) => Pushes case PopNewest(_) => Pops case StealOldest(_) => Steals
  }

  /** The operations of one kind, in order. */
  ghost function Only<G>(k: Kind, ops: seq<Op<G>>): seq<Op<G>> {
    if ops == [] then []
    else Only(k, ops[..|ops| - 1]) + if KindOf(ops[|ops| - 1]) == k then [ops[|ops| - 1]] else []
  }

  /** The pop that has taken effect and not returned. */
  ghost function Unreturned<G>(k: Kind, flying: Option<G>): seq<Op<G>> {
    if k == Pops && flying.Some? then [PopNewest(flying.value)] else []
  }

  lemma OnlyAppend<G>(k: Kind, ops: seq<Op<G>>, more: seq<Op<G>>)
    requires |more| <= 1
    ensures Only(k, ops + more) == Only(k, ops) + Only(k, more)
  {
    if more == [] {
      assert ops + more == ops;
    } else {
      assert (ops + more)[..|ops|] == ops && more[..0] == [];
    }
  }

  /** A step's effect and its answer differ only by the pop in flight. */
  ghost predicate Balanced<G>(was: Option<G>, effect: seq<Op<G>>, answer: seq<Op<G>>, now: Option<G>) {
    || (was == now && effect == answer && |effect| <= 1 && forall i :: 0 <= i < |effect| ==> KindOf(effect[i]) != Pops)
    || (was == None && now.Some? && effect == [PopNewest(now.value)] && answer == [])
    || (was.Some? && now == None && effect == [] && answer == [PopNewest(was.value)])
  }

  lemma StepBalances<G>(s: State<G>, a: Action<G>)
    requires |s.buf| == SIZE && Logged(s) && Logged(Next(s, a).0) && AbstractStep(s, Next(s, a).1, Next(s, a).0)
    ensures Balanced(InFlight(s), TakesEffect(s, a), Answer(Next(s, a).1), InFlight(Next(s, a).0))
  {
    hide Next, Items, InFlight, LogicalTail;
  }

  lemma BalancedOnly<G>(k: Kind, was: Option<G>, effect: seq<Op<G>>, answer: seq<Op<G>>, now: Option<G>)
    requires Balanced(was, effect, answer, now)
    ensures Unreturned(k, was) + Only(k, effect) == Only(k, answer) + Unreturned(k, now)
  {
    OneOnly(k, effect);
    OneOnly(k, answer);
  }

  lemma OneOnly<G>(k: Kind, ops: seq<Op<G>>)
    requires |ops| <= 1
    ensures Only(k, ops) == if ops != [] && KindOf(ops[0]) == k then ops else []
  {
    if ops != [] { assert ops[..0] == [] && ops == [ops[0]]; }
  }

  /** Every schedule is a legal history of a sequential deque, each operation taking effect at one atomic step
      between its call and its return: steals take the oldest value, pops the newest.  The answers of the
      pushes, of the pops and of the steals are the history's, in order and with the same values; only the one
      pop that has won and not returned is still to come. */
  lemma {:induction false} RunLinearizes<G>(n: nat, acts: seq<Action<G>>)
    requires |PushedBag(Exec(n, acts).1)| < WORD
    ensures Logged(Exec(n, acts).0) && Replay(History(n, acts)) == Some(Items(Exec(n, acts).0))
    ensures forall k ::
      Only(k, History(n, acts)) == Only(k, Answers(Exec(n, acts).1)) + Unreturned(k, InFlight(Exec(n, acts).0))
  {
    RunConserves(n, acts);
    if acts != [] {
      var before, a := acts[..|acts| - 1], acts[|acts| - 1];
      var (s, es) := Exec(n, before);
      assert (es + [Next(s, a).1])[..|es|] == es;
      RunLinearizes(n, before);
      RunConserves(n, before);
      StepCountsPushes(s, a);
      StepRefines(s, a);
      StepLinearizes(s, a);
      ReplayStep(History(n, before), TakesEffect(s, a));
      StepBalances(s, a);
      forall k ensures
        Only(k, History(n, acts)) == Only(k, Answers(Exec(n, acts).1)) + Unreturned(k, InFlight(Exec(n, acts).0)) {
        BalancedOnly(k, InFlight(s), TakesEffect(s, a), Answer(Next(s, a).1), InFlight(Next(s, a).0));
        OnlyAppend(k, History(n, before), TakesEffect(s, a));
        OnlyAppend(k, Answers(es), Answer(Next(s, a).1));
        Reassociate(Only(k, Answers(es)), Unreturned(k, InFlight(s)), Only(k, TakesEffect(s, a)),
                    Only(k, Answer(Next(s, a).1)), Unreturned(k, InFlight(Next(s, a).0)));
      }
    }
  }

  lemma Reassociate<A>(a: seq<A>, b: seq<A>, c: seq<A>, d: seq<A>, e: seq<A>)
    requires b + c == d + e
    ensures (a + b) + c == (a + d) + e
  {
    assert (a + b) + c == a + (b + c) && (a + d) + e == a + (d + e);
  }

  lemma ReplayStep<G>(ops: seq<Op<G>>, more: seq<Op<G>>)
    requires |more| <= 1 && Replay(ops).Some?
    ensures more == [] ==> Replay(ops + more) == Replay(ops)
    ensures more != [] ==> Replay(ops + more) == Apply(Replay(ops).value, more[0])
  {
    if more == [] {
      assert ops + more == ops;
    } else {
      assert (ops + more)[..|ops|] == ops;
    }
  }
}
