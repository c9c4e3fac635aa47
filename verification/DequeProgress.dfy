/** What the operations of the local run queue achieve: every one returns after a bounded number of its own steps
    whatever the others do; a steal comes back empty only when it lost its thread to another operation or there
    was none to take; and an operation that nobody disturbs does what it says. */
module DequeProgress {
  import opened Options
  import opened Deque

  // ---------- A steal comes back empty only when it lost ----------

  lemma {:induction false} PushesCounted<G>(n: nat, acts: seq<Action<G>>)
    ensures Exec(n, acts).0.pushes == |PushedBag(Exec(n, acts).1)|
  {
    if acts != [] {
      var (s, es) := Exec(n, acts[..|acts| - 1]);
      PushesCounted(n, acts[..|acts| - 1]);
      StepCountsPushes(s, acts[|acts| - 1]);
      assert (es + [Next(s, acts[|acts| - 1]).1])[..|es|] == es;
    }
  }

  /** The state after m actions of a run. */
  ghost function At<G>(n: nat, acts: seq<Action<G>>, m: nat): (s: State<G>)
    requires m <= |acts|
    ensures |s.buf| == SIZE
  {
    Exec(n, acts[..m]).0
  }

  lemma AtNext<G>(n: nat, acts: seq<Action<G>>, m: nat)
    requires m < |acts|
    ensures At(n, acts, m + 1) == Next(At(n, acts, m), acts[m]).0
  {
    assert acts[..m + 1][..m] == acts[..m];
    hide Next;
  }

  lemma {:induction false} PushesGrow<G>(n: nat, acts: seq<Action<G>>, m: nat)
    requires m <= |acts|
    ensures At(n, acts, m).pushes <= At(n, acts, |acts|).pushes
    decreases |acts| - m
  {
    if m < |acts| {
      AtNext(n, acts, m);
      StepCountsPushes(At(n, acts, m), acts[m]);
      PushesGrow(n, acts, m + 1);
    }
  }

  /** The run has fewer than 2^32 successful pushes. */
  ghost predicate Short<G>(n: nat, acts: seq<Action<G>>) { |PushedBag(Exec(n, acts).1)| < WORD }

  /** The invariant at every point of a run. */
  lemma InvAt<G>(n: nat, acts: seq<Action<G>>, m: nat)
    requires m <= |acts| && Short(n, acts)
    ensures Inv(At(n, acts, m)) && Logged(At(n, acts, m))
  {
    assert acts[..|acts|] == acts;
    PushesGrow(n, acts, m);
    PushesCounted(n, acts);
    PushesCounted(n, acts[..m]);
    hide Exec, PushedBag, Inv, Logged;
    RunConserves(n, acts[..m]);
  }

  /** The index that a steal under way is after: the head that it loaded. */
  function Aim<G>(th: Thief<G>): Option<Word> { if th.Away? then None else Some(th.h) }

  ghost predicate Aims<G>(s: State<G>, i: nat, h: int) { i < |s.thieves| && Aim(s.thieves[i]) == Some(h) }

  /** After m actions thief i is under way with a steal that it began at action k by loading head h. */
  ghost predicate Began<G>(n: nat, acts: seq<Action<G>>, i: nat, h: int, k: nat, m: nat) {
    && k < m <= |acts| && acts[k] == StartSteal(i) && At(n, acts, k).head == h
    && forall j :: k < j <= m ==> Aims(At(n, acts, j), i, h)
  }

  lemma AimMoves<G>(s: State<G>, a: Action<G>, i: nat, h: int)
    requires |s.buf| == SIZE && Aims(Next(s, a).0, i, h)
    ensures Aims(s, i, h) || (a == StartSteal(i) && h == s.head)
  {
  }

  lemma {:induction false} StealBegan<G>(n: nat, acts: seq<Action<G>>, i: nat, h: int, m: nat)
    requires m <= |acts| && Aims(At(n, acts, m), i, h)
    ensures exists k: nat :: Began(n, acts, i, h, k, m)
    decreases m
  {
    if m > 0 {
      AtNext(n, acts, m - 1);
      AimMoves(At(n, acts, m - 1), acts[m - 1], i, h);
      hide At, Aims;
      if Aims(At(n, acts, m - 1), i, h) {
        StealBegan(n, acts, i, h, m - 1);
        var k: nat :| Began(n, acts, i, h, k, m - 1);
        assert Began(n, acts, i, h, k, m);
      } else {
        assert Began(n, acts, i, h, m - 1, m);
      }
    }
  }

  /** The step takes the thread at head: a steal as the oldest, or a pop as the newest. */
  ghost predicate Takes<G>(s: State<G>, a: Action<G>)
    requires |s.buf| == SIZE
  {
    && s.head in s.pushedAt
    && (TakesEffect(s, a) == [StealOldest(s.pushedAt[s.head])] || TakesEffect(s, a) == [PopNewest(s.pushedAt[s.head])])
  }

  /** Who moves head takes the thread there; a thief who does is done. */
  lemma HeadMoverTakes<G>(s: State<G>, a: Action<G>)
    requires Inv(s) && Next(s, a).0.head != s.head
    ensures Takes(s, a) && !a.StartSteal?
    ensures forall i: nat, h: int :: a == ContinueThief(i) ==> !Aims(Next(s, a).0, i, h)
  {
    if a.ContinueThief? { assert ThiefInv(s, s.thieves[a.i]); }
    hide Sub, Signed;
  }

  /** Action m of the run takes the thread at index h. */
  ghost predicate TakenAt<G>(n: nat, acts: seq<Action<G>>, m: nat, h: int) {
    && m < |acts| && At(n, acts, m).head == h && Takes(At(n, acts, m), acts[m])
    && Next(At(n, acts, m), acts[m]).0.head != h
  }

  /** When head has left h, some step took the thread at h. */
  lemma {:induction false} HeadPasses<G>(n: nat, acts: seq<Action<G>>, k: nat, m: nat, h: int)
    requires k <= m <= |acts| && Short(n, acts)
    requires At(n, acts, k).head == h != At(n, acts, m).head
    ensures exists j :: k <= j < m && TakenAt(n, acts, j, h)
    decreases m
  {
    hide At, Inv, Takes, Next, Short;
    AtNext(n, acts, m - 1);
    if At(n, acts, m - 1).head == h {
      InvAt(n, acts, m - 1);
      HeadMoverTakes(At(n, acts, m - 1), acts[m - 1]);
      assert TakenAt(n, acts, m - 1, h);
    } else {
      HeadPasses(n, acts, k, m - 1, h);
    }
  }

  /** Action j, which is not a step of thief i, takes the thread at index h. */
  ghost predicate LostTo<G>(n: nat, acts: seq<Action<G>>, i: nat, h: int, j: nat) {
    && j < |acts| && acts[j] != ContinueThief(i) && TakenAt(n, acts, j, h)
  }

  lemma EmptyHandedThief<G>(s: State<G>, i: nat)
    requires Inv(s) && Logged(s) && i < |s.thieves| && Next(s, ContinueThief(i)).1 == Stolen(i, None)
    ensures !s.thieves[i].Away? && Aims(s, i, s.thieves[i].h)
    ensures s.thieves[i].h == s.head ==> FoundNone(s, i)
  {
    StepRefines(s, ContinueThief(i));
  }

  /** In every run: a steal that comes back empty loaded head h at some action k, and either an operation of
      another participant took the thread at h after that, or it found none there or one being popped. */
  lemma EmptyStealLost<G>(n: nat, acts: seq<Action<G>>, i: nat)
    requires Short(n, acts)
    requires i < |Exec(n, acts).0.thieves| && Next(Exec(n, acts).0, ContinueThief(i)).1 == Stolen(i, None)
    ensures Logged(Exec(n, acts).0)
    ensures exists h: int, k: nat ::
      && Began(n, acts, i, h, k, |acts|)
      && ((exists j :: k < j < |acts| && LostTo(n, acts, i, h, j)) || FoundNone(Exec(n, acts).0, i))
  {
    assert acts[..|acts|] == acts;
    var s := Exec(n, acts).0;
    assert At(n, acts, |acts|) == s;
    InvAt(n, acts, |acts|);
    EmptyHandedThief(s, i);
    hide At, Exec, Inv, Next, Short, FoundNone, Aims;
    var h: int := s.thieves[i].h;
    StealBegan(n, acts, i, h, |acts|);
    var k: nat :| Began(n, acts, i, h, k, |acts|);
    if s.head != h {
      HeadPasses(n, acts, k, |acts|, h);
      var j :| k <= j < |acts| && TakenAt(n, acts, j, h);
      NotItself(n, acts, i, h, k, j);
      assert LostTo(n, acts, i, h, j);
    }
  }

  lemma NotItself<G>(n: nat, acts: seq<Action<G>>, i: nat, h: int, k: nat, j: nat)
    requires Short(n, acts) && Began(n, acts, i, h, k, |acts|) && k <= j < |acts| && TakenAt(n, acts, j, h)
    ensures j != k && acts[j] != ContinueThief(i)
  {
    hide At, Inv, Takes, Next, Short, Aims;
    InvAt(n, acts, j);
    AtNext(n, acts, j);
    HeadMoverTakes(At(n, acts, j), acts[j]);
  }

  // ---------- Every operation returns ----------

  /** A schedule from any state. */
  function From<G>(s: State<G>, acts: seq<Action<G>>): (r: (State<G>, seq<Event<G>>))
    requires |s.buf| == SIZE
    ensures |r.0.buf| == SIZE && |r.1| == |acts|
    decreases acts
  {
    if acts == [] then (s, [])
    else
      var (s', e) := Next(s, acts[0]);
      var (t, es) := From(s', acts[1..]);
      (t, [e] + es)
  }

  /** How many more steps the owner's operation may take, and a thief's. */
  function OwnerSteps<G>(o: Owner<G>): nat {
    match o
    case Idle => 0
    case PushWritten(_, _) => 1
    case PopEmpty(_) => 1
    case PopResolved(_, _) => 1
    case PushGotHead(_, _) => 2
    case PopRead(_, _, _) => 2
    case PushGotTail(_, _) => 3
    case PopGotHead(_, _) => 3
    case PopTailStored(_) => 4
    case PopGotTail(_) => 5
  }

  function ThiefSteps<G>(th: Thief<G>): nat {
    match th case Away => 0 case ReadSlot(_, _) => 1 case GotTail(_) => 2 case GotHead(_) => 3
  }

  predicate OwnerReturns<G>(e: Event<G>) { e.Pushed? || e.PushFull? || e.Popped? }

  predicate ThiefReturns<G>(e: Event<G>, i: nat) { e.Stolen? && e.thief == i }

  function Steps<G>(acts: seq<Action<G>>, a: Action<G>): nat
    decreases acts
  {
    if acts == [] then 0 else (if SameMover(acts[0], a) then 1 else 0) + Steps(acts[1..], a)
  }

  predicate SameMover<G>(a: Action<G>, b: Action<G>) {
    (a.ContinueOwner? && b.ContinueOwner?) || (a.ContinueThief? && b.ContinueThief? && a.i == b.i)
  }

  lemma OwnerAdvances<G>(s: State<G>, a: Action<G>)
    requires |s.buf| == SIZE && !s.owner.Idle?
    ensures var (s', e) := Next(s, a);
      && (a.ContinueOwner? ==> OwnerSteps(s'.owner) < OwnerSteps(s.owner) && (s'.owner.Idle? <==> OwnerReturns(e)))
      && (!a.ContinueOwner? ==> s'.owner == s.owner && !OwnerReturns(e))
  {
  }

  lemma ThiefAdvances<G>(s: State<G>, a: Action<G>, i: nat)
    requires |s.buf| == SIZE && i < |s.thieves| && !s.thieves[i].Away?
    ensures var (s', e) := Next(s, a);
      && i < |s'.thieves|
      && (a == ContinueThief(i) ==>
            ThiefSteps(s'.thieves[i]) < ThiefSteps(s.thieves[i]) && (s'.thieves[i].Away? <==> ThiefReturns(e, i)))
      && (a != ContinueThief(i) ==> s'.thieves[i] == s.thieves[i])
  {
  }

  /** A push returns after at most three steps of its owner and a pop after at most five, whatever thieves do in
      between. */
  lemma {:induction false} OwnerIsWaitFree<G>(s: State<G>, acts: seq<Action<G>>)
    requires |s.buf| == SIZE && !s.owner.Idle? && Steps(acts, ContinueOwner) >= OwnerSteps(s.owner)
    ensures exists j :: 0 <= j < |acts| && OwnerReturns(From(s, acts).1[j])
    decreases acts
  {
    OwnerAdvances(s, acts[0]);
    var (s', e) := Next(s, acts[0]);
    if OwnerReturns(e) {
      assert OwnerReturns(From(s, acts).1[0]);
    } else {
      OwnerIsWaitFree(s', acts[1..]);
      var j :| 0 <= j < |acts| - 1 && OwnerReturns(From(s', acts[1..]).1[j]);
      assert OwnerReturns(From(s, acts).1[j + 1]);
    }
  }

  /** A steal returns after at most three more steps of its thief. */
  lemma {:induction false} StealIsWaitFree<G>(s: State<G>, acts: seq<Action<G>>, i: nat)
    requires |s.buf| == SIZE && i < |s.thieves| && !s.thieves[i].Away?
    requires Steps(acts, ContinueThief(i)) >= ThiefSteps(s.thieves[i])
    ensures exists j :: 0 <= j < |acts| && ThiefReturns(From(s, acts).1[j], i)
    decreases acts
  {
    ThiefAdvances(s, acts[0], i);
    var (s', e) := Next(s, acts[0]);
    if ThiefReturns(e, i) {
      assert ThiefReturns(From(s, acts).1[0], i);
    } else {
      StealIsWaitFree(s', acts[1..], i);
      var j :| 0 <= j < |acts| - 1 && ThiefReturns(From(s', acts[1..]).1[j], i);
      assert ThiefReturns(From(s, acts).1[j + 1], i);
    }
  }

  // ---------- Operations that nobody disturbs ----------

  /** What is returned to callers. */
  function Returns<G>(es: seq<Event<G>>): seq<Event<G>> {
    if es == [] then [] else (if es[0].Silent? then [] else [es[0]]) + Returns(es[1..])
  }

  /** k more steps of an operation under way. */
  function More<G>(a: Action<G>, k: nat): seq<Action<G>> { if k == 0 then [] else [a] + More(a, k - 1) }

  /** A schedule that begins with a and leaves s' and what it returns. */
  ghost predicate Leaves<G>(s: State<G>, acts: seq<Action<G>>, s': State<G>, returned: seq<Event<G>>)
    requires |s.buf| == SIZE
  {
    From(s, acts).0 == s' && Returns(From(s, acts).1) == returned
  }

  lemma OneStep<G>(s: State<G>, a: Action<G>, acts: seq<Action<G>>, s': State<G>, returned: seq<Event<G>>)
    requires |s.buf| == SIZE && Leaves(Next(s, a).0, acts, s', returned)
    ensures Leaves(s, [a] + acts, s', (if Next(s, a).1.Silent? then [] else [Next(s, a).1]) + returned)
  {
    assert ([a] + acts)[1..] == acts;
    var (t, e) := Next(s, a);
    assert ([e] + From(t, acts).1)[1..] == From(t, acts).1;
    hide Next;
  }

  /** A first step that nobody sees, and one that returns. */
  lemma Quiet<G>(s: State<G>, a: Action<G>, t: State<G>, acts: seq<Action<G>>, s': State<G>, e: Event<G>)
    requires |s.buf| == SIZE && Next(s, a) == (t, Silent) && Leaves(t, acts, s', [e])
    ensures Leaves(s, [a] + acts, s', [e])
  {
    OneStep(s, a, acts, s', [e]);
    assert [] + [e] == [e];
  }

  lemma Answers<G>(s: State<G>, a: Action<G>, e: Event<G>, s': State<G>, k: nat)
    requires |s.buf| == SIZE && Next(s, a) == (s', e) && !e.Silent? && (k > 0 ==> s'.owner.Idle?)
    ensures Leaves(s, [a] + More(ContinueOwner, k), s', [e])
    ensures k == 0 ==> Leaves(s, [a] + More(a, k), s', [e])
  {
    NothingMore(s', k);
    OneStep(s, a, More(ContinueOwner, k), s', []);
    assert [e] + [] == [e];
  }

  lemma {:induction false} NothingMore<G>(s: State<G>, k: nat)
    requires |s.buf| == SIZE && (k > 0 ==> s.owner.Idle?)
    ensures Leaves(s, More(ContinueOwner, k), s, [])
  {
    if k > 0 {
      NothingMore(s, k - 1);
      OneStep(s, ContinueOwner, More(ContinueOwner, k - 1), s, []);
    }
  }

  lemma MoreIs<G>(a: Action<G>)
    ensures More(a, 5) == [a] + More(a, 4) && More(a, 4) == [a] + More(a, 3) && More(a, 3) == [a] + More(a, 2)
    ensures More(a, 2) == [a] + More(a, 1) && More(a, 1) == [a] + More(a, 0) && More(a, 0) == []
  {
  }

  /** A thief that has the oldest thread's slot in view takes it with its CAS. */
  lemma SoloCas<G>(s: State<G>, i: nat)
    requires Inv(s) && Logged(s) && i < |s.thieves| && s.thieves[i].ReadSlot? && s.thieves[i].h == s.head
    ensures Logged(Next(s, ContinueThief(i)).0) && Items(s) != []
    ensures Next(s, ContinueThief(i)).1 == Stolen(i, Some(Items(s)[0]))
    ensures Items(Next(s, ContinueThief(i)).0) == Items(s)[1..]
  {
    assert ThiefInv(s, s.thieves[i]);
    RangeShape(s.pushedAt, s.head, LogicalTail(s));
    StepRefines(s, ContinueThief(i));
    hide Range, Inv, LogicalTail;
  }

  lemma StealPath<G>(s: State<G>, i: nat)
    requires |s.buf| == SIZE && i < |s.thieves| && s.thieves[i].Away? && s.head < s.tail <= s.head + SIZE
    ensures var c: Action<G> := ContinueThief(i);
      var s3 := s.(thieves := s.thieves[i := ReadSlot(s.head, s.buf[s.head % SIZE])]);
      && Next(Next(Next(s, StartSteal(i)).0, c).0, c).0 == s3
      && (Next(s3, c).1.Stolen? ==> Leaves(s, [StartSteal(i)] + More(c, 3), Next(s3, c).0, [Next(s3, c).1]))
  {
    var c: Action<G> := ContinueThief(i);
    WordComparisonsAgree(s.tail, s.head);
    hide Sub, Signed;
    var s1 := s.(thieves := s.thieves[i := GotHead(s.head)]);
    var s2 := s.(thieves := s.thieves[i := GotTail(s.head)]);
    var s3 := s.(thieves := s.thieves[i := ReadSlot(s.head, s.buf[s.head % SIZE])]);
    assert s1.thieves[i := GotTail(s.head)] == s2.thieves && s2.thieves[i := s3.thieves[i]] == s3.thieves;
    assert Next(s, StartSteal(i)) == (s1, Silent) && Next(s1, c) == (s2, Silent) && Next(s2, c) == (s3, Silent);
    hide Next, Leaves;
    MoreIs(c);
    hide More;
    var (s4, e) := Next(s3, c);
    if e.Stolen? {
      Answers(s3, c, e, s4, 0);
      Quiet(s2, c, s3, More(c, 1), s4, e);
      Quiet(s1, c, s2, More(c, 2), s4, e);
      Quiet(s, StartSteal(i), s1, More(c, 3), s4, e);
    }
  }

  /** A steal from a queue with threads and no pop under way, which nobody disturbs, returns the oldest thread and
      removes it. */
  lemma SoloSteal<G>(s: State<G>, i: nat)
    requires Inv(s) && Logged(s) && s.owner.Idle? && i < |s.thieves| && s.thieves[i].Away? && Items(s) != []
    ensures var (t, es) := From(s, [StartSteal(i)] + More(ContinueThief(i), 3));
      Logged(t) && Returns(es) == [Stolen(i, Some(Items(s)[0]))] && Items(t) == Items(s)[1..]
  {
    var c: Action<G> := ContinueThief(i);
    RangeShape(s.pushedAt, s.head, s.tail);
    var s3 := s.(thieves := s.thieves[i := ReadSlot(s.head, s.buf[s.head % SIZE])]);
    StealPath(s, i);
    StepRefines(s, StartSteal(i));
    StepRefines(Next(s, StartSteal(i)).0, c);
    StepRefines(Next(Next(s, StartSteal(i)).0, c).0, c);
    SameItems(s, s3);
    hide Next, Inv, Items, AbstractStep;
    SoloCas(s3, i);
  }

  lemma SameItems<G>(s: State<G>, s': State<G>)
    requires s'.head == s.head && s'.tail == s.tail && s'.owner == s.owner && s'.pushedAt == s.pushedAt && Logged(s)
    ensures Logged(s') && Items(s') == Items(s)
  {
  }

  lemma PushPath<G>(s: State<G>, g: G)
    requires |s.buf| == SIZE && s.owner.Idle?
    ensures var acts := [StartPush(g)] + More(ContinueOwner, 3);
      if Sub(s.tail, s.head) >= SIZE then Leaves(s, acts, s, [PushFull(g)])
      else
        var s3 := s.(buf := s.buf[s.tail % SIZE := Some(g)], owner := PushWritten(g, s.tail));
        Leaves(s, acts, Next(s3, ContinueOwner).0, [Pushed(g)])
  {
    var c: Action<G> := ContinueOwner;
    var s1 := s.(owner := PushGotTail(g, s.tail));
    var s2 := s.(owner := PushGotHead(g, s.tail));
    var s3 := s.(buf := s.buf[s.tail % SIZE := Some(g)], owner := PushWritten(g, s.tail));
    assert Next(s, StartPush(g)) == (s1, Silent);
    MoreIs(c);
    hide Leaves, More, Sub;
    if Sub(s.tail, s.head) >= SIZE {
      Answers(s1, c, PushFull(g), s, 2);
      Quiet(s, StartPush(g), s1, More(c, 3), s, PushFull(g));
    } else {
      var s4 := Next(s3, c).0;
      Answers(s3, c, Pushed(g), s4, 0);
      Quiet(s2, c, s3, More(c, 1), s4, Pushed(g));
      Quiet(s1, c, s2, More(c, 2), s4, Pushed(g));
      Quiet(s, StartPush(g), s1, More(c, 3), s4, Pushed(g));
    }
  }

  /** A push that nobody disturbs appends its thread, or is refused by a full queue. */
  lemma SoloPush<G>(s: State<G>, g: G)
    requires Inv(s) && Logged(s) && s.owner.Idle? && s.pushes + 1 < WORD
    ensures var (t, es) := From(s, [StartPush(g)] + More(ContinueOwner, 3));
      && Logged(t)
      && (if |Items(s)| < SIZE then Returns(es) == [Pushed(g)] && Items(t) == Items(s) + [g]
          else Returns(es) == [PushFull(g)] && Items(t) == Items(s))
  {
    PushPath(s, g);
    IdleFull(s);
    PushedRange(s.pushedAt, s.head, s.tail, g);
    hide Range, Inv, From, Returns, More, Sub, Inc, LoggedRange;
  }

  lemma IdleFull<G>(s: State<G>)
    requires Inv(s) && Logged(s) && s.owner.Idle? && s.pushes + 1 < WORD
    ensures Sub(s.tail, s.head) >= SIZE <==> |Items(s)| >= SIZE
    ensures s.head <= s.tail && Inc(s.tail) == s.tail + 1
  {
    RangeShape(s.pushedAt, s.head, s.tail);
    WordComparisonsAgree(s.tail, s.head);
  }

  lemma PushedRange<G>(m: map<int, G>, lo: int, hi: int, g: G)
    requires LoggedRange(m, lo, hi) && lo <= hi
    ensures LoggedRange(m[hi := g], lo, hi + 1) && Range(m[hi := g], lo, hi + 1) == Range(m, lo, hi) + [g]
  {
    RangeFrame(m, m[hi := g], lo, hi);
  }

  lemma PopStarts<G>(s: State<G>, s': State<G>, e: Event<G>)
    requires |s.buf| == SIZE && s.owner.Idle? && s.tail > 0
    requires var t := s.tail - 1; Leaves(s.(tail := t, owner := PopTailStored(t)), More(ContinueOwner, 4), s', [e])
    ensures Leaves(s, [StartPop] + More(ContinueOwner, 5), s', [e])
  {
    var c: Action<G> := ContinueOwner;
    var t := s.tail - 1;
    MoreIs(c);
    hide Leaves, More;
    Quiet(s.(owner := PopGotTail(t)), c, s.(tail := t, owner := PopTailStored(t)), More(c, 4), s', e);
    Quiet(s, StartPop, s.(owner := PopGotTail(t)), More(c, 5), s', e);
  }

  lemma PopOfNone<G>(s: State<G>)
    requires |s.buf| == SIZE && s.owner.Idle? && s.tail == s.head
    ensures Leaves(s, [StartPop] + More(ContinueOwner, 5), s, [Popped(None)])
  {
    var c: Action<G> := ContinueOwner;
    if s.tail == 0 {
      Answers(s, StartPop, Popped(None), s, 5);
    } else {
      var t: Word := s.tail - 1;
      var s2 := s.(tail := t, owner := PopTailStored(t));
      var s3 := s.(tail := t, owner := PopEmpty(t));
      WordComparisonsAgree(t, s.head);
      MoreIs(c);
      hide Leaves, More, Sub, Signed;
      Answers(s3, c, Popped(None), s, 2);
      Quiet(s2, c, s3, More(c, 3), s, Popped(None));
      PopStarts(s, s, Popped(None));
    }
  }

  lemma PopOfLast<G>(s: State<G>)
    requires |s.buf| == SIZE && s.owner.Idle? && s.tail == s.head + 1 && SlotHolds(s, s.head)
    ensures Leaves(s, [StartPop] + More(ContinueOwner, 5), s.(head := s.tail), [Popped(Some(s.pushedAt[s.head]))])
  {
    var c: Action<G> := ContinueOwner;
    var t: Word := s.head;
    var g := s.buf[t % SIZE];
    var s2 := s.(tail := t, owner := PopTailStored(t));
    var s3, s4 := s2.(owner := PopGotHead(t, t)), s2.(owner := PopRead(t, t, g));
    var s5, s6 := s2.(head := s.tail, owner := PopResolved(t, g)), s.(head := s.tail);
    WordComparisonsAgree(t, t);
    MoreIs(c);
    assert g == Some(s.pushedAt[t]);
    hide Leaves, More, Sub, Signed, SlotHolds;
    var e := Popped(g);
    Answers(s5, c, e, s6, 0);
    Quiet(s4, c, s5, More(c, 1), s6, e);
    Quiet(s3, c, s4, More(c, 2), s6, e);
    Quiet(s2, c, s3, More(c, 3), s6, e);
    PopStarts(s, s6, e);
  }

  lemma PopOfMany<G>(s: State<G>)
    requires |s.buf| == SIZE && s.owner.Idle? && s.head + 1 < s.tail <= s.head + SIZE && SlotHolds(s, s.tail - 1)
    ensures Leaves(s, [StartPop] + More(ContinueOwner, 5), s.(tail := s.tail - 1),
                   [Popped(Some(s.pushedAt[s.tail - 1]))])
  {
    var c: Action<G> := ContinueOwner;
    var t: Word := s.tail - 1;
    var g := s.buf[t % SIZE];
    var s2 := s.(tail := t, owner := PopTailStored(t));
    var s3, s4 := s2.(owner := PopGotHead(t, s.head)), s2.(owner := PopRead(t, s.head, g));
    var s5 := s.(tail := t);
    WordComparisonsAgree(t, s.head);
    MoreIs(c);
    assert g == Some(s.pushedAt[t]);
    hide Leaves, More, Sub, Signed, SlotHolds;
    var e := Popped(g);
    Answers(s4, c, e, s5, 1);
    Quiet(s3, c, s4, More(c, 2), s5, e);
    Quiet(s2, c, s3, More(c, 3), s5, e);
    PopStarts(s, s5, e);
  }

  lemma IdleNewest<G>(s: State<G>)
    requires Inv(s) && s.owner.Idle?
    ensures |s.buf| == SIZE && s.head <= s.tail <= s.head + SIZE
    ensures s.head < s.tail ==> SlotHolds(s, s.tail - 1)
  {
    if s.head < s.tail { assert SlotHolds(s, s.tail - 1); }
  }

  /** Returns the newest thread and removes it, or finds the queue empty. */
  ghost predicate PopsNewest<G>(s: State<G>, t: State<G>, returned: seq<Event<G>>)
    requires Logged(s)
  {
    && Logged(t)
    && (if Items(s) == [] then returned == [Popped(None)] && Items(t) == []
        else returned == [Popped(Some(Items(s)[|Items(s)| - 1]))] && Items(t) == Items(s)[..|Items(s)| - 1])
  }

  lemma PopsLast<G>(s: State<G>)
    requires Logged(s) && s.owner.Idle? && s.tail == s.head + 1 && s.head in s.pushedAt
    ensures PopsNewest(s, s.(head := s.tail), [Popped(Some(s.pushedAt[s.head]))])
  {
    NoneLoggedRange(s.pushedAt, s.tail);
    IdleItems(s);
    IdleItems(s.(head := s.tail));
    ButLast(Items(s), [], s.pushedAt[s.head]);
  }

  lemma PopsOne<G>(s: State<G>)
    requires Logged(s) && s.owner.Idle? && s.head + 1 < s.tail
    ensures s.tail - 1 in s.pushedAt
    ensures PopsNewest(s, s.(tail := s.tail - 1), [Popped(Some(s.pushedAt[s.tail - 1]))])
  {
    IdleItems(s);
    IdleItems(s.(tail := s.tail - 1));
    ButLast(Items(s), Range(s.pushedAt, s.head, s.tail - 1), s.pushedAt[s.tail - 1]);
    hide Range;
  }

  /** What a pop that nobody disturbs does. */
  lemma SoloPop<G>(s: State<G>)
    requires Inv(s) && Logged(s) && s.owner.Idle?
    ensures var (t, es) := From(s, [StartPop] + More(ContinueOwner, 5)); PopsNewest(s, t, Returns(es))
  {
    IdleNewest(s);
    hide Inv, From, Returns, More, LoggedRange;
    if s.head == s.tail {
      PopOfNone(s);
      IdleItems(s);
    } else {
      hide PopsNewest, Logged;
      if s.head + 1 == s.tail {
        assert SlotHolds(s, s.head);
        PopOfLast(s);
        PopsLast(s);
      } else {
        PopOfMany(s);
        PopsOne(s);
      }
    }
  }

  lemma ButLast<G>(q: seq<G>, r: seq<G>, g: G)
    requires q == r + [g]
    ensures q != [] && q[|q| - 1] == g && q[..|q| - 1] == r
  {
  }

  lemma NoneLoggedRange<G>(m: map<int, G>, lo: int)
    ensures LoggedRange(m, lo, lo)
  {
  }

  /** An idle queue as the slots from head to tail. */
  lemma IdleItems<G>(s: State<G>)
    requires s.owner.Idle? && s.head <= s.tail && LoggedRange(s.pushedAt, s.head, s.tail)
    ensures Logged(s) && Items(s) == Range(s.pushedAt, s.head, s.tail)
    ensures s.head == s.tail ==> Items(s) == []
    ensures s.head < s.tail ==>
      && LoggedRange(s.pushedAt, s.head, s.tail - 1) && s.tail - 1 in s.pushedAt
      && Items(s) == Range(s.pushedAt, s.head, s.tail - 1) + [s.pushedAt[s.tail - 1]]
    ensures s.head + 1 == s.tail ==> Range(s.pushedAt, s.head, s.tail - 1) == []
  {
  }
}
