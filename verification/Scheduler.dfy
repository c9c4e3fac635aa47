/** The single-P runtime on its real data structures: the ring of the local queue, the linked global queue, and
    channel objects with linked wait queues, all over the same thread nodes.  Each runtime call is proved to be
    one step of the state machine in `SchedulerSpec`, which gives it that module's invariant; the invariant in
    turn is what makes the calls safe, since it says that a node is never in two queues at once. */
module Scheduler {
  import opened Options
  import opened GQueues
  import opened LocalQueue
  import opened Channel
  import opened SchedulerSpec
  import opened RuntimeParts
  import C = ChanSpec

  class Runtime<T(0)> {
    const zero: T
    const local: RunQueue<G<T>>
    const global: GQueue<T>
    var chans: seq<Chan<T>>
    var current: G?<T>
    var live: int
    var nextId: nat
    var hasP: bool
    var phase: Phase
    /** The threads ever spawned, by id and as a set, and all the objects of the runtime. */
    ghost var threads: map<nat, G<T>>
    ghost var all: set<G<T>>
    ghost var repr: set<object>

    ghost predicate Valid(s: Sys<T>)
      reads this, repr
    {
      Rep(s) && Inv(s)
    }

    /** The object is in state s. */
    ghost predicate Rep(s: Sys<T>)
      reads this, repr
    {
      && Owned() && Apart() && Scalars(s)
      && ThreadsHold(threads, all, s.status, s.panics) && CellsHold(threads, all, s.inbox, zero)
      && Known(threads, local.items) && RingHolds(local, s.local, s.base)
      && Known(threads, global.nodes) && QueueHolds(global, s.global)
      && ChansKnown() && ChansHold(s.chans)
    }

    ghost predicate ChansKnown()
      reads this, repr
      requires Owned()
    {
      forall i :: 0 <= i < |chans| ==> Known(threads, chans[i].sendQ.nodes) && Known(threads, chans[i].recvQ.nodes)
    }

    ghost predicate ChansHold(vals: seq<C.Chan<T>>)
      reads this, repr
      requires Owned() && ChansKnown()
    {
      |vals| == |chans| && forall i :: 0 <= i < |chans| ==> ChanHolds(chans[i], vals[i])
    }

    ghost predicate Owned()
      reads this`repr, this`threads, this`chans, this`all
    {
      && {this, local, local.buf, global} <= repr && all <= repr
      && (forall k :: k in threads ==> threads[k] in repr)
      && (forall i :: 0 <= i < |chans| ==> OwnedChan(chans[i]))
    }

    ghost predicate OwnedChan(c: Chan<T>)
      reads this`repr
    {
      {c, c.buffer, c.sendQ, c.recvQ} <= repr && c.zero == zero
    }

    ghost predicate Apart()
      reads this`chans
    {
      && (forall i, j :: 0 <= i < j < |chans| ==> Separate(chans[i], chans[j]))
      && (forall i :: 0 <= i < |chans| ==> ApartChan(chans[i]))
    }

    ghost predicate ApartChan(c: Chan<T>) {
      c.sendQ != global && c.recvQ != global && (c.buffer as object) != (local.buf as object)
    }

    ghost predicate Scalars(s: Sys<T>)
      reads this
    {
      && s.live == live && s.nextId == nextId && s.hasP == hasP && s.phase == phase
      && s.current == (if current == null then None else Some(current.id))
      && (current != null ==> Known(threads, [current]))
    }

    constructor (zero: T)
      ensures Valid(Init()) && fresh(repr) && this.zero == zero
    {
      this.zero := zero;
      var l := new RunQueue<G<T>>();
      var q := new GQueue<T>();
      local, global := l, q;
      chans, current, live, nextId, hasP, phase := [], null, 0, 1, true, InMain;
      threads, all := map[], {};
      repr := {this, l, l.buf, q};
      new;
      RunKeeps<T>([]);
      hide Inv;
    }

    // ---------- Which nodes are where ----------

    /** The nodes of the global queue are in no wait queue. */
    ghost predicate Alone()
      reads this, repr
      requires Owned()
    {
      forall i :: 0 <= i < |chans| ==>
        Disjoint(global.nodes, chans[i].sendQ.nodes) && Disjoint(global.nodes, chans[i].recvQ.nodes)
    }

    /** g is in no linked queue. */
    ghost predicate Homeless(g: G<T>)
      reads this, repr
      requires Owned()
    {
      && Absent(g, global.nodes)
      && forall i :: 0 <= i < |chans| ==> Absent(g, chans[i].sendQ.nodes) && Absent(g, chans[i].recvQ.nodes)
    }

    /** The wait queues of channel i hold the waiters of its value. */
    lemma WaitersAre(s: Sys<T>, i: nat, x: nat)
      requires Rep(s) && i < |chans|
      ensures Count(Ids(chans[i].sendQ.nodes), x) + Count(Ids(chans[i].recvQ.nodes), x) == CountWaiting(s.chans[i], x)
    {
      var c := chans[i];
      assert ChanHolds(c, s.chans[i]);
      IdsAre(Offers(c.sendQ.nodes), c.sendQ.nodes);
    }

    lemma WaitersCounted(s: Sys<T>, i: nat, x: nat)
      requires Rep(s) && i < |chans|
      ensures Count(Ids(chans[i].sendQ.nodes), x) + Count(Ids(chans[i].recvQ.nodes), x) <= CountBlocked(s.chans, x)
    {
      WaitingOnce(s.chans, i, i, x);
      WaitersAre(s, i, x);
    }

    /** Since every thread is in one place only, the queues share no node. */
    lemma GlobalAlone(s: Sys<T>, f: seq<nat>)
      requires Rep(s) && Core(s, f)
      ensures Alone()
    {
      forall i | 0 <= i < |chans|
        ensures Disjoint(global.nodes, chans[i].sendQ.nodes) && Disjoint(global.nodes, chans[i].recvQ.nodes) {
        forall x: nat ensures Count(Ids(global.nodes), x) == 0 ||
          Count(Ids(chans[i].sendQ.nodes), x) + Count(Ids(chans[i].recvQ.nodes), x) == 0 {
          WaitersCounted(s, i, x);
          assert Placed(s, f, x);
        }
        NoShare(global.nodes, chans[i].sendQ.nodes);
        NoShare(global.nodes, chans[i].recvQ.nodes);
      }
    }

    /** A thread that is current, or that has left its wait queue. */
    lemma IsHomeless(s: Sys<T>, f: seq<nat>, g: G<T>)
      requires Rep(s) && Core(s, f) && (g == current || Count(f, g.id) > 0)
      ensures Homeless(g)
    {
      assert Placed(s, f, g.id);
      NotQueued(global.nodes, g);
      forall i | 0 <= i < |chans| ensures Absent(g, chans[i].sendQ.nodes) && Absent(g, chans[i].recvQ.nodes) {
        WaitersCounted(s, i, g.id);
        NotQueued(chans[i].sendQ.nodes, g);
        NotQueued(chans[i].recvQ.nodes, g);
      }
    }

    /** Every object that the calls write to is one of the runtime's. */
    lemma Footprint(s: Sys<T>)
      requires Rep(s)
      ensures {this, local, local.buf, global} <= repr
      ensures forall i :: 0 <= i < |global.nodes| ==> global.nodes[i] in repr
      ensures s.live == live && s.phase == phase && s.hasP == hasP
      ensures s.current == (if current == null then None else Some(current.id))
      ensures current != null ==> current in repr && Known(threads, [current])
    {
      if current != null { assert [current][0] == current; }
    }

    lemma InRepr(s: Sys<T>, g: G<T>)
      requires Rep(s) && Known(threads, [g])
      ensures g in repr
    {
      assert [g][0] == g;
    }

    lemma WaitersApart(s: Sys<T>, f: seq<nat>, i: nat, j: nat, x: nat)
      requires Rep(s) && Core(s, f) && i < |chans| && j < |chans| && i != j
      ensures Count(Ids(chans[i].sendQ.nodes), x) + Count(Ids(chans[i].recvQ.nodes), x) == 0
           || Count(Ids(chans[j].sendQ.nodes), x) + Count(Ids(chans[j].recvQ.nodes), x) == 0
    {
      WaitersAre(s, i, x);
      WaitersAre(s, j, x);
      assert |s.chans| == |chans|;
      hide Rep;
      WaitingOnce(s.chans, i, j, x);
      assert Placed(s, f, x);
    }

    /** The waiters of one channel wait on no other. */
    lemma ChannelsAlone(s: Sys<T>, f: seq<nat>, i: nat, j: nat)
      requires Rep(s) && Core(s, f) && i < |chans| && j < |chans| && i != j
      ensures NoneShared(chans[i], chans[j])
    {
      hide Rep, Core, Ids, Count;
      var c, d := chans[i], chans[j];
      forall x: nat ensures Count(Ids(c.sendQ.nodes), x) + Count(Ids(c.recvQ.nodes), x) == 0 ||
        Count(Ids(d.sendQ.nodes), x) + Count(Ids(d.recvQ.nodes), x) == 0 {
        WaitersApart(s, f, i, j, x);
      }
      NoShare(c.sendQ.nodes, d.sendQ.nodes);
      NoShare(c.sendQ.nodes, d.recvQ.nodes);
      NoShare(c.recvQ.nodes, d.sendQ.nodes);
      NoShare(c.recvQ.nodes, d.recvQ.nodes);
    }

    // ---------- Run queues ----------

    method PushGlobal(g: G<T>, ghost s: Sys<T>)
      requires Rep(s) && Known(threads, [g]) && Homeless(g) && Alone()
      modifies global, global.nodes`next, g`next
      ensures Rep(s.(global := s.global + [g.id]))
    {
      hide Chained, Ids, ThreadsHold, CellsHold, RingHolds, ChanHolds;
      global.Push(g);
      IdsAppend(old(global.nodes), g);
      assert ChansHold(s.chans) by {
        forall i | 0 <= i < |chans| ensures ChanHolds(chans[i], s.chans[i]) {
          assert ApartChan(chans[i]) && old(ChanHolds(chans[i], s.chans[i]));
        }
      }
    }

    /** Pushes onto the ring if there is room. */
    method PushRing(g: G<T>, ghost s: Sys<T>) returns (ok: bool)
      requires Rep(s) && Known(threads, [g])
      modifies local`tail, local`items, local.buf
      ensures ok == (|s.local| < D.SIZE) && Rep(if ok then s.(local := s.local + [g.id]) else s)
      ensures old(Alone() && Homeless(g)) ==> Alone() && Homeless(g)
    {
      hide Ring, W, Ids, ThreadsHold, CellsHold, QueueHolds, ChanHolds;
      ok := local.Push(g);
      if ok { IdsAppend(old(local.items), g); }
      assert ChansHold(s.chans) by {
        forall i | 0 <= i < |chans| ensures ChanHolds(chans[i], s.chans[i]) {
          assert ApartChan(chans[i]) && old(ChanHolds(chans[i], s.chans[i]));
        }
      }
    }

    /** run_local_push_or_global */
    method PushLocalOrGlobal(g: G<T>, ghost s: Sys<T>)
      requires Rep(s) && Known(threads, [g]) && Homeless(g) && Alone()
      modifies local`tail, local`items, local.buf, global, global.nodes`next, g`next
      ensures Rep(PushLocal(s, g.id))
    {
      assert |s.local| == |s.local + [g.id]| - 1;
      hide Rep, Known, Alone, Homeless;
      var ok := PushRing(g, s);
      if !ok {
        PushGlobal(g, s);
      }
    }

    /** The ring's own part of a pop. */
    method PopItem(ghost s: Sys<T>) returns (g: G?<T>)
      requires RingHolds(local, s.local, s.base) && Known(threads, local.items)
      modifies local
      ensures g == null <==> s.local == [] || TailReadsZero(s)
      ensures var t := if g == null then s else PopLocal(s); RingHolds(local, t.local, t.base)
      ensures Known(threads, local.items)
      ensures g != null ==> Known(threads, [g]) && g.id == s.local[|s.local| - 1]
    {
      ghost var items := local.items;
      assert local.tail == (local.base + |items|) % D.WORD;
      hide W, Ring, Ids;
      var r := local.Pop();
      if r.Some? { IdsButLast(items); }
      g := if r.Some? then r.value else null;
    }

    method PopRing(ghost s: Sys<T>) returns (g: G?<T>)
      requires Rep(s)
      modifies local
      ensures g == null <==> s.local == [] || TailReadsZero(s)
      ensures g == null ==> Rep(s)
      ensures g != null ==> Known(threads, [g]) && g.id == s.local[|s.local| - 1] && Rep(PopLocal(s))
    {
      hide RingHolds, ThreadsHold, CellsHold, QueueHolds, ChanHolds, Known;
      g := PopItem(s);
      assert ChansHold(s.chans) by {
        forall i | 0 <= i < |chans| ensures ChanHolds(chans[i], s.chans[i]) {
          assert ApartChan(chans[i]) && old(ChanHolds(chans[i], s.chans[i]));
        }
      }
    }

    method PopGlobal(ghost s: Sys<T>) returns (g: G?<T>)
      requires Rep(s) && Alone()
      modifies global, global.nodes`next
      ensures g == null <==> s.global == []
      ensures g == null ==> Rep(s)
      ensures g != null ==> Known(threads, [g]) && g.id == s.global[0] && Rep(s.(global := s.global[1..]))
    {
      hide Chained, Ids, ThreadsHold, CellsHold, RingHolds, ChanHolds;
      ghost var nodes := global.nodes;
      g := global.Pop();
      if g != null { IdsRest(nodes); }
      assert ChansHold(s.chans) by {
        forall i | 0 <= i < |chans| ensures ChanHolds(chans[i], s.chans[i]) {
          assert ApartChan(chans[i]) && old(ChanHolds(chans[i], s.chans[i]));
        }
      }
    }

    /** run_find_runnable without pollers and with no other P to steal from. */
    method FindRunnableThread(ghost s: Sys<T>) returns (g: G?<T>)
      requires Rep(s) && Alone()
      modifies local, global, global.nodes`next
      ensures Rep(FindRunnable(s).0)
      ensures FindRunnable(s).1 == if g == null then None else Some(g.id)
      ensures g != null ==> Known(threads, [g])
    {
      g := PopRing(s);
      if g == null {
        g := PopGlobal(s);
      }
    }

    // ---------- Single fields ----------

    method SetStatus(g: G<T>, status: Status, ghost s: Sys<T>)
      requires Rep(s) && Known(threads, [g])
      modifies g`status
      ensures Rep(s.(status := s.status[g.id := status]))
    {
      assert [g][0] == g;
      hide CellsHold, RingHolds, QueueHolds, ChanHolds, Known, Absent, Disjoint, Apart, OwnedChan;
      g.status := status;
    }

    /** The same, for a thread in no queue. */
    method SetApart(g: G<T>, status: Status, ghost s: Sys<T>)
      requires Rep(s) && Known(threads, [g]) && Alone() && Homeless(g)
      modifies g`status
      ensures Rep(s.(status := s.status[g.id := status])) && Alone() && Homeless(g) && unchanged(this)
    {
      hide ThreadsHold, CellsHold, RingHolds, QueueHolds, ChanHolds, ChansHold, ChansKnown, Scalars, Apart;
      SetStatus(g, status, s);
    }

    /** Takes the flag that close set away again. */
    method ClearPanic(g: G<T>, ghost s: Sys<T>)
      requires Rep(s) && Known(threads, [g])
      modifies g`chanPanic
      ensures Rep(s.(panics := s.panics - {g.id}))
    {
      assert [g][0] == g;
      hide CellsHold, RingHolds, QueueHolds, ChanHolds, Known, Absent, Disjoint, Apart, OwnedChan;
      g.chanPanic := false;
    }

    method SetCurrent(g: G?<T>, ghost s: Sys<T>)
      requires Rep(s) && (g != null ==> Known(threads, [g]))
      modifies this`current
      ensures Rep(s.(current := if g == null then None else Some(g.id))) && current == g && repr == old(repr)
    {
      hide ThreadsHold, CellsHold, RingHolds, QueueHolds, ChanHolds;
      current := g;
    }

    method SetLive(n: int, ghost s: Sys<T>)
      requires Rep(s)
      modifies this`live
      ensures Rep(s.(live := n)) && repr == old(repr)
    {
      hide ThreadsHold, CellsHold, RingHolds, QueueHolds, ChanHolds;
      live := n;
    }

    method GoTo(next: Phase, keepP: bool, ghost s: Sys<T>)
      requires Rep(s)
      modifies this`phase, this`hasP
      ensures Rep(s.(phase := next, hasP := keepP))
    {
      hide ThreadsHold, CellsHold, RingHolds, QueueHolds, ChanHolds;
      phase, hasP := next, keepP;
    }

    // ---------- The loop and the calls of a thread ----------

    /** run_g_ready: with one P, every branch of its search for a P ends at that P, or at the global queue. */
    method GReady(g: G<T>, ghost s: Sys<T>)
      requires Rep(s) && Known(threads, [g]) && Homeless(g) && Alone()
      modifies g`status, g`next, local`tail, local`items, local.buf, global, global.nodes`next
      ensures Rep(Ready(s, g.id))
    {
      Footprint(s);
      hide Rep, Known, Alone, Homeless, PushLocal;
      SetApart(g, GRunnable, s);
      ghost var r := s.(status := s.status[g.id := GRunnable]);
      if hasP {
        PushLocalOrGlobal(g, r);
      } else {
        PushGlobal(g, r);
      }
    }

    /** What a woken receiver was given is in its cell; once it runs the cell is its own. */
    lemma AtResume(g: G<T>, s: Sys<T>)
      requires Rep(s) && Known(threads, [g])
      ensures (g.chanPanic <==> g.id in s.panics) && s.phase == phase && s.hasP == hasP
      ensures g.id in s.inbox ==> g.data == Cell(s.inbox[g.id], zero)
      ensures Rep(s.(inbox := s.inbox - {g.id}))
    {
      assert [g][0] == g;
      hide RingHolds, QueueHolds, ChanHolds, Apart;
    }

    /** The switch into g, which finds its answer in its cell if it was blocked in a receive, and panics at once if
        it was blocked in a send when its channel was closed. */
    method Resume(g: G<T>, ghost s: Sys<T>)
      requires Rep(s) && Known(threads, [g]) && phase == InLoop
      modifies this`current, this`phase, this`hasP, g`status, g`chanPanic
      ensures Rep(Resumed(s, g.id)) && current == g
      ensures g.id in s.inbox ==> g.data == Cell(s.inbox[g.id], zero)
    {
      AtResume(g, s);
      ghost var r := s.(current := Some(g.id), status := s.status[g.id := GRunning], inbox := s.inbox - {g.id});
      assert Resumed(s, g.id)
        == if g.id in s.panics then r.(panics := r.panics - {g.id}, phase := Aborted(SendOnClosed)) else r;
      hide Rep, Known, Resumed;
      SwitchIn(g, s.(inbox := s.inbox - {g.id}));
      if g.chanPanic {
        Panic(g, r);
      }
    }

    method Panic(g: G<T>, ghost s: Sys<T>)
      requires Rep(s) && Known(threads, [g]) && s.hasP == hasP
      modifies this`phase, this`hasP, g`chanPanic
      ensures Rep(s.(panics := s.panics - {g.id}, phase := Aborted(SendOnClosed))) && current == old(current)
    {
      hide Rep, Known;
      ClearPanic(g, s);
      GoTo(Aborted(SendOnClosed), hasP, s.(panics := s.panics - {g.id}));
    }

    method SwitchIn(g: G<T>, ghost s: Sys<T>)
      requires Rep(s) && Known(threads, [g])
      modifies this`current, g`status
      ensures Rep(s.(current := Some(g.id), status := s.status[g.id := GRunning])) && current == g
    {
      hide Rep, Known;
      SetStatus(g, GRunning, s);
      SetCurrent(g, s.(status := s.status[g.id := GRunning]));
    }

    /** One turn of run_schedule_loop, up to and including the switch into the thread it found. */
    method LoopTurn(ghost s: Sys<T>)
      requires Valid(s) && phase == InLoop && current == null
      modifies repr
      ensures Valid(Step(s, Pick)) && repr == old(repr)
      ensures current != null && current.id in s.inbox ==> current.data == Cell(s.inbox[current.id], zero)
      ensures phase == InMain <==> AllDead(s)
      ensures phase == Aborted(Deadlock) <==> AllBlocked(s) || Overlooked(s)
    {
      StepKeeps(s, Pick);
      Verdict(s);
      hide Inv, AllDead, AllBlocked, Overlooked, Step, PickStep;
      PickIs(s);
      Turn(s);
    }

    method Turn(ghost s: Sys<T>)
      requires Valid(s) && phase == InLoop && current == null
      modifies repr
      ensures Rep(PickStep(s)) && repr == old(repr) && phase == PickStep(s).phase
      ensures current != null && current.id in s.inbox ==> current.data == Cell(s.inbox[current.id], zero)
    {
      GlobalAlone(s, []);
      Footprint(s);
      PickIs(s);
      hide Inv, Core, FindRunnable, PickStep, Resumed, Rep, Alone;
      var g := FindRunnableThread(s);
      ghost var r := FindRunnable(s).0;
      Switch(g, r);
      Footprint(PickStep(s));
    }

    /** The loop switches to the thread found, or returns or aborts. */
    method Switch(g: G?<T>, ghost s: Sys<T>)
      requires Rep(s) && phase == InLoop && current == null && (g != null ==> Known(threads, [g]))
      modifies repr
      ensures repr == old(repr) && current == g
      ensures g != null && g.id in s.inbox ==> g.data == Cell(s.inbox[g.id], zero)
      ensures Rep(if g != null then Resumed(s, g.id)
                  else if s.live <= 0 then s.(hasP := false, phase := InMain)
                  else s.(phase := Aborted(Deadlock)))
    {
      Footprint(s);
      if g != null { InRepr(s, g); }
      hide Rep, Resumed;
      if g == null {
        NothingFound(s);
      } else {
        Resume(g, s);
      }
    }

    /** The loop returns or aborts. */
    method NothingFound(ghost s: Sys<T>)
      requires Rep(s)
      modifies this`phase, this`hasP
      ensures Rep(if s.live <= 0 then s.(hasP := false, phase := InMain) else s.(phase := Aborted(Deadlock)))
    {
      if live <= 0 {
        GoTo(InMain, false, s);
      } else {
        GoTo(Aborted(Deadlock), hasP, s);
      }
    }

    /** run_scheduler_run's entry into the loop. */
    method RunLoop(ghost s: Sys<T>)
      requires Valid(s) && phase == InMain
      modifies this`phase, this`hasP
      ensures Valid(Step(s, RunScheduler))
    {
      StepKeeps(s, RunScheduler);
      hide Inv;
      GoTo(InLoop, true, s);
    }

    /** The running thread gives up its M. */
    method PutAside(g: G<T>, status: Status, ghost s: Sys<T>)
      requires Rep(s) && g == current && Alone() && Homeless(g)
      modifies g`status, this`current
      ensures Rep(s.(status := s.status[g.id := status], current := None))
      ensures Known(threads, [g]) && Alone() && Homeless(g) && repr == old(repr)
    {
      hide ThreadsHold, CellsHold, RingHolds, QueueHolds, ChanHolds;
      SetApart(g, status, s);
      SetCurrent(null, s.(status := s.status[g.id := status]));
    }

    /** A preempted thread goes to the global queue, a voluntary yield to the local one. */
    method YieldThread(preempted: bool, ghost s: Sys<T>)
      requires Valid(s) && phase == InLoop && current != null
      modifies repr
      ensures Valid(Step(s, Yield(preempted))) && repr == old(repr)
    {
      StepKeeps(s, Yield(preempted));
      GlobalAlone(s, []);
      IsHomeless(s, [], current);
      Footprint(s);
      var g := current;
      ghost var r := s.(status := s.status[g.id := GRunnable], current := None);
      assert Step(s, Yield(preempted)) == if preempted then r.(global := r.global + [g.id]) else PushLocal(r, g.id);
      hide Inv, Core, Rep, Alone, Homeless, Step, PushLocal;
      PutAside(g, GRunnable, s);
      Requeue(g, preempted, r);
    }

    method Requeue(g: G<T>, preempted: bool, ghost s: Sys<T>)
      requires Rep(s) && Known(threads, [g]) && Homeless(g) && Alone()
      modifies g`next, local`tail, local`items, local.buf, global, global.nodes`next
      ensures Rep(if preempted then s.(global := s.global + [g.id]) else PushLocal(s, g.id)) && unchanged(this)
    {
      hide Rep, Homeless, Alone;
      if preempted {
        PushGlobal(g, s);
      } else {
        PushLocalOrGlobal(g, s);
      }
    }

    /** run_g_exit, and the loop's part of it. */
    method ExitThread(ghost s: Sys<T>)
      requires Valid(s) && phase == InLoop && current != null
      modifies repr
      ensures Valid(Step(s, Exit)) && repr == old(repr)
    {
      StepKeeps(s, Exit);
      Footprint(s);
      var g := current;
      InRepr(s, g);
      GlobalAlone(s, []);
      IsHomeless(s, [], g);
      ghost var r := s.(status := s.status[g.id := GDead]);
      assert Step(s, Exit) == r.(current := None, live := live - 1);
      hide Inv, Rep, Step, Alone, Homeless, Core;
      SetApart(g, GDead, s);
      SetCurrent(null, r);
      SetLive(live - 1, r.(current := None));
    }

    lemma StillKnown(g: G<T>, s: Sys<T>)
      requires Rep(s) && g in all && g.id !in threads
      ensures var later := threads[g.id := g];
        && Known(later, [g]) && Known(later, local.items) && Known(later, global.nodes)
        && (current != null ==> Known(later, [current]))
        && (forall i :: 0 <= i < |chans| ==> Known(later, chans[i].sendQ.nodes) && Known(later, chans[i].recvQ.nodes))
        && forall k :: k in later ==> later[k] in repr
      ensures Homeless(g)
    {
      KnownLater(threads, g, local.items);
      KnownLater(threads, g, global.nodes);
      if current != null { KnownLater(threads, g, [current]); }
      forall i | 0 <= i < |chans|
        ensures Known(threads[g.id := g], chans[i].sendQ.nodes) && Known(threads[g.id := g], chans[i].recvQ.nodes)
        ensures Absent(g, chans[i].sendQ.nodes) && Absent(g, chans[i].recvQ.nodes) {
        KnownLater(threads, g, chans[i].sendQ.nodes);
        KnownLater(threads, g, chans[i].recvQ.nodes);
      }
    }

    /** The runtime's footprint grows. */
    ghost method Own(objects: set<object>, s: Sys<T>)
      requires Rep(s)
      modifies this`repr
      ensures Rep(s) && repr == old(repr) + objects
    {
      hide ThreadsHold, CellsHold, RingHolds, QueueHolds, ChanHolds;
      repr := repr + objects;
    }

    ghost method OwnNode(g: G<T>, s: Sys<T>)
      requires Rep(s) && g in repr
      modifies this`all
      ensures Rep(s) && all == old(all) + {g}
    {
      assert ThreadsHold(threads, all + {g}, s.status, s.panics) && CellsHold(threads, all + {g}, s.inbox, zero);
      hide ThreadsHold, CellsHold, RingHolds, QueueHolds, ChanHolds;
      all := all + {g};
    }

    /** Makes a new node one of the threads. */
    ghost method AddThread(g: G<T>, s: Sys<T>)
      requires Rep(s) && g in all && g.id !in threads
      requires g.status == GRunnable && !g.chanPanic
      modifies this`threads
      ensures Rep(s.(status := s.status[g.id := GRunnable]))
      ensures Known(threads, [g])
    {
      ThreadsHoldLater(threads, all, s.status, s.panics, g);
      CellsHoldLater(threads, all, s.inbox, zero, g);
      StillKnown(g, s);
      hide ThreadsHold, CellsHold, RingHolds, QueueHolds, ChanHolds, Known, Absent, Disjoint, Apart, OwnedChan,
        Homeless;
      threads := threads[g.id := g];
    }

    /** A new node joins the threads. */
    ghost method Adopt(g: G<T>, s: Sys<T>)
      requires Rep(s) && Alone() && g.id !in threads && g.status == GRunnable && !g.chanPanic
      modifies this`threads, this`all, this`repr
      ensures repr == old(repr) + {g} && Rep(s.(status := s.status[g.id := GRunnable]))
      ensures Known(threads, [g]) && Homeless(g) && Alone()
    {
      hide ThreadsHold, CellsHold, RingHolds, QueueHolds, ChanHolds, Known, Absent, Disjoint, ChansHold, ChansKnown,
        Apart, Scalars;
      Own({g}, s);
      OwnNode(g, s);
      StillKnown(g, s);
      AddThread(g, s);
    }

    /** run_spawn */
    method SpawnThread(ghost s: Sys<T>) returns (g: G<T>)
      requires Valid(s) && Acting(s)
      modifies repr
      ensures Valid(Step(s, Spawn)) && g.id == s.nextId && fresh(g) && repr == old(repr) + {g}
    {
      NextIsNew(s);
      hide Rep, Inv;
      g := new G(nextId, zero);
      Launch(g, s);
    }

    lemma NextIsNew(s: Sys<T>)
      requires Valid(s)
      ensures this in repr && s.nextId == nextId && nextId !in threads && nextId !in s.status
    {
      assert Placed(s, [], nextId);
    }

    method Launch(g: G<T>, ghost s: Sys<T>)
      requires Valid(s) && Acting(s) && g.id == s.nextId && g.id !in threads && g.status == GRunnable && !g.chanPanic
      modifies repr, g
      ensures Valid(Step(s, Spawn)) && repr == old(repr) + {g}
    {
      StepKeeps(s, Spawn);
      GlobalAlone(s, []);
      Footprint(s);
      ghost var r := s.(status := s.status[g.id := GRunnable]);
      assert Step(s, Spawn) == PushLocal(r.(live := s.live + 1, nextId := g.id + 1, hasP := true), g.id);
      hide Inv, Core, Rep, Alone, Homeless, Step, PushLocal;
      Adopt(g, s);
      Enqueue(g, live + 1, g.id + 1, r);
    }

    method Enqueue(g: G<T>, count: int, id: nat, ghost s: Sys<T>)
      requires Rep(s) && Known(threads, [g]) && Homeless(g) && Alone()
      modifies this`live, this`nextId, this`hasP
      modifies local`tail, local`items, local.buf, global, global.nodes`next, g`next
      ensures Rep(PushLocal(s.(live := count, nextId := id, hasP := true), g.id))
    {
      SetCounters(count, id, s);
      PushLocalOrGlobal(g, s.(live := count, nextId := id, hasP := true));
    }

    method SetCounters(count: int, id: nat, ghost s: Sys<T>)
      requires Rep(s)
      modifies this`live, this`nextId, this`hasP
      ensures Rep(s.(live := count, nextId := id, hasP := true))
    {
      hide ThreadsHold, CellsHold, RingHolds, QueueHolds, ChanHolds;
      live, nextId, hasP := count, id, true;
    }

    /** run_chan_new */
    method NewChannel(cap: nat, ghost s: Sys<T>) returns (c: Chan<T>)
      requires Valid(s) && Acting(s)
      modifies repr
      ensures Valid(Step(s, NewChan(cap))) && chans == old(chans) + [c] && fresh(repr - old(repr))
    {
      StepKeeps(s, NewChan(cap));
      assert this in repr;
      hide Rep, Inv;
      c := new Chan(cap, zero);
      Attach(c, cap, s);
    }

    lemma NewIsSeparate(c: Chan<T>, s: Sys<T>)
      requires Rep(s) && c !in repr && c.buffer !in repr && c.sendQ !in repr && c.recvQ !in repr
      ensures ApartChan(c) && forall i :: 0 <= i < |chans| ==> Separate(chans[i], c)
    {
      forall i | 0 <= i < |chans| ensures Separate(chans[i], c) { assert OwnedChan(chans[i]); }
    }

    method Attach(c: Chan<T>, ghost cap: nat, ghost s: Sys<T>)
      requires Valid(s) && c.Valid() && c.Abs() == C.New(cap)
      requires c !in repr && c.buffer !in repr && c.sendQ !in repr && c.recvQ !in repr && c.zero == zero
      modifies this`chans, this`repr
      ensures Rep(s.(chans := s.chans + [C.New(cap)]))
      ensures chans == old(chans) + [c] && repr == old(repr) + {c, c.buffer, c.sendQ, c.recvQ}
    {
      EmptyQueues(c, cap);
      NewIsSeparate(c, s);
      hide Rep, Inv, Separate, ApartChan, Chained, C.WellFormed, Step;
      Own({c, c.buffer, c.sendQ, c.recvQ}, s);
      AddChannel(c, C.New(cap), s);
    }

    method AddChannel(c: Chan<T>, ghost v: C.Chan<T>, ghost s: Sys<T>)
      requires Rep(s) && OwnedChan(c) && ApartChan(c) && forall i :: 0 <= i < |chans| ==> Separate(chans[i], c)
      requires ChanHolds(c, v) && c.sendQ.nodes == c.recvQ.nodes == []
      modifies this`chans
      ensures Rep(s.(chans := s.chans + [v])) && chans == old(chans) + [c]
    {
      hide ThreadsHold, CellsHold, RingHolds, QueueHolds, ChanHolds;
      chans := chans + [c];
    }

    // ---------- Channel calls ----------

    /** No node of a run queue or of another channel is among `touched`. */
    ghost predicate Spared(ch: nat, touched: set<G<T>>)
      reads this, repr
      requires Owned()
    {
      && Clear(global.nodes, touched)
      && forall i :: 0 <= i < |chans| && i != ch ==>
           Clear(chans[i].sendQ.nodes, touched) && Clear(chans[i].recvQ.nodes, touched)
    }

    /** What an operation on channel ch may rely on. */
    lemma OnChannel(s: Sys<T>, ch: nat)
      requires Rep(s) && ch < |chans|
      ensures var c := chans[ch];
        && |s.chans| == |chans| && c.Valid() && c.Abs() == s.chans[ch]
        && Known(threads, c.sendQ.nodes) && Known(threads, c.recvQ.nodes)
      ensures s.current == (if current == null then None else Some(current.id))
      ensures current != null ==> Known(threads, [current])
      ensures ThreadsHold(threads, all, s.status, s.panics) && CellsHold(threads, all, s.inbox, zero)
      ensures chans[ch].zero == zero
    {
      assert ChanHolds(chans[ch], s.chans[ch]) && OwnedChan(chans[ch]);
    }

    /** The objects that an operation on channel ch leaves alone: all but its own and the nodes. */
    ghost function Rest(ch: nat): set<object>
      reads this
      requires ch < |chans|
    {
      var c := chans[ch];
      set o: object | o in repr && !(o is G<T>) && o != c && o != c.buffer && o != c.sendQ && o != c.recvQ
    }

    ghost predicate RestCovers(ch: nat)
      reads this
      requires ch < |chans|
    {
      && {this, local, local.buf, global} <= Rest(ch)
      && forall i :: 0 <= i < |chans| && i != ch ==> RestHas(ch, chans[i])
    }

    ghost predicate RestHas(ch: nat, c: Chan<T>)
      reads this
      requires ch < |chans|
    {
      {c, c.buffer, c.sendQ, c.recvQ} <= Rest(ch)
    }

    lemma RestIs(s: Sys<T>, ch: nat)
      requires Rep(s) && ch < |chans|
      ensures RestCovers(ch)
    {
      assert ApartChan(chans[ch]);
      forall i | 0 <= i < |chans| && i != ch ensures RestHas(ch, chans[i]) {
        assert OwnedChan(chans[i]);
        if i < ch { assert Separate(chans[i], chans[ch]); } else { assert Separate(chans[ch], chans[i]); }
      }
      hide ThreadsHold, CellsHold, RingHolds, QueueHolds, ChanHolds;
    }

    /** All nodes but `touched` keep their links and data. */
    static twostate predicate Sparing(nodes: set<G<T>>, touched: set<G<T>>)
      reads nodes
    {
      forall x :: x in nodes && x !in touched ==> x.next == old(x.next) && x.data == old(x.data)
    }

    /** After an operation on one channel that wrote to nothing else, the runtime is in the moved state. */
    twostate lemma ChannelMoved(m: Move<T>)
      requires old(Rep(m.s)) && m.ch < |old(chans)| && old(Spared(m.ch, m.touched)) && m.touched <= old(all)
      requires old(RestCovers(m.ch) && m.rest == Rest(m.ch)) && Same(m.rest) && Sparing(old(all), m.touched)
      requires ThreadsHold(threads, all, m.status, m.panics) && CellsHold(threads, all, m.inbox, zero)
      requires ChanHolds(chans[m.ch], m.v)
      requires Known(threads, chans[m.ch].sendQ.nodes) && Known(threads, chans[m.ch].recvQ.nodes)
      ensures Rep(Moved(m))
    {
      OthersHold(m);
      hide ThreadsHold, CellsHold, RingHolds, QueueHolds, ChanHolds, Sparing, Spared;
    }

    twostate lemma OthersHold(m: Move<T>)
      requires old(Rep(m.s)) && m.ch < |old(chans)| && old(Spared(m.ch, m.touched)) && m.touched <= old(all)
      requires old(RestCovers(m.ch) && m.rest == Rest(m.ch)) && Same(m.rest) && Sparing(old(all), m.touched)
      ensures QueueHolds(global, m.s.global)
      ensures |m.s.chans| == |chans| && forall i :: 0 <= i < |chans| && i != m.ch ==> ChanHolds(chans[i], m.s.chans[i])
    {
      assert forall k :: k in old(threads) ==> old(threads)[k] in old(all);
      hide ThreadsHold, CellsHold, RingHolds, QueueHolds, ChanHolds;
    }

    /** No status word or flag was written but those of a caller that blocked. */
    twostate lemma ThreadsKept(c: Call<T>)
      requires old(Rep(c.s)) && unchanged(this)
      requires c.blocks ==> current != null && current.status == GWaiting && !current.chanPanic
      requires forall x :: x in all && (x != current || !c.blocks) ==>
        x.status == old(x.status) && x.chanPanic == old(x.chanPanic)
      ensures ThreadsHold(threads, all, Blocking(c.s, c.blocks).status, Blocking(c.s, c.blocks).panics)
    {
      if current != null { assert [current][0] == current; }
      hide RingHolds, QueueHolds, ChanHolds, Apart;
    }

    /** The nodes that an operation on m's channel may write to are waiters of that channel, and the caller. */
    ghost predicate Confined(m: Move<T>)
      reads this, repr
    {
      && Rep(m.s) && m.ch < |chans| && |m.s.chans| == |chans| && Spared(m.ch, m.touched) && m.touched <= all
      && m.rest == Rest(m.ch)
      && Within(chans[m.ch].sendQ.nodes, m.touched) && Within(chans[m.ch].recvQ.nodes, m.touched)
      && (current != null ==>
           current in m.touched && Absent(current, chans[m.ch].sendQ.nodes) && Absent(current, chans[m.ch].recvQ.nodes))
    }

    /** The waiters of channel ch and the calling thread. */
    ghost function Parties(ch: nat): set<G<T>>
      reads this, repr
      requires Owned() && ch < |chans|
    {
      Together(chans[ch].sendQ.nodes, chans[ch].recvQ.nodes, current)
    }

    lemma PartiesAre(s: Sys<T>, ch: nat)
      requires Rep(s) && Core(s, []) && ch < |chans|
      ensures Parties(ch) <= all
      ensures Within(chans[ch].sendQ.nodes, Parties(ch)) && Within(chans[ch].recvQ.nodes, Parties(ch))
      ensures current != null ==>
        current in Parties(ch) && Absent(current, chans[ch].sendQ.nodes) && Absent(current, chans[ch].recvQ.nodes)
    {
      var c := chans[ch];
      assert Known(threads, c.sendQ.nodes) && Known(threads, c.recvQ.nodes);
      assert current != null ==> Known(threads, [current]);
      assert ThreadsHold(threads, all, s.status, s.panics);
      if current != null { IsHomeless(s, [], current); }
      hide Rep, Core, ThreadsHold, CellsHold, Known, Absent;
      TogetherWithin(threads, all, s, c.sendQ.nodes, c.recvQ.nodes, current);
    }

    lemma PartiesSpare(s: Sys<T>, ch: nat)
      requires Rep(s) && Core(s, []) && ch < |chans|
      ensures Spared(ch, Parties(ch))
    {
      assert Owned();
      GlobalAlone(s, []);
      if current != null { IsHomeless(s, [], current); }
      hide Rep, Core, Owned, Disjoint, Absent, Clear, Together;
      var c := chans[ch];
      TogetherSpares(c.sendQ.nodes, c.recvQ.nodes, current, global.nodes);
      forall i | 0 <= i < |chans| && i != ch
        ensures Clear(chans[i].sendQ.nodes, Parties(ch)) && Clear(chans[i].recvQ.nodes, Parties(ch)) {
        ChannelsAlone(s, [], ch, i);
        TogetherSpares(c.sendQ.nodes, c.recvQ.nodes, current, chans[i].sendQ.nodes);
        TogetherSpares(c.sendQ.nodes, c.recvQ.nodes, current, chans[i].recvQ.nodes);
      }
    }

    /** The locked region of a send. */
    method SendOn(ch: nat, v: T, ghost m: Move<T>) returns (r: C.SendResult, woken: G?<T>)
      requires Confined(m) && m.ch == ch && ch < |m.s.chans|
      requires m == SendMove(m.s, ch, v, m.touched, m.rest) && HasRead(m.s)
      modifies chans[ch], chans[ch].buffer, chans[ch].sendQ, chans[ch].recvQ
      modifies all`next, all`data, all`status, all`chanPanic
      ensures r == C.Send(m.s.chans[ch], m.s.current, v).1 && Rep(Moved(m))
      ensures AfterSend(r).WakeUp? ==> woken != null && Known(threads, [woken]) && woken.id == AfterSend(r).g
    {
      OnChannel(m.s, ch);
      RestIs(m.s, ch);
      hide Rep, Owned, Rest, RestCovers, ThreadsHold, CellsHold, Blocking, C.Send, AfterSend, Known, Within, Absent,
        Spared, Moved;
      r, woken := SendTouching(chans[ch], current, v, m.touched, all, m.rest, threads, m.s.inbox);
      ThreadsKept(Call(m.s, r.SendBlocks?));
      ChannelMoved(m);
    }

    /** The locked region of a receive. */
    method RecvOn(ch: nat, ghost m: Move<T>) returns (r: C.RecvResult<T>, woken: G?<T>)
      requires Confined(m) && m.ch == ch && ch < |m.s.chans|
      requires m == RecvMove(m.s, ch, m.touched, m.rest)
      modifies chans[ch], chans[ch].buffer, chans[ch].sendQ, chans[ch].recvQ
      modifies all`next, all`status, all`chanPanic
      ensures r == C.Recv(m.s.chans[ch], m.s.current).1 && Rep(Moved(m))
      ensures AfterRecv(r).WakeUp? ==> woken != null && Known(threads, [woken]) && woken.id == AfterRecv(r).g
    {
      OnChannel(m.s, ch);
      RestIs(m.s, ch);
      hide Rep, Owned, Rest, RestCovers, ThreadsHold, CellsHold, Blocking, C.Recv, AfterRecv, Known, Within, Absent,
        Spared, Moved;
      r, woken := RecvTouching(chans[ch], current, m.touched, all, m.rest, threads, m.s.inbox);
      ThreadsKept(Call(m.s, r.RecvBlocks?));
      ChannelMoved(m);
    }

    /** Makes a thread runnable that has left its wait queue. */
    method Wake(g: G<T>, ghost s: Sys<T>)
      requires Rep(s) && Known(threads, [g]) && Core(s, [g.id])
      modifies repr
      ensures Rep(Ready(s, g.id)) && repr == old(repr)
    {
      CountOne(g.id, g.id);
      GlobalAlone(s, [g.id]);
      IsHomeless(s, [g.id], g);
      Footprint(s);
      InRepr(s, g);
      hide Rep, Core, Alone, Homeless, Ready;
      GReady(g, s);
    }

    /** Sends: hands over, buffers or blocks; or aborts. */
    method Send(ch: nat, v: T, ghost s: Sys<T>)
      requires Valid(s) && Acting(s) && ch < |chans|
      modifies repr
      ensures Valid(Step(s, SendTo(ch, v))) && repr == old(repr)
    {
      StepKeeps(s, SendTo(ch, v));
      MayTouch(s, ch);
      ghost var m := SendMove(s, ch, v, Parties(ch), Rest(ch));
      SendSteps(s, ch, v, Parties(ch), Rest(ch));
      assert Confined(m) by { PartiesAre(s, ch); PartiesSpare(s, ch); }
      hide Rep, Inv, Core, Step, Confined, SendMove, Moved, Parties, Owned, Ready, C.Send, Acting;
      var r, woken := SendOn(ch, v, m);
      Settle(AfterSend(r), woken, Moved(m));
    }

    /** Receives a value if there is one at once, or zero; or blocks; or aborts. */
    method Receive(ch: nat, ghost s: Sys<T>) returns (v: Option<T>)
      requires Valid(s) && Acting(s) && ch < |chans|
      modifies repr
      ensures Valid(Step(s, RecvFrom(ch))) && repr == old(repr)
      ensures |s.chans| == |old(chans)|
      ensures var r := C.Recv(s.chans[ch], s.current).1; v == if r.Got? then Some(r.value) else None
    {
      StepKeeps(s, RecvFrom(ch));
      MayTouch(s, ch);
      ghost var m := RecvMove(s, ch, Parties(ch), Rest(ch));
      RecvSteps(s, ch, Parties(ch), Rest(ch));
      assert Confined(m) by { PartiesAre(s, ch); PartiesSpare(s, ch); }
      hide Rep, Inv, Core, Step, Confined, RecvMove, Moved, Parties, Owned, Ready, C.Recv, Acting;
      var r, woken := RecvOn(ch, m);
      v := if r.Got? then Some(r.value) else None;
      Settle(AfterRecv(r), woken, Moved(m));
    }

    /** The locked region of a close. */
    method CloseOn(ch: nat, ghost m: Move<T>) returns (panics: bool, wake: GQueue<T>)
      requires Confined(m) && m.ch == ch && ch < |m.s.chans|
      requires m == CloseMove(m.s, ch, m.touched, m.rest)
      modifies chans[ch], chans[ch].sendQ, chans[ch].recvQ, all`next, all`data, all`chanPanic
      ensures panics == C.Close(m.s.chans[ch]).1.ClosePanics? && Rep(Moved(m))
      ensures fresh(wake) && wake.Valid() && Known(threads, wake.nodes)
      ensures Ids(wake.nodes) == WakeOrder(C.Close(m.s.chans[ch]).1)
    {
      OnChannel(m.s, ch);
      RestIs(m.s, ch);
      hide Rep, Owned, Rest, RestCovers, ThreadsHold, CellsHold, C.Close, FlagsAfter, Known, Within, Absent, Spared,
        Moved, Ids, WakeOrder, Chained, C.WellFormed, GQueue.Valid;
      panics, wake := CloseTouching(chans[ch], m.touched, all, m.rest, threads, m.s.status, m.s.panics, m.s.inbox);
      ChannelMoved(m);
    }

    /** Closes and wakes every waiter, or aborts. */
    method Close(ch: nat, ghost s: Sys<T>)
      requires Valid(s) && Acting(s) && ch < |chans|
      modifies repr
      ensures Valid(Step(s, CloseChan(ch))) && repr == old(repr)
    {
      StepKeeps(s, CloseChan(ch));
      MayTouch(s, ch);
      ghost var m := CloseMove(s, ch, Parties(ch), Rest(ch));
      CloseSteps(s, ch, Parties(ch), Rest(ch));
      assert Confined(m) by { PartiesAre(s, ch); PartiesSpare(s, ch); }
      hide Rep, Inv, Core, Step, Confined, CloseMove, Moved, Parties, Owned, ReadyAll, C.Close, Acting, Ids, WakeOrder;
      var panics, wake := CloseOn(ch, m);
      FinishClose(panics, wake, Moved(m));
    }

    method FinishClose(panics: bool, wake: GQueue<T>, ghost t: Sys<T>)
      requires Rep(t) && wake !in repr && wake.Valid() && Known(threads, wake.nodes)
      requires !panics ==> Core(t, Ids(wake.nodes))
      modifies repr, wake
      ensures repr == old(repr)
      ensures Rep(if panics then t.(phase := Aborted(CloseOfClosed)) else ReadyAll(t, old(Ids(wake.nodes))))
    {
      Footprint(t);
      hide Rep, Core, ReadyAll, Known, Ids, Chained;
      if panics {
        Abort(CloseOfClosed, t);
      } else {
        WakeAll(wake, t);
      }
    }

    /** Makes the threads of the wake list runnable, first to last. */
    method WakeAll(wake: GQueue<T>, ghost t: Sys<T>)
      requires Rep(t) && wake !in repr && wake.Valid() && Known(threads, wake.nodes) && Core(t, Ids(wake.nodes))
      modifies repr, wake
      ensures repr == old(repr) && Rep(ReadyAll(t, old(Ids(wake.nodes))))
    {
      ghost var s := t;
      hide Rep, Core, Ready, ReadyAll, Known, Ids, Chained;
      EmptyWake(wake, s);
      while wake.head != null
        invariant wake.head == null <==> wake.nodes == []
        invariant repr == old(repr) && wake !in repr && wake.Valid() && Known(threads, wake.nodes)
        invariant Rep(s) && Core(s, Ids(wake.nodes))
        invariant ReadyAll(s, Ids(wake.nodes)) == ReadyAll(t, old(Ids(wake.nodes)))
        decreases |wake.nodes|
      {
        ghost var f := Ids(wake.nodes);
        WakeSteps(s, wake.nodes);
        KnownRest(threads, wake.nodes);
        WakeNext(wake, s);
        s := Ready(s, f[0]);
        EmptyWake(wake, s);
      }
      EmptyWake(wake, s);
    }

    lemma EmptyWake(wake: GQueue<T>, s: Sys<T>)
      requires wake.Valid()
      ensures wake.head == null <==> wake.nodes == []
      ensures wake.nodes == [] ==> ReadyAll(s, Ids(wake.nodes)) == s
    {
    }

    method WakeNext(wake: GQueue<T>, ghost s: Sys<T>)
      requires Rep(s) && wake !in repr && wake.Valid() && Known(threads, wake.nodes) && Core(s, Ids(wake.nodes))
      requires wake.nodes != []
      modifies repr, wake
      ensures repr == old(repr) && threads == old(threads) && wake.Valid() && wake.nodes == old(wake.nodes)[1..]
      ensures Rep(Ready(s, old(wake.nodes)[0].id))
    {
      Leaving(wake, s);
      hide Rep, Core, Ids, Known, Chained, Disjoint, Absent, Alone, Homeless, ListApart, GQueue.Valid, Ready;
      var g := PopWake(wake, s);
      ReadyPopped(g, wake, s);
    }

    lemma Leaving(wake: GQueue<T>, s: Sys<T>)
      requires Rep(s) && wake.Valid() && Known(threads, wake.nodes) && Core(s, Ids(wake.nodes)) && wake.nodes != []
      ensures Owned() && {this, local, local.buf, global} <= repr && Alone() && ListApart(wake.nodes)
      ensures forall i :: 0 <= i < |global.nodes| ==> global.nodes[i] in repr
      ensures forall i :: 0 <= i < |wake.nodes| ==> wake.nodes[i] in repr
      ensures Known(threads, [wake.nodes[0]]) && Homeless(wake.nodes[0])
      ensures Absent(wake.nodes[0], wake.nodes[1..]) && Disjoint(global.nodes, wake.nodes[1..])
    {
      WakeListApart(s, wake.nodes);
      GlobalAlone(s, Ids(wake.nodes));
      FirstKnown(s, wake.nodes);
      hide Core, Ids, Known;
    }

    method ReadyPopped(g: G<T>, wake: GQueue<T>, ghost s: Sys<T>)
      requires Rep(s) && Known(threads, [g]) && Homeless(g) && Alone()
      requires wake != global && wake.Valid() && Absent(g, wake.nodes) && Disjoint(global.nodes, wake.nodes)
      modifies g`status, g`next, local`tail, local`items, local.buf, global, global.nodes`next
      ensures Rep(Ready(s, g.id)) && wake.Valid() && unchanged(wake) && unchanged(this)
    {
      hide Rep, Known, Homeless, Alone, Ready, Chained;
      GReady(g, s);
    }

    /** The nodes of the wake list are in no linked queue of the runtime. */
    ghost predicate ListApart(nodes: seq<G<T>>)
      reads this, repr
      requires Owned()
    {
      && Disjoint(global.nodes, nodes)
      && forall i :: 0 <= i < |chans| ==> Disjoint(chans[i].sendQ.nodes, nodes) && Disjoint(chans[i].recvQ.nodes, nodes)
    }

    lemma WakeListApart(s: Sys<T>, nodes: seq<G<T>>)
      requires Rep(s) && Core(s, Ids(nodes))
      ensures ListApart(nodes)
    {
      var f := Ids(nodes);
      forall x: nat ensures Count(Ids(global.nodes), x) == 0 || Count(f, x) == 0 { assert Placed(s, f, x); }
      NoShare(global.nodes, nodes);
      forall i | 0 <= i < |chans|
        ensures Disjoint(chans[i].sendQ.nodes, nodes) && Disjoint(chans[i].recvQ.nodes, nodes) {
        forall x: nat ensures
          Count(Ids(chans[i].sendQ.nodes), x) + Count(Ids(chans[i].recvQ.nodes), x) == 0 || Count(f, x) == 0 {
          WaitersCounted(s, i, x);
          assert Placed(s, f, x);
        }
        NoShare(chans[i].sendQ.nodes, nodes);
        NoShare(chans[i].recvQ.nodes, nodes);
      }
    }

    lemma FirstKnown(s: Sys<T>, nodes: seq<G<T>>)
      requires Rep(s) && Known(threads, nodes) && nodes != [] && ListApart(nodes)
      ensures Known(threads, [nodes[0]]) && Homeless(nodes[0]) && forall i :: 0 <= i < |nodes| ==> nodes[i] in repr
    {
    }

    /** Pops the wake list, which shares no node with the runtime's queues. */
    method PopWake(wake: GQueue<T>, ghost s: Sys<T>) returns (g: G<T>)
      requires Rep(s) && wake !in repr && wake.Valid() && wake.nodes != [] && ListApart(wake.nodes)
      requires Alone() && Homeless(wake.nodes[0])
      modifies wake, wake.nodes`next
      ensures Rep(s) && wake.Valid() && wake.nodes == old(wake.nodes)[1..] && g == old(wake.nodes)[0]
      ensures Alone() && Homeless(g) && unchanged(this)
    {
      hide Chained, Ids, ThreadsHold, CellsHold, RingHolds, QueueHolds, ChanHolds;
      g := wake.Pop();
      assert ChansHold(s.chans) by {
        forall i | 0 <= i < |chans| ensures ChanHolds(chans[i], s.chans[i]) {
          assert OwnedChan(chans[i]) && old(ChanHolds(chans[i], s.chans[i]));
        }
      }
    }

    method Settle(n: Next, woken: G?<T>, ghost t: Sys<T>)
      requires Rep(t)
      requires n.WakeUp? ==> woken != null && Known(threads, [woken]) && woken.id == n.g && Core(t, [n.g])
      modifies repr
      ensures repr == old(repr) && Rep(Then(t, n))
    {
      Footprint(t);
      hide Rep, Core, Ready, Known;
      match n
      case GoOn =>
      case WakeUp(_) => Wake(woken, t);
      case StepAside => SetCurrent(null, t);
      case Fail(fault) => Abort(fault, t);
    }

    method Abort(fault: Fault, ghost s: Sys<T>)
      requires Rep(s)
      modifies this`phase, this`hasP
      ensures Rep(s.(phase := Aborted(fault)))
    {
      Footprint(s);
      GoTo(Aborted(fault), hasP, s);
    }

    lemma MayTouch(s: Sys<T>, ch: nat)
      requires Rep(s) && ch < |chans|
      ensures this in repr && {chans[ch], chans[ch].buffer, chans[ch].sendQ, chans[ch].recvQ} <= repr && all <= repr
      ensures |s.chans| == |chans|
    {
      assert OwnedChan(chans[ch]);
    }
  }
}
