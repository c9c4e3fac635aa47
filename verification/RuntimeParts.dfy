/** The parts of the single-P runtime: what each of its structures holds, as values; what a channel operation
    does to the whole; and the channel operations with their effect on all thread nodes. */
module RuntimeParts {
  import opened Options
  import opened GQueues
  import opened LocalQueue
  import opened Channel
  import opened SchedulerSpec
  import C = ChanSpec

  // ---------- What each structure holds ----------

  /** Every node is the thread of its id. */
  ghost predicate Known<T>(threads: map<nat, G<T>>, nodes: seq<G<T>>) {
    forall i :: 0 <= i < |nodes| ==> nodes[i].id in threads && threads[nodes[i].id] == nodes[i]
  }

  /** The threads' status words and panic flags. */
  ghost predicate ThreadsHold<T>(threads: map<nat, G<T>>, all: set<G<T>>, status: map<nat, Status>, panics: set<nat>)
    reads all`status, all`chanPanic
  {
    && status.Keys == threads.Keys && panics <= threads.Keys
    && forall k :: k in threads ==>
      && threads[k].id == k && threads[k] in all
      && threads[k].status == status[k] && (threads[k].chanPanic <==> k in panics)
  }

  /** What an unread cell holds: the value handed over, or zero. */
  function Cell<T>(answer: Option<T>, zero: T): T { match answer case Some(v) => v case None => zero }

  /** The cells of the receivers that were woken and have not run since. */
  ghost predicate CellsHold<T>(threads: map<nat, G<T>>, all: set<G<T>>, inbox: map<nat, Option<T>>, zero: T)
    reads all`data
  {
    forall k :: k in inbox ==>
      && k in threads && threads[k].id == k && threads[k] in all
      && threads[k].data == Cell(inbox[k], zero)
  }

  ghost predicate RingHolds<T>(q: RunQueue<G<T>>, ids: seq<nat>, base: nat)
    reads q, q.buf
  {
    q.Valid() && ids == Ids(q.items) && base == q.base
  }

  ghost predicate QueueHolds<T>(q: GQueue<T>, ids: seq<nat>)
    reads q, q.nodes`next
  {
    q.Valid() && ids == Ids(q.nodes)
  }

  ghost predicate ChanHolds<T(0)>(c: Chan<T>, v: C.Chan<T>)
    reads c, c.buffer, c.sendQ, c.recvQ, c.sendQ.nodes`next, c.sendQ.nodes`data, c.recvQ.nodes`next
  {
    c.Valid() && c.Abs() == v
  }

  /** No object is shared by two channels. */
  ghost predicate Separate<T(0)>(c: Chan<T>, d: Chan<T>) {
    && c != d && c.buffer != d.buffer
    && c.sendQ != d.sendQ && c.sendQ != d.recvQ && c.recvQ != d.sendQ && c.recvQ != d.recvQ
  }

  ghost predicate NoneShared<T(0)>(c: Chan<T>, d: Chan<T>)
    reads c.sendQ, c.recvQ, d.sendQ, d.recvQ
  {
    && Disjoint(c.sendQ.nodes, d.sendQ.nodes) && Disjoint(c.sendQ.nodes, d.recvQ.nodes)
    && Disjoint(c.recvQ.nodes, d.sendQ.nodes) && Disjoint(c.recvQ.nodes, d.recvQ.nodes)
  }

  /** The caller's part of blocking, up to the switch back into the loop. */
  function Blocking<T>(s: Sys<T>, blocks: bool): Sys<T> {
    if blocks && s.current.Some? then
      s.(status := s.status[s.current.value := GWaiting], panics := s.panics - {s.current.value})
    else s
  }

  /** A call in state s, and whether it blocks its thread. */
  datatype Call<T> = Call(s: Sys<T>, blocks: bool)

  /** What a channel call does after its locked region. */
  datatype Next = GoOn | WakeUp(g: nat) | StepAside | Fail(fault: Fault)

  function Then<T>(s: Sys<T>, n: Next): Sys<T> {
    match n
    case GoOn => s
    case WakeUp(g) => Ready(s, g)
    case StepAside => s.(current := None)
    case Fail(fault) => s.(phase := Aborted(fault))
  }

  function AfterSend(r: C.SendResult): Next {
    match r
    case Handed(to) => WakeUp(to)
    case Buffered => GoOn
    case SendBlocks => StepAside
    case SendPanics => Fail(SendOnClosed)
    case SendStuck => Fail(MainWouldBlock)
  }

  function AfterRecv<T>(r: C.RecvResult<T>): Next {
    match r
    case Got(_, woken) => if woken.Some? then WakeUp(woken.value) else GoOn
    case GotZero => GoOn
    case RecvBlocks => StepAside
    case RecvStuck => Fail(MainWouldBlock)
  }

  /** An operation on channel ch in state s: the nodes it may write to, the other objects it does not, and what it
      leaves of the channel's value, the status words, the flags and the unread values. */
  datatype Move<T> = Move(
    ch: nat, touched: set<G<T>>, rest: set<object>, s: Sys<T>, v: C.Chan<T>, status: map<nat, Status>, panics: set<nat>,
    inbox: map<nat, Option<T>>)

  ghost function Moved<T>(m: Move<T>): Sys<T>
    requires m.ch < |m.s.chans|
  {
    m.s.(chans := m.s.chans[m.ch := m.v], status := m.status, panics := m.panics, inbox := m.inbox)
  }

  ghost function SendMove<T>(s: Sys<T>, ch: nat, v: T, touched: set<G<T>>, rest: set<object>): Move<T>
    requires ch < |s.chans|
  {
    var (c, r) := C.Send(s.chans[ch], s.current, v);
    var t := Blocking(s, r.SendBlocks?);
    Move(ch, touched, rest, s, c, t.status, t.panics, HandIn(s.inbox, r, v))
  }

  /** What is left of a send's step after the locked region. */
  lemma SendSteps<T>(s: Sys<T>, ch: nat, v: T, touched: set<G<T>>, rest: set<object>)
    requires Inv(s) && Acting(s) && ch < |s.chans|
    ensures var n := AfterSend(C.Send(s.chans[ch], s.current, v).1); var t := Moved(SendMove(s, ch, v, touched, rest));
      Step(s, SendTo(ch, v)) == Then(t, n) && (n.WakeUp? ==> Core(t, [n.g]))
  {
    SendFrees(s, ch, v);
    assert s.chans[ch := s.chans[ch]] == s.chans;
    hide Core, Inv, Ready;
  }

  ghost function RecvMove<T>(s: Sys<T>, ch: nat, touched: set<G<T>>, rest: set<object>): Move<T>
    requires ch < |s.chans|
  {
    var (c, r) := C.Recv(s.chans[ch], s.current);
    var t := Blocking(s, r.RecvBlocks?);
    Move(ch, touched, rest, s, c, t.status, t.panics, s.inbox)
  }

  lemma RecvSteps<T>(s: Sys<T>, ch: nat, touched: set<G<T>>, rest: set<object>)
    requires Inv(s) && Acting(s) && ch < |s.chans|
    ensures var n := AfterRecv(C.Recv(s.chans[ch], s.current).1); var t := Moved(RecvMove(s, ch, touched, rest));
      Step(s, RecvFrom(ch)) == Then(t, n) && (n.WakeUp? ==> Core(t, [n.g]))
  {
    RecvFrees(s, ch);
    assert s.chans[ch := s.chans[ch]] == s.chans;
    hide Core, Inv, Ready;
  }

  lemma WakeSteps<T>(s: Sys<T>, nodes: seq<G<T>>)
    requires nodes != [] && Core(s, Ids(nodes))
    ensures var f := Ids(nodes);
      && f != [] && f[0] == nodes[0].id && f[1..] == Ids(nodes[1..])
      && Core(Ready(s, f[0]), Ids(nodes[1..])) && ReadyAll(Ready(s, f[0]), Ids(nodes[1..])) == ReadyAll(s, f)
  {
    IdsRest(nodes);
    ReadyCore(s, Ids(nodes));
  }

  ghost function CloseMove<T>(s: Sys<T>, ch: nat, touched: set<G<T>>, rest: set<object>): Move<T>
    requires ch < |s.chans|
  {
    var (c, r) := C.Close(s.chans[ch]);
    Move(ch, touched, rest, s, c, s.status, FlagsAfter(s.panics, r), CellsAfter(s.inbox, r))
  }

  lemma CloseSteps<T>(s: Sys<T>, ch: nat, touched: set<G<T>>, rest: set<object>)
    requires Inv(s) && Acting(s) && ch < |s.chans|
    ensures var r := C.Close(s.chans[ch]).1; var t := Moved(CloseMove(s, ch, touched, rest));
      && Step(s, CloseChan(ch))
         == (if r.ClosePanics? then t.(phase := Aborted(CloseOfClosed)) else ReadyAll(t, WakeOrder(r)))
      && (r.Closes? ==> Core(t, WakeOrder(r)))
  {
    CloseFrees(s, ch);
    assert s.chans[ch := s.chans[ch]] == s.chans;
    hide Core, Inv, ReadyAll;
  }

  ghost function Together<T>(a: seq<G<T>>, b: seq<G<T>>, g: G?<T>): set<G<T>> {
    (set x | x in a) + (set x | x in b) + Just(g)
  }

  lemma TogetherWithin<T>(threads: map<nat, G<T>>, all: set<G<T>>, s: Sys<T>, a: seq<G<T>>, b: seq<G<T>>, g: G?<T>)
    requires ThreadsHold(threads, all, s.status, s.panics) && Known(threads, a) && Known(threads, b)
    requires g != null ==> Known(threads, [g])
    ensures Together(a, b, g) <= all && Within(a, Together(a, b, g)) && Within(b, Together(a, b, g))
    ensures g != null ==> g in Together(a, b, g)
  {
    if g != null { assert [g][0] == g; }
  }

  lemma TogetherSpares<T>(a: seq<G<T>>, b: seq<G<T>>, g: G?<T>, nodes: seq<G<T>>)
    requires Disjoint(a, nodes) || Disjoint(nodes, a)
    requires Disjoint(b, nodes) || Disjoint(nodes, b)
    requires g != null ==> Absent(g, nodes)
    ensures Clear(nodes, Together(a, b, g))
  {
  }

  twostate predicate Same(objects: set<object>)
    reads objects
  {
    unchanged(objects)
  }

  lemma KnownRest<T>(threads: map<nat, G<T>>, nodes: seq<G<T>>)
    requires Known(threads, nodes)
    ensures nodes != [] ==> Known(threads, nodes[1..]) && Known(threads, [nodes[0]])
  {
  }

  lemma KnownMore<T>(threads: map<nat, G<T>>, nodes: seq<G<T>>, g: G<T>)
    requires Known(threads, nodes) && Known(threads, [g])
    ensures Known(threads, nodes + [g])
  {
    assert [g][0] == g;
  }

  ghost predicate NoNodes<T>(objects: set<object>) { forall o: object :: o in objects ==> !(o is G<T>) }

  ghost predicate Clear<T>(nodes: seq<G<T>>, touched: set<G<T>>) {
    forall i :: 0 <= i < |nodes| ==> nodes[i] !in touched
  }

  ghost predicate Within<T>(nodes: seq<G<T>>, touched: set<G<T>>) {
    forall i :: 0 <= i < |nodes| ==> nodes[i] in touched
  }

  /** A send, with what it leaves alone among all nodes. */
  method SendTouching<T(0)>(c: Chan<T>, g: G?<T>, v: T, ghost touched: set<G<T>>, ghost all: set<G<T>>,
                            ghost rest: set<object>, ghost threads: map<nat, G<T>>,
                            ghost inbox: map<nat, Option<T>>)
      returns (r: C.SendResult, woken: G?<T>)
    requires c.Valid() && (g != null ==> g in touched && Absent(g, c.sendQ.nodes) && Absent(g, c.recvQ.nodes))
    requires Within(c.sendQ.nodes, touched) && Within(c.recvQ.nodes, touched) && touched <= all
    requires Known(threads, c.sendQ.nodes) && Known(threads, c.recvQ.nodes) && (g != null ==> Known(threads, [g]))
    requires c !in rest && c.buffer !in rest && c.sendQ !in rest && c.recvQ !in rest && NoNodes<T>(rest)
    requires CellsHold(threads, all, inbox, c.zero) && (g != null ==> g.id !in inbox)
    modifies c, c.buffer, c.sendQ, c.recvQ, all`next, all`data, all`status, all`chanPanic
    ensures c.Valid() && Known(threads, c.sendQ.nodes) && Known(threads, c.recvQ.nodes)
    ensures (c.Abs(), r) == C.Send(old(c.Abs()), if g == null then None else Some(g.id), v)
    ensures AfterSend(r).WakeUp? ==> woken != null && woken.id == AfterSend(r).g && Known(threads, [woken])
    ensures r.SendBlocks? ==> g != null && g.status == GWaiting && !g.chanPanic
    ensures CellsHold(threads, all, HandIn(inbox, r, v), c.zero)
    ensures unchanged(rest)
    ensures forall x :: x in all && x !in touched ==> x.next == old(x.next) && x.data == old(x.data)
    ensures forall x :: x in all && (x != g || !r.SendBlocks?) ==>
      x.status == old(x.status) && x.chanPanic == old(x.chanPanic)
  {
    hide C.Send, C.WellFormed, Known, Chained, Ids, Offers;
    KnownRest(threads, c.recvQ.nodes);
    if g != null { KnownMore(threads, c.sendQ.nodes, g); }
    r, woken := c.Send(g, v);
    assert forall x :: x in all && (x != g || !r.SendBlocks?) && (r.Handed? ==> x != woken) ==> x.data == old(x.data);
    CellsSent(threads, all, inbox, c.zero, r, v, woken);
  }

  lemma CellsSent<T>(threads: map<nat, G<T>>, all: set<G<T>>, inbox: map<nat, Option<T>>, zero: T,
                     r: C.SendResult, v: T, woken: G?<T>)
    requires r.Handed? ==>
      woken != null && woken in all && woken.id == r.receiver && woken.data == v && Known(threads, [woken])
    requires forall k :: k in inbox ==> k in threads && threads[k].id == k && threads[k] in all
    requires forall k :: k in inbox && (r.Handed? ==> k != r.receiver) ==> threads[k].data == Cell(inbox[k], zero)
    ensures CellsHold(threads, all, HandIn(inbox, r, v), zero)
  {
    if r.Handed? { assert [woken][0] == woken; }
  }

  method RecvTouching<T(0)>(c: Chan<T>, g: G?<T>, ghost touched: set<G<T>>, ghost all: set<G<T>>,
                            ghost rest: set<object>, ghost threads: map<nat, G<T>>,
                            ghost inbox: map<nat, Option<T>>)
      returns (r: C.RecvResult<T>, woken: G?<T>)
    requires c.Valid() && (g != null ==> g in touched && Absent(g, c.sendQ.nodes) && Absent(g, c.recvQ.nodes))
    requires Within(c.sendQ.nodes, touched) && Within(c.recvQ.nodes, touched) && touched <= all
    requires Known(threads, c.sendQ.nodes) && Known(threads, c.recvQ.nodes) && (g != null ==> Known(threads, [g]))
    requires c !in rest && c.buffer !in rest && c.sendQ !in rest && c.recvQ !in rest && NoNodes<T>(rest)
    requires CellsHold(threads, all, inbox, c.zero)
    modifies c, c.buffer, c.sendQ, c.recvQ, all`next, all`status, all`chanPanic
    ensures c.Valid() && Known(threads, c.sendQ.nodes) && Known(threads, c.recvQ.nodes)
    ensures (c.Abs(), r) == C.Recv(old(c.Abs()), if g == null then None else Some(g.id))
    ensures AfterRecv(r).WakeUp? ==> woken != null && woken.id == AfterRecv(r).g && Known(threads, [woken])
    ensures r.RecvBlocks? ==> g != null && g.status == GWaiting && !g.chanPanic
    ensures CellsHold(threads, all, inbox, c.zero)
    ensures unchanged(rest)
    ensures forall x :: x in all && x !in touched ==> x.next == old(x.next) && x.data == old(x.data)
    ensures forall x :: x in all && (x != g || !r.RecvBlocks?) ==>
      x.status == old(x.status) && x.chanPanic == old(x.chanPanic)
  {
    hide CellsHold, C.Recv, C.WellFormed, Known, Chained, Ids, Offers;
    KnownRest(threads, c.sendQ.nodes);
    if g != null { KnownMore(threads, c.recvQ.nodes, g); }
    var v;
    r, v, woken := c.Recv(g);
  }

  method CloseTouching<T(0)>(c: Chan<T>, ghost touched: set<G<T>>, ghost all: set<G<T>>,
                             ghost rest: set<object>, ghost threads: map<nat, G<T>>, ghost status: map<nat, Status>,
                             ghost flags: set<nat>, ghost inbox: map<nat, Option<T>>)
      returns (panics: bool, wake: GQueue<T>)
    requires c.Valid() && Within(c.sendQ.nodes, touched) && Within(c.recvQ.nodes, touched) && touched <= all
    requires Known(threads, c.sendQ.nodes) && Known(threads, c.recvQ.nodes) && ThreadsHold(threads, all, status, flags)
    requires c !in rest && c.buffer !in rest && c.sendQ !in rest && c.recvQ !in rest && NoNodes<T>(rest)
    requires CellsHold(threads, all, inbox, c.zero)
    modifies c, c.sendQ, c.recvQ, all`next, all`data, all`chanPanic
    ensures c.Valid() && Known(threads, c.sendQ.nodes) && Known(threads, c.recvQ.nodes)
    ensures c.Abs() == C.Close(old(c.Abs())).0 && panics == C.Close(old(c.Abs())).1.ClosePanics?
    ensures fresh(wake) && wake.Valid() && Known(threads, wake.nodes) && Within(wake.nodes, touched)
    ensures Ids(wake.nodes) == WakeOrder(C.Close(old(c.Abs())).1)
    ensures ThreadsHold(threads, all, status, FlagsAfter(flags, C.Close(old(c.Abs())).1))
    ensures CellsHold(threads, all, CellsAfter(inbox, C.Close(old(c.Abs())).1), c.zero)
    ensures unchanged(rest)
    ensures forall x :: x in all && x !in touched ==> x.next == old(x.next) && x.data == old(x.data)
  {
    ghost var senders, receivers := c.sendQ.nodes, c.recvQ.nodes;
    CloseFacts(c, threads, touched, flags);
    CellsFacts(threads, all, inbox, c.zero);
    assert forall k :: k in threads ==> (threads[k].chanPanic <==> k in flags);
    hide C.WellFormed, C.Close, C.Threads, Known, Within, Ids, Offers, PanicsAfter, FlagsAfter, WakeOrder, Chained,
      ThreadsHold, CellsHold, ZeroIn;
    panics, wake := CloseRaw(c, touched, all);
    if panics {
      FlagsSame(threads, all, status, flags);
    } else {
      FlagsHold(threads, all, status, flags, receivers, senders);
      CellsZeroed(threads, all, inbox, c.zero, receivers);
    }
  }

  lemma CellsFacts<T>(threads: map<nat, G<T>>, all: set<G<T>>, inbox: map<nat, Option<T>>, zero: T)
    requires CellsHold(threads, all, inbox, zero)
    ensures forall k :: k in inbox ==> k in threads && threads[k].id == k && threads[k] in all
    ensures forall k :: k in inbox ==> threads[k].data == Cell(inbox[k], zero)
  {
  }

  lemma CellsZeroed<T>(threads: map<nat, G<T>>, all: set<G<T>>, inbox: map<nat, Option<T>>, zero: T,
                       receivers: seq<G<T>>)
    requires Known(threads, receivers) && forall x :: x in receivers ==> x in all && x.data == zero
    requires forall k :: k in inbox ==> k in threads && threads[k].id == k && threads[k] in all
    requires forall k :: k in inbox && threads[k] !in receivers ==> threads[k].data == Cell(inbox[k], zero)
    ensures CellsHold(threads, all, ZeroIn(inbox, Ids(receivers)), zero)
  {
    forall k | k in inbox ensures k in Ids(receivers) <==> threads[k] in receivers { IdIn(threads, receivers, k); }
  }

  lemma FlagsSame<T>(threads: map<nat, G<T>>, all: set<G<T>>, status: map<nat, Status>, flags: set<nat>)
    requires status.Keys == threads.Keys && flags <= threads.Keys
    requires forall k :: k in threads ==>
      && threads[k].id == k && threads[k] in all
      && threads[k].status == status[k] && (threads[k].chanPanic <==> k in flags)
    ensures ThreadsHold(threads, all, status, flags)
  {
  }

  method CloseRaw<T(0)>(c: Chan<T>, ghost touched: set<G<T>>, ghost all: set<G<T>>)
      returns (panics: bool, wake: GQueue<T>)
    requires c.Valid() && Within(c.sendQ.nodes, touched) && Within(c.recvQ.nodes, touched) && touched <= all
    modifies c, c.sendQ, c.recvQ, all`next, all`data, all`chanPanic
    ensures c.Valid() && c.Abs() == C.Close(old(c.Abs())).0 && panics == old(c.closed)
    ensures fresh(wake) && wake.Valid() && wake.nodes == if panics then [] else old(c.recvQ.nodes) + old(c.sendQ.nodes)
    ensures if panics then c.sendQ.nodes == old(c.sendQ.nodes) && c.recvQ.nodes == old(c.recvQ.nodes)
            else c.sendQ.nodes == c.recvQ.nodes == []
    ensures forall x :: x in all && x !in touched ==> x.next == old(x.next) && x.data == old(x.data)
    ensures forall x :: x in all && (panics || (x !in old(c.recvQ.nodes) && x !in old(c.sendQ.nodes))) ==>
      x.chanPanic == old(x.chanPanic)
    ensures !panics ==> forall x :: x in old(c.recvQ.nodes) ==> !x.chanPanic && x.data == c.zero
    ensures !panics ==> forall x :: x in old(c.sendQ.nodes) ==> x.chanPanic
    ensures forall x :: x in all && (panics || x !in old(c.recvQ.nodes)) ==> x.data == old(x.data)
  {
    hide C.WellFormed, Chained, Ids, C.Threads, Offers;
    panics, wake := c.Close();
  }

  lemma CloseFacts<T(0)>(c: Chan<T>, threads: map<nat, G<T>>, touched: set<G<T>>, flags: set<nat>)
    requires c.Valid() && Within(c.sendQ.nodes, touched) && Within(c.recvQ.nodes, touched)
    requires Known(threads, c.sendQ.nodes) && Known(threads, c.recvQ.nodes)
    ensures var senders, receivers := c.sendQ.nodes, c.recvQ.nodes;
      var woken := if c.closed then [] else receivers + senders;
      && Known(threads, woken) && Within(woken, touched) && Known(threads, [])
      && WakeOrder(C.Close(c.Abs()).1) == Ids(woken) && C.Close(c.Abs()).1.ClosePanics? == c.closed
      && FlagsAfter(flags, C.Close(c.Abs()).1)
         == if c.closed then flags else PanicsAfter(flags, Ids(receivers), Ids(senders))
  {
    IdsAre(Offers(c.sendQ.nodes), c.sendQ.nodes);
    IdsConcat(c.recvQ.nodes, c.sendQ.nodes);
    Both(threads, touched, c.recvQ.nodes, c.sendQ.nodes);
    hide Known, Within, Chained, PanicsAfter, C.WellFormed;
  }

  lemma Both<T>(threads: map<nat, G<T>>, touched: set<G<T>>, a: seq<G<T>>, b: seq<G<T>>)
    requires Known(threads, a) && Known(threads, b) && Within(a, touched) && Within(b, touched)
    ensures Known(threads, a + b) && Within(a + b, touched) && Known(threads, []) && Within([], touched)
  {
  }

  lemma FlagsHold<T>(threads: map<nat, G<T>>, all: set<G<T>>, status: map<nat, Status>, flags: set<nat>,
                     receivers: seq<G<T>>, senders: seq<G<T>>)
    requires Known(threads, receivers) && Known(threads, senders)
    requires status.Keys == threads.Keys && flags <= threads.Keys
    requires forall k :: k in threads ==> threads[k].id == k && threads[k] in all && threads[k].status == status[k]
    requires forall k :: k in threads && threads[k] !in senders && threads[k] !in receivers ==>
      (threads[k].chanPanic <==> k in flags)
    requires forall x :: x in receivers && x !in senders ==> !x.chanPanic
    requires forall x :: x in senders ==> x.chanPanic
    ensures ThreadsHold(threads, all, status, PanicsAfter(flags, Ids(receivers), Ids(senders)))
  {
    forall k | k in threads ensures k in Ids(senders) <==> threads[k] in senders { IdIn(threads, senders, k); }
    forall k | k in threads ensures k in Ids(receivers) <==> threads[k] in receivers { IdIn(threads, receivers, k); }
    forall k | k in Ids(senders) || k in Ids(receivers) ensures k in threads {}
  }

  lemma IdIn<T>(threads: map<nat, G<T>>, nodes: seq<G<T>>, k: nat)
    requires Known(threads, nodes) && k in threads && threads[k].id == k
    ensures k in Ids(nodes) <==> threads[k] in nodes
  {
    if k in Ids(nodes) {
      var i :| 0 <= i < |nodes| && Ids(nodes)[i] == k;
      assert nodes[i].id == k;
    }
    if threads[k] in nodes {
      var i :| 0 <= i < |nodes| && nodes[i] == threads[k];
      assert Ids(nodes)[i] == k;
    }
  }

  ghost function FlagsAfter(flags: set<nat>, r: C.CloseResult): set<nat> {
    match r case ClosePanics => flags case Closes(rs, ss) => PanicsAfter(flags, rs, ss)
  }

  ghost function CellsAfter<T>(inbox: map<nat, Option<T>>, r: C.CloseResult): map<nat, Option<T>> {
    match r case ClosePanics => inbox case Closes(rs, _) => ZeroIn(inbox, rs)
  }

  lemma EmptyQueues<T(0)>(c: Chan<T>, cap: nat)
    requires c.Valid() && c.Abs() == C.New(cap)
    ensures ChanHolds(c, C.New(cap)) && c.sendQ.nodes == c.recvQ.nodes == []
  {
    assert |Offers(c.sendQ.nodes)| == 0 && |Ids(c.recvQ.nodes)| == 0;
  }

  lemma KnownLater<T>(threads: map<nat, G<T>>, g: G<T>, nodes: seq<G<T>>)
    requires Known(threads, nodes) && g.id !in threads
    ensures Known(threads[g.id := g], nodes) && Absent(g, nodes)
  {
  }

  lemma ThreadsHoldLater<T>(threads: map<nat, G<T>>, all: set<G<T>>, status: map<nat, Status>, panics: set<nat>,
                            g: G<T>)
    requires ThreadsHold(threads, all, status, panics) && g in all && g.id !in threads
    requires g.status == GRunnable && !g.chanPanic
    ensures ThreadsHold(threads[g.id := g], all, status[g.id := GRunnable], panics)
  {
  }

  lemma CellsHoldLater<T>(threads: map<nat, G<T>>, all: set<G<T>>, inbox: map<nat, Option<T>>, zero: T, g: G<T>)
    requires CellsHold(threads, all, inbox, zero) && g.id !in threads
    ensures CellsHold(threads[g.id := g], all, inbox, zero)
  {
  }

  lemma PickIs<T>(s: Sys<T>)
    requires s.phase == InLoop && s.current == None
    ensures Step(s, Pick) == PickStep(s)
    ensures var (r, g) := FindRunnable(s);
      && r.phase == s.phase && r.live == s.live && r.hasP == s.hasP
      && (g.None? ==>
            PickStep(s) == if s.live <= 0 then r.(hasP := false, phase := InMain) else r.(phase := Aborted(Deadlock)))
      && (g.Some? ==> PickStep(s) == Resumed(r, g.value))
  {
  }

  ghost predicate Absent<T>(g: G<T>, nodes: seq<G<T>>) { forall i :: 0 <= i < |nodes| ==> nodes[i] != g }

  lemma NotQueued<T>(nodes: seq<G<T>>, g: G<T>)
    requires Count(Ids(nodes), g.id) == 0
    ensures Absent(g, nodes)
  {
    CountMember(Ids(nodes), g.id);
    forall i | 0 <= i < |nodes| ensures nodes[i] != g { assert Ids(nodes)[i] == nodes[i].id; }
  }

  lemma NoShare<T>(a: seq<G<T>>, b: seq<G<T>>)
    requires forall x: nat :: Count(Ids(a), x) == 0 || Count(Ids(b), x) == 0
    ensures Disjoint(a, b)
  {
    forall i, j | 0 <= i < |a| && 0 <= j < |b| ensures a[i] != b[j] {
      CountMember(Ids(a), a[i].id);
      CountMember(Ids(b), a[i].id);
      assert Ids(a)[i] == a[i].id && Ids(b)[j] == b[j].id;
    }
  }

  lemma IdsButLast<T>(s: seq<G<T>>)
    requires s != []
    ensures Ids(s)[..|s| - 1] == Ids(s[..|s| - 1])
  {
  }
}
