/** The scheduler with one P and no pollers, as a state machine.  A green thread runs until its next
    scheduling point, so one step is one runtime call, or one turn of the scheduling loop. */
module SchedulerSpec {
  import opened Options
  import opened GQueues
  import C = ChanSpec
  import D = Deque

  datatype Fault = Deadlock | SendOnClosed | CloseOfClosed | MainWouldBlock

  /** The main thread, the scheduling loop, or an abort. */
  datatype Phase = InMain | InLoop | Aborted(fault: Fault)

  /** `local` has the newest thread last and begins at index `base` of the ring; `hasP` says that the M holds its
      P; `panics` are the threads whose chan_panic flag is set, and `inbox` says what a receiver that was woken and has
      not run since finds in its cell: the value handed to it, or None for the zero that close writes. */
  datatype Sys<T> = Sys(
    local: seq<nat>, base: nat, global: seq<nat>, current: Option<nat>, status: map<nat, Status>, panics: set<nat>,
    inbox: map<nat, Option<T>>, live: int, nextId: nat, chans: seq<C.Chan<T>>, hasP: bool, phase: Phase)

  function Init<T>(): Sys<T> { Sys([], 0, [], None, map[], {}, map[], 0, 1, [], true, InMain) }

  datatype Action<T> =
    | RunScheduler
    | Pick
    | Spawn
    | Yield(preempted: bool)
    | Exit
    | NewChan(cap: nat)
    | SendTo(ch: nat, v: T)
    | RecvFrom(ch: nat)
    | CloseChan(ch: nat)

  /** run_local_push_or_global */
  function PushLocal<T>(s: Sys<T>, g: nat): Sys<T> {
    if |s.local| < D.SIZE then s.(local := s.local + [g]) else s.(global := s.global + [g])
  }

  /** run_g_ready: with one P, every branch of its search for a P ends at that P, or at the global queue when
      the M holds none. */
  function Ready<T>(s: Sys<T>, g: nat): Sys<T> {
    var r := s.(status := s.status[g := GRunnable]);
    if s.hasP then PushLocal(r, g) else r.(global := r.global + [g])
  }

  function ReadyAll<T>(s: Sys<T>, gs: seq<nat>): Sys<T>
    decreases gs
  {
    if gs == [] then s else ReadyAll(Ready(s, gs[0]), gs[1..])
  }

  /** The 32-bit tail counter of the local queue reads zero, which its pop takes for an empty queue. */
  predicate TailReadsZero<T>(s: Sys<T>) { (s.base + |s.local|) % D.WORD == 0 }

  /** The local queue without its newest thread.  Taking the last one moves the head forward. */
  function PopLocal<T>(s: Sys<T>): Sys<T>
    requires s.local != []
  {
    s.(local := s.local[..|s.local| - 1], base := if |s.local| == 1 then s.base + 1 else s.base)
  }

  /** run_find_runnable: the newest local thread, else the oldest global one. */
  function FindRunnable<T>(s: Sys<T>): (Sys<T>, Option<nat>) {
    if s.local != [] && !TailReadsZero(s) then (PopLocal(s), Some(s.local[|s.local| - 1]))
    else if s.global != [] then (s.(global := s.global[1..]), Some(s.global[0]))
    else (s, None)
  }

  /** The switch into g, which reads its cell if it was blocked in a receive, and panics at once if it was blocked
      in a send when its channel was closed. */
  function Resumed<T>(s: Sys<T>, g: nat): Sys<T> {
    var r := s.(current := Some(g), status := s.status[g := GRunning], inbox := s.inbox - {g});
    if g in s.panics then r.(panics := s.panics - {g}, phase := Aborted(SendOnClosed)) else r
  }

  /** One turn of the loop up to the switch into the thread it found. */
  function PickStep<T>(s: Sys<T>): Sys<T> {
    var (r, g) := FindRunnable(s);
    match g
    case None => if s.live <= 0 then s.(hasP := false, phase := InMain) else s.(phase := Aborted(Deadlock))
    case Some(id) => Resumed(r, id)
  }

  function SpawnStep<T>(s: Sys<T>): Sys<T> {
    var id := s.nextId;
    PushLocal(s.(status := s.status[id := GRunnable], live := s.live + 1, nextId := id + 1, hasP := true), id)
  }

  function YieldStep<T>(s: Sys<T>, g: nat, preempted: bool): Sys<T> {
    var r := s.(status := s.status[g := GRunnable], current := None);
    if preempted then r.(global := r.global + [g]) else PushLocal(r, g)
  }

  function ExitStep<T>(s: Sys<T>, g: nat): Sys<T> {
    s.(status := s.status[g := GDead], current := None, live := s.live - 1)
  }

  function Park<T>(s: Sys<T>): Sys<T> {
    match s.current
    case None => s
    case Some(g) => s.(status := s.status[g := GWaiting], panics := s.panics - {g}, current := None)
  }

  /** A value handed over goes to its receiver's cell. */
  function HandIn<T>(inbox: map<nat, Option<T>>, r: C.SendResult, v: T): map<nat, Option<T>> {
    if r.Handed? then inbox[r.receiver := Some(v)] else inbox
  }

  function SendStep<T>(s: Sys<T>, ch: nat, v: T): Sys<T>
    requires ch < |s.chans|
  {
    var (c, r) := C.Send(s.chans[ch], s.current, v);
    var t := s.(chans := s.chans[ch := c], inbox := HandIn(s.inbox, r, v));
    match r
    case SendPanics => s.(phase := Aborted(SendOnClosed))
    case Handed(to) => Ready(t, to)
    case Buffered => t
    case SendBlocks => Park(t)
    case SendStuck => s.(phase := Aborted(MainWouldBlock))
  }

  function RecvStep<T>(s: Sys<T>, ch: nat): Sys<T>
    requires ch < |s.chans|
  {
    var (c, r) := C.Recv(s.chans[ch], s.current);
    var t := s.(chans := s.chans[ch := c]);
    match r
    case Got(_, woken) => if woken.Some? then Ready(t, woken.value) else t
    case GotZero => s
    case RecvBlocks => Park(t)
    case RecvStuck => s.(phase := Aborted(MainWouldBlock))
  }

  /** Close clears the flag of the receivers it wakes and sets that of the senders. */
  function PanicsAfter(panics: set<nat>, receivers: seq<nat>, senders: seq<nat>): set<nat> {
    (panics - set g | g in receivers) + set g | g in senders
  }

  function ZeroIn<T>(inbox: map<nat, Option<T>>, receivers: seq<nat>): map<nat, Option<T>> {
    inbox + map g | g in receivers :: None
  }

  /** The locked region of a close. */
  function Shut<T>(s: Sys<T>, ch: nat): Sys<T>
    requires ch < |s.chans|
  {
    var (c, r) := C.Close(s.chans[ch]);
    match r
    case ClosePanics => s
    case Closes(rs, ss) =>
      s.(chans := s.chans[ch := c], panics := PanicsAfter(s.panics, rs, ss), inbox := ZeroIn(s.inbox, rs))
  }

  function CloseStep<T>(s: Sys<T>, ch: nat): Sys<T>
    requires ch < |s.chans|
  {
    match C.Close(s.chans[ch]).1
    case ClosePanics => s.(phase := Aborted(CloseOfClosed))
    case Closes(rs, ss) => ReadyAll(Shut(s, ch), rs + ss)
  }

  /** The main thread, or a thread the loop has switched to, is executing program code. */
  predicate Acting<T>(s: Sys<T>) { s.phase.InMain? || (s.phase.InLoop? && s.current.Some?) }

  /** One step; an action that is not possible in s changes nothing. */
  function Step<T>(s: Sys<T>, a: Action<T>): Sys<T> {
    match a
    case RunScheduler => if s.phase.InMain? then s.(phase := InLoop, hasP := true) else s
    case Pick => if s.phase.InLoop? && s.current.None? then PickStep(s) else s
    case Spawn => if Acting(s) then SpawnStep(s) else s
    case Yield(p) => if s.phase.InLoop? && s.current.Some? then YieldStep(s, s.current.value, p) else s
    case Exit => if s.phase.InLoop? && s.current.Some? then ExitStep(s, s.current.value) else s
    case NewChan(cap) => if Acting(s) then s.(chans := s.chans + [C.New(cap)]) else s
    case SendTo(ch, v) => if Acting(s) && ch < |s.chans| then SendStep(s, ch, v) else s
    case RecvFrom(ch) => if Acting(s) && ch < |s.chans| then RecvStep(s, ch) else s
    case CloseChan(ch) => if Acting(s) && ch < |s.chans| then CloseStep(s, ch) else s
  }

  function Run<T>(acts: seq<Action<T>>): Sys<T> {
    if acts == [] then Init() else Step(Run(acts[..|acts| - 1]), acts[|acts| - 1])
  }

  // ---------- Where threads are ----------

  predicate IsLive<T>(s: Sys<T>, g: nat) { g in s.status && s.status[g] != GDead }

  ghost function Live<T>(s: Sys<T>): set<nat> { set g | g in s.status && s.status[g] != GDead }

  /** How often g occurs in a queue. */
  function Count(q: seq<nat>, g: nat): nat {
    if q == [] then 0 else Count(q[..|q| - 1], g) + if q[|q| - 1] == g then 1 else 0
  }

  /** How often g occurs in one channel's wait queues, and in those of all channels. */
  function CountWaiting<T>(c: C.Chan<T>, g: nat): nat { Count(C.Threads(c.senders), g) + Count(c.receivers, g) }

  function CountBlocked<T>(chans: seq<C.Chan<T>>, g: nat): nat {
    if chans == [] then 0 else CountBlocked(chans[..|chans| - 1], g) + CountWaiting(chans[|chans| - 1], g)
  }

  function CountQueued<T>(s: Sys<T>, g: nat): nat { Count(s.local, g) + Count(s.global, g) }

  function CountCurrent<T>(s: Sys<T>, g: nat): nat { if s.current == Some(g) then 1 else 0 }

  /** g, when live, is in exactly one place and has that place's status; when dead or unknown it is nowhere.
      The threads in f have left a channel queue and are not yet runnable again. */
  ghost predicate Placed<T>(s: Sys<T>, f: seq<nat>, g: nat) {
    && CountCurrent(s, g) + CountQueued(s, g) + CountBlocked(s.chans, g) + Count(f, g)
       == (if IsLive(s, g) then 1 else 0)
    && (CountQueued(s, g) > 0 ==> g in s.status && s.status[g] == GRunnable)
    && (s.current == Some(g) ==> g in s.status && s.status[g] == GRunning)
    && (CountBlocked(s.chans, g) + Count(f, g) > 0 ==> g in s.status && s.status[g] == GWaiting)
    && (g in s.status ==> g < s.nextId)
  }

  ghost predicate ChansOk<T>(chans: seq<C.Chan<T>>) {
    forall i :: 0 <= i < |chans| ==> C.WellFormed(chans[i])
  }

  ghost predicate Core<T>(s: Sys<T>, f: seq<nat>) {
    && (forall g: nat :: Placed(s, f, g))
    && s.live == |Live(s)|
    && ChansOk(s.chans)
    && |s.local| <= D.SIZE
  }

  ghost predicate NoneBlocked<T>(s: Sys<T>) { forall g: nat :: CountBlocked(s.chans, g) == 0 }

  /** The running thread has read its cell. */
  ghost predicate HasRead<T>(s: Sys<T>) { s.current.Some? ==> s.current.value !in s.inbox }

  /** What holds between any two steps of any run: every live thread is in exactly one place, its status says
      which kind, live_g_count counts the live threads, no thread is blocked while the main thread runs, and the
      running thread has no unread value. */
  ghost predicate Inv<T>(s: Sys<T>) {
    && Core(s, [])
    && (s.phase.InMain? ==> s.current == None && NoneBlocked(s))
    && (s.phase.InLoop? ==> s.hasP)
    && HasRead(s)
  }

  // ---------- Counting ----------

  lemma CountAppend(q: seq<nat>, x: nat, g: nat)
    ensures Count(q + [x], g) == Count(q, g) + if x == g then 1 else 0
  {
    assert (q + [x])[..|q|] == q;
  }

  lemma CountOne(x: nat, g: nat)
    ensures Count([x], g) == (if x == g then 1 else 0) && Count([], g) == 0
  {
    assert [x][..0] == [];
  }

  lemma {:induction false} CountConcat(p: seq<nat>, q: seq<nat>, g: nat)
    ensures Count(p + q, g) == Count(p, g) + Count(q, g)
  {
    if q == [] {
      assert p + q == p;
    } else {
      CountConcat(p, q[..|q| - 1], g);
      assert (p + q)[..|p + q| - 1] == p + q[..|q| - 1];
    }
  }

  lemma CountFirst(q: seq<nat>, g: nat)
    requires q != []
    ensures Count(q, g) == (if q[0] == g then 1 else 0) + Count(q[1..], g)
  {
    assert q == [q[0]] + q[1..];
    CountConcat([q[0]], q[1..], g);
    assert [q[0]][..0] == [];
  }

  lemma {:induction false} CountMember(q: seq<nat>, g: nat)
    ensures Count(q, g) > 0 <==> g in q
  {
    if q != [] {
      CountMember(q[..|q| - 1], g);
      assert q == q[..|q| - 1] + [q[|q| - 1]];
    }
  }

  lemma {:induction false} BlockedUpdate<T>(chans: seq<C.Chan<T>>, i: nat, c: C.Chan<T>, g: nat)
    requires i < |chans|
    ensures CountBlocked(chans[i := c], g) + CountWaiting(chans[i], g) == CountBlocked(chans, g) + CountWaiting(c, g)
  {
    var n := |chans| - 1;
    if i == n {
      assert chans[i := c][..n] == chans[..n];
    } else {
      BlockedUpdate(chans[..n], i, c, g);
      assert chans[i := c][..n] == chans[..n][i := c];
    }
  }

  lemma WaitingOnce<T>(chans: seq<C.Chan<T>>, i: nat, j: nat, g: nat)
    requires i < |chans| && j < |chans|
    ensures CountWaiting(chans[i], g) <= CountBlocked(chans, g)
    ensures i != j ==> CountWaiting(chans[i], g) + CountWaiting(chans[j], g) <= CountBlocked(chans, g)
  {
    var none := C.New<T>(0);
    assert CountWaiting(none, g) == 0;
    BlockedUpdate(chans, i, none, g);
    if i != j { BlockedUpdate(chans[i := none], j, none, g); }
  }

  // ---------- Steps keep the invariant ----------

  lemma SameLive<T>(s: Sys<T>, s': Sys<T>)
    requires forall g: nat :: IsLive(s, g) == IsLive(s', g)
    ensures Live(s) == Live(s')
  {
    forall g ensures g in Live(s) <==> g in Live(s') { assert IsLive(s, g) == IsLive(s', g); }
  }

  /** The fields the thread invariant does not read. */
  lemma SameCore<T>(s: Sys<T>, s': Sys<T>, f: seq<nat>)
    requires Core(s, f) && s' == s.(phase := s'.phase, panics := s'.panics, inbox := s'.inbox, hasP := s'.hasP)
    ensures Core(s', f)
  {
    forall g: nat ensures Placed(s', f, g) { assert Placed(s, f, g); }
    assert Live(s') == Live(s);
  }

  lemma StillNoneBlocked<T>(s: Sys<T>, s': Sys<T>)
    requires forall g: nat :: CountBlocked(s'.chans, g) <= CountBlocked(s.chans, g)
    ensures NoneBlocked(s) ==> NoneBlocked(s')
  {
    forall g: nat ensures NoneBlocked(s) ==> CountBlocked(s'.chans, g) == 0 {
      assert CountBlocked(s'.chans, g) <= CountBlocked(s.chans, g);
    }
  }

  /** Queueing g adds one occurrence of g to the run queues. */
  lemma PushCounts<T>(s: Sys<T>, g: nat, x: nat)
    ensures CountQueued(PushLocal(s, g), x) == CountQueued(s, x) + if g == x then 1 else 0
    ensures CountQueued(s.(global := s.global + [g]), x) == CountQueued(s, x) + if g == x then 1 else 0
  {
    hide Count;
    CountAppend(s.local, g, x);
    CountAppend(s.global, g, x);
  }

  lemma ReadyCounts<T>(s: Sys<T>, g: nat, x: nat)
    ensures CountQueued(Ready(s, g), x) == CountQueued(s, x) + if g == x then 1 else 0
  {
    hide Count;
    var r := s.(status := s.status[g := GRunnable]);
    PushCounts(r, g, x);
    assert CountQueued(r, x) == CountQueued(s, x);
  }

  lemma ReadyPlaced<T>(s: Sys<T>, f: seq<nat>, g: nat)
    requires f != [] && Placed(s, f, g) && f[0] in s.status && s.status[f[0]] == GWaiting
    ensures Placed(Ready(s, f[0]), f[1..], g) && IsLive(s, g) == IsLive(Ready(s, f[0]), g)
  {
    hide CountQueued, Count;
    CountFirst(f, g);
    ReadyCounts(s, f[0], g);
  }

  /** What making a thread runnable does not touch. */
  lemma ReadyLeaves<T>(s: Sys<T>, g: nat)
    ensures var r := Ready(s, g);
      && r.chans == s.chans && r.current == s.current && r.phase == s.phase && r.hasP == s.hasP
      && r.inbox == s.inbox && r.live == s.live && (|s.local| <= D.SIZE ==> |r.local| <= D.SIZE)
  {
  }

  /** A thread in no place becomes runnable. */
  lemma ReadyCore<T>(s: Sys<T>, f: seq<nat>)
    requires Core(s, f) && f != []
    ensures Core(Ready(s, f[0]), f[1..]) && Ready(s, f[0]).chans == s.chans
    ensures Ready(s, f[0]).current == s.current && Ready(s, f[0]).phase == s.phase && Ready(s, f[0]).hasP == s.hasP
    ensures Ready(s, f[0]).inbox == s.inbox
  {
    var s' := Ready(s, f[0]);
    ReadyLeaves(s, f[0]);
    assert f[0] in s.status && s.status[f[0]] == GWaiting by {
      assert Placed(s, f, f[0]);
      CountFirst(f, f[0]);
    }
    hide Placed, Ready;
    forall g: nat ensures Placed(s', f[1..], g) && IsLive(s, g) == IsLive(s', g) {
      assert Placed(s, f, g);
      ReadyPlaced(s, f, g);
    }
    SameLive(s, s');
  }

  lemma {:induction false} ReadyAllCore<T>(s: Sys<T>, gs: seq<nat>)
    requires Core(s, gs)
    ensures Core(ReadyAll(s, gs), []) && ReadyAll(s, gs).chans == s.chans
    ensures ReadyAll(s, gs).current == s.current && ReadyAll(s, gs).phase == s.phase
    ensures ReadyAll(s, gs).hasP == s.hasP && ReadyAll(s, gs).inbox == s.inbox
    decreases gs
  {
    if gs != [] {
      ReadyCore(s, gs);
      ReadyAllCore(Ready(s, gs[0]), gs[1..]);
    }
  }

  /** A channel operation that takes the threads f out of its queues. */
  lemma ChannelFrees<T>(s: Sys<T>, ch: nat, c: C.Chan<T>, f: seq<nat>)
    requires Core(s, []) && ch < |s.chans| && C.WellFormed(c)
    requires forall g: nat :: CountWaiting(s.chans[ch], g) == CountWaiting(c, g) + Count(f, g)
    ensures Core(s.(chans := s.chans[ch := c]), f)
    ensures forall g: nat :: CountBlocked(s.chans[ch := c], g) <= CountBlocked(s.chans, g)
  {
    var s' := s.(chans := s.chans[ch := c]);
    forall g: nat ensures Placed(s', f, g) && CountBlocked(s'.chans, g) <= CountBlocked(s.chans, g) {
      assert Placed(s, [], g);
      BlockedUpdate(s.chans, ch, c, g);
      assert CountWaiting(s.chans[ch], g) == CountWaiting(c, g) + Count(f, g);
    }
  }

  /** A thread that was freed is not the running one. */
  lemma FreedIsNotCurrent<T>(s: Sys<T>, f: seq<nat>, g: nat)
    requires Core(s, f) && g in f
    ensures s.current != Some(g)
  {
    assert Placed(s, f, g);
    CountMember(f, g);
  }

  /** The running thread blocks on a channel. */
  lemma ChannelParks<T>(s: Sys<T>, ch: nat, c: C.Chan<T>, me: nat)
    requires Core(s, []) && s.current == Some(me) && ch < |s.chans| && C.WellFormed(c)
    requires forall g: nat :: CountWaiting(c, g) == CountWaiting(s.chans[ch], g) + if g == me then 1 else 0
    ensures Core(Park(s.(chans := s.chans[ch := c])), [])
  {
    hide Count, CountBlocked;
    var s' := Park(s.(chans := s.chans[ch := c]));
    forall g: nat ensures Placed(s', [], g) && IsLive(s, g) == IsLive(s', g) {
      assert Placed(s, [], g);
      BlockedUpdate(s.chans, ch, c, g);
      assert CountWaiting(c, g) == CountWaiting(s.chans[ch], g) + if g == me then 1 else 0;
    }
    SameLive(s, s');
  }

  /** A send leaves the receiver it hands its value to in no place, and otherwise moves nobody. */
  lemma SendFrees<T>(s: Sys<T>, ch: nat, v: T)
    requires Inv(s) && ch < |s.chans|
    ensures var (c, r) := C.Send(s.chans[ch], s.current, v);
      var t := s.(chans := s.chans[ch := c], inbox := HandIn(s.inbox, r, v));
      r.Handed? || r.Buffered? ==>
        && Core(t, if r.Handed? then [r.receiver] else [])
        && forall g: nat :: CountBlocked(t.chans, g) <= CountBlocked(s.chans, g)
  {
    hide Count, CountBlocked;
    var c := s.chans[ch];
    var (c', r) := C.Send(c, s.current, v);
    C.SendKeepsWellFormed(c, s.current, v);
    match r
    case Handed(to) =>
      forall g: nat ensures CountWaiting(c, g) == CountWaiting(c', g) + Count([to], g) {
        CountFirst(c.receivers, g);
        CountOne(to, g);
      }
      var p := s.(inbox := HandIn(s.inbox, r, v));
      SameCore(s, p, []);
      ChannelFrees(p, ch, c', [to]);
    case Buffered =>
      forall g: nat ensures Count([], g) == 0 { CountOne(0, g); }
      ChannelFrees(s, ch, c', []);
    case _ =>
  }

  lemma SendKeeps<T>(s: Sys<T>, ch: nat, v: T)
    requires Inv(s) && Acting(s) && ch < |s.chans|
    ensures Inv(SendStep(s, ch, v))
  {
    hide Count, CountBlocked;
    var c := s.chans[ch];
    var (c', r) := C.Send(c, s.current, v);
    var t := s.(chans := s.chans[ch := c'], inbox := HandIn(s.inbox, r, v));
    SendFrees(s, ch, v);
    match r
    case Handed(to) =>
      ReadyCore(t, [to]);
      FreedIsNotCurrent(t, [to], to);
      assert [to][1..] == [];
      StillNoneBlocked(s, Ready(t, to));
    case Buffered => StillNoneBlocked(s, t);
    case SendBlocks =>
      var me := s.current.value;
      C.SendKeepsWellFormed(c, s.current, v);
      assert C.Threads(c'.senders) == C.Threads(c.senders) + [me];
      forall g: nat ensures CountWaiting(c', g) == CountWaiting(c, g) + if g == me then 1 else 0 {
        CountAppend(C.Threads(c.senders), me, g);
      }
      ChannelParks(s, ch, c', me);
    case _ => SameCore(s, SendStep(s, ch, v), []);
  }

  /** A receive leaves the sender it takes a value from in no place, and otherwise moves nobody. */
  lemma RecvFrees<T>(s: Sys<T>, ch: nat)
    requires Inv(s) && ch < |s.chans|
    ensures var (c, r) := C.Recv(s.chans[ch], s.current); var t := s.(chans := s.chans[ch := c]);
      r.Got? ==>
        && Core(t, if r.woken.Some? then [r.woken.value] else [])
        && forall g: nat :: CountBlocked(t.chans, g) <= CountBlocked(s.chans, g)
  {
    hide Count, CountBlocked;
    var c := s.chans[ch];
    var (c', r) := C.Recv(c, s.current);
    C.RecvKeepsWellFormed(c, s.current);
    if r.Got? && r.woken.Some? {
      var from := r.woken.value;
      assert C.Threads(c.senders)[1..] == C.Threads(c'.senders);
      forall g: nat ensures CountWaiting(c, g) == CountWaiting(c', g) + Count([from], g) {
        CountFirst(C.Threads(c.senders), g);
        CountOne(from, g);
      }
      ChannelFrees(s, ch, c', [from]);
    } else if r.Got? {
      forall g: nat ensures Count([], g) == 0 { CountOne(0, g); }
      ChannelFrees(s, ch, c', []);
    }
  }

  lemma RecvKeeps<T>(s: Sys<T>, ch: nat)
    requires Inv(s) && Acting(s) && ch < |s.chans|
    ensures Inv(RecvStep(s, ch))
  {
    hide Count, CountBlocked;
    var c := s.chans[ch];
    var (c', r) := C.Recv(c, s.current);
    var t := s.(chans := s.chans[ch := c']);
    RecvFrees(s, ch);
    match r
    case Got(_, woken) =>
      if woken.Some? {
        ReadyCore(t, [woken.value]);
        assert [woken.value][1..] == [];
        StillNoneBlocked(s, Ready(t, woken.value));
      } else {
        StillNoneBlocked(s, t);
      }
    case RecvBlocks =>
      var me := s.current.value;
      C.RecvKeepsWellFormed(c, s.current);
      forall g: nat ensures CountWaiting(c', g) == CountWaiting(c, g) + if g == me then 1 else 0 {
        CountAppend(c.receivers, me, g);
      }
      ChannelParks(s, ch, c', me);
    case _ => SameCore(s, RecvStep(s, ch), []);
  }

  /** Close leaves all the threads it wakes in no place. */
  lemma CloseFrees<T>(s: Sys<T>, ch: nat)
    requires Inv(s) && ch < |s.chans|
    ensures var r := C.Close(s.chans[ch]).1;
      r.Closes? ==>
        && Core(Shut(s, ch), r.receivers + r.senders)
        && forall g: nat :: CountBlocked(Shut(s, ch).chans, g) <= CountBlocked(s.chans, g)
  {
    var c := s.chans[ch];
    var (c', r) := C.Close(c);
    C.CloseKeepsWellFormed(c);
    if r.Closes? {
      var p := s.(panics := PanicsAfter(s.panics, r.receivers, r.senders), inbox := ZeroIn(s.inbox, r.receivers));
      SameCore(s, p, []);
      forall g: nat ensures CountWaiting(c, g) == CountWaiting(c', g) + Count(r.receivers + r.senders, g) {
        CountConcat(r.receivers, r.senders, g);
      }
      ChannelFrees(p, ch, c', r.receivers + r.senders);
    }
  }

  lemma CloseKeeps<T>(s: Sys<T>, ch: nat)
    requires Inv(s) && Acting(s) && ch < |s.chans|
    ensures Inv(CloseStep(s, ch))
  {
    match C.Close(s.chans[ch]).1
    case ClosePanics => SameCore(s, CloseStep(s, ch), []);
    case Closes(rs, ss) =>
      var t := Shut(s, ch);
      CloseFrees(s, ch);
      ReadyAllCore(t, rs + ss);
      if s.current.Some? && s.current.value in rs { FreedIsNotCurrent(t, rs + ss, s.current.value); }
      StillNoneBlocked(s, ReadyAll(t, rs + ss));
  }

  lemma SpawnKeeps<T>(s: Sys<T>)
    requires Inv(s)
    ensures Inv(SpawnStep(s))
  {
    hide Count, CountBlocked;
    var s' := SpawnStep(s);
    var id := s.nextId;
    assert Placed(s, [], id);
    forall g: nat ensures Placed(s', [], g) && (g in Live(s') <==> g in Live(s) || g == id) {
      assert Placed(s, [], g);
      SpawnPlaced(s, g);
    }
    assert Live(s') == Live(s) + {id};
  }

  lemma SpawnPlaced<T>(s: Sys<T>, g: nat)
    requires Placed(s, [], g) && s.nextId !in s.status
    ensures Placed(SpawnStep(s), [], g) && (IsLive(SpawnStep(s), g) <==> IsLive(s, g) || g == s.nextId)
  {
    hide Count, CountBlocked;
    var id := s.nextId;
    var r := s.(status := s.status[id := GRunnable], live := s.live + 1, nextId := id + 1, hasP := true);
    PushCounts(r, id, g);
    assert CountQueued(r, g) == CountQueued(s, g);
  }

  lemma YieldKeeps<T>(s: Sys<T>, me: nat, preempted: bool)
    requires Inv(s) && s.phase.InLoop? && s.current == Some(me)
    ensures Inv(YieldStep(s, me, preempted))
  {
    var s' := YieldStep(s, me, preempted);
    assert Placed(s, [], me);
    forall g: nat ensures Placed(s', [], g) && IsLive(s, g) == IsLive(s', g) {
      assert Placed(s, [], g);
      YieldPlaced(s, me, preempted, g);
    }
    SameLive(s, s');
  }

  lemma YieldPlaced<T>(s: Sys<T>, me: nat, preempted: bool, g: nat)
    requires Placed(s, [], g) && s.current == Some(me) && me in s.status && s.status[me] == GRunning
    ensures Placed(YieldStep(s, me, preempted), [], g) && IsLive(s, g) == IsLive(YieldStep(s, me, preempted), g)
  {
    hide Count;
    var r := s.(status := s.status[me := GRunnable], current := None);
    PushCounts(r, me, g);
    assert CountQueued(r, g) == CountQueued(s, g);
  }

  lemma ExitKeeps<T>(s: Sys<T>, me: nat)
    requires Inv(s) && s.phase.InLoop? && s.current == Some(me)
    ensures Inv(ExitStep(s, me))
  {
    var s' := ExitStep(s, me);
    assert Placed(s, [], me);
    forall g: nat ensures Placed(s', [], g) && (g in Live(s') <==> g in Live(s) && g != me) {
      assert Placed(s, [], g);
    }
    assert Live(s') == Live(s) - {me};
  }

  lemma NewChanKeeps<T>(s: Sys<T>, cap: nat)
    requires Inv(s)
    ensures Inv(s.(chans := s.chans + [C.New(cap)]))
  {
    var s' := s.(chans := s.chans + [C.New(cap)]);
    forall g: nat ensures Placed(s', [], g) && CountBlocked(s'.chans, g) == CountBlocked(s.chans, g) {
      assert Placed(s, [], g);
      assert s'.chans[..|s.chans|] == s.chans;
      assert CountWaiting(C.New<T>(cap), g) == 0;
    }
  }

  /** What the loop finds is live, runnable, and no longer queued. */
  lemma FoundIsRunnable<T>(s: Sys<T>)
    requires Core(s, []) && FindRunnable(s).1.Some?
    ensures var (r, g) := FindRunnable(s);
      && g.value in s.status && s.status[g.value] == GRunnable
      && forall x: nat :: CountQueued(s, x) == CountQueued(r, x) + if x == g.value then 1 else 0
  {
    var (r, g) := FindRunnable(s);
    forall x: nat ensures CountQueued(s, x) == CountQueued(r, x) + if x == g.value then 1 else 0 {
      if s.local == [] || TailReadsZero(s) { CountFirst(s.global, x); }
    }
    assert Placed(s, [], g.value);
  }

  lemma ResumedPlaced<T>(s: Sys<T>, r: Sys<T>, found: nat, g: nat)
    requires Placed(s, [], g) && CountQueued(s, g) == CountQueued(r, g) + if g == found then 1 else 0
    requires s.current == r.current == None && r.status == s.status && r.chans == s.chans && r.nextId == s.nextId
    requires found in s.status && s.status[found] == GRunnable
    ensures Placed(Resumed(r, found), [], g) && IsLive(s, g) == IsLive(Resumed(r, found), g)
  {
    hide Count, CountBlocked;
    assert CountQueued(Resumed(r, found), g) == CountQueued(r, g);
  }

  lemma PickKeeps<T>(s: Sys<T>)
    requires Inv(s) && s.phase.InLoop? && s.current == None
    ensures Inv(PickStep(s))
  {
    hide Count, CountBlocked;
    var s' := PickStep(s);
    var (r, found) := FindRunnable(s);
    if found.Some? {
      FoundIsRunnable(s);
      forall g: nat ensures Placed(s', [], g) && IsLive(s, g) == IsLive(s', g) {
        assert Placed(s, [], g);
        assert CountQueued(s, g) == CountQueued(r, g) + if g == found.value then 1 else 0;
        ResumedPlaced(s, r, found.value, g);
      }
      SameLive(s, s');
    } else {
      forall g: nat ensures Placed(s', [], g) { assert Placed(s, [], g); }
      if s.live <= 0 {
        forall g: nat ensures CountBlocked(s.chans, g) == 0 {
          assert Placed(s, [], g);
          assert g !in Live(s);
        }
      }
    }
  }

  lemma StepKeeps<T>(s: Sys<T>, a: Action<T>)
    requires Inv(s)
    ensures Inv(Step(s, a))
  {
    match a
    case RunScheduler => SameCore(s, Step(s, a), []);
    case Pick => if s.phase.InLoop? && s.current.None? { PickKeeps(s); }
    case Spawn => if Acting(s) { SpawnKeeps(s); }
    case Yield(p) => if s.phase.InLoop? && s.current.Some? { YieldKeeps(s, s.current.value, p); }
    case Exit => if s.phase.InLoop? && s.current.Some? { ExitKeeps(s, s.current.value); }
    case NewChan(cap) => if Acting(s) { NewChanKeeps(s, cap); }
    case SendTo(ch, x) => if Acting(s) && ch < |s.chans| { SendKeeps(s, ch, x); }
    case RecvFrom(ch) => if Acting(s) && ch < |s.chans| { RecvKeeps(s, ch); }
    case CloseChan(ch) => if Acting(s) && ch < |s.chans| { CloseKeeps(s, ch); }
  }

  /** The invariant over every run of any program. */
  lemma {:induction false} RunKeeps<T>(acts: seq<Action<T>>)
    ensures Inv(Run(acts))
  {
    if acts == [] {
      assert Live(Init<T>()) == {};
    } else {
      RunKeeps(acts[..|acts| - 1]);
      StepKeeps(Run(acts[..|acts| - 1]), acts[|acts| - 1]);
    }
  }

  // ---------- The loop's verdict ----------

  /** g waits on some channel. */
  ghost predicate Blocked<T>(s: Sys<T>, g: nat) {
    exists i :: 0 <= i < |s.chans| && CountWaiting(s.chans[i], g) > 0
  }

  lemma {:induction false} BlockedSomewhere<T>(chans: seq<C.Chan<T>>, g: nat)
    ensures CountBlocked(chans, g) > 0 <==> exists i :: 0 <= i < |chans| && CountWaiting(chans[i], g) > 0
  {
    if chans != [] {
      var rest := chans[..|chans| - 1];
      BlockedSomewhere(rest, g);
      if CountBlocked(rest, g) > 0 {
        var i :| 0 <= i < |rest| && CountWaiting(rest[i], g) > 0;
        assert chans[i] == rest[i];
      }
      if exists i :: 0 <= i < |chans| && CountWaiting(chans[i], g) > 0 {
        var i :| 0 <= i < |chans| && CountWaiting(chans[i], g) > 0;
        if i < |rest| { assert rest[i] == chans[i]; }
      }
    }
  }

  ghost predicate AllDead<T>(s: Sys<T>) { forall g: nat :: !IsLive(s, g) }

  /** Every live thread waits on a channel, and there is one. */
  ghost predicate AllBlocked<T>(s: Sys<T>) {
    (exists g: nat :: IsLive(s, g)) && forall g: nat :: IsLive(s, g) ==> Blocked(s, g)
  }

  /** A thread is queued locally, where pop does not see it, and no other is runnable. */
  predicate Overlooked<T>(s: Sys<T>) { s.global == [] && s.local != [] && TailReadsZero(s) }

  /** At the top of the loop: it returns exactly when every thread is dead, and reports deadlock exactly when all
      live threads are blocked, or when the only runnable ones are overlooked. */
  lemma Verdict<T>(s: Sys<T>)
    requires Inv(s) && s.phase == InLoop && s.current == None
    ensures PickStep(s).phase == InMain <==> AllDead(s)
    ensures PickStep(s).phase == Aborted(Deadlock) <==> AllBlocked(s) || Overlooked(s)
    ensures AllBlocked(s) ==> s.local == s.global == []
  {
    forall g: nat ensures IsLive(s, g) && s.local == s.global == [] ==> Blocked(s, g) {
      assert Placed(s, [], g);
      BlockedSomewhere(s.chans, g);
    }
    if s.local != [] { QueuedIsRunnable(s, s.local[|s.local| - 1]); }
    if s.global != [] { QueuedIsRunnable(s, s.global[|s.global| - 1]); }
    assert forall g: nat :: IsLive(s, g) <==> g in Live(s);
    if Live(s) != {} {
      var g :| g in Live(s);
      assert IsLive(s, g);
    }
  }

  lemma QueuedIsRunnable<T>(s: Sys<T>, g: nat)
    requires Core(s, []) && CountQueued(s, g) > 0
    ensures IsLive(s, g) && !Blocked(s, g)
  {
    assert Placed(s, [], g);
    BlockedSomewhere(s.chans, g);
  }

  /** The verdict in every state that a run reaches at the top of the loop; a loop that returns gives up its P. */
  lemma LoopVerdict<T>(acts: seq<Action<T>>)
    requires Run(acts).phase == InLoop && Run(acts).current == None
    ensures var s := Run(acts); var s' := Step(s, Pick);
      && (s'.phase == InMain <==> AllDead(s)) && (s'.phase == InMain ==> !s'.hasP)
      && (s'.phase == Aborted(Deadlock) <==> AllBlocked(s) || Overlooked(s))
  {
    RunKeeps(acts);
    Verdict(Run(acts));
  }

  /** The pushes onto the local queue: no step but Pick shrinks it, and no other step takes from it. */
  function LocalPushes<T>(acts: seq<Action<T>>): nat {
    if acts == [] then 0
    else LocalPushes(acts[..|acts| - 1]) + Growth(Run(acts[..|acts| - 1]), Run(acts))
  }

  function Growth<T>(s: Sys<T>, s': Sys<T>): nat {
    if |s.local| < |s'.local| then |s'.local| - |s.local| else 0
  }

  lemma {:induction false} ReadyAllKeepsBase<T>(s: Sys<T>, gs: seq<nat>)
    ensures ReadyAll(s, gs).base == s.base && |ReadyAll(s, gs).local| >= |s.local|
    decreases gs
  {
    if gs != [] { ReadyAllKeepsBase(Ready(s, gs[0]), gs[1..]); }
  }

  lemma StepMovesTail<T>(s: Sys<T>, a: Action<T>)
    ensures Step(s, a).base + |Step(s, a).local| <= s.base + |s.local| + Growth(s, Step(s, a))
  {
    if a.CloseChan? && a.ch < |s.chans| {
      var r := C.Close(s.chans[a.ch]).1;
      if r.Closes? { ReadyAllKeepsBase(Shut(s, a.ch), r.receivers + r.senders); }
    }
  }

  lemma {:induction false} TailWithinPushes<T>(acts: seq<Action<T>>)
    ensures Run(acts).base + |Run(acts).local| <= LocalPushes(acts)
  {
    if acts != [] {
      TailWithinPushes(acts[..|acts| - 1]);
      StepMovesTail(Run(acts[..|acts| - 1]), acts[|acts| - 1]);
    }
  }

  /** Below 2^32 local pushes nothing is overlooked: deadlock is reported exactly when some thread is live and
      every live thread waits on a channel. */
  lemma CleanVerdict<T>(acts: seq<Action<T>>)
    requires Run(acts).phase == InLoop && Run(acts).current == None && LocalPushes(acts) < D.WORD
    ensures Step(Run(acts), Pick).phase == Aborted(Deadlock) <==> AllBlocked(Run(acts))
  {
    LoopVerdict(acts);
    TailWithinPushes(acts);
    NotOverlooked(Run(acts));
    hide Run, Step, LocalPushes, AllBlocked, AllDead, Overlooked;
  }

  lemma NotOverlooked<T>(s: Sys<T>)
    requires s.base + |s.local| < D.WORD
    ensures !Overlooked(s)
  {
  }

  /** One thread that does nothing but yield, k times. */
  function Yields<T>(k: nat): seq<Action<T>> {
    if k == 0 then [Spawn, RunScheduler] else Yields(k - 1) + [Pick] + [Yield(false)]
  }

  lemma RunLast<T>(acts: seq<Action<T>>, a: Action<T>)
    ensures Run(acts + [a]) == Step(Run(acts), a)
  {
    assert (acts + [a])[..|acts|] == acts;
  }

  /** That thread queued again after k turns, each of which moved the head and the tail of the queue by one. */
  function Queued<T>(k: nat): Sys<T> {
    Sys([1], k, [], None, map[1 := GRunnable], {}, map[], 1, 2, [], true, InLoop)
  }

  lemma OneTurn<T>(k: nat)
    requires k + 1 < D.WORD
    ensures Step(Step(Queued<T>(k), Pick), Yield(false)) == Queued(k + 1)
  {
    var s := Queued<T>(k);
    var picked := Step(s, Pick);
    assert picked == s.(local := [], base := k + 1, current := Some(1), status := map[1 := GRunning]) by {
      assert s.status[1 := GRunning] == map[1 := GRunning];
    }
    assert picked.status[1 := GRunnable] == s.status;
  }

  lemma TwoMore<T>(acts: seq<Action<T>>, a: Action<T>, b: Action<T>)
    ensures Run(acts + [a] + [b]) == Step(Step(Run(acts), a), b)
  {
    RunLast(acts, a);
    RunLast(acts + [a], b);
    hide Step, Run;
  }

  lemma YieldsStart<T>()
    ensures Run(Yields<T>(0)) == Queued(0)
  {
    assert Yields<T>(0) == [] + [Spawn] + [RunScheduler];
    RunLast<T>([], Spawn);
    RunLast<T>([] + [Spawn], RunScheduler);
  }

  lemma {:induction false} YieldsRun<T>(k: nat)
    requires k < D.WORD
    ensures Run(Yields<T>(k)) == Queued(k)
  {
    hide Step, Queued, Run;
    if k == 0 {
      YieldsStart<T>();
    } else {
      YieldsRun<T>(k - 1);
      OneTurn<T>(k - 1);
      TwoMore(Yields<T>(k - 1), Pick, Yield(false));
    }
  }

  /** The overlooked case is reachable: after 2^32 - 1 yields of a program's only thread, the loop aborts with a
      deadlock report although that thread is runnable. */
  lemma SpuriousDeadlock<T>()
    ensures var s := Run(Yields<T>(D.WORD - 1));
      && s.local == [1] && s.status == map[1 := GRunnable] && s.chans == []
      && Step(s, Pick).phase == Aborted(Deadlock)
  {
    YieldsRun<T>(D.WORD - 1);
    var s := Queued<T>(D.WORD - 1);
    assert TailReadsZero(s) by { assert s.base + |s.local| == D.WORD; }
    hide TailReadsZero, Run, Yields, PopLocal, Resumed;
    assert FindRunnable(s) == (s, None);
  }

  /** A blocked thread is rightly blocked: its channel could not serve it. */
  lemma NobodyCanProceed<T>(acts: seq<Action<T>>, i: nat, g: nat)
    requires i < |Run(acts).chans|
    ensures var c := Run(acts).chans[i];
      && (g in c.receivers ==> c.buffer == [] && c.senders == [] && !c.closed)
      && (g in C.Threads(c.senders) ==> |c.buffer| == c.cap && c.receivers == [] && !c.closed)
  {
    RunKeeps(acts);
    assert C.WellFormed(Run(acts).chans[i]);
  }

  // ---------- Channels in whole programs ----------

  /** What one step of the system asks of channel ch. */
  function Asked<T>(s: Sys<T>, a: Action<T>, ch: nat): seq<C.Op<T>> {
    if !Acting(s) || ch >= |s.chans| then []
    else match a
      case SendTo(i, v) => if i == ch then [C.SendOp(s.current, v)] else []
      case RecvFrom(i) => if i == ch then [C.RecvOp(s.current)] else []
      case CloseChan(i) => if i == ch then [C.CloseOp] else []
      case _ => []
  }

  /** The operations that a run performs on channel ch, in order. */
  function OpsOn<T>(acts: seq<Action<T>>, ch: nat): seq<C.Op<T>> {
    if acts == [] then []
    else OpsOn(acts[..|acts| - 1], ch) + Asked(Run(acts[..|acts| - 1]), acts[|acts| - 1], ch)
  }

  /** Channel ch as the past of a channel of its own, of the capacity it was made with. */
  function PastOf<T>(acts: seq<Action<T>>, ch: nat): C.Past<T>
    requires ch < |Run(acts).chans|
  {
    C.Run(Run(acts).chans[ch].cap, OpsOn(acts, ch))
  }

  lemma {:induction false} ReadyAllKeepsChans<T>(s: Sys<T>, gs: seq<nat>)
    ensures ReadyAll(s, gs).chans == s.chans
    decreases gs
  {
    if gs != [] { ReadyAllKeepsChans(Ready(s, gs[0]), gs[1..]); }
  }

  lemma CloseOnChannel<T>(s: Sys<T>, i: nat)
    requires i < |s.chans|
    ensures CloseStep(s, i).chans == s.chans[i := C.Close(s.chans[i]).0]
  {
    var r := C.Close(s.chans[i]).1;
    if r.Closes? { ReadyAllKeepsChans(Shut(s, i), r.receivers + r.senders); }
  }

  lemma SendOnChannel<T>(s: Sys<T>, i: nat, v: T)
    requires i < |s.chans|
    ensures SendStep(s, i, v).chans == s.chans[i := C.Send(s.chans[i], s.current, v).0]
  {
    assert s.chans[i := s.chans[i]] == s.chans;
  }

  lemma RecvOnChannel<T>(s: Sys<T>, i: nat)
    requires i < |s.chans|
    ensures RecvStep(s, i).chans == s.chans[i := C.Recv(s.chans[i], s.current).0]
  {
    assert s.chans[i := s.chans[i]] == s.chans;
  }

  lemma PickOnChannel<T>(s: Sys<T>)
    ensures PickStep(s).chans == s.chans
  {
  }

  /** A step changes channel ch by exactly what it asks of it, keeps every channel, and makes new ones empty. */
  lemma StepOnChannel<T>(s: Sys<T>, a: Action<T>, ch: nat)
    ensures |s.chans| <= |Step(s, a).chans|
    ensures ch < |s.chans| ==> var ops := Asked(s, a, ch);
      |ops| <= 1 && Step(s, a).chans[ch] == if ops == [] then s.chans[ch] else C.After(s.chans[ch], ops[0])
    ensures |s.chans| <= ch < |Step(s, a).chans| ==> a.NewChan? && Step(s, a).chans[ch] == C.New(a.cap)
  {
    hide PickStep, SendStep, RecvStep, CloseStep;
    PickOnChannel(s);
    match a
    case SendTo(i, v) => if i < |s.chans| { SendOnChannel(s, i, v); }
    case RecvFrom(i) => if i < |s.chans| { RecvOnChannel(s, i); }
    case CloseChan(i) => if i < |s.chans| { CloseOnChannel(s, i); }
    case _ =>
  }

  lemma {:induction false} UnmadeUnasked<T>(acts: seq<Action<T>>, ch: nat)
    requires ch >= |Run(acts).chans|
    ensures OpsOn(acts, ch) == []
  {
    hide Step;
    if acts != [] {
      StepOnChannel(Run(acts[..|acts| - 1]), acts[|acts| - 1], ch);
      UnmadeUnasked(acts[..|acts| - 1], ch);
    }
  }

  lemma EmptyRun<T>(cap: nat)
    ensures C.Run<T>(cap, []).c == C.New(cap)
  {
  }

  /** One more step of the run asks of ch what it asks, and nothing when ch is new. */
  lemma PastGrows<T>(acts: seq<Action<T>>, ch: nat)
    requires acts != [] && ch < |Run(acts[..|acts| - 1]).chans|
    ensures ch < |Run(acts).chans|
    ensures var before := acts[..|acts| - 1]; var ops := Asked(Run(before), acts[|acts| - 1], ch);
      PastOf(acts, ch) == if ops == [] then PastOf(before, ch) else C.Step(PastOf(before, ch), ops[0])
  {
    var before, a := acts[..|acts| - 1], acts[|acts| - 1];
    var s, s' := Run(before), Run(acts);
    var ops := Asked(s, a, ch);
    StepOnChannel(s, a, ch);
    assert s' == Step(s, a) && OpsOn(acts, ch) == OpsOn(before, ch) + ops;
    hide Run, OpsOn, Step, Asked, C.After;
    if ops == [] {
      assert OpsOn(acts, ch) == OpsOn(before, ch);
    } else {
      var cap := s.chans[ch].cap;
      C.AfterKeepsCap(s.chans[ch], ops[0]);
      assert OpsOn(acts, ch) == OpsOn(before, ch) + [ops[0]];
      C.RunLast(cap, OpsOn(before, ch), ops[0]);
    }
  }

  /** Every channel of every program is a channel run: what the program did to it, in order, from empty. */
  lemma {:induction false} ChannelRun<T>(acts: seq<Action<T>>, ch: nat)
    requires ch < |Run(acts).chans|
    ensures Run(acts).chans[ch] == PastOf(acts, ch).c
  {
    if acts != [] {
      var before, a := acts[..|acts| - 1], acts[|acts| - 1];
      var s := Run(before);
      var ops := Asked(s, a, ch);
      StepOnChannel(s, a, ch);
      assert Run(acts) == Step(s, a) && OpsOn(acts, ch) == OpsOn(before, ch) + ops;
      hide Run, OpsOn, Step, Asked, C.Run, C.Step, C.After;
      if ch >= |s.chans| {
        UnmadeUnasked(before, ch);
        EmptyRun<T>(Run(acts).chans[ch].cap);
        assert OpsOn(acts, ch) == [];
      } else {
        ChannelRun(before, ch);
        PastGrows(acts, ch);
        if ops != [] { C.StepIsAfter(PastOf(before, ch), ops[0]); }
      }
    }
  }

  /** So every channel of every program is accounted for. */
  lemma PastAccounted<T>(acts: seq<Action<T>>, ch: nat)
    requires ch < |Run(acts).chans|
    ensures PastOf(acts, ch).c == Run(acts).chans[ch] && C.Accounted(PastOf(acts, ch))
  {
    ChannelRun(acts, ch);
    C.RunAccounted(Run(acts).chans[ch].cap, OpsOn(acts, ch));
  }

  /** So in whole programs the k-th receive on a channel gets the k-th value sent on it, and nothing sent is lost
      but what close drops. */
  lemma ProgramChannels<T>(acts: seq<Action<T>>, ch: nat)
    requires ch < |Run(acts).chans|
    ensures var p := PastOf(acts, ch);
      && p.c == Run(acts).chans[ch] && C.Accounted(p)
      && forall k :: 0 <= k < |p.delivered| ==>
           k < |p.begun| && k < |p.sent| && p.delivered[k] == C.Delivery(p.begun[k], p.sent[k])
  {
    var cap, ops := Run(acts).chans[ch].cap, OpsOn(acts, ch);
    PastAccounted(acts, ch);
    forall k | 0 <= k < |PastOf(acts, ch).delivered|
      ensures var p := PastOf(acts, ch);
        k < |p.begun| && k < |p.sent| && p.delivered[k] == C.Delivery(p.begun[k], p.sent[k]) {
      C.KthReceiveGetsKthSend(cap, ops, k);
    }
  }

  /** g's cell holds the answer that its last receive on some channel got. */
  ghost predicate CellAnswered<T>(acts: seq<Action<T>>, g: nat, answer: Option<T>) {
    exists ch: nat :: ch < |Run(acts).chans| && C.Answered(PastOf(acts, ch), g, answer)
  }

  lemma AskedByOthers<T>(s: Sys<T>, a: Action<T>, ch: nat, g: nat)
    requires s.current != Some(g) && Asked(s, a, ch) != []
    ensures Asked(s, a, ch)[0] != C.RecvOp(Some(g))
  {
  }

  lemma CellStays<T>(acts: seq<Action<T>>, g: nat, answer: Option<T>)
    requires acts != [] && CellAnswered(acts[..|acts| - 1], g, answer) && Run(acts[..|acts| - 1]).current != Some(g)
    ensures CellAnswered(acts, g, answer)
  {
    hide Step, OpsOn;
    var before := acts[..|acts| - 1];
    var ch: nat :| ch < |Run(before).chans| && C.Answered(PastOf(before, ch), g, answer);
    PastGrows(acts, ch);
    PastAccounted(before, ch);
    var ops := Asked(Run(before), acts[|acts| - 1], ch);
    if ops != [] { AskedByOthers(Run(before), acts[|acts| - 1], ch, g); }
    hide Run, PastOf, Asked, C.Answered, C.Accounted, C.Step;
    if ops != [] { C.AnswerStays(PastOf(before, ch), ops[0], g, answer); }
  }

  /** A thread waits once. */
  lemma WaitsOnce<T>(s: Sys<T>, ch: nat, i: nat)
    requires Core(s, []) && ch < |s.chans| && i < |s.chans[ch].receivers|
    ensures s.chans[ch].receivers[i] !in s.chans[ch].receivers[i + 1..]
  {
    var q := s.chans[ch].receivers;
    var g := q[i];
    assert Placed(s, [], g);
    WaitingOnce(s.chans, ch, ch, g);
    assert q == q[..i + 1] + q[i + 1..];
    CountConcat(q[..i + 1], q[i + 1..], g);
    assert q[..i + 1][i] == g;
    CountMember(q[..i + 1], g);
    CountMember(q[i + 1..], g);
  }

  /** What a step puts into a cell is the answer to the receive that waits for it. */
  lemma CellFilled<T>(acts: seq<Action<T>>, ch: nat, g: nat)
    requires acts != [] && ch < |Run(acts[..|acts| - 1]).chans|
    requires var s := Run(acts[..|acts| - 1]); Acting(s) && !s.chans[ch].closed && g in s.chans[ch].receivers
    ensures var s := Run(acts[..|acts| - 1]); var a := acts[|acts| - 1];
      && (a.SendTo? && a.ch == ch && s.chans[ch].receivers[0] == g ==> CellAnswered(acts, g, Some(a.v)))
      && (a.CloseChan? && a.ch == ch ==> CellAnswered(acts, g, None))
  {
    var before, a := acts[..|acts| - 1], acts[|acts| - 1];
    var s, p := Run(before), PastOf(before, ch);
    RunKeeps(before);
    PastGrows(acts, ch);
    PastAccounted(before, ch);
    if a.SendTo? && a.ch == ch && s.chans[ch].receivers[0] == g {
      WaitsOnce(s, ch, 0);
      C.HandedAnswers(p, s.current, a.v);
    }
    if a.CloseChan? && a.ch == ch {
      var i :| 0 <= i < |s.chans[ch].receivers| && s.chans[ch].receivers[i] == g;
      WaitsOnce(s, ch, i);
      C.CloseAnswers(p, i);
    }
  }

  /** Where a value in a cell comes from. */
  lemma CellComes<T>(s: Sys<T>, a: Action<T>, g: nat)
    requires Inv(s) && g in Step(s, a).inbox
    ensures var x := Step(s, a).inbox[g];
      || (g in s.inbox && s.inbox[g] == x)
      || (Acting(s) && (a.SendTo? || a.CloseChan?) && a.ch < |s.chans| && !s.chans[a.ch].closed
          && g in s.chans[a.ch].receivers
          && (a.SendTo? ==> s.chans[a.ch].receivers[0] == g && x == Some(a.v)) && (a.CloseChan? ==> x == None))
  {
    hide Core, PickStep;
    PickReads(s);
    if a.CloseChan? && a.ch < |s.chans| {
      var r := C.Close(s.chans[a.ch]).1;
      if r.Closes? && Acting(s) {
        CloseFrees(s, a.ch);
        ReadyAllCore(Shut(s, a.ch), r.receivers + r.senders);
      }
    }
  }

  lemma PickReads<T>(s: Sys<T>)
    ensures forall g :: g in PickStep(s).inbox ==> g in s.inbox && PickStep(s).inbox[g] == s.inbox[g]
  {
  }

  /** In every run, what a woken receiver finds in its cell is what the channel's ledger gave its receive. */
  lemma {:induction false} CellIsAnswer<T>(acts: seq<Action<T>>, g: nat)
    requires g in Run(acts).inbox
    ensures CellAnswered(acts, g, Run(acts).inbox[g])
  {
    if acts != [] {
      var before, a := acts[..|acts| - 1], acts[|acts| - 1];
      var s := Run(before);
      RunKeeps(before);
      CellComes(s, a, g);
      assert HasRead(s);
      hide Step, Inv, CellAnswered;
      if g in s.inbox && s.inbox[g] == Run(acts).inbox[g] {
        CellIsAnswer(before, g);
        CellStays(acts, g, s.inbox[g]);
      } else {
        CellFilled(acts, a.ch, g);
      }
    }
  }

  /** g waits in channel ch for a value, or has one that it has not read. */
  predicate Receiving<T>(s: Sys<T>, ch: nat, g: nat) {
    g in s.inbox || (ch < |s.chans| && g in s.chans[ch].receivers)
  }

  lemma ReceivingClosed<T>(s: Sys<T>, i: nat, ch: nat, g: nat)
    requires Inv(s) && i < |s.chans| && Receiving(s, ch, g)
    ensures Receiving(CloseStep(s, i), ch, g) && CloseStep(s, i).current == s.current
  {
    var r := C.Close(s.chans[i]).1;
    if r.Closes? {
      CloseFrees(s, i);
      ReadyAllCore(Shut(s, i), r.receivers + r.senders);
      hide Core, Inv;
    }
  }

  lemma ReceivingSent<T>(s: Sys<T>, i: nat, v: T, ch: nat, g: nat)
    requires i < |s.chans| && Receiving(s, ch, g) && s.current != Some(g)
    ensures Receiving(SendStep(s, i, v), ch, g) && SendStep(s, i, v).current != Some(g)
  {
  }

  lemma ReceivingReceived<T>(s: Sys<T>, i: nat, ch: nat, g: nat)
    requires i < |s.chans| && Receiving(s, ch, g) && s.current != Some(g)
    ensures Receiving(RecvStep(s, i), ch, g) && RecvStep(s, i).current != Some(g)
  {
  }

  lemma ReceivingPicked<T>(s: Sys<T>, ch: nat, g: nat)
    requires Receiving(s, ch, g) && s.current != Some(g)
    ensures Receiving(PickStep(s), ch, g) || PickStep(s).current == Some(g)
    ensures PickStep(s).current == Some(g) ==> FindRunnable(s).1 == Some(g)
  {
  }

  /** A thread that blocked in a receive is resumed only once its cell is filled, and keeps its cell until then. */
  lemma ResumedWithAnswer<T>(s: Sys<T>, a: Action<T>, ch: nat, g: nat)
    requires Inv(s) && Receiving(s, ch, g)
    ensures s.current != Some(g)
    ensures Step(s, a).current == Some(g) ==> g in s.inbox
    ensures Receiving(Step(s, a), ch, g) || Step(s, a).current == Some(g)
  {
    WaiterIsIdle(s, ch, g);
    ReceivingPicked(s, ch, g);
    hide Inv, PickStep, SendStep, RecvStep, CloseStep, FindRunnable;
    match a
    case SendTo(i, v) => if i < |s.chans| { ReceivingSent(s, i, v, ch, g); }
    case RecvFrom(i) => if i < |s.chans| { ReceivingReceived(s, i, ch, g); }
    case CloseChan(i) => if i < |s.chans| { ReceivingClosed(s, i, ch, g); }
    case _ =>
  }

  lemma WaiterIsIdle<T>(s: Sys<T>, ch: nat, g: nat)
    requires Inv(s) && Receiving(s, ch, g)
    ensures s.current != Some(g) && (g !in s.inbox ==> FindRunnable(s).1 != Some(g))
  {
    if g !in s.inbox {
      CountMember(s.chans[ch].receivers, g);
      WaitingOnce(s.chans, ch, ch, g);
      assert Placed(s, [], g);
      if FindRunnable(s).1 == Some(g) { FoundIsRunnable(s); }
    }
  }
}
