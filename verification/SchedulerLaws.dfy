/** What whole programs may count on: which threads the loop resumes and in which order, exactly which of them it
    aborts when it resumes them, and exactly when a program aborts at all. */
module SchedulerLaws {
  import opened Options
  import opened GQueues
  import opened SchedulerSpec
  import C = ChanSpec
  import A = ChanAnswers
  import D = Deque

  // ---------- Threads with a panic flag are runnable ----------

  lemma {:induction false} ReadyAllCounts<T>(s: Sys<T>, gs: seq<nat>, x: nat)
    ensures CountQueued(ReadyAll(s, gs), x) == CountQueued(s, x) + Count(gs, x)
    ensures ReadyAll(s, gs).panics == s.panics
    decreases gs
  {
    if gs != [] {
      ReadyCounts(s, gs[0], x);
      ReadyAllCounts(Ready(s, gs[0]), gs[1..], x);
      CountFirst(gs, x);
    }
    hide CountQueued;
  }

  /** The flagged threads are queued. */
  ghost predicate Flagged<T>(s: Sys<T>) { forall g :: g in s.panics ==> CountQueued(s, g) > 0 }

  /** A flagged thread is neither running nor waiting. */
  lemma FlaggedIsIdle<T>(s: Sys<T>, g: nat)
    requires Inv(s) && Flagged(s) && g in s.panics
    ensures s.current != Some(g) && forall ch :: 0 <= ch < |s.chans| ==> g !in s.chans[ch].receivers
  {
    assert Placed(s, [], g);
    forall ch | 0 <= ch < |s.chans| ensures g !in s.chans[ch].receivers {
      WaitingOnce(s.chans, ch, ch, g);
      CountMember(s.chans[ch].receivers, g);
    }
  }

  lemma CloseFlags<T>(s: Sys<T>, ch: nat)
    requires ch < |s.chans| && Flagged(s)
    ensures Flagged(CloseStep(s, ch))
  {
    var r := C.Close(s.chans[ch]).1;
    if r.Closes? {
      var t := Shut(s, ch);
      var f := r.receivers + r.senders;
      forall g | g in CloseStep(s, ch).panics ensures CountQueued(CloseStep(s, ch), g) > 0 {
        ReadyAllCounts(t, f, g);
        CountMember(f, g);
        assert CountQueued(t, g) == CountQueued(s, g);
      }
    }
  }

  lemma PickFlags<T>(s: Sys<T>)
    requires Inv(s) && Flagged(s)
    ensures Flagged(PickStep(s))
  {
    if FindRunnable(s).1.Some? {
      FoundIsRunnable(s);
      forall g | g in PickStep(s).panics ensures CountQueued(PickStep(s), g) > 0 {
        assert g in s.panics && CountQueued(s, g) > 0;
      }
    }
    hide CountQueued;
  }

  lemma QueuesGrow<T>(s: Sys<T>, a: Action<T>, g: nat)
    requires !a.Pick? && !a.CloseChan?
    ensures CountQueued(Step(s, a), g) >= CountQueued(s, g) && Step(s, a).panics <= s.panics
  {
    hide Count;
    match a
    case Spawn =>
      var t := s.(status := s.status[s.nextId := GRunnable], live := s.live + 1, nextId := s.nextId + 1, hasP := true);
      PushCounts(t, s.nextId, g);
    case Yield(_) =>
      if s.current.Some? {
        PushCounts(s.(status := s.status[s.current.value := GRunnable], current := None), s.current.value, g);
      }
    case SendTo(ch, v) =>
      if ch < |s.chans| {
        var (c, r) := C.Send(s.chans[ch], s.current, v);
        if r.Handed? {
          ReadyCounts(s.(chans := s.chans[ch := c], inbox := HandIn(s.inbox, r, v)), r.receiver, g);
        }
      }
    case RecvFrom(ch) =>
      if ch < |s.chans| {
        var (c, r) := C.Recv(s.chans[ch], s.current);
        if r.Got? && r.woken.Some? { ReadyCounts(s.(chans := s.chans[ch := c]), r.woken.value, g); }
      }
    case _ =>
  }

  lemma StepFlags<T>(s: Sys<T>, a: Action<T>)
    requires Inv(s) && Flagged(s)
    ensures Flagged(Step(s, a))
  {
    hide CountQueued, Inv;
    if a.Pick? {
      PickFlags(s);
    } else if a.CloseChan? {
      if a.ch < |s.chans| { CloseFlags(s, a.ch); }
    } else {
      forall g | g in Step(s, a).panics ensures CountQueued(Step(s, a), g) > 0 { QueuesGrow(s, a, g); }
      hide Step;
    }
  }

  lemma {:induction false} RunFlags<T>(acts: seq<Action<T>>)
    ensures Flagged(Run(acts))
  {
    if acts != [] {
      RunFlags(acts[..|acts| - 1]);
      RunKeeps(acts[..|acts| - 1]);
      StepFlags(Run(acts[..|acts| - 1]), acts[|acts| - 1]);
    }
  }

  // ---------- Senders of a closed channel ----------

  /** The step closes a channel on which g is blocked in a send. */
  ghost predicate ClosesOn<T>(s: Sys<T>, a: Action<T>, g: nat) {
    && Acting(s) && a.CloseChan? && a.ch < |s.chans| && !s.chans[a.ch].closed
    && g in C.Threads(s.chans[a.ch].senders)
  }

  lemma PickPanics<T>(s: Sys<T>, g: nat)
    requires s.current == None && s.phase == InLoop
    ensures g in PickStep(s).panics <==> g in s.panics && PickStep(s).current != Some(g)
    ensures PickStep(s).current == Some(g) ==>
      PickStep(s).phase == if g in s.panics then Aborted(SendOnClosed) else InLoop
  {
  }

  lemma ClosePanicsAre<T>(s: Sys<T>, ch: nat, g: nat)
    requires Inv(s) && Flagged(s) && ch < |s.chans|
    ensures g in CloseStep(s, ch).panics
      <==> g in s.panics || (!s.chans[ch].closed && g in C.Threads(s.chans[ch].senders))
    ensures CloseStep(s, ch).current == s.current
  {
    var r := C.Close(s.chans[ch]).1;
    if g in s.panics { FlaggedIsIdle(s, g); }
    if r.Closes? {
      ReadyAllCounts(Shut(s, ch), r.receivers + r.senders, g);
      CloseFrees(s, ch);
      ReadyAllCore(Shut(s, ch), r.receivers + r.senders);
    }
    hide Inv, Core, Flagged, CountQueued;
  }

  /** A flag is set by a close on a blocked sender, and cleared when its thread is resumed. */
  lemma FlagsMove<T>(s: Sys<T>, a: Action<T>, g: nat)
    requires Inv(s) && Flagged(s)
    ensures g in Step(s, a).panics <==> (g in s.panics && Step(s, a).current != Some(g)) || ClosesOn(s, a, g)
    ensures g in s.panics && Step(s, a).current == Some(g) ==> Step(s, a).phase == Aborted(SendOnClosed)
  {
    if g in s.panics { FlaggedIsIdle(s, g); }
    if a.CloseChan? && a.ch < |s.chans| { ClosePanicsAre(s, a.ch, g); }
    if a.Pick? && s.current == None && s.phase == InLoop { PickPanics(s, g); }
    hide Inv, Flagged, PickStep, CloseStep;
  }

  /** The last value that g sent on some channel was dropped by that channel's close. */
  ghost predicate Refused<T>(acts: seq<Action<T>>, g: nat) {
    exists ch: nat :: RefusedOn(acts, ch, g)
  }

  ghost predicate RefusedOn<T>(acts: seq<Action<T>>, ch: nat, g: nat) {
    ch < |Run(acts).chans| && A.Refused(PastOf(acts, ch), g)
  }

  lemma RefusedOnStep<T>(acts: seq<Action<T>>, ch: nat, g: nat)
    requires acts != []
    requires var s := Run(acts[..|acts| - 1]);
      Acting(s) && s.current == Some(g) ==> !RefusedOn(acts[..|acts| - 1], ch, g)
    ensures var s := Run(acts[..|acts| - 1]); var a := acts[|acts| - 1];
      RefusedOn(acts, ch, g)
      <==> RefusedOn(acts[..|acts| - 1], ch, g) || (ClosesOn(s, a, g) && a.ch == ch)
  {
    var before, a := acts[..|acts| - 1], acts[|acts| - 1];
    var s := Run(before);
    assert Run(acts) == Step(s, a);
    StepOnChannel(s, a, ch);
    hide Run, Step;
    if ch < |s.chans| {
      PastGrows(acts, ch);
      PastAccounted(before, ch);
      A.RunLogsSenders(s.chans[ch].cap, OpsOn(before, ch));
      AskedIs(s, a, ch);
      hide Asked, PastOf, C.Accounted, A.SendersLogged, C.Step, A.Refused;
      var ops, p := Asked(s, a, ch), PastOf(before, ch);
      if ops != [] { A.RefusedBy(p, ops[0], g); }
    } else if ch < |Run(acts).chans| {
      PastOfNew(acts, ch);
      A.NeverRefused<T>(Run(acts).chans[ch].cap, g);
    }
  }

  lemma AskedIs<T>(s: Sys<T>, a: Action<T>, ch: nat)
    requires ch < |s.chans|
    ensures var ops := Asked(s, a, ch);
      && |ops| <= 1
      && ((ops != [] && ops[0].CloseOp?) <==> Acting(s) && a.CloseChan? && a.ch == ch)
      && (ops != [] && ops[0].SendOp? ==> Acting(s) && ops[0].g == s.current)
  {
  }

  lemma PastOfNew<T>(acts: seq<Action<T>>, ch: nat)
    requires acts != [] && |Run(acts[..|acts| - 1]).chans| <= ch < |Run(acts).chans|
    ensures PastOf(acts, ch) == C.Run(Run(acts).chans[ch].cap, [])
  {
    UnmadeUnasked(acts[..|acts| - 1], ch);
    assert OpsOn(acts, ch) == [];
  }

  lemma RefusedStep<T>(acts: seq<Action<T>>, g: nat)
    requires acts != []
    requires var s := Run(acts[..|acts| - 1]); Acting(s) && s.current == Some(g) ==> !Refused(acts[..|acts| - 1], g)
    ensures Refused(acts, g)
      <==> Refused(acts[..|acts| - 1], g) || ClosesOn(Run(acts[..|acts| - 1]), acts[|acts| - 1], g)
  {
    var before, a := acts[..|acts| - 1], acts[|acts| - 1];
    forall ch: nat ensures RefusedOn(acts, ch, g)
      <==> RefusedOn(before, ch, g) || (ClosesOn(Run(before), a, g) && a.ch == ch) {
      RefusedOnStep(acts, ch, g);
    }
    hide RefusedOn, Run;
    if ClosesOn(Run(before), a, g) { assert RefusedOn(acts, a.ch, g); }
  }

  /** In every run: a thread has its panic flag set exactly when the last value that it sent was dropped by a close,
      until it is resumed, which aborts the program. */
  lemma {:induction false} FlaggedIffRefused<T>(acts: seq<Action<T>>, g: nat)
    ensures var s := Run(acts);
      && (g in s.panics ==> Refused(acts, g))
      && (Refused(acts, g) ==> g in s.panics || (s.phase == Aborted(SendOnClosed) && s.current == Some(g)))
  {
    if acts != [] {
      var before, a := acts[..|acts| - 1], acts[|acts| - 1];
      var s := Run(before);
      FlaggedIffRefused(before, g);
      RunKeeps(before);
      RunFlags(before);
      if g in s.panics { FlaggedIsIdle(s, g); }
      assert Run(acts) == Step(s, a);
      assert s.phase.Aborted? ==> Step(s, a) == s && !ClosesOn(s, a, g) && !Acting(s);
      hide Run, Refused, Inv;
      RefusedStep(acts, g);
      FlagsMove(s, a, g);
      hide Step, Flagged, ClosesOn, Acting;
    } else {
      assert !Refused(acts, g);
    }
  }

  /** A thread that the loop resumes is aborted exactly when the last value that it sent was dropped by a close;
      whoever received, was received from, was handed a value or got zero runs on. */
  lemma ResumeAborts<T>(acts: seq<Action<T>>, g: nat)
    requires Run(acts).phase == InLoop && Run(acts).current == None && Step(Run(acts), Pick).current == Some(g)
    ensures Step(Run(acts), Pick).phase == if Refused(acts, g) then Aborted(SendOnClosed) else InLoop
  {
    FlaggedIffRefused(acts, g);
    PickPanics(Run(acts), g);
  }

  lemma RefusedStands<T>(acts: seq<Action<T>>, g: nat)
    requires acts != [] && Refused(acts[..|acts| - 1], g)
    ensures Refused(acts, g)
  {
    var before := acts[..|acts| - 1];
    FlaggedIffRefused(before, g);
    RunKeeps(before);
    RunFlags(before);
    if g in Run(before).panics { FlaggedIsIdle(Run(before), g); }
    hide Run, Refused, Inv, Flagged;
    RefusedStep(acts, g);
  }

  /** After a close, a thread that was blocked in a send on the channel never runs again: whenever it is the current
      one, the program has aborted with a send on a closed channel. */
  lemma {:induction false} ClosedSenderAborts<T>(acts: seq<Action<T>>, m: nat, g: nat)
    requires m < |acts| && ClosesOn(Run(acts[..m]), acts[m], g)
    ensures Refused(acts, g)
    ensures Run(acts).current == Some(g) ==> Run(acts).phase == Aborted(SendOnClosed)
  {
    var before := acts[..|acts| - 1];
    if m < |acts| - 1 {
      assert before[..m] == acts[..m] && before[m] == acts[m];
      ClosedSenderAborts(before, m, g);
      RefusedStands(acts, g);
    } else {
      assert acts[..m] == before;
      NotRunning(Run(before), acts[m], g);
      RunKeeps(before);
      RefusedStep(acts, g);
    }
    RunKeeps(acts);
    RunFlags(acts);
    FlaggedIffRefused(acts, g);
    if g in Run(acts).panics { FlaggedIsIdle(Run(acts), g); }
  }

  lemma NotRunning<T>(s: Sys<T>, a: Action<T>, g: nat)
    requires ClosesOn(s, a, g)
    ensures Inv(s) ==> s.current != Some(g)
  {
    if Inv(s) {
      assert Placed(s, [], g);
      WaitingOnce(s.chans, a.ch, a.ch, g);
      CountMember(C.Threads(s.chans[a.ch].senders), g);
    }
  }

  // ---------- When programs abort ----------

  /** Program code is running, and the channel exists. */
  ghost predicate On<T>(acts: seq<Action<T>>, ch: nat) { Acting(Run(acts)) && ch < |Run(acts).chans| }

  ghost predicate ClosedIn<T>(acts: seq<Action<T>>, ch: nat) { A.WasClosed(OpsOn(acts, ch)) }

  /** The main thread would wait for ever: nobody receives and the buffer is full, or there is nothing to receive. */
  ghost predicate MainSendStuck<T>(acts: seq<Action<T>>, ch: nat)
    requires ch < |Run(acts).chans|
  {
    var p := PastOf(acts, ch);
    && Run(acts).current.None? && !ClosedIn(acts, ch)
    && A.Unanswered(p) <= 0 && A.Undelivered(p) >= Run(acts).chans[ch].cap
  }

  ghost predicate MainRecvStuck<T>(acts: seq<Action<T>>, ch: nat)
    requires ch < |Run(acts).chans|
  {
    Run(acts).current.None? && !ClosedIn(acts, ch) && A.Undelivered(PastOf(acts, ch)) <= 0
  }

  /** Why the next action aborts the program, if it does, told by what the program did before. */
  ghost function WhyAborts<T>(acts: seq<Action<T>>, a: Action<T>): Option<Fault> {
    var s := Run(acts);
    match a
    case SendTo(ch, _) =>
      if !On(acts, ch) then None
      else if ClosedIn(acts, ch) then Some(SendOnClosed)
      else if MainSendStuck(acts, ch) then Some(MainWouldBlock) else None
    case RecvFrom(ch) => if On(acts, ch) && MainRecvStuck(acts, ch) then Some(MainWouldBlock) else None
    case CloseChan(ch) => if On(acts, ch) && ClosedIn(acts, ch) then Some(CloseOfClosed) else None
    case Pick =>
      if s.phase != InLoop || s.current.Some? then None
      else if AllBlocked(s) || Overlooked(s) then Some(Deadlock)
      else if FindRunnable(s).1.Some? && Refused(acts, FindRunnable(s).1.value) then Some(SendOnClosed)
      else None
    case _ => None
  }

  function PhaseAfter(phase: Phase, why: Option<Fault>): Phase {
    match why case Some(fault) => Aborted(fault) case None => phase
  }

  /** The answers that abort, by the channel's past. */
  lemma SendFails<T>(acts: seq<Action<T>>, ch: nat, v: T)
    requires ch < |Run(acts).chans|
    ensures var r := C.Send(Run(acts).chans[ch], Run(acts).current, v).1;
      (r.SendPanics? <==> ClosedIn(acts, ch)) && (r.SendStuck? <==> MainSendStuck(acts, ch))
  {
    var cap := Run(acts).chans[ch].cap;
    ChannelRun(acts, ch);
    A.SendAnswers(cap, OpsOn(acts, ch), Run(acts).current, v);
    A.Counts(cap, OpsOn(acts, ch));
    hide Run, OpsOn, A.WasClosed, C.Send, C.Run;
  }

  lemma RecvFails<T>(acts: seq<Action<T>>, ch: nat)
    requires ch < |Run(acts).chans|
    ensures C.Recv(Run(acts).chans[ch], Run(acts).current).1.RecvStuck? <==> MainRecvStuck(acts, ch)
  {
    ChannelRun(acts, ch);
    A.RecvAnswers(Run(acts).chans[ch].cap, OpsOn(acts, ch), Run(acts).current);
    hide Run, OpsOn, A.WasClosed, C.Recv, C.Run, A.SentValue;
  }

  lemma CloseFails<T>(acts: seq<Action<T>>, ch: nat)
    requires ch < |Run(acts).chans|
    ensures C.Close(Run(acts).chans[ch]).1.ClosePanics? <==> ClosedIn(acts, ch)
  {
    ChannelRun(acts, ch);
    A.CloseIs(Run(acts).chans[ch].cap, OpsOn(acts, ch));
    hide Run, OpsOn, A.WasClosed, C.Close, C.Run, A.ClosedWakes, C.Step;
  }

  lemma SendAborts<T>(acts: seq<Action<T>>, ch: nat, v: T)
    requires On(acts, ch)
    ensures var s := Run(acts); SendStep(s, ch, v).phase == PhaseAfter(s.phase, WhyAborts(acts, SendTo(ch, v)))
  {
    SendFails(acts, ch, v);
    SendPhase(Run(acts), ch, v);
    hide Run, C.Send, SendStep, ClosedIn, MainSendStuck;
  }

  lemma SendPhase<T>(s: Sys<T>, ch: nat, v: T)
    requires ch < |s.chans|
    ensures var r := C.Send(s.chans[ch], s.current, v).1;
      SendStep(s, ch, v).phase ==
        if r.SendPanics? then Aborted(SendOnClosed) else if r.SendStuck? then Aborted(MainWouldBlock) else s.phase
  {
    hide C.Send;
  }

  lemma RecvAborts<T>(acts: seq<Action<T>>, ch: nat)
    requires On(acts, ch)
    ensures var s := Run(acts); RecvStep(s, ch).phase == PhaseAfter(s.phase, WhyAborts(acts, RecvFrom(ch)))
  {
    RecvFails(acts, ch);
    RecvPhase(Run(acts), ch);
    hide Run, C.Recv, RecvStep, MainRecvStuck;
  }

  lemma RecvPhase<T>(s: Sys<T>, ch: nat)
    requires ch < |s.chans|
    ensures RecvStep(s, ch).phase
      == if C.Recv(s.chans[ch], s.current).1.RecvStuck? then Aborted(MainWouldBlock) else s.phase
  {
    hide C.Recv;
  }

  lemma CloseAborts<T>(acts: seq<Action<T>>, ch: nat)
    requires On(acts, ch)
    ensures var s := Run(acts); CloseStep(s, ch).phase == PhaseAfter(s.phase, WhyAborts(acts, CloseChan(ch)))
  {
    CloseFails(acts, ch);
    RunKeeps(acts);
    ClosePhase(Run(acts), ch);
    hide Run, C.Close, CloseStep, ClosedIn, Inv;
  }

  lemma ClosePhase<T>(s: Sys<T>, ch: nat)
    requires Inv(s) && ch < |s.chans|
    ensures CloseStep(s, ch).phase == if C.Close(s.chans[ch]).1.ClosePanics? then Aborted(CloseOfClosed) else s.phase
  {
    var r := C.Close(s.chans[ch]).1;
    if r.Closes? {
      CloseFrees(s, ch);
      ReadyAllCore(Shut(s, ch), r.receivers + r.senders);
    }
    hide Core, ReadyAll;
  }

  /** The program has aborted for that reason, or has not aborted when there is none. */
  predicate AbortsFor<T>(s: Sys<T>, why: Option<Fault>) {
    match why case Some(fault) => s.phase == Aborted(fault) case None => !s.phase.Aborted?
  }

  lemma PickAborts<T>(acts: seq<Action<T>>)
    requires Run(acts).phase == InLoop && Run(acts).current == None
    ensures AbortsFor(PickStep(Run(acts)), WhyAborts(acts, Pick))
  {
    var s := Run(acts);
    LoopVerdict(acts);
    if FindRunnable(s).1.Some? {
      FlaggedIffRefused(acts, FindRunnable(s).1.value);
      PickPanics(s, FindRunnable(s).1.value);
    }
    hide Run, Refused, AllBlocked, AllDead, Overlooked;
  }

  /** A program that has not aborted aborts at its next action exactly for the reasons that its past gives: a send
      or close on a channel that was closed before, the main thread in a wait that nobody can end, a resumed sender
      whose value a close dropped, or a loop that finds all live threads blocked or overlooks the last ones. */
  lemma AbortsExactly<T>(acts: seq<Action<T>>, a: Action<T>)
    requires !Run(acts).phase.Aborted?
    ensures AbortsFor(Step(Run(acts), a), WhyAborts(acts, a))
  {
    var s := Run(acts);
    match a
    case SendTo(ch, v) => if On(acts, ch) { SendAborts(acts, ch, v); }
    case RecvFrom(ch) => if On(acts, ch) { RecvAborts(acts, ch); }
    case CloseChan(ch) => if On(acts, ch) { CloseAborts(acts, ch); }
    case Pick => if s.phase == InLoop && s.current.None? { PickAborts(acts); }
    case _ =>
  }

  // ---------- The order in which threads are resumed ----------

  /** What an action adds to the end of the global queue. */
  function Entering<T>(s: Sys<T>, s': Sys<T>): seq<nat> {
    if |s.global| < |s'.global| then s'.global[|s.global|..] else []
  }

  /** The thread that the loop resumes out of the global queue. */
  function Leaving<T>(s: Sys<T>, s': Sys<T>): seq<nat> {
    if s'.current.Some? && s'.current != s.current && s'.local == s.local then [s'.current.value] else []
  }

  /** All that entered the global queue in a run, and all that was resumed out of it, in order. */
  function GlobalIn<T>(acts: seq<Action<T>>): seq<nat> {
    if acts == [] then []
    else GlobalIn(acts[..|acts| - 1]) + Entering(Run(acts[..|acts| - 1]), Run(acts))
  }

  function GlobalOut<T>(acts: seq<Action<T>>): seq<nat> {
    if acts == [] then []
    else GlobalOut(acts[..|acts| - 1]) + Leaving(Run(acts[..|acts| - 1]), Run(acts))
  }

  lemma {:induction false} ReadyAllQueues<T>(s: Sys<T>, gs: seq<nat>)
    ensures var r := ReadyAll(s, gs);
      && s.local <= r.local && s.global <= r.global && r.current == s.current && r.hasP == s.hasP
      && (|r.local| > D.SIZE ==> |s.local| > D.SIZE)
      && (s.hasP && r.global != s.global ==> |r.local| >= D.SIZE)
    decreases gs
  {
    if gs != [] { ReadyAllQueues(Ready(s, gs[0]), gs[1..]); }
  }

  /** What the steps do to the queues: only the loop takes threads out; a thread enters the global queue only when
      it is preempted, when the local queue is full, or when no P is held. */
  lemma QueuesMove<T>(s: Sys<T>, a: Action<T>)
    requires Inv(s) && a != Pick
    ensures var s' := Step(s, a);
      && s.local <= s'.local && s.global <= s'.global
      && (s'.current == s.current || s'.current == None)
      && (s'.global != s.global ==> a == Yield(true) || |s'.local| == D.SIZE || !s.hasP)
  {
    assert |s.local| <= D.SIZE;
    hide Inv, Core, SendStep, RecvStep, CloseStep;
    match a
    case SendTo(ch, v) => if ch < |s.chans| { SendQueues(s, ch, v); }
    case RecvFrom(ch) => if ch < |s.chans| { RecvQueues(s, ch); }
    case CloseChan(ch) => if ch < |s.chans| { CloseQueues(s, ch); }
    case _ =>
  }

  /** At most the wake-up of a thread. */
  ghost predicate OnlyWakes<T>(s: Sys<T>, s': Sys<T>) {
    && s.local <= s'.local && s.global <= s'.global && (s'.current == s.current || s'.current == None)
    && (s'.global != s.global ==> |s'.local| == D.SIZE || !s.hasP)
  }

  lemma SendQueues<T>(s: Sys<T>, ch: nat, v: T)
    requires ch < |s.chans| && |s.local| <= D.SIZE
    ensures OnlyWakes(s, SendStep(s, ch, v))
  {
  }

  lemma RecvQueues<T>(s: Sys<T>, ch: nat)
    requires ch < |s.chans| && |s.local| <= D.SIZE
    ensures OnlyWakes(s, RecvStep(s, ch))
  {
  }

  lemma CloseQueues<T>(s: Sys<T>, ch: nat)
    requires ch < |s.chans| && |s.local| <= D.SIZE
    ensures OnlyWakes(s, CloseStep(s, ch))
  {
    var r := C.Close(s.chans[ch]).1;
    if r.Closes? { ReadyAllQueues(Shut(s, ch), r.receivers + r.senders); }
  }

  /** The loop resumes the newest local thread, and one from the global queue only when the local queue is empty or
      its tail counter reads zero. */
  lemma PickMoves<T>(s: Sys<T>)
    requires s.current == None
    ensures var s' := PickStep(s);
      if s'.current == None then s'.local == s.local && s'.global == s.global
      else if s.local != [] && !TailReadsZero(s) then
        s.local == s'.local + [s'.current.value] && s'.global == s.global
      else s'.local == s.local && s.global == [s'.current.value] + s'.global
  {
    FoundMoves(s);
    hide FindRunnable, TailReadsZero;
  }

  lemma FoundMoves<T>(s: Sys<T>)
    ensures var (r, g) := FindRunnable(s);
      && r.current == s.current
      && (if g == None then r.local == s.local && r.global == s.global
          else if s.local != [] && !TailReadsZero(s) then s.local == r.local + [g.value] && s.global == r.global
          else r.local == s.local && s.global == [g.value] + r.global)
  {
    if s.local != [] { assert s.local == s.local[..|s.local| - 1] + [s.local[|s.local| - 1]]; }
    if s.global != [] { assert s.global == [s.global[0]] + s.global[1..]; }
    hide TailReadsZero;
  }

  /** In every run the global queue is first in, first out. */
  lemma {:induction false} GlobalIsFifo<T>(acts: seq<Action<T>>)
    ensures GlobalIn(acts) == GlobalOut(acts) + Run(acts).global
  {
    if acts != [] {
      var before, a := acts[..|acts| - 1], acts[|acts| - 1];
      var s := Run(before);
      var s' := Run(acts);
      GlobalIsFifo(before);
      RunKeeps(before);
      if a.Pick? && s.phase == InLoop && s.current == None { PickMoves(s); } else if !a.Pick? { QueuesMove(s, a); }
      assert s' == Step(s, a);
      hide Run, Inv, PickStep;
      FifoStep(GlobalIn(before), GlobalOut(before), s, s');
    }
  }

  lemma FifoStep<T>(was: seq<nat>, out: seq<nat>, s: Sys<T>, s': Sys<T>)
    requires was == out + s.global
    requires (s.global <= s'.global && (s'.current == s.current || s'.current == None || s'.local != s.local))
      || (s.local == s'.local && s'.current.Some? && s.current == None && s.global == [s'.current.value] + s'.global)
    ensures was + Entering(s, s') == out + Leaving(s, s') + s'.global
  {
    if s.global <= s'.global { assert s'.global == s.global + s'.global[|s.global|..]; }
  }

  /** The tail counter reads zero after one more push. */
  predicate WillReadZero<T>(s: Sys<T>) { (s.base + |s.local| + 1) % D.WORD == 0 }

  /** A thread that yields of its own accord to a local queue with room is resumed next, before any other; only the
      one tail counter that reads zero is an exception. */
  lemma YieldComesBack<T>(acts: seq<Action<T>>, g: nat)
    requires Run(acts).phase == InLoop && Run(acts).current == Some(g) && |Run(acts).local| < D.SIZE
    requires !WillReadZero(Run(acts))
    ensures Run(acts + [Yield(false)] + [Pick]).current == Some(g)
  {
    TwoMore(acts, Yield(false), Pick);
    YieldPick(Run(acts), g);
    hide Run, Step, WillReadZero;
  }

  lemma YieldPick<T>(s: Sys<T>, g: nat)
    requires s.phase == InLoop && s.current == Some(g) && |s.local| < D.SIZE
    requires !WillReadZero(s)
    ensures Step(Step(s, Yield(false)), Pick).current == Some(g)
  {
    var t := Step(s, Yield(false));
    assert t.local == s.local + [g] && t.base == s.base && t.phase == InLoop && t.current == None;
    assert s.base + |s.local| + 1 == t.base + |t.local|;
    assert !TailReadsZero(t);
    hide TailReadsZero, YieldStep;
  }

  lemma PreemptedPick<T>(s: Sys<T>, g: nat)
    requires s.phase == InLoop && s.current == Some(g) && g !in s.local && g !in s.global
    ensures Step(Step(s, Yield(true)), Pick).current == Some(g)
      <==> s.global == [] && (s.local == [] || TailReadsZero(s))
  {
    var t := Step(s, Yield(true));
    assert t.global == s.global + [g] && t.local == s.local && t.base == s.base;
    assert TailReadsZero(t) == TailReadsZero(s);
    assert t.global[0] == if s.global == [] then g else s.global[0];
    hide TailReadsZero;
  }

  /** A preempted thread is resumed next exactly when nothing else is queued, or all that is is overlooked. */
  lemma PreemptedGoesLast<T>(acts: seq<Action<T>>, g: nat)
    requires Run(acts).phase == InLoop && Run(acts).current == Some(g)
    ensures var s := Run(acts);
      Run(acts + [Yield(true)] + [Pick]).current == Some(g)
      <==> s.global == [] && (s.local == [] || TailReadsZero(s))
  {
    var s := Run(acts);
    RunKeeps(acts);
    assert Placed(s, [], g);
    CountMember(s.local, g);
    CountMember(s.global, g);
    PreemptedPick(s, g);
    TwoMore(acts, Yield(true), Pick);
    hide Run, Step, Inv, Placed;
  }
}
