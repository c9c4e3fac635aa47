/** What every channel operation answers, told by the channel's past alone: how many values were sent, delivered and
    dropped, how many receives were begun and answered, and whether the channel was closed. */
module ChanAnswers {
  import opened Options
  import opened ChanSpec

  /** The values sent that are neither delivered nor dropped, and the receives that are not answered. */
  function Undelivered<T>(p: Past<T>): int { |p.sent| - |p.dropped| - |p.delivered| }

  function Unanswered<T>(p: Past<T>): int { |p.begun| - |p.delivered| - |p.zeros| }

  /** Some operation closed the channel. */
  ghost predicate WasClosed<T>(ops: seq<Op<T>>) { exists i :: 0 <= i < |ops| && ops[i].CloseOp? }

  lemma {:induction false} ClosedIs<T>(cap: nat, ops: seq<Op<T>>)
    ensures Run(cap, ops).c.closed <==> WasClosed(ops)
    ensures Run(cap, ops).c.cap == cap
  {
    if ops != [] {
      var before, op := ops[..|ops| - 1], ops[|ops| - 1];
      ClosedIs(cap, before);
      StepIsAfter(Run(cap, before), op);
      AfterKeepsCap(Run(cap, before).c, op);
      AfterCloses(Run(cap, before).c, op);
      forall i | 0 <= i < |before| ensures before[i] == ops[i] {}
      hide Run, After, Step;
      if Run(cap, before).c.closed {
        var i :| 0 <= i < |before| && before[i].CloseOp?;
        assert ops[i].CloseOp?;
      }
    }
  }

  lemma AfterCloses<T>(c: Chan<T>, op: Op<T>)
    ensures After(c, op).closed <==> c.closed || op.CloseOp?
  {
  }

  /** Every value that is offered by a blocked sender has that sender in the ledger. */
  ghost predicate SendersLogged<T>(p: Past<T>) {
    && |p.sentBy| == |p.sent| == |p.delivered| + |p.c.buffer| + |p.c.senders| + |p.dropped|
    && forall j :: 0 <= j < |p.c.senders| ==> p.sentBy[|p.delivered| + |p.c.buffer| + j] == Some(p.c.senders[j].g)
  }

  lemma StepLogsSenders<T>(p: Past<T>, op: Op<T>)
    requires WellFormed(p.c) && SendersLogged(p) && (!p.c.closed ==> p.dropped == [])
    ensures SendersLogged(Step(p, op))
  {
  }

  lemma {:induction false} RunLogsSenders<T>(cap: nat, ops: seq<Op<T>>)
    ensures SendersLogged(Run(cap, ops))
  {
    if ops != [] {
      RunLogsSenders(cap, ops[..|ops| - 1]);
      RunAccounted(cap, ops[..|ops| - 1]);
      StepLogsSenders(Run(cap, ops[..|ops| - 1]), ops[|ops| - 1]);
    }
  }

  /** Value k was sent by g. */
  ghost predicate SentValue<T>(p: Past<T>, k: nat, g: nat) { k < |p.sentBy| && p.sentBy[k] == Some(g) }

  /** The ledgers' counts against the channel's queues. */
  lemma Counts<T>(cap: nat, ops: seq<Op<T>>)
    ensures var p := Run(cap, ops);
      && Undelivered(p) == |p.c.buffer| + |p.c.senders| && Unanswered(p) == |p.c.receivers|
      && WellFormed(p.c) && p.c.cap == cap && (p.c.closed <==> WasClosed(ops))
      && (p.c.senders != [] <==> Undelivered(p) > cap)
      && (p.c.receivers != [] ==> Undelivered(p) == 0)
  {
    RunAccounted(cap, ops);
    ClosedIs(cap, ops);
    hide Run;
  }

  /** What a send answers: a panic after a close, else a hand-over to the receive that has waited longest, else
      room in the buffer, else it blocks; only the main thread on an open channel is stuck. */
  lemma SendAnswers<T>(cap: nat, ops: seq<Op<T>>, g: Option<nat>, v: T)
    ensures var p := Run(cap, ops); var r := Send(p.c, g, v).1;
      if WasClosed(ops) then r == SendPanics
      else if Unanswered(p) > 0 then r.Handed? && p.begun[|p.delivered|] == Some(r.receiver)
      else if Undelivered(p) < cap then r == Buffered
      else r == if g.Some? then SendBlocks else SendStuck
  {
    Counts(cap, ops);
    var p := Run(cap, ops);
    RunAccounted(cap, ops);
    if !p.c.closed { WaitersBegun(p); }
  }

  /** What a receive answers: the next undelivered value if there is one, else zero after a close, else it waits;
      only the main thread on an open channel is stuck.  A sender is woken exactly when values were sent beyond the
      capacity, and it is the one whose value then enters the buffer, or is taken. */
  lemma RecvAnswers<T>(cap: nat, ops: seq<Op<T>>, g: Option<nat>)
    ensures var p := Run(cap, ops); var r := Recv(p.c, g).1;
      if Undelivered(p) > 0 then
        && r.Got? && r.value == p.sent[|p.delivered|] && (r.woken.Some? <==> Undelivered(p) > cap)
        && (r.woken.Some? ==> SentValue(p, |p.delivered| + cap, r.woken.value))
      else if WasClosed(ops) then r == GotZero
      else r == if g.Some? then RecvBlocks else RecvStuck
  {
    var p := Run(cap, ops);
    Counts(cap, ops);
    RunAccounted(cap, ops);
    RunLogsSenders(cap, ops);
    if Undelivered(p) > 0 {
      NextIs(p);
      WokenIs(p, g);
    }
    hide Run, Accounted, WasClosed, SendersLogged, SentValue;
  }

  /** The sender that a receive wakes. */
  lemma WokenIs<T>(p: Past<T>, g: Option<nat>)
    requires WellFormed(p.c) && SendersLogged(p)
    ensures var r := Recv(p.c, g).1;
      r.Got? ==>
        && (r.woken.Some? <==> p.c.senders != [])
        && (r.woken.Some? ==> SentValue(p, |p.delivered| + p.c.cap, r.woken.value))
  {
    if p.c.senders != [] { assert p.sentBy[|p.delivered| + |p.c.buffer| + 0] == Some(p.c.senders[0].g); }
  }

  /** The next value to be delivered is the oldest in the buffer, or else the first that is offered. */
  lemma NextIs<T>(p: Past<T>)
    requires Accounted(p) && Undelivered(p) > 0
    ensures p.c.buffer != [] ==> p.sent[|p.delivered|] == p.c.buffer[0]
    ensures p.c.buffer == [] ==> p.c.senders != [] && p.sent[|p.delivered|] == p.c.senders[0].value
  {
  }

  /** What a close answers: a panic after a close; else it wakes the receives that wait, oldest first, and the
      senders of all values beyond the capacity, which are the ones it drops. */
  lemma CloseIs<T>(cap: nat, ops: seq<Op<T>>)
    ensures var p := Run(cap, ops); var r := Close(p.c).1;
      if WasClosed(ops) then r == ClosePanics
      else
        && r.Closes? && |r.receivers| == Unanswered(p)
        && |r.senders| == (if Undelivered(p) > cap then Undelivered(p) - cap else 0)
        && ClosedWakes(p, cap, r.receivers, r.senders)
        && Step(p, CloseOp).dropped == p.sent[|p.sent| - |r.senders|..]
  {
    var p := Run(cap, ops);
    Counts(cap, ops);
    RunAccounted(cap, ops);
    RunLogsSenders(cap, ops);
    hide Run, WasClosed;
    if !p.c.closed {
      OffersLast(p);
      WakesThose(p);
    }
    hide Accounted, Values, Threads, SendersLogged;
  }

  ghost predicate ClosedWakes<T>(p: Past<T>, cap: nat, receivers: seq<nat>, senders: seq<nat>) {
    && |p.delivered| + |receivers| <= |p.begun|
    && (forall j :: 0 <= j < |receivers| ==> p.begun[|p.delivered| + j] == Some(receivers[j]))
    && (forall j :: 0 <= j < |senders| ==> SentValue(p, |p.delivered| + cap + j, senders[j]))
  }

  lemma WakesThose<T>(p: Past<T>)
    requires Accounted(p) && SendersLogged(p) && !p.c.closed
    ensures ClosedWakes(p, p.c.cap, p.c.receivers, Threads(p.c.senders))
  {
    WaitersBegun(p);
    hide Accounted;
  }

  lemma OffersLast<T>(p: Past<T>)
    requires Accounted(p) && !p.c.closed
    ensures |p.sent| >= |p.c.senders| && p.sent[|p.sent| - |p.c.senders|..] == Values(p.c.senders)
    ensures p.dropped == []
  {
    var before := Taken(p.delivered) + p.c.buffer;
    assert p.sent == before + Values(p.c.senders);
  }

  /** After a close every receive is answered at once, whoever calls: with the next value that is undelivered and
      not dropped, or with zero when there is none. */
  lemma ClosedReceive<T>(cap: nat, ops: seq<Op<T>>, g: Option<nat>)
    requires WasClosed(ops)
    ensures var p, p' := Run(cap, ops), Run(cap, ops + [RecvOp(g)]);
      if Undelivered(p) > 0 then
        p' == p.(c := p'.c, begun := p.begun + [g], delivered := p.delivered + [Delivery(g, p.sent[|p.delivered|])])
      else
        p' == p.(c := p'.c, begun := p.begun + [g], zeros := p.zeros + [g])
  {
    RecvAnswers(cap, ops, g);
    RunLast(cap, ops, RecvOp(g));
    hide Run, Recv, WasClosed;
  }

  // ---------- Senders that a close refuses ----------

  /** Value k is the last that g sent. */
  ghost predicate LastSent<T>(p: Past<T>, k: nat, g: nat) { LastIs(p.sentBy, k, g) }

  /** The last value that g sent was dropped by a close. */
  ghost predicate Refused<T>(p: Past<T>, g: nat) {
    exists k: nat :: LastSent(p, k, g) && k + |p.dropped| >= |p.sent|
  }

  lemma NeverRefused<T>(cap: nat, g: nat)
    ensures !Refused(Run<T>(cap, []), g)
  {
  }

  /** A close refuses exactly the senders that are blocked; no other operation refuses anybody, and a refusal stands
      as long as its thread does not send again. */
  lemma RefusedBy<T>(p: Past<T>, op: Op<T>, g: nat)
    requires Accounted(p) && SendersLogged(p)
    requires op.SendOp? && op.g == Some(g) ==> !Refused(p, g)
    ensures Refused(Step(p, op), g) <==> Refused(p, g) || (op.CloseOp? && !p.c.closed && g in Threads(p.c.senders))
  {
    match op
    case SendOp(_, _) => SendRefusesNone(p, op, g);
    case RecvOp(_) => SameSends(p, Step(p, op), g);
    case CloseOp =>
      if p.c.closed {
        SameSends(p, Step(p, op), g);
      } else {
        CloseRefuses(p, g);
      }
  }

  lemma SameSends<T>(p: Past<T>, p': Past<T>, g: nat)
    requires p'.sent == p.sent && p'.sentBy == p.sentBy && p'.dropped == p.dropped
    ensures Refused(p', g) <==> Refused(p, g)
  {
    if Refused(p, g) {
      var k: nat :| LastSent(p, k, g) && k + |p.dropped| >= |p.sent|;
      assert LastSent(p', k, g);
    }
    if Refused(p', g) {
      var k: nat :| LastSent(p', k, g) && k + |p.dropped| >= |p.sent|;
      assert LastSent(p, k, g);
    }
  }

  lemma SendRefusesNone<T>(p: Past<T>, op: Op<T>, g: nat)
    requires Accounted(p) && SendersLogged(p) && op.SendOp? && (op.g == Some(g) ==> !Refused(p, g))
    ensures Refused(Step(p, op), g) <==> Refused(p, g)
  {
    var p' := Step(p, op);
    if p.c.closed || p'.sent == p.sent {
      SameSends(p, p', g);
    } else {
      assert p.dropped == p'.dropped == [];
      assert |p'.sentBy| == |p'.sent| && |p.sentBy| == |p.sent|;
    }
  }

  lemma CloseRefuses<T>(p: Past<T>, g: nat)
    requires Accounted(p) && SendersLogged(p) && !p.c.closed
    ensures Refused(Step(p, CloseOp), g) <==> g in Threads(p.c.senders)
    ensures !Refused(p, g)
  {
    CloseDrops(p);
    hide Accounted, Step;
    var p' := Step(p, CloseOp);
    var n := |p.sent| - |p.c.senders|;
    if g in Threads(p.c.senders) {
      var j :| 0 <= j < |p.c.senders| && Threads(p.c.senders)[j] == g;
      OfferedBy(p, n + j);
      LastExists(p'.sentBy, n + j, g);
      var k: nat :| n + j <= k < |p'.sentBy| && LastIs(p'.sentBy, k, g);
      assert LastSent(p', k, g);
    }
    if Refused(p', g) {
      var k: nat :| LastSent(p', k, g) && k + |p'.dropped| >= |p'.sent|;
      OfferedBy(p, k);
    }
  }

  lemma CloseDrops<T>(p: Past<T>)
    requires Accounted(p) && SendersLogged(p) && !p.c.closed
    ensures p.dropped == [] && |p.sentBy| == |p.sent| >= |p.c.senders|
    ensures var p' := Step(p, CloseOp); p'.sentBy == p.sentBy && p'.sent == p.sent && |p'.dropped| == |p.c.senders|
  {
  }

  /** The last values sent are the ones offered. */
  lemma OfferedBy<T>(p: Past<T>, k: nat)
    requires SendersLogged(p) && p.dropped == [] && |p.sent| - |p.c.senders| <= k < |p.sent|
    ensures p.sentBy[k] == Some(Threads(p.c.senders)[k - (|p.sent| - |p.c.senders|)])
  {
    var j := k - (|p.sent| - |p.c.senders|);
    assert Threads(p.c.senders)[j] == p.c.senders[j].g;
    assert p.sentBy[|p.delivered| + |p.c.buffer| + j] == Some(p.c.senders[j].g);
  }

  predicate LastIs(s: seq<Option<nat>>, k: nat, g: nat) {
    k < |s| && s[k] == Some(g) && forall j :: k < j < |s| ==> s[j] != Some(g)
  }

  lemma {:induction false} LastExists(s: seq<Option<nat>>, i: nat, g: nat)
    requires i < |s| && s[i] == Some(g)
    ensures exists k: nat :: i <= k < |s| && LastIs(s, k, g)
    decreases |s| - i
  {
    if j: nat :| i < j < |s| && s[j] == Some(g) { LastExists(s, j, g); } else { assert LastIs(s, i, g); }
  }
}
